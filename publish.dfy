/**
 * `resolve_publish_command` of the core crate: the command configured for
 * the project's relative path, else the one configured for its language's
 * publish key, else the package manager's default.
 */
module Publish {
  import opened Languages

  /** The `publish` table of the configuration: keys are relative paths or language keys. */
  type PublishConfig = map<string, string>

  function ResolvePublishCommand(relativePath: string, language: Language, default: string, config: PublishConfig): (cmd: string)
    ensures relativePath in config ==> cmd == config[relativePath]
    ensures relativePath !in config && PublishKey(language) in config ==> cmd == config[PublishKey(language)]
    ensures relativePath !in config && PublishKey(language) !in config ==> cmd == default
  {
    if relativePath in config then config[relativePath]
    else if PublishKey(language) in config then config[PublishKey(language)]
    else default
  }

  /** The command always comes from one of the three sources, whatever the configuration holds. */
  lemma ResolvedFromSources(relativePath: string, language: Language, default: string, config: PublishConfig)
    ensures var cmd := ResolvePublishCommand(relativePath, language, default, config);
      cmd == default || cmd in config.Values
  {
  }

  /** A language-wide entry serves every project of that language without a path entry. */
  lemma LanguageEntryServesAll(relativePath: string, language: Language, default: string, config: PublishConfig, cmd: string)
    requires relativePath !in config
    ensures ResolvePublishCommand(relativePath, language, default, config[PublishKey(language) := cmd]) == cmd
  {
  }

  /** A path entry decides the command whatever language entries or default there are. */
  lemma PathEntryWins(relativePath: string, l1: Language, l2: Language, d1: string, d2: string, config: PublishConfig)
    requires relativePath in config
    ensures ResolvePublishCommand(relativePath, l1, d1, config) == ResolvePublishCommand(relativePath, l2, d2, config)
  {
  }

  /** The three cases of the source's tests, for a Node package at `packages/core/package.json`. */
  lemma ResolveExamples()
    ensures ResolvePublishCommand("packages/core/package.json", Node, "npm publish",
                                  map["packages/core/package.json" := "custom publish"]) == "custom publish"
    ensures ResolvePublishCommand("package.json", Node, "npm publish",
                                  map["node" := "npm publish --access public"]) == "npm publish --access public"
    ensures ResolvePublishCommand("package.json", Node, "npm publish", map[]) == "npm publish"
  {
    assert "package.json" != "node" by {
      assert "package.json"[0] != "node"[0];
    }
  }
}
