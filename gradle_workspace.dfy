/**
 * `GradleWorkspace` of the Java crate: a Gradle project whose version
 * lives in `build.gradle.kts` or `build.gradle`. Its private
 * `update_version_kts` / `update_version_groovy` use the four regexes of
 * `version_updater.rs` and are modelled by `GradleVersion.UpdateKts` and
 * `GradleVersion.UpdateGroovy`.
 */
module GradleWorkspaces {
  import opened Wrappers
  import opened Text
  import opened UpdateTypes
  import opened GradleVersion
  import NextVersion
  import Paths

  const PublishCommand: string := "./gradlew publish"

  /** The Kotlin rewriter is used exactly when the file name ends with ".kts" (no file name reads as ""). */
  predicate IsKts(path: Paths.Path) {
    EndsWith(Paths.FileName(path).GetOr(""), ".kts")
  }

  /** The rewrite `update_version` applies to the build file's content. */
  function Rewrite(path: Paths.Path, content: string, next: string): string {
    if IsKts(path) then UpdateKts(content, next) else UpdateGroovy(content, next)
  }

  /**
   * The specification of `update_version`: the content written to the
   * build file, or the first error among the bump, the read (`read`, the
   * content on success) and the write (`write`).
   */
  function UpdateOutcome(path: Paths.Path, version: Option<string>, t: UpdateType,
                         read: Result<string>, write: Result<()>): Result<string> {
    var next :- NextVersion.NewVersion(version, t);
    var content :- read;
    if write.Err? then Err(write.error) else Ok(Rewrite(path, content, next))
  }

  /** The update succeeds exactly when the bump, the read and the write do; the errors come in that order. */
  lemma UpdateSucceeds(path: Paths.Path, version: Option<string>, t: UpdateType, read: Result<string>, write: Result<()>)
    ensures UpdateOutcome(path, version, t, read, write).Ok?
      <==> NextVersion.NewVersion(version, t).Ok? && read.Ok? && write.Ok?
    ensures NextVersion.NewVersion(version, t).Err? ==>
      UpdateOutcome(path, version, t, read, write) == Err(NextVersion.NewVersion(version, t).error)
    ensures NextVersion.NewVersion(version, t).Ok? && read.Err? ==>
      UpdateOutcome(path, version, t, read, write) == Err(read.error)
    ensures NextVersion.NewVersion(version, t).Ok? && read.Ok? && write.Err? ==>
      UpdateOutcome(path, version, t, read, write) == Err(write.error)
  {
  }

  /** What is written is the read content through the Kotlin rewriter for a ".kts" file, the Groovy one otherwise. */
  lemma UpdateDispatch(path: Paths.Path, version: Option<string>, t: UpdateType, read: Result<string>, write: Result<()>)
    requires UpdateOutcome(path, version, t, read, write).Ok?
    ensures var next := NextVersion.NewVersion(version, t).value;
      UpdateOutcome(path, version, t, read, write).value
        == if IsKts(path) then UpdateKts(read.value, next) else UpdateGroovy(read.value, next)
  {
  }

  /** A workspace without a version is bumped as if it had "0.0.0". */
  lemma MissingVersionIsZero(path: Paths.Path, t: UpdateType, read: Result<string>, write: Result<()>)
    ensures UpdateOutcome(path, None, t, read, write) == UpdateOutcome(path, Some("0.0.0"), t, read, write)
  {
    NextVersion.MissingIsDefault(t);
  }

  /** In a Kotlin build file the first `version = "…"` line gets the bumped version in double quotes. */
  lemma KtsUpdateRewritesVersion(path: Paths.Path, version: Option<string>, t: UpdateType, content: string,
                                 write: Result<()>, i: nat, g: nat, e: nat)
    requires IsKts(path) && NextVersion.NewVersion(version, t).Ok? && write.Ok?
    requires RegexMatch(content, KtsSimple, i, g, e) && NoMatchBefore(content, KtsSimple, i)
    ensures UpdateOutcome(path, version, t, Ok(content), write)
      == Ok(content[..g] + ("\"" + NextVersion.NewVersion(version, t).value + "\"") + content[e..])
  {
    KtsRewritesSimple(content, NextVersion.NewVersion(version, t).value, i, g, e);
  }

  /** In a Groovy build file the first `version = …` line gets the bumped version in single quotes. */
  lemma GroovyUpdateRewritesVersion(path: Paths.Path, version: Option<string>, t: UpdateType, content: string,
                                    write: Result<()>, i: nat, g: nat, e: nat)
    requires !IsKts(path) && NextVersion.NewVersion(version, t).Ok? && write.Ok?
    requires RegexMatch(content, GroovyAssign, i, g, e) && NoMatchBefore(content, GroovyAssign, i)
    ensures UpdateOutcome(path, version, t, Ok(content), write)
      == Ok(content[..g] + ("'" + NextVersion.NewVersion(version, t).value + "'") + content[e..])
  {
    GroovyRewritesAssign(content, NextVersion.NewVersion(version, t).value, i, g, e);
  }

  /** `build.gradle.kts` takes the Kotlin rewriter, `build.gradle` the Groovy one. */
  lemma FileNameDispatch(dir: seq<string>)
    ensures IsKts(Paths.Path(true, dir + ["build.gradle.kts"]))
    ensures !IsKts(Paths.Path(true, dir + ["build.gradle"]))
  {
    var kts := Paths.Path(true, dir + ["build.gradle.kts"]);
    var groovy := Paths.Path(true, dir + ["build.gradle"]);
    assert Paths.FileName(kts) == Some("build.gradle.kts");
    assert Paths.FileName(groovy) == Some("build.gradle");
    assert "build.gradle.kts"[12..] == ".kts";
    assert "build.gradle"[8..] != ".kts" by {
      assert "build.gradle"[8..][0] == 'a';
    }
  }

  class GradleWorkspace {
    var path: Paths.Path
    var relativePath: Paths.Path
    var version: Option<string>
    var name: Option<string>
    var isChanged: bool
    var dependencies: set<string>

    /** `GradleWorkspace::new`: the given fields, not changed, no dependencies. */
    constructor (name: Option<string>, version: Option<string>, path: Paths.Path, relativePath: Paths.Path)
      ensures this.name == name && this.version == version
      ensures this.path == path && this.relativePath == relativePath
      ensures !isChanged && dependencies == {}
    {
      this.path := path;
      this.relativePath := relativePath;
      this.name := name;
      this.version := version;
      isChanged := false;
      dependencies := {};
    }

    /**
     * `update_version`; `read` and `write` are the outcomes of reading and
     * writing the build file, and the result holds the content written.
     * The version is stored only once the write has succeeded.
     */
    method UpdateVersion(t: UpdateType, read: Result<string>, write: Result<()>) returns (r: Result<string>)
      modifies this
      ensures r == UpdateOutcome(path, old(version), t, read, write)
      ensures version == if r.Ok? then Some(NextVersion.NewVersion(old(version), t).value) else old(version)
      ensures name == old(name) && path == old(path) && relativePath == old(relativePath)
      ensures isChanged == old(isChanged) && dependencies == old(dependencies)
    {
      var next := NextVersion.NewVersion(version, t);
      if next.Err? {
        return Err(next.error);
      }
      if read.Err? {
        return Err(read.error);
      }
      var fileName := Paths.FileName(path).GetOr("");
      var updated;
      if EndsWith(fileName, ".kts") {
        updated := UpdateKts(read.value, next.value);
      } else {
        updated := UpdateGroovy(read.value, next.value);
      }
      if write.Err? {
        return Err(write.error);
      }
      version := Some(next.value);
      r := Ok(updated);
    }

    method SetChanged(changed: bool)
      modifies this
      ensures isChanged == changed
      ensures name == old(name) && version == old(version) && path == old(path)
      ensures relativePath == old(relativePath) && dependencies == old(dependencies)
    {
      isChanged := changed;
    }

    /** `add_dependency`: set insertion, so adding a present name changes nothing. */
    method AddDependency(dependency: string)
      modifies this
      ensures dependencies == old(dependencies) + {dependency}
      ensures name == old(name) && version == old(version) && path == old(path)
      ensures relativePath == old(relativePath) && isChanged == old(isChanged)
    {
      dependencies := dependencies + {dependency};
    }
  }
}
