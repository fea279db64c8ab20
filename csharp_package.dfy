/**
 * `CSharpPackage` of the C# crate, and the version update it shares with
 * `CSharpWorkspace`: bump the current version ("0.0.0" when there is
 * none), rewrite the .csproj document, write it, and only then store the
 * new version.
 */
module CSharpPackages {
  import opened Wrappers
  import opened Text
  import opened UpdateTypes
  import opened Xml
  import opened XmlUtils
  import NextVersion
  import Paths

  /** `default_publish_command` of both the package and the workspace. */
  const PublishCommand: string := "dotnet pack -c Release && dotnet nuget push"

  /** A .csproj file as read: its text and the events the reader produces for it. */
  datatype Manifest = Manifest(text: string, events: seq<Event>)

  /** How the rewrite of a manifest is set up: its own indentation, the new version, whether one existed. */
  function SettingsFor(m: Manifest, next: string, hasVersion: bool): Settings {
    Settings(IndentText(XmlIndent(Lines(m.text))), next, hasVersion)
  }

  /**
   * The specification of `update_version`: the events written to the
   * manifest, or the first error among the bump, the read (`read`), the
   * rewrite and the write (`write`).
   */
  function UpdateOutcome(version: Option<string>, t: UpdateType, read: Result<Manifest>, write: Result<()>): Result<seq<Event>> {
    var next :- NextVersion.NewVersion(version, t);
    var m :- read;
    var updated :- UpdateResult(m.events, SettingsFor(m, next, version.Some?));
    if write.Err? then Err(write.error) else Ok(updated)
  }

  /** The update succeeds exactly when the bump, the read, the reader and the write all do. */
  lemma UpdateSucceeds(version: Option<string>, t: UpdateType, read: Result<Manifest>, write: Result<()>)
    ensures UpdateOutcome(version, t, read, write).Ok?
      <==> NextVersion.NewVersion(version, t).Ok? && read.Ok? && !Fails(read.value.events) && write.Ok?
    ensures NextVersion.NewVersion(version, t).Err? ==> UpdateOutcome(version, t, read, write) == Err(NextVersion.NewVersion(version, t).error)
    ensures NextVersion.NewVersion(version, t).Ok? && read.Err? ==> UpdateOutcome(version, t, read, write) == Err(read.error)
  {
    if NextVersion.NewVersion(version, t).Ok? && read.Ok? {
      UpdateShape(read.value.events, SettingsFor(read.value, NextVersion.NewVersion(version, t).value, version.Some?));
    }
  }

  /**
   * What is written is the document as read with one edit at most: the
   * new version in place of one text, or, only when there was no version,
   * a Version element added before a PropertyGroup end tag.
   */
  lemma UpdateWritesOneEdit(version: Option<string>, t: UpdateType, read: Result<Manifest>, write: Result<()>)
    requires UpdateOutcome(version, t, read, write).Ok?
    ensures OneEdit(UpdateOutcome(version, t, read, write).value, Read(read.value.events),
                    SettingsFor(read.value, NextVersion.NewVersion(version, t).value, version.Some?))
    ensures version.Some? ==>
      UpdateOutcome(version, t, read, write).value == Read(read.value.events)
      || exists k: nat | k < |Read(read.value.events)| ::
           ReplacedAt(UpdateOutcome(version, t, read, write).value, Read(read.value.events), k,
                      SettingsFor(read.value, NextVersion.NewVersion(version, t).value, version.Some?))
  {
    UpdateShape(read.value.events, SettingsFor(read.value, NextVersion.NewVersion(version, t).value, version.Some?));
  }

  /**
   * The edit of a successful update is at the first place for it in the
   * document as read: the version text there is replaced, or the Version
   * element is added before the PropertyGroup end tag there.
   */
  lemma UpdateEditsAtSlot(version: Option<string>, t: UpdateType, read: Result<Manifest>, write: Result<()>, k: nat)
    requires UpdateOutcome(version, t, read, write).Ok?
    requires k < |Read(read.value.events)|
    requires EditSlot(Read(read.value.events), k, SettingsFor(read.value, NextVersion.NewVersion(version, t).value, version.Some?))
    requires forall j :: 0 <= j < k ==>
      !EditSlot(Read(read.value.events), j, SettingsFor(read.value, NextVersion.NewVersion(version, t).value, version.Some?))
    ensures Read(read.value.events)[k].Text? ==>
      ReplacedAt(UpdateOutcome(version, t, read, write).value, Read(read.value.events), k,
                 SettingsFor(read.value, NextVersion.NewVersion(version, t).value, version.Some?))
    ensures Read(read.value.events)[k].End? ==>
      InsertedAt(UpdateOutcome(version, t, read, write).value, Read(read.value.events), k,
                 SettingsFor(read.value, NextVersion.NewVersion(version, t).value, version.Some?))
  {
    var s := SettingsFor(read.value, NextVersion.NewVersion(version, t).value, version.Some?);
    UpdateSucceeds(version, t, read, write);
    UpdateEditsFirstSlot(read.value.events, s, k);
  }

  /** With no place for the edit, a successful update writes the document back as read. */
  lemma UpdateWithoutSlotKeeps(version: Option<string>, t: UpdateType, read: Result<Manifest>, write: Result<()>)
    requires UpdateOutcome(version, t, read, write).Ok?
    requires forall k :: 0 <= k < |Read(read.value.events)| ==>
      !EditSlot(Read(read.value.events), k, SettingsFor(read.value, NextVersion.NewVersion(version, t).value, version.Some?))
    ensures UpdateOutcome(version, t, read, write).value == Read(read.value.events)
  {
    UpdateSucceeds(version, t, read, write);
    UpdateWithoutSlot(read.value.events, SettingsFor(read.value, NextVersion.NewVersion(version, t).value, version.Some?));
  }

  /**
   * A Patch of 1.0.0 writes 1.0.1 into the Version element of the first
   * PropertyGroup, whatever white space or other elements surround the tags.
   */
  lemma PatchRewritesVersion(pre: seq<Event>, group: string, ga: seq<Attribute>, mid: seq<Event>,
                             version: string, va: seq<Attribute>, current: string, tail: seq<Event>, rest: seq<Event>,
                             text: string, write: Result<()>)
    requires LocalName(group) == "PropertyGroup" && LocalName(version) == "Version" && write.Ok?
    requires NoStops(pre) && NoStops(mid) && NoStops(tail)
    requires forall j :: 0 <= j < |pre| ==> !Structural(pre[j])
    requires forall j :: 0 <= j < |mid| ==> !Structural(mid[j])
    ensures UpdateOutcome(Some("1.0.0"), Patch,
                          Ok(Manifest(text, pre + [Start(group, ga)] + mid + [Start(version, va), Text(current)] + tail + [Eof] + rest)), write)
      == Ok(pre + [Start(group, ga)] + mid + [Start(version, va), Text("1.0.1")] + tail)
  {
    NextVersion.PatchExample("1.0.0");
    var m := Manifest(text, pre + [Start(group, ga)] + mid + [Start(version, va), Text(current)] + tail + [Eof] + rest);
    VersionTextReplaced(pre, group, ga, mid, version, va, current, tail, rest, SettingsFor(m, "1.0.1", true));
  }

  /**
   * Without a version, a Patch adds a Version element holding 0.0.1 before
   * the first PropertyGroup ends, whatever white space or other elements
   * surround the tags.
   */
  lemma PatchAddsVersion(pre: seq<Event>, group: string, ga: seq<Attribute>, mid: seq<Event>, groupEnd: string,
                         tail: seq<Event>, rest: seq<Event>, text: string, write: Result<()>)
    requires LocalName(group) == "PropertyGroup" && LocalName(groupEnd) == "PropertyGroup" && write.Ok?
    requires NoStops(pre) && NoStops(mid) && NoStops(tail)
    requires forall j :: 0 <= j < |pre| ==> !Structural(pre[j])
    requires forall j :: 0 <= j < |mid| ==> !Structural(mid[j])
    ensures UpdateOutcome(None, Patch,
                          Ok(Manifest(text, pre + [Start(group, ga)] + mid + [End(groupEnd)] + tail + [Eof] + rest)), write)
      == Ok(pre + [Start(group, ga)] + mid + VersionBlock(IndentText(XmlIndent(Lines(text))), "0.0.1") + [End(groupEnd)] + tail)
  {
    NextVersion.ZeroPatchExample("0.0.0");
    var m := Manifest(text, pre + [Start(group, ga)] + mid + [End(groupEnd)] + tail + [Eof] + rest);
    VersionElementAdded(pre, group, ga, mid, groupEnd, tail, rest, SettingsFor(m, "0.0.1", false));
  }

  class CSharpPackage {
    var name: Option<string>
    var version: Option<string>
    var path: Paths.Path
    var relativePath: Paths.Path
    var isChanged: bool
    var dependencies: set<string>

    /** `CSharpPackage::new`: the given fields, not changed, no dependencies. */
    constructor (name: Option<string>, version: Option<string>, path: Paths.Path, relativePath: Paths.Path)
      ensures this.name == name && this.version == version
      ensures this.path == path && this.relativePath == relativePath
      ensures !isChanged && dependencies == {}
    {
      this.name := name;
      this.version := version;
      this.path := path;
      this.relativePath := relativePath;
      isChanged := false;
      dependencies := {};
    }

    /**
     * `update_version`; `read` and `write` are the outcomes of reading and
     * writing the manifest file. The version is stored only once the
     * write has succeeded.
     */
    method UpdateVersion(t: UpdateType, read: Result<Manifest>, write: Result<()>) returns (r: Result<seq<Event>>)
      modifies this
      ensures r == UpdateOutcome(old(version), t, read, write)
      ensures version == if r.Ok? then Some(NextVersion.NewVersion(old(version), t).value) else old(version)
      ensures name == old(name) && path == old(path) && relativePath == old(relativePath)
      ensures isChanged == old(isChanged) && dependencies == old(dependencies)
    {
      var next := NextVersion.NewVersion(version, t);
      if next.Err? {
        return Err(next.error);
      }
      if read.Err? {
        return Err(read.error);
      }
      var hasVersion := version.Some?;
      var updated := UpdateVersionInXml(read.value.text, read.value.events, next.value, hasVersion);
      if updated.Err? {
        return Err(updated.error);
      }
      if write.Err? {
        return Err(write.error);
      }
      version := Some(next.value);
      r := Ok(updated.value);
    }

    method SetChanged(changed: bool)
      modifies this
      ensures isChanged == changed
      ensures name == old(name) && version == old(version) && path == old(path)
      ensures relativePath == old(relativePath) && dependencies == old(dependencies)
    {
      isChanged := changed;
    }

    /** `add_dependency`: set insertion, so adding a present name changes nothing. */
    method AddDependency(dependency: string)
      modifies this
      ensures dependencies == old(dependencies) + {dependency}
      ensures name == old(name) && version == old(version) && path == old(path)
      ensures relativePath == old(relativePath) && isChanged == old(isChanged)
    {
      dependencies := dependencies + {dependency};
    }
  }
}
