/**
 * `CSharpProjectFinder` of the C# crate: the extractors that read a
 * .csproj document event by event (its version, its package references,
 * the names of the projects it references) and `visit`, which records one
 * package or workspace per manifest path.
 */
module CSharpFinder {
  import opened Wrappers
  import opened Text
  import opened Xml
  import XmlUtils
  import opened Paths
  import opened CSharpPackages
  import opened CSharpWorkspaces

  // ---------------------------------------------------------------------
  // extract_version
  // ---------------------------------------------------------------------

  /** What a tag does to the two flags: PropertyGroup tags open and close the group, Version tags the element. */
  function Flags(inGroup: bool, inVersion: bool, e: Event): (bool, bool) {
    if e.Start? then
      if LocalName(e.name) == "PropertyGroup" then (true, inVersion)
      else if inGroup && LocalName(e.name) == "Version" then (inGroup, true)
      else (inGroup, inVersion)
    else if e.End? then
      if LocalName(e.name) == "PropertyGroup" then (false, inVersion)
      else if LocalName(e.name) == "Version" then (inGroup, false)
      else (inGroup, inVersion)
    else (inGroup, inVersion)
  }

  /**
   * The version the reader finds from here on, inside a PropertyGroup
   * (`inGroup`) and a Version element (`inVersion`): the first text inside
   * a Version element that is not blank once trimmed, trimmed; nothing
   * once the reader stops.
   */
  function VersionFrom(inGroup: bool, inVersion: bool, evs: seq<Event>): Option<string>
    decreases |evs|
  {
    if evs == [] then None
    else
      var e := evs[0];
      if e.Text? && inVersion && Trim(e.content) != [] then Some(Trim(e.content))
      else if Stops(e) then None
      else
        var flags := Flags(inGroup, inVersion, e);
        VersionFrom(flags.0, flags.1, evs[1..])
  }

  /** The specification of `extract_version`. */
  function ExtractedVersion(events: seq<Event>): Option<string> {
    VersionFrom(false, false, events)
  }

  /** `extract_version`: the event loop with its two flags and an early return. */
  method ExtractVersion(events: seq<Event>) returns (v: Option<string>)
    ensures v == ExtractedVersion(events)
  {
    var inGroup, inVersion := false, false;
    var i := 0;
    while i < |events|
      invariant 0 <= i <= |events|
      invariant VersionFrom(inGroup, inVersion, events[i..]) == ExtractedVersion(events)
    {
      var e := events[i];
      assert events[i..][0] == e && events[i..][1..] == events[i + 1..];
      ghost var flags := Flags(inGroup, inVersion, e);
      if e.Start? {
        var name := LocalName(e.name);
        if name == "PropertyGroup" {
          inGroup := true;
        } else if inGroup && name == "Version" {
          inVersion := true;
        }
      } else if e.End? {
        var name := LocalName(e.name);
        if name == "PropertyGroup" {
          inGroup := false;
        } else if name == "Version" {
          inVersion := false;
        }
      } else if e.Text? {
        if inVersion {
          var version := Trim(e.content);
          if version != [] {
            return Some(version);
          }
        }
      } else if e.Eof? || e.Error? {
        break;
      }
      assert (inGroup, inVersion) == flags;
      i := i + 1;
    }
    return None;
  }

  /** A version found is non-blank and is the trimmed text of an event the reader returns. */
  lemma {:induction false} VersionFromFound(inGroup: bool, inVersion: bool, evs: seq<Event>)
    requires VersionFrom(inGroup, inVersion, evs).Some?
    ensures VersionFrom(inGroup, inVersion, evs).value != []
    ensures exists k :: (0 <= k < FirstStop(evs) && evs[k].Text?
      && Trim(evs[k].content) == VersionFrom(inGroup, inVersion, evs).value)
    decreases |evs|
  {
    var e, rest := evs[0], evs[1..];
    if e.Text? && inVersion && Trim(e.content) != [] {
      assert FirstStop(evs) > 0;
    } else {
      var flags := Flags(inGroup, inVersion, e);
      VersionFromFound(flags.0, flags.1, rest);
      var k :| 0 <= k < FirstStop(rest) && rest[k].Text? && Trim(rest[k].content) == VersionFrom(flags.0, flags.1, rest).value;
      assert FirstStop(evs) == 1 + FirstStop(rest);
      assert evs[k + 1] == rest[k];
    }
  }

  /**
   * The event at `k` is a version the reader can answer, stated without the
   * loop's flags: a text inside an open Version element that is not blank
   * once trimmed.
   */
  ghost predicate VersionText(evs: seq<Event>, k: nat)
    requires k < |evs|
  {
    evs[k].Text? && Trim(evs[k].content) != [] && VersionOpenAt(evs, k)
  }

  /** The loop's two flags follow the scopes: one event moves both from `i` to `i + 1`. */
  lemma ScopesStep(evs: seq<Event>, i: nat)
    requires i < |evs|
    ensures Flags(GroupOpenAt(evs, i), VersionOpenAt(evs, i), evs[i]) == (GroupOpenAt(evs, i + 1), VersionOpenAt(evs, i + 1))
  {
    GroupOpenNext(evs, i);
    VersionOpenNext(evs, i);
    assert "Version" != "PropertyGroup";
  }

  /** From `i` on, the reader answers the first version text, trimmed. */
  lemma {:induction false} FirstTextFound(evs: seq<Event>, i: nat, k: nat)
    requires i <= k < FirstStop(evs) && VersionText(evs, k)
    requires forall j :: i <= j < k ==> !VersionText(evs, j)
    ensures VersionFrom(GroupOpenAt(evs, i), VersionOpenAt(evs, i), evs[i..]) == Some(Trim(evs[k].content))
    decreases k - i
  {
    var e, g, v := evs[i], GroupOpenAt(evs, i), VersionOpenAt(evs, i);
    assert evs[i..][0] == e && evs[i..][1..] == evs[i + 1..];
    if i < k {
      assert !(e.Text? && v && Trim(e.content) != []) && !Stops(e) by {
        assert !VersionText(evs, i);
      }
      ScopesStep(evs, i);
      FirstTextFound(evs, i + 1, k);
      assert VersionFrom(g, v, evs[i..]) == VersionFrom(Flags(g, v, e).0, Flags(g, v, e).1, evs[i + 1..]);
    } else {
      assert e.Text? && v && Trim(e.content) != [];
    }
  }

  /** From `i` on, with no version text before the reader stops, there is no version. */
  lemma {:induction false} NoTextNone(evs: seq<Event>, i: nat)
    requires i <= FirstStop(evs)
    requires forall k :: i <= k < FirstStop(evs) ==> !VersionText(evs, k)
    ensures VersionFrom(GroupOpenAt(evs, i), VersionOpenAt(evs, i), evs[i..]) == None
    decreases |evs| - i
  {
    if i < |evs| {
      var e, g, v := evs[i], GroupOpenAt(evs, i), VersionOpenAt(evs, i);
      assert evs[i..][0] == e && evs[i..][1..] == evs[i + 1..];
      if i < FirstStop(evs) {
        assert !(e.Text? && v && Trim(e.content) != []) && !Stops(e) by {
          assert !VersionText(evs, i);
        }
        ScopesStep(evs, i);
        NoTextNone(evs, i + 1);
        assert VersionFrom(g, v, evs[i..]) == VersionFrom(Flags(g, v, e).0, Flags(g, v, e).1, evs[i + 1..]);
      } else {
        assert Stops(e) && !e.Text?;
      }
    }
  }

  /** From `i` on, no version means no version text before the reader stops. */
  lemma {:induction false} NoneNoText(evs: seq<Event>, i: nat)
    requires i <= FirstStop(evs)
    requires VersionFrom(GroupOpenAt(evs, i), VersionOpenAt(evs, i), evs[i..]) == None
    ensures forall k :: i <= k < FirstStop(evs) ==> !VersionText(evs, k)
    decreases |evs| - i
  {
    if i < FirstStop(evs) {
      assert evs[i..][0] == evs[i] && evs[i..][1..] == evs[i + 1..];
      ScopesStep(evs, i);
      NoneNoText(evs, i + 1);
    }
  }

  /** `extract_version` answers the first version text before the reader stops, trimmed. */
  lemma ExtractedFirstText(events: seq<Event>, k: nat)
    requires k < FirstStop(events) && VersionText(events, k)
    requires forall j :: 0 <= j < k ==> !VersionText(events, j)
    ensures ExtractedVersion(events) == Some(Trim(events[k].content))
  {
    FirstTextFound(events, 0, k);
    assert events[0..] == events;
  }

  /** `extract_version` finds nothing exactly when there is no version text before the reader stops. */
  lemma ExtractedNoneIff(events: seq<Event>)
    ensures ExtractedVersion(events) == None <==> forall k :: 0 <= k < FirstStop(events) ==> !VersionText(events, k)
  {
    assert events[0..] == events;
    if ExtractedVersion(events) == None {
      NoneNoText(events, 0);
    }
    if forall k :: 0 <= k < FirstStop(events) ==> !VersionText(events, k) {
      NoTextNone(events, 0);
    }
  }

  /** A document that opens no Version element before the reader stops has no version. */
  lemma NoVersionElementNone(events: seq<Event>)
    requires forall j :: 0 <= j < FirstStop(events) ==> !Opens(events[j], "Version")
    ensures ExtractedVersion(events) == None
  {
    NoVersionOpen(events, FirstStop(events));
    ExtractedNoneIff(events);
  }

  /**
   * After events that open or close no tag the reader acts on, the trimmed
   * non-blank text of the first Version element of a PropertyGroup is the
   * version, whatever white space or other elements surround the tags.
   */
  lemma VersionInGroup(pre: seq<Event>, group: string, ga: seq<Attribute>, mid: seq<Event>,
                       version: string, va: seq<Attribute>, text: string, rest: seq<Event>)
    requires LocalName(group) == "PropertyGroup" && LocalName(version) == "Version" && Trim(text) != []
    requires NoStops(pre) && NoStops(mid)
    requires forall j :: 0 <= j < |pre| ==> !Structural(pre[j])
    requires forall j :: 0 <= j < |mid| ==> !Structural(mid[j])
    ensures ExtractedVersion(pre + [Start(group, ga)] + mid + [Start(version, va), Text(text)] + rest) == Some(Trim(text))
  {
    XmlUtils.GroupLead(pre, group, ga, mid);
    VersionAfterLead(pre + [Start(group, ga)] + mid, |pre|, version, va, text, rest);
  }

  /** With no Version start tag before `n`, no event up to `n` is a version text. */
  lemma NoVersionTextBefore(evs: seq<Event>, n: nat)
    requires n < |evs| && forall m :: 0 <= m < n ==> !Opens(evs[m], "Version")
    ensures forall j :: 0 <= j <= n ==> !VersionText(evs, j)
  {
    NoVersionOpen(evs, n);
  }

  /**
   * A PropertyGroup opened at `a`, a Version element opened at `b` and a
   * non-blank text after it, with no stop, no other Version start tag and
   * no group end tag before `b`: that text, trimmed, is the version.
   */
  lemma VersionTextAt(evs: seq<Event>, a: nat, b: nat)
    requires a < b && b + 1 < |evs| && Opens(evs[a], "PropertyGroup") && Opens(evs[b], "Version")
    requires evs[b + 1].Text? && Trim(evs[b + 1].content) != []
    requires forall m :: 0 <= m < b ==> !Opens(evs[m], "Version") && !Closes(evs[m], "PropertyGroup")
    requires forall m :: 0 <= m < b + 2 ==> !Stops(evs[m])
    ensures ExtractedVersion(evs) == Some(Trim(evs[b + 1].content))
  {
    NoVersionTextBefore(evs, b);
    GroupOpenFrom(evs, a, b);
    assert VersionText(evs, b + 1);
    FirstStopBeyond(evs, b + 2);
    ExtractedFirstText(evs, b + 1);
  }

  /**
   * After `lead`, which opens a PropertyGroup at `a` and otherwise opens no
   * Version element and closes no group, the text of the Version element
   * that follows is the version.
   */
  lemma VersionAfterLead(lead: seq<Event>, a: nat, version: string, va: seq<Attribute>, text: string, rest: seq<Event>)
    requires a < |lead| && Opens(lead[a], "PropertyGroup") && LocalName(version) == "Version" && Trim(text) != []
    requires NoStops(lead)
    requires forall m :: 0 <= m < |lead| ==> !Opens(lead[m], "Version") && !Closes(lead[m], "PropertyGroup")
    ensures ExtractedVersion(lead + [Start(version, va), Text(text)] + rest) == Some(Trim(text))
  {
    var evs := lead + [Start(version, va), Text(text)] + rest;
    XmlUtils.PairSplice(lead, Start(version, va), Text(text), Text(text), rest);
    assert evs[|lead|] == Start(version, va) && evs[|lead| + 1] == Text(text);
    VersionTextAt(evs, a, |lead|);
  }


  /** A Version element outside every PropertyGroup is never read: without a group, no version. */
  lemma {:induction false} NoGroupNoVersion(evs: seq<Event>)
    requires forall j :: 0 <= j < |evs| ==> !(evs[j].Start? && LocalName(evs[j].name) == "PropertyGroup")
    ensures VersionFrom(false, false, evs) == None
    decreases |evs|
  {
    if evs != [] {
      assert forall j :: 0 <= j < |evs[1..]| ==> evs[1..][j] == evs[j + 1];
      NoGroupNoVersion(evs[1..]);
    }
  }

  // ---------------------------------------------------------------------
  // extract_package_references / extract_project_references
  // ---------------------------------------------------------------------

  /** The value of an `Include` attribute whose value could be read. */
  predicate IsInclude(a: Attribute) {
    a.key == "Include" && a.value.Some?
  }

  /** The `Include` values among the attributes, in order. */
  function Includes(attrs: seq<Attribute>): seq<string> {
    if attrs == [] then []
    else
      var a := attrs[|attrs| - 1];
      Includes(attrs[..|attrs| - 1]) + (if IsInclude(a) then [a.value.value] else [])
  }

  /** A start or empty tag with the given local name. */
  predicate IsElement(e: Event, local: string) {
    (e.Start? || e.Empty?) && LocalName(e.name) == local
  }

  /** The `Include` values of the elements named `local`, in document order. */
  function IncludesOf(evs: seq<Event>, local: string): seq<string> {
    if evs == [] then []
    else
      var e := evs[|evs| - 1];
      IncludesOf(evs[..|evs| - 1], local) + (if IsElement(e, local) then Includes(e.attrs) else [])
  }

  /** One more event read: it is not a stop, and its `Include` values follow those before it. */
  lemma IncludesOfNext(events: seq<Event>, i: nat, local: string)
    requires i < |events| && NoStops(events[..i]) && !Stops(events[i])
    ensures NoStops(events[..i + 1])
    ensures IncludesOf(events[..i + 1], local)
      == IncludesOf(events[..i], local) + (if IsElement(events[i], local) then Includes(events[i].attrs) else [])
  {
    assert events[..i + 1][..i] == events[..i];
  }

  /** The specification of `extract_package_references`. */
  function PackageReferences(events: seq<Event>): seq<string> {
    IncludesOf(Read(events), "PackageReference")
  }

  /** The loop over one tag's attributes, keeping each readable `Include` value. */
  method IncludeValues(attrs: seq<Attribute>) returns (values: seq<string>)
    ensures values == Includes(attrs)
  {
    values := [];
    var j := 0;
    while j < |attrs|
      invariant 0 <= j <= |attrs|
      invariant values == Includes(attrs[..j])
    {
      var attr := attrs[j];
      assert attrs[..j + 1][..j] == attrs[..j];
      if attr.key == "Include" && attr.value.Some? {
        values := values + [attr.value.value];
      }
      j := j + 1;
    }
    assert attrs[..j] == attrs;
  }

  /** `extract_package_references`: an event loop with a loop over each matching tag's attributes. */
  method ExtractPackageReferences(events: seq<Event>) returns (packages: seq<string>)
    ensures packages == PackageReferences(events)
  {
    packages := [];
    var i := 0;
    while i < |events|
      invariant 0 <= i <= |events|
      invariant NoStops(events[..i])
      invariant packages == IncludesOf(events[..i], "PackageReference")
    {
      var e := events[i];
      if e.Eof? || e.Error? {
        break;
      }
      IncludesOfNext(events, i, "PackageReference");
      if (e.Empty? || e.Start?) && LocalName(e.name) == "PackageReference" {
        var values := IncludeValues(e.attrs);
        packages := packages + values;
      }
      i := i + 1;
    }
    FirstStopAt(events, i);
  }

  /** Backslashes read as path separators, as a Windows path does. */
  function Slashed(s: string): (r: string)
    ensures |r| == |s| && '\\' !in r
    ensures forall i :: 0 <= i < |s| ==> r[i] == (if s[i] == '\\' then '/' else s[i])
  {
    if s == [] then [] else [if s[0] == '\\' then '/' else s[0]] + Slashed(s[1..])
  }

  /**
   * The project name of a reference path: its file stem, reading "\" as a
   * separator like "/", so that `..\CoreLib\CoreLib.csproj` names CoreLib.
   */
  function ReferenceName(value: string): Option<string> {
    FileStem(Parse(Slashed(value)))
  }

  /** The name exactly as `Path::new(value).file_stem()` gives it on Unix, where "\" is an ordinary character. */
  function ReferenceNameAsWritten(value: string): Option<string> {
    FileStem(Parse(value))
  }

  /** The names `nameOf` gives the values, in order, skipping values it gives none for. */
  function NamesOf(values: seq<string>, nameOf: string -> Option<string>): seq<string> {
    if values == [] then []
    else
      var v := values[|values| - 1];
      NamesOf(values[..|values| - 1], nameOf) + (if nameOf(v).Some? then [nameOf(v).value] else [])
  }

  lemma {:induction false} NamesOfAppend(a: seq<string>, b: seq<string>, nameOf: string -> Option<string>)
    ensures NamesOf(a + b, nameOf) == NamesOf(a, nameOf) + NamesOf(b, nameOf)
    decreases |b|
  {
    if b == [] {
      assert a + b == a;
    } else {
      assert (a + b)[..|a + b| - 1] == a + b[..|b| - 1];
      NamesOfAppend(a, b[..|b| - 1], nameOf);
    }
  }

  /** The names of the projects the `Include` values among these attributes reference. */
  function ProjectNames(attrs: seq<Attribute>): seq<string> {
    NamesOf(Includes(attrs), ReferenceName)
  }

  /** The names of the projects the ProjectReference elements reference, element by element. */
  function ReferencedProjects(evs: seq<Event>): seq<string> {
    if evs == [] then []
    else
      var e := evs[|evs| - 1];
      ReferencedProjects(evs[..|evs| - 1]) + (if IsElement(e, "ProjectReference") then ProjectNames(e.attrs) else [])
  }

  /** One more event read: it is not a stop, and its project names follow those before it. */
  lemma ReferencedProjectsNext(events: seq<Event>, i: nat)
    requires i < |events| && NoStops(events[..i]) && !Stops(events[i])
    ensures NoStops(events[..i + 1])
    ensures ReferencedProjects(events[..i + 1])
      == ReferencedProjects(events[..i]) + (if IsElement(events[i], "ProjectReference") then ProjectNames(events[i].attrs) else [])
  {
    assert events[..i + 1][..i] == events[..i];
  }

  /** The specification of `extract_project_references`. */
  function ProjectReferences(events: seq<Event>): seq<string> {
    ReferencedProjects(Read(events))
  }

  /** The extracted names are the names of the ProjectReference `Include` values, in document order. */
  lemma {:induction false} ReferencedProjectsAreNames(evs: seq<Event>)
    ensures ReferencedProjects(evs) == NamesOf(IncludesOf(evs, "ProjectReference"), ReferenceName)
  {
    if evs != [] {
      var e := evs[|evs| - 1];
      var sofar := IncludesOf(evs[..|evs| - 1], "ProjectReference");
      ReferencedProjectsAreNames(evs[..|evs| - 1]);
      if IsElement(e, "ProjectReference") {
        NamesOfAppend(sofar, Includes(e.attrs), ReferenceName);
      } else {
        assert IncludesOf(evs, "ProjectReference") == sofar + [];
        assert sofar + [] == sofar;
      }
    }
  }

  /** `extract_project_references`: like the package extractor, pushing each reference's file stem. */
  method ExtractProjectReferences(events: seq<Event>) returns (projects: seq<string>)
    ensures projects == ProjectReferences(events)
  {
    projects := [];
    var i := 0;
    while i < |events|
      invariant 0 <= i <= |events|
      invariant NoStops(events[..i])
      invariant projects == ReferencedProjects(events[..i])
    {
      var e := events[i];
      if e.Eof? || e.Error? {
        break;
      }
      ReferencedProjectsNext(events, i);
      if (e.Empty? || e.Start?) && LocalName(e.name) == "ProjectReference" {
        var names := ReferenceNamesIn(e.attrs);
        projects := projects + names;
      }
      i := i + 1;
    }
    FirstStopAt(events, i);
  }

  /** The attribute loop of `extract_project_references`: the file stem of each `Include` value. */
  method ReferenceNamesIn(attrs: seq<Attribute>) returns (names: seq<string>)
    ensures names == ProjectNames(attrs)
  {
    names := [];
    var j := 0;
    while j < |attrs|
      invariant 0 <= j <= |attrs|
      invariant names == NamesOf(Includes(attrs[..j]), ReferenceName)
    {
      var attr := attrs[j];
      assert attrs[..j + 1][..j] == attrs[..j];
      if attr.key == "Include" && attr.value.Some? {
        var name := ReferenceName(attr.value.value);
        assert Includes(attrs[..j + 1]) == Includes(attrs[..j]) + [attr.value.value];
        if name.Some? {
          names := names + [name.value];
        }
      } else {
        assert Includes(attrs[..j + 1]) == Includes(attrs[..j]);
      }
      j := j + 1;
    }
    assert attrs[..j] == attrs;
  }

  /** A reference `dir\stem.ext` names `stem`, whatever the directories are. */
  lemma ReferenceNameIsStem(dir: string, stem: string, ext: string)
    requires stem != "" && ext != "" && '.' !in ext
    requires '/' !in stem + "." + ext && '\\' !in stem + "." + ext
    ensures ReferenceName(dir + "\\" + stem + "." + ext) == Some(stem)
  {
    var name := stem + "." + ext;
    assert dir + "\\" + stem + "." + ext == dir + "\\" + name;
    SlashedLast(dir, name);
    assert name != "" && name != ".";
    ParseEndsWith(Slashed(dir), name);
    StemAndExtension(Parse(Slashed(dir + "\\" + name)), stem, ext);
  }

  /** Slashing `dir\name` slashes `dir` and turns the separator into '/', leaving a backslash-free `name` as is. */
  lemma SlashedLast(dir: string, name: string)
    requires '\\' !in name
    ensures Slashed(dir + "\\" + name) == Slashed(dir) + ['/'] + name
  {
    var value := dir + "\\" + name;
    assert forall i :: |dir| + 1 <= i < |value| ==> value[i] == name[i - |dir| - 1];
  }

  /** On Unix the same reference keeps its directories in the name. */
  lemma ReferenceNameAsWrittenKeepsDirectories(dir: string, stem: string, ext: string)
    requires stem != "" && ext != "" && '.' !in ext && '/' !in dir + "\\" + stem
    requires '/' !in ext
    ensures ReferenceNameAsWritten(dir + "\\" + stem + "." + ext) == Some(dir + "\\" + stem)
  {
    var value := dir + "\\" + stem + "." + ext;
    var base := dir + "\\" + stem;
    assert value == base + "." + ext;
    assert '/' !in value by {
      assert forall i :: |base| + 1 <= i < |value| ==> value[i] == ext[i - |base| - 1];
    }
    SplitNoSep(value, '/');
    assert KeepNormal([value]) == [value] by {
      assert value[|dir|] == '\\';
    }
    StemAndExtension(Parse(value), base, ext);
  }

  /** The reference of the finder's own test, `..\CoreLib\CoreLib.csproj`: CoreLib, but "..\CoreLib\CoreLib" as written. */
  lemma CoreLibReference(dir: string, stem: string, ext: string)
    requires dir == "..\\CoreLib" && stem == "CoreLib" && ext == "csproj"
    ensures ReferenceName(dir + "\\" + stem + "." + ext) == Some("CoreLib")
    ensures ReferenceNameAsWritten(dir + "\\" + stem + "." + ext) == Some(dir + "\\" + stem)
    ensures ReferenceNameAsWritten(dir + "\\" + stem + "." + ext) != Some("CoreLib")
  {
    assert '/' !in stem + "." + ext && '\\' !in stem + "." + ext;
    ReferenceNameIsStem(dir, stem, ext);
    assert '/' !in dir + "\\" + stem;
    ReferenceNameAsWrittenKeepsDirectories(dir, stem, ext);
    assert |dir + "\\" + stem| != |stem|;
  }

  // ---------------------------------------------------------------------
  // is_workspace and visit
  // ---------------------------------------------------------------------

  /** Some entry of the manifest's directory listing has the extension "sln". */
  predicate HasSolution(path: Path, listing: Option<seq<Path>>) {
    Parent(path).Some? && listing.Some?
    && exists i :: 0 <= i < |listing.value| && Extension(listing.value[i]) == Some("sln")
  }

  /**
   * `is_workspace`; `listing` is what reading the parent directory gives
   * (None when it cannot be read).
   */
  method IsWorkspace(path: Path, listing: Option<seq<Path>>) returns (b: bool)
    ensures b == HasSolution(path, listing)
  {
    if Parent(path).None? || listing.None? {
      return false;
    }
    var entries := listing.value;
    var i := 0;
    while i < |entries|
      invariant 0 <= i <= |entries|
      invariant forall j :: 0 <= j < i ==> Extension(entries[j]) != Some("sln")
    {
      if Extension(entries[i]) == Some("sln") {
        return true;
      }
      i := i + 1;
    }
    return false;
  }

  /** A recorded project: a package, or a workspace when a solution file sits beside it. */
  datatype Found = PackageFound(package: CSharpPackage) | WorkspaceFound(workspace: CSharpWorkspace) {
    function Object(): object {
      match this
      case PackageFound(p) => p
      case WorkspaceFound(w) => w
    }

    function Name(): Option<string>
      reads Object()
    {
      match this
      case PackageFound(p) => p.name
      case WorkspaceFound(w) => w.name
    }

    function Version(): Option<string>
      reads Object()
    {
      match this
      case PackageFound(p) => p.version
      case WorkspaceFound(w) => w.version
    }

    function ManifestPath(): Path
      reads Object()
    {
      match this
      case PackageFound(p) => p.path
      case WorkspaceFound(w) => w.path
    }

    function RelativePath(): Path
      reads Object()
    {
      match this
      case PackageFound(p) => p.relativePath
      case WorkspaceFound(w) => w.relativePath
    }

    function IsChanged(): bool
      reads Object()
    {
      match this
      case PackageFound(p) => p.isChanged
      case WorkspaceFound(w) => w.isChanged
    }

    function Dependencies(): set<string>
      reads Object()
    {
      match this
      case PackageFound(p) => p.dependencies
      case WorkspaceFound(w) => w.dependencies
    }
  }

  /** The name, version, paths and dependencies a freshly visited manifest is recorded with. */
  predicate Recorded(f: Found, path: Path, relativePath: Path, m: Manifest)
    reads f.Object()
  {
    f.Name() == FileStem(path) && f.Version() == ExtractedVersion(m.events)
    && f.ManifestPath() == path && f.RelativePath() == relativePath && !f.IsChanged()
    && f.Dependencies() == (set d | d in ProjectReferences(m.events))
  }

  /** The loop of `visit` that calls `add_dependency` on the new project for each reference. */
  method AddDependencies(f: Found, deps: seq<string>)
    modifies f.Object()
    ensures f.Dependencies() == old(f.Dependencies()) + (set d | d in deps)
    ensures f.Name() == old(f.Name()) && f.Version() == old(f.Version())
    ensures f.ManifestPath() == old(f.ManifestPath()) && f.RelativePath() == old(f.RelativePath())
    ensures f.IsChanged() == old(f.IsChanged())
  {
    var i := 0;
    while i < |deps|
      invariant 0 <= i <= |deps|
      invariant f.Dependencies() == old(f.Dependencies()) + (set j | 0 <= j < i :: deps[j])
      invariant f.Name() == old(f.Name()) && f.Version() == old(f.Version())
      invariant f.ManifestPath() == old(f.ManifestPath()) && f.RelativePath() == old(f.RelativePath())
      invariant f.IsChanged() == old(f.IsChanged())
    {
      match f {
        case PackageFound(p) => p.AddDependency(deps[i]);
        case WorkspaceFound(w) => w.AddDependency(deps[i]);
      }
      i := i + 1;
    }
    assert (set j | 0 <= j < i :: deps[j]) == (set d | d in deps) by {
      forall d | d in deps
        ensures d in (set j | 0 <= j < i :: deps[j])
      {
        var j :| 0 <= j < |deps| && deps[j] == d;
      }
    }
  }

  /** A manifest `visit` looks at: a file with the extension "csproj". */
  predicate IsManifest(path: Path, isFile: bool) {
    isFile && Extension(path).GetOr("") == "csproj"
  }

  class CSharpProjectFinder {
    var projects: map<Path, Found>
    var projectFiles: seq<string>

    /** `CSharpProjectFinder::new`: no projects, looking for ".csproj" files. */
    constructor ()
      ensures projects == map[] && projectFiles == [".csproj"]
    {
      projects := map[];
      projectFiles := [".csproj"];
    }

    /**
     * `visit`; `isFile` is whether the path is a file, `read` the outcome
     * of reading it and `listing` that of reading its directory. A
     * manifest not seen before is recorded under its path; everything
     * else leaves the finder as it was.
     */
    method Visit(path: Path, relativePath: Path, isFile: bool, read: Result<Manifest>, listing: Option<seq<Path>>)
      returns (r: Result<()>)
      modifies this
      ensures projectFiles == old(projectFiles)
      ensures !IsManifest(path, isFile) || path in old(projects) ==> r == Ok(()) && projects == old(projects)
      ensures IsManifest(path, isFile) && path !in old(projects) && read.Err? ==>
        r == Err(read.error) && projects == old(projects)
      ensures IsManifest(path, isFile) && path !in old(projects) && read.Ok? ==>
        r == Ok(()) && path in projects && projects == old(projects)[path := projects[path]]
        && (projects[path].WorkspaceFound? <==> HasSolution(path, listing))
        && fresh(projects[path].Object())
        && Recorded(projects[path], path, relativePath, read.value)
    {
      if !isFile {
        return Ok(());
      }
      var extension := Extension(path).GetOr("");
      if extension != "csproj" {
        return Ok(());
      }
      if path in projects {
        return Ok(());
      }
      if read.Err? {
        return Err(read.error);
      }
      var manifest := read.value;
      var name := FileStem(path);
      var version := ExtractVersion(manifest.events);
      var isWorkspace := IsWorkspace(path, listing);
      var found: Found;
      if isWorkspace {
        var w := new CSharpWorkspace(name, version, path, relativePath);
        found := WorkspaceFound(w);
      } else {
        var p := new CSharpPackage(name, version, path, relativePath);
        found := PackageFound(p);
      }
      var deps := ExtractProjectReferences(manifest.events);
      AddDependencies(found, deps);
      projects := projects[path := found];
      r := Ok(());
    }
  }
}
