/**
 * `update_version_in_xml` and `detect_indent` of the C# crate: rewriting
 * the version of a .csproj document event by event, keeping every other
 * event as it is.
 */
module XmlUtils {
  import opened Wrappers
  import opened Text
  import opened Xml

  const ParseErrorPrefix := "XML parsing error: "

  /** The four flags of the event loop. */
  datatype Flags = Flags(inPropertyGroup: bool, inVersion: bool, versionUpdated: bool, firstGroupEnded: bool)

  const Initial := Flags(false, false, false, false)

  /** What the loop is given: the indentation for an inserted element, the new version, and `has_version`. */
  datatype Settings = Settings(indent: string, newVersion: string, hasVersion: bool)

  /** The events written before the closing tag when a Version element is added. */
  function VersionBlock(indent: string, newVersion: string): (block: seq<Event>)
    ensures |block| == 5 && block[1] == Start("Version", []) && block[2] == Text(newVersion)
  {
    [Text(indent), Start("Version", []), Text(newVersion), End("Version"), Text("\n  ")]
  }

  /**
   * One turn of the loop for an event that does not stop reading: the new
   * flags and the events written (the loop never gets here for `Eof` and
   * `Error`, which write nothing).
   */
  function Step(f: Flags, e: Event, s: Settings): (Flags, seq<Event>) {
    match e
    case Start(name, _) =>
      if LocalName(name) == "PropertyGroup" then (f.(inPropertyGroup := true), [e])
      else if f.inPropertyGroup && LocalName(name) == "Version" then (f.(inVersion := true), [e])
      else (f, [e])
    case End(name) =>
      if LocalName(name) == "PropertyGroup" then
        if !f.versionUpdated && !s.hasVersion && f.inPropertyGroup && !f.firstGroupEnded then
          (Flags(false, f.inVersion, true, true), VersionBlock(s.indent, s.newVersion) + [e])
        else (f.(inPropertyGroup := false, firstGroupEnded := true), [e])
      else if LocalName(name) == "Version" then (f.(inVersion := false), [e])
      else (f, [e])
    case Text(_) =>
      if f.inVersion && !f.versionUpdated then (f.(versionUpdated := true), [Text(s.newVersion)])
      else (f, [e])
    case Eof => (f, [])
    case Error(_) => (f, [])
    case _ => (f, [e])
  }

  /** The flags and the events written after the loop has handled all of `evs`, starting from flags `f`. */
  function Scan(f: Flags, evs: seq<Event>, s: Settings): (Flags, seq<Event>) {
    if evs == [] then (f, [])
    else
      var (g, out) := Scan(f, evs[..|evs| - 1], s);
      var (h, last) := Step(g, evs[|evs| - 1], s);
      (h, out + last)
  }

  /** Handling one more event of the document extends the scan by one step. */
  lemma ScanNext(events: seq<Event>, i: nat, f: Flags, written: seq<Event>, s: Settings)
    requires i < |events| && !Stops(events[i])
    requires NoStops(events[..i]) && Scan(Initial, events[..i], s) == (f, written)
    ensures NoStops(events[..i + 1])
    ensures Scan(Initial, events[..i + 1], s) == (Step(f, events[i], s).0, written + Step(f, events[i], s).1)
  {
    assert events[..i + 1][..i] == events[..i];
  }

  /**
   * The specification of `update_version_in_xml`: the reader's error, or
   * the events written for everything the reader returns before `Eof`.
   */
  function UpdateResult(events: seq<Event>, s: Settings): Result<seq<Event>> {
    if Fails(events) then Err(ParseErrorPrefix + FailureMessage(events))
    else Ok(Scan(Initial, Read(events), s).1)
  }

  /** The three indentations `detect_indent` can answer. */
  datatype IndentKind = FourSpaces | TwoSpaces | Tab

  function IndentText(k: IndentKind): string {
    match k
    case FourSpaces => "    "
    case TwoSpaces => "  "
    case Tab => "\t"
  }

  /** The checks made on one line, in order: four spaces, two spaces, a tab. */
  function LineIndent(line: string): Option<IndentKind> {
    if StartsWith(line, "    ") then Some(FourSpaces)
    else if StartsWith(line, "  ") then Some(TwoSpaces)
    else if StartsWith(line, "\t") then Some(Tab)
    else None
  }

  /** `detect_indent`: the answer of the first line that gives one, four spaces by default. */
  function XmlIndent(lines: seq<string>): IndentKind {
    if lines == [] then FourSpaces
    else match LineIndent(lines[0])
      case Some(k) => k
      case None => XmlIndent(lines[1..])
  }

  /** The detector answers for the first line that starts with two spaces or a tab. */
  lemma {:induction false} XmlIndentFirst(lines: seq<string>, k: nat)
    requires k < |lines| && LineIndent(lines[k]).Some?
    requires forall j :: 0 <= j < k ==> LineIndent(lines[j]).None?
    ensures XmlIndent(lines) == LineIndent(lines[k]).value
  {
    if k > 0 {
      XmlIndentFirst(lines[1..], k - 1);
    }
  }

  /** Without such a line the detector defaults to four spaces. */
  lemma {:induction false} XmlIndentDefault(lines: seq<string>)
    requires forall j :: 0 <= j < |lines| ==> LineIndent(lines[j]).None?
    ensures XmlIndent(lines) == FourSpaces
  {
    if lines != [] {
      XmlIndentDefault(lines[1..]);
    }
  }

  /** A line answers iff it starts with two spaces or a tab; four spaces are checked first. */
  lemma LineIndentCharacterised(line: string)
    ensures LineIndent(line).Some? <==> StartsWith(line, "  ") || StartsWith(line, "\t")
    ensures LineIndent(line) == Some(FourSpaces) <==> StartsWith(line, "    ")
  {
    if StartsWith(line, "    ") {
      assert line[..2] == line[..4][..2];
    }
  }

  /** `detect_indent` as the source writes it: a loop over the lines with an early return. */
  method DetectIndent(content: string) returns (indent: string)
    ensures indent == IndentText(XmlIndent(Lines(content)))
  {
    var lines := Lines(content);
    var i := 0;
    while i < |lines|
      invariant 0 <= i <= |lines|
      invariant XmlIndent(lines) == XmlIndent(lines[i..])
    {
      assert lines[i..][0] == lines[i] && lines[i..][1..] == lines[i + 1..];
      var line := lines[i];
      if StartsWith(line, "    ") {
        return "    ";
      } else if StartsWith(line, "  ") {
        return "  ";
      } else if StartsWith(line, "\t") {
        return "\t";
      }
      i := i + 1;
    }
    return "    ";
  }

  /**
   * `update_version_in_xml`. `content` is the document text (used for the
   * indentation of an added element) and `events` what the reader returns
   * for it; the result is the sequence of events written.
   */
  method UpdateVersionInXml(content: string, events: seq<Event>, newVersion: string, hasVersion: bool)
    returns (r: Result<seq<Event>>)
    ensures r == UpdateResult(events, Settings(IndentText(XmlIndent(Lines(content))), newVersion, hasVersion))
  {
    var indent := DetectIndent(content);
    r := WriteEvents(events, indent, newVersion, hasVersion);
  }

  /** The event loop with its four flags; `indent` is what `detect_indent` gives for the document. */
  method WriteEvents(events: seq<Event>, indent: string, newVersion: string, hasVersion: bool)
    returns (r: Result<seq<Event>>)
    ensures r == UpdateResult(events, Settings(indent, newVersion, hasVersion))
  {
    ghost var s := Settings(indent, newVersion, hasVersion);
    var inPropertyGroup, inVersion, versionUpdated, firstGroupEnded := false, false, false, false;
    var written: seq<Event> := [];
    var i := 0;
    while i < |events|
      invariant 0 <= i <= |events|
      invariant NoStops(events[..i])
      invariant Scan(Initial, events[..i], s) == (Flags(inPropertyGroup, inVersion, versionUpdated, firstGroupEnded), written)
    {
      var e := events[i];
      ghost var f := Flags(inPropertyGroup, inVersion, versionUpdated, firstGroupEnded);
      var out: seq<Event>;
      if e.Eof? {
        FirstStopAt(events, i);
        break;
      } else if e.Error? {
        FirstStopAt(events, i);
        return Err(ParseErrorPrefix + e.message);
      } else if e.Start? {
        var name := LocalName(e.name);
        if name == "PropertyGroup" {
          inPropertyGroup := true;
        } else if inPropertyGroup && name == "Version" {
          inVersion := true;
        }
        out := [e];
      } else if e.End? {
        var name := LocalName(e.name);
        out := [];
        if name == "PropertyGroup" {
          if !versionUpdated && !hasVersion && inPropertyGroup && !firstGroupEnded {
            out := [Text(indent), Start("Version", []), Text(newVersion), End("Version"), Text("\n  ")];
            versionUpdated := true;
          }
          inPropertyGroup := false;
          firstGroupEnded := true;
        } else if name == "Version" {
          inVersion := false;
        }
        out := out + [e];
      } else if e.Text? {
        if inVersion && !versionUpdated {
          out := [Text(newVersion)];
          versionUpdated := true;
        } else {
          out := [e];
        }
      } else {
        out := [e];
      }
      assert Step(f, e, s).0 == Flags(inPropertyGroup, inVersion, versionUpdated, firstGroupEnded);
      assert Step(f, e, s).1 == out;
      ScanNext(events, i, f, written, s);
      written := written + out;
      i := i + 1;
    }
    if i == |events| {
      FirstStopAt(events, i);
    }
    r := Ok(written);
  }

  /** The output replaces the text event at `k` by the new version. */
  predicate ReplacedAt(out: seq<Event>, evs: seq<Event>, k: nat, s: Settings) {
    k < |evs| && evs[k].Text? && out == evs[..k] + [Text(s.newVersion)] + evs[k + 1..]
  }

  /** The output adds a Version element just before the PropertyGroup end tag at `k`. */
  predicate InsertedAt(out: seq<Event>, evs: seq<Event>, k: nat, s: Settings) {
    k < |evs| && evs[k].End? && LocalName(evs[k].name) == "PropertyGroup"
    && out == evs[..k] + VersionBlock(s.indent, s.newVersion) + evs[k..]
  }

  /** The output is the input, with at most one replacement or (only without a version) one insertion. */
  predicate OneEdit(out: seq<Event>, evs: seq<Event>, s: Settings) {
    out == evs || exists k: nat | k < |evs| :: ReplacedAt(out, evs, k, s) || (!s.hasVersion && InsertedAt(out, evs, k, s))
  }

  /** What one step can do: copy the event, or make the single edit while the flag is still clear. */
  lemma StepCases(g: Flags, e: Event, s: Settings)
    requires !Stops(e)
    ensures g.versionUpdated ==> Step(g, e, s).0.versionUpdated && Step(g, e, s).1 == [e]
    ensures !g.versionUpdated && !Step(g, e, s).0.versionUpdated ==> Step(g, e, s).1 == [e]
    ensures !g.versionUpdated && Step(g, e, s).0.versionUpdated ==>
      (e.Text? && Step(g, e, s).1 == [Text(s.newVersion)])
      || (e.End? && LocalName(e.name) == "PropertyGroup" && !s.hasVersion
          && Step(g, e, s).1 == VersionBlock(s.indent, s.newVersion) + [e])
  {
  }

  /** The edit made by the step that sets the flag, at the end of what was written so far. */
  lemma FirstEdit(p: seq<Event>, e: Event, last: seq<Event>, s: Settings)
    requires (e.Text? && last == [Text(s.newVersion)])
      || (e.End? && LocalName(e.name) == "PropertyGroup" && !s.hasVersion && last == VersionBlock(s.indent, s.newVersion) + [e])
    ensures ReplacedAt(p + last, p + [e], |p|, s) || (!s.hasVersion && InsertedAt(p + last, p + [e], |p|, s))
  {
    var evs := p + [e];
    assert evs[..|p|] == p && evs[|p| + 1..] == [] && evs[|p|..] == [e];
    if e.Text? && last == [Text(s.newVersion)] {
      assert p + last == evs[..|p|] + [Text(s.newVersion)] + evs[|p| + 1..];
    }
  }

  /** An edit already made stays in place when a further event is copied. */
  lemma ExtendEdit(o: seq<Event>, p: seq<Event>, e: Event, k: nat, s: Settings)
    requires ReplacedAt(o, p, k, s) || (!s.hasVersion && InsertedAt(o, p, k, s))
    ensures ReplacedAt(o + [e], p + [e], k, s) || (!s.hasVersion && InsertedAt(o + [e], p + [e], k, s))
  {
    var evs := p + [e];
    assert evs[..k] == p[..k];
    if ReplacedAt(o, p, k, s) {
      assert evs[k + 1..] == p[k + 1..] + [e];
    } else {
      assert evs[k..] == p[k..] + [e];
    }
  }

  lemma {:induction false} ScanShape(f: Flags, evs: seq<Event>, s: Settings)
    requires !f.versionUpdated && NoStops(evs)
    ensures !Scan(f, evs, s).0.versionUpdated ==> Scan(f, evs, s).1 == evs
    ensures Scan(f, evs, s).0.versionUpdated ==>
      exists k: nat | k < |evs| :: ReplacedAt(Scan(f, evs, s).1, evs, k, s) || (!s.hasVersion && InsertedAt(Scan(f, evs, s).1, evs, k, s))
  {
    if evs != [] {
      var n := |evs| - 1;
      var p, e := evs[..n], evs[n];
      assert evs == p + [e];
      assert forall j :: 0 <= j < |p| ==> p[j] == evs[j];
      ScanShape(f, p, s);
      var (g, o) := Scan(f, p, s);
      StepCases(g, e, s);
      var (h, last) := Step(g, e, s);
      assert Scan(f, evs, s) == (h, o + last);
      if !g.versionUpdated {
        if h.versionUpdated {
          FirstEdit(p, e, last, s);
        }
      } else {
        var k: nat :| k < |p| && (ReplacedAt(o, p, k, s) || (!s.hasVersion && InsertedAt(o, p, k, s)));
        ExtendEdit(o, p, e, k, s);
      }
    }
  }

  /**
   * A successful run writes what the reader returned, with at most one
   * edit: the new version replacing one text event, or, when the document
   * has no version, a Version element added before a PropertyGroup end tag.
   */
  lemma UpdateShape(events: seq<Event>, s: Settings)
    ensures UpdateResult(events, s).Ok? <==> !Fails(events)
    ensures UpdateResult(events, s).Ok? ==> OneEdit(UpdateResult(events, s).value, Read(events), s)
  {
    if !Fails(events) {
      var evs := Read(events);
      assert forall j :: 0 <= j < |evs| ==> evs[j] == events[j];
      ScanShape(Initial, evs, s);
    }
  }

  /** A reader error is reported with the "XML parsing error" prefix. */
  lemma ErrorReported(events: seq<Event>, s: Settings)
    requires Fails(events)
    ensures UpdateResult(events, s).Err? && StartsWith(UpdateResult(events, s).error, "XML parsing error")
  {
    var msg := UpdateResult(events, s).error;
    assert msg[..17] == ParseErrorPrefix[..17];
  }

  /** Without a PropertyGroup start tag the document is written back unchanged. */
  lemma {:induction false} NoGroupScan(f: Flags, evs: seq<Event>, s: Settings)
    requires !f.inPropertyGroup && !f.inVersion && NoStops(evs)
    requires forall j :: 0 <= j < |evs| ==> !(evs[j].Start? && LocalName(evs[j].name) == "PropertyGroup")
    ensures Scan(f, evs, s).1 == evs
    ensures !Scan(f, evs, s).0.inPropertyGroup && !Scan(f, evs, s).0.inVersion
    ensures Scan(f, evs, s).0.versionUpdated == f.versionUpdated
  {
    if evs != [] {
      var n := |evs| - 1;
      var p, e := evs[..n], evs[n];
      assert forall j :: 0 <= j < |p| ==> p[j] == evs[j];
      NoGroupScan(f, p, s);
      var g := Scan(f, p, s).0;
      StepOutsideGroup(g, e, s);
      assert Scan(f, evs, s).0 == Step(g, e, s).0;
      assert Scan(f, evs, s).1 == p + [e] == evs;
    }
  }

  /** Outside any PropertyGroup, an event that does not open one is copied and leaves both scopes closed. */
  lemma StepOutsideGroup(g: Flags, e: Event, s: Settings)
    requires !g.inPropertyGroup && !g.inVersion && !Stops(e) && !(e.Start? && LocalName(e.name) == "PropertyGroup")
    ensures Step(g, e, s).1 == [e]
    ensures !Step(g, e, s).0.inPropertyGroup && !Step(g, e, s).0.inVersion
    ensures Step(g, e, s).0.versionUpdated == g.versionUpdated
  {
  }

  lemma NoPropertyGroupUnchanged(events: seq<Event>, s: Settings)
    requires !Fails(events)
    requires forall j :: 0 <= j < |Read(events)| ==> !(Read(events)[j].Start? && LocalName(Read(events)[j].name) == "PropertyGroup")
    ensures UpdateResult(events, s) == Ok(Read(events))
  {
    var evs := Read(events);
    assert forall j :: 0 <= j < |evs| ==> evs[j] == events[j];
    NoGroupScan(Initial, evs, s);
  }

  /** Once the edit is made (after the first `n` events), every further event is copied as it is. */
  lemma {:induction false} CopiedAfterEdit(f: Flags, evs: seq<Event>, n: nat, s: Settings)
    requires n <= |evs| && Scan(f, evs[..n], s).0.versionUpdated && NoStops(evs[n..])
    ensures Scan(f, evs, s).0.versionUpdated && Scan(f, evs, s).1 == Scan(f, evs[..n], s).1 + evs[n..]
    decreases |evs|
  {
    if |evs| == n {
      assert evs[..n] == evs;
    } else {
      var p := evs[..|evs| - 1];
      assert p[..n] == evs[..n];
      assert forall j :: 0 <= j < |p[n..]| ==> p[n..][j] == evs[n..][j];
      CopiedAfterEdit(f, p, n, s);
      StepCases(Scan(f, p, s).0, evs[|evs| - 1], s);
      assert evs[n..] == p[n..] + [evs[|evs| - 1]];
    }
  }

  /** Inside a PropertyGroup and outside a Version element, other events change no flag and are copied. */
  lemma StepPlain(g: Flags, e: Event, s: Settings)
    requires g.inPropertyGroup && !g.inVersion && !Stops(e) && !Structural(e)
    ensures Step(g, e, s) == (g, [e])
  {
  }

  lemma {:induction false} PlainScan(f: Flags, evs: seq<Event>, n: nat, s: Settings)
    requires n <= |evs| && Scan(f, evs[..n], s).0.inPropertyGroup && !Scan(f, evs[..n], s).0.inVersion
    requires forall j :: n <= j < |evs| ==> !Stops(evs[j]) && !Structural(evs[j])
    ensures Scan(f, evs, s).0 == Scan(f, evs[..n], s).0
    ensures Scan(f, evs, s).1 == Scan(f, evs[..n], s).1 + evs[n..]
    decreases |evs|
  {
    if |evs| == n {
      assert evs[..n] == evs;
    } else {
      var p := evs[..|evs| - 1];
      assert p[..n] == evs[..n];
      PlainScan(f, p, n, s);
      StepPlain(Scan(f, p, s).0, evs[|evs| - 1], s);
      assert evs[n..] == p[n..] + [evs[|evs| - 1]];
    }
  }

  /** Reading stops at the first `Eof`; everything before it is handled. */
  lemma UntilEof(evs: seq<Event>, rest: seq<Event>, s: Settings)
    requires NoStops(evs)
    ensures UpdateResult(evs + [Eof] + rest, s) == Ok(Scan(Initial, evs, s).1)
  {
    var events := evs + [Eof] + rest;
    assert events[..|evs|] == evs && events[|evs|] == Eof;
    FirstStopAt(events, |evs|);
  }

  /** Some PropertyGroup end tag comes before the event at `k`. */
  ghost predicate GroupEndedBefore(evs: seq<Event>, k: nat)
    requires k <= |evs|
  {
    exists j :: 0 <= j < k && Closes(evs[j], "PropertyGroup")
  }

  /**
   * The event at `k` is a place for the single edit: a text inside an open
   * Version element (it is replaced), or, for a document without a version,
   * the first PropertyGroup end tag of the document while a group is open
   * (the Version element goes before it).
   */
  ghost predicate EditSlot(evs: seq<Event>, k: nat, s: Settings)
    requires k < |evs|
  {
    (evs[k].Text? && VersionOpenAt(evs, k))
    || (!s.hasVersion && Closes(evs[k], "PropertyGroup") && GroupOpenAt(evs, k) && !GroupEndedBefore(evs, k))
  }

  /** Some event before `k` is a place for the edit. */
  ghost predicate EditedBefore(evs: seq<Event>, k: nat, s: Settings)
    requires k <= |evs|
  {
    exists j :: 0 <= j < k && EditSlot(evs, j, s)
  }

  /** The flags after one more of the first events. */
  lemma ScanPrefixNext(f: Flags, evs: seq<Event>, n: nat, s: Settings)
    requires n < |evs|
    ensures Scan(f, evs[..n + 1], s).0 == Step(Scan(f, evs[..n], s).0, evs[n], s).0
  {
    assert evs[..n + 1][..n] == evs[..n] && evs[..n + 1][n] == evs[n];
  }

  /** The edit has been made before `n + 1` when it was made before `n` or `n` is a place for it. */
  lemma EditedNext(evs: seq<Event>, n: nat, s: Settings)
    requires n < |evs|
    ensures EditedBefore(evs, n + 1, s) <==> EditedBefore(evs, n, s) || EditSlot(evs, n, s)
  {
    if EditedBefore(evs, n + 1, s) && !EditSlot(evs, n, s) {
      var j :| 0 <= j < n + 1 && EditSlot(evs, j, s);
      assert j < n;
    }
  }

  /** A PropertyGroup end tag comes before `n + 1` when one comes before `n` or sits at `n`. */
  lemma EndedNext(evs: seq<Event>, n: nat)
    requires n < |evs|
    ensures GroupEndedBefore(evs, n + 1) <==> GroupEndedBefore(evs, n) || Closes(evs[n], "PropertyGroup")
  {
    if GroupEndedBefore(evs, n + 1) && !Closes(evs[n], "PropertyGroup") {
      var j :| 0 <= j < n + 1 && Closes(evs[j], "PropertyGroup");
      assert j < n;
    }
  }

  /** The flags at `n` describe the scopes at `n`. */
  ghost predicate FlagsAt(f: Flags, evs: seq<Event>, n: nat, s: Settings)
    requires n <= |evs|
  {
    f == Flags(GroupOpenAt(evs, n), VersionOpenAt(evs, n), EditedBefore(evs, n, s), GroupEndedBefore(evs, n))
  }

  /** What one step does to each flag, as a formula in the old flags and the event. */
  lemma StepFlags(f: Flags, e: Event, s: Settings)
    ensures Step(f, e, s).0.inPropertyGroup == (Opens(e, "PropertyGroup") || (f.inPropertyGroup && !Closes(e, "PropertyGroup")))
    ensures Step(f, e, s).0.inVersion == ((Opens(e, "Version") && f.inPropertyGroup) || (f.inVersion && !Closes(e, "Version")))
    ensures Step(f, e, s).0.versionUpdated == (f.versionUpdated || (e.Text? && f.inVersion)
      || (!s.hasVersion && Closes(e, "PropertyGroup") && f.inPropertyGroup && !f.firstGroupEnded))
    ensures Step(f, e, s).0.firstGroupEnded == (f.firstGroupEnded || Closes(e, "PropertyGroup"))
  {
    assert "Version" != "PropertyGroup";
  }

  /** With the flags describing the scopes at `n`, the place for the edit at `n` is a formula in the flags. */
  lemma SlotFromFlags(f: Flags, evs: seq<Event>, n: nat, s: Settings)
    requires n < |evs| && FlagsAt(f, evs, n, s)
    ensures EditSlot(evs, n, s) == ((evs[n].Text? && f.inVersion)
      || (!s.hasVersion && Closes(evs[n], "PropertyGroup") && f.inPropertyGroup && !f.firstGroupEnded))
  {
  }

  /** One step of the loop keeps the flags describing the scopes. */
  lemma StepScopes(f: Flags, evs: seq<Event>, n: nat, s: Settings)
    requires n < |evs| && FlagsAt(f, evs, n, s)
    ensures FlagsAt(Step(f, evs[n], s).0, evs, n + 1, s)
  {
    StepFlags(f, evs[n], s);
    SlotFromFlags(f, evs, n, s);
    GroupOpenNext(evs, n);
    VersionOpenNext(evs, n);
    EditedNext(evs, n, s);
    EndedNext(evs, n);
  }

  /** The loop's four flags after the first `k` events are the scopes and facts the predicates above describe. */
  lemma {:induction false} ScanScopes(evs: seq<Event>, k: nat, s: Settings)
    requires k <= |evs|
    ensures FlagsAt(Scan(Initial, evs[..k], s).0, evs, k, s)
  {
    if k > 0 {
      ScanScopes(evs, k - 1, s);
      ScanPrefixNext(Initial, evs, k - 1, s);
      StepScopes(Scan(Initial, evs[..k - 1], s).0, evs, k - 1, s);
    }
  }

  /** Before the first place for the edit, everything read is copied and the flag is still clear. */
  lemma ScanBeforeSlot(evs: seq<Event>, k: nat, s: Settings)
    requires NoStops(evs) && k <= |evs|
    requires forall j :: 0 <= j < k ==> !EditSlot(evs, j, s)
    ensures FlagsAt(Scan(Initial, evs[..k], s).0, evs, k, s)
    ensures !Scan(Initial, evs[..k], s).0.versionUpdated && Scan(Initial, evs[..k], s).1 == evs[..k]
  {
    assert forall j :: 0 <= j < k ==> evs[..k][j] == evs[j];
    ScanScopes(evs, k, s);
    ScanShape(Initial, evs[..k], s);
  }

  /** At the first place for the edit the step makes it: the text is replaced, or the block goes before the tag. */
  lemma EditAtSlot(evs: seq<Event>, k: nat, s: Settings)
    requires NoStops(evs) && k < |evs| && EditSlot(evs, k, s)
    requires forall j :: 0 <= j < k ==> !EditSlot(evs, j, s)
    ensures Scan(Initial, evs[..k + 1], s).0.versionUpdated
    ensures evs[k].Text? ==> Scan(Initial, evs[..k + 1], s).1 == evs[..k] + [Text(s.newVersion)]
    ensures evs[k].End? ==> Scan(Initial, evs[..k + 1], s).1 == evs[..k] + VersionBlock(s.indent, s.newVersion) + [evs[k]]
  {
    ScanBeforeSlot(evs, k, s);
    var f := Scan(Initial, evs[..k], s).0;
    assert evs[..k + 1][..k] == evs[..k] && evs[..k + 1][k] == evs[k];
    assert Scan(Initial, evs[..k + 1], s) == (Step(f, evs[k], s).0, evs[..k] + Step(f, evs[k], s).1);
  }

  /** After the edit, the scan of the whole document is what was written so far and a copy of the rest. */
  lemma CopiedAfter(evs: seq<Event>, n: nat, written: seq<Event>, s: Settings)
    requires NoStops(evs) && n <= |evs|
    requires Scan(Initial, evs[..n], s).0.versionUpdated && Scan(Initial, evs[..n], s).1 == written
    ensures Scan(Initial, evs, s).1 == written + evs[n..]
  {
    assert forall j :: n <= j < |evs| ==> evs[n..][j - n] == evs[j];
    CopiedAfterEdit(Initial, evs, n, s);
  }

  /** The block and the end tag at `k`, then the events after it, are the block and the events from `k`. */
  lemma BlockThenRest(evs: seq<Event>, k: nat, block: seq<Event>)
    requires k < |evs|
    ensures evs[..k] + block + [evs[k]] + evs[k + 1..] == evs[..k] + block + evs[k..]
  {
    assert evs[k..] == [evs[k]] + evs[k + 1..];
  }

  /** After the inserted block and the end tag at `k`, the rest is copied. */
  lemma InsertedThenCopied(evs: seq<Event>, k: nat, s: Settings)
    requires NoStops(evs) && k < |evs|
    requires Scan(Initial, evs[..k + 1], s).0.versionUpdated
    requires Scan(Initial, evs[..k + 1], s).1 == evs[..k] + VersionBlock(s.indent, s.newVersion) + [evs[k]]
    ensures Scan(Initial, evs, s).1 == evs[..k] + VersionBlock(s.indent, s.newVersion) + evs[k..]
  {
    var block := VersionBlock(s.indent, s.newVersion);
    CopiedAfter(evs, k + 1, evs[..k] + block + [evs[k]], s);
    BlockThenRest(evs, k, block);
  }

  /** The whole scan makes the edit at the first place for it and copies everything else. */
  lemma ScanEditsFirstSlot(evs: seq<Event>, k: nat, s: Settings)
    requires NoStops(evs) && k < |evs| && EditSlot(evs, k, s)
    requires forall j :: 0 <= j < k ==> !EditSlot(evs, j, s)
    ensures evs[k].Text? ==> Scan(Initial, evs, s).1 == evs[..k] + [Text(s.newVersion)] + evs[k + 1..]
    ensures evs[k].End? ==> Scan(Initial, evs, s).1 == evs[..k] + VersionBlock(s.indent, s.newVersion) + evs[k..]
  {
    EditAtSlot(evs, k, s);
    if evs[k].Text? {
      CopiedAfter(evs, k + 1, evs[..k] + [Text(s.newVersion)], s);
    } else {
      InsertedThenCopied(evs, k, s);
    }
  }

  /**
   * A successful run makes its edit at the first place for it: the text
   * there becomes the new version, or the Version element is written just
   * before the PropertyGroup end tag there; every other event is copied.
   */
  lemma UpdateEditsFirstSlot(events: seq<Event>, s: Settings, k: nat)
    requires !Fails(events) && k < |Read(events)| && EditSlot(Read(events), k, s)
    requires forall j :: 0 <= j < k ==> !EditSlot(Read(events), j, s)
    ensures UpdateResult(events, s).Ok?
    ensures Read(events)[k].Text? ==> ReplacedAt(UpdateResult(events, s).value, Read(events), k, s)
    ensures Read(events)[k].End? ==> InsertedAt(UpdateResult(events, s).value, Read(events), k, s)
  {
    var evs := Read(events);
    assert forall j :: 0 <= j < |evs| ==> evs[j] == events[j];
    ScanEditsFirstSlot(evs, k, s);
  }

  /** A successful run with no place for the edit writes back what the reader returned. */
  lemma UpdateWithoutSlot(events: seq<Event>, s: Settings)
    requires !Fails(events) && forall k :: 0 <= k < |Read(events)| ==> !EditSlot(Read(events), k, s)
    ensures UpdateResult(events, s) == Ok(Read(events))
  {
    var evs := Read(events);
    assert forall j :: 0 <= j < |evs| ==> evs[j] == events[j];
    ScanScopes(evs, |evs|, s);
    assert evs[..|evs|] == evs;
    ScanShape(Initial, evs, s);
  }

  /** A document the reader ends with `Eof` after `evs`: nothing fails and `evs` is what is read. */
  lemma ReadUntilEof(evs: seq<Event>, rest: seq<Event>)
    requires NoStops(evs)
    ensures !Fails(evs + [Eof] + rest) && Read(evs + [Eof] + rest) == evs
  {
    var events := evs + [Eof] + rest;
    assert events[..|evs|] == evs && events[|evs|] == Eof;
    FirstStopAt(events, |evs|);
  }

  /**
   * Before `n` no event opens a Version element or closes a PropertyGroup:
   * there is no place for the edit before `n`.
   */
  lemma NoSlotBefore(evs: seq<Event>, n: nat, s: Settings)
    requires n <= |evs|
    requires forall m :: 0 <= m < n ==> !Opens(evs[m], "Version") && !Closes(evs[m], "PropertyGroup")
    ensures forall j :: 0 <= j < n ==> !EditSlot(evs, j, s)
  {
    NoVersionOpen(evs, n);
  }

  /**
   * A PropertyGroup opened at `a` and a Version element opened at `b`, with
   * nothing before `b` that opens a Version element or closes a group: the
   * text at `b + 1` is the first place for the edit.
   */
  lemma ReplaceSlot(evs: seq<Event>, a: nat, b: nat, s: Settings)
    requires a < b && b + 1 < |evs| && Opens(evs[a], "PropertyGroup") && Opens(evs[b], "Version") && evs[b + 1].Text?
    requires forall m :: 0 <= m < b ==> !Opens(evs[m], "Version") && !Closes(evs[m], "PropertyGroup")
    ensures EditSlot(evs, b + 1, s) && forall j :: 0 <= j < b + 1 ==> !EditSlot(evs, j, s)
  {
    NoSlotBefore(evs, b, s);
    GroupOpenFrom(evs, a, b);
    assert VersionOpenAt(evs, b + 1);
  }

  /**
   * A PropertyGroup opened at `a` and closed at `b`, with nothing before
   * `b` that opens a Version element or closes a group: without a version,
   * the end tag at `b` is the first place for the edit.
   */
  lemma InsertSlot(evs: seq<Event>, a: nat, b: nat, s: Settings)
    requires a < b < |evs| && Opens(evs[a], "PropertyGroup") && Closes(evs[b], "PropertyGroup") && !s.hasVersion
    requires forall m :: 0 <= m < b ==> !Opens(evs[m], "Version") && !Closes(evs[m], "PropertyGroup")
    ensures EditSlot(evs, b, s) && forall j :: 0 <= j < b ==> !EditSlot(evs, j, s)
  {
    NoSlotBefore(evs, b, s);
    GroupOpenFrom(evs, a, b);
    assert !GroupEndedBefore(evs, b);
  }

  /** The pieces of `lead + [x, y] + tail`, by index. */
  lemma PairSplice(lead: seq<Event>, x: Event, y: Event, z: Event, tail: seq<Event>)
    ensures (lead + [x, y] + tail)[..|lead| + 1] == lead + [x] && (lead + [x, y] + tail)[|lead| + 2..] == tail
    ensures lead + [x] + [z] + tail == lead + [x, z] + tail
    ensures forall m :: 0 <= m < |lead| ==> (lead + [x, y] + tail)[m] == lead[m]
  {
    assert (lead + [x, y] + tail)[..|lead| + 1] == lead + [x];
  }

  /** The pieces of `lead + [x] + tail`, by index. */
  lemma OneSplice(lead: seq<Event>, x: Event, block: seq<Event>, tail: seq<Event>)
    ensures (lead + [x] + tail)[..|lead|] == lead && (lead + [x] + tail)[|lead|..] == [x] + tail
    ensures lead + block + ([x] + tail) == lead + block + [x] + tail
    ensures forall m :: 0 <= m < |lead| ==> (lead + [x] + tail)[m] == lead[m]
  {
  }

  /**
   * After `lead`, which opens a PropertyGroup at `a` and otherwise opens no
   * Version element and closes no group, the text of the Version element
   * that follows becomes the new version.
   */
  lemma ReplacedAfter(lead: seq<Event>, a: nat, version: string, va: seq<Attribute>, current: string,
                      tail: seq<Event>, rest: seq<Event>, s: Settings)
    requires a < |lead| && Opens(lead[a], "PropertyGroup") && LocalName(version) == "Version"
    requires NoStops(lead) && NoStops(tail)
    requires forall m :: 0 <= m < |lead| ==> !Opens(lead[m], "Version") && !Closes(lead[m], "PropertyGroup")
    ensures UpdateResult(lead + [Start(version, va), Text(current)] + tail + [Eof] + rest, s)
      == Ok(lead + [Start(version, va), Text(s.newVersion)] + tail)
  {
    var evs := lead + [Start(version, va), Text(current)] + tail;
    var b := |lead|;
    PairSplice(lead, Start(version, va), Text(current), Text(s.newVersion), tail);
    NoStopsAppend(lead, [Start(version, va), Text(current)]);
    NoStopsAppend(lead + [Start(version, va), Text(current)], tail);
    ReadUntilEof(evs, rest);
    ReplaceSlot(evs, a, b, s);
    UpdateEditsFirstSlot(evs + [Eof] + rest, s, b + 1);
  }

  /**
   * Without a version: after `lead`, which opens a PropertyGroup at `a` and
   * otherwise opens no Version element and closes no group, the Version
   * element goes before the next PropertyGroup end tag.
   */
  lemma AddedAfter(lead: seq<Event>, a: nat, groupEnd: string, tail: seq<Event>, rest: seq<Event>, s: Settings)
    requires a < |lead| && Opens(lead[a], "PropertyGroup") && LocalName(groupEnd) == "PropertyGroup" && !s.hasVersion
    requires NoStops(lead) && NoStops(tail)
    requires forall m :: 0 <= m < |lead| ==> !Opens(lead[m], "Version") && !Closes(lead[m], "PropertyGroup")
    ensures UpdateResult(lead + [End(groupEnd)] + tail + [Eof] + rest, s)
      == Ok(lead + VersionBlock(s.indent, s.newVersion) + [End(groupEnd)] + tail)
  {
    var evs := lead + [End(groupEnd)] + tail;
    var b := |lead|;
    OneSplice(lead, End(groupEnd), VersionBlock(s.indent, s.newVersion), tail);
    NoStopsAppend(lead, [End(groupEnd)]);
    NoStopsAppend(lead + [End(groupEnd)], tail);
    ReadUntilEof(evs, rest);
    InsertSlot(evs, a, b, s);
    UpdateEditsFirstSlot(evs + [Eof] + rest, s, b);
  }

  /**
   * `pre + [open] + mid`, with `pre` and `mid` free of tags the loops act
   * on: the group is opened at `|pre|`, and nothing opens a Version element
   * or closes a group.
   */
  lemma GroupLead(pre: seq<Event>, group: string, ga: seq<Attribute>, mid: seq<Event>)
    requires LocalName(group) == "PropertyGroup" && NoStops(pre) && NoStops(mid)
    requires forall j :: 0 <= j < |pre| ==> !Structural(pre[j])
    requires forall j :: 0 <= j < |mid| ==> !Structural(mid[j])
    ensures var lead := pre + [Start(group, ga)] + mid;
      |pre| < |lead| && Opens(lead[|pre|], "PropertyGroup") && NoStops(lead)
      && forall m :: 0 <= m < |lead| ==> !Opens(lead[m], "Version") && !Closes(lead[m], "PropertyGroup")
  {
    var lead := pre + [Start(group, ga)] + mid;
    assert forall j :: 0 <= j < |pre| ==> lead[j] == pre[j];
    assert forall j :: |pre| < j < |lead| ==> lead[j] == mid[j - |pre| - 1];
    assert LocalName(group) != "Version" by {
      assert |"Version"| != |"PropertyGroup"|;
    }
    NoStopsAppend(pre, [Start(group, ga)]);
    NoStopsAppend(pre + [Start(group, ga)], mid);
  }

  /**
   * In a document that opens a PropertyGroup after events that open or
   * close nothing the loop acts on, the first text of a Version element
   * that follows, after further such events, becomes the new version; the
   * rest is copied.
   */
  lemma VersionTextReplaced(pre: seq<Event>, group: string, ga: seq<Attribute>, mid: seq<Event>,
                            version: string, va: seq<Attribute>, current: string,
                            tail: seq<Event>, rest: seq<Event>, s: Settings)
    requires LocalName(group) == "PropertyGroup" && LocalName(version) == "Version"
    requires NoStops(pre) && NoStops(mid) && NoStops(tail)
    requires forall j :: 0 <= j < |pre| ==> !Structural(pre[j])
    requires forall j :: 0 <= j < |mid| ==> !Structural(mid[j])
    ensures UpdateResult(pre + [Start(group, ga)] + mid + [Start(version, va), Text(current)] + tail + [Eof] + rest, s)
      == Ok(pre + [Start(group, ga)] + mid + [Start(version, va), Text(s.newVersion)] + tail)
  {
    GroupLead(pre, group, ga, mid);
    ReplacedAfter(pre + [Start(group, ga)] + mid, |pre|, version, va, current, tail, rest, s);
  }

  /**
   * Without a version, in a document that opens a PropertyGroup after
   * events that open or close nothing the loop acts on, the Version
   * element is added before that group's end tag when nothing in between
   * opens a Version element; the rest is copied.
   */
  lemma VersionElementAdded(pre: seq<Event>, group: string, ga: seq<Attribute>, mid: seq<Event>, groupEnd: string,
                            tail: seq<Event>, rest: seq<Event>, s: Settings)
    requires LocalName(group) == "PropertyGroup" && LocalName(groupEnd) == "PropertyGroup" && !s.hasVersion
    requires NoStops(pre) && NoStops(mid) && NoStops(tail)
    requires forall j :: 0 <= j < |pre| ==> !Structural(pre[j])
    requires forall j :: 0 <= j < |mid| ==> !Structural(mid[j])
    ensures UpdateResult(pre + [Start(group, ga)] + mid + [End(groupEnd)] + tail + [Eof] + rest, s)
      == Ok(pre + [Start(group, ga)] + mid + VersionBlock(s.indent, s.newVersion) + [End(groupEnd)] + tail)
  {
    GroupLead(pre, group, ga, mid);
    AddedAfter(pre + [Start(group, ga)] + mid, |pre|, groupEnd, tail, rest, s);
  }
}
