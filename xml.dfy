/**
 * The event stream a quick_xml `Reader` produces for a document. The
 * tokeniser itself is not modelled: a document is given as the sequence of
 * events the reader returns, where `Error` stands for the reader failing
 * at that point and `Eof` (or the end of the sequence) for the end of input.
 * Entity references are separate `GeneralRef` events, so `Text` carries
 * literal character data.
 */
module Xml {
  import opened Wrappers
  import Text

  /** An attribute as `attributes().flatten()` yields it; `value` is the result of `unescape_value`. */
  datatype Attribute = Attribute(key: string, value: Option<string>)

  /** Events the C# code copies through without looking at them. */
  datatype OtherKind = Comment | CData | Decl | PI | DocType | GeneralRef

  datatype Event =
    | Start(name: string, attrs: seq<Attribute>)
    | End(name: string)
    | Empty(name: string, attrs: seq<Attribute>)
    | Text(content: string)
    | Other(kind: OtherKind, content: string)
    | Eof
    | Error(message: string)

  predicate Stops(e: Event) {
    e.Eof? || e.Error?
  }

  /** `QName::local_name`: the part after the first ':' (the whole name without one). */
  function LocalName(qname: string): string {
    if ':' in qname then qname[Text.IndexOf(qname, ':') + 1..] else qname
  }

  /** The local name is the whole name, or what follows the first ':'. */
  lemma LocalNameSuffix(qname: string)
    ensures ':' !in qname ==> LocalName(qname) == qname
    ensures ':' in qname ==> exists prefix :: ':' !in prefix && qname == prefix + ":" + LocalName(qname)
  {
    if ':' in qname {
      var i := Text.IndexOf(qname, ':');
      assert qname == qname[..i] + ":" + qname[i + 1..];
    }
  }

  /** No event of `evs` stops the reader. */
  predicate NoStops(evs: seq<Event>) {
    forall j :: 0 <= j < |evs| ==> !Stops(evs[j])
  }

  lemma NoStopsAppend(a: seq<Event>, b: seq<Event>)
    requires NoStops(a) && NoStops(b)
    ensures NoStops(a + b)
  {
    assert forall j :: |a| <= j < |a + b| ==> (a + b)[j] == b[j - |a|];
  }

  /** Index of the first event that ends reading (`Eof` or `Error`), or the length. */
  function FirstStop(events: seq<Event>): (k: nat)
    ensures k <= |events|
    ensures forall j :: 0 <= j < k ==> !Stops(events[j])
    ensures k < |events| ==> Stops(events[k])
  {
    if events == [] || Stops(events[0]) then 0 else 1 + FirstStop(events[1..])
  }

  /** The first stopping event is at `i` when none comes before it. */
  lemma {:induction false} FirstStopAt(events: seq<Event>, i: nat)
    requires i <= |events|
    requires forall j :: 0 <= j < i ==> !Stops(events[..i][j])
    requires i < |events| ==> Stops(events[i])
    ensures FirstStop(events) == i
    ensures events[..FirstStop(events)] == events[..i]
  {
    if i > 0 {
      assert !Stops(events[..i][0]);
      assert events[1..][..i - 1] == events[..i][1..];
      FirstStopAt(events[1..], i - 1);
    }
  }

  /** The events the reader returns before it stops. */
  function Read(events: seq<Event>): seq<Event> {
    events[..FirstStop(events)]
  }

  /** The reader stops on an error rather than at the end of input. */
  predicate Fails(events: seq<Event>) {
    FirstStop(events) < |events| && events[FirstStop(events)].Error?
  }

  function FailureMessage(events: seq<Event>): string
    requires Fails(events)
  {
    events[FirstStop(events)].message
  }

  /** The element (start, end or empty tag) has the given local name. */
  predicate Named(e: Event, local: string) {
    (e.Start? || e.End? || e.Empty?) && LocalName(e.name) == local
  }

  /** A start tag with the given local name. */
  predicate Opens(e: Event, local: string) {
    e.Start? && LocalName(e.name) == local
  }

  /** An end tag with the given local name. */
  predicate Closes(e: Event, local: string) {
    e.End? && LocalName(e.name) == local
  }

  /** A tag the C# event loops act on: a PropertyGroup start or end tag, or a Version start tag. */
  predicate Structural(e: Event) {
    Opens(e, "PropertyGroup") || Closes(e, "PropertyGroup") || Opens(e, "Version")
  }

  /**
   * Scope of the C# event loops, stated without the loops' flags: before
   * the event at `k` a PropertyGroup is open when some PropertyGroup start
   * tag comes earlier and no PropertyGroup end tag after it.
   */
  ghost predicate GroupOpenAt(evs: seq<Event>, k: nat)
    requires k <= |evs|
  {
    exists i :: 0 <= i < k && Opens(evs[i], "PropertyGroup")
      && forall m :: i < m < k ==> !Closes(evs[m], "PropertyGroup")
  }

  /**
   * Before the event at `k` a Version element is open when some Version
   * start tag comes earlier, at a point where a PropertyGroup was open, and
   * no Version end tag after it (a PropertyGroup end tag does not close it).
   */
  ghost predicate VersionOpenAt(evs: seq<Event>, k: nat)
    requires k <= |evs|
  {
    exists j :: 0 <= j < k && Opens(evs[j], "Version") && GroupOpenAt(evs, j)
      && forall m :: j < m < k ==> !Closes(evs[m], "Version")
  }

  /** A group open before `k` stays open after `k` unless the event at `k` closes it. */
  lemma GroupStaysOpen(evs: seq<Event>, k: nat)
    requires k < |evs| && GroupOpenAt(evs, k) && !Closes(evs[k], "PropertyGroup")
    ensures GroupOpenAt(evs, k + 1)
  {
    var i :| 0 <= i < k && Opens(evs[i], "PropertyGroup")
      && forall m :: i < m < k ==> !Closes(evs[m], "PropertyGroup");
    assert forall m :: i < m < k + 1 ==> !Closes(evs[m], "PropertyGroup");
  }

  /** A group open after `k` that the event at `k` does not open was already open and not closed at `k`. */
  lemma GroupWasOpen(evs: seq<Event>, k: nat)
    requires k < |evs| && GroupOpenAt(evs, k + 1) && !Opens(evs[k], "PropertyGroup")
    ensures GroupOpenAt(evs, k) && !Closes(evs[k], "PropertyGroup")
  {
    var i :| 0 <= i < k + 1 && Opens(evs[i], "PropertyGroup")
      && forall m :: i < m < k + 1 ==> !Closes(evs[m], "PropertyGroup");
    assert i < k;
  }

  /** One more event: a PropertyGroup start tag opens the group, its end tag closes it, anything else keeps it. */
  lemma GroupOpenNext(evs: seq<Event>, k: nat)
    requires k < |evs|
    ensures GroupOpenAt(evs, k + 1)
      <==> Opens(evs[k], "PropertyGroup") || (GroupOpenAt(evs, k) && !Closes(evs[k], "PropertyGroup"))
  {
    if GroupOpenAt(evs, k + 1) && !Opens(evs[k], "PropertyGroup") {
      GroupWasOpen(evs, k);
    }
    if GroupOpenAt(evs, k) && !Closes(evs[k], "PropertyGroup") {
      GroupStaysOpen(evs, k);
    }
    if Opens(evs[k], "PropertyGroup") {
      assert GroupOpenAt(evs, k + 1) by {
        assert 0 <= k < k + 1 && Opens(evs[k], "PropertyGroup");
      }
    }
  }

  /** A Version element open before `k` stays open after `k` unless the event at `k` is a Version end tag. */
  lemma VersionStaysOpen(evs: seq<Event>, k: nat)
    requires k < |evs| && VersionOpenAt(evs, k) && !Closes(evs[k], "Version")
    ensures VersionOpenAt(evs, k + 1)
  {
    var j :| 0 <= j < k && Opens(evs[j], "Version") && GroupOpenAt(evs, j)
      && forall m :: j < m < k ==> !Closes(evs[m], "Version");
    assert forall m :: j < m < k + 1 ==> !Closes(evs[m], "Version");
  }

  /** A Version start tag at `k` inside an open group opens the element. */
  lemma VersionOpensAt(evs: seq<Event>, k: nat)
    requires k < |evs| && Opens(evs[k], "Version") && GroupOpenAt(evs, k)
    ensures VersionOpenAt(evs, k + 1)
  {
    assert 0 <= k < k + 1;
  }

  /** A Version element open after `k` and not opened at `k` was already open and not closed at `k`. */
  lemma VersionWasOpen(evs: seq<Event>, k: nat)
    requires k < |evs| && VersionOpenAt(evs, k + 1) && !(Opens(evs[k], "Version") && GroupOpenAt(evs, k))
    ensures VersionOpenAt(evs, k) && !Closes(evs[k], "Version")
  {
    var j :| 0 <= j < k + 1 && Opens(evs[j], "Version") && GroupOpenAt(evs, j)
      && forall m :: j < m < k + 1 ==> !Closes(evs[m], "Version");
    assert j < k;
  }

  /**
   * One more event: a Version start tag inside an open group opens the
   * element, a Version end tag closes it, anything else keeps it.
   */
  lemma VersionOpenNext(evs: seq<Event>, k: nat)
    requires k < |evs|
    ensures VersionOpenAt(evs, k + 1)
      <==> (Opens(evs[k], "Version") && GroupOpenAt(evs, k)) || (VersionOpenAt(evs, k) && !Closes(evs[k], "Version"))
  {
    if VersionOpenAt(evs, k + 1) && !(Opens(evs[k], "Version") && GroupOpenAt(evs, k)) {
      VersionWasOpen(evs, k);
    }
    if VersionOpenAt(evs, k) && !Closes(evs[k], "Version") {
      VersionStaysOpen(evs, k);
    }
    if Opens(evs[k], "Version") && GroupOpenAt(evs, k) {
      VersionOpensAt(evs, k);
    }
  }

  /** With no Version start tag before `n`, no Version element is open up to `n`. */
  lemma NoVersionOpen(evs: seq<Event>, n: nat)
    requires n <= |evs| && forall m :: 0 <= m < n ==> !Opens(evs[m], "Version")
    ensures forall k :: 0 <= k <= n ==> !VersionOpenAt(evs, k)
  {
  }

  /** With no stopping event among the first `n`, the reader stops at `n` or later. */
  lemma FirstStopBeyond(events: seq<Event>, n: nat)
    requires n <= |events| && forall m :: 0 <= m < n ==> !Stops(events[m])
    ensures FirstStop(events) >= n
  {
  }

  /** A PropertyGroup start tag at `i` that no end tag follows before `k` leaves the group open at `k`. */
  lemma GroupOpenFrom(evs: seq<Event>, i: nat, k: nat)
    requires i < k <= |evs| && Opens(evs[i], "PropertyGroup")
    requires forall m :: i < m < k ==> !Closes(evs[m], "PropertyGroup")
    ensures GroupOpenAt(evs, k)
  {
  }
}
