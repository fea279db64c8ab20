/**
 * The version bump: split on ".", add one to the component chosen by the
 * update type, join again. Lower components are not reset.
 */
module NextVersion {
  import opened Wrappers
  import opened Text
  import opened UpdateTypes

  /** What the shown body needs in order not to panic: the component exists, parses and can grow. */
  predicate Bumpable(version: string, t: UpdateType) {
    var parts := Split(version, '.');
    ComponentIndex(t) < |parts|
    && ParseUsize(parts[ComponentIndex(t)]).Some?
    && ParseUsize(parts[ComponentIndex(t)]).value < USIZE_MAX
  }

  /** `next_version` exactly as its body computes when it does not panic. */
  function Next(version: string, t: UpdateType): string
    requires Bumpable(version, t)
  {
    var parts := Split(version, '.');
    var i := ComponentIndex(t);
    var n := ParseUsize(parts[i]).value;
    Join(parts[i := DecimalString(n + 1)], ".")
  }

  /**
   * The bump read back component by component: as many components as
   * before, the chosen one one greater, every other one unchanged.
   */
  lemma NextBumpsComponent(version: string, t: UpdateType)
    requires Bumpable(version, t)
    ensures |Split(Next(version, t), '.')| == |Split(version, '.')|
    ensures forall j :: 0 <= j < |Split(version, '.')| && j != ComponentIndex(t) ==>
      Split(Next(version, t), '.')[j] == Split(version, '.')[j]
    ensures ParseUsize(Split(Next(version, t), '.')[ComponentIndex(t)])
      == Some(ParseUsize(Split(version, '.')[ComponentIndex(t)]).value + 1)
  {
    var parts := Split(version, '.');
    var i := ComponentIndex(t);
    var n := ParseUsize(parts[i]).value;
    NextComponents(version, t);
    ParseDecimal(n + 1);
  }

  /** The components of the bump: those of the version with the chosen one replaced by its successor's digits. */
  lemma NextComponents(version: string, t: UpdateType)
    requires Bumpable(version, t)
    ensures Split(Next(version, t), '.')
      == Split(version, '.')[ComponentIndex(t) := DecimalString(ParseUsize(Split(version, '.')[ComponentIndex(t)]).value + 1)]
  {
    var parts := Split(version, '.');
    var i := ComponentIndex(t);
    ReplacedComponent(parts, i, DecimalString(ParseUsize(parts[i]).value + 1));
  }

  /** Joining with one component replaced by a dot-free one and splitting again gives the replaced components. */
  lemma ReplacedComponent(parts: seq<string>, i: nat, d: string)
    requires i < |parts| && forall j :: 0 <= j < |parts| ==> '.' !in parts[j]
    requires forall j :: 0 <= j < |d| ==> IsAsciiDigit(d[j])
    ensures Split(Join(parts[i := d], "."), '.') == parts[i := d]
  {
    SplitJoin(parts[i := d], '.');
  }

  /**
   * The same rule for callers that propagate failure with `?`: a missing or
   * non-numeric component (or a component at the maximum `usize`) is an error.
   */
  function TryNext(version: string, t: UpdateType): (r: Result<string>)
    ensures r.Ok? <==> Bumpable(version, t)
    ensures r.Ok? ==> r.value == Next(version, t)
  {
    if Bumpable(version, t) then Ok(Next(version, t))
    else Err("invalid version component")
  }

  /** The version a package without one is taken to have. */
  const DefaultVersion: string := "0.0.0"

  /** The version an `update_version` writes: the bump of the current one, or of "0.0.0" when there is none. */
  function NewVersion(version: Option<string>, t: UpdateType): Result<string> {
    TryNext(version.GetOr(DefaultVersion), t)
  }

  /** A missing version is bumped as "0.0.0". */
  lemma MissingIsDefault(t: UpdateType)
    ensures NewVersion(None, t) == NewVersion(Some("0.0.0"), t)
  {
  }

  lemma SplitDotted(parts: seq<string>)
    requires |parts| >= 1
    requires forall i :: 0 <= i < |parts| ==> '.' !in parts[i]
    ensures Split(Join(parts, "."), '.') == parts
  {
    SplitJoin(parts, '.');
  }

  /** Bumping a three-component version whose components are plain decimals. */
  lemma NextOfTriple(parts: seq<string>, t: UpdateType, n: nat)
    requires |parts| == 3 && forall i :: 0 <= i < 3 ==> '.' !in parts[i]
    requires parts[ComponentIndex(t)] == DecimalString(n) && n < USIZE_MAX
    ensures Bumpable(Join(parts, "."), t)
    ensures Next(Join(parts, "."), t) == Join(parts[ComponentIndex(t) := DecimalString(n + 1)], ".")
  {
    SplitDotted(parts);
    ParseDecimal(n);
  }

  lemma JoinTriple(parts: seq<string>)
    requires |parts| == 3
    ensures Join(parts, ".") == parts[0] + "." + parts[1] + "." + parts[2]
  {
    assert parts[1..][1..] == [parts[2]];
    assert Join(parts[1..], ".") == parts[1] + "." + parts[2];
  }

  lemma PatchExample(version: string)
    requires version == "1.0.0"
    ensures Bumpable(version, Patch) && Next(version, Patch) == "1.0.1"
  {
    var parts := ["1", "0", "0"];
    JoinTriple(parts);
    assert Join(parts, ".") == version;
    assert DecimalString(0) == "0" && DecimalString(0 + 1) == "1";
    NextOfTriple(parts, Patch, 0);
    var bumped := parts[ComponentIndex(Patch) := DecimalString(0 + 1)];
    assert bumped == ["1", "0", "1"];
    JoinTriple(bumped);
  }

  lemma MinorExample(version: string)
    requires version == "1.0.0"
    ensures Bumpable(version, Minor) && Next(version, Minor) == "1.1.0"
  {
    var parts := ["1", "0", "0"];
    JoinTriple(parts);
    assert Join(parts, ".") == version;
    assert DecimalString(0) == "0" && DecimalString(0 + 1) == "1";
    NextOfTriple(parts, Minor, 0);
    var bumped := parts[ComponentIndex(Minor) := DecimalString(0 + 1)];
    assert bumped == ["1", "1", "0"];
    JoinTriple(bumped);
  }

  lemma MajorExample(version: string)
    requires version == "1.0.0"
    ensures Bumpable(version, Major) && Next(version, Major) == "2.0.0"
  {
    var parts := ["1", "0", "0"];
    JoinTriple(parts);
    assert Join(parts, ".") == version;
    assert DecimalString(1) == "1" && DecimalString(1 + 1) == "2";
    NextOfTriple(parts, Major, 1);
    var bumped := parts[ComponentIndex(Major) := DecimalString(1 + 1)];
    assert bumped == ["2", "0", "0"];
    JoinTriple(bumped);
  }

  /** A missing version counts as 0.0.0, whose Patch bump is 0.0.1. */
  lemma ZeroPatchExample(version: string)
    requires version == "0.0.0"
    ensures Bumpable(version, Patch) && Next(version, Patch) == "0.0.1"
  {
    var parts := ["0", "0", "0"];
    JoinTriple(parts);
    assert Join(parts, ".") == version;
    assert DecimalString(0) == "0" && DecimalString(0 + 1) == "1";
    NextOfTriple(parts, Patch, 0);
    var bumped := parts[ComponentIndex(Patch) := DecimalString(0 + 1)];
    assert bumped == ["0", "0", "1"];
    JoinTriple(bumped);
  }

  /** Lower components are kept: a Major bump of 1.2.3 gives 2.2.3, not 2.0.0. */
  lemma NoResetExample(version: string)
    requires version == "1.2.3"
    ensures Bumpable(version, Major) && Next(version, Major) == "2.2.3"
  {
    var parts := ["1", "2", "3"];
    JoinTriple(parts);
    assert Join(parts, ".") == version;
    assert DecimalString(1) == "1" && DecimalString(1 + 1) == "2";
    NextOfTriple(parts, Major, 1);
    var bumped := parts[ComponentIndex(Major) := DecimalString(1 + 1)];
    assert bumped == ["2", "2", "3"];
    JoinTriple(bumped);
  }
}
