/** The three bump kinds of a change log entry and their derived order. */
module UpdateTypes {
  import opened Text

  datatype UpdateType = Major | Minor | Patch

  /** The explicit discriminant of each variant. */
  function Discriminant(t: UpdateType): (d: nat)
    ensures d < 3
  {
    match t
    case Major => 0
    case Minor => 1
    case Patch => 2
  }

  /** The derived `PartialOrd`/`Ord`: comparison of discriminants. */
  predicate Less(a: UpdateType, b: UpdateType) {
    Discriminant(a) < Discriminant(b)
  }

  function Max(a: UpdateType, b: UpdateType): (m: UpdateType)
    ensures m == a || m == b
    ensures !Less(m, a) && !Less(m, b)
  {
    if Less(a, b) then b else a
  }

  /** Discriminants are distinct, so the derived order is total and strict. */
  lemma DiscriminantInjective(a: UpdateType, b: UpdateType)
    ensures Discriminant(a) == Discriminant(b) <==> a == b
    ensures Less(a, b) || a == b || Less(b, a)
    ensures !(Less(a, b) && Less(b, a))
  {
  }

  lemma OrderChain()
    ensures Discriminant(Major) == 0 && Discriminant(Minor) == 1 && Discriminant(Patch) == 2
    ensures Less(Major, Minor) && Less(Minor, Patch) && Less(Major, Patch)
  {
  }

  /** Component of the dot-separated version that the bump increments. */
  function ComponentIndex(t: UpdateType): (i: nat)
    ensures i == Discriminant(t)
  {
    match t
    case Major => 0
    case Minor => 1
    case Patch => 2
  }

  function Name(t: UpdateType): string {
    match t
    case Major => "Major"
    case Minor => "Minor"
    case Patch => "Patch"
  }

  /** `Display`: the name in bold red, yellow or green ANSI colour. */
  function Display(t: UpdateType): (s: string)
    ensures StartsWith(s, "\U{1B}[1;3") && EndsWith(s, "\U{1B}[0m")
    ensures |s| == 16 && s[7..12] == Name(t)
  {
    match t
    case Major => "\U{1B}[1;31mMajor\U{1B}[0m"
    case Minor => "\U{1B}[1;33mMinor\U{1B}[0m"
    case Patch => "\U{1B}[1;32mPatch\U{1B}[0m"
  }

  lemma DisplayContainsName(t: UpdateType)
    ensures Contains(Display(t), Name(t))
  {
    assert |Name(t)| == 5;
    ContainsAt(Display(t), Name(t), 7);
  }

  lemma DisplayInjective(a: UpdateType, b: UpdateType)
    requires Display(a) == Display(b)
    ensures a == b
  {
    assert Display(a)[7..12] == Display(b)[7..12];
  }
}
