/**
 * String primitives of Rust's `str` that the modelled code relies on:
 * Unicode whitespace and trimming, UTF-8 byte length, `split` / `join`
 * on a single character, `lines`, decimal rendering and `usize` parsing.
 */
module Text {
  import opened Wrappers

  /** `char::is_whitespace`: the Unicode White_Space property. */
  predicate IsWhitespace(c: char) {
    var n := c as int;
    (0x09 <= n <= 0x0D) || n == 0x20 || n == 0x85 || n == 0xA0 || n == 0x1680
    || (0x2000 <= n <= 0x200A) || n == 0x2028 || n == 0x2029 || n == 0x202F
    || n == 0x205F || n == 0x3000
  }

  predicate IsAsciiDigit(c: char) {
    '0' <= c <= '9'
  }

  /** Number of bytes of the UTF-8 encoding of `c`. */
  function Utf8Width(c: char): (w: nat)
    ensures 1 <= w <= 4
    ensures w == 1 <==> c as int < 0x80
  {
    var n := c as int;
    if n < 0x80 then 1 else if n < 0x800 then 2 else if n < 0x10000 then 3 else 4
  }

  /** `str::len`: the UTF-8 byte length. */
  function Utf8Len(s: string): (n: nat)
    ensures |s| <= n <= 4 * |s|
  {
    if s == [] then 0 else Utf8Width(s[0]) + Utf8Len(s[1..])
  }

  lemma {:induction false} Utf8LenAppend(a: string, b: string)
    ensures Utf8Len(a + b) == Utf8Len(a) + Utf8Len(b)
  {
    if a != [] {
      assert (a + b)[0] == a[0] && (a + b)[1..] == a[1..] + b;
      Utf8LenAppend(a[1..], b);
    } else {
      assert a + b == b;
    }
  }

  function TrimStart(s: string): (r: string)
    ensures |r| <= |s|
    ensures r == s[|s| - |r|..]
    ensures r == [] || !IsWhitespace(r[0])
    ensures forall i :: 0 <= i < |s| - |r| ==> IsWhitespace(s[i])
  {
    if s != [] && IsWhitespace(s[0]) then TrimStart(s[1..]) else s
  }

  function TrimEnd(s: string): (r: string)
    ensures |r| <= |s|
    ensures r == s[..|r|]
    ensures r == [] || !IsWhitespace(r[|r| - 1])
    ensures forall i :: |r| <= i < |s| ==> IsWhitespace(s[i])
  {
    if s != [] && IsWhitespace(s[|s| - 1]) then TrimEnd(s[..|s| - 1]) else s
  }

  function Trim(s: string): string {
    TrimStart(TrimEnd(s))
  }

  predicate StartsWith(s: string, prefix: string) {
    |prefix| <= |s| && s[..|prefix|] == prefix
  }

  predicate EndsWith(s: string, suffix: string) {
    |suffix| <= |s| && s[|s| - |suffix|..] == suffix
  }

  /** `str::contains` for a string pattern. */
  predicate Contains(s: string, sub: string) {
    exists i: nat | i <= |s| :: OccursAt(s, sub, i)
  }

  predicate OccursAt(s: string, sub: string, i: nat) {
    i + |sub| <= |s| && s[i..i + |sub|] == sub
  }

  lemma ContainsAt(s: string, sub: string, i: nat)
    requires OccursAt(s, sub, i)
    ensures Contains(s, sub)
  {
  }

  /** `str::split(sep)` for a one-character separator: never empty. */
  function Split(s: string, sep: char): (parts: seq<string>)
    ensures |parts| >= 1
    ensures forall i :: 0 <= i < |parts| ==> sep !in parts[i]
  {
    if s == [] then [""]
    else if s[0] == sep then [""] + Split(s[1..], sep)
    else
      var rest := Split(s[1..], sep);
      [[s[0]] + rest[0]] + rest[1..]
  }

  /** `join(sep)`: the parts with one separator between neighbours. */
  function Join(parts: seq<string>, sep: string): string {
    if parts == [] then ""
    else if |parts| == 1 then parts[0]
    else parts[0] + sep + Join(parts[1..], sep)
  }

  lemma {:induction false} JoinSplit(s: string, sep: char)
    ensures Join(Split(s, sep), [sep]) == s
  {
    if s == [] {
    } else if s[0] == sep {
      JoinSplit(s[1..], sep);
    } else {
      var rest := Split(s[1..], sep);
      JoinSplit(s[1..], sep);
      if |rest| == 1 {
      } else {
        assert ([[s[0]] + rest[0]] + rest[1..])[1..] == rest[1..];
        assert Join(rest, [sep]) == rest[0] + [sep] + Join(rest[1..], [sep]);
      }
    }
  }

  lemma {:induction false} SplitJoin(parts: seq<string>, sep: char)
    requires |parts| >= 1
    requires forall i :: 0 <= i < |parts| ==> sep !in parts[i]
    ensures Split(Join(parts, [sep]), sep) == parts
  {
    if |parts| == 1 {
      SplitNoSep(parts[0], sep);
    } else {
      SplitJoin(parts[1..], sep);
      SplitConcat(parts[0], Join(parts[1..], [sep]), sep);
    }
  }

  lemma {:induction false} SplitNoSep(s: string, sep: char)
    requires sep !in s
    ensures Split(s, sep) == [s]
  {
    if s != [] {
      assert s[0] != sep && sep !in s[1..];
      SplitNoSep(s[1..], sep);
      assert [s[0]] + s[1..] == s;
    }
  }

  /** Splitting `a + sep + b` where `a` holds no separator. */
  lemma {:induction false} SplitConcat(a: string, b: string, sep: char)
    requires sep !in a
    ensures Split(a + [sep] + b, sep) == [a] + Split(b, sep)
  {
    if a == [] {
      assert a + [sep] + b == [sep] + b;
      assert ([sep] + b)[1..] == b;
    } else {
      assert (a + [sep] + b)[1..] == a[1..] + [sep] + b;
      SplitConcat(a[1..], b, sep);
      assert [a[0]] + a[1..] == a;
    }
  }

  /** Splitting `a + sep + b` where `b` holds no separator: `b` is the last part. */
  lemma {:induction false} SplitSnoc(a: string, b: string, sep: char)
    requires sep !in b
    ensures Split(a + [sep] + b, sep) == Split(a, sep) + [b]
  {
    if a == [] {
      assert a + [sep] + b == [sep] + b && ([sep] + b)[1..] == b;
      SplitNoSep(b, sep);
    } else {
      assert (a + [sep] + b)[0] == a[0] && (a + [sep] + b)[1..] == a[1..] + [sep] + b;
      SplitSnoc(a[1..], b, sep);
    }
  }

  /**
   * `str::lines`: pieces ended by "\n" (a "\r" just before that "\n" is
   * dropped too); a final piece without "\n" is kept verbatim, and there
   * is no trailing empty line.
   */
  function Lines(s: string): (ls: seq<string>)
    ensures s == [] <==> ls == []
    ensures forall i :: 0 <= i < |ls| ==> '\n' !in ls[i]
    decreases |s|
  {
    if s == [] then []
    else if '\n' !in s then [s]
    else
      var i := IndexOf(s, '\n');
      var line := if i > 0 && s[i - 1] == '\r' then s[..i - 1] else s[..i];
      [line] + Lines(s[i + 1..])
  }

  function IndexOf(s: string, c: char): (i: nat)
    requires c in s
    ensures i < |s| && s[i] == c && c !in s[..i]
  {
    if s[0] == c then 0 else 1 + IndexOf(s[1..], c)
  }

  function DigitChar(d: nat): (c: char)
    requires d < 10
    ensures IsAsciiDigit(c) && c as int - '0' as int == d
  {
    ['0', '1', '2', '3', '4', '5', '6', '7', '8', '9'][d]
  }

  /** `usize::to_string`: shortest decimal form. */
  function DecimalString(n: nat): (s: string)
    ensures |s| >= 1 && (forall i :: 0 <= i < |s| ==> IsAsciiDigit(s[i]))
    ensures |s| > 1 ==> s[0] != '0'
  {
    if n < 10 then [DigitChar(n)] else DecimalString(n / 10) + [DigitChar(n % 10)]
  }

  function DigitsValue(s: string): nat
    requires forall i :: 0 <= i < |s| ==> IsAsciiDigit(s[i])
  {
    if s == [] then 0
    else DigitsValue(s[..|s| - 1]) * 10 + DigitValue(s[|s| - 1])
  }

  function DigitValue(c: char): (d: nat)
    requires IsAsciiDigit(c)
    ensures d < 10
  {
    c as int - '0' as int
  }

  const USIZE_MAX: nat := 0xFFFF_FFFF_FFFF_FFFF

  predicate AllDigits(s: string) {
    forall i :: 0 <= i < |s| ==> IsAsciiDigit(s[i])
  }

  /**
   * `str::parse::<usize>()` on a 64-bit target: an optional "+" then at
   * least one ASCII digit, and a value that fits in 64 bits.
   */
  function ParseUsize(s: string): (r: Option<nat>)
    ensures r.Some? ==> r.value <= USIZE_MAX
  {
    var digits := if |s| > 0 && s[0] == '+' then s[1..] else s;
    if |digits| == 0 || !AllDigits(digits) then None
    else
      var v := DigitsValue(digits);
      if v <= USIZE_MAX then Some(v) else None
  }

  lemma {:induction false} DigitsValueDecimal(n: nat)
    ensures DigitsValue(DecimalString(n)) == n
  {
    if n >= 10 {
      var s := DecimalString(n);
      assert s[..|s| - 1] == DecimalString(n / 10);
      DigitsValueDecimal(n / 10);
    }
  }

  /** Parsing the rendering of a `usize` gives the number back. */
  lemma ParseDecimal(n: nat)
    requires n <= USIZE_MAX
    ensures ParseUsize(DecimalString(n)) == Some(n)
  {
    DigitsValueDecimal(n);
  }
}
