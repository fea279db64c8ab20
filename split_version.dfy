/** Separating a range operator or other prefix from the version that follows it. */
module SplitVersion {
  import opened Wrappers
  import opened Text

  /** Index of the first ASCII digit, as `char_indices().find(..)` yields it. */
  function FirstDigit(s: string): (r: Option<nat>)
    ensures r.None? <==> forall i :: 0 <= i < |s| ==> !IsAsciiDigit(s[i])
    ensures r.Some? ==>
      r.value < |s| && IsAsciiDigit(s[r.value]) && forall i :: 0 <= i < r.value ==> !IsAsciiDigit(s[i])
  {
    if s == [] then None
    else if IsAsciiDigit(s[0]) then Some(0)
    else match FirstDigit(s[1..])
      case None => None
      case Some(k) => Some(k + 1)
  }

  /**
   * `split_version`: (prefix before the first digit, rest from that digit);
   * no prefix when there is no digit or the input starts with one. It never fails.
   */
  function Split(version: string): (r: Result<(Option<string>, string)>)
    ensures r.Ok?
    ensures r.value.0.None? ==> r.value.1 == version
    ensures r.value.0.None? ==>
      version == [] || IsAsciiDigit(version[0]) || forall i :: 0 <= i < |version| ==> !IsAsciiDigit(version[i])
    ensures r.value.0.Some? ==> r.value.0.value + r.value.1 == version && r.value.0.value != []
    ensures r.value.0.Some? ==> forall i :: 0 <= i < |r.value.0.value| ==> !IsAsciiDigit(r.value.0.value[i])
    ensures r.value.0.Some? ==> r.value.1 != [] && IsAsciiDigit(r.value.1[0])
  {
    match FirstDigit(version)
    case Some(0) => Ok((None, version))
    case Some(pos) =>
      assert version[..pos] + version[pos..] == version;
      Ok((Some(version[..pos]), version[pos..]))
    case None => Ok((None, version))
  }

  /** Prefix and remainder always put back together to the input. */
  lemma RoundTrip(version: string)
    ensures Split(version).value.0.GetOr("") + Split(version).value.1 == version
  {
  }

  lemma {:induction false} FirstDigitAfter(prefix: string, rest: string)
    requires forall i :: 0 <= i < |prefix| ==> !IsAsciiDigit(prefix[i])
    requires rest != [] && IsAsciiDigit(rest[0])
    ensures FirstDigit(prefix + rest) == Some(|prefix|)
  {
    if prefix != [] {
      assert (prefix + rest)[1..] == prefix[1..] + rest;
      FirstDigitAfter(prefix[1..], rest);
    }
  }

  /** A digit-free, non-empty prefix followed by a digit is split off exactly. */
  lemma PrefixCase(prefix: string, rest: string)
    requires prefix != [] && forall i :: 0 <= i < |prefix| ==> !IsAsciiDigit(prefix[i])
    requires rest != [] && IsAsciiDigit(rest[0])
    ensures Split(prefix + rest) == Ok((Some(prefix), rest))
  {
    FirstDigitAfter(prefix, rest);
    assert (prefix + rest)[..|prefix|] == prefix && (prefix + rest)[|prefix|..] == rest;
  }

  /** A range operator of the repository's table is split off. */
  lemma PrefixExamples()
    ensures Split("^1.0.0") == Ok((Some("^"), "1.0.0"))
  {
    PrefixCase("^", "1.0.0");
    assert "^" + "1.0.0" == "^1.0.0";
  }

  /** A package-name prefix of the repository's table is split off up to the first digit. */
  lemma NamePrefixExample()
    ensures Split("helloworld-1.0.2") == Ok((Some("helloworld-"), "1.0.2"))
  {
    PrefixCase("helloworld-", "1.0.2");
    assert "helloworld-" + "1.0.2" == "helloworld-1.0.2";
  }

  /** Cases of the repository's table that come back whole. */
  lemma WholeExamples()
    ensures Split("1.0.0-alpha.1") == Ok((None, "1.0.0-alpha.1"))
    ensures Split("latest") == Ok((None, "latest"))
    ensures Split("*") == Ok((None, "*"))
  {
    assert FirstDigit("latest") == None;
  }
}
