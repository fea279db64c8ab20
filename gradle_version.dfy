/**
 * The Gradle build-file rewriters of the Java crate. Each tries a
 * line-anchored regex (`(?m)^…`) and, when it matches, replaces the first
 * match by group 1 followed by the new version in quotes; a second regex
 * is tried only when the first matches nowhere, and without a match the
 * content comes back unchanged.
 *
 * The regexes are modelled by their pieces: literals, `\s*` / `\s+`
 * (Unicode white space, which includes line breaks), runs `[^…]+` and
 * one-character classes. `Accepts` is what a piece sequence matches as a
 * regex; `MatchSeq` is the greedy left-to-right matcher, and
 * `MatchRuleIsRegex` shows the two agree on the four patterns, since each
 * run there is followed by a character it cannot consume.
 */
module GradleVersion {
  import opened Wrappers
  import opened Text

  /** A piece of a pattern: a literal, `\s*` (or `\s+`), `[^stop]+`, or one character of a class. */
  datatype Elem = Lit(text: string) | Ws(atLeastOne: bool) | Run(stop: set<char>) | OneOf(chars: set<char>)

  /** A pattern split where the replacement splits it: group 1, kept, then the quoted value, replaced. */
  datatype Rule = Rule(group: seq<Elem>, value: seq<Elem>)

  // ---------------------------------------------------------------------
  // What the regexes match
  // ---------------------------------------------------------------------

  ghost predicate ElemAccepts(e: Elem, w: string) {
    match e
    case Lit(t) => w == t
    case Ws(one) => (forall k :: 0 <= k < |w| ==> IsWhitespace(w[k])) && (one ==> |w| > 0)
    case Run(stop) => |w| > 0 && forall k :: 0 <= k < |w| ==> w[k] !in stop
    case OneOf(cs) => |w| == 1 && w[0] in cs
  }

  /** The pieces, in order, match consecutive parts of `w` that make up all of it. */
  ghost predicate Accepts(pat: seq<Elem>, w: string)
    decreases |pat|
  {
    if pat == [] then w == []
    else exists k :: 0 <= k <= |w| && ElemAccepts(pat[0], w[..k]) && Accepts(pat[1..], w[k..])
  }

  /** `^` in multi-line mode: the start of the text or just after a "\n". */
  predicate LineStart(s: string, i: nat) {
    i == 0 || (0 < i <= |s| && s[i - 1] == '\n')
  }

  /** The regex matches `s` from the line start `i` to `e`, group 1 ending at `g`. */
  ghost predicate RegexMatch(s: string, rule: Rule, i: nat, g: nat, e: nat) {
    LineStart(s, i) && i <= g <= e <= |s| && Accepts(rule.group, s[i..g]) && Accepts(rule.value, s[g..e])
  }

  /** No match of the regex starts before position `i`. */
  ghost predicate NoMatchBefore(s: string, rule: Rule, i: nat) {
    forall j: nat, g: nat, e: nat :: j < i && RegexMatch(s, rule, j, g, e) ==> false
  }

  // ---------------------------------------------------------------------
  // The greedy matcher
  // ---------------------------------------------------------------------

  function WsLength(s: string, i: nat): (n: nat)
    requires i <= |s|
    ensures i + n <= |s|
    ensures forall k :: i <= k < i + n ==> IsWhitespace(s[k])
    ensures i + n == |s| || !IsWhitespace(s[i + n])
    decreases |s| - i
  {
    if i == |s| || !IsWhitespace(s[i]) then 0 else 1 + WsLength(s, i + 1)
  }

  function RunLength(s: string, i: nat, stop: set<char>): (n: nat)
    requires i <= |s|
    ensures i + n <= |s|
    ensures forall k :: i <= k < i + n ==> s[k] !in stop
    ensures i + n == |s| || s[i + n] in stop
    decreases |s| - i
  {
    if i == |s| || s[i] in stop then 0 else 1 + RunLength(s, i + 1, stop)
  }

  /** Where one piece, matched greedily from `i`, ends. */
  function Step(s: string, i: nat, e: Elem): (r: Option<nat>)
    requires i <= |s|
    ensures r.Some? ==> i <= r.value <= |s|
  {
    match e
    case Lit(t) => if i + |t| <= |s| && s[i..i + |t|] == t then Some(i + |t|) else None
    case Ws(one) => var n := WsLength(s, i); if one && n == 0 then None else Some(i + n)
    case Run(stop) => var n := RunLength(s, i, stop); if n == 0 then None else Some(i + n)
    case OneOf(cs) => if i < |s| && s[i] in cs then Some(i + 1) else None
  }

  /** Where the pieces, matched greedily one after the other from `i`, end. */
  function MatchSeq(s: string, i: nat, pat: seq<Elem>): (r: Option<nat>)
    requires i <= |s|
    ensures r.Some? ==> i <= r.value <= |s|
    decreases |pat|
  {
    if pat == [] then Some(i)
    else match Step(s, i, pat[0])
      case None => None
      case Some(k) => MatchSeq(s, k, pat[1..])
  }

  /** The ends of group 1 and of the match, when the rule matches from `i`. */
  function MatchRule(s: string, i: nat, rule: Rule): (r: Option<(nat, nat)>)
    requires i <= |s|
    ensures r.Some? ==> i <= r.value.0 <= r.value.1 <= |s|
  {
    match MatchSeq(s, i, rule.group)
    case None => None
    case Some(g) =>
      match MatchSeq(s, g, rule.value)
      case None => None
      case Some(e) => Some((g, e))
  }

  /** The leftmost line start from `i` on where the rule matches. */
  function FindFrom(s: string, rule: Rule, i: nat): (r: Option<nat>)
    requires i <= |s|
    ensures r.Some? ==> i <= r.value <= |s| && LineStart(s, r.value) && MatchRule(s, r.value, rule).Some?
    ensures forall j :: i <= j <= |s| && LineStart(s, j) && MatchRule(s, j, rule).Some? ==> r.Some? && r.value <= j
    decreases |s| - i
  {
    if LineStart(s, i) && MatchRule(s, i, rule).Some? then Some(i)
    else if i == |s| then None
    else FindFrom(s, rule, i + 1)
  }

  /** `Regex::replace` with the template `${1}` + quote + new version + quote: the first match only. */
  function Replace(s: string, rule: Rule, quote: char, v: string): Option<string> {
    match FindFrom(s, rule, 0)
    case None => None
    case Some(i) =>
      var m := MatchRule(s, i, rule).value;
      Some(s[..m.0] + ([quote] + v + [quote]) + s[m.1..])
  }

  // ---------------------------------------------------------------------
  // The greedy matcher is the regex
  // ---------------------------------------------------------------------

  /** `c` ends the piece `e`: a non-space after `\s*`, a stop character after a run. */
  predicate Ends(e: Elem, c: char) {
    match e
    case Ws(_) => !IsWhitespace(c)
    case Run(stop) => c in stop
    case _ => true
  }

  /** `next` must start with the character `c`. */
  predicate Starts(next: Elem, c: char) {
    (next.Lit? && next.text != [] && next.text[0] == c) || (next.OneOf? && c in next.chars)
  }

  /** Whatever `next` starts with ends `e`. */
  ghost predicate Yields(e: Elem, next: Elem) {
    ((next.Lit? && next.text != []) || next.OneOf?) && forall c :: Starts(next, c) ==> Ends(e, c)
  }

  /** Every space or run is followed by a piece it cannot eat into. */
  ghost predicate Deterministic(pat: seq<Elem>) {
    forall i :: 0 <= i < |pat| && (pat[i].Ws? || pat[i].Run?) ==> i + 1 < |pat| && Yields(pat[i], pat[i + 1])
  }

  ghost predicate RuleDeterministic(rule: Rule) {
    Deterministic(rule.group + rule.value) && Deterministic(rule.value)
  }

  lemma StepSound(s: string, i: nat, e: Elem)
    requires i <= |s| && Step(s, i, e).Some?
    ensures ElemAccepts(e, s[i..Step(s, i, e).value])
  {
  }

  /** What the greedy matcher consumes, the regex matches. */
  lemma {:induction false} MatchSound(s: string, i: nat, pat: seq<Elem>)
    requires i <= |s| && MatchSeq(s, i, pat).Some?
    ensures Accepts(pat, s[i..MatchSeq(s, i, pat).value])
    decreases |pat|
  {
    if pat != [] {
      var k := Step(s, i, pat[0]).value;
      StepSound(s, i, pat[0]);
      MatchSound(s, k, pat[1..]);
      var j := MatchSeq(s, i, pat).value;
      var w := s[i..j];
      assert w[..k - i] == s[i..k];
      assert w[k - i..] == s[k..j];
    }
  }

  /** A match of a sequence that begins with a literal or a class begins with its first character. */
  lemma AcceptsFirst(pat: seq<Elem>, w: string)
    requires pat != [] && ((pat[0].Lit? && pat[0].text != []) || pat[0].OneOf?) && Accepts(pat, w)
    ensures |w| > 0 && Starts(pat[0], w[0])
  {
    var k :| 0 <= k <= |w| && ElemAccepts(pat[0], w[..k]) && Accepts(pat[1..], w[k..]);
    assert w[..k][0] == w[0];
  }

  /** A piece matched up to a character that ends it is what the greedy step consumes. */
  lemma StepComplete(s: string, i: nat, k: nat, e: Elem)
    requires i + k <= |s| && ElemAccepts(e, s[i..i + k])
    requires (e.Ws? || e.Run?) ==> i + k < |s| && Ends(e, s[i + k])
    ensures Step(s, i, e) == Some(i + k)
  {
  }

  /** The character after a space or run matched by the regex ends that piece. */
  lemma NextEnds(s: string, i: nat, j: nat, e: nat, k: nat, pat: seq<Elem>, rest: seq<Elem>)
    requires i + k <= j <= e <= |s| && pat != [] && Deterministic(pat + rest)
    requires Accepts(pat[1..], s[i + k..j]) && Accepts(rest, s[j..e])
    ensures (pat[0].Ws? || pat[0].Run?) ==> i + k < |s| && Ends(pat[0], s[i + k])
  {
    assert (pat + rest)[0] == pat[0];
    if pat[0].Ws? || pat[0].Run? {
      assert Yields(pat[0], (pat + rest)[1]);
      if |pat| > 1 {
        assert (pat + rest)[1] == pat[1];
        AcceptsFirst(pat[1..], s[i + k..j]);
        assert s[i + k..j][0] == s[i + k];
      } else {
        assert (pat + rest)[1] == rest[0];
        assert s[i + k..j] == [];
        AcceptsFirst(rest, s[j..e]);
        assert s[j..e][0] == s[j];
      }
    }
  }

  /** Once the first piece is matched up to `k`, the rest is matched from `k`. */
  lemma MatchSeqCons(s: string, i: nat, pat: seq<Elem>, k: nat)
    requires i <= |s| && pat != [] && Step(s, i, pat[0]) == Some(k)
    ensures MatchSeq(s, i, pat) == MatchSeq(s, k, pat[1..])
  {
  }

  /** Dropping the first piece keeps a pattern deterministic. */
  lemma DeterministicTail(pat: seq<Elem>)
    requires pat != [] && Deterministic(pat)
    ensures Deterministic(pat[1..])
  {
    forall i | 0 <= i < |pat[1..]| && (pat[1..][i].Ws? || pat[1..][i].Run?)
      ensures i + 1 < |pat[1..]| && Yields(pat[1..][i], pat[1..][i + 1])
    {
      assert pat[1..][i] == pat[i + 1];
    }
  }

  /** Where the regex ends the first piece, the greedy step ends it too; the rest stays deterministic. */
  lemma MatchFirstPiece(s: string, i: nat, j: nat, e: nat, pat: seq<Elem>, rest: seq<Elem>) returns (k: nat)
    requires i <= j <= e <= |s| && pat != [] && Deterministic(pat + rest)
    requires Accepts(pat, s[i..j]) && Accepts(rest, s[j..e])
    ensures i + k <= j && Step(s, i, pat[0]) == Some(i + k)
    ensures Accepts(pat[1..], s[i + k..j]) && Deterministic(pat[1..] + rest)
  {
    var w := s[i..j];
    k :| 0 <= k <= |w| && ElemAccepts(pat[0], w[..k]) && Accepts(pat[1..], w[k..]);
    assert w[..k] == s[i..i + k] && w[k..] == s[i + k..j];
    NextEnds(s, i, j, e, k, pat, rest);
    StepComplete(s, i, k, pat[0]);
    assert (pat + rest)[1..] == pat[1..] + rest;
    DeterministicTail(pat + rest);
  }

  /**
   * What the regex matches, the greedy matcher finds: when `pat` matches
   * `s[i..j]` and `rest` matches what follows, the matcher stops at `j`.
   */
  lemma {:induction false} MatchComplete(s: string, i: nat, j: nat, e: nat, pat: seq<Elem>, rest: seq<Elem>)
    requires i <= j <= e <= |s| && Deterministic(pat + rest)
    requires Accepts(pat, s[i..j]) && Accepts(rest, s[j..e])
    ensures MatchSeq(s, i, pat) == Some(j)
    decreases |pat|
  {
    if pat == [] {
      assert |s[i..j]| == 0;
    } else {
      var k := MatchFirstPiece(s, i, j, e, pat, rest);
      MatchSeqCons(s, i, pat, i + k);
      MatchComplete(s, i + k, j, e, pat[1..], rest);
    }
  }

  /** The greedy rule matcher and the regex agree, in both directions. */
  lemma MatchRuleIsRegex(s: string, rule: Rule, i: nat, g: nat, e: nat)
    requires RuleDeterministic(rule) && i <= |s|
    ensures MatchRule(s, i, rule) == Some((g, e)) <==>
      i <= g <= e <= |s| && Accepts(rule.group, s[i..g]) && Accepts(rule.value, s[g..e])
  {
    if MatchRule(s, i, rule) == Some((g, e)) {
      MatchSound(s, i, rule.group);
      MatchSound(s, g, rule.value);
    }
    if i <= g <= e <= |s| && Accepts(rule.group, s[i..g]) && Accepts(rule.value, s[g..e]) {
      MatchComplete(s, i, g, e, rule.group, rule.value);
      assert s[e..e] == [];
      assert rule.value + [] == rule.value;
      MatchComplete(s, g, e, e, rule.value, []);
    }
  }

  /** `Replace` rewrites the leftmost regex match, keeping group 1. */
  lemma ReplaceFirstMatch(s: string, rule: Rule, quote: char, v: string, i: nat, g: nat, e: nat)
    requires RuleDeterministic(rule)
    requires RegexMatch(s, rule, i, g, e) && NoMatchBefore(s, rule, i)
    ensures Replace(s, rule, quote, v) == Some(s[..g] + ([quote] + v + [quote]) + s[e..])
  {
    MatchRuleIsRegex(s, rule, i, g, e);
    var j := FindFrom(s, rule, 0).value;
    var m := MatchRule(s, j, rule).value;
    MatchRuleIsRegex(s, rule, j, m.0, m.1);
    assert RegexMatch(s, rule, j, m.0, m.1);
  }

  /** With no regex match, `Replace` finds nothing. */
  lemma ReplaceNoMatch(s: string, rule: Rule, quote: char, v: string)
    requires RuleDeterministic(rule) && NoMatchBefore(s, rule, |s| + 1)
    ensures Replace(s, rule, quote, v) == None
  {
    if FindFrom(s, rule, 0).Some? {
      var j := FindFrom(s, rule, 0).value;
      var m := MatchRule(s, j, rule).value;
      MatchRuleIsRegex(s, rule, j, m.0, m.1);
      assert RegexMatch(s, rule, j, m.0, m.1);
    }
  }

  // ---------------------------------------------------------------------
  // The four patterns and the two rewriters
  // ---------------------------------------------------------------------

  const Quotes: set<char> := {'\'', '"'}

  /** `(?m)^(version\s*=\s*)"[^"]+"` */
  const KtsSimple := Rule([Lit("version"), Ws(false), Lit("="), Ws(false)], [OneOf({'"'}), Run({'"'}), OneOf({'"'})])

  /** `(?m)^(version\s*=\s*project\.findProperty\([^)]+\)\s*\?:\s*)"[^"]+"` */
  const KtsFallback := Rule(
    [Lit("version"), Ws(false), Lit("="), Ws(false), Lit("project.findProperty("), Run({')'}), Lit(")"),
     Ws(false), Lit("?:"), Ws(false)],
    [OneOf({'"'}), Run({'"'}), OneOf({'"'})])

  /** `(?m)^(version\s*=\s*)['"][^'"]+['"]` */
  const GroovyAssign := Rule([Lit("version"), Ws(false), Lit("="), Ws(false)], [OneOf(Quotes), Run(Quotes), OneOf(Quotes)])

  /** `(?m)^(version\s+)['"][^'"]+['"]` */
  const GroovySpace := Rule([Lit("version"), Ws(true)], [OneOf(Quotes), Run(Quotes), OneOf(Quotes)])

  /** `update_version_in_kts`: the simple assignment, else the `findProperty` fallback, else unchanged. */
  function UpdateKts(content: string, v: string): string {
    match Replace(content, KtsSimple, '"', v)
    case Some(r) => r
    case None => Replace(content, KtsFallback, '"', v).GetOr(content)
  }

  /** `update_version_in_groovy`: the assignment, else the space form, else unchanged; single quotes either way. */
  function UpdateGroovy(content: string, v: string): string {
    match Replace(content, GroovyAssign, '\'', v)
    case Some(r) => r
    case None => Replace(content, GroovySpace, '\'', v).GetOr(content)
  }

  lemma ValuesDeterministic()
    ensures Deterministic(KtsSimple.value) && Deterministic(GroovyAssign.value)
  {
    var q := [OneOf({'"'}), Run({'"'}), OneOf({'"'})];
    assert Yields(q[1], q[2]);
    var qs := [OneOf(Quotes), Run(Quotes), OneOf(Quotes)];
    assert Yields(qs[1], qs[2]);
  }

  lemma KtsSimpleDeterministic()
    ensures RuleDeterministic(KtsSimple)
  {
    ValuesDeterministic();
    var p := KtsSimple.group + KtsSimple.value;
    assert p == [Lit("version"), Ws(false), Lit("="), Ws(false), OneOf({'"'}), Run({'"'}), OneOf({'"'})];
    assert Yields(p[1], p[2]) && Yields(p[3], p[4]) && Yields(p[5], p[6]);
  }

  lemma KtsFallbackDeterministic()
    ensures RuleDeterministic(KtsFallback)
  {
    ValuesDeterministic();
    var p := KtsFallback.group + KtsFallback.value;
    assert p == [Lit("version"), Ws(false), Lit("="), Ws(false), Lit("project.findProperty("), Run({')'}), Lit(")"),
                 Ws(false), Lit("?:"), Ws(false), OneOf({'"'}), Run({'"'}), OneOf({'"'})];
    assert Yields(p[1], p[2]) && Yields(p[3], p[4]) && Yields(p[5], p[6]);
    assert Yields(p[7], p[8]) && Yields(p[9], p[10]) && Yields(p[11], p[12]);
  }

  lemma GroovyAssignDeterministic()
    ensures RuleDeterministic(GroovyAssign)
  {
    ValuesDeterministic();
    var p := GroovyAssign.group + GroovyAssign.value;
    assert p == [Lit("version"), Ws(false), Lit("="), Ws(false), OneOf(Quotes), Run(Quotes), OneOf(Quotes)];
    assert Yields(p[1], p[2]) && Yields(p[3], p[4]) && Yields(p[5], p[6]);
  }

  lemma GroovySpaceDeterministic()
    ensures RuleDeterministic(GroovySpace)
  {
    ValuesDeterministic();
    var p := GroovySpace.group + GroovySpace.value;
    assert p == [Lit("version"), Ws(true), OneOf(Quotes), Run(Quotes), OneOf(Quotes)];
    assert Yields(p[1], p[2]) && Yields(p[3], p[4]);
  }

  // ---------------------------------------------------------------------
  // What the rewriters do
  // ---------------------------------------------------------------------

  /** With a match of the simple assignment, its first match gets the new version in double quotes. */
  lemma KtsRewritesSimple(content: string, v: string, i: nat, g: nat, e: nat)
    requires RegexMatch(content, KtsSimple, i, g, e) && NoMatchBefore(content, KtsSimple, i)
    ensures UpdateKts(content, v) == content[..g] + ("\"" + v + "\"") + content[e..]
  {
    KtsSimpleDeterministic();
    ReplaceFirstMatch(content, KtsSimple, '"', v, i, g, e);
  }

  /** The `findProperty` fallback is rewritten only when the simple assignment matches nowhere. */
  lemma KtsRewritesFallback(content: string, v: string, i: nat, g: nat, e: nat)
    requires NoMatchBefore(content, KtsSimple, |content| + 1)
    requires RegexMatch(content, KtsFallback, i, g, e) && NoMatchBefore(content, KtsFallback, i)
    ensures UpdateKts(content, v) == content[..g] + ("\"" + v + "\"") + content[e..]
  {
    KtsSimpleDeterministic();
    KtsFallbackDeterministic();
    ReplaceNoMatch(content, KtsSimple, '"', v);
    ReplaceFirstMatch(content, KtsFallback, '"', v, i, g, e);
  }

  /** Without a match of either pattern the content is returned unchanged. */
  lemma KtsUnchanged(content: string, v: string)
    requires NoMatchBefore(content, KtsSimple, |content| + 1) && NoMatchBefore(content, KtsFallback, |content| + 1)
    ensures UpdateKts(content, v) == content
  {
    KtsSimpleDeterministic();
    KtsFallbackDeterministic();
    ReplaceNoMatch(content, KtsSimple, '"', v);
    ReplaceNoMatch(content, KtsFallback, '"', v);
  }

  /** The first assignment, in either quotes, gets the new version in single quotes. */
  lemma GroovyRewritesAssign(content: string, v: string, i: nat, g: nat, e: nat)
    requires RegexMatch(content, GroovyAssign, i, g, e) && NoMatchBefore(content, GroovyAssign, i)
    ensures UpdateGroovy(content, v) == content[..g] + ("'" + v + "'") + content[e..]
  {
    GroovyAssignDeterministic();
    ReplaceFirstMatch(content, GroovyAssign, '\'', v, i, g, e);
  }

  /** The space form `version '…'` is rewritten only when no assignment matches. */
  lemma GroovyRewritesSpace(content: string, v: string, i: nat, g: nat, e: nat)
    requires NoMatchBefore(content, GroovyAssign, |content| + 1)
    requires RegexMatch(content, GroovySpace, i, g, e) && NoMatchBefore(content, GroovySpace, i)
    ensures UpdateGroovy(content, v) == content[..g] + ("'" + v + "'") + content[e..]
  {
    GroovyAssignDeterministic();
    GroovySpaceDeterministic();
    ReplaceNoMatch(content, GroovyAssign, '\'', v);
    ReplaceFirstMatch(content, GroovySpace, '\'', v, i, g, e);
  }

  lemma GroovyUnchanged(content: string, v: string)
    requires NoMatchBefore(content, GroovyAssign, |content| + 1) && NoMatchBefore(content, GroovySpace, |content| + 1)
    ensures UpdateGroovy(content, v) == content
  {
    GroovyAssignDeterministic();
    GroovySpaceDeterministic();
    ReplaceNoMatch(content, GroovyAssign, '\'', v);
    ReplaceNoMatch(content, GroovySpace, '\'', v);
  }

  /** A quoted value matches only with at least one character between the quotes. */
  lemma QuotedValueNonEmpty(value: seq<Elem>, w: string)
    requires |value| == 3 && value[0].OneOf? && value[1].Run? && value[2].OneOf?
    requires Accepts(value, w)
    ensures |w| >= 3
  {
    var k0 :| 0 <= k0 <= |w| && ElemAccepts(value[0], w[..k0]) && Accepts(value[1..], w[k0..]);
    var w1 := w[k0..];
    var k1 :| 0 <= k1 <= |w1| && ElemAccepts(value[1], w1[..k1]) && Accepts(value[2..], w1[k1..]);
    var w2 := w1[k1..];
    var k2 :| 0 <= k2 <= |w2| && ElemAccepts(value[2], w2[..k2]) && Accepts(value[3..], w2[k2..]);
  }

  /** Quotes around a value free of quote characters match the value pattern. */
  lemma QuotedValueAccepted(value: seq<Elem>, quote: char, v: string)
    requires (value == KtsSimple.value && quote == '"' && '"' !in v)
      || (value == GroovyAssign.value && quote in Quotes && '"' !in v && '\'' !in v)
    requires v != []
    ensures Accepts(value, [quote] + v + [quote])
  {
    var w := [quote] + v + [quote];
    assert w[1..][..|v|] == v && w[1..][|v|..] == [quote] && [quote][1..] == [];
    assert Accepts(value[1..][1..][1..], []);
    assert ElemAccepts(value[1..][1..][0], [quote][..1]) && [quote][1..] == [];
    assert Accepts(value[1..][1..], [quote]);
    assert ElemAccepts(value[1..][0], w[1..][..|v|]);
    assert Accepts(value[1..], w[1..]);
    assert w[..1] == [quote];
  }

  /** The four patterns are deterministic. */
  lemma RulesDeterministic(rule: Rule)
    requires rule == KtsSimple || rule == KtsFallback || rule == GroovyAssign || rule == GroovySpace
    ensures RuleDeterministic(rule)
  {
    if rule == KtsSimple { KtsSimpleDeterministic(); }
    else if rule == KtsFallback { KtsFallbackDeterministic(); }
    else if rule == GroovyAssign { GroovyAssignDeterministic(); }
    else { GroovySpaceDeterministic(); }
  }

  /** Splicing `b` over `s[g..e]` keeps what lies before and after. */
  lemma Splice(s: string, g: nat, e: nat, b: string)
    requires g <= e <= |s|
    ensures var r := s[..g] + b + s[e..];
      |r| == g + |b| + |s| - e && r[..g] == s[..g] && r[g..g + |b|] == b && r[g + |b|..] == s[e..]
  {
    var r := s[..g] + b + s[e..];
    assert forall k :: 0 <= k < g ==> r[k] == s[k];
    assert forall k :: 0 <= k < |b| ==> r[g + k] == b[k];
    assert forall k :: e <= k < |s| ==> r[g + |b| + (k - e)] == s[k];
  }

  /** The rewritten text still matches where the old one did, with the new quoted value. */
  lemma RewriteMatches(s: string, rule: Rule, quote: char, v: string, i: nat, g: nat, e: nat)
    requires RegexMatch(s, rule, i, g, e)
    requires Accepts(rule.value, [quote] + v + [quote])
    ensures var r := s[..g] + ([quote] + v + [quote]) + s[e..];
      RegexMatch(r, rule, i, g, g + |v| + 2)
  {
    var b := [quote] + v + [quote];
    var r := s[..g] + b + s[e..];
    Splice(s, g, e, b);
    assert r[i..g] == r[..g][i..] == s[..g][i..] == s[i..g];
    assert i > 0 ==> r[i - 1] == r[..g][i - 1] == s[i - 1];
  }

  /** A regex match is what `MatchRule` finds. */
  lemma MatchFound(r: string, rule: Rule, i: nat, g: nat, e: nat)
    requires RuleDeterministic(rule) && RegexMatch(r, rule, i, g, e)
    ensures MatchRule(r, i, rule) == Some((g, e))
  {
    MatchRuleIsRegex(r, rule, i, g, e);
  }

  /**
   * Reading back: after a rewrite, the same pattern matches at the same
   * line start, group 1 unchanged, and its quoted value is the new version.
   */
  lemma RewriteReadsBack(s: string, rule: Rule, quote: char, v: string, i: nat, g: nat, e: nat)
    requires RuleDeterministic(rule)
    requires RegexMatch(s, rule, i, g, e)
    requires Accepts(rule.value, [quote] + v + [quote])
    ensures g + |v| + 2 <= |s[..g] + ([quote] + v + [quote]) + s[e..]|
    ensures MatchRule(s[..g] + ([quote] + v + [quote]) + s[e..], i, rule) == Some((g, g + |v| + 2))
  {
    var r := s[..g] + ([quote] + v + [quote]) + s[e..];
    var e': nat := g + |v| + 2;
    RewriteMatches(s, rule, quote, v, i, g, e);
    MatchFound(r, rule, i, g, e');
  }

  const EmptyVersion: string := "version = \"\""

  /** Matching `p + q` is matching `p`, then `q` from where `p` ended. */
  lemma {:induction false} MatchSeqAppend(s: string, i: nat, p: seq<Elem>, q: seq<Elem>)
    requires i <= |s|
    ensures MatchSeq(s, i, p + q) ==
      if MatchSeq(s, i, p).Some? then MatchSeq(s, MatchSeq(s, i, p).value, q) else None
    decreases |p|
  {
    if p != [] {
      assert (p + q)[0] == p[0] && (p + q)[1..] == p[1..] + q;
      match Step(s, i, p[0])
      case None =>
      case Some(k) => MatchSeqAppend(s, k, p[1..], q);
    } else {
      assert p + q == q;
    }
  }

  /** The group shared by both Kotlin patterns matches `version = ` of `EmptyVersion`. */
  lemma EmptyVersionGroup()
    ensures MatchSeq(EmptyVersion, 0, KtsSimple.group) == Some(10)
  {
    var s := EmptyVersion;
    assert s[..7] == "version" && s[7] == ' ' && s[8] == '=' && s[9] == ' ' && s[10] == '"';
    assert WsLength(s, 7) == 1 && WsLength(s, 9) == 1;
  }

  lemma EmptyVersionSimple()
    ensures MatchRule(EmptyVersion, 0, KtsSimple) == None
  {
    var s := EmptyVersion;
    EmptyVersionGroup();
    assert s[10] == '"' && s[11] == '"';
    assert RunLength(s, 11, {'"'}) == 0;
  }

  lemma EmptyVersionFallback()
    ensures MatchRule(EmptyVersion, 0, KtsFallback) == None
  {
    var rest := KtsFallback.group[4..];
    assert KtsFallback.group == KtsSimple.group + rest;
    EmptyVersionGroup();
    MatchSeqAppend(EmptyVersion, 0, KtsSimple.group, rest);
    assert Step(EmptyVersion, 10, rest[0]) == None;
  }

  /** The only line start of `EmptyVersion` is its beginning. */
  lemma EmptyVersionOneLine(rule: Rule)
    ensures FindFrom(EmptyVersion, rule, 0).Some? ==> FindFrom(EmptyVersion, rule, 0).value == 0
  {
    var s := EmptyVersion;
    forall j | 0 < j <= |s|
      ensures !LineStart(s, j)
    {
      assert s[j - 1] in "version =\"";
    }
  }

  /** `[^"]+` needs at least one character: `version = ""` is left as it is. */
  lemma EmptyValueUnchanged(v: string)
    ensures UpdateKts(EmptyVersion, v) == EmptyVersion
  {
    EmptyVersionSimple();
    EmptyVersionFallback();
    EmptyVersionOneLine(KtsSimple);
    EmptyVersionOneLine(KtsFallback);
  }
}
