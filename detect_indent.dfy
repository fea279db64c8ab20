/**
 * `detect_indent` of the utils crate: the byte width of the leading
 * whitespace of the first line that has both leading whitespace and
 * content; 0 when there is no such line.
 */
module IndentDetection {
  import opened Text

  /** Some character of `line` is not whitespace. */
  predicate HasContent(line: string) {
    exists i :: 0 <= i < |line| && !IsWhitespace(line[i])
  }

  /**
   * The line is measured: trimming leaves something, and trimming the
   * start removes something.
   */
  predicate Qualifies(line: string) {
    !(Trim(line) == [] || Trim(line) == TrimEnd(line))
  }

  /** The leading whitespace of a line. */
  function Leading(line: string): (lead: string)
    ensures line == lead + TrimStart(line)
    ensures forall i :: 0 <= i < |lead| ==> IsWhitespace(lead[i])
  {
    line[..|line| - |TrimStart(line)|]
  }

  /** `line.len() - line.trim_start().len()`, in UTF-8 bytes. */
  function Width(line: string): (w: nat)
    ensures w <= Utf8Len(line)
    ensures w == Utf8Len(Leading(line))
  {
    Utf8LenAppend(Leading(line), TrimStart(line));
    Utf8Len(line) - Utf8Len(TrimStart(line))
  }

  /** The specification: the width of the first qualifying line, else 0. */
  function FirstIndent(lines: seq<string>): nat {
    if lines == [] then 0
    else if Qualifies(lines[0]) then Width(lines[0])
    else FirstIndent(lines[1..])
  }

  /** The loop over `content.lines()` with `continue` and `break`. */
  method DetectIndent(content: string) returns (indent: nat)
    ensures indent == FirstIndent(Lines(content))
  {
    indent := 0;
    var lines := Lines(content);
    var i := 0;
    while i < |lines|
      invariant 0 <= i <= |lines|
      invariant FirstIndent(lines) == FirstIndent(lines[i..])
      invariant indent == 0
    {
      var line := lines[i];
      if Trim(line) == [] || Trim(line) == TrimEnd(line) {
        assert lines[i..][1..] == lines[i + 1..];
        i := i + 1;
        continue;
      }
      indent := Width(line);
      break;
    }
  }

  lemma TrimStartEmpty(s: string)
    ensures TrimStart(s) == [] <==> !HasContent(s)
  {
    var r := TrimStart(s);
    if r != [] {
      assert r[0] == s[|s| - |r|];
    }
  }

  lemma TrimStartSame(s: string)
    ensures TrimStart(s) == s <==> s == [] || !IsWhitespace(s[0])
  {
    if s != [] && IsWhitespace(s[0]) {
      assert |TrimStart(s)| <= |s[1..]|;
    }
  }

  lemma TrimEndKeepsStart(line: string)
    ensures HasContent(line) <==> HasContent(TrimEnd(line))
    ensures HasContent(line) ==> TrimEnd(line)[0] == line[0]
  {
    var te := TrimEnd(line);
    if HasContent(line) {
      var k :| 0 <= k < |line| && !IsWhitespace(line[k]);
      assert k < |te|;
      assert te[k] == line[k];
    }
    if HasContent(te) {
      var k :| 0 <= k < |te| && !IsWhitespace(te[k]);
      assert line[k] == te[k];
    }
  }

  /** A line qualifies iff it starts with whitespace and has content. */
  lemma QualifiesCharacterised(line: string)
    ensures Qualifies(line) <==> |line| > 0 && IsWhitespace(line[0]) && HasContent(line)
  {
    var te := TrimEnd(line);
    assert Trim(line) == TrimStart(te);
    TrimEndKeepsStart(line);
    TrimStartEmpty(te);
    TrimStartSame(te);
  }

  /** When the leading whitespace is ASCII (spaces, tabs), each character counts 1. */
  lemma {:induction false} AsciiLen(s: string)
    requires forall i :: 0 <= i < |s| ==> s[i] as int < 0x80
    ensures Utf8Len(s) == |s|
  {
    if s != [] {
      AsciiLen(s[1..]);
    }
  }

  lemma {:induction false} TrimStartAfter(pre: string, rest: string)
    requires forall i :: 0 <= i < |pre| ==> IsWhitespace(pre[i])
    requires rest != [] && !IsWhitespace(rest[0])
    ensures TrimStart(pre + rest) == rest
  {
    if pre == [] {
      assert pre + rest == rest;
    } else {
      assert (pre + rest)[0] == pre[0] && (pre + rest)[1..] == pre[1..] + rest;
      TrimStartAfter(pre[1..], rest);
    }
  }

  predicate SpaceOrTab(c: char) {
    c == ' ' || c == '\t'
  }

  /** A line of spaces and tabs followed by content: it qualifies, with one per character. */
  lemma IndentedLine(pre: string, rest: string)
    requires |pre| > 0 && forall i :: 0 <= i < |pre| ==> SpaceOrTab(pre[i])
    requires rest != [] && !IsWhitespace(rest[0])
    ensures Qualifies(pre + rest) && Width(pre + rest) == |pre|
  {
    var line := pre + rest;
    TrimStartAfter(pre, rest);
    assert Leading(line) == pre;
    AsciiLen(pre);
    assert line[0] == pre[0] && line[|pre|] == rest[0];
    QualifiesCharacterised(line);
  }

  /** The first qualifying line decides the result. */
  lemma {:induction false} FirstQualifying(lines: seq<string>, k: nat)
    requires k < |lines| && Qualifies(lines[k])
    requires forall j :: 0 <= j < k ==> !Qualifies(lines[j])
    ensures FirstIndent(lines) == Width(lines[k])
  {
    if k > 0 {
      FirstQualifying(lines[1..], k - 1);
    }
  }

  /** Without a qualifying line the result is 0. */
  lemma {:induction false} NoneQualifying(lines: seq<string>)
    requires forall j :: 0 <= j < |lines| ==> !Qualifies(lines[j])
    ensures FirstIndent(lines) == 0
  {
    if lines != [] {
      NoneQualifying(lines[1..]);
    }
  }

  /** Lines after the first qualifying one are ignored. */
  lemma {:induction false} LaterLinesIgnored(lines: seq<string>, more: seq<string>, k: nat)
    requires k < |lines| && Qualifies(lines[k])
    ensures FirstIndent(lines + more) == FirstIndent(lines)
  {
    assert (lines + more)[0] == lines[0];
    if !Qualifies(lines[0]) {
      assert k != 0;
      assert (lines + more)[1..] == lines[1..] + more;
      assert lines[1..][k - 1] == lines[k];
      LaterLinesIgnored(lines[1..], more, k - 1);
    }
  }

  /** A slice of white space only is white space only, and as a line it is skipped. */
  lemma BlankSlice(s: string, lo: nat, hi: nat)
    requires lo <= hi <= |s| && forall i :: 0 <= i < |s| ==> IsWhitespace(s[i])
    ensures forall j :: 0 <= j < hi - lo ==> IsWhitespace(s[lo..hi][j])
    ensures !Qualifies(s[lo..hi])
  {
    forall j | 0 <= j < hi - lo
      ensures IsWhitespace(s[lo..hi][j])
    {
      assert s[lo..hi][j] == s[lo + j];
    }
    QualifiesCharacterised(s[lo..hi]);
  }

  /** Empty or all-whitespace content measures 0. */
  lemma {:induction false} BlankContent(s: string)
    requires forall i :: 0 <= i < |s| ==> IsWhitespace(s[i])
    ensures FirstIndent(Lines(s)) == 0
    decreases |s|
  {
    if s == [] {
    } else if '\n' !in s {
      QualifiesCharacterised(s);
    } else {
      var i := IndexOf(s, '\n');
      var line := if i > 0 && s[i - 1] == '\r' then s[..i - 1] else s[..i];
      var rest := s[i + 1..];
      assert Lines(s) == [line] + Lines(rest);
      BlankSlice(s, 0, |line|);
      assert line == s[0..|line|];
      BlankSlice(s, i + 1, |s|);
      assert rest == s[i + 1..|s|];
      BlankContent(rest);
      assert ([line] + Lines(rest))[1..] == Lines(rest);
    }
  }

  lemma {:induction false} IndexOfAt(s: string, c: char, j: nat)
    requires j < |s| && s[j] == c && c !in s[..j]
    ensures IndexOf(s, c) == j
  {
    if j > 0 {
      assert s[0] == s[..j][0];
      assert s[1..][..j - 1] == s[..j][1..];
      IndexOfAt(s[1..], c, j - 1);
    }
  }

  /** `lines` on text with a first line ended by "\n". */
  lemma LinesCons(a: string, b: string)
    requires '\n' !in a && (a == [] || a[|a| - 1] != '\r')
    ensures Lines(a + "\n" + b) == [a] + Lines(b)
  {
    var s := a + "\n" + b;
    assert s[|a|] == '\n' && s[..|a|] == a && s[|a| + 1..] == b;
    IndexOfAt(s, '\n', |a|);
  }

  lemma LinesSingle(s: string)
    requires s != [] && '\n' !in s
    ensures Lines(s) == [s]
  {
  }

  /** "  foo\n    bar": the first line decides, 2. */
  lemma FirstLineWins(indent: string, first: string, rest: string)
    requires indent == "  " && first == "foo" && rest == "    bar"
    ensures FirstIndent(Lines(indent + first + "\n" + rest)) == 2
  {
    var a := indent + first;
    assert '\n' !in a && a[|a| - 1] != '\r';
    LinesSingle(rest);
    LinesCons(a, rest);
    IndentedLine(indent, first);
    FirstQualifying([a, rest], 0);
  }

  /** "noindent": no leading whitespace, 0. */
  lemma NoIndent(content: string)
    requires content == "noindent"
    ensures FirstIndent(Lines(content)) == 0
  {
    LinesSingle(content);
    QualifiesCharacterised(content);
  }

  /** "\tconsole.log(1);": a tab counts 1. */
  lemma TabCountsOne(tab: string, code: string)
    requires tab == "\t" && code == "console.log(1);"
    ensures FirstIndent(Lines(tab + code)) == 1
  {
    assert '\n' !in tab + code;
    LinesSingle(tab + code);
    IndentedLine(tab, code);
  }
}
