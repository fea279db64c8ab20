/**
 * `std::path::Path` on Unix, reduced to its components: whether the path
 * is rooted, and its normal parts ("." and empty parts between slashes
 * are dropped, ".." is kept as a part).
 */
module Paths {
  import opened Wrappers
  import opened Text

  datatype Path = Path(absolute: bool, parts: seq<string>)

  predicate NormalPart(p: string) {
    p != "" && p != "." && '/' !in p
  }

  predicate WellFormed(p: Path) {
    forall i :: 0 <= i < |p.parts| ==> NormalPart(p.parts[i])
  }

  function KeepNormal(parts: seq<string>): (r: seq<string>)
    ensures forall i :: 0 <= i < |r| ==> r[i] != "" && r[i] != "."
  {
    if parts == [] then []
    else (if parts[0] == "" || parts[0] == "." then [] else [parts[0]]) + KeepNormal(parts[1..])
  }

  lemma {:induction false} KeepNormalNoSlash(parts: seq<string>)
    requires forall i :: 0 <= i < |parts| ==> '/' !in parts[i]
    ensures forall i :: 0 <= i < |KeepNormal(parts)| ==> NormalPart(KeepNormal(parts)[i])
  {
    if parts != [] {
      KeepNormalNoSlash(parts[1..]);
    }
  }

  /** `Path::new(s).components()`, for a Unix path string. */
  function Parse(s: string): (p: Path)
    ensures WellFormed(p)
    ensures p.absolute <==> (|s| > 0 && s[0] == '/')
  {
    KeepNormalNoSlash(Split(s, '/'));
    Path(|s| > 0 && s[0] == '/', KeepNormal(Split(s, '/')))
  }

  /** `Path::parent`: the path without its last component; none for a root or empty path. */
  function Parent(p: Path): (r: Option<Path>)
    ensures r.Some? <==> |p.parts| > 0
    ensures r.Some? ==> r.value.absolute == p.absolute && r.value.parts + [p.parts[|p.parts| - 1]] == p.parts
  {
    if p.parts == [] then None else Some(Path(p.absolute, p.parts[..|p.parts| - 1]))
  }

  /** `Path::join` with a single file name. */
  function Join(p: Path, name: string): (r: Path)
    requires NormalPart(name)
    ensures Parent(r) == Some(p)
  {
    Path(p.absolute, p.parts + [name])
  }

  /** `Path::file_name`: the last normal component. */
  function FileName(p: Path): (r: Option<string>)
    ensures r.Some? <==> |p.parts| > 0 && p.parts[|p.parts| - 1] != ".."
    ensures r.Some? ==> r.value == p.parts[|p.parts| - 1]
  {
    if p.parts == [] || p.parts[|p.parts| - 1] == ".." then None else Some(p.parts[|p.parts| - 1])
  }

  function LastIndexOf(s: string, c: char): (r: Option<nat>)
    ensures r.None? <==> c !in s
    ensures r.Some? ==> r.value < |s| && s[r.value] == c && c !in s[r.value + 1..]
  {
    if s == [] then None
    else if s[|s| - 1] == c then Some(|s| - 1)
    else
      var r := LastIndexOf(s[..|s| - 1], c);
      assert s[..|s| - 1] + [s[|s| - 1]] == s;
      r
  }

  /**
   * How `file_stem` and `extension` split a file name: at the last dot,
   * unless the name is ".." or that dot is its first character.
   */
  function SplitAtDot(name: string): (r: (string, Option<string>))
    ensures r.1.None? ==> r.0 == name
    ensures r.1.Some? ==> r.0 != "" && r.0 + "." + r.1.value == name && '.' !in r.1.value
  {
    if name == ".." then (name, None)
    else match LastIndexOf(name, '.')
      case None => (name, None)
      case Some(i) =>
        if i == 0 then (name, None)
        else
          assert name[..i] + "." + name[i + 1..] == name;
          (name[..i], Some(name[i + 1..]))
  }

  /** The dot at `i` is the last one of the name. */
  lemma LastDot(name: string, i: nat)
    requires i < |name| && name[i] == '.' && '.' !in name[i + 1..]
    ensures LastIndexOf(name, '.') == Some(i)
  {
  }

  /** `Path::file_stem`. */
  function FileStem(p: Path): (r: Option<string>)
    ensures r.Some? <==> FileName(p).Some?
  {
    match FileName(p)
    case None => None
    case Some(n) => Some(SplitAtDot(n).0)
  }

  /** `Path::extension`. */
  function Extension(p: Path): (r: Option<string>)
    ensures r.Some? ==> FileName(p).Some? && FileStem(p).value + "." + r.value == FileName(p).value
  {
    match FileName(p)
    case None => None
    case Some(n) => SplitAtDot(n).1
  }

  /** A file named `stem.ext`, with no dot in `ext`: its stem and its extension. */
  lemma StemAndExtension(p: Path, stem: string, ext: string)
    requires |p.parts| > 0 && p.parts[|p.parts| - 1] == stem + "." + ext
    requires stem != "" && ext != "" && '.' !in ext
    ensures FileStem(p) == Some(stem) && Extension(p) == Some(ext)
  {
    var name := stem + "." + ext;
    assert name[|stem|] == '.' && name[|stem| + 1..] == ext && name[..|stem|] == stem;
    LastDot(name, |stem|);
    assert name != "..";
  }

  /** `Path::strip_prefix`, component-wise: the parts of `p` after those of `base`. */
  function StripPrefix(p: Path, base: Path): (r: Option<seq<string>>)
    ensures r.Some? <==> p.absolute == base.absolute && |base.parts| <= |p.parts| && p.parts[..|base.parts|] == base.parts
    ensures r.Some? ==> base.parts + r.value == p.parts
  {
    if p.absolute == base.absolute && |base.parts| <= |p.parts| && p.parts[..|base.parts|] == base.parts
    then
      assert base.parts + p.parts[|base.parts|..] == p.parts;
      Some(p.parts[|base.parts|..])
    else None
  }

  lemma {:induction false} KeepNormalIdentity(parts: seq<string>)
    requires forall i :: 0 <= i < |parts| ==> NormalPart(parts[i])
    ensures KeepNormal(parts) == parts
  {
    if parts != [] {
      KeepNormalIdentity(parts[1..]);
    }
  }

  lemma {:induction false} KeepNormalAppend(a: seq<string>, b: seq<string>)
    ensures KeepNormal(a + b) == KeepNormal(a) + KeepNormal(b)
  {
    if a == [] {
      assert a + b == b;
    } else {
      assert (a + b)[0] == a[0] && (a + b)[1..] == a[1..] + b;
      KeepNormalAppend(a[1..], b);
    }
  }

  /** Splitting a path string that is one leading part, a slash, and normal parts joined by slashes. */
  lemma SplitLed(lead: string, parts: seq<string>)
    requires '/' !in lead
    requires forall i :: 0 <= i < |parts| ==> NormalPart(parts[i])
    ensures KeepNormal(Split(lead + "/" + Text.Join(parts, "/"), '/')) == KeepNormal([lead]) + parts
  {
    var joined := Text.Join(parts, "/");
    SplitConcat(lead, joined, '/');
    KeepNormalAppend([lead], Split(joined, '/'));
    if parts == [] {
      assert Split(joined, '/') == [""];
    } else {
      SplitJoin(parts, '/');
      KeepNormalIdentity(parts);
    }
  }

  /** A path string ending in "/name" has `name` as its last component. */
  lemma ParseEndsWith(a: string, name: string)
    requires NormalPart(name)
    ensures |Parse(a + ['/'] + name).parts| > 0
    ensures Parse(a + ['/'] + name).parts[|Parse(a + ['/'] + name).parts| - 1] == name
  {
    SplitSnoc(a, name, '/');
    KeepNormalAppend(Split(a, '/'), [name]);
    assert KeepNormal([name]) == [name];
  }

  /** Reading "./a/b" back gives the relative components a, b. */
  lemma ParseDotRelative(parts: seq<string>)
    requires forall i :: 0 <= i < |parts| ==> NormalPart(parts[i])
    ensures Parse("./" + Text.Join(parts, "/")) == Path(false, parts)
  {
    var s := "./" + Text.Join(parts, "/");
    assert "./" == "." + "/";
    SplitLed(".", parts);
    assert KeepNormal(["."]) == [];
    assert s[0] == '.';
    assert Parse(s) == Path(false, KeepNormal(Split(s, '/')));
  }

  /** Reading "/a/b" back gives the rooted components a, b. */
  lemma ParseRooted(parts: seq<string>)
    requires forall i :: 0 <= i < |parts| ==> NormalPart(parts[i])
    ensures Parse("/" + Text.Join(parts, "/")) == Path(true, parts)
  {
    var j := Text.Join(parts, "/");
    var s := "/" + j;
    assert s[0] == '/' && s[1..] == j;
    var split := Split(j, '/');
    assert Split(s, '/') == [""] + split;
    assert ([""] + split)[1..] == split;
    assert KeepNormal(Split(s, '/')) == KeepNormal(split);
    if parts == [] {
      assert split == [""];
    } else {
      SplitJoin(parts, '/');
      KeepNormalIdentity(parts);
    }
  }
}
