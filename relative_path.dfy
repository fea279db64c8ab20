/** Keys of the per-project results: the manifest path relative to the repository work directory. */
module RelativePath {
  import opened Wrappers
  import opened Text
  import Paths

  /** What repository discovery found: nothing, a bare repository, or a work directory. */
  datatype Repository = NoRepository | Bare | WorkDir(root: string)

  const RepoNotFound: string := "Git repository not found"
  const WorkDirNotFound: string := "Git repository workdir not found"
  const NotUnderRoot: string := "Failed to get relative path"

  /**
   * `get_relative_path`: "./" and the components of `absolutePath` after
   * those of the work directory; the comparison is on whole components.
   */
  function GetRelativePath(repo: Repository, absolutePath: string): (r: Result<string>)
    ensures repo == NoRepository ==> r == Err(RepoNotFound)
    ensures repo == Bare ==> r == Err(WorkDirNotFound)
    ensures repo.WorkDir? ==>
      (r.Ok? <==> Paths.StripPrefix(Paths.Parse(absolutePath), Paths.Parse(repo.root)).Some?)
    ensures repo.WorkDir? && r.Err? ==> r.error == NotUnderRoot
    ensures r.Ok? ==> StartsWith(r.value, "./")
  {
    match repo
    case NoRepository => Err(RepoNotFound)
    case Bare => Err(WorkDirNotFound)
    case WorkDir(root) =>
      var project := Paths.Parse(absolutePath);
      match Paths.StripPrefix(project, Paths.Parse(root))
      case None => Err(NotUnderRoot)
      case Some(rest) =>
        Ok("./" + Join(rest, "/"))
  }

  /** Read back as a path, the result is the manifest path with the work directory's components removed. */
  lemma ReadsBackAsRemainder(root: string, absolutePath: string)
    requires GetRelativePath(WorkDir(root), absolutePath).Ok?
    ensures Paths.Parse(GetRelativePath(WorkDir(root), absolutePath).value)
      == Paths.Path(false, Paths.StripPrefix(Paths.Parse(absolutePath), Paths.Parse(root)).value)
    ensures Paths.Parse(root).parts + Paths.Parse(GetRelativePath(WorkDir(root), absolutePath).value).parts
      == Paths.Parse(absolutePath).parts
  {
    var project := Paths.Parse(absolutePath);
    var rest := Paths.StripPrefix(project, Paths.Parse(root)).value;
    assert forall i :: 0 <= i < |rest| ==> rest[i] == project.parts[|Paths.Parse(root).parts| + i];
    Paths.ParseDotRelative(rest);
  }

  /** A path equal to the work directory becomes "./". */
  lemma RootItself(root: string)
    ensures GetRelativePath(WorkDir(root), root) == Ok("./")
  {
    var p := Paths.Parse(root);
    assert p.parts[..|p.parts|] == p.parts;
    assert p.parts[|p.parts|..] == [];
    assert "./" + Join([], "/") == "./";
  }

  /** Components are compared whole: "/r/ab" is not inside "/r/a". */
  lemma SiblingWithCommonPrefix()
    ensures GetRelativePath(WorkDir("/r/a"), "/r/ab") == Err(NotUnderRoot)
  {
    assert "/r/a" == "/" + Join(["r", "a"], "/");
    Paths.ParseRooted(["r", "a"]);
    assert "/r/ab" == "/" + Join(["r", "ab"], "/");
    Paths.ParseRooted(["r", "ab"]);
  }

  lemma NestedExample()
    ensures GetRelativePath(WorkDir("/r"), "/r/a/b") == Ok("./a/b")
  {
    assert "/r" == "/" + Join(["r"], "/");
    Paths.ParseRooted(["r"]);
    var ab := ["a", "b"];
    assert Join(ab, "/") == "a/b" by {
      assert ab[1..] == ["b"];
    }
    var rab := ["r"] + ab;
    assert rab[1..] == ab;
    assert Join(rab, "/") == "r/a/b";
    assert "/r/a/b" == "/" + Join(rab, "/");
    Paths.ParseRooted(rab);
    assert Paths.StripPrefix(Paths.Path(true, rab), Paths.Path(true, ["r"])) == Some(ab);
    assert "./" + Join(ab, "/") == "./a/b";
  }
}
