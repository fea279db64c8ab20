/**
 * Package-manager detection of the Node crate: the lock file in a
 * directory decides the manager (Bun, then pnpm, then Yarn, else npm),
 * and the recursive search walks up the directory tree until a directory
 * names a manager other than npm or holds `package-lock.json`.
 *
 * The file system is given as two sets of paths: the regular files
 * (`Path::is_file`) and everything that exists (`Path::exists`).
 */
module NodePackageManager {
  import opened Wrappers
  import opened Paths

  datatype PackageManager = Npm | Yarn | Pnpm | Bun

  /** `publish_command`. */
  function PublishCommand(pm: PackageManager): (cmd: string)
    ensures |cmd| >= 11
  {
    match pm
    case Npm => "npm publish"
    case Yarn => "yarn npm publish"
    case Pnpm => "pnpm publish"
    case Bun => "bun publish"
  }

  /** Distinct managers publish with distinct commands. */
  lemma PublishCommandInjective(a: PackageManager, b: PackageManager)
    requires PublishCommand(a) == PublishCommand(b)
    ensures a == b
  {
    assert PublishCommand(a)[0] == PublishCommand(b)[0];
    if PublishCommand(a)[0] == 'b' || PublishCommand(a)[0] == 'n' {
    } else if PublishCommand(a)[0] == 'p' {
    } else {
      assert PublishCommand(a)[0] == 'y';
    }
  }

  /** The files `detect_package_manager` looks for, under `dir`. */
  predicate Has(dir: Path, name: string, existing: set<Path>) {
    Path(dir.absolute, dir.parts + [name]) in existing
  }

  predicate HasBun(dir: Path, existing: set<Path>) {
    Has(dir, "bun.lockb", existing) || Has(dir, "bun.lock", existing)
  }

  /** `detect_package_manager`: the lock file of the highest priority present in `dir`. */
  function Detect(dir: Path, existing: set<Path>): (pm: PackageManager)
    ensures pm == Bun <==> HasBun(dir, existing)
    ensures pm == Pnpm <==> !HasBun(dir, existing) && Has(dir, "pnpm-lock.yaml", existing)
    ensures pm == Yarn <==> !HasBun(dir, existing) && !Has(dir, "pnpm-lock.yaml", existing) && Has(dir, "yarn.lock", existing)
  {
    if HasBun(dir, existing) then Bun
    else if Has(dir, "pnpm-lock.yaml", existing) then Pnpm
    else if Has(dir, "yarn.lock", existing) then Yarn
    else if Has(dir, "package-lock.json", existing) then Npm
    else Npm
  }

  /** Adding a lock file of lower priority than the one found does not change the answer. */
  lemma LowerLockIgnored(dir: Path, existing: set<Path>, name: string)
    requires Detect(dir, existing) == Bun
      || (Detect(dir, existing) == Pnpm && name != "bun.lockb" && name != "bun.lock")
      || (Detect(dir, existing) == Yarn && name != "bun.lockb" && name != "bun.lock" && name != "pnpm-lock.yaml")
    ensures Detect(dir, existing + {Path(dir.absolute, dir.parts + [name])}) == Detect(dir, existing)
  {
    var extra := Path(dir.absolute, dir.parts + [name]);
    forall other: string | other != name
      ensures Has(dir, other, existing + {extra}) == Has(dir, other, existing)
    {
      assert (dir.parts + [other])[|dir.parts|] == other;
      assert (dir.parts + [name])[|dir.parts|] == name;
    }
    assert Has(dir, name, existing + {extra});
    assert "bun.lockb" != "bun.lock" && "pnpm-lock.yaml" != "yarn.lock" && "pnpm-lock.yaml" != "bun.lock";
  }

  /** Where the search starts: the parent of a file, the path itself otherwise. */
  function Start(path: Path, files: set<Path>): Option<Path> {
    if path in files then Parent(path) else Some(path)
  }

  /** Whether the search stops at `dir`: a manager other than npm, or an npm lock file. */
  predicate StopsAt(dir: Path, existing: set<Path>) {
    Detect(dir, existing) != Npm || Has(dir, "package-lock.json", existing)
  }

  /** `dir` with its last `n` components removed. */
  function Up(dir: Path, n: nat): Path
    requires n <= |dir.parts|
  {
    Path(dir.absolute, dir.parts[..|dir.parts| - n])
  }

  /** The search from `current` on, as the loop performs it. */
  function Search(current: Option<Path>, existing: set<Path>): PackageManager
    decreases if current.Some? then |current.value.parts| + 1 else 0
  {
    match current
    case None => Npm
    case Some(dir) => if StopsAt(dir, existing) then Detect(dir, existing) else Search(Parent(dir), existing)
  }

  /** The search answers what the nearest ancestor at which it stops detects. */
  lemma {:induction false} SearchFindsNearest(dir: Path, existing: set<Path>, n: nat)
    requires n <= |dir.parts| && StopsAt(Up(dir, n), existing)
    requires forall m: nat :: m < n ==> !StopsAt(Up(dir, m), existing)
    ensures Search(Some(dir), existing) == Detect(Up(dir, n), existing)
    decreases n
  {
    assert Up(dir, 0) == dir;
    if n > 0 {
      var parent := Parent(dir).value;
      forall m: nat | m <= |parent.parts|
        ensures Up(parent, m) == Up(dir, m + 1)
      {
      }
      SearchFindsNearest(parent, existing, n - 1);
    }
  }

  /** Without any ancestor to stop at, the answer is npm. */
  lemma {:induction false} SearchDefaultsToNpm(dir: Path, existing: set<Path>)
    requires forall m: nat :: m <= |dir.parts| ==> !StopsAt(Up(dir, m), existing)
    ensures Search(Some(dir), existing) == Npm
    decreases |dir.parts|
  {
    assert Up(dir, 0) == dir;
    if dir.parts != [] {
      var parent := Parent(dir).value;
      forall m: nat | m <= |parent.parts|
        ensures Up(parent, m) == Up(dir, m + 1)
      {
      }
      SearchDefaultsToNpm(parent, existing);
    }
  }

  /** `detect_package_manager_recursive`. */
  method DetectRecursive(path: Path, files: set<Path>, existing: set<Path>) returns (pm: PackageManager)
    ensures pm == Search(Start(path, files), existing)
  {
    var current := if path in files then Parent(path) else Some(path);
    while current.Some?
      invariant Search(current, existing) == Search(Start(path, files), existing)
      decreases if current.Some? then |current.value.parts| + 1 else 0
    {
      var dir := current.value;
      var found := Detect(dir, existing);
      if found != Npm || Has(dir, "package-lock.json", existing) {
        return found;
      }
      current := Parent(dir);
    }
    pm := Npm;
  }

  /** None of the lock files is in `dir`. */
  predicate NoLocks(dir: Path, existing: set<Path>) {
    !HasBun(dir, existing) && !Has(dir, "pnpm-lock.yaml", existing) && !Has(dir, "yarn.lock", existing)
    && !Has(dir, "package-lock.json", existing)
  }

  /**
   * A `package.json` two levels below a directory holding `pnpm-lock.yaml`
   * (and no Bun lock file), with no lock file in between, is published with pnpm.
   */
  lemma NestedPackageUsesRootLock(root: Path, files: set<Path>, existing: set<Path>)
    requires Has(root, "pnpm-lock.yaml", existing) && !HasBun(root, existing)
    requires Path(root.absolute, root.parts + ["packages", "core", "package.json"]) in files
    requires NoLocks(Path(root.absolute, root.parts + ["packages", "core"]), existing)
    requires NoLocks(Path(root.absolute, root.parts + ["packages"]), existing)
    ensures Search(Start(Path(root.absolute, root.parts + ["packages", "core", "package.json"]), files), existing) == Pnpm
  {
    var core := Path(root.absolute, root.parts + ["packages", "core"]);
    var file := Path(root.absolute, root.parts + ["packages", "core", "package.json"]);
    assert file.parts[..|file.parts| - 1] == core.parts;
    assert Start(file, files) == Some(core);
    var packages := Path(root.absolute, root.parts + ["packages"]);
    assert core.parts[..|core.parts| - 1] == packages.parts;
    assert core.parts[..|core.parts| - 2] == root.parts;
    assert Up(core, 1) == packages && Up(core, 0) == core && Up(core, 2) == root;
    assert !StopsAt(Up(core, 0), existing) && !StopsAt(Up(core, 1), existing);
    SearchFindsNearest(core, existing, 2);
  }
}
