/**
 * The per-project result table printed in JSON mode: for every project,
 * its pending bump (if any) and the logs that caused it, keyed by the
 * project's "./"-relative manifest path.
 */
module ResultMap {
  import opened Wrappers
  import opened UpdateTypes
  import opened Projects
  import NextVersion
  import opened RelativePath

  /** One log line behind a pending bump. */
  datatype ResultLog = ResultLog(updateType: UpdateType, note: string)

  datatype ChangePackResult = ChangePackResult(
    logs: seq<ResultLog>,
    version: Option<string>,
    nextVersion: Option<string>,
    name: Option<string>,
    changed: bool,
    path: string)

  type Pending = map<string, (UpdateType, seq<ResultLog>)>

  /** How a project's key is computed; the properties below hold for any such function. */
  type KeyFn = Project -> Result<string>

  /** The key the source uses: the relative path of the manifest under the work directory. */
  function RelativeKey(root: string): KeyFn {
    (p: Project) => GetRelativePath(WorkDir(root), p.path)
  }

  function Lookup(pending: Pending, key: string): Option<(UpdateType, seq<ResultLog>)> {
    if key in pending then Some(pending[key]) else None
  }

  /**
   * The result of one project: with a pending entry, its logs and the
   * bump of the current version (or of "0.0.0"); without one, no logs and
   * no next version. Version, name and changed flag are the project's own.
   */
  function ResultFor(p: Project, key: string, entry: Option<(UpdateType, seq<ResultLog>)>): (r: Result<ChangePackResult>)
    ensures entry.None? ==> r.Ok? && r.value.logs == [] && r.value.nextVersion.None?
    ensures entry.Some? ==> (r.Ok? <==> NextVersion.Bumpable(p.version.GetOr(NextVersion.DefaultVersion), entry.value.0))
    ensures entry.Some? && r.Ok? ==> r.value.logs == entry.value.1
    ensures entry.Some? && r.Ok? ==> r.value.nextVersion == Some(NextVersion.Next(p.version.GetOr(NextVersion.DefaultVersion), entry.value.0))
    ensures r.Ok? ==> r.value.version == p.version && r.value.name == p.name
    ensures r.Ok? ==> r.value.changed == p.changed && r.value.path == key
  {
    match entry
    case Some((t, notes)) =>
      var next :- NextVersion.TryNext(p.version.GetOr(NextVersion.DefaultVersion), t);
      Ok(ChangePackResult(notes, p.version, Some(next), p.name, p.changed, key))
    case None =>
      Ok(ChangePackResult([], p.version, None, p.name, p.changed, key))
  }

  /** The loop of `gen_changepack_result_map` as a recursion: entries are removed as they are used. */
  function Collect(keyOf: KeyFn, projects: seq<Project>, pending: Pending, acc: map<string, ChangePackResult>)
    : Result<map<string, ChangePackResult>>
    decreases |projects|
  {
    if projects == [] then Ok(acc)
    else
      match keyOf(projects[0])
      case Err(e) => Err(e)
      case Ok(key) =>
        match ResultFor(projects[0], key, Lookup(pending, key))
        case Err(e) => Err(e)
        case Ok(result) => Collect(keyOf, projects[1..], pending - {key}, acc[key := result])
  }

  /** The body of the loop for one project whose key and entry are known. */
  method ResultOf(project: Project, key: string, entry: Option<(UpdateType, seq<ResultLog>)>)
    returns (r: Result<ChangePackResult>)
    ensures r == ResultFor(project, key, entry)
  {
    match entry {
      case Some((updateType, notes)) =>
        var next := NextVersion.TryNext(project.version.GetOr(NextVersion.DefaultVersion), updateType);
        if next.Err? {
          return Err(next.error);
        }
        r := Ok(ChangePackResult(notes, project.version, Some(next.value), project.name, project.changed, key));
      case None =>
        r := Ok(ChangePackResult([], project.version, None, project.name, project.changed, key));
    }
  }

  /** `gen_changepack_result_map`. */
  method GenChangepackResultMap(projects: seq<Project>, root: string, updateResult: Pending)
    returns (r: Result<map<string, ChangePackResult>>)
    ensures r == Collect(RelativeKey(root), projects, updateResult, map[])
  {
    var resultMap: map<string, ChangePackResult> := map[];
    var pending := updateResult;
    var i := 0;
    while i < |projects|
      invariant 0 <= i <= |projects|
      invariant Collect(RelativeKey(root), projects, updateResult, map[])
        == Collect(RelativeKey(root), projects[i..], pending, resultMap)
    {
      var project := projects[i];
      assert projects[i..][0] == project && projects[i..][1..] == projects[i + 1..];
      var keyResult := GetRelativePath(WorkDir(root), project.path);
      if keyResult.Err? {
        return Err(keyResult.error);
      }
      var key := keyResult.value;
      ghost var before, beforeMap := pending, resultMap;
      assert RelativeKey(root)(project) == Ok(key);
      var entry: Option<(UpdateType, seq<ResultLog>)> := None;
      if key in pending {
        entry := Some(pending[key]);
        pending := pending - {key};
      } else {
        assert pending == pending - {key} by {
          assert (pending - {key}).Keys == pending.Keys;
        }
      }
      var result := ResultOf(project, key, entry);
      if result.Err? {
        return Err(result.error);
      }
      assert entry == Lookup(before, key) && pending == before - {key};
      resultMap := resultMap[key := result.value];
      assert Collect(RelativeKey(root), projects[i..], before, beforeMap)
        == Collect(RelativeKey(root), projects[i + 1..], pending, resultMap);
      i := i + 1;
    }
    r := Ok(resultMap);
  }

  // ---- Properties ----

  function KeysOf(keyOf: KeyFn, projects: seq<Project>): set<string>
    requires forall i :: 0 <= i < |projects| ==> keyOf(projects[i]).Ok?
  {
    set i | 0 <= i < |projects| :: keyOf(projects[i]).value
  }

  /** On success every project had a key, and the table holds exactly those keys. */
  lemma {:induction false} CollectKeys(keyOf: KeyFn, projects: seq<Project>, pending: Pending, acc: map<string, ChangePackResult>)
    requires Collect(keyOf, projects, pending, acc).Ok?
    ensures forall i :: 0 <= i < |projects| ==> keyOf(projects[i]).Ok?
    ensures Collect(keyOf, projects, pending, acc).value.Keys == acc.Keys + KeysOf(keyOf, projects)
    decreases |projects|
  {
    if projects != [] {
      var k := keyOf(projects[0]).value;
      var result := ResultFor(projects[0], k, Lookup(pending, k)).value;
      CollectKeys(keyOf, projects[1..], pending - {k}, acc[k := result]);
      assert forall i :: 1 <= i < |projects| ==> projects[i] == projects[1..][i - 1];
      assert KeysOf(keyOf, projects) == {k} + KeysOf(keyOf, projects[1..]);
    }
  }

  /** A project whose manifest lies outside the work directory makes the whole table fail. */
  lemma {:induction false} OutsideRootFails(keyOf: KeyFn, projects: seq<Project>, pending: Pending, acc: map<string, ChangePackResult>, j: nat)
    requires j < |projects| && keyOf(projects[j]).Err?
    ensures Collect(keyOf, projects, pending, acc).Err?
  {
    if Collect(keyOf, projects, pending, acc).Ok? {
      CollectKeys(keyOf, projects, pending, acc);
    }
  }

  /** Entries of the accumulated table whose key no remaining project has are kept as they are. */
  lemma {:induction false} CollectKeepsOthers(keyOf: KeyFn, projects: seq<Project>, pending: Pending, acc: map<string, ChangePackResult>, key: string)
    requires Collect(keyOf, projects, pending, acc).Ok? && key in acc
    requires forall i :: 0 <= i < |projects| && keyOf(projects[i]).Ok? ==> keyOf(projects[i]).value != key
    ensures key in Collect(keyOf, projects, pending, acc).value
    ensures Collect(keyOf, projects, pending, acc).value[key] == acc[key]
    decreases |projects|
  {
    if projects != [] {
      var k := keyOf(projects[0]).value;
      var result := ResultFor(projects[0], k, Lookup(pending, k)).value;
      assert forall i :: 1 <= i < |projects| ==> projects[i] == projects[1..][i - 1];
      CollectKeepsOthers(keyOf, projects[1..], pending - {k}, acc[k := result], key);
    }
  }

  predicate DistinctKeys(keyOf: KeyFn, projects: seq<Project>) {
    forall i, j :: 0 <= i < j < |projects| && keyOf(projects[i]).Ok? && keyOf(projects[j]).Ok? ==>
      keyOf(projects[i]).value != keyOf(projects[j]).value
  }

  /**
   * With distinct keys, each project's row is exactly its own result: its
   * pending entry's logs (all of them, in order) and bumped version, or no
   * logs and no next version.
   */
  lemma {:induction false} CollectRow(keyOf: KeyFn, projects: seq<Project>, pending: Pending, acc: map<string, ChangePackResult>, i: nat)
    requires Collect(keyOf, projects, pending, acc).Ok? && i < |projects| && DistinctKeys(keyOf, projects)
    ensures keyOf(projects[i]).Ok?
    ensures var key := keyOf(projects[i]).value;
      key in Collect(keyOf, projects, pending, acc).value
      && ResultFor(projects[i], key, Lookup(pending, key)).Ok?
      && Collect(keyOf, projects, pending, acc).value[key] == ResultFor(projects[i], key, Lookup(pending, key)).value
    decreases |projects|
  {
    var rest := projects[1..];
    var k := keyOf(projects[0]).value;
    var result := ResultFor(projects[0], k, Lookup(pending, k)).value;
    var pending', acc' := pending - {k}, acc[k := result];
    assert Collect(keyOf, projects, pending, acc) == Collect(keyOf, rest, pending', acc');
    if i == 0 {
      forall j | 0 <= j < |rest| && keyOf(rest[j]).Ok?
        ensures keyOf(rest[j]).value != k
      {
        assert rest[j] == projects[j + 1];
      }
      CollectKeepsOthers(keyOf, rest, pending', acc', k);
    } else {
      forall a, b | 0 <= a < b < |rest| && keyOf(rest[a]).Ok? && keyOf(rest[b]).Ok?
        ensures keyOf(rest[a]).value != keyOf(rest[b]).value
      {
        assert rest[a] == projects[a + 1] && rest[b] == projects[b + 1];
      }
      CollectRow(keyOf, rest, pending', acc', i - 1);
      assert rest[i - 1] == projects[i];
    }
  }

  /**
   * A pending entry is used by the first project with its key only: a later
   * project with the same key finds it removed, and its row (which replaces
   * the earlier one) has no logs and no next version.
   */
  lemma {:induction false} EntryUsedOnce(keyOf: KeyFn, projects: seq<Project>, pending: Pending, acc: map<string, ChangePackResult>, key: string)
    requires Collect(keyOf, projects, pending, acc).Ok? && key !in pending
    requires exists i :: 0 <= i < |projects| && keyOf(projects[i]) == Ok(key)
    ensures key in Collect(keyOf, projects, pending, acc).value
    ensures Collect(keyOf, projects, pending, acc).value[key].logs == []
    ensures Collect(keyOf, projects, pending, acc).value[key].nextVersion == None
    decreases |projects|
  {
    var k := keyOf(projects[0]).value;
    var result := ResultFor(projects[0], k, Lookup(pending, k)).value;
    assert forall j :: 1 <= j < |projects| ==> projects[j] == projects[1..][j - 1];
    if exists i :: 1 <= i < |projects| && keyOf(projects[i]) == Ok(key) {
      var i :| 1 <= i < |projects| && keyOf(projects[i]) == Ok(key);
      assert keyOf(projects[1..][i - 1]) == Ok(key);
      EntryUsedOnce(keyOf, projects[1..], pending - {k}, acc[k := result], key);
    } else {
      assert k == key;
      CollectKeys(keyOf, projects[1..], pending - {k}, acc[k := result]);
      CollectKeepsOthers(keyOf, projects[1..], pending - {k}, acc[k := result], key);
    }
  }

  /** Two projects with the same key produce one row; the pending entry went to the first, the row kept is the later one's. */
  lemma DuplicateKeyLosesEntry(keyOf: KeyFn, p: Project, q: Project, pending: Pending)
    requires keyOf(p).Ok? && keyOf(q) == keyOf(p)
    requires Collect(keyOf, [p, q], pending, map[]).Ok?
    ensures Collect(keyOf, [p, q], pending, map[]).value.Keys == {keyOf(p).value}
    ensures Collect(keyOf, [p, q], pending, map[]).value[keyOf(p).value].nextVersion == None
  {
    var key := keyOf(p).value;
    var first := ResultFor(p, key, Lookup(pending, key)).value;
    assert [p, q][1..] == [q];
    assert keyOf([q][0]) == Ok(key);
    EntryUsedOnce(keyOf, [q], pending - {key}, map[key := first], key);
    CollectKeys(keyOf, [p, q], pending, map[]);
    assert KeysOf(keyOf, [p, q]) == {key};
  }
}
