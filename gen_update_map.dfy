/**
 * Merging the pending change logs of the changepack directory into one
 * bump per project key. The directory listing is given as a sequence of
 * files; reading and JSON parsing of each is folded into its `contents`.
 */
module GenUpdateMap {
  import opened Wrappers
  import opened UpdateTypes

  /** One directory entry: its file name and either its parsed `changes` or the error met reading it. */
  datatype LogFile = LogFile(fileName: string, contents: Result<map<string, UpdateType>>)

  /** The configuration file sitting next to the logs; never read as a log. */
  const ConfigFileName: string := "changepack.json"

  predicate IsLog(f: LogFile) {
    f.fileName != ConfigFileName
  }

  predicate Counted(f: LogFile) {
    IsLog(f) && f.contents.Ok?
  }

  /** `m` already holds, for every key of `changes`, a bump at least as great. */
  predicate Dominates(m: map<string, UpdateType>, changes: map<string, UpdateType>) {
    forall k :: k in changes ==> k in m && !Less(m[k], changes[k])
  }

  /**
   * The effect of one log on the map: a new key is inserted, an existing
   * value is replaced only by a strictly greater one.
   */
  function MergeLog(m: map<string, UpdateType>, changes: map<string, UpdateType>): (r: map<string, UpdateType>)
    ensures r.Keys == m.Keys + changes.Keys
  {
    map k | k in m.Keys + changes.Keys ::
      if k in m && (k !in changes || !Less(m[k], changes[k])) then m[k] else changes[k]
  }

  /** Each merged value is the greater of the old value and the log's, and is one of the two. */
  lemma MergeLogIsMax(m: map<string, UpdateType>, changes: map<string, UpdateType>)
    ensures Dominates(MergeLog(m, changes), m) && Dominates(MergeLog(m, changes), changes)
    ensures forall k :: k in MergeLog(m, changes) ==>
      (k in m && MergeLog(m, changes)[k] == m[k]) || (k in changes && MergeLog(m, changes)[k] == changes[k])
  {
    var r := MergeLog(m, changes);
    forall k | k in m && k in changes ensures !Less(r[k], m[k]) && !Less(r[k], changes[k]) {
      DiscriminantInjective(m[k], changes[k]);
    }
  }

  /** The whole merge: files in listing order, the first unreadable log aborting it. */
  function Merged(acc: map<string, UpdateType>, files: seq<LogFile>): Result<map<string, UpdateType>>
    decreases |files|
  {
    if files == [] then Ok(acc)
    else if !IsLog(files[0]) then Merged(acc, files[1..])
    else match files[0].contents
      case Err(e) => Err(e)
      case Ok(changes) => Merged(MergeLog(acc, changes), files[1..])
  }

  /** Every key that some counted log mentions. */
  function LogKeys(files: seq<LogFile>): set<string> {
    if files == [] then {}
    else (if Counted(files[0]) then files[0].contents.value.Keys else {}) + LogKeys(files[1..])
  }

  /**
   * `gen_update_map` over a directory listing: the maps of the logs merged
   * in listing order, each log's own entries in the hash map's (arbitrary)
   * order.
   */
  method GenUpdateMap(files: seq<LogFile>) returns (r: Result<map<string, UpdateType>>)
    ensures r == Merged(map[], files)
  {
    var updateMap: map<string, UpdateType> := map[];
    var i := 0;
    while i < |files|
      invariant 0 <= i <= |files|
      invariant Merged(map[], files) == Merged(updateMap, files[i..])
    {
      var file := files[i];
      assert files[i..][1..] == files[i + 1..];
      if file.fileName == ConfigFileName {
        i := i + 1;
        continue;
      }
      if file.contents.Err? {
        assert Merged(updateMap, files[i..]) == Err(file.contents.error);
        return Err(file.contents.error);
      }
      var changes := file.contents.value;
      ghost var before := updateMap;
      updateMap := MergeChanges(updateMap, changes);
      assert Merged(updateMap, files[i + 1..]) == Merged(before, files[i..]);
      i := i + 1;
    }
    r := Ok(updateMap);
  }

  /** The inner loop: one log's entries, in the hash map's iteration order. */
  method MergeChanges(m: map<string, UpdateType>, changes: map<string, UpdateType>) returns (r: map<string, UpdateType>)
    ensures r == MergeLog(m, changes)
  {
    r := m;
    var pending := changes.Keys;
    RestrictNone(m, changes);
    while pending != {}
      invariant pending <= changes.Keys
      invariant r == MergeLog(m, Restrict(changes, changes.Keys - pending))
      decreases |pending|
    {
      var key :| key in pending;
      var updateType := changes[key];
      ghost var prev := r;
      if key in r {
        if Less(r[key], updateType) {
          r := r[key := updateType];
        }
      } else {
        r := r[key := updateType];
      }
      MergeLogStep(m, changes, pending, key, prev, r);
      pending := pending - {key};
    }
    RestrictAll(changes);
  }

  function Restrict(m: map<string, UpdateType>, keys: set<string>): (r: map<string, UpdateType>)
    requires keys <= m.Keys
    ensures r.Keys == keys && forall k :: k in r ==> r[k] == m[k]
  {
    map k | k in keys :: m[k]
  }

  lemma RestrictNone(m: map<string, UpdateType>, changes: map<string, UpdateType>)
    ensures m == MergeLog(m, Restrict(changes, changes.Keys - changes.Keys))
  {
  }

  lemma RestrictAll(changes: map<string, UpdateType>)
    ensures Restrict(changes, changes.Keys - {}) == changes
  {
  }

  /** One more key of a log merged in, as the inner loop body does it. */
  lemma MergeLogStep(m: map<string, UpdateType>, changes: map<string, UpdateType>, pending: set<string>, key: string,
                     prev: map<string, UpdateType>, r: map<string, UpdateType>)
    requires pending <= changes.Keys && key in pending
    requires prev == MergeLog(m, Restrict(changes, changes.Keys - pending))
    requires r == if key in prev && !Less(prev[key], changes[key]) then prev else prev[key := changes[key]]
    ensures r == MergeLog(m, Restrict(changes, changes.Keys - (pending - {key})))
  {
    var done := changes.Keys - pending;
    assert changes.Keys - (pending - {key}) == done + {key};
    var partial := Restrict(changes, done);
    var extended := Restrict(changes, done + {key});
    var next := MergeLog(m, extended);
    assert key !in partial && key in extended && extended[key] == changes[key];
    assert next.Keys == r.Keys;
    forall k | k in r ensures r[k] == next[k] {
      if k == key {
        if key in m {
          assert prev[key] == m[key];
        }
      } else {
        assert r[k] == prev[k];
        assert (k in partial) == (k in extended);
      }
    }
  }

  // ---- Properties of the merge ----

  /** The merge fails exactly when some log (not the configuration file) could not be read. */
  lemma {:induction false} MergedFails(acc: map<string, UpdateType>, files: seq<LogFile>)
    ensures Merged(acc, files).Err? <==> exists i :: 0 <= i < |files| && IsLog(files[i]) && files[i].contents.Err?
    decreases |files|
  {
    if files != [] {
      if !IsLog(files[0]) {
        MergedFails(acc, files[1..]);
        assert forall i :: 1 <= i < |files| ==> files[i] == files[1..][i - 1];
      } else if files[0].contents.Ok? {
        MergedFails(MergeLog(acc, files[0].contents.value), files[1..]);
        assert forall i :: 1 <= i < |files| ==> files[i] == files[1..][i - 1];
      }
    }
  }

  /** The configuration file never contributes, whatever it holds. */
  lemma ConfigFileIgnored(acc: map<string, UpdateType>, files: seq<LogFile>, contents: Result<map<string, UpdateType>>)
    ensures Merged(acc, [LogFile(ConfigFileName, contents)] + files) == Merged(acc, files)
  {
    assert ([LogFile(ConfigFileName, contents)] + files)[1..] == files;
  }

  /** The keys of the result are exactly those of the start map and of the counted logs. */
  lemma {:induction false} MergedKeys(acc: map<string, UpdateType>, files: seq<LogFile>)
    requires Merged(acc, files).Ok?
    ensures Merged(acc, files).value.Keys == acc.Keys + LogKeys(files)
    decreases |files|
  {
    if files != [] {
      if !IsLog(files[0]) {
        MergedKeys(acc, files[1..]);
      } else {
        MergedKeys(MergeLog(acc, files[0].contents.value), files[1..]);
      }
    }
  }

  /** A map that dominates another keeps dominating it through further merging. */
  lemma {:induction false} MergedMonotone(acc: map<string, UpdateType>, files: seq<LogFile>, other: map<string, UpdateType>)
    requires Merged(acc, files).Ok? && Dominates(acc, other)
    ensures Dominates(Merged(acc, files).value, other)
    decreases |files|
  {
    if files != [] {
      if !IsLog(files[0]) {
        MergedMonotone(acc, files[1..], other);
      } else {
        var next := MergeLog(acc, files[0].contents.value);
        assert Dominates(next, other) by {
          forall k | k in other ensures k in next && !Less(next[k], other[k]) {
            assert !Less(next[k], acc[k]);
          }
        }
        MergedMonotone(next, files[1..], other);
      }
    }
  }

  /** The result is at least the start map and at least every counted log. */
  lemma {:induction false} MergedIsUpperBound(acc: map<string, UpdateType>, files: seq<LogFile>)
    requires Merged(acc, files).Ok?
    ensures Dominates(Merged(acc, files).value, acc)
    ensures forall i :: 0 <= i < |files| && Counted(files[i]) ==> Dominates(Merged(acc, files).value, files[i].contents.value)
    decreases |files|
  {
    if files == [] {
    } else if !IsLog(files[0]) {
      MergedIsUpperBound(acc, files[1..]);
      assert forall i :: 1 <= i < |files| ==> files[i] == files[1..][i - 1];
    } else {
      var next := MergeLog(acc, files[0].contents.value);
      MergedIsUpperBound(next, files[1..]);
      MergedMonotone(next, files[1..], acc);
      MergedMonotone(next, files[1..], files[0].contents.value);
      assert forall i :: 1 <= i < |files| ==> files[i] == files[1..][i - 1];
    }
  }

  /** Each value of the result was written by the start map or by some counted log. */
  lemma {:induction false} MergedIsAttained(acc: map<string, UpdateType>, files: seq<LogFile>, k: string)
    requires Merged(acc, files).Ok? && k in Merged(acc, files).value
    ensures (k in acc && Merged(acc, files).value[k] == acc[k])
      || exists i :: 0 <= i < |files| && Counted(files[i]) && k in files[i].contents.value
           && files[i].contents.value[k] == Merged(acc, files).value[k]
    decreases |files|
  {
    if files != [] {
      var v := Merged(acc, files).value[k];
      if !IsLog(files[0]) {
        MergedIsAttained(acc, files[1..], k);
        if !(k in acc && v == acc[k]) {
          var j :| 0 <= j < |files[1..]| && Counted(files[1..][j]) && k in files[1..][j].contents.value
            && files[1..][j].contents.value[k] == v;
          assert files[j + 1] == files[1..][j];
        }
      } else {
        var next := MergeLog(acc, files[0].contents.value);
        MergedIsAttained(next, files[1..], k);
        if k in next && v == next[k] {
        } else {
          var j :| 0 <= j < |files[1..]| && Counted(files[1..][j]) && k in files[1..][j].contents.value
            && files[1..][j].contents.value[k] == v;
          assert files[j + 1] == files[1..][j];
        }
      }
    }
  }

  /** Merging two logs in either order gives the same map. */
  lemma MergeLogCommutes(a: map<string, UpdateType>, b: map<string, UpdateType>)
    ensures MergeLog(a, b) == MergeLog(b, a)
  {
    forall k | k in a && k in b ensures MergeLog(a, b)[k] == MergeLog(b, a)[k] {
      DiscriminantInjective(a[k], b[k]);
    }
  }

  lemma MergeLogAssociates(a: map<string, UpdateType>, b: map<string, UpdateType>, c: map<string, UpdateType>)
    ensures MergeLog(MergeLog(a, b), c) == MergeLog(a, MergeLog(b, c))
  {
    forall k | k in a.Keys + b.Keys + c.Keys ensures MergeLog(MergeLog(a, b), c)[k] == MergeLog(a, MergeLog(b, c))[k] {
      if k in a && k in b { DiscriminantInjective(a[k], b[k]); }
      if k in b && k in c { DiscriminantInjective(b[k], c[k]); }
      if k in a && k in c { DiscriminantInjective(a[k], c[k]); }
    }
  }

  /** Merging a log into a map that already dominates it changes nothing. */
  lemma MergeLogAbsorbs(m: map<string, UpdateType>, changes: map<string, UpdateType>)
    requires Dominates(m, changes)
    ensures MergeLog(m, changes) == m
  {
  }

  /** Two neighbouring logs can be listed in either order. */
  lemma SwapNeighbours(acc: map<string, UpdateType>, f: LogFile, g: LogFile, rest: seq<LogFile>)
    requires Counted(f) && Counted(g)
    ensures Merged(acc, [f, g] + rest) == Merged(acc, [g, f] + rest)
  {
    assert ([f, g] + rest)[1..] == [g] + rest && ([g] + rest)[1..] == rest;
    assert ([g, f] + rest)[1..] == [f] + rest && ([f] + rest)[1..] == rest;
    MergeLogAssociates(acc, f.contents.value, g.contents.value);
    MergeLogAssociates(acc, g.contents.value, f.contents.value);
    MergeLogCommutes(f.contents.value, g.contents.value);
  }

  lemma {:induction false} MergedAppend(acc: map<string, UpdateType>, files: seq<LogFile>, f: LogFile)
    requires Merged(acc, files).Ok? && Counted(f)
    ensures Merged(acc, files + [f]) == Ok(MergeLog(Merged(acc, files).value, f.contents.value))
    decreases |files|
  {
    if files == [] {
      assert files + [f] == [f];
    } else {
      assert (files + [f])[1..] == files[1..] + [f];
      if !IsLog(files[0]) {
        MergedAppend(acc, files[1..], f);
      } else {
        MergedAppend(MergeLog(acc, files[0].contents.value), files[1..], f);
      }
    }
  }

  /** Listing an already merged log a second time changes nothing. */
  lemma RepeatedLogIsNoOp(acc: map<string, UpdateType>, files: seq<LogFile>, i: nat)
    requires Merged(acc, files).Ok? && i < |files| && Counted(files[i])
    ensures Merged(acc, files + [files[i]]) == Merged(acc, files)
  {
    MergedIsUpperBound(acc, files);
    MergedAppend(acc, files, files[i]);
    MergeLogAbsorbs(Merged(acc, files).value, files[i].contents.value);
  }

  /** Under the derived order Patch is the greatest bump, so a Patch log wins over a Major one. */
  lemma PatchBeatsMajor(key: string)
    ensures Merged(map[], [LogFile("a.json", Ok(map[key := Major])), LogFile("b.json", Ok(map[key := Patch]))])
      == Ok(map[key := Patch])
  {
    var f := LogFile("a.json", Ok(map[key := Major]));
    var g := LogFile("b.json", Ok(map[key := Patch]));
    assert IsLog(f) && IsLog(g);
    var afterF := MergeLog(map[], map[key := Major]);
    assert afterF == map[key := Major];
    var afterG := MergeLog(afterF, map[key := Patch]);
    assert afterG == map[key := Patch];
    assert Merged(afterG, []) == Ok(afterG);
    assert [f, g][1..] == [g] && [g][1..] == [];
    assert Merged(afterF, [g]) == Merged(afterG, []);
  }
}
