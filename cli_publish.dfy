/**
 * The `publish` command of the CLI: keep the projects of the requested
 * languages and relative paths, order them with `sort_by_dependencies`,
 * stop early when nothing is left, on a dry run or a declined
 * confirmation, then publish every project even after failures and fail
 * at the end when any of them failed.
 *
 * Project discovery, the prompter and the publish call itself are oracles:
 * the discovered projects, the prompter's answer and a function giving
 * each project's publish outcome are parameters, as is the `Display` text
 * of a project.
 */
module CliPublish {
  import opened Wrappers
  import opened Text
  import opened Languages
  import opened Projects
  import DependencyOrder

  datatype Format = Stdout | Json

  /** The arguments the filtering and the loop look at. */
  datatype PublishArgs = PublishArgs(dryRun: bool, yes: bool, format: Format, languages: seq<Language>, projects: seq<string>)

  /** `PublishResult`: success, and the error's text on failure. */
  datatype PublishResult = PublishResult(success: bool, error: Option<string>)

  // ---------------------------------------------------------------------
  // Filtering
  // ---------------------------------------------------------------------

  /** `Vec::retain`: the elements that pass, in their order. */
  function Retain<T>(s: seq<T>, keep: T -> bool): (r: seq<T>)
    ensures |r| <= |s|
    ensures forall i :: 0 <= i < |r| ==> r[i] in s && keep(r[i])
    ensures forall i :: 0 <= i < |s| && keep(s[i]) ==> s[i] in r
  {
    if s == [] then []
    else Retain(s[..|s| - 1], keep) + (if keep(s[|s| - 1]) then [s[|s| - 1]] else [])
  }

  /** Retaining distributes over concatenation, so the kept elements keep their relative order. */
  lemma {:induction false} RetainAppend<T>(a: seq<T>, b: seq<T>, keep: T -> bool)
    ensures Retain(a + b, keep) == Retain(a, keep) + Retain(b, keep)
    decreases |b|
  {
    if b == [] {
      assert a + b == a;
    } else {
      var b' := b[..|b| - 1];
      assert (a + b)[..|a + b| - 1] == a + b';
      assert (a + b)[|a + b| - 1] == b[|b| - 1];
      RetainAppend(a, b', keep);
    }
  }

  /** `replace('\\', "/")`. */
  function Normalize(s: string): (r: string)
    ensures |r| == |s|
    ensures forall i :: 0 <= i < |s| ==> r[i] == if s[i] == '\\' then '/' else s[i]
  {
    if s == [] then [] else Normalize(s[..|s| - 1]) + [if s[|s| - 1] == '\\' then '/' else s[|s| - 1]]
  }

  /** The language filter: everything when no language is given, else the listed languages. */
  predicate LanguageAllowed(languages: seq<Language>, p: Project) {
    languages == [] || p.language in languages
  }

  /** The path filter: everything when no path is given, else a path equal to one given, up to separators. */
  predicate PathSelected(paths: seq<string>, p: Project) {
    paths == [] || exists q :: q in paths && Normalize(p.relativePath) == Normalize(q)
  }

  /** The projects that survive both filters, in discovery order. */
  function Selected(found: seq<Project>, args: PublishArgs): seq<Project> {
    var byLanguage := Retain(found, (p: Project) => LanguageAllowed(args.languages, p));
    Retain(byLanguage, (p: Project) => PathSelected(args.projects, p))
  }

  /** A project survives exactly when it passes both filters. */
  lemma SelectedMembers(found: seq<Project>, args: PublishArgs, p: Project)
    ensures p in Selected(found, args) <==> p in found && LanguageAllowed(args.languages, p) && PathSelected(args.projects, p)
  {
  }

  /** Separators do not matter: a Windows-style argument selects the project with the Unix-style path. */
  lemma BackslashSelects(found: seq<Project>, args: PublishArgs, p: Project, q: string)
    requires p in found && LanguageAllowed(args.languages, p) && q in args.projects
    requires Normalize(p.relativePath) == Normalize(q)
    ensures p in Selected(found, args)
  {
  }

  // ---------------------------------------------------------------------
  // What the publish loop records
  // ---------------------------------------------------------------------

  /** `failed_projects` after the loop: the display text of each failed project, in publish order. */
  function Failed(ps: seq<Project>, publish: Project -> Result<()>, display: Project -> string): (names: seq<string>)
    ensures |names| <= |ps|
  {
    if ps == [] then []
    else
      var last := ps[|ps| - 1];
      Failed(ps[..|ps| - 1], publish, display) + (if publish(last).Err? then [display(last)] else [])
  }

  /** Nothing is recorded as failed exactly when every publish succeeded. */
  lemma {:induction false} FailedEmpty(ps: seq<Project>, publish: Project -> Result<()>, display: Project -> string)
    ensures Failed(ps, publish, display) == [] <==> forall i :: 0 <= i < |ps| ==> publish(ps[i]).Ok?
  {
    if ps != [] {
      FailedEmpty(ps[..|ps| - 1], publish, display);
      assert forall i :: 0 <= i < |ps| - 1 ==> ps[..|ps| - 1][i] == ps[i];
    }
  }

  /** Every failed project is named, and only failed projects are. */
  lemma {:induction false} FailedNames(ps: seq<Project>, publish: Project -> Result<()>, display: Project -> string)
    ensures forall i :: 0 <= i < |ps| && publish(ps[i]).Err? ==> display(ps[i]) in Failed(ps, publish, display)
    ensures forall n :: n in Failed(ps, publish, display) ==> exists i :: 0 <= i < |ps| && publish(ps[i]).Err? && n == display(ps[i])
  {
    if ps != [] {
      var init := ps[..|ps| - 1];
      FailedNames(init, publish, display);
      assert forall i :: 0 <= i < |init| ==> init[i] == ps[i];
    }
  }

  /** `result_map` in JSON mode: one record per relative path, from the last project published there. */
  function Records(ps: seq<Project>, publish: Project -> Result<()>): (m: map<string, PublishResult>)
    ensures forall i :: 0 <= i < |ps| ==> ps[i].relativePath in m
  {
    if ps == [] then map[]
    else
      var last := ps[|ps| - 1];
      var init := Records(ps[..|ps| - 1], publish);
      assert forall i :: 0 <= i < |ps| - 1 ==> ps[..|ps| - 1][i] == ps[i];
      init[last.relativePath := RecordOf(publish(last))]
  }

  function RecordOf(r: Result<()>): (rec: PublishResult)
    ensures rec.success <==> r.Ok?
    ensures rec.error == if r.Ok? then None else Some(r.error)
  {
    if r.Ok? then PublishResult(true, None) else PublishResult(false, Some(r.error))
  }

  /** Each record is that of a project published at its path, and successful exactly when that publish was. */
  lemma RecordsFromProjects(ps: seq<Project>, publish: Project -> Result<()>, key: string)
    requires key in Records(ps, publish)
    ensures exists i :: (0 <= i < |ps| && ps[i].relativePath == key
                         && Records(ps, publish)[key] == RecordOf(publish(ps[i]))
                         && forall j :: i < j < |ps| ==> ps[j].relativePath != key)
  {
    var i := RecordIndex(ps, publish, key);
  }

  /** The position of the last project published at `key`, whose record the map holds. */
  lemma {:induction false} RecordIndex(ps: seq<Project>, publish: Project -> Result<()>, key: string) returns (i: nat)
    requires key in Records(ps, publish)
    ensures i < |ps| && ps[i].relativePath == key && Records(ps, publish)[key] == RecordOf(publish(ps[i]))
    ensures forall j :: i < j < |ps| ==> ps[j].relativePath != key
  {
    assert ps != [];
    var init := ps[..|ps| - 1];
    var last := ps[|ps| - 1];
    if last.relativePath == key {
      i := |ps| - 1;
    } else {
      assert Records(ps, publish) == Records(init, publish)[last.relativePath := RecordOf(publish(last))];
      i := RecordIndex(init, publish, key);
      assert ps[i] == init[i];
      forall j | i < j < |ps|
        ensures ps[j].relativePath != key
      {
        if j < |ps| - 1 {
          assert ps[j] == init[j];
        }
      }
    }
  }

  /** The error `handle_publish` ends with when some publish failed. */
  function FailureMessage(failed: seq<string>): string {
    "Failed to publish " + DecimalString(|failed|) + " project(s): " + Join(failed, ", ")
  }

  /** `publish_result_from_failures`: an error naming the count, the total and every failed project. */
  function PublishResultFromFailures(failed: seq<string>, total: nat): (r: Result<()>)
    ensures r.Err? <==> failed != []
    ensures r.Err? ==> forall i :: 0 <= i < |failed| ==> Contains(r.error, failed[i])
    ensures r.Err? ==> Contains(r.error, DecimalString(|failed|) + " of " + DecimalString(total))
  {
    if failed == [] then Ok(())
    else
      var count := DecimalString(|failed|) + " of " + DecimalString(total);
      var names := Join(failed, ", ");
      var msg := "Failed to publish " + count + " project(s): " + names;
      assert OccursAt(msg, count, 18);
      forall i | 0 <= i < |failed|
        ensures Contains(msg, failed[i])
      {
        var k := JoinContains(failed, ", ", i);
        assert OccursAt(msg, failed[i], |msg| - |names| + k) by {
          assert msg[|msg| - |names|..] == names;
          assert msg[|msg| - |names| + k..|msg| - |names| + k + |failed[i]|] == names[k..k + |failed[i]|];
        }
      }
      Err(msg)
  }

  /** Each part of a join occurs in it. */
  lemma {:induction false} JoinContains(parts: seq<string>, sep: string, i: nat) returns (k: nat)
    requires i < |parts|
    ensures OccursAt(Join(parts, sep), parts[i], k)
  {
    if |parts| == 1 {
      k := 0;
    } else if i == 0 {
      k := 0;
      assert Join(parts, sep) == parts[0] + (sep + Join(parts[1..], sep));
    } else {
      var k' := JoinContains(parts[1..], sep, i - 1);
      var rest := Join(parts[1..], sep);
      var pre := parts[0] + sep;
      assert Join(parts, sep) == pre + rest;
      k := |pre| + k';
      assert (pre + rest)[k..k + |parts[i]|] == rest[k'..k' + |parts[i]|];
    }
  }

  /** The failure message names every failed project. */
  lemma FailureMessageNames(failed: seq<string>, i: nat)
    requires i < |failed|
    ensures Contains(FailureMessage(failed), failed[i])
  {
    var names := Join(failed, ", ");
    var msg := FailureMessage(failed);
    var k := JoinContains(failed, ", ", i);
    assert msg[|msg| - |names|..] == names;
    assert msg[|msg| - |names| + k..|msg| - |names| + k + |failed[i]|] == names[k..k + |failed[i]|];
    assert OccursAt(msg, failed[i], |msg| - |names| + k);
  }

  // ---------------------------------------------------------------------
  // The command
  // ---------------------------------------------------------------------

  /** Whether the command stops before publishing anything: no project, a dry run, or no confirmation. */
  predicate StopsEarly(selected: seq<Project>, args: PublishArgs, confirm: Result<bool>) {
    selected == [] || args.dryRun || (!args.yes && confirm.Ok? && !confirm.value)
  }

  /** The loop over the ordered projects: publish each, record failures and (in JSON mode) results. */
  method PublishAll(projects: seq<Project>, format: Format, publish: Project -> Result<()>, display: Project -> string)
    returns (failed: seq<string>, results: map<string, PublishResult>)
    ensures failed == Failed(projects, publish, display)
    ensures results == if format == Json then Records(projects, publish) else map[]
  {
    failed := [];
    results := map[];
    for idx := 0 to |projects|
      invariant failed == Failed(projects[..idx], publish, display)
      invariant results == if format == Json then Records(projects[..idx], publish) else map[]
    {
      var project := projects[idx];
      assert projects[..idx + 1][..idx] == projects[..idx];
      var result := publish(project);
      if result.Ok? {
        if format == Json {
          results := results[project.relativePath := PublishResult(true, None)];
        }
      } else {
        if format == Json {
          results := results[project.relativePath := PublishResult(false, Some(result.error))];
        }
        failed := failed + [display(project)];
      }
    }
    assert projects[..|projects|] == projects;
  }

  /** The two `retain` calls: by language when languages are given, then by path when paths are. */
  method FilterProjects(found: seq<Project>, args: PublishArgs) returns (filtered: seq<Project>)
    ensures filtered == Selected(found, args)
  {
    var byLanguage := found;
    if args.languages != [] {
      byLanguage := Retain(found, (p: Project) => p.language in args.languages);
      assert byLanguage == Retain(found, (p: Project) => LanguageAllowed(args.languages, p)) by {
        RetainSame(found, (p: Project) => p.language in args.languages, (p: Project) => LanguageAllowed(args.languages, p));
      }
    } else {
      RetainAll(found, (p: Project) => LanguageAllowed(args.languages, p));
    }
    filtered := byLanguage;
    if args.projects != [] {
      filtered := Retain(byLanguage, (p: Project) => exists q :: q in args.projects && Normalize(p.relativePath) == Normalize(q));
      assert filtered == Selected(found, args) by {
        RetainSame(byLanguage, (p: Project) => exists q :: q in args.projects && Normalize(p.relativePath) == Normalize(q),
                   (p: Project) => PathSelected(args.projects, p));
      }
    } else {
      RetainAll(byLanguage, (p: Project) => PathSelected(args.projects, p));
    }
  }

  /**
   * `handle_publish_with_prompter`. `attempted` lists the projects that
   * were published, in order; `order` is where each came from in the
   * filtered list, as `sort_by_dependencies` arranged it.
   */
  method HandlePublish(args: PublishArgs, found: seq<Project>, confirm: Result<bool>,
                       publish: Project -> Result<()>, display: Project -> string)
    returns (r: Result<()>, attempted: seq<Project>, results: map<string, PublishResult>, order: seq<nat>, ghost k: nat)
    ensures var selected := Selected(found, args);
      (StopsEarly(selected, args, confirm) ==> r == Ok(()) && attempted == [] && results == map[])
      && (!StopsEarly(selected, args, confirm) && !args.yes && confirm.Err? ==>
            r == Err(confirm.error) && attempted == [] && results == map[])
      && (!StopsEarly(selected, args, confirm) && (args.yes || confirm.Ok?) ==>
            DependencyOrder.ValidOrder(selected, order, k)
            && |attempted| == |selected| && (forall i :: 0 <= i < |attempted| ==> attempted[i] == selected[order[i]])
            && results == (if args.format == Json then Records(attempted, publish) else map[])
            && r == (if Failed(attempted, publish, display) == [] then Ok(())
                     else Err(FailureMessage(Failed(attempted, publish, display)))))
  {
    var filtered := FilterProjects(found, args);
    var sorted;
    sorted, order, k := DependencyOrder.SortByDependencies(filtered);
    attempted := [];
    results := map[];
    if |sorted| == 0 || args.dryRun {
      return Ok(()), attempted, results, order, k;
    }
    var confirmed := true;
    if !args.yes {
      if confirm.Err? {
        return Err(confirm.error), attempted, results, order, k;
      }
      confirmed := confirm.value;
    }
    if !confirmed {
      return Ok(()), attempted, results, order, k;
    }
    var failed;
    failed, results := PublishAll(sorted, args.format, publish, display);
    attempted := sorted;
    if |failed| > 0 {
      return Err(FailureMessage(failed)), attempted, results, order, k;
    }
    r := Ok(());
  }

  /** Retaining with two tests that agree everywhere gives the same list. */
  lemma {:induction false} RetainSame<T>(s: seq<T>, f: T -> bool, g: T -> bool)
    requires forall x :: f(x) == g(x)
    ensures Retain(s, f) == Retain(s, g)
  {
    if s != [] {
      RetainSame(s[..|s| - 1], f, g);
    }
  }

  /** Retaining with a test every element passes keeps the whole list. */
  lemma {:induction false} RetainAll<T>(s: seq<T>, keep: T -> bool)
    requires forall i :: 0 <= i < |s| ==> keep(s[i])
    ensures Retain(s, keep) == s
  {
    if s != [] {
      var init, last := s[..|s| - 1], s[|s| - 1];
      assert keep(last);
      assert Retain(s, keep) == Retain(init, keep) + [last];
      assert forall i :: 0 <= i < |init| ==> keep(init[i]) by {
        assert forall i :: 0 <= i < |init| ==> init[i] == s[i];
      }
      RetainAll(init, keep);
      assert init + [last] == s;
    }
  }

  /**
   * The command fails exactly when some publish failed, and every project
   * is attempted whatever failed before it.
   */
  lemma FailsAtEnd(attempted: seq<Project>, publish: Project -> Result<()>, display: Project -> string)
    ensures var failed := Failed(attempted, publish, display);
      (failed == [] <==> forall i :: 0 <= i < |attempted| ==> publish(attempted[i]).Ok?)
      && forall i :: 0 <= i < |attempted| && publish(attempted[i]).Err? ==>
           Contains(FailureMessage(failed), display(attempted[i]))
  {
    FailedEmpty(attempted, publish, display);
    FailedNames(attempted, publish, display);
    var failed := Failed(attempted, publish, display);
    forall i | 0 <= i < |attempted| && publish(attempted[i]).Err?
      ensures Contains(FailureMessage(failed), display(attempted[i]))
    {
      var j :| 0 <= j < |failed| && failed[j] == display(attempted[i]);
      FailureMessageNames(failed, j);
    }
  }
}
