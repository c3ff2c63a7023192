/**
  The prompt scripts step by step (scripts/sync_prompts.py, scripts/deploy_prompts.py), over a working
  directory with its git index and history, and Langfuse production.
 */
module PromptScripts {
  import opened PromptProtocol
  import opened Wrappers

  class Workspace {
    var files: map<Name, Text>
    var index: map<Name, Text>
    var history: map<Name, Log>
  }

  class Langfuse {
    var production: map<Name, Text>
  }

  function WorldOf(ws: Workspace, lf: Langfuse): World
    reads ws, lf
  {
    World(ws.files, ws.index, ws.history, lf.production)
  }

  ghost predicate Planned(actions: seq<Action>, names: seq<Name>, w: World, down: set<Name>) {
    && |actions| == |names|
    && forall i :: 0 <= i < |names| ==>
         && names[i] in w.files
         && actions[i].name == names[i]
         && actions[i].status == StatusOf(w, names[i], down)
         && (actions[i].status == Collect ==> actions[i].remoteText == w.remote[names[i]])
  }

  method PlanActions(names: seq<Name>, ws: Workspace, lf: Langfuse, down: set<Name>) returns (actions: seq<Action>)
    requires Listing(names, ws.files)
    ensures Planned(actions, names, WorldOf(ws, lf), down)
  {
    actions := [];
    for i := 0 to |names|
      invariant Planned(actions, names[..i], WorldOf(ws, lf), down)
    {
      var name := names[i];
      var local := ws.files[name];
      var status, remote := RemoteError, "";
      if name !in down {
        if name !in lf.production {
          status := LocalOnly;
        } else {
          remote := lf.production[name];
          if local == remote {
            status := InSync;
          } else {
            var versions := if name in ws.history then ws.history[name] else [];
            var matched := FirstMatch(versions, remote, HISTORY_LIMIT);
            status := if matched.Some? then Rollback else Collect;
          }
        }
      }
      actions := actions + [Action(name, status, remote)];
    }
    assert names[..|names|] == names;
  }

  function Done(names: seq<Name>): set<Name> {
    set n | n in names
  }

  lemma DoneNext(names: seq<Name>, i: nat)
    requires i < |names| && forall j, k :: 0 <= j < k < |names| ==> names[j] != names[k]
    ensures Done(names[..i + 1]) == Done(names[..i]) + {names[i]} && names[i] !in Done(names[..i])
  {
  }

  /** Name `k` is a conflict; a dry run looks at the world as it was before. */
  ghost predicate ReportsConflict(names: seq<Name>, k: nat, w: World, down: set<Name>, dryRun: bool)
    requires k < |names| && forall n :: n in names ==> n in w.files
  {
    if dryRun then StatusOf(w, names[k], down) == Collect && Uncommitted(w, names[k]) else ConflictAt(w, names, k, down)
  }

  /** What the report lists say of the first `i` names. */
  ghost predicate Reported(conflicts: seq<Name>, rollbacks: seq<Name>, names: seq<Name>, i: nat, w: World,
                           down: set<Name>, dryRun: bool)
    requires i <= |names| && forall n :: n in names ==> n in w.files
  {
    && (forall n :: n in conflicts <==> exists k :: 0 <= k < i && names[k] == n && ReportsConflict(names, k, w, down, dryRun))
    && forall n :: n in rollbacks <==> exists k :: 0 <= k < i && names[k] == n && StatusOf(w, n, down) == Rollback
  }

  lemma ReportOne(conflicts: seq<Name>, rollbacks: seq<Name>, names: seq<Name>, i: nat, w: World, down: set<Name>,
                  dryRun: bool)
    requires i < |names| && (forall n :: n in names ==> n in w.files)
    requires Reported(conflicts, rollbacks, names, i, w, down, dryRun)
    ensures Reported(if ReportsConflict(names, i, w, down, dryRun) then conflicts + [names[i]] else conflicts,
                     if StatusOf(w, names[i], down) == Rollback then rollbacks + [names[i]] else rollbacks,
                     names, i + 1, w, down, dryRun)
  {
    hide StatusOf, ReportsConflict;
  }

  /** One action: refuse, report a conflict, or write the file, add it to the index and commit. */
  method ApplyOne(a: Action, ws: Workspace, lf: Langfuse, dryRun: bool) returns (conflict: bool)
    requires a.name in ws.files
    modifies ws
    ensures var w, w' := old(WorldOf(ws, lf)), WorldOf(ws, lf);
            && conflict == (a.status == Collect && Uncommitted(w, a.name))
            && w' == if a.status == Collect && !Uncommitted(w, a.name) && !dryRun
                     then Collected(w, a.name, a.remoteText) else w
  {
    conflict := false;
    if a.status != Collect {
      return;
    }
    if Uncommitted(WorldOf(ws, lf), a.name) {
      conflict := true;
    } else if !dryRun {
      ws.files := ws.files[a.name := a.remoteText];
      ws.index := ws.index[a.name := ws.files[a.name]];
      ws.history := Commit(WorldOf(ws, lf)).history;
    }
  }

  /** The actions in turn; every one sees what the commits before it have made of the index and the history. */
  method ApplyActions(actions: seq<Action>, ws: Workspace, lf: Langfuse, dryRun: bool,
                      ghost names: seq<Name>, ghost down: set<Name>)
    returns (code: int, conflicts: seq<Name>, rollbacks: seq<Name>)
    requires Listing(names, ws.files) && Planned(actions, names, WorldOf(ws, lf), down)
    modifies ws
    ensures WorldOf(ws, lf) == if dryRun then old(WorldOf(ws, lf)) else Sync(old(WorldOf(ws, lf)), names, down)
    ensures Reported(conflicts, rollbacks, names, |names|, old(WorldOf(ws, lf)), down, dryRun)
    ensures code == if conflicts == [] && rollbacks == [] then 0 else 1
  {
    hide SyncTo, Reported, StatusOf, Collected, Uncommitted, ConflictAt, ReportsConflict;
    ghost var w := WorldOf(ws, lf);
    conflicts, rollbacks := [], [];
    NothingReported(names, w, down, dryRun);
    for i := 0 to |actions|
      invariant WorldOf(ws, lf) == if dryRun then w else SyncTo(w, names, i, down)
      invariant Reported(conflicts, rollbacks, names, i, w, down, dryRun)
    {
      var a := actions[i];
      SyncOneMore(w, names, i, down);
      ConflictNow(w, names, i, down, dryRun);
      ReportOne(conflicts, rollbacks, names, i, w, down, dryRun);
      var conflict := ApplyOne(a, ws, lf, dryRun);
      if a.status == Rollback {
        rollbacks := rollbacks + [a.name];
      }
      if conflict {
        conflicts := conflicts + [a.name];
      }
    }
    code := if conflicts != [] || rollbacks != [] then 1 else 0;
  }

  lemma ConflictNow(w: World, names: seq<Name>, k: nat, down: set<Name>, dryRun: bool)
    requires k < |names| && forall n :: n in names ==> n in w.files
    ensures var s := if dryRun then w else SyncTo(w, names, k, down);
            ReportsConflict(names, k, w, down, dryRun)
            <==> StatusOf(w, names[k], down) == Collect && Uncommitted(s, names[k])
  {
  }

  lemma NothingReported(names: seq<Name>, w: World, down: set<Name>, dryRun: bool)
    requires forall n :: n in names ==> n in w.files
    ensures SyncTo(w, names, 0, down) == w && Reported([], [], names, 0, w, down, dryRun)
  {
  }

  method Precheck(names: seq<Name>, o: Options, ws: Workspace, lf: Langfuse, down: set<Name>)
    returns (mismatched: seq<Name>, unreachable: seq<Name>, identical: seq<Name>, stale: seq<Name>)
    requires Listing(names, ws.files)
    ensures var w := WorldOf(ws, lf);
            && (forall n :: n in mismatched <==> n !in o.exclude && Mismatched(w, n, down))
            && (forall n :: n in unreachable <==> n in names && n !in o.exclude && n in down)
            && (forall n :: n in identical <==>
                  n in names && n !in o.exclude && n !in down && n in w.remote && w.files[n] == w.remote[n])
            && forall n :: n in stale <==> n !in o.exclude && Stale(w, n, down)
  {
    ghost var w := WorldOf(ws, lf);
    mismatched, unreachable, identical, stale := [], [], [], [];
    for i := 0 to |names|
      invariant forall n :: n in mismatched <==> n in names[..i] && n !in o.exclude && Mismatched(w, n, down)
      invariant forall n :: n in unreachable <==> n in names[..i] && n !in o.exclude && n in down
      invariant forall n :: n in identical <==> n in names[..i] && n !in o.exclude && Identical(w, n, down)
      invariant forall n :: n in stale <==> n in names[..i] && n !in o.exclude && Stale(w, n, down)
    {
      hide FirstMatch;
      var name := names[i];
      if name !in o.exclude {
        if name in down {
          unreachable := unreachable + [name];
        } else if name in lf.production {
          var local, remote := ws.files[name], lf.production[name];
          var versions := if name in ws.history then ws.history[name] else [];
          if local == remote {
            identical := identical + [name];
          } else if versions != [] && versions[0] == Some(remote) {
            // local is ahead of production
          } else if FirstMatch(versions, remote, HISTORY_LIMIT).Some? {
            stale := stale + [name];
          } else {
            mismatched := mismatched + [name];
          }
        }
      }
    }
    assert names[..|names|] == names;
  }

  lemma PublishOneMore(w: World, done: set<Name>, n: Name, o: Options, down: set<Name>, fails: set<Name>)
    requires n in w.files && n !in done
    ensures var s, t := PublishOn(w, done, o, down, fails), PublishOn(w, done + {n}, o, down, fails);
            t == if Publishes(w, n, o, down, fails) then s.(remote := s.remote[n := w.files[n]]) else s
  {
    var s, t := PublishOn(w, done, o, down, fails), PublishOn(w, done + {n}, o, down, fails);
    assert t.remote == if Publishes(w, n, o, down, fails) then s.remote[n := w.files[n]] else s.remote;
  }

  lemma PublishNone(w: World, o: Options, down: set<Name>, fails: set<Name>)
    ensures PublishOn(w, {}, o, down, fails) == w
  {
    assert PublishOn(w, {}, o, down, fails).remote == w.remote;
  }

  /** Some prompt that should have been published was refused by Langfuse. */
  ghost predicate SomeFailed(w: World, o: Options, down: set<Name>, fails: set<Name>) {
    exists n :: n in fails && n in w.files && n !in o.exclude && (o.force || !Identical(w, n, down))
  }

  /** The prompts of `done` that should have been published and were refused. */
  ghost function FailedAmong(done: set<Name>, w: World, o: Options, down: set<Name>, fails: set<Name>): set<Name> {
    set n | n in done && n in w.files && n in fails && n !in o.exclude && (o.force || !Identical(w, n, down))
  }

  lemma FailedNext(done: set<Name>, name: Name, w: World, o: Options, down: set<Name>, fails: set<Name>)
    requires name !in done && name in w.files
    ensures |FailedAmong(done + {name}, w, o, down, fails)| == |FailedAmong(done, w, o, down, fails)|
            + if name in fails && name !in o.exclude && (o.force || !Identical(w, name, down)) then 1 else 0
  {
    hide Identical;
    var before := FailedAmong(done, w, o, down, fails);
    assert FailedAmong(done + {name}, w, o, down, fails) ==
           if name in fails && name !in o.exclude && (o.force || !Identical(w, name, down)) then before + {name} else before;
  }

  /** The publish loop as it has treated the first `i` names. */
  ghost function PublishTo(w: World, names: seq<Name>, i: nat, o: Options, down: set<Name>, fails: set<Name>): World
    requires i <= |names|
  {
    PublishOn(w, Done(names[..i]), o, down, fails)
  }

  ghost function FailedTo(w: World, names: seq<Name>, i: nat, o: Options, down: set<Name>, fails: set<Name>): nat
    requires i <= |names|
  {
    |FailedAmong(Done(names[..i]), w, o, down, fails)|
  }

  lemma PublishToEnds(w: World, names: seq<Name>, o: Options, down: set<Name>, fails: set<Name>)
    requires Listing(names, w.files)
    ensures PublishTo(w, names, 0, o, down, fails) == w && FailedTo(w, names, 0, o, down, fails) == 0
    ensures PublishTo(w, names, |names|, o, down, fails) == PublishOn(w, w.files.Keys, o, down, fails)
    ensures FailedTo(w, names, |names|, o, down, fails) == |FailedAmong(w.files.Keys, w, o, down, fails)|
  {
    hide PublishOn, Identical;
    PublishNone(w, o, down, fails);
    assert Done(names[..0]) == {} && FailedAmong({}, w, o, down, fails) == {};
    assert names[..|names|] == names && Done(names) == w.files.Keys;
  }

  lemma PublishToNext(w: World, names: seq<Name>, i: nat, o: Options, down: set<Name>, fails: set<Name>)
    requires Listing(names, w.files) && i < |names|
    ensures var s, t, n := PublishTo(w, names, i, o, down, fails), PublishTo(w, names, i + 1, o, down, fails), names[i];
            && n in w.files
            && t == if Publishes(w, n, o, down, fails) then s.(remote := s.remote[n := w.files[n]]) else s
    ensures FailedTo(w, names, i + 1, o, down, fails) == FailedTo(w, names, i, o, down, fails)
            + if names[i] in fails && names[i] !in o.exclude && (o.force || !Identical(w, names[i], down)) then 1 else 0
  {
    hide PublishOn, Identical, FailedAmong, Publishes;
    DoneNext(names, i);
    FailedNext(Done(names[..i]), names[i], w, o, down, fails);
    PublishOneMore(w, Done(names[..i]), names[i], o, down, fails);
  }

  method PublishAll(names: seq<Name>, o: Options, identical: seq<Name>, ws: Workspace, lf: Langfuse,
                    fails: set<Name>, ghost down: set<Name>) returns (published: seq<Name>, fail: nat)
    requires Listing(names, ws.files)
    requires forall n :: n in identical <==> n !in o.exclude && Identical(WorldOf(ws, lf), n, down)
    modifies lf
    ensures var w := old(WorldOf(ws, lf));
            forall n :: n in published <==>
              && n in w.files && n !in o.exclude && n !in fails
              && (o.force || n in down || n !in w.remote || w.remote[n] != w.files[n])
    ensures WorldOf(ws, lf) == PublishOn(old(WorldOf(ws, lf)), ws.files.Keys, o, down, fails)
    ensures fail > 0 <==> SomeFailed(old(WorldOf(ws, lf)), o, down, fails)
    ensures fail == |FailedAmong(ws.files.Keys, old(WorldOf(ws, lf)), o, down, fails)|
  {
    hide PublishTo, FailedAmong, Identical, PublishOn, SomeFailed, FailedTo;
    ghost var w := WorldOf(ws, lf);
    published, fail := [], 0;
    PublishToEnds(w, names, o, down, fails);
    for i := 0 to |names|
      invariant WorldOf(ws, lf) == PublishTo(w, names, i, o, down, fails)
      invariant fail == FailedTo(w, names, i, o, down, fails)
      invariant forall n :: n in published <==> n in names[..i] && Publishes(w, n, o, down, fails)
    {
      var name := names[i];
      PublishToNext(w, names, i, o, down, fails);
      if name !in o.exclude && (o.force || name !in identical) {
        if name in fails {
          fail := fail + 1;
        } else {
          lf.production := lf.production[name := ws.files[name]];
          published := published + [name];
        }
      }
    }
    SomeFailedIff(w, o, down, fails);
    WhoIsPublished(w, names, o, down, fails);
  }

  lemma WhoIsPublished(w: World, names: seq<Name>, o: Options, down: set<Name>, fails: set<Name>)
    requires Listing(names, w.files)
    ensures forall n :: n in names[..|names|] && Publishes(w, n, o, down, fails) <==>
              && n in w.files && n !in o.exclude && n !in fails
              && (o.force || n in down || n !in w.remote || w.remote[n] != w.files[n])
  {
    assert names[..|names|] == names;
  }

  lemma SomeFailedIff(w: World, o: Options, down: set<Name>, fails: set<Name>)
    ensures SomeFailed(w, o, down, fails) <==> |FailedAmong(w.files.Keys, w, o, down, fails)| > 0
  {
    hide Identical;
    var failed := FailedAmong(w.files.Keys, w, o, down, fails);
    if SomeFailed(w, o, down, fails) {
      var n :| n in fails && n in w.files && n !in o.exclude && (o.force || !Identical(w, n, down));
      assert n in failed;
      assert failed == {n} + (failed - {n});
    } else {
      assert failed == {};
    }
  }

  /** The deploy script: precheck and publication in one go. */
  method DeployPrompts(names: seq<Name>, o: Options, ws: Workspace, lf: Langfuse, down: set<Name>, fails: set<Name>)
    returns (code: int)
    requires Listing(names, ws.files)
    modifies lf
    ensures WorldOf(ws, lf) == Deploy(old(WorldOf(ws, lf)), o, down, fails)
    ensures code == 0 || code == 1
    ensures code == 0 <==> names != [] && !Blocked(old(WorldOf(ws, lf)), o, down)
                           && !SomeFailed(old(WorldOf(ws, lf)), o, down, fails)
  {
    ghost var w := WorldOf(ws, lf);
    if names == [] {
      assert w.files.Keys == {};
      PublishNone(w, o, down, fails);
      return 1;
    }
    var mismatched, unreachable, identical, stale := Precheck(names, o, ws, lf, down);
    hide PublishOn, Identical, Mismatched, Stale;
    var blocked := unreachable != [] || (mismatched != [] && !o.force);
    assert blocked <==> Blocked(w, o, down) by {
      if unreachable != [] {
        assert unreachable[0] in unreachable;
      }
      if mismatched != [] {
        assert mismatched[0] in mismatched;
      }
    }
    if blocked {
      return 1;
    }
    var published, fail := PublishAll(names, o, identical, ws, lf, fails, down);
    code := if fail == 0 then 0 else 1;
  }
}
