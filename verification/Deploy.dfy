/**
  The deployment script (scripts/deploy.py): read-only checks, handling of runtime files, stash, pull,
  restart of the services whose code changed, and health probes. An environment answers every command;
  a run leaves a log of the commands and their outcomes.
 */
module Deploy {
  import opened Wrappers

  const EXIT_OK := 0
  const EXIT_REFUSED := 1
  const EXIT_FAILED := 2
  const RUNTIME_PREFIX := "data/"

  // ----- Classification of paths ---------------------------------------------

  /** The part after the last slash. */
  function Basename(path: string): (r: string)
    ensures '/' !in r
    ensures path == r || (|path| > |r| && path[|path| - |r| - 1] == '/' && path[|path| - |r|..] == r)
  {
    if path == "" then ""
    else
      var n := |path| - 1;
      if path[n] == '/' then "" else Basename(path[..n]) + [path[n]]
  }

  predicate DbAt(name: string, i: nat)
    requires i + 3 <= |name|
  {
    name[i] == '.' && name[i + 1] == 'd' && name[i + 2] == 'b'
  }

  predicate MentionsDb(name: string) {
    exists i: nat :: i + 3 <= |name| && DbAt(name, i)
  }

  predicate UnderData(path: string) {
    RUNTIME_PREFIX <= path
  }

  /** A database file under data/, which may be moved aside or discarded. */
  predicate IsRuntimeDb(path: string) {
    UnderData(path) && MentionsDb(Basename(path))
  }

  /** The paths, in their order, that satisfy `keep`. */
  function Filter(paths: seq<string>, keep: string -> bool): (r: seq<string>)
    ensures forall p :: p in r <==> p in paths && keep(p)
  {
    if paths == [] then []
    else (if keep(paths[0]) then [paths[0]] else []) + Filter(paths[1..], keep)
  }

  datatype RuntimeFilePlan = RuntimeFilePlan(moveAside: seq<string>, discard: seq<string>, blocked: seq<string>)

  function PlanRuntimeFileActions(incoming: seq<string>, untracked: set<string>, modified: set<string>): RuntimeFilePlan {
    RuntimeFilePlan(
      Filter(incoming, p => p in untracked && IsRuntimeDb(p)),
      Filter(incoming, p => p in modified && IsRuntimeDb(p)),
      Filter(incoming, p => p in untracked && !IsRuntimeDb(p)))
  }

  function ClassifyWipOverlap(modified: set<string>, incoming: seq<string>): seq<string> {
    Filter(incoming, p => p in modified)
  }

  /** Uncommitted changes to incoming files, without anything under data/. */
  function Wip(modified: set<string>, incoming: seq<string>): seq<string> {
    Filter(ClassifyWipOverlap(modified, incoming), p => !UnderData(p))
  }

  /**
    Which incoming paths with local state fall in none of the four classes: exactly the modified files under data/
    that are no database. The comments promise to treat them as uncommitted work; the code leaves them to `git pull`.
   */
  lemma UnclassifiedIff(incoming: seq<string>, untracked: set<string>, modified: set<string>, p: string)
    requires p in incoming && (p in untracked || p in modified)
    ensures var plan := PlanRuntimeFileActions(incoming, untracked, modified);
            p !in plan.moveAside && p !in plan.discard && p !in plan.blocked && p !in Wip(modified, incoming)
            <==> p in modified && p !in untracked && UnderData(p) && !IsRuntimeDb(p)
  {
    hide UnderData, IsRuntimeDb;
  }

  /** A tracked file is not untracked, so no path falls in two classes. */
  lemma OneClassAtMost(incoming: seq<string>, untracked: set<string>, modified: set<string>, p: string)
    requires untracked !! modified
    ensures var plan := PlanRuntimeFileActions(incoming, untracked, modified);
            && !(p in plan.moveAside && p in plan.discard)
            && !(p in plan.blocked && (p in plan.moveAside || p in plan.discard || p in Wip(modified, incoming)))
            && !(p in Wip(modified, incoming) && (p in plan.moveAside || p in plan.discard))
  {
    hide MentionsDb, Basename;
  }

  /** A file the plan forgets: a modified cohort file that the pull would overwrite. */
  lemma CohortFileIsForgotten(incoming: seq<string>, modified: set<string>)
    requires "data/cohort/a.json" in incoming && "data/cohort/a.json" in modified
    ensures var plan := PlanRuntimeFileActions(incoming, {}, modified);
            var path := "data/cohort/a.json";
            path !in plan.moveAside && path !in plan.discard && path !in plan.blocked && path !in Wip(modified, incoming)
  {
    hide PlanRuntimeFileActions, Wip, Basename;
    var path := "data/cohort/a.json";
    assert path == "data/cohort" + "/" + "a.json";
    SlashBeforeName("data/cohort", "a.json");
    UnclassifiedIff(incoming, {}, modified, path);
  }

  lemma {:induction false} SlashBeforeName(dir: string, name: string)
    requires '/' !in name
    ensures Basename(dir + "/" + name) == name
  {
    var path := dir + "/" + name;
    if name == "" {
      assert path[|path| - 1] == '/';
    } else {
      var n := |name| - 1;
      assert path[..|path| - 1] == dir + "/" + name[..n];
      assert path[|path| - 1] == name[n];
      SlashBeforeName(dir, name[..n]);
      assert name[..n] + [name[n]] == name;
    }
  }

  /** A file below data/ may be moved or discarded exactly when its own name, not its directory's, holds ".db". */
  lemma RuntimeDbIff(dir: string, name: string)
    requires '/' !in name && "data/" <= dir + "/"
    ensures IsRuntimeDb(dir + "/" + name) <==> exists a, b :: name == a + ".db" + b
  {
    hide Basename;
    SlashBeforeName(dir, name);
    PrefixOfLonger("data/", dir + "/", name);
    MentionsDbIff(name);
  }

  lemma PrefixOfLonger(p: string, s: string, t: string)
    requires p <= s
    ensures p <= s + t
  {
    assert (s + t)[..|p|] == s[..|p|];
  }

  lemma MentionsDbIff(name: string)
    ensures MentionsDb(name) <==> exists a, b :: name == a + ".db" + b
  {
    if MentionsDb(name) {
      var i: nat :| i + 3 <= |name| && DbAt(name, i);
      assert name == name[..i] + ".db" + name[i + 3..];
    }
    if a, b :| name == a + ".db" + b {
      assert name[|a|] == '.' && name[|a| + 1] == 'd' && name[|a| + 2] == 'b';
      assert DbAt(name, |a|);
    }
  }

  datatype Service = Backend | Frontend

  /** The services whose mounted sources the pull touches. */
  function PlanReloadServices(incoming: seq<string>): (r: seq<Service>)
    ensures Backend in r <==> exists p :: p in incoming && "src/" <= p
    ensures Frontend in r <==> exists p :: p in incoming && "frontend/" <= p
    ensures forall i, j :: 0 <= i < j < |r| ==> r[i] == Backend && r[j] == Frontend
  {
    (if exists p :: p in incoming && "src/" <= p then [Backend] else [])
    + (if exists p :: p in incoming && "frontend/" <= p then [Frontend] else [])
  }

  // ----- Environment and log -------------------------------------------------

  /** A session; its status is trimmed and in lower case. */
  datatype Session = Session(id: string, status: string)

  datatype Probe = Probe(backend: Option<int>, frontend: Option<int>)

  predicate Healthy(p: Probe) {
    p == Probe(Some(200), Some(200))
  }

  /** What every command answers; `sessions` is absent when the backend cannot be reached. */
  datatype Env = Env(
    sessions: Option<seq<Session>>,
    fetchOk: bool,
    head: Option<string>,
    originMain: Option<string>,
    incoming: Option<seq<string>>,
    modified: Option<set<string>>,
    untracked: set<string>,
    mergeClean: bool,
    discardOk: string -> bool,
    moveOk: string -> bool,
    pushOk: bool,
    pullOk: bool,
    popOk: bool,
    reloadRc: int,
    firstProbe: Probe,
    healthRc: int,
    secondProbe: Probe)

  datatype Event =
    | AskSessions
    | Fetch(ok: bool)
    | ReadState
    | Discard(path: string, ok: bool)
    | MoveAside(path: string, ok: bool)
    | StashPush(ok: bool)
    | Pull(ok: bool)
    | StashPop(ok: bool)
    | Restart(services: seq<Service>, rc: int)
    | Probed(probe: Probe)

  /** The event touches a tracked or local file, the stash or a container. */
  predicate Mutates(e: Event) {
    !e.AskSessions? && !e.Fetch? && !e.ReadState? && !e.Probed?
  }

  /** A stretch of a run: what it logs, and the exit code if it ends the run. */
  datatype Trace = Trace(events: seq<Event>, exit: Option<int>)

  function Then(a: Trace, b: Trace): Trace {
    if a.exit.Some? then a else Trace(a.events + b.events, b.exit)
  }

  // ----- The phases ----------------------------------------------------------

  function RunningOf(sessions: seq<Session>, k: nat): (r: seq<string>)
    requires k <= |sessions|
    ensures r == [] <==> forall i :: 0 <= i < k ==> sessions[i].status != "running"
  {
    if k == 0 then []
    else RunningOf(sessions, k - 1) + (if sessions[k - 1].status == "running" then [sessions[k - 1].id] else [])
  }

  predicate SessionRuns(env: Env) {
    env.sessions.Some? && RunningOf(env.sessions.value, |env.sessions.value|) != []
  }

  predicate StateKnown(env: Env) {
    env.head.Some? && env.originMain.Some? && env.incoming.Some? && env.modified.Some?
  }

  function PlanOf(env: Env): RuntimeFilePlan
    requires StateKnown(env)
  {
    PlanRuntimeFileActions(env.incoming.value, env.untracked, env.modified.value)
  }

  function WipOf(env: Env): seq<string>
    requires StateKnown(env)
  {
    Wip(env.modified.value, env.incoming.value)
  }

  predicate Behind(env: Env)
    requires StateKnown(env)
  {
    env.head != env.originMain
  }

  /** The local files stand in the way of the pull. */
  predicate InTheWay(env: Env, allowStash: bool)
    requires StateKnown(env)
  {
    PlanOf(env).blocked != [] || (WipOf(env) != [] && !(allowStash && env.mergeClean))
  }

  function Checks(env: Env, allowStash: bool): Trace {
    if SessionRuns(env) then Trace([AskSessions], Some(EXIT_REFUSED))
    else if !env.fetchOk then Trace([AskSessions, Fetch(false)], Some(EXIT_REFUSED))
    else
      Trace([AskSessions, Fetch(true), ReadState],
            if !StateKnown(env) || InTheWay(env, allowStash) then Some(EXIT_REFUSED) else None)
  }

  function Discards(env: Env, paths: seq<string>, k: nat): Trace
    requires k <= |paths|
  {
    if k == 0 then Trace([], None)
    else
      var ok := env.discardOk(paths[k - 1]);
      Then(Discards(env, paths, k - 1), Trace([Discard(paths[k - 1], ok)], if ok then None else Some(EXIT_FAILED)))
  }

  function Moves(env: Env, paths: seq<string>, k: nat): Trace
    requires k <= |paths|
  {
    if k == 0 then Trace([], None)
    else
      var ok := env.moveOk(paths[k - 1]);
      Then(Moves(env, paths, k - 1), Trace([MoveAside(paths[k - 1], ok)], if ok then None else Some(EXIT_FAILED)))
  }

  function Stashing(env: Env, wip: bool): Trace {
    if wip then Trace([StashPush(env.pushOk)], if env.pushOk then None else Some(EXIT_FAILED)) else Trace([], None)
  }

  /** A failed pull gives the stash back at once. */
  function Pulling(env: Env, stashed: bool): Trace
    requires StateKnown(env)
  {
    if !Behind(env) then Trace([], None)
    else if env.pullOk then Trace([Pull(true)], None)
    else Trace([Pull(false)] + (if stashed then [StashPop(env.popOk)] else []), Some(EXIT_FAILED))
  }

  function Popping(env: Env, stashed: bool): Trace {
    if stashed then Trace([StashPop(env.popOk)], if env.popOk then None else Some(EXIT_FAILED)) else Trace([], None)
  }

  function Reloading(env: Env): Trace
    requires StateKnown(env)
  {
    var services := PlanReloadServices(env.incoming.value);
    if Behind(env) && services != []
    then Trace([Restart(services, env.reloadRc)], if env.reloadRc == 0 then None else Some(EXIT_FAILED))
    else Trace([], None)
  }

  /** One health restart; its own return code is not looked at. */
  function Probing(env: Env): Trace {
    if Healthy(env.firstProbe) then Trace([Probed(env.firstProbe)], Some(EXIT_OK))
    else
      Trace([Probed(env.firstProbe), Restart([Backend, Frontend], env.healthRc), Probed(env.secondProbe)],
            Some(if Healthy(env.secondProbe) then EXIT_OK else EXIT_FAILED))
  }

  function RuntimeFiles(env: Env): Trace
    requires StateKnown(env)
  {
    var plan := PlanOf(env);
    Then(Discards(env, plan.discard, |plan.discard|), Moves(env, plan.moveAside, |plan.moveAside|))
  }

  function Advancing(env: Env): Trace
    requires StateKnown(env)
  {
    var wip := WipOf(env) != [];
    Then(Stashing(env, wip), Then(Pulling(env, wip), Popping(env, wip)))
  }

  function Executing(env: Env): Trace
    requires StateKnown(env)
  {
    Then(RuntimeFiles(env), Then(Advancing(env), Then(Reloading(env), Probing(env))))
  }

  function Deployment(env: Env, dryRun: bool, allowStash: bool): Trace {
    var checks := Checks(env, allowStash);
    if checks.exit.Some? then checks
    else Then(checks, if dryRun then Trace([], Some(EXIT_OK)) else Executing(env))
  }

  // ----- Refusals and dry runs -----------------------------------------------

  /** A running session stops the script before it asks for anything else. */
  lemma RunningSessionStopsAll(env: Env, dryRun: bool, allowStash: bool, s: Session)
    requires env.sessions.Some? && s in env.sessions.value && s.status == "running"
    ensures Deployment(env, dryRun, allowStash) == Trace([AskSessions], Some(EXIT_REFUSED))
  {
    var i :| 0 <= i < |env.sessions.value| && env.sessions.value[i] == s;
  }

  /** A failed fetch stops it before it looks at the files. */
  lemma FailedFetchStopsAll(env: Env, dryRun: bool, allowStash: bool)
    requires !env.fetchOk && (env.sessions.Some? ==> forall s :: s in env.sessions.value ==> s.status != "running")
    ensures Deployment(env, dryRun, allowStash) == Trace([AskSessions, Fetch(false)], Some(EXIT_REFUSED))
  {
  }

  predicate Fails(t: Trace) {
    t.exit == None || t.exit == Some(EXIT_FAILED)
  }

  lemma {:induction false} FilesOnlyFail(env: Env, paths: seq<string>, k: nat)
    requires k <= |paths|
    ensures Fails(Discards(env, paths, k)) && Fails(Moves(env, paths, k))
  {
    if k > 0 {
      FilesOnlyFail(env, paths, k - 1);
    }
  }

  /** Once the checks pass, the run is never reported as refused. */
  lemma ExecutionIsNotRefused(env: Env)
    requires StateKnown(env)
    ensures Fails(RuntimeFiles(env)) && Fails(Advancing(env)) && Fails(Reloading(env))
    ensures Executing(env).exit == Some(EXIT_OK) || Executing(env).exit == Some(EXIT_FAILED)
  {
    hide Discards, Moves, PlanRuntimeFileActions, Wip, PlanReloadServices;
    var plan := PlanOf(env);
    FilesOnlyFail(env, plan.discard, |plan.discard|);
    FilesOnlyFail(env, plan.moveAside, |plan.moveAside|);
  }

  ghost predicate IsRunning(env: Env) {
    env.sessions.Some? && exists s :: s in env.sessions.value && s.status == "running"
  }

  /** An incoming file exists locally, is not tracked, and is no runtime database. */
  ghost predicate FileInTheWay(env: Env)
    requires StateKnown(env)
  {
    exists p :: p in env.incoming.value && p in env.untracked && !IsRuntimeDb(p)
  }

  /** An incoming file outside data/ has uncommitted changes. */
  ghost predicate WorkInTheWay(env: Env)
    requires StateKnown(env)
  {
    exists p :: p in env.incoming.value && p in env.modified.value && !UnderData(p)
  }

  lemma SessionRunsIff(env: Env)
    ensures SessionRuns(env) <==> IsRunning(env)
  {
    if SessionRuns(env) {
      var i :| 0 <= i < |env.sessions.value| && env.sessions.value[i].status == "running";
      assert env.sessions.value[i] in env.sessions.value;
    }
  }

  lemma InTheWayIff(env: Env)
    requires StateKnown(env)
    ensures PlanOf(env).blocked != [] <==> FileInTheWay(env)
    ensures WipOf(env) != [] <==> WorkInTheWay(env)
  {
    hide IsRuntimeDb, UnderData, Filter;
    NonemptyIff(PlanOf(env).blocked);
    NonemptyIff(WipOf(env));
  }

  lemma NonemptyIff(paths: seq<string>)
    ensures paths != [] <==> exists p :: p in paths
  {
    if paths != [] {
      assert paths[0] in paths;
    }
  }

  /** Exactly when a deployment is refused. */
  lemma RefusedIff(env: Env, dryRun: bool, allowStash: bool)
    ensures Deployment(env, dryRun, allowStash).exit == Some(EXIT_REFUSED) <==>
              IsRunning(env) || !env.fetchOk
              || env.head == None || env.originMain == None || env.incoming == None || env.modified == None
              || FileInTheWay(env) || (WorkInTheWay(env) && !(allowStash && env.mergeClean))
  {
    hide SessionRuns, PlanOf, WipOf, Executing, IsRunning, FileInTheWay, WorkInTheWay;
    SessionRunsIff(env);
    if StateKnown(env) {
      InTheWayIff(env);
      ExecutionIsNotRefused(env);
    }
  }

  /** A refused deployment and a dry run change no file, no stash entry and no container. */
  lemma RefusalAndDryRunAreHarmless(env: Env, dryRun: bool, allowStash: bool)
    requires dryRun || Deployment(env, dryRun, allowStash).exit == Some(EXIT_REFUSED)
    ensures forall e :: e in Deployment(env, dryRun, allowStash).events ==> !Mutates(e)
  {
    hide SessionRuns, InTheWay, Executing;
    if Checks(env, allowStash).exit == None {
      ExecutionIsNotRefused(env);
    }
  }

  /** With nothing to pull, the script only probes, and restarts at most once for health. */
  lemma UpToDateOnlyProbes(env: Env, allowStash: bool)
    requires Checks(env, allowStash).exit == None && env.head == env.originMain && env.incoming.value == []
    ensures Deployment(env, false, allowStash) == Then(Checks(env, allowStash), Probing(env))
  {
    var plan := PlanOf(env);
    assert plan == RuntimeFilePlan([], [], []) && WipOf(env) == [];
  }

  // ----- The stash -----------------------------------------------------------

  function Effect(e: Event): int {
    if e == StashPush(true) then 1 else if e == StashPop(true) then -1 else 0
  }

  /** Entries pushed minus entries popped. */
  function Depth(events: seq<Event>): int {
    if events == [] then 0 else Depth(events[..|events| - 1]) + Effect(events[|events| - 1])
  }

  lemma DepthOfOne(e: Event)
    ensures Depth([e]) == Effect(e)
  {
    assert [e][..0] == [];
  }

  lemma {:induction false} DepthAdds(a: seq<Event>, b: seq<Event>)
    ensures Depth(a + b) == Depth(a) + Depth(b)
  {
    if b == [] {
      assert a + b == a;
    } else {
      var n := |b| - 1;
      DepthAdds(a, b[..n]);
      assert (a + b)[..|a + b| - 1] == a + b[..n];
    }
  }

  predicate StashFree(t: Trace) {
    forall e :: e in t.events ==> !e.StashPush? && !e.StashPop?
  }

  lemma {:induction false} StashFreeDepth(events: seq<Event>)
    requires forall e :: e in events ==> !e.StashPush? && !e.StashPop?
    ensures Depth(events) == 0
  {
    if events != [] {
      StashFreeDepth(events[..|events| - 1]);
    }
  }

  lemma {:induction false} FilesAreStashFree(env: Env, paths: seq<string>, k: nat)
    requires k <= |paths|
    ensures StashFree(Discards(env, paths, k)) && StashFree(Moves(env, paths, k))
  {
    if k > 0 {
      FilesAreStashFree(env, paths, k - 1);
    }
  }

  lemma TailIsStashFree(env: Env)
    requires StateKnown(env)
    ensures StashFree(Reloading(env)) && StashFree(Probing(env))
  {
    hide PlanReloadServices;
  }

  /** One stretch of a run after another. */
  lemma ThenDepth(a: Trace, b: Trace)
    ensures Depth(Then(a, b).events) == Depth(a.events) + if a.exit.Some? then 0 else Depth(b.events)
  {
    hide Depth;
    DepthAdds(a.events, b.events);
  }

  predicate EndsUnpopped(t: Trace) {
    t.events != [] && t.events[|t.events| - 1] == StashPop(false)
  }

  /** Once stashed, the changes are popped whether or not the pull succeeds. */
  lemma StashIsPopped(env: Env)
    requires StateKnown(env)
    ensures var t := Then(Pulling(env, true), Popping(env, true));
            && t.events != [] && t.events[|t.events| - 1] == StashPop(env.popOk)
            && Depth(t.events) == (if env.popOk then -1 else 0)
            && (!env.popOk ==> t.exit == Some(EXIT_FAILED))
  {
    hide Depth;
    DepthOfOne(StashPop(env.popOk));
    DepthOfOne(Pull(env.pullOk));
    DepthAdds([Pull(env.pullOk)], [StashPop(env.popOk)]);
    assert [] + [StashPop(env.popOk)] == [StashPop(env.popOk)];
  }

  lemma NoStashNoEffect(env: Env)
    requires StateKnown(env)
    ensures StashFree(Then(Pulling(env, false), Popping(env, false)))
  {
  }

  /** A stretch after which the stash is one deeper exactly when the last thing done was a failed pop. */
  ghost predicate Balanced(t: Trace) {
    && (Depth(t.events) == 0 || Depth(t.events) == 1)
    && (Depth(t.events) == 1 <==> EndsUnpopped(t))
    && (Depth(t.events) == 1 ==> t.exit == Some(EXIT_FAILED))
  }

  lemma StashFreeIsBalanced(t: Trace)
    requires StashFree(t)
    ensures Balanced(t) && Depth(t.events) == 0
  {
    StashFreeDepth(t.events);
    assert t.events != [] ==> t.events[|t.events| - 1] in t.events;
  }

  lemma ThenBalanced(a: Trace, b: Trace)
    requires Balanced(a) && Balanced(b)
    requires a.exit == None || a.exit == Some(EXIT_REFUSED) || a.exit == Some(EXIT_FAILED)
    ensures Balanced(Then(a, b))
  {
    hide Depth;
    ThenDepth(a, b);
    if a.exit == None {
      if b.events == [] {
        assert a.events + b.events == a.events;
      }
    }
  }

  /** Over a whole run the stash ends as it began, or one deeper: exactly when the last thing done was a failed pop. */
  lemma StashComesBack(env: Env, dryRun: bool, allowStash: bool)
    ensures var t := Deployment(env, dryRun, allowStash);
            && (Depth(t.events) == 0 || Depth(t.events) == 1)
            && (Depth(t.events) == 1 <==> t.events != [] && t.events[|t.events| - 1] == StashPop(false))
            && (Depth(t.events) == 1 ==> t.exit == Some(EXIT_FAILED))
  {
    hide SessionRuns, InTheWay, Executing, Depth;
    var checks := Checks(env, allowStash);
    StashFreeIsBalanced(checks);
    if checks.exit == None && !dryRun {
      ExecutionBalanced(env);
      ThenBalanced(checks, Executing(env));
    } else if checks.exit == None {
      assert checks.events + [] == checks.events;
    }
  }

  lemma ExecutionBalanced(env: Env)
    requires StateKnown(env)
    ensures Balanced(Executing(env))
  {
    hide RuntimeFiles, Advancing, Reloading, Probing, Balanced, StashFree, Depth;
    ExecutionIsNotRefused(env);
    RuntimeIsStashFree(env);
    TailIsStashFree(env);
    StashFreeIsBalanced(RuntimeFiles(env));
    StashFreeIsBalanced(Reloading(env));
    StashFreeIsBalanced(Probing(env));
    AdvancingIsBalanced(env);
    ThenBalanced(Reloading(env), Probing(env));
    ThenBalanced(Advancing(env), Then(Reloading(env), Probing(env)));
    ThenBalanced(RuntimeFiles(env), Then(Advancing(env), Then(Reloading(env), Probing(env))));
  }

  lemma AdvancingIsBalanced(env: Env)
    requires StateKnown(env)
    ensures Balanced(Advancing(env))
  {
    hide WipOf, Depth, Pulling, Popping, Balanced;
    var wip := WipOf(env) != [];
    var rest := Then(Pulling(env, wip), Popping(env, wip));
    if wip {
      StashedIsBalanced(env);
    } else {
      NoStashNoEffect(env);
      StashFreeIsBalanced(rest);
      assert Then(Stashing(env, wip), rest).events == rest.events;
    }
  }

  /** Pushed and popped again: one deeper exactly when the pop failed. */
  lemma StashedIsBalanced(env: Env)
    requires StateKnown(env)
    ensures Balanced(Then(Stashing(env, true), Then(Pulling(env, true), Popping(env, true))))
  {
    hide Depth, Pulling, Popping;
    var push, rest := Stashing(env, true), Then(Pulling(env, true), Popping(env, true));
    DepthOfOne(StashPush(env.pushOk));
    StashIsPopped(env);
    ThenDepth(push, rest);
  }

  lemma RuntimeIsStashFree(env: Env)
    requires StateKnown(env)
    ensures StashFree(RuntimeFiles(env))
  {
    hide Discards, Moves, PlanOf;
    var plan := PlanOf(env);
    FilesAreStashFree(env, plan.discard, |plan.discard|);
    FilesAreStashFree(env, plan.moveAside, |plan.moveAside|);
  }

  // ----- What success means --------------------------------------------------

  ghost predicate Before(events: seq<Event>, a: Event, b: Event) {
    exists i, j :: 0 <= i < j < |events| && events[i] == a && events[j] == b
  }

  lemma BeforeAcross(xs: seq<Event>, ys: seq<Event>, a: Event, b: Event)
    requires a in xs && b in ys
    ensures Before(xs + ys, a, b)
  {
    var i :| 0 <= i < |xs| && xs[i] == a;
    var j :| 0 <= j < |ys| && ys[j] == b;
    assert (xs + ys)[i] == a && (xs + ys)[|xs| + j] == b;
  }

  lemma BeforeLater(xs: seq<Event>, ys: seq<Event>, a: Event, b: Event)
    requires Before(ys, a, b)
    ensures Before(xs + ys, a, b)
  {
    var i, j :| 0 <= i < j < |ys| && ys[i] == a && ys[j] == b;
    assert (xs + ys)[|xs| + i] == a && (xs + ys)[|xs| + j] == b;
  }

  lemma ThenOk(a: Trace, b: Trace)
    requires Then(a, b).exit == Some(EXIT_OK) && a.exit != Some(EXIT_OK)
    ensures a.exit == None && b.exit == Some(EXIT_OK) && Then(a, b).events == a.events + b.events
  {
  }

  /** A successful execution went through every phase. */
  lemma OkRunsAll(env: Env)
    requires StateKnown(env) && Executing(env).exit == Some(EXIT_OK)
    ensures RuntimeFiles(env).exit == None && Advancing(env).exit == None && Reloading(env).exit == None
    ensures Probing(env).exit == Some(EXIT_OK)
    ensures Executing(env).events ==
            RuntimeFiles(env).events + (Advancing(env).events + (Reloading(env).events + Probing(env).events))
  {
    hide RuntimeFiles, Advancing, Reloading, Probing;
    ExecutionIsNotRefused(env);
    ThenOk(RuntimeFiles(env), Then(Advancing(env), Then(Reloading(env), Probing(env))));
    ThenOk(Advancing(env), Then(Reloading(env), Probing(env)));
    ThenOk(Reloading(env), Probing(env));
  }

  lemma ProbedHealthy(env: Env)
    requires Probing(env).exit == Some(EXIT_OK)
    ensures var events := Probing(env).events;
            events != [] && events[|events| - 1] == Probed(Probe(Some(200), Some(200)))
  {
  }

  lemma AdvancedPulled(env: Env)
    requires StateKnown(env) && Advancing(env).exit == None && Behind(env)
    ensures Pull(true) in Advancing(env).events
  {
    hide WipOf;
  }

  /** The reload succeeded, and it is not the last thing logged. */
  lemma ReloadedOk(env: Env)
    requires StateKnown(env) && Reloading(env).exit == None && Behind(env)
    requires PlanReloadServices(env.incoming.value) != []
    ensures Restart(PlanReloadServices(env.incoming.value), 0) in Reloading(env).events
  {
    hide PlanReloadServices;
  }

  ghost predicate LoadedThenHealthy(events: seq<Event>, services: seq<Service>) {
    exists p, r :: 0 <= p < r < |events| - 1 && events[p] == Pull(true) && events[r] == Restart(services, 0)
  }

  lemma LoadedAfter(xs: seq<Event>, pulls: seq<Event>, loads: seq<Event>, probes: seq<Event>, services: seq<Service>)
    requires Pull(true) in pulls && Restart(services, 0) in loads && probes != []
    ensures LoadedThenHealthy(xs + (pulls + (loads + probes)), services)
  {
    var i :| 0 <= i < |pulls| && pulls[i] == Pull(true);
    var j :| 0 <= j < |loads| && loads[j] == Restart(services, 0);
    var events := xs + (pulls + (loads + probes));
    assert events[|xs| + i] == Pull(true) && events[|xs| + |pulls| + j] == Restart(services, 0);
  }

  /**
    Exit code 0 outside a dry run: the last thing logged is a probe pair of 200 and 200, and if the checkout was
    behind, the pull succeeded, and the services whose code came in were restarted with code 0 between the two.
   */
  lemma OkMeansLoaded(env: Env, allowStash: bool)
    requires Deployment(env, false, allowStash).exit == Some(EXIT_OK)
    ensures StateKnown(env)
    ensures var events := Deployment(env, false, allowStash).events;
            && events != [] && events[|events| - 1] == Probed(Probe(Some(200), Some(200)))
            && (env.head != env.originMain ==> Pull(true) in events)
            && (env.head != env.originMain && PlanReloadServices(env.incoming.value) != [] ==>
                  LoadedThenHealthy(events, PlanReloadServices(env.incoming.value)))
  {
    hide SessionRuns, InTheWay, Executing, RuntimeFiles, Advancing, Reloading, Probing, PlanReloadServices;
    var checks := Checks(env, allowStash);
    OkRunsAll(env);
    ProbedHealthy(env);
    if Behind(env) {
      AdvancedPulled(env);
      var services := PlanReloadServices(env.incoming.value);
      if services != [] {
        ReloadedOk(env);
        OkOrder(env, checks.events, services);
      }
    }
  }

  lemma OkOrder(env: Env, xs: seq<Event>, services: seq<Service>)
    requires StateKnown(env) && Executing(env).exit == Some(EXIT_OK)
    requires Pull(true) in Advancing(env).events && Restart(services, 0) in Reloading(env).events
    ensures LoadedThenHealthy(xs + Executing(env).events, services)
  {
    hide Executing, RuntimeFiles, Advancing, Reloading, Probing, LoadedThenHealthy;
    OkRunsAll(env);
    ProbedHealthy(env);
    var r, a, l, p := RuntimeFiles(env).events, Advancing(env).events, Reloading(env).events, Probing(env).events;
    LoadedAfter(xs + r, a, l, p, services);
    assert xs + (r + (a + (l + p))) == (xs + r) + (a + (l + p));
  }

  // ----- What happens before a pull ------------------------------------------

  lemma {:induction false} FilesDone(env: Env, paths: seq<string>, k: nat, i: nat)
    requires i < k <= |paths|
    ensures Discards(env, paths, k).exit == None ==> Discard(paths[i], true) in Discards(env, paths, k).events
    ensures Moves(env, paths, k).exit == None ==> MoveAside(paths[i], true) in Moves(env, paths, k).events
  {
    if i < k - 1 {
      FilesDone(env, paths, k - 1, i);
    }
  }

  ghost predicate Handled(env: Env, events: seq<Event>)
    requires StateKnown(env)
  {
    && (forall p :: p in PlanOf(env).discard ==> Discard(p, true) in events)
    && (forall p :: p in PlanOf(env).moveAside ==> MoveAside(p, true) in events)
  }

  lemma RuntimeFilesHandled(env: Env)
    requires StateKnown(env) && RuntimeFiles(env).exit == None
    ensures Handled(env, RuntimeFiles(env).events)
  {
    hide Discards, Moves, PlanOf;
    var plan := PlanOf(env);
    forall p | p in plan.discard ensures Discard(p, true) in RuntimeFiles(env).events {
      var i :| 0 <= i < |plan.discard| && plan.discard[i] == p;
      FilesDone(env, plan.discard, |plan.discard|, i);
    }
    forall p | p in plan.moveAside ensures MoveAside(p, true) in RuntimeFiles(env).events {
      var i :| 0 <= i < |plan.moveAside| && plan.moveAside[i] == p;
      FilesDone(env, plan.moveAside, |plan.moveAside|, i);
    }
  }

  predicate PullFree(t: Trace) {
    forall e :: e in t.events ==> !e.Pull?
  }

  lemma {:induction false} FilesArePullFree(env: Env, paths: seq<string>, k: nat)
    requires k <= |paths|
    ensures PullFree(Discards(env, paths, k)) && PullFree(Moves(env, paths, k))
  {
    if k > 0 {
      FilesArePullFree(env, paths, k - 1);
    }
  }

  lemma OthersArePullFree(env: Env, allowStash: bool)
    ensures PullFree(Checks(env, allowStash)) && PullFree(Probing(env))
    ensures StateKnown(env) ==> PullFree(RuntimeFiles(env)) && PullFree(Reloading(env))
  {
    hide SessionRuns, InTheWay, Discards, Moves, PlanOf, PlanReloadServices;
    if StateKnown(env) {
      var plan := PlanOf(env);
      FilesArePullFree(env, plan.discard, |plan.discard|);
      FilesArePullFree(env, plan.moveAside, |plan.moveAside|);
    }
  }

  /** Uncommitted work is in the stash before the pull. */
  lemma StashedBeforePull(env: Env, ok: bool)
    requires StateKnown(env) && Pull(ok) in Advancing(env).events
    ensures Behind(env)
    ensures WipOf(env) != [] ==> Before(Advancing(env).events, StashPush(true), Pull(ok))
  {
    hide WipOf;
    if WipOf(env) != [] {
      var rest := Then(Pulling(env, true), Popping(env, true));
      assert Advancing(env).events == [StashPush(true)] + rest.events;
      BeforeAcross([StashPush(true)], rest.events, StashPush(true), Pull(ok));
    }
  }

  lemma PlannedFor(env: Env, path: string)
    requires StateKnown(env) && path in env.incoming.value
    ensures path in env.modified.value && IsRuntimeDb(path) ==> path in PlanOf(env).discard
    ensures path in env.untracked && IsRuntimeDb(path) ==> path in PlanOf(env).moveAside
  {
    hide IsRuntimeDb;
  }

  /**
    Whenever a pull is attempted, no session was reported running and no untracked file is in its way; every modified incoming
    runtime database had been discarded before it and every untracked one moved aside; and if an incoming file
    outside data/ has uncommitted changes, stashing was allowed and the changes are in the stash.
   */
  lemma PullIsProtected(env: Env, dryRun: bool, allowStash: bool, ok: bool, path: string)
    requires Pull(ok) in Deployment(env, dryRun, allowStash).events
    ensures !dryRun && !IsRunning(env) && StateKnown(env) && env.head != env.originMain && !FileInTheWay(env)
    ensures var events := Deployment(env, dryRun, allowStash).events;
            && (path in env.incoming.value && path in env.modified.value && IsRuntimeDb(path) ==>
                  Before(events, Discard(path, true), Pull(ok)))
            && (path in env.incoming.value && path in env.untracked && IsRuntimeDb(path) ==>
                  Before(events, MoveAside(path, true), Pull(ok)))
            && (WorkInTheWay(env) ==> allowStash && Before(events, StashPush(true), Pull(ok)))
  {
    hide SessionRuns, Executing, PlanOf, WipOf, Before, IsRuntimeDb, IsRunning, FileInTheWay, WorkInTheWay;
    OthersArePullFree(env, allowStash);
    var checks := Checks(env, allowStash);
    assert checks.exit == None && !dryRun;
    SessionRunsIff(env);
    InTheWayIff(env);
    ExecutedPull(env, ok, path);
    if path in env.incoming.value {
      PlannedFor(env, path);
    }
    var rest := Executing(env).events;
    forall a | Before(rest, a, Pull(ok)) ensures Before(checks.events + rest, a, Pull(ok)) {
      BeforeLater(checks.events, rest, a, Pull(ok));
    }
  }

  /** Something was done before the pull that keeps the local changes of the file out of its way. */
  ghost predicate PutAway(events: seq<Event>, path: string, ok: bool) {
    Before(events, Discard(path, true), Pull(ok)) || Before(events, StashPush(true), Pull(ok))
  }

  /**
    A modified incoming file goes into an attempted pull with its changes neither discarded nor stashed exactly when
    it lies under data/, is no database, and no file outside data/ makes the script stash, which takes everything.
   */
  lemma LeftToPullIff(env: Env, dryRun: bool, allowStash: bool, ok: bool, path: string)
    requires Pull(ok) in Deployment(env, dryRun, allowStash).events
    requires StateKnown(env) && path in env.incoming.value && path in env.modified.value
    ensures !PutAway(Deployment(env, dryRun, allowStash).events, path, ok)
            <==> UnderData(path) && !IsRuntimeDb(path) && !WorkInTheWay(env)
  {
    hide Deployment, Before, MentionsDb, Basename, UnderData;
    PullIsProtected(env, dryRun, allowStash, ok, path);
    DeploymentIsSparing(env, dryRun, allowStash, path);
    BeforeIsIn(Deployment(env, dryRun, allowStash).events, Discard(path, true), Pull(ok));
    BeforeIsIn(Deployment(env, dryRun, allowStash).events, StashPush(true), Pull(ok));
  }

  lemma BeforeIsIn(events: seq<Event>, a: Event, b: Event)
    ensures Before(events, a, b) ==> a in events
  {
  }

  /** `path` is discarded only if it is a runtime database, and only work outside data/ makes the script stash. */
  ghost predicate Sparing(t: Trace, path: string, stashes: bool) {
    && (Discard(path, true) in t.events ==> IsRuntimeDb(path))
    && (StashPush(true) in t.events ==> stashes)
  }

  lemma ThenSparing(a: Trace, b: Trace, path: string, stashes: bool)
    requires Sparing(a, path, stashes) && Sparing(b, path, stashes)
    ensures Sparing(Then(a, b), path, stashes)
  {
    hide IsRuntimeDb;
  }

  lemma {:induction false} FilesAreSparing(env: Env, paths: seq<string>, k: nat, path: string)
    requires k <= |paths|
    ensures (path in paths ==> IsRuntimeDb(path)) ==> Sparing(Discards(env, paths, k), path, false)
    ensures Sparing(Moves(env, paths, k), path, false)
  {
    hide IsRuntimeDb;
    if k > 0 {
      FilesAreSparing(env, paths, k - 1, path);
    }
  }

  lemma PhasesAreSparing(env: Env, path: string)
    requires StateKnown(env)
    ensures Sparing(RuntimeFiles(env), path, false) && Sparing(Reloading(env), path, false)
    ensures Sparing(Advancing(env), path, WipOf(env) != []) && Sparing(Probing(env), path, false)
  {
    hide IsRuntimeDb, Discards, Moves, PlanOf, PlanReloadServices, WipOf;
    var plan := PlanOf(env);
    DiscardedIsDb(env, path);
    FilesAreSparing(env, plan.discard, |plan.discard|, path);
    FilesAreSparing(env, plan.moveAside, |plan.moveAside|, path);
    ThenSparing(Discards(env, plan.discard, |plan.discard|), Moves(env, plan.moveAside, |plan.moveAside|), path, false);
  }

  lemma ExecutingIsSparing(env: Env, path: string)
    requires StateKnown(env)
    ensures Sparing(Executing(env), path, WipOf(env) != [])
  {
    hide RuntimeFiles, Advancing, Reloading, Probing, Then, IsRuntimeDb, WipOf;
    var stashes := WipOf(env) != [];
    PhasesAreSparing(env, path);
    ThenSparing(Reloading(env), Probing(env), path, stashes);
    ThenSparing(Advancing(env), Then(Reloading(env), Probing(env)), path, stashes);
    ThenSparing(RuntimeFiles(env), Then(Advancing(env), Then(Reloading(env), Probing(env))), path, stashes);
  }

  lemma DeploymentIsSparing(env: Env, dryRun: bool, allowStash: bool, path: string)
    requires StateKnown(env)
    ensures Sparing(Deployment(env, dryRun, allowStash), path, WorkInTheWay(env))
  {
    hide SessionRuns, InTheWay, Executing, IsRuntimeDb, WipOf, WorkInTheWay, FileInTheWay, PlanOf;
    InTheWayIff(env);
    ExecutingIsSparing(env, path);
  }

  lemma DiscardedIsDb(env: Env, path: string)
    requires StateKnown(env)
    ensures path in PlanOf(env).discard ==> IsRuntimeDb(path)
  {
    hide IsRuntimeDb;
  }

  lemma ExecutedPull(env: Env, ok: bool, path: string)
    requires StateKnown(env) && Pull(ok) in Executing(env).events
    ensures Behind(env)
    ensures path in PlanOf(env).discard ==> Before(Executing(env).events, Discard(path, true), Pull(ok))
    ensures path in PlanOf(env).moveAside ==> Before(Executing(env).events, MoveAside(path, true), Pull(ok))
    ensures WipOf(env) != [] ==> Before(Executing(env).events, StashPush(true), Pull(ok))
  {
    hide PlanOf, WipOf, RuntimeFiles, Advancing, Reloading, Probing, Before;
    OthersArePullFree(env, false);
    var files, advance := RuntimeFiles(env), Advancing(env);
    var tail := Then(advance, Then(Reloading(env), Probing(env)));
    assert files.exit == None && Executing(env).events == files.events + tail.events;
    RuntimeFilesHandled(env);
    assert Pull(ok) in advance.events;
    forall e | e in files.events ensures Before(files.events + tail.events, e, Pull(ok)) {
      BeforeAcross(files.events, tail.events, e, Pull(ok));
    }
    StashedBeforePull(env, ok);
    if WipOf(env) != [] {
      BeforeEarlier(advance, Then(Reloading(env), Probing(env)), StashPush(true), Pull(ok));
      BeforeLater(files.events, tail.events, StashPush(true), Pull(ok));
    }
  }

  lemma BeforeEarlier(a: Trace, b: Trace, x: Event, y: Event)
    requires Before(a.events, x, y)
    ensures Before(Then(a, b).events, x, y)
  {
    var i, j :| 0 <= i < j < |a.events| && a.events[i] == x && a.events[j] == y;
    assert Then(a, b).events[i] == x && Then(a, b).events[j] == y;
  }

  // ----- When a run succeeds -------------------------------------------------

  lemma {:induction false} FilesRunIff(env: Env, paths: seq<string>, k: nat)
    requires k <= |paths|
    ensures Discards(env, paths, k).exit == None <==> forall i :: 0 <= i < k ==> env.discardOk(paths[i])
    ensures Moves(env, paths, k).exit == None <==> forall i :: 0 <= i < k ==> env.moveOk(paths[i])
  {
    if k > 0 {
      FilesRunIff(env, paths, k - 1);
    }
  }

  /** Every database that the pull brings can be put out of its way. */
  ghost predicate FilesGiveWay(env: Env)
    requires StateKnown(env)
  {
    forall p :: p in env.incoming.value && IsRuntimeDb(p) ==>
      (p in env.modified.value ==> env.discardOk(p)) && (p in env.untracked ==> env.moveOk(p))
  }

  /** The pull brings code that a running service has loaded. */
  ghost predicate BringsCode(env: Env)
    requires StateKnown(env)
  {
    env.head != env.originMain && exists p :: p in env.incoming.value && ("src/" <= p || "frontend/" <= p)
  }

  /** Every step in front of the probes succeeds. */
  ghost predicate StepsSucceed(env: Env)
    requires StateKnown(env)
  {
    && FilesGiveWay(env)
    && (WorkInTheWay(env) ==> env.pushOk && env.popOk)
    && (env.head != env.originMain ==> env.pullOk)
    && (BringsCode(env) ==> env.reloadRc == 0)
  }

  lemma RuntimeFilesRunIff(env: Env)
    requires StateKnown(env)
    ensures RuntimeFiles(env).exit == None <==> FilesGiveWay(env)
  {
    hide IsRuntimeDb, Discards, Moves, PlanOf;
    var plan := PlanOf(env);
    FilesRunIff(env, plan.discard, |plan.discard|);
    FilesRunIff(env, plan.moveAside, |plan.moveAside|);
    Elements(plan.discard, env.discardOk);
    Elements(plan.moveAside, env.moveOk);
    PlanIs(env);
  }

  lemma Elements(paths: seq<string>, f: string -> bool)
    ensures (forall i :: 0 <= i < |paths| ==> f(paths[i])) <==> forall p :: p in paths ==> f(p)
  {
    if forall i :: 0 <= i < |paths| ==> f(paths[i]) {
      forall p | p in paths ensures f(p) {
        var i :| 0 <= i < |paths| && paths[i] == p;
      }
    }
  }

  lemma PlanIs(env: Env)
    requires StateKnown(env)
    ensures forall p :: p in PlanOf(env).discard <==> p in env.incoming.value && p in env.modified.value && IsRuntimeDb(p)
    ensures forall p :: p in PlanOf(env).moveAside <==> p in env.incoming.value && p in env.untracked && IsRuntimeDb(p)
  {
    hide IsRuntimeDb;
  }

  lemma ServicesIff(incoming: seq<string>)
    ensures PlanReloadServices(incoming) != [] <==> exists p :: p in incoming && ("src/" <= p || "frontend/" <= p)
  {
    var services := PlanReloadServices(incoming);
    assert services != [] ==> services[0] in services;
    assert services != [] ==> services[0] == Backend || services[0] == Frontend;
  }

  lemma LaterStepsRunIff(env: Env)
    requires StateKnown(env)
    ensures Advancing(env).exit == None <==>
              (WorkInTheWay(env) ==> env.pushOk && env.popOk) && (env.head != env.originMain ==> env.pullOk)
    ensures Reloading(env).exit == None <==> (BringsCode(env) ==> env.reloadRc == 0)
  {
    hide WipOf, WorkInTheWay, PlanReloadServices, PlanOf, FileInTheWay;
    InTheWayIff(env);
    ServicesIff(env.incoming.value);
  }

  lemma StepsRunIff(env: Env)
    requires StateKnown(env)
    ensures RuntimeFiles(env).exit == None && Advancing(env).exit == None && Reloading(env).exit == None <==> StepsSucceed(env)
  {
    hide RuntimeFiles, Advancing, Reloading, FilesGiveWay, WorkInTheWay, BringsCode;
    RuntimeFilesRunIff(env);
    LaterStepsRunIff(env);
  }

  /** Nothing stands against the deployment before it begins. */
  ghost predicate MayBegin(env: Env, allowStash: bool) {
    && !IsRunning(env) && env.fetchOk && StateKnown(env)
    && !FileInTheWay(env) && (WorkInTheWay(env) ==> allowStash && env.mergeClean)
  }

  lemma ChecksPassIff(env: Env, allowStash: bool)
    ensures Checks(env, allowStash).exit == None <==> MayBegin(env, allowStash)
  {
    hide SessionRuns, PlanOf, WipOf, IsRunning, FileInTheWay, WorkInTheWay;
    SessionRunsIff(env);
    if StateKnown(env) {
      InTheWayIff(env);
    }
  }

  /**
    When exactly a run ends with exit code 0: nothing stands against it, every step that applies succeeds, and the
    services are healthy at once or after the health restart.
   */
  lemma SucceedsIff(env: Env, allowStash: bool)
    ensures Deployment(env, false, allowStash).exit == Some(EXIT_OK) <==>
              && MayBegin(env, allowStash) && StepsSucceed(env)
              && (env.firstProbe == Probe(Some(200), Some(200)) || env.secondProbe == Probe(Some(200), Some(200)))
  {
    hide Checks, RuntimeFiles, Advancing, Reloading, MayBegin, StepsSucceed;
    ChecksPassIff(env, allowStash);
    if Checks(env, allowStash).exit == None {
      StateIsKnown(env, allowStash);
      ExecutionIsNotRefused(env);
      StepsRunIff(env);
    } else {
      FailedChecksRefuse(env, allowStash);
    }
  }

  lemma StateIsKnown(env: Env, allowStash: bool)
    requires Checks(env, allowStash).exit == None
    ensures StateKnown(env)
  {
  }

  lemma FailedChecksRefuse(env: Env, allowStash: bool)
    ensures Checks(env, allowStash).exit == None || Checks(env, allowStash).exit == Some(EXIT_REFUSED)
  {
  }

  /** A dry run that may begin ends with 0 whatever the steps would have done. */
  lemma DryRunSucceedsIff(env: Env, allowStash: bool)
    ensures Deployment(env, true, allowStash).exit == Some(EXIT_OK) <==> MayBegin(env, allowStash)
  {
    hide Checks, MayBegin;
    ChecksPassIff(env, allowStash);
    FailedChecksRefuse(env, allowStash);
  }

  predicate QuietEvent(e: Event) {
    !e.Restart? && !e.Probed?
  }

  lemma {:induction false} FilesAreQuiet(env: Env, paths: seq<string>, k: nat)
    requires k <= |paths|
    ensures forall e :: e in Discards(env, paths, k).events ==> QuietEvent(e)
    ensures forall e :: e in Moves(env, paths, k).events ==> QuietEvent(e)
  {
    if k > 0 {
      FilesAreQuiet(env, paths, k - 1);
    }
  }

  lemma EarlyStepsAreQuiet(env: Env, allowStash: bool)
    ensures forall e :: e in Checks(env, allowStash).events ==> QuietEvent(e)
    ensures StateKnown(env) ==> forall e :: e in RuntimeFiles(env).events ==> QuietEvent(e)
    ensures StateKnown(env) ==> forall e :: e in Advancing(env).events ==> QuietEvent(e)
  {
    hide Discards, Moves, PlanOf, WipOf, SessionRuns, InTheWay;
    if StateKnown(env) {
      var plan := PlanOf(env);
      FilesAreQuiet(env, plan.discard, |plan.discard|);
      FilesAreQuiet(env, plan.moveAside, |plan.moveAside|);
    }
  }

  /** What the probes log. */
  ghost function ProbeLog(env: Env): seq<Event> {
    if env.firstProbe == Probe(Some(200), Some(200)) then [Probed(env.firstProbe)]
    else [Probed(env.firstProbe), Restart([Backend, Frontend], env.healthRc), Probed(env.secondProbe)]
  }

  ghost function LastLog(env: Env): seq<Event>
    requires StateKnown(env)
  {
    (if BringsCode(env) then [Restart(PlanReloadServices(env.incoming.value), 0)] else []) + ProbeLog(env)
  }

  /**
    Once every step has succeeded, the log ends with the planned reload, if code came in, and the probes: an unhealthy
    pair is followed by one restart of both services, whatever that returns, and a second pair. There is no other restart.
   */
  lemma HealthRestartOnce(env: Env, allowStash: bool)
    requires MayBegin(env, allowStash) && StepsSucceed(env)
    ensures var events, last := Deployment(env, false, allowStash).events, LastLog(env);
            && |last| <= |events| && events[|events| - |last|..] == last
            && forall i :: 0 <= i < |events| - |last| ==> !events[i].Restart? && !events[i].Probed?
  {
    hide RuntimeFiles, Advancing, PlanReloadServices, Checks, MayBegin, StepsSucceed;
    ChecksPassIff(env, allowStash);
    StateIsKnown(env, allowStash);
    StepsRunIff(env);
    EarlyStepsAreQuiet(env, allowStash);
    ServicesIff(env.incoming.value);
    LastStepsLog(env);
    var checks, files, advance, last := Checks(env, allowStash).events, RuntimeFiles(env).events, Advancing(env).events, LastLog(env);
    assert Deployment(env, false, allowStash).events == checks + (files + (advance + last));
    assert checks + (files + (advance + last)) == (checks + files + advance) + last;
    forall i | 0 <= i < |checks + files + advance| ensures QuietEvent((checks + files + advance)[i]) {
      assert (checks + files + advance)[i] in checks + files + advance;
    }
  }

  lemma LastStepsLog(env: Env)
    requires StateKnown(env) && Reloading(env).exit == None
    ensures Probing(env).events == ProbeLog(env)
    ensures Reloading(env).events == if BringsCode(env) then [Restart(PlanReloadServices(env.incoming.value), 0)] else []
  {
    hide PlanReloadServices;
    ServicesIff(env.incoming.value);
  }

  /** A run in which a step fails probes nothing. */
  lemma NoProbeAfterFailure(env: Env, allowStash: bool)
    requires !(MayBegin(env, allowStash) && StepsSucceed(env))
    ensures forall e :: e in Deployment(env, false, allowStash).events ==>
              !e.Probed?
              && (e.Restart? ==> StateKnown(env) && BringsCode(env)
                                 && e == Restart(PlanReloadServices(env.incoming.value), env.reloadRc))
  {
    hide RuntimeFiles, Advancing, PlanReloadServices, Checks, MayBegin, StepsSucceed, Probing;
    ChecksPassIff(env, allowStash);
    EarlyStepsAreQuiet(env, allowStash);
    if Checks(env, allowStash).exit == None {
      StateIsKnown(env, allowStash);
      StepsRunIff(env);
      ServicesIff(env.incoming.value);
    }
  }

  // ----- The order of the steps ----------------------------------------------

  /** The place of a step in the script. */
  function Rank(e: Event): nat {
    match e
    case AskSessions => 0
    case Fetch(_) => 1
    case ReadState => 2
    case Discard(_, _) => 3
    case MoveAside(_, _) => 4
    case StashPush(_) => 5
    case Pull(_) => 6
    case StashPop(_) => 7
    case Restart(_, _) => 8
    case Probed(_) => 8
  }

  ghost predicate InOrder(t: Trace, lo: nat, hi: nat) {
    && (forall e :: e in t.events ==> lo <= Rank(e) <= hi)
    && forall i, j :: 0 <= i < j < |t.events| ==> Rank(t.events[i]) <= Rank(t.events[j])
  }

  lemma ThenInOrder(a: Trace, b: Trace, lo: nat, mid: nat, hi: nat)
    requires InOrder(a, lo, mid) && InOrder(b, mid, hi) && lo <= mid <= hi
    ensures InOrder(Then(a, b), lo, hi)
  {
    hide Rank;
    var t := Then(a, b);
    forall i, j | 0 <= i < j < |t.events| ensures Rank(t.events[i]) <= Rank(t.events[j]) {
      if i < |a.events| <= j {
        assert a.events[i] in a.events && b.events[j - |a.events|] in b.events;
      }
    }
  }

  lemma {:induction false} FilesInOrder(env: Env, paths: seq<string>, k: nat)
    requires k <= |paths|
    ensures InOrder(Discards(env, paths, k), 3, 3) && InOrder(Moves(env, paths, k), 4, 4)
  {
    if k == 0 {
      AtMostTwo(Trace([], None), 3, 3);
      AtMostTwo(Trace([], None), 4, 4);
    } else {
      hide InOrder, Then;
      FilesInOrder(env, paths, k - 1);
      AtMostTwo(DiscardOne(env, paths[k - 1]), 3, 3);
      AtMostTwo(MoveOne(env, paths[k - 1]), 4, 4);
      ThenInOrder(Discards(env, paths, k - 1), DiscardOne(env, paths[k - 1]), 3, 3, 3);
      ThenInOrder(Moves(env, paths, k - 1), MoveOne(env, paths[k - 1]), 4, 4, 4);
    }
  }

  lemma ChecksInOrder(env: Env, allowStash: bool)
    ensures InOrder(Checks(env, allowStash), 0, 3)
  {
    hide SessionRuns, InTheWay;
  }

  lemma RuntimeFilesInOrder(env: Env)
    requires StateKnown(env)
    ensures InOrder(RuntimeFiles(env), 3, 5)
  {
    hide Discards, Moves, PlanOf, InOrder;
    var plan := PlanOf(env);
    FilesInOrder(env, plan.discard, |plan.discard|);
    FilesInOrder(env, plan.moveAside, |plan.moveAside|);
    Wider(Discards(env, plan.discard, |plan.discard|), 3, 3, 3, 4);
    Wider(Moves(env, plan.moveAside, |plan.moveAside|), 4, 4, 4, 5);
    ThenInOrder(Discards(env, plan.discard, |plan.discard|), Moves(env, plan.moveAside, |plan.moveAside|), 3, 4, 5);
  }

  lemma Wider(t: Trace, lo: nat, hi: nat, lo': nat, hi': nat)
    requires InOrder(t, lo, hi) && lo' <= lo && hi <= hi'
    ensures InOrder(t, lo', hi')
  {
    hide Rank;
  }

  lemma AdvancingInOrder(env: Env)
    requires StateKnown(env)
    ensures InOrder(Advancing(env), 5, 8)
  {
    hide WipOf, InOrder, Then;
    var wip := WipOf(env) != [];
    StashStepsInOrder(env, wip);
    ThenInOrder(Pulling(env, wip), Popping(env, wip), 6, 7, 8);
    ThenInOrder(Stashing(env, wip), Then(Pulling(env, wip), Popping(env, wip)), 5, 6, 8);
  }

  lemma StashStepsInOrder(env: Env, wip: bool)
    requires StateKnown(env)
    ensures InOrder(Stashing(env, wip), 5, 6) && InOrder(Pulling(env, wip), 6, 7) && InOrder(Popping(env, wip), 7, 8)
  {
    AtMostTwo(Stashing(env, wip), 5, 6);
    AtMostTwo(Pulling(env, wip), 6, 7);
    AtMostTwo(Popping(env, wip), 7, 8);
  }

  lemma AtMostTwo(t: Trace, lo: nat, hi: nat)
    requires |t.events| <= 2 && forall i :: 0 <= i < |t.events| ==> lo <= Rank(t.events[i]) <= hi
    requires |t.events| == 2 ==> Rank(t.events[0]) <= Rank(t.events[1])
    ensures InOrder(t, lo, hi)
  {
    hide Rank;
  }

  lemma LastStepsInOrder(env: Env)
    ensures InOrder(Probing(env), 8, 8)
    ensures StateKnown(env) ==> InOrder(Reloading(env), 8, 8)
  {
    hide PlanReloadServices;
  }

  /**
    On every run the steps come in the order of the script: sessions, fetch, state, discards, files moved aside,
    stash, pull, pop, restarts and probes.
   */
  lemma StepsInOrder(env: Env, dryRun: bool, allowStash: bool)
    ensures var events := Deployment(env, dryRun, allowStash).events;
            forall i, j :: 0 <= i < j < |events| ==> Rank(events[i]) <= Rank(events[j])
  {
    hide Checks, RuntimeFiles, Advancing, Reloading, Probing, Rank;
    ChecksInOrder(env, allowStash);
    LastStepsInOrder(env);
    if Checks(env, allowStash).exit == None && !dryRun {
      StateIsKnown(env, allowStash);
      RuntimeFilesInOrder(env);
      AdvancingInOrder(env);
      ThenInOrder(Reloading(env), Probing(env), 8, 8, 8);
      ThenInOrder(Advancing(env), Then(Reloading(env), Probing(env)), 5, 8, 8);
      ThenInOrder(RuntimeFiles(env), Then(Advancing(env), Then(Reloading(env), Probing(env))), 3, 5, 8);
      ThenInOrder(Checks(env, allowStash), Executing(env), 0, 3, 8);
    }
  }

  /** The step did not do what it was for; a restart is judged by the probe after it. */
  predicate FailedStep(e: Event) {
    e == Fetch(false) || (e.Discard? && !e.ok) || (e.MoveAside? && !e.ok) || e == StashPush(false) || e == Pull(false)
    || e == StashPop(false)
  }

  /** A failed step is the last one, but for the pop after a failed pull; and a stretch that goes on had none. */
  ghost predicate StopsAtFailure(t: Trace) {
    && (t.exit == None ==> forall e :: e in t.events ==> !FailedStep(e))
    && forall i :: 0 <= i < |t.events| && FailedStep(t.events[i]) ==>
         i == |t.events| - 1 || (i == |t.events| - 2 && t.events[i] == Pull(false) && t.events[|t.events| - 1].StashPop?)
  }

  lemma ThenStops(a: Trace, b: Trace)
    requires StopsAtFailure(a) && StopsAtFailure(b)
    ensures StopsAtFailure(Then(a, b))
  {
    hide FailedStep;
    if a.exit == None {
      var events := a.events + b.events;
      forall i | 0 <= i < |events| && FailedStep(events[i])
        ensures i == |events| - 1 || (i == |events| - 2 && events[i] == Pull(false) && events[|events| - 1].StashPop?)
      {
        if i >= |a.events| {
          assert FailedStep(b.events[i - |a.events|]);
        } else {
          assert false;
        }
      }
    }
  }

  lemma {:induction false} FilesStop(env: Env, paths: seq<string>, k: nat)
    requires k <= |paths|
    ensures StopsAtFailure(Discards(env, paths, k)) && StopsAtFailure(Moves(env, paths, k))
  {
    if k > 0 {
      hide StopsAtFailure, Then;
      FilesStop(env, paths, k - 1);
      OneFileStops(env, paths[k - 1]);
      ThenStops(Discards(env, paths, k - 1), DiscardOne(env, paths[k - 1]));
      ThenStops(Moves(env, paths, k - 1), MoveOne(env, paths[k - 1]));
    } else {
      assert StopsAtFailure(Trace([], None));
    }
  }

  ghost function DiscardOne(env: Env, path: string): Trace {
    Trace([Discard(path, env.discardOk(path))], if env.discardOk(path) then None else Some(EXIT_FAILED))
  }

  ghost function MoveOne(env: Env, path: string): Trace {
    Trace([MoveAside(path, env.moveOk(path))], if env.moveOk(path) then None else Some(EXIT_FAILED))
  }

  lemma OneFileStops(env: Env, path: string)
    ensures StopsAtFailure(DiscardOne(env, path)) && StopsAtFailure(MoveOne(env, path))
  {
  }

  lemma AdvancingStops(env: Env)
    requires StateKnown(env)
    ensures StopsAtFailure(Advancing(env))
  {
    hide WipOf, StopsAtFailure, Then;
    var wip := WipOf(env) != [];
    assert StopsAtFailure(Stashing(env, wip)) && StopsAtFailure(Pulling(env, wip)) && StopsAtFailure(Popping(env, wip)) by {
      StashStepsStop(env, wip);
    }
    ThenStops(Pulling(env, wip), Popping(env, wip));
    ThenStops(Stashing(env, wip), Then(Pulling(env, wip), Popping(env, wip)));
  }

  lemma StashStepsStop(env: Env, wip: bool)
    requires StateKnown(env)
    ensures StopsAtFailure(Stashing(env, wip)) && StopsAtFailure(Pulling(env, wip)) && StopsAtFailure(Popping(env, wip))
  {
  }

  lemma OtherStepsStop(env: Env, allowStash: bool)
    ensures StopsAtFailure(Checks(env, allowStash)) && StopsAtFailure(Probing(env))
    ensures StateKnown(env) ==> StopsAtFailure(Reloading(env))
  {
    hide SessionRuns, InTheWay, PlanReloadServices;
  }

  /** Nothing is done after a failed step, except that the stash is popped after a failed pull. */
  lemma FailureEndsRun(env: Env, dryRun: bool, allowStash: bool)
    ensures StopsAtFailure(Deployment(env, dryRun, allowStash))
  {
    hide Checks, Executing, StopsAtFailure, Then;
    OtherStepsStop(env, allowStash);
    NothingStops();
    ThenStops(Checks(env, allowStash), Trace([], Some(EXIT_OK)));
    if Checks(env, allowStash).exit == None && !dryRun {
      StateIsKnown(env, allowStash);
      ExecutingStops(env);
      ThenStops(Checks(env, allowStash), Executing(env));
    }
  }

  lemma ExecutingStops(env: Env)
    requires StateKnown(env)
    ensures StopsAtFailure(Executing(env))
  {
    hide Advancing, Reloading, Probing, StopsAtFailure, Discards, Moves, PlanOf, Then;
    var plan := PlanOf(env);
    FilesStop(env, plan.discard, |plan.discard|);
    FilesStop(env, plan.moveAside, |plan.moveAside|);
    ThenStops(Discards(env, plan.discard, |plan.discard|), Moves(env, plan.moveAside, |plan.moveAside|));
    AdvancingStops(env);
    OtherStepsStop(env, false);
    ThenStops(Reloading(env), Probing(env));
    ThenStops(Advancing(env), Then(Reloading(env), Probing(env)));
    ThenStops(RuntimeFiles(env), Then(Advancing(env), Then(Reloading(env), Probing(env))));
  }

  lemma NothingStops()
    ensures StopsAtFailure(Trace([], Some(EXIT_OK)))
  {
  }

  // ----- The script ----------------------------------------------------------

  /** Once a step has failed, the later paths are left alone. */
  lemma {:induction false} FailureStops(env: Env, paths: seq<string>, k: nat, n: nat)
    requires k <= n <= |paths|
    ensures Discards(env, paths, k).exit.Some? ==> Discards(env, paths, n) == Discards(env, paths, k)
    ensures Moves(env, paths, k).exit.Some? ==> Moves(env, paths, n) == Moves(env, paths, k)
  {
    if k < n {
      FailureStops(env, paths, k, n - 1);
    }
  }

  method RunningSessions(sessions: seq<Session>) returns (running: seq<string>)
    ensures running == RunningOf(sessions, |sessions|)
    ensures running == [] <==> forall s :: s in sessions ==> s.status != "running"
  {
    running := [];
    for k := 0 to |sessions|
      invariant running == RunningOf(sessions, k)
    {
      if sessions[k].status == "running" {
        running := running + [sessions[k].id];
      }
    }
  }

  /** A checkout and its services, with the log of what was done to them. */
  class Checkout {
    var log: seq<Event>

    method DiscardAll(env: Env, paths: seq<string>) returns (done: bool)
      modifies this
      ensures var t := Discards(env, paths, |paths|); log == old(log) + t.events && (done <==> t.exit == None)
    {
      for k := 0 to |paths|
        invariant Discards(env, paths, k).exit == None && log == old(log) + Discards(env, paths, k).events
      {
        var ok := env.discardOk(paths[k]);
        log := log + [Discard(paths[k], ok)];
        if !ok {
          FailureStops(env, paths, k + 1, |paths|);
          return false;
        }
      }
      done := true;
    }

    method MoveAll(env: Env, paths: seq<string>) returns (done: bool)
      modifies this
      ensures var t := Moves(env, paths, |paths|); log == old(log) + t.events && (done <==> t.exit == None)
    {
      for k := 0 to |paths|
        invariant Moves(env, paths, k).exit == None && log == old(log) + Moves(env, paths, k).events
      {
        var ok := env.moveOk(paths[k]);
        log := log + [MoveAside(paths[k], ok)];
        if !ok {
          FailureStops(env, paths, k + 1, |paths|);
          return false;
        }
      }
      done := true;
    }

    /** Stash, pull, and pop; a failed pull pops at once. */
    method Advance(env: Env) returns (done: bool)
      requires StateKnown(env)
      modifies this
      ensures var t := Advancing(env); log == old(log) + t.events && (done <==> t.exit == None)
    {
      hide WipOf;
      var stashed := false;
      if WipOf(env) != [] {
        log := log + [StashPush(env.pushOk)];
        if !env.pushOk {
          return false;
        }
        stashed := true;
      }
      if Behind(env) {
        log := log + [Pull(env.pullOk)];
        if !env.pullOk {
          if stashed {
            log := log + [StashPop(env.popOk)];
          }
          return false;
        }
      }
      if stashed {
        log := log + [StashPop(env.popOk)];
        if !env.popOk {
          return false;
        }
      }
      done := true;
    }

    /** Probe both ends; when one is unhealthy restart both services and probe once more. */
    method ProbeServices(env: Env) returns (code: int)
      modifies this
      ensures log == old(log) + Probing(env).events && Probing(env).exit == Some(code)
    {
      log := log + [Probed(env.firstProbe)];
      if Healthy(env.firstProbe) {
        return EXIT_OK;
      }
      log := log + [Restart([Backend, Frontend], env.healthRc)];
      log := log + [Probed(env.secondProbe)];
      code := if Healthy(env.secondProbe) then EXIT_OK else EXIT_FAILED;
    }

    method Execute(env: Env) returns (code: int)
      requires StateKnown(env)
      modifies this
      ensures log == old(log) + Executing(env).events && Executing(env).exit == Some(code)
    {
      hide Discards, Moves, PlanRuntimeFileActions, Advancing, Probing, PlanReloadServices, WipOf, Behind;
      ExecutionIsNotRefused(env);
      var plan := PlanOf(env);
      var done := DiscardAll(env, plan.discard);
      if !done {
        return EXIT_FAILED;
      }
      done := MoveAll(env, plan.moveAside);
      if !done {
        return EXIT_FAILED;
      }
      done := Advance(env);
      if !done {
        return EXIT_FAILED;
      }
      var services := if Behind(env) then PlanReloadServices(env.incoming.value) else [];
      if services != [] {
        log := log + [Restart(services, env.reloadRc)];
        if env.reloadRc != 0 {
          return EXIT_FAILED;
        }
      }
      code := ProbeServices(env);
    }

    method Deploy(env: Env, dryRun: bool, allowStash: bool) returns (code: int)
      modifies this
      ensures var t := Deployment(env, dryRun, allowStash); t.exit == Some(code) && log == old(log) + t.events
    {
      hide Executing, PlanRuntimeFileActions, Wip, RunningOf;
      log := log + [AskSessions];
      if env.sessions.Some? {
        var running := RunningSessions(env.sessions.value);
        if running != [] {
          return EXIT_REFUSED;
        }
      }
      log := log + [Fetch(env.fetchOk)];
      if !env.fetchOk {
        return EXIT_REFUSED;
      }
      log := log + [ReadState];
      if env.head == None || env.originMain == None || env.incoming == None || env.modified == None {
        return EXIT_REFUSED;
      }
      var plan, wip := PlanOf(env), WipOf(env);
      if plan.blocked != [] {
        return EXIT_REFUSED;
      }
      if wip != [] && !allowStash {
        return EXIT_REFUSED;
      }
      if wip != [] && allowStash && !env.mergeClean {
        return EXIT_REFUSED;
      }
      if dryRun {
        return EXIT_OK;
      }
      code := Execute(env);
    }
  }
}
