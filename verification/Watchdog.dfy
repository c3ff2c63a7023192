/**
  The watchdog's heal gate over whole runs (scripts/FinanceAgentLauncher.cs).
  Every tick is a fresh process: it probes the distro, reads the counters back from
  distro_probe.json, decides whether to terminate the distro, and rewrites the file.
 */
module Watchdog {
  import opened Wrappers
  import opened LauncherState
  import opened StateReader

  const HEAL_AFTER_FAILURES := 15
  const HEAL_SNAPSHOT_STALE_S := 900
  const HEAL_COOLDOWN_S := 1800
  const WRAP := 0x8000_0000

  /** Seconds since 1970, as the host clock shows them. */
  type Epoch = t: int | 0 < t <= LONG_MAX witness 1

  datatype Snapshot = NotConfigured | Absent | Unreadable | Contents(text: string)

  /** All that the outside world contributes to one tick. */
  datatype Tick = Tick(
    now: Epoch, ok: bool, exitCode: int, detail: Option<string>, distro: string,
    probedAt: string, terminatedAt: string, snapshot: Snapshot,
    terminateRuns: bool, readWorks: bool, writeWorks: bool)

  /** A non-negative 32-bit integer. */
  type Count = n: int | 0 <= n <= INT_MAX

  /** The counters as they are read back from the file. */
  datatype Counters = Counters(failures: Count, terminated: nat, count: Count)

  const NO_FILE := Counters(0, 0, 0)

  /** Adding one to a 32-bit signed integer without overflow checks. */
  function Inc(n: Count): int {
    if n == INT_MAX then -WRAP else n + 1
  }

  /** A negative number comes back from the file as 0. */
  function ReadBack(n: int): Count
    requires n <= INT_MAX
  {
    if n >= 0 then n else 0
  }

  function SnapshotStale(s: Snapshot, now: Epoch): bool {
    match s
    case NotConfigured => false
    case Absent => true
    case Unreadable => true
    case Contents(text) =>
      var epoch := ReadLong(text, "collected_at_epoch");
      epoch <= 0 || now - epoch >= HEAL_SNAPSHOT_STALE_S
  }

  /** White space in the sense of section 2 of RFC 8259. */
  predicate JsonSpace(s: string) {
    forall k :: 0 <= k < |s| ==> s[k] in " \t\n\r"
  }

  /**
    A snapshot whose collection time is written as any JSON writer may, with white space around the colon or without,
    is stale exactly when that time lies 900 seconds back or more.
   */
  lemma SnapshotStaleIff(front: string, before: string, after: string, e: nat, rest: string, now: Epoch)
    requires JsonSpace(before) && JsonSpace(after) && 0 < e <= LONG_MAX && (rest == "" || !IsDigit(rest[0]))
    requires NoMatchBefore(front + Spaced("collected_at_epoch", before, after, "", e, rest), "collected_at_epoch", |front|)
    ensures SnapshotStale(Contents(front + Spaced("collected_at_epoch", before, after, "", e, rest)), now) <==> now - e >= 900
  {
    hide ReadLong, ReadInt, Spaced;
    SpacedNumberReads(front, "collected_at_epoch", before, after, "", e, rest);
  }

  /** A snapshot that cannot be read, or names no time, is stale; without a path none ever is. */
  lemma UnknownTimeIsStale(text: string, now: Epoch)
    requires NoMatchBefore(text, "collected_at_epoch", |text| + 1)
    ensures SnapshotStale(Contents(text), now) && SnapshotStale(Absent, now) && SnapshotStale(Unreadable, now)
    ensures !SnapshotStale(NotConfigured, now)
  {
    hide ReadLong, ReadInt, NoMatchBefore;
    NoMatchReadsZero(text, "collected_at_epoch");
  }

  predicate ShouldHeal(ok: bool, failures: int, stale: bool, lastTerminated: nat, now: Epoch) {
    && !ok
    && failures >= HEAL_AFTER_FAILURES
    && stale
    && !(lastTerminated > 0 && now - lastTerminated < HEAL_COOLDOWN_S)
  }

  // ----- One tick on the counters --------------------------------------------

  function Failures(c: Counters, t: Tick): int {
    if t.ok then 0 else Inc(c.failures)
  }

  /** With the counters `c` in the file, the tick terminates the distro and the call comes back. */
  predicate Terminates(c: Counters, t: Tick) {
    var prev := if t.readWorks then c else NO_FILE;
    ShouldHeal(t.ok, Failures(prev, t), SnapshotStale(t.snapshot, t.now), prev.terminated, t.now) && t.terminateRuns
  }

  function Next(c: Counters, t: Tick): Counters {
    var prev := if t.readWorks then c else NO_FILE;
    if !t.writeWorks then c
    else if Terminates(c, t) then Counters(ReadBack(Failures(prev, t)), t.now, ReadBack(Inc(prev.count)))
    else Counters(ReadBack(Failures(prev, t)), prev.terminated, prev.count)
  }

  // ----- One tick on the file ------------------------------------------------

  function ReadCounters(file: Option<string>): Counters {
    match file
    case None => NO_FILE
    case Some(t) =>
      Counters(ReadInt(t, "consecutive_failures"), ReadLong(t, "terminated_at_epoch"), ReadInt(t, "terminate_count"))
  }

  function Written(c: Counters, t: Tick): Probe {
    var prev := if t.readWorks then c else NO_FILE;
    var healed := Terminates(c, t);
    var epoch := if healed then t.now else prev.terminated;
    Probe(t.probedAt, t.now, t.distro, t.ok, t.exitCode, t.detail,
          Failures(prev, t), SnapshotStale(t.snapshot, t.now),
          if epoch > 0 then Some(t.terminatedAt) else None, epoch,
          if healed then Inc(prev.count) else prev.count)
  }

  function FileAfter(file: Option<string>, t: Tick): Option<string> {
    if t.writeWorks then Some(Render(Written(ReadCounters(file), t))) else file
  }

  /** The file is a faithful memory: writing and reading back is the step on the counters. */
  lemma FileStepsLikeCounters(file: Option<string>, t: Tick)
    ensures ReadCounters(FileAfter(file, t)) == Next(ReadCounters(file), t)
  {
    if t.writeWorks {
      assert ReadCounters(file).terminated <= LONG_MAX;
      StateRoundTrip(Written(ReadCounters(file), t));
    }
  }

  /** The host-side state of the watchdog: the probe file. */
  class Host {
    var probeFile: Option<string>

    constructor ()
      ensures probeFile == None
    {
      probeFile := None;
    }

    method ProbeAndMaybeHeal(t: Tick) returns (terminated: bool)
      modifies this
      ensures probeFile == FileAfter(old(probeFile), t)
      ensures terminated == Terminates(ReadCounters(old(probeFile)), t)
      ensures ReadCounters(probeFile) == Next(ReadCounters(old(probeFile)), t)
    {
      FileStepsLikeCounters(probeFile, t);
      var prevFailures, prevTerminatedEpoch, prevTerminateCount := 0, 0, 0;
      if probeFile.Some? && t.readWorks {
        var prev := probeFile.value;
        prevFailures := ReadInt(prev, "consecutive_failures");
        prevTerminatedEpoch := ReadLong(prev, "terminated_at_epoch");
        prevTerminateCount := ReadInt(prev, "terminate_count");
      }
      var failures := if t.ok then 0 else Inc(prevFailures);
      var stale := SnapshotStale(t.snapshot, t.now);
      var heal := ShouldHeal(t.ok, failures, stale, prevTerminatedEpoch, t.now);
      var terminatedEpoch, terminateCount: int := prevTerminatedEpoch, prevTerminateCount;
      terminated := false;
      if heal && t.terminateRuns {
        terminatedEpoch := t.now;
        terminateCount := Inc(prevTerminateCount);
        terminated := true;
      }
      var text := Render(Probe(t.probedAt, t.now, t.distro, t.ok, t.exitCode, t.detail, failures, stale,
                               if terminatedEpoch > 0 then Some(t.terminatedAt) else None,
                               terminatedEpoch, terminateCount));
      if t.writeWorks {
        probeFile := Some(text);
      }
    }
  }

  // ----- Whole runs ----------------------------------------------------------

  /** The probe file in front of tick `i`, when the run begins without one. */
  function FileAt(run: seq<Tick>, i: nat): Option<string>
    requires i <= |run|
  {
    if i == 0 then None else FileAfter(FileAt(run, i - 1), run[i - 1])
  }

  function CountersAt(run: seq<Tick>, i: nat): Counters
    requires i <= |run|
  {
    if i == 0 then NO_FILE else Next(CountersAt(run, i - 1), run[i - 1])
  }

  lemma {:induction false} FileHoldsCounters(run: seq<Tick>, i: nat)
    requires i <= |run|
    ensures ReadCounters(FileAt(run, i)) == CountersAt(run, i)
    decreases i
  {
    if i > 0 {
      FileHoldsCounters(run, i - 1);
      FileStepsLikeCounters(FileAt(run, i - 1), run[i - 1]);
    }
  }

  predicate TerminatesAt(run: seq<Tick>, i: nat)
    requires i < |run|
  {
    Terminates(CountersAt(run, i), run[i])
  }

  /** Failed probes in a row just before tick `i`. */
  function Streak(run: seq<Tick>, i: nat): nat
    requires i <= |run|
  {
    if i == 0 || run[i - 1].ok then 0 else Streak(run, i - 1) + 1
  }

  /** Terminations at ticks `from` to `i - 1`. */
  function Terminations(run: seq<Tick>, from: nat, i: nat): nat
    requires from <= i <= |run|
  {
    if i == from then 0 else Terminations(run, from, i - 1) + (if TerminatesAt(run, i - 1) then 1 else 0)
  }

  /** When the last termination before tick `i` took place, 0 if there was none. */
  function LastTermination(run: seq<Tick>, i: nat): nat
    requires i <= |run|
  {
    if i == 0 then 0 else if TerminatesAt(run, i - 1) then run[i - 1].now else LastTermination(run, i - 1)
  }

  // ----- What the file remembers ---------------------------------------------

  /** The termination whose time stands in the file in front of tick `j`. */
  function Recorded(run: seq<Tick>, j: nat): (r: Option<nat>)
    requires j <= |run|
    ensures r.Some? ==> r.value < j && TerminatesAt(run, r.value)
  {
    if j == 0 then None
    else if !run[j - 1].writeWorks then Recorded(run, j - 1)
    else if TerminatesAt(run, j - 1) then Some(j - 1)
    else if run[j - 1].readWorks then Recorded(run, j - 1)
    else None
  }

  lemma {:induction false} RecordedTime(run: seq<Tick>, j: nat)
    requires j <= |run|
    ensures CountersAt(run, j).terminated == match Recorded(run, j) case None => 0 case Some(i) => run[i].now
    decreases j
  {
    if j > 0 {
      RecordedTime(run, j - 1);
    }
  }

  /** The file after tick `i`, with these two counts. */
  ghost predicate Shows(run: seq<Tick>, i: nat, failures: int, count: int)
    requires i < |run|
  {
    var t, r := run[i], Recorded(run, i + 1);
    FileAt(run, i + 1) == Some(Render(Probe(
      t.probedAt, t.now, t.distro, t.ok, t.exitCode, t.detail, failures, SnapshotStale(t.snapshot, t.now),
      if r.Some? then Some(t.terminatedAt) else None, if r.Some? then run[r.value].now else 0, count)))
  }

  /** For any run: a written file shows what its tick has seen, and the termination on record after it, if there is one. */
  lemma FileShows(run: seq<Tick>, i: nat)
    requires i < |run| && run[i].writeWorks
    ensures exists failures, count :: Shows(run, i, failures, count)
  {
    hide Render, SnapshotStale;
    FileHoldsCounters(run, i);
    RecordedTime(run, i);
    var p := Written(ReadCounters(FileAt(run, i)), run[i]);
    assert Shows(run, i, p.failures, p.count);
  }

  /** A tick whose failed probe, stale snapshot and recorded failures call for a termination, which then succeeds. */
  predicate Calls(run: seq<Tick>, j: nat)
    requires j < |run|
  {
    && !run[j].ok && run[j].readWorks && Inc(CountersAt(run, j).failures) >= HEAL_AFTER_FAILURES
    && SnapshotStale(run[j].snapshot, run[j].now) && run[j].terminateRuns
  }

  /** For any run: the cooldown counts from the termination on record, and without one there is none. */
  lemma TerminatesAtIff(run: seq<Tick>, j: nat)
    requires j < |run|
    ensures TerminatesAt(run, j) <==>
              Calls(run, j)
              && match Recorded(run, j) case None => true case Some(i) => run[j].now - run[i].now >= HEAL_COOLDOWN_S
  {
    hide SnapshotStale, Recorded, CountersAt;
    RecordedTime(run, j);
  }

  /**
    For any run: a termination is on record at `j` exactly when its own write worked and every tick since either
    wrote nothing, or read the file and terminated nothing.
   */
  lemma {:induction false} RecordedIff(run: seq<Tick>, i: nat, j: nat)
    requires i < j <= |run| && TerminatesAt(run, i)
    ensures Recorded(run, j) == Some(i) <==>
              run[i].writeWorks
              && forall k :: i < k < j ==> !run[k].writeWorks || (run[k].readWorks && !TerminatesAt(run, k))
    decreases j
  {
    if j > i + 1 {
      RecordedIff(run, i, j - 1);
    }
  }

  /** No tick strictly between `i` and `j` rewrites the file without having read it. */
  ghost predicate Remembers(run: seq<Tick>, i: nat, j: nat) {
    j <= |run| && forall k :: i < k < j ==> run[k].readWorks || !run[k].writeWorks
  }

  lemma {:induction false} RecordedSince(run: seq<Tick>, i: nat, j: nat)
    requires i < j && Remembers(run, i, j) && TerminatesAt(run, i) && run[i].writeWorks
    ensures Recorded(run, j).Some?
    ensures var m := Recorded(run, j).value; i <= m && (m == i || run[m].now - run[i].now >= HEAL_COOLDOWN_S)
    decreases j
  {
    if j > i + 1 {
      RecordedSince(run, i, j - 1);
      TerminatesAtIff(run, j - 1);
    }
  }

  /**
    Any two terminations are at least 1800 seconds apart, whatever the clock does, if the first one was written
    down and no tick in between rewrote the file without having read it.
   */
  lemma TerminationsAreApart(run: seq<Tick>, i: nat, j: nat)
    requires i < j < |run| && TerminatesAt(run, i) && TerminatesAt(run, j)
    requires run[i].writeWorks && Remembers(run, i, j)
    ensures run[j].now - run[i].now >= HEAL_COOLDOWN_S
  {
    hide TerminatesAt, Recorded, Calls;
    RecordedSince(run, i, j);
    TerminatesAtIff(run, j);
  }

  /** Every termination from `i` to `j - 1` is written down, and no tick rewrites the file without having read it. */
  ghost predicate KeepsBooks(run: seq<Tick>, i: nat, j: nat) {
    && j <= |run|
    && forall k :: i <= k < j ==> (TerminatesAt(run, k) ==> run[k].writeWorks) && (run[k].readWorks || !run[k].writeWorks)
  }

  lemma {:induction false} RateFrom(run: seq<Tick>, i: nat, m: nat, j: nat)
    requires i <= m < j < |run| && KeepsBooks(run, i, j) && TerminatesAt(run, i) && TerminatesAt(run, j)
    requires TerminatesAt(run, m) && forall k :: m < k < j ==> !TerminatesAt(run, k)
    ensures HEAL_COOLDOWN_S * (Terminations(run, i, j + 1) - 1) <= run[j].now - run[i].now
    decreases m
  {
    hide TerminatesAt;
    TerminationsAreApart(run, m, j);
    NoneBetween(run, i, m + 1, j);
    if i < m {
      var l := Previous(run, i, m);
      RateFrom(run, i, l, m);
    } else {
      assert Terminations(run, i, i) == 0;
    }
  }

  /** Hence from a first to a last termination there are at most 1 + L / 1800, where L is the time between the two. */
  lemma TerminationRate(run: seq<Tick>, i: nat, j: nat)
    requires i < j < |run| && KeepsBooks(run, i, j) && TerminatesAt(run, i) && TerminatesAt(run, j)
    ensures HEAL_COOLDOWN_S * (Terminations(run, i, j + 1) - 1) <= run[j].now - run[i].now
  {
    hide TerminatesAt, KeepsBooks;
    var m := Previous(run, i, j);
    RateFrom(run, i, m, j);
  }

  lemma {:induction false} NoneBefore(run: seq<Tick>, i: nat, f: nat, j: nat)
    requires i <= f <= j <= |run| && forall k :: i <= k < f ==> !TerminatesAt(run, k)
    ensures Terminations(run, i, j) == Terminations(run, f, j)
    decreases j
  {
    if f < j {
      NoneBefore(run, i, f, j - 1);
    } else {
      NoneBetween(run, i, i, j);
    }
  }

  /** In a stretch in which the clock does not go backwards, of L seconds, there are at most 1 + L / 1800 terminations. */
  lemma {:induction false} StretchRate(run: seq<Tick>, i: nat, j: nat)
    requires i < j <= |run| && KeepsBooks(run, i, j)
    requires forall k, l :: i <= k <= l < j ==> run[k].now <= run[l].now
    ensures HEAL_COOLDOWN_S * (Terminations(run, i, j) - 1) <= run[j - 1].now - run[i].now
    decreases j - i
  {
    hide TerminatesAt;
    if j == i + 1 {
      assert Terminations(run, i, i) == 0;
    } else if !TerminatesAt(run, i) {
      StretchRate(run, i + 1, j);
      NoneBefore(run, i, i + 1, j);
    } else if !TerminatesAt(run, j - 1) {
      StretchRate(run, i, j - 1);
    } else {
      TerminationRate(run, i, j - 1);
    }
  }

  lemma {:induction false} NoneBetween(run: seq<Tick>, from: nat, i: nat, j: nat)
    requires from <= i <= j <= |run| && forall k :: i <= k < j ==> !TerminatesAt(run, k)
    ensures Terminations(run, from, j) == Terminations(run, from, i)
    decreases j
  {
    if i < j {
      NoneBetween(run, from, i, j - 1);
    }
  }

  lemma {:induction false} Previous(run: seq<Tick>, i: nat, j: nat) returns (m: nat)
    requires i < j <= |run| && TerminatesAt(run, i)
    ensures i <= m < j && TerminatesAt(run, m) && forall k :: m < k < j ==> !TerminatesAt(run, k)
    decreases j
  {
    if TerminatesAt(run, j - 1) {
      m := j - 1;
    } else {
      m := Previous(run, i, j - 1);
    }
  }

  /**
    Right after a termination, a tick that would terminate again but for the cooldown does so exactly when the
    termination was not written down.
   */
  lemma TerminatesAgainIff(run: seq<Tick>, i: nat)
    requires i + 1 < |run| && TerminatesAt(run, i)
    requires 0 <= run[i + 1].now - run[i].now < HEAL_COOLDOWN_S
    requires !run[i + 1].ok && run[i + 1].readWorks && run[i + 1].terminateRuns
    requires SnapshotStale(run[i + 1].snapshot, run[i + 1].now)
    ensures TerminatesAt(run, i + 1) <==> !run[i].writeWorks
  {
    hide SnapshotStale, TerminatesAt, Recorded;
    TerminatesAtIff(run, i);
    TerminatesAtIff(run, i + 1);
    RecordedIff(run, i, i + 1);
    if !run[i].writeWorks {
      assert CountersAt(run, i + 1) == CountersAt(run, i);
      RecordedTime(run, i);
      RecordedTime(run, i + 1);
    }
  }

  /** The failed probe of minute `i`, with no status snapshot. */
  function DeadTick(i: nat, readWorks: bool): Tick
    requires i < 30
  {
    Tick(1 + 60 * i, false, 1, None, "", "", "", Absent, true, readWorks, true)
  }

  /** Thirty failed probes, one a minute; only the file in front of the sixteenth cannot be read. */
  function UnreadOnce(): seq<Tick> {
    seq(30, i requires 0 <= i < 30 => DeadTick(i, i != 15))
  }

  lemma {:induction false} UnreadOnceCounters(i: nat)
    requires i < 30
    ensures CountersAt(UnreadOnce(), i) ==
            if i < 15 then Counters(i, 0, 0)
            else if i == 15 then Counters(15, 841, 1)
            else Counters(i - 15, 0, 0)
  {
    if i > 0 {
      UnreadOnceCounters(i - 1);
      assert UnreadOnce()[i - 1] == DeadTick(i - 1, i - 1 != 15);
    }
  }

  /** Although every write works and the clock is right, a single failed read lets two terminations be 900 seconds apart. */
  lemma FailedReadForgets()
    ensures var run := UnreadOnce();
            TerminatesAt(run, 14) && TerminatesAt(run, 29) && run[29].now - run[14].now == 900
  {
    UnreadOnceCounters(14);
    UnreadOnceCounters(29);
    assert UnreadOnce()[14] == DeadTick(14, true) && UnreadOnce()[29] == DeadTick(29, true);
  }

  // ----- The failures behind a termination -----------------------------------

  /** Failed probes before tick `i` since the last success that was written down. */
  function FailedSince(run: seq<Tick>, i: nat): (r: nat)
    requires i <= |run|
    ensures r <= i
  {
    if i == 0 || (run[i - 1].ok && run[i - 1].writeWorks) then 0
    else FailedSince(run, i - 1) + (if run[i - 1].ok then 0 else 1)
  }

  ghost function FailedFrom(run: seq<Tick>, from: nat, i: nat): set<int>
    requires i <= |run|
  {
    set k | from <= k < i && !run[k].ok
  }

  /** `from` is where the count begins: after the last success that was written down, or at the beginning. */
  ghost predicate CountsFrom(run: seq<Tick>, from: nat, i: nat)
    requires i <= |run|
  {
    && from <= i && (from == 0 || (run[from - 1].ok && run[from - 1].writeWorks))
    && forall k :: from <= k < i ==> !(run[k].ok && run[k].writeWorks)
  }

  lemma {:induction false} FailedSinceIs(run: seq<Tick>, from: nat, i: nat)
    requires i <= |run| && CountsFrom(run, from, i)
    ensures FailedSince(run, i) == |FailedFrom(run, from, i)|
  {
    if i == from {
      assert FailedFrom(run, from, i) == {};
    } else {
      FailedSinceIs(run, from, i - 1);
      FailedNext(run, from, i - 1);
    }
  }

  lemma FailedNext(run: seq<Tick>, from: nat, i: nat)
    requires from <= i < |run|
    ensures |FailedFrom(run, from, i + 1)| == |FailedFrom(run, from, i)| + if run[i].ok then 0 else 1
  {
    var before, after := FailedFrom(run, from, i), FailedFrom(run, from, i + 1);
    forall k ensures k in after <==> k in before || (k == i && !run[i].ok) {
    }
    assert i !in before;
    hide FailedFrom;
    assert after == if run[i].ok then before else before + {i};
  }

  lemma {:induction false} CountsFailures(run: seq<Tick>, i: nat)
    requires i <= |run|
    ensures CountersAt(run, i).failures <= FailedSince(run, i)
    decreases i
  {
    if i > 0 {
      CountsFailures(run, i - 1);
    }
  }

  lemma {:induction false} SinceWritten(run: seq<Tick>, k: nat, i: nat)
    requires k < i <= |run| && run[k].ok && run[k].writeWorks
    ensures FailedSince(run, i) < i - k
    decreases i
  {
    if k < i - 1 {
      SinceWritten(run, k, i - 1);
    }
  }

  /**
    For any run: a termination follows at least 15 failed probes since the last success that was written down. The
    last 15 probes have all failed exactly when none of them is a success whose write was lost.
   */
  lemma TerminationNeedsFailures(run: seq<Tick>, i: nat)
    requires i < |run| && TerminatesAt(run, i)
    ensures FailedSince(run, i + 1) >= HEAL_AFTER_FAILURES && i + 1 >= HEAL_AFTER_FAILURES
    ensures (forall k :: i + 1 - HEAL_AFTER_FAILURES <= k <= i ==> !run[k].ok)
            <==> forall k :: i + 1 - HEAL_AFTER_FAILURES <= k < i ==> !run[k].ok || run[k].writeWorks
  {
    CountsFailures(run, i);
    if k :| i + 1 - HEAL_AFTER_FAILURES <= k < i && run[k].ok && run[k].writeWorks {
      SinceWritten(run, k, i + 1);
      assert false;
    }
  }

  /** Fourteen failed probes, a success that cannot be written down, and one more failure. */
  function LostSuccess(): seq<Tick> {
    seq(16, i requires 0 <= i < 16 => DeadTick(i, true).(ok := i == 14, writeWorks := i != 14))
  }

  lemma {:induction false} LostSuccessCounters(i: nat)
    requires i < 16
    ensures CountersAt(LostSuccess(), i) == Counters(if i < 15 then i else 14, 0, 0)
  {
    if i > 0 {
      LostSuccessCounters(i - 1);
    }
  }

  /** Then a single failed probe after a success terminates the distro. */
  lemma OneFailureTerminates()
    ensures var run := LostSuccess();
            TerminatesAt(run, 15) && run[14].ok && Streak(run, 16) == 1
  {
    LostSuccessCounters(15);
    assert LostSuccess()[15] == DeadTick(15, true);
  }

  // ----- Runs in which every read and write works ----------------------------

  /** The file can always be read and written. */
  ghost predicate Reliable(run: seq<Tick>) {
    forall i :: 0 <= i < |run| ==> run[i].readWorks && run[i].writeWorks
  }

  /** A count as a 32-bit integer that starts over at 0. */
  function Wrapped(n: nat): Count {
    n % WRAP
  }

  lemma IncWrapped(n: nat)
    ensures ReadBack(Inc(Wrapped(n))) == Wrapped(n + 1)
  {
  }

  lemma NothingWrapped()
    ensures Wrapped(0) == 0
  {
  }

  lemma {:induction false} CountersTellTheRun(run: seq<Tick>, i: nat)
    requires Reliable(run) && i <= |run|
    ensures CountersAt(run, i)
            == Counters(Wrapped(Streak(run, i)), LastTermination(run, i), Wrapped(Terminations(run, 0, i)))
    decreases i
  {
    if i == 0 {
      NothingWrapped();
    } else {
      hide *;
      CountersTellTheRun(run, i - 1);
      CountersNext(run, i - 1);
      RunNext(run, i - 1);
      IncWrapped(Streak(run, i - 1));
      IncWrapped(Terminations(run, 0, i - 1));
      NothingWrapped();
      assert run[i - 1].readWorks && run[i - 1].writeWorks by {
        WorksAt(run, i - 1);
      }
    }
  }

  lemma WorksAt(run: seq<Tick>, i: nat)
    requires Reliable(run) && i < |run|
    ensures run[i].readWorks && run[i].writeWorks
  {
  }

  lemma RunNext(run: seq<Tick>, i: nat)
    requires i < |run|
    ensures Streak(run, i + 1) == if run[i].ok then 0 else Streak(run, i) + 1
    ensures LastTermination(run, i + 1) == if TerminatesAt(run, i) then run[i].now else LastTermination(run, i)
    ensures Terminations(run, 0, i + 1) == Terminations(run, 0, i) + if TerminatesAt(run, i) then 1 else 0
  {
    hide TerminatesAt;
  }

  lemma CountersNext(run: seq<Tick>, i: nat)
    requires i < |run| && run[i].readWorks && run[i].writeWorks
    ensures var c, d := CountersAt(run, i), CountersAt(run, i + 1);
            && d.failures == (if run[i].ok then 0 else ReadBack(Inc(c.failures)))
            && d.terminated == (if TerminatesAt(run, i) then run[i].now else c.terminated)
            && d.count == if TerminatesAt(run, i) then ReadBack(Inc(c.count)) else c.count
  {
    hide Terminates, Inc;
  }

  /**
    At every point of a run in which reads and writes work, the file holds the length of the current run of
    failed probes, the time of the last termination and the number of terminations
    (the two counters as 32-bit integers that start over at 0).
   */
  lemma FileTellsTheRun(run: seq<Tick>, i: nat)
    requires Reliable(run) && i <= |run|
    ensures ReadCounters(FileAt(run, i))
            == Counters(Streak(run, i) % WRAP, LastTermination(run, i), Terminations(run, 0, i) % WRAP)
  {
    FileHoldsCounters(run, i);
    CountersTellTheRun(run, i);
  }

  /** When exactly the distro is terminated. */
  lemma TerminatesIff(run: seq<Tick>, i: nat)
    requires Reliable(run) && i < |run|
    ensures TerminatesAt(run, i) <==>
            && Streak(run, i + 1) > 0
            && (Streak(run, i + 1) % WRAP) >= HEAL_AFTER_FAILURES
            && (match run[i].snapshot
                case NotConfigured => false
                case Contents(text) =>
                  var epoch := ReadLong(text, "collected_at_epoch");
                  epoch == 0 || run[i].now - epoch >= HEAL_SNAPSHOT_STALE_S
                case _ => true)
            && (LastTermination(run, i) == 0 || run[i].now - LastTermination(run, i) >= HEAL_COOLDOWN_S)
            && run[i].terminateRuns
  {
    CountersTellTheRun(run, i);
    IncWrapped(Streak(run, i));
  }
}
