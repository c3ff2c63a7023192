/**
  The resumable backfill of delisted stocks (scripts/backfill_delisted.py). The snapshot table is a map
  from (code, trade day) to a row; the quote source answers every request the same way.
 */
module Backfill {
  import opened Wrappers

  type Day = int
  type Code = string

  /** A table row; only the daily batch fills in `prevClose`. */
  datatype Row = Row(prevClose: Option<real>, amount: Option<real>, high: Option<real>, low: Option<real>, other: string)

  /** A line of the source's frame; `day` is absent when its date cannot be read. */
  datatype Quote = Quote(day: Option<Day>, amount: Option<real>, high: Option<real>, low: Option<real>, other: string)

  datatype Dated = Dated(day: Day, row: Row)

  datatype Window = Window(code: Code, start: Day, end: Day)

  type Table = map<(Code, Day), Row>

  datatype World = World(fetch: Window -> Option<seq<Quote>>, calendar: seq<Day>)

  // ----- Windows from the master table ---------------------------------------

  datatype DateField = Blank | Unreadable | On(day: Day)

  datatype MasterRow = MasterRow(listed: DateField, delisted: DateField)

  ghost predicate DistinctCodes(ws: seq<Window>) {
    forall i, j :: 0 <= i < j < |ws| ==> ws[i].code != ws[j].code
  }

  /** Every delisted code gets its window or is listed as missing, never both; `codes` is the sorted master table. */
  method DelistedWindows(codes: seq<Code>, master: map<Code, MasterRow>)
    returns (windows: seq<Window>, missing: seq<Code>)
    requires forall c :: c in codes ==> c in master
    requires forall i, j :: 0 <= i < j < |codes| ==> codes[i] != codes[j]
    ensures DistinctCodes(windows)
    ensures forall w :: w in windows <==>
              && w.code in codes && master[w.code].listed.On? && master[w.code].delisted.On?
              && master[w.code].listed.day <= master[w.code].delisted.day
              && w.start == master[w.code].listed.day && w.end == master[w.code].delisted.day
    ensures forall c :: c in missing <==>
              && c in codes && !master[c].delisted.Blank?
              && !(master[c].listed.On? && master[c].delisted.On? && master[c].listed.day <= master[c].delisted.day)
  {
    windows, missing := [], [];
    for k := 0 to |codes|
      invariant DistinctCodes(windows)
      invariant forall w :: w in windows <==>
                  && w.code in codes[..k] && master[w.code].listed.On? && master[w.code].delisted.On?
                  && master[w.code].listed.day <= master[w.code].delisted.day
                  && w.start == master[w.code].listed.day && w.end == master[w.code].delisted.day
      invariant forall c :: c in missing <==>
                  && c in codes[..k] && !master[c].delisted.Blank?
                  && !(master[c].listed.On? && master[c].delisted.On? && master[c].listed.day <= master[c].delisted.day)
    {
      var code := codes[k];
      var row := master[code];
      assert codes[..k + 1] == codes[..k] + [code];
      assert forall i :: 0 <= i < |windows| ==> windows[i] in windows;
      if row.delisted.Blank? {
      } else if row.listed.Blank? {
        missing := missing + [code];
      } else if row.listed.Unreadable? || row.delisted.Unreadable? {
        missing := missing + [code];
      } else if row.listed.day > row.delisted.day {
        missing := missing + [code];
      } else {
        windows := windows + [Window(code, row.listed.day, row.delisted.day)];
      }
    }
    assert codes[..|codes|] == codes;
  }

  // ----- Coverage ------------------------------------------------------------

  ghost predicate Sorted(days: seq<Day>) {
    forall i, j :: 0 <= i < j < |days| ==> days[i] < days[j]
  }

  /** The first trading day on or after `start`, or `start` when the calendar has none. */
  function Anchor(calendar: seq<Day>, start: Day): (r: Day)
    ensures start <= r
    ensures r in calendar || (r == start && forall d :: d in calendar ==> d < start)
    ensures Sorted(calendar) ==> forall d :: d in calendar && start <= d ==> r <= d
  {
    if calendar == [] then start
    else
      assert calendar == [calendar[0]] + calendar[1..];
      if calendar[0] >= start then calendar[0] else Anchor(calendar[1..], start)
  }

  function At(db: Table, code: Code, day: Day): Option<Row> {
    if (code, day) in db then Some(db[(code, day)]) else None
  }

  predicate InWindow(w: Window, day: Day) {
    w.start <= day <= w.end
  }

  function DaysOf(db: Table, w: Window): (r: set<Day>)
    ensures forall d :: d in r <==> InWindow(w, d) && At(db, w.code, d).Some?
  {
    set key | key in db && key.0 == w.code && InWindow(w, key.1) :: key.1
  }

  predicate Complete(row: Row) {
    row.amount.Some? && row.high.Some? && row.low.Some?
  }

  /**
    The window needs no fetching: its rows are complete and the earliest is no later than the anchor, that is,
    some row is.
   */
  predicate Covered(world: World, db: Table, w: Window) {
    var days := DaysOf(db, w);
    (forall d :: d in days ==> Complete(At(db, w.code, d).value))
    && exists d :: d in days && d <= Anchor(world.calendar, w.start)
  }

  /** The days that hold a row of the daily batch. */
  function Overlap(db: Table, w: Window): (r: set<Day>)
    ensures forall d :: d in r <==>
              InWindow(w, d) && At(db, w.code, d).Some? && At(db, w.code, d).value.prevClose.Some?
  {
    set d | d in DaysOf(db, w) && At(db, w.code, d).value.prevClose.Some?
  }

  // ----- Fetching and writing ------------------------------------------------

  /** Lines without a readable date are dropped; no previous close is ever invented. */
  function HistoryRows(frame: seq<Quote>): (r: seq<Dated>)
    ensures forall x :: x in r ==> x.row.prevClose == None
    ensures |r| <= |frame|
  {
    if frame == [] then []
    else
      var q := frame[0];
      (if q.day.Some? then [Dated(q.day.value, Row(None, q.amount, q.high, q.low, q.other))] else [])
      + HistoryRows(frame[1..])
  }

  function SourceRows(world: World, w: Window): (r: seq<Dated>)
    ensures forall x :: x in r ==> x.row.prevClose == None
  {
    match world.fetch(w)
    case None => []
    case Some(frame) => HistoryRows(frame)
  }

  /** The rows whose day holds no daily-batch row. */
  function Kept(rows: seq<Dated>, overlap: set<Day>): (r: seq<Dated>)
    ensures forall x :: x in r <==> x in rows && x.day !in overlap
  {
    if rows == [] then []
    else
      var n := |rows| - 1;
      if rows[n].day in overlap then Kept(rows[..n], overlap) else Kept(rows[..n], overlap) + [rows[n]]
  }

  /** INSERT OR REPLACE, row by row. */
  function Upsert(db: Table, code: Code, rows: seq<Dated>): Table {
    if rows == [] then db
    else
      var n := |rows| - 1;
      Upsert(db, code, rows[..n])[(code, rows[n].day) := rows[n].row]
  }

  function ToWrite(world: World, db: Table, w: Window): seq<Dated> {
    Kept(SourceRows(world, w), Overlap(db, w))
  }

  /** The table after one code. */
  function After(world: World, db: Table, w: Window): Table {
    if Covered(world, db, w) then db else Upsert(db, w.code, ToWrite(world, db, w))
  }

  /** The table after the first `k` codes. */
  function Run(world: World, db: Table, ws: seq<Window>, k: nat): Table
    requires k <= |ws|
  {
    if k == 0 then db else After(world, Run(world, db, ws, k - 1), ws[k - 1])
  }

  // ----- What one code does to the table -------------------------------------

  /** The last row given for a day. */
  function LastRow(rows: seq<Dated>, day: Day): (r: Option<Row>)
    ensures r.Some? ==> Dated(day, r.value) in rows
  {
    if rows == [] then None
    else
      var n := |rows| - 1;
      if rows[n].day == day then Some(rows[n].row) else LastRow(rows[..n], day)
  }

  /** Line `i` is the last of the frame with this day, and `row` holds its numbers. */
  ghost predicate LastLine(frame: seq<Quote>, day: Day, i: nat, row: Row) {
    && i < |frame| && frame[i].day == Some(day) && (forall j :: i < j < |frame| ==> frame[j].day != Some(day))
    && row.prevClose == None && row.amount == frame[i].amount && row.high == frame[i].high
    && row.low == frame[i].low && row.other == frame[i].other
  }

  lemma RowOfLine(q: Quote, day: Day)
    ensures LastRow(HistoryRows([q]), day) ==
            if q.day == Some(day) then Some(Row(None, q.amount, q.high, q.low, q.other)) else None
  {
    assert HistoryRows([q][1..]) == [];
  }

  lemma RowsOfMore(frame: seq<Quote>)
    requires frame != []
    ensures HistoryRows(frame) == HistoryRows([frame[0]]) + HistoryRows(frame[1..])
  {
    assert HistoryRows([frame[0]][1..]) == [];
  }

  lemma LineOfMore(frame: seq<Quote>, day: Day, i: nat, row: Row)
    requires frame != [] && LastLine(frame[1..], day, i, row)
    ensures LastLine(frame, day, i + 1, row)
  {
    assert frame == [frame[0]] + frame[1..];
  }

  /** The source's last line for a day is the row written for it, field by field. */
  lemma {:induction false} LastLineWins(frame: seq<Quote>, day: Day)
    ensures match LastRow(HistoryRows(frame), day)
            case None => forall i :: 0 <= i < |frame| ==> frame[i].day != Some(day)
            case Some(row) => exists i: nat :: LastLine(frame, day, i, row)
  {
    if frame != [] {
      hide HistoryRows, LastRow;
      var rest := frame[1..];
      LastLineWins(rest, day);
      RowsOfMore(frame);
      RowOfLine(frame[0], day);
      LastOfMore(HistoryRows([frame[0]]), HistoryRows(rest), day);
      if LastRow(HistoryRows(rest), day).Some? {
        var row := LastRow(HistoryRows(rest), day).value;
        var i: nat :| LastLine(rest, day, i, row);
        LineOfMore(frame, day, i, row);
      } else {
        FirstLine(frame, day);
      }
    }
  }

  lemma FirstLine(frame: seq<Quote>, day: Day)
    requires frame != [] && forall i :: 0 <= i < |frame[1..]| ==> frame[1..][i].day != Some(day)
    ensures forall i :: 0 < i < |frame| ==> frame[i].day != Some(day)
    ensures var q := frame[0];
            q.day == Some(day) ==> LastLine(frame, day, 0, Row(None, q.amount, q.high, q.low, q.other))
  {
    forall i | 0 < i < |frame| ensures frame[i].day != Some(day) {
      assert frame[i] == frame[1..][i - 1];
    }
  }

  lemma {:induction false} LastOfMore(a: seq<Dated>, b: seq<Dated>, day: Day)
    ensures LastRow(a + b, day) == if LastRow(b, day).Some? then LastRow(b, day) else LastRow(a, day)
  {
    if b == [] {
      assert a + b == a;
    } else {
      assert (a + b)[..|a + b| - 1] == a + b[..|b| - 1];
      LastOfMore(a, b[..|b| - 1], day);
    }
  }

  lemma {:induction false} UpsertAt(db: Table, code: Code, rows: seq<Dated>, c: Code, d: Day)
    ensures At(Upsert(db, code, rows), c, d) ==
            if c == code && LastRow(rows, d).Some? then LastRow(rows, d) else At(db, c, d)
  {
    if rows != [] {
      UpsertAt(db, code, rows[..|rows| - 1], c, d);
    }
  }

  lemma {:induction false} KeptAt(rows: seq<Dated>, overlap: set<Day>, d: Day)
    ensures LastRow(Kept(rows, overlap), d) == if d in overlap then None else LastRow(rows, d)
  {
    if rows != [] {
      var n := |rows| - 1;
      KeptAt(rows[..n], overlap, d);
      if rows[n].day !in overlap {
        assert (Kept(rows[..n], overlap) + [rows[n]])[..|Kept(rows[..n], overlap)|] == Kept(rows[..n], overlap);
      }
    }
  }

  /** A row changes only for this code, outside the daily-batch days, and to the source's last row for the day. */
  lemma AfterAt(world: World, db: Table, w: Window, c: Code, d: Day)
    ensures At(After(world, db, w), c, d) ==
            if c == w.code && !Covered(world, db, w) && d !in Overlap(db, w) && LastRow(SourceRows(world, w), d).Some?
            then LastRow(SourceRows(world, w), d) else At(db, c, d)
  {
    hide At, Covered, Overlap, Upsert, Kept, LastRow, SourceRows;
    UpsertAt(db, w.code, ToWrite(world, db, w), c, d);
    KeptAt(SourceRows(world, w), Overlap(db, w), d);
  }

  lemma SameTable(a: Table, b: Table)
    requires forall c, d :: At(a, c, d) == At(b, c, d)
    ensures a == b
  {
    forall key: (Code, Day) ensures key in a <==> key in b {
      assert At(a, key.0, key.1) == At(b, key.0, key.1);
    }
    forall key: (Code, Day) | key in a ensures a[key] == b[key] {
      assert At(a, key.0, key.1) == At(b, key.0, key.1);
    }
  }

  /** The two tables hold the same rows of `code`. */
  ghost predicate Agree(a: Table, b: Table, code: Code) {
    forall d :: At(a, code, d) == At(b, code, d)
  }

  lemma SameDays(a: Table, b: Table, w: Window)
    requires Agree(a, b, w.code)
    ensures DaysOf(a, w) == DaysOf(b, w) && Overlap(a, w) == Overlap(b, w)
  {
    hide At, InWindow, DaysOf, Overlap;
    forall d ensures d in DaysOf(a, w) <==> d in DaysOf(b, w) {
      assert At(a, w.code, d) == At(b, w.code, d);
    }
    forall d ensures d in Overlap(a, w) <==> d in Overlap(b, w) {
      assert At(a, w.code, d) == At(b, w.code, d);
    }
  }

  lemma CoveredToo(world: World, a: Table, b: Table, w: Window)
    requires Agree(a, b, w.code) && Covered(world, a, w)
    ensures Covered(world, b, w)
  {
    hide At, Anchor, InWindow, Complete, DaysOf;
    SameDays(a, b, w);
    var d :| d in DaysOf(a, w) && d <= Anchor(world.calendar, w.start);
    assert d in DaysOf(b, w) && d <= Anchor(world.calendar, w.start);
    forall e | e in DaysOf(b, w) ensures Complete(At(b, w.code, e).value) {
      assert e in DaysOf(a, w) && At(a, w.code, e) == At(b, w.code, e);
    }
  }

  lemma SameDecision(world: World, a: Table, b: Table, w: Window)
    requires Agree(a, b, w.code)
    ensures Covered(world, a, w) == Covered(world, b, w)
    ensures DaysOf(a, w) == DaysOf(b, w) && Overlap(a, w) == Overlap(b, w)
  {
    hide Covered, DaysOf, Overlap, Agree;
    SameDays(a, b, w);
    Symmetric(a, b, w.code);
    if Covered(world, a, w) {
      CoveredToo(world, a, b, w);
    }
    if Covered(world, b, w) {
      CoveredToo(world, b, a, w);
    }
  }

  /** What a code does depends on its own rows only, and it touches no other. */
  lemma OwnRowsOnly(world: World, a: Table, b: Table, w: Window)
    requires Agree(a, b, w.code)
    ensures Agree(After(world, a, w), After(world, b, w), w.code)
  {
    hide At, Covered, Overlap, LastRow, SourceRows, After;
    SameDecision(world, a, b, w);
    forall d ensures At(After(world, a, w), w.code, d) == At(After(world, b, w), w.code, d) {
      AfterAt(world, a, w, w.code, d);
      AfterAt(world, b, w, w.code, d);
    }
  }

  lemma OthersUntouched(world: World, db: Table, w: Window, c: Code)
    requires c != w.code
    ensures Agree(After(world, db, w), db, c)
  {
    hide At, Covered, Overlap, LastRow, SourceRows, After;
    forall d ensures At(After(world, db, w), c, d) == At(db, c, d) {
      AfterAt(world, db, w, c, d);
    }
  }

  lemma SourceIsNotDaily(world: World, w: Window, d: Day)
    ensures LastRow(SourceRows(world, w), d).Some? ==> LastRow(SourceRows(world, w), d).value.prevClose == None
  {
  }

  lemma OverlapStays(world: World, db: Table, w: Window)
    ensures Overlap(After(world, db, w), w) == Overlap(db, w)
  {
    hide At, Covered, DaysOf, LastRow, SourceRows, After, InWindow;
    forall d ensures d in Overlap(After(world, db, w), w) <==> d in Overlap(db, w) {
      AfterAt(world, db, w, w.code, d);
      SourceIsNotDaily(world, w, d);
    }
  }

  /** Handling a code twice is handling it once. */
  lemma StepIdempotent(world: World, db: Table, w: Window)
    ensures After(world, After(world, db, w), w) == After(world, db, w)
  {
    hide At, Covered, Overlap, LastRow, SourceRows, After;
    var once := After(world, db, w);
    OverlapStays(world, db, w);
    forall c, d ensures At(After(world, once, w), c, d) == At(once, c, d) {
      AfterAt(world, once, w, c, d);
      AfterAt(world, db, w, c, d);
      if Covered(world, db, w) {
        CoveredStays(world, db, w);
      }
    }
    SameTable(After(world, once, w), once);
  }

  lemma CoveredStays(world: World, db: Table, w: Window)
    requires Covered(world, db, w)
    ensures After(world, db, w) == db
  {
  }

  // ----- Whole runs ----------------------------------------------------------

  lemma AgreeChain(a: Table, b: Table, t: Table, c: Code)
    requires Agree(a, b, c) && Agree(b, t, c)
    ensures Agree(a, t, c)
  {
    forall d ensures At(a, c, d) == At(t, c, d) {
      assert At(a, c, d) == At(b, c, d);
    }
  }

  lemma {:induction false} RunLeavesOthers(world: World, db: Table, ws: seq<Window>, k: nat, c: Code)
    requires k <= |ws| && forall i :: 0 <= i < k ==> ws[i].code != c
    ensures Agree(Run(world, db, ws, k), db, c)
  {
    hide After, At;
    if k > 0 {
      var before := Run(world, db, ws, k - 1);
      RunLeavesOthers(world, db, ws, k - 1, c);
      OthersUntouched(world, before, ws[k - 1], c);
      AgreeChain(After(world, before, ws[k - 1]), before, db, c);
    }
  }

  /** A run leaves each of its codes as if that code alone had been handled. */
  lemma {:induction false} RunByCode(world: World, db: Table, ws: seq<Window>, k: nat, i: nat)
    requires DistinctCodes(ws) && i < k <= |ws|
    ensures Agree(Run(world, db, ws, k), After(world, db, ws[i]), ws[i].code)
  {
    hide After, At, Agree;
    var before, w := Run(world, db, ws, k - 1), ws[k - 1];
    if i == k - 1 {
      RunLeavesOthers(world, db, ws, k - 1, w.code);
      OwnRowsOnly(world, before, db, w);
    } else {
      RunByCode(world, db, ws, k - 1, i);
      OthersUntouched(world, before, w, ws[i].code);
      AgreeChain(After(world, before, w), before, After(world, db, ws[i]), ws[i].code);
    }
  }

  /** Stopping after any number of codes and running again gives the table of one uninterrupted run. */
  lemma CrashThenRerun(world: World, db: Table, ws: seq<Window>, k: nat)
    requires DistinctCodes(ws) && k <= |ws|
    ensures Run(world, Run(world, db, ws, k), ws, |ws|) == Run(world, db, ws, |ws|)
  {
    hide Run, Agree, At;
    var part := Run(world, db, ws, k);
    forall c ensures Agree(Run(world, part, ws, |ws|), Run(world, db, ws, |ws|), c) {
      CodeAfterCrash(world, db, ws, k, c);
    }
    AllAgree(Run(world, part, ws, |ws|), Run(world, db, ws, |ws|));
  }

  lemma AllAgree(a: Table, b: Table)
    requires forall c :: Agree(a, b, c)
    ensures a == b
  {
    forall c, d ensures At(a, c, d) == At(b, c, d) {
      assert Agree(a, b, c);
    }
    SameTable(a, b);
  }

  lemma CodeAfterCrash(world: World, db: Table, ws: seq<Window>, k: nat, c: Code)
    requires DistinctCodes(ws) && k <= |ws|
    ensures Agree(Run(world, Run(world, db, ws, k), ws, |ws|), Run(world, db, ws, |ws|), c)
  {
    hide Run, After, At, Agree;
    var part := Run(world, db, ws, k);
    if i: nat :| i < |ws| && ws[i].code == c {
      HandledAfterCrash(world, db, ws, k, i);
      RunByCode(world, db, ws, |ws|, i);
      RunByCode(world, part, ws, |ws|, i);
      Symmetric(Run(world, db, ws, |ws|), After(world, db, ws[i]), c);
      AgreeChain(Run(world, part, ws, |ws|), After(world, part, ws[i]), After(world, db, ws[i]), c);
      AgreeChain(Run(world, part, ws, |ws|), After(world, db, ws[i]), Run(world, db, ws, |ws|), c);
    } else {
      RunLeavesOthers(world, db, ws, k, c);
      RunLeavesOthers(world, db, ws, |ws|, c);
      RunLeavesOthers(world, part, ws, |ws|, c);
      Symmetric(Run(world, db, ws, |ws|), db, c);
      AgreeChain(Run(world, part, ws, |ws|), part, db, c);
      AgreeChain(Run(world, part, ws, |ws|), db, Run(world, db, ws, |ws|), c);
    }
  }

  lemma Symmetric(a: Table, b: Table, c: Code)
    requires Agree(a, b, c)
    ensures Agree(b, a, c)
  {
  }

  /** Whether or not its turn came before the crash, the code ends up handled once. */
  lemma HandledAfterCrash(world: World, db: Table, ws: seq<Window>, k: nat, i: nat)
    requires DistinctCodes(ws) && k <= |ws| && i < |ws|
    ensures Agree(After(world, Run(world, db, ws, k), ws[i]), After(world, db, ws[i]), ws[i].code)
  {
    hide Run, After, At, Agree;
    var part := Run(world, db, ws, k);
    if i < k {
      RunByCode(world, db, ws, k, i);
      OwnRowsOnly(world, part, After(world, db, ws[i]), ws[i]);
      StepIdempotent(world, db, ws[i]);
    } else {
      RunLeavesOthers(world, db, ws, k, ws[i].code);
      OwnRowsOnly(world, part, db, ws[i]);
    }
  }

  /** Any series of interrupted or limited runs before a full run changes nothing about its result. */
  lemma {:induction false} AnyRunsThenFull(world: World, db: Table, ws: seq<Window>, stops: seq<nat>)
    requires DistinctCodes(ws) && forall j :: 0 <= j < |stops| ==> stops[j] <= |ws|
    ensures Run(world, Runs(world, db, ws, stops), ws, |ws|) == Run(world, db, ws, |ws|)
    decreases |stops|
  {
    if stops != [] {
      AnyRunsThenFull(world, Run(world, db, ws, stops[0]), ws, stops[1..]);
      CrashThenRerun(world, db, ws, stops[0]);
    }
  }

  function Runs(world: World, db: Table, ws: seq<Window>, stops: seq<nat>): Table
    requires forall j :: 0 <= j < |stops| ==> stops[j] <= |ws|
    decreases |stops|
  {
    if stops == [] then db else Runs(world, Run(world, db, ws, stops[0]), ws, stops[1..])
  }

  /** A second run changes no row. */
  lemma SecondRunIsNoOp(world: World, db: Table, ws: seq<Window>)
    requires DistinctCodes(ws)
    ensures Run(world, Run(world, db, ws, |ws|), ws, |ws|) == Run(world, db, ws, |ws|)
  {
    CrashThenRerun(world, db, ws, |ws|);
  }

  // ----- Daily-batch rows ----------------------------------------------------

  ghost predicate Daily(db: Table, code: Code, d: Day) {
    At(db, code, d).Some? && At(db, code, d).value.prevClose.Some?
  }

  /** Every row of the daily batch is still there, unaltered. */
  ghost predicate DailyKept(before: Table, after: Table) {
    forall c, d :: Daily(before, c, d) ==> At(after, c, d) == At(before, c, d)
  }

  /** The source answers with a day outside the window on which a daily-batch row exists. */
  ghost predicate Strays(world: World, db: Table, w: Window) {
    exists d :: (d < w.start || w.end < d) && LastRow(SourceRows(world, w), d).Some? && Daily(db, w.code, d)
  }

  /** The guard looks inside the window only: a fetched code keeps the daily rows unless the source strays onto one. */
  lemma DailyKeptIff(world: World, db: Table, w: Window)
    ensures DailyKept(db, After(world, db, w)) <==> Covered(world, db, w) || !Strays(world, db, w)
  {
    hide At, Covered, LastRow, SourceRows, After, DaysOf;
    forall c, d ensures At(After(world, db, w), c, d) ==
                        if c == w.code && !Covered(world, db, w) && d !in Overlap(db, w)
                           && LastRow(SourceRows(world, w), d).Some?
                        then LastRow(SourceRows(world, w), d) else At(db, c, d) {
      AfterAt(world, db, w, c, d);
    }
    if !Covered(world, db, w) && Strays(world, db, w) {
      var d :| (d < w.start || w.end < d) && LastRow(SourceRows(world, w), d).Some? && Daily(db, w.code, d);
      SourceIsNotDaily(world, w, d);
    }
  }

  /** The source keeps to the windows it is asked for. */
  ghost predicate StaysInside(world: World, ws: seq<Window>) {
    forall i, d :: 0 <= i < |ws| && LastRow(SourceRows(world, ws[i]), d).Some? ==> ws[i].start <= d <= ws[i].end
  }

  lemma DailyKeptChain(a: Table, b: Table, c: Table)
    requires DailyKept(a, b) && DailyKept(b, c)
    ensures DailyKept(a, c)
  {
    hide At;
    forall code, d | Daily(a, code, d) ensures At(c, code, d) == At(a, code, d) {
      assert Daily(b, code, d);
    }
  }

  lemma StepKeepsDaily(world: World, db: Table, ws: seq<Window>, i: nat)
    requires StaysInside(world, ws) && i < |ws|
    ensures DailyKept(db, After(world, db, ws[i]))
  {
    hide DailyKept, LastRow, SourceRows, After, At, InWindow, Daily, Covered;
    DailyKeptIff(world, db, ws[i]);
  }

  /** With a source that keeps to its windows, a whole run alters no row of the daily batch. */
  lemma {:induction false} RunKeepsDaily(world: World, db: Table, ws: seq<Window>, k: nat)
    requires StaysInside(world, ws) && k <= |ws|
    ensures DailyKept(db, Run(world, db, ws, k))
  {
    hide DailyKept, StaysInside, After;
    if k == 0 {
      NothingLost(db);
    } else {
      RunKeepsDaily(world, db, ws, k - 1);
      StepKeepsDaily(world, Run(world, db, ws, k - 1), ws, k - 1);
      DailyKeptChain(db, Run(world, db, ws, k - 1), Run(world, db, ws, k));
    }
  }

  lemma NothingLost(db: Table)
    ensures DailyKept(db, db)
  {
  }

  /** A row outside the window is not protected: the source's answer replaces the daily row. */
  lemma StrayRowOverwritesDaily(world: World, db: Table)
    requires world.fetch(Window("a", 1, 2)) == Some([Quote(Some(9), None, None, None, "")])
    requires db == map[("a", 9) := Row(Some(1.0), None, None, None, "")]
    ensures !DailyKept(db, After(world, db, Window("a", 1, 2)))
  {
    hide After, DailyKept, Anchor;
    var w := Window("a", 1, 2);
    assert SourceRows(world, w) == [Dated(9, Row(None, None, None, None, ""))];
    assert LastRow(SourceRows(world, w), 9).Some?;
    assert Daily(db, w.code, 9);
    assert DaysOf(db, w) == {};
    DailyKeptIff(world, db, w);
  }

  // ----- Being skipped the next time -----------------------------------------

  predicate Writes(world: World, db: Table, w: Window, d: Day) {
    InWindow(w, d) && d !in Overlap(db, w) && LastRow(SourceRows(world, w), d).Some?
  }

  lemma AfterInWindow(world: World, db: Table, w: Window, d: Day)
    requires !Covered(world, db, w) && InWindow(w, d)
    ensures d in DaysOf(After(world, db, w), w) <==> Writes(world, db, w, d) || d in DaysOf(db, w)
    ensures At(After(world, db, w), w.code, d) ==
            if Writes(world, db, w, d) then LastRow(SourceRows(world, w), d) else At(db, w.code, d)
  {
    hide At, Covered, Overlap, LastRow, SourceRows, After, InWindow;
    AfterAt(world, db, w, w.code, d);
  }

  predicate LacksField(row: Row) {
    row.amount == None || row.high == None || row.low == None
  }

  /**
    After a fetch, the next run skips the code exactly when none of the rows the window then holds lacks its amount,
    high or low, and one of them reaches the anchor.
   */
  lemma SkippedNextIff(world: World, db: Table, w: Window)
    requires !Covered(world, db, w)
    ensures Covered(world, After(world, db, w), w) <==>
              && (forall d :: Writes(world, db, w, d) ==> !LacksField(LastRow(SourceRows(world, w), d).value))
              && (forall d :: d in DaysOf(db, w) && !Writes(world, db, w, d) ==> !LacksField(At(db, w.code, d).value))
              && exists d :: (d in DaysOf(db, w) || Writes(world, db, w, d)) && d <= Anchor(world.calendar, w.start)
  {
    hide At, Overlap, LastRow, SourceRows, After, Anchor;
    forall d | InWindow(w, d)
      ensures d in DaysOf(After(world, db, w), w) <==> Writes(world, db, w, d) || d in DaysOf(db, w)
      ensures At(After(world, db, w), w.code, d) ==
              if Writes(world, db, w, d) then LastRow(SourceRows(world, w), d) else At(db, w.code, d)
    {
      AfterInWindow(world, db, w, d);
    }
  }

  // ----- What is fetched -----------------------------------------------------

  /** The window holds no row, or one that lacks a field, or none that reaches back to its first trading day. */
  ghost predicate Wanting(db: Table, w: Window, first: Day) {
    || (forall d :: InWindow(w, d) ==> At(db, w.code, d) == None)
    || (exists d :: InWindow(w, d) && At(db, w.code, d).Some? && LacksField(At(db, w.code, d).value))
    || forall d :: InWindow(w, d) && d <= first ==> At(db, w.code, d) == None
  }

  lemma CoveredIff(world: World, db: Table, w: Window)
    ensures Covered(world, db, w) <==> !Wanting(db, w, Anchor(world.calendar, w.start))
  {
    hide At, Anchor, InWindow;
  }

  /** What the source says of a day: its last line for it, if there is one. */
  ghost predicate SourceSays(world: World, w: Window, d: Day, row: Option<Row>) {
    match world.fetch(w)
    case None => row == None
    case Some(frame) =>
      if row.Some? then exists i: nat :: LastLine(frame, d, i, row.value)
      else forall i :: 0 <= i < |frame| ==> frame[i].day != Some(d)
  }

  lemma SourceSaysLast(world: World, w: Window, d: Day)
    ensures SourceSays(world, w, d, LastRow(SourceRows(world, w), d))
  {
    if world.fetch(w).Some? {
      LastLineWins(world.fetch(w).value, d);
    }
  }

  /** A row of the daily batch lies on this day of the window. */
  ghost predicate Guarded(db: Table, w: Window, d: Day) {
    InWindow(w, d) && At(db, w.code, d).Some? && At(db, w.code, d).value.prevClose.Some?
  }

  /** The day holds the source's last line for it, unless the source has none or the day is guarded. */
  ghost predicate Fetched(world: World, before: Table, after: Table, w: Window, d: Day) {
    exists said :: SourceSays(world, w, d, said)
                   && At(after, w.code, d) == (if said.Some? && !Guarded(before, w, d) then said else At(before, w.code, d))
  }

  lemma DayIsFetched(world: World, db: Table, w: Window, d: Day)
    requires !Covered(world, db, w)
    ensures Fetched(world, db, After(world, db, w), w, d)
  {
    hide At, Covered, LastRow, SourceRows, After, SourceSays, DaysOf;
    AfterAt(world, db, w, w.code, d);
    SourceSaysLast(world, w, d);
    assert d in Overlap(db, w) <==> Guarded(db, w, d);
  }

  /**
    For every table: a code is skipped, and the table left alone, exactly when its window is not wanting. Otherwise the
    source is asked, and every day holds the source's last line for it, except where the source has none and on the
    days of the window that hold a row of the daily batch.
   */
  lemma FetchedIff(world: World, db: Table, w: Window)
    ensures var wanting := Wanting(db, w, Anchor(world.calendar, w.start));
            && (VerdictOf(world, db, w) == Skipped <==> !wanting)
            && (!wanting ==> After(world, db, w) == db)
            && (wanting ==> forall d :: Fetched(world, db, After(world, db, w), w, d))
  {
    hide At, Anchor, SourceRows, Kept, Covered, Wanting, Fetched, ToWrite;
    CoveredIff(world, db, w);
    if !Covered(world, db, w) {
      hide After;
      forall d ensures Fetched(world, db, After(world, db, w), w, d) {
        DayIsFetched(world, db, w, d);
      }
    }
  }

  /** A code without a row in its window is fetched, and every day then holds the source's last line for it. */
  lemma NewCodeIsFetched(world: World, db: Table, w: Window, frame: seq<Quote>, d: Day, i: nat, row: Row)
    requires forall e :: InWindow(w, e) ==> At(db, w.code, e) == None
    requires world.fetch(w) == Some(frame) && LastLine(frame, d, i, row)
    ensures VerdictOf(world, db, w) != Skipped && At(After(world, db, w), w.code, d) == Some(row)
  {
    hide At, Anchor, Covered, After, VerdictOf, InWindow;
    FetchedIff(world, db, w);
    assert Fetched(world, db, After(world, db, w), w, d);
  }

  // ----- What is written and reported ----------------------------------------

  /** Line `i` of the frame is written. */
  ghost predicate IsWritten(frame: seq<Quote>, db: Table, w: Window, i: int) {
    0 <= i < |frame| && frame[i].day.Some? && !Guarded(db, w, frame[i].day.value)
  }

  ghost function FrameOf(world: World, w: Window): seq<Quote> {
    match world.fetch(w) case None => [] case Some(frame) => frame
  }

  ghost function WrittenLines(frame: seq<Quote>, db: Table, w: Window): set<int> {
    set i | 0 <= i < |frame| && IsWritten(frame, db, w, i)
  }

  lemma {:induction false} RowsAppend(frame: seq<Quote>, q: Quote)
    ensures HistoryRows(frame + [q]) == HistoryRows(frame) + HistoryRows([q])
  {
    if frame == [] {
      assert frame + [q] == [q];
    } else {
      hide HistoryRows;
      RowsAppend(frame[1..], q);
      RowsOfMore(frame);
      RowsOfMore(frame + [q]);
      assert (frame + [q])[1..] == frame[1..] + [q];
      var a, b, c := HistoryRows([frame[0]]), HistoryRows(frame[1..]), HistoryRows([q]);
      Regroup(a, b, c);
      assert HistoryRows(frame + [q]) == a + (b + c);
    }
  }

  lemma Regroup<T>(a: seq<T>, b: seq<T>, c: seq<T>)
    ensures a + (b + c) == a + b + c
  {
  }

  lemma KeptAppend(rows: seq<Dated>, more: seq<Dated>, overlap: set<Day>)
    requires |more| <= 1
    ensures Kept(rows + more, overlap) == Kept(rows, overlap) + Kept(more, overlap)
  {
    if more == [] {
      assert rows + more == rows;
    } else {
      assert (rows + more)[..|rows|] == rows;
      assert more[..0] == [];
    }
  }

  /** As many rows are kept as lines are to be written. */
  lemma {:induction false} KeptCount(frame: seq<Quote>, db: Table, w: Window)
    ensures |Kept(HistoryRows(frame), Overlap(db, w))| == |WrittenLines(frame, db, w)|
    decreases |frame|
  {
    hide At, DaysOf, Overlap, InWindow;
    if frame == [] {
      assert WrittenLines(frame, db, w) == {};
    } else {
      var n, overlap := |frame| - 1, Overlap(db, w);
      var front, q := frame[..n], frame[n];
      assert frame == front + [q];
      KeptCount(front, db, w);
      RowsAppend(front, q);
      KeptAppend(HistoryRows(front), HistoryRows([q]), overlap);
      OneLine(q, overlap);
      assert q.day.Some? ==> (q.day.value in overlap <==> Guarded(db, w, q.day.value));
      LinesAppend(front, q, db, w);
    }
  }

  lemma OneLine(q: Quote, overlap: set<Day>)
    ensures |Kept(HistoryRows([q]), overlap)| == if q.day.Some? && q.day.value !in overlap then 1 else 0
  {
    assert [q][1..] == [];
    assert HistoryRows([q][1..]) == [];
  }

  lemma LinesAppend(front: seq<Quote>, q: Quote, db: Table, w: Window)
    ensures |WrittenLines(front + [q], db, w)| ==
            |WrittenLines(front, db, w)| + if q.day.Some? && !Guarded(db, w, q.day.value) then 1 else 0
  {
    hide Guarded;
    var n, before, after := |front|, WrittenLines(front, db, w), WrittenLines(front + [q], db, w);
    var last := q.day.Some? && !Guarded(db, w, q.day.value);
    forall i ensures i in after <==> i in before || (i == n && last) {
      assert 0 <= i < n ==> (front + [q])[i] == front[i];
    }
    assert n !in before;
    hide WrittenLines;
    assert after == if last then before + {n} else before;
  }

  lemma {:induction false} NoRowsIff(frame: seq<Quote>)
    ensures HistoryRows(frame) == [] <==> forall i :: 0 <= i < |frame| ==> frame[i].day == None
  {
    if frame != [] {
      NoRowsIff(frame[1..]);
      assert forall i :: 0 < i < |frame| ==> frame[i] == frame[1..][i - 1];
      assert forall i :: 0 <= i < |frame[1..]| ==> frame[1..][i] == frame[i + 1];
    }
  }

  /** Which class a code falls in, told from the table and the source's lines. */
  lemma VerdictIs(world: World, db: Table, w: Window)
    ensures var frame := FrameOf(world, w); var lines := WrittenLines(frame, db, w);
            VerdictOf(world, db, w) ==
              if !Wanting(db, w, Anchor(world.calendar, w.start)) then Skipped
              else if forall i :: 0 <= i < |frame| ==> frame[i].day == None then HistoryMissing
              else if lines == {} then OverlapOnly
              else Written(|lines|)
  {
    hide At, Anchor, Kept, Covered, Wanting, HistoryRows, Overlap, WrittenLines;
    CoveredIff(world, db, w);
    NoRowsIff(FrameOf(world, w));
    KeptCount(FrameOf(world, w), db, w);
    NoRowsIff([]);
    assert SourceRows(world, w) == HistoryRows(FrameOf(world, w));
    assert |WrittenLines(FrameOf(world, w), db, w)| == 0 ==> WrittenLines(FrameOf(world, w), db, w) == {};
  }

  // ----- The report and the loop ---------------------------------------------

  /** What happens to one code; a code whose fetched days are all daily-batch days has its own class. */
  datatype Verdict = Skipped | HistoryMissing | OverlapOnly | Written(rows: nat)

  function VerdictOf(world: World, db: Table, w: Window): Verdict {
    if Covered(world, db, w) then Skipped
    else if SourceRows(world, w) == [] then HistoryMissing
    else if ToWrite(world, db, w) == [] then OverlapOnly
    else Written(|ToWrite(world, db, w)|)
  }

  datatype Report = Report(
    ok: nat, rowsWritten: nat, skipped: nat, historyMissing: seq<Code>, partialOverlap: seq<Code>,
    dailyOverlap: seq<(Code, set<Day>)>)

  /** The report on the first `k` codes of a run that starts from `db`. */
  function Reported(world: World, db: Table, ws: seq<Window>, k: nat): Report
    requires k <= |ws|
  {
    if k == 0 then Report(0, 0, 0, [], [], []) else Noted(world, db, ws[k - 1], Reported(world, db, ws, k - 1))
  }

  function Noted(world: World, db: Table, w: Window, r: Report): Report {
    var v := VerdictOf(world, db, w);
    Report(
      r.ok + (if v.Written? then 1 else 0),
      r.rowsWritten + (if v.Written? then v.rows else 0),
      r.skipped + (if v.Skipped? then 1 else 0),
      r.historyMissing + (if v.HistoryMissing? then [w.code] else []),
      r.partialOverlap + (if !v.Skipped? && DaysOf(db, w) != {} then [w.code] else []),
      r.dailyOverlap
      + (if !v.Skipped? && !v.HistoryMissing? && Overlap(db, w) != {} then [(w.code, Overlap(db, w))] else []))
  }

  function CountOverlapOnly(world: World, db: Table, ws: seq<Window>, k: nat): nat
    requires k <= |ws|
  {
    if k == 0 then 0
    else CountOverlapOnly(world, db, ws, k - 1) + (if VerdictOf(world, db, ws[k - 1]).OverlapOnly? then 1 else 0)
  }

  /** The codes, by their place in the run, with such a verdict. */
  ghost function Where(world: World, db: Table, ws: seq<Window>, k: nat, f: Verdict -> bool): set<int>
    requires k <= |ws|
  {
    set i | 0 <= i < k && f(VerdictOf(world, db, ws[i]))
  }

  lemma WhereNext(world: World, db: Table, ws: seq<Window>, k: nat, f: Verdict -> bool)
    requires k < |ws|
    ensures |Where(world, db, ws, 0, f)| == 0
    ensures |Where(world, db, ws, k + 1, f)|
            == |Where(world, db, ws, k, f)| + if f(VerdictOf(world, db, ws[k])) then 1 else 0
  {
    hide VerdictOf;
    var before, after, here := Where(world, db, ws, k, f), Where(world, db, ws, k + 1, f), f(VerdictOf(world, db, ws[k]));
    assert Where(world, db, ws, 0, f) == {};
    forall i ensures i in after <==> i in before || (i == k && here) {
    }
    assert k !in before;
    hide Where;
    assert after == if here then before + {k} else before;
  }

  /** The lines written in the run, by the places of their code and of the line. */
  ghost function LinesOfRun(world: World, db: Table, ws: seq<Window>, k: nat): set<(int, int)>
    requires k <= |ws|
  {
    set i, j | 0 <= i < k && 0 <= j < |FrameOf(world, ws[i])|
               && VerdictOf(world, db, ws[i]).Written? && IsWritten(FrameOf(world, ws[i]), db, ws[i], j) :: (i, j)
  }

  ghost function LinesAt<T>(i: int, lines: set<T>): set<(int, T)> {
    set j | j in lines :: (i, j)
  }

  lemma {:induction false} LinesAtSize<T>(i: int, lines: set<T>)
    ensures |LinesAt(i, lines)| == |lines|
    decreases lines
  {
    if lines == {} {
      assert LinesAt(i, lines) == {};
    } else {
      var j :| j in lines;
      LinesAtSize(i, lines - {j});
      assert LinesAt(i, lines) == LinesAt(i, lines - {j}) + {(i, j)};
    }
  }

  lemma LinesNext(world: World, db: Table, ws: seq<Window>, k: nat)
    requires k < |ws|
    ensures LinesOfRun(world, db, ws, 0) == {}
    ensures var v := VerdictOf(world, db, ws[k]);
            |LinesOfRun(world, db, ws, k + 1)| == |LinesOfRun(world, db, ws, k)| + if v.Written? then v.rows else 0
  {
    hide VerdictOf, IsWritten, Wanting, FrameOf;
    var before, after := LinesOfRun(world, db, ws, k), LinesOfRun(world, db, ws, k + 1);
    var lines := WrittenLines(FrameOf(world, ws[k]), db, ws[k]);
    VerdictIs(world, db, ws[k]);
    LinesAtSize(k, lines);
    if VerdictOf(world, db, ws[k]).Written? {
      assert after == before + LinesAt(k, lines);
      assert before !! LinesAt(k, lines);
    } else {
      assert after == before;
    }
  }

  ghost predicate HoldsRow(db: Table, w: Window) {
    exists d :: InWindow(w, d) && At(db, w.code, d).Some?
  }

  /** `days` are the days of the window with a row of the daily batch, and there are some. */
  ghost predicate GuardedDays(db: Table, w: Window, days: set<Day>) {
    days != {} && forall d :: d in days <==> Guarded(db, w, d)
  }

  /** What the report lists of a code. */
  ghost predicate Lists(world: World, db: Table, ws: seq<Window>, k: nat, r: Report)
    requires k <= |ws|
  {
    && (forall c :: c in r.historyMissing <==>
          exists i :: 0 <= i < k && ws[i].code == c && VerdictOf(world, db, ws[i]).HistoryMissing?)
    && (forall c :: c in r.partialOverlap <==>
          exists i :: 0 <= i < k && ws[i].code == c && !VerdictOf(world, db, ws[i]).Skipped? && HoldsRow(db, ws[i]))
    && forall x :: x in r.dailyOverlap <==>
         exists i :: 0 <= i < k && ws[i].code == x.0 && GuardedDays(db, ws[i], x.1)
                     && !VerdictOf(world, db, ws[i]).Skipped? && !VerdictOf(world, db, ws[i]).HistoryMissing?
  }

  /** What the report counts. */
  ghost predicate Counts(world: World, db: Table, ws: seq<Window>, k: nat, r: Report)
    requires k <= |ws|
  {
    && r.ok == |Where(world, db, ws, k, (v: Verdict) => v.Written?)|
    && r.skipped == |Where(world, db, ws, k, (v: Verdict) => v.Skipped?)|
    && |r.historyMissing| == |Where(world, db, ws, k, (v: Verdict) => v.HistoryMissing?)|
    && r.rowsWritten == |LinesOfRun(world, db, ws, k)|
  }

  /** The report of a run: the codes of each class, their daily-batch days, and the number of lines written. */
  lemma {:induction false} ReportIs(world: World, db: Table, ws: seq<Window>, k: nat)
    requires k <= |ws|
    ensures Counts(world, db, ws, k, Reported(world, db, ws, k)) && Lists(world, db, ws, k, Reported(world, db, ws, k))
  {
    hide *;
    if k == 0 {
      NothingReported(world, db, ws);
    } else {
      ReportIs(world, db, ws, k - 1);
      OneMoreCode(world, db, ws, k);
      CountsNext(world, db, ws, k - 1, Reported(world, db, ws, k - 1));
      ListsNext(world, db, ws, k - 1, Reported(world, db, ws, k - 1));
    }
  }

  lemma NothingReported(world: World, db: Table, ws: seq<Window>)
    ensures Counts(world, db, ws, 0, Reported(world, db, ws, 0)) && Lists(world, db, ws, 0, Reported(world, db, ws, 0))
  {
    hide VerdictOf;
  }

  lemma CountsNext(world: World, db: Table, ws: seq<Window>, k: nat, r: Report)
    requires k < |ws| && Counts(world, db, ws, k, r)
    ensures Counts(world, db, ws, k + 1, Noted(world, db, ws[k], r))
  {
    hide VerdictOf, Where, LinesOfRun, DaysOf, Overlap;
    WhereNext(world, db, ws, k, (v: Verdict) => v.Written?);
    WhereNext(world, db, ws, k, (v: Verdict) => v.Skipped?);
    WhereNext(world, db, ws, k, (v: Verdict) => v.HistoryMissing?);
    LinesNext(world, db, ws, k);
  }

  lemma ListsNext(world: World, db: Table, ws: seq<Window>, k: nat, r: Report)
    requires k < |ws| && Lists(world, db, ws, k, r)
    ensures Lists(world, db, ws, k + 1, Noted(world, db, ws[k], r))
  {
    hide VerdictOf, HoldsRow, GuardedDays, DaysOf, Overlap;
    DaysTell(db, ws[k]);
  }

  lemma DaysTell(db: Table, w: Window)
    ensures HoldsRow(db, w) <==> DaysOf(db, w) != {}
    ensures forall days :: GuardedDays(db, w, days) <==> days != {} && days == Overlap(db, w)
  {
    hide At, InWindow, DaysOf, Overlap;
    if !HoldsRow(db, w) {
      assert forall d :: d in DaysOf(db, w) <==> d in {};
    }
    forall days ensures GuardedDays(db, w, days) <==> days != {} && days == Overlap(db, w) {
      if GuardedDays(db, w, days) {
        assert forall d :: d in days <==> d in Overlap(db, w);
      }
    }
  }

  /** The codes the report counts as written, skipped or without history. */
  function Counted(r: Report): nat {
    r.ok + r.skipped + |r.historyMissing|
  }

  lemma OneMoreCode(world: World, db: Table, ws: seq<Window>, k: nat)
    requires 0 < k <= |ws|
    ensures Reported(world, db, ws, k) == Noted(world, db, ws[k - 1], Reported(world, db, ws, k - 1))
    ensures CountOverlapOnly(world, db, ws, k) ==
            CountOverlapOnly(world, db, ws, k - 1) + (if VerdictOf(world, db, ws[k - 1]).OverlapOnly? then 1 else 0)
  {
    hide Noted, VerdictOf;
  }

  lemma NoCodes(world: World, db: Table, ws: seq<Window>)
    ensures Counted(Reported(world, db, ws, 0)) == 0 && CountOverlapOnly(world, db, ws, 0) == 0
  {
  }

  /** Every code lands in exactly one class: written, skipped, without history, or fetched days all of the daily batch. */
  lemma {:induction false} EachCodeOnce(world: World, db: Table, ws: seq<Window>, k: nat)
    requires k <= |ws|
    ensures k == Counted(Reported(world, db, ws, k)) + CountOverlapOnly(world, db, ws, k)
  {
    hide *;
    if k == 0 {
      NoCodes(world, db, ws);
    } else {
      EachCodeOnce(world, db, ws, k - 1);
      OneMoreCode(world, db, ws, k);
      NotedOnce(world, db, ws[k - 1], Reported(world, db, ws, k - 1));
    }
  }

  /** A code of the last class is in the list of daily-batch overlaps, and in none of the counts. */
  lemma OverlapOnlyIsListed(world: World, db: Table, w: Window, r: Report)
    requires VerdictOf(world, db, w).OverlapOnly?
    ensures Noted(world, db, w, r).dailyOverlap == r.dailyOverlap + [(w.code, Overlap(db, w))]
    ensures Counted(Noted(world, db, w, r)) == Counted(r) && Noted(world, db, w, r).rowsWritten == r.rowsWritten
  {
    hide Covered, DaysOf, SourceRows, Overlap;
    var rows := SourceRows(world, w);
    if Overlap(db, w) == {} {
      KeptAll(rows);
    }
  }

  lemma {:induction false} KeptAll(rows: seq<Dated>)
    ensures Kept(rows, {}) == rows
  {
    if rows != [] {
      KeptAll(rows[..|rows| - 1]);
    }
  }

  lemma NotedOnce(world: World, db: Table, w: Window, r: Report)
    ensures Counted(Noted(world, db, w, r)) + (if VerdictOf(world, db, w).OverlapOnly? then 1 else 0) == Counted(r) + 1
  {
    hide VerdictOf, DaysOf, Overlap;
    match VerdictOf(world, db, w)
    case Skipped =>
    case HistoryMissing =>
    case OverlapOnly =>
    case Written(_) =>
  }

  /** What is reported for a code does not depend on what the run wrote before it. */
  lemma SameNote(world: World, a: Table, b: Table, w: Window, r: Report)
    requires Agree(a, b, w.code)
    ensures Noted(world, a, w, r) == Noted(world, b, w, r)
  {
    hide Covered, DaysOf, Overlap, Kept, SourceRows, Agree;
    SameDecision(world, a, b, w);
  }

  /** So a dry run, which writes nothing in between, makes the notes of the real run. */
  lemma ForetoldNote(world: World, db: Table, ws: seq<Window>, k: nat, r: Report)
    requires DistinctCodes(ws) && k < |ws|
    ensures Noted(world, Run(world, db, ws, k), ws[k], r) == Noted(world, db, ws[k], r)
  {
    hide Noted, Run, Agree;
    RunLeavesOthers(world, db, ws, k, ws[k].code);
    SameNote(world, Run(world, db, ws, k), db, ws[k], r);
  }

  /** A limit cuts the list of windows; a negative one leaves nothing. */
  function Limited(windows: seq<Window>, limit: Option<int>): (r: seq<Window>)
    ensures r <= windows
    ensures limit.Some? && limit.value <= |windows| ==> |r| == if limit.value < 0 then 0 else limit.value
    ensures limit == None || limit.value >= |windows| ==> r == windows
  {
    if limit.Some? && limit.value < |windows| then windows[..if limit.value < 0 then 0 else limit.value] else windows
  }

  /** The snapshot table. */
  class Store {
    var rows: Table

    /** One code: skip it, or fetch it and write the days without a daily-batch row in one transaction. */
    method Handle(world: World, w: Window, dryRun: bool, report: Report) returns (next: Report)
      modifies this
      ensures rows == if dryRun then old(rows) else After(world, old(rows), w)
      ensures next == Noted(world, old(rows), w, report)
    {
      hide Covered, DaysOf, Overlap, Kept, SourceRows, Upsert;
      next := report;
      if Covered(world, rows, w) {
        next := next.(skipped := next.skipped + 1);
        return;
      }
      if DaysOf(rows, w) != {} {
        next := next.(partialOverlap := next.partialOverlap + [w.code]);
      }
      var fetched := SourceRows(world, w);
      if fetched == [] {
        next := next.(historyMissing := next.historyMissing + [w.code]);
        WritesNothing(world, rows, w);
        return;
      }
      var overlap := Overlap(rows, w);
      var toWrite := Kept(fetched, overlap);
      if overlap != {} {
        next := next.(dailyOverlap := next.dailyOverlap + [(w.code, overlap)]);
      }
      if toWrite == [] {
        WritesNothing(world, rows, w);
        return;
      }
      next := next.(rowsWritten := next.rowsWritten + |toWrite|, ok := next.ok + 1);
      if !dryRun {
        rows := Upsert(rows, w.code, toWrite);
      }
    }

    /**
      One run over the windows in order, cut to `limit`. A dry run writes nothing, and reports what the real run would.
     */
    method Backfill(world: World, windows: seq<Window>, dryRun: bool, limit: Option<int>) returns (report: Report)
      requires DistinctCodes(windows)
      modifies this
      ensures var ws := Limited(windows, limit);
              rows == (if dryRun then old(rows) else Run(world, old(rows), ws, |ws|))
              && report == Reported(world, old(rows), ws, |ws|)
    {
      hide Noted, Agree, After;
      var ws := Limited(windows, limit);
      report := Report(0, 0, 0, [], [], []);
      for k := 0 to |ws|
        invariant report == Reported(world, old(rows), ws, k)
        invariant rows == if dryRun then old(rows) else Run(world, old(rows), ws, k)
      {
        ForetoldNote(world, old(rows), ws, k, report);
        report := Handle(world, ws[k], dryRun, report);
      }
    }
  }

  lemma WritesNothing(world: World, db: Table, w: Window)
    requires SourceRows(world, w) == [] || ToWrite(world, db, w) == []
    ensures After(world, db, w) == db && ToWrite(world, db, w) == []
  {
  }

  /** A limited run followed by a full one leaves what the full run alone would. */
  lemma LimitThenFull(world: World, db: Table, windows: seq<Window>, limit: int)
    requires DistinctCodes(windows)
    ensures var some := Limited(windows, Some(limit));
            Run(world, Run(world, db, some, |some|), windows, |windows|) == Run(world, db, windows, |windows|)
  {
    hide Run;
    var some := Limited(windows, Some(limit));
    RunOfPrefix(world, db, windows, some, |some|);
    CrashThenRerun(world, db, windows, |some|);
  }

  lemma {:induction false} RunOfPrefix(world: World, db: Table, windows: seq<Window>, some: seq<Window>, k: nat)
    requires some <= windows && k <= |some|
    ensures Run(world, db, some, k) == Run(world, db, windows, k)
  {
    hide After;
    if k > 0 {
      RunOfPrefix(world, db, windows, some, k - 1);
    }
  }
}
