/**
  From replayed trades and rule baselines to the pooled return series
  (evals/backtest/run_backtest.py, evals/backtest/baselines.py). Dates are day numbers,
  prices are positive reals, and the technical indicators are any causal function: what
  they say on a day depends on the rows up to that day.
 */
module Backtest {
  import opened MirroredReturns
  import opened Performance
  import opened Wrappers

  type Price = x: real | x > 0.0 witness 1.0

  datatype Bar = Bar(date: int, close: Price)

  datatype Settlement = Settlement(date: int, price: Option<real>)

  datatype Trade = Trade(code: string, action: string, entry: real, decided: int, settlement: Option<Settlement>)

  // ----- One trade -----------------------------------------------------------

  /** The rows dated in (start, end]. */
  function Window(kline: seq<Bar>, start: int, end: int): (r: seq<Bar>)
    ensures forall b :: b in r <==> b in kline && start < b.date <= end
  {
    if kline == [] then []
    else (if start < kline[0].date <= end then [kline[0]] else []) + Window(kline[1..], start, end)
  }

  function Closes(kline: seq<Bar>): seq<real> {
    seq(|kline|, i requires 0 <= i < |kline| => kline[i].close)
  }

  /** All prices but possibly the last are positive. */
  ghost predicate Divisible(prices: seq<real>) {
    |prices| > 0 && forall i :: 0 <= i < |prices| - 1 ==> prices[i] > 0.0
  }

  function Change(previous: real, current: real): real
    requires previous > 0.0
  {
    current / previous - 1.0
  }

  function DailyChanges(prices: seq<real>, sign: real): seq<real>
    requires Divisible(prices)
  {
    seq(|prices| - 1, i requires 0 <= i < |prices| - 1 => sign * Change(prices[i], prices[i + 1]))
  }

  predicate Executable(action: string) {
    action == "buy" || action == "sell"
  }

  /** The trade was filled at a usable price and settled with at least one row in its window. */
  predicate Held(t: Trade, kline: seq<Bar>) {
    && Executable(t.action) && t.entry > 0.0 && t.settlement.Some?
    && Window(kline, t.decided, t.settlement.value.date) != []
  }

  /** When exactly a trade yields returns: bought or sold at a price, settled, with a row after the decision by then. */
  lemma HeldIff(t: Trade, kline: seq<Bar>)
    ensures TradeDailyReturns(t, kline) != [] <==>
              && (t.action == "buy" || t.action == "sell") && t.entry > 0.0 && t.settlement.Some?
              && exists b :: b in kline && t.decided < b.date <= t.settlement.value.date
  {
    if t.settlement.Some? {
      var window := Window(kline, t.decided, t.settlement.value.date);
      if window != [] {
        assert window[0] in window;
      }
    }
  }

  /** What a long trade is settled at: the settlement price, or the last close without one. */
  function ExitPrice(t: Trade, kline: seq<Bar>): real
    requires Held(t, kline)
  {
    var window := Window(kline, t.decided, t.settlement.value.date);
    match t.settlement.value.price
    case None => window[|window| - 1].close
    case Some(p) => p
  }

  /** Entry price, then the closes of the window with the settlement price in place of the last. */
  function HoldingPrices(t: Trade, kline: seq<Bar>): (prices: seq<real>)
    requires Held(t, kline)
    ensures Divisible(prices) && |prices| == |Window(kline, t.decided, t.settlement.value.date)| + 1
    ensures prices[0] == t.entry && prices[|prices| - 1] == ExitPrice(t, kline)
    ensures forall i :: 0 < i < |prices| - 1 ==> prices[i] == Window(kline, t.decided, t.settlement.value.date)[i - 1].close
  {
    var window := Window(kline, t.decided, t.settlement.value.date);
    var prices := [t.entry] + Closes(window);
    match t.settlement.value.price
    case None => prices
    case Some(p) => prices[|window| := p]
  }

  function TradeDailyReturns(t: Trade, kline: seq<Bar>): seq<real> {
    if Held(t, kline) then DailyChanges(HoldingPrices(t, kline), if t.action == "buy" then 1.0 else -1.0) else []
  }

  /**
    Day by day: from the entry price to the close of the first row in the window, from close to close, and on the last
    row to the settlement price if there is one; a buy earns the change, a sell its negation.
   */
  lemma TradeReturnsAt(t: Trade, kline: seq<Bar>, i: nat)
    requires Held(t, kline) && i < |Window(kline, t.decided, t.settlement.value.date)|
    ensures |TradeDailyReturns(t, kline)| == |Window(kline, t.decided, t.settlement.value.date)|
    ensures var window, settled := Window(kline, t.decided, t.settlement.value.date), t.settlement.value.price;
            var from := if i == 0 then t.entry else window[i - 1].close;
            var to := if i == |window| - 1 && settled.Some? then settled.value else window[i].close;
            from > 0.0 && TradeDailyReturns(t, kline)[i] == (if t.action == "buy" then 1.0 else -1.0) * (to / from - 1.0)
  {
    hide Window, HoldingPrices;
    var prices := HoldingPrices(t, kline);
    PricesAt(t, kline, i);
    ChangeAt(prices, if t.action == "buy" then 1.0 else -1.0, i);
    hide DailyChanges;
  }

  lemma PricesAt(t: Trade, kline: seq<Bar>, i: nat)
    requires Held(t, kline) && i < |Window(kline, t.decided, t.settlement.value.date)|
    ensures var window, settled := Window(kline, t.decided, t.settlement.value.date), t.settlement.value.price;
            var prices := HoldingPrices(t, kline);
            && prices[i] == (if i == 0 then t.entry else window[i - 1].close)
            && prices[i + 1] == if i == |window| - 1 && settled.Some? then settled.value else window[i].close
  {
    hide Window;
  }

  lemma ChangeAt(prices: seq<real>, sign: real, i: nat)
    requires Divisible(prices) && i < |prices| - 1
    ensures prices[i] > 0.0 && |DailyChanges(prices, sign)| == |prices| - 1
    ensures DailyChanges(prices, sign)[i] == sign * (prices[i + 1] / prices[i] - 1.0)
  {
  }

  lemma GrowthFactor(p: real, c: real, w: real, e: real)
    requires p > 0.0 && e > 0.0 && w == p / e
    ensures Grown(w, 1.0 * Change(p, c)) == c / e
  {
    var x := c / p;
    assert x * p == c && w * e == p;
    assert 1.0 + 1.0 * Change(p, c) == x;
    assert w * x == c / e by {
      assert (w * x) * e == (w * e) * x;
      Cancel(w * x, c, e);
    }
  }

  lemma Cancel(x: real, c: real, e: real)
    requires e > 0.0 && x * e == c
    ensures x == c / e
  {
  }

  /** Held long, wealth at any day is the price of that day over the entry price. */
  lemma {:induction false} WealthTelescopes(prices: seq<real>, k: nat)
    requires Divisible(prices) && prices[0] > 0.0 && k < |prices|
    ensures Wealth(DailyChanges(prices, 1.0), k) == prices[k] / prices[0]
  {
    hide Grown, Change;
    if k == 0 {
      assert prices[0] / prices[0] == 1.0;
    } else {
      WealthTelescopes(prices, k - 1);
      GrowthFactor(prices[k - 1], prices[k], Wealth(DailyChanges(prices, 1.0), k - 1), prices[0]);
    }
  }

  /** Two functions, one number: the cumulative return of a buy is exit price over entry price minus one. */
  lemma BuyReturnsExitOverEntry(t: Trade, kline: seq<Bar>)
    requires Held(t, kline) && t.action == "buy"
    ensures CumulativeReturn(TradeDailyReturns(t, kline)) == ExitPrice(t, kline) / t.entry - 1.0
  {
    var prices := HoldingPrices(t, kline);
    WealthTelescopes(prices, |prices| - 1);
  }

  /** A sell of the same trade has the opposite return on every day; any other action has none at all. */
  lemma SellMirrorsBuy(t: Trade, kline: seq<Bar>, other: string)
    requires t.action == "buy" && other != "buy" && other != "sell"
    ensures var buy, sell := TradeDailyReturns(t, kline), TradeDailyReturns(t.(action := "sell"), kline);
            && |sell| == |buy| && forall i :: 0 <= i < |buy| ==> sell[i] == -buy[i]
    ensures TradeDailyReturns(t.(action := other), kline) == []
  {
    hide Window, Change;
    if Held(t, kline) {
      assert HoldingPrices(t.(action := "sell"), kline) == HoldingPrices(t, kline);
    }
  }

  /** The days of the path on which the price moved. */
  function DaysMoved(prices: seq<real>, k: nat): nat
    requires k < |prices|
  {
    if k == 0 then 0 else DaysMoved(prices, k - 1) + (if prices[k] != prices[k - 1] then 1 else 0)
  }

  lemma ChangeSign(p: real, c: real)
    requires p > 0.0
    ensures Change(p, c) >= 0.0 <==> c >= p
    ensures Change(p, c) <= 0.0 <==> c <= p
  {
    var q := c / p;
    assert q * p == c && 1.0 * p == p;
    Compare(q, 1.0, p);
    Compare(1.0, q, p);
  }

  lemma {:induction false} MovesAreDays(prices: seq<real>, k: nat)
    requires Divisible(prices) && k < |prices|
    ensures Moves(DailyChanges(prices, 1.0), k) == DaysMoved(prices, k)
  {
    if k > 0 {
      hide Change;
      MovesAreDays(prices, k - 1);
      ChangeSign(prices[k - 1], prices[k]);
    }
  }

  /** The path never turns: it only rises, or it only falls. */
  ghost predicate NeverTurns(prices: seq<real>) {
    || (forall i :: 0 <= i < |prices| - 1 ==> prices[i] <= prices[i + 1])
    || (forall i :: 0 <= i < |prices| - 1 ==> prices[i] >= prices[i + 1])
  }

  lemma TurnsOfChanges(prices: seq<real>)
    requires Divisible(prices) && NeverTurns(prices)
    ensures Rising(DailyChanges(prices, 1.0)) || Falling(DailyChanges(prices, 1.0))
  {
    hide Change, DailyChanges;
    var rs := DailyChanges(prices, 1.0);
    if forall i :: 0 <= i < |prices| - 1 ==> prices[i] <= prices[i + 1] {
      forall i | 0 <= i < |prices| - 1 ensures i < |rs| && rs[i] >= 0.0 {
        DayOfChange(prices, i);
      }
    } else {
      forall i | 0 <= i < |prices| - 1 ensures i < |rs| && rs[i] <= 0.0 {
        DayOfChange(prices, i);
      }
    }
    ChangesCount(prices);
  }

  lemma ChangesCount(prices: seq<real>)
    requires Divisible(prices)
    ensures |DailyChanges(prices, 1.0)| == |prices| - 1
  {
  }

  lemma DayOfChange(prices: seq<real>, i: nat)
    requires Divisible(prices) && i < |prices| - 1
    ensures var rs := DailyChanges(prices, 1.0);
            && i < |rs|
            && (rs[i] >= 0.0 <==> prices[i] <= prices[i + 1]) && (rs[i] <= 0.0 <==> prices[i] >= prices[i + 1])
  {
    hide Change;
    ChangeSign(prices[i], prices[i + 1]);
  }

  /** The sell's cumulative return is the negated price change, as a buy's is the price change. */
  ghost predicate Telescopes(t: Trade, kline: seq<Bar>)
    requires Held(t, kline)
  {
    CumulativeReturn(TradeDailyReturns(t, kline)) == -(ExitPrice(t, kline) / t.entry - 1.0)
  }

  lemma BuyInstead(t: Trade, kline: seq<Bar>)
    requires Held(t, kline) && t.action == "sell"
    ensures var buy := t.(action := "buy");
            && Held(buy, kline) && ExitPrice(buy, kline) == ExitPrice(t, kline)
            && TradeDailyReturns(buy, kline) == DailyChanges(HoldingPrices(t, kline), 1.0)
            && TradeDailyReturns(t, kline) == Negated(TradeDailyReturns(buy, kline))
  {
    hide Window, Change, Closes;
    var buy := t.(action := "buy");
    assert HoldingPrices(buy, kline) == HoldingPrices(t, kline);
  }

  lemma SellMirrors(t: Trade, kline: seq<Bar>)
    requires Held(t, kline) && t.action == "sell"
    ensures Telescopes(t, kline) <==> Mirrors(DailyChanges(HoldingPrices(t, kline), 1.0))
  {
    hide Held, HoldingPrices, ExitPrice, DailyChanges, TradeDailyReturns, Negated, CumulativeReturn;
    BuyInstead(t, kline);
    BuyReturnsExitOverEntry(t.(action := "buy"), kline);
  }

  /**
    A sell does not telescope: on a path of any length that never turns, its return is the negated price change
    exactly when the price moved on at most one day.
   */
  lemma SellTelescopesIff(t: Trade, kline: seq<Bar>)
    requires Held(t, kline) && t.action == "sell" && NeverTurns(HoldingPrices(t, kline))
    ensures var prices := HoldingPrices(t, kline); Telescopes(t, kline) <==> DaysMoved(prices, |prices| - 1) <= 1
  {
    hide HoldingPrices, Telescopes, Held, NeverTurns;
    var prices := HoldingPrices(t, kline);
    SellMirrors(t, kline);
    TurnsOfChanges(prices);
    MovesAreDays(prices, |prices| - 1);
    MirrorIff(DailyChanges(prices, 1.0));
  }

  /** On any path it is, if the price moved on at most one day, and it is not, if on exactly two. */
  lemma SellOfFewMoves(t: Trade, kline: seq<Bar>)
    requires Held(t, kline) && t.action == "sell"
    ensures var prices := HoldingPrices(t, kline);
            && (DaysMoved(prices, |prices| - 1) <= 1 ==> Telescopes(t, kline))
            && (DaysMoved(prices, |prices| - 1) == 2 ==> !Telescopes(t, kline))
  {
    hide HoldingPrices, Telescopes, Held;
    var prices := HoldingPrices(t, kline);
    SellMirrors(t, kline);
    MovesAreDays(prices, |prices| - 1);
    MirrorOfFewMoves(DailyChanges(prices, 1.0));
  }

  // ----- Baselines -----------------------------------------------------------

  /** One day's indicator values; an undefined value stands for a missing number. */
  datatype Indicators = Indicators(
    dif: Option<real>, dea: Option<real>, k: Option<real>, d: Option<real>, rsi: Option<real>)

  /** Indicators of the last row of a history. */
  type Technical = seq<Bar> -> Indicators

  datatype Strategy = BuyHold | Macd | Kdj | Rsi

  /** Comparing with a missing number is false. */
  predicate Exceeds(x: Option<real>, y: Option<real>) {
    x.Some? && y.Some? && x.value > y.value
  }

  function RsiSeries(kline: seq<Bar>, tech: Technical): seq<Option<real>> {
    seq(|kline|, i requires 0 <= i < |kline| => tech(kline[..i + 1]).rsi)
  }

  /** The position kept after day `i`: bought below 30, sold above 70, otherwise unchanged. */
  function RsiPosition(values: seq<Option<real>>, i: nat): real
    requires i <= |values|
  {
    if i == 0 then 0.0
    else if values[i - 1].Some? && values[i - 1].value < 30.0 then 1.0
    else if values[i - 1].Some? && values[i - 1].value > 70.0 then 0.0
    else RsiPosition(values, i - 1)
  }

  method RsiPositions(values: seq<Option<real>>) returns (positions: seq<real>)
    ensures |positions| == |values|
    ensures forall i :: 0 <= i < |values| ==> positions[i] == RsiPosition(values, i + 1)
  {
    var position := 0.0;
    positions := [];
    for i := 0 to |values|
      invariant |positions| == i && position == RsiPosition(values, i)
      invariant forall k :: 0 <= k < i ==> positions[k] == RsiPosition(values, k + 1)
    {
      if values[i].Some? {
        if values[i].value < 30.0 {
          position := 1.0;
        } else if values[i].value > 70.0 {
          position := 0.0;
        }
      }
      positions := positions + [position];
    }
  }

  predicate Decisive(v: Option<real>) {
    v.Some? && (v.value < 30.0 || v.value > 70.0)
  }

  /** The rule invests exactly when the last decisive reading was a buy signal. */
  lemma {:induction false} RsiInvestedIff(values: seq<Option<real>>, i: nat)
    requires i <= |values|
    ensures RsiPosition(values, i) == 0.0 || RsiPosition(values, i) == 1.0
    ensures RsiPosition(values, i) == 1.0 <==>
            exists k :: 0 <= k < i && Decisive(values[k]) && values[k].value < 30.0
                        && forall m :: k < m < i ==> !Decisive(values[m])
  {
    if i > 0 {
      RsiInvestedIff(values, i - 1);
      if Decisive(values[i - 1]) {
        assert 0 <= i - 1 < i;
      } else if RsiPosition(values, i - 1) == 1.0 {
        var k :| 0 <= k < i - 1 && Decisive(values[k]) && values[k].value < 30.0
                 && forall m :: k < m < i - 1 ==> !Decisive(values[m]);
        assert forall m :: k < m < i ==> !Decisive(values[m]);
      }
    }
  }

  function Position(kline: seq<Bar>, strategy: Strategy, tech: Technical, i: nat): real
    requires i < |kline|
  {
    var now := tech(kline[..i + 1]);
    match strategy
    case BuyHold => 1.0
    case Macd => if Exceeds(now.dif, now.dea) then 1.0 else 0.0
    case Kdj => if Exceeds(now.k, now.d) then 1.0 else 0.0
    case Rsi => RsiPosition(RsiSeries(kline, tech), i + 1)
  }

  method BaselinePositions(kline: seq<Bar>, strategy: Strategy, tech: Technical) returns (positions: seq<real>)
    ensures |positions| == |kline|
    ensures forall i :: 0 <= i < |kline| ==> positions[i] == Position(kline, strategy, tech, i)
  {
    if strategy == Rsi {
      positions := RsiPositions(RsiSeries(kline, tech));
    } else {
      positions := seq(|kline|, i requires 0 <= i < |kline| => Position(kline, strategy, tech, i));
    }
  }

  /** The return of row `j`: yesterday's position times today's change. */
  function StrategyReturn(kline: seq<Bar>, strategy: Strategy, tech: Technical, j: nat): real
    requires 0 < j < |kline|
  {
    Earned(Position(kline, strategy, tech, j - 1), kline[j - 1].close, kline[j].close)
  }

  function Earned(position: real, previous: Price, current: Price): real {
    position * Change(previous, current)
  }

  /**
    A position is 0 or 1. A trend rule is invested exactly when both lines are known and the fast one is above the
    slow one, the reversal rule exactly when the last decisive reading up to that day was below 30. The next row
    earns its price change exactly then, and otherwise nothing.
   */
  lemma InvestedIff(kline: seq<Bar>, strategy: Strategy, tech: Technical, i: nat)
    requires i < |kline|
    ensures Position(kline, strategy, tech, i) == 0.0 || Position(kline, strategy, tech, i) == 1.0
    ensures strategy.BuyHold? ==> Position(kline, strategy, tech, i) == 1.0
    ensures strategy.Macd? ==>
              (Position(kline, strategy, tech, i) == 1.0 <==>
               exists fast, slow | fast > slow :: tech(kline[..i + 1]).dif == Some(fast) && tech(kline[..i + 1]).dea == Some(slow))
    ensures strategy.Kdj? ==>
              (Position(kline, strategy, tech, i) == 1.0 <==>
               exists fast, slow | fast > slow :: tech(kline[..i + 1]).k == Some(fast) && tech(kline[..i + 1]).d == Some(slow))
    ensures strategy.Rsi? ==>
              (Position(kline, strategy, tech, i) == 1.0 <==>
               exists k :: 0 <= k <= i && Decisive(RsiSeries(kline, tech)[k]) && RsiSeries(kline, tech)[k].value < 30.0
                           && forall m :: k < m <= i ==> !Decisive(RsiSeries(kline, tech)[m]))
    ensures i + 1 < |kline| ==>
              StrategyReturn(kline, strategy, tech, i + 1)
              == if Position(kline, strategy, tech, i) == 1.0 then Change(kline[i].close, kline[i + 1].close) else 0.0
  {
    RsiInvestedIff(RsiSeries(kline, tech), i + 1);
  }

  /** The strategy's returns on the rows 1 to `j - 1` that are dated in (start, end]. */
  function ReturnsIn(kline: seq<Bar>, strategy: Strategy, tech: Technical, start: int, end: int, j: nat): seq<real>
    requires j <= |kline|
  {
    if j <= 1 then []
    else ReturnsIn(kline, strategy, tech, start, end, j - 1)
         + (if start < kline[j - 1].date <= end then [StrategyReturn(kline, strategy, tech, j - 1)] else [])
  }

  function UpTo(kline: seq<Bar>, end: int): seq<Bar> {
    if kline == [] then [] else (if kline[0].date <= end then [kline[0]] else []) + UpTo(kline[1..], end)
  }

  method StrategyReturns(kline: seq<Bar>, positions: seq<real>) returns (ret: seq<real>)
    requires |positions| == |kline|
    ensures |ret| == if kline == [] then 0 else |kline| - 1
    ensures forall j :: 0 < j < |kline| ==> ret[j - 1] == Earned(positions[j - 1], kline[j - 1].close, kline[j].close)
  {
    ret := seq(if kline == [] then 0 else |kline| - 1,
               j requires 0 <= j < |kline| - 1 => Earned(positions[j], kline[j].close, kline[j + 1].close));
  }

  lemma ReturnsOfMore(kline: seq<Bar>, strategy: Strategy, tech: Technical, start: int, end: int, j: nat)
    requires 0 < j < |kline|
    ensures ReturnsIn(kline, strategy, tech, start, end, j + 1)
            == ReturnsIn(kline, strategy, tech, start, end, j)
               + (if start < kline[j].date <= end
                  then [Earned(Position(kline, strategy, tech, j - 1), kline[j - 1].close, kline[j].close)] else [])
  {
    hide Position, Earned;
  }

  lemma NoneReturned(kline: seq<Bar>, strategy: Strategy, tech: Technical, start: int, end: int)
    ensures ReturnsIn(kline, strategy, tech, start, end, 0) == []
    ensures |kline| > 0 ==> ReturnsIn(kline, strategy, tech, start, end, 1) == []
  {
  }

  method BaselineWindowReturns(kline: seq<Bar>, strategy: Strategy, tech: Technical, start: int, end: int)
    returns (out: seq<real>)
    ensures out == ReturnsIn(UpTo(kline, end), strategy, tech, start, end, |UpTo(kline, end)|)
  {
    hide Position, Earned, ReturnsIn, UpTo;
    var hist := UpTo(kline, end);
    NoneReturned(hist, strategy, tech, start, end);
    var positions := BaselinePositions(hist, strategy, tech);
    var ret := StrategyReturns(hist, positions);
    out := [];
    var j := 1;
    while j < |hist|
      invariant 1 <= j && (j <= |hist| || hist == [])
      invariant out == if hist == [] then [] else ReturnsIn(hist, strategy, tech, start, end, j)
    {
      ReturnsOfMore(hist, strategy, tech, start, end, j);
      if start < hist[j].date <= end {
        out := out + [ret[j - 1]];
      }
      j := j + 1;
    }
  }

  // ----- History cut-off and look-ahead --------------------------------------

  /** Two histories that agree on their first `m` rows. */
  ghost predicate Agree(a: seq<Bar>, b: seq<Bar>, m: nat) {
    m <= |a| && m <= |b| && a[..m] == b[..m]
  }

  lemma AgreeOnPrefix(a: seq<Bar>, b: seq<Bar>, m: nat, i: nat)
    requires Agree(a, b, m) && i <= m
    ensures a[..i] == b[..i]
  {
    assert a[..i] == a[..m][..i] && b[..i] == b[..m][..i];
  }

  lemma {:induction false} RsiAgrees(a: seq<Bar>, b: seq<Bar>, tech: Technical, m: nat, i: nat)
    requires Agree(a, b, m) && i <= m
    ensures RsiPosition(RsiSeries(a, tech), i) == RsiPosition(RsiSeries(b, tech), i)
  {
    if i > 0 {
      RsiAgrees(a, b, tech, m, i - 1);
      AgreeOnPrefix(a, b, m, i);
      assert RsiSeries(a, tech)[i - 1] == RsiSeries(b, tech)[i - 1];
    }
  }

  /** No look-ahead: the return of a row depends on no later row, and its position not even on that row. */
  lemma NoLookAhead(a: seq<Bar>, b: seq<Bar>, strategy: Strategy, tech: Technical, j: nat)
    requires 0 < j < |a| && j < |b|
    ensures Agree(a, b, j) ==> Position(a, strategy, tech, j - 1) == Position(b, strategy, tech, j - 1)
    ensures Agree(a, b, j + 1) ==> StrategyReturn(a, strategy, tech, j) == StrategyReturn(b, strategy, tech, j)
  {
    if Agree(a, b, j + 1) {
      AgreeOnPrefix(a, b, j + 1, j);
      assert a[j] == a[..j + 1][j] == b[..j + 1][j] == b[j];
    }
    if Agree(a, b, j) {
      RsiAgrees(a, b, tech, j, j);
      assert a[j - 1] == a[..j][j - 1] == b[..j][j - 1] == b[j - 1];
    }
  }

  ghost predicate Chronological(kline: seq<Bar>) {
    forall i, j :: 0 <= i < j < |kline| ==> kline[i].date < kline[j].date
  }

  lemma WealthAppend(rs: seq<real>, r: real)
    ensures Wealth(rs + [r], |rs| + 1) == Grown(Wealth(rs, |rs|), r)
  {
    WealthPrefix(rs, [r], |rs|);
    OneDay(rs + [r], |rs|);
  }

  lemma {:induction false} NothingBefore(kline: seq<Bar>, strategy: Strategy, tech: Technical,
                                         start: int, end: int, m: nat)
    requires Chronological(kline) && 0 < m <= |kline| && kline[m - 1].date <= start
    ensures ReturnsIn(kline, strategy, tech, start, end, m) == []
  {
    if m > 1 {
      NothingBefore(kline, strategy, tech, start, end, m - 1);
    }
  }

  lemma BuyHoldDay(kline: seq<Bar>, tech: Technical, start: int, end: int, j: nat)
    requires 2 <= j <= |kline| && start < kline[j - 1].date <= end
    ensures ReturnsIn(kline, BuyHold, tech, start, end, j)
            == ReturnsIn(kline, BuyHold, tech, start, end, j - 1) + [1.0 * Change(kline[j - 2].close, kline[j - 1].close)]
  {
    hide Change;
  }

  /** Held from the row before the window, the baseline's wealth on any day of the window is close over close. */
  lemma {:induction false} BuyHoldWealth(kline: seq<Bar>, tech: Technical, start: int, end: int, m: nat, j: nat)
    requires Chronological(kline) && 0 < m <= j <= |kline| && kline[m - 1].date <= start
    requires forall i :: m <= i < j ==> start < kline[i].date <= end
    ensures var rs := ReturnsIn(kline, BuyHold, tech, start, end, j);
            Wealth(rs, |rs|) == kline[j - 1].close / kline[m - 1].close
  {
    hide *;
    if j == m {
      NothingBefore(kline, BuyHold, tech, start, end, m);
      Unmoved(kline[m - 1].close);
    } else {
      BuyHoldWealth(kline, tech, start, end, m, j - 1);
      BuyHoldDayWealth(kline, tech, start, end, j, kline[m - 1].close);
    }
  }

  lemma Unmoved(price: Price)
    ensures Wealth([], 0) == price / price
  {
  }

  lemma BuyHoldDayWealth(kline: seq<Bar>, tech: Technical, start: int, end: int, j: nat, first: Price)
    requires 2 <= j <= |kline| && start < kline[j - 1].date <= end
    requires var rs := ReturnsIn(kline, BuyHold, tech, start, end, j - 1); Wealth(rs, |rs|) == kline[j - 2].close / first
    ensures var rs := ReturnsIn(kline, BuyHold, tech, start, end, j); Wealth(rs, |rs|) == kline[j - 1].close / first
  {
    hide Change, Wealth, Grown, ReturnsIn;
    var before := ReturnsIn(kline, BuyHold, tech, start, end, j - 1);
    var r := 1.0 * Change(kline[j - 2].close, kline[j - 1].close);
    BuyHoldDay(kline, tech, start, end, j);
    WealthAppend(before, r);
    GrowthFactor(kline[j - 2].close, kline[j - 1].close, Wealth(before, |before|), first);
  }

  /**
    What the baseline that buys and holds returns over a trade's window: the close of its last day over the close of
    the last day up to the decision, where the trade itself has its entry and settlement price.
   */
  lemma BuyHoldReturns(kline: seq<Bar>, tech: Technical, start: int, end: int, m: nat)
    requires Chronological(kline) && 0 < m <= |kline| && kline[m - 1].date <= start
    requires forall i :: m <= i < |kline| ==> start < kline[i].date <= end
    ensures CumulativeReturn(ReturnsIn(kline, BuyHold, tech, start, end, |kline|))
            == kline[|kline| - 1].close / kline[m - 1].close - 1.0
  {
    hide ReturnsIn, Wealth;
    BuyHoldWealth(kline, tech, start, end, m, |kline|);
  }

  /** In chronological order the rows up to `end` are a prefix. */
  lemma {:induction false} UpToIsPrefix(kline: seq<Bar>, end: int)
    requires Chronological(kline)
    ensures |UpTo(kline, end)| <= |kline| && UpTo(kline, end) == kline[..|UpTo(kline, end)|]
    ensures forall i :: |UpTo(kline, end)| <= i < |kline| ==> kline[i].date > end
    ensures forall i :: 0 <= i < |UpTo(kline, end)| ==> kline[i].date <= end
    decreases |kline|
  {
    if kline != [] {
      var tail := kline[1..];
      UpToIsPrefix(tail, end);
      if kline[0].date <= end {
        assert UpTo(kline, end) == [kline[0]] + tail[..|UpTo(tail, end)|];
      } else {
        NothingUpTo(tail, end);
      }
    }
  }

  lemma {:induction false} NothingUpTo(kline: seq<Bar>, end: int)
    requires forall i :: 0 <= i < |kline| ==> kline[i].date > end
    ensures UpTo(kline, end) == []
    decreases |kline|
  {
    if kline != [] {
      NothingUpTo(kline[1..], end);
    }
  }

  lemma {:induction false} PrefixReturns(kline: seq<Bar>, m: nat, strategy: Strategy, tech: Technical,
                                         start: int, end: int, j: nat)
    requires m <= |kline| && j <= |kline|
    requires forall i :: m <= i < |kline| ==> kline[i].date > end
    ensures ReturnsIn(kline, strategy, tech, start, end, j)
            == ReturnsIn(kline[..m], strategy, tech, start, end, if j <= m then j else m)
    decreases j
  {
    if j > 1 {
      PrefixReturns(kline, m, strategy, tech, start, end, j - 1);
      if j <= m {
        assert kline[..m][..j] == kline[..j];
        NoLookAhead(kline, kline[..m], strategy, tech, j - 1);
      }
    }
  }

  /**
    Cutting the history at the settle date and then computing gives the same as computing on
    the full history and keeping the rows in (start, end].
   */
  lemma CutOffCommutes(kline: seq<Bar>, strategy: Strategy, tech: Technical, start: int, end: int)
    requires Chronological(kline)
    ensures ReturnsIn(UpTo(kline, end), strategy, tech, start, end, |UpTo(kline, end)|)
            == ReturnsIn(kline, strategy, tech, start, end, |kline|)
  {
    UpToIsPrefix(kline, end);
    PrefixReturns(kline, |UpTo(kline, end)|, strategy, tech, start, end, |kline|);
  }

  // ----- Alignment -----------------------------------------------------------

  lemma {:induction false} WindowOfUpTo(kline: seq<Bar>, start: int, end: int)
    ensures Window(UpTo(kline, end), start, end) == Window(kline, start, end)
    decreases |kline|
  {
    if kline != [] {
      WindowOfUpTo(kline[1..], start, end);
      var rest := UpTo(kline[1..], end);
      if kline[0].date <= end {
        assert ([kline[0]] + rest)[1..] == rest;
      } else {
        assert [] + rest == rest;
      }
    }
  }

  lemma {:induction false} WindowLast(kline: seq<Bar>, b: Bar, start: int, end: int)
    ensures Window(kline + [b], start, end)
            == Window(kline, start, end) + (if start < b.date <= end then [b] else [])
    decreases |kline|
  {
    if kline == [] {
      assert kline + [b] == [b];
    } else {
      assert (kline + [b])[1..] == kline[1..] + [b];
      WindowLast(kline[1..], b, start, end);
    }
  }

  lemma {:induction false} UpToLast(kline: seq<Bar>, b: Bar, end: int)
    ensures UpTo([], end) == [] && UpTo(kline + [b], end) == UpTo(kline, end) + (if b.date <= end then [b] else [])
    decreases |kline|
  {
    if kline == [] {
      assert kline + [b] == [b];
    } else {
      UpToLast(kline[1..], b, end);
      UpToFirst(kline, end);
      UpToFirst(kline + [b], end);
      hide UpTo;
      assert (kline + [b])[1..] == kline[1..] + [b];
      var first, rest := if kline[0].date <= end then [kline[0]] else [], UpTo(kline[1..], end);
      assert (first + rest) + (if b.date <= end then [b] else []) == first + (rest + (if b.date <= end then [b] else []));
    }
  }

  lemma UpToFirst(kline: seq<Bar>, end: int)
    requires kline != []
    ensures UpTo(kline, end) == (if kline[0].date <= end then [kline[0]] else []) + UpTo(kline[1..], end)
    ensures UpTo([], end) == []
  {
  }

  predicate FirstInWindow(kline: seq<Bar>, start: int, end: int) {
    kline != [] && start < kline[0].date <= end
  }

  lemma {:induction false} ReturnsCount(kline: seq<Bar>, strategy: Strategy, tech: Technical, start: int, end: int, j: nat)
    requires j <= |kline|
    ensures |ReturnsIn(kline, strategy, tech, start, end, j)|
            == |Window(kline[..j], start, end)| - (if j > 0 && FirstInWindow(kline, start, end) then 1 else 0)
  {
    if j == 1 {
      assert kline[..1] == [kline[0]];
    } else if j > 1 {
      ReturnsCount(kline, strategy, tech, start, end, j - 1);
      assert kline[..j] == kline[..j - 1] + [kline[j - 1]];
      WindowLast(kline[..j - 1], kline[j - 1], start, end);
    }
  }

  /** A held trade and its baselines have the same length, except for one row when history begins inside the window. */
  lemma Alignment(t: Trade, kline: seq<Bar>, strategy: Strategy, tech: Technical)
    requires Held(t, kline)
    ensures var end := t.settlement.value.date; var hist := UpTo(kline, end);
            |ReturnsIn(hist, strategy, tech, t.decided, end, |hist|)|
            == |TradeDailyReturns(t, kline)| - (if FirstInWindow(hist, t.decided, end) then 1 else 0)
  {
    var end := t.settlement.value.date;
    var hist := UpTo(kline, end);
    ReturnsCount(hist, strategy, tech, t.decided, end, |hist|);
    assert hist[..|hist|] == hist;
    WindowOfUpTo(kline, t.decided, end);
    assert FirstInWindow(hist, t.decided, end) ==> |hist| > 0;
    assert !FirstInWindow(hist, t.decided, end) && hist == [] ==> Window(hist, t.decided, end) == [];
  }

  // ----- Pooling -------------------------------------------------------------

  const BASELINE_STRATEGIES := [BuyHold, Macd, Kdj, Rsi]

  /** Trades with a price history and an executable action are pooled, the others are left out on both sides. */
  predicate Pooled(t: Trade, klines: map<string, seq<Bar>>) {
    t.code in klines && Executable(t.action)
  }

  function SystemReturns(t: Trade, klines: map<string, seq<Bar>>): seq<real> {
    if Pooled(t, klines) then TradeDailyReturns(t, klines[t.code]) else []
  }

  /** Without a settlement the window is empty. */
  function BaselineReturns(t: Trade, klines: map<string, seq<Bar>>, strategy: Strategy, tech: Technical): seq<real> {
    if !Pooled(t, klines) || t.settlement.None? then []
    else
      var end := t.settlement.value.date;
      var hist := UpTo(klines[t.code], end);
      ReturnsIn(hist, strategy, tech, t.decided, end, |hist|)
  }

  function PooledSystem(trades: seq<Trade>, klines: map<string, seq<Bar>>, k: nat): seq<real>
    requires k <= |trades|
  {
    if k == 0 then [] else PooledSystem(trades, klines, k - 1) + SystemReturns(trades[k - 1], klines)
  }

  function PooledBaseline(trades: seq<Trade>, klines: map<string, seq<Bar>>, strategy: Strategy, tech: Technical, k: nat): seq<real>
    requires k <= |trades|
  {
    if k == 0 then []
    else PooledBaseline(trades, klines, strategy, tech, k - 1) + BaselineReturns(trades[k - 1], klines, strategy, tech)
  }

  method ExtendBaselines(baselines: map<Strategy, seq<real>>, t: Trade, klines: map<string, seq<Bar>>, tech: Technical)
    returns (extended: map<Strategy, seq<real>>)
    requires Pooled(t, klines)
    requires forall s: Strategy :: s in baselines
    ensures forall s: Strategy :: s in extended && extended[s] == baselines[s] + BaselineReturns(t, klines, s, tech)
  {
    extended := baselines;
    for i := 0 to |BASELINE_STRATEGIES|
      invariant forall s: Strategy :: s in extended
      invariant forall s: Strategy :: s in BASELINE_STRATEGIES[..i] ==>
                  extended[s] == baselines[s] + BaselineReturns(t, klines, s, tech)
      invariant forall s: Strategy :: s !in BASELINE_STRATEGIES[..i] ==> extended[s] == baselines[s]
    {
      hide ReturnsIn;
      var s := BASELINE_STRATEGIES[i];
      NewStrategy(i);
      var out := [];
      if t.settlement.Some? {
        out := BaselineWindowReturns(klines[t.code], s, tech, t.decided, t.settlement.value.date);
      }
      extended := extended[s := extended[s] + out];
    }
    EveryStrategy();
  }

  lemma NewStrategy(i: nat)
    requires i < |BASELINE_STRATEGIES|
    ensures BASELINE_STRATEGIES[i] !in BASELINE_STRATEGIES[..i]
    ensures forall s :: s in BASELINE_STRATEGIES[..i + 1] <==> s in BASELINE_STRATEGIES[..i] || s == BASELINE_STRATEGIES[i]
  {
  }

  lemma EveryStrategy()
    ensures forall s: Strategy :: s in BASELINE_STRATEGIES[..|BASELINE_STRATEGIES|]
  {
    forall s: Strategy ensures s in BASELINE_STRATEGIES[..|BASELINE_STRATEGIES|] {
      match s
      case BuyHold => assert BASELINE_STRATEGIES[0] == s;
      case Macd => assert BASELINE_STRATEGIES[1] == s;
      case Kdj => assert BASELINE_STRATEGIES[2] == s;
      case Rsi => assert BASELINE_STRATEGIES[3] == s;
    }
  }

  const NO_RETURNS: map<Strategy, seq<real>> := map[BuyHold := [], Macd := [], Kdj := [], Rsi := []]

  lemma EveryStrategyStartsEmpty()
    ensures forall s: Strategy :: s in NO_RETURNS && NO_RETURNS[s] == []
  {
    forall s: Strategy ensures s in NO_RETURNS && NO_RETURNS[s] == [] {
      match s
      case BuyHold =>
      case Macd =>
      case Kdj =>
      case Rsi =>
    }
  }

  /** The pooling loop of the backtest. */
  method PoolReturns(trades: seq<Trade>, klines: map<string, seq<Bar>>, tech: Technical)
    returns (system: seq<real>, baselines: map<Strategy, seq<real>>)
    ensures system == PooledSystem(trades, klines, |trades|)
    ensures forall s: Strategy :: s in baselines && baselines[s] == PooledBaseline(trades, klines, s, tech, |trades|)
  {
    system := [];
    baselines := NO_RETURNS;
    EveryStrategyStartsEmpty();
    for k := 0 to |trades|
      invariant system == PooledSystem(trades, klines, k)
      invariant forall s: Strategy :: s in baselines && baselines[s] == PooledBaseline(trades, klines, s, tech, k)
    {
      hide TradeDailyReturns, ReturnsIn;
      var t := trades[k];
      if Pooled(t, klines) {
        system := system + TradeDailyReturns(t, klines[t.code]);
        baselines := ExtendBaselines(baselines, t, klines, tech);
      }
    }
  }

  /** One trade more adds its daily returns to the system's series when it has a history, whatever its action. */
  lemma SystemPoolGrows(trades: seq<Trade>, klines: map<string, seq<Bar>>, k: nat)
    requires k < |trades|
    ensures PooledSystem(trades, klines, 0) == []
    ensures var t := trades[k];
            PooledSystem(trades, klines, k + 1)
            == PooledSystem(trades, klines, k) + if t.code in klines then TradeDailyReturns(t, klines[t.code]) else []
  {
    hide HoldingPrices, Window, DailyChanges;
  }

  /**
    And it adds to every strategy's series that strategy's returns on the rows dated after the decision and by the
    settlement, exactly when it was a buy or a sell, has a history and was settled.
   */
  lemma BaselinePoolGrows(trades: seq<Trade>, klines: map<string, seq<Bar>>, strategy: Strategy, tech: Technical, k: nat)
    requires k < |trades|
    ensures PooledBaseline(trades, klines, strategy, tech, 0) == []
    ensures var t := trades[k];
            (t.action == "buy" || t.action == "sell") && t.code in klines && t.settlement.Some? ==>
              var end := t.settlement.value.date; var hist := UpTo(klines[t.code], end);
              PooledBaseline(trades, klines, strategy, tech, k + 1)
              == PooledBaseline(trades, klines, strategy, tech, k) + ReturnsIn(hist, strategy, tech, t.decided, end, |hist|)
    ensures var t := trades[k];
            !((t.action == "buy" || t.action == "sell") && t.code in klines && t.settlement.Some?) ==>
              PooledBaseline(trades, klines, strategy, tech, k + 1) == PooledBaseline(trades, klines, strategy, tech, k)
  {
    hide ReturnsIn, UpTo;
  }

  /** The product of the growth of the single trades. */
  function GrowthProduct(trades: seq<Trade>, klines: map<string, seq<Bar>>, k: nat): real
    requires k <= |trades|
  {
    if k == 0 then 1.0
    else
      var rs := SystemReturns(trades[k - 1], klines);
      Times(GrowthProduct(trades, klines, k - 1), Wealth(rs, |rs|))
  }

  lemma PoolOfMore(trades: seq<Trade>, klines: map<string, seq<Bar>>, k: nat)
    requires 0 < k <= |trades|
    ensures var rs := SystemReturns(trades[k - 1], klines);
            && PooledSystem(trades, klines, k) == PooledSystem(trades, klines, k - 1) + rs
            && GrowthProduct(trades, klines, k) == Times(GrowthProduct(trades, klines, k - 1), Wealth(rs, |rs|))
  {
    hide SystemReturns, Wealth, Times;
  }

  lemma WealthOfPool(before: seq<real>, rs: seq<real>)
    ensures Wealth(before + rs, |before + rs|) == Times(Wealth(before, |before|), Wealth(rs, |rs|))
  {
    hide Wealth, Times;
    WealthConcat(before, rs, |rs|);
  }

  lemma EmptyPool(trades: seq<Trade>, klines: map<string, seq<Bar>>)
    ensures PooledSystem(trades, klines, 0) == [] && GrowthProduct(trades, klines, 0) == 1.0 && Wealth([], 0) == 1.0
  {
  }

  lemma {:induction false} PooledWealth(trades: seq<Trade>, klines: map<string, seq<Bar>>, k: nat)
    requires k <= |trades|
    ensures var p := PooledSystem(trades, klines, k); Wealth(p, |p|) == GrowthProduct(trades, klines, k)
  {
    hide *;
    if k == 0 {
      EmptyPool(trades, klines);
    } else {
      PooledWealth(trades, klines, k - 1);
      PoolOfMore(trades, klines, k);
      WealthOfPool(PooledSystem(trades, klines, k - 1), SystemReturns(trades[k - 1], klines));
    }
  }

  /** Pooling trades multiplies one plus their cumulative returns. */
  lemma PoolingMultiplies(trades: seq<Trade>, klines: map<string, seq<Bar>>)
    ensures 1.0 + CumulativeReturn(PooledSystem(trades, klines, |trades|)) == GrowthProduct(trades, klines, |trades|)
  {
    PooledWealth(trades, klines, |trades|);
  }

  /** The product of exit over entry price of the held trades. */
  function RatioProduct(trades: seq<Trade>, klines: map<string, seq<Bar>>, k: nat): real
    requires k <= |trades|
  {
    if k == 0 then 1.0
    else
      var t := trades[k - 1];
      var rest := RatioProduct(trades, klines, k - 1);
      if Pooled(t, klines) && Held(t, klines[t.code]) then Times(rest, ExitPrice(t, klines[t.code]) / t.entry) else rest
  }

  /** One trade multiplies both products by the same. */
  lemma GrowthOfOne(t: Trade, klines: map<string, seq<Bar>>)
    requires t.action != "sell"
    ensures var rs := SystemReturns(t, klines);
            Wealth(rs, |rs|) == if Pooled(t, klines) && Held(t, klines[t.code])
                                then ExitPrice(t, klines[t.code]) / t.entry else 1.0
  {
    hide Wealth, ExitPrice, TradeDailyReturns;
    if Pooled(t, klines) && Held(t, klines[t.code]) {
      BuyReturnsExitOverEntry(t, klines[t.code]);
    } else {
      NotHeld(t, klines);
      NoWealthChange();
    }
  }

  lemma NoWealthChange()
    ensures Wealth([], 0) == 1.0
  {
  }

  lemma RatioOfMore(trades: seq<Trade>, klines: map<string, seq<Bar>>, k: nat)
    requires 0 < k <= |trades| && trades[k - 1].action != "sell"
    ensures var rs := SystemReturns(trades[k - 1], klines);
            RatioProduct(trades, klines, k) == Times(RatioProduct(trades, klines, k - 1), Wealth(rs, |rs|))
  {
    hide Wealth, ExitPrice, SystemReturns, Held, Pooled, Times;
    GrowthOfOne(trades[k - 1], klines);
    TimesOne(RatioProduct(trades, klines, k - 1));
  }

  lemma {:induction false} GrowthIsRatio(trades: seq<Trade>, klines: map<string, seq<Bar>>, k: nat)
    requires k <= |trades| && forall i :: 0 <= i < |trades| ==> trades[i].action != "sell"
    ensures GrowthProduct(trades, klines, k) == RatioProduct(trades, klines, k)
  {
    if k > 0 {
      hide *;
      GrowthIsRatio(trades, klines, k - 1);
      PoolOfMore(trades, klines, k);
      RatioOfMore(trades, klines, k);
    }
  }

  lemma NotHeld(t: Trade, klines: map<string, seq<Bar>>)
    requires !(Pooled(t, klines) && Held(t, klines[t.code]))
    ensures SystemReturns(t, klines) == []
  {
  }

  /** A pool of buys returns the product of the exit over entry ratios. */
  lemma AllBuyPool(trades: seq<Trade>, klines: map<string, seq<Bar>>)
    requires forall i :: 0 <= i < |trades| ==> trades[i].action != "sell"
    ensures CumulativeReturn(PooledSystem(trades, klines, |trades|)) == RatioProduct(trades, klines, |trades|) - 1.0
  {
    PoolingMultiplies(trades, klines);
    GrowthIsRatio(trades, klines, |trades|);
  }

  /** What alignment needs: a usable entry price, and a history that reaches back to the decision. */
  predicate Aligned(t: Trade, klines: map<string, seq<Bar>>) {
    Pooled(t, klines) && t.settlement.Some? ==>
      && t.entry > 0.0
      && !FirstInWindow(UpTo(klines[t.code], t.settlement.value.date), t.decided, t.settlement.value.date)
  }

  lemma TradeAligned(t: Trade, klines: map<string, seq<Bar>>, strategy: Strategy, tech: Technical)
    requires Aligned(t, klines)
    ensures |SystemReturns(t, klines)| == |BaselineReturns(t, klines, strategy, tech)|
  {
    if Pooled(t, klines) && t.settlement.Some? {
      var kline, end := klines[t.code], t.settlement.value.date;
      if Held(t, kline) {
        Alignment(t, kline, strategy, tech);
      } else {
        var hist := UpTo(kline, end);
        ReturnsCount(hist, strategy, tech, t.decided, end, |hist|);
        assert hist[..|hist|] == hist;
        WindowOfUpTo(kline, t.decided, end);
      }
    }
  }

  /** System and every baseline have equal length, so the common truncation drops nothing. */
  lemma {:induction false} PoolsAreAligned(trades: seq<Trade>, klines: map<string, seq<Bar>>,
                                           strategy: Strategy, tech: Technical, k: nat)
    requires k <= |trades| && forall i :: 0 <= i < |trades| ==> Aligned(trades[i], klines)
    ensures |PooledSystem(trades, klines, k)| == |PooledBaseline(trades, klines, strategy, tech, k)|
  {
    if k > 0 {
      PoolsAreAligned(trades, klines, strategy, tech, k - 1);
      TradeAligned(trades[k - 1], klines, strategy, tech);
    }
  }
}
