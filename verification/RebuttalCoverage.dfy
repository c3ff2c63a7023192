/**
  Rebuttal coverage of a bull/bear debate (evals/extract.py): how many of each side's
  arguments the other side answered one round later, out of those that could be answered.
 */
module RebuttalCoverage {
  import opened Finite
  import opened Wrappers

  /** The round field: missing, empty or the number 0; no number; or what it reads as (the text "0" reads as 0). */
  datatype RoundField = Falsy | Unreadable | Reads(value: int)

  datatype Entry = Entry(role: string, round: RoundField, args: nat, rebuttal: seq<int>)

  datatype Message = Message(role: string, round: int, args: nat, rebuttal: seq<int>)

  /** The argument with number `number` of a round. */
  datatype Point = Point(round: int, number: int)

  datatype Line = Line(role: string, answered: nat, rebuttable: nat)

  // ----- Reading the history -------------------------------------------------

  /** How often `role` has spoken among the first `k` entries. */
  function Turns(history: seq<Option<Entry>>, role: string, k: nat): nat
    requires k <= |history|
  {
    if k == 0 then 0
    else Turns(history, role, k - 1) + (if history[k - 1].Some? && history[k - 1].value.role == role then 1 else 0)
  }

  /** Without a readable round the count of the role's turns takes its place. */
  function RoundOf(e: Entry, turn: nat): int {
    if e.round.Reads? then e.round.value else turn
  }

  function Messages(history: seq<Option<Entry>>, k: nat): seq<Message>
    requires k <= |history|
  {
    if k == 0 then []
    else
      Messages(history, k - 1)
      + match history[k - 1]
        case None => []
        case Some(e) => [Message(e.role, RoundOf(e, Turns(history, e.role, k)), e.args, e.rebuttal)]
  }

  // ----- Counting ------------------------------------------------------------

  function Opponent(role: string): (r: string)
    ensures r != role && (r == "bull" || r == "bear")
  {
    if role == "bull" then "bear" else "bull"
  }

  function Roles(ms: seq<Message>): set<string> {
    set m | m in ms :: m.role
  }

  /** The number of arguments of the last message of `role` in `round`. */
  function LastArgs(ms: seq<Message>, role: string, round: int, k: nat): Option<nat>
    requires k <= |ms|
  {
    if k == 0 then None
    else if ms[k - 1].role == role && ms[k - 1].round == round then Some(ms[k - 1].args)
    else LastArgs(ms, role, round, k - 1)
  }

  function MaxRound(ms: seq<Message>, role: string, k: nat): int
    requires k <= |ms|
  {
    if k == 0 then 0
    else
      var before := MaxRound(ms, role, k - 1);
      if ms[k - 1].role == role && ms[k - 1].round > before then ms[k - 1].round else before
  }

  /** The arguments 1 to `args` of a round. */
  function PointsOf(round: int, args: nat): set<Point> {
    set n | 1 <= n <= args :: Point(round, n)
  }

  /** The points of the other side that message `m` answers. */
  function Answers(ms: seq<Message>, m: Message): set<Point> {
    if m.round <= 1 then {}
    else
      match LastArgs(ms, Opponent(m.role), m.round - 1, |ms|)
      case None => {}
      case Some(args) => set n | n in m.rebuttal && 1 <= n <= args :: Point(m.round - 1, n)
  }

  /** The points of `role` answered by the first `k` messages. */
  function Covered(ms: seq<Message>, role: string, k: nat): set<Point>
    requires k <= |ms|
  {
    if k == 0 then {}
    else Covered(ms, role, k - 1) + (if Opponent(ms[k - 1].role) == role then Answers(ms, ms[k - 1]) else {})
  }

  /** The denominator: arguments made before the other side's last round. */
  function Rebuttable(ms: seq<Message>, role: string, k: nat): nat
    requires k <= |ms|
  {
    if k == 0 then 0
    else
      Rebuttable(ms, role, k - 1)
      + (if ms[k - 1].role == role && MaxRound(ms, Opponent(role), |ms|) > ms[k - 1].round then ms[k - 1].args else 0)
  }

  function LineFor(ms: seq<Message>, role: string): seq<Line> {
    var total := Rebuttable(ms, role, |ms|);
    if total == 0 then [] else [Line(role, |Covered(ms, role, |ms|)|, total)]
  }

  function CoverageOf(history: seq<Option<Entry>>): Option<seq<Line>> {
    var ms := Messages(history, |history|);
    if Roles(ms) != {"bull", "bear"} then None
    else
      var lines := LineFor(ms, "bull") + LineFor(ms, "bear");
      if lines == [] then None else Some(lines)
  }

  // ----- Coverage is a share -------------------------------------------------

  /** The distinct points of `role` among the first `k` messages that could be answered. */
  function Available(ms: seq<Message>, role: string, k: nat): set<Point>
    requires k <= |ms|
  {
    if k == 0 then {}
    else
      Available(ms, role, k - 1)
      + (if ms[k - 1].role == role && MaxRound(ms, Opponent(role), |ms|) > ms[k - 1].round
         then PointsOf(ms[k - 1].round, ms[k - 1].args) else {})
  }

  lemma {:induction false} PointsSize(round: int, args: nat)
    ensures |PointsOf(round, args)| == args
  {
    if args > 0 {
      PointsSize(round, args - 1);
      assert PointsOf(round, args) == PointsOf(round, args - 1) + {Point(round, args)};
      assert Point(round, args) !in PointsOf(round, args - 1);
    } else {
      assert PointsOf(round, args) == {};
    }
  }

  lemma UnionSize(a: set<Point>, b: set<Point>)
    ensures |a + b| <= |a| + |b|
    ensures a !! b ==> |a + b| == |a| + |b|
  {
    assert |a + b| == |a| + |b| - |a * b|;
  }

  lemma {:induction false} AvailableAtMostRebuttable(ms: seq<Message>, role: string, k: nat)
    requires k <= |ms|
    ensures |Available(ms, role, k)| <= Rebuttable(ms, role, k)
  {
    if k > 0 {
      AvailableAtMostRebuttable(ms, role, k - 1);
      PointsSize(ms[k - 1].round, ms[k - 1].args);
      UnionSize(Available(ms, role, k - 1), PointsOf(ms[k - 1].round, ms[k - 1].args));
    }
  }

  lemma {:induction false} LastArgsIsSpoken(ms: seq<Message>, role: string, round: int, k: nat)
    requires k <= |ms| && LastArgs(ms, role, round, k).Some?
    ensures exists i :: 0 <= i < k && ms[i].role == role && ms[i].round == round
                        && ms[i].args == LastArgs(ms, role, round, k).value
  {
    if ms[k - 1].role == role && ms[k - 1].round == round {
    } else {
      LastArgsIsSpoken(ms, role, round, k - 1);
    }
  }

  lemma {:induction false} MaxRoundBound(ms: seq<Message>, role: string, i: nat, k: nat)
    requires i < k <= |ms| && ms[i].role == role
    ensures ms[i].round <= MaxRound(ms, role, k)
  {
    if i < k - 1 {
      MaxRoundBound(ms, role, i, k - 1);
    }
  }

  lemma {:induction false} SpokenIsAvailable(ms: seq<Message>, role: string, i: nat, n: int, k: nat)
    requires i < k <= |ms| && ms[i].role == role && 1 <= n <= ms[i].args
    requires MaxRound(ms, Opponent(role), |ms|) > ms[i].round
    ensures Point(ms[i].round, n) in Available(ms, role, k)
  {
    if i < k - 1 {
      SpokenIsAvailable(ms, role, i, n, k - 1);
    }
  }

  ghost predicate TwoSided(ms: seq<Message>) {
    forall i :: 0 <= i < |ms| ==> ms[i].role == "bull" || ms[i].role == "bear"
  }

  lemma OpponentTwice(role: string)
    requires role == "bull" || role == "bear"
    ensures Opponent(Opponent(role)) == role
  {
  }

  lemma AnswerTarget(ms: seq<Message>, m: Message, p: Point)
    requires p in Answers(ms, m)
    ensures p.round == m.round - 1
    ensures LastArgs(ms, Opponent(m.role), p.round, |ms|).Some?
    ensures 1 <= p.number <= LastArgs(ms, Opponent(m.role), p.round, |ms|).value
  {
    hide LastArgs, Opponent;
  }

  lemma AnswersAreAvailable(ms: seq<Message>, j: nat, p: Point)
    requires TwoSided(ms) && j < |ms| && p in Answers(ms, ms[j])
    ensures p in Available(ms, Opponent(ms[j].role), |ms|)
  {
    hide LastArgs, Opponent, Answers, Available, MaxRound;
    var role := Opponent(ms[j].role);
    OpponentTwice(ms[j].role);
    AnswerTarget(ms, ms[j], p);
    LastArgsIsSpoken(ms, role, p.round, |ms|);
    var i :| 0 <= i < |ms| && ms[i].role == role && ms[i].round == p.round
             && ms[i].args == LastArgs(ms, role, p.round, |ms|).value;
    MaxRoundBound(ms, ms[j].role, j, |ms|);
    SpokenIsAvailable(ms, role, i, p.number, |ms|);
  }

  lemma {:induction false} CoveredIsAvailable(ms: seq<Message>, role: string, k: nat)
    requires TwoSided(ms) && k <= |ms|
    ensures Covered(ms, role, k) <= Available(ms, role, |ms|)
  {
    if k > 0 {
      CoveredIsAvailable(ms, role, k - 1);
      forall p | p in Answers(ms, ms[k - 1]) && Opponent(ms[k - 1].role) == role
        ensures p in Available(ms, role, |ms|)
      {
        AnswersAreAvailable(ms, k - 1, p);
      }
    }
  }

  /** Whatever the round numbers, the answered points never outnumber the denominator. */
  lemma CoverageIsAShare(ms: seq<Message>, role: string)
    requires TwoSided(ms)
    ensures |Covered(ms, role, |ms|)| <= Rebuttable(ms, role, |ms|)
    ensures Covered(ms, role, |ms|) != {} ==> Rebuttable(ms, role, |ms|) > 0
  {
    CoveredIsAvailable(ms, role, |ms|);
    SubsetSize(Covered(ms, role, |ms|), Available(ms, role, |ms|));
    AvailableAtMostRebuttable(ms, role, |ms|);
  }

  lemma OnlyTwoSides(ms: seq<Message>)
    requires Roles(ms) == {"bull", "bear"}
    ensures TwoSided(ms)
  {
    forall i | 0 <= i < |ms| ensures ms[i].role == "bull" || ms[i].role == "bear" {
      assert ms[i].role in Roles(ms);
    }
  }

  lemma LineIsAShare(ms: seq<Message>, role: string)
    requires TwoSided(ms)
    ensures forall l :: l in LineFor(ms, role) ==> l.role == role && 0 < l.rebuttable && l.answered <= l.rebuttable
    ensures Covered(ms, role, |ms|) != {} ==> Line(role, |Covered(ms, role, |ms|)|, Rebuttable(ms, role, |ms|)) in LineFor(ms, role)
  {
    hide Covered, Rebuttable;
    CoverageIsAShare(ms, role);
  }

  /** Every reported line is a share, and a side with an answered point is always reported with its counts. */
  lemma ReportedLines(history: seq<Option<Entry>>, role: string)
    requires role == "bull" || role == "bear"
    ensures CoverageOf(history).Some? ==>
              forall l :: l in CoverageOf(history).value ==> 0 < l.rebuttable && l.answered <= l.rebuttable
    ensures var ms := Messages(history, |history|);
            Roles(ms) == {"bull", "bear"} && Covered(ms, role, |ms|) != {} ==>
              CoverageOf(history).Some?
              && Line(role, |Covered(ms, role, |ms|)|, Rebuttable(ms, role, |ms|)) in CoverageOf(history).value
  {
    hide Covered, Rebuttable, Messages, LineFor, Roles, TwoSided;
    var ms := Messages(history, |history|);
    if Roles(ms) == {"bull", "bear"} {
      OnlyTwoSides(ms);
      LineIsAShare(ms, "bull");
      LineIsAShare(ms, "bear");
    }
  }

  /** Each role has at most one message per round. */
  ghost predicate OnePerRound(ms: seq<Message>) {
    forall i, j :: 0 <= i < j < |ms| ==> ms[i].role != ms[j].role || ms[i].round != ms[j].round
  }

  lemma {:induction false} AvailableRounds(ms: seq<Message>, role: string, p: Point, k: nat)
    requires k <= |ms| && p in Available(ms, role, k)
    ensures exists i :: 0 <= i < k && ms[i].role == role && ms[i].round == p.round
  {
    if p in Available(ms, role, k - 1) {
      AvailableRounds(ms, role, p, k - 1);
    }
  }

  /** Without repeated rounds the denominator is exactly the number of distinct answerable points. */
  lemma {:induction false} DenominatorIsExact(ms: seq<Message>, role: string, k: nat)
    requires OnePerRound(ms) && k <= |ms|
    ensures |Available(ms, role, k)| == Rebuttable(ms, role, k)
  {
    if k > 0 {
      hide Opponent, MaxRound, PointsOf;
      DenominatorIsExact(ms, role, k - 1);
      var m := ms[k - 1];
      if m.role == role {
        hide OnePerRound;
        NewPoints(ms, role, k - 1);
        PointsSize(m.round, m.args);
        UnionSize(Available(ms, role, k - 1), PointsOf(m.round, m.args));
      }
    }
  }

  lemma NewPoints(ms: seq<Message>, role: string, k: nat)
    requires OnePerRound(ms) && k < |ms| && ms[k].role == role
    ensures Available(ms, role, k) !! PointsOf(ms[k].round, ms[k].args)
  {
    hide Available;
    forall p | p in Available(ms, role, k) ensures p !in PointsOf(ms[k].round, ms[k].args) {
      AvailableRounds(ms, role, p, k);
    }
  }

  // ----- What the counts mean ------------------------------------------------

  /** Message `i` is the last of its side in its round. */
  ghost predicate LastOfRound(ms: seq<Message>, i: int) {
    && 0 <= i < |ms|
    && forall k :: i < k < |ms| ==> ms[k].role != ms[i].role || ms[k].round != ms[i].round
  }

  /** Message `j`, of the other side and one round later, names argument `n` of message `i`. */
  ghost predicate Replies(ms: seq<Message>, j: int, i: int, n: int) {
    && 0 <= i < |ms| && 0 <= j < |ms| && ms[j].role != ms[i].role && ms[j].round == ms[i].round + 1
    && n in ms[j].rebuttal && 1 <= n <= ms[i].args
  }

  lemma {:induction false} LastArgsIff(ms: seq<Message>, role: string, round: int, k: nat)
    requires k <= |ms|
    ensures match LastArgs(ms, role, round, k)
            case None => forall i :: 0 <= i < k ==> ms[i].role != role || ms[i].round != round
            case Some(args) =>
              exists i :: 0 <= i < k && ms[i].role == role && ms[i].round == round && ms[i].args == args
                          && forall j :: i < j < k ==> ms[j].role != role || ms[j].round != round
  {
    if k > 0 {
      LastArgsIff(ms, role, round, k - 1);
      if ms[k - 1].role == role && ms[k - 1].round == round {
      } else if LastArgs(ms, role, round, k - 1).Some? {
        var i :| 0 <= i < k - 1 && ms[i].role == role && ms[i].round == round && ms[i].args == LastArgs(ms, role, round, k - 1).value
                 && forall j :: i < j < k - 1 ==> ms[j].role != role || ms[j].round != round;
        assert forall j :: i < j < k ==> ms[j].role != role || ms[j].round != round;
      }
    }
  }

  /** The points that message `j` answers. */
  lemma AnswersIff(ms: seq<Message>, j: nat, p: Point)
    requires TwoSided(ms) && j < |ms|
    ensures p in Answers(ms, ms[j]) <==>
              p.round >= 1 && exists i :: LastOfRound(ms, i) && ms[i].round == p.round && Replies(ms, j, i, p.number)
  {
    hide LastArgs;
    var m := ms[j];
    LastArgsIff(ms, Opponent(m.role), m.round - 1, |ms|);
    if p in Answers(ms, m) {
      var args := LastArgs(ms, Opponent(m.role), m.round - 1, |ms|).value;
      var i :| 0 <= i < |ms| && ms[i].role == Opponent(m.role) && ms[i].round == m.round - 1 && ms[i].args == args
               && forall k :: i < k < |ms| ==> ms[k].role != Opponent(m.role) || ms[k].round != m.round - 1;
      assert LastOfRound(ms, i) && Replies(ms, j, i, p.number);
    }
    if i :| p.round >= 1 && LastOfRound(ms, i) && ms[i].round == p.round && Replies(ms, j, i, p.number) {
      assert ms[i].role == Opponent(m.role);
      LastIsTheArgs(ms, i, |ms|);
    }
  }

  lemma {:induction false} LastIsTheArgs(ms: seq<Message>, i: nat, k: nat)
    requires i < k <= |ms| && LastOfRound(ms, i)
    ensures LastArgs(ms, ms[i].role, ms[i].round, k) == Some(ms[i].args)
  {
    if i < k - 1 {
      LastIsTheArgs(ms, i, k - 1);
    }
  }

  lemma {:induction false} CoveredByMessage(ms: seq<Message>, role: string, k: nat, p: Point)
    requires k <= |ms|
    ensures p in Covered(ms, role, k) <==>
              exists j :: 0 <= j < k && Opponent(ms[j].role) == role && p in Answers(ms, ms[j])
  {
    if k > 0 {
      hide Answers, Opponent;
      CoveredByMessage(ms, role, k - 1, p);
    }
  }

  /**
    A point of a side is covered exactly when its round is positive, some message of the other side one round later
    names its number, and the last message of the side in the point's round has that many arguments.
   */
  lemma CoveredIff(ms: seq<Message>, role: string, p: Point)
    requires TwoSided(ms) && (role == "bull" || role == "bear")
    ensures p in Covered(ms, role, |ms|) <==>
              p.round >= 1
              && exists i, j :: LastOfRound(ms, i) && ms[i].role == role && ms[i].round == p.round && Replies(ms, j, i, p.number)
  {
    hide Answers, Covered;
    CoveredByMessage(ms, role, |ms|, p);
    if p in Covered(ms, role, |ms|) {
      var j :| 0 <= j < |ms| && Opponent(ms[j].role) == role && p in Answers(ms, ms[j]);
      AnswersIff(ms, j, p);
    }
    if i, j :| p.round >= 1 && LastOfRound(ms, i) && ms[i].role == role && ms[i].round == p.round && Replies(ms, j, i, p.number) {
      assert Opponent(ms[j].role) == role;
      AnswersIff(ms, j, p);
    }
  }

  /** The other side speaks in a later round; a round below 0 always counts as having one. */
  ghost predicate CanBeAnswered(ms: seq<Message>, i: int) {
    && 0 <= i < |ms|
    && (ms[i].round < 0 || exists j :: 0 <= j < |ms| && ms[j].role != ms[i].role && ms[j].round > ms[i].round)
  }

  lemma {:induction false} MaxRoundIff(ms: seq<Message>, role: string, round: int, k: nat)
    requires k <= |ms|
    ensures MaxRound(ms, role, k) > round <==>
              round < 0 || exists j :: 0 <= j < k && ms[j].role == role && ms[j].round > round
  {
    if k > 0 {
      MaxRoundIff(ms, role, round, k - 1);
    }
  }

  /** The arguments of `role` among the first `k` messages that could be answered: message and number. */
  ghost function Answerable(ms: seq<Message>, role: string, k: nat): set<(int, int)>
    requires k <= |ms|
  {
    set i, n | 0 <= i < k && 1 <= n <= ms[i].args && ms[i].role == role && CanBeAnswered(ms, i) :: (i, n)
  }

  lemma LaterRoundIff(ms: seq<Message>, i: nat)
    requires TwoSided(ms) && i < |ms|
    ensures MaxRound(ms, Opponent(ms[i].role), |ms|) > ms[i].round <==> CanBeAnswered(ms, i)
  {
    hide MaxRound;
    MaxRoundIff(ms, Opponent(ms[i].role), ms[i].round, |ms|);
    assert forall j :: 0 <= j < |ms| ==> (ms[j].role != ms[i].role <==> ms[j].role == Opponent(ms[i].role));
  }

  ghost function Numbers(i: int, args: nat): set<(int, int)> {
    set n | 1 <= n <= args :: (i, n)
  }

  lemma {:induction false} NumbersSize(i: int, args: nat)
    ensures |Numbers(i, args)| == args
  {
    if args > 0 {
      NumbersSize(i, args - 1);
      assert Numbers(i, args) == Numbers(i, args - 1) + {(i, args)};
    } else {
      assert Numbers(i, args) == {};
    }
  }

  /** The denominator is the number of arguments, message by message, of which the other side has a later round. */
  lemma {:induction false} DenominatorIs(ms: seq<Message>, role: string, k: nat)
    requires TwoSided(ms) && k <= |ms|
    ensures Rebuttable(ms, role, k) == |Answerable(ms, role, k)|
  {
    if k == 0 {
      assert Answerable(ms, role, k) == {};
    } else {
      hide MaxRound, TwoSided, Opponent;
      DenominatorIs(ms, role, k - 1);
      LaterRoundIff(ms, k - 1);
      AnswerableOfMore(ms, role, k - 1);
      NumbersSize(k - 1, ms[k - 1].args);
    }
  }

  lemma AnswerableOfMore(ms: seq<Message>, role: string, k: nat)
    requires k < |ms|
    ensures ms[k].role == role && CanBeAnswered(ms, k) ==>
              Answerable(ms, role, k + 1) == Answerable(ms, role, k) + Numbers(k, ms[k].args)
              && Answerable(ms, role, k) !! Numbers(k, ms[k].args)
    ensures !(ms[k].role == role && CanBeAnswered(ms, k)) ==> Answerable(ms, role, k + 1) == Answerable(ms, role, k)
  {
    hide CanBeAnswered;
  }

  /** The entries of a history among the first `k` that are messages, and those of one role. */
  ghost function Spoken(history: seq<Option<Entry>>, k: nat): set<int>
    requires k <= |history|
  {
    set i | 0 <= i < k && history[i].Some?
  }

  ghost function SpokenBy(history: seq<Option<Entry>>, role: string, k: nat): set<int>
    requires k <= |history|
  {
    set i | 0 <= i < k && history[i].Some? && history[i].value.role == role
  }

  lemma {:induction false} TurnsAre(history: seq<Option<Entry>>, role: string, k: nat)
    requires k <= |history|
    ensures Turns(history, role, k) == |SpokenBy(history, role, k)|
  {
    if k == 0 {
      assert SpokenBy(history, role, k) == {};
    } else {
      hide SpokenBy;
      TurnsAre(history, role, k - 1);
      SpokenByMore(history, role, k - 1);
    }
  }

  lemma SpokenByMore(history: seq<Option<Entry>>, role: string, k: nat)
    requires k < |history|
    ensures |SpokenBy(history, role, k + 1)| ==
            |SpokenBy(history, role, k)| + if history[k].Some? && history[k].value.role == role then 1 else 0
  {
    var before, after := SpokenBy(history, role, k), SpokenBy(history, role, k + 1);
    var speaks := history[k].Some? && history[k].value.role == role;
    forall i ensures i in after <==> i in before || (i == k && speaks) {
    }
    assert k !in before;
    hide SpokenBy;
    assert after == if speaks then before + {k} else before;
  }

  /**
    The messages are the entries that are messages, in their order and with their own fields; a round that cannot be
    read is the number of messages of the role up to and including this one.
   */
  lemma {:induction false} MessagesAre(history: seq<Option<Entry>>, i: nat, k: nat)
    requires i < k <= |history|
    ensures |Messages(history, k)| == |Spoken(history, k)|
    ensures history[i].Some? ==>
              var e, at := history[i].value, |Spoken(history, i)|;
              at < |Messages(history, k)|
              && Messages(history, k)[at] ==
                 Message(e.role, if e.round.Reads? then e.round.value else |SpokenBy(history, e.role, i + 1)|, e.args, e.rebuttal)
  {
    hide Turns;
    MessageCount(history, k - 1);
    MessageCount(history, k);
    if i < k - 1 {
      MessagesAre(history, i, k - 1);
    } else if history[i].Some? {
      TurnsAre(history, history[i].value.role, k);
    }
  }

  lemma {:induction false} MessageCount(history: seq<Option<Entry>>, k: nat)
    requires k <= |history|
    ensures |Messages(history, k)| == |Spoken(history, k)|
  {
    if k == 0 {
      assert Spoken(history, k) == {};
    } else {
      MessageCount(history, k - 1);
      var before := Spoken(history, k - 1);
      assert Spoken(history, k) == if history[k - 1].Some? then before + {k - 1} else before;
    }
  }

  ghost predicate BothSpeak(ms: seq<Message>) {
    && TwoSided(ms)
    && (exists i :: 0 <= i < |ms| && ms[i].role == "bull")
    && (exists i :: 0 <= i < |ms| && ms[i].role == "bear")
  }

  /** Something is reported exactly when both sides, and only they, speak and one has a positive denominator. */
  lemma CoverageIff(history: seq<Option<Entry>>)
    ensures var ms := Messages(history, |history|);
            var bull, bear := Rebuttable(ms, "bull", |ms|), Rebuttable(ms, "bear", |ms|);
            var first, second := Line("bull", |Covered(ms, "bull", |ms|)|, bull), Line("bear", |Covered(ms, "bear", |ms|)|, bear);
            CoverageOf(history) ==
              if !BothSpeak(ms) || (bull == 0 && bear == 0) then None
              else if bear == 0 then Some([first])
              else if bull == 0 then Some([second])
              else Some([first, second])
  {
    hide Messages, Covered, Rebuttable, BothSpeak, Roles;
    var ms := Messages(history, |history|);
    RolesIff(ms);
    var first := Line("bull", |Covered(ms, "bull", |ms|)|, Rebuttable(ms, "bull", |ms|));
    var second := Line("bear", |Covered(ms, "bear", |ms|)|, Rebuttable(ms, "bear", |ms|));
    assert [first] + [second] == [first, second];
    assert LineFor(ms, "bull") + [] == LineFor(ms, "bull") && [] + LineFor(ms, "bear") == LineFor(ms, "bear");
  }

  lemma RolesIff(ms: seq<Message>)
    ensures Roles(ms) == {"bull", "bear"} <==> BothSpeak(ms)
  {
    forall role ensures role in Roles(ms) <==> exists i :: 0 <= i < |ms| && ms[i].role == role {
      RoleIsSpoken(ms, role);
    }
    hide Roles;
    if Roles(ms) == {"bull", "bear"} {
      assert "bull" in Roles(ms) && "bear" in Roles(ms);
      assert forall i :: 0 <= i < |ms| ==> ms[i].role in Roles(ms);
    }
    if BothSpeak(ms) {
      assert forall role :: role in Roles(ms) <==> role in {"bull", "bear"};
    }
  }

  lemma RoleIsSpoken(ms: seq<Message>, role: string)
    ensures role in Roles(ms) <==> exists i :: 0 <= i < |ms| && ms[i].role == role
  {
    if role in Roles(ms) {
      var m :| m in ms && m.role == role;
    }
  }

  // ----- The loops -----------------------------------------------------------

  method ReadMessages(history: seq<Option<Entry>>) returns (ms: seq<Message>)
    ensures ms == Messages(history, |history|)
  {
    ms := [];
    var occurrence: map<string, nat> := map[];
    for k := 0 to |history|
      invariant ms == Messages(history, k)
      invariant forall role :: (if role in occurrence then occurrence[role] else 0) == Turns(history, role, k)
    {
      if history[k].Some? {
        var e := history[k].value;
        var turn := (if e.role in occurrence then occurrence[e.role] else 0) + 1;
        occurrence := occurrence[e.role := turn];
        var round := turn;
        if e.round.Reads? {
          round := e.round.value;
        }
        ms := ms + [Message(e.role, round, e.args, e.rebuttal)];
      }
    }
  }

  /** The dictionaries of the second loop: arguments by role and round, last round by role. */
  method Index(ms: seq<Message>) returns (argsBy: map<(string, int), nat>, maxRound: map<string, int>)
    ensures forall role, round ::
              LastArgs(ms, role, round, |ms|) == if (role, round) in argsBy then Some(argsBy[(role, round)]) else None
    ensures forall role :: MaxRound(ms, role, |ms|) == if role in maxRound then maxRound[role] else 0
  {
    argsBy, maxRound := map[], map[];
    for k := 0 to |ms|
      invariant forall role, round ::
                  LastArgs(ms, role, round, k) == if (role, round) in argsBy then Some(argsBy[(role, round)]) else None
      invariant forall role :: MaxRound(ms, role, k) == if role in maxRound then maxRound[role] else 0
    {
      var m := ms[k];
      argsBy := argsBy[(m.role, m.round) := m.args];
      var before := if m.role in maxRound then maxRound[m.role] else 0;
      maxRound := maxRound[m.role := if m.round > before then m.round else before];
    }
  }

  lemma AnswersByIndex(ms: seq<Message>, m: Message, target: Option<nat>)
    requires target == LastArgs(ms, Opponent(m.role), m.round - 1, |ms|)
    ensures Answers(ms, m) == if m.round > 1 && target.Some?
                              then set n | n in m.rebuttal && 1 <= n <= target.value :: Point(m.round - 1, n) else {}
  {
    hide LastArgs, Opponent;
  }

  method CountCoverage(ms: seq<Message>, role: string, argsBy: map<(string, int), nat>, maxRound: map<string, int>)
    returns (covered: set<Point>, rebuttable: nat)
    requires forall r, round ::
               LastArgs(ms, r, round, |ms|) == if (r, round) in argsBy then Some(argsBy[(r, round)]) else None
    requires forall r :: MaxRound(ms, r, |ms|) == if r in maxRound then maxRound[r] else 0
    ensures covered == Covered(ms, role, |ms|) && rebuttable == Rebuttable(ms, role, |ms|)
  {
    hide LastArgs, MaxRound;
    covered, rebuttable := {}, 0;
    for k := 0 to |ms|
      invariant covered == Covered(ms, role, k) && rebuttable == Rebuttable(ms, role, k)
    {
      hide Opponent, Answers;
      var m := ms[k];
      var opp := Opponent(role);
      AnswersByIndex(ms, m, LastArgs(ms, Opponent(m.role), m.round - 1, |ms|));
      if m.role == role && (if opp in maxRound then maxRound[opp] else 0) > m.round {
        rebuttable := rebuttable + m.args;
      }
      var key := (role, m.round - 1);
      if Opponent(m.role) == role && m.round > 1 && key in argsBy {
        covered := covered + set n | n in m.rebuttal && 1 <= n <= argsBy[key] :: Point(m.round - 1, n);
      }
    }
  }

  method Coverage(history: seq<Option<Entry>>) returns (r: Option<seq<Line>>)
    ensures r == CoverageOf(history)
  {
    var ms := ReadMessages(history);
    if (set m | m in ms :: m.role) != {"bull", "bear"} {
      return None;
    }
    var argsBy, maxRound := Index(ms);
    var bullCovered, bullTotal := CountCoverage(ms, "bull", argsBy, maxRound);
    var bearCovered, bearTotal := CountCoverage(ms, "bear", argsBy, maxRound);
    var lines := (if bullTotal == 0 then [] else [Line("bull", |bullCovered|, bullTotal)])
               + (if bearTotal == 0 then [] else [Line("bear", |bearCovered|, bearTotal)]);
    r := if lines == [] then None else Some(lines);
  }
}
