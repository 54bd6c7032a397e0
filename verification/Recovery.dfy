/** What the rotation policy guarantees over whole runs: re-resolution counts, fairness
    and recovery from an unreachable address. */
module Recovery {
  import opened Wrappers
  import opened Canonical
  import opened Rotation
  import opened Rings

  /** Success or failure of every probe of a run. */
  function Outcomes<A(!new, ==)>(less: (A, A) -> bool, t: Target<A>, cycles: seq<Cycle<A>>): (r: seq<bool>)
    ensures |r| == |cycles|
  {
    if cycles == [] then []
    else
      var front, c := cycles[..|cycles| - 1], cycles[|cycles| - 1];
      Outcomes(less, t, front) + [!Fails(Run(less, t, front), c)]
  }

  /** How often a run resolved the target again. */
  function Resolutions<A(!new, ==)>(less: (A, A) -> bool, t: Target<A>, cycles: seq<Cycle<A>>): nat {
    if cycles == [] then 0
    else
      var front, c := cycles[..|cycles| - 1], cycles[|cycles| - 1];
      Resolutions(less, t, front) + if Reresolves(Run(less, t, front), c) then 1 else 0
  }

  /** How many of these resolutions failed. */
  function FailedResolutions<A(!new, ==)>(less: (A, A) -> bool, t: Target<A>, cycles: seq<Cycle<A>>): (f: nat)
    ensures f <= Resolutions(less, t, cycles)
  {
    if cycles == [] then 0
    else
      var front, c := cycles[..|cycles| - 1], cycles[|cycles| - 1];
      FailedResolutions(less, t, front)
      + if Reresolves(Run(less, t, front), c) && c.answer.None? then 1 else 0
  }

  /** How often a run moved on to the next address. */
  function Moves<A(!new, ==)>(less: (A, A) -> bool, t: Target<A>, cycles: seq<Cycle<A>>): nat {
    Resolutions(less, t, cycles) - FailedResolutions(less, t, cycles)
  }

  ghost predicate AllFail<A(!new)>(less: (A, A) -> bool, t: Target<A>, cycles: seq<Cycle<A>>) {
    forall i | 0 <= i < |cycles| :: !Outcomes(less, t, cycles)[i]
  }

  lemma {:induction false} OutcomesAt<A(!new)>(less: (A, A) -> bool, t: Target<A>, cycles: seq<Cycle<A>>, i: nat)
    requires i <= |cycles|
    ensures Outcomes(less, t, cycles[..i]) == Outcomes(less, t, cycles)[..i]
    ensures i < |cycles| ==> Outcomes(less, t, cycles)[i] == !Fails(Run(less, t, cycles[..i]), cycles[i])
  {
    if i == |cycles| {
      assert cycles[..i] == cycles;
    } else {
      var front := cycles[..|cycles| - 1];
      assert front[..i] == cycles[..i];
      OutcomesAt(less, t, front, i);
    }
  }

  /** The exported points show the outcomes: a reading for every success and only then. */
  lemma PointsShowOutcomes<A(!new)>(less: (A, A) -> bool, t: Target<A>, cycles: seq<Cycle<A>>,
                                    now: Target<A>, probed: seq<A>, points: seq<Point>, i: nat)
    requires Traced(less, t, cycles, now, probed, points) && i < |points|
    ensures points[i].rtt.Some? <==> Outcomes(less, t, cycles)[i]
  {
    assert TracedAt(less, t, cycles, i, probed[i], points[i]);
    OutcomesAt(less, t, cycles, i);
  }

  // ----- how often the target is resolved again

  /** Length of the failure run a history ends in. */
  function Trailing(outs: seq<bool>): nat {
    if outs == [] || outs[|outs| - 1] then 0 else 1 + Trailing(outs[..|outs| - 1])
  }

  /** Lengths of the maximal runs of consecutive failures. */
  function FailureRuns(outs: seq<bool>): (runs: seq<nat>)
    ensures outs != [] && !outs[|outs| - 1] ==> runs != [] && runs[|runs| - 1] == Trailing(outs)
  {
    if outs == [] then []
    else
      var front := outs[..|outs| - 1];
      var runs := FailureRuns(front);
      if outs[|outs| - 1] then runs
      else if front != [] && !front[|front| - 1] then runs[..|runs| - 1] + [runs[|runs| - 1] + 1]
      else runs + [1]
  }

  /** How many complete fives there are in a run of this length. */
  function Fifths(n: nat): (f: nat)
    ensures 5 * f <= n < 5 * f + 5
  {
    if n < RERESOLVE_AFTER_FAILURES then 0 else 1 + Fifths(n - RERESOLVE_AFTER_FAILURES)
  }

  /** The failures left before the next resolution, after a run of this length. */
  function Left(n: nat): (left: nat)
    ensures 1 <= left <= RERESOLVE_AFTER_FAILURES
  {
    if n < RERESOLVE_AFTER_FAILURES then RERESOLVE_AFTER_FAILURES - n else Left(n - RERESOLVE_AFTER_FAILURES)
  }

  /** One failure more. */
  lemma {:induction false} FifthStep(n: nat)
    ensures Left(n + 1) == if Left(n) == 1 then RERESOLVE_AFTER_FAILURES else Left(n) - 1
    ensures Fifths(n + 1) == Fifths(n) + if Left(n) == 1 then 1 else 0
  {
    if n >= RERESOLVE_AFTER_FAILURES { FifthStep(n - RERESOLVE_AFTER_FAILURES); }
  }

  /** These are the quotient and what the remainder leaves. */
  lemma {:induction false} FifthsAreQuotients(n: nat)
    ensures Fifths(n) == n / RERESOLVE_AFTER_FAILURES
    ensures Left(n) == RERESOLVE_AFTER_FAILURES - n % RERESOLVE_AFTER_FAILURES
  {
    if n >= RERESOLVE_AFTER_FAILURES { FifthsAreQuotients(n - RERESOLVE_AFTER_FAILURES); }
  }

  function SumOfFifths(runs: seq<nat>): nat {
    if runs == [] then 0 else SumOfFifths(runs[..|runs| - 1]) + runs[|runs| - 1] / RERESOLVE_AFTER_FAILURES
  }

  lemma SumSnoc(runs: seq<nat>, n: nat)
    ensures SumOfFifths(runs + [n]) == SumOfFifths(runs) + Fifths(n)
  {
    assert (runs + [n])[..|runs|] == runs;
    FifthsAreQuotients(n);
  }

  lemma FailureRunsGrow(outs: seq<bool>, ok: bool)
    ensures var runs, trailing := FailureRuns(outs), Trailing(outs);
      FailureRuns(outs + [ok]) ==
        if ok then runs
        else if trailing > 0 then runs[..|runs| - 1] + [trailing + 1]
        else runs + [1]
  {
  }

  lemma FailureRunsStep(outs: seq<bool>, ok: bool)
    ensures SumOfFifths(FailureRuns(outs + [ok])) == SumOfFifths(FailureRuns(outs))
        + if !ok && Left(Trailing(outs)) == 1 then 1 else 0
  {
    var runs, trailing := FailureRuns(outs), Trailing(outs);
    FailureRunsGrow(outs, ok);
    FifthStep(trailing);
    if !ok && trailing > 0 {
      var front := runs[..|runs| - 1];
      assert runs == front + [trailing];
      SumSnoc(front, trailing);
      SumSnoc(front, trailing + 1);
    } else if !ok {
      SumSnoc(runs, 1);
    }
  }

  lemma {:induction false} CountdownIsLeft<A(!new)>(less: (A, A) -> bool, t: Target<A>, cycles: seq<Cycle<A>>)
    requires t.countdown == RERESOLVE_AFTER_FAILURES
    ensures Run(less, t, cycles).countdown == Left(Trailing(Outcomes(less, t, cycles)))
  {
    if cycles != [] {
      var front, c := cycles[..|cycles| - 1], cycles[|cycles| - 1];
      CountdownIsLeft(less, t, front);
      var before, now := Outcomes(less, t, front), Run(less, t, front);
      TrailingStep(before, !Fails(now, c));
      CountdownStep(less, now, c, Trailing(before));
    }
  }

  /** The countdown always shows the length of the current failure run modulo five. */
  lemma CountdownShowsRun<A(!new)>(less: (A, A) -> bool, t: Target<A>, cycles: seq<Cycle<A>>)
    requires t.countdown == RERESOLVE_AFTER_FAILURES
    ensures Run(less, t, cycles).countdown ==
      RERESOLVE_AFTER_FAILURES - Trailing(Outcomes(less, t, cycles)) % RERESOLVE_AFTER_FAILURES
  {
    CountdownIsLeft(less, t, cycles);
    FifthsAreQuotients(Trailing(Outcomes(less, t, cycles)));
  }

  /** And the target was resolved once per five failures of every maximal failure run. */
  lemma {:induction false} ResolutionCount<A(!new)>(less: (A, A) -> bool, t: Target<A>, cycles: seq<Cycle<A>>)
    requires t.countdown == RERESOLVE_AFTER_FAILURES
    ensures Resolutions(less, t, cycles) == SumOfFifths(FailureRuns(Outcomes(less, t, cycles)))
  {
    if cycles != [] {
      var front, c := cycles[..|cycles| - 1], cycles[|cycles| - 1];
      ResolutionCount(less, t, front);
      CountdownIsLeft(less, t, front);
      var before, now := Outcomes(less, t, front), Run(less, t, front);
      CountdownStep(less, now, c, Trailing(before));
      FailureRunsStep(before, !Fails(now, c));
    }
  }

  lemma CountdownStep<A(!new)>(less: (A, A) -> bool, t: Target<A>, c: Cycle<A>, trailing: nat)
    requires t.countdown == Left(trailing)
    ensures Step(less, t, c).countdown == Left(if Fails(t, c) then trailing + 1 else 0)
    ensures Reresolves(t, c) <==> Fails(t, c) && Left(trailing) == 1
  {
    FifthStep(trailing);
  }

  lemma TrailingStep(outs: seq<bool>, ok: bool)
    ensures Trailing(outs + [ok]) == if ok then 0 else Trailing(outs) + 1
  {
  }

  lemma {:induction false} CountdownFallsByOne<A(!new)>(less: (A, A) -> bool, t: Target<A>, cycles: seq<Cycle<A>>)
    requires 1 <= t.countdown <= RERESOLVE_AFTER_FAILURES
    ensures 1 <= Run(less, t, cycles).countdown <= RERESOLVE_AFTER_FAILURES
    ensures Run(less, t, cycles).countdown >= t.countdown - |cycles|
  {
    if cycles != [] {
      CountdownFallsByOne(less, t, cycles[..|cycles| - 1]);
    }
  }

  lemma {:induction false} RunSplits<A(!new)>(less: (A, A) -> bool, t: Target<A>, a: seq<Cycle<A>>, b: seq<Cycle<A>>)
    ensures Run(less, t, a + b) == Run(less, Run(less, t, a), b)
  {
    if b == [] {
      assert a + b == a;
    } else {
      RunSplits(less, t, a, b[..|b| - 1]);
      assert (a + b)[..|a + b| - 1] == a + b[..|b| - 1];
    }
  }

  lemma RunFrom<A(!new)>(less: (A, A) -> bool, t: Target<A>, cycles: seq<Cycle<A>>, i: nat, j: nat)
    requires i <= j <= |cycles|
    ensures Run(less, t, cycles[..j]) == Run(less, Run(less, t, cycles[..i]), cycles[i..j])
  {
    assert cycles[..j] == cycles[..i] + cycles[i..j];
    RunSplits(less, t, cycles[..i], cycles[i..j]);
  }

  /** Two re-resolutions are at least five cycles apart. */
  lemma ResolutionsAreSpaced<A(!new)>(less: (A, A) -> bool, t: Target<A>, cycles: seq<Cycle<A>>, i: nat, j: nat)
    requires i < j < |cycles|
    requires Reresolves(Run(less, t, cycles[..i]), cycles[i]) && Reresolves(Run(less, t, cycles[..j]), cycles[j])
    ensures j - i >= RERESOLVE_AFTER_FAILURES
  {
    RunStep(less, t, cycles, i);
    RunFrom(less, t, cycles, i + 1, j);
    CountdownFallsByOne(less, Run(less, t, cycles[..i + 1]), cycles[i + 1..j]);
  }

  /** Between re-resolutions neither the list nor the address changes. */
  lemma {:induction false} OnlyResolutionsMove<A(!new)>(less: (A, A) -> bool, t: Target<A>, cycles: seq<Cycle<A>>)
    requires Resolutions(less, t, cycles) == 0
    ensures Run(less, t, cycles).addrs == t.addrs && Run(less, t, cycles).current == t.current
  {
    if cycles != [] {
      OnlyResolutionsMove(less, t, cycles[..|cycles| - 1]);
    }
  }

  // ----- fair rotation

  /** Every resolution that succeeds returns one fixed set of addresses, in any order and with
      any repeats. */
  ghost predicate FixedAnswers<A>(cycles: seq<Cycle<A>>, answer: seq<A>) {
    forall c | c in cycles && c.answer.Some? :: Elems(c.answer.value) == Elems(answer)
  }

  lemma NextOnOrder<A(!new)>(order: seq<A>, i: nat, preferred: A)
    requires Distinct(order) && i < |order|
    ensures Next(order, order[i], preferred) == if i + 1 < |order| then order[i + 1] else order[0]
  {
  }

  /** One cycle moves to the next place of the canonical order or stays. */
  lemma StepOnOrder<A(!new)>(less: (A, A) -> bool, t: Target<A>, c: Cycle<A>, answer: seq<A>, i: nat)
    requires StrictTotal(less) && FixedAnswers([c], answer)
    requires i < |CanonicalOrder(less, answer)| && CanonicalOrder(less, answer)[i] == t.current
    ensures var order := CanonicalOrder(less, answer);
      Step(less, t, c).current ==
        if Reresolves(t, c) && c.answer.Some? then (if i + 1 < |order| then order[i + 1] else order[0])
        else order[i]
  {
    if Reresolves(t, c) && c.answer.Some? {
      assert c in [c];
      CanonicalSpec(less, answer);
      SortedIsDistinct(less, CanonicalOrder(less, answer));
      SameSetSameOrder(less, c.answer.value, answer);
      assert t.current in Elems(CanonicalOrder(less, answer));
      EmptyElems(c.answer.value);
      NextOnOrder(CanonicalOrder(less, answer), i, c.answer.value[0]);
    }
  }

  lemma {:induction false} MovesGoAround<A(!new)>(less: (A, A) -> bool, t: Target<A>, cycles: seq<Cycle<A>>,
                                                 answer: seq<A>, start: nat)
    requires StrictTotal(less) && FixedAnswers(cycles, answer)
    requires start < |CanonicalOrder(less, answer)| && CanonicalOrder(less, answer)[start] == t.current
    ensures Run(less, t, cycles).current == Cyclic(CanonicalOrder(less, answer), start + Moves(less, t, cycles))
  {
    if cycles != [] {
      var order := CanonicalOrder(less, answer);
      var front, c := cycles[..|cycles| - 1], cycles[|cycles| - 1];
      MovesGoAround(less, t, front, answer, start);
      var x := start + Moves(less, t, front);
      OneMoveOn(less, Run(less, t, front), c, answer, order, x);
    }
  }

  lemma OneMoveOn<A(!new)>(less: (A, A) -> bool, t: Target<A>, c: Cycle<A>, answer: seq<A>, order: seq<A>, x: nat)
    requires StrictTotal(less) && FixedAnswers([c], answer) && order == CanonicalOrder(less, answer)
    requires order != [] && t.current == Cyclic(order, x)
    ensures Step(less, t, c).current == Cyclic(order, if Reresolves(t, c) && c.answer.Some? then x + 1 else x)
  {
    RingStep(|order|, x);
    StepOnOrder(less, t, c, answer, Ring(|order|, x));
  }

  /** Whatever the pattern of successes and failures and however the resolver shuffles, the
      address after `k` moves is the one at position `(start + k) mod n` of the canonical order. */
  lemma {:induction false} FairRotation<A(!new)>(less: (A, A) -> bool, t: Target<A>, cycles: seq<Cycle<A>>,
                                                 answer: seq<A>, start: nat)
    requires StrictTotal(less) && FixedAnswers(cycles, answer)
    requires start < |CanonicalOrder(less, answer)| && CanonicalOrder(less, answer)[start] == t.current
    ensures var order := CanonicalOrder(less, answer);
      Run(less, t, cycles).current == order[(start + Moves(less, t, cycles)) % |order|]
  {
    MovesGoAround(less, t, cycles, answer, start);
    CyclicIsRemainder(CanonicalOrder(less, answer), start + Moves(less, t, cycles));
  }

  /** A counter that starts at zero and grows by at most one per cycle takes every value on its way. */
  lemma {:induction false} MovesTakesEveryValue<A(!new)>(less: (A, A) -> bool, t: Target<A>, cycles: seq<Cycle<A>>, d: nat)
    returns (i: nat)
    requires d <= Moves(less, t, cycles)
    ensures i <= |cycles| && Moves(less, t, cycles[..i]) == d
  {
    assert cycles[..|cycles|] == cycles;
    if d == Moves(less, t, cycles) {
      i := |cycles|;
    } else {
      var front := cycles[..|cycles| - 1];
      i := MovesTakesEveryValue(less, t, front, d);
      assert front[..i] == cycles[..i];
    }
  }

  /** After `n - 1` moves every one of the `n` addresses has been in use. */
  lemma EveryAddressIsTried<A(!new)>(less: (A, A) -> bool, t: Target<A>, cycles: seq<Cycle<A>>, answer: seq<A>, a: A)
    returns (i: nat)
    requires StrictTotal(less) && FixedAnswers(cycles, answer)
    requires t.current in answer && a in answer
    requires Moves(less, t, cycles) + 1 >= |CanonicalOrder(less, answer)|
    ensures i <= |cycles| && Run(less, t, cycles[..i]).current == a
  {
    var order := CanonicalOrder(less, answer);
    CanonicalSpec(less, answer);
    assert t.current in Elems(order) && a in Elems(order);
    var start :| 0 <= start < |order| && order[start] == t.current;
    var goal :| 0 <= goal < |order| && order[goal] == a;
    var d := RingOffset(|order|, start, goal);
    i := MovesTakesEveryValue(less, t, cycles, d);
    MovesGoAround(less, t, cycles[..i], answer, start);
  }

  // ----- recovery

  lemma AllFailSnoc<A(!new)>(less: (A, A) -> bool, t: Target<A>, cycles: seq<Cycle<A>>)
    requires cycles != []
    ensures var front, c := cycles[..|cycles| - 1], cycles[|cycles| - 1];
      AllFail(less, t, cycles) <==> AllFail(less, t, front) && Fails(Run(less, t, front), c)
  {
    var front, n := cycles[..|cycles| - 1], |cycles| - 1;
    var before, after := Outcomes(less, t, front), Outcomes(less, t, cycles);
    assert forall i | 0 <= i < n :: before[i] == after[i];
    assert after[n] == !Fails(Run(less, t, front), cycles[n]);
  }

  /** During an outage the target is resolved every fifth failure; `spent` failures have then
      counted since the last resolution before the outage. */
  lemma {:induction false} FailingRun<A(!new)>(less: (A, A) -> bool, t: Target<A>, cycles: seq<Cycle<A>>, spent: nat)
    requires 1 <= t.countdown <= RERESOLVE_AFTER_FAILURES && AllFail(less, t, cycles)
    requires spent == |cycles| + RERESOLVE_AFTER_FAILURES - t.countdown
    ensures Run(less, t, cycles).countdown == Left(spent)
    ensures Resolutions(less, t, cycles) == Fifths(spent)
  {
    if cycles != [] {
      var front, c := cycles[..|cycles| - 1], cycles[|cycles| - 1];
      AllFailSnoc(less, t, cycles);
      FailingRun(less, t, front, spent - 1);
      CountdownStep(less, Run(less, t, front), c, spent - 1);
      FifthStep(spent - 1);
    }
  }

  lemma {:induction false} FailedResolutionsGrow<A(!new)>(less: (A, A) -> bool, t: Target<A>, cycles: seq<Cycle<A>>, i: nat)
    requires i <= |cycles|
    ensures FailedResolutions(less, t, cycles[..i]) <= FailedResolutions(less, t, cycles)
  {
    if i < |cycles| {
      var front := cycles[..|cycles| - 1];
      FailedResolutionsGrow(less, t, front, i);
      assert front[..i] == cycles[..i];
    } else {
      assert cycles[..i] == cycles;
    }
  }

  /** No outage outlasts `5 * (n - 1)` probes plus five per failed resolution, from any
      reachable target, as long as one of the `n` addresses stays reachable: the others may
      come and go at will. */
  lemma {:induction false} OutageBound<A(!new)>(less: (A, A) -> bool, t: Target<A>, cycles: seq<Cycle<A>>,
                                                answer: seq<A>, live: A)
    requires StrictTotal(less) && FixedAnswers(cycles, answer)
    requires t.current in answer && live in answer && 1 <= t.countdown <= RERESOLVE_AFTER_FAILURES
    requires forall c | c in cycles :: live in c.up
    requires AllFail(less, t, cycles)
    ensures |cycles| <= 5 * (|CanonicalOrder(less, answer)| - 1) + 5 * FailedResolutions(less, t, cycles)
  {
    CanonicalSpec(less, answer);
    EmptyElems(answer);
    EmptyElems(CanonicalOrder(less, answer));
    if cycles != [] {
      var front := cycles[..|cycles| - 1];
      AllFailSnoc(less, t, cycles);
      FailingRun(less, t, front, |front| + RERESOLVE_AFTER_FAILURES - t.countdown);
      FailedResolutionsGrow(less, t, cycles, |front|);
      if Moves(less, t, front) + 1 >= |CanonicalOrder(less, answer)| {
        var i := EveryAddressIsTried(less, t, front, answer, live);
        assert front[..i] == cycles[..i];
        OutcomesAt(less, t, cycles, i);
        assert false;
      }
    }
  }

  /** The probe never leaves an address that keeps answering. */
  lemma {:induction false} StaysOnLiveAddress<A(!new)>(less: (A, A) -> bool, t: Target<A>, cycles: seq<Cycle<A>>)
    requires forall c | c in cycles :: t.current in c.up
    ensures Run(less, t, cycles).current == t.current && Run(less, t, cycles).addrs == t.addrs
    ensures forall i | 0 <= i < |cycles| :: Outcomes(less, t, cycles)[i]
  {
    if cycles != [] {
      StaysOnLiveAddress(less, t, cycles[..|cycles| - 1]);
    }
  }

  /** How many cycles pass before the probe first aims at one of the live addresses. */
  function Outage<A(!new, ==)>(less: (A, A) -> bool, t: Target<A>, cycles: seq<Cycle<A>>, live: set<A>): (h: nat)
    ensures h <= |cycles|
  {
    if cycles == [] then 0
    else
      var front := cycles[..|cycles| - 1];
      var h := Outage(less, t, front, live);
      if h < |front| || Run(less, t, front).current in live then h else |cycles|
  }

  lemma {:induction false} OutageSpec<A(!new)>(less: (A, A) -> bool, t: Target<A>, cycles: seq<Cycle<A>>, live: set<A>, i: nat)
    requires i < |cycles|
    ensures i < Outage(less, t, cycles, live) ==> Run(less, t, cycles[..i]).current !in live
    ensures i == Outage(less, t, cycles, live) ==> Run(less, t, cycles[..i]).current in live
  {
    var front := cycles[..|cycles| - 1];
    assert front[..Outage(less, t, front, live)] == cycles[..Outage(less, t, front, live)];
    if i < |front| {
      assert front[..i] == cycles[..i];
      OutageSpec(less, t, front, live, i);
    } else {
      assert cycles[..i] == front;
    }
  }

  /** Exactly the addresses `live` of the answer set complete handshakes in these cycles. */
  ghost predicate OnlyLiveAnswer<A>(cycles: seq<Cycle<A>>, answer: seq<A>, live: set<A>) {
    && live != {}
    && forall c | c in cycles :: c.up * Elems(answer) == live
  }

  lemma OutageFails<A(!new)>(less: (A, A) -> bool, t: Target<A>, cycles: seq<Cycle<A>>, answer: seq<A>, live: set<A>, i: nat)
    requires StrictTotal(less) && FixedAnswers(cycles, answer) && t.current in answer
    requires OnlyLiveAnswer(cycles, answer, live) && i < Outage(less, t, cycles, live)
    ensures !Outcomes(less, t, cycles)[i]
  {
    OutageSpec(less, t, cycles, live, i);
    OutcomesAt(less, t, cycles, i);
    CurrentIsAnAnswer(less, t, cycles[..i], answer);
    assert cycles[i] in cycles;
    assert Run(less, t, cycles[..i]).current in Elems(answer);
  }

  lemma {:induction false} RecoveryLasts<A(!new)>(less: (A, A) -> bool, t: Target<A>, cycles: seq<Cycle<A>>,
                                                  answer: seq<A>, live: set<A>, i: nat)
    requires OnlyLiveAnswer(cycles, answer, live) && Outage(less, t, cycles, live) <= i < |cycles|
    ensures Outcomes(less, t, cycles)[i]
    ensures Run(less, t, cycles[..i]).current == Run(less, t, cycles[..Outage(less, t, cycles, live)]).current
    ensures Run(less, t, cycles[..i]).current in live
  {
    var h := Outage(less, t, cycles, live);
    OutageSpec(less, t, cycles, live, h);
    var found := Run(less, t, cycles[..h]);
    RunFrom(less, t, cycles, h, i);
    assert forall c | c in cycles :: found.current in c.up * Elems(answer);
    StaysOnLiveAddress(less, found, cycles[h..i]);
    OutcomesAt(less, t, cycles, i);
    assert cycles[i] in cycles;
  }

  /** Bounded recovery: when exactly the addresses `live` answer, the probe aims at one of them
      after at most `5 * (n - 1)` failures plus five per failed resolution, and never leaves it. */
  lemma {:induction false} BoundedRecovery<A(!new)>(less: (A, A) -> bool, t: Target<A>, cycles: seq<Cycle<A>>,
                                                    answer: seq<A>, live: set<A>)
    requires StrictTotal(less) && FixedAnswers(cycles, answer)
    requires t.current in answer && 1 <= t.countdown <= RERESOLVE_AFTER_FAILURES
    requires live <= Elems(answer) && OnlyLiveAnswer(cycles, answer, live)
    ensures var h := Outage(less, t, cycles, live);
      && h <= 5 * (|CanonicalOrder(less, answer)| - 1) + 5 * FailedResolutions(less, t, cycles[..h])
      && (forall i | 0 <= i < h :: !Outcomes(less, t, cycles)[i])
      && (forall i | h <= i < |cycles| ::
            Outcomes(less, t, cycles)[i]
            && Run(less, t, cycles[..i]).current == Run(less, t, cycles[..h]).current
            && Run(less, t, cycles[..i]).current in live)
  {
    var h := Outage(less, t, cycles, live);
    forall i | 0 <= i < h ensures !Outcomes(less, t, cycles)[i] {
      OutageFails(less, t, cycles, answer, live, i);
    }
    forall i | h <= i < |cycles|
      ensures Outcomes(less, t, cycles)[i]
      ensures Run(less, t, cycles[..i]).current == Run(less, t, cycles[..h]).current
      ensures Run(less, t, cycles[..i]).current in live
    {
      RecoveryLasts(less, t, cycles, answer, live, i);
    }
    assert h <= 5 * (|CanonicalOrder(less, answer)| - 1) + 5 * FailedResolutions(less, t, cycles[..h]) by {
      OutcomesAt(less, t, cycles, h);
      var one :| one in live;
      assert forall c | c in cycles :: one in c.up * Elems(answer);
      OutageBound(less, t, cycles[..h], answer, one);
    }
  }

  lemma {:induction false} CurrentIsAnAnswer<A(!new)>(less: (A, A) -> bool, t: Target<A>, cycles: seq<Cycle<A>>, answer: seq<A>)
    requires StrictTotal(less) && FixedAnswers(cycles, answer) && t.current in answer
    ensures Run(less, t, cycles).current in answer
  {
    if cycles != [] {
      var front, c := cycles[..|cycles| - 1], cycles[|cycles| - 1];
      CurrentIsAnAnswer(less, t, front, answer);
      var before := Run(less, t, front);
      if Reresolves(before, c) && c.answer.Some? {
        ApplySpec(less, before.addrs, before.current, c.answer.value);
        var after := Run(less, t, cycles);
        EmptyElems(c.answer.value);
        EmptyElems(answer);
        assert after.current in Elems(after.addrs);
      }
    }
  }

  lemma {:induction false} OutageMoves<A(!new)>(less: (A, A) -> bool, t: Target<A>, cycles: seq<Cycle<A>>)
    requires t.countdown == RERESOLVE_AFTER_FAILURES
    requires AllFail(less, t, cycles) && forall c | c in cycles :: c.answer.Some?
    ensures FailedResolutions(less, t, cycles) == 0 && Moves(less, t, cycles) == Fifths(|cycles|)
  {
    NoFailedResolutions(less, t, cycles);
    FailingRun(less, t, cycles, |cycles|);
  }

  /** While every probe fails and every resolution succeeds, the probe moves on every five cycles. */
  lemma {:induction false} OutageGoesAround<A(!new)>(less: (A, A) -> bool, t: Target<A>, cycles: seq<Cycle<A>>,
                                                     answer: seq<A>, order: seq<A>, start: nat, k: nat)
    requires StrictTotal(less) && FixedAnswers(cycles, answer) && order == CanonicalOrder(less, answer)
    requires start < |order| && order[start] == t.current && t.countdown == RERESOLVE_AFTER_FAILURES
    requires AllFail(less, t, cycles) && forall c | c in cycles :: c.answer.Some?
    requires k == Fifths(|cycles|)
    ensures Run(less, t, cycles).current == Cyclic(order, start + k)
  {
    OutageMoves(less, t, cycles);
    MovesGoAround(less, t, cycles, answer, start);
  }

  lemma {:induction false} NoFailedResolutions<A(!new)>(less: (A, A) -> bool, t: Target<A>, cycles: seq<Cycle<A>>)
    requires forall c | c in cycles :: c.answer.Some?
    ensures FailedResolutions(less, t, cycles) == 0
  {
    if cycles != [] {
      NoFailedResolutions(less, t, cycles[..|cycles| - 1]);
    }
  }

  /** The script of the worst case: every resolution succeeds, and only `last`, the address
      furthest ahead in rotation, answers. */
  ghost predicate WorstCase<A(!new)>(less: (A, A) -> bool, t: Target<A>, cycles: seq<Cycle<A>>, order: seq<A>,
                                     start: nat, last: A)
  {
    && t.countdown == RERESOLVE_AFTER_FAILURES
    && start < |order| && order[start] == t.current && last == Cyclic(order, start + |order| - 1)
    && forall c | c in cycles :: c.answer.Some? && Elems(c.answer.value) == Elems(order) && c.up == {last}
  }

  /** The bound is exact for every number of addresses: with a full countdown, a resolver that
      never fails and only the last address in rotation answering, the outage lasts exactly
      `5 * (n - 1)` probes. */
  lemma {:induction false} OutageBoundIsTight<A(!new)>(less: (A, A) -> bool, t: Target<A>, cycles: seq<Cycle<A>>,
                                                       order: seq<A>, start: nat, last: A)
    requires StrictTotal(less) && StrictlySorted(less, order)
    requires WorstCase(less, t, cycles, order, start, last) && |cycles| <= 5 * (|order| - 1)
    ensures AllFail(less, t, cycles) && FailedResolutions(less, t, cycles) == 0
    ensures |cycles| == 5 * (|order| - 1) ==> Run(less, t, cycles).current == last
  {
    if cycles != [] {
      var front := cycles[..|cycles| - 1];
      OutageBoundIsTight(less, t, front, order, start, last);
      StillElsewhere(less, t, front, order, start, last);
      assert cycles[|front|] in cycles;
      AllFailSnoc(less, t, cycles);
    }
    OutageMoves(less, t, cycles);
    if |cycles| == 5 * (|order| - 1) {
      InUseInOutage(less, t, cycles, order, start, last, |order| - 1);
    }
  }

  lemma WorstCaseIsFixed<A(!new)>(less: (A, A) -> bool, t: Target<A>, cycles: seq<Cycle<A>>, order: seq<A>, start: nat, last: A)
    requires WorstCase(less, t, cycles, order, start, last)
    ensures FixedAnswers(cycles, order) && forall c | c in cycles :: c.answer.Some?
  {
  }

  lemma InUseInOutage<A(!new)>(less: (A, A) -> bool, t: Target<A>, cycles: seq<Cycle<A>>,
                                                  order: seq<A>, start: nat, last: A, k: nat)
    requires StrictTotal(less) && StrictlySorted(less, order) && WorstCase(less, t, cycles, order, start, last)
    requires AllFail(less, t, cycles) && k == Fifths(|cycles|)
    ensures Run(less, t, cycles).current == Cyclic(order, start + k)
  {
    SortedIsCanonical(less, order);
    WorstCaseIsFixed(less, t, cycles, order, start, last);
    OutageGoesAround(less, t, cycles, order, order, start, k);
  }

  lemma SortedIsCanonical<A(!new)>(less: (A, A) -> bool, order: seq<A>)
    requires StrictTotal(less) && StrictlySorted(less, order)
    ensures CanonicalOrder(less, order) == order
  {
    CanonicalSpec(less, order);
    SortedIsDeterminedBySet(less, CanonicalOrder(less, order), order);
  }

  lemma StillElsewhere<A(!new)>(less: (A, A) -> bool, t: Target<A>, cycles: seq<Cycle<A>>,
                                                   order: seq<A>, start: nat, last: A)
    requires StrictTotal(less) && StrictlySorted(less, order) && WorstCase(less, t, cycles, order, start, last)
    requires AllFail(less, t, cycles) && |cycles| < 5 * (|order| - 1)
    ensures Run(less, t, cycles).current != last
  {
    var k := Fifths(|cycles|);
    InUseInOutage(less, t, cycles, order, start, last, k);
    SortedIsDistinct(less, order);
    RingAdd(|order|, start, k);
    RingAdd(|order|, start, |order| - 1);
  }
}
