/** The probe loop: which address is probed, when the target is resolved again,
    what is exported and how the cadence is kept. */
module Rotation {
  import opened Wrappers
  import opened Canonical

  const RERESOLVE_AFTER_FAILURES: nat := 5

  /** What a re-resolution did. */
  datatype Rotation = Rotation(moved: bool, listChanged: bool)

  /** The loop's own variables: the canonical list, the address in use, the failures left. */
  datatype Target<A> = Target(addrs: seq<A>, current: A, countdown: nat)

  datatype SendResult = Sent | BrokenPipe | OtherError

  /** One exported point; a failed probe carries no reading. */
  datatype Point = Point(stamp: nat, rtt: Option<real>)

  /** Everything the outside world decides in one cycle: which addresses would complete
      a handshake and how fast, what the resolver would answer (`None` is a failed
      resolution), how the export ends, how long the work takes and how much longer
      than asked the sleep lasts. */
  datatype Cycle<A> = Cycle(up: set<A>, answer: Option<seq<A>>, rtt: real, sent: SendResult,
                            stamp: nat, elapsed: nat, oversleep: nat)

  datatype ProbeEnd = NoAddress | CollectdGone | Running

  function IndexOf<A(==)>(s: seq<A>, x: A): (i: nat)
    ensures i <= |s| && (i < |s| ==> s[i] == x) && x !in s[..i]
    ensures i == |s| <==> x !in s
  {
    if s == [] then 0
    else if s[0] == x then 0
    else
      var i := 1 + IndexOf(s[1..], x);
      assert s == [s[0]] + s[1..] && s[..i] == [s[0]] + s[1..][..i - 1];
      i
  }

  function Next<A(==)>(sorted: seq<A>, current: A, preferred: A): A
  {
    var pos := IndexOf(sorted, current);
    if pos == |sorted| then preferred
    else if pos + 1 < |sorted| then sorted[pos + 1]
    else sorted[0]
  }

  /** The outcome of a successful resolution, as a function of the old target. */
  function Apply<A(!new, ==)>(less: (A, A) -> bool, addrs: seq<A>, current: A, answer: seq<A>)
    : (seq<A>, A, Rotation)
  {
    if answer == [] then (addrs, current, Rotation(false, false))
    else
      var sorted := CanonicalOrder(less, answer);
      var next := Next(sorted, current, answer[0]);
      (sorted, next, Rotation(next != current, sorted != addrs))
  }

  lemma CyclicIndex(i: nat, n: nat)
    requires i < n
    ensures (i + 1) % n == if i + 1 < n then i + 1 else 0
  {
  }

  /** The next address is the cyclic successor of the current one, or the preferred one when the
      current one is not listed. */
  lemma NextSpec<A>(sorted: seq<A>, current: A, preferred: A)
    requires preferred in sorted
    ensures Next(sorted, current, preferred) in sorted
    ensures Next(sorted, current, preferred) ==
      if current in sorted then sorted[(IndexOf(sorted, current) + 1) % |sorted|] else preferred
  {
    var pos := IndexOf(sorted, current);
    if pos < |sorted| { CyclicIndex(pos, |sorted|); }
  }

  /** What a re-resolution means: an empty answer changes nothing; otherwise the list becomes
      the sorted set of answers, the address moves to its cyclic successor there, or to the
      resolver's first choice when it has vanished. A list is reported as changed exactly
      when the set of addresses differs. */
  lemma ApplySpec<A(!new)>(less: (A, A) -> bool, addrs: seq<A>, current: A, answer: seq<A>)
    requires StrictTotal(less)
    ensures var (addrs', current', rotation) := Apply(less, addrs, current, answer);
      && (answer == [] ==> addrs' == addrs && current' == current && rotation == Rotation(false, false))
      && (answer != [] ==> StrictlySorted(less, addrs') && Elems(addrs') == Elems(answer) && current' in addrs')
      && (current in answer ==> current in addrs')
      && (current in answer ==> current' == addrs'[(IndexOf(addrs', current) + 1) % |addrs'|])
      && (answer != [] && current !in answer ==> current' == answer[0])
      && (rotation.moved <==> current' != current)
      && (answer != [] && StrictlySorted(less, addrs) ==>
            (rotation.listChanged <==> Elems(addrs) != Elems(answer)))
  {
    if answer != [] {
      CanonicalSpec(less, answer);
      var sorted := CanonicalOrder(less, answer);
      assert current in answer <==> current in Elems(answer);
      assert current in sorted <==> current in Elems(sorted);
      assert answer[0] in Elems(answer) && answer[0] in sorted;
      NextSpec(sorted, current, answer[0]);
      if StrictlySorted(less, addrs) && Elems(addrs) == Elems(answer) {
        SortedIsDeterminedBySet(less, addrs, sorted);
      }
    }
  }

  /** Splits an answer into the canonical order and the resolver's own first choice. */
  method Adopt<A(!new, ==)>(less: (A, A) -> bool, answer: seq<A>) returns (r: Option<(seq<A>, A)>)
    ensures r.None? <==> answer == []
    ensures r.Some? ==> r.value == (CanonicalOrder(less, answer), answer[0])
  {
    if answer == [] {
      return None;
    }
    var preferred := answer[0];
    var sorted := answer;
    sorted := Sort(less, sorted);
    sorted := Dedup(sorted);
    return Some((sorted, preferred));
  }

  method ApplyResolution<A(!new, ==)>(less: (A, A) -> bool, addrs: seq<A>, current: A, answer: seq<A>)
    returns (addrs': seq<A>, current': A, rotation: Rotation)
    ensures (addrs', current', rotation) == Apply(less, addrs, current, answer)
  {
    addrs', current' := addrs, current;
    var adopted := Adopt(less, answer);
    if adopted.None? {
      return addrs', current', Rotation(false, false);
    }
    var (sorted, preferred) := adopted.value;
    var listChanged := sorted != addrs';
    addrs' := sorted;
    var next := Next(addrs', current', preferred);
    var moved := next != current';
    current' := next;
    rotation := Rotation(moved, listChanged);
  }

  /** A failed resolution is only logged. */
  method RotateTarget<A(!new, ==)>(less: (A, A) -> bool, addrs: seq<A>, current: A, answer: Option<seq<A>>)
    returns (addrs': seq<A>, current': A)
    ensures (addrs', current') == Rotate(less, addrs, current, answer)
  {
    addrs', current' := addrs, current;
    if answer.Some? {
      var rotation;
      addrs', current', rotation := ApplyResolution(less, addrs, current, answer.value);
    }
  }

  function Rotate<A(!new, ==)>(less: (A, A) -> bool, addrs: seq<A>, current: A, answer: Option<seq<A>>): (seq<A>, A)
  {
    if answer.None? then (addrs, current)
    else var (addrs', current', _) := Apply(less, addrs, current, answer.value); (addrs', current')
  }

  /** The target before the first cycle. */
  function Start<A(!new, ==)>(less: (A, A) -> bool, answer: seq<A>): Target<A>
    requires answer != []
  {
    Target(CanonicalOrder(less, answer), answer[0], RERESOLVE_AFTER_FAILURES)
  }

  predicate Fails<A(==)>(t: Target<A>, c: Cycle<A>) {
    t.current !in c.up
  }

  /** The cycle in which the failure that completes a run of five triggers a resolution. */
  predicate Reresolves<A(==)>(t: Target<A>, c: Cycle<A>) {
    Fails(t, c) && t.countdown <= 1
  }

  function Step<A(!new, ==)>(less: (A, A) -> bool, t: Target<A>, c: Cycle<A>): Target<A>
  {
    if !Fails(t, c) then t.(countdown := RERESOLVE_AFTER_FAILURES)
    else if Reresolves(t, c) then
      var (addrs, current) := Rotate(less, t.addrs, t.current, c.answer);
      Target(addrs, current, RERESOLVE_AFTER_FAILURES)
    else t.(countdown := t.countdown - 1)
  }

  /** The target after a script of cycles. */
  function Run<A(!new, ==)>(less: (A, A) -> bool, t: Target<A>, cycles: seq<Cycle<A>>): Target<A>
  {
    if cycles == [] then t
    else Step(less, Run(less, t, cycles[..|cycles| - 1]), cycles[|cycles| - 1])
  }

  lemma RunStep<A(!new)>(less: (A, A) -> bool, t: Target<A>, cycles: seq<Cycle<A>>, i: nat)
    requires i < |cycles|
    ensures Run(less, t, cycles[..i + 1]) == Step(less, Run(less, t, cycles[..i]), cycles[i])
  {
    assert cycles[..i + 1][..i] == cycles[..i];
  }

  /** The last non-empty answer the loop has taken over. */
  function LastAdopted<A(!new, ==)>(less: (A, A) -> bool, first: seq<A>, cycles: seq<Cycle<A>>): seq<A>
    requires first != []
  {
    if cycles == [] then first
    else
      var front, c := cycles[..|cycles| - 1], cycles[|cycles| - 1];
      if Reresolves(Run(less, Start(less, first), front), c) && c.answer.Some? && c.answer.value != []
      then c.answer.value
      else LastAdopted(less, first, front)
  }

  /** On every run, whatever the resolver answers, the list is non-empty, strictly sorted and
      the set of the last answer taken over, and it holds the address in use. */
  lemma {:induction false} TargetInvariant<A(!new)>(less: (A, A) -> bool, first: seq<A>, cycles: seq<Cycle<A>>)
    requires StrictTotal(less) && first != []
    ensures var t := Run(less, Start(less, first), cycles);
      && t.addrs != [] && StrictlySorted(less, t.addrs)
      && Elems(t.addrs) == Elems(LastAdopted(less, first, cycles))
      && t.current in t.addrs
      && 1 <= t.countdown <= RERESOLVE_AFTER_FAILURES
  {
    if cycles == [] {
      CanonicalSpec(less, first);
      assert first[0] in Elems(first);
    } else {
      var front, c := cycles[..|cycles| - 1], cycles[|cycles| - 1];
      TargetInvariant(less, first, front);
      var t := Run(less, Start(less, first), front);
      if Reresolves(t, c) && c.answer.Some? {
        ApplySpec(less, t.addrs, t.current, c.answer.value);
      }
    }
  }

  /** On every run, a re-resolution reports a changed list exactly when the set of addresses
      differs from the last answer taken over: reordering and repeats never count. */
  lemma ChangeReportsAreExact<A(!new)>(less: (A, A) -> bool, first: seq<A>, cycles: seq<Cycle<A>>, answer: seq<A>)
    requires StrictTotal(less) && first != [] && answer != []
    ensures var t := Run(less, Start(less, first), cycles);
      Apply(less, t.addrs, t.current, answer).2.listChanged
      <==> Elems(answer) != Elems(LastAdopted(less, first, cycles))
  {
    TargetInvariant(less, first, cycles);
    var t := Run(less, Start(less, first), cycles);
    ApplySpec(less, t.addrs, t.current, answer);
  }

  predicate Gone(exec: bool, sent: SendResult) {
    exec && sent.BrokenPipe?
  }

  ghost predicate NoneGone<A>(exec: bool, cycles: seq<Cycle<A>>) {
    forall c | c in cycles :: !Gone(exec, c.sent)
  }

  lemma NoneGoneStep<A>(exec: bool, cycles: seq<Cycle<A>>, i: nat)
    requires i < |cycles| && NoneGone(exec, cycles[..i])
    ensures !Gone(exec, cycles[i].sent) ==> NoneGone(exec, cycles[..i + 1])
  {
  }

  function PointOf<A(==)>(t: Target<A>, c: Cycle<A>): Point {
    Point(c.stamp, if Fails(t, c) then None else Some(c.rtt))
  }

  /** The address the script prescribes for cycle `i`, and the point about it. */
  ghost predicate TracedAt<A(!new)>(less: (A, A) -> bool, t: Target<A>, cycles: seq<Cycle<A>>, i: nat, addr: A, point: Point)
    requires i < |cycles|
  {
    var before := Run(less, t, cycles[..i]);
    addr == before.current && point == PointOf(before, cycles[i])
  }

  /** The loop stands where the script prescribes, and each cycle so far probed the address then in
      use and exported one point about it. */
  ghost predicate Traced<A(!new)>(less: (A, A) -> bool, t: Target<A>, cycles: seq<Cycle<A>>,
                                  now: Target<A>, probed: seq<A>, points: seq<Point>)
  {
    && |probed| == |points| <= |cycles|
    && now == Run(less, t, cycles[..|probed|])
    && forall i | 0 <= i < |probed| :: TracedAt(less, t, cycles, i, probed[i], points[i])
  }

  lemma TracedStep<A(!new)>(less: (A, A) -> bool, t: Target<A>, cycles: seq<Cycle<A>>,
                            now: Target<A>, probed: seq<A>, points: seq<Point>)
    requires Traced(less, t, cycles, now, probed, points) && |probed| < |cycles|
    ensures var c := cycles[|probed|];
      Traced(less, t, cycles, Step(less, now, c), probed + [now.current], points + [PointOf(now, c)])
  {
    RunStep(less, t, cycles, |probed|);
  }

  /** The overrun warning comes once, at the first of these cycles that outran the interval. */
  ghost predicate WarnedOnce<A>(interval: nat, cycles: seq<Cycle<A>>, warnings: seq<nat>) {
    if warnings == [] then forall c | c in cycles :: c.elapsed <= interval
    else
      && |warnings| == 1 && warnings[0] < |cycles|
      && cycles[warnings[0]].elapsed > interval
      && forall c | c in cycles[..warnings[0]] :: c.elapsed <= interval
  }

  lemma WarnedOnceStep<A>(interval: nat, cycles: seq<Cycle<A>>, i: nat, warnings: seq<nat>)
    requires i < |cycles| && WarnedOnce(interval, cycles[..i], warnings)
    ensures warnings == [] && cycles[i].elapsed > interval ==> WarnedOnce(interval, cycles[..i + 1], [i])
    ensures warnings != [] || cycles[i].elapsed <= interval ==> WarnedOnce(interval, cycles[..i + 1], warnings)
  {
  }

  /** One probe of the address in use: a success resets the countdown, the failure that
      exhausts it resolves again. */
  method ProbeOnce<A(!new, ==)>(less: (A, A) -> bool, addrs: seq<A>, current: A, countdown: nat, c: Cycle<A>)
    returns (addrs': seq<A>, current': A, countdown': nat, point: Point)
    ensures Target(addrs', current', countdown') == Step(less, Target(addrs, current, countdown), c)
    ensures point == PointOf(Target(addrs, current, countdown), c)
    ensures point.stamp == c.stamp && point.rtt == if current in c.up then Some(c.rtt) else None
  {
    addrs', current', countdown' := addrs, current, countdown;
    var addr := current;
    if addr in c.up {
      countdown' := RERESOLVE_AFTER_FAILURES;
      point := Point(c.stamp, Some(c.rtt));
    } else {
      countdown' := if countdown' == 0 then 0 else countdown' - 1;
      if countdown' == 0 {
        countdown' := RERESOLVE_AFTER_FAILURES;
        addrs', current' := RotateTarget(less, addrs, current, c.answer);
      }
      point := Point(c.stamp, None);
    }
  }

  /** The time after these cycles: each lasts its work, or the interval and whatever the sleep
      overshoots. */
  function Clock<A>(start: nat, interval: nat, cycles: seq<Cycle<A>>): nat {
    if cycles == [] then start
    else
      var c := cycles[|cycles| - 1];
      Clock(start, interval, cycles[..|cycles| - 1])
      + if c.elapsed <= interval then interval + c.oversleep else c.elapsed
  }

  lemma OneMoreInterval(n: nat, interval: nat)
    ensures (n + 1) * interval == n * interval + interval
  {
  }

  /** Cadence: that many cycles take at least that many intervals, and exactly that many if and
      only if no cycle outran the interval and no sleep overshot. */
  lemma {:induction false} Cadence<A>(start: nat, interval: nat, cycles: seq<Cycle<A>>)
    ensures Clock(start, interval, cycles) >= start + |cycles| * interval
    ensures Clock(start, interval, cycles) == start + |cycles| * interval
      <==> forall c | c in cycles :: c.elapsed <= interval && (c.oversleep == 0)
  {
    if cycles != [] {
      var front, c := cycles[..|cycles| - 1], cycles[|cycles| - 1];
      Cadence(start, interval, front);
      assert cycles == front + [c];
      OneMoreInterval(|front|, interval);
    }
  }

  /** A cycle lasts as long as its work and as the interval, whichever is longer; only a sleep can
      overshoot. */
  lemma CycleLasts<A>(start: nat, interval: nat, cycles: seq<Cycle<A>>, i: nat)
    requires i < |cycles|
    ensures var c, lasts := cycles[i], Clock(start, interval, cycles[..i + 1]) - Clock(start, interval, cycles[..i]);
      && c.elapsed <= lasts && interval <= lasts
      && (c.elapsed > interval ==> lasts == c.elapsed)
      && (c.elapsed <= interval ==> lasts - c.oversleep == interval)
  {
    assert cycles[..i + 1][..i] == cycles[..i];
  }

  /** What completed cycles leave behind: none lost its Exec pipe, the clock shows the time they
      took, and the first overrun among them has been reported. */
  ghost predicate Completed<A>(start: nat, interval: nat, exec: bool, done: seq<Cycle<A>>,
                               warnings: seq<nat>, now: int)
  {
    && NoneGone(exec, done)
    && now == Clock(start, interval, done)
    && WarnedOnce(interval, done, warnings)
  }

  /** Sleeps out the rest of the interval, or warns once that the cycle outran it. `now` is the
      time after the work of cycle `i`. */
  method EndOfCycle<A>(ghost start: nat, interval: nat, ghost exec: bool, cycles: seq<Cycle<A>>, i: nat,
                       overran: bool, warnings: seq<nat>, now: nat)
    returns (overran': bool, warnings': seq<nat>, now': nat)
    requires i < |cycles| && !Gone(exec, cycles[i].sent) && (overran <==> warnings != [])
    requires Completed(start, interval, exec, cycles[..i], warnings, now - cycles[i].elapsed)
    ensures overran' <==> warnings' != []
    ensures Completed(start, interval, exec, cycles[..i + 1], warnings', now')
  {
    overran', warnings', now' := overran, warnings, now;
    WarnedOnceStep(interval, cycles, i, warnings);
    NoneGoneStep(exec, cycles, i);
    assert cycles[..i + 1][..i] == cycles[..i];
    if cycles[i].elapsed <= interval {
      now' := now' + (interval - cycles[i].elapsed) + cycles[i].oversleep;
    } else if !overran' {
      overran' := true;
      warnings' := warnings' + [i];
    }
  }

  /** Each point carries its cycle's time stamp, and a reading exactly when the probed address
      answered. */
  ghost predicate Exported<A>(cycles: seq<Cycle<A>>, probed: seq<A>, points: seq<Point>) {
    && |probed| == |points| <= |cycles|
    && forall i | 0 <= i < |points| ::
         && points[i].stamp == cycles[i].stamp
         && points[i].rtt == if probed[i] in cycles[i].up then Some(cycles[i].rtt) else None
  }

  lemma TracedIsExported<A(!new)>(less: (A, A) -> bool, t: Target<A>, cycles: seq<Cycle<A>>,
                                  now: Target<A>, probed: seq<A>, points: seq<Point>)
    requires Traced(less, t, cycles, now, probed, points)
    ensures Exported(cycles, probed, points)
  {
    forall i | 0 <= i < |points|
      ensures points[i].stamp == cycles[i].stamp
      ensures points[i].rtt == if probed[i] in cycles[i].up then Some(cycles[i].rtt) else None
    {
      assert TracedAt(less, t, cycles, i, probed[i], points[i]);
    }
  }

  ghost predicate PipeHolds<A>(cycles: seq<Cycle<A>>, n: nat)
    requires n <= |cycles|
  {
    forall i | 0 <= i < n :: !cycles[i].sent.BrokenPipe?
  }

  /** Only the first broken pipe ends the loop, and only under Exec. */
  ghost predicate EndsAtBrokenPipe<A>(exec: bool, cycles: seq<Cycle<A>>, end: ProbeEnd, completed: nat) {
    if !exec || PipeHolds(cycles, |cycles|) then end.Running? && completed == |cycles|
    else
      && end.CollectdGone? && completed < |cycles|
      && cycles[completed].sent.BrokenPipe? && PipeHolds(cycles, completed)
  }

  lemma EndIsFirstBrokenPipe<A>(exec: bool, cycles: seq<Cycle<A>>, completed: nat)
    requires completed <= |cycles| && NoneGone(exec, cycles[..completed])
    ensures completed == |cycles| ==> EndsAtBrokenPipe(exec, cycles, Running, completed)
    ensures completed < |cycles| && exec && cycles[completed].sent.BrokenPipe? ==>
      EndsAtBrokenPipe(exec, cycles, CollectdGone, completed)
  {
    assert forall i | 0 <= i < completed :: cycles[i] in cycles[..completed];
  }

  /** The probe loop over any finite script of cycles. Every cycle probes the address in use and
      exports one point, and the loop ends early only when the Exec pipe breaks, without waiting
      for the cycle to end. */
  method RunProbe<A(!new, ==)>(less: (A, A) -> bool, resolved: Option<seq<A>>, interval: nat, exec: bool,
                               start: nat, cycles: seq<Cycle<A>>)
    returns (end: ProbeEnd, last: Option<Target<A>>, probed: seq<A>, points: seq<Point>,
             completed: nat, warnings: seq<nat>, now: nat)
    ensures end.NoAddress? <==> resolved.None? || resolved.value == []
    ensures end.NoAddress? ==> last.None? && probed == [] && points == []
    ensures !end.NoAddress? ==>
      && last.Some? && Traced(less, Start(less, resolved.value), cycles, last.value, probed, points)
      && Exported(cycles, probed, points) && EndsAtBrokenPipe(exec, cycles, end, completed)
      && |probed| == completed + if end.CollectdGone? then 1 else 0
    ensures completed <= |cycles|
    ensures Completed(start, interval, exec, cycles[..completed], warnings,
                      if end.CollectdGone? then now - cycles[completed].elapsed else now)
  {
    last, probed, points, completed, warnings, now := None, [], [], 0, [], start;
    if resolved.None? {
      return NoAddress, last, probed, points, completed, warnings, now;
    }
    var adopted := Adopt(less, resolved.value);
    if adopted.None? {
      return NoAddress, last, probed, points, completed, warnings, now;
    }
    var (addrs, current) := adopted.value;
    var overran := false;
    var failuresUntilReresolve := RERESOLVE_AFTER_FAILURES;
    ghost var t := Start(less, resolved.value);
    assert cycles[..0] == [];

    while completed < |cycles|
      invariant completed == |probed| <= |cycles|
      invariant Traced(less, t, cycles, Target(addrs, current, failuresUntilReresolve), probed, points)
      invariant Completed(start, interval, exec, cycles[..completed], warnings, now)
      invariant overran <==> warnings != []
    {
      var c := cycles[completed];
      TracedStep(less, t, cycles, Target(addrs, current, failuresUntilReresolve), probed, points);
      probed := probed + [current];
      var point;
      addrs, current, failuresUntilReresolve, point :=
        ProbeOnce(less, addrs, current, failuresUntilReresolve, c);
      points := points + [point];
      now := now + c.elapsed;
      if c.sent.BrokenPipe? && exec {
        last := Some(Target(addrs, current, failuresUntilReresolve));
        TracedIsExported(less, t, cycles, last.value, probed, points);
        EndIsFirstBrokenPipe(exec, cycles, completed);
        return CollectdGone, last, probed, points, completed, warnings, now;
      }
      overran, warnings, now := EndOfCycle(start, interval, exec, cycles, completed, overran, warnings, now);
      completed := completed + 1;
    }
    assert cycles[..completed] == cycles;
    last := Some(Target(addrs, current, failuresUntilReresolve));
    TracedIsExported(less, t, cycles, last.value, probed, points);
    EndIsFirstBrokenPipe(exec, cycles, completed);
    return Running, last, probed, points, completed, warnings, now;
  }
}
