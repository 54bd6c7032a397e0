/** Whether the plugin's select-then-record machine and the probe loop choose the same addresses:
    each sorts by a key of its own. */
module Agreement {
  import opened Wrappers
  import opened Canonical
  import opened Rings
  import opened Rotation
  import opened Recovery
  import opened PluginRotation

  /** Both sides see one set of at least two addresses, the plugin without repeats, and the same
      addresses are reachable in the same cycle; every resolution succeeds. The orders of the
      answers are arbitrary but for the very first choice. */
  ghost predicate SameWorld<A(!new)>(answer: seq<A>, cycles: seq<Cycle<A>>, polls: seq<Read<A>>) {
    && Distinct(answer) && |answer| >= 2
    && |cycles| == |polls|
    && (forall c | c in cycles :: c.answer.Some?)
    && FixedAnswers(cycles, answer)
    && (forall r | r in polls :: Distinct(r.answer) && Elems(r.answer) == Elems(answer))
    && (forall i | 0 <= i < |polls| :: polls[i].up == cycles[i].up)
    && (polls != [] ==> polls[0].answer != [] && polls[0].answer[0] == answer[0])
  }

  // ----- the plugin follows the probe's policy under its own key

  lemma SameWorldShrinks<A(!new)>(answer: seq<A>, cycles: seq<Cycle<A>>, polls: seq<Read<A>>)
    requires SameWorld(answer, cycles, polls) && polls != []
    ensures SameWorld(answer, cycles[..|cycles| - 1], polls[..|polls| - 1])
  {
  }

  /** An answer without repeats has one canonical order with all its addresses. */
  lemma OneOrder<A(!new)>(less: (A, A) -> bool, answer: seq<A>, other: seq<A>)
    requires StrictTotal(less) && Distinct(answer) && Distinct(other) && Elems(answer) == Elems(other)
    ensures Sort(less, other) == CanonicalOrder(less, answer)
    ensures |CanonicalOrder(less, answer)| == |answer| == |other|
  {
    DistinctSortIsCanonical(less, answer);
    DistinctSortIsCanonical(less, other);
    SameSetSameOrder(less, answer, other);
    SortSpec(less, answer);
    SortSpec(less, other);
    SameMultisetSameElems(Sort(less, answer), answer);
    SameMultisetSameElems(Sort(less, other), other);
  }

  /** The plugin's entry mirrors the loop's target. */
  ghost predicate Mirrors<A(!new)>(e: Entry<A>, t: Target<A>) {
    t.countdown <= RERESOLVE_AFTER_FAILURES
    && e == Entry(Some(t.current), RERESOLVE_AFTER_FAILURES - t.countdown)
  }

  lemma AfterIsSuccessor<A(!new)>(order: seq<A>, a: A)
    requires a in order
    ensures After(order, Some(a)) == SuccessorIn(order, a)
  {
    CyclicIndex(IndexOf(order, a), |order|);
  }

  lemma StepsMirror<A(!new)>(less: (A, A) -> bool, e: Entry<A>, t: Target<A>, c: Cycle<A>, r: Read<A>, answer: seq<A>)
    requires StrictTotal(less) && SameAnswers(answer, c, r)
    requires Mirrors(e, t) && t.current in answer && 1 <= t.countdown <= RERESOLVE_AFTER_FAILURES
    ensures Mirrors(ReadStep(less, e, r), Step(less, t, c))
  {
    OneOrder(less, answer, r.answer);
    var order := CanonicalOrder(less, answer);
    ListsOf(less, answer, order);
    assert t.current in Elems(answer) && t.current in Elems(r.answer) && t.current in Elems(order);
    AfterIsSuccessor(order, t.current);
    StepSucceeds(less, t, c, answer);
    EntryStep(less, e, r, order);
  }

  /** What a read does to an entry that selects a listed address. */
  lemma EntryStep<A(!new)>(less: (A, A) -> bool, e: Entry<A>, r: Read<A>, order: seq<A>)
    requires order == Sort(less, r.answer) && |r.answer| >= 2 && order != []
    requires e.selected.Some? && e.selected.value in r.answer
    ensures ReadStep(less, e, r) ==
      if e.selected.value in r.up then e.(failures := 0)
      else if e.failures + 1 < ROTATE_AFTER_FAILURES then e.(failures := e.failures + 1)
      else Entry(Some(After(order, e.selected)), 0)
  {
  }

  ghost predicate SameAnswers<A(!new)>(answer: seq<A>, c: Cycle<A>, r: Read<A>) {
    && Distinct(answer) && |answer| >= 2
    && c.answer.Some? && Elems(c.answer.value) == Elems(answer)
    && Distinct(r.answer) && Elems(r.answer) == Elems(answer)
    && r.up == c.up
  }

  lemma {:induction false} RunsMirror<A(!new)>(less: (A, A) -> bool, answer: seq<A>, cycles: seq<Cycle<A>>, polls: seq<Read<A>>)
    requires StrictTotal(less) && SameWorld(answer, cycles, polls)
    ensures var e, t := ReadRun(less, polls), Run(less, Start(less, answer), cycles);
      && (polls != [] ==> Mirrors(e, t))
      && (polls == [] ==> e == Entry(None, RERESOLVE_AFTER_FAILURES - t.countdown) && t.current == answer[0])
  {
    if polls != [] {
      var cs, rs := cycles[..|cycles| - 1], polls[..|polls| - 1];
      var c, r := cycles[|cycles| - 1], polls[|polls| - 1];
      SameWorldShrinks(answer, cycles, polls);
      RunsMirror(less, answer, cs, rs);
      var e, t := ReadRun(less, rs), Run(less, Start(less, answer), cs);
      CurrentIsAnAnswer(less, Start(less, answer), cs, answer);
      CountdownFallsByOne(less, Start(less, answer), cs);
      assert c in cycles && r in polls;
      assert t.current in Elems(answer) && t.current in Elems(r.answer);
      StepsMirror(less, Prefer(e, r.answer), t, c, r, answer);
    }
  }

  /** Both probe one address in cycle `i`, and the plugin's failure count is five minus the loop's
      countdown. `probe` and `plugin` are the keys the two sides sort by. */
  ghost predicate SameChoice<A(!new)>(probe: (A, A) -> bool, plugin: (A, A) -> bool, answer: seq<A>,
                                      cycles: seq<Cycle<A>>, polls: seq<Read<A>>, i: nat)
    requires answer != [] && i < |polls| == |cycles|
  {
    var t := Run(probe, Start(probe, answer), cycles[..i]);
    && Prefer(ReadRun(plugin, polls[..i]), polls[i].answer).selected == Some(t.current)
    && ReadRun(plugin, polls[..i]).failures == RERESOLVE_AFTER_FAILURES - t.countdown
  }

  /** The plugin chooses, in every cycle of every trace of successes and failures, what the probe
      loop would choose if it sorted by the plugin's key. */
  lemma PluginFollowsPolicy<A(!new)>(less: (A, A) -> bool, answer: seq<A>, cycles: seq<Cycle<A>>,
                                                        polls: seq<Read<A>>, i: nat)
    requires StrictTotal(less) && SameWorld(answer, cycles, polls) && i < |polls|
    ensures SameChoice(less, less, answer, cycles, polls, i)
  {
    RunsMirror(less, answer, cycles[..i], polls[..i]);
    assert cycles[i] in cycles && polls[i] in polls;
    CurrentIsAnAnswer(less, Start(less, answer), cycles[..i], answer);
    var t := Run(less, Start(less, answer), cycles[..i]);
    assert t.current in Elems(answer) && t.current in Elems(polls[i].answer);
  }

  // ----- two keys

  /** The lists the two sides rotate through give every address the same successor. */
  ghost predicate SameSuccessors<A(!new)>(probe: (A, A) -> bool, plugin: (A, A) -> bool, answer: seq<A>)
    requires answer != []
  {
    forall a | a in answer ::
      SuccessorIn(CanonicalOrder(probe, answer), a) == SuccessorIn(CanonicalOrder(plugin, answer), a)
  }

  /** The successor of an address in a list, going around. */
  function SuccessorIn<A(==)>(order: seq<A>, a: A): A {
    Next(order, a, a)
  }

  lemma SuccessorAt<A(!new)>(order: seq<A>, x: nat, y: nat)
    requires Distinct(order) && order != [] && y == x + 1
    ensures SuccessorIn(order, Cyclic(order, x)) == Cyclic(order, y)
  {
    var i := Ring(|order|, x);
    NextOnOrder(order, i, order[i]);
    RingStep(|order|, x);
  }

  lemma StepSucceeds<A(!new)>(less: (A, A) -> bool, t: Target<A>, c: Cycle<A>, answer: seq<A>)
    requires StrictTotal(less) && FixedAnswers([c], answer) && t.current in answer
    ensures Step(less, t, c).current ==
      if Reresolves(t, c) && c.answer.Some? then SuccessorIn(CanonicalOrder(less, answer), t.current) else t.current
  {
    var order := CanonicalOrder(less, answer);
    CanonicalSpec(less, answer);
    assert t.current in Elems(answer) && t.current in Elems(order);
    var i := IndexOf(order, t.current);
    SortedIsDistinct(less, order);
    StepOnOrder(less, t, c, answer, i);
    NextOnOrder(order, i, t.current);
  }

  lemma {:induction false} PoliciesAgree<A(!new)>(probe: (A, A) -> bool, plugin: (A, A) -> bool, answer: seq<A>,
                                                  cycles: seq<Cycle<A>>)
    requires StrictTotal(probe) && StrictTotal(plugin) && answer != []
    requires FixedAnswers(cycles, answer) && SameSuccessors(probe, plugin, answer)
    ensures var t, u := Run(probe, Start(probe, answer), cycles), Run(plugin, Start(plugin, answer), cycles);
      t.current == u.current && t.countdown == u.countdown
  {
    if cycles != [] {
      var front, c := cycles[..|cycles| - 1], cycles[|cycles| - 1];
      PoliciesAgree(probe, plugin, answer, front);
      CurrentIsAnAnswer(probe, Start(probe, answer), front, answer);
      assert FixedAnswers([c], answer);
      StepSucceeds(probe, Run(probe, Start(probe, answer), front), c, answer);
      StepSucceeds(plugin, Run(plugin, Start(plugin, answer), front), c, answer);
    }
  }

  /** A blackout: nothing answers, and every resolution gives the same answer. */
  function Blackout<A>(answer: seq<A>, n: nat): (cycles: seq<Cycle<A>>)
    ensures |cycles| == n && forall c | c in cycles :: c.up == {} && c.answer == Some(answer)
  {
    if n == 0 then [] else Blackout(answer, n - 1) + [Cycle({}, Some(answer), 0.0, Sent, 0, 0, 0)]
  }

  function BlackoutReads<A>(answer: seq<A>, n: nat): (polls: seq<Read<A>>)
    ensures |polls| == n && forall r | r in polls :: r == Read(answer, {})
  {
    if n == 0 then [] else BlackoutReads(answer, n - 1) + [Read(answer, {})]
  }

  lemma BlackoutWorld<A(!new)>(answer: seq<A>, n: nat)
    requires Distinct(answer) && |answer| >= 2
    ensures SameWorld(answer, Blackout(answer, n), BlackoutReads(answer, n))
  {
    var cycles, polls := Blackout(answer, n), BlackoutReads(answer, n);
    forall i | 0 <= i < n ensures polls[i] == Read(answer, {}) && cycles[i].up == {} {
      assert polls[i] in polls && cycles[i] in cycles;
    }
  }

  /** The `k`-th successor of an address. */
  function Ahead<A(==)>(order: seq<A>, a: A, k: nat): A {
    if k == 0 then a else SuccessorIn(order, Ahead(order, a, k - 1))
  }

  lemma {:induction false} AheadGoesAround<A(!new)>(order: seq<A>, x: nat, k: nat, y: nat)
    requires Distinct(order) && order != [] && y == x + k
    ensures Ahead(order, Cyclic(order, x), k) == Cyclic(order, y)
  {
    if k > 0 {
      AheadGoesAround(order, x, k - 1, y - 1);
      SuccessorAt(order, y - 1, y);
    }
  }

  lemma EveryAddressIsAhead<A(!new)>(order: seq<A>, a: A, goal: A) returns (k: nat)
    requires Distinct(order) && a in order && goal in order
    ensures Ahead(order, a, k) == goal
  {
    k := RingOffset(|order|, IndexOf(order, a), IndexOf(order, goal));
    AheadGoesAround(order, IndexOf(order, a), k, IndexOf(order, a) + k);
  }

  lemma BlackoutStep<A(!new)>(less: (A, A) -> bool, answer: seq<A>, order: seq<A>, t: Target<A>, c: Cycle<A>, n: nat)
    requires StrictTotal(less) && answer != [] && order == CanonicalOrder(less, answer)
    requires c.up == {} && c.answer == Some(answer) && t.current in answer
    requires t.countdown == Left(n) && t.current == Ahead(order, answer[0], Fifths(n))
    ensures Step(less, t, c).countdown == Left(n + 1)
    ensures Step(less, t, c).current == Ahead(order, answer[0], Fifths(n + 1))
  {
    StepSucceeds(less, t, c, answer);
    CountdownStep(less, t, c, n);
    FifthStep(n);
    OneAhead(order, answer[0], Fifths(n));
  }

  lemma OneAhead<A>(order: seq<A>, a: A, k: nat)
    ensures Ahead(order, a, k + 1) == SuccessorIn(order, Ahead(order, a, k))
  {
  }

  /** After `n` cycles of a blackout the loop has moved on once per five failures. */
  lemma {:induction false} BlackoutReaches<A(!new)>(less: (A, A) -> bool, answer: seq<A>, cycles: seq<Cycle<A>>)
    requires StrictTotal(less) && answer != []
    requires forall c | c in cycles :: c.up == {} && c.answer == Some(answer)
    ensures var t, n := Run(less, Start(less, answer), cycles), |cycles|;
      && t.countdown == Left(n)
      && t.current == Ahead(CanonicalOrder(less, answer), answer[0], Fifths(n))
  {
    if cycles != [] {
      var front, c := cycles[..|cycles| - 1], cycles[|cycles| - 1];
      BlackoutReaches(less, answer, front);
      CurrentIsAnAnswer(less, Start(less, answer), front, answer);
      assert c in cycles;
      BlackoutStep(less, answer, CanonicalOrder(less, answer), Run(less, Start(less, answer), front), c, |front|);
    }
  }

  lemma FifthsOfMultiple(k: nat)
    ensures Fifths(5 * k) == k
  {
  }

  /** The two sides make the same choices in every cycle of every trace. */
  ghost predicate AgreeAlways<A(!new)>(probe: (A, A) -> bool, plugin: (A, A) -> bool, answer: seq<A>)
    requires answer != []
  {
    forall cycles, polls, i: nat | SameWorld(answer, cycles, polls) && i < |polls| ::
      SameChoice(probe, plugin, answer, cycles, polls, i)
  }

  lemma {:induction false} AgreeInBlackout<A(!new)>(probe: (A, A) -> bool, plugin: (A, A) -> bool, answer: seq<A>, k: nat)
    requires StrictTotal(probe) && StrictTotal(plugin) && Distinct(answer) && |answer| >= 2
    requires AgreeAlways(probe, plugin, answer)
    ensures Ahead(CanonicalOrder(probe, answer), answer[0], k) == Ahead(CanonicalOrder(plugin, answer), answer[0], k)
  {
    var n := 5 * k;
    var cycles, polls := Blackout(answer, n + 1), BlackoutReads(answer, n + 1);
    BlackoutWorld(answer, n + 1);
    assert SameChoice(probe, plugin, answer, cycles, polls, n);
    PluginFollowsPolicy(plugin, answer, cycles, polls, n);
    FifthsOfMultiple(k);
    BlackoutReaches(probe, answer, cycles[..n]);
    BlackoutReaches(plugin, answer, cycles[..n]);
  }

  /** The two sides agree in every trace if and only if the lists they rotate through give every
      address the same successor. */
  lemma SuccessorsDecide<A(!new)>(probe: (A, A) -> bool, plugin: (A, A) -> bool, answer: seq<A>)
    requires StrictTotal(probe) && StrictTotal(plugin) && Distinct(answer) && |answer| >= 2
    ensures AgreeAlways(probe, plugin, answer) <==> SameSuccessors(probe, plugin, answer)
  {
    if SameSuccessors(probe, plugin, answer) {
      forall cycles, polls, i: nat | SameWorld(answer, cycles, polls) && i < |polls|
        ensures SameChoice(probe, plugin, answer, cycles, polls, i)
      {
        PluginFollowsPolicy(plugin, answer, cycles, polls, i);
        PoliciesAgree(probe, plugin, answer, cycles[..i]);
      }
    }
    if AgreeAlways(probe, plugin, answer) {
      forall a | a in answer
        ensures SuccessorIn(CanonicalOrder(probe, answer), a) == SuccessorIn(CanonicalOrder(plugin, answer), a)
      {
        AgreementCarriesOver(probe, plugin, answer, a);
      }
    }
  }

  lemma AgreeOnSuccessor<A(!new)>(probe: (A, A) -> bool, plugin: (A, A) -> bool, answer: seq<A>,
                                                     p: seq<A>, q: seq<A>, k: nat)
    requires StrictTotal(probe) && StrictTotal(plugin) && Distinct(answer) && |answer| >= 2
    requires AgreeAlways(probe, plugin, answer)
    requires p == CanonicalOrder(probe, answer) && q == CanonicalOrder(plugin, answer)
    ensures SuccessorIn(p, Ahead(p, answer[0], k)) == SuccessorIn(q, Ahead(p, answer[0], k))
  {
    AgreeInBlackout(probe, plugin, answer, k);
    AgreeInBlackout(probe, plugin, answer, k + 1);
  }

  /** A blackout leads both sides through every address. */
  lemma AgreementCarriesOver<A(!new)>(probe: (A, A) -> bool, plugin: (A, A) -> bool, answer: seq<A>, a: A)
    requires StrictTotal(probe) && StrictTotal(plugin) && Distinct(answer) && |answer| >= 2
    requires AgreeAlways(probe, plugin, answer) && a in answer
    ensures SuccessorIn(CanonicalOrder(probe, answer), a) == SuccessorIn(CanonicalOrder(plugin, answer), a)
  {
    var p, q := CanonicalOrder(probe, answer), CanonicalOrder(plugin, answer);
    ListsOf(probe, answer, p);
    assert a in Elems(answer) && answer[0] in Elems(answer) && a in Elems(p) && answer[0] in Elems(p);
    var k := EveryAddressIsAhead(p, answer[0], a);
    AgreeOnSuccessor(probe, plugin, answer, p, q, k);
  }

  lemma ListsOf<A(!new)>(less: (A, A) -> bool, answer: seq<A>, order: seq<A>)
    requires StrictTotal(less) && order == CanonicalOrder(less, answer) && answer != []
    ensures order != [] && Distinct(order) && Elems(order) == Elems(answer)
  {
    CanonicalSpec(less, answer);
    SortedIsDistinct(less, order);
  }

  // ----- the condition

  /** One list is the other, begun elsewhere. */
  ghost predicate IsRotation<A(!new)>(p: seq<A>, q: seq<A>) {
    |p| == |q| && (q != [] ==> exists d: nat :: d < |q| && BeginsAt(p, q, d))
  }

  ghost predicate BeginsAt<A(!new)>(p: seq<A>, q: seq<A>, d: nat)
    requires q != []
  {
    forall k: nat | k < |p| :: p[k] == Cyclic(q, d + k)
  }

  lemma {:induction false} FollowsFrom<A(!new)>(p: seq<A>, q: seq<A>, d: nat, k: nat, x: nat)
    requires Distinct(p) && Distinct(q) && d < |q| && k < |p| && p[0] == q[d] && x == d + k
    requires forall a | a in p :: SuccessorIn(p, a) == SuccessorIn(q, a)
    ensures p[k] == Cyclic(q, x)
  {
    if k > 0 {
      FollowsFrom(p, q, d, k - 1, x - 1);
      assert p[k - 1] in p;
      NextOnOrder(p, k - 1, p[k - 1]);
      SuccessorAt(q, x - 1, x);
    }
  }

  lemma RotationSucceeds<A(!new)>(p: seq<A>, q: seq<A>, d: nat, k: nat, x: nat)
    requires Distinct(p) && Distinct(q) && |p| == |q| && d < |q| && BeginsAt(p, q, d) && k < |p| && x == d + k
    ensures SuccessorIn(p, p[k]) == SuccessorIn(q, p[k])
  {
    NextOnOrder(p, k, p[k]);
    SuccessorAt(q, x, x + 1);
    assert p[k] == Cyclic(q, x);
    if k + 1 < |p| {
      assert p[k + 1] == Cyclic(q, d + (k + 1));
    } else {
      assert p[0] == Cyclic(q, d + 0);
      assert Ring(|q|, d + |q|) == Ring(|q|, d);
    }
  }

  lemma SuccessorsMeanRotation<A(!new)>(p: seq<A>, q: seq<A>)
    requires Distinct(p) && Distinct(q) && |p| == |q| && Elems(p) == Elems(q)
    ensures (forall a | a in p :: SuccessorIn(p, a) == SuccessorIn(q, a)) <==> IsRotation(p, q)
  {
    if p != [] {
      if forall a | a in p :: SuccessorIn(p, a) == SuccessorIn(q, a) {
        assert p[0] in Elems(q);
        var d := IndexOf(q, p[0]);
        forall k: nat | k < |p| ensures p[k] == Cyclic(q, d + k) {
          FollowsFrom(p, q, d, k, d + k);
        }
        assert BeginsAt(p, q, d);
      }
      if IsRotation(p, q) {
        var d: nat :| d < |q| && BeginsAt(p, q, d);
        forall a | a in p ensures SuccessorIn(p, a) == SuccessorIn(q, a) {
          var k :| 0 <= k < |p| && p[k] == a;
          RotationSucceeds(p, q, d, k, d + k);
        }
      }
    }
  }

  /** The two implementations probe the same address in every cycle of every trace over an answer
      set if and only if the plugin's sorted list is a rotation of the probe's. */
  lemma {:induction false} PluginAgreesWithProbe<A(!new)>(probe: (A, A) -> bool, plugin: (A, A) -> bool, answer: seq<A>)
    requires StrictTotal(probe) && StrictTotal(plugin) && Distinct(answer) && |answer| >= 2
    ensures AgreeAlways(probe, plugin, answer) <==> IsRotation(Sort(plugin, answer), CanonicalOrder(probe, answer))
  {
    var p, q := CanonicalOrder(plugin, answer), CanonicalOrder(probe, answer);
    OneOrder(plugin, answer, answer);
    OneOrder(probe, answer, answer);
    ListsOf(plugin, answer, p);
    ListsOf(probe, answer, q);
    assert forall a :: a in answer <==> a in Elems(answer);
    assert forall a :: a in p <==> a in Elems(p);
    SuccessorsDecide(probe, plugin, answer);
    SuccessorsMeanRotation(p, q);
  }

  /** Two addresses have only one way around. */
  lemma TwoAddressesAgree<A(!new)>(probe: (A, A) -> bool, plugin: (A, A) -> bool, answer: seq<A>)
    requires StrictTotal(probe) && StrictTotal(plugin) && Distinct(answer) && |answer| == 2
    ensures AgreeAlways(probe, plugin, answer)
  {
    var p, q := CanonicalOrder(plugin, answer), CanonicalOrder(probe, answer);
    OneOrder(plugin, answer, answer);
    OneOrder(probe, answer, answer);
    ListsOf(plugin, answer, p);
    ListsOf(probe, answer, q);
    assert p[0] in Elems(q) && p[1] in Elems(q);
    forall a | a in answer ensures SuccessorIn(q, a) == SuccessorIn(p, a) {
      assert a in Elems(p) && a in Elems(q);
    }
    SuccessorsDecide(probe, plugin, answer);
  }

  /** With three addresses that the keys put in different cyclic orders, the two sides part after
      the first five failures. */
  lemma {:induction false} ThreeAddressesPart<A(!new)>(probe: (A, A) -> bool, plugin: (A, A) -> bool, a: A, b: A, c: A)
    requires StrictTotal(probe) && StrictTotal(plugin)
    requires probe(a, b) && probe(b, c) && plugin(b, a) && plugin(a, c)
    ensures var answer := [a, b, c];
      && !AgreeAlways(probe, plugin, answer)
      && Run(probe, Start(probe, answer), Blackout(answer, 5)).current == b
      && ReadRun(plugin, BlackoutReads(answer, 5)).selected == Some(c)
  {
    var answer := [a, b, c];
    assert a != b && a != c && b != c;
    SortedTriple(probe, a, b, c, answer);
    SortedTriple(plugin, b, a, c, answer);
    BlackoutWorld(answer, 5);
    BlackoutReaches(probe, answer, Blackout(answer, 5));
    BlackoutReaches(plugin, answer, Blackout(answer, 5));
    RunsMirror(plugin, answer, Blackout(answer, 5), BlackoutReads(answer, 5));
    FirstMove(CanonicalOrder(probe, answer), a);
    FirstMove(CanonicalOrder(plugin, answer), a);
    assert a in answer;
    SuccessorsDecide(probe, plugin, answer);
  }

  lemma FirstMove<A>(order: seq<A>, a: A)
    ensures Ahead(order, a, Fifths(5)) == SuccessorIn(order, a)
  {
    assert Ahead(order, a, 1) == SuccessorIn(order, Ahead(order, a, 0));
  }

  lemma SortedTriple<A(!new)>(less: (A, A) -> bool, x: A, y: A, z: A, answer: seq<A>)
    requires StrictTotal(less) && less(x, y) && less(y, z) && Elems(answer) == {x, y, z}
    ensures CanonicalOrder(less, answer) == [x, y, z]
    ensures SuccessorIn([x, y, z], x) == y && SuccessorIn([x, y, z], y) == z
  {
    CanonicalSpec(less, answer);
    assert StrictlySorted(less, [x, y, z]) && Elems([x, y, z]) == {x, y, z};
    SortedIsDeterminedBySet(less, CanonicalOrder(less, answer), [x, y, z]);
    NextOnOrder([x, y, z], 0, x);
    NextOnOrder([x, y, z], 1, y);
  }
}
