/** Which outages the plugin gets out of, when the resolver may list an address more than once. */
module PluginRecovery {
  import opened Wrappers
  import opened Canonical
  import opened Rotation
  import opened PluginRotation

  /** Every answer lists the same addresses equally often, in any order, and exactly the addresses
      `live` among them answer. */
  ghost predicate Steady<A(!new)>(polls: seq<Read<A>>, answer: seq<A>, live: set<A>) {
    && answer != []
    && forall r | r in polls :: multiset(r.answer) == multiset(answer) && r.up * Elems(answer) == live
  }

  /** The entry at the moment read `i` probes. */
  function Picked<A(==)>(less: (A, A) -> bool, e: Entry<A>, polls: seq<Read<A>>, i: nat): Entry<A>
    requires i < |polls|
  {
    Prefer(ReadsFrom(less, e, polls[..i]), polls[i].answer)
  }

  /** An ascending list is determined by what it holds and how often. */
  lemma {:induction false} AscendingIsDetermined<A(!new)>(less: (A, A) -> bool, a: seq<A>, b: seq<A>)
    requires StrictTotal(less) && Ascending(less, a) && Ascending(less, b) && multiset(a) == multiset(b)
    ensures a == b
  {
    SameMultisetSameElems(a, b);
    if a != [] {
      SameLeast(less, a, b);
      WithoutFirst(a);
      WithoutFirst(b);
      var tail, rest := a[1..], b[1..];
      assert multiset(tail) == multiset(rest);
      AscendingIsDetermined(less, tail, rest);
      assert a == [a[0]] + tail && b == [b[0]] + rest;
    }
  }

  lemma WithoutFirst<A>(a: seq<A>)
    requires a != []
    ensures multiset(a[1..]) == multiset(a) - multiset{a[0]}
  {
    assert a == [a[0]] + a[1..];
  }

  lemma SameLeast<A(!new)>(less: (A, A) -> bool, a: seq<A>, b: seq<A>)
    requires StrictTotal(less) && Ascending(less, a) && Ascending(less, b)
    requires a != [] && b != [] && Elems(a) == Elems(b)
    ensures a[0] == b[0]
  {
    assert a[0] in Elems(b) && b[0] in Elems(a);
    var i :| 0 <= i < |b| && b[i] == a[0];
    var j :| 0 <= j < |a| && a[j] == b[0];
    assert i > 0 ==> !less(b[i], b[0]);
    assert j > 0 ==> !less(a[j], a[0]);
  }

  lemma {:induction false} SortIsDetermined<A(!new)>(less: (A, A) -> bool, a: seq<A>, b: seq<A>)
    requires StrictTotal(less) && multiset(a) == multiset(b)
    ensures Sort(less, a) == Sort(less, b) && Elems(a) == Elems(b) && |a| == |b|
  {
    SortSpec(less, a);
    SortSpec(less, b);
    AscendingIsDetermined(less, Sort(less, a), Sort(less, b));
    SameMultisetSameElems(a, b);
  }

  /** What becomes of a picked entry in a steady world; `order` is the sorted answer. */
  function Onward<A(==)>(order: seq<A>, live: set<A>, p: Entry<A>): Entry<A>
    requires order != []
  {
    if p.selected.Some? && p.selected.value in live then p.(failures := 0)
    else if p.failures + 1 < ROTATE_AFTER_FAILURES || |order| < 2 then p.(failures := p.failures + 1)
    else Entry(Some(After(order, p.selected)), 0)
  }

  lemma {:induction false} OneAnswer<A(!new)>(less: (A, A) -> bool, answer: seq<A>, order: seq<A>, other: seq<A>)
    requires StrictTotal(less) && order == Sort(less, answer) && multiset(other) == multiset(answer)
    ensures Sort(less, other) == order && |other| == |order| == |answer|
    ensures forall a :: a in other <==> a in order
    ensures forall a :: a in other <==> a in Elems(answer)
  {
    SortIsDetermined(less, other, answer);
    SortSpec(less, answer);
    SameMultisetSameElems(order, answer);
    assert forall a :: a in other <==> a in Elems(other);
    assert forall a :: a in order <==> a in Elems(order);
  }

  lemma {:induction false} RecordIsOnward<A(!new)>(less: (A, A) -> bool, p: Entry<A>, r: Read<A>, answer: seq<A>,
                                                   live: set<A>, order: seq<A>)
    requires StrictTotal(less) && Steady([r], answer, live) && order == Sort(less, answer) && order != []
    requires p.selected.Some? && p.selected.value in order
    ensures Record(less, p, r.answer, p.selected.value in r.up) == Onward(order, live, p)
    ensures Onward(order, live, p).selected.Some? && Onward(order, live, p).selected.value in order
  {
    assert r in [r];
    OneAnswer(less, answer, order, r.answer);
    assert p.selected.value in r.up <==> p.selected.value in r.up * Elems(answer);
  }

  lemma PickedStep<A(!new)>(less: (A, A) -> bool, e: Entry<A>, polls: seq<Read<A>>, answer: seq<A>,
                                               live: set<A>, order: seq<A>, i: nat)
    requires StrictTotal(less) && Steady(polls, answer, live) && order == Sort(less, answer)
    requires i + 1 < |polls| && order != []
    ensures Picked(less, e, polls, i).selected.Some? && Picked(less, e, polls, i).selected.value in order
    ensures Picked(less, e, polls, i + 1) == Onward(order, live, Picked(less, e, polls, i))
  {
    var r, next, p := polls[i], polls[i + 1], Picked(less, e, polls, i);
    assert r in polls && next in polls;
    OneAnswer(less, answer, order, r.answer);
    OneAnswer(less, answer, order, next.answer);
    RecordIsOnward(less, p, r, answer, live, order);
    assert polls[..i + 1][..i] == polls[..i];
  }

  /** The sorted answer, begun at its `i`-th place. */
  function BegunAt<A>(order: seq<A>, i: nat): (ring: seq<A>)
    requires i < |order|
    ensures |ring| == |order| && ring[0] == order[i]
  {
    order[i..] + order[..i]
  }

  lemma RingHolds<A>(order: seq<A>, i: nat, ring: seq<A>)
    requires i < |order| && ring == BegunAt(order, i)
    ensures multiset(ring) == multiset(order)
  {
    assert order == order[..i] + order[i..];
  }

  predicate Once<A(==)>(ring: seq<A>, a: A) {
    multiset(ring)[a] == 1
  }

  /** In this list a live address comes before any repeated dead one: the address at place `d` is
      live and all before it are listed once. */
  ghost predicate Escapes<A(!new)>(ring: seq<A>, live: set<A>) {
    exists d :: 0 <= d < |ring| && ring[d] in live && AllOnce(ring, d)
  }

  ghost predicate AllOnce<A(!new)>(ring: seq<A>, d: nat)
    requires d <= |ring|
  {
    forall j | 0 <= j < d :: Once(ring, ring[j])
  }

  /** The address after one that is listed once is the next one of the list, or the first. */
  lemma OnceMovesOn<A(!new)>(order: seq<A>, i: nat, ring: seq<A>, k: nat)
    requires i < |order| && ring == BegunAt(order, i) && k < |ring| && Once(ring, ring[k])
    ensures After(order, Some(ring[k])) == ring[if k + 1 < |ring| then k + 1 else 0]
    ensures ring[k] in order
  {
    var place := if i + k < |order| then i + k else i + k - |order|;
    RingHolds(order, i, ring);
    OnceIsFound(order, place);
    CyclicIndex(place, |order|);
  }

  lemma OnceIsFound<A(!new)>(order: seq<A>, place: nat)
    requires place < |order| && Once(order, order[place])
    ensures IndexOf(order, order[place]) == place
  {
    CountedOnce(order, place);
  }

  /** The failures counted towards the next rotation; a list that was short may have left more. */
  function Counted<A>(p: Entry<A>): (n: nat)
    ensures n < ROTATE_AFTER_FAILURES
  {
    if p.failures < ROTATE_AFTER_FAILURES then p.failures else ROTATE_AFTER_FAILURES - 1
  }

  /** While a live address lies ahead, the picks climb towards it. */
  lemma {:induction false} Climbs<A(!new)>(less: (A, A) -> bool, e: Entry<A>, polls: seq<Read<A>>, answer: seq<A>,
                                           live: set<A>, order: seq<A>, first: nat, ring: seq<A>, d: nat, i: nat)
    returns (k: nat)
    requires StrictTotal(less) && Steady(polls, answer, live) && order == Sort(less, answer) && first < |order|
    requires ring == BegunAt(order, first)
    requires i < |polls| && d < |order| && ring[d] in live && AllOnce(ring, d)
    requires Picked(less, e, polls, 0).selected == Some(order[first])
    ensures var p := Picked(less, e, polls, i);
      && k <= d && p.selected.Some?
      && (k == d ==> p.selected.value in live)
      && (k < d ==> p.selected.value == ring[k] && i <= 5 * k + Counted(p))
  {
    if i == 0 {
      k := 0;
    } else {
      k := Climbs(less, e, polls, answer, live, order, first, ring, d, i - 1);
      PickedStep(less, e, polls, answer, live, order, i - 1);
      k := ClimbsOn(order, live, first, ring, d, k, Picked(less, e, polls, i - 1));
    }
  }

  lemma ClimbsOn<A(!new)>(order: seq<A>, live: set<A>, first: nat, ring: seq<A>, d: nat, k: nat, p: Entry<A>)
    returns (k': nat)
    requires first < |order| && ring == BegunAt(order, first) && d < |ring| && ring[d] in live && AllOnce(ring, d)
    requires k <= d && p.selected.Some? && (k == d ==> p.selected.value in live)
    requires k < d ==> p.selected.value == ring[k]
    ensures var q := Onward(order, live, p);
      && k' <= d && q.selected.Some?
      && (k' == d ==> q.selected.value in live)
      && (k' < d ==> q.selected.value == ring[k'] && 5 * k + Counted(p) + 1 <= 5 * k' + Counted(q))
  {
    k' := k;
    if p.selected.value in live {
      k' := d;
    } else if p.failures + 1 >= ROTATE_AFTER_FAILURES {
      OnceMovesOn(order, first, ring, k);
      k' := k + 1;
    }
  }

  /** While none does, the picks stay on dead addresses up to the first repeated one. */
  lemma {:induction false} Circles<A(!new)>(less: (A, A) -> bool, e: Entry<A>, polls: seq<Read<A>>, answer: seq<A>,
                                            live: set<A>, order: seq<A>, first: nat, ring: seq<A>, i: nat) returns (k: nat)
    requires StrictTotal(less) && Steady(polls, answer, live) && order == Sort(less, answer) && first < |order|
    requires ring == BegunAt(order, first) && i < |polls| && !Escapes(ring, live)
    requires Picked(less, e, polls, 0).selected == Some(order[first])
    ensures k < |ring| && Picked(less, e, polls, i).selected == Some(ring[k])
    ensures AllOnce(ring, k) && ring[k] !in live
  {
    if i == 0 {
      k := 0;
    } else {
      k := Circles(less, e, polls, answer, live, order, first, ring, i - 1);
      PickedStep(less, e, polls, answer, live, order, i - 1);
      if Picked(less, e, polls, i).selected != Picked(less, e, polls, i - 1).selected {
        SortSpec(less, answer);
        k := CirclesOn(less, order, first, ring, k);
      }
    }
    DeadAt(ring, live, k);
  }

  lemma DeadAt<A(!new)>(ring: seq<A>, live: set<A>, k: nat)
    requires k < |ring| && AllOnce(ring, k) && !Escapes(ring, live)
    ensures ring[k] !in live
  {
  }

  lemma CirclesOn<A(!new)>(less: (A, A) -> bool, order: seq<A>, first: nat, ring: seq<A>, k: nat) returns (k': nat)
    requires StrictTotal(less) && Ascending(less, order) && |order| >= 2
    requires first < |order| && ring == BegunAt(order, first) && k < |order| && AllOnce(ring, k)
    requires After(order, Some(ring[k])) != ring[k]
    ensures k' < |order| && After(order, Some(ring[k])) == ring[k'] && AllOnce(ring, k')
  {
    RingHolds(order, first, ring);
    assert ring[k] in multiset(ring);
    NeighbourIsNew(less, order, ring[k]);
    OnceMovesOn(order, first, ring, k);
    k' := OnceMore(ring, k);
  }

  lemma OnceMore<A(!new)>(ring: seq<A>, k: nat) returns (k': nat)
    requires k < |ring| && AllOnce(ring, k) && Once(ring, ring[k])
    ensures k' == if k + 1 < |ring| then k + 1 else 0
    ensures AllOnce(ring, k')
  {
    k' := if k + 1 < |ring| then k + 1 else 0;
  }

  /** Where the first pick stands in the sorted answer. */
  lemma {:induction false} FirstPick<A(!new)>(less: (A, A) -> bool, e: Entry<A>, polls: seq<Read<A>>, answer: seq<A>,
                                              live: set<A>, order: seq<A>) returns (first: nat)
    requires StrictTotal(less) && Steady(polls, answer, live) && order == Sort(less, answer) && polls != []
    ensures first < |order| == |answer|
    ensures Picked(less, e, polls, 0).selected == Some(order[first])
  {
    assert polls[0] in polls;
    OneAnswer(less, answer, order, polls[0].answer);
    first := IndexOf(order, Picked(less, e, polls, 0).selected.value);
  }

  /** The plugin recovers if and only if, going around the sorted answer from the first pick, a live
      address comes before any repeated dead one: then every read from `5 (n - 1)` on probes a
      live address, otherwise none ever does. */
  lemma {:induction false} RepeatsDecideRecovery<A(!new)>(less: (A, A) -> bool, e: Entry<A>, polls: seq<Read<A>>,
                                                          answer: seq<A>, live: set<A>, order: seq<A>, first: nat)
    requires StrictTotal(less) && Steady(polls, answer, live) && order == Sort(less, answer) && polls != []
    requires first < |order| && Picked(less, e, polls, 0).selected == Some(order[first])
    ensures forall i: nat | i < |polls| :: Picked(less, e, polls, i).selected.Some?
    ensures Escapes(BegunAt(order, first), live) ==>
      forall i: nat | 5 * (|answer| - 1) <= i < |polls| :: Picked(less, e, polls, i).selected.value in live
    ensures !Escapes(BegunAt(order, first), live) ==>
      forall i: nat | i < |polls| :: Picked(less, e, polls, i).selected.value !in live
  {
    var ring := BegunAt(order, first);
    OneAnswer(less, answer, order, answer);
    if Escapes(ring, live) {
      var d :| 0 <= d < |ring| && ring[d] in live && AllOnce(ring, d);
      forall i: nat | i < |polls|
        ensures Picked(less, e, polls, i).selected.Some?
        ensures i >= 5 * (|answer| - 1) ==> Picked(less, e, polls, i).selected.value in live
      {
        var k := Climbs(less, e, polls, answer, live, order, first, ring, d, i);
      }
    } else {
      forall i: nat | i < |polls|
        ensures Picked(less, e, polls, i).selected.Some? && Picked(less, e, polls, i).selected.value !in live
      {
        var k := Circles(less, e, polls, answer, live, order, first, ring, i);
      }
    }
  }

  /** Without repeats the plugin always recovers, as soon as any address answers. */
  lemma PluginRecovers<A(!new)>(less: (A, A) -> bool, e: Entry<A>, polls: seq<Read<A>>, answer: seq<A>,
                                                   live: set<A>, i: nat)
    requires StrictTotal(less) && Steady(polls, answer, live) && Distinct(answer) && live != {}
    requires 5 * (|answer| - 1) <= i < |polls|
    ensures var picked := Picked(less, e, polls, i).selected; picked.Some? && picked.value in live
  {
    var order := Sort(less, answer);
    var first := FirstPick(less, e, polls, answer, live, order);
    DistinctEscapes(less, answer, order, first, polls[0], live);
    RepeatsDecideRecovery(less, e, polls, answer, live, order, first);
  }

  lemma DistinctEscapes<A(!new)>(less: (A, A) -> bool, answer: seq<A>, order: seq<A>, first: nat,
                                                    r: Read<A>, live: set<A>)
    requires StrictTotal(less) && Distinct(answer) && order == Sort(less, answer) && first < |order|
    requires live == r.up * Elems(answer) && live != {}
    ensures Escapes(BegunAt(order, first), live)
  {
    var ring := BegunAt(order, first);
    SortSpec(less, answer);
    RingHolds(order, first, ring);
    SameMultisetSameElems(ring, answer);
    var a :| a in live;
    assert a in Elems(ring);
    var d :| 0 <= d < |ring| && ring[d] == a;
    forall j | 0 <= j < d ensures Once(ring, ring[j]) {
      DistinctCountsOnce(answer, ring[j]);
      assert ring[j] in multiset(ring);
    }
    assert AllOnce(ring, d);
  }
}
