/** Address selection of the collectd plugin, for one (hostname, port) key: selected before a
    read, recorded after it. */
module PluginRotation {
  import opened Wrappers
  import opened Canonical
  import opened Rotation

  const ROTATE_AFTER_FAILURES: nat := 5

  datatype Entry<A> = Entry(selected: Option<A>, failures: nat)

  /** One read of a key: what the resolver answers (empty when it fails) and which addresses
      would give at least one sample. */
  datatype Read<A> = Read(answer: seq<A>, up: set<A>)

  /** The entry after an address has been picked; its `selected` is the address to probe. */
  function Prefer<A(==)>(e: Entry<A>, addrs: seq<A>): (r: Entry<A>)
    ensures addrs != [] ==> r.selected.Some? && r.selected.value in addrs
    ensures e.selected.Some? && e.selected.value in addrs ==> r == e
    ensures addrs != [] && r.selected != e.selected ==> r.selected == Some(addrs[0])
    ensures r.failures == e.failures
  {
    if addrs == [] then e
    else if e.selected.Some? && e.selected.value in addrs then e
    else e.(selected := Some(addrs[0]))
  }

  /** The entry after an outcome. A run of five failures moves to the address after the first
      occurrence of the selected one in the sorted answer. */
  function Record<A(==)>(less: (A, A) -> bool, e: Entry<A>, addrs: seq<A>, succeeded: bool): (r: Entry<A>)
    ensures addrs != [] ==> r.failures < ROTATE_AFTER_FAILURES || |addrs| < 2
    ensures addrs == [] ==> r == e
  {
    if addrs == [] then e
    else if succeeded then e.(failures := 0)
    else if e.failures + 1 < ROTATE_AFTER_FAILURES || |addrs| < 2 then e.(failures := e.failures + 1)
    else Entry(Some(After(Sort(less, addrs), e.selected)), 0)
  }

  function After<A(==)>(order: seq<A>, selected: Option<A>): A
    requires order != []
  {
    if selected.None? || selected.value !in order then order[0]
    else order[(IndexOf(order, selected.value) + 1) % |order|]
  }

  function ReadStep<A(==)>(less: (A, A) -> bool, e: Entry<A>, r: Read<A>): Entry<A> {
    var picked := Prefer(e, r.answer);
    Record(less, picked, r.answer, picked.selected.Some? && picked.selected.value in r.up)
  }

  /** A key's entry after a script of reads. */
  function ReadsFrom<A(==)>(less: (A, A) -> bool, e: Entry<A>, polls: seq<Read<A>>): Entry<A> {
    if polls == [] then e
    else ReadStep(less, ReadsFrom(less, e, polls[..|polls| - 1]), polls[|polls| - 1])
  }

  /** The table starts empty. */
  function ReadRun<A(==)>(less: (A, A) -> bool, polls: seq<Read<A>>): Entry<A> {
    ReadsFrom(less, Entry(None, 0), polls)
  }

  lemma RepeatsAreAdjacent<A(!new)>(less: (A, A) -> bool, order: seq<A>, i: nat, j: nat)
    requires StrictTotal(less) && Ascending(less, order) && i < j < |order| && order[i] == order[j]
    ensures order[i + 1] == order[i]
  {
  }

  /** An address occurs once exactly when it is found at one position only. */
  lemma CountedOnce<A(!new)>(s: seq<A>, i: nat)
    requires i < |s|
    ensures multiset(s)[s[i]] == 1 <==> forall j | 0 <= j < |s| && j != i :: s[j] != s[i]
  {
    var rest := s[..i] + s[i + 1..];
    assert s == s[..i] + [s[i]] + s[i + 1..];
    assert multiset(s) == multiset(rest) + multiset{s[i]};
    assert s[i] in multiset(rest) <==> s[i] in rest;
    forall j | 0 <= j < |s| && j != i ensures s[j] in rest {
      assert s[j] == rest[if j < i then j else j - 1];
    }
    if s[i] in rest {
      var k :| 0 <= k < |rest| && rest[k] == s[i];
      assert s[if k < i then k else k + 1] == s[i];
    }
  }

  /** In a sorted answer the neighbour of an address is that address again exactly when it
      occurs more than once. */
  lemma AfterMovesIffUnique<A(!new)>(less: (A, A) -> bool, addrs: seq<A>, a: A)
    requires StrictTotal(less) && a in addrs && |addrs| >= 2
    ensures |Sort(less, addrs)| == |addrs|
    ensures After(Sort(less, addrs), Some(a)) != a <==> multiset(addrs)[a] == 1
  {
    SortSpec(less, addrs);
    var order := Sort(less, addrs);
    SameMultisetSameElems(order, addrs);
    assert a in Elems(addrs) && a in Elems(order);
    NeighbourIsNew(less, order, a);
  }

  lemma NeighbourIsNew<A(!new)>(less: (A, A) -> bool, order: seq<A>, a: A)
    requires StrictTotal(less) && Ascending(less, order) && a in order && |order| >= 2
    ensures After(order, Some(a)) != a <==> multiset(order)[a] == 1
  {
    var pos := IndexOf(order, a);
    CyclicIndex(pos, |order|);
    CountedOnce(order, pos);
    if multiset(order)[a] != 1 {
      var j :| 0 <= j < |order| && j != pos && order[j] == order[pos];
      RepeatsAreAdjacent(less, order, pos, j);
    }
  }

  /** Rotation after five failures really leaves an address if and only if the answer lists it
      once: a repeated address pins the rotation. */
  lemma RotationMovesIffUnique<A(!new)>(less: (A, A) -> bool, e: Entry<A>, addrs: seq<A>)
    requires StrictTotal(less) && |addrs| >= 2 && e.failures == ROTATE_AFTER_FAILURES - 1
    requires e.selected.Some? && e.selected.value in addrs
    ensures Record(less, e, addrs, false).selected != e.selected <==> multiset(addrs)[e.selected.value] == 1
  {
    AfterMovesIffUnique(less, addrs, e.selected.value);
  }

  lemma PinnedStep<A(!new)>(less: (A, A) -> bool, e: Entry<A>, r: Read<A>, dead: A)
    requires StrictTotal(less) && multiset(r.answer)[dead] >= 2 && dead !in r.up
    requires Prefer(e, r.answer).selected == Some(dead)
    ensures dead in r.answer && ReadStep(less, e, r).selected == Some(dead)
  {
    assert dead in multiset(r.answer);
    assert |multiset(r.answer) - multiset{dead, dead}| >= 0;
    AfterMovesIffUnique(less, r.answer, dead);
  }

  /** A dead address listed twice is never left, whichever other addresses would answer. */
  lemma {:induction false} RepeatedAddressPinsRotation<A(!new)>(less: (A, A) -> bool, e: Entry<A>, polls: seq<Read<A>>, dead: A)
    requires StrictTotal(less) && polls != [] && Prefer(e, polls[0].answer).selected == Some(dead)
    requires forall r | r in polls :: multiset(r.answer)[dead] >= 2 && dead !in r.up
    ensures ReadsFrom(less, e, polls).selected == Some(dead)
  {
    var front, r := polls[..|polls| - 1], polls[|polls| - 1];
    assert dead in multiset(r.answer);
    if front != [] {
      assert forall q | q in front :: q in polls;
      RepeatedAddressPinsRotation(less, e, front, dead);
    }
    PinnedStep(less, ReadsFrom(less, e, front), r, dead);
  }
}
