/** The canonical order of a resolver answer: sort, then drop repeats.
    Addresses are values of any type with a strict total order `less`. */
module Canonical {

  ghost predicate StrictTotal<A(!new)>(less: (A, A) -> bool) {
    && (forall x :: !less(x, x))
    && (forall x, y :: x == y || less(x, y) || less(y, x))
    && (forall x, y, z :: less(x, y) && less(y, z) ==> less(x, z))
  }

  /** Later elements are never below earlier ones; repeats are allowed. */
  ghost predicate Ascending<A(!new)>(less: (A, A) -> bool, s: seq<A>) {
    forall i, j | 0 <= i < j < |s| :: !less(s[j], s[i])
  }

  ghost predicate StrictlySorted<A(!new)>(less: (A, A) -> bool, s: seq<A>) {
    forall i, j | 0 <= i < j < |s| :: less(s[i], s[j])
  }

  ghost predicate Distinct<A(!new)>(s: seq<A>) {
    forall i, j | 0 <= i < j < |s| :: s[i] != s[j]
  }

  function Elems<A>(s: seq<A>): (e: set<A>) {
    set x | x in s
  }

  function Insert<A>(less: (A, A) -> bool, x: A, s: seq<A>): seq<A> {
    if s == [] || !less(s[0], x) then [x] + s else [s[0]] + Insert(less, x, s[1..])
  }

  function Sort<A>(less: (A, A) -> bool, s: seq<A>): seq<A> {
    if s == [] then [] else Insert(less, s[0], Sort(less, s[1..]))
  }

  /** Drops every element equal to its predecessor, as `Vec::dedup` does. */
  function Dedup<A(==)>(s: seq<A>): seq<A> {
    if |s| < 2 then s
    else if s[0] == s[1] then Dedup(s[1..])
    else [s[0]] + Dedup(s[1..])
  }

  function CanonicalOrder<A(==)>(less: (A, A) -> bool, answer: seq<A>): seq<A> {
    Dedup(Sort(less, answer))
  }

  lemma {:induction false} InsertKeepsElements<A>(less: (A, A) -> bool, x: A, s: seq<A>)
    ensures multiset(Insert(less, x, s)) == multiset(s) + multiset{x}
  {
    if s == [] || !less(s[0], x) {
    } else {
      InsertKeepsElements(less, x, s[1..]);
      assert s == [s[0]] + s[1..];
    }
  }

  lemma {:induction false} InsertAscends<A(!new)>(less: (A, A) -> bool, x: A, s: seq<A>)
    requires StrictTotal(less) && Ascending(less, s)
    ensures Ascending(less, Insert(less, x, s))
  {
    if s == [] || !less(s[0], x) {
      forall y | y in s ensures !less(y, x) {
        assert s[0] == y || !less(y, s[0]);
      }
      PrependAscends(less, x, s);
    } else {
      InsertAscends(less, x, s[1..]);
      InsertKeepsElements(less, x, s[1..]);
      var rest := Insert(less, x, s[1..]);
      forall y | y in rest ensures !less(y, s[0]) {
        assert y in multiset(rest);
        assert y == x || y in s[1..];
      }
      PrependAscends(less, s[0], rest);
    }
  }

  lemma PrependAscends<A(!new)>(less: (A, A) -> bool, x: A, s: seq<A>)
    requires Ascending(less, s) && forall y | y in s :: !less(y, x)
    ensures Ascending(less, [x] + s)
  {
    var t := [x] + s;
    forall i, j | 0 <= i < j < |t| ensures !less(t[j], t[i]) {
      assert t[j] == s[j - 1];
      assert i > 0 ==> t[i] == s[i - 1];
    }
  }

  /** Sorting rearranges and nothing else. */
  lemma {:induction false} SortSpec<A(!new)>(less: (A, A) -> bool, s: seq<A>)
    requires StrictTotal(less)
    ensures Ascending(less, Sort(less, s)) && multiset(Sort(less, s)) == multiset(s)
  {
    if s != [] {
      SortSpec(less, s[1..]);
      InsertAscends(less, s[0], Sort(less, s[1..]));
      InsertKeepsElements(less, s[0], Sort(less, s[1..]));
      assert s == [s[0]] + s[1..];
    }
  }

  lemma {:induction false} DedupSpec<A(!new)>(less: (A, A) -> bool, s: seq<A>)
    requires StrictTotal(less) && Ascending(less, s)
    ensures StrictlySorted(less, Dedup(s)) && Elems(Dedup(s)) == Elems(s)
    ensures s != [] ==> Dedup(s) != [] && Dedup(s)[0] == s[0]
  {
    if |s| >= 2 {
      DedupSpec(less, s[1..]);
      var rest := Dedup(s[1..]);
      assert s == [s[0]] + s[1..] && s[1] in s[1..];
      assert Elems(s) == {s[0]} + Elems(s[1..]);
      if s[0] == s[1] {
        assert s[0] in Elems(s[1..]);
      } else {
        var t := [s[0]] + rest;
        forall j | 0 < j < |t| ensures less(t[0], t[j]) {
          assert t[j] in Elems(rest);
          assert t[j] in s[1..];
          assert !less(s[1], s[0]);
          assert rest[0] == s[1];
        }
      }
    }
  }

  lemma SameMultisetSameElems<A>(a: seq<A>, b: seq<A>)
    requires multiset(a) == multiset(b)
    ensures Elems(a) == Elems(b) && |a| == |b|
  {
    forall x ensures x in a <==> x in b {
      assert x in a <==> x in multiset(a);
      assert x in b <==> x in multiset(b);
    }
    assert |multiset(a)| == |a| && |multiset(b)| == |b|;
  }

  /** The canonical order is strictly sorted and holds exactly the addresses of the answer. */
  lemma CanonicalSpec<A(!new)>(less: (A, A) -> bool, answer: seq<A>)
    requires StrictTotal(less)
    ensures StrictlySorted(less, CanonicalOrder(less, answer))
    ensures Elems(CanonicalOrder(less, answer)) == Elems(answer)
    ensures answer != [] ==> CanonicalOrder(less, answer) != []
  {
    SortSpec(less, answer);
    DedupSpec(less, Sort(less, answer));
    SameMultisetSameElems(Sort(less, answer), answer);
  }

  lemma EmptyElems<A>(s: seq<A>)
    ensures Elems(s) == {} <==> s == []
  {
    if s != [] { assert s[0] in Elems(s); }
  }

  /** A strictly sorted sequence is determined by its set of elements. */
  lemma {:induction false} SortedIsDeterminedBySet<A(!new)>(less: (A, A) -> bool, a: seq<A>, b: seq<A>)
    requires StrictTotal(less)
    requires StrictlySorted(less, a) && StrictlySorted(less, b) && Elems(a) == Elems(b)
    ensures a == b
  {
    EmptyElems(a);
    EmptyElems(b);
    if a != [] {
      assert a[0] in Elems(b) && b[0] in Elems(a);
      assert a == [a[0]] + a[1..] && b == [b[0]] + b[1..];
      assert a[0] == b[0];
      forall x ensures x in Elems(a[1..]) <==> x in Elems(b[1..]) {
        assert x in a[1..] <==> x in Elems(a) && x != a[0];
        assert x in b[1..] <==> x in Elems(b) && x != b[0];
      }
      SortedIsDeterminedBySet(less, a[1..], b[1..]);
    }
  }

  /** Two answers with the same addresses, in any order and with any repeats,
      have one canonical order. */
  lemma SameSetSameOrder<A(!new)>(less: (A, A) -> bool, a: seq<A>, b: seq<A>)
    requires StrictTotal(less)
    ensures CanonicalOrder(less, a) == CanonicalOrder(less, b) <==> Elems(a) == Elems(b)
  {
    CanonicalSpec(less, a);
    CanonicalSpec(less, b);
    if Elems(a) == Elems(b) {
      SortedIsDeterminedBySet(less, CanonicalOrder(less, a), CanonicalOrder(less, b));
    }
  }

  /** Without repeats, sorting alone already gives the canonical order. */
  lemma DistinctSortIsCanonical<A(!new)>(less: (A, A) -> bool, s: seq<A>)
    requires StrictTotal(less) && Distinct(s)
    ensures Sort(less, s) == CanonicalOrder(less, s)
  {
    SortSpec(less, s);
    var t := Sort(less, s);
    SameMultisetSameElems(t, s);
    forall i, j | 0 <= i < j < |t| ensures less(t[i], t[j]) {
      assert !less(t[j], t[i]);
      CountOfRepeat(t, i, j);
      DistinctCountsOnce(s, t[i]);
    }
    CanonicalSpec(less, s);
    SortedIsDeterminedBySet(less, t, CanonicalOrder(less, s));
  }

  lemma CountOfRepeat<A>(s: seq<A>, i: nat, j: nat)
    requires i < j < |s|
    ensures s[i] == s[j] ==> multiset(s)[s[i]] >= 2
  {
    assert s == s[..j] + [s[j]] + s[j + 1..];
    assert s[i] in s[..j];
    assert multiset(s[..j])[s[i]] >= 1;
  }

  lemma {:induction false} DistinctCountsOnce<A(!new)>(s: seq<A>, x: A)
    requires Distinct(s)
    ensures multiset(s)[x] <= 1
  {
    if s != [] {
      DistinctCountsOnce(s[1..], x);
      assert s == [s[0]] + s[1..];
      if x == s[0] { assert x !in s[1..]; }
    }
  }

  /** A strictly sorted sequence never repeats an address. */
  lemma SortedIsDistinct<A(!new)>(less: (A, A) -> bool, s: seq<A>)
    requires StrictTotal(less) && StrictlySorted(less, s)
    ensures Distinct(s)
  {
  }
}
