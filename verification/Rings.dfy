/** Positions on a ring, as remainders. */
module Rings {

  /** `x` reduced to a position on a ring of `n` places by going around. */
  function Ring(n: nat, x: nat): (r: nat)
    requires n > 0
    ensures r < n
  {
    if x < n then x else Ring(n, x - n)
  }

  lemma {:induction false} RingAdd(n: nat, x: nat, k: nat)
    requires k < n
    ensures Ring(n, x + k) == if Ring(n, x) + k < n then Ring(n, x) + k else Ring(n, x) + k - n
  {
    if x >= n { RingAdd(n, x - n, k); }
  }

  lemma {:induction false} RingStep(n: nat, x: nat)
    requires n > 0
    ensures Ring(n, x + 1) == if Ring(n, x) + 1 < n then Ring(n, x) + 1 else 0
  {
    if x >= n { RingStep(n, x - n); }
  }

  /** Every position of the ring is fewer than `n` steps ahead. */
  lemma RingOffset(n: nat, x: nat, i: nat) returns (d: nat)
    requires i < n
    ensures d < n && Ring(n, x + d) == i
  {
    var r := Ring(n, x);
    d := if i >= r then i - r else n - r + i;
    RingAdd(n, x, d);
  }

  lemma BigMultiple(n: nat, d: int)
    ensures d >= 1 ==> d * n >= n
    ensures d <= -1 ==> d * n + n <= 0
  {
  }

  lemma RemainderDropsTerm(n: nat, x: nat)
    requires n > 0 && x >= n
    ensures (x - n) % n == x % n
  {
    var d := x / n - (x - n) / n - 1;
    assert x == (x / n) * n + x % n;
    assert x - n == ((x - n) / n) * n + (x - n) % n;
    assert d * n == (x / n) * n - ((x - n) / n) * n - n;
    BigMultiple(n, d);
  }

  /** Going around leaves the remainder. */
  lemma {:induction false} RingIsRemainder(n: nat, x: nat)
    requires n > 0
    ensures Ring(n, x) == x % n
  {
    if x >= n {
      RingIsRemainder(n, x - n);
      RemainderDropsTerm(n, x);
    }
  }

  /** The element `x` places from the front, going around. */
  function Cyclic<A>(order: seq<A>, x: nat): (a: A)
    requires order != []
    ensures a in order
  {
    order[Ring(|order|, x)]
  }

  /** That is the one at position `x mod n`. */
  lemma CyclicIsRemainder<A>(order: seq<A>, x: nat)
    requires order != []
    ensures Cyclic(order, x) == order[x % |order|]
  {
    RingIsRemainder(|order|, x);
  }
}
