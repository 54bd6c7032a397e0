/** The keys the two sides sort by, for the addresses 10.0.0.x of one port: the probe compares
    numbers, the plugin the text of the socket address. */
module SortKeys {
  import opened Wrappers
  import opened Canonical
  import opened Text
  import opened Rotation
  import opened PluginRotation
  import opened Agreement

  /** Lexicographic order of code points; a proper prefix comes first. */
  predicate TextLess(a: string, b: string) {
    b != "" && (a == "" || a[0] < b[0] || (a[0] == b[0] && TextLess(a[1..], b[1..])))
  }

  /** The text of the socket address, between what all these addresses share. */
  function Repr(x: nat): string {
    "('10.0.0." + (Dec(x) + "', 9999)")
  }

  predicate NumberKey(x: nat, y: nat) {
    x < y
  }

  predicate TextKey(x: nat, y: nat) {
    TextLess(Repr(x), Repr(y))
  }

  lemma {:induction false} TextLessIsTotal(a: string, b: string)
    ensures !TextLess(a, a)
    ensures a == b || TextLess(a, b) || TextLess(b, a)
  {
    if a != "" && b != "" {
      TextLessIsTotal(a[1..], b[1..]);
      assert a == [a[0]] + a[1..] && b == [b[0]] + b[1..];
    } else if a != "" {
      TextLessIsTotal(a[1..], "");
    }
  }

  lemma {:induction false} TextLessIsTransitive(a: string, b: string, c: string)
    requires TextLess(a, b) && TextLess(b, c)
    ensures TextLess(a, c)
  {
    if a != "" && a[0] == b[0] == c[0] { TextLessIsTransitive(a[1..], b[1..], c[1..]); }
  }

  /** A shared beginning does not count. */
  lemma {:induction false} SharedFront(front: string, a: string, b: string)
    ensures TextLess(front + a, front + b) <==> TextLess(a, b)
  {
    if front == "" {
      assert front + a == a && front + b == b;
    } else {
      SharedFront(front[1..], a, b);
      assert (front + a)[1..] == front[1..] + a && (front + b)[1..] == front[1..] + b;
    }
  }

  /** Nor does a shared end, between texts of one length. */
  lemma {:induction false} SharedEnd(a: string, b: string, end: string)
    requires |a| == |b|
    ensures TextLess(a + end, b + end) <==> TextLess(a, b)
  {
    if a == "" {
      TextLessIsTotal(end, end);
      assert a + end == end && b + end == end;
    } else {
      SharedEnd(a[1..], b[1..], end);
      assert (a + end)[1..] == a[1..] + end && (b + end)[1..] == b[1..] + end;
    }
  }

  lemma {:induction false} LastDecides(a: string, b: string, c: char, d: char)
    requires |a| == |b|
    ensures TextLess(a + [c], b + [d]) <==> TextLess(a, b) || (a == b && c < d)
  {
    if a == "" {
      assert [c][1..] == "" && [d][1..] == "";
      assert a + [c] == [c] && b + [d] == [d];
    } else {
      LastDecides(a[1..], b[1..], c, d);
      assert (a + [c])[1..] == a[1..] + [c] && (b + [d])[1..] == b[1..] + [d];
      assert a == [a[0]] + a[1..] && b == [b[0]] + b[1..];
    }
  }

  lemma DecDetermines(x: nat, y: nat)
    ensures Dec(x) == Dec(y) <==> x == y
  {
    DecRoundTrip(x);
    DecRoundTrip(y);
  }

  lemma {:induction false} EqualWidthCompares(x: nat, y: nat)
    requires |Dec(x)| == |Dec(y)|
    ensures TextLess(Dec(x), Dec(y)) <==> x < y
  {
    if x < 10 {
      LastDecides("", "", Digit(x), Digit(y % 10));
      assert Dec(x) == "" + [Digit(x)];
      assert y < 10 ==> Dec(y) == "" + [Digit(y)];
    } else {
      EqualWidthCompares(x / 10, y / 10);
      DecDetermines(x / 10, y / 10);
      LastDecides(Dec(x / 10), Dec(y / 10), Digit(x % 10), Digit(y % 10));
    }
  }

  /** Between numbers of one width the two keys are the same. */
  lemma KeysMatch(x: nat, y: nat)
    requires |Dec(x)| == |Dec(y)|
    ensures TextKey(x, y) <==> NumberKey(x, y)
  {
    SharedFront("('10.0.0.", Dec(x) + "', 9999)", Dec(y) + "', 9999)");
    SharedEnd(Dec(x), Dec(y), "', 9999)");
    EqualWidthCompares(x, y);
  }

  lemma ReprDetermines(x: nat, y: nat)
    ensures Repr(x) == Repr(y) <==> x == y
  {
    var front, end := "('10.0.0.", "', 9999)";
    if Repr(x) == Repr(y) {
      assert Repr(x)[|front|..] == Dec(x) + end && Repr(y)[|front|..] == Dec(y) + end;
      assert (Dec(x) + end)[..|Dec(x)|] == Dec(x) && (Dec(y) + end)[..|Dec(y)|] == Dec(y);
      DecDetermines(x, y);
    }
  }

  /** Both keys order the addresses. */
  lemma KeysAreOrders()
    ensures StrictTotal(NumberKey) && StrictTotal(TextKey)
  {
    forall x: nat, y: nat ensures !TextKey(x, x) && (x == y || TextKey(x, y) || TextKey(y, x)) {
      TextLessIsTotal(Repr(x), Repr(y));
      ReprDetermines(x, y);
    }
    forall x: nat, y: nat, z: nat | TextKey(x, y) && TextKey(y, z) ensures TextKey(x, z) {
      TextLessIsTransitive(Repr(x), Repr(y), Repr(z));
    }
  }

  lemma DigitsDecide(two: nat, ten: nat, twenty: nat)
    requires Dec(two) == ['2'] && Dec(ten) == ['1', '0'] && Dec(twenty) == ['2', '0']
    ensures TextKey(ten, two) && TextKey(two, twenty)
  {
    var end := "', 9999)";
    var a, b, c := Dec(two) + end, Dec(ten) + end, Dec(twenty) + end;
    assert b[0] == '1' && a[0] == '2' && c[0] == '2';
    assert a[1..] == end && c[1..][0] == '0' && end[0] == '\'';
    SharedFront("('10.0.0.", b, a);
    SharedFront("('10.0.0.", a, c);
  }

  /** 10.0.0.2, 10.0.0.10 and 10.0.0.20: with the first in use and dead, the probe goes on to .10
      and the plugin to .20. */
  lemma KeysPart(two: nat, ten: nat, twenty: nat, answer: seq<nat>)
    requires two == 2 && ten == 10 && twenty == 20 && answer == [two, ten, twenty]
    ensures !AgreeAlways(NumberKey, TextKey, answer)
    ensures Run(NumberKey, Start(NumberKey, answer), Blackout(answer, 5)).current == ten
    ensures ReadRun(TextKey, BlackoutReads(answer, 5)).selected == Some(twenty)
  {
    KeysAreOrders();
    assert Dec(2) == ['2'] && Dec(1) == ['1'] && Dec(10) == ['1', '0'] && Dec(20) == ['2', '0'];
    DigitsDecide(two, ten, twenty);
    ThreeAddressesPart(NumberKey, TextKey, two, ten, twenty);
  }

  /** Addresses whose last numbers have one width are visited in one order by both sides. */
  lemma {:induction false} EqualWidthsAgree(answer: seq<nat>, width: nat)
    requires Distinct(answer) && |answer| >= 2
    requires forall x | x in answer :: |Dec(x)| == width
    ensures AgreeAlways(NumberKey, TextKey, answer)
  {
    KeysAreOrders();
    var p, q := CanonicalOrder(TextKey, answer), CanonicalOrder(NumberKey, answer);
    CanonicalSpec(TextKey, answer);
    CanonicalSpec(NumberKey, answer);
    forall i, j | 0 <= i < j < |p| ensures NumberKey(p[i], p[j]) {
      assert p[i] in Elems(p) && p[j] in Elems(p);
      KeysMatch(p[i], p[j]);
      assert TextKey(p[i], p[j]);
    }
    SortedIsDeterminedBySet(NumberKey, p, q);
    SuccessorsDecide(NumberKey, TextKey, answer);
  }
}
