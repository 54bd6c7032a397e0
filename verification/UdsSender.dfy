/** The Unix-socket line sender: what a reader of each connection receives when any write may
    stop part-way and any reconnect may fail. */
module UdsSender {
  import Text

  /** How one `write_all` and, after an error, the reconnect end. */
  datatype Io = Whole | Torn(accepted: nat, reconnected: bool)

  datatype Attempt = Attempt(line: string, io: Io)

  predicate IsLine(l: string) {
    && |l| > 0
    && l[|l| - 1] == '\n'
    && '\n' !in l[..|l| - 1]
  }

  /** An error is reported only while bytes remain to be written. */
  predicate Possible(a: Attempt) {
    && IsLine(a.line)
    && (a.io.Torn? ==> a.io.accepted < |a.line|)
  }

  predicate PossibleScript(script: seq<Attempt>) {
    forall a | a in script :: Possible(a)
  }

  /** Bytes received per connection, the open one last. A failed write leaves its accepted bytes
      behind; only a successful reconnect opens a new connection. */
  function Flush(conns: seq<string>, a: Attempt): (after: seq<string>)
    requires conns != [] && Possible(a)
    ensures after != []
  {
    var last := |conns| - 1;
    match a.io
    case Whole => conns[last := conns[last] + a.line]
    case Torn(k, reconnected) =>
      var torn := conns[last := conns[last] + a.line[..k]];
      if reconnected then torn + [""] else torn
  }

  function Wire(script: seq<Attempt>): (conns: seq<string>)
    requires PossibleScript(script)
    ensures conns != []
  {
    if script == [] then [""]
    else Flush(Wire(script[..|script| - 1]), script[|script| - 1])
  }

  /** The lines whose send returned Ok. */
  function Acked(script: seq<Attempt>): seq<string> {
    if script == [] then []
    else
      var a := script[|script| - 1];
      Acked(script[..|script| - 1]) + if a.io.Whole? then [a.line] else []
  }

  /** What a write leaves on its connection. */
  function Sent(a: Attempt): string
    requires Possible(a)
  {
    if a.io.Whole? then a.line else a.line[..a.io.accepted]
  }

  /** How many connections have been replaced. */
  function Reconnects(script: seq<Attempt>): nat {
    if script == [] then 0
    else
      var a := script[|script| - 1];
      Reconnects(script[..|script| - 1]) + if a.io.Torn? && a.io.reconnected then 1 else 0
  }

  /** What the attempts made on the `j`-th connection left there, in order. */
  function SentOn(script: seq<Attempt>, j: nat): string
    requires PossibleScript(script)
  {
    if script == [] then ""
    else
      var front, a := script[..|script| - 1], script[|script| - 1];
      assert a in script;
      SentOn(front, j) + if Reconnects(front) == j then Sent(a) else ""
  }

  /** Each connection's bytes are exactly the accepted bytes of the attempts made on it, in order,
      and there is one connection more than there were successful reconnects. */
  lemma {:induction false} WireIsSent(script: seq<Attempt>)
    requires PossibleScript(script)
    ensures |Wire(script)| == Reconnects(script) + 1
    ensures forall j | 0 <= j < |Wire(script)| :: Wire(script)[j] == SentOn(script, j)
    ensures forall j: nat | j > Reconnects(script) :: SentOn(script, j) == ""
  {
    if script != [] {
      var front, a := script[..|script| - 1], script[|script| - 1];
      WireIsSent(front);
      assert a in script;
      var conns := Wire(front);
      forall j | 0 <= j < |Wire(script)| ensures Wire(script)[j] == SentOn(script, j) {
        if j < |conns| - 1 {
          assert conns[j] + "" == conns[j];
        }
      }
    }
  }

  // ----- the reader

  /** What follows the last newline. */
  function Tail(b: string): string {
    if b == "" || b[|b| - 1] == '\n' then "" else Tail(b[..|b| - 1]) + [b[|b| - 1]]
  }

  /** The complete lines, newline included. */
  function Lines(b: string): seq<string> {
    if b == "" then []
    else
      var front := b[..|b| - 1];
      if b[|b| - 1] == '\n' then Lines(front) + [Tail(front) + ['\n']] else Lines(front)
  }

  function Recovered(conns: seq<string>): seq<string> {
    if conns == [] then [] else Recovered(conns[..|conns| - 1]) + Lines(conns[|conns| - 1])
  }

  function Concat(parts: seq<string>): string {
    if parts == [] then "" else Concat(parts[..|parts| - 1]) + parts[|parts| - 1]
  }

  lemma ConcatSnoc(parts: seq<string>, l: string)
    ensures Concat(parts + [l]) == Concat(parts) + l
  {
  }

  /** One more byte. */
  lemma ReadByte(b: string, c: char)
    ensures Tail(b + [c]) == if c == '\n' then "" else Tail(b) + [c]
    ensures Lines(b + [c]) == if c == '\n' then Lines(b) + [Tail(b) + ['\n']] else Lines(b)
  {
  }

  lemma {:induction false} TailHasNoNewline(b: string)
    ensures '\n' !in Tail(b)
  {
    if b != "" {
      var front, c := b[..|b| - 1], b[|b| - 1];
      assert b == front + [c];
      TailHasNoNewline(front);
      ReadByte(front, c);
    }
  }

  lemma {:induction false} LinesAreLines(b: string)
    ensures forall l | l in Lines(b) :: IsLine(l)
  {
    if b != "" {
      var front, c := b[..|b| - 1], b[|b| - 1];
      LinesAreLines(front);
      ReadByte(front, c);
      assert b == front + [c];
      TailHasNoNewline(front);
      var l := Tail(front) + ['\n'];
      assert l[..|l| - 1] == Tail(front);
    }
  }

  /** Splitting loses nothing. */
  lemma {:induction false} SplitIsExact(b: string)
    ensures Concat(Lines(b)) + Tail(b) == b
  {
    if b != "" {
      var front, c := b[..|b| - 1], b[|b| - 1];
      assert b == front + [c];
      SplitIsExact(front);
      ReadByte(front, c);
      if c == '\n' {
        ConcatSnoc(Lines(front), Tail(front) + [c]);
        assert Concat(Lines(front)) + (Tail(front) + [c]) == front + [c];
      } else {
        assert Concat(Lines(front)) + (Tail(front) + [c]) == front + [c];
      }
    }
  }

  lemma {:induction false} AppendFragment(b: string, t: string)
    requires '\n' !in t
    ensures Lines(b + t) == Lines(b) && Tail(b + t) == Tail(b) + t
  {
    if t == "" {
      assert b + t == b && Tail(b) + t == Tail(b);
    } else {
      var front, c := t[..|t| - 1], t[|t| - 1];
      assert c in t;
      assert t == front + [c];
      AppendFragment(b, front);
      ReadByte(b + front, c);
      Text.Regroup(b, front, [c]);
      Text.Regroup(Tail(b), front, [c]);
    }
  }

  lemma {:induction false} AppendBody(b: string, body: string)
    requires '\n' !in body
    ensures Lines(b + (body + ['\n'])) == Lines(b) + [Tail(b) + body + ['\n']]
    ensures Tail(b + (body + ['\n'])) == ""
  {
    AppendFragment(b, body);
    ReadByte(b + body, '\n');
    assert b + (body + ['\n']) == b + body + ['\n'];
  }

  lemma AppendLine(b: string, l: string)
    requires IsLine(l)
    ensures Lines(b + l) == Lines(b) + [Tail(b) + l] && Tail(b + l) == ""
  {
    var body := l[..|l| - 1];
    assert l == body + ['\n'];
    AppendBody(b, body);
    assert Tail(b) + (body + ['\n']) == Tail(b) + body + ['\n'];
  }

  // ----- what is recovered

  /** The unfinished bytes the next write would be appended to. */
  function Pending(script: seq<Attempt>): string
    requires PossibleScript(script)
  {
    if script == [] then ""
    else
      var front, a := script[..|script| - 1], script[|script| - 1];
      assert a in script;
      if a.io.Whole? || a.io.reconnected then ""
      else Pending(front) + a.line[..a.io.accepted]
  }

  /** The lines a reader sees: every acknowledged line, behind whatever was pending before it. */
  function Delivered(script: seq<Attempt>): seq<string>
    requires PossibleScript(script)
  {
    if script == [] then []
    else
      var front, a := script[..|script| - 1], script[|script| - 1];
      Delivered(front) + if a.io.Whole? then [Pending(front) + a.line] else []
  }

  lemma ReplaceLast(conns: seq<string>, b: string)
    requires conns != []
    ensures Recovered(conns[|conns| - 1 := b]) == Recovered(conns[..|conns| - 1]) + Lines(b)
  {
  }

  lemma OpenEmpty(conns: seq<string>)
    ensures Recovered(conns + [""]) == Recovered(conns)
  {
  }

  lemma FlushStep(conns: seq<string>, a: Attempt)
    requires conns != [] && Possible(a)
    ensures var after, pending := Flush(conns, a), Tail(conns[|conns| - 1]);
      && Recovered(after) == Recovered(conns) + (if a.io.Whole? then [pending + a.line] else [])
      && Tail(after[|after| - 1]) ==
           (if a.io.Whole? || a.io.reconnected then "" else pending + a.line[..a.io.accepted])
  {
    var last := |conns| - 1;
    match a.io {
      case Whole =>
        AppendLine(conns[last], a.line);
        ReplaceLast(conns, conns[last] + a.line);
      case Torn(k, reconnected) =>
        var t := a.line[..k];
        assert forall i | 0 <= i < k :: t[i] == a.line[..|a.line| - 1][i];
        AppendFragment(conns[last], t);
        ReplaceLast(conns, conns[last] + t);
        OpenEmpty(conns[last := conns[last] + t]);
    }
  }

  lemma OneMoreAttempt(script: seq<Attempt>, a: Attempt)
    requires PossibleScript(script) && Possible(a)
    ensures PossibleScript(script + [a])
    ensures Acked(script + [a]) == Acked(script) + if a.io.Whole? then [a.line] else []
    ensures Delivered(script + [a]) == Delivered(script) + if a.io.Whole? then [Pending(script) + a.line] else []
    ensures Pending(script + [a]) ==
      if a.io.Whole? || a.io.reconnected then "" else Pending(script) + a.line[..a.io.accepted]
  {
  }

  /** One more attempt on connections that deliver what they should. */
  lemma {:induction false} DeliversStep(front: seq<Attempt>, a: Attempt, conns: seq<string>)
    requires PossibleScript(front) && Possible(a) && conns != []
    requires Recovered(conns) == Delivered(front) && Tail(conns[|conns| - 1]) == Pending(front)
    ensures PossibleScript(front + [a])
    ensures var after := Flush(conns, a);
      Recovered(after) == Delivered(front + [a]) && Tail(after[|after| - 1]) == Pending(front + [a])
  {
    OneMoreAttempt(front, a);
    FlushStep(conns, a);
  }

  lemma {:induction false} WireDelivers(script: seq<Attempt>)
    requires PossibleScript(script)
    ensures var conns := Wire(script);
      Recovered(conns) == Delivered(script) && Tail(conns[|conns| - 1]) == Pending(script)
  {
    if script == [] {
      OpenEmpty([]);
      assert Wire(script) == [] + [""];
    } else {
      var front, a := script[..|script| - 1], script[|script| - 1];
      WireDelivers(front);
      assert a in script;
      DeliversStep(front, a, Wire(front));
      assert script == front + [a];
    }
  }

  /** A write failed after some bytes, its reconnect failed too, and since then neither a
      reconnect nor a whole line went through. */
  predicate Dirty(script: seq<Attempt>) {
    if script == [] then false
    else
      var front, a := script[..|script| - 1], script[|script| - 1];
      if a.io.Whole? || a.io.reconnected then false
      else Dirty(front) || a.io.accepted > 0
  }

  /** Some line went through whole on a stream still holding a torn frame. */
  predicate WritesOverTear(script: seq<Attempt>) {
    if script == [] then false
    else
      var front, a := script[..|script| - 1], script[|script| - 1];
      WritesOverTear(front) || (a.io.Whole? && Dirty(front))
  }

  lemma {:induction false} DirtyIsPending(script: seq<Attempt>)
    requires PossibleScript(script)
    ensures Dirty(script) <==> Pending(script) != ""
  {
    if script != [] {
      var front, a := script[..|script| - 1], script[|script| - 1];
      DirtyIsPending(front);
      assert a in script && Possible(a);
      assert a.io.Torn? ==> |a.line[..a.io.accepted]| == a.io.accepted;
    }
  }

  lemma SnocEqual(a: seq<string>, x: string, b: seq<string>, y: string)
    ensures a + [x] == b + [y] <==> a == b && x == y
  {
    if a + [x] == b + [y] {
      assert |a| == |b| && (a + [x])[|a|] == (b + [y])[|b|];
      assert a == (a + [x])[..|a|] == (b + [y])[..|b|] == b;
    }
  }

  lemma PrefixVanishes(p: string, l: string)
    ensures p + l == l <==> p == ""
  {
  }

  lemma {:induction false} DeliveredIsAcked(script: seq<Attempt>)
    requires PossibleScript(script)
    ensures |Delivered(script)| == |Acked(script)|
    ensures Delivered(script) == Acked(script) <==> !WritesOverTear(script)
  {
    if script != [] {
      var front, a := script[..|script| - 1], script[|script| - 1];
      DeliveredIsAcked(front);
      DirtyIsPending(front);
      var d, k := Delivered(script), Acked(script);
      if a.io.Whole? {
        assert d == Delivered(front) + [Pending(front) + a.line] && k == Acked(front) + [a.line];
        SnocEqual(Delivered(front), Pending(front) + a.line, Acked(front), a.line);
        PrefixVanishes(Pending(front), a.line);
      } else {
        assert d == Delivered(front) && k == Acked(front);
      }
    }
  }

  /** A reader recovers exactly the acknowledged lines, in order and without duplicates, if and
      only if no line was written whole over a torn frame left by a failed reconnect. */
  lemma RecoversExactly(script: seq<Attempt>)
    requires PossibleScript(script)
    ensures Recovered(Wire(script)) == Acked(script) <==> !WritesOverTear(script)
  {
    WireDelivers(script);
    DeliveredIsAcked(script);
  }

  lemma JustTorn(a: Attempt)
    requires Possible(a) && a.io.Torn? && !a.io.reconnected
    ensures PossibleScript([a]) && Acked([a]) == [] && Delivered([a]) == []
    ensures Pending([a]) == a.line[..a.io.accepted]
  {
  }

  /** The shortest failing runs: a torn frame, a failed reconnect, then a line that goes through
      comes out with the fragment glued to its front. */
  lemma StaleStreamCorruptsALine(line: string, k: nat)
    requires IsLine(line) && 0 < k < |line|
    ensures var script := [Attempt(line, Torn(k, false)), Attempt(line, Whole)];
      PossibleScript(script) && Acked(script) == [line] && Recovered(Wire(script)) == [line[..k] + line]
  {
    var first, second := Attempt(line, Torn(k, false)), Attempt(line, Whole);
    JustTorn(first);
    OneMoreAttempt([first], second);
    assert [first] + [second] == [first, second];
    WireDelivers([first, second]);
  }

  ghost predicate AllReconnect(script: seq<Attempt>) {
    forall a | a in script :: a.io.Torn? ==> a.io.reconnected
  }

  /** Everything after the last newline is a proper prefix of a line whose send failed. */
  ghost predicate EndsTorn(conn: string, script: seq<Attempt>) {
    Tail(conn) == "" || exists a :: a in script && a.io.Torn? && Possible(a) && Tail(conn) == a.line[..a.io.accepted]
  }

  /** What a flush adds: the open connection grows, and a new one is empty. */
  lemma FlushAdds(conns: seq<string>, a: Attempt, c: string)
    requires conns != [] && Possible(a) && c in Flush(conns, a) && c !in conns
    ensures c == "" || c == conns[|conns| - 1] + if a.io.Torn? then a.line[..a.io.accepted] else a.line
  {
  }

  lemma FlushEndsTorn(conns: seq<string>, a: Attempt, script: seq<Attempt>, c: string)
    requires conns != [] && Possible(a) && a in script && Tail(conns[|conns| - 1]) == ""
    requires c in Flush(conns, a) && c !in conns
    ensures EndsTorn(c, script)
  {
    var b := conns[|conns| - 1];
    FlushAdds(conns, a, c);
    if a.io.Torn? {
      var t := a.line[..a.io.accepted];
      assert forall i | 0 <= i < |t| :: t[i] == a.line[..|a.line| - 1][i];
      AppendFragment(b, t);
    } else {
      AppendLine(b, a.line);
    }
  }

  lemma {:induction false} TearsAreLast(script: seq<Attempt>)
    requires PossibleScript(script) && AllReconnect(script)
    ensures forall c | c in Wire(script) :: EndsTorn(c, script)
    ensures !Dirty(script) && !WritesOverTear(script)
  {
    if script != [] {
      var front, a := script[..|script| - 1], script[|script| - 1];
      TearsAreLast(front);
      assert a in script && forall b | b in front :: b in script;
      DirtyIsPending(front);
      WireDelivers(front);
      forall c | c in Wire(script) ensures EndsTorn(c, script) {
        if c in Wire(front) {
          assert EndsTorn(c, front);
        } else {
          FlushEndsTorn(Wire(front), a, script, c);
        }
      }
    }
  }

  /** No torn frame: while every reconnect succeeds, each connection carries whole lines and then
      at most one proper prefix of a line, and the whole lines are the acknowledged ones. */
  lemma NoTornFrame(script: seq<Attempt>)
    requires PossibleScript(script) && AllReconnect(script)
    ensures Recovered(Wire(script)) == Acked(script)
    ensures forall c | c in Wire(script) ::
      c == Concat(Lines(c)) + Tail(c) && (forall l | l in Lines(c) :: IsLine(l)) && EndsTorn(c, script)
  {
    RecoversExactly(script);
    TearsAreLast(script);
    forall c | c in Wire(script)
      ensures c == Concat(Lines(c)) + Tail(c) && forall l | l in Lines(c) :: IsLine(l)
    {
      SplitIsExact(c);
      LinesAreLines(c);
    }
  }
}
