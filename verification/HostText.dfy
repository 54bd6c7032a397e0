/** The `Host` values of the plugin configuration: hostname, optional port, series label. */
module HostText {
  import opened Wrappers
  import opened Text

  predicate ValidPort(p: int) {
    1 <= p <= 65535
  }

  /** Strict decimal ports; anything else falls back to the global port. */
  function ParsePort(s: string): (p: Option<nat>)
    ensures forall n :: p == Some(n) <==> ParseNat(s) == Some(n) && ValidPort(n)
  {
    var p := ParseNat(s);
    if p.Some? && ValidPort(p.value) then p else None
  }

  function Count(s: string, c: char): nat {
    if s == "" then 0 else (if s[0] == c then 1 else 0) + Count(s[1..], c)
  }

  /** Splits a Host value. With one colon, the first and the last are the same. */
  function SplitHostPort(raw: string): (r: (string, Option<nat>))
    ensures r.1.Some? ==> ValidPort(r.1.value)
  {
    if raw != "" && raw[0] == '[' then
      var cut := Cut(raw, ']');
      if cut.None? then (raw, None)
      else
        var (addr, rest) := cut.value;
        var host := addr[1..];
        if rest != "" && rest[0] == ':' then (host, ParsePort(rest[1..])) else (host, None)
    else if Count(raw, ':') >= 2 then (raw, None)
    else
      var cut := Cut(raw, ':');
      if cut.Some? then (cut.value.0, ParsePort(cut.value.1)) else (raw, None)
  }

  /** How an operator writes an optional port. */
  function PortSuffix(port: Option<nat>): string {
    if port.Some? then ":" + Dec(port.value) else ""
  }

  lemma PortRoundTrip(port: nat)
    requires ValidPort(port)
    ensures ParsePort(Dec(port)) == Some(port)
  {
    DecRoundTrip(port);
  }

  lemma {:induction false} CountAbsent(s: string, c: char)
    ensures Count(s, c) == 0 <==> c !in s
  {
    if s != "" {
      CountAbsent(s[1..], c);
      assert s == [s[0]] + s[1..];
    }
  }

  lemma {:induction false} CountJoin(a: string, b: string, c: char)
    ensures Count(a + b, c) == Count(a, c) + Count(b, c)
  {
    if a == "" {
      assert a + b == b;
    } else {
      CountJoin(a[1..], b, c);
      assert (a + b)[1..] == a[1..] + b;
    }
  }

  /** The shapes a Host value can have. */
  datatype Form =
    | Bracketed(host: string, rest: string)
    | Ported(host: string, port: string)
    | Bare(text: string)

  predicate OpensBracket(s: string) {
    s != "" && s[0] == '['
  }

  predicate Proper(f: Form) {
    match f
    case Bracketed(host, _) => ']' !in host
    case Ported(host, port) => !OpensBracket(host) && ':' !in host && ':' !in port
    case Bare(text) => if OpensBracket(text) then ']' !in text else Count(text, ':') != 1
  }

  function Written(f: Form): string {
    match f
    case Bracketed(host, rest) => "[" + host + "]" + rest
    case Ported(host, port) => host + ":" + port
    case Bare(text) => text
  }

  /** What a shape means: only the port of a `:` after the bracket, or of the one colon, counts,
      and an unusable port is as good as none. */
  function Meaning(f: Form): (string, Option<nat>) {
    match f
    case Bracketed(host, rest) => (host, if rest != "" && rest[0] == ':' then ParsePort(rest[1..]) else None)
    case Ported(host, port) => (host, ParsePort(port))
    case Bare(text) => (text, None)
  }

  lemma OneColon(a: string, b: string)
    requires ':' !in a && ':' !in b
    ensures Count(a + ":" + b, ':') == 1
  {
    CountAbsent(a, ':');
    CountAbsent(b, ':');
    CountJoin(a + ":", b, ':');
    CountJoin(a, ":", ':');
    assert Count(":", ':') == 1 + Count(":"[1..], ':');
  }

  /** Every text is the writing of one of the shapes. */
  lemma EveryTextHasAForm(raw: string) returns (f: Form)
    ensures Proper(f) && Written(f) == raw
  {
    f := Bare(raw);
    if OpensBracket(raw) {
      var cut := Cut(raw, ']');
      if cut.Some? {
        var (addr, rest) := cut.value;
        assert addr[0] == raw[0] && addr == "[" + addr[1..];
        f := Bracketed(addr[1..], rest);
      }
    } else if Count(raw, ':') == 1 {
      var cut := Cut(raw, ':');
      CountAbsent(raw, ':');
      var (host, port) := cut.value;
      assert raw == host + ":" + port;
      CountJoin(host + ":", port, ':');
      CountJoin(host, ":", ':');
      assert Count(":", ':') == 1 + Count(":"[1..], ':');
      CountAbsent(port, ':');
      f := Ported(host, port);
    }
  }

  /** And every shape is read back as what it means. */
  lemma SplitReadsForms(f: Form)
    requires Proper(f)
    ensures SplitHostPort(Written(f)) == Meaning(f)
  {
    match f {
      case Bracketed(host, rest) => BracketSplit(host, rest);
      case Ported(host, port) => PortSplit(host, port);
      case Bare(text) => CountAbsent(text, ':');
    }
  }

  lemma BracketSplit(host: string, rest: string)
    requires ']' !in host
    ensures SplitHostPort("[" + host + "]" + rest) == Meaning(Bracketed(host, rest))
  {
    var addr := "[" + host;
    CutJoin(addr, ']', rest);
    assert addr + "]" + rest == addr + [']'] + rest;
    assert addr[1..] == host;
  }

  lemma PortSplit(host: string, port: string)
    requires Proper(Ported(host, port))
    ensures SplitHostPort(host + ":" + port) == (host, ParsePort(port))
  {
    var raw := host + ":" + port;
    assert raw == host + [':'] + port && raw[0] == (host + [':'])[0];
    OneColon(host, port);
    CutJoin(host, ':', port);
  }

  /** A colon-free host, with or without a port, is read back exactly. */
  lemma PlainRoundTrip(host: string, port: Option<nat>)
    requires ':' !in host && !OpensBracket(host) && (port.Some? ==> ValidPort(port.value))
    ensures SplitHostPort(host + PortSuffix(port)) == (host, port)
  {
    if port.None? {
      assert host + PortSuffix(port) == host;
      CountAbsent(host, ':');
      SplitReadsForms(Bare(host));
    } else {
      var digits := Dec(port.value);
      Regroup(host, ":", digits);
      SplitReadsForms(Ported(host, digits));
      PortRoundTrip(port.value);
    }
  }

  /** A bracketed host, colons and all, is read back exactly. */
  lemma BracketRoundTrip(host: string, port: Option<nat>)
    requires ']' !in host && (port.Some? ==> ValidPort(port.value))
    ensures SplitHostPort("[" + host + "]" + PortSuffix(port)) == (host, port)
  {
    SplitReadsForms(Bracketed(host, PortSuffix(port)));
    if port.Some? {
      assert PortSuffix(port)[1..] == Dec(port.value);
      PortRoundTrip(port.value);
    }
  }

  /** A bare literal with two or more colons is never split. */
  lemma BareLiteralIsKept(host: string)
    requires Count(host, ':') >= 2 && !OpensBracket(host)
    ensures SplitHostPort(host) == (host, None)
  {
  }

  /** The way back: whenever a port is taken from a Host value, the value is that host and the
      decimal text of that port, with or without brackets. */
  lemma SplitIsSound(raw: string) returns (digits: string)
    ensures var (host, port) := SplitHostPort(raw);
      port.Some? ==>
        && ParseNat(digits) == port && ValidPort(port.value)
        && (raw == host + ":" + digits || raw == "[" + host + "]:" + digits)
  {
    digits := "";
    var (host, port) := SplitHostPort(raw);
    if port.Some? {
      if raw[0] == '[' {
        var (addr, rest) := Cut(raw, ']').value;
        digits := rest[1..];
        assert addr[0] == raw[0];
        assert addr == "[" + host && rest == ":" + digits;
        assert raw == "[" + host + "]:" + digits;
      } else {
        digits := Cut(raw, ':').value.1;
      }
    }
  }

  /** The series a target reports under. */
  function SeriesLabel(hostname: string, hostPort: Option<nat>): string {
    if hostPort.None? then hostname else hostname + "_" + Dec(hostPort.value)
  }

  lemma LastUnderscore(a: string, m: string, b: string, n: string)
    requires '_' !in m && a + "_" + m == b + "_" + n
    ensures |a| >= |b|
  {
    var s := a + "_" + m;
    assert s[|b|] == '_';
  }

  /** Text before an underscore and a number determines both. */
  lemma {:induction false} UnderscoreSplits(a: string, m: nat, b: string, n: nat)
    ensures a + "_" + Dec(m) == b + "_" + Dec(n) <==> a == b && m == n
  {
    var s, t := a + "_" + Dec(m), b + "_" + Dec(n);
    if s == t {
      assert forall c | c in Dec(m) || c in Dec(n) :: IsDigit(c);
      LastUnderscore(a, Dec(m), b, Dec(n));
      LastUnderscore(b, Dec(n), a, Dec(m));
      assert a == s[..|a|] && b == t[..|b|];
      assert Dec(m) == s[|a| + 1..] && Dec(n) == t[|b| + 1..];
      DecRoundTrip(m);
      DecRoundTrip(n);
    }
  }

  /** When two targets report as one series: with ports of their own, only if they are the same
      target; without, only under one hostname; and one with and one without exactly if the bare
      hostname spells out the other with its port. */
  lemma LabelsMeet(h1: string, p1: Option<nat>, h2: string, p2: Option<nat>)
    ensures p1.None? ==> SeriesLabel(h1, p1) == h1
    ensures SeriesLabel(h1, p1) == SeriesLabel(h2, p2) <==>
      match (p1, p2)
      case (None, None) => h1 == h2
      case (Some(m), Some(n)) => h1 == h2 && m == n
      case (None, Some(n)) => h1 == h2 + "_" + Dec(n)
      case (Some(m), None) => h2 == h1 + "_" + Dec(m)
  {
    if p1.Some? && p2.Some? { UnderscoreSplits(h1, p1.value, h2, p2.value); }
  }
}
