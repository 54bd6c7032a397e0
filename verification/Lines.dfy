/** The PUTVAL and Influx wire formats and the readers that take them apart again. */
module Lines {
  import opened Wrappers
  import opened Text
  import UdsSender

  /** Names keep ASCII letters, digits, hyphen and dot. */
  predicate SafeChar(c: char) {
    'a' <= c <= 'z' || 'A' <= c <= 'Z' || IsDigit(c) || c == '-' || c == '.'
  }

  predicate SafeName(s: string) {
    forall c | c in s :: SafeChar(c) || c == '_'
  }

  function Sanitize(s: string): (r: string)
    ensures |r| == |s| && SafeName(r)
    ensures forall i | 0 <= i < |s| :: r[i] == if SafeChar(s[i]) then s[i] else '_'
  {
    if s == "" then "" else [if SafeChar(s[0]) then s[0] else '_'] + Sanitize(s[1..])
  }

  /** Sanitising changes nothing exactly when the name is already clean. */
  lemma SanitizeKeepsSafeNames(s: string)
    ensures Sanitize(s) == s <==> SafeName(s)
  {
  }

  predicate FloatChar(c: char) {
    IsDigit(c) || c == '-' || c == '.' || c == 'e' || c == 'E' || c == 'i' || c == 'n' || c == 'f'
    || c == 'N' || c == 'a'
  }

  /** Float text as the formatter produces it: at most 24 bytes, none of them a delimiter. */
  predicate FloatText(v: string) {
    |v| <= 24 && forall c | c in v :: FloatChar(c)
  }

  predicate Printable(v: Option<string>) {
    v.Some? ==> FloatText(v.value)
  }

  // ----- PUTVAL

  function PutvalPrefix(host: string, target: string, secs: nat): string {
    "PUTVAL " + host + "/wire-probe-tcp/latency-" + target + " interval=" + Dec(secs) + " N:"
  }

  function PutvalLine(prefix: string, v: Option<string>): string {
    prefix + (if v.Some? then v.value else "U") + "\n"
  }

  /** Reads a PUTVAL line back: host, target, interval and the value or `U`. */
  function DecodePutval(line: string): Option<(string, string, nat, Option<string>)> {
    var s1 :- Strip("PUTVAL ", line);
    var (host, s2) :- Cut(s1, '/');
    var s3 :- Strip("wire-probe-tcp/latency-", s2);
    var (target, s4) :- Cut(s3, ' ');
    var s5 :- Strip("interval=", s4);
    var (digits, s6) :- Cut(s5, ' ');
    var secs :- ParseNat(digits);
    var s7 :- Strip("N:", s6);
    var (v, rest) :- Cut(s7, '\n');
    if rest != "" then None else Some((host, target, secs, if v == "U" then None else Some(v)))
  }

  /** `a`, then the literal `lit` that starts with `c`, then `b`: cutting at `c` and stripping
      the rest of the literal leaves `b`. */
  lemma CutAndStrip(a: string, c: char, lit: string, b: string)
    requires c !in a
    ensures Cut(a + ([c] + lit + b), c) == Some((a, lit + b))
    ensures Strip(lit, lit + b) == Some(b)
  {
    Regroup([c], lit, b);
    Regroup(a, [c], lit + b);
    CutJoin(a, c, lit + b);
    StripJoin(lit, b);
  }

  lemma PutvalShape(host: string, target: string, secs: nat, v: Option<string>)
    ensures var text := (if v.Some? then v.value else "U") + (['\n'] + "" + "");
      PutvalLine(PutvalPrefix(host, target, secs), v)
      == "PUTVAL " + (host + (['/'] + "wire-probe-tcp/latency-"
           + (target + ([' '] + "interval=" + (Dec(secs) + ([' '] + "N:" + text))))))
  {
    var text := (if v.Some? then v.value else "U") + (['\n'] + "" + "");
    var nums := Dec(secs) + ([' '] + "N:" + text);
    var tail := target + ([' '] + "interval=" + nums);
    assert "/wire-probe-tcp/latency-" == ['/'] + "wire-probe-tcp/latency-";
    assert " interval=" == [' '] + "interval=";
    assert " N:" == [' '] + "N:";
    assert "\n" == ['\n'] + "" + "";
    var p1 := "PUTVAL " + host;
    var p2 := p1 + "/wire-probe-tcp/latency-";
    var p3 := p2 + target;
    var p4 := p3 + " interval=";
    var p5 := p4 + Dec(secs);
    Regroup(p5 + " N:", if v.Some? then v.value else "U", "\n");
    Regroup(p5, " N:", text);
    Regroup(p4, Dec(secs), [' '] + "N:" + text);
    Regroup(p3, " interval=", nums);
    Regroup(p2, target, [' '] + "interval=" + nums);
    Regroup(p1, "/wire-probe-tcp/latency-", tail);
    Regroup("PUTVAL ", host, ['/'] + "wire-probe-tcp/latency-" + tail);
  }

  lemma NoDelimiters(name: string, v: string, n: nat)
    ensures SafeName(name) ==> '/' !in name && ' ' !in name && ',' !in name && '=' !in name && '\n' !in name
    ensures FloatText(v) ==> ' ' !in v && ',' !in v && '\n' !in v && v != "U"
    ensures ' ' !in Dec(n) && '\n' !in Dec(n)
  {
    if v == "U" { assert v[0] in v; }
  }

  /** A PUTVAL line decodes to exactly what it was built from, whatever the raw names were. */
  lemma PutvalDecodes(rawHost: string, rawTarget: string, secs: nat, v: Option<string>)
    requires Printable(v)
    ensures DecodePutval(PutvalLine(PutvalPrefix(Sanitize(rawHost), Sanitize(rawTarget), secs), v))
      == Some((Sanitize(rawHost), Sanitize(rawTarget), secs, v))
  {
    var host, target := Sanitize(rawHost), Sanitize(rawTarget);
    var value := if v.Some? then v.value else "U";
    NoDelimiters(host, value, secs);
    NoDelimiters(target, value, secs);
    var text := value + (['\n'] + "" + "");
    var nums := Dec(secs) + ([' '] + "N:" + text);
    var tail := target + ([' '] + "interval=" + nums);
    PutvalShape(host, target, secs, v);
    StripJoin("PUTVAL ", host + (['/'] + "wire-probe-tcp/latency-" + tail));
    CutAndStrip(host, '/', "wire-probe-tcp/latency-", tail);
    CutAndStrip(target, ' ', "interval=", nums);
    CutAndStrip(Dec(secs), ' ', "N:", text);
    CutAndStrip(value, '\n', "", "");
    DecRoundTrip(secs);
  }

  /** Hence the line determines the sanitised names, the interval and the value. */
  lemma {:induction false} PutvalIsInjective(h1: string, t1: string, s1: nat, v1: Option<string>,
                                             h2: string, t2: string, s2: nat, v2: Option<string>)
    requires Printable(v1) && Printable(v2)
    requires PutvalLine(PutvalPrefix(Sanitize(h1), Sanitize(t1), s1), v1)
      == PutvalLine(PutvalPrefix(Sanitize(h2), Sanitize(t2), s2), v2)
    ensures Sanitize(h1) == Sanitize(h2) && Sanitize(t1) == Sanitize(t2) && s1 == s2 && v1 == v2
  {
    PutvalDecodes(h1, t1, s1, v1);
    PutvalDecodes(h2, t2, s2, v2);
  }

  /** Exactly one newline, at the end. */
  lemma {:induction false} PutvalIsOneLine(rawHost: string, rawTarget: string, secs: nat, v: Option<string>)
    requires Printable(v)
    ensures UdsSender.IsLine(PutvalLine(PutvalPrefix(Sanitize(rawHost), Sanitize(rawTarget), secs), v))
  {
    var value := if v.Some? then v.value else "U";
    NoDelimiters(Sanitize(rawHost), value, secs);
    NoDelimiters(Sanitize(rawTarget), value, secs);
    var p1 := "PUTVAL " + Sanitize(rawHost);
    var p2 := p1 + "/wire-probe-tcp/latency-";
    var p3 := p2 + Sanitize(rawTarget);
    var p4 := p3 + " interval=";
    var p5 := p4 + Dec(secs);
    Free('\n', "PUTVAL ", Sanitize(rawHost));
    Free('\n', p1, "/wire-probe-tcp/latency-");
    Free('\n', p2, Sanitize(rawTarget));
    Free('\n', p3, " interval=");
    Free('\n', p4, Dec(secs));
    Free('\n', p5, " N:");
    Free('\n', p5 + " N:", value);
    OneNewline(p5 + " N:" + value);
  }

  lemma Free(c: char, a: string, b: string)
    ensures c in a + b <==> c in a || c in b
  {
  }

  lemma OneNewline(body: string)
    requires '\n' !in body
    ensures UdsSender.IsLine(body + "\n")
  {
  }

  // ----- Influx line protocol

  function InfluxPrefix(target: string, az: string): string {
    "tcp_latency,target=" + target + ",az=" + az + " "
  }

  function Fields(v: Option<string>): string {
    if v.Some? then "rtt_ms=" + v.value + ",success=1i" else "success=0i"
  }

  function InfluxLine(prefix: string, v: Option<string>, stamp: nat): string {
    prefix + Fields(v) + " " + Dec(stamp) + "\n"
  }

  /** The reading of a field set: `None` when it is malformed. */
  function DecodeFields(fields: string): Option<Option<string>> {
    if fields == "success=0i" then Some(None)
    else
      var f1 :- Strip("rtt_ms=", fields);
      var (v, f2) :- Cut(f1, ',');
      if f2 == "success=1i" then Some(Some(v)) else None
  }

  /** Reads an Influx line back: target, zone, reading and timestamp. */
  function DecodeInflux(line: string): Option<(string, string, Option<string>, nat)> {
    var s1 :- Strip("tcp_latency,target=", line);
    var (target, s2) :- Cut(s1, ',');
    var s3 :- Strip("az=", s2);
    var (az, s4) :- Cut(s3, ' ');
    var (fields, s5) :- Cut(s4, ' ');
    var v :- DecodeFields(fields);
    var (digits, rest) :- Cut(s5, '\n');
    var stamp :- ParseNat(digits);
    if rest != "" then None else Some((target, az, v, stamp))
  }

  lemma InfluxShape(target: string, az: string, v: Option<string>, stamp: nat)
    ensures var text := Dec(stamp) + (['\n'] + "" + "");
      InfluxLine(InfluxPrefix(target, az), v, stamp)
      == "tcp_latency,target=" + (target + ([','] + "az="
           + (az + ([' '] + "" + (Fields(v) + ([' '] + "" + text))))))
  {
    var text := Dec(stamp) + (['\n'] + "" + "");
    var end := Fields(v) + ([' '] + "" + text);
    var tail := az + ([' '] + "" + end);
    assert ",az=" == [','] + "az=" && " " == [' '] + "" && "\n" == ['\n'] + "" + "";
    var p1 := "tcp_latency,target=" + target;
    var p2 := p1 + ",az=";
    var p3 := p2 + az;
    var p4 := p3 + " ";
    var p5 := p4 + Fields(v);
    Regroup(p5 + " ", Dec(stamp), "\n");
    Regroup(p5, " ", text);
    Regroup(p4, Fields(v), [' '] + "" + text);
    Regroup(p3, " ", end);
    Regroup(p2, az, [' '] + "" + end);
    Regroup(p1, ",az=", tail);
    Regroup("tcp_latency,target=", target, [','] + "az=" + tail);
  }

  lemma FieldsDecode(v: Option<string>)
    requires Printable(v)
    ensures DecodeFields(Fields(v)) == Some(v)
  {
    if v.Some? {
      var end := [','] + "success=1i" + "";
      NoDelimiters("", v.value, 0);
      assert ",success=1i" == end && "success=1i" + "" == "success=1i";
      Regroup("rtt_ms=", v.value, end);
      CutAndStrip(v.value, ',', "success=1i", "");
      StripJoin("rtt_ms=", v.value + end);
      assert Fields(v)[0] == 'r';
    }
  }

  lemma FieldsAreOneWord(v: Option<string>)
    requires Printable(v)
    ensures ' ' !in Fields(v) && '\n' !in Fields(v)
  {
    if v.Some? {
      NoDelimiters("", v.value, 0);
      forall c | c == ' ' || c == '\n' ensures c !in Fields(v) {
        Free(c, "rtt_ms=", v.value);
        Free(c, "rtt_ms=" + v.value, ",success=1i");
      }
    }
  }

  /** An Influx line decodes to exactly what it was built from, whatever the raw names were. */
  lemma InfluxDecodes(rawTarget: string, rawAz: string, v: Option<string>, stamp: nat)
    requires Printable(v)
    ensures DecodeInflux(InfluxLine(InfluxPrefix(Sanitize(rawTarget), Sanitize(rawAz)), v, stamp))
      == Some((Sanitize(rawTarget), Sanitize(rawAz), v, stamp))
  {
    var target, az := Sanitize(rawTarget), Sanitize(rawAz);
    NoDelimiters(target, "", stamp);
    NoDelimiters(az, "", stamp);
    FieldsDecode(v);
    FieldsAreOneWord(v);
    var text := Dec(stamp) + (['\n'] + "" + "");
    var end := Fields(v) + ([' '] + "" + text);
    var tail := az + ([' '] + "" + end);
    InfluxShape(target, az, v, stamp);
    StripJoin("tcp_latency,target=", target + ([','] + "az=" + tail));
    CutAndStrip(target, ',', "az=", tail);
    CutAndStrip(az, ' ', "", end);
    CutAndStrip(Fields(v), ' ', "", text);
    CutAndStrip(Dec(stamp), '\n', "", "");
    assert "" + end == end && "" + text == text;
    DecRoundTrip(stamp);
  }

  /** Hence the line determines the sanitised tags, the reading or failure, and the timestamp. */
  lemma {:induction false} InfluxIsInjective(t1: string, a1: string, v1: Option<string>, n1: nat,
                                             t2: string, a2: string, v2: Option<string>, n2: nat)
    requires Printable(v1) && Printable(v2)
    requires InfluxLine(InfluxPrefix(Sanitize(t1), Sanitize(a1)), v1, n1)
      == InfluxLine(InfluxPrefix(Sanitize(t2), Sanitize(a2)), v2, n2)
    ensures Sanitize(t1) == Sanitize(t2) && Sanitize(a1) == Sanitize(a2) && v1 == v2 && n1 == n2
  {
    InfluxDecodes(t1, a1, v1, n1);
    InfluxDecodes(t2, a2, v2, n2);
  }

  /** Exactly one newline, at the end. */
  lemma InfluxIsOneLine(rawTarget: string, rawAz: string, v: Option<string>, stamp: nat)
    requires Printable(v)
    ensures UdsSender.IsLine(InfluxLine(InfluxPrefix(Sanitize(rawTarget), Sanitize(rawAz)), v, stamp))
  {
    NoDelimiters(Sanitize(rawTarget), "", stamp);
    NoDelimiters(Sanitize(rawAz), "", stamp);
    FieldsAreOneWord(v);
    var p1 := "tcp_latency,target=" + Sanitize(rawTarget);
    var p2 := p1 + ",az=";
    var p3 := p2 + Sanitize(rawAz);
    var p4 := p3 + " ";
    var p5 := p4 + Fields(v);
    Free('\n', "tcp_latency,target=", Sanitize(rawTarget));
    Free('\n', p1, ",az=");
    Free('\n', p2, Sanitize(rawAz));
    Free('\n', p3, " ");
    Free('\n', p4, Fields(v));
    Free('\n', p5, " ");
    Free('\n', p5 + " ", Dec(stamp));
    OneNewline(p5 + " " + Dec(stamp));
  }

  // ----- room needed past the prefix

  const INFLUX_HEADROOM: nat := 64
  const PUTVAL_HEADROOM: nat := 32

  /** Every Influx line fits its headroom, and fills it exactly when the float text has 24 bytes
      and the timestamp twenty digits. */
  lemma InfluxFits(prefix: string, v: Option<string>, stamp: nat)
    requires Printable(v) && stamp <= U64_MAX
    ensures |InfluxLine(prefix, v, stamp)| <= |prefix| + INFLUX_HEADROOM
    ensures |InfluxLine(prefix, v, stamp)| == |prefix| + INFLUX_HEADROOM
      <==> v.Some? && |v.value| == 24 && |Dec(stamp)| == 20
  {
    U64Digits(stamp);
  }

  lemma PutvalFits(prefix: string, v: Option<string>)
    requires Printable(v)
    ensures |PutvalLine(prefix, v)| <= |prefix| + 25 < |prefix| + PUTVAL_HEADROOM
  {
  }
}
