/** Duration arguments, their range checks, and the interval announced to collectd. */
module Durations {
  import opened Wrappers
  import opened Text

  const MIN_INTERVAL_MS: nat := 100
  const MAX_INTERVAL_MS: nat := 86_400_000
  const MAX_TIMEOUT_MS: nat := 60_000

  /** An unsigned 64-bit number: digits with an optional leading plus, or an error. */
  function ParseU64(s: string): (n: Option<nat>)
    ensures forall v :: n == Some(v) <==>
      v <= U64_MAX && (ParseNat(s) == Some(v) || (s != "" && s[0] == '+' && ParseNat(s[1..]) == Some(v)))
  {
    assert s != "" && s[0] == '+' ==> s[0] in s && !IsDigit(s[0]);
    var n := ParseNat(if s != "" && s[0] == '+' then s[1..] else s);
    if n.Some? && n.value <= U64_MAX then n else None
  }

  function StripSuffix(s: string, suffix: string): (r: Option<string>)
    ensures r.Some? <==> |suffix| <= |s| && s[|s| - |suffix|..] == suffix
    ensures r.Some? ==> s == r.value + suffix
  {
    if |suffix| <= |s| && s[|s| - |suffix|..] == suffix then Some(s[..|s| - |suffix|]) else None
  }

  /** Milliseconds; the `ms` suffix is tried before `s`. */
  function ParseDuration(s: string): Option<nat> {
    var ms, sec := StripSuffix(s, "ms"), StripSuffix(s, "s");
    if ms.Some? then ParseU64(ms.value)
    else if sec.Some? then
      var n :- ParseU64(sec.value);
      Some(1000 * n)
    else ParseU64(s)
  }

  function ParseInterval(s: string): (ms: Option<nat>)
    ensures forall d :: ms == Some(d) <==> ParseDuration(s) == Some(d) && 100 <= d <= 86_400_000
  {
    var d :- ParseDuration(s);
    if d < MIN_INTERVAL_MS then None else if d > MAX_INTERVAL_MS then None else Some(d)
  }

  function ParseTimeout(s: string): (ms: Option<nat>)
    ensures forall d :: ms == Some(d) <==> ParseDuration(s) == Some(d) && 0 < d <= 60_000
  {
    var d :- ParseDuration(s);
    if d == 0 then None else if d > MAX_TIMEOUT_MS then None else Some(d)
  }

  lemma LastIsDigit(t: string)
    requires ParseU64(t).Some?
    ensures t != "" && (IsDigit(t[|t| - 1]) || t[|t| - 1] == '+')
  {
  }

  lemma SuffixOf(t: string, suffix: string)
    ensures StripSuffix(t + suffix, suffix) == Some(t)
  {
  }

  /** Every number is read in the unit its suffix names, milliseconds when there is none. */
  lemma DurationForms(t: string)
    requires ParseU64(t).Some?
    ensures ParseDuration(t + "ms") == ParseU64(t)
    ensures ParseDuration(t + "s") == Some(1000 * ParseU64(t).value)
    ensures ParseDuration(t) == ParseU64(t)
  {
    LastIsDigit(t);
    SuffixOf(t, "ms");
    SuffixOf(t, "s");
    var s := t + "s";
    assert s[|s| - 2] == t[|t| - 1];
    assert |s| >= 2 && s[|s| - 2..][0] == s[|s| - 2] && "ms"[0] == 'm';
    assert t[|t| - 1..][0] == t[|t| - 1] && "s"[0] == 's';
    if |t| >= 2 { assert t[|t| - 2..][1] == t[|t| - 1] && "ms"[1] == 's'; }
  }

  /** And nothing else is accepted. */
  lemma DurationIsOneOf(s: string) returns (t: string)
    requires ParseDuration(s).Some?
    ensures ParseU64(t).Some?
    ensures var n, d := ParseU64(t).value, ParseDuration(s).value;
      (s == t + "ms" && d == n) || (s == t + "s" && d == 1000 * n) || (s == t && d == n)
  {
    var ms, sec := StripSuffix(s, "ms"), StripSuffix(s, "s");
    t := if ms.Some? then ms.value else if sec.Some? then sec.value else s;
  }

  lemma PlainNumber(n: nat)
    requires n <= U64_MAX
    ensures ParseU64(Dec(n)) == Some(n)
  {
    DecRoundTrip(n);
    assert Dec(n)[0] in Dec(n);
  }

  /** Printing any duration with any of the suffixes and reading it back gives the same duration. */
  lemma DurationRoundTrip(n: nat)
    requires n <= U64_MAX
    ensures ParseDuration(Dec(n) + "ms") == Some(n) == ParseDuration(Dec(n))
    ensures ParseDuration(Dec(n) + "s") == Some(1000 * n)
  {
    PlainNumber(n);
    DurationForms(Dec(n));
  }

  /** Printing an accepted interval with `ms` or with no suffix and reading it back gives the same
      interval. */
  lemma IntervalRoundTrip(ms: nat)
    requires 100 <= ms <= 86_400_000
    ensures ParseInterval(Dec(ms) + "ms") == Some(ms) == ParseInterval(Dec(ms))
  {
    DurationRoundTrip(ms);
  }

  /** And so does printing whole seconds with `s`. */
  lemma SecondsRoundTrip(secs: nat)
    requires 1 <= secs <= 86_400
    ensures ParseInterval(Dec(secs) + "s") == Some(1000 * secs)
  {
    DurationRoundTrip(secs);
  }

  /** A timeout round-trips too. */
  lemma TimeoutRoundTrip(ms: nat)
    requires 0 < ms <= 60_000
    ensures ParseTimeout(Dec(ms) + "ms") == Some(ms) == ParseTimeout(Dec(ms))
  {
    DurationRoundTrip(ms);
  }

  /** Seconds announced in PUTVAL: rounded half up from a real number of seconds, at least one. */
  function IntervalSecs(ms: nat): int {
    var rounded := (ms as real / 1000.0 + 0.5).Floor;
    if rounded >= 1 then rounded else 1
  }

  /** The announced interval is the nearest whole second, never zero and never above a day. */
  lemma AnnouncedInterval(s: string)
    requires ParseInterval(s).Some?
    ensures var ms := ParseInterval(s).value;
      && IntervalSecs(ms) == (if (ms + 500) / 1000 >= 1 then (ms + 500) / 1000 else 1)
      && 1 <= IntervalSecs(ms) <= 86_400
      && (ms >= 500 ==> -500 < 1000 * IntervalSecs(ms) - ms <= 500)
  {
  }
}
