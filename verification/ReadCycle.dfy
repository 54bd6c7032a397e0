/** One read callback of the plugin: which hosts are visited before the deadline, what each visit
    measures, and what is emitted. Times are seconds on a monotonic clock. */
module ReadCycle {
  import opened Wrappers
  import opened Statistics
  import opened PluginRotation
  import opened HostText

  const READ_BUDGET_RATIO: real := 0.8
  const FALLBACK_INTERVAL_S: real := 10.0

  /** The share of the interval one callback may take; an unavailable or silly interval falls
      back to a fixed one. */
  function ReadBudget(interval: Option<real>): (budget: real)
    ensures budget > 0.0
    ensures interval.Some? && interval.value > 0.0 ==> 5.0 * budget == 4.0 * interval.value
    ensures interval.None? || interval.value <= 0.0 ==> budget == 8.0
  {
    var i := if interval.None? || interval.value <= 0.0 then FALLBACK_INTERVAL_S else interval.value;
    i * READ_BUDGET_RATIO
  }

  /** A configured host: the raw text and its parse. */
  datatype Host = Host(raw: string, hostname: string, port: Option<nat>)

  type Key = (string, nat)

  function KeyOf(h: Host, defaultPort: nat): Key {
    (h.hostname, if h.port.Some? then h.port.value else defaultPort)
  }

  /** What the network would do with one connect left alone: how long it takes and its reading. */
  datatype Reply = Reply(duration: real, rtt: Option<real>)

  /** What the outside world holds for one host in one cycle: how long the resolution takes, what it
      answers (nothing when it fails), and what the connects to each address would meet, one after the other. */
  datatype Environment<!A> = Environment(resolveTime: real, answer: seq<A>, replies: (A, nat) -> Reply)

  /** One connect attempt: it is cut off at its timeout. */
  datatype Connect<A> = Connect(addr: A, start: real, timeout: real, end: real, rtt: Option<real>)

  function ConnectTo<A>(addr: A, at: real, deadline: real, timeout: real, r: Reply): Connect<A> {
    var limit := if timeout <= deadline - at then timeout else deadline - at;
    if r.duration <= limit then Connect(addr, at, limit, at + r.duration, r.rtt)
    else Connect(addr, at, limit, at + limit, None)
  }

  /** The attempts from the `i`-th up to the `n`-th, made from time `at` on while the budget lasts. */
  function Attempts<A>(addr: A, at: real, deadline: real, timeout: real, replies: (A, nat) -> Reply,
                       i: nat, n: nat): seq<Connect<A>>
    decreases n - i
  {
    if i >= n || deadline - at <= 0.0 then []
    else
      var c := ConnectTo(addr, at, deadline, timeout, replies(addr, i));
      [c] + Attempts(addr, c.end, deadline, timeout, replies, i + 1, n)
  }

  /** The readings of the successful attempts. */
  function Samples<A>(connects: seq<Connect<A>>): (s: seq<real>)
    ensures |s| <= |connects|
  {
    if connects == [] then []
    else
      var c := connects[|connects| - 1];
      Samples(connects[..|connects| - 1]) + if c.rtt.Some? then [c.rtt.value] else []
  }

  function EndOf<A>(connects: seq<Connect<A>>, at: real): real {
    if connects == [] then at else connects[|connects| - 1].end
  }

  /** One host visited in a cycle. */
  datatype Visit<A> = Visit(series: string, key: Key, start: real, resolved: real, answer: seq<A>,
                            addr: Option<A>, connects: seq<Connect<A>>)

  datatype Config = Config(timeout: real, pingCount: nat, defaultPort: nat)

  function Lookup<A>(state: map<Key, Entry<A>>, key: Key): Entry<A> {
    if key in state then state[key] else Entry(None, 0)
  }

  function VisitOf<A(==)>(cfg: Config, deadline: real, at: real, state: map<Key, Entry<A>>, h: Host,
                          env: Environment<A>): Visit<A>
  {
    var key := KeyOf(h, cfg.defaultPort);
    var resolved := at + env.resolveTime;
    var addr := if env.answer == [] then None else Prefer(Lookup(state, key), env.answer).selected;
    Visit(SeriesLabel(h.hostname, h.port), key, at, resolved, env.answer, addr,
          if addr.None? then [] else Attempts(addr.value, resolved, deadline, cfg.timeout, env.replies, 0, cfg.pingCount))
  }

  /** The selection table after a visit; a failed resolution leaves it alone. */
  function Settle<A(==)>(less: (A, A) -> bool, state: map<Key, Entry<A>>, v: Visit<A>): map<Key, Entry<A>> {
    if v.answer == [] then state
    else
      var picked := Prefer(Lookup(state, v.key), v.answer);
      state[v.key := Record(less, picked, v.answer, Samples(v.connects) != [])]
  }

  /** The visits of a cycle from time `at` on: hosts in order, until the budget is gone. */
  function Visits<A(==)>(less: (A, A) -> bool, cfg: Config, deadline: real, at: real, state: map<Key, Entry<A>>,
                         hosts: seq<Host>, envs: seq<Environment<A>>): seq<Visit<A>>
    requires |hosts| == |envs|
    decreases |hosts|
  {
    if hosts == [] || at >= deadline then []
    else
      var v := VisitOf(cfg, deadline, at, state, hosts[0], envs[0]);
      [v] + Visits(less, cfg, deadline, EndOf(v.connects, v.resolved), Settle(less, state, v), hosts[1..], envs[1..])
  }

  /** The selection table after a sequence of visits. */
  function SettleAll<A(==)>(less: (A, A) -> bool, state: map<Key, Entry<A>>, visits: seq<Visit<A>>): map<Key, Entry<A>> {
    if visits == [] then state
    else Settle(less, SettleAll(less, state, visits[..|visits| - 1]), visits[|visits| - 1])
  }

  function Finish<A>(visits: seq<Visit<A>>, at: real): real {
    if visits == [] then at
    else var v := visits[|visits| - 1]; EndOf(v.connects, v.resolved)
  }

  // ----- what is emitted

  /** How samples are reported: the smallest or the mean, and what `math.sqrt` computes. */
  datatype Reporting = Reporting(useMin: bool, sqrt: real -> real)

  /** The non-negative root. */
  ghost predicate IsRoot(sqrt: real -> real) {
    forall x | x >= 0.0 :: sqrt(x) >= 0.0 && Sqr(sqrt(x)) == x
  }

  datatype Kind = Ping | DropRate | Stddev

  /** A dispatched value; `None` is not-a-number. */
  datatype Value = Value(series: string, kind: Kind, value: Option<real>)

  function DropRateOf<A>(v: Visit<A>): Option<real> {
    if v.addr.None? then Some(1.0)
    else if v.connects == [] then None
    else Some((|v.connects| - |Samples(v.connects)|) as real / |v.connects| as real)
  }

  function PingOf(samples: seq<real>, useMin: bool): Option<real> {
    if samples == [] then None else Some(if useMin then Min(samples) else Mean(samples))
  }

  function StddevOf(samples: seq<real>, sqrt: real -> real): Option<real> {
    if |samples| <= 1 then None else Some(sqrt(Statistics.Variance(samples)))
  }

  function Emission<A>(v: Visit<A>, how: Reporting): seq<Value> {
    var samples := Samples(v.connects);
    [Value(v.series, Ping, PingOf(samples, how.useMin)),
     Value(v.series, DropRate, DropRateOf(v)),
     Value(v.series, Stddev, StddevOf(samples, how.sqrt))]
  }

  function Emissions<A>(visits: seq<Visit<A>>, how: Reporting): (e: seq<Value>)
    ensures |e| == 3 * |visits|
  {
    if visits == [] then []
    else Emissions(visits[..|visits| - 1], how) + Emission(visits[|visits| - 1], how)
  }

  // ----- one step of the loops

  lemma SamplesStep<A>(connects: seq<Connect<A>>, c: Connect<A>)
    ensures Samples(connects + [c]) == Samples(connects) + if c.rtt.Some? then [c.rtt.value] else []
  {
  }

  lemma VisitsStep<A>(less: (A, A) -> bool, cfg: Config, deadline: real, at: real, state: map<Key, Entry<A>>,
                      hosts: seq<Host>, envs: seq<Environment<A>>, i: nat)
    requires i < |hosts| == |envs| && at < deadline
    ensures var v := VisitOf(cfg, deadline, at, state, hosts[i], envs[i]);
      Visits(less, cfg, deadline, at, state, hosts[i..], envs[i..])
      == [v] + Visits(less, cfg, deadline, EndOf(v.connects, v.resolved), Settle(less, state, v),
                      hosts[i + 1..], envs[i + 1..])
  {
  }

  lemma OneMoreVisit<A>(less: (A, A) -> bool, state: map<Key, Entry<A>>, visits: seq<Visit<A>>, v: Visit<A>, how: Reporting)
    ensures SettleAll(less, state, visits + [v]) == Settle(less, SettleAll(less, state, visits), v)
    ensures Emissions(visits + [v], how) == Emissions(visits, how) + Emission(v, how)
  {
  }

  /** Where a cycle stands after its first `i` hosts: what it still has to do completes `all`. */
  datatype Progress<A> = Progress(visits: seq<Visit<A>>, emitted: seq<Value>, state: map<Key, Entry<A>>, now: real)

  ghost predicate OnTrack<A(!new)>(less: (A, A) -> bool, cfg: Config, deadline: real, start: real, state: map<Key, Entry<A>>,
                                   hosts: seq<Host>, envs: seq<Environment<A>>, how: Reporting, i: nat, p: Progress<A>)
    requires i <= |hosts| == |envs|
  {
    && p.visits + Visits(less, cfg, deadline, p.now, p.state, hosts[i..], envs[i..])
         == Visits(less, cfg, deadline, start, state, hosts, envs)
    && p.emitted == Emissions(p.visits, how)
    && p.state == SettleAll(less, state, p.visits)
    && p.now == Finish(p.visits, start)
  }

  lemma StartsOnTrack<A(!new)>(less: (A, A) -> bool, cfg: Config, deadline: real, start: real, state: map<Key, Entry<A>>,
                               hosts: seq<Host>, envs: seq<Environment<A>>, how: Reporting)
    requires |hosts| == |envs|
    ensures OnTrack(less, cfg, deadline, start, state, hosts, envs, how, 0, Progress([], [], state, start))
  {
    assert hosts[0..] == hosts && envs[0..] == envs;
  }

  lemma StaysOnTrack<A(!new)>(less: (A, A) -> bool, cfg: Config, deadline: real, start: real, state: map<Key, Entry<A>>,
                              hosts: seq<Host>, envs: seq<Environment<A>>, how: Reporting, i: nat, p: Progress<A>)
    returns (p': Progress<A>)
    requires i < |hosts| == |envs| && p.now < deadline
    requires OnTrack(less, cfg, deadline, start, state, hosts, envs, how, i, p)
    ensures OnTrack(less, cfg, deadline, start, state, hosts, envs, how, i + 1, p')
    ensures var v := VisitOf(cfg, deadline, p.now, p.state, hosts[i], envs[i]);
      p' == Progress(p.visits + [v], p.emitted + Emission(v, how), Settle(less, p.state, v), EndOf(v.connects, v.resolved))
  {
    var v := VisitOf(cfg, deadline, p.now, p.state, hosts[i], envs[i]);
    VisitsStep(less, cfg, deadline, p.now, p.state, hosts, envs, i);
    OneMoreVisit(less, state, p.visits, v, how);
    JoinStep(p.visits, v, Visits(less, cfg, deadline, EndOf(v.connects, v.resolved), Settle(less, p.state, v),
                                 hosts[i + 1..], envs[i + 1..]));
    p' := Progress(p.visits + [v], p.emitted + Emission(v, how), Settle(less, p.state, v), EndOf(v.connects, v.resolved));
  }

  /** The outcome of a whole cycle. */
  function Outcome<A(==)>(less: (A, A) -> bool, cfg: Config, deadline: real, start: real, state: map<Key, Entry<A>>,
                          hosts: seq<Host>, envs: seq<Environment<A>>, how: Reporting): Progress<A>
    requires |hosts| == |envs|
  {
    var visits := Visits(less, cfg, deadline, start, state, hosts, envs);
    Progress(visits, Emissions(visits, how), SettleAll(less, state, visits), Finish(visits, start))
  }

  lemma EndsOnTrack<A(!new)>(less: (A, A) -> bool, cfg: Config, deadline: real, start: real, state: map<Key, Entry<A>>,
                             hosts: seq<Host>, envs: seq<Environment<A>>, how: Reporting, i: nat, p: Progress<A>)
    requires i <= |hosts| == |envs| && (i == |hosts| || p.now >= deadline)
    requires OnTrack(less, cfg, deadline, start, state, hosts, envs, how, i, p)
    ensures p == Outcome(less, cfg, deadline, start, state, hosts, envs, how)
  {
    assert p.visits + [] == p.visits;
  }

  lemma JoinStep<T>(done: seq<T>, x: T, rest: seq<T>)
    ensures done + [x] + rest == done + ([x] + rest)
  {
  }

  // ----- deadline

  /** Durations are not negative. */
  ghost predicate Physical<A(!new)>(envs: seq<Environment<A>>) {
    forall e | e in envs :: e.resolveTime >= 0.0 && forall a, i: nat :: e.replies(a, i).duration >= 0.0
  }

  /** Every attempt starts before the deadline with a positive timeout and ends by the deadline;
      attempts go on until their number or the budget is used up. */
  lemma {:induction false} AttemptsKeepDeadline<A(!new)>(addr: A, at: real, deadline: real, timeout: real,
                                                         replies: (A, nat) -> Reply, i: nat, n: nat)
    requires timeout > 0.0 && i <= n && forall j: nat :: replies(addr, j).duration >= 0.0
    ensures var cs := Attempts(addr, at, deadline, timeout, replies, i, n);
      && |cs| <= n - i
      && (forall c | c in cs ::
            c.addr == addr && at <= c.start < deadline && 0.0 < c.timeout <= timeout
            && c.start <= c.end <= c.start + c.timeout <= deadline)
      && (|cs| < n - i ==> EndOf(cs, at) >= deadline)
      && at <= EndOf(cs, at) && (at <= deadline ==> EndOf(cs, at) <= deadline)
      && (at >= deadline ==> cs == [])
    decreases n - i
  {
    if i < n && deadline - at > 0.0 {
      var c := ConnectTo(addr, at, deadline, timeout, replies(addr, i));
      AttemptsKeepDeadline(addr, c.end, deadline, timeout, replies, i + 1, n);
      var rest := Attempts(addr, c.end, deadline, timeout, replies, i + 1, n);
      assert EndOf([c] + rest, at) == EndOf(rest, c.end);
    }
  }

  /** The `k`-th of these attempts follows the one before, waits no longer than the timeout or the
      rest of the budget, and reports what its reply brings in that time: the reply's reading, or
      nothing when it comes too late. */
  lemma {:induction false} AttemptsReportReplies<A(!new)>(addr: A, at: real, deadline: real, timeout: real,
                                                          replies: (A, nat) -> Reply, i: nat, n: nat, k: nat)
    requires k < |Attempts(addr, at, deadline, timeout, replies, i, n)|
    ensures var cs, r := Attempts(addr, at, deadline, timeout, replies, i, n), replies(addr, i + k);
      && cs[k].addr == addr
      && cs[k].start == (if k == 0 then at else cs[k - 1].end)
      && cs[k].timeout == (if timeout <= deadline - cs[k].start then timeout else deadline - cs[k].start)
      && (r.duration <= cs[k].timeout ==> cs[k].end == cs[k].start + r.duration && cs[k].rtt == r.rtt)
      && (r.duration > cs[k].timeout ==> cs[k].end == cs[k].start + cs[k].timeout && cs[k].rtt == None)
    decreases k
  {
    var c := ConnectTo(addr, at, deadline, timeout, replies(addr, i));
    var rest := Attempts(addr, c.end, deadline, timeout, replies, i + 1, n);
    assert Attempts(addr, at, deadline, timeout, replies, i, n) == [c] + rest;
    if k > 0 {
      AttemptsReportReplies(addr, c.end, deadline, timeout, replies, i + 1, n, k - 1);
      assert replies(addr, i + k) == replies(addr, i + 1 + (k - 1));
    }
  }

  /** A visit of a cycle keeps the deadline apart from its resolution. */
  ghost predicate Prompt<A(!new)>(v: Visit<A>, cfg: Config, deadline: real) {
    && v.start < deadline && v.start <= v.resolved
    && |v.connects| <= cfg.pingCount
    && (v.addr.None? ==> v.connects == [])
    && (v.addr.None? <==> v.answer == [])
    && (forall c | c in v.connects ::
          v.addr == Some(c.addr) && c.start < deadline && 0.0 < c.timeout <= cfg.timeout
          && c.start <= c.end <= c.start + c.timeout <= deadline)
    && v.resolved <= EndOf(v.connects, v.resolved)
    && (v.resolved <= deadline ==> EndOf(v.connects, v.resolved) <= deadline)
    && (v.resolved >= deadline ==> v.connects == [])
  }

  lemma VisitIsPrompt<A(!new)>(cfg: Config, deadline: real, at: real, state: map<Key, Entry<A>>, h: Host, env: Environment<A>)
    requires cfg.timeout > 0.0 && at < deadline && Physical([env])
    ensures Prompt(VisitOf(cfg, deadline, at, state, h, env), cfg, deadline)
  {
    assert env in [env];
    var v := VisitOf(cfg, deadline, at, state, h, env);
    if v.addr.Some? {
      AttemptsKeepDeadline(v.addr.value, v.resolved, deadline, cfg.timeout, env.replies, 0, cfg.pingCount);
    }
  }

  /** The i-th visit: made before the deadline, for the i-th host; the cycle goes on exactly while
      visits end before the deadline and hosts are left. */
  lemma {:induction false} VisitAt<A(!new)>(less: (A, A) -> bool, cfg: Config, deadline: real, at: real,
                                            state: map<Key, Entry<A>>, hosts: seq<Host>,
                                            envs: seq<Environment<A>>, i: nat)
    returns (at': real, state': map<Key, Entry<A>>)
    requires |hosts| == |envs|
    requires i < |Visits(less, cfg, deadline, at, state, hosts, envs)|
    ensures var vs := Visits(less, cfg, deadline, at, state, hosts, envs);
      && i < |hosts| && at' < deadline
      && vs[i] == VisitOf(cfg, deadline, at', state', hosts[i], envs[i])
      && (i + 1 < |vs| <==> i + 1 < |hosts| && EndOf(vs[i].connects, vs[i].resolved) < deadline)
    decreases i
  {
    at', state' := at, state;
    var v := VisitOf(cfg, deadline, at, state, hosts[0], envs[0]);
    if i > 0 {
      at', state' := VisitAt(less, cfg, deadline, EndOf(v.connects, v.resolved), Settle(less, state, v),
                             hosts[1..], envs[1..], i - 1);
    }
  }

  lemma {:induction false} VisitStarts<A(!new)>(less: (A, A) -> bool, cfg: Config, deadline: real, at: real,
                                                state: map<Key, Entry<A>>, hosts: seq<Host>,
                                                envs: seq<Environment<A>>, i: nat)
    requires |hosts| == |envs|
    requires i < |Visits(less, cfg, deadline, at, state, hosts, envs)|
    ensures var vs := Visits(less, cfg, deadline, at, state, hosts, envs);
      vs[i].start == if i == 0 then at else EndOf(vs[i - 1].connects, vs[i - 1].resolved)
    decreases i
  {
    if i > 0 {
      var v := VisitOf(cfg, deadline, at, state, hosts[0], envs[0]);
      VisitStarts(less, cfg, deadline, EndOf(v.connects, v.resolved), Settle(less, state, v), hosts[1..], envs[1..], i - 1);
    }
  }

  /** Visits follow each other without a pause; each resolves its host, and then attempts what the
      budget allows on the address picked, if any. */
  lemma VisitsFollow<A(!new)>(less: (A, A) -> bool, cfg: Config, deadline: real, at: real,
                                                 state: map<Key, Entry<A>>, hosts: seq<Host>,
                                                 envs: seq<Environment<A>>, i: nat)
    requires |hosts| == |envs|
    requires i < |Visits(less, cfg, deadline, at, state, hosts, envs)|
    ensures var vs := Visits(less, cfg, deadline, at, state, hosts, envs);
      && i < |envs|
      && vs[i].start == (if i == 0 then at else EndOf(vs[i - 1].connects, vs[i - 1].resolved))
      && vs[i].resolved == vs[i].start + envs[i].resolveTime
      && (vs[i].addr.None? <==> envs[i].answer == [])
      && vs[i].connects == if vs[i].addr.None? then []
         else Attempts(vs[i].addr.value, vs[i].resolved, deadline, cfg.timeout, envs[i].replies, 0, cfg.pingCount)
  {
    var at', state' := VisitAt(less, cfg, deadline, at, state, hosts, envs, i);
    VisitStarts(less, cfg, deadline, at, state, hosts, envs, i);
  }

  /** The deadline bound: for any hosts and environment every resolution starts before the
      deadline and every connect ends by it, only the last resolution can end past it, and the
      callback is over by the deadline or at the end of that resolution. */
  lemma {:induction false} DeadlineBound<A(!new)>(less: (A, A) -> bool, cfg: Config, deadline: real, at: real,
                               state: map<Key, Entry<A>>, hosts: seq<Host>, envs: seq<Environment<A>>)
    requires |hosts| == |envs| && cfg.timeout > 0.0 && Physical(envs) && at <= deadline
    ensures var vs := Visits(less, cfg, deadline, at, state, hosts, envs);
      && (forall v | v in vs :: Prompt(v, cfg, deadline))
      && (forall i | 0 <= i < |vs| - 1 :: vs[i].resolved < deadline)
      && (if vs != [] && vs[|vs| - 1].resolved > deadline then Finish(vs, at) == vs[|vs| - 1].resolved
          else Finish(vs, at) <= deadline)
      && |vs| <= |hosts| && (|vs| < |hosts| ==> Finish(vs, at) >= deadline)
  {
    var vs := Visits(less, cfg, deadline, at, state, hosts, envs);
    forall i | 0 <= i < |vs|
      ensures Prompt(vs[i], cfg, deadline) && (i < |vs| - 1 ==> vs[i].resolved < deadline)
    {
      var at', state' := VisitAt(less, cfg, deadline, at, state, hosts, envs, i);
      assert envs[i] in envs;
      VisitIsPrompt(cfg, deadline, at', state', hosts[i], envs[i]);
    }
    if vs != [] {
      var _, _ := VisitAt(less, cfg, deadline, at, state, hosts, envs, |vs| - 1);
    }
  }

  // ----- selection table

  /** The addresses of the answer that would give at least one sample in a visit resolved at `at`. */
  function UpAt<A(==)>(cfg: Config, deadline: real, at: real, env: Environment<A>): set<A> {
    set a | a in env.answer && Samples(Attempts(a, at, deadline, cfg.timeout, env.replies, 0, cfg.pingCount)) != []
  }

  /** The read that a visit makes of its key. No sample counts as a failure, even when the budget
      left no attempt. */
  function ReadAt<A(==)>(cfg: Config, deadline: real, at: real, env: Environment<A>): Read<A> {
    Read(env.answer, UpAt(cfg, deadline, at + env.resolveTime, env))
  }

  /** A visit moves its own key's entry by one step of the selection machine and no other key's; a
      failed resolution changes nothing. */
  lemma VisitSettlesOneKey<A(!new)>(less: (A, A) -> bool, cfg: Config, deadline: real, at: real,
                                    state: map<Key, Entry<A>>, h: Host, env: Environment<A>, k: Key)
    ensures var v := VisitOf(cfg, deadline, at, state, h, env);
      Lookup(Settle(less, state, v), k) ==
        if k == v.key then ReadStep(less, Lookup(state, k), ReadAt(cfg, deadline, at, env)) else Lookup(state, k)
    ensures env.answer == [] ==> Settle(less, state, VisitOf(cfg, deadline, at, state, h, env)) == state
  {
    var v := VisitOf(cfg, deadline, at, state, h, env);
    if v.answer != [] {
      assert v.addr.value in UpAt(cfg, deadline, v.resolved, env) <==> Samples(v.connects) != [];
    }
  }

  // ----- accounting

  /** Attempts whose handshake failed or was cut off by its own timeout. */
  function Failed<A>(connects: seq<Connect<A>>): nat {
    if connects == [] then 0
    else Failed(connects[..|connects| - 1]) + if connects[|connects| - 1].rtt.None? then 1 else 0
  }

  lemma {:induction false} EveryAttemptCounts<A>(connects: seq<Connect<A>>)
    ensures Failed(connects) + |Samples(connects)| == |connects|
  {
    if connects != [] {
      EveryAttemptCounts(connects[..|connects| - 1]);
    }
  }

  /** The samples are the readings of the attempts that have one. */
  lemma {:induction false} SamplesAreReadings<A(!new)>(connects: seq<Connect<A>>, x: real)
    ensures x in Samples(connects) <==> exists c :: c in connects && c.rtt == Some(x)
  {
    if connects != [] {
      var front, c := connects[..|connects| - 1], connects[|connects| - 1];
      assert connects == front + [c];
      SamplesAreReadings(front, x);
    }
  }

  /** Of the three values of a visit, the second is its drop rate: undefined exactly when the host
      resolved and no attempt was made, one for a failed resolution, and otherwise a number in
      [0, 1] whose multiple by the attempts is the number of failed handshakes, never of probes the
      budget cut. */
  lemma DropRateAccounting<A(!new)>(v: Visit<A>, how: Reporting)
    requires v.addr.None? ==> v.connects == []
    ensures var e := Emission(v, how);
      && |e| == 3 && e[0].kind == Ping && e[1].kind == DropRate && e[2].kind == Stddev
      && (forall k | 0 <= k < 3 :: e[k].series == v.series)
    ensures var rate := Emission(v, how)[1].value;
      && (rate.None? <==> v.addr.Some? && v.connects == [])
      && (v.addr.None? ==> rate == Some(1.0))
      && (rate.Some? ==> 0.0 <= rate.value <= 1.0)
      && (rate.Some? && v.addr.Some? ==> rate.value * |v.connects| as real == Failed(v.connects) as real)
  {
    EveryAttemptCounts(v.connects);
    if v.addr.Some? && v.connects != [] {
      Fraction(Failed(v.connects), |v.connects|);
    }
  }

  lemma Fraction(a: nat, b: nat)
    requires a <= b && b > 0
    ensures 0.0 <= a as real / b as real <= 1.0
    ensures a as real / b as real * b as real == a as real
  {
  }

  lemma {:induction false} ThreeValuesEach<A(!new)>(visits: seq<Visit<A>>, how: Reporting, i: nat)
    requires i < |visits|
    ensures Emissions(visits, how)[3 * i..3 * i + 3] == Emission(visits[i], how)
  {
    if i < |visits| - 1 {
      ThreeValuesEach(visits[..|visits| - 1], how, i);
    }
  }

  lemma SeriesOfEmission<A(!new)>(visits: seq<Visit<A>>, how: Reporting, i: nat, k: nat)
    requires i < |visits| && 3 * i <= k < 3 * i + 3
    ensures Emissions(visits, how)[k].series == visits[i].series
  {
    ThreeValuesEach(visits, how, i);
    assert Emissions(visits, how)[k] == Emissions(visits, how)[3 * i..3 * i + 3][k - 3 * i];
  }

  /** The hosts emitted are a prefix of the configured list, in order, three values each under
      the host's series. */
  lemma EmittedHostsArePrefix<A(!new)>(less: (A, A) -> bool, cfg: Config, deadline: real, at: real,
                                       state: map<Key, Entry<A>>, hosts: seq<Host>,
                                       envs: seq<Environment<A>>, how: Reporting, i: nat, k: nat)
    requires |hosts| == |envs| && 3 * i <= k < 3 * i + 3
    requires i < |Visits(less, cfg, deadline, at, state, hosts, envs)|
    ensures var vs := Visits(less, cfg, deadline, at, state, hosts, envs);
      && i < |hosts| && vs[i].answer == envs[i].answer
      && vs[i].key.0 == hosts[i].hostname
      && vs[i].key.1 == (if hosts[i].port.Some? then hosts[i].port.value else cfg.defaultPort)
      && |Emissions(vs, how)| == 3 * |vs|
      && Emissions(vs, how)[k].series == SeriesLabel(hosts[i].hostname, hosts[i].port)
  {
    var at', state' := VisitAt(less, cfg, deadline, at, state, hosts, envs, i);
    SeriesOfEmission(Visits(less, cfg, deadline, at, state, hosts, envs), how, i, k);
  }

  /** What is emitted about the samples: a reading exactly when there is a sample, namely the
      smallest sample or the number whose multiple is their sum; a spread exactly from two
      samples on, namely the non-negative number whose squares add up to those of the distances
      from that mean. */
  lemma EmittedStatistics<A(!new)>(v: Visit<A>, how: Reporting) returns (mean: real, spread: real)
    requires IsRoot(how.sqrt)
    ensures var s := Samples(v.connects);
      && IsMean(s, mean) && IsSpread(s, mean, spread)
      && Emission(v, how)[0].value == (if s == [] then None else Some(if how.useMin then Min(s) else mean))
      && Emission(v, how)[2].value == (if |s| <= 1 then None else Some(spread))
  {
    var s := Samples(v.connects);
    mean, spread := 0.0, 0.0;
    if s != [] {
      mean, spread := Mean(s), how.sqrt(Variance(s));
      MeanIsMean(s);
      RootIsSpread(s, how.sqrt);
    }
  }

  ghost predicate IsMean(s: seq<real>, mean: real) {
    s != [] ==> |s| as real * mean == Sum(s)
  }

  ghost predicate IsSpread(s: seq<real>, mean: real, spread: real) {
    s != [] ==> spread >= 0.0 && |s| as real * Sqr(spread) == Squares(s, mean)
  }

  lemma MeanIsMean(s: seq<real>)
    requires s != []
    ensures IsMean(s, Mean(s))
  {
    QuotientTimes(|s| as real, Sum(s));
  }

  lemma RootIsSpread(s: seq<real>, sqrt: real -> real)
    requires IsRoot(sqrt) && s != []
    ensures IsSpread(s, Mean(s), sqrt(Variance(s)))
  {
    VarianceIsNotNegative(s);
    QuotientTimes(|s| as real, Squares(s, Mean(s)));
  }

  /** The emitted minimum, mean and spread come from the same samples, so the emitted spread bounds
      what reporting the minimum hides. */
  lemma EmittedSpreadIsHonest<A(!new)>(v: Visit<A>, sqrt: real -> real, min: real, mean: real, spread: real)
    requires IsRoot(sqrt) && |Samples(v.connects)| > 1
    requires Emission(v, Reporting(true, sqrt))[0].value == Some(min)
    requires Emission(v, Reporting(false, sqrt))[0].value == Some(mean)
    requires Emission(v, Reporting(true, sqrt))[2].value == Some(spread)
    ensures min <= mean && Sqr(min - mean) <= Reach(|Samples(v.connects)|, Sqr(spread))
  {
    var s := Samples(v.connects);
    assert min == Min(s) && mean == Mean(s) && spread == sqrt(Variance(s));
    VarianceIsNotNegative(s);
    MeanIsBetween(s);
    SampleIsNearMean(s, min);
  }
}
