/** What any number of read callbacks do to the selection table. */
module Callbacks {
  import opened Wrappers
  import opened Canonical
  import opened PluginRotation
  import opened PluginRecovery
  import opened ReadCycle

  /** One read callback: its settings, clock, hosts and surroundings. */
  datatype Callback<!A> = Callback(cfg: Config, start: real, deadline: real, hosts: seq<ReadCycle.Host>,
                                   envs: seq<Environment<A>>)

  predicate Matched<A>(callbacks: seq<Callback<A>>) {
    forall i | 0 <= i < |callbacks| :: |callbacks[i].hosts| == |callbacks[i].envs|
  }

  /** A read of one key. */
  datatype Poll<A> = Poll(key: Key, read: Read<A>)

  /** The reads a callback makes from time `at` on. */
  function Polls<A(==)>(less: (A, A) -> bool, cfg: Config, deadline: real, at: real, state: map<Key, Entry<A>>,
                        hosts: seq<ReadCycle.Host>, envs: seq<Environment<A>>): seq<Poll<A>>
    requires |hosts| == |envs|
    decreases |hosts|
  {
    if hosts == [] || at >= deadline then []
    else
      var v := VisitOf(cfg, deadline, at, state, hosts[0], envs[0]);
      [Poll(v.key, ReadAt(cfg, deadline, at, envs[0]))]
      + Polls(less, cfg, deadline, EndOf(v.connects, v.resolved), Settle(less, state, v), hosts[1..], envs[1..])
  }

  /** The reads of one key. */
  function ReadsOf<A>(polls: seq<Poll<A>>, k: Key): seq<Read<A>> {
    if polls == [] then []
    else (if polls[0].key == k then [polls[0].read] else []) + ReadsOf(polls[1..], k)
  }

  /** The table after one more callback. */
  function AfterOne<A(==)>(less: (A, A) -> bool, before: map<Key, Entry<A>>, c: Callback<A>): map<Key, Entry<A>>
    requires |c.hosts| == |c.envs|
  {
    SettleAll(less, before, Visits(less, c.cfg, c.deadline, c.start, before, c.hosts, c.envs))
  }

  /** The table after these callbacks. */
  function Table<A(==)>(less: (A, A) -> bool, state: map<Key, Entry<A>>, callbacks: seq<Callback<A>>): map<Key, Entry<A>>
    requires Matched(callbacks)
  {
    if callbacks == [] then state
    else
      AfterOne(less, Table(less, state, callbacks[..|callbacks| - 1]), callbacks[|callbacks| - 1])
  }

  lemma TableStep<A(!new)>(less: (A, A) -> bool, before: map<Key, Entry<A>>, callbacks: seq<Callback<A>>,
                                              c: Callback<A>, how: Reporting, p: Progress<A>)
    requires Matched(callbacks) && before == Table(less, map[], callbacks) && |c.hosts| == |c.envs|
    requires p == Outcome(less, c.cfg, c.deadline, c.start, before, c.hosts, c.envs, how)
    ensures Matched(callbacks + [c]) && p.state == Table(less, map[], callbacks + [c])
  {
    assert (callbacks + [c])[..|callbacks|] == callbacks;
  }

  /** All reads of these callbacks. */
  function History<A(==)>(less: (A, A) -> bool, state: map<Key, Entry<A>>, callbacks: seq<Callback<A>>): seq<Poll<A>>
    requires Matched(callbacks)
  {
    if callbacks == [] then []
    else
      var front, c := callbacks[..|callbacks| - 1], callbacks[|callbacks| - 1];
      History(less, state, front)
      + Polls(less, c.cfg, c.deadline, c.start, Table(less, state, front), c.hosts, c.envs)
  }

  lemma {:induction false} SettleFirst<A(!new)>(less: (A, A) -> bool, state: map<Key, Entry<A>>, v: Visit<A>, rest: seq<Visit<A>>)
    ensures SettleAll(less, state, [v] + rest) == SettleAll(less, Settle(less, state, v), rest)
  {
    var all := [v] + rest;
    if rest == [] {
      assert all[..0] == [] && SettleAll(less, state, all[..0]) == state;
    } else {
      SettleFirst(less, state, v, rest[..|rest| - 1]);
      assert all[..|all| - 1] == [v] + rest[..|rest| - 1];
    }
  }

  lemma {:induction false} ReadsJoin<A(!new)>(less: (A, A) -> bool, e: Entry<A>, a: seq<Read<A>>, b: seq<Read<A>>)
    ensures ReadsFrom(less, e, a + b) == ReadsFrom(less, ReadsFrom(less, e, a), b)
  {
    if b == [] {
      assert a + b == a;
    } else {
      var t := a + b;
      assert t[..|t| - 1] == a + b[..|b| - 1] && t[|t| - 1] == b[|b| - 1];
      ReadsJoin(less, e, a, b[..|b| - 1]);
    }
  }

  lemma OneRead<A(!new)>(less: (A, A) -> bool, e: Entry<A>, r: Read<A>)
    ensures ReadsFrom(less, e, [r]) == ReadStep(less, e, r)
  {
    assert [r][..0] == [];
  }

  lemma {:induction false} ReadsOfJoin<A>(a: seq<Poll<A>>, b: seq<Poll<A>>, k: Key)
    ensures ReadsOf(a + b, k) == ReadsOf(a, k) + ReadsOf(b, k)
  {
    if a == [] {
      assert a + b == b;
    } else {
      ReadsOfJoin(a[1..], b, k);
      assert (a + b)[1..] == a[1..] + b && (a + b)[0] == a[0];
    }
  }

  /** One callback takes each key's entry through the reads of that key. */
  lemma {:induction false} CallbackReads<A(!new)>(less: (A, A) -> bool, cfg: Config, deadline: real, at: real,
                                                  state: map<Key, Entry<A>>, hosts: seq<ReadCycle.Host>,
                                                  envs: seq<Environment<A>>, k: Key)
    requires |hosts| == |envs|
    ensures Lookup(SettleAll(less, state, Visits(less, cfg, deadline, at, state, hosts, envs)), k)
      == ReadsFrom(less, Lookup(state, k), ReadsOf(Polls(less, cfg, deadline, at, state, hosts, envs), k))
    decreases |hosts|
  {
    if hosts != [] && at < deadline {
      var v, r := VisitOf(cfg, deadline, at, state, hosts[0], envs[0]), ReadAt(cfg, deadline, at, envs[0]);
      var end, after := EndOf(v.connects, v.resolved), Settle(less, state, v);
      var rest := Polls(less, cfg, deadline, end, after, hosts[1..], envs[1..]);
      CallbackReads(less, cfg, deadline, end, after, hosts[1..], envs[1..], k);
      SettleFirst(less, state, v, Visits(less, cfg, deadline, end, after, hosts[1..], envs[1..]));
      VisitSettlesOneKey(less, cfg, deadline, at, state, hosts[0], envs[0], k);
      FirstRead(less, Lookup(state, k), Poll(v.key, r), rest, k);
    }
  }

  lemma FirstRead<A(!new)>(less: (A, A) -> bool, e: Entry<A>, p: Poll<A>, rest: seq<Poll<A>>, k: Key)
    ensures ReadsFrom(less, e, ReadsOf([p] + rest, k))
      == ReadsFrom(less, if p.key == k then ReadStep(less, e, p.read) else e, ReadsOf(rest, k))
  {
    assert ([p] + rest)[1..] == rest;
    if p.key == k {
      ReadsJoin(less, e, [p.read], ReadsOf(rest, k));
      OneRead(less, e, p.read);
    } else {
      assert [] + ReadsOf(rest, k) == ReadsOf(rest, k);
    }
  }

  /** After any callbacks, whatever they visit and in whatever order, each key's entry is what the
      selection machine makes of that key's own reads: no target moves another's address. */
  lemma {:induction false} TableIsReadRun<A(!new)>(less: (A, A) -> bool, callbacks: seq<Callback<A>>, k: Key)
    requires Matched(callbacks)
    ensures Lookup(Table(less, map[], callbacks), k) == ReadRun(less, ReadsOf(History(less, map[], callbacks), k))
  {
    if callbacks != [] {
      var front, c := callbacks[..|callbacks| - 1], callbacks[|callbacks| - 1];
      TableIsReadRun(less, front, k);
      assert c in callbacks;
      var before := Table(less, map[], front);
      var now := Polls(less, c.cfg, c.deadline, c.start, before, c.hosts, c.envs);
      CallbackReads(less, c.cfg, c.deadline, c.start, before, c.hosts, c.envs, k);
      ReadsOfJoin(History(less, map[], front), now, k);
      ReadsJoin(less, Entry(None, 0), ReadsOf(History(less, map[], front), k), ReadsOf(now, k));
    }
  }

  /** A visit of a key picks what the selection machine picks at that read. */
  lemma {:induction false} VisitPicks<A(!new)>(less: (A, A) -> bool, cfg: Config, deadline: real, at: real,
                                               state: map<Key, Entry<A>>, h: ReadCycle.Host, env: Environment<A>,
                                               past: seq<Read<A>>, polls: seq<Read<A>>)
    requires Lookup(state, KeyOf(h, cfg.defaultPort)) == ReadRun(less, past) && env.answer != []
    requires polls == past + [ReadAt(cfg, deadline, at, env)]
    ensures VisitOf(cfg, deadline, at, state, h, env).addr == Picked(less, Entry(None, 0), polls, |past|).selected
  {
    assert polls[..|past|] == past;
  }

  /** A visit that picks an address of those that are up gets a sample. */
  lemma {:induction false} UpMeansSample<A(!new)>(cfg: Config, deadline: real, at: real, state: map<Key, Entry<A>>,
                                                  h: ReadCycle.Host, env: Environment<A>)
    requires var v := VisitOf(cfg, deadline, at, state, h, env);
      v.addr.Some? && v.addr.value in ReadAt(cfg, deadline, at, env).up
    ensures Samples(VisitOf(cfg, deadline, at, state, h, env).connects) != []
  {
  }

  /** Recovery as the callback sees it: when a key's answers hold one set of `n` addresses without
      repeats and some of them answer, the visit after `5 (n - 1)` reads of the key gets a sample,
      whatever happened to other keys. */
  lemma {:induction false} CallbackRecovers<A(!new)>(less: (A, A) -> bool, callbacks: seq<Callback<A>>, cfg: Config,
                                                     deadline: real, at: real, h: ReadCycle.Host, env: Environment<A>,
                                                     k: Key, past: seq<Read<A>>, answer: seq<A>, live: set<A>)
    requires StrictTotal(less) && Matched(callbacks) && k == KeyOf(h, cfg.defaultPort)
    requires past == ReadsOf(History(less, map[], callbacks), k)
    requires |past| >= 5 * (|answer| - 1) && Steady(past + [ReadAt(cfg, deadline, at, env)], answer, live)
    requires Distinct(answer) && live != {}
    ensures var v := VisitOf(cfg, deadline, at, Table(less, map[], callbacks), h, env);
      && v.addr.Some? && v.addr.value in live
      && Samples(v.connects) != []
  {
    var r, state := ReadAt(cfg, deadline, at, env), Table(less, map[], callbacks);
    var polls := past + [r];
    assert polls[|past|] == r && r in polls;
    LastIsSteady(polls, r, answer, live);
    TableIsReadRun(less, callbacks, k);
    PluginRecovers(less, Entry(None, 0), polls, answer, live, |past|);
    VisitPicks(less, cfg, deadline, at, state, h, env, past, polls);
    UpMeansSample(cfg, deadline, at, state, h, env);
  }

  lemma {:induction false} LastIsSteady<A(!new)>(polls: seq<Read<A>>, r: Read<A>, answer: seq<A>, live: set<A>)
    requires Steady(polls, answer, live) && r in polls
    ensures r.answer != [] && live <= r.up
  {
    SameMultisetSameElems(r.answer, answer);
    EmptyElems(r.answer);
    EmptyElems(answer);
  }

  // ----- an outage overcome

  /** A host whose first address is dead and whose second answers at once. */
  function HalfDead<A(==)>(dead: A, alive: A): Environment<A> {
    Environment(0.0, [dead, alive], (x, i) => Reply(0.0, if x == alive then Some(20.0) else None))
  }

  /** The same callback over and over. */
  function Again<A>(c: Callback<A>, n: nat): (callbacks: seq<Callback<A>>)
    ensures |callbacks| == n && forall i | 0 <= i < n :: callbacks[i] == c
  {
    if n == 0 then [] else Again(c, n - 1) + [c]
  }

  lemma HalfDeadRead<A(!new)>(cfg: Config, deadline: real, at: real, dead: A, alive: A)
    requires dead != alive && cfg.timeout > 0.0 && cfg.pingCount == 1 && at < deadline
    ensures ReadAt(cfg, deadline, at, HalfDead(dead, alive)) == Read([dead, alive], {alive})
  {
    var env := HalfDead(dead, alive);
    forall a | a in env.answer ensures a in UpAt(cfg, deadline, at, env) <==> a == alive {
      var cs := Attempts(a, at, deadline, cfg.timeout, env.replies, 0, 1);
      assert cs == [ConnectTo(a, at, deadline, cfg.timeout, env.replies(a, 0))];
      AttemptsReportReplies(a, at, deadline, cfg.timeout, env.replies, 0, 1, 0);
      assert cs[..0] == [] && Samples(cs[..0]) == [];
    }
    assert alive in env.answer;
  }

  lemma OneHostPolls<A(!new)>(less: (A, A) -> bool, cfg: Config, deadline: real, at: real, state: map<Key, Entry<A>>,
                              h: ReadCycle.Host, env: Environment<A>)
    requires at < deadline
    ensures Polls(less, cfg, deadline, at, state, [h], [env])
      == [Poll(KeyOf(h, cfg.defaultPort), ReadAt(cfg, deadline, at, env))]
  {
    assert [h][1..] == [] && [env][1..] == [];
  }

  lemma OneMoreRead<A(!new)>(less: (A, A) -> bool, before: seq<Callback<A>>, c: Callback<A>, k: Key, r: Read<A>)
    requires Matched(before) && |c.hosts| == |c.envs|
    requires Polls(less, c.cfg, c.deadline, c.start, Table(less, map[], before), c.hosts, c.envs) == [Poll(k, r)]
    ensures Matched(before + [c])
    ensures ReadsOf(History(less, map[], before + [c]), k) == ReadsOf(History(less, map[], before), k) + [r]
  {
    var p := [Poll(k, r)];
    assert (before + [c])[..|before|] == before;
    assert p[1..] == [] && ReadsOf(p[1..], k) == [] && ReadsOf(p, k) == [r];
    ReadsOfJoin(History(less, map[], before), p, k);
  }

  ghost predicate Copies<A(!new)>(polls: seq<Read<A>>, n: nat, r: Read<A>) {
    |polls| == n && forall q | q in polls :: q == r
  }

  /** `n` callbacks that each read a key the same way leave `n` such reads. */
  lemma {:induction false} SameReads<A(!new)>(less: (A, A) -> bool, c: Callback<A>, h: ReadCycle.Host, env: Environment<A>,
                                              k: Key, r: Read<A>, n: nat)
    requires c.hosts == [h] && c.envs == [env] && c.start < c.deadline
    requires k == KeyOf(h, c.cfg.defaultPort) && r == ReadAt(c.cfg, c.deadline, c.start, env)
    ensures Copies(ReadsOf(History(less, map[], Again(c, n)), k), n, r)
  {
    if n > 0 {
      SameReads(less, c, h, env, k, r, n - 1);
      var before := Again(c, n - 1);
      OneHostPolls(less, c.cfg, c.deadline, c.start, Table(less, map[], before), h, env);
      OneMoreRead(less, before, c, k, r);
    }
  }

  lemma CopiesAreSteady<A(!new)>(polls: seq<Read<A>>, n: nat, r: Read<A>, live: set<A>)
    requires Copies(polls, n, r) && r.answer != [] && live == r.up * Elems(r.answer)
    ensures Steady(polls + [r], r.answer, live)
  {
  }

  /** With the dead address first, every callback from the sixth on gets a sample from the other. */
  lemma {:induction false} SixthCallbackGetsASample<A(!new)>(less: (A, A) -> bool, c: Callback<A>, h: ReadCycle.Host,
                                                             env: Environment<A>, dead: A, alive: A, n: nat)
    requires StrictTotal(less) && dead != alive && n >= 5
    requires c.cfg.timeout > 0.0 && c.cfg.pingCount == 1 && c.start < c.deadline
    requires c.hosts == [h] && c.envs == [env] && env == HalfDead(dead, alive)
    ensures var v := VisitOf(c.cfg, c.deadline, c.start, Table(less, map[], Again(c, n)), h, env);
      v.addr.Some? && v.addr.value in {alive} && Samples(v.connects) != []
  {
    var k, r := KeyOf(h, c.cfg.defaultPort), ReadAt(c.cfg, c.deadline, c.start, env);
    HalfDeadRead(c.cfg, c.deadline, c.start, dead, alive);
    SameReads(less, c, h, env, k, r, n);
    assert {alive} == r.up * Elems(r.answer);
    var past := ReadsOf(History(less, map[], Again(c, n)), k);
    CopiesAreSteady(past, n, r, {alive});
    CallbackRecovers(less, Again(c, n), c.cfg, c.deadline, c.start, h, env, k, past, r.answer, {alive});
  }
}
