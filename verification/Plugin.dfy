/** The collectd plugin: its module state and callbacks. */
module Plugin {
  import opened Wrappers
  import opened Canonical
  import opened PluginRotation
  import opened Text
  import opened HostText
  import opened ReadCycle
  import opened Callbacks
  import Statistics

  /** One configuration entry. Numbers arrive parsed, `None` when they were not numeric; the
      aggregation mode arrives in lower case. */
  datatype Node =
    | HostKey(raw: string)
    | PortKey(port: Option<int>)
    | TimeoutKey(timeout: Option<real>)
    | PingCountKey(count: Option<int>)
    | AggregateKey(mode: string)
    | UnknownKey

  function ParseHost(raw: string): Host {
    var (hostname, port) := SplitHostPort(raw);
    Host(raw, hostname, port)
  }

  /** The host list after an entry: repeated entries are dropped. */
  function Configured(hosts: seq<Host>, node: Node): seq<Host> {
    if node.HostKey? && ParseHost(node.raw) !in hosts then hosts + [ParseHost(node.raw)] else hosts
  }

  function ConfiguredAll(hosts: seq<Host>, nodes: seq<Node>): seq<Host> {
    if nodes == [] then hosts
    else Configured(ConfiguredAll(hosts, nodes[..|nodes| - 1]), nodes[|nodes| - 1])
  }

  datatype Settings = Settings(timeout: real, pingCount: int, defaultPort: int, useMin: bool)

  predicate InRange(s: Settings) {
    0.0 < s.timeout <= 60.0 && 1 <= s.pingCount <= 100 && ValidPort(s.defaultPort)
  }

  /** A setting changes only to a value in its range. */
  function Tuned(s: Settings, node: Node): Settings {
    match node
    case PortKey(Some(p)) => if ValidPort(p) then s.(defaultPort := p) else s
    case TimeoutKey(Some(t)) => if 0.0 < t <= 60.0 then s.(timeout := t) else s
    case PingCountKey(Some(c)) => if 1 <= c <= 100 then s.(pingCount := c) else s
    case AggregateKey(mode) => if mode == "avg" || mode == "min" then s.(useMin := mode == "min") else s
    case _ => s
  }

  function TunedAll(s: Settings, nodes: seq<Node>): Settings {
    if nodes == [] then s else Tuned(TunedAll(s, nodes[..|nodes| - 1]), nodes[|nodes| - 1])
  }

  /** The value a node asks for, when it is in range. */
  predicate AsksTimeout(node: Node, t: real) {
    node == TimeoutKey(Some(t)) && t > 0.0 && t <= 60.0
  }

  predicate AsksPingCount(node: Node, n: int) {
    node == PingCountKey(Some(n)) && n >= 1 && n <= 100
  }

  predicate AsksPort(node: Node, p: int) {
    node == PortKey(Some(p)) && p >= 1 && p <= 65535
  }

  predicate AsksMin(node: Node, min: bool) {
    node == AggregateKey(if min then "min" else "avg")
  }

  /** The setting after these nodes is the last value asked for, or the old one if there is none. */
  ghost predicate LastAsked<V(!new)>(asks: (Node, V) -> bool, nodes: seq<Node>, before: V, after: V) {
    || (after == before && forall i, v | 0 <= i < |nodes| :: !asks(nodes[i], v))
    || exists i :: 0 <= i < |nodes| && asks(nodes[i], after) && forall j, v | i < j < |nodes| :: !asks(nodes[j], v)
  }

  lemma LastAskedStep<V(!new)>(asks: (Node, V) -> bool, nodes: seq<Node>, node: Node, before: V, mid: V, after: V)
    requires nodes != [] && node == nodes[|nodes| - 1] && LastAsked(asks, nodes[..|nodes| - 1], before, mid)
    requires asks(node, after) || (after == mid && forall v :: !asks(node, v))
    ensures LastAsked(asks, nodes, before, after)
  {
    var front := nodes[..|nodes| - 1];
    if asks(node, after) {
    } else if exists i :: 0 <= i < |front| && asks(front[i], mid) && forall j, v | i < j < |front| :: !asks(front[j], v) {
      var i :| 0 <= i < |front| && asks(front[i], mid) && forall j, v | i < j < |front| :: !asks(front[j], v);
      assert asks(nodes[i], after);
      forall j, v | i < j < |nodes| ensures !asks(nodes[j], v) {
        if j < |front| { assert !asks(front[j], v); }
      }
    } else {
      forall i, v | 0 <= i < |nodes| ensures !asks(nodes[i], v) {
        if i < |front| { assert !asks(front[i], v); }
      }
    }
  }

  /** After any nodes each setting is the last value asked for that was in its range. */
  lemma {:induction false} SettingsAreLastAsked(s: Settings, nodes: seq<Node>)
    ensures var t := TunedAll(s, nodes);
      && LastAsked(AsksTimeout, nodes, s.timeout, t.timeout)
      && LastAsked(AsksPingCount, nodes, s.pingCount, t.pingCount)
      && LastAsked(AsksPort, nodes, s.defaultPort, t.defaultPort)
      && LastAsked(AsksMin, nodes, s.useMin, t.useMin)
  {
    if nodes != [] {
      var front, node := nodes[..|nodes| - 1], nodes[|nodes| - 1];
      SettingsAreLastAsked(s, front);
      var mid, t := TunedAll(s, front), TunedAll(s, nodes);
      TunedStep(mid, node);
      LastAskedStep(AsksTimeout, nodes, node, s.timeout, mid.timeout, t.timeout);
      LastAskedStep(AsksPingCount, nodes, node, s.pingCount, mid.pingCount, t.pingCount);
      LastAskedStep(AsksPort, nodes, node, s.defaultPort, mid.defaultPort, t.defaultPort);
      LastAskedStep(AsksMin, nodes, node, s.useMin, mid.useMin, t.useMin);
    }
  }

  lemma TunedStep(s: Settings, node: Node)
    ensures var t := Tuned(s, node);
      && (AsksTimeout(node, t.timeout) || (t.timeout == s.timeout && forall v :: !AsksTimeout(node, v)))
      && (AsksPingCount(node, t.pingCount) || (t.pingCount == s.pingCount && forall v :: !AsksPingCount(node, v)))
      && (AsksPort(node, t.defaultPort) || (t.defaultPort == s.defaultPort && forall v :: !AsksPort(node, v)))
      && (AsksMin(node, t.useMin) || (t.useMin == s.useMin && forall v :: !AsksMin(node, v)))
  {
  }

  /** Every host is the parse of its raw text and no raw text occurs twice. */
  ghost predicate HostsOk(hosts: seq<Host>) {
    && (forall h {:trigger ParseHost(h.raw)} | h in hosts :: h == ParseHost(h.raw))
    && (forall i, j | 0 <= i < j < |hosts| :: hosts[i].raw != hosts[j].raw)
  }

  /** Configuring keeps hosts and their order, never repeats one, and lists every one asked for. */
  lemma ConfiguredIsOk(hosts: seq<Host>, node: Node)
    requires HostsOk(hosts)
    ensures HostsOk(Configured(hosts, node)) && hosts <= Configured(hosts, node)
    ensures node.HostKey? ==> ParseHost(node.raw) in Configured(hosts, node)
  {
    if node.HostKey? && ParseHost(node.raw) !in hosts {
      forall i | 0 <= i < |hosts| ensures hosts[i].raw != node.raw {
        assert hosts[i] == ParseHost(hosts[i].raw);
      }
    }
  }

  function Raws(hosts: seq<Host>): set<string> {
    set h | h in hosts :: h.raw
  }

  /** After any entries in any number of blocks: earlier hosts keep their places, and the texts
      listed are exactly the earlier ones and those asked for, each once. */
  lemma {:induction false} ConfiguredAllSpec(hosts: seq<Host>, nodes: seq<Node>)
    requires HostsOk(hosts)
    ensures var all := ConfiguredAll(hosts, nodes);
      && HostsOk(all) && hosts <= all
      && forall raw :: raw in Raws(all) <==> raw in Raws(hosts) || HostKey(raw) in nodes
  {
    if nodes != [] {
      var front, node := nodes[..|nodes| - 1], nodes[|nodes| - 1];
      ConfiguredAllSpec(hosts, front);
      ConfiguredIsOk(ConfiguredAll(hosts, front), node);
      ConfiguredRaws(ConfiguredAll(hosts, front), node);
      assert nodes == front + [node];
    }
  }

  lemma ConfiguredRaws(hosts: seq<Host>, node: Node)
    requires HostsOk(hosts)
    ensures Raws(Configured(hosts, node)) == Raws(hosts) + if node.HostKey? then {node.raw} else {}
  {
    if node.HostKey? {
      var h := ParseHost(node.raw);
      assert h in hosts + [h] && forall g | g in hosts :: g in hosts + [h];
    }
  }

  function LabelOf(h: Host): string {
    SeriesLabel(h.hostname, h.port)
  }

  function Labels(hosts: seq<Host>): set<string> {
    set h | h in hosts :: LabelOf(h)
  }

  lemma LabelsStep(hosts: seq<Host>, h: Host)
    ensures Labels(hosts + [h]) == Labels(hosts) + {LabelOf(h)}
  {
  }

  ghost predicate DistinctLabels(hosts: seq<Host>) {
    forall i, j | 0 <= i < j < |hosts| :: LabelOf(hosts[i]) != LabelOf(hosts[j])
  }

  lemma DistinctStep(front: seq<Host>, h: Host)
    ensures DistinctLabels(front + [h]) <==> DistinctLabels(front) && LabelOf(h) !in Labels(front)
  {
    var hosts := front + [h];
    if DistinctLabels(hosts) {
      forall i, j | 0 <= i < j < |front| ensures LabelOf(front[i]) != LabelOf(front[j]) {
        assert LabelOf(hosts[i]) != LabelOf(hosts[j]);
      }
      forall g | g in front ensures LabelOf(g) != LabelOf(h) {
        var i :| 0 <= i < |front| && front[i] == g;
        assert LabelOf(hosts[i]) != LabelOf(hosts[|front|]);
      }
    }
    forall i | 0 <= i < |front| ensures LabelOf(front[i]) in Labels(front) {
      assert front[i] in front;
    }
  }

  /** There are as many labels as hosts exactly when no two hosts share one. */
  lemma {:induction false} LabelCount(hosts: seq<Host>)
    ensures |Labels(hosts)| <= |hosts|
    ensures |Labels(hosts)| == |hosts| <==> DistinctLabels(hosts)
  {
    if hosts == [] {
      assert Labels(hosts) == {};
    } else {
      var front, h := hosts[..|hosts| - 1], hosts[|hosts| - 1];
      assert hosts == front + [h];
      LabelCount(front);
      LabelsStep(front, h);
      DistinctStep(front, h);
      assert LabelOf(h) in Labels(front) ==> Labels(front) + {LabelOf(h)} == Labels(front);
    }
  }

  /** How many collision warnings these hosts bring. */
  function CollisionCount(hosts: seq<Host>): int {
    |hosts| - |Labels(hosts)|
  }

  /** Two hosts bring one warning if their labels meet and none otherwise. */
  lemma TwoHosts(a: Host, b: Host)
    ensures CollisionCount([a, b]) == if LabelOf(a) == LabelOf(b) then 1 else 0
  {
    assert a in [a, b] && b in [a, b];
    assert Labels([a, b]) == {LabelOf(a), LabelOf(b)};
  }

  lemma ParsedWithPort(name: string, port: nat)
    requires ':' !in name && !OpensBracket(name) && ValidPort(port)
    ensures ParseHost(name + ":" + Dec(port)) == Host(name + ":" + Dec(port), name, Some(port))
  {
    PlainRoundTrip(name, Some(port));
    assert name + PortSuffix(Some(port)) == name + ":" + Dec(port);
  }

  /** A name that spells out another with its port collides with it, as `db_9999` with `db:9999`. */
  lemma SpelledOutPortCollides(name: string, port: nat)
    requires ':' !in name && !OpensBracket(name) && ValidPort(port)
    ensures CollisionCount([ParseHost(name + "_" + Dec(port)), ParseHost(name + ":" + Dec(port))]) == 1
  {
    var bare := name + "_" + Dec(port);
    ParsedWithPort(name, port);
    assert bare[0] == (name + "_")[0];
    assert forall c | c in bare :: c in name || c == '_' || c in Dec(port);
    PlainRoundTrip(bare, None);
    assert bare + PortSuffix(None) == bare;
    LabelsMeet(bare, None, name, Some(port));
    TwoHosts(ParseHost(bare), ParseHost(name + ":" + Dec(port)));
  }

  /** Two ports of one host do not collide, as `db:5432` and `db:6543`. */
  lemma TwoPortsDoNotCollide(name: string, p: nat, q: nat)
    requires ':' !in name && !OpensBracket(name) && ValidPort(p) && ValidPort(q) && p != q
    ensures CollisionCount([ParseHost(name + ":" + Dec(p)), ParseHost(name + ":" + Dec(q))]) == 0
  {
    ParsedWithPort(name, p);
    ParsedWithPort(name, q);
    LabelsMeet(name, Some(p), name, Some(q));
    TwoHosts(ParseHost(name + ":" + Dec(p)), ParseHost(name + ":" + Dec(q)));
  }

  /** Two hosts that report as one series. */
  datatype Collision = Collision(raw: string, earlier: string, series: string)

  /** Some host has this raw text and this label. */
  ghost predicate Names(hosts: seq<Host>, raw: string, series: string) {
    exists h :: h in hosts && h.raw == raw && LabelOf(h) == series
  }

  /** Two different Host values with one label. */
  ghost predicate Genuine(hosts: seq<Host>, w: Collision) {
    w.raw != w.earlier && Names(hosts, w.raw, w.series) && Names(hosts, w.earlier, w.series)
  }

  /** `seen` holds, per label of these hosts, the raw text of one of them. */
  ghost predicate SeenOk(seen: map<string, string>, hosts: seq<Host>) {
    && seen.Keys == Labels(hosts)
    && forall s | s in seen :: Names(hosts, seen[s], s)
  }

  /** Looking up one more host, whose raw text is new. */
  lemma SeenStep(seen: map<string, string>, hosts: seq<Host>, h: Host)
    requires SeenOk(seen, hosts) && forall g | g in hosts :: g.raw != h.raw
    ensures LabelOf(h) in seen ==>
      SeenOk(seen, hosts + [h]) && Genuine(hosts + [h], Collision(h.raw, seen[LabelOf(h)], LabelOf(h)))
    ensures LabelOf(h) !in seen ==>
      SeenOk(seen[LabelOf(h) := h.raw], hosts + [h]) && |seen[LabelOf(h) := h.raw]| == |seen| + 1
  {
  }

  /** The warnings and labels are those of these hosts. */
  ghost predicate Checked(hosts: seq<Host>, seen: map<string, string>, warnings: seq<Collision>) {
    && SeenOk(seen, hosts)
    && |warnings| == |hosts| - |seen|
    && forall w | w in warnings :: Genuine(hosts, w)
  }

  lemma WarningsGrow(hosts: seq<Host>, h: Host, warnings: seq<Collision>)
    requires forall w | w in warnings :: Genuine(hosts, w)
    ensures forall w | w in warnings :: Genuine(hosts + [h], w)
  {
  }

  /** Checks one more host against the labels seen so far. */
  method CheckHost(ghost hosts: seq<Host>, h: Host, seen: map<string, string>, warnings: seq<Collision>)
    returns (seen': map<string, string>, warnings': seq<Collision>)
    requires Checked(hosts, seen, warnings) && forall g | g in hosts :: g.raw != h.raw
    ensures Checked(hosts + [h], seen', warnings')
  {
    seen', warnings' := seen, warnings;
    SeenStep(seen, hosts, h);
    WarningsGrow(hosts, h, warnings);
    var series := SeriesLabel(h.hostname, h.port);
    if series in seen && seen[series] != h.raw {
      warnings' := warnings + [Collision(h.raw, seen[series], series)];
    } else {
      assert series !in seen;
      seen' := seen[series := h.raw];
    }
  }

  lemma Prefix(hosts: seq<Host>, i: nat)
    requires i < |hosts|
    ensures hosts[..i + 1] == hosts[..i] + [hosts[i]]
    ensures HostsOk(hosts) ==> forall g | g in hosts[..i] :: g.raw != hosts[i].raw
  {
  }

  class Plugin<A(==, !new)> {
    const less: (A, A) -> bool
    const sqrt: real -> real
    var hosts: seq<Host>
    var timeout: real
    var pingCount: nat
    var defaultPort: nat
    var useMin: bool
    var addrState: map<Key, Entry<A>>
    /** The read callbacks so far. */
    ghost var callbacks: seq<Callback<A>>

    ghost predicate Valid()
      reads `hosts, `timeout, `pingCount, `defaultPort, `useMin
    {
      HostsOk(hosts) && InRange(CurrentSettings())
    }

    /** The selection table is the work of the callbacks so far. */
    ghost predicate Tracked()
      reads `addrState, `callbacks
    {
      Matched(callbacks) && addrState == Table(less, map[], callbacks)
    }

    function Config(): ReadCycle.Config
      reads `timeout, `pingCount, `defaultPort
    {
      ReadCycle.Config(timeout, pingCount, defaultPort)
    }

    function CurrentSettings(): Settings
      reads `timeout, `pingCount, `defaultPort, `useMin
    {
      Settings(timeout, pingCount, defaultPort, useMin)
    }

    constructor (less: (A, A) -> bool, sqrt: real -> real)
      ensures Valid() && Tracked() && hosts == [] && callbacks == []
    {
      this.less, this.sqrt := less, sqrt;
      callbacks := [];
      hosts, timeout, pingCount, defaultPort, useMin, addrState := [], 5.0, 1, 9999, false, map[];
    }

    /** Called once per configuration block; a bad value keeps the setting, a repeated host is
        ignored. */
    method ConfigCb(nodes: seq<Node>)
      requires Valid()
      modifies `hosts, `timeout, `pingCount, `defaultPort, `useMin
      ensures Valid() && hosts == ConfiguredAll(old(hosts), nodes)
      ensures CurrentSettings() == TunedAll(old(CurrentSettings()), nodes)
    {
      for i := 0 to |nodes|
        invariant hosts == ConfiguredAll(old(hosts), nodes[..i]) && InRange(CurrentSettings())
        invariant CurrentSettings() == TunedAll(old(CurrentSettings()), nodes[..i])
      {
        assert nodes[..i + 1][..i] == nodes[..i];
        match nodes[i] {
          case HostKey(raw) =>
            var (hostname, port) := SplitHostPort(raw);
            var entry := Host(raw, hostname, port);
            if entry !in hosts {
              hosts := hosts + [entry];
            }
          case PortKey(port) =>
            if port.Some? && ValidPort(port.value) { defaultPort := port.value; }
          case TimeoutKey(t) =>
            if t.Some? && 0.0 < t.value <= 60.0 { timeout := t.value; }
          case PingCountKey(count) =>
            if count.Some? && 1 <= count.value <= 100 { pingCount := count.value; }
          case AggregateKey(mode) =>
            if mode == "avg" || mode == "min" { useMin := mode == "min"; }
          case UnknownKey =>
        }
      }
      assert nodes[..|nodes|] == nodes;
      ConfiguredAllSpec(old(hosts), nodes);
    }

    /** One warning per host whose series label an earlier host already has: silence means that
        all labels differ, and each warning names two different Host values. */
    method WarnOnLabelCollisions() returns (warnings: seq<Collision>)
      requires Valid()
      ensures |warnings| == CollisionCount(hosts)
      ensures warnings == [] <==> DistinctLabels(hosts)
      ensures forall w | w in warnings :: Genuine(hosts, w)
    {
      warnings := [];
      var seen: map<string, string> := map[];
      assert Labels([]) == {};
      for i := 0 to |hosts|
        invariant Checked(hosts[..i], seen, warnings)
      {
        Prefix(hosts, i);
        seen, warnings := CheckHost(hosts[..i], hosts[i], seen, warnings);
      }
      assert hosts[..|hosts|] == hosts;
      assert |seen| == |seen.Keys|;
      LabelCount(hosts);
    }

    /** Picks the address to probe this cycle. */
    method PreferredAddress(key: Key, addrs: seq<A>) returns (addr: Option<A>)
      modifies `addrState
      ensures addrs == [] ==> addr.None? && addrState == old(addrState)
      ensures addrs != [] ==>
        && addrState == old(addrState)[key := Prefer(Lookup(old(addrState), key), addrs)]
        && addr == addrState[key].selected
    {
      if addrs == [] {
        return None;
      }
      var entry := Lookup(addrState, key);
      var selected := entry.selected;
      if selected.None? || selected.value !in addrs {
        selected := Some(addrs[0]);
      }
      addrState := addrState[key := Entry(selected, entry.failures)];
      return selected;
    }

    /** Advances to the next address after a run of failures. */
    method RecordOutcome(key: Key, addrs: seq<A>, succeeded: bool)
      modifies `addrState
      ensures addrState ==
        if addrs == [] then old(addrState)
        else old(addrState)[key := Record(less, Lookup(old(addrState), key), addrs, succeeded)]
    {
      if addrs == [] {
        return;
      }
      var entry := Lookup(addrState, key);
      if succeeded {
        addrState := addrState[key := Entry(entry.selected, 0)];
        return;
      }
      var failures := entry.failures + 1;
      if failures < ROTATE_AFTER_FAILURES || |addrs| < 2 {
        addrState := addrState[key := Entry(entry.selected, failures)];
        return;
      }
      var next := After(Sort(less, addrs), entry.selected);
      addrState := addrState[key := Entry(Some(next), 0)];
    }

    /** The attempts on one resolved host: stops when the budget is gone. */
    method TakeSamples(addr: Option<A>, at: real, deadline: real, timeout: real, pingCount: nat,
                       replies: (A, nat) -> Reply)
      returns (connects: seq<Connect<A>>, samples: seq<real>, attempts: nat, now: real)
      ensures connects == if addr.None? then [] else Attempts(addr.value, at, deadline, timeout, replies, 0, pingCount)
      ensures samples == Samples(connects) && attempts == |connects| && now == EndOf(connects, at)
    {
      connects, samples, attempts, now := [], [], 0, at;
      if addr.None? {
        return;
      }
      ghost var all := Attempts(addr.value, at, deadline, timeout, replies, 0, pingCount);
      var i := 0;
      while i < pingCount
        invariant i <= pingCount
        invariant connects + Attempts(addr.value, now, deadline, timeout, replies, i, pingCount) == all
        invariant samples == Samples(connects) && attempts == |connects| && now == EndOf(connects, at)
      {
        var remaining := deadline - now;
        if remaining <= 0.0 {
          assert connects + [] == connects;
          return;
        }
        attempts := attempts + 1;
        var c := ConnectTo(addr.value, now, deadline, timeout, replies(addr.value, i));
        SamplesStep(connects, c);
        JoinStep(connects, c, Attempts(addr.value, c.end, deadline, timeout, replies, i + 1, pingCount));
        connects := connects + [c];
        now := c.end;
        if c.rtt.Some? {
          samples := samples + [c.rtt.value];
        }
        i := i + 1;
      }
      assert connects + [] == connects;
    }

    /** One read callback over a given environment: visits hosts until the budget is gone and
        emits three values for each. */
    method ReadCb(start: real, interval: Option<real>, envs: seq<Environment<A>>)
      returns (visits: seq<Visit<A>>, emitted: seq<Value>, now: real)
      requires Tracked() && |envs| == |hosts|
      modifies `addrState, `callbacks
      ensures Tracked()
      ensures callbacks == old(callbacks) + [Callback(Config(), start, start + ReadBudget(interval), hosts, envs)]
      ensures Progress(visits, emitted, addrState, now)
        == Outcome(less, Config(), start + ReadBudget(interval), start, old(addrState), hosts, envs, Reporting(useMin, sqrt))
    {
      var cfg, how := Config(), Reporting(useMin, sqrt);
      var deadline := start + ReadBudget(interval);
      visits, emitted, now := VisitHosts(cfg, deadline, start, how, envs);
      ghost var c := Callback(cfg, start, deadline, hosts, envs);
      Log(c, how, old(addrState), Progress(visits, emitted, addrState, now));
    }

    ghost method Log(c: Callback<A>, how: Reporting, before: map<Key, Entry<A>>, p: Progress<A>)
      requires Matched(callbacks) && before == Table(less, map[], callbacks) && |c.hosts| == |c.envs|
      requires p == Outcome(less, c.cfg, c.deadline, c.start, before, c.hosts, c.envs, how) && addrState == p.state
      modifies `callbacks
      ensures callbacks == old(callbacks) + [c] && Tracked()
    {
      TableStep(less, before, callbacks, c, how, p);
      callbacks := callbacks + [c];
    }

    /** After any configuration and any callbacks, each key's entry is what the selection machine
        makes of that key's own reads. */
    lemma KeysStayApart(k: Key)
      requires Tracked()
      ensures Lookup(addrState, k) == ReadRun(less, ReadsOf(History(less, map[], callbacks), k))
    {
      TableIsReadRun(less, callbacks, k);
    }

    /** The host loop of the callback. */
    method VisitHosts(cfg: ReadCycle.Config, deadline: real, start: real, how: Reporting, envs: seq<Environment<A>>)
      returns (visits: seq<Visit<A>>, emitted: seq<Value>, now: real)
      requires |envs| == |hosts|
      modifies `addrState
      ensures Progress(visits, emitted, addrState, now)
        == Outcome(less, cfg, deadline, start, old(addrState), hosts, envs, how)
    {
      visits, emitted, now := [], [], start;
      ghost var state, p := addrState, Progress([], [], addrState, start);
      StartsOnTrack(less, cfg, deadline, start, state, hosts, envs, how);
      var i := 0;
      while i < |hosts| && now < deadline
        invariant i <= |hosts| && p == Progress(visits, emitted, addrState, now)
        invariant OnTrack(less, cfg, deadline, start, state, hosts, envs, how, i, p)
      {
        ghost var next := StaysOnTrack(less, cfg, deadline, start, state, hosts, envs, how, i, p);
        var v, values := VisitHost(cfg, deadline, now, how, hosts[i], envs[i]);
        visits, emitted, now := visits + [v], emitted + values, EndOf(v.connects, v.resolved);
        assert next == Progress(visits, emitted, addrState, now);
        p := next;
        i := i + 1;
      }
      EndsOnTrack(less, cfg, deadline, start, state, hosts, envs, how, i, p);
    }

    /** The part of the callback about one host: resolve, pick, probe, record, report. */
    method VisitHost(cfg: ReadCycle.Config, deadline: real, at: real, how: Reporting, h: Host, env: Environment<A>)
      returns (v: Visit<A>, values: seq<Value>)
      modifies `addrState
      ensures v == VisitOf(cfg, deadline, at, old(addrState), h, env)
      ensures addrState == Settle(less, old(addrState), v)
      ensures values == Emission(v, how)
    {
      var port := if h.port.Some? then h.port.value else cfg.defaultPort;
      var series := SeriesLabel(h.hostname, h.port);
      var now := at + env.resolveTime;
      var key := (h.hostname, port);
      var addr := PreferredAddress(key, env.answer);
      ghost var picked := addrState;
      var connects, samples, attempts, end := TakeSamples(addr, now, deadline, cfg.timeout, cfg.pingCount, env.replies);
      RecordOutcome(key, env.answer, samples != []);
      if env.answer != [] {
        OverwriteKey(old(addrState), key, picked[key], Record(less, picked[key], env.answer, samples != []));
      }
      v := Visit(series, key, at, now, env.answer, addr, connects);
            values := Report(v, attempts, samples, how);
    }

    /** Drop rate, aggregate and spread of one host. */
    static method Report(v: Visit<A>, attempts: nat, samples: seq<real>, how: Reporting) returns (values: seq<Value>)
      requires samples == Samples(v.connects) && attempts == |v.connects|
      ensures values == Emission(v, how)
    {
      var dropRate: Option<real>;
      if v.addr.None? {
        dropRate := Some(1.0);
      } else if attempts == 0 {
        dropRate := None;
      } else {
        dropRate := Some((attempts - |samples|) as real / attempts as real);
      }

      var reported: Option<real>, stddev: Option<real> := None, None;
      if samples != [] {
        var mean := Statistics.Mean(samples);
        reported := Some(if how.useMin then Statistics.Min(samples) else mean);
        if |samples| > 1 {
          var variance := Statistics.Squares(samples, mean) / |samples| as real;
          stddev := Some(how.sqrt(variance));
        }
      }
      values := [Value(v.series, Ping, reported), Value(v.series, DropRate, dropRate), Value(v.series, Stddev, stddev)];
    }
  }

  lemma OverwriteKey<K, V>(m: map<K, V>, k: K, a: V, b: V)
    ensures m[k := a][k := b] == m[k := b]
  {
  }
}
