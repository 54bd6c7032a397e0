/** The accept-and-drop server: the io_uring loop, its blocking fallback, and what they share. */
module AcceptLoop {
  import opened Wrappers

  const ACCEPT_TOKEN: nat := 1
  const SQ_ENTRIES: nat := 256
  const EAGAIN: int := 11
  const EWOULDBLOCK: int := 11
  const BACKOFF_MS: nat := 50
  const I32_MIN: int := -0x8000_0000
  const I32_MAX: int := 0x7FFF_FFFF

  /** How an attempt to close ends: an error may be reported after the kernel has released the
      descriptor all the same, as Linux does for most errors. */
  datatype Close = Closed | Released | Kept

  /** What the kernel decides about one accept: a descriptor or a negated errno, what closing that
      descriptor does, and how far the backoff sleep overshoots. */
  datatype Completion = Completion(result: int, close: Close, oversleep: nat)

  datatype Cqe = Cqe(userData: nat, completion: Completion)

  datatype Status = Woke | Interrupted | Failed

  /** One wait: what completes meanwhile (possibly nothing), how the call returns and when, and
      whether the next submission is taken. */
  datatype Wait = Wait(done: seq<Completion>, status: Status, delay: nat, submits: bool)

  datatype Event = Armed | Accepted(fd: int) | CloseTried(fd: int, close: Close) | Warned

  datatype ServerEnd = Running | SqFull | SubmitFailed | WaitFailed

  /** The kernel's completion entries for these operations, in order. */
  function Echo(tokens: seq<nat>, done: seq<Completion>): (r: seq<Cqe>)
    requires |tokens| == |done|
    ensures |r| == |done| && forall i | 0 <= i < |r| :: r[i] == Cqe(tokens[i], done[i])
  {
    if done == [] then [] else [Cqe(tokens[0], done[0])] + Echo(tokens[1..], done[1..])
  }

  /** The two queues and the operations the kernel holds. Completions echo the user data of the
      operations they complete, and there is at most one per operation in flight. */
  class Ring {
    var sq: seq<nat>
    var inFlight: seq<nat>
    var cq: seq<Cqe>

    constructor ()
      ensures sq == [] && inFlight == [] && cq == []
    {
      sq, inFlight, cq := [], [], [];
    }

    method Push(userData: nat) returns (ok: bool)
      modifies this`sq
      ensures ok == (|old(sq)| < SQ_ENTRIES)
      ensures sq == if ok then old(sq) + [userData] else old(sq)
    {
      ok := |sq| < SQ_ENTRIES;
      if ok { sq := sq + [userData]; }
    }

    method Submit()
      modifies this`sq, this`inFlight
      ensures sq == [] && inFlight == old(inFlight) + old(sq)
    {
      inFlight, sq := inFlight + sq, [];
    }

    method SubmitAndWait(w: Wait)
      modifies this
      ensures sq == []
      ensures var flying := old(inFlight) + old(sq);
        var n := if |w.done| <= |flying| then |w.done| else |flying|;
        inFlight == flying[n..] && cq == old(cq) + Echo(flying[..n], w.done[..n])
    {
      Submit();
      var n := if |w.done| <= |inFlight| then |w.done| else |inFlight|;
      cq := cq + Echo(inFlight[..n], w.done[..n]);
      inFlight := inFlight[n..];
    }

    method Drain() returns (entries: seq<Cqe>)
      modifies this`cq
      ensures entries == old(cq) && cq == []
    {
      entries, cq := cq, [];
    }
  }

  function Errno(result: int): int {
    if result == I32_MIN then I32_MAX else -result
  }

  predicate Transient(c: Completion) {
    c.result < 0 && (Errno(c.result) == EAGAIN || Errno(c.result) == EWOULDBLOCK)
  }

  /** What handling one completion leaves in the trace. */
  function Handled(c: Completion): seq<Event> {
    if c.result >= 0 then [Accepted(c.result), CloseTried(c.result, c.close)]
    else if Transient(c) then []
    else [Warned]
  }

  /** One accept is armed at the start and again after each completion, once that is dealt with. */
  function ArmedTrace(served: seq<Completion>): seq<Event> {
    if served == [] then [Armed]
    else ArmedTrace(served[..|served| - 1]) + Handled(served[|served| - 1]) + [Armed]
  }

  /** The completion in the queue after a wait, if any: an earlier one stays. */
  function Ready(queued: Option<Completion>, w: Wait): Option<Completion> {
    if queued.Some? then queued else if w.done != [] then Some(w.done[0]) else None
  }

  /** The completion left in the queue when the loop is back at its head. */
  function LeftQueued(queued: Option<Completion>, w: Wait): Option<Completion> {
    if w.status.Woke? then None else Ready(queued, w)
  }

  /** The completions handed to the loop so far, one per armed accept, and the one that sits in
      the completion queue because a wait was interrupted. */
  datatype Serving = Serving(served: seq<Completion>, queued: Option<Completion>)

  function Advance(s: Serving, w: Wait): Serving {
    var ready := Ready(s.queued, w);
    Serving(if w.status.Woke? && ready.Some? then s.served + [ready.value] else s.served,
            LeftQueued(s.queued, w))
  }

  function Served(script: seq<Wait>): Serving {
    if script == [] then Serving([], None)
    else Advance(Served(script[..|script| - 1]), script[|script| - 1])
  }

  lemma ServedStep(script: seq<Wait>, i: nat)
    requires i < |script|
    ensures Served(script[..i + 1]) == Advance(Served(script[..i]), script[i])
  {
    assert script[..i + 1][..i] == script[..i];
  }

  function Warnings(trace: seq<Event>): nat {
    if trace == [] then 0
    else Warnings(trace[..|trace| - 1]) + if trace[|trace| - 1].Warned? then 1 else 0
  }

  lemma {:induction false} WarningsJoin(a: seq<Event>, b: seq<Event>)
    ensures Warnings(a + b) == Warnings(a) + Warnings(b)
  {
    if b == [] {
      assert a + b == a;
    } else {
      var t := a + b;
      assert t[..|t| - 1] == a + b[..|b| - 1] && t[|t| - 1] == b[|b| - 1];
      WarningsJoin(a, b[..|b| - 1]);
    }
  }

  lemma WarningsHandled(c: Completion)
    ensures Warnings(Handled(c)) == if Handled(c) == [Warned] then 1 else 0
    ensures Warnings([Armed]) == 0
  {
    assert [Armed][..0] == [] && [Warned][..0] == [];
    if c.result >= 0 {
      WarningsJoin([Accepted(c.result)], [CloseTried(c.result, c.close)]);
      assert Handled(c) == [Accepted(c.result)] + [CloseTried(c.result, c.close)];
      assert [Accepted(c.result)][..0] == [] && [CloseTried(c.result, c.close)][..0] == [];
    }
  }

  /** Any two warnings are at least 50 ms apart. */
  ghost predicate Spaced(times: seq<nat>, now: nat) {
    && (forall i, j | 0 <= i < j < |times| :: times[i] + 50 <= times[j])
    && (forall t | t in times :: t + 50 <= now)
  }

  lemma SpacedStep(times: seq<nat>, now: nat, later: nat)
    requires Spaced(times, now) && later >= now + BACKOFF_MS
    ensures Spaced(times + [now], later)
  {
    assert forall i | 0 <= i < |times| :: times[i] in times;
  }

  method PushAccept(ring: Ring) returns (ok: bool)
    modifies ring`sq
    ensures ok == (|old(ring.sq)| < SQ_ENTRIES)
    ensures ring.sq == if ok then old(ring.sq) + [ACCEPT_TOKEN] else old(ring.sq)
  {
    ok := ring.Push(ACCEPT_TOKEN);
  }

  /** Pushes one accept and submits it. */
  method Arm(ring: Ring, submits: bool) returns (end: ServerEnd)
    modifies ring`sq, ring`inFlight
    ensures |old(ring.sq)| < SQ_ENTRIES ==> end == if submits then Running else SubmitFailed
    ensures end.Running? ==> ring.sq == [] && ring.inFlight == old(ring.inFlight) + old(ring.sq) + [ACCEPT_TOKEN]
  {
    var pushed := PushAccept(ring);
    if !pushed { return SqFull; }
    if !submits { return SubmitFailed; }
    ring.Submit();
    assert ring.inFlight == old(ring.inFlight) + old(ring.sq) + [ACCEPT_TOKEN];
    end := Running;
  }

  /** The body of the drain loop: close the descriptor, or report the error and back off. */
  method HandleCompletion(c: Completion, warnedAt: seq<nat>, now: nat)
    returns (events: seq<Event>, warnedAt': seq<nat>, now': nat)
    requires Spaced(warnedAt, now)
    ensures events == Handled(c) && Spaced(warnedAt', now')
    ensures warnedAt' == if events == [Warned] then warnedAt + [now] else warnedAt
    ensures now' == if events == [Warned] then now + BACKOFF_MS + c.oversleep else now
  {
    events, warnedAt', now' := [], warnedAt, now;
    var fd := c.result;
    if fd >= 0 {
      events := events + [Accepted(fd)];
      events := events + [CloseTried(fd, c.close)];
    } else {
      var errno := if fd == I32_MIN then I32_MAX else -fd;
      if errno != EAGAIN && errno != EWOULDBLOCK {
        events := events + [Warned];
        SpacedStep(warnedAt', now', now' + BACKOFF_MS + c.oversleep);
        warnedAt' := warnedAt' + [now'];
        now' := now' + BACKOFF_MS + c.oversleep;
      }
    }
  }

  predicate IsAccept(e: Cqe) {
    e.userData == ACCEPT_TOKEN
  }

  predicate AnyAccept(entries: seq<Cqe>) {
    entries != [] && (AnyAccept(entries[..|entries| - 1]) || IsAccept(entries[|entries| - 1]))
  }

  function HandledAll(entries: seq<Cqe>): seq<Event> {
    if entries == [] then []
    else
      var e := entries[|entries| - 1];
      HandledAll(entries[..|entries| - 1]) + if IsAccept(e) then Handled(e.completion) else []
  }

  /** Handles every accept completion of a drained queue; any of them asks for a re-arm. */
  method HandleAll(entries: seq<Cqe>, warnedAt: seq<nat>, now: nat)
    returns (events: seq<Event>, rearm: bool, warnedAt': seq<nat>, now': nat)
    requires Spaced(warnedAt, now)
    ensures events == HandledAll(entries)
    ensures rearm <==> AnyAccept(entries)
    ensures Spaced(warnedAt', now') && |warnedAt'| == |warnedAt| + Warnings(events)
  {
    events, rearm, warnedAt', now' := [], false, warnedAt, now;
    var i := 0;
    while i < |entries|
      invariant i <= |entries|
      invariant events == HandledAll(entries[..i])
      invariant rearm <==> AnyAccept(entries[..i])
      invariant Spaced(warnedAt', now') && |warnedAt'| == |warnedAt| + Warnings(events)
    {
      assert entries[..i + 1][..i] == entries[..i];
      if IsAccept(entries[i]) {
        var more;
        more, warnedAt', now' := HandleCompletion(entries[i].completion, warnedAt', now');
        WarningsJoin(events, more);
        WarningsHandled(entries[i].completion);
        events := events + more;
        rearm := true;
      }
      i := i + 1;
    }
    assert entries[..i] == entries;
  }

  /** Exactly one accept is outstanding, in the kernel or completed and not yet read. */
  ghost predicate OneOutstanding(sq: seq<nat>, inFlight: seq<nat>, cq: seq<Cqe>, queued: Option<Completion>) {
    && sq == []
    && match queued
       case None => inFlight == [ACCEPT_TOKEN] && cq == []
       case Some(c) => inFlight == [] && cq == [Cqe(ACCEPT_TOKEN, c)]
  }

  lemma HandledOne(entries: seq<Cqe>)
    ensures entries == [] ==> HandledAll(entries) == [] && !AnyAccept(entries)
    ensures |entries| == 1 && IsAccept(entries[0]) ==>
      HandledAll(entries) == Handled(entries[0].completion) && AnyAccept(entries)
  {
  }

  lemma ArmedTraceStep(served: seq<Completion>, c: Completion)
    ensures ArmedTrace(served + [c]) == ArmedTrace(served) + Handled(c) + [Armed]
    ensures ArmedTrace(served + [c]) == ArmedTrace(served) + (Handled(c) + [Armed])
  {
  }

  /** The trace up to an ending: only a failed submission leaves the next accept unarmed. */
  predicate TraceOf(end: ServerEnd, trace: seq<Event>, served: seq<Completion>) {
    if end.SubmitFailed? then trace + [Armed] == ArmedTrace(served) else trace == ArmedTrace(served)
  }

  /** How a turn ends. */
  function TurnEnd(queued: Option<Completion>, w: Wait): ServerEnd {
    match w.status
    case Failed => WaitFailed
    case Interrupted => Running
    case Woke => if Ready(queued, w).Some? && !w.submits then SubmitFailed else Running
  }

  /** What a turn leaves in the trace: a completion is handled and then re-armed. */
  function TurnTrace(queued: Option<Completion>, w: Wait): seq<Event> {
    var ready := Ready(queued, w);
    if w.status.Woke? && ready.Some? then Handled(ready.value) + if w.submits then [Armed] else []
    else []
  }

  lemma TraceStep(trace: seq<Event>, s: Serving, w: Wait)
    requires trace == ArmedTrace(s.served)
    ensures TraceOf(TurnEnd(s.queued, w), trace + TurnTrace(s.queued, w), Advance(s, w).served)
  {
    var ready := Ready(s.queued, w);
    if w.status.Woke? && ready.Some? {
      ArmedTraceStep(s.served, ready.value);
    } else {
      assert trace + [] == trace;
    }
  }

  /** How a run ends: the first turn that fails ends it. */
  function RunEnd(submits: bool, script: seq<Wait>): ServerEnd {
    if script == [] then if submits then Running else SubmitFailed
    else
      var front := script[..|script| - 1];
      var end := RunEnd(submits, front);
      if end.Running? then TurnEnd(Served(front).queued, script[|script| - 1]) else end
  }

  /** Drains the queue and re-arms if an accept completed. */
  method Serve(ring: Ring, submits: bool, ghost ready: Option<Completion>, warnedAt: seq<nat>, now: nat)
    returns (end: ServerEnd, events: seq<Event>, warnedAt': seq<nat>, now': nat)
    requires OneOutstanding(ring.sq, ring.inFlight, ring.cq, ready) && Spaced(warnedAt, now)
    modifies ring
    ensures Spaced(warnedAt', now') && |warnedAt'| == |warnedAt| + Warnings(events)
    ensures end == if ready.Some? && !submits then SubmitFailed else Running
    ensures events == if ready.Some? then Handled(ready.value) + if submits then [Armed] else [] else []
    ensures end.Running? ==> OneOutstanding(ring.sq, ring.inFlight, ring.cq, None)
  {
    var entries := ring.Drain();
    var rearm;
    events, rearm, warnedAt', now' := HandleAll(entries, warnedAt, now);
    HandledOne(entries);
    end := Running;
    if rearm {
      end := Arm(ring, submits);
      if end.Running? {
        WarningsJoin(events, [Armed]);
        WarningsHandled(ready.value);
        events := events + [Armed];
      }
    }
  }

  /** One turn of the loop: wait, drain, and re-arm if an accept completed. */
  method Turn(ring: Ring, w: Wait, ghost queued: Option<Completion>, warnedAt: seq<nat>, now: nat)
    returns (end: ServerEnd, events: seq<Event>, warnedAt': seq<nat>, now': nat)
    requires OneOutstanding(ring.sq, ring.inFlight, ring.cq, queued) && Spaced(warnedAt, now)
    modifies ring
    ensures Spaced(warnedAt', now') && |warnedAt'| == |warnedAt| + Warnings(events)
    ensures end == TurnEnd(queued, w) && events == TurnTrace(queued, w)
    ensures end.WaitFailed? <==> w.status.Failed?
    ensures end.SubmitFailed? <==> w.status.Woke? && Ready(queued, w).Some? && !w.submits
    ensures !end.SqFull? && (w.status.Interrupted? ==> end.Running? && events == [])
    ensures end.Running? ==> OneOutstanding(ring.sq, ring.inFlight, ring.cq, LeftQueued(queued, w))
  {
    events, warnedAt' := [], warnedAt;
    ring.SubmitAndWait(w);
    now' := now + w.delay;
    ghost var ready := Ready(queued, w);
    assert OneOutstanding(ring.sq, ring.inFlight, ring.cq, ready);
    match w.status {
      case Interrupted => end := Running;
      case Failed => end := WaitFailed;
      case Woke => end, events, warnedAt', now' := Serve(ring, w.submits, ready, warnedAt, now');
    }
  }

  lemma QueuedStep(script: seq<Wait>, i: nat)
    requires i < |script|
    ensures Served(script[..i + 1]).queued == LeftQueued(Served(script[..i]).queued, script[i])
  {
    ServedStep(script, i);
  }

  /** Where the loop stands after these waits. */
  ghost predicate Reached(submits: bool, done: seq<Wait>, end: ServerEnd, trace: seq<Event>,
                          warnedAt: seq<nat>, now: nat)
  {
    && end == RunEnd(submits, done) && !end.SqFull?
    && (done != [] ==> RunEnd(submits, done[..|done| - 1]).Running?)
    && TraceOf(end, trace, Served(done).served)
    && Spaced(warnedAt, now) && |warnedAt| == Warnings(trace)
  }

  lemma ReachedStart(submits: bool, now: nat)
    ensures Reached(submits, [], RunEnd(submits, []), if submits then [Armed] else [], [], now)
  {
    assert [Armed][..0] == [] && [] + [Armed] == [Armed];
  }

  lemma ReachedStep(submits: bool, script: seq<Wait>, i: nat, trace: seq<Event>, warnedAt: seq<nat>, now: nat,
                    end: ServerEnd, events: seq<Event>, warnedAt': seq<nat>, now': nat)
    requires i < |script| && Reached(submits, script[..i], Running, trace, warnedAt, now)
    requires end == TurnEnd(Served(script[..i]).queued, script[i])
    requires events == TurnTrace(Served(script[..i]).queued, script[i])
    requires Spaced(warnedAt', now') && |warnedAt'| == |warnedAt| + Warnings(events)
    ensures Reached(submits, script[..i + 1], end, trace + events, warnedAt', now')
  {
    var s, w := Served(script[..i]), script[i];
    assert script[..i + 1][..i] == script[..i];
    TraceStep(trace, s, w);
    WarningsJoin(trace, events);
  }

  /** Wait `i` finds a completion that arrived during it or during an interrupted wait just before. */
  ghost predicate Arrived(script: seq<Wait>, i: nat)
    requires i < |script|
  {
    exists j :: 0 <= j <= i && script[j].done != [] && Undrained(script, j, i)
  }

  /** Nothing was drained from wait `j` up to wait `i`. */
  ghost predicate Undrained(script: seq<Wait>, j: nat, i: nat)
    requires i <= |script|
  {
    forall m | j <= m < i :: !script[m].status.Woke?
  }

  /** The completion drained at wait `i` is the first one since the last drain. */
  ghost predicate FirstSince(script: seq<Wait>, i: nat, c: Completion)
    requires i < |script|
  {
    exists j :: 0 <= j <= i && Undrained(script, j, i) && script[j].done != [] && c == script[j].done[0]
      && forall m | 0 <= m < j && Undrained(script, m, i) :: script[m].done == []
  }

  /** What is ready at a wait is the first completion since the last drain, if one arrived. */
  lemma {:induction false} ReadyIsFirstSince(script: seq<Wait>, i: nat)
    requires i < |script|
    ensures var ready := Ready(Served(script[..i]).queued, script[i]);
      && (ready.Some? <==> Arrived(script, i))
      && (ready.Some? ==> FirstSince(script, i, ready.value))
  {
    var queued := Served(script[..i]).queued;
    if i > 0 {
      ReadyIsFirstSince(script, i - 1);
      ServedStep(script, i - 1);
      if !script[i - 1].status.Woke? {
        ReadyCarriesOver(script, i, Ready(Served(script[..i - 1]).queued, script[i - 1]));
      }
    }
    if queued.None? {
      ReadyIsNew(script, i);
    }
  }

  lemma ReadyCarriesOver(script: seq<Wait>, i: nat, ready: Option<Completion>)
    requires 0 < i < |script| && !script[i - 1].status.Woke?
    requires ready.Some? <==> Arrived(script, i - 1)
    requires ready.Some? ==> FirstSince(script, i - 1, ready.value)
    ensures Arrived(script, i) <==> ready.Some? || script[i].done != []
    ensures ready.Some? ==> FirstSince(script, i, ready.value)
    ensures ready.None? && script[i].done != [] ==> FirstSince(script, i, script[i].done[0])
  {
    assert forall m: nat | m < i :: Undrained(script, m, i) <==> Undrained(script, m, i - 1);
    assert Undrained(script, i, i);
  }

  lemma ReadyIsNew(script: seq<Wait>, i: nat)
    requires i < |script|
    ensures (i == 0 || script[i - 1].status.Woke?) ==>
      (Arrived(script, i) <==> script[i].done != [])
      && (script[i].done != [] ==> FirstSince(script, i, script[i].done[0]))
  {
    assert Undrained(script, i, i);
    assert i > 0 && script[i - 1].status.Woke? ==> forall m: nat | m < i :: !Undrained(script, m, i);
  }

  /** Wait `i` is the end of the server: it fails, or the accept it makes room for is not submitted. */
  ghost predicate Breaks(script: seq<Wait>, i: nat)
    requires i < |script|
  {
    var w := script[i];
    w.status.Failed? || (w.status.Woke? && Arrived(script, i) && !w.submits)
  }

  ghost predicate NoneBreaks(script: seq<Wait>, n: nat)
    requires n <= |script|
  {
    forall i | 0 <= i < n :: !Breaks(script, i)
  }

  /** The server runs on while its first accept was submitted and nothing breaks; otherwise the first
      break ends it. Interrupted waits never do. */
  ghost predicate EndsAtFirstBreak(submits: bool, script: seq<Wait>, end: ServerEnd, turns: nat) {
    if !submits then end.SubmitFailed? && turns == 0
    else if NoneBreaks(script, |script|) then end.Running? && turns == |script|
    else
      && 0 < turns <= |script| && Breaks(script, turns - 1) && NoneBreaks(script, turns - 1)
      && end == if script[turns - 1].status.Failed? then WaitFailed else SubmitFailed
  }

  lemma TurnBreaks(script: seq<Wait>, i: nat)
    requires i < |script|
    ensures TurnEnd(Served(script[..i]).queued, script[i]) ==
      if !Breaks(script, i) then Running else if script[i].status.Failed? then WaitFailed else SubmitFailed
  {
    ReadyIsFirstSince(script, i);
  }

  lemma {:induction false} RunsUntilFirstBreak(submits: bool, script: seq<Wait>, i: nat)
    requires i <= |script|
    ensures RunEnd(submits, script[..i]).Running? <==> submits && NoneBreaks(script, i)
  {
    if i > 0 {
      RunsUntilFirstBreak(submits, script, i - 1);
      RunEndStep(submits, script, i - 1);
      TurnBreaks(script, i - 1);
    }
  }

  lemma RunEndStep(submits: bool, script: seq<Wait>, i: nat)
    requires i < |script|
    ensures RunEnd(submits, script[..i + 1]) ==
      if RunEnd(submits, script[..i]).Running? then TurnEnd(Served(script[..i]).queued, script[i])
      else RunEnd(submits, script[..i])
  {
    assert script[..i + 1][..i] == script[..i];
  }

  lemma {:induction false} EndIsFirstBreak(submits: bool, script: seq<Wait>, end: ServerEnd, turns: nat, trace: seq<Event>,
                                           warnedAt: seq<nat>, now: nat)
    requires turns <= |script| && Reached(submits, script[..turns], end, trace, warnedAt, now)
    requires end.Running? ==> turns == |script|
    ensures EndsAtFirstBreak(submits, script, end, turns)
  {
    RunsUntilFirstBreak(submits, script, turns);
    if turns > 0 {
      assert script[..turns][..turns - 1] == script[..turns - 1];
      RunsUntilFirstBreak(submits, script, turns - 1);
      RunEndStep(submits, script, turns - 1);
      TurnBreaks(script, turns - 1);
    }
  }

  /** The io_uring loop over any script of waits. `single` observes at every loop head that the
      submission queue is empty and exactly one accept is in the kernel or completed and unread. */
  method RunIoUring(ring: Ring, start: nat, submits: bool, script: seq<Wait>)
    returns (end: ServerEnd, trace: seq<Event>, turns: nat, single: bool, warnedAt: seq<nat>, now: nat)
    requires ring.sq == [] && ring.inFlight == [] && ring.cq == []
    modifies ring
    ensures turns <= |script| && single && EndsAtFirstBreak(submits, script, end, turns)
    ensures Reached(submits, script[..turns], end, trace, warnedAt, now)
    ensures end.Running? ==>
      turns == |script| && OneOutstanding(ring.sq, ring.inFlight, ring.cq, Served(script[..turns]).queued)
  {
    trace, turns, single, warnedAt, now := [], 0, true, [], start;
    end := Arm(ring, submits);
    if end.Running? { trace := trace + [Armed]; }
    assert trace == if submits then [Armed] else [];
    ReachedStart(submits, now);
    assert script[..0] == [];
    while turns < |script| && end.Running?
      invariant turns <= |script| && single
      invariant Reached(submits, script[..turns], end, trace, warnedAt, now)
      invariant end.Running? ==> OneOutstanding(ring.sq, ring.inFlight, ring.cq, Served(script[..turns]).queued)
    {
      var w := script[turns];
      QueuedStep(script, turns);
      single := single && ring.sq == [] && |ring.inFlight| + |ring.cq| == 1;
      ghost var queued, before, at := Served(script[..turns]).queued, warnedAt, now;
      var events;
      end, events, warnedAt, now := Turn(ring, w, queued, warnedAt, now);
      ReachedStep(submits, script, turns, trace, before, at, end, events, warnedAt, now);
      trace := trace + events;
      turns := turns + 1;
    }
    EndIsFirstBreak(submits, script, end, turns, trace, warnedAt, now);
  }

  // ----- the blocking fallback

  function BlockingHandled(c: Completion): seq<Event> {
    if c.result >= 0 then [Accepted(c.result), CloseTried(c.result, c.close)] else [Warned]
  }

  function BlockingTrace(results: seq<Completion>): seq<Event> {
    if results == [] then []
    else BlockingTrace(results[..|results| - 1]) + BlockingHandled(results[|results| - 1])
  }

  lemma WarningsBlocking(c: Completion)
    ensures Warnings(BlockingHandled(c)) == if c.result >= 0 then 0 else 1
  {
    WarningsHandled(c);
    assert [Warned][..0] == [];
  }

  /** Drops one connection, or reports the error and backs off. */
  method BlockingAccept(c: Completion, warnedAt: seq<nat>, now: nat)
    returns (events: seq<Event>, warnedAt': seq<nat>, now': nat)
    requires Spaced(warnedAt, now)
    ensures events == BlockingHandled(c) && Spaced(warnedAt', now')
    ensures |warnedAt'| == |warnedAt| + if c.result < 0 then 1 else 0
    ensures |warnedAt'| == |warnedAt| + Warnings(events)
    ensures now' >= now + if c.result < 0 then 50 else 0
  {
    WarningsBlocking(c);
    warnedAt', now' := warnedAt, now;
    if c.result >= 0 {
      events := [Accepted(c.result), CloseTried(c.result, c.close)];
    } else {
      events := [Warned];
      SpacedStep(warnedAt, now, now + BACKOFF_MS + c.oversleep);
      warnedAt' := warnedAt + [now];
      now' := now + BACKOFF_MS + c.oversleep;
    }
  }

  /** Accept, drop, and back off after every error. */
  method RunBlocking(start: nat, results: seq<Completion>)
    returns (trace: seq<Event>, warnedAt: seq<nat>, now: nat)
    ensures trace == BlockingTrace(results)
    ensures Spaced(warnedAt, now) && |warnedAt| == Warnings(trace)
  {
    trace, warnedAt, now := [], [], start;
    var i := 0;
    while i < |results|
      invariant i <= |results|
      invariant trace == BlockingTrace(results[..i])
      invariant Spaced(warnedAt, now) && |warnedAt| == Warnings(trace)
    {
      assert results[..i + 1][..i] == results[..i];
      var events;
      events, warnedAt, now := BlockingAccept(results[i], warnedAt, now);
      WarningsJoin(trace, events);
      trace := trace + events;
      i := i + 1;
    }
    assert results[..i] == results;
  }

  // ----- what the traces mean

  function EraseArmed(trace: seq<Event>): seq<Event> {
    if trace == [] then []
    else EraseArmed(trace[..|trace| - 1]) + if trace[|trace| - 1].Armed? then [] else [trace[|trace| - 1]]
  }

  function NonTransient(served: seq<Completion>): seq<Completion> {
    if served == [] then []
    else
      var c := served[|served| - 1];
      NonTransient(served[..|served| - 1]) + if Transient(c) then [] else [c]
  }

  lemma {:induction false} EraseJoins(a: seq<Event>, b: seq<Event>)
    ensures EraseArmed(a + b) == EraseArmed(a) + EraseArmed(b)
  {
    if b == [] {
      assert a + b == a;
    } else {
      var t := a + b;
      assert t[..|t| - 1] == a + b[..|b| - 1] && t[|t| - 1] == b[|b| - 1];
      EraseJoins(a, b[..|b| - 1]);
    }
  }

  lemma EraseOne(e: Event)
    ensures EraseArmed([e]) == if e.Armed? then [] else [e]
  {
  }

  lemma EraseHandled(c: Completion)
    ensures EraseArmed(Handled(c)) == Handled(c)
  {
    if c.result >= 0 {
      var accepted, closed := Accepted(c.result), CloseTried(c.result, c.close);
      EraseOne(accepted);
      EraseOne(closed);
      EraseJoins([accepted], [closed]);
      assert Handled(c) == [accepted] + [closed];
    } else if !Transient(c) {
      EraseOne(Warned);
    }
  }

  lemma EraseStep(trace: seq<Event>, c: Completion)
    ensures EraseArmed(trace + Handled(c) + [Armed]) == EraseArmed(trace) + Handled(c)
  {
    EraseJoins(trace + Handled(c), [Armed]);
    EraseJoins(trace, Handled(c));
    EraseHandled(c);
    EraseOne(Armed);
    assert EraseArmed(trace) + Handled(c) + [] == EraseArmed(trace) + Handled(c);
  }

  lemma BlockingStep(results: seq<Completion>, c: Completion)
    ensures BlockingTrace(results + [c]) == BlockingTrace(results) + BlockingHandled(c)
  {
  }

  /** Refinement: leaving out the re-arming, the io_uring loop does what the blocking loop does on
      the same accepts, the transient errors excepted, which a blocking accept never returns. */
  lemma {:induction false} IoUringRefinesBlocking(served: seq<Completion>)
    ensures EraseArmed(ArmedTrace(served)) == BlockingTrace(NonTransient(served))
    ensures forall c | c in NonTransient(served) :: !Transient(c)
  {
    if served == [] {
      EraseOne(Armed);
    } else {
      var front, c := served[..|served| - 1], served[|served| - 1];
      IoUringRefinesBlocking(front);
      EraseStep(ArmedTrace(front), c);
      if Transient(c) {
        assert NonTransient(served) == NonTransient(front) && Handled(c) == [];
      } else {
        BlockingStep(NonTransient(front), c);
      }
    }
  }

  /** The completions that are errors other than EAGAIN. */
  function Errors(served: seq<Completion>): nat {
    if served == [] then 0
    else
      var r := served[|served| - 1].result;
      Errors(served[..|served| - 1]) + if r < 0 && r != -EAGAIN then 1 else 0
  }

  /** The descriptors handed out, in order. */
  function Descriptors(served: seq<Completion>): seq<int> {
    if served == [] then []
    else
      var r := served[|served| - 1].result;
      Descriptors(served[..|served| - 1]) + if r >= 0 then [r] else []
  }

  function AcceptedIn(trace: seq<Event>): seq<int> {
    if trace == [] then []
    else
      var e := trace[|trace| - 1];
      AcceptedIn(trace[..|trace| - 1]) + if e.Accepted? then [e.fd] else []
  }

  lemma {:induction false} AcceptedJoin(a: seq<Event>, b: seq<Event>)
    ensures AcceptedIn(a + b) == AcceptedIn(a) + AcceptedIn(b)
  {
    if b == [] {
      assert a + b == a;
    } else {
      var t := a + b;
      assert t[..|t| - 1] == a + b[..|b| - 1] && t[|t| - 1] == b[|b| - 1];
      AcceptedJoin(a, b[..|b| - 1]);
    }
  }

  lemma HandledShows(c: Completion)
    ensures AcceptedIn(Handled(c)) == if c.result >= 0 then [c.result] else []
    ensures Warnings(Handled(c)) == if c.result < 0 && c.result != -EAGAIN then 1 else 0
    ensures AcceptedIn([Armed]) == []
  {
    WarningsHandled(c);
    assert [Armed][..0] == [] && [Warned][..0] == [];
    if c.result >= 0 {
      var accepted, closed := [Accepted(c.result)], [CloseTried(c.result, c.close)];
      assert accepted[..0] == [] && closed[..0] == [] && Handled(c) == accepted + closed;
      AcceptedJoin(accepted, closed);
    }
  }

  function Failures(results: seq<Completion>): nat {
    if results == [] then 0
    else Failures(results[..|results| - 1]) + if results[|results| - 1].result < 0 then 1 else 0
  }

  /** The blocking loop accepts every descriptor handed out, in order, and warns about every error. */
  lemma {:induction false} BlockingTellsAccepts(results: seq<Completion>)
    ensures AcceptedIn(BlockingTrace(results)) == Descriptors(results)
    ensures Warnings(BlockingTrace(results)) == Failures(results)
  {
    if results != [] {
      var front, c := results[..|results| - 1], results[|results| - 1];
      BlockingTellsAccepts(front);
      AcceptedJoin(BlockingTrace(front), BlockingHandled(c));
      WarningsJoin(BlockingTrace(front), BlockingHandled(c));
      WarningsBlocking(c);
      HandledShows(c);
      assert [Warned][..0] == [] && AcceptedIn([Warned]) == [];
      assert c.result >= 0 ==> BlockingHandled(c) == Handled(c);
    }
  }

  /** The trace tells the accepts apart: every descriptor handed out is accepted, in order, every
      error but EAGAIN is warned about once, and the next accept is armed only after all that. */
  lemma {:induction false} TraceTellsAccepts(served: seq<Completion>)
    ensures var trace := ArmedTrace(served); trace != [] && trace[|trace| - 1] == Armed
    ensures AcceptedIn(ArmedTrace(served)) == Descriptors(served)
    ensures Warnings(ArmedTrace(served)) == Errors(served)
  {
    if served == [] {
      HandledShows(Completion(0, Closed, 0));
      WarningsHandled(Completion(0, Closed, 0));
    } else {
      var front, c := served[..|served| - 1], served[|served| - 1];
      TraceTellsAccepts(front);
      HandledShows(c);
      WarningsHandled(c);
      AcceptedJoin(ArmedTrace(front) + Handled(c), [Armed]);
      AcceptedJoin(ArmedTrace(front), Handled(c));
      WarningsJoin(ArmedTrace(front) + Handled(c), [Armed]);
      WarningsJoin(ArmedTrace(front), Handled(c));
    }
  }

  /** Every accepted descriptor is closed at once: each accept is followed by the one attempt to
      close it, and nothing else is ever closed. */
  ghost predicate ClosedAtOnce(trace: seq<Event>) {
    && (forall i | 0 <= i < |trace| && trace[i].Accepted? ::
          i + 1 < |trace| && trace[i + 1].CloseTried? && trace[i + 1].fd == trace[i].fd)
    && (forall i | 0 <= i < |trace| && trace[i].CloseTried? ::
          i > 0 && trace[i - 1] == Accepted(trace[i].fd))
  }

  lemma ClosedAtOnceJoins(a: seq<Event>, b: seq<Event>)
    requires ClosedAtOnce(a) && ClosedAtOnce(b)
    ensures ClosedAtOnce(a + b)
  {
  }

  lemma {:induction false} EachAcceptIsClosedOnce(served: seq<Completion>)
    ensures ClosedAtOnce(ArmedTrace(served))
  {
    if served != [] {
      var front, c := served[..|served| - 1], served[|served| - 1];
      EachAcceptIsClosedOnce(front);
      ClosedAtOnceJoins(ArmedTrace(front), Handled(c));
      ClosedAtOnceJoins(ArmedTrace(front) + Handled(c), [Armed]);
    }
  }

  /** The open descriptors after a trace; a close that the kernel refuses keeps its descriptor. */
  function Open(initial: multiset<int>, trace: seq<Event>): multiset<int> {
    if trace == [] then initial
    else
      Happen(Open(initial, trace[..|trace| - 1]), trace[|trace| - 1])
  }

  function Happen(open: multiset<int>, e: Event): multiset<int> {
    if e.Accepted? then open + multiset{e.fd}
    else if e.CloseTried? && !e.close.Kept? then open - multiset{e.fd}
    else open
  }

  lemma OpenSnoc(initial: multiset<int>, trace: seq<Event>, e: Event)
    ensures Open(initial, trace + [e]) == Happen(Open(initial, trace), e)
  {
  }

  lemma {:induction false} OpenJoins(initial: multiset<int>, a: seq<Event>, b: seq<Event>)
    ensures Open(initial, a + b) == Open(Open(initial, a), b)
  {
    if b == [] {
      assert a + b == a;
    } else {
      var front, e := b[..|b| - 1], b[|b| - 1];
      assert a + b == a + front + [e] && b == front + [e];
      OpenJoins(initial, a, front);
      OpenSnoc(initial, a + front, e);
      OpenSnoc(Open(initial, a), front, e);
    }
  }

  lemma OpenOne(initial: multiset<int>, e: Event)
    ensures Open(initial, [e]) == Happen(initial, e)
  {
  }

  /** The descriptors the kernel kept although closing them was tried. */
  function Leaked(served: seq<Completion>): multiset<int> {
    if served == [] then multiset{}
    else
      var c := served[|served| - 1];
      Leaked(served[..|served| - 1]) + if c.result >= 0 && c.close.Kept? then multiset{c.result} else multiset{}
  }

  lemma OpenHandled(open: multiset<int>, c: Completion)
    ensures Open(open, Handled(c)) == open + if c.result >= 0 && c.close.Kept? then multiset{c.result} else multiset{}
  {
    if c.result >= 0 {
      var accepted, closed := Accepted(c.result), CloseTried(c.result, c.close);
      OpenOne(open, accepted);
      OpenOne(open + multiset{c.result}, closed);
      OpenJoins(open, [accepted], [closed]);
      assert Handled(c) == [accepted] + [closed];
    } else if !Transient(c) {
      OpenOne(open, Warned);
    }
  }

  lemma OpenArmed(initial: multiset<int>, trace: seq<Event>, c: Completion)
    ensures Open(initial, trace + Handled(c) + [Armed]) == Open(Open(initial, trace), Handled(c))
  {
    OpenJoins(initial, trace + Handled(c), [Armed]);
    OpenJoins(initial, trace, Handled(c));
    OpenOne(Open(initial, trace + Handled(c)), Armed);
  }

  lemma {:induction false} OpenServed(initial: multiset<int>, front: seq<Completion>, c: Completion, kept: multiset<int>)
    requires kept == if c.result >= 0 && c.close.Kept? then multiset{c.result} else multiset{}
    ensures Open(initial, ArmedTrace(front + [c])) == Open(initial, ArmedTrace(front)) + kept
  {
    ArmedTraceStep(front, c);
    OpenArmed(initial, ArmedTrace(front), c);
    OpenHandled(Open(initial, ArmedTrace(front)), c);
  }

  lemma {:induction false} LeakedStep(initial: multiset<int>, front: seq<Completion>, c: Completion, kept: multiset<int>)
    requires kept == if c.result >= 0 && c.close.Kept? then multiset{c.result} else multiset{}
    ensures initial + Leaked(front + [c]) == initial + Leaked(front) + kept
  {
    assert (front + [c])[..|front|] == front;
  }

  /** Descriptor conservation: at every loop head the open descriptors are the initial ones and
      those the kernel kept after a failed close. */
  lemma {:induction false} DescriptorsAreConserved(initial: multiset<int>, served: seq<Completion>)
    ensures Open(initial, ArmedTrace(served)) == initial + Leaked(served)
  {
    if served == [] {
      OpenOne(initial, Armed);
      assert ArmedTrace(served) == [Armed];
    } else {
      var front, c := served[..|served| - 1], served[|served| - 1];
      var kept := if c.result >= 0 && c.close.Kept? then multiset{c.result} else multiset{};
      DescriptorsAreConserved(initial, front);
      assert served == front + [c];
      OpenServed(initial, front, c, kept);
      LeakedStep(initial, front, c, kept);
    }
  }

  /** None accumulate while closes succeed or at least release the descriptor. */
  lemma {:induction false} NothingLeaks(served: seq<Completion>)
    requires forall c | c in served && c.result >= 0 :: !c.close.Kept?
    ensures Leaked(served) == multiset{}
  {
    if served != [] { NothingLeaks(served[..|served| - 1]); }
  }
}
