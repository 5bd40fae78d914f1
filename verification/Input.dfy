/** The input queue (kernel/src/dev/dev_input.c): a ring buffer under a spinlock, with a
    semaphore that counts events. First one caller at a time, then any number of threads
    interleaved statement by statement. Spinlock and semaphore have the usual meaning; a thread
    that spins or sleeps does not change the state, so taking either is one step that is
    enabled when it can succeed. */
module Input {
  import opened Options
  import opened Rings

  const NEVENTS := 128

  datatype Event = Event(ctrl: bool, alt: bool, data: int)

  // ---------------------------------------------------------------- one caller at a time

  class InputQueue {
    const events: array<Event>
    var front: int
    var rear: int
    var sem: int               // in->event_sem
    ghost var contents: seq<Event>

    ghost predicate Valid()
      reads this, events
    {
      && events.Length == NEVENTS && 0 <= front < NEVENTS && |contents| < NEVENTS
      && rear == At(front, |contents|, NEVENTS) && sem == |contents|
      && (forall k {:trigger contents[k]} :: 0 <= k < |contents| ==> events[At(front, k, NEVENTS)] == contents[k])
    }

    constructor (events: array<Event>)
      requires events.Length == NEVENTS
      ensures Valid() && this.events == events && contents == []
    {
      this.events, front, rear, sem, contents := events, 0, 0, 0, [];
    }

    // push_event; ok is false where it panics.
    method Push(ev: Event) returns (ok: bool)
      requires Valid()
      modifies events, `rear, `sem, `contents
      ensures ok <==> |old(contents)| + 1 < NEVENTS
      ensures ok ==> Valid() && contents == old(contents) + [ev]
    {
      events[rear] := ev;
      rear := (rear + 1) % NEVENTS;
      if rear == front { return false; }
      contents := contents + [ev];
      sem := sem + 1;
      return true;
    }

    // pop_event, once sem_wait succeeds; it does so exactly if there is an event.
    method Pop() returns (ev: Event)
      requires Valid() && sem > 0
      modifies `front, `sem, `contents
      ensures Valid() && old(contents) == [ev] + contents
    {
      sem := sem - 1;
      assert rear != front;
      var idx := front;
      assert events[idx] == contents[0];
      front := (front + 1) % NEVENTS;
      ev := events[idx];
      ghost var was := contents;
      contents := contents[1..];
      forall k | 0 <= k < |contents|
        ensures events[At(front, k, NEVENTS)] == contents[k]
      {
        assert contents[k] == was[k + 1];
      }
    }
  }

  // ------------------------------------------------------------------------- threads

  datatype Panic = NoPanic | QueueFull | QueueEmpty

  // The statement that a thread is about to execute. n is the number of events taken before
  // the one that a popper takes.
  datatype PC =
    | Idle
    | PushLock(ev: Event) | PushWrite(ev: Event) | PushMove(ev: Event) | PushCheck | PushUnlock | PushSignal
    | PopWait | PopLock | PopCheck | PopMove
    | PopRead(idx: int, n: int) | PopUnlock(ret: Event, n: int) | PopReturn(ret: Event, n: int)

  // pushed: all events so far, in the order in which rear moved; taken: how often front moved.
  datatype State = State(
    events: seq<Event>, front: int, rear: int, sem: int, lock: Option<int>, pc: map<int, PC>,
    pushed: seq<Event>, taken: int, panic: Panic)

  predicate InLock(p: PC) {
    || p.PushWrite? || p.PushMove? || p.PushCheck? || p.PushUnlock?
    || p.PopCheck? || p.PopMove? || p.PopRead? || p.PopUnlock?
  }

  // Pushers that have moved rear but not signalled, poppers past sem_wait that have not moved front.
  ghost function Unsignalled(pc: map<int, PC>): set<int> {
    set t | t in pc && (pc[t].PushCheck? || pc[t].PushUnlock? || pc[t].PushSignal?)
  }

  ghost function Claimed(pc: map<int, PC>): set<int> {
    set t | t in pc && (pc[t].PopLock? || pc[t].PopCheck? || pc[t].PopMove?)
  }

  function Length(s: State): int { |s.pushed| - s.taken }

  function Goto(s: State, t: int, p: PC): State { s.(pc := s.pc[t := p]) }

  // ------------------------------------------------------------------------ invariant

  // The cells from front hold the events that were pushed and not taken.
  ghost predicate Ring(events: seq<Event>, front: int, rear: int, pushed: seq<Event>, taken: int) {
    && |events| == NEVENTS && 0 <= front < NEVENTS && 0 <= taken <= |pushed| <= taken + NEVENTS
    && rear == At(front, |pushed| - taken, NEVENTS)
    && (forall k {:trigger pushed[k]} :: taken <= k < |pushed| ==> events[At(front, k - taken, NEVENTS)] == pushed[k])
  }

  ghost predicate RingOk(s: State) { Ring(s.events, s.front, s.rear, s.pushed, s.taken) }

  ghost predicate ThreadOk(s: State, t: int)
    requires RingOk(s) && t in s.pc
  {
    var p := s.pc[t];
    && (InLock(p) <==> s.lock == Some(t))
    && (InLock(p) && !p.PushCheck? ==> Length(s) < NEVENTS)
    && (p.PushMove? ==> s.events[s.rear] == p.ev)
    && (p.PopMove? ==> Length(s) > 0)
    && (p.PopRead? ==> 0 <= p.idx < NEVENTS && 0 <= p.n < s.taken && s.events[p.idx] == s.pushed[p.n])
    && (p.PopUnlock? || p.PopReturn? ==> 0 <= p.n < s.taken && p.ret == s.pushed[p.n])
  }

  ghost predicate Inv(s: State) {
    && RingOk(s)
    && (forall t {:trigger ThreadOk(s, t)} :: t in s.pc ==> ThreadOk(s, t))
    && (s.lock.None? ==> Length(s) < NEVENTS) && (s.lock.Some? ==> s.lock.value in s.pc)
    && s.sem >= 0 && Length(s) == s.sem + |Unsignalled(s.pc)| + |Claimed(s.pc)|
    && s.panic != QueueEmpty
  }

  // ------------------------------------------------------------------------- steps

  // Accesses of the array; the invariant keeps every index in range.
  function Fetch(events: seq<Event>, i: int): Event {
    if 0 <= i < |events| then events[i] else Event(false, false, 0)
  }

  function Store(events: seq<Event>, i: int, ev: Event): seq<Event> {
    if 0 <= i < |events| then events[i := ev] else events
  }

  ghost predicate Step(s: State, s': State, t: int) {
    && s.panic == NoPanic && t in s.pc
    && match s.pc[t]
       case Idle => exists p: PC {:trigger Goto(s, t, p)} :: (p.PushLock? || p.PopWait?) && s' == Goto(s, t, p)
       case PushLock(ev) => s.lock == None && s' == Goto(s.(lock := Some(t)), t, PushWrite(ev))
       case PushWrite(ev) => s' == Goto(s.(events := Store(s.events, s.rear, ev)), t, PushMove(ev))
       case PushMove(ev) => s' == Goto(s.(rear := (s.rear + 1) % NEVENTS, pushed := s.pushed + [ev]), t, PushCheck)
       case PushCheck => s' == if s.rear == s.front then s.(panic := QueueFull) else Goto(s, t, PushUnlock)
       case PushUnlock => s' == Goto(s.(lock := None), t, PushSignal)
       case PushSignal => s' == Goto(s.(sem := s.sem + 1), t, Idle)
       case PopWait => s.sem > 0 && s' == Goto(s.(sem := s.sem - 1), t, PopLock)
       case PopLock => s.lock == None && s' == Goto(s.(lock := Some(t)), t, PopCheck)
       case PopCheck => s' == if s.rear == s.front then s.(panic := QueueEmpty) else Goto(s, t, PopMove)
       case PopMove =>
         s' == Goto(s.(front := (s.front + 1) % NEVENTS, taken := s.taken + 1), t, PopRead(s.front, s.taken))
       case PopRead(idx, n) => s' == Goto(s, t, PopUnlock(Fetch(s.events, idx), n))
       case PopUnlock(ret, n) => s' == Goto(s.(lock := None), t, PopReturn(ret, n))
       case PopReturn(ret, n) => s' == Goto(s, t, Idle)
  }

  lemma Without(a: set<int>, t: int)
    ensures |a| == |a - {t}| + if t in a then 1 else 0
  {
    if t in a { assert a == (a - {t}) + {t}; } else { assert a == a - {t}; }
  }

  lemma Changed(a: set<int>, b: set<int>, t: int)
    requires a - {t} == b - {t}
    ensures |b| == |a| + (if t in b then 1 else 0) - (if t in a then 1 else 0)
  {
    Without(a, t); Without(b, t);
  }

  lemma UnsignalledChange(pc: map<int, PC>, t: int, p: PC)
    requires t in pc
    ensures var u, u' := Unsignalled(pc), Unsignalled(pc[t := p]);
      |u'| == |u| + (if t in u' then 1 else 0) - (if t in u then 1 else 0)
  {
    Changed(Unsignalled(pc), Unsignalled(pc[t := p]), t);
  }

  lemma ClaimedChange(pc: map<int, PC>, t: int, p: PC)
    requires t in pc
    ensures var c, c' := Claimed(pc), Claimed(pc[t := p]);
      |c'| == |c| + (if t in c' then 1 else 0) - (if t in c then 1 else 0)
  {
    Changed(Claimed(pc), Claimed(pc[t := p]), t);
  }

  // A popper in its critical section finds an event.
  lemma ClaimedNotEmpty(s: State, t: int)
    requires Inv(s) && t in Claimed(s.pc)
    ensures Length(s) >= 1
  {
    Without(Claimed(s.pc), t);
  }

  lemma UnsignalledNotEmpty(s: State, t: int)
    requires Inv(s) && t in Unsignalled(s.pc)
    ensures Length(s) >= 1
  {
    Without(Unsignalled(s.pc), t);
  }

  lemma RingWritten(events: seq<Event>, front: int, rear: int, pushed: seq<Event>, taken: int, ev: Event)
    requires Ring(events, front, rear, pushed, taken) && |pushed| - taken < NEVENTS
    ensures Ring(events[rear := ev], front, rear, pushed, taken)
  {}

  lemma RingPushed(events: seq<Event>, front: int, rear: int, pushed: seq<Event>, taken: int, ev: Event)
    requires Ring(events, front, rear, pushed, taken) && |pushed| - taken < NEVENTS && events[rear] == ev
    ensures Ring(events, front, (rear + 1) % NEVENTS, pushed + [ev], taken)
  {}

  lemma RingTaken(events: seq<Event>, front: int, rear: int, pushed: seq<Event>, taken: int)
    requires Ring(events, front, rear, pushed, taken) && 0 < |pushed| - taken
    ensures Ring(events, (front + 1) % NEVENTS, rear, pushed, taken + 1)
    ensures events[front] == pushed[taken]
  {}

  lemma RingKept(s: State, s': State, t: int)
    requires Inv(s) && Step(s, s', t)
    ensures RingOk(s')
  {
    assert ThreadOk(s, t);
    match s.pc[t]
    case PushWrite(ev) => RingWritten(s.events, s.front, s.rear, s.pushed, s.taken, ev);
    case PushMove(ev) => RingPushed(s.events, s.front, s.rear, s.pushed, s.taken, ev);
    case PopMove => RingTaken(s.events, s.front, s.rear, s.pushed, s.taken);
    case _ =>
  }

  // The thread that steps.
  lemma SelfKept(s: State, s': State, t: int)
    requires Inv(s) && Step(s, s', t) && RingOk(s')
    ensures t in s'.pc && ThreadOk(s', t)
  {
    assert ThreadOk(s, t);
    if s.pc[t].PopCheck? { ClaimedNotEmpty(s, t); }
  }

  // Any other thread: what it needs only changes under the lock that it would hold.
  lemma OtherKept(s: State, s': State, t: int, u: int)
    requires Inv(s) && Step(s, s', t) && RingOk(s') && u in s.pc && u != t
    ensures u in s'.pc && ThreadOk(s', u)
  {
    assert ThreadOk(s, t) && ThreadOk(s, u);
    assert s'.pc == s.pc || s'.pc == s.pc[t := s'.pc[t]];
    assert s'.pc[u] == s.pc[u];
    if InLock(s.pc[u]) {
      assert !InLock(s.pc[t]);
      assert s'.events == s.events && s'.rear == s.rear && s'.lock == s.lock;
      assert s'.taken == s.taken && s'.pushed == s.pushed;
    } else {
      assert s'.taken >= s.taken && s.pushed <= s'.pushed;
    }
  }

  lemma CountKept(s: State, s': State, t: int)
    requires Inv(s) && Step(s, s', t)
    ensures s'.sem >= 0 && Length(s') == s'.sem + |Unsignalled(s'.pc)| + |Claimed(s'.pc)|
  {
    if t in s'.pc { UnsignalledChange(s.pc, t, s'.pc[t]); ClaimedChange(s.pc, t, s'.pc[t]); }
  }

  lemma StepKeepsInv(s: State, s': State, t: int)
    requires Inv(s) && Step(s, s', t)
    ensures Inv(s')
  {
    RingKept(s, s', t);
    CountKept(s, s', t);
    assert ThreadOk(s, t);
    forall u | u in s'.pc
      ensures ThreadOk(s', u)
    {
      if u == t { SelfKept(s, s', t); } else { OtherKept(s, s', t, u); }
    }
    if s.pc[t].PopCheck? { ClaimedNotEmpty(s, t); }
  }

  // ---------------------------------------------------------------------- whole runs

  ghost predicate Initial(s: State) {
    && |s.events| == NEVENTS && s.front == s.rear == s.sem == s.taken == 0 && s.pushed == [] && s.lock == None
    && (forall t :: t in s.pc ==> s.pc[t] == Idle) && s.panic == NoPanic
  }

  lemma InitialInv(s: State)
    requires Initial(s)
    ensures Inv(s)
  {
    forall t | t in s.pc
      ensures t !in Unsignalled(s.pc) && t !in Claimed(s.pc)
    {
      assert !s.pc[t].PushCheck?;
    }
    assert Unsignalled(s.pc) == {} && Claimed(s.pc) == {};
  }

  ghost predicate IsRun(ss: seq<State>, ts: seq<int>) {
    && |ss| == |ts| + 1 && Initial(ss[0])
    && (forall k {:trigger ts[k]} :: 0 <= k < |ts| ==> Step(ss[k], ss[k + 1], ts[k]))
  }

  // In every run of any number of threads: no popper finds the queue empty, and the length is
  // the semaphore plus what is on its way.
  lemma {:induction false} RunSafe(ss: seq<State>, ts: seq<int>)
    requires IsRun(ss, ts)
    ensures Inv(ss[|ts|]) && ss[|ts|].panic != QueueEmpty
  {
    if ts == [] {
      InitialInv(ss[0]);
    } else {
      var n := |ts| - 1;
      forall k | 0 <= k < n
        ensures Step(ss[..n + 1][k], ss[..n + 1][k + 1], ts[..n][k])
      {
        assert ts[k] == ts[..n][k];
      }
      RunSafe(ss[..n + 1], ts[..n]);
      assert Step(ss[n], ss[n + 1], ts[n]);
      StepKeepsInv(ss[n], ss[n + 1], ts[n]);
    }
  }

  // The other panic happens exactly when a pusher makes the queue NEVENTS long.
  lemma FullExactly(s: State, s': State, t: int)
    requires Inv(s) && Step(s, s', t)
    ensures s'.panic == QueueFull <==> s.pc[t].PushCheck? && Length(s) == NEVENTS
  {
    assert ThreadOk(s, t);
    if s.pc[t].PopCheck? { ClaimedNotEmpty(s, t); }
    if s.pc[t].PushCheck? { UnsignalledNotEmpty(s, t); }
  }

  // First in, first out: the n-th to move front goes on with the n-th event pushed, and nobody
  // after it does, because taken only grows.
  lemma TakesInOrder(s: State, s': State, t: int)
    requires Inv(s) && Step(s, s', t)
    ensures s'.taken == s.taken + if s.pc[t].PopMove? then 1 else 0
    ensures s.pc[t].PopMove? ==> s.taken < |s.pushed| && s'.pc[t] == PopRead(s.front, s.taken)
    ensures s.pc[t].PopMove? ==> s'.events[s.front] == s.pushed[s.taken]
    ensures s.pushed <= s'.pushed
  {
    assert ThreadOk(s, t);
    if s.pc[t].PopMove? { RingTaken(s.events, s.front, s.rear, s.pushed, s.taken); }
  }

  lemma ReturnsItsEvent(s: State, t: int)
    requires Inv(s) && t in s.pc && s.pc[t].PopReturn?
    ensures 0 <= s.pc[t].n < s.taken && s.pc[t].ret == s.pushed[s.pc[t].n]
  {
    assert ThreadOk(s, t);
  }

  // When every thread is idle or asleep, all events left are announced: none is lost.
  lemma NoneLost(s: State)
    requires Inv(s) && forall t :: t in s.pc ==> s.pc[t].Idle? || s.pc[t].PopWait?
    ensures s.sem == Length(s)
  {
    forall t | t in s.pc
      ensures t !in Unsignalled(s.pc) && t !in Claimed(s.pc)
    {
      assert !s.pc[t].PushCheck?;
    }
    assert Unsignalled(s.pc) == {} && Claimed(s.pc) == {};
  }
}
