/** The coroutine scheduler (libco/co.c). setjmp and longjmp are "control passes to current":
    a call of the scheduler starts with one coroutine executing and ends with another. */
module Co {

  const MAXCO := 136

  datatype Status = NEW | RUNNING | WAITING | DEAD

  class Coroutine {
    var status: Status
    var waiter: Coroutine?
    ghost var target: Coroutine?   // the coroutine whose co_wait it is in

    constructor ()
      ensures status == NEW && waiter == null && target == null
    {
      status, waiter, target := NEW, null, null;
    }
  }

  // ------------------------------------------------------- what can run, and the turn

  // The coroutines that fd_next would choose, by slot, and the slot that executes.
  datatype Turn = Turn(ready: map<int, Coroutine?>, id: int)

  // Steps of fd_next from slot a to slot b.
  function Distance(a: int, b: int): int { if b > a then b - a else b - a + MAXCO }

  // That many slots further round the pool is b.
  lemma DistanceCounts(a: int, b: int)
    requires 0 <= a < MAXCO && 0 <= b < MAXCO
    ensures 1 <= Distance(a, b) <= MAXCO && (a + Distance(a, b)) % MAXCO == b
    ensures forall k {:trigger (a + k) % MAXCO} :: 1 <= k <= MAXCO && (a + k) % MAXCO == b ==> k == Distance(a, b)
  {}

  // Control passes to the next slot that can run; whoever could run still can.
  ghost predicate SwitchStep(a: Turn, b: Turn) {
    && 0 <= a.id < MAXCO && 0 <= b.id < MAXCO && b.id in b.ready
    && (forall i {:trigger i in a.ready} :: i in a.ready && i != a.id ==>
          i in b.ready && b.ready[i] == a.ready[i] && Distance(a.id, b.id) <= Distance(a.id, i))
  }

  // k steps of one slot round the pool lead from slot a to slot b, and no slot passed on the way
  // can run.
  ghost predicate FirstAfter(a: int, b: int, ready: map<int, Coroutine?>, k: int) {
    && 1 <= k <= MAXCO && b == (a + k) % MAXCO
    && (forall m {:trigger (a + m) % MAXCO in ready} :: 1 <= m < k ==> (a + m) % MAXCO !in ready)
  }

  lemma NearestIsFirst(a: int, b: int, ready: map<int, Coroutine?>)
    requires 0 <= a < MAXCO && 0 <= b < MAXCO
    requires forall i {:trigger i in ready} ::
      i in ready && i != a && 0 <= i < MAXCO ==> Distance(a, b) <= Distance(a, i)
    ensures FirstAfter(a, b, ready, Distance(a, b))
  {
    DistanceCounts(a, b);
    forall m {:trigger (a + m) % MAXCO in ready} | 1 <= m < Distance(a, b)
      ensures (a + m) % MAXCO !in ready
    {
      var i := (a + m) % MAXCO;
      DistanceCounts(a, i);
      assert i != a && Distance(a, i) == m;
    }
  }

  // So a switch goes to the first slot that can run, counting upwards from the one that executes
  // and starting again at 0.
  lemma SwitchToFirst(a: Turn, b: Turn) returns (k: int)
    requires SwitchStep(a, b)
    ensures FirstAfter(a.id, b.id, a.ready, k)
  {
    k := Distance(a.id, b.id);
    NearestIsFirst(a.id, b.id, a.ready);
  }

  // The executing coroutine keeps control; whoever could run still can.
  ghost predicate LocalStep(a: Turn, b: Turn) {
    && 0 <= a.id < MAXCO && b.id == a.id
    && (forall i {:trigger i in a.ready} :: i in a.ready && i != a.id ==> i in b.ready && b.ready[i] == a.ready[i])
  }

  lemma LocalThenSwitch(a: Turn, b: Turn, c: Turn)
    requires LocalStep(a, b) && SwitchStep(b, c)
    ensures SwitchStep(a, c)
  {
    forall i | i in a.ready && i != a.id
      ensures i in c.ready && c.ready[i] == a.ready[i] && Distance(a.id, c.id) <= Distance(a.id, i)
    {
      assert i in b.ready;
    }
  }

  lemma LocalTwice(a: Turn, b: Turn, c: Turn)
    requires LocalStep(a, b) && LocalStep(b, c)
    ensures LocalStep(a, c)
  {
    forall i | i in a.ready && i != a.id
      ensures i in c.ready && c.ready[i] == a.ready[i]
    {
      assert i in b.ready;
    }
  }

  ghost predicate IsRun(turns: seq<Turn>, switches: seq<bool>) {
    && |turns| == |switches| + 1
    && (forall k {:trigger switches[k]} :: 0 <= k < |switches| ==>
          if switches[k] then SwitchStep(turns[k], turns[k + 1]) else LocalStep(turns[k], turns[k + 1]))
  }

  function Count(switches: seq<bool>): nat {
    if switches == [] then 0 else Count(switches[..|switches| - 1]) + if switches[|switches| - 1] then 1 else 0
  }

  lemma RunPrefix(turns: seq<Turn>, switches: seq<bool>, n: nat)
    requires IsRun(turns, switches) && n <= |switches|
    ensures IsRun(turns[..n + 1], switches[..n])
  {
    forall k | 0 <= k < n
      ensures if switches[..n][k] then SwitchStep(turns[..n + 1][k], turns[..n + 1][k + 1])
              else LocalStep(turns[..n + 1][k], turns[..n + 1][k + 1])
    {
      assert switches[k] == switches[..n][k];
    }
  }

  // The distance to a coroutine that could run falls at every switch that does not reach it; it
  // keeps its slot and can still run.
  lemma {:induction false} Closer(turns: seq<Turn>, switches: seq<bool>, s: int)
    requires IsRun(turns, switches) && 0 <= s < MAXCO && 0 <= turns[0].id < MAXCO
    requires s in turns[0].ready && forall k :: 0 <= k < |turns| ==> turns[k].id != s
    ensures var last := turns[|switches|];
      && s in last.ready && last.ready[s] == turns[0].ready[s] && 0 <= last.id < MAXCO
      && Distance(last.id, s) + Count(switches) <= Distance(turns[0].id, s)
  {
    if switches != [] {
      var n := |switches| - 1;
      RunPrefix(turns, switches, n);
      Closer(turns[..n + 1], switches[..n], s);
      assert if switches[n] then SwitchStep(turns[n], turns[n + 1]) else LocalStep(turns[n], turns[n + 1]);
    }
  }

  // The first time that slot s has control.
  lemma {:induction false} FirstTime(turns: seq<Turn>, s: int, k: nat) returns (j: nat)
    requires k < |turns| && turns[k].id == s
    ensures j <= k && turns[j].id == s && forall i :: 0 <= i < j ==> turns[i].id != s
  {
    if i: nat :| i < k && turns[i].id == s { j := FirstTime(turns, s, i); } else { j := k; }
  }

  // Bounded bypass: a coroutine c that can run and does not execute is resumed within MAXCO - 1
  // switches of any run.
  lemma BoundedBypass(turns: seq<Turn>, switches: seq<bool>, s: int, c: Coroutine)
    requires IsRun(turns, switches) && 0 <= s < MAXCO && 0 <= turns[0].id < MAXCO
    requires s in turns[0].ready && turns[0].ready[s] == c && turns[0].id != s && Count(switches) >= MAXCO - 1
    ensures exists k :: 0 < k < |turns| && turns[k].id == s && s in turns[k].ready && turns[k].ready[s] == c
  {
    if forall k :: 0 <= k < |turns| ==> turns[k].id != s {
      Closer(turns, switches, s);
    } else {
      var k: nat :| k < |turns| && turns[k].id == s;
      var j := FirstTime(turns, s, k);
      RunPrefix(turns, switches, j - 1);
      Closer(turns[..j], switches[..j - 1], s);
      assert if switches[j - 1] then SwitchStep(turns[j - 1], turns[j]) else LocalStep(turns[j - 1], turns[j]);
    }
  }

  // ------------------------------------------------------------------ the scheduler

  class Scheduler {
    const pool: array<Coroutine?>  // POOL
    const main: Coroutine          // co_main
    var id: int
    var current: Coroutine
    ghost var slot: map<Coroutine, int>
    ghost var rank: map<Coroutine, nat>  // above that of the coroutine waited for

    // Every coroutine that is not yet freed has exactly one slot.
    ghost predicate SlotsOk()
      reads this`slot, pool
    {
      && pool.Length == MAXCO
      && (forall c {:trigger slot[c]} :: c in slot ==> 0 <= slot[c] < MAXCO && pool[slot[c]] == c)
      && (forall i {:trigger pool[i]} :: 0 <= i < MAXCO && pool[i] != null ==> pool[i] in slot && slot[pool[i]] == i)
    }

    // A waiting coroutine is the recorded waiter of one that is not dead; one that was woken but
    // has not yet left co_wait is the recorded waiter of a dead one.
    ghost predicate WaitOk(c: Coroutine)
      requires c in slot
      reads this, slot.Keys
    {
      && (c.waiter != null ==> c.waiter in slot && c.waiter.target == c)
      && (c.status == WAITING ==> c.target != null)
      && (c.target != null ==>
            && c.target in slot && c.target.waiter == c
            && c.status == (if c.target.status == DEAD then RUNNING else WAITING)
            && c in rank && c.target in rank && rank[c.target] < rank[c])
    }

    ghost predicate Inv()
      reads this, pool, slot.Keys
    {
      && SlotsOk() && 0 <= id < MAXCO && pool[id] == current
      && main in slot && main.status != DEAD && slot.Keys <= rank.Keys
      && (forall c {:trigger WaitOk(c)} :: c in slot ==> WaitOk(c))
    }

    // Between calls the current coroutine runs.
    ghost predicate Valid()
      reads this, pool, slot.Keys
    {
      Inv() && current.status == RUNNING
    }

    ghost predicate Ready(i: int)
      requires SlotsOk() && 0 <= i < MAXCO
      reads this`slot, pool, slot.Keys
    {
      pool[i] != null && (pool[i].status == RUNNING || pool[i].status == NEW)
    }

    ghost function Now(): Turn
      requires SlotsOk()
      reads this, pool, slot.Keys
    {
      Turn((map i | 0 <= i < MAXCO && Ready(i) :: pool[i]), id)
    }

    // Following the waits from c leads to one that can run.
    lemma {:induction false} FindReady(c: Coroutine) returns (i: int)
      requires Inv() && c in slot && c.status != DEAD
      ensures 0 <= i < MAXCO && Ready(i)
      decreases rank[c]
    {
      assert WaitOk(c);
      if c.status == WAITING {
        i := FindReady(c.target);
      } else {
        i := slot[c];
      }
    }

    // Does c wait, perhaps through others, for d?
    ghost predicate LeadsTo(c: Coroutine, d: Coroutine)
      requires Inv() && c in slot
      reads this, pool, slot.Keys
      decreases rank[c]
    {
      assert WaitOk(c);
      c == d || (c.target != null && LeadsTo(c.target, d))
    }

    // current is about to leave co_wait(co).
    ghost predicate Releasing(co: Coroutine)
      reads this, pool, slot.Keys
    {
      && SlotsOk() && 0 <= id < MAXCO && pool[id] == current
      && main in slot && main.status != DEAD && slot.Keys <= rank.Keys
      && co in slot && co != current && co.status == DEAD && co.target == null && co.waiter == current
      && current.status != DEAD && current.target == co
      && (current.waiter != null ==> current.waiter in slot && current.waiter.target == current)
      && (forall c {:trigger WaitOk(c)} :: c in slot && c != current ==> WaitOk(c))
    }

    // co_main is the only coroutine at first.
    constructor (main: Coroutine)
      requires main.status == RUNNING && main.waiter == null && main.target == null
      ensures Valid() && current == this.main == main && fresh(pool) && slot == map[main := 0]
    {
      this.main, current, id := main, main, 0;
      slot, rank := map[main := 0], map[main := 0];
      var p := new Coroutine?[MAXCO](i => if i == 0 then main else null);
      pool := p;
    }

    // fd_next: the first slot after id that can run. The loop ends because one can.
    method FdNext(ghost r: int) returns (ghost k: int)
      requires SlotsOk() && 0 <= id < MAXCO && 0 <= r < MAXCO && Ready(r)
      modifies `id
      ensures 0 <= id < MAXCO && Ready(id)
      ensures FirstAfter(old(id), id, old(Now()).ready, k)
      ensures forall i :: 0 <= i < MAXCO && Ready(i) ==> Distance(old(id), id) <= Distance(old(id), i)
    {
      ghost var from := id;
      id := (id + 1) % MAXCO;
      k := 1;
      while !(pool[id] != null && (pool[id].status == RUNNING || pool[id].status == NEW))
        invariant 0 <= id < MAXCO && k == Distance(from, id)
        invariant forall i :: 0 <= i < MAXCO && Ready(i) ==> Distance(from, id) <= Distance(from, i)
        decreases MAXCO - Distance(from, id)
      {
        assert id != r && Distance(from, id) < Distance(from, r);
        id := (id + 1) % MAXCO;
        k := k + 1;
      }
      NearestIsFirst(from, id, old(Now()).ready);
    }

    // The jump to the coroutine in slot id: one that has not run yet starts to run.
    method Enter(c: Coroutine)
      requires c.status == RUNNING || c.status == NEW
      modifies `current, c`status
      ensures current == c && c.status == RUNNING
    {
      current := c;
      if current.status == NEW {
        current.status := RUNNING;
      }
    }

    // co_yield: control passes to the next coroutine that can run.
    method Yield() returns (ghost k: int)
      requires Inv()
      modifies `id, `current, slot.Keys`status
      ensures Valid() && slot == old(slot) && pool[..] == old(pool[..])
      ensures SwitchStep(old(Now()), Now())
      ensures FirstAfter(old(id), id, old(Now()).ready, k)
      ensures forall c {:trigger c.status} :: c in slot ==>
        if c == current then old(c.status) == RUNNING || old(c.status) == NEW else c.status == old(c.status)
    {
      ghost var r := FindReady(main);
      k := FdNext(r);
      Enter(pool[id]);
      Chosen();
      NewRuns();
    }

    // A coroutine that gets control for the first time waits for nobody, and nobody's wait ends.
    twostate lemma NewRuns()
      requires old(Inv()) && SlotsOk() && slot == old(slot) && rank == old(rank) && pool[..] == old(pool[..])
      requires forall c {:trigger c.waiter} :: c in slot ==> c.waiter == old(c.waiter)
      requires forall c {:trigger c.target} :: c in slot ==> c.target == old(c.target)
      requires forall c {:trigger c.status} :: c in slot ==>
        c.status == old(c.status) || (old(c.status) == NEW && c.status == RUNNING)
      ensures forall c {:trigger WaitOk(c)} :: c in slot ==> WaitOk(c)
    {
      forall c | c in slot
        ensures WaitOk(c)
      {
        assert old(WaitOk(c));
        if c.target != null { assert old(WaitOk(c.target)); }
      }
    }

    // Having taken the first slot that can run is a switch.
    twostate lemma Chosen()
      requires old(SlotsOk()) && SlotsOk() && pool[..] == old(pool[..]) && slot == old(slot)
      requires 0 <= old(id) < MAXCO && 0 <= id < MAXCO && pool[id] != null
      requires forall c {:trigger c.status} :: c in slot ==> c.status == old(c.status) || c.status == RUNNING
      requires pool[id].status == RUNNING
      requires forall i :: 0 <= i < MAXCO && old(Ready(i)) ==> Distance(old(id), id) <= Distance(old(id), i)
      ensures SwitchStep(old(Now()), Now())
    {
      assert Ready(id);
      forall i | i in old(Now()).ready && i != old(id)
        ensures i in Now().ready && Now().ready[i] == old(Now()).ready[i]
        ensures Distance(old(id), id) <= Distance(old(id), i)
      {
        assert old(Ready(i)) && pool[..][i] == old(pool[..])[i];
        assert Ready(i);
      }
    }

    // co_start's loop: c takes the first empty slot, if there is one.
    method TakeSlot(c: Coroutine)
      requires SlotsOk() && c !in slot
      modifies pool, `slot
      ensures SlotsOk() && (c in slot <==> exists i :: 0 <= i < MAXCO && old(pool[i]) == null)
      ensures if c in slot then slot == old(slot)[c := slot[c]] && pool[..] == old(pool[..])[slot[c] := c]
              else slot == old(slot) && pool[..] == old(pool[..])
      ensures c in slot ==> old(pool[..])[slot[c]] == null && forall i :: 0 <= i < slot[c] ==> old(pool[i]) != null
    {
      label started:
      var i := 0;
      while i < MAXCO
        invariant 0 <= i <= MAXCO
        invariant forall j :: 0 <= j < i ==> pool[j] != null
        invariant unchanged@started(this, pool)
      {
        if pool[i] == null {
          pool[i] := c;
          slot := slot[c := i];
          break;
        }
        i := i + 1;
      }
    }

    // co_start: the new coroutine takes the first empty slot; if there is none, nothing but its
    // caller knows of it.
    method Start() returns (c: Coroutine)
      requires Valid()
      modifies `slot, `rank, pool
      ensures Valid() && fresh(c) && c.status == NEW && c.waiter == null && c.target == null
      ensures c in slot <==> exists i :: 0 <= i < MAXCO && old(pool[i]) == null
      ensures slot.Keys == old(slot.Keys) + if c in slot then {c} else {}
      ensures forall d :: d in old(slot) ==> slot[d] == old(slot[d])
      ensures c in slot ==> forall i :: 0 <= i < slot[c] ==> old(pool[i]) != null
      ensures LocalStep(old(Now()), Now())
    {
      c := new Coroutine();
      Join(c);
    }

    // What the loop of co_start does with the new coroutine.
    method Join(c: Coroutine)
      requires Valid() && c !in slot && c.status == NEW && c.waiter == null && c.target == null
      modifies `slot, `rank, pool
      ensures Valid()
      ensures c in slot <==> exists i :: 0 <= i < MAXCO && old(pool[i]) == null
      ensures if c in slot then slot == old(slot)[c := slot[c]] else slot == old(slot)
      ensures c in slot ==> forall i :: 0 <= i < slot[c] ==> old(pool[i]) != null
      ensures LocalStep(old(Now()), Now())
    {
      ghost var p := pool[..];
      TakeSlot(c);
      rank := rank[c := 0];
      forall i | 0 <= i < MAXCO && p[i] != null
        ensures pool[i] == p[i]
      {
        assert pool[..][i] == pool[i];
      }
      assert p[id] == current;
      forall d | d in slot
        ensures WaitOk(d)
      {
        if d != c { assert old(WaitOk(d)); }
      }
      StartKeepsReady();
    }

    // Filling an empty slot takes nobody's turn.
    twostate lemma StartKeepsReady()
      requires old(SlotsOk()) && SlotsOk() && id == old(id) && 0 <= id < MAXCO
      requires forall i {:trigger pool[i]} :: 0 <= i < MAXCO && old(pool[i]) != null ==> pool[i] == old(pool[i])
      requires forall d {:trigger d.status} :: d in old(slot) ==> d.status == old(d.status)
      ensures LocalStep(old(Now()), Now())
    {
      var a, b := old(Now()), Now();
      forall i | i in a.ready && i != a.id
        ensures i in b.ready && b.ready[i] == a.ready[i]
      {
        assert pool[i] == old(pool[i]);
        assert Ready(i);
      }
    }

    // What a coroutine does once its function has returned: it is dead, and its waiter can run.
    method Die()
      requires Valid() && current.target == null && current != main
      modifies slot.Keys`status
      ensures Inv() && LocalStep(old(Now()), Now())
      ensures forall c {:trigger c.status} :: c in slot ==>
        c.status == if c == current then DEAD else if c == current.waiter then RUNNING else old(c.status)
    {
      assert WaitOk(current);
      current.status := DEAD;
      if current.waiter != null {
        current.waiter.status := RUNNING;
      }
      forall c | c in slot
        ensures WaitOk(c)
      {
        assert old(WaitOk(c));
        if c.target != null { assert old(WaitOk(c.target)); }
      }
      StillReady();
    }

    // The end of a coroutine: it yields and is never resumed.
    method Finish()
      requires Valid() && current.target == null && current != main
      modifies `id, `current, slot.Keys`status
      ensures Valid() && slot == old(slot) && pool[..] == old(pool[..])
      ensures old(current).status == DEAD && current != old(current)
      ensures old(current.waiter) != null ==> old(current.waiter).status == RUNNING
      ensures forall c {:trigger c.status} :: c in slot && old(c.status) == DEAD ==> c.status == DEAD
      ensures SwitchStep(old(Now()), Now())
    {
      assert WaitOk(current);
      if current.waiter != null { assert WaitOk(current.waiter); }
      Die();
      ghost var mid := Now();
      ghost var k := Yield();
      LocalThenSwitch(old(Now()), mid, Now());
    }

    // Whoever could run and was not executing still can.
    twostate lemma StillReady()
      requires old(SlotsOk()) && SlotsOk() && pool[..] == old(pool[..]) && id == old(id) && 0 <= id < MAXCO
      requires slot == old(slot)
      requires forall c {:trigger c.status} ::
        c in slot && slot[c] != id && old(c.status) in {RUNNING, NEW} ==> c.status in {RUNNING, NEW}
      ensures LocalStep(old(Now()), Now())
    {
      var a, b := old(Now()), Now();
      forall i | i in a.ready && i != a.id
        ensures i in b.ready && b.ready[i] == a.ready[i]
      {
        assert pool[i] == old(pool[..])[i] == pool[..][i];
        assert slot[pool[i]] == i;
        assert Ready(i);
      }
    }

    // The ranks after co_wait(co) fall along every wait, the new one included.
    lemma RanksRise(co: Coroutine)
      requires Inv() && co in slot && !LeadsTo(co, current) && current.target == null
      ensures var r := RankAfter(co); r[co] < r[current]
      ensures forall c {:trigger WaitOk(c)} ::
        c in slot && c.target != null ==> c.target in slot && RankAfter(co)[c.target] < RankAfter(co)[c]
    {
      forall c | c in slot && c.target != null
        ensures c.target in slot && RankAfter(co)[c.target] < RankAfter(co)[c]
      {
        assert WaitOk(c);
        assert LeadsTo(c, current) == LeadsTo(c.target, current);
      }
    }

    // What the wait graph looks like once current waits for co: the rank of everyone who waits
    // for current, directly or not, is raised above that of co.
    ghost function RankAfter(co: Coroutine): map<Coroutine, nat>
      requires Inv() && co in slot
      reads this, pool, slot.Keys
    {
      map c | c in slot :: if LeadsTo(c, current) then rank[c] + rank[co] + 1 else rank[c]
    }

    // New ranks under which current may wait for co.
    ghost method RaiseRanks(co: Coroutine)
      requires Inv() && co in slot && !LeadsTo(co, current) && current.target == null
      modifies `rank
      ensures Inv() && rank[co] < rank[current]
    {
      RanksRise(co);
      rank := RankAfter(co);
      forall c | c in slot ensures WaitOk(c) { assert old(WaitOk(c)); }
    }

    // co_wait's first two assignments.
    method EnterWait(co: Coroutine)
      requires Valid() && current.target == null
      requires co in slot && co.waiter == null && !LeadsTo(co, current)
      modifies `rank, co`waiter, current`status, current`target
      ensures if co.status == DEAD then Releasing(co) else Inv()
      ensures co.waiter == current && current.target == co && current.status == WAITING
      ensures LocalStep(old(Now()), Now())
    {
      assert WaitOk(co) && WaitOk(current);
      RaiseRanks(co);
      label ranked:
      co.waiter := current;
      current.status, current.target := WAITING, co;
      forall c | c in slot && !(c == current && co.status == DEAD)
        ensures WaitOk(c)
      {
        assert old@ranked(WaitOk(c));
      }
      StillReady();
    }

    // co_wait up to the point where current gives up control, or returns at once because co is
    // dead already.
    method Wait(co: Coroutine)
      requires Valid() && current.target == null
      requires co in slot && co.waiter == null && !LeadsTo(co, current)
      modifies `id, `current, `slot, `rank, pool, slot.Keys
      ensures Valid()
      ensures old(co.status) == DEAD ==> current == old(current) && slot == old(slot) - {co}
      ensures old(co.status) == DEAD ==> LocalStep(old(Now()), Now())
      ensures old(co.status) != DEAD ==> slot == old(slot) && old(current).target == co && co.waiter == old(current)
      ensures old(co.status) != DEAD ==> SwitchStep(old(Now()), Now())
      ensures forall c {:trigger c.status} :: c in slot && old(c.status) == DEAD ==> c.status == DEAD
    {
      EnterWait(co);
      ghost var mid := Now();
      if co.status != DEAD {
        ghost var k := Yield();
        LocalThenSwitch(old(Now()), mid, Now());
      } else {
        Release(co);
        LocalTwice(old(Now()), mid, Now());
      }
    }

    // The rest of co_wait, when current gets control again: co is dead, so that the loop ends.
    method Resume(co: Coroutine)
      requires Valid() && current.target == co
      modifies pool, `slot, current`status, current`target
      ensures old(co.status) == DEAD && Valid() && slot == old(slot) - {co} && current.target == null
      ensures LocalStep(old(Now()), Now())
    {
      assert WaitOk(current) && WaitOk(co);
      assert co.status == DEAD;
      Release(co);
    }

    // The loop of co_wait that empties the slot of the dead coroutine.
    method EmptySlot(co: Coroutine)
      requires SlotsOk() && co in slot
      modifies pool, `slot
      ensures SlotsOk() && slot == old(slot) - {co}
      ensures pool[..] == old(pool[..])[old(slot[co]) := null]
    {
      ghost var p, k := pool[..], slot[co];
      var i := 0;
      while i < MAXCO
        invariant 0 <= i <= k && pool[..] == p
        decreases k - i
      {
        assert pool[k] == co;
        if pool[i] == co {
          pool[i] := null;
          break;
        }
        i := i + 1;
      }
      slot := slot - {co};
    }

    // Emptying the slot of a dead coroutine takes nobody's turn.
    twostate lemma EmptyKeepsReady(co: Coroutine)
      requires old(SlotsOk()) && SlotsOk() && co in old(slot) && old(co.status) == DEAD
      requires pool[..] == old(pool[..])[old(slot[co]) := null] && id == old(id) && 0 <= id < MAXCO
      requires slot == old(slot) - {co}
      requires forall c {:trigger c.status} :: c in slot && slot[c] != id ==> c.status == old(c.status)
      ensures LocalStep(old(Now()), Now())
    {
      var a, b := old(Now()), Now();
      forall i | i in a.ready && i != a.id
        ensures i in b.ready && b.ready[i] == a.ready[i]
      {
        assert pool[..][i] == old(pool[..])[i];
        assert Ready(i);
      }
    }

    // co_wait once co is dead: its slot is emptied, it is freed, and current runs.
    method Release(co: Coroutine)
      requires Releasing(co)
      modifies pool, `slot, current`status, current`target
      ensures Valid() && slot == old(slot) - {co} && current.target == null
      ensures LocalStep(old(Now()), Now())
    {
      EmptySlot(co);
      current.status, current.target := RUNNING, null;
      assert pool[..][id] == old(pool[..])[id];
      forall c | c in slot && c != current
        ensures WaitOk(c)
      {
        assert old(WaitOk(c)) && old(WaitOk(co));
      }
      EmptyKeepsReady(co);
    }
  }
}
