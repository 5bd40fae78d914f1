/** The locks of the physical memory manager (kernel/src/pmm.c) under any interleaving: one
    spinlock per slab page and the global G_lock. At most one thread per CPU allocates; any
    thread may free. A spinning thread does not change the state, so taking a lock is one
    step that is enabled while the lock is free. */
module PmmLocks {
  import opened Options
  import opened ChainKeys

  // Where a thread is. Want...: before spin_lock, In...: inside the critical section.
  datatype PC =
    | Idle
    | AllocWant(k: Key, s: int)             // slab_alloc
    | AllocIn(k: Key, s: int)
    | NextWant(k: Key, s: int)              // S_alloc reads slab->next
    | NextIn(k: Key, s: int)
    | AddWant(k: Key, s: int)               // add_slab locks the last page of the chain ...
    | AddIn(k: Key, s: int)                 // ... and goes on to lock G_lock
    | AddG(k: Key, s: int)
    | AddLink(k: Key, s: int, added: Option<int>)
    | FreshWant(k: Key, s: int)             // slab_alloc on the page just added
    | FreshIn(k: Key, s: int)
    | FreeWant(s: int, slot: int)           // S_free
    | FreeIn(s: int, slot: int)
    | PageWant                              // G_alloc and G_free for clients
    | PageIn

  // A slab page: its chain, the page behind it, all its slots and the free ones.
  datatype Page = Page(k: Key, next: Option<int>, slots: set<int>, free: set<int>)

  datatype State = State(
    pages: map<int, Page>,
    heads: map<Key, int>,
    locks: map<int, int>,      // slab locks that are held, and by whom
    gLock: Option<int>,
    pc: map<int, PC>,
    live: set<(int, int)>,     // slots in the hands of clients
    freePages: nat)

  // ------------------------------------------------------------------ the steps

  // The slab lock and G_lock that a thread holds, and those that it is about to take.
  function HeldSlab(p: PC): Option<int> {
    match p
    case AllocIn(_, s) => Some(s)
    case NextIn(_, s) => Some(s)
    case AddIn(_, s) => Some(s)
    case AddG(_, s) => Some(s)
    case AddLink(_, s, _) => Some(s)
    case FreshIn(_, s) => Some(s)
    case FreeIn(s, _) => Some(s)
    case _ => None
  }

  predicate HoldsG(p: PC) { p.AddG? || p.PageIn? }

  function WantedSlab(p: PC): Option<int> {
    match p
    case AllocWant(_, s) => Some(s)
    case NextWant(_, s) => Some(s)
    case AddWant(_, s) => Some(s)
    case FreshWant(_, s) => Some(s)
    case FreeWant(s, _) => Some(s)
    case _ => None
  }

  predicate WantsG(p: PC) { p.AddIn? || p.PageWant? }

  // The assertions of the C code: add_slab finds slab->next NULL, and a fresh slab page
  // yields a block.
  predicate AssertsHold(st: State, t: int)
    requires t in st.pc
  {
    var p := st.pc[t];
    && (p.AddLink? && p.added.Some? ==> p.s in st.pages && st.pages[p.s].next == None)
    && (p.FreshIn? ==> p.s in st.pages && st.pages[p.s].free != {})
  }

  // spin_lock: the thread moves on when the lock is free.
  predicate Enabled(st: State, t: int)
    requires t in st.pc
  {
    var p := st.pc[t];
    && (WantedSlab(p).Some? ==> WantedSlab(p).value !in st.locks)
    && (WantsG(p) ==> st.gLock == None)
    && p != Idle
  }

  function Entered(p: PC): PC
    requires WantedSlab(p).Some?
  {
    match p
    case AllocWant(k, s) => AllocIn(k, s)
    case NextWant(k, s) => NextIn(k, s)
    case AddWant(k, s) => AddIn(k, s)
    case FreshWant(k, s) => FreshIn(k, s)
    case FreeWant(s, slot) => FreeIn(s, slot)
  }

  function At(st: State, t: int, p: PC): State { st.(pc := st.pc[t := p]) }

  // What the memory decides: the page that G_alloc finds if any is free, the slots that
  // slab_init makes of it, the slot at the head of the free list in hand, and how many pages
  // are free after a client has taken or returned some.
  datatype Env = Env(page: int, slots: set<int>, slot: int, left: nat)

  ghost predicate EnvOk(st: State, t: int, e: Env)
    requires t in st.pc
  {
    var p := st.pc[t];
    && e.page !in st.pages && e.slots != {}
    && ((p.AllocIn? || p.FreshIn?) && p.s in st.pages && st.pages[p.s].free != {} ==> e.slot in st.pages[p.s].free)
  }

  // PcInv and AssertsHold make Step well-defined; EnvDecides shows that they keep no thread back.
  ghost predicate Ready(st: State, t: int, e: Env) {
    t in st.pc && PcInv(st, t) && AssertsHold(st, t) && Enabled(st, t) && EnvOk(st, t, e)
  }

  // One step of a thread that is not idle.
  ghost function Step(st: State, t: int, e: Env): State
    requires Ready(st, t, e)
  {
    var p := st.pc[t];
    if WantedSlab(p).Some? then
      At(st, t, Entered(p)).(locks := st.locks[WantedSlab(p).value := t])
    else match p
    case AllocIn(k, s) =>
      if st.pages[s].free == {} then At(st, t, NextWant(k, s)).(locks := st.locks - {s})
      else Taken(st, t, s, e.slot)
    case NextIn(k, s) =>
      var next := st.pages[s].next;
      At(st, t, if next.Some? then AllocWant(k, next.value) else AddWant(k, s)).(locks := st.locks - {s})
    case AddIn(k, s) => At(st, t, AddG(k, s)).(gLock := Some(t))
    case AddG(k, s) =>
      if st.freePages == 0 then At(st, t, AddLink(k, s, None)).(gLock := None)
      else At(st, t, AddLink(k, s, Some(e.page))).(gLock := None, freePages := st.freePages - 1,
        pages := st.pages[e.page := Page(k, None, e.slots, e.slots)])
    case AddLink(k, s, added) =>
      if added.None? then At(st, t, Idle).(locks := st.locks - {s})
      else At(st, t, FreshWant(k, added.value)).(locks := st.locks - {s},
        pages := st.pages[s := st.pages[s].(next := added)])
    case FreshIn(k, s) => Taken(st, t, s, e.slot)
    case FreeIn(s, slot) =>
      At(st, t, Idle).(locks := st.locks - {s}, pages := st.pages[s := st.pages[s].(free := st.pages[s].free + {slot})])
    case PageWant => At(st, t, PageIn).(gLock := Some(t))
    case PageIn => At(st, t, Idle).(gLock := None, freePages := e.left)
    case _ => st
  }

  // A slot leaves the free list of page s for the client.
  ghost function Taken(st: State, t: int, s: int, i: int): State
    requires s in st.pages
  {
    At(st, t, Idle).(locks := st.locks - {s}, live := st.live + {(s, i)},
      pages := st.pages[s := st.pages[s].(free := st.pages[s].free - {i})])
  }

  // What an idle thread may be asked to do: kalloc of a small size (on its own CPU), kfree of
  // a live slot, or a page-sized kalloc or kfree.
  datatype Request = Alloc(cls: int) | Free(s: int, slot: int) | Pages

  ghost predicate CanServe(st: State, t: int, r: Request) {
    && t in st.pc && st.pc[t] == Idle
    && (r.Alloc? ==> Key(t, r.cls) in st.heads)
    && (r.Free? ==> (r.s, r.slot) in st.live)
  }

  ghost function Serve(st: State, t: int, r: Request): State
    requires CanServe(st, t, r)
  {
    match r
    case Alloc(cls) => At(st, t, AllocWant(Key(t, cls), st.heads[Key(t, cls)]))
    case Free(s, slot) => At(st, t, FreeWant(s, slot)).(live := st.live - {(s, slot)})
    case Pages => At(st, t, PageWant)
  }

  // -------------------------------------------------------------- the invariant

  // The page that a thread works on, if any.
  function Works(p: PC): Option<int> {
    if HeldSlab(p).Some? then HeldSlab(p) else WantedSlab(p)
  }

  predicate Allocating(p: PC) {
    Works(p).Some? && !p.FreeWant? && !p.FreeIn?
  }

  predicate Adding(p: PC) { p.AddWant? || p.AddIn? || p.AddG? || p.AddLink? }

  predicate Freeing(p: PC) { p.FreeWant? || p.FreeIn? }

  ghost predicate FreshPage(st: State, n: int, k: Key)
    requires n in st.pages
  {
    st.pages[n].k == k && st.pages[n].next == None && st.pages[n].free == st.pages[n].slots
  }

  ghost predicate PcInv(st: State, t: int)
    requires t in st.pc
  {
    var p := st.pc[t];
    && (Works(p).Some? ==> Works(p).value in st.pages)
    // a chain is worked on by the thread of its CPU
    && (Allocating(p) ==> p.k.cpu == t && st.pages[p.s].k == p.k)
    // the page to be extended is the last of its chain
    && (Adding(p) ==> st.pages[p.s].next == None)
    // the page to be linked is new: nobody has a slot of it
    && (p.AddLink? && p.added.Some? ==>
          p.added.value in st.pages && p.added.value != p.s && FreshPage(st, p.added.value, p.k))
    && (p.FreshWant? || p.FreshIn? ==> st.pages[p.s].free == st.pages[p.s].slots)
    // a slot being freed is neither free nor live
    && (Freeing(p) ==>
          p.slot in st.pages[p.s].slots && p.slot !in st.pages[p.s].free && (p.s, p.slot) !in st.live)
    // locks
    && (HeldSlab(p).Some? ==> HeldSlab(p).value in st.locks && st.locks[HeldSlab(p).value] == t)
    && (HoldsG(p) ==> st.gLock == Some(t))
  }

  // No two threads free the same slot.
  ghost predicate ApartInv(st: State, t: int, u: int)
    requires t in st.pc && u in st.pc
  {
    Freeing(st.pc[t]) && Freeing(st.pc[u]) && t != u ==>
      st.pc[t].s != st.pc[u].s || st.pc[t].slot != st.pc[u].slot
  }

  ghost predicate PageInv(st: State, s: int)
    requires s in st.pages
  {
    && st.pages[s].free <= st.pages[s].slots && st.pages[s].slots != {}
    && (st.pages[s].next.Some? ==>
          st.pages[s].next.value in st.pages && st.pages[st.pages[s].next.value].k == st.pages[s].k)
  }

  ghost predicate LiveInv(st: State, s: int, i: int) {
    s in st.pages && i in st.pages[s].slots && i !in st.pages[s].free
  }

  ghost predicate Inv(st: State) {
    && (forall t {:trigger PcInv(st, t)} :: t in st.pc ==> PcInv(st, t))
    && (forall t, u {:trigger ApartInv(st, t, u)} :: t in st.pc && u in st.pc ==> ApartInv(st, t, u))
    && (forall s {:trigger PageInv(st, s)} :: s in st.pages ==> PageInv(st, s))
    && (forall k {:trigger st.heads[k]} :: k in st.heads ==> st.heads[k] in st.pages && st.pages[st.heads[k]].k == k)
    && (forall s, i {:trigger (s, i) in st.live} :: (s, i) in st.live ==> LiveInv(st, s, i))
    && (forall s {:trigger st.locks[s]} ::
          s in st.locks ==> st.locks[s] in st.pc && HeldSlab(st.pc[st.locks[s]]) == Some(s))
    && (st.gLock.Some? ==> st.gLock.value in st.pc && HoldsG(st.pc[st.gLock.value]))
  }

  // ------------------------------------------------------------------- safety

  lemma AssertionsHold(st: State, t: int)
    requires Inv(st) && t in st.pc
    ensures AssertsHold(st, t)
  {
    assert PcInv(st, t);
    if st.pc[t].FreshIn? { assert PageInv(st, st.pc[t].s); }
  }

  // A lock protects its slab page: at most one thread is inside.
  lemma MutualExclusion(st: State, t: int, u: int)
    requires Inv(st) && t in st.pc && u in st.pc && t != u
    ensures HeldSlab(st.pc[t]).Some? ==> HeldSlab(st.pc[t]) != HeldSlab(st.pc[u])
    ensures !(HoldsG(st.pc[t]) && HoldsG(st.pc[u]))
  {
    assert PcInv(st, t) && PcInv(st, u);
  }

  // A thread holds one slab lock at most. While it waits for a slab lock it holds no lock at all,
  // and while it waits for G_lock it does not hold that: locks are taken in the order slab, G_lock.
  ghost predicate InOrder(st: State, t: int)
    requires t in st.pc
  {
    && (forall s, s' {:trigger st.locks[s], st.locks[s']} ::
          s in st.locks && s' in st.locks && st.locks[s] == t && st.locks[s'] == t ==> s == s')
    && (WantedSlab(st.pc[t]).Some? ==>
          st.gLock != Some(t) && forall s {:trigger st.locks[s]} :: s in st.locks ==> st.locks[s] != t)
    && (WantsG(st.pc[t]) ==> st.gLock != Some(t))
  }

  lemma LockOrder(st: State, t: int)
    requires Inv(st) && t in st.pc
    ensures InOrder(st, t)
  {
    forall s | s in st.locks && st.locks[s] == t
      ensures HeldSlab(st.pc[t]) == Some(s)
    {
      assert HeldSlab(st.pc[st.locks[s]]) == Some(s);
    }
  }

  // Whenever the locks let a thread go on, it can: only the memory decides what it does.
  lemma EnvDecides(st: State, t: int, e: Env)
    requires Inv(st) && t in st.pc && Enabled(st, t) && EnvOk(st, t, e)
    ensures Ready(st, t, e)
  {
    assert PcInv(st, t);
    AssertionsHold(st, t);
  }

  // Some thread can always go on, unless all are idle.
  lemma NoDeadlock(st: State)
    requires Inv(st) && exists t :: t in st.pc && st.pc[t] != Idle
    ensures exists t :: t in st.pc && Enabled(st, t)
  {
    var t :| t in st.pc && st.pc[t] != Idle;
    if st.gLock.Some? {
      assert Enabled(st, st.gLock.value);
    } else if s :| s in st.locks {
      assert HeldSlab(st.pc[st.locks[s]]) == Some(s);
      assert Enabled(st, st.locks[s]);
    } else {
      assert Enabled(st, t);
    }
  }

  // ------------------------------------------------------------ every step keeps it

  lemma ServeKeepsInv(st: State, t: int, r: Request)
    requires Inv(st) && CanServe(st, t, r)
    ensures Inv(Serve(st, t, r))
  {
    var st' := Serve(st, t, r);
    forall u | u in st'.pc
      ensures PcInv(st', u)
    {
      assert PcInv(st, u);
      if r.Free? { assert LiveInv(st, r.s, r.slot); }
    }
    forall u, v | u in st'.pc && v in st'.pc
      ensures ApartInv(st', u, v)
    {
      assert ApartInv(st, u, v) && PcInv(st, u) && PcInv(st, v);
    }
    forall s | s in st'.pages ensures PageInv(st', s) { assert PageInv(st, s); }
    forall s, i | (s, i) in st'.live ensures LiveInv(st', s, i) { assert (s, i) in st.live; }
  }

  lemma LockTaken(st: State, t: int, e: Env)
    requires Inv(st) && Ready(st, t, e) && WantedSlab(st.pc[t]).Some?
    ensures PcInv(Step(st, t, e), t)
  {}

  // After taking a slot, giving one back, or finishing with a page, a thread is idle.
  lemma WorkDone(st: State, t: int, e: Env)
    requires Inv(st) && Ready(st, t, e) && WantedSlab(st.pc[t]).None?
    ensures PcInv(Step(st, t, e), t)
  {
    if Allocating(st.pc[t]) { ChainWork(st, t, e); }
  }

  lemma ChainWork(st: State, t: int, e: Env)
    requires Inv(st) && Ready(st, t, e) && WantedSlab(st.pc[t]).None? && Allocating(st.pc[t])
    ensures PcInv(Step(st, t, e), t)
  {
    var s := st.pc[t].s;
    assert PageInv(st, s);
    if st.pc[t].NextIn? && st.pages[s].next.Some? { assert PageInv(st, st.pages[s].next.value); }
  }

  // What a step does to the slab pages and the slots of clients.
  datatype Effect =
    | Same
    | NewPage(n: int, page: Page)
    | Link(s: int, n: int)
    | Take(s: int, i: int)
    | Give(s: int, i: int)

  ghost predicate Applied(st: State, st': State, f: Effect) {
    match f
    case Same => st'.pages == st.pages && st'.live == st.live
    case NewPage(n, page) => st'.pages == st.pages[n := page] && st'.live == st.live
    case Link(s, n) => s in st.pages && st'.pages == st.pages[s := st.pages[s].(next := Some(n))] && st'.live == st.live
    case Take(s, i) =>
      && s in st.pages && st'.pages == st.pages[s := st.pages[s].(free := st.pages[s].free - {i})]
      && st'.live == st.live + {(s, i)}
    case Give(s, i) =>
      && s in st.pages && st'.pages == st.pages[s := st.pages[s].(free := st.pages[s].free + {i})]
      && st'.live == st.live
  }

  // It is made by a thread that holds the lock of the slab page, or G_lock for a new one.
  ghost predicate EffectOk(st: State, t: int, f: Effect)
    requires t in st.pc
  {
    var p := st.pc[t];
    match f
    case Same => true
    case NewPage(n, page) =>
      n !in st.pages && HoldsG(p) && page.next == None && page.free == page.slots && page.slots != {}
    case Link(s, n) =>
      p.AddLink? && p.s == s && s in st.pages && n in st.pages && st.pages[n].k == st.pages[s].k
    case Take(s, i) => HeldSlab(p) == Some(s) && s in st.pages && i in st.pages[s].free
    case Give(s, i) => p == FreeIn(s, i) && s in st.pages && i in st.pages[s].slots
  }

  lemma StepApplies(st: State, t: int, e: Env) returns (f: Effect)
    requires Inv(st) && Ready(st, t, e)
    ensures Applied(st, Step(st, t, e), f) && EffectOk(st, t, f)
  {
    match st.pc[t]
    case AllocIn(k, s) => f := if st.pages[s].free == {} then Same else Take(s, e.slot);
    case FreshIn(k, s) => f := Take(s, e.slot);
    case AddG(k, s) => f := if st.freePages == 0 then Same else NewPage(e.page, Page(k, None, e.slots, e.slots));
    case AddLink(k, s, added) => f := if added.None? then Same else Link(s, added.value);
    case FreeIn(s, slot) => f := Give(s, slot);
    case _ => f := Same;
  }

  // A step changes no slab page but the one whose lock the thread holds.
  ghost predicate Framed(st: State, st': State, p: PC, q: int)
    requires q in st.pages
  {
    && q in st'.pages && st'.pages[q].k == st.pages[q].k && st'.pages[q].slots == st.pages[q].slots
    && (st'.pages[q].next != st.pages[q].next ==> p.AddLink? && p.s == q)
    && (st'.pages[q].free != st.pages[q].free ==> HeldSlab(p) == Some(q))
    && (st'.pages[q].free <= st.pages[q].free
        || (p.FreeIn? && p.s == q && st'.pages[q].free == st.pages[q].free + {p.slot}))
    && (forall i :: (q, i) in st'.live && (q, i) !in st.live ==> i in st.pages[q].free)
  }

  lemma PageFrame(st: State, t: int, e: Env, q: int)
    requires Inv(st) && Ready(st, t, e) && q in st.pages
    ensures Framed(st, Step(st, t, e), st.pc[t], q)
  {
    var f := StepApplies(st, t, e);
    EffectFrames(st, Step(st, t, e), t, f, q);
  }

  lemma EffectFrames(st: State, st': State, t: int, f: Effect, q: int)
    requires t in st.pc && q in st.pages && Applied(st, st', f) && EffectOk(st, t, f)
    ensures Framed(st, st', st.pc[t], q)
  {}

  // A thread's assumptions survive every step of another thread.
  lemma OtherPcKept(st: State, t: int, e: Env, u: int)
    requires Inv(st) && Ready(st, t, e)
    requires u in st.pc && u != t && PcInv(st, u) && ApartInv(st, t, u)
    ensures PcInv(Step(st, t, e), u)
  {
    var p := st.pc[u];
    MutualExclusion(st, t, u);
    if Works(p).Some? { PageFrame(st, t, e, Works(p).value); }
    if p.AddLink? && p.added.Some? { PageFrame(st, t, e, p.added.value); }
    OtherLocks(st, t, e, u);
  }

  lemma OtherLocks(st: State, t: int, e: Env, u: int)
    requires Inv(st) && Ready(st, t, e) && u in st.pc && u != t && PcInv(st, u)
    ensures var st', p := Step(st, t, e), st.pc[u];
      && st'.pc[u] == p
      && (HeldSlab(p).Some? ==> HeldSlab(p).value in st'.locks && st'.locks[HeldSlab(p).value] == u)
      && (HoldsG(p) ==> st'.gLock == Some(u))
  {
    MutualExclusion(st, t, u);
  }

  lemma PagesKept(st: State, st': State, t: int, f: Effect, s: int)
    requires Inv(st) && t in st.pc && Applied(st, st', f) && EffectOk(st, t, f) && s in st'.pages
    ensures PageInv(st', s)
  {
    if s in st.pages { assert PageInv(st, s); }
  }

  lemma LiveKept(st: State, st': State, t: int, f: Effect, s: int, i: int)
    requires Inv(st) && t in st.pc && Applied(st, st', f) && EffectOk(st, t, f) && (s, i) in st'.live
    requires f.Give? ==> (f.s, f.i) !in st.live
    ensures LiveInv(st', s, i)
  {
    if (s, i) in st.live { assert LiveInv(st, s, i); } else { assert PageInv(st, s); }
  }

  lemma LocksKept(st: State, t: int, e: Env)
    requires Inv(st) && Ready(st, t, e)
    ensures var st' := Step(st, t, e);
      && (forall s {:trigger st'.locks[s]} :: s in st'.locks ==>
            st'.locks[s] in st'.pc && HeldSlab(st'.pc[st'.locks[s]]) == Some(s))
      && (st'.gLock.Some? ==> st'.gLock.value in st'.pc && HoldsG(st'.pc[st'.gLock.value]))
  {
    var st' := Step(st, t, e);
    forall s | s in st'.locks
      ensures st'.locks[s] in st'.pc && HeldSlab(st'.pc[st'.locks[s]]) == Some(s)
    {
      if s in st.locks { assert HeldSlab(st.pc[st.locks[s]]) == Some(s); }
    }
  }

  lemma HeadsKept(st: State, t: int, e: Env, k: Key)
    requires Inv(st) && Ready(st, t, e) && k in Step(st, t, e).heads
    ensures var st' := Step(st, t, e);
      st'.heads[k] in st'.pages && st'.pages[st'.heads[k]].k == k
  {
    PageFrame(st, t, e, st.heads[k]);
  }

  lemma ApartFacts(st: State, u: int, v: int)
    requires Inv(st) && u in st.pc && v in st.pc
    ensures ApartInv(st, u, v)
  {
    assert ApartInv(st, u, v);
  }

  lemma ApartKept(st: State, t: int, e: Env, u: int, v: int)
    requires Inv(st) && Ready(st, t, e) && u in Step(st, t, e).pc && v in Step(st, t, e).pc
    ensures ApartInv(Step(st, t, e), u, v)
  {
    FreeingStays(st, t, e, u);
    FreeingStays(st, t, e, v);
    ApartFacts(st, u, v);
  }

  // A step moves one thread.
  lemma OnlyMover(st: State, t: int, e: Env)
    requires Ready(st, t, e)
    ensures t in st.pc && t in Step(st, t, e).pc && Step(st, t, e).pc == st.pc[t := Step(st, t, e).pc[t]]
    ensures WantedSlab(st.pc[t]).Some? ==> Step(st, t, e).pc[t] == Entered(st.pc[t])
    ensures WantedSlab(st.pc[t]).None? ==> !Freeing(Step(st, t, e).pc[t])
  {}

  lemma FreeingStays(st: State, t: int, e: Env, u: int)
    requires Ready(st, t, e) && u in Step(st, t, e).pc
    ensures u in st.pc
    ensures var p, p' := st.pc[u], Step(st, t, e).pc[u];
      Freeing(p') ==> Freeing(p) && p'.s == p.s && p'.slot == p.slot
  {
    OnlyMover(st, t, e);
  }

  lemma PcKept(st: State, t: int, e: Env, u: int)
    requires Inv(st) && Ready(st, t, e) && u in Step(st, t, e).pc
    ensures PcInv(Step(st, t, e), u)
  {
    assert PcInv(st, u) && ApartInv(st, t, u);
    if u != t {
      OtherPcKept(st, t, e, u);
    } else if WantedSlab(st.pc[t]).Some? {
      LockTaken(st, t, e);
    } else {
      WorkDone(st, t, e);
    }
  }

  lemma StepKeepsInv(st: State, t: int, e: Env)
    requires Inv(st) && Ready(st, t, e)
    ensures Inv(Step(st, t, e))
  {
    var st' := Step(st, t, e);
    forall u | u in st'.pc ensures PcInv(st', u) { PcKept(st, t, e, u); }
    forall u, v | u in st'.pc && v in st'.pc ensures ApartInv(st', u, v) { ApartKept(st, t, e, u, v); }
    var f := StepApplies(st, t, e);
    forall s | s in st'.pages ensures PageInv(st', s) { PagesKept(st, st', t, f, s); }
    forall s, i | (s, i) in st'.live ensures LiveInv(st', s, i) { LiveKept(st, st', t, f, s, i); }
    LocksKept(st, t, e);
    forall k | k in st'.heads
      ensures st'.heads[k] in st'.pages && st'.pages[st'.heads[k]].k == k
    {
      HeadsKept(st, t, e, k);
    }
  }

  // ------------------------------------------------------------------ all runs

  // The allocator after S_init: one page per chain, all slots free, no thread inside.
  ghost predicate Init(st: State) {
    && st.live == {} && st.locks == map[] && st.gLock == None
    && (forall t :: t in st.pc ==> st.pc[t] == Idle)
    && (forall k {:trigger st.heads[k]} :: k in st.heads ==> st.heads[k] in st.pages && st.pages[st.heads[k]].k == k)
    && (forall s {:trigger st.pages[s]} :: s in st.pages ==> st.pages[s].k in st.heads && st.heads[st.pages[s].k] == s)
    && (forall s {:trigger st.pages[s]} :: s in st.pages ==>
          st.pages[s].next == None && st.pages[s].free == st.pages[s].slots && st.pages[s].slots != {})
  }

  ghost predicate Moves(st: State, st': State) {
    || (exists t, e {:trigger Step(st, t, e)} :: Ready(st, t, e) && st' == Step(st, t, e))
    || (exists t, r {:trigger Serve(st, t, r)} :: CanServe(st, t, r) && st' == Serve(st, t, r))
  }

  ghost predicate IsRun(run: seq<State>) {
    run != [] && Init(run[0]) && forall i {:trigger run[i]} :: 0 < i < |run| ==> Moves(run[i - 1], run[i])
  }

  // In every state of every interleaving: the assertions hold for every thread, no two threads
  // are in the same critical section, and unless all are idle some thread can go on.
  lemma {:induction false} RunSafe(run: seq<State>, i: int)
    requires IsRun(run) && 0 <= i < |run|
    ensures var st := run[i];
      && Inv(st)
      && (forall t {:trigger AssertsHold(st, t)} :: t in st.pc ==> AssertsHold(st, t))
      && (forall t, u {:trigger HeldSlab(st.pc[t]), HeldSlab(st.pc[u])} :: t in st.pc && u in st.pc && t != u ==>
            (HeldSlab(st.pc[t]).Some? ==> HeldSlab(st.pc[t]) != HeldSlab(st.pc[u])))
      && (forall t {:trigger InOrder(st, t)} :: t in st.pc ==> InOrder(st, t))
      && ((exists t :: t in st.pc && st.pc[t] != Idle) ==> exists t :: t in st.pc && Enabled(st, t))
  {
    var st := run[i];
    if i == 0 {
      assert forall s {:trigger PageInv(st, s)} :: s in st.pages ==> st.pages[s].next == None && PageInv(st, s);
    } else {
      RunSafe(run, i - 1);
      MoveKeepsInv(run[i - 1], st);
    }
    forall t | t in st.pc ensures AssertsHold(st, t) { AssertionsHold(st, t); }
    forall t, u | t in st.pc && u in st.pc && t != u
      ensures HeldSlab(st.pc[t]).Some? ==> HeldSlab(st.pc[t]) != HeldSlab(st.pc[u])
    {
      MutualExclusion(st, t, u);
    }
    forall t | t in st.pc ensures InOrder(st, t) { LockOrder(st, t); }
    if exists t :: t in st.pc && st.pc[t] != Idle { NoDeadlock(st); }
  }

  // A slab page that differs was locked, by the thread that moved.
  ghost predicate ChangedUnderLock(st: State, st': State, t: int, q: int)
    requires q in st.pages
  {
    && q in st'.pages
    && (st'.pages[q] != st.pages[q] ==> q in st.locks && st.locks[q] == t)
  }

  // In every move of every interleaving a slab page changes only under its own lock, and a new
  // one appears only under G_lock.
  lemma RunListsLocked(run: seq<State>, i: int) returns (t: int)
    requires IsRun(run) && 0 < i < |run|
    ensures forall q {:trigger ChangedUnderLock(run[i - 1], run[i], t, q)} ::
      q in run[i - 1].pages ==> ChangedUnderLock(run[i - 1], run[i], t, q)
    ensures run[i].pages.Keys != run[i - 1].pages.Keys ==> run[i - 1].gLock == Some(t)
  {
    RunSafe(run, i - 1);
    t := MoverIs(run[i - 1], run[i]);
  }

  lemma MoverIs(st: State, st': State) returns (t: int)
    requires Inv(st) && Moves(st, st')
    ensures forall q {:trigger ChangedUnderLock(st, st', t, q)} :: q in st.pages ==> ChangedUnderLock(st, st', t, q)
    ensures st'.pages.Keys != st.pages.Keys ==> st.gLock == Some(t)
  {
    if u, e {:trigger Step(st, u, e)} :| Ready(st, u, e) && st' == Step(st, u, e) {
      t := u;
      forall q | q in st.pages ensures ChangedUnderLock(st, st', t, q) { PageFrame(st, t, e, q); }
      NewPageUnderG(st, t, e);
    } else {
      var u, r :| CanServe(st, u, r) && st' == Serve(st, u, r);
      t := u;
    }
  }

  lemma NewPageUnderG(st: State, t: int, e: Env)
    requires Inv(st) && Ready(st, t, e)
    ensures Step(st, t, e).pages.Keys != st.pages.Keys ==> st.gLock == Some(t)
  {
    var f := StepApplies(st, t, e);
    EffectKeys(st, Step(st, t, e), t, f);
  }

  lemma EffectKeys(st: State, st': State, t: int, f: Effect)
    requires Inv(st) && t in st.pc && Applied(st, st', f) && EffectOk(st, t, f)
    ensures st'.pages.Keys != st.pages.Keys ==> st.gLock == Some(t)
  {
    assert PcInv(st, t);
    if !f.NewPage? { assert st'.pages.Keys == st.pages.Keys; }
  }

  lemma MoveKeepsInv(st: State, st': State)
    requires Inv(st) && Moves(st, st')
    ensures Inv(st')
  {
    if t, e {:trigger Step(st, t, e)} :| Ready(st, t, e) && st' == Step(st, t, e) {
      StepKeepsInv(st, t, e);
    } else {
      var t, r :| CanServe(st, t, r) && st' == Serve(st, t, r);
      ServeKeepsInv(st, t, r);
    }
  }

  // -------------------------------------------------------------- nothing is lost

  // Thread t is about to put slot i of page s back.
  predicate Returning(st: State, t: int, s: int, i: int) {
    t in st.pc && Freeing(st.pc[t]) && st.pc[t].s == s && st.pc[t].slot == i
  }

  // Thread t is about to link page n.
  predicate Linking(st: State, t: int, n: int) {
    t in st.pc && st.pc[t].AddLink? && st.pc[t].added == Some(n)
  }

  // A slot is free, in the hands of a client, or on its way back.
  ghost predicate Accounted(st: State, s: int, i: int)
    requires s in st.pages
  {
    i in st.pages[s].free || (s, i) in st.live || exists t {:trigger Returning(st, t, s, i)} :: Returning(st, t, s, i)
  }

  // A page is the first of its chain, behind another one, or about to be linked.
  ghost predicate InChain(st: State, n: int)
    requires n in st.pages
  {
    || (st.pages[n].k in st.heads && st.heads[st.pages[n].k] == n)
    || (exists s {:trigger st.pages[s]} :: s in st.pages && st.pages[s].next == Some(n))
    || (exists t {:trigger Linking(st, t, n)} :: Linking(st, t, n))
  }

  ghost predicate NoneLost(st: State) {
    && (forall s, i {:trigger Accounted(st, s, i)} :: s in st.pages && i in st.pages[s].slots ==> Accounted(st, s, i))
    && (forall n {:trigger InChain(st, n)} :: n in st.pages ==> InChain(st, n))
  }

  // The three are different: no slot is in two places, nor on its way back twice.
  lemma OnePlace(st: State, s: int, i: int, t: int, u: int)
    requires Inv(st) && s in st.pages
    ensures (s, i) in st.live ==> i !in st.pages[s].free
    ensures Returning(st, t, s, i) ==> i !in st.pages[s].free && (s, i) !in st.live
    ensures Returning(st, t, s, i) && Returning(st, u, s, i) ==> t == u
  {
    if (s, i) in st.live { assert LiveInv(st, s, i); }
    if t in st.pc { assert PcInv(st, t); }
    if t in st.pc && u in st.pc { assert ApartInv(st, t, u); }
  }

  lemma StillReturning(st: State, t: int, e: Env, u: int, s: int, i: int)
    requires Inv(st) && Ready(st, t, e) && s in st.pages && Returning(st, u, s, i)
    ensures s in Step(st, t, e).pages
    ensures Returning(Step(st, t, e), u, s, i) || i in Step(st, t, e).pages[s].free
  {
    PageFrame(st, t, e, s);
    if u == t && WantedSlab(st.pc[t]).Some? { assert Step(st, t, e).pc[t] == Entered(st.pc[t]); }
  }

  lemma StillAccounted(st: State, t: int, e: Env, s: int, i: int)
    requires Inv(st) && Ready(st, t, e) && s in st.pages && Accounted(st, s, i)
    ensures s in Step(st, t, e).pages && Accounted(Step(st, t, e), s, i)
  {
    var st' := Step(st, t, e);
    PageFrame(st, t, e, s);
    var f := StepApplies(st, t, e);
    if u :| Returning(st, u, s, i) {
      StillReturning(st, t, e, u, s, i);
    } else {
      TakenIsLive(st, st', t, f, s, i);
    }
  }

  lemma TakenIsLive(st: State, st': State, t: int, f: Effect, s: int, i: int)
    requires Inv(st) && t in st.pc && Applied(st, st', f) && EffectOk(st, t, f) && s in st.pages
    requires i in st.pages[s].free || (s, i) in st.live
    ensures s in st'.pages && (i in st'.pages[s].free || (s, i) in st'.live)
  {}

  lemma StepLosesNone(st: State, t: int, e: Env)
    requires Inv(st) && NoneLost(st) && Ready(st, t, e)
    ensures NoneLost(Step(st, t, e))
  {
    var st' := Step(st, t, e);
    forall s, i | s in st'.pages && i in st'.pages[s].slots
      ensures Accounted(st', s, i)
    {
      if s in st.pages {
        PageFrame(st, t, e, s);
        assert Accounted(st, s, i);
        StillAccounted(st, t, e, s, i);
      } else {
        FreshSlots(st, t, e, s);
      }
    }
    forall n | n in st'.pages
      ensures InChain(st', n)
    {
      if n in st.pages { assert InChain(st, n); StillInChain(st, t, e, n); } else { FreshSlots(st, t, e, n); }
    }
  }

  lemma FreshSlots(st: State, t: int, e: Env, n: int)
    requires Inv(st) && Ready(st, t, e) && n in Step(st, t, e).pages && n !in st.pages
    ensures var st' := Step(st, t, e); st'.pages[n].free == st'.pages[n].slots && Linking(st', t, n)
  {
    var f := StepApplies(st, t, e);
  }

  lemma StillInChain(st: State, t: int, e: Env, n: int)
    requires Inv(st) && Ready(st, t, e) && n in st.pages && InChain(st, n)
    ensures n in Step(st, t, e).pages && InChain(Step(st, t, e), n)
  {
    var st' := Step(st, t, e);
    PageFrame(st, t, e, n);
    if u :| Linking(st, u, n) {
      if u == t {
        LinkedNow(st, t, e, n);
      } else {
        assert Linking(st', u, n);
      }
    } else if s :| s in st.pages && st.pages[s].next == Some(n) {
      PageFrame(st, t, e, s);
      NextStays(st, t, e, s);
    }
  }

  lemma LinkedNow(st: State, t: int, e: Env, n: int)
    requires Inv(st) && Ready(st, t, e) && Linking(st, t, n)
    ensures var st' := Step(st, t, e); st.pc[t].s in st'.pages && st'.pages[st.pc[t].s].next == Some(n)
  {
    assert PcInv(st, t);
  }

  lemma NextStays(st: State, t: int, e: Env, s: int)
    requires Inv(st) && Ready(st, t, e) && s in st.pages && st.pages[s].next.Some?
    ensures s in Step(st, t, e).pages && Step(st, t, e).pages[s].next == st.pages[s].next
  {
    assert PcInv(st, t);
    PageFrame(st, t, e, s);
  }

  lemma ServeLosesNone(st: State, t: int, r: Request)
    requires Inv(st) && NoneLost(st) && CanServe(st, t, r)
    ensures NoneLost(Serve(st, t, r))
  {
    var st' := Serve(st, t, r);
    forall s, i | s in st'.pages && i in st'.pages[s].slots
      ensures Accounted(st', s, i)
    {
      assert Accounted(st, s, i);
      if u :| Returning(st, u, s, i) {
        assert Returning(st', u, s, i);
      } else if r.Free? && r.s == s && r.slot == i {
        assert Returning(st', t, s, i);
      }
    }
    forall n | n in st'.pages
      ensures InChain(st', n)
    {
      assert InChain(st, n);
      if u :| Linking(st, u, n) { assert Linking(st', u, n); }
    }
  }

  // In every state of every interleaving no slot and no page is lost.
  lemma {:induction false} RunLosesNone(run: seq<State>, i: int)
    requires IsRun(run) && 0 <= i < |run|
    ensures Inv(run[i]) && NoneLost(run[i])
  {
    RunSafe(run, i);
    if i > 0 {
      RunLosesNone(run, i - 1);
      var st, st' := run[i - 1], run[i];
      assert Moves(st, st');
      if t, e {:trigger Step(st, t, e)} :| Ready(st, t, e) && st' == Step(st, t, e) {
        StepLosesNone(st, t, e);
      } else {
        var t, r :| CanServe(st, t, r) && st' == Serve(st, t, r);
        ServeLosesNone(st, t, r);
      }
    }
  }
}
