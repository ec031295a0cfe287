/** filesys/synchdisk.cc over machine/disk.cc: one request at a time, by a lock, a semaphore that
    counts completions, and an interrupt. A step is what one thread, or the interrupt handler,
    does without interruption. */
module SynchDisks {
  import opened Synch

  /** Where a caller of ReadSector or WriteSector is. Asleep and Ready are inside semaphore->P. */
  datatype Phase = Locking | Locked | Issued | Asleep | Ready | Done

  /** lock, semaphore and Disk::active; requests issued and completed so far; the threads woken
      inside the lock's Acquire; and the phase of each thread inside a call, with the number of
      the request it issued. */
  datatype DiskWorld = DiskWorld(lock: LockState, semaphore: Sem, active: bool, issued: nat, completed: nat,
                                 lockWoken: set<Thread>, phase: map<Thread, Phase>, request: map<Thread, nat>)

  predicate DiskInit(w: DiskWorld) {
    w == DiskWorld(LockState(Sem(1, []), None), Sem(0, []), false, 0, 0, {}, map[], map[])
  }

  predicate At(w: DiskWorld, t: Thread, p: Phase) {
    t in w.phase && w.phase[t] == p
  }

  predicate MayLock(w: DiskWorld, t: Thread) {
    t !in w.lock.sem.queue && (t !in w.phase || w.phase[t] == Locking)
  }

  /** A test of the lock, by a new caller or one woken in Acquire. */
  predicate LockStep(w: DiskWorld, w': DiskWorld, t: Thread) {
    && MayLock(w, t)
    && w' == w.(lock := Tried(w.lock, t), lockWoken := w.lockWoken - {t},
                phase := w.phase[t := if Passes(w.lock.sem) then Locked else Locking])
  }

  /** ReadRequest or WriteRequest. */
  predicate RequestStep(w: DiskWorld, w': DiskWorld, t: Thread) {
    && At(w, t, Locked)
    && w' == w.(active := true, issued := w.issued + 1, phase := w.phase[t := Issued],
                request := w.request[t := w.issued + 1])
  }

  /** A test in semaphore->P. */
  predicate AwaitStep(w: DiskWorld, w': DiskWorld, t: Thread) {
    && (At(w, t, Issued) || At(w, t, Ready))
    && w' == w.(semaphore := Tested(w.semaphore, t),
                phase := w.phase[t := if Passes(w.semaphore) then Done else Asleep])
  }

  predicate FinishStep(w: DiskWorld, w': DiskWorld, t: Thread) {
    && At(w, t, Done)
    && w' == w.(lock := Released(w.lock), lockWoken := w.lockWoken + Woken(w.lock.sem), phase := w.phase - {t})
  }

  /** Disk::HandleInterrupt, when the request in progress completes. */
  predicate InterruptStep(w: DiskWorld, w': DiskWorld) {
    && w.active
    && w' == w.(active := false, completed := w.completed + 1, semaphore := Posted(w.semaphore),
                phase := map t | t in w.phase :: if t in Woken(w.semaphore) then Ready else w.phase[t])
  }

  predicate DiskActs(w: DiskWorld, w': DiskWorld, t: Thread) {
    LockStep(w, w', t) || RequestStep(w, w', t) || AwaitStep(w, w', t) || FinishStep(w, w', t) || InterruptStep(w, w')
  }

  ghost predicate DiskStep(w: DiskWorld, w': DiskWorld) {
    exists t: Thread :: DiskActs(w, w', t)
  }

  /** The state of the device and the semaphore, as the phase of the lock's holder fixes it. */
  predicate HolderInv(w: DiskWorld, t: Thread) {
    && t in w.phase && w.phase[t] != Locking
    && (w.phase[t] != Locked ==> t in w.request && w.request[t] == w.issued)
    && w.semaphore.queue == (if w.phase[t] == Asleep then [t] else [])
    && match w.phase[t] {
         case Locked => !w.active && w.semaphore.value == 0 && w.completed == w.issued
         case Issued => if w.active then w.semaphore.value == 0 && w.completed + 1 == w.issued
                        else w.semaphore.value == 1 && w.completed == w.issued
         case Asleep => w.active && w.semaphore.value == 0 && w.completed + 1 == w.issued
         case Ready => !w.active && w.semaphore.value == 1 && w.completed == w.issued
         case Done => !w.active && w.semaphore.value == 0 && w.completed == w.issued
         case Locking => true
       }
  }

  predicate DiskInv(w: DiskWorld) {
    && LockInv(w.lock, w.lockWoken)
    && (forall t :: t in w.phase ==> (w.phase[t] == Locking <==> w.lock.holder != Some(t)))
    && (forall t :: t in w.lock.sem.queue ==> t in w.phase)
    && (forall t :: t in w.lockWoken ==> t in w.phase)
    && if w.lock.holder.Some? then HolderInv(w, w.lock.holder.value)
       else !w.active && w.semaphore == Sem(0, []) && w.completed == w.issued
  }

  lemma LockKeeps(w: DiskWorld, w': DiskWorld, t: Thread)
    requires DiskInv(w) && LockStep(w, w', t)
    ensures DiskInv(w')
  {
    NotHolder(w, w', t);
    hide LockInv, Tried, Tested, HolderInv;
    TriedKeeps(w.lock, w.lockWoken, t);
    TriedFacts(w.lock, t);
    if Passes(w.lock.sem) {
      TakenInv(w, w', t);
    } else if w.lock.holder.Some? {
      MissedInv(w, w', t);
    }
  }

  lemma NotHolder(w: DiskWorld, w': DiskWorld, t: Thread)
    requires DiskInv(w) && LockStep(w, w', t)
    ensures w.lock.holder != Some(t)
  {
    hide LockInv;
  }

  /** The lock is taken from a quiet device. */
  lemma TakenInv(w: DiskWorld, w': DiskWorld, t: Thread)
    requires DiskInv(w) && LockStep(w, w', t) && w.lock.holder == None && Passes(w.lock.sem)
    ensures HolderInv(w', t)
  {
    hide LockInv, Tried;
  }

  /** A thread that misses the lock does not disturb its holder. */
  lemma MissedInv(w: DiskWorld, w': DiskWorld, t: Thread)
    requires DiskInv(w) && LockStep(w, w', t) && w.lock.holder.Some? && !Passes(w.lock.sem)
    ensures HolderInv(w', w.lock.holder.value)
  {
    hide LockInv, Tried;
    assert w.lock.holder != Some(t);
  }

  lemma TriedFacts(l: LockState, t: Thread)
    ensures Tried(l, t).holder == if Passes(l.sem) then Some(t) else l.holder
    ensures forall x :: x in Tried(l, t).sem.queue <==> x in l.sem.queue || (x == t && !Passes(l.sem))
  {}

  lemma HolderKeeps(w: DiskWorld, w': DiskWorld, t: Thread)
    requires DiskInv(w) && (RequestStep(w, w', t) || AwaitStep(w, w', t))
    ensures DiskInv(w')
  {
    assert w.lock.holder == Some(t);
  }

  lemma ReleaseKeeps(w: DiskWorld, w': DiskWorld, t: Thread)
    requires DiskInv(w) && FinishStep(w, w', t)
    ensures DiskInv(w')
  {
    assert w.lock.holder == Some(t);
    ReleasedKeeps(w.lock, w.lockWoken, t);
    hide LockInv;
    QueueHead(w.lock, w.lockWoken, t);
  }

  lemma QueueHead(l: LockState, woken: set<Thread>, t: Thread)
    requires LockInv(l, woken) && l.holder == Some(t)
    ensures t !in l.sem.queue && t !in woken
    ensures forall x :: x in Woken(l.sem) ==> x in l.sem.queue
    ensures forall x :: x in Posted(l.sem).queue ==> x in l.sem.queue
  {}

  lemma InterruptKeeps(w: DiskWorld, w': DiskWorld)
    requires DiskInv(w) && InterruptStep(w, w')
    ensures DiskInv(w')
  {
    hide LockInv;
  }

  lemma DiskStepKeeps(w: DiskWorld, w': DiskWorld, t: Thread)
    requires DiskInv(w) && DiskActs(w, w', t)
    ensures DiskInv(w')
  {
    hide DiskInv, LockStep, RequestStep, AwaitStep, FinishStep, InterruptStep;
    if LockStep(w, w', t) {
      LockKeeps(w, w', t);
    } else if RequestStep(w, w', t) || AwaitStep(w, w', t) {
      HolderKeeps(w, w', t);
    } else if FinishStep(w, w', t) {
      ReleaseKeeps(w, w', t);
    } else {
      InterruptKeeps(w, w');
    }
  }

  // ---- The class --------------------------------------------------------------------------------

  /** ReadSector and WriteSector are TryLock until it succeeds, Request, TestDone until it
      succeeds, Finish; between any two of these anything else may run. */
  class SynchDisk {
    const lock: Lock
    const semaphore: Semaphore
    /** Disk::active: a request is in progress. */
    var active: bool
    /** The protocol's view of the same state. */
    ghost var world: DiskWorld

    ghost predicate Valid()
      reads this, lock, lock.locked, semaphore
    {
      && lock.locked != semaphore
      && lock.View() == world.lock && semaphore.View() == world.semaphore && active == world.active
      && DiskInv(world)
    }

    constructor ()
      ensures Valid() && DiskInit(world)
    {
      lock := new Lock();
      semaphore := new Semaphore(0);
      active := false;
      world := DiskWorld(LockState(Sem(1, []), None), Sem(0, []), false, 0, 0, {}, map[], map[]);
    }

    /** One test in lock->Acquire, by a new caller or one woken there. */
    method TryLock(currentThread: Thread) returns (acquired: bool)
      requires Valid() && MayLock(world, currentThread)
      modifies this, lock, lock.locked
      ensures Valid() && LockStep(old(world), world, currentThread) && acquired == At(world, currentThread, Locked)
    {
      ghost var w, t := world, currentThread;
      acquired := lock.TryAcquire(currentThread);
      world := w.(lock := lock.View(), lockWoken := w.lockWoken - {t},
                  phase := w.phase[t := if acquired then Locked else Locking]);
      LockKeeps(w, world, t);
    }

    /** ReadRequest or WriteRequest, with the lock. The device's ASSERT(!active) holds. */
    method Request(currentThread: Thread)
      requires Valid() && At(world, currentThread, Locked)
      modifies this
      ensures Valid() && RequestStep(old(world), world, currentThread)
      ensures world.request[currentThread] == world.issued == old(world).completed + 1
    {
      ghost var w, t := world, currentThread;
      assert !active;
      active := true;
      world := w.(active := true, issued := w.issued + 1, phase := w.phase[t := Issued],
                  request := w.request[t := w.issued + 1]);
      HolderKeeps(w, world, t);
    }

    /** One test in semaphore->P, after the request. True: the request has completed. */
    method TestDone(currentThread: Thread) returns (done: bool)
      requires Valid() && (At(world, currentThread, Issued) || At(world, currentThread, Ready))
      modifies this, semaphore
      ensures Valid() && AwaitStep(old(world), world, currentThread) && done == At(world, currentThread, Done)
      ensures done ==> world.request[currentThread] <= world.completed && !active
    {
      ghost var w, t := world, currentThread;
      done := semaphore.TestP(currentThread);
      world := w.(semaphore := semaphore.View(), phase := w.phase[t := if done then Done else Asleep]);
      HolderKeeps(w, world, t);
    }

    /** lock->Release. */
    method Finish(currentThread: Thread) returns (ready: set<Thread>)
      requires Valid() && At(world, currentThread, Done)
      modifies this, lock, lock.locked
      ensures Valid() && FinishStep(old(world), world, currentThread) && ready == Woken(old(world).lock.sem)
    {
      ghost var w, t := world, currentThread;
      ready := lock.Release(currentThread);
      world := w.(lock := lock.View(), lockWoken := w.lockWoken + ready, phase := w.phase - {t});
      ReleaseKeeps(w, world, t);
    }

    /** The interrupt handler: Disk::HandleInterrupt and SynchDisk::RequestDone. */
    method HandleInterrupt() returns (ready: set<Thread>)
      requires Valid() && active
      modifies this, semaphore
      ensures Valid() && InterruptStep(old(world), world) && ready == Woken(old(world).semaphore)
    {
      ghost var w := world;
      active := false;
      ready := semaphore.V();
      world := w.(active := false, completed := w.completed + 1, semaphore := semaphore.View(),
                  phase := map t | t in w.phase :: if t in Woken(w.semaphore) then Ready else w.phase[t]);
      InterruptKeeps(w, world);
    }
  }

  // ---- Runs -------------------------------------------------------------------------------------

  ghost predicate DiskRun(ws: seq<DiskWorld>) {
    ws != [] && DiskInit(ws[0]) && forall i: nat :: i + 1 < |ws| ==> DiskStep(ws[i], ws[i + 1])
  }

  lemma {:induction false} DiskReachable(ws: seq<DiskWorld>, n: nat)
    requires DiskRun(ws) && n < |ws|
    ensures DiskInv(ws[n])
  {
    if n > 0 {
      DiskReachable(ws, n - 1);
      var t: Thread :| DiskActs(ws[n - 1], ws[n], t);
      DiskStepKeeps(ws[n - 1], ws[n], t);
    }
  }

  /** The device never has two requests: ASSERT(!active) holds whenever a request is made. */
  lemma OneRequestAtATime(ws: seq<DiskWorld>, n: nat, t: Thread)
    requires DiskRun(ws) && n < |ws| && At(ws[n], t, Locked)
    ensures !ws[n].active
  {
    DiskReachable(ws, n);
  }

  /** A call returns only after the interrupt for its own request. */
  lemma ReturnsCompleted(ws: seq<DiskWorld>, n: nat, t: Thread)
    requires DiskRun(ws) && n < |ws| && At(ws[n], t, Done)
    ensures t in ws[n].request && ws[n].request[t] <= ws[n].completed
    ensures !ws[n].active
  {
    DiskReachable(ws, n);
  }

  /** Whenever the lock is free the semaphore is back at 0 with nobody asleep on it. */
  lemma SemaphoreBalanced(ws: seq<DiskWorld>, n: nat)
    requires DiskRun(ws) && n < |ws| && ws[n].lock.holder == None
    ensures ws[n].semaphore == Sem(0, []) && !ws[n].active && ws[n].completed == ws[n].issued
  {
    DiskReachable(ws, n);
  }

  /** A sleeping caller has its interrupt still to come. */
  lemma SleeperIsServed(ws: seq<DiskWorld>, n: nat, t: Thread)
    requires DiskRun(ws) && n < |ws| && At(ws[n], t, Asleep)
    ensures ws[n].active && ws[n].semaphore.queue == [t]
  {
    DiskReachable(ws, n);
  }
}
