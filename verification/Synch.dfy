/** threads/synch.cc: Semaphore, Lock and Condition.

    A step is what one thread does between two points where another may run: interrupts are off
    inside, and a thread that goes to sleep ends its step. P is therefore a step per test of
    value; Wait is one step that ends asleep, and Acquire steps once woken. */
module Synch {

  type Thread = nat

  datatype Option<+T> = None | Some(value: T)

  // ---- Semaphore ----------------------------------------------------------------------------

  /** The fields of a Semaphore. */
  datatype Sem = Sem(value: int, queue: seq<Thread>)

  /** One test of value in P: the thread goes to sleep or takes one. */
  function Tested(s: Sem, t: Thread): Sem {
    if s.value == 0 then s.(queue := s.queue + [t]) else s.(value := s.value - 1)
  }

  predicate Passes(s: Sem) { s.value != 0 }

  function Posted(s: Sem): Sem {
    Sem(s.value + 1, if s.queue == [] then [] else s.queue[1..])
  }

  /** The thread V makes ready. */
  function Woken(s: Sem): set<Thread> {
    if s.queue == [] then {} else {s.queue[0]}
  }

  class Semaphore {
    var value: int
    var queue: seq<Thread>

    constructor (initialValue: int)
      ensures View() == Sem(initialValue, [])
    {
      value, queue := initialValue, [];
    }

    function View(): Sem
      reads this
    {
      Sem(value, queue)
    }

    /** P up to the next point where another thread may run. False: asleep in the queue. */
    method TestP(currentThread: Thread) returns (passed: bool)
      modifies this
      ensures passed == Passes(old(View())) && View() == Tested(old(View()), currentThread)
      ensures old(value) == 0 ==> !passed && value == 0 && queue == old(queue) + [currentThread]
      ensures old(value) != 0 ==> passed && value == old(value) - 1 && queue == old(queue)
    {
      if value == 0 {
        queue := queue + [currentThread];
        return false;
      }
      value := value - 1;
      return true;
    }

    /** The one asleep longest, if any, is made ready; it finds the unit unless another takes it
        first. */
    method V() returns (ready: set<Thread>)
      modifies this
      ensures View() == Posted(old(View())) && ready == Woken(old(View()))
      ensures value == old(value) + 1
      ensures old(queue) == [] ==> ready == {} && queue == []
      ensures old(queue) != [] ==> ready == {old(queue)[0]} && queue == old(queue)[1..]
    {
      ready := {};
      if queue != [] {
        var thread := queue[0];
        queue := queue[1..];
        ready := {thread};
      }
      value := value + 1;
    }
  }

  /** A semaphore and the threads inside P: asleep in the queue, or woken and still to test
      again. Completed Ps and Vs are counted; slept and wakes are the histories of its queue. */
  datatype SemWorld = SemWorld(sem: Sem, woken: set<Thread>, ps: nat, vs: nat, slept: seq<Thread>, wakes: seq<Thread>)

  predicate SemInit(w: SemWorld, initialValue: nat) {
    w == SemWorld(Sem(initialValue, []), {}, 0, 0, [], [])
  }

  /** t tests: it has just called P, or was woken. */
  predicate SemTest(w: SemWorld, w': SemWorld, t: Thread) {
    && t !in w.sem.queue
    && w'.sem == Tested(w.sem, t) && w'.woken == w.woken - {t} && w'.vs == w.vs
    && w'.ps == w.ps + (if Passes(w.sem) then 1 else 0)
    && w'.slept == w.slept + (if Passes(w.sem) then [] else [t]) && w'.wakes == w.wakes
  }

  predicate SemPost(w: SemWorld, w': SemWorld) {
    && w'.sem == Posted(w.sem) && w'.woken == w.woken + Woken(w.sem) && w'.ps == w.ps && w'.vs == w.vs + 1
    && w'.slept == w.slept && |w'.wakes| == |w.wakes| + |Woken(w.sem)| && w.wakes <= w'.wakes
    && forall i :: |w.wakes| <= i < |w'.wakes| ==> w'.wakes[i] in Woken(w.sem)
  }

  ghost predicate SemStep(w: SemWorld, w': SemWorld) {
    SemPost(w, w') || exists t: Thread :: SemTest(w, w', t)
  }

  predicate Distinct(s: seq<Thread>) {
    forall i, j :: 0 <= i < j < |s| ==> s[i] != s[j]
  }

  predicate SemInv(w: SemWorld, initialValue: nat) {
    && w.sem.value == initialValue + w.vs - w.ps >= 0
    && Distinct(w.sem.queue) && (forall t :: t in w.sem.queue ==> t !in w.woken)
    && (w.sem.queue != [] ==> w.sem.value <= |w.woken|)
    && w.slept == w.wakes + w.sem.queue
  }

  lemma WithoutSize(s: set<Thread>, t: Thread)
    ensures |s - {t}| == |s| - (if t in s then 1 else 0)
    ensures |s + {t}| == |s| + (if t in s then 0 else 1)
  {
    if t in s {
      assert s == s - {t} + {t};
      assert s + {t} == s;
    } else {
      assert s - {t} == s;
    }
  }

  lemma PostKeeps(w: SemWorld, w': SemWorld, initialValue: nat)
    requires SemInv(w, initialValue) && SemPost(w, w')
    ensures SemInv(w', initialValue)
  {
    if w.sem.queue != [] {
      assert w.sem.queue[0] !in w.sem.queue[1..];
      assert w.sem.queue[0] in w.sem.queue;
      WithoutSize(w.woken, w.sem.queue[0]);
      assert w'.wakes == w.wakes + [w.sem.queue[0]];
      assert w.sem.queue == [w.sem.queue[0]] + w.sem.queue[1..];
    }
  }

  lemma TestKeeps(w: SemWorld, w': SemWorld, initialValue: nat, t: Thread)
    requires SemInv(w, initialValue) && SemTest(w, w', t)
    ensures SemInv(w', initialValue)
  {
    WithoutSize(w.woken, t);
  }

  lemma SemStepKeeps(w: SemWorld, w': SemWorld, initialValue: nat)
    requires SemInv(w, initialValue) && SemStep(w, w')
    ensures SemInv(w', initialValue)
  {
    hide SemInv, SemPost, SemTest;
    if SemPost(w, w') {
      PostKeeps(w, w', initialValue);
    } else {
      var t: Thread :| SemTest(w, w', t);
      TestKeeps(w, w', initialValue, t);
    }
  }

  ghost predicate SemRun(ws: seq<SemWorld>, initialValue: nat) {
    ws != [] && SemInit(ws[0], initialValue) && forall i: nat :: i + 1 < |ws| ==> SemStep(ws[i], ws[i + 1])
  }

  /** Over every interleaving: the value is what the completed Vs and Ps leave; and when a
      thread sleeps, every unit of the value has a woken thread still to test for it. */
  lemma {:induction false} SemaphoreExact(ws: seq<SemWorld>, initialValue: nat, n: nat)
    requires SemRun(ws, initialValue) && n < |ws|
    ensures SemInv(ws[n], initialValue)
  {
    if n > 0 {
      SemaphoreExact(ws, initialValue, n - 1);
      SemStepKeeps(ws[n - 1], ws[n], initialValue);
    }
  }

  /** No V is lost: with nobody left to test and somebody asleep, every V has been used up. */
  lemma NoLostPost(ws: seq<SemWorld>, initialValue: nat, n: nat)
    requires SemRun(ws, initialValue) && n < |ws|
    ensures ws[n].woken == {} && ws[n].sem.queue != [] ==> initialValue + ws[n].vs == ws[n].ps
  {
    SemaphoreExact(ws, initialValue, n);
  }

  lemma {:induction false} SleepsGrow(ws: seq<SemWorld>, initialValue: nat, i: nat, j: nat)
    requires SemRun(ws, initialValue) && i <= j < |ws|
    ensures ws[i].slept <= ws[j].slept
  {
    if i < j {
      SleepsGrow(ws, initialValue, i, j - 1);
      assert SemStep(ws[j - 1], ws[j]);
    }
  }

  /** V wakes threads in the order in which they went to sleep: the k-th it wakes is the one
      that fell asleep k-th, however the run goes on. */
  lemma SleepersInOrder(ws: seq<SemWorld>, initialValue: nat, i: nat, j: nat, k: nat)
    requires SemRun(ws, initialValue) && i <= j < |ws| && k < |ws[i].slept| && k < |ws[j].wakes|
    ensures ws[j].wakes[k] == ws[i].slept[k]
  {
    SemaphoreExact(ws, initialValue, j);
    SleepsGrow(ws, initialValue, i, j);
    assert ws[j].slept[k] == ws[j].wakes[k];
  }

  // ---- Lock ---------------------------------------------------------------------------------

  /** The fields of a Lock. */
  datatype LockState = LockState(sem: Sem, holder: Option<Thread>)

  /** One test in Acquire. */
  function Tried(l: LockState, t: Thread): LockState {
    LockState(Tested(l.sem, t), if Passes(l.sem) then Some(t) else l.holder)
  }

  function Released(l: LockState): LockState {
    LockState(Posted(l.sem), None)
  }

  class Lock {
    const locked: Semaphore
    var holder: Option<Thread>

    constructor ()
      ensures View() == LockState(Sem(1, []), None) && fresh(locked)
    {
      locked := new Semaphore(1);
      holder := None;
    }

    function View(): LockState
      reads this, locked
    {
      LockState(locked.View(), holder)
    }

    /** Acquire up to the next point where another thread may run. */
    method TryAcquire(currentThread: Thread) returns (acquired: bool)
      modifies this, locked
      ensures acquired == Passes(old(View()).sem) && View() == Tried(old(View()), currentThread)
      ensures acquired <==> old(locked.value) != 0
      ensures acquired ==> holder == Some(currentThread) && locked.value == old(locked.value) - 1
      ensures locked.queue == old(locked.queue) + (if acquired then [] else [currentThread])
      ensures !acquired ==> holder == old(holder) && locked.value == 0
    {
      acquired := locked.TestP(currentThread);
      if acquired { holder := Some(currentThread); }
    }

    method Release(currentThread: Thread) returns (ready: set<Thread>)
      requires View().holder == Some(currentThread)
      modifies this, locked
      ensures View() == Released(old(View())) && ready == Woken(old(View()).sem)
      ensures holder == None && locked.value == old(locked.value) + 1
      ensures old(locked.queue) == [] ==> ready == {} && locked.queue == []
      ensures old(locked.queue) != [] ==>
        ready == {old(locked.queue)[0]} && locked.queue == old(locked.queue)[1..]
    {
      holder := None;
      ready := locked.V();
    }
  }

  // ---- Condition ----------------------------------------------------------------------------

  class Condition {
    var queue: seq<Thread>
    var lock: Lock?

    /** All threads use the condition with the same lock, as its interface asks. */
    ghost predicate For(conditionLock: Lock)
      reads this
    {
      queue != [] ==> lock == conditionLock
    }

    constructor ()
      ensures queue == [] && lock == null
    {
      queue, lock := [], null;
    }

    /** Wait up to falling asleep: queued and the lock free in one step. */
    method Wait(conditionLock: Lock, currentThread: Thread) returns (ready: set<Thread>)
      requires For(conditionLock) && conditionLock.View().holder == Some(currentThread)
      modifies this, conditionLock, conditionLock.locked
      ensures For(conditionLock) && queue == old(queue) + [currentThread]
      ensures conditionLock.View() == Released(old(conditionLock.View()))
      ensures ready == Woken(old(conditionLock.View()).sem) && conditionLock.holder == None
    {
      if queue == [] { lock := conditionLock; }
      assert lock == conditionLock;
      queue := queue + [currentThread];
      ready := conditionLock.Release(currentThread);
    }

    method Signal(conditionLock: Lock, currentThread: Thread) returns (ready: seq<Thread>)
      requires For(conditionLock) && conditionLock.View().holder == Some(currentThread)
      modifies this
      ensures For(conditionLock) && ready == if old(queue) == [] then [] else [old(queue)[0]]
      ensures queue == old(queue)[|ready|..]
    {
      ready := [];
      if queue != [] {
        assert lock == conditionLock;
        ready := [queue[0]];
        queue := queue[1..];
      }
    }

    /** Wakes every waiter. */
    method Broadcast(conditionLock: Lock, currentThread: Thread) returns (ready: seq<Thread>)
      requires For(conditionLock) && conditionLock.View().holder == Some(currentThread)
      modifies this
      ensures For(conditionLock) && ready == old(queue) && queue == []
    {
      ready := [];
      while queue != []
        invariant For(conditionLock) && conditionLock.View().holder == Some(currentThread)
        invariant ready + queue == old(queue)
        decreases |queue|
      {
        var more := Signal(conditionLock, currentThread);
        ready := ready + more;
      }
    }
  }

  /** A lock, a condition used with it, and the threads in between: lockWoken were woken inside
      Acquire, signalled inside Wait, and both have a test of the lock to make; inWait have
      called Wait and not returned. waits and wakes are the histories of the condition. */
  datatype World = World(lock: LockState, queue: seq<Thread>, lockWoken: set<Thread>, signalled: set<Thread>,
                         inWait: set<Thread>, waits: seq<Thread>, wakes: seq<Thread>)

  predicate Init(w: World) {
    w == World(LockState(Sem(1, []), None), [], {}, {}, {}, [], [])
  }

  predicate TryStep(w: World, w': World, t: Thread) {
    && w.lock.holder != Some(t) && t !in w.lock.sem.queue && t !in w.queue
    && w' == w.(lock := Tried(w.lock, t), lockWoken := w.lockWoken - {t}, signalled := w.signalled - {t},
                inWait := if Passes(w.lock.sem) then w.inWait - {t} else w.inWait)
  }

  predicate ReleaseStep(w: World, w': World, t: Thread) {
    && w.lock.holder == Some(t)
    && w' == w.(lock := Released(w.lock), lockWoken := w.lockWoken + Woken(w.lock.sem))
  }

  predicate WaitStep(w: World, w': World, t: Thread) {
    && w.lock.holder == Some(t)
    && w' == w.(lock := Released(w.lock), lockWoken := w.lockWoken + Woken(w.lock.sem), queue := w.queue + [t],
                inWait := w.inWait + {t}, waits := w.waits + [t])
  }

  predicate SignalStep(w: World, w': World, t: Thread) {
    && w.lock.holder == Some(t)
    && w' == if w.queue == [] then w
             else w.(queue := w.queue[1..], signalled := w.signalled + {w.queue[0]}, wakes := w.wakes + [w.queue[0]])
  }

  predicate BroadcastStep(w: World, w': World, t: Thread) {
    && w.lock.holder == Some(t)
    && w' == w.(queue := [], signalled := w.signalled + (set x | x in w.queue), wakes := w.wakes + w.queue)
  }

  ghost predicate Step(w: World, w': World) {
    exists t: Thread :: Acts(w, w', t)
  }

  predicate Acts(w: World, w': World, t: Thread) {
    TryStep(w, w', t) || ReleaseStep(w, w', t) || WaitStep(w, w', t) || SignalStep(w, w', t) || BroadcastStep(w, w', t)
  }

  predicate LockInv(l: LockState, woken: set<Thread>) {
    && l.sem.value == (if l.holder == None then 1 else 0)
    && Distinct(l.sem.queue) && (forall t :: t in l.sem.queue ==> t !in woken && l.holder != Some(t))
    && (forall t :: t in woken ==> l.holder != Some(t))
    && (l.sem.queue != [] ==> l.sem.value <= |woken|)
  }

  predicate Inv(w: World) {
    LockInv(w.lock, w.lockWoken) && WaitInv(w)
  }

  lemma TriedKeeps(l: LockState, woken: set<Thread>, t: Thread)
    requires LockInv(l, woken) && t !in l.sem.queue && l.holder != Some(t)
    ensures LockInv(Tried(l, t), woken - {t})
    ensures Passes(l.sem) ==> l.holder == None
  {
    WithoutSize(woken, t);
  }

  /** The rest of the invariant, about threads inside Wait. */
  predicate WaitInv(w: World) {
    && Distinct(w.queue)
    && (forall t :: t in w.queue ==>
         t in w.inWait && t !in w.signalled && t !in w.lockWoken && t !in w.lock.sem.queue && w.lock.holder != Some(t))
    && (forall t :: t in w.signalled ==> t in w.inWait && t !in w.lock.sem.queue && t !in w.lockWoken)
    && (forall t :: t in w.inWait ==>
         w.lock.holder != Some(t) && (t in w.queue || t in w.signalled || t in w.lockWoken || t in w.lock.sem.queue))
    && w.waits == w.wakes + w.queue
  }

  lemma TryKeeps(w: World, w': World, t: Thread)
    requires Inv(w) && TryStep(w, w', t)
    ensures Inv(w')
  {
    TriedKeeps(w.lock, w.lockWoken, t);
    hide LockInv;
  }

  lemma GiveUpKeeps(w: World, w': World, t: Thread)
    requires Inv(w) && (ReleaseStep(w, w', t) || WaitStep(w, w', t))
    ensures Inv(w')
  {
    ReleasedKeeps(w.lock, w.lockWoken, t);
    ReleasedQueue(w.lock, w.lockWoken, t);
    hide LockInv;
  }

  lemma ReleasedQueue(l: LockState, woken: set<Thread>, t: Thread)
    requires LockInv(l, woken) && l.holder == Some(t)
    ensures t !in l.sem.queue && t !in woken && t !in Woken(l.sem)
    ensures forall x :: x in Woken(l.sem) ==> x in l.sem.queue && x !in Posted(l.sem).queue
    ensures forall x :: x in l.sem.queue <==> x in Woken(l.sem) || x in Posted(l.sem).queue
  {
    if l.sem.queue != [] {
      assert l.sem.queue == [l.sem.queue[0]] + l.sem.queue[1..];
    }
  }

  lemma SignalKeeps(w: World, w': World, t: Thread)
    requires Inv(w) && (SignalStep(w, w', t) || BroadcastStep(w, w', t))
    ensures Inv(w')
  {
    hide LockInv;
    if w.queue != [] {
      assert w.queue == [w.queue[0]] + w.queue[1..];
      assert w.queue[0] !in w.queue[1..];
    }
  }

  lemma StepKeeps(w: World, w': World, t: Thread)
    requires Inv(w) && Acts(w, w', t)
    ensures Inv(w')
  {
    hide Inv, TryStep, ReleaseStep, WaitStep, SignalStep, BroadcastStep;
    if TryStep(w, w', t) {
      TryKeeps(w, w', t);
    } else if ReleaseStep(w, w', t) || WaitStep(w, w', t) {
      GiveUpKeeps(w, w', t);
    } else {
      SignalKeeps(w, w', t);
    }
  }

  lemma ReleasedKeeps(l: LockState, woken: set<Thread>, t: Thread)
    requires LockInv(l, woken) && l.holder == Some(t)
    ensures LockInv(Released(l), woken + Woken(l.sem))
  {
    if l.sem.queue != [] {
      assert l.sem.queue[0] !in l.sem.queue[1..] && l.sem.queue[0] in l.sem.queue;
      WithoutSize(woken, l.sem.queue[0]);
    }
  }

  ghost predicate Run(ws: seq<World>) {
    ws != [] && Init(ws[0]) && forall i: nat :: i + 1 < |ws| ==> Step(ws[i], ws[i + 1])
  }

  /** At every point of every interleaving: the lock's semaphore plus its holder make one; no
      thread sleeps on a free lock unless another was woken to test it; a thread that called
      Wait is queued or on its way back, and does not hold the lock. */
  lemma {:induction false} LockAndCondition(ws: seq<World>, n: nat)
    requires Run(ws) && n < |ws|
    ensures Inv(ws[n])
  {
    if n > 0 {
      LockAndCondition(ws, n - 1);
      var t: Thread :| Acts(ws[n - 1], ws[n], t);
      StepKeeps(ws[n - 1], ws[n], t);
    }
  }

  /** Only the holder gives the lock up, and only a free lock is taken. */
  lemma MutualExclusion(ws: seq<World>, n: nat)
    requires Run(ws) && n + 1 < |ws| && ws[n].lock.holder.Some?
    ensures ws[n + 1].lock.holder == ws[n].lock.holder ||
      (ReleaseStep(ws[n], ws[n + 1], ws[n].lock.holder.value) || WaitStep(ws[n], ws[n + 1], ws[n].lock.holder.value))
  {
    LockAndCondition(ws, n);
    var t: Thread :| Acts(ws[n], ws[n + 1], t);
  }

  /** Wait returns to its caller only with the lock held, and only when every wait of this
      thread, the one that returns included, has had its wake-up. */
  lemma WaitReturnsHolding(ws: seq<World>, n: nat, t: Thread)
    requires Run(ws) && n + 1 < |ws| && t in ws[n].inWait && t !in ws[n + 1].inWait
    ensures ws[n + 1].lock.holder == Some(t)
    ensures forall i :: 0 <= i < |ws[n].waits| && ws[n].waits[i] == t ==> i < |ws[n].wakes| && ws[n].wakes[i] == t
  {
    LockAndCondition(ws, n);
    var u: Thread :| Acts(ws[n], ws[n + 1], u);
    assert t !in ws[n].queue;
    forall i | 0 <= i < |ws[n].waits| && ws[n].waits[i] == t
      ensures i < |ws[n].wakes| && ws[n].wakes[i] == t
    {
      InFirst(ws[n].wakes, ws[n].queue, i, t);
    }
  }

  lemma InFirst(a: seq<Thread>, b: seq<Thread>, i: nat, t: Thread)
    requires i < |a + b| && (a + b)[i] == t && t !in b
    ensures i < |a| && a[i] == t
  {}

  lemma {:induction false} HistoriesGrow(ws: seq<World>, i: nat, j: nat)
    requires Run(ws) && i <= j < |ws|
    ensures ws[i].waits <= ws[j].waits && ws[i].wakes <= ws[j].wakes
  {
    if i < j {
      HistoriesGrow(ws, i, j - 1);
      var t: Thread :| Acts(ws[j - 1], ws[j], t);
    }
  }

  /** Signals reach waiters in the order they waited: a thread waiting as the k-th is the one
      the k-th wake-up wakes, however the run goes on. */
  lemma SignalNotMissed(ws: seq<World>, i: nat, j: nat, k: nat)
    requires Run(ws) && i <= j < |ws| && k < |ws[i].waits| && k < |ws[j].wakes|
    ensures ws[j].wakes[k] == ws[i].waits[k]
  {
    LockAndCondition(ws, j);
    HistoriesGrow(ws, i, j);
    assert ws[j].waits[k] == ws[j].wakes[k];
    assert ws[j].waits[..|ws[i].waits|] == ws[i].waits;
  }

  // ---- A lock around anything -------------------------------------------------------------------

  /** A lock, the threads woken in its Acquire, and its users: those inside Acquire and the
      holder. */
  datatype Mutex = Mutex(lock: LockState, woken: set<Thread>, users: set<Thread>)

  const FREE_MUTEX := Mutex(LockState(Sem(1, []), None), {}, {})

  predicate MutexInv(m: Mutex) {
    && LockInv(m.lock, m.woken)
    && (forall t :: t in m.lock.sem.queue ==> t in m.users)
    && (forall t :: t in m.woken ==> t in m.users)
    && (forall t :: t in m.users ==> t in m.lock.sem.queue || t in m.woken || m.lock.holder == Some(t))
    && (m.lock.holder.Some? ==> m.lock.holder.value in m.users)
  }

  /** One test in Acquire, by a newcomer, who may barge, or by a woken thread. */
  predicate Enters(m: Mutex, m': Mutex, t: Thread) {
    && t !in m.lock.sem.queue && m.lock.holder != Some(t)
    && m' == Mutex(Tried(m.lock, t), m.woken - {t}, m.users + {t})
  }

  predicate Leaves(m: Mutex, m': Mutex, t: Thread) {
    && m.lock.holder == Some(t)
    && m' == Mutex(Released(m.lock), m.woken + Woken(m.lock.sem), m.users - {t})
  }

  lemma EntersKeeps(m: Mutex, m': Mutex, t: Thread)
    requires MutexInv(m) && Enters(m, m', t)
    ensures MutexInv(m')
    ensures m.lock.holder.Some? ==> m'.lock.holder == m.lock.holder
  {
    TriedKeeps(m.lock, m.woken, t);
    hide LockInv;
  }

  lemma LeavesKeeps(m: Mutex, m': Mutex, t: Thread)
    requires MutexInv(m) && Leaves(m, m', t)
    ensures MutexInv(m')
  {
    ReleasedKeeps(m.lock, m.woken, t);
    ReleasedQueue(m.lock, m.woken, t);
    hide LockInv;
  }

  lemma LeftUsers(m: Mutex, m': Mutex, t: Thread)
    requires Leaves(m, m', t)
    ensures m'.users == m.users - {t} && m.lock.holder == Some(t)
  {}

  /** A free mutex with users has one that was woken to test it. */
  lemma MutexStrandsNobody(m: Mutex)
    requires MutexInv(m)
    ensures m.lock.holder == None && m.users != {} ==> m.woken != {}
  {
    if m.lock.holder == None && m.users != {} {
      var t :| t in m.users;
      assert t in m.lock.sem.queue || t in m.woken;
    }
  }
}
