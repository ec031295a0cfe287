/** RWLock of threads/synch.cc.

    readlock, writelock and unlock run under a mutex. The protocol is stated twice: on the lock's
    own fields, where what one thread does with the mutex is one step; and with the mutex, its
    sleepers and its barging in the picture. */
module RWLocks {
  import opened Synch

  /** The fields: the three counters and the two condition queues. */
  datatype RW = RW(pendingReaders: int, activeReaders: int, pendingWriters: int, readers: seq<Thread>,
                   writers: seq<Thread>)

  /** Where readlock goes from its test: to sleep, or in. */
  function ReadTested(s: RW, t: Thread): RW {
    if s.activeReaders < 0 then s.(readers := s.readers + [t])
    else s.(pendingReaders := s.pendingReaders - 1, activeReaders := s.activeReaders + 1)
  }

  function WriteTested(s: RW, t: Thread): RW {
    if s.activeReaders != 0 then s.(writers := s.writers + [t])
    else s.(pendingWriters := s.pendingWriters - 1, activeReaders := -1)
  }

  function Unlocked(s: RW): RW {
    var rest := if s.writers == [] then [] else s.writers[1..];
    if s.activeReaders < 0 then
      if s.pendingReaders > 0 then s.(activeReaders := 0, readers := [])
      else if s.pendingReaders == 0 && s.pendingWriters > 0 then s.(activeReaders := 0, writers := rest)
      else s.(activeReaders := 0)
    else if s.activeReaders > 0 then
      if s.pendingReaders == 0 && s.activeReaders == 1 then s.(activeReaders := 0, writers := rest)
      else s.(activeReaders := s.activeReaders - 1)
    else s
  }

  /** The threads that left a queue. */
  function Left(before: seq<Thread>, after: seq<Thread>): set<Thread> {
    (set t | t in before) - (set t | t in after)
  }

  class RWLock {
    var pendingReaders: int
    var activeReaders: int
    var pendingWriters: int
    const mutex: Lock
    const conReader: Condition
    const conWriter: Condition

    ghost predicate Valid()
      reads this, conReader, conWriter
    {
      conReader != conWriter && conReader.For(mutex) && conWriter.For(mutex)
    }

    ghost predicate Held(t: Thread)
      reads mutex, mutex.locked
    {
      mutex.View().holder == Some(t)
    }

    function View(): RW
      reads this, conReader, conWriter
    {
      RW(pendingReaders, activeReaders, pendingWriters, conReader.queue, conWriter.queue)
    }

    constructor ()
      ensures Valid() && View() == RW(0, 0, 0, [], []) && mutex.View().holder == None
    {
      pendingReaders, activeReaders, pendingWriters := 0, 0, 0;
      mutex := new Lock();
      conReader := new Condition();
      conWriter := new Condition();
    }

    /** The loop of readlock, entered with the mutex: one test, then asleep or in. */
    method ReadTest(currentThread: Thread) returns (entered: bool)
      requires Valid() && Held(currentThread)
      modifies this, mutex, mutex.locked, conReader
      ensures Valid() && mutex.View() == Released(old(mutex.View()))
      ensures entered == (old(activeReaders) >= 0) && View() == ReadTested(old(View()), currentThread)
      ensures entered ==> activeReaders == old(activeReaders) + 1 && pendingReaders == old(pendingReaders) - 1
      ensures !entered ==> activeReaders == old(activeReaders) && pendingReaders == old(pendingReaders)
      ensures conReader.queue == old(conReader.queue) + (if entered then [] else [currentThread])
      ensures pendingWriters == old(pendingWriters) && conWriter.queue == old(conWriter.queue)
    {
      entered := activeReaders >= 0;
      if activeReaders < 0 {
        var ready := conReader.Wait(mutex, currentThread);
      } else {
        pendingReaders := pendingReaders - 1;
        activeReaders := activeReaders + 1;
        var ready := mutex.Release(currentThread);
      }
    }

    /** readlock from the point where it has the mutex. */
    method ReadLock(currentThread: Thread) returns (entered: bool)
      requires Valid() && Held(currentThread)
      modifies this, mutex, mutex.locked, conReader
      ensures Valid() && mutex.View() == Released(old(mutex.View()))
      ensures entered == (old(activeReaders) >= 0)
      ensures View() == ReadTested(old(View()).(pendingReaders := old(pendingReaders) + 1), currentThread)
      ensures activeReaders == old(activeReaders) + (if entered then 1 else 0)
      ensures pendingReaders == old(pendingReaders) + (if entered then 0 else 1)
      ensures conReader.queue == old(conReader.queue) + (if entered then [] else [currentThread])
      ensures pendingWriters == old(pendingWriters) && conWriter.queue == old(conWriter.queue)
    {
      pendingReaders := pendingReaders + 1;
      entered := ReadTest(currentThread);
    }

    method WriteTest(currentThread: Thread) returns (entered: bool)
      requires Valid() && Held(currentThread)
      modifies this, mutex, mutex.locked, conWriter
      ensures Valid() && mutex.View() == Released(old(mutex.View()))
      ensures entered == (old(activeReaders) == 0) && View() == WriteTested(old(View()), currentThread)
      ensures entered ==> activeReaders == -1 && pendingWriters == old(pendingWriters) - 1
      ensures !entered ==> activeReaders == old(activeReaders) && pendingWriters == old(pendingWriters)
      ensures conWriter.queue == old(conWriter.queue) + (if entered then [] else [currentThread])
      ensures pendingReaders == old(pendingReaders) && conReader.queue == old(conReader.queue)
    {
      entered := activeReaders == 0;
      if activeReaders != 0 {
        var ready := conWriter.Wait(mutex, currentThread);
      } else {
        pendingWriters := pendingWriters - 1;
        activeReaders := -1;
        var ready := mutex.Release(currentThread);
      }
    }

    method WriteLock(currentThread: Thread) returns (entered: bool)
      requires Valid() && Held(currentThread)
      modifies this, mutex, mutex.locked, conWriter
      ensures Valid() && mutex.View() == Released(old(mutex.View()))
      ensures entered == (old(activeReaders) == 0)
      ensures View() == WriteTested(old(View()).(pendingWriters := old(pendingWriters) + 1), currentThread)
      ensures activeReaders == if entered then -1 else old(activeReaders)
      ensures pendingWriters == old(pendingWriters) + (if entered then 0 else 1)
      ensures conWriter.queue == old(conWriter.queue) + (if entered then [] else [currentThread])
      ensures pendingReaders == old(pendingReaders) && conReader.queue == old(conReader.queue)
    {
      pendingWriters := pendingWriters + 1;
      entered := WriteTest(currentThread);
    }

    /** A leaving writer lets every queued reader in if a reader is pending, else the first
        queued writer; the last reader out lets the first queued writer in unless a reader is
        pending; nobody else wakes anybody. */
    method Unlock(currentThread: Thread) returns (woken: seq<Thread>)
      requires Valid() && Held(currentThread)
      modifies this, mutex, mutex.locked, conReader, conWriter
      ensures Valid() && mutex.View() == Released(old(mutex.View()))
      ensures View() == Unlocked(old(View()))
      ensures pendingReaders == old(pendingReaders) && pendingWriters == old(pendingWriters)
      ensures activeReaders == if old(activeReaders) > 0 then old(activeReaders) - 1 else 0
      ensures var toReaders := old(activeReaders) < 0 && old(pendingReaders) > 0;
        var toWriter :=
          || (old(activeReaders) < 0 && old(pendingReaders) == 0 && old(pendingWriters) > 0)
          || (old(activeReaders) == 1 && old(pendingReaders) == 0);
        && (toReaders ==> woken == old(conReader.queue) && conReader.queue == [])
        && (toWriter && old(conWriter.queue) != [] ==>
             woken == [old(conWriter.queue)[0]] && conWriter.queue == old(conWriter.queue)[1..])
        && (!toReaders ==> conReader.queue == old(conReader.queue))
        && (!toWriter || old(conWriter.queue) == [] ==> conWriter.queue == old(conWriter.queue))
        && (!toReaders && (!toWriter || old(conWriter.queue) == []) ==> woken == [])
    {
      woken := [];
      if activeReaders < 0 {
        activeReaders := 0;
        if pendingReaders > 0 {
          woken := conReader.Broadcast(mutex, currentThread);
        } else if pendingReaders == 0 && pendingWriters > 0 {
          woken := conWriter.Signal(mutex, currentThread);
        }
      } else if activeReaders > 0 {
        activeReaders := activeReaders - 1;
        if pendingReaders == 0 && activeReaders == 0 {
          woken := conWriter.Signal(mutex, currentThread);
        }
      }
      var ready := mutex.Release(currentThread);
    }
  }

  // ---- The protocol ---------------------------------------------------------------------------

  /** The lock, the threads inside it, and the threads woken from a condition whose next step is
      to test again. */
  datatype RWWorld = RWWorld(rw: RW, reading: set<Thread>, writing: set<Thread>, wokenReaders: set<Thread>,
                             wokenWriters: set<Thread>)

  predicate Idle(w: RWWorld, t: Thread) {
    && t !in w.reading && t !in w.writing && t !in w.wokenReaders && t !in w.wokenWriters
    && t !in w.rw.readers && t !in w.rw.writers
  }

  predicate ReadStep(w: RWWorld, w': RWWorld, t: Thread) {
    && Idle(w, t)
    && w' == w.(rw := ReadTested(w.rw.(pendingReaders := w.rw.pendingReaders + 1), t),
                reading := if w.rw.activeReaders >= 0 then w.reading + {t} else w.reading)
  }

  predicate ReadAgain(w: RWWorld, w': RWWorld, t: Thread) {
    && t in w.wokenReaders
    && w' == w.(rw := ReadTested(w.rw, t), wokenReaders := w.wokenReaders - {t},
                reading := if w.rw.activeReaders >= 0 then w.reading + {t} else w.reading)
  }

  predicate WriteStep(w: RWWorld, w': RWWorld, t: Thread) {
    && Idle(w, t)
    && w' == w.(rw := WriteTested(w.rw.(pendingWriters := w.rw.pendingWriters + 1), t),
                writing := if w.rw.activeReaders == 0 then w.writing + {t} else w.writing)
  }

  predicate WriteAgain(w: RWWorld, w': RWWorld, t: Thread) {
    && t in w.wokenWriters
    && w' == w.(rw := WriteTested(w.rw, t), wokenWriters := w.wokenWriters - {t},
                writing := if w.rw.activeReaders == 0 then w.writing + {t} else w.writing)
  }

  /** Clients unlock only what they hold. */
  predicate UnlockStep(w: RWWorld, w': RWWorld, t: Thread) {
    && (t in w.reading || t in w.writing)
    && w' == RWWorld(Unlocked(w.rw), w.reading - {t}, w.writing - {t},
                     w.wokenReaders + Left(w.rw.readers, Unlocked(w.rw).readers),
                     w.wokenWriters + Left(w.rw.writers, Unlocked(w.rw).writers))
  }

  predicate RWActs(w: RWWorld, w': RWWorld, t: Thread) {
    ReadStep(w, w', t) || ReadAgain(w, w', t) || WriteStep(w, w', t) || WriteAgain(w, w', t) || UnlockStep(w, w', t)
  }

  /** Who is inside is what activeReaders says. */
  predicate Exclusion(w: RWWorld) {
    && (w.rw.activeReaders == -1 <==> |w.writing| == 1 && w.reading == {})
    && (w.rw.activeReaders >= 0 <==> w.writing == {})
    && (w.writing == {} ==> w.rw.activeReaders == |w.reading|)
    && w.rw.activeReaders >= -1
  }

  /** The pending counters count the queued and the woken. */
  predicate Counted(w: RWWorld) {
    && w.rw.pendingReaders == |w.rw.readers| + |w.wokenReaders|
    && w.rw.pendingWriters == |w.rw.writers| + |w.wokenWriters|
  }

  /** A queued reader waits for a writer inside; a queued writer for somebody inside, or for a
      woken thread that will be. */
  predicate Stranded(w: RWWorld) {
    || (w.rw.readers != [] && w.rw.activeReaders != -1)
    || (w.rw.writers != [] && w.rw.activeReaders == 0 && w.wokenReaders == {} && w.wokenWriters == {})
  }

  predicate Apart(w: RWWorld) {
    && Distinct(w.rw.readers) && Distinct(w.rw.writers)
    && (forall t :: t in w.rw.readers ==>
         t !in w.rw.writers && t !in w.wokenReaders && t !in w.wokenWriters && t !in w.reading && t !in w.writing)
    && (forall t :: t in w.rw.writers ==>
          t !in w.wokenReaders && t !in w.wokenWriters && t !in w.reading && t !in w.writing)
    && (forall t :: t in w.wokenReaders ==> t !in w.wokenWriters && t !in w.reading && t !in w.writing)
    && (forall t :: t in w.wokenWriters ==> t !in w.reading && t !in w.writing)
  }

  predicate RWInv(w: RWWorld) {
    && w.rw.activeReaders >= -1
    && w.rw.activeReaders == (if w.writing == {} then |w.reading| else -1)
    && (w.writing != {} ==> |w.writing| == 1 && w.reading == {})
    && Counted(w) && Apart(w) && !Stranded(w)
  }

  lemma Taken(s: seq<Thread>)
    requires Distinct(s) && s != []
    ensures Left(s, s[1..]) == {s[0]} && s[0] !in s[1..] && Distinct(s[1..])
    ensures forall t :: t in s[1..] ==> t in s
  {
    assert s == [s[0]] + s[1..];
  }

  function All(s: seq<Thread>): set<Thread> {
    set t | t in s
  }

  lemma {:induction false} DistinctSize(s: seq<Thread>)
    requires Distinct(s)
    ensures |All(s)| == |s|
  {
    if s != [] {
      Taken(s);
      DistinctSize(s[1..]);
      assert All(s) == All(s[1..]) + {s[0]};
      WithoutSize(All(s[1..]), s[0]);
    }
  }

  lemma Emptied(s: seq<Thread>)
    requires Distinct(s)
    ensures Left(s, []) == All(s) && |Left(s, [])| == |s|
  {
    DistinctSize(s);
    hide Distinct;
  }

  lemma JoinSize(a: set<Thread>, b: set<Thread>)
    requires a !! b
    ensures |a + b| == |a| + |b|
  {}

  /** After t has left, before anybody is woken. */
  function Gone(w: RWWorld, t: Thread): RWWorld {
    w.(reading := w.reading - {t}, writing := w.writing - {t},
       rw := w.rw.(activeReaders := if w.rw.activeReaders < 0 then 0 else w.rw.activeReaders - 1))
  }

  /** RWInv but for the stranding. */
  predicate RWOrder(w: RWWorld) {
    && w.rw.activeReaders == (if w.writing == {} then |w.reading| else -1)
    && (w.writing != {} ==> |w.writing| == 1 && w.reading == {})
    && Counted(w) && Apart(w)
  }

  lemma GoneKeeps(w: RWWorld, t: Thread)
    requires RWInv(w) && (t in w.reading || t in w.writing)
    ensures RWOrder(Gone(w, t)) && (w.rw.activeReaders >= 0 ==> w.rw.readers == [])
    ensures Gone(w, t).rw.activeReaders >= 0
  {
    WithoutSize(w.reading, t);
    WithoutSize(w.writing, t);
    if t in w.writing { assert w.writing == {t} by { OnlyOne(w.writing, t); } }
  }

  lemma OnlyOne(s: set<Thread>, t: Thread)
    requires |s| == 1 && t in s
    ensures s == {t}
  {
    WithoutSize(s, t);
    assert s - {t} == {};
  }

  /** All readers are woken. */
  lemma ReadersWoken(w: RWWorld)
    requires RWOrder(w)
    ensures RWOrder(w.(rw := w.rw.(readers := []), wokenReaders := w.wokenReaders + Left(w.rw.readers, [])))
  {
    Emptied(w.rw.readers);
    JoinSize(w.wokenReaders, Left(w.rw.readers, []));
  }

  /** One writer is woken. */
  lemma WriterWoken(w: RWWorld)
    requires RWOrder(w) && w.rw.writers != []
    ensures RWOrder(w.(rw := w.rw.(writers := w.rw.writers[1..]),
                       wokenWriters := w.wokenWriters + Left(w.rw.writers, w.rw.writers[1..])))
  {
    Taken(w.rw.writers);
    assert w.rw.writers[0] in w.rw.writers;
    WithoutSize(w.wokenWriters, w.rw.writers[0]);
  }

  lemma NobodyLeft(s: seq<Thread>)
    ensures Left(s, s) == {}
  {}

  lemma UnlockKeeps(w: RWWorld, w': RWWorld, t: Thread)
    requires RWInv(w) && UnlockStep(w, w', t)
    ensures RWInv(w')
  {
    hide Apart, RWOrder, Left;
    var g := Gone(w, t);
    GoneKeeps(w, t);
    NobodyLeft(w.rw.readers);
    NobodyLeft(w.rw.writers);
    if w.rw.activeReaders < 0 && w.rw.pendingReaders > 0 {
      ReadersWoken(g);
      WokenThere(w);
      assert w' == g.(rw := g.rw.(readers := []), wokenReaders := g.wokenReaders + Left(g.rw.readers, []));
    } else if g.rw.activeReaders == 0 && w.rw.pendingReaders == 0 && w.rw.writers != [] {
      WriterWoken(g);
      WriterLeft(w);
    } else {
      assert w' == g;
    }
    OrderInv(w');
  }

  lemma WokenThere(w: RWWorld)
    requires RWInv(w) && w.rw.pendingReaders > 0
    ensures w.wokenReaders + Left(w.rw.readers, []) != {}
  {
    Emptied(w.rw.readers);
  }

  lemma WriterLeft(w: RWWorld)
    requires RWInv(w) && w.rw.writers != []
    ensures w.rw.pendingWriters > 0 && w.wokenWriters + Left(w.rw.writers, w.rw.writers[1..]) != {}
  {
    Taken(w.rw.writers);
    assert w.rw.writers[0] in Left(w.rw.writers, w.rw.writers[1..]);
  }

  lemma OrderInv(w: RWWorld)
    ensures RWOrder(w) && !Stranded(w) ==> RWInv(w)
  {}

  /** A woken reader tests again as if it had just arrived. */
  lemma ReaderArrives(w: RWWorld, w': RWWorld, t: Thread)
    requires RWOrder(w) && (w.rw.readers != [] ==> w.rw.activeReaders == -1) && ReadStep(w, w', t)
    ensures RWInv(w')
  {
    if w.rw.activeReaders >= 0 {
      WithoutSize(w.reading, t);
      assert w'.rw.readers == w.rw.readers;
    }
  }

  lemma ReaderBack(w: RWWorld, t: Thread)
    requires RWOrder(w) && t in w.wokenReaders
    ensures var w0 := w.(rw := w.rw.(pendingReaders := w.rw.pendingReaders - 1), wokenReaders := w.wokenReaders - {t});
      RWOrder(w0) && Idle(w0, t)
  {
    WithoutSize(w.wokenReaders, t);
  }

  lemma ReadKeeps(w: RWWorld, w': RWWorld, t: Thread)
    requires RWInv(w) && (ReadStep(w, w', t) || ReadAgain(w, w', t))
    ensures RWInv(w')
  {
    hide Apart, Idle;
    if ReadStep(w, w', t) {
      ReaderArrives(w, w', t);
    } else {
      ReaderBack(w, t);
      ReaderArrives(w.(rw := w.rw.(pendingReaders := w.rw.pendingReaders - 1),
                       wokenReaders := w.wokenReaders - {t}), w', t);
    }
  }

  lemma WriterArrives(w: RWWorld, w': RWWorld, t: Thread)
    requires RWOrder(w) && (w.rw.readers != [] ==> w.rw.activeReaders == -1) && WriteStep(w, w', t)
    ensures RWInv(w')
  {
    if w.rw.activeReaders == 0 {
      WithoutSize(w.writing, t);
      assert w.reading == {} && w'.writing == {t};
    }
  }

  lemma WriterBack(w: RWWorld, t: Thread)
    requires RWOrder(w) && t in w.wokenWriters
    ensures var w0 := w.(rw := w.rw.(pendingWriters := w.rw.pendingWriters - 1), wokenWriters := w.wokenWriters - {t});
      RWOrder(w0) && Idle(w0, t)
  {
    WithoutSize(w.wokenWriters, t);
  }

  lemma WriteKeeps(w: RWWorld, w': RWWorld, t: Thread)
    requires RWInv(w) && (WriteStep(w, w', t) || WriteAgain(w, w', t))
    ensures RWInv(w')
  {
    hide Apart, Idle;
    if WriteStep(w, w', t) {
      WriterArrives(w, w', t);
    } else {
      WriterBack(w, t);
      WriterArrives(w.(rw := w.rw.(pendingWriters := w.rw.pendingWriters - 1),
                       wokenWriters := w.wokenWriters - {t}), w', t);
    }
  }

  lemma RWStepKeeps(w: RWWorld, w': RWWorld, t: Thread)
    requires RWInv(w) && RWActs(w, w', t)
    ensures RWInv(w')
  {
    hide RWInv, UnlockStep, ReadStep, ReadAgain, WriteStep, WriteAgain;
    if UnlockStep(w, w', t) {
      UnlockKeeps(w, w', t);
    } else if ReadStep(w, w', t) || ReadAgain(w, w', t) {
      ReadKeeps(w, w', t);
    } else {
      WriteKeeps(w, w', t);
    }
  }

  // ---- With the mutex -------------------------------------------------------------------------

  /** What a thread inside mutex->Acquire, or holding the mutex, is about to do. */
  datatype Want = ToRead | ToReadAgain | ToWrite | ToWriteAgain | ToUnlock | ToLeave

  datatype RWSystem = RWSystem(world: RWWorld, mutex: Mutex, wants: map<Thread, Want>)

  predicate MayWant(w: RWWorld, t: Thread, want: Want) {
    match want
    case ToRead => Idle(w, t)
    case ToReadAgain => t in w.wokenReaders
    case ToWrite => Idle(w, t)
    case ToWriteAgain => t in w.wokenWriters
    case ToUnlock => t in w.reading || t in w.writing
    case ToLeave => t !in w.rw.readers && t !in w.rw.writers && t !in w.wokenReaders && t !in w.wokenWriters
  }

  predicate Does(w: RWWorld, w': RWWorld, t: Thread, want: Want) {
    match want
    case ToRead => ReadStep(w, w', t)
    case ToReadAgain => ReadAgain(w, w', t)
    case ToWrite => WriteStep(w, w', t)
    case ToWriteAgain => WriteAgain(w, w', t)
    case ToUnlock => UnlockStep(w, w', t)
    case ToLeave => false
  }

  /** One test of the mutex. */
  predicate TakesMutex(s: RWSystem, s': RWSystem, t: Thread, want: Want) {
    && want != ToLeave && MayWant(s.world, t, want) && (t in s.wants ==> s.wants[t] == want)
    && Enters(s.mutex, s'.mutex, t)
    && s'.world == s.world && s'.wants == s.wants[t := want]
  }

  predicate FellAsleep(w: RWWorld, t: Thread) {
    t in w.rw.readers || t in w.rw.writers
  }

  /** The body, with the mutex: a thread that goes to sleep gives the mutex up in the same step,
      any other still has it to release. */
  predicate RunsBody(s: RWSystem, s': RWSystem, t: Thread) {
    && s.mutex.lock.holder == Some(t) && t in s.wants && Does(s.world, s'.world, t, s.wants[t])
    && if FellAsleep(s'.world, t) then Leaves(s.mutex, s'.mutex, t) && s'.wants == s.wants - {t}
       else s'.mutex == s.mutex && s'.wants == s.wants[t := ToLeave]
  }

  predicate GivesMutex(s: RWSystem, s': RWSystem, t: Thread) {
    && t in s.wants && s.wants[t] == ToLeave
    && Leaves(s.mutex, s'.mutex, t) && s'.world == s.world && s'.wants == s.wants - {t}
  }

  ghost predicate SystemActs(s: RWSystem, s': RWSystem, t: Thread) {
    RunsBody(s, s', t) || GivesMutex(s, s', t) || exists want: Want :: TakesMutex(s, s', t, want)
  }

  predicate SystemInv(s: RWSystem) {
    && RWInv(s.world) && MutexInv(s.mutex)
    && s.wants.Keys == s.mutex.users
    && (forall t :: t in s.wants ==> MayWant(s.world, t, s.wants[t]))
    && (forall t :: t in s.wants && s.wants[t] == ToLeave ==> s.mutex.lock.holder == Some(t))
  }

  lemma DoesActs(w: RWWorld, w': RWWorld, t: Thread, want: Want)
    requires Does(w, w', t, want)
    ensures RWActs(w, w', t)
  {}

  /** What one thread does leaves what another may do. */
  lemma OthersMay(w: RWWorld, w': RWWorld, t: Thread, u: Thread, want: Want)
    requires RWInv(w) && RWActs(w, w', t) && u != t && MayWant(w, u, want)
    ensures MayWant(w', u, want)
  {
    assert forall x :: x in Unlocked(w.rw).writers ==> x in w.rw.writers;
    assert forall x :: x in Unlocked(w.rw).readers ==> x in w.rw.readers;
  }

  /** Its body done and not asleep, a thread is nowhere but perhaps inside. */
  lemma BodyDone(w: RWWorld, w': RWWorld, t: Thread, want: Want)
    requires RWInv(w) && Does(w, w', t, want) && MayWant(w, t, want) && !FellAsleep(w', t)
    ensures MayWant(w', t, ToLeave)
  {}

  lemma BodyKeeps(s: RWSystem, s': RWSystem, t: Thread)
    requires SystemInv(s) && RunsBody(s, s', t)
    ensures SystemInv(s')
  {
    hide RWInv, MutexInv, MayWant, Does, FellAsleep, Leaves, RWActs;
    DoesActs(s.world, s'.world, t, s.wants[t]);
    RWStepKeeps(s.world, s'.world, t);
    forall u | u in s.wants && u != t ensures MayWant(s'.world, u, s.wants[u]) {
      OthersMay(s.world, s'.world, t, u, s.wants[u]);
    }
    if FellAsleep(s'.world, t) {
      LeavesKeeps(s.mutex, s'.mutex, t);
      LeftUsers(s.mutex, s'.mutex, t);
    } else {
      BodyDone(s.world, s'.world, t, s.wants[t]);
    }
  }

  lemma GivesKeeps(s: RWSystem, s': RWSystem, t: Thread)
    requires SystemInv(s) && GivesMutex(s, s', t)
    ensures SystemInv(s')
  {
    hide RWInv, MutexInv, MayWant, Leaves;
    LeavesKeeps(s.mutex, s'.mutex, t);
    LeftUsers(s.mutex, s'.mutex, t);
  }

  lemma TakesKeeps(s: RWSystem, s': RWSystem, t: Thread, want: Want)
    requires SystemInv(s) && TakesMutex(s, s', t, want)
    ensures SystemInv(s')
  {
    EntersKeeps(s.mutex, s'.mutex, t);
    hide RWInv, MutexInv, MayWant;
  }

  ghost predicate SystemStep(s: RWSystem, s': RWSystem) {
    exists t: Thread :: SystemActs(s, s', t)
  }

  lemma SystemStepKeeps(s: RWSystem, s': RWSystem)
    requires SystemInv(s) && SystemStep(s, s')
    ensures SystemInv(s')
  {
    hide SystemInv, RunsBody, GivesMutex, TakesMutex;
    var t: Thread :| SystemActs(s, s', t);
    if RunsBody(s, s', t) {
      BodyKeeps(s, s', t);
    } else if GivesMutex(s, s', t) {
      GivesKeeps(s, s', t);
    } else {
      var want: Want :| TakesMutex(s, s', t, want);
      TakesKeeps(s, s', t, want);
    }
  }

  const NOBODY := RWWorld(RW(0, 0, 0, [], []), {}, {}, {}, {})

  ghost predicate RWRun(ss: seq<RWSystem>) {
    && ss != [] && ss[0] == RWSystem(NOBODY, FREE_MUTEX, map[])
    && forall i: nat :: i + 1 < |ss| ==> SystemStep(ss[i], ss[i + 1])
  }

  lemma {:induction false} RWReachable(ss: seq<RWSystem>, n: nat)
    requires RWRun(ss) && n < |ss|
    ensures SystemInv(ss[n])
  {
    if n > 0 {
      RWReachable(ss, n - 1);
      hide SystemInv, SystemStep;
      SystemStepKeeps(ss[n - 1], ss[n]);
    }
  }

  /** In every reachable state writers exclude everybody, and the counters are exact. */
  lemma RWExclusion(ss: seq<RWSystem>, n: nat)
    requires RWRun(ss) && n < |ss|
    ensures Exclusion(ss[n].world) && Counted(ss[n].world)
  {
    RWReachable(ss, n);
    hide MutexInv;
  }

  /** Nobody is stranded. Somebody sleeping on a condition has a writer inside, somebody inside,
      or a thread woken to test again; a free mutex that somebody wants has a thread woken to
      test it; and with nobody inside, nobody woken and nobody at the mutex, nobody waits. */
  lemma RWStrandsNobody(ss: seq<RWSystem>, n: nat)
    requires RWRun(ss) && n < |ss|
    ensures !Stranded(ss[n].world)
    ensures ss[n].mutex.lock.holder == None && ss[n].wants != map[] ==> ss[n].mutex.woken != {}
    ensures var w := ss[n].world;
      w.reading == {} && w.writing == {} && w.wokenReaders == {} && w.wokenWriters == {} ==> w == NOBODY
  {
    RWReachable(ss, n);
    MutexStrandsNobody(ss[n].mutex);
    hide MutexInv;
    if ss[n].wants != map[] {
      var t :| t in ss[n].wants.Keys;
      assert t in ss[n].mutex.users;
    }
  }
}
