/** threads/scheduler.cc and threads/thread.cc under SCHED_PRIO_P, the policy the scheduler
    starts with: one ready list, sorted by MAX_PRIORITY - priority. SWITCH is a change of
    currentThread. */
module Scheduling {
  import opened Lists

  const MAX_PRIORITY := 20

  datatype ThreadStatus = JUST_CREATED | RUNNING | READY | BLOCKED

  class Thread {
    /** -1 when the thread table was full. */
    const threadID: int
    var priority: int
    var status: ThreadStatus

    constructor (threadID: int, priority: int)
      ensures this.threadID == threadID && this.priority == priority && status == JUST_CREATED
    {
      this.threadID, this.priority, status := threadID, priority, JUST_CREATED;
    }
  }

  // ---- Queues as values -----------------------------------------------------------------------

  /** Who runs, and who is ready. */
  datatype Choice<+T> = Choice(running: Elem<T>, queue: seq<Elem<T>>)

  /** What Yield does with the queue and the running thread, its key already lowered: the head
      runs if its priority is at least as high, otherwise it goes back. */
  function Yielded<T>(queue: seq<Elem<T>>, me: Elem<T>): Choice<T> {
    if queue == [] then Choice(me, queue)
    else if queue[0].key <= me.key then Choice(queue[0], Inserted(queue[1..], me))
    else Choice(me, Inserted(queue[1..], queue[0]))
  }

  /** Fork: the new thread is queued, and the running one yields to it if it has less priority. */
  function Forked<T>(queue: seq<Elem<T>>, me: Elem<T>, lowered: Elem<T>, t: Elem<T>): Choice<T> {
    if t.key < me.key then Yielded(Inserted(queue, t), lowered) else Choice(me, Inserted(queue, t))
  }

  /** The running thread has the highest priority. */
  predicate Dominates<T(==)>(running: Elem<T>, queue: seq<Elem<T>>) {
    forall x :: x in queue ==> running.key <= x.key
  }

  predicate Absent<T(==)>(queue: seq<Elem<T>>, item: T) {
    forall x :: x in queue ==> x.item != item
  }

  /** Each item is queued once. */
  predicate Unique<T(==)>(queue: seq<Elem<T>>) {
    forall i, j :: 0 <= i < j < |queue| ==> queue[i].item != queue[j].item
  }

  lemma {:induction false} InsertedMember<T>(queue: seq<Elem<T>>, e: Elem<T>, x: Elem<T>)
    ensures x in Inserted(queue, e) <==> x in queue || x == e
  {
    if queue != [] {
      InsertedMember(queue[1..], e, x);
      assert queue == [queue[0]] + queue[1..];
    }
  }

  lemma InsertedMembers<T>(queue: seq<Elem<T>>, e: Elem<T>)
    ensures forall x :: x in Inserted(queue, e) <==> x in queue || x == e
  {
    forall x: Elem<T> ensures x in Inserted(queue, e) <==> x in queue || x == e {
      InsertedMember(queue, e, x);
    }
  }

  lemma {:induction false} InsertedUnique<T>(queue: seq<Elem<T>>, e: Elem<T>)
    requires Unique(queue) && Absent(queue, e.item)
    ensures Unique(Inserted(queue, e))
  {
    if queue != [] && e.key >= queue[0].key {
      InsertedUnique(queue[1..], e);
      InsertedMembers(queue[1..], e);
      var r := Inserted(queue[1..], e);
      forall x | x in r ensures x.item != queue[0].item {
        if x in queue[1..] { assert exists i :: 0 < i < |queue| && queue[i] == x; }
      }
      assert forall i :: 0 <= i < |r| ==> r[i] in r;
    }
  }

  lemma HeadLeast<T>(queue: seq<Elem<T>>)
    requires Sorted(queue) && queue != []
    ensures Sorted(queue[1..]) && Dominates(queue[0], queue[1..])
    ensures multiset(queue) == multiset(queue[1..]) + multiset{queue[0]}
  {
    assert queue == [queue[0]] + queue[1..];
  }

  /** Taking the head keeps what the queue promises about the rest. */
  lemma HeadTaken<T>(queue: seq<Elem<T>>)
    requires Sorted(queue) && Unique(queue) && queue != []
    ensures Sorted(queue[1..]) && Unique(queue[1..]) && Absent(queue[1..], queue[0].item)
    ensures forall x :: x in queue[1..] ==> x in queue
  {}

  lemma InsertedAll<T>(queue: seq<Elem<T>>, e: Elem<T>)
    requires Sorted(queue)
    ensures Sorted(Inserted(queue, e))
    ensures multiset(Inserted(queue, e)) == multiset(queue) + multiset{e}
    ensures forall x :: x in Inserted(queue, e) <==> x in queue || x == e
  {
    InsertedSorted(queue, e);
    InsertedItems(queue, e);
    InsertedMembers(queue, e);
  }

  lemma DominatesInserted<T>(running: Elem<T>, queue: seq<Elem<T>>, e: Elem<T>)
    requires Dominates(running, queue) && running.key <= e.key
    ensures Dominates(running, Inserted(queue, e))
  {
    forall x | x in Inserted(queue, e) ensures running.key <= x.key {
      InsertedMember(queue, e, x);
    }
  }

  lemma DominatesBelow<T>(running: Elem<T>, head: Elem<T>, queue: seq<Elem<T>>)
    requires Dominates(head, queue) && running.key <= head.key
    ensures Dominates(running, queue)
  {}

  /** A newcomer with no more priority does not unseat the running thread. */
  lemma DominatesAfter<T>(queue: seq<Elem<T>>, me: Elem<T>, t: Elem<T>)
    ensures Dominates(me, queue) && me.key <= t.key ==> Dominates(me, Inserted(queue, t))
  {
    if Dominates(me, queue) && me.key <= t.key { DominatesInserted(me, queue, t); }
  }

  /** Yield loses no thread and duplicates none, keeps the list sorted, and leaves the highest
      priority running. */
  lemma YieldExact<T>(queue: seq<Elem<T>>, me: Elem<T>)
    requires Sorted(queue)
    ensures Sorted(Yielded(queue, me).queue)
    ensures multiset(Yielded(queue, me).queue) + multiset{Yielded(queue, me).running} == multiset(queue) + multiset{me}
    ensures Dominates(Yielded(queue, me).running, Yielded(queue, me).queue)
  {
    if queue != [] {
      HeadLeast(queue);
      hide Inserted, Sorted, Dominates;
      if queue[0].key <= me.key {
        InsertedAll(queue[1..], me);
        DominatesInserted(queue[0], queue[1..], me);
      } else {
        InsertedAll(queue[1..], queue[0]);
        DominatesBelow(me, queue[0], queue[1..]);
        DominatesInserted(me, queue[1..], queue[0]);
      }
    }
  }

  /** Fork adds one thread, and keeps the highest priority running if it was. */
  lemma ForkExact<T>(queue: seq<Elem<T>>, me: Elem<T>, lowered: Elem<T>, t: Elem<T>)
    requires Sorted(queue)
    ensures Sorted(Forked(queue, me, lowered, t).queue)
    ensures multiset(Forked(queue, me, lowered, t).queue) + multiset{Forked(queue, me, lowered, t).running} ==
      multiset(queue) + multiset{t} + multiset{if t.key < me.key then lowered else me}
    ensures Dominates(me, queue) || t.key < me.key ==>
      Dominates(Forked(queue, me, lowered, t).running, Forked(queue, me, lowered, t).queue)
  {
    hide Inserted, Yielded, Sorted, Dominates;
    InsertedAll(queue, t);
    YieldExact(Inserted(queue, t), lowered);
    if t.key >= me.key && Dominates(me, queue) { DominatesInserted(me, queue, t); }
  }

  // ---- The classes ------------------------------------------------------------------------------

  class Scheduler {
    const readyList: List<Thread>
    var currentThread: Thread
    /** Every thread this scheduler has seen. */
    ghost var threads: set<Thread>

    ghost predicate Valid()
      reads this, readyList, readyList.nodes, threads
    {
      && readyList.Valid() && Queue()
      && currentThread in threads && currentThread.status == RUNNING
      && Absent(readyList.View(), currentThread)
    }

    /** Each thread is queued once, under the key its priority gives it now. */
    ghost predicate Queue()
      reads this, readyList, readyList.nodes, threads
    {
      QueueOf(readyList.View())
    }

    ghost predicate QueueOf(q: seq<Elem<Thread>>)
      reads this, threads
    {
      && Sorted(q) && Unique(q)
      && forall x :: x in q ==> x.item in threads && x.item.status == READY && x.key == Rank(x.item)
    }

    static function Rank(t: Thread): int
      reads t
    {
      MAX_PRIORITY - t.priority
    }

    ghost function Current(): Elem<Thread>
      reads this, currentThread
    {
      Elem(Rank(currentThread), currentThread)
    }

    /** The ready list in falling order of priority, each thread under 20 less its priority. */
    ghost predicate Falling()
      reads this, readyList, readyList.nodes, threads
    {
      var q := readyList.View();
      && (forall i :: 0 <= i < |q| ==> q[i].item in threads && q[i].key == MAX_PRIORITY - q[i].item.priority)
      && (forall i, j :: 0 <= i < j < |q| ==> q[i].item.priority >= q[j].item.priority)
    }

    lemma QueueFalls()
      requires Queue()
      ensures Falling()
    {
      hide List.View;
      var q := readyList.View();
      assert forall i :: 0 <= i < |q| ==> q[i] in q;
    }

    constructor (main: Thread)
      requires main.status == RUNNING
      ensures Valid() && currentThread == main && readyList.View() == [] && threads == {main} && fresh(readyList)
    {
      readyList := new List();
      currentThread := main;
      threads := {main};
    }

    method ReadyToRun(thread: Thread)
      requires readyList.Valid() && Queue() && thread in threads
      requires Absent(readyList.View(), thread)
      modifies thread`status, readyList, readyList.repr
      ensures readyList.Valid() && Queue() && thread.status == READY
      ensures readyList.View() == Inserted(old(readyList.View()), Elem(Rank(thread), thread))
      ensures forall x :: x in readyList.View() <==> x in old(readyList.View()) || x == Elem(Rank(thread), thread)
      ensures Falling()
      ensures Behind(old(readyList.View()), Elem(MAX_PRIORITY - thread.priority, thread), readyList.View())
      ensures fresh(readyList.repr - old(readyList.repr))
    {
      hide List.Valid, List.View, Inserted, Sorted, Unique, Falling, Behind;
      ghost var q, e := readyList.View(), Elem(Rank(thread), thread);
      thread.status := READY;
      var key := MAX_PRIORITY - thread.priority;
      assert readyList.View() == q && QueueOf(q);
      QueueGrown(q, thread);
      readyList.SortedInsert(thread, key);
      QueueFalls();
    }

    /** A ready thread that is not queued may be. */
    lemma QueueGrown(q: seq<Elem<Thread>>, thread: Thread)
      requires QueueOf(q) && thread in threads && thread.status == READY && Absent(q, thread)
      ensures QueueOf(Inserted(q, Elem(Rank(thread), thread)))
      ensures forall x :: x in Inserted(q, Elem(Rank(thread), thread)) <==> x in q || x == Elem(Rank(thread), thread)
    {
      hide Inserted, Sorted, Unique;
      var e := Elem(Rank(thread), thread);
      InsertedSorted(q, e);
      InsertedUnique(q, e);
      InsertedMembers(q, e);
    }

    method FindNextToRun() returns (next: Thread?)
      requires readyList.Valid() && Queue()
      modifies readyList
      ensures readyList.Valid() && Queue() && readyList.repr == old(readyList.repr)
      ensures old(readyList.View()) == [] ==> next == null && readyList.View() == []
      ensures old(readyList.View()) != [] ==>
        && next == old(readyList.View())[0].item && readyList.View() == old(readyList.View())[1..]
        && Absent(readyList.View(), next) && old(readyList.View())[0] == Elem(Rank(next), next) && next in threads
    {
      if readyList.View() != [] { HeadTaken(readyList.View()); }
      hide List.Valid, List.View, Sorted, Unique;
      var r := readyList.Remove();
      if r.Nothing? { return null; }
      return r.item;
    }

    method Run(nextThread: Thread)
      requires nextThread in threads
      modifies this`currentThread, nextThread`status
      ensures currentThread == nextThread && nextThread.status == RUNNING
    {
      currentThread := nextThread;
      nextThread.status := RUNNING;
    }

    static method ShouldISwitch(oldThread: Thread, newThread: Thread) returns (answer: bool)
      ensures answer <==> Rank(newThread) < Rank(oldThread)
      ensures answer <==> newThread.priority > oldThread.priority
    {
      answer := newThread.priority > oldThread.priority;
    }

    /** The head of the ready list runs if its priority is at least the running thread's. */
    method Pick()
      requires Valid()
      modifies this`currentThread, threads`status, readyList, readyList.repr
      ensures Valid()
      ensures Choice(Current(), readyList.View()) == Yielded(old(readyList.View()), old(Current()))
      ensures var q := old(readyList.View());
        currentThread ==
          if q != [] && q[0].item.priority >= old(currentThread).priority then q[0].item else old(currentThread)
      ensures fresh(readyList.repr - old(readyList.repr))
    {
      hide List.Valid, List.View, Inserted, Sorted, Unique, Behind, Falling;
      var me := currentThread;
      var nextThread := FindNextToRun();
      if nextThread != null {
        if nextThread.priority >= me.priority {
          ReadyToRun(me);
          Run(nextThread);
        } else {
          ReadyToRun(nextThread);
        }
      }
    }

    method Yield()
      requires Valid()
      modifies this`currentThread, threads, readyList, readyList.repr
      ensures Valid() && threads == old(threads)
      ensures old(currentThread).priority == old(currentThread.priority) - MAX_PRIORITY + old(currentThread).threadID
      ensures forall t :: t in threads && t != old(currentThread) ==> t.priority == old(t.priority)
      ensures Choice(Current(), readyList.View()) ==
        Yielded(old(readyList.View()), Elem(Rank(old(currentThread)), old(currentThread)))
      ensures Dominates(Current(), readyList.View())
      ensures Highest() && Falling()
      ensures var q := old(readyList.View());
        currentThread ==
          if q != [] && q[0].item.priority >= old(currentThread).priority then q[0].item else old(currentThread)
      ensures fresh(readyList.repr - old(readyList.repr))
    {
      hide List.Valid, List.View, Inserted, Sorted, Unique, Dominates, Highest, Falling, Yielded;
      var me := currentThread;
      me.priority := me.priority - MAX_PRIORITY + me.threadID;
      YieldExact(readyList.View(), Elem(Rank(me), me));
      Pick();
      RunsHighest();
      QueueFalls();
    }

    /** No ready thread has more priority than the running one. */
    ghost predicate Highest()
      reads this, readyList, readyList.nodes, currentThread, threads
    {
      forall x :: x in readyList.View() ==> x.item in threads && x.item.priority <= currentThread.priority
    }

    lemma RunsHighest()
      requires Queue() && Dominates(Current(), readyList.View())
      ensures Highest()
    {
      hide List.View, Sorted, Unique;
    }

    /** A thread nobody has seen is not queued, and may be added to those seen. */
    lemma NotQueued(t: Thread)
      requires Valid() && t !in threads
      ensures Absent(readyList.View(), t) && t != currentThread
    {
      hide List.View, Sorted, Unique;
    }

    /** False: the thread table was full and the thread is deleted. */
    method Fork(t: Thread) returns (started: bool)
      requires Valid() && t !in threads
      modifies this, threads, t, readyList, readyList.repr
      ensures Valid() && (started <==> t.threadID != -1)
      ensures !started ==>
        Current() == old(Current()) && readyList.View() == old(readyList.View()) && threads == old(threads)
      ensures started ==> threads == old(threads) + {t}
      ensures started ==>
        var me := old(currentThread);
        Choice(Current(), readyList.View()) ==
          Forked(old(readyList.View()), old(Current()), Elem(Rank(me), me), Elem(Rank(t), t))
      ensures started && Dominates(old(Current()), old(readyList.View())) ==> Dominates(Current(), readyList.View())
      ensures started && t.priority <= old(currentThread.priority) ==>
        && currentThread == old(currentThread) && currentThread.priority == old(currentThread.priority)
        && Behind(old(readyList.View()), Elem(MAX_PRIORITY - t.priority, t), readyList.View())
      ensures started && t.priority > old(currentThread.priority) ==>
        && old(currentThread).priority == old(currentThread.priority) - MAX_PRIORITY + old(currentThread).threadID
        && Highest() && currentThread.priority >= t.priority
      ensures Falling()
      ensures fresh(readyList.repr - old(readyList.repr))
    {
      hide List.Valid, List.View, Inserted, Sorted, Unique, Yielded, Dominates, Falling, Behind;
      QueueFalls();
      if t.threadID == -1 { return false; }
      NotQueued(t);
      ghost var q, me := readyList.View(), Current();
      DominatesAfter(q, me, Elem(Rank(t), t));
      hide Queue;
      threads := threads + {t};
      ReadyToRun(t);
      var switch := ShouldISwitch(currentThread, t);
      ghost var e := Elem(MAX_PRIORITY - t.priority, t);
      assert e in multiset(readyList.View());
      if switch {
        ghost var ready := readyList.View();
        Yield();
        YieldExact(ready, Elem(Rank(old(currentThread)), old(currentThread)));
        assert e in multiset(readyList.View()) + multiset{Current()};
      }
      return true;
    }
  }
}
