/** threads/synchlist.cc: a list whose Remove waits until there is something, with the lock that
    its callers contend for. */
module SynchLists {
  import opened Synch

  class SynchList<T> {
    var list: seq<T>
    const lock: Lock
    const listEmpty: Condition

    ghost predicate Valid()
      reads this, listEmpty
    {
      listEmpty.For(lock)
    }

    ghost predicate Held(t: Thread)
      reads lock, lock.locked
    {
      lock.View().holder == Some(t)
    }

    constructor ()
      ensures Valid() && list == [] && listEmpty.queue == [] && lock.View().holder == None
    {
      list := [];
      lock := new Lock();
      listEmpty := new Condition();
    }

    /** Append from the point where it has the lock. */
    method Append(currentThread: Thread, item: T) returns (woken: seq<Thread>)
      requires Valid() && Held(currentThread)
      modifies this, lock, lock.locked, listEmpty
      ensures Valid() && lock.View() == Released(old(lock.View()))
      ensures list == old(list) + [item]
      ensures woken == (if old(listEmpty.queue) == [] then [] else [old(listEmpty.queue)[0]])
      ensures listEmpty.queue == old(listEmpty.queue)[|woken|..]
    {
      list := list + [item];
      woken := listEmpty.Signal(lock, currentThread);
      var ready := lock.Release(currentThread);
    }

    /** One test in Remove, with the lock: asleep, or away with the first item. */
    method TryRemove(currentThread: Thread) returns (item: Option<T>)
      requires Valid() && Held(currentThread)
      modifies this, lock, lock.locked, listEmpty
      ensures Valid() && lock.View() == Released(old(lock.View()))
      ensures old(list) == [] ==>
        item == None && list == [] && listEmpty.queue == old(listEmpty.queue) + [currentThread]
      ensures old(list) != [] ==>
        item == Some(old(list)[0]) && list == old(list)[1..] && listEmpty.queue == old(listEmpty.queue)
    {
      if list == [] {
        var ready := listEmpty.Wait(lock, currentThread);
        return None;
      }
      item := Some(list[0]);
      list := list[1..];
      var ready := lock.Release(currentThread);
    }
  }

  // ---- The protocol ---------------------------------------------------------------------------

  /** The list, the removers asleep and the removers woken to test again, and what has been
      appended and removed so far. */
  datatype ListWorld<T> = ListWorld(list: seq<T>, queue: seq<Thread>, woken: set<Thread>, appended: seq<T>,
                                    removed: seq<T>)

  predicate AppendStep<T(==)>(w: ListWorld<T>, w': ListWorld<T>, item: T) {
    && w'.list == w.list + [item] && w'.appended == w.appended + [item] && w'.removed == w.removed
    && w'.queue == (if w.queue == [] then [] else w.queue[1..])
    && w'.woken == (if w.queue == [] then w.woken else w.woken + {w.queue[0]})
  }

  /** A new remover, or a woken one, tests. */
  predicate RemoveStep<T(==)>(w: ListWorld<T>, w': ListWorld<T>, t: Thread) {
    && t !in w.queue && w'.woken == w.woken - {t} && w'.appended == w.appended
    && if w.list == [] then w'.list == [] && w'.queue == w.queue + [t] && w'.removed == w.removed
       else w'.list == w.list[1..] && w'.queue == w.queue && w'.removed == w.removed + [w.list[0]]
  }

  predicate ListInv<T(==)>(w: ListWorld<T>) {
    && w.appended == w.removed + w.list
    && Distinct(w.queue) && (forall t :: t in w.queue ==> t !in w.woken)
    && (w.queue != [] ==> |w.list| <= |w.woken|)
  }

  lemma AppendKeeps<T>(w: ListWorld<T>, w': ListWorld<T>, item: T)
    requires ListInv(w) && AppendStep(w, w', item)
    ensures ListInv(w')
  {
    if w.queue != [] {
      assert w.queue[0] in w.queue && w.queue[0] !in w.queue[1..];
      WithoutSize(w.woken, w.queue[0]);
    }
  }

  lemma RemoveKeeps<T>(w: ListWorld<T>, w': ListWorld<T>, t: Thread)
    requires ListInv(w) && RemoveStep(w, w', t)
    ensures ListInv(w')
  {
    WithoutSize(w.woken, t);
    if w.list != [] { assert w.list == [w.list[0]] + w.list[1..]; }
  }

  // ---- With the lock --------------------------------------------------------------------------

  /** What a thread inside lock->Acquire, or holding the lock, is about to do. */
  datatype Want<+T> = ToAppend(item: T) | ToRemove | ToLeave

  datatype ListSystem<T> = ListSystem(world: ListWorld<T>, mutex: Mutex, wants: map<Thread, Want<T>>)

  /** A woken remover comes back for an item; anybody not asleep may come for anything else. */
  predicate MayWant<T>(w: ListWorld<T>, t: Thread, want: Want<T>) {
    t !in w.queue && (t in w.woken ==> want == ToRemove)
  }

  predicate TakesLock<T(==)>(s: ListSystem<T>, s': ListSystem<T>, t: Thread, want: Want<T>) {
    && want != ToLeave && MayWant(s.world, t, want) && (t in s.wants ==> s.wants[t] == want)
    && Enters(s.mutex, s'.mutex, t)
    && s'.world == s.world && s'.wants == s.wants[t := want]
  }

  predicate Does<T(==)>(w: ListWorld<T>, w': ListWorld<T>, t: Thread, want: Want<T>) {
    match want
    case ToAppend(item) => AppendStep(w, w', item)
    case ToRemove => RemoveStep(w, w', t)
    case ToLeave => false
  }

  /** The body, with the lock: a remover that goes to sleep gives the lock up in the same step,
      anybody else still has it to release. */
  predicate RunsBody<T(==)>(s: ListSystem<T>, s': ListSystem<T>, t: Thread) {
    && s.mutex.lock.holder == Some(t) && t in s.wants && Does(s.world, s'.world, t, s.wants[t])
    && if t in s'.world.queue then Leaves(s.mutex, s'.mutex, t) && s'.wants == s.wants - {t}
       else s'.mutex == s.mutex && s'.wants == s.wants[t := ToLeave]
  }

  predicate GivesLock<T(==)>(s: ListSystem<T>, s': ListSystem<T>, t: Thread) {
    && t in s.wants && s.wants[t] == ToLeave
    && Leaves(s.mutex, s'.mutex, t) && s'.world == s.world && s'.wants == s.wants - {t}
  }

  ghost predicate SystemActs<T(!new)>(s: ListSystem<T>, s': ListSystem<T>, t: Thread) {
    RunsBody(s, s', t) || GivesLock(s, s', t) || exists want: Want<T> :: TakesLock(s, s', t, want)
  }

  ghost predicate SystemStep<T(!new)>(s: ListSystem<T>, s': ListSystem<T>) {
    exists t: Thread :: SystemActs(s, s', t)
  }

  predicate SystemInv<T(==)>(s: ListSystem<T>) {
    && ListInv(s.world) && MutexInv(s.mutex)
    && s.wants.Keys == s.mutex.users
    && (forall t :: t in s.wants ==> MayWant(s.world, t, s.wants[t]))
    && (forall t :: t in s.wants && s.wants[t] == ToLeave ==> s.mutex.lock.holder == Some(t))
  }

  lemma OthersMay<T>(w: ListWorld<T>, w': ListWorld<T>, t: Thread, mine: Want<T>, u: Thread, want: Want<T>)
    requires ListInv(w) && Does(w, w', t, mine) && MayWant(w, t, mine) && u != t && MayWant(w, u, want)
    ensures MayWant(w', u, want)
  {
    if w.queue != [] { assert w.queue[0] in w.queue; }
  }

  lemma BodyDone<T>(w: ListWorld<T>, w': ListWorld<T>, t: Thread, want: Want<T>)
    requires ListInv(w) && Does(w, w', t, want) && MayWant(w, t, want)
    ensures ListInv(w')
    ensures t !in w'.queue ==> MayWant(w', t, ToLeave)
  {
    match want
    case ToAppend(item) =>
      AppendKeeps(w, w', item);
      if w.queue != [] { assert w.queue[0] in w.queue; }
    case ToRemove =>
      RemoveKeeps(w, w', t);
  }

  lemma BodyKeeps<T>(s: ListSystem<T>, s': ListSystem<T>, t: Thread)
    requires SystemInv(s) && RunsBody(s, s', t)
    ensures SystemInv(s')
  {
    hide ListInv, MutexInv, MayWant, Does, Leaves;
    BodyDone(s.world, s'.world, t, s.wants[t]);
    forall u | u in s.wants && u != t ensures MayWant(s'.world, u, s.wants[u]) {
      OthersMay(s.world, s'.world, t, s.wants[t], u, s.wants[u]);
    }
    if t in s'.world.queue {
      LeavesKeeps(s.mutex, s'.mutex, t);
      LeftUsers(s.mutex, s'.mutex, t);
    }
  }

  lemma GivesKeeps<T>(s: ListSystem<T>, s': ListSystem<T>, t: Thread)
    requires SystemInv(s) && GivesLock(s, s', t)
    ensures SystemInv(s')
  {
    hide ListInv, MutexInv, MayWant, Leaves;
    LeavesKeeps(s.mutex, s'.mutex, t);
    LeftUsers(s.mutex, s'.mutex, t);
  }

  lemma TakesKeeps<T>(s: ListSystem<T>, s': ListSystem<T>, t: Thread, want: Want<T>)
    requires SystemInv(s) && TakesLock(s, s', t, want)
    ensures SystemInv(s')
  {
    EntersKeeps(s.mutex, s'.mutex, t);
    hide ListInv, MutexInv, MayWant;
  }

  lemma SystemStepKeeps<T(!new)>(s: ListSystem<T>, s': ListSystem<T>)
    requires SystemInv(s) && SystemStep(s, s')
    ensures SystemInv(s')
  {
    hide SystemInv, RunsBody, GivesLock, TakesLock;
    var t: Thread :| SystemActs(s, s', t);
    if RunsBody(s, s', t) {
      BodyKeeps(s, s', t);
    } else if GivesLock(s, s', t) {
      GivesKeeps(s, s', t);
    } else {
      var want: Want<T> :| TakesLock(s, s', t, want);
      TakesKeeps(s, s', t, want);
    }
  }

  ghost predicate ListRun<T(!new)>(ss: seq<ListSystem<T>>) {
    && ss != [] && ss[0] == ListSystem(ListWorld([], [], {}, [], []), FREE_MUTEX, map[])
    && forall i: nat :: i + 1 < |ss| ==> SystemStep(ss[i], ss[i + 1])
  }

  lemma {:induction false} ListReachable<T(!new)>(ss: seq<ListSystem<T>>, n: nat)
    requires ListRun(ss) && n < |ss|
    ensures SystemInv(ss[n])
  {
    if n > 0 {
      ListReachable(ss, n - 1);
      hide SystemInv, SystemStep;
      SystemStepKeeps(ss[n - 1], ss[n]);
    }
  }

  /** Items come out once each and in the order they went in; when a remover sleeps, every item
      on the list has a woken remover still to come for it; and a free lock that somebody wants
      has a thread woken to test it. */
  lemma ListFifo<T(!new)>(ss: seq<ListSystem<T>>, n: nat)
    requires ListRun(ss) && n < |ss|
    ensures ss[n].world.appended == ss[n].world.removed + ss[n].world.list
    ensures ss[n].world.queue != [] ==> |ss[n].world.list| <= |ss[n].world.woken|
    ensures ss[n].mutex.lock.holder == None && ss[n].wants != map[] ==> ss[n].mutex.woken != {}
  {
    ListReachable(ss, n);
    MutexStrandsNobody(ss[n].mutex);
    hide MutexInv;
    if ss[n].wants != map[] {
      var t :| t in ss[n].wants.Keys;
      assert t in ss[n].mutex.users;
    }
  }
}
