/** machine/interrupt.cc: simulated time and the queue of pending interrupts.

    A handler is code of some device or of the kernel: it may schedule later interrupts and ask
    for a yield, and cannot move the clock, since it may not enable interrupts. What the n-th
    firing does is a parameter, so every behaviour of every handler is covered. */
module Interrupts {
  import opened Lists

  datatype IntStatus = IntOff | IntOn

  datatype MachineStatus = SystemMode | UserMode | IdleMode

  datatype IntType = TimerInt | OtherInt

  datatype Pending = Pending(arg: int, kind: IntType)

  datatype Request = Request(fromNow: int, what: Pending)

  datatype Effect = Effect(requests: seq<Request>, yielding: bool)

  type Handlers = nat -> Effect

  /** The ASSERT of Schedule, for every call a handler makes. */
  ghost predicate Legal(h: Handlers) {
    forall n: nat, i: nat :: i < |h(n).requests| ==> h(n).requests[i].fromNow > 0
  }

  const USER_TICK := 1
  const SYSTEM_TICK := 10

  /** The state, with what has been asked for and what has fired so far, and when. */
  datatype State = State(
    level: IntStatus,
    pending: seq<Elem<Pending>>,
    yieldOnReturn: bool,
    status: MachineStatus,
    now: int,
    idleTicks: int,
    asked: multiset<Elem<Pending>>,
    fired: seq<Elem<Pending>>,
    firedAt: seq<int>)

  // ---- What the operations compute ------------------------------------------------------------

  function Asked(s: State, r: Request): State {
    var e := Elem(s.now + r.fromNow, r.what);
    s.(pending := Inserted(s.pending, e), asked := s.asked + multiset{e})
  }

  /** The queue after a handler's requests, made one after the other at one time. */
  function AllInserted(p: seq<Elem<Pending>>, now: int, rs: seq<Request>): seq<Elem<Pending>> {
    if rs == [] then p
    else Inserted(AllInserted(p, now, rs[..|rs| - 1]), Elem(now + rs[|rs| - 1].fromNow, rs[|rs| - 1].what))
  }

  function AllAsked(m: multiset<Elem<Pending>>, now: int, rs: seq<Request>): multiset<Elem<Pending>> {
    if rs == [] then m
    else AllAsked(m, now, rs[..|rs| - 1]) + multiset{Elem(now + rs[|rs| - 1].fromNow, rs[|rs| - 1].what)}
  }

  function AskedAll(s: State, rs: seq<Request>): State {
    s.(pending := AllInserted(s.pending, s.now, rs), asked := AllAsked(s.asked, s.now, rs))
  }

  /** An interrupt off the queue is delivered to its handler. */
  function Delivered(h: Handlers, s: State, e: Elem<Pending>): State {
    var effect := h(|s.fired|);
    var s' := AskedAll(s.(fired := s.fired + [e], firedAt := s.firedAt + [s.now]), effect.requests);
    s'.(yieldOnReturn := s.yieldOnReturn || effect.yielding)
  }

  /** The first pending interrupt fires. */
  function Fired(h: Handlers, s: State): State
    requires s.pending != []
  {
    Delivered(h, s.(pending := s.pending[1..]), s.pending[0])
  }

  /** Idling with nothing but the time-slice timer left. */
  predicate OnlyTimer(s: State) {
    s.status == IdleMode && |s.pending| == 1 && s.pending[0].item.kind == TimerInt
  }

  function PutBack(s: State): State
    requires s.pending != []
  {
    s.(pending := Inserted(s.pending[1..], s.pending[0]))
  }

  function Advanced(s: State): State
    requires s.pending != []
  {
    var first := s.pending[0].key;
    if first > s.now then s.(idleTicks := s.idleTicks + first - s.now, now := first) else s
  }

  predicate Fires(s: State, advanceClock: bool) {
    s.pending != [] && (advanceClock || s.pending[0].key <= s.now) && !OnlyTimer(s)
  }

  function Checked(h: Handlers, s: State, advanceClock: bool): State {
    if s.pending == [] then s
    else if !advanceClock && s.pending[0].key > s.now then PutBack(s)
    else if OnlyTimer(s) then PutBack(Advanced(s))
    else Fired(h, Advanced(s))
  }

  /** How many pending interrupts are due. */
  function Due(p: seq<Elem<Pending>>, now: int): nat {
    if p == [] then 0 else (if p[0].key <= now then 1 else 0) + Due(p[1..], now)
  }

  /** while (CheckIfDue(FALSE)); */
  ghost function FireDue(h: Handlers, s: State): State
    requires Legal(h)
    decreases Due(s.pending, s.now)
  {
    if Fires(s, false) then
      FiredDue(h, s);
      FireDue(h, Checked(h, s, false))
    else Checked(h, s, false)
  }

  /** The clock moves one tick, interrupts off for the handlers. */
  function Ticked(s: State): State {
    s.(now := s.now + (if s.status == SystemMode then SYSTEM_TICK else USER_TICK), level := IntOff)
  }

  /** Interrupts back on, the wish to yield taken. */
  function Opened(s: State): State {
    s.(level := IntOn, yieldOnReturn := false)
  }

  // ---- The loop terminates ----------------------------------------------------------------------

  lemma {:induction false} InsertedDue(p: seq<Elem<Pending>>, e: Elem<Pending>, now: int)
    ensures Due(Inserted(p, e), now) == Due(p, now) + (if e.key <= now then 1 else 0)
  {
    if p != [] {
      InsertedDue(p[1..], e, now);
      assert Inserted(p, e)[1..] == if e.key < p[0].key then p else Inserted(p[1..], e);
    }
  }

  lemma {:induction false} AskedLater(p: seq<Elem<Pending>>, now: int, rs: seq<Request>)
    requires forall i :: 0 <= i < |rs| ==> rs[i].fromNow > 0
    ensures Due(AllInserted(p, now, rs), now) == Due(p, now)
  {
    if rs != [] {
      var n := |rs| - 1;
      AskedLater(p, now, rs[..n]);
      InsertedDue(AllInserted(p, now, rs[..n]), Elem(now + rs[n].fromNow, rs[n].what), now);
    }
  }

  /** A firing leaves one due interrupt less: handlers schedule only later ones. */
  lemma FiredDue(h: Handlers, s: State)
    requires Legal(h) && Fires(s, false)
    ensures Checked(h, s, false) == Fired(h, s)
    ensures Due(Fired(h, s).pending, s.now) == Due(s.pending, s.now) - 1
    ensures Fired(h, s).now == s.now
  {
    AskedLater(s.pending[1..], s.now, h(|s.fired|).requests);
  }

  // ---- What every run keeps -----------------------------------------------------------------------

  /** Everything asked for is pending or has fired, once. */
  predicate Conserved(s: State) {
    s.asked == multiset(s.pending) + multiset(s.fired)
  }

  /** Firings came in the order of their times, none early. */
  predicate Punctual(s: State) {
    && |s.firedAt| == |s.fired|
    && (forall i :: 0 <= i < |s.fired| ==> s.fired[i].key <= s.firedAt[i] <= s.now)
    && (forall i, j :: 0 <= i < j < |s.fired| ==> s.fired[i].key <= s.fired[j].key && s.firedAt[i] <= s.firedAt[j])
  }

  /** The queue is sorted, and nothing in it is older than a firing. */
  predicate Queued(s: State) {
    Sorted(s.pending) && (s.fired != [] ==> NotBefore(s.pending, s.fired[|s.fired| - 1].key))
  }

  predicate TimeInv(s: State) {
    Conserved(s) && Punctual(s) && Queued(s)
  }

  predicate NotBefore(p: seq<Elem<Pending>>, when: int) {
    forall i :: 0 <= i < |p| ==> when <= p[i].key
  }

  lemma {:induction false} InsertedNotBefore(p: seq<Elem<Pending>>, e: Elem<Pending>, when: int)
    requires NotBefore(p, when) && when <= e.key
    ensures NotBefore(Inserted(p, e), when)
  {
    if p != [] { InsertedNotBefore(p[1..], e, when); }
  }

  /** A new element behind the last firing keeps the queue. */
  lemma InsertedQueue(s: State, p: seq<Elem<Pending>>, e: Elem<Pending>)
    requires Sorted(p)
    requires s.fired != [] ==> NotBefore(p, s.fired[|s.fired| - 1].key) && s.fired[|s.fired| - 1].key <= e.key
    ensures Queued(s.(pending := Inserted(p, e)))
    ensures multiset(Inserted(p, e)) == multiset(p) + multiset{e}
  {
    InsertedSorted(p, e);
    InsertedItems(p, e);
    if s.fired != [] { InsertedNotBefore(p, e, s.fired[|s.fired| - 1].key); }
  }

  lemma QueueGrows(s: State, e: Elem<Pending>)
    requires Punctual(s) && Queued(s) && s.now <= e.key
    ensures Queued(s.(pending := Inserted(s.pending, e), asked := s.asked + multiset{e}))
    ensures multiset(Inserted(s.pending, e)) == multiset(s.pending) + multiset{e}
  {
    hide Inserted, Sorted, NotBefore, Punctual;
    LastFiring(s);
    InsertedQueue(s, s.pending, e);
  }

  lemma LastFiring(s: State)
    requires Punctual(s)
    ensures s.fired != [] ==> s.fired[|s.fired| - 1].key <= s.now
  {}

  lemma AskedKeeps(s: State, r: Request)
    requires TimeInv(s) && r.fromNow > 0
    ensures TimeInv(Asked(s, r))
  {
    hide Inserted, Sorted, NotBefore, Conserved, Punctual, Queued;
    var e := Elem(s.now + r.fromNow, r.what);
    QueueGrows(s, e);
    Regroup(s, s.(pending := Inserted(s.pending, e), asked := s.asked + multiset{e}), e);
    SameFirings(s, Asked(s, r));
  }

  lemma Regroup(s: State, s': State, e: Elem<Pending>)
    requires Conserved(s) && s'.asked == s.asked + multiset{e} && s'.fired == s.fired
    requires multiset(s'.pending) == multiset(s.pending) + multiset{e}
    ensures Conserved(s')
  {}

  lemma SameFirings(s: State, s': State)
    requires Punctual(s) && s'.fired == s.fired && s'.firedAt == s.firedAt && s.now <= s'.now
    ensures Punctual(s')
  {}

  lemma {:induction false} AskedAllKeeps(s: State, rs: seq<Request>)
    requires TimeInv(s) && forall i :: 0 <= i < |rs| ==> rs[i].fromNow > 0
    ensures TimeInv(AskedAll(s, rs))
  {
    hide TimeInv, AllInserted, AllAsked, Inserted;
    if rs == [] {
      NoneAsked(s.pending, s.asked, s.now);
    } else {
      var n := |rs| - 1;
      AskedAllKeeps(s, rs[..n]);
      AskedKeeps(AskedAll(s, rs[..n]), rs[n]);
      OneMore(s.pending, s.asked, s.now, rs, n);
      assert rs[..n + 1] == rs;
    }
  }

  /** The head moved from the queue to the firings. */
  function Taken(s: State): State
    requires s.pending != []
  {
    s.(pending := s.pending[1..], fired := s.fired + [s.pending[0]], firedAt := s.firedAt + [s.now])
  }

  lemma TakenKeeps(s: State)
    requires TimeInv(s) && s.pending != [] && s.pending[0].key <= s.now
    ensures TimeInv(Taken(s))
  {
    hide Conserved, Punctual, Queued;
    TakenConserved(s);
    TakenPunctual(s);
    TakenQueued(s);
  }

  lemma TakenConserved(s: State)
    requires Conserved(s) && s.pending != []
    ensures Conserved(Taken(s))
  {
    assert s.pending == [s.pending[0]] + s.pending[1..];
  }

  lemma TakenPunctual(s: State)
    requires Punctual(s) && Queued(s) && s.pending != [] && s.pending[0].key <= s.now
    ensures Punctual(Taken(s))
  {}

  lemma TakenQueued(s: State)
    requires Queued(s) && s.pending != []
    ensures Queued(Taken(s))
  {}

  lemma PutBackKeeps(s: State)
    requires TimeInv(s) && s.pending != []
    ensures TimeInv(PutBack(s))
  {
    var rest, e := s.pending[1..], s.pending[0];
    HeadAndRest(s);
    hide Inserted, Sorted, NotBefore, Punctual;
    InsertedQueue(s, rest, e);
    SameFirings(s, PutBack(s));
  }

  lemma HeadAndRest(s: State)
    requires Queued(s) && s.pending != []
    ensures Sorted(s.pending[1..]) && multiset(s.pending) == multiset(s.pending[1..]) + multiset{s.pending[0]}
    ensures s.fired != [] ==>
      NotBefore(s.pending[1..], s.fired[|s.fired| - 1].key) && s.fired[|s.fired| - 1].key <= s.pending[0].key
  {
    assert s.pending == [s.pending[0]] + s.pending[1..];
  }

  lemma AdvancedKeeps(s: State)
    requires TimeInv(s) && s.pending != []
    ensures TimeInv(Advanced(s)) && s.now <= Advanced(s).now && s.pending[0].key <= Advanced(s).now
  {
    hide Sorted, NotBefore;
  }

  lemma FiredIs(h: Handlers, s: State)
    requires s.pending != []
    ensures Fired(h, s) ==
      AskedAll(Taken(s), h(|s.fired|).requests).(yieldOnReturn := s.yieldOnReturn || h(|s.fired|).yielding)
  {
    hide AskedAll;
  }

  lemma YieldKeeps(s: State, y: bool)
    requires TimeInv(s)
    ensures TimeInv(s.(yieldOnReturn := y))
  {
    hide Sorted, NotBefore;
  }

  lemma FiredKeeps(h: Handlers, s: State)
    requires Legal(h) && TimeInv(s) && s.pending != [] && s.pending[0].key <= s.now
    ensures TimeInv(Fired(h, s)) && Fired(h, s).fired == s.fired + [s.pending[0]] && Fired(h, s).now == s.now
  {
    var rs := h(|s.fired|).requests;
    assert forall i :: 0 <= i < |rs| ==> rs[i].fromNow > 0;
    hide AskedAll, TimeInv, Fired, Delivered, Legal;
    TakenKeeps(s);
    AskedAllKeeps(Taken(s), rs);
    YieldKeeps(AskedAll(Taken(s), rs), s.yieldOnReturn || h(|s.fired|).yielding);
    FiredIs(h, s);
  }

  lemma CheckedKeeps(h: Handlers, s: State, advanceClock: bool)
    requires Legal(h) && TimeInv(s)
    ensures TimeInv(Checked(h, s, advanceClock))
    ensures s.now <= Checked(h, s, advanceClock).now
    ensures s.fired <= Checked(h, s, advanceClock).fired
    ensures Fires(s, advanceClock) ==> Checked(h, s, advanceClock).fired == s.fired + [s.pending[0]]
  {
    hide TimeInv, Fired, Inserted;
    if s.pending != [] {
      AdvancedKeeps(s);
      PutBackKeeps(s);
      PutBackKeeps(Advanced(s));
      FiredKeeps(h, Advanced(s));
    }
  }

  /** After the loop the clock has not moved and nothing is due; only an idle machine may leave
      its last time-slice timer. */
  lemma {:induction false} FireDueExact(h: Handlers, s: State)
    requires Legal(h) && TimeInv(s)
    ensures var s' := FireDue(h, s);
      && TimeInv(s') && s'.now == s.now && s'.status == s.status && s'.level == s.level && s'.idleTicks == s.idleTicks
      && s.fired <= s'.fired
      && (Due(s'.pending, s'.now) == 0
          || (s'.status == IdleMode && |s'.pending| == 1 && s'.pending[0].item.kind == TimerInt))
    decreases Due(s.pending, s.now)
  {
    CheckedKeeps(h, s, false);
    if Fires(s, false) {
      FiredDue(h, s);
      FiredRest(h, s);
      FireDueExact(h, Checked(h, s, false));
    } else if s.pending != [] {
      PutBackKeeps(s);
      NoneDue(PutBack(s).pending, s.now);
      HeadStays(s);
    }
  }

  lemma FiredRest(h: Handlers, s: State)
    requires Legal(h) && s.pending != []
    ensures var s' := Fired(h, s);
      s'.now == s.now && s'.status == s.status && s'.level == s.level && s'.idleTicks == s.idleTicks
  {
    AskedLater(s.pending[1..], s.now, h(|s.fired|).requests);
  }

  lemma {:induction false} NoneDue(p: seq<Elem<Pending>>, now: int)
    requires Sorted(p)
    ensures p != [] && p[0].key > now ==> Due(p, now) == 0
    ensures Due(p, now) == 0 ==> forall i :: 0 <= i < |p| ==> p[i].key > now
  {
    if p != [] { NoneDue(p[1..], now); }
  }

  /** Putting the head back keeps the earliest time in front. */
  lemma HeadStays(s: State)
    requires s.pending != [] && Sorted(s.pending)
    ensures PutBack(s).pending[0].key == s.pending[0].key
    ensures |s.pending| == 1 ==> PutBack(s).pending == s.pending
  {}

  // ---- The operations by what a caller sees -----------------------------------------------------------

  /** When a handler's requests, made now, are due. */
  function Times(rs: seq<Request>, now: int): (es: seq<Elem<Pending>>)
    ensures |es| == |rs| && forall i :: 0 <= i < |rs| ==> es[i] == Elem(now + rs[i].fromNow, rs[i].what)
  {
    seq(|rs|, i requires 0 <= i < |rs| => Elem(now + rs[i].fromNow, rs[i].what))
  }

  /** What CheckIfDue did. It fires the first interrupt unless there is none, it is not time yet,
      or the machine is idle with nothing but its time-slice timer. The clock moves only when
      asked to, to the first interrupt. A firing queues exactly what the handler asks for. */
  ghost predicate Checks(h: Handlers, s: State, advanceClock: bool, any: bool, s': State) {
    var late := s.pending != [] && s.pending[0].key > s.now;
    && any == (s.pending != [] && (advanceClock || !late)
               && !(s.status == IdleMode && |s.pending| == 1 && s.pending[0].item.kind == TimerInt))
    && s'.now == (if advanceClock && late then s.pending[0].key else s.now)
    && s'.idleTicks - s.idleTicks == s'.now - s.now && s'.level == s.level && s'.status == s.status
    && if any then
         var Effect(rs, yielding) := h(|s.fired|);
         && s'.fired == s.fired + [s.pending[0]] && s'.firedAt == s.firedAt + [s'.now]
         && s'.yieldOnReturn == (s.yieldOnReturn || yielding)
         && multiset(s'.pending) == multiset(s.pending[1..]) + multiset(Times(rs, s'.now))
       else
         && s'.fired == s.fired && s'.firedAt == s.firedAt && s'.yieldOnReturn == s.yieldOnReturn
         && multiset(s'.pending) == multiset(s.pending)
  }

  lemma {:induction false} AllInsertedItems(p: seq<Elem<Pending>>, now: int, rs: seq<Request>)
    ensures multiset(AllInserted(p, now, rs)) == multiset(p) + multiset(Times(rs, now))
  {
    hide Inserted;
    if rs != [] {
      var n := |rs| - 1;
      AllInsertedItems(p, now, rs[..n]);
      InsertedItems(AllInserted(p, now, rs[..n]), Times(rs, now)[n]);
      assert Times(rs, now) == Times(rs[..n], now) + [Times(rs, now)[n]];
    }
  }

  lemma FiredChecks(h: Handlers, s: State)
    requires s.pending != []
    ensures var s' := Fired(h, s); var rs := h(|s.fired|).requests;
      && s'.now == s.now && s'.idleTicks == s.idleTicks && s'.level == s.level && s'.status == s.status
      && s'.fired == s.fired + [s.pending[0]] && s'.firedAt == s.firedAt + [s.now]
      && s'.yieldOnReturn == (s.yieldOnReturn || h(|s.fired|).yielding)
      && multiset(s'.pending) == multiset(s.pending[1..]) + multiset(Times(rs, s.now))
  {
    AllInsertedItems(s.pending[1..], s.now, h(|s.fired|).requests);
    hide AllInserted, AllAsked;
  }

  lemma PutBackItems(p: seq<Elem<Pending>>)
    requires p != []
    ensures multiset(Inserted(p[1..], p[0])) == multiset(p)
  {
    InsertedItems(p[1..], p[0]);
    assert p == [p[0]] + p[1..];
  }

  lemma CheckedChecks(h: Handlers, s: State, advanceClock: bool)
    ensures Checks(h, s, advanceClock, Fires(s, advanceClock), Checked(h, s, advanceClock))
  {
    hide Fired, Inserted, Times;
    if s.pending != [] {
      PutBackItems(s.pending);
      FiredChecks(h, Advanced(s));
    }
  }

  /** The loop: the clock stands still, firings are added, and a yield is wanted exactly when it
      was or a handler asked for it. */
  lemma {:induction false} FireDueAdds(h: Handlers, s: State)
    requires Legal(h)
    ensures var s' := FireDue(h, s);
      && s'.now == s.now && s'.idleTicks == s.idleTicks && s'.level == s.level && s'.status == s.status
      && s.fired <= s'.fired
      && (s'.yieldOnReturn <==>
           s.yieldOnReturn || exists n :: |s.fired| <= n < |s'.fired| && h(n).yielding)
    decreases Due(s.pending, s.now)
  {
    hide Checked, Fires;
    CheckedChecks(h, s, false);
    if Fires(s, false) {
      var c := Checked(h, s, false);
      FiredDue(h, s);
      FireDueAdds(h, c);
      var s' := FireDue(h, c);
      assert h(|s.fired|).yielding ==> s'.yieldOnReturn;
    }
  }

  // ---- The class ------------------------------------------------------------------------------------

  class Interrupt {
    var level: IntStatus
    const pending: List<Pending>
    var inHandler: bool
    var yieldOnReturn: bool
    var status: MachineStatus
    var totalTicks: int
    var idleTicks: int
    var systemTicks: int
    var userTicks: int
    const handlers: Handlers
    ghost var asked: multiset<Elem<Pending>>
    var fired: seq<Elem<Pending>>
    ghost var firedAt: seq<int>

    ghost predicate Valid()
      reads this, pending, pending.nodes
    {
      pending.Valid() && Legal(handlers) && totalTicks == idleTicks + systemTicks + userTicks
    }

    ghost function View(): State
      reads this, pending, pending.nodes
    {
      State(level, pending.View(), yieldOnReturn, status, totalTicks, idleTicks, asked, fired, firedAt)
    }

    constructor (handlers: Handlers)
      requires Legal(handlers)
      ensures Valid() && this.handlers == handlers && !inHandler && fresh(pending)
      ensures View() == State(IntOff, [], false, SystemMode, 0, 0, multiset{}, [], [])
    {
      this.handlers := handlers;
      level, inHandler, yieldOnReturn, status := IntOff, false, false, SystemMode;
      totalTicks, idleTicks, systemTicks, userTicks := 0, 0, 0, 0;
      pending := new List();
      asked, fired, firedAt := multiset{}, [], [];
    }

    /** Arrange for an interrupt strictly in the future. */
    method Schedule(what: Pending, fromNow: int)
      requires Valid() && fromNow > 0
      modifies this`asked, pending, pending.repr
      ensures Valid() && View() == Asked(old(View()), Request(fromNow, what))
      ensures pending.View() == Inserted(old(pending.View()), Elem(totalTicks + fromNow, what))
      ensures asked == old(asked) + multiset{Elem(totalTicks + fromNow, what)}
      ensures fresh(pending.repr - old(pending.repr))
    {
      hide Inserted, Behind, Legal, List.Valid, List.View;
      var when := totalTicks + fromNow;
      pending.SortedInsert(what, when);
      asked := asked + multiset{Elem(when, what)};
    }

    /** The n-th handler call. */
    method CallHandler(n: nat)
      requires Valid() && n == |fired| - 1 && inHandler
      modifies this`asked, this`yieldOnReturn, pending, pending.repr
      ensures Valid() && yieldOnReturn == (old(yieldOnReturn) || handlers(n).yielding)
      ensures pending.View() == AllInserted(old(pending.View()), totalTicks, handlers(n).requests)
      ensures asked == AllAsked(old(asked), totalTicks, handlers(n).requests)
      ensures fresh(pending.repr - old(pending.repr))
    {
      hide Legal, Inserted, List.Valid, List.View, Interrupt.View, AllInserted, AllAsked;
      LegalCall(handlers, n);
      var effect := handlers(n);
      ghost var p, m, rs := pending.View(), asked, effect.requests;
      NoneAsked(p, m, totalTicks);
      var i := 0;
      assert rs[..0] == [];
      while i < |effect.requests|
        invariant 0 <= i <= |effect.requests| && Valid()
        invariant pending.View() == AllInserted(p, totalTicks, rs[..i]) && asked == AllAsked(m, totalTicks, rs[..i])
        invariant yieldOnReturn == old(yieldOnReturn)
        invariant fresh(pending.repr - old(pending.repr))
      {
        OneMore(p, m, totalTicks, rs, i);
        Schedule(effect.requests[i].what, effect.requests[i].fromNow);
        i := i + 1;
      }
      assert rs[..i] == rs;
      if effect.yielding { yieldOnReturn := true; }
    }

    /** The handler runs in system mode, with inHandler set. */
    method Deliver(toOccur: Pending, when: int)
      requires Valid() && !inHandler
      modifies this, pending, pending.repr
      ensures Valid() && !inHandler && level == old(level)
      ensures View() == Delivered(handlers, old(View()), Elem(when, toOccur))
      ensures systemTicks == old(systemTicks) && userTicks == old(userTicks)
      ensures fresh(pending.repr - old(pending.repr))
    {
      hide Legal, List.Valid, List.View, AllInserted, AllAsked;
      var oldStatus := status;
      inHandler := true;
      status := SystemMode;
      fired, firedAt := fired + [Elem(when, toOccur)], firedAt + [totalTicks];
      CallHandler(|fired| - 1);
      status := oldStatus;
      inHandler := false;
    }

    /** Fires the first pending interrupt if it is due, or if the clock may be moved to it. */
    method CheckIfDue(advanceClock: bool) returns (any: bool)
      requires Valid() && level == IntOff && !inHandler
      modifies this, pending, pending.repr
      ensures Valid() && !inHandler && level == IntOff
      ensures any == Fires(old(View()), advanceClock)
      ensures View() == Checked(handlers, old(View()), advanceClock)
      ensures Checks(handlers, old(View()), advanceClock, any, View())
      ensures systemTicks == old(systemTicks) && userTicks == old(userTicks)
      ensures fresh(pending.repr - old(pending.repr))
    {
      hide Inserted, Behind, Delivered, Legal, List.Valid, List.View, Checks;
      CheckedChecks(handlers, View(), advanceClock);
      var toOccur := pending.SortedRemove();
      if toOccur.Nothing? { return false; }
      if advanceClock && toOccur.key > totalTicks {
        idleTicks := idleTicks + (toOccur.key - totalTicks);
        totalTicks := toOccur.key;
      } else if toOccur.key > totalTicks {
        pending.SortedInsert(toOccur.item, toOccur.key);
        return false;
      }
      var empty := pending.IsEmpty();
      if status == IdleMode && toOccur.item.kind == TimerInt && empty {
        pending.SortedInsert(toOccur.item, toOccur.key);
        return false;
      }
      Deliver(toOccur.item, toOccur.key);
      any := true;
    }

    /** Advance the clock by one tick and fire everything due. True: the caller yielding. */
    method OneTick() returns (yielding: bool)
      requires Valid() && level == IntOn && !inHandler
      modifies this, pending, pending.repr
      ensures Valid() && !inHandler
      ensures var s' := FireDue(handlers, Ticked(old(View())));
        View() == Opened(s') && yielding == s'.yieldOnReturn
      ensures totalTicks == old(totalTicks) + (if old(status) == SystemMode then SYSTEM_TICK else USER_TICK)
      ensures level == IntOn && status == old(status) && !yieldOnReturn && old(fired) <= fired
      ensures yielding <==>
        old(yieldOnReturn) || exists n :: |old(fired)| <= n < |fired| && handlers(n).yielding
      ensures systemTicks == old(systemTicks) + (if old(status) == SystemMode then SYSTEM_TICK else 0)
      ensures userTicks == old(userTicks) + (if old(status) == SystemMode then 0 else USER_TICK)
      ensures fresh(pending.repr - old(pending.repr))
    {
      hide FireDue, Legal, List.Valid, List.View;
      if status == SystemMode {
        totalTicks := totalTicks + SYSTEM_TICK;
        systemTicks := systemTicks + SYSTEM_TICK;
      } else {
        totalTicks := totalTicks + USER_TICK;
        userTicks := userTicks + USER_TICK;
      }
      level := IntOff;
      FireDueAdds(handlers, View());
      FireAll();
      level := IntOn;
      yielding := yieldOnReturn;
      yieldOnReturn := false;
    }

    method FireAll()
      requires Valid() && level == IntOff && !inHandler
      modifies this, pending, pending.repr
      ensures Valid() && !inHandler && View() == FireDue(handlers, old(View()))
      ensures systemTicks == old(systemTicks) && userTicks == old(userTicks)
      ensures fresh(pending.repr - old(pending.repr))
    {
      var more := true;
      ghost var s := View();
      while more
        invariant Valid() && level == IntOff && !inHandler
        invariant if more then FireDue(handlers, View()) == FireDue(handlers, s) else View() == FireDue(handlers, s)
        invariant systemTicks == old(systemTicks) && userTicks == old(userTicks)
        invariant fresh(pending.repr - old(pending.repr))
        decreases more, if more then Due(View().pending, View().now) else 0
      {
        ghost var before := View();
        if Fires(before, false) {
          FiredDue(handlers, before);
          FiredRest(handlers, before);
        }
        more := CheckIfDue(false);
      }
    }

    method SetLevel(now: IntStatus) returns (was: IntStatus, yielding: bool)
      requires Valid() && (now == IntOff || !inHandler)
      modifies this, pending, pending.repr
      ensures Valid() && inHandler == old(inHandler) && was == old(level) && level == now
      ensures now == IntOn && was == IntOff ==> var s' := FireDue(handlers, Ticked(old(View())));
        View() == Opened(s') && yielding == s'.yieldOnReturn
      ensures !(now == IntOn && was == IntOff) ==> View() == old(View()).(level := now) && !yielding
      ensures totalTicks == old(totalTicks) +
        (if now == IntOff || was == IntOn then 0 else if old(status) == SystemMode then SYSTEM_TICK else USER_TICK)
      ensures fresh(pending.repr - old(pending.repr))
    {
      hide FireDue, Legal, List.Valid, List.View;
      ghost var s := View();
      was, yielding := level, false;
      level := now;
      assert Ticked(View()) == Ticked(s);
      if now == IntOn && was == IntOff { yielding := OneTick(); }
    }

    /** Nothing is ready: jump to the next interrupt. False: the machine halts. */
    method Idle() returns (running: bool)
      requires Valid() && level == IntOff && !inHandler
      modifies this, pending, pending.repr
      ensures Valid() && !inHandler
      ensures var s := old(View()).(status := IdleMode);
        && (running <==> Fires(s, true))
        && View() ==
           if running
             then FireDue(handlers, Checked(handlers, s, true)).(yieldOnReturn := false, status := SystemMode)
             else Checked(handlers, s, true)
      ensures var q := old(pending.View());
        running <==> q != [] && !(|q| == 1 && q[0].item.kind == TimerInt)
      ensures var q := old(pending.View());
        totalTicks == if q != [] && q[0].key > old(totalTicks) then q[0].key else old(totalTicks)
      ensures idleTicks - old(idleTicks) == totalTicks - old(totalTicks)
      ensures running ==> old(fired) + [old(pending.View())[0]] <= fired && status == SystemMode && !yieldOnReturn
      ensures !running ==> fired == old(fired) && multiset(pending.View()) == multiset(old(pending.View()))
      ensures fresh(pending.repr - old(pending.repr))
    {
      hide FireDue, Legal, Checked, Fires, List.Valid, List.View;
      status := IdleMode;
      running := CheckIfDue(true);
      if running {
        FireDueAdds(handlers, View());
        FireAll();
        yieldOnReturn := false;
        status := SystemMode;
      }
    }
  }

  lemma NoneAsked(p: seq<Elem<Pending>>, m: multiset<Elem<Pending>>, now: int)
    ensures AllInserted(p, now, []) == p && AllAsked(m, now, []) == m
  {}

  lemma OneMore(p: seq<Elem<Pending>>, m: multiset<Elem<Pending>>, now: int, rs: seq<Request>, i: nat)
    requires i < |rs|
    ensures var e := Elem(now + rs[i].fromNow, rs[i].what);
      && AllInserted(p, now, rs[..i + 1]) == Inserted(AllInserted(p, now, rs[..i]), e)
      && AllAsked(m, now, rs[..i + 1]) == AllAsked(m, now, rs[..i]) + multiset{e}
  {
    hide Inserted;
    assert rs[..i + 1][..i] == rs[..i];
  }

  lemma LegalCall(h: Handlers, n: nat)
    requires Legal(h)
    ensures forall i :: 0 <= i < |h(n).requests| ==> h(n).requests[i].fromNow > 0
  {}

  // ---- Runs -------------------------------------------------------------------------------------------

  predicate Requested(s: State, s': State, r: Request) {
    r.fromNow > 0 && s' == Asked(s, r)
  }

  predicate Switched(s: State, s': State, level: IntStatus, status: MachineStatus) {
    s' == s.(level := level, status := status)
  }

  function Idled(s: State): State { s.(status := IdleMode) }

  /** One thing that happens outside handlers: a tick; an idle jump, after which the machine
      runs or halts; a device's request; a change of level or mode that is no tick. */
  ghost predicate TimeStep(h: Handlers, s: State, s': State)
    requires Legal(h)
  {
    || s' == Opened(FireDue(h, Ticked(s)))
    || s' == Checked(h, Idled(s), true)
    || s' == FireDue(h, Checked(h, Idled(s), true)).(yieldOnReturn := false, status := SystemMode)
    || (exists r: Request :: Requested(s, s', r))
    || (exists level: IntStatus, status: MachineStatus :: Switched(s, s', level, status))
  }

  /** The invariant is about the queue, the histories and the clock. */
  lemma SameTime(s: State, s': State)
    requires TimeInv(s) && s.now <= s'.now
    requires s'.pending == s.pending && s'.asked == s.asked && s'.fired == s.fired && s'.firedAt == s.firedAt
    ensures TimeInv(s')
  {
    hide Sorted, NotBefore;
  }

  lemma TimeStepKeeps(h: Handlers, s: State, s': State)
    requires Legal(h) && TimeInv(s) && TimeStep(h, s, s')
    ensures TimeInv(s') && s.now <= s'.now && s.fired <= s'.fired
  {
    hide TimeInv, FireDue, Checked, Inserted;
    SameTime(s, Ticked(s));
    FireDueExact(h, Ticked(s));
    SameTime(FireDue(h, Ticked(s)), Opened(FireDue(h, Ticked(s))));
    SameTime(s, Idled(s));
    var c := Checked(h, Idled(s), true);
    CheckedKeeps(h, Idled(s), true);
    FireDueExact(h, c);
    SameTime(FireDue(h, c), FireDue(h, c).(yieldOnReturn := false, status := SystemMode));
    if r: Request :| Requested(s, s', r) {
      AskedKeeps(s, r);
    } else if level: IntStatus, status: MachineStatus :| Switched(s, s', level, status) {
      SameTime(s, s');
    }
  }

  ghost predicate TimeRun(h: Handlers, ss: seq<State>)
    requires Legal(h)
  {
    && ss != [] && ss[0] == State(IntOff, [], false, SystemMode, 0, 0, multiset{}, [], [])
    && forall i: nat :: i + 1 < |ss| ==> TimeStep(h, ss[i], ss[i + 1])
  }

  /** Over every run: interrupts fire in the order of their times and none early, each one asked
      for is pending or has fired, once, and the queue is sorted. */
  lemma {:induction false} FiringOrder(h: Handlers, ss: seq<State>, n: nat)
    requires Legal(h) && TimeRun(h, ss) && n < |ss|
    ensures TimeInv(ss[n])
  {
    hide TimeInv, TimeStep;
    if n == 0 {
      Fresh();
    } else {
      FiringOrder(h, ss, n - 1);
      TimeStepKeeps(h, ss[n - 1], ss[n]);
    }
  }

  lemma Fresh()
    ensures TimeInv(State(IntOff, [], false, SystemMode, 0, 0, multiset{}, [], []))
  {}

  /** The clock and the firings only grow. */
  lemma {:induction false} TimeGrows(h: Handlers, ss: seq<State>, i: nat, j: nat)
    requires Legal(h) && TimeRun(h, ss) && i <= j < |ss|
    ensures ss[i].now <= ss[j].now && ss[i].fired <= ss[j].fired
  {
    hide TimeInv, TimeStep;
    if i < j {
      TimeGrows(h, ss, i, j - 1);
      FiringOrder(h, ss, j - 1);
      TimeStepKeeps(h, ss[j - 1], ss[j]);
    }
  }

  /** After a tick nothing pending is due, in kernel and user mode alike. */
  lemma NothingDueAfterTick(h: Handlers, ss: seq<State>, n: nat)
    requires Legal(h) && TimeRun(h, ss) && n < |ss| && ss[n].status != IdleMode
    ensures var s' := Opened(FireDue(h, Ticked(ss[n])));
      && s'.now == Ticked(ss[n]).now
      && forall i :: 0 <= i < |s'.pending| ==> s'.pending[i].key > s'.now
  {
    hide FireDue, NotBefore;
    FiringOrder(h, ss, n);
    SameTime(ss[n], Ticked(ss[n]));
    FireDueExact(h, Ticked(ss[n]));
    var s' := FireDue(h, Ticked(ss[n]));
    NoneDue(s'.pending, s'.now);
  }

  /** An idle machine jumps to the earliest interrupt, no further, and fires it. */
  lemma IdleJump(h: Handlers, s: State)
    requires Legal(h) && TimeInv(s) && Fires(Idled(s), true)
    ensures var s' := Checked(h, Idled(s), true);
      && s'.now == (if s.pending[0].key > s.now then s.pending[0].key else s.now)
      && s'.idleTicks - s.idleTicks == s'.now - s.now
      && s'.fired == s.fired + [s.pending[0]]
      && forall i :: 0 <= i < |s.pending| ==> s.pending[0].key <= s.pending[i].key
  {
    SameTime(s, Idled(s));
    CheckedKeeps(h, Idled(s), true);
    FiredRest(h, Advanced(Idled(s)));
  }
}
