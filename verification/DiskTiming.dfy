/** machine/disk.cc: how long a request takes, and what the track buffer holds. */
module DiskTiming {
  import opened Arithmetic

  /** The constants of machine/disk.h and machine/stats.h. */
  datatype Params = Params(sectorsPerTrack: nat, numTracks: nat, seekTime: nat, rotationTime: nat) {
    predicate Valid() { sectorsPerTrack > 0 && numTracks > 0 && seekTime > 0 && rotationTime > 0 }

    function NumSectors(): nat { sectorsPerTrack * numTracks }
  }

  function Distance(a: int, b: int): nat { if a <= b then b - a else a - b }

  /** Ticks to move the head from one sector's track to another's. */
  function Seek(p: Params, lastSector: nat, newSector: nat): nat
    requires p.Valid()
  {
    Distance(newSector / p.sectorsPerTrack, lastSector / p.sectorsPerTrack) * p.seekTime
  }

  /** Ticks from a time to the next sector boundary. */
  function Rotation(p: Params, time: nat): (r: nat)
    requires p.Valid()
    ensures r < p.rotationTime && (time + r) % p.rotationTime == 0
  {
    var over := time % p.rotationTime;
    DivMod(time, p.rotationTime);
    if over > 0 then
      Boundary(p, time);
      p.rotationTime - over
    else 0
  }

  lemma Boundary(p: Params, time: nat)
    requires p.Valid()
    ensures (time + p.rotationTime - time % p.rotationTime) % p.rotationTime == 0
  {
    DivMod(time, p.rotationTime);
    var q := time / p.rotationTime;
    assert time + p.rotationTime - time % p.rotationTime == (q + 1) * p.rotationTime + 0;
    DivUnique(time + p.rotationTime - time % p.rotationTime, p.rotationTime, q + 1, 0);
  }

  /** Sectors the track turns from under sector `from` to under sector `to`. */
  function ModuloDiff(p: Params, to: nat, from: nat): (n: nat)
    requires p.Valid()
    ensures n < p.sectorsPerTrack && (from + n) % p.sectorsPerTrack == to % p.sectorsPerTrack
  {
    var toOffset, fromOffset := to % p.sectorsPerTrack, from % p.sectorsPerTrack;
    TurnsTo(p.sectorsPerTrack, to, from);
    ((toOffset - fromOffset) + p.sectorsPerTrack) % p.sectorsPerTrack
  }

  lemma TurnsTo(s: nat, to: nat, from: nat)
    requires s > 0
    ensures var n := (to % s - from % s + s) % s; 0 <= n < s && (from + n) % s == to % s
  {
    DivMod(to, s);
    DivMod(from, s);
    var x := to % s - from % s;
    if x >= 0 {
      DivUnique(x + s, s, 1, x);
      DivUnique(from + x, s, from / s, to % s);
    } else {
      DivUnique(x + s, s, 0, x + s);
      assert (from / s + 1) * s == from / s * s + s;
      DivUnique(from + x + s, s, from / s + 1, to % s);
    }
  }

  /** The head's time over the track, rounded up to a sector boundary. */
  function TimeAfter(p: Params, lastSector: nat, newSector: nat, now: nat): (t: nat)
    requires p.Valid()
    ensures t % p.rotationTime == 0 && now <= t
  {
    now + Seek(p, lastSector, newSector) + Rotation(p, now + Seek(p, lastSector, newSector))
  }

  /** The track buffer test; C's quotient rounds a negative difference toward zero. */
  predicate InBuffer(p: Params, lastSector: nat, bufferInit: nat, newSector: nat, writing: bool, now: nat)
    requires p.Valid()
  {
    && !writing && Seek(p, lastSector, newSector) == 0
    && TimeAfter(p, lastSector, newSector, now) >= bufferInit
    && (TimeAfter(p, lastSector, newSector, now) - bufferInit) / p.rotationTime
       > ModuloDiff(p, newSector, bufferInit / p.rotationTime)
  }

  function Latency(p: Params, lastSector: nat, bufferInit: nat, newSector: nat, writing: bool, now: nat): nat
    requires p.Valid()
  {
    if InBuffer(p, lastSector, bufferInit, newSector, writing, now) then p.rotationTime
    else
      var after := TimeAfter(p, lastSector, newSector, now);
      after - now + ModuloDiff(p, newSector, after / p.rotationTime) * p.rotationTime + p.rotationTime
  }

  // ---- The same, by what a caller sees ----------------------------------------------------------

  /** The first slot boundary at which the head, having left its track at `now`, can be over the
      track of newSector. */
  predicate Arrives(p: Params, lastSector: nat, newSector: nat, now: nat, after: nat)
    requires p.Valid()
  {
    var tracks := newSector / p.sectorsPerTrack - lastSector / p.sectorsPerTrack;
    var there := now + (if tracks < 0 then -tracks else tracks) * p.seekTime;
    after % p.rotationTime == 0 && there <= after < there + p.rotationTime
  }

  /** Slot k, the time from k to k + 1 rotations, lies in an interval and is newSector's. */
  predicate Passed(p: Params, newSector: nat, from: nat, until: nat, k: nat)
    requires p.Valid()
  {
    && from <= k * p.rotationTime && (k + 1) * p.rotationTime <= until
    && k % p.sectorsPerTrack == newSector % p.sectorsPerTrack
  }

  /** Slot k is the first of newSector from a slot boundary on. */
  predicate NextSlot(p: Params, newSector: nat, after: nat, k: nat)
    requires p.Valid()
  {
    && after <= k * p.rotationTime < after + p.sectorsPerTrack * p.rotationTime
    && k % p.sectorsPerTrack == newSector % p.sectorsPerTrack
  }

  /** The request takes this long: one sector's time if it is a read of a sector that passed the
      head, whole, since the buffer was started on its track; otherwise until the first slot of
      the sector after the head's arrival has passed. */
  ghost predicate Served(p: Params, lastSector: nat, bufferInit: nat, newSector: nat, writing: bool, now: nat,
                         ticks: nat)
    requires p.Valid()
  {
    exists after: nat ::
      && Arrives(p, lastSector, newSector, now, after)
      && if !writing && newSector / p.sectorsPerTrack == lastSector / p.sectorsPerTrack
            && exists k: nat :: Passed(p, newSector, bufferInit, after, k)
           then ticks == p.rotationTime
           else exists k: nat :: NextSlot(p, newSector, after, k) && now + ticks == (k + 1) * p.rotationTime
  }

  class Drive {
    const p: Params
    var lastSector: nat
    var bufferInit: nat
    var active: bool

    constructor (p: Params)
      ensures this.p == p && lastSector == 0 && bufferInit == 0 && !active
    {
      this.p := p;
      lastSector, bufferInit, active := 0, 0, false;
    }

    method TimeToSeek(newSector: nat, now: nat) returns (seek: nat, rotation: nat)
      requires p.Valid()
      ensures seek == Seek(p, lastSector, newSector)
      ensures now + seek + rotation == TimeAfter(p, lastSector, newSector, now)
      ensures Arrives(p, lastSector, newSector, now, now + seek + rotation)
      ensures seek == 0 <==> newSector / p.sectorsPerTrack == lastSector / p.sectorsPerTrack
    {
      ArrivesAfter(p, lastSector, newSector, now);
      SameTrack(p, lastSector, newSector);
      hide Arrives;
      var newTrack, oldTrack := newSector / p.sectorsPerTrack, lastSector / p.sectorsPerTrack;
      seek := Distance(newTrack, oldTrack) * p.seekTime;
      var over := (now + seek) % p.rotationTime;
      rotation := 0;
      if over > 0 { rotation := p.rotationTime - over; }
    }

    method ComputeLatency(newSector: nat, writing: bool, now: nat) returns (ticks: nat)
      requires p.Valid()
      ensures ticks == Latency(p, lastSector, bufferInit, newSector, writing, now)
      ensures bufferInit % p.rotationTime == 0 ==> Served(p, lastSector, bufferInit, newSector, writing, now, ticks)
    {
      hide Served, Arrives, Seek, TimeAfter, ModuloDiff, Rotation;
      if bufferInit % p.rotationTime == 0 { ServedSo(p, lastSector, bufferInit, newSector, writing, now); }
      var seek, rotation := TimeToSeek(newSector, now);
      var timeAfter := now + seek + rotation;
      if !writing && seek == 0 && timeAfter >= bufferInit
        && (timeAfter - bufferInit) / p.rotationTime > ModuloDiff(p, newSector, bufferInit / p.rotationTime) {
        return p.rotationTime;
      }
      rotation := rotation + ModuloDiff(p, newSector, timeAfter / p.rotationTime) * p.rotationTime;
      ticks := seek + rotation + p.rotationTime;
    }

    method UpdateLast(newSector: nat, now: nat)
      requires p.Valid()
      modifies this
      ensures active == old(active) && lastSector == newSector
      ensures bufferInit ==
        if Seek(p, old(lastSector), newSector) != 0 then TimeAfter(p, old(lastSector), newSector, now)
        else old(bufferInit)
      ensures if newSector / p.sectorsPerTrack == old(lastSector) / p.sectorsPerTrack
        then bufferInit == old(bufferInit)
        else Arrives(p, old(lastSector), newSector, now, bufferInit)
    {
      hide Arrives;
      var seek, rotate := TimeToSeek(newSector, now);
      if seek != 0 { bufferInit := now + seek + rotate; }
      lastSector := newSector;
    }

    /** The timing half of ReadRequest and WriteRequest: when the interrupt is due. */
    method Request(newSector: nat, writing: bool, now: nat) returns (doneAt: nat)
      requires p.Valid() && !active && newSector < p.NumSectors()
      modifies this
      ensures active && lastSector == newSector
      ensures doneAt == now + Latency(p, old(lastSector), old(bufferInit), newSector, writing, now)
      ensures bufferInit ==
        if Seek(p, old(lastSector), newSector) != 0 then TimeAfter(p, old(lastSector), newSector, now)
        else old(bufferInit)
      ensures old(bufferInit) % p.rotationTime == 0 && doneAt >= now ==>
        Served(p, old(lastSector), old(bufferInit), newSector, writing, now, doneAt - now)
      ensures doneAt >= now
      ensures if newSector / p.sectorsPerTrack == old(lastSector) / p.sectorsPerTrack
        then bufferInit == old(bufferInit)
        else Arrives(p, old(lastSector), newSector, now, bufferInit)
    {
      hide Arrives, Served, Latency, Seek, TimeAfter;
      var ticks := ComputeLatency(newSector, writing, now);
      active := true;
      UpdateLast(newSector, now);
      doneAt := now + ticks;
    }

    method HandleInterrupt()
      modifies this
      ensures !active && lastSector == old(lastSector) && bufferInit == old(bufferInit)
    {
      active := false;
    }
  }

  // ---- What the times mean ----------------------------------------------------------------------

  /** A request that misses the buffer completes just as the head has passed its sector: at a
      slot boundary, and the slot that ends there is the sector's. */
  lemma MissEndsAtSector(p: Params, lastSector: nat, bufferInit: nat, newSector: nat, writing: bool, now: nat)
    requires p.Valid() && !InBuffer(p, lastSector, bufferInit, newSector, writing, now)
    ensures var done := now + Latency(p, lastSector, bufferInit, newSector, writing, now);
      && done % p.rotationTime == 0
      && done / p.rotationTime >= 1
      && (done / p.rotationTime - 1) % p.sectorsPerTrack == newSector % p.sectorsPerTrack
      && done - p.rotationTime >= TimeAfter(p, lastSector, newSector, now)
  {
    var r := p.rotationTime;
    var after := TimeAfter(p, lastSector, newSector, now);
    var n := ModuloDiff(p, newSector, after / r);
    hide TimeAfter, InBuffer, ModuloDiff;
    DivMod(after, r);
    assert after + n * r + r == (after / r + n + 1) * r + 0;
    DivUnique(after + n * r + r, r, after / r + n + 1, 0);
    MulOrder(0, n, r);
    DivBound(after, r, 0);
  }

  /** The bounds: at least one sector's transfer, so the interrupt is in the future; at most a
      full sweep of the head, a partial sector and a full rotation. */
  lemma LatencyBounds(p: Params, lastSector: nat, bufferInit: nat, newSector: nat, writing: bool, now: nat)
    requires p.Valid() && lastSector < p.NumSectors() && newSector < p.NumSectors()
    ensures var ticks := Latency(p, lastSector, bufferInit, newSector, writing, now);
      && p.rotationTime <= ticks
      && ticks <= (p.numTracks - 1) * p.seekTime + (p.rotationTime - 1) + p.sectorsPerTrack * p.rotationTime
  {
    var after := TimeAfter(p, lastSector, newSector, now);
    var n := ModuloDiff(p, newSector, after / p.rotationTime);
    TrackOf(p, lastSector);
    TrackOf(p, newSector);
    var tracks := Distance(newSector / p.sectorsPerTrack, lastSector / p.sectorsPerTrack);
    MulOrder(tracks, p.numTracks - 1, p.seekTime);
    MulOrder(n + 1, p.sectorsPerTrack, p.rotationTime);
    MulOrder(1, p.sectorsPerTrack, p.rotationTime);
    MulOrder(0, n, p.rotationTime);
    MulOrder(0, p.numTracks - 1, p.seekTime);
    assert (n + 1) * p.rotationTime == n * p.rotationTime + p.rotationTime;
    hide InBuffer, ModuloDiff, Rotation;
  }

  lemma TrackOf(p: Params, sector: nat)
    requires p.Valid() && sector < p.NumSectors()
    ensures 0 <= sector / p.sectorsPerTrack <= p.numTracks - 1
  {
    assert p.NumSectors() == p.numTracks * p.sectorsPerTrack;
    DivBound(sector, p.sectorsPerTrack, p.numTracks);
    DivBound(sector, p.sectorsPerTrack, 0);
  }

  /** A hit is sound: the whole sector passed the head since the buffer was started. */
  lemma HitHasSector(p: Params, lastSector: nat, bufferInit: nat, newSector: nat, writing: bool, now: nat)
    requires p.Valid() && InBuffer(p, lastSector, bufferInit, newSector, writing, now)
    requires bufferInit % p.rotationTime == 0
    ensures newSector / p.sectorsPerTrack == lastSector / p.sectorsPerTrack
    ensures exists k: nat :: Passed(p, newSector, bufferInit, TimeAfter(p, lastSector, newSector, now), k)
  {
    var until := TimeAfter(p, lastSector, newSector, now);
    var n := ModuloDiff(p, newSector, bufferInit / p.rotationTime);
    SameTrack(p, lastSector, newSector);
    SlotAt(p.rotationTime, bufferInit, n, until);
    hide TimeAfter, ModuloDiff, Seek;
    assert Passed(p, newSector, bufferInit, until, bufferInit / p.rotationTime + n);
  }

  /** And complete: when a whole slot of the sector passed on the same track, a read hits. */
  lemma SectorHasHit(p: Params, lastSector: nat, bufferInit: nat, newSector: nat, now: nat, k: nat)
    requires p.Valid() && bufferInit % p.rotationTime == 0
    requires newSector / p.sectorsPerTrack == lastSector / p.sectorsPerTrack
    requires Passed(p, newSector, bufferInit, TimeAfter(p, lastSector, newSector, now), k)
    ensures InBuffer(p, lastSector, bufferInit, newSector, false, now)
  {
    hide TimeAfter, ModuloDiff, Seek;
    var until := TimeAfter(p, lastSector, newSector, now);
    var first := bufferInit / p.rotationTime;
    var n := ModuloDiff(p, newSector, first);
    SameTrack(p, lastSector, newSector);
    FirstSlot(p.rotationTime, bufferInit, k);
    LeastTurn(p.sectorsPerTrack, first, newSector, n, k);
    SlotsBetween(p.rotationTime, bufferInit, until, n, k);
  }

  lemma FirstSlot(r: nat, start: nat, k: nat)
    requires r > 0 && start % r == 0 && start <= k * r
    ensures 0 <= start / r <= k
  {
    DivMod(start, r);
    DivBound(start, r, 0);
    MulAtMost(start / r, k, r);
  }

  lemma SlotsBetween(r: nat, start: nat, until: int, n: nat, k: nat)
    requires r > 0 && start % r == 0 && start / r + n <= k && (k + 1) * r <= until
    ensures until >= start && (until - start) / r > n
  {
    DivMod(start, r);
    var first := start / r;
    MulOrder(first + n + 1, k + 1, r);
    assert (first + n + 1) * r == first * r + (n + 1) * r;
    MulOrder(0, n + 1, r);
    DivBound(until - start, r, n + 1);
  }

  lemma MulAtMost(a: int, b: int, r: nat)
    requires r > 0 && a * r <= b * r
    ensures a <= b
  {
    if a > b { MulOrder(b + 1, a, r); }
  }

  /** Fewer turns than a track has sectors, so no earlier slot from here on is the sector's. */
  lemma LeastTurn(s: nat, from: nat, to: nat, n: nat, k: nat)
    requires s > 0 && n < s && (from + n) % s == to % s == k % s && from <= k
    ensures from + n <= k
  {
    DivMod(from + n, s);
    DivMod(k, s);
    var m := (from + n) / s - k / s;
    assert from + n - k == m * s;
    if m <= 0 { MulOrder(m, 0, s); } else { MulOrder(1, m, s); }
  }

  lemma ArrivesAfter(p: Params, lastSector: nat, newSector: nat, now: nat)
    requires p.Valid()
    ensures Arrives(p, lastSector, newSector, now, TimeAfter(p, lastSector, newSector, now))
  {}

  /** Latency is what a caller sees. */
  lemma ServedSo(p: Params, lastSector: nat, bufferInit: nat, newSector: nat, writing: bool, now: nat)
    requires p.Valid() && bufferInit % p.rotationTime == 0
    ensures Served(p, lastSector, bufferInit, newSector, writing, now,
                   Latency(p, lastSector, bufferInit, newSector, writing, now))
  {
    var after := TimeAfter(p, lastSector, newSector, now);
    var ticks := Latency(p, lastSector, bufferInit, newSector, writing, now);
    ArrivesAfter(p, lastSector, newSector, now);
    hide Arrives, InBuffer, Passed, NextSlot, TimeAfter, Latency;
    if InBuffer(p, lastSector, bufferInit, newSector, writing, now) {
      HitTakes(p, lastSector, bufferInit, newSector, writing, now);
      HitHasSector(p, lastSector, bufferInit, newSector, writing, now);
    } else {
      if !writing && newSector / p.sectorsPerTrack == lastSector / p.sectorsPerTrack {
        if k: nat :| Passed(p, newSector, bufferInit, after, k) {
          SectorHasHit(p, lastSector, bufferInit, newSector, now, k);
        }
      }
      var k := MissSlot(p, lastSector, bufferInit, newSector, writing, now);
    }
  }

  lemma HitTakes(p: Params, lastSector: nat, bufferInit: nat, newSector: nat, writing: bool, now: nat)
    requires p.Valid() && InBuffer(p, lastSector, bufferInit, newSector, writing, now)
    ensures !writing && Latency(p, lastSector, bufferInit, newSector, writing, now) == p.rotationTime
  {}

  lemma MissSlot(p: Params, lastSector: nat, bufferInit: nat, newSector: nat, writing: bool, now: nat) returns (k: nat)
    requires p.Valid() && !InBuffer(p, lastSector, bufferInit, newSector, writing, now)
    ensures NextSlot(p, newSector, TimeAfter(p, lastSector, newSector, now), k)
    ensures now + Latency(p, lastSector, bufferInit, newSector, writing, now) == (k + 1) * p.rotationTime
  {
    hide TimeAfter, InBuffer, ModuloDiff;
    var done := now + Latency(p, lastSector, bufferInit, newSector, writing, now);
    MissEndsAtSector(p, lastSector, bufferInit, newSector, writing, now);
    MissSoon(p, lastSector, bufferInit, newSector, writing, now);
    hide Latency;
    DivMod(done, p.rotationTime);
    k := done / p.rotationTime - 1;
    assert k * p.rotationTime == done / p.rotationTime * p.rotationTime - p.rotationTime;
  }

  lemma MissSoon(p: Params, lastSector: nat, bufferInit: nat, newSector: nat, writing: bool, now: nat)
    requires p.Valid() && !InBuffer(p, lastSector, bufferInit, newSector, writing, now)
    ensures now + Latency(p, lastSector, bufferInit, newSector, writing, now) - p.rotationTime
      < TimeAfter(p, lastSector, newSector, now) + p.sectorsPerTrack * p.rotationTime
  {
    hide TimeAfter, InBuffer;
    var n := ModuloDiff(p, newSector, TimeAfter(p, lastSector, newSector, now) / p.rotationTime);
    MulOrder(n + 1, p.sectorsPerTrack, p.rotationTime);
    assert (n + 1) * p.rotationTime == n * p.rotationTime + p.rotationTime;
  }

  lemma SlotAt(r: nat, start: nat, n: nat, until: nat)
    requires r > 0 && start % r == 0 && until >= start && (until - start) / r > n
    ensures var k := start / r + n; k >= 0 && start <= k * r && (k + 1) * r <= until
  {
    DivMod(start, r);
    DivBound(start, r, 0);
    DivBound(until - start, r, n + 1);
    MulOrder(0, n, r);
    var q := start / r;
    assert (q + n) * r == q * r + n * r;
    assert (q + n + 1) * r == q * r + (n + 1) * r;
  }

  lemma SameTrack(p: Params, lastSector: nat, newSector: nat)
    requires p.Valid()
    ensures Seek(p, lastSector, newSector) == 0 <==> newSector / p.sectorsPerTrack == lastSector / p.sectorsPerTrack
  {
    MulOrder(1, Distance(newSector / p.sectorsPerTrack, lastSector / p.sectorsPerTrack), p.seekTime);
  }

  // ---- Every run of the drive -------------------------------------------------------------------

  /** The drive on the clock. doneAt is when the request in progress is due. track and since
      are where the head has been reading, and from when. */
  datatype DriveWorld = DriveWorld(now: nat, lastSector: nat, bufferInit: nat, active: bool, doneAt: nat,
                                   track: nat, since: nat)

  predicate Passes(w: DriveWorld, w': DriveWorld) {
    w.now <= w'.now && w' == w.(now := w'.now)
  }

  predicate Requests(p: Params, w: DriveWorld, w': DriveWorld, newSector: nat, writing: bool)
    requires p.Valid()
  {
    && !w.active && newSector < p.NumSectors()
    && var seeks := Seek(p, w.lastSector, newSector) != 0;
      var arrival := TimeAfter(p, w.lastSector, newSector, w.now);
      w' == w.(lastSector := newSector, active := true,
               bufferInit := if seeks then arrival else w.bufferInit,
               doneAt := w.now + Latency(p, w.lastSector, w.bufferInit, newSector, writing, w.now),
               track := newSector / p.sectorsPerTrack,
               since := if newSector / p.sectorsPerTrack == w.track then w.since else arrival)
  }

  /** The interrupt does not come early. */
  predicate Completes(w: DriveWorld, w': DriveWorld) {
    w.active && w.now >= w.doneAt && w' == w.(active := false)
  }

  ghost predicate DriveStep(p: Params, w: DriveWorld, w': DriveWorld)
    requires p.Valid()
  {
    || Passes(w, w') || Completes(w, w')
    || exists newSector: nat, writing: bool :: Requests(p, w, w', newSector, writing)
  }

  /** bufferInit is a slot boundary, the moment the head reached the track it is on, and never
      in the future when a request can be made. */
  predicate DriveInv(p: Params, w: DriveWorld)
    requires p.Valid()
  {
    && w.lastSector < p.NumSectors() && w.track == w.lastSector / p.sectorsPerTrack && w.since == w.bufferInit
    && w.bufferInit % p.rotationTime == 0
    && w.bufferInit <= (if w.active && w.now < w.doneAt then w.doneAt else w.now)
  }

  lemma RequestKeeps(p: Params, w: DriveWorld, w': DriveWorld, newSector: nat, writing: bool)
    requires p.Valid() && DriveInv(p, w) && Requests(p, w, w', newSector, writing)
    ensures DriveInv(p, w')
  {
    SameTrack(p, w.lastSector, newSector);
    hide Seek, ModuloDiff, TimeAfter;
    if Seek(p, w.lastSector, newSector) != 0 {
      MissEndsAtSector(p, w.lastSector, w.bufferInit, newSector, writing, w.now);
    }
    hide Latency;
  }

  lemma DriveStepKeeps(p: Params, w: DriveWorld, w': DriveWorld)
    requires p.Valid() && DriveInv(p, w) && DriveStep(p, w, w')
    ensures DriveInv(p, w')
  {
    hide Latency, Seek, TimeAfter;
    if newSector: nat, writing: bool :| Requests(p, w, w', newSector, writing) {
      RequestKeeps(p, w, w', newSector, writing);
    }
  }

  ghost predicate DriveRun(p: Params, ws: seq<DriveWorld>)
    requires p.Valid()
  {
    && ws != [] && ws[0].lastSector == ws[0].bufferInit == ws[0].track == ws[0].since == 0 && !ws[0].active
    && forall i: nat :: i + 1 < |ws| ==> DriveStep(p, ws[i], ws[i + 1])
  }

  lemma {:induction false} DriveReachable(p: Params, ws: seq<DriveWorld>, n: nat)
    requires p.Valid() && DriveRun(p, ws) && n < |ws|
    ensures DriveInv(p, ws[n])
  {
    hide Latency, Seek, TimeAfter;
    if n == 0 {
      Start(p);
    } else {
      DriveReachable(p, ws, n - 1);
      DriveStepKeeps(p, ws[n - 1], ws[n]);
    }
  }

  lemma Start(p: Params)
    requires p.Valid()
    ensures 0 < p.NumSectors() && 0 / p.sectorsPerTrack == 0 && 0 % p.rotationTime == 0
  {
    MulOrder(1, p.numTracks, p.sectorsPerTrack);
    DivUnique(0, p.sectorsPerTrack, 0, 0);
    DivUnique(0, p.rotationTime, 0, 0);
  }

  /** In every run, a read answered from the track buffer is of a sector that passed the head,
      whole, after the head came to that track. */
  lemma BufferSound(p: Params, ws: seq<DriveWorld>, n: nat, newSector: nat, writing: bool)
    requires p.Valid() && DriveRun(p, ws) && n < |ws|
    requires InBuffer(p, ws[n].lastSector, ws[n].bufferInit, newSector, writing, ws[n].now)
    ensures newSector / p.sectorsPerTrack == ws[n].track
    ensures exists k: nat :: Passed(p, newSector, ws[n].since, TimeAfter(p, ws[n].lastSector, newSector, ws[n].now), k)
    ensures !ws[n].active ==> ws[n].since <= ws[n].now
  {
    hide InBuffer, TimeAfter, Passed;
    DriveReachable(p, ws, n);
    HitHasSector(p, ws[n].lastSector, ws[n].bufferInit, newSector, writing, ws[n].now);
  }

  /** And every request of every run takes as long as the sectors that passed since the head came
      to the track say. */
  lemma BufferExact(p: Params, ws: seq<DriveWorld>, n: nat, newSector: nat, writing: bool)
    requires p.Valid() && DriveRun(p, ws) && n + 1 < |ws| && Requests(p, ws[n], ws[n + 1], newSector, writing)
    ensures ws[n + 1].doneAt >= ws[n].now
    ensures Served(p, ws[n].lastSector, ws[n].since, newSector, writing, ws[n].now, ws[n + 1].doneAt - ws[n].now)
  {
    hide Latency, TimeAfter, Served, Seek;
    DriveReachable(p, ws, n);
    ServedSo(p, ws[n].lastSector, ws[n].bufferInit, newSector, writing, ws[n].now);
  }
}
