/** A hashed timer wheel: an array of first-in first-out slots, one tick each,
    that the clock turns. Its ghost queue is what the wheel means. */
module TimerWheels {
  import opened Arithmetic
  import opened TimerQueue
  import opened WheelTimes

  const MS_PER_SECOND := 1000

  /** "Infinitely far into the future". */
  const MAX_WHEEL_CYCLES := 999_999_999

  const NO_OUTSTANDING_TIMERS := -1

  lemma TurnLater(w: nat, t: int)
    requires w > 0
    ensures (t + w) % w == t % w
  {
    DivisionIsUnique(w, t + w, t / w + 1, t % w);
  }

  /** The slot a timer is put in is the slot of the tick at which it fires. */
  lemma SlotOfRequest(w: nat, now: int, interval: nat)
    requires w > 0
    ensures (now + interval) % w == FireTick(w, now, interval) % w
  {
    var q, r := (interval - 1) / w, (interval - 1) % w;
    var fire := now + 1 + r;
    assert now + interval == fire + q * w;
    DivisionIsUnique(w, now + interval, fire / w + q, fire % w);
  }

  /** All pending timers are due within one turn. */
  ghost predicate WithinTurn<T(!new)>(p: seq<Entry<T>>, now: int, w: nat) {
    forall e :: e in p ==> now < e.fire <= now + w
  }

  ghost predicate Holds<T(!new)>(slots: seq<seq<T>>, p: seq<Entry<T>>) {
    forall s :: 0 <= s < |slots| ==> slots[s] == Data(Filter(p, Slot(s, |slots|)))
  }

  lemma PutInSlot<T(!new)>(slots: seq<seq<T>>, p: seq<Entry<T>>, e: Entry<T>, now: int)
    requires slots != [] && Holds(slots, p) && WithinTurn(p, now, |slots|)
    requires now < e.fire <= now + |slots|
    ensures var s := e.fire % |slots|;
            Holds(slots[s := slots[s] + [e.data]], p + [e]) && WithinTurn(p + [e], now, |slots|)
  {
    var w := |slots|;
    var after := slots[e.fire % w := slots[e.fire % w] + [e.data]];
    forall s | 0 <= s < w
      ensures after[s] == Data(Filter(p + [e], Slot(s, w)))
    {
      FilterAppend(p, e, Slot(s, w));
      var r := Filter(p, Slot(s, w));
      assert Data(r + [e]) == Data(r) + [e.data];
      assert r + [] == r;
    }
  }

  /** Turning the wheel by one tick empties the slot of that tick, which held
      exactly the timers due at it, and leaves the other slots alone. */
  lemma TurnOneTick<T(!new)>(p: seq<Entry<T>>, t: int, w: nat)
    requires w > 0 && WithinTurn(p, t - 1, w)
    ensures Filter(p, Slot(t % w, w)) == Filter(p, At(t))
    ensures Filter(Filter(p, Later(t)), Slot(t % w, w)) == []
    ensures forall s :: s != t % w ==> Filter(Filter(p, Later(t)), Slot(s, w)) == Filter(p, Slot(s, w))
    ensures WithinTurn(Filter(p, Later(t)), t, w)
    ensures |Filter(p, At(t))| + |Filter(p, Later(t))| == |p|
  {
    forall e | e in p
      ensures e.fire % w == t % w <==> e.fire == t
    {
      SameRemainder(w, e.fire, t);
    }
    FilterCongruence(p, Slot(t % w, w), At(t));
    FilterNone(Filter(p, Later(t)), Slot(t % w, w));
    forall s | s != t % w
      ensures Filter(Filter(p, Later(t)), Slot(s, w)) == Filter(p, Slot(s, w))
    {
      FilterFilter(p, Later(t), Slot(s, w));
    }
    FilterSplits(p, t);
  }

  /** Expiry one tick at a time is expiry in one go. */
  lemma ExpireOneMoreTick<T(!new)>(q: Queue<T>, t: int)
    requires q.now <= t
    ensures Expire(Expire(q, t), t + 1) == Expire(q, t + 1)
    ensures Expire(q, t + 1).fired == Expire(q, t).fired + Filter(Expire(q, t).pending, At(t + 1))
  {
    FilterFilter(q.pending, Later(t), Later(t + 1));
    FilterFilter(q.pending, Later(t), At(t + 1));
    var p := Filter(q.pending, Later(t));
    assert DueBetween(p, t, t) == [];
    assert DueBetween(p, t, t + 1) == Filter(p, At(t + 1));
    assert q.fired + (DueBetween(q.pending, q.now, t) + Filter(p, At(t + 1)))
        == q.fired + DueBetween(q.pending, q.now, t) + Filter(p, At(t + 1));
  }

  /** A queue that has been expired up to its clock goes on tick by tick. */
  lemma ExpireNextTick<T(!new)>(start: Queue<T>, q: Queue<T>)
    requires start.now <= q.now && q == Expire(start, q.now)
    ensures var next := Expire(q, q.now + 1);
            && next == Expire(start, q.now + 1) && next.now == q.now + 1
            && next.pending == Filter(q.pending, Later(q.now + 1))
            && next.fired == q.fired + Filter(q.pending, At(q.now + 1))
  {
    ExpireOneMoreTick(start, q.now);
  }

  lemma ExpireNothing<T(!new)>(q: Queue<T>)
    requires forall e :: e in q.pending ==> e.fire > q.now
    ensures Expire(q, q.now) == q
  {
    FilterAll(q.pending, Later(q.now));
  }

  // ---------------------------------------------------------------------
  // Clock readings
  // ---------------------------------------------------------------------

  /** A call as the program makes it: at a clock reading in milliseconds, with an
      offset in seconds. */
  datatype ClockCall<T> = StartAt(now: int, offset: real, data: T) | PollAt(now: int)

  lemma TicksReached(res: nat, a: int, d: int, k: int)
    requires res > 0 && k * res <= d
    ensures (a + d) / res >= a / res + k
  {
    DivisionParts(res, a);
    DivisionParts(res, a + d);
    var q := (a + d) / res;
    assert (a / res + k) * res == a / res * res + k * res;
    if q < a / res + k {
      WholeTurns(res, q, a / res + k);
    }
  }

  lemma TicksNotReached(res: nat, a: int, d: int, k: int)
    requires res > 0 && d + res < k * res
    ensures (a + d) / res < a / res + k
  {
    DivisionParts(res, a);
    DivisionParts(res, a + d);
    var q := (a + d) / res;
    assert (a / res + k) * res == a / res * res + k * res;
    if q > a / res + k {
      WholeTurns(res, a / res + k, q);
    }
  }

  lemma TicksAreMonotone(res: nat, a: int, b: int)
    requires res > 0 && a <= b
    ensures a / res <= b / res
  {
    TicksReached(res, a, b - a, 0);
  }

  lemma OffsetInTicks(offset: real, res: nat, perSecond: nat, k: int)
    requires perSecond * res == MS_PER_SECOND && k == (offset * perSecond as real).Floor
    ensures (k * res) as real <= 1000.0 * offset < (k * res) as real + res as real
  {
    var ticks := offset * perSecond as real;
    assert k as real <= ticks < k as real + 1.0;
    assert (perSecond * res) as real == perSecond as real * res as real;
    assert ticks * res as real == offset * (perSecond as real * res as real);
    RealProduct(k as real, ticks, res as real);
    assert (k * res) as real == k as real * res as real;
  }

  lemma RealProduct(a: real, t: real, r: real)
    requires a <= t < a + 1.0 && r > 0.0
    ensures a * r <= t * r < a * r + r
  {
  }

  lemma FactorBounds(k: int, w: nat, res: nat, product: int, most: int)
    requires res > 0 && product == k * res && most == w * res
    requires 0 < product <= most
    ensures 1 <= k <= w
  {
    if k > w {
      WholeTurns(res, w, k);
    }
  }

  // ---------------------------------------------------------------------
  // The timer count
  // ---------------------------------------------------------------------

  function TotalLength<T(!new)>(slots: seq<seq<T>>): nat {
    if slots == [] then 0 else TotalLength(slots[..|slots| - 1]) + |slots[|slots| - 1]|
  }

  /** The timers of the first `k` slots. */
  function InSlots<T(!new)>(p: seq<Entry<T>>, w: nat, k: nat): nat {
    if k == 0 then 0 else InSlots(p, w, k - 1) + |Filter(p, Slot(k - 1, w))|
  }

  lemma {:induction false} NoneInSlots<T(!new)>(w: nat, k: nat)
    ensures InSlots<T>([], w, k) == 0
  {
    if k > 0 {
      NoneInSlots<T>(w, k - 1);
    }
  }

  /** One more timer is in one slot. */
  lemma {:induction false} OneMoreInSlots<T(!new)>(p: seq<Entry<T>>, e: Entry<T>, w: nat, k: nat)
    requires w > 0
    ensures InSlots(p + [e], w, k) == InSlots(p, w, k) + if e.fire % w < k then 1 else 0
  {
    hide Filter;
    if k > 0 {
      OneMoreInSlots(p, e, w, k - 1);
      FilterAppend(p, e, Slot(k - 1, w));
    }
  }

  lemma {:induction false} AllInSlots<T(!new)>(p: seq<Entry<T>>, w: nat)
    requires w > 0
    ensures InSlots(p, w, w) == |p|
  {
    hide InSlots;
    if p == [] {
      NoneInSlots<T>(w, w);
    } else {
      var n := |p| - 1;
      AllInSlots(p[..n], w);
      assert p == p[..n] + [p[n]];
      OneMoreInSlots(p[..n], p[n], w, w);
    }
  }

  lemma {:induction false} LengthOfSlots<T(!new)>(slots: seq<seq<T>>, p: seq<Entry<T>>, k: nat)
    requires k <= |slots| && Holds(slots, p)
    ensures TotalLength(slots[..k]) == InSlots(p, |slots|, k)
  {
    hide Filter;
    if k > 0 {
      LengthOfSlots(slots, p, k - 1);
      assert slots[..k][..k - 1] == slots[..k - 1];
    }
  }

  /** A start expires what is due, then adds its entry. */
  lemma StartIsStep<T(!new)>(w: nat, before: Queue<T>, now: int, interval: nat, data: T)
    requires w > 0
    ensures var q := Expire(before, now);
            && q.now == now
            && Step(w, before, Start(now, interval, data)) ==
               q.(started := q.started + 1, pending := q.pending + [Entry(q.started, FireTick(w, now, interval), data)])
  {
  }

  class TimerWheel<T(!new)> {
    const wheelSize: nat
    const ticksPerSecond: nat
    const resolution: nat
    const baseTime: int
    const lastTime: WheelTime
    const currentTime: WheelTime
    const nextTime: WheelTime
    const slots: array<seq<T>>
    var numberOfTimers: int
    /** What has been handed to the expiry callbacks so far, in call order. */
    var calls: seq<T>
    ghost var queue: Queue<T>

    ghost predicate Shape()
      reads this, lastTime, currentTime, nextTime
    {
      && wheelSize > 0 && slots.Length == wheelSize && resolution > 0
      && lastTime != currentTime && currentTime != nextTime && lastTime != nextTime
      && lastTime.Valid() && lastTime.wheelSize == wheelSize && lastTime.resolution == resolution
      && currentTime.Valid() && currentTime.wheelSize == wheelSize && currentTime.resolution == resolution
      && nextTime.Valid() && nextTime.wheelSize == wheelSize && nextTime.resolution == resolution
    }

    /** The slots, the count and the calls are those of the queue at the last tick processed. */
    ghost predicate InStep()
      reads this, slots, lastTime, currentTime, nextTime
    {
      && Shape()
      && queue.now == lastTime.Tick()
      && calls == Data(queue.fired)
      && numberOfTimers == |queue.pending|
      && WithinTurn(queue.pending, queue.now, wheelSize)
      && Holds(slots[..], queue.pending)
    }

    ghost predicate Valid()
      reads this, slots, lastTime, currentTime, nextTime
    {
      InStep() && currentTime.Tick() == queue.now
    }

    /** So a wheel whose queue has taken these steps has made that callback. */
    lemma CallbackIsMade(calls: seq<ClockCall<T>>, s: nat)
      requires InStep() && ticksPerSecond * resolution == MS_PER_SECOND
      requires Readings(calls) && s < |calls| && calls[s].StartAt?
      requires queue == Run(wheelSize, TickCalls(calls))
      requires resolution as real <= 1000.0 * calls[s].offset <= (wheelSize * resolution) as real
      requires calls[|calls| - 1].now as real >= calls[s].now as real + 1000.0 * calls[s].offset
      ensures calls[s].data in this.calls
    {
      CalledBackInTime(calls, s);
      var e := Started(wheelSize, TickCalls(calls))[|Started(wheelSize, TickCalls(calls)[..s])|];
      var i :| 0 <= i < |queue.fired| && queue.fired[i] == e;
      assert this.calls[i] == e.data;
    }

    /** The count is the total length of all slots. */
    lemma CountIsTotal()
      requires InStep()
      ensures numberOfTimers == TotalLength(slots[..])
      ensures Empty() <==> queue.pending == []
    {
      LengthOfSlots(slots[..], queue.pending, wheelSize);
      assert slots[..][..wheelSize] == slots[..];
      AllInSlots(queue.pending, wheelSize);
    }

    function TickOf(now: int): int
      requires resolution > 0
    {
      (now - baseTime) / resolution
    }

    /** An offset in seconds, cut down to whole ticks. */
    function Interval(offset: real): nat
      requires offset >= 0.0
    {
      (offset * ticksPerSecond as real).Floor
    }

    function TickCall(call: ClockCall<T>): Call<T>
      requires resolution > 0 && (call.StartAt? ==> call.offset >= 0.0)
    {
      match call
      case StartAt(now, offset, data) => Start(TickOf(now), Interval(offset), data)
      case PollAt(now) => Poll(TickOf(now))
    }

    function TickCalls(calls: seq<ClockCall<T>>): (ticks: seq<Call<T>>)
      requires resolution > 0 && Readings(calls)
      ensures |ticks| == |calls| && forall i :: 0 <= i < |calls| ==> ticks[i] == TickCall(calls[i])
    {
      seq(|calls|, i requires 0 <= i < |calls| => TickCall(calls[i]))
    }

    /** The clock starts at the base time and does not go back; offsets are not negative. */
    ghost predicate Readings(calls: seq<ClockCall<T>>) {
      && (forall i :: 0 <= i < |calls| ==> calls[i].now >= baseTime && (calls[i].StartAt? ==> calls[i].offset >= 0.0))
      && (forall i, j :: 0 <= i <= j < |calls| ==> calls[i].now <= calls[j].now)
    }

    lemma ReadingsRun(calls: seq<ClockCall<T>>)
      requires resolution > 0 && Readings(calls)
      ensures ClockRuns(TickCalls(calls))
    {
      forall i, j | 0 <= i <= j < |calls|
        ensures 0 <= TickOf(calls[i].now) <= TickOf(calls[j].now)
      {
        TicksAreMonotone(resolution, 0, calls[i].now - baseTime);
        TicksAreMonotone(resolution, calls[i].now - baseTime, calls[j].now - baseTime);
      }
    }

    /** In clock time: a timer for one tick to one turn of the wheel has been called
        back once a call is made at or after its time, and is never called back in a
        call two ticks or more before it. */
    lemma CalledBackInTime(calls: seq<ClockCall<T>>, s: nat)
      requires wheelSize > 0 && resolution > 0 && ticksPerSecond * resolution == MS_PER_SECOND
      requires Readings(calls) && s < |calls| && calls[s].StartAt?
      requires resolution as real <= 1000.0 * calls[s].offset <= (wheelSize * resolution) as real
      ensures var n := |Started(wheelSize, TickCalls(calls)[..s])|;
              var started, fired := Started(wheelSize, TickCalls(calls)), Run(wheelSize, TickCalls(calls)).fired;
              var time, reading := calls[s].now as real + 1000.0 * calls[s].offset, calls[|calls| - 1].now as real;
              && n < |started| && started[n].data == calls[s].data
              && (reading >= time ==> started[n] in fired)
              && (reading <= time - 2.0 * resolution as real ==> started[n] !in fired)
    {
      hide Run, Started, FireTick, Interval;
      var ticks := TickCalls(calls);
      ReadingsRun(calls);
      StartedIsKept(wheelSize, ticks, s, |ticks|);
      assert ticks[..|ticks|] == ticks;
      var k, a, d := Interval(calls[s].offset), calls[s].now - baseTime, calls[|calls| - 1].now - calls[s].now;
      IntervalOfOffset(calls[s].offset);
      FiresAsRequested(wheelSize, TickOf(calls[s].now), k);
      FiredAfterRun(wheelSize, ticks);
      if d as real >= 1000.0 * calls[s].offset {
        TicksReached(resolution, a, d, k);
      }
      if d as real <= 1000.0 * calls[s].offset - 2.0 * resolution as real {
        TicksNotReached(resolution, a, d, k);
      }
    }

    lemma IntervalOfOffset(offset: real)
      requires resolution > 0 && ticksPerSecond * resolution == MS_PER_SECOND
      requires resolution as real <= 1000.0 * offset <= (wheelSize * resolution) as real
      ensures 1 <= Interval(offset) <= wheelSize
      ensures (Interval(offset) * resolution) as real <= 1000.0 * offset
      ensures 1000.0 * offset < (Interval(offset) * resolution) as real + resolution as real
    {
      var k := (offset * ticksPerSecond as real).Floor;
      OffsetInTicks(offset, resolution, ticksPerSecond, k);
      var product, most := k * resolution, wheelSize * resolution;
      assert product as real <= most as real && product as real + resolution as real > resolution as real;
      FactorBounds(k, wheelSize, resolution, product, most);
    }

    ghost function Horizon(): int {
      MAX_WHEEL_CYCLES * wheelSize + (wheelSize - 1)
    }

    constructor (period: nat, resolution: nat, baseTime: int)
      requires resolution > 0 && period * (MS_PER_SECOND / resolution) > 0
      ensures Valid() && fresh(slots) && fresh(lastTime) && fresh(currentTime) && fresh(nextTime)
      ensures wheelSize == period * (MS_PER_SECOND / resolution) && ticksPerSecond == MS_PER_SECOND / resolution
      ensures this.resolution == resolution && this.baseTime == baseTime
      ensures queue == Init()
    {
      var size := period * (MS_PER_SECOND / resolution);
      wheelSize, ticksPerSecond := size, MS_PER_SECOND / resolution;
      this.resolution, this.baseTime := resolution, baseTime;
      lastTime := new WheelTime(size, resolution, 0, 0);
      currentTime := new WheelTime(size, resolution, 0, 0);
      nextTime := new WheelTime(size, resolution, MAX_WHEEL_CYCLES, size - 1);
      slots := new seq<T>[size](_ => []);
      numberOfTimers, calls := 0, [];
      queue := Init();
    }

    predicate Empty()
      reads this
    {
      numberOfTimers == 0
    }

    method StartTimer(now: int, offset: real, data: T) returns (untilNext: int)
      requires Valid() && offset >= 0.0
      requires baseTime <= now && queue.now <= TickOf(now)
      requires TickOf(now) + Interval(offset) < Horizon()
      modifies this, slots, lastTime, currentTime, nextTime
      ensures Valid()
      ensures queue == Step(wheelSize, old(queue), Start(TickOf(now), Interval(offset), data))
      ensures nextTime.Tick() ==
                StartTarget(Expire(old(queue), TickOf(now)).pending, TickOf(now), wheelSize, Interval(offset))
      ensures untilNext == nextTime.Tick() - TickOf(now)
    {
      hide WheelTime.Tick, DueBetween, Interval, Filter, Holds, WithinTurn, FireTick, Data, Step, Expire, NextPoll;
      var interval := Interval(offset);
      var requestedTime := new WheelTime.FromClock(wheelSize, resolution, baseTime, now, interval);
      currentTime.SetClock(baseTime, now);
      ghost var tick := TickOf(now);
      assert currentTime.Tick() == tick && requestedTime.Tick() == tick + interval;
      hide TickOf, Horizon;
      var _ := ExpiryProcessing();
      ghost var q := queue;
      var s := requestedTime.index;
      ghost var e := Entry(q.started, FireTick(wheelSize, q.now, interval), data);
      requestedTime.IndexIsTick();
      SlotOfRequest(wheelSize, q.now, interval);
      PutInSlot(slots[..], q.pending, e, q.now);
      slots[s] := slots[s] + [data];
      numberOfTimers := numberOfTimers + 1;
      queue := q.(started := q.started + 1, pending := q.pending + [e]);
      StartIsStep(wheelSize, old(queue), tick, interval, data);
      assert Valid();
      if requestedTime.Less(nextTime) {
        nextTime.Assign(requestedTime);
      }
      return nextTime.Offset(currentTime);
    }

    method ProcessExpiredTimers(now: int) returns (untilNext: int)
      requires Valid()
      requires baseTime <= now && queue.now <= TickOf(now)
      modifies this, slots, lastTime, currentTime, nextTime
      ensures Valid()
      ensures queue == Step(wheelSize, old(queue), Poll(TickOf(now)))
      ensures queue.pending == [] ==> untilNext == NO_OUTSTANDING_TIMERS && nextTime.Tick() == Horizon()
      ensures queue.pending != [] ==>
                nextTime.Tick() == NextPoll(queue.pending, queue.now, wheelSize) &&
                untilNext == nextTime.Tick() - queue.now
    {
      hide WheelTime.Tick, Expire;
      currentTime.SetClock(baseTime, now);
      untilNext := ExpiryProcessing();
    }

    method ExpiryProcessing() returns (untilNext: int)
      requires InStep() && queue.now <= currentTime.Tick()
      modifies this, slots, lastTime, nextTime
      ensures Valid()
      ensures queue == Expire(old(queue), currentTime.Tick())
      ensures queue.pending == [] ==> untilNext == NO_OUTSTANDING_TIMERS && nextTime.Tick() == Horizon()
      ensures queue.pending != [] ==>
                nextTime.Tick() == NextPoll(queue.pending, queue.now, wheelSize) &&
                untilNext == nextTime.Tick() - queue.now
    {
      hide WheelTime.Tick, Expire, Filter;
      ExpireNothing(queue);
      while lastTime.Less(currentTime)
        invariant InStep() && old(queue).now <= queue.now <= currentTime.Tick()
        invariant queue == Expire(old(queue), lastTime.Tick())
        decreases currentTime.Tick() - lastTime.Tick()
      {
        ghost var q := queue;
        lastTime.Increment();
        ghost var t := lastTime.Tick();
        var s := lastTime.index;
        lastTime.IndexIsTick();
        TurnOneTick(q.pending, t, wheelSize);
        ExpireNextTick(old(queue), q);
        if slots[s] != [] {
          ProcessTimerList(s);
        }
        queue := Expire(q, t);
      }
      untilNext := SetNextTime();
    }

    /** Calls back every timer of a slot, first in first out, and empties it. */
    method ProcessTimerList(s: nat)
      requires s < slots.Length
      modifies this`calls, this`numberOfTimers, slots
      ensures calls == old(calls) + old(slots[s])
      ensures numberOfTimers == old(numberOfTimers) - |old(slots[s])|
      ensures slots[..] == old(slots[..])[s := []]
    {
      for i := 0 to |slots[s]|
        invariant slots[..] == old(slots[..])
        invariant calls == old(calls) + slots[s][..i]
        invariant numberOfTimers == old(numberOfTimers) - i
      {
        calls := calls + [slots[s][i]];
        numberOfTimers := numberOfTimers - 1;
      }
      slots[s] := [];
    }

    /** Searches the slots from the current tick on for the next busy one. */
    method SetNextTime() returns (untilNext: int)
      requires Valid()
      modifies nextTime
      ensures Valid()
      ensures queue.pending == [] ==> untilNext == NO_OUTSTANDING_TIMERS && nextTime.Tick() == Horizon()
      ensures queue.pending != [] ==>
                nextTime.Tick() == NextPoll(queue.pending, queue.now, wheelSize) &&
                untilNext == nextTime.Tick() - queue.now
    {
      hide WheelTime.Tick, Filter;
      if numberOfTimers == 0 {
        nextTime.Set(MAX_WHEEL_CYCLES, wheelSize - 1);
        return NO_OUTSTANDING_TIMERS;
      }
      ghost var goal := NextPoll(queue.pending, queue.now, wheelSize);
      ghost var m: Entry<T> :| m in queue.pending && MeetsAt(m, queue.now, wheelSize) == goal;
      TurnLater(wheelSize, queue.now);
      nextTime.Assign(currentTime);
      nextTime.IndexIsTick();
      while slots[nextTime.index] == []
        invariant Valid() && queue.now <= nextTime.Tick() <= goal
        invariant nextTime.index == nextTime.Tick() % wheelSize
        decreases goal - nextTime.Tick()
      {
        assert m in Filter(queue.pending, Slot(goal % wheelSize, wheelSize));
        nextTime.Increment();
        nextTime.IndexIsTick();
      }
      ghost var t := nextTime.Tick();
      ghost var busy := Filter(queue.pending, Slot(t % wheelSize, wheelSize));
      assert busy[0] in busy;
      SameRemainder(wheelSize, MeetsAt(busy[0], queue.now, wheelSize), t);
      return nextTime.Offset(currentTime);
    }
  }
}
