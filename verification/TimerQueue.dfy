/** What the timer wheel is for: a queue of timers sorted by the tick at which
    they are due, first started first among equals. */
module TimerQueue {
  import opened Wrappers
  import opened Arithmetic

  /** A started timer: its place in the start order, the tick at which it fires
      and what is handed to its callback. */
  datatype Entry<T> = Entry(id: nat, fire: int, data: T)

  /** Slots of a wheel of size `w`, and instants. */
  datatype Selection = Slot(s: int, w: nat) | At(t: int) | Later(t: int)

  predicate Selects<T(!new)>(sel: Selection, e: Entry<T>) {
    match sel
    case Slot(s, w) => w > 0 && e.fire % w == s
    case At(t) => e.fire == t
    case Later(t) => e.fire > t
  }

  function Filter<T(!new)>(p: seq<Entry<T>>, sel: Selection): (r: seq<Entry<T>>)
    ensures |r| <= |p|
    ensures forall e :: e in r <==> e in p && Selects(sel, e)
  {
    if p == [] then []
    else
      var n := |p| - 1;
      assert p == p[..n] + [p[n]];
      Filter(p[..n], sel) + if Selects(sel, p[n]) then [p[n]] else []
  }

  function Data<T(!new)>(p: seq<Entry<T>>): (d: seq<T>)
    ensures |d| == |p| && forall i :: 0 <= i < |p| ==> d[i] == p[i].data
  {
    seq(|p|, i requires 0 <= i < |p| => p[i].data)
  }

  /** The timers due after tick `a`, up to tick `b`: tick by tick, in start order within one. */
  function DueBetween<T(!new)>(p: seq<Entry<T>>, a: int, b: int): (due: seq<Entry<T>>)
    ensures forall e :: e in due <==> e in p && a < e.fire <= b
    decreases b - a
  {
    if b <= a then [] else DueBetween(p, a, b - 1) + Filter(p, At(b))
  }

  lemma {:induction false} FilterCongruence<T(!new)>(p: seq<Entry<T>>, f: Selection, g: Selection)
    requires forall e :: e in p ==> (Selects(f, e) <==> Selects(g, e))
    ensures Filter(p, f) == Filter(p, g)
  {
    if p != [] {
      var n := |p| - 1;
      assert p[n] in p;
      FilterCongruence(p[..n], f, g);
    }
  }

  lemma FilterAppend<T(!new)>(p: seq<Entry<T>>, e: Entry<T>, f: Selection)
    ensures Filter(p + [e], f) == Filter(p, f) + if Selects(f, e) then [e] else []
  {
    assert (p + [e])[..|p|] == p;
  }

  lemma {:induction false} FilterFilter<T(!new)>(p: seq<Entry<T>>, f: Selection, g: Selection)
    requires forall e :: e in p && Selects(g, e) ==> Selects(f, e)
    ensures Filter(Filter(p, f), g) == Filter(p, g)
  {
    hide Selects;
    if p != [] {
      var init, last := p[..|p| - 1], p[|p| - 1];
      assert last in p;
      FilterFilter(init, f, g);
      FilterFilterAppend(init, last, f, g);
      assert p == init + [last];
    }
  }

  lemma FilterFilterAppend<T(!new)>(p: seq<Entry<T>>, e: Entry<T>, f: Selection, g: Selection)
    requires Filter(Filter(p, f), g) == Filter(p, g)
    requires Selects(g, e) ==> Selects(f, e)
    ensures Filter(Filter(p + [e], f), g) == Filter(p + [e], g)
  {
    hide Filter, Selects;
    FilterAppend(p, e, f);
    FilterAppend(p, e, g);
    if Selects(f, e) {
      FilterAppend(Filter(p, f), e, g);
    } else {
      assert Filter(p, f) + [] == Filter(p, f) && Filter(p, g) + [] == Filter(p, g);
    }
  }

  lemma {:induction false} FilterNone<T(!new)>(p: seq<Entry<T>>, f: Selection)
    requires forall e :: e in p ==> !Selects(f, e)
    ensures Filter(p, f) == []
  {
    if p != [] {
      assert p[|p| - 1] in p;
      FilterNone(p[..|p| - 1], f);
    }
  }

  lemma {:induction false} FilterAll<T(!new)>(p: seq<Entry<T>>, f: Selection)
    requires forall e :: e in p ==> Selects(f, e)
    ensures Filter(p, f) == p
  {
    if p != [] {
      var n := |p| - 1;
      assert p == p[..n] + [p[n]];
      assert p[n] in p;
      FilterAll(p[..n], f);
    }
  }

  /** One tick splits the pending timers in two. */
  lemma {:induction false} FilterSplits<T(!new)>(p: seq<Entry<T>>, t: int)
    requires forall e :: e in p ==> e.fire >= t
    ensures |Filter(p, At(t))| + |Filter(p, Later(t))| == |p|
  {
    if p != [] {
      assert p[|p| - 1] in p;
      FilterSplits(p[..|p| - 1], t);
    }
  }

  // ---------------------------------------------------------------------
  // The queue as a state machine
  // ---------------------------------------------------------------------

  datatype Queue<T> = Queue(now: int, started: nat, pending: seq<Entry<T>>, fired: seq<Entry<T>>)

  /** A call to the wheel at a given tick. */
  datatype Call<T> = Start(now: int, interval: nat, data: T) | Poll(now: int)

  /** The tick at which the wheel fires a timer started at `now`. */
  function FireTick(w: nat, now: int, interval: nat): (fire: int)
    requires w > 0
    ensures now < fire <= now + w
  {
    now + 1 + (interval - 1) % w
  }

  /** A timer fires at the tick it was asked for exactly when its interval is
      between one tick and one turn of the wheel. */
  lemma FiresAsRequested(w: nat, now: int, interval: nat)
    requires w > 0
    ensures FireTick(w, now, interval) == now + interval <==> 1 <= interval <= w
  {
    if 1 <= interval <= w {
      assert (interval - 1) % w == interval - 1;
    }
  }

  function Expire<T(!new)>(q: Queue<T>, now: int): Queue<T> {
    Queue(now, q.started, Filter(q.pending, Later(now)), q.fired + DueBetween(q.pending, q.now, now))
  }

  function Step<T(!new)>(w: nat, q: Queue<T>, call: Call<T>): Queue<T>
    requires w > 0
  {
    var expired := Expire(q, call.now);
    match call
    case Poll(_) => expired
    case Start(now, interval, data) =>
      expired.(started := q.started + 1,
               pending := expired.pending + [Entry(q.started, FireTick(w, now, interval), data)])
  }

  function Init<T(!new)>(): Queue<T> {
    Queue(0, 0, [], [])
  }

  function Run<T(!new)>(w: nat, calls: seq<Call<T>>): Queue<T>
    requires w > 0
  {
    if calls == [] then Init() else Step(w, Run(w, calls[..|calls| - 1]), calls[|calls| - 1])
  }

  // ---------------------------------------------------------------------
  // When to poll next
  // ---------------------------------------------------------------------

  /** Where the search for the next busy slot, which starts at the current tick,
      meets a timer: one due a whole turn ahead sits in the current slot. */
  function MeetsAt<T(!new)>(e: Entry<T>, now: int, w: nat): int {
    if e.fire == now + w then now else e.fire
  }

  function NextPoll<T(!new)>(p: seq<Entry<T>>, now: int, w: nat): (t: int)
    requires p != []
    ensures exists e :: e in p && MeetsAt(e, now, w) == t
    ensures forall e :: e in p ==> t <= MeetsAt(e, now, w)
  {
    var n := |p| - 1;
    assert p == p[..n] + [p[n]];
    var last := MeetsAt(p[n], now, w);
    if n == 0 then
      assert p[0] in p;
      last
    else
      var t := NextPoll(p[..n], now, w);
      assert p[n] in p;
      if last < t then last
      else
        assert forall e :: e in p[..n] ==> e in p;
        t
  }

  ghost predicate IsEarliest<T(!new)>(t: int, p: seq<Entry<T>>) {
    (exists e :: e in p && e.fire == t) && forall e :: e in p ==> t <= e.fire
  }

  /** The search finds the earliest deadline exactly when no timer is due a whole
      turn of the wheel ahead. */
  lemma NextPollIsEarliest<T(!new)>(p: seq<Entry<T>>, now: int, w: nat)
    requires p != [] && w > 0
    requires forall e :: e in p ==> now < e.fire <= now + w
    ensures IsEarliest(NextPoll(p, now, w), p) <==> forall e :: e in p ==> e.fire < now + w
  {
    var t := NextPoll(p, now, w);
    var m :| m in p && MeetsAt(m, now, w) == t;
    if forall e :: e in p ==> e.fire < now + w {
      assert m.fire == t;
      assert forall e :: e in p ==> MeetsAt(e, now, w) == e.fire;
    } else {
      var e :| e in p && e.fire == now + w;
      assert t <= MeetsAt(e, now, w) == now;
    }
  }

  /** The next time that starting a timer leaves: the tick asked for, unless the
      search has found an earlier one. */
  function StartTarget<T(!new)>(p: seq<Entry<T>>, now: int, w: nat, interval: nat): int {
    if p == [] || now + interval < NextPoll(p, now, w) then now + interval else NextPoll(p, now, w)
  }

  /** It is the earliest deadline exactly when no timer is due a whole turn ahead and
      the interval is between one tick and one turn, or longer, but with a timer
      pending that is due no later. */
  lemma StartTargetIsEarliest<T(!new)>(p: seq<Entry<T>>, now: int, w: nat, interval: nat, e: Entry<T>)
    requires w > 0 && e.fire == FireTick(w, now, interval)
    requires forall d :: d in p ==> now < d.fire <= now + w
    ensures IsEarliest(StartTarget(p, now, w, interval), p + [e]) <==>
            && (forall d :: d in p ==> d.fire < now + w)
            && (1 <= interval <= w || (interval > w && exists d :: d in p && d.fire <= e.fire))
  {
    assert e in p + [e];
    FiresAsRequested(w, now, interval);
    if p != [] {
      NextPollIsEarliest(p, now, w);
      var m :| m in p && MeetsAt(m, now, w) == NextPoll(p, now, w);
      assert m in p + [e];
    }
  }

  // ---------------------------------------------------------------------
  // Every run
  // ---------------------------------------------------------------------

  /** The clock starts at tick 0 and never goes back. */
  ghost predicate ClockRuns<T(!new)>(calls: seq<Call<T>>) {
    && (forall i :: 0 <= i < |calls| ==> calls[i].now >= 0)
    && (forall i, j :: 0 <= i <= j < |calls| ==> calls[i].now <= calls[j].now)
  }

  function Now<T(!new)>(calls: seq<Call<T>>): int {
    if calls == [] then 0 else calls[|calls| - 1].now
  }

  /** All timers a run started, in start order, whatever became of them. */
  function Started<T(!new)>(w: nat, calls: seq<Call<T>>): seq<Entry<T>>
    requires w > 0
  {
    if calls == [] then []
    else
      var before := Started(w, calls[..|calls| - 1]);
      match calls[|calls| - 1]
      case Poll(_) => before
      case Start(now, interval, data) => before + [Entry(|before|, FireTick(w, now, interval), data)]
  }

  predicate Before<T(!new)>(d: Entry<T>, e: Entry<T>) {
    d.fire < e.fire || (d.fire == e.fire && d.id < e.id)
  }

  ghost predicate SortedByDeadline<T(!new)>(s: seq<Entry<T>>) {
    forall i, j :: 0 <= i < j < |s| ==> Before(s[i], s[j])
  }

  ghost predicate InStartOrder<T(!new)>(s: seq<Entry<T>>) {
    forall i, j :: 0 <= i < j < |s| ==> s[i].id < s[j].id
  }

  lemma {:induction false} FilterKeepsStartOrder<T(!new)>(p: seq<Entry<T>>, f: Selection)
    requires InStartOrder(p)
    ensures InStartOrder(Filter(p, f))
  {
    if p != [] {
      var n := |p| - 1;
      FilterKeepsStartOrder(p[..n], f);
      var r := Filter(p[..n], f);
      forall i | 0 <= i < |r|
        ensures r[i].id < p[n].id
      {
        assert r[i] in p[..n];
        var j :| 0 <= j < n && p[j] == r[i];
      }
    }
  }

  lemma {:induction false} DueIsSorted<T(!new)>(p: seq<Entry<T>>, a: int, b: int)
    requires InStartOrder(p)
    ensures SortedByDeadline(DueBetween(p, a, b))
    decreases b - a
  {
    if a < b {
      DueIsSorted(p, a, b - 1);
      FilterKeepsStartOrder(p, At(b));
      var before, last := DueBetween(p, a, b - 1), Filter(p, At(b));
      assert forall i :: 0 <= i < |before| ==> before[i] in before && before[i].fire < b;
      assert forall i :: 0 <= i < |last| ==> last[i] in last && last[i].fire == b;
    }
  }

  lemma {:induction false} StartedInOrder<T(!new)>(w: nat, calls: seq<Call<T>>)
    requires w > 0
    ensures forall i :: 0 <= i < |Started(w, calls)| ==> Started(w, calls)[i].id == i
  {
    if calls != [] {
      StartedInOrder(w, calls[..|calls| - 1]);
    }
  }

  /** What is pending after a run: the started timers not yet due, in start order. */
  lemma {:induction false} PendingAfterRun<T(!new)>(w: nat, calls: seq<Call<T>>)
    requires w > 0 && ClockRuns(calls)
    ensures Run(w, calls).now == Now(calls)
    ensures Run(w, calls).started == |Started(w, calls)|
    ensures Run(w, calls).pending == Filter(Started(w, calls), Later(Now(calls)))
    ensures InStartOrder(Run(w, calls).pending)
  {
    StartedInOrder(w, calls);
    FilterKeepsStartOrder(Started(w, calls), Later(Now(calls)));
    if calls != [] {
      hide Filter, InStartOrder, DueBetween, FireTick;
      var before, call := calls[..|calls| - 1], calls[|calls| - 1];
      PendingAfterRun(w, before);
      assert before == [] || before[|before| - 1] == calls[|before| - 1];
      assert Now(before) <= call.now;
      FilterFilter(Started(w, before), Later(Now(before)), Later(call.now));
      if call.Start? {
        var e := Entry(|Started(w, before)|, FireTick(w, call.now, call.interval), call.data);
        assert Started(w, calls) == Started(w, before) + [e];
        FilterAppend(Started(w, before), e, Later(call.now));
      }
    }
  }

  function NewlyFired<T(!new)>(w: nat, calls: seq<Call<T>>): seq<Entry<T>>
    requires w > 0 && calls != []
  {
    var q := Run(w, calls[..|calls| - 1]);
    DueBetween(q.pending, q.now, calls[|calls| - 1].now)
  }

  /** One call fires the timers whose tick it is the first to reach, in order. */
  lemma CallFires<T(!new)>(w: nat, calls: seq<Call<T>>)
    requires w > 0 && calls != [] && ClockRuns(calls)
    ensures ClockRuns(calls[..|calls| - 1]) && Now(calls[..|calls| - 1]) <= Now(calls)
    ensures Run(w, calls).fired == Run(w, calls[..|calls| - 1]).fired + NewlyFired(w, calls)
    ensures SortedByDeadline(NewlyFired(w, calls))
    ensures forall e :: e in NewlyFired(w, calls) <==>
              e in Started(w, calls) && Now(calls[..|calls| - 1]) < e.fire <= Now(calls)
  {
    var before, call := calls[..|calls| - 1], calls[|calls| - 1];
    assert before == [] || before[|before| - 1] == calls[|before| - 1];
    PendingAfterRun(w, before);
    DueIsSorted(Run(w, before).pending, Now(before), call.now);
    assert forall e :: e in Started(w, calls) && e.fire <= call.now <==> e in Started(w, before) && e.fire <= call.now;
  }

  /** The wheel refines a deadline-sorted queue: after any run, the callbacks made
      are exactly the started timers whose tick has been reached, each once, in
      the order of their ticks and first started first within a tick. As this
      holds after every prefix of a run, a callback is made in the first call
      that reaches its tick and never earlier. */
  lemma {:induction false} FiredAfterRun<T(!new)>(w: nat, calls: seq<Call<T>>)
    requires w > 0 && ClockRuns(calls)
    ensures SortedByDeadline(Run(w, calls).fired)
    ensures forall e :: e in Run(w, calls).fired <==> e in Started(w, calls) && e.fire <= Now(calls)
  {
    hide Step, NewlyFired;
    if calls != [] {
      CallFires(w, calls);
      var before := calls[..|calls| - 1];
      FiredAfterRun(w, before);
      var old', new' := Run(w, before).fired, NewlyFired(w, calls);
      assert forall i :: 0 <= i < |old'| ==> old'[i] in old';
      assert forall i :: 0 <= i < |new'| ==> new'[i] in new';
    }
  }

  /** A timer with an interval of one tick to one turn is called back in the first
      call at or after its deadline, and in no other. */
  lemma OnTimeExactlyOnce<T(!new)>(w: nat, calls: seq<Call<T>>, s: nat)
    requires w > 0 && ClockRuns(calls)
    requires s < |calls| - 1 && calls[s].Start? && 1 <= calls[s].interval <= w
    ensures var e := Entry(|Started(w, calls[..s])|, calls[s].now + calls[s].interval, calls[s].data);
            e in NewlyFired(w, calls) <==> calls[|calls| - 2].now < e.fire <= calls[|calls| - 1].now
  {
    hide Step, NewlyFired;
    FiresAsRequested(w, calls[s].now, calls[s].interval);
    StartedIsKept(w, calls, s, |calls|);
    assert calls[..|calls|] == calls;
    CallFires(w, calls);
  }

  lemma {:induction false} StartedIsKept<T(!new)>(w: nat, calls: seq<Call<T>>, s: nat, c: nat)
    requires w > 0
    requires s < c <= |calls| && calls[s].Start?
    ensures var n := |Started(w, calls[..s])|;
            n < |Started(w, calls[..c])| &&
            Started(w, calls[..c])[n] == Entry(n, FireTick(w, calls[s].now, calls[s].interval), calls[s].data)
  {
    assert calls[..c][..c - 1] == calls[..c - 1];
    if s + 1 < c {
      StartedIsKept(w, calls, s, c - 1);
    }
  }

  // ---------------------------------------------------------------------
  // The next time, in every run
  // ---------------------------------------------------------------------

  /** What is still pending when the last call has expired what is due. */
  function Rest<T(!new)>(w: nat, calls: seq<Call<T>>): seq<Entry<T>>
    requires w > 0 && calls != []
  {
    Expire(Run(w, calls[..|calls| - 1]), Now(calls)).pending
  }

  /** The next time that the last call leaves; none if nothing is pending. */
  function NextTime<T(!new)>(w: nat, calls: seq<Call<T>>): Option<int>
    requires w > 0 && calls != []
  {
    match calls[|calls| - 1]
    case Poll(now) => if Rest(w, calls) == [] then None else Some(NextPoll(Rest(w, calls), now, w))
    case Start(now, interval, _) => Some(StartTarget(Rest(w, calls), now, w, interval))
  }

  ghost predicate IsNextDeadline<T(!new)>(next: Option<int>, p: seq<Entry<T>>) {
    if p == [] then next == None else next.Some? && IsEarliest(next.value, p)
  }

  /** A timer started at this tick that is due a whole turn later. */
  predicate IsWholeTurn<T(!new)>(w: nat, call: Call<T>, now: int)
    requires w > 0
  {
    call.Start? && call.now == now && call.interval % w == 0
  }

  lemma FiresAfterWholeTurn(w: nat, now: int, interval: nat)
    requires w > 0
    ensures FireTick(w, now, interval) == now + w <==> interval % w == 0
  {
    if interval % w == 0 {
      DivisionIsUnique(w, interval - 1, interval / w - 1, w - 1);
    } else {
      DivisionIsUnique(w, interval - 1, interval / w, interval % w - 1);
    }
  }

  /** Started timers are due within a turn from now, and at its very end exactly if
      started at this tick for a whole turn. */
  lemma {:induction false} StartedIsDue<T(!new)>(w: nat, calls: seq<Call<T>>, now: int)
    requires w > 0 && forall i :: 0 <= i < |calls| ==> calls[i].now <= now
    ensures forall e :: e in Started(w, calls) ==> e.fire <= now + w
    ensures (exists e :: e in Started(w, calls) && e.fire == now + w) <==>
            exists i :: 0 <= i < |calls| && IsWholeTurn(w, calls[i], now)
  {
    hide FireTick;
    if calls != [] {
      var n := |calls| - 1;
      var before, call := calls[..n], calls[n];
      StartedIsDue(w, before, now);
      assert calls == before + [call];
      if call.Start? {
        var e := Entry(|Started(w, before)|, FireTick(w, call.now, call.interval), call.data);
        assert Started(w, calls) == Started(w, before) + [e];
        FiresAfterWholeTurn(w, call.now, call.interval);
      }
    }
  }

  lemma RestIsFiltered<T(!new)>(w: nat, calls: seq<Call<T>>)
    requires w > 0 && calls != [] && ClockRuns(calls)
    ensures forall d :: d in Rest(w, calls) <==> d in Started(w, calls[..|calls| - 1]) && d.fire > Now(calls)
  {
    hide FireTick, DueBetween, InStartOrder, Run, Started;
    var before := calls[..|calls| - 1];
    assert before == [] || before[|before| - 1] == calls[|before| - 1];
    PendingAfterRun(w, before);
  }

  lemma RestIsDue<T(!new)>(w: nat, calls: seq<Call<T>>)
    requires w > 0 && calls != [] && ClockRuns(calls)
    ensures forall d :: d in Rest(w, calls) ==> Now(calls) < d.fire <= Now(calls) + w
    ensures (exists d :: d in Rest(w, calls) && d.fire == Now(calls) + w) <==>
            exists i :: 0 <= i < |calls| - 1 && IsWholeTurn(w, calls[i], Now(calls))
  {
    hide IsWholeTurn, Rest, Started;
    var before, now := calls[..|calls| - 1], Now(calls);
    RestIsFiltered(w, calls);
    assert forall i :: 0 <= i < |before| ==> before[i] == calls[i];
    StartedIsDue(w, before, now);
  }

  ghost predicate StartIsInTime<T(!new)>(w: nat, p: seq<Entry<T>>, call: Call<T>)
    requires w > 0 && call.Start?
  {
    || 1 <= call.interval <= w
    || (call.interval > w && exists d :: d in p && d.fire <= FireTick(w, call.now, call.interval))
  }

  /** In every run, the next time that a call leaves is the earliest deadline if and
      only if no earlier call at this tick started a timer for whole turns and, if
      this call starts one, its interval is between one tick and one turn, or longer,
      but with a timer pending that is due no later. */
  lemma NextTimeIsExact<T(!new)>(w: nat, calls: seq<Call<T>>)
    requires w > 0 && calls != [] && ClockRuns(calls)
    ensures IsNextDeadline(NextTime(w, calls), Run(w, calls).pending) <==>
            && (forall i :: 0 <= i < |calls| - 1 ==> !IsWholeTurn(w, calls[i], Now(calls)))
            && (calls[|calls| - 1].Start? ==> StartIsInTime(w, Rest(w, calls), calls[|calls| - 1]))
  {
    hide FireTick, DueBetween, IsWholeTurn, IsEarliest, NextPoll, StartTarget;
    var p, now := Rest(w, calls), Now(calls);
    RestIsDue(w, calls);
    match calls[|calls| - 1] {
      case Poll(_) =>
        if p != [] {
          NextPollIsEarliest(p, now, w);
        }
      case Start(_, k, data) =>
        var e := Entry(Run(w, calls[..|calls| - 1]).started, FireTick(w, now, k), data);
        StartTargetIsEarliest(p, now, w, k, e);
    }
  }

  /** In particular it always is, after every call of every run, when all intervals
      are of at least one tick and less than one turn. */
  lemma NextTimeIsEarliest<T(!new)>(w: nat, calls: seq<Call<T>>)
    requires w > 0 && calls != [] && ClockRuns(calls)
    requires forall i :: 0 <= i < |calls| && calls[i].Start? ==> 1 <= calls[i].interval < w
    ensures IsNextDeadline(NextTime(w, calls), Run(w, calls).pending)
  {
    hide FireTick, IsNextDeadline, NextTime, Run;
    NextTimeIsExact(w, calls);
  }
}
