/**
 * Runs of the scheduler: calls from outside, seconds passing, and rings.  `World` adds a clock and a
 * history to the globals; the history is only written, never consulted, by the steps.
 */
module AlarmRuns {
  import opened AlarmSpec

  // ---- One ring in closed form ----

  /** Everything the callbacks of the expired events among the first `n` do, in firing order. */
  function DueOps(s: seq<Event>, n: nat, acts: int -> seq<Op>): seq<Op>
    requires n <= |s|
  {
    if n == 0 then []
    else DueOps(s, n - 1, acts) + if s[n - 1].remaining <= 0 then acts(s[n - 1].id) else []
  }

  function Dropped(ops: seq<Op>): set<int> {
    set op | op in ops && op.Unschedule? :: op.id
  }

  /** The events the `Schedule` operations create when the last id given out was `lastId`. */
  function Created(ops: seq<Op>, lastId: int): (r: seq<Event>)
    ensures |r| <= |ops|
    ensures forall i :: 0 <= i < |r| ==> r[i].id == lastId + 1 + i && r[i].remaining > 0 && !r[i].marked
  {
    if ops == [] then []
    else
      var r := Created(ops[..|ops| - 1], lastId);
      match ops[|ops| - 1]
      case Schedule(secs) => r + [Event(secs, lastId + 1 + |r|, false)]
      case Unschedule(_) => r
  }

  function MarkAll(s: seq<Event>, ids: set<int>): seq<Event> {
    seq(|s|, i requires 0 <= i < |s| => s[i].(marked := s[i].marked || s[i].id in ids))
  }

  lemma {:induction false} PerformAllClosed(c: Core, ops: seq<Op>)
    requires c.ringing
    ensures PerformAll(c, ops) == c.(main := MarkAll(c.main, Dropped(ops)),
                                     temp := c.temp + Created(ops, c.lastId),
                                     lastId := c.lastId + |Created(ops, c.lastId)|)
  {
    if ops == [] {
      assert MarkAll(c.main, Dropped(ops)) == c.main;
    } else {
      var init, last := ops[..|ops| - 1], ops[|ops| - 1];
      PerformAllClosed(c, init);
      assert ops == init + [last];
      match last
      case Schedule(_) => assert Dropped(ops) == Dropped(init);
      case Unschedule(id) =>
        assert Dropped(ops) == Dropped(init) + {id} by {
          assert last in ops;
        }
        assert Mark(MarkAll(c.main, Dropped(init)), id) == MarkAll(c.main, Dropped(ops));
    }
  }

  lemma {:induction false} PerformAllConcat(c: Core, a: seq<Op>, b: seq<Op>)
    ensures PerformAll(c, a + b) == PerformAll(PerformAll(c, a), b)
  {
    if b == [] {
      assert a + b == a;
    } else {
      PerformAllConcat(c, a, b[..|b| - 1]);
      assert (a + b)[..|a + b| - 1] == a + b[..|b| - 1];
    }
  }

  lemma {:induction false} FireUpToIsPerformAll(c: Core, n: nat, acts: int -> seq<Op>)
    requires n <= |c.main| && c.ringing
    ensures FireUpTo(c, n, acts) == PerformAll(c, DueOps(c.main, n, acts))
  {
    if n > 0 {
      FireUpToIsPerformAll(c, n - 1, acts);
      var ops := DueOps(c.main, n - 1, acts);
      if c.main[n - 1].remaining <= 0 {
        PerformAllConcat(c, ops, acts(c.main[n - 1].id));
      } else {
        assert ops + [] == ops;
      }
    }
  }

  /** What the callbacks do during the ring of `c`. */
  function RingOps(c: Core, acts: int -> seq<Op>): seq<Op> {
    DueOps(Charge(c.main, c.lastSet), |c.main|, acts)
  }

  /** The members of `s` that are neither due nor named by an unschedule during the ring. */
  function Untouched(s: seq<Event>, elapsed: int, dropped: set<int>): seq<Event> {
    if s == [] then []
    else
      var e := s[|s| - 1];
      Untouched(s[..|s| - 1], elapsed, dropped)
      + if e.remaining > elapsed && e.id !in dropped then [e.(remaining := e.remaining - elapsed)] else []
  }

  lemma ChargeAndMarkSplit(s: seq<Event>, elapsed: int, dropped: set<int>)
    requires s != []
    ensures var m, e := MarkAll(Charge(s, elapsed), dropped), s[|s| - 1];
            && m == MarkAll(Charge(s[..|s| - 1], elapsed), dropped) + [m[|s| - 1]]
            && m[|s| - 1] == e.(remaining := e.remaining - elapsed, marked := e.marked || e.id in dropped)
  {
  }

  lemma SurvivorsSplit(m: seq<Event>, init: seq<Event>, e: Event)
    requires m == init + [e]
    ensures Survivors(m) == Survivors(init) + if e.remaining > 0 && !e.marked then [e] else []
  {
    assert m[..|m| - 1] == init;
  }

  lemma {:induction false} UntouchedAreSurvivors(s: seq<Event>, elapsed: int, dropped: set<int>)
    requires forall i :: 0 <= i < |s| ==> !s[i].marked
    ensures Survivors(MarkAll(Charge(s, elapsed), dropped)) == Untouched(s, elapsed, dropped)
  {
    if s != [] {
      var init, m := s[..|s| - 1], MarkAll(Charge(s, elapsed), dropped);
      UntouchedAreSurvivors(init, elapsed, dropped);
      ChargeAndMarkSplit(s, elapsed, dropped);
      SurvivorsSplit(m, MarkAll(Charge(init, elapsed), dropped), m[|s| - 1]);
    }
  }

  /**
   * One ring between two quiet states: the unexpired, unmarked events in their order, then the events
   * scheduled by the callbacks in theirs, and the timer armed to the minimum.
   */
  lemma RingClosedForm(c: Core, acts: int -> seq<Op>)
    requires c.temp == [] && forall i :: 0 <= i < |c.main| ==> !c.main[i].marked
    ensures var ops := RingOps(c, acts);
            var list := Untouched(c.main, c.lastSet, Dropped(ops)) + Created(ops, c.lastId);
            Ring(c, acts)
            == Core(list, [], c.lastId + |Created(ops, c.lastId)|, false, MinRemaining(list), MinRemaining(list))
  {
    var charged := Awake(c);
    var ops := RingOps(c, acts);
    var fired := FireUpTo(charged, |charged.main|, acts);
    assert fired == PerformAll(charged, ops) by {
      FireUpToIsPerformAll(charged, |charged.main|, acts);
    }
    PerformAllClosed(charged, ops);
    assert fired.temp == Created(ops, c.lastId);
    assert Survivors(fired.main) == Untouched(c.main, c.lastSet, Dropped(ops)) by {
      UntouchedAreSurvivors(c.main, c.lastSet, Dropped(ops));
    }
  }

  // ---- Runs ----

  /** `late` adds up the seconds that later calls of schedule_alarm did not charge to this event. */
  datatype Info = Info(birth: nat, secs: Seconds, late: nat, cancelled: bool)

  datatype Firing = Firing(id: int, at: nat)

  datatype World = World(core: Core, now: nat, armedAt: nat, info: map<int, Info>, log: seq<Firing>)

  datatype Step =
    | CallSchedule(secs: Seconds)
    | CallUnschedule(id: int)
    | Tick(acts: int -> seq<Op>)

  const START := World(INITIAL, 0, 0, map[], [])

  /** Seconds since the timer was last armed. */
  function Elapsed(w: World): nat {
    if w.core.left == 0 || w.now < w.armedAt then 0 else w.now - w.armedAt
  }

  /** The expired events of a ring, in list order. */
  function Fired(s: seq<Event>, elapsed: int, at: nat): seq<Firing> {
    if s == [] then []
    else
      var e := s[|s| - 1];
      Fired(s[..|s| - 1], elapsed, at) + if e.remaining <= elapsed then [Firing(e.id, at)] else []
  }

  /** The log of a ring lists exactly the calls fire_single makes, in their order. */
  lemma {:induction false} FiredAreTheCalled(s: seq<Event>, elapsed: int, at: nat)
    ensures var ids := ExpiredIds(Charge(s, elapsed), |s|);
            Fired(s, elapsed, at) == seq(|ids|, i requires 0 <= i < |ids| => Firing(ids[i], at))
  {
    if s != [] {
      FiredAreTheCalled(s[..|s| - 1], elapsed, at);
      assert Charge(s, elapsed)[..|s| - 1] == Charge(s[..|s| - 1], elapsed);
      ExpiredIdsAgree(Charge(s, elapsed), Charge(s[..|s| - 1], elapsed), |s| - 1);
    }
  }

  lemma {:induction false} ExpiredIdsAgree(s: seq<Event>, t: seq<Event>, n: nat)
    requires n <= |s| && n <= |t| && s[..n] == t[..n]
    ensures ExpiredIds(s, n) == ExpiredIds(t, n)
  {
    if n > 0 {
      assert s[n - 1] == s[..n][n - 1] == t[..n][n - 1] == t[n - 1];
      assert s[..n - 1] == s[..n][..n - 1] == t[..n][..n - 1] == t[..n - 1];
      ExpiredIdsAgree(s, t, n - 1);
    }
  }

  predicate HasFired(log: seq<Firing>, id: int) {
    exists k :: 0 <= k < |log| && log[k].id == id
  }

  /** The seconds a call of schedule_alarm withholds from every event that has not fired. */
  function Delay(info: map<int, Info>, log: seq<Firing>, secs: nat): map<int, Info> {
    map id | id in info :: if HasFired(log, id) then info[id] else info[id].(late := info[id].late + secs)
  }

  function Cancel(info: map<int, Info>, ids: set<int>): map<int, Info> {
    map id | id in info :: info[id].(cancelled := info[id].cancelled || id in ids)
  }

  function Births(created: seq<Event>, at: nat): map<int, Info>
    requires forall e :: e in created ==> 0 < e.remaining <= INT_MAX
  {
    if created == [] then map[]
    else
      var e := created[|created| - 1];
      Births(created[..|created| - 1], at)[e.id := Info(at, e.remaining, 0, false)]
  }

  /** An unschedule during a ring cancels what is in the main list, never what the ring itself has scheduled. */
  function RingInfo(info: map<int, Info>, ops: seq<Op>, created: seq<Event>, at: nat): map<int, Info>
    requires forall e :: e in created ==> 0 < e.remaining <= INT_MAX
  {
    Cancel(info, Dropped(ops)) + Births(created, at)
  }

  function RingWorld(w: World, acts: int -> seq<Op>): World {
    var at := w.now + 1;
    var ops := RingOps(w.core, acts);
    var created := Created(ops, w.core.lastId);
    CreatedInRange(ops, w.core.lastId);
    World(Ring(w.core, acts), at, at,
          RingInfo(w.info, ops, created, at),
          w.log + Fired(w.core.main, w.core.lastSet, at))
  }

  lemma CreatedInRange(ops: seq<Op>, lastId: int)
    ensures forall e :: e in Created(ops, lastId) ==> 0 < e.remaining <= INT_MAX
  {
  }

  function Next(w: World, step: Step): World {
    match step
    case CallSchedule(secs) =>
      var core := ScheduleAlarm(w.core, secs);
      w.(core := core, armedAt := w.now,
         info := Delay(w.info, w.log, Elapsed(w))[core.lastId := Info(w.now, secs, 0, false)])
    case CallUnschedule(id) =>
      w.(core := UnscheduleAlarm(w.core, id), info := Cancel(w.info, {id}))
    case Tick(acts) =>
      if w.core.left == 1 then RingWorld(w, acts)
      else w.(now := w.now + 1, core := w.core.(left := if w.core.left == 0 then 0 else w.core.left - 1))
  }

  function Run(w: World, steps: seq<Step>): World {
    if steps == [] then w else Next(Run(w, steps[..|steps| - 1]), steps[|steps| - 1])
  }

  /** Where a run from the start gets to. */
  function Reached(steps: seq<Step>): World {
    Run(START, steps)
  }

  // ---- The invariant of every run ----

  /** When an event is due: its delay after its birth, plus what later calls withheld. */
  function Due(info: Info): nat {
    info.birth + info.secs + info.late
  }

  ghost predicate IdsOk(s: seq<Event>, lastId: int) {
    && (forall i :: 0 <= i < |s| ==> 1 <= s[i].id <= lastId && s[i].remaining > 0 && !s[i].marked)
    && (forall i, j :: 0 <= i < j < |s| ==> s[i].id < s[j].id)
  }

  ghost predicate TimerOk(w: World) {
    && w.core.temp == [] && !w.core.ringing
    && 0 <= w.core.left <= INT_MAX && w.armedAt <= w.now
    && (w.core.left == 0 ==> w.core.main == [])
    && (w.core.left > 0 ==> w.core.left == w.core.lastSet - (w.now - w.armedAt))
    && (forall e :: e in w.core.main ==> w.core.lastSet <= e.remaining)
  }

  /** What the node of a pending event stores is the time from the last arming to its due time. */
  ghost predicate PendingOk(w: World) {
    forall e :: e in w.core.main ==>
      && e.id in w.info && !HasFired(w.log, e.id)
      && w.info[e.id].birth <= w.armedAt
      && w.armedAt + e.remaining == Due(w.info[e.id])
  }

  ghost predicate LogOk(w: World) {
    && (forall k :: 0 <= k < |w.log| ==> w.log[k].id in w.info && w.log[k].at == Due(w.info[w.log[k].id]))
    && (forall j, k :: 0 <= j < k < |w.log| ==> w.log[j].id != w.log[k].id)
  }

  ghost predicate Pending(w: World, id: int) {
    exists e :: e in w.core.main && e.id == id
  }

  ghost predicate HistoryOk(w: World) {
    && w.core.lastId >= 0
    && (forall id :: id in w.info <==> 1 <= id <= w.core.lastId)
    && (forall id :: id in w.info && !w.info[id].cancelled ==> Pending(w, id) || HasFired(w.log, id))
  }

  ghost predicate Inv(w: World) {
    IdsOk(w.core.main, w.core.lastId) && TimerOk(w) && PendingOk(w) && LogOk(w) && HistoryOk(w)
  }

  lemma {:induction false} MinRemainingIsLeast(s: seq<Event>)
    requires forall i :: 0 <= i < |s| ==> s[i].remaining > 0
    ensures 0 < MinRemaining(s) <= INT_MAX
    ensures forall e :: e in s && e.remaining <= INT_MAX ==> MinRemaining(s) <= e.remaining
    ensures MinRemaining(s) < INT_MAX ==> exists e :: e in s && e.remaining == MinRemaining(s)
    ensures forall e :: e in s ==> MinRemaining(s) <= e.remaining
  {
    if s != [] {
      MinRemainingIsLeast(s[..|s| - 1]);
      assert forall e :: e in s ==> e in s[..|s| - 1] || e == s[|s| - 1];
    }
  }

  lemma {:induction false} WithoutIdOrdered(s: seq<Event>, id: int, lastId: int)
    requires IdsOk(s, lastId)
    ensures IdsOk(WithoutId(s, id), lastId)
  {
    if s != [] {
      WithoutIdOrdered(s[..|s| - 1], id, lastId);
      var r := WithoutId(s[..|s| - 1], id);
      forall k | 0 <= k < |r| ensures r[k].id < s[|s| - 1].id {
        assert r[k] in s[..|s| - 1];
      }
    }
  }

  lemma {:induction false} UntouchedMember(s: seq<Event>, elapsed: int, dropped: set<int>, e: Event)
    ensures e in Untouched(s, elapsed, dropped) <==>
              e.remaining > 0 && e.id !in dropped && e.(remaining := e.remaining + elapsed) in s
  {
    if s != [] {
      var init, last := s[..|s| - 1], s[|s| - 1];
      UntouchedMember(init, elapsed, dropped, e);
      assert s == init + [last];
      assert e == last.(remaining := last.remaining - elapsed) <==> e.(remaining := e.remaining + elapsed) == last;
    }
  }

  lemma UntouchedMembers(s: seq<Event>, elapsed: int, dropped: set<int>)
    ensures forall e :: e in Untouched(s, elapsed, dropped) <==>
              e.remaining > 0 && e.id !in dropped && e.(remaining := e.remaining + elapsed) in s
  {
    forall e
      ensures e in Untouched(s, elapsed, dropped) <==>
                e.remaining > 0 && e.id !in dropped && e.(remaining := e.remaining + elapsed) in s
    {
      UntouchedMember(s, elapsed, dropped, e);
    }
  }

  lemma KeptFrom(s: seq<Event>, elapsed: int, dropped: set<int>, e: Event)
    requires e in Untouched(s, elapsed, dropped)
    ensures e.remaining > 0 && e.(remaining := e.remaining + elapsed) in s
  {
    UntouchedMember(s, elapsed, dropped, e);
  }

  lemma {:induction false} UntouchedOrdered(s: seq<Event>, elapsed: int, dropped: set<int>, lastId: int)
    requires IdsOk(s, lastId)
    ensures IdsOk(Untouched(s, elapsed, dropped), lastId)
  {
    if s != [] {
      var init, last := s[..|s| - 1], s[|s| - 1];
      UntouchedOrdered(init, elapsed, dropped, lastId);
      var r := Untouched(init, elapsed, dropped);
      forall k | 0 <= k < |r|
        ensures r[k].id < last.id
      {
        KeptFrom(init, elapsed, dropped, r[k]);
      }
    }
  }

  ghost predicate Ascending(r: seq<Firing>) {
    forall j, k :: 0 <= j < k < |r| ==> r[j].id < r[k].id
  }

  lemma {:induction false} FiredMembers(s: seq<Event>, elapsed: int, at: nat, lastId: int)
    requires IdsOk(s, lastId)
    ensures forall f :: f in Fired(s, elapsed, at) ==>
              f.at == at && exists e :: e in s && e.id == f.id && e.remaining <= elapsed
    ensures forall e :: e in s && e.remaining <= elapsed ==> Firing(e.id, at) in Fired(s, elapsed, at)
    ensures Ascending(Fired(s, elapsed, at))
  {
    if s != [] {
      var init, last := s[..|s| - 1], s[|s| - 1];
      FiredMembers(init, elapsed, at, lastId);
      var r := Fired(init, elapsed, at);
      assert s == init + [last];
      forall k | 0 <= k < |r| ensures r[k].id < last.id {
        assert r[k] in r;
        var e :| e in init && e.id == r[k].id;
      }
      assert Fired(s, elapsed, at) == r + if last.remaining <= elapsed then [Firing(last.id, at)] else [];
    }
  }

  lemma FiredIds(s: seq<Event>, elapsed: int, at: nat, lastId: int, id: int)
    requires IdsOk(s, lastId)
    ensures HasFired(Fired(s, elapsed, at), id) <==> exists e :: e in s && e.id == id && e.remaining <= elapsed
  {
    FiredMembers(s, elapsed, at, lastId);
    var r := Fired(s, elapsed, at);
    if HasFired(r, id) {
      var k :| 0 <= k < |r| && r[k].id == id;
      assert r[k] in r;
    }
    if e :| e in s && e.id == id && e.remaining <= elapsed {
      assert Firing(id, at) in r;
    }
  }

  lemma ScheduleKeepsLog(w: World, secs: Seconds)
    requires Inv(w)
    ensures LogOk(Next(w, CallSchedule(secs)))
  {
    var v := Next(w, CallSchedule(secs));
    forall k | 0 <= k < |w.log| ensures w.log[k].id in v.info && w.log[k].at == Due(v.info[w.log[k].id]) {
      assert HasFired(w.log, w.log[k].id);
    }
  }

  lemma ScheduleAppends(c: Core, secs: Seconds, event: Event)
    requires !c.ringing && event == Event(secs, c.lastId + 1, false)
    ensures ScheduleAlarm(c, secs).main == c.main + [event]
    ensures forall e :: e in ScheduleAlarm(c, secs).main <==> e in c.main || e == event
  {
  }

  lemma ScheduleKeepsTimer(w: World, secs: Seconds)
    requires Inv(w)
    ensures var v := Next(w, CallSchedule(secs)); IdsOk(v.core.main, v.core.lastId) && TimerOk(v)
  {
    ScheduleAppends(w.core, secs, Event(secs, w.core.lastId + 1, false));
  }

  lemma ScheduleKeepsPending(w: World, secs: Seconds)
    requires Inv(w)
    ensures PendingOk(Next(w, CallSchedule(secs)))
  {
    var v := Next(w, CallSchedule(secs));
    var event := Event(secs, w.core.lastId + 1, false);
    ScheduleAppends(w.core, secs, event);
    forall e | e in v.core.main
      ensures e.id in v.info && !HasFired(v.log, e.id)
      ensures e.id in v.info && v.info[e.id].birth <= v.armedAt && v.armedAt + e.remaining == Due(v.info[e.id])
    {
      if e == event {
        assert e.id !in w.info;
      } else {
        assert e in w.core.main;
      }
    }
  }

  lemma ScheduleKeepsInv(w: World, secs: Seconds)
    requires Inv(w)
    ensures Inv(Next(w, CallSchedule(secs)))
  {
    ScheduleKeepsTimer(w, secs);
    ScheduleKeepsPending(w, secs);
    ScheduleKeepsLog(w, secs);
    ScheduleKeepsHistory(w, secs);
  }

  lemma ScheduleKeepsHistory(w: World, secs: Seconds)
    requires Inv(w)
    ensures HistoryOk(Next(w, CallSchedule(secs)))
  {
    var v := Next(w, CallSchedule(secs));
    var event := Event(secs, w.core.lastId + 1, false);
    forall id | id in v.info && !v.info[id].cancelled ensures Pending(v, id) || HasFired(v.log, id) {
      if id == event.id {
        assert event in v.core.main;
      } else if Pending(w, id) {
        var e :| e in w.core.main && e.id == id;
        assert e in v.core.main;
      }
    }
  }

  lemma UnscheduleKeepsInv(w: World, id: int)
    requires Inv(w)
    ensures Inv(Next(w, CallUnschedule(id)))
  {
    var v := Next(w, CallUnschedule(id));
    WithoutIdOrdered(w.core.main, id, w.core.lastId);
    forall i | i in v.info && !v.info[i].cancelled ensures Pending(v, i) || HasFired(v.log, i) {
      if Pending(w, i) {
        var e :| e in w.core.main && e.id == i;
        assert e in v.core.main;
      }
    }
  }

  lemma {:induction false} BirthsAre(created: seq<Event>, at: nat, lastId: int)
    requires forall i :: 0 <= i < |created| ==> created[i].id == lastId + 1 + i && 0 < created[i].remaining <= INT_MAX
    ensures forall id :: id in Births(created, at) <==> lastId < id <= lastId + |created|
    ensures forall e :: e in created ==>
              e.id in Births(created, at) && Births(created, at)[e.id] == Info(at, e.remaining, 0, false)
  {
    if created != [] {
      BirthsAre(created[..|created| - 1], at, lastId);
      assert created == created[..|created| - 1] + [created[|created| - 1]];
    }
  }

  /** The pieces of a ring seen from a reachable state. */
  ghost predicate RingParts(w: World, ops: seq<Op>, kept: seq<Event>, created: seq<Event>,
                            fired: seq<Firing>, v: World) {
    && kept == Untouched(w.core.main, w.core.lastSet, Dropped(ops))
    && created == Created(ops, w.core.lastId)
    && fired == Fired(w.core.main, w.core.lastSet, w.now + 1)
    && v.core.main == kept + created
    && v.core == Core(kept + created, [], w.core.lastId + |created|, false,
                      MinRemaining(kept + created), MinRemaining(kept + created))
    && v.now == w.now + 1 && v.armedAt == w.now + 1 && v.log == w.log + fired
    && (forall e :: e in created ==> 0 < e.remaining <= INT_MAX)
    && v.info == RingInfo(w.info, ops, created, w.now + 1)
  }

  lemma RingHistory(w: World, acts: int -> seq<Op>)
    ensures var v, ops := RingWorld(w, acts), RingOps(w.core, acts);
            var created := Created(ops, w.core.lastId);
            && v.core == Ring(w.core, acts) && v.now == v.armedAt == w.now + 1
            && v.log == w.log + Fired(w.core.main, w.core.lastSet, w.now + 1)
            && (forall e :: e in created ==> 0 < e.remaining <= INT_MAX)
            && v.info == RingInfo(w.info, ops, created, w.now + 1)
  {
    CreatedInRange(RingOps(w.core, acts), w.core.lastId);
  }

  lemma RingDecomposes(w: World, acts: int -> seq<Op>)
    returns (ops: seq<Op>, kept: seq<Event>, created: seq<Event>, fired: seq<Firing>)
    requires Inv(w)
    ensures RingParts(w, ops, kept, created, fired, RingWorld(w, acts)) && ops == RingOps(w.core, acts)
  {
    ops := RingOps(w.core, acts);
    kept := Untouched(w.core.main, w.core.lastSet, Dropped(ops));
    created := Created(ops, w.core.lastId);
    fired := Fired(w.core.main, w.core.lastSet, w.now + 1);
    RingHistory(w, acts);
    RingClosedForm(w.core, acts);
  }

  lemma RingKeepsTimer(w: World, ops: seq<Op>, kept: seq<Event>, created: seq<Event>, fired: seq<Firing>, v: World)
    requires Inv(w) && RingParts(w, ops, kept, created, fired, v)
    ensures IdsOk(v.core.main, v.core.lastId) && TimerOk(v)
  {
    UntouchedOrdered(w.core.main, w.core.lastSet, Dropped(ops), w.core.lastId);
    assert IdsOk(v.core.main, v.core.lastId);
    MinRemainingIsLeast(v.core.main);
  }

  lemma RingKeepsPending(w: World, ops: seq<Op>, kept: seq<Event>, created: seq<Event>, fired: seq<Firing>, v: World)
    requires Inv(w) && RingParts(w, ops, kept, created, fired, v) && w.core.left == 1
    ensures PendingOk(v)
  {
    forall e | e in v.core.main
      ensures e.id in v.info && !HasFired(v.log, e.id) && v.info[e.id].birth <= v.armedAt
      ensures e.id in v.info && v.armedAt + e.remaining == Due(v.info[e.id])
    {
      if e in kept {
        KeptStaysPending(w, ops, kept, created, fired, v, e);
      } else {
        CreatedIsPending(w, ops, kept, created, fired, v, e);
      }
    }
  }

  lemma InfoOfKept(info: map<int, Info>, ops: seq<Op>, created: seq<Event>, at: nat, lastId: int, id: int)
    requires forall i :: 0 <= i < |created| ==> created[i].id == lastId + 1 + i && 0 < created[i].remaining <= INT_MAX
    requires id in info && id <= lastId
    ensures var after := RingInfo(info, ops, created, at);
            id in after && after[id].birth == info[id].birth && Due(after[id]) == Due(info[id])
  {
    BirthsAre(created, at, lastId);
  }

  lemma NotDue(s: seq<Event>, elapsed: int, at: nat, lastId: int, e: Event)
    requires IdsOk(s, lastId) && e in s && e.remaining > elapsed
    ensures !HasFired(Fired(s, elapsed, at), e.id)
  {
    FiredIds(s, elapsed, at, lastId, e.id);
  }

  lemma KeptStaysPending(w: World, ops: seq<Op>, kept: seq<Event>, created: seq<Event>,
                         fired: seq<Firing>, v: World, e: Event)
    requires Inv(w) && RingParts(w, ops, kept, created, fired, v) && w.core.left == 1 && e in kept
    ensures e.id in v.info && !HasFired(v.log, e.id) && v.info[e.id].birth <= v.armedAt
    ensures v.armedAt + e.remaining == Due(v.info[e.id])
  {
    KeptFrom(w.core.main, w.core.lastSet, Dropped(ops), e);
    var before := e.(remaining := e.remaining + w.core.lastSet);
    InfoOfKept(w.info, ops, created, w.now + 1, w.core.lastId, before.id);
    NotDue(w.core.main, w.core.lastSet, w.now + 1, w.core.lastId, before);
    NotFiredTwice(w.log, fired, e.id);
  }

  lemma CreatedIsPending(w: World, ops: seq<Op>, kept: seq<Event>, created: seq<Event>,
                         fired: seq<Firing>, v: World, e: Event)
    requires Inv(w) && RingParts(w, ops, kept, created, fired, v) && w.core.left == 1 && e in created
    ensures e.id in v.info && !HasFired(v.log, e.id) && v.info[e.id].birth <= v.armedAt
    ensures v.armedAt + e.remaining == Due(v.info[e.id])
  {
    BirthsAre(created, w.now + 1, w.core.lastId);
    FiredIds(w.core.main, w.core.lastSet, w.now + 1, w.core.lastId, e.id);
    NotFiredTwice(w.log, fired, e.id);
  }

  lemma SameIdSameEvent(w: World, e: Event)
    requires IdsOk(w.core.main, w.core.lastId) && e in w.core.main
    ensures forall o :: o in w.core.main && o.id == e.id ==> o == e
  {
  }

  lemma NotFiredTwice(a: seq<Firing>, b: seq<Firing>, id: int)
    ensures HasFired(a + b, id) <==> HasFired(a, id) || HasFired(b, id)
  {
    if HasFired(b, id) {
      var k :| 0 <= k < |b| && b[k].id == id;
      assert (a + b)[|a| + k].id == id;
    }
    if HasFired(a, id) {
      var k :| 0 <= k < |a| && a[k].id == id;
      assert (a + b)[k].id == id;
    }
  }

  /** A new firing is of an event that was pending and due, and of none that has fired before. */
  lemma NewFiring(w: World, fired: seq<Firing>, i: nat) returns (e: Event)
    requires Inv(w) && fired == Fired(w.core.main, w.core.lastSet, w.now + 1) && i < |fired|
    ensures e in w.core.main && e.id == fired[i].id && e.remaining <= w.core.lastSet && fired[i].at == w.now + 1
    ensures forall j :: 0 <= j < i ==> fired[j].id != fired[i].id
  {
    FiredMembers(w.core.main, w.core.lastSet, w.now + 1, w.core.lastId);
    var f := fired[i];
    assert f in fired;
    e :| e in w.core.main && e.id == f.id && e.remaining <= w.core.lastSet;
  }

  lemma NewFiringIsDue(w: World, ops: seq<Op>, created: seq<Event>, e: Event)
    requires Inv(w) && w.core.left == 1 && e in w.core.main && e.remaining <= w.core.lastSet
    requires created == Created(ops, w.core.lastId) && forall c :: c in created ==> 0 < c.remaining <= INT_MAX
    ensures var after := RingInfo(w.info, ops, created, w.now + 1); e.id in after && Due(after[e.id]) == w.now + 1
    ensures !HasFired(w.log, e.id)
  {
    InfoOfKept(w.info, ops, created, w.now + 1, w.core.lastId, e.id);
  }

  lemma OldFiringIsDue(w: World, ops: seq<Op>, created: seq<Event>, k: nat)
    requires Inv(w) && k < |w.log|
    requires created == Created(ops, w.core.lastId) && forall c :: c in created ==> 0 < c.remaining <= INT_MAX
    ensures var after := RingInfo(w.info, ops, created, w.now + 1);
            w.log[k].id in after && Due(after[w.log[k].id]) == w.log[k].at
  {
    InfoOfKept(w.info, ops, created, w.now + 1, w.core.lastId, w.log[k].id);
  }

  lemma RingKeepsLog(w: World, ops: seq<Op>, kept: seq<Event>, created: seq<Event>, fired: seq<Firing>, v: World)
    requires Inv(w) && RingParts(w, ops, kept, created, fired, v) && w.core.left == 1
    ensures LogOk(v)
  {
    forall k | 0 <= k < |v.log|
      ensures v.log[k].id in v.info && v.log[k].at == Due(v.info[v.log[k].id])
      ensures forall j :: 0 <= j < k ==> v.log[j].id != v.log[k].id
    {
      if k < |w.log| {
        OldFiringIsDue(w, ops, created, k);
      } else {
        var e := NewFiring(w, fired, k - |w.log|);
        NewFiringIsDue(w, ops, created, e);
        NotBefore(w.log, fired, k, e.id);
      }
    }
  }

  lemma NotBefore(a: seq<Firing>, b: seq<Firing>, k: nat, id: int)
    requires |a| <= k < |a| + |b| && !HasFired(a, id) && forall j :: 0 <= j < k - |a| ==> b[j].id != id
    ensures forall j :: 0 <= j < k ==> (a + b)[j].id != id
  {
    forall j | 0 <= j < k
      ensures (a + b)[j].id != id
    {
      if j < |a| {
        assert (a + b)[j] == a[j];
      } else {
        assert (a + b)[j] == b[j - |a|];
      }
    }
  }

  lemma KnownAfterRing(info: map<int, Info>, ops: seq<Op>, created: seq<Event>, at: nat, lastId: int, id: int)
    requires forall i :: 0 <= i < |created| ==> created[i].id == lastId + 1 + i && 0 < created[i].remaining <= INT_MAX
    requires forall i :: i in info <==> 1 <= i <= lastId
    requires lastId >= 0
    ensures var after := RingInfo(info, ops, created, at);
            && (id in after <==> 1 <= id <= lastId + |created|)
            && (id in info ==> after[id].cancelled == (info[id].cancelled || id in Dropped(ops)))
  {
    BirthsAre(created, at, lastId);
  }

  lemma DueOrKept(s: seq<Event>, elapsed: int, at: nat, dropped: set<int>, lastId: int, e: Event)
    requires IdsOk(s, lastId) && e in s && e.id !in dropped
    ensures HasFired(Fired(s, elapsed, at), e.id)
         || e.(remaining := e.remaining - elapsed) in Untouched(s, elapsed, dropped)
  {
    if e.remaining <= elapsed {
      FiredIds(s, elapsed, at, lastId, e.id);
    } else {
      UntouchedMember(s, elapsed, dropped, e.(remaining := e.remaining - elapsed));
    }
  }

  lemma PendingOrFired(w: World, ops: seq<Op>, kept: seq<Event>, created: seq<Event>,
                       fired: seq<Firing>, v: World, id: int)
    requires Inv(w) && RingParts(w, ops, kept, created, fired, v)
    requires 1 <= id <= w.core.lastId && !w.info[id].cancelled && id !in Dropped(ops)
    ensures Pending(v, id) || HasFired(v.log, id)
  {
    NotFiredTwice(w.log, fired, id);
    if !HasFired(w.log, id) {
      assert Pending(w, id);
      var e :| e in w.core.main && e.id == id;
      DueOrKept(w.core.main, w.core.lastSet, w.now + 1, Dropped(ops), w.core.lastId, e);
      var shifted := e.(remaining := e.remaining - w.core.lastSet);
      assert shifted in kept ==> shifted in v.core.main;
    }
  }

  lemma RingKeepsHistory(w: World, ops: seq<Op>, kept: seq<Event>, created: seq<Event>, fired: seq<Firing>, v: World)
    requires Inv(w) && RingParts(w, ops, kept, created, fired, v)
    ensures HistoryOk(v)
  {
    forall id
      ensures id in v.info <==> 1 <= id <= v.core.lastId
      ensures id in v.info && !v.info[id].cancelled ==> Pending(v, id) || HasFired(v.log, id)
    {
      KnownAfterRing(w.info, ops, created, w.now + 1, w.core.lastId, id);
      if w.core.lastId < id <= v.core.lastId {
        assert created[id - w.core.lastId - 1].id == id && created[id - w.core.lastId - 1] in v.core.main;
      } else if id in v.info && !v.info[id].cancelled {
        PendingOrFired(w, ops, kept, created, fired, v, id);
      }
    }
  }

  lemma TickKeepsInv(w: World, acts: int -> seq<Op>)
    requires Inv(w)
    ensures Inv(Next(w, Tick(acts)))
  {
    if w.core.left == 1 {
      var v := RingWorld(w, acts);
      var ops, kept, created, fired := RingDecomposes(w, acts);
      RingKeepsTimer(w, ops, kept, created, fired, v);
      RingKeepsPending(w, ops, kept, created, fired, v);
      RingKeepsLog(w, ops, kept, created, fired, v);
      RingKeepsHistory(w, ops, kept, created, fired, v);
    }
  }

  lemma NextKeepsInv(w: World, step: Step)
    requires Inv(w)
    ensures Inv(Next(w, step))
  {
    match step
    case CallSchedule(secs) => ScheduleKeepsInv(w, secs);
    case CallUnschedule(id) => UnscheduleKeepsInv(w, id);
    case Tick(acts) => TickKeepsInv(w, acts);
  }

  lemma {:induction false} InvAlways(w: World, steps: seq<Step>)
    requires Inv(w)
    ensures Inv(Run(w, steps))
  {
    if steps != [] {
      InvAlways(w, steps[..|steps| - 1]);
      NextKeepsInv(Run(w, steps[..|steps| - 1]), steps[|steps| - 1]);
    }
  }

  // ---- What the timer is armed to ----

  /** Outside a ring the timer is armed to the sooner of what it had left and the new alarm; in a ring it is let be. */
  ghost predicate ArmsTheSooner(c: Core, secs: Seconds, d: Core) {
    if c.ringing then d.left == c.left && d.lastSet == c.lastSet
    else
      && d.left == d.lastSet
      && (c.left == 0 ==> d.left == secs)
      && (c.left > 0 ==> d.left <= c.left && d.left <= secs && (d.left == c.left || d.left == secs))
  }

  lemma ScheduleArmsTheSooner(c: Core, secs: Seconds)
    requires 0 <= c.left <= INT_MAX
    ensures ArmsTheSooner(c, secs, ScheduleAlarm(c, secs))
  {
  }

  /** In every run schedule_alarm arms the timer to the sooner of the two, or to the new alarm if there was none. */
  lemma RunsArmTheSooner(steps: seq<Step>, secs: Seconds)
    ensures var w := Run(START, steps);
            !w.core.ringing && ArmsTheSooner(w.core, secs, Next(w, CallSchedule(secs)).core)
  {
    InvAlways(START, steps);
    ScheduleArmsTheSooner(Run(START, steps).core, secs);
  }

  /** Unscheduling never touches the timer, nor any event with another id. */
  lemma UnscheduleKeepsTheRest(c: Core, id: int)
    ensures var d := UnscheduleAlarm(c, id);
            && d.left == c.left && d.lastSet == c.lastSet && d.lastId == c.lastId && d.temp == c.temp
            && (forall e: Event :: e.id != id ==> (e in d.main <==> e in c.main))
  {
    var d := UnscheduleAlarm(c, id);
    forall e: Event | e.id != id
      ensures e in d.main <==> e in c.main
    {
      if e in c.main {
        var i :| 0 <= i < |c.main| && c.main[i] == e;
        assert c.ringing ==> d.main[i] == e;
      }
    }
  }

  // ---- What every run guarantees ----

  /**
   * In every run, whatever the callbacks do: each firing happens exactly when it is due, no event fires
   * twice, and an event nobody unscheduled has fired if and only if its due time has come.
   */
  lemma FiresExactlyWhenDue(steps: seq<Step>)
    ensures var w := Run(START, steps);
            && (forall k :: 0 <= k < |w.log| ==> w.log[k].id in w.info && w.log[k].at == Due(w.info[w.log[k].id]))
            && (forall j, k :: 0 <= j < k < |w.log| ==> w.log[j].id != w.log[k].id)
            && (forall id :: id in w.info && !w.info[id].cancelled ==>
                      (HasFired(w.log, id) <==> Due(w.info[id]) <= w.now))
  {
    InvAlways(START, steps);
    var w := Run(START, steps);
    NothingFiresAhead(steps);
    forall id | id in w.info && !w.info[id].cancelled
      ensures HasFired(w.log, id) <==> Due(w.info[id]) <= w.now
    {
      if HasFired(w.log, id) {
        var k :| 0 <= k < |w.log| && w.log[k].id == id;
        assert w.log[k].at <= w.now;
      } else {
        var e :| e in w.core.main && e.id == id;
        assert w.now < w.armedAt + e.remaining;
      }
    }
  }

  ghost predicate NotAhead(w: World) {
    forall f :: f in w.log ==> f.at <= w.now
  }

  lemma {:induction false} FiredNow(s: seq<Event>, elapsed: int, at: nat)
    ensures forall f :: f in Fired(s, elapsed, at) ==> f.at == at
  {
    if s != [] {
      FiredNow(s[..|s| - 1], elapsed, at);
    }
  }

  lemma JoinedNotAhead(a: seq<Firing>, b: seq<Firing>, now: nat)
    requires (forall f :: f in a ==> f.at <= now) && (forall f :: f in b ==> f.at <= now)
    ensures forall f :: f in a + b ==> f.at <= now
  {
  }

  lemma RingNotAhead(w: World, v: World)
    requires NotAhead(w) && v.now == w.now + 1
    requires v.log == w.log + Fired(w.core.main, w.core.lastSet, w.now + 1)
    ensures NotAhead(v)
  {
    FiredNow(w.core.main, w.core.lastSet, w.now + 1);
    JoinedNotAhead(w.log, Fired(w.core.main, w.core.lastSet, w.now + 1), w.now + 1);
  }

  lemma NextNotAhead(w: World, step: Step)
    requires NotAhead(w)
    ensures NotAhead(Next(w, step))
  {
    if step.Tick? && w.core.left == 1 {
      var v := RingTick(w, step.acts);
      RingNotAhead(w, v);
    }
  }

  lemma {:induction false} NothingFiresAhead(steps: seq<Step>)
    ensures NotAhead(Run(START, steps))
  {
    if steps != [] {
      var init := steps[..|steps| - 1];
      NothingFiresAhead(init);
      NextNotAhead(Run(START, init), steps[|steps| - 1]);
    }
  }

  /** Over the calls of schedule_alarm made while `id` waits, the seconds since the last arming. */
  function Withheld(w: World, steps: seq<Step>, id: int): nat {
    if steps == [] then 0
    else
      var before := Run(w, steps[..|steps| - 1]);
      Withheld(w, steps[..|steps| - 1], id)
      + if steps[|steps| - 1].CallSchedule? && id in before.info && !HasFired(before.log, id)
        then Elapsed(before) else 0
  }

  lemma RingLate(w: World, acts: int -> seq<Op>, id: int)
    requires Inv(w) && id in RingWorld(w, acts).info
    ensures RingWorld(w, acts).info[id].late == if id in w.info then w.info[id].late else 0
  {
    var ops, kept, created, fired := RingDecomposes(w, acts);
    LateAfterRing(w.info, ops, created, w.now + 1, w.core.lastId, id);
  }

  lemma LateAfterRing(info: map<int, Info>, ops: seq<Op>, created: seq<Event>, at: nat, lastId: int, id: int)
    requires forall i :: 0 <= i < |created| ==> created[i].id == lastId + 1 + i && 0 < created[i].remaining <= INT_MAX
    requires forall i :: i in info ==> i <= lastId
    ensures id in RingInfo(info, ops, created, at) ==>
              RingInfo(info, ops, created, at)[id].late == if id in info then info[id].late else 0
  {
    BirthsAre(created, at, lastId);
    if lastId < id <= lastId + |created| {
      assert created[id - lastId - 1] in created;
    }
  }

  lemma NextLate(w: World, step: Step, id: int)
    requires Inv(w) && id in Next(w, step).info
    ensures Next(w, step).info[id].late
            == if id !in w.info then 0
               else w.info[id].late + if step.CallSchedule? && !HasFired(w.log, id) then Elapsed(w) else 0
  {
    match step
    case CallSchedule(_) =>
    case CallUnschedule(_) =>
    case Tick(acts) =>
      if w.core.left == 1 {
        RingLate(w, acts, id);
      }
  }

  /** The delay of every event is fixed by the calls made while it waits. */
  lemma {:induction false} LateIsWithheld(steps: seq<Step>, id: int)
    ensures var w := Run(START, steps);
            if id in w.info then w.info[id].late == Withheld(START, steps, id) else Withheld(START, steps, id) == 0
  {
    if steps != [] {
      var init, last := steps[..|steps| - 1], steps[|steps| - 1];
      var w := Run(START, init);
      LateIsWithheld(init, id);
      InvAlways(START, init);
      NextKeepsInv(w, last);
      if id in Next(w, last).info {
        NextLate(w, last, id);
      } else {
        IdsGrow(w, last);
      }
    }
  }

  lemma IdsGrow(w: World, step: Step)
    requires Inv(w)
    ensures w.core.lastId <= Next(w, step).core.lastId
    ensures forall id :: id in w.info ==> id in Next(w, step).info
  {
    NextKeepsInv(w, step);
    if step.Tick? && w.core.left == 1 {
      RingClosedForm(w.core, step.acts);
    }
  }

  /** Step `i` is a call of schedule_alarm outside a ring while `id` is waiting. */
  ghost predicate CallsWhileWaiting(steps: seq<Step>, i: nat, id: int)
    requires i < |steps|
  {
    var before := Run(START, steps[..i]);
    steps[i].CallSchedule? && id in before.info && !HasFired(before.log, id)
  }

  /** No such call comes seconds after the timer was armed. */
  ghost predicate NothingWithheld(steps: seq<Step>, id: int) {
    forall i :: 0 <= i < |steps| && CallsWhileWaiting(steps, i, id) ==> Elapsed(Run(START, steps[..i])) == 0
  }

  lemma PrefixCalls(steps: seq<Step>, n: nat, i: nat, id: int)
    requires i < n <= |steps|
    ensures steps[..n][..i] == steps[..i]
    ensures CallsWhileWaiting(steps[..n], i, id) <==> CallsWhileWaiting(steps, i, id)
  {
    assert steps[..n][..i] == steps[..i];
  }

  lemma NothingWithheldSplits(steps: seq<Step>, n: nat, id: int)
    requires |steps| == n + 1
    ensures NothingWithheld(steps, id) <==>
              NothingWithheld(steps[..n], id)
              && (CallsWhileWaiting(steps, n, id) ==> Elapsed(Run(START, steps[..n])) == 0)
  {
    var init := steps[..n];
    forall i | 0 <= i < n
      ensures init[..i] == steps[..i] && (CallsWhileWaiting(init, i, id) <==> CallsWhileWaiting(steps, i, id))
    {
      PrefixCalls(steps, n, i, id);
    }
  }

  lemma {:induction false} WithheldIsZero(steps: seq<Step>, id: int)
    ensures Withheld(START, steps, id) == 0 <==> NothingWithheld(steps, id)
  {
    if steps != [] {
      var n := |steps| - 1;
      WithheldIsZero(steps[..n], id);
      NothingWithheldSplits(steps, n, id);
    }
  }

  /**
   * The promise of sched_alarm.h, "call func after secs seconds", holds of a firing if and only if every
   * schedule_alarm call made outside a ring while the event waited came zero seconds after an arming.  In any
   * case it fires late by exactly the seconds those calls withheld.
   */
  lemma OnTimeIffNothingWithheld(steps: seq<Step>, k: nat)
    requires k < |Run(START, steps).log|
    ensures var w := Run(START, steps);
            var f := w.log[k];
            && f.id in w.info
            && f.at == w.info[f.id].birth + w.info[f.id].secs + Withheld(START, steps, f.id)
            && (f.at == w.info[f.id].birth + w.info[f.id].secs <==> NothingWithheld(steps, f.id))
  {
    FiresExactlyWhenDue(steps);
    var id := Run(START, steps).log[k].id;
    LateIsWithheld(steps, id);
    WithheldIsZero(steps, id);
  }

  lemma ThreeSteps(a: Step, b: Step, c: Step)
    ensures [a] + [b] + [c] == [a, b, c]
  {
  }

  lemma FiveSteps(a: Step, b: Step, c: Step, d: Step, e: Step)
    ensures [a] + [b] + [c] + [d] + [e] == [a, b, c, d, e]
  {
  }

  lemma TwoAlarms(idle: int -> seq<Op>) returns (w: World)
    ensures w == Reached([CallSchedule(2)] + [Tick(idle)] + [CallSchedule(3)])
    ensures w.core == Core([Event(2, 1, false), Event(3, 2, false)], [], 2, false, 1, 1) && w.now == 1 && w.log == []
  {
    Extend([], CallSchedule(2));
    assert [] + [CallSchedule(2)] == [CallSchedule(2)];
    Extend([CallSchedule(2)], Tick(idle));
    Extend([CallSchedule(2)] + [Tick(idle)], CallSchedule(3));
    w := Reached([CallSchedule(2)] + [Tick(idle)] + [CallSchedule(3)]);
  }

  lemma UntouchedPair(a: Event, b: Event, elapsed: int)
    requires a.remaining > elapsed && b.remaining > elapsed
    ensures Untouched([a, b], elapsed, {})
         == [a.(remaining := a.remaining - elapsed), b.(remaining := b.remaining - elapsed)]
  {
    assert [a, b][..1] == [a] && [a][..0] == [];
    assert Untouched([a], elapsed, {}) == [a.(remaining := a.remaining - elapsed)];
  }

  lemma NothingDue(a: Event, b: Event, elapsed: int, acts: int -> seq<Op>)
    requires a.remaining > elapsed && b.remaining > elapsed
    ensures DueOps(Charge([a, b], elapsed), 2, acts) == []
  {
    var m := Charge([a, b], elapsed);
    assert DueOps(m, 2, acts) == DueOps(m, 1, acts) == DueOps(m, 0, acts);
  }

  lemma MinOfPair(a: Event, b: Event)
    requires 0 < a.remaining <= b.remaining && a.remaining < INT_MAX
    ensures MinRemaining([a, b]) == a.remaining
  {
    assert [a, b][..1] == [a] && [a][..0] == [];
    assert MinRemaining([a]) == a.remaining;
  }

  /** A ring in which nothing is due. */
  lemma IdleRing(c: Core, acts: int -> seq<Op>)
    requires c == Core([Event(2, 1, false), Event(3, 2, false)], [], 2, false, 1, 1)
    ensures Ring(c, acts) == Core([Event(1, 1, false), Event(2, 2, false)], [], 2, false, 1, 1)
  {
    var list := [Event(1, 1, false), Event(2, 2, false)];
    NothingDue(Event(2, 1, false), Event(3, 2, false), 1, acts);
    RingClosedForm(c, acts);
    UntouchedPair(Event(2, 1, false), Event(3, 2, false), 1);
    assert Dropped([]) == {} && Created([], 2) == [] && list + [] == list;
    MinOfPair(list[0], list[1]);
  }

  /** Alarms of two and three seconds, set one second apart: the first one fires after three seconds. */
  lemma FirstAlarmFiresLate(idle: int -> seq<Op>)
    ensures var w := Reached([CallSchedule(2), Tick(idle), CallSchedule(3), Tick(idle), Tick(idle)]);
            w.now == 3 && w.log == [Firing(1, 3)]
  {
    var w := TwoAlarms(idle);
    var v, u := TwoRings(w, idle);
    var steps := [CallSchedule(2)] + [Tick(idle)] + [CallSchedule(3)];
    Extend(steps, Tick(idle));
    Extend(steps + [Tick(idle)], Tick(idle));
    FiveSteps(CallSchedule(2), Tick(idle), CallSchedule(3), Tick(idle), Tick(idle));
  }

  lemma RingTick(w: World, acts: int -> seq<Op>) returns (v: World)
    requires w.core.left == 1
    ensures v == Next(w, Tick(acts)) && v.core == Ring(w.core, acts) && v.now == w.now + 1
    ensures v.log == w.log + Fired(w.core.main, w.core.lastSet, w.now + 1)
  {
    v := RingWorld(w, acts);
    RingHistory(w, acts);
  }

  lemma TwoRings(w: World, idle: int -> seq<Op>) returns (v: World, u: World)
    requires w.core == Core([Event(2, 1, false), Event(3, 2, false)], [], 2, false, 1, 1) && w.now == 1 && w.log == []
    ensures v == Next(w, Tick(idle)) && u == Next(v, Tick(idle)) && u.now == 3 && u.log == [Firing(1, 3)]
  {
    v := RingTick(w, idle);
    IdleRing(w.core, idle);
    FiredPair(Event(2, 1, false), Event(3, 2, false), 1, 2);
    u := RingTick(v, idle);
    FiredPair(Event(1, 1, false), Event(2, 2, false), 1, 3);
  }

  lemma FiredPair(a: Event, b: Event, elapsed: int, at: nat)
    ensures Fired([a, b], elapsed, at)
         == (if a.remaining <= elapsed then [Firing(a.id, at)] else [])
            + (if b.remaining <= elapsed then [Firing(b.id, at)] else [])
  {
    assert [a, b][..1] == [a] && [a][..0] == [];
    assert Fired([a], elapsed, at) == if a.remaining <= elapsed then [Firing(a.id, at)] else [];
  }

  lemma Extend(steps: seq<Step>, last: Step)
    ensures Reached(steps + [last]) == Next(Reached(steps), last)
  {
    assert (steps + [last])[..|steps|] == steps;
  }

  // ---- Unscheduling ----

  lemma NextNeverRevives(w: World, step: Step, id: int)
    requires Inv(w) && id <= w.core.lastId && !Pending(w, id)
    ensures var v := Next(w, step);
            id <= v.core.lastId && !Pending(v, id) && (HasFired(v.log, id) <==> HasFired(w.log, id))
  {
    if step.Tick? && w.core.left == 1 {
      var ops, kept, created, fired := RingDecomposes(w, step.acts);
      UntouchedMembers(w.core.main, w.core.lastSet, Dropped(ops));
      FiredIds(w.core.main, w.core.lastSet, w.now + 1, w.core.lastId, id);
      NotFiredTwice(w.log, fired, id);
    }
  }

  lemma {:induction false} NeverRevives(w: World, steps: seq<Step>, id: int)
    requires Inv(w) && id <= w.core.lastId && !Pending(w, id)
    ensures var v := Run(w, steps);
            id <= v.core.lastId && !Pending(v, id) && (HasFired(v.log, id) <==> HasFired(w.log, id))
  {
    if steps != [] {
      NeverRevives(w, steps[..|steps| - 1], id);
      InvAlways(w, steps[..|steps| - 1]);
      NextNeverRevives(Run(w, steps[..|steps| - 1]), steps[|steps| - 1], id);
    }
  }

  /** Unscheduled outside a ring: no later step of any run fires the event. */
  lemma UnscheduledNeverFires(w: World, id: int, steps: seq<Step>)
    requires Inv(w) && id <= w.core.lastId
    ensures HasFired(Run(Next(w, CallUnschedule(id)), steps).log, id) <==> HasFired(w.log, id)
  {
    UnscheduleKeepsInv(w, id);
    NeverRevives(Next(w, CallUnschedule(id)), steps, id);
  }

  /**
   * Unscheduled by a callback during a ring.  The event still fires in this very ring if and only if it was
   * due in it, for fire_single does not look at the mark; and it is still pending afterwards if and only if this
   * ring has scheduled it, for the temporary list is not searched.
   */
  lemma UnscheduledDuringRing(w: World, acts: int -> seq<Op>, id: int)
    requires Inv(w) && w.core.left == 1 && Unschedule(id) in RingOps(w.core, acts)
    ensures var v := RingWorld(w, acts);
            && (HasFired(v.log, id) <==>
                  HasFired(w.log, id) || exists e :: e in w.core.main && e.id == id && e.remaining <= w.core.lastSet)
            && (Pending(v, id) <==> w.core.lastId < id <= v.core.lastId)
  {
    var v := RingWorld(w, acts);
    var ops, kept, created, fired := RingDecomposes(w, acts);
    assert id in Dropped(ops);
    UntouchedMembers(w.core.main, w.core.lastSet, Dropped(ops));
    FiredIds(w.core.main, w.core.lastSet, w.now + 1, w.core.lastId, id);
    NotFiredTwice(w.log, fired, id);
    if w.core.lastId < id <= v.core.lastId {
      assert created[id - w.core.lastId - 1] in v.core.main;
    }
  }

  lemma {:induction false} DueOpsGrow(s: seq<Event>, j: nat, n: nat, acts: int -> seq<Op>, op: Op)
    requires j <= n <= |s| && op in DueOps(s, j, acts)
    ensures op in DueOps(s, n, acts)
  {
    if j < n {
      DueOpsGrow(s, j, n - 1, acts, op);
    }
  }

  /** Unscheduled by the callback of an event in front of it, an event fires all the same if and only if it is due. */
  lemma UnscheduledBeforeItsTurn(w: World, acts: int -> seq<Op>, j: nat)
    requires Inv(w) && w.core.left == 1 && j < |w.core.main|
    requires Unschedule(w.core.main[j].id) in DueOps(Charge(w.core.main, w.core.lastSet), j, acts)
    ensures HasFired(RingWorld(w, acts).log, w.core.main[j].id) <==> w.core.main[j].remaining <= w.core.lastSet
  {
    var e, charged := w.core.main[j], Charge(w.core.main, w.core.lastSet);
    DueOpsGrow(charged, j, |charged|, acts, Unschedule(e.id));
    UnscheduledDuringRing(w, acts, e.id);
    assert e in w.core.main;
    SameIdSameEvent(w, e);
  }

  /** An event of the main list that is unscheduled during a ring fires in no later step of any run. */
  lemma RingUnscheduledNeverFiresLater(w: World, acts: int -> seq<Op>, id: int, steps: seq<Step>)
    requires Inv(w) && w.core.left == 1
    requires id <= w.core.lastId && Unschedule(id) in RingOps(w.core, acts)
    ensures HasFired(Run(RingWorld(w, acts), steps).log, id) <==> HasFired(RingWorld(w, acts).log, id)
  {
    var v := RingWorld(w, acts);
    TickKeepsInv(w, acts);
    UnscheduledDuringRing(w, acts, id);
    var ops, kept, created, fired := RingDecomposes(w, acts);
    NeverRevives(v, steps, id);
  }

  /** Two alarms due in the same second: the first one's callback unschedules the second, which fires all the same. */
  lemma UnscheduledYetFiresNow(acts: int -> seq<Op>)
    requires acts(1) == [Unschedule(2)] && acts(2) == []
    ensures Reached([CallSchedule(1), CallSchedule(1), Tick(acts)]).log == [Firing(1, 1), Firing(2, 1)]
  {
    var w := TwoDue();
    var v := RingTick(w, acts);
    FiredPair(Event(1, 1, false), Event(1, 2, false), 1, 1);
    var steps := [CallSchedule(1)] + [CallSchedule(1)];
    Extend(steps, Tick(acts));
    ThreeSteps(CallSchedule(1), CallSchedule(1), Tick(acts));
  }

  lemma TwoDue() returns (w: World)
    ensures w == Reached([CallSchedule(1)] + [CallSchedule(1)])
    ensures w.core == Core([Event(1, 1, false), Event(1, 2, false)], [], 2, false, 1, 1) && w.now == 0 && w.log == []
  {
    var one := OneDue();
    Extend([CallSchedule(1)], CallSchedule(1));
    w := Next(one, CallSchedule(1));
  }

  /** A callback schedules an alarm and unschedules it at once: it fires a second later. */
  lemma UnscheduledYetFiresLater(acts: int -> seq<Op>, idle: int -> seq<Op>)
    requires acts(1) == [Schedule(1), Unschedule(2)]
    ensures Reached([CallSchedule(1), Tick(acts), Tick(idle)]).log == [Firing(1, 1), Firing(2, 2)]
  {
    var w := OneDue();
    var v := FirstRing(w, acts);
    var u := RingTick(v, idle);
    FiredOne(Event(1, 2, false), 1, 2);
    Extend([CallSchedule(1)], Tick(acts));
    Extend([CallSchedule(1)] + [Tick(acts)], Tick(idle));
    ThreeSteps(CallSchedule(1), Tick(acts), Tick(idle));
  }

  lemma OneDue() returns (w: World)
    ensures w == Reached([CallSchedule(1)])
    ensures w.core == Core([Event(1, 1, false)], [], 1, false, 1, 1) && w.now == 0 && w.log == []
  {
    Extend([], CallSchedule(1));
    assert [] + [CallSchedule(1)] == [CallSchedule(1)];
    w := Next(START, CallSchedule(1));
  }

  lemma FirstRing(w: World, acts: int -> seq<Op>) returns (v: World)
    requires w.core == Core([Event(1, 1, false)], [], 1, false, 1, 1) && w.now == 0 && w.log == []
    requires acts(1) == [Schedule(1), Unschedule(2)]
    ensures v == Next(w, Tick(acts)) && v.core == Core([Event(1, 2, false)], [], 2, false, 1, 1)
    ensures v.now == 1 && v.log == [Firing(1, 1)]
  {
    v := RingTick(w, acts);
    OneEventRing(w.core, acts);
    FiredOne(Event(1, 1, false), 1, 1);
  }

  lemma FiredOne(e: Event, elapsed: int, at: nat)
    ensures Fired([e], elapsed, at) == if e.remaining <= elapsed then [Firing(e.id, at)] else []
  {
    assert [e][..0] == [];
  }

  lemma OneEventOps(e: Event, acts: int -> seq<Op>)
    requires e.remaining <= 0
    ensures DueOps([e], 1, acts) == acts(e.id)
  {
    assert DueOps([e], 0, acts) == [];
  }

  lemma CreatedOne(ops: seq<Op>, secs: Seconds, id: int, lastId: int)
    requires ops == [Schedule(secs), Unschedule(id)]
    ensures Created(ops, lastId) == [Event(secs, lastId + 1, false)] && Dropped(ops) == {id}
  {
    var first := ops[..1];
    assert first == [Schedule(secs)] && first[..0] == [];
    assert Created(first, lastId) == [Event(secs, lastId + 1, false)];
    assert ops[0] in ops && ops[1] in ops;
  }

  lemma MinOfOne(e: Event)
    requires 0 < e.remaining < INT_MAX
    ensures MinRemaining([e]) == e.remaining
  {
    assert [e][..0] == [];
  }

  lemma OneUntouched(e: Event, elapsed: int, dropped: set<int>)
    requires e.remaining <= elapsed
    ensures Untouched([e], elapsed, dropped) == [] && Charge([e], elapsed) == [e.(remaining := e.remaining - elapsed)]
  {
    assert [e][..0] == [];
  }

  lemma OneEventRing(c: Core, acts: int -> seq<Op>)
    requires c == Core([Event(1, 1, false)], [], 1, false, 1, 1) && acts(1) == [Schedule(1), Unschedule(2)]
    ensures Ring(c, acts) == Core([Event(1, 2, false)], [], 2, false, 1, 1)
  {
    var ops, new' := RingOps(c, acts), Event(1, 2, false);
    OneUntouched(Event(1, 1, false), 1, Dropped(ops));
    OneEventOps(Event(0, 1, false), acts);
    assert ops == [Schedule(1), Unschedule(2)];
    CreatedOne(ops, 1, 2, 1);
    MinOfOne(new');
    RingClosedForm(c, acts);
    assert [] + [new'] == [new'];
  }

  /** No event ever has id 0, so `unschedule_alarm(0)` changes nothing, ringing or not. */
  lemma UnscheduleZeroIsNoOp(c: Core)
    requires IdsOk(c.main, c.lastId)
    ensures UnscheduleAlarm(c, 0) == c && UnscheduleAlarm(c.(ringing := true), 0) == c.(ringing := true)
  {
    assert WithoutId(c.main, 0) == c.main by {
      WithoutAbsentId(c.main, 0);
    }
    assert Mark(c.main, 0) == c.main;
  }

  lemma {:induction false} WithoutAbsentId(s: seq<Event>, id: int)
    requires forall i :: 0 <= i < |s| ==> s[i].id != id
    ensures WithoutId(s, id) == s
  {
    if s != [] {
      WithoutAbsentId(s[..|s| - 1], id);
      assert s == s[..|s| - 1] + [s[|s| - 1]];
    }
  }

  // ---- Draining ----

  function RingAll(c: Core, plan: seq<int -> seq<Op>>): Core
    decreases |plan|
  {
    if plan == [] then c else RingAll(Ring(c, plan[0]), plan[1..])
  }

  ghost predicate SchedulesNothing(acts: int -> seq<Op>) {
    forall id, op :: op in acts(id) ==> op.Unschedule?
  }

  ghost predicate Quiet(c: Core) {
    c.temp == [] && !c.ringing && IdsOk(c.main, c.lastId) && forall e :: e in c.main ==> c.lastSet <= e.remaining
  }

  lemma {:induction false} UntouchedShrinks(s: seq<Event>, elapsed: int, dropped: set<int>)
    ensures |Untouched(s, elapsed, dropped)| <= |s|
    ensures (exists e :: e in s && e.remaining <= elapsed) ==> |Untouched(s, elapsed, dropped)| < |s|
  {
    if s != [] {
      UntouchedShrinks(s[..|s| - 1], elapsed, dropped);
      assert s == s[..|s| - 1] + [s[|s| - 1]];
    }
  }

  lemma {:induction false} NothingCreated(ops: seq<Op>, lastId: int)
    requires forall op :: op in ops ==> op.Unschedule?
    ensures Created(ops, lastId) == []
  {
    if ops != [] {
      NothingCreated(ops[..|ops| - 1], lastId);
      assert ops[|ops| - 1] in ops;
    }
  }

  lemma {:induction false} DueOpsComeFromActs(s: seq<Event>, n: nat, acts: int -> seq<Op>)
    requires n <= |s| && SchedulesNothing(acts)
    ensures forall op :: op in DueOps(s, n, acts) ==> op.Unschedule?
  {
    if n > 0 {
      DueOpsComeFromActs(s, n - 1, acts);
    }
  }

  lemma QuietRing(c: Core, acts: int -> seq<Op>)
    requires Quiet(c) && SchedulesNothing(acts)
    ensures var r := Ring(c, acts);
            && Quiet(r) && |r.main| <= |c.main| && r.lastSet == MinRemaining(r.main)
            && ((exists e :: e in c.main && e.remaining <= c.lastSet) ==> |r.main| < |c.main|)
  {
    var ops := RingOps(c, acts);
    RingClosedForm(c, acts);
    DueOpsComeFromActs(Charge(c.main, c.lastSet), |c.main|, acts);
    NothingCreated(ops, c.lastId);
    UntouchedShrinks(c.main, c.lastSet, Dropped(ops));
    UntouchedOrdered(c.main, c.lastSet, Dropped(ops), c.lastId);
    assert Ring(c, acts).main == Untouched(c.main, c.lastSet, Dropped(ops));
    MinRemainingIsLeast(Ring(c, acts).main);
  }

  lemma {:induction false} TightRingsDrain(c: Core, plan: seq<int -> seq<Op>>)
    requires Quiet(c) && c.lastSet == MinRemaining(c.main) && |c.main| <= |plan|
    requires forall e :: e in c.main ==> e.remaining <= INT_MAX
    requires forall acts :: acts in plan ==> SchedulesNothing(acts)
    ensures RingAll(c, plan).main == []
    decreases |plan|
  {
    if plan != [] {
      MinIsReached(c.main);
      assert plan[0] in plan;
      QuietRing(c, plan[0]);
      SmallStaysSmall(c, plan[0]);
      TightRingsDrain(Ring(c, plan[0]), plan[1..]);
    }
  }

  lemma SmallStaysSmall(c: Core, acts: int -> seq<Op>)
    requires Quiet(c) && SchedulesNothing(acts) && c.lastSet >= 0
    requires forall e :: e in c.main ==> e.remaining <= INT_MAX
    ensures forall e :: e in Ring(c, acts).main ==> e.remaining <= INT_MAX
  {
    var ops := RingOps(c, acts);
    RingClosedForm(c, acts);
    DueOpsComeFromActs(Charge(c.main, c.lastSet), |c.main|, acts);
    NothingCreated(ops, c.lastId);
    UntouchedMembers(c.main, c.lastSet, Dropped(ops));
  }

  lemma MinIsReached(s: seq<Event>)
    requires forall i :: 0 <= i < |s| ==> 0 < s[i].remaining <= INT_MAX
    ensures s == [] || exists e :: e in s && e.remaining <= MinRemaining(s)
    ensures 0 <= MinRemaining(s)
  {
    MinRemainingIsLeast(s);
    if s != [] {
      assert s[0] in s;
    }
  }

  lemma QuietDrains(c: Core, plan: seq<int -> seq<Op>>)
    requires Quiet(c) && 0 <= c.lastSet && |c.main| < |plan|
    requires forall e :: e in c.main ==> e.remaining <= INT_MAX
    requires forall acts :: acts in plan ==> SchedulesNothing(acts)
    ensures RingAll(c, plan).main == []
  {
    assert plan[0] in plan;
    QuietRing(c, plan[0]);
    SmallStaysSmall(c, plan[0]);
    TightRingsDrain(Ring(c, plan[0]), plan[1..]);
  }

  // ---- Reachable worlds drain ----

  /** No remaining time exceeds what an int holds, and the stored time is not negative. */
  ghost predicate Small(w: World) {
    0 <= w.core.lastSet && forall e :: e in w.core.main ==> e.remaining <= INT_MAX
  }

  lemma RingKeepsSmall(w: World, acts: int -> seq<Op>)
    requires Inv(w) && Small(w)
    ensures Small(RingWorld(w, acts))
  {
    var v := RingWorld(w, acts);
    var ops, kept, created, fired := RingDecomposes(w, acts);
    RingKeepsTimer(w, ops, kept, created, fired, v);
    MinRemainingIsLeast(v.core.main);
    forall e | e in kept
      ensures e.remaining <= INT_MAX
    {
      KeptFrom(w.core.main, w.core.lastSet, Dropped(ops), e);
    }
  }

  lemma {:induction false} SmallAlways(steps: seq<Step>)
    ensures Small(Run(START, steps))
  {
    if steps != [] {
      var init, last := steps[..|steps| - 1], steps[|steps| - 1];
      SmallAlways(init);
      InvAlways(START, init);
      var w := Run(START, init);
      if last.Tick? && w.core.left == 1 {
        RingKeepsSmall(w, last.acts);
      } else {
        OtherStepsKeepSmall(w, last);
      }
    }
  }

  lemma OtherStepsKeepSmall(w: World, step: Step)
    requires Inv(w) && Small(w) && !(step.Tick? && w.core.left == 1)
    ensures Small(Next(w, step))
  {
    match step
    case CallSchedule(secs) =>
      assert ScheduleAlarm(w.core, secs).main == w.core.main + [Event(secs, w.core.lastId + 1, false)];
    case CallUnschedule(id) =>
    case Tick(_) =>
  }

  /** In every run: if nothing new is scheduled, the n events that are pending are gone after n + 1 rings. */
  lemma RingsDrain(steps: seq<Step>, plan: seq<int -> seq<Op>>)
    requires |Run(START, steps).core.main| < |plan|
    requires forall acts :: acts in plan ==> SchedulesNothing(acts)
    ensures RingAll(Run(START, steps).core, plan).main == []
  {
    InvAlways(START, steps);
    SmallAlways(steps);
    QuietDrains(Run(START, steps).core, plan);
  }
}
