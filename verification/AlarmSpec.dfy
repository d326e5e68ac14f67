/**
 * What util/sched_alarm.c does to its globals, as functions on values: the two lists of alarm events
 * and the one `alarm()` timer they share.
 */
module AlarmSpec {

  const INT_MAX := 0x7fff_ffff

  type Seconds = s: int | 0 < s <= INT_MAX witness 1

  datatype Event = Event(remaining: int, id: int, marked: bool)

  /** What a callback may do to the scheduler. */
  datatype Op = Schedule(secs: Seconds) | Unschedule(id: int)

  /** `left` is the time to SIGALRM as `alarm(0)` reports it, 0 when no alarm is set. */
  datatype Core = Core(main: seq<Event>, temp: seq<Event>, lastId: int, ringing: bool, lastSet: int, left: int)

  const INITIAL := Core([], [], 0, false, 0, 0)

  function Min(a: int, b: int): int {
    if a < b then a else b
  }

  /** schedule_alarm */
  function ScheduleAlarm(c: Core, secs: Seconds): Core {
    var event := Event(secs, c.lastId + 1, false);
    if c.ringing then
      c.(temp := c.temp + [event], lastId := c.lastId + 1)
    else
      var current := if c.left == 0 then INT_MAX else c.left;
      var time := Min(current, secs);
      c.(main := c.main + [event], lastId := c.lastId + 1, lastSet := time, left := time)
  }

  function WithoutId(s: seq<Event>, id: int): (r: seq<Event>)
    ensures forall e :: e in r <==> e in s && e.id != id
  {
    if s == [] then []
    else if s[|s| - 1].id == id then WithoutId(s[..|s| - 1], id)
    else WithoutId(s[..|s| - 1], id) + [s[|s| - 1]]
  }

  function Mark(s: seq<Event>, id: int): seq<Event> {
    seq(|s|, i requires 0 <= i < |s| => s[i].(marked := s[i].marked || s[i].id == id))
  }

  /** unschedule_alarm */
  function UnscheduleAlarm(c: Core, id: int): Core {
    if c.ringing then c.(main := Mark(c.main, id)) else c.(main := WithoutId(c.main, id))
  }

  function Perform(c: Core, op: Op): Core {
    match op
    case Schedule(secs) => ScheduleAlarm(c, secs)
    case Unschedule(id) => UnscheduleAlarm(c, id)
  }

  function PerformAll(c: Core, ops: seq<Op>): Core {
    if ops == [] then c else Perform(PerformAll(c, ops[..|ops| - 1]), ops[|ops| - 1])
  }

  /** list_traverse with update_remaining_single */
  function Charge(s: seq<Event>, secs: int): seq<Event> {
    seq(|s|, i requires 0 <= i < |s| => s[i].(remaining := s[i].remaining - secs))
  }

  /** list_traverse with fire_single over the first `n` nodes; `acts(id)` is what the callback of `id` does. */
  function FireUpTo(c: Core, n: nat, acts: int -> seq<Op>): (r: Core)
    requires n <= |c.main|
    requires c.ringing
    ensures r.ringing && |r.main| == |c.main|
    ensures forall i :: 0 <= i < |c.main| ==> r.main[i].id == c.main[i].id && r.main[i].remaining == c.main[i].remaining
  {
    if n == 0 then c
    else
      var before := FireUpTo(c, n - 1, acts);
      if before.main[n - 1].remaining <= 0 then
        PerformAllRinging(before, acts(before.main[n - 1].id));
        PerformAll(before, acts(before.main[n - 1].id))
      else before
  }

  /** The ids of the expired events among the first `n`, in order: whose functions fire_single calls. */
  function ExpiredIds(s: seq<Event>, n: nat): seq<int>
    requires n <= |s|
  {
    if n == 0 then [] else ExpiredIds(s, n - 1) + if s[n - 1].remaining <= 0 then [s[n - 1].id] else []
  }

  lemma PerformAllRinging(c: Core, ops: seq<Op>)
    requires c.ringing
    ensures var r := PerformAll(c, ops);
            r.ringing && |r.main| == |c.main|
            && forall i :: 0 <= i < |c.main| ==>
                  r.main[i].id == c.main[i].id && r.main[i].remaining == c.main[i].remaining
  {
  }

  /** remove_data with alarm_valid_cmpfunc */
  function Survivors(s: seq<Event>): (r: seq<Event>)
    ensures forall e :: e in r <==> e in s && e.remaining > 0 && !e.marked
  {
    if s == [] then []
    else
      var e := s[|s| - 1];
      Survivors(s[..|s| - 1]) + if e.remaining > 0 && !e.marked then [e] else []
  }

  /** find_min_remaining */
  function MinRemaining(s: seq<Event>): int {
    if s == [] then INT_MAX
    else
      var m := MinRemaining(s[..|s| - 1]);
      if s[|s| - 1].remaining != 0 && s[|s| - 1].remaining < m then s[|s| - 1].remaining else m
  }

  /** alarm_sig_handler up to the point where the callbacks run */
  function Awake(c: Core): Core {
    c.(ringing := true, left := 0, main := Charge(c.main, c.lastSet))
  }

  /** alarm_sig_handler after the callbacks have run */
  function Settle(c: Core): Core {
    var list := Survivors(c.main) + c.temp;
    var time := MinRemaining(list);
    Core(list, [], c.lastId, false, time, time)
  }

  /** alarm_sig_handler */
  function Ring(c: Core, acts: int -> seq<Op>): Core {
    Settle(FireUpTo(Awake(c), |c.main|, acts))
  }
}
