/**
 * util/sched_alarm.c on heap nodes: two linked lists of event records, the `ringing` flag and the timer.
 * Every method is proved against its counterpart in AlarmSpec.
 */
module SchedAlarm {
  import opened LinkedList
  import opened AlarmSpec

  /** alarm_event_id_node_cmpfunc */
  function IdCmp(id: int): Event -> int {
    (e: Event) => if e.id == id then 0 else 1
  }

  /** alarm_valid_cmpfunc: 0 says the event is to be cleaned */
  function ValidCmp(e: Event): int {
    if e.remaining > 0 && !e.marked then 1 else 0
  }

  lemma {:induction false} KeepOtherIds(s: seq<Event>, id: int)
    ensures Keep(s, IdCmp(id)) == WithoutId(s, id)
  {
    if s != [] {
      KeepOtherIds(s[..|s| - 1], id);
    }
  }

  lemma {:induction false} KeepValid(s: seq<Event>)
    ensures Keep(s, ValidCmp) == Survivors(s)
  {
    if s != [] {
      KeepValid(s[..|s| - 1]);
    }
  }

  class Scheduler {
    const alarmList: List<Event>
    const addTemp: List<Event>
    var lastId: int
    var ringing: bool
    var lastSetTime: int
    var left: int  // the kernel's timer, as alarm(0) reports it

    ghost function Repr(): set<object>
      reads this, alarmList, addTemp
    {
      {this, alarmList, addTemp} + alarmList.Repr + addTemp.Repr
    }

    ghost predicate Valid()
      reads Repr()
    {
      alarmList != addTemp && alarmList.Valid() && addTemp.Valid() && alarmList.Repr !! addTemp.Repr
    }

    ghost function View(): Core
      reads this, alarmList, addTemp
    {
      Core(alarmList.Contents, addTemp.Contents, lastId, ringing, lastSetTime, left)
    }

    constructor ()
      ensures Valid() && View() == INITIAL && fresh(Repr())
    {
      alarmList := new List();
      addTemp := new List();
      lastId, ringing, lastSetTime, left := 0, false, 0, 0;
    }

    /** set_alarm */
    method SetAlarm(time: int)
      modifies this`left, this`lastSetTime
      ensures left == time && lastSetTime == time
    {
      left := time;
      lastSetTime := time;
    }

    method ScheduleAlarm(secs: Seconds) returns (id: int)
      requires Valid()
      modifies Repr()
      ensures Valid() && fresh(Repr() - old(Repr()))
      ensures View() == AlarmSpec.ScheduleAlarm(old(View()), secs) && id == old(lastId) + 1
      ensures old(ringing) ==> alarmList.nodes == old(alarmList.nodes) && alarmList.Repr == old(alarmList.Repr)
    {
      lastId := lastId + 1;
      id := lastId;
      if ringing {
        addTemp.InsertData(Event(secs, id, false));
      } else {
        var current := left;
        left := 0;
        if current == 0 {
          current := INT_MAX;
        }
        SetAlarm(if current < secs then current else secs);
        alarmList.InsertData(Event(secs, id, false));
      }
    }

    method UnscheduleAlarm(id: int)
      requires Valid()
      modifies Repr()
      ensures Valid() && fresh(Repr() - old(Repr()))
      ensures View() == AlarmSpec.UnscheduleAlarm(old(View()), id)
      ensures old(ringing) ==> alarmList.nodes == old(alarmList.nodes) && alarmList.Repr == old(alarmList.Repr)
    {
      if ringing {
        alarmList.Traverse((e: Event) => if e.id == id then e.(marked := true) else e);
        assert alarmList.Contents == Mark(old(alarmList.Contents), id);
      } else {
        KeepOtherIds(alarmList.Contents, id);
        alarmList.RemoveData(IdCmp(id));
      }
    }

    /** find_min_remaining */
    method FindMinRemaining() returns (min: int)
      requires Valid()
      ensures min == MinRemaining(alarmList.Contents)
    {
      min := INT_MAX;
      var curr := alarmList.head;
      ghost var i := 0;
      ghost var s := alarmList.Contents;
      while curr != null
        invariant 0 <= i <= |s| && curr == NodeAt(alarmList.nodes, i)
        invariant min == MinRemaining(s[..i])
        decreases |s| - i
      {
        assert s[..i + 1][..i] == s[..i];
        if curr.content.remaining != 0 && curr.content.remaining < min {
          min := curr.content.remaining;
        }
        curr := curr.next;
        i := i + 1;
      }
      assert s[..i] == s;
    }

    /** The user function of one event: any calls of the scheduler's own interface. */
    method Callback(ops: seq<Op>)
      requires Valid() && ringing
      modifies Repr()
      ensures Valid() && fresh(Repr() - old(Repr()))
      ensures View() == PerformAll(old(View()), ops)
      ensures alarmList.nodes == old(alarmList.nodes) && alarmList.Repr == old(alarmList.Repr) && ringing
    {
      var k := 0;
      while k < |ops|
        invariant 0 <= k <= |ops| && Valid() && ringing && fresh(Repr() - old(Repr()))
        invariant View() == PerformAll(old(View()), ops[..k])
        invariant alarmList.nodes == old(alarmList.nodes) && alarmList.Repr == old(alarmList.Repr)
      {
        assert ops[..k + 1][..k] == ops[..k];
        match ops[k] {
          case Schedule(secs) => var _ := ScheduleAlarm(secs);
          case Unschedule(id) => UnscheduleAlarm(id);
        }
        k := k + 1;
      }
      assert ops[..k] == ops;
    }

    /** list_traverse with fire_single; `called` records whose function ran. */
    method FireAll(acts: int -> seq<Op>) returns (called: seq<int>)
      requires Valid() && ringing
      modifies Repr()
      ensures Valid() && ringing && fresh(Repr() - old(Repr()))
      ensures View() == FireUpTo(old(View()), |old(View()).main|, acts)
      ensures called == ExpiredIds(old(View()).main, |old(View()).main|)
    {
      called := [];
      var node := alarmList.head;
      ghost var i := 0;
      ghost var start := View();
      while node != null
        invariant 0 <= i <= |start.main| && Valid() && ringing && fresh(Repr() - old(Repr()))
        invariant alarmList.nodes == old(alarmList.nodes) && alarmList.Repr == old(alarmList.Repr)
        invariant node == NodeAt(alarmList.nodes, i)
        invariant View() == FireUpTo(start, i, acts) && called == ExpiredIds(start.main, i)
        decreases |start.main| - i
      {
        var tmp := node.next;
        assert node.content == View().main[i];
        if node.content.remaining <= 0 {
          called := called + [node.content.id];
          Callback(acts(node.content.id));
        }
        node := tmp;
        i := i + 1;
      }
    }

    /** The start of alarm_sig_handler: the seconds since the last arming are charged to every event. */
    method WakeUp()
      requires Valid()
      modifies Repr()
      ensures Valid() && Repr() == old(Repr()) && View() == Awake(old(View()))
    {
      ringing := true;
      left := 0;
      var elapsed := lastSetTime;
      alarmList.Traverse((e: Event) => e.(remaining := e.remaining - elapsed));
      assert alarmList.Contents == Charge(old(alarmList.Contents), elapsed);
    }

    /** Drop what has expired or is marked and take over the events the callbacks have scheduled. */
    method CleanUp()
      requires Valid()
      modifies Repr()
      ensures Valid() && fresh(Repr() - old(Repr()))
      ensures View() == old(View()).(main := Survivors(old(View()).main) + old(View()).temp, temp := [])
    {
      KeepValid(alarmList.Contents);
      alarmList.RemoveData(ValidCmp);
      alarmList.Concat(addTemp);
      addTemp.SetNull();
    }

    /** The end of alarm_sig_handler: clean the list and arm the timer for the nearest event. */
    method SettleDown()
      requires Valid()
      modifies Repr()
      ensures Valid() && fresh(Repr() - old(Repr())) && View() == Settle(old(View()))
    {
      CleanUp();
      var min := FindMinRemaining();
      Rearm(min);
    }

    method Rearm(time: int)
      requires Valid()
      modifies `left, `lastSetTime, `ringing
      ensures Valid() && Repr() == old(Repr())
      ensures View() == old(View()).(lastSet := time, left := time, ringing := false)
    {
      SetAlarm(time);
      ringing := false;
    }

    /** The list traversal and what follows it. */
    method RingOut(acts: int -> seq<Op>) returns (called: seq<int>)
      requires Valid() && ringing
      modifies Repr()
      ensures Valid() && fresh(Repr() - old(Repr()))
      ensures View() == Settle(FireUpTo(old(View()), |old(View()).main|, acts))
      ensures called == ExpiredIds(old(View()).main, |old(View()).main|)
    {
      called := FireAll(acts);
      SettleDown();
    }

    /** alarm_sig_handler: one ring, whatever the callbacks do. */
    method AlarmSigHandler(acts: int -> seq<Op>) returns (called: seq<int>)
      requires Valid()
      modifies Repr()
      ensures Valid() && fresh(Repr() - old(Repr()))
      ensures View() == Ring(old(View()), acts)
      ensures called == ExpiredIds(Awake(old(View())).main, |old(View()).main|)
    {
      WakeUp();
      called := RingOut(acts);
    }
  }
}
