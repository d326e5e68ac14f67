/**
 * Runs of the EAP machine: any events in any order, any network, any leases.  A pending alarm may fire at any
 * time after it was set.
 */
module EapRuns {
  import opened Dhcp
  import opened EapSpec

  datatype Event = Boot
                 | Arrives(f: Frame, leaseOk: bool, messageOk: bool)
                 | Fires(i: nat, leaseOk: bool)

  function Handle(cfg: Config, net: Net, m: Machine, e: Event): Machine {
    if m.fate != Running then m
    else
      match e
      case Boot => Switch(cfg, net, m, Preparing, 0)
      case Arrives(f, leaseOk, messageOk) => Receive(cfg, net, m, f, leaseOk, messageOk)
      case Fires(i, leaseOk) => if i < |m.alarms| then Fire(cfg, net, m, i, leaseOk) else m
  }

  /**
   * The machine with what an observer of the events counts: successes since the last restart, failures that
   * did not end the process, restarts, failures of authentication since the last success or restart, and the
   * state the last event calls for.
   */
  datatype World = World(m: Machine, successes: nat, failures: nat, restarts: nat, streak: nat, expected: EapState)

  predicate IsSuccess(e: Event) {
    e.Arrives? && e.f.eapPacket && e.f.code == SuccessCode
  }

  predicate IsFailure(e: Event) {
    e.Arrives? && e.f.eapPacket && e.f.code == FailureCode
  }

  predicate IsRestart(m: Machine, e: Event) {
    e.Fires? && e.i < |m.alarms| && m.alarms[e.i].Restart?
  }

  predicate IsLease(m: Machine, e: Event) {
    e.Fires? && e.i < |m.alarms| && m.alarms[e.i].Secondary? && e.leaseOk
  }

  function Expected(w: World, e: Event): EapState {
    if e.Boot? || IsRestart(w.m, e) || IsLease(w.m, e) then StartSent
    else if IsSuccess(e) then Success
    else if IsFailure(e) then Failure
    else if e.Arrives? && e.f.eapPacket && e.f.code == Request && e.f.eapType == IdentityType then IdentitySent
    else if e.Arrives? && e.f.eapPacket && e.f.code == Request && e.f.eapType == Md5ChallengeType then ChallengeSent
    else w.expected
  }

  function Next(cfg: Config, net: Net, w: World, e: Event): World {
    var m := Handle(cfg, net, w.m, e);
    if w.m.fate != Running then w
    else
      World(m,
            if IsRestart(w.m, e) then 0 else if IsSuccess(e) then w.successes + 1 else w.successes,
            if IsFailure(e) && m.fate == Running then w.failures + 1 else w.failures,
            if IsRestart(w.m, e) then w.restarts + 1 else w.restarts,
            if IsRestart(w.m, e) || IsSuccess(e) then 0
            else if IsFailure(e) && w.expected != Success then w.streak + 1 else w.streak,
            Expected(w, e))
  }

  function Run(cfg: Config, net: Net, events: seq<Event>): World {
    if events == [] then World(Initial(), 0, 0, 0, 0, Unknown)
    else Next(cfg, net, Run(cfg, net, events[..|events| - 1]), events[|events| - 1])
  }

  function PendingRestarts(alarms: seq<Alarm>): nat {
    if alarms == [] then 0
    else PendingRestarts(alarms[..|alarms| - 1]) + if alarms[|alarms| - 1].Restart? then 1 else 0
  }

  lemma {:induction false} PendingConcat(a: seq<Alarm>, b: seq<Alarm>)
    ensures PendingRestarts(a + b) == PendingRestarts(a) + PendingRestarts(b)
  {
    if b == [] {
      assert a + b == a;
    } else {
      assert (a + b)[..|a + b| - 1] == a + b[..|b| - 1];
      PendingConcat(a, b[..|b| - 1]);
    }
  }

  lemma PendingOne(a: Alarm)
    ensures PendingRestarts([a]) == if a.Restart? then 1 else 0
  {
    assert [a][..0] == [];
  }

  lemma PendingWithout(before: seq<Alarm>, a: Alarm, after: seq<Alarm>)
    ensures PendingRestarts(before + [a] + after)
         == PendingRestarts(before + after) + if a.Restart? then 1 else 0
  {
    PendingConcat(before + [a], after);
    PendingConcat(before, [a]);
    PendingConcat(before, after);
    PendingOne(a);
  }

  lemma PendingAfterFiring(alarms: seq<Alarm>, i: nat)
    requires i < |alarms|
    ensures PendingRestarts(alarms[..i] + alarms[i + 1..])
         == PendingRestarts(alarms) - if alarms[i].Restart? then 1 else 0
  {
    Around(alarms, i);
    PendingWithout(alarms[..i], alarms[i], alarms[i + 1..]);
  }

  lemma Around(alarms: seq<Alarm>, i: nat)
    requires i < |alarms|
    ensures alarms[..i] + [alarms[i]] + alarms[i + 1..] == alarms
  {
  }

  predicate Sane(cfg: Config) {
    cfg.authRound >= 1 && cfg.maxFailures >= 1
  }

  /** What the counters say of the machine. */
  predicate Inv(cfg: Config, w: World) {
    && w.m.fate != CalledNull
    && (w.m.fate == Running ==>
          && w.m.authRound == Round(cfg, w.successes)
          && w.m.failCount == w.streak < cfg.maxFailures
          && w.m.state == w.expected
          && PendingRestarts(w.m.alarms) + w.restarts == w.failures)
  }

  function Round(cfg: Config, successes: nat): int
  {
    if cfg.authRound >= 1 then successes % cfg.authRound + 1 else 1
  }

  lemma NextRound(cfg: Config, successes: nat)
    requires cfg.authRound >= 1
    ensures 1 <= Round(cfg, successes) <= cfg.authRound
    ensures Round(cfg, successes + 1) == if Round(cfg, successes) == cfg.authRound then 1 else Round(cfg, successes) + 1
    ensures (successes + 1) % cfg.authRound == 0 <==> Round(cfg, successes) == cfg.authRound
  {
    var n := cfg.authRound;
    var q, r := successes / n, successes % n;
    assert successes == n * q + r;
    if r + 1 == n {
      assert successes + 1 == n * (q + 1);
      ModOf(n, q + 1, 0);
    } else {
      ModOf(n, q, r + 1);
    }
  }

  lemma Multiple(n: int, k: int)
    requires n >= 1
    ensures k >= 1 ==> n * k >= n
    ensures k <= -1 ==> n * k <= -n
  {
  }

  lemma ModOf(n: int, q: int, r: int)
    requires 0 <= r < n
    ensures (n * q + r) % n == r
  {
    var x := n * q + r;
    var d := x / n;
    assert x == n * d + x % n;
    Multiple(n, q - d);
    assert n * (q - d) == x % n - r by {
      assert n * (q - d) == n * q - n * d;
    }
  }

  // ---- The invariant ----

  /** What a machine that is still running has to look like. */
  predicate Tracks(m: Machine, round: int, failCount: int, pending: int) {
    && m.fate != CalledNull
    && (m.fate == Running ==> m.authRound == round && m.failCount == failCount && PendingRestarts(m.alarms) == pending)
  }

  lemma OneAlarmMore(alarms: seq<Alarm>, a: Alarm)
    ensures PendingRestarts(alarms + [a]) == PendingRestarts(alarms) + if a.Restart? then 1 else 0
  {
    assert (alarms + [a])[..|alarms|] == alarms;
  }

  function FrameFor(target: EapState, dst: Mac, id: nat): Sent {
    if target == StartSent then Start(dst) else if target == IdentitySent then Identity(dst, id) else Challenge(dst, id)
  }

  /** A switch that only sends a frame. */
  lemma SendingSwitch(cfg: Config, net: Net, m: Machine, target: EapState, id: nat)
    requires m.fate == Running && (target == StartSent || target == IdentitySent || target == ChallengeSent)
    ensures var sent := m.(sent := m.sent + [FrameFor(target, m.serverMac, id)]);
            Switch(cfg, net, m, target, id) == if net(|m.sent|) then sent.(state := target) else sent.(fate := Exited)
  {
  }

  lemma StartSecondaryTracks(cfg: Config, net: Net, m: Machine, leaseOk: bool, round: int, failCount: int, pending: int)
    requires m.fate == Running && Tracks(m, round, failCount, pending)
    ensures var r := StartSecondary(cfg, net, m, leaseOk);
            Tracks(r, round, failCount, pending)
            && (r.fate == Running ==> r.state == if leaseOk then StartSent else m.state)
  {
    SendingSwitch(cfg, net, m, StartSent, 0);
    OneAlarmMore(m.alarms, Secondary(5));
  }

  lemma PluginSuccessTracks(cfg: Config, net: Net, m: Machine, leaseOk: bool, messageOk: bool,
                            round: int, failCount: int, pending: int)
    requires m.fate == Running && Tracks(m, round, failCount, pending)
    ensures Tracks(PluginSuccess(cfg, net, m, leaseOk, messageOk), round, failCount, pending)
  {
    StartSecondaryTracks(cfg, net, m.(succCount := m.succCount + 1), leaseOk, round, failCount, pending);
  }

  lemma PluginTracks(cfg: Config, net: Net, m: Machine, f: Frame, leaseOk: bool, messageOk: bool,
                     round: int, failCount: int, pending: int)
    requires m.fate == Running && Tracks(m, round, failCount, pending)
    ensures var r := PluginReceive(cfg, net, m, f, leaseOk, messageOk);
            Tracks(r, round, failCount, pending)
            && (!(f.eapPacket && f.code == SuccessCode) ==> r.state == m.state && r.fate == Running)
  {
    if f.eapPacket && f.code == SuccessCode {
      PluginSuccessTracks(cfg, net, m, leaseOk, messageOk, round, failCount, pending);
    }
  }

  lemma SuccessTracks(cfg: Config, net: Net, m: Machine, id: nat, failCount: int, pending: int)
    requires m.fate == Running && Tracks(m, m.authRound, failCount, pending)
    ensures var r := Switch(cfg, net, m, Success, id);
            Tracks(r, if m.authRound == cfg.authRound then 1 else m.authRound + 1, 0, pending)
            && (r.fate == Running ==> r.state == Success)
  {
    if m.authRound != cfg.authRound {
      SendingSwitch(cfg, net, m.(failCount := 0, authRound := m.authRound + 1), StartSent, id);
    }
  }

  lemma FailureOutcome(cfg: Config, net: Net, m: Machine, id: nat, failed: Machine)
    requires failed == ProcessFailure(cfg, m)
    ensures Switch(cfg, net, m, Failure, id) == if failed.fate == Running then failed.(state := Failure) else failed
  {
  }

  lemma ProcessFailureTracks(cfg: Config, m: Machine, round: int, pending: int)
    requires m.fate == Running && Tracks(m, round, m.failCount, pending) && m.failCount < cfg.maxFailures
    ensures var r := ProcessFailure(cfg, m);
            var failCount := if m.state == Success then m.failCount else m.failCount + 1;
            Tracks(r, round, failCount, pending + 1) && (r.fate == Running ==> failCount < cfg.maxFailures)
  {
    OneAlarmMore(m.alarms, Restart(1));
    OneAlarmMore(m.alarms, Restart(cfg.waitAfterFail));
  }

  lemma FailureTracks(cfg: Config, net: Net, m: Machine, id: nat, round: int, pending: int)
    requires m.fate == Running && Tracks(m, round, m.failCount, pending) && m.failCount < cfg.maxFailures
    ensures var r := Switch(cfg, net, m, Failure, id);
            var failCount := if m.state == Success then m.failCount else m.failCount + 1;
            Tracks(r, round, failCount, pending + 1)
            && (r.fate == Running ==> r.state == Failure && failCount < cfg.maxFailures)
  {
    FailureOutcome(cfg, net, m, id, ProcessFailure(cfg, m));
    ProcessFailureTracks(cfg, m, round, pending);
  }

  lemma AnswerTracks(cfg: Config, net: Net, m: Machine, f: Frame, round: int, failCount: int, pending: int)
    requires m.fate == Running && Tracks(m, round, failCount, pending) && failCount < cfg.maxFailures && f.eapPacket
    ensures var r := Answer(cfg, net, m, f);
            match f.code
            case SuccessCode =>
              && Tracks(r, if round == cfg.authRound then 1 else round + 1, 0, pending)
              && (r.fate == Running ==> r.state == Success)
            case FailureCode =>
              var count := if m.state == Success then failCount else failCount + 1;
              && Tracks(r, round, count, pending + 1)
              && (r.fate == Running ==> r.state == Failure && count < cfg.maxFailures)
            case _ => Tracks(r, round, failCount, pending)
  {
    match f.code
    case Request =>
      SendingSwitch(cfg, net, m.(serverMac := f.src), IdentitySent, f.id);
      SendingSwitch(cfg, net, m.(serverMac := f.src), ChallengeSent, f.id);
    case SuccessCode => SuccessTracks(cfg, net, m, f.id, failCount, pending);
    case FailureCode => FailureTracks(cfg, net, m, f.id, round, pending);
    case Response =>
  }

  lemma RequestState(cfg: Config, net: Net, m: Machine, f: Frame)
    requires m.fate == Running && f.eapPacket && (f.code == Request || f.code == Response)
    ensures var r := Answer(cfg, net, m, f);
            r.fate == Running ==>
              r.state == if f.code == Request && f.eapType == IdentityType then IdentitySent
                         else if f.code == Request && f.eapType == Md5ChallengeType then ChallengeSent else m.state
  {
    SendingSwitch(cfg, net, m.(serverMac := f.src), IdentitySent, f.id);
    SendingSwitch(cfg, net, m.(serverMac := f.src), ChallengeSent, f.id);
  }

  lemma EndedByCode(cfg: Config, net: Net, w: World, f: Frame, leaseOk: bool, messageOk: bool)
    requires Sane(cfg) && Inv(cfg, w) && w.m.fate == Running && f.eapPacket
    requires f.code == SuccessCode || f.code == FailureCode
    ensures Inv(cfg, Next(cfg, net, w, Arrives(f, leaseOk, messageOk)))
  {
    var m := w.m;
    var pending := PendingRestarts(m.alarms);
    PluginTracks(cfg, net, m, f, leaseOk, messageOk, m.authRound, m.failCount, pending);
    var seen := PluginReceive(cfg, net, m, f, leaseOk, messageOk);
    NextRound(cfg, w.successes);
    if seen.fate == Running {
      AnswerTracks(cfg, net, seen, f, m.authRound, m.failCount, pending);
    }
  }

  lemma OtherCode(cfg: Config, net: Net, w: World, f: Frame, leaseOk: bool, messageOk: bool)
    requires Sane(cfg) && Inv(cfg, w) && w.m.fate == Running && f.eapPacket
    requires f.code == Request || f.code == Response
    ensures Inv(cfg, Next(cfg, net, w, Arrives(f, leaseOk, messageOk)))
  {
    AnswerTracks(cfg, net, w.m, f, w.m.authRound, w.m.failCount, PendingRestarts(w.m.alarms));
    RequestState(cfg, net, w.m, f);
  }

  lemma ArrivalKeepsInv(cfg: Config, net: Net, w: World, f: Frame, leaseOk: bool, messageOk: bool)
    requires Sane(cfg) && Inv(cfg, w) && w.m.fate == Running
    ensures Inv(cfg, Next(cfg, net, w, Arrives(f, leaseOk, messageOk)))
  {
    if f.eapPacket {
      if f.code == Request || f.code == Response {
        OtherCode(cfg, net, w, f, leaseOk, messageOk);
      } else {
        EndedByCode(cfg, net, w, f, leaseOk, messageOk);
      }
    }
  }

  lemma FiringKeepsInv(cfg: Config, net: Net, w: World, i: nat, leaseOk: bool)
    requires Sane(cfg) && Inv(cfg, w) && w.m.fate == Running && i < |w.m.alarms|
    ensures Inv(cfg, Next(cfg, net, w, Fires(i, leaseOk)))
  {
    var rest := w.m.(alarms := w.m.alarms[..i] + w.m.alarms[i + 1..]);
    PendingAfterFiring(w.m.alarms, i);
    if w.m.alarms[i].Restart? {
      SendingSwitch(cfg, net, Reset(rest), StartSent, 0);
      assert Round(cfg, 0) == 1;
    } else {
      StartSecondaryTracks(cfg, net, rest, leaseOk, rest.authRound, rest.failCount, PendingRestarts(rest.alarms));
    }
  }

  lemma NextKeepsInv(cfg: Config, net: Net, w: World, e: Event)
    requires Sane(cfg) && Inv(cfg, w)
    ensures Inv(cfg, Next(cfg, net, w, e))
  {
    if w.m.fate == Running {
      match e
      case Boot => SendingSwitch(cfg, net, w.m, StartSent, 0);
      case Arrives(f, leaseOk, messageOk) => ArrivalKeepsInv(cfg, net, w, f, leaseOk, messageOk);
      case Fires(i, leaseOk) =>
        if i < |w.m.alarms| {
          FiringKeepsInv(cfg, net, w, i, leaseOk);
        }
    }
  }

  lemma {:induction false} InvAlways(cfg: Config, net: Net, events: seq<Event>)
    requires Sane(cfg)
    ensures Inv(cfg, Run(cfg, net, events))
  {
    if events == [] {
      assert Round(cfg, 0) == 1;
    } else {
      InvAlways(cfg, net, events[..|events| - 1]);
      NextKeepsInv(cfg, net, Run(cfg, net, events[..|events| - 1]), events[|events| - 1]);
    }
  }

  // ---- What holds in every run ----

  /** Reachable and still running. */
  predicate Live(cfg: Config, net: Net, events: seq<Event>) {
    Sane(cfg) && Run(cfg, net, events).m.fate == Running
  }

  /** No entry of the table that is NULL is ever called, whatever arrives. */
  lemma NullIsNeverCalled(cfg: Config, net: Net, events: seq<Event>)
    requires Sane(cfg)
    ensures Run(cfg, net, events).m.fate != CalledNull
  {
    InvAlways(cfg, net, events);
  }

  lemma CountersStayInRange(cfg: Config, net: Net, events: seq<Event>)
    requires Live(cfg, net, events)
    ensures var m := Run(cfg, net, events).m;
            1 <= m.authRound <= cfg.authRound && 0 <= m.failCount < cfg.maxFailures
  {
    InvAlways(cfg, net, events);
    NextRound(cfg, Run(cfg, net, events).successes);
  }

  /** Every failure that did not end the program has a restart that is pending or has fired. */
  lemma RestartsBalanceFailures(cfg: Config, net: Net, events: seq<Event>)
    requires Live(cfg, net, events)
    ensures var w := Run(cfg, net, events); PendingRestarts(w.m.alarms) == w.failures - w.restarts
  {
    InvAlways(cfg, net, events);
  }

  /** The state is the one the last event called for, also after a success that is not the last required one. */
  lemma {:induction false} StateFollowsEvents(cfg: Config, net: Net, events: seq<Event>)
    requires Live(cfg, net, events)
    ensures var w := Run(cfg, net, events); w.m.state == w.expected
    ensures events != [] && IsSuccess(events[|events| - 1]) ==> Run(cfg, net, events).m.state == Success
  {
    InvAlways(cfg, net, events);
    if events != [] {
      var w := Run(cfg, net, events[..|events| - 1]);
      InvAlways(cfg, net, events[..|events| - 1]);
      assert w.m.fate == Running;
    }
  }

  lemma AnswerToSuccess(cfg: Config, net: Net, m: Machine, f: Frame)
    requires m.fate == Running && f.eapPacket && f.code == SuccessCode
    ensures var r := Answer(cfg, net, m, f);
            if m.authRound == cfg.authRound
            then r == m.(state := Success, authRound := 1, failCount := 0, serverMac := BCAST)
            else r.sent == m.sent + [Start(m.serverMac)] && r.serverMac == m.serverMac && r.authRound == m.authRound + 1
  {
    if m.authRound != cfg.authRound {
      SendingSwitch(cfg, net, m.(failCount := 0, authRound := m.authRound + 1), StartSent, f.id);
    }
  }

  /**
   * The finish branch is taken exactly on every configured-th success since the last restart: then the machine
   * sends nothing and forgets the server's address; on every other success it asks that server for another round.
   */
  lemma FinishesOnConfiguredSuccess(cfg: Config, net: Net, events: seq<Event>, w: World, e: Event)
    requires Live(cfg, net, events) && w == Run(cfg, net, events) && IsSuccess(e)
    requires Next(cfg, net, w, e).m.fate == Running
    ensures var seen := PluginReceive(cfg, net, w.m, e.f, e.leaseOk, e.messageOk);
            var m := Next(cfg, net, w, e).m;
            if (w.successes + 1) % cfg.authRound == 0
            then m.sent == seen.sent && m.serverMac == BCAST && m.authRound == 1
            else m.sent == seen.sent + [Start(seen.serverMac)] && m.serverMac == seen.serverMac
                 && m.authRound == w.m.authRound + 1
  {
    InvAlways(cfg, net, events);
    SuccessFrom(cfg, net, w, e);
  }

  lemma SuccessFrom(cfg: Config, net: Net, w: World, e: Event)
    requires Sane(cfg) && Inv(cfg, w) && w.m.fate == Running && IsSuccess(e)
    requires Next(cfg, net, w, e).m.fate == Running
    ensures var seen := PluginReceive(cfg, net, w.m, e.f, e.leaseOk, e.messageOk);
            var m := Next(cfg, net, w, e).m;
            if (w.successes + 1) % cfg.authRound == 0
            then m.sent == seen.sent && m.serverMac == BCAST && m.authRound == 1
            else m.sent == seen.sent + [Start(seen.serverMac)] && m.serverMac == seen.serverMac
                 && m.authRound == w.m.authRound + 1
  {
    NextRound(cfg, w.successes);
    SuccessIsAnswered(cfg, net, w, e);
  }

  lemma SuccessIsAnswered(cfg: Config, net: Net, w: World, e: Event)
    requires w.m.fate == Running && w.m.authRound <= cfg.authRound && IsSuccess(e)
    requires Next(cfg, net, w, e).m.fate == Running
    ensures var seen := PluginReceive(cfg, net, w.m, e.f, e.leaseOk, e.messageOk);
            var m := Next(cfg, net, w, e).m;
            if w.m.authRound == cfg.authRound
            then m.sent == seen.sent && m.serverMac == BCAST && m.authRound == 1
            else m.sent == seen.sent + [Start(seen.serverMac)] && m.serverMac == seen.serverMac
                 && m.authRound == w.m.authRound + 1
  {
    var m := w.m;
    PluginTracks(cfg, net, m, e.f, e.leaseOk, e.messageOk, m.authRound, m.failCount, PendingRestarts(m.alarms));
    AnswerToSuccess(cfg, net, PluginReceive(cfg, net, m, e.f, e.leaseOk, e.messageOk), e.f);
  }

  /** What the table in eap_state_machine.h says: START_SENT until the last required round is done. */
  function PromisedAfterSuccess(cfg: Config, successes: nat): EapState
    requires cfg.authRound >= 1
  {
    if successes % cfg.authRound == 0 then Success else StartSent
  }

  /** The promise is kept exactly by every configured-th success; after the others the state is SUCCESS too early. */
  lemma PromiseKeptOnLastRound(cfg: Config, net: Net, events: seq<Event>)
    requires Live(cfg, net, events) && events != [] && IsSuccess(events[|events| - 1])
    ensures var w := Run(cfg, net, events);
            w.m.state == PromisedAfterSuccess(cfg, w.successes) <==> w.successes % cfg.authRound == 0
  {
    StateFollowsEvents(cfg, net, events);
  }

  lemma BootSendsStart(cfg: Config, net: Net)
    requires net(0)
    ensures var w := Run(cfg, net, [Boot]);
            w == World(Initial().(sent := [Start(BCAST)], state := StartSent), 0, 0, 0, 0, StartSent)
  {
    assert [Boot][..0] == [];
    SendingSwitch(cfg, net, Initial(), StartSent, 0);
    assert [] + [Start(BCAST)] == [Start(BCAST)];
  }

  lemma SuccessOfTwo(cfg: Config, net: Net, m: Machine, f: Frame)
    requires cfg.authRound == 2 && cfg.dhcpType != DoubleAuth && m.fate == Running && m.authRound == 1
    requires net(|m.sent|) && f.eapPacket && f.code == SuccessCode
    ensures var r := Receive(cfg, net, m, f, false, true);
            && r.fate == Running && r.sent == m.sent + [Start(m.serverMac)]
            && r.authRound == 2 && r.state == Success
  {
    var seen := PluginReceive(cfg, net, m, f, false, true);
    SendingSwitch(cfg, net, seen.(failCount := 0, authRound := 2), StartSent, f.id);
  }

  /** Two rounds are required and the first one succeeds: the second EAPOL-Start goes out and the state is SUCCESS. */
  lemma FirstOfTwoSuccesses(cfg: Config, net: Net, f: Frame)
    requires cfg.authRound == 2 && cfg.dhcpType != DoubleAuth && net(0) && net(1)
    requires f.eapPacket && f.code == SuccessCode
    ensures var m := Run(cfg, net, [Boot, Arrives(f, false, true)]).m;
            && m.fate == Running && m.sent == [Start(BCAST), Start(BCAST)]
            && m.authRound == 2 && m.state == Success
  {
    var events := [Boot, Arrives(f, false, true)];
    assert events[..1] == [Boot];
    BootSendsStart(cfg, net);
    SuccessOfTwo(cfg, net, Run(cfg, net, [Boot]).m, f);
  }

  /**
   * An EAP-Failure ends the program in exactly two cases: right after a success if restarting is off, and
   * otherwise when it is the configured number of failures with neither a restart nor a success between them.
   * If it does not end the program it sets one restart, after one second or after the configured time.
   */
  lemma FailureExitsOrRestarts(cfg: Config, net: Net, events: seq<Event>, w: World, e: Event)
    requires Live(cfg, net, events) && w == Run(cfg, net, events) && IsFailure(e)
    ensures var m := Next(cfg, net, w, e).m;
            && (m.fate == Exited <==>
                  if w.expected == Success then !cfg.restartOnLogoff else w.streak + 1 == cfg.maxFailures)
            && (m.fate == Running ==>
                  && m.alarms == w.m.alarms + [Restart(if w.expected == Success then 1 else cfg.waitAfterFail)]
                  && m.failCount == w.streak + if w.expected == Success then 0 else 1)
            && m.sent == w.m.sent
  {
    InvAlways(cfg, net, events);
  }

  /** A response goes to the sender of the request and repeats its identifier. */
  lemma ResponsesAnswerTheRequest(cfg: Config, net: Net, events: seq<Event>, e: Event)
    requires Live(cfg, net, events) && e.Arrives? && e.f.eapPacket && e.f.code == Request && e.f.eapType != OtherType
    ensures var w := Run(cfg, net, events);
            var m := Next(cfg, net, w, e).m;
            && m.sent == w.m.sent + [if e.f.eapType == IdentityType then Identity(e.f.src, e.f.id)
                                 else Challenge(e.f.src, e.f.id)]
            && (m.fate == Running <==> net(|w.m.sent|))
  {
    var m := Run(cfg, net, events).m.(serverMac := e.f.src);
    SendingSwitch(cfg, net, m, if e.f.eapType == IdentityType then IdentitySent else ChallengeSent, e.f.id);
  }

  /** A restart that fires sends one EAPOL-Start to the group address and forgets rounds and failures. */
  lemma RestartStartsOver(cfg: Config, net: Net, events: seq<Event>, e: Event)
    requires Live(cfg, net, events) && IsRestart(Run(cfg, net, events).m, e)
    ensures var w := Run(cfg, net, events);
            var m := Next(cfg, net, w, e).m;
            && m.sent == w.m.sent + [Start(BCAST)] && m.authRound == 1 && m.failCount == 0 && m.serverMac == BCAST
            && PendingRestarts(m.alarms) == PendingRestarts(w.m.alarms) - 1
  {
    var w := Run(cfg, net, events);
    var rest := w.m.(alarms := w.m.alarms[..e.i] + w.m.alarms[e.i + 1..]);
    PendingAfterFiring(w.m.alarms, e.i);
    SendingSwitch(cfg, net, Reset(rest), StartSent, 0);
  }

  // ---- The lease in the private header ----

  lemma SwitchKeepsCount(cfg: Config, net: Net, m: Machine, target: EapState, id: nat)
    ensures Switch(cfg, net, m, target, id).succCount == m.succCount
  {
  }

  /** The plugin counts a success and, at the second one, starts over before anything else is sent. */
  lemma PluginCount(cfg: Config, net: Net, m: Machine, f: Frame, leaseOk: bool, messageOk: bool)
    requires cfg.dhcpType == DoubleAuth && 0 <= m.succCount <= 1
    ensures PluginReceive(cfg, net, m, f, leaseOk, messageOk).succCount
         == if f.eapPacket && f.code == SuccessCode then 1 - m.succCount
            else if f.eapPacket && f.code == FailureCode then 0 else m.succCount
  {
    SwitchKeepsCount(cfg, net, m.(succCount := m.succCount + 1), StartSent, 0);
  }

  lemma AnswerKeepsCount(cfg: Config, net: Net, m: Machine, f: Frame)
    ensures Answer(cfg, net, m, f).succCount == m.succCount
  {
    SwitchKeepsCount(cfg, net, m.(serverMac := f.src), IdentitySent, f.id);
    SwitchKeepsCount(cfg, net, m.(serverMac := f.src), ChallengeSent, f.id);
    SwitchKeepsCount(cfg, net, m, Success, f.id);
    SwitchKeepsCount(cfg, net, m, Failure, f.id);
  }

  lemma FireKeepsCount(cfg: Config, net: Net, m: Machine, i: nat, leaseOk: bool)
    requires i < |m.alarms|
    ensures Fire(cfg, net, m, i, leaseOk).succCount == m.succCount
  {
    var rest := m.(alarms := m.alarms[..i] + m.alarms[i + 1..]);
    SwitchKeepsCount(cfg, net, Reset(rest), StartSent, 0);
    SwitchKeepsCount(cfg, net, rest, StartSent, 0);
  }

  /** Authentications of the double authentication that are done, as the events tell: none or the first. */
  function HalvesDone(cfg: Config, net: Net, events: seq<Event>): (n: int)
    ensures 0 <= n <= 1
  {
    if events == [] then 0
    else
      var init, e := events[..|events| - 1], events[|events| - 1];
      var n := HalvesDone(cfg, net, init);
      if Run(cfg, net, init).m.fate != Running then n
      else if IsSuccess(e) then 1 - n else if IsFailure(e) then 0 else n
  }

  lemma {:induction false} CountsHalves(cfg: Config, net: Net, events: seq<Event>)
    requires cfg.dhcpType == DoubleAuth
    ensures Run(cfg, net, events).m.succCount == HalvesDone(cfg, net, events)
  {
    if events != [] {
      var init, e := events[..|events| - 1], events[|events| - 1];
      CountsHalves(cfg, net, init);
      var m := Run(cfg, net, init).m;
      if m.fate == Running {
        match e
        case Boot => SwitchKeepsCount(cfg, net, m, Preparing, 0);
        case Arrives(f, leaseOk, messageOk) =>
          PluginCount(cfg, net, m, f, leaseOk, messageOk);
          AnswerKeepsCount(cfg, net, PluginReceive(cfg, net, m, f, leaseOk, messageOk), f);
        case Fires(i, leaseOk) =>
          if i < |m.alarms| {
            FireKeepsCount(cfg, net, m, i, leaseOk);
          }
      }
    }
  }

  /**
   * In double authentication no frame ever carries the lease: neither between events nor when the plugin has
   * seen a frame and the machine is about to answer it does the counter show the two successes it takes.
   */
  lemma LeaseIsNeverSent(cfg: Config, net: Net, events: seq<Event>, f: Frame, leaseOk: bool, messageOk: bool)
    requires cfg.dhcpType == DoubleAuth
    ensures var m := Run(cfg, net, events).m;
            !ShouldFill(cfg.dhcpType, m.succCount)
            && !ShouldFill(cfg.dhcpType, PluginReceive(cfg, net, m, f, leaseOk, messageOk).succCount)
  {
    CountsHalves(cfg, net, events);
    PluginCount(cfg, net, Run(cfg, net, events).m, f, leaseOk, messageOk);
  }

  // ---- What the plugin does with the events ----

  /** One try for the lease: the second EAPOL-Start, another try in five seconds, or the keep-alive. */
  lemma OneTry(cfg: Config, net: Net, m: Machine, leaseOk: bool)
    requires m.fate == Running
    ensures var r := StartSecondary(cfg, net, m, leaseOk);
            && (leaseOk ==>
                  && r.sent == m.sent + [Start(m.serverMac)] && (r.fate == Running <==> net(|m.sent|))
                  && r.alarms == m.alarms && r.keepAlives == m.keepAlives && r.dhcpCount == m.dhcpCount)
            && (!leaseOk ==> r.sent == m.sent && r.dhcpCount == m.dhcpCount + 1 && r.fate == Running)
            && (!leaseOk && m.dhcpCount < cfg.maxDhcpCount ==>
                  r.alarms == m.alarms + [Secondary(5)] && r.keepAlives == m.keepAlives)
            && (!leaseOk && m.dhcpCount >= cfg.maxDhcpCount ==>
                  r.alarms == m.alarms && r.keepAlives == m.keepAlives + 1)
            && r.serverMac == m.serverMac
  {
    SendingSwitch(cfg, net, m, StartSent, 0);
  }

  lemma SuccessKeepsPlugin(cfg: Config, net: Net, m: Machine, f: Frame)
    requires m.fate == Running && f.eapPacket && f.code == SuccessCode
    ensures var r := Answer(cfg, net, m, f);
            m.sent <= r.sent && r.alarms == m.alarms && r.keepAlives == m.keepAlives && r.dhcpCount == m.dhcpCount
  {
    SendingSwitch(cfg, net, m.(failCount := 0, authRound := m.authRound + 1), StartSent, f.id);
  }

  lemma FirstHalfOf(cfg: Config, net: Net, m: Machine, e: Event)
    requires cfg.dhcpType == DoubleAuth && m.fate == Running && m.succCount == 0 && IsSuccess(e)
    ensures var r := Receive(cfg, net, m, e.f, e.leaseOk, e.messageOk);
            && (e.leaseOk ==>
                  && m.sent + [Start(m.serverMac)] <= r.sent
                  && r.alarms == m.alarms && r.keepAlives == m.keepAlives)
            && (!e.leaseOk && m.dhcpCount < cfg.maxDhcpCount ==>
                  r.alarms == m.alarms + [Secondary(5)] && r.keepAlives == m.keepAlives)
            && (!e.leaseOk && m.dhcpCount >= cfg.maxDhcpCount ==>
                  r.alarms == m.alarms && r.keepAlives == m.keepAlives + 1)
  {
    OneTry(cfg, net, m.(succCount := 1), e.leaseOk);
    var seen := PluginReceive(cfg, net, m, e.f, e.leaseOk, e.messageOk);
    if seen.fate == Running {
      SuccessKeepsPlugin(cfg, net, seen, e.f);
    }
  }

  /**
   * In every run: the first success of a double authentication goes on with the second EAPOL-Start if the lease is
   * there, with another try in five seconds if tries are left, and with the keep-alive otherwise.
   */
  lemma FirstHalfGoesOn(cfg: Config, net: Net, events: seq<Event>, w: World, e: Event)
    requires Live(cfg, net, events) && w == Run(cfg, net, events) && IsSuccess(e)
    requires cfg.dhcpType == DoubleAuth && HalvesDone(cfg, net, events) == 0
    ensures var m := Next(cfg, net, w, e).m;
            && (e.leaseOk ==>
                  && w.m.sent + [Start(w.m.serverMac)] <= m.sent
                  && m.alarms == w.m.alarms && m.keepAlives == w.m.keepAlives)
            && (!e.leaseOk && w.m.dhcpCount < cfg.maxDhcpCount ==>
                  m.alarms == w.m.alarms + [Secondary(5)] && m.keepAlives == w.m.keepAlives)
            && (!e.leaseOk && w.m.dhcpCount >= cfg.maxDhcpCount ==>
                  m.alarms == w.m.alarms && m.keepAlives == w.m.keepAlives + 1)
  {
    CountsHalves(cfg, net, events);
    FirstHalfOf(cfg, net, w.m, e);
  }

  lemma OtherSuccessOf(cfg: Config, net: Net, m: Machine, e: Event)
    requires m.fate == Running && IsSuccess(e) && (cfg.dhcpType == DoubleAuth ==> m.succCount == 1)
    ensures var r := Receive(cfg, net, m, e.f, e.leaseOk, e.messageOk);
            && r.keepAlives == m.keepAlives + (if e.messageOk then 1 else 0)
            && r.dhcpCount == (if cfg.dhcpType == DoubleAuth then 0 else m.dhcpCount)
            && r.alarms == m.alarms
  {
    var seen := PluginReceive(cfg, net, m, e.f, e.leaseOk, e.messageOk);
    SuccessKeepsPlugin(cfg, net, seen, e.f);
  }

  /**
   * In every run: any other success starts the keep-alive if and only if the server's message was understood, and
   * the second half of a double authentication forgets the tries for the lease.
   */
  lemma OtherSuccessesKeepAlive(cfg: Config, net: Net, events: seq<Event>, w: World, e: Event)
    requires Live(cfg, net, events) && w == Run(cfg, net, events) && IsSuccess(e)
    requires cfg.dhcpType == DoubleAuth ==> HalvesDone(cfg, net, events) == 1
    ensures var m := Next(cfg, net, w, e).m;
            && (m.keepAlives == w.m.keepAlives + 1 <==> e.messageOk)
            && (m.keepAlives == w.m.keepAlives <==> !e.messageOk)
            && m.dhcpCount == (if cfg.dhcpType == DoubleAuth then 0 else w.m.dhcpCount)
            && m.alarms == w.m.alarms
  {
    if cfg.dhcpType == DoubleAuth {
      CountsHalves(cfg, net, events);
    }
    OtherSuccessOf(cfg, net, w.m, e);
  }

  /** The frame that asks for another round, if this success is not the last one required. */
  function NextRoundFrame(cfg: Config, w: World): seq<Sent>
    requires cfg.authRound >= 1
  {
    if (w.successes + 1) % cfg.authRound == 0 then [] else [Start(w.m.serverMac)]
  }

  lemma RoundOf(cfg: Config, net: Net, m: Machine, f: Frame, last: bool)
    requires m.fate == Running && f.eapPacket && f.code == SuccessCode && (last <==> m.authRound == cfg.authRound)
    ensures var r := Answer(cfg, net, m, f);
            r.sent == m.sent + (if last then [] else [Start(m.serverMac)])
            && (r.fate == Running <==> last || net(|m.sent|))
  {
    AnswerToSuccess(cfg, net, m, f);
    SendingSwitch(cfg, net, m.(failCount := 0, authRound := m.authRound + 1), StartSent, f.id);
  }

  /** What the plugin itself sends at a success: the second EAPOL-Start, after the first half and with the lease. */
  lemma PluginSends(cfg: Config, net: Net, m: Machine, e: Event)
    requires m.fate == Running && IsSuccess(e)
    ensures var r := PluginReceive(cfg, net, m, e.f, e.leaseOk, e.messageOk);
            var second := cfg.dhcpType == DoubleAuth && m.succCount < 1 && e.leaseOk;
            && r.sent == m.sent + (if second then [Start(m.serverMac)] else [])
            && (r.fate == Running <==> second ==> net(|m.sent|))
            && r.serverMac == m.serverMac && r.authRound == m.authRound
  {
    OneTry(cfg, net, m.(succCount := m.succCount + 1), e.leaseOk);
  }

  /** What has been sent, and whether the program goes on, after frames that are sent one behind the other. */
  ghost predicate SentBoth(net: Net, before: seq<Sent>, second: seq<Sent>, round: seq<Sent>, after: Machine) {
    if second != [] && !net(|before|) then after.fate == Exited && after.sent == before + second
    else after.sent == before + second + round && (after.fate == Running <==> round != [] ==> net(|before + second|))
  }

  lemma SendsOf(cfg: Config, net: Net, m: Machine, e: Event, second: seq<Sent>, round: seq<Sent>)
    requires m.fate == Running && IsSuccess(e)
    requires second == if cfg.dhcpType == DoubleAuth && m.succCount < 1 && e.leaseOk then [Start(m.serverMac)] else []
    requires round == if m.authRound == cfg.authRound then [] else [Start(m.serverMac)]
    ensures SentBoth(net, m.sent, second, round, Receive(cfg, net, m, e.f, e.leaseOk, e.messageOk))
  {
    PluginSends(cfg, net, m, e);
    var seen := PluginReceive(cfg, net, m, e.f, e.leaseOk, e.messageOk);
    if seen.fate == Running {
      RoundOf(cfg, net, seen, e.f, m.authRound == cfg.authRound);
    } else {
      SeenIsFinal(cfg, net, m, e, seen);
    }
  }

  lemma SeenIsFinal(cfg: Config, net: Net, m: Machine, e: Event, seen: Machine)
    requires m.fate == Running && IsSuccess(e) && seen.fate != Running
    requires seen == PluginReceive(cfg, net, m, e.f, e.leaseOk, e.messageOk)
    ensures Receive(cfg, net, m, e.f, e.leaseOk, e.messageOk) == seen && seen.fate == Exited
  {
    SendingSwitch(cfg, net, m.(succCount := m.succCount + 1), StartSent, 0);
  }

  lemma SendsFrom(cfg: Config, net: Net, w: World, e: Event, second: seq<Sent>)
    requires Sane(cfg) && Inv(cfg, w) && w.m.fate == Running && IsSuccess(e)
    requires second == if cfg.dhcpType == DoubleAuth && w.m.succCount < 1 && e.leaseOk
                       then [Start(w.m.serverMac)] else []
    ensures SentBoth(net, w.m.sent, second, NextRoundFrame(cfg, w), Next(cfg, net, w, e).m)
  {
    NextRound(cfg, w.successes);
    SendsOf(cfg, net, w.m, e, second, NextRoundFrame(cfg, w));
  }

  /**
   * In every run a success sends the second EAPOL-Start of a double authentication, then the one for another round,
   * each exactly when it is called for, and the program ends if one of them cannot be sent.
   */
  lemma SuccessSends(cfg: Config, net: Net, events: seq<Event>, w: World, e: Event)
    requires Live(cfg, net, events) && w == Run(cfg, net, events) && IsSuccess(e)
    ensures var second := if cfg.dhcpType == DoubleAuth && HalvesDone(cfg, net, events) == 0 && e.leaseOk
                          then [Start(w.m.serverMac)] else [];
            SentBoth(net, w.m.sent, second, NextRoundFrame(cfg, w), Next(cfg, net, w, e).m)
  {
    InvAlways(cfg, net, events);
    if cfg.dhcpType == DoubleAuth {
      CountsHalves(cfg, net, events);
    }
    var second := if cfg.dhcpType == DoubleAuth && w.m.succCount < 1 && e.leaseOk then [Start(w.m.serverMac)] else [];
    SendsFrom(cfg, net, w, e, second);
  }

  lemma FailureOf(cfg: Config, net: Net, m: Machine, e: Event)
    requires m.fate == Running && IsFailure(e)
    ensures var r := Receive(cfg, net, m, e.f, e.leaseOk, e.messageOk);
            r.succCount == 0 && r.dhcpCount == 0 && r.keepAlives == m.keepAlives
  {
    var seen := PluginReceive(cfg, net, m, e.f, e.leaseOk, e.messageOk);
    FailureOutcome(cfg, net, seen, e.f.id, ProcessFailure(cfg, seen));
  }

  /** In every run: after a failure neither half is done, no try for the lease is counted and nothing is kept alive. */
  lemma FailureForgetsHalves(cfg: Config, net: Net, events: seq<Event>, w: World, e: Event)
    requires Live(cfg, net, events) && w == Run(cfg, net, events) && IsFailure(e)
    ensures var m := Next(cfg, net, w, e).m; m.succCount == 0 && m.dhcpCount == 0 && m.keepAlives == w.m.keepAlives
  {
    FailureOf(cfg, net, w.m, e);
  }

  /** A wait for the lease that ends leaves the list and makes one try. */
  lemma WaitMakesOneTry(cfg: Config, net: Net, m: Machine, i: nat, leaseOk: bool)
    requires m.fate == Running && i < |m.alarms| && m.alarms[i].Secondary?
    ensures var r := Fire(cfg, net, m, i, leaseOk);
            var others := m.alarms[..i] + m.alarms[i + 1..];
            && (leaseOk ==>
                  r.sent == m.sent + [Start(m.serverMac)] && r.alarms == others && r.keepAlives == m.keepAlives)
            && (!leaseOk ==> r.sent == m.sent && r.dhcpCount == m.dhcpCount + 1)
            && (!leaseOk && m.dhcpCount < cfg.maxDhcpCount ==>
                  r.alarms == others + [Secondary(5)] && r.keepAlives == m.keepAlives)
            && (!leaseOk && m.dhcpCount >= cfg.maxDhcpCount ==>
                  r.alarms == others && r.keepAlives == m.keepAlives + 1)
  {
    OneTry(cfg, net, m.(alarms := m.alarms[..i] + m.alarms[i + 1..]), leaseOk);
  }

  /** Frames that are neither requests of a known type nor results change nothing but the server's address. */
  lemma OtherFramesAreIgnored(cfg: Config, net: Net, m: Machine, e: Event)
    requires m.fate == Running && e.Arrives? && !IsSuccess(e) && !IsFailure(e)
    requires e.f.eapPacket && e.f.code == Request ==> e.f.eapType == OtherType
    ensures Handle(cfg, net, m, e) == if e.f.eapPacket && e.f.code == Request then m.(serverMac := e.f.src) else m
  {
  }

  // ---- The wait for the lease ----

  /** The first try that succeeds among the next `budget`, or `budget` if none does. */
  function FirstLease(leases: nat -> bool, budget: nat): (k: nat)
    ensures k <= budget && (forall j :: 0 <= j < k ==> !leases(j)) && (k < budget ==> leases(k))
  {
    if budget == 0 then 0
    else
      var k := FirstLease(leases, budget - 1);
      if k < budget - 1 || leases(budget - 1) then k else budget
  }

  /**
   * rjv3_start_secondary_auth and the alarms it sets for itself, with no other event between them: the machine
   * afterwards and the number of tries.
   */
  function Chain(cfg: Config, net: Net, m: Machine, leases: nat -> bool, tried: nat): (Machine, nat)
    decreases cfg.maxDhcpCount - m.dhcpCount
  {
    var r := StartSecondary(cfg, net, m, leases(tried));
    if !leases(tried) && m.dhcpCount < cfg.maxDhcpCount then
      Chain(cfg, net, r.(alarms := r.alarms[..|r.alarms| - 1]), leases, tried + 1)
    else (r, tried + 1)
  }

  function Budget(cfg: Config, m: Machine): nat {
    if m.dhcpCount < cfg.maxDhcpCount then cfg.maxDhcpCount - m.dhcpCount + 1 else 1
  }

  lemma ChainStep(cfg: Config, net: Net, m: Machine, leases: nat -> bool, tried: nat)
    requires m.fate == Running && !leases(tried) && m.dhcpCount < cfg.maxDhcpCount
    ensures Chain(cfg, net, m, leases, tried) == Chain(cfg, net, m.(dhcpCount := m.dhcpCount + 1), leases, tried + 1)
  {
    var r := StartSecondary(cfg, net, m, false);
    assert r.alarms[..|r.alarms| - 1] == m.alarms;
    assert r.(alarms := r.alarms[..|r.alarms| - 1]) == m.(dhcpCount := m.dhcpCount + 1);
  }

  lemma {:induction false} ChainFrom(cfg: Config, net: Net, m: Machine, leases: nat -> bool, tried: nat, k: nat)
    requires m.fate == Running && k <= Budget(cfg, m)
    requires forall j :: tried <= j < tried + k ==> !leases(j)
    requires k < Budget(cfg, m) ==> leases(tried + k)
    ensures Chain(cfg, net, m, leases, tried)
         == if k < Budget(cfg, m)
            then (Switch(cfg, net, m.(dhcpCount := m.dhcpCount + k), StartSent, 0), tried + k + 1)
            else (m.(dhcpCount := m.dhcpCount + k, keepAlives := m.keepAlives + 1), tried + k)
    decreases k
  {
    if k == 0 {
      assert m.(dhcpCount := m.dhcpCount + 0) == m;
    } else if m.dhcpCount < cfg.maxDhcpCount {
      ChainStep(cfg, net, m, leases, tried);
      var next := m.(dhcpCount := m.dhcpCount + 1);
      ChainFrom(cfg, net, next, leases, tried + 1, k - 1);
      assert next.(dhcpCount := next.dhcpCount + (k - 1)) == m.(dhcpCount := m.dhcpCount + k);
    }
  }

  /**
   * From a cleared counter the wait for the lease makes at most max_dhcp_count + 1 tries, one if that is not
   * positive, and ends in exactly one of two ways: with the second EAPOL-Start if one of them succeeds, and
   * otherwise with the keep-alive of the first authentication.
   */
  lemma ChainEndsOneWay(cfg: Config, net: Net, m: Machine, leases: nat -> bool)
    requires m.fate == Running && m.dhcpCount == 0
    ensures var (r, tries) := Chain(cfg, net, m, leases, 0);
            var budget := if cfg.maxDhcpCount > 0 then cfg.maxDhcpCount + 1 else 1;
            var k := FirstLease(leases, budget);
            && 1 <= tries <= budget && r.alarms == m.alarms
            && (k < budget ==> tries == k + 1 && r.sent == m.sent + [Start(m.serverMac)] && r.keepAlives == m.keepAlives
                               && (r.fate == Running <==> net(|m.sent|))
                               && (r.fate == Running ==> r.state == StartSent))
            && (k == budget ==> tries == budget && r.sent == m.sent
                                && r.keepAlives == m.keepAlives + 1 && r.state == m.state)
  {
    var k := FirstLease(leases, Budget(cfg, m));
    ChainFrom(cfg, net, m, leases, 0, k);
    SendingSwitch(cfg, net, m.(dhcpCount := m.dhcpCount + k), StartSent, 0);
  }
}
