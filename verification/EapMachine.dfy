/**
 * The EAP state machine and the RJv3 plugin as the program runs them: one object whose fields the handlers and
 * the nested transitions update in place.
 */
module EapMachine {
  import opened Dhcp
  import opened EapSpec

  datatype TransFunc = Null | ToPreparing | ToStartSent | ToIdentitySent | ToChallengeSent | ToSuccess | ToFailure

  /** g_transition_table */
  const TABLE: seq<(EapState, TransFunc)> := [
    (Unknown, Null), (Preparing, ToPreparing), (WaitingForClientStart, Null), (StartSent, ToStartSent),
    (WaitingForClientIdentity, Null), (IdentitySent, ToIdentitySent), (WaitingForClientChallenge, Null),
    (ChallengeSent, ToChallengeSent), (Success, ToSuccess), (Failure, ToFailure)
  ]

  lemma TableHasEveryState(target: EapState)
    ensures exists i :: 0 <= i < |TABLE| && TABLE[i].0 == target
  {
    var i := match target
      case Unknown => 0 case Preparing => 1 case WaitingForClientStart => 2 case StartSent => 3
      case WaitingForClientIdentity => 4 case IdentitySent => 5 case WaitingForClientChallenge => 6
      case ChallengeSent => 7 case Success => 8 case Failure => 9;
    assert TABLE[i].0 == target;
  }

  class Supplicant {
    const cfg: Config
    const net: Net

    var state: EapState
    var authRound: int
    var failCount: int
    var serverMac: Mac
    var succCount: int
    var dhcpCount: int
    var keepAlives: nat
    var alarms: seq<Alarm>
    var sent: seq<Sent>
    var fate: Fate

    function View(): Machine
      reads this
    {
      Machine(state, authRound, failCount, serverMac, succCount, dhcpCount, keepAlives, alarms, sent, fate)
    }

    /** eap_state_machine_init */
    constructor (cfg: Config, net: Net)
      ensures this.cfg == cfg && this.net == net && View() == Initial()
    {
      this.cfg, this.net := cfg, net;
      succCount, dhcpCount, keepAlives, alarms, sent, fate := 0, 0, 0, [], [], Running;
      state, authRound, failCount, serverMac := Unknown, 1, 0, BCAST;
    }

    /** eap_state_machine_reset */
    method ResetMachine()
      modifies this
      ensures View() == Reset(old(View()))
    {
      state := Unknown;
      authRound := 1;
      failCount := 0;
      serverMac := BCAST;
    }

    /** state_mach_send_eapol_simple and the two response senders */
    method SendFrame(s: Sent) returns (ok: bool)
      modifies this
      ensures ok == net(old(|sent|)) && View() == old(View()).(sent := old(sent) + [s])
    {
      ok := net(|sent|);
      sent := sent + [s];
    }

    /** state_mach_process_success */
    method ProcessSuccess(id: nat)
      requires fate == Running
      modifies this
      ensures View() == Transition(cfg, net, old(View()), Success, id)
      decreases Rank(Success), 0
    {
      if authRound == cfg.authRound {
        ResetMachine();
      } else {
        failCount := 0;
        authRound := authRound + 1;
        SwitchToState(StartSent, id);
      }
    }

    /** state_mach_process_failure */
    method Fail()
      requires fate == Running
      modifies this
      ensures View() == ProcessFailure(cfg, old(View()))
    {
      if state == Success {
        if cfg.restartOnLogoff {
          alarms := alarms + [Restart(1)];
        } else {
          fate := Exited;
        }
      } else {
        failCount := failCount + 1;
        if failCount == cfg.maxFailures {
          fate := Exited;
        } else {
          alarms := alarms + [Restart(cfg.waitAfterFail)];
        }
      }
    }

    /** Calls one entry of the table; false is the result FAILURE. */
    method Call(f: TransFunc, ghost target: EapState, id: nat) returns (ok: bool)
      requires fate == Running && (target, f) in TABLE
      modifies this
      ensures View() == if ok then Transition(cfg, net, old(View()), target, id)
                        else Transition(cfg, net, old(View()), target, id).(fate := Running)
      ensures !ok ==> fate == Running && Transition(cfg, net, old(View()), target, id).fate == Exited
      decreases Rank(target), 1
    {
      ok := true;
      match f
      case Null => fate := CalledNull;
      case ToPreparing => SwitchToState(StartSent, id);
      case ToStartSent => ok := SendFrame(Start(serverMac));
      case ToIdentitySent => ok := SendFrame(Identity(serverMac, id));
      case ToChallengeSent => ok := SendFrame(Challenge(serverMac, id));
      case ToSuccess => ProcessSuccess(id);
      case ToFailure => Fail();
    }

    /** switch_to_state: the transition function first, then the new state. */
    method SwitchToState(target: EapState, id: nat)
      requires fate == Running
      modifies this
      ensures View() == Switch(cfg, net, old(View()), target, id)
      decreases Rank(target), 2
    {
      var i := 0;
      while i < |TABLE|
        invariant 0 <= i <= |TABLE| && forall j :: 0 <= j < i ==> TABLE[j].0 != target
        invariant View() == old(View())
      {
        if target == TABLE[i].0 {
          assert TABLE[i] in TABLE;
          var ok := Call(TABLE[i].1, target, id);
          if !ok {
            fate := Exited;
          } else if fate == Running && target != Preparing {
            state := target;
          }
          return;
        }
        i := i + 1;
      }
      TableHasEveryState(target);
    }

    /** restart_auth */
    method RestartAuthentication()
      requires fate == Running
      modifies this
      ensures View() == RestartAuth(cfg, net, old(View()))
    {
      ResetMachine();
      SwitchToState(StartSent, 0);
    }

    /** rjv3_start_secondary_auth */
    method StartSecondaryAuth(leaseOk: bool)
      requires fate == Running
      modifies this
      ensures View() == StartSecondary(cfg, net, old(View()), leaseOk)
    {
      if !leaseOk {
        dhcpCount := dhcpCount + 1;
        if dhcpCount > cfg.maxDhcpCount {
          keepAlives := keepAlives + 1;
        } else {
          alarms := alarms + [Secondary(5)];
        }
      } else {
        SwitchToState(StartSent, 0);
      }
    }

    /** rjv3_process_success */
    method PluginProcessSuccess(leaseOk: bool, messageOk: bool)
      requires fate == Running
      modifies this
      ensures View() == PluginSuccess(cfg, net, old(View()), leaseOk, messageOk)
    {
      succCount := succCount + 1;
      if cfg.dhcpType == DoubleAuth {
        if succCount < 2 {
          StartSecondaryAuth(leaseOk);
          return;
        } else {
          succCount, dhcpCount := 0, 0;
        }
      }
      if !messageOk {
        return;
      }
      keepAlives := keepAlives + 1;
    }

    /** eap_state_machine_recv_handler */
    method RecvHandler(f: Frame, leaseOk: bool, messageOk: bool)
      requires fate == Running
      modifies this
      ensures View() == Receive(cfg, net, old(View()), f, leaseOk, messageOk)
    {
      if f.eapPacket {
        if f.code == SuccessCode {
          PluginProcessSuccess(leaseOk, messageOk);
        } else if f.code == FailureCode {
          succCount, dhcpCount := 0, 0;
        }
      }
      if fate != Running {
        return;
      }
      if f.eapPacket {
        match f.code
        case Request =>
          serverMac := f.src;
          if f.eapType == IdentityType {
            SwitchToState(IdentitySent, f.id);
          } else if f.eapType == Md5ChallengeType {
            SwitchToState(ChallengeSent, f.id);
          }
        case SuccessCode => SwitchToState(Success, f.id);
        case FailureCode => SwitchToState(Failure, f.id);
        case Response =>
      }
    }

    /** The scheduler calls back for the alarm at position `i`. */
    method AlarmFires(i: nat, leaseOk: bool)
      requires fate == Running && i < |alarms|
      modifies this
      ensures View() == Fire(cfg, net, old(View()), i, leaseOk)
    {
      var a := alarms[i];
      alarms := alarms[..i] + alarms[i + 1..];
      match a
      case Restart(_) => RestartAuthentication();
      case Secondary(_) => StartSecondaryAuth(leaseOk);
    }
  }
}
