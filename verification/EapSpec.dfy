/**
 * What the EAP state machine (eap_state_machine.c) and the RJv3 plugin's double authentication
 * (packet_plugin_rjv3.c, packet_plugin_rjv3_priv.c) make of one event, as functions on values.
 *
 * What the machine cannot decide is a parameter: `net(k)` tells whether preparing and sending the k-th frame
 * succeeds; an event says whether the lease could be read and whether the server's message was understood.
 */
module EapSpec {
  import opened Dhcp

  datatype EapState = Unknown | Preparing | WaitingForClientStart | StartSent | WaitingForClientIdentity
                    | IdentitySent | WaitingForClientChallenge | ChallengeSent | Success | Failure

  type Mac = seq<nat>

  const BCAST: Mac := [0x01, 0x80, 0xc2, 0x00, 0x00, 0x03]

  datatype Code = Request | Response | SuccessCode | FailureCode

  datatype EapType = IdentityType | Md5ChallengeType | OtherType

  datatype Frame = Frame(eapPacket: bool, code: Code, eapType: EapType, id: nat, src: Mac)

  datatype Sent = Start(dst: Mac) | Identity(dst: Mac, id: nat) | Challenge(dst: Mac, id: nat)

  datatype Alarm = Restart(secs: int) | Secondary(secs: int)

  datatype Config = Config(authRound: int, maxFailures: int, restartOnLogoff: bool, waitAfterFail: int,
                           dhcpType: DhcpType, maxDhcpCount: int)

  type Net = nat -> bool

  /** Whether the process goes on, has called exit, or has called a transition function that is NULL. */
  datatype Fate = Running | Exited | CalledNull

  /** g_priv, the plugin's counters, the pending alarms and what was sent. */
  datatype Machine = Machine(state: EapState, authRound: int, failCount: int, serverMac: Mac,
                             succCount: int, dhcpCount: int, keepAlives: nat,
                             alarms: seq<Alarm>, sent: seq<Sent>, fate: Fate)

  // ---- eap_state_machine.c ----

  /** eap_state_machine_reset.  The watchdog it disables is never armed. */
  function Reset(m: Machine): Machine {
    m.(state := Unknown, authRound := 1, failCount := 0, serverMac := BCAST)
  }

  /** Sends a frame, or exits: every caller answers a failed transition with exit. */
  function Send(net: Net, m: Machine, s: Sent): Machine {
    m.(sent := m.sent + [s], fate := if net(|m.sent|) then m.fate else Exited)
  }

  function Schedule(m: Machine, a: Alarm): Machine {
    m.(alarms := m.alarms + [a])
  }

  /** How deep transitions may nest below this one. */
  function Rank(target: EapState): nat {
    if target == Preparing || target == Success then 1 else 0
  }

  /** The transition functions, for a machine that is running. */
  function Transition(cfg: Config, net: Net, m: Machine, target: EapState, id: nat): Machine
    decreases Rank(target), 0
  {
    match target
    case Preparing => Switch(cfg, net, m, StartSent, id)
    case StartSent => Send(net, m, Start(m.serverMac))
    case IdentitySent => Send(net, m, Identity(m.serverMac, id))
    case ChallengeSent => Send(net, m, Challenge(m.serverMac, id))
    case Success =>
      if m.authRound == cfg.authRound then Reset(m)
      else Switch(cfg, net, m.(failCount := 0, authRound := m.authRound + 1), StartSent, id)
    case Failure => ProcessFailure(cfg, m)
    case _ => m.(fate := CalledNull)
  }

  /** state_mach_process_failure */
  function ProcessFailure(cfg: Config, m: Machine): Machine {
    if m.state == Success then
      if cfg.restartOnLogoff then Schedule(m, Restart(1)) else m.(fate := Exited)
    else
      var failed := m.(failCount := m.failCount + 1);
      if failed.failCount == cfg.maxFailures then failed.(fate := Exited)
      else Schedule(failed, Restart(cfg.waitAfterFail))
  }

  /**
   * switch_to_state: the state changes after the transition function has returned.  The one for Preparing
   * captures frames until the program ends, so there nothing follows.
   */
  function Switch(cfg: Config, net: Net, m: Machine, target: EapState, id: nat): Machine
    decreases Rank(target), 1
  {
    var t := Transition(cfg, net, m, target, id);
    if t.fate == Running && target != Preparing then t.(state := target) else t
  }

  function RestartAuth(cfg: Config, net: Net, m: Machine): Machine {
    Switch(cfg, net, Reset(m), StartSent, 0)
  }

  // ---- The plugin ----

  /** rjv3_start_secondary_auth */
  function StartSecondary(cfg: Config, net: Net, m: Machine, leaseOk: bool): Machine {
    if leaseOk then Switch(cfg, net, m, StartSent, 0)
    else
      var tried := m.(dhcpCount := m.dhcpCount + 1);
      if tried.dhcpCount > cfg.maxDhcpCount then tried.(keepAlives := tried.keepAlives + 1)
      else Schedule(tried, Secondary(5))
  }

  function ResetPlugin(m: Machine): Machine {
    m.(succCount := 0, dhcpCount := 0)
  }

  /** rjv3_process_success */
  function PluginSuccess(cfg: Config, net: Net, m: Machine, leaseOk: bool, messageOk: bool): Machine {
    var counted := m.(succCount := m.succCount + 1);
    if cfg.dhcpType == DoubleAuth && counted.succCount < 2 then StartSecondary(cfg, net, counted, leaseOk)
    else
      var done := if cfg.dhcpType == DoubleAuth then ResetPlugin(counted) else counted;
      if messageOk then done.(keepAlives := done.keepAlives + 1) else done
  }

  /** rjv3_on_frame_received */
  function PluginReceive(cfg: Config, net: Net, m: Machine, f: Frame, leaseOk: bool, messageOk: bool): Machine {
    if f.eapPacket && f.code == SuccessCode then PluginSuccess(cfg, net, m, leaseOk, messageOk)
    else if f.eapPacket && f.code == FailureCode then ResetPlugin(m)
    else m
  }

  // ---- One event ----

  /** eap_state_machine_recv_handler, after the plugin has seen the frame */
  function Answer(cfg: Config, net: Net, m: Machine, f: Frame): Machine {
    if !f.eapPacket then m
    else
      match f.code
      case Request =>
        var addressed := m.(serverMac := f.src);
        if f.eapType == IdentityType then Switch(cfg, net, addressed, IdentitySent, f.id)
        else if f.eapType == Md5ChallengeType then Switch(cfg, net, addressed, ChallengeSent, f.id)
        else addressed
      case SuccessCode => Switch(cfg, net, m, Success, f.id)
      case FailureCode => Switch(cfg, net, m, Failure, f.id)
      case Response => m
  }

  function Receive(cfg: Config, net: Net, m: Machine, f: Frame, leaseOk: bool, messageOk: bool): Machine {
    var seen := PluginReceive(cfg, net, m, f, leaseOk, messageOk);
    if seen.fate == Running then Answer(cfg, net, seen, f) else seen
  }

  /** The alarm at position `i` has fired and left the list. */
  function Fire(cfg: Config, net: Net, m: Machine, i: nat, leaseOk: bool): Machine
    requires i < |m.alarms|
  {
    var rest := m.(alarms := m.alarms[..i] + m.alarms[i + 1..]);
    match m.alarms[i]
    case Restart(_) => RestartAuth(cfg, net, rest)
    case Secondary(_) => StartSecondary(cfg, net, rest, leaseOk)
  }

  /** After eap_state_machine_init, before main switches to Preparing */
  function Initial(): Machine {
    Machine(Unknown, 1, 0, BCAST, 0, 0, 0, [], [], Running)
  }
}
