/** WiFi setup for a hub-connected device: the hub's command states, the
    setup errors and their `NSError` form, the connection-media bit set, and
    the live setup manager's state machine. Calls into the hub library are
    recorded in a log, and whether such a call throws is an input. */
module WifiSetup {
  import opened Common

  // ---------------------------------------------------------------------
  // Hub command states and setup errors.

  /** `AferoSofthubSetupWifiCommandState`. */
  datatype CommandState =
    | Start | Available | Connected | Done | Cancelled
    | TimedOut | TimedOutCommunicating | TimedOutConnect | TimedOutNotAvailable | Failed

  /** `WifiSetupError`. */
  datatype WifiSetupError =
    | HubbyCommandTimedOutNotAvailable
    | HubbyCommandTimedOutConnect
    | HubbyCommandTimedOutCommunicating
    | HubbyCommandTimedOut
    | HubbyCommandFailed
    | InvalidManagerState

  const ErrorDomain: string := "WifiSetupError"

  /** The error's raw value. */
  function Code(e: WifiSetupError): int
  {
    match e
    case HubbyCommandTimedOutNotAvailable => 0x5
    case HubbyCommandTimedOutConnect => 0x6
    case HubbyCommandTimedOutCommunicating => 0x7
    case HubbyCommandTimedOut => 0x8
    case HubbyCommandFailed => 0x9
    case InvalidManagerState => 0xF0
  }

  /** `WifiSetupError(rawValue:)`. */
  function FromCode(code: int): (r: Option<WifiSetupError>)
    ensures r.Some? <==> (5 <= code <= 9 || code == 0xF0)
  {
    if code == 0x5 then Some(HubbyCommandTimedOutNotAvailable)
    else if code == 0x6 then Some(HubbyCommandTimedOutConnect)
    else if code == 0x7 then Some(HubbyCommandTimedOutCommunicating)
    else if code == 0x8 then Some(HubbyCommandTimedOut)
    else if code == 0x9 then Some(HubbyCommandFailed)
    else if code == 0xF0 then Some(InvalidManagerState)
    else None
  }

  /** Raw values and errors are in one-to-one correspondence. */
  lemma CodeRoundTrip(e: WifiSetupError, code: int)
    ensures FromCode(Code(e)) == Some(e)
    ensures FromCode(code) == Some(e) ==> Code(e) == code
  {
  }

  /** `WifiSetupError(hubbyCommandState:)`: the failure states map to an
      error, the others to none. */
  function FromCommandState(s: CommandState): (r: Option<WifiSetupError>)
    ensures r.Some? <==> s in {TimedOut, TimedOutCommunicating, TimedOutConnect, TimedOutNotAvailable, Failed}
    ensures r != Some(InvalidManagerState)
  {
    match s
    case TimedOut => Some(HubbyCommandTimedOut)
    case Failed => Some(HubbyCommandFailed)
    case TimedOutCommunicating => Some(HubbyCommandTimedOutCommunicating)
    case TimedOutNotAvailable => Some(HubbyCommandTimedOutNotAvailable)
    case TimedOutConnect => Some(HubbyCommandTimedOutConnect)
    case _ => None
  }

  /** Distinct failure states give distinct errors. */
  lemma FromCommandStateInjective(a: CommandState, b: CommandState)
    requires FromCommandState(a).Some? && FromCommandState(a) == FromCommandState(b)
    ensures a == b
  {
  }

  /** An `NSError`'s domain and code (its user info is not modelled). */
  datatype NSError = NSError(domain: string, code: int)

  /** `NSError(wifiSetupError:)`. */
  function ToNSError(e: WifiSetupError): (r: NSError)
    ensures r.domain == ErrorDomain
  {
    NSError(ErrorDomain, Code(e))
  }

  /** `WifiSetupError(nsError:)`: only errors of the setup domain with a
      known code convert. */
  function FromNSError(n: NSError): (r: Option<WifiSetupError>)
    ensures n.domain != ErrorDomain ==> r.None?
  {
    if n.domain != ErrorDomain then None else FromCode(n.code)
  }

  /** Converting to `NSError` and back gives the error; and an `NSError`
      that converts is exactly the one the error converts to. */
  lemma NSErrorRoundTrip(e: WifiSetupError, n: NSError)
    ensures FromNSError(ToNSError(e)) == Some(e)
    ensures FromNSError(n) == Some(e) <==> ToNSError(e) == n
  {
    CodeRoundTrip(e, n.code);
  }

  // ---------------------------------------------------------------------
  // Connection media (`ConnectionMediaTypes`, an option set over a 64-bit
  // unsigned raw value).

  type MediaTypes = bv64

  /** `init(bitIndex:)`. */
  function BitIndex(i: nat): (r: MediaTypes)
    requires i < 64
  {
    1 << i
  }

  const BLE: MediaTypes := BitIndex(0)
  const WiFi: MediaTypes := BitIndex(1)
  const LTE: MediaTypes := BitIndex(2)
  const AllMedia: MediaTypes := BLE | WiFi | LTE

  /** The raw values: BLE 1, WiFi 2, LTE 4, and all three 7. */
  lemma MediaBits()
    ensures BLE == 1 && WiFi == 2 && LTE == 4 && AllMedia == 7
  {
  }

  predicate Contains(s: MediaTypes, m: MediaTypes)
  {
    s & m == m
  }

  /** `connectionMediaTypes`: every device supports BLE, one with a WiFi
      setup-state attribute supports WiFi, and a Bento supports LTE. */
  function ConnectionMediaTypes(hasSetupState: bool, isBento: bool): (r: MediaTypes)
    ensures Contains(r, BLE)
    ensures Contains(r, WiFi) <==> hasSetupState
    ensures Contains(r, LTE) <==> isBento
    ensures r & !AllMedia == 0
  {
    var withBle := 0 | BLE;
    var withWifi := if hasSetupState then withBle | WiFi else withBle;
    if isBento then withWifi | LTE else withWifi
  }

  /** `isWifiConfigurable`. */
  predicate IsWifiConfigurable(hasSetupState: bool, isBento: bool)
  {
    Contains(ConnectionMediaTypes(hasSetupState, isBento), WiFi)
  }

  // ---------------------------------------------------------------------
  // The manager's state machine.

  /** `WifiSetupManagerState`; the error of a completed setup is kept as a
      setup error. */
  datatype ManagerState = NotReady | Ready | Managing | Completed(error: Option<WifiSetupError>)

  /** The state type's `==`: completed states are equal whatever their
      errors. */
  predicate SameState(a: ManagerState, b: ManagerState)
  {
    match (a, b)
    case (NotReady, NotReady) => true
    case (Ready, Ready) => true
    case (Managing, Managing) => true
    case (Completed(_), Completed(_)) => true
    case _ => false
  }

  /** `==` is an equivalence, coarser than identity. */
  lemma SameStateEquivalence(a: ManagerState, b: ManagerState, c: ManagerState)
    ensures SameState(a, a)
    ensures SameState(a, b) ==> SameState(b, a)
    ensures SameState(a, b) && SameState(b, c) ==> SameState(a, c)
    ensures SameState(Completed(None), Completed(Some(HubbyCommandFailed)))
  {
  }

  /** The states from which the hub commands may be issued. */
  predicate AcceptsCommands(s: ManagerState)
  {
    SameState(s, Ready) || SameState(s, Managing)
  }

  /** The operations that move the manager's state. */
  datatype Op =
    | DeviceAvailability(available: bool)
    | StartOp(available: bool)
    | StopOp
    | ScanOp
    | CancelScanOp
    | AssociateOp
    | CancelAssociateOp

  /** The manager's state after an operation. */
  function Step(s: ManagerState, op: Op): ManagerState
  {
    match op
    case DeviceAvailability(available) =>
      if s.NotReady? || s.Ready? then (if available then Ready else NotReady) else s
    case StartOp(available) =>
      if s.NotReady? || s.Ready? then (if available then Ready else NotReady) else s
    case StopOp => Completed(None)
    case ScanOp => if AcceptsCommands(s) then Managing else s
    case CancelScanOp => s
    case AssociateOp => if AcceptsCommands(s) then Managing else s
    case CancelAssociateOp => s
  }

  /** Every change of state other than by `stop()` follows the documented
      transitions: not-ready and ready both ways, ready to managing; and
      `stop()` always completes without error. */
  lemma StepTransitions(s: ManagerState, op: Op)
    ensures op != StopOp && !SameState(s, Step(s, op)) ==>
      || (s == NotReady && Step(s, op) == Ready)
      || (s == Ready && Step(s, op) == NotReady)
      || (s == Ready && Step(s, op) == Managing)
    ensures Step(s, StopOp) == Completed(None)
  {
  }

  function Run(s: ManagerState, ops: seq<Op>): ManagerState
    decreases |ops|
  {
    if ops == [] then s else Run(Step(s, ops[0]), ops[1..])
  }

  /** Completion is terminal: once completed, every sequence of operations
      leaves the manager completed; and once managing, it is managing or
      completed from then on. */
  lemma {:induction false} RunStaysSettled(s: ManagerState, ops: seq<Op>)
    ensures s.Completed? ==> Run(s, ops).Completed?
    ensures s.Managing? ==> Run(s, ops).Managing? || Run(s, ops).Completed?
    decreases |ops|
  {
    if ops != [] {
      RunStaysSettled(Step(s, ops[0]), ops[1..]);
    }
  }

  /** The events the manager signals (only those the modelled operations
      emit). */
  datatype WifiSetupEvent =
    | ManagerStateChange(newState: ManagerState)
    | WifiPasswordCommitted
    | CommandStateChange(commandState: CommandState)

  /** Calls made into the hub library. */
  datatype HubCall =
    | GetSsidList
    | CancelGetSsidList
    | SendCredential(ssid: string, password: string)
    | CancelSendCredential

  /** Why a command throws: the manager is in the wrong state, or the hub
      library threw. */
  datatype CommandError = InvalidState(state: ManagerState) | HubThrew

  datatype Outcome = Ok | Err(error: CommandError)

  /** The events the `state` property's observer sends for an assignment. */
  function StateEvents(before: ManagerState, after: ManagerState): seq<WifiSetupEvent>
  {
    if SameState(before, after) then [] else [ManagerStateChange(after)]
  }

  /** `LiveWifiSetupManager`. */
  class LiveWifiSetupManager {
    var state: ManagerState
    /** Events sent on `wifiSetupEventSignal`. */
    var events: seq<WifiSetupEvent>
    /** Calls made into the hub library, thrown or not. */
    var hubCalls: seq<HubCall>
    /** Whether the attribute and availability subscriptions are live. */
    var subscribed: bool
    /** Each `notifyViewing` call. */
    var viewing: seq<bool>

    constructor ()
      ensures state == NotReady && events == [] && hubCalls == [] && !subscribed && viewing == []
    {
      state := NotReady;
      events := [];
      hubCalls := [];
      subscribed := false;
      viewing := [];
    }

    /** `getWifiSetupManager()`: a manager only for a WiFi-configurable
        device. */
    static method GetWifiSetupManager(hasSetupState: bool, isBento: bool) returns (r: Option<LiveWifiSetupManager>)
      ensures r.Some? <==> hasSetupState
      ensures r.Some? ==> fresh(r.value) && r.value.state == NotReady && r.value.events == []
    {
      if !IsWifiConfigurable(hasSetupState, isBento) {
        return None;
      }
      var m := new LiveWifiSetupManager();
      return Some(m);
    }

    /** Assigning `state`: a change event unless the new state is `==` to
        the old. */
    method SetState(s: ManagerState)
      modifies this
      ensures state == s
      ensures events == old(events) + StateEvents(old(state), s)
      ensures hubCalls == old(hubCalls) && subscribed == old(subscribed) && viewing == old(viewing)
    {
      var before := state;
      state := s;
      if !SameState(before, s) {
        events := events + [ManagerStateChange(s)];
      }
    }

    /** `deviceStateChanged(deviceState:)`: availability matters only before
        managing starts. */
    method DeviceStateChanged(available: bool)
      modifies this
      ensures state == Step(old(state), DeviceAvailability(available))
      ensures events == old(events) + StateEvents(old(state), state)
      ensures hubCalls == old(hubCalls) && subscribed == old(subscribed) && viewing == old(viewing)
    {
      if state.NotReady? || state.Ready? {
        SetState(if available then Ready else NotReady);
      }
    }

    /** `start()`: subscribe, take the device's current availability, and
        tell the device it is being viewed. */
    method Start(available: bool)
      modifies this
      ensures state == Step(old(state), StartOp(available))
      ensures events == old(events) + StateEvents(old(state), state)
      ensures subscribed && viewing == old(viewing) + [true] && hubCalls == old(hubCalls)
    {
      subscribed := true;
      DeviceStateChanged(available);
      viewing := viewing + [true];
    }

    /** `cancelScan()`. */
    method CancelScan(hubThrows: bool) returns (r: Outcome)
      modifies this
      ensures state == Step(old(state), CancelScanOp) && events == old(events)
      ensures !AcceptsCommands(old(state)) ==> r == Err(InvalidState(old(state))) && hubCalls == old(hubCalls)
      ensures AcceptsCommands(old(state)) ==>
        hubCalls == old(hubCalls) + [CancelGetSsidList] && r == (if hubThrows then Err(HubThrew) else Ok)
      ensures subscribed == old(subscribed) && viewing == old(viewing)
    {
      if !AcceptsCommands(state) {
        return Err(InvalidState(state));
      }
      hubCalls := hubCalls + [CancelGetSsidList];
      r := if hubThrows then Err(HubThrew) else Ok;
    }

    /** `cancelAttemptAssociate()`. */
    method CancelAttemptAssociate(hubThrows: bool) returns (r: Outcome)
      modifies this
      ensures state == Step(old(state), CancelAssociateOp) && events == old(events)
      ensures !AcceptsCommands(old(state)) ==> r == Err(InvalidState(old(state))) && hubCalls == old(hubCalls)
      ensures AcceptsCommands(old(state)) ==>
        hubCalls == old(hubCalls) + [CancelSendCredential] && r == (if hubThrows then Err(HubThrew) else Ok)
      ensures subscribed == old(subscribed) && viewing == old(viewing)
    {
      if !AcceptsCommands(state) {
        return Err(InvalidState(state));
      }
      hubCalls := hubCalls + [CancelSendCredential];
      r := if hubThrows then Err(HubThrew) else Ok;
    }

    /** `stop()`: stop viewing, cancel association and then scanning (a
        throw ends the cancelling and is ignored), unsubscribe, complete. */
    method Stop(cancelAssociateThrows: bool, cancelScanThrows: bool)
      modifies this
      ensures state == Step(old(state), StopOp)
      ensures events == old(events) + StateEvents(old(state), state)
      ensures hubCalls == old(hubCalls) +
        (if !AcceptsCommands(old(state)) then []
         else if cancelAssociateThrows then [CancelSendCredential]
         else [CancelSendCredential, CancelGetSsidList])
      ensures !subscribed && viewing == old(viewing) + [false]
    {
      viewing := viewing + [false];
      var r := CancelAttemptAssociate(cancelAssociateThrows);
      if r.Ok? {
        r := CancelScan(cancelScanThrows);
      }
      subscribed := false;
      SetState(Completed(None));
    }

    /** `scan()`: from ready or managing, start managing and ask the hub for
        the SSID list. */
    method Scan(hubThrows: bool) returns (r: Outcome)
      modifies this
      ensures state == Step(old(state), ScanOp)
      ensures events == old(events) + StateEvents(old(state), state)
      ensures !AcceptsCommands(old(state)) ==> r == Err(InvalidState(old(state))) && hubCalls == old(hubCalls)
      ensures AcceptsCommands(old(state)) ==>
        hubCalls == old(hubCalls) + [GetSsidList] && r == (if hubThrows then Err(HubThrew) else Ok)
      ensures subscribed == old(subscribed) && viewing == old(viewing)
    {
      if !AcceptsCommands(state) {
        return Err(InvalidState(state));
      }
      SetState(Managing);
      hubCalls := hubCalls + [GetSsidList];
      r := if hubThrows then Err(HubThrew) else Ok;
    }

    /** `attemptAssociate(_:password:)`: from ready or managing, start
        managing, signal that the password was committed, and send the
        credentials to the hub. */
    method AttemptAssociate(ssid: string, password: string, hubThrows: bool) returns (r: Outcome)
      modifies this
      ensures state == Step(old(state), AssociateOp)
      ensures !AcceptsCommands(old(state)) ==>
        r == Err(InvalidState(old(state))) && hubCalls == old(hubCalls) && events == old(events)
      ensures AcceptsCommands(old(state)) ==>
        && events == old(events) + StateEvents(old(state), state) + [WifiPasswordCommitted]
        && hubCalls == old(hubCalls) + [SendCredential(ssid, password)]
        && r == (if hubThrows then Err(HubThrew) else Ok)
      ensures subscribed == old(subscribed) && viewing == old(viewing)
    {
      if !AcceptsCommands(state) {
        return Err(InvalidState(state));
      }
      SetState(Managing);
      events := events + [WifiPasswordCommitted];
      hubCalls := hubCalls + [SendCredential(ssid, password)];
      r := if hubThrows then Err(HubThrew) else Ok;
    }

    /** The command-state callback given to the hub: forward the state. */
    method CommandStateChanged(s: CommandState)
      modifies this
      ensures events == old(events) + [CommandStateChange(s)]
      ensures state == old(state) && hubCalls == old(hubCalls)
      ensures subscribed == old(subscribed) && viewing == old(viewing)
    {
      events := events + [CommandStateChange(s)];
    }
  }
}
