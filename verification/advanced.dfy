/**
 * The polled "advanced confirmed" example (examples/hello_otaa_advanced/main.c).
 *
 * After init, four parameter setters and a polled join, the main loop reads the
 * clock once per pass and
 *  - every 120 s sends a confirmed uplink: it resets the confirmation flag,
 *    retries a busy stack up to 200 times, waits up to 30 s for the flag and,
 *    only after an acknowledgement, lets the stack settle for 300 polls;
 *  - every 300 s requests a link check and, if the request was taken, polls 30
 *    times and asks for the result;
 *  - polls for a downlink and dumps it.
 */
module AdvancedExample {
  import opened CTypes
  import opened Format
  import opened Library

  const SendPeriodMs: u32 := 120000
  const LinkCheckPeriodMs: u32 := 300000
  const MaxSendAttempts: nat := 200
  const AckTimeoutMs: u32 := 30000
  const SettlePolls: nat := 300
  const LinkCheckPolls: nat := 30
  const UplinkPort: int := 2
  const MessageBufferSize: nat := 64

  /** The cycle payload: "Hello #", the counter in decimal, then the data rate and TX power the stack reports (lines 121-124). */
  function HelloPayload(counter: u32, datarate: i32, txPower: i32): string
  {
    "Hello #" + Decimal(counter as nat) + " DR:" + Signed(datarate as int) + " PWR:" + Signed(txPower as int)
  }

  /** The payload and its terminating NUL always fit the 64-byte `message` buffer, so `sprintf` never overruns it. */
  lemma HelloPayloadFits(counter: u32, datarate: i32, txPower: i32)
    ensures |HelloPayload(counter, datarate, txPower)| + 1 <= MessageBufferSize
  {
    U32DecimalLength(counter);
    I32SignedLength(datarate);
    I32SignedLength(txPower);
  }

  /**
   * The counter reads back from the payload: after "Hello #" come exactly its
   * decimal digits, ended by the space before " DR:".
   */
  lemma HelloPayloadReadBack(counter: u32, datarate: i32, txPower: i32)
    ensures var s, d := HelloPayload(counter, datarate, txPower), Decimal(counter as nat);
      && 7 + |d| < |s|
      && s[..7] == "Hello #"
      && s[7..7 + |d|] == d
      && DecimalValue(s[7..7 + |d|]) == counter as nat
      && s[7 + |d|] == ' '
  {
    var d := Decimal(counter as nat);
    var rest := " DR:" + Signed(datarate as int) + " PWR:" + Signed(txPower as int);
    assert HelloPayload(counter, datarate, txPower) == "Hello #" + d + rest;
    DecimalRoundTrip(counter as nat);
  }

  // ---------------------------------------------------------------- start-up

  /** Which of the four parameter setters answered 0 (each success is only reported). */
  datatype Settings = Settings(retryCountSet: bool, adrDisabled: bool, datarateSet: bool, txPowerSet: bool)

  datatype Startup = Halted | Joined(settings: Settings, joinPolls: nat)

  /** The answers of `lorawan_init_otaa`, the four setters and the successive `lorawan_is_joined` polls. */
  datatype BootEnv = BootEnv(initResult: i32, retryCountResult: i32, adrResult: i32,
                             datarateResult: i32, txPowerResult: i32, joined: seq<bool>)
  {
    /** Once init succeeded the network eventually reports the device joined. */
    ghost predicate Valid()
    {
      initResult >= 0 ==> exists i :: 0 <= i < |joined| && joined[i]
    }
  }

  const SetupCalls: seq<Call> :=
    [SetConfirmedRetryCount(3), SetAdrEnabled(false), SetDatarate(0), SetTxPower(0)]

  /**
   * Start-up: a negative init result halts for ever with no join and no send;
   * the setter results never stop start-up; then the polled join.
   */
  method Boot(env: BootEnv) returns (s: Startup, calls: seq<Call>)
    requires env.Valid()
    ensures s.Halted? <==> env.initResult < 0
    ensures s.Halted? ==> calls == [Debug(true), InitOtaa]
    ensures s.Joined? ==> s.settings == Settings(env.retryCountResult == 0, env.adrResult == 0,
                                                 env.datarateResult == 0, env.txPowerResult == 0)
    ensures s.Joined? ==> s.joinPolls < |env.joined| && env.joined[s.joinPolls]
                          && forall i :: 0 <= i < s.joinPolls ==> !env.joined[i]
    ensures s.Joined? ==> calls == [Debug(true), InitOtaa] + SetupCalls + JoinCalls(s.joinPolls)
  {
    calls := [Debug(true), InitOtaa];
    if env.initResult < 0 {
      s := Halted;
      return;
    }
    var settings := Settings(env.retryCountResult == 0, env.adrResult == 0,
                             env.datarateResult == 0, env.txPowerResult == 0);
    calls := calls + SetupCalls;
    var polls, joinCalls := AwaitJoin(env.joined);
    calls := calls + joinCalls;
    s := Joined(settings, polls);
  }

  // ------------------------------------------------------------ send cycle

  /** How a fired cycle ended. */
  datatype Outcome = StackBusy | Acknowledged | NotAcknowledged

  /**
   * What the library answers during one fired cycle: the two parameter queries
   * of the payload and the order they were made in, the result of each
   * `lorawan_send_confirmed` attempt, the clock reading taken as `ack_start`,
   * and the passes of the ack wait.
   */
  datatype CycleEnv = CycleEnv(datarate: i32, txPower: i32, txPowerFirst: bool, sendCodes: seq<i32>,
                               ackStart: u32, ackPolls: seq<AckPoll>)
  {
    ghost predicate Valid()
    {
      |sendCodes| >= MaxSendAttempts && ClockExpires(ackStart, AckTimeoutMs, ackPolls)
    }
  }

  datatype CycleReport = CycleReport(counter: u32, payload: string, attempts: nat, outcome: Outcome,
                                     statusPolls: nat, calls: seq<Call>)

  /**
   * The busy-retry loop made `attempts` sends: all but the last were refused
   * (negative), the stack is ready exactly when the last was accepted, and it
   * gives up only after 200 refusals.
   */
  ghost predicate RetriedUntilAccepted(codes: seq<i32>, attempts: nat, ready: bool)
  {
    && 1 <= attempts <= MaxSendAttempts <= |codes|
    && (forall i :: 0 <= i < attempts - 1 ==> codes[i] < 0)
    && (ready <==> codes[attempts - 1] >= 0)
    && (!ready ==> attempts == MaxSendAttempts)
  }

  /**
   * One fired cycle (lines 120-192): the payload carries the counter value
   * given, the confirmation flag is reset before the first attempt, the ack wait
   * runs only when a send was accepted, and the 300-poll settle runs only after
   * the flag was seen.
   */
  ghost predicate CycleSpec(counter: u32, env: CycleEnv, r: CycleReport)
  {
    && r.counter == counter
    && r.payload == HelloPayload(counter, env.datarate, env.txPower)
    && RetriedUntilAccepted(env.sendCodes, r.attempts, !r.outcome.StackBusy?)
    && (r.outcome.StackBusy? ==> r.statusPolls == 0)
    && (!r.outcome.StackBusy? ==>
          ConfirmationWait(env.ackStart, AckTimeoutMs, env.ackPolls, r.outcome.Acknowledged?, r.statusPolls))
    && r.calls == CycleCalls(r.payload, env.txPowerFirst, r.attempts, r.statusPolls, r.outcome.Acknowledged?)
  }

  /**
   * The two parameter queries made while the payload is formatted. C leaves
   * the order in which the arguments of `sprintf` are evaluated unspecified,
   * so which comes first is an input.
   */
  function ParameterQueries(txPowerFirst: bool): seq<Call>
  {
    if txPowerFirst then [GetTxPower, GetDatarate] else [GetDatarate, GetTxPower]
  }

  /**
   * The calls of a fired cycle: the two parameter queries of the payload, the
   * reset, then a `lorawan_process` and a send per attempt, a `lorawan_process`
   * and a status query per ack-wait pass, and the settle polls after an
   * acknowledgement. Both queries are made before the reset.
   */
  function CycleCalls(payload: string, txPowerFirst: bool, attempts: nat, statusPolls: nat, acked: bool): (calls: seq<Call>)
    ensures 3 <= |calls|
    ensures calls[0] in [GetDatarate, GetTxPower] && calls[1] in [GetDatarate, GetTxPower] && calls[0] != calls[1]
    ensures calls[2] == ResetConfirmedStatus
  {
    ParameterQueries(txPowerFirst) + [ResetConfirmedStatus]
    + Repeat([Process, SendConfirmed(payload, UplinkPort)], attempts)
    + Repeat([Process, GetLastConfirmedStatus], statusPolls)
    + (if acked then Repeat([Process], SettlePolls) else [])
  }

  /**
   * The busy-retry loop (lines 130-151): up to 200 passes, each processing
   * pending events and then trying the send; the first accepted send sets
   * the ready flag and ends the loop.
   */
  method RetrySend(payload: string, codes: seq<i32>) returns (ready: bool, attempts: nat, calls: seq<Call>)
    requires |codes| >= MaxSendAttempts
    ensures RetriedUntilAccepted(codes, attempts, ready)
    ensures calls == Repeat([Process, SendConfirmed(payload, UplinkPort)], attempts)
  {
    ready, attempts, calls := false, 0, [];
    var retry := 0;
    while retry < MaxSendAttempts
      invariant 0 <= retry <= MaxSendAttempts
      invariant attempts == retry && !ready
      invariant forall i :: 0 <= i < retry ==> codes[i] < 0
      invariant calls == Repeat([Process, SendConfirmed(payload, UplinkPort)], retry)
    {
      calls := calls + [Process, SendConfirmed(payload, UplinkPort)];
      attempts := attempts + 1;
      if codes[retry] >= 0 {
        ready := true;
        break;
      }
      retry := retry + 1;
    }
  }

  method SendCycle(counter: u32, env: CycleEnv) returns (r: CycleReport)
    requires env.Valid()
    ensures CycleSpec(counter, env, r)
  {
    var payload := HelloPayload(counter, env.datarate, env.txPower);
    var calls := ParameterQueries(env.txPowerFirst) + [ResetConfirmedStatus];
    var ready, attempts, retryCalls := RetrySend(payload, env.sendCodes);
    calls := calls + retryCalls;
    var outcome, statusPolls := StackBusy, 0;
    if ready {
      var acked, n, waitCalls := AwaitConfirmation(env.ackStart, AckTimeoutMs, env.ackPolls);
      calls := calls + waitCalls;
      statusPolls := n;
      if acked {
        var settleCalls := ProcessFor(SettlePolls);
        calls := calls + settleCalls;
        outcome := Acknowledged;
      } else {
        outcome := NotAcknowledged;
      }
    }
    r := CycleReport(counter, payload, attempts, outcome, statusPolls, calls);
  }

  /**
   * The stack is ready exactly when one of the first 200 attempts was accepted;
   * then the attempt that was accepted is the first one that was.
   */
  lemma {:induction false} StackReadyIffAccepted(codes: seq<i32>, attempts: nat, ready: bool)
    requires RetriedUntilAccepted(codes, attempts, ready)
    ensures ready <==> exists i :: 0 <= i < MaxSendAttempts && codes[i] >= 0
    ensures ready ==> codes[attempts - 1] >= 0 && forall i :: 0 <= i < attempts - 1 ==> codes[i] < 0
  {
    if !ready {
      forall i | 0 <= i < MaxSendAttempts
        ensures codes[i] < 0
      {
        if i == attempts - 1 {
        }
      }
    }
  }

  /** Both parameter queries and the reset come before every send attempt of a cycle. */
  lemma CycleCallOrder(payload: string, txPowerFirst: bool, attempts: nat, statusPolls: nat, acked: bool)
    ensures var calls := CycleCalls(payload, txPowerFirst, attempts, statusPolls, acked);
      forall i :: 0 <= i < |calls| && calls[i].SendConfirmed? ==> 2 < i
  {
  }

  /**
   * The trace of a cycle queries each radio parameter once and resets the flag
   * once; it holds exactly `attempts` sends (at most 200), and exactly one
   * `lorawan_process` per retry and per ack poll plus 300 settle polls when,
   * and only when, the cycle was acknowledged.
   */
  lemma CycleCallCounts(counter: u32, env: CycleEnv, r: CycleReport)
    requires CycleSpec(counter, env, r)
    ensures Count(r.calls, GetDatarate) == 1 && Count(r.calls, GetTxPower) == 1
    ensures Count(r.calls, ResetConfirmedStatus) == 1
    ensures Count(r.calls, SendConfirmed(r.payload, UplinkPort)) == r.attempts <= MaxSendAttempts
    ensures Count(r.calls, GetLastConfirmedStatus) == r.statusPolls
    ensures Count(r.calls, Process)
            == r.attempts + r.statusPolls + (if r.outcome.Acknowledged? then SettlePolls else 0)
  {
    CycleTraceCounts(r.payload, env.txPowerFirst, r.attempts, r.statusPolls, r.outcome.Acknowledged?);
  }

  /** The trace shape of CycleSpec, counted call by call. */
  lemma CycleTraceCounts(payload: string, txPowerFirst: bool, attempts: nat, statusPolls: nat, acked: bool)
    ensures var calls := CycleCalls(payload, txPowerFirst, attempts, statusPolls, acked);
      && Count(calls, GetDatarate) == 1 && Count(calls, GetTxPower) == 1
      && Count(calls, ResetConfirmedStatus) == 1
      && Count(calls, SendConfirmed(payload, UplinkPort)) == attempts
      && Count(calls, GetLastConfirmedStatus) == statusPolls
      && Count(calls, Process) == attempts + statusPolls + (if acked then SettlePolls else 0)
  {
    CycleTraceCount(payload, txPowerFirst, attempts, statusPolls, acked, GetDatarate);
    CycleTraceCount(payload, txPowerFirst, attempts, statusPolls, acked, GetTxPower);
    CycleTraceCount(payload, txPowerFirst, attempts, statusPolls, acked, ResetConfirmedStatus);
    CycleTraceCount(payload, txPowerFirst, attempts, statusPolls, acked, SendConfirmed(payload, UplinkPort));
    CycleTraceCount(payload, txPowerFirst, attempts, statusPolls, acked, GetLastConfirmedStatus);
    CycleTraceCount(payload, txPowerFirst, attempts, statusPolls, acked, Process);
  }

  lemma CycleTraceCount(payload: string, txPowerFirst: bool, attempts: nat, statusPolls: nat, acked: bool, x: Call)
    ensures Count(CycleCalls(payload, txPowerFirst, attempts, statusPolls, acked), x)
            == (if x == GetDatarate || x == GetTxPower then 1 else 0)
               + (if x == ResetConfirmedStatus then 1 else 0)
               + attempts * ((if x == Process then 1 else 0) + (if x == SendConfirmed(payload, UplinkPort) then 1 else 0))
               + statusPolls * ((if x == Process then 1 else 0) + (if x == GetLastConfirmedStatus then 1 else 0))
               + (if acked && x == Process then SettlePolls else 0)
  {
    var queries := ParameterQueries(txPowerFirst);
    var a := queries + [ResetConfirmedStatus];
    var b := Repeat([Process, SendConfirmed(payload, UplinkPort)], attempts);
    var c := Repeat([Process, GetLastConfirmedStatus], statusPolls);
    var d: seq<Call> := if acked then Repeat([Process], SettlePolls) else [];
    CountFour(a, b, c, d, x);
    CountSnoc(queries, ResetConfirmedStatus, x);
    if txPowerFirst {
      CountPair(GetTxPower, GetDatarate, x);
    } else {
      CountPair(GetDatarate, GetTxPower, x);
    }
    CountRepeatPair(Process, SendConfirmed(payload, UplinkPort), attempts, x);
    CountRepeatPair(Process, GetLastConfirmedStatus, statusPolls, x);
    CountRepeatSingle(Process, SettlePolls, x);
  }

  // ------------------------------------------------------------ link check

  /** The answers of `lorawan_request_link_check` and `lorawan_get_link_check_result`. */
  datatype LinkCheckEnv = LinkCheckEnv(requestResult: i32, resultCode: i32, margin: u8, gateways: u8)

  datatype LinkResult = RequestFailed | NoResponse | Quality(margin: u8, gateways: u8)

  datatype LinkCheckReport = LinkCheckReport(result: LinkResult, calls: seq<Call>)

  /**
   * One fired link check (lines 199-218): a refused request (any non-zero) is
   * reported as failed and nothing more happens; an accepted one is followed by
   * 30 process polls and one result query, whose answer is reported only when
   * the query returns 0.
   */
  ghost predicate LinkCheckSpec(env: LinkCheckEnv, r: LinkCheckReport)
  {
    && (r.result.RequestFailed? <==> env.requestResult != 0)
    && (r.result.Quality? <==> env.requestResult == 0 && env.resultCode == 0)
    && (r.result.Quality? ==> r.result == Quality(env.margin, env.gateways))
    && r.calls == [RequestLinkCheck]
                  + (if env.requestResult == 0
                     then Repeat([Process], LinkCheckPolls) + [GetLinkCheckResult]
                     else [])
  }

  method LinkCheck(env: LinkCheckEnv) returns (r: LinkCheckReport)
    ensures LinkCheckSpec(env, r)
  {
    var calls := [RequestLinkCheck];
    var result;
    if env.requestResult == 0 {
      var waitCalls := ProcessFor(LinkCheckPolls);
      calls := calls + waitCalls + [GetLinkCheckResult];
      if env.resultCode == 0 {
        result := Quality(env.margin, env.gateways);
      } else {
        result := NoResponse;
      }
    } else {
      result := RequestFailed;
    }
    r := LinkCheckReport(result, calls);
  }

  // ------------------------------------------------------------- main loop

  /** What the environment supplies to one pass of `while (1)`: the clock reading `now` and the library's answers. */
  datatype StepEnv = StepEnv(now: u32, cycle: CycleEnv, linkCheck: LinkCheckEnv, received: Received)
  {
    ghost predicate Valid()
    {
      cycle.Valid() && received.FitsIn(ReceiveBufferSize)
    }
  }

  datatype StepReport = StepReport(cycle: Option<CycleReport>, linkCheck: Option<LinkCheckReport>,
                                   downlink: Option<Downlink>)

  /** The loop state of `main` after the join: the two interval timers, the counter and the global receive variables. */
  class AdvancedNode {
    var lastMessageTime: u32
    var lastLinkCheckTime: u32
    var messageCounter: u32
    var receiveLength: i32
    var receivePort: u8
    const receiveBuffer: array<u8>
    /** Every library call made since the loop started, in order. */
    var calls: seq<Call>
    /** How many send cycles have fired; the C counter holds this modulo 2^32. */
    ghost var fired: nat

    ghost predicate Valid()
      reads this
    {
      && receiveBuffer.Length == ReceiveBufferSize
      && messageCounter == Wrap(fired)
    }

    /** The state on entry to the loop (lines 46-48 and 107-109). */
    constructor ()
      ensures Valid() && fresh(receiveBuffer)
      ensures lastMessageTime == 0 && lastLinkCheckTime == 0 && messageCounter == 0
      ensures receiveLength == 0 && receivePort == 0 && calls == [] && fired == 0
      ensures forall i :: 0 <= i < receiveBuffer.Length ==> receiveBuffer[i] == 0
    {
      lastMessageTime, lastLinkCheckTime, messageCounter, fired := 0, 0, 0, 0;
      receiveLength, receivePort := 0, 0;
      receiveBuffer := new u8[ReceiveBufferSize](_ => 0);
      calls := [];
    }

    /** The send gate and, when it opens, one cycle (lines 116-195). */
    method SendIfDue(now: u32, env: CycleEnv, ghost before: nat) returns (cycle: Option<CycleReport>)
      requires Valid() && env.Valid() && before == fired
      modifies this`lastMessageTime, this`messageCounter, this`fired, this`calls
      ensures Valid()
      ensures cycle.Some? <==> IntervalGate(now, old(lastMessageTime), SendPeriodMs)
      ensures messageCounter == if cycle.Some? then Inc(old(messageCounter)) else old(messageCounter)
      ensures fired == if cycle.Some? then old(fired) + 1 else old(fired)
      ensures cycle.Some? ==> CycleSpec(Wrap(before + 1), env, cycle.value)
      ensures lastMessageTime == if cycle.Some? then now else old(lastMessageTime)
      ensures calls == old(calls) + if cycle.Some? then cycle.value.calls else []
    {
      cycle := None;
      if IntervalGate(now, lastMessageTime, SendPeriodMs) {
        var counter := Inc(messageCounter);
        IncWrap(fired);
        assert counter == Wrap(before + 1);
        var c := SendCycle(counter, env);
        messageCounter, fired, lastMessageTime, calls := counter, fired + 1, now, calls + c.calls;
        cycle := Some(c);
      }
    }

    /** The link-check gate and, when it opens, one link check (lines 198-221). */
    method LinkCheckIfDue(now: u32, env: LinkCheckEnv) returns (linkCheck: Option<LinkCheckReport>)
      modifies this`lastLinkCheckTime, this`calls
      ensures linkCheck.Some? <==> IntervalGate(now, old(lastLinkCheckTime), LinkCheckPeriodMs)
      ensures linkCheck.Some? ==> LinkCheckSpec(env, linkCheck.value)
      ensures lastLinkCheckTime == if linkCheck.Some? then now else old(lastLinkCheckTime)
      ensures calls == old(calls) + if linkCheck.Some? then linkCheck.value.calls else []
    {
      linkCheck := None;
      if IntervalGate(now, lastLinkCheckTime, LinkCheckPeriodMs) {
        var l := LinkCheck(env);
        calls := calls + l.calls;
        linkCheck := Some(l);
        lastLinkCheckTime := now;
      }
    }

    /** The downlink poll into the global receive variables (lines 224-232). */
    method PollDownlink(rx: Received) returns (downlink: Option<Downlink>)
      requires Valid() && rx.FitsIn(ReceiveBufferSize)
      modifies this`receiveLength, this`receivePort, this`calls, receiveBuffer
      ensures receiveLength == rx.length && receivePort == rx.port
      ensures receiveBuffer[..|rx.payload|] == rx.payload
      ensures receiveBuffer[|rx.payload|..] == old(receiveBuffer[|rx.payload|..])
      ensures downlink == if rx.length > -1 then Some(Downlink(rx.port, rx.payload)) else None
      ensures calls == old(calls) + [Receive]
    {
      downlink := Drain(receiveBuffer, rx);
      receiveLength, receivePort := rx.length, rx.port;
      calls := calls + [Receive];
    }

    /**
     * One pass of the `while (1)` loop (lines 112-235). Both gates compare
     * against the same `now`, read once at the top of the pass; what the pass
     * reports is PassSpec of the timers and the cycles fired before it.
     */
    method Step(env: StepEnv) returns (r: StepReport)
      requires Valid() && env.Valid()
      modifies this, receiveBuffer
      ensures Valid()
      ensures PassSpec(env, old(lastMessageTime), old(lastLinkCheckTime), old(fired), r)
      ensures messageCounter == if r.cycle.Some? then Inc(old(messageCounter)) else old(messageCounter)
      ensures fired == if r.cycle.Some? then old(fired) + 1 else old(fired)
      ensures lastMessageTime == if r.cycle.Some? then env.now else old(lastMessageTime)
      ensures lastLinkCheckTime == if r.linkCheck.Some? then env.now else old(lastLinkCheckTime)
      ensures receiveLength == env.received.length && receivePort == env.received.port
      ensures receiveBuffer[..|env.received.payload|] == env.received.payload
      ensures receiveBuffer[|env.received.payload|..] == old(receiveBuffer[|env.received.payload|..])
      ensures calls == old(calls) + [Process]
                       + (if r.cycle.Some? then r.cycle.value.calls else [])
                       + (if r.linkCheck.Some? then r.linkCheck.value.calls else [])
                       + [Receive]
    {
      ghost var lastSend, lastCheck, before := lastMessageTime, lastLinkCheckTime, fired;
      calls := calls + [Process];
      var cycle := SendIfDue(env.now, env.cycle, before);
      var linkCheck := LinkCheckIfDue(env.now, env.linkCheck);
      var downlink := PollDownlink(env.received);
      r := StepReport(cycle, linkCheck, downlink);
    }
  }

  /**
   * What one pass of the loop reports, given the two timers and the number of
   * cycles fired before it (lines 112-235): a cycle fires exactly when the send
   * gate opens and then carries the next counter value, a link check fires
   * exactly when its own gate opens, and a downlink is reported exactly when the
   * receive result is above -1.
   */
  ghost predicate PassSpec(env: StepEnv, lastSend: u32, lastCheck: u32, fired: nat, r: StepReport)
  {
    && (r.cycle.Some? <==> IntervalGate(env.now, lastSend, SendPeriodMs))
    && (r.cycle.Some? ==> CycleSpec(Wrap(fired + 1), env.cycle, r.cycle.value))
    && (r.linkCheck.Some? <==> IntervalGate(env.now, lastCheck, LinkCheckPeriodMs))
    && (r.linkCheck.Some? ==> LinkCheckSpec(env.linkCheck, r.linkCheck.value))
    && r.downlink == (if env.received.length > -1
                      then Some(Downlink(env.received.port, env.received.payload)) else None)
  }

  /** How many passes of `reports` fired a send cycle. */
  function FiredCycles(reports: seq<StepReport>): nat
  {
    if reports == [] then 0
    else FiredCycles(reports[..|reports| - 1]) + (if reports[|reports| - 1].cycle.Some? then 1 else 0)
  }

  /** `last_message_time` after the passes of `reports`: the clock reading of the last pass that fired a cycle, or 0. */
  ghost function LastSendTime(steps: seq<StepEnv>, reports: seq<StepReport>): u32
    requires |reports| <= |steps|
  {
    if reports == [] then 0
    else if reports[|reports| - 1].cycle.Some? then steps[|reports| - 1].now
    else LastSendTime(steps, reports[..|reports| - 1])
  }

  /** `last_link_check_time` after the passes of `reports`: the clock reading of the last pass that checked, or 0. */
  ghost function LastCheckTime(steps: seq<StepEnv>, reports: seq<StepReport>): u32
    requires |reports| <= |steps|
  {
    if reports == [] then 0
    else if reports[|reports| - 1].linkCheck.Some? then steps[|reports| - 1].now
    else LastCheckTime(steps, reports[..|reports| - 1])
  }

  /** Pass by pass, each report of `reports` is PassSpec of the state the passes before it left. */
  ghost predicate Passes(steps: seq<StepEnv>, reports: seq<StepReport>)
  {
    && |reports| <= |steps|
    && (reports == [] ||
        var prev := reports[..|reports| - 1];
        && Passes(steps, prev)
        && PassSpec(steps[|prev|], LastSendTime(steps, prev), LastCheckTime(steps, prev),
                    FiredCycles(prev), reports[|prev|]))
  }

  /** One more pass that meets PassSpec extends the run, and moves the counts and timers as the program does. */
  lemma {:induction false} PassesExtend(steps: seq<StepEnv>, prev: seq<StepReport>, r: StepReport)
    requires Passes(steps, prev) && |prev| < |steps|
    requires PassSpec(steps[|prev|], LastSendTime(steps, prev), LastCheckTime(steps, prev), FiredCycles(prev), r)
    ensures Passes(steps, prev + [r])
    ensures FiredCycles(prev + [r]) == FiredCycles(prev) + if r.cycle.Some? then 1 else 0
    ensures LastSendTime(steps, prev + [r]) == if r.cycle.Some? then steps[|prev|].now else LastSendTime(steps, prev)
    ensures LastCheckTime(steps, prev + [r]) == if r.linkCheck.Some? then steps[|prev|].now else LastCheckTime(steps, prev)
  {
    var next := prev + [r];
    assert next[..|next| - 1] == prev;
  }

  /** Pass `i` of a run did what PassSpec says, given the passes before it. */
  lemma {:induction false} PassesAt(steps: seq<StepEnv>, reports: seq<StepReport>, i: nat)
    requires Passes(steps, reports) && i < |reports|
    ensures i < |steps|
    ensures PassSpec(steps[i], LastSendTime(steps, reports[..i]), LastCheckTime(steps, reports[..i]),
                     FiredCycles(reports[..i]), reports[i])
  {
    var prev := reports[..|reports| - 1];
    if i < |prev| {
      assert prev[..i] == reports[..i];
      PassesAt(steps, prev, i);
    }
  }

  /**
   * Every pass of a run did what PassSpec says, given the passes before it: so
   * the k-th cycle to fire (counting from 1) sent "Hello #k ..." with k modulo
   * 2^32, and no cycle fires while every clock reading is within the first
   * period after boot.
   */
  ghost predicate EachPass(steps: seq<StepEnv>, reports: seq<StepReport>)
    requires |reports| <= |steps|
  {
    && (forall i :: 0 <= i < |reports| ==>
          PassSpec(steps[i], LastSendTime(steps, reports[..i]), LastCheckTime(steps, reports[..i]),
                   FiredCycles(reports[..i]), reports[i]))
    && ((forall i :: 0 <= i < |reports| ==> steps[i].now <= SendPeriodMs)
        ==> forall i :: 0 <= i < |reports| ==> reports[i].cycle.None?)
  }

  lemma PassesEach(steps: seq<StepEnv>, reports: seq<StepReport>)
    requires Passes(steps, reports)
    ensures EachPass(steps, reports)
  {
    if forall i :: 0 <= i < |reports| ==> steps[i].now <= SendPeriodMs {
      QuietFirstPeriod(steps, reports);
    }
    forall i | 0 <= i < |reports|
      ensures PassSpec(steps[i], LastSendTime(steps, reports[..i]), LastCheckTime(steps, reports[..i]),
                       FiredCycles(reports[..i]), reports[i])
    {
      PassesAt(steps, reports, i);
    }
  }

  /**
   * No cycle fires while the clock has not passed 120 s since boot: until then
   * `last_message_time` keeps its initial 0, and the gate stays shut.
   */
  lemma {:induction false} QuietFirstPeriod(steps: seq<StepEnv>, reports: seq<StepReport>)
    requires Passes(steps, reports)
    requires forall i :: 0 <= i < |reports| ==> steps[i].now <= SendPeriodMs
    ensures forall i :: 0 <= i < |reports| ==> reports[i].cycle.None?
    ensures LastSendTime(steps, reports) == 0
  {
    if reports != [] {
      var prev := reports[..|reports| - 1];
      QuietFirstPeriod(steps, prev);
      GateClosedAfterBoot(steps[|prev|].now as nat, SendPeriodMs);
      assert forall i :: 0 <= i < |prev| ==> reports[i] == prev[i];
    }
  }

  /**
   * The `while (1)` loop after the join, over a finite prefix: one pass per
   * element of `steps`, starting from the state the globals are initialised to.
   */
  method MainLoop(steps: seq<StepEnv>) returns (reports: seq<StepReport>)
    requires forall i :: 0 <= i < |steps| ==> steps[i].Valid()
    ensures |reports| == |steps| && Passes(steps, reports)
    ensures EachPass(steps, reports)
  {
    reports := [];
    var node := new AdvancedNode();
    var k := 0;
    while k < |steps|
      invariant 0 <= k <= |steps| && |reports| == k
      invariant node.Valid()
      invariant node.fired == FiredCycles(reports)
      invariant node.lastMessageTime == LastSendTime(steps, reports)
      invariant node.lastLinkCheckTime == LastCheckTime(steps, reports)
      invariant Passes(steps, reports)
    {
      var r := node.Step(steps[k]);
      PassesExtend(steps, reports, r);
      reports := reports + [r];
      k := k + 1;
    }
    PassesEach(steps, reports);
  }

  /**
   * `main` over a finite prefix of the loop: start-up, then the main loop.
   * A halted start-up makes no pass, and the loop is entered only after the
   * join wait saw the device joined.
   */
  method Run(boot: BootEnv, steps: seq<StepEnv>) returns (s: Startup, reports: seq<StepReport>)
    requires boot.Valid()
    requires forall i :: 0 <= i < |steps| ==> steps[i].Valid()
    ensures s.Halted? <==> boot.initResult < 0
    ensures s.Halted? ==> reports == []
    ensures s.Joined? ==> |reports| == |steps| && s.joinPolls < |boot.joined| && boot.joined[s.joinPolls]
    ensures Passes(steps, reports)
    ensures EachPass(steps, reports)
  {
    var bootCalls;
    s, bootCalls := Boot(boot);
    reports := [];
    if s.Halted? {
      return;
    }
    reports := MainLoop(steps);
  }
}
