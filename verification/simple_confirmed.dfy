/**
 * The polled "simple confirmed" example (examples/hello_otaa_simple_confirmed/main.c).
 *
 * After init and a polled join, every 60 s the loop sends one confirmed
 * uplink; when the send is accepted it waits up to 15 s for the confirmation
 * flag and then queries the flag once more to decide whether to report "no
 * acknowledgment". Every pass ends with a downlink poll.
 */
module SimpleConfirmedExample {
  import opened CTypes
  import opened Format
  import opened Library

  const SendPeriodMs: u32 := 60000
  const AckWaitMs: u32 := 15000
  const UplinkPort: int := 2
  const MessageBufferSize: nat := 64

  /** The cycle payload: "Hello confirmed #" followed by the counter in decimal (line 94). */
  function HelloPayload(counter: u32): string
  {
    "Hello confirmed #" + Decimal(counter as nat)
  }

  /** The payload and its terminating NUL always fit the 64-byte `message` buffer, and the counter reads back from it. */
  lemma HelloPayloadFits(counter: u32)
    ensures |HelloPayload(counter)| + 1 <= MessageBufferSize
    ensures HelloPayload(counter)[17..] == Decimal(counter as nat)
    ensures DecimalValue(HelloPayload(counter)[17..]) == counter as nat
  {
    U32DecimalLength(counter);
    DecimalRoundTrip(counter as nat);
  }

  // ---------------------------------------------------------------- start-up

  datatype Startup = Halted | Joined(joinPolls: nat)

  /** The answers of `lorawan_init_otaa` and of the successive `lorawan_is_joined` polls. */
  datatype BootEnv = BootEnv(initResult: i32, joined: seq<bool>)
  {
    ghost predicate Valid()
    {
      initResult >= 0 ==> exists i :: 0 <= i < |joined| && joined[i]
    }
  }

  /** Start-up (lines 63-79): a negative init result halts for ever; otherwise the polled join. */
  method Boot(env: BootEnv) returns (s: Startup, calls: seq<Call>)
    requires env.Valid()
    ensures s.Halted? <==> env.initResult < 0
    ensures s.Halted? ==> calls == [InitOtaa]
    ensures s.Joined? ==> s.joinPolls < |env.joined| && env.joined[s.joinPolls]
                          && forall i :: 0 <= i < s.joinPolls ==> !env.joined[i]
    ensures s.Joined? ==> calls == [InitOtaa] + JoinCalls(s.joinPolls)
  {
    calls := [InitOtaa];
    if env.initResult < 0 {
      s := Halted;
      return;
    }
    var polls, joinCalls := AwaitJoin(env.joined);
    calls := calls + joinCalls;
    s := Joined(polls);
  }

  // ------------------------------------------------------------ send cycle

  /** How a fired cycle ends, as the example reports it. */
  datatype Outcome = SendFailed | Acknowledged | NoAcknowledgment

  /**
   * What the library answers during one fired cycle: the send result, the
   * clock reading taken as `wait_start`, the passes of the wait loop, and the
   * answer of the status query that follows the loop.
   */
  datatype CycleEnv = CycleEnv(sendResult: i32, waitStart: u32, polls: seq<AckPoll>, requery: bool)
  {
    ghost predicate Valid()
    {
      ClockExpires(waitStart, AckWaitMs, polls)
    }
  }

  datatype CycleReport = CycleReport(counter: u32, payload: string, outcome: Outcome, sawFlag: bool,
                                     statusPolls: nat, calls: seq<Call>)

  /**
   * One fired cycle (lines 93-122): a failed send (negative) skips the wait
   * entirely; an accepted one runs the clock-bounded wait, and "no
   * acknowledgment" is reported exactly when the status queried after the
   * wait is false, whatever ended the wait.
   */
  ghost predicate CycleSpec(counter: u32, env: CycleEnv, r: CycleReport)
  {
    && r.counter == counter
    && r.payload == HelloPayload(counter)
    && (r.outcome.SendFailed? <==> env.sendResult < 0)
    && (r.outcome.NoAcknowledgment? <==> env.sendResult >= 0 && !env.requery)
    && (r.outcome.SendFailed? ==> r.statusPolls == 0 && !r.sawFlag)
    && (!r.outcome.SendFailed? ==> ConfirmationWait(env.waitStart, AckWaitMs, env.polls, r.sawFlag, r.statusPolls))
    && r.calls == [SendConfirmed(r.payload, UplinkPort)]
                  + (if r.outcome.SendFailed? then []
                     else Repeat([Process, GetLastConfirmedStatus], r.statusPolls) + [GetLastConfirmedStatus])
  }

  method SendCycle(counter: u32, env: CycleEnv) returns (r: CycleReport)
    requires env.Valid()
    ensures CycleSpec(counter, env, r)
  {
    var payload := HelloPayload(counter);
    var calls := [SendConfirmed(payload, UplinkPort)];
    if env.sendResult >= 0 {
      var sawFlag, n, waitCalls := AwaitConfirmation(env.waitStart, AckWaitMs, env.polls);
      calls := calls + waitCalls + [GetLastConfirmedStatus];
      var outcome := if env.requery then Acknowledged else NoAcknowledgment;
      r := CycleReport(counter, payload, outcome, sawFlag, n, calls);
    } else {
      r := CycleReport(counter, payload, SendFailed, false, 0, calls);
    }
  }

  /**
   * A failed send makes exactly one call (the send itself); an accepted one
   * makes one status query per wait pass plus the query after the wait.
   */
  lemma {:induction false} CycleQueries(counter: u32, env: CycleEnv, r: CycleReport)
    requires CycleSpec(counter, env, r)
    ensures Count(r.calls, SendConfirmed(r.payload, UplinkPort)) == 1
    ensures Count(r.calls, GetLastConfirmedStatus)
            == if r.outcome.SendFailed? then 0 else r.statusPolls + 1
  {
    var send := SendConfirmed(r.payload, UplinkPort);
    CountSingle(send, send);
    CountSingle(send, GetLastConfirmedStatus);
    if !r.outcome.SendFailed? {
      var w := Repeat([Process, GetLastConfirmedStatus], r.statusPolls);
      assert r.calls == [send] + w + [GetLastConfirmedStatus];
      CountConcat([send], w, send);
      CountConcat([send] + w, [GetLastConfirmedStatus], send);
      CountConcat([send], w, GetLastConfirmedStatus);
      CountConcat([send] + w, [GetLastConfirmedStatus], GetLastConfirmedStatus);
      CountRepeatPair(Process, GetLastConfirmedStatus, r.statusPolls, send);
      CountRepeatPair(Process, GetLastConfirmedStatus, r.statusPolls, GetLastConfirmedStatus);
      CountSingle(GetLastConfirmedStatus, send);
      CountSingle(GetLastConfirmedStatus, GetLastConfirmedStatus);
    }
  }

  // ------------------------------------------------------------- main loop

  datatype StepEnv = StepEnv(now: u32, cycle: CycleEnv, received: Received)
  {
    ghost predicate Valid()
    {
      cycle.Valid() && received.FitsIn(ReceiveBufferSize)
    }
  }

  datatype StepReport = StepReport(cycle: Option<CycleReport>, downlink: Option<Downlink>)

  /** The loop state of `main` after the join: the send timer, the counter and the global receive variables. */
  class SimpleConfirmedNode {
    var lastMessageTime: u32
    var messageCounter: u32
    var receiveLength: i32
    var receivePort: u8
    const receiveBuffer: array<u8>
    /** Every library call made since the loop started, in order. */
    var calls: seq<Call>
    /** How many send cycles have fired; the C counter holds this modulo 2^32. */
    ghost var fired: nat

    ghost predicate Valid()
      reads this
    {
      && receiveBuffer.Length == ReceiveBufferSize
      && messageCounter == Wrap(fired)
    }

    /** The state on entry to the loop (lines 43-45 and 81-82). */
    constructor ()
      ensures Valid() && fresh(receiveBuffer)
      ensures lastMessageTime == 0 && messageCounter == 0
      ensures receiveLength == 0 && receivePort == 0 && calls == [] && fired == 0
      ensures forall i :: 0 <= i < receiveBuffer.Length ==> receiveBuffer[i] == 0
    {
      lastMessageTime, messageCounter, fired := 0, 0, 0;
      receiveLength, receivePort := 0, 0;
      receiveBuffer := new u8[ReceiveBufferSize](_ => 0);
      calls := [];
    }

    /**
     * The send gate and, when it opens, one cycle (lines 89-125); `before` is
     * the number of cycles fired so far.
     */
    method SendIfDue(now: u32, env: CycleEnv, ghost before: nat) returns (cycle: Option<CycleReport>)
      requires Valid() && env.Valid() && before == fired
      modifies this`lastMessageTime, this`messageCounter, this`fired, this`calls
      ensures Valid()
      ensures cycle.Some? <==> IntervalGate(now, old(lastMessageTime), SendPeriodMs)
      ensures messageCounter == if cycle.Some? then Inc(old(messageCounter)) else old(messageCounter)
      ensures fired == if cycle.Some? then old(fired) + 1 else old(fired)
      ensures cycle.Some? ==> CycleSpec(Wrap(before + 1), env, cycle.value)
      ensures lastMessageTime == if cycle.Some? then now else old(lastMessageTime)
      ensures calls == old(calls) + if cycle.Some? then cycle.value.calls else []
    {
      cycle := None;
      if IntervalGate(now, lastMessageTime, SendPeriodMs) {
        var counter := Inc(messageCounter);
        IncWrap(fired);
        assert counter == Wrap(before + 1);
        var c := SendCycle(counter, env);
        messageCounter, fired, lastMessageTime, calls := counter, fired + 1, now, calls + c.calls;
        cycle := Some(c);
      }
    }

    /** The downlink poll into the global receive variables (lines 128-136). */
    method PollDownlink(rx: Received) returns (downlink: Option<Downlink>)
      requires Valid() && rx.FitsIn(ReceiveBufferSize)
      modifies this`receiveLength, this`receivePort, this`calls, receiveBuffer
      ensures receiveLength == rx.length && receivePort == rx.port
      ensures receiveBuffer[..|rx.payload|] == rx.payload
      ensures receiveBuffer[|rx.payload|..] == old(receiveBuffer[|rx.payload|..])
      ensures downlink == if rx.length > -1 then Some(Downlink(rx.port, rx.payload)) else None
      ensures calls == old(calls) + [Receive]
    {
      downlink := Drain(receiveBuffer, rx);
      receiveLength, receivePort := rx.length, rx.port;
      calls := calls + [Receive];
    }

    /**
     * One pass of the `while (1)` loop (lines 85-139): what the pass reports is
     * PassSpec of the send timer and the cycles fired before it.
     */
    method Step(env: StepEnv) returns (r: StepReport)
      requires Valid() && env.Valid()
      modifies this, receiveBuffer
      ensures Valid()
      ensures PassSpec(env, old(lastMessageTime), old(fired), r)
      ensures messageCounter == if r.cycle.Some? then Inc(old(messageCounter)) else old(messageCounter)
      ensures fired == if r.cycle.Some? then old(fired) + 1 else old(fired)
      ensures lastMessageTime == if r.cycle.Some? then env.now else old(lastMessageTime)
      ensures receiveLength == env.received.length && receivePort == env.received.port
      ensures receiveBuffer[..|env.received.payload|] == env.received.payload
      ensures receiveBuffer[|env.received.payload|..] == old(receiveBuffer[|env.received.payload|..])
      ensures calls == old(calls) + [Process]
                       + (if r.cycle.Some? then r.cycle.value.calls else [])
                       + [Receive]
    {
      ghost var before := fired;
      calls := calls + [Process];
      var cycle := SendIfDue(env.now, env.cycle, before);
      var downlink := PollDownlink(env.received);
      r := StepReport(cycle, downlink);
    }
  }

  /**
   * What one pass of the loop reports, given the send timer and the number of
   * cycles fired before it (lines 85-139): a cycle fires exactly when the send
   * gate opens and then carries the next counter value, and a downlink is
   * reported exactly when the receive result is above -1.
   */
  ghost predicate PassSpec(env: StepEnv, lastSend: u32, fired: nat, r: StepReport)
  {
    && (r.cycle.Some? <==> IntervalGate(env.now, lastSend, SendPeriodMs))
    && (r.cycle.Some? ==> CycleSpec(Wrap(fired + 1), env.cycle, r.cycle.value))
    && r.downlink == (if env.received.length > -1
                      then Some(Downlink(env.received.port, env.received.payload)) else None)
  }

  /** How many passes of `reports` fired a send cycle. */
  function FiredCycles(reports: seq<StepReport>): nat
  {
    if reports == [] then 0
    else FiredCycles(reports[..|reports| - 1]) + (if reports[|reports| - 1].cycle.Some? then 1 else 0)
  }

  /** `last_message_time` after the passes of `reports`: the clock reading of the last pass that fired a cycle, or 0. */
  ghost function LastSendTime(steps: seq<StepEnv>, reports: seq<StepReport>): u32
    requires |reports| <= |steps|
  {
    if reports == [] then 0
    else if reports[|reports| - 1].cycle.Some? then steps[|reports| - 1].now
    else LastSendTime(steps, reports[..|reports| - 1])
  }

  /** Pass by pass, each report of `reports` is PassSpec of the state the passes before it left. */
  ghost predicate Passes(steps: seq<StepEnv>, reports: seq<StepReport>)
  {
    && |reports| <= |steps|
    && (reports == [] ||
        var prev := reports[..|reports| - 1];
        && Passes(steps, prev)
        && PassSpec(steps[|prev|], LastSendTime(steps, prev), FiredCycles(prev), reports[|prev|]))
  }

  /** One more pass that meets PassSpec extends the run, and moves the count and the timer as the program does. */
  lemma {:induction false} PassesExtend(steps: seq<StepEnv>, prev: seq<StepReport>, r: StepReport)
    requires Passes(steps, prev) && |prev| < |steps|
    requires PassSpec(steps[|prev|], LastSendTime(steps, prev), FiredCycles(prev), r)
    ensures Passes(steps, prev + [r])
    ensures FiredCycles(prev + [r]) == FiredCycles(prev) + if r.cycle.Some? then 1 else 0
    ensures LastSendTime(steps, prev + [r]) == if r.cycle.Some? then steps[|prev|].now else LastSendTime(steps, prev)
  {
    var next := prev + [r];
    assert next[..|next| - 1] == prev;
  }

  /** Pass `i` of a run did what PassSpec says, given the passes before it. */
  lemma {:induction false} PassesAt(steps: seq<StepEnv>, reports: seq<StepReport>, i: nat)
    requires Passes(steps, reports) && i < |reports|
    ensures i < |steps|
    ensures PassSpec(steps[i], LastSendTime(steps, reports[..i]), FiredCycles(reports[..i]), reports[i])
  {
    var prev := reports[..|reports| - 1];
    if i < |prev| {
      assert prev[..i] == reports[..i];
      PassesAt(steps, prev, i);
    }
  }

  /**
   * Every pass of a run did what PassSpec says, given the passes before it: so
   * the k-th cycle to fire (counting from 1) sent "Hello confirmed #k" with k
   * modulo 2^32, and no cycle fires while every clock reading is within the
   * first period after boot.
   */
  ghost predicate EachPass(steps: seq<StepEnv>, reports: seq<StepReport>)
    requires |reports| <= |steps|
  {
    && (forall i :: 0 <= i < |reports| ==>
          PassSpec(steps[i], LastSendTime(steps, reports[..i]), FiredCycles(reports[..i]), reports[i]))
    && ((forall i :: 0 <= i < |reports| ==> steps[i].now <= SendPeriodMs)
        ==> forall i :: 0 <= i < |reports| ==> reports[i].cycle.None?)
  }

  lemma PassesEach(steps: seq<StepEnv>, reports: seq<StepReport>)
    requires Passes(steps, reports)
    ensures EachPass(steps, reports)
  {
    if forall i :: 0 <= i < |reports| ==> steps[i].now <= SendPeriodMs {
      QuietFirstPeriod(steps, reports);
    }
    forall i | 0 <= i < |reports|
      ensures PassSpec(steps[i], LastSendTime(steps, reports[..i]), FiredCycles(reports[..i]), reports[i])
    {
      PassesAt(steps, reports, i);
    }
  }

  /**
   * No cycle fires while the clock has not passed 60 s since boot: until then
   * `last_message_time` keeps its initial 0, and the gate stays shut.
   */
  lemma {:induction false} QuietFirstPeriod(steps: seq<StepEnv>, reports: seq<StepReport>)
    requires Passes(steps, reports)
    requires forall i :: 0 <= i < |reports| ==> steps[i].now <= SendPeriodMs
    ensures forall i :: 0 <= i < |reports| ==> reports[i].cycle.None?
    ensures LastSendTime(steps, reports) == 0
  {
    if reports != [] {
      var prev := reports[..|reports| - 1];
      QuietFirstPeriod(steps, prev);
      GateClosedAfterBoot(steps[|prev|].now as nat, SendPeriodMs);
      assert forall i :: 0 <= i < |prev| ==> reports[i] == prev[i];
    }
  }

  /**
   * The `while (1)` loop after the join, over a finite prefix: one pass per
   * element of `steps`, starting from the state the globals are initialised to.
   */
  method MainLoop(steps: seq<StepEnv>) returns (reports: seq<StepReport>)
    requires forall i :: 0 <= i < |steps| ==> steps[i].Valid()
    ensures |reports| == |steps| && Passes(steps, reports)
    ensures EachPass(steps, reports)
  {
    reports := [];
    var node := new SimpleConfirmedNode();
    var k := 0;
    while k < |steps|
      invariant 0 <= k <= |steps| && |reports| == k
      invariant node.Valid()
      invariant node.fired == FiredCycles(reports)
      invariant node.lastMessageTime == LastSendTime(steps, reports)
      invariant Passes(steps, reports)
    {
      var r := node.Step(steps[k]);
      PassesExtend(steps, reports, r);
      reports := reports + [r];
      k := k + 1;
    }
    PassesEach(steps, reports);
  }

  /**
   * `main` over a finite prefix of the loop: start-up, then the main loop.
   * A halted start-up makes no pass, and the loop is entered only after the
   * join wait saw the device joined.
   */
  method Run(boot: BootEnv, steps: seq<StepEnv>) returns (s: Startup, reports: seq<StepReport>)
    requires boot.Valid()
    requires forall i :: 0 <= i < |steps| ==> steps[i].Valid()
    ensures s.Halted? <==> boot.initResult < 0
    ensures s.Halted? ==> reports == []
    ensures s.Joined? ==> |reports| == |steps| && s.joinPolls < |boot.joined| && boot.joined[s.joinPolls]
    ensures Passes(steps, reports)
    ensures EachPass(steps, reports)
  {
    var bootCalls;
    s, bootCalls := Boot(boot);
    reports := [];
    if s.Halted? {
      return;
    }
    reports := MainLoop(steps);
  }
}
