/**
 * The polled "hello world" confirmed example (examples/hello_otaa_confirmed/main.c).
 *
 * Start-up asks for 3 confirmed retries (a refusal is only reported), then
 * initialises the stack, halting for ever on failure, and waits for the join.
 * The loop then sends the fixed confirmed uplink "hello world!" at most every
 * 5 s, once per fired cycle and without retrying, and polls for a downlink on
 * every pass.
 */
module ConfirmedExample {
  import opened CTypes
  import opened Library

  const SendPeriodMs: u32 := 5000
  const RetryCount: int := 3
  const UplinkPort: int := 2
  const Message: string := "hello world!"

  /** The one uplink call a fired cycle makes. */
  const SendCall: Call := SendConfirmed(Message, UplinkPort)

  // ---------------------------------------------------------------- start-up

  /** Whether the retry count was accepted (only reported), and how start-up ended. */
  datatype Startup = Halted(retryCountSet: bool) | Joined(retryCountSet: bool, joinPolls: nat)

  /** The answers of `lorawan_set_confirmed_retry_count`, `lorawan_init_otaa` and the successive `lorawan_is_joined` polls. */
  datatype BootEnv = BootEnv(retryCountResult: i32, initResult: i32, joined: seq<bool>)
  {
    /** Once init succeeded the network eventually reports the device joined. */
    ghost predicate Valid()
    {
      initResult >= 0 ==> exists i :: 0 <= i < |joined| && joined[i]
    }
  }

  /**
   * Start-up (lines 64-97): the retry count is set first and its result only
   * decides what is reported; a negative init result halts before any join;
   * otherwise the polled join.
   */
  method Boot(env: BootEnv) returns (s: Startup, calls: seq<Call>)
    requires env.Valid()
    ensures s.retryCountSet <==> env.retryCountResult >= 0
    ensures s.Halted? <==> env.initResult < 0
    ensures s.Halted? ==> calls == [SetConfirmedRetryCount(RetryCount), InitOtaa]
    ensures s.Joined? ==> s.joinPolls < |env.joined| && env.joined[s.joinPolls]
                          && forall i :: 0 <= i < s.joinPolls ==> !env.joined[i]
    ensures s.Joined? ==> calls == [SetConfirmedRetryCount(RetryCount), InitOtaa] + JoinCalls(s.joinPolls)
  {
    var retryCountSet := env.retryCountResult >= 0;
    calls := [SetConfirmedRetryCount(RetryCount), InitOtaa];
    if env.initResult < 0 {
      s := Halted(retryCountSet);
      return;
    }
    var polls, joinCalls := AwaitJoin(env.joined);
    calls := calls + joinCalls;
    s := Joined(retryCountSet, polls);
  }

  // ------------------------------------------------------------- main loop

  /** What the library answers during one pass: the clock, the send result and the receive poll. */
  datatype StepEnv = StepEnv(now: u32, sendResult: i32, received: Received)
  {
    ghost predicate Valid()
    {
      received.FitsIn(ReceiveBufferSize)
    }
  }

  /** How a fired send ended, as the example reports it. */
  datatype SendOutcome = SendAccepted | SendFailed

  datatype StepReport = StepReport(send: Option<SendOutcome>, downlink: Option<Downlink>)

  /** The loop state of `main` after the join: the send timer and the global receive variables. */
  class ConfirmedNode {
    var lastMessageTime: u32
    var receiveLength: i32
    var receivePort: u8
    const receiveBuffer: array<u8>
    /** Every library call made since the loop started, in order. */
    var calls: seq<Call>
    /** How many passes fired a send. */
    ghost var fired: nat

    /** The trace holds one send per fired pass. */
    ghost predicate Valid()
      reads this
    {
      && receiveBuffer.Length == ReceiveBufferSize
      && Count(calls, SendCall) == fired
    }

    /** The state on entry to the loop (lines 44-46 and 99). */
    constructor ()
      ensures Valid() && fresh(receiveBuffer)
      ensures lastMessageTime == 0 && fired == 0
      ensures receiveLength == 0 && receivePort == 0 && calls == []
      ensures forall i :: 0 <= i < receiveBuffer.Length ==> receiveBuffer[i] == 0
    {
      lastMessageTime, fired := 0, 0;
      receiveLength, receivePort := 0, 0;
      receiveBuffer := new u8[ReceiveBufferSize](_ => 0);
      calls := [];
    }

    /**
     * The send gate and, when it opens, exactly one send attempt (lines 108-122):
     * the timer moves to `now` whether the send was accepted or failed.
     */
    method SendIfDue(now: u32, sendResult: i32) returns (send: Option<SendOutcome>)
      requires Valid()
      modifies this`lastMessageTime, this`fired, this`calls
      ensures Valid()
      ensures send.Some? <==> IntervalGate(now, old(lastMessageTime), SendPeriodMs)
      ensures send.Some? ==> (send.value.SendAccepted? <==> sendResult >= 0)
      ensures fired == if send.Some? then old(fired) + 1 else old(fired)
      ensures lastMessageTime == if send.Some? then now else old(lastMessageTime)
      ensures calls == old(calls) + if send.Some? then [SendCall] else []
    {
      send := None;
      if IntervalGate(now, lastMessageTime, SendPeriodMs) {
        var outcome := if sendResult < 0 then SendFailed else SendAccepted;
        CountSnoc(calls, SendCall, SendCall);
        lastMessageTime, fired, calls := now, fired + 1, calls + [SendCall];
        send := Some(outcome);
      }
    }

    /** The downlink poll into the global receive variables (lines 125-133). */
    method PollDownlink(rx: Received) returns (downlink: Option<Downlink>)
      requires receiveBuffer.Length == ReceiveBufferSize && rx.FitsIn(ReceiveBufferSize)
      modifies this`receiveLength, this`receivePort, this`calls, receiveBuffer
      ensures receiveLength == rx.length && receivePort == rx.port
      ensures receiveBuffer[..|rx.payload|] == rx.payload
      ensures receiveBuffer[|rx.payload|..] == old(receiveBuffer[|rx.payload|..])
      ensures downlink == if rx.length > -1 then Some(Downlink(rx.port, rx.payload)) else None
      ensures calls == old(calls) + [Receive]
    {
      downlink := Drain(receiveBuffer, rx);
      receiveLength, receivePort, calls := rx.length, rx.port, calls + [Receive];
    }

    /**
     * One pass of the `while (1)` loop (lines 102-134): what the pass reports
     * is PassSpec of the send timer.
     */
    method Step(env: StepEnv) returns (r: StepReport)
      requires Valid() && env.Valid()
      modifies this, receiveBuffer
      ensures Valid()
      ensures PassSpec(env, old(lastMessageTime), r)
      ensures fired == if r.send.Some? then old(fired) + 1 else old(fired)
      ensures lastMessageTime == if r.send.Some? then env.now else old(lastMessageTime)
      ensures receiveLength == env.received.length && receivePort == env.received.port
      ensures receiveBuffer[..|env.received.payload|] == env.received.payload
      ensures receiveBuffer[|env.received.payload|..] == old(receiveBuffer[|env.received.payload|..])
      ensures calls == old(calls) + [Process] + (if r.send.Some? then [SendCall] else []) + [Receive]
    {
      CountSnoc(calls, Process, SendCall);
      calls := calls + [Process];
      var send := SendIfDue(env.now, env.sendResult);
      CountSnoc(calls, Receive, SendCall);
      var downlink := PollDownlink(env.received);
      r := StepReport(send, downlink);
    }
  }

  /**
   * What one pass of the loop reports, given the send timer (lines 102-134):
   * a send fires exactly when the gate opens, and is reported accepted exactly
   * when `lorawan_send_confirmed` returned a non-negative result; a downlink is
   * reported exactly when the receive result is above -1.
   */
  ghost predicate PassSpec(env: StepEnv, lastSend: u32, r: StepReport)
  {
    && (r.send.Some? <==> IntervalGate(env.now, lastSend, SendPeriodMs))
    && (r.send.Some? ==> (r.send.value.SendAccepted? <==> env.sendResult >= 0))
    && r.downlink == (if env.received.length > -1
                      then Some(Downlink(env.received.port, env.received.payload)) else None)
  }

  /** How many passes of `reports` fired a send. */
  function FiredSends(reports: seq<StepReport>): nat
  {
    if reports == [] then 0
    else FiredSends(reports[..|reports| - 1]) + (if reports[|reports| - 1].send.Some? then 1 else 0)
  }

  /** `last_message_time` after the passes of `reports`: the clock reading of the last pass that sent, or 0. */
  ghost function LastSendTime(steps: seq<StepEnv>, reports: seq<StepReport>): u32
    requires |reports| <= |steps|
  {
    if reports == [] then 0
    else if reports[|reports| - 1].send.Some? then steps[|reports| - 1].now
    else LastSendTime(steps, reports[..|reports| - 1])
  }

  /** Pass by pass, each report of `reports` is PassSpec of the timer the passes before it left. */
  ghost predicate Passes(steps: seq<StepEnv>, reports: seq<StepReport>)
  {
    && |reports| <= |steps|
    && (reports == [] ||
        var prev := reports[..|reports| - 1];
        && Passes(steps, prev)
        && PassSpec(steps[|prev|], LastSendTime(steps, prev), reports[|prev|]))
  }

  /** One more pass that meets PassSpec extends the run, and moves the count and the timer as the program does. */
  lemma {:induction false} PassesExtend(steps: seq<StepEnv>, prev: seq<StepReport>, r: StepReport)
    requires Passes(steps, prev) && |prev| < |steps|
    requires PassSpec(steps[|prev|], LastSendTime(steps, prev), r)
    ensures Passes(steps, prev + [r])
    ensures FiredSends(prev + [r]) == FiredSends(prev) + if r.send.Some? then 1 else 0
    ensures LastSendTime(steps, prev + [r]) == if r.send.Some? then steps[|prev|].now else LastSendTime(steps, prev)
  {
    var next := prev + [r];
    assert next[..|next| - 1] == prev;
  }

  /** Pass `i` of a run did what PassSpec says, given the passes before it. */
  lemma {:induction false} PassesAt(steps: seq<StepEnv>, reports: seq<StepReport>, i: nat)
    requires Passes(steps, reports) && i < |reports|
    ensures i < |steps|
    ensures PassSpec(steps[i], LastSendTime(steps, reports[..i]), reports[i])
  {
    var prev := reports[..|reports| - 1];
    if i < |prev| {
      assert prev[..i] == reports[..i];
      PassesAt(steps, prev, i);
    }
  }

  /**
   * Every pass of a run did what PassSpec says, given the passes before it,
   * and no send fires while every clock reading is within the first period
   * after boot.
   */
  ghost predicate EachPass(steps: seq<StepEnv>, reports: seq<StepReport>)
    requires |reports| <= |steps|
  {
    && (forall i :: 0 <= i < |reports| ==> PassSpec(steps[i], LastSendTime(steps, reports[..i]), reports[i]))
    && ((forall i :: 0 <= i < |reports| ==> steps[i].now <= SendPeriodMs)
        ==> forall i :: 0 <= i < |reports| ==> reports[i].send.None?)
  }

  lemma PassesEach(steps: seq<StepEnv>, reports: seq<StepReport>)
    requires Passes(steps, reports)
    ensures EachPass(steps, reports)
  {
    if forall i :: 0 <= i < |reports| ==> steps[i].now <= SendPeriodMs {
      QuietFirstPeriod(steps, reports);
    }
    forall i | 0 <= i < |reports|
      ensures PassSpec(steps[i], LastSendTime(steps, reports[..i]), reports[i])
    {
      PassesAt(steps, reports, i);
    }
  }

  /**
   * No send fires while the clock has not passed 5 s since boot: until then
   * `last_message_time` keeps its initial 0, and the gate stays shut.
   */
  lemma {:induction false} QuietFirstPeriod(steps: seq<StepEnv>, reports: seq<StepReport>)
    requires Passes(steps, reports)
    requires forall i :: 0 <= i < |reports| ==> steps[i].now <= SendPeriodMs
    ensures forall i :: 0 <= i < |reports| ==> reports[i].send.None?
    ensures LastSendTime(steps, reports) == 0
  {
    if reports != [] {
      var prev := reports[..|reports| - 1];
      QuietFirstPeriod(steps, prev);
      GateClosedAfterBoot(steps[|prev|].now as nat, SendPeriodMs);
      assert forall i :: 0 <= i < |prev| ==> reports[i] == prev[i];
    }
  }

  /**
   * The `while (1)` loop after the join, over a finite prefix: one pass per
   * element of `steps`. The trace holds exactly one send call per fired
   * cycle: a send is never retried.
   */
  method MainLoop(steps: seq<StepEnv>) returns (reports: seq<StepReport>, calls: seq<Call>)
    requires forall i :: 0 <= i < |steps| ==> steps[i].Valid()
    ensures |reports| == |steps| && Passes(steps, reports)
    ensures EachPass(steps, reports)
    ensures Count(calls, SendCall) == FiredSends(reports)
  {
    reports := [];
    var node := new ConfirmedNode();
    var k := 0;
    while k < |steps|
      invariant 0 <= k <= |steps| && |reports| == k
      invariant node.Valid()
      invariant node.fired == FiredSends(reports)
      invariant node.lastMessageTime == LastSendTime(steps, reports)
      invariant Passes(steps, reports)
    {
      var r := node.Step(steps[k]);
      PassesExtend(steps, reports, r);
      reports := reports + [r];
      k := k + 1;
    }
    calls := node.calls;
    PassesEach(steps, reports);
  }

  /**
   * `main`: start-up, then the main loop. A halted start-up makes no pass and
   * sends nothing, whatever the retry-count result; the loop is entered only
   * after the join wait saw the device joined.
   */
  method Run(boot: BootEnv, steps: seq<StepEnv>) returns (s: Startup, reports: seq<StepReport>)
    requires boot.Valid()
    requires forall i :: 0 <= i < |steps| ==> steps[i].Valid()
    ensures s.Halted? <==> boot.initResult < 0
    ensures s.Halted? ==> reports == []
    ensures s.Joined? ==> |reports| == |steps| && s.joinPolls < |boot.joined| && boot.joined[s.joinPolls]
    ensures Passes(steps, reports)
    ensures EachPass(steps, reports)
  {
    var bootCalls;
    s, bootCalls := Boot(boot);
    reports := [];
    if s.Halted? {
      return;
    }
    var loopCalls;
    reports, loopCalls := MainLoop(steps);
  }
}
