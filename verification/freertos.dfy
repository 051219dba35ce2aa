/**
 * The application task of the FreeRTOS example (`prvAppTask` in
 * examples/freertos_otaa/main.c).
 *
 * After init, the task joins only when no session was restored, ending itself
 * on any failure. It then loops for ever: one blocking confirmed send per
 * iteration, the acknowledgement tally and its ratio, two downlink polls, a
 * diagnostics query and a fixed 60 s sleep. Unlike the polled examples there
 * is no interval gate: the pace is the sleep after each iteration.
 */
module FreeRtosExample {
  import opened CTypes
  import opened Format
  import opened Library

  const JoinTimeoutMs: int := 60000
  const PostJoinDelayMs: int := 15000
  const UplinkPort: int := 1
  const SendTimeoutMs: int := 90000
  const SendIntervalMs: int := 60000
  const MessageBufferSize: nat := 32

  // ---------------------------------------------------------------- start-up

  /** How the task got a session: it joined now, or a restored session let it skip the join. */
  datatype JoinPath = JoinedNow | SessionRestored

  /** How start-up ended: the task deleted itself, or it reached the send loop. */
  datatype Startup = InitFailed | JoinFailed | Ready(path: JoinPath)

  /** The answers of `lorawan_init_otaa`, `lorawan_is_joined` and `lorawan_join_freertos`. */
  datatype BootEnv = BootEnv(initResult: i32, alreadyJoined: bool, joinResult: i32)

  /**
   * The calls of start-up, in order, for a given outcome: debug output and init
   * always; the session query only after a successful init; the blocking join
   * only when no session was restored; the 15 s delay only after it succeeded.
   */
  function StartCalls(env: BootEnv): (calls: seq<Call>)
    ensures 2 <= |calls| <= 5 && calls[0] == Debug(true) && calls[1] == InitOtaa
    ensures IsJoined in calls <==> env.initResult >= 0
    ensures JoinBlocking(JoinTimeoutMs) in calls <==> env.initResult >= 0 && !env.alreadyJoined
    ensures Delay(PostJoinDelayMs) in calls <==> env.initResult >= 0 && !env.alreadyJoined && env.joinResult >= 0
  {
    [Debug(true), InitOtaa]
    + (if env.initResult < 0 then []
       else [IsJoined] + (if env.alreadyJoined then []
                          else [JoinBlocking(JoinTimeoutMs)] + (if env.joinResult < 0 then [] else [Delay(PostJoinDelayMs)])))
  }

  /**
   * Start-up (lines 96-128): a negative init result ends the task before any
   * join; the join is attempted only when no session is restored, and then a
   * negative result ends the task, while success is followed by a 15 s delay.
   */
  method Start(env: BootEnv) returns (s: Startup, calls: seq<Call>)
    ensures s == InitFailed <==> env.initResult < 0
    ensures s == JoinFailed <==> env.initResult >= 0 && !env.alreadyJoined && env.joinResult < 0
    ensures s == Ready(SessionRestored) <==> env.initResult >= 0 && env.alreadyJoined
    ensures s == Ready(JoinedNow) <==> env.initResult >= 0 && !env.alreadyJoined && env.joinResult >= 0
    ensures calls == StartCalls(env)
  {
    calls := [Debug(true), InitOtaa];
    if env.initResult < 0 {
      s := InitFailed;
      return;
    }
    calls := calls + [IsJoined];
    if !env.alreadyJoined {
      calls := calls + [JoinBlocking(JoinTimeoutMs)];
      if env.joinResult < 0 {
        s := JoinFailed;
        return;
      }
      calls := calls + [Delay(PostJoinDelayMs)];
      s := Ready(JoinedNow);
    } else {
      s := Ready(SessionRestored);
    }
  }

  // ------------------------------------------------------------ one iteration

  /** The payload of an iteration: "Confirmed" followed by the message count in decimal (line 136). */
  function Payload(count: u32): string
  {
    "Confirmed" + Decimal(count as nat)
  }

  /** The payload is at most 19 characters, so with its NUL it always fits the 32-byte buffer untruncated. */
  lemma PayloadFits(count: u32)
    ensures |Payload(count)| <= 19
    ensures |Payload(count)| + 1 <= MessageBufferSize
    ensures DecimalValue(Payload(count)[9..]) == count as nat
  {
    U32DecimalLength(count);
    assert Payload(count)[9..] == Decimal(count as nat);
    DecimalRoundTrip(count as nat);
  }

  /** The four branches on the result of `lorawan_send_confirmed_wait` (lines 162-172). */
  datatype SendResult = Acknowledged | NotAcknowledged | NoConfirmEvent | Rejected(code: int)

  function Classify(result: i32): (c: SendResult)
    ensures c.Acknowledged? <==> result == 0
    ensures c.NotAcknowledged? <==> result == -2
    ensures c.NoConfirmEvent? <==> result == -3
    ensures c.Rejected? <==> result != 0 && result != -2 && result != -3
    ensures c.Rejected? ==> c.code == result as int
  {
    if result == 0 then Acknowledged
    else if result == -2 then NotAcknowledged
    else if result == -3 then NoConfirmEvent
    else Rejected(result as int)
  }

  /** What the task reports after the poll right behind the send (lines 151-160). */
  datatype ImmediateReport = ImmediateDownlink(length: i32, port: u8) | AckOnly | NothingYet

  /** The DevAddr and ADR state, reported only when both queries answer 0 (lines 175-178). */
  datatype Diagnostics = Diagnostics(devAddr: u32, adrOn: bool)

  /**
   * The acknowledgement ratio in percent, guarded against zero attempts, as an
   * exact rational (the task computes it in single-precision floating point).
   */
  function AckRatio(acks: u32, attempts: u32): (r: real)
    ensures attempts == 0 ==> r == 0.0
    ensures attempts > 0 ==> r * attempts as real == 100.0 * acks as real
  {
    if attempts == 0 then 0.0 else (acks as real / attempts as real) * 100.0
  }

  /** A quotient of a non-negative real by a real at least as large lies within [0, 1]. */
  lemma QuotientWithinUnit(a: real, b: real)
    requires 0.0 <= a <= b && 0.0 < b
    ensures 0.0 <= a / b <= 1.0
  {
    var q := a / b;
    assert q * b == a;
  }

  /** Whenever the acknowledgements do not exceed the attempts, the ratio is a percentage. */
  lemma RatioBounds(acks: u32, attempts: u32)
    requires acks <= attempts
    ensures 0.0 <= AckRatio(acks, attempts) <= 100.0
    ensures acks == attempts && attempts > 0 ==> AckRatio(acks, attempts) == 100.0
  {
    if attempts > 0 {
      QuotientWithinUnit(acks as real, attempts as real);
    }
  }

  /** What the library answers during one iteration. */
  datatype IterEnv = IterEnv(
    sendResult: i32,          // lorawan_send_confirmed_wait
    ack: i32,                 // lorawan_last_ack_received (nonzero: acknowledged)
    immediate: Received,      // the lorawan_receive right after the send
    devAddrResult: i32,       // lorawan_get_devaddr
    devAddr: u32,
    adrResult: i32,           // lorawan_get_adr_enabled
    adrEnabled: i32,
    received: Received)       // the lorawan_receive before the sleep
  {
    ghost predicate Valid()
    {
      immediate.FitsIn(ReceiveBufferSize) && received.FitsIn(ReceiveBufferSize)
    }

    /** The iteration counts one more acknowledgement. */
    predicate Acked()
    {
      sendResult == 0 && ack != 0
    }
  }

  datatype IterReport = IterReport(
    payload: string,
    outcome: SendResult,
    immediate: ImmediateReport,
    diagnostics: Option<Diagnostics>,
    acks: u32,
    attempts: u32,
    downlink: Option<Downlink>)
  {
    /** The acknowledgement ratio the iteration prints, derived from the counters it reports (line 180). */
    function ShownRatio(): real
    {
      AckRatio(acks, attempts)
    }
  }

  /**
   * The calls of one iteration, in order: the blocking send, the ack query, the
   * immediate poll, the DevAddr query, the ADR query only when the DevAddr
   * query answered 0 (`&&` short-circuits), the second poll and the sleep.
   */
  function IterationCalls(payload: string, devAddrResult: i32): (calls: seq<Call>)
    ensures |calls| == if devAddrResult == 0 then 7 else 6
    ensures calls[0] == SendConfirmedWait(payload, UplinkPort, SendTimeoutMs)
    ensures calls[|calls| - 1] == Delay(SendIntervalMs)
    ensures GetAdrEnabled in calls <==> devAddrResult == 0
  {
    [SendConfirmedWait(payload, UplinkPort, SendTimeoutMs), LastAckReceived]
    + [Receive, GetDevAddr]
    + (if devAddrResult == 0 then [GetAdrEnabled] else [])
    + [Receive, Delay(SendIntervalMs)]
  }

  /** Every iteration sends its payload exactly once. */
  lemma {:induction false} IterationSendsOnce(payload: string, devAddrResult: i32)
    ensures Count(IterationCalls(payload, devAddrResult), SendConfirmedWait(payload, UplinkPort, SendTimeoutMs)) == 1
  {
    var send := SendConfirmedWait(payload, UplinkPort, SendTimeoutMs);
    var calls := IterationCalls(payload, devAddrResult);
    CountOther(calls[1..], send);
    assert calls == [send] + calls[1..];
    CountConcat([send], calls[1..], send);
    CountSingle(send, send);
  }

  /** Every iteration polls for a downlink exactly twice. */
  lemma {:induction false} IterationPollsTwice(payload: string, devAddrResult: i32)
    ensures Count(IterationCalls(payload, devAddrResult), Receive) == 2
  {
    var calls := IterationCalls(payload, devAddrResult);
    var n := |calls|;
    var front := calls[..2];
    var diagnostics := calls[3..n - 2];
    assert calls == front + [Receive] + diagnostics + [Receive, Delay(SendIntervalMs)];
    CountFour(front, [Receive], diagnostics, [Receive, Delay(SendIntervalMs)], Receive);
    CountOther(front, Receive);
    CountOther(diagnostics, Receive);
    CountSingle(Receive, Receive);
    CountPair(Receive, Delay(SendIntervalMs), Receive);
  }

  /** Every iteration ends with the 60 s sleep, its only one. */
  lemma {:induction false} IterationSleepsOnce(payload: string, devAddrResult: i32)
    ensures Count(IterationCalls(payload, devAddrResult), Delay(SendIntervalMs)) == 1
    ensures IterationCalls(payload, devAddrResult)[|IterationCalls(payload, devAddrResult)| - 1] == Delay(SendIntervalMs)
  {
    var calls := IterationCalls(payload, devAddrResult);
    var n := |calls|;
    assert calls == calls[..n - 1] + [Delay(SendIntervalMs)];
    CountOther(calls[..n - 1], Delay(SendIntervalMs));
    CountSnoc(calls[..n - 1], Delay(SendIntervalMs), Delay(SendIntervalMs));
  }

  /** With no more than 2^32 - 1 iterations, the counters have not wrapped and the tally stays below the attempts. */
  lemma TallyBounded(totalAcks: nat, totalAttempts: nat)
    requires totalAcks <= totalAttempts < Modulus
    ensures Wrap(totalAcks) <= Wrap(totalAttempts)
    ensures 0.0 <= AckRatio(Wrap(totalAcks), Wrap(totalAttempts)) <= 100.0
  {
    RatioBounds(Wrap(totalAcks), Wrap(totalAttempts));
  }

  /**
   * The poll right after the send (lines 149-160), into a fresh local buffer:
   * a waiting downlink is reported by length and port, otherwise an
   * acknowledgement is reported on its own.
   */
  method PollImmediate(rx: Received, ack: i32) returns (rep: ImmediateReport)
    requires rx.FitsIn(ReceiveBufferSize)
    ensures rx.length > -1 <==> rep.ImmediateDownlink?
    ensures rep.ImmediateDownlink? ==> rep.length == rx.length && rep.port == rx.port
    ensures rep == AckOnly <==> rx.length <= -1 && ack != 0
  {
    var buffer := new u8[ReceiveBufferSize];
    Fill(buffer, rx);
    if rx.length > -1 {
      rep := ImmediateDownlink(rx.length, rx.port);
    } else if ack != 0 {
      rep := AckOnly;
    } else {
      rep := NothingYet;
    }
  }

  /** The poll before the sleep (lines 186-196), into a fresh local buffer whose payload is dumped in hex. */
  method PollBeforeSleep(rx: Received) returns (downlink: Option<Downlink>)
    requires rx.FitsIn(ReceiveBufferSize)
    ensures downlink.Some? <==> rx.length > -1
    ensures downlink.Some? ==> downlink.value == Downlink(rx.port, rx.payload)
  {
    var buffer := new u8[ReceiveBufferSize];
    downlink := Drain(buffer, rx);
  }

  /**
   * What one iteration reports besides its counters (lines 144-196): the send
   * result classified, the immediate poll (a downlink by length and port,
   * otherwise an acknowledgement on its own), the diagnostics exactly when
   * both the DevAddr and the ADR query answered 0, and the downlink of the
   * poll before the sleep exactly when its length is above -1.
   */
  ghost predicate IterSpec(env: IterEnv, r: IterReport)
  {
    && r.outcome == Classify(env.sendResult)
    && (r.immediate.ImmediateDownlink? <==> env.immediate.length > -1)
    && (r.immediate.ImmediateDownlink? ==>
          r.immediate.length == env.immediate.length && r.immediate.port == env.immediate.port)
    && (r.immediate == AckOnly <==> env.immediate.length <= -1 && env.ack != 0)
    && (r.diagnostics.Some? <==> env.devAddrResult == 0 && env.adrResult == 0)
    && (r.diagnostics.Some? ==> r.diagnostics.value == Diagnostics(env.devAddr, env.adrEnabled != 0))
    && (r.downlink.Some? <==> env.received.length > -1)
    && (r.downlink.Some? ==> r.downlink.value == Downlink(env.received.port, env.received.payload))
  }

  /** The loop state of `prvAppTask`: the three counters, and the trace of calls. */
  class AppTask {
    var messageCount: u32
    var confirmedAttempts: u32
    var confirmedAcks: u32
    /** Every library and RTOS call made since the loop started, in order. */
    var calls: seq<Call>
    /** The iterations made, and how many of them counted an acknowledgement, without wrap-around. */
    ghost var iterations: nat
    ghost var acknowledged: nat

    /**
     * Both counters that move every iteration hold the iteration count modulo
     * 2^32, the tally holds the acknowledged count modulo 2^32, and no more
     * iterations were acknowledged than were made.
     */
    ghost predicate Valid()
      reads this
    {
      && messageCount == Wrap(iterations)
      && confirmedAttempts == Wrap(iterations)
      && confirmedAcks == Wrap(acknowledged)
      && acknowledged <= iterations
    }

    /** The state on entry to the loop (lines 131-133). */
    constructor ()
      ensures Valid()
      ensures messageCount == 0 && confirmedAttempts == 0 && confirmedAcks == 0
      ensures iterations == 0 && acknowledged == 0 && calls == []
    {
      messageCount, confirmedAttempts, confirmedAcks := 0, 0, 0;
      iterations, acknowledged := 0, 0;
      calls := [];
    }

    /**
     * The counter updates of one iteration: the message count (line 136) and
     * the attempt count (line 145) move on by one, and the acknowledgement
     * count too when the send was acknowledged (line 164), all wrapping at 2^32.
     */
    method Tally(acked: bool)
      requires Valid()
      modifies this`messageCount, this`confirmedAttempts, this`confirmedAcks, this`iterations, this`acknowledged
      ensures Valid()
      ensures messageCount == Inc(old(messageCount))
      ensures confirmedAttempts == Inc(old(confirmedAttempts))
      ensures confirmedAcks == if acked then Inc(old(confirmedAcks)) else old(confirmedAcks)
      ensures iterations == old(iterations) + 1
      ensures acknowledged == old(acknowledged) + if acked then 1 else 0
    {
      IncWrap(iterations);
      IncWrap(acknowledged);
      var acks := if acked then Inc(confirmedAcks) else confirmedAcks;
      messageCount, confirmedAttempts, confirmedAcks := Inc(messageCount), Inc(confirmedAttempts), acks;
      iterations, acknowledged := iterations + 1, acknowledged + if acked then 1 else 0;
    }

    /** One iteration of the `for (;;)` loop (lines 134-201). */
    method Iterate(env: IterEnv) returns (r: IterReport)
      requires Valid() && env.Valid()
      modifies this
      ensures Valid()
      ensures r.payload == Payload(old(messageCount))
      ensures messageCount == Inc(old(messageCount))
      ensures confirmedAttempts == Inc(old(confirmedAttempts))
      ensures confirmedAcks == if env.Acked() then Inc(old(confirmedAcks)) else old(confirmedAcks)
      ensures iterations == old(iterations) + 1
      ensures acknowledged == old(acknowledged) + if env.Acked() then 1 else 0
      ensures IterSpec(env, r)
      ensures r.acks == confirmedAcks && r.attempts == confirmedAttempts
      ensures r.payload == Payload(Wrap(old(iterations)))
      ensures r.attempts == Wrap(iterations) && r.acks == Wrap(acknowledged)
      ensures calls == old(calls) + IterationCalls(r.payload, env.devAddrResult)
    {
      var payload := Payload(messageCount);
      var outcome := Classify(env.sendResult);
      var immediate := PollImmediate(env.immediate, env.ack);
      var diagnostics := if env.devAddrResult == 0 && env.adrResult == 0
                         then Some(Diagnostics(env.devAddr, env.adrEnabled != 0)) else None;
      var downlink := PollBeforeSleep(env.received);
      calls := calls + IterationCalls(payload, env.devAddrResult);
      Tally(outcome.Acknowledged? && env.ack != 0);
      var acks, attempts := confirmedAcks, confirmedAttempts;
      r := IterReport(payload, outcome, immediate, diagnostics, acks, attempts, downlink);
    }
  }

  /** How many of `iters` count an acknowledgement. */
  function AckedCount(iters: seq<IterEnv>): nat
  {
    if iters == [] then 0
    else AckedCount(iters[..|iters| - 1]) + (if iters[|iters| - 1].Acked() then 1 else 0)
  }

  lemma {:induction false} AckedCountBounded(iters: seq<IterEnv>)
    ensures AckedCount(iters) <= |iters|
  {
    if iters != [] {
      AckedCountBounded(iters[..|iters| - 1]);
    }
  }

  /**
   * The report of the n-th iteration (counting from 1) shows the payload
   * "Confirmed<n-1>", n attempts and the acknowledgements among the first n
   * iterations, all modulo 2^32.
   */
  ghost predicate Tallied(iters: seq<IterEnv>, reports: seq<IterReport>)
  {
    reports == [] ||
    var n := |reports|;
    var last := reports[n - 1];
    && n <= |iters|
    && Tallied(iters, reports[..n - 1])
    && last.payload == Payload(Wrap(n - 1))
    && last.attempts == Wrap(n)
    && last.acks == Wrap(AckedCount(iters[..n]))
  }

  /** One more iteration, reported by the task's own counters, keeps the reports tallied. */
  lemma {:induction false} TalliedExtend(iters: seq<IterEnv>, reports: seq<IterReport>, r: IterReport, acknowledged: nat)
    requires Tallied(iters, reports) && |reports| < |iters|
    requires acknowledged == AckedCount(iters[..|reports|]) + if iters[|reports|].Acked() then 1 else 0
    requires r.payload == Payload(Wrap(|reports|))
    requires r.attempts == Wrap(|reports| + 1)
    requires r.acks == Wrap(acknowledged)
    ensures Tallied(iters, reports + [r])
    ensures acknowledged == AckedCount(iters[..|reports + [r]|])
  {
    AckedCountSnoc(iters, |reports|);
    var next := reports + [r];
    assert next[..|next| - 1] == reports;
  }

  lemma AckedCountSnoc(iters: seq<IterEnv>, k: nat)
    requires k < |iters|
    ensures AckedCount(iters[..k + 1]) == AckedCount(iters[..k]) + if iters[k].Acked() then 1 else 0
  {
    assert iters[..k + 1][..k] == iters[..k];
  }

  /** The tally in its indexed form: what the report of iteration `i` (from 0) shows. */
  lemma {:induction false} TalliedAt(iters: seq<IterEnv>, reports: seq<IterReport>, i: nat)
    requires Tallied(iters, reports) && i < |reports|
    ensures i < |iters|
    ensures reports[i].payload == Payload(Wrap(i))
    ensures reports[i].attempts == Wrap(i + 1)
    ensures reports[i].acks == Wrap(AckedCount(iters[..i + 1]))
  {
    var n := |reports|;
    if i < n - 1 {
      TalliedAt(iters, reports[..n - 1], i);
      assert reports[..n - 1][i] == reports[i];
    }
  }

  /** Hence, while fewer than 2^32 iterations have run, every report shows acks <= attempts and a ratio within [0, 100]. */
  lemma {:induction false} TalliedBounded(iters: seq<IterEnv>, reports: seq<IterReport>, i: nat)
    requires Tallied(iters, reports) && i < |reports| < Modulus
    ensures reports[i].acks <= reports[i].attempts
    ensures 0.0 <= reports[i].ShownRatio() <= 100.0
  {
    var n := |reports|;
    if i < n - 1 {
      TalliedBounded(iters, reports[..n - 1], i);
      assert reports[..n - 1][i] == reports[i];
    } else {
      AckedCountBounded(iters[..n]);
      TallyBounded(AckedCount(iters[..n]), n);
    }
  }

  /** Each report shows what its own iteration classified, polled and queried. */
  ghost predicate EachIter(iters: seq<IterEnv>, reports: seq<IterReport>)
    requires |reports| <= |iters|
  {
    forall i :: 0 <= i < |reports| ==> IterSpec(iters[i], reports[i])
  }

  /** A report that meets `IterSpec` for the next iteration keeps `EachIter`. */
  lemma EachIterExtend(iters: seq<IterEnv>, reports: seq<IterReport>, r: IterReport)
    requires |reports| < |iters| && EachIter(iters, reports)
    requires IterSpec(iters[|reports|], r)
    ensures EachIter(iters, reports + [r])
  {
  }

  /**
   * The `for (;;)` loop over a finite prefix: one iteration per element of
   * `iters`, starting from zeroed counters. Every report is tallied, and
   * shows what its own iteration classified, polled and queried.
   */
  method SendLoop(iters: seq<IterEnv>) returns (reports: seq<IterReport>)
    requires forall i :: 0 <= i < |iters| ==> iters[i].Valid()
    ensures |reports| == |iters|
    ensures Tallied(iters, reports)
    ensures EachIter(iters, reports)
  {
    reports := [];
    var task := new AppTask();
    var k := 0;
    while k < |iters|
      invariant 0 <= k <= |iters| && |reports| == k
      invariant task.Valid()
      invariant task.iterations == k && task.acknowledged == AckedCount(iters[..k])
      invariant Tallied(iters, reports)
      invariant EachIter(iters, reports)
    {
      var r := task.Iterate(iters[k]);
      TalliedExtend(iters, reports, r, task.acknowledged);
      EachIterExtend(iters, reports, r);
      reports := reports + [r];
      k := k + 1;
    }
  }

  /**
   * `prvAppTask` over a finite prefix of its loop: start-up, then the send
   * loop, entered only when start-up reached it.
   */
  method RunTask(boot: BootEnv, iters: seq<IterEnv>) returns (s: Startup, reports: seq<IterReport>)
    requires forall i :: 0 <= i < |iters| ==> iters[i].Valid()
    ensures !s.Ready? <==> boot.initResult < 0 || (!boot.alreadyJoined && boot.joinResult < 0)
    ensures !s.Ready? ==> reports == []
    ensures s.Ready? ==> |reports| == |iters|
    ensures Tallied(iters, reports)
    ensures s.Ready? ==> EachIter(iters, reports)
  {
    var startCalls;
    s, startCalls := Start(boot);
    reports := [];
    if !s.Ready? {
      return;
    }
    reports := SendLoop(iters);
  }
}
