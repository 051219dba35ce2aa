/**
 * The surface of the `pico/lorawan.h` library, and the RTOS delay, as the
 * example programs use it. The library's bodies are not part of this model:
 * every answer it gives is an input supplied by the caller, and what the
 * examples do is observed as the trace of calls they make, in order.
 *
 * The helpers here are the loops that several examples share: the join wait,
 * the clock-bounded wait for the confirmation flag, the `lorawan_process`
 * polling loops and the downlink poll with its hex dump.
 */
module Library {
  import opened CTypes

  datatype Option<T> = None | Some(value: T)

  /** One call an example makes into the library or the RTOS. */
  datatype Call =
    | Debug(on: bool)                     // lorawan_debug
    | InitOtaa                            // lorawan_init_otaa
    | SetConfirmedRetryCount(count: int)  // lorawan_set_confirmed_retry_count
    | SetAdrEnabled(enabled: bool)        // lorawan_set_adr_enabled
    | SetDatarate(datarate: int)          // lorawan_set_datarate
    | SetTxPower(power: int)              // lorawan_set_tx_power
    | Join                                // lorawan_join
    | IsJoined                            // lorawan_is_joined
    | JoinBlocking(timeoutMs: int)        // lorawan_join_freertos
    | Process                             // lorawan_process
    | ResetConfirmedStatus                // lorawan_reset_confirmed_status
    | SendConfirmed(payload: string, port: int)                     // lorawan_send_confirmed
    | SendConfirmedWait(payload: string, port: int, timeoutMs: int) // lorawan_send_confirmed_wait
    | GetLastConfirmedStatus              // lorawan_get_last_confirmed_status
    | LastAckReceived                     // lorawan_last_ack_received
    | RequestLinkCheck                    // lorawan_request_link_check
    | GetLinkCheckResult                  // lorawan_get_link_check_result
    | GetDevAddr                          // lorawan_get_devaddr
    | GetAdrEnabled                       // lorawan_get_adr_enabled
    | GetDatarate                         // lorawan_get_datarate
    | GetTxPower                          // lorawan_get_tx_power
    | Receive                             // lorawan_receive
    | Delay(ms: int)                      // vTaskDelay

  /** `block` made `n` times in a row. */
  function Repeat(block: seq<Call>, n: nat): seq<Call>
  {
    if n == 0 then [] else Repeat(block, n - 1) + block
  }

  /** How many times the call `c` occurs in a trace. */
  function Count(calls: seq<Call>, c: Call): nat
  {
    if calls == [] then 0
    else Count(calls[..|calls| - 1], c) + (if calls[|calls| - 1] == c then 1 else 0)
  }

  lemma {:induction false} CountConcat(a: seq<Call>, b: seq<Call>, c: Call)
    ensures Count(a + b, c) == Count(a, c) + Count(b, c)
  {
    if b == [] {
      assert a + b == a;
    } else {
      assert (a + b)[..|a + b| - 1] == a + b[..|b| - 1];
      CountConcat(a, b[..|b| - 1], c);
    }
  }

  lemma {:induction false} CountRepeat(block: seq<Call>, n: nat, c: Call)
    ensures Count(Repeat(block, n), c) == n * Count(block, c)
  {
    if n > 0 {
      CountRepeat(block, n - 1, c);
      CountConcat(Repeat(block, n - 1), block, c);
      assert n * Count(block, c) == (n - 1) * Count(block, c) + Count(block, c);
    }
  }

  lemma CountSingle(a: Call, c: Call)
    ensures Count([a], c) == if a == c then 1 else 0
  {
    assert [a][..0] == [];
  }

  lemma CountPair(a: Call, b: Call, c: Call)
    ensures Count([a, b], c) == (if a == c then 1 else 0) + (if b == c then 1 else 0)
  {
    assert [a, b][..1] == [a];
    CountSingle(a, c);
  }

  /** Appending the call `c` adds one to its own count and nothing to the count of any other call. */
  lemma CountSnoc(calls: seq<Call>, c: Call, x: Call)
    ensures Count(calls + [c], x) == Count(calls, x) + if c == x then 1 else 0
  {
    assert (calls + [c])[..|calls|] == calls;
  }

  /** The count of `x` in `n` repetitions of a one- or two-call block. */
  lemma CountRepeatSingle(a: Call, n: nat, x: Call)
    ensures Count(Repeat([a], n), x) == if a == x then n else 0
  {
    CountSingle(a, x);
    CountRepeat([a], n, x);
  }

  lemma CountRepeatPair(a: Call, b: Call, n: nat, x: Call)
    ensures Count(Repeat([a, b], n), x) == n * ((if a == x then 1 else 0) + (if b == x then 1 else 0))
  {
    CountPair(a, b, x);
    CountRepeat([a, b], n, x);
  }

  /** Counting distributes over a trace made of four consecutive parts. */
  lemma CountFour(a: seq<Call>, b: seq<Call>, c: seq<Call>, d: seq<Call>, x: Call)
    ensures Count(a + b + c + d, x) == Count(a, x) + Count(b, x) + Count(c, x) + Count(d, x)
  {
    CountConcat(a, b, x);
    CountConcat(a + b, c, x);
    CountConcat(a + b + c, d, x);
  }

  /** A call that is not `c` adds nothing to the count of `c`. */
  lemma CountOther(calls: seq<Call>, c: Call)
    requires c !in calls
    ensures Count(calls, c) == 0
  {
    if calls != [] {
      assert calls[..|calls| - 1] + [calls[|calls| - 1]] == calls;
      CountOther(calls[..|calls| - 1], c);
    }
  }

  /**
   * The trace of a join request followed by polling until the stack reports
   * the device joined: it starts with the request and ends with the poll
   * that saw the device joined.
   */
  function JoinCalls(polls: nat): (calls: seq<Call>)
    ensures 2 <= |calls| && calls[0] == Join && calls[|calls| - 1] == IsJoined
  {
    [Join] + Repeat([IsJoined, Process], polls) + [IsJoined]
  }

  /** The join wait polls the status once per pass plus once more, and processes once per unjoined pass. */
  lemma JoinCallCounts(polls: nat)
    ensures Count(JoinCalls(polls), IsJoined) == polls + 1
    ensures Count(JoinCalls(polls), Process) == polls
  {
    var polling := Repeat([IsJoined, Process], polls);
    assert JoinCalls(polls) == [Join] + polling + [IsJoined];
    CountSnoc([Join] + polling, IsJoined, IsJoined);
    CountSnoc([Join] + polling, IsJoined, Process);
    CountConcat([Join], polling, IsJoined);
    CountConcat([Join], polling, Process);
    CountRepeatPair(IsJoined, Process, polls, IsJoined);
    CountRepeatPair(IsJoined, Process, polls, Process);
    CountSingle(Join, IsJoined);
    CountSingle(Join, Process);
  }

  /**
   * The polled join wait shared by the three polled examples: `joined[i]` is the
   * answer of the i-th `lorawan_is_joined()`. The wait ends at the first true answer.
   */
  method AwaitJoin(joined: seq<bool>) returns (polls: nat, calls: seq<Call>)
    requires exists i :: 0 <= i < |joined| && joined[i]
    ensures polls < |joined| && joined[polls]
    ensures forall i :: 0 <= i < polls ==> !joined[i]
    ensures calls == JoinCalls(polls)
  {
    ghost var w :| 0 <= w < |joined| && joined[w];
    polls, calls := 0, [Join];
    while !joined[polls]
      invariant polls <= w
      invariant forall i :: 0 <= i < polls ==> !joined[i]
      invariant calls == [Join] + Repeat([IsJoined, Process], polls)
      decreases w - polls
    {
      calls := calls + [IsJoined, Process];
      polls := polls + 1;
    }
    calls := calls + [IsJoined];
  }

  /** `n` iterations of a loop whose body only calls `lorawan_process()` and sleeps. */
  method ProcessFor(n: nat) returns (calls: seq<Call>)
    ensures calls == Repeat([Process], n)
  {
    calls := [];
    for i := 0 to n
      invariant calls == Repeat([Process], i)
    {
      calls := calls + [Process];
    }
  }

  /** One pass of a clock-bounded wait: the clock reading of its condition and the status its body saw. */
  datatype AckPoll = AckPoll(clock: u32, confirmed: bool)

  /** Some supplied clock reading shows that `timeout` ms have passed since `start`. */
  ghost predicate ClockExpires(start: u32, timeout: u32, polls: seq<AckPoll>)
  {
    exists i :: 0 <= i < |polls| && Sub(polls[i].clock, start) >= timeout
  }

  /**
   * What the clock-bounded wait for the confirmation flag does when it runs
   * `n` passes, each processing events and then querying the flag: every pass
   * began inside the timeout, and the wait stops at the first pass that sees
   * the flag (then `acked`), otherwise at the first clock reading that is
   * `timeout` ms or more after `start`.
   */
  ghost predicate ConfirmationWait(start: u32, timeout: u32, polls: seq<AckPoll>, acked: bool, n: nat)
  {
    && n <= |polls|
    && (forall i :: 0 <= i < n ==> Sub(polls[i].clock, start) < timeout)
    && (forall i :: 0 <= i < n - 1 ==> !polls[i].confirmed)
    && (acked <==> 0 < n && polls[n - 1].confirmed)
    && (!acked ==> n < |polls| && Sub(polls[n].clock, start) >= timeout)
  }

  method AwaitConfirmation(start: u32, timeout: u32, polls: seq<AckPoll>)
    returns (acked: bool, n: nat, calls: seq<Call>)
    requires ClockExpires(start, timeout, polls)
    ensures ConfirmationWait(start, timeout, polls, acked, n)
    ensures calls == Repeat([Process, GetLastConfirmedStatus], n)
  {
    ghost var w :| 0 <= w < |polls| && Sub(polls[w].clock, start) >= timeout;
    acked, n, calls := false, 0, [];
    while Sub(polls[n].clock, start) < timeout
      invariant n <= w
      invariant forall i :: 0 <= i < n ==> Sub(polls[i].clock, start) < timeout
      invariant forall i :: 0 <= i < n ==> !polls[i].confirmed
      invariant calls == Repeat([Process, GetLastConfirmedStatus], n)
      decreases w - n
    {
      calls := calls + [Process, GetLastConfirmedStatus];
      n := n + 1;
      if polls[n - 1].confirmed {
        acked := true;
        break;
      }
    }
  }

  /**
   * If the true time (in ms since boot) of each clock reading is strictly
   * increasing from `start` and the readings span more than `timeout` passes
   * within one wrap of the 32-bit clock, some reading shows the timeout: the
   * requirement of AwaitConfirmation is met by any clock that keeps running.
   */
  lemma {:induction false} RunningClockExpires(start: nat, times: seq<nat>, polls: seq<AckPoll>, timeout: u32)
    requires |polls| == |times| > timeout as int
    requires forall i :: 0 <= i < |times| ==> polls[i].clock == Wrap(times[i])
    requires 0 < |times| && start <= times[0]
    requires forall i :: 0 <= i < |times| - 1 ==> times[i] < times[i + 1]
    requires times[timeout] < start + Modulus
    ensures ClockExpires(Wrap(start), timeout, polls)
  {
    var k := timeout as int;
    var i := 0;
    while i < k
      invariant 0 <= i <= k
      invariant times[i] >= start + i
    {
      i := i + 1;
    }
    ElapsedAcrossWrap(start, times[k]);
    assert Sub(polls[k].clock, Wrap(start)) >= timeout;
  }

  /** What one `lorawan_receive(buffer, sizeof(buffer), &port)` returns and writes. */
  datatype Received = Received(length: i32, port: u8, payload: seq<u8>)
  {
    /** The library writes exactly the bytes it reports, none when it reports -1 or less, within the buffer. */
    predicate FitsIn(capacity: nat)
    {
      && |payload| <= capacity
      && (if length < 0 then payload == [] else |payload| == length as int)
    }
  }

  /** A downlink as the examples report it: its port and its bytes. */
  datatype Downlink = Downlink(port: u8, bytes: seq<u8>)

  const ReceiveBufferSize: nat := 242

  /** The hex dump of a received downlink: it visits exactly the first `length` bytes of the buffer, in order. */
  method Dump(buf: array<u8>, length: nat) returns (shown: seq<u8>)
    requires length <= buf.Length
    ensures |shown| == length
    ensures forall i :: 0 <= i < length ==> shown[i] == buf[i]
  {
    shown := [];
    for i := 0 to length
      invariant |shown| == i
      invariant forall j :: 0 <= j < i ==> shown[j] == buf[j]
    {
      shown := shown + [buf[i]];
    }
  }

  /** What `lorawan_receive` leaves in the caller's buffer: the payload at the front, the rest untouched. */
  method Fill(buf: array<u8>, rx: Received)
    requires rx.FitsIn(buf.Length)
    modifies buf
    ensures buf[..|rx.payload|] == rx.payload
    ensures buf[|rx.payload|..] == old(buf[|rx.payload|..])
  {
    forall i | 0 <= i < |rx.payload| {
      buf[i] := rx.payload[i];
    }
  }

  /**
   * The downlink poll: `lorawan_receive` fills the buffer, and a result above -1
   * is reported with exactly that many bytes; -1 (or any negative) is silent.
   */
  method Drain(buf: array<u8>, rx: Received) returns (report: Option<Downlink>)
    requires rx.FitsIn(buf.Length)
    modifies buf
    ensures buf[..|rx.payload|] == rx.payload
    ensures buf[|rx.payload|..] == old(buf[|rx.payload|..])
    ensures report == if rx.length > -1 then Some(Downlink(rx.port, rx.payload)) else None
  {
    Fill(buf, rx);
    if rx.length > -1 {
      var shown := Dump(buf, rx.length as nat);
      assert shown == buf[..rx.length];
      report := Some(Downlink(rx.port, shown));
    } else {
      report := None;
    }
  }
}
