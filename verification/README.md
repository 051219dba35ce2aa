# Confirmed-uplink policy loops of the LoRaWAN library for Pico examples

This project models the application logic of four example programs. Each one drives the `pico/lorawan.h` LoRaWAN stack on a Raspberry Pi Pico. The logic decides:

- when a send cycle fires (a 5 s, 60 s or 120 s interval gate on the wrapping `uint32_t` millisecond clock);
- how often a busy stack is retried (up to 200 attempts);
- how long the program waits for the confirmation flag (a clock-bounded wait of 15 s or 30 s);
- whether the stack is given 300 polls to settle after an acknowledgement;
- when a link check is requested (every 300 s);
- how the FreeRTOS task counts attempts and acknowledgements;
- when a received downlink is reported.

Every library call is an input. Join answers, send return codes, confirmation polls, clock readings, link-check answers and `lorawan_receive` results all come from the environment. What the programs do is recorded as a trace of library and RTOS calls (`Library.Call`).

Each example's loop state is a class. The `while (1)` or `for (;;)` loop is a method whose body runs one pass per supplied environment record. An infinite loop is therefore modelled by every finite prefix of it.

Modules:

- `CTypes` — the wrapping `uint32_t` arithmetic and the interval gate.
- `Format` — decimal and signed printing of counters and radio parameters.
- `Library` — the call trace, the polled join wait, the clock-bounded confirmation wait, the buffer fill and the hex dump.
- One module per example: `AdvancedExample`, `SimpleConfirmedExample`, `ConfirmedExample` and `FreeRtosExample`.

## Model

| member | source | states |
|---|---|---|
| CTypes.Sub | examples/hello_otaa_advanced/main.c:119 | `now - last` on `uint32_t` is the true difference, plus 2^32 when `last` is larger |
| CTypes.Inc | examples/hello_otaa_advanced/main.c:122 | incrementing a `uint32_t` counter adds one, except that 2^32 - 1 wraps to 0 |
| CTypes.Wrap | examples/hello_otaa_advanced/main.c:116 | a clock reading or counter value n is n modulo 2^32, and values below 2^32 are kept unchanged |
| CTypes.IncWrap | examples/hello_otaa_simple_confirmed/main.c:94 | a counter that holds n modulo 2^32 holds n + 1 modulo 2^32 after one increment |
| CTypes.ElapsedAcrossWrap | examples/hello_otaa_advanced/main.c:116-119 | the wrapping difference of two clock readings less than 2^32 ms apart is the real elapsed time, even across a clock rollover |
| CTypes.IntervalGate | examples/hello_otaa_advanced/main.c:119 | the send and link-check gate `(now - last) > period` on `uint32_t`; it never opens on the very clock reading it was last moved to |
| CTypes.GateMeasuresElapsed | examples/hello_otaa_simple_confirmed/main.c:92 | the gate opens exactly when more than `period` ms really elapsed since `last` |
| CTypes.GateClosedAfterBoot | examples/hello_otaa_advanced/main.c:107-119 | while `last` is still 0, the gate stays shut for the first `period` ms after boot |
| Format.Decimal | examples/hello_otaa_simple_confirmed/main.c:94 | an unsigned counter prints as at least one decimal digit, with no leading zero |
| Format.DecimalRoundTrip | examples/hello_otaa_simple_confirmed/main.c:94 | reading the printed digits back gives the counter: the decimal conversion loses nothing |
| Format.DecimalLength | examples/freertos_otaa/main.c:136 | a number below 10^k prints in at most k digits |
| Format.U32DecimalLength | examples/freertos_otaa/main.c:136 | every `uint32_t` prints in at most 10 digits |
| Format.Signed | examples/hello_otaa_advanced/main.c:121-124 | a C `int` prints with a leading minus sign exactly when it is negative |
| Format.SignedRoundTrip | examples/hello_otaa_advanced/main.c:121-124 | a negative C `int` prints as a minus sign followed by the digits of its magnitude, any other as its digits alone; reading the digits back gives the value |
| Format.I32SignedLength | examples/hello_otaa_advanced/main.c:121-124 | every C `int` prints in at most 11 characters |
| Library.AwaitJoin | examples/hello_otaa_simple_confirmed/main.c:74-79 | the join wait ends at the first poll that reports the device joined, and its trace is the join request plus one process call per earlier poll |
| Library.JoinCalls | examples/hello_otaa_simple_confirmed/main.c:74-79 | the join-wait trace starts with the join request and ends with the status poll that saw the device joined |
| Library.JoinCallCounts | examples/hello_otaa_simple_confirmed/main.c:74-79 | the join wait polls the status once per unjoined pass plus the final joined poll, and processes once per unjoined pass |
| Library.ProcessFor | examples/hello_otaa_advanced/main.c:179-187 | a process-and-sleep loop of n passes makes exactly n process calls |
| Library.AwaitConfirmation | examples/hello_otaa_advanced/main.c:157-170 | every pass of the wait began before the timeout; the wait stops at the first pass that sees the flag, otherwise at the first reading past the timeout; `acked` holds only if a pass saw the flag; each pass is one process call and one status query |
| Library.RunningClockExpires | examples/hello_otaa_simple_confirmed/main.c:103-104 | a strictly increasing clock that starts at `wait_start` and stays within one wrap always reaches the timeout, so the wait terminates |
| Library.Dump | examples/hello_otaa_simple_confirmed/main.c:132-134 | the hex dump visits exactly bytes 0 to length - 1 of the buffer, in order |
| Library.Fill | examples/freertos_otaa/main.c:149-151 | a receive writes the payload at the front of the caller's buffer and leaves the rest untouched |
| Library.Drain | examples/hello_otaa_confirmed/main.c:125-133 | a downlink is reported exactly when the receive result is above -1, with its port and exactly its bytes; the buffer holds the payload |
| AdvancedExample.HelloPayloadFits | examples/hello_otaa_advanced/main.c:120-124 | the payload `HelloPayload` formats with `sprintf` from the counter and the two radio parameters, plus its NUL, always fits the 64-byte message buffer |
| AdvancedExample.Boot | examples/hello_otaa_advanced/main.c:62-105 | a negative init result halts with no setter, join or send; setter results are only reported and never stop start-up; then the polled join ends at the first joined answer |
| AdvancedExample.RetrySend | examples/hello_otaa_advanced/main.c:130-151 | at most 200 attempts, stopping at the first accepted one; all earlier attempts were refused; ready exactly when the last attempt was accepted; giving up only after 200 refusals; one process call and one send per attempt |
| AdvancedExample.StackReadyIffAccepted | examples/hello_otaa_advanced/main.c:130-151 | the stack is ready exactly when one of the first 200 send codes is non-negative, and then the accepted attempt is the first such one |
| AdvancedExample.SendCycle | examples/hello_otaa_advanced/main.c:120-192 | one fired cycle: the payload carries the counter; the flag is reset before any attempt; the ack wait runs only after an accepted send; the 300-poll settle runs only after the flag was seen |
| AdvancedExample.CycleCalls | examples/hello_otaa_advanced/main.c:121-187 | every cycle's trace starts with the two parameter queries, in either order, followed by the confirmation-flag reset |
| AdvancedExample.CycleCallOrder | examples/hello_otaa_advanced/main.c:121-151 | both parameter queries and the reset come before every send attempt of a cycle |
| AdvancedExample.HelloPayloadReadBack | examples/hello_otaa_advanced/main.c:120-124 | the counter reads back from the payload: "Hello #", then exactly its decimal digits, whose value is the counter, then the space that begins " DR:" |
| AdvancedExample.CycleCallCounts | examples/hello_otaa_advanced/main.c:121-191 | a cycle queries the datarate and the TX power once each and resets the flag once; it makes exactly `attempts` sends (at most 200) and one status query per wait pass; 300 settle polls are made exactly when the cycle was acknowledged |
| AdvancedExample.CycleTraceCount | examples/hello_otaa_advanced/main.c:126-187 | how many times each call occurs in a cycle's trace, in terms of attempts, wait passes and the acknowledgement |
| AdvancedExample.LinkCheck | examples/hello_otaa_advanced/main.c:199-218 | a non-zero request result is reported as a failure and nothing follows; an accepted request is followed by 30 process polls and one result query; the link quality is reported only when that query returns 0 |
| AdvancedExample.AdvancedNode.constructor | examples/hello_otaa_advanced/main.c:46-48 | the timers, the counter, the receive length and port, and every byte of the 242-byte receive buffer start at 0 |
| AdvancedExample.AdvancedNode.SendIfDue | examples/hello_otaa_advanced/main.c:116-195 | a cycle fires exactly when the wrapping gate on 120000 ms opens; the counter is incremented once before the payload is built, and the cycle carries the next count; `last_message_time` becomes `now` whatever the outcome |
| AdvancedExample.AdvancedNode.LinkCheckIfDue | examples/hello_otaa_advanced/main.c:198-221 | a link check fires exactly when the wrapping gate on 300000 ms opens; `last_link_check_time` becomes `now` whether the request succeeded or not |
| AdvancedExample.AdvancedNode.PollDownlink | examples/hello_otaa_advanced/main.c:224-232 | the global receive length, port and buffer take what the receive returned; a downlink is reported exactly when the length is above -1 |
| AdvancedExample.AdvancedNode.Step | examples/hello_otaa_advanced/main.c:112-235 | one pass: a process call, then both gates against the same `now`, then the downlink poll; its report meets PassSpec of the two timers and the cycles fired before it, and the new timers, counter, receive globals and trace are stated in full |
| AdvancedExample.PassesAt | examples/hello_otaa_advanced/main.c:112-235 | pass i of a run did what PassSpec says, given the timers and fired-cycle count the passes before it left |
| AdvancedExample.QuietFirstPeriod | examples/hello_otaa_advanced/main.c:107-119 | while every clock reading is at most 120000 ms, no cycle fires and `last_message_time` keeps its initial 0 |
| AdvancedExample.MainLoop | examples/hello_otaa_advanced/main.c:107-235 | from the initial globals, pass i fires a cycle exactly when the 120000 ms gate opens against the `now` of the last pass that fired one (0 before any); that cycle meets CycleSpec with the counter (cycles fired before it + 1) modulo 2^32, so the k-th cycle sends "Hello #k"; a link check fires exactly when the 300000 ms gate opens against the `now` of the last check; a downlink is reported exactly when the length is above -1; no cycle fires in the first 120 s |
| AdvancedExample.Run | examples/hello_otaa_advanced/main.c:50-235 | a halted start-up makes no pass; otherwise the main loop runs after the join, and every pass is as MainLoop states |
| SimpleConfirmedExample.HelloPayloadFits | examples/hello_otaa_simple_confirmed/main.c:93-94 | the payload `HelloPayload` formats from the counter fits the 64-byte buffer, and the counter reads back from the digits after "Hello confirmed #" |
| SimpleConfirmedExample.Boot | examples/hello_otaa_simple_confirmed/main.c:63-79 | a negative init result halts with no join and no send; otherwise the loop is entered only once a poll reported the device joined |
| SimpleConfirmedExample.SendCycle | examples/hello_otaa_simple_confirmed/main.c:93-122 | a failed send skips the wait entirely; an accepted one runs the 15 s clock-bounded wait; "no acknowledgment" is reported exactly when the status re-queried after the wait is false |
| SimpleConfirmedExample.CycleQueries | examples/hello_otaa_simple_confirmed/main.c:99-118 | every cycle sends exactly once; a failed send queries no status; an accepted one queries once per wait pass plus once after the wait |
| SimpleConfirmedExample.SimpleConfirmedNode.constructor | examples/hello_otaa_simple_confirmed/main.c:43-45 | the timer, the counter, the receive length and port, and every byte of the receive buffer start at 0 |
| SimpleConfirmedExample.SimpleConfirmedNode.SendIfDue | examples/hello_otaa_simple_confirmed/main.c:89-125 | a cycle fires exactly when the wrapping gate on 60000 ms opens; the counter is incremented once per fired cycle, and the cycle carries the next count; `last_message_time` becomes `now` whether the send succeeded or failed |
| SimpleConfirmedExample.SimpleConfirmedNode.PollDownlink | examples/hello_otaa_simple_confirmed/main.c:128-136 | the global receive variables take what the receive returned; a downlink is reported exactly when the length is above -1 |
| SimpleConfirmedExample.SimpleConfirmedNode.Step | examples/hello_otaa_simple_confirmed/main.c:85-139 | one pass: a process call, the gated cycle and the downlink poll; its report meets PassSpec of the timer and the cycles fired before it, and the new state and trace are stated in full |
| SimpleConfirmedExample.PassesAt | examples/hello_otaa_simple_confirmed/main.c:85-139 | pass i of a run did what PassSpec says, given the timer and fired-cycle count the passes before it left |
| SimpleConfirmedExample.QuietFirstPeriod | examples/hello_otaa_simple_confirmed/main.c:81-92 | while every clock reading is at most 60000 ms, no cycle fires and `last_message_time` keeps its initial 0 |
| SimpleConfirmedExample.MainLoop | examples/hello_otaa_simple_confirmed/main.c:81-139 | from the initial globals, pass i fires a cycle exactly when the 60000 ms gate opens against the `now` of the last pass that fired one (0 before any); that cycle meets CycleSpec with the counter (cycles fired before it + 1) modulo 2^32, so the k-th cycle sends "Hello confirmed #k"; a downlink is reported exactly when the length is above -1; no cycle fires in the first 60 s |
| SimpleConfirmedExample.Run | examples/hello_otaa_simple_confirmed/main.c:47-139 | a halted start-up makes no pass; otherwise the main loop runs after the join, and every pass is as MainLoop states |
| ConfirmedExample.Boot | examples/hello_otaa_confirmed/main.c:64-97 | a failed retry-count setting is only reported and init still proceeds; a negative init result halts with no join and no send; otherwise the polled join |
| ConfirmedExample.ConfirmedNode.constructor | examples/hello_otaa_confirmed/main.c:44-46 | the timer, the receive length and port, and every byte of the receive buffer start at 0 |
| ConfirmedExample.ConfirmedNode.SendIfDue | examples/hello_otaa_confirmed/main.c:108-122 | a send fires exactly when the wrapping gate on 5000 ms opens; a fired cycle makes exactly one send attempt with no retry; `last_message_time` becomes `now` whatever the result |
| ConfirmedExample.ConfirmedNode.PollDownlink | examples/hello_otaa_confirmed/main.c:125-133 | the global receive variables take what the receive returned; a downlink is reported exactly when the length is above -1 |
| ConfirmedExample.ConfirmedNode.Step | examples/hello_otaa_confirmed/main.c:102-134 | one pass is a process call, at most one send and one receive; its report meets PassSpec of the timer, and the new state and trace are stated in full |
| ConfirmedExample.PassesAt | examples/hello_otaa_confirmed/main.c:102-134 | pass i of a run did what PassSpec says, given the timer the passes before it left |
| ConfirmedExample.QuietFirstPeriod | examples/hello_otaa_confirmed/main.c:99-110 | while every clock reading is at most 5000 ms, no send fires and `last_message_time` keeps its initial 0 |
| ConfirmedExample.MainLoop | examples/hello_otaa_confirmed/main.c:99-134 | pass i sends exactly when the 5000 ms gate opens against the `now` of the last pass that sent (0 before any), and reports the send accepted exactly when its result is non-negative; a downlink is reported exactly when the length is above -1; no send fires in the first 5 s; the trace holds exactly one send per fired pass, so there is never a retry |
| ConfirmedExample.Run | examples/hello_otaa_confirmed/main.c:48-134 | a halted start-up makes no pass; otherwise the main loop runs after the join, and every pass is as MainLoop states |
| FreeRtosExample.Start | examples/freertos_otaa/main.c:96-128 | a negative init result ends the task; a restored session skips the join and the delay; a negative join result ends the task; a successful join is followed by the 15 s delay |
| FreeRtosExample.StartCalls | examples/freertos_otaa/main.c:96-128 | start-up always begins with debug output and init; the session query is made exactly when init succeeded, the blocking join exactly when in addition no session was restored, and the 15 s delay exactly after a successful join |
| FreeRtosExample.PayloadFits | examples/freertos_otaa/main.c:135-136 | "Confirmed" plus the decimal count is at most 19 characters, so the 32-byte buffer never truncates it, and the count reads back from it |
| FreeRtosExample.IterationCalls | examples/freertos_otaa/main.c:144-200 | every iteration starts with the blocking send on port 1 with the 90 s timeout and ends with the 60 s sleep; the ADR query is made exactly when the DevAddr query answered 0 |
| FreeRtosExample.Classify | examples/freertos_otaa/main.c:162-172 | the send result classification is total and disjoint: 0 is acknowledged, -2 not acknowledged, -3 no confirm event, any other value rejected |
| FreeRtosExample.AckRatio | examples/freertos_otaa/main.c:180 | the ratio is 0 when there were no attempts, and otherwise 100 times acks over attempts |
| FreeRtosExample.RatioBounds | examples/freertos_otaa/main.c:180 | when the acknowledgements do not exceed the attempts, the ratio lies within [0, 100], and is 100 when every attempt was acknowledged |
| FreeRtosExample.IterationSendsOnce | examples/freertos_otaa/main.c:144 | every iteration sends its payload exactly once, on port 1 with the 90 s timeout |
| FreeRtosExample.IterationPollsTwice | examples/freertos_otaa/main.c:151-188 | every iteration polls for a downlink exactly twice |
| FreeRtosExample.IterationSleepsOnce | examples/freertos_otaa/main.c:199-200 | every iteration ends with the 60 s sleep, its only one: the pace is set after the cycle, not by a gate on its start |
| FreeRtosExample.TallyBounded | examples/freertos_otaa/main.c:145-180 | before 2^32 iterations, the wrapped acknowledgement count does not exceed the wrapped attempt count, and the ratio lies within [0, 100] |
| FreeRtosExample.PollImmediate | examples/freertos_otaa/main.c:149-160 | the poll right after the send reports a downlink exactly when the length is above -1; otherwise it reports the acknowledgement on its own exactly when the ack flag is set |
| FreeRtosExample.PollBeforeSleep | examples/freertos_otaa/main.c:186-196 | the second poll reports a downlink exactly when the length is above -1, with its port and exactly its bytes |
| FreeRtosExample.AppTask.constructor | examples/freertos_otaa/main.c:131-133 | the three counters start at 0 |
| FreeRtosExample.AppTask.Tally | examples/freertos_otaa/main.c:136-164 | the message and attempt counts each move on by exactly one, wrapping at 2^32; the acknowledgement count moves on by one exactly for an acknowledged send |
| FreeRtosExample.AppTask.Iterate | examples/freertos_otaa/main.c:134-201 | one iteration sends "Confirmed" plus the previous count; the attempt count grows by one whatever the result; the acknowledgement count grows only when the result is 0 and the ack flag is set; it classifies the result, polls twice, reports diagnostics exactly when both queries answer 0, and queries ADR only after DevAddr answered 0 |
| FreeRtosExample.AckedCountBounded | examples/freertos_otaa/main.c:162-164 | no more iterations are acknowledged than were made |
| FreeRtosExample.TalliedAt | examples/freertos_otaa/main.c:136-180 | iteration i (from 0) sends "Confirmed i" and reports i + 1 attempts and the acknowledged iterations among the first i + 1, all modulo 2^32 |
| FreeRtosExample.TalliedBounded | examples/freertos_otaa/main.c:145-180 | while fewer than 2^32 iterations have run, every report shows acks ≤ attempts and a ratio within [0, 100] |
| FreeRtosExample.SendLoop | examples/freertos_otaa/main.c:131-201 | from zeroed counters, every iteration's report is numbered and tallied as TalliedAt states, and each report meets `IterSpec` for its own iteration: the send result classified, the immediate poll's downlink or bare acknowledgement, the diagnostics exactly when both queries answered 0, and the downlink exactly when the later poll's length is above -1 |
| FreeRtosExample.RunTask | examples/freertos_otaa/main.c:86-201 | the send loop is entered exactly when init succeeded and either a session was restored or the join succeeded; otherwise the task ends with no iteration; once entered, every report is tallied and meets `IterSpec` for its own iteration |

## Left out

- The bodies of the `pico/lorawan.h` calls: join, send, confirmation status, receive, link check and the parameter setters and getters. Their answers are inputs, and they appear in the trace as calls. The MAC behaviour they trigger is also left out. That includes the confirmed-data acknowledgement and the LinkCheckReq/LinkCheckAns exchange of section 5.1 of the LoRaWAN 1.0.3 specification.
- A fixed order for the datarate and TX-power getters inside the advanced payload (examples/hello_otaa_advanced/main.c:123-124). C leaves the order in which the arguments of `sprintf` are evaluated unspecified, so their mutual order is an input (`CycleEnv.txPowerFirst`). Both come before the reset at line 127, and the trace places them there.
- FreeRTOS plumbing (examples/freertos_otaa/main.c:26-46 and 221-287). This covers static task memory, the overflow and malloc hooks, task creation and the scheduler. The task's deletion of itself is modelled as the end of `FreeRtosExample.RunTask`.
- `prvSendTimerCallback` (examples/freertos_otaa/main.c:206-218) is dead code, because its timer is never created.
- The pin and OTAA settings structures and examples/freertos_otaa/config.h are constants only. The FreeRTOS timer board files hold only a no-op. None of them is part of this model.
- Output: `printf` text, the progress dots of the advanced example, the free-heap and stack reports, and the USB CDC wait.
- Sleeps and `vTaskDelay` appear only as `Delay` calls in the FreeRTOS trace. Time otherwise passes only through the supplied clock readings.
- The infinite main loops are modelled by every finite prefix of their passes. The halting `while (1)` after a failed init is modelled as `Halted` with no further pass.
- FreeRtosExample.AckRatio: the ratio is an exact rational, not the single-precision float the task computes and prints with one decimal.
- `uint32_t` is an integer newtype with explicit wrapping (`CTypes.Sub`, `CTypes.Inc`, `CTypes.Wrap`), not a bit-vector.
- The environment requirements are assumptions on the inputs, not promises of the library:
  - the supplied clock readings eventually pass the ack timeout (`Library.ClockExpires`);
  - at least 200 send codes are supplied to the retry loop;
  - every received payload fits its 242-byte buffer (`FitsIn`);
  - a successful init is eventually followed by a joined answer.
- ConfirmedExample.MainLoop: its trace statement counts only the send calls. The per-pass process and receive calls are stated by `ConfirmedExample.ConfirmedNode.Step`, not summed over the loop.
- FreeRtosExample.SendLoop: it does not return the loop's call trace. The per-iteration trace is stated by `FreeRtosExample.AppTask.Iterate` and counted by the `Iteration*` lemmas.
- FreeRtosExample.AppTask.Iterate: the two local receive buffers are fresh arrays that are filled and then dropped. Only what the task reports from them is stated.

### Notes on the code

- `confirmed_attempts` counts every iteration, rejected sends included (examples/freertos_otaa/main.c:145).
- Only a send result of -2 is reported as "not acknowledged"; any result other than 0, -2 and -3 is a rejected send (examples/freertos_otaa/main.c:162-172).
- The three FreeRTOS counters are `uint32_t` and wrap at 2^32. `FreeRtosExample.TalliedBounded` proves that acknowledgements never exceed attempts while fewer than 2^32 iterations have run.
