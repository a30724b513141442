# Piezo Buzzer Bricklet driver, modelled in Dafny

This project models the firmware driver of the Tinkerforge Piezo Buzzer Bricklet
(`software/src/piezo-buzzer.c`) and proves properties of that model. The driver
keeps one context record:

- a beep countdown;
- a 60-slot Morse buffer;
- a Morse cursor;
- a Morse segment countdown;
- a tone flag;
- two latched "finished" flags.

It updates that record from three entry points:

- `beep` starts a plain beep and cancels Morse playback;
- `morse_code` checks and copies a Morse request and restarts playback;
- `tick` is the scheduler callback. Its message part reports the latched flags.
  Its calculation part pulses the pin, counts segments down, puts a pause after
  every dit or dah, and loads the next Morse symbol.

`invocation` dispatches a request to `beep` or `morse_code`, or answers
NotSupported.

The project has three modules, one file each:

- `BuzzerState` (BuzzerState.dfy) defines the context record as a datatype
  `State`, the invariant `Inv`, and one function per entry point and per part of
  a tick.
- `BuzzerProperties` (BuzzerProperties.dfy) proves lemmas about those functions:
  the effect of the commands, the countdown engine, the symbol-advance loop,
  notifications, whole beeps and whole Morse playbacks.
- `PiezoBuzzer` (PiezoBuzzer.dfy) holds the driver itself: class `Buzzer`, with
  the record's fields, the Morse buffer as an `array<char>`, and the entry points
  as methods that update the fields in place. Each method is proved to leave the
  record (`Model()`) as the matching function of `BuzzerState` says. So every
  lemma of `BuzzerProperties` holds of the driver.

The hardware and the transport each become one ghost field of `Buzzer`:

- `pulses` counts the calls of `buzz()`;
- `sent` logs the notifications sent (`BeepFinished`, `MorseCodeFinished`).

Constants:

- `MorseDitLength` is 100, `MorseDahLength` is 300 and `MorseSpaceLength` is 100.
  These are the driver's own definitions.
- `MorseLength` is 60, the value the constructor writes into the cursor.

Behaviour as the code has it:

- `morse_code` resets the beep, the cursor, the countdown and the tone flag
  before it checks the request. A request with an invalid character at index k
  is answered with InvalidParameter. Even so, slots 0..k-1 are already
  overwritten, slots k.. keep their old contents, and playback restarts from
  slot 0 (`MorseCodeRejects`). So a rejected request still plays.
- A request must have a valid character in all 60 slots to be accepted. A short
  message padded with any other character is therefore rejected, but it still
  plays its prefix, then any symbols earlier requests left in the later slots.
- When the last slot holds a Morse symbol (always so for an accepted request),
  the Morse "finished" flag is latched by the tick that loads it. The segment
  loaded there has not sounded yet, so the flag does not wait for the end of the
  sound (`FinishedWhenLastSlotLoaded`, `LastSlotLoadedAfterPause`). When no slot
  after the cursor holds a symbol, the flag is latched on the tick the last
  segment's pause runs out, with nothing left to play (`LatchesAfterSound`).
- The symbol-advance loop skips a slot holding any other character and moves the
  cursor on. It never stalls (`AdvanceLoadsNextSymbol`).

## Model

| member | source | states |
|---|---|---|
| PiezoBuzzer.Buzzer.constructor | software/src/piezo-buzzer.c:54-65 | starts with nothing playing: beep and Morse countdowns 0, tone off, cursor parked at MorseLength, flags clear, no pulse, nothing sent; the invariant holds |
| PiezoBuzzer.Buzzer.Invocation | software/src/piezo-buzzer.c:35-52 | a Beep request acts as beep and answers Ok; a Morse request acts as morse_code; any other function id answers NotSupported and changes no field, pulse or notification |
| PiezoBuzzer.Buzzer.Buzz | software/src/piezo-buzzer.c:73-77 | one call is exactly one pin pulse |
| PiezoBuzzer.Buzzer.Beep | software/src/piezo-buzzer.c:79-89 | sets the beep countdown to the duration; parks the cursor at MorseLength, zeroes the Morse countdown, turns the tone off; keeps the buffer and both flags; no pulse |
| PiezoBuzzer.Buzzer.MorseCode | software/src/piezo-buzzer.c:91-110 | the copying loop leaves the record as MorseCodeSpec says: beep 0, cursor 0, countdown 0, tone off, buffer = request prefix up to the first invalid character followed by the old slots; the answer is Ok only if every slot is valid |
| PiezoBuzzer.Buzzer.Tick | software/src/piezo-buzzer.c:112-184 | the new record, the added pulses and the added notifications are those of TickSpec for the two tick bits; the invariant is kept |
| PiezoBuzzer.Buzzer.TickMessage | software/src/piezo-buzzer.c:113-133 | reports each latched flag once, beep first, and clears it; no pulse |
| PiezoBuzzer.Buzzer.TickCalculation | software/src/piezo-buzzer.c:135-183 | the countdown engine followed by the advance loop, as CalculationTick says, with its pulse |
| PiezoBuzzer.Buzzer.AdvanceMorse | software/src/piezo-buzzer.c:156-182 | the while loop ends (the cursor rises every iteration) in the state Advance gives and keeps the invariant |
| BuzzerState.BeepSpec | software/src/piezo-buzzer.c:79-89 | beep leads from any well-formed record into one that satisfies the invariant |
| BuzzerState.FirstInvalid | software/src/piezo-buzzer.c:100-104 | the index where the validity check stops: every earlier character is `.`, `-` or space, and the character there (if any) is not |
| BuzzerState.MorseCodeSpec | software/src/piezo-buzzer.c:91-110 | morse_code leads from any well-formed record into one that satisfies the invariant |
| BuzzerState.MessageTick | software/src/piezo-buzzer.c:113-133 | afterwards both flags are clear; one notification per flag that was set; no pulse |
| BuzzerState.Countdown | software/src/piezo-buzzer.c:136-154 | at most one pulse; cursor, buffer and Morse flag untouched; the invariant is kept |
| BuzzerState.SymbolDuration | software/src/piezo-buzzer.c:161-177 | the countdown the switch loads for a slot: positive exactly for `.`, `-` and space (100, 300, 100), and never above the dah length |
| BuzzerState.SymbolBuzz | software/src/piezo-buzzer.c:161-177 | the tone flag the switch loads: only `.` and `-` sound, and only Morse symbols can |
| BuzzerState.AdvanceOnce | software/src/piezo-buzzer.c:161-181 | one iteration of the loop body: the cursor moves on by exactly one; a slot that is not a Morse symbol loads nothing; the Morse flag latches when the cursor reaches MorseLength; buffer and beep fields untouched; the invariant is kept |
| BuzzerState.Advance | software/src/piezo-buzzer.c:156-182 | the cursor never moves back and stays within the buffer; the loop stops with a zero countdown only at the end of the buffer; the Morse flag latches exactly when the cursor reaches MorseLength; the invariant is kept |
| BuzzerState.CalculationTick | software/src/piezo-buzzer.c:135-183 | at most one pulse; the buffer is untouched and the cursor does not move back; the Morse flag latches exactly when the cursor reaches the end; the invariant is kept |
| BuzzerState.TickSpec | software/src/piezo-buzzer.c:112-184 | a tick keeps the invariant and pulses at most once |
| BuzzerState.RunCalculation | software/src/piezo-buzzer.c:135-183 | n calculation ticks pulse at most n times, keep the invariant and the buffer, and latch the Morse flag exactly when they move the cursor to the end |
| BuzzerProperties.BeepCancelsMorse | software/src/piezo-buzzer.c:79-89 | after beep(d) the countdown is d, Morse is parked with nothing pending, and the buffer and flags are unchanged |
| BuzzerProperties.MorseCodeAccepts | software/src/piezo-buzzer.c:91-110 | the answer is Ok exactly when every character is valid, and then the buffer equals the request; the answer is otherwise InvalidParameter; in both cases the beep, cursor, countdown and tone are reset |
| BuzzerProperties.MorseCodeRejects | software/src/piezo-buzzer.c:93-104 | with the first invalid character at k: the answer is InvalidParameter, the buffer holds the request up to k and the old slots from k, and the cursor is 0, so playback is not suppressed |
| BuzzerProperties.BeepTick | software/src/piezo-buzzer.c:136-142 | while a beep runs, a calculation tick takes exactly 1 off it, pulses exactly once, latches the beep flag when the countdown reaches 0, and changes nothing else |
| BuzzerProperties.MorseCountdown | software/src/piezo-buzzer.c:143-154 | with no beep, a running segment loses one tick and pulses only if it is a tone; a tone reaching 0 is replaced by a silent pause of 100 ticks without a pulse; a pause reaching 0 inserts nothing |
| BuzzerProperties.CountdownIdle | software/src/piezo-buzzer.c:136-154 | with both countdowns at 0 the countdown engine changes nothing and does not pulse |
| BuzzerProperties.NextSymbol | software/src/piezo-buzzer.c:161-177 | the first slot at or after the cursor holding `.`, `-` or space; every slot before it holds something else |
| BuzzerProperties.AdvanceLoadsNextSymbol | software/src/piezo-buzzer.c:156-182 | the loop skips the slots holding other characters and loads the first symbol (dit 100 ticks with tone, dah 300 with tone, space 100 silent), leaving the cursor just past it, so it loads at most one symbol per tick; with no symbol left it parks the cursor at the end with nothing loaded |
| BuzzerProperties.AdvanceProgress | software/src/piezo-buzzer.c:158-160 | when the loop runs the cursor strictly advances and stays within MorseLength; when it cannot run nothing changes |
| BuzzerProperties.FinishedWhenLastSlotLoaded | software/src/piezo-buzzer.c:156-182 | a tick whose countdown engine leaves no segment running, with the next symbol in the last slot, loads that slot, parks the cursor and latches the Morse flag. The segment loaded there still has all its ticks to run |
| BuzzerProperties.LastSlotLoadedAfterPause | software/src/piezo-buzzer.c:143-182 | the case a real playback reaches: a pause with 1 tick left, and only the last slot still holding a symbol. The tick latches the Morse flag while that last symbol has yet to sound |
| BuzzerProperties.LatchesAfterSound | software/src/piezo-buzzer.c:143-182 | when no slot after the cursor holds a Morse symbol, the tick whose countdown ends the last segment moves the cursor to the end and latches the Morse flag, with no tick and no pulse left pending |
| BuzzerProperties.MessageTickDelivers | software/src/piezo-buzzer.c:113-133 | a message tick sends BeepFinished if that flag was set, then MorseCodeFinished if that flag was set; it clears both flags, changes nothing else and does not pulse |
| BuzzerProperties.MessageTickOnce | software/src/piezo-buzzer.c:114-125 | a second message tick straight after a first one sends nothing |
| BuzzerProperties.EmptyTick | software/src/piezo-buzzer.c:113-135 | a tick with neither bit set changes nothing |
| BuzzerProperties.RunAppend | software/src/piezo-buzzer.c:135-183 | a + b calculation ticks are a ticks followed by b ticks, with their pulses added up |
| BuzzerProperties.IdleRun | software/src/piezo-buzzer.c:136-160 | with no beep, no segment and the cursor parked, any number of ticks change nothing and never pulse |
| BuzzerProperties.BeepRun | software/src/piezo-buzzer.c:136-142 | k ticks of a running beep (k at most its countdown) give exactly k pulses, take k off, latch the beep flag only when k reaches the countdown, and touch nothing else |
| BuzzerProperties.BeepThenTicks | software/src/piezo-buzzer.c:79-89 | after beep(d), k <= d ticks give exactly k pulses and leave d - k; the beep flag becomes set on tick d and not before, unless it was already pending |
| BuzzerProperties.BeepZero | software/src/piezo-buzzer.c:86 | after beep(0) no tick pulses or changes anything, so the beep flag is never set |
| BuzzerProperties.BeepPreemptsMorse | software/src/piezo-buzzer.c:81-86 | after beep(d), any n >= d ticks give exactly d pulses and end with the beep at 0 and Morse parked, not resumed |
| BuzzerProperties.BeepNotifiedOnce | software/src/piezo-buzzer.c:114-122 | beep(d) for d > 0, then d calculation ticks, then a message tick: BeepFinished is sent once, and a further message tick sends nothing |
| BuzzerProperties.SumSplit | software/src/piezo-buzzer.c:161-178 | the pending pulses and ticks of the slots from p on are those of slot p plus those of the slots after it |
| BuzzerProperties.AdvanceKeepsPending | software/src/piezo-buzzer.c:156-182 | loading a segment moves its pulses and ticks from the buffer into the running countdown; none are lost or created |
| BuzzerProperties.MorseTickAccounting | software/src/piezo-buzzer.c:143-182 | with no beep, a tick's pulses are exactly the drop in pending pulses; pending ticks drop by one exactly when a segment was running |
| BuzzerProperties.MorseRunAccounting | software/src/piezo-buzzer.c:143-182 | over any run without a beep, the pulses emitted are exactly the drop in pending pulses |
| BuzzerProperties.MorseStillRunning | software/src/piezo-buzzer.c:143-182 | after any calculation tick, a segment is still running after each of the next k ticks for every k below PendingTicks |
| BuzzerProperties.MorseRunsOut | software/src/piezo-buzzer.c:143-182 | after any calculation tick, exactly PendingTicks more ticks emit all pending pulses and leave Morse parked and silent; one tick fewer still leaves a segment running |
| BuzzerProperties.MorseFirstTick | software/src/piezo-buzzer.c:143-182 | the first calculation tick after an accepted request does not pulse and only loads slot 0; all of the request's ticks and pulses are still pending |
| BuzzerProperties.MorsePlayback | software/src/piezo-buzzer.c:91-182 | an accepted request plays in exactly 1 + SumTicks(input) calculation ticks: a segment is still running after SumTicks(input) ticks, and none after one more. It emits SumPulses(input) pulses. SumTicks counts 200 ticks per dit, 400 per dah and 100 per space; SumPulses counts 100 per dit and 300 per dah. Playback ends parked with the Morse flag latched |

## Left out

- Pin configuration in `constructor` and `destructor` (`PIO_Configure`). It is hardware set-up with no effect on the record, so `destructor` has no counterpart.
- What `buzz` does to the pin (the two register writes and the 1 µs `SLEEP_NS`). Each call is modelled as one increment of the ghost `pulses` counter.
- The message transport: `com_make_default_header`, `send_blocking_with_timeout`, `com_return_setter` and `com_return_error`. A notification is an entry in the ghost `sent` log. A reply is the `Status` a method returns. Send timeouts and lost notifications are not modelled.
- The `_Static_assert` on the context size, and the field widths and layout from the driver's header. That header is not part of this model. The beep countdown is modelled as a 32-bit unsigned value (`Uint32`); the cursor and the Morse countdown are `nat`s, bounded by the invariant.
- The numeric function ids and tick-type bits. They come from headers that are not part of this model. Requests are the datatype `Request`, and a tick takes one boolean per tick-type bit.
- The two finished flags are set false by the model's constructor. The source's constructor leaves them as the context was, which is taken to be cleared. The initial buffer contents are left unspecified.
- Concurrency. `invocation` and `tick` are taken to be serialized, each running to completion.
- software/examples/java/ExampleMorseCode.java, a client program with no driver logic.
