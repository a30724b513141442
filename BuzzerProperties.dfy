/**
 What the piezo-buzzer driver guarantees, stated over the value-level model of
 BuzzerState: the effect of each command, the countdown engine, the
 symbol-advance loop, the notification path, and whole playbacks.
 */
module BuzzerProperties {
  import opened BuzzerState

  // ---------------------------------------------------------------------------
  // Commands
  // ---------------------------------------------------------------------------

  /** beep cancels Morse playback and starts the countdown; buffer and flags stay. */
  lemma BeepCancelsMorse(s: State, duration: nat)
    requires WellFormed(s)
    ensures var r := BeepSpec(s, duration);
      && r.beepDuration == duration
      && r.morsePos == MorseLength && r.morseDuration == 0 && !r.morseBuzz
      && r.morse == s.morse && r.beepFinished == s.beepFinished && r.morseFinished == s.morseFinished
      && PendingTicks(r) == 0 && PendingPulses(r) == 0
  {
  }

  /** morse_code answers Ok exactly when every character is a Morse symbol, and then stores the whole request. */
  lemma {:induction false} MorseCodeAccepts(s: State, input: seq<char>)
    requires WellFormed(s) && |input| == MorseLength
    ensures var (status, r) := MorseCodeSpec(s, input);
      && (status == Ok <==> forall i | 0 <= i < |input| :: IsMorseSymbol(input[i]))
      && (status == Ok ==> r.morse == input)
      && (status != Ok ==> status == InvalidParameter)
      && r.beepDuration == 0 && r.morsePos == 0 && r.morseDuration == 0 && !r.morseBuzz
      && r.beepFinished == s.beepFinished && r.morseFinished == s.morseFinished
  {
    var k := FirstInvalid(input);
    if k == |input| {
      assert input[..k] + s.morse[k..] == input;
    }
  }

  /**
   A request whose first invalid character is at k is rejected, but the slots
   before k have already been overwritten, the slots from k on keep their old
   contents and the cursor is back at 0, so playback still restarts.
   */
  lemma MorseCodeRejects(s: State, input: seq<char>, k: nat)
    requires WellFormed(s) && |input| == MorseLength
    requires k < |input| && !IsMorseSymbol(input[k])
    requires forall i | 0 <= i < k :: IsMorseSymbol(input[i])
    ensures var (status, r) := MorseCodeSpec(s, input);
      && status == InvalidParameter
      && r.morse[..k] == input[..k] && r.morse[k..] == s.morse[k..]
      && r.beepDuration == 0 && r.morsePos == 0 && r.morseDuration == 0 && !r.morseBuzz
      && r.beepFinished == s.beepFinished && r.morseFinished == s.morseFinished
  {
    var j := FirstInvalid(input);
    assert j == k;
    var m := input[..k] + s.morse[k..];
    assert m[..k] == input[..k];
    assert m[k..] == s.morse[k..];
  }

  // ---------------------------------------------------------------------------
  // The countdown engine
  // ---------------------------------------------------------------------------

  /**
   A calculation tick during a beep takes one tick off, pulses once, latches
   the beep flag when the countdown reaches 0 and leaves everything else alone.
   */
  lemma BeepTick(s: State)
    requires Inv(s) && s.beepDuration > 0
    ensures var r := CalculationTick(s);
      && r.next.beepDuration == s.beepDuration - 1 && r.pulses == 1
      && r.next.beepFinished == (s.beepFinished || r.next.beepDuration == 0)
      && r.next.(beepDuration := s.beepDuration, beepFinished := s.beepFinished) == s
  {
  }

  /**
   Without a beep, a running Morse segment loses one tick and pulses only if it
   is a tone; a tone that runs out is followed by a silent pause of
   MorseSpaceLength ticks; a pause that runs out inserts nothing.
   */
  lemma MorseCountdown(s: State)
    requires Inv(s) && s.beepDuration == 0 && s.morseDuration > 0
    ensures var r := Countdown(s);
      && r.pulses == (if s.morseBuzz then 1 else 0)
      && (s.morseBuzz && s.morseDuration == 1 ==> r.next.morseDuration == MorseSpaceLength && !r.next.morseBuzz)
      && (!s.morseBuzz || s.morseDuration > 1 ==>
            r.next.morseDuration == s.morseDuration - 1 && r.next.morseBuzz == s.morseBuzz)
      && r.next.(morseDuration := s.morseDuration, morseBuzz := s.morseBuzz) == s
  {
  }

  /** With nothing counting down, the countdown engine does nothing and pulses never. */
  lemma CountdownIdle(s: State)
    requires s.beepDuration == 0 && s.morseDuration == 0
    ensures Countdown(s) == Step(s, 0, [])
  {
  }

  // ---------------------------------------------------------------------------
  // The symbol-advance loop
  // ---------------------------------------------------------------------------

  /** Index of the first Morse symbol at or after p, or |m| if there is none. */
  function NextSymbol(m: seq<char>, p: nat): (j: nat)
    requires p <= |m|
    ensures p <= j <= |m|
    ensures forall i | p <= i < j :: !IsMorseSymbol(m[i])
    ensures j < |m| ==> IsMorseSymbol(m[j])
    decreases |m| - p
  {
    if p == |m| || IsMorseSymbol(m[p]) then p else NextSymbol(m, p + 1)
  }

  /**
   When no segment is running, the loop skips every slot that is not a Morse
   symbol and loads the first one that is (dit 100 ticks, tone; dah 300, tone;
   space 100, silent), leaving the cursor just past it, so it loads at most one
   symbol; if there is none it parks the cursor at the end with nothing loaded.
   */
  lemma {:induction false} AdvanceLoadsNextSymbol(s: State)
    requires WellFormed(s) && s.morseDuration == 0
    ensures var r := Advance(s); var j := NextSymbol(s.morse, s.morsePos);
      if j < MorseLength then
        && r.morsePos == j + 1
        && r.morseDuration == SymbolDuration(s.morse[j]) && r.morseDuration > 0
        && r.morseBuzz == SymbolBuzz(s.morse[j])
      else
        r.morsePos == MorseLength && r.morseDuration == 0 && r.morseBuzz == s.morseBuzz
    decreases MorseLength - s.morsePos
  {
    if s.morsePos < MorseLength && !IsMorseSymbol(s.morse[s.morsePos]) {
      AdvanceLoadsNextSymbol(AdvanceOnce(s));
    }
  }

  /** The loop makes progress whenever it runs: the cursor moves forward and stays within the buffer. */
  lemma AdvanceProgress(s: State)
    requires WellFormed(s)
    ensures var r := Advance(s);
      && r.morsePos <= MorseLength
      && (s.morsePos < MorseLength && s.morseDuration == 0 ==> s.morsePos < r.morsePos)
      && (s.morsePos == MorseLength || s.morseDuration > 0 ==> r == s)
  {
    if s.morsePos < MorseLength && s.morseDuration == 0 {
      AdvanceLoadsNextSymbol(s);
    }
  }

  /**
   The Morse flag is latched by the tick that loads the last slot, while the
   segment loaded there still has all its ticks to run. That tick is one whose
   countdown engine leaves no segment running (a pause that has 1 tick left,
   or the first tick after morse_code) and whose next symbol is in the last slot.
   */
  lemma FinishedWhenLastSlotLoaded(s: State)
    requires Inv(s) && s.beepDuration == 0 && Countdown(s).next.morseDuration == 0
    requires NextSymbol(s.morse, s.morsePos) == MorseLength - 1
    ensures var r := CalculationTick(s);
      && r.next.morseFinished && r.next.morsePos == MorseLength
      && PendingTicks(r.next) == SymbolTicks(s.morse[MorseLength - 1]) > 0
  {
    AdvanceLoadsNextSymbol(Countdown(s).next);
    assert s.morse[MorseLength..] == [];
  }

  /** A pause with 1 tick left and only the last slot still holding a symbol meets the conditions above. */
  lemma LastSlotLoadedAfterPause(s: State)
    requires Inv(s) && s.beepDuration == 0 && s.morseDuration == 1 && !s.morseBuzz
    requires NextSymbol(s.morse, s.morsePos) == MorseLength - 1
    ensures var r := CalculationTick(s);
      && r.next.morseFinished && r.next.morsePos == MorseLength
      && PendingTicks(r.next) == SymbolTicks(s.morse[MorseLength - 1]) > 0
  {
    FinishedWhenLastSlotLoaded(s);
  }

  /**
   When no slot after the cursor holds a Morse symbol (a rejected request over
   a tail of other characters), the flag is latched only by the tick whose
   countdown ends the last segment, with nothing left to play.
   */
  lemma LatchesAfterSound(s: State)
    requires Inv(s) && s.beepDuration == 0 && Countdown(s).next.morseDuration == 0
    requires s.morsePos < MorseLength && NextSymbol(s.morse, s.morsePos) == MorseLength
    ensures var r := CalculationTick(s);
      && r.next.morseFinished && r.next.morsePos == MorseLength && r.next.morseDuration == 0
      && PendingTicks(r.next) == 0 && PendingPulses(r.next) == 0
  {
    AdvanceLoadsNextSymbol(Countdown(s).next);
    assert s.morse[MorseLength..] == [];
  }

  // ---------------------------------------------------------------------------
  // The message part of a tick
  // ---------------------------------------------------------------------------

  /** Every latched flag yields exactly one notification, beep first, and is cleared. */
  lemma MessageTickDelivers(s: State)
    requires WellFormed(s)
    ensures var r := TickSpec(s, true, false);
      && r.sent == (if s.beepFinished then [BeepFinished] else []) + (if s.morseFinished then [MorseCodeFinished] else [])
      && r.pulses == 0
      && r.next == s.(beepFinished := false, morseFinished := false)
  {
  }

  /** A second message tick right after a first one sends nothing. */
  lemma MessageTickOnce(s: State)
    requires WellFormed(s)
    ensures TickSpec(TickSpec(s, true, false).next, true, false).sent == []
  {
  }

  /** A tick with neither bit set changes nothing. */
  lemma EmptyTick(s: State)
    requires WellFormed(s)
    ensures TickSpec(s, false, false) == Step(s, 0, [])
  {
  }

  // ---------------------------------------------------------------------------
  // Runs of calculation ticks
  // ---------------------------------------------------------------------------

  /** Runs compose: a + b ticks are a ticks followed by b ticks. */
  lemma {:induction false} RunAppend(s: State, a: nat, b: nat)
    requires WellFormed(s)
    ensures var first := RunCalculation(s, a); var second := RunCalculation(first.next, b);
      RunCalculation(s, a + b) == Step(second.next, first.pulses + second.pulses, [])
    decreases a
  {
    if a > 0 {
      RunAppend(CalculationTick(s).next, a - 1, b);
    }
  }

  /** With nothing counting down and playback parked, ticks change nothing and pulse never. */
  lemma {:induction false} IdleRun(s: State, n: nat)
    requires WellFormed(s)
    requires s.beepDuration == 0 && s.morsePos == MorseLength && s.morseDuration == 0
    ensures RunCalculation(s, n) == Step(s, 0, [])
    decreases n
  {
    if n > 0 {
      IdleRun(CalculationTick(s).next, n - 1);
    }
  }

  /**
   k ticks of a running beep (k at most its countdown) pulse exactly k times,
   take k off the countdown, latch the beep flag only on the tick that reaches 0
   and touch nothing else.
   */
  lemma {:induction false} BeepRun(s: State, k: nat)
    requires Inv(s) && k <= s.beepDuration
    ensures var r := RunCalculation(s, k);
      && r.pulses == k && r.next.beepDuration == s.beepDuration - k
      && r.next.beepFinished == (s.beepFinished || (k > 0 && k == s.beepDuration))
      && r.next.(beepDuration := s.beepDuration, beepFinished := s.beepFinished) == s
    decreases k
  {
    if k > 0 {
      BeepTick(s);
      BeepRun(CalculationTick(s).next, k - 1);
    }
  }

  /**
   After beep(d), the first k <= d calculation ticks give exactly k pulses, and
   the beep flag (if it was not already pending) first becomes true on tick d.
   */
  lemma BeepThenTicks(s: State, d: nat, k: nat)
    requires WellFormed(s) && k <= d
    ensures var r := RunCalculation(BeepSpec(s, d), k);
      && r.pulses == k && r.next.beepDuration == d - k
      && r.next.beepFinished == (s.beepFinished || (k > 0 && k == d))
  {
    BeepRun(BeepSpec(s, d), k);
  }

  /** beep(0) is silent: no tick after it pulses, and the beep flag is never set by it. */
  lemma BeepZero(s: State, n: nat)
    requires WellFormed(s)
    ensures var b := BeepSpec(s, 0);
      RunCalculation(b, n) == Step(b, 0, []) && RunCalculation(b, n).next.beepFinished == s.beepFinished
  {
    IdleRun(BeepSpec(s, 0), n);
  }

  /**
   beep(d) pre-empts Morse playback for good: any n >= d ticks after it give
   exactly d pulses and leave Morse parked rather than resumed.
   */
  lemma BeepPreemptsMorse(s: State, d: nat, n: nat)
    requires WellFormed(s) && d <= n
    ensures var r := RunCalculation(BeepSpec(s, d), n);
      && r.pulses == d && r.next.beepDuration == 0
      && r.next.morsePos == MorseLength && r.next.morseDuration == 0 && !r.next.morseBuzz
      && r.next.morse == s.morse
  {
    var b := BeepSpec(s, d);
    BeepRun(b, d);
    IdleRun(RunCalculation(b, d).next, n - d);
    RunAppend(b, d, n - d);
  }

  /** beep(d) with d > 0, then d calculation ticks, then a message tick: BeepFinished is sent exactly once. */
  lemma BeepNotifiedOnce(s: State, d: nat)
    requires WellFormed(s) && d > 0
    ensures var r := RunCalculation(BeepSpec(s, d), d);
      && r.pulses == d
      && TickSpec(r.next, true, false).sent == [BeepFinished] + (if s.morseFinished then [MorseCodeFinished] else [])
      && TickSpec(TickSpec(r.next, true, false).next, true, false).sent == []
  {
    BeepRun(BeepSpec(s, d), d);
  }

  // ---------------------------------------------------------------------------
  // Accounting of a Morse playback
  // ---------------------------------------------------------------------------

  lemma SumSplit(m: seq<char>, p: nat)
    requires p < |m|
    ensures SumPulses(m[p..]) == SymbolPulses(m[p]) + SumPulses(m[p + 1..])
    ensures SumTicks(m[p..]) == SymbolTicks(m[p]) + SumTicks(m[p + 1..])
  {
    assert m[p..][1..] == m[p + 1..];
  }

  /** The symbol-advance loop moves work from the buffer into the running segment without losing any. */
  lemma {:induction false} AdvanceKeepsPending(s: State)
    requires Inv(s)
    ensures PendingPulses(Advance(s)) == PendingPulses(s)
    ensures PendingTicks(Advance(s)) == PendingTicks(s)
    decreases MorseLength - s.morsePos
  {
    if s.morsePos < MorseLength && s.morseDuration == 0 {
      SumSplit(s.morse, s.morsePos);
      AdvanceKeepsPending(AdvanceOnce(s));
    }
  }

  /**
   Without a beep, each calculation tick's pulses are paid for by the pending
   pulses, and the pending ticks drop by one exactly when a segment was running.
   */
  lemma MorseTickAccounting(s: State)
    requires Inv(s) && s.beepDuration == 0
    ensures var r := CalculationTick(s);
      && r.next.beepDuration == 0
      && PendingPulses(s) == r.pulses + PendingPulses(r.next)
      && PendingTicks(r.next) + (if s.morseDuration > 0 then 1 else 0) == PendingTicks(s)
  {
    AdvanceKeepsPending(Countdown(s).next);
  }

  /** Over any run without a beep, the pulses emitted are paid for by the pending pulses. */
  lemma {:induction false} MorseRunAccounting(s: State, n: nat)
    requires Inv(s) && s.beepDuration == 0
    ensures var r := RunCalculation(s, n);
      r.next.beepDuration == 0 && PendingPulses(s) == r.pulses + PendingPulses(r.next)
    decreases n
  {
    if n > 0 {
      MorseTickAccounting(s);
      MorseRunAccounting(CalculationTick(s).next, n - 1);
    }
  }

  /**
   From a state a calculation tick has produced (a running segment, or the
   cursor parked), a segment is still running after each of the first
   k < PendingTicks ticks.
   */
  lemma {:induction false} MorseStillRunning(s: State, k: nat)
    requires Inv(s) && s.beepDuration == 0
    requires s.morseDuration == 0 ==> s.morsePos == MorseLength
    requires k < PendingTicks(s)
    ensures RunCalculation(s, k).next.morseDuration > 0
    decreases k
  {
    if k > 0 {
      MorseTickAccounting(s);
      MorseStillRunning(CalculationTick(s).next, k - 1);
    }
  }

  /**
   From a state a calculation tick has produced (a running segment, or the
   cursor parked), exactly PendingTicks more ticks emit all PendingPulses and
   leave playback parked and silent, and one tick fewer still leaves a segment running.
   */
  lemma {:induction false} MorseRunsOut(s: State)
    requires Inv(s) && s.beepDuration == 0
    requires s.morseDuration == 0 ==> s.morsePos == MorseLength
    ensures var r := RunCalculation(s, PendingTicks(s));
      && r.pulses == PendingPulses(s)
      && r.next.morsePos == MorseLength && r.next.morseDuration == 0 && !r.next.morseBuzz
    ensures PendingTicks(s) > 0 ==> RunCalculation(s, PendingTicks(s) - 1).next.morseDuration > 0
    decreases PendingTicks(s)
  {
    if s.morseDuration == 0 {
      assert s.morse[s.morsePos..] == [];
    } else {
      MorseTickAccounting(s);
      MorseRunsOut(CalculationTick(s).next);
      MorseStillRunning(s, PendingTicks(s) - 1);
    }
  }

  /**
   An accepted Morse request plays out in exactly 1 + SumTicks(input)
   calculation ticks (the first one only loads slot 0), emits SumPulses(input)
   pulses (100 per dit, 300 per dah), and ends parked with the Morse flag latched.
   */
  lemma MorsePlayback(s: State, input: seq<char>)
    requires WellFormed(s) && |input| == MorseLength
    requires forall i | 0 <= i < |input| :: IsMorseSymbol(input[i])
    ensures var (status, m) := MorseCodeSpec(s, input);
      var r := RunCalculation(m, 1 + SumTicks(input));
      && status == Ok
      && r.pulses == SumPulses(input)
      && r.next.morsePos == MorseLength && r.next.morseDuration == 0 && !r.next.morseBuzz
      && r.next.morseFinished
      && RunCalculation(m, SumTicks(input)).next.morseDuration > 0
  {
    MorseCodeAccepts(s, input);
    var m := MorseCodeSpec(s, input).1;
    MorseFirstTick(s, input);
    var t := CalculationTick(m);
    MorseRunsOut(t.next);
    RunAppend(m, 1, SumTicks(input));
    RunAppend(m, 1, SumTicks(input) - 1);
  }

  /** The first calculation tick after an accepted request only loads slot 0: no pulse, nothing of the request lost. */
  lemma MorseFirstTick(s: State, input: seq<char>)
    requires WellFormed(s) && |input| == MorseLength
    requires forall i | 0 <= i < |input| :: IsMorseSymbol(input[i])
    ensures var m := MorseCodeSpec(s, input).1; var t := CalculationTick(m);
      && Inv(t.next) && t.next.beepDuration == 0 && t.pulses == 0
      && (t.next.morseDuration == 0 ==> t.next.morsePos == MorseLength)
      && PendingTicks(t.next) == SumTicks(input) > 0
      && PendingPulses(t.next) == SumPulses(input)
  {
    MorseCodeAccepts(s, input);
    var m := MorseCodeSpec(s, input).1;
    assert m.morse[0..] == input;
    CountdownIdle(m);
    MorseTickAccounting(m);
    assert SymbolTicks(input[0]) > 0;
  }
}
