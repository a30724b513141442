/**
 Value-level model of the piezo-buzzer driver's context record and of what each
 entry point does to it. The class in PiezoBuzzer.dfy keeps the same fields in
 place and is proved to follow these functions step by step.
 */
module BuzzerState {

  /** Tick counts of the Morse segments (software/src/piezo-buzzer.c:31-33). */
  const MorseDitLength: nat := 100
  const MorseDahLength: nat := MorseDitLength * 3
  const MorseSpaceLength: nat := MorseDitLength

  /** Number of slots of the Morse buffer. */
  const MorseLength: nat := 60

  /** The width of the beep duration carried by a Beep request. */
  type Uint32 = x: int | 0 <= x < 0x1_0000_0000

  /** The two asynchronous notifications the driver sends. */
  datatype Notification = BeepFinished | MorseCodeFinished

  /** What a request is answered with: a setter acknowledgement or an error code. */
  datatype Status = Ok | InvalidParameter | NotSupported

  /** The driver's context record. */
  datatype State = State(
    beepDuration: nat,
    morse: seq<char>,
    morsePos: nat,
    morseDuration: nat,
    morseBuzz: bool,
    beepFinished: bool,
    morseFinished: bool)

  /** The outcome of a tick: the new record, how often the pin was pulsed and what was sent. */
  datatype Step = Step(next: State, pulses: nat, sent: seq<Notification>)

  /** The buffer has its fixed length and the cursor stays inside it (or parked at its end). */
  predicate WellFormed(s: State)
  {
    |s.morse| == MorseLength && s.morsePos <= MorseLength
  }

  /** The invariant every entry point keeps. */
  predicate Inv(s: State)
  {
    && WellFormed(s)
    // a running beep has switched Morse playback off
    && (s.beepDuration > 0 ==> s.morsePos == MorseLength && s.morseDuration == 0 && !s.morseBuzz)
    // a tone segment is always still counting down
    && (s.morseBuzz ==> s.morseDuration > 0)
    && s.morseDuration <= MorseDahLength
  }

  /** The three characters a Morse request may contain. */
  predicate IsMorseSymbol(c: char)
  {
    c == '.' || c == '-' || c == ' '
  }

  /** The countdown the symbol-advance loop loads for a character (0: nothing loaded). */
  function SymbolDuration(c: char): (d: nat)
    ensures d > 0 <==> IsMorseSymbol(c)
    ensures d <= MorseDahLength
  {
    if c == '.' then MorseDitLength
    else if c == '-' then MorseDahLength
    else if c == ' ' then MorseSpaceLength
    else 0
  }

  /** Whether the segment loaded for a character sounds. */
  predicate SymbolBuzz(c: char)
    ensures SymbolBuzz(c) ==> IsMorseSymbol(c)
  {
    c == '.' || c == '-'
  }

  // ---------------------------------------------------------------------------
  // Command handler
  // ---------------------------------------------------------------------------

  /** beep: switch Morse playback off and start a plain beep. */
  function BeepSpec(s: State, duration: nat): (r: State)
    ensures WellFormed(s) ==> Inv(r)
  {
    s.(morsePos := MorseLength, morseDuration := 0, morseBuzz := false, beepDuration := duration)
  }

  /** Index of the first character that is not a Morse symbol, or |input| if there is none. */
  function FirstInvalid(input: seq<char>): (k: nat)
    ensures k <= |input|
    ensures forall i | 0 <= i < k :: IsMorseSymbol(input[i])
    ensures k < |input| ==> !IsMorseSymbol(input[k])
  {
    if input == [] then 0
    else if !IsMorseSymbol(input[0]) then 0
    else 1 + FirstInvalid(input[1..])
  }

  /**
   morse_code: switch the beep off, restart playback at slot 0, then copy the
   request into the buffer up to its first invalid character.
   */
  function MorseCodeSpec(s: State, input: seq<char>): (r: (Status, State))
    requires WellFormed(s) && |input| == MorseLength
    ensures Inv(r.1)
  {
    var k := FirstInvalid(input);
    var reset := s.(beepDuration := 0, morsePos := 0, morseDuration := 0, morseBuzz := false);
    (if k == |input| then Ok else InvalidParameter, reset.(morse := input[..k] + s.morse[k..]))
  }

  // ---------------------------------------------------------------------------
  // Playback engine
  // ---------------------------------------------------------------------------

  /** The message part of a tick: every latched flag is cleared and reported, beep first. */
  function MessageTick(s: State): (r: Step)
    ensures r.pulses == 0 && !r.next.beepFinished && !r.next.morseFinished
    ensures |r.sent| == (if s.beepFinished then 1 else 0) + (if s.morseFinished then 1 else 0)
  {
    var afterBeep := if s.beepFinished then s.(beepFinished := false) else s;
    var beepSent := if s.beepFinished then [BeepFinished] else [];
    var afterMorse := if afterBeep.morseFinished then afterBeep.(morseFinished := false) else afterBeep;
    var morseSent := if afterBeep.morseFinished then [MorseCodeFinished] else [];
    Step(afterMorse, 0, beepSent + morseSent)
  }

  /** The countdown engine at the start of a calculation tick. */
  function Countdown(s: State): (r: Step)
    ensures r.pulses <= 1 && r.sent == []
    ensures r.next.morse == s.morse && r.next.morsePos == s.morsePos
    ensures r.next.morseFinished == s.morseFinished
    ensures Inv(s) ==> Inv(r.next)
  {
    if s.beepDuration > 0 then
      var left := s.beepDuration - 1;
      Step(s.(beepDuration := left, beepFinished := if left == 0 then true else s.beepFinished), 1, [])
    else if s.morseDuration > 0 then
      var left := s.morseDuration - 1;
      if s.morseBuzz then
        if left == 0 then
          // pause after a dit or a dah
          Step(s.(morseBuzz := false, morseDuration := MorseSpaceLength), 1, [])
        else
          Step(s.(morseDuration := left), 1, [])
      else
        Step(s.(morseDuration := left), 0, [])
    else
      Step(s, 0, [])
  }

  /** One iteration of the symbol-advance loop: interpret the slot at the cursor, then move past it. */
  function AdvanceOnce(s: State): (r: State)
    requires WellFormed(s) && s.morsePos < MorseLength
    ensures WellFormed(r) && r.morsePos == s.morsePos + 1
    ensures r.morse == s.morse && r.beepDuration == s.beepDuration && r.beepFinished == s.beepFinished
    // a character that is not a Morse symbol loads nothing
    ensures !IsMorseSymbol(s.morse[s.morsePos]) ==> r.morseDuration == s.morseDuration && r.morseBuzz == s.morseBuzz
    ensures r.morseFinished == (s.morseFinished || r.morsePos == MorseLength)
    ensures Inv(s) && s.morseDuration == 0 ==> Inv(r)
  {
    var c := s.morse[s.morsePos];
    var loaded := if IsMorseSymbol(c) then s.(morseBuzz := SymbolBuzz(c), morseDuration := SymbolDuration(c)) else s;
    var pos := s.morsePos + 1;
    loaded.(morsePos := pos, morseFinished := if pos == MorseLength then true else loaded.morseFinished)
  }

  /** The symbol-advance loop: runs while slots remain and no segment is counting down. */
  function Advance(s: State): (r: State)
    requires WellFormed(s)
    ensures WellFormed(r) && s.morsePos <= r.morsePos
    ensures r.morse == s.morse && r.beepDuration == s.beepDuration && r.beepFinished == s.beepFinished
    // the loop only stops early on a loaded segment
    ensures r.morseDuration == 0 ==> r.morsePos == MorseLength
    // the Morse flag latches exactly when the cursor reaches the end
    ensures r.morseFinished == (s.morseFinished || (s.morsePos < MorseLength && r.morsePos == MorseLength))
    ensures Inv(s) ==> Inv(r)
    decreases MorseLength - s.morsePos
  {
    if s.morsePos < MorseLength && s.morseDuration == 0 then Advance(AdvanceOnce(s)) else s
  }

  /** The calculation part of a tick: the countdown engine, then the symbol-advance loop. */
  function CalculationTick(s: State): (r: Step)
    requires WellFormed(s)
    ensures WellFormed(r.next) && r.pulses <= 1 && r.sent == []
    ensures r.next.morse == s.morse && s.morsePos <= r.next.morsePos
    ensures r.next.morseDuration == 0 ==> r.next.morsePos == MorseLength
    ensures r.next.morseFinished == (s.morseFinished || (s.morsePos < MorseLength && r.next.morsePos == MorseLength))
    ensures Inv(s) ==> Inv(r.next)
  {
    var counted := Countdown(s);
    Step(Advance(counted.next), counted.pulses, [])
  }

  /** A whole tick: the message part when its bit is set, then the calculation part when its bit is set. */
  function TickSpec(s: State, message: bool, calculation: bool): (r: Step)
    requires WellFormed(s)
    ensures WellFormed(r.next) && r.pulses <= 1
    ensures Inv(s) ==> Inv(r.next)
  {
    var m := if message then MessageTick(s) else Step(s, 0, []);
    var c := if calculation then CalculationTick(m.next) else Step(m.next, 0, []);
    Step(c.next, c.pulses, m.sent)
  }

  /** n calculation ticks in a row, with the pulses they emit added up. */
  function RunCalculation(s: State, n: nat): (r: Step)
    requires WellFormed(s)
    ensures WellFormed(r.next) && r.pulses <= n && r.sent == []
    ensures r.next.morse == s.morse && s.morsePos <= r.next.morsePos
    ensures r.next.morseFinished == (s.morseFinished || (s.morsePos < MorseLength && r.next.morsePos == MorseLength))
    ensures Inv(s) ==> Inv(r.next)
    decreases n
  {
    if n == 0 then Step(s, 0, [])
    else
      var first := CalculationTick(s);
      var rest := RunCalculation(first.next, n - 1);
      Step(rest.next, first.pulses + rest.pulses, [])
  }

  // ---------------------------------------------------------------------------
  // Accounting of what a Morse playback still has to do
  // ---------------------------------------------------------------------------

  /** Pulses a stored character will produce once loaded. */
  function SymbolPulses(c: char): nat
  {
    if SymbolBuzz(c) then SymbolDuration(c) else 0
  }

  /** Calculation ticks a stored character occupies once loaded, with the pause after a tone. */
  function SymbolTicks(c: char): nat
  {
    SymbolDuration(c) + (if SymbolBuzz(c) then MorseSpaceLength else 0)
  }

  function SumPulses(m: seq<char>): nat
  {
    if m == [] then 0 else SymbolPulses(m[0]) + SumPulses(m[1..])
  }

  function SumTicks(m: seq<char>): nat
  {
    if m == [] then 0 else SymbolTicks(m[0]) + SumTicks(m[1..])
  }

  /** Pulses still to come from the running segment and the slots after the cursor. */
  function PendingPulses(s: State): nat
    requires WellFormed(s)
  {
    (if s.morseBuzz then s.morseDuration else 0) + SumPulses(s.morse[s.morsePos..])
  }

  /** Calculation ticks still to come from the running segment and the slots after the cursor. */
  function PendingTicks(s: State): nat
    requires WellFormed(s)
  {
    s.morseDuration + (if s.morseBuzz then MorseSpaceLength else 0) + SumTicks(s.morse[s.morsePos..])
  }
}
