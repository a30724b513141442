/**
 The piezo-buzzer driver as the firmware runs it: one context record whose
 fields the entry points update in place. Each method is proved to leave the
 record as the matching function of BuzzerState says, so everything proved in
 BuzzerProperties holds of the driver.
 */
module PiezoBuzzer {
  import opened BuzzerState

  /** A request as the dispatcher sees it, by function id. */
  datatype Request =
    | BeepRequest(duration: Uint32)
    | MorseCodeRequest(morse: seq<char>)
    | UnsupportedRequest   // any other function id

  class Buzzer {
    var beepDuration: Uint32
    var morse: array<char>
    var morsePos: nat
    var morseDuration: nat
    var morseBuzz: bool
    var beepFinished: bool
    var morseFinished: bool

    /** How often the pin has been pulsed, standing in for the hardware. */
    ghost var pulses: nat
    /** The notifications sent so far, standing in for the message transport. */
    ghost var sent: seq<Notification>

    ghost function Model(): State
      reads this, morse
    {
      State(beepDuration, morse[..], morsePos, morseDuration, morseBuzz, beepFinished, morseFinished)
    }

    ghost predicate Valid()
      reads this, morse
    {
      morse.Length == MorseLength && Inv(Model())
    }

    /** Initial state: nothing playing, cursor parked; the buffer's contents are left unspecified. */
    constructor ()
      ensures Valid() && fresh(morse)
      ensures beepDuration == 0 && morsePos == MorseLength && morseDuration == 0 && !morseBuzz
      ensures !beepFinished && !morseFinished
      ensures pulses == 0 && sent == []
    {
      morse := new char[MorseLength];
      morsePos := 60;
      morseDuration := 0;
      morseBuzz := false;
      beepDuration := 0;
      beepFinished, morseFinished := false, false;
      pulses, sent := 0, [];
    }

    /** One pulse of the pin. */
    method Buzz()
      modifies this`pulses
      ensures pulses == old(pulses) + 1
    {
      pulses := pulses + 1;
    }

    /** Switch Morse playback off and start a beep of the given number of calculation ticks. */
    method Beep(duration: Uint32)
      requires Valid()
      modifies this
      ensures Valid() && morse == old(morse)
      ensures beepDuration == duration
      ensures morsePos == MorseLength && morseDuration == 0 && !morseBuzz
      ensures beepFinished == old(beepFinished) && morseFinished == old(morseFinished)
      ensures Model() == BeepSpec(old(Model()), duration)
      ensures pulses == old(pulses) && sent == old(sent)
    {
      // disable Morse playback
      morsePos := MorseLength;
      morseDuration := 0;
      morseBuzz := false;
      // enable the beep
      beepDuration := duration;
    }

    /**
     Switch the beep off, restart Morse playback at slot 0, and copy the request
     into the buffer, stopping with InvalidParameter at its first character that
     is not a Morse symbol.
     */
    method MorseCode(input: seq<char>) returns (status: Status)
      requires Valid() && |input| == MorseLength
      modifies this, morse
      ensures Valid() && morse == old(morse)
      ensures (status, Model()) == MorseCodeSpec(old(Model()), input)
      ensures beepDuration == 0 && morsePos == 0 && morseDuration == 0 && !morseBuzz
      ensures beepFinished == old(beepFinished) && morseFinished == old(morseFinished)
      ensures pulses == old(pulses) && sent == old(sent)
    {
      // disable the beep
      beepDuration := 0;
      // enable Morse playback
      morsePos := 0;
      morseDuration := 0;
      morseBuzz := false;

      for i := 0 to MorseLength
        invariant morse == old(morse) && morse.Length == MorseLength
        invariant morse[..i] == input[..i]
        invariant morse[i..] == old(morse[i..])
        invariant forall j | 0 <= j < i :: IsMorseSymbol(input[j])
        invariant beepDuration == 0 && morsePos == 0 && morseDuration == 0 && !morseBuzz
        invariant beepFinished == old(beepFinished) && morseFinished == old(morseFinished)
        invariant pulses == old(pulses) && sent == old(sent)
      {
        if input[i] != '.' && input[i] != '-' && input[i] != ' ' {
          assert FirstInvalid(input) == i;
          assert morse[..] == input[..i] + old(morse[..])[i..];
          return InvalidParameter;
        }
        morse[i] := input[i];
      }
      assert morse[..] == input;
      assert input[..MorseLength] + old(morse[..])[MorseLength..] == input;
      return Ok;
    }

    /**
     One scheduler tick: the message part when the message bit is set, then the
     calculation part when the calculation bit is set.
     */
    method Tick(message: bool, calculation: bool)
      requires Valid()
      modifies this
      ensures Valid() && morse == old(morse)
      ensures var r := TickSpec(old(Model()), message, calculation);
        Model() == r.next && pulses == old(pulses) + r.pulses && sent == old(sent) + r.sent
    {
      if message {
        TickMessage();
      }
      if calculation {
        TickCalculation();
      }
    }

    /** The message part of a tick: report and clear each latched flag, beep first. */
    method TickMessage()
      requires Valid()
      modifies this
      ensures Valid() && morse == old(morse)
      ensures var r := MessageTick(old(Model()));
        Model() == r.next && pulses == old(pulses) && sent == old(sent) + r.sent
    {
      if beepFinished {
        beepFinished := false;
        sent := sent + [BeepFinished];
      }
      if morseFinished {
        morseFinished := false;
        sent := sent + [MorseCodeFinished];
      }
    }

    /** The calculation part of a tick: the countdown engine, then the symbol-advance loop. */
    method TickCalculation()
      requires Valid()
      modifies this
      ensures Valid() && morse == old(morse)
      ensures var r := CalculationTick(old(Model()));
        Model() == r.next && pulses == old(pulses) + r.pulses && sent == old(sent)
    {
      if beepDuration > 0 {
        beepDuration := beepDuration - 1;
        Buzz();
        if beepDuration == 0 {
          beepFinished := true;
        }
      } else if morseDuration > 0 {
        morseDuration := morseDuration - 1;
        if morseBuzz {
          Buzz();
          // pause after a dit or a dah
          if morseDuration == 0 {
            morseBuzz := false;
            morseDuration := MorseSpaceLength;
          }
        }
      }
      assert Model() == Countdown(old(Model())).next;
      AdvanceMorse();
    }

    /** The symbol-advance loop: load the next segment from the buffer, skipping other characters. */
    method AdvanceMorse()
      requires morse.Length == MorseLength && Inv(Model())
      modifies this
      ensures Valid() && morse == old(morse)
      ensures Model() == Advance(old(Model()))
      ensures pulses == old(pulses) && sent == old(sent)
    {
      var notReady := true;
      while morsePos < MorseLength && morseDuration == 0 && notReady
        invariant morse == old(morse) && morse.Length == MorseLength && Inv(Model())
        invariant Advance(Model()) == Advance(old(Model()))
        invariant !notReady ==> morseDuration > 0
        invariant pulses == old(pulses) && sent == old(sent)
        decreases MorseLength - morsePos
      {
        ghost var before := Model();
        var c := morse[morsePos];
        if c == '.' {
          morseBuzz := true;
          morseDuration := MorseDitLength;
          notReady := false;
        } else if c == '-' {
          morseBuzz := true;
          morseDuration := MorseDahLength;
          notReady := false;
        } else if c == ' ' {
          morseBuzz := false;
          morseDuration := MorseSpaceLength;
          notReady := false;
        }
        morsePos := morsePos + 1;
        if morsePos == MorseLength {
          morseFinished := true;
        }
        assert Model() == AdvanceOnce(before);
      }
    }

    /** The dispatcher: beep, morse_code, or NotSupported with nothing changed. */
    method Invocation(request: Request) returns (status: Status)
      requires Valid()
      requires request.MorseCodeRequest? ==> |request.morse| == MorseLength
      modifies this, morse
      ensures Valid() && morse == old(morse)
      ensures pulses == old(pulses) && sent == old(sent)
      ensures request.BeepRequest? ==> status == Ok && Model() == BeepSpec(old(Model()), request.duration)
      ensures request.MorseCodeRequest? ==> (status, Model()) == MorseCodeSpec(old(Model()), request.morse)
      ensures request.UnsupportedRequest? ==> status == NotSupported && Model() == old(Model())
    {
      match request
      case BeepRequest(duration) =>
        Beep(duration);
        status := Ok;
      case MorseCodeRequest(m) =>
        status := MorseCode(m);
      case UnsupportedRequest =>
        status := NotSupported;
    }
  }
}
