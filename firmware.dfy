/** The firmware's global state as an object updated in place, and the
    routines of the main loop: the body of main's while(1), the key dispatch
    inside it, updateDisplayData, displayNumber, calculatePercentage and
    multiplexDisplays. Each is proved against the value-level model in
    Counter and Display. */
module Firmware {

  import opened Keypad
  import opened Display
  import opened Counter

  class CounterFirmware {
    /** Counts of keys 0 .. 7 (16-bit unsigned int on the target). */
    var keyCount: array<nat>
    /** Presses counted across all keys since the last reset (32-bit). */
    var totalPulses: nat
    /** false = show counts, true = show percentages. */
    var displayMode: bool
    /** The digits shown: hundreds, tens, units. */
    var displayDigits: array<nat>
    /** main's local lastKey: the first scan of the previous iteration, or 0xFF. */
    var lastKey: nat

    /** The arrays have the sizes the globals are declared with. */
    ghost predicate Shaped()
      reads this
    {
      keyCount.Length == COUNTERS && displayDigits.Length == DIGITS && keyCount != displayDigits
    }

    /** The state as a value. */
    ghost function Abstract(): State
      reads this, keyCount, displayDigits
    {
      State(keyCount[..], totalPulses, displayMode, displayDigits[..], lastKey)
    }

    ghost predicate Valid()
      reads this, keyCount, displayDigits
    {
      Shaped() && Good(Abstract())
    }

    /** Power-on: the globals are zero-initialised and main sets lastKey to 0xFF. */
    constructor ()
      ensures Valid() && fresh(keyCount) && fresh(displayDigits)
      ensures Abstract() == Init()
    {
      keyCount := new nat[COUNTERS](_ => 0);
      totalPulses := 0;
      displayMode := false;
      displayDigits := new nat[DIGITS](_ => 0);
      lastKey := NO_KEY;
      new;
      assert keyCount[..] == Zeros(COUNTERS);
      assert displayDigits[..] == [0, 0, 0];
      assert Abstract() == Init();
    }

    /** displayNumber: store the three digits of the number, saturated at 999. */
    method DisplayNumber(number: nat)
      requires Shaped()
      modifies displayDigits
      ensures displayDigits[..] == Digits(number)
    {
      var n := number;
      if n > MAX_SHOWN { n := MAX_SHOWN; }
      displayDigits[0] := n / 100;
      displayDigits[1] := (n % 100) / 10;
      displayDigits[2] := n % 10;
      assert displayDigits[..] == [n / 100, (n % 100) / 10, n % 10];
    }

    /** calculatePercentage: show key k's share of the total, 0 when the total is 0. */
    method CalculatePercentage(k: nat)
      requires Shaped() && k < COUNTERS
      modifies displayDigits
      ensures displayDigits[..] == Digits(Percentage(keyCount[k], totalPulses))
    {
      var percentage := 0;
      if totalPulses > 0 {
        percentage := (keyCount[k] * 100) / totalPulses;
      }
      DisplayNumber(percentage);
    }

    /** updateDisplayData: show key k under the current mode. */
    method UpdateDisplayData(k: nat)
      requires Shaped() && k < COUNTERS
      modifies displayDigits
      ensures displayDigits[..] == Shown(keyCount[..], totalPulses, displayMode, k)
    {
      if !displayMode {
        DisplayNumber(keyCount[k]);
      } else {
        CalculatePercentage(k);
      }
    }

    /** multiplexDisplays: for each digit in turn, select it, drive its
        segment pattern, then blank the segments. Returns the port writes. */
    method MultiplexDisplays() returns (trace: seq<PortWrite>)
      requires Valid()
      ensures trace == Pass(displayDigits[..])
    {
      ghost var d := displayDigits[..];
      trace := [];
      var displayIndex := 0;
      while displayIndex < DIGITS
        invariant 0 <= displayIndex <= DIGITS
        invariant trace == Frames(d, displayIndex)
      {
        ghost var before := trace;
        trace := trace + [SelectDigit(DigitSelect(displayIndex))];
        trace := trace + [Segments(SEGMENT_PATTERNS[displayDigits[displayIndex]])];
        trace := trace + [Segments(0x00)];
        assert trace == before + Frame(displayIndex, d[displayIndex]);
        displayIndex := displayIndex + 1;
      }
    }

    /** A confirmed counting key: count it, count the pulse, show the key. */
    method CountKey(k: nat)
      requires Shaped() && k < COUNTERS
      modifies this, keyCount, displayDigits
      ensures Shaped() && keyCount == old(keyCount) && displayDigits == old(displayDigits)
      ensures Abstract() == Dispatch(old(Abstract()), k)
    {
      keyCount[k] := (keyCount[k] + 1) % COUNT_MODULUS;
      totalPulses := (totalPulses + 1) % TOTAL_MODULUS;
      UpdateDisplayData(k);
    }

    /** The Reset key: zero every count and the total, and show 000. */
    method ResetCounters()
      requires Shaped()
      modifies this, keyCount, displayDigits
      ensures Shaped() && keyCount == old(keyCount) && displayDigits == old(displayDigits)
      ensures Abstract() == Dispatch(old(Abstract()), RESET_KEY)
    {
      for i := 0 to COUNTERS
        modifies keyCount
        invariant forall j :: 0 <= j < i ==> keyCount[j] == 0
      {
        keyCount[i] := 0;
      }
      assert keyCount[..] == Zeros(COUNTERS);
      totalPulses := 0;
      displayDigits[0] := 0;
      displayDigits[1] := 0;
      displayDigits[2] := 0;
      assert displayDigits[..] == [0, 0, 0];
    }

    /** The Function key: toggle the mode and show key 0 under the new mode. */
    method ToggleMode()
      requires Shaped()
      modifies this, displayDigits
      ensures Shaped() && keyCount == old(keyCount) && displayDigits == old(displayDigits)
      ensures Abstract() == Dispatch(old(Abstract()), FUNCTION_KEY)
    {
      displayMode := !displayMode;
      if !displayMode {
        UpdateDisplayData(0);
      } else {
        CalculatePercentage(0);
      }
    }

    /** The dispatch of a confirmed key inside main's loop: count, reset or
        toggle the mode; scan results 10 and 11 do nothing. */
    method DispatchKey(keyPressed: nat)
      requires Shaped()
      modifies this, keyCount, displayDigits
      ensures Shaped() && keyCount == old(keyCount) && displayDigits == old(displayDigits)
      ensures Abstract() == Dispatch(old(Abstract()), keyPressed)
    {
      if keyPressed < COUNTERS {
        CountKey(keyPressed);
      } else if keyPressed == RESET_KEY {
        ResetCounters();
      } else if keyPressed == FUNCTION_KEY {
        ToggleMode();
      }
    }

    /** The key handling of main's while(1): scan, and when the scan shows
        a key that is not lastKey, scan again and dispatch the key only if
        the second scan agrees; lastKey records the first scan. first and
        second are the column readings seen by the two scans. */
    method HandleKeys(first: seq<bv4>, second: seq<bv4>)
      requires Shaped() && |first| == ROWS && |second| == ROWS
      modifies this, keyCount, displayDigits
      ensures Shaped() && keyCount == old(keyCount) && displayDigits == old(displayDigits)
      ensures Abstract() == Step(old(Abstract()), Decode(first), Decode(second))
    {
      var keyPressed, _ := ScanKeys(first);
      if keyPressed != NO_KEY && keyPressed != lastKey {
        var again, _ := ScanKeys(second);
        if keyPressed == again {
          DispatchKey(keyPressed);
        }
        lastKey := keyPressed;
      } else if keyPressed == NO_KEY {
        lastKey := NO_KEY;
      }
    }

    /** One iteration of main's while(1): the key handling, then one
        multiplex pass, whose port writes are returned. */
    method LoopIteration(first: seq<bv4>, second: seq<bv4>) returns (trace: seq<PortWrite>)
      requires Valid() && |first| == ROWS && |second| == ROWS
      modifies this, keyCount, displayDigits
      ensures Valid() && keyCount == old(keyCount) && displayDigits == old(displayDigits)
      ensures Abstract() == Step(old(Abstract()), Decode(first), Decode(second))
      ensures trace == Pass(displayDigits[..])
    {
      StepGood(Abstract(), Decode(first), Decode(second));
      HandleKeys(first, second);
      trace := MultiplexDisplays();
    }
  }
}
