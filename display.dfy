/** The three-digit seven-segment display: the digit-to-pattern table, the
    split of a value into hundreds, tens and units (displayNumber), the
    percentage shown in percentage mode (calculatePercentage), and the port
    writes of one multiplex pass (multiplexDisplays). */
module Display {

  import opened Bits

  /** Number of multiplexed digits. */
  const DIGITS: nat := 3

  /** Largest value three decimal digits can show. */
  const MAX_SHOWN: nat := 999

  /** Segment pattern per decimal digit, common-cathode wiring (bit 0 = segment a). */
  const SEGMENT_PATTERNS: seq<bv8> := [0x3F, 0x06, 0x5B, 0x4F, 0x66, 0x6D, 0x7D, 0x07, 0x7F, 0x67]

  predicate IsDigit(d: nat) { d <= 9 }

  /** The table has a pattern for every decimal digit; no pattern is the
      blank 0x00, and no two digits share a pattern, so every digit shown
      lights some segment and can be told apart from every other. */
  lemma SegmentPatternsDistinct()
    ensures |SEGMENT_PATTERNS| == 10
    ensures forall i :: 0 <= i < 10 ==> SEGMENT_PATTERNS[i] != 0x00
    ensures forall i, j :: 0 <= i < j < 10 ==> SEGMENT_PATTERNS[i] != SEGMENT_PATTERNS[j]
  {
  }

  /** A display snapshot: three decimal digits, hundreds first. */
  predicate IsSnapshot(d: seq<nat>)
  {
    |d| == DIGITS && forall i :: 0 <= i < |d| ==> IsDigit(d[i])
  }

  function Min(a: nat, b: nat): nat { if a <= b then a else b }

  /** The digits displayNumber stores: the number saturated at 999, split
      into hundreds, tens and units. */
  function Digits(number: nat): (d: seq<nat>)
    ensures IsSnapshot(d)
    ensures 100 * d[0] + 10 * d[1] + d[2] == Min(number, MAX_SHOWN)
  {
    var n := if number > MAX_SHOWN then MAX_SHOWN else number;
    DecimalSplit(n);
    [n / 100, (n % 100) / 10, n % 10]
  }

  /** Hundreds, tens and units of a value below 1000 are digits and add back up to it. */
  lemma DecimalSplit(n: nat)
    requires n <= MAX_SHOWN
    ensures n / 100 <= 9 && (n % 100) / 10 <= 9 && n % 10 <= 9
    ensures n == 100 * (n / 100) + 10 * ((n % 100) / 10) + n % 10
  {
    var h, r := n / 100, n % 100;
    assert n == 100 * h + r;
    var t, u := r / 10, r % 10;
    assert r == 10 * t + u;
    assert n % 10 == u by {
      assert n == 10 * (10 * h + t) + u;
      UniqueDivision(n, 10 * h + t, u);
    }
  }

  /** Three decimal digits denote a value in one way only, so Digits is the
      decimal representation of the saturated value and nothing else. */
  lemma DigitsUnique(number: nat, d: seq<nat>)
    requires IsSnapshot(d)
    requires 100 * d[0] + 10 * d[1] + d[2] == Min(number, MAX_SHOWN)
    ensures d == Digits(number)
  {
    var e := Digits(number);
    assert IsDigit(d[0]) && IsDigit(d[1]) && IsDigit(d[2]);
    assert IsDigit(e[0]) && IsDigit(e[1]) && IsDigit(e[2]);
    var n := Min(number, MAX_SHOWN);
    UniqueDivision(n, 10 * d[0] + d[1], d[2]);
    UniqueDivision(n, 10 * e[0] + e[1], e[2]);
    UniqueDivision(n / 10, d[0], d[1]);
    UniqueDivision(n / 10, e[0], e[1]);
  }

  /** Quotient and remainder by ten are determined by the dividend. */
  lemma UniqueDivision(n: nat, q: nat, r: nat)
    requires r < 10 && n == 10 * q + r
    ensures n / 10 == q && n % 10 == r
  {
  }

  /** A value that fits is shown exactly; a larger one reads 999. */
  lemma DigitsSaturate(number: nat)
    ensures number > MAX_SHOWN ==> Digits(number) == [9, 9, 9]
    ensures number <= MAX_SHOWN ==> 100 * Digits(number)[0] + 10 * Digits(number)[1] + Digits(number)[2] == number
  {
    if number > MAX_SHOWN {
      DigitsUnique(number, [9, 9, 9]);
    }
  }

  /** The percentage calculatePercentage shows: count * 100 / total
      truncated toward zero, and 0 when total is 0. */
  function Percentage(count: nat, total: nat): (p: nat)
    ensures total == 0 ==> p == 0
    ensures count <= total ==> p <= 100
  {
    if total > 0 then
      var q := (count * 100) / total;
      DivisionTruncates(count * 100, total);
      if count <= total then
        MulCancel(q, 100, total);
        q
      else q
    else 0
  }

  /** The percentage is the quotient truncated toward zero. */
  lemma PercentageTruncates(count: nat, total: nat)
    requires total > 0
    ensures Percentage(count, total) * total <= count * 100 < (Percentage(count, total) + 1) * total
  {
    DivisionTruncates(count * 100, total);
  }

  lemma DivisionTruncates(a: nat, b: nat)
    requires b > 0
    ensures (a / b) * b <= a < (a / b + 1) * b
  {
  }

  /** A key's count never above the total gives at most 100 per cent, so the
      hundreds digit shown is at most 1. */
  lemma PercentageAtMostHundred(count: nat, total: nat)
    requires count <= total
    ensures Digits(Percentage(count, total))[0] <= 1
  {
    var d := Digits(Percentage(count, total));
    assert 100 * d[0] <= Percentage(count, total);
  }

  lemma MulCancel(a: nat, b: nat, c: nat)
    requires c > 0 && a * c <= b * c
    ensures a <= b
  {
  }

  /** One write to an output port during a multiplex pass. */
  datatype PortWrite =
    | SelectDigit(porta: bv8)   // PORTA: which digit receives segment drive
    | Segments(portb: bv8)      // PORTB: the segment pattern

  /** The PORTA value that selects digit i: 1 << i. */
  function DigitSelect(i: nat): bv8
    requires i < DIGITS
  {
    (1 as bv8) << i
  }

  /** The select value is one-hot: bit i is set and no other. */
  lemma DigitSelectOneHot(i: nat)
    requires i < DIGITS
    ensures forall j :: 0 <= j < 8 ==> (Bit(DigitSelect(i), j) <==> j == i)
  {
    if i == 0 {
      assert DigitSelect(i) == 0x01;
    } else if i == 1 {
      assert DigitSelect(i) == 0x02;
    } else {
      assert DigitSelect(i) == 0x04;
    }
  }

  /** The three writes that show digit d at position i: select it, drive its
      pattern, then blank the segments before the next position. */
  function Frame(i: nat, d: nat): seq<PortWrite>
    requires i < DIGITS && IsDigit(d)
  {
    [SelectDigit(DigitSelect(i)), Segments(SEGMENT_PATTERNS[d]), Segments(0x00)]
  }

  /** The writes of positions 0 .. n-1 of a multiplex pass over snapshot d. */
  function Frames(d: seq<nat>, n: nat): (t: seq<PortWrite>)
    requires IsSnapshot(d) && n <= DIGITS
    ensures |t| == 3 * n
  {
    if n == 0 then [] else Frames(d, n - 1) + Frame(n - 1, d[n - 1])
  }

  /** The writes of one full multiplex pass over snapshot d. */
  function Pass(d: seq<nat>): (t: seq<PortWrite>)
    requires IsSnapshot(d)
    ensures |t| == 3 * DIGITS
  {
    Frames(d, DIGITS)
  }

  /** A pass is the three frames of positions 0, 1, 2 in order. */
  lemma PassFrames(d: seq<nat>)
    requires IsSnapshot(d)
    ensures Pass(d) == Frame(0, d[0]) + Frame(1, d[1]) + Frame(2, d[2])
  {
    assert Frames(d, 1) == Frame(0, d[0]) by {
      assert Frames(d, 1) == [] + Frame(0, d[0]);
    }
    assert Frames(d, 2) == Frame(0, d[0]) + Frame(1, d[1]);
    assert Frames(d, 3) == Frames(d, 2) + Frame(2, d[2]);
  }

  lemma DigitSelectValues()
    ensures DigitSelect(0) == 0x01 && DigitSelect(1) == 0x02 && DigitSelect(2) == 0x04
  {
  }

  /** Shape of a pass: nine writes; for digits 0, 1, 2 in that order, the
      select 1 << i, the digit's table pattern, and a blank. */
  lemma PassShape(d: seq<nat>)
    requires IsSnapshot(d)
    ensures Pass(d) == [
      SelectDigit(0x01), Segments(SEGMENT_PATTERNS[d[0]]), Segments(0x00),
      SelectDigit(0x02), Segments(SEGMENT_PATTERNS[d[1]]), Segments(0x00),
      SelectDigit(0x04), Segments(SEGMENT_PATTERNS[d[2]]), Segments(0x00)]
  {
    PassFrames(d);
    DigitSelectValues();
  }

  /** The digit-select values written by a trace, in order. */
  function Selects(t: seq<PortWrite>): seq<bv8>
  {
    if t == [] then []
    else Selects(t[..|t| - 1]) + (if t[|t| - 1].SelectDigit? then [t[|t| - 1].porta] else [])
  }

  lemma {:induction false} SelectsAppend(a: seq<PortWrite>, b: seq<PortWrite>)
    ensures Selects(a + b) == Selects(a) + Selects(b)
    decreases |b|
  {
    if b == [] {
      assert a + b == a;
    } else {
      var n := |b| - 1;
      var last := if b[n].SelectDigit? then [b[n].porta] else [];
      assert (a + b)[..|a + b| - 1] == a + b[..n];
      assert (a + b)[|a + b| - 1] == b[n];
      assert Selects(a + b) == Selects(a + b[..n]) + last;
      assert Selects(b) == Selects(b[..n]) + last;
      SelectsAppend(a, b[..n]);
    }
  }

  /** The select values of positions 0 .. n-1, in order. */
  function SelectsUpTo(n: nat): seq<bv8>
    requires n <= DIGITS
  {
    if n == 0 then [] else SelectsUpTo(n - 1) + [DigitSelect(n - 1)]
  }

  lemma {:induction false} SelectsFrames(d: seq<nat>, n: nat)
    requires IsSnapshot(d) && n <= DIGITS
    ensures Selects(Frames(d, n)) == SelectsUpTo(n)
  {
    if n > 0 {
      SelectsFrames(d, n - 1);
      SelectsAppend(Frames(d, n - 1), Frame(n - 1, d[n - 1]));
      SelectsFrame(n - 1, d[n - 1]);
    }
  }

  /** A frame selects its own position once. */
  lemma SelectsFrame(i: nat, x: nat)
    requires i < DIGITS && IsDigit(x)
    ensures Selects(Frame(i, x)) == [DigitSelect(i)]
  {
    var f := Frame(i, x);
    assert f[..1][..0] == [];
    assert Selects(f[..1]) == [DigitSelect(i)];
    assert f[..2][..1] == f[..1];
    assert Selects(f[..2]) == Selects(f[..1]);
    assert f[..3 - 1] == f[..2];
  }

  /** Each digit is selected exactly once per pass and in the order 0, 1,
      2, with the one-hot values 1 << i. */
  lemma PassSelectsEachDigitOnce(d: seq<nat>)
    requires IsSnapshot(d)
    ensures Selects(Pass(d)) == [DigitSelect(0), DigitSelect(1), DigitSelect(2)]
  {
    SelectsFrames(d, DIGITS);
    assert SelectsUpTo(1) == [DigitSelect(0)];
  }

  /** The segments are blanked immediately before every select after the
      first, so no pattern is shown on the wrong digit. */
  lemma PassBlanksBeforeSelect(d: seq<nat>)
    requires IsSnapshot(d)
    ensures forall k :: 0 < k < |Pass(d)| && Pass(d)[k].SelectDigit? ==>
      Pass(d)[k - 1] == Segments(0x00)
  {
    PassShape(d);
    var t := Pass(d);
    forall k | 0 < k < |t| && t[k].SelectDigit? ensures t[k - 1] == Segments(0x00) {
      assert k == 3 || k == 6;
    }
  }

  /** A digit's pattern is written only right after that digit's select:
      a non-blank segment write sits at position 3i+1, follows the select
      1 << i, and is the table pattern of digit i. */
  lemma PassPatternAfterSelect(d: seq<nat>)
    requires IsSnapshot(d)
    ensures |Pass(d)| == 9
    ensures forall k :: 0 <= k < |Pass(d)| && Pass(d)[k].Segments? && Pass(d)[k].portb != 0x00 ==>
      k % 3 == 1 && Pass(d)[k - 1] == SelectDigit(DigitSelect(k / 3)) &&
      Pass(d)[k].portb == SEGMENT_PATTERNS[d[k / 3]]
  {
    PassShape(d);
    DigitSelectValues();
    var t := Pass(d);
    forall k | 0 <= k < |t| && t[k].Segments? && t[k].portb != 0x00
      ensures k % 3 == 1 && t[k - 1] == SelectDigit(DigitSelect(k / 3)) &&
        t[k].portb == SEGMENT_PATTERNS[d[k / 3]]
    {
      assert k == 1 || k == 4 || k == 7;
    }
  }
}
