/** The counter's state and one iteration of the main loop, as values: the
    debounce and edge test on the two scans, the dispatch of a confirmed key
    (count, reset, mode toggle), and the display snapshot it recomputes.
    Firmware proves the in-place implementation equal to Step. */
module Counter {

  import opened Keypad
  import opened Display

  /** Number of counting keys (0 .. 7). */
  const COUNTERS: nat := 8

  /** keyCount[] is `unsigned int` (16 bits on the target); totalPulses is
      `unsigned long` (32 bits). Both wrap on overflow. */
  const COUNT_MODULUS: nat := 0x1_0000
  const TOTAL_MODULUS: nat := 0x1_0000_0000

  /** The program's globals plus main's lastKey, which the loop carries from
      one iteration to the next. percentMode is displayMode != 0. */
  datatype State = State(
    counts: seq<nat>,
    total: nat,
    percentMode: bool,
    digits: seq<nat>,
    lastKey: nat)

  function Sum(s: seq<nat>): nat
  {
    if s == [] then 0 else Sum(s[..|s| - 1]) + s[|s| - 1]
  }

  function Zeros(n: nat): (z: seq<nat>)
    ensures |z| == n && forall i :: 0 <= i < n ==> z[i] == 0
  {
    seq(n, _ => 0)
  }

  /** Well-formed states: the array sizes, the integer widths, digits in
      0 .. 9 (so the segment table is indexed in bounds), lastKey a value
      scanKeys returns, and the total agreeing with the sum of the counts
      modulo the counters' width. */
  predicate Good(s: State)
  {
    |s.counts| == COUNTERS &&
    (forall j :: 0 <= j < COUNTERS ==> s.counts[j] < COUNT_MODULUS) &&
    s.total < TOTAL_MODULUS &&
    IsSnapshot(s.digits) &&
    IsScanResult(s.lastKey) &&
    s.total % COUNT_MODULUS == Sum(s.counts) % COUNT_MODULUS
  }

  /** The power-on state: globals zero-initialised, lastKey = 0xFF. */
  function Init(): (s: State)
    ensures Good(s)
  {
    SumZeros(COUNTERS);
    State(Zeros(COUNTERS), 0, false, [0, 0, 0], NO_KEY)
  }

  /** The digits updateDisplayData produces for key k: its raw count, or
      its percentage of the total in percentage mode. */
  function Shown(counts: seq<nat>, total: nat, percentMode: bool, k: nat): (d: seq<nat>)
    requires k < |counts|
    ensures IsSnapshot(d)
  {
    if percentMode then Digits(Percentage(counts[k], total)) else Digits(counts[k])
  }

  /** The effect of a confirmed key. It leaves lastKey alone: the loop
      records the scan in lastKey separately. */
  function Dispatch(s: State, key: nat): (t: State)
    requires |s.counts| == COUNTERS
    ensures |t.counts| == COUNTERS && t.lastKey == s.lastKey
  {
    if key < COUNTERS then
      var counts := s.counts[key := (s.counts[key] + 1) % COUNT_MODULUS];
      var total := (s.total + 1) % TOTAL_MODULUS;
      s.(counts := counts, total := total, digits := Shown(counts, total, s.percentMode, key))
    else if key == RESET_KEY then
      s.(counts := Zeros(COUNTERS), total := 0, digits := [0, 0, 0])
    else if key == FUNCTION_KEY then
      s.(percentMode := !s.percentMode, digits := Shown(s.counts, s.total, !s.percentMode, 0))
    else
      s
  }

  /** A first scan that is a key, is not the key already seen, and is
      confirmed by the second scan: the only case that dispatches. */
  predicate Accepts(s: State, first: nat, second: nat)
  {
    first != NO_KEY && first != s.lastKey && first == second
  }

  /** One iteration of the main loop, given the results of the first scan
      and of the reconfirming scan (only taken when the first scan is a new
      key). lastKey becomes the first scan whenever that was a new key, even
      when the reconfirmation fails. */
  function Step(s: State, first: nat, second: nat): (t: State)
    requires |s.counts| == COUNTERS
    ensures |t.counts| == COUNTERS
    ensures t.lastKey == first
  {
    if first != NO_KEY && first != s.lastKey then
      var t := if first == second then Dispatch(s, first) else s;
      t.(lastKey := first)
    else if first == NO_KEY then
      s.(lastKey := NO_KEY)
    else
      s
  }

  /** The counter part of a state: everything but lastKey, which is
      replaced by NO_KEY. */
  function WithoutLastKey(s: State): (c: State)
    ensures c.lastKey == NO_KEY
  {
    s.(lastKey := NO_KEY)
  }

  // ---- Sums ----------------------------------------------------------------

  lemma {:induction false} SumUpdate(s: seq<nat>, k: nat, v: nat)
    requires k < |s|
    ensures Sum(s[k := v]) + s[k] == Sum(s) + v
  {
    var n := |s| - 1;
    var u := s[k := v];
    assert u[..n] == if k < n then s[..n][k := v] else s[..n];
    if k < n {
      SumUpdate(s[..n], k, v);
    }
  }

  lemma {:induction false} SumZeros(n: nat)
    ensures Sum(Zeros(n)) == 0
  {
    if n > 0 {
      assert Zeros(n)[..n - 1] == Zeros(n - 1);
      SumZeros(n - 1);
    }
  }

  lemma {:induction false} ElementAtMostSum(s: seq<nat>, k: nat)
    requires k < |s|
    ensures s[k] <= Sum(s)
  {
    var n := |s| - 1;
    if k < n {
      assert s[..n][k] == s[k];
      ElementAtMostSum(s[..n], k);
    }
  }

  /** Wrapping the 32-bit total keeps its low 16 bits. */
  lemma TotalWrapKeepsLowBits(x: nat)
    ensures (x % TOTAL_MODULUS) % COUNT_MODULUS == x % COUNT_MODULUS
  {
    var q := x / TOTAL_MODULUS;
    assert x == TOTAL_MODULUS * q + x % TOTAL_MODULUS;
    assert TOTAL_MODULUS * q == COUNT_MODULUS * (COUNT_MODULUS * q);
    ModAddMultiple(x % TOTAL_MODULUS, COUNT_MODULUS * q);
  }

  lemma ModAddMultiple(r: nat, m: nat)
    ensures (r + COUNT_MODULUS * m) % COUNT_MODULUS == r % COUNT_MODULUS
  {
  }

  lemma ModSucc(a: nat, b: nat)
    requires a % COUNT_MODULUS == b % COUNT_MODULUS
    ensures (a + 1) % COUNT_MODULUS == (b + 1) % COUNT_MODULUS
  {
  }

  // ---- One step ------------------------------------------------------------

  /** A confirmed counting key k adds one to keyCount[k] and one to
      totalPulses (each wrapping at its width), leaves the other counts and
      the mode alone, and shows key k. While nothing has wrapped, the total
      stays exactly the sum of the counts. */
  lemma StepCountKey(s: State, k: nat)
    requires Good(s) && k < COUNTERS && k != s.lastKey
    ensures var t := Step(s, k, k);
      t.counts[k] == (s.counts[k] + 1) % COUNT_MODULUS &&
      t.total == (s.total + 1) % TOTAL_MODULUS &&
      (forall j :: 0 <= j < COUNTERS && j != k ==> t.counts[j] == s.counts[j]) &&
      t.percentMode == s.percentMode &&
      t.digits == Shown(t.counts, t.total, t.percentMode, k) &&
      t.lastKey == k
    ensures var t := Step(s, k, k);
      s.total == Sum(s.counts) && s.counts[k] + 1 < COUNT_MODULUS && s.total + 1 < TOTAL_MODULUS ==>
        t.counts[k] == s.counts[k] + 1 && t.total == s.total + 1 && t.total == Sum(t.counts)
  {
    SumUpdate(s.counts, k, s.counts[k] + 1);
  }

  /** A confirmed Reset clears every count and the total and shows 000; the
      mode is kept. */
  lemma StepReset(s: State)
    requires Good(s) && s.lastKey != RESET_KEY
    ensures var t := Step(s, RESET_KEY, RESET_KEY);
      t.counts == Zeros(COUNTERS) && t.total == 0 && Sum(t.counts) == t.total &&
      t.digits == [0, 0, 0] && t.percentMode == s.percentMode && t.lastKey == RESET_KEY
  {
    SumZeros(COUNTERS);
  }

  /** A confirmed Function key flips the mode, keeps the counts and the
      total, and shows key 0 under the new mode: its raw count when back in
      count mode, its percentage when in percentage mode. */
  lemma StepFunction(s: State)
    requires Good(s) && s.lastKey != FUNCTION_KEY
    ensures var t := Step(s, FUNCTION_KEY, FUNCTION_KEY);
      t.percentMode == !s.percentMode &&
      t.counts == s.counts && t.total == s.total &&
      t.digits == (if t.percentMode then Digits(Percentage(s.counts[0], s.total))
                   else Digits(s.counts[0])) &&
      t.lastKey == FUNCTION_KEY
  {
  }

  /** The debounce and edge rules. Nothing is dispatched unless Accepts
      holds: a 0xFF scan only clears lastKey, a held key changes nothing, a
      failed reconfirmation only records the first scan in lastKey. Scan
      results 10 and 11 never change the counters. */
  lemma StepDebounce(s: State, first: nat, second: nat)
    requires Good(s)
    ensures first == NO_KEY ==> Step(s, first, second) == s.(lastKey := NO_KEY)
    ensures first != NO_KEY && first == s.lastKey ==> Step(s, first, second) == s
    ensures first != NO_KEY && first != s.lastKey && first != second ==>
      Step(s, first, second) == s.(lastKey := first)
    ensures Accepts(s, first, second) ==>
      Step(s, first, second) == Dispatch(s, first).(lastKey := first)
    ensures !Accepts(s, first, second) || COUNTERS + 2 <= first ==>
      WithoutLastKey(Step(s, first, second)) == WithoutLastKey(s)
  {
  }

  /** Counting a key keeps the state well formed: keyCount[k] and
      totalPulses each wrap at their own width, and the total still agrees
      with the sum of the counts modulo 65536. */
  lemma CountGood(s: State, k: nat)
    requires Good(s) && k < COUNTERS
    ensures Good(Dispatch(s, k))
  {
    var t := Dispatch(s, k);
    var c := s.counts[k];
    var c' := (c + 1) % COUNT_MODULUS;
    assert t.counts == s.counts[k := c'];
    SumUpdate(s.counts, k, c');
    TotalWrapKeepsLowBits(s.total + 1);
    ModSucc(s.total, Sum(s.counts));
    assert t.total % COUNT_MODULUS == (Sum(s.counts) + 1) % COUNT_MODULUS;
    if c + 1 == COUNT_MODULUS {
      assert Sum(t.counts) + COUNT_MODULUS == Sum(s.counts) + 1;
      ModAddMultiple(Sum(t.counts), 1);
    } else {
      assert Sum(t.counts) == Sum(s.counts) + 1;
    }
    assert t.total % COUNT_MODULUS == Sum(t.counts) % COUNT_MODULUS;
    assert forall j :: 0 <= j < COUNTERS ==> t.counts[j] < COUNT_MODULUS;
  }

  /** A dispatch keeps a state well formed. */
  lemma DispatchGood(s: State, key: nat)
    requires Good(s)
    ensures Good(Dispatch(s, key))
  {
    if key < COUNTERS {
      CountGood(s, key);
    } else if key == RESET_KEY {
      SumZeros(COUNTERS);
    }
  }

  /** Step keeps a state well formed, for scan results scanKeys can return. */
  lemma StepGood(s: State, first: nat, second: nat)
    requires Good(s) && IsScanResult(first)
    ensures Good(Step(s, first, second))
  {
    if Accepts(s, first, second) {
      DispatchGood(s, first);
    }
  }

  // ---- Runs of steps -------------------------------------------------------

  /** The two scans of one main-loop iteration. */
  datatype Scans = Scans(first: nat, second: nat)

  /** The state after running one iteration per element of scans. */
  function Run(s: State, scans: seq<Scans>): State
    requires |s.counts| == COUNTERS
    decreases |scans|
  {
    if scans == [] then s
    else
      Run(Step(s, scans[0].first, scans[0].second), scans[1..])
  }

  /** The number of keys dispatched while running scans. */
  function Events(s: State, scans: seq<Scans>): nat
    requires |s.counts| == COUNTERS
    decreases |scans|
  {
    if scans == [] then 0
    else
      (if Accepts(s, scans[0].first, scans[0].second) then 1 else 0) +
      Events(Step(s, scans[0].first, scans[0].second), scans[1..])
  }

  /** Every first scan of the run reads key k. */
  predicate Held(scans: seq<Scans>, k: nat)
  {
    forall i :: 0 <= i < |scans| ==> scans[i].first == k
  }

  /** While the key already recorded in lastKey stays down nothing happens. */
  lemma {:induction false} HeldSeenKeyIsIgnored(s: State, scans: seq<Scans>)
    requires |s.counts| == COUNTERS && s.lastKey != NO_KEY
    requires Held(scans, s.lastKey)
    ensures Run(s, scans) == s && Events(s, scans) == 0
    decreases |scans|
  {
    if scans != [] {
      assert Step(s, scans[0].first, scans[0].second) == s;
      HeldSeenKeyIsIgnored(s, scans[1..]);
    }
  }

  /** Edge triggering: a key held down across any number of iterations is
      dispatched at most once, and exactly once when it was not already the
      last key and its first press is confirmed. After the first iteration
      lastKey holds the key whether or not it was confirmed. */
  lemma HeldKeyDispatchedOnce(s: State, scans: seq<Scans>, k: nat)
    requires |s.counts| == COUNTERS && k != NO_KEY
    requires Held(scans, k)
    ensures Events(s, scans) <= 1
    ensures s.lastKey == k ==> Events(s, scans) == 0
    ensures s.lastKey != k && |scans| > 0 ==>
      (Events(s, scans) == 1 <==> scans[0].second == k)
  {
    if scans != [] {
      var t := Step(s, scans[0].first, scans[0].second);
      assert t.lastKey == k;
      HeldSeenKeyIsIgnored(t, scans[1..]);
    }
  }

  /** Every state a run reaches from a well-formed state is well formed. */
  lemma {:induction false} RunGood(s: State, scans: seq<Scans>)
    requires Good(s)
    requires forall i :: 0 <= i < |scans| ==> IsScanResult(scans[i].first)
    ensures Good(Run(s, scans))
    decreases |scans|
  {
    if scans != [] {
      StepGood(s, scans[0].first, scans[0].second);
      RunGood(Step(s, scans[0].first, scans[0].second), scans[1..]);
    }
  }

  /** From a state whose total is the exact sum of its counts, a run too
      short to wrap any 16-bit count or the 32-bit total keeps the total
      equal to the sum. */
  lemma {:induction false} RunKeepsExactSum(s: State, scans: seq<Scans>)
    requires Good(s) && s.total == Sum(s.counts)
    requires forall i :: 0 <= i < |scans| ==> IsScanResult(scans[i].first)
    requires forall j :: 0 <= j < COUNTERS ==> s.counts[j] + |scans| < COUNT_MODULUS
    requires s.total + |scans| < TOTAL_MODULUS
    ensures Run(s, scans).total == Sum(Run(s, scans).counts)
    ensures Run(s, scans).total <= s.total + |scans|
    decreases |scans|
  {
    if scans != [] {
      var f, g := scans[0].first, scans[0].second;
      var t := Step(s, f, g);
      StepGood(s, f, g);
      if Accepts(s, f, g) && f < COUNTERS {
        StepCountKey(s, f);
      } else if Accepts(s, f, g) && f == RESET_KEY {
        StepReset(s);
      } else {
        assert t.counts == s.counts && t.total == s.total;
      }
      assert t.total <= s.total + 1;
      assert forall j :: 0 <= j < COUNTERS ==> t.counts[j] <= s.counts[j] + 1;
      RunKeepsExactSum(t, scans[1..]);
    }
  }
}
