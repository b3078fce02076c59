/** The 3 x 4 key matrix (scanKeys). Rows are driven active-low one at a
    time on the low nibble of the row port; the four column lines are read
    back, active-low, as a nibble. The hardware is abstracted as the three
    column nibbles the scan reads, one per row. */
module Keypad {

  import opened Bits

  const ROWS: nat := 3
  const COLS: nat := 4

  /** Number of key positions the matrix can report: 0 .. 11. */
  const KEYS: nat := ROWS * COLS

  /** The value scanKeys returns when no key is down. */
  const NO_KEY: nat := 0xFF

  /** Keys 0 .. 7 count; 8 resets; 9 toggles the display mode. */
  const RESET_KEY: nat := 8
  const FUNCTION_KEY: nat := 9

  /** A value scanKeys can return. */
  predicate IsScanResult(k: nat) { k == NO_KEY || k < KEYS }

  /** The mask the scan tests for column col: 0x01, 0x02, 0x04, 0x08. */
  function ColumnMask(col: nat): bv4
    requires col < COLS
  {
    if col == 0 then 0x1 else if col == 1 then 0x2 else if col == 2 then 0x4 else 0x8
  }

  /** The column line col reads low while row row is driven: that key is down. */
  predicate Active(cols: seq<bv4>, row: nat, col: nat)
    requires |cols| == ROWS && row < ROWS && col < COLS
  {
    cols[row] & ColumnMask(col) == 0
  }

  /** Key position k is down; k numbers the matrix row-major, 4 * row + col. */
  predicate ActiveKey(cols: seq<bv4>, k: nat)
    requires |cols| == ROWS && k < KEYS
  {
    if k < COLS then Active(cols, 0, k)
    else if k < 2 * COLS then Active(cols, 1, k - COLS)
    else Active(cols, 2, k - 2 * COLS)
  }

  /** The key positions that are down, in row-major order. */
  function Pressed(cols: seq<bv4>): (p: seq<bool>)
    requires |cols| == ROWS
    ensures |p| == KEYS
  {
    seq(KEYS, k requires 0 <= k < KEYS => ActiveKey(cols, k))
  }

  /** Reference decoder: the first position at or after k whose flag is
      set, walking the linear index upward, or NO_KEY. */
  function FirstFrom(p: seq<bool>, k: nat): (r: nat)
    requires |p| == KEYS && k <= KEYS
    ensures r == NO_KEY || k <= r < KEYS
    decreases KEYS - k
  {
    if k == KEYS then NO_KEY
    else if p[k] then k
    else FirstFrom(p, k + 1)
  }

  /** The key the matrix reports for the column readings cols. */
  function Decode(cols: seq<bv4>): (key: nat)
    requires |cols| == ROWS
    ensures IsScanResult(key)
  {
    FirstFrom(Pressed(cols), 0)
  }

  /** A result of the reference decoder is a set position, and no earlier
      position from k on is set; NO_KEY means none from k on is. */
  lemma {:induction false} FirstFromFound(p: seq<bool>, k: nat)
    requires |p| == KEYS && k <= KEYS
    ensures FirstFrom(p, k) != NO_KEY ==>
      p[FirstFrom(p, k)] && forall j :: k <= j < FirstFrom(p, k) ==> !p[j]
    ensures FirstFrom(p, k) == NO_KEY ==> forall j :: k <= j < KEYS ==> !p[j]
    decreases KEYS - k
  {
    if k < KEYS && !p[k] {
      FirstFromFound(p, k + 1);
    }
  }

  /** The first set position from position from on is what the reference decoder finds. */
  lemma {:induction false} FirstFromIs(p: seq<bool>, from: nat, k: nat)
    requires |p| == KEYS && from <= k < KEYS && p[k]
    requires forall j :: from <= j < k ==> !p[j]
    ensures FirstFrom(p, from) == k
    decreases k - from
  {
    if from < k {
      FirstFromIs(p, from + 1, k);
    }
  }

  /** With no position set from position from on, the reference decoder reports NO_KEY. */
  lemma {:induction false} FirstFromNone(p: seq<bool>, from: nat)
    requires |p| == KEYS && from <= KEYS
    requires forall j :: from <= j < KEYS ==> !p[j]
    ensures FirstFrom(p, from) == NO_KEY
    decreases KEYS - from
  {
    if from < KEYS {
      FirstFromNone(p, from + 1);
    }
  }

  /** Position 4 * row + col is the key at row row, column col. */
  lemma KeyAt(cols: seq<bv4>, row: nat, col: nat)
    requires |cols| == ROWS && row < ROWS && col < COLS
    ensures ActiveKey(cols, COLS * row + col) == Active(cols, row, col)
  {
  }

  /** The linear index k splits into row k / 4 and column k % 4. */
  lemma KeyIndex(k: nat)
    requires k < KEYS
    ensures k == COLS * (k / COLS) + k % COLS && k / COLS < ROWS
  {
  }

  /** What scanKeys computes: NO_KEY exactly when no column reads low in
      any row; otherwise 4 * row + col of the key that is down in the lowest
      row and, within that row, the lowest column. */
  lemma DecodeSpec(cols: seq<bv4>)
    requires |cols| == ROWS
    ensures Decode(cols) == NO_KEY <==>
      forall row: nat, col: nat :: row < ROWS && col < COLS ==> !Active(cols, row, col)
    ensures Decode(cols) != NO_KEY ==>
      Decode(cols) < KEYS &&
      Active(cols, Decode(cols) / COLS, Decode(cols) % COLS) &&
      forall row: nat, col: nat :: row < ROWS && col < COLS && COLS * row + col < Decode(cols) ==>
        !Active(cols, row, col)
  {
    var p := Pressed(cols);
    FirstFromFound(p, 0);
    forall row: nat, col: nat | row < ROWS && col < COLS
      ensures p[COLS * row + col] == Active(cols, row, col)
    {
      KeyAt(cols, row, col);
    }
    var key := Decode(cols);
    if key != NO_KEY {
      KeyIndex(key);
      KeyAt(cols, key / COLS, key % COLS);
    }
  }

  /** The byte written to the row port to drive row row: ~(1 << row). */
  function RowDrive(row: nat): bv8
    requires row < ROWS
  {
    !((1 as bv8) << row)
  }

  /** The row-drive byte has the driven row's line low and every other line high. */
  lemma RowDriveActiveLow(row: nat)
    requires row < ROWS
    ensures forall j :: 0 <= j < 8 ==> (Bit(RowDrive(row), j) <==> j != row)
  {
    if row == 0 {
      assert RowDrive(row) == 0xFE;
    } else if row == 1 {
      assert RowDrive(row) == 0xFD;
    } else {
      assert RowDrive(row) == 0xFB;
    }
  }

  /** The four column tests of one row in scanKeys: keyValue counts up
      past each column that reads high and stops at the first that reads
      low; found tells whether one did. */
  method TestColumns(col: bv4, keyValue: nat) returns (found: bool, next: nat)
    ensures keyValue <= next <= keyValue + COLS
    ensures found <==> next < keyValue + COLS
    ensures forall c :: 0 <= c < next - keyValue ==> col & ColumnMask(c) != 0
    ensures found ==> col & ColumnMask(next - keyValue) == 0
  {
    next := keyValue;
    if col & 0x1 == 0 { return true, next; }
    next := next + 1;
    if col & 0x2 == 0 { return true, next; }
    next := next + 1;
    if col & 0x4 == 0 { return true, next; }
    next := next + 1;
    if col & 0x8 == 0 { return true, next; }
    next := next + 1;
    return false, next;
  }

  /** One row of scanKeys, seen on the linear key index: starting from
      the row's first position 4 * row, keyValue stops at the first key of
      the row that is down, or runs one past the row when none is. */
  method ScanRow(cols: seq<bv4>, row: nat, keyValue: nat) returns (found: bool, next: nat)
    requires |cols| == ROWS && row < ROWS && keyValue == COLS * row
    ensures keyValue <= next <= keyValue + COLS
    ensures found <==> next < keyValue + COLS
    ensures forall j :: keyValue <= j < next ==> !Pressed(cols)[j]
    ensures found ==> Pressed(cols)[next]
  {
    found, next := TestColumns(cols[row], keyValue);
    forall c | 0 <= c < COLS ensures Pressed(cols)[keyValue + c] == Active(cols, row, c) {
      KeyAt(cols, row, c);
    }
  }

  /** The row loop of scanKeys. Returns the key found and the row-port
      writes made on the way: one per row scanned, in order, stopping at the
      row that holds the key found. */
  method ScanKeys(cols: seq<bv4>) returns (key: nat, drives: seq<bv8>)
    requires |cols| == ROWS
    ensures key == Decode(cols)
    ensures 0 < |drives| <= ROWS
    ensures key == NO_KEY ==> |drives| == ROWS
    ensures key != NO_KEY ==> COLS * (|drives| - 1) <= key < COLS * |drives|
    ensures forall row :: 0 <= row < |drives| ==> drives[row] == RowDrive(row)
  {
    ghost var p := Pressed(cols);
    var keyValue := 0;
    drives := [];
    var row := 0;
    while row < ROWS
      invariant 0 <= row <= ROWS
      invariant keyValue == COLS * row
      invariant |drives| == row
      invariant forall r :: 0 <= r < row ==> drives[r] == RowDrive(r)
      invariant forall j :: 0 <= j < keyValue ==> !p[j]
    {
      drives := drives + [RowDrive(row)];
      var found;
      found, keyValue := ScanRow(cols, row, keyValue);
      if found {
        FirstFromIs(p, 0, keyValue);
        return keyValue, drives;
      }
      row := row + 1;
    }
    FirstFromNone(p, 0);
    return NO_KEY, drives;
  }
}
