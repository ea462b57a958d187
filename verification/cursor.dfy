/** The cursor over the rule editor: `CursorPos` in src/cursor_pos.rs and
    its earlier copy in src/ui.rs, where the `State` variant is called
    `Menu`. The two revisions move identically. Coordinates are the
    source's `isize` values as unbounded integers. */
module Cursor {

  /** On a pattern cell (x, y) of rule i, on rule i's replacement, or on
      the simulation state line below the rules (remembering the rule it
      came from). */
  datatype CursorPos =
    | Pattern(i: int, x: int, y: int)
    | Replace(i: int)
    | State(lastI: int)

  predicate InState(c: CursorPos) {
    c.State?
  }

  /** The cursor addresses an existing rule and a cell of its 3x3 pattern. */
  predicate InRange(c: CursorPos, len: nat) {
    match c
    case Pattern(i, x, y) => 0 <= i < len && 0 <= x <= 2 && 0 <= y <= 2
    case Replace(i) => 0 <= i < len
    case State(lastI) => 0 <= lastI < len
  }

  /** Rust's `%` on signed integers truncates toward zero: the remainder
      takes the sign of the dividend (Dafny's `%` never goes negative). */
  function RemT(a: int, b: nat): (r: int)
    requires b > 0
    ensures 0 <= a ==> 0 <= r < b
    ensures a < 0 ==> -(b as int) < r <= 0
  {
    if a >= 0 then a % b else -((-a) % b)
  }

  /** Rust's `/` on signed integers: the quotient rounds toward zero. */
  function QuotT(a: int, b: nat): int
    requires b > 0
  {
    if a >= 0 then a / b else -((-a) / b)
  }

  /** `RemT` is the remainder that goes with the truncating quotient, as
      Rust defines `%` for signed integers: a == b * (a / b) + a % b. */
  lemma RemTIsTruncatingRemainder(a: int, b: nat)
    requires b > 0
    ensures a == b * QuotT(a, b) + RemT(a, b)
  {
  }

  /** `(y as usize).saturating_sub(1) as isize`. The cast to usize is the
      two's-complement reinterpretation, which is zero only for y == 0; so
      the subtraction saturates there and elsewhere, negative y included,
      the round trip back to isize is plain y - 1. */
  function RowAbove(y: int): (r: int)
    ensures -HALF < y < HALF ==> r == AsIsize(SatSub1(AsUsize(y)))
  {
    if y == 0 then 0 else y - 1
  }

  // The casts of `(y as usize).saturating_sub(1) as isize` on a 64-bit
  // target, written out: two's-complement reinterpretation both ways.
  const WORD: int := 0x1_0000_0000_0000_0000
  const HALF: int := 0x8000_0000_0000_0000

  function AsUsize(y: int): int {
    if y < 0 then y + WORD else y
  }

  function SatSub1(u: int): int {
    if u == 0 then 0 else u - 1
  }

  function AsIsize(u: int): int {
    if u >= HALF then u - WORD else u
  }

  /** On every `isize` value except the smallest, the cast round trip is
      `RowAbove`; at `isize::MIN` the source wraps to `isize::MAX`, which
      the unbounded model does not reproduce. */
  lemma RowAboveIsSaturatingCast(y: int)
    requires -HALF <= y < HALF
    ensures y != -HALF ==> RowAbove(y) == AsIsize(SatSub1(AsUsize(y)))
    ensures y == -HALF ==> AsIsize(SatSub1(AsUsize(y))) == HALF - 1 && RowAbove(y) == y - 1
    ensures 0 <= AsUsize(y) < WORD
  {
  }

  function Up(c: CursorPos): CursorPos {
    match c
    case Pattern(i, x, y) => Pattern(i, x, RowAbove(y))
    case Replace(i) => Pattern(i, 1, 2)
    case State(lastI) => Replace(lastI)
  }

  function Down(c: CursorPos): CursorPos {
    match c
    case Pattern(i, x, y) => if y < 2 then Pattern(i, x, y + 1) else Replace(i)
    case Replace(i) => State(i)
    case State(lastI) => State(lastI)
  }

  /** The moves that compute `% len`, which panics when there are no rules. */
  predicate WrapsLeft(c: CursorPos) {
    (c.Pattern? && c.x == 0) || c.Replace?
  }

  predicate WrapsRight(c: CursorPos) {
    (c.Pattern? && c.x == 2) || c.Replace?
  }

  /** `len` is the number of rules in the level. */
  function Left(c: CursorPos, len: nat): CursorPos
    requires WrapsLeft(c) ==> len > 0
  {
    match c
    case Pattern(i, x, y) => if x == 0 then Pattern(RemT(len + i - 1, len), 2, y) else Pattern(i, x - 1, y)
    case Replace(i) => Replace(RemT(len + i - 1, len))
    case State(lastI) => State(lastI)
  }

  function Right(c: CursorPos, len: nat): CursorPos
    requires WrapsRight(c) ==> len > 0
  {
    match c
    case Pattern(i, x, y) => if x == 2 then Pattern(RemT(i + 1, len), 0, y) else Pattern(i, x + 1, y)
    case Replace(i) => Replace(RemT(i + 1, len))
    case State(lastI) => State(lastI)
  }

  lemma SmallMod(k: int, n: int)
    requires 0 <= k < n
    ensures k % n == k && (k + n) % n == k && n % n == 0
  {
    assert (k + n) / n == 1;
  }

  /** The rule before i and the rule after i, cyclically. */
  lemma PrevNext(i: int, len: nat)
    requires 0 <= i < len
    ensures RemT(len + i - 1, len) == if i == 0 then len - 1 else i - 1
    ensures RemT(i + 1, len) == if i == len - 1 then 0 else i + 1
  {
    if i > 0 {
      SmallMod(i - 1, len);
      assert len + i - 1 == (i - 1) + len;
    } else {
      SmallMod(len - 1, len);
    }
    if i < len - 1 {
      SmallMod(i + 1, len);
    } else {
      SmallMod(0, len);
    }
  }

  /** Every move keeps an in-range cursor in range: the rule index wraps
      around the rule list and the pattern coordinates stay within 0..2. */
  lemma MovesStayInRange(c: CursorPos, len: nat)
    requires InRange(c, len)
    ensures InRange(Up(c), len) && InRange(Down(c), len)
    ensures InRange(Left(c, len), len) && InRange(Right(c, len), len)
  {
    match c
    case Pattern(i, _, _) => PrevNext(i, len);
    case Replace(i) => PrevNext(i, len);
    case State(_) =>
  }

  /** Left and right undo each other on an in-range cursor, across the
      wrap-around from the first rule to the last and back. */
  lemma LeftRightInverse(c: CursorPos, len: nat)
    requires InRange(c, len)
    ensures Right(Left(c, len), len) == c
    ensures Left(Right(c, len), len) == c
  {
    match c
    case Pattern(i, x, y) => PatternLeftRightInverse(i, x, y, len);
    case Replace(i) => ReplaceLeftRightInverse(i, len);
    case State(_) =>
  }

  lemma PatternLeftRightInverse(i: int, x: int, y: int, len: nat)
    requires 0 <= i < len && 0 <= x <= 2 && 0 <= y <= 2
    ensures Right(Left(Pattern(i, x, y), len), len) == Pattern(i, x, y)
    ensures Left(Right(Pattern(i, x, y), len), len) == Pattern(i, x, y)
  {
    var c := Pattern(i, x, y);
    PrevNext(i, len);
    if x == 0 {
      var prev := if i == 0 then len - 1 else i - 1;
      PrevNext(prev, len);
      assert Left(c, len) == Pattern(prev, 2, y);
    }
    if x == 2 {
      var next := if i == len - 1 then 0 else i + 1;
      PrevNext(next, len);
      assert Right(c, len) == Pattern(next, 0, y);
    }
  }

  lemma ReplaceLeftRightInverse(i: int, len: nat)
    requires 0 <= i < len
    ensures Right(Left(Replace(i), len), len) == Replace(i)
    ensures Left(Right(Replace(i), len), len) == Replace(i)
  {
    var prev, next := if i == 0 then len - 1 else i - 1, if i == len - 1 then 0 else i + 1;
    PrevNext(i, len);
    PrevNext(prev, len);
    PrevNext(next, len);
  }

  /** The pattern columns of all rules, side by side, numbered 0 .. 3*len-1. */
  function GlobalColumn(c: CursorPos): int
    requires c.Pattern?
  {
    3 * c.i + c.x
  }

  /** Seen across all rules, right walks one pattern column at a time
      around a cycle of 3*len columns and keeps the row. */
  lemma RightCyclesColumns(c: CursorPos, len: nat)
    requires c.Pattern? && InRange(c, len)
    ensures Right(c, len).Pattern? && Right(c, len).y == c.y
    ensures GlobalColumn(Right(c, len)) == (GlobalColumn(c) + 1) % (3 * len)
  {
    var n := 3 * len;
    var col := GlobalColumn(c);
    PrevNext(c.i, len);
    if c.x == 2 && c.i == len - 1 {
      assert Right(c, len) == Pattern(0, 0, c.y);
      assert col + 1 == n;
      SmallMod(0, n);
    } else if c.x == 2 {
      assert Right(c, len) == Pattern(c.i + 1, 0, c.y);
      assert col + 1 == 3 * (c.i + 1) < n;
      SmallMod(col + 1, n);
    } else {
      assert Right(c, len) == Pattern(c.i, c.x + 1, c.y);
      assert col + 1 < n;
      SmallMod(col + 1, n);
    }
  }

  /** Likewise left walks one column back around the same cycle. */
  lemma LeftCyclesColumns(c: CursorPos, len: nat)
    requires c.Pattern? && InRange(c, len)
    ensures Left(c, len).Pattern? && Left(c, len).y == c.y
    ensures GlobalColumn(Left(c, len)) == (GlobalColumn(c) + 3 * len - 1) % (3 * len)
  {
    var n := 3 * len;
    var col := GlobalColumn(c);
    PrevNext(c.i, len);
    if c.x == 0 && c.i == 0 {
      assert Left(c, len) == Pattern(len - 1, 2, c.y);
      assert col + n - 1 == n - 1;
      SmallMod(n - 1, n);
    } else if c.x == 0 {
      assert Left(c, len) == Pattern(c.i - 1, 2, c.y);
      assert col + n - 1 == (col - 1) + n && 0 <= col - 1 < n;
      SmallMod(col - 1, n);
    } else {
      assert Left(c, len) == Pattern(c.i, c.x - 1, c.y);
      assert col + n - 1 == (col - 1) + n && 0 <= col - 1 < n;
      SmallMod(col - 1, n);
    }
  }

  /** Up undoes down wherever down stays inside a pattern or leaves the
      replacement, and down undoes up wherever up does not saturate. */
  lemma UpDownRoundTrip(c: CursorPos)
    ensures c.Pattern? && 0 <= c.y < 2 ==> Up(Down(c)) == c
    ensures c.Replace? ==> Up(Down(c)) == c && Down(Up(c)) == c
    ensures c.State? ==> Down(Up(c)) == c
    ensures c.Pattern? && 0 < c.y <= 2 ==> Down(Up(c)) == c
  {
  }

  /** The state line only leaves upward: down, left and right keep it. */
  lemma StateIsFixedSideways(c: CursorPos, len: nat)
    requires InState(c)
    ensures Down(c) == c && Left(c, len) == c && Right(c, len) == c
    ensures Up(c) == Replace(c.lastI)
  {
  }
}
