/** The grid of symbols a level is played on: `Field` in src/field.rs and its
    earlier copy in src/logic.rs (which also has the constructor). */
module Grid {
  import opened Bytes

  /** The background symbol (a space); every read outside the grid yields it. */
  const BLANK: byte := 0x20

  /** A w-by-h grid stored as rows: `data[y][x]` is the symbol at column x of
      row y. That there are h rows of w symbols each is an invariant the
      program keeps (see Valid), not something the type enforces. Equality is
      the derived structural one: same w, same h, same rows. */
  datatype Field = Field(w: nat, h: nat, data: seq<seq<byte>>)

  /** The shape invariant: h rows, each of length w. */
  predicate Valid(f: Field) {
    |f.data| == f.h && forall y :: 0 <= y < f.h ==> |f.data[y]| == f.w
  }

  predicate InBounds(f: Field, x: int, y: int) {
    0 <= x < f.w && 0 <= y < f.h
  }

  /** An all-blank grid; the constructor refuses any size not above 4x4. */
  function NewField(w: nat, h: nat): (f: Field)
    requires w > 4 && h > 4
    ensures Valid(f) && f.w == w && f.h == h
    ensures forall x, y :: InBounds(f, x, y) ==> Get(f, x, y) == BLANK
  {
    Field(w, h, seq(h, _ => seq(w, _ => BLANK)))
  }

  /** The symbol at (x, y). The source looks the row and the column up in
      the stored rows themselves, so anything outside them, negative
      coordinates included, reads as blank. */
  function Get(f: Field, x: int, y: int): (r: byte)
    ensures x < 0 || y < 0 ==> r == BLANK
    ensures Valid(f) ==> r == if InBounds(f, x, y) then f.data[y][x] else BLANK
  {
    if x < 0 || y < 0 then BLANK
    else if y < |f.data| && x < |f.data[y]| then f.data[y][x]
    else BLANK
  }

  /** Overwrites one cell. The source asserts the coordinates against w and
      h and then indexes the stored rows, so both must hold. */
  function Set(f: Field, x: nat, y: nat, v: byte): (r: Field)
    requires x < f.w && y < f.h
    requires y < |f.data| && x < |f.data[y]|
    ensures r.w == f.w && r.h == f.h
    ensures Get(r, x, y) == v
    ensures forall x', y' :: (x' != x || y' != y) ==> Get(r, x', y') == Get(f, x', y')
    ensures Valid(f) ==> Valid(r)
  {
    Field(f.w, f.h, f.data[y := f.data[y][x := v]])
  }

  /** The 3x3 window around (x, y), rows y-1, y, y+1 and within each row
      columns x-1, x, x+1, in the order the two nested loops push them. */
  function Neighborhood(f: Field, x: nat, y: nat): (r: seq<byte>)
    ensures |r| == 9
    ensures r[4] == Get(f, x, y)
  {
    [Get(f, x - 1, y - 1), Get(f, x, y - 1), Get(f, x + 1, y - 1),
     Get(f, x - 1, y),     Get(f, x, y),     Get(f, x + 1, y),
     Get(f, x - 1, y + 1), Get(f, x, y + 1), Get(f, x + 1, y + 1)]
  }

  /** The window indexed by offsets: entry (xo+1) + 3*(yo+1) is the cell at
      offset (xo, yo), which is the layout rule patterns are written in. */
  lemma NeighborhoodOffset(f: Field, x: nat, y: nat, xo: int, yo: int)
    requires -1 <= xo <= 1 && -1 <= yo <= 1
    ensures Neighborhood(f, x, y)[(xo + 1) + 3 * (yo + 1)] == Get(f, x + xo, y + yo)
  {
    var k := (xo + 1) + 3 * (yo + 1);
    assert k % 3 == xo + 1 && k / 3 == yo + 1;
  }

  /** At the top-left corner the five window cells with a negative
      coordinate read as blank, whatever the grid holds. */
  lemma CornerWindowIsBlankFilled(f: Field)
    ensures var n := Neighborhood(f, 0, 0);
      n[0] == n[1] == n[2] == n[3] == n[6] == BLANK
  {
  }

  /** One column of coordinates, (x, 0) .. (x, h-1). */
  function Column(x: nat, h: nat): seq<(nat, nat)> {
    seq(h, y requires 0 <= y => (x, y as nat))
  }

  /** Every coordinate of a w-by-h grid, x-major, as the cartesian product
      of 0..w and 0..h yields them: each in-bounds pair exactly once. */
  function Coords(w: nat, h: nat): (r: seq<(nat, nat)>)
    ensures |r| == w * h
    ensures forall k :: 0 <= k < |r| ==> r[k].0 < w && r[k].1 < h
    ensures forall x: nat, y: nat :: x < w && y < h ==> (x, y) in r
    ensures forall k, l :: 0 <= k < l < |r| ==> r[k] != r[l]
  {
    if w == 0 then []
    else
      var prev := Coords(w - 1, h);
      var col := Column(w - 1, h);
      assert forall y: nat :: y < h ==> col[y] == (w - 1, y);
      assert forall x: nat, y: nat :: x < w && y < h ==> (x, y) in prev + col by {
        forall x: nat, y: nat | x < w && y < h
          ensures (x, y) in prev + col
        {
          if x == w - 1 {
            assert (prev + col)[|prev| + y] == col[y];
          } else {
            assert (x, y) in prev;
          }
        }
      }
      prev + col
  }

  /** Two well-shaped grids are equal exactly when they have the same size
      and the same symbol in every cell. */
  lemma {:induction false} FieldEquality(f: Field, g: Field)
    requires Valid(f) && Valid(g)
    ensures f == g <==>
      f.w == g.w && f.h == g.h && forall x, y :: InBounds(f, x, y) ==> Get(f, x, y) == Get(g, x, y)
  {
    if f.w == g.w && f.h == g.h && forall x, y :: InBounds(f, x, y) ==> Get(f, x, y) == Get(g, x, y) {
      forall y | 0 <= y < f.h
        ensures f.data[y] == g.data[y]
      {
        forall x | 0 <= x < f.w
          ensures f.data[y][x] == g.data[y][x]
        {
          assert Get(f, x, y) == Get(g, x, y);
        }
      }
    }
  }
}
