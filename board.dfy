/**
 * The candidate-set board of `mod board`: 81 cells stored row-major, each a
 * 16-bit mask in which bit d-1 set means that digit d is still possible.
 */
module Board {

  /** Number of cells, `3*3*3*3`. */
  const CellCount: nat := 81

  /** The mask with all nine digits possible, `0b111_111_111`. */
  const Full: bv16 := 0x1FF

  // ----- Masks ---------------------------------------------------------------

  /** A bit position of a 16-bit mask. */
  type BitIndex = b: bv16 | b < 16

  predicate HasBit(v: bv16, b: BitIndex)
  {
    (v >> b) & 1 == 1
  }

  /** Number of set bits: the population count of the mask. */
  function PopCount(v: bv16): nat
    decreases v as int
  {
    if v == 0 then 0 else (if v & 1 == 1 then 1 else 0) + PopCount(v >> 1)
  }

  lemma {:induction false} PopCountZero(v: bv16)
    ensures PopCount(v) == 0 <==> v == 0
    decreases v as int
  {
    if v != 0 {
      PopCountZero(v >> 1);
      assert v & 1 == 1 || v >> 1 != 0;
    }
  }

  /** One step of the population count, also at zero. */
  lemma PopCountStep(v: bv16)
    ensures PopCount(v) == (if v & 1 == 1 then 1 else 0) + PopCount(v >> 1)
  {
  }

  /** Clearing the lowest set bit (`v & (v-1)`) removes exactly one bit. */
  lemma {:induction false} ClearLowestBit(v: bv16)
    requires v != 0
    ensures PopCount(v & (v - 1)) + 1 == PopCount(v)
    decreases v as int, 1
  {
    if v & 1 == 1 {
      ClearLowestBitOdd(v);
    } else {
      ClearLowestBitEven(v);
    }
  }

  lemma ClearLowestBitOdd(v: bv16)
    requires v & 1 == 1
    ensures PopCount(v & (v - 1)) + 1 == PopCount(v)
  {
    var w := v & (v - 1);
    LowestBitFacts(v);
    PopCountStep(v);
    PopCountStep(w);
  }

  /** Bit 0 clear: the lowest set bit of `v` is the lowest set bit of `v >> 1`. */
  lemma {:induction false} ClearLowestBitEven(v: bv16)
    requires v != 0 && v & 1 == 0
    ensures PopCount(v & (v - 1)) + 1 == PopCount(v)
    decreases v as int, 0
  {
    var u := v >> 1;
    assert u != 0 && u as int < v as int by { ShiftDecreases(v); }
    ClearLowestBit(u);
    ClearLowestBitShifted(v, u);
  }

  lemma ClearLowestBitShifted(v: bv16, u: bv16)
    requires v != 0 && v & 1 == 0 && u == v >> 1
    requires PopCount(u & (u - 1)) + 1 == PopCount(u)
    ensures PopCount(v & (v - 1)) + 1 == PopCount(v)
  {
    var w := v & (v - 1);
    LowestBitFacts(v);
    PopCountStep(v);
    PopCountStep(w);
  }

  /** Bit-level facts about `v & (v-1)`. */
  lemma LowestBitFacts(v: bv16)
    ensures (v & (v - 1)) & 1 == 0
    ensures v & 1 == 1 ==> (v & (v - 1)) >> 1 == v >> 1
    ensures v & 1 == 0 ==> (v & (v - 1)) >> 1 == (v >> 1) & ((v >> 1) - 1)
  {
  }

  lemma ShiftDecreases(v: bv16)
    requires v != 0
    ensures v & 1 == 0 ==> v >> 1 != 0
    ensures (v >> 1) as int < v as int
  {
  }

  /** Two masks with the same bits are equal. */
  lemma BitsEqual(x: bv16, y: bv16)
    requires forall b: BitIndex :: HasBit(x, b) == HasBit(y, b)
    ensures x == y
  {
    BitsEqual16(x, y);
  }

  lemma BitsEqual16(x: bv16, y: bv16)
    requires HasBit(x, 0) == HasBit(y, 0) && HasBit(x, 1) == HasBit(y, 1)
    requires HasBit(x, 2) == HasBit(y, 2) && HasBit(x, 3) == HasBit(y, 3)
    requires HasBit(x, 4) == HasBit(y, 4) && HasBit(x, 5) == HasBit(y, 5)
    requires HasBit(x, 6) == HasBit(y, 6) && HasBit(x, 7) == HasBit(y, 7)
    requires HasBit(x, 8) == HasBit(y, 8) && HasBit(x, 9) == HasBit(y, 9)
    requires HasBit(x, 10) == HasBit(y, 10) && HasBit(x, 11) == HasBit(y, 11)
    requires HasBit(x, 12) == HasBit(y, 12) && HasBit(x, 13) == HasBit(y, 13)
    requires HasBit(x, 14) == HasBit(y, 14) && HasBit(x, 15) == HasBit(y, 15)
    ensures x == y
  {
  }

  // ----- Cell positions ------------------------------------------------------

  /** Row of a row-major cell index. */
  function Row(i: int): int { i / 9 }

  /** Column of a row-major cell index. */
  function Col(i: int): int { i % 9 }

  /** Row-major index of the cell at `row`, `col`. */
  function CellIndex(row: int, col: int): int { row * 9 + col }

  /** Box and sub-box coordinates, each in `[0, 3)` when valid. */
  datatype Coords = Coords(boxX: int, boxY: int, subX: int, subY: int)
  {
    predicate InRange()
    {
      0 <= boxX < 3 && 0 <= boxY < 3 && 0 <= subX < 3 && 0 <= subY < 3
    }
  }

  /** The coordinates of a cell index: the inverse of `Board.CoordsToCellIndex`. */
  function CellCoords(i: int): Coords
  {
    Coords(Col(i) / 3, Row(i) / 3, Col(i) % 3, Row(i) % 3)
  }

  lemma CoordsRoundTrip(c: Coords)
    requires c.InRange()
    ensures CellCoords(Board.CoordsToCellIndex(c.boxX, c.boxY, c.subX, c.subY)) == c
  {
  }

  lemma IndexRoundTrip(i: int)
    requires 0 <= i < CellCount
    ensures CellCoords(i).InRange()
    ensures var c := CellCoords(i); Board.CoordsToCellIndex(c.boxX, c.boxY, c.subX, c.subY) == i
  {
  }

  // ----- Puzzle text ---------------------------------------------------------

  /** `char::is_digit(10)`: an ASCII decimal digit. */
  predicate IsDigit(c: char) { '0' <= c <= '9' }

  /** A character that occupies a cell: a blank `-` or a digit. */
  predicate IsCounted(c: char) { c == '-' || IsDigit(c) }

  /** The characters of `s` that occupy cells, in order; all others are formatting. */
  function Tokens(s: string): (t: string)
    ensures |t| <= |s|
    ensures forall k :: 0 <= k < |t| ==> IsCounted(t[k])
  {
    if s == [] then [] else (if IsCounted(s[0]) then [s[0]] else []) + Tokens(s[1..])
  }

  lemma {:induction false} TokensAppend(a: string, b: string)
    ensures Tokens(a + b) == Tokens(a) + Tokens(b)
  {
    if a == [] {
      assert a + b == b;
    } else {
      assert (a + b)[0] == a[0] && (a + b)[1..] == a[1..] + b;
      TokensAppend(a[1..], b);
    }
  }

  /** One more character advances the cell index by one exactly when it is `-` or a digit. */
  lemma {:induction false} TokensSnoc(s: string, c: char)
    ensures Tokens(s + [c]) == Tokens(s) + (if IsCounted(c) then [c] else [])
  {
    TokensAppend(s, [c]);
    assert [c][1..] == [];
  }

  /** Reading one more character of `s` extends the tokens read so far. */
  lemma {:induction false} TokensStep(s: string, i: nat)
    requires i < |s|
    ensures Tokens(s[..i + 1]) == Tokens(s[..i]) + (if IsCounted(s[i]) then [s[i]] else [])
  {
    assert s[..i + 1] == s[..i] + [s[i]];
    TokensSnoc(s[..i], s[i]);
  }

  /** The tokens of a prefix are a prefix of the tokens. */
  lemma {:induction false} TokensPrefix(s: string, i: nat)
    requires i <= |s|
    ensures Tokens(s[..i]) <= Tokens(s)
  {
    assert s[..i] + s[i..] == s;
    TokensAppend(s[..i], s[i..]);
    var a, b := Tokens(s[..i]), Tokens(s[i..]);
    assert Tokens(s) == a + b;
    assert (a + b)[..|a|] == a;
  }

  /** Tokens that `Board::init` stores without indexing past the board: every digit lands on one of the 81 cells. */
  predicate WellFormedTokens(t: string)
  {
    forall k :: 0 <= k < |t| ==> t[k] == '-' || (k < CellCount && IsDigit(t[k]))
  }

  lemma {:induction false} WellFormedPrefix(p: string, q: string)
    requires WellFormedTokens(p + q)
    ensures WellFormedTokens(p)
  {
    forall k | 0 <= k < |p| ensures p[k] == '-' || (k < CellCount && IsDigit(p[k])) {
      assert (p + q)[k] == p[k];
    }
  }

  lemma {:induction false} PrefixWellFormed(s: string, i: nat)
    requires i <= |s| && WellFormedTokens(Tokens(s))
    ensures WellFormedTokens(Tokens(s[..i]))
  {
    TokensPrefix(s, i);
    var t := Tokens(s[..i]);
    WellFormedPrefix(t, Tokens(s)[|t|..]);
    assert t + Tokens(s)[|t|..] == Tokens(s);
  }

  /**
   * The mask a cell character stands for: `-` is unconstrained, digit d is
   * `2^(d-1)`. For `0`, `0 - 1` wraps to `u32::MAX` and `2u16.pow` of it wraps
   * to 0, as in a release build.
   */
  function CellValue(c: char): (v: bv16)
    requires IsCounted(c)
    ensures c == '-' ==> v == Full
    ensures c == '0' ==> v == 0
    ensures '1' <= c <= '9' ==> forall b: BitIndex :: HasBit(v, b) == (b as int == c as int - '1' as int)
  {
    if c == '-' then Full else if c == '0' then 0 else 1 << (c as int - '1' as int) as bv16
  }

  /** Cell `k` of the board parsed from the tokens `t`. */
  function GivenCell(t: string, k: nat): bv16
    requires WellFormedTokens(t)
  {
    if k < |t| then CellValue(t[k]) else Full
  }

  /** Parsing one more token fills exactly the next cell. */
  lemma GivenCellExtend(t: string, c: char)
    requires WellFormedTokens(t + [c])
    ensures WellFormedTokens(t) && IsCounted(c)
    ensures GivenCell(t + [c], |t|) == CellValue(c)
    ensures forall k: nat :: k != |t| ==> GivenCell(t + [c], k) == GivenCell(t, k)
  {
    assert (t + [c])[|t|] == c;
    WellFormedPrefix(t, [c]);
    forall k: nat | k != |t| ensures GivenCell(t + [c], k) == GivenCell(t, k) {
      if k < |t| {
        assert (t + [c])[k] == t[k];
      }
    }
  }

  // ----- The board -----------------------------------------------------------

  class Board {
    var cells: array<bv16>

    ghost predicate Valid()
      reads this
    {
      cells.Length == CellCount
    }

    /** `Board::new`: every cell holds all nine candidates. */
    constructor ()
      ensures Valid() && fresh(cells)
      ensures forall k :: 0 <= k < CellCount ==> cells[k] == Full
    {
      cells := new bv16[CellCount](_ => Full);
    }

    /** `Board::init`: cell k takes the k-th `-` or digit of `state`. */
    static method Init(state: string) returns (b: Board)
      requires WellFormedTokens(Tokens(state))
      ensures b.Valid() && fresh(b) && fresh(b.cells)
      ensures forall k :: 0 <= k < CellCount ==> b.cells[k] == GivenCell(Tokens(state), k)
    {
      b := new Board();
      var index: nat := 0;
      for i := 0 to |state|
        invariant b.Valid() && fresh(b) && fresh(b.cells)
        invariant index == |Tokens(state[..i])|
        invariant WellFormedTokens(Tokens(state[..i]))
        invariant forall k :: 0 <= k < CellCount ==> b.cells[k] == GivenCell(Tokens(state[..i]), k)
      {
        var c := state[i];
        TokensStep(state, i);
        PrefixWellFormed(state, i + 1);
        if IsCounted(c) {
          GivenCellExtend(Tokens(state[..i]), c);
        }
        if c == '-' {
          index := index + 1;
        } else if IsDigit(c) {
          b.cells[index] := CellValue(c);
          index := index + 1;
        }
      }
      assert state[..|state|] == state;
    }

    /** `Board::coords_to_cell_index`: box `(boxX, boxY)`, position `(subX, subY)` inside it. */
    static function CoordsToCellIndex(boxX: int, boxY: int, subX: int, subY: int): (r: int)
      ensures Coords(boxX, boxY, subX, subY).InRange() ==>
        0 <= r < CellCount && Row(r) == boxY * 3 + subY && Col(r) == boxX * 3 + subX
    {
      boxY * 3 * 3 * 3 + boxX * 3 + subY * 3 * 3 + subX
    }

    /** Read side of `Board::cell_by_coords`. */
    function CellByCoords(boxX: int, boxY: int, subX: int, subY: int): (v: bv16)
      reads this, cells
      requires 0 <= CoordsToCellIndex(boxX, boxY, subX, subY) < cells.Length
      ensures v == cells[CellIndex(boxY * 3 + subY, boxX * 3 + subX)]
    {
      cells[CoordsToCellIndex(boxX, boxY, subX, subY)]
    }

    /** Write side of `Board::cell_by_coords`: store through the returned reference. */
    method SetCellByCoords(boxX: int, boxY: int, subX: int, subY: int, v: bv16)
      requires 0 <= CoordsToCellIndex(boxX, boxY, subX, subY) < cells.Length
      modifies cells
      ensures cells[CellIndex(boxY * 3 + subY, boxX * 3 + subX)] == v
      ensures forall k :: 0 <= k < cells.Length && k != CellIndex(boxY * 3 + subY, boxX * 3 + subX) ==>
        cells[k] == old(cells[k])
    {
      cells[CoordsToCellIndex(boxX, boxY, subX, subY)] := v;
    }

    /**
     * `Board::is_cell_known_by_value`, with `u16` wrap-around for `val - 1`: a
     * nonzero mask is known exactly when it has a single candidate, and zero
     * wraps around to known.
     */
    static function IsKnownByValue(val: bv16): (r: bool)
      ensures r <==> val == 0 || PopCount(val) == 1
    {
      KnownByValueIffOneBit(val);
      val & (val - 1) == 0
    }

    /** `Board::is_cell_known`. */
    function IsCellKnown(index: nat): (r: bool)
      reads this, cells
      requires index < cells.Length
      ensures r <==> cells[index] == 0 || PopCount(cells[index]) == 1
    {
      IsKnownByValue(cells[index])
    }
  }

  /** Clearing the lowest set bit leaves nothing exactly when there was at most one. */
  lemma KnownByValueIffOneBit(val: bv16)
    ensures val & (val - 1) == 0 <==> val == 0 || PopCount(val) == 1
  {
    if val != 0 {
      ClearLowestBit(val);
      PopCountZero(val & (val - 1));
    }
  }

  /** A given digit (`0` included, as the empty mask) yields a known cell; a blank does not. */
  lemma CellValueKnown(c: char)
    requires IsCounted(c)
    ensures Board.IsKnownByValue(CellValue(c)) <==> c != '-'
  {
    KnownByValueIffOneBit(CellValue(c));
  }
}
