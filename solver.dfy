/**
 * `mod solver`: the peers of a cell and the elimination step that strips the
 * digits of known peers from one cell's candidate mask.
 */
module Solver {
  import Board

  // ----- Peers ---------------------------------------------------------------

  /** Box row (band) of a cell. */
  function BoxRow(i: int): int { Board.Row(i) / 3 }

  /** Box column (stack) of a cell. */
  function BoxCol(i: int): int { Board.Col(i) / 3 }

  predicate SameBox(i: int, j: int)
  {
    BoxRow(i) == BoxRow(j) && BoxCol(i) == BoxCol(j)
  }

  /** `j` is another cell that shares a row, a column or a box with `index`. */
  predicate IsPeer(index: int, j: int)
  {
    j != index && (Board.Row(j) == Board.Row(index) || Board.Col(j) == Board.Col(index) || SameBox(j, index))
  }

  /** Entry `i` (of 6) of the first loop: the row, skipping the three columns of the own box. */
  function RowEntry(index: nat, i: nat): nat
  {
    index / 9 * 9 + i + (if i / 3 >= index % 9 / 3 then 1 else 0) * 3
  }

  /** Entry `i` (of 6) of the second loop: the column, skipping the three rows of the own box. */
  function ColumnEntry(index: nat, i: nat): nat
  {
    index % 9 + (i + (if i / 3 >= index / 27 then 1 else 0) * 3) * 9
  }

  /** Cell `i` (of 9) of the own box, in row-major order. */
  function BoxEntry(index: nat, i: nat): nat
  {
    index / 27 * 27 + index % 9 / 3 * 3 + i % 3 + i / 3 * 9
  }

  /** Where `index` itself sits among the nine `BoxEntry` cells. */
  function SelfInBox(index: nat): nat
  {
    index / 9 % 3 * 3 + index % 3
  }

  /** Entry `k` of the array `get_relevant_positions` fills. */
  function Entry(index: nat, k: nat): nat
    requires k < 20
  {
    if k < 6 then RowEntry(index, k)
    else if k < 12 then ColumnEntry(index, k - 6)
    else if k - 12 < SelfInBox(index) then BoxEntry(index, k - 12)
    else BoxEntry(index, k - 11)
  }

  /** A cell index split into band, row in band, stack and column in stack. */
  lemma Split(n: nat)
    ensures n == 27 * (n / 27) + 9 * (n / 9 % 3) + 3 * (n % 9 / 3) + n % 3
    ensures n / 9 == 3 * (n / 27) + n / 9 % 3 && n % 9 == 3 * (n % 9 / 3) + n % 3
    ensures n % 9 / 3 < 3 && n / 9 % 3 < 3 && n % 3 < 3
  {
    var row, col := n / 9, n % 9;
    assert n == 9 * row + col && col < 9;
    var band, r := row / 3, row % 3;
    assert row == 3 * band + r && r < 3;
    var stack, c := col / 3, col % 3;
    assert col == 3 * stack + c && stack < 3 && c < 3;
    assert n == 27 * band + (9 * r + col) && 9 * r + col < 27;
    assert n / 27 == band;
    assert n == 3 * (9 * band + 3 * r + stack) + c;
    assert n % 3 == c;
  }

  lemma BoxEntrySelf(index: nat, i: nat)
    requires i < 9
    ensures BoxEntry(index, i) == index <==> i == SelfInBox(index)
  {
    Split(index);
  }

  /**
   * `get_relevant_positions`: the 20 peers of `index`, the six other-box cells
   * of its row first, then the six other-box cells of its column, then the
   * other eight cells of its box, each group in increasing order.
   */
  method GetRelevantPositions(index: nat) returns (r: seq<nat>)
    ensures |r| == 20
    ensures index !in r
    ensures forall k :: 0 <= k < 6 ==> Board.Row(r[k]) == Board.Row(index) && BoxCol(r[k]) != BoxCol(index)
    ensures forall k :: 6 <= k < 12 ==> Board.Col(r[k]) == Board.Col(index) && BoxRow(r[k]) != BoxRow(index)
    ensures forall k :: 12 <= k < 20 ==> SameBox(r[k], index)
    ensures forall a, b :: 0 <= a < b < 6 ==> r[a] < r[b]
    ensures forall a, b :: 6 <= a < b < 12 ==> r[a] < r[b]
    ensures forall a, b :: 12 <= a < b < 20 ==> r[a] < r[b]
    ensures forall a, b :: 0 <= a < b < 20 ==> r[a] != r[b]
    ensures index < Board.CellCount ==> forall k :: 0 <= k < 20 ==> r[k] < Board.CellCount
    ensures index < Board.CellCount ==> forall j :: 0 <= j < Board.CellCount ==> (IsPeer(index, j) <==> j in r)
  {
    var x := index % 9;
    var y := index / 9;
    var boxX := index % 9 / 3;
    var boxY := index / 27;
    var rtn := new nat[20];
    var count: nat := 0;
    for i := 0 to 6
      invariant count == i
      invariant forall k :: 0 <= k < count ==> rtn[k] == Entry(index, k)
    {
      rtn[count] := y * 9 + i + (if i / 3 >= boxX then 1 else 0) * 3;
      count := count + 1;
    }
    for i := 0 to 6
      invariant count == 6 + i
      invariant forall k :: 0 <= k < count ==> rtn[k] == Entry(index, k)
    {
      rtn[count] := x + (i + (if i / 3 >= boxY then 1 else 0) * 3) * 9;
      count := count + 1;
    }
    for i := 0 to 9
      invariant count == 12 + i - (if i > SelfInBox(index) then 1 else 0)
      invariant forall k :: 0 <= k < count ==> rtn[k] == Entry(index, k)
    {
      var crnt := boxY * 27 + boxX * 3 + i % 3 + i / 3 * 9;
      BoxEntrySelf(index, i);
      if crnt != index {
        rtn[count] := crnt;
        count := count + 1;
      }
    }
    r := rtn[..];
    EntriesGrouped(index, r);
    EntriesOrdered(index, r);
    EntriesDistinct(index, r);
    if index < Board.CellCount {
      EntriesArePeers(index, r);
      PeersAreEntries(index, r);
    }
  }

  /** Row-major order: an earlier row, or the same row and an earlier column. */
  lemma RowMajorOrder(p: nat, q: nat)
    requires Board.Row(p) < Board.Row(q) || (Board.Row(p) == Board.Row(q) && Board.Col(p) < Board.Col(q))
    ensures p < q
  {
  }

  lemma RowEntryFacts(index: nat, i: nat)
    requires i < 6
    ensures Board.Row(RowEntry(index, i)) == Board.Row(index)
    ensures Board.Col(RowEntry(index, i)) == i + (if i / 3 >= BoxCol(index) then 3 else 0)
    ensures BoxCol(RowEntry(index, i)) != BoxCol(index)
  {
  }

  lemma ColumnEntryFacts(index: nat, i: nat)
    requires i < 6
    ensures Board.Col(ColumnEntry(index, i)) == Board.Col(index)
    ensures Board.Row(ColumnEntry(index, i)) == i + (if i / 3 >= BoxRow(index) then 3 else 0)
    ensures BoxRow(ColumnEntry(index, i)) != BoxRow(index)
  {
    assert index / 27 == BoxRow(index);
  }

  lemma BoxEntryFacts(index: nat, i: nat)
    requires i < 9
    ensures Board.Row(BoxEntry(index, i)) == BoxRow(index) * 3 + i / 3
    ensures Board.Col(BoxEntry(index, i)) == BoxCol(index) * 3 + i % 3
    ensures SameBox(BoxEntry(index, i), index)
  {
    assert index / 27 == BoxRow(index);
  }

  /** The three groups of `get_relevant_positions`. */
  lemma EntriesGrouped(index: nat, r: seq<nat>)
    requires |r| == 20 && forall k :: 0 <= k < 20 ==> r[k] == Entry(index, k)
    ensures forall k :: 0 <= k < 6 ==> Board.Row(r[k]) == Board.Row(index) && BoxCol(r[k]) != BoxCol(index)
    ensures forall k :: 6 <= k < 12 ==> Board.Col(r[k]) == Board.Col(index) && BoxRow(r[k]) != BoxRow(index)
    ensures forall k :: 12 <= k < 20 ==> SameBox(r[k], index)
  {
    forall k | 0 <= k < 6
      ensures Board.Row(r[k]) == Board.Row(index) && BoxCol(r[k]) != BoxCol(index)
    {
      RowEntryFacts(index, k);
    }
    forall k | 6 <= k < 12
      ensures Board.Col(r[k]) == Board.Col(index) && BoxRow(r[k]) != BoxRow(index)
    {
      ColumnEntryFacts(index, k - 6);
    }
    forall k | 12 <= k < 20
      ensures SameBox(r[k], index)
    {
      BoxEntryFacts(index, if k - 12 < SelfInBox(index) then k - 12 else k - 11);
    }
  }

  /** Each group of `get_relevant_positions` is in increasing order. */
  lemma EntriesOrdered(index: nat, r: seq<nat>)
    requires |r| == 20 && forall k :: 0 <= k < 20 ==> r[k] == Entry(index, k)
    ensures forall a, b :: 0 <= a < b < 6 ==> r[a] < r[b]
    ensures forall a, b :: 6 <= a < b < 12 ==> r[a] < r[b]
    ensures forall a, b :: 12 <= a < b < 20 ==> r[a] < r[b]
  {
    RowEntriesOrdered(index, r);
    ColumnEntriesOrdered(index, r);
    BoxEntriesOrdered(index, r);
  }

  lemma RowEntriesOrdered(index: nat, r: seq<nat>)
    requires |r| == 20 && forall k :: 0 <= k < 20 ==> r[k] == Entry(index, k)
    ensures forall a, b :: 0 <= a < b < 6 ==> r[a] < r[b]
  {
    forall a, b | 0 <= a < b < 6 ensures r[a] < r[b] {
      RowEntryFacts(index, a);
      RowEntryFacts(index, b);
      RowMajorOrder(r[a], r[b]);
    }
  }

  lemma ColumnEntriesOrdered(index: nat, r: seq<nat>)
    requires |r| == 20 && forall k :: 0 <= k < 20 ==> r[k] == Entry(index, k)
    ensures forall a, b :: 6 <= a < b < 12 ==> r[a] < r[b]
  {
    forall a, b | 6 <= a < b < 12 ensures r[a] < r[b] {
      ColumnEntryFacts(index, a - 6);
      ColumnEntryFacts(index, b - 6);
      RowMajorOrder(r[a], r[b]);
    }
  }

  lemma BoxEntriesOrdered(index: nat, r: seq<nat>)
    requires |r| == 20 && forall k :: 0 <= k < 20 ==> r[k] == Entry(index, k)
    ensures forall a, b :: 12 <= a < b < 20 ==> r[a] < r[b]
  {
    forall a, b | 12 <= a < b < 20 ensures r[a] < r[b] {
      var i := if a - 12 < SelfInBox(index) then a - 12 else a - 11;
      var j := if b - 12 < SelfInBox(index) then b - 12 else b - 11;
      BoxEntryFacts(index, i);
      BoxEntryFacts(index, j);
      RowMajorOrder(r[a], r[b]);
    }
  }

  lemma EntriesDistinct(index: nat, r: seq<nat>)
    requires |r| == 20 && forall k :: 0 <= k < 20 ==> r[k] == Entry(index, k)
    ensures index !in r
    ensures forall a, b :: 0 <= a < b < 20 ==> r[a] != r[b]
  {
    EntriesGrouped(index, r);
    EntriesOrdered(index, r);
    forall k | 12 <= k < 20 ensures r[k] != index {
      BoxEntrySelf(index, if k - 12 < SelfInBox(index) then k - 12 else k - 11);
    }
  }

  /** Every entry is a peer of `index` on the board. */
  lemma EntriesArePeers(index: nat, r: seq<nat>)
    requires index < Board.CellCount
    requires |r| == 20 && forall k :: 0 <= k < 20 ==> r[k] == Entry(index, k)
    ensures forall k :: 0 <= k < 20 ==> r[k] < Board.CellCount && IsPeer(index, r[k])
  {
    EntriesGrouped(index, r);
    EntriesDistinct(index, r);
    forall k | 0 <= k < 20 ensures r[k] < Board.CellCount {
      if k < 6 {
        RowEntryFacts(index, k);
      } else if k < 12 {
        ColumnEntryFacts(index, k - 6);
      } else {
        BoxEntryFacts(index, if k - 12 < SelfInBox(index) then k - 12 else k - 11);
      }
      OnBoardCell(r[k]);
    }
  }

  /** A cell in one of the nine rows and nine columns is on the board. */
  lemma OnBoardCell(p: nat)
    requires Board.Row(p) < 9
    ensures p < Board.CellCount
  {
  }

  /** Every peer of `index` on the board is an entry. */
  lemma PeersAreEntries(index: nat, r: seq<nat>)
    requires index < Board.CellCount
    requires |r| == 20 && forall k :: 0 <= k < 20 ==> r[k] == Entry(index, k)
    ensures forall j :: 0 <= j < Board.CellCount && IsPeer(index, j) ==> j in r
  {
    forall j | 0 <= j < Board.CellCount && IsPeer(index, j) ensures j in r {
      PeerIsEntry(index, j, r);
    }
  }

  lemma PeerIsEntry(index: nat, j: nat, r: seq<nat>)
    requires index < Board.CellCount && j < Board.CellCount && IsPeer(index, j)
    requires |r| == 20 && forall k :: 0 <= k < 20 ==> r[k] == Entry(index, k)
    ensures j in r
  {
    if SameBox(j, index) {
      var i := Board.Row(j) % 3 * 3 + Board.Col(j) % 3;
      BoxPeerEntry(index, j, i);
      var k := if i < SelfInBox(index) then i + 12 else i + 11;
      assert r[k] == j;
    } else if Board.Row(j) == Board.Row(index) {
      var c := Board.Col(j);
      var i := if c / 3 < BoxCol(index) then c else c - 3;
      RowEntryFacts(index, i);
      SameRowCol(RowEntry(index, i), j);
      assert r[i] == j;
    } else {
      var w := Board.Row(j);
      var i := if w / 3 < BoxRow(index) then w else w - 3;
      ColumnEntryFacts(index, i);
      SameRowCol(ColumnEntry(index, i), j);
      assert r[6 + i] == j;
    }
  }

  /** A cell is determined by its row and its column. */
  lemma SameRowCol(p: nat, q: nat)
    requires Board.Row(p) == Board.Row(q) && Board.Col(p) == Board.Col(q)
    ensures p == q
  {
  }

  lemma BoxPeerEntry(index: nat, j: nat, i: nat)
    requires j != index && SameBox(j, index)
    requires i == Board.Row(j) % 3 * 3 + Board.Col(j) % 3
    ensures i < 9 && i != SelfInBox(index) && BoxEntry(index, i) == j
  {
    BoxEntryFacts(index, i);
    SameRowCol(BoxEntry(index, i), j);
    BoxEntrySelf(index, i);
  }

  // ----- Elimination ---------------------------------------------------------

  /** The peers of `index` among the cells `j..80`, in increasing order. */
  function PeersFrom(index: nat, j: nat): (ps: seq<nat>)
    requires j <= Board.CellCount
    ensures forall p :: p in ps <==> j <= p < Board.CellCount && IsPeer(index, p)
    ensures forall k :: 0 <= k < |ps| ==> j <= ps[k] < Board.CellCount
    decreases Board.CellCount - j
  {
    if j == Board.CellCount then []
    else (if IsPeer(index, j) then [j] else []) + PeersFrom(index, j + 1)
  }

  /** All peers of `index`, found by scanning the board: a reference for `GetRelevantPositions`. */
  function PeerList(index: nat): (ps: seq<nat>)
    ensures forall k :: 0 <= k < |ps| ==> ps[k] < Board.CellCount
    ensures forall j: nat :: j in ps <==> j < Board.CellCount && IsPeer(index, j)
  {
    PeersFrom(index, 0)
  }

  predicate OnBoard(cells: seq<bv16>, ps: seq<nat>)
  {
    forall k :: 0 <= k < |ps| ==> ps[k] < |cells|
  }

  /** What cell `p` adds to the union: its mask when it is known, nothing otherwise. */
  function Contribution(cells: seq<bv16>, p: nat): bv16
    requires p < |cells|
  {
    if Board.Board.IsKnownByValue(cells[p]) then cells[p] else 0
  }

  /** The union of the masks of the known cells among the first `n` of `ps`. */
  function KnownPrefixMask(cells: seq<bv16>, ps: seq<nat>, n: nat): bv16
    requires OnBoard(cells, ps) && n <= |ps|
  {
    if n == 0 then 0 else KnownPrefixMask(cells, ps, n - 1) | Contribution(cells, ps[n - 1])
  }

  /** The union of the masks of the known cells among `ps`. */
  function KnownMask(cells: seq<bv16>, ps: seq<nat>): bv16
    requires OnBoard(cells, ps)
  {
    KnownPrefixMask(cells, ps, |ps|)
  }

  lemma OrBit(x: bv16, y: bv16, b: Board.BitIndex)
    ensures Board.HasBit(x | y, b) == (Board.HasBit(x, b) || Board.HasBit(y, b))
  {
  }

  /** Cell `p` is known and has bit `b`. */
  predicate Contributes(cells: seq<bv16>, p: nat, b: Board.BitIndex)
    requires p < |cells|
  {
    Board.Board.IsKnownByValue(cells[p]) && Board.HasBit(cells[p], b)
  }

  lemma ZeroHasNoBit(b: Board.BitIndex)
    ensures !Board.HasBit(0, b)
  {
  }

  lemma ContributionBit(cells: seq<bv16>, p: nat, b: Board.BitIndex)
    requires p < |cells|
    ensures Board.HasBit(Contribution(cells, p), b) == Contributes(cells, p, b)
  {
    ZeroHasNoBit(b);
  }

  /** Bit `b` of the union is set exactly when some known cell among the first `n` has it. */
  lemma {:induction false} KnownPrefixMaskBit(cells: seq<bv16>, ps: seq<nat>, n: nat, b: Board.BitIndex)
    requires OnBoard(cells, ps) && n <= |ps|
    ensures Board.HasBit(KnownPrefixMask(cells, ps, n), b) <==>
      exists k :: 0 <= k < n && Contributes(cells, ps[k], b)
  {
    if n == 0 {
      ZeroHasNoBit(b);
    } else {
      KnownPrefixMaskBit(cells, ps, n - 1, b);
      OrBit(KnownPrefixMask(cells, ps, n - 1), Contribution(cells, ps[n - 1]), b);
      ContributionBit(cells, ps[n - 1], b);
    }
  }

  /** Bit `b` of `KnownMask` is set exactly when some known cell among `ps` has it. */
  lemma KnownMaskBit(cells: seq<bv16>, ps: seq<nat>, b: Board.BitIndex)
    requires OnBoard(cells, ps)
    ensures Board.HasBit(KnownMask(cells, ps), b) <==>
      exists k :: 0 <= k < |ps| && Contributes(cells, ps[k], b)
  {
    KnownPrefixMaskBit(cells, ps, |ps|, b);
  }

  /** The union depends only on which cells are listed, not on their order or repetition. */
  lemma KnownMaskOrderIndependent(cells: seq<bv16>, ps: seq<nat>, qs: seq<nat>)
    requires OnBoard(cells, ps) && OnBoard(cells, qs)
    requires forall j :: j in ps <==> j in qs
    ensures KnownMask(cells, ps) == KnownMask(cells, qs)
  {
    forall b: Board.BitIndex
      ensures Board.HasBit(KnownMask(cells, ps), b) == Board.HasBit(KnownMask(cells, qs), b)
    {
      KnownMaskBit(cells, ps, b);
      KnownMaskBit(cells, qs, b);
      if exists k :: 0 <= k < |ps| && Contributes(cells, ps[k], b) {
        ContributorIn(cells, ps, qs, b);
      }
      if exists k :: 0 <= k < |qs| && Contributes(cells, qs[k], b) {
        ContributorIn(cells, qs, ps, b);
      }
    }
    Board.BitsEqual(KnownMask(cells, ps), KnownMask(cells, qs));
  }

  lemma ContributorIn(cells: seq<bv16>, ps: seq<nat>, qs: seq<nat>, b: Board.BitIndex)
    requires OnBoard(cells, ps) && OnBoard(cells, qs)
    requires forall j :: j in ps ==> j in qs
    requires exists k :: 0 <= k < |ps| && Contributes(cells, ps[k], b)
    ensures exists k :: 0 <= k < |qs| && Contributes(cells, qs[k], b)
  {
    var k :| 0 <= k < |ps| && Contributes(cells, ps[k], b);
    assert ps[k] in qs;
    var k' :| 0 <= k' < |qs| && qs[k'] == ps[k];
    assert Contributes(cells, qs[k'], b);
  }

  /** What is left of mask `x` once the known cells among the first `n` of `ps` are removed. */
  function Remaining(x: bv16, cells: seq<bv16>, ps: seq<nat>, n: nat): bv16
    requires OnBoard(cells, ps) && n <= |ps|
  {
    x & !KnownPrefixMask(cells, ps, n)
  }

  /** One iteration of the elimination loop at a known cell extends the union by its mask. */
  lemma EliminateKnown(cells: seq<bv16>, ps: seq<nat>, n: nat, x: bv16)
    requires OnBoard(cells, ps) && n < |ps|
    requires Board.Board.IsKnownByValue(cells[ps[n]])
    ensures Remaining(x, cells, ps, n) & !cells[ps[n]] == Remaining(x, cells, ps, n + 1)
  {
    AndNotOr(x, KnownPrefixMask(cells, ps, n), cells[ps[n]]);
  }

  /** One iteration of the elimination loop at an unknown cell leaves the union as it is. */
  lemma EliminateUnknown(cells: seq<bv16>, ps: seq<nat>, n: nat)
    requires OnBoard(cells, ps) && n < |ps|
    requires !Board.Board.IsKnownByValue(cells[ps[n]])
    ensures KnownPrefixMask(cells, ps, n + 1) == KnownPrefixMask(cells, ps, n)
  {
    NoContribution(cells, ps[n]);
    OrZero(KnownPrefixMask(cells, ps, n));
  }

  lemma NoContribution(cells: seq<bv16>, p: nat)
    requires p < |cells| && !Board.Board.IsKnownByValue(cells[p])
    ensures Contribution(cells, p) == 0
  {
  }

  lemma AndNotOr(x: bv16, a: bv16, c: bv16)
    ensures x & !a & !c == x & !(a | c)
  {
  }

  lemma OrZero(a: bv16)
    ensures a | 0 == a
  {
  }

  /**
   * `remove_non_possibilities`: clear from `cells[index]` every digit held by a
   * known peer. No other cell changes, and an emptied cell is not reported.
   */
  method RemoveNonPossibilities(board: Board.Board, index: nat)
    requires board.Valid() && index < Board.CellCount
    modifies board.cells
    ensures forall k :: 0 <= k < Board.CellCount && k != index ==> board.cells[k] == old(board.cells[k])
    ensures board.cells[index] == old(board.cells[index]) & !KnownMask(old(board.cells[..]), PeerList(index))
  {
    ghost var before := board.cells[..];
    var positions := GetRelevantPositions(index);
    EliminateAlong(board, index, positions);
    PositionsCoverPeers(before, index, positions);
  }

  /** The loop of `remove_non_possibilities` over a given list of positions. */
  method EliminateAlong(board: Board.Board, index: nat, positions: seq<nat>)
    requires board.Valid() && index < Board.CellCount && index !in positions
    requires forall k :: 0 <= k < |positions| ==> positions[k] < Board.CellCount
    modifies board.cells
    ensures forall k :: 0 <= k < Board.CellCount && k != index ==> board.cells[k] == old(board.cells[k])
    ensures OnBoard(old(board.cells[..]), positions)
    ensures board.cells[index] == Remaining(old(board.cells[index]), old(board.cells[..]), positions, |positions|)
  {
    ghost var before := board.cells[..];
    for n := 0 to |positions|
      invariant forall k :: 0 <= k < Board.CellCount && k != index ==> board.cells[k] == before[k]
      invariant board.cells[index] == Remaining(before[index], before, positions, n)
    {
      var checkIndex := positions[n];
      if board.IsCellKnown(checkIndex) {
        EliminateKnown(before, positions, n, before[index]);
        board.cells[index] := board.cells[index] & !board.cells[checkIndex];
      } else {
        EliminateUnknown(before, positions, n);
      }
    }
  }

  /** Some known peer of `index` on the board holds digit bit `b`. */
  predicate KnownPeerHas(cells: seq<bv16>, index: nat, b: Board.BitIndex)
    requires |cells| == Board.CellCount
  {
    exists j :: 0 <= j < Board.CellCount && IsPeer(index, j) && Contributes(cells, j, b)
  }

  /**
   * What `remove_non_possibilities` leaves in a cell: digit bit `b` stays
   * exactly when it was there and no known peer holds it.
   */
  lemma EliminationBit(cells: seq<bv16>, index: nat, b: Board.BitIndex)
    requires |cells| == Board.CellCount && index < Board.CellCount
    ensures OnBoard(cells, PeerList(index))
    ensures Board.HasBit(cells[index] & !KnownMask(cells, PeerList(index)), b) <==>
      Board.HasBit(cells[index], b) && !KnownPeerHas(cells, index, b)
  {
    var ps := PeerList(index);
    var held := KnownPeerHas(cells, index, b);
    assert OnBoard(cells, ps);
    var m := KnownMask(cells, ps);
    assert Board.HasBit(m, b) == held by {
      KnownPeerMaskBit(cells, index, b);
    }
    AndNotHeld(cells[index], m, b, held);
  }

  /** Bit `b` of the union over the scanned peers is set exactly when a known peer holds it. */
  lemma KnownPeerMaskBit(cells: seq<bv16>, index: nat, b: Board.BitIndex)
    requires |cells| == Board.CellCount
    ensures OnBoard(cells, PeerList(index))
    ensures Board.HasBit(KnownMask(cells, PeerList(index)), b) <==> KnownPeerHas(cells, index, b)
  {
    KnownMaskBit(cells, PeerList(index), b);
    PeerListContributor(cells, index, b);
  }

  /** A known contributor among the scanned peers is a known peer on the board, and back. */
  lemma PeerListContributor(cells: seq<bv16>, index: nat, b: Board.BitIndex)
    requires |cells| == Board.CellCount
    ensures OnBoard(cells, PeerList(index))
    ensures (exists k :: 0 <= k < |PeerList(index)| && Contributes(cells, PeerList(index)[k], b)) <==>
      KnownPeerHas(cells, index, b)
  {
    var ps := PeerList(index);
    if exists k :: 0 <= k < |ps| && Contributes(cells, ps[k], b) {
      var k :| 0 <= k < |ps| && Contributes(cells, ps[k], b);
      assert ps[k] in ps;
    }
    if KnownPeerHas(cells, index, b) {
      var j :| 0 <= j < Board.CellCount && IsPeer(index, j) && Contributes(cells, j, b);
      assert j in ps;
      var k :| 0 <= k < |ps| && ps[k] == j;
      assert Contributes(cells, ps[k], b);
    }
  }

  /**
   * Nothing stops the elimination from emptying a cell: when known peers hold
   * every remaining candidate, the cell becomes 0.
   */
  lemma EliminationEmpties(cells: seq<bv16>, index: nat)
    requires |cells| == Board.CellCount && index < Board.CellCount
    requires forall b: Board.BitIndex :: Board.HasBit(cells[index], b) ==> KnownPeerHas(cells, index, b)
    ensures OnBoard(cells, PeerList(index))
    ensures cells[index] & !KnownMask(cells, PeerList(index)) == 0
  {
    var r := cells[index] & !KnownMask(cells, PeerList(index));
    forall b: Board.BitIndex ensures Board.HasBit(r, b) == Board.HasBit(0, b) {
      EliminationBit(cells, index, b);
      ZeroHasNoBit(b);
    }
    Board.BitsEqual(r, 0);
  }

  /** Clearing the bits of `m` keeps bit `b` exactly when `m` does not hold it. */
  lemma AndNotHeld(x: bv16, m: bv16, b: Board.BitIndex, held: bool)
    requires Board.HasBit(m, b) == held
    ensures Board.HasBit(x & !m, b) == (Board.HasBit(x, b) && !held)
  {
    AndNotBit(x, m, b);
  }

  lemma AndNotBit(x: bv16, m: bv16, b: Board.BitIndex)
    ensures Board.HasBit(x & !m, b) == (Board.HasBit(x, b) && !Board.HasBit(m, b))
  {
  }

  /** Eliminating along the listed positions is eliminating along the scanned peers. */
  lemma PositionsCoverPeers(cells: seq<bv16>, index: nat, positions: seq<nat>)
    requires |cells| == Board.CellCount && index < Board.CellCount && |positions| == 20
    requires forall k :: 0 <= k < 20 ==> positions[k] < Board.CellCount
    requires forall j :: 0 <= j < Board.CellCount ==> (IsPeer(index, j) <==> j in positions)
    ensures OnBoard(cells, positions) && OnBoard(cells, PeerList(index))
    ensures KnownPrefixMask(cells, positions, 20) == KnownMask(cells, PeerList(index))
  {
    var peers := PeerList(index);
    assert forall k :: 0 <= k < |peers| ==> peers[k] in peers;
    KnownMaskOrderIndependent(cells, positions, peers);
  }
}
