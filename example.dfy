/**
 * The run in `main`: parse the puzzle, eliminate at cell 45, then ask whether
 * cells 0 and 1 are known.
 */
module Example {
  import Board
  import Solver

  /**
   * The cell characters of `main`'s puzzle at cell 45, at its twenty peers and
   * at cells 0 and 1 (cells numbered row by row from the top left).
   */
  predicate MainCells(t: string)
  {
    |t| == Board.CellCount &&
    t[0] == '6' && t[1] == '-' && t[9] == '8' && t[18] == '-' && t[27] == '4' &&
    t[28] == '3' && t[29] == '-' && t[36] == '5' && t[37] == '1' && t[38] == '8' &&
    t[45] == '-' && t[46] == '9' && t[47] == '6' && t[48] == '4' && t[49] == '1' &&
    t[50] == '-' && t[51] == '3' && t[52] == '-' && t[53] == '-' && t[54] == '-' &&
    t[63] == '-' && t[72] == '7'
  }

  /** On such a board `remove_non_possibilities(45)` leaves only digit 2 in cell 45. */
  method MainRun(state: string) returns (cell45: bv16, known0: bool, known1: bool)
    requires Board.WellFormedTokens(Board.Tokens(state)) && MainCells(Board.Tokens(state))
    ensures cell45 == 0x002 && known0 && !known1
  {
    var board := Board.Board.Init(state);
    DigitMasks();
    MainElimination(board.cells[..]);
    Solver.RemoveNonPossibilities(board, 45);
    cell45 := board.cells[45];
    known0 := board.IsCellKnown(0);
    known1 := board.IsCellKnown(1);
  }

  lemma DigitMasks()
    ensures Board.CellValue('-') == Board.Full
    ensures Board.CellValue('1') == 0x001 && Board.CellValue('2') == 0x002 && Board.CellValue('3') == 0x004
    ensures Board.CellValue('4') == 0x008 && Board.CellValue('5') == 0x010 && Board.CellValue('6') == 0x020
    ensures Board.CellValue('7') == 0x040 && Board.CellValue('8') == 0x080 && Board.CellValue('9') == 0x100
  {
    LowDigitMasks();
    HighDigitMasks();
  }

  lemma LowDigitMasks()
    ensures Board.CellValue('1') == 0x001 && Board.CellValue('2') == 0x002 && Board.CellValue('3') == 0x004
    ensures Board.CellValue('4') == 0x008
  {
  }

  lemma HighDigitMasks()
    ensures Board.CellValue('5') == 0x010 && Board.CellValue('6') == 0x020
    ensures Board.CellValue('7') == 0x040 && Board.CellValue('8') == 0x080 && Board.CellValue('9') == 0x100
  {
  }

  /**
   * The peers of cell 45 in the order `get_relevant_positions` lists them:
   * 48 to 53, then 0, 9, 18, 54, 63, 72, then 27, 28, 29, 36, 37, 38, 46, 47.
   */
  const Peers45: seq<nat> := seq(20, k requires 0 <= k < 20 => Solver.Entry(45, k))

  /** The elimination at cell 45 of `main`'s board, from the masks of its peers. */
  lemma MainElimination(cells: seq<bv16>)
    requires |cells| == Board.CellCount && cells[45] == Board.Full
    requires cells[48] == 0x008 && cells[49] == 0x001 && cells[50] == 0x1FF && cells[51] == 0x004
    requires cells[52] == 0x1FF && cells[53] == 0x1FF && cells[0] == 0x020 && cells[9] == 0x080
    requires cells[18] == 0x1FF && cells[54] == 0x1FF && cells[63] == 0x1FF && cells[72] == 0x040
    requires cells[27] == 0x008 && cells[28] == 0x004 && cells[29] == 0x1FF && cells[36] == 0x010
    requires cells[37] == 0x001 && cells[38] == 0x080 && cells[46] == 0x100 && cells[47] == 0x020
    ensures Solver.OnBoard(cells, Solver.PeerList(45))
    ensures cells[45] & !Solver.KnownMask(cells, Solver.PeerList(45)) == 0x002
  {
    assert |Peers45| == 20 && forall k :: 0 <= k < 20 ==> Peers45[k] == Solver.Entry(45, k);
    Solver.EntriesArePeers(45, Peers45);
    Solver.PeersAreEntries(45, Peers45);
    Solver.PositionsCoverPeers(cells, 45, Peers45);
    MainKnownPeers(cells);
  }

  /** The union of the known peers' masks, peer by peer: digits 1 and 3 to 9. */
  lemma MainKnownPeers(cells: seq<bv16>)
    requires |cells| == Board.CellCount
    requires cells[48] == 0x008 && cells[49] == 0x001 && cells[50] == 0x1FF && cells[51] == 0x004
    requires cells[52] == 0x1FF && cells[53] == 0x1FF && cells[0] == 0x020 && cells[9] == 0x080
    requires cells[18] == 0x1FF && cells[54] == 0x1FF && cells[63] == 0x1FF && cells[72] == 0x040
    requires cells[27] == 0x008 && cells[28] == 0x004 && cells[29] == 0x1FF && cells[36] == 0x010
    requires cells[37] == 0x001 && cells[38] == 0x080 && cells[46] == 0x100 && cells[47] == 0x020
    ensures Solver.OnBoard(cells, Peers45)
    ensures Solver.KnownPrefixMask(cells, Peers45, 20) == 0x1FD
  {
    MainKnownLinePeers(cells);
    assert Solver.KnownPrefixMask(cells, Peers45, 13) == 0x0ED;
    assert Solver.KnownPrefixMask(cells, Peers45, 14) == 0x0ED;
    assert Solver.KnownPrefixMask(cells, Peers45, 15) == 0x0ED;
    assert Solver.KnownPrefixMask(cells, Peers45, 16) == 0x0FD;
    assert Solver.KnownPrefixMask(cells, Peers45, 17) == 0x0FD;
    assert Solver.KnownPrefixMask(cells, Peers45, 18) == 0x0FD;
    assert Solver.KnownPrefixMask(cells, Peers45, 19) == 0x1FD;
    assert Solver.KnownPrefixMask(cells, Peers45, 20) == 0x1FD;
  }

  /** The same union over the twelve peers in the row and the column of cell 45. */
  lemma MainKnownLinePeers(cells: seq<bv16>)
    requires |cells| == Board.CellCount
    requires cells[48] == 0x008 && cells[49] == 0x001 && cells[50] == 0x1FF && cells[51] == 0x004
    requires cells[52] == 0x1FF && cells[53] == 0x1FF && cells[0] == 0x020 && cells[9] == 0x080
    requires cells[18] == 0x1FF && cells[54] == 0x1FF && cells[63] == 0x1FF && cells[72] == 0x040
    ensures Solver.OnBoard(cells, Peers45)
    ensures Solver.KnownPrefixMask(cells, Peers45, 12) == 0x0ED
  {
    assert Solver.KnownPrefixMask(cells, Peers45, 1) == 0x008;
    assert Solver.KnownPrefixMask(cells, Peers45, 2) == 0x009;
    assert Solver.KnownPrefixMask(cells, Peers45, 3) == 0x009;
    assert Solver.KnownPrefixMask(cells, Peers45, 4) == 0x00D;
    assert Solver.KnownPrefixMask(cells, Peers45, 5) == 0x00D;
    assert Solver.KnownPrefixMask(cells, Peers45, 6) == 0x00D;
    assert Solver.KnownPrefixMask(cells, Peers45, 7) == 0x02D;
    assert Solver.KnownPrefixMask(cells, Peers45, 8) == 0x0AD;
    assert Solver.KnownPrefixMask(cells, Peers45, 9) == 0x0AD;
    assert Solver.KnownPrefixMask(cells, Peers45, 10) == 0x0AD;
    assert Solver.KnownPrefixMask(cells, Peers45, 11) == 0x0AD;
    assert Solver.KnownPrefixMask(cells, Peers45, 12) == 0x0ED;
  }
}
