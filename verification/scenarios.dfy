/**
 * A worked example of the puzzle, evaluated on the model: the rows `aA` and
 * `a.`, where player `a` has road cells (0, 0) and (0, 1) and a base at (1, 0).
 * The longest-road rule gives `a` a road of 2 cells; the set version names no
 * winner, and the list version does not panic but names no winner either.
 */
module Scenarios {
  import opened Collections
  import opened Board
  import SetPath
  import VecPath
  import SimplePaths
  import Scoring

  /** The only player of the example. */
  const A := Player('a', 'A')

  /** The grid read from the rows `aA` and `a.`. */
  ghost function TwoRows(): Grid {
    PushStr(PushStr(map[], "aA"), "a.")
  }

  /** Player `a`'s road cells in the example: one column, two rows. */
  function Column(): set<Pos> {
    {Pos(0, 0), Pos(0, 1)}
  }

  /** The example's grid, cell by cell. */
  ghost predicate IsExample(g: Grid) {
    && g.Keys == {Pos(0, 0), Pos(1, 0), Pos(0, 1), Pos(1, 1)}
    && g[Pos(0, 0)] == Slot.Path(A) && g[Pos(1, 0)] == Base(A)
    && g[Pos(0, 1)] == Slot.Path(A) && g[Pos(1, 1)] == Open
  }

  /** The first row `aA`: a road cell and a base, at height 0. */
  function FirstRow(): Grid {
    map[Pos(0, 0) := Slot.Path(A), Pos(1, 0) := Base(A)]
  }

  /** Pushing `aA` onto the empty grid gives `FirstRow()`, of height 1. */
  lemma PushFirstRow()
    ensures PushStr(map[], "aA") == FirstRow()
    ensures Height(FirstRow()) == 1
  {
    var g1 := PushStr(map[], "aA");
    assert Cells(0, 0, 2) == {Pos(0, 0), Pos(1, 0)} by {
      CellsStep(0, 0, 2);
      CellsStep(0, 1, 2);
    }
    assert g1[Pos(0, 0)] == SlotOf('a');
    assert g1[Pos(1, 0)] == SlotOf('A');
    PushStrHeight(map[], "aA");
  }

  /**
   * Pushing `a.` below the first row gives the example grid. The height of the
   * first row comes in as a requires, so that this proof does not also have to
   * unfold `PushFirstRow`'s map; `TwoRowsCells` supplies it.
   */
  lemma PushSecondRow()
    requires Height(FirstRow()) == 1
    ensures IsExample(PushStr(FirstRow(), "a."))
  {
    var g := PushStr(FirstRow(), "a.");
    assert Cells(1, 0, 2) == {Pos(0, 1), Pos(1, 1)} by {
      CellsStep(1, 0, 2);
      CellsStep(1, 1, 2);
    }
    assert g[Pos(0, 1)] == SlotOf('a');
    assert g[Pos(1, 1)] == SlotOf('.');
  }

  /** Pushing the two rows builds the example grid. */
  lemma TwoRowsCells()
    ensures IsExample(TwoRows())
  {
    PushFirstRow();
    PushSecondRow();
  }

  /** Every cell of the example is `a`'s or open, and `a`'s road cells form the column. */
  lemma OwnedByA(g: Grid, k: Pos)
    requires IsExample(g) && k in g
    ensures Owner(g[k]) == Some(A) || Owner(g[k]) == None
    ensures g[k] == Slot.Path(A) <==> k in Column()
  {
    assert k in {Pos(0, 0), Pos(1, 0), Pos(0, 1), Pos(1, 1)};
  }

  /** Only `a` is listed. */
  lemma OnlyA(g: Grid, pl: Player)
    requires IsExample(g) && pl in Players(g)
    ensures pl == A
  {
    var k :| k in g && Owner(g[k]) == Some(pl);
    OwnedByA(g, k);
  }

  /** `a` is listed. */
  lemma AListed(g: Grid)
    requires IsExample(g)
    ensures A in Players(g)
  {
    assert Pos(0, 0) in g && Owner(g[Pos(0, 0)]) == Some(A);
  }

  /** `a`'s road subgraph is the column. */
  lemma RoadsOfA(g: Grid)
    requires IsExample(g)
    ensures SetPath.RoadsForPlayer(g, A) == Column()
  {
    var roads := SetPath.RoadsForPlayer(g, A);
    forall k | k in roads
      ensures k in Column()
    {
      OwnedByA(g, k);
    }
    assert Pos(0, 0) in g && Pos(0, 1) in g;
  }

  /** The column has two cells. */
  lemma ColumnCard()
    ensures |Column()| == 2
  {
    var xs := [Pos(0, 0), Pos(0, 1)];
    assert Elems(xs) == Column();
    DistinctCard(xs);
  }

  /** The column's longest road has both its cells. */
  lemma ColumnRoad()
    ensures SimplePaths.IsSimplePath(Column(), [Pos(0, 0), Pos(0, 1)])
    ensures SimplePaths.LongestRoad(Column()) == 2
  {
    assert SimplePaths.IsSimplePath(Column(), [Pos(0, 0), Pos(0, 1)]);
    ColumnCard();
  }

  /** The intended scoring names `a` with a road of 2 cells. */
  lemma TwoRowsIntended()
    ensures Scoring.IntendedMain(TwoRows()) == Scoring.Standing(2, Some(A))
  {
    TwoRowsCells();
    IntendedOnExample(TwoRows());
  }

  /** On any grid with the example's cells, the intended scoring names `a` with 2. */
  lemma IntendedOnExample(g: Grid)
    requires IsExample(g)
    ensures Scoring.IntendedMain(g) == Scoring.Standing(2, Some(A))
  {
    AListed(g);
    RoadsOfA(g);
    ColumnRoad();
    ColumnCard();
    var r := Scoring.IntendedMain(g);
    assert Pos(0, 0) in g && g[Pos(0, 0)].Path?;
    OnlyA(g, r.winner.value);
    var p :| SimplePaths.IsSimplePath(SetPath.RoadsForPlayer(g, r.winner.value), p) && |p| == r.best;
    SimplePaths.SimplePathWithin(Column(), p);
    assert SimplePaths.IsSimplePath(SetPath.RoadsForPlayer(g, A), [Pos(0, 0), Pos(0, 1)]);
  }

  /** The set version names no winner, although `a` owns a road of 2 cells. */
  lemma TwoRowsSet()
    ensures Scoring.SetMain(TwoRows()) == Scoring.Standing(0, None)
  {
  }

  /** `a`'s road list in the list version: two cells, the first with a neighbour. */
  lemma FirstCellOfA(g: Grid)
    requires IsExample(g)
    ensures Scoring.FirstCellHasNeighbour(VecPath.RoadsForPlayer(g, A))
  {
    var roads := VecPath.RoadsForPlayer(g, A);
    VecPath.RoadsAgree(g, A);
    RoadsOfA(g);
    ColumnCard();
    assert roads[0] in Elems(roads) && roads[1] in Elems(roads);
    assert roads[0] != roads[1];
    assert Adjacent(roads[1], roads[0]);
  }

  /**
   * With debug-build arithmetic the example panics instead: each of `a`'s road
   * cells lies in column 0, and `get_adjacent` compares it with itself.
   */
  lemma ExampleDebugPanics(g: Grid)
    requires IsExample(g)
    ensures forall k | k in g :: InUsize(k)
    ensures var roads := VecPath.RoadsForPlayer(g, A);
      forall i | 0 <= i < |roads| :: AdjacentChecked(roads[i], roads[i]) == None
    ensures forall k | k in SetPath.RoadsForPlayer(g, A) :: AdjacentChecked(k, k) == None
  {
    var roads := VecPath.RoadsForPlayer(g, A);
    RoadsOfA(g);
    ColumnSelfComparison();
    forall i | 0 <= i < |roads|
      ensures AdjacentChecked(roads[i], roads[i]) == None
    {
      assert g[roads[i]] == Slot.Path(A);
      OwnedByA(g, roads[i]);
    }
  }

  /** Both cells of the column lie in column 0, so each panics when compared with itself. */
  lemma ColumnSelfComparison()
    ensures forall k | k in Column() :: AdjacentChecked(k, k) == None
  {
    SelfComparisonOnEdge(Pos(0, 0));
    SelfComparisonOnEdge(Pos(0, 1));
  }

  /** The list version completes, since `a`'s first road cell has a neighbour, but names no winner. */
  lemma TwoRowsVec()
    ensures Scoring.VecMain(TwoRows()) == Outcome.Ok(Scoring.Standing(0, None))
  {
    TwoRowsCells();
    VecOnExample(TwoRows());
  }

  /** On any grid with the example's cells, the list version completes and names no winner. */
  lemma VecOnExample(g: Grid)
    requires IsExample(g)
    ensures Scoring.VecMain(g) == Outcome.Ok(Scoring.Standing(0, None))
  {
    forall pl | pl in Players(g)
      ensures Scoring.FirstCellHasNeighbour(VecPath.RoadsForPlayer(g, pl))
    {
      OnlyA(g, pl);
      FirstCellOfA(g);
    }
  }
}
