/**
 * The longest-road rule the solver is meant to implement: the length of a
 * player's longest simple path (no cell twice, consecutive cells sharing an
 * edge) through their road cells. `LongestSimplePath` is an exhaustive
 * search that carries a separate exclusion set down every branch; it is
 * proved to return a simple path that no other simple path outgrows.
 */
module SimplePaths {
  import opened Collections
  import opened Board
  import SetPath

  /** `p` is a simple path through the cells `s`. */
  ghost predicate IsSimplePath(s: set<Pos>, p: seq<Pos>) {
    && |p| > 0
    && (forall i | 0 <= i < |p| :: p[i] in s)
    && Distinct(p)
    && (forall i | 0 <= i < |p| - 1 :: Adjacent(p[i], p[i + 1]))
  }

  /** No cell of `p` is in `visited`. */
  ghost predicate Avoids(p: seq<Pos>, visited: set<Pos>) {
    forall i | 0 <= i < |p| :: p[i] !in visited
  }

  /** Prepending a neighbour that the path avoids keeps it simple. */
  lemma Prepend(s: set<Pos>, pos: Pos, w: seq<Pos>, visited: set<Pos>)
    requires pos in s && pos !in visited
    requires IsSimplePath(s, w) && Avoids(w, visited + {pos}) && Adjacent(w[0], pos)
    ensures IsSimplePath(s, [pos] + w) && Avoids([pos] + w, visited)
  {
    var p := [pos] + w;
    assert forall i | 1 <= i < |p| :: p[i] == w[i - 1];
    AdjacentSymmetric(w[0], pos);
  }

  /**
   * A longest simple path that starts at `pos` and avoids `visited`: `pos`
   * followed by the best continuation from its unvisited neighbours.
   */
  ghost function BestFrom(s: set<Pos>, pos: Pos, visited: set<Pos>): (p: seq<Pos>)
    requires pos in s && pos !in visited
    ensures IsSimplePath(s, p) && p[0] == pos && Avoids(p, visited)
    decreases |s - visited|, 0, 0
  {
    var visited' := visited + {pos};
    SetPath.ExclusionShrinks(s, visited, pos);
    var next := SetPath.GetAdjacent(s, pos, visited');
    match BestAmong(s, next, visited')
    case None => [pos]
    case Some(w) =>
      Prepend(s, pos, w, visited);
      [pos] + w
  }

  /** The longest of the `BestFrom` paths over the start cells `starts`; `None` when there are none. */
  ghost function BestAmong(s: set<Pos>, starts: set<Pos>, visited: set<Pos>): (r: Option<seq<Pos>>)
    requires starts <= s && starts !! visited
    ensures r.Some? <==> starts != {}
    ensures r.Some? ==> IsSimplePath(s, r.value) && r.value[0] in starts && Avoids(r.value, visited)
    ensures r.Some? ==> forall q | q in starts :: |BestFrom(s, q, visited)| <= |r.value|
    decreases |s - visited|, 1, |starts|
  {
    if starts == {} then None
    else
      var q :| q in starts;
      var here := BestFrom(s, q, visited);
      match BestAmong(s, starts - {q}, visited)
      case None => Some(here)
      case Some(other) => if |other| > |here| then Some(other) else Some(here)
  }

  /** No simple path from `pos` that avoids `visited` is longer than `BestFrom`. */
  lemma {:induction false} BestFromIsLongest(s: set<Pos>, pos: Pos, visited: set<Pos>, p: seq<Pos>)
    requires pos in s && pos !in visited
    requires IsSimplePath(s, p) && p[0] == pos && Avoids(p, visited)
    ensures |p| <= |BestFrom(s, pos, visited)|
    decreases |s - visited|
  {
    if |p| > 1 {
      var visited' := visited + {pos};
      var tail := p[1..];
      Tail(s, p, visited);
      var next := SetPath.GetAdjacent(s, pos, visited');
      AdjacentSymmetric(p[0], p[1]);
      assert tail[0] in next;
      SetPath.ExclusionShrinks(s, visited, pos);
      BestFromIsLongest(s, tail[0], visited', tail);
      var w := BestAmong(s, next, visited').value;
      assert |BestFrom(s, tail[0], visited')| <= |w|;
      assert BestFrom(s, pos, visited) == [pos] + w;
    }
  }

  /** The tail of a simple path is a simple path that also avoids the path's first cell. */
  lemma Tail(s: set<Pos>, p: seq<Pos>, visited: set<Pos>)
    requires IsSimplePath(s, p) && Avoids(p, visited) && |p| > 1
    ensures IsSimplePath(s, p[1..]) && Avoids(p[1..], visited + {p[0]})
    ensures Adjacent(p[0], p[1])
  {
    var tail := p[1..];
    assert forall i | 0 <= i < |tail| :: tail[i] == p[i + 1];
    assert forall i | 0 <= i < |tail| - 1 :: Adjacent(tail[i], tail[i + 1]);
  }

  /**
   * The corrected solver: a longest simple path through `s`, trying every
   * cell as a start; `None` exactly for an empty subgraph.
   */
  ghost function LongestSimplePath(s: set<Pos>): (r: Option<seq<Pos>>)
    ensures r.Some? <==> s != {}
    ensures r.Some? ==> IsSimplePath(s, r.value)
  {
    BestAmong(s, s, {})
  }

  /** Every simple path through `s` is at most as long as `LongestSimplePath(s)`. */
  lemma LongestSimplePathIsLongest(s: set<Pos>, p: seq<Pos>)
    requires IsSimplePath(s, p)
    ensures LongestSimplePath(s).Some?
    ensures |p| <= |LongestSimplePath(s).value|
  {
    BestFromIsLongest(s, p[0], {}, p);
  }

  /** A simple path never has more cells than the subgraph. */
  lemma SimplePathWithin(s: set<Pos>, p: seq<Pos>)
    requires IsSimplePath(s, p)
    ensures |p| <= |s|
  {
    DistinctWithin(p, s);
  }

  /** The longest-road length: the cell count of a longest simple path, 0 for no road. */
  ghost function LongestRoad(s: set<Pos>): (n: nat)
    ensures s == {} <==> n == 0
    ensures n <= |s|
    ensures forall p | IsSimplePath(s, p) :: |p| <= n
    ensures s != {} ==> exists p :: IsSimplePath(s, p) && |p| == n
  {
    match LongestSimplePath(s)
    case None =>
      assert forall p | IsSimplePath(s, p) :: p[0] in s;
      0
    case Some(p) =>
      SimplePathWithin(s, p);
      assert forall p | IsSimplePath(s, p) :: |p| <= |LongestSimplePath(s).value| by {
        forall p | IsSimplePath(s, p)
          ensures |p| <= |LongestSimplePath(s).value|
        {
          LongestSimplePathIsLongest(s, p);
        }
      }
      |p|
  }

  /** A single cell is a road of length 1. */
  lemma SingleCell(x: Pos)
    ensures LongestRoad({x}) == 1
  {
    assert IsSimplePath({x}, [x]);
  }

  /** A straight row of cells `(c, r) .. (c + n - 1, r)`. */
  function Line(c: nat, r: nat, n: nat): seq<Pos> {
    seq(n, i requires 0 <= i < n => Pos(c + i, r))
  }

  /** A straight line of `n` cells, with no branches, is a road of length `n`. */
  lemma StraightLine(c: nat, r: nat, n: nat)
    ensures LongestRoad(Elems(Line(c, r, n))) == n
  {
    var line := Line(c, r, n);
    var s := Elems(line);
    assert Distinct(line);
    DistinctCard(line);
    if n > 0 {
      assert IsSimplePath(s, line);
    }
  }

  /**
   * The "T": a junction `(1, 0)` with three arms. Its longest road joins two
   * arms through the junction (3 cells); no simple path covers all four cells.
   */
  ghost function T(): set<Pos> {
    {Pos(0, 0), Pos(1, 0), Pos(2, 0), Pos(1, 1)}
  }

  /** `T()` has four cells. */
  lemma TCard()
    ensures |T()| == 4
  {
    var xs := [Pos(0, 0), Pos(1, 0), Pos(2, 0), Pos(1, 1)];
    assert Distinct(xs);
    assert Elems(xs) == T();
    DistinctCard(xs);
  }

  /** Every edge of the T touches the junction. */
  lemma EdgeOfT(a: Pos, b: Pos)
    requires a in T() && b in T() && Adjacent(a, b)
    ensures a == Pos(1, 0) || b == Pos(1, 0)
  {
  }

  lemma NoFourCellPathInT(p: seq<Pos>)
    requires IsSimplePath(T(), p)
    ensures |p| <= 3
  {
    SimplePathWithin(T(), p);
    TCard();
    if |p| == 4 {
      assert p[1] != p[0] && p[1] != p[2] && p[1] != p[3] && p[0] != p[2];
      EdgeOfT(p[0], p[1]);
      EdgeOfT(p[1], p[2]);
      EdgeOfT(p[2], p[3]);
      assert false;
    }
  }

  lemma TShape()
    ensures LongestRoad(T()) == 3
  {
    var p := [Pos(0, 0), Pos(1, 0), Pos(2, 0)];
    assert IsSimplePath(T(), p);
    var n := LongestRoad(T());
    var q :| IsSimplePath(T(), q) && |q| == n;
    NoFourCellPathInT(q);
  }

  /**
   * The gap in the source: with `get_longest_path` seeded, the set-based
   * solver reports the whole road subgraph (4 cells for the T), while the
   * longest simple path has 3 cells. Every subgraph is over-counted unless it
   * is itself one simple path.
   */
  lemma SeededSolverOvercounts()
    ensures SetPath.GetLongestPathSeeded(T()) == Some(T())
    ensures |T()| == 4 && LongestRoad(T()) == 3
  {
    assert Pos(0, 0) in T();
    TCard();
    TShape();
  }

  /** The seeded set-based answer is never shorter than the true longest road. */
  lemma SeededNeverUndercounts(s: set<Pos>)
    requires s != {}
    ensures LongestRoad(s) <= |SetPath.GetLongestPathSeeded(s).value|
  {
  }
}
