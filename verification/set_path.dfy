/**
 * The solver of `src/bin/longest_road.rs`, where a `Path` is a `HashSet<Pos>`
 * and the branch search carries a `HashSet` of excluded positions.
 */
module SetPath {
  import opened Collections
  import opened Board
  import Reduce

  /** The loop of `roads_for_player` over the cells visited in the order `ks`. */
  function CollectRoads(g: Grid, ks: seq<Pos>, pl: Player): (r: set<Pos>)
    requires forall i | 0 <= i < |ks| :: ks[i] in g
    ensures forall k | k in r :: k in ks && g[k] == Slot.Path(pl)
    ensures forall i | 0 <= i < |ks| && g[ks[i]] == Slot.Path(pl) :: ks[i] in r
  {
    if ks == [] then {}
    else
      var rest := CollectRoads(g, ks[1..], pl);
      assert forall i | 1 <= i < |ks| :: ks[i] == ks[1..][i - 1];
      if g[ks[0]] == Slot.Path(pl) then rest + {ks[0]} else rest
  }

  /**
   * `Grid::roads_for_player`: exactly the cells holding this player's road.
   * Bases, other players' cells and open cells are never part of it.
   */
  ghost function RoadsForPlayer(g: Grid, pl: Player): (r: set<Pos>)
    ensures r <= g.Keys
    ensures forall k | k in r :: g[k] == Slot.Path(pl)
    ensures forall k | k in g && g[k] == Slot.Path(pl) :: k in r
  {
    CollectRoads(g, Enumerate(g.Keys), pl)
  }

  /** Two players' road subgraphs never share a cell. */
  lemma RoadsDisjoint(g: Grid, p: Player, q: Player)
    requires p != q
    ensures RoadsForPlayer(g, p) !! RoadsForPlayer(g, q)
  {
  }

  /** The `drain` loop of `Path::append`: inserts each drained position into `dst`. */
  function DrainInto(dst: set<Pos>, xs: seq<Pos>): (r: set<Pos>)
    ensures r == dst + Elems(xs)
    decreases |xs|
  {
    if xs == [] then dst
    else
      assert Elems(xs) == {xs[0]} + Elems(xs[1..]);
      DrainInto(dst + {xs[0]}, xs[1..])
  }

  /** `Path::append`: the target path becomes the union of both paths and `other` is left empty. */
  ghost function Append(target: set<Pos>, other: set<Pos>): (r: (set<Pos>, set<Pos>))
    ensures r.0 == target + other
    ensures r.1 == {}
    ensures |r.0| <= |target| + |other|
  {
    var xs := Enumerate(other);
    assert Elems(xs) == other;
    (DrainInto(target, xs), {})
  }

  /** The loop of `get_adjacent` over the path's cells in the order `xs`. */
  function CollectAdjacent(xs: seq<Pos>, pos: Pos, exclude: set<Pos>): (r: set<Pos>)
    ensures forall q | q in r :: q in xs && Adjacent(q, pos) && q !in exclude
    ensures forall i | 0 <= i < |xs| && Adjacent(xs[i], pos) && xs[i] !in exclude :: xs[i] in r
  {
    if xs == [] then {}
    else
      var rest := CollectAdjacent(xs[1..], pos, exclude);
      assert forall i | 1 <= i < |xs| :: xs[i] == xs[1..][i - 1];
      if Adjacent(xs[0], pos) && xs[0] !in exclude then rest + {xs[0]} else rest
  }

  /**
   * `Path::get_adjacent`: the cells of the path that share an edge with `pos`
   * and are not excluded. There are at most four of them.
   */
  ghost function GetAdjacent(s: set<Pos>, pos: Pos, exclude: set<Pos>): (r: set<Pos>)
    ensures r <= s
    ensures forall q | q in r :: Adjacent(q, pos) && q !in exclude
    ensures forall q | q in s && Adjacent(q, pos) && q !in exclude :: q in r
    ensures |r| <= 4
  {
    var r := CollectAdjacent(Enumerate(s), pos, exclude);
    assert r <= Neighbours(pos) by {
      forall q | q in r
        ensures q in Neighbours(pos)
      {
        AdjacentSymmetric(q, pos);
        AdjacentIffNeighbour(pos, q);
      }
    }
    SubsetCard(r, Neighbours(pos));
    r
  }

  /** `Path::num_paths_from`: how many unexcluded neighbours `pos` has in the path. */
  ghost function NumPathsFrom(s: set<Pos>, pos: Pos, exclude: set<Pos>): (n: nat)
    ensures n == |set q | q in s && Adjacent(q, pos) && q !in exclude|
    ensures n <= 4
    ensures n == 0 <==> forall q | q in s && q !in exclude :: !Adjacent(q, pos)
  {
    var a := GetAdjacent(s, pos, exclude);
    assert a == set q | q in s && Adjacent(q, pos) && q !in exclude;
    assert a != {} ==> exists q :: q in a;
    |a|
  }

  /** `Path::has_adjacent`: `pos` has at least one unexcluded neighbour in the path. */
  ghost function HasAdjacent(s: set<Pos>, pos: Pos, exclude: set<Pos>): (b: bool)
    ensures b <==> exists q | q in s :: Adjacent(q, pos) && q !in exclude
  {
    NumPathsFrom(s, pos, exclude) != 0
  }

  /** The result of `follow_path`. */
  datatype PathResult = Partial(path: set<Pos>, at: Pos) | Complete(paths: seq<set<Pos>>)

  /** The condition under which `follow_path` stops at once. */
  ghost predicate AtEnd(s: set<Pos>, pos: Pos, exclude: set<Pos>) {
    pos !in s || |s| == 0 || !HasAdjacent(s, pos, exclude) || pos in exclude
  }

  /** Every path in the list is the whole subgraph or the empty path. */
  ghost predicate WholeOrEmpty(s: set<Pos>, paths: seq<set<Pos>>) {
    forall i | 0 <= i < |paths| :: paths[i] == s || paths[i] == {}
  }

  lemma ConcatWholeOrEmpty(s: set<Pos>, a: seq<set<Pos>>, b: seq<set<Pos>>)
    requires WholeOrEmpty(s, a) && WholeOrEmpty(s, b)
    ensures WholeOrEmpty(s, a + b)
    ensures forall x | x in a :: x in a + b
  {
  }

  /** One round's paths, the pushed empty path and the later rounds' paths, joined. */
  lemma RoundStep(s: set<Pos>, here: seq<set<Pos>>, later: seq<set<Pos>>)
    requires WholeOrEmpty(s, here) && WholeOrEmpty(s, later)
    ensures WholeOrEmpty(s, here + [{}] + later)
    ensures {} in here + [{}] + later
    ensures forall x | x in here :: x in here + [{}] + later
  {
    ConcatWholeOrEmpty(s, here, [{}]);
    ConcatWholeOrEmpty(s, here + [{}], later);
    assert (here + [{}] + later)[|here|] == {};
  }

  /** An enumeration of a non-empty set of unexcluded cells lists an unexcluded cell. */
  lemma SomeUnexcluded(a: set<Pos>, exclude: set<Pos>, xs: seq<Pos>)
    requires a != {} && a !! exclude
    requires forall x | x in a :: x in xs
    ensures exists k | 0 <= k < |xs| :: xs[k] !in exclude
  {
    var q :| q in a;
    var k :| 0 <= k < |xs| && xs[k] == q;
  }

  /** Excluding one more cell of the subgraph shrinks what is left to explore. */
  lemma ExclusionShrinks(s: set<Pos>, exclude: set<Pos>, pos: Pos)
    requires pos in s && pos !in exclude
    ensures |s - (exclude + {pos})| < |s - exclude|
  {
    assert s - (exclude + {pos}) == (s - exclude) - {pos};
  }

  /**
   * `Path::follow_path`. It never returns `Partial`: a stopped branch yields
   * `Complete([self])`, the whole subgraph, and a branching one yields only
   * what its sub-branches yield plus the never-filled accumulator `path`.
   * Hence every path it reports is the whole subgraph or empty, and the whole
   * subgraph is always among them. It terminates because each recursive call
   * excludes `pos`, a cell of the subgraph that was not excluded before.
   */
  ghost function FollowPath(s: set<Pos>, pos: Pos, exclude: set<Pos>): (r: PathResult)
    ensures r.Complete?
    ensures AtEnd(s, pos, exclude) ==> r.paths == [s]
    ensures WholeOrEmpty(s, r.paths)
    ensures s in r.paths
    ensures !AtEnd(s, pos, exclude) ==> {} in r.paths
    decreases |s - exclude|, 0, 0
  {
    if AtEnd(s, pos, exclude) then Complete([s])
    else
      var exclude' := exclude + {pos};
      ExclusionShrinks(s, exclude, pos);
      var q :| q in s && Adjacent(q, pos) && q !in exclude;
      AdjacentIrreflexive(pos);
      assert q in GetAdjacent(s, pos, exclude');
      Complete(Rounds(s, pos, exclude', 0))
  }

  /**
   * The `while index < self.len()` loop of `follow_path`, from iteration
   * `index` on. Each iteration runs the `for` loop over the unexcluded
   * neighbours and then pushes a clone of `path`. `path` and `exclude` are
   * changed only in the `Partial` arms, which are dead, so every iteration
   * sees the empty `path` and the same `exclude`.
   */
  ghost function Rounds(s: set<Pos>, pos: Pos, exclude: set<Pos>, index: nat): (r: seq<set<Pos>>)
    ensures WholeOrEmpty(s, r)
    ensures index < |s| ==> {} in r
    ensures index < |s| && GetAdjacent(s, pos, exclude) != {} ==> s in r
    decreases |s - exclude|, 2, |s| - index
  {
    if index < |s| then
      var adjacent := Enumerate(GetAdjacent(s, pos, exclude));
      var here := Branches(s, adjacent, exclude);
      var later := Rounds(s, pos, exclude, index + 1);
      assert GetAdjacent(s, pos, exclude) != {} ==> s in here by {
        if GetAdjacent(s, pos, exclude) != {} {
          SomeUnexcluded(GetAdjacent(s, pos, exclude), exclude, adjacent);
        }
      }
      RoundStep(s, here, later);
      here + [{}] + later
    else []
  }

  /**
   * The `for i in self.get_adjacent(pos, &exclude)` loop of `follow_path`
   * over the neighbours `adjacent`. A `Complete` answer is appended to
   * `paths`; the `Partial` arm cannot happen (FollowPath's own contract), and
   * the second `follow_path(i, &exclude)` call repeats the first one and so
   * is `Complete` too, which leaves everything unchanged.
   */
  ghost function Branches(s: set<Pos>, adjacent: seq<Pos>, exclude: set<Pos>): (r: seq<set<Pos>>)
    ensures WholeOrEmpty(s, r)
    ensures (exists k | 0 <= k < |adjacent| :: adjacent[k] !in exclude) ==> s in r
    decreases |s - exclude|, 1, |adjacent|
  {
    if adjacent == [] then []
    else
      var i := adjacent[0];
      var rest := Branches(s, adjacent[1..], exclude);
      assert forall k | 1 <= k < |adjacent| :: adjacent[k] == adjacent[1..][k - 1];
      if i in exclude then rest
      else
        match FollowPath(s, i, exclude)
        case Complete(p) => p + rest
        case Partial(_, _) => assert false; rest
  }

  /**
   * `Path::get_adjacent_paths`: the answers of `follow_path` from every cell
   * with nothing excluded, concatenated in iteration order.
   */
  ghost function StartsFrom(s: set<Pos>, starts: seq<Pos>): (r: seq<set<Pos>>)
    requires forall k | 0 <= k < |starts| :: starts[k] in s
    ensures WholeOrEmpty(s, r)
    ensures |starts| > 0 ==> s in r
    ensures {} in r ==> exists k | 0 <= k < |starts| :: !AtEnd(s, starts[k], {})
    ensures (exists k | 0 <= k < |starts| :: !AtEnd(s, starts[k], {})) ==> {} in r
  {
    if starts == [] then []
    else
      var tail := starts[1..];
      assert forall k | 0 <= k < |tail| :: tail[k] in s by {
        forall k | 0 <= k < |tail| ensures tail[k] in s {
          assert tail[k] == starts[k + 1];
        }
      }
      var rest := StartsFrom(s, tail);
      BranchingCons(s, starts);
      match FollowPath(s, starts[0], {})
      case Complete(p) =>
        ConcatWholeOrEmpty(s, p, rest);
        p + rest
  }

  /** Some start does not stop at once exactly when the first or one of the others does not. */
  lemma BranchingCons(s: set<Pos>, starts: seq<Pos>)
    requires starts != []
    ensures (exists k | 0 <= k < |starts| :: !AtEnd(s, starts[k], {}))
        <==> !AtEnd(s, starts[0], {}) || exists k | 0 <= k < |starts| - 1 :: !AtEnd(s, starts[1..][k], {})
  {
    assert forall k | 1 <= k < |starts| :: starts[k] == starts[1..][k - 1];
  }

  /**
   * `Path::get_adjacent_paths`. Every reported path is the whole subgraph or
   * empty; the whole subgraph is reported whenever the subgraph has a cell,
   * and the empty path exactly when some cell has a neighbour in it.
   */
  ghost function GetAdjacentPaths(s: set<Pos>): (r: seq<set<Pos>>)
    ensures WholeOrEmpty(s, r)
    ensures r == [] <==> s == {}
    ensures s != {} ==> s in r
    ensures s != {} ==> ({} in r <==> exists pos | pos in s :: HasAdjacent(s, pos, {}))
  {
    var starts := Enumerate(s);
    var r := StartsFrom(s, starts);
    assert s != {} ==> |starts| > 0;
    BranchingStart(s, starts);
    r
  }

  /** Some start of the enumeration does not stop at once exactly when some cell has a neighbour. */
  lemma BranchingStart(s: set<Pos>, starts: seq<Pos>)
    requires forall k | 0 <= k < |starts| :: starts[k] in s
    requires forall x | x in s :: x in starts
    ensures (exists k | 0 <= k < |starts| :: !AtEnd(s, starts[k], {}))
        <==> exists pos | pos in s :: HasAdjacent(s, pos, {})
  {
    if exists pos | pos in s :: HasAdjacent(s, pos, {}) {
      var pos :| pos in s && HasAdjacent(s, pos, {});
      var k :| 0 <= k < |starts| && starts[k] == pos;
      assert !AtEnd(s, starts[k], {});
    }
    if exists k | 0 <= k < |starts| :: !AtEnd(s, starts[k], {}) {
      var k :| 0 <= k < |starts| && !AtEnd(s, starts[k], {});
      assert starts[k] in s && HasAdjacent(s, starts[k], {});
    }
  }

  /** A path's length is its number of cells. */
  function Card(p: set<Pos>): nat {
    |p|
  }

  /** `Path::get_longest_path` as written: always `None` (see `Reduce.GetLongest`). */
  ghost function GetLongestPath(s: set<Pos>): (r: Option<set<Pos>>)
    ensures r == None
  {
    Reduce.GetLongest(GetAdjacentPaths(s), Card)
  }

  /**
   * With `longest` seeded from the first candidate, the solver would report
   * the whole road subgraph, not its longest simple path.
   */
  ghost function GetLongestPathSeeded(s: set<Pos>): (r: Option<set<Pos>>)
    ensures s == {} ==> r == None
    ensures s != {} ==> r == Some(s)
  {
    var paths := GetAdjacentPaths(s);
    var r := Reduce.LongestSeeded(paths, Card);
    assert s != {} ==> r == Some(s) by {
      if s != {} {
        var k :| Reduce.FirstLongestAt(paths, Card, k) && paths[k] == r.value;
        var j :| 0 <= j < |paths| && paths[j] == s;
        assert Card(paths[j]) <= Card(paths[k]);
      }
    }
    r
  }
}
