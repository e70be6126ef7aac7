/**
 * The solver of `src/main.rs`, where a `Path` is a `Vec<Pos>`, adjacency
 * ignores exclusions, and the search starts only from the first cell.
 */
module VecPath {
  import opened Collections
  import opened Board
  import Reduce
  import SetPath

  /** The loop of `roads_for_player` over the cells visited in the order `ks`, pushing in order. */
  function CollectRoads(g: Grid, ks: seq<Pos>, pl: Player): (r: seq<Pos>)
    requires forall i | 0 <= i < |ks| :: ks[i] in g
    ensures forall i | 0 <= i < |r| :: r[i] in ks && g[r[i]] == Slot.Path(pl)
    ensures forall i | 0 <= i < |ks| && g[ks[i]] == Slot.Path(pl) :: ks[i] in r
    ensures Distinct(ks) ==> Distinct(r)
  {
    if ks == [] then []
    else
      var rest := CollectRoads(g, ks[1..], pl);
      assert forall i | 1 <= i < |ks| :: ks[i] == ks[1..][i - 1];
      if g[ks[0]] == Slot.Path(pl) then [ks[0]] + rest else rest
  }

  /**
   * `Grid::roads_for_player`: a duplicate-free list of exactly the cells
   * holding this player's road, in the map's iteration order.
   */
  ghost function RoadsForPlayer(g: Grid, pl: Player): (r: seq<Pos>)
    ensures Distinct(r)
    ensures forall i | 0 <= i < |r| :: r[i] in g && g[r[i]] == Slot.Path(pl)
    ensures forall k | k in g && g[k] == Slot.Path(pl) :: k in r
  {
    CollectRoads(g, Enumerate(g.Keys), pl)
  }

  /** Both programs extract the same road cells; the list has no repeats, so it is as long as the set. */
  lemma RoadsAgree(g: Grid, pl: Player)
    ensures Elems(RoadsForPlayer(g, pl)) == SetPath.RoadsForPlayer(g, pl)
    ensures |RoadsForPlayer(g, pl)| == |SetPath.RoadsForPlayer(g, pl)|
  {
    var v := RoadsForPlayer(g, pl);
    DistinctCard(v);
  }

  /**
   * `Path::get_adjacent`: the elements of `data` that share an edge with
   * `pos`, in their order in `data`. It takes no exclusion list.
   */
  function GetAdjacent(data: seq<Pos>, pos: Pos): (r: seq<Pos>)
    ensures |r| <= |data|
    ensures forall i | 0 <= i < |r| :: r[i] in data && Adjacent(r[i], pos)
    ensures forall i | 0 <= i < |data| && Adjacent(data[i], pos) :: data[i] in r
    ensures Distinct(data) ==> Distinct(r)
  {
    if data == [] then []
    else
      var rest := GetAdjacent(data[1..], pos);
      assert forall i | 1 <= i < |data| :: data[i] == data[1..][i - 1];
      if Adjacent(data[0], pos) then [data[0]] + rest else rest
  }

  /** Filtering keeps the order: the neighbours in `a + b` are those in `a` followed by those in `b`. */
  lemma {:induction false} GetAdjacentAppend(a: seq<Pos>, b: seq<Pos>, pos: Pos)
    ensures GetAdjacent(a + b, pos) == GetAdjacent(a, pos) + GetAdjacent(b, pos)
  {
    if a != [] {
      assert (a + b)[1..] == a[1..] + b;
      GetAdjacentAppend(a[1..], b, pos);
    } else {
      assert a + b == b;
    }
  }

  /** The list version finds the same neighbours as the set version with nothing excluded. */
  lemma GetAdjacentAgrees(data: seq<Pos>, pos: Pos)
    ensures Elems(GetAdjacent(data, pos)) == SetPath.GetAdjacent(Elems(data), pos, {})
  {
  }

  /**
   * `Path::num_paths_from`: how many entries of `data` neighbour `pos`. For a
   * list without repeats, that is the set version's count with nothing
   * excluded, so at most four.
   */
  function NumPathsFrom(data: seq<Pos>, pos: Pos): (n: nat)
    ensures n <= |data|
    ensures n == 0 <==> forall i | 0 <= i < |data| :: !Adjacent(data[i], pos)
    ensures Distinct(data) ==> n == SetPath.NumPathsFrom(Elems(data), pos, {})
    ensures Distinct(data) ==> n <= 4
  {
    var a := GetAdjacent(data, pos);
    assert Distinct(data) ==> |a| == SetPath.NumPathsFrom(Elems(data), pos, {}) by {
      if Distinct(data) {
        GetAdjacentAgrees(data, pos);
        DistinctCard(a);
      }
    }
    assert a != [] ==> a[0] in a;
    assert Distinct(data) ==> |a| <= 4 by {
      if Distinct(data) {
        forall i | 0 <= i < |a|
          ensures a[i] in Neighbours(pos)
        {
          AdjacentSymmetric(a[i], pos);
          AdjacentIffNeighbour(pos, a[i]);
        }
        DistinctWithin(a, Neighbours(pos));
      }
    }
    |a|
  }

  /** `Path::has_adjacent`: some entry of `data` neighbours `pos`. */
  function HasAdjacent(data: seq<Pos>, pos: Pos): (b: bool)
    ensures b <==> exists i | 0 <= i < |data| :: Adjacent(data[i], pos)
  {
    NumPathsFrom(data, pos) != 0
  }

  /** The result of `follow_path`. */
  datatype PathResult = Partial(path: seq<Pos>, at: Pos) | Complete(paths: seq<seq<Pos>>)

  /** The mutable state of `follow_path`'s loops: the exclusion list and the accumulated path. */
  datatype LoopState = LoopState(exclude: seq<Pos>, path: seq<Pos>)

  /** The condition under which `follow_path` returns `Partial` at once. */
  predicate AtEnd(data: seq<Pos>, pos: Pos, exclude: seq<Pos>) {
    pos !in data || |data| == 0 || !HasAdjacent(data, pos) || pos in exclude
  }

  /** How many distinct cells of `data` are not yet excluded: the termination measure. */
  function Remaining(data: seq<Pos>, exclude: seq<Pos>): nat {
    |Elems(data) - Elems(exclude)|
  }

  /** Excluding more never leaves more to explore. */
  lemma RemainingMonotone(data: seq<Pos>, exclude: seq<Pos>, exclude': seq<Pos>)
    requires Elems(exclude) <= Elems(exclude')
    ensures Remaining(data, exclude') <= Remaining(data, exclude)
  {
    SubsetCard(Elems(data) - Elems(exclude'), Elems(data) - Elems(exclude));
  }

  /** Excluding a cell of `data` that was not excluded leaves strictly less to explore. */
  lemma RemainingShrinks(data: seq<Pos>, exclude: seq<Pos>, pos: Pos)
    requires pos in data && pos !in exclude
    ensures Remaining(data, exclude + [pos]) < Remaining(data, exclude)
  {
    assert Elems(data) - Elems(exclude + [pos]) == (Elems(data) - Elems(exclude)) - {pos};
  }

  /**
   * `Path::follow_path`. It returns `Partial` exactly in the stopping case,
   * and then with an empty path and `pos` itself. Otherwise it returns
   * `Complete` with one path per entry of `data`, each of them empty: the
   * accumulator only ever absorbs the empty paths of `Partial` answers, and
   * the `Complete` answers of the recursive calls are dropped.
   */
  function FollowPath(data: seq<Pos>, pos: Pos, exclude: seq<Pos>): (r: PathResult)
    ensures r.Partial? <==> AtEnd(data, pos, exclude)
    ensures r.Partial? ==> r.path == [] && r.at == pos
    ensures r.Complete? ==> |r.paths| == |data| && forall i | 0 <= i < |r.paths| :: r.paths[i] == []
    decreases Remaining(data, exclude), 0, 0
  {
    if AtEnd(data, pos, exclude) then Partial([], pos)
    else
      RemainingShrinks(data, exclude, pos);
      Complete(WhileLoop(data, pos, LoopState(exclude + [pos], []), 0))
  }

  /**
   * The `while index < self.data.len()` loop of `follow_path`, from iteration
   * `index` on: each iteration runs the `for` loop, which may grow the
   * exclusion list, and then pushes a clone of `path`. The answer is the list
   * of paths pushed from this iteration on.
   */
  function WhileLoop(data: seq<Pos>, pos: Pos, st: LoopState, index: nat): (r: seq<seq<Pos>>)
    requires index <= |data|
    ensures |r| == |data| - index
    ensures forall i | 0 <= i < |r| :: r[i] == st.path
    decreases Remaining(data, st.exclude), 2, |data| - index
  {
    if index < |data| then
      var st' := ForLoop(data, GetAdjacent(data, pos), st);
      RemainingMonotone(data, st.exclude, st'.exclude);
      [st'.path] + WhileLoop(data, pos, st', index + 1)
    else []
  }

  /**
   * The `for i in self.get_adjacent(pos)` loop of `follow_path` over the
   * neighbours `adjacent`: excluded neighbours are skipped; a `Partial`
   * answer extends the path and excludes the position it stopped at; a
   * `Complete` answer is ignored. The path never changes, and the exclusion
   * list only grows, by neighbours.
   */
  function ForLoop(data: seq<Pos>, adjacent: seq<Pos>, st: LoopState): (r: LoopState)
    ensures r.path == st.path
    ensures Elems(st.exclude) <= Elems(r.exclude)
    ensures forall x | x in r.exclude :: x in st.exclude || x in adjacent
    decreases Remaining(data, st.exclude), 1, |adjacent|
  {
    if adjacent == [] then st
    else
      var i := adjacent[0];
      assert forall x | x in adjacent[1..] :: x in adjacent;
      if i in st.exclude then ForLoop(data, adjacent[1..], st)
      else
        match FollowPath(data, i, st.exclude)
        case Partial(p, at) =>
          RemainingMonotone(data, st.exclude, st.exclude + [at]);
          assert st.path + p == st.path;
          ForLoop(data, adjacent[1..], LoopState(st.exclude + [at], st.path + p))
        case Complete(_) => ForLoop(data, adjacent[1..], st)
  }

  /**
   * `Path::get_adjacent_paths`: follows from `data[0]` only. It panics on an
   * empty list (the index is out of bounds) and when `data[0]` has no
   * neighbour ("Path calculation does not complete"); otherwise it returns
   * one empty path per entry of `data`.
   */
  function GetAdjacentPaths(data: seq<Pos>): (r: Outcome<seq<seq<Pos>>>)
    ensures r.Ok? <==> |data| > 0 && HasAdjacent(data, data[0])
    ensures r.Ok? ==> |r.value| == |data| && forall i | 0 <= i < |r.value| :: r.value[i] == []
    ensures r.Panic? && |data| > 0 ==> r.message == "Path calculation does not complete"
  {
    if |data| == 0 then Panic("index out of bounds")
    else
      match FollowPath(data, data[0], [])
      case Complete(paths) => Ok(paths)
      case Partial(_, _) => Panic("Path calculation does not complete")
  }

  /** A path's length is its number of entries. */
  function Len(p: seq<Pos>): nat {
    |p|
  }

  /** `Path::get_longest_path`: panics when `get_adjacent_paths` does, and otherwise is always `None`. */
  function GetLongestPath(data: seq<Pos>): (r: Outcome<Option<seq<Pos>>>)
    ensures r.Ok? <==> |data| > 0 && HasAdjacent(data, data[0])
    ensures r.Ok? ==> r.value == None
  {
    match GetAdjacentPaths(data)
    case Ok(paths) => Ok(Reduce.GetLongest(paths, Len))
    case Panic(m) => Panic(m)
  }
}
