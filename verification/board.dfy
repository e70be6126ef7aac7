/**
 * The game board: positions, 4-neighbour adjacency, players, cell decoding and
 * the sparse grid with its derived height and width. Both Rust programs of the
 * repository share this part verbatim.
 */
module Board {
  import opened Collections

  /** A cell position `(column, row)`; the Rust type holds two `usize`s. */
  datatype Pos = Pos(col: nat, row: nat)

  /** Manhattan distance between two positions. */
  function Distance(a: Pos, b: Pos): nat {
    (if a.col < b.col then b.col - a.col else a.col - b.col)
    + (if a.row < b.row then b.row - a.row else a.row - b.row)
  }

  /**
   * `Pos::adjacent`: same column and rows one apart, or same row and columns one
   * apart. The Rust `s - 1 == o` is written `s == o + 1`, which is what it means
   * whenever the subtraction does not underflow (see `AdjacentChecked`).
   */
  function Adjacent(s: Pos, o: Pos): (b: bool)
    ensures b <==> Distance(s, o) == 1
  {
    (s.col == o.col && (s.row + 1 == o.row || s.row == o.row + 1))
    || (s.row == o.row && (s.col + 1 == o.col || s.col == o.col + 1))
  }

  lemma AdjacentSymmetric(a: Pos, b: Pos)
    ensures Adjacent(a, b) <==> Adjacent(b, a)
  {
  }

  lemma AdjacentIrreflexive(a: Pos)
    ensures !Adjacent(a, a)
  {
  }

  /** The (at most four) positions that share an edge with `p` on a board without wraparound. */
  function Neighbours(p: Pos): (r: set<Pos>)
    ensures |r| <= 4
    ensures p.col > 0 && p.row > 0 ==> |r| == 4
  {
    var right := Pos(p.col + 1, p.row);
    var down := Pos(p.col, p.row + 1);
    var left := if p.col > 0 then {Pos(p.col - 1, p.row)} else {};
    var up := if p.row > 0 then {Pos(p.col, p.row - 1)} else {};
    {right, down} + left + up
  }

  /** Adjacency holds for exactly the four edge-sharing neighbours. */
  lemma AdjacentIffNeighbour(p: Pos, q: Pos)
    ensures Adjacent(p, q) <==> q in Neighbours(p)
  {
  }

  /** A player: the lower-case letter of their road cells and the upper-case letter of their bases. */
  datatype Player = Player(path: char, base: char)

  /** A grid cell: a player's road, a player's base, or nothing. */
  datatype Slot = Path(owner: Player) | Base(owner: Player) | Open

  predicate IsLower(c: char) { 'a' <= c <= 'z' }
  predicate IsUpper(c: char) { 'A' <= c <= 'Z' }

  function ToUpper(c: char): char
    requires IsLower(c)
  {
    (c as int - 32) as char
  }

  function ToLower(c: char): char
    requires IsUpper(c)
  {
    (c as int + 32) as char
  }

  /** A player as `Slot::new` builds them: a lower-case letter paired with its capital. */
  ghost predicate WellFormed(p: Player) {
    IsLower(p.path) && p.base == ToUpper(p.path)
  }

  /** `Slot::new`: the 52-letter table of the source. */
  function SlotOf(c: char): (r: Slot)
    ensures IsLower(c) ==> r == Path(Player(c, ToUpper(c)))
    ensures IsUpper(c) ==> r == Base(Player(ToLower(c), c))
    ensures !IsLower(c) && !IsUpper(c) ==> r == Open
    ensures !r.Open? ==> WellFormed(r.owner)
  {
    match c
    case 'a' => Path(Player('a', 'A'))
    case 'A' => Base(Player('a', 'A'))
    case 'b' => Path(Player('b', 'B'))
    case 'B' => Base(Player('b', 'B'))
    case 'c' => Path(Player('c', 'C'))
    case 'C' => Base(Player('c', 'C'))
    case 'd' => Path(Player('d', 'D'))
    case 'D' => Base(Player('d', 'D'))
    case 'e' => Path(Player('e', 'E'))
    case 'E' => Base(Player('e', 'E'))
    case 'f' => Path(Player('f', 'F'))
    case 'F' => Base(Player('f', 'F'))
    case 'g' => Path(Player('g', 'G'))
    case 'G' => Base(Player('g', 'G'))
    case 'h' => Path(Player('h', 'H'))
    case 'H' => Base(Player('h', 'H'))
    case 'i' => Path(Player('i', 'I'))
    case 'I' => Base(Player('i', 'I'))
    case 'j' => Path(Player('j', 'J'))
    case 'J' => Base(Player('j', 'J'))
    case 'k' => Path(Player('k', 'K'))
    case 'K' => Base(Player('k', 'K'))
    case 'l' => Path(Player('l', 'L'))
    case 'L' => Base(Player('l', 'L'))
    case 'm' => Path(Player('m', 'M'))
    case 'M' => Base(Player('m', 'M'))
    case 'n' => Path(Player('n', 'N'))
    case 'N' => Base(Player('n', 'N'))
    case 'o' => Path(Player('o', 'O'))
    case 'O' => Base(Player('o', 'O'))
    case 'p' => Path(Player('p', 'P'))
    case 'P' => Base(Player('p', 'P'))
    case 'q' => Path(Player('q', 'Q'))
    case 'Q' => Base(Player('q', 'Q'))
    case 'r' => Path(Player('r', 'R'))
    case 'R' => Base(Player('r', 'R'))
    case 's' => Path(Player('s', 'S'))
    case 'S' => Base(Player('s', 'S'))
    case 't' => Path(Player('t', 'T'))
    case 'T' => Base(Player('t', 'T'))
    case 'u' => Path(Player('u', 'U'))
    case 'U' => Base(Player('u', 'U'))
    case 'v' => Path(Player('v', 'V'))
    case 'V' => Base(Player('v', 'V'))
    case 'w' => Path(Player('w', 'W'))
    case 'W' => Base(Player('w', 'W'))
    case 'x' => Path(Player('x', 'X'))
    case 'X' => Base(Player('x', 'X'))
    case 'y' => Path(Player('y', 'Y'))
    case 'Y' => Base(Player('y', 'Y'))
    case 'z' => Path(Player('z', 'Z'))
    case 'Z' => Base(Player('z', 'Z'))
    case _ => Open
  }

  /** The letter a cell was decoded from, when it was a letter. */
  function Symbol(s: Slot): Option<char> {
    match s
    case Path(p) => Some(p.path)
    case Base(p) => Some(p.base)
    case Open => None
  }

  /** Decoding loses nothing: every letter is recovered from its cell, and no two letters share a cell value. */
  lemma SlotOfRoundTrip(c: char)
    ensures IsLower(c) || IsUpper(c) ==> Symbol(SlotOf(c)) == Some(c)
    ensures !IsLower(c) && !IsUpper(c) ==> Symbol(SlotOf(c)) == None
  {
  }

  lemma SlotOfInjective(c: char, d: char)
    requires SlotOf(c) == SlotOf(d) && !SlotOf(c).Open?
    ensures c == d
  {
    SlotOfRoundTrip(c);
    SlotOfRoundTrip(d);
  }

  /** The sparse board: only the positions read from the input are keys. */
  type Grid = map<Pos, Slot>

  datatype Axis = Col | Row

  function Coord(p: Pos, axis: Axis): nat {
    match axis
    case Col => p.col
    case Row => p.row
  }

  /** One more than the largest coordinate on `axis` among `keys`, or 0 when there are none. */
  ghost function Extent(keys: set<Pos>, axis: Axis): (n: nat)
    ensures forall k | k in keys :: Coord(k, axis) < n
    ensures keys == {} ==> n == 0
    ensures keys != {} ==> exists k | k in keys :: Coord(k, axis) + 1 == n
  {
    if keys == {} then 0
    else
      var k :| k in keys;
      var h := Extent(keys - {k}, axis);
      if Coord(k, axis) + 1 > h then Coord(k, axis) + 1 else h
  }

  /** `Grid::height`: one more than the largest row index present. */
  ghost function Height(g: Grid): (h: nat)
    ensures forall k | k in g :: k.row < h
    ensures g == map[] ==> h == 0
    ensures g != map[] ==> exists k | k in g :: k.row + 1 == h
  {
    Extent(g.Keys, Row)
  }

  /** `Grid::width`: one more than the largest column index present. */
  ghost function Width(g: Grid): (w: nat)
    ensures forall k | k in g :: k.col < w
    ensures g == map[] ==> w == 0
    ensures g != map[] ==> exists k | k in g :: k.col + 1 == w
  {
    Extent(g.Keys, Col)
  }

  /** The cells `(j, row)` for `from <= j < n`. */
  function Cells(row: nat, from: nat, n: nat): set<Pos> {
    set j | from <= j < n :: Pos(j, row)
  }

  /** Peeling the first cell off a non-empty run of cells. */
  lemma CellsStep(row: nat, from: nat, n: nat)
    requires from < n
    ensures Cells(row, from, n) == {Pos(from, row)} + Cells(row, from + 1, n)
  {
  }

  /** The loop of `push_str` / `new_from`: inserts `Slot::new(s[j])` at `(j, row)` for `j` from `i` on. */
  function InsertRow(g: Grid, s: string, row: nat, i: nat): (r: Grid)
    requires i <= |s|
    ensures r.Keys == g.Keys + Cells(row, i, |s|)
    ensures forall j | i <= j < |s| :: r[Pos(j, row)] == SlotOf(s[j])
    ensures forall k | k in g && k !in Cells(row, i, |s|) :: r[k] == g[k]
    decreases |s| - i
  {
    if i == |s| then
      assert Cells(row, i, |s|) == {};
      g
    else
      var r := InsertRow(g[Pos(i, row) := SlotOf(s[i])], s, row, i + 1);
      CellsStep(row, i, |s|);
      r
  }

  /**
   * `Grid::push_str`: appends a row below every existing one. Each character
   * lands at `(index, old height)`; every earlier cell keeps its slot.
   */
  ghost function PushStr(g: Grid, s: string): (r: Grid)
    ensures r.Keys == g.Keys + Cells(Height(g), 0, |s|)
    ensures forall i | 0 <= i < |s| :: r[Pos(i, Height(g))] == SlotOf(s[i])
    ensures forall k | k in g :: r[k] == g[k]
  {
    InsertRow(g, s, Height(g), 0)
  }

  /** A non-empty row raises the height by one; an empty row changes nothing. */
  lemma PushStrHeight(g: Grid, s: string)
    ensures |s| == 0 ==> PushStr(g, s) == g
    ensures |s| > 0 ==> Height(PushStr(g, s)) == Height(g) + 1
  {
    var r := PushStr(g, s);
    if |s| == 0 {
      assert Cells(Height(g), 0, 0) == {};
      assert r.Keys == g.Keys;
    } else {
      var h := Height(g);
      assert Pos(0, h) in r;
      forall k | k in r
        ensures k.row < h + 1
      {
        if k !in g {
          assert k in Cells(h, 0, |s|);
        }
      }
      var k :| k in r && k.row + 1 == Height(r);
    }
  }

  /** The width after `push_str` is the larger of the old width and the row's length. */
  lemma PushStrWidth(g: Grid, s: string)
    ensures Width(PushStr(g, s)) == if |s| > Width(g) then |s| else Width(g)
  {
    var r := PushStr(g, s);
    var h := Height(g);
    forall k | k in r
      ensures k.col < if |s| > Width(g) then |s| else Width(g)
    {
      if k !in g {
        assert k in Cells(h, 0, |s|);
      }
    }
    if |s| > 0 {
      assert Pos(|s| - 1, h) in r;
    }
    if g != map[] {
      var k :| k in g && k.col + 1 == Width(g);
      assert k in r;
    }
  }

  /** `Grid::new_from`: a grid holding one row at row index 0. */
  function NewFrom(s: string): (r: Grid)
    ensures r.Keys == Cells(0, 0, |s|)
    ensures forall i | 0 <= i < |s| :: r[Pos(i, 0)] == SlotOf(s[i])
  {
    InsertRow(map[], s, 0, 0)
  }

  /** `new_from(s)` builds the same grid as pushing `s` onto an empty grid. */
  lemma NewFromIsPushStr(s: string)
    ensures NewFrom(s) == PushStr(map[], s)
  {
  }

  /** The player owning a slot, if any. */
  function Owner(s: Slot): Option<Player> {
    match s
    case Path(p) => Some(p)
    case Base(p) => Some(p)
    case Open => None
  }

  /** The loop of `Grid::players` over the cells visited in the order `ks`. */
  function OwnersOf(g: Grid, ks: seq<Pos>): (r: seq<Player>)
    requires forall i | 0 <= i < |ks| :: ks[i] in g
    ensures |r| <= |ks|
    ensures forall pl :: pl in r <==> exists i | 0 <= i < |ks| :: Owner(g[ks[i]]) == Some(pl)
  {
    if ks == [] then []
    else
      var rest := OwnersOf(g, ks[1..]);
      assert forall i | 1 <= i < |ks| :: ks[i] == ks[1..][i - 1];
      match g[ks[0]]
      case Path(p) => [p] + rest
      case Base(p) => [p] + rest
      case Open => rest
  }

  /**
   * `Grid::players`: the owner of every occupied cell, once per cell (so a
   * player appears as often as they have cells), in the map's iteration order.
   */
  ghost function Players(g: Grid): (r: seq<Player>)
    ensures |r| <= |g|
    ensures forall pl :: pl in r <==> exists k | k in g :: Owner(g[k]) == Some(pl)
  {
    var ks := Enumerate(g.Keys);
    assert |g.Keys| == |g|;
    OwnersOf(g, ks)
  }

  /** The largest value a `usize` coordinate holds on a 64-bit target. */
  const UsizeMax: nat := 0xFFFF_FFFF_FFFF_FFFF

  predicate InUsize(p: Pos) {
    p.col <= UsizeMax && p.row <= UsizeMax
  }

  /**
   * `Pos::adjacent` as a debug build evaluates it: `&&`/`||` short-circuit
   * left to right, and `usize` arithmetic that overflows or underflows panics
   * (`None`). `Some(b)` is the value it returns when it does not panic.
   */
  function AdjacentChecked(s: Pos, o: Pos): (r: Option<bool>)
    requires InUsize(s) && InUsize(o)
    ensures r.Some? ==> r.value == Adjacent(s, o)
  {
    var sameCol :=
      if s.col != o.col then Some(false)
      else if s.row == UsizeMax then None
      else if s.row + 1 == o.row then Some(true)
      else if s.row == 0 then None
      else Some(s.row - 1 == o.row);
    match sameCol
    case None => None
    case Some(true) => Some(true)
    case Some(false) =>
      if s.row != o.row then Some(false)
      else if s.col == UsizeMax then None
      else if s.col + 1 == o.col then Some(true)
      else if s.col == 0 then None
      else Some(s.col - 1 == o.col)
  }

  /**
   * A cell in row 0 compared with itself underflows: `get_adjacent(pos, ..)`
   * makes exactly this comparison whenever `pos` is one of the path's own cells.
   */
  lemma AdjacentCheckedUnderflow()
    ensures AdjacentChecked(Pos(0, 0), Pos(0, 0)) == None
    ensures AdjacentChecked(Pos(3, 0), Pos(3, 5)) == None
    ensures !Adjacent(Pos(0, 0), Pos(0, 0)) && !Adjacent(Pos(3, 0), Pos(3, 5))
  {
  }

  /**
   * `get_adjacent(pos, ..)` compares `pos` with itself whenever `pos` is one of
   * the path's own cells. With debug-build arithmetic that comparison panics
   * exactly for the cells in row 0 or column 0.
   */
  lemma SelfComparisonOnEdge(p: Pos)
    requires p.col < UsizeMax && p.row < UsizeMax
    ensures AdjacentChecked(p, p).None? <==> p.row == 0 || p.col == 0
    ensures AdjacentChecked(p, p) != Some(true)
  {
  }

  /** Away from the coordinate limits the checked form never panics and agrees with `Adjacent`. */
  lemma AdjacentCheckedInterior(s: Pos, o: Pos)
    requires 0 < s.col < UsizeMax && 0 < s.row < UsizeMax && InUsize(o)
    ensures AdjacentChecked(s, o) == Some(Adjacent(s, o))
  {
  }
}
