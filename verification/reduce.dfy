/**
 * The reduction loop shared by both `get_longest_path` functions: walk the
 * candidate paths and keep the strictly longer one. It is generic in the path
 * representation (`HashSet<Pos>` in one program, `Vec<Pos>` in the other) and
 * takes the path length as `size`.
 */
module Reduce {
  import opened Collections

  /** `xs[k]` is a longest element of `xs`, and every element before it is strictly shorter. */
  ghost predicate FirstLongestAt<P>(xs: seq<P>, size: P -> nat, k: int) {
    && 0 <= k < |xs|
    && (forall j | 0 <= j < |xs| :: size(xs[j]) <= size(xs[k]))
    && (forall j | 0 <= j < k :: size(xs[j]) < size(xs[k]))
  }

  /**
   * The loop body of `get_longest_path` run over `paths`, starting from the
   * running best `longest`. Only a `Some` running best is ever replaced, and
   * only by a strictly longer path.
   */
  function ScanLongest<P>(paths: seq<P>, size: P -> nat, longest: Option<P>): (r: Option<P>)
    ensures longest.None? <==> r.None?
    ensures longest.Some? ==> size(longest.value) <= size(r.value)
    ensures longest.Some? ==> r.value == longest.value || r.value in paths
  {
    if paths == [] then longest
    else
      var next :=
        match longest
        case Some(p) => if size(paths[0]) > size(p) then Some(paths[0]) else longest
        case None => None;
      ScanLongest(paths[1..], size, next)
  }

  /** Seeded with a path, the scan ends on the first longest of the seed followed by `paths`. */
  lemma {:induction false} ScanLongestFindsFirstLongest<P>(paths: seq<P>, size: P -> nat, seed: P)
    ensures exists k :: FirstLongestAt([seed] + paths, size, k)
                        && ([seed] + paths)[k] == ScanLongest(paths, size, Some(seed)).value
  {
    var xs := [seed] + paths;
    var r := ScanLongest(paths, size, Some(seed));
    if paths == [] {
      assert FirstLongestAt(xs, size, 0);
    } else {
      var rest := paths[1..];
      assert xs == [seed] + ([paths[0]] + rest);
      if size(paths[0]) > size(seed) {
        ScanLongestFindsFirstLongest(rest, size, paths[0]);
        var k :| FirstLongestAt([paths[0]] + rest, size, k) && ([paths[0]] + rest)[k] == r.value;
        PrependShorter(seed, [paths[0]] + rest, size, k);
      } else {
        ScanLongestFindsFirstLongest(rest, size, seed);
        var k :| FirstLongestAt([seed] + rest, size, k) && ([seed] + rest)[k] == r.value;
        InsertNotLonger(seed, paths[0], rest, size, k);
      }
    }
  }

  /** A first element shorter than the longest moves the first longest one place on. */
  lemma PrependShorter<P>(x: P, ys: seq<P>, size: P -> nat, k: int)
    requires FirstLongestAt(ys, size, k) && size(x) < size(ys[0])
    ensures FirstLongestAt([x] + ys, size, k + 1) && ([x] + ys)[k + 1] == ys[k]
  {
    var xs := [x] + ys;
    assert forall j | 1 <= j < |xs| :: xs[j] == ys[j - 1];
  }

  /** Inserting, right after the seed, an element no longer than the seed keeps the same first longest. */
  lemma InsertNotLonger<P>(seed: P, x: P, rest: seq<P>, size: P -> nat, k: int)
    requires FirstLongestAt([seed] + rest, size, k) && size(x) <= size(seed)
    ensures var k' := if k == 0 then 0 else k + 1;
      FirstLongestAt([seed] + ([x] + rest), size, k') && ([seed] + ([x] + rest))[k'] == ([seed] + rest)[k]
  {
    var ys := [seed] + rest;
    var xs := [seed] + ([x] + rest);
    assert forall j | 2 <= j < |xs| :: xs[j] == ys[j - 1];
    assert xs[0] == ys[0] && xs[1] == x;
    assert size(ys[0]) <= size(ys[k]);
  }

  /**
   * `get_longest_path` as the source writes it: `longest` starts as `None`,
   * and the loop only ever replaces a `Some`, so the answer is always `None`.
   */
  function GetLongest<P>(paths: seq<P>, size: P -> nat): (r: Option<P>)
    ensures r == None
  {
    ScanLongest(paths, size, None)
  }

  /**
   * The evidently intended `get_longest_path`: the same loop, seeded with the
   * first path. It is `None` exactly on an empty list, and otherwise the first
   * of the longest paths (strictly longer replaces, ties keep the earlier one).
   */
  function LongestSeeded<P>(paths: seq<P>, size: P -> nat): (r: Option<P>)
    ensures r.Some? <==> |paths| > 0
    ensures r.Some? ==> exists k :: FirstLongestAt(paths, size, k) && paths[k] == r.value
  {
    if paths == [] then None
    else
      ScanLongestFindsFirstLongest(paths[1..], size, paths[0]);
      assert [paths[0]] + paths[1..] == paths;
      ScanLongest(paths[1..], size, Some(paths[0]))
  }
}
