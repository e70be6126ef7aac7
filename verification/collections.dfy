/** Small collection helpers shared by the longest-road model. */
module Collections {

  datatype Option<+T> = None | Some(value: T)

  /** The outcome of an operation that may abort the Rust program with a panic. */
  datatype Outcome<+T> = Ok(value: T) | Panic(message: string)

  /** No element occurs twice. */
  ghost predicate Distinct<T>(xs: seq<T>) {
    forall i, j | 0 <= i < j < |xs| :: xs[i] != xs[j]
  }

  /** The set of elements of a sequence. */
  function Elems<T>(xs: seq<T>): set<T> {
    set x | x in xs
  }

  /**
   * Some enumeration of a finite set: the order in which a `HashSet` or the keys
   * of a `HashMap` are visited. The order is unspecified, and nothing proved
   * about the model depends on which order this is.
   */
  ghost function Enumerate<T>(s: set<T>): (r: seq<T>)
    ensures |r| == |s|
    ensures forall x | x in s :: x in r
    ensures forall i | 0 <= i < |r| :: r[i] in s
    ensures Distinct(r)
  {
    if s == {} then []
    else
      var x :| x in s;
      var rest := Enumerate(s - {x});
      DistinctCons(x, rest);
      [x] + rest
  }

  /** Putting a new element in front keeps a sequence duplicate-free. */
  lemma DistinctCons<T>(x: T, xs: seq<T>)
    requires Distinct(xs) && x !in xs
    ensures Distinct([x] + xs)
    ensures forall i | 0 <= i < |xs| :: ([x] + xs)[i + 1] == xs[i]
  {
  }

  /** A subset is never larger than its superset. */
  lemma SubsetCard<T>(a: set<T>, b: set<T>)
    requires a <= b
    ensures |a| <= |b|
  {
    assert b == a + (b - a);
  }

  /** A duplicate-free sequence has exactly as many elements as its set. */
  lemma {:induction false} DistinctCard<T>(xs: seq<T>)
    requires Distinct(xs)
    ensures |Elems(xs)| == |xs|
  {
    if xs != [] {
      DistinctCard(xs[1..]);
      assert Elems(xs) == {xs[0]} + Elems(xs[1..]);
      assert xs[0] !in Elems(xs[1..]);
    }
  }

  /** A duplicate-free sequence drawn from `s` has at most `|s|` elements. */
  lemma DistinctWithin<T>(xs: seq<T>, s: set<T>)
    requires Distinct(xs)
    requires forall i | 0 <= i < |xs| :: xs[i] in s
    ensures |xs| <= |s|
  {
    DistinctCard(xs);
    SubsetCard(Elems(xs), s);
  }
}
