/** Optional values and error-carrying results, used where the source returns
    None or raises. */
module Wrappers {

  datatype Option<+T> = None | Some(value: T) {

    /** The value, or a default when there is none. */
    function GetOr(default: T): T {
      match this
      case Some(v) => v
      case None => default
    }
  }

  datatype Result<+T, +E> = Ok(value: T) | Err(error: E)

  /** The values of the `Some` entries of `xs`, in order. */
  function Somes<T>(xs: seq<Option<T>>): seq<T>
    decreases |xs|
  {
    if |xs| == 0 then []
    else Somes(xs[..|xs| - 1]) + (if xs[|xs| - 1].Some? then [xs[|xs| - 1].value] else [])
  }

  /** At most one value per entry. */
  lemma {:induction false} SomesLength<T>(xs: seq<Option<T>>)
    ensures |Somes(xs)| <= |xs|
    decreases |xs|
  {
    if |xs| > 0 {
      SomesLength(xs[..|xs| - 1]);
    }
  }

  /** Every value comes from an entry holding it. */
  lemma {:induction false} SomesTrace<T>(xs: seq<Option<T>>, a: T)
    requires a in Somes(xs)
    ensures exists i :: 0 <= i < |xs| && xs[i] == Some(a)
    decreases |xs|
  {
    var n := |xs| - 1;
    if a in Somes(xs[..n]) {
      SomesTrace(xs[..n], a);
      var i :| 0 <= i < n && xs[..n][i] == Some(a);
      assert xs[i] == xs[..n][i];
    } else {
      assert xs[n] == Some(a);
    }
  }

  /** Every present entry's value is kept. */
  lemma SomesKeeps<T>(xs: seq<Option<T>>, i: nat)
    requires i < |xs| && xs[i].Some?
    ensures xs[i].value in Somes(xs)
  {
    SomesPrefix(xs, i + 1);
    assert xs[..i + 1][..i] == xs[..i];
    assert xs[..i + 1][i] == xs[i];
  }

  /** The values of a prefix of the entries are a prefix of the values: an
      earlier entry's value comes before a later one's. */
  lemma {:induction false} SomesPrefix<T>(xs: seq<Option<T>>, m: nat)
    requires m <= |xs|
    ensures Somes(xs[..m]) <= Somes(xs)
    decreases |xs|
  {
    if m < |xs| {
      var n := |xs| - 1;
      assert xs[..n][..m] == xs[..m];
      SomesPrefix(xs[..n], m);
    } else {
      assert xs[..m] == xs;
    }
  }
}
