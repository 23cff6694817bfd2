/**
 * The Option and Result datatypes, and `Values`/`Positions`, which pick the
 * present entries out of a sequence of options.
 */
module Wrappers {
  /** A value that may be absent: the result of a parse that can fail. */
  datatype Option<+T> = None | Some(value: T)

  /** A computed value, or the error that stopped the computation. */
  datatype Result<+T, +E> = Success(value: T) | Failure(error: E)

  /** The values of the present entries of `xs`, in order. */
  function Values<T>(xs: seq<Option<T>>): seq<T> {
    if xs == [] then []
    else
      var last := xs[|xs| - 1];
      Values(xs[..|xs| - 1]) + (if last.Some? then [last.value] else [])
  }

  /** The positions of the present entries of `xs`, in order. */
  ghost function Positions<T>(xs: seq<Option<T>>): seq<nat> {
    if xs == [] then []
    else Positions(xs[..|xs| - 1]) + (if xs[|xs| - 1].Some? then [|xs| - 1] else [])
  }

  lemma {:induction false} PositionsBelow<T>(xs: seq<Option<T>>)
    ensures forall p :: p in Positions(xs) ==> p < |xs|
    decreases |xs|
  {
    if xs != [] {
      PositionsBelow(xs[..|xs| - 1]);
    }
  }

  /** Value j comes from the j-th present position; the positions increase. */
  lemma {:induction false} PositionsIndexValues<T>(xs: seq<Option<T>>)
    ensures |Positions(xs)| == |Values(xs)|
    ensures forall j :: 0 <= j < |Positions(xs)| ==>
      Positions(xs)[j] < |xs| && xs[Positions(xs)[j]] == Some(Values(xs)[j])
    ensures forall i, j :: 0 <= i < j < |Positions(xs)| ==> Positions(xs)[i] < Positions(xs)[j]
    decreases |xs|
  {
    if xs != [] {
      var init := xs[..|xs| - 1];
      PositionsIndexValues(init);
      var p' := Positions(init);
      assert forall j :: 0 <= j < |p'| ==> xs[p'[j]] == init[p'[j]];
    }
  }

  /** Exactly the present entries have their position listed. */
  lemma {:induction false} PositionsOfPresent<T>(xs: seq<Option<T>>)
    ensures forall k :: 0 <= k < |xs| ==> (k in Positions(xs) <==> xs[k].Some?)
    decreases |xs|
  {
    if xs != [] {
      var n := |xs|;
      var init := xs[..n - 1];
      PositionsOfPresent(init);
      PositionsBelow(init);
      forall k | 0 <= k < n - 1 ensures k in Positions(xs) <==> xs[k].Some? {
        assert xs[k] == init[k];
      }
    }
  }

  /** In an increasing sequence, a smaller entry sits at an earlier position. */
  lemma IncreasingOrder(s: seq<nat>, a: int, b: int)
    requires forall i, j :: 0 <= i < j < |s| ==> s[i] < s[j]
    requires 0 <= a < |s| && 0 <= b < |s| && s[a] < s[b]
    ensures a < b
  {
  }

  /** When every entry is present, `Values` gives them all back. */
  lemma {:induction false} ValuesOfPresent<T>(xs: seq<Option<T>>, ys: seq<T>)
    requires |xs| == |ys|
    requires forall i :: 0 <= i < |xs| ==> xs[i] == Some(ys[i])
    ensures Values(xs) == ys
    decreases |xs|
  {
    if xs != [] {
      var n := |xs|;
      ValuesOfPresent(xs[..n - 1], ys[..n - 1]);
      assert ys == ys[..n - 1] + [ys[n - 1]];
    }
  }
}
