/** Sequence helpers mirroring the JavaScript array operations the resolvers
    use (`filter`, `find`), each with a reference characterisation. */
module Seqs {
  import opened Wrappers

  /** The elements of `xs` that satisfy `p`, in their original order
      (`Array.prototype.filter`). Defined by peeling off the last element,
      which gives the same result as a front-to-back scan. */
  function Filter<T(==)>(xs: seq<T>, p: T -> bool): (r: seq<T>)
    ensures |r| <= |xs|
    ensures forall k :: 0 <= k < |r| ==> p(r[k]) && r[k] in xs
    decreases |xs|
  {
    if |xs| == 0 then []
    else
      var init := xs[..|xs| - 1];
      var rest := Filter(init, p);
      if p(xs[|xs| - 1]) then rest + [xs[|xs| - 1]] else rest
  }

  /** The index of the first element of `xs` that satisfies `p`
      (`Array.prototype.find`, `findOne` on a collection in natural order). */
  function FirstIndex<T>(xs: seq<T>, p: T -> bool): (r: Option<nat>)
    ensures r.Some? ==> r.value < |xs| && p(xs[r.value])
    ensures r.Some? ==> forall j :: 0 <= j < r.value ==> !p(xs[j])
    ensures r.None? ==> forall j :: 0 <= j < |xs| ==> !p(xs[j])
    decreases |xs|
  {
    if |xs| == 0 then None
    else if p(xs[0]) then Some(0)
    else
      match FirstIndex(xs[1..], p)
      case None => None
      case Some(k) => Some(k + 1)
  }

  /** The conjunction of two element predicates. */
  function Both<T>(p: T -> bool, q: T -> bool): T -> bool {
    x => p(x) && q(x)
  }

  /** The positions of `xs` whose element satisfies `p`. */
  ghost function Where<T>(xs: seq<T>, p: T -> bool): set<int> {
    set i | 0 <= i < |xs| && p(xs[i])
  }

  /** How many elements of `xs` satisfy `p`: a counting definition that does
      not go through `Filter`. */
  ghost function NumberWhere<T>(xs: seq<T>, p: T -> bool): nat {
    |Where(xs, p)|
  }

  /** `idx` lists, in strictly increasing order, exactly the positions of
      `xs` whose element satisfies `p`. */
  ghost predicate IsPositions<T>(idx: seq<nat>, xs: seq<T>, p: T -> bool) {
    && (forall k :: 0 <= k < |idx| ==> idx[k] < |xs|)
    && (forall k, l :: 0 <= k < l < |idx| ==> idx[k] < idx[l])
    && (forall i: nat :: i < |xs| ==> (i in idx <==> p(xs[i])))
  }

  /** Filtering a sequence extended by one element. */
  lemma FilterSnoc<T>(xs: seq<T>, x: T, p: T -> bool)
    ensures Filter(xs + [x], p) == Filter(xs, p) + (if p(x) then [x] else [])
  {
    assert (xs + [x])[..|xs|] == xs;
  }

  /** The positions of a sequence extended by one element. */
  lemma WhereSnoc<T>(xs: seq<T>, p: T -> bool)
    requires |xs| > 0
    ensures Where(xs, p) == Where(xs[..|xs| - 1], p) + (if p(xs[|xs| - 1]) then {|xs| - 1} else {})
  {
    var n := |xs| - 1;
    var init := xs[..n];
    forall i | 0 <= i < n
      ensures (i in Where(xs, p)) == (i in Where(init, p))
    {
      assert xs[i] == init[i];
    }
  }

  /** The length of a filter is the number of positions that satisfy the
      predicate. */
  lemma {:induction false} FilterCount<T>(xs: seq<T>, p: T -> bool)
    ensures |Filter(xs, p)| == NumberWhere(xs, p)
    decreases |xs|
  {
    if |xs| == 0 {
      assert Where(xs, p) == {};
    } else {
      var n := |xs| - 1;
      FilterCount(xs[..n], p);
      WhereSnoc(xs, p);
      assert n !in Where(xs[..n], p);
    }
  }

  /** A filter is `xs` read at exactly the positions that satisfy the
      predicate, in increasing order: an order-preserving selection that
      drops nothing it should keep. */
  lemma {:induction false} FilterPositions<T>(xs: seq<T>, p: T -> bool) returns (idx: seq<nat>)
    ensures IsPositions(idx, xs, p)
    ensures |idx| == |Filter(xs, p)|
    ensures forall k :: 0 <= k < |idx| ==> Filter(xs, p)[k] == xs[idx[k]]
    decreases |xs|
  {
    if |xs| == 0 {
      idx := [];
    } else {
      var n := |xs| - 1;
      var init := xs[..n];
      var idx0 := FilterPositions(init, p);
      idx := idx0 + if p(xs[n]) then [n] else [];
      PositionsSnoc(idx0, xs, p);
      var r := Filter(xs, p);
      var r0 := Filter(init, p);
      assert r == r0 + if p(xs[n]) then [xs[n]] else [];
      forall k | 0 <= k < |idx|
        ensures r[k] == xs[idx[k]]
      {
        if k < |idx0| {
          assert xs[idx0[k]] == init[idx0[k]];
        }
      }
    }
  }

  /** Extending the positions of a prefix to the whole sequence. */
  lemma PositionsSnoc<T>(idx0: seq<nat>, xs: seq<T>, p: T -> bool)
    requires |xs| > 0 && IsPositions(idx0, xs[..|xs| - 1], p)
    ensures IsPositions(idx0 + if p(xs[|xs| - 1]) then [|xs| - 1] else [], xs, p)
  {
    var n := |xs| - 1;
    var tail := if p(xs[n]) then [n] else [];
    var idx := idx0 + tail;
    forall i: nat | i < |xs|
      ensures i in idx <==> p(xs[i])
    {
      if i < n {
        assert xs[i] == xs[..n][i];
        assert i !in tail;
      } else {
        assert n !in idx0;
      }
    }
  }

  /** Filtering twice is filtering once by the conjunction. */
  lemma {:induction false} FilterFilter<T>(xs: seq<T>, p: T -> bool, q: T -> bool)
    ensures Filter(Filter(xs, p), q) == Filter(xs, Both(p, q))
    decreases |xs|
  {
    if |xs| != 0 {
      var n := |xs| - 1;
      FilterFilter(xs[..n], p, q);
      if p(xs[n]) {
        FilterSnoc(Filter(xs[..n], p), xs[n], q);
      }
    }
  }

  /** Predicates that agree on every element give the same filter. */
  lemma {:induction false} FilterCongruent<T>(xs: seq<T>, p: T -> bool, q: T -> bool)
    requires forall k :: 0 <= k < |xs| ==> p(xs[k]) == q(xs[k])
    ensures Filter(xs, p) == Filter(xs, q)
    decreases |xs|
  {
    if |xs| != 0 {
      var n := |xs| - 1;
      assert forall i :: 0 <= i < n ==> xs[..n][i] == xs[i];
      FilterCongruent(xs[..n], p, q);
    }
  }

  /** A predicate that holds everywhere keeps the whole sequence. */
  lemma {:induction false} FilterKeepsAll<T>(xs: seq<T>, p: T -> bool)
    requires forall k :: 0 <= k < |xs| ==> p(xs[k])
    ensures Filter(xs, p) == xs
    decreases |xs|
  {
    if |xs| != 0 {
      var n := |xs| - 1;
      var init := xs[..n];
      assert forall i :: 0 <= i < n ==> init[i] == xs[i];
      FilterKeepsAll(init, p);
      assert Filter(xs, p) == Filter(init, p) + [xs[n]];
      assert init + [xs[n]] == xs;
    }
  }

  /** A predicate that holds nowhere keeps nothing. */
  lemma {:induction false} FilterKeepsNone<T>(xs: seq<T>, p: T -> bool)
    requires forall k :: 0 <= k < |xs| ==> !p(xs[k])
    ensures Filter(xs, p) == []
    decreases |xs|
  {
    if |xs| != 0 {
      var n := |xs| - 1;
      assert forall i :: 0 <= i < n ==> xs[..n][i] == xs[i];
      FilterKeepsNone(xs[..n], p);
    }
  }

  /** Looking up in a sequence extended by one element finds the old match
      if there was one, and otherwise the new element if it matches. */
  lemma {:induction false} FirstIndexSnoc<T>(xs: seq<T>, x: T, p: T -> bool)
    ensures FirstIndex(xs + [x], p) ==
              if FirstIndex(xs, p).Some? then FirstIndex(xs, p)
              else if p(x) then Some(|xs|) else None
    decreases |xs|
  {
    if |xs| != 0 {
      assert (xs + [x])[0] == xs[0];
      assert (xs + [x])[1..] == xs[1..] + [x];
      FirstIndexSnoc(xs[1..], x, p);
    }
  }
}
