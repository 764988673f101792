/** Reference semantics of the rank filter that the signal-processing front end
    delegates to, in the only boundary mode it uses ('constant', fill value 0):
    a footprint is centred on each element, the values under its non-zero
    positions are collected (zero where the footprint hangs over the edge), the
    collection is sorted ascending and the value at position rank is the
    output for that element. */
module RankFilters {
  import opened NDArrays
  import opened OrderStatistics

  /** The value read at coordinate c when everything outside the array is 0. */
  function Padded(a: NDArray, c: seq<int>): int
    requires a.Valid() && |c| == |a.shape|
  {
    if InBounds(c, a.shape) then a.data[Flatten(c, a.shape)] else 0
  }

  /** Where footprint coordinate q lands when a footprint of shape fshape is
      centred (at fshape[d] / 2 on each axis) over coordinate p. */
  function Shifted(p: seq<int>, q: seq<int>, fshape: seq<nat>): seq<int>
    requires |p| == |q| == |fshape|
  {
    seq(|p|, d requires 0 <= d < |p| => p[d] + q[d] - fshape[d] / 2)
  }

  /** Number of non-zero entries of a footprint's data. */
  function CountNonzero(xs: seq<int>): (n: nat)
    ensures n <= |xs|
  {
    if |xs| == 0 then 0
    else CountNonzero(xs[..|xs| - 1]) + (if xs[|xs| - 1] != 0 then 1 else 0)
  }

  predicate Compatible(a: NDArray, fp: NDArray) {
    a.Valid() && fp.Valid() && |fp.shape| == |a.shape|
  }

  /** The padded values under the non-zero footprint positions 0 .. j - 1
      (row-major footprint order) when the footprint is centred over p. */
  function Gather(a: NDArray, fp: NDArray, p: seq<int>, j: int): (w: seq<int>)
    requires Compatible(a, fp) && |p| == |a.shape| && 0 <= j <= |fp.data|
    ensures |w| == CountNonzero(fp.data[..j])
  {
    if j == 0 then []
    else
      assert fp.data[..j][..j - 1] == fp.data[..j - 1];
      var q := Coords(j - 1, fp.shape);
      Gather(a, fp, p, j - 1)
        + (if fp.data[j - 1] != 0 then [Padded(a, Shifted(p, q, fp.shape))] else [])
  }

  /** The neighbourhood of p selected by the whole footprint. */
  function Neighbours(a: NDArray, fp: NDArray, p: seq<int>): (w: seq<int>)
    requires Compatible(a, fp) && |p| == |a.shape|
    ensures |w| == CountNonzero(fp.data)
  {
    assert fp.data[..|fp.data|] == fp.data;
    Gather(a, fp, p, |fp.data|)
  }

  /** The rank filter: the output has the input's shape, and the element at
      every position is the rank-th smallest (0 = smallest) of that position's
      footprint-selected, zero-padded neighbourhood. */
  function RankFilter(a: NDArray, fp: NDArray, rank: int): (r: NDArray)
    requires Compatible(a, fp)
    requires 0 <= rank < CountNonzero(fp.data)
    ensures r.shape == a.shape && r.Valid()
    ensures forall i :: 0 <= i < |r.data| ==>
      var w := Neighbours(a, fp, Coords(i, a.shape));
      r.data[i] in w && IsOrderStatistic(w, rank, r.data[i])
  {
    NDArray(a.shape, seq(|a.data|, i requires 0 <= i < |a.data| =>
      Select(Neighbours(a, fp, Coords(i, a.shape)), rank)))
  }

  lemma RankFilterAt(a: NDArray, fp: NDArray, rank: int, i: int)
    requires Compatible(a, fp)
    requires 0 <= rank < CountNonzero(fp.data)
    requires 0 <= i < |a.data|
    ensures RankFilter(a, fp, rank).data[i] == Select(Neighbours(a, fp, Coords(i, a.shape)), rank)
  {
  }

  /** An all-ones footprint of the given sizes: the window that a rank filter
      called with a size instead of a footprint uses. */
  function Box(sizes: seq<nat>): (fp: NDArray)
    ensures fp.Valid() && fp.shape == sizes
  {
    NDArray(sizes, seq(Prod(sizes), _ => 1))
  }

  /** Every position of a box footprint is selected. */
  lemma {:induction false} BoxCount(sizes: seq<nat>)
    ensures CountNonzero(Box(sizes).data) == Prod(sizes)
  {
    AllOnesCount(Prod(sizes));
  }

  lemma {:induction false} AllOnesCount(n: nat)
    ensures CountNonzero(seq(n, _ => 1)) == n
  {
    if n > 0 {
      AllOnesCount(n - 1);
      assert seq(n, _ => 1)[..n - 1] == seq(n - 1, _ => 1);
    }
  }

  /** With an odd number of selected neighbours, the middle rank picks out the
      median of every neighbourhood. */
  lemma RankFilterMedian(a: NDArray, fp: NDArray)
    requires Compatible(a, fp) && CountNonzero(fp.data) % 2 == 1
    ensures forall i :: 0 <= i < |a.data| ==>
      IsMedian(Neighbours(a, fp, Coords(i, a.shape)),
               RankFilter(a, fp, CountNonzero(fp.data) / 2).data[i])
  {
  }

  /** Every element of w is an element of data or the padding value 0. */
  predicate FromInputOrPadding(w: seq<int>, data: seq<int>) {
    forall k :: 0 <= k < |w| ==> w[k] == 0 || w[k] in data
  }

  /** The neighbourhood holds nothing but input values and padding zeros. */
  lemma {:induction false} GatherFromInputOrPadding(a: NDArray, fp: NDArray, p: seq<int>, j: int)
    requires Compatible(a, fp) && |p| == |a.shape| && 0 <= j <= |fp.data|
    ensures FromInputOrPadding(Gather(a, fp, p, j), a.data)
  {
    if j > 0 {
      var g := Gather(a, fp, p, j - 1);
      assert FromInputOrPadding(g, a.data) by {
        GatherFromInputOrPadding(a, fp, p, j - 1);
      }
      var t := Shifted(p, Coords(j - 1, fp.shape), fp.shape);
      var tail := if fp.data[j - 1] != 0 then [Padded(a, t)] else [];
      assert FromInputOrPadding(tail, a.data) by {
        PaddedFromInputOrPadding(a, t);
      }
      assert Gather(a, fp, p, j) == g + tail;
      AppendFromInputOrPadding(g, tail, a.data);
    }
  }

  lemma PaddedFromInputOrPadding(a: NDArray, c: seq<int>)
    requires a.Valid() && |c| == |a.shape|
    ensures Padded(a, c) == 0 || Padded(a, c) in a.data
  {
    if InBounds(c, a.shape) {
      assert a.data[Flatten(c, a.shape)] in a.data;
    }
  }

  lemma AppendFromInputOrPadding(w: seq<int>, tail: seq<int>, data: seq<int>)
    requires FromInputOrPadding(w, data) && FromInputOrPadding(tail, data)
    ensures FromInputOrPadding(w + tail, data)
  {
    forall k | 0 <= k < |w + tail| ensures (w + tail)[k] == 0 || (w + tail)[k] in data {
      if k >= |w| {
        assert (w + tail)[k] == tail[k - |w|];
      }
    }
  }

  /** The filter invents no values: every output element is an input element
      or the padding value 0. */
  lemma RankFilterFromInputOrPadding(a: NDArray, fp: NDArray, rank: int)
    requires Compatible(a, fp)
    requires 0 <= rank < CountNonzero(fp.data)
    ensures forall i :: 0 <= i < |a.data| ==>
      RankFilter(a, fp, rank).data[i] == 0 || RankFilter(a, fp, rank).data[i] in a.data
  {
    var r := RankFilter(a, fp, rank);
    forall i | 0 <= i < |a.data|
      ensures r.data[i] == 0 || r.data[i] in a.data
    {
      var c := Coords(i, a.shape);
      GatherFromInputOrPadding(a, fp, c, |fp.data|);
      var w := Neighbours(a, fp, c);
      assert r.data[i] in w;
    }
  }

  /** Consequently an all-zero input, whose padding agrees with it, is left
      unchanged by every footprint and rank. */
  lemma RankFilterZeroFixed(a: NDArray, fp: NDArray, rank: int)
    requires Compatible(a, fp)
    requires 0 <= rank < CountNonzero(fp.data)
    requires forall i :: 0 <= i < |a.data| ==> a.data[i] == 0
    ensures RankFilter(a, fp, rank) == a
  {
    RankFilterFromInputOrPadding(a, fp, rank);
    assert RankFilter(a, fp, rank).data == a.data;
  }

  /** The zero-padded sliding window of length k centred (at k / 2) over
      position p of a one-dimensional signal. */
  function Window(s: seq<int>, p: int, k: nat): seq<int> {
    seq(k, j requires 0 <= j < k =>
      var t := p - k / 2 + j;
      if 0 <= t < |s| then s[t] else 0)
  }

  /** In one dimension the neighbourhood of a box footprint of length k is the
      zero-padded window of k consecutive samples centred over p. */
  lemma NeighboursOneDim(s: seq<int>, k: nat, p: int)
    ensures NDArray([|s|], s).Valid()
    ensures Neighbours(NDArray([|s|], s), Box([k]), [p]) == Window(s, p, k)
  {
    var a := NDArray([|s|], s);
    assert Prod([|s|]) == Prod([]) * |s|;
    var fp := Box([k]);
    assert Prod([k]) == Prod([]) * k;
    GatherOneDim(a, fp, p, k);
    assert Window(s, p, k)[..k] == Window(s, p, k);
  }

  lemma {:induction false} GatherOneDim(a: NDArray, fp: NDArray, p: int, j: int)
    requires a.shape == [|a.data|] && a.Valid()
    requires fp.Valid() && fp.shape == [|fp.data|] && forall t :: 0 <= t < |fp.data| ==> fp.data[t] == 1
    requires 0 <= j <= |fp.data|
    ensures Gather(a, fp, [p], j) == Window(a.data, p, |fp.data|)[..j]
  {
    if j > 0 {
      var w := Window(a.data, p, |fp.data|);
      GatherOneDim(a, fp, p, j - 1);
      GatherOneDimStep(a, fp, p, j);
      PrefixExtend(w, j);
    }
  }

  lemma GatherOneDimStep(a: NDArray, fp: NDArray, p: int, j: int)
    requires a.shape == [|a.data|] && a.Valid()
    requires fp.Valid() && fp.shape == [|fp.data|] && forall t :: 0 <= t < |fp.data| ==> fp.data[t] == 1
    requires 0 < j <= |fp.data|
    ensures Gather(a, fp, [p], j)
      == Gather(a, fp, [p], j - 1) + [Window(a.data, p, |fp.data|)[j - 1]]
  {
    var k := |fp.data|;
    CoordsOneDim(j - 1, k);
    var t := p - k / 2 + (j - 1);
    assert Shifted([p], [j - 1], fp.shape) == [t];
    assert Padded(a, [t]) == Window(a.data, p, k)[j - 1] by {
      FlattenOneDim(t, |a.data|);
    }
    assert fp.data[j - 1] != 0;
  }

  lemma PrefixExtend(w: seq<int>, j: int)
    requires 0 < j <= |w|
    ensures w[..j] == w[..j - 1] + [w[j - 1]]
  {
  }
}
