/** Dense N-dimensional integer arrays stored in row-major (C) order, the layout
    the filters below index into. The shape is one extent per axis; the empty
    shape is a 0-d array holding a single element. */
module NDArrays {

  /** Product of the entries of a sequence, 1 for the empty sequence: the number
      of elements of an array with that shape, or of a window with those sizes. */
  function Prod(xs: seq<int>): (p: int)
    ensures (forall d :: 0 <= d < |xs| ==> xs[d] >= 0) ==> p >= 0
    ensures (forall d :: 0 <= d < |xs| ==> xs[d] > 0) ==> p > 0
  {
    if |xs| == 0 then 1 else Prod(xs[..|xs| - 1]) * xs[|xs| - 1]
  }

  /** A product of odd factors is odd. */
  lemma {:induction false} ProdOdd(xs: seq<int>)
    requires forall d :: 0 <= d < |xs| ==> xs[d] % 2 == 1
    ensures Prod(xs) % 2 == 1
  {
    if |xs| > 0 {
      var n := |xs| - 1;
      ProdOdd(xs[..n]);
      OddTimesOdd(Prod(xs[..n]), xs[n]);
    }
  }

  lemma OddTimesOdd(p: int, x: int)
    requires p % 2 == 1 && x % 2 == 1
    ensures (p * x) % 2 == 1
  {
    var a, b := p / 2, x / 2;
    assert p == 2 * a + 1 && x == 2 * b + 1;
    assert p * x == 2 * (2 * a * b + a + b) + 1;
  }

  lemma MulMono(a: int, b: int, m: nat)
    requires a <= b
    ensures a * m <= b * m
  {
  }

  /** Division by the last extent splits a position below p * m into a row
      below p and a column below m. */
  lemma DivSplit(i: int, m: nat, p: int)
    requires 0 <= i < p * m && p >= 0
    ensures m > 0 && 0 <= i / m < p && 0 <= i % m < m && (i / m) * m + i % m == i
  {
    if m > 0 && i / m >= p {
      MulMono(p, i / m, m);
    }
  }

  datatype NDArray = NDArray(shape: seq<nat>, data: seq<int>) {
    /** The data holds exactly one element per coordinate. */
    predicate Valid() {
      |data| == Prod(shape)
    }
  }

  /** Coordinate c addresses an element of an array of the given shape. */
  predicate InBounds(c: seq<int>, shape: seq<nat>) {
    |c| == |shape| && forall d :: 0 <= d < |c| ==> 0 <= c[d] < shape[d]
  }

  lemma MulBound(f: int, p: int, m: nat, x: int)
    requires 0 <= f < p && 0 <= x < m
    ensures 0 <= f * m + x < p * m
  {
    MulMono(f + 1, p, m);
    MulMono(0, f, m);
  }

  /** Row-major position of coordinate c: the last axis varies fastest. */
  function Flatten(c: seq<int>, shape: seq<nat>): (i: int)
    requires |c| == |shape|
    ensures InBounds(c, shape) ==> 0 <= i < Prod(shape)
  {
    if |shape| == 0 then 0
    else
      var n := |shape| - 1;
      var f := Flatten(c[..n], shape[..n]);
      assert InBounds(c, shape) ==> 0 <= f * shape[n] + c[n] < Prod(shape) by {
        if InBounds(c, shape) {
          assert InBounds(c[..n], shape[..n]);
          MulBound(f, Prod(shape[..n]), shape[n], c[n]);
        }
      }
      f * shape[n] + c[n]
  }

  /** The coordinate at row-major position i: the inverse of Flatten. */
  function Coords(i: int, shape: seq<nat>): (c: seq<int>)
    requires 0 <= i < Prod(shape)
    ensures InBounds(c, shape) && Flatten(c, shape) == i
    decreases |shape|
  {
    if |shape| == 0 then []
    else
      var n := |shape| - 1;
      var m := shape[n];
      var rows := Prod(shape[..n]);
      DivSplit(i, m, rows);
      var prefix := Coords(i / m, shape[..n]);
      var c := prefix + [i % m];
      assert c[..n] == prefix && c[n] == i % m;
      assert InBounds(c, shape);
      assert Flatten(c, shape) == Flatten(prefix, shape[..n]) * m + i % m;
      c
  }

  lemma DivOfRow(i: int, f: int, m: nat, x: int)
    requires i == f * m + x && 0 <= x < m
    ensures i / m == f && i % m == x
  {
    var q, r := i / m, i % m;
    assert q * m + r == f * m + x && 0 <= r < m;
    if q > f {
      MulMono(f + 1, q, m);
    } else if q < f {
      MulMono(q + 1, f, m);
    }
  }

  lemma CoordsUnfold(i: int, shape: seq<nat>)
    requires 0 <= i < Prod(shape) && |shape| > 0
    ensures shape[|shape| - 1] > 0 && 0 <= i / shape[|shape| - 1] < Prod(shape[..|shape| - 1])
    ensures Coords(i, shape)
         == Coords(i / shape[|shape| - 1], shape[..|shape| - 1]) + [i % shape[|shape| - 1]]
  {
    DivSplit(i, shape[|shape| - 1], Prod(shape[..|shape| - 1]));
  }

  /** Flattening then recovering the coordinate gives it back, so Flatten and
      Coords are mutually inverse bijections between in-bounds coordinates and
      positions 0 .. Prod(shape) - 1. */
  lemma {:induction false} CoordsOfFlatten(c: seq<int>, shape: seq<nat>)
    requires InBounds(c, shape)
    ensures Coords(Flatten(c, shape), shape) == c
  {
    if |shape| > 0 {
      var n := |shape| - 1;
      assert InBounds(c[..n], shape[..n]);
      CoordsOfFlatten(c[..n], shape[..n]);
      var f := Flatten(c[..n], shape[..n]);
      var m := shape[n];
      var i := Flatten(c, shape);
      DivOfRow(i, f, m, c[n]);
      CoordsUnfold(i, shape);
      assert c == c[..n] + [c[n]];
    }
  }

  /** In one dimension the position of coordinate [t] is t itself, and position
      i has coordinate [i]. */
  lemma FlattenOneDim(t: int, n: nat)
    ensures Flatten([t], [n]) == t
  {
    assert [t][..0] == [] && [n][..0] == [];
  }

  lemma CoordsOneDim(i: int, n: nat)
    requires 0 <= i < n
    ensures Prod([n]) == n && Coords(i, [n]) == [i]
  {
    assert Prod([n]) == Prod([]) * n;
    var c := Coords(i, [n]);
    assert |c| == 1 && c[..0] == [] && [n][..0] == [];
    assert Flatten(c, [n]) == Flatten(c[..0], [n][..0]) * n + c[0];
    assert c == [c[0]];
  }
}
