/** Worked cases of the filters on small inputs. */
module FilterExamples {
  import opened NDArrays
  import opened OrderStatistics
  import opened RankFilters
  import opened SignalTools

  /** Sample t of s, or the padding 0 outside s. */
  function At(s: seq<int>, t: int): int {
    if 0 <= t < |s| then s[t] else 0
  }

  lemma WindowOfThree(s: seq<int>, i: int)
    ensures Window(s, i, 3) == [At(s, i - 1), At(s, i), At(s, i + 1)]
  {
  }

  lemma FiveSamples(x: seq<int>)
    requires |x| == 5
    ensures x == [x[0], x[1], x[2], x[3], x[4]]
  {
  }

  lemma TwoSamples(x: seq<int>)
    requires |x| == 2
    ensures x == [x[0], x[1]]
  {
  }

  lemma CountLessThree(x: int, y: int, z: int, v: int)
    ensures CountLess([x, y, z], v)
         == (if x < v then 1 else 0) + (if y < v then 1 else 0) + (if z < v then 1 else 0)
  {
    assert [x, y, z][1..] == [y, z] && [y, z][1..] == [z] && [z][1..] == [];
    assert CountLess([z], v) == (if z < v then 1 else 0) + CountLess([], v);
    assert CountLess([y, z], v) == (if y < v then 1 else 0) + CountLess([z], v);
    assert CountLess([x, y, z], v) == (if x < v then 1 else 0) + CountLess([y, z], v);
  }

  /** One output sample of the 1-D median filter with the default window of 3,
      whose zero-padded window at i is [x, y, z] with median v. */
  lemma MedfiltSample(s: seq<int>, i: int, x: int, y: int, z: int, v: int)
    requires 0 <= i < |s| && Window(s, i, 3) == [x, y, z]
    requires v in [x, y, z]
    requires (if x < v then 1 else 0) + (if y < v then 1 else 0) + (if z < v then 1 else 0) <= 1
    requires (if x <= v then 1 else 0) + (if y <= v then 1 else 0) + (if z <= v then 1 else 0) >= 2
    ensures NDArray([|s|], s).Valid() && CountNonzero(Box([3]).data) == 3
    ensures RankFilter(NDArray([|s|], s), Box([3]), 1).data[i] == v
  {
    var a, fp := NDArray([|s|], s), Box([3]);
    assert a.Valid() && CountNonzero(fp.data) == 3 by {
      CoordsOneDim(i, |s|);
      BoxCount([3]);
      assert Prod([3]) == Prod([]) * 3;
    }
    assert RankFilter(a, fp, 1).data[i] == Select([x, y, z], 1) by {
      CoordsOneDim(i, |s|);
      NeighboursOneDim(s, 3, i);
      RankFilterAt(a, fp, 1, i);
    }
    assert IsOrderStatistic([x, y, z], 1, v) by {
      CountLessThree(x, y, z, v);
      CountLessThree(x, y, z, v + 1);
    }
    SelectCharacterization([x, y, z], 1, v);
  }

  /** medfilt of [5, 1, 9, 2, 8] with the default kernel: the zero-padded
      windows are [0,5,1], [5,1,9], [1,9,2], [9,2,8] and [2,8,0], whose
      medians are 1, 5, 2, 8 and 2; no axis is shorter than the window, so
      there is no warning. */
  lemma MedfiltExample()
    ensures NDArray([5], [5, 1, 9, 2, 8]).Valid()
    ensures Medfilt(NDArray([5], [5, 1, 9, 2, 8]), MedfiltDefault)
         == Ok(Filtered(NDArray([5], [1, 5, 2, 8, 2]), false))
  {
    var a := NDArray([5], [5, 1, 9, 2, 8]);
    ExampleFilterSetup(a);
    assert seq(1, _ => 3) == [3];
    assert GetKernelSize(MedfiltDefault, 1) == Ok([3]);
    CoordsOneDim(0, 3);
    MedfiltExampleOutput([5, 1, 9, 2, 8]);
  }

  lemma ExampleFilterSetup(a: NDArray)
    requires |a.shape| == 1 && a.shape[0] == |a.data|
    ensures a.Valid() && CountNonzero(Box([3]).data) == 3
  {
    assert Prod(a.shape) == Prod([]) * |a.data|;
    CoordsOneDim(0, 3);
    BoxCount([3]);
  }

  lemma MedfiltExampleOutput(s: seq<int>)
    requires s == [5, 1, 9, 2, 8]
    ensures NDArray([|s|], s).Valid() && CountNonzero(Box([3]).data) == 3
    ensures RankFilter(NDArray([|s|], s), Box([3]), 1) == NDArray([|s|], [1, 5, 2, 8, 2])
  {
    ExampleFilterSetup(NDArray([|s|], s));
    ExampleSample(s, 0);
    ExampleSample(s, 1);
    ExampleSample(s, 2);
    ExampleSample(s, 3);
    ExampleSample(s, 4);
    FiveSamples(RankFilter(NDArray([|s|], s), Box([3]), 1).data);
  }

  lemma ExampleSample(s: seq<int>, i: int)
    requires s == [5, 1, 9, 2, 8] && 0 <= i < 5
    ensures NDArray([|s|], s).Valid() && CountNonzero(Box([3]).data) == 3
    ensures RankFilter(NDArray([|s|], s), Box([3]), 1).data[i] == [1, 5, 2, 8, 2][i]
  {
    ExampleFilterSetup(NDArray([|s|], s));
    if i == 0 {
      WindowOfThree(s, 0);
      MedfiltSample(s, 0, 0, 5, 1, 1);
    } else if i == 1 {
      WindowOfThree(s, 1);
      MedfiltSample(s, 1, 5, 1, 9, 5);
    } else if i == 2 {
      WindowOfThree(s, 2);
      MedfiltSample(s, 2, 1, 9, 2, 2);
    } else if i == 3 {
      WindowOfThree(s, 3);
      MedfiltSample(s, 3, 9, 2, 8, 8);
    } else {
      WindowOfThree(s, 4);
      MedfiltSample(s, 4, 2, 8, 0, 2);
    }
  }

  /** medfilt of the two-sample volume [4, 7] with the default kernel: the
      window of 3 is longer than the volume, so the warning is issued, and the
      zero-padded windows [0,4,7] and [4,7,0] both have median 4. */
  lemma MedfiltWarningExample()
    ensures NDArray([2], [4, 7]).Valid()
    ensures Medfilt(NDArray([2], [4, 7]), MedfiltDefault)
         == Ok(Filtered(NDArray([2], [4, 4]), true))
  {
    var s := [4, 7];
    var a := NDArray([2], s);
    assert a.Valid() && CountNonzero(Box([3]).data) == 3 by {
      CoordsOneDim(0, 2);
      CoordsOneDim(0, 3);
      BoxCount([3]);
    }
    var out := RankFilter(a, Box([3]), 1);
    assert Medfilt(a, MedfiltDefault) == Ok(Filtered(out, true)) by {
      assert seq(1, _ => 3) == [3];
      assert GetKernelSize(MedfiltDefault, 1) == Ok([3]);
      CoordsOneDim(0, 3);
    }
    assert out.data[0] == 4 by {
      WindowOfThree(s, 0);
      MedfiltSample(s, 0, 0, 4, 7, 4);
    }
    assert out.data[1] == 4 by {
      WindowOfThree(s, 1);
      MedfiltSample(s, 1, 4, 7, 0, 4);
    }
    assert |out.data| == 2;
    TwoSamples(out.data);
  }

  /** medfilt2d with its default kernel filters with a 3 x 3 box at rank 4:
      the fifth smallest of nine neighbours, their median. */
  lemma Medfilt2dDefaultRank(input: NDArray)
    requires input.Valid() && |input.shape| == 2
    ensures PositiveKernel(Medfilt2dDefault, 2)
    ensures CountNonzero(Box([3, 3]).data) == 9
    ensures Medfilt2d(input, Medfilt2dDefault) == Ok(RankFilter(input, Box([3, 3]), 4))
  {
    assert seq(2, _ => 3) == [3, 3];
    assert Prod([3, 3]) == Prod([3]) * 3 && Prod([3]) == Prod([]) * 3;
    BoxCount([3, 3]);
  }
}
