/**
  Linear blends of two feature vectors and the sequence of blend weights the
  interpolation sweep walks through.
*/
module Interpolation {

  /** `alpha * v1 + (1 - alpha) * v2`, element by element. No bound is put on
      `alpha`: outside [0, 1] the blend extrapolates. */
  function Blend(v1: seq<real>, v2: seq<real>, alpha: real): (r: seq<real>)
    requires |v1| == |v2|
    ensures |r| == |v1|
  {
    seq(|v1|, i requires 0 <= i < |v1| => alpha * v1[i] + (1.0 - alpha) * v2[i])
  }

  /** Each component of a blend starts at the second vector's and moves the
      fraction `alpha` of the way to the first vector's. */
  lemma BlendMovesFromSecond(v1: seq<real>, v2: seq<real>, alpha: real)
    requires |v1| == |v2|
    ensures forall i :: 0 <= i < |v1| ==> Blend(v1, v2, alpha)[i] - v2[i] == alpha * (v1[i] - v2[i])
  {
  }

  /** Every component of a blend lies between the two players' components when
      `alpha` is in [0, 1]; at `alpha = 1` the blend is the first vector and at
      `alpha = 0` the second. */
  lemma BlendEndpoints(v1: seq<real>, v2: seq<real>, alpha: real)
    requires |v1| == |v2|
    ensures Blend(v1, v2, 1.0) == v1
    ensures Blend(v1, v2, 0.0) == v2
    ensures 0.0 <= alpha <= 1.0 ==> forall i :: 0 <= i < |v1| ==>
      var b := Blend(v1, v2, alpha)[i];
      (v1[i] <= b <= v2[i]) || (v2[i] <= b <= v1[i])
  {
    if 0.0 <= alpha <= 1.0 {
      forall i | 0 <= i < |v1|
        ensures var b := Blend(v1, v2, alpha)[i]; (v1[i] <= b <= v2[i]) || (v2[i] <= b <= v1[i])
      {
        var b := Blend(v1, v2, alpha)[i];
        assert b - v2[i] == alpha * (v1[i] - v2[i]);
        assert v1[i] - b == (1.0 - alpha) * (v1[i] - v2[i]);
        ScaledKeepsSign(alpha, v1[i] - v2[i]);
        ScaledKeepsSign(1.0 - alpha, v1[i] - v2[i]);
      }
    }
  }

  /** Scaling by a non-negative weight keeps the sign of a difference. */
  lemma ScaledKeepsSign(w: real, d: real)
    requires 0.0 <= w
    ensures d <= 0.0 ==> w * d <= 0.0
    ensures d >= 0.0 ==> w * d >= 0.0
  {
  }

  /** `numpy.linspace(1, 0, m, endpoint=False)`: `m` weights spaced `1/m` apart,
      starting at 1 and stopping short of 0. */
  function Alphas(m: nat): (r: seq<real>)
    ensures |r| == m
  {
    seq(m, i requires 0 <= i < m => 1.0 - (i as real) / (m as real))
  }

  /** The sweep starts at the first player, its weights strictly decrease, and
      every weight lies in (0, 1]: the second player's own vector is never used. */
  lemma AlphasDescend(m: nat)
    ensures m > 0 ==> Alphas(m)[0] == 1.0
    ensures forall i, j :: 0 <= i < j < m ==> Alphas(m)[j] < Alphas(m)[i]
    ensures forall i :: 0 <= i < m ==> 0.0 < Alphas(m)[i] <= 1.0
  {
    var r := Alphas(m);
    forall i, j | 0 <= i < j < m ensures r[j] < r[i] {
      var mr := m as real;
      assert (i as real) / mr < (j as real) / mr by {
        assert (j as real) / mr - (i as real) / mr == ((j - i) as real) / mr;
      }
    }
    forall i | 0 <= i < m ensures 0.0 < r[i] <= 1.0 {
      var mr := m as real;
      assert 0.0 <= (i as real) / mr < 1.0 by {
        assert (i as real) / mr * mr == i as real;
      }
    }
  }
}
