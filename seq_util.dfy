/** Sums, counts, flattening and index arithmetic used by the array models. */
module SeqUtil {

  /** Sum of a sequence of reals, taken from the back so that loops can extend it. */
  function Sum(s: seq<real>): real
  {
    if |s| == 0 then 0.0 else Sum(s[..|s| - 1]) + s[|s| - 1]
  }

  lemma {:induction false} SumAppend(s: seq<real>, t: seq<real>)
    ensures Sum(s + t) == Sum(s) + Sum(t)
    decreases |t|
  {
    if |t| == 0 {
      assert s + t == s;
    } else {
      assert (s + t)[..|s + t| - 1] == s + t[..|t| - 1];
      SumAppend(s, t[..|t| - 1]);
    }
  }

  /** Adding `x` to one entry adds `x` to the sum. */
  lemma {:induction false} SumUpdate(s: seq<real>, i: nat, x: real)
    requires i < |s|
    ensures Sum(s[i := s[i] + x]) == Sum(s) + x
    decreases |s|
  {
    var n := |s| - 1;
    var u := s[i := s[i] + x];
    assert u[..n] == if i < n then s[..n][i := s[i] + x] else s[..n];
    if i < n {
      SumUpdate(s[..n], i, x);
    }
  }

  /** A sequence of `n` zeros sums to zero. */
  lemma {:induction false} SumZeros(n: nat)
    ensures Sum(seq(n, _ => 0.0)) == 0.0
  {
    if n > 0 {
      assert seq(n, _ => 0.0)[..n - 1] == seq(n - 1, _ => 0.0);
      SumZeros(n - 1);
    }
  }

  /** Product of a shape tuple (Python's math.prod; 1 for the empty tuple). */
  function Prod(s: seq<int>): int
  {
    if |s| == 0 then 1 else Prod(s[..|s| - 1]) * s[|s| - 1]
  }

  lemma {:induction false} ProdNonneg(s: seq<int>)
    requires forall i :: 0 <= i < |s| ==> s[i] >= 0
    ensures Prod(s) >= 0
  {
    if |s| > 0 { ProdNonneg(s[..|s| - 1]); }
  }

  /** Concatenation of the rows of a nested sequence (C order). */
  function Flatten<T>(ss: seq<seq<T>>): seq<T>
  {
    if |ss| == 0 then [] else Flatten(ss[..|ss| - 1]) + ss[|ss| - 1]
  }

  lemma {:induction false} FlattenAppend<T>(ss: seq<seq<T>>, row: seq<T>)
    ensures Flatten(ss + [row]) == Flatten(ss) + row
  {
    assert (ss + [row])[..|ss|] == ss;
  }

  /** An element of the flattening is an element of one of the rows, and conversely. */
  lemma {:induction false} FlattenMember<T>(ss: seq<seq<T>>, x: T)
    ensures x in Flatten(ss) <==> exists r :: 0 <= r < |ss| && x in ss[r]
    decreases |ss|
  {
    if |ss| > 0 {
      var n := |ss| - 1;
      FlattenMember(ss[..n], x);
      assert forall r :: 0 <= r < n ==> ss[..n][r] == ss[r];
    }
  }

  /** Rows of equal width `w`: entry k of row i sits at flat position i*w + k. */
  lemma {:induction false} FlattenUniformAt<T>(ss: seq<seq<T>>, w: nat, i: nat, k: nat)
    requires forall r :: 0 <= r < |ss| ==> |ss[r]| == w
    requires i < |ss| && k < w
    ensures |Flatten(ss)| == |ss| * w
    ensures i * w + k < |Flatten(ss)| && Flatten(ss)[i * w + k] == ss[i][k]
    decreases |ss|
  {
    FlattenUniformLength(ss, w);
    var n := |ss| - 1;
    FlattenUniformLength(ss[..n], w);
    if i < n {
      FlattenUniformAt(ss[..n], w, i, k);
      MulBound(i, n, k, w);
    } else {
      assert |Flatten(ss[..n])| == i * w;
    }
  }

  lemma {:induction false} FlattenUniformLength<T>(ss: seq<seq<T>>, w: nat)
    requires forall r :: 0 <= r < |ss| ==> |ss[r]| == w
    ensures |Flatten(ss)| == |ss| * w
    decreases |ss|
  {
    if |ss| > 0 {
      FlattenUniformLength(ss[..|ss| - 1], w);
      assert |ss| * w == (|ss| - 1) * w + w;
    }
  }

  /** The sequence read backwards (numpy's flip along the last axis). */
  function Reverse<T>(s: seq<T>): (r: seq<T>)
    ensures |r| == |s|
  {
    seq(|s|, k requires 0 <= k < |s| => s[|s| - 1 - k])
  }

  /** The integers lo, lo+1, ..., hi-1 (numpy's arange). */
  function Range(lo: int, hi: int): (r: seq<int>)
    requires lo <= hi
    ensures |r| == hi - lo
  {
    seq(hi - lo, k => lo + k)
  }

  lemma {:induction false} MulPos(a: int, w: int)
    ensures a >= 1 && w > 0 ==> a * w >= w
    decreases if a < 0 then 0 else a
  {
    if a > 1 && w > 0 {
      MulPos(a - 1, w);
      assert a * w == (a - 1) * w + w;
    }
  }

  /** Euclidean division recovers the quotient and remainder of q*w + r. */
  lemma DivMod(q: int, r: int, w: int)
    requires 0 <= r < w
    ensures (q * w + r) / w == q && (q * w + r) % w == r
  {
    var d := q * w + r;
    var q', r' := d / w, d % w;
    assert d == q' * w + r';
    assert (q - q') * w == r' - r;
    MulPos(q - q', w);
    MulPos(q' - q, w);
  }

  /** Position i*w + k with i < n and k < w lies inside [0, n*w). */
  lemma MulBound(i: nat, n: nat, k: nat, w: nat)
    requires i < n && k < w
    ensures i * w + k < n * w
  {
    MulPos(n - i, w);
    assert n * w == i * w + (n - i) * w;
  }

  /** A position below n*w lies in one of the first n blocks of width w. */
  lemma DivBound(s: nat, n: nat, w: nat)
    requires s < n * w
    ensures w > 0 && s / w < n && s == (s / w) * w + s % w
  {
    assert w > 0;
    MulMono(n, s / w, w);
  }

  lemma MulMono(a: int, b: int, w: nat)
    ensures a <= b ==> a * w <= b * w
  {
    MulPos(b - a, w);
    assert b * w == a * w + (b - a) * w;
  }

  /** Two positions i*w + k and i'*w + k' coincide only when i == i' and k == k'. */
  lemma MulInjective(i: int, k: int, i': int, k': int, w: int)
    requires 0 <= k < w && 0 <= k' < w
    requires i * w + k == i' * w + k'
    ensures i == i' && k == k'
  {
    DivMod(i, k, w);
    DivMod(i', k', w);
  }
}
