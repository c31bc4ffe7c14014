/**
  The partition every loop of the chunker walks: consecutive slices of at most
  `m` elements, taken from the front, each as long as the remaining input
  allows (`block_size = remaining > m ? m : remaining`).  The same partition
  cuts plaintext into `K-42`-byte blocks, ciphertext into `K`-byte blocks and
  a file into read windows.
 */
module Slicing {

  function Min(a: nat, b: nat): nat { if a < b then a else b }

  /** The slices a front-to-back loop with step `m` takes from `s`. */
  function Slices<T>(s: seq<T>, m: nat): seq<seq<T>>
    requires m > 0
    decreases |s|
  {
    if |s| == 0 then []
    else
      var n := Min(|s|, m);
      [s[..n]] + Slices(s[n..], m)
  }

  /** The concatenation of a sequence of slices. */
  function Concat<T>(ss: seq<seq<T>>): seq<T>
    decreases |ss|
  {
    if |ss| == 0 then [] else ss[0] + Concat(ss[1..])
  }

  /** The slices put back together give the input. */
  lemma {:induction false} SlicesPartition<T>(s: seq<T>, m: nat)
    requires m > 0
    ensures Concat(Slices(s, m)) == s
    decreases |s|
  {
    if |s| > 0 {
      var n := Min(|s|, m);
      SlicesPartition(s[n..], m);
      assert Slices(s, m)[1..] == Slices(s[n..], m);
      assert s == s[..n] + s[n..];
    }
  }

  /** No slice is empty or longer than `m`, and every slice but the last is
      exactly `m` long. */
  lemma {:induction false} SlicesSizes<T>(s: seq<T>, m: nat)
    requires m > 0
    ensures forall i :: 0 <= i < |Slices(s, m)| ==> 1 <= |Slices(s, m)[i]| <= m
    ensures forall i :: 0 <= i < |Slices(s, m)| - 1 ==> |Slices(s, m)[i]| == m
    decreases |s|
  {
    if |s| > 0 {
      var n := Min(|s|, m);
      SlicesSizes(s[n..], m);
      var ss := Slices(s, m);
      assert ss == [s[..n]] + Slices(s[n..], m);
      forall i | 0 <= i < |ss|
        ensures 1 <= |ss[i]| <= m
        ensures i < |ss| - 1 ==> |ss[i]| == m
      {
        if i > 0 {
          assert ss[i] == Slices(s[n..], m)[i - 1];
        } else if |ss| > 1 {
          assert |s[n..]| > 0;
        }
      }
    }
  }

  /** Slice `i` starts at offset `i*m`: the slices sit at `0, m, 2m, ...` in
      input order and do not overlap. */
  lemma {:induction false} SliceAt<T>(s: seq<T>, m: nat, i: nat)
    requires m > 0
    requires i < |Slices(s, m)|
    ensures i * m < |s|
    ensures Slices(s, m)[i] == s[i * m .. Min((i + 1) * m, |s|)]
    decreases |s|
  {
    var n := Min(|s|, m);
    assert Slices(s, m) == [s[..n]] + Slices(s[n..], m);
    if i > 0 {
      // a second slice exists, so the first one took a full `m`
      assert |Slices(s[n..], m)| > 0;
      assert |s[n..]| > 0;
      assert n == m;
      var t := s[m..];
      SliceAt(t, m, i - 1);
      MulSucc(i - 1, m);
      MulSucc(i, m);
      var lo, hi := (i - 1) * m, Min(i * m, |t|);
      assert lo + m == i * m;
      assert hi + m == Min((i + 1) * m, |s|);
      assert Slices(s, m)[i] == t[lo..hi];
      assert t[lo..hi] == s[lo + m .. hi + m];
    }
  }

  /** There are `ceil(|s| / m)` slices, none for the empty input. */
  lemma {:induction false} SliceCount<T>(s: seq<T>, m: nat)
    requires m > 0
    ensures |Slices(s, m)| == (|s| + m - 1) / m
    decreases |s|
  {
    if |s| == 0 {
      DivUnique(m - 1, m, 0, m - 1);
    } else if |s| <= m {
      DivUnique(|s| + m - 1, m, 1, |s| - 1);
    } else {
      SliceCount(s[m..], m);
      assert |Slices(s, m)| == 1 + |Slices(s[m..], m)|;
      var q, r := (|s| - 1) / m, (|s| - 1) % m;
      DivMod(|s| - 1, m);
      MulSucc(q, m);
      DivUnique(|s| + m - 1, m, q + 1, r);
    }
  }

  lemma MulSucc(k: int, m: int)
    ensures (k + 1) * m == k * m + m
  {
  }

  lemma DivMod(x: int, m: int)
    requires m > 0
    ensures x == (x / m) * m + x % m && 0 <= x % m < m
  {
  }

  /** Quotient and remainder are determined by `x == q*m + r`, `0 <= r < m`. */
  lemma DivUnique(x: int, m: int, q: int, r: int)
    requires m > 0 && 0 <= r < m && x == q * m + r
    ensures x / m == q && x % m == r
  {
    var d := x / m;
    DivMod(x, m);
    if q > d {
      MulAtLeast(q - d, m);
    } else if q < d {
      MulAtLeast(d - q, m);
    }
  }

  /** A multiple of `m` in `[0, m)` is zero. */
  lemma MulBelow(k: int, m: int)
    requires m > 0 && 0 <= k * m < m
    ensures k == 0
  {
    if k >= 1 {
      MulAtLeast(k, m);
    } else if k <= -1 {
      MulAtLeast(-k, m);
    }
  }

  lemma MulAtLeast(k: int, m: int)
    requires k >= 1 && m > 0
    ensures k * m >= m
  {
  }

  /** Cutting after a prefix whose length is a multiple of `m` does not move
      any slice boundary. */
  lemma {:induction false} SlicesAppend<T>(a: seq<T>, b: seq<T>, m: nat)
    requires m > 0
    requires |a| % m == 0
    ensures Slices(a + b, m) == Slices(a, m) + Slices(b, m)
    decreases |a|
  {
    if |a| == 0 {
      assert a + b == b;
    } else {
      assert |a| >= m;
      var s := a + b;
      assert s[..m] == a[..m];
      assert s[m..] == a[m..] + b;
      assert |a[m..]| % m == 0 by {
        DivMod(|a|, m);
        assert |a[m..]| == (|a| / m - 1) * m;
        DivUnique(|a[m..]|, m, |a| / m - 1, 0);
      }
      SlicesAppend(a[m..], b, m);
    }
  }

  lemma {:induction false} ConcatAppend<T>(xs: seq<seq<T>>, ys: seq<seq<T>>)
    ensures Concat(xs + ys) == Concat(xs) + Concat(ys)
    decreases |xs|
  {
    if |xs| == 0 {
      assert xs + ys == ys;
    } else {
      assert (xs + ys)[1..] == xs[1..] + ys;
      ConcatAppend(xs[1..], ys);
    }
  }
}
