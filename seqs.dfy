/** Sums, concatenation and reversal of sequences: the numpy reductions
    (`sum`, `concatenate`, `[::-1]`) the rest of the model is stated with. */
module Seqs {

  function Sum(s: seq<real>): real
  {
    if |s| == 0 then 0.0 else Sum(s[..|s| - 1]) + s[|s| - 1]
  }

  function SumNat(s: seq<nat>): nat
  {
    if |s| == 0 then 0 else SumNat(s[..|s| - 1]) + s[|s| - 1]
  }

  /** `np.concatenate` of a list of 1-d arrays. */
  function Flatten<T>(ss: seq<seq<T>>): seq<T>
  {
    if |ss| == 0 then [] else Flatten(ss[..|ss| - 1]) + ss[|ss| - 1]
  }

  function Lengths<T>(ss: seq<seq<T>>): (ls: seq<nat>)
    ensures |ls| == |ss| && forall i :: 0 <= i < |ss| ==> ls[i] == |ss[i]|
  {
    seq(|ss|, i requires 0 <= i < |ss| => |ss[i]|)
  }

  function Reverse<T>(s: seq<T>): (r: seq<T>)
    ensures |r| == |s|
    ensures forall i :: 0 <= i < |s| ==> r[i] == s[|s| - 1 - i]
  {
    seq(|s|, i requires 0 <= i < |s| => s[|s| - 1 - i])
  }

  /** The sum of the first i entries: where block i starts when blocks of these sizes are laid end to end. */
  function Cut(lengths: seq<nat>, i: nat): nat
    requires i <= |lengths|
  {
    SumNat(lengths[..i])
  }

  lemma CutStep(lengths: seq<nat>, i: nat)
    requires i < |lengths|
    ensures Cut(lengths, i + 1) == Cut(lengths, i) + lengths[i]
  {
    SumNatPrefix(lengths, i);
  }

  lemma CutAll(lengths: seq<nat>)
    ensures Cut(lengths, |lengths|) == SumNat(lengths)
  {
    assert lengths[..|lengths|] == lengths;
  }

  /** The same start positions, counted from the front: `sizes[0] + sizes[1] + ...` up to block k. */
  function Offset(sizes: seq<nat>, k: nat): nat
    requires k <= |sizes|
  {
    if k == 0 then 0 else sizes[0] + Offset(sizes[1..], k - 1)
  }

  lemma {:induction false} OffsetStep(sizes: seq<nat>, k: nat)
    requires k < |sizes|
    ensures Offset(sizes, k + 1) == Offset(sizes, k) + sizes[k]
    decreases k
  {
    if k > 0 {
      OffsetStep(sizes[1..], k - 1);
    }
  }

  lemma {:induction false} OffsetMono(sizes: seq<nat>, j: nat, k: nat)
    requires j <= k <= |sizes|
    ensures Offset(sizes, j) <= Offset(sizes, k)
    decreases k
  {
    if j < k {
      OffsetStep(sizes, k - 1);
      OffsetMono(sizes, j, k - 1);
    }
  }

  /** Counting from the front or from the back gives the same start positions. */
  lemma {:induction false} OffsetIsCut(sizes: seq<nat>, k: nat)
    requires k <= |sizes|
    ensures Offset(sizes, k) == Cut(sizes, k)
    decreases k
  {
    if k > 0 {
      OffsetIsCut(sizes, k - 1);
      OffsetStep(sizes, k - 1);
      CutStep(sizes, k - 1);
    }
  }

  lemma {:induction false} SumNatAppend(a: seq<nat>, b: seq<nat>)
    ensures SumNat(a + b) == SumNat(a) + SumNat(b)
    decreases |b|
  {
    if |b| > 0 {
      assert (a + b)[..|a + b| - 1] == a + b[..|b| - 1];
      SumNatAppend(a, b[..|b| - 1]);
    } else {
      assert a + b == a;
    }
  }

  lemma {:induction false} SumAppend(a: seq<real>, b: seq<real>)
    ensures Sum(a + b) == Sum(a) + Sum(b)
    decreases |b|
  {
    if |b| > 0 {
      assert (a + b)[..|a + b| - 1] == a + b[..|b| - 1];
      SumAppend(a, b[..|b| - 1]);
    } else {
      assert a + b == a;
    }
  }

  /** SumNat over a prefix grows by the next element. */
  lemma SumNatPrefix(s: seq<nat>, k: nat)
    requires k < |s|
    ensures SumNat(s[..k + 1]) == SumNat(s[..k]) + s[k]
  {
    assert s[..k + 1][..k] == s[..k];
  }

  lemma {:induction false} SumNatPrefixMono(s: seq<nat>, j: nat, k: nat)
    requires j <= k <= |s|
    ensures SumNat(s[..j]) <= SumNat(s[..k])
    decreases k - j
  {
    if j < k {
      SumNatPrefix(s, k - 1);
      SumNatPrefixMono(s, j, k - 1);
    }
  }

  lemma {:induction false} FlattenAppend<T>(a: seq<seq<T>>, b: seq<seq<T>>)
    ensures Flatten(a + b) == Flatten(a) + Flatten(b)
    decreases |b|
  {
    if |b| > 0 {
      assert (a + b)[..|a + b| - 1] == a + b[..|b| - 1];
      FlattenAppend(a, b[..|b| - 1]);
    } else {
      assert a + b == a;
    }
  }

  lemma {:induction false} FlattenLength<T>(ss: seq<seq<T>>)
    ensures |Flatten(ss)| == SumNat(Lengths(ss))
    decreases |ss|
  {
    if |ss| > 0 {
      FlattenLength(ss[..|ss| - 1]);
      assert Lengths(ss)[..|ss| - 1] == Lengths(ss[..|ss| - 1]);
    }
  }

  /** Element `i` of block `k` sits in the flattened sequence after all earlier blocks. */
  lemma {:induction false} FlattenAt<T>(ss: seq<seq<T>>, k: nat, i: nat)
    requires k < |ss| && i < |ss[k]|
    ensures SumNat(Lengths(ss)[..k]) + i < |Flatten(ss)|
    ensures Flatten(ss)[SumNat(Lengths(ss)[..k]) + i] == ss[k][i]
    decreases |ss|
  {
    var last := |ss| - 1;
    FlattenLength(ss[..last]);
    assert Lengths(ss)[..last] == Lengths(ss[..last]);
    assert Flatten(ss) == Flatten(ss[..last]) + ss[last];
    if k == last {
      FlattenLength(ss);
    } else {
      assert Lengths(ss)[..k] == Lengths(ss[..last])[..k];
      FlattenAt(ss[..last], k, i);
    }
  }

  lemma {:induction false} SumReverse(s: seq<real>)
    ensures Sum(Reverse(s)) == Sum(s)
    decreases |s|
  {
    if |s| > 0 {
      var t := s[..|s| - 1];
      assert Reverse(s) == [s[|s| - 1]] + Reverse(t);
      SumAppend([s[|s| - 1]], Reverse(t));
      assert [s[|s| - 1]][..0] == [];
      SumReverse(t);
    }
  }

  /** A constant run of sizes c starts block k at c * k. */
  lemma {:induction false} OffsetConst(sizes: seq<nat>, c: nat, k: nat)
    requires k <= |sizes| && forall i :: 0 <= i < |sizes| ==> sizes[i] == c
    ensures Offset(sizes, k) == c * k
    decreases k
  {
    if k > 0 {
      OffsetConst(sizes, c, k - 1);
      OffsetStep(sizes, k - 1);
      MulSucc(c, k - 1);
    }
  }

  lemma MulSucc(c: nat, k: nat)
    ensures c * k + c == c * (k + 1)
  {
  }
}
