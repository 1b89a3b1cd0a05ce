/** `text_contours(im, original)` of algorithm.py: trace the contour tree of the image (with a
    border drawn on a copy), take as holes the big children of the top-level contours, and sort
    the direct children of each hole into good (letter-shaped and inked enough), bad (not
    letter-shaped) or neither. Tracing, bounding boxes and the fill ratio are OpenCV work and
    are parameters. */
module Contours {
  import opened Wrappers
  import opened Lines

  /** A contour: its points. */
  type Contour = seq<(int, int)>

  /** `hierarchy[k]`: next sibling, previous sibling, first child, parent; negative for none. */
  datatype Link = Link(next: int, prev: int, child: int, parent: int)

  /** `cv2.boundingRect(c)`. */
  datatype Rect = Rect(x: int, y: int, w: int, h: int)

  /** What the walk reads: the image size, the traced contours and hierarchy, the bounding box of
      a contour, and the filled ratio of contour k (ink of `original` inside its filled mask over
      the mask's area). */
  datatype Scene = Scene(
    imH: nat, imW: nat,
    contours: seq<Contour>, links: seq<Link>,
    rect: Contour -> Rect,
    fillRatio: nat -> real)

  /** The hierarchy is a forest over the contours: every link is -1 (or another negative value) or
      a contour index, and following next-sibling links strictly lowers the rank, so every
      sibling chain ends. */
  ghost predicate WellFormed(s: Scene, rank: seq<nat>)
  {
    && |s.contours| == |s.links| == |rank|
    && forall k :: 0 <= k < |s.links| ==>
         && s.links[k].next < |s.links| && s.links[k].child < |s.links|
         && (s.links[k].next >= 0 ==> rank[s.links[k].next] < rank[k])
  }

  /** Where the walk along a sibling chain at j stands: 0 once it has stopped. */
  function Fuel(s: Scene, rank: seq<nat>, j: int): nat
    requires WellFormed(s, rank)
  {
    if 0 <= j < |rank| then rank[j] + 1 else 0
  }

  /** The sibling chain starting at j: j, its next sibling, and so on until a negative link. */
  function Chain(s: Scene, rank: seq<nat>, j: int): (c: seq<nat>)
    requires WellFormed(s, rank) && j < |s.links|
    ensures forall t :: 0 <= t < |c| ==> c[t] < |s.links|
    decreases Fuel(s, rank, j)
  {
    if j < 0 then [] else [j as nat] + Chain(s, rank, s.links[j].next)
  }

  /** `min_feature_size = im_h / 300`: integer division of the image height. */
  function MinFeature(s: Scene): (m: nat)
    ensures 300 * m <= s.imH < 300 * (m + 1)
  {
    s.imH / 300
  }

  /** A hole: a contour whose bounding box covers more than a quarter of the image. */
  predicate Big(s: Scene, k: nat)
    requires k < |s.contours|
    ensures Big(s, k) <==> 4 * (s.rect(s.contours[k]).w * s.rect(s.contours[k]).h) > s.imW * s.imH
  {
    var r := s.rect(s.contours[k]);
    (r.w * r.h) as real > (s.imW * s.imH) as real * 0.25
  }

  /** The shape test of a hole's child: more than 10 points, not twice as tall as wide, and both
      sides above the minimum feature size. */
  predicate LetterShaped(s: Scene, k: nat)
    requires k < |s.contours|
    ensures LetterShaped(s, k) <==>
      var r := s.rect(s.contours[k]);
      && |s.contours[k]| > 10 && r.h < 2 * r.w
      && r.w as real > s.imH as real / 300.0 && r.h as real > s.imH as real / 300.0
  {
    var r := s.rect(s.contours[k]);
    FloorThreshold(r.w, s.imH);
    FloorThreshold(r.h, s.imH);
    |s.contours[k]| > 10 && r.h < 2 * r.w && r.w > MinFeature(s) && r.h > MinFeature(s)
  }

  datatype Verdict = Good | Bad | Neither

  /** Where a hole's child lands: bad when it fails the shape test, good when it passes and its
      filled ratio exceeds 0.1, neither otherwise. */
  function Judge(s: Scene, k: nat): (v: Verdict)
    requires k < |s.contours|
    ensures v == Bad <==> !LetterShaped(s, k)
    ensures v == Good <==> LetterShaped(s, k) && s.fillRatio(k) > 0.1
  {
    if LetterShaped(s, k) then (if s.fillRatio(k) > 0.1 then Good else Neither) else Bad
  }

  /** The big contours on the chain at j, as the inner hole loop appends them. */
  function BigFrom(s: Scene, rank: seq<nat>, j: int): (r: seq<nat>)
    requires WellFormed(s, rank) && j < |s.links|
    decreases Fuel(s, rank, j)
  {
    if j < 0 then [] else (if Big(s, j) then [j as nat] else []) + BigFrom(s, rank, s.links[j].next)
  }

  /** The holes found from the top-level contour i on: the big children of i, then of its
      next siblings. */
  function HolesFrom(s: Scene, rank: seq<nat>, i: int): (r: seq<nat>)
    requires WellFormed(s, rank) && i < |s.links|
    decreases Fuel(s, rank, i)
  {
    if i < 0 then [] else BigFrom(s, rank, s.links[i].child) + HolesFrom(s, rank, s.links[i].next)
  }

  /** The children on the chain at j with verdict v, in chain order. */
  function VerdictFrom(s: Scene, rank: seq<nat>, j: int, v: Verdict): (r: seq<nat>)
    requires WellFormed(s, rank) && j < |s.links|
    decreases Fuel(s, rank, j)
  {
    if j < 0 then [] else (if Judge(s, j) == v then [j as nat] else []) + VerdictFrom(s, rank, s.links[j].next, v)
  }

  /** The direct children with verdict v of each hole in turn. */
  function VerdictOver(s: Scene, rank: seq<nat>, holes: seq<nat>, v: Verdict): (r: seq<nat>)
    requires WellFormed(s, rank) && Below(holes, |s.links|)
  {
    if |holes| == 0 then [] else VerdictFrom(s, rank, s.links[holes[0]].child, v) + VerdictOver(s, rank, holes[1..], v)
  }

  /** The contours at the given indices. */
  function Pick(contours: seq<Contour>, ks: seq<nat>): (r: seq<Contour>)
    requires Below(ks, |contours|)
    ensures |r| == |ks| && forall t :: 0 <= t < |ks| ==> r[t] == contours[ks[t]]
  {
    seq(|ks|, t requires 0 <= t < |ks| => contours[ks[t]])
  }

  /** The chain is the walk itself: it starts at j, each entry is followed by its next sibling,
      and it stops at the first negative link. */
  lemma {:induction false} ChainWalk(s: Scene, rank: seq<nat>, j: int)
    requires WellFormed(s, rank) && j < |s.links|
    ensures var c := Chain(s, rank, j);
      && (j < 0 <==> |c| == 0)
      && (j >= 0 ==> c[0] == j)
      && (forall t :: 0 <= t < |c| - 1 ==> c[t + 1] == s.links[c[t]].next)
      && (|c| > 0 ==> s.links[c[|c| - 1]].next < 0)
    decreases Fuel(s, rank, j)
  {
    if j >= 0 {
      ChainWalk(s, rank, s.links[j].next);
    }
  }

  /** Ranks fall strictly along c, so no index appears twice in it. */
  ghost predicate RankFalls(rank: seq<nat>, c: seq<nat>)
    requires forall t :: 0 <= t < |c| ==> c[t] < |rank|
  {
    forall t, u :: 0 <= t < u < |c| ==> rank[c[u]] < rank[c[t]] && c[t] != c[u]
  }

  /** Ranks fall strictly along a chain, so no contour is visited twice. */
  lemma {:induction false} ChainDistinct(s: Scene, rank: seq<nat>, j: int)
    requires WellFormed(s, rank) && j < |s.links|
    ensures RankFalls(rank, Chain(s, rank, j))
    decreases Fuel(s, rank, j)
  {
    if j >= 0 {
      var n := s.links[j].next;
      ChainDistinct(s, rank, n);
      ChainBelow(s, rank, n, rank[j]);
      var c, rest := Chain(s, rank, j), Chain(s, rank, n);
      assert c == [j as nat] + rest;
      forall t, u | 0 <= t < u < |c|
        ensures rank[c[u]] < rank[c[t]] && c[t] != c[u]
      {
        assert c[u] == rest[u - 1];
        if t > 0 {
          assert c[t] == rest[t - 1];
        } else {
          assert rank[rest[u - 1]] < rank[j];
        }
      }
    }
  }

  /** Every contour on the chain at j ranks at or below j. */
  lemma {:induction false} ChainBelow(s: Scene, rank: seq<nat>, j: int, bound: nat)
    requires WellFormed(s, rank) && j < |s.links| && (j >= 0 ==> rank[j] < bound)
    ensures forall t :: 0 <= t < |Chain(s, rank, j)| ==> rank[Chain(s, rank, j)[t]] < bound
    decreases Fuel(s, rank, j)
  {
    if j >= 0 {
      ChainBelow(s, rank, s.links[j].next, bound);
    }
  }

  /** The flags "is big" along a chain. */
  function BigFlags(s: Scene, c: seq<nat>): (f: seq<bool>)
    requires forall t :: 0 <= t < |c| ==> c[t] < |s.contours|
    ensures |f| == |c|
  {
    seq(|c|, t requires 0 <= t < |c| => Big(s, c[t]))
  }

  /** The flags "has verdict v" along a chain. */
  function VerdictFlags(s: Scene, c: seq<nat>, v: Verdict): (f: seq<bool>)
    requires forall t :: 0 <= t < |c| ==> c[t] < |s.contours|
    ensures |f| == |c|
  {
    seq(|c|, t requires 0 <= t < |c| => Judge(s, c[t]) == v)
  }

  /** Compress on a non-empty chain: the head if flagged, then the rest. */
  lemma CompressStep(c: seq<nat>, f: seq<bool>)
    requires |c| == |f| > 0
    ensures Compress(c, f) == (if f[0] then [c[0]] else []) + Compress(c[1..], f[1..])
  {
  }

  /** The holes under a contour are its children that are big, in chain order. */
  lemma {:induction false} BigFromChain(s: Scene, rank: seq<nat>, j: int)
    requires WellFormed(s, rank) && j < |s.links|
    ensures BigFrom(s, rank, j) == Compress(Chain(s, rank, j), BigFlags(s, Chain(s, rank, j)))
    decreases Fuel(s, rank, j)
  {
    if j >= 0 {
      var n := s.links[j].next;
      BigFromChain(s, rank, n);
      var c, rest := Chain(s, rank, j), Chain(s, rank, n);
      var f := BigFlags(s, c);
      assert c[1..] == rest && c[0] == j;
      assert f[1..] == BigFlags(s, rest);
      CompressStep(c, f);
    }
  }

  /** The children with verdict v under a hole, in chain order. */
  lemma {:induction false} VerdictFromChain(s: Scene, rank: seq<nat>, j: int, v: Verdict)
    requires WellFormed(s, rank) && j < |s.links|
    ensures VerdictFrom(s, rank, j, v) == Compress(Chain(s, rank, j), VerdictFlags(s, Chain(s, rank, j), v))
    decreases Fuel(s, rank, j)
  {
    if j >= 0 {
      var n := s.links[j].next;
      VerdictFromChain(s, rank, n, v);
      var c, rest := Chain(s, rank, j), Chain(s, rank, n);
      var f := VerdictFlags(s, c, v);
      assert c[1..] == rest && c[0] == j;
      assert f[1..] == VerdictFlags(s, rest, v);
      CompressStep(c, f);
    }
  }

  /** A flagged chain entry is kept by compress exactly when its flag holds. */
  lemma CompressFlagged(s: Scene, c: seq<nat>, f: seq<bool>, k: nat)
    requires |f| == |c|
    ensures k in Compress(c, f) <==> exists t :: 0 <= t < |c| && f[t] && c[t] == k
  {
    CompressIn(c, f, k);
  }

  /** A contour is a hole under j exactly when it is a big child on the chain at j. */
  lemma BigFromIn(s: Scene, rank: seq<nat>, j: int, k: nat)
    requires WellFormed(s, rank) && j < |s.links|
    ensures k in BigFrom(s, rank, j) <==> k in Chain(s, rank, j) && Big(s, k)
  {
    var c := Chain(s, rank, j);
    BigFromChain(s, rank, j);
    CompressFlagged(s, c, BigFlags(s, c), k);
  }

  /** A child on the chain at j has verdict v exactly when it is on the chain and judged v. */
  lemma VerdictFromIn(s: Scene, rank: seq<nat>, j: int, v: Verdict, k: nat)
    requires WellFormed(s, rank) && j < |s.links|
    ensures k in VerdictFrom(s, rank, j, v) <==> k in Chain(s, rank, j) && Judge(s, k) == v
  {
    var c := Chain(s, rank, j);
    VerdictFromChain(s, rank, j, v);
    CompressFlagged(s, c, VerdictFlags(s, c, v), k);
  }

  /** The holes are exactly the big children of the contours on the top-level chain from i. */
  lemma {:induction false} HolesIn(s: Scene, rank: seq<nat>, i: int, k: nat)
    requires WellFormed(s, rank) && i < |s.links|
    ensures k in HolesFrom(s, rank, i) <==>
      exists top :: top in Chain(s, rank, i) && k in Chain(s, rank, s.links[top].child) && Big(s, k)
    decreases Fuel(s, rank, i)
  {
    if i >= 0 {
      var n := s.links[i].next;
      HolesIn(s, rank, n, k);
      BigFromIn(s, rank, s.links[i].child, k);
      assert Chain(s, rank, i) == [i as nat] + Chain(s, rank, n);
    }
  }

  /** A contour lands in the verdict-v list exactly when it is a direct child of one of the holes
      and is judged v. */
  lemma {:induction false} VerdictOverIn(s: Scene, rank: seq<nat>, holes: seq<nat>, v: Verdict, k: nat)
    requires WellFormed(s, rank) && Below(holes, |s.links|)
    ensures k in VerdictOver(s, rank, holes, v) <==>
      exists h :: h in holes && k in Chain(s, rank, s.links[h].child) && Judge(s, k) == v
  {
    if |holes| > 0 {
      VerdictOverIn(s, rank, holes[1..], v, k);
      VerdictFromIn(s, rank, s.links[holes[0]].child, v, k);
      assert holes == [holes[0]] + holes[1..];
    }
  }

  /** No contour is both good and bad. */
  lemma GoodBadDisjoint(s: Scene, rank: seq<nat>, holes: seq<nat>, k: nat)
    requires WellFormed(s, rank) && Below(holes, |s.links|)
    ensures !(k in VerdictOver(s, rank, holes, Good) && k in VerdictOver(s, rank, holes, Bad))
  {
    VerdictOverIn(s, rank, holes, Good, k);
    VerdictOverIn(s, rank, holes, Bad, k);
  }

  /** One step along a chain of the hole search: the big test of j, then the rest. */
  lemma BigStep(s: Scene, rank: seq<nat>, j: int)
    requires WellFormed(s, rank) && 0 <= j < |s.links|
    ensures BigFrom(s, rank, j) == (if Big(s, j) then [j as nat] else []) + BigFrom(s, rank, s.links[j].next)
  {
  }

  /** One step along the top-level chain: the holes under i, then those from its next sibling. */
  lemma HolesStep(s: Scene, rank: seq<nat>, i: int)
    requires WellFormed(s, rank) && 0 <= i < |s.links|
    ensures HolesFrom(s, rank, i) == BigFrom(s, rank, s.links[i].child) + HolesFrom(s, rank, s.links[i].next)
  {
  }

  lemma Regroup<T>(a: seq<T>, b: seq<T>, c: seq<T>)
    ensures a + (b + c) == (a + b) + c
  {
  }

  /** The first while loop of `text_contours`: from contour 0 along its siblings, collect the
      holes under each. */
  method FindHoles(s: Scene, ghost rank: seq<nat>) returns (goodHoles: seq<nat>)
    requires WellFormed(s, rank) && |s.links| > 0
    ensures goodHoles == HolesFrom(s, rank, 0)
  {
    goodHoles := [];
    var i: int := 0;
    while i >= 0
      invariant i < |s.links|
      invariant goodHoles + HolesFrom(s, rank, i) == HolesFrom(s, rank, 0)
      decreases Fuel(s, rank, i)
    {
      HolesStep(s, rank, i);
      Regroup(goodHoles, BigFrom(s, rank, s.links[i].child), HolesFrom(s, rank, s.links[i].next));
      goodHoles := AppendBig(s, rank, s.links[i].child, goodHoles);
      i := s.links[i].next;
    }
  }

  /** The inner while loop: along the children from j, append every child whose bounding box
      covers more than a quarter of the image. */
  method AppendBig(s: Scene, ghost rank: seq<nat>, j0: int, holes: seq<nat>) returns (goodHoles: seq<nat>)
    requires WellFormed(s, rank) && j0 < |s.links|
    ensures goodHoles == holes + BigFrom(s, rank, j0)
  {
    var imageArea := s.imW * s.imH;
    goodHoles := holes;
    var j := j0;
    while j >= 0
      invariant j < |s.links|
      invariant goodHoles + BigFrom(s, rank, j) == holes + BigFrom(s, rank, j0)
      decreases Fuel(s, rank, j)
    {
      BigStep(s, rank, j);
      var c := s.contours[j];
      var r := s.rect(c);
      if (r.w * r.h) as real > imageArea as real * 0.25 {
        Regroup(goodHoles, [j as nat], BigFrom(s, rank, s.links[j].next));
        goodHoles := goodHoles + [j];
      }
      j := s.links[j].next;
    }
  }

  /** The for loop over the holes: sort the direct children of each hole in turn. */
  method Classify(s: Scene, ghost rank: seq<nat>, holes: seq<nat>) returns (good: seq<Contour>, bad: seq<Contour>)
    requires WellFormed(s, rank) && Below(holes, |s.links|)
    ensures good == VerdictContours(s, rank, holes, Good)
    ensures bad == VerdictContours(s, rank, holes, Bad)
  {
    good, bad := [], [];
    for h := 0 to |holes|
      invariant good + VerdictContours(s, rank, holes[h..], Good) == VerdictContours(s, rank, holes, Good)
      invariant bad + VerdictContours(s, rank, holes[h..], Bad) == VerdictContours(s, rank, holes, Bad)
    {
      var hole := holes[h];
      OverStep(s, rank, holes[h..], Good);
      OverStep(s, rank, holes[h..], Bad);
      assert holes[h..][1..] == holes[h + 1..];
      Regroup(good, ChildContours(s, rank, s.links[hole].child, Good), VerdictContours(s, rank, holes[h + 1..], Good));
      Regroup(bad, ChildContours(s, rank, s.links[hole].child, Bad), VerdictContours(s, rank, holes[h + 1..], Bad));
      good, bad := SortChildren(s, rank, s.links[hole].child, good, bad);
    }
  }

  /** The inner while loop: along the children from i, append the letter-shaped ones whose filled
      ratio exceeds 0.1 to good and the ones failing the shape test to bad. */
  method SortChildren(s: Scene, ghost rank: seq<nat>, i0: int, good0: seq<Contour>, bad0: seq<Contour>)
    returns (good: seq<Contour>, bad: seq<Contour>)
    requires WellFormed(s, rank) && i0 < |s.links|
    ensures good == good0 + ChildContours(s, rank, i0, Good)
    ensures bad == bad0 + ChildContours(s, rank, i0, Bad)
  {
    var minFeatureSize := s.imH / 300;
    good, bad := good0, bad0;
    var i := i0;
    while i >= 0
      invariant i < |s.links|
      invariant good + ChildContours(s, rank, i, Good) == good0 + ChildContours(s, rank, i0, Good)
      invariant bad + ChildContours(s, rank, i, Bad) == bad0 + ChildContours(s, rank, i0, Bad)
      decreases Fuel(s, rank, i)
    {
      ChildStep(s, rank, i, Good);
      ChildStep(s, rank, i, Bad);
      var c := s.contours[i];
      var r := s.rect(c);
      ghost var rest := s.links[i].next;
      if |c| > 10 && r.h < 2 * r.w && r.w > minFeatureSize && r.h > minFeatureSize {
        if s.fillRatio(i) > 0.1 {
          Regroup(good, [c], ChildContours(s, rank, rest, Good));
          good := good + [c];
        }
      } else {
        Regroup(bad, [c], ChildContours(s, rank, rest, Bad));
        bad := bad + [c];
      }
      i := s.links[i].next;
    }
  }

  /** The contours with verdict v on the chain at j. */
  function ChildContours(s: Scene, rank: seq<nat>, j: int, v: Verdict): (r: seq<Contour>)
    requires WellFormed(s, rank) && j < |s.links|
    ensures |r| == |VerdictFrom(s, rank, j, v)|
  {
    VerdictFromBelow(s, rank, j, v);
    Pick(s.contours, VerdictFrom(s, rank, j, v))
  }

  /** One step along a hole's children: contour j if judged v, then the rest. */
  lemma ChildStep(s: Scene, rank: seq<nat>, j: int, v: Verdict)
    requires WellFormed(s, rank) && 0 <= j < |s.links|
    ensures ChildContours(s, rank, j, v) ==
      (if Judge(s, j) == v then [s.contours[j]] else []) + ChildContours(s, rank, s.links[j].next, v)
  {
    var head: seq<nat> := if Judge(s, j) == v then [j as nat] else [];
    var rest := VerdictFrom(s, rank, s.links[j].next, v);
    assert VerdictFrom(s, rank, j, v) == head + rest;
    VerdictFromBelow(s, rank, s.links[j].next, v);
    PickAppend(s.contours, head, rest);
    assert Pick(s.contours, head) == if Judge(s, j) == v then [s.contours[j]] else [];
  }

  /** One step over the holes: the children of the first hole, then those of the others. */
  lemma OverStep(s: Scene, rank: seq<nat>, holes: seq<nat>, v: Verdict)
    requires WellFormed(s, rank) && Below(holes, |s.links|) && |holes| > 0
    ensures VerdictContours(s, rank, holes, v) ==
      ChildContours(s, rank, s.links[holes[0]].child, v) + VerdictContours(s, rank, holes[1..], v)
  {
    VerdictFromBelow(s, rank, s.links[holes[0]].child, v);
    VerdictOverBelow(s, rank, holes[1..], v);
    PickAppend(s.contours, VerdictFrom(s, rank, s.links[holes[0]].child, v), VerdictOver(s, rank, holes[1..], v));
  }

  lemma PickAppend(contours: seq<Contour>, a: seq<nat>, b: seq<nat>)
    requires Below(a, |contours|) && Below(b, |contours|)
    ensures Below(a + b, |contours|)
    ensures Pick(contours, a + b) == Pick(contours, a) + Pick(contours, b)
  {
  }

  /** Every index in ks is below n. */
  predicate Below(ks: seq<nat>, n: nat)
  {
    forall t :: 0 <= t < |ks| ==> ks[t] < n
  }

  lemma {:induction false} BigFromBelow(s: Scene, rank: seq<nat>, j: int)
    requires WellFormed(s, rank) && j < |s.links|
    ensures Below(BigFrom(s, rank, j), |s.links|)
    decreases Fuel(s, rank, j)
  {
    if j >= 0 {
      BigFromBelow(s, rank, s.links[j].next);
    }
  }

  lemma {:induction false} HolesFromBelow(s: Scene, rank: seq<nat>, i: int)
    requires WellFormed(s, rank) && i < |s.links|
    ensures Below(HolesFrom(s, rank, i), |s.links|)
    decreases Fuel(s, rank, i)
  {
    if i >= 0 {
      BigFromBelow(s, rank, s.links[i].child);
      HolesFromBelow(s, rank, s.links[i].next);
    }
  }

  lemma {:induction false} VerdictFromBelow(s: Scene, rank: seq<nat>, j: int, v: Verdict)
    requires WellFormed(s, rank) && j < |s.links|
    ensures Below(VerdictFrom(s, rank, j, v), |s.links|)
    decreases Fuel(s, rank, j)
  {
    if j >= 0 {
      VerdictFromBelow(s, rank, s.links[j].next, v);
    }
  }

  lemma {:induction false} VerdictOverBelow(s: Scene, rank: seq<nat>, holes: seq<nat>, v: Verdict)
    requires WellFormed(s, rank) && Below(holes, |s.links|)
    ensures Below(VerdictOver(s, rank, holes, v), |s.links|)
  {
    if |holes| > 0 {
      VerdictFromBelow(s, rank, s.links[holes[0]].child, v);
      VerdictOverBelow(s, rank, holes[1..], v);
    }
  }

  /** The contours with verdict v under the holes, in the order the walk appends them. */
  function VerdictContours(s: Scene, rank: seq<nat>, holes: seq<nat>, v: Verdict): (r: seq<Contour>)
    requires WellFormed(s, rank) && Below(holes, |s.links|)
    ensures |r| == |VerdictOver(s, rank, holes, v)|
  {
    VerdictOverBelow(s, rank, holes, v);
    Pick(s.contours, VerdictOver(s, rank, holes, v))
  }

  /** Why `text_contours` raises: no contour traced, so the hierarchy cannot be unpacked. */
  datatype ContourError = NoHierarchy

  /** The good and the bad contours under the holes of the scene. */
  function TextContoursOf(s: Scene, rank: seq<nat>): (r: Result<(seq<Contour>, seq<Contour>), ContourError>)
    requires WellFormed(s, rank)
    ensures r.Failure? <==> |s.links| == 0
  {
    if |s.links| == 0 then Failure(NoHierarchy)
    else
      var holes := Holes(s, rank);
      Success((VerdictContours(s, rank, holes, Good), VerdictContours(s, rank, holes, Bad)))
  }

  /** The walk of `text_contours` over a traced scene. */
  method Walk(s: Scene, ghost rank: seq<nat>) returns (r: Result<(seq<Contour>, seq<Contour>), ContourError>)
    requires WellFormed(s, rank)
    ensures r == TextContoursOf(s, rank)
  {
    if |s.links| == 0 {
      return Failure(NoHierarchy);
    }
    var holes := FindHoles(s, rank);
    HolesFromBelow(s, rank, 0);
    var good, bad := Classify(s, rank, holes);
    r := Success((good, bad));
  }

  /** The holes the walk finds: the big children of the top-level contours, in walk order. */
  function Holes(s: Scene, rank: seq<nat>): (r: seq<nat>)
    requires WellFormed(s, rank) && |s.links| > 0
    ensures Below(r, |s.links|)
  {
    HolesFromBelow(s, rank, 0);
    HolesFrom(s, rank, 0)
  }

  /** k is a hole: a big child of a contour on the top-level chain from contour 0. */
  ghost predicate IsHole(s: Scene, rank: seq<nat>, k: nat)
    requires WellFormed(s, rank) && |s.links| > 0
  {
    exists top :: top in Chain(s, rank, 0) && k in Chain(s, rank, s.links[top].child) && Big(s, k)
  }

  /** A contour lands in the verdict-v list of the walk exactly when it is a direct child of a
      hole and is judged v: good when letter-shaped and inked above 0.1, bad when not
      letter-shaped. */
  lemma WalkExactly(s: Scene, rank: seq<nat>, v: Verdict, k: nat)
    requires WellFormed(s, rank) && |s.links| > 0
    ensures k in VerdictOver(s, rank, Holes(s, rank), v) <==>
      exists hole: nat :: hole < |s.links| && IsHole(s, rank, hole) && k in Chain(s, rank, s.links[hole].child) && Judge(s, k) == v
  {
    var holes := HolesFrom(s, rank, 0);
    HolesFromBelow(s, rank, 0);
    VerdictOverIn(s, rank, holes, v, k);
    forall hole: nat
      ensures hole in holes <==> IsHole(s, rank, hole)
    {
      HolesIn(s, rank, 0, hole);
    }
  }

  /** A grey image: rows of pixel values. */
  type Image = seq<seq<int>>

  /** The pixels of an image held in a 2-d array. */
  function Pixels(im: array2<int>): (p: Image)
    reads im
    ensures |p| == im.Length0 && forall i :: 0 <= i < im.Length0 ==> |p[i]| == im.Length1
    ensures forall i, j :: 0 <= i < im.Length0 && 0 <= j < im.Length1 ==> p[i][j] == im[i, j]
  {
    seq(im.Length0, i requires 0 <= i < im.Length0 reads im =>
      seq(im.Length1, j requires 0 <= j < im.Length1 reads im => im[i, j]))
  }

  /** `im.copy()`: a fresh array with the same pixels. */
  method Copy(im: array2<int>) returns (copy: array2<int>)
    ensures fresh(copy) && copy.Length0 == im.Length0 && copy.Length1 == im.Length1
    ensures Pixels(copy) == Pixels(im)
  {
    copy := new int[im.Length0, im.Length1];
    for i := 0 to im.Length0
      invariant forall a, b :: 0 <= a < i && 0 <= b < im.Length1 ==> copy[a, b] == im[a, b]
    {
      for j := 0 to im.Length1
        invariant forall a, b :: 0 <= a < i && 0 <= b < im.Length1 ==> copy[a, b] == im[a, b]
        invariant forall b :: 0 <= b < j ==> copy[i, b] == im[i, b]
      {
        copy[i, j] := im[i, j];
      }
    }
    forall a | 0 <= a < im.Length0
      ensures Pixels(copy)[a] == Pixels(im)[a]
    {
      assert forall b :: 0 <= b < im.Length1 ==> Pixels(copy)[a][b] == Pixels(im)[a][b];
    }
  }

  /** Whether pixel (i, j) of an h x w image lies on the frame that
      `cv2.rectangle(copy, (0, 0), (im_w, im_h), 255, 3)` paints: a 3-pixel line centred on each
      edge x = 0, y = 0, x = im_w and y = im_h, so within one pixel of it. */
  predicate OnFrame(i: int, j: int, h: int, w: int)
  {
    i <= 1 || j <= 1 || i >= h - 1 || j >= w - 1
  }

  /** The image with the frame painted white (255) and every other pixel as it was. */
  function Framed(p: Image, h: nat, w: nat): (q: Image)
    requires |p| == h && forall i :: 0 <= i < h ==> |p[i]| == w
    ensures |q| == h && forall i :: 0 <= i < h ==> |q[i]| == w
    ensures forall i, j :: 0 <= i < h && 0 <= j < w ==> q[i][j] == if OnFrame(i, j, h, w) then 255 else p[i][j]
  {
    seq(h, i requires 0 <= i < h => seq(w, j requires 0 <= j < w => if OnFrame(i, j, h, w) then 255 else p[i][j]))
  }

  /** Painting the frame a second time changes nothing. */
  lemma FramedTwice(p: Image, h: nat, w: nat)
    requires |p| == h && forall i :: 0 <= i < h ==> |p[i]| == w
    ensures Framed(Framed(p, h, w), h, w) == Framed(p, h, w)
  {
    var once := Framed(p, h, w);
    forall i | 0 <= i < h
      ensures Framed(once, h, w)[i] == once[i]
    {
    }
  }

  /** `cv2.rectangle(copy, (0, 0), (im_w, im_h), 255, 3)`: paints the frame into the array. */
  method DrawFrame(im: array2<int>)
    modifies im
    ensures Pixels(im) == Framed(old(Pixels(im)), im.Length0, im.Length1)
  {
    ghost var before := Pixels(im);
    var h, w := im.Length0, im.Length1;
    for i := 0 to h
      invariant forall a, b :: 0 <= a < h && 0 <= b < w ==>
        im[a, b] == if a < i && OnFrame(a, b, h, w) then 255 else before[a][b]
    {
      for j := 0 to w
        invariant forall a, b :: 0 <= a < h && 0 <= b < w ==>
          im[a, b] == if (a < i || (a == i && b < j)) && OnFrame(a, b, h, w) then 255 else before[a][b]
      {
        if OnFrame(i, j, h, w) {
          im[i, j] := 255;
        }
      }
    }
    forall a | 0 <= a < h
      ensures Pixels(im)[a] == Framed(before, h, w)[a]
    {
      assert forall b :: 0 <= b < w ==> Pixels(im)[a][b] == Framed(before, h, w)[a][b];
    }
  }

  /** What OpenCV contributes: tracing the contour tree of the framed copy (`cv2.findContours`
      with RETR_TREE), `cv2.boundingRect`, and the filled ratio of contour k against
      `original`. */
  datatype Vision = Vision(
    trace: Image -> (seq<Contour>, seq<Link>),
    rect: Contour -> Rect,
    fillRatio: nat -> real)

  /** The scene the walk sees for an h x w image. */
  function SceneOf(pixels: Image, h: nat, w: nat, v: Vision): (s: Scene)
    ensures s.imH == h && s.imW == w
  {
    Scene(h, w, v.trace(pixels).0, v.trace(pixels).1, v.rect, v.fillRatio)
  }

  /** `text_contours(im, original)`: paint the frame on a copy of im, trace the copy, then walk
      the tree. The frame goes on the fresh copy, so im itself is left as it was. */
  method TextContours(im: array2<int>, v: Vision, ghost rank: seq<nat>)
    returns (r: Result<(seq<Contour>, seq<Contour>), ContourError>)
    requires WellFormed(SceneOf(Framed(Pixels(im), im.Length0, im.Length1), im.Length0, im.Length1, v), rank)
    ensures unchanged(im)
    ensures r == TextContoursOf(SceneOf(Framed(Pixels(im), im.Length0, im.Length1), im.Length0, im.Length1, v), rank)
  {
    var imH, imW := im.Length0, im.Length1;
    var copy := Copy(im);
    DrawFrame(copy);
    var traced := v.trace(Pixels(copy));
    var s := Scene(imH, imW, traced.0, traced.1, v.rect, v.fillRatio);
    r := Walk(s, rank);
  }

  /** Python 2's integer `im_h / 300` against an integer side gives the same answer as the true
      quotient would. */
  lemma FloorThreshold(side: int, imH: nat)
    ensures side > imH / 300 <==> side as real > imH as real / 300.0
  {
    var q := imH / 300;
    assert imH == 300 * q + imH % 300;
    assert (imH as real) / 300.0 == q as real + (imH % 300) as real / 300.0;
  }
}
