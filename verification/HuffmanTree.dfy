/**
 The theory behind the code-length assignment of section K.2 of ITU-T T.81:
 why merging the two smallest counts is optimal, and what the resulting lengths
 add up to.
 */
module HuffmanTree {
  import opened BitString
  import opened Sums

  // ----- length assignments

  function CostTerms(f: seq<nat>, len: seq<nat>): (g: seq<int>)
    requires |f| == |len|
    ensures |g| == |f| && forall i :: 0 <= i < |f| ==> g[i] == f[i] * len[i] >= 0
  {
    seq(|f|, i requires 0 <= i < |f| => f[i] * len[i])
  }

  /** Total number of code bits needed for counts f under lengths len. */
  function Cost(f: seq<nat>, len: seq<nat>): (c: nat)
    requires |f| == |len|
  {
    SumNonNegative(CostTerms(f, len)); Sum(CostTerms(f, len))
  }

  predicate Bounded(f: seq<nat>, len: seq<nat>, d: nat)
    requires |f| == |len|
  {
    forall i :: 0 <= i < |f| && f[i] > 0 ==> len[i] <= d
  }

  function KraftTerms(f: seq<nat>, len: seq<nat>, d: nat): (g: seq<int>)
    requires |f| == |len| && Bounded(f, len, d)
    ensures |g| == |f|
    ensures forall i :: 0 <= i < |f| ==> g[i] == if f[i] > 0 then Pow2(d - len[i]) else 0
  {
    seq(|f|, i requires 0 <= i < |f| => if f[i] > 0 then Pow2(d - len[i]) else 0)
  }

  /** The Kraft sum of the used symbols, scaled by 2^d. */
  function Kraft(f: seq<nat>, len: seq<nat>, d: nat): (k: nat)
    requires |f| == |len| && Bounded(f, len, d)
  {
    SumNonNegative(KraftTerms(f, len, d)); Sum(KraftTerms(f, len, d))
  }

  /** len assigns lengths, none above d, that a prefix code for the used symbols can have. */
  predicate Feasible(f: seq<nat>, len: seq<nat>, d: nat) {
    |f| == |len| && Bounded(f, len, d) && Kraft(f, len, d) <= Pow2(d)
  }

  // ----- the exchange argument

  /** c1 and c2 carry the two smallest non-zero counts. */
  predicate TwoSmallest(f: seq<nat>, c1: nat, c2: nat) {
    && c1 < |f| && c2 < |f| && c1 != c2 && 0 < f[c1] <= f[c2]
    && forall i :: 0 <= i < |f| && f[i] > 0 && i != c1 && i != c2 ==> f[c2] <= f[i]
  }

  function Merged(f: seq<nat>, c1: nat, c2: nat): (g: seq<nat>)
    requires c1 < |f| && c2 < |f|
  {
    f[c1 := f[c1] + f[c2]][c2 := 0]
  }

  lemma SumOfMerged(g: seq<nat>, c1: nat, c2: nat, v: nat)
    requires c1 < |g| && c2 < |g| && c1 != c2
    ensures Sum(g[c1 := v][c2 := 0]) == Sum(g) + v - g[c1] - g[c2]
  {
    SumUpdate(g, c1, v);
    SumUpdate(g[c1 := v], c2, 0);
  }

  function Swapped(len: seq<nat>, a: nat, b: nat): (r: seq<nat>)
    requires a < |len| && b < |len|
    ensures |r| == |len|
  {
    len[a := len[b]][b := len[a]]
  }

  /** Giving the longer of two codes to the rarer symbol costs nothing. */
  lemma SwapIsNoWorse(f: seq<nat>, len: seq<nat>, d: nat, a: nat, b: nat)
    requires Feasible(f, len, d) && a < |f| && b < |f| && a != b
    requires 0 < f[a] <= f[b] && len[a] <= len[b]
    ensures Feasible(f, Swapped(len, a, b), d)
    ensures Cost(f, Swapped(len, a, b)) <= Cost(f, len)
  {
    SwapKeepsKraft(f, len, d, a, b);
    SwapLowersCost(f, len, a, b);
  }

  lemma SwapKeepsKraft(f: seq<nat>, len: seq<nat>, d: nat, a: nat, b: nat)
    requires |f| == |len| && Bounded(f, len, d) && a < |f| && b < |f| && a != b && f[a] > 0 && f[b] > 0
    ensures Bounded(f, Swapped(len, a, b), d)
    ensures Kraft(f, Swapped(len, a, b), d) == Kraft(f, len, d)
  {
    var len' := Swapped(len, a, b);
    assert Bounded(f, len', d);
    var k := KraftTerms(f, len, d);
    assert KraftTerms(f, len', d) == k[a := k[b]][b := k[a]];
    SumUpdate(k, a, k[b]);
    SumUpdate(k[a := k[b]], b, k[a]);
  }

  lemma SwapLowersCost(f: seq<nat>, len: seq<nat>, a: nat, b: nat)
    requires |f| == |len| && a < |f| && b < |f| && a != b
    requires f[a] <= f[b] && len[a] <= len[b]
    ensures Cost(f, Swapped(len, a, b)) <= Cost(f, len)
  {
    var c, x, y := CostTerms(f, len), f[a] * len[b], f[b] * len[a];
    assert CostTerms(f, Swapped(len, a, b)) == c[a := x][b := y];
    SumUpdate(c, a, x);
    SumUpdate(c[a := x], b, y);
    Rearrangement(f[a], f[b], len[a], len[b]);
  }

  lemma Rearrangement(x: nat, y: nat, p: nat, q: nat)
    requires x <= y && p <= q
    ensures x * q + y * p <= x * p + y * q
  {
    assert 0 <= (y - x) * (q - p);
  }

  lemma {:induction false} LongestExcept(f: seq<nat>, len: seq<nat>, n: nat, skip: int) returns (m: nat)
    requires |f| == |len| && n <= |f|
    requires exists i :: 0 <= i < n && f[i] > 0 && i != skip
    ensures m < n && f[m] > 0 && m != skip
    ensures forall i :: 0 <= i < n && f[i] > 0 && i != skip ==> len[i] <= len[m]
  {
    var i :| 0 <= i < n && f[i] > 0 && i != skip;
    m := i;
    var k := 0;
    while k < n
      invariant k <= n && m < n && f[m] > 0 && m != skip
      invariant forall j :: 0 <= j < k && f[j] > 0 && j != skip ==> len[j] <= len[m]
    {
      if f[k] > 0 && k != skip && len[k] > len[m] {
        m := k;
      }
      k := k + 1;
    }
  }

  /** The two rarest symbols may be assumed to have the two longest codes. */
  lemma RarestAreLongest(f: seq<nat>, len: seq<nat>, d: nat, c1: nat, c2: nat) returns (r: seq<nat>)
    requires Feasible(f, len, d) && TwoSmallest(f, c1, c2)
    ensures Feasible(f, r, d) && Cost(f, r) <= Cost(f, len)
    ensures r[c2] <= r[c1]
    ensures forall i :: 0 <= i < |f| && f[i] > 0 && i != c1 && i != c2 ==> r[i] <= r[c2]
  {
    hide *;
    var r1 := RarestIsLongest(f, len, d, c1, c2);
    r := NextIsLongest(f, r1, d, c1, c2);
  }

  lemma RarestIsLongest(f: seq<nat>, len: seq<nat>, d: nat, c1: nat, c2: nat) returns (r: seq<nat>)
    requires Feasible(f, len, d) && TwoSmallest(f, c1, c2)
    ensures Feasible(f, r, d) && Cost(f, r) <= Cost(f, len) && |r| == |f| && c1 < |f|
    ensures forall i :: 0 <= i < |f| && f[i] > 0 ==> r[i] <= r[c1]
  {
    r := len;
    var m := LongestExcept(f, len, |f|, -1);
    if m != c1 {
      SwapIsNoWorse(f, len, d, c1, m);
      r := Swapped(len, c1, m);
    }
  }

  lemma NextIsLongest(f: seq<nat>, len: seq<nat>, d: nat, c1: nat, c2: nat) returns (r: seq<nat>)
    requires Feasible(f, len, d) && TwoSmallest(f, c1, c2) && |len| == |f| && c1 < |f|
    requires forall i :: 0 <= i < |f| && f[i] > 0 ==> len[i] <= len[c1]
    ensures Feasible(f, r, d) && Cost(f, r) <= Cost(f, len) && |r| == |f| && c2 < |f|
    ensures r[c2] <= r[c1]
    ensures forall i :: 0 <= i < |f| && f[i] > 0 && i != c1 && i != c2 ==> r[i] <= r[c2]
  {
    r := len;
    var m := LongestExcept(f, len, |f|, c1);
    if m != c2 {
      SwapIsNoWorse(f, len, d, c2, m);
      r := Swapped(len, c2, m);
    }
  }

  /** The Kraft terms of everything but c1 and c2. */
  function OtherTerms(f: seq<nat>, len: seq<nat>, d: nat, c1: nat, c2: nat): (g: seq<int>)
    requires |f| == |len| && Bounded(f, len, d) && c1 < |f| && c2 < |f|
  {
    KraftTerms(f, len, d)[c1 := 0][c2 := 0]
  }

  lemma OthersAreMultiples(f: seq<nat>, len: seq<nat>, d: nat, c1: nat, c2: nat)
    requires |f| == |len| && Bounded(f, len, d) && c1 < |f| && c2 < |f| && len[c2] <= d
    requires forall i :: 0 <= i < |f| && f[i] > 0 && i != c1 && i != c2 ==> len[i] <= len[c2]
    ensures Sum(OtherTerms(f, len, d, c1, c2)) % Pow2(d - len[c2]) == 0
  {
    hide Pow2, Sum;
    var g, q := OtherTerms(f, len, d, c1, c2), Pow2(d - len[c2]);
    forall i | 0 <= i < |g| ensures g[i] % q == 0 {
      if f[i] > 0 && i != c1 && i != c2 {
        Pow2Add(len[c2] - len[i], d - len[c2]);
        ModOfMultiple(Pow2(len[c2] - len[i]), q);
      }
    }
    SumOfMultiples(g, q);
  }

  /** With the longest codes on c1 and c2, their parent fits at one bit less than c2's length. */
  lemma RoomForParent(f: seq<nat>, len: seq<nat>, d: nat, c1: nat, c2: nat)
    requires Feasible(f, len, d) && TwoSmallest(f, c1, c2) && len[c2] <= len[c1]
    requires forall i :: 0 <= i < |f| && f[i] > 0 && i != c1 && i != c2 ==> len[i] <= len[c2]
    ensures len[c2] >= 1
    ensures Sum(OtherTerms(f, len, d, c1, c2)) + 2 * Pow2(d - len[c2]) <= Pow2(d)
  {
    var k := KraftTerms(f, len, d);
    var others, q := Sum(OtherTerms(f, len, d, c1, c2)), Pow2(d - len[c2]);
    SumUpdate(k, c1, 0);
    SumUpdate(k[c1 := 0], c2, 0);
    SumNonNegative(OtherTerms(f, len, d, c1, c2));
    assert others + Pow2(d - len[c1]) + q <= Pow2(d);
    OthersAreMultiples(f, len, d, c1, c2);
    Pow2Add(len[c2], d - len[c2]);
    ModOfMultiple(Pow2(len[c2]), q);
    ModOfMultiple(1, q);
    ModAdd(others, q, q);
    GapBetweenMultiples(others + q, Pow2(d), q);
  }

  /**
   One step of the reduction: from any feasible assignment for f there is one
   for the merged counts that is cheaper by at least the merged count.
   */
  lemma MergeStep(f: seq<nat>, len: seq<nat>, d: nat, c1: nat, c2: nat) returns (r: seq<nat>)
    requires Feasible(f, len, d) && TwoSmallest(f, c1, c2)
    ensures Feasible(Merged(f, c1, c2), r, d)
    ensures f[c1] + f[c2] + Cost(Merged(f, c1, c2), r) <= Cost(f, len)
  {
    var best := RarestAreLongest(f, len, d, c1, c2);
    RoomForParent(f, best, d, c1, c2);
    r := best[c1 := best[c2] - 1];
    ParentIsFeasible(f, best, d, c1, c2);
    ParentIsCheaper(f, best, c1, c2);
  }

  lemma ParentIsFeasible(f: seq<nat>, len: seq<nat>, d: nat, c1: nat, c2: nat)
    requires |f| == |len| && Bounded(f, len, d) && TwoSmallest(f, c1, c2) && len[c2] >= 1
    requires Sum(OtherTerms(f, len, d, c1, c2)) + 2 * Pow2(d - len[c2]) <= Pow2(d)
    ensures Feasible(Merged(f, c1, c2), len[c1 := len[c2] - 1], d)
  {
    var f', r, others := Merged(f, c1, c2), len[c1 := len[c2] - 1], OtherTerms(f, len, d, c1, c2);
    assert Bounded(f', r, d);
    var parent := Pow2(d - r[c1]);
    assert parent == 2 * Pow2(d - len[c2]);
    assert KraftTerms(f', r, d) == others[c1 := parent];
    SumUpdate(others, c1, parent);
  }

  lemma ParentIsCheaper(f: seq<nat>, len: seq<nat>, c1: nat, c2: nat)
    requires |f| == |len| && TwoSmallest(f, c1, c2) && 1 <= len[c2] <= len[c1]
    ensures f[c1] + f[c2] + Cost(Merged(f, c1, c2), len[c1 := len[c2] - 1]) <= Cost(f, len)
  {
    var f', r, c := Merged(f, c1, c2), len[c1 := len[c2] - 1], CostTerms(f, len);
    var parent := (f[c1] + f[c2]) * (len[c2] - 1);
    assert CostTerms(f', r) == c[c1 := parent][c2 := 0];
    SumUpdate(c, c1, parent);
    SumUpdate(c[c1 := parent], c2, 0);
    assert parent + (f[c1] + f[c2]) == f[c1] * len[c2] + f[c2] * len[c2];
    MulMonotone(len[c2], len[c1], f[c1]);
  }

  /** Whatever assignment is chosen for f0, it costs at least acc more than some assignment for f. */
  ghost predicate LowerBound(f0: seq<nat>, f: seq<nat>, acc: int) {
    forall len: seq<nat>, d: nat :: Feasible(f0, len, d) ==> HasCheaper(f0, f, acc, len, d)
  }

  ghost predicate HasCheaper(f0: seq<nat>, f: seq<nat>, acc: int, len: seq<nat>, d: nat)
    requires |f0| == |len|
  {
    exists r: seq<nat> :: Feasible(f, r, d) && acc + Cost(f, r) <= Cost(f0, len)
  }

  lemma LowerBoundStarts(f: seq<nat>)
    ensures LowerBound(f, f, 0)
  {
    forall len: seq<nat>, d: nat | Feasible(f, len, d) ensures HasCheaper(f, f, 0, len, d) {
      assert Feasible(f, len, d) && 0 + Cost(f, len) <= Cost(f, len);
    }
  }

  lemma LowerBoundAfterMerge(f0: seq<nat>, f: seq<nat>, acc: int, c1: nat, c2: nat)
    requires LowerBound(f0, f, acc) && TwoSmallest(f, c1, c2)
    ensures LowerBound(f0, Merged(f, c1, c2), acc + f[c1] + f[c2])
  {
    var f', acc' := Merged(f, c1, c2), acc + f[c1] + f[c2];
    forall len: seq<nat>, d: nat | Feasible(f0, len, d) ensures HasCheaper(f0, f', acc', len, d) {
      assert HasCheaper(f0, f, acc, len, d);
      var r :| Feasible(f, r, d) && acc + Cost(f, r) <= Cost(f0, len);
      var r' := MergeStep(f, r, d, c1, c2);
      assert acc' + Cost(f', r') <= Cost(f0, len);
    }
  }

  // ----- trees

  datatype Tree = Leaf(sym: nat) | Node(left: Tree, right: Tree)

  /** The symbols of a tree, first branch first; its head names the tree. */
  function Leaves(t: Tree): (s: seq<nat>)
    ensures |s| > 0
  {
    match t
    case Leaf(c) => [c]
    case Node(l, r) => Leaves(l) + Leaves(r)
  }

  predicate LeavesBelow(t: Tree, n: nat): (b: bool)
    ensures b ==> forall j :: 0 <= j < |Leaves(t)| ==> Leaves(t)[j] < n
  {
    match t
    case Leaf(c) => c < n
    case Node(l, r) => LeavesBelow(l, n) && LeavesBelow(r, n)
  }

  function Weight(t: Tree, f: seq<nat>): (w: nat)
    requires LeavesBelow(t, |f|)
  {
    match t
    case Leaf(c) => f[c]
    case Node(l, r) => Weight(l, f) + Weight(r, f)
  }

  function Height(t: Tree): nat {
    match t
    case Leaf(_) => 0
    case Node(l, r) => 1 + if Height(l) > Height(r) then Height(l) else Height(r)
  }

  /** The weights of all inner nodes: the number of bits spent inside the tree. */
  function InnerCost(t: Tree, f: seq<nat>): (w: nat)
    requires LeavesBelow(t, |f|)
  {
    match t
    case Leaf(_) => 0
    case Node(l, r) => Weight(t, f) + InnerCost(l, f) + InnerCost(r, f)
  }

  /** len holds the depth of every leaf of t when its root is at depth d. */
  predicate DepthsAre(t: Tree, d: nat, len: seq<nat>)
    requires LeavesBelow(t, |len|)
  {
    match t
    case Leaf(c) => len[c] == d
    case Node(l, r) => DepthsAre(l, d + 1, len) && DepthsAre(r, d + 1, len)
  }

  /** Pushing every leaf one deeper moves the whole tree one deeper. */
  lemma {:induction false} DepthsShift(t: Tree, d: nat, len: seq<nat>, len': seq<nat>, more: nat)
    requires |len| == |len'| && LeavesBelow(t, |len|) && DepthsAre(t, d, len)
    requires forall j :: 0 <= j < |Leaves(t)| ==> len'[Leaves(t)[j]] == len[Leaves(t)[j]] + more
    ensures DepthsAre(t, d + more, len')
  {
    match t
    case Leaf(c) =>
      assert Leaves(t)[0] == c;
    case Node(l, r) =>
      forall j | 0 <= j < |Leaves(l)| ensures len'[Leaves(l)[j]] == len[Leaves(l)[j]] + more {
        assert Leaves(t)[j] == Leaves(l)[j];
      }
      forall j | 0 <= j < |Leaves(r)| ensures len'[Leaves(r)[j]] == len[Leaves(r)[j]] + more {
        assert Leaves(t)[|Leaves(l)| + j] == Leaves(r)[j];
      }
      DepthsShift(l, d + 1, len, len', more);
      DepthsShift(r, d + 1, len, len', more);
  }

  /** Depths lie between the root's depth and the height below it. */
  lemma {:induction false} DepthRange(t: Tree, d: nat, len: seq<nat>, j: nat)
    requires LeavesBelow(t, |len|) && DepthsAre(t, d, len) && j < |Leaves(t)|
    ensures d <= len[Leaves(t)[j]] <= d + Height(t)
    ensures t.Node? ==> d < len[Leaves(t)[j]]
  {
    if t.Node? {
      var k := |Leaves(t.left)|;
      if j < k {
        DepthRange(t.left, d + 1, len, j);
      } else {
        DepthRange(t.right, d + 1, len, j - k);
      }
    }
  }

  lemma OneDeeper(d: nat, wl: nat, wr: nat)
    ensures (d + 1) * wl + (d + 1) * wr == wl + wr + d * (wl + wr)
  {
  }

  /** Counting bits leaf by leaf or node by node gives the same total. */
  lemma {:induction false} CostOfTree(t: Tree, d: nat, f: seq<nat>, len: seq<nat>)
    requires |f| == |len| && LeavesBelow(t, |len|) && DepthsAre(t, d, len)
    ensures SumAt(Leaves(t), CostTerms(f, len)) == InnerCost(t, f) + d * Weight(t, f)
  {
    var g := CostTerms(f, len);
    match t
    case Leaf(c) =>
      assert Leaves(t)[..0] == [];
      assert SumAt([], g) == 0;
      assert Leaves(t)[0] == c;
    case Node(l, r) =>
      CostOfTree(l, d + 1, f, len);
      CostOfTree(r, d + 1, f, len);
      SumAtConcat(Leaves(l), Leaves(r), g);
      OneDeeper(d, Weight(l, f), Weight(r, f));
  }

  /** The leaves of a tree fill the code space below its root exactly. */
  lemma {:induction false} KraftOfTree(t: Tree, d: nat, f: seq<nat>, len: seq<nat>, dmax: nat)
    requires |f| == |len| && LeavesBelow(t, |len|) && DepthsAre(t, d, len)
    requires Bounded(f, len, dmax) && forall j :: 0 <= j < |Leaves(t)| ==> f[Leaves(t)[j]] > 0
    ensures d <= dmax && SumAt(Leaves(t), KraftTerms(f, len, dmax)) == Pow2(dmax - d)
  {
    match t
    case Leaf(c) =>
      DepthRange(t, d, len, 0);
      KraftOfLeaf(c, f, len, dmax);
    case Node(l, r) =>
      ChildrenUsed(t, f);
      hide Bounded, LeavesBelow, KraftTerms, SumAt;
      KraftOfTree(l, d + 1, f, len, dmax);
      KraftOfTree(r, d + 1, f, len, dmax);
      SumAtConcat(Leaves(l), Leaves(r), KraftTerms(f, len, dmax));
  }

  lemma KraftOfLeaf(c: nat, f: seq<nat>, len: seq<nat>, dmax: nat)
    requires |f| == |len| && c < |f| && f[c] > 0 && Bounded(f, len, dmax)
    ensures len[c] <= dmax && SumAt([c], KraftTerms(f, len, dmax)) == Pow2(dmax - len[c])
  {
    assert [c][..0] == [];
  }

  lemma ChildrenUsed(t: Tree, f: seq<nat>)
    requires t.Node? && LeavesBelow(t, |f|) && forall j :: 0 <= j < |Leaves(t)| ==> f[Leaves(t)[j]] > 0
    ensures LeavesBelow(t.left, |f|) && forall j :: 0 <= j < |Leaves(t.left)| ==> f[Leaves(t.left)[j]] > 0
    ensures LeavesBelow(t.right, |f|) && forall j :: 0 <= j < |Leaves(t.right)| ==> f[Leaves(t.right)[j]] > 0
  {
    var a, b := Leaves(t.left), Leaves(t.right);
    forall j | 0 <= j < |a| ensures f[a[j]] > 0 {
      assert Leaves(t)[j] == a[j];
    }
    forall j | 0 <= j < |b| ensures f[b[j]] > 0 {
      assert Leaves(t)[|a| + j] == b[j];
    }
  }
}
