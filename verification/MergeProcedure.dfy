/**
 The first half of jpeg_gen_optimal_table: Huffman's merging procedure on the freq, codesize and
 others arrays. It computes a function of the counts, and the lengths are optimal.
 */
module MergeProcedure {
  import opened BitString
  import opened Sums
  import opened HuffmanTree
  import opened CodeDepth

  const SENTINEL := 1_000_000_000

  // ----- the procedure as a function of the counts

  /** The least count among the first n but `skip`, the larger symbol in case of ties; -1 if there is none. */
  function LeastCount(f: seq<nat>, n: nat, skip: int): (c: int)
    requires n <= |f|
    ensures -1 <= c < n && (c >= 0 ==> f[c] > 0 && c != skip)
  {
    if n == 0 then -1
    else
      var c := LeastCount(f, n - 1, skip);
      var v := if c < 0 then SENTINEL else f[c];
      if f[n - 1] != 0 && f[n - 1] <= v && n - 1 != skip then n - 1 else c
  }

  /** Every symbol of the two branches gets one bit more. */
  function Deeper(len: seq<nat>, branch: seq<nat>, c1: nat, c2: nat): (r: seq<nat>)
    requires |branch| == |len|
    ensures |r| == |len|
  {
    seq(|len|, s requires 0 <= s < |len| => if branch[s] == c1 || branch[s] == c2 then len[s] + 1 else len[s])
  }

  /** The branch of c2 becomes part of that of c1. */
  function Renamed(branch: seq<nat>, c1: nat, c2: nat): (r: seq<nat>)
    ensures |r| == |branch|
  {
    seq(|branch|, s requires 0 <= s < |branch| => if branch[s] == c2 then c1 else branch[s])
  }

  /** Merging on from counts f, where the symbols are in the given branches at the given depths. */
  function MergeFrom(f: seq<nat>, branch: seq<nat>, len: seq<nat>): (r: seq<nat>)
    requires |f| == |branch| == |len|
    ensures |r| == |f|
    decreases UsedSymbols(f)
  {
    var c1 := LeastCount(f, |f|, -1);
    var c2 := LeastCount(f, |f|, c1);
    if c1 < 0 || c2 < 0 then len
    else
      FewerSymbols(f, c1, c2);
      MergeFrom(Merged(f, c1, c2), Renamed(branch, c1, c2), Deeper(len, branch, c1, c2))
  }

  /** The code lengths that the procedure gives to counts. */
  function MergeLengths(f: seq<nat>): (r: seq<nat>)
    ensures |r| == |f|
  {
    MergeFrom(f, seq(|f|, i => i), seq(|f|, _ => 0))
  }

  // ----- the branches as trees

  /** nxt links the listed symbols, in order, into one branch. */
  predicate Linked(nxt: seq<int>, leaves: seq<nat>) {
    && (forall j :: 0 <= j < |leaves| ==> leaves[j] < |nxt|)
    && (forall j :: 0 <= j < |leaves| - 1 ==> nxt[leaves[j]] == leaves[j + 1])
    && (|leaves| > 0 ==> nxt[leaves[|leaves| - 1]] == -1)
  }

  /** Where a run of the merging procedure stands. */
  datatype Progress = Progress(f: seq<nat>, len: seq<nat>, nxt: seq<int>, trees: map<nat, Tree>, owner: seq<nat>)

  ghost predicate Sized(f0: seq<nat>, p: Progress) {
    |f0| == |p.f| == |p.len| == |p.nxt| == |p.owner|
  }

  /** Branch r of the arrays represents the tree recorded for it. */
  ghost predicate Represents(f0: seq<nat>, p: Progress, r: nat)
    requires Sized(f0, p) && r in p.trees
  {
    var t := p.trees[r];
    && r < |f0| && LeavesBelow(t, |f0|)
    && Leaves(t)[0] == r && Distinct(Leaves(t)) && Linked(p.nxt, Leaves(t))
    && (forall j :: 0 <= j < |Leaves(t)| ==> p.owner[Leaves(t)[j]] == r && f0[Leaves(t)[j]] > 0)
    && p.f[r] == Weight(t, f0)
    && DepthsAre(t, 0, p.len)
  }

  ghost predicate Covered(f0: seq<nat>, p: Progress, s: nat)
    requires Sized(f0, p) && s < |f0|
  {
    if f0[s] > 0 then p.owner[s] in p.trees && s in Leaves(p.trees[p.owner[s]])
    else p.len[s] == 0 && p.owner[s] == s
  }

  ghost predicate RootsMatch(f0: seq<nat>, p: Progress)
    requires Sized(f0, p)
  {
    forall r: nat :: r in p.trees <==> r < |f0| && p.f[r] > 0
  }

  ghost predicate AllRepresent(f0: seq<nat>, p: Progress)
    requires Sized(f0, p)
  {
    forall r :: r in p.trees ==> Represents(f0, p, r)
  }

  ghost predicate AllCovered(f0: seq<nat>, p: Progress)
    requires Sized(f0, p)
  {
    forall s :: 0 <= s < |f0| ==> Covered(f0, p, s)
  }

  ghost predicate Consistent(f0: seq<nat>, p: Progress) {
    && Sized(f0, p)
    && RootsMatch(f0, p)
    && AllRepresent(f0, p)
    && AllCovered(f0, p)
  }

  /** Bits spent inside the trees so far, per branch. */
  ghost predicate CostsAre(f0: seq<nat>, p: Progress, inner: seq<nat>)
    requires Consistent(f0, p)
  {
    && |inner| == |f0|
    && forall r :: 0 <= r < |f0| ==> inner[r] == if r in p.trees then InnerCost(p.trees[r], f0) else 0
  }

  /** Merging on from here gives what the whole procedure gives. */
  ghost predicate OnCourse(f0: seq<nat>, p: Progress)
    requires Sized(f0, p)
  {
    MergeFrom(p.f, p.owner, p.len) == MergeLengths(f0)
  }

  /** What the loop keeps. */
  ghost predicate Invariant(f0: seq<nat>, p: Progress, inner: seq<nat>) {
    && Consistent(f0, p)
    && CostsAre(f0, p, inner)
    && LowerBound(f0, p.f, Sum(inner))
    && Sum(p.f) == Sum(f0)
    && OnCourse(f0, p)
  }

  // ----- the start

  function Singletons(f0: seq<nat>): map<nat, Tree> {
    map r | 0 <= r < |f0| && f0[r] > 0 :: Leaf(r)
  }

  function Start(f0: seq<nat>): Progress {
    Progress(f0, seq(|f0|, _ => 0), seq(|f0|, _ => -1), Singletons(f0), seq(|f0|, i => i))
  }

  lemma InvariantStarts(f0: seq<nat>)
    ensures Invariant(f0, Start(f0), seq(|f0|, _ => 0))
  {
    var p := Start(f0);
    forall r | r in p.trees ensures Represents(f0, p, r) {
      assert p.trees[r] == Leaf(r) && Leaves(Leaf(r)) == [r];
    }
    SumZero(seq(|f0|, _ => 0));
    LowerBoundStarts(f0);
  }

  // ----- one merge

  function Deepened(len: seq<nat>, leaves: seq<nat>): (r: seq<nat>)
    ensures |r| == |len|
  {
    seq(|len|, s requires 0 <= s < |len| => if s in leaves then len[s] + 1 else len[s])
  }

  /** The state after c2's branch is chained onto c1's. */
  function AfterMerge(p: Progress, c1: nat, c2: nat): (q: Progress)
    requires c1 in p.trees && c2 in p.trees && c1 < |p.f| && c2 < |p.f|
    requires LeavesBelow(p.trees[c1], |p.nxt|)
  {
    var t1, t2 := p.trees[c1], p.trees[c2];
    var a, b := Leaves(t1), Leaves(t2);
    Progress(Merged(p.f, c1, c2),
             Deepened(Deepened(p.len, a), b),
             p.nxt[a[|a| - 1] := c2],
             (p.trees - {c2})[c1 := Node(t1, t2)],
             Renamed(p.owner, c1, c2))
  }

  lemma DisjointBranches(f0: seq<nat>, p: Progress, r: nat, q: nat)
    requires Sized(f0, p) && r in p.trees && q in p.trees && r != q
    requires Represents(f0, p, r) && Represents(f0, p, q)
    ensures forall j :: 0 <= j < |Leaves(p.trees[r])| ==> Leaves(p.trees[r])[j] !in Leaves(p.trees[q])
  {
    forall j | 0 <= j < |Leaves(p.trees[r])| ensures Leaves(p.trees[r])[j] !in Leaves(p.trees[q]) {
      assert p.owner[Leaves(p.trees[r])[j]] == r;
    }
  }

  lemma BystanderKeepsItsTree(f0: seq<nat>, p: Progress, c1: nat, c2: nat, r: nat)
    requires Consistent(f0, p) && c1 in p.trees && c2 in p.trees && c1 != c2
    requires r in p.trees && r != c1 && r != c2
    ensures Sized(f0, AfterMerge(p, c1, c2)) && Represents(f0, AfterMerge(p, c1, c2), r)
  {
    hide AllCovered, RootsMatch, Distinct;
    var q, t := AfterMerge(p, c1, c2), p.trees[r];
    assert Represents(f0, p, r) && Represents(f0, p, c1) && Represents(f0, p, c2);
    DisjointBranches(f0, p, r, c1);
    DisjointBranches(f0, p, r, c2);
    DepthsShift(t, 0, p.len, q.len, 0);
  }

  lemma DeeperBranch(f0: seq<nat>, p: Progress, c1: nat, c2: nat)
    requires Consistent(f0, p) && c1 in p.trees && c2 in p.trees && c1 != c2
    ensures DepthsAre(Node(p.trees[c1], p.trees[c2]), 0, AfterMerge(p, c1, c2).len)
  {
    var q := AfterMerge(p, c1, c2);
    DisjointBranches(f0, p, c1, c2);
    DisjointBranches(f0, p, c2, c1);
    DepthsShift(p.trees[c1], 0, p.len, q.len, 1);
    DepthsShift(p.trees[c2], 0, p.len, q.len, 1);
  }

  lemma JoinedBranch(f0: seq<nat>, p: Progress, c1: nat, c2: nat)
    requires Consistent(f0, p) && c1 in p.trees && c2 in p.trees && c1 != c2
    ensures var q, t := AfterMerge(p, c1, c2), Node(p.trees[c1], p.trees[c2]);
            && LeavesBelow(t, |f0|) && Leaves(t)[0] == c1 && Distinct(Leaves(t)) && Linked(q.nxt, Leaves(t))
            && forall j :: 0 <= j < |Leaves(t)| ==> q.owner[Leaves(t)[j]] == c1 && f0[Leaves(t)[j]] > 0
  {
    hide AllCovered, RootsMatch, DepthsAre;
    DisjointBranches(f0, p, c1, c2);
    DisjointBranches(f0, p, c2, c1);
    var a, b := Leaves(p.trees[c1]), Leaves(p.trees[c2]);
    assert Represents(f0, p, c1) && Represents(f0, p, c2);
    assert Leaves(Node(p.trees[c1], p.trees[c2])) == a + b;
  }

  lemma MergedRepresents(f0: seq<nat>, p: Progress, c1: nat, c2: nat)
    requires Consistent(f0, p) && c1 in p.trees && c2 in p.trees && c1 != c2
    ensures Sized(f0, AfterMerge(p, c1, c2)) && Represents(f0, AfterMerge(p, c1, c2), c1)
  {
    JoinedBranch(f0, p, c1, c2);
    DeeperBranch(f0, p, c1, c2);
    assert Represents(f0, p, c1) && Represents(f0, p, c2);
  }

  lemma StillCovered(f0: seq<nat>, p: Progress, c1: nat, c2: nat, s: nat)
    requires Consistent(f0, p) && c1 in p.trees && c2 in p.trees && c1 != c2 && s < |f0|
    ensures Sized(f0, AfterMerge(p, c1, c2)) && Covered(f0, AfterMerge(p, c1, c2), s)
  {
    assert Covered(f0, p, s);
    assert Represents(f0, p, c1) && Represents(f0, p, c2);
  }

  lemma MergeKeepsConsistent(f0: seq<nat>, p: Progress, c1: nat, c2: nat)
    requires Consistent(f0, p) && TwoSmallest(p.f, c1, c2) && c1 in p.trees && c2 in p.trees
    ensures Consistent(f0, AfterMerge(p, c1, c2))
  {
    MergeKeepsRoots(f0, p, c1, c2);
    MergeKeepsRepresent(f0, p, c1, c2);
    MergeKeepsCovered(f0, p, c1, c2);
  }

  lemma MergeKeepsRoots(f0: seq<nat>, p: Progress, c1: nat, c2: nat)
    requires Consistent(f0, p) && TwoSmallest(p.f, c1, c2) && c1 in p.trees && c2 in p.trees
    ensures Sized(f0, AfterMerge(p, c1, c2)) && RootsMatch(f0, AfterMerge(p, c1, c2))
  {
    assert Represents(f0, p, c1);
  }

  lemma MergeKeepsRepresent(f0: seq<nat>, p: Progress, c1: nat, c2: nat)
    requires Consistent(f0, p) && TwoSmallest(p.f, c1, c2) && c1 in p.trees && c2 in p.trees
    ensures Sized(f0, AfterMerge(p, c1, c2)) && AllRepresent(f0, AfterMerge(p, c1, c2))
  {
    var q := AfterMerge(p, c1, c2);
    forall r | r in q.trees ensures Represents(f0, q, r) {
      hide Represents, AllCovered;
      if r == c1 {
        MergedRepresents(f0, p, c1, c2);
      } else {
        BystanderKeepsItsTree(f0, p, c1, c2, r);
      }
    }
  }

  lemma MergeKeepsCovered(f0: seq<nat>, p: Progress, c1: nat, c2: nat)
    requires Consistent(f0, p) && c1 in p.trees && c2 in p.trees && c1 != c2
    ensures Sized(f0, AfterMerge(p, c1, c2)) && AllCovered(f0, AfterMerge(p, c1, c2))
  {
    forall s | 0 <= s < |f0| ensures Covered(f0, AfterMerge(p, c1, c2), s) {
      StillCovered(f0, p, c1, c2, s);
    }
  }

  function MergedCosts(f: seq<nat>, inner: seq<nat>, c1: nat, c2: nat): (r: seq<nat>)
    requires c1 < |f| == |inner| && c2 < |inner|
  {
    inner[c1 := f[c1] + f[c2] + inner[c1] + inner[c2]][c2 := 0]
  }

  /** Seen from the symbols, the same two branches get deeper. */
  lemma DeepenedIsDeeper(f0: seq<nat>, p: Progress, c1: nat, c2: nat)
    requires Consistent(f0, p) && c1 in p.trees && c2 in p.trees && c1 != c2
    ensures AfterMerge(p, c1, c2).len == Deeper(p.len, p.owner, c1, c2)
  {
    assert Represents(f0, p, c1) && Represents(f0, p, c2);
    var q, r := AfterMerge(p, c1, c2).len, Deeper(p.len, p.owner, c1, c2);
    DisjointBranches(f0, p, c1, c2);
    forall s | 0 <= s < |f0| ensures q[s] == r[s] {
      InBranch(f0, p, c1, s);
      InBranch(f0, p, c2, s);
      if s in Leaves(p.trees[c1]) {
        var j :| 0 <= j < |Leaves(p.trees[c1])| && Leaves(p.trees[c1])[j] == s;
      }
    }
  }

  lemma InBranch(f0: seq<nat>, p: Progress, c: nat, s: nat)
    requires Consistent(f0, p) && c in p.trees && s < |f0|
    ensures s in Leaves(p.trees[c]) <==> p.owner[s] == c
  {
    assert Represents(f0, p, c) && Covered(f0, p, s);
  }

  lemma StaysOnCourse(f0: seq<nat>, p: Progress, c1: nat, c2: nat)
    requires Consistent(f0, p) && c1 in p.trees && c2 in p.trees && c1 != c2 && OnCourse(f0, p)
    requires c1 == LeastCount(p.f, |p.f|, -1) && c2 == LeastCount(p.f, |p.f|, c1)
    requires Sized(f0, AfterMerge(p, c1, c2))
    ensures OnCourse(f0, AfterMerge(p, c1, c2))
  {
    DeepenedIsDeeper(f0, p, c1, c2);
    hide Consistent, Deeper, Deepened, LeastCount, MergeLengths;
  }

  lemma MergeKeepsInvariant(f0: seq<nat>, p: Progress, inner: seq<nat>, c1: nat, c2: nat)
    requires Invariant(f0, p, inner) && TwoSmallest(p.f, c1, c2)
    requires c1 == LeastCount(p.f, |p.f|, -1) && c2 == LeastCount(p.f, |p.f|, c1)
    ensures c1 in p.trees && c2 in p.trees && LeavesBelow(p.trees[c1], |p.nxt|)
    ensures Invariant(f0, AfterMerge(p, c1, c2), MergedCosts(p.f, inner, c1, c2))
  {
    hide Sum, LowerBound, OnCourse, LeastCount;
    assert c1 in p.trees && c2 in p.trees && Represents(f0, p, c1);
    MergeKeepsConsistent(f0, p, c1, c2);
    MergeKeepsCosts(f0, p, inner, c1, c2);
    SumOfMerged(inner, c1, c2, p.f[c1] + p.f[c2] + inner[c1] + inner[c2]);
    SumOfMerged(p.f, c1, c2, p.f[c1] + p.f[c2]);
    LowerBoundAfterMerge(f0, p.f, Sum(inner), c1, c2);
    StaysOnCourse(f0, p, c1, c2);
  }

  lemma MergeKeepsCosts(f0: seq<nat>, p: Progress, inner: seq<nat>, c1: nat, c2: nat)
    requires Consistent(f0, p) && CostsAre(f0, p, inner) && TwoSmallest(p.f, c1, c2)
    requires c1 in p.trees && c2 in p.trees && Consistent(f0, AfterMerge(p, c1, c2))
    ensures CostsAre(f0, AfterMerge(p, c1, c2), MergedCosts(p.f, inner, c1, c2))
  {
    hide Linked, DepthsAre, AllCovered, Distinct;
    assert Represents(f0, p, c1) && Represents(f0, p, c2) && Represents(f0, AfterMerge(p, c1, c2), c1);
    var q := AfterMerge(p, c1, c2);
    assert InnerCost(q.trees[c1], f0)
        == Weight(q.trees[c1], f0) + InnerCost(p.trees[c1], f0) + InnerCost(p.trees[c2], f0);
  }

  // ----- the end

  /** What the merging procedure promises about the lengths it assigns. */
  ghost predicate OptimalLengths(f0: seq<nat>, len: seq<nat>) {
    // a code can have them, and no such lengths need fewer bits
    && Cheapest(f0, len)
    // the codes fill the code space exactly
    && (forall d: nat :: Bounded(f0, len, d) ==> Kraft(f0, len, d) == Pow2(d))
    // exactly the used symbols get a length
    && (forall s :: 0 <= s < |f0| && f0[s] == 0 ==> len[s] == 0)
    && ((exists s, s' :: 0 <= s < s' < |f0| && f0[s] > 0 && f0[s'] > 0)
        ==> forall s :: 0 <= s < |f0| && f0[s] > 0 ==> len[s] > 0)
  }

  /** t is a Huffman tree of the used symbols and len holds its depths. */
  ghost predicate TreeOf(f0: seq<nat>, len: seq<nat>, t: Tree) {
    && |f0| == |len| && LeavesBelow(t, |f0|)
    && Distinct(Leaves(t)) && DepthsAre(t, 0, len)
    && forall s :: 0 <= s < |f0| ==> (s in Leaves(t) <==> f0[s] > 0) && (f0[s] == 0 ==> len[s] == 0)
  }

  lemma TermsOffTheTree(f0: seq<nat>, len: seq<nat>, t: Tree, g: seq<int>)
    requires TreeOf(f0, len, t) && |g| == |f0|
    requires forall s :: 0 <= s < |f0| && f0[s] == 0 ==> g[s] == 0
    ensures Sum(g) == SumAt(Leaves(t), g)
  {
    SumIsSumAt(Leaves(t), g);
  }

  lemma TreeCost(f0: seq<nat>, len: seq<nat>, t: Tree)
    requires TreeOf(f0, len, t)
    ensures Cost(f0, len) == InnerCost(t, f0)
  {
    TermsOffTheTree(f0, len, t, CostTerms(f0, len));
    CostOfTree(t, 0, f0, len);
  }

  lemma LeavesAreUsed(f0: seq<nat>, len: seq<nat>, t: Tree)
    requires TreeOf(f0, len, t)
    ensures forall j :: 0 <= j < |Leaves(t)| ==> f0[Leaves(t)[j]] > 0
  {
    forall j | 0 <= j < |Leaves(t)| ensures f0[Leaves(t)[j]] > 0 {
      assert Leaves(t)[j] in Leaves(t);
    }
  }

  lemma TreeKraft(f0: seq<nat>, len: seq<nat>, t: Tree, d: nat)
    requires TreeOf(f0, len, t) && Bounded(f0, len, d)
    ensures Kraft(f0, len, d) == Pow2(d)
  {
    hide Sum, SumAt, Leaves, DepthsAre, Pow2, Distinct, LeavesBelow;
    LeavesAreUsed(f0, len, t);
    TermsOffTheTree(f0, len, t, KraftTerms(f0, len, d));
    KraftOfTree(t, 0, f0, len, d);
    hide TreeOf;
    assert d - 0 == d;
  }

  lemma TreeIsBounded(f0: seq<nat>, len: seq<nat>, t: Tree)
    requires TreeOf(f0, len, t)
    ensures Bounded(f0, len, Height(t))
  {
    forall s | 0 <= s < |f0| && f0[s] > 0 ensures len[s] <= Height(t) {
      var j :| 0 <= j < |Leaves(t)| && Leaves(t)[j] == s;
      DepthRange(t, 0, len, j);
    }
  }

  lemma TreePositive(f0: seq<nat>, len: seq<nat>, t: Tree, s: nat, s': nat)
    requires TreeOf(f0, len, t) && s < s' < |f0| && f0[s] > 0 && f0[s'] > 0
    ensures forall x :: 0 <= x < |f0| && f0[x] > 0 ==> len[x] > 0
  {
    assert s in Leaves(t) && s' in Leaves(t);
    assert t.Node?;
    forall x | 0 <= x < |f0| && f0[x] > 0 ensures len[x] > 0 {
      var j :| 0 <= j < |Leaves(t)| && Leaves(t)[j] == x;
      DepthRange(t, 0, len, j);
    }
  }

  lemma TreeIsOptimal(f0: seq<nat>, len: seq<nat>, t: Tree, f: seq<nat>, acc: int)
    requires TreeOf(f0, len, t)
    requires LowerBound(f0, f, acc) && acc == InnerCost(t, f0)
    ensures OptimalLengths(f0, len)
  {
    forall l: seq<nat>, d: nat | Feasible(f0, l, d) ensures Cost(f0, len) <= Cost(f0, l) {
      assert HasCheaper(f0, f, acc, l, d);
      TreeCost(f0, len, t);
    }
    forall d: nat | Bounded(f0, len, d) ensures Kraft(f0, len, d) == Pow2(d) {
      TreeKraft(f0, len, t, d);
    }
    TreeIsBounded(f0, len, t);
    assert Feasible(f0, len, Height(t));
    if s, s' :| 0 <= s < s' < |f0| && f0[s] > 0 && f0[s'] > 0 {
      TreePositive(f0, len, t, s, s');
    }
  }

  ghost predicate OneTree(p: Progress, c: nat) {
    c in p.trees && forall r :: r in p.trees ==> r == c
  }

  lemma LastTree(f0: seq<nat>, p: Progress, c: nat)
    requires Consistent(f0, p) && OneTree(p, c)
    ensures TreeOf(f0, p.len, p.trees[c]) && p.f[c] == Weight(p.trees[c], f0)
  {
    assert Represents(f0, p, c);
    forall s | 0 <= s < |f0|
      ensures (s in Leaves(p.trees[c]) <==> f0[s] > 0) && (f0[s] == 0 ==> p.len[s] == 0)
    {
      assert Covered(f0, p, s);
    }
  }

  lemma SumOfSingle(g: seq<int>, c: nat)
    requires c < |g| && forall i :: 0 <= i < |g| && i != c ==> g[i] == 0
    ensures Sum(g) == g[c]
  {
    SumUpdate(g, c, 0);
    SumZero(g[c := 0]);
  }

  lemma FinalIsOptimal(f0: seq<nat>, p: Progress, inner: seq<nat>, c: nat)
    requires Invariant(f0, p, inner) && OneTree(p, c)
    ensures OptimalLengths(f0, p.len)
  {
    LastTree(f0, p, c);
    SumOfSingle(inner, c);
    TreeIsOptimal(f0, p.len, p.trees[c], p.f, Sum(inner));
  }

  /** With nothing left to merge, the lengths are optimal. */
  lemma Finished(f0: seq<nat>, p: Progress, inner: seq<nat>, c: int)
    requires Invariant(f0, p, inner) && p.trees.Keys != {}
    requires forall i :: 0 <= i < |p.f| && p.f[i] > 0 ==> i == c
    ensures OptimalLengths(f0, p.len)
  {
    hide Represents, Covered, LowerBound, CostsAre, OnCourse;
    var r :| r in p.trees;
    assert OneTree(p, c);
    FinalIsOptimal(f0, p, inner, c);
  }

  lemma {:induction false} MergingOnIsOptimal(f0: seq<nat>, p: Progress, inner: seq<nat>)
    requires Invariant(f0, p, inner) && p.trees.Keys != {} && Sum(f0) <= SENTINEL
    ensures OptimalLengths(f0, MergeLengths(f0))
    decreases |p.trees.Keys|
  {
    hide Invariant, OptimalLengths, Sum, AfterMerge, MergedCosts, LeavesBelow, LeastCount, MergeFrom, MergeLengths;
    RootsAreCounts(f0, p, inner);
    CountsAreBelowSentinel(p.f);
    var c1 := LeastCount(p.f, |p.f|, -1);
    var c2 := LeastCount(p.f, |p.f|, c1);
    LeastCountIsLeast(p.f, |p.f|, -1);
    LeastCountIsLeast(p.f, |p.f|, c1);
    if c2 < 0 {
      NothingToMerge(f0, p, inner);
      Finished(f0, p, inner, c1);
    } else {
      MergeKeepsInvariant(f0, p, inner, c1, c2);
      OneBranchFewer(p, c1, c2);
      MergingOnIsOptimal(f0, AfterMerge(p, c1, c2), MergedCosts(p.f, inner, c1, c2));
    }
  }

  lemma Begin(f: seq<nat>) returns (p: Progress, inner: seq<nat>)
    requires exists i :: 0 <= i < |f| && f[i] > 0
    ensures Invariant(f, p, inner) && p.trees.Keys != {} && p.f == f && |p.len| == |p.nxt| == |f|
    ensures forall s :: 0 <= s < |f| ==> p.len[s] == 0 && p.nxt[s] == -1
  {
    hide Invariant;
    p, inner := Start(f), seq(|f|, _ => 0);
    var i :| 0 <= i < |f| && f[i] > 0;
    assert i in p.trees;
    InvariantStarts(f);
  }

  /** The procedure is Huffman's: its lengths are optimal. */
  lemma MergeLengthsAreOptimal(f: seq<nat>)
    requires (exists i :: 0 <= i < |f| && f[i] > 0) && Sum(f) <= SENTINEL
    ensures OptimalLengths(f, MergeLengths(f))
  {
    hide *;
    var p, inner := Begin(f);
    MergingOnIsOptimal(f, p, inner);
  }

  // ----- the arrays

  /** The search loops. */
  method FindSmallest(freq: array<nat>, skip: int) returns (c: int)
    ensures c == LeastCount(freq[..], freq.Length, skip)
  {
    c := -1;
    var v := SENTINEL;
    for i := 0 to freq.Length
      invariant c == LeastCount(freq[..], i, skip) && v == if c < 0 then SENTINEL else freq[c]
    {
      if freq[i] != 0 && freq[i] <= v && i != skip {
        v := freq[i];
        c := i;
      }
    }
  }

  /** It is the least count but `skip`, unless all counts are above the sentinel. */
  lemma {:induction false} LeastCountIsLeast(f: seq<nat>, n: nat, skip: int)
    requires n <= |f| && forall i :: 0 <= i < |f| ==> f[i] <= SENTINEL
    ensures var c := LeastCount(f, n, skip);
            && (c < 0 ==> forall i :: 0 <= i < n && f[i] > 0 ==> i == skip)
            && (c >= 0 ==> forall i :: 0 <= i < n && f[i] > 0 && i != skip ==> f[c] <= f[i])
  {
    if n > 0 {
      LeastCountIsLeast(f, n - 1, skip);
    }
  }

  lemma LinkedStep(nxt: seq<int>, leaves: seq<nat>, j: nat)
    requires Linked(nxt, leaves) && j < |leaves|
    ensures if nxt[leaves[j]] < 0 then j == |leaves| - 1
            else j + 1 < |leaves| && nxt[leaves[j]] == leaves[j + 1]
  {
    if j + 1 < |leaves| {
      assert nxt[leaves[j]] == leaves[j + 1];
    }
  }

  /** Increment the codesize of everything in c's branch; return its last symbol. */
  method Deepen(codesize: array<nat>, others: array<int>, c: nat, ghost leaves: seq<nat>) returns (last: nat)
    requires codesize.Length == others.Length && others as object != codesize
    requires leaves != [] && leaves[0] == c && Distinct(leaves) && Linked(others[..], leaves)
    modifies codesize
    ensures last == leaves[|leaves| - 1]
    ensures codesize[..] == Deepened(old(codesize[..]), leaves)
  {
    ghost var nxt, j := others[..], 0;
    last := c;
    codesize[last] := codesize[last] + 1;
    while others[last] >= 0
      invariant 0 <= j < |leaves| && last == leaves[j] && others[..] == nxt
      invariant codesize[..] == Deepened(old(codesize[..]), leaves[..j + 1])
      decreases |leaves| - j
    {
      LinkedStep(nxt, leaves, j);
      last := others[last];
      j := j + 1;
      assert leaves[..j + 1] == leaves[..j] + [last];
      codesize[last] := codesize[last] + 1;
    }
    LinkedStep(nxt, leaves, j);
    assert leaves[..j + 1] == leaves;
  }

  // ----- what the arrays show of the invariant

  lemma RootsAreCounts(f0: seq<nat>, p: Progress, inner: seq<nat>)
    requires Invariant(f0, p, inner)
    ensures Sized(f0, p) && |inner| == |f0| && Sum(p.f) == Sum(f0)
    ensures forall r: nat :: r in p.trees <==> r < |f0| && p.f[r] > 0
  {
  }

  lemma BranchIsLinked(f0: seq<nat>, p: Progress, inner: seq<nat>, c: nat)
    requires Invariant(f0, p, inner) && c in p.trees
    ensures Leaves(p.trees[c])[0] == c && Distinct(Leaves(p.trees[c])) && Linked(p.nxt, Leaves(p.trees[c]))
  {
    assert Represents(f0, p, c);
  }

  /** Chaining onto c1's branch leaves c2's branch linked as it was. */
  lemma OtherBranchStaysLinked(f0: seq<nat>, p: Progress, inner: seq<nat>, c1: nat, c2: nat)
    requires Invariant(f0, p, inner) && c1 in p.trees && c2 in p.trees && c1 != c2
    ensures Linked(p.nxt, Leaves(p.trees[c1]))
    ensures Linked(p.nxt[Leaves(p.trees[c1])[|Leaves(p.trees[c1])| - 1] := c2], Leaves(p.trees[c2]))
  {
    assert Represents(f0, p, c1) && Represents(f0, p, c2);
    DisjointBranches(f0, p, c2, c1);
  }

  lemma NothingToMerge(f0: seq<nat>, p: Progress, inner: seq<nat>)
    requires Invariant(f0, p, inner) && LeastCount(p.f, |p.f|, LeastCount(p.f, |p.f|, -1)) < 0
    ensures p.len == MergeLengths(f0)
  {
    hide LeastCount;
  }

  lemma CountsAreBelowSentinel(f: seq<nat>)
    requires Sum(f) <= SENTINEL
    ensures forall i :: 0 <= i < |f| ==> f[i] <= SENTINEL
  {
    forall i | 0 <= i < |f| ensures f[i] <= SENTINEL {
      SumAtLeastTerm(f, i);
    }
  }

  /** Merge the two counts and chain c2's branch onto c1's, one bit deeper. */
  method MergeBranches(freq: array<nat>, codesize: array<nat>, others: array<int>, c1: nat, c2: nat,
                       ghost f0: seq<nat>, ghost p: Progress, ghost inner: seq<nat>)
    requires freq != codesize && others as object != codesize && others as object != freq
    requires p.f == freq[..] && p.len == codesize[..] && p.nxt == others[..]
    requires Invariant(f0, p, inner) && TwoSmallest(p.f, c1, c2) && c1 in p.trees && c2 in p.trees
    requires LeavesBelow(p.trees[c1], |p.nxt|)
    modifies freq, codesize, others
    ensures freq[..] == AfterMerge(p, c1, c2).f
    ensures codesize[..] == AfterMerge(p, c1, c2).len
    ensures others[..] == AfterMerge(p, c1, c2).nxt
  {
    BranchIsLinked(f0, p, inner, c1);
    BranchIsLinked(f0, p, inner, c2);
    OtherBranchStaysLinked(f0, p, inner, c1, c2);
    ghost var a, b := Leaves(p.trees[c1]), Leaves(p.trees[c2]);
    hide Invariant, Leaves, Linked, LeavesBelow, Deepened, Distinct, Renamed;
    freq[c1] := freq[c1] + freq[c2];
    freq[c2] := 0;
    var last := Deepen(codesize, others, c1, a);
    others[last] := c2;
    var _ := Deepen(codesize, others, c2, b);
  }

  lemma OneBranchFewer(p: Progress, c1: nat, c2: nat)
    requires c1 in p.trees && c2 in p.trees && c1 != c2 && c1 < |p.f| && c2 < |p.f|
    requires LeavesBelow(p.trees[c1], |p.nxt|)
    ensures AfterMerge(p, c1, c2).trees.Keys == p.trees.Keys - {c2}
    ensures c1 in AfterMerge(p, c1, c2).trees.Keys
    ensures |AfterMerge(p, c1, c2).trees.Keys| < |p.trees.Keys|
  {
    assert AfterMerge(p, c1, c2).trees.Keys == p.trees.Keys - {c2};
  }

  /** One round of the main loop; done when everything is merged into one count. */
  method MergeRound(freq: array<nat>, codesize: array<nat>, others: array<int>,
                    ghost f0: seq<nat>, ghost p: Progress, ghost inner: seq<nat>)
    returns (done: bool, ghost q: Progress, ghost inner': seq<nat>)
    requires freq != codesize && others as object != codesize && others as object != freq
    requires p.f == freq[..] && p.len == codesize[..] && p.nxt == others[..]
    requires Invariant(f0, p, inner) && p.trees.Keys != {} && Sum(f0) <= SENTINEL
    modifies freq, codesize, others
    ensures done ==> codesize[..] == MergeLengths(f0)
    ensures !done ==> Invariant(f0, q, inner') && q.trees.Keys != {} && |q.trees.Keys| < |p.trees.Keys|
    ensures !done ==> q.f == freq[..] && q.len == codesize[..] && q.nxt == others[..]
  {
    hide Invariant, Sum, AfterMerge, MergedCosts, LeavesBelow, LeastCount, MergeFrom, MergeLengths;
    q, inner' := p, inner;
    RootsAreCounts(f0, p, inner);
    CountsAreBelowSentinel(p.f);
    var c1 := FindSmallest(freq, -1);
    var c2 := FindSmallest(freq, c1);
    LeastCountIsLeast(p.f, |p.f|, -1);
    LeastCountIsLeast(p.f, |p.f|, c1);
    if c2 < 0 {
      NothingToMerge(f0, p, inner);
      return true, p, inner;
    }
    MergeKeepsInvariant(f0, p, inner, c1, c2);
    OneBranchFewer(p, c1, c2);
    MergeBranches(freq, codesize, others, c1, c2, f0, p, inner);
    return false, AfterMerge(p, c1, c2), MergedCosts(p.f, inner, c1, c2);
  }

  /** Huffman's basic algorithm to assign optimal code lengths to symbols. */
  method AssignLengths(freq: array<nat>) returns (codesize: array<nat>)
    requires exists i :: 0 <= i < freq.Length && freq[i] > 0
    requires Sum(freq[..]) <= SENTINEL
    modifies freq
    ensures fresh(codesize) && codesize[..] == MergeLengths(old(freq[..]))
    ensures OptimalLengths(old(freq[..]), codesize[..])
  {
    hide *;
    ghost var f0 := freq[..];
    codesize := new nat[freq.Length](_ => 0);
    var others := new int[freq.Length](_ => -1);
    ghost var p, inner := Begin(f0);
    assert p.f == freq[..] && codesize[..] == p.len && others[..] == p.nxt;
    var done := false;
    while !done
      invariant !done ==> p.f == freq[..] && p.len == codesize[..] && p.nxt == others[..]
      invariant !done ==> Invariant(f0, p, inner) && p.trees.Keys != {}
      invariant done ==> codesize[..] == MergeLengths(f0)
      decreases !done, |p.trees.Keys|
    {
      done, p, inner := MergeRound(freq, codesize, others, f0, p, inner);
    }
    MergeLengthsAreOptimal(f0);
  }
}
