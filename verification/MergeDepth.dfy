/**
 Where the merging procedure puts a symbol that comes last among equals: the pseudo-symbol, which
 is counted once and is larger than every other symbol, always gets one of the longest codes.
 */
module MergeDepth {
  import opened Sums
  import opened HuffmanTree
  import opened CodeDepth
  import opened MergeProcedure

  // ----- the procedure, one merge at a time

  predicate Inside(branch: seq<nat>, n: nat) {
    forall s :: 0 <= s < |branch| ==> branch[s] < n
  }

  /** What symbols in branches get is what the branches get, on top of what they have. */
  lemma {:induction false} MergeFromSplits(f: seq<nat>, branch: seq<nat>, len: seq<nat>)
    requires |f| == |branch| == |len| && Inside(branch, |f|)
    ensures forall s :: 0 <= s < |f| ==> MergeFrom(f, branch, len)[s] == len[s] + MergeLengths(f)[branch[s]]
    decreases UsedSymbols(f)
  {
    var id, zeros: seq<nat> := seq(|f|, i => i), seq(|f|, _ => 0);
    var c1 := LeastCount(f, |f|, -1);
    var c2 := LeastCount(f, |f|, c1);
    if c1 >= 0 && c2 >= 0 {
      FewerSymbols(f, c1, c2);
      var g := Merged(f, c1, c2);
      MergeOnce(f, branch, len, c1, c2);
      MergeOnce(f, id, zeros, c1, c2);
      hide MergeFrom, MergeLengths, LeastCount, Merged;
      MergeFromSplits(g, Renamed(branch, c1, c2), Deeper(len, branch, c1, c2));
      MergeFromSplits(g, Renamed(id, c1, c2), Deeper(zeros, id, c1, c2));
    }
  }

  lemma MergeOnce(f: seq<nat>, branch: seq<nat>, len: seq<nat>, c1: int, c2: int)
    requires |f| == |branch| == |len| && Inside(branch, |f|)
    requires c1 == LeastCount(f, |f|, -1) >= 0 && c2 == LeastCount(f, |f|, c1) >= 0
    ensures MergeFrom(f, branch, len)
         == MergeFrom(Merged(f, c1, c2), Renamed(branch, c1, c2), Deeper(len, branch, c1, c2))
    ensures Inside(Renamed(branch, c1, c2), |f|)
  {
  }

  /** The lengths before a merge: one more for the two merged symbols. */
  lemma LengthsBefore(f: seq<nat>, c1: int, c2: int)
    requires c1 == LeastCount(f, |f|, -1) >= 0 && c2 == LeastCount(f, |f|, c1) >= 0
    ensures var r := MergeLengths(Merged(f, c1, c2));
            forall s :: 0 <= s < |f| ==>
              MergeLengths(f)[s] == if s == c1 || s == c2 then r[c1] + 1 else r[s]
  {
    var id, zeros: seq<nat> := seq(|f|, i => i), seq(|f|, _ => 0);
    assert MergeLengths(f) == MergeFrom(f, id, zeros);
    MergeOnce(f, id, zeros, c1, c2);
    hide MergeFrom, MergeLengths, LeastCount, Merged;
    MergeFromSplits(Merged(f, c1, c2), Renamed(id, c1, c2), Deeper(zeros, id, c1, c2));
  }

  // ----- what decides between equals

  /** No symbol behind p has been counted. */
  predicate IsLast(f: seq<nat>, p: nat) {
    p < |f| && f[p] > 0 && forall i :: p < i < |f| ==> f[i] == 0
  }

  lemma {:induction false} LeastIsLast(f: seq<nat>, n: nat, skip: int)
    requires n <= |f| && forall i :: 0 <= i < |f| ==> f[i] <= SENTINEL
    ensures var c := LeastCount(f, n, skip);
            && (c < 0 ==> forall i :: 0 <= i < n && f[i] > 0 ==> i == skip)
            && (c >= 0 ==> forall i :: 0 <= i < n && f[i] > 0 && i != skip && i != c ==>
                             f[c] < f[i] || (f[c] == f[i] && i < c))
  {
    if n > 0 {
      LeastIsLast(f, n - 1, skip);
    }
  }

  /** The two symbols that are merged first, and the counts afterwards. */
  ghost predicate FirstMerge(f: seq<nat>, c1: nat, c2: nat, g: seq<nat>) {
    && c1 < |f| && c2 < |f| && c1 != c2 && f[c1] > 0 && f[c2] > 0 && g == Merged(f, c1, c2)
    && (forall i :: 0 <= i < |f| && f[i] > 0 && i != c1 ==> f[c1] < f[i] || (f[c1] == f[i] && i < c1))
    && (forall i :: 0 <= i < |f| && f[i] > 0 && i != c1 && i != c2 ==> f[c2] < f[i] || (f[c2] == f[i] && i < c2))
    && forall s :: 0 <= s < |f| ==>
         MergeLengths(f)[s] == if s == c1 || s == c2 then MergeLengths(g)[c1] + 1 else MergeLengths(g)[s]
  }

  lemma MergeFirst(f: seq<nat>, p: nat, v: nat) returns (c1: nat, c2: nat, g: seq<nat>)
    requires p < |f| && v < |f| && p != v && f[p] > 0 && f[v] > 0 && Sum(f) <= SENTINEL
    ensures FirstMerge(f, c1, c2, g) && UsedSymbols(g) < UsedSymbols(f) && Sum(g) == Sum(f) && |g| == |f|
  {
    hide Sum, MergeLengths, LeastCount, UsedSymbols;
    CountsAreBelowSentinel(f);
    LeastIsLast(f, |f|, -1);
    LeastIsLast(f, |f|, LeastCount(f, |f|, -1));
    c1, c2 := LeastCount(f, |f|, -1), LeastCount(f, |f|, LeastCount(f, |f|, -1));
    g := Merged(f, c1, c2);
    LengthsBefore(f, c1, c2);
    FewerSymbols(f, c1, c2);
    SameTotal(f, c1, c2);
  }

  lemma LengthsAreCheapest(f: seq<nat>, p: nat)
    requires p < |f| && f[p] > 0 && Sum(f) <= SENTINEL
    ensures Cheapest(f, MergeLengths(f))
  {
    hide MergeLengths;
    MergeLengthsAreOptimal(f);
  }

  // ----- depths

  /** A symbol that any two others outweigh is at most one bit short of the longest codes. */
  lemma NearlyDeepest(f: seq<nat>, len: seq<nat>, u: nat)
    requires Cheapest(f, len) && u < |f| && f[u] > 0
    requires forall i, j :: 0 <= i < j < |f| && f[i] > 0 && f[j] > 0 && i != u && j != u ==> f[i] + f[j] > f[u]
    ensures forall i :: 0 <= i < |f| && f[i] > 0 ==> len[i] <= len[u] + 1
  {
    OneLengthEach(f, len);
    hide Cheapest;
    var m := LongestExcept(f, len, |f|, -1);
    if len[m] > len[u] + 1 {
      var y := NotAlone(f, len, m);
      MergedIsCheapest(f, len, m, y);
      ShorterIsMoreFrequent(Merged(f, m, y), len[m := len[m] - 1], m, u);
      assert false;
    }
  }

  /** The last symbol is at most one bit short of the longest codes, if no two others weigh less than it. */
  lemma {:induction false} LastIsNearlyDeepest(f: seq<nat>, p: nat, v: nat)
    requires IsLast(f, p) && Sum(f) <= SENTINEL && v < |f| && f[v] > 0
    requires forall i, j :: 0 <= i < j < |f| && f[i] > 0 && f[j] > 0 && i != p && j != p ==> f[i] + f[j] >= f[p]
    ensures MergeLengths(f)[v] <= MergeLengths(f)[p] + 1
    decreases UsedSymbols(f), 0
  {
    hide MergeLengths, Sum, UsedSymbols;
    if v != p {
      var c1, c2, g := MergeFirst(f, p, v);
      if c1 == p {
        LastIsNearlyDeepest(g, p, if v == c2 then p else v);
      } else if c2 == p {
        LengthsAreCheapest(g, c1);
        NearlyDeepest(g, MergeLengths(g), c1);
      } else if v == c1 || v == c2 {
        LastIsNotHigher(g, p, c1);
      } else {
        LastIsNearlyDeepest(g, p, v);
      }
    }
  }

  /** The last symbol's code is not shorter than that of a symbol counted at least as often. */
  lemma {:induction false} LastIsNotHigher(f: seq<nat>, p: nat, v: nat)
    requires IsLast(f, p) && Sum(f) <= SENTINEL && v < |f| && f[v] >= f[p]
    ensures MergeLengths(f)[v] <= MergeLengths(f)[p]
    decreases UsedSymbols(f), 0
  {
    hide MergeLengths, Sum, UsedSymbols;
    if f[v] > f[p] {
      HeavierIsNotDeeper(f, p, v);
    } else if v != p {
      var c1, c2, g := MergeFirst(f, p, v);
      if c1 == p {
        if c2 != v {
          LastIsNearlyDeepest(g, p, v);
        }
      } else if c2 == p {
        LengthsAreCheapest(g, c1);
        NearlyDeepest(g, MergeLengths(g), c1);
      } else {
        LastIsNotHigher(g, p, v);
      }
    }
  }

  lemma HeavierIsNotDeeper(f: seq<nat>, p: nat, v: nat)
    requires p < |f| && v < |f| && f[v] > f[p] > 0 && Sum(f) <= SENTINEL
    ensures MergeLengths(f)[v] <= MergeLengths(f)[p]
  {
    hide MergeLengths, Sum, Cheapest;
    LengthsAreCheapest(f, p);
    if MergeLengths(f)[p] < MergeLengths(f)[v] {
      ShorterIsMoreFrequent(f, MergeLengths(f), v, p);
      assert false;
    }
  }
}
