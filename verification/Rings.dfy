/**
 Circular doubly linked lists with a head node, given by their link fields: the two
 chains of the memory allocator.
 */
module Rings {
  type Addr = nat

  /** The address of the head node; no block lies there. */
  const HEAD: Addr := 0

  /** A field of the headers, by address. */
  type Field = map<Addr, Addr>

  /** The nodes of a list, seen from the head all the way round to the head. */
  function Loop(s: seq<Addr>): (r: seq<Addr>)
    ensures |r| == |s| + 2 && r[0] == HEAD && r[|s| + 1] == HEAD
    ensures forall i :: 0 <= i < |s| ==> r[i + 1] == s[i]
  {
    [HEAD] + s + [HEAD]
  }

  predicate Distinct(s: seq<Addr>) {
    HEAD !in s && forall i, j :: 0 <= i < j < |s| ==> s[i] != s[j]
  }

  ghost predicate Forwards(next: Field, r: seq<Addr>) {
    && (forall i :: 0 <= i < |r| ==> r[i] in next)
    && (forall i, j :: 0 <= i && j == i + 1 && j < |r| ==> next[r[i]] == r[j])
  }

  ghost predicate Backwards(prev: Field, r: seq<Addr>) {
    && (forall i :: 0 <= i < |r| ==> r[i] in prev)
    && (forall i, j :: 0 <= i && j == i + 1 && j < |r| ==> prev[r[j]] == r[i])
  }

  /** The links run through exactly these nodes, forwards and backwards. */
  ghost predicate Ring(next: Field, prev: Field, s: seq<Addr>) {
    Distinct(s) && Forwards(next, Loop(s)) && Backwards(prev, Loop(s))
  }

  function RemoveAt(s: seq<Addr>, i: nat): seq<Addr>
    requires i < |s|
  {
    s[..i] + s[i + 1..]
  }

  function InsertAt(s: seq<Addr>, i: nat, x: Addr): seq<Addr>
    requires i <= |s|
  {
    s[..i] + [x] + s[i..]
  }

  /** The neighbours of position i (or of the gap at i). */
  function Left(s: seq<Addr>, i: nat): Addr
    requires i <= |s|
  {
    if i == 0 then HEAD else s[i - 1]
  }

  function Right(s: seq<Addr>, i: nat): Addr
    requires i < |s|
  {
    if i + 1 == |s| then HEAD else s[i + 1]
  }

  lemma Neighbours(next: Field, prev: Field, s: seq<Addr>, i: nat)
    requires Ring(next, prev, s) && i < |s|
    ensures s[i] in next && s[i] in prev && next[s[i]] == Right(s, i) && prev[s[i]] == Left(s, i)
    ensures Right(s, i) in prev && Left(s, i) in next
    ensures HEAD in next && HEAD in prev
  {
    var r := Loop(s);
    assert r[i + 1] == s[i];
    assert r[i] == Left(s, i) && r[i + 2] == Right(s, i);
  }

  lemma Ends(next: Field, prev: Field, s: seq<Addr>)
    requires Ring(next, prev, s)
    ensures HEAD in next && HEAD in prev
    ensures next[HEAD] == (if s == [] then HEAD else s[0]) && prev[HEAD] == Left(s, |s|)
  {
    var r := Loop(s);
    assert r[0] == HEAD && next[r[0]] == r[1];
    assert r[|s| + 1] == HEAD && prev[r[|s| + 1]] == r[|s|];
  }

  /** Unlinking a node. */
  lemma RingRemove(next: Field, prev: Field, s: seq<Addr>, i: nat)
    requires Ring(next, prev, s) && i < |s|
    ensures Ring(next[Left(s, i) := Right(s, i)], prev[Right(s, i) := Left(s, i)], RemoveAt(s, i))
  {
    RemoveDistinct(s, i);
    LoopOfRemoved(s, i);
    LoopDistinct(s);
    hide Distinct, Loop, RemoveAt;
    CutForwards(next, Loop(s), i);
    CutBackwards(prev, Loop(s), i);
  }

  lemma RemoveDistinct(s: seq<Addr>, i: nat)
    requires Distinct(s) && i < |s|
    ensures Distinct(RemoveAt(s, i))
  {
  }

  lemma LoopOfRemoved(s: seq<Addr>, i: nat)
    requires i < |s|
    ensures Loop(RemoveAt(s, i)) == Loop(s)[..i + 1] + Loop(s)[i + 2..]
    ensures Loop(s)[i] == Left(s, i) && Loop(s)[i + 2] == Right(s, i)
  {
  }

  lemma CutForwards(next: Field, r: seq<Addr>, i: nat)
    requires Forwards(next, r) && i + 2 < |r|
    requires forall j, k :: 0 <= j < k < |r| - 1 ==> r[j] != r[k]
    ensures Forwards(next[r[i] := r[i + 2]], r[..i + 1] + r[i + 2..])
  {
  }

  lemma CutBackwards(prev: Field, r: seq<Addr>, i: nat)
    requires Backwards(prev, r) && i + 2 < |r|
    requires forall j, k :: 0 < j < k < |r| ==> r[j] != r[k]
    ensures Backwards(prev[r[i + 2] := r[i]], r[..i + 1] + r[i + 2..])
  {
  }

  lemma LoopDistinct(s: seq<Addr>)
    requires Distinct(s)
    ensures forall i, j :: 0 <= i < j < |Loop(s)| - 1 ==> Loop(s)[i] != Loop(s)[j]
    ensures forall i, j :: 0 < i < j < |Loop(s)| ==> Loop(s)[i] != Loop(s)[j]
  {
    var r := Loop(s);
    forall i, j | 0 <= i < j < |r| - 1 ensures r[i] != r[j] {
      assert r[j] == s[j - 1];
      if i > 0 {
        assert r[i] == s[i - 1];
      }
    }
    forall i, j | 0 < i < j < |r| ensures r[i] != r[j] {
      assert r[i] == s[i - 1];
      if j < |r| - 1 {
        assert r[j] == s[j - 1];
      }
    }
  }

  /** The node that follows the gap at i. */
  function After(s: seq<Addr>, i: nat): Addr
    requires i <= |s|
  {
    if i == |s| then HEAD else s[i]
  }

  /** Linking a new node in between position i - 1 and position i. */
  lemma RingInsert(next: Field, prev: Field, s: seq<Addr>, i: nat, x: Addr)
    requires Ring(next, prev, s) && i <= |s| && x != HEAD && x !in s
    ensures Ring(next[x := After(s, i)][Left(s, i) := x], prev[x := Left(s, i)][After(s, i) := x], InsertAt(s, i, x))
  {
    InsertDistinct(s, i, x);
    LoopOfInserted(s, i, x);
    LoopDistinct(s);
    NotInLoop(s, x);
    hide Distinct, Loop, InsertAt;
    SpliceForwards(next, Loop(s), i, x);
    SpliceBackwards(prev, Loop(s), i, x);
  }

  lemma LoopOfInserted(s: seq<Addr>, i: nat, x: Addr)
    requires i <= |s|
    ensures Loop(InsertAt(s, i, x)) == Loop(s)[..i + 1] + [x] + Loop(s)[i + 1..]
    ensures Loop(s)[i] == Left(s, i) && Loop(s)[i + 1] == After(s, i)
  {
  }

  lemma SpliceForwards(next: Field, r: seq<Addr>, i: nat, x: Addr)
    requires Forwards(next, r) && i + 1 < |r| && x !in r
    requires forall j, k :: 0 <= j < k < |r| - 1 ==> r[j] != r[k]
    ensures Forwards(next[x := r[i + 1]][r[i] := x], r[..i + 1] + [x] + r[i + 1..])
  {
  }

  lemma SpliceBackwards(prev: Field, r: seq<Addr>, i: nat, x: Addr)
    requires Backwards(prev, r) && i + 1 < |r| && x !in r
    requires forall j, k :: 0 < j < k < |r| ==> r[j] != r[k]
    ensures Backwards(prev[x := r[i]][r[i + 1] := x], r[..i + 1] + [x] + r[i + 1..])
  {
  }

  lemma NotInLoop(s: seq<Addr>, x: Addr)
    requires x != HEAD && x !in s
    ensures x !in Loop(s)
  {
  }

  lemma InsertDistinct(s: seq<Addr>, i: nat, x: Addr)
    requires Distinct(s) && i <= |s| && x != HEAD && x !in s
    ensures Distinct(InsertAt(s, i, x))
  {
  }

  /** Putting one node in the place of another. */
  lemma RingReplace(next: Field, prev: Field, s: seq<Addr>, i: nat, x: Addr)
    requires Ring(next, prev, s) && i < |s| && x != HEAD && x !in s
    ensures Ring(next[x := Right(s, i)][Left(s, i) := x], prev[x := Left(s, i)][Right(s, i) := x], s[i := x])
  {
    RingRemove(next, prev, s, i);
    var t := RemoveAt(s, i);
    RingInsert(next[Left(s, i) := Right(s, i)], prev[Right(s, i) := Left(s, i)], t, i, x);
    assert InsertAt(t, i, x) == s[i := x];
    assert Left(t, i) == Left(s, i) && After(t, i) == Right(s, i);
    SameUpdates(next, Left(s, i), Right(s, i), x);
    SameUpdates(prev, Right(s, i), Left(s, i), x);
  }

  lemma SameUpdates(f: Field, a: Addr, b: Addr, x: Addr)
    ensures f[a := b][x := b][a := x] == f[x := b][a := x]
  {
  }
}
