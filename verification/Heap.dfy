/**
 The allocator of malloc.c: headers in raw memory, a chain of all blocks in order of
 address and a chain of the free ones.
 */
module Heap {
  import opened Rings
  import opened HeapLayout

  const TWO_32 := 0x1_0000_0000

  /** A request with its header, rounded up to the unit of alignment. */
  function Rounded(size: nat): (r: nat)
    ensures Aligned(r) && size + HEADER <= r < size + 2 * HEADER
    ensures size > 0 ==> r >= 2 * HEADER
  {
    (size + 2 * HEADER - 1) / HEADER * HEADER
  }

  /** The type and size fields of the headers. */
  predicate Stored(s: seq<Block>, kind: map<Addr, Kind>, size: map<Addr, nat>) {
    && HEAD in kind && kind[HEAD] == Head
    && forall i :: 0 <= i < |s| ==>
         s[i].addr in kind && s[i].addr in size && kind[s[i].addr] == s[i].kind && size[s[i].addr] == s[i].size
  }

  /** Address a is that of a free block. */
  ghost predicate IsFree(s: seq<Block>, a: Addr) {
    exists i :: 0 <= i < |s| && s[i].addr == a && s[i].kind == Free
  }

  /** The free chain holds exactly the free blocks. */
  ghost predicate Listed(s: seq<Block>, frees: seq<Addr>) {
    forall a :: a in frees <==> IsFree(s, a)
  }

  /** `u` was made out of free bytes; nothing else changed between used and free. */
  ghost predicate Allocated(s: seq<Block>, t: seq<Block>, u: Block, a: Addr, n: nat) {
    && u in t && u.kind == Used && u.addr == a && n <= u.size < n + 2 * HEADER
    && SameBytes(s, t) && SameUsed(s, t, u) && FreeRun(s, u.addr, u.size)
  }

  /** The used block b was given back; nothing else changed between used and free. */
  ghost predicate Released(s: seq<Block>, t: seq<Block>, b: Block) {
    SameBytes(s, t) && SameUsed(s, t, b) && b !in t
  }

  /** The bytes of b were added, all of them free; the used blocks stay. */
  ghost predicate Grown(s: seq<Block>, t: seq<Block>, b: Block) {
    (forall x: Addr :: Covers(t, x) <==> Covers(s, x) || b.Holds(x)) && UsedAlike(s, t)
  }

  /** The same used blocks. */
  ghost predicate UsedAlike(s: seq<Block>, t: seq<Block>) {
    forall u: Block :: u.kind == Used ==> (u in s <==> u in t)
  }

  /** The block before block i is free and ends where block i starts. */
  predicate MergeableLeft(s: seq<Block>, i: nat) {
    0 < i < |s| && s[i - 1].kind == Free && s[i - 1].End() == s[i].addr
  }

  /** An arena size, rounded down to whole chunks. */
  function WholeChunks(bytes: nat): (r: nat)
    ensures r % 65536 == 0 && r <= bytes < r + 65536
  {
    bytes / CHUNK * CHUNK
  }

  /** A new block among the others. */
  ghost predicate Placed(s: seq<Block>, t: seq<Block>, b: Block) {
    && (forall x: Addr :: Covers(t, x) <==> Covers(s, x) || b.Holds(x))
    && (forall u: Block :: u != b ==> (u in s <==> u in t)) && b !in s
  }

  /** The free block at a has fewer than n bytes. */
  ghost predicate TooSmall(s: seq<Block>, a: Addr, n: nat) {
    forall b: Block :: b in s && b.addr == a ==> b.size < n
  }

  /**
   u comes from the first block on the free chain with room for n bytes, and the chain is then g. The
   block is cut after n bytes if the rest can hold a free block, and the rest takes its place on
   the chain; otherwise it is used whole and leaves the chain.
   */
  ghost predicate FirstFit(s: seq<Block>, frees: seq<Addr>, n: nat, u: Block, g: seq<Addr>) {
    exists k, i ::
      && 0 <= k < |frees| && 0 <= i < |s| && frees[k] == s[i].addr && CutFrom(s[i], frees, k, n, u, g)
      && forall j :: 0 <= j < k ==> TooSmall(s, frees[j], n)
  }

  predicate CutFrom(b: Block, frees: seq<Addr>, k: nat, n: nat, u: Block, g: seq<Addr>)
    requires k < |frees|
  {
    && b.kind == Free && u.addr == b.addr
    && if b.size - n >= 32 then u.size == n && g == frees[..k] + [b.addr + n] + frees[k + 1..]
       else u.size == b.size && g == frees[..k] + frees[k + 1..]
  }

  /** The block right behind block i is free. */
  predicate FreeBehind(s: seq<Block>, i: nat)
    requires i < |s|
  {
    i + 1 < |s| && s[i + 1].kind == Free && s[i].addr + s[i].size == s[i + 1].addr
  }

  /**
   The free chain after block i is given back: it goes in front unless it joins the block on its
   left, and the block on its right leaves the chain if the two join.
   */
  ghost predicate Rechained(s: seq<Block>, i: nat, frees: seq<Addr>, g: seq<Addr>)
    requires i < |s|
  {
    var pushed := if MergeableLeft(s, i) then frees else [s[i].addr] + frees;
    if FreeBehind(s, i) then Without(pushed, s[i + 1].addr, g) else g == pushed
  }

  /** g is f but for its one element a. */
  ghost predicate Without(f: seq<Addr>, a: Addr, g: seq<Addr>) {
    exists k :: 0 <= k < |f| && f[k] == a && g == f[..k] + f[k + 1..]
  }

  /** The chain after the arena b, laid between the blocks s, was given back. */
  ghost predicate ArenaChained(s: seq<Block>, b: Block, frees: seq<Addr>, g: seq<Addr>) {
    exists k: nat :: k <= |s| && Laid(Between(s, k, b)) && Rechained(Between(s, k, b), k, frees, g)
  }

  function Between(s: seq<Block>, k: nat, b: Block): (t: seq<Block>)
    requires k <= |s|
    ensures |t| > k && t[k] == b
  {
    s[..k] + [b] + s[k..]
  }

  class Heap {
    var kind: map<Addr, Kind>
    var size: map<Addr, nat>
    var next: Field
    var prev: Field
    var nextFree: Field
    var prevFree: Field
    ghost var blocks: seq<Block>       // the chain of all blocks
    ghost var frees: seq<Addr>         // the chain of the free ones

    ghost predicate Chained()
      reads this
    {
      && Ring(next, prev, Addrs(blocks)) && Ring(nextFree, prevFree, frees)
      && Stored(blocks, kind, size) && Listed(blocks, frees) && Laid(blocks)
    }

    ghost predicate Valid()
      reads this
    {
      Chained() && Coalesced(blocks, -1)
    }

    constructor ()
      ensures Valid() && blocks == []
    {
      kind, size := map[HEAD := Head], map[];
      next, prev, nextFree, prevFree := map[HEAD := HEAD], map[HEAD := HEAD], map[HEAD := HEAD], map[HEAD := HEAD];
      blocks, frees := [], [];
      new;
      hide *;
      EmptyRing();
      NothingStored(kind, size);
      IsValid();
    }

    /** remove_from_main_chain */
    method RemoveFromMainChain(ah: Addr, ghost i: nat)
      requires i < |blocks| && blocks[i].addr == ah && Ring(next, prev, Addrs(blocks))
      modifies `next, `prev
      ensures Ring(next, prev, RemoveAt(Addrs(blocks), i))
    {
      hide *;
      Neighbours(next, prev, Addrs(blocks), i);
      RingRemove(next, prev, Addrs(blocks), i);
      var ap, an := prev[ah], next[ah];
      next := next[ap := an];
      prev := prev[an := ap];
    }

    /** remove_from_free_chain */
    method RemoveFromFreeChain(ah: Addr, ghost k: nat)
      requires k < |frees| && frees[k] == ah && Ring(nextFree, prevFree, frees)
      modifies `nextFree, `prevFree, `frees
      ensures frees == RemoveAt(old(frees), k) && Ring(nextFree, prevFree, frees)
    {
      hide *;
      Neighbours(nextFree, prevFree, frees, k);
      RingRemove(nextFree, prevFree, frees, k);
      var ap, an := prevFree[ah], nextFree[ah];
      nextFree := nextFree[ap := an];
      prevFree := prevFree[an := ap];
      frees := RemoveAt(frees, k);
    }

    /** Link nfp into the chain of all blocks right after fp. */
    method InsertInMainChain(fp: Addr, nfp: Addr, ghost i: nat)
      requires i <= |Addrs(blocks)| && fp == Left(Addrs(blocks), i) && nfp != HEAD && nfp !in Addrs(blocks)
      requires Ring(next, prev, Addrs(blocks))
      modifies `next, `prev
      ensures Ring(next, prev, InsertAt(Addrs(blocks), i, nfp))
    {
      hide *;
      GapNeighbours(next, prev, Addrs(blocks), i);
      RingInsert(next, prev, Addrs(blocks), i, nfp);
      var na := next[fp];
      prev := prev[nfp := fp];
      next := next[nfp := na];
      prev := prev[na := nfp];
      next := next[fp := nfp];
    }

    /** Put nfp in the place of fp on the free chain. */
    method ReplaceOnFreeChain(fp: Addr, nfp: Addr, ghost k: nat)
      requires k < |frees| && frees[k] == fp && Ring(nextFree, prevFree, frees)
      requires nfp != HEAD && nfp !in frees
      modifies `nextFree, `prevFree, `frees
      ensures frees == old(frees)[k := nfp] && Ring(nextFree, prevFree, frees)
    {
      hide *;
      Neighbours(nextFree, prevFree, frees, k);
      RingReplace(nextFree, prevFree, frees, k, nfp);
      var fpn, fpp := nextFree[fp], prevFree[fp];
      nextFree := nextFree[nfp := fpn];
      prevFree := prevFree[nfp := fpp];
      prevFree := prevFree[fpn := nfp];
      nextFree := nextFree[fpp := nfp];
      frees := frees[k := nfp];
    }

    /** Link ah in at the front of the free chain. */
    method PushOnFreeChain(ah: Addr)
      requires Ring(nextFree, prevFree, frees) && ah != HEAD && ah !in frees
      modifies `nextFree, `prevFree, `frees
      ensures frees == [ah] + old(frees) && Ring(nextFree, prevFree, frees)
    {
      InsertInFront(frees, ah);
      hide *;
      Ends(nextFree, prevFree, frees);
      RingInsert(nextFree, prevFree, frees, 0, ah);
      nextFree := nextFree[ah := nextFree[HEAD]];
      prevFree := prevFree[ah := HEAD];
      nextFree := nextFree[HEAD := ah];
      prevFree := prevFree[nextFree[ah] := ah];
      frees := [ah] + frees;
    }

    // ----- allocating

    lemma SplitPlan(fp: Addr, n: nat, i: nat, k: nat)
      requires Valid() && i < |blocks| && k < |frees| && blocks[i].addr == fp == frees[k] && blocks[i].kind == Free
      requires Aligned(n) && 0 < n <= blocks[i].size && 2 * HEADER <= n && n + 2 * HEADER <= blocks[i].size
      ensures Ring(next, prev, Addrs(blocks)) && Ring(nextFree, prevFree, frees)
      ensures fp == Left(Addrs(blocks), i + 1) && fp + n != HEAD && fp + n !in Addrs(blocks) && fp + n !in frees
      ensures fp in size && size[fp] == blocks[i].size
      ensures var t := Split(blocks, i, n);
              && Laid(t) && Coalesced(t, -1) && Addrs(t) == InsertAt(Addrs(blocks), i + 1, fp + n)
              && Stored(t, kind[fp + n := Free][fp := Used], size[fp + n := size[fp] - n][fp := n])
              && Listed(t, frees[k := fp + n])
    {
      hide *;
      ValidParts();
      RingIsDistinct(nextFree, prevFree, frees);
      StoredAt(blocks, kind, size, i);
      SplitOk(blocks, i, n);
      SplitStored(blocks, kind, size, i, n);
      SplitListed(blocks, frees, i, k, n);
    }

    lemma Parts()
      requires Chained()
      ensures Ring(next, prev, Addrs(blocks)) && Ring(nextFree, prevFree, frees)
      ensures Stored(blocks, kind, size) && Listed(blocks, frees) && Laid(blocks)
    {
    }

    lemma ValidParts()
      requires Valid()
      ensures Chained() && Coalesced(blocks, -1)
      ensures Ring(next, prev, Addrs(blocks)) && Ring(nextFree, prevFree, frees)
      ensures Stored(blocks, kind, size) && Listed(blocks, frees) && Laid(blocks)
    {
    }

    lemma IsValid()
      requires Ring(next, prev, Addrs(blocks)) && Ring(nextFree, prevFree, frees)
      requires Stored(blocks, kind, size) && Listed(blocks, frees) && Laid(blocks)
      ensures Chained() && (Coalesced(blocks, -1) ==> Valid())
    {
    }

    /** Split the free block fp and use its first n bytes. */
    method SplitBlock(fp: Addr, n: nat, ghost i: nat, ghost k: nat)
      requires Valid() && i < |blocks| && k < |frees| && blocks[i].addr == fp == frees[k] && blocks[i].kind == Free
      requires Aligned(n) && 0 < n <= blocks[i].size && 2 * HEADER <= n && n + 2 * HEADER <= blocks[i].size
      modifies this
      ensures Valid() && blocks == Split(old(blocks), i, n) && frees == old(frees)[k := fp + n]
    {
      hide *;
      SplitPlan(fp, n, i, k);
      ghost var t := Split(blocks, i, n);
      var fsize := size[fp];
      var nfp := fp + n;
      kind := kind[nfp := Free];
      size := size[nfp := fsize - n];
      kind := kind[fp := Used];
      size := size[fp := n];
      InsertInMainChain(fp, nfp, i + 1);
      ReplaceOnFreeChain(fp, nfp, k);
      blocks := t;
      IsValid();
    }

    /** Use the free block fp as a whole. */
    method TakeBlock(fp: Addr, ghost i: nat, ghost k: nat)
      requires Valid() && i < |blocks| && k < |frees| && blocks[i].addr == fp == frees[k] && blocks[i].kind == Free
      modifies this
      ensures Valid() && blocks == old(blocks)[i := old(blocks)[i].(kind := Used)] && frees == RemoveAt(old(frees), k)
    {
      hide *;
      ValidParts();
      RingIsDistinct(nextFree, prevFree, frees);
      TakeOk(blocks, i);
      KindStored(blocks, kind, size, i, Used);
      TakeListed(blocks, frees, i, k);
      kind := kind[fp := Used];
      RemoveFromFreeChain(fp, k);
      blocks := blocks[i := blocks[i].(kind := Used)];
      IsValid();
    }

    /** __malloc_from_block: `u` is the block that results. */
    method FromBlock(fp: Addr, n: nat, ghost i: nat, ghost k: nat) returns (p: Addr, ghost u: Block)
      requires Valid() && i < |blocks| && k < |frees| && blocks[i].addr == fp == frees[k] && blocks[i].kind == Free
      requires Aligned(n) && 2 * HEADER <= n <= blocks[i].size
      modifies this
      ensures Valid() && p == fp + HEADER && Allocated(old(blocks), blocks, u, fp, n)
      ensures CutFrom(old(blocks)[i], old(frees), k, n, u, frees)
    {
      assert n > 0;
      hide *;
      ghost var s := blocks;
      ValidParts();
      StoredAt(blocks, kind, size, i);
      u := Taken(s[i], n);
      var fsize := size[fp];
      if fsize >= n + 2 * HEADER {
        SplitBlock(fp, n, i, k);
      } else {
        TakeBlock(fp, i, k);
      }
      BlockTaken(s, i, n, blocks, old(frees), k, frees);
      p := fp + HEADER;
    }

    /**
     malloc. It returns NULL exactly when no n free bytes lie in a row anywhere, n being the
     rounded request; otherwise it takes the first fit on the free chain.
     */
    method Malloc(request: nat) returns (p: Addr, ghost u: Block)
      requires Valid() && request + 2 * HEADER - 1 < TWO_32
      modifies this
      ensures Valid()
      ensures p == 0 <==> request == 0 || forall start :: !FreeRun(old(blocks), start, Rounded(request))
      ensures p == 0 ==> blocks == old(blocks) && frees == old(frees)
      ensures p != 0 ==> p >= HEADER && Allocated(old(blocks), blocks, u, p - HEADER, Rounded(request))
      ensures p != 0 ==> FirstFit(old(blocks), old(frees), Rounded(request), u, frees)
    {
      hide *;
      p, u := 0, Block(0, 0, Head);
      if request == 0 {
        return;
      }
      var n := Rounded(request);
      FreeNeighbours(0);
      var fp := nextFree[HEAD];
      ghost var k := 0;
      while kind[fp] != Head
        invariant Valid() && blocks == old(blocks) && frees == old(frees) && p == 0
        invariant k <= |frees| && fp == Rings.After(frees, k) && fp in kind
        invariant kind[fp] == Head <==> k == |frees|
        invariant forall j :: 0 <= j < k ==> TooSmall(blocks, frees[j], n)
        decreases |frees| - k
      {
        ghost var i := FreeAt(k);
        if size[fp] >= n {
          p, u := FromBlock(fp, n, i, k);
          Fits(old(blocks), blocks, old(frees), frees, i, k, n, u);
          return;
        }
        ValidParts();
        IsTooSmall(blocks, i, n);
        k := k + 1;
        FreeNeighbours(k);
        fp := nextFree[fp];
      }
      ValidParts();
      NoFit(blocks, frees, n);
    }

    // ----- freeing

    /** Everything is in order but for the type field of block i, a used block to be freed. */
    ghost predicate Releasing(i: nat)
      reads this
    {
      && i < |blocks| && blocks[i].kind == Used
      && Ring(next, prev, Addrs(blocks)) && Ring(nextFree, prevFree, frees)
      && Stored(blocks, kind[blocks[i].addr := Used], size) && Listed(blocks, frees)
      && Laid(blocks) && Coalesced(blocks, -1)
    }

    /** What the test on the left neighbour finds out. */
    lemma LeftTest(i: nat)
      requires Releasing(i)
      ensures var ah, pah := blocks[i].addr, Left(Addrs(blocks), i);
              && ah in prev && ah in next && prev[ah] == pah && next[ah] == Right(Addrs(blocks), i) && pah in kind
              && (kind[pah] == Free ==> pah in size)
              && (kind[pah] == Free && pah + size[pah] == ah <==> MergeableLeft(blocks, i))
              && (MergeableLeft(blocks, i) ==> pah == blocks[i - 1].addr)
    {
      Neighbours(next, prev, Addrs(blocks), i);
      assert blocks[i].Proper();
      if i > 0 {
        AddressesDiffer(blocks, i - 1, i);
        StoredAt(blocks, kind[blocks[i].addr := Used], size, i - 1);
      }
    }

    /** What the test on the right neighbour finds out. */
    lemma RightTest(i: nat)
      requires Chained() && i < |blocks| && blocks[i].kind == Free
      ensures var ah, nah := blocks[i].addr, Right(Addrs(blocks), i);
              && nah in kind && ah in size && (kind[nah] == Free ==> nah in size)
              && (kind[nah] == Free && ah + size[ah] == nah <==>
                  i + 1 < |blocks| && Mergeable(blocks[i], blocks[i + 1]))
              && (i + 1 < |blocks| ==> nah == blocks[i + 1].addr)
    {
      StoredAt(blocks, kind, size, i);
      if i + 1 < |blocks| {
        StoredAt(blocks, kind, size, i + 1);
      }
    }

    lemma LeftPlan(i: nat)
      requires Releasing(i) && MergeableLeft(blocks, i)
      ensures var ah, pah, t := blocks[i].addr, blocks[i - 1].addr, Merge(blocks, i - 1);
              && Left(Addrs(blocks), i) == pah && ah in size && pah in size
              && Ring(nextFree, prevFree, frees)
              && Ring(next[pah := Right(Addrs(blocks), i)], prev[Right(Addrs(blocks), i) := pah], Addrs(t))
              && Stored(t, kind, size[pah := size[pah] + size[ah]]) && Listed(t, frees) && Laid(t)
              && Coalesced(t, i - 1) && Released(blocks, t, blocks[i])
              && i - 1 < |t| && t[i - 1].addr == pah && t[i - 1].kind == Free
                  && Right(Addrs(t), i - 1) == Right(Addrs(blocks), i)
    {
      hide *;
      ReleasingParts(i);
      Undone(blocks, i);
      LeftMergeable(blocks, i);
      MergeLeftOk(blocks, i);
      RingRemove(next, prev, Addrs(blocks), i);
      StoredAt(blocks, kind[blocks[i].addr := Used], size, i);
      StoredAt(blocks, kind[blocks[i].addr := Used], size, i - 1);
      MergeStored(blocks, kind[blocks[i].addr := Used], size, i - 1);
      MergedAway(blocks, i - 1);
      StoredElsewhere(Merge(blocks, i - 1), kind, blocks[i].addr, Used,
          size[blocks[i - 1].addr := size[blocks[i - 1].addr] + size[blocks[i].addr]]);
      MergeLeftListed(blocks, frees, i);
      IsReleased(blocks, Merge(blocks, i - 1), blocks[i]);
    }

    lemma ReleasingParts(i: nat)
      requires Releasing(i)
      ensures i < |blocks| && blocks[i].kind == Used
      ensures Ring(next, prev, Addrs(blocks)) && Ring(nextFree, prevFree, frees)
      ensures Stored(blocks, kind[blocks[i].addr := Used], size) && Listed(blocks, frees)
      ensures Laid(blocks) && Coalesced(blocks, -1)
    {
    }

    /** Coalesce into the previous block. */
    method CoalesceLeft(pah: Addr, ah: Addr, nah: Addr, ghost i: nat)
      requires Releasing(i) && MergeableLeft(blocks, i)
      requires ah == blocks[i].addr && pah == blocks[i - 1].addr && nah == Right(Addrs(blocks), i)
      modifies this
      ensures Chained() && Coalesced(blocks, i - 1) && Released(old(blocks), blocks, old(blocks)[i])
      ensures blocks == Merge(old(blocks), i - 1) && frees == old(frees)
      ensures i - 1 < |blocks| && blocks[i - 1].addr == pah && blocks[i - 1].kind == Free
      ensures Right(Addrs(blocks), i - 1) == nah
    {
      hide *;
      LeftMergeable(blocks, i);
      LeftPlan(i);
      ghost var t := Merge(blocks, i - 1);
      size := size[pah := size[pah] + size[ah]];
      next := next[pah := nah];
      prev := prev[nah := pah];
      blocks := t;
      IsValid();
    }

    /** Add the block to the free chain. */
    method AddToFreeChain(ah: Addr, ghost i: nat)
      requires Releasing(i) && !MergeableLeft(blocks, i) && ah == blocks[i].addr
      modifies this
      ensures Chained() && Coalesced(blocks, i) && Released(old(blocks), blocks, old(blocks)[i])
      ensures i < |blocks| && blocks[i].addr == ah && blocks[i].kind == Free
      ensures blocks == old(blocks)[i := old(blocks)[i].(kind := Free)] && frees == [ah] + old(frees)
      ensures Addrs(blocks) == Addrs(old(blocks))
    {
      hide *;
      ReleasingParts(i);
      Undone(blocks, i);
      NotLeftMergeable(blocks, i);
      MarkFreeOk(blocks, i);
      KindStored(blocks, kind[ah := Used], size, i, Free);
      Overwritten(kind, ah, Used, Free);
      PushListed(blocks, frees, i);
      MarkedGone(blocks, i);
      IsReleased(blocks, blocks[i := blocks[i].(kind := Free)], blocks[i]);
      kind := kind[ah := Free];
      PushOnFreeChain(ah);
      blocks := blocks[i := blocks[i].(kind := Free)];
      IsValid();
    }

    lemma RightPlan(i: nat) returns (k: nat)
      requires Chained() && Coalesced(blocks, i) && i + 1 < |blocks| && Mergeable(blocks[i], blocks[i + 1])
      ensures k < |frees| && frees[k] == blocks[i + 1].addr
      ensures Ring(next, prev, Addrs(blocks)) && Ring(nextFree, prevFree, frees)
      ensures var ah, nah, t := blocks[i].addr, blocks[i + 1].addr, Merge(blocks, i);
              && ah in size && nah in size && Addrs(t) == RemoveAt(Addrs(blocks), i + 1)
              && Stored(t, kind, size[ah := size[ah] + size[nah]]) && Listed(t, RemoveAt(frees, k)) && Laid(t)
              && Coalesced(t, -1) && SameBytes(blocks, t) && UsedAlike(blocks, t)
    {
      hide *;
      Parts();
      BothFree(blocks, i);
      MergeRightOk(blocks, i);
      StoredAt(blocks, kind, size, i);
      StoredAt(blocks, kind, size, i + 1);
      MergeStored(blocks, kind, size, i);
      k := FreeIndex(blocks, frees, i + 1);
      RingIsDistinct(nextFree, prevFree, frees);
      MergeRightListed(blocks, frees, i, k);
      AreUsedAlike(blocks, Merge(blocks, i));
    }

    /** Merge with the subsequent block. */
    method CoalesceRight(ah: Addr, nah: Addr, ghost i: nat)
      requires Chained() && Coalesced(blocks, i) && i + 1 < |blocks| && Mergeable(blocks[i], blocks[i + 1])
      requires ah == blocks[i].addr && nah == blocks[i + 1].addr
      modifies this
      ensures Valid() && SameBytes(old(blocks), blocks) && UsedAlike(old(blocks), blocks)
      ensures Without(old(frees), nah, frees)
    {
      hide *;
      ghost var k := RightPlan(i);
      ghost var t := Merge(blocks, i);
      size := size[ah := size[ah] + size[nah]];
      IsWithout(frees, k);
      RemoveFromFreeChain(nah, k);
      RemoveFromMainChain(nah, i + 1);
      blocks := t;
      IsValid();
    }

    /** __free_block */
    method FreeBlock(block: Addr, ghost i: nat) returns (ah: Addr)
      requires Releasing(i) && block == blocks[i].addr
      modifies this
      ensures Valid() && Released(old(blocks), blocks, old(blocks)[i])
      ensures Rechained(old(blocks), i, old(frees), frees)
    {
      hide *;
      ReleasingParts(i);
      LeftTest(i);
      ah := block;
      var pah, nah := prev[ah], next[ah];
      ghost var s, b, j := blocks, blocks[i], i;
      if kind[pah] == Free && pah + size[pah] == ah {
        LeftMergeable(blocks, i);
        CoalesceLeft(pah, ah, nah, i);
        ah := pah;
        j := i - 1;
      } else {
        AddToFreeChain(ah, i);
      }
      ghost var t, f := blocks, frees;
      RightTest(j);
      SameBehind(s, i, t);
      IsRechained(s, i, old(frees), f);
      if kind[nah] == Free && ah + size[ah] == nah {
        CoalesceRight(ah, nah, j);
        StillReleased(s, t, blocks, b);
      } else {
        Parts();
        NothingToMerge(blocks, j);
        IsValid();
      }
    }

    /** free: the block of a pointer that malloc returned. */
    method FreePointer(ptr: Addr, ghost i: nat)
      requires Valid()
      requires ptr != 0 ==> ptr >= HEADER && i < |blocks| && blocks[i].addr == ptr - HEADER && blocks[i].kind == Used
      modifies this
      ensures Valid()
      ensures ptr == 0 ==> blocks == old(blocks) && frees == old(frees)
      ensures ptr != 0 ==> Released(old(blocks), blocks, old(blocks)[i])
      ensures ptr != 0 ==> Rechained(old(blocks), i, old(frees), frees)
    {
      if ptr == 0 {
        return;
      }
      UsedCanBeReleased(i);
      hide *;
      var ah := FreeBlock(ptr - HEADER, i);
    }

    lemma UsedCanBeReleased(i: nat)
      requires Valid() && i < |blocks| && blocks[i].kind == Used
      ensures Releasing(i)
    {
      StoredAt(blocks, kind, size, i);
      assert kind[blocks[i].addr := Used] == kind;
    }

    // ----- adding memory

    /**
     malloc_add: the arena, an aligned piece of memory apart from what the heap has, goes in as
     far as it consists of whole chunks.
     */
    method AddArena(p: Addr, bytes: nat)
      requires Valid() && p > 0 && Aligned(p) && bytes >= CHUNK
      requires forall x: Addr :: p <= x < p + bytes ==> !Covers(blocks, x)
      modifies this
      ensures Valid() && Grown(old(blocks), blocks, Block(p, WholeChunks(bytes), Used))
      ensures ArenaChained(old(blocks), Block(p, WholeChunks(bytes), Used), old(frees), frees)
    {
      hide *;
      ghost var s, b := blocks, Block(p, WholeChunks(bytes), Used);
      ValidParts();
      ArenaIsProper(p, bytes);
      ArenaIsApart(s, p, bytes);
      StoredBeside(s, kind, size, p, Free, WholeChunks(bytes));
      kind := kind[p := Free];
      size := size[p := WholeChunks(bytes)];
      Ends(next, prev, Addrs(s));
      LastOne(s, kind, size);
      var pah := prev[HEAD];
      ghost var k: nat := |s|;
      while kind[pah] != Head
        invariant blocks == s && Ring(next, prev, Addrs(s)) && Ring(nextFree, prevFree, frees)
        invariant Stored(s, kind, size) && p in size && size[p] == WholeChunks(bytes)
        invariant frees == old(frees)
        invariant k <= |s| && pah == Left(Addrs(s), k) && pah in kind && (kind[pah] == Head <==> k == 0)
        invariant forall j :: k <= j < |s| ==> p <= s[j].addr
        decreases k
      {
        BackOne(next, prev, s, k, kind, size);
        if pah < p {
          break;
        }
        pah := prev[pah];
        k := k - 1;
      }
      GapFound(s, k, b, bytes);
      InsertInMainChain(pah, p, k);
      ghost var t := Splice(s, k, [b], k);
      blocks := t;
      ArenaPlan(s, k, b, kind, size, frees);
      IsReleasing(k);
      var ah := FreeBlock(p, k);
      ArenaGrown(s, t, blocks, b);
      IsArenaChained(s, k, b, old(frees), frees);
    }

    lemma IsReleasing(i: nat)
      requires i < |blocks| && blocks[i].kind == Used
      requires Ring(next, prev, Addrs(blocks)) && Ring(nextFree, prevFree, frees)
      requires Stored(blocks, kind[blocks[i].addr := Used], size) && Listed(blocks, frees)
      requires Laid(blocks) && Coalesced(blocks, -1)
      ensures Releasing(i)
    {
    }

    /** Going along the free chain. */
    lemma FreeNeighbours(k: nat)
      requires Valid() && k <= |frees|
      ensures Left(frees, k) in nextFree && nextFree[Left(frees, k)] == Rings.After(frees, k)
      ensures k > 0 ==> Left(frees, k) == Rings.After(frees, k - 1)
      ensures k == 0 ==> Left(frees, k) == HEAD
      ensures Rings.After(frees, k) in kind && (kind[Rings.After(frees, k)] == Head <==> k == |frees|)
    {
      GapNeighbours(nextFree, prevFree, frees, k);
      if k < |frees| {
        var i := FreeAt(k);
      }
    }

    lemma FreeAt(k: nat) returns (i: nat)
      requires Valid() && k < |frees|
      ensures Rings.After(frees, k) == frees[k]
      ensures i < |blocks| && blocks[i].addr == frees[k] && blocks[i].kind == Free
      ensures frees[k] in kind && frees[k] in size && kind[frees[k]] == Free && size[frees[k]] == blocks[i].size
    {
      assert IsFree(blocks, frees[k]);
      i :| 0 <= i < |blocks| && blocks[i].addr == frees[k] && blocks[i].kind == Free;
      StoredAt(blocks, kind, size, i);
    }
  }

  lemma IsTooSmall(s: seq<Block>, i: nat, n: nat)
    requires Laid(s) && i < |s| && s[i].size < n
    ensures TooSmall(s, s[i].addr, n)
  {
    forall b: Block | b in s && b.addr == s[i].addr ensures b.size < n {
      var j :| 0 <= j < |s| && s[j] == b;
      if j != i {
        AddressesDiffer(s, i, j);
      }
    }
  }

  lemma Fits(s: seq<Block>, t: seq<Block>, frees: seq<Addr>, g: seq<Addr>, i: nat, k: nat, n: nat, u: Block)
    requires k < |frees| && i < |s| && s[i].addr == frees[k] && Allocated(s, t, u, frees[k], n)
    requires CutFrom(s[i], frees, k, n, u, g) && forall j :: 0 <= j < k ==> TooSmall(s, frees[j], n)
    ensures FirstFit(s, frees, n, u, g) && FreeRun(s, frees[k], n)
  {
    hide CutFrom;
  }

  lemma BlockTaken(s: seq<Block>, i: nat, n: nat, t: seq<Block>, frees: seq<Addr>, k: nat, g: seq<Addr>)
    requires Laid(s) && Coalesced(s, -1) && i < |s| && s[i].kind == Free && Aligned(n) && 2 * HEADER <= n <= s[i].size
    requires t == if s[i].size >= n + 2 * HEADER then Split(s, i, n) else s[i := s[i].(kind := Used)]
    requires k < |frees| && frees[k] == s[i].addr
    requires g == if s[i].size >= n + 2 * HEADER then frees[k := s[i].addr + n] else RemoveAt(frees, k)
    ensures Allocated(s, t, Taken(s[i], n), s[i].addr, n) && CutFrom(s[i], frees, k, n, Taken(s[i], n), g)
  {
    hide *;
    TakenOk(s, i, n, t);
    IsAllocated(s, t, Taken(s[i], n), s[i].addr, n);
    IsCutFrom(s[i], frees, k, n, g);
  }

  lemma IsAllocated(s: seq<Block>, t: seq<Block>, u: Block, a: Addr, n: nat)
    requires u in t && u.kind == Used && u.addr == a && n <= u.size < n + 2 * HEADER
    requires SameBytes(s, t) && SameUsed(s, t, u) && FreeRun(s, u.addr, u.size)
    ensures Allocated(s, t, u, a, n)
  {
  }

  lemma IsCutFrom(b: Block, frees: seq<Addr>, k: nat, n: nat, g: seq<Addr>)
    requires k < |frees| && frees[k] == b.addr && b.kind == Free && n <= b.size
    requires g == if b.size >= n + 2 * HEADER then frees[k := b.addr + n] else RemoveAt(frees, k)
    ensures CutFrom(b, frees, k, n, Taken(b, n), g)
  {
  }

  /** Too small, all of them: then there is no room at all. */
  lemma NoFit(s: seq<Block>, frees: seq<Addr>, n: nat)
    requires Laid(s) && Coalesced(s, -1) && Listed(s, frees) && n > 0
    requires forall j :: 0 <= j < |frees| ==> TooSmall(s, frees[j], n)
    ensures forall start: Addr :: !FreeRun(s, start, n)
  {
    forall start: Addr ensures !FreeRun(s, start, n) {
      if FreeRun(s, start, n) {
        var j := RunIsListed(s, frees, start, n);
      }
    }
  }

  lemma RunIsListed(s: seq<Block>, frees: seq<Addr>, start: Addr, n: nat) returns (j: nat)
    requires Laid(s) && Coalesced(s, -1) && Listed(s, frees) && n > 0 && FreeRun(s, start, n)
    ensures j < |frees| && !TooSmall(s, frees[j], n)
  {
    var i := RunInOneBlock(s, start, n);
    assert IsFree(s, s[i].addr);
    var k :| 0 <= k < |frees| && frees[k] == s[i].addr;
    assert s[i] in s;
    j := k;
  }

  lemma NothingStored(kind: map<Addr, Kind>, size: map<Addr, nat>)
    requires kind == map[HEAD := Head]
    ensures Stored([], kind, size) && Listed([], []) && Laid([]) && Coalesced([], -1)
  {
  }

  lemma InsertInFront(s: seq<Addr>, a: Addr)
    ensures InsertAt(s, 0, a) == [a] + s && Left(s, 0) == HEAD && Rings.After(s, 0) == if s == [] then HEAD else s[0]
  {
  }

  lemma RingIsDistinct(next: Field, prev: Field, s: seq<Addr>)
    requires Ring(next, prev, s)
    ensures Distinct(s)
  {
  }

  lemma EmptyRing()
    ensures Ring(map[HEAD := HEAD], map[HEAD := HEAD], []) && Addrs([]) == []
  {
  }

  // ----- header fields and the free list, after each change

  lemma StoredAt(s: seq<Block>, kind: map<Addr, Kind>, size: map<Addr, nat>, i: nat)
    requires Stored(s, kind, size) && i < |s|
    ensures s[i].addr in kind && s[i].addr in size && kind[s[i].addr] == s[i].kind && size[s[i].addr] == s[i].size
  {
  }

  /** Different positions, different addresses. */
  lemma AddressesDiffer(s: seq<Block>, i: nat, j: nat)
    requires Laid(s) && i < |s| && j < |s| && i != j
    ensures s[i].addr != s[j].addr
  {
    if i < j {
      assert s[i].End() <= s[j].addr && s[i].Proper();
    } else {
      assert s[j].End() <= s[i].addr && s[j].Proper();
    }
  }

  lemma SplitStored(s: seq<Block>, kind: map<Addr, Kind>, size: map<Addr, nat>, i: nat, n: nat)
    requires Laid(s) && Stored(s, kind, size) && i < |s| && n <= s[i].size && s[i].addr + n !in Addrs(s)
    requires 0 < n
    ensures Stored(Split(s, i, n), kind[s[i].addr + n := Free][s[i].addr := Used],
                   size[s[i].addr + n := s[i].size - n][s[i].addr := n])
    ensures Addrs(Split(s, i, n)) == InsertAt(Addrs(s), i + 1, s[i].addr + n)
    ensures Left(Addrs(s), i + 1) == s[i].addr && s[i].addr + n != HEAD
  {
    var t, nfp := Split(s, i, n), s[i].addr + n;
    var kind', size' := kind[nfp := Free][s[i].addr := Used], size[nfp := s[i].size - n][s[i].addr := n];
    forall k | 0 <= k < |t|
      ensures t[k].addr in kind' && t[k].addr in size' && kind'[t[k].addr] == t[k].kind && size'[t[k].addr] == t[k].size
    {
      SpliceAt(s, i, HeapLayout.SplitBlock(s[i], n), i + 1, k);
      if k < i {
        AddressesDiffer(s, i, k);
        assert Addrs(s)[k] != nfp;
      } else if k > i + 1 {
        AddressesDiffer(s, i, k - 1);
        assert Addrs(s)[k - 1] != nfp;
      }
    }
    assert s[i].Proper();
  }

  // Which addresses are those of free blocks, piece by piece.

  lemma FreeConcat(s: seq<Block>, t: seq<Block>, a: Addr)
    ensures IsFree(s + t, a) <==> IsFree(s, a) || IsFree(t, a)
  {
    if IsFree(s, a) {
      var i :| 0 <= i < |s| && s[i].addr == a && s[i].kind == Free;
      assert (s + t)[i] == s[i];
    }
    if IsFree(t, a) {
      var i :| 0 <= i < |t| && t[i].addr == a && t[i].kind == Free;
      assert (s + t)[|s| + i] == t[i];
    }
  }

  lemma FreeOne(b: Block, a: Addr)
    ensures IsFree([b], a) <==> b.addr == a && b.kind == Free
  {
    assert [b][0] == b;
  }

  lemma FreeSplice(s: seq<Block>, i: nat, mid: seq<Block>, j: nat, a: Addr)
    requires i <= j <= |s|
    ensures IsFree(Splice(s, i, mid, j), a) <==> IsFree(s[..i], a) || IsFree(mid, a) || IsFree(s[j..], a)
  {
    FreeConcat(s[..i] + mid, s[j..], a);
    FreeConcat(s[..i], mid, a);
  }

  /** The free blocks other than block i. */
  lemma FreeAround(s: seq<Block>, i: nat, a: Addr)
    requires Laid(s) && i < |s|
    ensures IsFree(s[..i], a) || IsFree(s[i + 1..], a) <==> IsFree(s, a) && a != s[i].addr
  {
    assert s == s[..i] + [s[i]] + s[i + 1..];
    FreeConcat(s[..i] + [s[i]], s[i + 1..], a);
    FreeConcat(s[..i], [s[i]], a);
    FreeOne(s[i], a);
    if a == s[i].addr {
      NotAround(s, i);
    }
  }

  lemma NotAround(s: seq<Block>, i: nat)
    requires Laid(s) && i < |s|
    ensures !IsFree(s[..i], s[i].addr) && !IsFree(s[i + 1..], s[i].addr)
  {
    forall j | 0 <= j < i ensures s[..i][j].addr != s[i].addr {
      AddressesDiffer(s, i, j);
    }
    var rest := s[i + 1..];
    forall j | 0 <= j < |rest| ensures rest[j].addr != s[i].addr {
      AddressesDiffer(s, i, i + 1 + j);
    }
  }

  lemma FreeAfterSplit(s: seq<Block>, i: nat, n: nat, a: Addr)
    requires Laid(s) && i < |s| && n <= s[i].size
    ensures IsFree(Split(s, i, n), a) <==> a == s[i].addr + n || (IsFree(s, a) && a != s[i].addr)
  {
    var mid := HeapLayout.SplitBlock(s[i], n);
    FreeSplice(s, i, mid, i + 1, a);
    FreeAround(s, i, a);
    assert mid == [mid[0]] + [mid[1]];
    FreeConcat([mid[0]], [mid[1]], a);
    FreeOne(mid[0], a);
    FreeOne(mid[1], a);
  }

  lemma SplitListed(s: seq<Block>, frees: seq<Addr>, i: nat, k: nat, n: nat)
    requires Laid(s) && Listed(s, frees) && Distinct(frees) && i < |s| && k < |frees| && frees[k] == s[i].addr
    requires n <= s[i].size && s[i].addr + n !in Addrs(s)
    ensures Listed(Split(s, i, n), frees[k := s[i].addr + n]) && s[i].addr + n !in frees
  {
    var nfp := s[i].addr + n;
    NotFree(s, frees, nfp);
    hide IsFree, Split;
    forall a ensures a in frees[k := nfp] <==> IsFree(Split(s, i, n), a) {
      UpdatedMembers(frees, k, nfp, a);
      FreeAfterSplit(s, i, n, a);
    }
  }

  lemma NotFree(s: seq<Block>, frees: seq<Addr>, a: Addr)
    requires Listed(s, frees) && a !in Addrs(s)
    ensures a !in frees
  {
  }

  lemma UpdatedMembers(s: seq<Addr>, k: nat, x: Addr, a: Addr)
    requires Distinct(s) && k < |s| && x !in s
    ensures a in s[k := x] <==> a == x || (a in s && a != s[k])
  {
    if a in s && a != s[k] {
      var j :| 0 <= j < |s| && s[j] == a;
      assert s[k := x][j] == a;
    }
    assert s[k := x][k] == x;
  }

  lemma KindStored(s: seq<Block>, kind: map<Addr, Kind>, size: map<Addr, nat>, i: nat, to: Kind)
    requires Laid(s) && Stored(s, kind, size) && i < |s|
    ensures Stored(s[i := s[i].(kind := to)], kind[s[i].addr := to], size)
  {
    forall k | 0 <= k < |s| && k != i ensures s[k].addr != s[i].addr {
      AddressesDiffer(s, i, k);
    }
    assert s[i].Proper();
  }

  lemma RemovedMembers(s: seq<Addr>, k: nat, a: Addr)
    requires Distinct(s) && k < |s|
    ensures a in RemoveAt(s, k) <==> a in s && a != s[k]
  {
    if a in s && a != s[k] {
      var j :| 0 <= j < |s| && s[j] == a;
      assert RemoveAt(s, k)[if j < k then j else j - 1] == a;
    }
    if a in RemoveAt(s, k) {
      var j :| 0 <= j < |s| - 1 && RemoveAt(s, k)[j] == a;
      assert s[if j < k then j else j + 1] == a;
    }
  }

  lemma TakeListed(s: seq<Block>, frees: seq<Addr>, i: nat, k: nat)
    requires Laid(s) && Listed(s, frees) && Distinct(frees) && i < |s| && k < |frees| && frees[k] == s[i].addr
    ensures Listed(s[i := s[i].(kind := Used)], RemoveAt(frees, k))
  {
    var t := s[i := s[i].(kind := Used)];
    forall a ensures a in RemoveAt(frees, k) <==> IsFree(t, a) {
      RemovedMembers(frees, k, a);
      KindMembers(s, i, Used, a);
    }
  }

  lemma KindMembers(s: seq<Block>, i: nat, to: Kind, a: Addr)
    requires Laid(s) && i < |s|
    ensures IsFree(s[i := s[i].(kind := to)], a) <==> if a == s[i].addr then to == Free else IsFree(s, a)
  {
    var b := s[i].(kind := to);
    assert s[i := b] == Splice(s, i, [b], i + 1);
    FreeSplice(s, i, [b], i + 1, a);
    FreeOne(b, a);
    FreeAround(s, i, a);
  }

  lemma GapNeighbours(next: Field, prev: Field, s: seq<Addr>, i: nat)
    requires Ring(next, prev, s) && i <= |s|
    ensures Left(s, i) in next && next[Left(s, i)] == Rings.After(s, i) && Rings.After(s, i) in prev
  {
    var r := Loop(s);
    assert r[i] == Left(s, i) && r[i + 1] == Rings.After(s, i);
    assert next[r[i]] == r[i + 1];
  }

  // ----- freeing

  lemma Undone(s: seq<Block>, i: nat)
    requires i < |s| && s[i].kind == Used
    ensures s[i := s[i].(kind := Used)] == s
  {
  }

  lemma LeftMergeable(s: seq<Block>, i: nat)
    requires MergeableLeft(s, i)
    ensures 0 < i < |s| && s[i - 1].kind == Free && s[i - 1].End() == s[i].addr
  {
  }

  lemma NotLeftMergeable(s: seq<Block>, i: nat)
    requires i < |s| && !MergeableLeft(s, i)
    ensures i > 0 ==> !Mergeable(s[i - 1], s[i].(kind := Free))
  {
  }

  lemma BothFree(s: seq<Block>, i: nat)
    requires i + 1 < |s| && Mergeable(s[i], s[i + 1])
    ensures s[i].kind == Free && s[i + 1].kind == Free && s[i].End() == s[i + 1].addr
  {
  }

  lemma MergeStored(s: seq<Block>, kind: map<Addr, Kind>, size: map<Addr, nat>, i: nat)
    requires Laid(s) && Stored(s, kind, size) && i + 1 < |s| && s[i].kind == Free
    ensures Stored(Merge(s, i), kind, size[s[i].addr := s[i].size + s[i + 1].size])
    ensures Addrs(Merge(s, i)) == RemoveAt(Addrs(s), i + 1)
  {
    hide Laid, Aligned;
    var t, size' := Merge(s, i), size[s[i].addr := s[i].size + s[i + 1].size];
    forall k | 0 <= k < |t|
      ensures t[k].addr in kind && t[k].addr in size' && kind[t[k].addr] == t[k].kind && size'[t[k].addr] == t[k].size
    {
      SpliceAt(s, i, [MergedBlock(s[i], s[i + 1])], i + 2, k);
      if k < i {
        AddressesDiffer(s, i, k);
      } else if k > i {
        AddressesDiffer(s, i, k + 1);
      }
    }
  }

  lemma MergedAway(s: seq<Block>, i: nat)
    requires Laid(s) && i + 1 < |s|
    ensures s[i + 1].addr !in Addrs(Merge(s, i)) && s[i + 1].addr != HEAD
    ensures s[i + 1] !in Merge(s, i)
    ensures i < |Merge(s, i)| && Merge(s, i)[i].addr == s[i].addr && Merge(s, i)[i].kind == Free
    ensures Left(Addrs(s), i + 1) == s[i].addr && Right(Addrs(Merge(s, i)), i) == Right(Addrs(s), i + 1)
  {
    var t := Merge(s, i);
    forall k | 0 <= k < |t| ensures t[k].addr != s[i + 1].addr {
      SpliceAt(s, i, [MergedBlock(s[i], s[i + 1])], i + 2, k);
      AddressesDiffer(s, i + 1, if k <= i then k else k + 1);
    }
    assert s[i + 1].Proper();
  }

  lemma StoredElsewhere(t: seq<Block>, kind: map<Addr, Kind>, a: Addr, to: Kind, size: map<Addr, nat>)
    requires Stored(t, kind[a := to], size) && a !in Addrs(t) && a != HEAD
    ensures Stored(t, kind, size)
  {
    forall k | 0 <= k < |t| ensures t[k].addr != a {
      assert Addrs(t)[k] != a;
    }
  }

  lemma FreeAfterMerge(s: seq<Block>, i: nat, a: Addr)
    requires Laid(s) && i + 1 < |s| && s[i].kind == Free
    ensures IsFree(Merge(s, i), a) <==> IsFree(s, a) && a != s[i + 1].addr
  {
    FreeSplice(s, i, [MergedBlock(s[i], s[i + 1])], i + 2, a);
    FreeOne(MergedBlock(s[i], s[i + 1]), a);
    FreeAround(s, i + 1, a);
    assert s[..i + 1] == s[..i] + [s[i]];
    FreeConcat(s[..i], [s[i]], a);
    FreeOne(s[i], a);
  }

  lemma MergeLeftListed(s: seq<Block>, frees: seq<Addr>, i: nat)
    requires Laid(s) && Listed(s, frees) && 0 < i < |s| && s[i - 1].kind == Free && s[i].kind == Used
    ensures Listed(Merge(s, i - 1), frees)
  {
    NotListed(s, frees, i);
    forall a ensures a in frees <==> IsFree(Merge(s, i - 1), a) {
      FreeAfterMerge(s, i - 1, a);
    }
  }

  /** A used block is not on the free chain. */
  lemma NotListed(s: seq<Block>, frees: seq<Addr>, i: nat)
    requires Laid(s) && Listed(s, frees) && i < |s| && s[i].kind == Used
    ensures !IsFree(s, s[i].addr) && s[i].addr !in frees
  {
    forall j | 0 <= j < |s| && s[j].kind == Free ensures s[j].addr != s[i].addr {
      AddressesDiffer(s, i, j);
    }
  }

  lemma MergeRightListed(s: seq<Block>, frees: seq<Addr>, i: nat, k: nat)
    requires Laid(s) && Listed(s, frees) && Distinct(frees) && i + 1 < |s| && s[i].kind == Free
    requires k < |frees| && frees[k] == s[i + 1].addr
    ensures Listed(Merge(s, i), RemoveAt(frees, k))
  {
    forall a ensures a in RemoveAt(frees, k) <==> IsFree(Merge(s, i), a) {
      RemovedMembers(frees, k, a);
      FreeAfterMerge(s, i, a);
    }
  }

  lemma FreeIndex(s: seq<Block>, frees: seq<Addr>, i: nat) returns (k: nat)
    requires Listed(s, frees) && i < |s| && s[i].kind == Free
    ensures k < |frees| && frees[k] == s[i].addr
  {
    assert IsFree(s, s[i].addr);
    k :| 0 <= k < |frees| && frees[k] == s[i].addr;
  }

  lemma PushListed(s: seq<Block>, frees: seq<Addr>, i: nat)
    requires Laid(s) && Listed(s, frees) && i < |s| && s[i].kind == Used
    ensures Listed(s[i := s[i].(kind := Free)], [s[i].addr] + frees) && s[i].addr !in frees && s[i].addr != HEAD
  {
    NotListed(s, frees, i);
    assert s[i].Proper();
    forall a ensures a in [s[i].addr] + frees <==> IsFree(s[i := s[i].(kind := Free)], a) {
      KindMembers(s, i, Free, a);
    }
  }

  lemma MarkedGone(s: seq<Block>, i: nat)
    requires Laid(s) && i < |s| && s[i].kind == Used
    ensures s[i] !in s[i := s[i].(kind := Free)]
  {
    var t := s[i := s[i].(kind := Free)];
    forall j | 0 <= j < |t| ensures t[j] != s[i] {
      if j != i {
        AddressesDiffer(s, i, j);
      }
    }
  }

  lemma Overwritten(kind: map<Addr, Kind>, a: Addr, k: Kind, l: Kind)
    ensures kind[a := k][a := l] == kind[a := l]
  {
  }

  lemma IsWithout(f: seq<Addr>, k: nat)
    requires k < |f|
    ensures Without(f, f[k], RemoveAt(f, k))
  {
  }

  /** What lies behind the block that results is what lay behind block i. */
  lemma SameBehind(s: seq<Block>, i: nat, t: seq<Block>)
    requires i < |s| && s[i].kind == Used
    requires t == if MergeableLeft(s, i) then Merge(s, i - 1) else s[i := s[i].(kind := Free)]
    ensures var j := if MergeableLeft(s, i) then i - 1 else i;
            && j < |t| && (FreeBehind(s, i) <==> j + 1 < |t| && Mergeable(t[j], t[j + 1]))
            && (FreeBehind(s, i) ==> j + 1 < |t| && t[j + 1].addr == s[i + 1].addr)
  {
    if MergeableLeft(s, i) && i + 1 < |s| {
      assert t[i] == s[i + 1];
    }
  }

  lemma IsRechained(s: seq<Block>, i: nat, frees: seq<Addr>, f: seq<Addr>)
    requires i < |s| && f == if MergeableLeft(s, i) then frees else [s[i].addr] + frees
    ensures forall g :: (if FreeBehind(s, i) then Without(f, s[i + 1].addr, g) else g == f) ==>
              Rechained(s, i, frees, g)
  {
    hide Without;
  }

  lemma IsReleased(s: seq<Block>, t: seq<Block>, b: Block)
    requires SameBytes(s, t) && SameUsed(s, t, b) && b !in t
    ensures Released(s, t, b)
  {
  }

  lemma AreUsedAlike(s: seq<Block>, t: seq<Block>)
    requires forall u: Block :: u.kind == Used ==> (u in s <==> u in t)
    ensures UsedAlike(s, t)
  {
  }

  lemma StillReleased(s: seq<Block>, t: seq<Block>, v: seq<Block>, b: Block)
    requires Released(s, t, b) && SameBytes(t, v) && UsedAlike(t, v) && b.kind == Used
    ensures Released(s, v, b)
  {
    forall x: Addr ensures Covers(s, x) <==> Covers(v, x) {
      assert Covers(s, x) <==> Covers(t, x);
    }
  }

  // ----- adding memory

  lemma ArenaIsProper(p: Addr, bytes: nat)
    requires p > 0 && Aligned(p) && bytes >= CHUNK
    ensures p != HEAD && Block(p, WholeChunks(bytes), Used).Proper()
  {
    ChunksAreAligned(bytes / CHUNK);
  }

  lemma ChunksAreAligned(k: nat)
    ensures Aligned(k * CHUNK) && (k > 0 ==> k * CHUNK >= CHUNK)
  {
    assert k * CHUNK == (k * 4096) * HEADER;
  }

  /** No block starts in the arena, and none that starts before it reaches into it. */
  lemma ArenaIsApart(s: seq<Block>, p: Addr, bytes: nat)
    requires Laid(s) && bytes >= CHUNK && p > 0 && forall x: Addr :: p <= x < p + bytes ==> !Covers(s, x)
    ensures p !in Addrs(s)
    ensures forall j :: 0 <= j < |s| ==> if p <= s[j].addr then p + bytes <= s[j].addr else s[j].End() <= p
  {
    forall j | 0 <= j < |s| ensures if p <= s[j].addr then p + bytes <= s[j].addr else s[j].End() <= p {
      HeldIsCovered(s, j, s[j].addr);
      HeldIsCovered(s, j, p);
    }
  }

  lemma HeldIsCovered(s: seq<Block>, j: nat, x: Addr)
    requires Laid(s) && j < |s|
    ensures s[j].Holds(s[j].addr) && s[j].addr > 0
    ensures s[j].Holds(x) ==> Covers(s, x)
  {
    assert s[j].Proper();
  }

  lemma StoredBeside(s: seq<Block>, kind: map<Addr, Kind>, size: map<Addr, nat>, p: Addr, k: Kind, n: nat)
    requires Stored(s, kind, size) && p !in Addrs(s) && p != HEAD
    ensures Stored(s, kind[p := k], size[p := n])
  {
    forall j | 0 <= j < |s| ensures s[j].addr != p {
      assert Addrs(s)[j] != p;
    }
  }

  /** The search for the place of a new block goes back by one. */
  lemma BackOne(next: Field, prev: Field, s: seq<Block>, k: nat, kind: map<Addr, Kind>, size: map<Addr, nat>)
    requires Ring(next, prev, Addrs(s)) && Stored(s, kind, size) && Laid(s) && 0 < k <= |s|
    ensures var pah := Left(Addrs(s), k);
            pah == s[k - 1].addr && pah in prev && prev[pah] == Left(Addrs(s), k - 1)
            && Left(Addrs(s), k - 1) in kind && (kind[Left(Addrs(s), k - 1)] == Head <==> k - 1 == 0)
  {
    hide Ring, Aligned;
    Neighbours(next, prev, Addrs(s), k - 1);
    LastOne(s[..k - 1], kind, size);
    assert Left(Addrs(s[..k - 1]), k - 1) == Left(Addrs(s), k - 1);
  }

  lemma LastOne(s: seq<Block>, kind: map<Addr, Kind>, size: map<Addr, nat>)
    requires Stored(s, kind, size) && Laid(s)
    ensures Left(Addrs(s), |s|) in kind && (kind[Left(Addrs(s), |s|)] == Head <==> |s| == 0)
  {
    if |s| > 0 {
      StoredAt(s, kind, size, |s| - 1);
      assert s[|s| - 1].Proper();
    }
  }

  lemma GapFound(s: seq<Block>, k: nat, b: Block, bytes: nat)
    requires Laid(s) && k <= |s| && b.size <= bytes
    requires forall j :: 0 <= j < |s| ==>
               if b.addr <= s[j].addr then b.addr + bytes <= s[j].addr else s[j].End() <= b.addr
    requires k > 0 ==> s[k - 1].addr < b.addr
    requires forall j :: k <= j < |s| ==> b.addr <= s[j].addr
    ensures forall j :: 0 <= j < k ==> s[j].End() <= b.addr
    ensures forall j :: k <= j < |s| ==> b.End() <= s[j].addr
  {
    forall j | 0 <= j < k - 1 ensures s[j].End() <= b.addr {
      assert s[j].End() <= s[k - 1].addr;
    }
  }

  lemma ArenaPlan(s: seq<Block>, k: nat, b: Block, kind: map<Addr, Kind>, size: map<Addr, nat>, frees: seq<Addr>)
    requires Laid(s) && Coalesced(s, -1) && k <= |s| && b.Proper() && b.kind == Used && b.addr !in Addrs(s)
    requires forall j :: 0 <= j < k ==> s[j].End() <= b.addr
    requires forall j :: k <= j < |s| ==> b.End() <= s[j].addr
    requires Stored(s, kind, size) && b.addr in size && size[b.addr] == b.size && Listed(s, frees)
    ensures var t := Splice(s, k, [b], k);
            && k < |t| && t[k] == b && Addrs(t) == InsertAt(Addrs(s), k, b.addr)
            && Laid(t) && Coalesced(t, -1) && Stored(t, kind[b.addr := Used], size) && Listed(t, frees)
            && Placed(s, t, b)
  {
    var t := Splice(s, k, [b], k);
    InsertOk(s, k, b);
    InsertCoalesced(s, k, b);
    PlacedStored(s, k, b, kind, size);
    forall a ensures a in frees <==> IsFree(t, a) {
      PlacedMembers(s, k, b, a);
    }
    forall j | 0 <= j < |s| ensures s[j] != b {
      assert Addrs(s)[j] != b.addr;
    }
  }

  lemma PlacedStored(s: seq<Block>, k: nat, b: Block, kind: map<Addr, Kind>, size: map<Addr, nat>)
    requires k <= |s| && b.kind == Used && b.addr !in Addrs(s) && b.addr != HEAD
    requires Stored(s, kind, size) && b.addr in size && size[b.addr] == b.size
    ensures var t := Splice(s, k, [b], k);
            && k < |t| && t[k] == b && Addrs(t) == InsertAt(Addrs(s), k, b.addr)
            && Stored(t, kind[b.addr := Used], size)
  {
    var t, kind' := Splice(s, k, [b], k), kind[b.addr := Used];
    forall j | 0 <= j < |s| ensures s[j].addr != b.addr {
      assert Addrs(s)[j] != b.addr;
    }
    forall j | 0 <= j < |t|
      ensures t[j].addr in kind' && t[j].addr in size && kind'[t[j].addr] == t[j].kind && size[t[j].addr] == t[j].size
    {
      SpliceAt(s, k, [b], k, j);
    }
  }

  lemma PlacedMembers(s: seq<Block>, k: nat, b: Block, a: Addr)
    requires k <= |s| && b.kind == Used
    ensures IsFree(Splice(s, k, [b], k), a) <==> IsFree(s, a)
  {
    FreeSplice(s, k, [b], k, a);
    FreeOne(b, a);
    assert s == s[..k] + s[k..];
    FreeConcat(s[..k], s[k..], a);
  }

  lemma IsArenaChained(s: seq<Block>, k: nat, b: Block, frees: seq<Addr>, g: seq<Addr>)
    requires k <= |s| && Laid(Splice(s, k, [b], k)) && k < |Splice(s, k, [b], k)|
    requires Rechained(Splice(s, k, [b], k), k, frees, g)
    ensures ArenaChained(s, b, frees, g)
  {
    assert Between(s, k, b) == Splice(s, k, [b], k);
    hide Rechained, Laid;
  }

  lemma ArenaGrown(s: seq<Block>, t: seq<Block>, v: seq<Block>, b: Block)
    requires Placed(s, t, b) && Released(t, v, b)
    ensures Grown(s, v, b)
  {
    forall x: Addr ensures Covers(v, x) <==> Covers(s, x) || b.Holds(x) {
      assert Covers(t, x) <==> Covers(v, x);
    }
    forall u: Block | u.kind == Used ensures u in s <==> u in v {
      assert u != b ==> (u in t <==> u in v);
    }
  }
}
