/**
 The blocks of the allocator of malloc.c as they lie in memory, and what splitting
 and coalescing them means byte by byte.
 */
module HeapLayout {
  import opened Rings

  const HEADER := 16           // sizeof(struct arena_header), and the unit of rounding
  const CHUNK := 65536         // _KLIBC_MALLOC_CHUNK_SIZE

  predicate Aligned(n: nat) {
    n % HEADER == 0
  }

  lemma AlignedSum(a: nat, b: nat)
    requires Aligned(a) && Aligned(b)
    ensures Aligned(a + b) && (b <= a ==> Aligned(a - b))
  {
  }

  datatype Kind = Used | Free | Head

  /** A block, from its header on. */
  datatype Block = Block(addr: Addr, size: nat, kind: Kind) {
    predicate Proper() {
      kind != Head && addr > 0 && Aligned(addr) && Aligned(size) && size >= 2 * HEADER
    }

    function End(): Addr {
      addr + size
    }

    predicate Holds(x: Addr) {
      addr <= x < End()
    }
  }

  /** Proper blocks in order of address, none overlapping another. */
  predicate Laid(s: seq<Block>) {
    && (forall i :: 0 <= i < |s| ==> s[i].Proper())
    && (forall i, j :: 0 <= i < j < |s| ==> s[i].End() <= s[j].addr)
  }

  /** Two free blocks with nothing in between. */
  predicate Mergeable(a: Block, b: Block) {
    a.kind == Free && b.kind == Free && a.End() == b.addr
  }

  /** Contiguous free blocks never coexist, except perhaps at position `but` and the one after. */
  ghost predicate Coalesced(s: seq<Block>, but: int) {
    forall i, j :: 0 <= i && j == i + 1 && j < |s| && i != but ==> !Mergeable(s[i], s[j])
  }

  function Addrs(s: seq<Block>): (a: seq<Addr>)
    ensures |a| == |s| && forall i :: 0 <= i < |s| ==> a[i] == s[i].addr
  {
    seq(|s|, i requires 0 <= i < |s| => s[i].addr)
  }

  ghost predicate Covers(s: seq<Block>, x: Addr) {
    exists i :: 0 <= i < |s| && s[i].Holds(x)
  }

  ghost predicate FreeByte(s: seq<Block>, x: Addr) {
    exists i :: 0 <= i < |s| && s[i].kind == Free && s[i].Holds(x)
  }

  /** n free bytes in a row. */
  ghost predicate FreeRun(s: seq<Block>, start: Addr, n: nat) {
    forall x: Addr :: start <= x < start + n ==> FreeByte(s, x)
  }

  /** Every used block is where it was, as it was; `b` is the one exception, on either side. */
  ghost predicate SameUsed(s: seq<Block>, t: seq<Block>, b: Block) {
    && (forall u: Block :: u in s && u.kind == Used && u != b ==> u in t)
    && (forall u: Block :: u in t && u.kind == Used && u != b ==> u in s)
  }

  ghost predicate SameBytes(s: seq<Block>, t: seq<Block>) {
    forall x: Addr :: Covers(s, x) <==> Covers(t, x)
  }

  // ----- replacing one block by others

  function Splice(s: seq<Block>, i: nat, mid: seq<Block>, j: nat): seq<Block>
    requires i <= j <= |s|
  {
    s[..i] + mid + s[j..]
  }

  /** Blocks i up to j give way to blocks that keep within their bounds. */
  lemma SpliceLaid(s: seq<Block>, i: nat, mid: seq<Block>, j: nat, lo: Addr, hi: Addr)
    requires Laid(s) && Laid(mid) && i <= j <= |s|
    requires forall k :: 0 <= k < |mid| ==> lo <= mid[k].addr && mid[k].End() <= hi
    requires forall k :: 0 <= k < i ==> s[k].End() <= lo
    requires forall k :: j <= k < |s| ==> hi <= s[k].addr
    ensures Laid(Splice(s, i, mid, j))
  {
    var t := Splice(s, i, mid, j);
    forall a, b | 0 <= a < b < |t| ensures t[a].End() <= t[b].addr {
      SpliceAt(s, i, mid, j, a);
      SpliceAt(s, i, mid, j, b);
    }
    forall a | 0 <= a < |t| ensures t[a].Proper() {
      SpliceAt(s, i, mid, j, a);
    }
  }

  lemma SpliceAt(s: seq<Block>, i: nat, mid: seq<Block>, j: nat, k: nat)
    requires i <= j <= |s| && k < |Splice(s, i, mid, j)|
    ensures Splice(s, i, mid, j)[k] ==
              if k < i then s[k] else if k < i + |mid| then mid[k - i] else s[k - i - |mid| + j]
  {
  }

  /** If the new blocks cover the same bytes, so does the whole. */
  lemma SpliceBytes(s: seq<Block>, i: nat, mid: seq<Block>, j: nat, x: Addr)
    requires i <= j <= |s| && (Covers(s[i..j], x) <==> Covers(mid, x))
    ensures Covers(s, x) <==> Covers(Splice(s, i, mid, j), x)
  {
    var t := Splice(s, i, mid, j);
    if Covers(s, x) {
      var k :| 0 <= k < |s| && s[k].Holds(x);
      if k < i {
        assert t[k].Holds(x);
      } else if k >= j {
        assert t[k - j + i + |mid|] == s[k];
      } else {
        assert s[i..j][k - i].Holds(x);
        var m :| 0 <= m < |mid| && mid[m].Holds(x);
        assert t[i + m] == mid[m];
      }
    }
    if Covers(t, x) {
      var k :| 0 <= k < |t| && t[k].Holds(x);
      SpliceAt(s, i, mid, j, k);
      if i <= k < i + |mid| {
        assert mid[k - i].Holds(x);
        var m :| 0 <= m < |s[i..j]| && s[i..j][m].Holds(x);
        assert s[i + m].Holds(x);
      }
    }
  }

  /** Used blocks other than those replaced stay. */
  lemma SpliceUsed(s: seq<Block>, i: nat, mid: seq<Block>, j: nat, u: Block)
    requires i <= j <= |s| && (u in s[i..j] <==> u in mid)
    ensures u in s <==> u in Splice(s, i, mid, j)
  {
    assert s == s[..i] + s[i..j] + s[j..];
  }

  // ----- taking a free block

  function SplitBlock(b: Block, n: nat): seq<Block>
    requires n <= b.size
  {
    [Block(b.addr, n, Used), Block(b.addr + n, b.size - n, Free)]
  }

  /** Split off the first n bytes of free block i and use them. */
  function Split(s: seq<Block>, i: nat, n: nat): seq<Block>
    requires i < |s| && n <= s[i].size
  {
    Splice(s, i, SplitBlock(s[i], n), i + 1)
  }

  lemma SplitOk(s: seq<Block>, i: nat, n: nat)
    requires Laid(s) && Coalesced(s, -1) && i < |s| && s[i].kind == Free
    requires Aligned(n) && 2 * HEADER <= n && n + 2 * HEADER <= s[i].size
    ensures Laid(Split(s, i, n)) && Coalesced(Split(s, i, n), -1)
    ensures SameBytes(s, Split(s, i, n)) && SameUsed(s, Split(s, i, n), Block(s[i].addr, n, Used))
    ensures s[i].addr + n !in Addrs(s)
  {
    var b := s[i];
    var mid, t := SplitBlock(b, n), Split(s, i, n);
    AlignedSum(b.addr, n);
    AlignedSum(b.size, n);
    hide Aligned;
    SpliceLaid(s, i, mid, i + 1, b.addr, b.End());
    forall x: Addr ensures Covers(s, x) <==> Covers(t, x) {
      SplitBytes(b, n, x);
      assert s[i..i + 1] == [b];
      SpliceBytes(s, i, mid, i + 1, x);
    }
    forall u: Block | u.kind == Used && u != mid[0] ensures u in s <==> u in t {
      assert s[i..i + 1] == [b];
      SpliceUsed(s, i, mid, i + 1, u);
    }
    SplitCoalesced(s, i, n);
    NotAnAddress(s, i, s[i].addr + n);
  }

  lemma SplitBytes(b: Block, n: nat, x: Addr)
    requires n <= b.size
    ensures Covers([b], x) <==> Covers(SplitBlock(b, n), x)
  {
    var mid := SplitBlock(b, n);
    assert [b][0] == b;
    if b.Holds(x) {
      assert mid[0].Holds(x) || mid[1].Holds(x);
    }
  }

  lemma SplitCoalesced(s: seq<Block>, i: nat, n: nat)
    requires Coalesced(s, -1) && i < |s| && s[i].kind == Free && n <= s[i].size
    ensures Coalesced(Split(s, i, n), -1)
  {
    var mid, t := SplitBlock(s[i], n), Split(s, i, n);
    forall k, l | 0 <= k && l == k + 1 && l < |t| ensures !Mergeable(t[k], t[l]) {
      SpliceAt(s, i, mid, i + 1, k);
      SpliceAt(s, i, mid, i + 1, l);
      if k > i {
        assert !Mergeable(s[k - 1], s[k]);
      } else if l < i {
        assert !Mergeable(s[k], s[l]);
      }
    }
  }

  /** No block starts inside another. */
  lemma NotAnAddress(s: seq<Block>, i: nat, a: Addr)
    requires Laid(s) && i < |s| && s[i].addr < a < s[i].End()
    ensures a !in Addrs(s)
  {
    forall k | 0 <= k < |s| ensures s[k].addr != a {
      if k < i {
        assert s[k].End() <= s[i].addr;
      } else if k > i {
        assert s[i].End() <= s[k].addr;
      }
    }
  }

  /** Use block i as a whole. */
  lemma TakeOk(s: seq<Block>, i: nat)
    requires Laid(s) && Coalesced(s, -1) && i < |s|
    ensures var t := s[i := s[i].(kind := Used)];
            Laid(t) && Coalesced(t, -1) && SameBytes(s, t) && Addrs(t) == Addrs(s)
            && (s[i].kind == Free ==> SameUsed(s, t, s[i].(kind := Used)))
  {
    var t := s[i := s[i].(kind := Used)];
    ChangeKind(s, i, Used);
    forall k, l | 0 <= k && l == k + 1 && l < |t| ensures !Mergeable(t[k], t[l]) {
      assert !Mergeable(s[k], s[l]);
    }
  }

  lemma ChangeKind(s: seq<Block>, i: nat, kind: Kind)
    requires Laid(s) && i < |s| && kind != Head
    ensures var t := s[i := s[i].(kind := kind)];
            && Laid(t) && SameBytes(s, t) && Addrs(t) == Addrs(s)
            && forall u: Block :: u != s[i] && u != t[i] ==> (u in s <==> u in t)
  {
    var t := s[i := s[i].(kind := kind)];
    forall x: Addr ensures Covers(s, x) <==> Covers(t, x) {
      if Covers(s, x) {
        var k :| 0 <= k < |s| && s[k].Holds(x);
        assert t[k].Holds(x);
      }
      if Covers(t, x) {
        var k :| 0 <= k < |t| && t[k].Holds(x);
        assert s[k].Holds(x);
      }
    }
    forall u: Block | u != s[i] && u != t[i] ensures u in s <==> u in t {
      if u in s {
        var k :| 0 <= k < |s| && s[k] == u;
        assert t[k] == u;
      }
      if u in t {
        var k :| 0 <= k < |t| && t[k] == u;
        assert s[k] == u;
      }
    }
  }

  // ----- freeing a block

  /** Block i becomes free; its left neighbour was not mergeable with it. */
  lemma MarkFreeOk(s: seq<Block>, i: nat)
    requires Laid(s) && i < |s| && Coalesced(s[i := s[i].(kind := Used)], -1)
    requires i > 0 ==> !Mergeable(s[i - 1], s[i].(kind := Free))
    ensures var t := s[i := s[i].(kind := Free)];
            Laid(t) && Coalesced(t, i) && SameBytes(s, t) && Addrs(t) == Addrs(s) && SameUsed(s, t, s[i])
  {
    var u, t := s[i := s[i].(kind := Used)], s[i := s[i].(kind := Free)];
    ChangeKind(s, i, Free);
    forall k, l | 0 <= k && l == k + 1 && l < |t| && k != i ensures !Mergeable(t[k], t[l]) {
      assert !Mergeable(u[k], u[l]);
    }
  }

  function MergedBlock(a: Block, b: Block): Block {
    Block(a.addr, a.size + b.size, Free)
  }

  /** Blocks i and i + 1 become one free block. */
  function Merge(s: seq<Block>, i: nat): seq<Block>
    requires i + 1 < |s|
  {
    Splice(s, i, [MergedBlock(s[i], s[i + 1])], i + 2)
  }

  lemma MergeLaid(s: seq<Block>, i: nat)
    requires Laid(s) && i + 1 < |s| && s[i].End() == s[i + 1].addr
    ensures Laid(Merge(s, i)) && SameBytes(s, Merge(s, i))
    ensures forall u: Block :: u.kind == Used && u != s[i] && u != s[i + 1] ==> (u in s <==> u in Merge(s, i))
  {
    var b := MergedBlock(s[i], s[i + 1]);
    AlignedSum(s[i].size, s[i + 1].size);
    hide Aligned;
    SpliceLaid(s, i, [b], i + 2, b.addr, b.End());
    assert s[i..i + 2] == [s[i], s[i + 1]];
    assert s[i].Proper() && s[i + 1].Proper();
    forall x: Addr ensures Covers(s, x) <==> Covers(Merge(s, i), x) {
      MergedBytes(s[i], s[i + 1], x);
      SpliceBytes(s, i, [b], i + 2, x);
    }
    forall u: Block | u.kind == Used && u != s[i] && u != s[i + 1] ensures u in s <==> u in Merge(s, i) {
      SpliceUsed(s, i, [b], i + 2, u);
    }
  }

  lemma MergedBytes(a: Block, b: Block, x: Addr)
    requires a.End() == b.addr && a.size >= 0 && b.size >= 0
    ensures Covers([a, b], x) <==> Covers([MergedBlock(a, b)], x)
  {
    assert [a, b][0] == a && [a, b][1] == b && [MergedBlock(a, b)][0] == MergedBlock(a, b);
    if MergedBlock(a, b).Holds(x) {
      assert [a, b][0].Holds(x) || [a, b][1].Holds(x);
    }
  }

  /** A block is freed into its free left neighbour. */
  lemma MergeLeftOk(s: seq<Block>, i: nat)
    requires Laid(s) && 0 < i < |s| && Coalesced(s[i := s[i].(kind := Used)], -1)
    requires s[i - 1].kind == Free && s[i - 1].End() == s[i].addr
    ensures var t := Merge(s, i - 1);
            Laid(t) && Coalesced(t, i - 1) && SameBytes(s, t) && SameUsed(s, t, s[i])
  {
    var u, t, b := s[i := s[i].(kind := Used)], Merge(s, i - 1), MergedBlock(s[i - 1], s[i]);
    MergeLaid(s, i - 1);
    hide Laid, SameBytes;
    forall k, l | 0 <= k && l == k + 1 && l < |t| && k != i - 1 ensures !Mergeable(t[k], t[l]) {
      SpliceAt(s, i - 1, [b], i + 1, k);
      SpliceAt(s, i - 1, [b], i + 1, l);
      hide Merge, Splice;
      if l <= i - 1 {
        assert !Mergeable(u[k], u[l]);
      } else {
        assert !Mergeable(u[k + 1], u[l + 1]);
      }
    }
  }

  /** Two free blocks are merged where that was the only thing left to do. */
  lemma MergeRightOk(s: seq<Block>, i: nat)
    requires Laid(s) && i + 1 < |s| && Coalesced(s, i) && Mergeable(s[i], s[i + 1])
    ensures var t := Merge(s, i);
            Laid(t) && Coalesced(t, -1) && SameBytes(s, t)
            && forall u: Block :: u.kind == Used ==> (u in s <==> u in t)
  {
    var t, b := Merge(s, i), MergedBlock(s[i], s[i + 1]);
    MergeLaid(s, i);
    forall k, l | 0 <= k && l == k + 1 && l < |t| ensures !Mergeable(t[k], t[l]) {
      SpliceAt(s, i, [b], i + 2, k);
      SpliceAt(s, i, [b], i + 2, l);
      if l <= i {
        assert !Mergeable(s[k], s[l]);
      } else {
        assert !Mergeable(s[k + 1], s[l + 1]);
      }
    }
    UsedElsewhere(s, i);
  }

  /** A used block is neither of two free ones. */
  lemma UsedElsewhere(s: seq<Block>, i: nat)
    requires i + 1 < |s| && s[i].kind == Free && s[i + 1].kind == Free
    ensures forall u: Block :: u.kind == Used ==> u != s[i] && u != s[i + 1]
  {
  }

  /** Nothing left to merge. */
  lemma NothingToMerge(s: seq<Block>, i: nat)
    requires Coalesced(s, i) && (i + 1 < |s| ==> !Mergeable(s[i], s[i + 1]))
    ensures Coalesced(s, -1)
  {
  }

  // ----- new memory

  /** A new block between two others. */
  lemma InsertOk(s: seq<Block>, i: nat, b: Block)
    requires Laid(s) && i <= |s| && b.Proper()
    requires forall k :: 0 <= k < i ==> s[k].End() <= b.addr
    requires forall k :: i <= k < |s| ==> b.End() <= s[k].addr
    ensures Laid(Splice(s, i, [b], i))
    ensures forall x: Addr :: Covers(Splice(s, i, [b], i), x) <==> Covers(s, x) || b.Holds(x)
    ensures forall u: Block :: u != b ==> (u in s <==> u in Splice(s, i, [b], i))
  {
    var t := Splice(s, i, [b], i);
    SpliceLaid(s, i, [b], i, b.addr, b.End());
    forall x: Addr ensures Covers(t, x) <==> Covers(s, x) || b.Holds(x) {
      if Covers(t, x) {
        var k :| 0 <= k < |t| && t[k].Holds(x);
        SpliceAt(s, i, [b], i, k);
      }
      if b.Holds(x) {
        assert t[i].Holds(x);
      }
      if Covers(s, x) {
        var k :| 0 <= k < |s| && s[k].Holds(x);
        assert t[if k < i then k else k + 1] == s[k];
      }
    }
    forall u: Block | u != b ensures u in s <==> u in t {
      SpliceUsed(s, i, [b], i, u);
    }
  }

  lemma InsertCoalesced(s: seq<Block>, i: nat, b: Block)
    requires Coalesced(s, -1) && i <= |s| && b.kind == Used
    ensures Coalesced(Splice(s, i, [b], i), -1)
  {
    var t := Splice(s, i, [b], i);
    forall k, l | 0 <= k && l == k + 1 && l < |t| ensures !Mergeable(t[k], t[l]) {
      SpliceAt(s, i, [b], i, k);
      SpliceAt(s, i, [b], i, l);
      if k > i {
        assert !Mergeable(s[k - 1], s[k]);
      } else if l < i {
        assert !Mergeable(s[k], s[l]);
      }
    }
  }

  // ----- a run of free bytes lies in one block

  lemma NextFreeByte(s: seq<Block>, i: nat, x: Addr)
    requires Laid(s) && Coalesced(s, -1) && i < |s| && s[i].kind == Free && s[i].Holds(x) && FreeByte(s, x + 1)
    ensures s[i].Holds(x + 1)
  {
    var k :| 0 <= k < |s| && s[k].kind == Free && s[k].Holds(x + 1);
    if k > i {
      NextInLine(s, i, k);
    }
  }

  /** A later block that does not start beyond the end of block i is the next one, with nothing in between. */
  lemma NextInLine(s: seq<Block>, i: nat, k: nat)
    requires Laid(s) && i < k < |s| && s[k].addr <= s[i].End()
    ensures k == i + 1 && s[k].addr == s[i].End()
  {
    if k > i + 1 {
      BlockBetween(s, i, k);
    }
  }

  lemma BlockBetween(s: seq<Block>, i: nat, k: nat)
    requires Laid(s) && i + 1 < k < |s|
    ensures s[i].End() < s[k].addr
  {
    assert s[i].End() <= s[i + 1].addr && s[i + 1].End() <= s[k].addr && s[i + 1].Proper();
  }

  /** As contiguous free blocks never coexist, n free bytes in a row are in one block. */
  lemma {:induction false} RunInOneBlock(s: seq<Block>, start: Addr, n: nat) returns (i: nat)
    requires Laid(s) && Coalesced(s, -1) && n > 0 && FreeRun(s, start, n)
    ensures i < |s| && s[i].kind == Free && s[i].addr <= start && start + n <= s[i].End()
    decreases n
  {
    assert FreeByte(s, start + n - 1);
    if n == 1 {
      var k :| 0 <= k < |s| && s[k].kind == Free && s[k].Holds(start);
      i := k;
    } else {
      i := RunInOneBlock(s, start, n - 1);
      NextFreeByte(s, i, start + n - 2);
    }
  }

  /** And a free block is a run of free bytes. */
  lemma BlockIsRun(s: seq<Block>, i: nat, n: nat)
    requires i < |s| && s[i].kind == Free && n <= s[i].size
    ensures FreeRun(s, s[i].addr, n)
  {
    forall x: Addr | s[i].addr <= x < s[i].addr + n ensures FreeByte(s, x) {
      assert s[i].Holds(x);
    }
  }

  /** The block that results from using the first n bytes of a free block, or all of it. */
  function Taken(b: Block, n: nat): Block {
    if b.size >= n + 2 * HEADER then Block(b.addr, n, Used) else b.(kind := Used)
  }

  /** What taking n bytes from free block i comes to. */
  lemma TakenOk(s: seq<Block>, i: nat, n: nat, t: seq<Block>)
    requires Laid(s) && Coalesced(s, -1) && i < |s| && s[i].kind == Free && Aligned(n) && 2 * HEADER <= n <= s[i].size
    requires t == if s[i].size >= n + 2 * HEADER then Split(s, i, n) else s[i := s[i].(kind := Used)]
    ensures var u := Taken(s[i], n);
            && u in t && u.kind == Used && n <= u.size < n + 2 * HEADER && u.addr == s[i].addr
            && SameBytes(s, t) && SameUsed(s, t, u) && FreeRun(s, u.addr, u.size)
  {
    BlockIsRun(s, i, Taken(s[i], n).size);
    if s[i].size >= n + 2 * HEADER {
      SplitOk(s, i, n);
      assert t[i] == Taken(s[i], n);
    } else {
      TakeOk(s, i);
      assert t[i] == Taken(s[i], n);
    }
  }

  /** Every covered byte is either free or in a used block, never both. */
  lemma FreeOrUsed(s: seq<Block>, x: Addr)
    requires Laid(s)
    ensures FreeByte(s, x) <==> Covers(s, x) && forall u: Block :: u in s && u.kind == Used ==> !u.Holds(x)
  {
    if FreeByte(s, x) {
      var i :| 0 <= i < |s| && s[i].kind == Free && s[i].Holds(x);
      forall u: Block | u in s && u.kind == Used ensures !u.Holds(x) {
        var j :| 0 <= j < |s| && s[j] == u;
        if i < j {
          assert s[i].End() <= s[j].addr;
        } else {
          assert s[j].End() <= s[i].addr;
        }
      }
    }
    if Covers(s, x) && forall u: Block :: u in s && u.kind == Used ==> !u.Holds(x) {
      var i :| 0 <= i < |s| && s[i].Holds(x);
      assert s[i].Proper() && s[i].kind != Used;
    }
  }
}
