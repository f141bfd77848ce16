/**
 Whole runs of malloc_add, malloc and free: what the blocks handed out and the free bytes
 are after any number of calls.
 */
module HeapRun {
  import opened Rings
  import opened HeapLayout
  import opened Heap

  datatype Request =
    | Add(start: Addr, bytes: nat)        // malloc_add
    | Alloc(bytes: nat)                   // malloc
    | Release(which: nat)                 // free the pointer that request `which` returned

  /** The memory that a request brings in. */
  predicate Brings(r: Request, x: Addr) {
    r.Add? && r.start <= x < r.start + WholeChunks(r.bytes)
  }

  /** Arenas are aligned, large enough and apart from each other; requests do not overflow. */
  ghost predicate Sound(requests: seq<Request>) {
    && (forall i :: 0 <= i < |requests| ==>
          match requests[i]
          case Add(start, bytes) => start > 0 && Aligned(start) && bytes >= CHUNK
          case Alloc(bytes) => bytes + 2 * HEADER - 1 < TWO_32
          case Release(_) => true)
    && (forall i, j :: 0 <= i < j < |requests| && requests[i].Add? && requests[j].Add? ==>
          requests[i].start + requests[i].bytes <= requests[j].start
          || requests[j].start + requests[j].bytes <= requests[i].start)
  }

  /** The memory that the first k requests bring in. */
  ghost predicate Given(requests: seq<Request>, k: nat, x: Addr) {
    exists i :: 0 <= i < k && i < |requests| && Brings(requests[i], x)
  }

  ghost predicate Bounded(requests: seq<Request>, k: nat, s: seq<Block>) {
    forall x: Addr :: Covers(s, x) <==> Given(requests, k, x)
  }

  /** The live pointers after k requests, each with the request that got it. */
  function Live(requests: seq<Request>, results: seq<Addr>, k: nat): (live: map<Addr, nat>)
    requires k <= |requests| && k <= |results|
    ensures forall p :: p in live ==> live[p] < k && requests[live[p]].Alloc? && p != 0 && results[live[p]] == p
  {
    if k == 0 then map[]
    else
      var before := Live(requests, results, k - 1);
      match requests[k - 1]
      case Add(_, _) => before
      case Alloc(_) => if results[k - 1] == 0 then before else before[results[k - 1] := k - 1]
      case Release(which) => if which < k - 1 then before - {results[which]} else before
  }

  lemma {:induction false} LiveSoFar(requests: seq<Request>, results: seq<Addr>, p: Addr, k: nat)
    requires k <= |requests| && k <= |results|
    ensures Live(requests, results + [p], k) == Live(requests, results, k)
  {
    if k > 0 {
      LiveSoFar(requests, results, p, k - 1);
    }
  }

  ghost predicate InUse(owned: map<Addr, Block>, x: Addr) {
    exists p :: p in owned && owned[p].Holds(x)
  }

  /** A byte that was given to the heap and is in no live block. */
  ghost predicate Unused(requests: seq<Request>, owned: map<Addr, Block>, k: nat, x: Addr) {
    Given(requests, k, x) && !InUse(owned, x)
  }

  ghost predicate RoomAt(requests: seq<Request>, owned: map<Addr, Block>, k: nat, start: Addr, n: nat) {
    forall x: Addr :: start <= x < start + n ==> Unused(requests, owned, k, x)
  }

  predicate Apart(a: Block, b: Block) {
    a.End() <= b.addr || b.End() <= a.addr
  }

  /** The block behind a pointer got by asking for so many bytes. */
  predicate BlockFor(b: Block, p: Addr, bytes: nat) {
    p == b.addr + HEADER && Rounded(bytes) <= b.size < Rounded(bytes) + 2 * HEADER
  }

  /**
   The blocks of the live pointers after k requests: one for each, large enough for its bytes,
   inside the memory given, and apart from each other.
   */
  ghost predicate Owned(requests: seq<Request>, results: seq<Addr>, k: nat, owned: map<Addr, Block>)
    requires k <= |requests| && k <= |results|
  {
    var live := Live(requests, results, k);
    && owned.Keys == live.Keys
    && (forall p :: p in live ==> BlockFor(owned[p], p, requests[live[p]].bytes))
    && (forall x: Addr :: InUse(owned, x) ==> Given(requests, k, x))
    && (forall p, q :: p in owned && q in owned && p != q ==> Apart(owned[p], owned[q]))
  }

  /** What request k is answered: malloc returns NULL exactly when it is asked for nothing or has no room in a row. */
  ghost predicate Answered(requests: seq<Request>, k: nat, result: Addr, owned: map<Addr, Block>)
    requires k < |requests|
  {
    match requests[k]
    case Alloc(bytes) =>
      result == 0 <==> bytes == 0 || forall start: Addr :: !RoomAt(requests, owned, k, start, Rounded(bytes))
    case _ => result == 0
  }

  /** The blocks of pointers that stay live stay as they are. */
  predicate Steady(owned: map<Addr, Block>, after: map<Addr, Block>) {
    forall p :: p in owned && p in after ==> after[p] == owned[p]
  }

  /** The used blocks are those behind the live pointers. */
  ghost predicate Tracks(s: seq<Block>, owned: map<Addr, Block>) {
    && (forall u: Block :: u in s && u.kind == Used ==> u.addr + HEADER in owned && owned[u.addr + HEADER] == u)
    && (forall p: Addr :: p in owned ==> owned[p] in s && owned[p].kind == Used && p == owned[p].addr + HEADER)
  }

  /** How the heap stands after k requests. */
  ghost predicate Standing(requests: seq<Request>, results: seq<Addr>, k: nat, s: seq<Block>, owned: map<Addr, Block>) {
    && k <= |requests| && k <= |results| && Tracks(s, owned) && Bounded(requests, k, s)
    && owned.Keys == Live(requests, results, k).Keys
    && forall p :: p in owned ==> BlockFor(owned[p], p, requests[Live(requests, results, k)[p]].bytes)
  }

  /**
   Serving requests one after another. However the calls are mixed: the blocks behind the live
   pointers are large enough, stay where they are, and lie apart from each other inside the memory
   given; every other byte of that memory is free; and a request is refused only when there is no
   room in a row.
   */
  method Serve(requests: seq<Request>) returns (heap: Heap, results: seq<Addr>, ghost owned: seq<map<Addr, Block>>)
    requires Sound(requests)
    ensures heap.Valid() && |results| == |requests| && |owned| == |requests| + 1
    ensures forall k :: 0 <= k <= |requests| ==> Owned(requests, results, k, owned[k])
    ensures forall k :: 0 <= k < |requests| ==> Answered(requests, k, results[k], owned[k])
    ensures forall k, l :: 0 <= k && l == k + 1 && l <= |requests| ==> Steady(owned[k], owned[l])
    ensures forall x: Addr :: FreeByte(heap.blocks, x) <==> Unused(requests, owned[|requests|], |requests|, x)
  {
    hide *;
    heap := new Heap();
    results, owned := [], [map[]];
    var live: map<Addr, nat> := map[];
    NothingYet(requests);
    while |results| < |requests|
      invariant heap.Valid() && fresh(heap) && |results| <= |requests| && |owned| == |results| + 1
      invariant Standing(requests, results, |results|, heap.blocks, owned[|results|])
      invariant live == Live(requests, results, |results|)
      invariant forall k :: 0 <= k <= |results| ==> Owned(requests, results, k, owned[k])
      invariant forall k :: 0 <= k < |results| ==> Answered(requests, k, results[k], owned[k])
      invariant forall k, l :: 0 <= k && l == k + 1 && l <= |results| ==> Steady(owned[k], owned[l])
    {
      var k := |results|;
      var p: Addr := 0;
      ghost var after;
      p, live, after := ServeOne(heap, requests, results, live, owned[k]);
      AllAccounted(heap, requests, results + [p], k + 1, after);
      OwnedSoFar(requests, results, p, owned);
      results, owned := results + [p], owned + [after];
    }
    AllAccounted(heap, requests, results, |requests|, owned[|requests|]);
  }

  method ServeOne(heap: Heap, requests: seq<Request>, results: seq<Addr>, live: map<Addr, nat>,
                  ghost owned: map<Addr, Block>)
    returns (p: Addr, live': map<Addr, nat>, ghost after: map<Addr, Block>)
    requires Sound(requests) && heap.Valid() && |results| < |requests| && live == Live(requests, results, |results|)
    requires Standing(requests, results, |results|, heap.blocks, owned)
    modifies heap
    ensures heap.Valid() && live' == Live(requests, results + [p], |results| + 1)
    ensures Standing(requests, results + [p], |results| + 1, heap.blocks, after)
    ensures Answered(requests, |results|, p, owned) && Steady(owned, after)
  {
    hide *;
    var k := |results|;
    ghost var s := heap.blocks;
    p, live', after := 0, live, owned;
    StandingMeans(requests, results, k, s, owned);
    match requests[k] {
      case Add(start, bytes) =>
        CanAdd(requests, k, s);
        heap.AddArena(start, bytes);
        Added(requests, k, s, heap.blocks, owned);
        NothingGot(requests, results, k, s, heap.blocks, owned);
      case Alloc(bytes) =>
        CanAlloc(requests, k);
        IsLaid(heap);
        NoRoomMeansNull(requests, k, s, owned, bytes);
        ghost var u;
        p, u := heap.Malloc(bytes);
        SameMemory(requests, k, s, heap.blocks, p, u, Rounded(bytes));
        if p != 0 {
          IsLaid(heap);
          NotYetOwned(s, heap.blocks, u, owned, p, Rounded(bytes));
          Handed(s, heap.blocks, u, owned, p, Rounded(bytes));
          after := owned[p := u];
          live' := live[p := k];
          Got(requests, results, k, s, heap.blocks, owned, p, u);
        } else {
          NothingGot(requests, results, k, s, heap.blocks, owned);
        }
      case Release(which) =>
        if which < k && results[which] in live {
          var ptr := results[which];
          ghost var i := Owner(s, owned, ptr);
          IsLaid(heap);
          heap.FreePointer(ptr, i);
          Returned(requests, k, s, heap.blocks, owned, ptr);
          after := owned - {ptr};
          live' := live - {ptr};
          GaveBack(requests, results, k, s, heap.blocks, owned, which);
        } else {
          NoChange(s);
          NothingBrought(requests, k, s, s);
          NothingGot(requests, results, k, s, heap.blocks, owned);
        }
    }
  }

  lemma IsLaid(heap: Heap)
    requires heap.Valid()
    ensures Laid(heap.blocks)
  {
  }

  lemma NothingYet(requests: seq<Request>)
    ensures Standing(requests, [], 0, [], map[]) && Owned(requests, [], 0, map[]) && Live(requests, [], 0) == map[]
  {
  }

  lemma StandingMeans(requests: seq<Request>, results: seq<Addr>, k: nat, s: seq<Block>, owned: map<Addr, Block>)
    requires Standing(requests, results, k, s, owned)
    ensures k <= |requests| && k <= |results| && Tracks(s, owned) && Bounded(requests, k, s)
    ensures owned.Keys == Live(requests, results, k).Keys
  {
  }

  /** No pointer was handed out or taken back. */
  lemma NothingGot(requests: seq<Request>, results: seq<Addr>, k: nat, s: seq<Block>, t: seq<Block>,
                   owned: map<Addr, Block>)
    requires Standing(requests, results, k, s, owned) && k < |requests| && k == |results|
    requires Tracks(t, owned) && Bounded(requests, k + 1, t)
    requires match requests[k]
             case Release(which) => !(which < k && results[which] in owned)
             case _ => true
    ensures Live(requests, results + [0], k + 1) == Live(requests, results, k)
    ensures Standing(requests, results + [0], k + 1, t, owned) && Steady(owned, owned)
    ensures !requests[k].Alloc? ==> Answered(requests, k, 0, owned)
  {
    hide Tracks, Bounded, BlockFor;
    LiveSoFar(requests, results, 0, k);
    var live := Live(requests, results, k);
    match requests[k]
    case Release(which) =>
      if which < k {
        assert live - {results[which]} == live;
      }
    case _ =>
  }

  /** A pointer was handed out. */
  lemma Got(requests: seq<Request>, results: seq<Addr>, k: nat, s: seq<Block>, t: seq<Block>, owned: map<Addr, Block>,
            p: Addr, u: Block)
    requires Standing(requests, results, k, s, owned) && k < |requests| && k == |results| && requests[k].Alloc?
    requires Tracks(t, owned[p := u]) && Bounded(requests, k + 1, t) && p != 0 && p !in owned
    requires p >= HEADER && Allocated(s, t, u, p - HEADER, Rounded(requests[k].bytes))
    ensures Live(requests, results + [p], k + 1) == Live(requests, results, k)[p := k]
    ensures Standing(requests, results + [p], k + 1, t, owned[p := u]) && Steady(owned, owned[p := u])
  {
    hide Tracks, Bounded, Rounded;
    LiveSoFar(requests, results, p, k);
  }

  /** A pointer was taken back. */
  lemma GaveBack(requests: seq<Request>, results: seq<Addr>, k: nat, s: seq<Block>, t: seq<Block>,
                 owned: map<Addr, Block>,
                 which: nat)
    requires Standing(requests, results, k, s, owned) && k < |requests| && k == |results|
               && requests[k] == Release(which)
    requires which < k && results[which] in owned
    requires Tracks(t, owned - {results[which]}) && Bounded(requests, k + 1, t)
    ensures Live(requests, results + [0], k + 1) == Live(requests, results, k) - {results[which]}
    ensures Standing(requests, results + [0], k + 1, t, owned - {results[which]})
    ensures Steady(owned, owned - {results[which]}) && Answered(requests, k, 0, owned)
  {
    hide Tracks, Bounded, BlockFor;
    LiveSoFar(requests, results, 0, k);
  }

  /** A free run is room in a row. */
  lemma NoRoomMeansNull(requests: seq<Request>, k: nat, s: seq<Block>, owned: map<Addr, Block>, bytes: nat)
    requires Laid(s) && Tracks(s, owned) && Bounded(requests, k, s) && k < |requests| && requests[k] == Alloc(bytes)
    ensures forall start: Addr, n: nat :: FreeRun(s, start, n) <==> RoomAt(requests, owned, k, start, n)
    ensures forall p: Addr :: (p == 0 <==> bytes == 0 || forall start :: !FreeRun(s, start, Rounded(bytes))) ==>
              Answered(requests, k, p, owned)
  {
    FreeMeansUnused(s, requests, k, owned);
    hide FreeByte, Unused, Laid, Tracks, Bounded, Rounded;
    forall start: Addr, n: nat ensures FreeRun(s, start, n) <==> RoomAt(requests, owned, k, start, n) {
    }
  }

  lemma FreeMeansUnused(s: seq<Block>, requests: seq<Request>, k: nat, owned: map<Addr, Block>)
    requires Laid(s) && Tracks(s, owned) && Bounded(requests, k, s)
    ensures forall x: Addr :: FreeByte(s, x) <==> Unused(requests, owned, k, x)
    ensures forall x: Addr :: InUse(owned, x) ==> Given(requests, k, x)
  {
    hide Given, Laid;
    forall x: Addr
      ensures FreeByte(s, x) <==> Unused(requests, owned, k, x)
      ensures InUse(owned, x) ==> Given(requests, k, x)
    {
      FreeOrUsed(s, x);
      InUseIffHeld(s, owned, x);
      assert Covers(s, x) <==> Given(requests, k, x);
    }
  }

  /** What malloc hands out was free, and so nobody's. */
  lemma NotYetOwned(s: seq<Block>, t: seq<Block>, u: Block, owned: map<Addr, Block>, p: Addr, n: nat)
    requires Laid(s) && Tracks(s, owned) && p >= HEADER && Allocated(s, t, u, p - HEADER, n) && n > 0
    ensures p !in owned
  {
    assert FreeByte(s, u.addr);
    FreeOrUsed(s, u.addr);
    hide Laid, FreeRun, SameUsed, SameBytes;
    if p in owned {
      HoldsItsStart(s, owned, p);
    }
  }

  lemma HoldsItsStart(s: seq<Block>, owned: map<Addr, Block>, p: Addr)
    requires Laid(s) && Tracks(s, owned) && p in owned
    ensures owned[p] in s && owned[p].kind == Used && p == owned[p].addr + HEADER && owned[p].Holds(owned[p].addr)
  {
    var i := Owner(s, owned, p);
    assert s[i].Proper();
  }

  lemma OwnedSoFar(requests: seq<Request>, results: seq<Addr>, p: Addr, owned: seq<map<Addr, Block>>)
    requires |results| <= |requests| && |owned| == |results| + 1
    requires forall k :: 0 <= k <= |results| ==> Owned(requests, results, k, owned[k])
    ensures forall k :: 0 <= k <= |results| ==> Owned(requests, results + [p], k, owned[k])
  {
    forall k | 0 <= k <= |results| ensures Owned(requests, results + [p], k, owned[k]) {
      assert Owned(requests, results, k, owned[k]);
      LiveSoFar(requests, results, p, k);
    }
  }

  lemma CanAdd(requests: seq<Request>, k: nat, s: seq<Block>)
    requires Sound(requests) && k < |requests| && requests[k].Add? && Bounded(requests, k, s)
    ensures var r := requests[k];
            && r.start > 0 && Aligned(r.start) && r.bytes >= CHUNK
            && forall x: Addr :: r.start <= x < r.start + r.bytes ==> !Covers(s, x)
  {
    var r := requests[k];
    forall x: Addr | r.start <= x < r.start + r.bytes ensures !Given(requests, k, x) {
      forall i | 0 <= i < k ensures !Brings(requests[i], x) {
      }
    }
  }

  lemma CanAlloc(requests: seq<Request>, k: nat)
    requires Sound(requests) && k < |requests| && requests[k].Alloc?
    ensures requests[k].bytes + 2 * HEADER - 1 < TWO_32
  {
  }

  lemma Added(requests: seq<Request>, k: nat, s: seq<Block>, t: seq<Block>, owned: map<Addr, Block>)
    requires k < |requests| && requests[k].Add? && Bounded(requests, k, s) && Tracks(s, owned)
    requires Grown(s, t, Block(requests[k].start, WholeChunks(requests[k].bytes), Used))
    ensures Bounded(requests, k + 1, t) && Tracks(t, owned)
  {
    hide Covers, WholeChunks;
    forall x: Addr ensures Covers(t, x) <==> Given(requests, k + 1, x) {
      GivenOneMore(requests, k, x);
      assert Covers(s, x) <==> Given(requests, k, x);
    }
  }

  lemma GivenOneMore(requests: seq<Request>, k: nat, x: Addr)
    requires k < |requests|
    ensures Given(requests, k + 1, x) <==> Given(requests, k, x) || Brings(requests[k], x)
  {
  }

  lemma NothingBrought(requests: seq<Request>, k: nat, s: seq<Block>, t: seq<Block>)
    requires k < |requests| && !requests[k].Add? && Bounded(requests, k, s) && SameBytes(s, t)
    ensures Bounded(requests, k + 1, t)
  {
    hide Covers;
    forall x: Addr ensures Covers(t, x) <==> Given(requests, k + 1, x) {
      GivenOneMore(requests, k, x);
      assert Covers(s, x) <==> Covers(t, x);
    }
  }

  lemma NoChange(s: seq<Block>)
    ensures SameBytes(s, s)
  {
  }

  lemma SameMemory(requests: seq<Request>, k: nat, s: seq<Block>, t: seq<Block>, p: Addr, u: Block, n: nat)
    requires k < |requests| && !requests[k].Add? && Bounded(requests, k, s)
    requires if p == 0 then t == s else p >= HEADER && Allocated(s, t, u, p - HEADER, n)
    ensures Bounded(requests, k + 1, t)
  {
    hide Bounded;
    if p == 0 {
      hide Given;
      assert SameBytes(s, t);
    }
    NothingBrought(requests, k, s, t);
  }

  /** malloc hands out a block that no one else has. */
  lemma Handed(s: seq<Block>, t: seq<Block>, u: Block, owned: map<Addr, Block>, p: Addr, n: nat)
    requires Laid(t) && Tracks(s, owned) && p >= HEADER && Allocated(s, t, u, p - HEADER, n)
    ensures Tracks(t, owned[p := u])
  {
    hide SameBytes, FreeRun, Aligned;
    forall v: Block | v in t && v.kind == Used && v != u ensures v.addr != u.addr {
      DistinctBlocks(t, u, v);
    }
    forall q: Addr | q in owned && q != p ensures owned[q] in t && owned[q] != u {
    }
  }

  lemma DistinctBlocks(s: seq<Block>, a: Block, b: Block)
    requires Laid(s) && a in s && b in s && a != b
    ensures a.addr != b.addr && Apart(a, b)
  {
    var i :| 0 <= i < |s| && s[i] == a;
    var j :| 0 <= j < |s| && s[j] == b;
    AddressesDiffer(s, i, j);
    if i < j {
      assert s[i].End() <= s[j].addr;
    } else {
      assert s[j].End() <= s[i].addr;
    }
  }

  lemma Owner(s: seq<Block>, owned: map<Addr, Block>, p: Addr) returns (i: nat)
    requires Tracks(s, owned) && p in owned
    ensures i < |s| && s[i] == owned[p] && s[i].kind == Used && p == s[i].addr + HEADER
  {
    i :| 0 <= i < |s| && s[i] == owned[p];
  }

  /** free takes back that block and no other. */
  lemma Returned(requests: seq<Request>, k: nat, s: seq<Block>, t: seq<Block>, owned: map<Addr, Block>, p: Addr)
    requires k < |requests| && !requests[k].Add? && Bounded(requests, k, s)
    requires Laid(s) && Tracks(s, owned) && p in owned && Released(s, t, owned[p])
    ensures Bounded(requests, k + 1, t) && Tracks(t, owned - {p})
  {
    assert SameBytes(s, t);
    hide *;
    NothingBrought(requests, k, s, t);
    ReturnedOne(s, t, owned, p);
  }

  lemma ReturnedOne(s: seq<Block>, t: seq<Block>, owned: map<Addr, Block>, p: Addr)
    requires Laid(s) && Tracks(s, owned) && p in owned && Released(s, t, owned[p])
    ensures Tracks(t, owned - {p})
  {
    hide SameBytes, Laid, Aligned, Apart;
    forall v: Block | v in t && v.kind == Used ensures v in s && v.addr + HEADER != p {
      DistinctBlocks(s, v, owned[p]);
    }
    hide SameUsed;
  }

  lemma AllAccounted(heap: Heap, requests: seq<Request>, results: seq<Addr>, k: nat, owned: map<Addr, Block>)
    requires heap.Valid() && Standing(requests, results, k, heap.blocks, owned)
    ensures Owned(requests, results, k, owned)
    ensures forall x: Addr :: FreeByte(heap.blocks, x) <==> Unused(requests, owned, k, x)
  {
    hide *;
    StandingMeans(requests, results, k, heap.blocks, owned);
    IsLaid(heap);
    FreeMeansUnused(heap.blocks, requests, k, owned);
    AreApart(heap.blocks, owned);
    AreOwned(requests, results, k, heap.blocks, owned);
  }

  lemma AreApart(s: seq<Block>, owned: map<Addr, Block>)
    requires Laid(s) && Tracks(s, owned)
    ensures forall p, q :: p in owned && q in owned && p != q ==> Apart(owned[p], owned[q])
  {
    hide Laid;
    forall p, q | p in owned && q in owned && p != q ensures Apart(owned[p], owned[q]) {
      DistinctBlocks(s, owned[p], owned[q]);
    }
  }

  lemma AreOwned(requests: seq<Request>, results: seq<Addr>, k: nat, s: seq<Block>, owned: map<Addr, Block>)
    requires Standing(requests, results, k, s, owned)
    requires forall p, q :: p in owned && q in owned && p != q ==> Apart(owned[p], owned[q])
    requires forall x: Addr :: InUse(owned, x) ==> Given(requests, k, x)
    ensures Owned(requests, results, k, owned)
  {
    hide Tracks, Bounded, Apart, InUse, Given, BlockFor;
  }

  lemma InUseIffHeld(s: seq<Block>, owned: map<Addr, Block>, x: Addr)
    requires Tracks(s, owned)
    ensures InUse(owned, x) <==> exists u: Block :: u in s && u.kind == Used && u.Holds(x)
    ensures InUse(owned, x) ==> Covers(s, x)
  {
    if InUse(owned, x) {
      var p :| p in owned && owned[p].Holds(x);
      var i := Owner(s, owned, p);
      assert s[i].Holds(x);
    }
    if u: Block :| u in s && u.kind == Used && u.Holds(x) {
      assert owned[u.addr + HEADER] == u;
    }
  }
}
