/**
 The directory window of fat.c: eight entries of an unbounded directory, held through an index
 table that is permuted instead of moving the entries. ScanDirectory reads the whole directory,
 in the order it has on disk, each time the window has to move.
 */
module DirectoryWindow {
  import opened EntryOrder

  /** The first n places of a table name the slots below n, each once. */
  ghost predicate Places(table: seq<nat>, n: nat) {
    && n <= |table|
    && (forall i :: 0 <= i < n ==> table[i] < n)
    && (forall i, j :: 0 <= i < j < n ==> table[i] != table[j])
  }

  /** The entries that the first n places of a table lead to. */
  ghost function Through(slots: seq<Entry>, table: seq<nat>, n: nat): (r: seq<Entry>)
    requires Places(table, n) && n <= |slots|
    ensures |r| == n
  {
    seq(n, i requires 0 <= i < n => slots[table[i]])
  }

  lemma SwapKeepsPlaces(t: seq<nat>, n: nat, i: nat, j: nat)
    requires Places(t, n) && i < n && j < n
    ensures Places(t[i := t[j]][j := t[i]], n)
  {
  }

  /** A buffer of entries with the table that puts them in order. */
  class Buffer {
    const slots: array<Entry>           // DirEntry, t_DirEntry
    const table: array<nat>             // sort_table, t_sort_table

    constructor ()
      ensures fresh(slots) && fresh(table) && Formed()
    {
      slots := new Entry[PAGE](_ => Entry(0, 0));
      table := new nat[PAGE](_ => 0);
    }

    predicate Formed() {
      slots.Length == PAGE && table.Length == PAGE
    }

    ghost predicate Placed(n: nat)
      reads table
    {
      Formed() && Places(table[..], n)
    }

    ghost function View(n: nat): (r: seq<Entry>)
      reads table, slots
      requires Placed(n)
      ensures |r| == n
    {
      Through(slots[..], table[..], n)
    }

    /** The places of the table from one on. */
    ghost function Rest(n: nat): seq<nat>
      reads table
    {
      if n <= table.Length then table[n..] else []
    }

    /** The entry that a place leads to. */
    function Peek(ghost n: nat, i: nat): (e: Entry)
      reads table, slots
      requires Placed(n) && i < n
      ensures e == View(n)[i]
    {
      slots[table[i]]
    }

    /** Exchanges two places. */
    method Swap(n: nat, i: nat, j: nat)
      requires Placed(n) && i < n && j < n
      modifies table
      ensures Placed(n) && Rest(n) == old(Rest(n))
      ensures View(n) == old(View(n))[i := old(View(n))[j]][j := old(View(n))[i]]
    {
      SwapKeepsPlaces(table[..], n, i, j);
      table[i], table[j] := table[j], table[i];
      assert table[..] == old(table[..])[i := old(table[j])][j := old(table[i])];
    }

    /** Overwrites the entry that a place leads to. */
    method Put(n: nat, i: nat, x: Entry)
      requires Placed(n) && i < n
      modifies slots
      ensures Placed(n) && View(n) == old(View(n))[i := x]
    {
      slots[table[i]] := x;
    }

    /** Compares the entries at a place and the one above it, and exchanges them if they are out of order. */
    method Settle(n: nat, i: nat, up: bool) returns (moved: bool)
      requires Placed(n) && 0 < i < n
      modifies table
      ensures Placed(n) && Rest(n) == old(Rest(n))
      ensures moved == Ahead(up, old(View(n))[i], old(View(n))[i - 1])
      ensures moved ==> View(n) == old(View(n))[i := old(View(n))[i - 1]][i - 1 := old(View(n))[i]]
      ensures !moved ==> View(n) == old(View(n))
    {
      moved := Ahead(up, slots[table[i]], slots[table[i - 1]]);
      if moved {
        Swap(n, i, i - 1);
      }
    }

    /** The one pass of bubble sorting that moves the last entry to where it belongs. */
    method Bubble(n: nat, up: bool)
      requires 0 < n && Placed(n)
      modifies table
      ensures Placed(n) && Rest(n) == old(Rest(n))
      ensures View(n) == Insert(up, old(View(n))[..n - 1], old(View(n))[n - 1])
    {
      ghost var v := View(n);
      ghost var w, x := v[..n - 1], v[n - 1];
      hide *;
      var i: nat := n - 1;
      BubbleStart(up, v, w, x);
      while i > 0
        invariant i < n && Placed(n) && Rest(n) == old(Rest(n))
        invariant |w| == n - 1 && View(n) == With(w, x, i)
        invariant Insert(up, w, x) == Insert(up, w[..i], x) + w[i..]
      {
        WithAt(w, x, i);
        var moved := Settle(n, i, up);
        if !moved {
          BubbleStop(up, w, x, i);
          return;
        }
        BubbleStep(up, w, x, i);
        i := i - 1;
      }
      BubbleEnd(up, w, x);
    }

    /** Stores an offered entry behind the others, or over the last one if it comes before that. */
    method Store(n: nat, x: Entry, up: bool) returns (m: nat)
      requires Placed(n) && n <= PAGE
      requires n < PAGE ==> table[n] == n
      requires Sorted(up, View(n))
      modifies slots
      ensures 0 < m == (if n < PAGE then n + 1 else PAGE) && Placed(m)
      ensures Insert(up, View(m)[..m - 1], View(m)[m - 1]) == Taken(up, old(View(n)), x)
    {
      ghost var v := View(n);
      if n < PAGE {
        slots[n] := x;
        m := n + 1;
        assert View(m) == v + [x];
        assert (v + [x])[..n] == v;
      } else {
        m := n;
        if Ahead(up, x, slots[table[PAGE - 1]]) {
          Put(n, PAGE - 1, x);
        } else {
          LastStays(up, v);
        }
      }
    }

    /** One entry is offered to a buffer that holds the best of those offered before. */
    method Offer(n: nat, x: Entry, up: bool) returns (m: nat)
      requires Placed(n) && n <= PAGE
      requires n < PAGE ==> table[n] == n
      requires Sorted(up, View(n))
      modifies table, slots
      ensures m == (if n < PAGE then n + 1 else PAGE) && Placed(m)
      ensures Rest(m) == old(Rest(m))
      ensures View(m) == Taken(up, old(View(n)), x)
    {
      m := Store(n, x, up);
      Bubble(m, up);
    }

    /** Every place moves up by one, and the first becomes the last. */
    method RollUp()
      requires Placed(PAGE)
      modifies table
      ensures Placed(PAGE)
      ensures View(PAGE) == old(View(PAGE))[1..] + [old(View(PAGE))[0]]
    {
      ghost var was := table[..];
      var x := table[0];
      for i := 0 to PAGE - 1
        invariant forall a :: 0 <= a < i ==> table[a] == was[a + 1]
        invariant forall a :: i <= a < PAGE ==> table[a] == was[a]
      {
        table[i] := table[i + 1];
      }
      table[PAGE - 1] := x;
      assert table[..] == was[1..] + [was[0]];
      RolledUp(slots[..], was);
    }

    /** Every place moves down by one, and the last becomes the first. */
    method RollDown()
      requires Placed(PAGE)
      modifies table
      ensures Placed(PAGE)
      ensures View(PAGE) == [old(View(PAGE))[PAGE - 1]] + old(View(PAGE))[..PAGE - 1]
    {
      ghost var was := table[..];
      var x := table[PAGE - 1];
      for i := PAGE - 1 downto 0
        invariant forall a :: i < a < PAGE ==> table[a] == was[a - 1]
        invariant forall a :: 0 <= a <= i ==> table[a] == was[a]
      {
        table[i + 1] := table[i];
      }
      table[0] := x;
      assert table[..] == [was[PAGE - 1]] + was[..PAGE - 1];
      RolledDown(slots[..], was);
    }

    /** Brings the entries behind the first m to the top, by exchanges. */
    method RaiseBy(m: nat)
      requires Placed(PAGE) && m <= PAGE
      modifies table
      ensures Placed(PAGE) && View(PAGE)[..PAGE - m] == old(View(PAGE))[m..]
    {
      ghost var v := View(PAGE);
      hide *;
      RaisedStart(v, m);
      for i := 0 to PAGE - m
        invariant Placed(PAGE) && Raised(v, View(PAGE), m, i)
      {
        RaiseOne(v, m, i);
      }
      RaisedEnd(v, View(PAGE), m);
    }

    method RaiseOne(ghost v: seq<Entry>, m: nat, i: nat)
      requires Placed(PAGE) && i + m < PAGE && Raised(v, View(PAGE), m, i)
      modifies table
      ensures Placed(PAGE) && Raised(v, View(PAGE), m, i + 1)
    {
      hide *;
      RaisedStep(v, View(PAGE), m, i);
      Swap(PAGE, i, i + m);
    }

    /** Brings the entries before the last m to the bottom, by exchanges. */
    method LowerBy(m: nat)
      requires Placed(PAGE) && m <= PAGE
      modifies table
      ensures Placed(PAGE) && View(PAGE)[m..] == old(View(PAGE))[..PAGE - m]
    {
      ghost var v := View(PAGE);
      hide *;
      LoweredStart(v, m);
      for i := PAGE downto m
        invariant Placed(PAGE) && Lowered(v, View(PAGE), m, i)
      {
        LowerOne(v, m, i);
      }
      LoweredEnd(v, View(PAGE), m);
    }

    method LowerOne(ghost v: seq<Entry>, m: nat, i: nat)
      requires Placed(PAGE) && m <= i < PAGE && Lowered(v, View(PAGE), m, i + 1)
      modifies table
      ensures Placed(PAGE) && Lowered(v, View(PAGE), m, i)
    {
      hide *;
      LoweredStep(v, View(PAGE), m, i);
      Swap(PAGE, i, i - m);
    }
  }

  /** The first i places hold what was m places below; nothing from i + m on has moved. */
  ghost predicate Raised(v: seq<Entry>, w: seq<Entry>, m: nat, i: nat) {
    && |v| == |w| == PAGE
    && (forall a :: 0 <= a < i && a + m < PAGE ==> w[a] == v[a + m])
    && (forall a :: i + m <= a < PAGE ==> w[a] == v[a])
  }

  lemma RaisedStart(v: seq<Entry>, m: nat)
    requires |v| == PAGE
    ensures Raised(v, v, m, 0)
  {
  }

  lemma RaisedStep(v: seq<Entry>, w: seq<Entry>, m: nat, i: nat)
    requires Raised(v, w, m, i) && i + m < PAGE
    ensures Raised(v, w[i := w[i + m]][i + m := w[i]], m, i + 1)
  {
  }

  lemma RaisedEnd(v: seq<Entry>, w: seq<Entry>, m: nat)
    requires m <= PAGE && Raised(v, w, m, PAGE - m)
    ensures |v| == |w| == PAGE && w[..PAGE - m] == v[m..]
  {
  }

  /** The places from i on hold what was m places above; nothing before i - m has moved. */
  ghost predicate Lowered(v: seq<Entry>, w: seq<Entry>, m: nat, i: nat) {
    && |v| == |w| == PAGE
    && (forall a :: i <= a < PAGE && m <= a ==> w[a] == v[a - m])
    && (forall a :: 0 <= a < i - m ==> a < PAGE && w[a] == v[a])
  }

  lemma LoweredStart(v: seq<Entry>, m: nat)
    requires |v| == PAGE
    ensures Lowered(v, v, m, PAGE)
  {
  }

  lemma LoweredStep(v: seq<Entry>, w: seq<Entry>, m: nat, i: nat)
    requires m <= i < PAGE && Lowered(v, w, m, i + 1)
    ensures |w| == PAGE && Lowered(v, w[i := w[i - m]][i - m := w[i]], m, i)
  {
  }

  lemma LoweredEnd(v: seq<Entry>, w: seq<Entry>, m: nat)
    requires m <= PAGE && Lowered(v, w, m, m)
    ensures |v| == |w| == PAGE && w[m..] == v[..PAGE - m]
  {
  }

  lemma RolledUp(slots: seq<Entry>, was: seq<nat>)
    requires |slots| == |was| == PAGE && Places(was, PAGE)
    ensures Places(was[1..] + [was[0]], PAGE)
    ensures Through(slots, was[1..] + [was[0]], PAGE) == Through(slots, was, PAGE)[1..] + [Through(slots, was, PAGE)[0]]
  {
  }

  lemma RolledDown(slots: seq<Entry>, was: seq<nat>)
    requires |slots| == |was| == PAGE && Places(was, PAGE)
    ensures Places([was[PAGE - 1]] + was[..PAGE - 1], PAGE)
    ensures Through(slots, [was[PAGE - 1]] + was[..PAGE - 1], PAGE)
         == [Through(slots, was, PAGE)[PAGE - 1]] + Through(slots, was, PAGE)[..PAGE - 1]
  {
  }

  /** What a buffer holds once one more entry has been offered to it. */
  function Taken(up: bool, v: seq<Entry>, x: Entry): (r: seq<Entry>)
  {
    if |v| < PAGE then Insert(up, v, x)
    else if Ahead(up, x, v[PAGE - 1]) then Insert(up, v[..PAGE - 1], x)
    else v
  }

  lemma LastStays(up: bool, v: seq<Entry>)
    requires v != [] && Sorted(up, v)
    ensures Insert(up, v[..|v| - 1], v[|v| - 1]) == v
  {
    var s, x := v[..|v| - 1], v[|v| - 1];
    if s != [] { assert Ahead(up, s[|s| - 1], x); }
    assert s + [x] == v;
  }

  /** A run with one more entry at a place of it. */
  ghost function With(w: seq<Entry>, x: Entry, i: nat): (r: seq<Entry>)
    requires i <= |w|
    ensures |r| == |w| + 1
  {
    w[..i] + [x] + w[i..]
  }

  lemma BubbleStart(up: bool, v: seq<Entry>, w: seq<Entry>, x: Entry)
    requires v != [] && w == v[..|v| - 1] && x == v[|v| - 1]
    ensures v == With(w, x, |w|)
    ensures Insert(up, w, x) == Insert(up, w[..|w|], x) + w[|w|..]
  {
    assert w[..|w|] == w;
  }

  lemma WithAt(w: seq<Entry>, x: Entry, i: nat)
    requires 0 < i <= |w|
    ensures With(w, x, i)[i] == x && With(w, x, i)[i - 1] == w[i - 1]
  {
  }

  lemma BubbleStep(up: bool, w: seq<Entry>, x: Entry, i: nat)
    requires 0 < i <= |w|
    requires Ahead(up, x, w[i - 1])
    ensures Insert(up, w[..i], x) + w[i..] == Insert(up, w[..i - 1], x) + w[i - 1..]
    ensures With(w, x, i)[i := w[i - 1]][i - 1 := x] == With(w, x, i - 1)
  {
    assert w[..i][..i - 1] == w[..i - 1];
    assert [w[i - 1]] + w[i..] == w[i - 1..];
  }

  lemma BubbleStop(up: bool, w: seq<Entry>, x: Entry, i: nat)
    requires 0 < i <= |w|
    requires !Ahead(up, x, w[i - 1])
    ensures Insert(up, w[..i], x) + w[i..] == With(w, x, i)
  {
  }

  lemma BubbleEnd(up: bool, w: seq<Entry>, x: Entry)
    ensures Insert(up, w[..0], x) + w[0..] == With(w, x, 0)
  {
    assert w[..0] == [];
  }

  /** What a scan finds after an entry, in order. */
  ghost function Found(up: bool, s: seq<Entry>, e: Entry): seq<Entry> {
    Ordered(up, After(up, s, e))
  }

  lemma DistinctPrefix(s: seq<Entry>, k: nat)
    requires Distinct(s) && k < |s|
    ensures Distinct(s[..k]) && Apart(s[..k], s[k])
  {
  }

  /** One more entry of the directory has been looked at. */
  lemma FoundStep(up: bool, s: seq<Entry>, k: nat, e: Entry)
    requires Distinct(s) && k < |s|
    ensures Found(up, s[..k + 1], e)
         == if Ahead(up, e, s[k]) then Insert(up, Found(up, s[..k], e), s[k]) else Found(up, s[..k], e)
    ensures Sorted(up, Found(up, s[..k], e)) && Apart(Found(up, s[..k], e), s[k])
  {
    var p := s[..k];
    assert s[..k + 1][..k] == p;
    DistinctPrefix(s, k);
    AfterDistinct(up, p, e);
    AfterHolds(up, p, e);
    OrderedIsSorted(up, After(up, p, e));
    ApartFrom(Found(up, p, e), p, s[k]);
  }

  lemma ApartFrom(a: seq<Entry>, p: seq<Entry>, x: Entry)
    requires forall y :: y in a ==> y in p
    requires Apart(p, x)
    ensures Apart(a, x)
  {
    forall i | 0 <= i < |a| ensures a[i].key != x.key {
      assert a[i] in p;
    }
  }

  /** The same for the directory as a whole. */
  lemma OrderedStep(up: bool, s: seq<Entry>, k: nat)
    requires Distinct(s) && k < |s|
    ensures Ordered(up, s[..k + 1]) == Insert(up, Ordered(up, s[..k]), s[k])
    ensures Sorted(up, Ordered(up, s[..k])) && Apart(Ordered(up, s[..k]), s[k])
  {
    assert s[..k + 1][..k] == s[..k];
    DistinctPrefix(s, k);
    OrderedIsSorted(up, s[..k]);
    ApartFrom(Ordered(up, s[..k]), s[..k], s[k]);
  }

  /** A buffer that is offered every entry keeps the first page of them all. */
  lemma TakenIsKept(up: bool, g: seq<Entry>, x: Entry)
    requires Sorted(up, g) && Apart(g, x)
    ensures Sorted(up, Keep(g))
    ensures Taken(up, Keep(g), x) == Keep(Insert(up, g, x))
  {
    KeepInsert(up, g, x);
  }

  /** The least of the entries found, as one more is looked at. */
  lemma FirstFound(up: bool, g: seq<Entry>, x: Entry)
    requires Sorted(up, g) && Apart(g, x)
    ensures Insert(up, g, x)[0] == if g == [] || Ahead(up, x, g[0]) then x else g[0]
  {
    var k := InsertAt(up, g, x);
  }

  datatype Mode = Init | Next | Prev | NextPage | PrevPage

  /** Where the window stands: the entries above it, the entries in it, and the selected one of those. */
  datatype Position = Position(top: nat, count: nat, selected: nat)

  /** What each mode does to the position in a directory of n entries. */
  function Moved(mode: Mode, n: nat, at: Position): Position {
    if mode == Init then Position(0, Least(PAGE, n), 0)
    else if at.count == 0 then at
    else
      match mode
      case Next =>
        if at.selected + 1 < at.count then at.(selected := at.selected + 1)
        else if at.top + at.count < n then at.(top := at.top + 1)
        else at
      case NextPage =>
        if at.selected + 1 < at.count then at.(selected := at.count - 1)
        else if at.top + at.count < n then at.(top := at.top + Least(PAGE, n - at.top - at.count))
        else at
      case Prev =>
        if at.selected > 0 then at.(selected := at.selected - 1)
        else if at.top > 0 then Position(at.top - 1, Least(PAGE, at.count + 1), 0)
        else at
      case PrevPage =>
        if at.selected > 0 then at.(selected := 0)
        else
          var m := Least(PAGE, at.top);
          Position(at.top - m, Least(PAGE, at.count + m), 0)
  }

  function Least(a: nat, b: nat): nat {
    if a < b then a else b
  }

  /** A window is full, or reaches to the end of the directory. */
  ghost predicate Within(at: Position, n: nat) {
    && at.count <= PAGE && at.top + at.count <= n
    && (at.count < PAGE ==> at.top + at.count == n)
    && (at.selected < at.count || (at.selected == at.count == 0 == n))
  }

  lemma MovedIsWithin(mode: Mode, n: nat, at: Position)
    requires mode == Init || Within(at, n)
    ensures Within(Moved(mode, n, at), n)
  {
  }

  lemma StaysFull(at: Position)
    requires at.count <= PAGE
    ensures Least(PAGE, at.count + 0) == at.count
  {
  }

  /** The entries that a position makes visible. */
  ghost function Slice(listing: seq<Entry>, at: Position): (r: seq<Entry>)
    requires Within(at, |listing|)
    ensures |r| == at.count
  {
    Ordered(true, listing)[at.top..at.top + at.count]
  }

  /** The globals of fat.c that hold the window. */
  class Window {
    const shown: Buffer                 // DirEntry and sort_table
    const found: Buffer                 // t_DirEntry and t_sort_table
    var count: nat                      // nDirEntries
    var selected: nat                   // iSelectedEntry
    ghost var top: nat                  // entries of the directory above the window

    constructor ()
      ensures Formed() && fresh(shown) && fresh(found)
      ensures fresh(shown.slots) && fresh(shown.table) && fresh(found.slots) && fresh(found.table)
    {
      var a := new Buffer();
      var b := new Buffer();
      shown, found := a, b;
    }

    ghost predicate Formed() {
      && shown.Formed() && found.Formed()
      && shown.slots != found.slots && shown.table != found.table
    }

    ghost function At(): Position
      reads this
    {
      Position(top, count, selected)
    }

    /**
     The window shows a slice of the ordered directory, and the index table is a permutation.
     */
    ghost predicate Shows(listing: seq<Entry>)
      reads this, shown.table, shown.slots
    {
      && Formed() && shown.Placed(PAGE)
      && Within(At(), |listing|)
      && shown.View(PAGE)[..count] == Slice(listing, At())
    }

    /** The start of a directory: its first eight entries, in order. */
    method ScanInit(listing: seq<Entry>)
      requires Formed() && Distinct(listing)
      modifies this, shown.table, shown.slots
      ensures Shows(listing) && At() == Moved(Init, |listing|, old(At()))
    {
      count, selected := 0, 0;
      top := 0;
      for i := 0 to PAGE
        invariant count == selected == top == 0
        invariant forall a :: 0 <= a < i ==> shown.table[a] == a
      {
        shown.table[i] := i;
      }
      for k := 0 to |listing|
        invariant count == Least(PAGE, k) && selected == top == 0
        invariant shown.Placed(count) && Untouched(count)
        invariant shown.View(count) == Keep(Ordered(true, listing[..k]))
      {
        count := AdmitNext(count, listing, k);
      }
      assert listing[..|listing|] == listing;
      Whole();
    }

    /** The k-th entry of the directory, after those before it. */
    method AdmitNext(n: nat, listing: seq<Entry>, k: nat) returns (m: nat)
      requires Formed() && n <= PAGE && shown.Placed(n) && Untouched(n) && Distinct(listing) && k < |listing|
      requires shown.View(n) == Keep(Ordered(true, listing[..k]))
      modifies shown.table, shown.slots
      ensures m == Least(PAGE, n + 1) && shown.Placed(m) && Untouched(m)
      ensures shown.View(m) == Keep(Ordered(true, listing[..k + 1]))
    {
      hide *;
      OrderedStep(true, listing, k);
      TakenIsKept(true, Ordered(true, listing[..k]), listing[k]);
      m := Admit(n, listing[k]);
    }

    /** The places from one on still name their own slots. */
    ghost predicate Untouched(n: nat)
      reads shown.table
    {
      && shown.table.Length == PAGE
      && forall a :: n <= a < PAGE ==> shown.table[a] == a
    }

    method Admit(n: nat, x: Entry) returns (m: nat)
      requires Formed() && n <= PAGE && shown.Placed(n) && Untouched(n)
      requires Sorted(true, shown.View(n))
      modifies shown.table, shown.slots
      ensures m == Least(PAGE, n + 1) && shown.Placed(m) && Untouched(m)
      ensures shown.View(m) == Taken(true, old(shown.View(n)), x)
    {
      m := shown.Offer(n, x, true);
      forall a | m <= a < PAGE ensures shown.table[a] == a {
        assert shown.Rest(m)[a - m] == old(shown.Rest(m))[a - m];
      }
    }

    lemma Whole()
      requires Formed() && count <= PAGE && shown.Placed(count) && Untouched(count)
      ensures shown.Placed(PAGE) && shown.View(PAGE)[..count] == shown.View(count)
    {
    }
  
    /** One entry down: the next entry of the directory, if there is one, becomes the last one shown. */
    method ScanNext(listing: seq<Entry>)
      requires Shows(listing) && Distinct(listing)
      modifies this, shown.table, shown.slots
      ensures Shows(listing) && At() == Moved(Next, |listing|, old(At()))
    {
      hide Buffer.Placed, Buffer.View, Ordered, Found, Reverse, Keep, NextView, PrevView;
      if count == 0 { return; }
      if selected + 1 < count {
        selected := selected + 1;
        return;
      }
      if count < PAGE { return; }
      ghost var v, at := shown.View(PAGE), At();
      FoundBelow(listing, at, v);
      var more := LookForNext(listing);
      if more {
        NextSlice(listing, at, v);
        top := top + 1;
      }
    }

    /** Reads the directory for the first entry below the window, and moves on to it. */
    method LookForNext(listing: seq<Entry>) returns (more: bool)
      requires Formed() && shown.Placed(PAGE) && Distinct(listing)
      modifies shown.table, shown.slots
      ensures shown.Placed(PAGE)
      ensures var g := Found(true, listing, old(shown.View(PAGE))[PAGE - 1]);
              more == (g != []) && shown.View(PAGE) == NextView(old(shown.View(PAGE)), g)
      ensures !more ==> shown.View(PAGE) == old(shown.View(PAGE))
    {
      ghost var v := shown.View(PAGE);
      ghost var last := v[PAGE - 1];
      hide *;
      more := false;
      NothingFound(true, listing, last, v);
      for k := 0 to |listing|
        invariant Formed() && shown.Placed(PAGE)
        invariant shown.View(PAGE) == NextView(v, Found(true, listing[..k], last))
        invariant more == (Found(true, listing[..k], last) != [])
      {
        more := LookBelowAt(listing, k, last, more, v);
      }
      assert listing[..|listing|] == listing;
      StaysPut(v);
    }

    /** The k-th entry, after those before it. */
    method LookBelowAt(listing: seq<Entry>, k: nat, ghost e: Entry, more: bool, ghost v: seq<Entry>)
      returns (now: bool)
      requires Formed() && shown.Placed(PAGE) && Distinct(listing) && k < |listing| && |v| == PAGE
      requires e == v[PAGE - 1]
      requires shown.View(PAGE) == NextView(v, Found(true, listing[..k], e))
      requires more == (Found(true, listing[..k], e) != [])
      modifies shown.table, shown.slots
      ensures shown.Placed(PAGE) && shown.View(PAGE) == NextView(v, Found(true, listing[..k + 1], e))
      ensures now == (Found(true, listing[..k + 1], e) != [])
    {
      hide *;
      FoundStep(true, listing, k, e);
      now := LookBelow(listing[k], more, v, Found(true, listing[..k], e));
    }

    /** An entry met on the way down. */
    method LookBelow(x: Entry, more: bool, ghost v: seq<Entry>, ghost g: seq<Entry>) returns (now: bool)
      requires Formed() && shown.Placed(PAGE) && |v| == PAGE && shown.View(PAGE) == NextView(v, g)
      requires more == (g != []) && Sorted(true, g) && Apart(g, x)
      modifies shown.table, shown.slots
      ensures shown.Placed(PAGE)
      ensures var h := if Ahead(true, v[PAGE - 1], x) then Insert(true, g, x) else g;
              now == (h != []) && shown.View(PAGE) == NextView(v, h)
    {
      FirstFound(true, g, x);
      now := more;
      if !more {
        if Ahead(true, shown.Peek(PAGE, PAGE - 1), x) {
          now := true;
          shown.Put(PAGE, 0, x);
          shown.RollUp();
        }
      } else if Ahead(true, x, shown.Peek(PAGE, PAGE - 1)) {
        if Ahead(true, shown.Peek(PAGE, PAGE - 2), x) {
          shown.Put(PAGE, PAGE - 1, x);
        }
      }
    }

    /** One entry up: the one before those shown, if there is one, becomes the first. */
    method ScanPrev(listing: seq<Entry>)
      requires Shows(listing) && Distinct(listing)
      modifies this, shown.table, shown.slots
      ensures Shows(listing) && At() == Moved(Prev, |listing|, old(At()))
    {
      hide Buffer.Placed, Buffer.View, Ordered, Found, Reverse, Keep, NextView, PrevView;
      if count == 0 { return; }
      if selected > 0 {
        selected := selected - 1;
        return;
      }
      ghost var v, at := shown.View(PAGE), At();
      FoundAbove(listing, at, v);
      var more := LookForPrev(listing);
      if more {
        PrevSlice(listing, at, Position(at.top - 1, Least(PAGE, at.count + 1), 0), v);
        top := top - 1;
      }
    }

    /** Reads the directory for the last entry above the window, and moves back to it. */
    method LookForPrev(listing: seq<Entry>) returns (more: bool)
      requires Formed() && shown.Placed(PAGE) && Distinct(listing) && count <= PAGE
      modifies `count, shown.table, shown.slots
      ensures shown.Placed(PAGE)
      ensures count == if more then Least(PAGE, old(count) + 1) else old(count)
      ensures var g := Found(false, listing, old(shown.View(PAGE))[0]);
              more == (g != []) && shown.View(PAGE) == PrevView(old(shown.View(PAGE)), g)
      ensures !more ==> shown.View(PAGE) == old(shown.View(PAGE))
    {
      ghost var v := shown.View(PAGE);
      ghost var first := v[0];
      hide *;
      more := false;
      NothingFound(false, listing, first, v);
      for k := 0 to |listing|
        invariant Formed() && shown.Placed(PAGE) && count <= PAGE
        invariant count == if more then Least(PAGE, old(count) + 1) else old(count)
        invariant shown.View(PAGE) == PrevView(v, Found(false, listing[..k], first))
        invariant more == (Found(false, listing[..k], first) != [])
      {
        more := LookAboveAt(listing, k, first, more, v);
      }
      assert listing[..|listing|] == listing;
      StaysPut(v);
    }

    /** The k-th entry, after those before it. */
    method LookAboveAt(listing: seq<Entry>, k: nat, ghost e: Entry, more: bool, ghost v: seq<Entry>)
      returns (now: bool)
      requires Formed() && shown.Placed(PAGE) && Distinct(listing) && k < |listing| && |v| == PAGE && count <= PAGE
      requires e == v[0]
      requires shown.View(PAGE) == PrevView(v, Found(false, listing[..k], e))
      requires more == (Found(false, listing[..k], e) != [])
      modifies `count, shown.table, shown.slots
      ensures shown.Placed(PAGE) && shown.View(PAGE) == PrevView(v, Found(false, listing[..k + 1], e))
      ensures now == (Found(false, listing[..k + 1], e) != [])
      ensures count == (if now && !more then Least(PAGE, old(count) + 1) else old(count)) && count <= PAGE
      ensures more ==> now
    {
      hide *;
      FoundStep(false, listing, k, e);
      now := LookAbove(listing[k], more, v, Found(false, listing[..k], e));
    }

    /** An entry met on the way up. */
    method LookAbove(x: Entry, more: bool, ghost v: seq<Entry>, ghost g: seq<Entry>) returns (now: bool)
      requires Formed() && shown.Placed(PAGE) && |v| == PAGE && shown.View(PAGE) == PrevView(v, g)
      requires more == (g != []) && Sorted(false, g) && Apart(g, x) && count <= PAGE
      modifies `count, shown.table, shown.slots
      ensures shown.Placed(PAGE)
      ensures count == (if now && !more then Least(PAGE, old(count) + 1) else old(count)) && count <= PAGE
      ensures more ==> now
      ensures var h := if Ahead(false, v[0], x) then Insert(false, g, x) else g;
              now == (h != []) && shown.View(PAGE) == PrevView(v, h)
    {
      FirstFound(false, g, x);
      now := more;
      if !more {
        if Ahead(true, x, shown.Peek(PAGE, 0)) {
          now := true;
          if count < PAGE {
            count := count + 1;
          }
          shown.Put(PAGE, PAGE - 1, x);
          shown.RollDown();
        }
      } else if Ahead(true, shown.Peek(PAGE, 0), x) {
        if Ahead(true, x, shown.Peek(PAGE, 1)) {
          shown.Put(PAGE, 0, x);
        }
      }
    }

    /** A page down. */
    method ScanNextPage(listing: seq<Entry>)
      requires Shows(listing) && Distinct(listing)
      modifies this, shown.table, shown.slots, found.table, found.slots
      ensures Shows(listing) && At() == Moved(NextPage, |listing|, old(At()))
    {
      hide Buffer.Placed, Buffer.View, Ordered, Found, Reverse, Keep, NextView, PrevView;
      if count == 0 { return; }
      if selected + 1 < count {
        selected := count - 1;
        return;
      }
      if count < PAGE { return; }
      ghost var v, at := shown.View(PAGE), At();
      FoundBelow(listing, at, v);
      var m := GatherBelow(listing);
      if m > 0 {
        NextPageSlice(listing, at, v, m);
        shown.RaiseBy(m);
        CopyDown(m);
        top := top + m;
      }
    }

    /** Gathers the first page of the entries below the window. */
    method GatherBelow(listing: seq<Entry>) returns (m: nat)
      requires Formed() && shown.Placed(PAGE) && Distinct(listing)
      modifies found.table, found.slots
      ensures found.Placed(m) && found.View(m) == Keep(Found(true, listing, shown.View(PAGE)[PAGE - 1]))
      ensures m == Least(PAGE, |Found(true, listing, shown.View(PAGE)[PAGE - 1])|)
    {
      ghost var last := shown.View(PAGE)[PAGE - 1];
      hide *;
      m := 0;
      NothingKept(true, listing, last);
      for k := 0 to |listing|
        invariant Formed() && shown.Placed(PAGE) && shown.View(PAGE)[PAGE - 1] == last
        invariant found.Placed(m) && m <= PAGE && found.View(m) == Keep(Found(true, listing[..k], last))
      {
        FoundStep(true, listing, k, last);
        TakenIsKept(true, Found(true, listing[..k], last), listing[k]);
        if Ahead(true, shown.Peek(PAGE, PAGE - 1), listing[k]) {
          m := Collect(m, listing[k], true);
        }
      }
      assert listing[..|listing|] == listing;
      KeepLength(Found(true, listing, last));
    }

    /** A page up. */
    method ScanPrevPage(listing: seq<Entry>)
      requires Shows(listing) && Distinct(listing)
      modifies this, shown.table, shown.slots, found.table, found.slots
      ensures Shows(listing) && At() == Moved(PrevPage, |listing|, old(At()))
    {
      hide Buffer.Placed, Buffer.View, Ordered, Found, Reverse, Keep, NextView, PrevView;
      if count == 0 { return; }
      if selected > 0 {
        selected := 0;
        return;
      }
      PageUp(listing);
    }

    /** The page above the window comes into it. */
    method PageUp(listing: seq<Entry>)
      requires Shows(listing) && Distinct(listing) && count > 0 && selected == 0
      modifies this, shown.table, shown.slots, found.table, found.slots
      ensures Shows(listing)
      ensures At() == Position(old(top) - Least(PAGE, old(top)), Least(PAGE, old(count) + Least(PAGE, old(top))), 0)
    {
      ShowsParts(listing);
      ghost var v, at := shown.View(PAGE), At();
      hide *;
      FoundAbove(listing, at, v);
      var m := GatherAbove(listing);
      PageAbove(listing, at, v, m);
      if m > 0 {
        PutAbove(v, m);
        IsShown(listing);
      } else {
        StaysFull(at);
      }
    }

    /** The entries found, the nearest first, go in from the top, and the others move down. */
    method PutAbove(ghost v: seq<Entry>, m: nat)
      requires Formed() && shown.Placed(PAGE) && found.Placed(m) && m <= PAGE && m <= top && count <= PAGE
      requires v == shown.View(PAGE) && |v| == PAGE
      modifies `count, `top, shown.table, shown.slots
      ensures Formed() && shown.Placed(PAGE)
      ensures shown.View(PAGE) == Reverse(old(found.View(m))) + v[..PAGE - m]
      ensures top == old(top) - m && count == Least(PAGE, old(count) + m)
    {
      assert shown.table != found.table && shown.slots != found.slots;
      hide *;
      shown.LowerBy(m);
      CopyUp(m);
      MoveUp(m);
    }

    lemma ShowsParts(listing: seq<Entry>)
      requires Shows(listing)
      ensures Formed() && shown.Placed(PAGE) && Within(At(), |listing|) && |shown.View(PAGE)| == PAGE && count <= PAGE
      ensures At() == Position(top, count, selected)
      ensures shown.View(PAGE)[..count] == Slice(listing, At())
    {
    }

    lemma IsShown(listing: seq<Entry>)
      requires Formed() && shown.Placed(PAGE) && count <= PAGE && Within(Position(top, count, selected), |listing|)
      requires shown.View(PAGE)[..count] == Slice(listing, Position(top, count, selected))
      ensures Shows(listing) && At() == Position(top, count, selected)
    {
    }

    /** The counts of a window that m entries have been put on top of. */
    method MoveUp(m: nat)
      requires m <= top && count <= PAGE
      modifies `count, `top
      ensures top == old(top) - m && count == Least(PAGE, old(count) + m)
    {
      top := top - m;
      count := count + m;
      if count > PAGE {
        count := PAGE;
      }
    }

    /** Gathers the last page of the entries above the window, from the nearest on. */
    method GatherAbove(listing: seq<Entry>) returns (m: nat)
      requires Formed() && shown.Placed(PAGE) && Distinct(listing)
      modifies found.table, found.slots
      ensures found.Placed(m) && found.View(m) == Keep(Found(false, listing, shown.View(PAGE)[0]))
      ensures m == Least(PAGE, |Found(false, listing, shown.View(PAGE)[0])|)
    {
      ghost var first := shown.View(PAGE)[0];
      hide *;
      m := 0;
      NothingKept(false, listing, first);
      for k := 0 to |listing|
        invariant Formed() && shown.Placed(PAGE) && shown.View(PAGE)[0] == first
        invariant found.Placed(m) && m <= PAGE && found.View(m) == Keep(Found(false, listing[..k], first))
      {
        FoundStep(false, listing, k, first);
        TakenIsKept(false, Found(false, listing[..k], first), listing[k]);
        FlipAhead(listing[k], first);
        if Ahead(true, listing[k], shown.Peek(PAGE, 0)) {
          m := Collect(m, listing[k], false);
        }
      }
      assert listing[..|listing|] == listing;
      KeepLength(Found(false, listing, first));
    }

    /** Reads the directory in one of the five modes. */
    method Scan(listing: seq<Entry>, mode: Mode)
      requires Shows(listing) && Distinct(listing)
      modifies this, shown.table, shown.slots, found.table, found.slots
      ensures Shows(listing) && At() == Moved(mode, |listing|, old(At()))
    {
      hide *;
      match mode
      case Init => ShowsFormed(listing); ScanInit(listing);
      case Next => ScanNext(listing);
      case Prev => ScanPrev(listing);
      case NextPage => ScanNextPage(listing);
      case PrevPage => ScanPrevPage(listing);
    }

    lemma ShowsFormed(listing: seq<Entry>)
      requires Shows(listing)
      ensures Formed()
    {
    }

    /** Stores an entry that a page scan has met. */
    method Collect(n: nat, x: Entry, up: bool) returns (m: nat)
      requires Formed() && n <= PAGE && found.Placed(n) && Sorted(up, found.View(n))
      modifies found.table, found.slots
      ensures m <= PAGE && found.Placed(m) && found.View(m) == Taken(up, old(found.View(n)), x)
    {
      if n < PAGE {
        found.table[n] := n;
        assert found.View(n) == old(found.View(n));
      }
      m := found.Offer(n, x, up);
    }

    /** Copies the entries found to the bottom of the window, in order. */
    method CopyDown(m: nat)
      requires Formed() && m <= PAGE && shown.Placed(PAGE) && found.Placed(m)
      modifies shown.slots
      ensures shown.Placed(PAGE)
      ensures shown.View(PAGE) == old(shown.View(PAGE))[..PAGE - m] + found.View(m)
    {
      ghost var v, f := shown.View(PAGE), found.View(m);
      for i := 0 to m
        invariant shown.Placed(PAGE) && found.Placed(m) && found.View(m) == f
        invariant shown.View(PAGE) == v[..PAGE - m] + f[..i] + v[PAGE - m + i..]
      {
        shown.Put(PAGE, PAGE - m + i, found.Peek(m, i));
      }
    }

    /** Copies the entries found to the top of the window, backwards. */
    method CopyUp(m: nat)
      requires Formed() && m <= PAGE && shown.Placed(PAGE) && found.Placed(m)
      modifies shown.slots
      ensures shown.Placed(PAGE)
      ensures shown.View(PAGE) == Reverse(found.View(m)) + old(shown.View(PAGE))[m..]
    {
      ghost var v, f := shown.View(PAGE), found.View(m);
      hide *;
      ghost var r := Reverse(f);
      CopyStart(v, r);
      for i := 0 to m
        invariant shown.Placed(PAGE) && found.Placed(m) && found.View(m) == f
        invariant shown.View(PAGE) == Copied(v, r, m - i)
      {
        CopyStep(v, r, m - 1 - i);
        shown.Put(PAGE, m - 1 - i, found.Peek(m, i));
      }
      CopyEnd(v, r);
    }
  }

  /** A window whose first places, from k on, have been overwritten by those of a run. */
  ghost function Copied(v: seq<Entry>, r: seq<Entry>, k: nat): (w: seq<Entry>)
    requires k <= |r| <= |v|
    ensures |w| == |v|
  {
    v[..k] + r[k..] + v[|r|..]
  }

  lemma CopyStart(v: seq<Entry>, r: seq<Entry>)
    requires |r| <= |v|
    ensures Copied(v, r, |r|) == v
  {
  }

  lemma CopyStep(v: seq<Entry>, r: seq<Entry>, k: nat)
    requires k < |r| <= |v|
    ensures Copied(v, r, k + 1)[k := r[k]] == Copied(v, r, k)
  {
    var a := Copied(v, r, k + 1)[k := r[k]];
    var b := Copied(v, r, k);
    forall p | 0 <= p < |v| ensures a[p] == b[p] {
    }
  }

  lemma CopyEnd(v: seq<Entry>, r: seq<Entry>)
    requires |r| <= |v|
    ensures Copied(v, r, 0) == r + v[|r|..]
  {
  }

  /** The window once it has moved down to the first of the entries found below it. */
  ghost function NextView(v: seq<Entry>, g: seq<Entry>): (r: seq<Entry>)
    requires |v| == PAGE
    ensures |r| == PAGE
  {
    if g == [] then v else v[1..] + [g[0]]
  }

  /** The window once it has moved up to the first of the entries found above it. */
  ghost function PrevView(v: seq<Entry>, g: seq<Entry>): (r: seq<Entry>)
    requires |v| == PAGE
    ensures |r| == PAGE
  {
    if g == [] then v else [g[0]] + v[..PAGE - 1]
  }

  /** What stands below a full window, in order. */
  lemma FoundBelow(listing: seq<Entry>, at: Position, v: seq<Entry>)
    requires Distinct(listing) && Within(at, |listing|) && at.count == PAGE
    requires |v| == PAGE && v == Slice(listing, at)
    ensures Found(true, listing, v[PAGE - 1]) == Ordered(true, listing)[at.top + PAGE..]
    ensures listing[..0] == []
  {
    AfterUp(listing, at.top + PAGE - 1);
  }

  /** What stands above a window, from the nearest on. */
  lemma FoundAbove(listing: seq<Entry>, at: Position, v: seq<Entry>)
    requires Distinct(listing) && Within(at, |listing|) && at.count > 0
    requires |v| == PAGE && v[..at.count] == Slice(listing, at)
    ensures Found(false, listing, v[0]) == Reverse(Ordered(true, listing)[..at.top])
    ensures listing[..0] == []
  {
    assert v[0] == v[..at.count][0];
    AfterDown(listing, at.top);
  }

  lemma NothingFound(up: bool, s: seq<Entry>, e: Entry, v: seq<Entry>)
    requires |v| == PAGE
    ensures Found(up, s[..0], e) == []
    ensures NextView(v, Found(up, s[..0], e)) == PrevView(v, Found(up, s[..0], e)) == v
  {
    assert s[..0] == [];
  }

  lemma StaysPut(v: seq<Entry>)
    requires |v| == PAGE
    ensures NextView(v, []) == PrevView(v, []) == v
  {
  }

  lemma NothingKept(up: bool, s: seq<Entry>, e: Entry)
    ensures Keep(Found(up, s[..0], e)) == []
  {
    assert s[..0] == [];
  }

  lemma KeepLength(g: seq<Entry>)
    ensures |Keep(g)| == Least(PAGE, |g|)
  {
  }

  lemma FlipAhead(a: Entry, b: Entry)
    ensures Ahead(true, a, b) == Ahead(false, b, a)
  {
  }

  lemma NextSlice(listing: seq<Entry>, at: Position, v: seq<Entry>)
    requires Within(at, |listing|) && at.count == PAGE && at.top + PAGE < |listing|
    requires |v| == PAGE && v == Slice(listing, at)
    ensures NextView(v, Ordered(true, listing)[at.top + PAGE..]) == Slice(listing, at.(top := at.top + 1))
  {
    hide Ordered;
    SliceDown(Ordered(true, listing), at.top, 1);
    FirstOf(Ordered(true, listing)[at.top + PAGE..]);
  }

  lemma FirstOf(g: seq<Entry>)
    requires g != []
    ensures g[..1] == [g[0]]
  {
  }

  lemma PrevSlice(listing: seq<Entry>, at: Position, now: Position, v: seq<Entry>)
    requires Within(at, |listing|) && Within(now, |listing|) && at.top > 0
    requires now.top == at.top - 1 && now.count == Least(PAGE, at.count + 1)
    requires |v| == PAGE && v[..at.count] == Slice(listing, at)
    ensures PrevView(v, Reverse(Ordered(true, listing)[..at.top]))[..now.count] == Slice(listing, now)
  {
    SliceIs(listing, at);
    SliceIs(listing, now);
    hide *;
    PrevSliceIs(Ordered(true, listing), at.top, at.count, v);
  }

  lemma SliceIs(listing: seq<Entry>, at: Position)
    requires Within(at, |listing|)
    ensures at.count <= PAGE && at.top + at.count <= |Ordered(true, listing)|
    ensures Slice(listing, at) == Ordered(true, listing)[at.top..at.top + at.count]
  {
  }

  lemma PrevSliceIs(d: seq<Entry>, top: nat, count: nat, v: seq<Entry>)
    requires |v| == PAGE && 0 < top && count <= PAGE && top + count <= |d|
    requires v[..count] == d[top..top + count]
    ensures var c := Least(PAGE, count + 1);
            PrevView(v, Reverse(d[..top]))[..c] == d[top - 1..top - 1 + c]
  {
    hide PrevView, Reverse;
    PrevViewIs(v, d, top);
    SliceUp(d, top, count, 1, v);
  }

  lemma PrevViewIs(v: seq<Entry>, d: seq<Entry>, k: nat)
    requires |v| == PAGE && 0 < k <= |d|
    ensures PrevView(v, Reverse(d[..k])) == d[k - 1..k] + v[..PAGE - 1]
  {
    hide Reverse;
    LastOf(d, k);
  }

  lemma LastOf(d: seq<Entry>, k: nat)
    requires 0 < k <= |d|
    ensures d[k - 1..k] == [Reverse(d[..k])[0]]
  {
    hide Reverse;
  }

  lemma NextPageSlice(listing: seq<Entry>, at: Position, v: seq<Entry>, m: nat)
    requires Within(at, |listing|) && at.count == PAGE && m == Least(PAGE, |listing| - at.top - PAGE)
    requires |v| == PAGE && v == Slice(listing, at)
    ensures v[m..] + Keep(Ordered(true, listing)[at.top + PAGE..]) == Slice(listing, at.(top := at.top + m))
  {
    hide Ordered;
    KeepOf(Ordered(true, listing), at.top + PAGE);
    SliceDown(Ordered(true, listing), at.top, m);
  }

  lemma KeepOf(d: seq<Entry>, k: nat)
    requires k <= |d|
    ensures Keep(d[k..]) == d[k..][..Least(PAGE, |d| - k)]
  {
  }

  lemma PrevPageSlice(listing: seq<Entry>, at: Position, v: seq<Entry>, m: nat)
    requires Within(at, |listing|) && at.count > 0 && m == Least(PAGE, at.top)
    requires |v| == PAGE && v[..at.count] == Slice(listing, at)
    ensures var now := Position(at.top - m, Least(PAGE, at.count + m), 0);
            var w := Reverse(Keep(Reverse(Ordered(true, listing)[..at.top]))) + v[..PAGE - m];
            Within(now, |listing|) && |w| == PAGE && w[..now.count] == Slice(listing, now)
  {
    hide Ordered, Reverse;
    var d := Ordered(true, listing);
    KeepBack(d, at.top);
    SliceUp(d, at.top, at.count, m, v);
  }

  /** What a page up shows. */
  lemma PageAbove(listing: seq<Entry>, at: Position, v: seq<Entry>, m: nat)
    requires Within(at, |listing|) && at.count > 0
    requires |v| == PAGE && v[..at.count] == Slice(listing, at)
    requires m == Least(PAGE, |Reverse(Ordered(true, listing)[..at.top])|)
    ensures m == Least(PAGE, at.top) && m <= at.top && m <= PAGE && at.count <= PAGE
    ensures var now := Position(at.top - m, Least(PAGE, at.count + m), 0);
            var w := Reverse(Keep(Reverse(Ordered(true, listing)[..at.top]))) + v[..PAGE - m];
            Within(now, |listing|) && |w| == PAGE && now.count <= PAGE && w[..now.count] == Slice(listing, now)
  {
    PrevPageSlice(listing, at, v, m);
    hide Ordered, Keep;
  }

  lemma KeepBack(d: seq<Entry>, k: nat)
    requires k <= |d|
    ensures Reverse(Keep(Reverse(d[..k]))) == d[k - Least(PAGE, k)..k]
  {
    hide Reverse;
  }

  lemma SliceDown(d: seq<Entry>, top: nat, m: nat)
    requires m <= PAGE && top + PAGE + m <= |d|
    ensures d[top..top + PAGE][m..] + d[top + PAGE..][..m] == d[top + m..top + m + PAGE]
  {
  }

  lemma SliceUp(d: seq<Entry>, top: nat, count: nat, m: nat, v: seq<Entry>)
    requires |v| == PAGE && count <= PAGE && m <= PAGE && m <= top && top + count <= |d|
    requires v[..count] == d[top..top + count]
    ensures var c := Least(PAGE, count + m);
            (d[top - m..top] + v[..PAGE - m])[..c] == d[top - m..top - m + c]
  {
    var c := Least(PAGE, count + m);
    var w := d[top - m..top] + v[..PAGE - m];
    forall i | 0 <= i < c ensures w[i] == d[top - m + i] {
      if i >= m { assert w[i] == v[..count][i - m]; }
    }
  }

  /** Where any sequence of modes brings a window that has been started. */
  function Reached(modes: seq<Mode>, n: nat): Position {
    if modes == [] then Moved(Init, n, Position(0, 0, 0))
    else Moved(modes[|modes| - 1], n, Reached(modes[..|modes| - 1], n))
  }

  /** Along every run the window is as full as the directory allows. */
  lemma {:induction false} ReachedIsFull(modes: seq<Mode>, n: nat)
    ensures Within(Reached(modes, n), n)
    ensures Reached(modes, n).count == if n < 8 then n else 8
  {
    if modes != [] {
      ReachedIsFull(modes[..|modes| - 1], n);
      MovedIsWithin(modes[|modes| - 1], n, Reached(modes[..|modes| - 1], n));
    }
  }

  /** The place in the whole directory of the selected entry. */
  function Cursor(at: Position): nat {
    at.top + at.selected
  }

  /** The selection steps through the directory one entry, or one page, at a time and stops at either end. */
  lemma CursorMoves(n: nat, at: Position)
    requires n > 0 && Within(at, n) && at.count == if n < 8 then n else 8
    ensures Cursor(at) < n
    ensures Cursor(Moved(Next, n, at)) == Least(Cursor(at) + 1, n - 1)
    ensures Cursor(Moved(Prev, n, at)) == if Cursor(at) > 0 then Cursor(at) - 1 else 0
    ensures Cursor(Moved(NextPage, n, at))
         == if at.selected + 1 < at.count then at.top + at.count - 1 else Least(Cursor(at) + 8, n - 1)
    ensures Cursor(Moved(PrevPage, n, at))
         == if at.selected > 0 then at.top else if Cursor(at) > 8 then Cursor(at) - 8 else 0
  {
    OneMoves(n, at);
    PageMoves(n, at);
    hide Moved;
  }

  lemma OneMoves(n: nat, at: Position)
    requires n > 0 && Within(at, n) && at.count == if n < 8 then n else 8
    ensures Cursor(Moved(Next, n, at)) == Least(Cursor(at) + 1, n - 1)
    ensures Cursor(Moved(Prev, n, at)) == if Cursor(at) > 0 then Cursor(at) - 1 else 0
  {
  }

  lemma PageMoves(n: nat, at: Position)
    requires n > 0 && Within(at, n) && at.count == if n < 8 then n else 8
    ensures Cursor(Moved(NextPage, n, at))
         == if at.selected + 1 < at.count then at.top + at.count - 1 else Least(Cursor(at) + 8, n - 1)
    ensures Cursor(Moved(PrevPage, n, at))
         == if at.selected > 0 then at.top else if Cursor(at) > 8 then Cursor(at) - 8 else 0
  {
  }

  /** The window goes no further than it must to have the selected entry in it. */
  lemma ScrollsNoFurther(mode: Mode, n: nat, at: Position)
    requires n > 0 && Within(at, n) && at.count == (if n < 8 then n else 8) && mode != Init
    ensures var now, size := Moved(mode, n, at), if n < 8 then n else 8;
            && now.count == size
            && now.top == (if Cursor(now) < at.top then Cursor(now)
                           else if Cursor(now) >= at.top + size then Cursor(now) - size + 1
                           else at.top)
  {
  }

  function Nexts(k: nat): (r: seq<Mode>)
    ensures |r| == k
  {
    if k == 0 then [] else Nexts(k - 1) + [Next]
  }

  /** The selected entry of a window is the one at the cursor. */
  lemma SelectedIsAtCursor(listing: seq<Entry>, at: Position)
    requires Within(at, |listing|) && at.count > 0
    ensures Cursor(at) < |listing|
    ensures Slice(listing, at)[at.selected] == Ordered(true, listing)[Cursor(at)]
  {
    hide Ordered;
  }

  /** Every entry of the directory can be selected, and is by as many steps as stand before it. */
  lemma {:induction false} EveryEntryIsReached(n: nat, k: nat)
    requires k < n
    ensures Cursor(Reached(Nexts(k), n)) == k
  {
    hide Moved, Reached, Nexts, Within, Cursor;
    if k == 0 {
      ReachedFirst(n);
    } else {
      EveryEntryIsReached(n, k - 1);
      ReachedNext(n, k - 1);
      ReachedIsFull(Nexts(k - 1), n);
      CursorMoves(n, Reached(Nexts(k - 1), n));
    }
  }

  lemma ReachedFirst(n: nat)
    ensures Cursor(Reached(Nexts(0), n)) == 0
  {
  }

  lemma ReachedNext(n: nat, k: nat)
    ensures Reached(Nexts(k + 1), n) == Moved(Next, n, Reached(Nexts(k), n))
  {
    var modes := Nexts(k + 1);
    assert modes[..k] == Nexts(k) && modes[k] == Next;
  }

  /** What a new window leaves out comes after everything it shows. */
  lemma StartShowsTheLeast(listing: seq<Entry>, e: Entry, f: Entry)
    requires Distinct(listing)
    requires Within(Reached([], |listing|), |listing|)
    requires e in Slice(listing, Reached([], |listing|))
    requires f in listing && f !in Slice(listing, Reached([], |listing|))
    ensures e in listing && e.key < f.key
  {
    var d, m := Ordered(true, listing), Least(PAGE, |listing|);
    OrderedIsSorted(true, listing);
    assert Slice(listing, Reached([], |listing|)) == d[..m];
    var i :| 0 <= i < m && d[..m][i] == e;
    var j :| 0 <= j < |d| && d[j] == f;
    assert forall a :: 0 <= a < m ==> d[..m][a] == d[a] && d[a] in d[..m];
    assert j >= m;
  }

  /** The listing that the window is over: the entries of the directory, each key less than the next. */
  lemma ListedByKey(listing: seq<Entry>)
    requires Distinct(listing)
    ensures |Ordered(true, listing)| == |listing|
    ensures forall e :: e in Ordered(true, listing) <==> e in listing
    ensures forall i, j :: 0 <= i < j < |listing| ==> Ordered(true, listing)[i].key < Ordered(true, listing)[j].key
  {
    OrderedIsSorted(true, listing);
  }

  /** A directory is browsed, in any way: the window always shows where the run has brought it. */
  method Browse(listing: seq<Entry>, modes: seq<Mode>) returns (window: Window)
    requires Distinct(listing)
    ensures fresh(window) && window.Shows(listing)
    ensures window.At() == Reached(modes, |listing|)
    ensures window.count > 0 ==>
              Slice(listing, window.At())[window.selected] == Ordered(true, listing)[Cursor(window.At())]
  {
    window := new Window();
    window.ScanInit(listing);
    for k := 0 to |modes|
      invariant fresh(window) && fresh(window.shown.table) && fresh(window.shown.slots)
      invariant fresh(window.found.table) && fresh(window.found.slots)
      invariant window.Shows(listing) && window.At() == Reached(modes[..k], |listing|)
    {
      assert modes[..k + 1][..k] == modes[..k];
      window.Scan(listing, modes[k]);
    }
    assert modes[..|modes|] == modes;
    if window.count > 0 {
      SelectedIsAtCursor(listing, window.At());
    }
  }
}
