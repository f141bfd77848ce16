/**
 The order in which a directory is shown, in either direction: insertion into a sorted run, the
 sorted run of a whole directory, and the first eight of it.
 */
module EntryOrder {
  /**
   A directory entry. The key is its place in the order that the comparison of two entries
   (fat.c:401-446) is taken to be; the rest of the entry goes along with it.
   */
  datatype Entry = Entry(key: int, cluster: nat)

  const PAGE: nat := 8                  // MAXDIRENTRIES

  /** Whether one entry comes before another going up, or going down. */
  predicate Ahead(up: bool, a: Entry, b: Entry) {
    if up then a.key < b.key else b.key < a.key
  }

  /** No two entries of a directory compare as equal. */
  ghost predicate Distinct(s: seq<Entry>) {
    forall i, j :: 0 <= i < j < |s| ==> s[i].key != s[j].key
  }

  ghost predicate Sorted(up: bool, s: seq<Entry>) {
    forall i, j :: 0 <= i < j < |s| ==> Ahead(up, s[i], s[j])
  }

  /** The run with one more entry put in its place, found from the end. */
  function Insert(up: bool, s: seq<Entry>, x: Entry): (r: seq<Entry>)
    ensures |r| == |s| + 1
  {
    if s == [] || !Ahead(up, x, s[|s| - 1]) then s + [x] else Insert(up, s[..|s| - 1], x) + [s[|s| - 1]]
  }

  /** The entries of a directory in order. */
  function Ordered(up: bool, s: seq<Entry>): (r: seq<Entry>)
    ensures |r| == |s|
  {
    if s == [] then [] else Insert(up, Ordered(up, s[..|s| - 1]), s[|s| - 1])
  }

  /** At most a page from the front. */
  function Keep(s: seq<Entry>): (r: seq<Entry>) {
    if |s| <= PAGE then s else s[..PAGE]
  }

  /** The entries that come after a given one, in the order of the directory. */
  function After(up: bool, s: seq<Entry>, e: Entry): seq<Entry> {
    if s == [] then []
    else
      var rest := After(up, s[..|s| - 1], e);
      if Ahead(up, e, s[|s| - 1]) then rest + [s[|s| - 1]] else rest
  }

  /** An entry whose key is none of those in a run. */
  ghost predicate Apart(s: seq<Entry>, x: Entry) {
    forall i :: 0 <= i < |s| ==> s[i].key != x.key
  }

  lemma {:induction false} InsertAt(up: bool, s: seq<Entry>, x: Entry) returns (k: nat)
    requires Sorted(up, s) && Apart(s, x)
    ensures k <= |s| && Insert(up, s, x) == s[..k] + [x] + s[k..]
    ensures forall i :: 0 <= i < k ==> Ahead(up, s[i], x)
    ensures forall i :: k <= i < |s| ==> Ahead(up, x, s[i])
  {
    if s == [] || !Ahead(up, x, s[|s| - 1]) {
      k := |s|;
      assert s[..k] + [x] + s[k..] == s + [x];
    } else {
      var front, last := s[..|s| - 1], s[|s| - 1];
      k := InsertAt(up, front, x);
      assert front[..k] == s[..k];
      assert s[k..] == front[k..] + [last];
      assert s[..k] + [x] + s[k..] == front[..k] + [x] + front[k..] + [last];
    }
  }

  /** Insertion keeps the run sorted and adds the entry and nothing else. */
  lemma InsertKeepsOrder(up: bool, s: seq<Entry>, x: Entry)
    requires Sorted(up, s) && Apart(s, x)
    ensures Sorted(up, Insert(up, s, x))
    ensures forall e :: e in Insert(up, s, x) <==> e == x || e in s
  {
    var k := InsertAt(up, s, x);
    var r := s[..k] + [x] + s[k..];
    forall i, j | 0 <= i < j < |r| ensures Ahead(up, r[i], r[j]) {
      assert r[i] == if i < k then s[i] else if i == k then x else s[i - 1];
      assert r[j] == if j < k then s[j] else if j == k then x else s[j - 1];
    }
    assert s == s[..k] + s[k..];
  }

  /** Ordering a directory keeps its entries and puts them in order. */
  lemma {:induction false} OrderedIsSorted(up: bool, s: seq<Entry>)
    requires Distinct(s)
    ensures Sorted(up, Ordered(up, s))
    ensures forall e :: e in Ordered(up, s) <==> e in s
  {
    if s != [] {
      var front, x := s[..|s| - 1], s[|s| - 1];
      OrderedIsSorted(up, front);
      var d := Ordered(up, front);
      forall i | 0 <= i < |d| ensures d[i].key != x.key { assert d[i] in front; }
      InsertKeepsOrder(up, d, x);
      assert s == front + [x];
    }
  }

  lemma HasFirst(s: seq<Entry>)
    requires s != []
    ensures exists e :: e in s
  {
    assert s[0] in s;
  }

  /** There is one sorted run of a given set of entries. */
  lemma {:induction false} SortedIsUnique(up: bool, a: seq<Entry>, b: seq<Entry>)
    requires Sorted(up, a) && Sorted(up, b)
    requires forall e :: e in a <==> e in b
    ensures a == b
  {
    if a == [] {
      if b != [] { HasFirst(b); }
    } else {
      assert a[0] in b;
      assert b[0] in a;
      assert a[0] == b[0];
      var s, t := a[1..], b[1..];
      forall e ensures e in s <==> e in t {
        OneLess(up, a, e);
        OneLess(up, b, e);
      }
      SortedIsUnique(up, s, t);
      assert a == [a[0]] + s && b == [b[0]] + t;
    }
  }

  lemma OneLess(up: bool, a: seq<Entry>, e: Entry)
    requires a != [] && Sorted(up, a)
    ensures e in a[1..] <==> e in a && e != a[0]
  {
    if e in a && e != a[0] {
      var i :| 0 <= i < |a| && a[i] == e;
      assert a[1..][i - 1] == e;
    }
  }

  /** Where the entry goes settles the insertion. */
  lemma {:induction false} InsertIs(up: bool, s: seq<Entry>, x: Entry, k: nat)
    requires k <= |s|
    requires forall i :: 0 <= i < k ==> Ahead(up, s[i], x)
    requires forall i :: k <= i < |s| ==> Ahead(up, x, s[i])
    ensures Insert(up, s, x) == s[..k] + [x] + s[k..]
  {
    if k == |s| {
      assert s[..k] + [x] + s[k..] == s + [x];
    } else {
      var front, last := s[..|s| - 1], s[|s| - 1];
      InsertIs(up, front, x, k);
      assert front[..k] == s[..k];
      assert s[k..] == front[k..] + [last];
      assert s[..k] + [x] + s[k..] == front[..k] + [x] + front[k..] + [last];
    }
  }

  /** Keeping a page as entries come in is keeping a page of them all. */
  lemma KeepInsert(up: bool, s: seq<Entry>, x: Entry)
    requires Sorted(up, s) && Apart(s, x)
    ensures Keep(Insert(up, s, x))
         == if |s| < PAGE then Insert(up, Keep(s), x)
            else if Ahead(up, x, Keep(s)[PAGE - 1]) then Insert(up, Keep(s)[..PAGE - 1], x)
            else Keep(s)
  {
    var k := InsertAt(up, s, x);
    if |s| >= PAGE {
      PageInsert(up, s, x, k);
      assert Keep(s) == s[..PAGE] && Keep(s)[..PAGE - 1] == s[..PAGE - 1];
    }
  }

  lemma PageInsert(up: bool, s: seq<Entry>, x: Entry, k: nat)
    requires |s| >= PAGE && k <= |s|
    requires Insert(up, s, x) == s[..k] + [x] + s[k..]
    requires forall i :: 0 <= i < k ==> Ahead(up, s[i], x)
    requires forall i :: k <= i < |s| ==> Ahead(up, x, s[i])
    ensures Insert(up, s, x)[..PAGE]
         == if Ahead(up, x, s[PAGE - 1]) then Insert(up, s[..PAGE - 1], x) else s[..PAGE]
  {
    if k < PAGE {
      var t := s[..PAGE - 1];
      InsertIs(up, t, x, k);
      assert Ahead(up, x, s[PAGE - 1]);
      assert (s[..k] + [x] + s[k..])[..PAGE] == t[..k] + [x] + t[k..];
    } else {
      assert Ahead(up, s[PAGE - 1], x);
      assert (s[..k] + [x] + s[k..])[..PAGE] == s[..PAGE];
    }
  }

  lemma {:induction false} AfterHolds(up: bool, s: seq<Entry>, e: Entry)
    ensures forall y :: y in After(up, s, e) <==> y in s && Ahead(up, e, y)
  {
    if s != [] {
      AfterHolds(up, s[..|s| - 1], e);
      assert s == s[..|s| - 1] + [s[|s| - 1]];
    }
  }

  lemma {:induction false} AfterDistinct(up: bool, s: seq<Entry>, e: Entry)
    requires Distinct(s)
    ensures Distinct(After(up, s, e))
  {
    if s != [] {
      var front, x := s[..|s| - 1], s[|s| - 1];
      AfterDistinct(up, front, e);
      var rest := After(up, front, e);
      AfterHolds(up, front, e);
      forall i | 0 <= i < |rest| ensures rest[i].key != x.key { assert rest[i] in front; }
    }
  }

  /** What comes after an entry, going up, is the rest of the ordered directory. */
  lemma AfterUp(s: seq<Entry>, k: nat)
    requires Distinct(s) && k < |s|
    ensures Ordered(true, After(true, s, Ordered(true, s)[k])) == Ordered(true, s)[k + 1..]
  {
    var d := Ordered(true, s);
    OrderedIsSorted(true, s);
    AfterDistinct(true, s, d[k]);
    var g := After(true, s, d[k]);
    OrderedIsSorted(true, g);
    forall e ensures e in Ordered(true, g) <==> e in d[k + 1..] {
      AfterHolds(true, s, d[k]);
      AfterIn(d, k, e);
    }
    SortedIsUnique(true, Ordered(true, g), d[k + 1..]);
  }

  function Reverse(s: seq<Entry>): (r: seq<Entry>)
    ensures |r| == |s|
    ensures forall i :: 0 <= i < |s| ==> r[i] == s[|s| - 1 - i]
  {
    if s == [] then [] else Reverse(s[1..]) + [s[0]]
  }

  /** What comes after an entry, going down, is what stands before it, backwards. */
  lemma AfterDown(s: seq<Entry>, k: nat)
    requires Distinct(s) && k < |s|
    ensures Ordered(false, After(false, s, Ordered(true, s)[k])) == Reverse(Ordered(true, s)[..k])
  {
    var d := Ordered(true, s);
    OrderedIsSorted(true, s);
    AfterDistinct(false, s, d[k]);
    var g := After(false, s, d[k]);
    OrderedIsSorted(false, g);
    var r := Reverse(d[..k]);
    forall e ensures e in Ordered(false, g) <==> e in r {
      AfterHolds(false, s, d[k]);
      BeforeIn(d, k, e);
    }
    SortedIsUnique(false, Ordered(false, g), r);
  }

  lemma BeforeIn(d: seq<Entry>, k: nat, e: Entry)
    requires Sorted(true, d) && k < |d|
    ensures e in Reverse(d[..k]) <==> e in d && Ahead(false, d[k], e)
  {
    var r := Reverse(d[..k]);
    if e in d && Ahead(false, d[k], e) {
      var i :| 0 <= i < |d| && d[i] == e;
      assert r[k - 1 - i] == e;
    }
    if e in r {
      var i :| 0 <= i < |r| && r[i] == e;
      assert d[k - 1 - i] == e;
    }
  }

  lemma AfterIn(d: seq<Entry>, k: nat, e: Entry)
    requires Sorted(true, d) && k < |d|
    ensures e in d[k + 1..] <==> e in d && Ahead(true, d[k], e)
  {
    if e in d && Ahead(true, d[k], e) {
      var i :| 0 <= i < |d| && d[i] == e;
      assert d[k + 1..][i - k - 1] == e;
    }
  }
}
