/**
 The entropy-coded byte stream: packing bits into bytes, stuffing a zero after
 every 0xFF, padding with ones, restart markers, and the reader of section
 F.2.2.5 of ITU-T T.81 that undoes all of it.
 */
module ByteStream {
  import opened BitString

  type byte = x: int | 0 <= x < 256

  const RST0: byte := 0xD0

  /** What has been sent: whole bytes, and fewer than eight bits waiting for the next byte. */
  datatype Sink = Sink(bytes: seq<byte>, pending: Bits)

  /** One step of an encoder's output: data bits, or a restart marker with its number. */
  datatype Item = Data(bits: Bits) | Restart(num: nat)

  datatype Option<+T> = None | Some(value: T)

  const EMPTY := Sink([], [])

  function ByteOf(b: Bits): (c: byte)
    requires |b| == 8
  {
    Pow2Constants();
    Val(b)
  }

  function ByteBits(c: byte): (b: Bits)
    ensures |b| == 8
  {
    BitsOf(c, 8)
  }

  function Stuffed(c: byte): seq<byte> {
    if c == 0xFF then [0xFF, 0] else [c]
  }

  /** The stuffed bytes made of the complete octets of `b`. */
  function Pack(b: Bits): seq<byte> {
    if |b| < 8 then [] else Stuffed(ByteOf(b[..8])) + Pack(b[8..])
  }

  /** The bits of `b` that do not fill an octet. */
  function Residue(b: Bits): (r: Bits)
    ensures |r| == |b| % 8
    ensures |b| < 8 ==> r == b
  {
    if |b| < 8 then b else Residue(b[8..])
  }

  function Put(s: Sink, b: Bits): Sink {
    Sink(s.bytes + Pack(s.pending + b), Residue(s.pending + b))
  }

  /** Fill the current byte with ones and drop what is left over. */
  function Flush(s: Sink): Sink {
    Sink(Put(s, Ones(7)).bytes, [])
  }

  function RestartCode(num: nat): seq<byte>
    requires num < 8
  {
    [0xFF, RST0 + num]
  }

  function PutItem(s: Sink, it: Item): Sink
    requires it.Restart? ==> it.num < 8
  {
    match it
    case Data(b) => Put(s, b)
    case Restart(n) => Sink(Flush(s).bytes + RestartCode(n), [])
  }

  predicate WellNumbered(items: seq<Item>) {
    forall i :: 0 <= i < |items| && items[i].Restart? ==> items[i].num < 8
  }

  function PutAll(s: Sink, items: seq<Item>): Sink
    requires WellNumbered(items)
  {
    if items == [] then s else PutItem(PutAll(s, items[..|items| - 1]), items[|items| - 1])
  }

  lemma {:induction false} PutAllConcat(s: Sink, a: seq<Item>, b: seq<Item>)
    requires WellNumbered(a) && WellNumbered(b)
    ensures WellNumbered(a + b)
    ensures PutAll(s, a + b) == PutAll(PutAll(s, a), b)
  {
    if b == [] {
      assert a + b == a;
    } else {
      var b' := b[..|b| - 1];
      PutAllConcat(s, a, b');
      assert (a + b)[..|a + b| - 1] == a + b';
    }
  }

  /** What a sink already holds does not influence what is added to it. */
  lemma {:induction false} PutAllAppends(s: Sink, items: seq<Item>)
    requires WellNumbered(items)
    ensures var added := PutAll(Sink([], s.pending), items);
            PutAll(s, items) == Sink(s.bytes + added.bytes, added.pending)
  {
    if items == [] {
      assert s.bytes + [] == s.bytes;
    } else {
      var added := PutAll(Sink([], s.pending), items[..|items| - 1]);
      PutAllAppends(s, items[..|items| - 1]);
      PutItemAppends(s.bytes, added, items[|items| - 1]);
    }
  }

  lemma PutItemAppends(before: seq<byte>, s: Sink, it: Item)
    requires it.Restart? ==> it.num < 8
    ensures var added := PutItem(s, it);
            PutItem(Sink(before + s.bytes, s.pending), it) == Sink(before + added.bytes, added.pending)
    ensures Flush(Sink(before + s.bytes, s.pending)).bytes == before + Flush(s).bytes
  {
    hide Pack, Residue;
    var ones := Pack(s.pending + Ones(7));
    Assoc(before, s.bytes, ones);
    match it
    case Data(b) =>
      Assoc(before, s.bytes, Pack(s.pending + b));
    case Restart(n) =>
      Assoc(before, s.bytes + ones, RestartCode(n));
  }

  lemma Assoc<T>(a: seq<T>, b: seq<T>, c: seq<T>)
    ensures a + (b + c) == (a + b) + c
  {
  }

  // ----- packing distributes over concatenation

  lemma {:induction false} PackConcat(a: Bits, b: Bits)
    ensures Pack(a + b) == Pack(a) + Pack(Residue(a) + b)
    ensures Residue(a + b) == Residue(Residue(a) + b)
  {
    if |a| >= 8 {
      assert (a + b)[..8] == a[..8] && (a + b)[8..] == a[8..] + b;
      PackConcat(a[8..], b);
    }
  }

  /** Sending in two parts is sending the concatenation. */
  lemma PutPut(s: Sink, a: Bits, b: Bits)
    ensures Put(Put(s, a), b) == Put(s, a + b)
  {
    var x := s.pending + a;
    PackConcat(x, b);
    assert s.pending + (a + b) == x + b;
    Assoc(s.bytes, Pack(x), Pack(Residue(x) + b));
  }

  /** No 0xFF ever reaches the stream without the zero that follows it. */
  lemma {:induction false} EveryFFIsStuffed(b: Bits, i: nat)
    requires i < |Pack(b)| && Pack(b)[i] == 0xFF
    ensures i + 1 < |Pack(b)| && Pack(b)[i + 1] == 0
  {
    var head := Stuffed(ByteOf(b[..8]));
    assert Pack(b) == head + Pack(b[8..]);
    if i >= |head| {
      EveryFFIsStuffed(b[8..], i - |head|);
    }
  }

  // ----- reading back

  /** The bits up to the next marker or the end, and the bytes from there on. */
  function ReadSegment(s: seq<byte>): (r: (Bits, seq<byte>))
    ensures |r.1| <= |s|
  {
    if s == [] then ([], [])
    else if s[0] != 0xFF then
      var (b, rest) := ReadSegment(s[1..]);
      (ByteBits(s[0]) + b, rest)
    else if |s| >= 2 && s[1] == 0 then
      var (b, rest) := ReadSegment(s[2..]);
      (ByteBits(0xFF) + b, rest)
    else ([], s)
  }

  predicate AtMarkerOrEnd(s: seq<byte>) {
    s == [] || (|s| >= 2 && s[0] == 0xFF && s[1] != 0)
  }

  lemma {:induction false} PackReadsBack(b: Bits, tail: seq<byte>)
    requires AtMarkerOrEnd(tail)
    ensures ReadSegment(Pack(b) + tail) == (b[..|b| - |b| % 8], tail)
  {
    if |b| < 8 {
      assert Pack(b) + tail == tail;
    } else {
      var rest := Pack(b[8..]) + tail;
      PackReadsBack(b[8..], tail);
      BitsOfVal(b[..8]);
      ReadStuffed(ByteOf(b[..8]), rest);
      Assoc(Stuffed(ByteOf(b[..8])), Pack(b[8..]), tail);
      WholeOctets(b);
    }
  }

  lemma WholeOctets(b: Bits)
    requires |b| >= 8
    ensures b[..8] + b[8..][..|b| - 8 - |b[8..]| % 8] == b[..|b| - |b| % 8]
  {
  }

  lemma ReadStuffed(c: byte, rest: seq<byte>)
    ensures ReadSegment(Stuffed(c) + rest) == (ByteBits(c) + ReadSegment(rest).0, ReadSegment(rest).1)
  {
    var s := Stuffed(c) + rest;
    if c == 0xFF {
      assert s[2..] == rest;
    } else {
      assert s[1..] == rest;
    }
  }

  /** How many one-bits bring a segment of `n` bits up to a byte boundary. */
  function PadLength(n: nat): (p: nat)
    ensures p < 8 && (n + p) % 8 == 0
  {
    (8 - n % 8) % 8
  }

  function Padded(b: Bits): Bits {
    b + Ones(PadLength(|b|))
  }

  /** The bytes of one flushed segment. */
  function SegmentBytes(b: Bits): seq<byte> {
    Pack(b + Ones(7))
  }

  lemma PaddingCompletesTheOctet(b: Bits)
    ensures var n := |b| + 7; (b + Ones(7))[..n - n % 8] == Padded(b)
  {
    var n := |b| + 7;
    assert n - n % 8 == |b| + PadLength(|b|);
  }

  lemma SegmentReadsBack(b: Bits, tail: seq<byte>)
    requires AtMarkerOrEnd(tail)
    ensures ReadSegment(SegmentBytes(b) + tail) == (Padded(b), tail)
  {
    PackReadsBack(b + Ones(7), tail);
    PaddingCompletesTheOctet(b);
  }

  // ----- a whole scan: segments separated by restart markers

  /** The bytes of segments that have each been closed by a marker; numbering starts at `n`. */
  function Closed(segs: seq<Bits>, n: nat): seq<byte> {
    if segs == [] then []
    else SegmentBytes(segs[0]) + RestartCode(n % 8) + Closed(segs[1..], n + 1)
  }

  lemma {:induction false} ClosedSnoc(segs: seq<Bits>, b: Bits, n: nat)
    ensures Closed(segs + [b], n) == Closed(segs, n) + SegmentBytes(b) + RestartCode((n + |segs|) % 8)
  {
    hide SegmentBytes;
    if segs == [] {
      assert segs + [b] == [b];
      assert [b][1..] == [];
    } else {
      assert (segs + [b])[1..] == segs[1..] + [b];
      ClosedSnoc(segs[1..], b, n + 1);
      Regroup(SegmentBytes(segs[0]), RestartCode(n % 8), Closed(segs[1..], n + 1),
              SegmentBytes(b) + RestartCode((n + |segs|) % 8));
    }
  }

  /** The data between restart markers. */
  function Segments(items: seq<Item>): (segs: seq<Bits>)
    ensures |segs| > 0
  {
    if items == [] then [[]] else Extended(Segments(items[..|items| - 1]), items[|items| - 1])
  }

  function Extended(segs: seq<Bits>, it: Item): (r: seq<Bits>)
    requires |segs| > 0
    ensures |r| > 0
  {
    match it
    case Data(b) => segs[..|segs| - 1] + [segs[|segs| - 1] + b]
    case Restart(_) => segs + [[]]
  }

  /** Two lists of segments, the first continuing into the second. */
  function Joined(x: seq<Bits>, y: seq<Bits>): (r: seq<Bits>)
    requires |x| > 0 && |y| > 0
    ensures |r| == |x| + |y| - 1
  {
    x[..|x| - 1] + [x[|x| - 1] + y[0]] + y[1..]
  }

  lemma {:induction false} SegmentsConcat(a: seq<Item>, b: seq<Item>)
    ensures Segments(a + b) == Joined(Segments(a), Segments(b))
  {
    var x := Segments(a);
    if b == [] {
      assert a + b == a;
      assert x[|x| - 1] + [] == x[|x| - 1];
      assert Joined(x, [[]]) == x;
    } else {
      var b', it := b[..|b| - 1], b[|b| - 1];
      SegmentsConcat(a, b');
      assert (a + b)[..|a + b| - 1] == a + b' && (a + b)[|a + b| - 1] == it;
      JoinedGrows(x, Segments(b'), it);
    }
  }

  lemma JoinedGrows(x: seq<Bits>, y: seq<Bits>, it: Item)
    requires |x| > 0 && |y| > 0
    ensures Extended(Joined(x, y), it) == Joined(x, Extended(y, it))
  {
    if it.Data? && |y| == 1 {
      Assoc(x[|x| - 1], y[0], it.bits);
    }
  }

  /** Restart markers count 0, 1, ..., 7, 0, ... */
  predicate NumberedInOrder(items: seq<Item>) {
    items == [] ||
    (NumberedInOrder(items[..|items| - 1]) &&
     (items[|items| - 1].Restart? ==>
        items[|items| - 1].num == (|Segments(items[..|items| - 1])| - 1) % 8))
  }

  lemma {:induction false} NumberedIsWellNumbered(items: seq<Item>)
    requires NumberedInOrder(items)
    ensures WellNumbered(items)
  {
    if items != [] {
      var init := items[..|items| - 1];
      NumberedIsWellNumbered(init);
      assert items == init + [items[|items| - 1]];
    }
  }

  predicate AllData(items: seq<Item>) {
    forall i :: 0 <= i < |items| ==> items[i].Data?
  }

  /** Data items neither start a segment nor disturb the numbering. */
  lemma {:induction false} DataKeepsNumbering(a: seq<Item>, b: seq<Item>)
    requires NumberedInOrder(a) && AllData(b)
    ensures NumberedInOrder(a + b) && |Segments(a + b)| == |Segments(a)|
  {
    if b == [] {
      assert a + b == a;
    } else {
      DataKeepsNumbering(a, b[..|b| - 1]);
      assert (a + b)[..|a + b| - 1] == a + b[..|b| - 1];
    }
  }

  /** What any run of the writer has produced, in terms of its segments. */
  lemma {:induction false} SinkHoldsSegments(items: seq<Item>)
    requires NumberedInOrder(items) && WellNumbered(items)
    ensures var segs := Segments(items);
            var last := segs[|segs| - 1];
            PutAll(EMPTY, items)
              == Sink(Closed(segs[..|segs| - 1], 0) + Pack(last), Residue(last))
  {
    if items != [] {
      var init, it := items[..|items| - 1], items[|items| - 1];
      SinkHoldsSegments(init);
      var segs := Segments(init);
      var closed, last := segs[..|segs| - 1], segs[|segs| - 1];
      assert segs == closed + [last];
      match it
      case Data(b) =>
        PutOntoPacked(Closed(closed, 0), last, b);
        assert Segments(items) == closed + [last + b];
      case Restart(n) =>
        CloseSegment(closed, last);
        assert Segments(items) == segs + [[]];
    }
  }

  lemma PutOntoPacked(bytes: seq<byte>, last: Bits, b: Bits)
    ensures Put(Sink(bytes + Pack(last), Residue(last)), b)
         == Sink(bytes + Pack(last + b), Residue(last + b))
  {
    PackConcat(last, b);
    Assoc(bytes, Pack(last), Pack(Residue(last) + b));
  }

  lemma CloseSegment(closed: seq<Bits>, last: Bits)
    ensures var s := Sink(Closed(closed, 0) + Pack(last), Residue(last));
            Flush(s).bytes + RestartCode(|closed| % 8) == Closed(closed + [last], 0)
  {
    PutOntoPacked(Closed(closed, 0), last, Ones(7));
    ClosedSnoc(closed, last, 0);
  }

  /** The bytes of a finished scan. */
  function ScanBytes(items: seq<Item>): seq<byte>
    requires WellNumbered(items)
  {
    Flush(PutAll(EMPTY, items)).bytes
  }

  /** The decoder's view: split at the restart markers, checking their numbers. */
  function ReadScan(s: seq<byte>, n: nat): (r: Option<seq<Bits>>)
    decreases |s|
  {
    var (b, rest) := ReadSegment(s);
    if rest == [] then Some([b])
    else if |rest| >= 2 && rest[0] == 0xFF && rest[1] == 0xD0 + n % 8 then
      match ReadScan(rest[2..], n + 1)
      case None => None
      case Some(more) => Some([b] + more)
    else None
  }

  function PaddedAll(segs: seq<Bits>): (r: seq<Bits>)
    ensures |r| == |segs|
  {
    seq(|segs|, i requires 0 <= i < |segs| => Padded(segs[i]))
  }

  lemma {:induction false} ClosedReadsBack(closed: seq<Bits>, last: Bits, n: nat)
    ensures ReadScan(Closed(closed, n) + SegmentBytes(last), n) == Some(PaddedAll(closed + [last]))
    decreases |closed|
  {
    hide ReadScan, SegmentBytes, RestartCode, PaddedAll, Padded;
    if closed == [] {
      LastReadsBack(last, n);
      assert Closed(closed, n) + SegmentBytes(last) == SegmentBytes(last);
      assert closed + [last] == [last];
    } else {
      var first, others := closed[0], closed[1..];
      ClosedReadsBack(others, last, n + 1);
      ReadFirstSegment(first, Closed(others, n + 1) + SegmentBytes(last), n);
      Regroup(SegmentBytes(first), RestartCode(n % 8), Closed(others, n + 1), SegmentBytes(last));
      assert closed + [last] == [first] + (others + [last]);
      PaddedCons(first, others + [last]);
    }
  }

  lemma LastReadsBack(last: Bits, n: nat)
    ensures ReadScan(SegmentBytes(last), n) == Some(PaddedAll([last]))
  {
    SegmentReadsBack(last, []);
    assert SegmentBytes(last) + [] == SegmentBytes(last);
    assert PaddedAll([last]) == [Padded(last)];
  }

  lemma Regroup<T>(a: seq<T>, b: seq<T>, c: seq<T>, d: seq<T>)
    ensures a + b + c + d == a + (b + (c + d))
  {
  }

  lemma PaddedCons(b: Bits, segs: seq<Bits>)
    ensures PaddedAll([b] + segs) == [Padded(b)] + PaddedAll(segs)
  {
  }

  lemma ReadFirstSegment(b: Bits, more: seq<byte>, n: nat)
    requires ReadScan(more, n + 1).Some?
    ensures ReadScan(SegmentBytes(b) + (RestartCode(n % 8) + more), n)
         == Some([Padded(b)] + ReadScan(more, n + 1).value)
  {
    var tail := RestartCode(n % 8) + more;
    SegmentReadsBack(b, tail);
    assert tail[..2] == RestartCode(n % 8) && tail[2..] == more;
  }

  /**
   The reader recovers from the bytes of a finished scan exactly the bits sent
   between restarts, each segment followed by fewer than eight padding ones.
   */
  lemma ScanReadsBack(items: seq<Item>)
    requires NumberedInOrder(items) && WellNumbered(items)
    ensures ReadScan(ScanBytes(items), 0) == Some(PaddedAll(Segments(items)))
  {
    var segs := Segments(items);
    var closed, last := segs[..|segs| - 1], segs[|segs| - 1];
    SinkHoldsSegments(items);
    PutOntoPacked(Closed(closed, 0), last, Ones(7));
    hide ReadScan, Pack, Closed, PutAll;
    assert ScanBytes(items) == Closed(closed, 0) + SegmentBytes(last);
    ClosedReadsBack(closed, last, 0);
    assert segs == closed + [last];
  }

  /** A segment as it reads back: its own bits, and up to seven ones to the end of the byte. */
  predicate FilledWithOnes(bits: Bits, read: Bits) {
    && |bits| <= |read| < |bits| + 8 && |read| % 8 == 0 && bits == read[..|bits|]
    && forall j :: |bits| <= j < |read| ==> read[j]
  }

  /** Whatever a scan sends between restarts is read back so. */
  lemma OnesFillTheLastByte(items: seq<Item>)
    requires NumberedInOrder(items) && WellNumbered(items)
    ensures var r := ReadScan(ScanBytes(items), 0);
            && r.Some? && |r.value| == |Segments(items)|
            && forall i :: 0 <= i < |r.value| ==> FilledWithOnes(Segments(items)[i], r.value[i])
  {
    hide ReadScan, ScanBytes, Segments, NumberedInOrder;
    ScanReadsBack(items);
    var segs := Segments(items);
    forall i | 0 <= i < |segs| ensures FilledWithOnes(segs[i], PaddedAll(segs)[i]) {
      OnlyOnes(PadLength(|segs[i]|));
    }
  }

  lemma {:induction false} OnlyOnes(n: nat)
    ensures |Ones(n)| == n && forall j :: 0 <= j < n ==> Ones(n)[j]
  {
    if n > 0 {
      OnlyOnes(n - 1);
    }
  }

  // ----- no stray markers

  /** Whatever follows an 0xFF is the stuffed zero or makes a restart marker of it. */
  predicate OnlyRestartMarkers(s: seq<byte>) {
    forall i :: 0 <= i < |s| && s[i] == 0xFF ==> i + 1 < |s| && (s[i + 1] == 0 || RST0 <= s[i + 1] < RST0 + 8)
  }

  lemma OnlyMarkersConcat(a: seq<byte>, b: seq<byte>)
    requires OnlyRestartMarkers(a) && OnlyRestartMarkers(b)
    ensures OnlyRestartMarkers(a + b)
  {
    var s := a + b;
    forall i | 0 <= i < |s| && s[i] == 0xFF
      ensures i + 1 < |s| && (s[i + 1] == 0 || RST0 <= s[i + 1] < RST0 + 8)
    {
      if i < |a| {
        assert a[i] == s[i] && a[i + 1] == s[i + 1];
      } else {
        assert b[i - |a|] == s[i] && b[i + 1 - |a|] == s[i + 1];
      }
    }
  }

  lemma PackedHasNoMarkers(b: Bits)
    ensures OnlyRestartMarkers(Pack(b))
  {
    hide Pack;
    forall i | 0 <= i < |Pack(b)| && Pack(b)[i] == 0xFF ensures i + 1 < |Pack(b)| && Pack(b)[i + 1] == 0 {
      EveryFFIsStuffed(b, i);
    }
  }

  lemma {:induction false} PutAllHasOnlyMarkers(items: seq<Item>)
    requires WellNumbered(items)
    ensures OnlyRestartMarkers(PutAll(EMPTY, items).bytes)
  {
    if items != [] {
      var s, it := PutAll(EMPTY, items[..|items| - 1]), items[|items| - 1];
      PutAllHasOnlyMarkers(items[..|items| - 1]);
      hide OnlyRestartMarkers, Pack;
      match it
      case Data(b) =>
        PackedHasNoMarkers(s.pending + b);
        OnlyMarkersConcat(s.bytes, Pack(s.pending + b));
      case Restart(n) =>
        PackedHasNoMarkers(s.pending + Ones(7));
        OnlyMarkersConcat(s.bytes, Pack(s.pending + Ones(7)));
        RestartCodeIsMarker(n);
        OnlyMarkersConcat(Flush(s).bytes, RestartCode(n));
    }
  }

  lemma RestartCodeIsMarker(n: nat)
    requires n < 8
    ensures OnlyRestartMarkers(RestartCode(n))
  {
  }

  /** A finished scan, whatever its data, holds no marker besides the restarts, and no 0xFF at its end. */
  lemma ScanHasOnlyMarkers(items: seq<Item>)
    requires WellNumbered(items)
    ensures OnlyRestartMarkers(ScanBytes(items))
  {
    hide OnlyRestartMarkers, Pack, PutAll;
    var s := PutAll(EMPTY, items);
    PutAllHasOnlyMarkers(items);
    PackedHasNoMarkers(s.pending + Ones(7));
    OnlyMarkersConcat(s.bytes, Pack(s.pending + Ones(7)));
  }
}
