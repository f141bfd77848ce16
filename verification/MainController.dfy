/**
 The main buffer controller of jcmainct.c on top of the context rows, and the application's
 calls of jpeg_write_scanlines: the compressor gets the same iMCU rows whatever the calls.
 */
module MainController {
  import opened ContextRows

  const DCTSIZE := 8

  type Downsampler = seq<Row> -> Group

  /** The m-th iMCU row of the image. */
  function ImcuRow(image: seq<Row>, v: nat, down: Downsampler, m: nat): (r: seq<Group>)
    requires |image| > 0
    ensures |r| == DCTSIZE
  {
    seq(DCTSIZE, o requires 0 <= o < DCTSIZE => down(Window(image, v, DCTSIZE * m + o)))
  }

  /** total_iMCU_rows, as jcmaster.c computes it. */
  function TotalRows(height: nat, v: nat): nat
    requires v > 0
  {
    (height + v * DCTSIZE - 1) / (v * DCTSIZE)
  }

  /** The least number of iMCU rows, of eight row groups each, that covers the image. */
  lemma RowsCover(height: nat, v: nat)
    requires v > 0 && height > 0
    ensures TotalRows(height, v) > 0
    ensures (TotalRows(height, v) - 1) * (8 * v) < height <= TotalRows(height, v) * (8 * v)
  {
    var t, u := TotalRows(height, v), 8 * v;
    assert height + u - 1 == t * u + (height + u - 1) % u;
    assert (t - 1) * u == t * u - u;
  }

  /** Row n of the image comes to the compressor with its iMCU row, in the middle of the window of its row group. */
  lemma EveryRowIsCompressed(image: seq<Row>, v: nat, down: Downsampler, n: nat)
    requires v > 0 && n < |image|
    ensures var g := n / v;
            && g / 8 < |Batch(image, v, down)| && Batch(image, v, down)[g / 8][g % 8] == down(Window(image, v, g))
            && Window(image, v, g)[v + n % v] == image[n]
  {
    var g, t := n / v, TotalRows(|image|, v);
    RowsCover(|image|, v);
    EveryRowIsSeen(image, v, n);
    GroupWithin(n, v, t);
    hide TotalRows, Window;
  }

  lemma GroupWithin(n: nat, v: nat, t: nat)
    requires v > 0 && n < t * (8 * v)
    ensures n / v / 8 < t
  {
    assert n / v * v <= n;
    assert t * (8 * v) == 8 * t * v;
    Smaller(n / v, 8 * t, v);
  }

  lemma Smaller(a: nat, b: nat, v: nat)
    requires a * v < b * v
    ensures a < b
  {
    if a >= b {
      AtLeast(a, b, v);
    }
  }

  // ----- the compressor

  /** A row that compress_data was called with, and whether it took it. */
  datatype Offer = Offer(row: seq<Group>, taken: bool)

  class Compressor {
    var offers: seq<Offer>

    constructor ()
      ensures offers == []
    {
      offers := [];
    }

    /** compress_data: it takes the whole row, or refuses for want of output space. */
    method CompressData(buffer: array<Group>) returns (taken: bool)
      modifies this
      ensures offers == old(offers) + [Offer(buffer[..], taken)]
    {
      taken := *;
      offers := offers + [Offer(buffer[..], taken)];
    }
  }

  function TakenRows(offers: seq<Offer>): (rows: seq<seq<Group>>) {
    if offers == [] then []
    else
      var last := offers[|offers| - 1];
      TakenRows(offers[..|offers| - 1]) + if last.taken then [last.row] else []
  }

  function Refusals(offers: seq<Offer>): nat {
    if offers == [] then 0
    else Refusals(offers[..|offers| - 1]) + if offers[|offers| - 1].taken then 0 else 1
  }

  /** Every call was for the first row of the image that has not been taken yet. */
  ghost predicate InOrder(offers: seq<Offer>, image: seq<Row>, v: nat, down: Downsampler) {
    && |image| > 0
    && forall k :: 0 <= k < |offers| ==> offers[k].row == ImcuRow(image, v, down, |TakenRows(offers[..k])|)
  }

  lemma OneMoreOffer(offers: seq<Offer>, image: seq<Row>, v: nat, down: Downsampler, row: seq<Group>, taken: bool)
    requires InOrder(offers, image, v, down) && row == ImcuRow(image, v, down, |TakenRows(offers)|)
    ensures var more := offers + [Offer(row, taken)];
            && InOrder(more, image, v, down)
            && TakenRows(more) == TakenRows(offers) + (if taken then [row] else [])
            && Refusals(more) == Refusals(offers) + if taken then 0 else 1
  {
    var more := offers + [Offer(row, taken)];
    assert more[..|offers|] == offers;
    forall k | 0 <= k < |more| ensures more[k].row == ImcuRow(image, v, down, |TakenRows(more[..k])|) {
      if k < |offers| {
        assert more[..k] == offers[..k];
      }
    }
  }

  /** The whole image at once. */
  function Batch(image: seq<Row>, v: nat, down: Downsampler): (r: seq<seq<Group>>)
    requires |image| > 0 && v > 0
    ensures |r| == TotalRows(|image|, v)
  {
    seq(TotalRows(|image|, v), m requires 0 <= m < TotalRows(|image|, v) => ImcuRow(image, v, down, m))
  }

  /** The rows taken are the beginning of the batch. */
  lemma {:induction false} TakenInOrder(offers: seq<Offer>, image: seq<Row>, v: nat, down: Downsampler)
    requires v > 0 && InOrder(offers, image, v, down) && |TakenRows(offers)| <= TotalRows(|image|, v)
    ensures TakenRows(offers) == Batch(image, v, down)[..|TakenRows(offers)|]
    decreases |offers|
  {
    hide ImcuRow, TotalRows;
    if offers != [] {
      var init := offers[..|offers| - 1];
      forall k | 0 <= k < |init| ensures init[k].row == ImcuRow(image, v, down, |TakenRows(init[..k])|) {
        assert init[..k] == offers[..k];
      }
      TakenInOrder(init, image, v, down);
    }
  }

  // ----- the row groups of an iMCU row

  /** The first n groups of s are the image's groups from number `first` on. */
  ghost predicate GroupsOf(s: seq<Group>, image: seq<Row>, v: nat, down: Downsampler, first: nat, n: nat) {
    && |image| > 0 && n <= |s|
    && forall o :: 0 <= o < n ==> s[o] == down(Window(image, v, first + o))
  }

  lemma MoreGroups(prep: PrepController, before: seq<Group>, after: seq<Group>, first: nat, start: nat, end: nat)
    requires prep.Appended(before, after, start, end, first + start)
    requires GroupsOf(before, prep.image, prep.v, prep.down, first, start)
    ensures GroupsOf(after, prep.image, prep.v, prep.down, first, end)
  {
    hide Window;
    forall o | 0 <= o < end ensures after[o] == prep.down(Window(prep.image, prep.v, first + o)) {
      if o >= start {
        assert after[o] == prep.down(Window(prep.image, prep.v, first + start + o - start));
      }
    }
  }

  lemma AllGroups(s: seq<Group>, image: seq<Row>, v: nat, down: Downsampler, m: nat)
    requires |s| == DCTSIZE && GroupsOf(s, image, v, down, DCTSIZE * m, DCTSIZE)
    ensures s == ImcuRow(image, v, down, m)
  {
  }

  class Main {
    const prep: PrepController
    const compressor: Compressor
    const buffer: array<Group>
    const total: nat                   // total_iMCU_rows
    var curRow: nat                    // cur_iMCU_row
    var rowgroupCtr: nat
    var suspended: bool

    ghost predicate Linked()
      reads prep, prep.rows, prep.pointers
    {
      && prep.Valid() && buffer.Length == DCTSIZE && prep.height == |prep.image| > 0 && prep.v > 0
      && total == TotalRows(prep.height, prep.v)
    }

    /** The buffer holds the first row groups of the current iMCU row. */
    ghost predicate Gathered()
      reads `curRow, `rowgroupCtr, prep, buffer
    {
      && prep.group == DCTSIZE * curRow + rowgroupCtr && rowgroupCtr <= DCTSIZE
      && GroupsOf(buffer[..], prep.image, prep.v, prep.down, DCTSIZE * curRow, rowgroupCtr)
    }

    /** What the compressor has been called with, and how far it is. */
    ghost predicate Offered()
      reads `curRow, compressor, prep
    {
      && InOrder(compressor.offers, prep.image, prep.v, prep.down)
      && |TakenRows(compressor.offers)| == curRow <= total
    }

    /** Between calls: a full buffer waits only while suspended. */
    ghost predicate Valid()
      reads this, compressor, prep, prep.rows, prep.pointers, buffer
    {
      && Linked() && Gathered() && Offered()
      && curRow <= total && rowgroupCtr <= DCTSIZE && (suspended <==> rowgroupCtr == DCTSIZE)
      && (suspended ==> curRow < total && prep.rowsToGo < prep.height)
      && (!suspended && curRow < total ==> prep.rowsToGo > 0)
      && (curRow == total ==> prep.rowsToGo == 0)
    }

    /** Rows that were taken in, though the application was told otherwise. */
    ghost function Withheld(): nat
      reads `suspended
    {
      if suspended then 1 else 0
    }

    constructor (v: nat, down: Downsampler, height: nat, ghost image: seq<Row>)
      requires v > 0 && height > 0 && |image| == height
      ensures Valid() && prep.v == v && prep.down == down && prep.image == image && prep.height == height
      ensures fresh(prep) && fresh(prep.rows) && fresh(prep.pointers) && fresh(buffer) && fresh(compressor)
      ensures !suspended && prep.rowsToGo == height && compressor.offers == []
    {
      prep := new PrepController(v, down, height, image);
      compressor := new Compressor();
      buffer := new Group[DCTSIZE];
      total := TotalRows(height, v);
      curRow, rowgroupCtr, suspended := 0, 0, false;
      new;
      SomeRows(height, v);
      hide PrepController.Valid;
    }

    /** In the middle of a call, before the next attempt to get an iMCU row together. */
    ghost predicate Working(inRow: nat)
      reads this, compressor, prep, prep.rows, prep.pointers, buffer
    {
      && Linked() && Gathered() && Offered()
      && curRow <= total && rowgroupCtr <= DCTSIZE && (suspended <==> rowgroupCtr == DCTSIZE)
      && (suspended ==> curRow < total && prep.rowsToGo < prep.height)
      && (inRow == 0 && curRow < total ==> suspended || prep.rowsToGo > 0)
    }

    /** A whole iMCU row is there to be handed on. */
    ghost predicate Full(inRow: int)
      reads this, compressor, prep, prep.rows, prep.pointers, buffer
    {
      && Linked() && Gathered() && Offered() && rowgroupCtr == DCTSIZE && curRow < total
      && (!suspended ==> inRow > 0) && prep.rowsToGo < prep.height
    }

    /** Take row groups from the preprocessor as far as they come. */
    method Gather(input: seq<Row>, inRowCtr: nat) returns (inRow: nat)
      requires Working(inRowCtr) && curRow < total && rowgroupCtr < DCTSIZE
      requires prep.Feeds(input, inRowCtr, prep.rowsToGo)
      modifies `rowgroupCtr, buffer, prep, prep.rows
      ensures prep.rowsToGo + inRow == old(prep.rowsToGo) + inRowCtr && prep.Feeds(input, inRow, prep.rowsToGo)
      ensures inRow > inRowCtr ==> inRow <= |input|
      ensures rowgroupCtr == DCTSIZE ==> Full(inRow)
      ensures rowgroupCtr != DCTSIZE ==> Valid() && inRow >= |input|
    {
      hide PrepController.Valid, PrepController.Feeds, PrepController.Appended, GroupsOf, InOrder, TotalRows, TakenRows;
      ghost var before, start := buffer[..], rowgroupCtr;
      inRow, rowgroupCtr := prep.PreProcess(input, inRowCtr, buffer, rowgroupCtr);
      MoreGroups(prep, before, buffer[..], DCTSIZE * curRow, start, rowgroupCtr);
      prep.Counts();
    }

    /** Offer the full buffer to the compressor. */
    method Compress(ghost inRow: nat) returns (taken: bool)
      requires Full(inRow)
      modifies compressor
      ensures Linked() && Gathered() && |prep.image| > 0
      ensures InOrder(compressor.offers, prep.image, prep.v, prep.down) && old(compressor.offers) < compressor.offers
      ensures |TakenRows(compressor.offers)| == curRow + if taken then 1 else 0
      ensures Refusals(compressor.offers) == old(Refusals(compressor.offers)) + if taken then 0 else 1
    {
      hide PrepController.Valid, GroupsOf, InOrder, TotalRows, TakenRows, Refusals, ImcuRow;
      AllGroups(buffer[..], prep.image, prep.v, prep.down, curRow);
      ghost var offers := compressor.offers;
      taken := compressor.CompressData(buffer);
      OneMoreOffer(offers, prep.image, prep.v, prep.down, buffer[..], taken);
    }

    /** The compressor has taken the row; mark the main buffer empty. */
    method Advance(ghost inRow: nat)
      requires Linked() && Gathered() && rowgroupCtr == DCTSIZE && curRow < total && !suspended && inRow > 0
      requires InOrder(compressor.offers, prep.image, prep.v, prep.down) && |TakenRows(compressor.offers)| == curRow + 1
      modifies `rowgroupCtr, `curRow
      ensures Working(inRow) && curRow == old(curRow) + 1
    {
      hide PrepController.Valid, Window, InOrder, TotalRows, TakenRows;
      rowgroupCtr := 0;
      curRow := curRow + 1;
    }

    /** With all iMCU rows handed on, all rows have been read. */
    lemma AllRead(inRow: nat)
      requires Working(inRow) && curRow == total
      ensures Valid() && prep.rowsToGo == 0
    {
      hide PrepController.Valid, TotalRows, Offered, GroupsOf;
      AllCovered(prep.height, prep.v, prep.group);
      prep.AllRowsRead();
    }

    lemma LinesTold()
      requires Valid()
      ensures prep.rowsToGo + Withheld() <= prep.height
      ensures Withheld() <= 1
    {
      hide PrepController.Valid, Gathered, Offered;
      prep.Counts();
    }

    /** The next lines of the image, as the application sees it, from the first withheld one on. */
    lemma NextLines(lines: seq<Row>, nextScanline: nat)
      requires Valid() && prep.rowsToGo + nextScanline + Withheld() == |prep.image|
      requires nextScanline + |lines| <= |prep.image| && lines == prep.image[nextScanline..nextScanline + |lines|]
      ensures prep.Feeds(lines, Withheld(), prep.rowsToGo)
    {
      hide PrepController.Valid, Gathered, Offered;
    }

    lemma Withholding()
      ensures Withheld() == if suspended then 1 else 0
    {
    }

    lemma OffersInOrder()
      requires Valid()
      ensures InOrder(compressor.offers, prep.image, prep.v, prep.down)
    {
    }

    lemma AllHanded()
      requires Valid()
      ensures |prep.image| > 0 && prep.v > 0
      ensures TakenRows(compressor.offers) <= Batch(prep.image, prep.v, prep.down)
      ensures TakenRows(compressor.offers) == Batch(prep.image, prep.v, prep.down) <==> prep.rowsToGo + Withheld() == 0
    {
      TakenInOrder(compressor.offers, prep.image, prep.v, prep.down);
      hide PrepController.Valid, Gathered, InOrder, TotalRows, TakenRows, Batch;
    }

    /**
     process_data_simple_main. Whatever compress_data refuses, it is offered the iMCU rows of the image
     one after another, a refused one again; the row counter the application sees is one short exactly
     while a refused row waits. Without a refusal the call takes in all the rows.
     */
    method ProcessData(input: seq<Row>) returns (inRow: nat)
      requires Valid() && prep.Feeds(input, Withheld(), prep.rowsToGo)
      modifies this, compressor, buffer, prep, prep.rows
      ensures Valid() && old(compressor.offers) <= compressor.offers
      ensures prep.rowsToGo + inRow + Withheld() == old(prep.rowsToGo + Withheld())
      ensures Refusals(compressor.offers) == old(Refusals(compressor.offers)) + Withheld()
      ensures !suspended ==> inRow >= |input|
      ensures inRow + Withheld() <= if |input| >= old(Withheld()) then |input| else old(Withheld())
    {
      hide PrepController.Valid, PrepController.Feeds, Linked, Gathered, InOrder, TakenRows, Refusals;
      inRow := 0;
      while curRow < total
        invariant Working(inRow) && prep.Feeds(input, inRow + Withheld(), prep.rowsToGo)
        invariant old(compressor.offers) <= compressor.offers && curRow <= total
        invariant Refusals(compressor.offers) == old(Refusals(compressor.offers))
        invariant prep.rowsToGo + inRow + Withheld() == old(prep.rowsToGo + Withheld())
        invariant inRow + Withheld() <= if |input| >= old(Withheld()) then |input| else old(Withheld())
        decreases total - curRow
      {
        if rowgroupCtr < DCTSIZE {
          inRow := Gather(input, inRow);
        }
        if rowgroupCtr != DCTSIZE {
          return;
        }
        assert Full(inRow);
        var taken := Compress(inRow);
        if !taken {
          if !suspended {
            inRow := inRow - 1;
            suspended := true;
          }
          return;
        }
        if suspended {
          inRow := inRow + 1;
          suspended := false;
        }
        Advance(inRow);
      }
      AllRead(inRow);
      prep.NothingLeft(input, inRow);
    }
  }

  // ----- the application

  /** A call of jpeg_write_scanlines: lines passed, lines reported as written, and whether it was suspended. */
  datatype Call = Call(lines: nat, written: nat, suspended: bool)

  function Written(calls: seq<Call>): nat {
    if calls == [] then 0 else Written(calls[..|calls| - 1]) + calls[|calls| - 1].written
  }

  function Suspensions(calls: seq<Call>): nat {
    if calls == [] then 0
    else Suspensions(calls[..|calls| - 1]) + if calls[|calls| - 1].suspended then 1 else 0
  }

  function Total(chunks: seq<nat>): nat {
    if chunks == [] then 0 else Total(chunks[..|chunks| - 1]) + chunks[|chunks| - 1]
  }

  function Min(a: nat, b: nat): nat {
    if a <= b then a else b
  }

  lemma OneMoreCall(calls: seq<Call>, c: Call)
    ensures Written(calls + [c]) == Written(calls) + c.written
    ensures Suspensions(calls + [c]) == Suspensions(calls) + if c.suspended then 1 else 0
  {
    assert (calls + [c])[..|calls|] == calls;
  }

  lemma OneMoreChunk(chunks: seq<nat>, i: nat)
    requires i < |chunks|
    ensures Total(chunks[..i + 1]) == Total(chunks[..i]) + chunks[i]
  {
    assert chunks[..i + 1][..i] == chunks[..i];
  }

  /**
   An application that writes an image in chunks of any number of lines, each time from the line
   it is told comes next. Whenever and however often the compressor suspends, it has been offered
   the same sequence of iMCU rows, and has taken its beginning; the lines are used up exactly when it
   has taken all. A call that is not suspended uses up all its lines, and there are as many suspended
   calls as refusals: without one, nothing but the number of lines passed counts.
   */
  method WriteScanlines(image: seq<Row>, v: nat, down: Downsampler, chunks: seq<nat>)
    returns (main: Main, nextScanline: nat, ghost calls: seq<Call>)
    requires |image| > 0 && v > 0
    ensures fresh(main) && nextScanline <= |image|
    ensures InOrder(main.compressor.offers, image, v, down)
    ensures TakenRows(main.compressor.offers) <= Batch(image, v, down)
    ensures nextScanline == |image| <==> TakenRows(main.compressor.offers) == Batch(image, v, down)
    ensures |calls| == |chunks| && nextScanline == Written(calls)
    ensures Suspensions(calls) == Refusals(main.compressor.offers)
    ensures forall k :: 0 <= k < |calls| && !calls[k].suspended ==> calls[k].written >= calls[k].lines
    ensures forall k :: 0 <= k < |calls| ==> calls[k].lines <= chunks[k]
    ensures Refusals(main.compressor.offers) == 0 ==> nextScanline == Min(|image|, Total(chunks))
  {
    hide *;
    main := new Main(v, down, |image|, image);
    nextScanline, calls := 0, [];
    main.LinesTold();
    Nothing(main.compressor.offers, chunks);
    var i := 0;
    while i < |chunks|
      invariant 0 <= i <= |chunks| && fresh(main) && fresh(main.prep) && fresh(main.prep.rows) && fresh(main.buffer)
      invariant fresh(main.compressor)
      invariant main.Valid() && main.prep.image == image && main.prep.v == v && main.prep.down == down
      invariant main.prep.rowsToGo + nextScanline + main.Withheld() == |image| && nextScanline <= |image|
      invariant main.prep.height == |image|
      invariant |calls| == i && nextScanline == Written(calls)
      invariant Suspensions(calls) == Refusals(main.compressor.offers)
      invariant forall k :: 0 <= k < i && !calls[k].suspended ==> calls[k].written >= calls[k].lines
      invariant forall k :: 0 <= k < i ==> calls[k].lines <= chunks[k]
      invariant Refusals(main.compressor.offers) == 0 ==>
                  !main.suspended && nextScanline == Min(|image|, Total(chunks[..i]))
    {
      main.LinesTold();
      var numLines := if chunks[i] > |image| - nextScanline then |image| - nextScanline else chunks[i];
      var lines := image[nextScanline..nextScanline + numLines];
      main.NextLines(lines, nextScanline);
      main.Withholding();
      var rowCtr := main.ProcessData(lines);
      main.Withholding();
      OneMoreCall(calls, Call(numLines, rowCtr, main.suspended));
      OneMoreChunk(chunks, i);
      MinStep(|image|, Total(chunks[..i]), chunks[i]);
      calls := calls + [Call(numLines, rowCtr, main.suspended)];
      nextScanline := nextScanline + rowCtr;
      i := i + 1;
    }
    assert chunks[..i] == chunks;
    main.AllHanded();
    main.OffersInOrder();
  }

  lemma Nothing(offers: seq<Offer>, chunks: seq<nat>)
    ensures offers == [] ==> Refusals(offers) == 0
    ensures Written([]) == 0 && Suspensions([]) == 0 && Total(chunks[..0]) == 0 && forall a: nat :: Min(a, 0) == 0
  {
  }

  lemma MinStep(height: nat, sum: nat, chunk: nat)
    ensures Min(height, sum + chunk)
         == Min(height, sum) + if chunk > height - Min(height, sum) then height - Min(height, sum) else chunk
  {
  }

  lemma AllCovered(height: nat, v: nat, group: nat)
    requires v > 0 && height > 0 && group >= DCTSIZE * TotalRows(height, v)
    ensures group * v >= height && group > 0
  {
    SomeRows(height, v);
    hide TotalRows;
    AtLeast(group, DCTSIZE * TotalRows(height, v), v);
    assert DCTSIZE * TotalRows(height, v) * v == TotalRows(height, v) * DCTSIZE * v;
  }

  lemma AtLeast(a: nat, b: nat, c: nat)
    requires a >= b
    ensures a * c >= b * c
  {
    assert a * c == b * c + (a - b) * c;
  }

  lemma SomeRows(height: nat, v: nat)
    requires v > 0 && height > 0
    ensures TotalRows(height, v) > 0 && height <= TotalRows(height, v) * DCTSIZE * v
  {
    var t, u := TotalRows(height, v), v * DCTSIZE;
    assert height + u - 1 == t * u + (height + u - 1) % u;
    assert t * u == t * DCTSIZE * v;
  }
}
