/**
 The preprocessing controller of jcprepct.c with context rows: three row groups of rows, seen
 through five row groups of row pointers, filled from whatever rows the application passes.
 One component is followed; the rows are those after colour conversion.
 */
module ContextRows {
  type Row = seq<int>
  type Group = seq<Row>

  /** The image row that stands for row n of the image extended at the top and at the bottom. */
  function Clamp(n: int, height: nat): (r: nat)
    requires height > 0
    ensures r < height
  {
    if n < 0 then 0 else if n < height then n else height - 1
  }

  /** A row group that starts at image row `start`, with the groups above and below, v rows each. */
  function WindowAt(image: seq<Row>, v: nat, start: int): (w: seq<Row>)
    requires |image| > 0
    ensures |w| == 3 * v
  {
    seq(3 * v, j requires 0 <= j < 3 * v => image[Clamp(start - v + j, |image|)])
  }

  /** What the g-th downsampling sees. */
  function Window(image: seq<Row>, v: nat, g: nat): (w: seq<Row>)
    requires |image| > 0
  {
    WindowAt(image, v, g * v)
  }

  /** Rows of the image, with its first one repeated above it and its last one below. */
  lemma WindowShows(image: seq<Row>, v: nat, g: nat, j: nat)
    requires |image| > 0 && j < 3 * v
    ensures var n := g * v - v + j;
            Window(image, v, g)[j] == if n < 0 then image[0] else if n >= |image| then image[|image| - 1] else image[n]
  {
    assert Window(image, v, g)[j] == image[Clamp(g * v - v + j, |image|)];
  }

  /** Row n of the image is in the middle of one window, that of its row group. */
  lemma EveryRowIsSeen(image: seq<Row>, v: nat, n: nat)
    requires v > 0 && n < |image|
    ensures Window(image, v, n / v)[v + n % v] == image[n]
  {
    assert n / v * v + n % v == n;
    WindowShows(image, v, n / v, v + n % v);
  }

  /** The row pointer array of create_context_buffer, five row groups high. */
  ghost predicate Wrapped(pointers: seq<nat>, v: nat) {
    && |pointers| == 5 * v
    && forall i :: 0 <= i < 5 * v ==> pointers[i] == Physical(i, v)
  }

  function Physical(i: nat, v: nat): nat
    requires i < 5 * v
  {
    if i < v then 2 * v + i else if i < 4 * v then i - v else i - 4 * v
  }

  /** The image row that buffer row p holds when `fill` is the next one to be filled. */
  function Held(base: int, fill: int, v: nat, p: int): int {
    if p < fill then base + p else base - 3 * v + p
  }

  /** Every buffer row that holds row `lowest` of the image or a later one holds the right row. */
  ghost predicate Filled(rows: seq<Row>, image: seq<Row>, v: nat, base: int, fill: int, lowest: int)
    requires |image| > 0
  {
    && |rows| == 3 * v
    && forall p :: 0 <= p < 3 * v && Held(base, fill, v, p) >= lowest ==>
         rows[p] == image[Clamp(Held(base, fill, v, p), |image|)]
  }

  method CreateContextBuffer(v: nat) returns (rows: array<Row>, pointers: array<nat>)
    ensures fresh(rows) && fresh(pointers) && rows.Length == 3 * v && Wrapped(pointers[..], v)
  {
    rows, pointers := new Row[3 * v], new nat[5 * v];
    var i := 0;
    while i < 3 * v
      invariant 0 <= i <= 3 * v
      invariant forall k :: v <= k < v + i ==> pointers[k] == Physical(k, v)
    {
      pointers[v + i] := i;
      i := i + 1;
    }
    i := 0;
    while i < v
      invariant 0 <= i <= v
      invariant forall k :: 0 <= k < i || v <= k < 4 * v + i ==> pointers[k] == Physical(k, v)
    {
      pointers[i] := 2 * v + i;
      pointers[4 * v + i] := i;
      i := i + 1;
    }
  }

  class PrepController {
    const v: nat                      // max_v_samp_factor
    const height: nat                 // image_height
    const down: seq<Row> -> Group     // the downsampler
    const rows: array<Row>
    const pointers: array<nat>        // color_buf is pointers + v
    var rowsToGo: nat
    var nextBufRow: nat
    var thisRowGroup: nat
    var nextBufStop: nat
    ghost const image: seq<Row>
    ghost var group: nat              // row groups downsampled
    ghost var base: nat               // the image row that buffer row 0 held last

    /** The counters of the three-group ring. */
    ghost predicate Counted()
      reads this
    {
      && v > 0 && |image| == height > 0 && rowsToGo <= height
      && InStep(v, nextBufStop, thisRowGroup)
      && base + nextBufStop == group * v + 2 * v
      && nextBufRow <= nextBufStop
      && (group == 0 ==> base == 0 && nextBufStop == 2 * v)
      && (group > 0 ==> nextBufStop - v <= nextBufRow && rowsToGo < |image|)
      && (rowsToGo > 0 ==> base + nextBufRow == |image| - rowsToGo)
      && (rowsToGo == 0 ==> base + nextBufRow >= |image|)
    }

    ghost predicate Ready()
      reads this, rows, pointers
    {
      && Counted() && rows.Length == 3 * v && Wrapped(pointers[..], v)
      && Filled(rows[..], image, v, base, nextBufRow, if rowsToGo == |image| then 0 else 0 - v)
    }

    ghost predicate Valid()
      reads this, rows, pointers
    {
      Ready() && nextBufRow < nextBufStop
    }

    /** jinit_c_prep_controller and start_pass_prep */
    constructor (v: nat, down: seq<Row> -> Group, height: nat, ghost image: seq<Row>)
      requires v > 0 && height > 0 && |image| == height
      ensures Valid() && this.v == v && this.down == down && this.image == image
      ensures fresh(rows) && fresh(pointers) && group == 0 && rowsToGo == height
    {
      var rows, pointers := CreateContextBuffer(v);
      this.v, this.height, this.down, this.rows, this.pointers, this.image := v, height, down, rows, pointers, image;
      rowsToGo, nextBufRow, thisRowGroup, nextBufStop := height, 0, 0, 2 * v;
      group, base := 0, 0;
    }

    /** color_convert: the input rows go into the buffer from nextBufRow on. */
    method ColorConvert(input: seq<Row>, count: nat, ghost lowest: int)
      requires Counted() && rows.Length == 3 * v && Wrapped(pointers[..], v)
      requires count <= |input| && nextBufRow + count <= nextBufStop && count <= rowsToGo
      requires forall i :: 0 <= i < count ==> input[i] == image[|image| - rowsToGo + i]
      requires Filled(rows[..], image, v, base, nextBufRow, lowest)
      modifies rows
      ensures Filled(rows[..], image, v, base, nextBufRow + count, lowest)
    {
      var i := 0;
      while i < count
        invariant 0 <= i <= count
        invariant Filled(rows[..], image, v, base, nextBufRow + i, lowest)
      {
        ghost var before := rows[..];
        rows[pointers[v + nextBufRow + i]] := input[i];
        OneMore(before, image, v, base, nextBufRow + i, lowest, input[i]);
        i := i + 1;
      }
    }

    /** The rows above the first are copies of it. */
    method PadTop(count: nat)
      requires v > 0 && |image| > 0 && rows.Length == 3 * v && Wrapped(pointers[..], v)
      requires 0 < count <= 2 * v && Filled(rows[..], image, v, 0, count, 0)
      modifies rows
      ensures Filled(rows[..], image, v, 0, count, 0 - v)
    {
      var row := 1;
      while row <= v
        invariant 1 <= row <= v + 1
        invariant Filled(rows[..], image, v, 0, count, 1 - row)
      {
        ghost var before := rows[..];
        rows[pointers[v - row]] := rows[pointers[v]];
        OneAbove(before, image, v, count, row);
        row := row + 1;
      }
    }

    /** expand_bottom_edge on the conversion buffer */
    method ExpandBottomEdge(inputRows: nat, outputRows: nat)
      requires Ready() && rowsToGo == 0 && inputRows == nextBufRow && outputRows == nextBufStop
      modifies rows
      ensures Filled(rows[..], image, v, base, outputRows, 0 - v)
    {
      var row := inputRows;
      while row < outputRows
        invariant inputRows <= row <= outputRows
        invariant Filled(rows[..], image, v, base, row, 0 - v)
      {
        ghost var before := rows[..];
        rows[pointers[v + row]] := rows[pointers[v + inputRows - 1]];
        LastRowAgain(before, image, v, base, inputRows, row);
        row := row + 1;
      }
    }

    /** The rows from `inRow` on are the next ones of the image, and no more than it has. */
    ghost predicate Feeds(input: seq<Row>, inRow: nat, toGo: nat)
    {
      && (inRow < |input| ==> |input| - inRow <= toGo <= |image|)
      && forall i :: inRow <= i < |input| ==> input[i] == image[|image| - toGo + i - inRow]
    }

    lemma NothingLeft(input: seq<Row>, inRow: nat)
      requires Feeds(input, inRow, 0)
      ensures inRow >= |input|
    {
    }

    /** Fill the conversion buffer as far as input and buffer go. */
    method Fill(input: seq<Row>, inRowCtr: nat) returns (inRow: nat)
      requires Valid() && inRowCtr < |input| && Feeds(input, inRowCtr, rowsToGo)
      modifies this, rows
      ensures Ready() && rowsToGo < |image| && group == old(group) && Feeds(input, inRow, rowsToGo)
      ensures inRowCtr < inRow <= |input| && rowsToGo + inRow == old(rowsToGo) + inRowCtr
      ensures inRow < |input| ==> nextBufRow == nextBufStop
    {
      hide *;
      IsReady();
      var inrows := |input| - inRowCtr;
      var numrows := nextBufStop - nextBufRow;
      if inrows < numrows {
        numrows := inrows;
      }
      FillPlan(input, inRowCtr, numrows);
      ColorConvert(input[inRowCtr..], numrows, if rowsToGo == |image| then 0 else 0 - v);
      if rowsToGo == height {
        PadTop(numrows);
      }
      inRow := inRowCtr + numrows;
      Count(input, inRowCtr, numrows);
    }

    lemma FillPlan(input: seq<Row>, inRowCtr: nat, count: nat)
      requires Valid() && inRowCtr < |input| && Feeds(input, inRowCtr, rowsToGo)
      requires 0 < count <= |input| - inRowCtr && count <= nextBufStop - nextBufRow
      ensures Counted() && rows.Length == 3 * v && Wrapped(pointers[..], v)
      ensures count <= rowsToGo && Filled(rows[..], image, v, base, nextBufRow, if rowsToGo == |image| then 0
                else 0 - v)
      ensures forall i :: 0 <= i < count ==> input[inRowCtr..][i] == image[|image| - rowsToGo + i]
      ensures rowsToGo == |image| ==> base == 0 && nextBufRow == 0 && count <= 2 * v
    {
      hide Filled, Wrapped;
    }

    method Count(ghost input: seq<Row>, ghost inRowCtr: nat, numrows: nat)
      requires Counted() && rows.Length == 3 * v && Wrapped(pointers[..], v)
      requires Feeds(input, inRowCtr, rowsToGo) && 0 < numrows <= |input| - inRowCtr
      requires nextBufRow + numrows <= nextBufStop && numrows <= rowsToGo
      requires numrows < |input| - inRowCtr ==> nextBufRow + numrows == nextBufStop
      requires Filled(rows[..], image, v, base, nextBufRow + numrows, 0 - v)
      modifies `nextBufRow, `rowsToGo
      ensures Ready() && rowsToGo == old(rowsToGo) - numrows && rowsToGo < |image|
      ensures Feeds(input, inRowCtr + numrows, rowsToGo)
      ensures inRowCtr + numrows < |input| ==> nextBufRow == nextBufStop
    {
      hide Filled, Wrapped;
      nextBufRow := nextBufRow + numrows;
      rowsToGo := rowsToGo - numrows;
    }

    /** At the bottom of the image, pad to fill the conversion buffer. */
    method PadBottom()
      requires Valid() && rowsToGo == 0
      modifies this, rows
      ensures Ready() && nextBufRow == nextBufStop && rowsToGo == old(rowsToGo) && group == old(group)
    {
      ExpandBottomEdge(nextBufRow, nextBufStop);
      hide Filled, Wrapped;
      nextBufRow := nextBufStop;
    }

    lemma Counts()
      requires Valid()
      ensures v > 0 && |image| == height > 0 && rowsToGo <= height && (group > 0 ==> rowsToGo < height)
    {
    }

    lemma IsReady()
      requires Valid()
      ensures Ready() && v > 0 && |image| == height > 0 && rowsToGo <= |image| && (group > 0 ==> rowsToGo < |image|)
      ensures nextBufRow < nextBufStop
    {
    }

    /** A row group is not downsampled before the row group below it is there, or the image is at its end. */
    lemma AllRowsRead()
      requires Valid() && group > 0 && group * v >= height
      ensures rowsToGo == 0
    {
    }

    lemma IsValid()
      requires Ready() && nextBufRow != nextBufStop
      ensures Valid()
    {
    }

    /** Output row groups `start` up to `end` are those from number g on; the others stay. */
    ghost predicate Appended(before: seq<Group>, after: seq<Group>, start: nat, end: nat, g: nat)
    {
      && |after| == |before| && start <= end <= |after| && |image| > 0
      && (forall o :: 0 <= o < start || end <= o < |after| ==> after[o] == before[o])
      && (forall o :: start <= o < end ==> after[o] == down(Window(image, v, g + o - start)))
    }

    lemma NoneAppended(s: seq<Group>, start: nat, g: nat)
      requires start <= |s| && |image| > 0
      ensures Appended(s, s, start, start, g)
    {
    }

    lemma OneAppended(before: seq<Group>, after: seq<Group>, start: nat, end: nat, g: nat, x: Group)
      requires Appended(before, after, start, end, g) && end < |after|
      requires x == down(Window(image, v, g + end - start))
      ensures Appended(before, after[end := x], start, end + 1, g)
    {
    }

    /**
     pre_process_context. Every row group that comes out is the downsampled window of its number,
     however the rows came in, and it stops early only for want of rows.
     */
    method PreProcess(input: seq<Row>, inRowCtr: nat, output: array<Group>, outCtr: nat)
      returns (inRow: nat, outRow: nat)
      requires Valid() && Feeds(input, inRowCtr, rowsToGo) && outCtr <= output.Length
      modifies this, rows, output
      ensures Valid() && Feeds(input, inRow, rowsToGo)
      ensures inRowCtr <= inRow && (inRow > inRowCtr ==> inRow <= |input|)
      ensures rowsToGo + inRow == old(rowsToGo) + inRowCtr
      ensures outCtr <= outRow <= output.Length && group == old(group) + outRow - outCtr
      ensures Appended(old(output[..]), output[..], outCtr, outRow, old(group))
      ensures outRow < output.Length ==> rowsToGo > 0 && inRow >= |input|
      ensures inRow == inRowCtr && rowsToGo > 0 ==> outRow == outCtr
    {
      hide *;
      IsReady();
      inRow, outRow := inRowCtr, outCtr;
      NoneAppended(output[..], outCtr, group);
      while outRow < output.Length
        invariant Valid() && Feeds(input, inRow, rowsToGo)
        invariant inRowCtr <= inRow && (inRow > inRowCtr ==> inRow <= |input|)
        invariant rowsToGo + inRow == old(rowsToGo) + inRowCtr
        invariant outCtr <= outRow <= output.Length && group == old(group) + outRow - outCtr
        invariant Appended(old(output[..]), output[..], outCtr, outRow, old(group))
        invariant inRow == inRowCtr && rowsToGo > 0 ==> outRow == outCtr
        decreases output.Length - outRow, if inRow < |input| then |input| - inRow else 0
      {
        IsReady();
        if inRow < |input| {
          inRow := Fill(input, inRow);
        } else {
          if rowsToGo != 0 {
            break;
          }
          if nextBufRow < nextBufStop {
            PadBottom();
          }
        }
        if nextBufRow == nextBufStop {
          ghost var before := output[..];
          Downsample(output, outRow);
          OneAppended(old(output[..]), before, outCtr, outRow, old(group),
              down(Window(image, v, old(group) + outRow - outCtr)));
          outRow := outRow + 1;
        } else {
          IsValid();
        }
      }
    }

    /** Downsample a row group. */
    method Downsample(output: array<Group>, at: nat)
      requires Ready() && nextBufRow == nextBufStop && rowsToGo < |image| && at < output.Length
      modifies this, output
      ensures Valid() && group == old(group) + 1 && rowsToGo == old(rowsToGo)
      ensures output[..] == old(output[..])[at := down(Window(image, v, old(group)))]
    {
      SeesWindow(rows[..], pointers[..], image, v, base, nextBufStop, thisRowGroup, group * v);
      output[at] := down(View(rows[..], pointers[..], v, thisRowGroup));
      hide *;
      Advance();
    }

    /** Advance the indexes with wraparound. */
    method Advance()
      requires Ready() && nextBufRow == nextBufStop && rowsToGo < |image|
      modifies this
      ensures Valid() && group == old(group) + 1 && rowsToGo == old(rowsToGo)
    {
      NextGroup(group, v);
      SameAfterWrap(rows[..], image, v, base);
      hide Filled, Wrapped;
      group := group + 1;
      thisRowGroup := thisRowGroup + v;
      if thisRowGroup >= 3 * v {
        thisRowGroup := 0;
      }
      if nextBufRow >= 3 * v {
        nextBufRow := 0;
        base := base + 3 * v;
      }
      nextBufStop := nextBufRow + v;
    }
  }

  lemma NextGroup(g: nat, v: nat)
    ensures (g + 1) * v == g * v + v
  {
  }

  /** A full buffer and a buffer about to be filled again hold the same rows. */
  lemma SameAfterWrap(rows: seq<Row>, image: seq<Row>, v: nat, base: int)
    requires |image| > 0
    ensures Filled(rows, image, v, base, 3 * v, 0 - v) ==> Filled(rows, image, v, base + 3 * v, 0, 0 - v)
  {
    assert forall p :: 0 <= p < 3 * v ==> Held(base, 3 * v, v, p) == Held(base + 3 * v, 0, v, p);
  }

  /** The rows that the downsampler sees around the row group that starts at buffer row `at`. */
  function View(rows: seq<Row>, pointers: seq<nat>, v: nat, at: nat): (w: seq<Row>)
    requires |rows| == 3 * v && |pointers| == 5 * v && at <= 2 * v
    requires forall i :: 0 <= i < 5 * v ==> pointers[i] < 3 * v
  {
    seq(3 * v, j requires 0 <= j < 3 * v => rows[pointers[at + j]])
  }

  /** Through the wrapped pointers the downsampler sees the window of its row group. */
  lemma SeesWindow(rows: seq<Row>, pointers: seq<nat>, image: seq<Row>, v: nat, base: nat, stop: nat, at: nat,
                   start: int)
    requires v > 0 && |image| > 0 && Wrapped(pointers, v) && base + stop == start + 2 * v && InStep(v, stop, at)
    requires Filled(rows, image, v, base, stop, 0 - v) && start >= 0
    ensures at <= 2 * v && forall i :: 0 <= i < 5 * v ==> pointers[i] < 3 * v
    ensures View(rows, pointers, v, at) == WindowAt(image, v, start)
  {
    var w := View(rows, pointers, v, at);
    forall j | 0 <= j < 3 * v ensures w[j] == image[Clamp(start - v + j, |image|)] {
      assert pointers[at + j] == Physical(at + j, v);
      HeldInView(base, stop, v, at, start, j);
    }
  }

  lemma HeldInView(base: nat, stop: nat, v: nat, at: nat, start: int, j: nat)
    requires v > 0 && base + stop == start + 2 * v && InStep(v, stop, at) && j < 3 * v
    ensures Held(base, stop, v, Physical(at + j, v)) == start - v + j
  {
  }

  /** The three positions of the ring. */
  predicate InStep(v: nat, stop: nat, at: nat) {
    || (stop == 2 * v && at == 0)
    || (stop == 3 * v && at == v)
    || (stop == v && at == 2 * v)
  }

  /** Filling the next buffer row with the next row of the image. */
  lemma OneMore(rows: seq<Row>, image: seq<Row>, v: nat, base: int, fill: nat, lowest: int, row: Row)
    requires |image| > 0 && fill < 3 * v && Filled(rows, image, v, base, fill, lowest)
    requires row == image[Clamp(base + fill, |image|)]
    ensures Filled(rows[fill := row], image, v, base, fill + 1, lowest)
  {
  }

  lemma OneAbove(rows: seq<Row>, image: seq<Row>, v: nat, fill: nat, row: nat)
    requires |image| > 0 && 1 <= row <= v && 0 < fill <= 2 * v && Filled(rows, image, v, 0, fill, 1 - row)
    ensures Filled(rows[3 * v - row := rows[0]], image, v, 0, fill, 0 - row)
  {
    assert Held(0, fill, v, 0) == 0;
  }

  /** The last row, wherever it lies, once more. */
  lemma LastRowAgain(rows: seq<Row>, image: seq<Row>, v: nat, base: nat, input: nat, fill: nat)
    requires |image| > 0 && v > 0 && input <= fill < 3 * v && base + input >= |image| && (input == 0 ==> fill < v)
    requires Filled(rows, image, v, base, fill, 0 - v)
    ensures var last := if input == 0 then 3 * v - 1 else input - 1;
            last < |rows| && Filled(rows[fill := rows[last]], image, v, base, fill + 1, 0 - v)
  {
    var last := if input == 0 then 3 * v - 1 else input - 1;
    assert Held(base, fill, v, last) == base + input - 1;
    OneMore(rows, image, v, base, fill, 0 - v, rows[last]);
  }
}
