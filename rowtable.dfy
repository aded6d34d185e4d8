// `RowTable`: values laid out in aligned rows, as many to a row as fit in
// the table's maximum width; the number to a row (the chunk size) is kept
// as values are added.
module RowTable {
  import opened Wrappers
  import opened Tables

  /** `chunks(c)`: the values in runs of c, the last run possibly shorter. */
  function Chunks(values: seq<string>, c: nat): (r: seq<seq<string>>)
    requires c > 0
    ensures forall k :: 0 <= k < |r| ==> 0 < |r[k]| <= c
    ensures forall k :: 0 <= k < |r| - 1 ==> |r[k]| == c
    ensures values == [] <==> r == []
    decreases |values|
  {
    if values == [] then []
    else if |values| <= c then [values]
    else [values[..c]] + Chunks(values[c..], c)
  }

  /** The values, one chunk after another. */
  function Concat(chunks: seq<seq<string>>): seq<string>
  {
    if chunks == [] then [] else chunks[0] + Concat(chunks[1..])
  }

  /** Chunking loses and reorders nothing: the chunks joined are the values. */
  lemma {:induction false} ChunksConcat(values: seq<string>, c: nat)
    requires c > 0
    ensures Concat(Chunks(values, c)) == values
    decreases |values|
  {
    if values != [] && |values| > c {
      ChunksConcat(values[c..], c);
      assert ([values[..c]] + Chunks(values[c..], c))[1..] == Chunks(values[c..], c);
      assert values[..c] + values[c..] == values;
    } else if values != [] {
      assert [values][1..] == [];
      assert values + [] == values;
    }
  }

  /** Every value of a chunk is a value of the table. */
  lemma {:induction false} ChunkValues(values: seq<string>, c: nat, k: nat, i: nat)
    requires c > 0 && k < |Chunks(values, c)| && i < |Chunks(values, c)[k]|
    ensures Chunks(values, c)[k][i] in values
    decreases |values|
  {
    if |values| > c && k > 0 {
      ChunkValues(values[c..], c, k - 1, i);
    }
  }

  /** The widest i-th value over the chunks (0 if no chunk has an i-th value). */
  function ChunkColumnWidth(chunks: seq<seq<string>>, i: nat): nat
  {
    if chunks == [] then 0
    else
      var last := chunks[|chunks| - 1];
      Max(ChunkColumnWidth(chunks[..|chunks| - 1], i), if i < |last| then Len(last[i]) else 0)
  }

  /** No i-th value is wider than its column, and a column is no wider than the widest value. */
  lemma {:induction false} ChunkColumnWidthIsMax(chunks: seq<seq<string>>, i: nat, bound: nat)
    ensures forall k :: 0 <= k < |chunks| && i < |chunks[k]| ==> Len(chunks[k][i]) <= ChunkColumnWidth(chunks, i)
    ensures (forall k :: 0 <= k < |chunks| && i < |chunks[k]| ==> Len(chunks[k][i]) <= bound) ==> ChunkColumnWidth(chunks, i) <= bound
    decreases |chunks|
  {
    if chunks != [] {
      var init := chunks[..|chunks| - 1];
      ChunkColumnWidthIsMax(init, i, bound);
      assert forall k :: 0 <= k < |init| ==> init[k] == chunks[k];
    }
  }

  /** `max_column_widths_with_chunk_size`: the width of each of the c columns. */
  function ColumnWidths(values: seq<string>, c: nat): (ws: seq<nat>)
    requires c > 0
    ensures |ws| == c
  {
    seq(c, i requires 0 <= i < c => ChunkColumnWidth(Chunks(values, c), i))
  }

  /** c values to a row fit: the columns and the spaces between them are no wider than the table. */
  predicate Fits(values: seq<string>, maxWidth: nat, c: nat)
  {
    c > 0 && Sum(ColumnWidths(values, c)) + c - 1 <= maxWidth
  }

  /** `find_new_chunk_size`: counting down from c, the first chunk size that fits, or 0. */
  function LargestFit(values: seq<string>, maxWidth: nat, c: nat): nat
  {
    if c == 0 || Fits(values, maxWidth, c) then c else LargestFit(values, maxWidth, c - 1)
  }

  /** The chunk size found is the largest that fits, up to c; 0 only if none does. */
  lemma {:induction false} LargestFitIsLargest(values: seq<string>, maxWidth: nat, c: nat)
    ensures LargestFit(values, maxWidth, c) <= c
    ensures LargestFit(values, maxWidth, c) == 0 || Fits(values, maxWidth, LargestFit(values, maxWidth, c))
    ensures forall d :: LargestFit(values, maxWidth, c) < d <= c ==> !Fits(values, maxWidth, d)
  {
    if c > 0 && !Fits(values, maxWidth, c) {
      LargestFitIsLargest(values, maxWidth, c - 1);
    }
  }

  /** When every value fits the table, one value to a row fits. */
  lemma FitsOne(values: seq<string>, maxWidth: nat)
    requires values != []
    requires forall j :: 0 <= j < |values| ==> Len(values[j]) <= maxWidth
    ensures Fits(values, maxWidth, 1)
  {
    var chunks := Chunks(values, 1);
    forall k | 0 <= k < |chunks| && 0 < |chunks[k]|
      ensures Len(chunks[k][0]) <= maxWidth
    {
      ChunkValues(values, 1, k, 0);
    }
    ChunkColumnWidthIsMax(chunks, 0, maxWidth);
    var ws := ColumnWidths(values, 1);
    assert ws[..0] == [];
    assert Sum(ws) == ws[0];
  }

  /** When every value fits the table, the chunk size found for values is at least 1. */
  lemma LargestFitPositive(values: seq<string>, maxWidth: nat)
    requires values != []
    requires forall j :: 0 <= j < |values| ==> Len(values[j]) <= maxWidth
    ensures LargestFit(values, maxWidth, |values|) >= 1
  {
    FitsOne(values, maxWidth);
    LargestFitIsLargest(values, maxWidth, |values|);
  }

  /** The lines the chunks are written as: each value padded to its column, one space apart. */
  function ChunkLines(chunks: seq<seq<string>>, widths: seq<nat>): (r: seq<string>)
    requires forall k :: 0 <= k < |chunks| ==> |chunks[k]| <= |widths|
    ensures |r| == |chunks|
    ensures forall k :: 0 <= k < |chunks| ==> r[k] == Cells(chunks[k], widths, " ", |chunks[k]|)
  {
    if chunks == [] then []
    else ChunkLines(chunks[..|chunks| - 1], widths) + [Cells(chunks[|chunks| - 1], widths, " ", |chunks[|chunks| - 1]|)]
  }

  /** The lines of the table with c values to a row. */
  function Lines(values: seq<string>, c: nat): seq<string>
    requires c > 0
  {
    ChunkLines(Chunks(values, c), ColumnWidths(values, c))
  }

  /** `Display`, corrected: no lines for an empty table. */
  function Rendered(values: seq<string>, c: nat): string
  {
    if c == 0 then "" else Unlines(Lines(values, c))
  }

  /** `Display` as written: `chunks(0)` panics when the table is empty. */
  function RenderedAsWritten(values: seq<string>, c: nat): (r: Outcome<string>)
    ensures r.Panics? <==> c == 0
    ensures c > 0 ==> r == Returns(Rendered(values, c))
  {
    if c == 0 then Panics else Returns(Unlines(Lines(values, c)))
  }

  /** The values of a table no wider than the table, and the chunk size kept. */
  predicate WellFormed(values: seq<string>, maxWidth: nat, chunkSize: nat)
  {
    && (forall j :: 0 <= j < |values| ==> Len(values[j]) <= maxWidth)
    && chunkSize == LargestFit(values, maxWidth, |values|)
  }

  /** An empty table panics when the source displays it. */
  lemma AsWrittenEmptyPanics(maxWidth: nat, chunkSize: nat)
    requires WellFormed([], maxWidth, chunkSize)
    ensures RenderedAsWritten([], chunkSize) == Panics
    ensures Rendered([], chunkSize) == ""
  {
  }

  /** No line of a well-formed table is wider than the table. */
  lemma LinesFit(values: seq<string>, maxWidth: nat, chunkSize: nat)
    requires WellFormed(values, maxWidth, chunkSize) && chunkSize > 0
    ensures forall l :: l in Lines(values, chunkSize) ==> |l| <= maxWidth
  {
    var c := chunkSize;
    LargestFitIsLargest(values, maxWidth, |values|);
    var chunks := Chunks(values, c);
    var ws := ColumnWidths(values, c);
    forall k | 0 <= k < |chunks|
      ensures |Cells(chunks[k], ws, " ", |chunks[k]|)| <= maxWidth
    {
      var chunk := chunks[k];
      forall i | 0 <= i < |chunk|
        ensures |chunk[i]| <= ws[i]
      {
        ChunkColumnWidthIsMax(chunks, i, 0);
      }
      CellsLength(chunk, ws, " ", |chunk|);
      SumPrefix(ws, |chunk|);
    }
  }

  /** `RowTable`: the values, the maximum width and the chunk size kept for them. */
  class RowTable {
    var values: seq<string>
    const maxWidth: nat
    var chunkSize: nat

    ghost predicate Valid()
      reads this
    {
      WellFormed(values, maxWidth, chunkSize)
    }

    /** `RowTable::new`: no values and a chunk size of 0. */
    constructor (maxWidth: nat)
      ensures Valid()
      ensures values == [] && this.maxWidth == maxWidth && chunkSize == 0
    {
      values := [];
      this.maxWidth := maxWidth;
      chunkSize := 0;
    }

    /** `max_column_widths_with_chunk_size`: the widest i-th value over the chunks, for each column i. */
    method MaxColumnWidthsWithChunkSize(c: nat) returns (ws: seq<nat>)
      requires c > 0
      ensures ws == ColumnWidths(values, c)
    {
      var widths := new nat[c](_ => 0);
      var chunks := Chunks(values, c);
      var k := 0;
      while k < |chunks|
        invariant 0 <= k <= |chunks|
        invariant forall i :: 0 <= i < c ==> widths[i] == ChunkColumnWidth(chunks[..k], i)
      {
        var chunk := chunks[k];
        var i := 0;
        while i < |chunk|
          invariant 0 <= i <= |chunk| <= c
          invariant forall m :: 0 <= m < i ==> widths[m] == Max(ChunkColumnWidth(chunks[..k], m), Len(chunk[m]))
          invariant forall m :: i <= m < c ==> widths[m] == ChunkColumnWidth(chunks[..k], m)
        {
          widths[i] := Max(widths[i], Len(chunk[i]));
          i := i + 1;
        }
        assert chunks[..k + 1][..k] == chunks[..k];
        k := k + 1;
      }
      assert chunks[..k] == chunks;
      ws := widths[..];
    }

    /** `find_new_chunk_size`: the largest chunk size up to the number of values that fits. */
    method FindNewChunkSize() returns (c: nat)
      ensures c == LargestFit(values, maxWidth, |values|)
    {
      c := |values|;
      while c > 0
        invariant c <= |values|
        invariant LargestFit(values, maxWidth, c) == LargestFit(values, maxWidth, |values|)
      {
        var widths := MaxColumnWidthsWithChunkSize(c);
        if Sum(widths) + c - 1 <= maxWidth {
          break;
        }
        c := c - 1;
      }
    }

    /** `add_value`: a value wider than the table is refused; otherwise it is added and the chunk size found again. */
    method AddValue(value: string) returns (r: Result<(), TableError>)
      requires Valid()
      modifies this
      ensures Valid()
      ensures Len(value) > maxWidth ==> r == Err(ValueTooWide(maxWidth, Len(value))) && values == old(values) && chunkSize == old(chunkSize)
      ensures Len(value) <= maxWidth ==> r == Ok(()) && values == old(values) + [value] && chunkSize >= 1
    {
      if Len(value) > maxWidth {
        return Err(ValueTooWide(maxWidth, Len(value)));
      }
      values := values + [value];
      chunkSize := FindNewChunkSize();
      LargestFitPositive(values, maxWidth);
      r := Ok(());
    }

    /** `Display`, corrected: an empty table writes nothing. */
    method Display() returns (s: string)
      ensures s == Rendered(values, chunkSize)
    {
      if chunkSize == 0 {
        return "";
      }
      var widths := MaxColumnWidthsWithChunkSize(chunkSize);
      s := WriteChunks(Chunks(values, chunkSize), widths);
    }
  }

  lemma ChunkLinesStep(chunks: seq<seq<string>>, widths: seq<nat>, k: nat)
    requires k < |chunks|
    requires forall m :: 0 <= m < |chunks| ==> |chunks[m]| <= |widths|
    ensures Unlines(ChunkLines(chunks[..k + 1], widths))
      == Unlines(ChunkLines(chunks[..k], widths)) + (Cells(chunks[k], widths, " ", |chunks[k]|) + "\n")
  {
    ChunkLinesSnoc(chunks, widths, k);
    UnlinesSnocLine(ChunkLines(chunks[..k], widths), Cells(chunks[k], widths, " ", |chunks[k]|));
  }

  lemma ChunkLinesSnoc(chunks: seq<seq<string>>, widths: seq<nat>, k: nat)
    requires k < |chunks|
    requires forall m :: 0 <= m < |chunks| ==> |chunks[m]| <= |widths|
    ensures ChunkLines(chunks[..k + 1], widths) == ChunkLines(chunks[..k], widths) + [Cells(chunks[k], widths, " ", |chunks[k]|)]
  {
    var pre := chunks[..k + 1];
    assert pre[..k] == chunks[..k] && pre[k] == chunks[k];
  }

  /** The loop `Display` writes the chunks with, one line each. */
  method WriteChunks(chunks: seq<seq<string>>, widths: seq<nat>) returns (s: string)
    requires forall k :: 0 <= k < |chunks| ==> |chunks[k]| <= |widths|
    ensures s == Unlines(ChunkLines(chunks, widths))
  {
    s := "";
    var k := 0;
    while k < |chunks|
      invariant 0 <= k <= |chunks|
      invariant s == Unlines(ChunkLines(chunks[..k], widths))
    {
      var line := WriteCells(chunks[k], widths, " ");
      ChunkLinesStep(chunks, widths, k);
      s := s + (line + "\n");
      k := k + 1;
    }
    assert chunks[..k] == chunks;
  }
}

module RowTableTests {
  import opened Tables
  import opened RowTable
  import Bytes

  lemma HelloWorldWidths()
    ensures Len("hello") == 5 && Len("world") == 5
  {
    Bytes.AsciiStringLength("hello");
    Bytes.AsciiStringLength("world");
  }

  /** `test_one_row`: two values in 80 columns share one row. */
  lemma TestOneRow()
    ensures LargestFit(["hello", "world"], 80, 2) == 2
    ensures Rendered(["hello", "world"], 2) == "hello world\n"
  {
    HelloWorldWidths();
    var vs := ["hello", "world"];
    assert Chunks(vs, 2) == [vs];
    var ws := ColumnWidths(vs, 2);
    assert ws[0] == 5 && ws[1] == 5;
  }

  lemma FourSum()
    ensures Sum([5, 5, 3, 3]) == 16 && Sum([5, 5, 3]) == 13 && Sum([5, 5]) == 10 && Sum([5]) == 5
  {
    assert [5, 5, 3, 3][..3] == [5, 5, 3];
    assert [5, 5, 3][..2] == [5, 5];
    assert [5, 5][..1] == [5];
    assert [5][..0] == [];
  }

  lemma OneChunkWidth(a: seq<string>, i: nat)
    ensures ChunkColumnWidth([a], i) == if i < |a| then Len(a[i]) else 0
  {
    assert [a][..0] == [];
  }

  lemma TwoChunksWidth(a: seq<string>, b: seq<string>, i: nat)
    ensures ChunkColumnWidth([a, b], i) == Max(if i < |a| then Len(a[i]) else 0, if i < |b| then Len(b[i]) else 0)
  {
    assert [a, b][..1] == [a];
    OneChunkWidth(a, i);
  }

  lemma TwoRowsNotFour()
    ensures !Fits(["hello", "world", "foo", "bar"], 11, 4)
  {
    HelloWorldWidths();
    Bytes.AsciiStringLength("foo");
    Bytes.AsciiStringLength("bar");
    var vs := ["hello", "world", "foo", "bar"];
    assert Chunks(vs, 4) == [vs];
    var ws := ColumnWidths(vs, 4);
    OneChunkWidth(vs, 0);
    OneChunkWidth(vs, 1);
    OneChunkWidth(vs, 2);
    OneChunkWidth(vs, 3);
    assert ws == [5, 5, 3, 3];
    FourSum();
  }

  lemma TwoRowsNotThree()
    ensures !Fits(["hello", "world", "foo", "bar"], 11, 3)
  {
    HelloWorldWidths();
    Bytes.AsciiStringLength("foo");
    Bytes.AsciiStringLength("bar");
    var vs := ["hello", "world", "foo", "bar"];
    assert Chunks(vs, 3) == [vs[..3], ["bar"]];
    var ws := ColumnWidths(vs, 3);
    TwoChunksWidth(vs[..3], ["bar"], 0);
    TwoChunksWidth(vs[..3], ["bar"], 1);
    TwoChunksWidth(vs[..3], ["bar"], 2);
    assert ws == [5, 5, 3];
    FourSum();
  }

  lemma TwoRowsTwo()
    ensures Fits(["hello", "world", "foo", "bar"], 11, 2)
    ensures Lines(["hello", "world", "foo", "bar"], 2) == ChunkLines([["hello", "world"], ["foo", "bar"]], [5, 5])
  {
    HelloWorldWidths();
    Bytes.AsciiStringLength("foo");
    Bytes.AsciiStringLength("bar");
    var vs := ["hello", "world", "foo", "bar"];
    assert Chunks(vs, 2) == [vs[..2], ["foo", "bar"]];
    var ws := ColumnWidths(vs, 2);
    TwoChunksWidth(vs[..2], ["foo", "bar"], 0);
    TwoChunksWidth(vs[..2], ["foo", "bar"], 1);
    assert ws == [5, 5];
    FourSum();
  }

  lemma HelloWorldCells()
    ensures Cells(["hello", "world"], [5, 5], " ", 2) == "hello world"
  {
  }

  lemma FooBarCells()
    ensures Cells(["foo", "bar"], [5, 5], " ", 2) == "foo   bar  "
  {
  }

  lemma TwoRowsText()
    ensures Unlines(ChunkLines([["hello", "world"], ["foo", "bar"]], [5, 5])) == "hello world\nfoo   bar  \n"
  {
    var ls := ChunkLines([["hello", "world"], ["foo", "bar"]], [5, 5]);
    HelloWorldCells();
    FooBarCells();
    assert ls == ["hello world", "foo   bar  "];
    assert ls[..1] == ["hello world"];
    assert ls[..1][..0] == [];
  }

  /** `test_two_rows`: four values in 11 columns go two to a row, padded to the widest of each column. */
  lemma TestTwoRows()
    ensures LargestFit(["hello", "world", "foo", "bar"], 11, 4) == 2
    ensures Rendered(["hello", "world", "foo", "bar"], 2) == "hello world\nfoo   bar  \n"
  {
    TwoRowsNotFour();
    TwoRowsNotThree();
    TwoRowsTwo();
    TwoRowsText();
  }

  /** `test_value_includes_padding`: two 5-char values and the space between overflow 10 columns. */
  lemma TestValueIncludesPadding()
    ensures LargestFit(["hello", "world"], 10, 2) == 1
    ensures Rendered(["hello", "world"], 1) == "hello\nworld\n"
  {
    HelloWorldWidths();
    var vs := ["hello", "world"];
    assert Chunks(vs, 2) == [vs];
    OneChunkWidth(vs, 0);
    OneChunkWidth(vs, 1);
    assert ColumnWidths(vs, 2) == [5, 5];
    FourSum();
    assert !Fits(vs, 10, 2);
    assert vs[..1] == ["hello"] && vs[1..] == ["world"];
    assert Chunks(vs[1..], 1) == [["world"]];
    assert Chunks(vs, 1) == [["hello"], ["world"]];
    TwoChunksWidth(["hello"], ["world"], 0);
    assert ColumnWidths(vs, 1) == [5];
  }
}
