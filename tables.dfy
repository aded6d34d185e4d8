// What the two tables of the tables crate share: the error type, the length
// of a cell, and the padding the `{:width$}` format applies to it.
module Tables {
  import Bytes

  /** `TableError`. */
  datatype TableError = IncorrectNumberOfColumns(expected: nat, found: nat) | ValueTooWide(maxWidth: nat, width: nat)

  /** `str::len`: the length of a cell in UTF-8 bytes, at least its number of chars. */
  function Len(s: string): (n: nat)
    ensures n >= |s|
  {
    Bytes.Utf8StringLength(s)
  }

  function Max(a: nat, b: nat): (m: nat)
    ensures m >= a && m >= b && (m == a || m == b)
  {
    if a >= b then a else b
  }

  /** n copies of the char c. */
  function Fill(c: char, n: nat): (r: string)
    ensures |r| == n && forall i :: 0 <= i < n ==> r[i] == c
  {
    if n == 0 then [] else [c] + Fill(c, n - 1)
  }

  /** `{:width$}` on a string: left-aligned, filled with spaces up to w chars. */
  function Pad(s: string, w: nat): (r: string)
    ensures |s| <= w ==> |r| == w
    ensures |s| >= w ==> r == s
    ensures r[..|s|] == s
    ensures forall i :: |s| <= i < |r| ==> r[i] == ' '
  {
    if |s| < w then s + Fill(' ', w - |s|) else s
  }

  /** The sum of a sequence of widths. */
  function Sum(ws: seq<nat>): nat
  {
    if ws == [] then 0 else Sum(ws[..|ws| - 1]) + ws[|ws| - 1]
  }

  /** A sum never falls when more widths are added. */
  lemma {:induction false} SumPrefix(ws: seq<nat>, k: nat)
    requires k <= |ws|
    ensures Sum(ws[..k]) <= Sum(ws)
    decreases |ws|
  {
    if k < |ws| {
      assert ws[..|ws| - 1][..k] == ws[..k];
      SumPrefix(ws[..|ws| - 1], k);
      assert ws[..|ws|] == ws;
    } else {
      assert ws[..k] == ws;
    }
  }

  /** The number of places between n cells. */
  function Gaps(n: nat): nat
  {
    if n == 0 then 0 else n - 1
  }

  /** The first k cells of a row, each padded to its column's width, with the gap after all but the last. */
  function Cells(row: seq<string>, widths: seq<nat>, gap: string, k: nat): string
    requires k <= |row| <= |widths|
  {
    if k == 0 then ""
    else Cells(row, widths, gap, k - 1) + Pad(row[k - 1], widths[k - 1]) + (if k - 1 != |row| - 1 then gap else "")
  }

  /** The length of the first k cells of a row whose cells fit their columns. */
  lemma {:induction false} CellsLength(row: seq<string>, widths: seq<nat>, gap: string, k: nat)
    requires k <= |row| <= |widths|
    requires forall i :: 0 <= i < |row| ==> |row[i]| <= widths[i]
    ensures |Cells(row, widths, gap, k)| == Sum(widths[..k]) + (if k == |row| then Gaps(k) else k) * |gap|
  {
    if k > 0 {
      CellsLength(row, widths, gap, k - 1);
      CellsLengthStep(row, widths, gap, k);
    }
  }

  lemma CellsLengthStep(row: seq<string>, widths: seq<nat>, gap: string, k: nat)
    requires 0 < k <= |row| <= |widths|
    requires |row[k - 1]| <= widths[k - 1]
    requires |Cells(row, widths, gap, k - 1)| == Sum(widths[..k - 1]) + (k - 1) * |gap|
    ensures |Cells(row, widths, gap, k)| == Sum(widths[..k]) + (if k == |row| then Gaps(k) else k) * |gap|
  {
    SumSnoc(widths, k);
    MulSucc(k - 1, |gap|);
  }

  lemma SumSnoc(ws: seq<nat>, k: nat)
    requires 0 < k <= |ws|
    ensures Sum(ws[..k]) == Sum(ws[..k - 1]) + ws[k - 1]
  {
    assert ws[..k][..k - 1] == ws[..k - 1];
  }

  lemma MulSucc(n: nat, g: nat)
    ensures n * g + g == (n + 1) * g
  {
  }

  /** The loop both tables write a row with: each cell padded, and the gap after all but the last. */
  method WriteCells(row: seq<string>, widths: seq<nat>, gap: string) returns (cells: string)
    requires |row| <= |widths|
    ensures cells == Cells(row, widths, gap, |row|)
  {
    cells := "";
    var i := 0;
    while i < |row|
      invariant 0 <= i <= |row|
      invariant cells == Cells(row, widths, gap, i)
    {
      cells := cells + Pad(row[i], widths[i]);
      if i != |row| - 1 {
        cells := cells + gap;
      }
      i := i + 1;
    }
  }

  /** Lines as `writeln!` writes them, each ended by a newline. */
  function Unlines(lines: seq<string>): (r: string)
    ensures |lines| == 0 ==> r == ""
  {
    if lines == [] then "" else Unlines(lines[..|lines| - 1]) + lines[|lines| - 1] + "\n"
  }

  lemma UnlinesSnoc(lines: seq<string>, l: string)
    ensures Unlines(lines + [l]) == Unlines(lines) + l + "\n"
  {
    assert (lines + [l])[..|lines|] == lines;
  }

  lemma UnlinesSnocLine(lines: seq<string>, l: string)
    ensures Unlines(lines + [l]) == Unlines(lines) + (l + "\n")
  {
    UnlinesSnoc(lines, l);
    assert Unlines(lines) + l + "\n" == Unlines(lines) + (l + "\n");
  }

  lemma {:induction false} UnlinesAppend(a: seq<string>, b: seq<string>)
    ensures Unlines(a + b) == Unlines(a) + Unlines(b)
    decreases |b|
  {
    if b == [] {
      assert a + b == a;
    } else {
      var init := b[..|b| - 1];
      assert (a + b)[..|a + b| - 1] == a + init;
      UnlinesAppend(a, init);
    }
  }
}
