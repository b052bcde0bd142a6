/** The virtual canvas (rplace.py): a flat, row-major array of
    `width * height` cells that accepts serialised cells one at a time and
    renders itself as text.
 */
module Canvas {
  import opened Wrappers
  import opened Pixels

  /** The palette index of white. */
  const White: int := 15

  const FullBlock: char := '\U{2588}'
  const LowerHalfBlock: char := '\U{2584}'

  // ---------------------------------------------------------------------
  // Row-major layout
  // ---------------------------------------------------------------------

  /** The slot that holds the cell at (x, y). */
  function SlotIndex(width: int, x: int, y: int): int {
    y * width + x
  }

  /** Slot i holds a cell whose coordinates are (i % width, i / width). */
  ghost predicate RowMajor(cells: seq<Pixel>, width: int) {
    forall i :: 0 <= i < |cells| ==> width > 0 && cells[i].x == i % width && cells[i].y == i / width
  }

  lemma DivNonNegative(i: int, width: int)
    requires i >= 0 && width > 0
    ensures i / width >= 0 && i % width >= 0
  {
  }

  /** On a row-major board every coordinate is non-negative. */
  lemma RowMajorNonNegative(cells: seq<Pixel>, width: int)
    requires RowMajor(cells, width)
    ensures forall i :: 0 <= i < |cells| ==> cells[i].x >= 0 && cells[i].y >= 0
  {
    forall i | 0 <= i < |cells| ensures cells[i].x >= 0 && cells[i].y >= 0 {
      var cell := cells[i];
      DivNonNegative(i, width);
    }
  }

  /** Inside a row, slot index and coordinates determine each other. */
  lemma SlotCoordinates(width: int, x: int, y: int)
    requires 0 <= x < width && y >= 0
    ensures SlotIndex(width, x, y) % width == x && SlotIndex(width, x, y) / width == y
  {
    ModOfDecomposition(SlotIndex(width, x, y), width, y, x);
  }

  lemma {:induction false} MulMonotone(a: int, b: int, c: int)
    requires 0 <= a <= b && c >= 0
    ensures a * c <= b * c
  {
    if a < b {
      MulMonotone(a, b - 1, c);
      assert b * c == (b - 1) * c + c;
    }
  }

  /** A position inside the grid has a slot inside the array. */
  lemma SlotInBounds(width: int, height: int, x: int, y: int)
    requires 0 <= x < width && 0 <= y < height
    ensures 0 <= SlotIndex(width, x, y) < width * height
  {
    MulMonotone(0, y, width);
    MulMonotone(y + 1, height, width);
    assert (y + 1) * width == y * width + width;
  }

  // ---------------------------------------------------------------------
  // The board as a value
  // ---------------------------------------------------------------------

  /** The cells of a new board: every slot white on white, with coordinates
      taken from its index and the empty glyph. */
  function FreshBoard(width: nat, height: nat): (cells: seq<Pixel>)
    ensures |cells| == width * height
    ensures RowMajor(cells, width)
    ensures forall i :: 0 <= i < |cells| ==> cells[i].bg == White && cells[i].fg == White && cells[i].glyph == ""
  {
    seq(width * height, i requires 0 <= i < width * height => Pixel(i % width, i / width, White, White))
  }

  /** Overwrite the slot `y * width + x` addressed by a parsed cell. There is
      no check that x is below the width; a slot outside the array raises
      IndexError. */
  function WriteCell(cells: seq<Pixel>, width: int, p: Pixel): (r: Result<seq<Pixel>>)
    ensures var i := SlotIndex(width, p.x, p.y);
      (r.Success? <==> 0 <= i < |cells|) &&
      (r.Failure? ==> r.error == IndexError) &&
      (r.Success? ==> |r.value| == |cells| && r.value[i] == p &&
                      forall j :: 0 <= j < |cells| && j != i ==> r.value[j] == cells[j])
  {
    var i := SlotIndex(width, p.x, p.y);
    if 0 <= i < |cells| then Success(cells[i := p]) else Failure(IndexError)
  }

  /** `add_pixel` on the board's cells: parse the record, then write it. */
  function ApplyRecord(cells: seq<Pixel>, width: int, record: string): (r: Result<seq<Pixel>>)
    ensures FromSerialized(record).Failure? ==> r == Failure(FromSerialized(record).error)
    ensures FromSerialized(record).Success? ==> r == WriteCell(cells, width, FromSerialized(record).value)
  {
    var p :- FromSerialized(record);
    WriteCell(cells, width, p)
  }

  /** A cell whose coordinates lie inside a width x height board replaces
      exactly the slot of those coordinates, and nothing else. */
  lemma WriteInBounds(cells: seq<Pixel>, width: int, height: int, p: Pixel)
    requires |cells| == width * height
    requires 0 <= p.x < width && 0 <= p.y < height
    ensures 0 <= SlotIndex(width, p.x, p.y) < |cells|
    ensures WriteCell(cells, width, p) == Success(cells[SlotIndex(width, p.x, p.y) := p])
  {
    SlotInBounds(width, height, p.x, p.y);
  }

  /** Writing a cell whose x lies inside the row keeps every slot's
      coordinates consistent with its index. */
  lemma WriteKeepsRowMajor(cells: seq<Pixel>, width: int, p: Pixel)
    requires RowMajor(cells, width) && width > 0
    requires WriteCell(cells, width, p).Success?
    requires 0 <= p.x < width
    ensures RowMajor(WriteCell(cells, width, p).value, width)
  {
    var i := SlotIndex(width, p.x, p.y);
    if p.y < 0 {
      MulMonotone(1, -p.y, width);
    }
    SlotCoordinates(width, p.x, p.y);
  }

  /** A cell with x beyond the row end but a slot inside the array lands in
      a later row: the write succeeds and the layout is broken. */
  lemma WritePastRowEnd(cells: seq<Pixel>, width: int, p: Pixel)
    requires RowMajor(cells, width) && width > 0
    requires p.x >= width && 0 <= SlotIndex(width, p.x, p.y) < |cells|
    ensures WriteCell(cells, width, p).Success?
    ensures !RowMajor(WriteCell(cells, width, p).value, width)
  {
    var i := SlotIndex(width, p.x, p.y);
    assert i % width < width <= p.x;
  }

  /** Applying the same record twice leaves the board as applying it once. */
  lemma ApplyIdempotent(cells: seq<Pixel>, width: int, record: string)
    requires ApplyRecord(cells, width, record).Success?
    ensures ApplyRecord(ApplyRecord(cells, width, record).value, width, record)
         == ApplyRecord(cells, width, record)
  {
    var p := FromSerialized(record).value;
    var i := SlotIndex(width, p.x, p.y);
    assert cells[i := p][i := p] == cells[i := p];
  }

  /** Last write wins: a second record for the same position overrides the
      first one completely. */
  lemma ApplyLastWriteWins(cells: seq<Pixel>, width: int, first: string, second: string)
    requires ApplyRecord(cells, width, first).Success? && FromSerialized(second).Success?
    requires FromSerialized(first).value.x == FromSerialized(second).value.x
    requires FromSerialized(first).value.y == FromSerialized(second).value.y
    ensures ApplyRecord(ApplyRecord(cells, width, first).value, width, second)
         == ApplyRecord(cells, width, second)
  {
    var p, q := FromSerialized(first).value, FromSerialized(second).value;
    var i := SlotIndex(width, p.x, p.y);
    assert cells[i := p][i := q] == cells[i := q];
  }

  /** The board after a series of separate `add_pixel` requests, one per
      record. A record that fails to parse or to index raises before the
      assignment, so that request leaves the board as it was and the
      following records still apply. */
  function ApplyRecords(cells: seq<Pixel>, width: int, records: seq<string>): (r: seq<Pixel>)
    ensures |r| == |cells|
  {
    if records == [] then cells
    else
      var before := ApplyRecords(cells, width, records[..|records| - 1]);
      match ApplyRecord(before, width, records[|records| - 1])
      case Success(after) => after
      case Failure(_) => before
  }

  /** Every slot either still holds its original cell or holds a cell that
      one of the records parses to. */
  lemma {:induction false} ApplyRecordsProvenance(cells: seq<Pixel>, width: int, records: seq<string>, i: int)
    requires 0 <= i < |cells|
    ensures ApplyRecords(cells, width, records)[i] == cells[i] ||
            exists j :: 0 <= j < |records| && FromSerialized(records[j]) == Success(ApplyRecords(cells, width, records)[i])
  {
    if records != [] {
      var n := |records| - 1;
      var prefix := records[..n];
      var before := ApplyRecords(cells, width, prefix);
      var r := ApplyRecords(cells, width, records);
      ApplyRecordsProvenance(cells, width, prefix, i);
      if r[i] != before[i] {
        assert FromSerialized(records[n]) == Success(r[i]);
      } else if before[i] != cells[i] {
        var j :| 0 <= j < |prefix| && FromSerialized(prefix[j]) == Success(before[i]);
        assert records[j] == prefix[j];
      }
    }
  }

  /** Requests compose: applying a then b is applying a + b. */
  lemma {:induction false} ApplyRecordsAppend(cells: seq<Pixel>, width: int, a: seq<string>, b: seq<string>)
    ensures ApplyRecords(cells, width, a + b) == ApplyRecords(ApplyRecords(cells, width, a), width, b)
  {
    if b == [] {
      assert a + b == a;
    } else {
      var n := |b| - 1;
      ApplyRecordsAppend(cells, width, a, b[..n]);
      assert (a + b)[..|a + b| - 1] == a + b[..n];
      assert (a + b)[|a + b| - 1] == b[n];
    }
  }

  /** A record that fails does not stop the ones after it: the board ends as
      if the failed request had never been made. */
  lemma FailedRecordSkipped(cells: seq<Pixel>, width: int, bad: string, rest: seq<string>)
    requires ApplyRecord(cells, width, bad).Failure?
    ensures ApplyRecords(cells, width, [bad] + rest) == ApplyRecords(cells, width, rest)
  {
    ApplyRecordsAppend(cells, width, [bad], rest);
    assert [bad][..0] == [];
  }

  // ---------------------------------------------------------------------
  // Rendering
  // ---------------------------------------------------------------------

  /** The display glyph of a cell, from which of its halves are white. */
  function CellGlyph(p: Pixel): (glyph: char)
    ensures glyph == FullBlock <==> p.bg == White && p.fg == White
    ensures glyph == LowerHalfBlock <==> p.bg == White && p.fg != White
    ensures glyph == UpperHalfBlock <==> p.bg != White && p.fg == White
    ensures glyph == ' ' <==> p.bg != White && p.fg != White
  {
    if p.bg == White && p.fg == White then FullBlock
    else if p.bg == White then LowerHalfBlock
    else if p.fg == White then UpperHalfBlock
    else ' '
  }

  /** A cell's glyph, followed by a line break when it ends a row. */
  function CellText(p: Pixel, width: int): string {
    [CellGlyph(p)] + (if p.x == width - 1 then "\n" else "")
  }

  function RenderCells(cells: seq<Pixel>, width: int): string {
    if cells == [] then ""
    else RenderCells(cells[..|cells| - 1], width) + CellText(cells[|cells| - 1], width)
  }

  /** `print_board` as text: every cell in slot order, then one final line
      break. */
  function RenderBoard(cells: seq<Pixel>, width: int): string {
    RenderCells(cells, width) + "\n"
  }

  function Repeat<T>(s: seq<T>, n: nat): (r: seq<T>)
    ensures |r| == n * |s|
  {
    if n == 0 then [] else Repeat(s, n - 1) + s
  }

  /** One fully lit row: `width` full blocks and a line break. */
  function FullRow(width: nat): string {
    Repeat([FullBlock], width) + "\n"
  }

  /** Every cell is white on white. */
  ghost predicate AllWhite(cells: seq<Pixel>) {
    forall i :: 0 <= i < |cells| ==> cells[i].bg == White && cells[i].fg == White
  }

  /** The text of the first k cells of a fully lit board: k / width full
      rows, then k % width full blocks. */
  function LitPrefix(width: nat, k: nat): string
    requires width > 0
  {
    Repeat(FullRow(width), k / width) + Repeat([FullBlock], k % width)
  }

  lemma RenderPrefixStep(cells: seq<Pixel>, width: int, k: nat)
    requires k < |cells|
    ensures RenderCells(cells[..k + 1], width) == RenderCells(cells[..k], width) + CellText(cells[k], width)
  {
    assert cells[..k + 1][..k] == cells[..k];
  }

  /** Adding the full block that ends a row completes that row. */
  lemma LitPrefixRowEnd(width: nat, j: nat)
    requires width > 0 && j % width == width - 1
    ensures LitPrefix(width, j + 1) == LitPrefix(width, j) + ([FullBlock] + "\n")
  {
    var q := j / width;
    assert j + 1 == width * (q + 1);
    ModOfDecomposition(j + 1, width, q + 1, 0);
    assert Repeat([FullBlock], width - 1) + [FullBlock] == Repeat([FullBlock], width);
  }

  /** Adding a full block inside a row extends the partial row. */
  lemma LitPrefixInRow(width: nat, j: nat)
    requires width > 0 && j % width != width - 1
    ensures LitPrefix(width, j + 1) == LitPrefix(width, j) + [FullBlock]
  {
    ModOfDecomposition(j + 1, width, j / width, j % width + 1);
  }

  /** The first k cells of a lit board render as k / width full rows and
      then k % width full blocks. */
  lemma {:induction false} RenderLitPrefix(cells: seq<Pixel>, width: nat, k: nat)
    requires width > 0 && RowMajor(cells, width) && AllWhite(cells) && k <= |cells|
    ensures RenderCells(cells[..k], width) == LitPrefix(width, k)
  {
    if k == 0 {
      assert cells[..k] == [];
    } else {
      var j := k - 1;
      RenderLitPrefix(cells, width, j);
      RenderPrefixStep(cells, width, j);
      assert CellGlyph(cells[j]) == FullBlock;
      if j % width == width - 1 {
        LitPrefixRowEnd(width, j);
      } else {
        LitPrefixInRow(width, j);
      }
    }
  }

  /** A fresh board renders as `height` rows of `width` full blocks followed
      by an empty line. */
  lemma RenderFreshBoard(width: nat, height: nat)
    requires width > 0
    ensures RenderBoard(FreshBoard(width, height), width) == Repeat(FullRow(width), height) + "\n"
  {
    var board := FreshBoard(width, height);
    RenderLitPrefix(board, width, |board|);
    assert board[..|board|] == board;
    ModOfDecomposition(width * height, width, height, 0);
  }

  // ---------------------------------------------------------------------
  // The canvas object
  // ---------------------------------------------------------------------

  class Rplace {
    const width: nat
    const height: nat
    const imageData: array<Pixel>

    /** `Rplace(width, height)`: a fresh white board. */
    constructor (width: nat := 4, height: nat := 4)
      ensures this.width == width && this.height == height
      ensures fresh(imageData) && imageData.Length == width * height
      ensures imageData[..] == FreshBoard(width, height)
    {
      var data := new Pixel[width * height];
      var i := 0;
      while i < width * height
        invariant 0 <= i <= width * height
        invariant forall j :: 0 <= j < i ==> data[j] == FreshBoard(width, height)[j]
      {
        data[i] := Pixel(i % width, i / width, White, White);
        i := i + 1;
      }
      this.width := width;
      this.height := height;
      imageData := data;
    }

    /** `add_pixel`: parse the record and overwrite the slot it addresses.
        On an error the board is left as it was. */
    method AddPixel(serializedPixel: string) returns (outcome: Outcome)
      modifies imageData
      ensures match ApplyRecord(old(imageData[..]), width, serializedPixel)
              case Success(cells) => outcome == Pass && imageData[..] == cells
              case Failure(e) => outcome == Fail(e) && imageData[..] == old(imageData[..])
    {
      var parsed := FromSerialized(serializedPixel);
      if parsed.Failure? {
        return Fail(parsed.error);
      }
      var p := parsed.value;
      var i := p.y * width + p.x;
      if !(0 <= i < imageData.Length) {
        return Fail(IndexError);
      }
      imageData[i] := p;
      return Pass;
    }

    /** `print_board`, returning the text it would print. */
    method PrintBoard() returns (board: string)
      ensures board == RenderBoard(imageData[..], width)
    {
      board := "";
      var i := 0;
      while i < imageData.Length
        invariant 0 <= i <= imageData.Length
        invariant board == RenderCells(imageData[..i], width)
      {
        assert imageData[..i + 1][..i] == imageData[..i];
        board := board + CellText(imageData[i], width);
        i := i + 1;
      }
      assert imageData[..i] == imageData[..];
      board := board + "\n";
    }
  }
}
