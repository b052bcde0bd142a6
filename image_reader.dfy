/** The half-block image layout (lib/image_reader.py).

    Every vertical pair of source pixels becomes one cell: the upper pixel's
    palette index is the cell's foreground, the lower pixel's its background,
    and the glyph is the upper half block. The cells are laid out row-major,
    exactly as on the canvas.
 */
module ImageReading {
  import opened Wrappers
  import opened Pixels
  import Canvas

  /** One decoded source pixel: red, green, blue and alpha channels. */
  datatype Rgba = Rgba(r: int, g: int, b: int, a: int)

  /** A decoded image; `rows[y][x]` is the pixel at column x, row y. */
  datatype Image = Image(width: nat, height: nat, rows: seq<seq<Rgba>>)

  /** Decoded images are rectangular. */
  predicate WellFormed(img: Image) {
    |img.rows| == img.height && forall y :: 0 <= y < |img.rows| ==> |img.rows[y]| == img.width
  }

  /** The palette lookup of the `#rrggbb` text of a colour's red, green and
      blue channels; the palette itself is not part of this model. */
  type ColorIndex = (int, int, int) -> int

  /** The cell for column x of output row `row`, built from source rows
      `2 * row` (upper half, foreground) and `2 * row + 1` (lower half,
      background). */
  function HalfBlockCell(img: Image, colorIndex: ColorIndex, x: int, row: int): Pixel
    requires WellFormed(img) && 0 <= x < img.width && 0 <= row && 2 * row + 1 < img.height
  {
    var upper := img.rows[2 * row][x];
    var lower := img.rows[2 * row + 1][x];
    Pixel(x, row, colorIndex(lower.r, lower.g, lower.b), colorIndex(upper.r, upper.g, upper.b),
          [UpperHalfBlock])
  }

  lemma {:induction false} HalfHeight(width: nat, height: nat)
    requires height % 2 == 0 || width == 0
    ensures width * height / 2 == width * (height / 2)
  {
    if width > 0 {
      assert height == 2 * (height / 2);
      assert width * height == 2 * (width * (height / 2));
    }
  }

  /** Output slot i lies in an output row whose source rows exist. */
  lemma RowOfSlot(width: nat, height: nat, i: int)
    requires 0 <= i < width * (height / 2)
    ensures width > 0 && 0 <= i / width && 2 * (i / width) + 1 < height
  {
    if i / width >= height / 2 {
      Canvas.MulMonotone(height / 2, i / width, width);
    }
  }

  /** `read_image` on a decoded image: one cell per column and pair of rows,
      in row-major order. With an odd height the last pair reads a row past
      the image, which raises IndexError as soon as there is a column. */
  function ReadImageCells(img: Image, colorIndex: ColorIndex): (r: Result<seq<Pixel>>)
    requires WellFormed(img)
    ensures r.Failure? <==> img.width > 0 && img.height % 2 == 1
    ensures r.Failure? ==> r.error == IndexError
    ensures r.Success? ==> |r.value| == img.width * img.height / 2
    ensures r.Success? ==> Canvas.RowMajor(r.value, img.width)
    ensures r.Success? ==> forall i :: 0 <= i < |r.value| ==> r.value[i].glyph == [UpperHalfBlock]
  {
    if img.width > 0 && img.height % 2 == 1 then
      Failure(IndexError)
    else
      var n := img.width * (img.height / 2);
      HalfHeight(img.width, img.height);
      Success(seq(n, i requires 0 <= i < n =>
        RowOfSlot(img.width, img.height, i);
        HalfBlockCell(img, colorIndex, i % img.width, i / img.width)))
  }

  /** Slot `x + width * row`, the index the source writes, holds the cell of
      column x and output row `row`: its foreground is the upper source
      pixel's index and its background the lower one's. */
  lemma ReadImageSlot(img: Image, colorIndex: ColorIndex, x: int, row: int)
    requires WellFormed(img) && img.height % 2 == 0
    requires 0 <= x < img.width && 0 <= row < img.height / 2
    ensures var cells := ReadImageCells(img, colorIndex).value;
      var i := x + img.width * row;
      0 <= i < |cells| && cells[i] == HalfBlockCell(img, colorIndex, x, row)
  {
    var cells := ReadImageCells(img, colorIndex).value;
    var i := x + img.width * row;
    assert i == Canvas.SlotIndex(img.width, x, row);
    Canvas.SlotInBounds(img.width, img.height / 2, x, row);
    HalfHeight(img.width, img.height);
    Canvas.SlotCoordinates(img.width, x, row);
  }

  /** Two images with the same dimensions and the same colour channels. */
  predicate SameColors(img: Image, other: Image)
    requires WellFormed(img) && WellFormed(other)
  {
    img.width == other.width && img.height == other.height &&
    forall y, x :: 0 <= y < img.height && 0 <= x < img.width ==>
      var p, q := img.rows[y][x], other.rows[y][x];
      p.r == q.r && p.g == q.g && p.b == q.b
  }

  /** The alpha channel never affects the output. */
  lemma ReadImageIgnoresAlpha(img: Image, other: Image, colorIndex: ColorIndex)
    requires WellFormed(img) && WellFormed(other) && SameColors(img, other)
    ensures ReadImageCells(img, colorIndex) == ReadImageCells(other, colorIndex)
  {
    if !(img.width > 0 && img.height % 2 == 1) {
      var cells, others := ReadImageCells(img, colorIndex).value, ReadImageCells(other, colorIndex).value;
      forall i | 0 <= i < |cells| ensures cells[i] == others[i] {
        HalfHeight(img.width, img.height);
        RowOfSlot(img.width, img.height, i);
        var x, row := i % img.width, i / img.width;
        assert img.rows[2 * row][x].r == other.rows[2 * row][x].r;
        assert img.rows[2 * row + 1][x].r == other.rows[2 * row + 1][x].r;
      }
      assert cells == others;
    }
  }

  /** The image reader object: it remembers the path of its image and, once
      the image has been read, its dimensions. */
  class ImageReader {
    const imagePath: string
    var width: Option<int>
    var height: Option<int>

    constructor (imagePath: string)
      ensures this.imagePath == imagePath && width == None && height == None
    {
      this.imagePath := imagePath;
      width, height := None, None;
    }

    /** `read_image`, given the decoded image of `imagePath` and the palette
        lookup. The output list is preallocated and filled slot by slot. */
    method ReadImage(img: Image, colorIndex: ColorIndex) returns (result: Result<seq<Pixel>>)
      requires WellFormed(img)
      modifies this
      ensures width == Some(img.width) && height == Some(img.height)
      ensures result == ReadImageCells(img, colorIndex)
    {
      var w, h := img.width, img.height;
      var output := new Pixel[w * h / 2];
      width, height := Some(w), Some(h);
      var y := 0;
      ghost var filled := 0;
      while y < h
        invariant 0 <= y <= h + 1 && y % 2 == 0
        invariant w > 0 && h % 2 == 1 ==> y < h
        invariant filled == w * (y / 2)
        invariant Filled(output[..], img, colorIndex, filled)
        invariant width == Some(w) && height == Some(h)
        decreases h - y
      {
        var x := 0;
        while x < w
          invariant 0 <= x <= w
          invariant x > 0 ==> y + 1 < h
          invariant Filled(output[..], img, colorIndex, filled + x)
          invariant width == Some(w) && height == Some(h)
        {
          if y + 1 >= h {
            // the lower pixel of the pair lies below the last row
            return Failure(IndexError);
          }
          var upper := img.rows[y][x];
          var lower := img.rows[y + 1][x];
          var bg := colorIndex(lower.r, lower.g, lower.b);
          var fg := colorIndex(upper.r, upper.g, upper.b);
          var slot := x + w * (y / 2);
          FillNext(output[..], img, colorIndex, x, y, filled);
          assert Pixel(x, y / 2, bg, fg, [UpperHalfBlock]) == HalfBlockCell(img, colorIndex, x, y / 2);
          output[slot] := Pixel(x, y / 2, bg, fg, [UpperHalfBlock]);
          x := x + 1;
        }
        NextPairStart(w, y);
        filled := filled + w;
        y := y + 2;
      }
      PairsExhausted(w, h, y);
      FilledAll(output[..], img, colorIndex);
      result := Success(output[..]);
    }
  }

  /** The first n slots hold the cells of their row-major positions. */
  ghost predicate Filled(cells: seq<Pixel>, img: Image, colorIndex: ColorIndex, n: int)
    requires WellFormed(img)
  {
    forall i :: 0 <= i < n ==>
      i < |cells| && img.width > 0 && 2 * (i / img.width) + 1 < img.height &&
      cells[i] == HalfBlockCell(img, colorIndex, i % img.width, i / img.width)
  }

  /** Writing the cell of column x and source rows y, y + 1 into its slot
      extends the filled prefix by one. */
  lemma FillNext(cells: seq<Pixel>, img: Image, colorIndex: ColorIndex, x: int, y: int, filled: int)
    requires WellFormed(img) && |cells| == img.width * img.height / 2
    requires 0 <= x < img.width && 0 <= y && y % 2 == 0 && y + 1 < img.height
    requires filled == img.width * (y / 2)
    requires Filled(cells, img, colorIndex, filled + x)
    ensures 0 <= filled + x < |cells|
    ensures Filled(cells[filled + x := HalfBlockCell(img, colorIndex, x, y / 2)],
                   img, colorIndex, filled + x + 1)
  {
    SlotFits(img.width, img.height, x, y);
    Canvas.SlotCoordinates(img.width, x, y / 2);
  }

  /** The next pair of source rows starts one output row further on. */
  lemma NextPairStart(w: nat, y: int)
    requires 0 <= y && y % 2 == 0
    ensures w * ((y + 2) / 2) == w * (y / 2) + w
  {
    assert (y + 2) / 2 == y / 2 + 1;
  }

  /** When the row loop ends normally, every output row has been filled. */
  lemma PairsExhausted(w: nat, h: nat, y: int)
    requires 0 <= y <= h + 1 && y % 2 == 0 && h <= y
    requires w > 0 && h % 2 == 1 ==> y < h
    ensures w * (y / 2) == w * (h / 2)
  {
    if h % 2 == 0 {
      assert y == h;
    } else {
      assert w == 0;
    }
  }

  /** A completely filled output is the layout of ReadImageCells. */
  lemma FilledAll(cells: seq<Pixel>, img: Image, colorIndex: ColorIndex)
    requires WellFormed(img) && !(img.width > 0 && img.height % 2 == 1)
    requires |cells| == img.width * img.height / 2
    requires Filled(cells, img, colorIndex, img.width * (img.height / 2))
    ensures cells == ReadImageCells(img, colorIndex).value
  {
    HalfHeight(img.width, img.height);
  }

  /** The slot written for column x of source rows y and y + 1 lies inside the
      preallocated output and has the row-major coordinates (x, y / 2). */
  lemma SlotFits(w: nat, h: nat, x: int, y: int)
    requires 0 <= x < w && 0 <= y && y % 2 == 0 && y + 1 < h
    ensures x + w * (y / 2) == Canvas.SlotIndex(w, x, y / 2)
    ensures x + w * (y / 2) < w * h / 2
  {
    var half := h / 2;
    assert y / 2 + 1 <= half;
    Canvas.MulMonotone(y / 2 + 1, half, w);
    assert w * (y / 2 + 1) == w * (y / 2) + w;
    assert w * h / 2 >= w * half by {
      assert h >= 2 * half;
      Canvas.MulMonotone(2 * half, h, w);
      assert w * (2 * half) == 2 * (w * half);
    }
  }

  lemma SlotOfIndex(width: int, j: int)
    requires width > 0 && j >= 0
    ensures Canvas.SlotIndex(width, j % width, j / width) == j
  {
  }

  /** The records of an image's cells, in slot order. */
  function SerializeAll(cells: seq<Pixel>): (records: seq<string>)
    requires forall i :: 0 <= i < |cells| ==> cells[i].y >= 0
    ensures |records| == |cells|
  {
    seq(|cells|, i requires 0 <= i < |cells| => Serialize(cells[i]).value)
  }

  /** The record of the cell in slot j parses back to that cell and
      addresses slot j. */
  lemma RecordOfCell(cells: seq<Pixel>, width: nat, height: nat, j: int)
    requires width > 0 && |cells| == width * height && height <= CodeSpace
    requires Canvas.RowMajor(cells, width)
    requires forall i :: 0 <= i < |cells| ==> cells[i].glyph == [UpperHalfBlock]
    requires 0 <= j < |cells|
    ensures forall i :: 0 <= i < |cells| ==> cells[i].y >= 0
    ensures FromSerialized(SerializeAll(cells)[j]) == Success(cells[j])
    ensures Canvas.SlotIndex(width, cells[j].x, cells[j].y) == j
  {
    Canvas.RowMajorNonNegative(cells, width);
    var cell := cells[j];
    assert cell.x == j % width && cell.y == j / width;
    RowBelowHeight(width, height, j);
    assert ' ' !in cell.glyph;
    SerializeRoundTripExact(cell);
    SlotOfIndex(width, j);
  }

  lemma RowBelowHeight(width: int, height: int, j: int)
    requires width > 0 && 0 <= j < width * height
    ensures 0 <= j / width < height
  {
    if j / width >= height {
      Canvas.MulMonotone(height, j / width, width);
    }
  }

  /** Applying the first k records of an image to a blank canvas of the
      image's layout installs the first k cells and leaves the rest white. */
  lemma {:induction false} ApplyImagePrefix(cells: seq<Pixel>, width: nat, height: nat, k: nat)
    requires width > 0 && |cells| == width * height && height <= CodeSpace
    requires Canvas.RowMajor(cells, width)
    requires forall i :: 0 <= i < |cells| ==> cells[i].glyph == [UpperHalfBlock]
    requires k <= |cells|
    ensures forall i :: 0 <= i < |cells| ==> cells[i].y >= 0
    ensures var blank := Canvas.FreshBoard(width, height);
      Canvas.ApplyRecords(blank, width, SerializeAll(cells)[..k]) == cells[..k] + blank[k..]
  {
    var blank := Canvas.FreshBoard(width, height);
    var records := SerializeAll(cells);
    if k == 0 {
      assert records[..k] == [];
      assert cells[..k] + blank[k..] == blank;
    } else {
      ApplyImagePrefix(cells, width, height, k - 1);
      ApplyImageStep(cells, width, height, k);
    }
  }

  /** Applying record k - 1 on top of the first k - 1 installs cell k - 1. */
  lemma ApplyImageStep(cells: seq<Pixel>, width: nat, height: nat, k: nat)
    requires width > 0 && |cells| == width * height && height <= CodeSpace
    requires Canvas.RowMajor(cells, width)
    requires forall i :: 0 <= i < |cells| ==> cells[i].glyph == [UpperHalfBlock]
    requires forall i :: 0 <= i < |cells| ==> cells[i].y >= 0
    requires 0 < k <= |cells|
    requires var blank := Canvas.FreshBoard(width, height);
      Canvas.ApplyRecords(blank, width, SerializeAll(cells)[..k - 1]) == cells[..k - 1] + blank[k - 1..]
    ensures var blank := Canvas.FreshBoard(width, height);
      Canvas.ApplyRecords(blank, width, SerializeAll(cells)[..k]) == cells[..k] + blank[k..]
  {
    var blank := Canvas.FreshBoard(width, height);
    var records := SerializeAll(cells);
    var j := k - 1;
    var before := cells[..j] + blank[j..];
    assert records[..k][..j] == records[..j];
    RecordOfCell(cells, width, height, j);
    assert Canvas.ApplyRecord(before, width, records[j]) == Canvas.WriteCell(before, width, cells[j]);
    assert Canvas.ApplyRecords(blank, width, records[..k]) == before[j := cells[j]];
    InstallNext(cells, blank, j);
  }

  /** Overwriting slot j of the spliced sequence a[..j] + b[j..] with a[j]
      moves the splice point one slot on. */
  lemma InstallNext<T>(a: seq<T>, b: seq<T>, j: nat)
    requires |a| == |b| && j < |a|
    ensures (a[..j] + b[j..])[j := a[j]] == a[..j + 1] + b[j + 1..]
  {
    var written, spliced := (a[..j] + b[j..])[j := a[j]], a[..j + 1] + b[j + 1..];
    assert forall i :: 0 <= i < |a| ==> written[i] == spliced[i];
  }

  /** Serving an image's cells and applying every record, in order, to a
      blank canvas of half the image's height reproduces the image exactly,
      provided the output rows fit in the 2-letter y code. */
  lemma ServedImageRebuildsCanvas(img: Image, colorIndex: ColorIndex)
    requires WellFormed(img) && img.width > 0 && img.height % 2 == 0 && img.height / 2 <= CodeSpace
    ensures var cells := ReadImageCells(img, colorIndex).value;
      (forall i :: 0 <= i < |cells| ==> cells[i].y >= 0) &&
      Canvas.ApplyRecords(Canvas.FreshBoard(img.width, img.height / 2), img.width, SerializeAll(cells))
        == cells
  {
    var cells := ReadImageCells(img, colorIndex).value;
    HalfHeight(img.width, img.height);
    ApplyImagePrefix(cells, img.width, img.height / 2, |cells|);
    assert SerializeAll(cells)[..|cells|] == SerializeAll(cells);
    assert cells[..|cells|] + Canvas.FreshBoard(img.width, img.height / 2)[|cells|..] == cells;
  }
}
