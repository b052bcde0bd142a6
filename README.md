# Half-block canvas wire format — a Dafny model

This project models the core of a small program that copies an image onto a
collaborative "r/place"-style canvas, one terminal cell at a time. Each cell
is a *half block*: two vertically adjacent source pixels folded into one
character cell, the upper pixel as foreground and the lower one as
background. Cells travel as one-line text records:

    <decimal x><2-letter y> <bg> <fg> <glyph>

The y coordinate is written as two base-26 letters `A`..`Z`. The glyph is
replaced by the 3-character token `" "` (quote, space, quote) when it is
empty.

The model has five modules, one per source file plus a shared one:

- `Wrappers` (`wrappers.dfy`): `Result`, `Option` and `Outcome`. The Python
  code raises `ValueError` and `IndexError`; the model returns
  `Failure(ValueError)` or `Failure(IndexError)` at the same points.
- `Pixels` (`pixel.dfy`, lib/pixel.py): the `Pixel` record and the y
  coordinate codec. It also has Python's `str(n)`, `int(s)` and
  `s.split(" ")`, which serialisation and parsing rely on. It is all pure
  functions with lemmas: the codec is a bijection on [0, 675], decoding an
  encoding gives `y % 676`, and parsing a serialised cell gives back the
  cell when 0 <= y <= 675 and the glyph is non-empty and has no spaces.
  Otherwise y comes back modulo 676, and an empty glyph comes back as a lone
  double quote.
- `Canvas` (`canvas.dfy`, rplace.py): class `Rplace` over an
  `array<Pixel>`. Its constructor fills the array in a loop, `AddPixel`
  overwrites one slot in place, and `PrintBoard` renders the board to text in
  a loop. Each method is proved against a function on the cell sequence
  (`FreshBoard`, `ApplyRecord`, `RenderBoard`). The lemmas about those
  functions cover row-major layout, idempotence, last write wins and what a
  fresh board looks like when rendered.
- `ImageReading` (`image_reader.dfy`, lib/image_reader.py): class
  `ImageReader`. `ReadImage` preallocates the output and fills it with nested
  loops. It is proved against `ReadImageCells`. The lemmas say which source
  pixels end up in which slot, that alpha is ignored, and that the output has
  the canvas's row-major layout. They also show that applying the serialised
  cells in order to a fresh canvas rebuilds the image exactly, for an image
  with at least one column, an even height and at most 676 output rows.
  Taller images do not rebuild: the y code wraps, so output row 676 lands on
  row 0.
- `Client` (`client.dfy`, client.py): the input sanitiser as a sequence
  filter, with lemmas on what it keeps, its idempotence and how it treats
  serialised cells.

Decisions in the model:

- The y coordinate is the one that is base-26 encoded, as in lib/pixel.py.
- The codec has no range or alphabet check. `EncodeYCoord` wraps silently
  from 676 on (`EncodeWrapsAround`), and `DecodeYCoord` accepts any two
  characters (`DecodeOutsideAlphabet`).
- `add_pixel` has no bounds check of its own: it only indexes the list. An x
  past the row end writes into a later row, as `WritePastRowEnd` shows; an
  index past the end raises IndexError.
- The image is passed to `ReadImage` already decoded, as a grid of RGBA
  values (`Image`). The palette lookup `get_hex_index` of the `#rrggbb` text
  is a function parameter (`ColorIndex`) over the red, green and blue
  channels.

## Model

| member | source | states |
|---|---|---|
| `Pixels.EncodeYCoord` | lib/pixel.py:28-37 | fails with ValueError exactly when y < 0; otherwise returns exactly two letters `A`..`Z` |
| `Pixels.DecodeYCoord` | lib/pixel.py:39-48 | fails with ValueError exactly when the text is not 2 characters long; a 2-letter upper-case code decodes into [0, 675] |
| `Pixels.DecodeEncode` | lib/pixel.py:34-48 | for every y >= 0, decoding the encoding gives y % 676: larger values wrap silently |
| `Pixels.DecodeEncodeInRange` | lib/pixel.py:34-48 | decode(encode(y)) == y for 0 <= y <= 675 |
| `Pixels.EncodeDecode` | lib/pixel.py:34-48 | every 2-letter upper-case code decodes into [0, 675] and encodes back to itself |
| `Pixels.EncodeWrapsAround` | lib/pixel.py:34-35 | y and y + 676 get the same code |
| `Pixels.DecodeOutsideAlphabet` | lib/pixel.py:45-48 | the decoder has no alphabet check: "A1" gives -16 and "zz" gives 1539 |
| `Pixels.IntToString` | lib/pixel.py:14 | `str(n)` is non-empty, all decimal digits, with a leading minus sign exactly for negative n |
| `Pixels.NatToDecimal` | lib/pixel.py:14 | the decimal text of a natural number is non-empty, all digits, and starts with `0` only for 0 (no leading zeros) |
| `Pixels.ParseInt` | lib/pixel.py:19-23 | `int(s)` succeeds exactly on an optional minus sign followed by at least one decimal digit and raises ValueError on every other text; a negative result comes from a text starting with a minus sign |
| `Pixels.ParseIntToString` | lib/pixel.py:14-23 | int(str(n)) == n for every integer n |
| `Pixels.Split` | lib/pixel.py:17 | `split(" ")` always gives at least one field, and no field contains a space |
| `Pixels.SplitField` | lib/pixel.py:17 | a space-free field followed by a space splits off as the first field |
| `Pixels.Serialize` | lib/pixel.py:13-14 | serialising fails with ValueError exactly when y is negative (the coordinate encoder raises) |
| `Pixels.FromSerialized` | lib/pixel.py:16-26 | succeeds exactly when there are at least four fields and the x text (first field without its last two characters), bg and fg are integer texts; a non-integer x, or any failure with four fields present, raises ValueError; a missing field with every present number valid raises IndexError; on success the glyph is the fourth field and contains no space, and the first field has at least three characters |
| `Pixels.SerializeFields` | lib/pixel.py:13-17 | a serialised cell splits into `str(x)`+code, `str(bg)`, `str(fg)` and the fields of the glyph token |
| `Pixels.SerializeRoundTrip` | lib/pixel.py:13-26 | parsing a serialised cell recovers x, bg and fg exactly, y modulo 676, and as glyph the first space-free piece of the glyph token; later fields are ignored |
| `Pixels.SerializeRoundTripExact` | lib/pixel.py:13-26 | from_serialized(serialize(p)) == p when 0 <= y <= 675 and the glyph is non-empty and has no spaces |
| `Pixels.SerializeEmptyGlyph` | lib/pixel.py:14-24 | an empty glyph comes back as a lone double quote, because its placeholder splits into two fields |
| `Canvas.FreshBoard` | rplace.py:17-23 | a new board has width*height cells; slot i is at (i % width, i / width), white on white, with the empty glyph |
| `Canvas.Rplace.constructor` | rplace.py:10-23 | the image data array is fresh, has width*height slots and holds exactly the fresh board; width and height are stored |
| `Canvas.WriteCell` | rplace.py:28 | the write succeeds exactly when slot y*width+x lies in the array; it then holds the cell, every other slot and the length are unchanged; otherwise IndexError |
| `Canvas.ApplyRecord` | rplace.py:25-28 | a record that does not parse fails with the parser's error; a parsed record is written to its slot |
| `Canvas.WriteInBounds` | rplace.py:28 | a cell with 0 <= x < width and 0 <= y < height lands in slot y*width+x, which is inside the array, and only that slot changes |
| `Canvas.WriteKeepsRowMajor` | rplace.py:18-28 | for a non-negative slot (see Canvas.WriteCell under Left out), writing a cell whose x lies inside the row keeps "slot i holds (i % width, i / width)" |
| `Canvas.WritePastRowEnd` | rplace.py:28 | a cell with x >= width whose slot is still inside the array is written without error, and the row-major layout is broken |
| `Canvas.ApplyIdempotent` | rplace.py:25-28 | applying the same record twice gives the same board as applying it once |
| `Canvas.ApplyLastWriteWins` | rplace.py:25-28 | a later record for the same position overrides an earlier one completely |
| `Canvas.ApplyRecords` | server.py:33-42 | the board after one `add_pixel` request per record keeps its size |
| `Canvas.ApplyRecordsProvenance` | rplace.py:25-28 | after a series of requests every slot holds either its original cell or a cell one of the records parses to |
| `Canvas.ApplyRecordsAppend` | server.py:33-42 | requests compose: applying a then b is the same as applying a + b |
| `Canvas.FailedRecordSkipped` | rplace.py:25-28 | for a non-negative slot (see Canvas.WriteCell under Left out), a record that fails to parse or to index leaves the board as it was, and the records after it still apply |
| `Canvas.Rplace.AddPixel` | rplace.py:25-28 | on success the array becomes exactly ApplyRecord of the old cells; on a parse or index error it is unchanged and the error is reported |
| `Canvas.CellGlyph` | rplace.py:37-44 | full block iff both halves are white, lower half block iff only bg is white, upper half block iff only fg is white, space iff neither |
| `Canvas.Rplace.PrintBoard` | rplace.py:30-48 | the text is every cell's glyph in slot order, with a line break after each cell whose x is width-1, then one final line break |
| `Canvas.RenderLitPrefix` | rplace.py:30-48 | on an all-white row-major board, the first k cells render as k / width full rows and k % width full blocks |
| `Canvas.RenderFreshBoard` | rplace.py:18-48 | a fresh board renders as height lines of width full blocks, then an empty line |
| `ImageReading.ReadImageCells` | lib/image_reader.py:20-36 | fails with IndexError exactly when the height is odd and there is a column; otherwise yields width*height // 2 cells in row-major layout, each with the upper half block glyph |
| `ImageReading.ReadImageSlot` | lib/image_reader.py:25-34 | slot x + width*row holds the cell at (x, row): fg is the palette index of source row 2*row, bg that of source row 2*row+1 |
| `ImageReading.ReadImageIgnoresAlpha` | lib/image_reader.py:28-32 | two images that differ only in alpha give the same output |
| `ImageReading.FillNext` | lib/image_reader.py:25-34 | the slot the loop writes lies inside the preallocated output, and writing it extends the filled row-major prefix by one |
| `ImageReading.ImageReader.constructor` | lib/image_reader.py:8-11 | stores the path; width and height are unset |
| `ImageReading.ImageReader.ReadImage` | lib/image_reader.py:14-36 | the result equals ReadImageCells of the image; width and height become the image's dimensions, even when the read fails |
| `ImageReading.SerializeAll` | server.py:24-25 | one record per cell, in slot order |
| `ImageReading.ApplyImagePrefix` | rplace.py:25-28 | applying the first k records of an image's cells to a fresh canvas installs exactly the first k cells and leaves the rest fresh |
| `ImageReading.ServedImageRebuildsCanvas` | lib/image_reader.py:25-34 | for even height with at most 676 output rows, applying every serialised cell in order to a fresh width x height/2 canvas reproduces the image's cells exactly |
| `Client.SanitizeInput` | client.py:28-30 | the output contains only `[a-zA-Z0-9 ▀]` and is never longer than the input |
| `Client.SanitizeConcat` | client.py:29 | sanitising distributes over concatenation: characters are judged one at a time and keep their order |
| `Client.SanitizeCounts` | client.py:29 | each allowed character occurs in the output as often as in the input; every other character does not occur |
| `Client.SanitizeKeepsAllowed` | client.py:29 | a text made only of allowed characters is returned unchanged |
| `Client.SanitizeIdempotent` | client.py:29 | sanitising twice equals sanitising once |
| `Client.SerializedCellSurvives` | client.py:28-30 | a serialised cell with non-negative x, y, bg, fg and the half-block glyph passes the sanitiser unchanged |
| `Client.PlaceholderCollapses` | client.py:29 | the empty-glyph placeholder collapses to a single space |
| `Client.MinusSignStripped` | client.py:29 | the minus sign of a negative number is removed, leaving the text of its absolute value |

## Left out

- HTTP transport, the polling loop with its sleeps, the `perl` command run
  through `os.system`, the empty stubs `get_pixel_from_canvas` and
  `is_pixel_correct`, and the debug branch of `write_pixel` (client.py).
  These are I/O or dead code.
- server.py: the Flask routes, the module-level state and loading the image
  at import time. The list comprehension of `serialize_data` is modelled as
  `SerializeAll`. The x/y offset loop is not modelled:
  `ServedImageRebuildsCanvas` applies the cells as the reader produces them.
  With an x offset, the cell at (x, r) goes to slot r * width + x + offset.
  When x + offset >= width that slot is one or more rows further on (see
  `WritePastRowEnd`). With the offset of 10 and a width of at most 10, this
  happens to every column. Whenever the slot is at or past
  width * (height // 2), in any row, `add_pixel` raises IndexError and that
  request leaves the board unchanged (`FailedRecordSkipped`).
- Console output: `print(pixel)` in `add_pixel` and `Pixel.__repr__`.
  `print_board` is modelled as returning the text it would print.
- Opening and decoding the image file (PIL `Image.open` and `load`): `ReadImage`
  takes the decoded image as an argument. Only RGBA images, whose pixels
  unpack into four channels, are modelled.
- lib/color.py is not part of this model: `get_hex_index` is the function
  parameter `ColorIndex`, and the `#rrggbb` formatting stays inside it.
  `get_raw_color` is imported but never used by the core.
- Pixels.ParseInt: accepts only an optional minus sign followed by ASCII
  digits. Python's `int` also allows surrounding whitespace, a plus sign,
  underscores between digits and non-ASCII digits.
- Canvas.WriteCell: a negative slot index raises IndexError in the model.
  Python would count it from the end of the list, for indices down to
  -width*height. Such a slot can be reached, because the decoder does not
  check the alphabet: "A@" decodes to y = -1.
- Canvas.WriteKeepsRowMajor: holds only for a non-negative slot. In Python a
  negative slot overwrites a cell counted from the end of the list and
  breaks the layout.
- Canvas.FailedRecordSkipped: in Python, a record whose slot is negative
  (down to -width*height) does not fail; it overwrites a cell counted from
  the end of the list.
- Canvas.Rplace.constructor: width and height are natural numbers. Python
  would also accept negative dimensions.
- Dynamic typing: the fields of a `Pixel` are integers and a string. The
  Python code never checks the types of the values it stores.
