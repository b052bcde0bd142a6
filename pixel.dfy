/** The cell record of the wire format and its text codec (lib/pixel.py).

    A cell is written as `<decimal x><2-letter y> <bg> <fg> <glyph>`: the x
    coordinate in decimal, immediately followed by the y coordinate as two
    base-26 letters, then the background and foreground palette indices and
    the display glyph, separated by single spaces.
 */
module Pixels {
  import opened Wrappers

  /** One cell: position, background and foreground palette indices, glyph.
      The glyph defaults to the empty string when a cell is constructed
      without one. */
  datatype Pixel = Pixel(x: int, y: int, bg: int, fg: int, glyph: string := "")

  /** The upper half block, U+2580: the glyph of every cell read from an
      image, and one of the characters the client passes on. */
  const UpperHalfBlock: char := '\U{2580}'

  /** The digit alphabet of the y-coordinate codec. */
  const Alphabet: string := "ABCDEFGHIJKLMNOPQRSTUVWXYZ"

  /** The number of distinct 2-letter codes, 26 * 26. */
  const CodeSpace: int := 676

  predicate IsUpper(c: char) {
    'A' <= c <= 'Z'
  }

  /** A well-formed encoded y coordinate: exactly two letters `A`..`Z`. */
  predicate IsCoordText(s: string) {
    |s| == 2 && IsUpper(s[0]) && IsUpper(s[1])
  }

  lemma AlphabetAt(k: int)
    requires 0 <= k < 26
    ensures |Alphabet| == 26 && Alphabet[k] as int == 'A' as int + k
  {
  }

  // ---------------------------------------------------------------------
  // The y-coordinate codec
  // ---------------------------------------------------------------------

  /** `encode_y_coord`: the high letter is digit `(y / 26) % 26`, the low
      letter is digit `y % 26`. Negative coordinates raise ValueError;
      coordinates from 676 on wrap around silently. */
  function EncodeYCoord(y: int): (r: Result<string>)
    ensures r.Failure? <==> y < 0
    ensures r.Failure? ==> r.error == ValueError
    ensures r.Success? ==> IsCoordText(r.value)
  {
    if y < 0 then
      Failure(ValueError)
    else
      AlphabetAt((y / 26) % 26);
      AlphabetAt(y % 26);
      Success([Alphabet[(y / 26) % 26], Alphabet[y % 26]])
  }

  /** The digit value `ord(c) - ord('A')` of one character; no check that
      `c` is a letter. */
  function LetterValue(c: char): int {
    c as int - 'A' as int
  }

  /** `decode_y_coord`: rejects a text whose length is not 2, otherwise
      returns `high * 26 + low` without checking the alphabet. */
  function DecodeYCoord(s: string): (r: Result<int>)
    ensures r.Failure? <==> |s| != 2
    ensures r.Failure? ==> r.error == ValueError
    ensures IsCoordText(s) ==> 0 <= r.value < CodeSpace
  {
    if |s| != 2 then Failure(ValueError)
    else Success(LetterValue(s[0]) * 26 + LetterValue(s[1]))
  }

  /** Euclidean division is determined by quotient and remainder. */
  lemma ModOfDecomposition(a: int, n: int, q: int, m: int)
    requires 0 < n && 0 <= m < n && a == n * q + m
    ensures a % n == m && a / n == q
  {
    var d := q - a / n;
    assert n * d == a % n - m;
    if d > 0 {
      MulAtLeast(n, d);
    } else if d < 0 {
      MulAtLeast(n, -d);
    }
  }

  lemma {:induction false} MulAtLeast(n: int, d: int)
    requires n > 0 && d > 0
    ensures n * d >= n
  {
    if d > 1 {
      MulAtLeast(n, d - 1);
      assert n * d == n * (d - 1) + n;
    }
  }

  /** Decoding an encoded coordinate gives the coordinate modulo 676. */
  lemma DecodeEncode(y: int)
    requires y >= 0
    ensures DecodeYCoord(EncodeYCoord(y).value) == Success(y % CodeSpace)
  {
    var q, m := y / 26, y % 26;
    var hi, lo := q % 26, q / 26;
    AlphabetAt(hi);
    AlphabetAt(m);
    assert q == 26 * lo + hi;
    assert y == 676 * lo + (26 * hi + m);
    ModOfDecomposition(y, 676, lo, 26 * hi + m);
  }

  /** The codec is a bijection on [0, 675]: one direction. */
  lemma DecodeEncodeInRange(y: int)
    requires 0 <= y < CodeSpace
    ensures DecodeYCoord(EncodeYCoord(y).value) == Success(y)
  {
    DecodeEncode(y);
    ModOfDecomposition(y, CodeSpace, 0, y);
  }

  /** The codec is a bijection on [0, 675]: the other direction. Every
      2-letter code decodes into the range and encodes back to itself. */
  lemma EncodeDecode(s: string)
    requires IsCoordText(s)
    ensures 0 <= DecodeYCoord(s).value < CodeSpace
    ensures EncodeYCoord(DecodeYCoord(s).value) == Success(s)
  {
    var hi, lo := LetterValue(s[0]), LetterValue(s[1]);
    var v := hi * 26 + lo;
    ModOfDecomposition(v, 26, hi, lo);
    assert hi % 26 == hi;
    AlphabetAt(hi);
    AlphabetAt(lo);
    assert Alphabet[hi] == s[0];
    assert Alphabet[lo] == s[1];
    assert s == [s[0], s[1]];
  }

  /** Coordinates 676 apart share one code: the encoder aliases instead of
      rejecting coordinates that do not fit in two letters. */
  lemma EncodeWrapsAround(y: int)
    requires y >= 0
    ensures EncodeYCoord(y + CodeSpace) == EncodeYCoord(y)
  {
    ModOfDecomposition(y + 676, 26, y / 26 + 26, y % 26);
    ModOfDecomposition(y / 26 + 26, 26, y / 26 / 26 + 1, (y / 26) % 26);
  }

  /** The decoder does not check the alphabet: characters outside `A`..`Z`
      produce values below 0 or above 675. */
  lemma DecodeOutsideAlphabet()
    ensures DecodeYCoord("A1") == Success(-16)
    ensures DecodeYCoord("zz") == Success(1539)
  {
  }

  // ---------------------------------------------------------------------
  // Decimal integers: Python's str(n) and int(s)
  // ---------------------------------------------------------------------

  predicate IsDigit(c: char) {
    '0' <= c <= '9'
  }

  predicate AllDigits(s: string) {
    forall i :: 0 <= i < |s| ==> IsDigit(s[i])
  }

  function DigitChar(d: int): (c: char)
    requires 0 <= d < 10
    ensures IsDigit(c) && c as int - '0' as int == d
  {
    ('0' as int + d) as char
  }

  /** Decimal digits of a natural number, most significant first, no
      leading zeros. */
  function NatToDecimal(n: nat): (r: string)
    ensures r != [] && AllDigits(r)
    ensures r[0] == '0' ==> n == 0
    decreases n
  {
    if n < 10 then [DigitChar(n)]
    else NatToDecimal(n / 10) + [DigitChar(n % 10)]
  }

  /** `str(n)` for an integer. */
  function IntToString(n: int): (r: string)
    ensures r != []
    ensures n < 0 ==> r[0] == '-' && AllDigits(r[1..])
    ensures n >= 0 ==> AllDigits(r)
  {
    if n < 0 then "-" + NatToDecimal(-n) else NatToDecimal(n)
  }

  /** The value of a string of decimal digits. */
  function DigitsValue(s: string): nat
    requires AllDigits(s)
  {
    if s == [] then 0
    else
      var last := s[|s| - 1];
      assert IsDigit(last);
      DigitsValue(s[..|s| - 1]) * 10 + (last as int - '0' as int)
  }

  /** The integer texts `int` accepts here: an optional minus sign, then at
      least one decimal digit. */
  predicate IsIntText(s: string) {
    var digits := if s != [] && s[0] == '-' then s[1..] else s;
    digits != [] && AllDigits(digits)
  }

  /** `int(s)`: an optional minus sign followed by at least one decimal
      digit; anything else raises ValueError. */
  function ParseInt(s: string): (r: Result<int>)
    ensures r.Success? <==> IsIntText(s)
    ensures r.Failure? ==> r.error == ValueError
    ensures r.Success? ==> (r.value < 0 ==> s[0] == '-')
  {
    if |s| >= 2 && s[0] == '-' && AllDigits(s[1..]) then Success(-(DigitsValue(s[1..]) as int))
    else if |s| >= 1 && AllDigits(s) then Success(DigitsValue(s))
    else Failure(ValueError)
  }

  lemma {:induction false} DigitsValueOfDecimal(n: nat)
    ensures DigitsValue(NatToDecimal(n)) == n
    decreases n
  {
    if n >= 10 {
      var prefix := NatToDecimal(n / 10);
      var s := prefix + [DigitChar(n % 10)];
      assert s[..|s| - 1] == prefix;
      DigitsValueOfDecimal(n / 10);
    }
  }

  /** `int(str(n)) == n` for every integer. */
  lemma ParseIntToString(n: int)
    ensures ParseInt(IntToString(n)) == Success(n)
  {
    var s := IntToString(n);
    if n < 0 {
      assert s[1..] == NatToDecimal(-n);
      assert |s| >= 2 && s[0] == '-';
      DigitsValueOfDecimal(-n);
    } else {
      assert IsDigit(s[0]);
      DigitsValueOfDecimal(n);
    }
  }

  lemma NoSpaceInDigits(s: string)
    requires AllDigits(s)
    ensures ' ' !in s
  {
    forall i | 0 <= i < |s| ensures s[i] != ' ' {
      assert IsDigit(s[i]);
    }
  }

  lemma NoSpaceInIntToString(n: int)
    ensures ' ' !in IntToString(n)
  {
    if n < 0 {
      NoSpaceInDigits(NatToDecimal(-n));
    } else {
      NoSpaceInDigits(NatToDecimal(n));
    }
  }

  // ---------------------------------------------------------------------
  // Python's str.split(" ")
  // ---------------------------------------------------------------------

  /** `s.split(" ")`: the fields between single spaces. Consecutive spaces
      produce empty fields; the empty text has one empty field. */
  function Split(s: string): (r: seq<string>)
    ensures |r| >= 1
    ensures forall i :: 0 <= i < |r| ==> ' ' !in r[i]
  {
    if s == [] then [""]
    else
      var rest := Split(s[1..]);
      if s[0] == ' ' then [""] + rest
      else [[s[0]] + rest[0]] + rest[1..]
  }

  lemma {:induction false} SplitWithoutSpace(a: string)
    requires ' ' !in a
    ensures Split(a) == [a]
  {
    if a != [] {
      assert a[0] != ' ';
      SplitWithoutSpace(a[1..]);
      assert [a[0]] + a[1..] == a;
    }
  }

  lemma {:induction false} SplitField(a: string, b: string)
    requires ' ' !in a
    ensures Split(a + " " + b) == [a] + Split(b)
  {
    if a == [] {
      assert a + " " + b == " " + b;
      assert (" " + b)[1..] == b;
    } else {
      var s := a + " " + b;
      assert s[0] == a[0];
      assert s[1..] == a[1..] + " " + b;
      SplitField(a[1..], b);
      assert [a[0]] + a[1..] == a;
    }
  }

  // ---------------------------------------------------------------------
  // Serialisation of a cell
  // ---------------------------------------------------------------------

  /** The glyph field: an empty glyph is written as the 3-character token
      quote, space, quote. */
  function GlyphField(glyph: string): string {
    if glyph == "" then "\" \"" else glyph
  }

  /** `serialize`: `<str(x)><code of y> <str(bg)> <str(fg)> <glyph field>`.
      Fails exactly when the y coordinate cannot be encoded. */
  function Serialize(p: Pixel): (r: Result<string>)
    ensures r.Failure? <==> p.y < 0
    ensures r.Failure? ==> r.error == ValueError
  {
    var code :- EncodeYCoord(p.y);
    Success(IntToString(p.x) + code + " " + IntToString(p.bg) + " " + IntToString(p.fg)
            + " " + GlyphField(p.glyph))
  }

  /** The x text of a first field: all but its last two characters, or the
      empty text when the field is shorter than two characters. */
  function XText(head: string): (x: string)
    ensures |head| >= 2 ==> head == x + head[|head| - 2..]
    ensures |head| < 2 ==> x == []
  {
    if |head| >= 2 then head[..|head| - 2] else ""
  }

  /** `from_serialized`: split on single spaces; x is the first field without
      its last two characters, y the decoding of those two characters, bg and
      fg the next two fields, the glyph the fourth field. Fields after the
      fourth are ignored. A missing field raises IndexError, a field that is
      not an integer ValueError. */
  function FromSerialized(s: string): (r: Result<Pixel>)
    ensures var f := Split(s);
      r.Success? <==> |f| >= 4 && IsIntText(XText(f[0])) && IsIntText(f[1]) && IsIntText(f[2])
    ensures !IsIntText(XText(Split(s)[0])) ==> r == Failure(ValueError)
    ensures r.Failure? && |Split(s)| >= 4 ==> r.error == ValueError
    ensures var f := Split(s);
      r.Failure? && IsIntText(XText(f[0])) && (|f| < 2 || IsIntText(f[1])) && (|f| < 3 || IsIntText(f[2])) ==>
        r.error == IndexError
    ensures r.Success? ==> r.value.glyph == Split(s)[3] && ' ' !in r.value.glyph
    ensures r.Success? ==> 3 <= |Split(s)[0]|
  {
    var fields := Split(s);
    var head := fields[0];
    var x :- ParseInt(XText(head));
    // int("") fails, so the first field has at least three characters here
    // and its last two always decode (the length check cannot fail)
    var y := DecodeYCoord(head[|head| - 2..]).value;
    var bg :- if |fields| < 2 then Failure(IndexError) else ParseInt(fields[1]);
    var fg :- if |fields| < 3 then Failure(IndexError) else ParseInt(fields[2]);
    if |fields| < 4 then Failure(IndexError)
    else Success(Pixel(x, y, bg, fg, fields[3]))
  }

  /** A serialised cell splits into the first field, bg, fg and the fields
      of the glyph token. */
  lemma SerializeFields(p: Pixel)
    requires p.y >= 0
    ensures Split(Serialize(p).value)
         == [IntToString(p.x) + EncodeYCoord(p.y).value, IntToString(p.bg), IntToString(p.fg)]
            + Split(GlyphField(p.glyph))
  {
    var code := EncodeYCoord(p.y).value;
    var a, b, c := IntToString(p.x) + code, IntToString(p.bg), IntToString(p.fg);
    var g := GlyphField(p.glyph);
    NoSpaceInIntToString(p.x);
    NoSpaceInIntToString(p.bg);
    NoSpaceInIntToString(p.fg);
    assert ' ' !in a;
    assert Serialize(p).value == a + " " + (b + " " + (c + " " + g));
    SplitField(a, b + " " + (c + " " + g));
    SplitField(b, c + " " + g);
    SplitField(c, g);
  }

  /** Parsing a serialised cell recovers x, bg and fg exactly, y modulo 676,
      and as glyph the first space-free piece of the glyph token. */
  lemma SerializeRoundTrip(p: Pixel)
    requires p.y >= 0
    ensures FromSerialized(Serialize(p).value)
         == Success(Pixel(p.x, p.y % CodeSpace, p.bg, p.fg, Split(GlyphField(p.glyph))[0]))
  {
    var code := EncodeYCoord(p.y).value;
    var head := IntToString(p.x) + code;
    SerializeFields(p);
    assert head[..|head| - 2] == IntToString(p.x);
    assert head[|head| - 2..] == code;
    ParseIntToString(p.x);
    ParseIntToString(p.bg);
    ParseIntToString(p.fg);
    DecodeEncode(p.y);
  }

  /** For a coordinate in [0, 675] and a non-empty glyph without spaces the
      round trip is exact. */
  lemma SerializeRoundTripExact(p: Pixel)
    requires 0 <= p.y < CodeSpace && p.glyph != [] && ' ' !in p.glyph
    ensures FromSerialized(Serialize(p).value) == Success(p)
  {
    SerializeRoundTrip(p);
    ModOfDecomposition(p.y, CodeSpace, 0, p.y);
    SplitWithoutSpace(p.glyph);
  }

  /** An empty glyph does not survive: its placeholder token splits into two
      fields and the parsed glyph is a lone double quote. */
  lemma SerializeEmptyGlyph(p: Pixel)
    requires 0 <= p.y < CodeSpace && p.glyph == []
    ensures FromSerialized(Serialize(p).value) == Success(p.(glyph := "\""))
  {
    SerializeRoundTrip(p);
    ModOfDecomposition(p.y, CodeSpace, 0, p.y);
    SplitPlaceholder();
  }

  /** The placeholder token of an empty glyph splits into two quotes. */
  lemma SplitPlaceholder()
    ensures Split(GlyphField("")) == ["\"", "\""]
  {
    assert GlyphField("") == "\"" + " " + "\"";
    SplitField("\"", "\"");
    SplitWithoutSpace("\"");
  }
}
