/** The input sanitiser of the painting client (client.py).

    Before a serialised cell is handed to the drawing command, every
    character other than ASCII letters, ASCII digits, the space and the upper
    half block is deleted.
 */
module Client {
  import opened Pixels

  /** The characters the sanitiser keeps: `[a-zA-Z0-9 ▀]`. */
  predicate Allowed(c: char) {
    ('a' <= c <= 'z') || ('A' <= c <= 'Z') || ('0' <= c <= '9') || c == ' ' || c == UpperHalfBlock
  }

  predicate AllAllowed(s: string) {
    forall i :: 0 <= i < |s| ==> Allowed(s[i])
  }

  /** `sanitize_input`: delete every character that is not allowed. */
  function SanitizeInput(s: string): (r: string)
    ensures AllAllowed(r)
    ensures |r| <= |s|
  {
    if s == [] then []
    else (if Allowed(s[0]) then [s[0]] else []) + SanitizeInput(s[1..])
  }

  /** Sanitising works character by character: it distributes over
      concatenation, so the kept characters stay in their input order. */
  lemma {:induction false} SanitizeConcat(a: string, b: string)
    ensures SanitizeInput(a + b) == SanitizeInput(a) + SanitizeInput(b)
  {
    if a == [] {
      assert a + b == b;
    } else {
      var head := if Allowed(a[0]) then [a[0]] else [];
      assert (a + b)[0] == a[0];
      assert (a + b)[1..] == a[1..] + b;
      assert SanitizeInput(a + b) == head + SanitizeInput(a[1..] + b);
      SanitizeConcat(a[1..], b);
      assert SanitizeInput(a) == head + SanitizeInput(a[1..]);
    }
  }

  /** Every allowed character is kept as often as it occurs; every other
      character is deleted. */
  lemma {:induction false} SanitizeCounts(s: string, c: char)
    ensures multiset(SanitizeInput(s))[c] == if Allowed(c) then multiset(s)[c] else 0
  {
    if s != [] {
      SanitizeCounts(s[1..], c);
      assert s == [s[0]] + s[1..];
      assert multiset(s) == multiset([s[0]]) + multiset(s[1..]);
    }
  }

  /** A text made only of allowed characters is returned unchanged. */
  lemma {:induction false} SanitizeKeepsAllowed(s: string)
    requires AllAllowed(s)
    ensures SanitizeInput(s) == s
  {
    if s != [] {
      assert Allowed(s[0]);
      SanitizeKeepsAllowed(s[1..]);
      assert [s[0]] + s[1..] == s;
    }
  }

  /** Sanitising twice is the same as sanitising once. */
  lemma SanitizeIdempotent(s: string)
    ensures SanitizeInput(SanitizeInput(s)) == SanitizeInput(s)
  {
    SanitizeKeepsAllowed(SanitizeInput(s));
  }

  lemma DigitsAllowed(s: string)
    requires AllDigits(s)
    ensures AllAllowed(s)
  {
    forall i | 0 <= i < |s| ensures Allowed(s[i]) {
      assert IsDigit(s[i]);
    }
  }

  /** A cell with non-negative x, bg and fg and the half-block glyph, as the
      image reader produces them, passes the sanitiser unchanged. */
  lemma SerializedCellSurvives(p: Pixel)
    requires p.x >= 0 && p.y >= 0 && p.bg >= 0 && p.fg >= 0 && p.glyph == [UpperHalfBlock]
    ensures SanitizeInput(Serialize(p).value) == Serialize(p).value
  {
    var code := EncodeYCoord(p.y).value;
    var x, bg, fg := IntToString(p.x), IntToString(p.bg), IntToString(p.fg);
    DigitsAllowed(x);
    DigitsAllowed(bg);
    DigitsAllowed(fg);
    var s := Serialize(p).value;
    assert s == x + code + " " + bg + " " + fg + " " + [UpperHalfBlock];
    forall i | 0 <= i < |s| ensures Allowed(s[i]) {
      if i < |x| {
        assert s[i] == x[i];
      } else if i < |x| + 2 {
        assert s[i] == code[i - |x|];
      } else if |x| + 3 <= i < |x| + 3 + |bg| {
        assert s[i] == bg[i - |x| - 3];
      } else if |x| + 4 + |bg| <= i < |x| + 4 + |bg| + |fg| {
        assert s[i] == fg[i - |x| - 4 - |bg|];
      }
    }
    SanitizeKeepsAllowed(s);
  }

  /** The placeholder written for an empty glyph collapses to one space. */
  lemma PlaceholderCollapses()
    ensures SanitizeInput(GlyphField("")) == " "
  {
  }

  /** The minus sign of a negative number is stripped, turning it into its
      absolute value. */
  lemma MinusSignStripped(n: int)
    requires n < 0
    ensures SanitizeInput(IntToString(n)) == IntToString(-n)
  {
    var digits := NatToDecimal(-n);
    assert IntToString(n) == "-" + digits;
    SanitizeConcat("-", digits);
    DigitsAllowed(digits);
    SanitizeKeepsAllowed(digits);
  }
}
