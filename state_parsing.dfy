/**
 * Decoding a configuration line such as "123;B46;758" or "123 456 78B":
 * separators ';' and ' ' are dropped, 'B' stands for the blank 0, and the
 * first nine remaining characters are read as digits.
 */
module StateParsing {
  import opened PuzzleState

  /** s with every occurrence of c removed (String.replace(c, "")). */
  function RemoveChar(s: string, c: char): (r: string)
    ensures c !in r
    ensures |r| <= |s|
  {
    if s == [] then []
    else (if s[0] == c then [] else [s[0]]) + RemoveChar(s[1..], c)
  }

  /** s with every occurrence of x replaced by y (String.replace(x, y)). */
  function ReplaceChar(s: string, x: char, y: char): (r: string)
    ensures |r| == |s|
    ensures forall i :: 0 <= i < |s| ==> r[i] == (if s[i] == x then y else s[i])
  {
    seq(|s|, i requires 0 <= i < |s| => if s[i] == x then y else s[i])
  }

  /** The three replacements, applied in the order the parser applies them. */
  function Normalize(s: string): string {
    RemoveChar(ReplaceChar(RemoveChar(s, ';'), 'B', '0'), ' ')
  }

  function DigitValue(c: char): int {
    c as int - '0' as int
  }

  /** The nine values read from the first nine characters of t. */
  function Decode(t: string): (b: Board)
    requires |t| >= 9
    ensures forall i :: 0 <= i < 9 ==> b[i] == DigitValue(t[i])
  {
    seq(9, i requires 0 <= i < 9 => DigitValue(t[i]))
  }

  /**
   * parseState: None stands for the exception raised when fewer than nine
   * characters remain after the replacements.
   */
  method ParseState(text: string) returns (r: Option<Board>)
    ensures r.None? <==> |Normalize(text)| < 9
    ensures r.Some? ==> r.value == Decode(Normalize(text))
    ensures r.Some? ==> forall i :: 0 <= i < 9 ==> r.value[i] == DigitValue(Normalize(text)[i])
  {
    var t := Normalize(text);
    if |t| < 9 {
      return None;
    }
    var state := new int[9];
    for i := 0 to 9
      invariant forall k :: 0 <= k < i ==> state[k] == DigitValue(t[k])
    {
      state[i] := DigitValue(t[i]);
    }
    r := Some(state[..]);
  }

  // ---------------------------------------------------------------------------
  // The line format, and the round trip through the parser

  /** The character a tile is written with: 'B' for the blank, its digit otherwise. */
  function Glyph(v: int): char
    requires 0 <= v < 9
  {
    if v == 0 then 'B' else ('0' as int + v) as char
  }

  /** A configuration written as three ';'-separated rows, e.g. "123;B46;758". */
  function Encode(b: Board): string
    requires InRange(b)
  {
    [Glyph(b[0]), Glyph(b[1]), Glyph(b[2]), ';',
     Glyph(b[3]), Glyph(b[4]), Glyph(b[5]), ';',
     Glyph(b[6]), Glyph(b[7]), Glyph(b[8])]
  }

  lemma {:induction false} RemoveCharAppend(a: string, b: string, c: char)
    ensures RemoveChar(a + b, c) == RemoveChar(a, c) + RemoveChar(b, c)
  {
    if a == [] {
      assert a + b == b;
    } else {
      var h := if a[0] == c then [] else [a[0]];
      assert (a + b)[0] == a[0];
      assert (a + b)[1..] == a[1..] + b;
      assert RemoveChar(a + b, c) == h + RemoveChar(a[1..] + b, c);
      RemoveCharAppend(a[1..], b, c);
      assert RemoveChar(a, c) == h + RemoveChar(a[1..], c);
    }
  }

  lemma {:induction false} RemoveCharAbsent(s: string, c: char)
    requires c !in s
    ensures RemoveChar(s, c) == s
  {
    if s != [] {
      RemoveCharAbsent(s[1..], c);
    }
  }

  /** The nine glyphs of an encoded configuration, separators left out. */
  function Glyphs(b: Board): (g: string)
    requires InRange(b)
    ensures |g| == 9 && forall i :: 0 <= i < 9 ==> g[i] == Glyph(b[i])
  {
    seq(9, i requires 0 <= i < 9 => Glyph(b[i]))
  }

  /** A row followed by its separator loses only the separator. */
  lemma DropRowSeparator(row: string)
    requires ';' !in row
    ensures RemoveChar(row + [';'], ';') == row
  {
    RemoveCharAppend(row, [';'], ';');
    RemoveCharAbsent(row, ';');
    assert RemoveChar([';'], ';') == [];
  }

  /** Three rows joined by ';' lose exactly the two separators. */
  lemma DropTwoSeparators(r0: string, r1: string, r2: string)
    requires ';' !in r0 && ';' !in r1 && ';' !in r2
    ensures RemoveChar(r0 + [';'] + r1 + [';'] + r2, ';') == r0 + r1 + r2
  {
    var a, c := r0 + [';'], r1 + [';'];
    assert r0 + [';'] + r1 + [';'] + r2 == a + c + r2;
    RemoveCharAppend(a + c, r2, ';');
    RemoveCharAppend(a, c, ';');
    DropRowSeparator(r0);
    DropRowSeparator(r1);
    RemoveCharAbsent(r2, ';');
  }

  lemma DropSeparators(b: Board)
    requires InRange(b)
    ensures RemoveChar(Encode(b), ';') == Glyphs(b)
  {
    var g := Glyphs(b);
    assert ';' !in g by {
      forall i | 0 <= i < 9 ensures g[i] != ';' { }
    }
    var r0, r1, r2 := g[..3], g[3..6], g[6..];
    assert ';' !in r0 && ';' !in r1 && ';' !in r2;
    assert Encode(b) == r0 + [';'] + r1 + [';'] + r2;
    DropTwoSeparators(r0, r1, r2);
    assert g[..6] == r0 + r1;
    assert g == g[..6] + r2;
  }

  /** Parsing an encoded configuration gives the configuration back. */
  lemma ParseEncode(b: Board)
    requires InRange(b)
    ensures |Normalize(Encode(b))| >= 9
    ensures Decode(Normalize(Encode(b))) == b
  {
    DropSeparators(b);
    var digits := ReplaceChar(Glyphs(b), 'B', '0');
    assert ' ' !in digits by {
      forall i | 0 <= i < 9 ensures digits[i] != ' ' { }
    }
    RemoveCharAbsent(digits, ' ');
    assert Normalize(Encode(b)) == digits;
    forall i | 0 <= i < 9 ensures DigitValue(digits[i]) == b[i] { }
  }

  /** The line "123;B46;758" decodes to [1, 2, 3, 0, 4, 6, 7, 5, 8]. */
  lemma ParseExample()
    ensures |Normalize("123;B46;758")| >= 9
    ensures Decode(Normalize("123;B46;758")) == [1, 2, 3, 0, 4, 6, 7, 5, 8]
  {
    var b: Board := [1, 2, 3, 0, 4, 6, 7, 5, 8];
    assert Encode(b) == "123;B46;758";
    ParseEncode(b);
  }
}
