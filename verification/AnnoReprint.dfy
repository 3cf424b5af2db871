/** Whatever a text holds, what the parser makes of it can be printed and parsed again unchanged. */
module AnnoReprint {
  import opened Annotations
  import opened AnnoRoundTrip

  lemma TextPart(s: seq<int>, i: nat, j: nat)
    requires IsText(s) && i <= j <= |s|
    ensures IsText(s[i..j])
  {
  }

  lemma {:induction false} SkipIsText(s: seq<int>)
    requires IsText(s)
    ensures IsText(SkipSpace(s))
  {
    if s != [] && IsSpace(s[0]) { SkipIsText(s[1..]); }
  }

  lemma KeptInRange(n: int)
    ensures -0x8000_0000 <= Kept(n) < 0x8000_0000
  {
  }

  lemma NumberWellFormed(s: seq<int>)
    requires IsText(s) && StartsNumber(s)
    ensures WellFormed(NumberToken(s).lex.value) && IsText(NumberToken(s).rest)
  {
    if s[0] == MINUS {
      KeptInRange(-Value(s[1..][..DigitCount(s[1..])]));
    } else {
      KeptInRange(Value(s[..DigitCount(s)]));
    }
  }

  lemma PieceIsByte(s: seq<int>, compat: bool)
    requires IsText(s) && s != [] && s[0] != QUOTE && (s[0] == BACKSLASH && !compat ==> |s| > 1)
    ensures 0 <= PieceOf(s, compat).byte < 256
  {
  }

  lemma {:induction false} StringWellFormed(s: seq<int>, b: seq<int>, compat: bool)
    requires IsText(s) && IsText(b)
    ensures var r := StringToken(s, b, compat); IsText(r.rest) && (r.lex.Item? ==> WellFormed(r.lex.value))
    decreases |s|
  {
    if s != [] && !(s == [BACKSLASH] && !compat) && s[0] != QUOTE {
      var p := PieceOf(s, compat);
      PieceIsByte(s, compat);
      StringWellFormed(s[p.length..], Append(b, p.byte), compat);
    }
  }

  lemma SymbolWellFormed(s: seq<int>)
    requires IsText(s) && s != [] && !Delimits(s[0]) && !StartsNumber(s)
    ensures var r := SymbolToken(s); IsText(r.rest) && (r.lex.Item? ==> r.lex.value.Symbol? && WellFormed(r.lex.value))
  {
    var n := SymbolLength(s);
    TextPart(s, 0, n);
    TextPart(s, n, |s|);
    assert n > 0;
  }

  lemma TokenWellFormed(s: seq<int>, compat: bool)
    requires IsText(s)
    ensures var r := TokenOf(s, compat); IsText(r.rest) && (r.lex.Item? ==> WellFormed(r.lex.value))
  {
    SkipIsText(s);
    var t := SkipSpace(s);
    if t != [] {
      if t[0] == QUOTE { StringWellFormed(t[1..], [], compat); }
      else if StartsNumber(t) { NumberWellFormed(t); }
      else if t[0] != OPEN && t[0] != CLOSE { SymbolWellFormed(t); }
    }
  }

  /** What the parser has made of a text. */
  ghost predicate Sound(p: Parsed) {
    AllWellFormed(p.items) && IsText(p.rest)
  }

  /** Every object the parser makes, of any text, is one that a text can hold. */
  lemma {:induction false} ParsedWellFormed(s: seq<int>, compat: bool)
    requires IsText(s)
    ensures Sound(ParseItems(s, compat))
    decreases |s|, 1
  {
    var t := TokenOf(s, compat);
    TokenWellFormed(s, compat);
    if t.lex.Item? {
      ParsedWellFormed(t.rest, compat);
    } else if t.lex.Opening? {
      ListWellFormed(s, t.rest, compat);
    }
  }

  /** After an opening parenthesis. */
  lemma {:induction false} ListWellFormed(s: seq<int>, t: seq<int>, compat: bool)
    requires IsText(t) && |t| < |s| && TokenOf(s, compat) == Scanned(Opening, t)
    ensures Sound(ParseItems(s, compat))
    decreases |s|, 0
  {
    TokenWellFormed(t, compat);
    var name := TokenOf(t, compat);
    if name.lex.Item? && name.lex.value.Symbol? {
      ParsedWellFormed(name.rest, compat);
      var inner := ParseItems(name.rest, compat);
      ParsedWellFormed(inner.rest, compat);
      assert WellFormed(List(name.lex.value.name, inner.items));
    }
  }

  /** Reading any text, even one that is cut off or wrong, then printing and reading again gives the same objects. */
  lemma Reprint(s: seq<int>, compact: bool)
    requires IsText(s)
    ensures Parse(PrintAll(Parse(s).items, compact)) == Parsed(Parse(s).items, [], End)
  {
    ParsedWellFormed(s, IsOld(s));
    RoundTrip(Parse(s).items, compact);
  }
}
