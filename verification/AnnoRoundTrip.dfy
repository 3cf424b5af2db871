/** Printed annotations parse to the same objects, and are never taken for those of an old program. */
module AnnoRoundTrip {
  import opened Sequences
  import opened Annotations

  /** The text of a list, regrouped. */
  lemma ListText(gap: seq<int>, lexeme: seq<int>, inner: seq<int>, rest: seq<int>)
    ensures gap + lexeme + [SPACE] + inner + [CLOSE, SPACE] + rest
         == gap + (lexeme + ([SPACE] + (inner + ([CLOSE, SPACE] + rest))))
  {
    var after := inner + ([CLOSE, SPACE] + rest);
    Regroup(gap + lexeme + [SPACE] + inner, [CLOSE, SPACE], rest);
    Regroup(gap + lexeme + [SPACE], inner, [CLOSE, SPACE] + rest);
    Regroup(gap + lexeme, [SPACE], after);
    Regroup(gap, lexeme, [SPACE] + after);
  }

  ghost predicate AllSpace(s: seq<int>) {
    forall i :: 0 <= i < |s| ==> IsSpace(s[i])
  }

  lemma {:induction false} SkipAll(gap: seq<int>, s: seq<int>)
    requires AllSpace(gap)
    ensures SkipSpace(gap + s) == SkipSpace(s)
  {
    if gap == [] {
      assert gap + s == s;
    } else {
      assert (gap + s)[0] == gap[0] && (gap + s)[1..] == gap[1..] + s;
      SkipAll(gap[1..], s);
    }
  }

  /** Leading space changes nothing. */
  lemma SpaceBefore(gap: seq<int>, s: seq<int>, compat: bool)
    requires AllSpace(gap)
    ensures ParseItems(gap + s, compat) == ParseItems(s, compat) && TokenOf(gap + s, compat) == TokenOf(s, compat)
  {
    SkipAll(gap, s);
    SameToken(gap + s, s, compat);
  }

  lemma SameToken(s: seq<int>, t: seq<int>, compat: bool)
    requires SkipSpace(s) == SkipSpace(t)
    ensures ParseItems(s, compat) == ParseItems(t, compat) && TokenOf(s, compat) == TokenOf(t, compat)
  {
    assert TokenOf(s, compat) == TokenOf(t, compat);
  }

  lemma {:induction false} CountDigits(d: seq<int>, t: seq<int>)
    requires (forall i :: 0 <= i < |d| ==> IsDigit(d[i])) && (t == [] || !IsDigit(t[0]))
    ensures DigitCount(d + t) == |d|
  {
    if d == [] {
      assert d + t == t;
    } else {
      assert (d + t)[1..] == d[1..] + t;
      CountDigits(d[1..], t);
    }
  }

  lemma {:induction false} DigitsAreDigits(n: nat)
    ensures Digits(n) != [] && (forall i :: 0 <= i < |Digits(n)| ==> IsDigit(Digits(n)[i])) && Value(Digits(n)) == n
  {
    if n < 10 {
      assert Value([48 + n]) == Value([]) * 10 + n;
    } else {
      DigitsAreDigits(n / 10);
      var d := Digits(n / 10);
      assert (d + [48 + n % 10])[..|d|] == d;
    }
  }

  lemma {:induction false} CountSymbol(d: seq<int>, t: seq<int>)
    requires (forall i :: 0 <= i < |d| ==> !Delimits(d[i])) && (t == [] || Delimits(t[0]))
    ensures SymbolLength(d + t) == |d|
  {
    if d == [] {
      assert d + t == t;
    } else {
      assert (d + t)[1..] == d[1..] + t;
      CountSymbol(d[1..], t);
    }
  }

  lemma DigitsRead(n: nat, t: seq<int>)
    requires t != [] && !IsDigit(t[0])
    ensures var s := Digits(n) + t;
      && s != [] && IsDigit(s[0]) && DigitCount(s) == |Digits(n)|
      && Value(s[..DigitCount(s)]) == n && s[DigitCount(s)..] == t
  {
    DigitsAreDigits(n);
    CountDigits(Digits(n), t);
    assert (Digits(n) + t)[..|Digits(n)|] == Digits(n) && (Digits(n) + t)[|Digits(n)|..] == t;
  }

  lemma KeptSmall(n: int)
    requires -0x8000_0000 <= n < 0x8000_0000
    ensures Kept(n) == n
  {
  }

  lemma PlainNumberReads(n: nat, t: seq<int>)
    requires n < 0x8000_0000 && t != [] && !IsDigit(t[0])
    ensures StartsNumber(Digits(n) + t) && NumberToken(Digits(n) + t) == Scanned(Item(Number(n)), t)
  {
    KeptSmall(n);
    DigitsRead(n, t);
  }

  lemma NegativeNumberReads(n: nat, t: seq<int>)
    requires n <= 0x8000_0000 && t != [] && !IsDigit(t[0])
    ensures var s := [MINUS] + Digits(n) + t; StartsNumber(s) && NumberToken(s) == Scanned(Item(Number(0 - n)), t)
  {
    KeptSmall(0 - n);
    DigitsRead(n, t);
    Regroup([MINUS], Digits(n), t);
    FirstApart(MINUS, Digits(n) + t);
    SuffixNext([MINUS] + (Digits(n) + t), 1);
  }

  lemma NumberTokenReads(n: int, t: seq<int>)
    requires -0x8000_0000 <= n < 0x8000_0000 && t != [] && !IsDigit(t[0])
    ensures StartsNumber(Decimal(n) + t) && NumberToken(Decimal(n) + t) == Scanned(Item(Number(n)), t)
  {
    if n < 0 { NegativeNumberReads(-n, t); } else { PlainNumberReads(n, t); }
  }

  /** A printed number reads as itself. */
  lemma NumberReads(n: int, t: seq<int>)
    requires -0x8000_0000 <= n < 0x8000_0000 && t != [] && !IsDigit(t[0])
    ensures TokenOf(Decimal(n) + t, false) == Scanned(Item(Number(n)), t)
  {
    NumberTokenReads(n, t);
    NoSpaceBefore(Decimal(n) + t);
  }

  lemma NoSpaceBefore(s: seq<int>)
    requires s != [] && !IsSpace(s[0])
    ensures SkipSpace(s) == s
  {
  }

  /** A printed symbol reads as itself. */
  lemma SymbolReads(name: seq<int>, t: seq<int>)
    requires IsSymbol(name) && t != [] && IsSpace(t[0])
    ensures TokenOf(name + t, false) == Scanned(Item(Symbol(name)), t)
  {
    var s := name + t;
    CountSymbol(name, t);
    assert s[0] == name[0] && !Delimits(s[0]);
    assert SkipSpace(s) == s;
    assert |name| == 1 ==> s[1] == t[0];
    assert |name| > 1 ==> s[1] == name[1];
    assert !StartsNumber(s);
    assert s[..|name|] == name && s[|name|..] == t;
  }

  lemma Octal3(a: int, b: int, c: int, t: seq<int>)
    requires IsOctal(a) && IsOctal(b) && IsOctal(c)
    ensures OctalCount([a, b, c] + t, 3) == 3
    ensures OctalValue([a, b, c]) == (a - 48) * 64 + (b - 48) * 8 + (c - 48)
  {
    var s := [a, b, c] + t;
    assert s[1..] == [b, c] + t && s[1..][1..] == [c] + t && s[1..][1..][1..] == t;
    assert OctalCount([c] + t, 1) == 1;
    assert OctalCount([b, c] + t, 2) == 2;
    assert [a, b, c][..2] == [a, b] && [a, b][..1] == [a] && [a][..0] == [];
    assert OctalValue([a]) == a - 48;
    assert OctalValue([a, b]) == (a - 48) * 8 + (b - 48);
  }

  /** A printed byte reads as itself. */
  lemma PieceReads(c: int, t: seq<int>)
    requires 0 < c < 256
    ensures Escaped(c)[0] != QUOTE
    ensures Escaped(c)[0] == BACKSLASH ==> |Escaped(c)| > 1
    ensures PieceOf(Escaped(c) + t, false) == Piece(c, |Escaped(c)|)
  {
    if !Plain(c) {
      if Letter(c) != 0 { LetterReads(c, t); } else { OctalReads(c, t); }
    }
  }

  lemma LetterReads(c: int, t: seq<int>)
    requires 0 < c < 256 && !Plain(c) && Letter(c) != 0
    ensures PieceOf(Escaped(c) + t, false) == Piece(c, |Escaped(c)|)
  {
    var s := Escaped(c) + t;
    assert s[1..] == [Letter(c)] + t;
    assert OctalCount(s[1..], 3) == 0;
  }

  lemma OctalReads(c: int, t: seq<int>)
    requires 0 < c < 256 && !Plain(c) && Letter(c) == 0
    ensures PieceOf(Escaped(c) + t, false) == Piece(c, |Escaped(c)|)
  {
    var x, y, z := 48 + c / 64, 48 + c / 8 % 8, 48 + c % 8;
    OctalDigits(c);
    OctalPiece(x, y, z, t);
  }

  lemma OctalDigits(c: int)
    requires 0 <= c < 256
    ensures 0 <= c / 64 < 4 && c / 64 * 64 + c / 8 % 8 * 8 + c % 8 == c
  {
  }

  lemma OctalPiece(x: int, y: int, z: int, t: seq<int>)
    requires IsOctal(x) && IsOctal(y) && IsOctal(z) && (x - 48) * 64 + (y - 48) * 8 + (z - 48) < 256
    ensures PieceOf([BACKSLASH, x, y, z] + t, false) == Piece((x - 48) * 64 + (y - 48) * 8 + (z - 48), 4)
  {
    var s := [BACKSLASH, x, y, z] + t;
    assert s[1..] == [x, y, z] + t;
    Octal3(x, y, z, t);
    assert s[1..4] == [x, y, z];
  }

  lemma EscapedReads(c: int, acc: seq<int>, t: seq<int>)
    requires 0 < c < 256
    ensures StringToken(Escaped(c) + t, acc, false) == StringToken(t, acc + [c], false)
  {
    PieceReads(c, t);
    assert (Escaped(c) + t)[|Escaped(c)|..] == t;
  }

  lemma {:induction false} StringReads(b: seq<int>, acc: seq<int>, t: seq<int>)
    requires IsText(b)
    ensures StringToken(EscapedAll(b) + t, acc, false) == StringToken(t, acc + b, false)
    decreases |b|
  {
    if b == [] {
      assert EscapedAll(b) + t == t && acc + b == acc;
    } else {
      var n := |b| - 1;
      StringReads(b[..n], acc, Escaped(b[n]) + t);
      Regroup(EscapedAll(b[..n]), Escaped(b[n]), t);
      EscapedReads(b[n], acc + b[..n], t);
      Regroup(acc, b[..n], [b[n]]);
      assert b[..n] + [b[n]] == b;
    }
  }

  /** A printed string reads as itself. */
  lemma QuotedReads(b: seq<int>, t: seq<int>)
    requires IsText(b)
    ensures TokenOf(Lexeme(String(b)) + t, false) == Scanned(Item(String(b)), t)
  {
    var s := Lexeme(String(b)) + t;
    assert s[1..] == EscapedAll(b) + ([QUOTE] + t);
    StringReads(b, [], [QUOTE] + t);
    assert [] + b == b && ([QUOTE] + t)[1..] == t;
    assert SkipSpace(s) == s;
  }

  /** The first lexeme of an object that is not a list reads as the object. */
  lemma LexemeReads(o: Object, t: seq<int>)
    requires WellFormed(o) && !o.List? && t != [] && IsSpace(t[0])
    ensures TokenOf(Lexeme(o) + t, false) == Scanned(Item(o), t)
  {
    match o
    case Number(n) => NumberReads(n, t);
    case String(b) => QuotedReads(b, t);
    case Symbol(name) => SymbolReads(name, t);
  }

  lemma ListOpens(title: seq<int>, after: seq<int>)
    requires IsSymbol(title)
    ensures var t := title + ([SPACE] + after);
      && TokenOf([OPEN] + t, false) == Scanned(Opening, t) && t != [] && !IsSpace(t[0])
      && TokenOf(t, false) == Scanned(Item(Symbol(title)), [SPACE] + after)
  {
    var t := title + ([SPACE] + after);
    var s := [OPEN] + t;
    assert s[1..] == t && SkipSpace(s) == s;
    SymbolReads(title, [SPACE] + after);
    assert t[0] == title[0] && !Delimits(title[0]);
  }

  /** A list opens with its title, and its items and the closing parenthesis follow. */
  lemma ListReads(title: seq<int>, items: seq<Object>, inner: seq<int>, rest: seq<int>)
    requires IsSymbol(title)
    requires ParseItems(inner + ([CLOSE, SPACE] + rest), false) == Parsed(items, [SPACE] + rest, Shut)
    ensures ParseItems([OPEN] + (title + ([SPACE] + (inner + ([CLOSE, SPACE] + rest)))), false)
         == Then(List(title, items), ParseItems(rest, false))
  {
    var after := inner + ([CLOSE, SPACE] + rest);
    ListOpens(title, after);
    SpaceBefore([SPACE], after, false);
    SpaceBefore([SPACE], rest, false);
  }

  lemma CloseReads(rest: seq<int>)
    ensures ParseItems([CLOSE, SPACE] + rest, false) == Parsed([], [SPACE] + rest, Shut)
  {
    var s := [CLOSE, SPACE] + rest;
    assert SkipSpace(s) == s && s[1..] == [SPACE] + rest;
  }

  function After(items: seq<Object>, p: Parsed): Parsed {
    Parsed(items + p.items, p.rest, p.status)
  }

  /** Before `rest`, the text reads as the objects, and `rest` as it would by itself. */
  ghost predicate ReadsBefore(text: seq<int>, items: seq<Object>, rest: seq<int>) {
    ParseItems(text + rest, false) == After(items, ParseItems(rest, false))
  }

  /** The text reads as the objects, whatever follows. */
  ghost predicate ReadsAs(text: seq<int>, items: seq<Object>) {
    forall rest :: ReadsBefore(text, items, rest)
  }

  lemma ReadsNothing()
    ensures ReadsAs([], [])
  {
    forall rest ensures ReadsBefore([], [], rest) {
      assert [] + rest == rest;
      assert [] + ParseItems(rest, false).items == ParseItems(rest, false).items;
    }
  }

  lemma ReadsBoth(a: seq<int>, x: seq<Object>, b: seq<int>, y: seq<Object>)
    requires ReadsAs(a, x) && ReadsAs(b, y)
    ensures ReadsAs(a + b, x + y)
  {
    forall rest ensures ReadsBefore(a + b, x + y, rest) {
      assert ReadsBefore(b, y, rest) && ReadsBefore(a, x, b + rest);
      Regroup(a, b, rest);
      Regroup(x, y, ParseItems(rest, false).items);
    }
  }

  lemma PlainReads(o: Object, gap: seq<int>, rest: seq<int>)
    requires WellFormed(o) && !o.List? && AllSpace(gap)
    ensures ReadsBefore(gap + Lexeme(o) + [SPACE], [o], rest)
  {
    LexemeReads(o, [SPACE] + rest);
    SpaceBefore([SPACE], rest, false);
    Regroup(gap, Lexeme(o), [SPACE]);
    Regroup(gap, Lexeme(o) + [SPACE], rest);
    Regroup(Lexeme(o), [SPACE], rest);
    SpaceBefore(gap, Lexeme(o) + ([SPACE] + rest), false);
  }

  lemma ListReadsBefore(o: Object, gap: seq<int>, inner: Printed, rest: seq<int>)
    requires WellFormed(o) && o.List? && AllSpace(gap) && ReadsBefore(inner.text, o.items, [CLOSE, SPACE] + rest)
    ensures ReadsBefore(Closed(gap + Lexeme(o) + [SPACE], inner).text, [o], rest)
  {
    CloseReads(rest);
    assert o.items + [] == o.items;
    ListReads(o.title, o.items, inner.text, rest);
    ListText(gap, Lexeme(o), inner.text, rest);
    Regroup([OPEN], o.title, [SPACE] + (inner.text + ([CLOSE, SPACE] + rest)));
    SpaceBefore(gap, Lexeme(o) + ([SPACE] + (inner.text + ([CLOSE, SPACE] + rest))), false);
  }

  /** What is printed of one object reads as that object, whatever follows. */
  lemma {:induction false} ObjectRoundTrip(o: Object, compact: bool, indent: nat, pos: nat)
    requires WellFormed(o)
    ensures ReadsAs(Print(o, compact, indent, pos).text, [o])
    decreases o, 1
  {
    var gap := Gap(Lexeme(o), compact, indent, pos);
    if o.List? {
      var column := Column(o, compact, indent, pos);
      ItemsRoundTrip(o.items, compact, column - |Lexeme(o)|, column);
      forall rest ensures ReadsBefore(Print(o, compact, indent, pos).text, [o], rest) {
        assert ReadsBefore(Inner(o, compact, indent, pos).text, o.items, [CLOSE, SPACE] + rest);
        ListReadsBefore(o, gap, Inner(o, compact, indent, pos), rest);
      }
    } else {
      forall rest ensures ReadsBefore(Print(o, compact, indent, pos).text, [o], rest) {
        PlainReads(o, gap, rest);
      }
    }
  }

  lemma {:induction false} ItemsRoundTrip(items: seq<Object>, compact: bool, indent: nat, pos: nat)
    requires AllWellFormed(items)
    ensures ReadsAs(PrintItems(items, compact, indent, pos).text, items)
    decreases items, 1
  {
    if items == [] {
      ReadsNothing();
    } else {
      var first := Print(items[0], compact, indent, pos);
      ObjectRoundTrip(items[0], compact, indent, pos);
      ItemsRoundTrip(items[1..], compact, indent, first.pos);
      ReadsBoth(first.text, [items[0]], PrintItems(items[1..], compact, indent, first.pos).text, items[1..]);
      assert [items[0]] + items[1..] == items;
    }
  }

  lemma {:induction false} AllRoundTrip(items: seq<Object>, compact: bool)
    requires AllWellFormed(items)
    ensures ReadsAs(PrintAll(items, compact), items)
    decreases |items|
  {
    if items == [] {
      ReadsNothing();
    } else {
      var front, last := items[..|items| - 1], items[|items| - 1];
      AllRoundTrip(front, compact);
      ObjectRoundTrip(last, compact, 0, 0);
      var text := Print(last, compact, 0, 0).text;
      ReadsBoth(PrintAll(front, compact), front, text, [last]);
      LastApart(items);
    }
  }

  // Printed text is not old

  lemma {:induction false} QuoteAppend(state: Quoting, a: seq<int>, b: seq<int>)
    ensures QuoteAll(state, a + b) == QuoteAll(QuoteAll(state, a), b)
    decreases |b|
  {
    if b == [] {
      assert a + b == a;
    } else {
      var n := |b| - 1;
      assert (a + b)[..|a| + n] == a + b[..n];
      QuoteAppend(state, a, b[..n]);
    }
  }

  /** A text that leaves no string open and is not old. */
  ghost predicate Neutral(s: seq<int>) {
    QuoteAll(Outside, s) == Outside
  }

  lemma {:induction false} NoQuotes(s: seq<int>)
    requires forall i :: 0 <= i < |s| ==> s[i] != QUOTE
    ensures Neutral(s)
  {
    if s != [] { NoQuotes(s[..|s| - 1]); }
  }

  lemma QuoteOne(state: Quoting, c: int)
    ensures QuoteAll(state, [c]) == Quote(state, c)
  {
    assert [c][..0] == [];
  }

  lemma EscapedQuoted(c: int)
    requires 0 < c < 256
    ensures QuoteAll(Inside, Escaped(c)) == Inside
  {
    var e := Escaped(c);
    QuoteOne(Inside, e[0]);
    if !Plain(c) {
      QuoteAppend(Inside, [BACKSLASH], [e[1]]);
      QuoteOne(Escape, e[1]);
      assert [BACKSLASH] + [e[1]] == e[..2];
      if Letter(c) == 0 {
        QuoteAppend(Inside, e[..2], [e[2]]);
        QuoteOne(Inside, e[2]);
        assert e[..2] + [e[2]] == e[..3];
        QuoteAppend(Inside, e[..3], [e[3]]);
        QuoteOne(Inside, e[3]);
        assert e[..3] + [e[3]] == e;
      } else {
        assert e[..2] == e;
      }
    }
  }

  lemma {:induction false} EscapedAllQuoted(b: seq<int>)
    requires IsText(b)
    ensures QuoteAll(Inside, EscapedAll(b)) == Inside
  {
    if b != [] {
      var n := |b| - 1;
      EscapedAllQuoted(b[..n]);
      EscapedQuoted(b[n]);
      QuoteAppend(Inside, EscapedAll(b[..n]), Escaped(b[n]));
    }
  }

  lemma LexemeQuoted(o: Object)
    requires WellFormed(o)
    ensures Neutral(Lexeme(o))
  {
    match o
    case Number(n) => DigitsAreDigits(if n < 0 then -n else n); NoQuotes(Decimal(n));
    case String(b) =>
      QuoteOne(Outside, QUOTE);
      EscapedAllQuoted(b);
      QuoteAppend(Outside, [QUOTE], EscapedAll(b));
      QuoteOne(Inside, QUOTE);
      QuoteAppend(Outside, [QUOTE] + EscapedAll(b), [QUOTE]);
    case Symbol(name) => assert forall i :: 0 <= i < |name| ==> !Delimits(name[i]); NoQuotes(name);
    case List(title, _) => assert forall i :: 0 <= i < |title| ==> !Delimits(title[i]); NoQuotes([OPEN] + title);
  }

  lemma {:induction false} ObjectQuoted(o: Object, compact: bool, indent: nat, pos: nat)
    requires WellFormed(o)
    ensures Neutral(Print(o, compact, indent, pos).text)
    decreases o, 0
  {
    LexemeQuoted(o);
    var gap, column := Gap(Lexeme(o), compact, indent, pos), Column(o, compact, indent, pos);
    if o.List? {
      ItemsQuoted(o.items, compact, column - |Lexeme(o)|, column);
      PartsQuoted(gap, Lexeme(o), Inner(o, compact, indent, pos).text);
    } else {
      PartsQuoted(gap, Lexeme(o), []);
    }
  }

  lemma PartsQuoted(gap: seq<int>, lexeme: seq<int>, inner: seq<int>)
    requires AllSpace(gap) && Neutral(lexeme) && Neutral(inner)
    ensures Neutral(gap + lexeme + [SPACE])
    ensures Neutral(gap + lexeme + [SPACE] + inner + [CLOSE, SPACE])
  {
    NoQuotes(gap);
    QuoteAppend(Outside, gap, lexeme);
    NoQuotes([SPACE]);
    QuoteAppend(Outside, gap + lexeme, [SPACE]);
    QuoteAppend(Outside, gap + lexeme + [SPACE], inner);
    NoQuotes([CLOSE, SPACE]);
    QuoteAppend(Outside, gap + lexeme + [SPACE] + inner, [CLOSE, SPACE]);
  }

  lemma {:induction false} ItemsQuoted(items: seq<Object>, compact: bool, indent: nat, pos: nat)
    requires AllWellFormed(items)
    ensures Neutral(PrintItems(items, compact, indent, pos).text)
    decreases items, 1
  {
    if items != [] {
      var first := Print(items[0], compact, indent, pos);
      ObjectQuoted(items[0], compact, indent, pos);
      ItemsQuoted(items[1..], compact, indent, first.pos);
      QuoteAppend(Outside, first.text, PrintItems(items[1..], compact, indent, first.pos).text);
    }
  }

  /** Printed text is never taken for text of an old program. */
  lemma {:induction false} NeverOld(items: seq<Object>, compact: bool)
    requires AllWellFormed(items)
    ensures Neutral(PrintAll(items, compact)) && !IsOld(PrintAll(items, compact))
    decreases |items|
  {
    if items != [] {
      var n := |items| - 1;
      NeverOld(items[..n], compact);
      ObjectQuoted(items[n], compact, 0, 0);
      QuoteAppend(Outside, PrintAll(items[..n], compact), Print(items[n], compact, 0, 0).text);
    }
  }

  lemma ReadsToTheEnd(text: seq<int>, items: seq<Object>)
    requires ReadsBefore(text, items, [])
    ensures ParseItems(text, false) == Parsed(items, [], End)
  {
    assert text + [] == text && items + [] == items;
    assert TokenOf([], false) == Scanned(NoMore, []);
  }

  /** The main result: in either layout, what is printed parses to the same objects, to the end of the text. */
  lemma RoundTrip(items: seq<Object>, compact: bool)
    requires AllWellFormed(items)
    ensures Parse(PrintAll(items, compact)) == Parsed(items, [], End)
  {
    NeverOld(items, compact);
    AllRoundTrip(items, compact);
    assert ReadsBefore(PrintAll(items, compact), items, []);
    ReadsToTheEnd(PrintAll(items, compact), items);
  }
}
