/** The parser of annotations: one cursor moves through the text. */
module AnnoParser {
  import opened Sequences
  import opened Annotations

  /** After the bytes `b`, reading from `s` to `t` adds the bytes `c`. */
  ghost predicate SpellsAfter(b: seq<int>, s: seq<int>, t: seq<int>, c: seq<int>, compat: bool) {
    StringToken(s, b, compat) == StringToken(t, b + c, compat)
  }

  /** Between `s` and `t` a string has the bytes `c`. */
  ghost predicate Spells(s: seq<int>, t: seq<int>, c: seq<int>, compat: bool) {
    forall b :: SpellsAfter(b, s, t, c, compat)
  }

  lemma SpellsNothing(s: seq<int>, compat: bool)
    ensures Spells(s, s, [], compat)
  {
    forall b ensures SpellsAfter(b, s, s, [], compat) {
      assert b + [] == b;
    }
  }

  lemma SpellsBoth(s: seq<int>, t: seq<int>, u: seq<int>, c: seq<int>, d: seq<int>, compat: bool)
    requires Spells(s, t, c, compat) && Spells(t, u, d, compat)
    ensures Spells(s, u, c + d, compat)
  {
    forall b ensures SpellsAfter(b, s, u, c + d, compat) {
      assert SpellsAfter(b, s, t, c, compat) && SpellsAfter(b + c, t, u, d, compat);
      Regroup(b, c, d);
    }
  }

  /** A byte that is neither a quote nor a backslash. */
  lemma SpellsPlain(s: seq<int>, compat: bool)
    requires IsText(s) && s != [] && s[0] != QUOTE && s[0] != BACKSLASH
    ensures Spells(s, s[1..], [s[0]], compat)
  {
    forall b ensures SpellsAfter(b, s, s[1..], [s[0]], compat) {
    }
  }

  /** An escaped byte; a zero adds nothing. */
  lemma SpellsPiece(s: seq<int>, compat: bool)
    requires IsText(s) && s != [] && s[0] == BACKSLASH && (!compat ==> |s| > 1)
    ensures var p := PieceOf(s, compat); Spells(s, s[p.length..], Append([], p.byte), compat)
  {
    var p := PieceOf(s, compat);
    forall b ensures SpellsAfter(b, s, s[p.length..], Append([], p.byte), compat) {
      assert Append(b, p.byte) == b + Append([], p.byte);
    }
  }

  /** The bytes from `start` to `start + span` stand for themselves. */
  ghost predicate SpellsItself(text: seq<int>, start: int, span: int, compat: bool) {
    0 <= start <= start + span <= |text| &&
    Spells(text[start..], text[start + span..], text[start..start + span], compat)
  }

  lemma SpanStart(text: seq<int>, start: nat, compat: bool)
    requires start <= |text|
    ensures SpellsItself(text, start, 0, compat)
  {
    SpellsNothing(text[start..], compat);
    assert text[start..start] == [];
  }

  lemma SpanStep(text: seq<int>, start: int, span: int, compat: bool)
    requires SpellsItself(text, start, span, compat)
    requires IsText(text) && start + span < |text| && text[start + span] != BACKSLASH && text[start + span] != QUOTE
    ensures SpellsItself(text, start, span + 1, compat)
  {
    var here := text[start + span..];
    SuffixNext(text, start + span);
    SpellsPlain(here, compat);
    SpellsBoth(text[start..], here, here[1..], text[start..start + span], [here[0]], compat);
    SliceNext(text, start, start + span);
  }

  /** The end of a string whose bytes are known, or of the text. */
  lemma StringEnds(s: seq<int>, t: seq<int>, c: seq<int>, compat: bool)
    requires Spells(s, t, c, compat)
    ensures t != [] && t[0] == QUOTE ==> StringToken(s, [], compat) == Scanned(Item(String(c)), t[1..])
    ensures t == [] || (t == [BACKSLASH] && !compat) ==> StringToken(s, [], compat) == Scanned(NoMore, t)
  {
    assert SpellsAfter([], s, t, c, compat);
    assert [] + c == c;
  }

  /** Between `from` and `to` nothing delimits a symbol. */
  ghost predicate InSymbol(text: seq<int>, from: int, to: int, str: seq<int>) {
    && 0 <= from <= to <= |text| && str == text[from..to]
    && SymbolLength(text[from..]) == to - from + SymbolLength(text[to..])
  }

  lemma SymbolStart(text: seq<int>, from: nat)
    requires from <= |text|
    ensures InSymbol(text, from, from, [])
  {
  }

  lemma SymbolStep(text: seq<int>, from: int, to: int, str: seq<int>)
    requires InSymbol(text, from, to, str) && to < |text| && !Delimits(text[to])
    ensures InSymbol(text, from, to + 1, str + [text[to]])
  {
    SuffixNext(text, to);
    SliceNext(text, from, to);
  }

  lemma SymbolEnd(text: seq<int>, from: int, to: int, str: seq<int>, lex: Lex)
    requires InSymbol(text, from, to, str) && (to < |text| ==> Delimits(text[to]))
    requires lex == if to == |text| then NoMore else Item(Symbol(str))
    ensures SymbolToken(text[from..]) == Scanned(lex, text[to..])
  {
    if to < |text| { SuffixNext(text, to); }
    SuffixOf(text, from, to - from);
  }

  /** An escape of octal digits. */
  lemma OctalEscape(text: seq<int>, at: nat, next: nat, n: nat, end: nat, x: int, added: seq<int>)
    requires IsText(text) && next == at + 1 < |text| && text[at] == BACKSLASH && IsOctal(text[next])
    requires n == OctalCount(text[next..], 3) && end == next + n && x == OctalValue(text[next..][..n])
    requires added == Append([], x % 256)
    ensures end <= |text| && Spells(text[at..], text[end..], added, false)
  {
    SomeOctal(text, next);
    var s := text[at..];
    SpellsPiece(s, false);
    SuffixOf(text, at, 1);
    SuffixOf(text, at, 1 + n);
    SuffixOf(s, 1, n);
  }

  /** Any other escape. */
  lemma LetterEscape(text: seq<int>, at: nat, end: nat, added: seq<int>)
    requires IsText(text) && end == at + 2 <= |text| && text[at] == BACKSLASH && !IsOctal(text[at + 1])
    requires added == [Meant(text[at + 1])]
    ensures Spells(text[at..], text[end..], added, false)
  {
    var s := text[at..];
    SpellsPiece(s, false);
    SuffixOf(text, at, 1);
    SuffixOf(text, at, 2);
  }

  lemma SomeOctal(text: seq<int>, at: nat)
    requires at < |text| && IsOctal(text[at])
    ensures OctalCount(text[at..], 3) > 0
  {
    SuffixNext(text, at);
  }

  /** Objects put in front of what is still to be parsed. */
  function Before(items: seq<Object>, p: Parsed): Parsed {
    Parsed(items + p.items, p.rest, p.status)
  }

  lemma BeforeThen(items: seq<Object>, o: Object, p: Parsed)
    ensures Before(items, Then(o, p)) == Before(items + [o], p)
  {
    Regroup(items, [o], p.items);
  }

  lemma SuffixOf(s: seq<int>, i: nat, k: nat)
    requires i + k <= |s|
    ensures s[i..][k..] == s[i + k..] && s[i..][..k] == s[i..i + k]
  {
  }

  lemma NumberEnds(s: seq<int>)
    requires StartsNumber(s)
    ensures var r := NumberToken(s).rest; r == s[|s| - |r|..]
  {
    if s[0] == MINUS { SuffixOf(s, 1, DigitCount(s[1..])); }
  }

  class Parser {
    const text: seq<int>
    const compat: bool
    var start: nat

    constructor (text: seq<int>, compat: bool)
      requires IsText(text)
      ensures this.text == text && this.compat == compat && start == 0 && Valid()
    {
      this.text, this.compat, start := text, compat, 0;
    }

    ghost predicate Valid()
      reads this
    {
      IsText(text) && start <= |text|
    }

    /** The text from the cursor on. */
    ghost function Rest(): seq<int>
      reads this
      requires Valid()
    {
      text[start..]
    }

    method SkipWhiteSpace() returns (ended: bool)
      requires Valid()
      modifies this
      ensures Valid() && Rest() == SkipSpace(old(Rest())) && old(start) <= start
      ensures ended <==> start == |text|
    {
      while start < |text| && IsSpace(text[start])
        invariant Valid() && SkipSpace(Rest()) == SkipSpace(old(Rest())) && old(start) <= start
        decreases |text| - start
      {
        SuffixNext(text, start);
        start := start + 1;
      }
      ended := start == |text|;
    }

    /** Read up to three octal digits. */
    method ReadOctal() returns (x: int)
      requires Valid()
      modifies this
      ensures Valid()
      ensures var n := OctalCount(old(Rest()), 3); start == old(start) + n && x == OctalValue(old(Rest())[..n])
    {
      x := 0;
      var i := 0;
      ghost var rest := Rest();
      while i < 3 && start < |text| && IsOctal(text[start])
        invariant 0 <= i <= 3 && start == old(start) + i <= |text|
        invariant OctalCount(rest, 3) == i + OctalCount(Rest(), 3 - i)
        invariant x == OctalValue(rest[..i])
        decreases 3 - i
      {
        SuffixNext(text, start);
        SliceNext(rest, 0, i);
        assert rest[..i + 1][..i] == rest[..i];
        x := x * 8 + text[start] - 48;
        start := start + 1;
        i := i + 1;
      }
    }

    /** Read an escape, when the text goes on after its backslash. */
    method ReadEscape() returns (added: seq<int>)
      requires Valid() && !compat && start + 1 < |text| && text[start] == BACKSLASH
      modifies this
      ensures Valid() && old(start) < start && Spells(old(Rest()), Rest(), added, compat)
    {
      ghost var at := start;
      start := start + 1;
      var c := text[start];
      if IsOctal(c) {
        added := ReadOctalEscape(at);
      } else {
        start := start + 1;
        added := [Meant(c)];
        LetterEscape(text, at, start, added);
      }
    }

    /** Read the digits of an octal escape. */
    method ReadOctalEscape(ghost at: nat) returns (added: seq<int>)
      requires Valid() && start == at + 1 < |text| && text[at] == BACKSLASH && IsOctal(text[start])
      modifies this
      ensures Valid() && at < start && Spells(text[at..], Rest(), added, false)
    {
      ghost var from, n := start, OctalCount(Rest(), 3);
      var x := ReadOctal();
      added := Append([], x % 256);
      OctalEscape(text, at, from, n, start, x, added);
    }

    /** Read a string after its opening quote. */
    method ReadString() returns (lex: Lex)
      requires Valid()
      modifies this
      ensures Valid() && Scanned(lex, Rest()) == StringToken(old(Rest()), [], compat) && old(start) <= start
    {
      var bytes := [];
      SpellsNothing(Rest(), compat);
      while true
        invariant Valid() && old(start) <= start && Spells(old(Rest()), Rest(), bytes, compat)
        decreases |text| - start
      {
        StringEnds(old(Rest()), Rest(), bytes, compat);
        ghost var here := Rest();
        var more, added := ReadPiece();
        if !more {
          if start < |text| && text[start] == QUOTE {
            start := start + 1;
            SuffixOf(text, start - 1, 1);
            return Item(String(bytes));
          }
          return NoMore;
        }
        SpellsBoth(old(Rest()), here, Rest(), bytes, added, compat);
        bytes := bytes + added;
      }
    }

    /** Read a span or an escape, unless the string or the text ends here. */
    method ReadPiece() returns (more: bool, added: seq<int>)
      requires Valid()
      modifies this
      ensures Valid()
      ensures more ==> old(start) < start && Spells(old(Rest()), Rest(), added, compat)
      ensures !more ==> start == old(start)
      ensures !more ==> Rest() == [] || (Rest() == [BACKSLASH] && !compat) || text[start] == QUOTE
    {
      more, added := true, [];
      var span := ReadSpan();
      if span > 0 {
        added := text[start..start + span];
        start := start + span;
      } else if start < |text| && text[start] == BACKSLASH && compat {
        added := ReadOldEscape();
      } else if start + 1 < |text| && text[start] == BACKSLASH {
        added := ReadEscape();
      } else {
        more := false;
      }
    }

    /** The length of the span of bytes that stand for themselves. */
    method ReadSpan() returns (span: nat)
      requires Valid()
      ensures SpellsItself(text, start, span, compat)
      ensures start + span < |text| ==> text[start + span] == QUOTE || text[start + span] == BACKSLASH
    {
      span := 0;
      ghost var from := start;
      SpanStart(text, from, compat);
      while start + span < |text| && text[start + span] != BACKSLASH && text[start + span] != QUOTE
        invariant from + span <= |text| && SpellsItself(text, from, span, compat)
        decreases |text| - span
      {
        SpanStep(text, from, span, compat);
        span := span + 1;
      }
    }

    /** In old texts a backslash only escapes a quote. */
    method ReadOldEscape() returns (added: seq<int>)
      requires Valid() && compat && start < |text| && text[start] == BACKSLASH
      modifies this
      ensures Valid() && old(start) < start && Spells(old(Rest()), Rest(), added, compat)
    {
      SpellsPiece(Rest(), compat);
      SuffixNext(text, start);
      if start + 1 < |text| && text[start + 1] == QUOTE {
        SuffixOf(text, start, 2);
        start := start + 2;
        added := [QUOTE];
      } else {
        start := start + 1;
        added := [BACKSLASH];
      }
    }

    /** Read a symbol. */
    method ReadSymbol() returns (lex: Lex)
      requires Valid()
      modifies this
      ensures Valid() && Scanned(lex, Rest()) == SymbolToken(old(Rest())) && old(start) <= start
    {
      ghost var from := start;
      var str := ReadLetters(from);
      lex := if start == |text| then NoMore else Item(Symbol(str));
      SymbolEnd(text, from, start, str, lex);
    }

    /** Read up to what delimits a symbol. */
    method ReadLetters(ghost from: nat) returns (str: seq<int>)
      requires Valid() && from == start
      modifies this
      ensures Valid() && from <= start && InSymbol(text, from, start, str)
      ensures start < |text| ==> Delimits(text[start])
    {
      str := [];
      SymbolStart(text, from);
      while start < |text| && !Delimits(text[start])
        invariant Valid() && from <= start && InSymbol(text, from, start, str)
        decreases |text| - start
      {
        SymbolStep(text, from, start, str);
        str := str + [text[start]];
        start := start + 1;
      }
    }

    method GetToken() returns (lex: Lex)
      requires Valid()
      modifies this
      ensures Valid() && Scanned(lex, Rest()) == TokenOf(old(Rest()), compat)
      ensures old(start) <= start && (!lex.NoMore? ==> old(start) < start)
    {
      var ended := SkipWhiteSpace();
      if ended { return NoMore; }
      lex := ReadToken();
    }

    /** Read the token at the cursor. */
    method ReadToken() returns (lex: Lex)
      requires Valid() && start < |text| && !IsSpace(text[start])
      modifies this
      ensures Valid() && Scanned(lex, Rest()) == TokenFrom(old(Rest()), compat)
      ensures old(start) <= start && (!lex.NoMore? ==> old(start) < start)
    {
      SuffixNext(text, start);
      var c := text[start];
      if c == OPEN {
        start := start + 1;
        return Opening;
      } else if c == CLOSE {
        start := start + 1;
        return Closing;
      } else if c == QUOTE {
        start := start + 1;
        lex := ReadString();
        return;
      } else if c == MINUS || IsDigit(c) {
        if StartsNumber(text[start..]) {
          lex := ReadNumber();
          return;
        }
      }
      lex := ReadSymbol();
    }

    /** Read a number. */
    method ReadNumber() returns (lex: Lex)
      requires Valid() && StartsNumber(text[start..])
      modifies this
      ensures Valid() && Scanned(lex, Rest()) == NumberToken(old(Rest())) && old(start) < start
    {
      NumberEnds(Rest());
      var number := NumberToken(text[start..]);
      SuffixOf(text, start, |text| - start - |number.rest|);
      start := |text| - |number.rest|;
      lex := number.lex;
    }

    /** Read objects up to a closing parenthesis, the end of the text, or a problem. */
    method ParseList() returns (list: seq<Object>, status: Status)
      requires Valid()
      modifies this
      ensures Valid() && Parsed(list, Rest(), status) == ParseItems(old(Rest()), compat) && old(start) <= start
      decreases |text| - start, 1
    {
      list := [];
      ghost var s := Rest();
      while true
        invariant Valid() && old(start) <= start
        invariant Before(list, ParseItems(Rest(), compat)) == ParseItems(s, compat)
        decreases |text| - start
      {
        ghost var here := Rest();
        var token := GetToken();
        match token
        case NoMore => return list, End;
        case Closing => return list, Shut;
        case Item(o) =>
          BeforeThen(list, o, ParseItems(Rest(), compat));
          list := list + [o];
        case Opening =>
          var bad, problem, o := ParseInner(here);
          if bad { return list, problem; }
          BeforeThen(list, o, ParseItems(Rest(), compat));
          list := list + [o];
      }
    }

    /** Read a list after its opening parenthesis; `problem` also tells of the end. */
    method ParseInner(ghost s: seq<int>) returns (bad: bool, problem: Status, o: Object)
      requires Valid() && TokenOf(s, compat) == Scanned(Opening, Rest())
      modifies this
      ensures Valid() && old(start) <= start
      ensures bad ==> ParseItems(s, compat) == Parsed([], Rest(), problem)
      ensures !bad ==> ParseItems(s, compat) == Then(o, ParseItems(Rest(), compat)) && old(start) < start
      decreases |text| - start, 2
    {
      bad, problem, o := true, End, Number(0);
      if start < |text| && IsSpace(text[start]) { return true, Bad(SpaceAfterParen), o; }
      var name := GetToken();
      if name.NoMore? { return; }
      if name.Opening? || name.Closing? { return true, Bad(ParenAfterParen), o; }
      if name.value.Number? { return true, Bad(NumberAfterParen), o; }
      if !name.value.Symbol? { return true, Bad(StringAfterParen), o; }
      var items, status := ParseList();
      if status.Bad? { return true, status, o; }
      bad, o := false, List(name.value.name, items);
    }
  }

  /** Whether the text was written by an old program. */
  method CheckCompat(s: seq<int>) returns (compat: bool)
    ensures compat == IsOld(s)
  {
    compat := false;
    var state := Outside;
    var i := 0;
    while i < |s| && !compat
      invariant 0 <= i <= |s| && state == QuoteAll(Outside, s[..i]) && compat == (state == Old)
      decreases |s| - i
    {
      assert s[..i + 1][..i] == s[..i];
      state := Quote(state, s[i]);
      compat := state == Old;
      i := i + 1;
    }
    SliceBoth(s, 0, i, |s|);
    assert s[0..i] == s[..i] && s[0..|s|] == s;
    if compat {
      StaysOld(s[..i], s[i..|s|]);
    }
  }

  lemma {:induction false} StaysOld(a: seq<int>, b: seq<int>)
    requires QuoteAll(Outside, a) == Old
    ensures QuoteAll(Outside, a + b) == Old
    decreases |b|
  {
    if b == [] {
      assert a + b == a;
    } else {
      var n := |b| - 1;
      assert (a + b)[..|a| + n] == a + b[..n];
      StaysOld(a, b[..n]);
    }
  }

  /** Parse a whole text; the objects read before a problem are kept. */
  method ParseText(text: seq<int>) returns (list: seq<Object>, status: Status)
    requires IsText(text)
    ensures list == Parse(text).items && status == Parse(text).status
  {
    var compat := CheckCompat(text);
    var parser := new Parser(text, compat);
    assert parser.Rest() == text;
    list, status := parser.ParseList();
  }
}
