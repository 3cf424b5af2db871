/** Printing annotation objects to a stream. */
module AnnoPrinter {
  import opened Annotations
  import opened Sequences

  /** The text of a byte string: spans of plain bytes, and escapes for the others. */
  method MakeCString(bytes: seq<int>) returns (buffer: seq<int>)
    ensures buffer == Lexeme(String(bytes))
  {
    buffer := [QUOTE];
    WrittenNone(bytes);
    var at := 0;
    while at < |bytes|
      invariant Written(bytes, at, buffer)
      decreases |bytes| - at
    {
      var span := PlainSpan(bytes, at);
      if span > 0 {
        WrittenSpan(bytes, at, span, buffer);
        buffer := buffer + bytes[at..at + span];
        at := at + span;
      } else {
        var escape := Escape(bytes[at]);
        WrittenNext(bytes, at, buffer);
        buffer := buffer + escape;
        at := at + 1;
      }
    }
    WrittenAll(bytes, buffer);
    buffer := buffer + [QUOTE];
  }

  lemma EscapedPush(b: seq<int>, c: int)
    ensures EscapedAll(b + [c]) == EscapedAll(b) + Escaped(c)
  {
    PushLast(b, c);
  }

  lemma {:induction false} EscapedAppend(a: seq<int>, b: seq<int>)
    ensures EscapedAll(a + b) == EscapedAll(a) + EscapedAll(b)
    decreases |b|
  {
    if b == [] {
      assert a + b == a;
    } else {
      var n := |b| - 1;
      EscapedAppend(a, b[..n]);
      EscapedPush(a + b[..n], b[n]);
      LastApart(b);
      Regroup(a, b[..n], [b[n]]);
      Regroup(EscapedAll(a), EscapedAll(b[..n]), Escaped(b[n]));
    }
  }

  /** The bytes before `to` have been written after a quote. */
  ghost predicate Written(bytes: seq<int>, to: int, buffer: seq<int>) {
    0 <= to <= |bytes| && Quoted(bytes[0..to], buffer)
  }

  ghost predicate Quoted(b: seq<int>, buffer: seq<int>) {
    buffer == [QUOTE] + EscapedAll(b)
  }

  lemma WrittenNone(bytes: seq<int>)
    ensures Written(bytes, 0, [QUOTE])
  {
    assert bytes[0..0] == [];
  }

  lemma WrittenNext(bytes: seq<int>, to: int, buffer: seq<int>)
    requires Written(bytes, to, buffer) && to < |bytes|
    ensures Written(bytes, to + 1, buffer + Escaped(bytes[to]))
  {
    SliceNext(bytes, 0, to);
    QuotedNext(bytes[0..to], bytes[to], buffer);
  }

  lemma QuotedNext(b: seq<int>, c: int, buffer: seq<int>)
    requires Quoted(b, buffer)
    ensures Quoted(b + [c], buffer + Escaped(c))
  {
    EscapedPush(b, c);
    Regroup([QUOTE], EscapedAll(b), Escaped(c));
  }

  lemma WrittenSpan(bytes: seq<int>, at: nat, span: nat, buffer: seq<int>)
    requires Written(bytes, at, buffer) && Plainly(bytes, at, span)
    ensures Written(bytes, at + span, buffer + bytes[at..at + span])
  {
    SliceBoth(bytes, 0, at, at + span);
    WrittenMore(bytes[0..at], bytes[at..at + span], buffer);
  }

  lemma WrittenMore(a: seq<int>, b: seq<int>, buffer: seq<int>)
    requires Quoted(a, buffer) && AsItIs(b)
    ensures Quoted(a + b, buffer + b)
  {
    EscapedAppend(a, b);
    Regroup([QUOTE], EscapedAll(a), b);
  }

  lemma WrittenAll(bytes: seq<int>, buffer: seq<int>)
    requires Written(bytes, |bytes|, buffer)
    ensures buffer + [QUOTE] == Lexeme(String(bytes))
  {
    assert bytes[0..|bytes|] == bytes;
  }

  /** The bytes from `at` to `at + span` are printed as they are. */
  ghost predicate Plainly(bytes: seq<int>, at: int, span: int) {
    0 <= at <= at + span <= |bytes| && AsItIs(bytes[at..at + span])
  }

  lemma PlainlyNone(bytes: seq<int>, at: nat)
    requires at <= |bytes|
    ensures Plainly(bytes, at, 0)
  {
    assert bytes[at..at] == [];
  }

  lemma PlainlyNext(bytes: seq<int>, at: int, span: int)
    requires Plainly(bytes, at, span) && at + span < |bytes| && Plain(bytes[at + span])
    ensures Plainly(bytes, at, span + 1)
  {
    var b, c := bytes[at..at + span], bytes[at + span];
    SliceNext(bytes, at, at + span);
    AsItIsNext(b, c);
  }

  ghost predicate AsItIs(b: seq<int>) {
    EscapedAll(b) == b
  }

  lemma AsItIsNext(b: seq<int>, c: int)
    requires AsItIs(b) && Plain(c)
    ensures AsItIs(b + [c])
  {
    EscapedPush(b, c);
  }

  /** The length of the span of plain bytes at `at`. */
  method PlainSpan(bytes: seq<int>, at: nat) returns (span: nat)
    requires at < |bytes|
    ensures Plainly(bytes, at, span) && (span == 0 ==> !Plain(bytes[at]))
  {
    span := 0;
    PlainlyNone(bytes, at);
    while at + span < |bytes| && Plain(bytes[at + span])
      invariant Plainly(bytes, at, span)
      decreases |bytes| - span
    {
      PlainlyNext(bytes, at, span);
      span := span + 1;
    }
  }

  /** The escape of a byte that is not plain: a letter, or three octal digits. */
  method Escape(c: int) returns (escape: seq<int>)
    requires !Plain(c)
    ensures escape == Escaped(c)
  {
    var letter := Letter(c);
    escape := if letter != 0 then [BACKSLASH, letter] else [BACKSLASH, 48 + c / 64, 48 + c / 8 % 8, 48 + c % 8];
  }

  /** The first lexeme of an object. */
  method FirstLexeme(o: Object) returns (buffer: seq<int>)
    ensures buffer == Lexeme(o)
  {
    match o
    case Number(n) => buffer := Decimal(n);
    case String(b) => buffer := MakeCString(b);
    case Symbol(s) => buffer := s;
    case List(t, _) => buffer := [OPEN] + t;
  }

  lemma ItemsStep(items: seq<Object>, at: nat, compact: bool, indent: nat, pos: nat)
    requires at < |items|
    ensures var first := Print(items[at], compact, indent, pos);
      var rest := PrintItems(items[at + 1..], compact, indent, first.pos);
      PrintItems(items[at..], compact, indent, pos) == Printed(first.text + rest.text, rest.pos)
  {
    SuffixNext(items, at);
  }

  lemma PrintAllNext(items: seq<Object>, i: nat, compact: bool)
    requires i < |items|
    ensures PrintAll(items[..i + 1], compact) == PrintAll(items[..i], compact) + Print(items[i], compact, 0, 0).text
  {
    assert items[..i + 1][..i] == items[..i];
  }

  /** From `start` and `pos0` the items before `at` have been printed. */
  ghost predicate Printing(items: seq<Object>, at: int, compact: bool, indent: nat, start: seq<int>, pos0: nat,
                           out: seq<int>, pos: nat)
  {
    && 0 <= at <= |items|
    && var all, rest := PrintItems(items, compact, indent, pos0), PrintItems(items[at..], compact, indent, pos);
      all.pos == rest.pos && start + all.text == out + rest.text
  }

  lemma PrintingStep(items: seq<Object>, at: int, compact: bool, indent: nat, start: seq<int>, pos0: nat,
                     out: seq<int>, pos: nat)
    requires Printing(items, at, compact, indent, start, pos0, out, pos) && at < |items|
    ensures var first := Print(items[at], compact, indent, pos);
      Printing(items, at + 1, compact, indent, start, pos0, out + first.text, first.pos)
  {
    ItemsStep(items, at, compact, indent, pos);
    var first := Print(items[at], compact, indent, pos);
    Regroup(out, first.text, PrintItems(items[at + 1..], compact, indent, first.pos).text);
  }

  lemma ClosedText(out: seq<int>, head: seq<int>, inner: Printed)
    ensures out + head + inner.text + [CLOSE, SPACE] == out + Closed(head, inner).text
  {
    Regroup(out, head, inner.text);
    Regroup(out, head + inner.text, [CLOSE, SPACE]);
  }

  class Printer {
    var out: seq<int>
    var pos: nat

    constructor ()
      ensures out == [] && pos == 0
    {
      out, pos := [], 0;
    }

    /** Print one object at the current column. */
    method PrintObject(o: Object, compact: bool, indent: nat)
      modifies this
      ensures out == old(out) + Print(o, compact, indent, old(pos)).text
      ensures pos == Print(o, compact, indent, old(pos)).pos
      decreases o, 1
    {
      var buffer := FirstLexeme(o);
      Start(o, buffer, compact, indent);
      if o.List? {
        ghost var head := Head(o, compact, indent, old(pos));
        PrintList(o, compact, pos - |buffer|);
        ClosedText(old(out), head, Inner(o, compact, indent, old(pos)));
        out := out + [CLOSE, SPACE];
        pos := pos + 2;
      }
    }

    /** Break the line when the lexeme would go past it, then write the lexeme and a space. */
    method Start(ghost o: Object, lexeme: seq<int>, compact: bool, indent: nat)
      requires lexeme == Lexeme(o)
      modifies this
      ensures out == old(out) + Head(o, compact, indent, old(pos)) && pos == Column(o, compact, indent, old(pos))
    {
      if !compact && pos + |lexeme| > 70 {
        BreakLine(indent);
      }
      Regroup(old(out), Gap(lexeme, compact, indent, old(pos)), lexeme);
      Regroup(old(out), Gap(lexeme, compact, indent, old(pos)) + lexeme, [SPACE]);
      out := out + lexeme + [SPACE];
      pos := pos + |lexeme| + 1;
    }

    method BreakLine(indent: nat)
      modifies this
      ensures out == old(out) + ([NEWLINE] + Spaces(indent)) && pos == indent
    {
      out := out + [NEWLINE];
      for i := 0 to indent
        invariant out == old(out) + [NEWLINE] + Spaces(i)
      {
        assert Spaces(i + 1) == Spaces(i) + [SPACE];
        Regroup(old(out) + [NEWLINE], Spaces(i), [SPACE]);
        out := out + [SPACE];
      }
      Regroup(old(out), [NEWLINE], Spaces(indent));
      pos := indent;
    }

    method PrintList(o: Object, compact: bool, indent: nat)
      requires o.List?
      modifies this
      ensures out == old(out) + PrintItems(o.items, compact, indent, old(pos)).text
      ensures pos == PrintItems(o.items, compact, indent, old(pos)).pos
      decreases o, 0
    {
      ghost var start := out;
      var at := 0;
      while at < |o.items|
        invariant Printing(o.items, at, compact, indent, start, old(pos), out, pos)
      {
        PrintingStep(o.items, at, compact, indent, start, old(pos), out, pos);
        PrintObject(o.items[at], compact, indent);
        at := at + 1;
      }
    }
  }

  method PrintOne(o: Object, compact: bool) returns (text: seq<int>)
    ensures text == Print(o, compact, 0, 0).text
  {
    var printer := new Printer();
    printer.PrintObject(o, compact, 0);
    text := printer.out;
  }

  /** Print a list of annotations; each begins a line of its own as far as the columns go. */
  method PrintAnnotations(items: seq<Object>, compact: bool) returns (text: seq<int>)
    ensures text == PrintAll(items, compact)
  {
    text := [];
    for i := 0 to |items|
      invariant text == PrintAll(items[..i], compact)
    {
      PrintAllNext(items, i, compact);
      var one := PrintOne(items[i], compact);
      text := text + one;
    }
    assert items[..|items|] == items;
  }
}
