/**
 Annotation objects, how they are printed, and what the parser makes of a text. Texts are C strings: bytes
 without a zero.
 */
module Annotations {
  datatype Object = Number(number: int) | String(bytes: seq<int>) | Symbol(name: seq<int>)
                  | List(title: seq<int>, items: seq<Object>)

  const QUOTE := 34
  const BACKSLASH := 92
  const SPACE := 32
  const NEWLINE := 10
  const OPEN := 40
  const CLOSE := 41
  const MINUS := 45

  function IsSpace(c: int): bool {
    9 <= c <= 13 || c == SPACE
  }

  function IsDigit(c: int): bool {
    48 <= c <= 57
  }

  function IsOctal(c: int): bool {
    48 <= c <= 55
  }

  /** What ends a symbol. */
  function Delimits(c: int): bool {
    c == CLOSE || c == OPEN || c == QUOTE || IsSpace(c)
  }

  ghost predicate IsText(s: seq<int>) {
    forall i :: 0 <= i < |s| ==> 0 < s[i] < 256
  }

  /** Whether a text begins with a number. */
  function StartsNumber(s: seq<int>): bool {
    s != [] && (IsDigit(s[0]) || (s[0] == MINUS && |s| > 1 && IsDigit(s[1])))
  }

  ghost predicate IsSymbol(s: seq<int>) {
    IsText(s) && s != [] && !StartsNumber(s) && forall i :: 0 <= i < |s| ==> !Delimits(s[i])
  }

  /** The objects that a text can hold. */
  ghost predicate WellFormed(o: Object) {
    match o
    case Number(n) => -0x8000_0000 <= n < 0x8000_0000
    case String(b) => IsText(b)
    case Symbol(s) => IsSymbol(s)
    case List(t, items) => IsSymbol(t) && AllWellFormed(items)
  }

  ghost predicate AllWellFormed(items: seq<Object>) {
    forall i :: 0 <= i < |items| ==> WellFormed(items[i])
  }

  // Printing

  function Digits(n: nat): seq<int> {
    if n < 10 then [48 + n] else Digits(n / 10) + [48 + n % 10]
  }

  function Decimal(n: int): seq<int> {
    if n < 0 then [MINUS] + Digits(-n) else Digits(n)
  }

  /** Whether a byte of a string is printed as it is. */
  function Plain(c: int): bool {
    c >= 0x20 && c != 0x7f && c != QUOTE && c != BACKSLASH
  }

  /** The letter that stands for a byte after a backslash, or 0. */
  function Letter(c: int): int {
    if c == QUOTE then QUOTE
    else if c == BACKSLASH then BACKSLASH
    else if c == 9 then 116
    else if c == 10 then 110
    else if c == 13 then 114
    else if c == 8 then 98
    else if c == 12 then 102
    else 0
  }

  /** One byte of a string as printed. */
  function Escaped(c: int): seq<int> {
    if Plain(c) then [c]
    else if Letter(c) != 0 then [BACKSLASH, Letter(c)]
    else [BACKSLASH, 48 + c / 64, 48 + c / 8 % 8, 48 + c % 8]
  }

  function EscapedAll(b: seq<int>): seq<int> {
    if b == [] then [] else EscapedAll(b[..|b| - 1]) + Escaped(b[|b| - 1])
  }

  /** The first lexeme of an object. */
  function Lexeme(o: Object): seq<int> {
    match o
    case Number(n) => Decimal(n)
    case String(b) => [QUOTE] + EscapedAll(b) + [QUOTE]
    case Symbol(s) => s
    case List(t, _) => [OPEN] + t
  }

  function Spaces(n: nat): seq<int> {
    seq(n, i => SPACE)
  }

  function Gap(lexeme: seq<int>, compact: bool, indent: nat, pos: nat): seq<int> {
    if !compact && pos + |lexeme| > 70 then [NEWLINE] + Spaces(indent) else []
  }

  /** The text of an object printed at column `pos`, and the column after it. */
  datatype Printed = Printed(text: seq<int>, pos: nat)

  /** The column after the first lexeme of an object and its space. */
  function Column(o: Object, compact: bool, indent: nat, pos: nat): (c: nat)
    ensures c > |Lexeme(o)|
  {
    (if Gap(Lexeme(o), compact, indent, pos) == [] then pos else indent) + |Lexeme(o)| + 1
  }

  /** The text up to there. */
  function Head(o: Object, compact: bool, indent: nat, pos: nat): seq<int> {
    Gap(Lexeme(o), compact, indent, pos) + Lexeme(o) + [SPACE]
  }

  function Print(o: Object, compact: bool, indent: nat, pos: nat): Printed
    decreases o, 1
  {
    if o.List? then Closed(Head(o, compact, indent, pos), Inner(o, compact, indent, pos))
    else Printed(Head(o, compact, indent, pos), Column(o, compact, indent, pos))
  }

  function Closed(head: seq<int>, inner: Printed): Printed {
    Printed(head + inner.text + [CLOSE, SPACE], inner.pos + 2)
  }

  /** The items of a list, indented to its title. */
  function Inner(o: Object, compact: bool, indent: nat, pos: nat): Printed
    requires o.List?
    decreases o, 0
  {
    var column := Column(o, compact, indent, pos);
    PrintItems(o.items, compact, column - |Lexeme(o)|, column)
  }

  function PrintItems(items: seq<Object>, compact: bool, indent: nat, pos: nat): Printed
    decreases items, 1
  {
    if items == [] then Printed([], pos)
    else
      var first := Print(items[0], compact, indent, pos);
      var rest := PrintItems(items[1..], compact, indent, first.pos);
      Printed(first.text + rest.text, rest.pos)
  }

  /** The text of a whole list of annotations; each starts at column 0. */
  function PrintAll(items: seq<Object>, compact: bool): seq<int> {
    if items == [] then []
    else PrintAll(items[..|items| - 1], compact) + Print(items[|items| - 1], compact, 0, 0).text
  }

  // Parsing

  datatype Lex = Opening | Closing | Item(value: Object) | NoMore

  /** A token and the text after it. */
  datatype Scanned = Scanned(lex: Lex, rest: seq<int>)

  function SkipSpace(s: seq<int>): (r: seq<int>)
    ensures |r| <= |s| && (r != [] ==> !IsSpace(r[0]))
  {
    if s != [] && IsSpace(s[0]) then SkipSpace(s[1..]) else s
  }

  /** How many bytes a symbol at the front of the text has. */
  function SymbolLength(s: seq<int>): (n: nat)
    ensures n <= |s| && (n < |s| ==> Delimits(s[n])) && forall i :: 0 <= i < n ==> !Delimits(s[i])
  {
    if s == [] || Delimits(s[0]) then 0 else 1 + SymbolLength(s[1..])
  }

  function DigitCount(s: seq<int>): (n: nat)
    ensures n <= |s| && (n < |s| ==> !IsDigit(s[n])) && forall i :: 0 <= i < n ==> IsDigit(s[i])
  {
    if s == [] || !IsDigit(s[0]) then 0 else 1 + DigitCount(s[1..])
  }

  function Value(digits: seq<int>): int {
    if digits == [] then 0 else Value(digits[..|digits| - 1]) * 10 + digits[|digits| - 1] - 48
  }

  /** A number read as 64 bits, saturating, and kept as 32. */
  function Kept(n: int): int {
    var long := if n < -0x8000_0000_0000_0000 then -0x8000_0000_0000_0000
                else if n > 0x7fff_ffff_ffff_ffff then 0x7fff_ffff_ffff_ffff else n;
    (long + 0x8000_0000) % 0x1_0000_0000 - 0x8000_0000
  }

  function NumberToken(s: seq<int>): (r: Scanned)
    requires StartsNumber(s)
    ensures |r.rest| < |s| && r.lex.Item?
  {
    if s[0] == MINUS then
      var n := DigitCount(s[1..]);
      Scanned(Item(Number(Kept(-Value(s[1..][..n])))), s[1..][n..])
    else
      var n := DigitCount(s);
      Scanned(Item(Number(Kept(Value(s[..n])))), s[n..])
  }

  /** Bytes are put together as C strings: a zero adds nothing. */
  function Append(b: seq<int>, c: int): seq<int> {
    if c == 0 then b else b + [c]
  }

  /** How many octal digits, up to `limit`, the text begins with. */
  function OctalCount(s: seq<int>, limit: nat): (n: nat)
    ensures n <= |s| && n <= limit
    decreases limit, s
  {
    if limit == 0 || s == [] || !IsOctal(s[0]) then 0 else 1 + OctalCount(s[1..], limit - 1)
  }

  function OctalValue(digits: seq<int>): int {
    if digits == [] then 0 else OctalValue(digits[..|digits| - 1]) * 8 + digits[|digits| - 1] - 48
  }

  /** The byte a letter stands for after a backslash; other bytes stand for themselves. */
  function Meant(c: int): int {
    if c == 116 then 9
    else if c == 110 then 10
    else if c == 114 then 13
    else if c == 98 then 8
    else if c == 102 then 12
    else if c == 118 then 11
    else if c == 97 then 7
    else c
  }

  /** One byte of a string, plain or escaped: what it adds, and how long it is in the text. */
  datatype Piece = Piece(byte: int, length: nat)

  function PieceOf(s: seq<int>, compat: bool): (p: Piece)
    requires s != [] && s[0] != QUOTE && (s[0] == BACKSLASH && !compat ==> |s| > 1)
    ensures 0 < p.length <= |s|
  {
    if s[0] != BACKSLASH then Piece(s[0], 1)
    else if compat then
      if |s| > 1 && s[1] == QUOTE then Piece(QUOTE, 2) else Piece(BACKSLASH, 1)
    else
      var n := OctalCount(s[1..], 3);
      if n > 0 then Piece(OctalValue(s[1..1 + n]) % 256, 1 + n) else Piece(Meant(s[1]), 2)
  }

  /** The rest of a string whose bytes so far are `b`. */
  function StringToken(s: seq<int>, b: seq<int>, compat: bool): (r: Scanned)
    ensures |r.rest| <= |s|
    decreases |s|
  {
    if s == [] || (s == [BACKSLASH] && !compat) then Scanned(NoMore, s)
    else if s[0] == QUOTE then Scanned(Item(String(b)), s[1..])
    else
      var p := PieceOf(s, compat);
      StringToken(s[p.length..], Append(b, p.byte), compat)
  }

  function SymbolToken(s: seq<int>): (r: Scanned)
    ensures |r.rest| <= |s| && (r.rest == s ==> SymbolLength(s) == 0)
  {
    var n := SymbolLength(s);
    Scanned(if n == |s| then NoMore else Item(Symbol(s[..n])), s[n..])
  }

  /** The next token of a text. */
  function TokenOf(s: seq<int>, compat: bool): (r: Scanned)
    ensures |r.rest| <= |s| && (!r.lex.NoMore? ==> |r.rest| < |s|)
  {
    TokenFrom(SkipSpace(s), compat)
  }

  /** The token at the beginning of a text, which is not white space. */
  function TokenFrom(t: seq<int>, compat: bool): (r: Scanned)
    ensures |r.rest| <= |t| && (t != [] && !IsSpace(t[0]) && !r.lex.NoMore? ==> |r.rest| < |t|)
  {
    if t == [] then Scanned(NoMore, t)
    else if t[0] == OPEN then Scanned(Opening, t[1..])
    else if t[0] == CLOSE then Scanned(Closing, t[1..])
    else if t[0] == QUOTE then StringToken(t[1..], [], compat)
    else if StartsNumber(t) then NumberToken(t)
    else SymbolToken(t)
  }

  datatype Problem = SpaceAfterParen | ParenAfterParen | NumberAfterParen | StringAfterParen

  datatype Status = Shut | End | Bad(problem: Problem)

  datatype Parsed = Parsed(items: seq<Object>, rest: seq<int>, status: Status)

  function Then(o: Object, p: Parsed): Parsed {
    Parsed([o] + p.items, p.rest, p.status)
  }

  /** The objects up to a closing parenthesis, the end, or a problem. A list cut off by the end is kept. */
  function ParseItems(s: seq<int>, compat: bool): (r: Parsed)
    ensures |r.rest| <= |s|
    decreases |s|
  {
    var t := TokenOf(s, compat);
    match t.lex
    case NoMore => Parsed([], t.rest, End)
    case Closing => Parsed([], t.rest, Shut)
    case Item(o) => Then(o, ParseItems(t.rest, compat))
    case Opening =>
      if t.rest != [] && IsSpace(t.rest[0]) then Parsed([], t.rest, Bad(SpaceAfterParen))
      else
        var name := TokenOf(t.rest, compat);
        match name.lex
        case NoMore => Parsed([], name.rest, End)
        case Opening => Parsed([], name.rest, Bad(ParenAfterParen))
        case Closing => Parsed([], name.rest, Bad(ParenAfterParen))
        case Item(o) =>
          if o.Number? then Parsed([], name.rest, Bad(NumberAfterParen))
          else if !o.Symbol? then Parsed([], name.rest, Bad(StringAfterParen))
          else
            var inner := ParseItems(name.rest, compat);
            if inner.status.Bad? then Parsed([], inner.rest, inner.status)
            else Then(List(o.name, inner.items), ParseItems(inner.rest, compat))
  }

  // The check for texts written by old programs

  datatype Quoting = Outside | Inside | Escape | Old

  function Escapes(c: int): bool {
    || IsOctal(c) || c == 116 || c == 110 || c == 114 || c == 98 || c == 102 || c == 118 || c == 97
    || c == QUOTE || c == BACKSLASH
  }

  function Quote(state: Quoting, c: int): Quoting {
    match state
    case Outside => if c == QUOTE then Inside else Outside
    case Inside => if c == QUOTE then Outside else if c == BACKSLASH then Escape
                   else if c < 0x20 || c == 0x7f then Old else Inside
    case Escape => if Escapes(c) then Inside else Old
    case Old => Old
  }

  /** The state after a text. */
  function QuoteAll(state: Quoting, s: seq<int>): Quoting {
    if s == [] then state else Quote(QuoteAll(state, s[..|s| - 1]), s[|s| - 1])
  }

  function IsOld(s: seq<int>): bool {
    QuoteAll(Outside, s) == Old
  }

  /** The objects of a whole text. */
  function Parse(s: seq<int>): Parsed {
    ParseItems(s, IsOld(s))
  }
}
