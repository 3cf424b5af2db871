/**
 An HTML tree emitted into the builder with an explicit stack of work, and the
 recursive preorder it amounts to.
 */
module MarkupHtml {
  import opened MarkupTree
  import opened Markup
  import opened MarkupColumns
  import opened Sequences

  /** A node of the HTML parser's tree; comments and the like are `Other`. */
  datatype HtmlNode = Document(children: seq<HtmlNode>)
                    | Element(local: string, attrs: seq<HtmlAttribute>, children: seq<HtmlNode>)
                    | Text(contents: string)
                    | Other

  datatype HtmlAttribute = HtmlAttribute(prefix: string, local: string, value: string)

  /** What a document keeps of it. */
  datatype Item = Branch(name: string, attributes: seq<Attribute>, items: seq<Item>) | Leaf(text: string)

  function Qualified(a: HtmlAttribute): Attribute {
    (if a.prefix == "" then a.local else a.prefix + ":" + a.local, a.value)
  }

  function QualifiedAll(attrs: seq<HtmlAttribute>): seq<Attribute> {
    seq(|attrs|, i requires 0 <= i < |attrs| => Qualified(attrs[i]))
  }

  /** Every CR LF replaced by LF. */
  function ReplacePairs(s: string): string {
    if s == "" then ""
    else if s[0] == '\r' && |s| > 1 && s[1] == '\n' then ['\n'] + ReplacePairs(s[2..])
    else [s[0]] + ReplacePairs(s[1..])
  }

  /** Every CR replaced by LF. */
  function ReplaceReturns(s: string): string {
    if s == "" then "" else [if s[0] == '\r' then '\n' else s[0]] + ReplaceReturns(s[1..])
  }

  function LineBreaks(s: string): (r: string) {
    ReplaceReturns(ReplacePairs(s))
  }

  /** A text without a carriage return is kept. */
  lemma {:induction false} NoReturnKept(s: string)
    requires '\r' !in s
    ensures ReplacePairs(s) == s && ReplaceReturns(s) == s && LineBreaks(s) == s
  {
    if s != "" { NoReturnKept(s[1..]); }
  }

  lemma {:induction false} PairsAfter(line: string, s: string)
    requires '\r' !in line
    ensures ReplacePairs(line + s) == line + ReplacePairs(s)
  {
    if line == "" {
      assert line + s == s;
    } else {
      assert (line + s)[1..] == line[1..] + s && (line + s)[0] == line[0];
      PairsAfter(line[1..], s);
    }
  }

  lemma {:induction false} ReturnsAfter(a: string, s: string)
    ensures ReplaceReturns(a + s) == ReplaceReturns(a) + ReplaceReturns(s)
  {
    if a == "" {
      assert a + s == s;
    } else {
      assert (a + s)[1..] == a[1..] + s && (a + s)[0] == a[0];
      ReturnsAfter(a[1..], s);
    }
  }

  /**
   A line is kept, and the first carriage return after it, alone or with the line feed that follows it,
   becomes one line feed; then comes what the rest becomes. With `NoReturnKept` this says it of every text.
   */
  lemma LineKept(line: string, rest: string, pair: bool)
    requires '\r' !in line && (!pair && rest != "" ==> rest[0] != '\n')
    ensures LineBreaks(line + (if pair then "\r\n" else "\r") + rest) == line + "\n" + LineBreaks(rest)
  {
    var sep, one := if pair then "\r\n" else "\r", if pair then "\n" else "\r";
    Regroup(line, sep, rest);
    PairsAfter(line, sep + rest);
    assert ReplacePairs(sep + rest) == one + ReplacePairs(rest) by {
      assert (sep + rest)[|sep|..] == rest;
    }
    ReturnsAfter(line, one + ReplacePairs(rest));
    ReturnsAfter(one, ReplacePairs(rest));
    NoReturnKept(line);
    assert ReplaceReturns(one) == "\n" by { assert one[1..] == ""; }
    Regroup(line, "\n", LineBreaks(rest));
  }

  // ----- The tree that is kept, and its rows in preorder -----

  ghost function Items(node: HtmlNode): seq<Item>
    decreases node, 0
  {
    match node
    case Document(children) => ItemsOf(children)
    case Element(local, attrs, children) => [Branch(local, Kept(QualifiedAll(attrs), false), ItemsOf(children))]
    case Text(contents) => [Leaf(LineBreaks(contents))]
    case Other => []
  }

  ghost function ItemsOf(nodes: seq<HtmlNode>): seq<Item>
    decreases nodes, 0
  {
    if nodes == [] then [] else Items(nodes[0]) + ItemsOf(nodes[1..])
  }

  /** Outside the elements, texts are dropped. */
  ghost function Roots(items: seq<Item>): seq<Item> {
    if items == [] then [] else (if items[0].Branch? then [items[0]] else []) + Roots(items[1..])
  }

  ghost function Flat(items: seq<Item>, base: nat, parent: int): seq<Row>
    decreases items, 0
  {
    if items == [] then []
    else
      var first := FlatItem(items[0], base, parent);
      first + Flat(items[1..], base + |first|, parent)
  }

  ghost function FlatItem(item: Item, base: nat, parent: int): (r: seq<Row>)
    ensures r != []
    decreases item, 1
  {
    match item
    case Leaf(text) => [Row(TEXT, parent, text, [])]
    case Branch(name, attributes, items) => [Row(ELEMENT, parent, name, attributes)] + Flat(items, base + 1, base)
  }

  lemma {:induction false} FlatConcat(a: seq<Item>, b: seq<Item>, base: nat, parent: int)
    ensures Flat(a + b, base, parent) == Flat(a, base, parent) + Flat(b, base + |Flat(a, base, parent)|, parent)
  {
    if a == [] {
      assert a + b == b;
    } else {
      var first := FlatItem(a[0], base, parent);
      assert (a + b)[1..] == a[1..] + b && (a + b)[0] == a[0];
      FlatConcat(a[1..], b, base + |first|, parent);
      var rest := Flat(a[1..], base + |first|, parent);
      Regroup(first, rest, Flat(b, base + |first| + |rest|, parent));
    }
  }

  lemma {:induction false} RootsConcat(a: seq<Item>, b: seq<Item>)
    ensures Roots(a + b) == Roots(a) + Roots(b)
  {
    if a == [] {
      assert a + b == b;
    } else {
      assert (a + b)[1..] == a[1..] + b && (a + b)[0] == a[0];
      RootsConcat(a[1..], b);
      Regroup(if a[0].Branch? then [a[0]] else [], Roots(a[1..]), Roots(b));
    }
  }

  // ----- Recursive preorder into a builder -----

  /** The rows after the node is visited with `parent` innermost open; nothing when the builder refuses. */
  ghost function Emit(node: HtmlNode, rows: seq<Row>, parent: int): Option<seq<Row>>
    decreases node, 0
  {
    match node
    case Document(children) => EmitAll(children, rows, parent)
    case Element(local, attrs, children) =>
      if (parent < 0 && rows != []) || |rows| >= NODE_LIMIT then None
      else EmitAll(children, rows + [Row(ELEMENT, parent, local, Kept(QualifiedAll(attrs), false))], |rows|)
    case Text(contents) =>
      if parent < 0 then Some(rows)
      else if |rows| >= NODE_LIMIT then None
      else Some(rows + [Row(TEXT, parent, LineBreaks(contents), [])])
    case Other => Some(rows)
  }

  ghost function EmitAll(nodes: seq<HtmlNode>, rows: seq<Row>, parent: int): Option<seq<Row>>
    decreases nodes, 0
  {
    if nodes == [] then Some(rows)
    else
      var first := Emit(nodes[0], rows, parent);
      if first == None then None else EmitAll(nodes[1..], first.value, parent)
  }

  /** The rows with more behind them, unless that is too much. */
  ghost function Within(rows: seq<Row>, more: seq<Row>): Option<seq<Row>> {
    if |rows| + |more| > NODE_LIMIT then None else Some(rows + more)
  }

  lemma WithinTwice(rows: seq<Row>, more: seq<Row>, last: seq<Row>)
    ensures Within(rows + more, last) == Within(rows, more + last)
  {
    Regroup(rows, more, last);
  }

  /** Inside an element, visiting a node adds the rows of what is kept of it. */
  lemma {:induction false} EmitInside(node: HtmlNode, rows: seq<Row>, parent: int)
    requires parent >= 0 && |rows| <= NODE_LIMIT
    ensures Emit(node, rows, parent) == Within(rows, Flat(Items(node), |rows|, parent))
    decreases node, 0
  {
    match node {
      case Document(children) => EmitAllInside(children, rows, parent);
      case Element(local, attrs, children) =>
        if |rows| < NODE_LIMIT { EmitElement(node, rows, parent); }
        SingleFlat(Items(node)[0], |rows|, parent);
      case Text(contents) => SingleFlat(Items(node)[0], |rows|, parent);
      case Other => assert rows + [] == rows;
    }
  }

  lemma {:induction false} EmitElement(node: HtmlNode, rows: seq<Row>, parent: int)
    requires node.Element? && |rows| < NODE_LIMIT && (parent >= 0 || rows == [])
    ensures Emit(node, rows, parent) == Within(rows, FlatItem(Items(node)[0], |rows|, parent))
    decreases node.children, 2
  {
    var row := Row(ELEMENT, parent, node.local, Kept(QualifiedAll(node.attrs), false));
    EmitAllInside(node.children, rows + [row], |rows|);
    Regroup(rows, [row], Flat(ItemsOf(node.children), |rows| + 1, |rows|));
  }

  lemma SingleFlat(item: Item, base: nat, parent: int)
    ensures Flat([item], base, parent) == FlatItem(item, base, parent)
  {
    assert [item][1..] == [];
  }

  lemma {:induction false} EmitAllInside(nodes: seq<HtmlNode>, rows: seq<Row>, parent: int)
    requires parent >= 0 && |rows| <= NODE_LIMIT
    ensures EmitAll(nodes, rows, parent) == Within(rows, Flat(ItemsOf(nodes), |rows|, parent))
    decreases nodes, 1
  {
    if nodes == [] {
      assert rows + [] == rows;
    } else {
      var here, later := Items(nodes[0]), ItemsOf(nodes[1..]);
      EmitInside(nodes[0], rows, parent);
      var more := Flat(here, |rows|, parent);
      FlatConcat(here, later, |rows|, parent);
      if |rows| + |more| <= NODE_LIMIT {
        EmitAllInside(nodes[1..], rows + more, parent);
        WithinTwice(rows, more, Flat(later, |rows| + |more|, parent));
      }
    }
  }

  /** Outside the elements, only one root may come, and only into an empty document. */
  ghost function AtTop(rows: seq<Row>, roots: seq<Item>): Option<seq<Row>> {
    if |roots| > 1 || (roots != [] && rows != []) then None else Within(rows, Flat(roots, |rows|, -1))
  }

  lemma {:induction false} EmitTop(node: HtmlNode, rows: seq<Row>)
    requires |rows| <= NODE_LIMIT
    ensures Emit(node, rows, -1) == AtTop(rows, Roots(Items(node)))
    decreases node, 0
  {
    assert rows + [] == rows;
    match node {
      case Document(children) => EmitAllTop(children, rows);
      case Element(local, attrs, children) =>
        var item := Items(node)[0];
        assert Roots([item]) == [item] + Roots([]) by { assert [item][1..] == []; }
        SingleFlat(item, |rows|, -1);
        if rows == [] { EmitElement(node, rows, -1); }
      case Text(contents) => assert Items(node)[1..] == [];
      case Other =>
    }
  }

  lemma {:induction false} EmitAllTop(nodes: seq<HtmlNode>, rows: seq<Row>)
    requires |rows| <= NODE_LIMIT
    ensures EmitAll(nodes, rows, -1) == AtTop(rows, Roots(ItemsOf(nodes)))
    decreases nodes, 1
  {
    if nodes == [] {
      assert rows + [] == rows;
    } else {
      var here, later := Roots(Items(nodes[0])), Roots(ItemsOf(nodes[1..]));
      EmitTop(nodes[0], rows);
      RootsConcat(Items(nodes[0]), ItemsOf(nodes[1..]));
      var first := Emit(nodes[0], rows, -1);
      if first != None { EmitAllTop(nodes[1..], first.value); }
      if here == [] {
        assert [] + later == later && rows + [] == rows;
      } else if later == [] {
        assert here + [] == here;
        if first != None { assert first.value + [] == first.value; }
      }
    }
  }

  // ----- The tree can be read back from the parents -----

  /** Where the nodes below node `i` end. */
  ghost function EndOf(rows: seq<Row>, i: nat, k: nat, end: nat): (e: nat)
    requires i < k <= end <= |rows|
    ensures k <= e <= end
    decreases end - k
  {
    if k == end || rows[k].parent < i then k else EndOf(rows, i, k + 1, end)
  }

  ghost function ReadItems(rows: seq<Row>, i: nat, end: nat): seq<Item>
    requires i <= end <= |rows|
    decreases end - i
  {
    if i == end then []
    else
      var next := EndOf(rows, i, i + 1, end);
      [if rows[i].kind == ELEMENT then Branch(rows[i].content, rows[i].attributes, ReadItems(rows, i + 1, next))
       else Leaf(rows[i].content)] + ReadItems(rows, next, end)
  }

  /** Below an item, every row's parent is the item or one of the rows below it. */
  lemma {:induction false} ParentsFrom(items: seq<Item>, base: nat, parent: int)
    requires parent < base
    ensures forall row :: row in Flat(items, base, parent) ==> row.parent >= parent
    ensures items != [] ==> Flat(items, base, parent) != [] && Flat(items, base, parent)[0].parent == parent
    decreases items
  {
    if items != [] {
      var first := FlatItem(items[0], base, parent);
      if items[0].Branch? { ParentsFrom(items[0].items, base + 1, base); }
      ParentsFrom(items[1..], base + |first|, parent);
    }
  }

  lemma {:induction false} EndIs(rows: seq<Row>, i: nat, k: nat, end: nat, e: nat)
    requires i < k <= e <= end <= |rows|
    requires forall j :: k <= j < e ==> rows[j].parent >= i
    requires e < end ==> rows[e].parent < i
    ensures EndOf(rows, i, k, end) == e
    decreases e - k
  {
    if k < e { EndIs(rows, i, k + 1, end, e); }
  }

  /** The rows determine what they were made from. */
  lemma {:induction false} ReadBack(rows: seq<Row>, i: nat, end: nat, items: seq<Item>, parent: int)
    requires i <= end <= |rows| && parent < i
    requires rows[i..end] == Flat(items, i, parent)
    ensures ReadItems(rows, i, end) == items
    decreases items
  {
    if items != [] {
      var first := FlatItem(items[0], i, parent);
      var next := i + |first|;
      var rest := Flat(items[1..], next, parent);
      SliceParts(rows, i, end, first, rest);
      ReadBack(rows, next, end, items[1..], parent);
      ItemEnds(rows, i, end, items, parent);
      if items[0].Branch? {
        SliceParts(rows, i, next, [first[0]], Flat(items[0].items, i + 1, i));
        ReadBack(rows, i + 1, next, items[0].items, i);
      }
      assert items == [items[0]] + items[1..];
    }
  }

  lemma SliceParts<T>(s: seq<T>, i: nat, end: nat, first: seq<T>, rest: seq<T>)
    requires i <= end <= |s| && s[i..end] == first + rest
    ensures i + |first| + |rest| == end
    ensures s[i..i + |first|] == first && s[i + |first|..end] == rest
    ensures first != [] ==> s[i] == first[0]
  {
    assert s[i..end][..|first|] == first && s[i..end][|first|..] == rest;
    if first != [] { assert s[i..end][0] == s[i]; }
  }

  /** The rows below the first item end where its rows end. */
  lemma ItemEnds(rows: seq<Row>, i: nat, end: nat, items: seq<Item>, parent: int)
    requires i < end <= |rows| && parent < i && items != []
    requires rows[i..end] == Flat(items, i, parent)
    ensures var first := FlatItem(items[0], i, parent);
      i + |first| <= end && EndOf(rows, i, i + 1, end) == i + |first| && rows[i] == first[0]
  {
    var first := FlatItem(items[0], i, parent);
    var next := i + |first|;
    var rest := Flat(items[1..], next, parent);
    SliceParts(rows, i, end, first, rest);
    ParentsFrom(items[1..], next, parent);
    if next < end { assert rows[next..end][0] == rows[next]; }
    if items[0].Branch? {
      var below := Flat(items[0].items, i + 1, i);
      SliceParts(rows, i, next, [first[0]], below);
      ParentsFrom(items[0].items, i + 1, i);
      forall j | i + 1 <= j < next ensures rows[j].parent >= i {
        assert rows[j] == rows[i + 1..next][j - i - 1] && rows[j] in below;
      }
    }
    EndIs(rows, i, i + 1, end, next);
  }

  // ----- The explicit stack -----

  datatype Action = Visit(node: HtmlNode) | Close

  /** What is left to do, last first, brings the rows to. */
  ghost function Remaining(work: seq<Action>, rows: seq<Row>, open: seq<int>): Option<seq<Row>> {
    if work == [] then Some(rows)
    else
      var rest := work[..|work| - 1];
      match work[|work| - 1]
      case Close => if open == [] then None else Remaining(rest, rows, open[..|open| - 1])
      case Visit(node) =>
        var r := Emit(node, rows, if open == [] then -1 else open[|open| - 1]);
        if r == None then None else Remaining(rest, r.value, open)
  }

  ghost function Closers(work: seq<Action>): nat {
    if work == [] then 0 else Closers(work[..|work| - 1]) + if work[|work| - 1] == Close then 1 else 0
  }

  /** The children of a node, pushed last first. */
  ghost function Visits(nodes: seq<HtmlNode>): seq<Action> {
    if nodes == [] then [] else Visits(nodes[1..]) + [Visit(nodes[0])]
  }

  lemma {:induction false} RemainingVisits(work: seq<Action>, nodes: seq<HtmlNode>, rows: seq<Row>, open: seq<int>)
    ensures Remaining(work + Visits(nodes), rows, open) ==
      var r := EmitAll(nodes, rows, if open == [] then -1 else open[|open| - 1]);
      if r == None then None else Remaining(work, r.value, open)
    ensures Closers(work + Visits(nodes)) == Closers(work)
    decreases nodes
  {
    if nodes == [] {
      assert work + [] == work;
    } else {
      var all := work + Visits(nodes);
      Regroup(work, Visits(nodes[1..]), [Visit(nodes[0])]);
      assert all == work + Visits(nodes[1..]) + [Visit(nodes[0])];
      assert all[..|all| - 1] == work + Visits(nodes[1..]);
      var r := Emit(nodes[0], rows, if open == [] then -1 else open[|open| - 1]);
      RemainingVisits(work, nodes[1..], if r == None then rows else r.value, open);
    }
  }

  // ----- Its size, for termination -----

  ghost function Size(node: HtmlNode): (r: nat)
    ensures r > 0
    decreases node, 0
  {
    match node
    case Document(children) => 1 + SizeAll(children)
    case Element(local, attrs, children) => 2 + SizeAll(children)
    case _ => 1
  }

  ghost function SizeAll(nodes: seq<HtmlNode>): nat
    decreases nodes, 0
  {
    if nodes == [] then 0 else Size(nodes[0]) + SizeAll(nodes[1..])
  }

  ghost function WorkSize(work: seq<Action>): nat {
    if work == [] then 0
    else WorkSize(work[..|work| - 1]) + if work[|work| - 1].Visit? then Size(work[|work| - 1].node) else 1
  }

  lemma {:induction false} WorkSizeVisits(work: seq<Action>, nodes: seq<HtmlNode>)
    ensures WorkSize(work + Visits(nodes)) == WorkSize(work) + SizeAll(nodes)
    decreases nodes
  {
    if nodes == [] {
      assert work + [] == work;
    } else {
      var all := work + Visits(nodes);
      Regroup(work, Visits(nodes[1..]), [Visit(nodes[0])]);
      assert all[..|all| - 1] == work + Visits(nodes[1..]);
      WorkSizeVisits(work, nodes[1..]);
    }
  }

  method PushChildren(work: seq<Action>, children: seq<HtmlNode>) returns (r: seq<Action>)
    ensures r == work + Visits(children)
  {
    r := work;
    assert work + [] == work;
    for i := |children| downto 0
      invariant r == work + Visits(children[i..])
    {
      r := r + [Visit(children[i])];
      SuffixNext(children, i);
      Regroup(work, Visits(children[i + 1..]), [Visit(children[i])]);
    }
  }

  method TurnElement(builder: Builder, node: HtmlNode, work: seq<Action>) returns (ok: bool, next: seq<Action>)
    requires builder.Valid() && node.Element? && Closers(work) == |builder.open| && !builder.namespaces
    modifies builder`data, builder`open, builder`nameIds
    ensures builder.Valid() && (ok && Exact(old(builder.data)) ==> Exact(builder.data))
    ensures ok ==> Closers(next) == |builder.open| && WorkSize(next) < WorkSize(work) + Size(node)
    ensures var r := Emit(node, Rows(old(builder.data)), Top(old(builder.open)));
      if ok then
        Remaining(next, Rows(builder.data), Indices(builder.open))
        == if r == None then None else Remaining(work, r.value, Indices(old(builder.open)))
      else r == None
  {
    ghost var rows, open := Rows(builder.data), Indices(builder.open);
    ok := builder.Start(node.local, QualifiedAll(node.attrs));
    if !ok { return ok, work; }
    assert Indices(builder.open) == open + [|rows|];
    AfterStart(work, node.children, Rows(builder.data), open, |rows|);
    next := PushChildren(work + [Close], node.children);
  }

  /** Visits a node: an element leaves its children and its closing to do, and a document its children. */
  method TurnVisit(builder: Builder, node: HtmlNode, work: seq<Action>) returns (ok: bool, next: seq<Action>)
    requires builder.Valid() && Closers(work) == |builder.open| && !builder.namespaces
    modifies builder`data, builder`open, builder`nameIds
    ensures builder.Valid() && (ok && Exact(old(builder.data)) ==> Exact(builder.data))
    ensures ok ==> Closers(next) == |builder.open| && WorkSize(next) < WorkSize(work) + Size(node)
    ensures var r := Emit(node, Rows(old(builder.data)), Top(old(builder.open)));
      if ok then
        Remaining(next, Rows(builder.data), Indices(builder.open))
        == if r == None then None else Remaining(work, r.value, Indices(old(builder.open)))
      else r == None
  {
    ok, next := true, work;
    match node {
      case Element(local, attrs, children) =>
        ok, next := TurnElement(builder, node, work);
      case Text(contents) =>
        ok := builder.Text(LineBreaks(contents), false);
      case Document(children) =>
        RemainingVisits(work, children, Rows(builder.data), Indices(builder.open));
        WorkSizeVisits(work, children);
        next := PushChildren(work, children);
      case Other =>
    }
  }

  /** Closes the innermost element. */
  method TurnClose(builder: Builder) returns (ok: bool)
    requires builder.Valid()
    modifies builder`open
    ensures builder.Valid() && ok == (old(builder.open) != [])
    ensures var open := Indices(old(builder.open));
      ok ==> |builder.open| == |open| - 1 && Indices(builder.open) == open[..|open| - 1]
  {
    ghost var open := Indices(builder.open);
    ok := builder.End(None);
    assert ok ==> Indices(builder.open) == open[..|open| - 1];
  }

  /** What closing an element leaves to do. */
  lemma CloseLeft(work: seq<Action>, rows: seq<Row>, open: seq<int>)
    ensures Remaining(work + [Close], rows, open) ==
      if open == [] then None else Remaining(work, rows, open[..|open| - 1])
    ensures Closers(work + [Close]) == Closers(work) + 1 && WorkSize(work + [Close]) == WorkSize(work) + 1
  {
    PushLast(work, Close);
  }

  /** What visiting a node leaves to do. */
  lemma VisitLeft(work: seq<Action>, node: HtmlNode, rows: seq<Row>, open: seq<int>)
    ensures Remaining(work + [Visit(node)], rows, open) ==
      var r := Emit(node, rows, if open == [] then -1 else open[|open| - 1]);
      if r == None then None else Remaining(work, r.value, open)
    ensures Closers(work + [Visit(node)]) == Closers(work)
    ensures WorkSize(work + [Visit(node)]) == WorkSize(work) + Size(node)
  {
    PushLast(work, Visit(node));
  }

  /** Takes the last action from the stack and does it. */
  method Turn(builder: Builder, work: seq<Action>) returns (ok: bool, next: seq<Action>)
    requires builder.Valid() && work != [] && Closers(work) == |builder.open| && !builder.namespaces
    modifies builder`data, builder`open, builder`nameIds
    ensures builder.Valid() && (ok && Exact(old(builder.data)) ==> Exact(builder.data))
    ensures !ok ==> Remaining(work, Rows(old(builder.data)), Indices(old(builder.open))) == None
    ensures ok ==> Closers(next) == |builder.open| && WorkSize(next) < WorkSize(work)
    ensures ok ==> Remaining(next, Rows(builder.data), Indices(builder.open))
                   == Remaining(work, Rows(old(builder.data)), Indices(old(builder.open)))
  {
    var last := work[|work| - 1];
    next := work[..|work| - 1];
    ghost var rows, open := Rows(builder.data), Indices(builder.open);
    assert work == next + [last];
    match last {
      case Close =>
        CloseLeft(next, rows, open);
        ok := TurnClose(builder);
      case Visit(node) =>
        VisitLeft(next, node, rows, open);
        ok, next := TurnVisit(builder, node, next);
    }
  }

  /** The children come first, and then the element is closed. */
  lemma AfterStart(work: seq<Action>, children: seq<HtmlNode>, rows: seq<Row>, open: seq<int>, index: nat)
    ensures Remaining(work + [Close] + Visits(children), rows, open + [index]) ==
      var r := EmitAll(children, rows, index);
      if r == None then None else Remaining(work, r.value, open)
    ensures Closers(work + [Close] + Visits(children)) == Closers(work) + 1
    ensures WorkSize(work + [Close] + Visits(children)) == WorkSize(work) + 1 + SizeAll(children)
  {
    var more := work + [Close];
    assert more[..|more| - 1] == work && (open + [index])[..|open|] == open;
    RemainingVisits(more, children, rows, open + [index]);
    WorkSizeVisits(more, children);
  }

  /**
   The document of an HTML tree: there is one exactly when the tree has one
   outermost element and is not too large, and its rows are the preorder of
   what is kept of that element.
   */
  method ParseHtml(dom: HtmlNode) returns (document: Option<NativeDocument>)
    ensures document.Some? ==> Sound(document.value) && Exact(document.value)
    ensures document.Some? ==> Rows(document.value) == Flat(Roots(Items(dom)), 0, -1)
    ensures document.Some? <==> |Roots(Items(dom))| == 1 && |Flat(Roots(Items(dom)), 0, -1)| <= NODE_LIMIT
  {
    var work := [Visit(dom)];
    var builder := new Builder(false);
    ghost var goal := AtTop([], Roots(Items(dom)));
    EmitTop(dom, []);
    assert Indices([]) == [] && work[..0] == [];
    assert [] + Flat(Roots(Items(dom)), 0, -1) == Flat(Roots(Items(dom)), 0, -1);
    while work != []
      invariant builder.Valid() && Exact(builder.data) && fresh(builder) && !builder.namespaces
      invariant Closers(work) == |builder.open|
      invariant Remaining(work, Rows(builder.data), Indices(builder.open)) == goal
      decreases WorkSize(work)
    {
      var ok;
      ok, work := Turn(builder, work);
      if !ok { return None; }
    }
    document := builder.Finish();
  }

  /** The document of a tree is one and the same, in all its columns. */
  lemma OneDocument(dom: HtmlNode, d: NativeDocument, e: NativeDocument)
    requires Sound(d) && Exact(d) && Rows(d) == Flat(Roots(Items(dom)), 0, -1)
    requires Sound(e) && Exact(e) && Rows(e) == Flat(Roots(Items(dom)), 0, -1)
    ensures d == e
  {
    RowsDetermine(d, e);
  }

  /** A finished HTML document gives back everything that is kept of the tree. */
  lemma DocumentReadsBack(dom: HtmlNode, rows: seq<Row>)
    requires rows == Flat(Roots(Items(dom)), 0, -1)
    ensures ReadItems(rows, 0, |rows|) == Roots(Items(dom))
  {
    assert rows[0..|rows|] == rows;
    ReadBack(rows, 0, |rows|, Roots(Items(dom)), -1);
  }
}
