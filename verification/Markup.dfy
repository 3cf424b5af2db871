/**
 The builder that appends the nodes of a markup document as they open and
 close, and the HTML parser that drives it with an explicit stack of work.
 */
module Markup {
  import opened MarkupTree
  import opened Sequences

  datatype Option<T> = None | Some(value: T)

  const NODE_LIMIT := 10_000_000

  type Attribute = (string, string)

  datatype NativeDocument = NativeDocument(columns: Columns, qualifiedNames: seq<string>,
                                           attributeNames: seq<string>, attributeValues: seq<string>,
                                           texts: seq<string>)

  /** What the columns say of one node. */
  datatype Row = Row(kind: int, parent: int, content: string, attributes: seq<Attribute>)

  const Nothing := NativeDocument(Columns([], [], [], [], [], [], [], [], [], []), [], [], [], [])

  // ----- What a sound document is -----

  /** The attributes of the nodes tile the attribute arrays, in the order of the nodes. */
  ghost predicate TiledAt(d: NativeDocument, i: int) {
    && 0 <= i < |d.columns.attributeStarts| == |d.columns.attributeCounts|
    && 0 <= d.columns.attributeStarts[i] && 0 <= d.columns.attributeCounts[i]
    && (i == 0 ==> d.columns.attributeStarts[i] == 0)
    && d.columns.attributeStarts[i] + d.columns.attributeCounts[i] ==
         (if i + 1 < |d.columns.attributeStarts| then d.columns.attributeStarts[i + 1] else |d.attributeNames|)
    && d.columns.attributeStarts[i] + d.columns.attributeCounts[i] <= |d.attributeNames| == |d.attributeValues|
  }

  /** An element's name and a text's value are there to be looked up. */
  ghost predicate NamedAt(d: NativeDocument, i: int) {
    && 0 <= i < |d.columns.kinds| == |d.columns.names|
    && d.columns.kinds[i] in {ELEMENT, TEXT, CDATA}
    && 0 <= d.columns.names[i] < if d.columns.kinds[i] == ELEMENT then |d.qualifiedNames| else |d.texts|
  }

  ghost predicate Tiled(d: NativeDocument) {
    && |d.attributeNames| == |d.attributeValues|
    && (d.columns.kinds == [] ==> d.attributeNames == [])
    && forall i :: 0 <= i < |d.columns.kinds| ==> TiledAt(d, i)
  }

  ghost predicate Named(d: NativeDocument) {
    && (forall i :: 0 <= i < |d.columns.kinds| ==> NamedAt(d, i))
    && (forall i :: 0 <= i < |d.columns.kinds| ==> ParentIsElement(d, i))
  }

  ghost predicate ParentIsElement(d: NativeDocument, i: int) {
    0 <= i < |d.columns.parents| && -1 <= d.columns.parents[i] < i
    && (d.columns.parents[i] >= 0 ==>
      d.columns.parents[i] < |d.columns.kinds| && d.columns.kinds[d.columns.parents[i]] == ELEMENT)
  }

  /** No element name is stored twice. */
  ghost predicate Distinct(names: seq<string>) {
    forall i, j :: 0 <= i < j < |names| ==> names[i] != names[j]
  }

  ghost predicate Sound(d: NativeDocument) {
    && SameLength(d.columns) && Linked(d.columns) && Preorder(d.columns.parents)
    && Tiled(d) && Named(d) && Distinct(d.qualifiedNames)
  }

  type Document = d: NativeDocument | Sound(d) ghost witness Nothing

  ghost function RowAt(d: Document, i: int): Row
    requires 0 <= i < |d.columns.kinds|
  {
    assert NamedAt(d, i) && TiledAt(d, i);
    var c := d.columns;
    Row(c.kinds[i], c.parents[i], if c.kinds[i] == ELEMENT then d.qualifiedNames[c.names[i]] else d.texts[c.names[i]],
        Pairs(d.attributeNames, d.attributeValues, c.attributeStarts[i], c.attributeStarts[i] + c.attributeCounts[i]))
  }

  ghost function Pairs(keys: seq<string>, values: seq<string>, i: int, j: int): seq<Attribute>
    requires 0 <= i <= j <= |keys| == |values|
  {
    seq(j - i, k requires 0 <= k < j - i => (keys[i + k], values[i + k]))
  }

  ghost function Rows(d: Document): seq<Row> {
    seq(|d.columns.kinds|, i requires 0 <= i < |d.columns.kinds| => RowAt(d, i))
  }

  // ----- What appending does to it -----

  /** The new last node's attributes start where the arrays end. */
  ghost function WithNode(d: Document, kind: int, parent: int, name: int): NativeDocument
    requires -1 <= parent < |d.columns.kinds|
    requires parent >= 0 ==> -1 <= d.columns.lastChildren[parent] < |d.columns.kinds|
  {
    d.(columns := Appended(d.columns, kind, parent, name, |d.attributeNames|))
  }

  lemma ParentsBelow(d: Document)
    ensures forall i :: 0 <= i < |d.columns.parents| ==> d.columns.parents[i] < i
    ensures forall i :: 0 <= i < |d.columns.kinds| ==>
      LinkedAt(d.columns, i) && -1 <= d.columns.lastChildren[i] < |d.columns.kinds|
  {
    forall i | 0 <= i < |d.columns.parents| ensures d.columns.parents[i] < i { assert ParentIsElement(d, i); }
    forall i | 0 <= i < |d.columns.kinds|
      ensures LinkedAt(d.columns, i)
      ensures -1 <= d.columns.lastChildren[i] < |d.columns.kinds| { assert LinkedAt(d.columns, i); }
  }

  ghost predicate MayHold(d: Document, kind: int, parent: int, name: int) {
    && kind in {ELEMENT, TEXT, CDATA} && 0 <= name < (if kind == ELEMENT then |d.qualifiedNames| else |d.texts|)
    && (if d.columns.kinds == [] then parent == -1
        else 0 <= parent < |d.columns.kinds| && d.columns.kinds[parent] == ELEMENT
             && parent in PathTo(d.columns.parents, |d.columns.parents| - 1))
  }

  lemma NodeKeepsSound(d: Document, kind: int, parent: int, name: int)
    requires MayHold(d, kind, parent, name)
    ensures parent >= 0 ==> -1 <= d.columns.lastChildren[parent] < |d.columns.kinds|
    ensures Sound(WithNode(d, kind, parent, name))
  {
    ParentsBelow(d);
    AppendedLinked(d.columns, kind, parent, name, |d.attributeNames|);
    PreorderPush(d.columns.parents, parent);
    var e, n := WithNode(d, kind, parent, name), |d.columns.kinds|;
    forall i | 0 <= i < n + 1 ensures TiledAt(e, i) && NamedAt(e, i) && ParentIsElement(e, i) {
      if i < n { assert TiledAt(d, i) && NamedAt(d, i) && ParentIsElement(d, i); }
      if n > 0 { assert TiledAt(d, n - 1); }
    }
  }

  ghost function NewRow(d: NativeDocument, kind: int, parent: int, name: int): Row
    requires 0 <= name < if kind == ELEMENT then |d.qualifiedNames| else |d.texts|
  {
    Row(kind, parent, if kind == ELEMENT then d.qualifiedNames[name] else d.texts[name], [])
  }

  lemma NodeAddsRow(d: Document, kind: int, parent: int, name: int)
    requires MayHold(d, kind, parent, name)
    ensures parent >= 0 ==> -1 <= d.columns.lastChildren[parent] < |d.columns.kinds|
    ensures Sound(WithNode(d, kind, parent, name))
    ensures Rows(WithNode(d, kind, parent, name)) == Rows(d) + [NewRow(d, kind, parent, name)]
  {
    NodeKeepsSound(d, kind, parent, name);
    var e, n := WithNode(d, kind, parent, name), |d.columns.kinds|;
    forall i | 0 <= i < n ensures RowAt(e, i) == RowAt(d, i) { OldRowKept(d, e, i); }
    NewRowThere(e);
    RowsPushed(d, e);
  }

  lemma RowsPushed(d: Document, e: Document)
    requires |e.columns.kinds| == |d.columns.kinds| + 1
    requires forall i :: 0 <= i < |d.columns.kinds| ==> RowAt(e, i) == RowAt(d, i)
    ensures Rows(e) == Rows(d) + [RowAt(e, |d.columns.kinds|)]
  {
  }

  /** What is said of a node stays when entries are added behind those of the columns and the arrays. */
  lemma OldRowKept(d: Document, e: Document, i: nat)
    requires i < |d.columns.kinds| <= |e.columns.kinds|
    requires d.columns.kinds <= e.columns.kinds && d.columns.parents <= e.columns.parents
    requires d.columns.names <= e.columns.names
    requires d.columns.attributeStarts <= e.columns.attributeStarts
    requires d.columns.attributeCounts[i] == e.columns.attributeCounts[i]
    requires d.qualifiedNames <= e.qualifiedNames && d.texts <= e.texts
    requires d.attributeNames == e.attributeNames && d.attributeValues == e.attributeValues
    ensures RowAt(e, i) == RowAt(d, i)
  {
    assert TiledAt(d, i) && NamedAt(d, i);
  }

  lemma NewRowThere(e: Document)
    requires e.columns.kinds != []
    requires e.columns.attributeCounts[|e.columns.kinds| - 1] == 0
    ensures var n := |e.columns.kinds| - 1;
      && NamedAt(e, n) && RowAt(e, n) == NewRow(e, e.columns.kinds[n], e.columns.parents[n], e.columns.names[n])
  {
    var n := |e.columns.kinds| - 1;
    assert TiledAt(e, n) && NamedAt(e, n);
    assert RowAt(e, n).attributes == [];
  }

  /** A name or a text more changes no node. */
  lemma NameKept(d: Document, name: string)
    requires name !in d.qualifiedNames
    ensures var e := d.(qualifiedNames := d.qualifiedNames + [name]); Sound(e) && Rows(e) == Rows(d)
  {
    var e := d.(qualifiedNames := d.qualifiedNames + [name]);
    forall i | 0 <= i < |d.columns.kinds| ensures TiledAt(e, i) && NamedAt(e, i) && ParentIsElement(e, i) {
      assert TiledAt(d, i) && NamedAt(d, i) && ParentIsElement(d, i);
    }
    assert Sound(e);
    forall i | 0 <= i < |d.columns.kinds| ensures RowAt(e, i) == RowAt(d, i) { assert NamedAt(d, i) && TiledAt(d, i); }
  }

  lemma TextKept(d: Document, text: string)
    ensures var e := d.(texts := d.texts + [text]); Sound(e) && Rows(e) == Rows(d)
  {
    var e := d.(texts := d.texts + [text]);
    forall i | 0 <= i < |d.columns.kinds| ensures TiledAt(e, i) && NamedAt(e, i) && ParentIsElement(e, i) {
      assert TiledAt(d, i) && NamedAt(d, i) && ParentIsElement(d, i);
    }
    assert Sound(e);
    forall i | 0 <= i < |d.columns.kinds| ensures RowAt(e, i) == RowAt(d, i) { assert NamedAt(d, i) && TiledAt(d, i); }
  }

  ghost function WithAttribute(d: Document, a: Attribute): NativeDocument
    requires d.columns.kinds != []
  {
    var n, counts := |d.columns.kinds|, d.columns.attributeCounts;
    d.(attributeNames := d.attributeNames + [a.0], attributeValues := d.attributeValues + [a.1],
       columns := d.columns.(attributeCounts := counts[n - 1 := counts[n - 1] + 1]))
  }

  ghost function Extended(rows: seq<Row>, a: Attribute): seq<Row>
    requires rows != []
  {
    var last := rows[|rows| - 1];
    rows[..|rows| - 1] + [last.(attributes := last.attributes + [a])]
  }

  /** An attribute more belongs to the last node. */
  lemma AttributeAdded(d: Document, a: Attribute)
    requires d.columns.kinds != []
    ensures Sound(WithAttribute(d, a))
    ensures Rows(WithAttribute(d, a)) == Extended(Rows(d), a)
  {
    var e, n := WithAttribute(d, a), |d.columns.kinds|;
    AttributeKeepsSound(d, a);
    forall i | 0 <= i < n - 1 ensures RowAt(e, i) == RowAt(d, i) {
      assert TiledAt(d, i) && NamedAt(d, i) && TiledAt(e, i);
    }
    LastRowLonger(d, a);
  }

  lemma AttributeKeepsSound(d: Document, a: Attribute)
    requires d.columns.kinds != []
    ensures Sound(WithAttribute(d, a))
  {
    var e, n := WithAttribute(d, a), |d.columns.kinds|;
    forall i | 0 <= i < n ensures TiledAt(e, i) && NamedAt(e, i) && ParentIsElement(e, i) && LinkedAt(e.columns, i) {
      assert TiledAt(d, i) && NamedAt(d, i) && ParentIsElement(d, i) && LinkedAt(d.columns, i);
      if i + 1 < n { assert TiledAt(d, i + 1); }
      LastEndsAll(d, i);
    }
  }

  lemma LastRowLonger(d: Document, a: Attribute)
    requires d.columns.kinds != [] && Sound(WithAttribute(d, a))
    ensures var n, r := |d.columns.kinds| - 1, RowAt(d, |d.columns.kinds| - 1);
      RowAt(WithAttribute(d, a), n) == r.(attributes := r.attributes + [a])
  {
    var e, n := WithAttribute(d, a), |d.columns.kinds|;
    assert TiledAt(d, n - 1) && NamedAt(d, n - 1) && TiledAt(e, n - 1);
    var s := d.columns.attributeStarts[n - 1];
    assert Pairs(e.attributeNames, e.attributeValues, s, |e.attributeNames|) ==
           Pairs(d.attributeNames, d.attributeValues, s, |d.attributeNames|) + [a];
  }

  lemma {:induction false} LastEndsAll(d: Document, i: int)
    requires 0 <= i < |d.columns.kinds|
    ensures TiledAt(d, i) && d.columns.attributeStarts[i] + d.columns.attributeCounts[i] <= |d.attributeNames|
  {
    assert TiledAt(d, i);
  }

  // ----- Open elements and interned names -----

  ghost function Indices(open: seq<(nat, string)>): seq<int> {
    seq(|open|, k requires 0 <= k < |open| => open[k].0 as int)
  }

  ghost predicate OpenAt(d: NativeDocument, entry: (nat, string)) {
    && entry.0 < |d.columns.kinds| == |d.columns.names| && d.columns.kinds[entry.0] == ELEMENT
    && 0 <= d.columns.names[entry.0] < |d.qualifiedNames| && d.qualifiedNames[d.columns.names[entry.0]] == entry.1
  }

  /** The open elements are the first part of the path from the root to the last node, with their names. */
  ghost predicate Opened(d: NativeDocument, open: seq<(nat, string)>) {
    open != [] ==> OnPath(d.columns.parents, Indices(open)) && forall k :: 0 <= k < |open| ==> OpenAt(d, open[k])
  }

  ghost predicate Interned(names: seq<string>, ids: map<string, int>) {
    && (forall s :: s in ids <==> s in names)
    && (forall s :: s in ids ==> 0 <= ids[s] < |names| && names[ids[s]] == s)
  }

  /** The attributes that are kept: without namespaces, their declarations are dropped. */
  function IsDeclaration(key: string): bool {
    key == "xmlns" || "xmlns:" <= key
  }

  ghost function Kept(attributes: seq<Attribute>, namespaces: bool): seq<Attribute> {
    if attributes == [] then []
    else
      var last := attributes[|attributes| - 1];
      Kept(attributes[..|attributes| - 1], namespaces) + if !namespaces && IsDeclaration(last.0) then [] else [last]
  }

  ghost function Top(open: seq<(nat, string)>): int {
    if open == [] then -1 else open[|open| - 1].0
  }

  ghost predicate SameNodes(d: NativeDocument, e: NativeDocument) {
    && d.columns.kinds == e.columns.kinds && d.columns.parents == e.columns.parents
    && d.columns.names == e.columns.names && d.qualifiedNames == e.qualifiedNames && d.texts == e.texts
  }

  ghost function Attributed(rows: seq<Row>, attributes: seq<Attribute>): seq<Row>
    requires rows != []
  {
    var last := rows[|rows| - 1];
    rows[..|rows| - 1] + [last.(attributes := attributes)]
  }

  lemma AttributedNext(rows: seq<Row>, attributes: seq<Attribute>, a: Attribute)
    requires rows != []
    ensures Extended(Attributed(rows, attributes), a) == Attributed(rows, attributes + [a])
  {
  }

  lemma KeptNext(attributes: seq<Attribute>, namespaces: bool, i: nat)
    requires i < |attributes|
    ensures Kept(attributes[..i + 1], namespaces) ==
      if !namespaces && IsDeclaration(attributes[i].0) then Kept(attributes[..i], namespaces)
      else Kept(attributes[..i], namespaces) + [attributes[i]]
  {
    assert attributes[..i + 1][..i] == attributes[..i];
  }

  // ----- Names and texts in their order -----

  /** Names with one more, unless it is there. */
  ghost function WithName(names: seq<string>, name: string): seq<string> {
    if name in names then names else names + [name]
  }

  /** The element names of the rows, each where it occurs first. */
  ghost function FirstNames(rows: seq<Row>): seq<string> {
    if rows == [] then []
    else
      var last, names := rows[|rows| - 1], FirstNames(rows[..|rows| - 1]);
      if last.kind == ELEMENT then WithName(names, last.content) else names
  }

  /** The texts of the rows, in their order. */
  ghost function TextsOf(rows: seq<Row>): seq<string> {
    if rows == [] then []
    else TextsOf(rows[..|rows| - 1]) + if rows[|rows| - 1].kind == ELEMENT then [] else [rows[|rows| - 1].content]
  }

  /** Names are interned in the order in which they first occur, and every text has its own place. */
  ghost predicate Exact(d: Document) {
    && d.qualifiedNames == FirstNames(Rows(d)) && d.texts == TextsOf(Rows(d))
    && forall i :: 0 <= i < |d.columns.kinds| ==> OwnText(d, i)
  }

  ghost predicate OwnText(d: Document, i: int) {
    0 <= i < |d.columns.kinds| && (d.columns.kinds[i] != ELEMENT ==> d.columns.names[i] == |TextsOf(Rows(d)[..i])|)
  }

  /** A row more keeps the order. */
  lemma RowExact(d: Document, e: Document, row: Row, name: int)
    requires Exact(d) && Rows(e) == Rows(d) + [row]
    requires e.columns.kinds == d.columns.kinds + [row.kind] && e.columns.names == d.columns.names + [name]
    requires row.kind == ELEMENT ==> e.texts == d.texts && e.qualifiedNames == WithName(d.qualifiedNames, row.content)
    requires row.kind != ELEMENT ==> e.qualifiedNames == d.qualifiedNames
    requires row.kind != ELEMENT ==> e.texts == d.texts + [row.content] && name == |d.texts|
    ensures Exact(e)
  {
    var n := |d.columns.kinds|;
    PushLast(Rows(d), row);
    forall i | 0 <= i < n + 1 ensures OwnText(e, i) {
      assert Rows(e)[..i] == Rows(d)[..i];
      if i < n { assert OwnText(d, i); } else { assert Rows(d)[..i] == Rows(d); }
    }
  }

  class Builder {
    var data: NativeDocument
    var open: seq<(nat, string)>
    var nameIds: map<string, int>
    var namespaces: bool

    ghost predicate Valid()
      reads this
    {
      && Sound(data) && Opened(data, open) && Interned(data.qualifiedNames, nameIds)
      && |data.columns.kinds| <= NODE_LIMIT
    }

    constructor (namespaces: bool)
      ensures Valid() && Rows(data) == [] && Exact(data) && open == [] && this.namespaces == namespaces
    {
      data, open, nameIds := Nothing, [], map[];
      this.namespaces := namespaces;
    }

    /** Appends a node under the innermost open element and links it behind its last child. */
    method Node(kind: int, name: int) returns (ok: bool, index: nat)
      requires Valid() && kind in {ELEMENT, TEXT, CDATA}
      requires 0 <= name < if kind == ELEMENT then |data.qualifiedNames| else |data.texts|
      requires open == [] ==> data.columns.kinds == []
      modifies this`data
      ensures Valid() && ok == (|old(data).columns.kinds| < NODE_LIMIT)
      ensures !ok ==> data == old(data)
      ensures data.qualifiedNames == old(data.qualifiedNames) && data.texts == old(data.texts)
      ensures ok ==> index == |Rows(old(data))| && OnPath(data.columns.parents, Indices(open) + [index])
      ensures ok ==> Rows(data) == Rows(old(data)) + [NewRow(data, kind, Top(open), name)]
      ensures ok ==> data.columns.kinds == old(data).columns.kinds + [kind]
      ensures ok ==> data.columns.names == old(data).columns.names + [name]
    {
      index := |data.columns.kinds|;
      if index >= NODE_LIMIT { return false, index; }
      ghost var next := NodeAdded(data, open, kind, name);
      Append(kind, if open == [] then -1 else open[|open| - 1].0 as int, name);
      assert data == next;
      ok := true;
    }

    /** Looks the name up, and stores it when it is new. */
    method Intern(name: string) returns (id: int)
      requires Valid()
      modifies this`data, this`nameIds
      ensures Valid() && Rows(data) == Rows(old(data)) && data.columns == old(data).columns
      ensures data.texts == old(data).texts && data.qualifiedNames == WithName(old(data).qualifiedNames, name)
      ensures 0 <= id < |data.qualifiedNames| && data.qualifiedNames[id] == name
    {
      ghost var was: Document := data;
      if name !in nameIds {
        NameKept(was, name);
        data := data.(qualifiedNames := data.qualifiedNames + [name]);
        nameIds := nameIds[name := |data.qualifiedNames| - 1];
        forall k | 0 <= k < |open| && open != [] ensures OpenAt(data, open[k]) { assert OpenAt(was, open[k]); }
      }
      id := nameIds[name];
    }

    method AttachOne(key: string, value: string)
      requires Valid() && data.columns.kinds != []
      modifies this`data
      ensures Valid() && SameNodes(data, old(data)) && Rows(data) == Extended(Rows(old(data)), (key, value))
    {
      ghost var now: Document := data;
      AttributeAdded(now, (key, value));
      var c, last := data.columns, |data.columns.kinds| - 1;
      data := data.(attributeNames := data.attributeNames + [key], attributeValues := data.attributeValues + [value],
                    columns := c.(attributeCounts := c.attributeCounts[last := c.attributeCounts[last] + 1]));
      assert data == WithAttribute(now, (key, value));
      forall k | 0 <= k < |open| && open != [] ensures OpenAt(data, open[k]) { assert OpenAt(now, open[k]); }
    }

    /** The attributes of the last node, those that are kept. */
    method Attach(attributes: seq<Attribute>)
      requires Valid() && data.columns.kinds != [] && Rows(data)[|Rows(data)| - 1].attributes == []
      modifies this`data
      ensures Valid() && SameNodes(data, old(data))
      ensures Rows(data) == Attributed(Rows(old(data)), Kept(attributes, namespaces))
    {
      ghost var was, rows, kept := data, Rows(data), [];
      assert Attributed(rows, []) == rows;
      for i := 0 to |attributes|
        invariant Valid() && SameNodes(data, was)
        invariant kept == Kept(attributes[..i], namespaces) && Rows(data) == Attributed(rows, kept)
      {
        var (key, value) := attributes[i];
        KeptNext(attributes, namespaces, i);
        if !namespaces && IsDeclaration(key) { continue; }
        AttributedNext(rows, kept, attributes[i]);
        AttachOne(key, value);
        kept := kept + [attributes[i]];
      }
      assert attributes[..|attributes|] == attributes;
    }

    /** Opens an element: there may be only one outermost one. */
    method Start(name: string, attributes: seq<Attribute>) returns (ok: bool)
      requires Valid()
      modifies this`data, this`nameIds, this`open
      ensures Valid()
      ensures ok == ((old(open) != [] || Rows(old(data)) == []) && |Rows(old(data))| < NODE_LIMIT)
      ensures !ok ==> open == old(open) && Rows(data) == Rows(old(data))
      ensures ok ==> open == old(open) + [(|Rows(old(data))|, name)]
      ensures ok ==> Rows(data) == Rows(old(data)) + [Row(ELEMENT, Top(old(open)), name, Kept(attributes, namespaces))]
      ensures ok && Exact(old(data)) ==> Exact(data)
    {
      ok := open != [] || data.columns.kinds == [];
      if !ok { return; }
      ghost var was: Document, top := data, Top(open);
      var nameId := Intern(name);
      var index;
      ok, index := Node(ELEMENT, nameId);
      if !ok { return; }
      assert Rows(data)[|Rows(data)| - 1].attributes == [];
      Attach(attributes);
      if Exact(was) { RowExact(was, data, Row(ELEMENT, top, name, Kept(attributes, namespaces)), nameId); }
      LastOpen(data, open, index, name);
      open := open + [(index, name)];
    }

    /** Closes the innermost element, which is popped even when the name is another. */
    method End(name: Option<string>) returns (ok: bool)
      requires Valid()
      modifies this`open
      ensures Valid()
      ensures open == if old(open) == [] then [] else old(open)[..|old(open)| - 1]
      ensures ok == (old(open) != [] && (name == None || name == Some(old(open)[|old(open)| - 1].1)))
    {
      if open == [] { return false; }
      var current := open[|open| - 1].1;
      open := open[..|open| - 1];
      ok := name == None || name.value == current;
    }

    /** A text outside the elements is dropped. */
    method Text(value: string, cdata: bool) returns (ok: bool)
      requires Valid()
      modifies this`data
      ensures Valid()
      ensures ok == (open == [] || |Rows(old(data))| < NODE_LIMIT)
      ensures Rows(data) == if !ok || open == [] then Rows(old(data))
                            else Rows(old(data)) + [Row(if cdata then CDATA else TEXT, Top(open), value, [])]
      ensures ok && Exact(old(data)) ==> Exact(data)
    {
      if open == [] { return true; }
      ghost var was: Document := data;
      TextKept(was, value);
      var index := |data.texts|;
      data := data.(texts := data.texts + [value]);
      forall k | 0 <= k < |open| ensures OpenAt(data, open[k]) { assert OpenAt(was, open[k]); }
      var node;
      ok, node := Node(if cdata then CDATA else TEXT, index);
      if ok && Exact(was) { RowExact(was, data, Row(if cdata then CDATA else TEXT, Top(open), value, []), index); }
    }

    /** Only a document that has a root and whose elements are all closed is finished. */
    method Finish() returns (document: Option<NativeDocument>)
      requires Valid()
      ensures document == if open == [] && Rows(data) != [] then Some(data) else None
      ensures document.Some? ==> Sound(document.value)
    {
      if open != [] || data.columns.kinds == [] { return None; }
      document := Some(data);
    }

    /** Extends every column by one entry and patches the links of the parent and its last child. */
    method Append(kind: int, parent: int, name: int)
      requires SameLength(data.columns) && -1 <= parent < |data.columns.kinds|
      requires parent >= 0 ==> -1 <= data.columns.lastChildren[parent] < |data.columns.kinds|
      modifies this`data
      ensures data == old(data).(columns := Appended(old(data).columns, kind, parent, name, |old(data).attributeNames|))
    {
      var c, index := data.columns, |data.columns.kinds|;
      c := Columns(c.kinds + [kind], c.parents + [parent], c.firstChildren + [-1], c.lastChildren + [-1],
                   c.nextSiblings + [-1], c.previousSiblings + [-1], c.childCounts + [0], c.names + [name],
                   c.attributeStarts + [|data.attributeNames|], c.attributeCounts + [0]);
      if parent >= 0 {
        var last := c.lastChildren[parent];
        if last < 0 {
          c := c.(firstChildren := c.firstChildren[parent := index]);
        } else {
          c := c.(nextSiblings := c.nextSiblings[last := index], previousSiblings := c.previousSiblings[index := last]);
        }
        c := c.(lastChildren := c.lastChildren[parent := index],
                childCounts := c.childCounts[parent := c.childCounts[parent] + 1]);
      }
      assert c == Appended(data.columns, kind, parent, name, |data.attributeNames|);
      data := data.(columns := c);
    }
  }

  lemma LastOpen(d: Document, open: seq<(nat, string)>, index: nat, name: string)
    requires Opened(d, open) && OnPath(d.columns.parents, Indices(open) + [index])
    requires index < |Rows(d)| && Rows(d)[index].kind == ELEMENT && Rows(d)[index].content == name
    ensures Opened(d, open + [(index, name)])
  {
    var more := open + [(index, name)];
    assert Indices(more) == Indices(open) + [index];
    assert Rows(d)[index] == RowAt(d, index) && NamedAt(d, index);
    forall k | 0 <= k < |more| ensures OpenAt(d, more[k]) {
      if k < |open| { assert OpenAt(d, open[k]); }
    }
  }

  lemma StillOpen(d: Document, open: seq<(nat, string)>, kind: int, name: int)
    requires Opened(d, open) && MayHold(d, kind, Top(open), name)
    requires OnPath(d.columns.parents + [Top(open)], Indices(open) + [|d.columns.kinds|])
    requires open != [] ==> OnPath(d.columns.parents + [Top(open)], Indices(open))
    ensures Top(open) >= 0 ==> -1 <= d.columns.lastChildren[Top(open)] < |d.columns.kinds|
    ensures Opened(WithNode(d, kind, Top(open), name), open)
  {
    ParentsBelow(d);
    var e := WithNode(d, kind, Top(open), name);
    forall k | 0 <= k < |open| ensures OpenAt(e, open[k]) { assert OpenAt(d, open[k]); }
  }

  /** The document with one node more. */
  lemma NodeAdded(d: Document, open: seq<(nat, string)>, kind: int, name: int) returns (e: Document)
    requires Opened(d, open) && kind in {ELEMENT, TEXT, CDATA}
    requires 0 <= name < if kind == ELEMENT then |d.qualifiedNames| else |d.texts|
    requires open == [] ==> d.columns.kinds == []
    ensures -1 <= Top(open) < |d.columns.kinds|
    ensures Top(open) >= 0 ==> -1 <= d.columns.lastChildren[Top(open)] < |d.columns.kinds|
    ensures e == WithNode(d, kind, Top(open), name) && Opened(e, open)
    ensures Rows(e) == Rows(d) + [NewRow(d, kind, Top(open), name)]
    ensures OnPath(e.columns.parents, Indices(open) + [|d.columns.kinds|])
    ensures e.columns.kinds == d.columns.kinds + [kind] && e.columns.names == d.columns.names + [name]
  {
    NodePlace(d, open, kind, name);
    NodeAddsRow(d, kind, Top(open), name);
    StillOpen(d, open, kind, name);
    e := WithNode(d, kind, Top(open), name);
  }

  /** The innermost open element may hold the next node. */
  lemma NodePlace(d: Document, open: seq<(nat, string)>, kind: int, name: int)
    requires Opened(d, open) && kind in {ELEMENT, TEXT, CDATA}
    requires 0 <= name < if kind == ELEMENT then |d.qualifiedNames| else |d.texts|
    requires open == [] ==> d.columns.kinds == []
    ensures MayHold(d, kind, Top(open), name)
    ensures OnPath(d.columns.parents + [Top(open)], Indices(open) + [|d.columns.kinds|])
    ensures open != [] ==> OnPath(d.columns.parents + [Top(open)], Indices(open))
  {
    if open != [] {
      assert OpenAt(d, open[|open| - 1]);
      OpenPush(d.columns.parents, Indices(open));
    } else {
      assert Indices(open) == [];
      assert PathTo([-1], 0) == PathTo([-1], -1) + [0];
    }
  }
}
