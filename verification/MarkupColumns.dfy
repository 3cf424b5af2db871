/** The columns of a document are a function of its rows. */
module MarkupColumns {
  import opened MarkupTree
  import opened Markup

  /** Where the attributes before node `i` end. */
  ghost function StartOf(d: Document, i: nat): (r: nat)
    requires i <= |d.columns.kinds|
    ensures r <= |d.attributeNames| == |d.attributeValues|
  {
    if i == 0 then 0
    else
      assert TiledAt(d, i - 1);
      d.columns.attributeStarts[i - 1] + d.columns.attributeCounts[i - 1]
  }

  /** A node's attributes start where those before it end. */
  lemma StartsThere(d: Document, i: nat)
    requires i < |d.columns.kinds|
    ensures d.columns.attributeStarts[i] == StartOf(d, i)
    ensures d.columns.attributeCounts[i] == |RowAt(d, i).attributes|
    ensures StartOf(d, i + 1) == StartOf(d, i) + |RowAt(d, i).attributes|
  {
    assert TiledAt(d, i);
    if i > 0 { assert TiledAt(d, i - 1); }
  }

  lemma RowThere(d: Document, i: nat)
    requires i < |d.columns.kinds|
    ensures Rows(d)[i] == RowAt(d, i)
  {
  }

  /** The attributes up to the end of node `i` are those before it and its own. */
  lemma AttributesAt(d: Document, i: nat)
    requires i < |d.columns.kinds|
    ensures var row := RowAt(d, i);
      && StartOf(d, i + 1) == StartOf(d, i) + |row.attributes|
      && d.attributeNames[..StartOf(d, i + 1)] == d.attributeNames[..StartOf(d, i)] + Keys(row)
      && d.attributeValues[..StartOf(d, i + 1)] == d.attributeValues[..StartOf(d, i)] + Values(row)
  {
    StartsThere(d, i);
    var s, row := StartOf(d, i), RowAt(d, i);
    forall k | 0 <= k < |row.attributes|
      ensures row.attributes[k] == (d.attributeNames[s + k], d.attributeValues[s + k]) {
    }
    assert d.attributeNames[s..s + |row.attributes|] == Keys(row);
    assert d.attributeValues[s..s + |row.attributes|] == Values(row);
  }

  ghost function Keys(row: Row): seq<string> {
    seq(|row.attributes|, k requires 0 <= k < |row.attributes| => row.attributes[k].0)
  }

  ghost function Values(row: Row): seq<string> {
    seq(|row.attributes|, k requires 0 <= k < |row.attributes| => row.attributes[k].1)
  }

  /** The attributes before node `i` are those of its rows. */
  lemma {:induction false} SameAttributes(d: Document, e: Document, i: nat)
    requires Rows(d) == Rows(e) && i <= |Rows(d)|
    ensures StartOf(d, i) == StartOf(e, i)
    ensures d.attributeNames[..StartOf(d, i)] == e.attributeNames[..StartOf(d, i)]
    ensures d.attributeValues[..StartOf(d, i)] == e.attributeValues[..StartOf(d, i)]
  {
    if i > 0 {
      SameAttributes(d, e, i - 1);
      RowThere(d, i - 1);
      RowThere(e, i - 1);
      AttributesAt(d, i - 1);
      AttributesAt(e, i - 1);
    }
  }

  /** Every column has at node `i` what the row and the parents say. */
  ghost predicate SameAt(c: Columns, d: Columns, i: int) {
    && SameLength(c) && SameLength(d) && |c.kinds| == |d.kinds| && 0 <= i < |c.kinds|
    && c.kinds[i] == d.kinds[i] && c.parents[i] == d.parents[i] && c.names[i] == d.names[i]
    && c.firstChildren[i] == d.firstChildren[i] && c.lastChildren[i] == d.lastChildren[i]
    && c.nextSiblings[i] == d.nextSiblings[i] && c.previousSiblings[i] == d.previousSiblings[i]
    && c.childCounts[i] == d.childCounts[i]
    && c.attributeStarts[i] == d.attributeStarts[i] && c.attributeCounts[i] == d.attributeCounts[i]
  }

  lemma SameParents(d: Document, e: Document)
    requires Rows(d) == Rows(e)
    ensures d.columns.kinds == e.columns.kinds && d.columns.parents == e.columns.parents
  {
    forall i | 0 <= i < |d.columns.kinds|
      ensures d.columns.kinds[i] == e.columns.kinds[i] && d.columns.parents[i] == e.columns.parents[i] {
      RowThere(d, i);
      RowThere(e, i);
    }
  }

  /** The name of an element is the place of its content among distinct names; a text has its own place. */
  lemma SameName(d: Document, e: Document, i: nat)
    requires Rows(d) == Rows(e) && Exact(d) && Exact(e) && i < |Rows(d)|
    ensures d.columns.names[i] == e.columns.names[i]
  {
    RowThere(d, i);
    RowThere(e, i);
    assert NamedAt(d, i) && NamedAt(e, i) && OwnText(d, i) && OwnText(e, i);
  }

  lemma SameNode(d: Document, e: Document, i: nat)
    requires Rows(d) == Rows(e) && Exact(d) && Exact(e) && i < |Rows(d)|
    ensures SameAt(d.columns, e.columns, i)
  {
    SameParents(d, e);
    SameName(d, e, i);
    SameAttributes(d, e, i);
    StartsThere(d, i);
    StartsThere(e, i);
    RowThere(d, i);
    RowThere(e, i);
    assert LinkedAt(d.columns, i) && LinkedAt(e.columns, i);
  }

  lemma SameColumns(c: Columns, d: Columns)
    requires SameLength(c) && SameLength(d) && |c.kinds| == |d.kinds|
    requires forall i :: 0 <= i < |c.kinds| ==> SameAt(c, d, i)
    ensures c == d
  {
    forall i | 0 <= i < |c.kinds|
      ensures c.kinds[i] == d.kinds[i] && c.parents[i] == d.parents[i] && c.names[i] == d.names[i]
      ensures c.firstChildren[i] == d.firstChildren[i] && c.lastChildren[i] == d.lastChildren[i]
      ensures c.nextSiblings[i] == d.nextSiblings[i] && c.previousSiblings[i] == d.previousSiblings[i]
      ensures c.childCounts[i] == d.childCounts[i] && c.attributeStarts[i] == d.attributeStarts[i]
      ensures c.attributeCounts[i] == d.attributeCounts[i]
    {
      assert SameAt(c, d, i);
    }
    assert c.kinds == d.kinds && c.parents == d.parents && c.names == d.names;
    assert c.firstChildren == d.firstChildren && c.lastChildren == d.lastChildren;
    assert c.nextSiblings == d.nextSiblings && c.previousSiblings == d.previousSiblings;
    assert c.childCounts == d.childCounts && c.attributeStarts == d.attributeStarts;
    assert c.attributeCounts == d.attributeCounts;
  }

  /** Two documents with the same rows are the same in every column. */
  lemma RowsDetermine(d: Document, e: Document)
    requires Rows(d) == Rows(e) && Exact(d) && Exact(e)
    ensures d == e
  {
    var n := |Rows(d)|;
    forall i | 0 <= i < n ensures SameAt(d.columns, e.columns, i) { SameNode(d, e, i); }
    SameColumns(d.columns, e.columns);
    SameAttributes(d, e, n);
    AttributesEnd(d);
    AttributesEnd(e);
  }

  lemma AttributesEnd(d: Document)
    ensures StartOf(d, |d.columns.kinds|) == |d.attributeNames| == |d.attributeValues|
  {
    var n := |d.columns.kinds|;
    if n > 0 { assert TiledAt(d, n - 1); }
  }
}
