/** The in-memory table that every cleaning operation edits: an ordered sequence
    of named columns, each tagged with its dtype family and holding one cell per row. */
module Frames {

  datatype Option<+T> = None | Some(value: T)

  /** The dtype family of a column as pandas reports it: numeric (pandas counts
      booleans as numeric), object (text and mixed values), or anything else
      (datetime, category, ...). */
  datatype Kind = Numeric | Object | Other

  /** One cell: pandas' missing marker (NaN / None), a number, or a text value. */
  datatype Cell = Missing | Num(n: int) | Text(s: string)

  datatype Column = Column(name: string, kind: Kind, cells: seq<Cell>)

  /** A frame's contents. `rows` is the length of the row index, which a frame
      keeps even when it has no columns. */
  datatype Table = Table(rows: nat, columns: seq<Column>) {

    /** Every column holds exactly one cell per row. */
    predicate Valid()
    {
      forall j :: 0 <= j < |columns| ==> |columns[j].cells| == rows
    }
  }

  /** Whether some column of `t` carries the label `name`. */
  predicate HasColumn(t: Table, name: string)
  {
    exists j :: 0 <= j < |t.columns| && t.columns[j].name == name
  }

  /** No two columns share a label (pandas allows duplicate labels, so this is
      not part of `Valid`). */
  predicate DistinctNames(cols: seq<Column>)
  {
    forall a, b :: 0 <= a < b < |cols| ==> cols[a].name != cols[b].name
  }

  /** Two tables with the same shape and the same labels, kinds and cells are equal. */
  lemma SameTable(t: Table, u: Table)
    requires t.rows == u.rows && |t.columns| == |u.columns|
    requires forall j :: 0 <= j < |t.columns| ==>
      t.columns[j].name == u.columns[j].name && t.columns[j].kind == u.columns[j].kind
      && |t.columns[j].cells| == |u.columns[j].cells|
    requires forall j, r :: 0 <= j < |t.columns| && 0 <= r < |t.columns[j].cells| ==>
      t.columns[j].cells[r] == u.columns[j].cells[r]
    ensures t == u
  {
    forall j | 0 <= j < |t.columns|
      ensures t.columns[j] == u.columns[j]
    {
      assert t.columns[j].cells == u.columns[j].cells;
    }
    assert t.columns == u.columns;
  }

  /** A pandas DataFrame: a mutable object whose contents every in-place
      operation replaces. Several holders may share one frame. */
  class Frame {
    var table: Table

    constructor (t: Table)
      ensures table == t
    {
      table := t;
    }
  }
}
