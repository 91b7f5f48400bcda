/** `get_column_dtype`: splits a frame's labels into the numeric ones and the
    object (categorical) ones, each list in column order. */
module Utils {
  import opened Frames

  /** `df[col]` is a Series only when no other column carries the label of
      column `j`. With a repeated label it is a DataFrame, and pandas' dtype
      tests accept neither kind for a DataFrame. */
  predicate SoleLabel(cols: seq<Column>, j: nat)
    requires j < |cols|
  {
    forall i :: 0 <= i < |cols| && i != j ==> cols[i].name != cols[j].name
  }

  /** Column `j` is put in the list of kind `k`. */
  predicate ListedAs(cols: seq<Column>, j: nat, k: Kind)
    requires j < |cols|
  {
    cols[j].kind == k && SoleLabel(cols, j)
  }

  /** The labels the loop has put in the list of kind `k` after visiting the
      first `n` columns. */
  function NamesUpTo(cols: seq<Column>, n: nat, k: Kind): seq<string>
    requires n <= |cols|
  {
    if n == 0 then []
    else NamesUpTo(cols, n - 1, k) + (if ListedAs(cols, n - 1, k) then [cols[n - 1].name] else [])
  }

  /** The positions of the columns listed as kind `k` among the first `n`. */
  function PositionsUpTo(cols: seq<Column>, n: nat, k: Kind): seq<nat>
    requires n <= |cols|
  {
    if n == 0 then []
    else PositionsUpTo(cols, n - 1, k) + (if ListedAs(cols, n - 1, k) then [n - 1] else [])
  }

  /** The labels listed as kind `k`, in column order. */
  function NamesOfKind(cols: seq<Column>, k: Kind): seq<string>
  {
    NamesUpTo(cols, |cols|, k)
  }

  /** The positions of the columns listed as kind `k`, in column order. */
  function PositionsOfKind(cols: seq<Column>, k: Kind): seq<nat>
  {
    PositionsUpTo(cols, |cols|, k)
  }

  /** The for-loop of `get_column_dtype`: a column goes to the numeric list if
      `df[col]` is a numeric Series, else to the object list if it is an object
      Series, else nowhere. The frame is only read. */
  method GetColumnDtype(df: Frame) returns (numList: seq<string>, objList: seq<string>)
    ensures numList == NamesOfKind(df.table.columns, Numeric)
    ensures objList == NamesOfKind(df.table.columns, Object)
  {
    var cols := df.table.columns;
    numList, objList := [], [];
    for i := 0 to |cols|
      invariant numList == NamesUpTo(cols, i, Numeric)
      invariant objList == NamesUpTo(cols, i, Object)
    {
      var series := SoleLabel(cols, i);
      if series && cols[i].kind == Numeric {
        numList := numList + [cols[i].name];
      } else if series && cols[i].kind == Object {
        objList := objList + [cols[i].name];
      }
    }
  }

  /** Each listed position holds a column listed as kind `k`. */
  lemma {:induction false} PositionsUpToListed(cols: seq<Column>, n: nat, k: Kind)
    requires n <= |cols|
    ensures forall m :: 0 <= m < |PositionsUpTo(cols, n, k)| ==>
      PositionsUpTo(cols, n, k)[m] < n && ListedAs(cols, PositionsUpTo(cols, n, k)[m], k)
  {
    if n > 0 {
      PositionsUpToListed(cols, n - 1, k);
      var at0 := PositionsUpTo(cols, n - 1, k);
      var at := PositionsUpTo(cols, n, k);
      assert at == at0 + (if ListedAs(cols, n - 1, k) then [n - 1] else []);
      forall m | 0 <= m < |at|
        ensures at[m] < n && ListedAs(cols, at[m], k)
      {
        if m < |at0| {
          assert at[m] == at0[m];
        } else {
          assert at[m] == n - 1 && ListedAs(cols, n - 1, k);
        }
      }
    }
  }

  /** The listed positions increase. */
  lemma {:induction false} PositionsUpToIncrease(cols: seq<Column>, n: nat, k: Kind)
    requires n <= |cols|
    ensures forall m :: 0 <= m < |PositionsUpTo(cols, n, k)| ==> PositionsUpTo(cols, n, k)[m] < n
    ensures forall m, p :: 0 <= m < p < |PositionsUpTo(cols, n, k)| ==>
      PositionsUpTo(cols, n, k)[m] < PositionsUpTo(cols, n, k)[p]
  {
    if n > 0 {
      PositionsUpToIncrease(cols, n - 1, k);
      var at0 := PositionsUpTo(cols, n - 1, k);
      var at := PositionsUpTo(cols, n, k);
      assert at == at0 + (if ListedAs(cols, n - 1, k) then [n - 1] else []);
      forall m, p | 0 <= m < p < |at|
        ensures at[m] < at[p]
      {
        assert at[m] == at0[m];
        if p < |at0| {
          assert at[p] == at0[p];
        } else {
          assert at0[m] < n - 1 && at[p] == n - 1;
        }
      }
    }
  }

  /** Every column listed as kind `k` among the first `n` has its position listed. */
  lemma {:induction false} PositionsUpToComplete(cols: seq<Column>, n: nat, k: Kind)
    requires n <= |cols|
    ensures forall j :: 0 <= j < n && ListedAs(cols, j, k) ==> j in PositionsUpTo(cols, n, k)
  {
    if n > 0 {
      PositionsUpToComplete(cols, n - 1, k);
      var at0 := PositionsUpTo(cols, n - 1, k);
      var at := PositionsUpTo(cols, n, k);
      assert at == at0 + (if ListedAs(cols, n - 1, k) then [n - 1] else []);
      forall j | 0 <= j < n && ListedAs(cols, j, k)
        ensures j in at
      {
        if j < n - 1 {
          assert j in at0;
        } else {
          assert at[|at| - 1] == j;
        }
      }
    }
  }

  /** The `m`-th listed label is the label of the column at the `m`-th listed position. */
  lemma {:induction false} NamesUpToAtPositions(cols: seq<Column>, n: nat, k: Kind)
    requires n <= |cols|
    ensures |NamesUpTo(cols, n, k)| == |PositionsUpTo(cols, n, k)|
    ensures forall m :: 0 <= m < |PositionsUpTo(cols, n, k)| ==>
      PositionsUpTo(cols, n, k)[m] < |cols| && NamesUpTo(cols, n, k)[m] == cols[PositionsUpTo(cols, n, k)[m]].name
  {
    if n > 0 {
      NamesUpToAtPositions(cols, n - 1, k);
      var at0 := PositionsUpTo(cols, n - 1, k);
      var at := PositionsUpTo(cols, n, k);
      var names0 := NamesUpTo(cols, n - 1, k);
      var names := NamesUpTo(cols, n, k);
      assert at == at0 + (if ListedAs(cols, n - 1, k) then [n - 1] else []);
      assert names == names0 + (if ListedAs(cols, n - 1, k) then [cols[n - 1].name] else []);
      forall m | 0 <= m < |at|
        ensures at[m] < |cols| && names[m] == cols[at[m]].name
      {
        if m < |at0| {
          assert at[m] == at0[m] && names[m] == names0[m];
        }
      }
    }
  }

  /** The positions listed as kind `k` increase, each holds a column of kind
      `k` whose label occurs once, and every such column is among them. */
  lemma PositionsOfKindInOrder(cols: seq<Column>, k: Kind)
    ensures var at := PositionsOfKind(cols, k);
      (forall m :: 0 <= m < |at| ==> at[m] < |cols| && cols[at[m]].kind == k && SoleLabel(cols, at[m]))
      && (forall m, p :: 0 <= m < p < |at| ==> at[m] < at[p])
      && (forall j :: 0 <= j < |cols| && cols[j].kind == k && SoleLabel(cols, j) ==> j in at)
  {
    PositionsUpToListed(cols, |cols|, k);
    PositionsUpToIncrease(cols, |cols|, k);
    PositionsUpToComplete(cols, |cols|, k);
  }

  /** The `m`-th label of kind `k` is the label of the `m`-th column listed as kind `k`. */
  lemma NamesOfKindAtPositions(cols: seq<Column>, k: Kind)
    ensures var names := NamesOfKind(cols, k);
      var at := PositionsOfKind(cols, k);
      |names| == |at|
      && forall m :: 0 <= m < |at| ==> at[m] < |cols| && names[m] == cols[at[m]].name
  {
    NamesUpToAtPositions(cols, |cols|, k);
  }

  /** Each list holds, in column order, exactly the labels of the columns of
      its kind whose label occurs once in the frame: the `m`-th label belongs
      to the `m`-th such column, and no such column is skipped. */
  lemma NamesOfKindInColumnOrder(cols: seq<Column>, k: Kind)
    ensures var names := NamesOfKind(cols, k);
      var at := PositionsOfKind(cols, k);
      |names| == |at|
      && (forall m :: 0 <= m < |at| ==>
            at[m] < |cols| && cols[at[m]].kind == k && SoleLabel(cols, at[m]) && names[m] == cols[at[m]].name)
      && (forall m, p :: 0 <= m < p < |at| ==> at[m] < at[p])
      && (forall j :: 0 <= j < |cols| && cols[j].kind == k && SoleLabel(cols, j) ==> j in at)
  {
    PositionsOfKindInOrder(cols, k);
    NamesOfKindAtPositions(cols, k);
  }

  /** Every classified label is the label of exactly one column, and that
      column has the list's kind. */
  lemma ClassifiedNamesAreColumns(t: Table, k: Kind, x: string)
    requires x in NamesOfKind(t.columns, k)
    ensures exists j :: (0 <= j < |t.columns| && t.columns[j].name == x && t.columns[j].kind == k
                         && SoleLabel(t.columns, j))
    ensures HasColumn(t, x)
  {
    NamesOfKindInColumnOrder(t.columns, k);
    var names := NamesOfKind(t.columns, k);
    var m :| 0 <= m < |names| && names[m] == x;
    var j := PositionsOfKind(t.columns, k)[m];
    assert t.columns[j].name == x;
  }

  /** Among the first `n` columns, each is counted in at most one list, and in
      exactly one when its label occurs once. */
  lemma {:induction false} CountsUpTo(cols: seq<Column>, n: nat)
    requires n <= |cols|
    ensures |NamesUpTo(cols, n, Numeric)| + |NamesUpTo(cols, n, Object)| + |NamesUpTo(cols, n, Other)| <= n
    ensures (forall j :: 0 <= j < n ==> SoleLabel(cols, j)) ==>
      |NamesUpTo(cols, n, Numeric)| + |NamesUpTo(cols, n, Object)| + |NamesUpTo(cols, n, Other)| == n
  {
    if n > 0 {
      CountsUpTo(cols, n - 1);
    }
  }

  /** The elif puts a column in at most one list, so the two lists together
      never hold more labels than the frame has columns. When every label is
      distinct, the numeric, object and other columns account for every column. */
  lemma ClassificationCountsEachColumnOnce(cols: seq<Column>)
    ensures |NamesOfKind(cols, Numeric)| + |NamesOfKind(cols, Object)| <= |cols|
    ensures DistinctNames(cols) ==>
      |NamesOfKind(cols, Numeric)| + |NamesOfKind(cols, Object)| + |NamesOfKind(cols, Other)| == |cols|
  {
    CountsUpTo(cols, |cols|);
    if DistinctNames(cols) {
      forall j | 0 <= j < |cols|
        ensures SoleLabel(cols, j)
      {
        forall i | 0 <= i < |cols| && i != j
          ensures cols[i].name != cols[j].name
        {
          if i < j {
            assert cols[i].name != cols[j].name;
          } else {
            assert cols[j].name != cols[i].name;
          }
        }
      }
    }
  }

  /** No label is in both lists. */
  lemma ClassificationDisjoint(cols: seq<Column>, x: string)
    ensures !(x in NamesOfKind(cols, Numeric) && x in NamesOfKind(cols, Object))
  {
    NamesOfKindInColumnOrder(cols, Numeric);
    NamesOfKindInColumnOrder(cols, Object);
    var nums := NamesOfKind(cols, Numeric);
    var objs := NamesOfKind(cols, Object);
    forall a, b | 0 <= a < |nums| && 0 <= b < |objs|
      ensures nums[a] != objs[b]
    {
      var ja := PositionsOfKind(cols, Numeric)[a];
      var jb := PositionsOfKind(cols, Object)[b];
      assert ja != jb && SoleLabel(cols, ja);
    }
  }

  /** A label carried by two columns is in neither list, whatever their kinds. */
  lemma RepeatedLabelInNeitherList(cols: seq<Column>, i: nat, j: nat, k: Kind)
    requires i < |cols| && j < |cols| && i != j && cols[i].name == cols[j].name
    ensures cols[i].name !in NamesOfKind(cols, k)
  {
    NamesOfKindInColumnOrder(cols, k);
    var names := NamesOfKind(cols, k);
    assert !SoleLabel(cols, i) by {
      assert j != i && cols[j].name == cols[i].name;
    }
    forall m | 0 <= m < |names|
      ensures names[m] != cols[i].name
    {
      var p := PositionsOfKind(cols, k)[m];
      assert SoleLabel(cols, p);
      assert p != i;
      assert cols[i].name != cols[p].name;
    }
  }
}
