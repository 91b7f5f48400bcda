/** The `CleanData` editor: it holds one frame and edits it in place by
    imputing missing cells, renaming columns, dropping columns and applying
    cell patches from the grid editor, and returns generated code for the first
    three. */
module Clean {
  import opened Frames
  import opened Fill
  import opened Transcript

  const ForwardFillMethod := "Forward Fill"
  const BackwardFillMethod := "Backward Fill"

  /** The three statistics the imputation dictionary computes eagerly. Each is
      `None` when pandas raises while computing it (the mean of a text column,
      the mode of a column with no present cell). Their values come from pandas. */
  datatype Stats = Stats(mean: Option<Cell>, median: Option<Cell>, mode: Option<Cell>)

  /** How the cells of the chosen column are rewritten. */
  datatype Imputation = Forward | Backward | Scalar(value: Cell)

  /** What `fill_missing_values` hands back when it runs to the end: the new
      contents, the generated code and the fill value (`None` for the
      propagating fills); `Failed` when an exception was raised and caught. */
  datatype FillResult = Filled(table: Table, code: string, value: Option<Cell>) | Failed

  function Impute(s: seq<Cell>, how: Imputation): (r: seq<Cell>)
    ensures |r| == |s|
  {
    match how
    case Forward => ForwardFill(s)
    case Backward => BackwardFill(s)
    case Scalar(v) => FillWith(s, v)
  }

  /** Applies an imputation to every column labelled `column` (pandas selects
      all of them when a label is repeated) and to no other column. */
  function ImputeColumns(t: Table, column: string, how: Imputation): (r: Table)
  {
    t.(columns := seq(|t.columns|, j requires 0 <= j < |t.columns| =>
      var c := t.columns[j];
      if c.name == column then c.(cells := Impute(c.cells, how)) else c))
  }

  /** The entry of the `fill_methods` dictionary for `method`: `None` for a
      method that is not a key, and for `Custom` without a value, which
      `fillna` rejects. */
  function ChosenValue(choice: string, custom: Option<string>, stats: Stats): Option<Cell>
  {
    if choice == "Custom" then (if custom.Some? then Some(Text(custom.value)) else None)
    else if choice == "Mean" then stats.mean
    else if choice == "Median" then stats.median
    else if choice == "Mode" then stats.mode
    else None
  }

  /** `fill_missing_values` on a frame holding `t`, past the check for a frame
      and a non-empty column label. Selecting an absent label raises; the two
      propagating fills need nothing else; every other method first computes all
      three statistics, so any one of them failing fails every scalar method. */
  function FillMissing(t: Table, column: string, choice: string, custom: Option<string>, stats: Stats): FillResult
  {
    if !HasColumn(t, column) then Failed
    else if choice == ForwardFillMethod then
      Filled(ImputeColumns(t, column, Forward), ForwardFillCode(column), None)
    else if choice == BackwardFillMethod then
      Filled(ImputeColumns(t, column, Backward), ForwardFillCode(column), None)
    else if stats.mean.None? || stats.median.None? || stats.mode.None? then Failed
    else
      match ChosenValue(choice, custom, stats)
      case None => Failed
      case Some(v) => Filled(ImputeColumns(t, column, Scalar(v)), ScalarFillCode(column, choice, v), Some(v))
  }

  /** The fill fails exactly when the label is absent, or a scalar method is
      asked for while a statistic cannot be computed, the method is not one of
      the four dictionary keys, or `Custom` comes without a value. */
  lemma FillFailsExactlyWhenSourceRaises(t: Table, column: string, choice: string, custom: Option<string>, stats: Stats)
    ensures FillMissing(t, column, choice, custom, stats).Failed? <==>
      !HasColumn(t, column)
      || (choice != ForwardFillMethod && choice != BackwardFillMethod
          && (stats.mean.None? || stats.median.None? || stats.mode.None?
              || (choice != "Custom" && choice != "Mean" && choice != "Median" && choice != "Mode")
              || (choice == "Custom" && custom.None?)))
  {
  }

  /** Because the dictionary is built eagerly, a custom value cannot be used on
      a column whose mean pandas cannot compute. */
  lemma CustomFillNeedsEveryStatistic(t: Table, column: string, custom: string, stats: Stats)
    requires stats.mean.None?
    ensures FillMissing(t, column, "Custom", Some(custom), stats) == Failed
  {
  }

  /** A successful fill keeps the frame's shape, labels and kinds, leaves every
      other column as it was, and never changes a present cell. */
  lemma FillTouchesOnlyGaps(t: Table, column: string, choice: string, custom: Option<string>, stats: Stats)
    requires t.Valid()
    ensures var res := FillMissing(t, column, choice, custom, stats);
      res.Filled? ==>
        res.table.Valid() && res.table.rows == t.rows && |res.table.columns| == |t.columns|
        && (forall j :: 0 <= j < |t.columns| ==>
              res.table.columns[j].name == t.columns[j].name
              && res.table.columns[j].kind == t.columns[j].kind
              && (t.columns[j].name != column ==> res.table.columns[j] == t.columns[j]))
        && (forall j, i :: 0 <= j < |t.columns| && 0 <= i < t.rows && t.columns[j].cells[i] != Missing ==>
              res.table.columns[j].cells[i] == t.columns[j].cells[i])
  {
    var res := FillMissing(t, column, choice, custom, stats);
    if res.Filled? {
      forall j, i | 0 <= j < |t.columns| && 0 <= i < t.rows && t.columns[j].cells[i] != Missing
        ensures res.table.columns[j].cells[i] == t.columns[j].cells[i]
      {
        var s := t.columns[j].cells;
        if t.columns[j].name == column {
          ForwardFillNearestAbove(s, i);
          BackwardFillNearestBelow(s, i);
        }
      }
    }
  }

  /** Forward Fill on a present label succeeds and reports no value; in the
      chosen column a cell is missing afterwards exactly when no cell at or above
      it was present, and otherwise holds the nearest present value above it. */
  lemma ForwardFillTakesNearestAbove(t: Table, column: string, custom: Option<string>, stats: Stats, j: nat, i: nat)
    requires t.Valid() && HasColumn(t, column)
    requires j < |t.columns| && t.columns[j].name == column && i < t.rows
    ensures var res := FillMissing(t, column, ForwardFillMethod, custom, stats);
      var s := t.columns[j].cells;
      res.Filled? && res.value == None && res.code == ForwardFillCode(column)
      && (res.table.columns[j].cells[i] == Missing <==> forall k :: 0 <= k <= i ==> s[k] == Missing)
      && (res.table.columns[j].cells[i] != Missing ==>
            exists k :: 0 <= k <= i && res.table.columns[j].cells[i] == s[k]
                        && forall m :: k < m <= i ==> s[m] == Missing)
  {
    ForwardFillNearestAbove(t.columns[j].cells, i);
  }

  /** Backward Fill mirrors Forward Fill from below, reports no value, and emits
      the very same `.ffill()` code as Forward Fill. */
  lemma BackwardFillTakesNearestBelow(t: Table, column: string, custom: Option<string>, stats: Stats, j: nat, i: nat)
    requires t.Valid() && HasColumn(t, column)
    requires j < |t.columns| && t.columns[j].name == column && i < t.rows
    ensures var res := FillMissing(t, column, BackwardFillMethod, custom, stats);
      var s := t.columns[j].cells;
      res.Filled? && res.value == None
      && res.code == FillMissing(t, column, ForwardFillMethod, custom, stats).code
      && (res.table.columns[j].cells[i] == Missing <==> forall k :: i <= k < t.rows ==> s[k] == Missing)
      && (res.table.columns[j].cells[i] != Missing ==>
            exists k :: i <= k < t.rows && res.table.columns[j].cells[i] == s[k]
                        && forall m :: i <= m < k ==> s[m] == Missing)
  {
    BackwardFillNearestBelow(t.columns[j].cells, i);
  }

  /** A successful Custom, Mean, Median or Mode fill puts one and the same value
      in every missing cell of the chosen column and returns that value: the
      custom text, or the statistic the method names. */
  lemma ScalarFillUsesOneValue(t: Table, column: string, choice: string, custom: Option<string>, stats: Stats, j: nat, i: nat)
    requires t.Valid() && choice != ForwardFillMethod && choice != BackwardFillMethod
    requires j < |t.columns| && t.columns[j].name == column && i < t.rows
    ensures var res := FillMissing(t, column, choice, custom, stats);
      res.Filled? ==>
        res.value.Some?
        && (choice == "Custom" ==> custom.Some? && res.value == Some(Text(custom.value)))
        && (choice == "Mean" ==> res.value == stats.mean)
        && (choice == "Median" ==> res.value == stats.median)
        && (choice == "Mode" ==> res.value == stats.mode)
        && (t.columns[j].cells[i] == Missing ==> res.table.columns[j].cells[i] == res.value.value)
        && (t.columns[j].cells[i] != Missing ==> res.table.columns[j].cells[i] == t.columns[j].cells[i])
        && Infix(column, res.code)
  {
  }

  /** `DataFrame.rename(columns={old: new})`: every column labelled `oldName` is
      relabelled `newName`; a frame without that label is left as it is. */
  function RenameColumns(t: Table, oldName: string, newName: string): (r: Table)
    ensures r.rows == t.rows && |r.columns| == |t.columns|
    ensures forall j :: 0 <= j < |t.columns| ==>
      r.columns[j] == if t.columns[j].name == oldName then t.columns[j].(name := newName) else t.columns[j]
    ensures t.Valid() ==> r.Valid()
  {
    t.(columns := seq(|t.columns|, j requires 0 <= j < |t.columns| =>
      var c := t.columns[j];
      if c.name == oldName then c.(name := newName) else c))
  }

  /** After a rename the old label is gone (unless it was also the new one), the
      new label is present when the old one was, and every other label is
      present exactly when it was before. */
  lemma RenameReplacesLabel(t: Table, oldName: string, newName: string)
    ensures var r := RenameColumns(t, oldName, newName);
      (oldName != newName ==> !HasColumn(r, oldName))
      && (HasColumn(t, oldName) ==> HasColumn(r, newName))
      && (forall x :: x != oldName && x != newName ==> (HasColumn(r, x) <==> HasColumn(t, x)))
  {
    var r := RenameColumns(t, oldName, newName);
    if HasColumn(t, oldName) {
      var j :| 0 <= j < |t.columns| && t.columns[j].name == oldName;
      assert r.columns[j].name == newName;
    }
    forall x | x != oldName && x != newName
      ensures HasColumn(r, x) <==> HasColumn(t, x)
    {
      if HasColumn(t, x) {
        var j :| 0 <= j < |t.columns| && t.columns[j].name == x;
        assert r.columns[j].name == x;
      }
      if HasColumn(r, x) {
        var j :| 0 <= j < |r.columns| && r.columns[j].name == x;
        assert t.columns[j].name == x;
      }
    }
  }

  /** Renaming a label the frame does not have changes nothing. */
  lemma RenameAbsentLabelIsNoOp(t: Table, oldName: string, newName: string)
    requires !HasColumn(t, oldName)
    ensures RenameColumns(t, oldName, newName) == t
  {
    var r := RenameColumns(t, oldName, newName);
    forall j | 0 <= j < |t.columns|
      ensures r.columns[j] == t.columns[j]
    {
      assert t.columns[j].name != oldName;
    }
    assert r.columns == t.columns;
  }

  /** Renaming back restores the frame, provided the new label was not already
      in use. */
  lemma RenameRoundTrip(t: Table, oldName: string, newName: string)
    requires !HasColumn(t, newName)
    ensures RenameColumns(RenameColumns(t, oldName, newName), newName, oldName) == t
  {
    var r := RenameColumns(RenameColumns(t, oldName, newName), newName, oldName);
    forall j | 0 <= j < |t.columns|
      ensures r.columns[j] == t.columns[j]
    {
      assert t.columns[j].name != newName;
    }
    assert r.columns == t.columns;
  }

  /** No collision check: renaming onto a label already in use leaves two
      columns with the same label. */
  lemma RenameOntoUsedLabelDuplicates(t: Table, oldName: string, newName: string)
    requires oldName != newName && HasColumn(t, oldName) && HasColumn(t, newName)
    ensures !DistinctNames(RenameColumns(t, oldName, newName).columns)
  {
    var r := RenameColumns(t, oldName, newName);
    var a :| 0 <= a < |t.columns| && t.columns[a].name == oldName;
    var b :| 0 <= b < |t.columns| && t.columns[b].name == newName;
    assert r.columns[a].name == newName && r.columns[b].name == newName;
    if a < b {
      assert !(r.columns[a].name != r.columns[b].name);
    } else {
      assert !(r.columns[b].name != r.columns[a].name);
    }
  }

  /** Every label in `names` is a label of `t`; otherwise `drop` raises. */
  predicate AllPresent(t: Table, names: seq<string>)
  {
    forall k :: 0 <= k < |names| ==> HasColumn(t, names[k])
  }

  /** The columns whose label is not in `names`, in their original order. */
  function KeepColumns(cols: seq<Column>, names: seq<string>): seq<Column>
  {
    if cols == [] then []
    else
      var last := cols[|cols| - 1];
      KeepColumns(cols[..|cols| - 1], names) + (if last.name in names then [] else [last])
  }

  /** The positions of the columns `KeepColumns` keeps. */
  function KeptPositions(cols: seq<Column>, names: seq<string>): seq<nat>
  {
    if cols == [] then []
    else
      KeptPositions(cols[..|cols| - 1], names) + (if cols[|cols| - 1].name in names then [] else [|cols| - 1])
  }

  /** `DataFrame.drop(columns=names)` once every label is known to be present. */
  function DropColumns(t: Table, names: seq<string>): Table
  {
    t.(columns := KeepColumns(t.columns, names))
  }

  /** The `m`-th kept column is the column at the `m`-th kept position, and
      its label is not named. */
  lemma {:induction false} KeptColumnsAtPositions(cols: seq<Column>, names: seq<string>)
    ensures |KeepColumns(cols, names)| == |KeptPositions(cols, names)|
    ensures forall m :: 0 <= m < |KeptPositions(cols, names)| ==>
      KeptPositions(cols, names)[m] < |cols|
      && cols[KeptPositions(cols, names)[m]].name !in names
      && KeepColumns(cols, names)[m] == cols[KeptPositions(cols, names)[m]]
    decreases |cols|
  {
    if cols != [] {
      var init := cols[..|cols| - 1];
      KeptColumnsAtPositions(init, names);
      var at0 := KeptPositions(init, names);
      var at := KeptPositions(cols, names);
      var kept0 := KeepColumns(init, names);
      var kept := KeepColumns(cols, names);
      var last := cols[|cols| - 1];
      assert at == at0 + (if last.name in names then [] else [|cols| - 1]);
      assert kept == kept0 + (if last.name in names then [] else [last]);
      forall m | 0 <= m < |at|
        ensures at[m] < |cols| && cols[at[m]].name !in names && kept[m] == cols[at[m]]
      {
        if m < |at0| {
          assert at[m] == at0[m] && kept[m] == kept0[m] && init[at0[m]] == cols[at0[m]];
        }
      }
    }
  }

  /** The kept positions increase. */
  lemma {:induction false} KeptPositionsIncrease(cols: seq<Column>, names: seq<string>)
    ensures forall m :: 0 <= m < |KeptPositions(cols, names)| ==> KeptPositions(cols, names)[m] < |cols|
    ensures forall m, p :: 0 <= m < p < |KeptPositions(cols, names)| ==>
      KeptPositions(cols, names)[m] < KeptPositions(cols, names)[p]
    decreases |cols|
  {
    if cols != [] {
      var init := cols[..|cols| - 1];
      KeptPositionsIncrease(init, names);
      var at0 := KeptPositions(init, names);
      var at := KeptPositions(cols, names);
      assert at == at0 + (if cols[|cols| - 1].name in names then [] else [|cols| - 1]);
      forall m, p | 0 <= m < p < |at|
        ensures at[m] < at[p]
      {
        assert at[m] == at0[m];
        if p < |at0| {
          assert at[p] == at0[p];
        } else {
          assert at0[m] < |cols| - 1 && at[p] == |cols| - 1;
        }
      }
    }
  }

  /** Every column whose label is not named has its position kept. */
  lemma {:induction false} KeptPositionsComplete(cols: seq<Column>, names: seq<string>)
    ensures forall j :: 0 <= j < |cols| && cols[j].name !in names ==> j in KeptPositions(cols, names)
    decreases |cols|
  {
    if cols != [] {
      var init := cols[..|cols| - 1];
      KeptPositionsComplete(init, names);
      var at0 := KeptPositions(init, names);
      var at := KeptPositions(cols, names);
      assert at == at0 + (if cols[|cols| - 1].name in names then [] else [|cols| - 1]);
      forall j | 0 <= j < |cols| && cols[j].name !in names
        ensures j in at
      {
        if j < |cols| - 1 {
          assert init[j] == cols[j];
          assert j in at0;
        } else {
          assert at[|at| - 1] == j;
        }
      }
    }
  }

  /** Dropping keeps exactly the columns whose label is not named, in their
      original relative order and with all their rows. */
  lemma DropKeepsOthersInOrder(cols: seq<Column>, names: seq<string>)
    ensures var kept := KeepColumns(cols, names);
      var at := KeptPositions(cols, names);
      |kept| == |at|
      && (forall m :: 0 <= m < |at| ==> at[m] < |cols| && cols[at[m]].name !in names && kept[m] == cols[at[m]])
      && (forall m, p :: 0 <= m < p < |at| ==> at[m] < at[p])
      && (forall j :: 0 <= j < |cols| && cols[j].name !in names ==> j in at)
  {
    KeptColumnsAtPositions(cols, names);
    KeptPositionsIncrease(cols, names);
    KeptPositionsComplete(cols, names);
  }

  /** After a drop no column carries a dropped label, every frame row survives,
      and every column not named survives. */
  lemma DropRemovesNamedLabels(t: Table, names: seq<string>)
    requires t.Valid()
    ensures var r := DropColumns(t, names);
      r.Valid() && r.rows == t.rows
      && (forall k :: 0 <= k < |names| ==> !HasColumn(r, names[k]))
      && (forall x :: x !in names ==> (HasColumn(r, x) <==> HasColumn(t, x)))
  {
    var r := DropColumns(t, names);
    DropKeepsOthersInOrder(t.columns, names);
    var at := KeptPositions(t.columns, names);
    forall x | x !in names && HasColumn(t, x)
      ensures HasColumn(r, x)
    {
      var j :| 0 <= j < |t.columns| && t.columns[j].name == x;
      assert j in at;
      var m :| 0 <= m < |at| && at[m] == j;
      assert r.columns[m].name == x;
    }
  }

  /** `df.loc[row, key] = value` on an existing row and label: the cell in
      that row of every column labelled `key` becomes `value`. */
  function SetCell(t: Table, row: nat, key: string, v: Cell): (r: Table)
    requires t.Valid() && row < t.rows
    ensures r.Valid() && SameShape(r, t)
    ensures forall j, i :: 0 <= j < |t.columns| && 0 <= i < t.rows ==>
      r.columns[j].cells[i] == if i == row && t.columns[j].name == key then v else t.columns[j].cells[i]
  {
    t.(columns := seq(|t.columns|, j requires 0 <= j < |t.columns| =>
      var c := t.columns[j];
      if c.name == key then c.(cells := c.cells[row := v]) else c))
  }

  /** Same row count, same labels and kinds in the same positions. */
  predicate SameShape(t: Table, u: Table)
  {
    t.rows == u.rows && |t.columns| == |u.columns|
    && forall j :: 0 <= j < |t.columns| ==>
      t.columns[j].name == u.columns[j].name && t.columns[j].kind == u.columns[j].kind
  }

  /** The grid editor reports edits only for rows it shows and labels the
      frame has. */
  predicate EditsInRange(t: Table, edits: map<nat, map<string, Cell>>)
  {
    forall i | i in edits :: i < t.rows && forall key | key in edits[i] :: HasColumn(t, key)
  }

  /** The patch has rows but no cell in any of them (or no rows at all). */
  predicate NamesNoCell(edits: map<nat, map<string, Cell>>)
  {
    forall i | i in edits :: edits[i] == map[]
  }

  /** The frame after a sparse `{row: {label: value}}` patch: a cell named in
      the patch holds the patched value, every other cell keeps its value. */
  function ApplyEdits(t: Table, edits: map<nat, map<string, Cell>>): (r: Table)
    requires t.Valid()
    ensures r.Valid() && SameShape(r, t)
  {
    t.(columns := seq(|t.columns|, j requires 0 <= j < |t.columns| =>
      var c := t.columns[j];
      c.(cells := seq(t.rows, i requires 0 <= i < t.rows =>
        if i in edits && c.name in edits[i] then edits[i][c.name] else c.cells[i]))))
  }

  /** The part of a patch whose rows are not in `pending`. */
  ghost function EditsExcept(edits: map<nat, map<string, Cell>>, pending: set<nat>): map<nat, map<string, Cell>>
  {
    map r | r in edits && r !in pending :: edits[r]
  }

  /** The part of one row's updates whose labels are not in `pending`. */
  ghost function EntriesExcept(updates: map<string, Cell>, pending: set<string>): map<string, Cell>
  {
    map k | k in updates && k !in pending :: updates[k]
  }

  lemma OneMoreEntry(done: map<nat, map<string, Cell>>, row: nat, updates: map<string, Cell>,
                     pending: set<string>, key: string)
    requires key in pending && key in updates
    ensures var before := done[row := EntriesExcept(updates, pending)];
      before[row := before[row][key := updates[key]]] == done[row := EntriesExcept(updates, pending - {key})]
  {
    assert EntriesExcept(updates, pending)[key := updates[key]] == EntriesExcept(updates, pending - {key});
  }

  lemma OneMoreRow(edits: map<nat, map<string, Cell>>, pending: set<nat>, row: nat)
    requires row in pending && row in edits
    ensures EditsExcept(edits, pending)[row := EntriesExcept(edits[row], {})] == EditsExcept(edits, pending - {row})
  {
    assert EntriesExcept(edits[row], {}) == edits[row];
  }

  /** A row entry with no labels patches nothing. */
  lemma UnusedRowChangesNothing(t: Table, edits: map<nat, map<string, Cell>>, row: nat)
    requires t.Valid() && row !in edits
    ensures ApplyEdits(t, edits[row := map[]]) == ApplyEdits(t, edits)
  {
    SameTable(ApplyEdits(t, edits[row := map[]]), ApplyEdits(t, edits));
  }

  /** One `loc` write on a patched frame is the patch extended by that entry. */
  lemma SetCellIsOneMoreEdit(t: Table, edits: map<nat, map<string, Cell>>, row: nat, key: string, v: Cell)
    requires t.Valid() && row < t.rows && row in edits
    ensures SetCell(ApplyEdits(t, edits), row, key, v) == ApplyEdits(t, edits[row := edits[row][key := v]])
  {
    SameTable(SetCell(ApplyEdits(t, edits), row, key, v), ApplyEdits(t, edits[row := edits[row][key := v]]));
  }

  /** Applying the same patch twice is the same as applying it once. */
  lemma ApplyEditsIdempotent(t: Table, edits: map<nat, map<string, Cell>>)
    requires t.Valid()
    ensures ApplyEdits(ApplyEdits(t, edits), edits) == ApplyEdits(t, edits)
  {
    var once := ApplyEdits(t, edits);
    SameTable(ApplyEdits(once, edits), once);
  }

  /** An empty patch leaves the frame as it is. */
  lemma EmptyEditsChangeNothing(t: Table)
    requires t.Valid()
    ensures ApplyEdits(t, map[]) == t
  {
    SameTable(ApplyEdits(t, map[]), t);
  }

  /** The cleaning object. `df` is a reference to a frame that other holders
      (the page's session state) share; `null` stands for Python's `None`. */
  class CleanData {
    var df: Frame?

    ghost predicate Valid()
      reads this, df
    {
      df != null ==> df.table.Valid()
    }

    constructor (df: Frame?)
      requires df != null ==> df.table.Valid()
      ensures this.df == df && Valid()
    {
      this.df := df;
    }

    /** `fill_missing_values`: without a frame or with an empty label nothing
        happens and nothing is returned; otherwise the frame takes the filled
        contents and the code and value are returned, or, when an exception is
        raised and caught, the frame is untouched and nothing is returned. */
    method FillMissingValues(column: string, choice: string, custom: Option<string>, stats: Stats)
      returns (r: Option<(string, Option<Cell>)>)
      requires Valid()
      modifies df
      ensures Valid() && df == old(df)
      ensures df == null || column == "" ==> r == None
      ensures df != null && column == "" ==> df.table == old(df.table)
      ensures df != null && column != "" ==>
        match FillMissing(old(df.table), column, choice, custom, stats)
        case Failed => r == None && df.table == old(df.table)
        case Filled(t, code, v) => r == Some((code, v)) && df.table == t
    {
      if df != null && column != "" {
        var res := FillMissing(df.table, column, choice, custom, stats);
        FillTouchesOnlyGaps(df.table, column, choice, custom, stats);
        if res.Filled? {
          df.table := res.table;
          r := Some((res.code, res.value));
        } else {
          r := None;
        }
      } else {
        r := None;
      }
    }

    /** `change_column_name`: relabels in place and returns the code. Without a
        frame the source raises (its `code` is never bound); `None` stands for
        that exception. */
    method ChangeColumnName(oldName: string, newName: string) returns (code: Option<string>)
      requires Valid()
      modifies df
      ensures Valid() && df == old(df)
      ensures df == null ==> code == None
      ensures df != null ==>
        df.table == RenameColumns(old(df.table), oldName, newName)
        && code == Some(RenameCode(oldName, newName))
    {
      if df != null {
        df.table := RenameColumns(df.table, oldName, newName);
        code := Some(RenameCode(oldName, newName));
      } else {
        code := None;
      }
    }

    /** `drop_column`: with a frame and a non-empty list, drops the columns in
        place; the in-place drop returns `None`, which the source assigns to its
        own `df`, so afterwards this object holds no frame while the shared frame
        holds the dropped contents. A label that is absent makes `drop` raise
        before anything changes. */
    method DropColumn(names: seq<string>) returns (code: Option<string>)
      requires Valid()
      modifies this, df
      ensures Valid()
      ensures old(df) == null ==> df == null && code == None
      ensures old(df) != null && (names == [] || !AllPresent(old(df.table), names)) ==>
        df == old(df) && df.table == old(df.table) && code == None
      ensures old(df) != null && names != [] && AllPresent(old(df.table), names) ==>
        df == null && old(df).table == DropColumns(old(df.table), names)
        && old(df).table.Valid() && code == Some(DropCode(names))
    {
      code := None;
      if df != null && names != [] {
        if AllPresent(df.table, names) {
          DropRemovesNamedLabels(df.table, names);
          df.table := DropColumns(df.table, names);
          df := null;
          code := Some(DropCode(names));
        }
      }
    }

    /** `df_on_change`: overwrites every cell the grid editor's patch names, row
        by row and label by label. Without a frame the source raises at the
        first cell the patch names, before any write; `false` stands for that.
        A patch that names no cell runs no write and returns normally. */
    method DfOnChange(edits: map<nat, map<string, Cell>>) returns (ok: bool)
      requires Valid()
      requires df != null ==> EditsInRange(df.table, edits)
      modifies df
      ensures Valid() && df == old(df) && ok == (df != null || NamesNoCell(edits))
      ensures df != null ==> df.table == ApplyEdits(old(df.table), edits)
    {
      if df == null {
        return NamesNoCell(edits);
      }
      ghost var t0 := df.table;
      var pendingRows := edits.Keys;
      assert EditsExcept(edits, pendingRows) == map[];
      EmptyEditsChangeNothing(t0);
      while pendingRows != {}
        invariant pendingRows <= edits.Keys
        invariant df.table == ApplyEdits(t0, EditsExcept(edits, pendingRows))
        decreases pendingRows
      {
        var row :| row in pendingRows;
        var updates := edits[row];
        var pendingKeys := updates.Keys;
        ghost var done := EditsExcept(edits, pendingRows);
        UnusedRowChangesNothing(t0, done, row);
        while pendingKeys != {}
          invariant pendingKeys <= updates.Keys
          invariant df.table == ApplyEdits(t0, done[row := EntriesExcept(updates, pendingKeys)])
          decreases pendingKeys
        {
          var key :| key in pendingKeys;
          ghost var before := done[row := EntriesExcept(updates, pendingKeys)];
          SetCellIsOneMoreEdit(t0, before, row, key, updates[key]);
          df.table := SetCell(df.table, row, key, updates[key]);
          OneMoreEntry(done, row, updates, pendingKeys, key);
          pendingKeys := pendingKeys - {key};
        }
        OneMoreRow(edits, pendingRows, row);
        pendingRows := pendingRows - {row};
      }
      assert EditsExcept(edits, {}) == edits;
      ok := true;
    }
  }
}
