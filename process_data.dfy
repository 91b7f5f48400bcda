/** The processing page: which fill methods it offers for a column, when it
    lets an imputation run, and its duplicate-row removal. */
module ProcessData {
  import opened Frames
  import opened Clean
  import Utils

  const CategoricalFillMethods: seq<string> := ["Custom", "Forward Fill", "Backward Fill", "Mode"]
  const NumericFillMethods: seq<string> := ["Custom", "Forward Fill", "Backward Fill", "Mean", "Median", "Mode"]

  /** Python truthiness of an optional text: present and non-empty. */
  predicate Truthy(s: Option<string>)
  {
    s.Some? && s.value != ""
  }

  /** The options of the method selector: the categorical list is checked
      first, then the numeric one. A selection in neither list (including no
      selection) leaves the options unbound, and the raised error ends the panel:
      `None`. */
  function AllowedFillMethods(selected: Option<string>, numeric: seq<string>, categorical: seq<string>): Option<seq<string>>
  {
    if selected.Some? && selected.value in categorical then Some(CategoricalFillMethods)
    else if selected.Some? && selected.value in numeric then Some(NumericFillMethods)
    else None
  }

  /** A categorical column is offered exactly Custom, Forward Fill, Backward
      Fill and Mode, never Mean or Median; a numeric (and not categorical)
      column is offered those four and Mean and Median; any other selection gets
      no options. */
  lemma AllowedFillMethodsByKind(selected: Option<string>, numeric: seq<string>, categorical: seq<string>)
    ensures var r := AllowedFillMethods(selected, numeric, categorical);
      (selected.Some? && selected.value in categorical ==>
         r == Some(["Custom", "Forward Fill", "Backward Fill", "Mode"])
         && "Mean" !in r.value && "Median" !in r.value)
      && (selected.Some? && selected.value !in categorical && selected.value in numeric ==>
         r == Some(["Custom", "Forward Fill", "Backward Fill", "Mean", "Median", "Mode"]))
      && (r.Some? ==> forall m :: m in CategoricalFillMethods ==> m in r.value)
      && (r.None? <==> selected.None? || (selected.value !in categorical && selected.value !in numeric))
  {
  }

  /** The options follow the column's kind as the classifier reports it: a
      column whose label occurs once gets the four methods when it is of object
      kind and the six when it is numeric; a column of any other kind, or one
      whose label is repeated, gets none. */
  lemma AllowedFillMethodsFollowKind(t: Table, j: nat)
    requires j < |t.columns|
    ensures var r := AllowedFillMethods(Some(t.columns[j].name),
                                        Utils.NamesOfKind(t.columns, Numeric),
                                        Utils.NamesOfKind(t.columns, Object));
      (Utils.SoleLabel(t.columns, j) && t.columns[j].kind == Object ==> r == Some(CategoricalFillMethods))
      && (Utils.SoleLabel(t.columns, j) && t.columns[j].kind == Numeric ==> r == Some(NumericFillMethods))
      && (t.columns[j].kind == Other ==> r == None)
      && (!Utils.SoleLabel(t.columns, j) ==> r == None)
  {
    var cols := t.columns;
    var x := cols[j].name;
    Utils.NamesOfKindInColumnOrder(cols, Numeric);
    Utils.NamesOfKindInColumnOrder(cols, Object);
    Utils.ClassificationDisjoint(cols, x);
    var nums := Utils.NamesOfKind(cols, Numeric);
    var objs := Utils.NamesOfKind(cols, Object);
    if !Utils.SoleLabel(cols, j) {
      var i :| 0 <= i < |cols| && i != j && cols[i].name == x;
      Utils.RepeatedLabelInNeitherList(cols, j, i, Numeric);
      Utils.RepeatedLabelInNeitherList(cols, j, i, Object);
    } else if cols[j].kind == Numeric {
      var m :| 0 <= m < |Utils.PositionsOfKind(cols, Numeric)| && Utils.PositionsOfKind(cols, Numeric)[m] == j;
      assert nums[m] == x;
    } else if cols[j].kind == Object {
      var m :| 0 <= m < |Utils.PositionsOfKind(cols, Object)| && Utils.PositionsOfKind(cols, Object)[m] == j;
      assert objs[m] == x;
    } else {
      forall k: Kind, m | k != Other && 0 <= m < |Utils.NamesOfKind(cols, k)|
        ensures Utils.NamesOfKind(cols, k)[m] != x
      {
        Utils.NamesOfKindInColumnOrder(cols, k);
        var p := Utils.PositionsOfKind(cols, k)[m];
        assert p != j && Utils.SoleLabel(cols, p);
        assert cols[j].name != cols[p].name;
      }
      assert x !in nums && x !in objs;
    }
  }

  /** Mean and Median are never offered for an object column, so a choice made
      from the options never asks for them there. */
  lemma OfferedMethodsSuitObjectColumns(t: Table, j: nat, choice: string)
    requires j < |t.columns| && t.columns[j].kind == Object
    requires var options := AllowedFillMethods(Some(t.columns[j].name),
                                               Utils.NamesOfKind(t.columns, Numeric),
                                               Utils.NamesOfKind(t.columns, Object));
      options.Some? && choice in options.value
    ensures choice != "Mean" && choice != "Median"
  {
    AllowedFillMethodsFollowKind(t, j);
  }

  /** The custom-value box appears only for `Custom`; otherwise the value is `None`. */
  function CustomValue(choice: Option<string>, typed: string): (r: Option<string>)
    ensures r.Some? <==> choice == Some("Custom")
    ensures r.Some? ==> r.value == typed
  {
    if choice == Some("Custom") then Some(typed) else None
  }

  /** The impute button is shown when a column is selected and either a method
      other than Custom is chosen, or Custom is chosen with a non-empty value. */
  function MayImpute(selected: Option<string>, choice: Option<string>, custom: Option<string>): bool
  {
    (Truthy(selected) && choice != Some("Custom") && choice != None)
    || (Truthy(selected) && choice == Some("Custom") && Truthy(custom))
  }

  /** The gate in plain terms: a non-empty column label, some method, and a
      non-empty custom value whenever that method is Custom. */
  lemma MayImputeExactly(selected: Option<string>, choice: Option<string>, custom: Option<string>)
    ensures MayImpute(selected, choice, custom) <==>
      selected.Some? && selected.value != "" && choice.Some?
      && (choice.value == "Custom" ==> custom.Some? && custom.value != "")
  {
  }

  /** When the gate lets a selection through, the fill call passes its own
      frame-and-label check, and the method is a key the fill knows: the call
      can then fail only because a statistic cannot be computed. */
  lemma GatedFillFailsOnlyOnStatistics(t: Table, column: string, choice: string, typed: string, stats: Stats,
                                       numeric: seq<string>, categorical: seq<string>)
    requires HasColumn(t, column)
    requires AllowedFillMethods(Some(column), numeric, categorical).Some?
    requires choice in AllowedFillMethods(Some(column), numeric, categorical).value
    requires MayImpute(Some(column), Some(choice), CustomValue(Some(choice), typed))
    ensures column != ""
    ensures FillMissing(t, column, choice, CustomValue(Some(choice), typed), stats).Failed? <==>
      choice != ForwardFillMethod && choice != BackwardFillMethod
      && (stats.mean.None? || stats.median.None? || stats.mode.None?)
  {
  }

  /** `Fill_missing_values`: without columns that have missing values only a
      message is shown (`None`); otherwise the selected column, method and
      custom value, or `None` when the options could not be formed. */
  function FillPanel(withMissing: seq<string>, numeric: seq<string>, categorical: seq<string>,
                     selected: Option<string>, choice: Option<string>, typed: string): (r: Option<(Option<string>, Option<string>, Option<string>)>)
    ensures r.Some? <==> withMissing != [] && AllowedFillMethods(selected, numeric, categorical).Some?
    ensures r.Some? ==> r.value.0 == selected && r.value.1 == choice && r.value.2 == CustomValue(choice, typed)
  {
    if withMissing == [] then None
    else if AllowedFillMethods(selected, numeric, categorical).None? then None
    else Some((selected, choice, CustomValue(choice, typed)))
  }

  /** The "Fill Missing Values" branch of `main`: the panel's selection goes
      through the gate, and a click runs the fill. When the panel produced
      nothing, or the fill returned nothing, unpacking raises and the branch
      shows only a marker. */
  method ImputeStep(cln: CleanData, withMissing: seq<string>, selected: Option<string>, choice: Option<string>,
                    typed: string, clicked: bool, stats: Stats) returns (shown: Option<(string, Option<Cell>)>)
    requires cln.Valid() && cln.df != null
    requires var options := AllowedFillMethods(selected, Utils.NamesOfKind(cln.df.table.columns, Numeric),
                                               Utils.NamesOfKind(cln.df.table.columns, Object));
      choice.None? || (options.Some? && choice.value in options.value)
    modifies cln.df
    ensures cln.Valid() && cln.df == old(cln.df)
    ensures var numeric := Utils.NamesOfKind(old(cln.df.table).columns, Numeric);
      var categorical := Utils.NamesOfKind(old(cln.df.table).columns, Object);
      var panel := FillPanel(withMissing, numeric, categorical, selected, choice, typed);
      if panel.Some? && MayImpute(selected, choice, panel.value.2) && clicked then
        match FillMissing(old(cln.df.table), selected.value, choice.value, panel.value.2, stats)
        case Failed => shown == None && cln.df.table == old(cln.df.table)
        case Filled(t, code, v) => shown == Some((code, v)) && cln.df.table == t
      else
        shown == None && cln.df.table == old(cln.df.table)
  {
    var numeric, categorical := Utils.GetColumnDtype(cln.df);
    var panel := FillPanel(withMissing, numeric, categorical, selected, choice, typed);
    shown := None;
    if panel.Some? && MayImpute(selected, choice, panel.value.2) && clicked {
      shown := cln.FillMissingValues(selected.value, choice.value, panel.value.2, stats);
    }
  }

  /** One frame row: the cells of every column at position `r`. */
  function Row(t: Table, r: nat): (row: seq<Cell>)
    requires t.Valid() && r < t.rows
    ensures |row| == |t.columns|
  {
    seq(|t.columns|, j requires 0 <= j < |t.columns| => t.columns[j].cells[r])
  }

  /** Row `r` equals no earlier row (missing cells compare equal, as in pandas). */
  predicate IsFirstOccurrence(t: Table, r: nat)
    requires t.Valid() && r < t.rows
  {
    forall q :: 0 <= q < r ==> Row(t, q) != Row(t, r)
  }

  /** The positions among the first `n` rows that `drop_duplicates` keeps. */
  function FirstOccurrences(t: Table, n: nat): (at: seq<nat>)
    requires t.Valid() && n <= t.rows
    ensures forall m :: 0 <= m < |at| ==> at[m] < n
  {
    if n == 0 then []
    else FirstOccurrences(t, n - 1) + (if IsFirstOccurrence(t, n - 1) then [n - 1] else [])
  }

  /** How many of the first `n` rows repeat an earlier row. */
  function RepeatCount(t: Table, n: nat): nat
    requires t.Valid() && n <= t.rows
  {
    if n == 0 then 0
    else RepeatCount(t, n - 1) + (if IsFirstOccurrence(t, n - 1) then 0 else 1)
  }

  /** `df.duplicated().sum()`. A frame without columns is `empty` to pandas,
      which then reports no duplicates. */
  function DuplicateCount(t: Table): nat
    requires t.Valid()
  {
    if t.columns == [] then 0 else RepeatCount(t, t.rows)
  }

  /** The frame restricted to the rows at positions `at`, in that order. */
  function SelectRows(t: Table, at: seq<nat>): (r: Table)
    requires t.Valid() && forall m :: 0 <= m < |at| ==> at[m] < t.rows
    ensures r.Valid() && r.rows == |at| && |r.columns| == |t.columns|
    ensures forall j :: 0 <= j < |t.columns| ==> r.columns[j].name == t.columns[j].name && r.columns[j].kind == t.columns[j].kind
  {
    Table(|at|, seq(|t.columns|, j requires 0 <= j < |t.columns| =>
      var c := t.columns[j];
      c.(cells := seq(|at|, m requires 0 <= m < |at| => c.cells[at[m]]))))
  }

  /** `drop_duplicates()`: keeps the first occurrence of every row. A frame
      without columns is returned as it is. */
  function DropDuplicates(t: Table): Table
    requires t.Valid()
  {
    if t.columns == [] then t
    else SelectRows(t, FirstOccurrences(t, t.rows))
  }

  /** Each kept position is the first occurrence of its row. */
  lemma {:induction false} FirstOccurrencesAreFirst(t: Table, n: nat)
    requires t.Valid() && n <= t.rows
    ensures forall m :: 0 <= m < |FirstOccurrences(t, n)| ==> IsFirstOccurrence(t, FirstOccurrences(t, n)[m])
  {
    if n > 0 {
      FirstOccurrencesAreFirst(t, n - 1);
      var at0 := FirstOccurrences(t, n - 1);
      var at := FirstOccurrences(t, n);
      assert at == at0 + (if IsFirstOccurrence(t, n - 1) then [n - 1] else []);
      forall m | 0 <= m < |at|
        ensures IsFirstOccurrence(t, at[m])
      {
        if m < |at0| {
          assert at[m] == at0[m];
        } else {
          assert IsFirstOccurrence(t, n - 1) && at[m] == n - 1;
        }
      }
    }
  }

  /** The kept positions increase. */
  lemma {:induction false} FirstOccurrencesIncrease(t: Table, n: nat)
    requires t.Valid() && n <= t.rows
    ensures forall m, p :: 0 <= m < p < |FirstOccurrences(t, n)| ==> FirstOccurrences(t, n)[m] < FirstOccurrences(t, n)[p]
  {
    if n > 0 {
      FirstOccurrencesIncrease(t, n - 1);
      var at0 := FirstOccurrences(t, n - 1);
      var at := FirstOccurrences(t, n);
      assert at == at0 + (if IsFirstOccurrence(t, n - 1) then [n - 1] else []);
      forall m, p | 0 <= m < p < |at|
        ensures at[m] < at[p]
      {
        assert at[m] == at0[m];
        if p < |at0| {
          assert at[p] == at0[p];
        } else {
          assert at0[m] < n - 1 && at[p] == n - 1;
        }
      }
    }
  }

  /** Every first occurrence among the first `n` rows is kept. */
  lemma {:induction false} FirstOccurrencesComplete(t: Table, n: nat)
    requires t.Valid() && n <= t.rows
    ensures forall r :: 0 <= r < n && IsFirstOccurrence(t, r) ==> r in FirstOccurrences(t, n)
  {
    if n > 0 {
      FirstOccurrencesComplete(t, n - 1);
      var at0 := FirstOccurrences(t, n - 1);
      var at := FirstOccurrences(t, n);
      forall r | 0 <= r < n && IsFirstOccurrence(t, r)
        ensures r in at
      {
        if r < n - 1 {
          assert r in at0;
        } else {
          assert at[|at| - 1] == r;
        }
      }
    }
  }

  /** The kept positions increase, each is a first occurrence, and every first
      occurrence among the first `n` rows is kept. */
  lemma FirstOccurrencesInOrder(t: Table, n: nat)
    requires t.Valid() && n <= t.rows
    ensures var at := FirstOccurrences(t, n);
      (forall m :: 0 <= m < |at| ==> at[m] < n && IsFirstOccurrence(t, at[m]))
      && (forall m, p :: 0 <= m < p < |at| ==> at[m] < at[p])
      && (forall r :: 0 <= r < n && IsFirstOccurrence(t, r) ==> r in at)
  {
    FirstOccurrencesAreFirst(t, n);
    FirstOccurrencesIncrease(t, n);
    FirstOccurrencesComplete(t, n);
  }

  /** Every row is kept or repeats an earlier one, never both. */
  lemma {:induction false} RepeatsAndFirstsPartition(t: Table, n: nat)
    requires t.Valid() && n <= t.rows
    ensures RepeatCount(t, n) + |FirstOccurrences(t, n)| == n
  {
    if n > 0 {
      RepeatsAndFirstsPartition(t, n - 1);
    }
  }

  lemma RowOfSelected(t: Table, at: seq<nat>, m: nat)
    requires t.Valid() && forall k :: 0 <= k < |at| ==> at[k] < t.rows
    requires m < |at|
    ensures Row(SelectRows(t, at), m) == Row(t, at[m])
  {
  }

  /** Every row equal to row `r` has a first occurrence at or before `r`, and
      that occurrence is kept. */
  lemma {:induction false} SomeFirstOccurrenceMatches(t: Table, r: nat)
    requires t.Valid() && r < t.rows
    ensures exists q :: 0 <= q <= r && IsFirstOccurrence(t, q) && Row(t, q) == Row(t, r)
    decreases r
  {
    if !IsFirstOccurrence(t, r) {
      var q :| 0 <= q < r && Row(t, q) == Row(t, r);
      SomeFirstOccurrenceMatches(t, q);
    }
  }

  /** Duplicate removal drops exactly the counted rows, keeps labels and kinds,
      keeps each kept row in its original relative order, and loses no distinct
      row: every original row is still present. */
  lemma DropDuplicatesKeepsFirstOccurrences(t: Table)
    requires t.Valid() && t.columns != []
    ensures var d := DropDuplicates(t);
      var at := FirstOccurrences(t, t.rows);
      d.Valid() && d.rows == t.rows - DuplicateCount(t) && d.rows == |at|
      && (forall m :: 0 <= m < |at| ==> at[m] < t.rows && IsFirstOccurrence(t, at[m]) && Row(d, m) == Row(t, at[m]))
      && (forall m, p :: 0 <= m < p < |at| ==> at[m] < at[p])
      && (forall r :: 0 <= r < t.rows ==> exists m :: 0 <= m < d.rows && Row(d, m) == Row(t, r))
  {
    var d := DropDuplicates(t);
    var at := FirstOccurrences(t, t.rows);
    FirstOccurrencesInOrder(t, t.rows);
    RepeatsAndFirstsPartition(t, t.rows);
    forall m | 0 <= m < |at|
      ensures Row(d, m) == Row(t, at[m])
    {
      RowOfSelected(t, at, m);
    }
    forall r | 0 <= r < t.rows
      ensures exists m :: 0 <= m < d.rows && Row(d, m) == Row(t, r)
    {
      SomeFirstOccurrenceMatches(t, r);
      var q :| 0 <= q <= r && IsFirstOccurrence(t, q) && Row(t, q) == Row(t, r);
      assert q in at;
      var m :| 0 <= m < |at| && at[m] == q;
      assert Row(d, m) == Row(t, r);
    }
  }

  lemma {:induction false} NoRepeatsWhenAllFirst(t: Table, n: nat)
    requires t.Valid() && n <= t.rows
    requires forall r :: 0 <= r < n ==> IsFirstOccurrence(t, r)
    ensures RepeatCount(t, n) == 0
  {
    if n > 0 {
      NoRepeatsWhenAllFirst(t, n - 1);
    }
  }

  /** After duplicate removal the frame has no duplicate rows left, so a second
      visit to the page finds nothing to drop. */
  lemma NoDuplicatesRemain(t: Table)
    requires t.Valid()
    ensures DropDuplicates(t).Valid() && DuplicateCount(DropDuplicates(t)) == 0
  {
    if t.columns != [] {
      var d := DropDuplicates(t);
      var at := FirstOccurrences(t, t.rows);
      DropDuplicatesKeepsFirstOccurrences(t);
      forall r | 0 <= r < d.rows
        ensures IsFirstOccurrence(d, r)
      {
        forall q | 0 <= q < r
          ensures Row(d, q) != Row(d, r)
        {
          assert at[q] < at[r];
          assert IsFirstOccurrence(t, at[r]);
        }
      }
      NoRepeatsWhenAllFirst(d, d.rows);
    }
  }

  lemma {:induction false} AllFirstWhenNoRepeats(t: Table, n: nat)
    requires t.Valid() && n <= t.rows && RepeatCount(t, n) == 0
    ensures FirstOccurrences(t, n) == seq(n, i => i)
  {
    if n > 0 {
      AllFirstWhenNoRepeats(t, n - 1);
    }
  }

  /** A frame without duplicate rows is left as it is, so removing duplicates
      twice is the same as removing them once. */
  lemma DropDuplicatesIdempotent(t: Table)
    requires t.Valid()
    ensures DuplicateCount(t) == 0 ==> DropDuplicates(t) == t
    ensures DropDuplicates(t).Valid() && DropDuplicates(DropDuplicates(t)) == DropDuplicates(t)
  {
    if DuplicateCount(t) == 0 && t.columns != [] {
      AllFirstWhenNoRepeats(t, t.rows);
      SameTable(DropDuplicates(t), t);
    }
    var d := DropDuplicates(t);
    NoDuplicatesRemain(t);
    if d.columns != [] {
      AllFirstWhenNoRepeats(d, d.rows);
      SameTable(DropDuplicates(d), d);
    }
  }

  /** What the duplicate branch of the page does. */
  datatype DuplicateStep =
    | Dropped(count: nat, code: string)  // duplicates were present and the drop button was clicked
    | Offered(count: nat)                // duplicates are present; the drop button is shown, not clicked
    | NoDuplicates                       // only the "no duplicate rows" message is shown

  /** The "Drop Duplicate Rows" branch of `main`, on the frame the page shares
      with the cleaning object. */
  method HandleDuplicateRows(df: Frame, clicked: bool) returns (step: DuplicateStep)
    requires df.table.Valid()
    modifies df
    ensures df.table.Valid()
    ensures var n := DuplicateCount(old(df.table));
      (n == 0 ==> step == NoDuplicates && df.table == old(df.table))
      && (n > 0 && !clicked ==> step == Offered(n) && df.table == old(df.table))
      && (n > 0 && clicked ==>
            step == Dropped(n, "df.drop_duplicates(inplace=True)") && df.table == DropDuplicates(old(df.table)))
  {
    var duplicates := DuplicateCount(df.table);
    if duplicates > 0 && clicked {
      NoDuplicatesRemain(df.table);
      df.table := DropDuplicates(df.table);
      step := Dropped(duplicates, "df.drop_duplicates(inplace=True)");
    } else if duplicates == 0 {
      step := NoDuplicates;
    } else {
      step := Offered(duplicates);
    }
  }
}
