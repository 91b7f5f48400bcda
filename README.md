# data-cleaner: the table-editing core

data-cleaner is a small Streamlit application. A user uploads a CSV file and
cleans it: filling missing values, renaming columns, dropping columns, dropping
duplicate rows and editing cells in a grid. Every edit except the grid edits
also produces a snippet of pandas code that repeats it. This project models the
engine behind those edits:

- the `CleanData` object (`source/clean_data.py`). It holds one DataFrame and
  changes it in place;
- the dtype classifier `get_column_dtype` (`source/utils.py`);
- the parts of the processing page (`source/pages/Process_Data.py`) that decide
  something: which fill methods a column is offered, when the "Impute Values"
  button is shown, and the duplicate-row branch.

The model is laid out in six modules:

- `Frames`: the data model. A `Table` has a row count and a sequence of
  labelled, typed `Column`s. A cell is `Missing`, `Num(int)` or `Text`. A
  `Frame` is a class holding a `Table`, standing for the shared pandas object.
  The page's session state and the `CleanData` object both point at the same
  `Frame`, so in-place changes and the `self.df = None` assignment after a drop
  are visible as they are in the source.
- `Fill`: `ffill`, `bfill` and `fillna(v)` on one column. The lemmas here
  characterise the two propagating fills: each missing cell takes the nearest
  present value above (or below) it.
- `Transcript`: the generated code strings. Each lemma states which labels
  appear in the code.
- `Clean`: the pure meaning of each `CleanData` operation, with its lemmas, and
  the `CleanData` class whose methods change the frame in place. Each method is
  proved against the pure function.
- `Utils`: `get_column_dtype` as a loop, proved against a list function, with
  the properties of the classification.
- `ProcessData`: the fill-method options, the impute gate, the impute branch,
  and duplicate-row counting and removal.

Behaviours of the code worth knowing:

- Renaming a label the frame does not have is a silent no-op: pandas `rename`
  ignores unknown labels.
- A boolean column counts as numeric, because `is_numeric_dtype` accepts
  booleans. The model leaves the dtype of a column as an input (`Kind`), so
  boolean columns are `Numeric`.
- A label carried by more than one column is in neither dtype list: `df[col]`
  is then a DataFrame, which neither `is_numeric_dtype` nor `is_object_dtype`
  accepts. Such a column is offered no fill methods.
- Backward Fill emits the same `.ffill()` code as Forward Fill
  (`clean_data.py` line 36). `Clean.BackwardFillTakesNearestBelow` states
  this.

## Model

| member | source | states |
|---|---|---|
| Fill.ForwardFillNearestAbove | source/clean_data.py:31-33 | `Fill.ForwardFill` models `Series.ffill()`. After `ffill` a present cell is unchanged. A cell is still missing exactly when every cell at or above it is missing. Otherwise it holds the value of the nearest present cell above it. |
| Fill.BackwardFillNearestBelow | source/clean_data.py:34-35 | `Fill.BackwardFill` models `Series.bfill()`. It is the mirror image of `ffill`: a cell is still missing exactly when every cell at or below it is missing; otherwise it holds the nearest present value below it. |
| Fill.ForwardFillLeavesOnlyLeadingGaps | source/clean_data.py:33 | After `ffill`, no cell at or below a present cell is missing. |
| Fill.BackwardFillLeavesOnlyTrailingGaps | source/clean_data.py:35 | After `bfill`, no cell at or above a present cell is missing. |
| Fill.FillWithReplacesOnlyGaps | source/clean_data.py:44 | `Fill.FillWith` models `fillna(v)` on the column. `fillna(v)` keeps every present cell and writes `v` into every missing one. |
| Transcript.ForwardFillCode | source/clean_data.py:32 | The propagating-fill code names the filled column. |
| Transcript.ScalarFillCode | source/clean_data.py:46-50 | The scalar-fill code, whether it is the custom-value comment or the statistic assignment followed by `fillna`, names the filled column. It also contains the fill value as rendered text. |
| Transcript.RenameCode | source/clean_data.py:68-70 | The rename code names both the old and the new label. |
| Transcript.DropCodeNamesEvery | source/clean_data.py:85 | Every dropped label appears, quoted, in the drop code. |
| Clean.FillFailsExactlyWhenSourceRaises | source/clean_data.py:27-55 | `Clean.FillMissing` models the body of `fill_missing_values`. On a frame with a non-empty label, the fill fails (the exception is caught and nothing is returned) exactly when one of these holds: the label is absent; or a non-propagating method is requested and any of mean, median or mode cannot be computed; or the method is not a dictionary key; or Custom comes without a value. |
| Clean.CustomFillNeedsEveryStatistic | source/clean_data.py:38-43 | The dictionary is built eagerly, so a Custom fill fails whenever the column's mean cannot be computed. |
| Clean.FillTouchesOnlyGaps | source/clean_data.py:27-52 | A successful fill keeps the row count, labels and kinds. It leaves every other column unchanged and never changes a present cell. |
| Clean.ForwardFillTakesNearestAbove | source/clean_data.py:31-33 | Forward Fill on a present label succeeds with value `None`. Every column with that label is forward-filled: each missing cell takes the nearest present value above it. |
| Clean.BackwardFillTakesNearestBelow | source/clean_data.py:34-36 | Backward Fill succeeds with value `None` and fills from the nearest present value below. Its code is identical to Forward Fill's code. |
| Clean.ScalarFillUsesOneValue | source/clean_data.py:37-50 | A successful scalar fill writes one value into every missing cell of the column and returns that value. The value is the custom text for Custom, and otherwise the statistic the method names. The code names the column. |
| Clean.RenameColumns | source/clean_data.py:67 | A rename keeps the row count and column order. Each column labelled `oldName` gets label `newName`, with its cells and kind kept. Every other column is unchanged. Validity is kept. |
| Clean.RenameReplacesLabel | source/clean_data.py:67 | After a rename the old label is gone, unless it equals the new one. The new label is present whenever the old one was. Every other label is present exactly when it was before. |
| Clean.RenameAbsentLabelIsNoOp | source/clean_data.py:67 | Renaming a label the frame does not have changes nothing. |
| Clean.RenameRoundTrip | source/clean_data.py:67 | When the new label was unused, renaming back restores the original frame. |
| Clean.RenameOntoUsedLabelDuplicates | source/clean_data.py:67 | There is no collision check: renaming onto a label already in use leaves two columns with the same label. |
| Clean.KeptColumnsAtPositions | source/clean_data.py:84 | The m-th column left after a drop is the column at the m-th kept position, and its label is not named. |
| Clean.KeptPositionsComplete | source/clean_data.py:84 | Every column whose label is not named keeps its position in the result. |
| Clean.DropKeepsOthersInOrder | source/clean_data.py:84 | `Clean.DropColumns` models `drop(columns=...)` through `Clean.KeepColumns`. A drop keeps exactly the columns whose label is not named, unchanged and in their original relative order. |
| Clean.DropRemovesNamedLabels | source/clean_data.py:84 | After a drop no named label remains. Every unnamed label is present exactly when it was before, and the row count is unchanged. |
| Clean.SetCell | source/clean_data.py:97 | `df.loc[row, key] = v` changes only the cell in that row of the columns labelled `key`, and keeps the shape. |
| Clean.ApplyEditsIdempotent | source/clean_data.py:93-97 | `Clean.ApplyEdits` gives the frame after all the grid's `loc` writes. Applying the same grid patch twice gives the same frame as applying it once. |
| Clean.EmptyEditsChangeNothing | source/clean_data.py:93-97 | An empty patch leaves the frame unchanged. |
| Clean.SetCellIsOneMoreEdit | source/clean_data.py:95-97 | One `loc` write on a patched frame equals the patch extended by that entry. This is the step of the loop proof. |
| Clean.CleanData.constructor | source/clean_data.py:13-14 | The object holds the frame it is given. Its invariant `Valid()` holds from the start. |
| Clean.CleanData.FillMissingValues | source/clean_data.py:16-55 | Without a frame, or with an empty label, the frame is unchanged and `None` is returned. Otherwise the shared frame takes the contents `Clean.FillMissing` gives, and the code and value are returned. On a caught failure the frame is unchanged and `None` is returned. |
| Clean.CleanData.ChangeColumnName | source/clean_data.py:57-72 | With a frame, the frame is relabelled in place to `Clean.RenameColumns` of its old contents, and the rename code is returned. Without one the source raises, shown as `None`. |
| Clean.CleanData.DropColumn | source/clean_data.py:74-89 | With a frame, a non-empty list and every label present, the shared frame becomes `Clean.DropColumns` of its old contents, the object's own `df` becomes `None` and the drop code is returned. With an absent label, nothing changes and `None` is returned. |
| Clean.CleanData.DfOnChange | source/clean_data.py:93-97 | The nested loops leave the frame equal to `Clean.ApplyEdits` of the original: every patched cell is overwritten and every other cell is kept. Without a frame it fails as soon as the patch names a cell. A patch that names no cell returns normally. |
| Utils.GetColumnDtype | source/utils.py:6-23 | The loop returns `Utils.NamesOfKind` for the numeric and the object kind: in column order, the labels of the numeric columns and the labels of the object columns. A column is listed only when its label occurs once, because only then is `df[col]` a Series. |
| Utils.PositionsUpToListed | source/utils.py:18-22 | Every position listed after n columns is below n and holds a column of the list's kind whose label occurs once. |
| Utils.PositionsUpToComplete | source/utils.py:18-22 | Every such column among the first n is listed. |
| Utils.PositionsOfKindInOrder | source/utils.py:18-22 | The listed positions of one kind increase. They are exactly the columns of that kind whose label occurs once. |
| Utils.NamesOfKindAtPositions | source/utils.py:18-22 | The m-th classified label is the label of the m-th listed column of that kind. |
| Utils.NamesOfKindInColumnOrder | source/utils.py:17-23 | Each list holds, in column order, exactly the labels of the columns of its kind whose label occurs once, with none of those skipped. |
| Utils.ClassifiedNamesAreColumns | source/utils.py:18-22 | Every label in a list belongs to exactly one column, and that column has the list's kind. |
| Utils.ClassificationCountsEachColumnOnce | source/utils.py:18-22 | The elif means each column is counted in at most one list. When labels are distinct, the numeric, object and other columns together account for every column. |
| Utils.ClassificationDisjoint | source/utils.py:19-22 | No label is in both lists. |
| Utils.RepeatedLabelInNeitherList | source/utils.py:18-22 | A label carried by two columns is in neither list, whatever the columns' kinds. |
| ProcessData.AllowedFillMethodsByKind | source/pages/Process_Data.py:15-19 | `ProcessData.AllowedFillMethods` models the options. A label in the categorical list is offered Custom, Forward Fill, Backward Fill and Mode, never Mean or Median. A label in only the numeric list gets those and also Mean and Median. Any other selection, including no selection, leaves the options unbound. |
| ProcessData.AllowedFillMethodsFollowKind | source/pages/Process_Data.py:12-18 | A column whose label occurs once gets the four categorical methods if it is of object kind and the six if it is numeric. A column of any other kind gets none, and so does a column whose label is repeated. |
| ProcessData.OfferedMethodsSuitObjectColumns | source/pages/Process_Data.py:15-19 | A method chosen from the options for an object column is never Mean or Median. |
| ProcessData.CustomValue | source/pages/Process_Data.py:20-22 | A custom value is read only when Custom is chosen, and it is the typed text. |
| ProcessData.FillPanel | source/pages/Process_Data.py:8-27 | The panel returns a selection exactly when some column has missing values and the options could be formed. The selection carries the chosen column, the chosen method and the custom value. |
| ProcessData.MayImputeExactly | source/pages/Process_Data.py:63 | `ProcessData.MayImpute` models the condition of line 63. The impute button is shown exactly when the label is non-empty, a method is chosen, and Custom comes with a non-empty value. |
| ProcessData.GatedFillFailsOnlyOnStatistics | source/pages/Process_Data.py:62-66 | A selection that passes the gate, on a present column, fails only when a statistic cannot be computed, and never for the propagating fills. |
| ProcessData.ImputeStep | source/pages/Process_Data.py:58-75 | The chosen method is one of the offered options, or none. It models lines 61-75 as they would run if the missing-columns helper existed. The branch classifies the frame, builds the panel and applies the gate. On a click it runs the fill; the shared frame changes exactly as the fill says and stays unchanged otherwise. |
| ProcessData.SelectRows | source/pages/Process_Data.py:116 | Selecting rows keeps labels and kinds and yields a valid frame with one row per selected position. |
| ProcessData.FirstOccurrencesAreFirst | source/pages/Process_Data.py:116 | Every row kept by `drop_duplicates` equals no earlier row. |
| ProcessData.FirstOccurrencesComplete | source/pages/Process_Data.py:116 | Every row that equals no earlier row is kept. |
| ProcessData.FirstOccurrencesInOrder | source/pages/Process_Data.py:116 | The positions kept by `drop_duplicates` increase. Each is the first occurrence of its row, and every first occurrence is kept. |
| ProcessData.RepeatsAndFirstsPartition | source/pages/Process_Data.py:113-116 | `ProcessData.DuplicateCount` models `duplicated().sum()` and `ProcessData.DropDuplicates` models `drop_duplicates()`. Every row is either counted by `duplicated().sum()` or kept by `drop_duplicates()`, never both. |
| ProcessData.SomeFirstOccurrenceMatches | source/pages/Process_Data.py:116 | Every row has an equal row at or before it that is a first occurrence. |
| ProcessData.DropDuplicatesKeepsFirstOccurrences | source/pages/Process_Data.py:113-116 | Removing duplicates drops exactly the counted number of rows and keeps the first occurrences in their original order. Every distinct row survives. |
| ProcessData.NoDuplicatesRemain | source/pages/Process_Data.py:113-118 | After duplicate removal, the duplicate count is zero. |
| ProcessData.DropDuplicatesIdempotent | source/pages/Process_Data.py:116 | A frame without duplicates is left as it is, so removing duplicates twice equals removing them once. |
| ProcessData.HandleDuplicateRows | source/pages/Process_Data.py:111-120 | With no duplicates, only the message is shown. With duplicates and no click, the drop button with the count is offered. With a click, the shared frame becomes its de-duplicated self and `df.drop_duplicates(inplace=True)` is shown. |

## Left out

- Floating point. Cells hold integers or text, so `round(mean, 2)`, NaN arithmetic and float formatting in the generated code are not modelled. `Render` prints integers in decimal.
- Mean, median and mode are inputs to the fill (`Clean.Stats`), each `None` when pandas would raise. The model does not compute them.
- Dtype changes. A fill or a grid edit can change a column's pandas dtype, for example a text custom value in a numeric column. The model keeps each column's `Kind` fixed.
- Index labels. `df.loc[index, key]` is modelled with the row position as its label, as with a default `RangeIndex`. A patch must name existing rows and labels (`Clean.EditsInRange`), so `loc` enlargement is not modelled. After `drop_duplicates` (Process_Data.py line 116) pandas keeps the surviving rows' original index labels. A later grid patch (clean_data.py line 97) then writes by label and can add a row where the label is gone. The model's `ProcessData.DropDuplicates` followed by `Clean.ApplyEdits` instead writes by position.
- Python `repr` escaping of labels in the drop code: labels are quoted as written.
- `CleanData.editor` and all other Streamlit calls: rendering, widgets, session state and logging. Button clicks, widget choices and typed text become parameters.
- `cln.get_columns_with_missing_values()` (Process_Data.py line 60) is not defined on `CleanData` in this source. As written, line 60 raises AttributeError outside the `try`, so the "Fill Missing Values" branch stops there and never reaches the panel, the gate or the fill. `ProcessData.ImputeStep` models lines 61-75 as they would run if the helper existed, with its result as a parameter.
- The page's rename branch (Process_Data.py lines 77-93) is not modelled separately. It offers the labels of `df.columns` (line 81) and calls `change_column_name` only when a column is chosen, the new name is non-empty (line 83) and the button is clicked; the method itself is `Clean.CleanData.ChangeColumnName`.
- The page's drop branch (Process_Data.py lines 95-108) and the data summary are not modelled separately either. The drop branch offers the labels of `df.columns` (line 98) and calls `drop_column` on a click; the method itself is `Clean.CleanData.DropColumn`. Both only display results otherwise.
- `Load_Data.py`, `encode_data.py`, the older `Process Data.py` page, `setup.py` and the logger are not part of this model.
