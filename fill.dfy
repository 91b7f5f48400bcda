/** Column-level imputation: pandas' `ffill`, `bfill` and `fillna(value)` on one
    sequence of cells, with the nearest-neighbour characterisation of the two
    propagating fills. */
module Fill {
  import opened Frames

  /** `Series.ffill()`: a missing cell takes the value just above it, after that
      value has itself been filled. */
  function ForwardFill(s: seq<Cell>): (r: seq<Cell>)
    ensures |r| == |s|
  {
    if s == [] then []
    else
      var init := ForwardFill(s[..|s| - 1]);
      var last := s[|s| - 1];
      init + [if last != Missing || init == [] then last else init[|init| - 1]]
  }

  /** `Series.bfill()`: a missing cell takes the value just below it, after that
      value has itself been filled. */
  function BackwardFill(s: seq<Cell>): (r: seq<Cell>)
    ensures |r| == |s|
  {
    if s == [] then []
    else
      var tail := BackwardFill(s[1..]);
      [if s[0] != Missing || tail == [] then s[0] else tail[0]] + tail
  }

  /** `Series.fillna(v)`: every missing cell becomes `v`. */
  function FillWith(s: seq<Cell>, v: Cell): (r: seq<Cell>)
    ensures |r| == |s|
  {
    seq(|s|, i requires 0 <= i < |s| => if s[i] == Missing then v else s[i])
  }

  /** Forward fill keeps present cells; a missing cell stays missing exactly when
      nothing at or above it is present, and otherwise holds the value of the
      nearest present cell above it. */
  lemma {:induction false} ForwardFillNearestAbove(s: seq<Cell>, i: nat)
    requires i < |s|
    ensures s[i] != Missing ==> ForwardFill(s)[i] == s[i]
    ensures ForwardFill(s)[i] == Missing <==> forall j :: 0 <= j <= i ==> s[j] == Missing
    ensures ForwardFill(s)[i] != Missing ==>
      exists j :: 0 <= j <= i && ForwardFill(s)[i] == s[j] && forall k :: j < k <= i ==> s[k] == Missing
    decreases |s|
  {
    var init := s[..|s| - 1];
    var r := ForwardFill(s);
    assert r == ForwardFill(init) + [r[|s| - 1]];
    if i < |s| - 1 {
      ForwardFillNearestAbove(init, i);
      assert r[i] == ForwardFill(init)[i];
    } else if s[i] != Missing {
      assert r[i] == s[i];
    } else if i == 0 {
      assert r[i] == Missing;
    } else {
      ForwardFillNearestAbove(init, i - 1);
      assert r[i] == ForwardFill(init)[i - 1];
      if r[i] != Missing {
        var j :| 0 <= j <= i - 1 && ForwardFill(init)[i - 1] == init[j]
                 && forall k :: j < k <= i - 1 ==> init[k] == Missing;
        assert r[i] == s[j] && forall k :: j < k <= i ==> s[k] == Missing;
      }
    }
  }

  /** Backward fill keeps present cells; a missing cell stays missing exactly when
      nothing at or below it is present, and otherwise holds the value of the
      nearest present cell below it. */
  lemma {:induction false} BackwardFillNearestBelow(s: seq<Cell>, i: nat)
    requires i < |s|
    ensures s[i] != Missing ==> BackwardFill(s)[i] == s[i]
    ensures BackwardFill(s)[i] == Missing <==> forall j :: i <= j < |s| ==> s[j] == Missing
    ensures BackwardFill(s)[i] != Missing ==>
      exists j :: i <= j < |s| && BackwardFill(s)[i] == s[j] && forall k :: i <= k < j ==> s[k] == Missing
    decreases |s|
  {
    var tail := s[1..];
    var r := BackwardFill(s);
    assert r == [r[0]] + BackwardFill(tail);
    if i > 0 {
      BackwardFillNearestBelow(tail, i - 1);
      assert r[i] == BackwardFill(tail)[i - 1];
      if r[i] != Missing {
        var j :| i - 1 <= j < |tail| && BackwardFill(tail)[i - 1] == tail[j]
                 && forall k :: i - 1 <= k < j ==> tail[k] == Missing;
        assert r[i] == s[j + 1] && forall k :: i <= k < j + 1 ==> s[k] == Missing;
      }
    } else if s[0] != Missing {
      assert r[0] == s[0];
    } else if |s| == 1 {
      assert r[0] == Missing;
    } else {
      BackwardFillNearestBelow(tail, 0);
      assert r[0] == BackwardFill(tail)[0];
      if r[0] != Missing {
        var j :| 0 <= j < |tail| && BackwardFill(tail)[0] == tail[j]
                 && forall k :: 0 <= k < j ==> tail[k] == Missing;
        assert r[0] == s[j + 1] && forall k :: 0 <= k < j + 1 ==> s[k] == Missing;
      }
    }
  }

  /** After a forward fill, no missing cell remains below a present cell. */
  lemma ForwardFillLeavesOnlyLeadingGaps(s: seq<Cell>, i: nat, j: nat)
    requires j <= i < |s| && s[j] != Missing
    ensures ForwardFill(s)[i] != Missing
  {
    ForwardFillNearestAbove(s, i);
  }

  /** After a backward fill, no missing cell remains above a present cell. */
  lemma BackwardFillLeavesOnlyTrailingGaps(s: seq<Cell>, i: nat, j: nat)
    requires i <= j < |s| && s[j] != Missing
    ensures BackwardFill(s)[i] != Missing
  {
    BackwardFillNearestBelow(s, i);
  }

  /** `fillna(v)` keeps present cells and puts `v` in every missing one. */
  lemma FillWithReplacesOnlyGaps(s: seq<Cell>, v: Cell, i: nat)
    requires i < |s|
    ensures s[i] != Missing ==> FillWith(s, v)[i] == s[i]
    ensures s[i] == Missing ==> FillWith(s, v)[i] == v
  {
  }
}
