/**
 * Stripe planning of select_stripes: which stripes of which files to read,
 * and the row window relative to the first stripe read.
 *
 * Explicit mode takes a list of stripe indices per file. Range mode clamps
 * the requested row window to the rows of the dataset and walks the stripes
 * of all files in order with a running row counter, stopping once the
 * counter reaches the end of the window. Stripe references are
 * (file index, stripe index) pairs.
 */
module StripeSelection {
  import opened OrcMetadata

  /** Largest value of the reader's 32-bit signed `size_type`. */
  const SizeTypeMax: int := 0x7fff_ffff

  /** The stripes to read from one source, as indices into its stripe directory. */
  datatype StripeSourceMapping = StripeSourceMapping(sourceIdx: nat, stripes: seq<nat>)

  /** The result of planning: the per-source stripe lists and the adjusted row window. */
  datatype StripePlan = StripePlan(mappings: seq<StripeSourceMapping>, rowStart: int, rowCount: int)

  /** `m` names an existing source, and every stripe index of `m` exists in that source. */
  ghost predicate MappingInRange(files: seq<FileMetadata>, m: StripeSourceMapping)
  {
    m.sourceIdx < |files| && forall j :: 0 <= j < |m.stripes| ==> m.stripes[j] < |files[m.sourceIdx].stripes|
  }

  /** Every mapping is in range. */
  ghost predicate ValidMappings(files: seq<FileMetadata>, mappings: seq<StripeSourceMapping>)
  {
    forall i :: 0 <= i < |mappings| ==> MappingInRange(files, mappings[i])
  }

  /** Sum of the row counts of the stripes listed by `idxs`, in list order. */
  function ListedRows(stripes: seq<StripeInfo>, idxs: seq<int>): nat
    requires forall j :: 0 <= j < |idxs| ==> 0 <= idxs[j] < |stripes|
  {
    if idxs == [] then 0 else ListedRows(stripes, idxs[..|idxs| - 1]) + stripes[idxs[|idxs| - 1]].numberOfRows
  }

  lemma {:induction false} ListedRowsAppend(stripes: seq<StripeInfo>, idxs: seq<int>, i: int)
    requires forall j :: 0 <= j < |idxs| ==> 0 <= idxs[j] < |stripes|
    requires 0 <= i < |stripes|
    ensures ListedRows(stripes, idxs + [i]) == ListedRows(stripes, idxs) + stripes[i].numberOfRows
  {
    assert (idxs + [i])[..|idxs|] == idxs;
  }

  /** Sum of the row counts of every stripe the mappings list. */
  ghost function MappedRows(files: seq<FileMetadata>, mappings: seq<StripeSourceMapping>): nat
    requires ValidMappings(files, mappings)
  {
    if mappings == [] then 0
    else
      var last := mappings[|mappings| - 1];
      MappedRows(files, mappings[..|mappings| - 1]) + ListedRows(files[last.sourceIdx].stripes, last.stripes)
  }

  lemma {:induction false} MappedRowsAppend(files: seq<FileMetadata>, mappings: seq<StripeSourceMapping>, m: StripeSourceMapping)
    requires ValidMappings(files, mappings) && m.sourceIdx < |files|
    requires forall j :: 0 <= j < |m.stripes| ==> m.stripes[j] < |files[m.sourceIdx].stripes|
    ensures ValidMappings(files, mappings + [m])
    ensures MappedRows(files, mappings + [m]) == MappedRows(files, mappings) + ListedRows(files[m.sourceIdx].stripes, m.stripes)
  {
    assert (mappings + [m])[..|mappings|] == mappings;
  }

  // ---------------------------------------------------------------------------
  // Explicit mode
  // ---------------------------------------------------------------------------

  /** There is a stripe list for each of the first `|requested|` files and every listed index exists. */
  ghost predicate IndicesExist(files: seq<FileMetadata>, requested: seq<seq<int>>)
  {
    && |requested| <= |files|
    && forall i, j :: 0 <= i < |requested| && 0 <= j < |requested[i]| ==> 0 <= requested[i][j] < |files[i].stripes|
  }

  /** Sum of the row counts of every requested stripe. */
  ghost function RequestedRows(files: seq<FileMetadata>, requested: seq<seq<int>>): nat
    requires IndicesExist(files, requested)
  {
    if requested == [] then 0
    else
      var i := |requested| - 1;
      RequestedRows(files, requested[..i]) + ListedRows(files[i].stripes, requested[i])
  }

  /** What a successful explicit-mode plan holds: the caller's lists, in file order, and the rows they hold. */
  ghost predicate ExplicitPlanned(files: seq<FileMetadata>, requested: seq<seq<int>>, plan: StripePlan)
  {
    && |plan.mappings| == |requested| == |files|
    && IndicesExist(files, requested)
    && (forall i :: 0 <= i < |files| ==> plan.mappings[i].sourceIdx == i && plan.mappings[i].stripes == requested[i])
    && plan.rowStart == 0
    && plan.rowCount == RequestedRows(files, requested)
  }

  /**
   * Explicit mode of select_stripes: one stripe list per file is required,
   * the start row must be 0, and every index must exist in its file (a
   * negative index converts to a huge unsigned value and fails the same
   * check). The row count becomes the sum of the rows of the listed stripes.
   */
  method SelectExplicit(files: seq<FileMetadata>, requested: seq<seq<int>>, rowStart: int) returns (r: Result<StripePlan>)
    ensures |requested| != |files| ==> r == Failure(StripesPerSourceMismatch)
    ensures |requested| == |files| && rowStart != 0 ==> r == Failure(NonZeroRowStart)
    ensures |requested| == |files| && rowStart == 0 && !IndicesExist(files, requested) ==> r == Failure(InvalidStripeIndex)
    ensures r.Success? <==> |requested| == |files| && rowStart == 0 && IndicesExist(files, requested)
    ensures r.Success? ==> ExplicitPlanned(files, requested, r.value)
    ensures r.Success? ==> ValidMappings(files, r.value.mappings)
  {
    if |requested| != |files| {
      return Failure(StripesPerSourceMismatch);
    }
    if rowStart != 0 {
      return Failure(NonZeroRowStart);
    }
    var rowCount := 0;
    var mappings: seq<StripeSourceMapping> := [];
    for i := 0 to |requested|
      invariant |mappings| == i
      invariant IndicesExist(files, requested[..i])
      invariant forall k :: 0 <= k < i ==> mappings[k].sourceIdx == k && mappings[k].stripes == requested[k]
      invariant ValidMappings(files, mappings)
      invariant rowCount == RequestedRows(files, requested[..i])
    {
      var infos: seq<nat> := [];
      for j := 0 to |requested[i]|
        invariant infos == requested[i][..j]
        invariant forall k :: 0 <= k < |infos| ==> 0 <= infos[k] < |files[i].stripes|
        invariant rowCount == RequestedRows(files, requested[..i]) + ListedRows(files[i].stripes, infos)
      {
        var idx := requested[i][j];
        if !(0 <= idx < |files[i].stripes|) {
          return Failure(InvalidStripeIndex);
        }
        ListedRowsAppend(files[i].stripes, infos, idx);
        assert requested[i][..j + 1] == infos + [idx];
        infos := infos + [idx];
        rowCount := rowCount + files[i].stripes[idx].numberOfRows;
      }
      assert infos == requested[i];
      RequestedPrefixStep(files, requested, i);
      MappedRowsAppend(files, mappings, StripeSourceMapping(i, infos));
      mappings := mappings + [StripeSourceMapping(i, infos)];
    }
    assert requested[..|requested|] == requested;
    return Success(StripePlan(mappings, 0, rowCount));
  }

  /** Accepting the list of source `i` extends the accepted prefix of the request by one source. */
  lemma RequestedPrefixStep(files: seq<FileMetadata>, requested: seq<seq<int>>, i: nat)
    requires i < |requested| && i < |files| && IndicesExist(files, requested[..i])
    requires forall k :: 0 <= k < |requested[i]| ==> 0 <= requested[i][k] < |files[i].stripes|
    ensures IndicesExist(files, requested[..i + 1])
    ensures RequestedRows(files, requested[..i + 1]) == RequestedRows(files, requested[..i]) + ListedRows(files[i].stripes, requested[i])
  {
    assert requested[..i + 1][..i] == requested[..i];
    assert requested[..i + 1] == requested[..i] + [requested[i]];
  }

  /** The stripes of an explicit plan hold exactly the rows its row count announces. */
  lemma ExplicitPlanCoversRows(files: seq<FileMetadata>, requested: seq<seq<int>>, plan: StripePlan)
    requires ExplicitPlanned(files, requested, plan)
    ensures ValidMappings(files, plan.mappings)
    ensures MappedRows(files, plan.mappings) == plan.rowCount
  {
    ExplicitPrefixRows(files, requested, plan.mappings, |requested|);
    assert requested[..|requested|] == requested;
    assert plan.mappings[..|requested|] == plan.mappings;
  }

  lemma {:induction false} ExplicitPrefixRows(files: seq<FileMetadata>, requested: seq<seq<int>>,
                                              mappings: seq<StripeSourceMapping>, k: nat)
    requires IndicesExist(files, requested) && |mappings| == |requested| && k <= |requested|
    requires forall i :: 0 <= i < |mappings| ==> mappings[i].sourceIdx == i && mappings[i].stripes == requested[i]
    ensures IndicesExist(files, requested[..k]) && ValidMappings(files, mappings[..k])
    ensures MappedRows(files, mappings[..k]) == RequestedRows(files, requested[..k])
    decreases k
  {
    if k > 0 {
      ExplicitPrefixRows(files, requested, mappings, k - 1);
      assert requested[..k][..k - 1] == requested[..k - 1];
      assert mappings[..k][..k - 1] == mappings[..k - 1];
    }
  }

  // ---------------------------------------------------------------------------
  // Range mode
  // ---------------------------------------------------------------------------

  /** `std::max(row_start, 0)` */
  function ClampedStart(rowStart: int): nat
  {
    if rowStart < 0 then 0 else rowStart
  }

  /**
   * The row count after clamping: a negative request means "to the end"
   * (capped at the largest size_type), and any request is cut down to the
   * rows left after the start. Negative when the start lies past the end.
   */
  function ClampedCount(total: nat, rowStart: int, rowCount: int): int
  {
    var requested := if rowCount < 0 then (if total < SizeTypeMax then total else SizeTypeMax) else rowCount;
    var left := total - ClampedStart(rowStart);
    if left < requested then left else requested
  }

  /** The clamped window never reaches past the last row, and keeps a request that fits. */
  lemma ClampedWindow(total: nat, rowStart: int, rowCount: int)
    ensures var count := ClampedCount(total, rowStart, rowCount);
            && (count >= 0 <==> ClampedStart(rowStart) <= total)
            && ClampedStart(rowStart) + count <= total
            && (0 <= rowCount <= total - ClampedStart(rowStart) ==> count == rowCount)
            && (rowCount < 0 && total <= SizeTypeMax ==> count == total - ClampedStart(rowStart))
  {
  }

  /** The walk reaches stripe `s` of file `f`: fewer than `end` rows come before it. */
  predicate Reached(files: seq<FileMetadata>, end: int, f: nat, s: nat)
    requires f < |files| && s <= |files[f].stripes|
  {
    RowsBefore(files, f, s) < end
  }

  /** The selection rule: the running count including stripe `s` exceeds the start row, or is still 0. */
  predicate Picked(files: seq<FileMetadata>, start: nat, f: nat, s: nat)
    requires f < |files| && s < |files[f].stripes|
  {
    var count := RowsBefore(files, f, s + 1);
    count > start || count == 0
  }

  /** A stripe the walk reaches but does not select; its rows come before the start row. */
  predicate Skipped(files: seq<FileMetadata>, start: nat, end: int, f: nat, s: nat)
    requires f < |files| && s < |files[f].stripes|
  {
    Reached(files, end, f, s) && !Picked(files, start, f, s)
  }

  /** The stripes among the first `k` of file `f` that the walk reaches and selects, in index order. */
  function Selected(files: seq<FileMetadata>, start: nat, end: int, f: nat, k: nat): seq<nat>
    requires f < |files| && k <= |files[f].stripes|
  {
    if k == 0 then []
    else
      Selected(files, start, end, f, k - 1)
      + (if Reached(files, end, f, k - 1) && Picked(files, start, f, k - 1) then [k - 1] else [])
  }

  /** `Selected` lists only reached and picked stripes below `k`. */
  lemma {:induction false} SelectedSound(files: seq<FileMetadata>, start: nat, end: int, f: nat, k: nat)
    requires f < |files| && k <= |files[f].stripes|
    ensures forall i :: 0 <= i < |Selected(files, start, end, f, k)| ==>
              var s := Selected(files, start, end, f, k)[i];
              s < k && Reached(files, end, f, s) && Picked(files, start, f, s)
    decreases k
  {
    if k > 0 {
      SelectedSound(files, start, end, f, k - 1);
      var prev := Selected(files, start, end, f, k - 1);
      var sel := Selected(files, start, end, f, k);
      assert sel == prev + (if Reached(files, end, f, k - 1) && Picked(files, start, f, k - 1) then [k - 1] else []);
      forall i | 0 <= i < |sel|
        ensures sel[i] < k && Reached(files, end, f, sel[i]) && Picked(files, start, f, sel[i])
      {
        if i < |prev| {
          assert sel[i] == prev[i];
        } else {
          assert sel[i] == k - 1;
        }
      }
    }
  }

  /** `Selected` lists stripes in strictly increasing index order. */
  lemma {:induction false} SelectedIncreasing(files: seq<FileMetadata>, start: nat, end: int, f: nat, k: nat)
    requires f < |files| && k <= |files[f].stripes|
    ensures forall i, j :: 0 <= i < j < |Selected(files, start, end, f, k)| ==>
              Selected(files, start, end, f, k)[i] < Selected(files, start, end, f, k)[j]
    decreases k
  {
    if k > 0 {
      SelectedIncreasing(files, start, end, f, k - 1);
      SelectedSound(files, start, end, f, k - 1);
      var prev := Selected(files, start, end, f, k - 1);
      var sel := Selected(files, start, end, f, k);
      assert sel == prev + (if Reached(files, end, f, k - 1) && Picked(files, start, f, k - 1) then [k - 1] else []);
      forall i, j | 0 <= i < j < |sel|
        ensures sel[i] < sel[j]
      {
        assert sel[i] == prev[i];
        if j < |prev| {
          assert sel[j] == prev[j];
        }
      }
    }
  }

  /** `Selected` lists every reached and picked stripe below `k`. */
  lemma {:induction false} SelectedComplete(files: seq<FileMetadata>, start: nat, end: int, f: nat, k: nat, s: nat)
    requires f < |files| && k <= |files[f].stripes|
    requires s < k && Reached(files, end, f, s) && Picked(files, start, f, s)
    ensures s in Selected(files, start, end, f, k)
    decreases k
  {
    if s < k - 1 {
      SelectedComplete(files, start, end, f, k - 1, s);
    }
  }

  /** Once `end` rows lie before stripe `s`, no later stripe of the file is selected. */
  lemma {:induction false} SelectedStops(files: seq<FileMetadata>, start: nat, end: int, f: nat, s: nat, k: nat)
    requires f < |files| && s <= k <= |files[f].stripes|
    requires RowsBefore(files, f, s) >= end
    ensures Selected(files, start, end, f, k) == Selected(files, start, end, f, s)
    decreases k - s
  {
    if s < k {
      SelectedStops(files, start, end, f, s, k - 1);
      RowsBeforeMonotone(files, f, s, f, k - 1);
    }
  }

  /**
   * The state of the walk over file `f` after its first `s` stripes, when it
   * started with `count0` rows counted and `skip0` as the count at the last
   * skipped stripe.
   */
  ghost predicate WalkInvariant(files: seq<FileMetadata>, start: nat, end: int, f: nat, count0: nat, skip0: nat,
                                s: nat, count: nat, infos: seq<nat>, skip: nat, lastSkipped: nat)
    requires f < |files|
  {
    && s <= |files[f].stripes|
    && count == RowsBefore(files, f, s)
    && infos == Selected(files, start, end, f, s)
    && (forall j :: 0 <= j < |infos| ==> infos[j] < |files[f].stripes|)
    && skip0 <= skip <= count && skip <= start && (count <= start ==> skip == count)
    && ListedRows(files[f].stripes, infos) + skip + count0 == count + skip0
    && (forall t {:trigger Skipped(files, start, end, f, t)} :: 0 <= t < s && Skipped(files, start, end, f, t) ==>
          RowsBefore(files, f, t + 1) <= skip)
    && (skip == skip0 || (lastSkipped < s && Skipped(files, start, end, f, lastSkipped) && RowsBefore(files, f, lastSkipped + 1) == skip))
  }

  /** The stripes the walk selects from file `f`. */
  ghost predicate FileSelection(files: seq<FileMetadata>, start: nat, end: int, f: nat, infos: seq<nat>)
    requires f < |files|
  {
    && infos == Selected(files, start, end, f, |files[f].stripes|)
    && forall j :: 0 <= j < |infos| ==> infos[j] < |files[f].stripes|
  }

  /** The running count after file `f`: the rows of files `0..f`, unless the walk stopped early at `end` or beyond. */
  ghost predicate FileCount(files: seq<FileMetadata>, end: int, f: nat, count0: nat, count: nat)
    requires f < |files|
  {
    && count0 <= count <= FilesStripeRows(files[..f + 1])
    && (count < end ==> count == FilesStripeRows(files[..f + 1]))
  }

  /**
   * The count at the last skipped stripe after file `f`: unchanged from
   * `skip0`, or the running count at the stripe `lastSkipped` of `f`, which
   * is the largest count at any skipped stripe of `f`.
   */
  ghost predicate FileSkip(files: seq<FileMetadata>, start: nat, end: int, f: nat, count: nat, skip0: nat,
                           skip: nat, lastSkipped: nat)
    requires f < |files|
  {
    && skip0 <= skip <= count && skip <= start && (count <= start ==> skip == count)
    && (forall t {:trigger Skipped(files, start, end, f, t)} :: 0 <= t < |files[f].stripes| && Skipped(files, start, end, f, t) ==>
          RowsBefore(files, f, t + 1) <= skip)
    && (skip == skip0 || (lastSkipped < |files[f].stripes| && Skipped(files, start, end, f, lastSkipped) &&
                          RowsBefore(files, f, lastSkipped + 1) == skip))
  }

  /** The rows of the stripes selected from `f` are the rows counted, less the rows newly skipped. */
  ghost predicate FileRows(files: seq<FileMetadata>, f: nat, infos: seq<nat>, count0: nat, skip0: nat, count: nat, skip: nat)
    requires f < |files| && forall j :: 0 <= j < |infos| ==> infos[j] < |files[f].stripes|
  {
    ListedRows(files[f].stripes, infos) + skip + count0 == count + skip0
  }

  /**
   * The inner loop of the walk over the stripes of file `f`, starting with
   * the running count at the rows of all earlier files. It returns the
   * stripes selected from `f`, the new running count and the new count at
   * the last skipped stripe.
   */
  method WalkFile(files: seq<FileMetadata>, start: nat, end: int, f: nat, count0: nat, skip0: nat)
    returns (infos: seq<nat>, count: nat, skip: nat, ghost lastSkipped: nat)
    requires f < |files| && count0 == FilesStripeRows(files[..f])
    requires skip0 <= count0 && skip0 <= start && (count0 <= start ==> skip0 == count0)
    ensures FileSelection(files, start, end, f, infos)
    ensures FileCount(files, end, f, count0, count)
    ensures FileSkip(files, start, end, f, count, skip0, skip, lastSkipped)
    ensures FileRows(files, f, infos, count0, skip0, count, skip)
  {
    var stripes := files[f].stripes;
    RowsBeforeStartOfFile(files, f);
    infos, count, skip := [], count0, skip0;
    lastSkipped := 0;
    var s := 0;
    while s < |stripes| && count < end
      invariant WalkInvariant(files, start, end, f, count0, skip0, s, count, infos, skip, lastSkipped)
      decreases |stripes| - s
    {
      WalkAdvance(files, start, end, f, count0, skip0, s, count, infos, skip, lastSkipped);
      count := count + stripes[s].numberOfRows;
      if count > start || count == 0 {
        infos := infos + [s];
      } else {
        skip := count;
        lastSkipped := s;
      }
      s := s + 1;
    }
    WalkFinish(files, start, end, f, count0, skip0, s, count, infos, skip, lastSkipped);
  }

  /** The loop body of the walk over file `f` keeps `WalkInvariant`. */
  lemma WalkAdvance(files: seq<FileMetadata>, start: nat, end: int, f: nat, count0: nat, skip0: nat,
                    s: nat, count: nat, infos: seq<nat>, skip: nat, lastSkipped: nat)
    requires f < |files| && WalkInvariant(files, start, end, f, count0, skip0, s, count, infos, skip, lastSkipped)
    requires s < |files[f].stripes| && count < end
    ensures var count' := count + files[f].stripes[s].numberOfRows;
            if count' > start || count' == 0
            then WalkInvariant(files, start, end, f, count0, skip0, s + 1, count', infos + [s], skip, lastSkipped)
            else WalkInvariant(files, start, end, f, count0, skip0, s + 1, count', infos, count', s)
  {
    var count' := count + files[f].stripes[s].numberOfRows;
    if count' > start || count' == 0 {
      WalkAdvancePicked(files, start, end, f, count0, skip0, s, count, infos, skip, lastSkipped);
    } else {
      WalkAdvanceSkipped(files, start, end, f, count0, skip0, s, count, infos, skip, lastSkipped);
    }
  }

  lemma WalkAdvancePicked(files: seq<FileMetadata>, start: nat, end: int, f: nat, count0: nat, skip0: nat,
                          s: nat, count: nat, infos: seq<nat>, skip: nat, lastSkipped: nat)
    requires f < |files| && WalkInvariant(files, start, end, f, count0, skip0, s, count, infos, skip, lastSkipped)
    requires s < |files[f].stripes| && count < end
    requires var count' := count + files[f].stripes[s].numberOfRows; count' > start || count' == 0
    ensures WalkInvariant(files, start, end, f, count0, skip0, s + 1, count + files[f].stripes[s].numberOfRows,
                          infos + [s], skip, lastSkipped)
  {
    WalkStep(files, start, end, f, s);
    ListedRowsAppend(files[f].stripes, infos, s);
  }

  lemma WalkAdvanceSkipped(files: seq<FileMetadata>, start: nat, end: int, f: nat, count0: nat, skip0: nat,
                           s: nat, count: nat, infos: seq<nat>, skip: nat, lastSkipped: nat)
    requires f < |files| && WalkInvariant(files, start, end, f, count0, skip0, s, count, infos, skip, lastSkipped)
    requires s < |files[f].stripes| && count < end
    requires var count' := count + files[f].stripes[s].numberOfRows; !(count' > start || count' == 0)
    ensures var count' := count + files[f].stripes[s].numberOfRows;
            WalkInvariant(files, start, end, f, count0, skip0, s + 1, count', infos, count', s)
  {
    WalkStep(files, start, end, f, s);
  }

  /** When the walk over file `f` stops, `WalkInvariant` gives what `WalkFile` promises. */
  lemma WalkFinish(files: seq<FileMetadata>, start: nat, end: int, f: nat, count0: nat, skip0: nat,
                   s: nat, count: nat, infos: seq<nat>, skip: nat, lastSkipped: nat)
    requires f < |files| && WalkInvariant(files, start, end, f, count0, skip0, s, count, infos, skip, lastSkipped)
    requires count0 == FilesStripeRows(files[..f])
    requires s == |files[f].stripes| || count >= end
    ensures FileSelection(files, start, end, f, infos)
    ensures FileCount(files, end, f, count0, count)
    ensures FileSkip(files, start, end, f, count, skip0, skip, lastSkipped)
    ensures FileRows(files, f, infos, count0, skip0, count, skip)
  {
    WalkFileStopped(files, start, end, f, s);
    RowsBeforeStartOfFile(files, f);
    RowsBeforeMonotone(files, f, 0, f, s);
  }

  /** One stripe of the walk: the count grows by its rows, and it is either selected or skipped. */
  lemma WalkStep(files: seq<FileMetadata>, start: nat, end: int, f: nat, s: nat)
    requires f < |files| && s < |files[f].stripes| && Reached(files, end, f, s)
    ensures RowsBefore(files, f, s + 1) == RowsBefore(files, f, s) + files[f].stripes[s].numberOfRows
    ensures Picked(files, start, f, s) ==> Selected(files, start, end, f, s + 1) == Selected(files, start, end, f, s) + [s]
    ensures !Picked(files, start, f, s) ==> Selected(files, start, end, f, s + 1) == Selected(files, start, end, f, s)
                                            && Skipped(files, start, end, f, s)
  {
    RowsBeforeStep(files, f, s);
  }

  /** Where the walk over file `f` stops at stripe `s`: nothing later in the file is reached. */
  lemma WalkFileStopped(files: seq<FileMetadata>, start: nat, end: int, f: nat, s: nat)
    requires f < |files| && s <= |files[f].stripes|
    requires s < |files[f].stripes| ==> RowsBefore(files, f, s) >= end
    ensures Selected(files, start, end, f, |files[f].stripes|) == Selected(files, start, end, f, s)
    ensures forall t :: s <= t < |files[f].stripes| ==> !Reached(files, end, f, t)
    ensures RowsBefore(files, f, s) <= FilesStripeRows(files[..f + 1])
    ensures s == |files[f].stripes| ==> RowsBefore(files, f, s) == FilesStripeRows(files[..f + 1])
  {
    var stripes := files[f].stripes;
    if s < |stripes| {
      SelectedStops(files, start, end, f, s, |stripes|);
      forall t | s <= t < |stripes|
        ensures !Reached(files, end, f, t)
      {
        RowsBeforeMonotone(files, f, s, f, t);
      }
    }
    RowsBeforeMonotone(files, f, s, f, |stripes|);
    RowsBeforeEndOfFile(files, f);
  }

  /**
   * A file has a mapping exactly when the walk reaches it (so the files with
   * a mapping come first, in file order), and each file's list is its
   * reached and picked stripes.
   */
  ghost predicate SelectsReachedStripes(files: seq<FileMetadata>, start: nat, end: int, mappings: seq<StripeSourceMapping>)
  {
    && |mappings| <= |files|
    && (forall f :: 0 <= f < |files| ==> (f < |mappings| <==> Reached(files, end, f, 0)))
    && (forall f :: 0 <= f < |mappings| ==>
          mappings[f] == StripeSourceMapping(f, Selected(files, start, end, f, |files[f].stripes|)))
  }

  /**
   * The new start row is the clamped start minus the running count at the
   * last skipped stripe (the largest such count), so it lies in [0, start].
   */
  ghost predicate StartsAfterLastSkip(files: seq<FileMetadata>, start: nat, end: int, newStart: int)
  {
    && 0 <= newStart <= start
    && (forall f, s {:trigger Skipped(files, start, end, f, s)} :: 0 <= f < |files| && 0 <= s < |files[f].stripes| && Skipped(files, start, end, f, s) ==>
          RowsBefore(files, f, s + 1) <= start - newStart)
    && (newStart == start ||
        exists f, s {:trigger Skipped(files, start, end, f, s)} :: 0 <= f < |files| && 0 <= s < |files[f].stripes| && Skipped(files, start, end, f, s) &&
          RowsBefore(files, f, s + 1) == start - newStart)
  }

  /**
   * What a successful range-mode plan holds, with `start` the clamped start
   * row and `end` the first row past the clamped window: the row count is
   * the clamped count, the mappings list the stripes the walk selects, and
   * the start row is relative to the first selected stripe.
   */
  ghost predicate RangePlanned(files: seq<FileMetadata>, rowStart: int, rowCount: int, plan: StripePlan)
  {
    var start := ClampedStart(rowStart);
    var end := start + plan.rowCount;
    && plan.rowCount == ClampedCount(TotalRows(files), rowStart, rowCount) >= 0
    && SelectsReachedStripes(files, start, end, plan.mappings)
    && StartsAfterLastSkip(files, start, end, plan.rowStart)
  }

  /** No stripe of file `f` or later is reached. */
  ghost predicate UnreachedFrom(files: seq<FileMetadata>, end: int, f: nat)
  {
    forall g, s :: f <= g < |files| && 0 <= s <= |files[g].stripes| ==> !Reached(files, end, g, s)
  }

  // The state of the walk over all files after the first `f` files, in four parts.

  /** Each of the first `f` files is reached and has the mapping of its selected stripes. */
  ghost predicate MappingsSoFar(files: seq<FileMetadata>, start: nat, end: int, f: nat, mappings: seq<StripeSourceMapping>)
  {
    && f <= |files| && |mappings| == f
    && forall g :: 0 <= g < f ==>
         Reached(files, end, g, 0) && mappings[g] == StripeSourceMapping(g, Selected(files, start, end, g, |files[g].stripes|))
  }

  /** The running count covers the first `f` files, unless it stopped early at `end` or beyond. */
  ghost predicate WalkedSoFar(files: seq<FileMetadata>, end: int, f: nat, walked: nat)
    requires f <= |files|
  {
    walked <= FilesStripeRows(files[..f]) && (walked < end ==> walked == FilesStripeRows(files[..f]))
  }

  /**
   * The count at the last skipped stripe of the first `f` files: the
   * largest running count at a skipped stripe, taken at stripe `ws` of file
   * `wf`, or 0 when nothing was skipped.
   */
  ghost predicate SkipSoFar(files: seq<FileMetadata>, start: nat, end: int, f: nat, walked: nat, skip: nat, wf: nat, ws: nat)
    requires f <= |files|
  {
    && skip <= walked && skip <= start && (walked <= start ==> skip == walked)
    && (forall g, s {:trigger Skipped(files, start, end, g, s)} :: 0 <= g < f && 0 <= s < |files[g].stripes| && Skipped(files, start, end, g, s) ==>
          RowsBefore(files, g, s + 1) <= skip)
    && (skip == 0 || (wf < f && ws < |files[wf].stripes| && Skipped(files, start, end, wf, ws) && RowsBefore(files, wf, ws + 1) == skip))
  }

  /** The rows of the selected stripes are the rows counted less the rows skipped. */
  ghost predicate RowsSoFar(files: seq<FileMetadata>, mappings: seq<StripeSourceMapping>, walked: nat, skip: nat, mapped: nat)
  {
    ValidMappings(files, mappings) && mapped == MappedRows(files, mappings) && mapped + skip == walked
  }

  /**
   * Range mode of select_stripes. Fails exactly when the clamped start lies
   * past the last row; otherwise walks the stripes as `RangePlanned`
   * describes. When every file's footer row count agrees with its stripe
   * directory, the selected stripes hold every row of the new window.
   */
  method SelectRange(files: seq<FileMetadata>, rowStart: int, rowCount: int) returns (r: Result<StripePlan>)
    ensures r.Failure? <==> ClampedStart(rowStart) > TotalRows(files)
    ensures r.Failure? ==> r.error == InvalidRowCount
    ensures r.Success? ==> RangePlanned(files, rowStart, rowCount, r.value)
    ensures r.Success? ==> ValidMappings(files, r.value.mappings)
    ensures r.Success? && RowCountsConsistent(files) ==>
              MappedRows(files, r.value.mappings) >= r.value.rowStart + r.value.rowCount
  {
    var total := TotalRows(files);
    var start := if rowStart < 0 then 0 else rowStart;
    var count := rowCount;
    if count < 0 {
      count := if total < SizeTypeMax then total else SizeTypeMax;
    }
    if total - start < count {
      count := total - start;
    }
    ClampedWindow(total, rowStart, rowCount);
    if count < 0 {
      return Failure(InvalidRowCount);
    }
    var end := start + count;
    var walked: nat, skip: nat := 0, 0;
    var mappings: seq<StripeSourceMapping> := [];
    ghost var mapped: nat := 0;
    ghost var wf: nat, ws: nat := 0, 0;
    var f := 0;
    while f < |files| && walked < end
      invariant MappingsSoFar(files, start, end, f, mappings)
      invariant WalkedSoFar(files, end, f, walked)
      invariant SkipSoFar(files, start, end, f, walked, skip, wf, ws)
      invariant RowsSoFar(files, mappings, walked, skip, mapped)
      decreases |files| - f
    {
      var infos, walked', skip', lastSkipped := WalkFile(files, start, end, f, walked, skip);
      MappingsAdvance(files, start, end, f, mappings, walked, infos);
      SkipAdvance(files, start, end, f, walked, skip, wf, ws, walked', skip', lastSkipped);
      RowsAdvance(files, f, mappings, walked, skip, mapped, infos, walked', skip');
      if skip' != skip {
        wf, ws := f, lastSkipped;
      }
      mappings := mappings + [StripeSourceMapping(f, infos)];
      mapped := mapped + ListedRows(files[f].stripes, infos);
      walked, skip := walked', skip';
      f := f + 1;
    }
    WalkPlan(files, rowStart, rowCount, start, count, end, f, mappings, walked, skip, wf, ws);
    if RowCountsConsistent(files) {
      WalkCoversRows(files, rowStart, rowCount, start, count, end, f, mappings, walked, skip, mapped);
    }
    var plan := StripePlan(mappings, start - skip, count);
    return Success(plan);
  }

  lemma MappingsAdvance(files: seq<FileMetadata>, start: nat, end: int, f: nat, mappings: seq<StripeSourceMapping>,
                        walked: nat, infos: seq<nat>)
    requires MappingsSoFar(files, start, end, f, mappings) && f < |files|
    requires WalkedSoFar(files, end, f, walked) && walked < end
    requires FileSelection(files, start, end, f, infos)
    ensures MappingsSoFar(files, start, end, f + 1, mappings + [StripeSourceMapping(f, infos)])
  {
    RowsBeforeStartOfFile(files, f);
    var ms := mappings + [StripeSourceMapping(f, infos)];
    forall g | 0 <= g < f + 1
      ensures Reached(files, end, g, 0) && ms[g] == StripeSourceMapping(g, Selected(files, start, end, g, |files[g].stripes|))
    {
      if g < f {
        assert ms[g] == mappings[g];
      }
    }
  }

  lemma SkipAdvance(files: seq<FileMetadata>, start: nat, end: int, f: nat, walked: nat, skip: nat, wf: nat, ws: nat,
                    walked': nat, skip': nat, lastSkipped: nat)
    requires f < |files| && SkipSoFar(files, start, end, f, walked, skip, wf, ws)
    requires FileSkip(files, start, end, f, walked', skip, skip', lastSkipped)
    ensures SkipSoFar(files, start, end, f + 1, walked', skip',
                      if skip' != skip then f else wf, if skip' != skip then lastSkipped else ws)
  {
    if skip' != skip {
      assert Skipped(files, start, end, f, lastSkipped) && RowsBefore(files, f, lastSkipped + 1) == skip';
    } else if skip != 0 {
      assert Skipped(files, start, end, wf, ws) && RowsBefore(files, wf, ws + 1) == skip;
    }
  }

  lemma RowsAdvance(files: seq<FileMetadata>, f: nat, mappings: seq<StripeSourceMapping>, walked: nat, skip: nat, mapped: nat,
                    infos: seq<nat>, walked': nat, skip': nat)
    requires f < |files| && RowsSoFar(files, mappings, walked, skip, mapped)
    requires forall j :: 0 <= j < |infos| ==> infos[j] < |files[f].stripes|
    requires FileRows(files, f, infos, walked, skip, walked', skip')
    ensures RowsSoFar(files, mappings + [StripeSourceMapping(f, infos)], walked', skip', mapped + ListedRows(files[f].stripes, infos))
  {
    MappedRowsAppend(files, mappings, StripeSourceMapping(f, infos));
  }

  /** Files after the point where the walk stopped are never reached. */
  lemma StoppedFilesUnreached(files: seq<FileMetadata>, end: int, f: nat, walked: nat)
    requires f <= |files| && WalkedSoFar(files, end, f, walked)
    requires f == |files| || walked >= end
    ensures UnreachedFrom(files, end, f)
  {
    forall g, s | f <= g < |files| && 0 <= s <= |files[g].stripes|
      ensures !Reached(files, end, g, s)
    {
      RowsBeforeStartOfFile(files, f);
      RowsBeforeMonotone(files, f, 0, g, s);
    }
  }

  /** When the row counts agree, the walk only stops early once it has counted the whole window. */
  lemma WalkCoversWindow(files: seq<FileMetadata>, end: int, f: nat, walked: nat)
    requires f <= |files| && WalkedSoFar(files, end, f, walked)
    requires f == |files| || walked >= end
    requires RowCountsConsistent(files) && end <= TotalRows(files)
    ensures walked >= end
  {
    ConsistentTotals(files);
    assert files[..|files|] == files;
  }

  /** The state the walk stops in is a plan as `RangePlanned` describes. */
  lemma WalkPlan(files: seq<FileMetadata>, rowStart: int, rowCount: int, start: nat, count: int, end: int, f: nat,
                 mappings: seq<StripeSourceMapping>, walked: nat, skip: nat, wf: nat, ws: nat)
    requires start == ClampedStart(rowStart) && count == ClampedCount(TotalRows(files), rowStart, rowCount) >= 0
    requires end == start + count && f <= |files| && (f == |files| || walked >= end)
    requires MappingsSoFar(files, start, end, f, mappings)
    requires WalkedSoFar(files, end, f, walked)
    requires SkipSoFar(files, start, end, f, walked, skip, wf, ws)
    ensures RangePlanned(files, rowStart, rowCount, StripePlan(mappings, start - skip, count))
  {
    StoppedFilesUnreached(files, end, f, walked);
    MappingsFromWalk(files, start, end, f, mappings);
    StartFromWalk(files, start, end, f, walked, skip, wf, ws);
  }

  /** When the row counts agree, the stopped walk's mappings cover the rows from the new start to the window's end. */
  lemma WalkCoversRows(files: seq<FileMetadata>, rowStart: int, rowCount: int, start: nat, count: int, end: int, f: nat,
                       mappings: seq<StripeSourceMapping>, walked: nat, skip: nat, mapped: nat)
    requires start == ClampedStart(rowStart) && count == ClampedCount(TotalRows(files), rowStart, rowCount) >= 0
    requires end == start + count && f <= |files| && (f == |files| || walked >= end)
    requires WalkedSoFar(files, end, f, walked)
    requires RowsSoFar(files, mappings, walked, skip, mapped)
    requires RowCountsConsistent(files)
    ensures MappedRows(files, mappings) >= start - skip + count
  {
    ClampedWindow(TotalRows(files), rowStart, rowCount);
    WalkCoversWindow(files, end, f, walked);
  }

  /** When the walk stops, the mappings it built are exactly those of the reached files. */
  lemma MappingsFromWalk(files: seq<FileMetadata>, start: nat, end: int, f: nat, mappings: seq<StripeSourceMapping>)
    requires MappingsSoFar(files, start, end, f, mappings) && UnreachedFrom(files, end, f)
    ensures SelectsReachedStripes(files, start, end, mappings)
  {
    forall g | 0 <= g < |files|
      ensures g < |mappings| <==> Reached(files, end, g, 0)
    {
      if g >= f {
        assert !Reached(files, end, g, 0);
      }
    }
  }

  /** When the walk stops, its skip count gives the start row relative to the first selected stripe. */
  lemma StartFromWalk(files: seq<FileMetadata>, start: nat, end: int, f: nat, walked: nat, skip: nat, wf: nat, ws: nat)
    requires f <= |files| && SkipSoFar(files, start, end, f, walked, skip, wf, ws) && UnreachedFrom(files, end, f)
    ensures StartsAfterLastSkip(files, start, end, start - skip)
  {
    forall g, s {:trigger Skipped(files, start, end, g, s)} | 0 <= g < |files| && 0 <= s < |files[g].stripes| && Skipped(files, start, end, g, s)
      ensures RowsBefore(files, g, s + 1) <= skip
    {
      assert g < f;
    }
    if skip != 0 {
      assert Skipped(files, start, end, wf, ws) && RowsBefore(files, wf, ws + 1) == skip;
    }
  }

  /**
   * Reading the whole dataset (start row at most 0, negative row count)
   * selects every stripe that holds rows, in every file, when the footer row
   * counts agree with the stripe directories. Stripes without rows can be
   * left out: see `ZeroRowStripesAfterEndDropped`.
   */
  lemma ReadAllPicksEveryNonEmptyStripe(files: seq<FileMetadata>, rowStart: int, rowCount: int, plan: StripePlan, f: nat, s: nat)
    requires rowStart <= 0 && rowCount < 0
    requires RangePlanned(files, rowStart, rowCount, plan) && RowCountsConsistent(files) && TotalRows(files) <= SizeTypeMax
    requires f < |files| && s < |files[f].stripes| && files[f].stripes[s].numberOfRows > 0
    ensures f < |plan.mappings| && s in plan.mappings[f].stripes
  {
    ReadToEndWindow(TotalRows(files), rowStart, rowCount);
    ReadingAllSelectsStripe(files, ClampedStart(rowStart), ClampedStart(rowStart) + plan.rowCount, plan.mappings, f, s);
  }

  /** With no start row and no row limit, the window is every row, when the total fits in size_type. */
  lemma ReadToEndWindow(total: nat, rowStart: int, rowCount: int)
    requires rowStart <= 0 && rowCount < 0 && total <= SizeTypeMax
    ensures ClampedStart(rowStart) == 0 && ClampedCount(total, rowStart, rowCount) == total
  {
  }

  /** A walk over every row, from row 0 to the last, selects each stripe that holds rows. */
  lemma ReadingAllSelectsStripe(files: seq<FileMetadata>, start: nat, end: int, mappings: seq<StripeSourceMapping>, f: nat, s: nat)
    requires SelectsReachedStripes(files, start, end, mappings) && start == 0 && end == TotalRows(files)
    requires RowCountsConsistent(files)
    requires f < |files| && s < |files[f].stripes| && files[f].stripes[s].numberOfRows > 0
    ensures f < |mappings| && s in mappings[f].stripes
  {
    NonEmptyStripeReachedAndPicked(files, f, s);
    SelectedComplete(files, start, end, f, |files[f].stripes|, s);
    MappingOfReachedFile(files, start, end, mappings, f);
  }

  /** A file whose first stripe is reached has a mapping, holding the stripes the walk selects in it. */
  lemma MappingOfReachedFile(files: seq<FileMetadata>, start: nat, end: int, mappings: seq<StripeSourceMapping>, f: nat)
    requires SelectsReachedStripes(files, start, end, mappings)
    requires f < |files| && Reached(files, end, f, 0)
    ensures f < |mappings| && mappings[f].stripes == Selected(files, start, end, f, |files[f].stripes|)
  {
  }

  /** With every row read, a stripe that holds rows is reached, and so is the start of its file, and it is picked. */
  lemma NonEmptyStripeReachedAndPicked(files: seq<FileMetadata>, f: nat, s: nat)
    requires RowCountsConsistent(files)
    requires f < |files| && s < |files[f].stripes| && files[f].stripes[s].numberOfRows > 0
    ensures Reached(files, TotalRows(files), f, 0) && Reached(files, TotalRows(files), f, s)
    ensures Picked(files, 0, f, s)
  {
    ConsistentTotals(files);
    RowsBeforeStep(files, f, s);
    RowsBeforeBounded(files, f, s + 1);
    RowsBeforeMonotone(files, f, 0, f, s);
  }

  /** The row-start check that follows the row-count check can never fire: a non-negative count implies a start inside the dataset. */
  lemma RowStartCheckRedundant(total: nat, rowStart: int, rowCount: int)
    requires ClampedCount(total, rowStart, rowCount) >= 0
    ensures ClampedStart(rowStart) <= total
  {
    ClampedWindow(total, rowStart, rowCount);
  }
  // ---------------------------------------------------------------------------
  // Worked examples on one file of three stripes
  // ---------------------------------------------------------------------------

  /** A file of three stripes holding `a`, `b` and `c` rows, laid out back to back. */
  function ThreeStripeFile(a: nat, b: nat, c: nat): FileMetadata
  {
    FileMetadata(a + b + c,
                 [StripeInfo(3, 1, 10, 2, a), StripeInfo(16, 1, 10, 2, b), StripeInfo(29, 1, 10, 2, c)],
                 [SchemaType(Struct, [], [], None)], NoCompression, [None], [""], 100)
  }

  /** Explicit stripes 0 and 2 of a file with stripes of 10, 20 and 30 rows give 40 rows from row 0, in the order asked. */
  lemma ExplicitExample(plan: StripePlan)
    requires ExplicitPlanned([ThreeStripeFile(10, 20, 30)], [[0, 2]], plan)
    ensures plan.mappings == [StripeSourceMapping(0, [0, 2])]
    ensures plan.rowStart == 0 && plan.rowCount == 40
  {
    var files := [ThreeStripeFile(10, 20, 30)];
    assert [[0, 2]][..0] == [];
    assert [0, 2][..1] == [0] && [0][..0] == [];
    assert ListedRows(files[0].stripes, [0, 2]) == 40;
  }

  /**
   * Rows 150 to 229 of a file with three stripes of 100 rows: stripe 0 is
   * skipped, stripes 1 and 2 are read, and the window starts at row 50 of
   * stripe 1.
   */
  lemma RangeExample(plan: StripePlan)
    requires RangePlanned([ThreeStripeFile(100, 100, 100)], 150, 80, plan)
    ensures plan.mappings == [StripeSourceMapping(0, [1, 2])]
    ensures plan.rowStart == 50 && plan.rowCount == 80
  {
    var files := [ThreeStripeFile(100, 100, 100)];
    var st := files[0].stripes;
    assert TotalRows(files) == 300 by { TotalsOfOneFile(files[0]); }
    assert plan.rowCount == 80;
    assert files[..0] == [];
    assert st[..0] == [] && st[..1][..0] == [] && st[..2][..1] == st[..1] && st[..3][..2] == st[..2];
    assert FilesStripeRows(files[..0]) == 0;
    assert StripeRows(st[..1]) == 100 by { assert StripeRows(st[..1][..0]) == 0 && st[..1][0] == st[0]; }
    assert StripeRows(st[..2]) == 200 by { assert st[..2][1] == st[1]; }
    assert StripeRows(st[..3]) == 300 by { assert st[..3][2] == st[2]; }
    assert Selected(files, 150, 230, 0, 3) == [1, 2];
    assert Skipped(files, 150, 230, 0, 0);
    assert !Skipped(files, 150, 230, 0, 1) && !Skipped(files, 150, 230, 0, 2);
    assert Reached(files, 230, 0, 0);
  }
  /**
   * Reading everything from a file with stripes of 10, 0 and 0 rows reads
   * only stripe 0: once 10 rows are counted the walk has reached the end of
   * the window, so the trailing stripes without rows are never reached.
   */
  lemma ZeroRowStripesAfterEndDropped(plan: StripePlan)
    requires RangePlanned([ThreeStripeFile(10, 0, 0)], -1, -1, plan)
    ensures plan.mappings == [StripeSourceMapping(0, [0])]
    ensures plan.rowStart == 0 && plan.rowCount == 10
  {
    var files := [ThreeStripeFile(10, 0, 0)];
    var st := files[0].stripes;
    assert TotalRows(files) == 10 by { TotalsOfOneFile(files[0]); }
    assert files[..0] == [];
    assert FilesStripeRows(files[..0]) == 0;
    assert StripeRows(st[..1]) == 10 by { assert StripeRows(st[..1][..0]) == 0 && st[..1][0] == st[0]; }
    assert StripeRows(st[..2]) == 10 by { assert st[..2][1] == st[1] && st[..2][..1] == st[..1]; }
    assert StripeRows(st[..3]) == 10 by { assert st[..3][2] == st[2] && st[..3][..2] == st[..2]; }
    assert Selected(files, 0, 10, 0, 3) == [0];
  }

  /**
   * From row 100 of a file with stripes of 100, 0 and 100 rows, only stripe 2
   * is read: the running count after the empty stripe 1 is 100, which does
   * not exceed the start row, so stripe 1 is skipped like stripe 0.
   */
  lemma ZeroRowStripeBeforeStartSkipped(plan: StripePlan)
    requires RangePlanned([ThreeStripeFile(100, 0, 100)], 100, -1, plan)
    ensures plan.mappings == [StripeSourceMapping(0, [2])]
    ensures plan.rowStart == 0 && plan.rowCount == 100
  {
    var files := [ThreeStripeFile(100, 0, 100)];
    var st := files[0].stripes;
    assert TotalRows(files) == 200 by { TotalsOfOneFile(files[0]); }
    assert files[..0] == [];
    assert FilesStripeRows(files[..0]) == 0;
    assert StripeRows(st[..1]) == 100 by { assert StripeRows(st[..1][..0]) == 0 && st[..1][0] == st[0]; }
    assert StripeRows(st[..2]) == 100 by { assert st[..2][1] == st[1] && st[..2][..1] == st[..1]; }
    assert StripeRows(st[..3]) == 200 by { assert st[..3][2] == st[2] && st[..3][..2] == st[..2]; }
    assert Selected(files, 100, 200, 0, 3) == [2];
    assert Skipped(files, 100, 200, 0, 1);
    assert !Skipped(files, 100, 200, 0, 2);
    assert Reached(files, 200, 0, 0);
  }
}
