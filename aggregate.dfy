// The aggregate ORC metadata object: the per-file metadata of every source,
// the dataset totals, the stripe footers read for a selection and the
// row-group-index flag, with the three operations a reader calls on it.

module Aggregate {
  import opened OrcMetadata
  import opened SchemaCheck
  import opened StripeSelection
  import opened ColumnSelection
  import opened Hierarchy

  /** One slot of a file's stripe-footer list: not read, or parsed from the byte range `offset`, `length` of the source. */
  datatype FooterSlot = Unread | Parsed(offset: nat, length: nat)

  /** Where a stripe's footer starts: after its index streams and its data streams. */
  function FooterOffset(st: StripeInfo): nat
  {
    st.offset + st.indexLength + st.dataLength
  }

  /** The bound checked before a footer is read: its last byte lies strictly before the end of the source. */
  predicate FooterInBounds(st: StripeInfo, sourceSize: nat)
  {
    FooterOffset(st) + st.footerLength < sourceSize
  }

  /** The `j`-th stripe selected by `m`. */
  function StripeOf(files: seq<FileMetadata>, m: StripeSourceMapping, j: nat): StripeInfo
    requires MappingInRange(files, m) && j < |m.stripes|
  {
    files[m.sourceIdx].stripes[m.stripes[j]]
  }

  /** std::vector::resize: keep the first `n` slots, pad with unread slots. */
  function Resize(slots: seq<FooterSlot>, n: nat): (r: seq<FooterSlot>)
    ensures |r| == n
    ensures forall i :: 0 <= i < n && i < |slots| ==> r[i] == slots[i]
    ensures forall i :: |slots| <= i < n ==> r[i] == Unread
  {
    if n <= |slots| then slots[..n] else slots + seq(n - |slots|, _ => Unread)
  }

  /** The footer list of one source once every stripe `m` selects has had its footer read, in selection order. */
  function FooterList(files: seq<FileMetadata>, m: StripeSourceMapping): seq<FooterSlot>
    requires MappingInRange(files, m)
  {
    seq(|m.stripes|, j requires 0 <= j < |m.stripes| =>
      Parsed(FooterOffset(StripeOf(files, m, j)), StripeOf(files, m, j).footerLength))
  }

  /** The footers of the first `i` stripes of `m` lie inside their source. */
  ghost predicate InBoundsUpTo(files: seq<FileMetadata>, m: StripeSourceMapping, i: nat)
    requires MappingInRange(files, m) && i <= |m.stripes|
  {
    forall j :: 0 <= j < i ==> FooterInBounds(StripeOf(files, m, j), files[m.sourceIdx].sourceSize)
  }

  /** One of the first `i` stripes of `m` has no index streams. */
  ghost predicate IndexlessUpTo(files: seq<FileMetadata>, m: StripeSourceMapping, i: nat)
    requires MappingInRange(files, m) && i <= |m.stripes|
  {
    exists j :: 0 <= j < i && StripeOf(files, m, j).indexLength == 0
  }

  /** Every footer that the mappings ask for lies inside its source. */
  ghost predicate AllFootersInBounds(files: seq<FileMetadata>, mappings: seq<StripeSourceMapping>)
    requires ValidMappings(files, mappings)
  {
    forall k :: 0 <= k < |mappings| ==> InBoundsUpTo(files, mappings[k], |mappings[k].stripes|)
  }

  /** Some selected stripe has no row-group index. */
  ghost predicate AnyIndexless(files: seq<FileMetadata>, mappings: seq<StripeSourceMapping>)
    requires ValidMappings(files, mappings)
  {
    exists k :: 0 <= k < |mappings| && IndexlessUpTo(files, mappings[k], |mappings[k].stripes|)
  }

  /** The per-source footer lists after the mappings are processed in order; each one replaces its source's list. */
  ghost function FootersAfter(footers: seq<seq<FooterSlot>>, files: seq<FileMetadata>, mappings: seq<StripeSourceMapping>): (r: seq<seq<FooterSlot>>)
    requires |footers| == |files|
    requires ValidMappings(files, mappings)
    ensures |r| == |footers|
  {
    if mappings == [] then footers
    else
      var m := mappings[|mappings| - 1];
      assert MappingInRange(files, m);
      FootersAfter(footers, files, mappings[..|mappings| - 1])[m.sourceIdx := FooterList(files, m)]
  }

  /** The mapping at position `k` is for source `k`, as both selection modes build it. */
  ghost predicate SourcesInOrder(mappings: seq<StripeSourceMapping>)
  {
    forall k :: 0 <= k < |mappings| ==> mappings[k].sourceIdx == k
  }

  /** The plan a selection must produce: explicit mode when stripe lists are given, range mode otherwise. */
  ghost predicate Planned(files: seq<FileMetadata>, requested: seq<seq<int>>, rowStart: int, rowCount: int, plan: StripePlan)
  {
    if requested != [] then ExplicitPlanned(files, requested, plan) else RangePlanned(files, rowStart, rowCount, plan)
  }

  /** The error the planning step of select_stripes raises, checked in the order the source checks. */
  ghost function SelectionError(files: seq<FileMetadata>, requested: seq<seq<int>>, rowStart: int): Option<OrcError>
  {
    if requested != [] then
      if |requested| != |files| then Some(StripesPerSourceMismatch)
      else if rowStart != 0 then Some(NonZeroRowStart)
      else if !IndicesExist(files, requested) then Some(InvalidStripeIndex)
      else None
    else if ClampedStart(rowStart) > TotalRows(files) then Some(InvalidRowCount)
    else None
  }

  /**
   * With the sources in order, processing the mappings leaves source `k`
   * with the footer list of mapping `k`, and every source past the last
   * mapping as it was.
   */
  lemma {:induction false} FootersAfterInOrder(footers: seq<seq<FooterSlot>>, files: seq<FileMetadata>, mappings: seq<StripeSourceMapping>)
    requires |footers| == |files| && |mappings| <= |files|
    requires ValidMappings(files, mappings)
    requires SourcesInOrder(mappings)
    ensures |FootersAfter(footers, files, mappings)| == |files|
    ensures forall k :: 0 <= k < |mappings| ==> FootersAfter(footers, files, mappings)[k] == FooterList(files, mappings[k])
    ensures forall k :: |mappings| <= k < |files| ==> FootersAfter(footers, files, mappings)[k] == footers[k]
    decreases |mappings|
  {
    if mappings != [] {
      var init := mappings[..|mappings| - 1];
      FootersAfterInOrder(footers, files, init);
      var after := FootersAfter(footers, files, mappings);
      forall k | 0 <= k < |mappings|
        ensures after[k] == FooterList(files, mappings[k])
      {
        if k < |init| {
          assert init[k] == mappings[k];
        }
      }
    }
  }

  /**
   * After a successful select_stripes, file `k` holds the footers of its
   * selected stripes when the plan has a mapping for it, and keeps its old
   * footer list otherwise (range mode stops before the files it never reaches).
   */
  lemma PlannedFooters(footers: seq<seq<FooterSlot>>, files: seq<FileMetadata>, requested: seq<seq<int>>, rowStart: int, rowCount: int, plan: StripePlan)
    requires |footers| == |files|
    requires Planned(files, requested, rowStart, rowCount, plan) && ValidMappings(files, plan.mappings)
    ensures |plan.mappings| <= |files|
    ensures forall k :: 0 <= k < |files| ==>
              FootersAfter(footers, files, plan.mappings)[k]
              == if k < |plan.mappings| then FooterList(files, plan.mappings[k]) else footers[k]
  {
    FootersAfterInOrder(footers, files, plan.mappings);
  }

  /** Every footer slot a successful read fills names a byte range inside its source. */
  lemma FooterListInSource(files: seq<FileMetadata>, m: StripeSourceMapping, j: nat)
    requires MappingInRange(files, m) && InBoundsUpTo(files, m, |m.stripes|) && j < |m.stripes|
    ensures FooterList(files, m)[j].Parsed?
    ensures FooterList(files, m)[j].offset + FooterList(files, m)[j].length < files[m.sourceIdx].sourceSize
    ensures FooterList(files, m)[j].offset >= StripeOf(files, m, j).offset
  {
    assert FooterInBounds(StripeOf(files, m, j), files[m.sourceIdx].sourceSize);
  }

  /**
   * The aggregate metadata of a multi-file ORC read: the per-file metadata
   * (never changed after construction), the totals computed from it, and
   * the state select_stripes updates: the stripe footers read per source
   * and whether every selected stripe so far carries a row-group index.
   */
  class AggregateMetadata {
    const files: seq<FileMetadata>
    const numRows: nat
    const numStripes: nat
    var stripeFooters: seq<seq<FooterSlot>>
    var rowGroupIndexPresent: bool

    ghost predicate Valid()
      reads this
    {
      && (forall k :: 0 <= k < |files| ==> WellFormed(files[k]))
      && (forall k :: 0 <= k < |files| ==> Compatible(files[0], files[k]))
      && numRows == TotalRows(files)
      && numStripes == TotalStripes(files)
      && |stripeFooters| == |files|
    }

    /** Builds the object once the sources are known to agree; totals are the sums over the files. */
    constructor (fs: seq<FileMetadata>)
      requires forall k :: 0 <= k < |fs| ==> WellFormed(fs[k])
      requires forall k :: 0 <= k < |fs| ==> Compatible(fs[0], fs[k])
      ensures Valid() && files == fs
      ensures stripeFooters == seq(|fs|, _ => []) && rowGroupIndexPresent
    {
      files := fs;
      numRows := TotalRows(fs);
      numStripes := TotalStripes(fs);
      stripeFooters := seq(|fs|, _ => []);
      rowGroupIndexPresent := true;
    }

    /**
     * The constructor of the source, with its failure as a result: the
     * object exists exactly when every file agrees with the first, and
     * otherwise the error is the first disagreement of the first file that
     * disagrees.
     */
    static method Open(fs: seq<FileMetadata>) returns (r: Result<AggregateMetadata>)
      requires forall k :: 0 <= k < |fs| ==> WellFormed(fs[k])
      ensures r.Success? <==> forall k :: 0 <= k < |fs| ==> Compatible(fs[0], fs[k])
      ensures r.Success? ==> fresh(r.value) && r.value.Valid() && r.value.files == fs
      ensures r.Success? ==> r.value.numRows == TotalRows(fs) && r.value.numStripes == TotalStripes(fs)
      ensures r.Success? ==> r.value.stripeFooters == seq(|fs|, _ => []) && r.value.rowGroupIndexPresent
      ensures r.Failure? ==> exists k :: 0 <= k < |fs|
                                         && (forall j :: 0 <= j < k ==> Compatible(fs[0], fs[j]))
                                         && FirstMismatch(fs[0], fs[k]) == Some(r.error)
    {
      var check := CheckSourcesCompatible(fs);
      if check.Fail? {
        return Failure(check.error);
      }
      var agg := new AggregateMetadata(fs);
      return Success(agg);
    }

    /**
     * The footer-reading half of select_stripes: for each mapping in turn,
     * resize its source's footer list to the number of selected stripes,
     * then for each stripe check that its footer lies inside the source and
     * read it; a stripe without index streams clears the row-group flag.
     */
    method ReadStripeFooters(mappings: seq<StripeSourceMapping>) returns (r: Outcome)
      requires Valid() && ValidMappings(files, mappings)
      modifies this
      ensures Valid()
      ensures r.Pass? <==> AllFootersInBounds(files, mappings)
      ensures r.Fail? ==> r.error == InvalidStripeInformation
      ensures r.Pass? ==> stripeFooters == FootersAfter(old(stripeFooters), files, mappings)
      ensures r.Pass? ==> rowGroupIndexPresent == (old(rowGroupIndexPresent) && !AnyIndexless(files, mappings))
    {
      if mappings == [] {
        return Pass;
      }
      for k := 0 to |mappings|
        invariant Valid()
        invariant AllFootersInBounds(files, mappings[..k])
        invariant stripeFooters == FootersAfter(old(stripeFooters), files, mappings[..k])
        invariant rowGroupIndexPresent == (old(rowGroupIndexPresent) && !AnyIndexless(files, mappings[..k]))
      {
        var ok := ReadSourceFooters(mappings[k]);
        if !ok {
          assert !InBoundsUpTo(files, mappings[k], |mappings[k].stripes|);
          return Fail(InvalidStripeInformation);
        }
        FootersStep(old(stripeFooters), files, mappings, k);
        BoundsStep(files, mappings, k);
        IndexlessStep(files, mappings, k);
      }
      assert mappings[..|mappings|] == mappings;
      return Pass;
    }

    /**
     * The body of the footer loop for one mapping: resize the source's
     * footer list to the mapping's stripe count, then check and read each
     * footer in turn, stopping at the first one outside the source.
     */
    method ReadSourceFooters(m: StripeSourceMapping) returns (ok: bool)
      requires Valid() && MappingInRange(files, m)
      modifies this
      ensures Valid()
      ensures ok <==> InBoundsUpTo(files, m, |m.stripes|)
      ensures ok ==> stripeFooters == old(stripeFooters)[m.sourceIdx := FooterList(files, m)]
      ensures ok ==> rowGroupIndexPresent == (old(rowGroupIndexPresent) && !IndexlessUpTo(files, m, |m.stripes|))
    {
      var src := m.sourceIdx;
      var n := |m.stripes|;
      ghost var resized := Resize(stripeFooters[src], n);
      stripeFooters := stripeFooters[src := Resize(stripeFooters[src], n)];
      assert FooterList(files, m)[..0] + resized[0..] == resized;
      for i := 0 to n
        invariant stripeFooters == old(stripeFooters)[src := FooterList(files, m)[..i] + resized[i..]]
        invariant InBoundsUpTo(files, m, i)
        invariant rowGroupIndexPresent == (old(rowGroupIndexPresent) && !IndexlessUpTo(files, m, i))
      {
        var st := files[src].stripes[m.stripes[i]];
        assert st == StripeOf(files, m, i);
        var offset := st.offset + st.indexLength + st.dataLength;
        if !(offset + st.footerLength < files[src].sourceSize) {
          assert !FooterInBounds(StripeOf(files, m, i), files[src].sourceSize);
          return false;
        }
        SlotStep(FooterList(files, m), resized, i);
        stripeFooters := stripeFooters[src := stripeFooters[src][i := Parsed(offset, st.footerLength)]];
        if st.indexLength == 0 {
          rowGroupIndexPresent := false;
        }
      }
      assert FooterList(files, m)[..n] + resized[n..] == FooterList(files, m);
      return true;
    }

    /**
     * select_stripes: plan the stripes to read (explicit or range mode),
     * then read the footers of every planned stripe. A planning error
     * changes nothing; a footer outside its source fails the call.
     */
    method SelectStripes(requested: seq<seq<int>>, rowStart: int, rowCount: int) returns (r: Result<StripePlan>, ghost planned: StripePlan)
      requires Valid()
      modifies this
      ensures Valid()
      ensures SelectionError(files, requested, rowStart).Some? ==>
                r == Failure(SelectionError(files, requested, rowStart).value) && unchanged(this)
      ensures SelectionError(files, requested, rowStart).None? ==>
                && Planned(files, requested, rowStart, rowCount, planned)
                && ValidMappings(files, planned.mappings)
                && (r.Success? <==> AllFootersInBounds(files, planned.mappings))
      ensures r.Failure? && SelectionError(files, requested, rowStart).None? ==> r.error == InvalidStripeInformation
      ensures r.Success? ==> r.value == planned
      ensures r.Success? ==> stripeFooters == FootersAfter(old(stripeFooters), files, planned.mappings)
      ensures r.Success? ==> rowGroupIndexPresent == (old(rowGroupIndexPresent) && !AnyIndexless(files, planned.mappings))
    {
      var plan: Result<StripePlan>;
      if requested != [] {
        plan := SelectExplicit(files, requested, rowStart);
      } else {
        plan := SelectRange(files, rowStart, rowCount);
      }
      if plan.Failure? {
        planned := StripePlan([], 0, 0);
        return Failure(plan.error), planned;
      }
      var chosen := plan.value;
      planned := chosen;
      var read := ReadStripeFooters(chosen.mappings);
      if read.Fail? {
        return Failure(read.error), planned;
      }
      return Success(chosen), planned;
    }

    /**
     * select_columns: the nesting map of the requested columns of the first
     * file, levelized into a column hierarchy; an unknown path fails with
     * that path.
     */
    method SelectColumns(columnPaths: seq<string>) returns (r: Result<ColumnHierarchy>)
      requires Valid() && |files| > 0
      ensures r.Success? <==> NestingMapFor(files[0], columnPaths).Success?
      ensures r.Failure? ==> r.error == NestingMapFor(files[0], columnPaths).error
      ensures r.Success? ==> fresh(r.value) && r.value.Built()
      ensures r.Success? ==> r.value.children == NestingMapFor(files[0], columnPaths).value
      ensures r.Success? ==> ChildIdsIncrease(r.value.children, |files[0].types|)
      ensures r.Success? ==> r.value.levels == PlaceAll([], RootWalk(r.value.children, |files[0].types|))
    {
      var selected := ColumnSelection.SelectColumns(files[0], columnPaths);
      if selected.Failure? {
        return Failure(selected.error);
      }
      SelectedColumnsAcyclic(files[0], columnPaths);
      var hierarchy := new ColumnHierarchy(selected.value, |files[0].types|);
      return Success(hierarchy);
    }
  }

  /** Writing the `i`-th footer into a slot list made of the first `i` footers and the resized rest. */
  lemma SlotStep(list: seq<FooterSlot>, resized: seq<FooterSlot>, i: nat)
    requires |list| == |resized| && i < |list|
    ensures (list[..i] + resized[i..])[i := list[i]] == list[..i + 1] + resized[i + 1..]
  {
  }

  /** One mapping processed: the footer lists move from the first `k` mappings to `k + 1`. */
  lemma FootersStep(footers: seq<seq<FooterSlot>>, files: seq<FileMetadata>, mappings: seq<StripeSourceMapping>, k: nat)
    requires |footers| == |files| && k < |mappings|
    requires ValidMappings(files, mappings)
    ensures FootersAfter(footers, files, mappings[..k + 1])
            == FootersAfter(footers, files, mappings[..k])[mappings[k].sourceIdx := FooterList(files, mappings[k])]
  {
    assert mappings[..k + 1][..k] == mappings[..k];
  }

  /** One mapping processed: all footers so far are in bounds exactly when the earlier ones and this mapping's are. */
  lemma BoundsStep(files: seq<FileMetadata>, mappings: seq<StripeSourceMapping>, k: nat)
    requires k < |mappings|
    requires ValidMappings(files, mappings)
    ensures AllFootersInBounds(files, mappings[..k + 1]) <==>
            AllFootersInBounds(files, mappings[..k]) && InBoundsUpTo(files, mappings[k], |mappings[k].stripes|)
  {
    assert mappings[..k + 1][k] == mappings[k];
    assert forall j :: 0 <= j < k ==> mappings[..k + 1][j] == mappings[..k][j];
  }

  /** One mapping processed: some stripe so far lacks an index exactly when an earlier one or one of this mapping does. */
  lemma IndexlessStep(files: seq<FileMetadata>, mappings: seq<StripeSourceMapping>, k: nat)
    requires k < |mappings|
    requires ValidMappings(files, mappings)
    ensures AnyIndexless(files, mappings[..k + 1]) <==>
            AnyIndexless(files, mappings[..k]) || IndexlessUpTo(files, mappings[k], |mappings[k].stripes|)
  {
    assert mappings[..k + 1][k] == mappings[k];
    assert forall j :: 0 <= j < k ==> mappings[..k + 1][j] == mappings[..k][j];
  }
}
