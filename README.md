# ORC read planning over several files

A Dafny model of the read-planning layer of the cuDF ORC reader
(`cpp/src/io/orc/aggregate_orc_metadata.cpp`). It treats several ORC files
that share one schema as one dataset. It checks at construction that the
files agree, and it computes two plans:

- which stripes of which files to read, with the row window re-expressed
  relative to the first stripe read (`select_stripes`);
- which columns to read, as a nesting map (column id -> selected child ids)
  levelized into a column hierarchy (`select_columns` and the
  `column_hierarchy` constructor).

Modules, one file each:

| file | module | models |
|---|---|---|
| `orc_metadata.dfy` | `OrcMetadata` | per-file metadata as plain data, errors, `calc_num_rows` / `calc_num_stripes`, row prefix sums of the stripe walk |
| `schema_check.dfy` | `SchemaCheck` | the compatibility loop of the `aggregate_orc_metadata` constructor |
| `column_selection.dfy` | `ColumnSelection` | `update_parent_mapping`, `add_nested_columns`, `add_column_to_mapping`, the path search and the nesting map of `select_columns` |
| `column_hierarchy.dfy` | `Hierarchy` | the `column_hierarchy` class and its recursive `levelize` |
| `stripe_selection.dfy` | `StripeSelection` | explicit mode and range mode of `select_stripes` (the planning half) |
| `aggregate.dfy` | `Aggregate` | the `aggregate_orc_metadata` object: its construction, the footer-reading half of `select_stripes`, the row-group-index flag and `select_columns` |

Modelling choices:

- A file's metadata is a value `FileMetadata`. It holds the stripe
  directory, the schema type list, the compression kind, the parent lookup
  `parents[id]`, the dotted path lookup `paths[id]` and the byte size of the
  source. `WellFormed` is an assumption the model makes about well-formed
  ORC input: a root at id 0, every other id with a parent of smaller id
  that lists it as a child, and every listed child naming the listing type
  as its parent. Nothing in this file checks it. The schema walks
  terminate because of that ordering.
- The `(StripeInformation*, StripeFooter*)` pairs become stripe indices per
  source. A footer slot records the byte range it was parsed from.
- The nesting map is a `map<nat, seq<nat>>` passed in and returned. The
  helpers are `method`s with the source's loops. Each is specified by the
  list of `(parent, child)` edges it inserts, in insertion order
  (`InsertEdges`).
- The by-reference `row_start` / `row_count` become the `rowStart` /
  `rowCount` fields of the returned `StripePlan`.
- Each `CUDF_EXPECTS` is a `Failure` of the matching `OrcError` constructor.
- `size_type` is a 32-bit signed integer. The model keeps its bound in one
  place only: the "read to end" row count is capped at `SizeTypeMax`. All
  row sums are unbounded integers here (see "## Left out").

## Model

| member | source | states |
|---|---|---|
| `OrcMetadata.TotalRowsConcat` | cpp/src/io/orc/aggregate_orc_metadata.cpp:107-113 | the row total of two runs of files is the sum of their totals, so the total is the sum of the per-file row counts |
| `OrcMetadata.TotalStripesConcat` | cpp/src/io/orc/aggregate_orc_metadata.cpp:115-121 | the stripe total of two runs of files is the sum of their totals |
| `OrcMetadata.ConsistentTotals` | cpp/src/io/orc/aggregate_orc_metadata.cpp:107-113 | when each footer row count equals the sum over that file's stripes, the dataset total equals the rows of all stripes of all files |
| `OrcMetadata.RowsBeforeMonotone` | cpp/src/io/orc/aggregate_orc_metadata.cpp:193-204 | the walk's running row count never decreases from one position of the walk to a later one |
| `OrcMetadata.RowsBeforeBounded` | cpp/src/io/orc/aggregate_orc_metadata.cpp:193-204 | no position of the walk has counted more rows than all stripes hold |
| `SchemaCheck.TypeMismatchFrom` | cpp/src/io/orc/aggregate_orc_metadata.cpp:138-148 | no error exactly when every type from the index on agrees in kind, field names and scale (absent scale as 0); an error is one of the three per-type errors |
| `SchemaCheck.FirstMismatch` | cpp/src/io/orc/aggregate_orc_metadata.cpp:131-148 | no error exactly when the file is compatible with file 0; a column-count difference is reported first, then compression |
| `SchemaCheck.CheckSourcesCompatible` | cpp/src/io/orc/aggregate_orc_metadata.cpp:129-150 | passes exactly when every file is compatible with file 0; otherwise fails with the first mismatch of the first incompatible file |
| `SchemaCheck.SingleSourceCompatible` | cpp/src/io/orc/aggregate_orc_metadata.cpp:131-149 | a file is compatible with itself, so a single source always passes |
| `SchemaCheck.AcceptedFilesAgree` | cpp/src/io/orc/aggregate_orc_metadata.cpp:131-149 | once all files match file 0, any two files are compatible with each other |
| `SchemaCheck.AsWrittenIsWeaker` | cpp/src/io/orc/aggregate_orc_metadata.cpp:141-144 | the field-name comparison as written accepts every pair the intended comparison accepts |
| `SchemaCheck.TruncatedFieldNamesAccepted` | cpp/src/io/orc/aggregate_orc_metadata.cpp:141-144 | two well-formed files with different top-level columns pass the check as written and fail the intended check |
| `ColumnSelection.InsertEdgesContents` | cpp/src/io/orc/aggregate_orc_metadata.cpp:53-56 | after inserting edges, a parent's old list is a prefix of its new list, and a child is listed exactly when it was listed before or its edge was inserted |
| `ColumnSelection.InsertEdgesKeepsDistinct` | cpp/src/io/orc/aggregate_orc_metadata.cpp:53-56 | the find-before-push_back insertion keeps every list of the map free of duplicates |
| `ColumnSelection.InsertEdgesIdempotent` | cpp/src/io/orc/aggregate_orc_metadata.cpp:53-56 | inserting the same edges a second time changes nothing |
| `ColumnSelection.ParentEdgesChain` | cpp/src/io/orc/aggregate_orc_metadata.cpp:50-59 | the edges of the upward walk from a non-root column form the parent chain from that column up to the root |
| `ColumnSelection.UpdateParentMapping` | cpp/src/io/orc/aggregate_orc_metadata.cpp:46-60 | the loop inserts exactly the ancestor edges of the column, lowest first |
| `ColumnSelection.SubtreeEdgesSound` | cpp/src/io/orc/aggregate_orc_metadata.cpp:65-76 | every edge the recursion records is a schema child link at or below the column |
| `ColumnSelection.SubtreeEdgesComplete` | cpp/src/io/orc/aggregate_orc_metadata.cpp:65-76 | the recursion records every schema child link of the column and of each recorded descendant |
| `ColumnSelection.AddNestedColumns` | cpp/src/io/orc/aggregate_orc_metadata.cpp:65-76 | the recursion inserts exactly the subtree edges of the column, in pre-order |
| `ColumnSelection.AddColumnToMapping` | cpp/src/io/orc/aggregate_orc_metadata.cpp:84-90 | inserts the column's ancestor edges, then its subtree edges |
| `ColumnSelection.ColumnEdgesAreSchemaLinks` | cpp/src/io/orc/aggregate_orc_metadata.cpp:84-90 | every edge recorded for a column links a parent to a child of larger id, as the schema's parent lookup says |
| `ColumnSelection.FindColumnFrom` | cpp/src/io/orc/aggregate_orc_metadata.cpp:261-267 | the result is the smallest id from the start whose path matches; none means no id from the start matches |
| `ColumnSelection.FindColumnId` | cpp/src/io/orc/aggregate_orc_metadata.cpp:261-267 | the scan of ids `1..numColumns-1` stops at the first matching path |
| `ColumnSelection.ResolvePaths` | cpp/src/io/orc/aggregate_orc_metadata.cpp:259-269 | succeeds exactly when every path names a column, with one id per path; otherwise the error names the first unknown path |
| `ColumnSelection.SelectColumns` | cpp/src/io/orc/aggregate_orc_metadata.cpp:248-272 | the nesting map built is the one `NestingMapFor` defines: all top-level columns when no path is given, else each named column's edges in request order, or the first unknown path's error |
| `ColumnSelection.SelectTopLevel` | cpp/src/io/orc/aggregate_orc_metadata.cpp:254-257 | with no paths, each child of the root is added with its ancestors and subtree, in schema order |
| `ColumnSelection.ResolveFailsAt` | cpp/src/io/orc/aggregate_orc_metadata.cpp:259-269 | resolution fails with the first path that names no column |
| `ColumnSelection.ResolveSucceeds` | cpp/src/io/orc/aggregate_orc_metadata.cpp:259-269 | when every path names a column, resolution returns those ids in request order |
| `ColumnSelection.RequestedEdgesMember` | cpp/src/io/orc/aggregate_orc_metadata.cpp:259-269 | an edge is recorded for the request exactly when it is recorded for one of the requested columns |
| `ColumnSelection.SelectedColumnsSound` | cpp/src/io/orc/aggregate_orc_metadata.cpp:248-272 | every child listed in the map is a schema child of its key with a larger id, and comes from an ancestor or subtree edge of a requested column |
| `ColumnSelection.SelectedColumnsComplete` | cpp/src/io/orc/aggregate_orc_metadata.cpp:248-272 | for each requested path, the map holds the column's whole ancestor chain and every schema edge at or below it |
| `ColumnSelection.SelectedColumnsDistinct` | cpp/src/io/orc/aggregate_orc_metadata.cpp:248-272 | no list of the selection's map holds an id twice |
| `ColumnSelection.SelectedColumnsAcyclic` | cpp/src/io/orc/aggregate_orc_metadata.cpp:248-272 | the selection's map only links a parent to larger child ids of the schema, so the map has no cycle |
| `ColumnSelection.SelectAllIsWholeSchema` | cpp/src/io/orc/aggregate_orc_metadata.cpp:254-257 | an empty request records every schema edge below the root, so no column is pruned |
| `ColumnSelection.RepeatedPathIdempotent` | cpp/src/io/orc/aggregate_orc_metadata.cpp:259-269 | appending a repeat of an already requested path to the request leaves the map, or the error, unchanged |
| `Hierarchy.ColumnHierarchy.constructor` | cpp/src/io/orc/aggregate_orc_metadata.cpp:24-39 | the built hierarchy (`Built()`) has as levels the pre-order walk from the root's children, each visit placed at its depth in visit order |
| `Hierarchy.ColumnHierarchy.Levelize` | cpp/src/io/orc/aggregate_orc_metadata.cpp:27-35 | called only while the constructor builds the levels; appends the walk from the column at its level: its own entry, then its children's walks one level deeper |
| `Hierarchy.PlaceAllSlices` | cpp/src/io/orc/aggregate_orc_metadata.cpp:28-30 | placing visits appends to each level exactly the entries visited at that depth, in visit order, and grows the levels to the deepest visit |
| `Hierarchy.PreorderCounts` | cpp/src/io/orc/aggregate_orc_metadata.cpp:30 | every entry of a walk records the length of its id's list in the nesting map |
| `Hierarchy.PreorderVisitsChildren` | cpp/src/io/orc/aggregate_orc_metadata.cpp:32-34 | a walk that visits a column also visits each of its listed children one level deeper |
| `Hierarchy.TopLevelIsRootChildren` | cpp/src/io/orc/aggregate_orc_metadata.cpp:37-38 | level 0 lists the children of id 0 in map order with their child counts; no levels exist when the root has no children |
| `Hierarchy.LevelEntriesAndChildren` | cpp/src/io/orc/aggregate_orc_metadata.cpp:24-39 | each entry at level `d` records its child count, and each child it lists is an entry at level `d + 1` |
| `StripeSelection.SelectExplicit` | cpp/src/io/orc/aggregate_orc_metadata.cpp:159-182 | fails for a stripe-list count other than the file count, then for a nonzero start, then for an index out of range; on success keeps each list in order, one mapping per file, start 0, count the sum of the listed stripes' rows |
| `StripeSelection.ExplicitPlanCoversRows` | cpp/src/io/orc/aggregate_orc_metadata.cpp:166-181 | the stripes of an explicit plan hold exactly the rows its row count announces |
| `StripeSelection.ClampedWindow` | cpp/src/io/orc/aggregate_orc_metadata.cpp:184-191 | the clamped count is non-negative exactly when the clamped start is within the rows; the window ends inside the rows; a request that fits is kept; when the total fits in `size_type`, "read to end" reads to the last row |
| `StripeSelection.RowStartCheckRedundant` | cpp/src/io/orc/aggregate_orc_metadata.cpp:190-191 | once the row-count check passes, the row-start check cannot fail (a consequence of `ClampedWindow`) |
| `StripeSelection.SelectedSound` | cpp/src/io/orc/aggregate_orc_metadata.cpp:201-211 | a file's selected stripes are reached by the walk and satisfy the selection rule |
| `StripeSelection.SelectedComplete` | cpp/src/io/orc/aggregate_orc_metadata.cpp:201-211 | every reached stripe that satisfies the selection rule is selected |
| `StripeSelection.SelectedIncreasing` | cpp/src/io/orc/aggregate_orc_metadata.cpp:201-211 | selected stripes are listed in strictly ascending index order |
| `StripeSelection.SelectedStops` | cpp/src/io/orc/aggregate_orc_metadata.cpp:201-203 | once the count before a stripe reaches the window's end, no later stripe of the file is selected |
| `StripeSelection.WalkFile` | cpp/src/io/orc/aggregate_orc_metadata.cpp:199-213 | the inner loop selects exactly the reached stripes that satisfy the rule; its final count covers the file unless it stopped at the window's end; the skip count is the largest count at a skipped stripe |
| `StripeSelection.SelectRange` | cpp/src/io/orc/aggregate_orc_metadata.cpp:184-217 | fails with "Invalid row count" exactly when the clamped start is past the last row; else the mappings are the walk's selections for the files it reaches, the count is the clamped count, the start drops the rows up to the last skipped stripe, and, when every footer row count equals the sum over its stripes, the selected stripes cover start plus count rows |
| `StripeSelection.ExplicitExample` | cpp/src/io/orc/aggregate_orc_metadata.cpp:166-181 | stripes 0 and 2 of a file with stripes of 10, 20 and 30 rows give one mapping `[0, 2]`, start 0 and 40 rows |
| `StripeSelection.RangeExample` | cpp/src/io/orc/aggregate_orc_metadata.cpp:184-216 | rows 150 to 229 of a file with three stripes of 100 rows select stripes 1 and 2, with start 50 and count 80 |
| `StripeSelection.ReadAllPicksEveryNonEmptyStripe` | cpp/src/io/orc/aggregate_orc_metadata.cpp:184-214 | when every footer row count equals the sum over its stripes and the total fits in `size_type`, reading everything (start at most 0, count negative) selects every stripe that holds rows, in every file |
| `StripeSelection.ZeroRowStripesAfterEndDropped` | cpp/src/io/orc/aggregate_orc_metadata.cpp:196-211 | reading everything from a file with stripes of 10, 0 and 0 rows selects only stripe 0: the walk stops once the running count reaches the end of the window |
| `StripeSelection.ZeroRowStripeBeforeStartSkipped` | cpp/src/io/orc/aggregate_orc_metadata.cpp:204-216 | from row 100 of a file with stripes of 100, 0 and 100 rows only stripe 2 is selected: the empty stripe 1 ends at the start row and is skipped, and the start becomes 0 |
| `Aggregate.FooterListInSource` | cpp/src/io/orc/aggregate_orc_metadata.cpp:227-239 | every footer slot a successful read fills names a byte range that ends strictly inside its source and starts at or after the stripe |
| `Aggregate.FootersAfterInOrder` | cpp/src/io/orc/aggregate_orc_metadata.cpp:221-243 | with mappings in source order, source `k` ends with the footers of mapping `k` and sources past the last mapping keep their list |
| `Aggregate.PlannedFooters` | cpp/src/io/orc/aggregate_orc_metadata.cpp:219-243 | after a successful selection, each mapped file holds its selected stripes' footers in selection order and every other file keeps its footers |
| `Aggregate.AggregateMetadata.Open` | cpp/src/io/orc/aggregate_orc_metadata.cpp:123-150 | the object exists exactly when every file matches file 0, with totals equal to the sums; otherwise the error is the first mismatch of the first mismatching file |
| `Aggregate.AggregateMetadata.ReadSourceFooters` | cpp/src/io/orc/aggregate_orc_metadata.cpp:223-241 | resizes the source's footer list, then fills it in selection order; it fails exactly when a footer does not end strictly before the source size, and clears the flag when a stripe has no index |
| `Aggregate.AggregateMetadata.ReadStripeFooters` | cpp/src/io/orc/aggregate_orc_metadata.cpp:219-243 | passes exactly when every selected footer lies inside its source ("Invalid stripe information" otherwise); the flag ends false exactly when it was false or a selected stripe has `indexLength == 0` |
| `Aggregate.AggregateMetadata.SelectStripes` | cpp/src/io/orc/aggregate_orc_metadata.cpp:152-246 | a planning error is returned in the source's check order with nothing changed; otherwise the plan is the explicit or the range plan, and the call succeeds exactly when every planned footer is in bounds |
| `Aggregate.AggregateMetadata.SelectColumns` | cpp/src/io/orc/aggregate_orc_metadata.cpp:248-272 | succeeds exactly when the paths resolve on file 0; the hierarchy is built from that selection's acyclic nesting map |

## Left out

- `OrcMetadata.TotalRows`: the sum is an unbounded integer. In the source
  `std::accumulate` is seeded with the `int` literal `0`, so the running
  total is a 32-bit `int` and overflows past 2^31 - 1 rows. The same holds
  for `OrcMetadata.TotalStripes`.
- `StripeSelection.SelectExplicit`: the row count is an unbounded sum. The
  source adds into the 32-bit `size_type` `row_count` (line 179) and does
  not reject repeated stripe indices. For example, one stripe of 2^30 rows
  requested as `[[0, 0, 0]]` overflows there, while the model returns a
  count of 3 * 2^30.
- Malformed schemas are not modelled. On a parent lookup with a cycle, the
  upward `while` walk (lines 50-59) never ends. On child lists with a cycle,
  `add_nested_columns` (lines 65-76) recurses without bound. The model
  assumes `WellFormed` input, where neither can happen.

- Reading the per-file footers from the sources (`metadatas_from_sources`,
  lines 95-103) is left out. The model starts from the parsed metadata, and
  the `AggregateMetadata` constructor takes it as its argument.
- Reading, decompressing and protobuf-parsing a stripe footer (lines
  232-238) is left out. These are I/O, a codec and a decoder whose code is
  not part of this model. The model records the byte range a footer would be
  read from and treats the read as always succeeding.
- Pointer identity and lifetime of the stripe/footer pairs are left out.
  Mappings hold stripe indices and footer slots hold values.
- `Aggregate.AggregateMetadata.SelectStripes`: range mode does not model the
  "Invalid row start" check (line 191). `StripeSelection.RowStartCheckRedundant`
  proves that it cannot fire once the row-count check has passed.
- `StripeSelection.ReadAllPicksEveryNonEmptyStripe` covers only stripes that
  hold rows. As in the source (lines 201-211), a stripe without rows is
  selected only while the running count is still 0. Empty stripes after the
  last row are never reached, and empty stripes that end at or before the
  start row are skipped. `StripeSelection.ZeroRowStripesAfterEndDropped` and
  `StripeSelection.ZeroRowStripeBeforeStartSkipped` show one case of each.
- `StripeSelection.SelectRange`: the walk's `row_start + row_count` and the
  running count are unbounded integers. 32-bit overflow of `size_type`
  past 2^31 - 1 rows is not modelled. The "read to end" cap at
  `std::numeric_limits<size_type>::max()` is modelled.
- `Aggregate.FooterInBounds`: the bound `offset + indexLength + dataLength +
  footerLength < size` is computed on unbounded integers. Wrap-around of the
  fixed-width stripe fields is not modelled, because their C++ types are
  declared outside this file.
- `Hierarchy.ColumnHierarchy.constructor`: `children[id]` in `levelize` is
  `std::map::operator[]`. It inserts an empty list for every leaf it visits.
  The model reads a missing key as the empty list and does not add those
  keys to the stored map.
- `Hierarchy.ColumnHierarchy.constructor` takes the schema size as a ghost
  bound. Together with `ChildIdsIncrease` (children have larger ids than
  their parent) this bound makes the recursion terminate. The source
  assumes a cycle-free map and does not check it.
- A per-file `select_columns` is not modelled. As in the source, the paths
  are resolved on file 0 only.
- The idempotence of calling `select_stripes` twice is not stated as a
  lemma. Planning is a function of the unchanged file metadata. A second
  read overwrites each mapped file's footer list with the same list
  (`Aggregate.PlannedFooters`).

## Findings

| source | as written | input that shows it | evidently intended | confidence | as-written member | corrected member |
|---|---|---|---|---|---|---|
| cpp/src/io/orc/aggregate_orc_metadata.cpp:141-144 | the three-iterator `std::equal` walks only the field names of the file being checked, so a file whose struct field names are a proper prefix of file 0's passes | file 0 has a root struct with fields `a`, `b`; file 1 has a root struct with only `a` and the same kind at every id (`SchemaCheck.WideFile`, `SchemaCheck.NarrowFile`) | the field-name lists are equal, including their length ("All source column names must be the same") | high (not executed) | `SchemaCheck.TruncatedFieldNamesAccepted` | `SchemaCheck.CheckSourcesCompatible` |
