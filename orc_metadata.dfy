/**
 * Plain-data view of what the ORC reader knows about each input file once its
 * footer has been parsed: the stripe directory, the schema type list, the
 * compression kind, the parent and dotted-path lookups and the byte size of
 * the source. Also the two totals the aggregate caches (calc_num_rows and
 * calc_num_stripes) and the row prefix sums the stripe walk is specified by.
 */
module OrcMetadata {

  datatype Option<+T> = None | Some(value: T)

  /** Every failure the read planner can raise; one constructor per CUDF_EXPECTS message. */
  datatype OrcError =
    | ColumnCountMismatch       // "All sources must have the same number of columns"
    | CompressionMismatch       // "All sources must have the same compression type"
    | ColumnTypeMismatch        // "Column types across all input sources must be the same"
    | ColumnNameMismatch        // "All source column names must be the same"
    | ScaleMismatch             // "All scale values must be the same"
    | StripesPerSourceMismatch  // "Must specify stripes for each source"
    | NonZeroRowStart           // "Start row index should be 0"
    | InvalidStripeIndex        // "Invalid stripe index"
    | InvalidRowCount           // "Invalid row count"
    | InvalidRowStart           // "Invalid row start"
    | InvalidStripeInformation  // "Invalid stripe information"
    | UnknownColumnName(path: string)

  datatype Result<+T> = Success(value: T) | Failure(error: OrcError)

  datatype Outcome = Pass | Fail(error: OrcError)

  /** The `kind` tag of an ORC schema node. */
  datatype TypeKind =
    | Boolean | Byte | Short | Int | Long | Float | Double | String | Binary
    | Timestamp | List | Map | Struct | Union | Decimal | Date | Varchar | Char

  datatype CompressionKind = NoCompression | Zlib | Snappy | Lzo | Lz4 | Zstd

  /** One schema node: its kind, the ids of its children, the names of struct fields and an optional decimal scale. */
  datatype SchemaType = SchemaType(kind: TypeKind, subtypes: seq<nat>, fieldNames: seq<string>, scale: Option<nat>)

  /** One entry of a file's stripe directory. */
  datatype StripeInfo = StripeInfo(offset: nat, indexLength: nat, dataLength: nat, footerLength: nat, numberOfRows: nat)

  /**
   * Per-file metadata. `numberOfRows` is the row count recorded in the file
   * footer (get_total_rows); `parents[id]` is the parent lookup
   * (column_has_parent / parent_id); `paths[id]` is the dotted column path
   * (column_path); `sourceSize` is the byte size of the source.
   */
  datatype FileMetadata = FileMetadata(
    numberOfRows: nat,
    stripes: seq<StripeInfo>,
    types: seq<SchemaType>,
    compression: CompressionKind,
    parents: seq<Option<nat>>,
    paths: seq<string>,
    sourceSize: nat)

  /** Every child id lies after its parent id and inside the type list, so schema walks terminate. */
  ghost predicate ChildrenAfterParent(types: seq<SchemaType>)
  {
    forall p, i :: 0 <= p < |types| && 0 <= i < |types[p].subtypes| ==> p < types[p].subtypes[i] < |types|
  }

  /**
   * The shape the model assumes of a well-formed ORC schema (nothing in the
   * reader checks it): a root at id 0 without a parent, every other id with a
   * smaller parent that lists it as a child, and every listed child having
   * the listing type as its parent.
   */
  ghost predicate WellFormed(f: FileMetadata)
  {
    && |f.types| > 0
    && |f.parents| == |f.types|
    && |f.paths| == |f.types|
    && ChildrenAfterParent(f.types)
    && f.parents[0].None?
    && (forall c :: 0 < c < |f.parents| ==> f.parents[c].Some? && f.parents[c].value < c)
    && (forall c :: 0 < c < |f.parents| ==> c in f.types[f.parents[c].value].subtypes)
    && (forall p, i :: 0 <= p < |f.types| && 0 <= i < |f.types[p].subtypes| ==> f.parents[f.types[p].subtypes[i]] == Some(p))
  }

  /** calc_num_rows: the left fold of the per-file footer row counts. */
  function TotalRows(files: seq<FileMetadata>): nat
  {
    if files == [] then 0 else TotalRows(files[..|files| - 1]) + files[|files| - 1].numberOfRows
  }

  /** calc_num_stripes: the left fold of the per-file stripe counts. */
  function TotalStripes(files: seq<FileMetadata>): nat
  {
    if files == [] then 0 else TotalStripes(files[..|files| - 1]) + |files[|files| - 1].stripes|
  }

  lemma {:induction false} TotalRowsConcat(a: seq<FileMetadata>, b: seq<FileMetadata>)
    ensures TotalRows(a + b) == TotalRows(a) + TotalRows(b)
    decreases |b|
  {
    if b != [] {
      assert (a + b)[..|a + b| - 1] == a + b[..|b| - 1];
      TotalRowsConcat(a, b[..|b| - 1]);
    } else {
      assert a + b == a;
    }
  }

  lemma {:induction false} TotalStripesConcat(a: seq<FileMetadata>, b: seq<FileMetadata>)
    ensures TotalStripes(a + b) == TotalStripes(a) + TotalStripes(b)
    decreases |b|
  {
    if b != [] {
      assert (a + b)[..|a + b| - 1] == a + b[..|b| - 1];
      TotalStripesConcat(a, b[..|b| - 1]);
    } else {
      assert a + b == a;
    }
  }

  /** A single file contributes exactly its own counts to the totals. */
  lemma {:induction false} TotalsOfOneFile(f: FileMetadata)
    ensures TotalRows([f]) == f.numberOfRows && TotalStripes([f]) == |f.stripes|
  {
    assert [f][..0] == [];
  }

  /** Sum of the row counts of a run of stripes, in directory order. */
  function StripeRows(stripes: seq<StripeInfo>): nat
  {
    if stripes == [] then 0 else StripeRows(stripes[..|stripes| - 1]) + stripes[|stripes| - 1].numberOfRows
  }

  /** Sum of the stripe row counts of every stripe of every file. */
  function FilesStripeRows(files: seq<FileMetadata>): nat
  {
    if files == [] then 0 else FilesStripeRows(files[..|files| - 1]) + StripeRows(files[|files| - 1].stripes)
  }

  /** The footer row count of every file equals the sum over its stripe directory. */
  ghost predicate RowCountsConsistent(files: seq<FileMetadata>)
  {
    forall i :: 0 <= i < |files| ==> files[i].numberOfRows == StripeRows(files[i].stripes)
  }

  lemma {:induction false} ConsistentTotals(files: seq<FileMetadata>)
    requires RowCountsConsistent(files)
    ensures FilesStripeRows(files) == TotalRows(files)
    decreases |files|
  {
    if files != [] {
      ConsistentTotals(files[..|files| - 1]);
    }
  }

  lemma {:induction false} StripeRowsPrefixMonotone(stripes: seq<StripeInfo>, s: nat, t: nat)
    requires s <= t <= |stripes|
    ensures StripeRows(stripes[..s]) <= StripeRows(stripes[..t])
    decreases t - s
  {
    if s < t {
      assert stripes[..t][..t - 1] == stripes[..t - 1];
      StripeRowsPrefixMonotone(stripes, s, t - 1);
    }
  }

  lemma {:induction false} FilesStripeRowsPrefixMonotone(files: seq<FileMetadata>, f: nat, g: nat)
    requires f <= g <= |files|
    ensures FilesStripeRows(files[..f]) <= FilesStripeRows(files[..g])
    decreases g - f
  {
    if f < g {
      assert files[..g][..g - 1] == files[..g - 1];
      FilesStripeRowsPrefixMonotone(files, f, g - 1);
    }
  }

  /**
   * Rows of all stripes that come before stripe `s` of file `f` in the
   * global walk order (all stripes of earlier files, then the earlier
   * stripes of `f`).
   */
  function RowsBefore(files: seq<FileMetadata>, f: nat, s: nat): nat
    requires f < |files| && s <= |files[f].stripes|
  {
    FilesStripeRows(files[..f]) + StripeRows(files[f].stripes[..s])
  }

  /** The walk position is monotone: later positions have at least as many rows before them. */
  lemma {:induction false} RowsBeforeMonotone(files: seq<FileMetadata>, f: nat, s: nat, g: nat, t: nat)
    requires f < |files| && s <= |files[f].stripes|
    requires g < |files| && t <= |files[g].stripes|
    requires f < g || (f == g && s <= t)
    ensures RowsBefore(files, f, s) <= RowsBefore(files, g, t)
  {
    if f == g {
      StripeRowsPrefixMonotone(files[f].stripes, s, t);
    } else {
      RowsBeforeEndOfFile(files, f);
      StripeRowsPrefixMonotone(files[f].stripes, s, |files[f].stripes|);
      FilesStripeRowsPrefixMonotone(files, f + 1, g);
    }
  }

  /** Before the first stripe of file `f`, the walk has counted every stripe of the earlier files. */
  lemma {:induction false} RowsBeforeStartOfFile(files: seq<FileMetadata>, f: nat)
    requires f < |files|
    ensures RowsBefore(files, f, 0) == FilesStripeRows(files[..f])
  {
    assert files[f].stripes[..0] == [];
  }

  /** After the last stripe of file `f`, the walk has counted every stripe of files `0..f`. */
  lemma {:induction false} RowsBeforeEndOfFile(files: seq<FileMetadata>, f: nat)
    requires f < |files|
    ensures RowsBefore(files, f, |files[f].stripes|) == FilesStripeRows(files[..f + 1])
  {
    assert files[..f + 1][..f] == files[..f];
    assert files[f].stripes[..|files[f].stripes|] == files[f].stripes;
  }

  /** Counting one more stripe adds exactly its row count. */
  lemma {:induction false} RowsBeforeStep(files: seq<FileMetadata>, f: nat, s: nat)
    requires f < |files| && s < |files[f].stripes|
    ensures RowsBefore(files, f, s + 1) == RowsBefore(files, f, s) + files[f].stripes[s].numberOfRows
  {
    assert files[f].stripes[..s + 1][..s] == files[f].stripes[..s];
  }

  /** No position of the walk counts more rows than all stripes of all files. */
  lemma {:induction false} RowsBeforeBounded(files: seq<FileMetadata>, f: nat, s: nat)
    requires f < |files| && s <= |files[f].stripes|
    ensures RowsBefore(files, f, s) <= FilesStripeRows(files)
  {
    RowsBeforeMonotone(files, f, s, f, |files[f].stripes|);
    RowsBeforeEndOfFile(files, f);
    FilesStripeRowsPrefixMonotone(files, f + 1, |files|);
    assert files[..|files|] == files;
  }
}
