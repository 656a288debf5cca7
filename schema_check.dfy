/**
 * The cross-source compatibility check run when an aggregate is built:
 * every file must agree with file 0 in column count, compression kind and,
 * type by type, in kind, field names and decimal scale (an absent scale
 * reads as 0).
 */
module SchemaCheck {
  import opened OrcMetadata

  /** `scale.value_or(0)` */
  function ScaleOrZero(t: SchemaType): nat
  {
    match t.scale
    case None => 0
    case Some(s) => s
  }

  /** Two schema nodes agree in kind, field names and decimal scale. */
  predicate TypesMatch(t: SchemaType, t0: SchemaType)
  {
    t.kind == t0.kind && t.fieldNames == t0.fieldNames && ScaleOrZero(t) == ScaleOrZero(t0)
  }

  /** File `f` may be read together with file `f0`. */
  predicate Compatible(f0: FileMetadata, f: FileMetadata)
  {
    && |f.types| == |f0.types|
    && f.compression == f0.compression
    && forall i :: 0 <= i < |f.types| ==> TypesMatch(f.types[i], f0.types[i])
  }

  /**
   * The error the per-type checks raise for types `t` against `t0`,
   * scanning from index `i`: the first index that differs decides, and at
   * that index kind is checked before names, names before scale.
   */
  function TypeMismatchFrom(t0: seq<SchemaType>, t: seq<SchemaType>, i: nat): (r: Option<OrcError>)
    requires |t| == |t0| && i <= |t|
    ensures r.None? <==> forall j :: i <= j < |t| ==> TypesMatch(t[j], t0[j])
    ensures r.Some? ==> r.value in {ColumnTypeMismatch, ColumnNameMismatch, ScaleMismatch}
    decreases |t| - i
  {
    if i == |t| then None
    else if t[i].kind != t0[i].kind then Some(ColumnTypeMismatch)
    else if t[i].fieldNames != t0[i].fieldNames then Some(ColumnNameMismatch)
    else if ScaleOrZero(t[i]) != ScaleOrZero(t0[i]) then Some(ScaleMismatch)
    else TypeMismatchFrom(t0, t, i + 1)
  }

  /** The error the checks raise for file `f` against file `f0`, in the order the source checks them. */
  function FirstMismatch(f0: FileMetadata, f: FileMetadata): (r: Option<OrcError>)
    ensures r.None? <==> Compatible(f0, f)
    ensures |f.types| != |f0.types| ==> r == Some(ColumnCountMismatch)
    ensures |f.types| == |f0.types| && f.compression != f0.compression ==> r == Some(CompressionMismatch)
  {
    if |f.types| != |f0.types| then Some(ColumnCountMismatch)
    else if f.compression != f0.compression then Some(CompressionMismatch)
    else TypeMismatchFrom(f0.types, f.types, 0)
  }

  /**
   * The validation loop of the aggregate constructor. It passes exactly when
   * every file is compatible with file 0; otherwise it fails with the error
   * of the first incompatible file.
   */
  method CheckSourcesCompatible(files: seq<FileMetadata>) returns (r: Outcome)
    ensures r.Pass? <==> forall k :: 0 <= k < |files| ==> Compatible(files[0], files[k])
    ensures r.Fail? ==> exists k :: 0 <= k < |files|
                                    && (forall j :: 0 <= j < k ==> Compatible(files[0], files[j]))
                                    && FirstMismatch(files[0], files[k]) == Some(r.error)
  {
    for k := 0 to |files|
      invariant forall j :: 0 <= j < k ==> Compatible(files[0], files[j])
    {
      var pfm := files[k];
      if |files[0].types| != |pfm.types| {
        return Fail(ColumnCountMismatch);
      }
      if files[0].compression != pfm.compression {
        return Fail(CompressionMismatch);
      }
      for i := 0 to |pfm.types|
        invariant TypeMismatchFrom(files[0].types, pfm.types, 0) == TypeMismatchFrom(files[0].types, pfm.types, i)
      {
        if pfm.types[i].kind != files[0].types[i].kind {
          return Fail(ColumnTypeMismatch);
        }
        if pfm.types[i].fieldNames != files[0].types[i].fieldNames {
          return Fail(ColumnNameMismatch);
        }
        if ScaleOrZero(pfm.types[i]) != ScaleOrZero(files[0].types[i]) {
          return Fail(ScaleMismatch);
        }
      }
    }
    return Pass;
  }

  /** Compatibility with file 0 is reflexive, so a single source always passes. */
  lemma {:induction false} SingleSourceCompatible(f: FileMetadata)
    ensures Compatible(f, f)
  {
    forall i | 0 <= i < |f.types|
      ensures TypesMatch(f.types[i], f.types[i])
    {
    }
  }

  /** Compatibility with file 0 is transitive through file 0: any two accepted files agree with each other. */
  lemma {:induction false} AcceptedFilesAgree(files: seq<FileMetadata>, j: nat, k: nat)
    requires forall m :: 0 <= m < |files| ==> Compatible(files[0], files[m])
    requires j < |files| && k < |files|
    ensures Compatible(files[j], files[k])
  {
    assert Compatible(files[0], files[j]) && Compatible(files[0], files[k]);
    forall i | 0 <= i < |files[k].types|
      ensures TypesMatch(files[k].types[i], files[j].types[i])
    {
      assert TypesMatch(files[k].types[i], files[0].types[i]);
      assert TypesMatch(files[j].types[i], files[0].types[i]);
    }
  }

  // ---------------------------------------------------------------------------
  // Field names compared the way the source compares them.
  //
  // The three-iterator std::equal walks only the range of the file being
  // checked, so a file whose field-name list is a proper prefix of file 0's
  // list passes. When the file's list is longer than file 0's, the walk reads
  // past the end of file 0's list; that undefined read is modelled as a
  // mismatch.
  // ---------------------------------------------------------------------------

  predicate NamesMatchAsWritten(names: seq<string>, names0: seq<string>)
  {
    |names| <= |names0| && names == names0[..|names|]
  }

  predicate TypesMatchAsWritten(t: SchemaType, t0: SchemaType)
  {
    t.kind == t0.kind && NamesMatchAsWritten(t.fieldNames, t0.fieldNames) && ScaleOrZero(t) == ScaleOrZero(t0)
  }

  predicate CompatibleAsWritten(f0: FileMetadata, f: FileMetadata)
  {
    && |f.types| == |f0.types|
    && f.compression == f0.compression
    && forall i :: 0 <= i < |f.types| ==> TypesMatchAsWritten(f.types[i], f0.types[i])
  }

  /** The check as written accepts everything the intended check accepts. */
  lemma {:induction false} AsWrittenIsWeaker(f0: FileMetadata, f: FileMetadata)
    requires Compatible(f0, f)
    ensures CompatibleAsWritten(f0, f)
  {
    forall i | 0 <= i < |f.types|
      ensures TypesMatchAsWritten(f.types[i], f0.types[i])
    {
      assert TypesMatch(f.types[i], f0.types[i]);
      assert f0.types[i].fieldNames[..|f0.types[i].fieldNames|] == f0.types[i].fieldNames;
    }
  }

  /** File 0 of the counterexample: a root struct with fields `a` (a one-branch union) and `b`. */
  function WideFile(): FileMetadata
  {
    FileMetadata(0, [], [SchemaType(Struct, [1, 2], ["a", "b"], None), SchemaType(Union, [3], [], None),
                         SchemaType(Int, [], [], None), SchemaType(Int, [], [], None)],
                 Zlib, [None, Some(0), Some(0), Some(1)], ["", "a", "b", "a.0"], 100)
  }

  /** File 1 of the counterexample: a root struct with the single field `a` (a two-branch union). */
  function NarrowFile(): FileMetadata
  {
    FileMetadata(0, [], [SchemaType(Struct, [1], ["a"], None), SchemaType(Union, [2, 3], [], None),
                         SchemaType(Int, [], [], None), SchemaType(Int, [], [], None)],
                 Zlib, [None, Some(0), Some(1), Some(1)], ["", "a", "a.0", "a.1"], 100)
  }

  lemma WideFileWellFormed()
    ensures WellFormed(WideFile())
  {
    var w := WideFile();
    forall p, i | 0 <= p < |w.types| && 0 <= i < |w.types[p].subtypes|
      ensures p < w.types[p].subtypes[i] < |w.types| && w.parents[w.types[p].subtypes[i]] == Some(p)
    {
      assert p == 0 || p == 1;
    }
    forall c | 0 < c < |w.parents|
      ensures c in w.types[w.parents[c].value].subtypes
    {
      assert c == 1 || c == 2 || c == 3;
    }
  }

  lemma NarrowFileWellFormed()
    ensures WellFormed(NarrowFile())
  {
    var n := NarrowFile();
    forall p, i | 0 <= p < |n.types| && 0 <= i < |n.types[p].subtypes|
      ensures p < n.types[p].subtypes[i] < |n.types| && n.parents[n.types[p].subtypes[i]] == Some(p)
    {
      assert p == 0 || p == 1;
    }
    forall c | 0 < c < |n.parents|
      ensures c in n.types[n.parents[c].value].subtypes
    {
      assert c == 1 || c == 2 || c == 3;
    }
  }

  /**
   * The two counterexample files have the same kind at every id but
   * different top-level columns. The check as written accepts the pair; the
   * intended check rejects it.
   */
  lemma TruncatedFieldNamesAccepted()
    ensures WellFormed(WideFile()) && WellFormed(NarrowFile())
    ensures CompatibleAsWritten(WideFile(), NarrowFile()) && !Compatible(WideFile(), NarrowFile())
  {
    WideFileWellFormed();
    NarrowFileWellFormed();
    var w, n := WideFile(), NarrowFile();
    assert ["a", "b"][..1] == ["a"];
    assert TypesMatchAsWritten(n.types[0], w.types[0]);
    assert TypesMatchAsWritten(n.types[1], w.types[1]);
    assert !TypesMatch(n.types[0], w.types[0]);
  }
}
