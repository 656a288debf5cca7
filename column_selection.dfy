/**
 * Column selection: resolving dotted column paths against the schema of file
 * 0 and building the nesting map (column id -> ids of its selected children)
 * that holds every ancestor edge of each selected column up to the root and
 * every schema edge below it.
 *
 * The map is a value; the source's helpers mutate one std::map by reference,
 * which here becomes a map passed in and the updated map returned. Each
 * helper is specified by the list of (parent, child) edges it inserts, in
 * insertion order.
 */
module ColumnSelection {
  import opened OrcMetadata

  type NestingMap = map<nat, seq<nat>>

  /** A (parent id, child id) pair to be recorded in a nesting map. */
  type Edge = (nat, nat)

  /** The list stored under `id`; an id without an entry has no selected children. */
  function Children(m: NestingMap, id: nat): seq<nat>
  {
    if id in m then m[id] else []
  }

  /**
   * `selected_columns[p]` followed by "push_back `c` unless std::find sees it":
   * the entry for `p` is created if missing and `c` is appended at most once.
   */
  function InsertEdge(m: NestingMap, e: Edge): NestingMap
  {
    var kids := Children(m, e.0);
    m[e.0 := if e.1 in kids then kids else kids + [e.1]]
  }

  /** Inserting a list of edges one after the other, front to back. */
  function InsertEdges(m: NestingMap, es: seq<Edge>): NestingMap
    decreases |es|
  {
    if es == [] then m else InsertEdges(InsertEdge(m, es[0]), es[1..])
  }

  lemma InsertEdgesSnoc(m: NestingMap, es: seq<Edge>, e: Edge)
    ensures InsertEdges(m, es + [e]) == InsertEdge(InsertEdges(m, es), e)
  {
    InsertEdgesAppend(m, es, [e]);
    assert [e][1..] == [];
  }

  predicate NoDuplicates(s: seq<nat>)
  {
    forall i, j :: 0 <= i < j < |s| ==> s[i] != s[j]
  }

  /** Every list in the map is free of duplicates. */
  ghost predicate ListsDistinct(m: NestingMap)
  {
    forall k :: k in m ==> NoDuplicates(m[k])
  }

  lemma {:induction false} InsertEdgesAppend(m: NestingMap, a: seq<Edge>, b: seq<Edge>)
    ensures InsertEdges(m, a + b) == InsertEdges(InsertEdges(m, a), b)
    decreases |a|
  {
    if a != [] {
      assert (a + b)[0] == a[0] && (a + b)[1..] == a[1..] + b;
      InsertEdgesAppend(InsertEdge(m, a[0]), a[1..], b);
    } else {
      assert a + b == b;
    }
  }

  /**
   * After inserting `es`, the children of `p` are the old children of `p`
   * followed by new ones, and `c` is among them exactly when it was before or
   * `(p, c)` is one of the inserted edges; every inserted parent has an entry.
   */
  lemma {:induction false} InsertEdgesContents(m: NestingMap, es: seq<Edge>, p: nat, c: nat)
    ensures Children(m, p) <= Children(InsertEdges(m, es), p)
    ensures c in Children(InsertEdges(m, es), p) <==> c in Children(m, p) || (p, c) in es
    ensures (exists d :: (p, d) in es) ==> p in InsertEdges(m, es)
    ensures p in m ==> p in InsertEdges(m, es)
    decreases |es|
  {
    if es != [] {
      var m1 := InsertEdge(m, es[0]);
      InsertEdgesContents(m1, es[1..], p, c);
      assert Children(m, p) <= Children(m1, p);
      assert es == [es[0]] + es[1..];
      if exists d :: (p, d) in es {
        var d :| (p, d) in es;
        if es[0].0 != p {
          assert (p, d) in es[1..];
        }
      }
    }
  }

  /** Inserting edges never introduces a duplicate into any list. */
  lemma {:induction false} InsertEdgesKeepsDistinct(m: NestingMap, es: seq<Edge>)
    requires ListsDistinct(m)
    ensures ListsDistinct(InsertEdges(m, es))
    decreases |es|
  {
    if es != [] {
      var m1 := InsertEdge(m, es[0]);
      forall k | k in m1
        ensures NoDuplicates(m1[k])
      {
        if k == es[0].0 {
          var kids := Children(m, k);
          assert NoDuplicates(kids);
        }
      }
      InsertEdgesKeepsDistinct(m1, es[1..]);
    }
  }

  /** Edges whose child is already listed under its parent change nothing. */
  lemma {:induction false} InsertPresentEdges(m: NestingMap, es: seq<Edge>)
    requires forall e :: e in es ==> e.0 in m && e.1 in m[e.0]
    ensures InsertEdges(m, es) == m
    decreases |es|
  {
    if es != [] {
      assert InsertEdge(m, es[0]) == m;
      assert forall e :: e in es[1..] ==> e in es;
      InsertPresentEdges(m, es[1..]);
    }
  }

  /** Inserting the same edges twice is the same as inserting them once. */
  lemma {:induction false} InsertEdgesIdempotent(m: NestingMap, es: seq<Edge>)
    ensures InsertEdges(InsertEdges(m, es), es) == InsertEdges(m, es)
  {
    var m1 := InsertEdges(m, es);
    forall e | e in es
      ensures e.0 in m1 && e.1 in m1[e.0]
    {
      InsertEdgesContents(m, es, e.0, e.1);
    }
    InsertPresentEdges(m1, es);
  }

  // ---------------------------------------------------------------------------
  // Ancestor edges (update_parent_mapping)
  // ---------------------------------------------------------------------------

  /** The edges from `id` up to the root, lowest first: (parent(id), id), (parent(parent(id)), parent(id)), ... */
  function ParentEdges(f: FileMetadata, id: nat): seq<Edge>
    requires WellFormed(f) && id < |f.types|
    decreases id
  {
    match f.parents[id]
    case None => []
    case Some(p) => [(p, id)] + ParentEdges(f, p)
  }

  /**
   * The ancestor edges of a non-root column form the chain from the column to
   * the root: the first edge ends at `id`, each edge ends where the previous
   * one started, each edge is a parent link of the schema, and the last one
   * starts at the root.
   */
  lemma {:induction false} ParentEdgesChain(f: FileMetadata, id: nat)
    requires WellFormed(f) && 0 < id < |f.types|
    ensures var es := ParentEdges(f, id);
            && |es| > 0
            && es[0].1 == id
            && es[|es| - 1].0 == 0
            && (forall k :: 0 <= k < |es| ==> es[k].1 < |f.types| && f.parents[es[k].1] == Some(es[k].0))
            && (forall k :: 0 < k < |es| ==> es[k].1 == es[k - 1].0)
    decreases id
  {
    var p := f.parents[id].value;
    var es := ParentEdges(f, id);
    assert es == [(p, id)] + ParentEdges(f, p);
    if p != 0 {
      ParentEdgesChain(f, p);
    } else {
      assert ParentEdges(f, 0) == [];
    }
  }

  /**
   * update_parent_mapping: walk upward from `id` and record each column under
   * its parent, skipping columns already recorded.
   */
  method UpdateParentMapping(m: NestingMap, f: FileMetadata, id: nat) returns (r: NestingMap)
    requires WellFormed(f) && id < |f.types|
    ensures r == InsertEdges(m, ParentEdges(f, id))
  {
    r := m;
    var current: nat := id;
    ghost var done: seq<Edge> := [];
    while f.parents[current].Some?
      invariant current < |f.types|
      invariant ParentEdges(f, id) == done + ParentEdges(f, current)
      invariant r == InsertEdges(m, done)
      decreases current
    {
      var parent := f.parents[current].value;
      ParentChainStep(f, id, done, current);
      InsertEdgesSnoc(m, done, (parent, current));
      if current !in Children(r, parent) {
        r := r[parent := Children(r, parent) + [current]];
      } else {
        r := r[parent := Children(r, parent)];
      }
      done := done + [(parent, current)];
      current := parent;
    }
    assert done + [] == done;
  }

  /** One step up the parent chain: the edge to the parent moves from the rest of the chain to the edges done. */
  lemma ParentChainStep(f: FileMetadata, id: nat, done: seq<Edge>, current: nat)
    requires WellFormed(f) && id < |f.types| && current < |f.types| && f.parents[current].Some?
    requires ParentEdges(f, id) == done + ParentEdges(f, current)
    ensures var parent := f.parents[current].value;
            && parent < current
            && ParentEdges(f, id) == (done + [(parent, current)]) + ParentEdges(f, parent)
  {
    var parent := f.parents[current].value;
    assert ParentEdges(f, current) == [(parent, current)] + ParentEdges(f, parent);
    assert done + ([(parent, current)] + ParentEdges(f, parent)) == (done + [(parent, current)]) + ParentEdges(f, parent);
  }

  // ---------------------------------------------------------------------------
  // Descendant edges (add_nested_columns)
  // ---------------------------------------------------------------------------

  /** Every schema edge below `id`, in the order a pre-order walk of the children lists records them. */
  function SubtreeEdges(types: seq<SchemaType>, id: nat): seq<Edge>
    requires ChildrenAfterParent(types) && id < |types|
    decreases |types| - id, 1
  {
    ForestEdges(types, id, types[id].subtypes)
  }

  /** For each child `c` of `p` in `cs`, the edge (p, c) followed by every edge below `c`. */
  function ForestEdges(types: seq<SchemaType>, p: nat, cs: seq<nat>): seq<Edge>
    requires ChildrenAfterParent(types) && p < |types|
    requires forall i :: 0 <= i < |cs| ==> p < cs[i] < |types|
    decreases |types| - p, 0, |cs|
  {
    if cs == [] then [] else [(p, cs[0])] + SubtreeEdges(types, cs[0]) + ForestEdges(types, p, cs[1..])
  }

  lemma {:induction false} ForestEdgesSnoc(types: seq<SchemaType>, p: nat, cs: seq<nat>, c: nat)
    requires ChildrenAfterParent(types) && p < |types|
    requires forall i :: 0 <= i < |cs| ==> p < cs[i] < |types|
    requires p < c < |types|
    ensures ForestEdges(types, p, cs + [c]) == ForestEdges(types, p, cs) + [(p, c)] + SubtreeEdges(types, c)
    decreases |cs|
  {
    var tail := [(p, c)] + SubtreeEdges(types, c);
    if cs == [] {
      assert [c][1..] == [];
      assert ForestEdges(types, p, [c]) == tail + ForestEdges(types, p, []);
    } else {
      var cs' := cs + [c];
      assert cs'[0] == cs[0] && cs'[1..] == cs[1..] + [c];
      var head := [(p, cs[0])] + SubtreeEdges(types, cs[0]);
      assert ForestEdges(types, p, cs') == head + ForestEdges(types, p, cs[1..] + [c]);
      ForestEdgesSnoc(types, p, cs[1..], c);
      assert ForestEdges(types, p, cs) == head + ForestEdges(types, p, cs[1..]);
      assert ForestEdges(types, p, cs[1..] + [c]) == ForestEdges(types, p, cs[1..]) + tail;
    }
  }

  /** Every edge below `id` is a parent-child link of the schema whose parent is `id` or lies below it. */
  lemma {:induction false} SubtreeEdgesSound(types: seq<SchemaType>, id: nat, e: Edge)
    requires ChildrenAfterParent(types) && id < |types|
    requires e in SubtreeEdges(types, id)
    ensures id <= e.0 < e.1 < |types| && e.1 in types[e.0].subtypes
    decreases |types| - id, 1
  {
    ForestEdgesSound(types, id, types[id].subtypes, e);
  }

  lemma {:induction false} ForestEdgesSound(types: seq<SchemaType>, p: nat, cs: seq<nat>, e: Edge)
    requires ChildrenAfterParent(types) && p < |types|
    requires forall i :: 0 <= i < |cs| ==> p < cs[i] < |types| && cs[i] in types[p].subtypes
    requires e in ForestEdges(types, p, cs)
    ensures p <= e.0 < e.1 < |types| && e.1 in types[e.0].subtypes
    decreases |types| - p, 0, |cs|
  {
    var rest := ForestEdges(types, p, cs[1..]);
    if e == (p, cs[0]) {
    } else if e in SubtreeEdges(types, cs[0]) {
      SubtreeEdgesSound(types, cs[0], e);
    } else {
      assert e in rest;
      ForestEdgesSound(types, p, cs[1..], e);
    }
  }

  /**
   * The edges below `id` contain every child link of `id` and are closed
   * downward: below any recorded child, all of its schema children are
   * recorded too.
   */
  lemma {:induction false} SubtreeEdgesComplete(types: seq<SchemaType>, id: nat, p: nat, c: nat)
    requires ChildrenAfterParent(types) && id < |types| && p < |types|
    requires c in types[p].subtypes
    requires p == id || exists q :: (q, p) in SubtreeEdges(types, id)
    ensures (p, c) in SubtreeEdges(types, id)
    decreases |types| - id, 1
  {
    ForestEdgesComplete(types, id, types[id].subtypes, p, c);
  }

  lemma {:induction false} ForestEdgesComplete(types: seq<SchemaType>, q0: nat, cs: seq<nat>, p: nat, c: nat)
    requires ChildrenAfterParent(types) && q0 < |types| && p < |types|
    requires forall i :: 0 <= i < |cs| ==> q0 < cs[i] < |types|
    requires c in types[p].subtypes
    requires (p == q0 && c in cs) || exists q :: (q, p) in ForestEdges(types, q0, cs)
    ensures (p, c) in ForestEdges(types, q0, cs)
    decreases |types| - q0, 0, |cs|
  {
    var head := [(q0, cs[0])] + SubtreeEdges(types, cs[0]);
    var rest := ForestEdges(types, q0, cs[1..]);
    assert ForestEdges(types, q0, cs) == head + rest;
    if p == q0 && c in cs {
      if c != cs[0] {
        ForestEdgesComplete(types, q0, cs[1..], p, c);
      }
    } else {
      var q :| (q, p) in ForestEdges(types, q0, cs);
      if (q, p) == (q0, cs[0]) {
        SubtreeEdgesComplete(types, cs[0], p, c);
      } else if (q, p) in SubtreeEdges(types, cs[0]) {
        SubtreeEdgesComplete(types, cs[0], p, c);
      } else {
        assert (q, p) in rest;
        ForestEdgesComplete(types, q0, cs[1..], p, c);
      }
    }
  }

  /**
   * add_nested_columns: for each schema child of `id`, record it under `id`
   * unless already there, then recurse into it.
   */
  method AddNestedColumns(m: NestingMap, types: seq<SchemaType>, id: nat) returns (r: NestingMap)
    requires ChildrenAfterParent(types) && id < |types|
    ensures r == InsertEdges(m, SubtreeEdges(types, id))
    decreases |types| - id
  {
    r := m;
    var subtypes := types[id].subtypes;
    for i := 0 to |subtypes|
      invariant r == InsertEdges(m, ForestEdges(types, id, subtypes[..i]))
    {
      var childId := subtypes[i];
      NestedStep(m, types, id, i);
      var kids := Children(r, id);
      if childId !in kids {
        r := r[id := kids + [childId]];
      } else {
        r := r[id := kids];
      }
      r := AddNestedColumns(r, types, childId);
    }
    assert subtypes[..|subtypes|] == subtypes;
  }

  /** One step of the child loop of add_nested_columns: the edge to child `i`, then every edge below it. */
  lemma NestedStep(m: NestingMap, types: seq<SchemaType>, id: nat, i: nat)
    requires ChildrenAfterParent(types) && id < |types| && i < |types[id].subtypes|
    ensures var subtypes := types[id].subtypes;
            var c := subtypes[i];
            && id < c < |types|
            && InsertEdges(m, ForestEdges(types, id, subtypes[..i + 1]))
               == InsertEdges(InsertEdge(InsertEdges(m, ForestEdges(types, id, subtypes[..i])), (id, c)), SubtreeEdges(types, c))
  {
    var subtypes := types[id].subtypes;
    var c := subtypes[i];
    var before := ForestEdges(types, id, subtypes[..i]);
    InsertEdgesSnoc(m, before, (id, c));
    InsertEdgesAppend(m, before + [(id, c)], SubtreeEdges(types, c));
    assert subtypes[..i + 1] == subtypes[..i] + [c];
    ForestEdgesSnoc(types, id, subtypes[..i], c);
  }

  // ---------------------------------------------------------------------------
  // add_column_to_mapping and select_columns
  // ---------------------------------------------------------------------------

  /** Every edge recorded for one selected column: its ancestors first, then its whole subtree. */
  function ColumnEdges(f: FileMetadata, id: nat): seq<Edge>
    requires WellFormed(f) && id < |f.types|
  {
    ParentEdges(f, id) + SubtreeEdges(f.types, id)
  }

  /** add_column_to_mapping: ancestors up to the root, then all nested columns. */
  method AddColumnToMapping(m: NestingMap, f: FileMetadata, id: nat) returns (r: NestingMap)
    requires WellFormed(f) && id < |f.types|
    ensures r == InsertEdges(m, ColumnEdges(f, id))
  {
    r := UpdateParentMapping(m, f, id);
    r := AddNestedColumns(r, f.types, id);
    InsertEdgesAppend(m, ParentEdges(f, id), SubtreeEdges(f.types, id));
  }

  /** Edges recorded for a list of selected column ids, in order. */
  function RequestedEdges(f: FileMetadata, ids: seq<nat>): seq<Edge>
    requires WellFormed(f) && forall i :: 0 <= i < |ids| ==> ids[i] < |f.types|
    decreases |ids|
  {
    if ids == [] then [] else RequestedEdges(f, ids[..|ids| - 1]) + ColumnEdges(f, ids[|ids| - 1])
  }

  /** The smallest non-root id at or after `from` whose dotted path is `path`. */
  function FindColumnFrom(f: FileMetadata, path: string, from: nat): (r: Option<nat>)
    requires WellFormed(f) && 1 <= from
    ensures r.Some? ==> from <= r.value < |f.types| && f.paths[r.value] == path
                        && forall j :: from <= j < r.value ==> f.paths[j] != path
    ensures r.None? ==> forall j :: from <= j < |f.types| ==> f.paths[j] != path
    decreases |f.types| - from
  {
    if from >= |f.types| then None
    else if f.paths[from] == path then Some(from)
    else FindColumnFrom(f, path, from + 1)
  }

  /** The column id a path names: the first non-root id with that path. */
  function FindColumn(f: FileMetadata, path: string): Option<nat>
    requires WellFormed(f)
  {
    FindColumnFrom(f, path, 1)
  }

  /** Resolves every requested path, failing on the first one that names no column. */
  function ResolvePaths(f: FileMetadata, paths: seq<string>): (r: Result<seq<nat>>)
    requires WellFormed(f)
    ensures r.Success? ==> |r.value| == |paths|
                           && forall i :: 0 <= i < |paths| ==> FindColumn(f, paths[i]) == Some(r.value[i])
    ensures r.Failure? <==> exists i :: 0 <= i < |paths| && FindColumn(f, paths[i]).None?
    ensures r.Failure? ==> exists i :: 0 <= i < |paths| && FindColumn(f, paths[i]).None?
                                       && r.error == UnknownColumnName(paths[i])
                                       && forall j :: 0 <= j < i ==> FindColumn(f, paths[j]).Some?
    decreases |paths|
  {
    if paths == [] then Success([])
    else
      match FindColumn(f, paths[0])
      case None => Failure(UnknownColumnName(paths[0]))
      case Some(id) =>
        match ResolvePaths(f, paths[1..])
        case Failure(e) => Failure(e)
        case Success(ids) => Success([id] + ids)
  }

  /**
   * The nesting map select_columns builds: with no paths, every top-level
   * column with its subtree; otherwise each named column with its ancestors
   * and subtree, failing on the first unknown path.
   */
  ghost function NestingMapFor(f: FileMetadata, paths: seq<string>): Result<NestingMap>
    requires WellFormed(f)
  {
    if paths == [] then
      Success(InsertEdges(map[], RequestedEdges(f, f.types[0].subtypes)))
    else
      match ResolvePaths(f, paths)
      case Failure(e) => Failure(e)
      case Success(ids) => Success(InsertEdges(map[], RequestedEdges(f, ids)))
  }

  /** select_columns on the schema of file 0, returning the nesting map. */
  method SelectColumns(f: FileMetadata, columnPaths: seq<string>) returns (r: Result<NestingMap>)
    requires WellFormed(f)
    ensures r == NestingMapFor(f, columnPaths)
  {
    if columnPaths == [] {
      var all := SelectTopLevel(f);
      return Success(all);
    }
    var selected: NestingMap := map[];
    ghost var ids: seq<nat> := [];
    for p := 0 to |columnPaths|
      invariant |ids| == p
      invariant forall k :: 0 <= k < p ==> FindColumn(f, columnPaths[k]) == Some(ids[k])
      invariant forall i :: 0 <= i < |ids| ==> ids[i] < |f.types|
      invariant selected == InsertEdges(map[], RequestedEdges(f, ids))
    {
      var found := FindColumnId(f, columnPaths[p]);
      if found.None? {
        ResolveFailsAt(f, columnPaths, p);
        return Failure(UnknownColumnName(columnPaths[p]));
      }
      var colId := found.value;
      selected := AddColumnToMapping(selected, f, colId);
      InsertEdgesAppend(map[], RequestedEdges(f, ids), ColumnEdges(f, colId));
      RequestedEdgesSnoc(f, ids, colId);
      ghost var before := ids;
      ids := ids + [colId];
      forall k | 0 <= k <= p
        ensures FindColumn(f, columnPaths[k]) == Some(ids[k])
      {
        if k < p {
          assert ids[k] == before[k];
        }
      }
    }
    ResolveSucceeds(f, columnPaths, ids);
    r := Success(selected);
  }

  lemma RequestedEdgesSnoc(f: FileMetadata, ids: seq<nat>, id: nat)
    requires WellFormed(f) && id < |f.types| && forall i :: 0 <= i < |ids| ==> ids[i] < |f.types|
    ensures RequestedEdges(f, ids + [id]) == RequestedEdges(f, ids) + ColumnEdges(f, id)
  {
    assert (ids + [id])[..|ids|] == ids;
  }

  /** The empty-path branch of select_columns: every child of the root, each with its subtree. */
  method SelectTopLevel(f: FileMetadata) returns (selected: NestingMap)
    requires WellFormed(f)
    ensures selected == InsertEdges(map[], RequestedEdges(f, f.types[0].subtypes))
  {
    selected := map[];
    var roots := f.types[0].subtypes;
    for i := 0 to |roots|
      invariant selected == InsertEdges(map[], RequestedEdges(f, roots[..i]))
    {
      selected := AddColumnToMapping(selected, f, roots[i]);
      assert roots[..i + 1][..i] == roots[..i];
      InsertEdgesAppend(map[], RequestedEdges(f, roots[..i]), ColumnEdges(f, roots[i]));
    }
    assert roots[..|roots|] == roots;
  }

  /** The search of select_columns for one path: scan the non-root ids in order and stop at the first match. */
  method FindColumnId(f: FileMetadata, path: string) returns (r: Option<nat>)
    requires WellFormed(f)
    ensures r == FindColumn(f, path)
  {
    var colId := 1;
    while colId < |f.types|
      invariant 1 <= colId <= |f.types|
      invariant FindColumn(f, path) == FindColumnFrom(f, path, colId)
    {
      if f.paths[colId] == path {
        return Some(colId);
      }
      colId := colId + 1;
    }
    return None;
  }

  lemma {:induction false} ResolveFailsAt(f: FileMetadata, paths: seq<string>, p: nat)
    requires WellFormed(f) && p < |paths|
    requires forall k :: 0 <= k < p ==> FindColumn(f, paths[k]).Some?
    requires FindColumn(f, paths[p]).None?
    ensures ResolvePaths(f, paths) == Failure(UnknownColumnName(paths[p]))
    decreases p
  {
    if p > 0 {
      ResolveFailsAt(f, paths[1..], p - 1);
    }
  }

  lemma {:induction false} ResolveSucceeds(f: FileMetadata, paths: seq<string>, ids: seq<nat>)
    requires WellFormed(f) && |ids| == |paths|
    requires forall k :: 0 <= k < |paths| ==> FindColumn(f, paths[k]) == Some(ids[k])
    ensures ResolvePaths(f, paths) == Success(ids)
    decreases |paths|
  {
    if paths != [] {
      ResolveSucceeds(f, paths[1..], ids[1..]);
      assert ids == [ids[0]] + ids[1..];
    }
  }

  // ---------------------------------------------------------------------------
  // What the nesting map holds
  // ---------------------------------------------------------------------------

  /** Every child id is listed under a smaller parent id and is below `n`: the map has no cycle. */
  ghost predicate ChildIdsIncrease(m: NestingMap, n: nat)
  {
    forall p, i :: p in m && 0 <= i < |m[p]| ==> p < m[p][i] < n
  }

  lemma RequestedEdgesMember(f: FileMetadata, ids: seq<nat>, e: Edge)
    requires WellFormed(f) && forall i :: 0 <= i < |ids| ==> ids[i] < |f.types|
    ensures e in RequestedEdges(f, ids) <==> exists k :: 0 <= k < |ids| && e in ColumnEdges(f, ids[k])
  {
    if e in RequestedEdges(f, ids) {
      var k := RequestedEdgeSource(f, ids, e);
    }
    if exists k :: 0 <= k < |ids| && e in ColumnEdges(f, ids[k]) {
      var k :| 0 <= k < |ids| && e in ColumnEdges(f, ids[k]);
      RequestedEdgesInclude(f, ids, k, e);
    }
  }

  /** Each recorded edge comes from the column edges of some requested id. */
  lemma {:induction false} RequestedEdgeSource(f: FileMetadata, ids: seq<nat>, e: Edge) returns (k: nat)
    requires WellFormed(f) && forall i :: 0 <= i < |ids| ==> ids[i] < |f.types|
    requires e in RequestedEdges(f, ids)
    ensures k < |ids| && e in ColumnEdges(f, ids[k])
    decreases |ids|
  {
    var n := |ids| - 1;
    if e in ColumnEdges(f, ids[n]) {
      k := n;
    } else {
      k := RequestedEdgeSource(f, ids[..n], e);
      assert ids[..n][k] == ids[k];
    }
  }

  /** The column edges of every requested id are recorded. */
  lemma {:induction false} RequestedEdgesInclude(f: FileMetadata, ids: seq<nat>, k: nat, e: Edge)
    requires WellFormed(f) && forall i :: 0 <= i < |ids| ==> ids[i] < |f.types|
    requires k < |ids| && e in ColumnEdges(f, ids[k])
    ensures e in RequestedEdges(f, ids)
    decreases |ids|
  {
    var n := |ids| - 1;
    if k < n {
      assert ids[..n][k] == ids[k];
      RequestedEdgesInclude(f, ids[..n], k, e);
    }
  }

  /** Every recorded edge of one column is a parent link of the schema between ids of the schema. */
  lemma {:induction false} ColumnEdgesAreSchemaLinks(f: FileMetadata, id: nat, e: Edge)
    requires WellFormed(f) && id < |f.types|
    requires e in ColumnEdges(f, id)
    ensures e.0 < e.1 < |f.types| && f.parents[e.1] == Some(e.0)
  {
    if e in ParentEdges(f, id) {
      ParentEdgesChain(f, id);
      var es := ParentEdges(f, id);
      var k :| 0 <= k < |es| && es[k] == e;
    } else {
      assert e in SubtreeEdges(f.types, id);
      SubtreeEdgesSound(f.types, id, e);
      var i :| 0 <= i < |f.types[e.0].subtypes| && f.types[e.0].subtypes[i] == e.1;
    }
  }

  /**
   * The nesting map of a successful selection lists `c` under `p` exactly when
   * (p, c) is an ancestor edge or a subtree edge of one of the resolved
   * columns, and every such pair is a parent link of the schema.
   */
  lemma {:induction false} SelectedColumnsSound(f: FileMetadata, paths: seq<string>, p: nat, c: nat)
    requires WellFormed(f) && NestingMapFor(f, paths).Success?
    requires c in Children(NestingMapFor(f, paths).value, p)
    ensures p < c < |f.types| && f.parents[c] == Some(p)
    ensures paths != [] ==> exists i :: 0 <= i < |paths| && FindColumn(f, paths[i]).Some?
                                       && (p, c) in ColumnEdges(f, FindColumn(f, paths[i]).value)
  {
    var ids := if paths == [] then f.types[0].subtypes else ResolvePaths(f, paths).value;
    forall i | 0 <= i < |ids|
      ensures ids[i] < |f.types|
    {
      if paths != [] {
        assert FindColumn(f, paths[i]) == Some(ids[i]);
      }
    }
    InsertEdgesContents(map[], RequestedEdges(f, ids), p, c);
    RequestedEdgesMember(f, ids, (p, c));
    var k :| 0 <= k < |ids| && (p, c) in ColumnEdges(f, ids[k]);
    ColumnEdgesAreSchemaLinks(f, ids[k], (p, c));
    if paths != [] {
      assert FindColumn(f, paths[k]) == Some(ids[k]);
    }
  }

  /**
   * For each requested path, the nesting map holds the column's whole
   * ancestor chain and every schema edge at or below the column.
   */
  lemma {:induction false} SelectedColumnsComplete(f: FileMetadata, paths: seq<string>, i: nat, p: nat, c: nat)
    requires WellFormed(f) && NestingMapFor(f, paths).Success? && i < |paths| && p < |f.types|
    ensures FindColumn(f, paths[i]).Some?
    ensures var id := FindColumn(f, paths[i]).value;
            ((p, c) in ParentEdges(f, id)
             || (c in f.types[p].subtypes && (p == id || exists q :: (q, p) in SubtreeEdges(f.types, id))))
            ==> c in Children(NestingMapFor(f, paths).value, p)
  {
    var ids := ResolvePaths(f, paths).value;
    var id := ids[i];
    forall k | 0 <= k < |ids|
      ensures ids[k] < |f.types|
    {
      assert FindColumn(f, paths[k]) == Some(ids[k]);
    }
    if (p, c) in ParentEdges(f, id)
       || (c in f.types[p].subtypes && (p == id || exists q :: (q, p) in SubtreeEdges(f.types, id))) {
      if (p, c) !in ParentEdges(f, id) {
        SubtreeEdgesComplete(f.types, id, p, c);
      }
      assert (p, c) in ColumnEdges(f, ids[i]);
      RequestedEdgesMember(f, ids, (p, c));
      InsertEdgesContents(map[], RequestedEdges(f, ids), p, c);
    }
  }

  /** No list of a selection's nesting map holds an id twice. */
  lemma {:induction false} SelectedColumnsDistinct(f: FileMetadata, paths: seq<string>)
    requires WellFormed(f) && NestingMapFor(f, paths).Success?
    ensures ListsDistinct(NestingMapFor(f, paths).value)
  {
    var ids := if paths == [] then f.types[0].subtypes else ResolvePaths(f, paths).value;
    InsertEdgesKeepsDistinct(map[], RequestedEdges(f, ids));
  }

  /** A selection's nesting map only links a parent id to larger child ids of the schema. */
  lemma {:induction false} SelectedColumnsAcyclic(f: FileMetadata, paths: seq<string>)
    requires WellFormed(f) && NestingMapFor(f, paths).Success?
    ensures ChildIdsIncrease(NestingMapFor(f, paths).value, |f.types|)
  {
    var m := NestingMapFor(f, paths).value;
    forall p, i | p in m && 0 <= i < |m[p]|
      ensures p < m[p][i] < |f.types|
    {
      SelectedColumnsSound(f, paths, p, m[p][i]);
    }
  }

  lemma {:induction false} RootChildrenEdges(f: FileMetadata, n: nat)
    requires WellFormed(f) && n <= |f.types[0].subtypes|
    ensures var roots := f.types[0].subtypes[..n];
            RequestedEdges(f, roots) == ForestEdges(f.types, 0, roots)
    decreases n
  {
    var roots := f.types[0].subtypes;
    if n > 0 {
      var r := roots[n - 1];
      RootChildrenEdges(f, n - 1);
      assert roots[..n][..n - 1] == roots[..n - 1];
      assert f.parents[r] == Some(0);
      assert ParentEdges(f, 0) == [];
      assert ParentEdges(f, r) == [(0, r)];
      assert roots[..n] == roots[..n - 1] + [r];
      ForestEdgesSnoc(f.types, 0, roots[..n - 1], r);
    }
  }

  /**
   * Selecting with no paths records exactly the edges of the whole schema
   * below the root, in pre-order: no column is pruned.
   */
  lemma {:induction false} SelectAllIsWholeSchema(f: FileMetadata)
    requires WellFormed(f)
    ensures NestingMapFor(f, []) == Success(InsertEdges(map[], SubtreeEdges(f.types, 0)))
  {
    RootChildrenEdges(f, |f.types[0].subtypes|);
    assert f.types[0].subtypes[..|f.types[0].subtypes|] == f.types[0].subtypes;
  }

  /** Requesting a path that was already requested leaves the nesting map, or the error, unchanged. */
  lemma {:induction false} RepeatedPathIdempotent(f: FileMetadata, paths: seq<string>, i: nat)
    requires WellFormed(f) && i < |paths|
    ensures NestingMapFor(f, paths + [paths[i]]) == NestingMapFor(f, paths)
  {
    var paths' := paths + [paths[i]];
    assert forall k :: 0 <= k < |paths| ==> paths'[k] == paths[k];
    match ResolvePaths(f, paths)
    case Failure(e) =>
      var j :| 0 <= j < |paths| && FindColumn(f, paths[j]).None?
               && e == UnknownColumnName(paths[j])
               && forall k :: 0 <= k < j ==> FindColumn(f, paths[k]).Some?;
      ResolveFailsAt(f, paths', j);
    case Success(ids) =>
      var id := ids[i];
      ResolveSucceeds(f, paths', ids + [id]);
      forall k | 0 <= k < |ids|
        ensures ids[k] < |f.types|
      {
        assert FindColumn(f, paths[k]) == Some(ids[k]);
      }
      var m := InsertEdges(map[], RequestedEdges(f, ids));
      assert (ids + [id])[..|ids|] == ids;
      InsertEdgesAppend(map[], RequestedEdges(f, ids), ColumnEdges(f, id));
      forall e | e in ColumnEdges(f, id)
        ensures e.0 in m && e.1 in m[e.0]
      {
        RequestedEdgesMember(f, ids, e);
        InsertEdgesContents(map[], RequestedEdges(f, ids), e.0, e.1);
      }
      InsertPresentEdges(m, ColumnEdges(f, id));
  }
}
