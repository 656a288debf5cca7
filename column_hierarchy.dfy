/**
 * The column hierarchy: the selected columns sorted by nesting level. A
 * depth-first walk from the children of the root appends (id, number of
 * selected children) to the level of each visited column; top-level columns
 * are level 0.
 *
 * The specification is the pre-order list of visits (entry plus depth); the
 * levels are that list split by depth, each level keeping visit order.
 */
module Hierarchy {
  import opened ColumnSelection

  /** One level entry: a column id and the number of its selected children. */
  datatype LevelEntry = LevelEntry(id: nat, numChildren: nat)

  /** A column visited by the walk, with the level it is appended to. */
  datatype Visit = Visit(entry: LevelEntry, depth: nat)

  /** The visit of `id` at `depth`, followed by the visits of its selected children, in map order. */
  ghost function Preorder(m: NestingMap, n: nat, id: nat, depth: nat): seq<Visit>
    requires ChildIdsIncrease(m, n) && id < n
    decreases n - id, 1
  {
    [Visit(LevelEntry(id, |Children(m, id)|), depth)] + PreorderForest(m, n, id, Children(m, id), depth)
  }

  /** The walks below each of `ids` (the children of `p`), one after the other, one level deeper than `p`. */
  ghost function PreorderForest(m: NestingMap, n: nat, p: nat, ids: seq<nat>, depth: nat): seq<Visit>
    requires ChildIdsIncrease(m, n)
    requires forall i :: 0 <= i < |ids| ==> p < ids[i] < n
    decreases n - p, 0, |ids|
  {
    if ids == [] then [] else Preorder(m, n, ids[0], depth + 1) + PreorderForest(m, n, p, ids[1..], depth)
  }

  /** The walk the constructor performs: every child of the root at level 0, each with its subtree. */
  ghost function RootWalk(m: NestingMap, n: nat): seq<Visit>
    requires ChildIdsIncrease(m, n)
  {
    RootForest(m, n, Children(m, 0))
  }

  /** The walks below each top-level id of `roots`, each starting at level 0. */
  ghost function RootForest(m: NestingMap, n: nat, roots: seq<nat>): seq<Visit>
    requires ChildIdsIncrease(m, n)
    requires forall i :: 0 <= i < |roots| ==> roots[i] < n
    decreases |roots|
  {
    if roots == [] then [] else RootForest(m, n, roots[..|roots| - 1]) + Preorder(m, n, roots[|roots| - 1], 0)
  }

  /** The entries visited at `depth`, in visit order. */
  function AtDepth(vs: seq<Visit>, depth: nat): seq<LevelEntry>
  {
    if vs == [] then []
    else (if vs[0].depth == depth then [vs[0].entry] else []) + AtDepth(vs[1..], depth)
  }

  /** One more than the deepest level visited; 0 when nothing is visited. */
  function Height(vs: seq<Visit>): nat
  {
    if vs == [] then 0
    else var h := Height(vs[1..]); if vs[0].depth + 1 > h then vs[0].depth + 1 else h
  }

  function EmptyLevels(k: nat): seq<seq<LevelEntry>>
    ensures |EmptyLevels(k)| == k && forall i :: 0 <= i < k ==> EmptyLevels(k)[i] == []
  {
    if k == 0 then [] else EmptyLevels(k - 1) + [[]]
  }

  /**
   * `levels[depth].push_back(entry)`, adding the level first when the walk
   * reaches it for the first time (the walk never skips a level, so the
   * padding is never more than one level).
   */
  function Place(levels: seq<seq<LevelEntry>>, v: Visit): seq<seq<LevelEntry>>
  {
    if v.depth < |levels| then levels[v.depth := levels[v.depth] + [v.entry]]
    else levels + EmptyLevels(v.depth - |levels|) + [[v.entry]]
  }

  function PlaceAll(levels: seq<seq<LevelEntry>>, vs: seq<Visit>): seq<seq<LevelEntry>>
    decreases |vs|
  {
    if vs == [] then levels else PlaceAll(Place(levels, vs[0]), vs[1..])
  }

  lemma {:induction false} PlaceAllAppend(levels: seq<seq<LevelEntry>>, a: seq<Visit>, b: seq<Visit>)
    ensures PlaceAll(levels, a + b) == PlaceAll(PlaceAll(levels, a), b)
    decreases |a|
  {
    if a == [] {
      assert a + b == b;
    } else {
      assert (a + b)[0] == a[0] && (a + b)[1..] == a[1..] + b;
      PlaceAllAppend(Place(levels, a[0]), a[1..], b);
    }
  }

  /**
   * Placing visits one by one into `levels` appends to each level exactly
   * the entries visited at that depth, in visit order, and grows the level
   * list to the deepest level visited.
   */
  lemma {:induction false} PlaceAllSlices(levels: seq<seq<LevelEntry>>, vs: seq<Visit>, d: nat)
    ensures var r := PlaceAll(levels, vs);
            && |r| == (if |levels| < Height(vs) then Height(vs) else |levels|)
            && (d < |r| ==> r[d] == (if d < |levels| then levels[d] else []) + AtDepth(vs, d))
    decreases |vs|
  {
    if vs != [] {
      var l1 := Place(levels, vs[0]);
      PlaceSlice(levels, vs[0], d);
      PlaceAllSlices(l1, vs[1..], d);
    }
  }

  /** Placing one visit grows the levels to its depth and appends its entry at that depth only. */
  lemma PlaceSlice(levels: seq<seq<LevelEntry>>, v: Visit, d: nat)
    ensures var r := Place(levels, v);
            && |r| == (if |levels| < v.depth + 1 then v.depth + 1 else |levels|)
            && (d < |r| ==> r[d] == (if d < |levels| then levels[d] else []) + (if v.depth == d then [v.entry] else []))
  {
    if |levels| <= v.depth {
      var gap := EmptyLevels(v.depth - |levels|);
      var r := levels + gap + [[v.entry]];
      if d < |levels| {
        assert r[d] == levels[d];
      } else if d < v.depth {
        assert r[d] == gap[d - |levels|];
      }
    }
  }

  /** Every visit of a walk from `id` at `depth` lies at `depth` or deeper, the first one exactly there. */
  lemma {:induction false} PreorderDepths(m: NestingMap, n: nat, id: nat, depth: nat)
    requires ChildIdsIncrease(m, n) && id < n
    ensures forall v :: v in Preorder(m, n, id, depth) ==> v.depth >= depth
    decreases n - id, 1
  {
    ForestDepths(m, n, id, Children(m, id), depth);
  }

  lemma {:induction false} ForestDepths(m: NestingMap, n: nat, p: nat, ids: seq<nat>, depth: nat)
    requires ChildIdsIncrease(m, n)
    requires forall i :: 0 <= i < |ids| ==> p < ids[i] < n
    ensures forall v :: v in PreorderForest(m, n, p, ids, depth) ==> v.depth > depth
    decreases n - p, 0, |ids|
  {
    if ids != [] {
      PreorderDepths(m, n, ids[0], depth + 1);
      ForestDepths(m, n, p, ids[1..], depth);
    }
  }

  lemma {:induction false} AtDepthConcat(a: seq<Visit>, b: seq<Visit>, d: nat)
    ensures AtDepth(a + b, d) == AtDepth(a, d) + AtDepth(b, d)
    decreases |a|
  {
    if a == [] {
      assert a + b == b;
    } else {
      var head := if a[0].depth == d then [a[0].entry] else [];
      assert (a + b)[0] == a[0] && (a + b)[1..] == a[1..] + b;
      assert AtDepth(a + b, d) == head + AtDepth(a[1..] + b, d);
      AtDepthConcat(a[1..], b, d);
      assert AtDepth(a, d) == head + AtDepth(a[1..], d);
    }
  }

  lemma {:induction false} AtDepthAbove(vs: seq<Visit>, d: nat)
    requires forall v :: v in vs ==> v.depth > d
    ensures AtDepth(vs, d) == []
    decreases |vs|
  {
    if vs != [] {
      assert vs[0] in vs;
      assert forall v :: v in vs[1..] ==> v in vs;
      AtDepthAbove(vs[1..], d);
    }
  }

  /** Every entry records the number of selected children its id has in the nesting map. */
  lemma {:induction false} PreorderCounts(m: NestingMap, n: nat, id: nat, depth: nat, v: Visit)
    requires ChildIdsIncrease(m, n) && id < n
    requires v in Preorder(m, n, id, depth)
    ensures v.entry.numChildren == |Children(m, v.entry.id)| && v.entry.id < n
    decreases n - id, 1
  {
    var head := Visit(LevelEntry(id, |Children(m, id)|), depth);
    if v != head {
      ForestCounts(m, n, id, Children(m, id), depth, v);
    }
  }

  lemma {:induction false} ForestCounts(m: NestingMap, n: nat, p: nat, ids: seq<nat>, depth: nat, v: Visit)
    requires ChildIdsIncrease(m, n)
    requires forall i :: 0 <= i < |ids| ==> p < ids[i] < n
    requires v in PreorderForest(m, n, p, ids, depth)
    ensures v.entry.numChildren == |Children(m, v.entry.id)| && v.entry.id < n
    decreases n - p, 0, |ids|
  {
    if v in Preorder(m, n, ids[0], depth + 1) {
      PreorderCounts(m, n, ids[0], depth + 1, v);
    } else {
      ForestCounts(m, n, p, ids[1..], depth, v);
    }
  }

  /** The walk from `ids[k]` contributes that child's own visit one level below `p`'s. */
  lemma {:induction false} ForestVisitsEachChild(m: NestingMap, n: nat, p: nat, ids: seq<nat>, depth: nat, k: nat)
    requires ChildIdsIncrease(m, n)
    requires forall i :: 0 <= i < |ids| ==> p < ids[i] < n
    requires k < |ids|
    ensures Visit(LevelEntry(ids[k], |Children(m, ids[k])|), depth + 1) in PreorderForest(m, n, p, ids, depth)
    decreases |ids|
  {
    if k > 0 {
      ForestVisitsEachChild(m, n, p, ids[1..], depth, k - 1);
    }
  }

  /**
   * Whenever the walk visits a column at some depth, it also visits each of
   * that column's selected children one level deeper.
   */
  lemma {:induction false} PreorderVisitsChildren(m: NestingMap, n: nat, id: nat, depth: nat, v: Visit, k: nat)
    requires ChildIdsIncrease(m, n) && id < n
    requires v in Preorder(m, n, id, depth) && k < |Children(m, v.entry.id)|
    ensures var c := Children(m, v.entry.id)[k];
            Visit(LevelEntry(c, |Children(m, c)|), v.depth + 1) in Preorder(m, n, id, depth)
    decreases n - id, 1
  {
    var head := Visit(LevelEntry(id, |Children(m, id)|), depth);
    if v == head {
      ForestVisitsEachChild(m, n, id, Children(m, id), depth, k);
    } else {
      ForestVisitsChildren(m, n, id, Children(m, id), depth, v, k);
    }
  }

  lemma {:induction false} ForestVisitsChildren(m: NestingMap, n: nat, p: nat, ids: seq<nat>, depth: nat, v: Visit, k: nat)
    requires ChildIdsIncrease(m, n)
    requires forall i :: 0 <= i < |ids| ==> p < ids[i] < n
    requires v in PreorderForest(m, n, p, ids, depth) && k < |Children(m, v.entry.id)|
    ensures var c := Children(m, v.entry.id)[k];
            Visit(LevelEntry(c, |Children(m, c)|), v.depth + 1) in PreorderForest(m, n, p, ids, depth)
    decreases n - p, 0, |ids|
  {
    if v in Preorder(m, n, ids[0], depth + 1) {
      PreorderVisitsChildren(m, n, ids[0], depth + 1, v, k);
    } else {
      ForestVisitsChildren(m, n, p, ids[1..], depth, v, k);
    }
  }

  /**
   * The selected columns sorted by nesting level. `children` is the nesting
   * map it was built from; `levels[d]` lists the columns at depth `d`.
   */
  class ColumnHierarchy {
    var children: NestingMap
    var levels: seq<seq<LevelEntry>>
    ghost var bound: nat

    ghost predicate Valid()
      reads this
    {
      ChildIdsIncrease(children, bound)
    }

    /** A constructed hierarchy: the levels are the walk of the nesting map, split by depth. */
    ghost predicate Built()
      reads this
    {
      Valid() && levels == PlaceAll([], RootWalk(children, bound))
    }

    /**
     * The constructor: levelize each child of the root at level 0, in the
     * order the nesting map lists them.
     */
    constructor (childMap: NestingMap, ghost n: nat)
      requires ChildIdsIncrease(childMap, n)
      ensures Built() && children == childMap && bound == n
      ensures levels == PlaceAll([], RootWalk(childMap, n))
    {
      children := childMap;
      levels := [];
      bound := n;
      new;
      var roots := Children(children, 0);
      for i := 0 to |roots|
        invariant Valid() && children == childMap && bound == n
        invariant levels == PlaceAll([], RootForest(children, bound, roots[..i]))
      {
        Levelize(roots[i], 0);
        RootStep(children, bound, roots, i);
      }
      assert roots[..|roots|] == roots;
    }

    /**
     * levelize: append the entry of `id` to `levels[level]`, then levelize
     * each child one level down. In the source this is a local of the
     * constructor; it is called only while the levels are being built, and a
     * call on a built hierarchy no longer keeps `Built()`.
     */
    method Levelize(id: nat, level: nat)
      requires Valid() && id < bound && level <= |levels|
      modifies this`levels
      ensures levels == PlaceAll(old(levels), Preorder(children, bound, id, level))
      decreases bound - id
    {
      var entry := LevelEntry(id, |Children(children, id)|);
      ghost var placed := Place(levels, Visit(entry, level));
      PushAtLevel(levels, level, entry);
      if |levels| == level {
        levels := levels + [[]];
      }
      levels := levels[level := levels[level] + [entry]];
      var kids := Children(children, id);
      assert levels == placed && kids[..0] == [];
      for i := 0 to |kids|
        invariant levels == PlaceAll(placed, PreorderForest(children, bound, id, kids[..i], level))
        invariant level < |levels|
      {
        Levelize(kids[i], level + 1);
        ForestStep(children, bound, id, kids, i, level, placed);
      }
      PreorderUnfold(children, bound, id, level, old(levels));
    }
  }

  lemma PushAtLevel(levels: seq<seq<LevelEntry>>, level: nat, entry: LevelEntry)
    requires level <= |levels|
    ensures var grown := if |levels| == level then levels + [[]] else levels;
            grown[level := grown[level] + [entry]] == Place(levels, Visit(entry, level))
  {
    if |levels| == level {
      var grown := levels + [[]];
      assert EmptyLevels(0) == [];
      assert grown[level] == [];
      var r := grown[level := grown[level] + [entry]];
      assert |r| == |levels| + 1;
      assert forall j :: 0 <= j < |r| ==> r[j] == (levels + [[entry]])[j];
      assert r == levels + [[entry]];
      assert levels + EmptyLevels(0) + [[entry]] == levels + [[entry]];
    }
  }

  /** One step of the constructor's loop: the walk below `roots[i]` extends the walk of the roots before it. */
  lemma RootStep(m: NestingMap, n: nat, roots: seq<nat>, i: nat)
    requires ChildIdsIncrease(m, n) && roots == Children(m, 0) && i < |roots|
    ensures roots[i] < n
    ensures PlaceAll(PlaceAll([], RootForest(m, n, roots[..i])), Preorder(m, n, roots[i], 0))
            == PlaceAll([], RootForest(m, n, roots[..i + 1]))
  {
    assert roots[..i + 1][..i] == roots[..i];
    PlaceAllAppend([], RootForest(m, n, roots[..i]), Preorder(m, n, roots[i], 0));
  }

  /** One step of the child loop of levelize: the walk below `kids[i]` extends the forest walk by one child. */
  lemma {:induction false} ForestStep(m: NestingMap, n: nat, id: nat, kids: seq<nat>, i: nat, level: nat,
                                      placed: seq<seq<LevelEntry>>)
    requires ChildIdsIncrease(m, n) && id < n && kids == Children(m, id) && i < |kids|
    requires level < |placed|
    ensures kids[i] < n
    ensures var before := PreorderForest(m, n, id, kids[..i], level);
            var after := PreorderForest(m, n, id, kids[..i + 1], level);
            && PlaceAll(PlaceAll(placed, before), Preorder(m, n, kids[i], level + 1)) == PlaceAll(placed, after)
            && level < |PlaceAll(placed, after)|
  {
    assert kids[..i + 1] == kids[..i] + [kids[i]];
    ForestSnoc(m, n, id, kids[..i], kids[i], level);
    var before := PreorderForest(m, n, id, kids[..i], level);
    PlaceAllAppend(placed, before, Preorder(m, n, kids[i], level + 1));
    PlaceAllSlices(placed, PreorderForest(m, n, id, kids[..i + 1], level), level);
  }

  /** The walk from `id` is its own visit followed by the walks below its children. */
  lemma PreorderUnfold(m: NestingMap, n: nat, id: nat, level: nat, levels: seq<seq<LevelEntry>>)
    requires ChildIdsIncrease(m, n) && id < n
    ensures var kids := Children(m, id);
            PlaceAll(levels, Preorder(m, n, id, level))
            == PlaceAll(Place(levels, Visit(LevelEntry(id, |kids|), level)), PreorderForest(m, n, id, kids[..|kids|], level))
  {
    var kids := Children(m, id);
    assert kids[..|kids|] == kids;
    var vs := Preorder(m, n, id, level);
    assert vs[0] == Visit(LevelEntry(id, |kids|), level);
    assert vs[1..] == PreorderForest(m, n, id, kids, level);
  }

  lemma {:induction false} ForestSnoc(m: NestingMap, n: nat, p: nat, ids: seq<nat>, c: nat, depth: nat)
    requires ChildIdsIncrease(m, n)
    requires forall i :: 0 <= i < |ids| ==> p < ids[i] < n
    requires p < c < n
    ensures PreorderForest(m, n, p, ids + [c], depth) == PreorderForest(m, n, p, ids, depth) + Preorder(m, n, c, depth + 1)
    decreases |ids|
  {
    var ids' := ids + [c];
    if ids == [] {
      assert ids'[1..] == [];
    } else {
      assert ids'[0] == ids[0] && ids'[1..] == ids[1..] + [c];
      ForestSnoc(m, n, p, ids[1..], c, depth);
    }
  }

  // ---------------------------------------------------------------------------
  // What the levels of a built hierarchy contain.
  // ---------------------------------------------------------------------------

  /** An entry is at depth `d` of a visit list exactly when it was visited at depth `d`. */
  lemma {:induction false} AtDepthMember(vs: seq<Visit>, d: nat, e: LevelEntry)
    ensures e in AtDepth(vs, d) <==> Visit(e, d) in vs
    decreases |vs|
  {
    if vs != [] {
      AtDepthMember(vs[1..], d, e);
      assert vs == [vs[0]] + vs[1..];
    }
  }

  /** The walks from the top-level `roots` in order, each starting at level 0, visit exactly those roots at level 0. */
  lemma {:induction false} RootForestTopLevel(m: NestingMap, n: nat, roots: seq<nat>)
    requires ChildIdsIncrease(m, n)
    requires forall i :: 0 <= i < |roots| ==> roots[i] < n
    ensures var top := AtDepth(RootForest(m, n, roots), 0);
            && |top| == |roots|
            && forall i :: 0 <= i < |roots| ==> top[i] == LevelEntry(roots[i], |Children(m, roots[i])|)
    decreases |roots|
  {
    if roots != [] {
      var last := roots[|roots| - 1];
      var init := roots[..|roots| - 1];
      RootForestTopLevel(m, n, init);
      AtDepthConcat(RootForest(m, n, init), Preorder(m, n, last, 0), 0);
      PreorderTopLevel(m, n, last);
      var top := AtDepth(RootForest(m, n, roots), 0);
      var before := AtDepth(RootForest(m, n, init), 0);
      forall i | 0 <= i < |roots|
        ensures top[i] == LevelEntry(roots[i], |Children(m, roots[i])|)
      {
        if i < |init| {
          assert top[i] == before[i] && init[i] == roots[i];
        }
      }
    }
  }

  /** A walk from `id` starting at level 0 visits only `id` itself at level 0. */
  lemma PreorderTopLevel(m: NestingMap, n: nat, id: nat)
    requires ChildIdsIncrease(m, n) && id < n
    ensures AtDepth(Preorder(m, n, id, 0), 0) == [LevelEntry(id, |Children(m, id)|)]
  {
    var walk := Preorder(m, n, id, 0);
    var rest := PreorderForest(m, n, id, Children(m, id), 0);
    ForestDepths(m, n, id, Children(m, id), 0);
    AtDepthAbove(rest, 0);
    assert walk[0] == Visit(LevelEntry(id, |Children(m, id)|), 0) && walk[1..] == rest;
  }

  /** Every visit of the walks from `roots` records the true child count of a schema id below `n`. */
  lemma {:induction false} RootForestCounts(m: NestingMap, n: nat, roots: seq<nat>, v: Visit)
    requires ChildIdsIncrease(m, n)
    requires forall i :: 0 <= i < |roots| ==> roots[i] < n
    requires v in RootForest(m, n, roots)
    ensures v.entry.numChildren == |Children(m, v.entry.id)| && v.entry.id < n
    decreases |roots|
  {
    var last := roots[|roots| - 1];
    if v in Preorder(m, n, last, 0) {
      PreorderCounts(m, n, last, 0, v);
    } else {
      RootForestCounts(m, n, roots[..|roots| - 1], v);
    }
  }

  /** Every column visited by the walks from `roots` has each of its selected children visited one level deeper. */
  lemma {:induction false} RootForestVisitsChildren(m: NestingMap, n: nat, roots: seq<nat>, v: Visit, k: nat)
    requires ChildIdsIncrease(m, n)
    requires forall i :: 0 <= i < |roots| ==> roots[i] < n
    requires v in RootForest(m, n, roots) && k < |Children(m, v.entry.id)|
    ensures var c := Children(m, v.entry.id)[k];
            Visit(LevelEntry(c, |Children(m, c)|), v.depth + 1) in RootForest(m, n, roots)
    decreases |roots|
  {
    var last := roots[|roots| - 1];
    if v in Preorder(m, n, last, 0) {
      PreorderVisitsChildren(m, n, last, 0, v, k);
    } else {
      RootForestVisitsChildren(m, n, roots[..|roots| - 1], v, k);
    }
  }

  /**
   * Level 0 of the hierarchy built from `m` lists the selected top-level
   * columns, in map order, each with its number of selected children.
   */
  lemma TopLevelIsRootChildren(m: NestingMap, n: nat)
    requires ChildIdsIncrease(m, n)
    ensures var levels := PlaceAll([], RootWalk(m, n));
            var roots := Children(m, 0);
            && (roots == [] <==> levels == [])
            && (roots != [] ==> |levels[0]| == |roots|
                                && forall i :: 0 <= i < |roots| ==> levels[0][i] == LevelEntry(roots[i], |Children(m, roots[i])|))
  {
    var roots := Children(m, 0);
    var walk := RootWalk(m, n);
    RootForestTopLevel(m, n, roots);
    PlaceAllSlices([], walk, 0);
    if roots != [] {
      assert AtDepth(walk, 0) != [];
      AtDepthMember(walk, 0, AtDepth(walk, 0)[0]);
      assert Height(walk) > 0 by { HeightBounds(walk, 0); }
    } else {
      assert walk == [];
    }
  }

  /** The height of a visit list exceeds the depth of each of its visits, and is 0 only for no visits. */
  lemma {:induction false} HeightBounds(vs: seq<Visit>, i: nat)
    requires i < |vs|
    ensures vs[i].depth < Height(vs)
    decreases |vs|
  {
    if i > 0 {
      HeightBounds(vs[1..], i - 1);
    }
  }

  /**
   * The shape of a built hierarchy: each entry at level `d` records the
   * number of selected children of its column, and each of those children
   * is an entry at level `d + 1`.
   */
  lemma LevelEntriesAndChildren(m: NestingMap, n: nat, d: nat, e: LevelEntry, k: nat)
    requires ChildIdsIncrease(m, n)
    requires var levels := PlaceAll([], RootWalk(m, n)); d < |levels| && e in levels[d]
    ensures e.numChildren == |Children(m, e.id)| && e.id < n
    ensures var levels := PlaceAll([], RootWalk(m, n));
            var c := if k < |Children(m, e.id)| then Children(m, e.id)[k] else 0;
            k < e.numChildren ==> d + 1 < |levels| && LevelEntry(c, |Children(m, c)|) in levels[d + 1]
  {
    var walk := RootWalk(m, n);
    var roots := Children(m, 0);
    PlaceAllSlices([], walk, d);
    AtDepthMember(walk, d, e);
    RootForestCounts(m, n, roots, Visit(e, d));
    if k < e.numChildren {
      var c := Children(m, e.id)[k];
      var ce := LevelEntry(c, |Children(m, c)|);
      RootForestVisitsChildren(m, n, roots, Visit(e, d), k);
      var j :| 0 <= j < |walk| && walk[j] == Visit(ce, d + 1);
      HeightBounds(walk, j);
      PlaceAllSlices([], walk, d + 1);
      AtDepthMember(walk, d + 1, ce);
    }
  }
}
