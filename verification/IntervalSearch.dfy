/** Searching the interval tree for overlaps, and growing an extent as far as the tree allows. */
module IntervalSearch {
  import opened Lists
  import opened Words
  import opened Shapes
  import opened MaxHigh
  import opened Balance
  import opened IntervalTrees
  import opened Options

  // Overlap with the subtree at q cannot be excluded from q's record alone.
  predicate MayOverlap(m: Mem, q: Ptr, ext: Extent)
    requires q in m
  {
    ext.start <= m[q].maxHigh && ext.end >= m[q].ext.start
  }

  // The recursive search that the comment above interval_search gives.
  ghost function Hits(m: Mem, t: Shape, ext: Extent): seq<Ptr> {
    if t.E? || t.p !in m then []
    else if ext.end < t.ext.start then Hits(m, t.l, ext)
    else if MayOverlap(m, t.p, ext) then
      (if Overlap(ext, t.ext) then [t.p] else []) + Hits(m, t.l, ext) + Hits(m, t.r, ext)
    else []
  }

  // What the recursive search still has to do once it is done with the subtree at the hole of c.
  ghost function Rest(m: Mem, c: Path, ext: Extent): seq<Ptr> {
    if c.Top? || c.p !in m then []
    else if c.side.L? && MayOverlap(m, c.p, ext) then Hits(m, c.sib, ext) + Rest(m, c.up, ext)
    else Rest(m, c.up, ext)
  }

  // The search never goes below a node that it can exclude, except to the left of one that starts too late.
  ghost predicate Reached(m: Mem, c: Path, ext: Extent) {
    c.Top? || (c.p in m && (MayOverlap(m, c.p, ext) || (c.side.L? && ext.end < c.ext.start)) && Reached(m, c.up, ext))
  }

  // ---------- The recursive search finds each overlapping interval exactly once ----------

  ghost function OverlapBag(items: seq<Item>, ext: Extent): multiset<Ptr> {
    if items == [] then multiset{}
    else OverlapBag(items[..|items| - 1], ext) +
         (if Overlap(ext, items[|items| - 1].ext) then multiset{items[|items| - 1].p} else multiset{})
  }

  lemma {:induction false} OverlapBagConcat(a: seq<Item>, b: seq<Item>, ext: Extent)
    ensures OverlapBag(a + b, ext) == OverlapBag(a, ext) + OverlapBag(b, ext)
  {
    if b == [] {
      assert a + b == a;
    } else {
      assert (a + b)[..|a + b| - 1] == a + b[..|b| - 1];
      OverlapBagConcat(a, b[..|b| - 1], ext);
    }
  }

  lemma {:induction false} OverlapBagNone(items: seq<Item>, ext: Extent)
    requires forall i :: 0 <= i < |items| ==> !Overlap(ext, items[i].ext)
    ensures OverlapBag(items, ext) == multiset{}
  {
    if items != [] {
      OverlapBagNone(items[..|items| - 1], ext);
    }
  }

  lemma {:induction false} OverlapBagMember(items: seq<Item>, ext: Extent, q: Ptr)
    ensures q in OverlapBag(items, ext) <==>
      exists i :: 0 <= i < |items| && items[i].p == q && Overlap(ext, items[i].ext)
  {
    if items != [] {
      var n := |items| - 1;
      OverlapBagMember(items[..n], ext, q);
      assert q in OverlapBag(items, ext) <==>
        q in OverlapBag(items[..n], ext) || (items[n].p == q && Overlap(ext, items[n].ext));
    }
  }

  lemma SortedParts(t: Shape)
    requires t.N? && Sorted(Items(t))
    ensures Sorted(Items(t.l)) && Sorted(Items(t.r))
    ensures forall i :: 0 <= i < |Items(t.r)| ==> Less(t.ext, Items(t.r)[i].ext)
  {
    var k := |Items(t.l)|;
    assert Items(t)[k] == Item(t.p, t.ext);
    assert forall i :: 0 <= i < k ==> Items(t)[i] == Items(t.l)[i];
    assert forall i :: 0 <= i < |Items(t.r)| ==> Items(t)[k + 1 + i] == Items(t.r)[i];
  }

  lemma OverlapBagParts(t: Shape, ext: Extent)
    requires t.N?
    ensures OverlapBag(Items(t), ext) ==
            (if Overlap(ext, t.ext) then multiset{t.p} else multiset{}) + OverlapBag(Items(t.l), ext)
              + OverlapBag(Items(t.r), ext)
  {
    var mid := [Item(t.p, t.ext)];
    OverlapBagConcat(Items(t.l) + mid, Items(t.r), ext);
    OverlapBagConcat(Items(t.l), mid, ext);
    assert mid[..0] == [];
  }

  lemma ExcludedByMaxHigh(m: Mem, t: Shape, parent: Ptr, ext: Extent)
    requires Rep(m, t, parent) && MaxOk(m) && t.N? && m[t.p].maxHigh < ext.start
    ensures OverlapBag(Items(t), ext) == multiset{}
  {
    forall i | 0 <= i < |Items(t)| ensures !Overlap(ext, Items(t)[i].ext) {
      assert Items(t)[i] in Items(t);
      MaxBounds(m, t, parent, Items(t)[i]);
    }
    OverlapBagNone(Items(t), ext);
  }

  lemma ExcludedByStart(m: Mem, t: Shape, ext: Extent)
    requires t.N? && Sorted(Items(t)) && ext.end < t.ext.start
    ensures OverlapBag(Items(t), ext) == OverlapBag(Items(t.l), ext)
  {
    SortedParts(t);
    OverlapBagParts(t, ext);
    OverlapBagNone(Items(t.r), ext);
  }

  lemma {:induction false} HitsAreOverlaps(m: Mem, t: Shape, parent: Ptr, ext: Extent)
    requires Rep(m, t, parent) && MaxOk(m) && Sorted(Items(t))
    ensures multiset(Hits(m, t, ext)) == OverlapBag(Items(t), ext)
  {
    hide MaxOk, Sorted;
    if t.N? {
      hide OverlapBag, Items;
      SortedParts(t);
      HitsAreOverlaps(m, t.l, t.p, ext);
      HitsAreOverlaps(m, t.r, t.p, ext);
      if ext.end < t.ext.start {
        ExcludedByStart(m, t, ext);
      } else if MayOverlap(m, t.p, ext) {
        OverlapBagParts(t, ext);
      } else {
        ExcludedByMaxHigh(m, t, parent, ext);
      }
    }
  }

  // ---------- Nothing is left to do once everything that follows starts too late ----------

  ghost predicate AllLate(items: seq<Item>, ext: Extent) {
    forall i :: 0 <= i < |items| ==> ext.end < items[i].ext.start
  }

  lemma AllLateConcat(a: seq<Item>, b: seq<Item>, ext: Extent)
    requires AllLate(a + b, ext)
    ensures AllLate(a, ext) && AllLate(b, ext)
  {
    assert forall i :: 0 <= i < |a| ==> (a + b)[i] == a[i];
    assert forall i :: 0 <= i < |b| ==> (a + b)[|a| + i] == b[i];
  }

  lemma {:induction false} LateHits(m: Mem, t: Shape, ext: Extent)
    requires AllLate(Items(t), ext)
    ensures Hits(m, t, ext) == []
  {
    if t.N? {
      AllLateConcat(Items(t.l) + [Item(t.p, t.ext)], Items(t.r), ext);
      AllLateConcat(Items(t.l), [Item(t.p, t.ext)], ext);
      assert [Item(t.p, t.ext)][0].ext.start > ext.end;
      LateHits(m, t.l, ext);
    }
  }

  lemma {:induction false} LateRest(m: Mem, c: Path, ext: Extent)
    requires AllLate(After(c), ext)
    ensures Rest(m, c, ext) == []
  {
    hide AllLate;
    if c.Step? {
      if c.side.L? {
        AllLateConcat([Item(c.p, c.ext)] + Items(c.sib), After(c.up), ext);
        AllLateConcat([Item(c.p, c.ext)], Items(c.sib), ext);
        if c.p in m && MayOverlap(m, c.p, ext) {
          LateHits(m, c.sib, ext);
        }
      }
      LateRest(m, c.up, ext);
    }
  }

  // A node that starts after the query, and whatever follows it in order, is out of the query's reach.
  lemma LateFrom(m: Mem, root: Ptr, c: Path, t: Shape, items: seq<Item>, ext: Extent)
    requires Whole(m, root, c, t, items) && Sorted(items) && c.Step? && c.side.L? && ext.end < c.ext.start
    ensures AllLate(After(c), ext)
  {
    var k := |Before(c)| + |Items(t)|;
    assert After(c)[0] == Item(c.p, c.ext);
    assert forall i :: 0 <= i < |After(c)| ==> items[k + i] == After(c)[i];
  }

  // ---------- The iterative search does what is left of the recursive one ----------

  // Of `all`, `visited` is done; the subtree t at the hole of c is next, and then what Rest gives.
  ghost predicate Progress(m: Mem, c: Path, t: Shape, ext: Extent, visited: seq<Ptr>, all: seq<Ptr>) {
    Reached(m, c, ext) && visited + Hits(m, t, ext) + Rest(m, c, ext) == all
  }

  // How many nodes may still be entered.
  ghost function Todo(c: Path): nat {
    if c.Top? then 0 else (if c.side.L? then Size(c.sib) else 0) + Todo(c.up)
  }

  ghost predicate NoStop(visited: seq<Ptr>, stops: Ptr -> bool) {
    forall q :: q in visited ==> !stops(q)
  }

  lemma FourInARow<T>(a: seq<T>, b: seq<T>, c: seq<T>, d: seq<T>, e: seq<T>)
    ensures a + (b + c + d) + e == (a + b) + c + (d + e)
  {
  }

  lemma EnterKid(m: Mem, c: Path, t: Shape, ext: Extent, visited: seq<Ptr>, all: seq<Ptr>, s: Side)
    requires Progress(m, c, t, ext, visited, all) && t.N? && t.p in m && m[t.p].ext == t.ext
    requires ext.end < t.ext.start ==> s == L
    requires ext.end < t.ext.start || (MayOverlap(m, t.p, ext) && (s == R ==> t.l.E?))
    ensures var v := if ext.end >= t.ext.start && Overlap(ext, t.ext) then visited + [t.p] else visited;
      Progress(m, Down(s, c, t), t.Kid(s), ext, v, all) && v <= all
    ensures Size(t.Kid(s)) + Todo(Down(s, c, t)) < Size(t) + Todo(c)
  {
    var d := Down(s, c, t);
    assert Reached(m, d, ext);
    if ext.end < t.ext.start {
      assert Rest(m, d, ext) == Rest(m, c, ext);
    } else {
      var own := if Overlap(ext, t.ext) then [t.p] else [];
      FourInARow(visited, own, Hits(m, t.l, ext), Hits(m, t.r, ext), Rest(m, c, ext));
    }
  }

  // No subtree of t is left to search: on with what follows it.
  lemma LeaveSubtree(m: Mem, c: Path, t: Shape, ext: Extent, visited: seq<Ptr>, all: seq<Ptr>)
    requires Progress(m, c, t, ext, visited, all) && t.N? && t.p in m && m[t.p].ext == t.ext
    requires ext.end < t.ext.start ==> t.l.E?
    requires ext.end >= t.ext.start && MayOverlap(m, t.p, ext) ==> t.l.E? && t.r.E?
    ensures var own := ext.end >= t.ext.start && MayOverlap(m, t.p, ext) && Overlap(ext, t.ext);
      var v := if own then visited + [t.p] else visited;
      Progress(m, c, E, ext, v, all)
  {
  }

  lemma ClimbOut(m: Mem, c: Path, ext: Extent, visited: seq<Ptr>, all: seq<Ptr>)
    requires Progress(m, c, E, ext, visited, all) && c.Step? && (c.side.R? || c.sib.E?)
    ensures Progress(m, c.up, E, ext, visited, all)
  {
  }

  lemma CrossOver(m: Mem, c: Path, t: Shape, ext: Extent, visited: seq<Ptr>, all: seq<Ptr>)
    requires Progress(m, c, E, ext, visited, all) && c.Step? && c.side.L? && c.p in m && MayOverlap(m, c.p, ext)
    ensures Progress(m, Down(R, c.up, Plug(c, t)), c.sib, ext, visited, all)
  {
  }

  lemma StopEarly(m: Mem, root: Ptr, c: Path, t: Shape, items: seq<Item>, ext: Extent, visited: seq<Ptr>, all: seq<Ptr>)
    requires Whole(m, root, c, t, items) && Sorted(items) && c.Step? && c.side.L?
    requires Progress(m, c, E, ext, visited, all) && c.p in m && !MayOverlap(m, c.p, ext)
    ensures visited == all
  {
    LateFrom(m, root, c, t, items, ext);
    LateRest(m, c, ext);
  }

  lemma OwnHit(m: Mem, c: Path, t: Shape, ext: Extent, visited: seq<Ptr>, all: seq<Ptr>)
    requires Progress(m, c, t, ext, visited, all) && t.N? && t.p in m
    requires ext.end >= t.ext.start && MayOverlap(m, t.p, ext) && Overlap(ext, t.ext)
    ensures visited + [t.p] <= all
  {
    assert all == (visited + [t.p]) + (Hits(m, t.l, ext) + Hits(m, t.r, ext)) + Rest(m, c, ext);
  }

  lemma StartSearch(m: Mem, t: Shape, ext: Extent)
    ensures Progress(m, Top, t, ext, [], Hits(m, t, ext))
  {
  }

  lemma EndSearch(m: Mem, ext: Extent, visited: seq<Ptr>, all: seq<Ptr>)
    requires Progress(m, Top, E, ext, visited, all)
    ensures visited == all
  {
  }

  lemma CrossOverTodo(c: Path, t: Shape)
    requires c.Step? && c.side.L?
    ensures Todo(Down(R, c.up, Plug(c, t))) + Size(c.sib) == Todo(c)
  {
  }

  lemma ClimbOutTodo(c: Path)
    requires c.Step?
    ensures Todo(c.up) <= Todo(c)
  {
  }

  // Climbs from node, whose subtree is done, to the next right sibling, unless the search is over.
  method ClimbBack(tree: Tree, ext: Extent, start: Ptr, ghost at: Path, ghost below: Shape, ghost visited: seq<Ptr>,
                   ghost all: seq<Ptr>)
    returns (node: Ptr, over: bool, ghost c: Path, ghost t: Shape)
    requires Whole(tree.mem, tree.root, at, below, tree.items) && Sorted(tree.items) && below.N? && below.p == start
    requires Progress(tree.mem, at, E, ext, visited, all)
    ensures over ==> visited == all
    ensures !over ==> Whole(tree.mem, tree.root, c, t, tree.items) && t.N? && t.p == node
    ensures !over ==> Progress(tree.mem, c, t, ext, visited, all) && Todo(c) + Size(t) <= Todo(at)
  {
    hide Whole, Sorted, Hits, Rest, Progress, Reached, Size, Todo;
    var m := tree.mem;
    node := start;
    c, t := at, below;
    FocusFacts(m, tree.root, c, t, tree.items);
    var parent := m[node].parent;
    while parent != NULL
      invariant Whole(m, tree.root, c, t, tree.items) && t.N? && node == t.p && parent == c.Parent() && NULL !in m
      invariant c.Step? ==> parent != NULL && parent in m
      invariant Progress(m, c, E, ext, visited, all) && Todo(c) <= Todo(at)
      decreases c
    {
      FocusFacts(m, tree.root, c, t, tree.items);
      if m[parent].left == node && m[parent].right != NULL {
        break;
      }
      ClimbOut(m, c, ext, visited, all);
      ClimbOutTodo(c);
      ZoomOut(m, tree.root, c, t, tree.items);
      c, t := c.up, Plug(c, t);
      node := parent;
      FocusFacts(m, tree.root, c, t, tree.items);
      parent := m[parent].parent;
    }
    if parent == NULL {
      EndSearch(m, ext, visited, all);
      over := true;
    } else if !MayOverlap(m, parent, ext) {
      FocusFacts(m, tree.root, c, t, tree.items);
      StopEarly(m, tree.root, c, t, tree.items, ext, visited, all);
      over := true;
    } else {
      FocusFacts(m, tree.root, c, t, tree.items);
      node, over := m[parent].right, false;
      CrossOver(m, c, t, ext, visited, all);
      CrossOverTodo(c, t);
      ZoomOut(m, tree.root, c, t, tree.items);
      ZoomIn(m, tree.root, c.up, Plug(c, t), tree.items, R);
      c, t := Down(R, c.up, Plug(c, t)), c.sib;
    }
  }

  /** Walks the tree along parent pointers and hands every interval that overlaps ext to the callback, until the
    * callback stops the search: the nodes come in the order of the recursive search.
    */
  method Search(tree: Tree, ext: Extent, stops: Ptr -> bool) returns (visited: seq<Ptr>, stopped: bool)
    requires tree.Valid() && Sorted(tree.items)
    ensures visited <= Hits(tree.mem, tree.cur, ext)
    ensures !stopped ==> visited == Hits(tree.mem, tree.cur, ext) && NoStop(visited, stops)
    ensures stopped ==>
      visited != [] && stops(visited[|visited| - 1]) && NoStop(visited[..|visited| - 1], stops)
  {
    hide Whole, Sorted, Hits, Rest, Progress, Reached, Size, Todo, RedBlack, MaxOk;
    var m, node := tree.mem, tree.root;
    visited, stopped := [], false;
    ghost var c, t := tree.path, tree.cur;
    ghost var all := Hits(m, t, ext);
    StartSearch(m, t, ext);
    FocusFacts(m, tree.root, c, t, tree.items);
    while node != NULL
      invariant Whole(m, tree.root, c, t, tree.items) && node == t.Root() && (t.E? ==> c.Top?)
      invariant Progress(m, c, t, ext, visited, all) && NoStop(visited, stops)
      decreases Size(t) + Todo(c)
    {
      FocusFacts(m, tree.root, c, t, tree.items);
      ghost var before := visited;
      if ext.end >= m[node].ext.start && MayOverlap(m, node, ext) {
        if Overlap(ext, m[node].ext) {
          visited := visited + [node];
          OwnHit(m, c, t, ext, before, all);
          if stops(node) {
            stopped := true;
            return;
          }
        }
      }
      if m[node].left != NULL && (ext.end < m[node].ext.start || MayOverlap(m, node, ext)) {
        ZoomIn(m, tree.root, c, t, tree.items, L);
        EnterKid(m, c, t, ext, before, all, L);
        node, c, t := m[node].left, Down(L, c, t), t.l;
      } else if m[node].right != NULL && ext.end >= m[node].ext.start && MayOverlap(m, node, ext) {
        ZoomIn(m, tree.root, c, t, tree.items, R);
        EnterKid(m, c, t, ext, before, all, R);
        node, c, t := m[node].right, Down(R, c, t), t.r;
      } else {
        LeaveSubtree(m, c, t, ext, before, all);
        var over;
        ghost var c', t';
        node, over, c', t' := ClimbBack(tree, ext, node, c, t, visited, all);
        if over {
          return;
        }
        SizePositive(t);
        c, t := c', t';
      }
    }
    FocusFacts(m, tree.root, c, t, tree.items);
    EndSearch(m, ext, visited, all);
  }

  // ---------- What a search tells its caller ----------

  ghost predicate AnyOverlap(items: seq<Item>, ext: Extent) {
    exists i :: 0 <= i < |items| && Overlap(ext, items[i].ext)
  }

  lemma {:induction false} BagOfNone(items: seq<Item>, ext: Extent)
    ensures OverlapBag(items, ext) == multiset{} <==> !AnyOverlap(items, ext)
  {
    if AnyOverlap(items, ext) {
      var i :| 0 <= i < |items| && Overlap(ext, items[i].ext);
      OverlapBagMember(items, ext, items[i].p);
      assert items[i].p in OverlapBag(items, ext);
    } else {
      OverlapBagNone(items, ext);
    }
  }

  // A search that is not stopped meets every overlapping interval exactly once; one that is stopped by the first
  // interval tells whether there is any.
  lemma SearchIsComplete(m: Mem, root: Ptr, t: Shape, items: seq<Item>, ext: Extent)
    requires Whole(m, root, Top, t, items) && MaxOk(m) && Sorted(items)
    ensures multiset(Hits(m, t, ext)) == OverlapBag(items, ext)
    ensures Hits(m, t, ext) == [] <==> !AnyOverlap(items, ext)
  {
    assert items == Items(t);
    HitsAreOverlaps(m, t, NULL, ext);
    BagOfNone(items, ext);
    if Hits(m, t, ext) != [] {
      assert Hits(m, t, ext)[0] in multiset(Hits(m, t, ext));
    }
  }

  method IsOverlapped(tree: Tree, ext: Extent) returns (has: bool)
    requires tree.Valid() && Sorted(tree.items)
    ensures has <==> AnyOverlap(tree.items, ext)
  {
    hide Whole, Hits, AnyOverlap, OverlapBag, RedBlack, MaxOk, Sorted;
    var visited;
    visited, has := Search(tree, ext, q => true);
    SearchIsComplete(tree.mem, tree.root, tree.cur, tree.items, ext);
    FirstIn(visited);
  }

  // ---------- Expanding an extent ----------

  ghost predicate Proper(items: seq<Item>) {
    forall i :: 0 <= i < |items| ==> items[i].ext.start <= items[i].ext.end
  }

  // No item starts in (high, limit].
  ghost predicate FreeUpTo(items: seq<Item>, high: u64, limit: u64) {
    forall i :: 0 <= i < |items| && items[i].ext.start > high ==> items[i].ext.start > limit
  }

  ghost predicate SomeStartsAt(items: seq<Item>, start: int) {
    exists i :: 0 <= i < |items| && items[i].ext.start == start
  }

  // What comes before the subtree at the hole of c starts at or below high, what comes after it above result.
  ghost predicate FreeOutside(items: seq<Item>, c: Path, t: Shape, high: u64, result: u64) {
    && |Before(c)| + |Items(t)| <= |items|
    && (forall i :: 0 <= i < |Before(c)| ==> items[i].ext.start <= high)
    && (forall i :: |Before(c)| + |Items(t)| <= i < |items| ==> items[i].ext.start > result)
  }

  lemma WholeIsInside(m: Mem, root: Ptr, t: Shape, items: seq<Item>, high: u64, result: u64)
    requires Whole(m, root, Top, t, items)
    ensures FreeOutside(items, Top, t, high, result)
  {
  }

  lemma NothingAbove(m: Mem, root: Ptr, c: Path, t: Shape, items: seq<Item>, high: u64, result: u64)
    requires Whole(m, root, c, t, items) && MaxOk(m) && Proper(items) && FreeOutside(items, c, t, high, result)
    requires t.E? || (t.p in m && m[t.p].maxHigh < high)
    ensures FreeUpTo(items, high, result)
  {
    forall i | 0 <= i < |items| && items[i].ext.start > high ensures items[i].ext.start > result {
      if items[i].ext.start <= result {
        assert items[i] == Items(t)[i - |Before(c)|];
        MaxBounds(m, t, c.Parent(), items[i]);
      }
    }
  }

  lemma TryLower(m: Mem, root: Ptr, c: Path, t: Shape, items: seq<Item>, high: u64, result: u64)
    requires Whole(m, root, c, t, items) && Sorted(items) && t.N? && FreeOutside(items, c, t, high, result)
    requires t.ext.start > high
    ensures FreeOutside(items, Down(L, c, t), t.l, high, t.ext.start - 1) && SomeStartsAt(items, t.ext.start)
  {
    FocusPlace(m, root, c, t, items);
    var k := |Before(c)| + |Items(t.l)|;
    assert items[k].ext.start == t.ext.start;
    assert forall i :: k < i < |items| ==> Less(items[k].ext, items[i].ext);
  }

  lemma TryUpper(m: Mem, root: Ptr, c: Path, t: Shape, items: seq<Item>, high: u64, result: u64)
    requires Whole(m, root, c, t, items) && Sorted(items) && t.N? && FreeOutside(items, c, t, high, result)
    requires t.ext.start <= high
    ensures FreeOutside(items, Down(R, c, t), t.r, high, result)
  {
    FocusPlace(m, root, c, t, items);
    var k := |Before(c)| + |Items(t.l)|;
    assert forall i :: 0 <= i < k ==> Less(items[i].ext, items[k].ext);
  }

  // The largest end that an extent ending at `high` can grow to.
  method ExpandHigh(tree: Tree, high: u64) returns (result: u64)
    requires tree.Valid() && Sorted(tree.items) && Proper(tree.items)
    ensures high <= result && FreeUpTo(tree.items, high, result)
    ensures result == MAX_U64 || SomeStartsAt(tree.items, result + 1)
  {
    hide Whole, Sorted, RedBlack, MaxOk, Proper, FreeOutside, FreeUpTo, SomeStartsAt;
    var m, node := tree.mem, tree.root;
    result := MAX_U64;
    ghost var c, t := tree.path, tree.cur;
    FocusFacts(m, tree.root, c, t, tree.items);
    WholeIsInside(m, tree.root, t, tree.items, high, result);
    while node != NULL
      invariant Whole(m, tree.root, c, t, tree.items) && node == t.Root()
      invariant FreeOutside(tree.items, c, t, high, result) && high <= result
      invariant result == MAX_U64 || SomeStartsAt(tree.items, result + 1)
      decreases t
    {
      FocusFacts(m, tree.root, c, t, tree.items);
      if m[node].maxHigh < high {
        break;
      }
      if m[node].ext.start > high {
        assert m[node].ext == t.ext;
        TryLower(m, tree.root, c, t, tree.items, high, result);
        result := m[node].ext.start - 1;
        ZoomIn(m, tree.root, c, t, tree.items, L);
        node, c, t := m[node].left, Down(L, c, t), t.l;
      } else {
        TryUpper(m, tree.root, c, t, tree.items, high, result);
        ZoomIn(m, tree.root, c, t, tree.items, R);
        node, c, t := m[node].right, Down(R, c, t), t.r;
      }
    }
    FocusFacts(m, tree.root, c, t, tree.items);
    NothingAbove(m, tree.root, c, t, tree.items, high, result);
  }

  // Only an empty tree lets an extent grow downwards.
  function ExpandLow(root: Ptr, low: u64): u64 { if root == NULL then 0 else low }

  /** Grows ext where the limiter reaches further: the result still overlaps nothing, and it ends as high as it can:
    * at the last word, or right below the next interval.
    */
  method Expand(tree: Tree, ext: Extent, limiter: Option<Extent>) returns (grown: Extent)
    requires tree.Valid() && Sorted(tree.items) && Proper(tree.items)
    requires ext.start <= ext.end && !AnyOverlap(tree.items, ext)
    ensures grown.start <= ext.start && ext.end <= grown.end && !AnyOverlap(tree.items, grown)
    ensures grown.start ==
      if (limiter.None? || limiter.value.start < ext.start) && tree.items == [] then 0 else ext.start
    ensures limiter.None? || limiter.value.end > ext.end ==>
      grown.end == MAX_U64 || SomeStartsAt(tree.items, grown.end + 1)
    ensures limiter.Some? && limiter.value.end <= ext.end ==> grown.end == ext.end
  {
    hide Whole, Sorted, RedBlack, MaxOk, SomeStartsAt, Proper;
    var start, end := ext.start, ext.end;
    EmptyRoot(tree.mem, tree.root, tree.cur, tree.items);
    if limiter.None? || limiter.value.start < start {
      start := ExpandLow(tree.root, start);
    }
    if limiter.None? || limiter.value.end > end {
      end := ExpandHigh(tree, end);
    }
    grown := Extent(start, end);
    forall i | 0 <= i < |tree.items| ensures !Overlap(grown, tree.items[i].ext) {
      assert !Overlap(ext, tree.items[i].ext);
    }
  }

  lemma EmptyRoot(m: Mem, root: Ptr, t: Shape, items: seq<Item>)
    requires Whole(m, root, Top, t, items)
    ensures root == NULL <==> items == []
  {
    FocusFacts(m, root, Top, t, items);
  }

  lemma SizePositive(t: Shape)
    requires t.N?
    ensures Size(t) > 0
  {
  }
}
