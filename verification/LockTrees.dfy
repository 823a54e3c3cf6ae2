/** The interval trees of the lock modes, seen as the sets of nodes that they hold. */
module LockTrees {
  import opened Words
  import opened Shapes
  import opened Deletion
  import opened IntervalTrees
  import opened IntervalSearch
  import opened Options
  import opened LockModes
  import opened Lists
  import opened LockBook

  ghost function ItemSet(items: seq<Item>): set<Item> { set it | it in items }

  lemma InsertedSet(items: seq<Item>, at: nat, it: Item)
    requires at <= |items|
    ensures ItemSet(items[..at] + [it] + items[at..]) == ItemSet(items) + {it}
    ensures Proper(items) && it.ext.start <= it.ext.end ==> Proper(items[..at] + [it] + items[at..])
  {
    assert items == items[..at] + items[at..];
  }

  lemma RemovedSet(items: seq<Item>, at: nat)
    requires at < |items| && Sorted(items)
    ensures Sorted(RemoveAt(items, at)) && (Proper(items) ==> Proper(RemoveAt(items, at)))
    ensures ItemSet(RemoveAt(items, at)) == ItemSet(items) - {items[at]}
  {
    assert items == items[..at] + [items[at]] + items[at + 1..];
    assert forall i :: 0 <= i < |items| && i != at ==> items[i].ext != items[at].ext;
  }

  ghost predicate Usable(tree: Tree, s: set<Item>)
    reads tree
  {
    tree.Valid() && Sorted(tree.items) && Proper(tree.items) && ItemSet(tree.items) == s
  }

  // interval_insert, and what it does to the set of nodes in the tree.
  method Plant(tree: Tree, node: Ptr, ext: Extent, ghost s: set<Item>) returns (found: Ptr, ghost s': set<Item>)
    requires Usable(tree, s) && node != NULL && ext.start <= ext.end && (forall it :: it in s ==> it.p != node)
    modifies tree
    ensures Usable(tree, s')
    ensures s' == if found == NULL then s + {Item(node, ext)} else s
    ensures found != NULL ==> Item(found, ext) in s
  {
    hide Sorted, Proper;
    KeysAreItems(tree.mem, tree.root, tree.path, tree.cur, tree.items);
    ghost var at;
    ghost var was := tree.items;
    found, at := tree.Insert(node, ext);
    if found == NULL {
      InsertedSet(was, at, Item(node, ext));
    }
    s' := if found == NULL then s + {Item(node, ext)} else s;
  }

  // interval_erase, and what it does to the set of nodes in the tree.
  method Uproot(tree: Tree, node: Ptr, ghost ext: Extent, ghost s: set<Item>)
    requires Usable(tree, s) && Item(node, ext) in s
    requires forall it :: it in s && it.p == node ==> it.ext == ext
    modifies tree
    ensures Usable(tree, s - {Item(node, ext)})
  {
    hide Sorted, Proper;
    KeysAreItems(tree.mem, tree.root, tree.path, tree.cur, tree.items);
    ghost var was := tree.items;
    ghost var at := tree.Erase(node);
    assert was[at] in s;
    RemovedSet(was, at);
  }

  // interval_expand, and what it means for the set of nodes in the tree.
  method Grow(tree: Tree, ext: Extent, limiter: Extent, ghost s: set<Item>) returns (grown: Extent)
    requires Usable(tree, s) && ext.start <= ext.end && (forall it :: it in s ==> !Overlap(it.ext, ext))
    ensures grown.start <= ext.start && ext.end <= grown.end && (forall it :: it in s ==> !Overlap(it.ext, grown))
    ensures s != {} ==> grown.start == ext.start
    ensures s == {} ==> grown.start == if limiter.start < ext.start then 0 else ext.start
    ensures limiter.end > ext.end ==> grown.end == MAX_U64 || exists it :: it in s && it.ext.start == grown.end + 1
  {
    hide Sorted, Proper;
    assert forall i :: 0 <= i < |tree.items| ==> tree.items[i] in s;
    grown := Expand(tree, ext, Some(limiter));
    assert tree.items != [] ==> tree.items[0] in s;
    assert s != {} ==> tree.items != [];
  }

  method Probe(tree: Tree, ext: Extent, ghost s: set<Item>) returns (has: bool)
    requires Usable(tree, s)
    ensures has <==> exists it :: it in s && Overlap(it.ext, ext)
  {
    hide Sorted, Proper;
    has := IsOverlapped(tree, ext);
    assert forall i :: 0 <= i < |tree.items| ==> tree.items[i] in s;
  }

  ghost predicate ExactlyOverlapping(visited: seq<Ptr>, s: set<Item>, req: Extent) {
    forall q :: q in visited <==> exists it :: it in s && it.p == q && Overlap(it.ext, req)
  }

  // The nodes that overlap ext, in the order in which interval_search finds them.
  method Conflicts(tree: Tree, ext: Extent, ghost s: set<Item>) returns (visited: seq<Ptr>)
    requires Usable(tree, s)
    ensures ExactlyOverlapping(visited, s, ext) && NoRepeat(visited)
  {
    hide Sorted, Proper, Hits, NoRepeat, OverlapBag;
    var stopped;
    visited, stopped := Search(tree, ext, q => false);
    SearchIsComplete(tree.mem, tree.root, tree.cur, tree.items, ext);
    forall q ensures q in visited <==> exists it :: it in s && it.p == q && Overlap(it.ext, ext) {
      assert q in visited <==> q in multiset(visited);
      OverlapBagMember(tree.items, ext, q);
    }
    BagOfDistinct(tree.mem, tree.root, tree.cur, tree.items, ext);
    OnceEach(visited);
  }

  // The listed nodes are distinct, so that each is found at most once.
  lemma BagOfDistinct(m: Mem, root: Ptr, t: Shape, items: seq<Item>, ext: Extent)
    requires Whole(m, root, Top, t, items)
    ensures forall q :: OverlapBag(items, ext)[q] <= 1
  {
    assert items == Items(t);
    DistinctItems(t);
    forall q ensures OverlapBag(items, ext)[q] <= 1 {
      BagAtMostOnce(items, ext, q);
    }
  }

  lemma {:induction false} BagAtMostOnce(items: seq<Item>, ext: Extent, q: Ptr)
    requires forall i, j :: 0 <= i < j < |items| ==> items[i].p != items[j].p
    ensures OverlapBag(items, ext)[q] <= 1
  {
    if items != [] {
      var n := |items| - 1;
      BagAtMostOnce(items[..n], ext, q);
      OverlapBagMember(items[..n], ext, q);
    }
  }

  lemma OnceEach(s: seq<Ptr>)
    requires forall q :: multiset(s)[q] <= 1
    ensures NoRepeat(s)
  {
    forall i, j | 0 <= i < j < |s| ensures s[i] != s[j] {
      assert s == s[..j] + s[j..];
      assert s[..j][i] in multiset(s[..j]) && s[j..][0] in multiset(s[j..]);
      assert multiset(s)[s[i]] == multiset(s[..j])[s[i]] + multiset(s[j..])[s[i]];
    }
  }

  method EmptyTree() returns (tree: Tree)
    ensures fresh(tree) && Usable(tree, {})
  {
    tree := new Tree();
  }

  method EmptyTrees() returns (trees: seq<Tree>)
    ensures fresh(trees) && TreesOk(trees, seq(LCK_MODE_NUM, i => {}))
  {
    hide Usable;
    trees := [];
    while |trees| < LCK_MODE_NUM
      invariant fresh(trees) && |trees| <= LCK_MODE_NUM
      invariant forall i, j :: 0 <= i < j < |trees| ==> trees[i] != trees[j]
      invariant forall i :: 0 <= i < |trees| ==> Usable(trees[i], {})
    {
      var tree := EmptyTree();
      trees := trees + [tree];
    }
  }

  // trees[i] is the tree of mode i, and items[i] lists its nodes.
  ghost predicate TreesOk(trees: seq<Tree>, items: seq<set<Item>>)
    reads trees
  {
    && |trees| == |items| == LCK_MODE_NUM
    && (forall i, j :: 0 <= i < j < LCK_MODE_NUM ==> trees[i] != trees[j])
    && (forall i :: 0 <= i < LCK_MODE_NUM ==> Usable(trees[i], items[i]))
  }

  lemma EmptyTreeItems(tree: Tree, s: set<Item>)
    requires Usable(tree, s) && tree.root == NULL
    ensures s == {}
  {
    EmptyRoot(tree.mem, tree.root, tree.cur, tree.items);
  }

  /** The tree of a mode agrees with the granted list: its nodes carry exactly the extents of the granted locks of that
    * mode, and the group of a node is exactly the locks with that extent.
    */
  lemma TreeAgrees(b: Book, tree: Tree, i: nat, e: Extent)
    requires Inv(b) && Sized(b) && i < LCK_MODE_NUM && Usable(tree, b.items[i])
    ensures (exists it :: it in b.items[i] && it.ext == e)
      <==> (exists l :: l in b.granted && l in b.locks && Index(b.locks[l].mode) == i && b.locks[l].ext == e)
    ensures forall it, l :: it in b.items[i] && it.ext == e && it.p in b.groups ==>
      (l in b.groups[it.p]
       <==> l in b.granted && l in b.locks && Index(b.locks[l].mode) == i && b.locks[l].ext == e)
    ensures b.sizes[i] == |Holders(b, i)|
  {
    hide Usable;
    assert forall j :: 0 <= j < |b.sizes| ==> b.sizes[j] == |Holders(b, j)|;
    hide Inv;
    forall it | it in b.items[i] && it.ext == e
      ensures exists l :: l in b.granted && l in b.locks && Index(b.locks[l].mode) == i && b.locks[l].ext == e
    {
      GroupedFact(b, i, it);
      assert b.groups[it.p][0] in b.groups[it.p];
    }
    forall l | l in b.granted && l in b.locks && Index(b.locks[l].mode) == i && b.locks[l].ext == e
      ensures Item(b.locks[l].node, e) in b.items[i] && b.locks[l].node in b.groups && l in b.groups[b.locks[l].node]
    {
      GrantedFacts(b, l);
    }
    forall it | it in b.items[i] && it.ext == e ensures GroupOf(b, i, it) {
      GroupedFact(b, i, it);
    }
    SameExtent(tree, b.items[i], e);
  }

  lemma SameExtent(tree: Tree, s: set<Item>, e: Extent)
    requires Usable(tree, s)
    ensures forall it, jt :: it in s && jt in s && it.ext == e == jt.ext ==> it == jt
  {
    forall it, jt | it in s && jt in s && it.ext == e == jt.ext ensures it == jt {
      assert it in tree.items && jt in tree.items;
    }
  }
}
