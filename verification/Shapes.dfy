/** Linked red-black nodes in memory, and the shapes they represent.
  *
  * A node pointer is a key of the memory map; NULL is never a key.  A tree in memory is described by a
  * Shape.  A Path is the part of a tree around a hole, listed from the hole up to the root, so that a Path and
  * a Shape together describe a tree in which one subtree is singled out, as the loops of the source do.
  */
module Shapes {
  import opened Words

  type Ptr = nat
  const NULL: Ptr := 0

  datatype Side = L | R {
    function Other(): Side { if L? then R else L }
  }

  datatype Rec = Rec(left: Ptr, right: Ptr, parent: Ptr, black: bool, maxHigh: u64, ext: Extent) {
    function Kid(s: Side): Ptr { if s.L? then left else right }
    function WithKid(s: Side, q: Ptr): Rec { if s.L? then this.(left := q) else this.(right := q) }
  }
  type Mem = map<Ptr, Rec>

  datatype Item = Item(p: Ptr, ext: Extent)

  datatype Shape = E | N(p: Ptr, black: bool, ext: Extent, l: Shape, r: Shape) {
    ghost function Kid(s: Side): Shape
      requires N?
    {
      if s.L? then l else r
    }
    ghost function Root(): Ptr { if E? then NULL else p }
  }

  // The hole is the child on `side` of node p; sib is the other child.
  datatype Path = Top | Step(side: Side, p: Ptr, black: bool, ext: Extent, sib: Shape, up: Path) {
    ghost function Parent(): Ptr { if Top? then NULL else p }
  }

  ghost function Mk(s: Side, p: Ptr, black: bool, ext: Extent, near: Shape, far: Shape): Shape {
    if s.L? then N(p, black, ext, near, far) else N(p, black, ext, far, near)
  }

  ghost function Plug(c: Path, t: Shape): Shape
    requires c.Step?
  {
    Mk(c.side, c.p, c.black, c.ext, t, c.sib)
  }

  ghost function Down(s: Side, c: Path, t: Shape): Path
    requires t.N?
  {
    Step(s, t.p, t.black, t.ext, t.Kid(s.Other()), c)
  }

  ghost function PlugAll(c: Path, t: Shape): Shape
    decreases c
  {
    if c.Top? then t else PlugAll(c.up, Plug(c, t))
  }

  ghost function Ptrs(t: Shape): set<Ptr> {
    if t.E? then {} else {t.p} + Ptrs(t.l) + Ptrs(t.r)
  }

  ghost function PathPtrs(c: Path): set<Ptr> {
    if c.Top? then {} else {c.p} + Ptrs(c.sib) + PathPtrs(c.up)
  }

  ghost predicate NoDup(t: Shape) {
    t.E? || (t.p !in Ptrs(t.l) && t.p !in Ptrs(t.r) && Ptrs(t.l) !! Ptrs(t.r) && NoDup(t.l) && NoDup(t.r))
  }

  ghost predicate PathNoDup(c: Path) {
    c.Top? || (c.p !in Ptrs(c.sib) && c.p !in PathPtrs(c.up) && Ptrs(c.sib) !! PathPtrs(c.up)
               && NoDup(c.sib) && PathNoDup(c.up))
  }

  // In-order listings: of a subtree, and of what comes before and after the hole of a path.
  ghost function Items(t: Shape): seq<Item> {
    if t.E? then [] else Items(t.l) + [Item(t.p, t.ext)] + Items(t.r)
  }

  ghost function Before(c: Path): seq<Item> {
    if c.Top? then [] else if c.side.L? then Before(c.up) else Before(c.up) + Items(c.sib) + [Item(c.p, c.ext)]
  }

  ghost function After(c: Path): seq<Item> {
    if c.Top? then [] else if c.side.R? then After(c.up) else [Item(c.p, c.ext)] + Items(c.sib) + After(c.up)
  }

  // maxHigh is not part of what a shape fixes.
  ghost predicate Holds(m: Mem, p: Ptr, black: bool, ext: Extent, left: Ptr, right: Ptr, parent: Ptr) {
    p != NULL && p in m && m[p] == Rec(left, right, parent, black, m[p].maxHigh, ext)
  }

  ghost predicate Rep(m: Mem, t: Shape, parent: Ptr) {
    t.E? || (Holds(m, t.p, t.black, t.ext, t.l.Root(), t.r.Root(), parent) && Rep(m, t.l, t.p) && Rep(m, t.r, t.p))
  }

  ghost predicate RepPath(m: Mem, c: Path, hole: Ptr, root: Ptr) {
    if c.Top? then root == hole else
      && (if c.side.L? then Holds(m, c.p, c.black, c.ext, hole, c.sib.Root(), c.up.Parent())
          else Holds(m, c.p, c.black, c.ext, c.sib.Root(), hole, c.up.Parent()))
      && Rep(m, c.sib, c.p) && RepPath(m, c.up, c.p, root)
  }

  // Memory m with root pointer `root` is exactly the tree described by path c around subtree t,
  // and lists `items` in order.
  ghost predicate Whole(m: Mem, root: Ptr, c: Path, t: Shape, items: seq<Item>) {
    && Rep(m, t, c.Parent()) && RepPath(m, c, t.Root(), root)
    && NoDup(t) && PathNoDup(c) && Ptrs(t) !! PathPtrs(c)
    && m.Keys == Ptrs(t) + PathPtrs(c)
    && Before(c) + Items(t) + After(c) == items
  }

  // ---------- Framing ----------

  ghost function Bare(r: Rec): Rec { r.(maxHigh := 0) }

  // Outside k the records of m and m' differ at most in maxHigh.
  ghost predicate SameBut(m: Mem, m': Mem, k: set<Ptr>) {
    forall q {:trigger m'[q]} {:trigger q in m'} :: q in m && q !in k ==> q in m' && Bare(m'[q]) == Bare(m[q])
  }

  lemma {:induction false} RepFrame(m: Mem, m': Mem, t: Shape, parent: Ptr, k: set<Ptr>)
    requires Rep(m, t, parent) && SameBut(m, m', k) && Ptrs(t) !! k
    ensures Rep(m', t, parent)
  {
    if t.N? {
      assert t.p in Ptrs(t);
      RepFrame(m, m', t.l, t.p, k);
      RepFrame(m, m', t.r, t.p, k);
    }
  }

  lemma {:induction false} RepPathFrame(m: Mem, m': Mem, c: Path, hole: Ptr, root: Ptr, k: set<Ptr>)
    requires RepPath(m, c, hole, root) && SameBut(m, m', k) && PathPtrs(c) !! k
    ensures RepPath(m', c, hole, root)
  {
    if c.Step? {
      assert c.p in PathPtrs(c);
      RepFrame(m, m', c.sib, c.p, k);
      RepPathFrame(m, m', c.up, c.p, root, k);
    }
  }

  lemma {:induction false} NullOutside(m: Mem, t: Shape, parent: Ptr)
    requires Rep(m, t, parent)
    ensures NULL !in Ptrs(t) && Ptrs(t) <= m.Keys
  {
    if t.N? {
      NullOutside(m, t.l, t.p);
      NullOutside(m, t.r, t.p);
    }
  }

  lemma {:induction false} NullOutsidePath(m: Mem, c: Path, hole: Ptr, root: Ptr)
    requires RepPath(m, c, hole, root)
    ensures NULL !in PathPtrs(c) && PathPtrs(c) <= m.Keys
  {
    if c.Step? {
      NullOutside(m, c.sib, c.p);
      NullOutsidePath(m, c.up, c.p, root);
    }
  }

  // Changing maxHigh alone changes nothing that Whole speaks about.
  lemma WholeIgnoresMaxHigh(m: Mem, m': Mem, root: Ptr, c: Path, t: Shape, items: seq<Item>)
    requires Whole(m, root, c, t, items) && m'.Keys == m.Keys && SameBut(m, m', {})
    ensures Whole(m', root, c, t, items)
  {
    RepFrame(m, m', t, c.Parent(), {});
    RepPathFrame(m, m', c, t.Root(), root, {});
  }

  // ---------- Moving the focus ----------

  lemma Regrouped<T>(a: seq<T>, b: seq<T>, c: seq<T>, d: seq<T>, e: seq<T>)
    ensures a + (b + c + d) + e == a + b + (c + d + e) && a + (b + c + d) + e == (a + b + c) + d + e
  {
  }

  lemma PlugItems(c: Path, t: Shape)
    requires c.Step?
    ensures Before(c.up) + Items(Plug(c, t)) + After(c.up) == Before(c) + Items(t) + After(c)
  {
    var one, rest := [Item(c.p, c.ext)], Items(c.sib);
    if c.side.L? {
      Regrouped(Before(c.up), Items(t), one, rest, After(c.up));
    } else {
      Regrouped(Before(c.up), rest, one, Items(t), After(c.up));
    }
  }

  lemma PlugPtrs(c: Path, t: Shape)
    requires c.Step?
    ensures Ptrs(Plug(c, t)) + PathPtrs(c.up) == Ptrs(t) + PathPtrs(c)
    ensures NoDup(Plug(c, t)) && PathNoDup(c.up) && Ptrs(Plug(c, t)) !! PathPtrs(c.up)
       <==> NoDup(t) && PathNoDup(c) && Ptrs(t) !! PathPtrs(c)
  {
  }

  lemma ZoomOut(m: Mem, root: Ptr, c: Path, t: Shape, items: seq<Item>)
    requires Whole(m, root, c, t, items) && c.Step?
    ensures Whole(m, root, c.up, Plug(c, t), items)
  {
    PlugItems(c, t);
    PlugPtrs(c, t);
  }

  lemma ZoomIn(m: Mem, root: Ptr, c: Path, t: Shape, items: seq<Item>, s: Side)
    requires Whole(m, root, c, t, items) && t.N?
    ensures Whole(m, root, Down(s, c, t), t.Kid(s), items)
  {
    PlugItems(Down(s, c, t), t.Kid(s));
    PlugPtrs(Down(s, c, t), t.Kid(s));
  }

  lemma {:induction false} ZoomToTop(m: Mem, root: Ptr, c: Path, t: Shape, items: seq<Item>)
    requires Whole(m, root, c, t, items)
    ensures Whole(m, root, Top, PlugAll(c, t), items)
    decreases c
  {
    if c.Step? {
      ZoomOut(m, root, c, t, items);
      ZoomToTop(m, root, c.up, Plug(c, t), items);
    }
  }

  // ---------- What the program can read off memory ----------

  lemma {:induction false} RootOnPath(m: Mem, c: Path, hole: Ptr, root: Ptr)
    requires RepPath(m, c, hole, root) && c.Step?
    ensures root in PathPtrs(c)
  {
    if c.up.Step? {
      RootOnPath(m, c.up, c.p, root);
    }
  }

  lemma FocusFacts(m: Mem, root: Ptr, c: Path, t: Shape, items: seq<Item>)
    requires Whole(m, root, c, t, items)
    ensures NULL !in m
    ensures c.Top? <==> t.Root() == root
    ensures c.Step? || t.N? ==> root in m
    ensures c.Step? ==>
      && c.p in m && c.p != NULL && c.p != t.Root() && m[c.p].Kid(c.side) == t.Root()
      && m[c.p].Kid(c.side.Other()) == c.sib.Root() && m[c.p].black == c.black && m[c.p].ext == c.ext
      && m[c.p].parent == c.up.Parent() && (t.N? ==> c.sib.Root() != t.p)
      && (c.sib.N? ==> c.sib.p in m && m[c.sib.p].black == c.sib.black)
    ensures t.N? ==>
      && t.p in m && m[t.p].parent == c.Parent() && m[t.p].left == t.l.Root() && m[t.p].right == t.r.Root()
      && m[t.p].black == t.black && m[t.p].ext == t.ext
      && (t.l.N? ==> t.l.p in m) && (t.r.N? ==> t.r.p in m)
  {
    NullOutside(m, t, c.Parent());
    NullOutsidePath(m, c, t.Root(), root);
    if c.Step? {
      RootOnPath(m, c, t.Root(), root);
    }
  }

  // Every child pointer leads to a node whose parent pointer leads back.
  ghost predicate KidsLinked(m: Mem, k: set<Ptr>) {
    forall q, s: Side {:trigger m[q].Kid(s)} :: q in k && q in m && m[q].Kid(s) != NULL ==>
      m[q].Kid(s) in m && m[m[q].Kid(s)].parent == q
  }

  lemma {:induction false} RepKidsLinked(m: Mem, t: Shape, parent: Ptr)
    requires Rep(m, t, parent)
    ensures KidsLinked(m, Ptrs(t))
  {
    if t.N? {
      RepKidsLinked(m, t.l, t.p);
      RepKidsLinked(m, t.r, t.p);
      assert t.l.N? ==> m[t.l.p].parent == t.p;
      assert t.r.N? ==> m[t.r.p].parent == t.p;
    }
  }

  lemma {:induction false} KidLinks(m: Mem, root: Ptr, c: Path, t: Shape, items: seq<Item>)
    requires Whole(m, root, c, t, items)
    ensures KidsLinked(m, m.Keys)
  {
    ZoomToTop(m, root, c, t, items);
    RepKidsLinked(m, PlugAll(c, t), NULL);
  }

  lemma KidsOf(m: Mem, root: Ptr, c: Path, t: Shape, items: seq<Item>)
    requires Whole(m, root, c, t, items) && t.N?
    ensures t.p in m
    ensures m[t.p].left != NULL ==> m[t.p].left in m && m[t.p].left != t.p
    ensures m[t.p].right != NULL ==> m[t.p].right in m && m[t.p].right != t.p
  {
    assert t.l.N? ==> t.l.p in Ptrs(t.l);
    assert t.r.N? ==> t.r.p in Ptrs(t.r);
  }

  // Subtree and path share no node and together hold all of memory.
  lemma WholePtrs(m: Mem, root: Ptr, c: Path, t: Shape, items: seq<Item>)
    requires Whole(m, root, c, t, items)
    ensures m.Keys == Ptrs(t) + PathPtrs(c) && Ptrs(t) !! PathPtrs(c) && NULL !in Ptrs(t)
    ensures (t.N? ==> t.p in Ptrs(t)) && |Before(c)| + |Items(t)| + |After(c)| == |items|
  {
    NullOutside(m, t, c.Parent());
  }

  ghost function ItemPtrs(items: seq<Item>): set<Ptr> { set i | i in items :: i.p }

  lemma ItemPtrsConcat(a: seq<Item>, b: seq<Item>)
    ensures ItemPtrs(a + b) == ItemPtrs(a) + ItemPtrs(b)
  {
  }

  lemma {:induction false} PtrsAreItems(t: Shape)
    ensures Ptrs(t) == ItemPtrs(Items(t))
  {
    if t.N? {
      PtrsAreItems(t.l);
      PtrsAreItems(t.r);
      ItemPtrsConcat(Items(t.l), [Item(t.p, t.ext)]);
      ItemPtrsConcat(Items(t.l) + [Item(t.p, t.ext)], Items(t.r));
      assert ItemPtrs([Item(t.p, t.ext)]) == {t.p};
    }
  }

  // The nodes in memory are those listed.
  lemma KeysAreItems(m: Mem, root: Ptr, c: Path, t: Shape, items: seq<Item>)
    requires Whole(m, root, c, t, items)
    ensures m.Keys == ItemPtrs(items)
  {
    ZoomToTop(m, root, c, t, items);
    PtrsAreItems(PlugAll(c, t));
    assert items == Items(PlugAll(c, t));
  }

  // ---------- Painting nodes ----------

  ghost function Paint(m: Mem, q: Ptr, black: bool): Mem
    requires q in m
  {
    m[q := m[q].(black := black)]
  }

  lemma PaintFocus(m: Mem, root: Ptr, c: Path, t: Shape, items: seq<Item>, black: bool)
    requires Whole(m, root, c, t, items) && t.N?
    ensures t.p in m && Whole(Paint(m, t.p, black), root, c, t.(black := black), items)
  {
    var m' := Paint(m, t.p, black);
    RepFrame(m, m', t.l, t.p, {t.p});
    RepFrame(m, m', t.r, t.p, {t.p});
    RepPathFrame(m, m', c, t.p, root, {t.p});
  }

  lemma PaintParent(m: Mem, root: Ptr, c: Path, t: Shape, items: seq<Item>, black: bool)
    requires Whole(m, root, c, t, items) && c.Step?
    ensures c.p in m && Whole(Paint(m, c.p, black), root, c.(black := black), t, items)
  {
    ZoomOut(m, root, c, t, items);
    PaintFocus(m, root, c.up, Plug(c, t), items, black);
    ZoomIn(Paint(m, c.p, black), root, c.up, Plug(c, t).(black := black), items, c.side);
  }

  lemma PaintSibling(m: Mem, root: Ptr, c: Path, t: Shape, items: seq<Item>, black: bool)
    requires Whole(m, root, c, t, items) && c.Step? && c.sib.N?
    ensures c.sib.p in m && Whole(Paint(m, c.sib.p, black), root, c.(sib := c.sib.(black := black)), t, items)
  {
    var s := c.side.Other();
    var d := Down(s, c.up, Plug(c, t));
    ZoomOut(m, root, c, t, items);
    ZoomIn(m, root, c.up, Plug(c, t), items, s);
    PaintFocus(m, root, d, c.sib, items, black);
    var m' := Paint(m, c.sib.p, black);
    ZoomOut(m', root, d, c.sib.(black := black), items);
    ZoomIn(m', root, c.up, Plug(d, c.sib.(black := black)), items, c.side);
  }

  lemma PaintGrandparent(m: Mem, root: Ptr, c: Path, t: Shape, items: seq<Item>, black: bool)
    requires Whole(m, root, c, t, items) && c.Step? && c.up.Step?
    ensures c.up.p in m && Whole(Paint(m, c.up.p, black), root, c.(up := c.up.(black := black)), t, items)
  {
    ZoomOut(m, root, c, t, items);
    PaintParent(m, root, c.up, Plug(c, t), items, black);
    ZoomIn(Paint(m, c.up.p, black), root, c.up.(black := black), Plug(c, t), items, c.side);
  }

  lemma PaintUncle(m: Mem, root: Ptr, c: Path, t: Shape, items: seq<Item>, black: bool)
    requires Whole(m, root, c, t, items) && c.Step? && c.up.Step? && c.up.sib.N?
    ensures c.up.sib.p in m
    ensures Whole(Paint(m, c.up.sib.p, black), root, c.(up := c.up.(sib := c.up.sib.(black := black))), t, items)
  {
    ZoomOut(m, root, c, t, items);
    PaintSibling(m, root, c.up, Plug(c, t), items, black);
    ZoomIn(Paint(m, c.up.sib.p, black), root, c.up.(sib := c.up.sib.(black := black)), Plug(c, t), items, c.side);
  }

  lemma PaintSiblingKid(m: Mem, root: Ptr, c: Path, t: Shape, items: seq<Item>, x: Side, black: bool)
    requires Whole(m, root, c, t, items) && c.Step? && c.sib.N? && c.sib.Kid(x).N?
    ensures c.sib.Kid(x).p in m
    ensures Whole(Paint(m, c.sib.Kid(x).p, black), root, c.(sib := WithKidBlack(c.sib, x, black)), t, items)
  {
    hide Whole, Paint;
    var d := Down(c.side.Other(), c.up, Plug(c, t));
    ZoomOut(m, root, c, t, items);
    ZoomIn(m, root, c.up, Plug(c, t), items, c.side.Other());
    var d' := Down(x, d, c.sib);
    ZoomIn(m, root, d, c.sib, items, x);
    var k := c.sib.Kid(x);
    PaintFocus(m, root, d', k, items, black);
    var m' := Paint(m, k.p, black);
    ZoomOut(m', root, d', k.(black := black), items);
    var sib' := WithKidBlack(c.sib, x, black);
    assert Plug(d', k.(black := black)) == sib';
    ZoomOut(m', root, d, sib', items);
    ZoomIn(m', root, c.up, Plug(d, sib'), items, c.side);
  }

  ghost function WithKidBlack(t: Shape, x: Side, black: bool): Shape
    requires t.N? && t.Kid(x).N?
  {
    if x.L? then t.(l := t.l.(black := black)) else t.(r := t.r.(black := black))
  }

  // ---------- Sorted listings ----------

  ghost predicate Sorted(items: seq<Item>) {
    forall i, j :: 0 <= i < j < |items| ==> Less(items[i].ext, items[j].ext)
  }

  lemma SortedInsert(items: seq<Item>, at: nat, it: Item)
    requires Sorted(items) && at <= |items|
    requires forall i :: 0 <= i < at ==> Less(items[i].ext, it.ext)
    requires forall i :: at <= i < |items| ==> Less(it.ext, items[i].ext)
    ensures Sorted(items[..at] + [it] + items[at..])
  {
  }

  // A node's place in the listing, counted from the focus.
  lemma FocusPlace(m: Mem, root: Ptr, c: Path, t: Shape, items: seq<Item>)
    requires Whole(m, root, c, t, items) && t.N?
    ensures var k := |Before(c)| + |Items(t.l)|;
      && k < |items| && items[k] == Item(t.p, t.ext)
      && k + 1 + |Items(t.r)| + |After(c)| == |items|
  {
  }

  // Where a key belongs in a listing: behind the items that are `before` it, ahead of those that are `after` it.
  datatype Place = Place(before: Extent -> bool, after: Extent -> bool)

  // Once an item is after the key all later ones are, and once one is before it all earlier ones are.
  ghost predicate Splits(items: seq<Item>, at: Place) {
    forall i, j :: 0 <= i < j < |items| ==>
      (at.after(items[i].ext) ==> at.after(items[j].ext)) && (at.before(items[j].ext) ==> at.before(items[i].ext))
  }

  // The key belongs into the focus.
  ghost predicate Bracketed(c: Path, t: Shape, items: seq<Item>, at: Place) {
    && |Before(c)| + |Items(t)| <= |items|
    && (forall i :: 0 <= i < |Before(c)| ==> at.before(items[i].ext))
    && (forall i :: |Before(c)| + |Items(t)| <= i < |items| ==> at.after(items[i].ext))
  }

  lemma HoleItems(m: Mem, root: Ptr, c: Path, items: seq<Item>)
    requires Whole(m, root, c, E, items)
    ensures |Before(c)| <= |items| && items[..|Before(c)|] == Before(c) && items[|Before(c)|..] == After(c)
  {
  }

  lemma DownBracketed(m: Mem, root: Ptr, c: Path, t: Shape, items: seq<Item>, at: Place)
    requires Whole(m, root, c, t, items) && t.N? && Splits(items, at) && Bracketed(c, t, items, at)
    ensures at.after(t.ext) ==> Bracketed(Down(L, c, t), t.l, items, at)
    ensures at.before(t.ext) ==> Bracketed(Down(R, c, t), t.r, items, at)
  {
    hide Whole;
    FocusPlace(m, root, c, t, items);
    var k := |Before(c)| + |Items(t.l)|;
    if at.after(t.ext) {
      assert forall i :: k < i < |items| ==> at.after(items[i].ext);
    }
    if at.before(t.ext) {
      assert forall i :: 0 <= i < k ==> at.before(items[i].ext);
    }
  }

  // The place of a key that compares less than exactly those keys that it goes left of.
  function PlaceBy(goesLeft: Extent -> bool): Place { Place(e => !goesLeft(e), goesLeft) }

  // The place of an extent in the order of the interval tree.
  function PlaceOf(ext: Extent): Place { Place(e => Less(e, ext), e => Less(ext, e)) }

  lemma SortedSplits(items: seq<Item>, ext: Extent)
    requires Sorted(items)
    ensures Splits(items, PlaceOf(ext))
  {
  }

  lemma {:induction false} DistinctItems(t: Shape)
    requires NoDup(t)
    ensures forall i, j :: 0 <= i < j < |Items(t)| ==> Items(t)[i].p != Items(t)[j].p
  {
    if t.N? {
      DistinctItems(t.l);
      DistinctItems(t.r);
      PtrsAreItems(t.l);
      PtrsAreItems(t.r);
      assert forall i :: 0 <= i < |Items(t.l)| ==> Items(t.l)[i].p in Ptrs(t.l);
      assert forall i :: 0 <= i < |Items(t.r)| ==> Items(t.r)[i].p in Ptrs(t.r);
    }
  }

  // ---------- Hanging a new leaf into an empty hole ----------

  ghost function HangLeaf(m: Mem, c: Path, node: Ptr, r: Rec): Mem {
    var m1 := m[node := r];
    if c.Step? && c.p in m1 then m1[c.p := m1[c.p].WithKid(c.side, node)] else m1
  }

  lemma HangLeafLinks(m: Mem, root: Ptr, c: Path, items: seq<Item>, node: Ptr, r: Rec)
    requires Whole(m, root, c, E, items) && node != NULL && node !in m
    requires r == Rec(NULL, NULL, c.Parent(), false, r.maxHigh, r.ext)
    ensures Rep(HangLeaf(m, c, node, r), N(node, false, r.ext, E, E), c.Parent())
    ensures RepPath(HangLeaf(m, c, node, r), c, node, if c.Top? then node else root)
    ensures HangLeaf(m, c, node, r).Keys == m.Keys + {node}
  {
    var m' := HangLeaf(m, c, node, r);
    NullOutsidePath(m, c, NULL, root);
    assert SameBut(m, m', {c.Parent()});
    if c.Step? {
      RepFrame(m, m', c.sib, c.p, {c.p});
      RepPathFrame(m, m', c.up, c.p, root, {c.p});
    }
  }

  lemma HangLeafWhole(m: Mem, root: Ptr, c: Path, items: seq<Item>, node: Ptr, r: Rec)
    requires Whole(m, root, c, E, items) && node != NULL && node !in m
    requires r == Rec(NULL, NULL, c.Parent(), false, r.maxHigh, r.ext)
    ensures Whole(HangLeaf(m, c, node, r), if c.Top? then node else root, c, N(node, false, r.ext, E, E),
                  Before(c) + [Item(node, r.ext)] + After(c))
  {
    hide Rep, RepPath, HangLeaf, PathNoDup;
    HangLeafLinks(m, root, c, items, node, r);
  }
}
