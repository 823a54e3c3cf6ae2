/** Taking a node out of the linked tree: unlinking a node with at most one child, and letting the
  * successor take the place of a node with two. */
module Deletion {
  import opened Words
  import opened Shapes
  import opened Rotations
  import opened MaxHigh
  import opened Balance

  ghost function RemoveAt<T>(s: seq<T>, i: int): seq<T>
    requires 0 <= i < |s|
  {
    s[..i] + s[i + 1..]
  }

  // ---------- Unlinking a node with at most one child ----------

  ghost function OnlyChild(t: Shape): Shape
    requires t.N?
  {
    if t.l.E? then t.r else t.l
  }

  ghost function Unlink(m: Mem, c: Path, node: Ptr, child: Ptr): Mem {
    Relink(Adopt(m, child, c.Parent()), c, child) - {node}
  }

  // The records after x, at the hole of c, has given way to its only child k.
  ghost predicate Unlinked(m: Mem, m': Mem, c: Path, x: Ptr, k: Ptr) {
    && m'.Keys == m.Keys - {x}
    && (k in m ==> k != x && m'[k] == m[k].(parent := c.Parent()))
    && (c.Step? ==> c.p in m' && c.p in m && m'[c.p] == m[c.p].WithKid(c.side, k))
    && (forall q {:trigger m'[q]} :: q in m && q != x && q != k && q != c.Parent() ==> m'[q] == m[q])
  }

  lemma UnlinkFacts(m: Mem, root: Ptr, c: Path, t: Shape, items: seq<Item>)
    requires Whole(m, root, c, t, items) && t.N? && (t.l.E? || t.r.E?)
    ensures Unlinked(m, Unlink(m, c, t.p, OnlyChild(t).Root()), c, t.p, OnlyChild(t).Root())
    ensures OnlyChild(t).Root() != t.p && OnlyChild(t).Root() !in PathPtrs(c) && Ptrs(OnlyChild(t)) <= Ptrs(t) - {t.p}
    ensures NoDup(OnlyChild(t)) && Rep(m, OnlyChild(t), t.p)
    ensures t.p !in PathPtrs(c) && (c.Step? ==> c.p in PathPtrs(c) && c.p !in Ptrs(t)) && NULL !in m
  {
    var k := OnlyChild(t);
    NullOutside(m, t, c.Parent());
    NullOutsidePath(m, c, t.p, root);
    assert k.N? ==> k.p in Ptrs(k);
    assert c.Step? ==> c.p in PathPtrs(c);
  }

  lemma UnlinkRep(m: Mem, m': Mem, root: Ptr, c: Path, t: Shape, items: seq<Item>)
    requires Whole(m, root, c, t, items) && t.N? && (t.l.E? || t.r.E?)
    requires Unlinked(m, m', c, t.p, OnlyChild(t).Root())
    ensures var k := OnlyChild(t); Rep(m', k, c.Parent()) && RepPath(m', c, k.Root(), RelinkRoot(root, c, k.Root()))
  {
    var k := OnlyChild(t);
    UnlinkFacts(m, root, c, t, items);
    NullOutsidePath(m, c, t.p, root);
    NullOutside(m, k, t.p);
    var ks := {t.p, k.Root(), c.Parent()};
    RepAdopted(m, m', k, t.p, c.Parent(), ks);
    RepPathRelinked(m, m', c, t.p, root, k.Root(), ks);
  }

  lemma CutMiddle<T>(a: seq<T>, b: seq<T>, x: T, d: seq<T>, e: seq<T>)
    ensures RemoveAt(a + (b + [x] + d) + e, |a| + |b|) == a + (b + d) + e
  {
    var s := a + (b + [x] + d) + e;
    assert s[..|a| + |b|] == a + b;
    assert s[|a| + |b| + 1..] == d + e;
  }

  lemma UnlinkItems(c: Path, t: Shape)
    requires t.N? && (t.l.E? || t.r.E?)
    ensures RemoveAt(Before(c) + Items(t) + After(c), |Before(c)| + |Items(t.l)|)
         == Before(c) + Items(OnlyChild(t)) + After(c)
  {
    CutMiddle(Before(c), Items(t.l), Item(t.p, t.ext), Items(t.r), After(c));
    assert Items(t.l) + Items(t.r) == Items(OnlyChild(t));
  }

  lemma UnlinkWhole(m: Mem, root: Ptr, c: Path, t: Shape, items: seq<Item>)
    requires Whole(m, root, c, t, items) && t.N? && (t.l.E? || t.r.E?)
    ensures |Before(c)| + |Items(t.l)| < |items|
    ensures var k := OnlyChild(t);
      Whole(Unlink(m, c, t.p, k.Root()), RelinkRoot(root, c, k.Root()), c, k,
            RemoveAt(items, |Before(c)| + |Items(t.l)|))
  {
    UnlinkFacts(m, root, c, t, items);
    UnlinkRep(m, Unlink(m, c, t.p, OnlyChild(t).Root()), root, c, t, items);
    UnlinkItems(c, t);
    assert Ptrs(t) == {t.p} + Ptrs(OnlyChild(t));
  }

  lemma UnlinkKidMax(m: Mem, m': Mem, c: Path, x: Ptr, k: Ptr, q: Ptr, d: Side)
    requires Unlinked(m, m', c, x, k) && KidsLinked(m, m.Keys) && NULL !in m
    requires x in m && m[x].parent == c.Parent() && MaxHighOr0(m, k) <= m[x].maxHigh
    requires c.Step? ==> m[c.p].Kid(c.side) == x && m[c.p].Kid(c.side.Other()) != x
    requires q in m && q != x && KidMaxAt(m, q, d)
    ensures KidMaxAt(m', q, d)
  {
    var j := m[q].Kid(d);
    if j == x {
      assert c.Step? && q == c.p && d == c.side;
    } else {
      assert m'[q].Kid(d) == if c.Step? && q == c.p && d == c.side then k else j;
    }
  }

  // max_high of the only child is dominated by the node's, so the node's parent keeps its bound.
  lemma UnlinkKeepsMax(m: Mem, root: Ptr, c: Path, t: Shape, items: seq<Item>)
    requires Whole(m, root, c, t, items) && t.N? && (t.l.E? || t.r.E?) && MaxOk(m)
    ensures MaxOk(Unlink(m, c, t.p, OnlyChild(t).Root()))
  {
    var k := OnlyChild(t).Root();
    var m' := Unlink(m, c, t.p, k);
    UnlinkFacts(m, root, c, t, items);
    KidLinks(m, root, c, t, items);
    FocusFacts(m, root, c, t, items);
    assert MaxAt(m, t.p) && KidMaxAt(m, t.p, L) && KidMaxAt(m, t.p, R);
    UnlinkedKeepsMax(m, m', c, t.p, k);
  }

  lemma UnlinkedKeepsMax(m: Mem, m': Mem, c: Path, x: Ptr, k: Ptr)
    requires Unlinked(m, m', c, x, k) && KidsLinked(m, m.Keys) && NULL !in m && MaxOk(m)
    requires x in m && m[x].parent == c.Parent() && MaxHighOr0(m, k) <= m[x].maxHigh
    requires c.Step? ==> m[c.p].Kid(c.side) == x && m[c.p].Kid(c.side.Other()) != x
    ensures MaxOk(m')
  {
    forall q | q in m' ensures MaxAt(m', q) {
      assert MaxAt(m, q);
      UnlinkKidMax(m, m', c, x, k, q, L);
      UnlinkKidMax(m, m', c, x, k, q, R);
    }
  }

  lemma UnlinkKeepsAll(m: Mem, root: Ptr, c: Path, t: Shape, items: seq<Item>)
    requires Whole(m, root, c, t, items) && t.N? && (t.l.E? || t.r.E?) && MaxOk(m)
    ensures var k := OnlyChild(t); var m' := Unlink(m, c, t.p, k.Root()); var i := |Before(c)| + |Items(t.l)|;
      && i < |items|
      && Whole(m', RelinkRoot(root, c, k.Root()), c, k, RemoveAt(items, i))
      && MaxOk(m') && m'.Keys == m.Keys - {t.p}
      && forall q {:trigger m'[q]} :: q in m' ==> m'[q].maxHigh == m[q].maxHigh
    ensures OnlyChild(t).Root() != NULL ==> OnlyChild(t).Root() in m
    ensures NULL !in m
    ensures (c.Step? ==> c.p in m && c.p != NULL && c.p != OnlyChild(t).Root() && (m[c.p].left == t.p <==> c.side.L?))
  {
    hide Whole, MaxOk, RemoveAt;
    FocusFacts(m, root, c, t, items);
    UnlinkFacts(m, root, c, t, items);
    UnlinkWhole(m, root, c, t, items);
    UnlinkKeepsMax(m, root, c, t, items);
  }

  // Losing a red node changes no black height; losing a black one leaves the hole one short.
  lemma UnlinkBalance(c: Path, t: Shape)
    requires Balanced(c, t) && t.N? && (t.l.E? || t.r.E?)
    ensures t.black ==> Short(c, OnlyChild(t))
    ensures !t.black ==> Balanced(c, OnlyChild(t))
  {
    assert Calm(OnlyChild(t)) && Even(OnlyChild(t));
  }

  // ---------- Replacing a node by another one ----------

  ghost function Replace(m: Mem, c: Path, x: Ptr, y: Ptr, maxHigh: u64, ext: Extent): Mem
    requires x in m
  {
    var m1 := m[y := m[x].(maxHigh := maxHigh, ext := ext)];
    Adopt(Adopt(Relink(m1, c, y), m[x].left, y), m[x].right, y) - {x}
  }

  // The records after y has taken the place of x, whose children are l and r.
  ghost predicate Replaced(m: Mem, m': Mem, c: Path, x: Ptr, l: Ptr, r: Ptr, y: Ptr, maxHigh: u64, ext: Extent) {
    && x in m && m'.Keys == m.Keys - {x} + {y} && x != y && y in m'
    && m'[y] == m[x].(maxHigh := maxHigh, ext := ext)
    && (l in m ==> l in m' && m'[l] == m[l].(parent := y))
    && (r in m ==> r in m' && m'[r] == m[r].(parent := y))
    && (c.Step? ==> c.p in m' && c.p in m && m'[c.p] == m[c.p].WithKid(c.side, y))
    && (forall q {:trigger m'[q]} :: q in m && q != x && q != l && q != r && q != c.Parent() ==>
          q in m' && m'[q] == m[q])
  }

  lemma ReplaceFacts(m: Mem, root: Ptr, c: Path, t: Shape, items: seq<Item>, y: Ptr, maxHigh: u64, ext: Extent)
    requires Whole(m, root, c, t, items) && t.N? && y !in m && y != NULL
    ensures t.p in m && NULL !in m
    ensures Replaced(m, Replace(m, c, t.p, y, maxHigh, ext), c, t.p, t.l.Root(), t.r.Root(), y, maxHigh, ext)
  {
    NullOutside(m, t, c.Parent());
    NullOutsidePath(m, c, t.p, root);
    assert t.l.N? ==> t.l.p in Ptrs(t.l);
    assert t.r.N? ==> t.r.p in Ptrs(t.r);
    assert c.Step? ==> c.p in PathPtrs(c);
  }

  lemma ReplacedRep(m: Mem, m': Mem, root: Ptr, c: Path, t: Shape, items: seq<Item>, y: Ptr, maxHigh: u64, ext: Extent)
    requires Whole(m, root, c, t, items) && t.N? && y !in m && y != NULL
    requires Replaced(m, m', c, t.p, t.l.Root(), t.r.Root(), y, maxHigh, ext)
    ensures Rep(m', t.(p := y, ext := ext), c.Parent()) && RepPath(m', c, y, RelinkRoot(root, c, y))
  {
    NullOutside(m, t, c.Parent());
    NullOutsidePath(m, c, t.p, root);
    assert t.l.N? ==> t.l.p in Ptrs(t.l);
    assert t.r.N? ==> t.r.p in Ptrs(t.r);
    assert c.Step? ==> c.p in PathPtrs(c);
    var ks := {t.p, t.l.Root(), t.r.Root(), c.Parent()};
    RepAdopted(m, m', t.l, t.p, y, ks);
    RepAdopted(m, m', t.r, t.p, y, ks);
    RepPathRelinked(m, m', c, t.p, root, y, ks);
  }

  lemma ReplaceItem(a: seq<Item>, b: seq<Item>, x: Item, y: Item, d: seq<Item>, e: seq<Item>)
    ensures (a + (b + [x] + d) + e)[|a| + |b| := y] == a + (b + [y] + d) + e
  {
  }

  lemma ReplaceWhole(m: Mem, root: Ptr, c: Path, t: Shape, items: seq<Item>, y: Ptr, maxHigh: u64, ext: Extent)
    requires Whole(m, root, c, t, items) && t.N? && y !in m && y != NULL
    ensures t.p in m && |Before(c)| + |Items(t.l)| < |items|
    ensures Whole(Replace(m, c, t.p, y, maxHigh, ext), RelinkRoot(root, c, y), c, t.(p := y, ext := ext),
                  items[|Before(c)| + |Items(t.l)| := Item(y, ext)])
  {
    hide Replace, RelinkRoot, RepPath, Replaced;
    ReplaceFacts(m, root, c, t, items, y, maxHigh, ext);
    ReplacedRep(m, Replace(m, c, t.p, y, maxHigh, ext), root, c, t, items, y, maxHigh, ext);
    ReplaceItem(Before(c), Items(t.l), Item(t.p, t.ext), Item(y, ext), Items(t.r), After(c));
  }

  // ---------- The same replacement seen from deeper in the tree ----------

  ghost predicate OnPath(c: Path, x: Ptr) { c.Step? && (c.p == x || OnPath(c.up, x)) }

  lemma {:induction false} OnPathIn(c: Path, x: Ptr)
    requires OnPath(c, x)
    ensures x in PathPtrs(c)
  {
    if c.p != x {
      OnPathIn(c.up, x);
    }
  }

  // Zooming out of c around t until node x is the root of the focus.
  ghost function Above(c: Path, x: Ptr): Path
    requires OnPath(c, x)
  {
    if c.p == x then c.up else Above(c.up, x)
  }
  ghost function PlugTo(c: Path, t: Shape, x: Ptr): (r: Shape)
    requires OnPath(c, x)
    ensures r.N? && r.p == x
    decreases c
  {
    if c.p == x then Plug(c, t) else PlugTo(c.up, Plug(c, t), x)
  }

  // The step of c at node x.
  ghost function StepAt(c: Path, x: Ptr): (r: Path)
    requires OnPath(c, x)
    ensures r.Step? && r.p == x
  {
    if c.p == x then c else StepAt(c.up, x)
  }

  lemma {:induction false} PlugToSibling(c: Path, t: Shape, x: Ptr)
    requires OnPath(c, x)
    ensures PlugTo(c, t, x).Kid(StepAt(c, x).side.Other()) == StepAt(c, x).sib
    ensures Ptrs(t) <= Ptrs(PlugTo(c, t, x))
    decreases c
  {
    if c.p != x {
      PlugToSibling(c.up, Plug(c, t), x);
    }
  }

  ghost function Substitute(c: Path, x: Ptr, y: Ptr, ext: Extent): Path {
    if c.Top? then Top else if c.p == x then c.(p := y, ext := ext) else c.(up := Substitute(c.up, x, y, ext))
  }

  lemma {:induction false} ZoomOutTo(m: Mem, root: Ptr, c: Path, t: Shape, items: seq<Item>, x: Ptr)
    requires Whole(m, root, c, t, items) && OnPath(c, x)
    ensures Whole(m, root, Above(c, x), PlugTo(c, t, x), items)
    ensures PlugTo(c, t, x).N? && PlugTo(c, t, x).p == x
    decreases c
  {
    ZoomOut(m, root, c, t, items);
    if c.p != x {
      ZoomOutTo(m, root, c.up, Plug(c, t), items, x);
    }
  }

  lemma {:induction false} ZoomBackIn(m: Mem, root: Ptr, c: Path, t: Shape, items: seq<Item>, x: Ptr)
    requires OnPath(c, x) && Whole(m, root, Above(c, x), PlugTo(c, t, x), items)
    ensures Whole(m, root, c, t, items)
    decreases c
  {
    if c.p != x {
      ZoomBackIn(m, root, c.up, Plug(c, t), items, x);
    }
    ZoomIn(m, root, c.up, Plug(c, t), items, c.side);
  }

  lemma {:induction false} SubstituteSeenAbove(c: Path, t: Shape, x: Ptr, y: Ptr, ext: Extent)
    requires OnPath(c, x) && y !in PathPtrs(c)
    ensures var d := Substitute(c, x, y, ext);
      && OnPath(d, y) && Above(d, y) == Above(c, x) && PlugTo(d, t, y) == PlugTo(c, t, x).(p := y, ext := ext)
    decreases c
  {
    if c.p != x {
      SubstituteSeenAbove(c.up, Plug(c, t), x, y, ext);
    }
  }

  lemma {:induction false} SubstituteBalance(c: Path, x: Ptr, y: Ptr, ext: Extent, h: nat)
    ensures var d := Substitute(c, x, y, ext);
      && PathEven(d, h) == PathEven(c, h) && PathCalm(d) == PathCalm(c) && RootBlack(d) == RootBlack(c)
      && d.Top? == c.Top? && (c.Step? ==> d.black == c.black)
  {
    if c.Step? {
      SubstituteBalance(c.up, x, y, ext, h + One(c.black));
    }
  }

  // ---------- max_high around a replacement ----------

  lemma {:induction false} PathMax(m: Mem, root: Ptr, c: Path, t: Shape, items: seq<Item>, x: Ptr)
    requires Whole(m, root, c, t, items) && MaxOk(m) && OnPath(c, x)
    ensures x in m && MaxHighOr0(m, t.Root()) <= m[x].maxHigh
    decreases c
  {
    FocusFacts(m, root, c, t, items);
    assert MaxAt(m, c.p) && KidMaxAt(m, c.p, c.side);
    if c.p != x {
      ZoomOut(m, root, c, t, items);
      PathMax(m, root, c.up, Plug(c, t), items, x);
    }
  }

  lemma SuccessorMax(m: Mem, root: Ptr, c: Path, t: Shape, items: seq<Item>, x: Ptr)
    requires Whole(m, root, c, t, items) && MaxOk(m) && OnPath(c, x) && t.N?
    ensures x in m && t.p in m && m[t.p].ext.end <= m[t.p].maxHigh <= m[x].maxHigh
  {
    hide Whole;
    FocusFacts(m, root, c, t, items);
    PathMax(m, root, c, t, items, x);
    assert MaxAt(m, t.p);
  }

  // max_high of x may be too small; `bound` lies between what is below x and x's parent.
  ghost predicate LooseAt(m: Mem, x: Ptr, bound: u64) {
    && x in m && m[x].ext.end <= bound && m[x].maxHigh <= bound
    && MaxHighOr0(m, m[x].left) <= bound && MaxHighOr0(m, m[x].right) <= bound
    && (m[x].parent in m ==> bound <= m[m[x].parent].maxHigh)
  }

  ghost predicate MaxBut(m: Mem, x: Ptr, bound: u64) {
    LooseAt(m, x, bound) && forall q {:trigger MaxAt(m, q)} :: q in m && q != x ==> MaxAt(m, q)
  }

  lemma ReplacedKidMax(m: Mem, m': Mem, c: Path, x: Ptr, y: Ptr, maxHigh: u64, ext: Extent, q: Ptr, d: Side)
    requires x in m && Replaced(m, m', c, x, m[x].left, m[x].right, y, maxHigh, ext)
    requires KidsLinked(m, m.Keys) && NULL !in m && y !in m && y != NULL && m[x].parent == c.Parent()
    requires c.Step? ==> m[c.p].Kid(c.side) == x && m[c.p].Kid(c.side.Other()) != x
    requires q in m && q != x && KidMaxAt(m, q, d) && maxHigh <= m[x].maxHigh
    ensures q in m' && KidMaxAt(m', q, d)
  {
    var j := m[q].Kid(d);
    if j == x {
      assert c.Step? && q == c.p && d == c.side;
    } else {
      assert m'[q].Kid(d) == j;
    }
  }

  lemma ReplacedMaxBut(m: Mem, m': Mem, c: Path, x: Ptr, y: Ptr, maxHigh: u64, ext: Extent)
    requires x in m && Replaced(m, m', c, x, m[x].left, m[x].right, y, maxHigh, ext)
    requires KidsLinked(m, m.Keys) && NULL !in m && y !in m && y != NULL && m[x].parent == c.Parent() && MaxOk(m)
    requires c.Step? ==> m[c.p].Kid(c.side) == x && m[c.p].Kid(c.side.Other()) != x
    requires m[x].left != x && m[x].right != x && c.Parent() != x
    requires ext.end <= maxHigh <= m[x].maxHigh
    ensures MaxBut(m', y, m[x].maxHigh)
  {
    assert MaxAt(m, x) && KidMaxAt(m, x, L) && KidMaxAt(m, x, R);
    if c.Step? {
      assert MaxAt(m, c.p) && KidMaxAt(m, c.p, c.side);
    }
    forall q | q in m' && q != y ensures MaxAt(m', q) {
      assert MaxAt(m, q) && KidMaxAt(m, q, L) && KidMaxAt(m, q, R);
      ReplacedKidMax(m, m', c, x, y, maxHigh, ext, q, L);
      ReplacedKidMax(m, m', c, x, y, maxHigh, ext, q, R);
    }
  }

  // One step of update_maxhigh.
  ghost function Recompute(m: Mem, q: Ptr): Mem
    requires q in m
  {
    m[q := m[q].(maxHigh := MaxHighFrom(m, m[q].ext.end, m[q].left, m[q].right))]
  }

  lemma RecomputeKeepsMax(m: Mem, q: Ptr)
    requires q in m && MaxOk(m)
    ensures MaxOk(Recompute(m, q))
  {
    var m' := Recompute(m, q);
    assert MaxAt(m, q) && KidMaxAt(m, q, L) && KidMaxAt(m, q, R);
    forall x | x in m' ensures MaxAt(m', x) {
      assert MaxAt(m, x) && KidMaxAt(m, x, L) && KidMaxAt(m, x, R);
    }
  }

  lemma RecomputeTightens(m: Mem, x: Ptr, bound: u64)
    requires MaxBut(m, x, bound) && KidsLinked(m, m.Keys) && NULL !in m && m[x].left != x && m[x].right != x
    ensures MaxOk(Recompute(m, x))
  {
    var m' := Recompute(m, x);
    forall q | q in m' ensures MaxAt(m', q) {
      if q != x {
        assert MaxAt(m, q) && KidMaxAt(m, q, L) && KidMaxAt(m, q, R);
        assert m[q].Kid(L) == x ==> m[x].parent == q;
        assert m[q].Kid(R) == x ==> m[x].parent == q;
      }
    }
  }

  lemma RecomputeBelow(m: Mem, q: Ptr, x: Ptr, bound: u64)
    requires MaxBut(m, x, bound) && q in m && q != x && q != m[x].parent
    ensures MaxBut(Recompute(m, q), x, bound)
  {
    var m' := Recompute(m, q);
    assert MaxAt(m, q) && KidMaxAt(m, q, L) && KidMaxAt(m, q, R);
    forall z | z in m' && z != x ensures MaxAt(m', z) {
      assert MaxAt(m, z) && KidMaxAt(m, z, L) && KidMaxAt(m, z, R);
    }
  }

  // Climbing from inside a subtree stays inside until its root is reached.
  lemma {:induction false} ParentInside(m: Mem, t: Shape, parent: Ptr, q: Ptr)
    requires Rep(m, t, parent) && q in Ptrs(t)
    ensures q in m && (if q == t.p then m[q].parent == parent else m[q].parent in Ptrs(t))
    ensures m[q].parent == parent || m[q].parent in Ptrs(t)
  {
    if q != t.p {
      if q in Ptrs(t.l) {
        ParentInside(m, t.l, t.p, q);
      } else {
        ParentInside(m, t.r, t.p, q);
      }
    }
  }

  lemma RemovePredecessor<T>(s: seq<T>, k: int)
    requires 1 <= k < |s|
    ensures RemoveAt(s, k)[k - 1 := s[k]] == RemoveAt(s, k - 1)
  {
  }

  // Everything about letting y take the place of x, seen from x.
  lemma ReplaceKeepsAll(m: Mem, root: Ptr, c: Path, t: Shape, items: seq<Item>, y: Ptr, maxHigh: u64, ext: Extent)
    requires Whole(m, root, c, t, items) && MaxOk(m) && t.N? && y !in m && y != NULL
    requires t.p in m && ext.end <= maxHigh <= m[t.p].maxHigh
    ensures var i := |Before(c)| + |Items(t.l)|; var m' := Replace(m, c, t.p, y, maxHigh, ext);
      && i < |items|
      && Whole(m', RelinkRoot(root, c, y), c, t.(p := y, ext := ext), items[i := Item(y, ext)])
      && MaxBut(m', y, m[t.p].maxHigh)
  {
    ReplaceWhole(m, root, c, t, items, y, maxHigh, ext);
    ReplaceFacts(m, root, c, t, items, y, maxHigh, ext);
    FocusFacts(m, root, c, t, items);
    KidLinks(m, root, c, t, items);
    KidsOf(m, root, c, t, items);
    ReplacedMaxBut(m, Replace(m, c, t.p, y, maxHigh, ext), c, t.p, y, maxHigh, ext);
  }

  // The focus at node q of the subtree t.
  lemma {:induction false} FocusWithin(m: Mem, root: Ptr, c: Path, t: Shape, items: seq<Item>, q: Ptr)
    returns (c': Path, t': Shape)
    requires Whole(m, root, c, t, items) && q in Ptrs(t)
    ensures Whole(m, root, c', t', items) && t'.N? && t'.p == q
    decreases t
  {
    if q == t.p {
      c', t' := c, t;
    } else {
      var s := if q in Ptrs(t.l) then L else R;
      ZoomIn(m, root, c, t, items, s);
      c', t' := FocusWithin(m, root, Down(s, c, t), t.Kid(s), items, q);
    }
  }

  // One step of update_maxhigh at node q, for a tree that is in order or loose only at the root of the focus t.
  lemma UpdateStep(m: Mem, root: Ptr, c: Path, t: Shape, items: seq<Item>, q: Ptr, bound: u64)
    requires Whole(m, root, c, t, items) && q in m
    requires MaxOk(m) || (t.N? && MaxBut(m, t.p, bound) && q in Ptrs(t))
    ensures var m' := Recompute(m, q);
      && Whole(m', root, c, t, items) && (MaxOk(m) ==> MaxOk(m'))
      && (MaxOk(m') || (t.N? && MaxBut(m', t.p, bound) && q != t.p && m[q].parent in Ptrs(t)))
  {
    var m' := Recompute(m, q);
    WholeIgnoresMaxHigh(m, m', root, c, t, items);
    if MaxOk(m) {
      RecomputeKeepsMax(m, q);
    } else {
      FocusFacts(m, root, c, t, items);
      KidLinks(m, root, c, t, items);
      ParentInside(m, t, c.Parent(), q);
      assert t.l.N? ==> t.l.p in Ptrs(t.l);
      assert t.r.N? ==> t.r.p in Ptrs(t.r);
      assert c.Step? ==> c.p in PathPtrs(c);
      if q == t.p {
        RecomputeTightens(m, q, bound);
      } else {
        RecomputeBelow(m, q, t.p, bound);
      }
    }
  }
}
