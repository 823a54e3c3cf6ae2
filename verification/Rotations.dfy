/** What the pointer surgery of the tree code does to memory, and to the shape it represents. */
module Rotations {
  import opened Words
  import opened Shapes

  // ---------- Memory images of the link updates ----------

  // if (child) child->parent = parent
  ghost function Adopt(m: Mem, child: Ptr, parent: Ptr): Mem {
    if child in m then m[child := m[child].(parent := parent)] else m
  }

  // The link above the hole of c now leads to `to`; RelinkRoot is the root pointer afterwards.
  ghost function Relink(m: Mem, c: Path, to: Ptr): Mem {
    if c.Step? && c.p in m then m[c.p := m[c.p].WithKid(c.side, to)] else m
  }

  ghost function RelinkRoot(root: Ptr, c: Path, to: Ptr): Ptr { if c.Top? then to else root }

  ghost function MaxHighOr0(m: Mem, q: Ptr): u64 { if q in m then m[q].maxHigh else 0 }

  // What max_high of a node is recomputed to from its own end and its children.
  ghost function MaxHighFrom(m: Mem, end: u64, left: Ptr, right: Ptr): (high: u64)
    ensures high >= end && high >= MaxHighOr0(m, left) && high >= MaxHighOr0(m, right)
    ensures high == end || high == MaxHighOr0(m, left) || high == MaxHighOr0(m, right)
  {
    Max(end, Max(MaxHighOr0(m, left), MaxHighOr0(m, right)))
  }

  // The links that the rotation at x towards side s changes, x being at the hole of c.
  ghost function Turn(m: Mem, s: Side, x: Ptr, c: Path): (m': Mem)
    requires x in m && m[x].Kid(s.Other()) in m
    ensures m'.Keys == m.Keys
  {
    var y := m[x].Kid(s.Other());
    var b := m[y].Kid(s);
    var m1 := Adopt(m[x := m[x].WithKid(s.Other(), b)], b, x);
    var m2 := Relink(m1[y := m1[y].WithKid(s, x).(parent := m[x].parent)], c, y);
    m2[x := m2[x].(parent := y)]
  }

  // The whole rotation, which hands on the bound of x to its child and computes that of x anew.
  ghost function Rotate(m: Mem, s: Side, x: Ptr, c: Path): Mem
    requires x in m && m[x].Kid(s.Other()) in m
  {
    var y := m[x].Kid(s.Other());
    var m3 := Turn(m, s, x, c);
    var m4 := m3[y := m3[y].(maxHigh := m3[x].maxHigh)];
    m4[x := m4[x].(maxHigh := MaxHighFrom(m4, m4[x].ext.end, m4[x].left, m4[x].right))]
  }

  // ---------- The same rotation on shapes ----------

  ghost function Rot(s: Side, t: Shape): Shape
    requires t.N? && t.Kid(s.Other()).N?
  {
    var y := t.Kid(s.Other());
    Mk(s, y.p, y.black, y.ext, Mk(s, t.p, t.black, t.ext, t.Kid(s), y.Kid(s)), y.Kid(s.Other()))
  }

  lemma RotItems(s: Side, t: Shape)
    requires t.N? && t.Kid(s.Other()).N?
    ensures Items(Rot(s, t)) == Items(t)
  {
    var i := [Item(t.p, t.ext)];
    var y := t.Kid(s.Other());
    var j := [Item(y.p, y.ext)];
    if s.L? {
      assert Items(t.l) + i + (Items(y.l) + j + Items(y.r)) == (Items(t.l) + i + Items(y.l)) + j + Items(y.r);
    } else {
      assert (Items(y.l) + j + Items(y.r)) + i + Items(t.r) == Items(y.l) + j + (Items(y.r) + i + Items(t.r));
    }
  }

  lemma RotPtrs(s: Side, t: Shape)
    requires t.N? && t.Kid(s.Other()).N? && NoDup(t)
    ensures Ptrs(Rot(s, t)) == Ptrs(t) && NoDup(Rot(s, t))
  {
    var y := t.Kid(s.Other());
    assert NoDup(y) && Ptrs(y) == {y.p} + Ptrs(y.l) + Ptrs(y.r);
    var x' := Mk(s, t.p, t.black, t.ext, t.Kid(s), y.Kid(s));
    assert NoDup(x') && Ptrs(x') == {t.p} + Ptrs(t.Kid(s)) + Ptrs(y.Kid(s));
  }

  // ---------- Reparented subtrees and relinked paths ----------

  lemma RepAdopted(m: Mem, m': Mem, t: Shape, parent: Ptr, parent': Ptr, k: set<Ptr>)
    requires Rep(m, t, parent) && NoDup(t) && SameBut(m, m', k) && Ptrs(t) * k <= {t.Root()}
    requires t.N? ==> t.p in m' && Bare(m'[t.p]) == Bare(m[t.p].(parent := parent'))
    ensures Rep(m', t, parent')
  {
    if t.N? {
      RepFrame(m, m', t.l, t.p, k);
      RepFrame(m, m', t.r, t.p, k);
    }
  }

  lemma RepPathRelinked(m: Mem, m': Mem, c: Path, hole: Ptr, root: Ptr, hole': Ptr, k: set<Ptr>)
    requires RepPath(m, c, hole, root) && PathNoDup(c) && SameBut(m, m', k) && PathPtrs(c) * k <= {c.Parent()}
    requires c.Step? ==> c.p in m' && c.p in m && Bare(m'[c.p]) == Bare(m[c.p].WithKid(c.side, hole'))
    ensures RepPath(m', c, hole', RelinkRoot(root, c, hole'))
  {
    if c.Step? {
      RepFrame(m, m', c.sib, c.p, k);
      RepPathFrame(m, m', c.up, c.p, root, k);
    }
  }

  // ---------- A rotation keeps the tree whole ----------

  ghost function RotKeys(s: Side, c: Path, t: Shape): set<Ptr>
    requires t.N? && t.Kid(s.Other()).N?
  {
    {t.p, t.Kid(s.Other()).p, t.Kid(s.Other()).Kid(s).Root(), c.Parent()}
  }

  lemma RotApart(m: Mem, root: Ptr, s: Side, c: Path, t: Shape, items: seq<Item>)
    requires Whole(m, root, c, t, items) && t.N? && t.Kid(s.Other()).N?
    ensures var y := t.Kid(s.Other()); var k := RotKeys(s, c, t);
      && Rep(m, y, t.p) && NoDup(y) && NoDup(y.Kid(s))
      && Ptrs(t.Kid(s)) !! k && Ptrs(y.Kid(s.Other())) !! k
      && Ptrs(y.Kid(s)) * k <= {y.Kid(s).Root()}
      && PathPtrs(c) * k <= {c.Parent()}
  {
    var y := t.Kid(s.Other());
    NullOutside(m, t, c.Parent());
    NullOutsidePath(m, c, t.p, root);
    assert NoDup(y) && Ptrs(y) == {y.p} + Ptrs(y.l) + Ptrs(y.r);
    assert y.Kid(s).N? ==> y.Kid(s).p in Ptrs(y.Kid(s));
    assert c.Step? ==> c.p in PathPtrs(c);
  }

  // The pointers a rotation touches are in memory and distinct.
  lemma RotFacts(m: Mem, root: Ptr, s: Side, c: Path, t: Shape, items: seq<Item>)
    requires Whole(m, root, c, t, items) && t.N? && t.Kid(s.Other()).N?
    ensures var y := t.Kid(s.Other()); var b := y.Kid(s);
      && Holds(m, t.p, t.black, t.ext, t.l.Root(), t.r.Root(), c.Parent())
      && Holds(m, y.p, y.black, y.ext, y.l.Root(), y.r.Root(), t.p)
      && t.p != y.p && (b.N? ==> b.p in m && b.p != t.p && b.p != y.p)
      && (b.E? ==> b.Root() !in m)
      && (c.Step? ==> c.p in m && c.p != t.p && c.p != y.p && c.p != b.Root())
  {
    var y := t.Kid(s.Other());
    RotApart(m, root, s, c, t, items);
    NullOutside(m, t, c.Parent());
    NullOutsidePath(m, c, t.p, root);
    assert Rep(m, y.Kid(s), y.p);
    assert y.Kid(s).N? ==> y.Kid(s).p in Ptrs(y.Kid(s));
    assert c.Step? ==> c.p in PathPtrs(c);
  }

  // The records after a rotation at x that lifts y and hands y's inner child b over to x.
  ghost predicate Pivoted(m: Mem, m': Mem, s: Side, x: Ptr, y: Ptr, b: Ptr, c: Path) {
    && m'.Keys == m.Keys && x in m && y in m
    && m'[x] == m[x].WithKid(s.Other(), b).(parent := y, maxHigh := MaxHighFrom(m, m[x].ext.end, m[x].Kid(s), b))
    && m'[y] == m[y].WithKid(s, x).(parent := c.Parent(), maxHigh := m[x].maxHigh)
    && (b in m ==> m'[b] == m[b].(parent := x))
    && (c.Step? ==> c.p in m && m'[c.p] == m[c.p].WithKid(c.side, y))
    && (forall q {:trigger m'[q]} :: q in m && q != x && q != y && q != b && q != c.Parent() ==> m'[q] == m[q])
  }

  // What a rotation at x touches is in memory and distinct.
  ghost predicate Pivotal(m: Mem, s: Side, x: Ptr, c: Path) {
    && NULL !in m && x in m && m[x].Kid(s.Other()) in m && m[x].parent == c.Parent()
    && var y := m[x].Kid(s.Other()); var b := m[y].Kid(s);
    && x != y && b != x && b != y && (c.Step? ==> c.p in m && c.p != x && c.p != y && c.p != b)
    && m[x].Kid(s) != x && m[x].Kid(s) != y
  }

  lemma TurnPivots(m: Mem, s: Side, x: Ptr, c: Path)
    requires Pivotal(m, s, x, c)
    ensures var y := m[x].Kid(s.Other()); var b := m[y].Kid(s); var m' := Turn(m, s, x, c);
      && m'[x] == m[x].WithKid(s.Other(), b).(parent := y) && m'[y] == m[y].WithKid(s, x).(parent := c.Parent())
      && (b in m ==> m'[b] == m[b].(parent := x)) && (c.Step? ==> m'[c.p] == m[c.p].WithKid(c.side, y))
      && (forall q {:trigger m'[q]} :: q in m && q != x && q != y && q != b && q != c.Parent() ==> m'[q] == m[q])
  {
  }

  lemma RotatePivots(m: Mem, s: Side, x: Ptr, c: Path)
    requires Pivotal(m, s, x, c)
    ensures Pivoted(m, Rotate(m, s, x, c), s, x, m[x].Kid(s.Other()), m[m[x].Kid(s.Other())].Kid(s), c)
  {
    hide Turn;
    TurnPivots(m, s, x, c);
  }

  lemma RotatePivoted(m: Mem, root: Ptr, s: Side, c: Path, t: Shape, items: seq<Item>)
    requires Whole(m, root, c, t, items) && t.N? && t.Kid(s.Other()).N?
    ensures t.p in m && m[t.p].Kid(s.Other()) in m
    ensures Pivoted(m, Rotate(m, s, t.p, c), s, t.p, t.Kid(s.Other()).p, t.Kid(s.Other()).Kid(s).Root(), c)
  {
    RotFacts(m, root, s, c, t, items);
    FocusFacts(m, root, c, t, items);
    assert t.Kid(s).N? ==> t.Kid(s).p in Ptrs(t.Kid(s));
    RotatePivots(m, s, t.p, c);
  }

  lemma PivotedRep(m: Mem, m': Mem, root: Ptr, s: Side, c: Path, t: Shape, items: seq<Item>)
    requires Whole(m, root, c, t, items) && t.N? && t.Kid(s.Other()).N?
    requires Pivoted(m, m', s, t.p, t.Kid(s.Other()).p, t.Kid(s.Other()).Kid(s).Root(), c)
    ensures Rep(m', Rot(s, t), c.Parent())
  {
    RotApart(m, root, s, c, t, items);
    RotFacts(m, root, s, c, t, items);
    var k := RotKeys(s, c, t);
    var y := t.Kid(s.Other());
    RepFrame(m, m', t.Kid(s), t.p, k);
    RepAdopted(m, m', y.Kid(s), y.p, t.p, k);
    RepFrame(m, m', y.Kid(s.Other()), y.p, k);
    assert Rep(m', Mk(s, t.p, t.black, t.ext, t.Kid(s), y.Kid(s)), y.p);
  }

  lemma PivotedWhole(m: Mem, m': Mem, root: Ptr, s: Side, c: Path, t: Shape, items: seq<Item>)
    requires Whole(m, root, c, t, items) && t.N? && t.Kid(s.Other()).N?
    requires Pivoted(m, m', s, t.p, t.Kid(s.Other()).p, t.Kid(s.Other()).Kid(s).Root(), c)
    ensures Whole(m', RelinkRoot(root, c, t.Kid(s.Other()).p), c, Rot(s, t), items)
  {
    PivotedRep(m, m', root, s, c, t, items);
    RotApart(m, root, s, c, t, items);
    RepPathRelinked(m, m', c, t.p, root, t.Kid(s.Other()).p, RotKeys(s, c, t));
    RotPtrs(s, t);
    RotItems(s, t);
  }
}
