/** When max_high is exact: the bound of a node is the greatest end in its subtree. */
module Highest {
  import opened Words
  import opened Shapes
  import opened Rotations
  import opened Balance
  import opened Deletion

  // The greatest end in a subtree, 0 for an empty one.
  ghost function HighEnd(t: Shape): u64 {
    if t.E? then 0 else Max(t.ext.end, Max(HighEnd(t.l), HighEnd(t.r)))
  }

  // The same for the subtree at the node above the hole, when the hole is filled by one with greatest end h.
  ghost function Reach(c: Path, h: u64): u64
    requires c.Step?
  {
    Max(c.ext.end, Max(HighEnd(c.sib), h))
  }

  /** HighEnd is what its name says. */
  lemma {:induction false} HighEndIsGreatest(t: Shape)
    requires t.N?
    ensures forall i :: i in Items(t) ==> i.ext.end <= HighEnd(t)
    ensures exists i :: i in Items(t) && i.ext.end == HighEnd(t)
  {
    var own := Item(t.p, t.ext);
    assert own in Items(t);
    if t.l.N? {
      HighEndIsGreatest(t.l);
      assert forall i :: i in Items(t.l) ==> i in Items(t);
    }
    if t.r.N? {
      HighEndIsGreatest(t.r);
      assert forall i :: i in Items(t.r) ==> i in Items(t);
    }
  }

  ghost predicate KidBounds(m: Mem, t: Shape) {
    t.E? || (Bounds(m, t.l) && Bounds(m, t.r))
  }

  ghost predicate Bounds(m: Mem, t: Shape) {
    t.E? || (t.p in m && m[t.p].maxHigh == HighEnd(t) && Bounds(m, t.l) && Bounds(m, t.r))
  }

  // The bounds in the subtrees beside the path are exact.
  ghost predicate Sides(m: Mem, c: Path) {
    c.Top? || (Bounds(m, c.sib) && Sides(m, c.up))
  }

  // The bounds of the nodes on the path are exact when the hole is filled by a subtree with greatest end h.
  ghost predicate Spine(m: Mem, c: Path, h: u64) {
    c.Top? || (c.p in m && m[c.p].maxHigh == Reach(c, h) && Spine(m, c.up, Reach(c, h)))
  }

  /** Every bound is exact. */
  ghost predicate ExactAt(m: Mem, c: Path, t: Shape) {
    Bounds(m, t) && Sides(m, c) && Spine(m, c, HighEnd(t))
  }

  lemma PlugExact(m: Mem, c: Path, t: Shape)
    requires c.Step?
    ensures HighEnd(Plug(c, t)) == Reach(c, HighEnd(t))
    ensures ExactAt(m, c, t) <==> ExactAt(m, c.up, Plug(c, t))
  {
  }

  lemma {:induction false} TopExact(m: Mem, c: Path, t: Shape)
    ensures Sides(m, Top) && (ExactAt(m, c, t) <==> ExactAt(m, Top, PlugAll(c, t)))
    decreases c
  {
    if c.Step? {
      PlugExact(m, c, t);
      TopExact(m, c.up, Plug(c, t));
    }
  }

  // ---------- What other changes leave alone ----------

  // Outside k the bounds are the same.
  ghost predicate SameHigh(m: Mem, m': Mem, k: set<Ptr>) {
    forall q {:trigger q in m'} {:trigger m'[q]} :: q in m && q !in k ==> q in m' && m'[q].maxHigh == m[q].maxHigh
  }

  lemma SameAtFirst(m: Mem, k: set<Ptr>)
    ensures SameHigh(m, m, k)
  {
  }

  lemma SameFurther(m: Mem, m1: Mem, m2: Mem, k: set<Ptr>, q: Ptr)
    requires SameHigh(m, m1, k) && SameHigh(m1, m2, {q}) && q in k
    ensures SameHigh(m, m2, k)
  {
  }

  lemma {:induction false} BoundsFrame(m: Mem, m': Mem, t: Shape, k: set<Ptr>)
    requires Bounds(m, t) && SameHigh(m, m', k) && Ptrs(t) !! k
    ensures Bounds(m', t)
  {
    if t.N? {
      assert t.p in Ptrs(t);
      BoundsFrame(m, m', t.l, k);
      BoundsFrame(m, m', t.r, k);
    }
  }

  lemma {:induction false} SidesFrame(m: Mem, m': Mem, c: Path, k: set<Ptr>)
    requires Sides(m, c) && SameHigh(m, m', k) && PathPtrs(c) !! k
    ensures Sides(m', c)
  {
    if c.Step? {
      BoundsFrame(m, m', c.sib, k);
      SidesFrame(m, m', c.up, k);
    }
  }

  lemma {:induction false} SpineFrame(m: Mem, m': Mem, c: Path, h: u64, k: set<Ptr>)
    requires Spine(m, c, h) && SameHigh(m, m', k) && PathPtrs(c) !! k
    ensures Spine(m', c, h)
  {
    if c.Step? {
      assert c.p in PathPtrs(c);
      SpineFrame(m, m', c.up, Reach(c, h), k);
    }
  }

  // A subtree in place of another with the same greatest end.
  lemma SwappedExact(m: Mem, m': Mem, c: Path, t: Shape, t': Shape, k: set<Ptr>)
    requires SameHigh(m, m', k) && SameHigh(m', m, k) && PathPtrs(c) !! k && HighEnd(t) == HighEnd(t')
    requires Bounds(m, t) <==> Bounds(m', t')
    ensures Sides(m, c) <==> Sides(m', c)
    ensures ExactAt(m, c, t) <==> ExactAt(m', c, t')
  {
    var h := HighEnd(t);
    if Sides(m, c) { SidesFrame(m, m', c, k); }
    if Sides(m', c) { SidesFrame(m', m, c, k); }
    if Spine(m, c, h) { SpineFrame(m, m', c, h, k); }
    if Spine(m', c, h) { SpineFrame(m', m, c, h, k); }
  }

  // ---------- Rotations ----------

  lemma HighOfRoot(m: Mem, t: Shape)
    requires Bounds(m, t) && NULL !in m
    ensures MaxHighOr0(m, t.Root()) == HighEnd(t)
  {
  }

  lemma RotHighEnd(s: Side, t: Shape)
    requires t.N? && t.Kid(s.Other()).N?
    ensures HighEnd(Rot(s, t)) == HighEnd(t)
  {
  }

  // A rotation that lifts a subtree with exact bounds makes the bounds neither better nor worse.
  lemma PivotedBounds(m: Mem, m': Mem, s: Side, t: Shape)
    requires t.N? && t.Kid(s.Other()).N? && NoDup(t) && NULL !in m && t.p in m && m'.Keys == m.Keys
    requires Bounds(m, t.Kid(s.Other()))
    requires var y := t.Kid(s.Other());
      && m'[y.p].maxHigh == m[t.p].maxHigh && SameHigh(m, m', {t.p, y.p})
      && m'[t.p].maxHigh == MaxHighFrom(m, t.ext.end, t.Kid(s).Root(), y.Kid(s).Root())
    ensures Bounds(m', Rot(s, t)) <==> Bounds(m, t)
    ensures HighEnd(Rot(s, t)) == HighEnd(t)
  {
    var y := t.Kid(s.Other());
    var a, b, far, k := t.Kid(s), y.Kid(s), y.Kid(s.Other()), {t.p, y.p};
    var low := Mk(s, t.p, t.black, t.ext, a, b);
    RotHighEnd(s, t);
    assert y.p in Ptrs(y) && Ptrs(a) !! k && Ptrs(b) !! k && Ptrs(far) !! k;
    BoundsFrame(m, m', b, k);
    BoundsFrame(m, m', far, k);
    HighOfRoot(m, b);
    if Bounds(m', a) {
      BoundsFrame(m', m, a, k);
      HighOfRoot(m, a);
      assert Bounds(m', low);
    } else if Bounds(m, a) {
      BoundsFrame(m, m', a, k);
    }
    assert Bounds(m', Rot(s, t)) <==> m'[y.p].maxHigh == HighEnd(Rot(s, t)) && Bounds(m', low) && Bounds(m', far);
  }

  // What a rotation of t to side s, which changes m to m', does to the bounds.
  ghost predicate Turned(m: Mem, m': Mem, s: Side, t: Shape)
    requires t.N? && t.Kid(s.Other()).N?
  {
    var y := t.Kid(s.Other());
    && SameHigh(m, m', {t.p, y.p}) && SameHigh(m', m, {t.p, y.p}) && {t.p, y.p} <= Ptrs(t)
    && (Bounds(m, y) ==>
          Bounds(m', y.l) && Bounds(m', y.r) && (Bounds(m', Rot(s, t)) <==> Bounds(m, t)))
  }

  lemma PivotedTurns(m: Mem, m': Mem, s: Side, c: Path, t: Shape)
    requires t.N? && t.Kid(s.Other()).N? && NoDup(t) && NULL !in m && t.p in m && m'.Keys == m.Keys
    requires m[t.p].ext == t.ext && m[t.p].Kid(s) == t.Kid(s).Root()
    requires Pivoted(m, m', s, t.p, t.Kid(s.Other()).p, t.Kid(s.Other()).Kid(s).Root(), c)
    ensures Turned(m, m', s, t)
  {
    hide MaxHighFrom, Rot, HighEnd;
    var y := t.Kid(s.Other());
    assert y.p in Ptrs(y) && y.p in Ptrs(t);
    if Bounds(m, y) {
      PivotedBounds(m, m', s, t);
      assert NoDup(y) && y.p !in Ptrs(y.l) && y.p !in Ptrs(y.r) && t.p !in Ptrs(y);
      BoundsFrame(m, m', y.l, {t.p, y.p});
      BoundsFrame(m, m', y.r, {t.p, y.p});
    }
  }

  lemma RotateTurns(m: Mem, root: Ptr, s: Side, c: Path, t: Shape, items: seq<Item>)
    requires Whole(m, root, c, t, items) && t.N? && t.Kid(s.Other()).N?
    ensures t.p in m && m[t.p].Kid(s.Other()) in m && Turned(m, Rotate(m, s, t.p, c), s, t)
  {
    hide Rotate, Turned, Rep, RepPath;
    RotatePivoted(m, root, s, c, t, items);
    FocusFacts(m, root, c, t, items);
    PivotedTurns(m, Rotate(m, s, t.p, c), s, c, t);
  }

  lemma TurnedExact(m: Mem, m': Mem, s: Side, c: Path, t: Shape)
    requires t.N? && t.Kid(s.Other()).N? && Turned(m, m', s, t) && Ptrs(t) !! PathPtrs(c)
    requires Bounds(m, t.Kid(s.Other()))
    ensures Sides(m, c) <==> Sides(m', c)
    ensures ExactAt(m, c, t) <==> ExactAt(m', c, Rot(s, t))
  {
    RotHighEnd(s, t);
    SwappedExact(m, m', c, t, Rot(s, t), {t.p, t.Kid(s.Other()).p});
  }

  // ---------- The colour fix-ups ----------

  // Painting changes no bound.
  ghost predicate Painted(m: Mem, m': Mem) { SameHigh(m, m', {}) && SameHigh(m', m, {}) }

  lemma PaintedBounds(m: Mem, m': Mem, t: Shape)
    requires Painted(m, m')
    ensures Bounds(m, t) <==> Bounds(m', t)
  {
    if Bounds(m, t) { BoundsFrame(m, m', t, {}); }
    if Bounds(m', t) { BoundsFrame(m', m, t, {}); }
  }

  lemma PaintedExact(m: Mem, m': Mem, c: Path, t: Shape)
    requires Painted(m, m')
    ensures Sides(m, c) <==> Sides(m', c)
    ensures ExactAt(m, c, t) <==> ExactAt(m', c, t)
  {
    PaintedBounds(m, m', t);
    SwappedExact(m, m', c, t, t, {});
  }

  lemma FocusPainted(m: Mem, c: Path, t: Shape, black: bool)
    requires t.N?
    ensures ExactAt(m, c, t) <==> ExactAt(m, c, t.(black := black))
  {
  }

  lemma KidPainted(m: Mem, t: Shape, x: Side, black: bool)
    requires t.N? && t.Kid(x).N?
    ensures var t' := WithKidBlack(t, x, black); (Bounds(m, t) <==> Bounds(m, t')) && HighEnd(t') == HighEnd(t)
  {
    assert Bounds(m, t.Kid(x)) <==> Bounds(m, t.Kid(x).(black := black));
  }

  lemma RecoloredExact(m: Mem, m': Mem, c: Path, t: Shape)
    requires UnderRed(c) && c.up.sib.N? && Painted(m, m') && ExactAt(m, c, t)
    ensures ExactAt(m', c.up.up, Recolored(c, t))
  {
    PlugExact(m, c, t);
    PlugExact(m, c.up, Plug(c, t));
    assert Bounds(m, Plug(c.(black := true), t)) && Bounds(m, c.up.sib.(black := true));
    assert ExactAt(m, c.up.up, Recolored(c, t));
    PaintedExact(m, m', c.up.up, Recolored(c, t));
  }

  lemma InnerExact(m: Mem, m': Mem, c: Path, t: Shape)
    requires UnderRed(c) && t.N? && c.side != c.up.side && ExactAt(m, c, t) && Ptrs(Plug(c, t)) !! PathPtrs(c.up)
    requires Turned(m, m', c.up.side, Plug(c, t))
    requires Rot(c.up.side, Plug(c, t)) == Plug(InnerPath(c, t), InnerShape(c, t))
    ensures ExactAt(m', InnerPath(c, t), InnerShape(c, t))
  {
    PlugExact(m, c, t);
    TurnedExact(m, m', c.up.side, c.up, Plug(c, t));
    PlugExact(m', InnerPath(c, t), InnerShape(c, t));
  }

  lemma OuterExact(m: Mem, m1: Mem, m': Mem, c: Path, t: Shape)
    requires UnderRed(c) && c.side == c.up.side && Painted(m, m1) && ExactAt(m, c, t)
    requires var x := Plug(c.up.(black := false), Plug(c.(black := true), t));
      && Ptrs(x) !! PathPtrs(c.up.up) && Turned(m1, m', c.side.Other(), x)
      && Rot(c.side.Other(), x) == Plug(OuterPath(c), t)
    ensures ExactAt(m', OuterPath(c), t)
  {
    var x := Plug(c.up.(black := false), Plug(c.(black := true), t));
    PlugExact(m, c, t);
    PlugExact(m, c.up, Plug(c, t));
    assert ExactAt(m, c.up.up, x);
    PaintedExact(m, m1, c.up.up, x);
    TurnedExact(m1, m', c.side.Other(), c.up.up, x);
    PlugExact(m', OuterPath(c), t);
  }

  // Colours, of the node above the hole and beside it, do not matter.
  lemma PlugPainted(m: Mem, c: Path, t: Shape, black: bool, sib: Shape)
    requires c.Step? && HighEnd(sib) == HighEnd(c.sib) && (Bounds(m, sib) <==> Bounds(m, c.sib))
    ensures ExactAt(m, c.up, Plug(c.(black := black, sib := sib), t)) <==> ExactAt(m, c, t)
  {
    var d := c.(black := black, sib := sib);
    PlugExact(m, d, t);
    assert Reach(d, HighEnd(t)) == Reach(c, HighEnd(t));
  }

  lemma RedSiblingExact(m: Mem, m1: Mem, m': Mem, c: Path, t: Shape)
    requires c.Step? && c.sib.N? && Painted(m, m1) && Sides(m, c)
    requires var x := Plug(c.(black := false, sib := c.sib.(black := true)), t);
      && Ptrs(x) !! PathPtrs(c.up) && Turned(m1, m', c.side, x)
      && Rot(c.side, x) == Plug(RedSiblingPath(c).up, Plug(RedSiblingPath(c), t))
    ensures Sides(m', RedSiblingPath(c)) && (ExactAt(m', RedSiblingPath(c), t) <==> ExactAt(m, c, t))
  {
    var x, d := Plug(c.(black := false, sib := c.sib.(black := true)), t), RedSiblingPath(c);
    PlugPainted(m, c, t, false, c.sib.(black := true));
    PaintedExact(m, m1, c.up, x);
    PaintedBounds(m, m1, x.Kid(c.side.Other()));
    TurnedExact(m1, m', c.side, c.up, x);
    PlugExact(m', d, t);
    PlugExact(m', d.up, Plug(d, t));
  }

  lemma BlackNephewsExact(m: Mem, m': Mem, c: Path, t: Shape)
    requires c.Step? && c.sib.N? && Painted(m, m') && Sides(m, c)
    ensures var x := Plug(c.(sib := c.sib.(black := false)), t);
      Sides(m', c.up) && (ExactAt(m', c.up, x) <==> ExactAt(m, c, t))
  {
    var x := Plug(c.(sib := c.sib.(black := false)), t);
    PlugPainted(m, c, t, c.black, c.sib.(black := false));
    PaintedExact(m, m', c.up, x);
  }

  lemma InnerNephewExact(m: Mem, m1: Mem, m': Mem, c: Path, t: Shape)
    requires c.Step? && c.sib.N? && c.sib.Kid(c.side).N? && Painted(m, m1) && Sides(m, c)
    requires var x := WithInnerBlack(c); var d := NephewPath(c, t);
      && Ptrs(x) !! PathPtrs(d) && Turned(m1, m', c.side.Other(), x)
      && Rot(c.side.Other(), x) == InnerNephewPath(c).sib
    ensures var e := InnerNephewPath(c); Sides(m', e) && (ExactAt(m', e, t) <==> ExactAt(m, c, t))
  {
    var x, e, k := WithInnerBlack(c), InnerNephewPath(c),
                   {c.sib.p, c.sib.Kid(c.side).p};
    PaintedExact(m, m1, c, t);
    KidPainted(m1, c.sib, c.side, true);
    assert Bounds(m1, x) && Bounds(m1, x.Kid(c.side));
    RotHighEnd(c.side.Other(), x);
    assert HighEnd(e.sib) == HighEnd(c.sib) && Bounds(m', e.sib);
    SwappedExact(m1, m', c.up, E, E, k);
    assert Ptrs(t) <= PathPtrs(NephewPath(c, t)) && c.p in PathPtrs(NephewPath(c, t));
    if Bounds(m1, t) { BoundsFrame(m1, m', t, k); }
    if Bounds(m', t) { BoundsFrame(m', m1, t, k); }
    SwappedSpine(m1, m', c, e, HighEnd(t), k);
  }

  lemma SwappedSpine(m: Mem, m': Mem, c: Path, e: Path, h: u64, k: set<Ptr>)
    requires c.Step? && e.Step? && e == c.(sib := e.sib) && HighEnd(e.sib) == HighEnd(c.sib) && c.p !in k
    requires SameHigh(m, m', k) && SameHigh(m', m, k) && PathPtrs(c.up) !! k
    ensures Spine(m', e, h) <==> Spine(m, c, h)
  {
    assert Reach(c, h) == Reach(e, h);
    if Spine(m, c, h) { SpineFrame(m, m', c.up, Reach(c, h), k); }
    if Spine(m', e, h) { SpineFrame(m', m, c.up, Reach(c, h), k); }
  }

  lemma OuterNephewExact(m: Mem, m1: Mem, m': Mem, c: Path, t: Shape)
    requires c.Step? && c.sib.N? && c.sib.Kid(c.side.Other()).N? && Painted(m, m1) && Sides(m, c)
    requires var x := WithOuterBlack(c, t); Ptrs(x) !! PathPtrs(c.up) && Turned(m1, m', c.side, x)
    ensures var x := WithOuterBlack(c, t);
      Sides(m', c.up) && (ExactAt(m', c.up, Rot(c.side, x)) <==> ExactAt(m, c, t))
  {
    var sib := WithKidBlack(c.sib.(black := c.black), c.side.Other(), true);
    var x := WithOuterBlack(c, t);
    KidPainted(m, c.sib.(black := c.black), c.side.Other(), true);
    assert Bounds(m, sib) && HighEnd(sib) == HighEnd(c.sib);
    PlugPainted(m, c, t, true, sib);
    PaintedExact(m, m1, c.up, x);
    PaintedBounds(m, m1, sib);
    TurnedExact(m1, m', c.side, c.up, x);
  }

  // ---------- The way down of an insertion ----------

  // The path is ready for a hole that reaches up to h as well.
  ghost predicate Lifted(m: Mem, c: Path, t: Shape, h: u64) {
    Bounds(m, t) && Sides(m, c) && Spine(m, c, Max(HighEnd(t), h))
  }

  // And so is the root of t.
  ghost predicate LiftedHere(m: Mem, c: Path, t: Shape, h: u64) {
    && t.N? && t.p in m && m[t.p].maxHigh == Max(HighEnd(t), h)
    && KidBounds(m, t) && Sides(m, c) && Spine(m, c, Max(HighEnd(t), h))
  }

  lemma LiftRoot(m: Mem, m': Mem, root: Ptr, c: Path, t: Shape, items: seq<Item>, h: u64)
    requires Whole(m, root, c, t, items) && t.N? && Lifted(m, c, t, h) && SameHigh(m, m', {t.p}) && t.p in m'
    requires m'[t.p].maxHigh == Max(m[t.p].maxHigh, h)
    ensures LiftedHere(m', c, t, h)
  {
    hide Rep, RepPath;
    BoundsFrame(m, m', t.l, {t.p});
    BoundsFrame(m, m', t.r, {t.p});
    SidesFrame(m, m', c, {t.p});
    SpineFrame(m, m', c, Max(HighEnd(t), h), {t.p});
  }

  lemma LiftDown(m: Mem, c: Path, t: Shape, s: Side, h: u64)
    requires LiftedHere(m, c, t, h)
    ensures Lifted(m, Down(s, c, t), t.Kid(s), h)
  {
    assert Reach(Down(s, c, t), Max(HighEnd(t.Kid(s)), h)) == Max(HighEnd(t), h);
  }

  lemma LiftLeaf(m: Mem, m': Mem, c: Path, node: Ptr, ext: Extent)
    requires Lifted(m, c, E, ext.end) && SameHigh(m, m', {node}) && node !in PathPtrs(c)
    requires node in m' && m'[node].maxHigh == ext.end
    ensures ExactAt(m', c, N(node, false, ext, E, E))
  {
    SidesFrame(m, m', c, {node});
    SpineFrame(m, m', c, ext.end, {node});
  }

  // ---------- update_maxhigh ----------

  ghost function SpinePtrs(c: Path): set<Ptr> {
    if c.Top? then {} else {c.p} + SpinePtrs(c.up)
  }

  lemma {:induction false} SpineInPath(c: Path)
    ensures SpinePtrs(c) <= PathPtrs(c)
  {
    if c.Step? {
      SpineInPath(c.up);
    }
  }

  // Changing nodes on the path itself changes nothing beside it.
  lemma {:induction false} SidesApart(m: Mem, m': Mem, c: Path, k: set<Ptr>)
    requires Sides(m, c) && SameHigh(m, m', k) && PathNoDup(c) && PathPtrs(c) * k <= SpinePtrs(c)
    ensures Sides(m', c)
  {
    if c.Step? {
      SpineInPath(c.up);
      BoundsFrame(m, m', c.sib, k);
      SidesApart(m, m', c.up, k);
    }
  }

  // A bound on the path may still be what it was when the hole reached up to `was`; h is what it reaches up to now.
  // Of the bound of y nothing is said, and past y the hole reached up to `top`.
  ghost predicate Mending(m: Mem, c: Path, h: u64, was: u64, y: Ptr, top: u64) {
    c.Top? ||
    (&& c.p in m && var reach := Reach(c, h);
     if c.p == y then Mending(m, c.up, reach, top, y, top) else
       && (m[c.p].maxHigh == reach || m[c.p].maxHigh == Max(was, reach)) && Mending(m, c.up, reach, was, y, top))
  }

  lemma {:induction false} MendingFrame(m: Mem, m': Mem, c: Path, h: u64, was: u64, y: Ptr, top: u64, k: set<Ptr>)
    requires Mending(m, c, h, was, y, top) && SameHigh(m, m', k) && PathPtrs(c) !! k
    ensures Mending(m', c, h, was, y, top)
  {
    if c.Step? {
      assert c.p in PathPtrs(c);
      MendingFrame(m, m', c.up, Reach(c, h), if c.p == y then top else was, y, top, k);
    }
  }

  // Once the hole reaches as high as before there is nothing left to mend, up to y.
  lemma {:induction false} MendingEnds(m: Mem, c: Path, h: u64, was: u64, y: Ptr, top: u64)
    requires Mending(m, c, h, was, y, top) && h >= was
    ensures Mending(m, c, h, 0, y, top)
  {
    if c.Step? && c.p != y {
      MendingEnds(m, c.up, Reach(c, h), was, y, top);
    }
  }

  lemma {:induction false} MendedSpine(m: Mem, c: Path, h: u64, y: Ptr, top: u64)
    requires Mending(m, c, h, 0, y, top) && y !in PathPtrs(c)
    ensures Spine(m, c, h)
  {
    if c.Step? {
      MendedSpine(m, c.up, Reach(c, h), y, top);
    }
  }

  lemma {:induction false} SpineMends(m: Mem, c: Path, h: u64, was: u64, y: Ptr, top: u64)
    requires Spine(m, c, Max(was, h)) && y !in PathPtrs(c)
    ensures Mending(m, c, h, was, y, top)
  {
    if c.Step? {
      SpineMends(m, c.up, Reach(c, h), was, y, top);
    }
  }

  // (c', t') is (c, t) seen from further up; `past` says whether y was on the way, or was passed before.
  ghost predicate Climbed(c: Path, t: Shape, past: bool, c': Path, t': Shape, past': bool, y: Ptr)
    decreases c
  {
    || (c == c' && t == t' && past == past')
    || (c.Step? && Climbed(c.up, Plug(c, t), past || c.p == y, c', t', past', y))
  }

  lemma {:induction false} ClimbedOn(c: Path, t: Shape, past: bool, c': Path, t': Shape, past': bool, y: Ptr)
    requires Climbed(c, t, past, c', t', past', y) && c'.Step?
    ensures Climbed(c, t, past, c'.up, Plug(c', t'), past' || c'.p == y, y)
    decreases c
  {
    if !(c == c' && t == t' && past == past') {
      ClimbedOn(c.up, Plug(c, t), past || c.p == y, c', t', past', y);
    }
  }

  lemma ClimbStarts(c: Path, t: Shape, y: Ptr)
    ensures Climbed(c, t, false, c, t, false, y)
  {
  }

  // The climb stays on the path.
  lemma ClimbFacts(c: Path, t: Shape, c': Path, t': Shape, past': bool, y: Ptr)
    requires Climbed(c, t, false, c', t', past', y) && t.N?
    ensures t'.N? && t'.p in {t.p} + SpinePtrs(c)
  {
    ClimbedInside(c, t, false, c', t', past', y);
  }

  lemma {:induction false} ClimbedInside(c: Path, t: Shape, past: bool, c': Path, t': Shape, past': bool, y: Ptr)
    requires Climbed(c, t, past, c', t', past', y) && t.N?
    ensures t'.N? && t'.p in SpinePtrs(c) + {t.p}
    decreases c
  {
    if !(c == c' && t == t' && past == past') {
      ClimbedInside(c.up, Plug(c, t), past || c.p == y, c', t', past', y);
    }
  }

  lemma BoundOfRoot(m: Mem, t: Shape)
    requires t.N? && t.p in m
    ensures Bounds(m, t) ==> m[t.p].maxHigh == HighEnd(t)
  {
  }

  // Exact bounds in the subtree that the climb has reached are exact bounds on the way there.
  lemma {:induction false} ClimbedMends(m: Mem, c: Path, t: Shape, past: bool, c': Path, t': Shape, past': bool,
                                        y: Ptr, top: u64)
    requires Climbed(c, t, past, c', t', past', y)
    requires Bounds(m, t') && Sides(m, c') && Mending(m, c', HighEnd(t'), if past' then top else 0, y, top)
    ensures Bounds(m, t) && Sides(m, c) && Mending(m, c, HighEnd(t), if past then top else 0, y, top)
    decreases c
  {
    if !(c == c' && t == t' && past == past') {
      PlugExact(m, c, t);
      ClimbedMends(m, c.up, Plug(c, t), past || c.p == y, c', t', past', y, top);
    }
  }

  // ---------- A node that takes the place of another ----------

  lemma {:induction false} SubstitutedSides(m: Mem, c: Path, x: Ptr, y: Ptr, ext: Extent)
    ensures Sides(m, Substitute(c, x, y, ext)) <==> Sides(m, c)
  {
    if c.Step? {
      SubstitutedSides(m, c.up, x, y, ext);
    }
  }

  lemma {:induction false} SubstitutedMends(m: Mem, m': Mem, c: Path, x: Ptr, y: Ptr, ext: Extent, h: u64, was: u64)
    requires OnPath(c, x) && PathNoDup(c) && y !in PathPtrs(c) && SameHigh(m, m', {x}) && y in m'
    requires Spine(m, c, Max(was, h)) && ext.end <= was && x in m
    ensures Mending(m', Substitute(c, x, y, ext), h, was, y, m[x].maxHigh)
  {
    assert c.p in PathPtrs(c);
    if c.p == x {
      var reach := Max(ext.end, Max(HighEnd(c.sib), h));
      assert Max(m[x].maxHigh, reach) == m[x].maxHigh;
      SpineFrame(m, m', c.up, m[x].maxHigh, {x});
      SpineMends(m', c.up, reach, m[x].maxHigh, y, m[x].maxHigh);
    } else {
      SubstitutedMends(m, m', c.up, x, y, ext, Reach(c, h), was);
    }
  }

  // ---------- A deletion, step by step ----------

  // The subtree t has taken the place of one that reached up to `was`, and the path does not know it yet.
  ghost predicate Vacated(m: Mem, c: Path, t: Shape, was: u64) {
    Bounds(m, t) && Sides(m, c) && Spine(m, c, was) && HighEnd(t) <= was
  }

  // What a climb of update_maxhigh starts from, at t, and what it achieves.
  ghost predicate Loosened(m: Mem, c: Path, t: Shape, was: u64, y: Ptr, top: u64) {
    KidBounds(m, t) && Sides(m, c) && Mending(m, c, HighEnd(t), was, y, top)
  }
  ghost predicate Mended(m: Mem, c: Path, t: Shape, y: Ptr, top: u64) {
    Bounds(m, t) && Sides(m, c) && Mending(m, c, HighEnd(t), 0, y, top)
  }

  lemma OnlyChildVacates(m: Mem, m': Mem, root: Ptr, c: Path, t: Shape, items: seq<Item>)
    requires Whole(m, root, c, t, items) && t.N? && (t.l.E? || t.r.E?) && ExactAt(m, c, t) && SameHigh(m, m', {t.p})
    ensures t.p in m && Vacated(m', c, OnlyChild(t), m[t.p].maxHigh)
  {
    hide Rep, RepPath;
    BoundsFrame(m, m', OnlyChild(t), {t.p});
    SidesFrame(m, m', c, {t.p});
    SpineFrame(m, m', c, m[t.p].maxHigh, {t.p});
  }

  lemma VacatedLoosens(m: Mem, root: Ptr, c: Path, t: Shape, items: seq<Item>, was: u64)
    requires Whole(m, root, c, t, items) && Vacated(m, c, t, was)
    ensures Loosened(m, c, t, was, NULL, 0)
  {
    hide Rep, RepPath;
    NullOutsidePath(m, c, t.Root(), root);
    SpineMends(m, c, HighEnd(t), was, NULL, 0);
  }

  lemma MendedExact(m: Mem, c: Path, t: Shape, y: Ptr, top: u64)
    requires Mended(m, c, t, y, top) && y !in PathPtrs(c)
    ensures ExactAt(m, c, t) && Sides(m, c)
  {
    MendedSpine(m, c, HighEnd(t), y, top);
  }

  // One round of the climb.
  lemma RecomputeMends(m: Mem, root: Ptr, c: Path, t: Shape, items: seq<Item>, was: u64, y: Ptr, top: u64)
    requires Whole(m, root, c, t, items) && t.N? && Loosened(m, c, t, was, y, top)
    ensures t.p in m && var m' := Recompute(m, t.p); Bounds(m', t) && Loosened(m', c, t, was, y, top)
  {
    hide RepPath;
    FocusFacts(m, root, c, t, items);
    var m' := Recompute(m, t.p);
    HighOfRoot(m, t.l);
    HighOfRoot(m, t.r);
    BoundsFrame(m, m', t.l, {t.p});
    BoundsFrame(m, m', t.r, {t.p});
    SidesFrame(m, m', c, {t.p});
    MendingFrame(m, m', c, HighEnd(t), was, y, top, {t.p});
  }

  lemma ClimbGoesOn(m: Mem, c: Path, t: Shape, was: u64, past: bool, y: Ptr, top: u64)
    requires c.Step? && Bounds(m, t) && Loosened(m, c, t, if past then top else was, y, top)
    ensures Loosened(m, c.up, Plug(c, t), if past || c.p == y then top else was, y, top)
  {
  }

  // The climb ends at the top, or where the bound has not dropped.
  lemma ClimbEnds(m: Mem, c: Path, t: Shape, c': Path, t': Shape, was: u64, past: bool, y: Ptr, top: u64)
    requires Climbed(c, t, false, c', t', past, y) && Bounds(m, t')
    requires Loosened(m, c', t', if past then top else was, y, top) && (c'.Top? || HighEnd(t') >= was)
    ensures Mended(m, c, t, y, top)
  {
    if !past && c'.Step? {
      MendingEnds(m, c', HighEnd(t'), was, y, top);
    }
    ClimbedMends(m, c, t, false, c', t', past, y, top);
  }

  lemma {:induction false} PathOf(c: Path, t: Shape, y: Ptr)
    requires OnPath(c, y)
    ensures y in SpinePtrs(c) && SpinePtrs(Above(c, y)) <= SpinePtrs(c)
    ensures c.p in Ptrs(PlugTo(c, t, y))
    decreases c
  {
    if c.p != y {
      PathOf(c.up, Plug(c, t), y);
      PlugToSibling(c.up, Plug(c, t), y);
    }
  }

  lemma {:induction false} ExactWithin(m: Mem, c: Path, t: Shape, y: Ptr)
    requires OnPath(c, y)
    ensures ExactAt(m, c, t) <==> ExactAt(m, Above(c, y), PlugTo(c, t, y))
    decreases c
  {
    PlugExact(m, c, t);
    if c.p != y {
      ExactWithin(m, c.up, Plug(c, t), y);
    }
  }

  // From the hole up to y: what is below y is exact, and the rest of the path is as the second climb needs it.
  lemma {:induction false} MendedToY(m: Mem, c: Path, t: Shape, y: Ptr, top: u64)
    requires OnPath(c, y) && Mended(m, c, t, y, top)
    ensures Loosened(m, Above(c, y), PlugTo(c, t, y), top, y, top)
    decreases c
  {
    if c.p != y {
      PlugExact(m, c, t);
      MendedToY(m, c.up, Plug(c, t), y, top);
    }
  }

  // y takes the place of x further up, which leaves the bounds to be mended from the hole upwards.
  lemma SubstituteLoosens(m: Mem, m': Mem, c: Path, t: Shape, x: Ptr, y: Ptr, ext: Extent, was: u64)
    requires OnPath(c, x) && PathNoDup(c) && y !in PathPtrs(c) && SameHigh(m, m', {x}) && y in m' && x in m
    requires Vacated(m, c, t, was) && ext.end <= was && x !in Ptrs(t)
    ensures Loosened(m', Substitute(c, x, y, ext), t, was, y, m[x].maxHigh) && Bounds(m', t)
  {
    hide PathNoDup, Bounds, Sides, Spine, Mending, PathPtrs, SpinePtrs, Substitute, Above, Ptrs, PlugTo;
    PathOf(c, t, x);
    BoundsFrame(m, m', t, {x});
    SidesApart(m, m', c, {x});
    SubstitutedSides(m', c, x, y, ext);
    SubstitutedMends(m, m', c, x, y, ext, HighEnd(t), was);
  }

  // The bound of the node above an empty hole did not need what was in the hole.
  ghost predicate Spare(m: Mem, c: Path) { c.Step? && c.p in m && m[c.p].maxHigh == Reach(c, 0) }

  lemma SpareFrame(m: Mem, m': Mem, c: Path, q: Ptr)
    requires SameHigh(m, m', {q}) && (c.Step? ==> c.p in m && c.p != q)
    ensures Spare(m, c) <==> Spare(m', c)
  {
  }

  // With an empty hole there is nothing to climb from.
  lemma LeafMends(m: Mem, m': Mem, c: Path, x: Ptr, y: Ptr, ext: Extent, was: u64, top: u64)
    requires c.Step? && Loosened(m', Substitute(c, x, y, ext), E, was, y, top) && Vacated(m, c, E, was)
    requires c.p == x || (c.p != y && Spare(m, c))
    ensures Mended(m', Substitute(c, x, y, ext), E, y, top)
  {
    if c.p != x {
      MendingEnds(m', Substitute(c.up, x, y, ext), Reach(c, 0), was, y, top);
    }
  }

  lemma NotSpare(m: Mem, m': Mem, c: Path, x: Ptr, y: Ptr, ext: Extent)
    requires c.Step? && c.p != x && c.p in m && c.p in m' && m'[c.p].maxHigh == m[c.p].maxHigh && !Spare(m, c)
    ensures !Spine(m', Substitute(c, x, y, ext), 0)
  {
  }

  lemma {:induction false} MendingLoosens(m: Mem, c: Path, h: u64, was: u64, y: Ptr, top: u64)
    requires Mending(m, c, h, 0, y, top)
    ensures Mending(m, c, h, was, y, top)
  {
    if c.Step? && c.p != y {
      MendingLoosens(m, c.up, Reach(c, h), was, y, top);
    }
  }

  lemma MendedIsLoose(m: Mem, c: Path, t: Shape, was: u64, y: Ptr, top: u64)
    requires Mended(m, c, t, y, top)
    ensures Loosened(m, c, t, was, y, top)
  {
    MendingLoosens(m, c, HighEnd(t), was, y, top);
  }

  // Before the climbs: they have what they need, and with an empty hole the first one is not missed if the bound
  // of the parent is x's or does not need mending.
  lemma SubstituteReady(m: Mem, m1: Mem, root: Ptr, c: Path, t: Shape, items: seq<Item>, x: Ptr, y: Ptr,
                        ext: Extent, was: u64)
    requires Whole(m, root, c, t, items) && Vacated(m, c, t, was) && OnPath(c, x) && y !in m && ext.end <= was
    requires SameHigh(m, m1, {x}) && y in m1
    ensures x in m && var d := Substitute(c, x, y, ext);
      && Loosened(m1, d, t, was, y, m[x].maxHigh) && Sides(m1, d)
      && (t.E? && (c.p == x || Spare(m, c)) ==> Mended(m1, d, t, y, m[x].maxHigh))
  {
    hide Rep, RepPath, Spare;
    WholePtrs(m, root, c, t, items);
    OnPathIn(c, x);
    SubstituteLoosens(m, m1, c, t, x, y, ext, was);
    if t.E? && (c.p == x || Spare(m, c)) {
      assert c.p in PathPtrs(c);
      LeafMends(m, m1, c, x, y, ext, was, m[x].maxHigh);
    }
  }

  // After the climbs: either all is exact, or the parent of the empty hole still has the bound that it had.
  lemma SubstituteOutcome(m: Mem, m1: Mem, m': Mem, root: Ptr, c: Path, t: Shape, items: seq<Item>, x: Ptr, y: Ptr,
                          ext: Extent)
    requires OnPath(c, x) && y !in m && PathPtrs(c) <= m.Keys && SameHigh(m, m1, {x})
    requires var d := Substitute(c, x, y, ext);
      && Whole(m', root, d, t, items) && OnPath(d, y) && Sides(m1, d)
      && (t.N? || c.p == x || Spare(m, c) ==> ExactAt(m', d, t))
      && (t.E? ==> SameHigh(m1, m', {y} + SpinePtrs(Above(d, y))))
    ensures var d := Substitute(c, x, y, ext);
      Sides(m', d) && (ExactAt(m', d, t) <==> t.N? || c.p == x || Spare(m, c))
  {
    hide Rep, RepPath, Spare, Spine, Sides;
    var d := Substitute(c, x, y, ext);
    if t.E? {
      var k := {y} + SpinePtrs(Above(d, y));
      PathOf(d, t, y);
      SpineInPath(d);
      SidesApart(m1, m', d, k);
      if c.p != x && !Spare(m, c) {
        ZoomOutTo(m', root, d, t, items, y);
        WholePtrs(m', root, Above(d, y), PlugTo(d, t, y), items);
        SpineInPath(Above(d, y));
        assert c.p in PathPtrs(c) && d.p == c.p && c.p !in k;
        NotSpare(m, m', c, x, y, ext);
      }
    }
  }

  // An empty hole is noticed by its parent's bound alone.
  lemma LeafExact(m: Mem, c: Path, was: u64)
    requires Vacated(m, c, E, was)
    ensures Sides(m, c) && (ExactAt(m, c, E) <==> c.Top? || Spare(m, c))
  {
  }

  /** Whether unlinking s on behalf of the erased node leaves bounds that are exact or will be made so: s has a child
    * to start the climb from, or no parent, or its parent is the erased node itself, or the bound of its parent is
    * that of the parent's end and other child.
    */
  ghost predicate Regained(m: Mem, node: Ptr, s: Ptr)
    requires s in m
  {
    var p := m[s].parent;
    || m[s].left in m || m[s].right in m || p !in m || p == node
    || m[p].maxHigh == Max(m[p].ext.end, MaxHighOr0(m, if m[p].left == s then m[p].right else m[p].left))
  }

  lemma RegainedAt(m: Mem, root: Ptr, c: Path, t: Shape, items: seq<Item>, node: Ptr)
    requires Whole(m, root, c, t, items) && t.N? && ExactAt(m, c, t)
    ensures t.p in m && (Regained(m, node, t.p) <==> t.l.N? || t.r.N? || c.Top? || c.p == node || Spare(m, c))
  {
    FocusFacts(m, root, c, t, items);
    if c.Step? {
      HighOfRoot(m, c.sib);
      assert c.sib.E? ==> c.sib.Root() !in m;
      assert m[c.p].left == t.p <==> c.side.L?;
    }
  }

  // Erasing the leaf [1, 10] below [0, 0] leaves the bound 10 behind.
  lemma StaleLeaf()
    ensures var low, high := Extent(0, 0), Extent(1, 10);
      var t := N(1, true, low, E, N(2, false, high, E, E));
      var m := map[1 := Rec(NULL, 2, NULL, true, 10, low), 2 := Rec(NULL, NULL, 1, false, 10, high)];
      Whole(m, 1, Top, t, [Item(1, low), Item(2, high)]) && RedBlack(t) && ExactAt(m, Top, t) && !Regained(m, 2, 2)
  {
    var low, high := Extent(0, 0), Extent(1, 10);
    var leaf := N(2, false, high, E, E);
    var t := N(1, true, low, E, leaf);
    var m: Mem := map[1 := Rec(NULL, 2, NULL, true, 10, low), 2 := Rec(NULL, NULL, 1, false, 10, high)];
    assert Rep(m, leaf, 1) && Rep(m, t, NULL);
    assert Ptrs(leaf) == {2} && Ptrs(t) == {1, 2} && m.Keys == {1, 2};
    assert Items(leaf) == [Item(2, high)] && Items(t) == [Item(1, low), Item(2, high)];
    assert HighEnd(leaf) == 10 && HighEnd(t) == 10 && Bounds(m, leaf);
  }
}
