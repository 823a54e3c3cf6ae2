/** The red-black rules on shapes, and what each case of the two colour fix-ups does to them. */
module Balance {
  import opened Powers
  import opened Shapes
  import opened Rotations

  ghost predicate IsBlack(t: Shape) { t.E? || t.black }
  ghost predicate HoleMayBeRed(c: Path) { c.Top? || c.black }

  ghost function One(black: bool): nat { if black then 1 else 0 }

  // Black nodes on the leftmost path; the same on every path when Even holds.
  ghost function BlackHeight(t: Shape): nat {
    if t.E? then 0 else BlackHeight(t.l) + One(t.black)
  }

  ghost predicate Even(t: Shape) {
    t.E? || (BlackHeight(t.l) == BlackHeight(t.r) && Even(t.l) && Even(t.r))
  }

  // No red node has a red child.
  ghost predicate Calm(t: Shape) {
    t.E? || ((t.black || (IsBlack(t.l) && IsBlack(t.r))) && Calm(t.l) && Calm(t.r))
  }

  ghost predicate RedBlack(t: Shape) { IsBlack(t) && Even(t) && Calm(t) }

  // The rest of the tree is even when a subtree of black height h fills the hole.
  ghost predicate PathEven(c: Path, h: nat) {
    c.Top? || (Even(c.sib) && BlackHeight(c.sib) == h && PathEven(c.up, h + One(c.black)))
  }

  ghost predicate PathCalm(c: Path) {
    c.Top? || ((c.black || (IsBlack(c.sib) && HoleMayBeRed(c.up))) && Calm(c.sib) && PathCalm(c.up))
  }

  ghost predicate RootBlack(c: Path) {
    c.Top? || (if c.up.Top? then c.black else RootBlack(c.up))
  }

  lemma {:induction false} PlugAllEven(c: Path, t: Shape)
    requires Even(t) && Calm(t) && PathEven(c, BlackHeight(t)) && PathCalm(c)
    requires IsBlack(t) || HoleMayBeRed(c)
    ensures Even(PlugAll(c, t)) && Calm(PlugAll(c, t))
    decreases c
  {
    if c.Step? {
      PlugAllEven(c.up, Plug(c, t));
    }
  }

  lemma {:induction false} PlugAllBlack(c: Path, t: Shape)
    requires c.Step? && RootBlack(c)
    ensures IsBlack(PlugAll(c, t))
    decreases c
  {
    if c.up.Step? {
      PlugAllBlack(c.up, Plug(c, t));
    }
  }

  ghost function PathLen(c: Path): nat { if c.Top? then 0 else 1 + PathLen(c.up) }

  // ---------- Height bound ----------

  ghost function Size(t: Shape): nat { if t.E? then 0 else 1 + Size(t.l) + Size(t.r) }
  ghost function Depth(t: Shape): nat {
    if t.E? then 0 else 1 + (if Depth(t.l) > Depth(t.r) then Depth(t.l) else Depth(t.r))
  }

  // A red-black tree with n nodes is at most 2 * log2(n + 1) deep.
  lemma {:induction false} DepthBound(t: Shape)
    requires Even(t) && Calm(t)
    ensures Pow2(BlackHeight(t)) <= Size(t) + 1
    ensures Depth(t) <= 2 * BlackHeight(t) + One(!IsBlack(t))
  {
    if t.N? {
      DepthBound(t.l);
      DepthBound(t.r);
    }
  }

  // ---------- Insertion ----------

  // A red node t that may stand under a red parent, everything else being in order.
  ghost predicate Inserted(c: Path, t: Shape) {
    t.N? && !t.black && Even(t) && Calm(t) && PathEven(c, BlackHeight(t)) && PathCalm(c) && RootBlack(c)
  }

  ghost predicate UnderRed(c: Path) { c.Step? && !c.black && c.up.Step? }

  // Red uncle: parent and uncle turn black, the grandparent red and becomes the node to look at.
  ghost function Recolored(c: Path, t: Shape): Shape
    requires UnderRed(c) && c.up.sib.N?
  {
    Mk(c.up.side, c.up.p, false, c.up.ext, Plug(c.(black := true), t), c.up.sib.(black := true))
  }

  lemma RecolorStep(c: Path, t: Shape)
    requires Inserted(c, t) && UnderRed(c) && c.up.sib.N? && !c.up.sib.black
    ensures Inserted(c.up.up, Recolored(c, t))
  {
    assert PathCalm(c.up) && PathEven(c.up, BlackHeight(t)) && RootBlack(c.up);
    var g := Plug(c.(black := true), t);
    assert Even(g) && Calm(g);
  }

  lemma RedParentIsInside(c: Path)
    requires c.Step? && !c.black && RootBlack(c)
    ensures c.up.Step?
  {
  }

  // Inner child: after the rotation at the parent the old parent is the node to look at.
  ghost function InnerPath(c: Path, t: Shape): Path
    requires UnderRed(c) && t.N?
  {
    Step(c.up.side, t.p, false, t.ext, t.Kid(c.side), c.up)
  }
  ghost function InnerShape(c: Path, t: Shape): Shape
    requires UnderRed(c) && t.N?
  {
    Mk(c.up.side, c.p, false, c.ext, c.sib, t.Kid(c.side.Other()))
  }

  lemma InnerStep(c: Path, t: Shape)
    requires Inserted(c, t) && UnderRed(c) && c.side != c.up.side
    ensures Rot(c.up.side, Plug(c, t)) == Plug(InnerPath(c, t), InnerShape(c, t))
    ensures Inserted(InnerPath(c, t), InnerShape(c, t)) && UnderRed(InnerPath(c, t))
  {
    assert PathEven(c.up, BlackHeight(t));
  }

  // Outer child: parent black, grandparent red, rotation at the grandparent.
  ghost function OuterPath(c: Path): Path
    requires UnderRed(c)
  {
    Step(c.side, c.p, true, c.ext, Mk(c.up.side, c.up.p, false, c.up.ext, c.sib, c.up.sib), c.up.up)
  }

  lemma OuterStep(c: Path, t: Shape)
    requires Inserted(c, t) && UnderRed(c) && c.side == c.up.side && IsBlack(c.up.sib)
    ensures Rot(c.side.Other(), Plug(c.up.(black := false), Plug(c.(black := true), t))) == Plug(OuterPath(c), t)
    ensures Inserted(OuterPath(c), t)
  {
    assert PathCalm(c.up) && PathEven(c.up, BlackHeight(t)) && RootBlack(c.up);
    assert Even(OuterPath(c).sib) && Calm(OuterPath(c).sib);
  }

  // ---------- Deletion ----------

  // The subtree t at the hole of c is one black node short; apart from t's own colour all is in order.
  ghost predicate Short(c: Path, t: Shape) {
    && Even(t) && (t.N? ==> Calm(t.l) && Calm(t.r)) && (IsBlack(t) ==> Calm(t))
    && PathEven(c, BlackHeight(t) + 1) && PathCalm(c) && RootBlack(c)
  }

  // Nothing is short any more.
  ghost predicate Settled(c: Path, t: Shape) {
    && Even(t) && Calm(t) && PathEven(c, BlackHeight(t)) && PathCalm(c) && RootBlack(c)
    && (IsBlack(t) || (c.Step? && c.black))
  }

  lemma SiblingExists(c: Path, t: Shape)
    requires Short(c, t) && c.Step?
    ensures c.sib.N?
    ensures !c.sib.black ==> c.black && c.sib.l.N? && c.sib.r.N? && c.sib.l.black && c.sib.r.black
  {
  }

  // Red sibling: sibling black, parent red, rotation at the parent towards t; t stays the node to look at.
  ghost function RedSiblingPath(c: Path): Path
    requires c.Step? && c.sib.N?
  {
    Step(c.side, c.p, false, c.ext, c.sib.Kid(c.side),
         Step(c.side, c.sib.p, true, c.sib.ext, c.sib.Kid(c.side.Other()), c.up))
  }

  lemma RedSiblingStep(c: Path, t: Shape)
    requires Short(c, t) && c.Step? && c.sib.N? && !c.sib.black
    ensures Rot(c.side, Plug(c.(black := false, sib := c.sib.(black := true)), t))
         == Plug(RedSiblingPath(c).up, Plug(RedSiblingPath(c), t))
    ensures Short(RedSiblingPath(c), t) && RedSiblingPath(c).sib.N? && RedSiblingPath(c).sib.black
  {
    assert c.up.Step? ==> RootBlack(c.up);
    var d := RedSiblingPath(c);
    assert RootBlack(d.up);
    assert PathCalm(d.up) && PathEven(d.up, BlackHeight(t) + 1);
  }

  // Black sibling with black children: sibling red, and the parent is short instead.
  lemma BlackNephewsStep(c: Path, t: Shape)
    requires Short(c, t) && c.Step? && IsBlack(t)
    requires c.sib.N? && c.sib.black && IsBlack(c.sib.l) && IsBlack(c.sib.r)
    ensures Short(c.up, Plug(c.(sib := c.sib.(black := false)), t))
  {
    assert c.up.Step? ==> RootBlack(c.up);
    assert c.up.Top? ==> RootBlack(c.up);
    var s := c.sib.(black := false);
    assert Even(s) && Calm(s);
  }

  // Only the inner nephew is red: it turns black, the sibling red, and it is rotated into the sibling's place.
  ghost function InnerNephewPath(c: Path): Path
    requires c.Step? && c.sib.N? && c.sib.Kid(c.side).N?
  {
    var i := c.sib.Kid(c.side);
    c.(sib := Mk(c.side, i.p, true, i.ext, i.Kid(c.side),
                 Mk(c.side, c.sib.p, false, c.sib.ext, i.Kid(c.side.Other()), c.sib.Kid(c.side.Other()))))
  }

  // The path to the sibling.
  ghost function NephewPath(c: Path, t: Shape): Path
    requires c.Step?
  {
    Step(c.side.Other(), c.p, c.black, c.ext, t, c.up)
  }

  // The sibling at the end of that path, red, with a black inner child.
  ghost function WithInnerBlack(c: Path): (r: Shape)
    requires c.Step? && c.sib.N? && c.sib.Kid(c.side).N?
    ensures r.N? && r.Kid(c.side).N?
  {
    WithKidBlack(c.sib.(black := false), c.side, true)
  }

  // The parent, black, with the sibling in its colour and the outer nephew black.
  ghost function WithOuterBlack(c: Path, t: Shape): (r: Shape)
    requires c.Step? && c.sib.N? && c.sib.Kid(c.side.Other()).N?
    ensures r.N? && r.Kid(c.side.Other()).N?
  {
    Plug(c.(black := true, sib := WithKidBlack(c.sib.(black := c.black), c.side.Other(), true)), t)
  }

  lemma InnerNephewStep(c: Path, t: Shape)
    requires Short(c, t) && c.Step? && c.sib.N? && c.sib.black && IsBlack(c.sib.Kid(c.side.Other()))
    requires !IsBlack(c.sib.Kid(c.side))
    ensures Rot(c.side.Other(), WithInnerBlack(c)) == InnerNephewPath(c).sib
    ensures Short(InnerNephewPath(c), t) && InnerNephewPath(c).sib.black
    ensures !IsBlack(InnerNephewPath(c).sib.Kid(c.side.Other()))
  {
    var d := InnerNephewPath(c);
    var i := c.sib.Kid(c.side);
    assert Even(i) && Calm(i) && BlackHeight(i) == BlackHeight(i.l) == BlackHeight(i.r);
    assert Even(c.sib.Kid(c.side.Other())) && Calm(c.sib.Kid(c.side.Other()));
    assert Even(d.sib.Kid(c.side.Other())) && Calm(d.sib.Kid(c.side.Other()));
  }

  // The outer nephew is red: one rotation at the parent settles the tree.
  ghost function OuterNephew(c: Path, t: Shape): Shape
    requires c.Step? && c.sib.N? && c.sib.Kid(c.side.Other()).N?
  {
    Mk(c.side, c.sib.p, c.black, c.sib.ext,
       Mk(c.side, c.p, true, c.ext, t, c.sib.Kid(c.side)), c.sib.Kid(c.side.Other()).(black := true))
  }

  lemma OuterNephewStep(c: Path, t: Shape)
    requires Short(c, t) && c.Step? && IsBlack(t) && c.sib.N? && c.sib.black
    requires !IsBlack(c.sib.Kid(c.side.Other()))
    ensures Rot(c.side, WithOuterBlack(c, t)) == OuterNephew(c, t)
    ensures RedBlack(PlugAll(c.up, OuterNephew(c, t)))
  {
    var n := OuterNephew(c, t);
    var o := c.sib.Kid(c.side.Other());
    assert Even(o) && Calm(o) && BlackHeight(o.(black := true)) == BlackHeight(o) + 1;
    assert Even(o.(black := true)) && Calm(o.(black := true));
    assert Even(c.sib.Kid(c.side)) && Calm(c.sib.Kid(c.side));
    assert c.up.Step? ==> RootBlack(c.up);
    assert Even(n.Kid(c.side)) && Calm(n.Kid(c.side));
    assert Even(n) && Calm(n) && PathEven(c.up, BlackHeight(n));
    PlugAllEven(c.up, n);
    if c.up.Step? {
      PlugAllBlack(c.up, n);
    }
  }

  // ---------- Walking down ----------

  // A balanced tree seen from one of its subtrees.
  ghost predicate Balanced(c: Path, t: Shape) {
    && Even(t) && Calm(t) && PathEven(c, BlackHeight(t)) && PathCalm(c) && RootBlack(c)
    && (if c.Top? then IsBlack(t) else IsBlack(t) || c.black)
  }

  lemma DownBalanced(s: Side, c: Path, t: Shape)
    requires Balanced(c, t) && t.N?
    ensures Balanced(Down(s, c, t), t.Kid(s))
  {
  }

  lemma {:induction false} UpBalanced(c: Path, t: Shape)
    requires Balanced(c, t)
    ensures RedBlack(PlugAll(c, t))
  {
    PlugAllEven(c, t);
    if c.Step? {
      PlugAllBlack(c, t);
    }
  }
}
