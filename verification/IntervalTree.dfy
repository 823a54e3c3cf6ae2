/** The interval tree: insertion, deletion, the rotations and colour fix-ups, search and expansion. */
module IntervalTrees {
  import opened Words
  import opened Shapes
  import opened Rotations
  import opened MaxHigh
  import opened Balance
  import opened Deletion
  import opened Highest

  lemma RotateKeepsAll(m: Mem, root: Ptr, s: Side, c: Path, t: Shape, items: seq<Item>)
    requires Whole(m, root, c, t, items) && MaxOk(m) && t.N? && t.Kid(s.Other()).N?
    ensures t.p in m && m[t.p].Kid(s.Other()) in m
    ensures Whole(Rotate(m, s, t.p, c), RelinkRoot(root, c, t.Kid(s.Other()).p), c, Rot(s, t), items)
    ensures MaxOk(Rotate(m, s, t.p, c))
  {
    RotatePivoted(m, root, s, c, t, items);
    var m' := Rotate(m, s, t.p, c);
    PivotedWhole(m, m', root, s, c, t, items);
    RotFacts(m, root, s, c, t, items);
    FocusFacts(m, root, c, t, items);
    KidLinks(m, root, c, t, items);
    assert t.Kid(s).N? ==> t.Kid(s).p in Ptrs(t.Kid(s));
    PivotedMaxOk(m, m', s, t.p, t.Kid(s.Other()).p, t.Kid(s.Other()).Kid(s).Root(), c);
  }

  lemma PaintKeepsMax(m: Mem, q: Ptr, black: bool)
    requires q in m && MaxOk(m)
    ensures MaxOk(Paint(m, q, black)) && Painted(m, Paint(m, q, black))
  {
    var m' := Paint(m, q, black);
    forall x | x in m' ensures MaxAt(m', x) {
      assert MaxAt(m, x);
    }
  }

  // Uncle and parent turn black, the grandparent red.
  lemma RecolorKeepsAll(m: Mem, root: Ptr, c: Path, t: Shape, items: seq<Item>)
    requires Whole(m, root, c, t, items) && MaxOk(m) && UnderRed(c) && c.up.sib.N?
    ensures c.up.sib.p in m && c.p in m && c.up.p in m
    ensures var m' := Paint(Paint(Paint(m, c.up.sib.p, true), c.p, true), c.up.p, false);
      Whole(m', root, c.up.up, Recolored(c, t), items) && MaxOk(m')
  {
    PaintUncle(m, root, c, t, items, true);
    var m1 := Paint(m, c.up.sib.p, true);
    var c1 := c.(up := c.up.(sib := c.up.sib.(black := true)));
    PaintParent(m1, root, c1, t, items, true);
    var m2 := Paint(m1, c.p, true);
    var c2 := c1.(black := true);
    PaintGrandparent(m2, root, c2, t, items, false);
    var m3 := Paint(m2, c.up.p, false);
    var c3 := c2.(up := c2.up.(black := false));
    ZoomOut(m3, root, c3, t, items);
    ZoomOut(m3, root, c3.up, Plug(c3, t), items);
    PaintKeepsMax(m, c.up.sib.p, true);
    PaintKeepsMax(m1, c.p, true);
    PaintKeepsMax(m2, c.up.p, false);
  }

  // Parent black, grandparent red, seen from the grandparent.
  lemma RaiseKeepsAll(m: Mem, root: Ptr, c: Path, t: Shape, items: seq<Item>)
    requires Whole(m, root, c, t, items) && MaxOk(m) && UnderRed(c)
    ensures c.p in m && c.up.p in m
    ensures var m' := Paint(Paint(m, c.p, true), c.up.p, false);
      Whole(m', root, c.up.up, Plug(c.up.(black := false), Plug(c.(black := true), t)), items) && MaxOk(m')
  {
    PaintParent(m, root, c, t, items, true);
    var m1 := Paint(m, c.p, true);
    var c1 := c.(black := true);
    PaintGrandparent(m1, root, c1, t, items, false);
    var m2 := Paint(m1, c.up.p, false);
    var c2 := c1.(up := c1.up.(black := false));
    ZoomOut(m2, root, c2, t, items);
    ZoomOut(m2, root, c2.up, Plug(c2, t), items);
    PaintKeepsMax(m, c.p, true);
    PaintKeepsMax(m1, c.up.p, false);
  }

  lemma RaiseKeepsMax(m: Mem, q: Ptr, high: u64)
    requires q in m && NULL !in m && MaxOk(m) && m[q].maxHigh <= high && KidsLinked(m, m.Keys)
    requires m[q].parent in m ==> high <= m[m[q].parent].maxHigh
    ensures MaxOk(m[q := m[q].(maxHigh := high)])
  {
    var m' := m[q := m[q].(maxHigh := high)];
    forall x | x in m' ensures MaxAt(m', x) {
      assert MaxAt(m, x) && KidMaxAt(m, x, L) && KidMaxAt(m, x, R);
      assert m[x].Kid(L) == q ==> m[q].parent == x;
      assert m[x].Kid(R) == q ==> m[q].parent == x;
    }
  }

  lemma HangLeafKeepsMax(m: Mem, root: Ptr, c: Path, items: seq<Item>, node: Ptr, r: Rec)
    requires Whole(m, root, c, E, items) && MaxOk(m) && node != NULL && node !in m && r.left == r.right == NULL
    requires r.ext.end <= r.maxHigh && (c.Step? && c.p in m ==> r.maxHigh <= m[c.p].maxHigh)
    ensures MaxOk(HangLeaf(m, c, node, r))
  {
    var m' := HangLeaf(m, c, node, r);
    KidLinks(m, root, c, E, items);
    FocusFacts(m, root, c, E, items);
    forall x | x in m' ensures MaxAt(m', x) {
      if x != node {
        assert MaxAt(m, x) && KidMaxAt(m, x, L) && KidMaxAt(m, x, R);
        assert m[x].Kid(L) != node && m[x].Kid(R) != node;
      }
    }
  }

  // Sibling black, parent red, seen from the parent.
  lemma RedSiblingKeepsAll(m: Mem, root: Ptr, c: Path, t: Shape, items: seq<Item>)
    requires Whole(m, root, c, t, items) && MaxOk(m) && c.Step? && c.sib.N?
    ensures c.sib.p in m && c.p in m
    ensures var m' := Paint(Paint(m, c.sib.p, true), c.p, false);
      Whole(m', root, c.up, Plug(c.(black := false, sib := c.sib.(black := true)), t), items) && MaxOk(m')
  {
    PaintSibling(m, root, c, t, items, true);
    var m1 := Paint(m, c.sib.p, true);
    var c1 := c.(sib := c.sib.(black := true));
    PaintParent(m1, root, c1, t, items, false);
    ZoomOut(Paint(m1, c.p, false), root, c1.(black := false), t, items);
    PaintKeepsMax(m, c.sib.p, true);
    PaintKeepsMax(m1, c.p, false);
  }

  // Sibling red, seen from the parent.
  lemma BlackNephewsKeepAll(m: Mem, root: Ptr, c: Path, t: Shape, items: seq<Item>)
    requires Whole(m, root, c, t, items) && MaxOk(m) && c.Step? && c.sib.N?
    ensures c.sib.p in m
    ensures var m' := Paint(m, c.sib.p, false);
      Whole(m', root, c.up, Plug(c.(sib := c.sib.(black := false)), t), items) && MaxOk(m')
  {
    PaintSibling(m, root, c, t, items, false);
    ZoomOut(Paint(m, c.sib.p, false), root, c.(sib := c.sib.(black := false)), t, items);
    PaintKeepsMax(m, c.sib.p, false);
  }

  // Inner nephew black, sibling red, seen from the sibling.
  lemma InnerNephewKeepsAll(m: Mem, root: Ptr, c: Path, t: Shape, items: seq<Item>)
    requires Whole(m, root, c, t, items) && MaxOk(m) && c.Step? && c.sib.N? && c.sib.Kid(c.side).N?
    ensures c.sib.p in m && c.sib.Kid(c.side).p in m
    ensures var m' := Paint(Paint(m, c.sib.Kid(c.side).p, true), c.sib.p, false);
      Whole(m', root, NephewPath(c, t), WithInnerBlack(c), items) && MaxOk(m') && Painted(m, m')
  {
    PaintSiblingKid(m, root, c, t, items, c.side, true);
    var i := c.sib.Kid(c.side).p;
    var m1 := Paint(m, i, true);
    var c1 := c.(sib := WithKidBlack(c.sib, c.side, true));
    PaintSibling(m1, root, c1, t, items, false);
    var m2 := Paint(m1, c.sib.p, false);
    var c2 := c1.(sib := c1.sib.(black := false));
    ZoomOut(m2, root, c2, t, items);
    ZoomIn(m2, root, c2.up, Plug(c2, t), items, c.side.Other());
    PaintKeepsMax(m, i, true);
    PaintKeepsMax(m1, c.sib.p, false);
  }

  // Sibling in the parent's colour, parent and outer nephew black, seen from the parent.
  lemma OuterNephewKeepsAll(m: Mem, root: Ptr, c: Path, t: Shape, items: seq<Item>)
    requires Whole(m, root, c, t, items) && MaxOk(m) && c.Step? && c.sib.N? && c.sib.Kid(c.side.Other()).N?
    ensures c.sib.p in m && c.p in m && c.sib.Kid(c.side.Other()).p in m
    ensures var m' := Paint(Paint(Paint(m, c.sib.p, c.black), c.p, true), c.sib.Kid(c.side.Other()).p, true);
      Whole(m', root, c.up, WithOuterBlack(c, t), items) && MaxOk(m') && Painted(m, m')
  {
    var o := c.sib.Kid(c.side.Other()).p;
    PaintSibling(m, root, c, t, items, c.black);
    var m1 := Paint(m, c.sib.p, c.black);
    var c1 := c.(sib := c.sib.(black := c.black));
    PaintParent(m1, root, c1, t, items, true);
    var m2 := Paint(m1, c.p, true);
    var c2 := c1.(black := true);
    PaintSiblingKid(m2, root, c2, t, items, c.side.Other(), true);
    var m3 := Paint(m2, o, true);
    ZoomOut(m3, root, c2.(sib := WithKidBlack(c2.sib, c.side.Other(), true)), t, items);
    PaintKeepsMax(m, c.sib.p, c.black);
    PaintKeepsMax(m1, c.p, true);
    PaintKeepsMax(m2, o, true);
  }

  // The items ahead of position k are before the key, those from it on are after the key.
  ghost predicate PlacedAt(items: seq<Item>, k: nat, place: Place) {
    && k <= |items| && (forall i :: 0 <= i < k ==> place.before(items[i].ext))
    && (forall i :: k <= i < |items| ==> place.after(items[i].ext))
  }

  lemma BracketedAtTop(m: Mem, root: Ptr, t: Shape, items: seq<Item>, place: Place)
    requires Whole(m, root, Top, t, items)
    ensures Bracketed(Top, t, items, place)
  {
  }

  lemma InsertedPtrs(items: seq<Item>, at: nat, it: Item)
    requires at <= |items|
    ensures ItemPtrs(items[..at] + [it] + items[at..]) == ItemPtrs(items) + {it.p}
  {
    assert items == items[..at] + items[at..];
    ItemPtrsConcat(items[..at], items[at..]);
    ItemPtrsConcat(items[..at] + [it], items[at..]);
    ItemPtrsConcat(items[..at], [it]);
    assert ItemPtrs([it]) == {it.p};
  }

  class Tree {
    var root: Ptr
    var mem: Mem
    // In-order listing, and the subtree `cur` (at the hole of `path`) that the running operation works on.
    ghost var items: seq<Item>
    ghost var path: Path
    ghost var cur: Shape

    constructor ()
      ensures Valid() && items == []
    {
      root, mem, items, path, cur := NULL, map[], [], Top, E;
    }

    ghost predicate InOrder()
      reads this
    {
      Whole(mem, root, path, cur, items) && MaxOk(mem)
    }

    ghost predicate Valid()
      reads this
    {
      InOrder() && path.Top? && RedBlack(cur)
    }

    /** Every bound is the greatest end in its subtree. */
    ghost predicate Exact()
      reads this
    {
      ExactAt(mem, path, cur)
    }

    method AdoptChild(child: Ptr, parent: Ptr)
      requires NULL !in mem && (child != NULL ==> child in mem)
      modifies `mem
      ensures mem == Adopt(old(mem), child, parent)
    {
      if child != NULL {
        mem := mem[child := mem[child].(parent := parent)];
      }
    }

    // The link that led from parent to `from` leads to `to` afterwards.
    method ReplaceChild(parent: Ptr, from: Ptr, to: Ptr)
      requires parent == path.Parent()
      requires path.Step? ==> parent != NULL && parent in mem && (mem[parent].left == from <==> path.side.L?)
      modifies `mem, `root
      ensures mem == Relink(old(mem), path, to) && root == RelinkRoot(old(root), path, to)
    {
      if parent != NULL {
        if mem[parent].left == from {
          mem := mem[parent := mem[parent].(left := to)];
        } else {
          mem := mem[parent := mem[parent].(right := to)];
        }
      } else {
        root := to;
      }
    }

    method RotateChangeMaxHigh(node: Ptr, rotate: Ptr)
      requires node in mem && rotate in mem && NULL !in mem
      requires node != rotate && (mem[node].left != NULL ==> mem[node].left in mem)
      requires (mem[node].right != NULL ==> mem[node].right in mem)
      modifies `mem
      ensures var m := old(mem)[rotate := old(mem)[rotate].(maxHigh := old(mem)[node].maxHigh)];
        mem == m[node := m[node].(maxHigh := MaxHighFrom(m, m[node].ext.end, m[node].left, m[node].right))]
    {
      mem := mem[rotate := mem[rotate].(maxHigh := mem[node].maxHigh)];
      var leftMax: u64 := if mem[node].left != NULL then mem[mem[node].left].maxHigh else 0;
      var rightMax: u64 := if mem[node].right != NULL then mem[mem[node].right].maxHigh else 0;
      mem := mem[node := mem[node].(maxHigh := Max(mem[node].ext.end, Max(leftMax, rightMax)))];
    }

    // The pointer updates of __rotate_left (s == L) and __rotate_right (s == R), which mirror each other.
    method Pivot(s: Side, node: Ptr)
      requires NULL !in mem && node in mem && mem[node].Kid(s.Other()) in mem && mem[node].parent == path.Parent()
      requires var y := mem[node].Kid(s.Other()); var b := mem[y].Kid(s); var a := mem[node].Kid(s);
        && node != y && b != node && b != y && (b != NULL ==> b in mem) && (a != NULL ==> a in mem) && a != node
        && (path.Step? ==>
              && path.p in mem && path.p != node && path.p != y && path.p != b
              && (mem[path.p].left == node <==> path.side.L?))
      modifies `mem, `root
      ensures mem == Rotate(old(mem), s, node, path)
      ensures root == RelinkRoot(old(root), path, old(mem[node].Kid(s.Other())))
    {
      var lifted := mem[node].Kid(s.Other());
      var parent := mem[node].parent;
      mem := mem[node := mem[node].WithKid(s.Other(), mem[lifted].Kid(s))];
      AdoptChild(mem[lifted].Kid(s), node);
      mem := mem[lifted := mem[lifted].WithKid(s, node).(parent := parent)];
      ReplaceChild(parent, node, lifted);
      mem := mem[node := mem[node].(parent := lifted)];
      RotateChangeMaxHigh(node, lifted);
    }

    method RotateTo(s: Side, node: Ptr)
      requires InOrder() && cur.N? && cur.p == node && cur.Kid(s.Other()).N?
      modifies `mem, `root, `cur
      ensures InOrder() && cur == Rot(s, old(cur)) && Turned(old(mem), mem, s, old(cur))
    {
      RotFacts(mem, root, s, path, cur, items);
      FocusFacts(mem, root, path, cur, items);
      RotateKeepsAll(mem, root, s, path, cur, items);
      RotateTurns(mem, root, s, path, cur, items);
      assert cur.Kid(s).N? ==> cur.Kid(s).p in Ptrs(cur.Kid(s));
      Pivot(s, node);
      cur := Rot(s, cur);
    }

    // Case "red uncle" of interval_insert_color.
    method RecolorUncle(parent: Ptr, gparent: Ptr, uncle: Ptr)
      requires InOrder() && Inserted(path, cur) && UnderRed(path) && path.up.sib.N? && !path.up.sib.black
      requires parent == path.p && gparent == path.up.p && uncle == path.up.sib.p
      modifies `mem, `path, `cur
      ensures InOrder() && path == old(path.up.up) && cur.N? && cur.p == gparent && Inserted(path, cur)
      ensures old(Exact()) ==> Exact()
      ensures PathLen(path) < old(PathLen(path))
    {
      hide Whole, ExactAt;
      RecolorKeepsAll(mem, root, path, cur, items);
      RecolorStep(path, cur);
      ghost var m := mem;
      mem := mem[uncle := mem[uncle].(black := true)];
      mem := mem[parent := mem[parent].(black := true)];
      mem := mem[gparent := mem[gparent].(black := false)];
      if ExactAt(m, path, cur) {
        RecoloredExact(m, mem, path, cur);
      }
      path, cur := path.up.up, Recolored(path, cur);
    }

    // The inner child is rotated outwards; afterwards the old parent is the node to look at.
    method TurnOutwards(s: Side, parent: Ptr)
      requires InOrder() && Inserted(path, cur) && UnderRed(path) && path.side != path.up.side && s == path.up.side
      requires parent == path.p
      modifies `mem, `root, `path, `cur
      ensures InOrder() && path == old(InnerPath(path, cur)) && cur == old(InnerShape(path, cur))
      ensures Inserted(path, cur) && UnderRed(path) && path.side == path.up.side
      ensures old(Exact()) ==> Exact()
      ensures PathLen(path) == old(PathLen(path))
    {
      hide Whole, ExactAt, Turned;
      InnerStep(path, cur);
      ZoomOut(mem, root, path, cur, items);
      ghost var c, t, m := path, cur, mem;
      path, cur := path.up, Plug(path, cur);
      WholePtrs(mem, root, path, cur, items);
      RotateTo(s, parent);
      if ExactAt(m, c, t) {
        InnerExact(m, mem, c, t);
      }
      ZoomIn(mem, root, path, cur, items, s);
      path, cur := InnerPath(c, t), InnerShape(c, t);
    }

    // Parent black, grandparent red, rotation at the grandparent.
    method RaiseParent(s: Side, parent: Ptr, gparent: Ptr)
      requires InOrder() && Inserted(path, cur) && UnderRed(path) && path.side == path.up.side && s == path.side
      requires IsBlack(path.up.sib) && parent == path.p && gparent == path.up.p
      modifies `mem, `root, `path, `cur
      ensures InOrder() && cur == old(cur) && path == old(OuterPath(path)) && Inserted(path, cur)
      ensures old(Exact()) ==> Exact()
      ensures PathLen(path) < old(PathLen(path))
    {
      hide Whole, ExactAt, Turned, MaxOk, Inserted;
      RaiseKeepsAll(mem, root, path, cur, items);
      OuterStep(path, cur);
      ghost var c, t, m := path, cur, mem;
      mem := mem[parent := mem[parent].(black := true)];
      mem := mem[gparent := mem[gparent].(black := false)];
      path, cur := path.up.up, Plug(path.up.(black := false), Plug(path.(black := true), cur));
      ghost var m1 := mem;
      WholePtrs(mem, root, path, cur, items);
      RotateTo(s.Other(), gparent);
      if ExactAt(m, c, t) {
        OuterExact(m, m1, mem, c, t);
      }
      ZoomIn(mem, root, path, cur, items, s);
      path, cur := OuterPath(c), t;
    }

    // (*root)->in_color = INTERVAL_BLACK, the focus moving to the whole tree.
    method PaintRoot()
      requires InOrder() && Even(PlugAll(path, cur)) && Calm(PlugAll(path, cur)) && root in mem
      modifies `mem, `path, `cur
      ensures Valid() && Sides(mem, path) && (Exact() <==> old(Exact()))
    {
      hide Whole, ExactAt;
      ZoomToTop(mem, root, path, cur, items);
      TopExact(mem, path, cur);
      path, cur := Top, PlugAll(path, cur);
      FocusFacts(mem, root, path, cur, items);
      PaintFocus(mem, root, path, cur, items, true);
      PaintKeepsMax(mem, root, true);
      ghost var m := mem;
      mem := mem[root := mem[root].(black := true)];
      PaintedExact(m, mem, path, cur);
      FocusPainted(mem, path, cur, true);
      cur := cur.(black := true);
    }

    lemma FamilyFacts()
      requires InOrder() && Inserted(path, cur) && path.Step? && !path.black
      ensures UnderRed(path)
      ensures path.p in mem && mem[path.p].parent == path.up.p && path.up.p in mem && path.up.p != NULL
      ensures mem[path.up.p].left == path.p <==> path.up.side.L?
      ensures mem[path.up.p].Kid(path.up.side.Other()) == path.up.sib.Root()
      ensures path.up.sib.N? ==>
        path.up.sib.p in mem && path.up.sib.p != NULL && mem[path.up.sib.p].black == path.up.sib.black
      ensures mem[path.p].Kid(path.side) == cur.p && mem[path.p].Kid(path.side.Other()) != cur.p
      ensures root in mem
    {
      RedParentIsInside(path);
      FocusFacts(mem, root, path, cur, items);
      ZoomOut(mem, root, path, cur, items);
      FocusFacts(mem, root, path.up, Plug(path, cur), items);
      RootOnPath(mem, path, cur.Root(), root);
    }

    // One round of the loop of interval_insert_color.  The two branches of the source mirror each other:
    // s is the side the parent is on.
    method InsertColorRound(node: Ptr, parent: Ptr, gparent: Ptr) returns (node': Ptr)
      requires InOrder() && Inserted(path, cur) && path.Step? && !path.black && UnderRed(path)
      requires node == cur.p && parent == path.p && gparent == path.up.p
      modifies `mem, `root, `path, `cur
      ensures InOrder() && Inserted(path, cur) && node' == cur.p && PathLen(path) < old(PathLen(path))
      ensures old(Exact()) ==> Exact()
    {
      hide Whole, ExactAt;
      FamilyFacts();
      var s := if mem[gparent].left == parent then L else R;
      var uncle := mem[gparent].Kid(s.Other());
      if uncle != NULL && !mem[uncle].black {
        RecolorUncle(parent, gparent, uncle);
        node' := gparent;
      } else if mem[parent].Kid(s.Other()) == node {
        TurnOutwards(s, parent);
        RaiseParent(s, node, gparent);
        node' := parent;
      } else {
        RaiseParent(s, parent, gparent);
        node' := node;
      }
    }

    method InsertColor(inserted: Ptr)
      requires InOrder() && cur.N? && cur.p == inserted && Inserted(path, cur)
      modifies `mem, `root, `path, `cur
      ensures Valid() && (old(Exact()) ==> Exact())
    {
      hide Whole, ExactAt;
      var node := inserted;
      FocusFacts(mem, root, path, cur, items);
      var parent := mem[node].parent;
      while parent != NULL && !mem[parent].black
        invariant InOrder() && Inserted(path, cur) && cur.p == node && parent == path.Parent()
        invariant old(Exact()) ==> Exact()
        invariant path.Step? ==> parent in mem && parent != NULL && mem[parent].black == path.black
        decreases PathLen(path)
      {
        FamilyFacts();
        node := InsertColorRound(node, parent, mem[parent].parent);
        FocusFacts(mem, root, path, cur, items);
        parent := mem[node].parent;
      }
      PlugAllEven(path, cur);
      FocusFacts(mem, root, path, cur, items);
      PaintRoot();
    }

    // The search for the place of a new node stands at walk, reached through the link (parent, s).
    ghost predicate Descending(walk: Ptr, parent: Ptr, s: Side, ext: Extent, place: Place)
      reads this
    {
      && InOrder() && Balanced(path, cur) && Splits(items, place) && Bracketed(path, cur, items, place)
      && walk == cur.Root() && parent == path.Parent()
      && (path.Step? ==> parent in mem && s == path.side && ext.end <= mem[parent].maxHigh)
    }

    // max_high is raised on the way down.
    method RaiseMaxHigh(walk: Ptr, ghost parent: Ptr, ghost s: Side, ext: Extent, ghost place: Place)
      requires Descending(walk, parent, s, ext, place) && walk in mem
      modifies `mem
      ensures Descending(walk, parent, s, ext, place) && mem.Keys == old(mem.Keys)
      ensures walk in mem && ext.end <= mem[walk].maxHigh && mem[walk].ext == old(mem)[walk].ext
      ensures old(Lifted(mem, path, cur, ext.end)) ==> LiftedHere(mem, path, cur, ext.end)
    {
      hide Whole, Lifted, LiftedHere;
      FocusFacts(mem, root, path, cur, items);
      ghost var m := mem;
      if mem[walk].maxHigh < ext.end {
        KidLinks(mem, root, path, cur, items);
        RaiseKeepsMax(mem, walk, ext.end);
        WholeIgnoresMaxHigh(mem, mem[walk := mem[walk].(maxHigh := ext.end)], root, path, cur, items);
        mem := mem[walk := mem[walk].(maxHigh := ext.end)];
      }
      if Lifted(m, path, cur, ext.end) {
        LiftRoot(m, mem, root, path, cur, items, ext.end);
      }
    }

    method StepDown(walk: Ptr, ghost parent: Ptr, ghost s: Side, ext: Extent, place: Place)
      returns (next: Ptr, side: Side)
      requires Descending(walk, parent, s, ext, place) && walk in mem && ext.end <= mem[walk].maxHigh
      requires place.before(mem[walk].ext) || place.after(mem[walk].ext)
      modifies `path, `cur
      ensures Descending(next, walk, side, ext, place) && old(cur.N?) && cur == old(cur).Kid(side)
      ensures old(LiftedHere(mem, path, cur, ext.end)) ==> Lifted(mem, path, cur, ext.end)
    {
      hide Whole, Splits, Lifted, LiftedHere;
      FocusFacts(mem, root, path, cur, items);
      side := if place.after(mem[walk].ext) then L else R;
      next := mem[walk].Kid(side);
      ZoomIn(mem, root, path, cur, items, side);
      DownBalanced(side, path, cur);
      DownBracketed(mem, root, path, cur, items, place);
      if LiftedHere(mem, path, cur, ext.end) {
        LiftDown(mem, path, cur, side, ext.end);
      }
      path, cur := Down(side, path, cur), cur.Kid(side);
    }

    // The new node, all fields set, is hung where the search ended; p stands for the link (parent, s).
    method LinkNode(node: Ptr, ext: Extent, parent: Ptr, s: Side, ghost place: Place)
      requires Descending(NULL, parent, s, ext, place) && node != NULL && node !in mem
      modifies `mem, `root, `cur, `items
      ensures InOrder() && cur.N? && cur.p == node && Inserted(path, cur)
      ensures items == old(items)[..|Before(path)|] + [Item(node, ext)] + old(items)[|Before(path)|..]
      ensures |Before(path)| <= |old(items)| && PlacedAt(old(items), |Before(path)|, place)
      ensures old(Lifted(mem, path, cur, ext.end)) ==> Exact()
    {
      hide Whole, Splits, Lifted, ExactAt;
      var r := Rec(NULL, NULL, parent, false, ext.end, ext);
      FocusFacts(mem, root, path, cur, items);
      assert cur == E;
      HoleItems(mem, root, path, items);
      HangLeafWhole(mem, root, path, items, node, r);
      HangLeafKeepsMax(mem, root, path, items, node, r);
      WholePtrs(mem, root, path, cur, items);
      ghost var m := mem;
      mem := mem[node := r];
      if parent != NULL {
        mem := mem[parent := mem[parent].WithKid(s, node)];
      } else {
        root := node;
      }
      if Lifted(m, path, cur, ext.end) {
        LiftLeaf(m, mem, path, node, ext);
      }
      cur := N(node, false, ext, E, E);
      items := Before(path) + [Item(node, ext)] + After(path);
    }

    ghost method BackToTop()
      requires InOrder() && Balanced(path, cur)
      modifies `path, `cur
      ensures Valid() && Sides(mem, path) && (Exact() <==> old(Exact()))
    {
      hide Whole, ExactAt;
      TopExact(mem, path, cur);
      UpBalanced(path, cur);
      ZoomToTop(mem, root, path, cur, items);
      path, cur := Top, PlugAll(path, cur);
    }

    // Returns the node that already has this extent, or NULL when node was inserted.
    method Insert(node: Ptr, ext: Extent) returns (found: Ptr, ghost at: nat)
      requires Valid() && Sorted(items) && node != NULL && node !in mem
      modifies this
      ensures Valid() && Sorted(items)
      ensures found != NULL ==> items == old(items) && Item(found, ext) in items
      ensures found == NULL ==>
        at <= |old(items)| && items == old(items)[..at] + [Item(node, ext)] + old(items)[at..]
      ensures old(Exact()) ==> Exact()
    {
      hide Whole, Splits, Bracketed, Sorted, MaxOk, Inserted;
      var walk, parent, s := root, NULL, L;
      var place := PlaceOf(ext);
      at := 0;
      SortedSplits(items, ext);
      BracketedAtTop(mem, root, cur, items, place);
      FocusFacts(mem, root, path, cur, items);
      while walk != NULL
        invariant Descending(walk, parent, s, ext, place) && items == old(items) && mem.Keys == old(mem.Keys)
        invariant old(Exact()) ==> Lifted(mem, path, cur, ext.end)
        decreases cur
      {
        FocusFacts(mem, root, path, cur, items);
        if mem[walk].ext == ext {
          FocusPlace(mem, root, path, cur, items);
          found := walk;
          BackToTop();
          return;
        }
        RaiseMaxHigh(walk, parent, s, ext, place);
        var next, side := StepDown(walk, parent, s, ext, place);
        parent, walk, s := walk, next, side;
      }
      found, at := NULL, |Before(path)|;
      LinkNode(node, ext, parent, s, place);
      SortedInsert(old(items), at, Item(node, ext));
      InsertColor(node);
    }

    /** rb_insert: the comparison alone decides, so that nodes that compare alike may be side by side.  goesLeft(e) says
      * that the new node compares less than one with key e.
      */
    method InsertBy(node: Ptr, ext: Extent, goesLeft: Extent -> bool) returns (ghost at: nat)
      requires Valid() && node != NULL && node !in mem && Splits(items, PlaceBy(goesLeft))
      modifies this
      ensures Valid() && at <= |old(items)| && PlacedAt(old(items), at, PlaceBy(goesLeft))
      ensures items == old(items)[..at] + [Item(node, ext)] + old(items)[at..] && mem.Keys == old(mem.Keys) + {node}
      ensures old(Exact()) ==> Exact()
    {
      hide Whole, Splits, Bracketed, PlacedAt, MaxOk, Inserted;
      var walk, parent, s := root, NULL, L;
      var place := PlaceBy(goesLeft);
      BracketedAtTop(mem, root, cur, items, place);
      FocusFacts(mem, root, path, cur, items);
      KeysAreItems(mem, root, path, cur, items);
      while walk != NULL
        invariant Descending(walk, parent, s, ext, place) && items == old(items) && mem.Keys == old(mem.Keys)
        invariant old(Exact()) ==> Lifted(mem, path, cur, ext.end)
        decreases cur
      {
        FocusFacts(mem, root, path, cur, items);
        RaiseMaxHigh(walk, parent, s, ext, place);
        var next, side := StepDown(walk, parent, s, ext, place);
        parent, walk, s := walk, next, side;
      }
      at := |Before(path)|;
      LinkNode(node, ext, parent, s, place);
      InsertColor(node);
      KeysAreItems(mem, root, path, cur, items);
      InsertedPtrs(old(items), at, Item(node, ext));
    }

    // ---------- interval_erase_color ----------

    // The repair stands at node, the possibly empty child of parent at the hole of path.
    ghost predicate Repairing(node: Ptr, parent: Ptr)
      reads this
    {
      InOrder() && Short(path, cur) && node == cur.Root() && (path.Step? ==> parent == path.p)
    }

    // What the repair reads around a short subtree.
    lemma NephewFacts(parent: Ptr)
      requires InOrder() && Short(path, cur) && path.Step? && parent == path.p
      ensures path.sib.N? && NULL !in mem && parent in mem && path.sib.p in mem && root in mem
      ensures mem[parent].Kid(path.side.Other()) == path.sib.p && (mem[parent].left == cur.Root() <==> path.side.L?)
      ensures mem[parent].black == path.black && mem[path.sib.p].black == path.sib.black
      ensures mem[path.sib.p].left == path.sib.l.Root() && mem[path.sib.p].right == path.sib.r.Root()
      ensures path.sib.l.N? ==> path.sib.l.p in mem && mem[path.sib.l.p].black == path.sib.l.black
      ensures path.sib.r.N? ==> path.sib.r.p in mem && mem[path.sib.r.p].black == path.sib.r.black
    {
      SiblingExists(path, cur);
      FocusFacts(mem, root, path, cur, items);
      assert Rep(mem, path.sib, path.p);
      assert Rep(mem, path.sib.l, path.sib.p) && Rep(mem, path.sib.r, path.sib.p);
    }

    predicate BlackOr0(q: Ptr)
      reads this
      requires q != NULL ==> q in mem
    {
      q == NULL || mem[q].black
    }

    // The sibling is red.
    method LiftRedSibling(s: Side, parent: Ptr, tmp: Ptr)
      requires InOrder() && Short(path, cur) && path.Step? && parent == path.p && s == path.side
      requires path.sib.N? && !path.sib.black && tmp == path.sib.p
      modifies `mem, `root, `path, `cur
      ensures InOrder() && Short(path, cur) && path.Step? && parent == path.p && s == path.side
      ensures path == old(RedSiblingPath(path)) && cur == old(cur) && path.sib.N? && path.sib.black
      ensures old(Sides(mem, path)) ==> Sides(mem, path) && (Exact() <==> old(Exact()))
      ensures PathLen(path) == old(PathLen(path)) + 1 && !path.black
    {
      hide Whole, ExactAt, Sides, Turned, Short, MaxOk;
      RedSiblingKeepsAll(mem, root, path, cur, items);
      RedSiblingStep(path, cur);
      ghost var c, t, m := path, cur, mem;
      mem := mem[tmp := mem[tmp].(black := true)];
      mem := mem[parent := mem[parent].(black := false)];
      path, cur := c.up, Plug(c.(black := false, sib := c.sib.(black := true)), t);
      ghost var m1 := mem;
      WholePtrs(mem, root, path, cur, items);
      RotateTo(s, parent);
      if Sides(m, c) {
        RedSiblingExact(m, m1, mem, c, t);
      }
      ZoomIn(mem, root, path, cur, items, s);
      ZoomIn(mem, root, Down(s, path, cur), cur.Kid(s), items, s);
      path, cur := RedSiblingPath(c), t;
    }

    // Both nephews are black.
    method ReddenSibling(parent: Ptr, tmp: Ptr)
      requires InOrder() && Short(path, cur) && path.Step? && parent == path.p && IsBlack(cur)
      requires path.sib.N? && path.sib.black && IsBlack(path.sib.l) && IsBlack(path.sib.r) && tmp == path.sib.p
      modifies `mem, `path, `cur
      ensures InOrder() && Short(path, cur) && path == old(path.up) && cur.N? && cur.p == parent
      ensures old(Sides(mem, path)) ==> Sides(mem, path) && (Exact() <==> old(Exact()))
      ensures PathLen(path) == old(PathLen(path)) - 1 && cur.black == old(path.black)
    {
      hide Whole, ExactAt, Sides;
      BlackNephewsKeepAll(mem, root, path, cur, items);
      BlackNephewsStep(path, cur);
      ghost var m := mem;
      mem := mem[tmp := mem[tmp].(black := false)];
      if Sides(m, path) {
        BlackNephewsExact(m, mem, path, cur);
      }
      path, cur := path.up, Plug(path.(sib := path.sib.(black := false)), cur);
    }

    // Only the inner nephew is red: it turns black and the sibling red, seen from the sibling.
    method PaintInnerNephew(s: Side, parent: Ptr, tmp: Ptr)
      requires InOrder() && Short(path, cur) && path.Step? && parent == path.p && s == path.side
      requires path.sib.N? && path.sib.Kid(s).N? && tmp == path.sib.p
      modifies `mem, `path, `cur
      ensures InOrder() && path == old(NephewPath(path, cur)) && cur == old(WithInnerBlack(path))
      ensures Painted(old(mem), mem) && Ptrs(cur) !! PathPtrs(path)
    {
      hide Whole, Short, MaxOk, Painted;
      NephewFacts(parent);
      InnerNephewKeepsAll(mem, root, path, cur, items);
      var inner := mem[tmp].Kid(s);
      mem := mem[inner := mem[inner].(black := true)];
      mem := mem[tmp := mem[tmp].(black := false)];
      path, cur := NephewPath(path, cur), WithInnerBlack(path);
      WholePtrs(mem, root, path, cur, items);
    }

    method TurnNephew(s: Side, parent: Ptr, tmp: Ptr)
      requires InOrder() && Short(path, cur) && path.Step? && parent == path.p && s == path.side
      requires path.sib.N? && path.sib.black && tmp == path.sib.p
      requires IsBlack(path.sib.Kid(s.Other())) && !IsBlack(path.sib.Kid(s))
      modifies `mem, `root, `path, `cur
      ensures InOrder() && Short(path, cur) && cur == old(cur) && path == old(InnerNephewPath(path))
      ensures old(Sides(mem, path)) ==> Sides(mem, path) && (Exact() <==> old(Exact()))
      ensures path.sib.N? && path.sib.black && !IsBlack(path.sib.Kid(s.Other()))
    {
      hide Whole, ExactAt, Sides, Turned, Short, Painted, MaxOk;
      InnerNephewStep(path, cur);
      ghost var c, t, m := path, cur, mem;
      PaintInnerNephew(s, parent, tmp);
      ghost var m1 := mem;
      RotateTo(s.Other(), tmp);
      if Sides(m, c) {
        InnerNephewExact(m, m1, mem, c, t);
      }
      ZoomOut(mem, root, path, cur, items);
      ZoomIn(mem, root, c.up, Plug(path, cur), items, s);
      path, cur := InnerNephewPath(c), t;
    }

    // The outer nephew is red: it turns black, and sibling and parent change colours, seen from the parent.
    method PaintOuterNephew(s: Side, parent: Ptr, tmp: Ptr)
      requires InOrder() && Short(path, cur) && path.Step? && parent == path.p && s == path.side
      requires path.sib.N? && path.sib.Kid(s.Other()).N? && tmp == path.sib.p
      modifies `mem, `path, `cur
      ensures InOrder() && path == old(path.up) && cur == old(WithOuterBlack(path, cur))
      ensures Painted(old(mem), mem) && Ptrs(cur) !! PathPtrs(path)
    {
      hide Whole, Short, MaxOk, Painted;
      NephewFacts(parent);
      OuterNephewKeepsAll(mem, root, path, cur, items);
      var outer := mem[tmp].Kid(s.Other());
      mem := mem[tmp := mem[tmp].(black := mem[parent].black)];
      mem := mem[parent := mem[parent].(black := true)];
      mem := mem[outer := mem[outer].(black := true)];
      path, cur := path.up, WithOuterBlack(path, cur);
      WholePtrs(mem, root, path, cur, items);
    }

    // The last rotation.
    method SettleWithNephew(s: Side, parent: Ptr, tmp: Ptr)
      requires InOrder() && Short(path, cur) && path.Step? && parent == path.p && s == path.side && IsBlack(cur)
      requires path.sib.N? && path.sib.black && tmp == path.sib.p && !IsBlack(path.sib.Kid(s.Other()))
      modifies `mem, `root, `path, `cur
      ensures Valid() && root in mem
      ensures old(Sides(mem, path)) ==> Sides(mem, path) && (Exact() <==> old(Exact()))
    {
      hide Whole, ExactAt, Sides, Turned, Short, Painted, MaxOk;
      OuterNephewStep(path, cur);
      ghost var c, t, m := path, cur, mem;
      PaintOuterNephew(s, parent, tmp);
      ghost var m1 := mem;
      RotateTo(s, parent);
      if Sides(m, c) {
        OuterNephewExact(m, m1, mem, c, t);
      }
      ZoomToTop(mem, root, path, cur, items);
      TopExact(mem, path, cur);
      FocusFacts(mem, root, path, cur, items);
      path, cur := Top, PlugAll(path, cur);
    }

    // A red sibling gives way to a black one.
    method BlackenSibling(s: Side, parent: Ptr) returns (tmp: Ptr)
      requires InOrder() && Short(path, cur) && path.Step? && parent == path.p && s == path.side
      modifies `mem, `root, `path, `cur
      ensures InOrder() && Short(path, cur) && path.Step? && parent == path.p && s == path.side && cur == old(cur)
      ensures path.sib.N? && path.sib.black && tmp == path.sib.p
      ensures old(Sides(mem, path)) ==> Sides(mem, path) && (Exact() <==> old(Exact()))
      ensures PathLen(path) == old(PathLen(path)) || (PathLen(path) == old(PathLen(path)) + 1 && !path.black)
    {
      hide Whole, ExactAt, Sides;
      NephewFacts(parent);
      tmp := mem[parent].Kid(s.Other());
      if !mem[tmp].black {
        LiftRedSibling(s, parent, tmp);
        NephewFacts(parent);
        tmp := mem[parent].Kid(s.Other());
      }
    }

    // The sibling is black and at least one nephew red.
    method SettleRedNephew(s: Side, parent: Ptr, sibling: Ptr)
      requires InOrder() && Short(path, cur) && path.Step? && parent == path.p && s == path.side && IsBlack(cur)
      requires path.sib.N? && path.sib.black && sibling == path.sib.p && !(IsBlack(path.sib.l) && IsBlack(path.sib.r))
      modifies `mem, `root, `path, `cur
      ensures Valid() && root in mem
      ensures old(Sides(mem, path)) ==> Sides(mem, path) && (Exact() <==> old(Exact()))
    {
      hide Whole, ExactAt, Sides;
      var tmp := sibling;
      NephewFacts(parent);
      if BlackOr0(mem[tmp].Kid(s.Other())) {
        TurnNephew(s, parent, tmp);
        NephewFacts(parent);
        tmp := mem[parent].Kid(s.Other());
      }
      SettleWithNephew(s, parent, tmp);
    }

    // One round of the loop of interval_erase_color.  The two branches of the source mirror each other:
    // s is the side node is on.
    method EraseColorRound(node: Ptr, parent: Ptr) returns (node': Ptr, parent': Ptr, done: bool)
      requires Repairing(node, parent) && path.Step? && IsBlack(cur)
      modifies `mem, `root, `path, `cur
      ensures done ==> Valid() && node' == root && root in mem
      ensures !done ==> Repairing(node', parent') && node' in mem
      ensures old(Sides(mem, path)) ==> Sides(mem, path) && (Exact() <==> old(Exact()))
      ensures !done ==> PathLen(path) < old(PathLen(path)) || (PathLen(path) == old(PathLen(path)) && !IsBlack(cur))
    {
      hide Whole, ExactAt, Sides;
      NephewFacts(parent);
      var s := if mem[parent].left == node then L else R;
      var tmp := BlackenSibling(s, parent);
      NephewFacts(parent);
      if BlackOr0(mem[tmp].left) && BlackOr0(mem[tmp].right) {
        ReddenSibling(parent, tmp);
        FocusFacts(mem, root, path, cur, items);
        node', parent', done := parent, mem[parent].parent, false;
      } else {
        SettleRedNephew(s, parent, tmp);
        node', parent', done := root, NULL, true;
      }
    }

    // if (node) node->in_color = INTERVAL_BLACK
    method PaintNode(node: Ptr)
      requires Repairing(node, path.Parent()) && cur.N? && (path.Top? || !IsBlack(cur))
      modifies `mem, `cur
      ensures InOrder() && Balanced(path, cur)
      ensures old(Sides(mem, path)) ==> Sides(mem, path) && (Exact() <==> old(Exact()))
    {
      hide Whole, ExactAt, Sides;
      FocusFacts(mem, root, path, cur, items);
      PaintFocus(mem, root, path, cur, items, true);
      PaintKeepsMax(mem, node, true);
      ghost var m := mem;
      mem := mem[node := mem[node].(black := true)];
      PaintedExact(m, mem, path, cur);
      FocusPainted(mem, path, cur, true);
      cur := cur.(black := true);
    }

    method EraseColor(child: Ptr, above: Ptr)
      requires Repairing(child, above)
      modifies `mem, `root, `path, `cur
      ensures Valid()
      ensures old(Sides(mem, path)) ==> Sides(mem, path) && (Exact() <==> old(Exact()))
    {
      hide Whole, ExactAt, Sides;
      var node, parent, done := child, above, false;
      FocusFacts(mem, root, path, cur, items);
      while !done && BlackOr0(node) && node != root
        invariant if done then Valid() && node == root else Repairing(node, parent)
        invariant NULL !in mem && (node != NULL ==> node in mem) && (done ==> root in mem)
        invariant old(Sides(mem, path)) ==> Sides(mem, path) && (Exact() <==> old(Exact()))
        decreases if done then 0 else 1, PathLen(path), IsBlack(cur)
      {
        FocusFacts(mem, root, path, cur, items);
        node, parent, done := EraseColorRound(node, parent);
        FocusFacts(mem, root, path, cur, items);
      }
      FocusFacts(mem, root, path, cur, items);
      if node != NULL {
        if done {
          PaintRoot();
        } else {
          PaintNode(node);
          BackToTop();
        }
      }
    }

    // ---------- interval_erase ----------

    // Moves the focus from the whole tree to the subtree rooted at node.
    ghost method FocusOn(node: Ptr)
      requires Valid() && node in mem
      modifies `path, `cur
      ensures InOrder() && Balanced(path, cur) && cur.N? && cur.p == node && (Exact() <==> old(Exact()))
    {
      hide Whole, ExactAt;
      WholePtrs(mem, root, path, cur, items);
      while cur.p != node
        invariant InOrder() && Balanced(path, cur) && node in Ptrs(cur) && (Exact() <==> old(Exact()))
        decreases cur
      {
        var s := if node in Ptrs(cur.l) then L else R;
        PlugExact(mem, Down(s, path, cur), cur.Kid(s));
        ZoomIn(mem, root, path, cur, items, s);
        DownBalanced(s, path, cur);
        path, cur := Down(s, path, cur), cur.Kid(s);
      }
    }

    // Walks from the right child of node down its left links, as interval_next does when there is a right child.
    method Successor(node: Ptr) returns (succ: Ptr)
      requires InOrder() && Balanced(path, cur) && cur.N? && cur.p == node && cur.r.N?
      modifies `path, `cur
      ensures InOrder() && Balanced(path, cur) && cur.N? && cur.p == succ && cur.l.E?
      ensures OnPath(path, node) && Above(path, node) == old(path) && PlugTo(path, cur, node) == old(cur)
      ensures |Before(path)| == |Before(old(path))| + |Items(old(cur.l))| + 1 && StepAt(path, node).side == R
      ensures Exact() <==> old(Exact())
    {
      hide Whole, ExactAt;
      FocusFacts(mem, root, path, cur, items);
      succ := mem[node].right;
      ghost var c, t := path, cur;
      PlugExact(mem, Down(R, path, cur), cur.r);
      ZoomIn(mem, root, path, cur, items, R);
      DownBalanced(R, path, cur);
      path, cur := Down(R, path, cur), cur.r;
      FocusFacts(mem, root, path, cur, items);
      while mem[succ].left != NULL
        invariant InOrder() && Balanced(path, cur) && cur.N? && cur.p == succ && NULL !in mem
        invariant succ in mem && mem[succ].left == cur.l.Root() && (cur.l.N? ==> cur.l.p != NULL)
        invariant OnPath(path, node) && Above(path, node) == c && PlugTo(path, cur, node) == t
        invariant |Before(path)| == |Before(c)| + |Items(t.l)| + 1 && StepAt(path, node).side == R
        invariant Exact() <==> old(Exact())
        decreases cur
      {
        OnPathIn(path, node);
        WholePtrs(mem, root, path, cur, items);
        succ := mem[succ].left;
        PlugExact(mem, Down(L, path, cur), cur.l);
        ZoomIn(mem, root, path, cur, items, L);
        DownBalanced(L, path, cur);
        path, cur := Down(L, path, cur), cur.l;
        FocusFacts(mem, root, path, cur, items);
      }
    }

    // The pointer updates that let child take the place of node.
    method UnlinkNode(node: Ptr, child: Ptr, parent: Ptr)
      requires NULL !in mem && (child != NULL ==> child in mem) && parent == path.Parent()
      requires path.Step? ==>
        parent != NULL && parent in mem && parent != child && (mem[parent].left == node <==> path.side.L?)
      modifies `mem, `root
      ensures mem == Unlink(old(mem), path, node, child) && root == RelinkRoot(old(root), path, child)
    {
      AdoptChild(child, parent);
      ReplaceChild(parent, node, child);
      mem := mem - {node};
    }

    // Takes node, which has at most one child, out of the tree.
    method Detach(node: Ptr, child: Ptr, parent: Ptr)
      requires InOrder() && Balanced(path, cur) && cur.N? && cur.p == node && (cur.l.E? || cur.r.E?)
      requires child == OnlyChild(cur).Root() && parent == path.Parent()
      modifies `mem, `root, `cur, `items
      ensures InOrder() && cur == OnlyChild(old(cur))
      ensures (if old(cur.black) then Short(path, cur) else Balanced(path, cur))
      ensures |Before(path)| + |Items(old(cur.l))| < |old(items)|
      ensures items == RemoveAt(old(items), |Before(path)| + |Items(old(cur.l))|)
      ensures mem.Keys == old(mem.Keys) - {node}
      ensures forall q {:trigger mem[q]} :: q in mem ==> mem[q].maxHigh == old(mem)[q].maxHigh
      ensures old(Exact()) ==> node in old(mem) && Vacated(mem, path, cur, old(mem)[node].maxHigh)
    {
      hide Whole, ExactAt, Vacated;
      ghost var m := mem;
      UnlinkKeepsAll(mem, root, path, cur, items);
      UnlinkBalance(path, cur);
      UnlinkNode(node, child, parent);
      if ExactAt(m, path, cur) {
        OnlyChildVacates(m, mem, old(root), path, cur, items);
      }
      items := RemoveAt(items, |Before(path)| + |Items(cur.l)|);
      cur := OnlyChild(cur);
    }

    method RecomputeNode(node: Ptr)
      requires NULL !in mem && node in mem
      requires (mem[node].left != NULL ==> mem[node].left in mem)
      requires (mem[node].right != NULL ==> mem[node].right in mem)
      modifies `mem
      ensures node in old(mem) && mem == Recompute(old(mem), node)
    {
      var leftMax: u64 := if mem[node].left != NULL then mem[mem[node].left].maxHigh else 0;
      var rightMax: u64 := if mem[node].right != NULL then mem[mem[node].right].maxHigh else 0;
      mem := mem[node := mem[node].(maxHigh := Max(mem[node].ext.end, Max(leftMax, rightMax)))];
    }

    // update_maxhigh may climb from q: all bounds hold, or only the focus is loose and q is inside it.
    ghost predicate Climbing(q: Ptr, bound: u64)
      reads this
    {
      MaxOk(mem) || (cur.N? && MaxBut(mem, cur.p, bound) && q in Ptrs(cur))
    }

    // One round of update_maxhigh at the root of t, the subtree at the hole of c.
    method ClimbOnce(node: Ptr, ghost c: Path, ghost t: Shape, ghost bound: u64,
                     ghost was: u64, ghost y: Ptr, ghost top: u64) returns (parent: Ptr)
      requires Whole(mem, root, path, cur, items) && Climbing(node, bound)
      requires Whole(mem, root, c, t, items) && t.N? && t.p == node
      modifies `mem
      ensures Whole(mem, root, path, cur, items) && Whole(mem, root, c, t, items) && mem.Keys == old(mem.Keys)
      ensures parent == c.Parent() && node in mem
      ensures old(MaxOk(mem)) ==> MaxOk(mem)
      ensures MaxOk(mem) || (cur.N? && node != cur.p && Climbing(parent, bound))
      ensures SameHigh(old(mem), mem, {node})
      ensures old(Loosened(mem, c, t, was, y, top)) ==> Bounds(mem, t) && Loosened(mem, c, t, was, y, top)
    {
      hide Whole, Loosened, Bounds, MaxOk, MaxBut;
      FocusFacts(mem, root, c, t, items);
      KidsOf(mem, root, c, t, items);
      UpdateStep(mem, root, path, cur, items, node, bound);
      WholeIgnoresMaxHigh(mem, Recompute(mem, node), root, c, t, items);
      parent := mem[node].parent;
      if Loosened(mem, c, t, was, y, top) {
        RecomputeMends(mem, root, c, t, items, was, y, top);
      }
      RecomputeNode(node);
    }

    // Recomputes max_high from start, the root of t at the hole of c, upwards while it drops below oldMaxHigh.
    method UpdateMaxHigh(start: Ptr, oldMaxHigh: u64, ghost bound: u64, ghost c: Path, ghost t: Shape,
                         ghost y: Ptr, ghost top: u64)
      requires Whole(mem, root, path, cur, items) && start in Ptrs(cur) && Climbing(start, bound)
      requires Whole(mem, root, c, t, items) && t.N? && t.p == start
      modifies `mem
      ensures Whole(mem, root, path, cur, items) && mem.Keys == old(mem.Keys)
      ensures MaxOk(mem) || (start != cur.p && MaxBut(mem, cur.p, bound))
      ensures SameHigh(old(mem), mem, {start} + SpinePtrs(c))
      ensures old(Loosened(mem, c, t, oldMaxHigh, y, top)) ==> Mended(mem, c, t, y, top)
    {
      hide Whole, Loosened, Mended, Bounds, Climbed, MaxOk, MaxBut, SameHigh;
      WholePtrs(mem, root, path, cur, items);
      SameAtFirst(mem, {start} + SpinePtrs(c));
      var node := start;
      ghost var d, u, past := c, t, false;
      ClimbStarts(c, t, y);
      ClimbFacts(c, t, d, u, past, y);
      while node != NULL
        invariant Whole(mem, root, path, cur, items) && mem.Keys == old(mem.Keys)
        invariant node != NULL ==> Whole(mem, root, d, u, items) && u.N? && u.p == node
        invariant MaxOk(mem) || (node != NULL && Climbing(node, bound) && (start == cur.p ==> node == start))
        invariant SameHigh(old(mem), mem, {start} + SpinePtrs(c))
        invariant node != NULL ==> Climbed(c, t, false, d, u, past, y) && node in {start} + SpinePtrs(c)
        invariant old(Loosened(mem, c, t, oldMaxHigh, y, top)) ==>
          if node == NULL then Mended(mem, c, t, y, top)
          else Loosened(mem, d, u, if past then top else oldMaxHigh, y, top)
        decreases if node == NULL then 0 else 1, PathLen(d)
      {
        ghost var m := mem;
        var parent := ClimbOnce(node, d, u, bound, if past then top else oldMaxHigh, y, top);
        SameFurther(old(mem), m, mem, {start} + SpinePtrs(c), node);
        BoundOfRoot(mem, u);
        if old(Loosened(mem, c, t, oldMaxHigh, y, top)) && (d.Top? || mem[node].maxHigh >= oldMaxHigh) {
          ClimbEnds(mem, c, t, d, u, oldMaxHigh, past, y, top);
        }
        if mem[node].maxHigh >= oldMaxHigh {
          return;
        }
        if d.Step? {
          if old(Loosened(mem, c, t, oldMaxHigh, y, top)) {
            ClimbGoesOn(mem, d, u, oldMaxHigh, past, y, top);
          }
          ClimbedOn(c, t, false, d, u, past, y);
          FocusFacts(mem, root, d, u, items);
          ZoomOut(mem, root, d, u, items);
          d, u, past := d.up, Plug(d, u), past || d.p == y;
          ClimbFacts(c, t, d, u, past, y);
        }
        WholePtrs(mem, root, path, cur, items);
        node := parent;
      }
    }

    // The pointer updates that let y take over the links and the colour of x.
    method ReplaceNode(x: Ptr, y: Ptr, maxHigh: u64, ext: Extent)
      requires NULL !in mem && x in mem && y !in mem && y != NULL && mem[x].parent == path.Parent()
      requires (mem[x].left != NULL ==> mem[x].left in mem) && (mem[x].right != NULL ==> mem[x].right in mem)
      requires path.Step? ==> path.p != NULL && path.p in mem && (mem[path.p].left == x <==> path.side.L?)
      modifies `mem, `root
      ensures x in old(mem) && mem == Replace(old(mem), path, x, y, maxHigh, ext)
      ensures root == RelinkRoot(old(root), path, y)
    {
      var r := mem[x];
      mem := mem[y := Rec(r.left, r.right, r.parent, r.black, maxHigh, ext)];
      ReplaceChild(r.parent, x, y);
      AdoptChild(r.left, y);
      AdoptChild(r.right, y);
      mem := mem - {x};
    }

    // Lets y take the place of x, the focus being the subtree at x; max_high of y is still that of its old place.
    method TakePlace(x: Ptr, y: Ptr, maxHigh: u64, ext: Extent)
      requires InOrder() && cur.N? && cur.p == x && y !in mem && y != NULL && x in mem
      requires ext.end <= maxHigh <= mem[x].maxHigh
      modifies `mem, `root, `cur, `items
      ensures Whole(mem, root, path, cur, items) && MaxBut(mem, y, old(mem[x].maxHigh))
      ensures cur == old(cur).(p := y, ext := ext) && |Before(path)| + |Items(old(cur.l))| < |old(items)|
      ensures items == old(items)[|Before(path)| + |Items(old(cur.l))| := Item(y, ext)]
      ensures mem.Keys == old(mem.Keys) - {x} + {y} && SameHigh(old(mem), mem, {x})
    {
      hide Whole;
      FocusFacts(mem, root, path, cur, items);
      KidsOf(mem, root, path, cur, items);
      ReplaceKeepsAll(mem, root, path, cur, items, y, maxHigh, ext);
      ReplaceFacts(mem, root, path, cur, items, y, maxHigh, ext);
      ReplaceNode(x, y, maxHigh, ext);
      items := items[|Before(path)| + |Items(cur.l)| := Item(y, ext)];
      cur := cur.(p := y, ext := ext);
    }

    // The two climbs of update_maxhigh around node y that has taken the place of another: from the child t of the
    // unlinked node, at the hole of d, and from y itself.
    method ClimbTwice(y: Ptr, maxHigh: u64, child: Ptr, oldMaxHigh: u64, ghost d: Path, ghost t: Shape)
      requires Whole(mem, root, path, cur, items) && cur.N? && cur.p == y && MaxBut(mem, y, oldMaxHigh)
      requires Whole(mem, root, d, t, items) && child == t.Root() && (child == NULL <==> t.E?)
      requires OnPath(d, y) && path == Above(d, y) && cur == PlugTo(d, t, y)
      modifies `mem
      ensures InOrder() && mem.Keys == old(mem.Keys)
      ensures old(Mended(mem, d, t, y, oldMaxHigh)) ==> ExactAt(mem, d, t)
      ensures child != NULL && old(Loosened(mem, d, t, maxHigh, y, oldMaxHigh)) ==> ExactAt(mem, d, t)
      ensures child == NULL ==> SameHigh(old(mem), mem, {y} + SpinePtrs(path))
    {
      hide Whole, Loosened, Mended, ExactAt, MaxOk, MaxBut, OnPath;
      WholePtrs(mem, root, path, cur, items);
      WholePtrs(mem, root, d, t, items);
      PlugToSibling(d, t, y);
      OnPathIn(d, y);
      if child != NULL {
        if Mended(mem, d, t, y, oldMaxHigh) {
          MendedIsLoose(mem, d, t, maxHigh, y, oldMaxHigh);
        }
        UpdateMaxHigh(child, maxHigh, oldMaxHigh, d, t, y, oldMaxHigh);
      }
      if Mended(mem, d, t, y, oldMaxHigh) {
        MendedToY(mem, d, t, y, oldMaxHigh);
      }
      UpdateMaxHigh(y, oldMaxHigh, oldMaxHigh, path, cur, y, oldMaxHigh);
      ExactWithin(mem, d, t, y);
      if Mended(mem, path, cur, y, oldMaxHigh) {
        MendedExact(mem, path, cur, y, oldMaxHigh);
      }
    }

    // The successor, unlinked with its child below at the focus, takes the place of x higher up.
    method SubstituteNode(x: Ptr, y: Ptr, maxHigh: u64, ext: Extent, child: Ptr, oldMaxHigh: u64)
      requires InOrder() && OnPath(path, x) && StepAt(path, x).side == R && x in mem && y !in mem && y != NULL
      requires ext.end <= maxHigh <= mem[x].maxHigh && child == cur.Root() && oldMaxHigh == mem[x].maxHigh
      modifies `mem, `root, `path, `cur, `items
      ensures InOrder() && path == Substitute(old(path), x, y, ext) && cur == old(cur)
      ensures var i := |Before(Above(old(path), x))| + |Items(StepAt(old(path), x).sib)|;
        i < |old(items)| && items == old(items)[i := Item(y, ext)]
      ensures mem.Keys == old(mem.Keys) - {x} + {y}
      ensures old(Vacated(mem, path, cur, maxHigh)) ==>
        Sides(mem, path) && (Exact() <==> child != NULL || old(path).p == x || Spare(old(mem), old(path)))
    {
      hide Whole, Vacated, Loosened, Mended, ExactAt, MaxBut, MaxOk, SameHigh, Spare, Sides, Bounds, Items, Before,
        Ptrs, PathPtrs, SpinePtrs, Rep, RepPath;
      ghost var c, t, m := path, cur, mem;
      WholePtrs(mem, root, c, t, items);
      ZoomOutTo(mem, root, c, t, items, x);
      PlugToSibling(c, t, x);
      SubstituteSeenAbove(c, t, x, y, ext);
      OnPathIn(c, x);
      path, cur := Above(c, x), PlugTo(c, t, x);
      TakePlace(x, y, maxHigh, ext);
      ghost var d, m1 := Substitute(c, x, y, ext), mem;
      ZoomBackIn(mem, root, d, t, items, y);
      if Vacated(m, c, t, maxHigh) {
        SubstituteReady(m, m1, old(root), c, t, old(items), x, y, ext, maxHigh);
      }
      ClimbTwice(y, maxHigh, child, oldMaxHigh, d, t);
      ZoomBackIn(mem, root, d, t, items, y);
      if Vacated(m, c, t, maxHigh) {
        SubstituteOutcome(m, m1, mem, root, c, t, items, x, y, ext);
      }
      path, cur := d, t;
    }

    // Finds the successor of node and unlinks it; what it looked like is returned.
    method DetachSuccessor(node: Ptr)
      returns (succ: Ptr, child: Ptr, parent: Ptr, black: bool, maxHigh: u64, ext: Extent)
      requires InOrder() && Balanced(path, cur) && cur.N? && cur.p == node && cur.r.N?
      modifies `mem, `root, `path, `cur, `items
      ensures InOrder() && (if black then Short(path, cur) else Balanced(path, cur))
      ensures child == cur.Root() && path.Step? && parent == path.p
      ensures OnPath(path, node) && Above(path, node) == old(path)
      ensures StepAt(path, node).side == R && StepAt(path, node).sib == old(cur.l)
      ensures node in mem && succ !in mem && succ != NULL && ext.end <= maxHigh <= mem[node].maxHigh
      ensures mem.Keys == old(mem.Keys) - {succ} && succ in old(mem) && succ != node
      ensures var k := |Before(old(path))| + |Items(old(cur.l))| + 1;
        k < |old(items)| && old(items)[k] == Item(succ, ext) && items == RemoveAt(old(items), k)
      ensures node in old(mem) && mem[node].maxHigh == old(mem)[node].maxHigh
      ensures old(Exact()) ==>
        && Vacated(mem, path, cur, maxHigh)
        && (Regained(old(mem), node, succ) <==> child != NULL || path.p == node || Spare(mem, path))
    {
      hide Whole, Balanced, Short, MaxBut, OnPath, RemoveAt, ExactAt, Vacated, Regained, Spare, MaxOk,
        Ptrs;
      succ := Successor(node);
      FocusFacts(mem, root, path, cur, items);
      child, parent, black := mem[succ].right, mem[succ].parent, mem[succ].black;
      maxHigh, ext := mem[succ].maxHigh, mem[succ].ext;
      SuccessorMax(mem, root, path, cur, items, node);
      FocusPlace(mem, root, path, cur, items);
      PlugToSibling(path, cur, node);
      OnPathIn(path, node);
      WholePtrs(mem, root, path, cur, items);
      ghost var m := mem;
      if Exact() {
        RegainedAt(mem, root, path, cur, items, node);
      }
      Detach(succ, child, parent);
      SpareFrame(m, mem, path, succ);
    }

    // interval_erase for a node with two children.
    method EraseInner(node: Ptr) returns (child: Ptr, parent: Ptr, black: bool)
      requires InOrder() && Balanced(path, cur) && cur.N? && cur.p == node && cur.l.N? && cur.r.N?
      modifies `mem, `root, `path, `cur, `items
      ensures InOrder() && child == cur.Root() && path.Step? && parent == path.p
      ensures if black then Short(path, cur) else Balanced(path, cur)
      ensures |Before(old(path))| + |Items(old(cur.l))| < |old(items)|
      ensures items == RemoveAt(old(items), |Before(old(path))| + |Items(old(cur.l))|)
      ensures mem.Keys == old(mem.Keys) - {node}
      ensures var k := |Before(old(path))| + |Items(old(cur.l))| + 1;
        && k < |old(items)| && old(items)[k].p in old(mem)
        && (old(Exact()) ==> Sides(mem, path) && (Exact() <==> Regained(old(mem), node, old(items)[k].p)))
    {
      hide Whole, ExactAt, Vacated, Regained, Spare, Sides, MaxOk;
      FocusFacts(mem, root, path, cur, items);
      var oldMaxHigh := mem[node].maxHigh;
      var succ, maxHigh, ext;
      succ, child, parent, black, maxHigh, ext := DetachSuccessor(node);
      SubstituteBalance(path, node, succ, ext, BlackHeight(cur));
      SubstituteBalance(path, node, succ, ext, BlackHeight(cur) + 1);
      if parent == node {
        parent := succ;
      }
      SubstituteNode(node, succ, maxHigh, ext, child, oldMaxHigh);
      RemovePredecessor(old(items), |Before(old(path))| + |Items(old(cur.l))| + 1);
    }

    // interval_erase for a node with at most one child.
    method EraseOuter(node: Ptr) returns (child: Ptr, parent: Ptr, black: bool)
      requires InOrder() && Balanced(path, cur) && cur.N? && cur.p == node && (cur.l.E? || cur.r.E?)
      modifies `mem, `root, `path, `cur, `items
      ensures InOrder() && child == cur.Root() && parent == path.Parent()
      ensures if black then Short(path, cur) else Balanced(path, cur)
      ensures |Before(old(path))| + |Items(old(cur.l))| < |old(items)|
      ensures items == RemoveAt(old(items), |Before(old(path))| + |Items(old(cur.l))|)
      ensures mem.Keys == old(mem.Keys) - {node}
      ensures node in old(mem) &&
        (old(Exact()) ==> Sides(mem, path) && (Exact() <==> Regained(old(mem), node, node)))
    {
      hide Whole, ExactAt, Vacated, Regained, Spare, Sides, Mended, Loosened, SameHigh;
      hide MaxOk, MaxBut, Balanced, Short, RemoveAt, Items, PathPtrs, Ptrs, SpinePtrs, Before;
      FocusFacts(mem, root, path, cur, items);
      child := if mem[node].left == NULL then mem[node].right else mem[node].left;
      parent, black := mem[node].parent, mem[node].black;
      var maxHigh := mem[node].maxHigh;
      ghost var m := mem;
      if Exact() {
        RegainedAt(mem, root, path, cur, items, node);
      }
      Detach(node, child, parent);
      SpareFrame(m, mem, path, node);
      if Vacated(mem, path, cur, maxHigh) {
        VacatedLoosens(mem, root, path, cur, items, maxHigh);
        if child == NULL {
          LeafExact(mem, path, maxHigh);
        }
      }
      WholePtrs(mem, root, path, cur, items);
      if child != NULL {
        UpdateMaxHigh(child, maxHigh, 0, path, cur, NULL, 0);
        if Mended(mem, path, cur, NULL, 0) {
          MendedExact(mem, path, cur, NULL, 0);
        }
      }
    }

    /** Takes node out; the listing loses exactly its item.  Exact bounds are exact afterwards just when Regained says
      * so of the node that is unlinked: node itself, or its successor when it has two children.
      */
    method Erase(node: Ptr) returns (ghost at: nat)
      requires Valid() && node in mem
      modifies this
      ensures Valid() && at < |old(items)| && old(items)[at].p == node
      ensures items == RemoveAt(old(items), at) && mem.Keys == old(mem.Keys) - {node}
      ensures node in old(mem)
      ensures var two := old(mem)[node].left != NULL && old(mem)[node].right != NULL;
        && (two ==> at + 1 < |old(items)| && old(items)[at + 1].p in old(mem))
        && (old(Exact()) ==> (Exact() <==> Regained(old(mem), node, if two then old(items)[at + 1].p else node)))
    {
      hide Whole, Balanced, Short, RemoveAt, RedBlack, Before, Items, ExactAt, Sides, Regained;
      FocusOn(node);
      FocusFacts(mem, root, path, cur, items);
      FocusPlace(mem, root, path, cur, items);
      at := |Before(path)| + |Items(cur.l)|;
      var child, parent, black;
      if mem[node].left == NULL || mem[node].right == NULL {
        child, parent, black := EraseOuter(node);
      } else {
        child, parent, black := EraseInner(node);
      }
      KeysAreItems(mem, root, path, cur, items);
      if black {
        EraseColor(child, parent);
      } else {
        BackToTop();
      }
      KeysAreItems(mem, root, path, cur, items);
    }

    method Find(ext: Extent) returns (walk: Ptr)
      requires Valid() && Sorted(items)
      ensures walk != NULL ==> Item(walk, ext) in items
      ensures walk == NULL ==> forall i :: 0 <= i < |items| ==> items[i].ext != ext
    {
      hide Whole, Splits, Sorted;
      walk := root;
      ghost var c, t, place := path, cur, PlaceOf(ext);
      SortedSplits(items, ext);
      BracketedAtTop(mem, root, cur, items, place);
      FocusFacts(mem, root, c, t, items);
      while walk != NULL
        invariant Whole(mem, root, c, t, items) && Bracketed(c, t, items, place) && walk == t.Root()
        decreases t
      {
        FocusFacts(mem, root, c, t, items);
        if ext == mem[walk].ext {
          FocusPlace(mem, root, c, t, items);
          return;
        }
        var s := if Less(ext, mem[walk].ext) then L else R;
        ZoomIn(mem, root, c, t, items, s);
        DownBracketed(mem, root, c, t, items, place);
        walk := mem[walk].Kid(s);
        c, t := Down(s, c, t), t.Kid(s);
      }
      FocusFacts(mem, root, c, t, items);
    }
  }
}
