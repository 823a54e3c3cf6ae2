/** The max_high augmentation: every node's max_high is at least its own end and its children's max_high. */
module MaxHigh {
  import opened Shapes
  import opened Rotations

  ghost predicate KidMaxAt(m: Mem, q: Ptr, d: Side)
    requires q in m
  {
    MaxHighOr0(m, m[q].Kid(d)) <= m[q].maxHigh
  }

  ghost predicate MaxAt(m: Mem, q: Ptr)
    requires q in m
  {
    m[q].ext.end <= m[q].maxHigh && KidMaxAt(m, q, L) && KidMaxAt(m, q, R)
  }

  ghost predicate MaxOk(m: Mem) {
    forall q {:trigger MaxAt(m, q)} :: q in m ==> MaxAt(m, q)
  }

  // max_high bounds every end in the subtree, which is what search and expand rely on.
  lemma {:induction false} MaxBounds(m: Mem, t: Shape, parent: Ptr, i: Item)
    requires Rep(m, t, parent) && MaxOk(m) && i in Items(t)
    ensures t.p in m && i.ext.end <= m[t.p].maxHigh
  {
    assert MaxAt(m, t.p);
    if i in Items(t.l) {
      MaxBounds(m, t.l, t.p, i);
    } else if i in Items(t.r) {
      MaxBounds(m, t.r, t.p, i);
    }
  }

  lemma PivotedKidMax(m: Mem, m': Mem, s: Side, x: Ptr, y: Ptr, b: Ptr, c: Path, q: Ptr, d: Side)
    requires Pivoted(m, m', s, x, y, b, c) && NULL !in m && KidsLinked(m, m.Keys)
    requires m[x].Kid(s.Other()) == y && m[y].Kid(s) == b && m[x].parent == c.Parent()
    requires c.Step? ==> m[c.p].Kid(c.side) == x && m[c.p].Kid(c.side.Other()) != x
    requires q in m && q != x && KidMaxAt(m, q, d) && KidMaxAt(m, x, s.Other())
    requires m'[x].maxHigh <= m[x].maxHigh
    ensures KidMaxAt(m', q, d)
  {
    var k := m[q].Kid(d);
    if q == y && d == s {
    } else if k == x {
      assert c.Step? && q == c.p && d == c.side;
    } else {
      assert m'[q].Kid(d) == k;
    }
  }

  lemma PivotedMaxOk(m: Mem, m': Mem, s: Side, x: Ptr, y: Ptr, b: Ptr, c: Path)
    requires Pivoted(m, m', s, x, y, b, c) && NULL !in m && KidsLinked(m, m.Keys) && MaxOk(m)
    requires m[x].Kid(s.Other()) == y && m[y].Kid(s) == b && m[x].parent == c.Parent()
    requires c.Step? ==> m[c.p].Kid(c.side) == x && m[c.p].Kid(c.side.Other()) != x
    requires m[x].Kid(s) != x && m[x].Kid(s) != y && b != x && b != y && x != y
    ensures MaxOk(m')
  {
    hide MaxHighFrom;
    assert MaxAt(m, x) && KidMaxAt(m, x, s.Other()) && KidMaxAt(m, x, s);
    assert MaxAt(m, y) && KidMaxAt(m, y, s);
    forall q | q in m' ensures MaxAt(m', q) {
      if q == x {
        assert m'[x].Kid(s) == m[x].Kid(s) && m'[x].Kid(s.Other()) == b;
        assert KidMaxAt(m', x, s) && KidMaxAt(m', x, s.Other());
      } else {
        assert MaxAt(m, q);
        PivotedKidMax(m, m', s, x, y, b, c, q, L);
        PivotedKidMax(m, m', s, x, y, b, c, q, R);
      }
    }
  }
}
