/** Heap order on a sequence of slots, and what one step of a sift does to it. */
module HeapOrder {
  import opened Lists

  type Node = nat

  // A comparison by which any two keys can be ordered; ties are allowed.
  ghost predicate TotalPreorder<K(!new)>(leq: (K, K) -> bool) {
    && (forall a, b :: leq(a, b) || leq(b, a))
    && (forall a, b, c :: leq(a, b) && leq(b, c) ==> leq(a, c))
  }

  ghost function Parent(i: nat): nat
    requires i > 0
  {
    (i - 1) / 2
  }

  // The slots, each node's key, and the comparison.
  datatype Heap<!K> = Heap(slots: seq<Node>, keys: map<Node, K>, leq: (K, K) -> bool)

  ghost predicate Keyed<K(!new)>(h: Heap<K>) {
    TotalPreorder(h.leq) && NoRepeat(h.slots) && forall i :: 0 <= i < |h.slots| ==> h.slots[i] in h.keys
  }

  // The node in slot i need not come after the one in slot j.
  ghost predicate Leq<K(!new)>(h: Heap<K>, i: nat, j: nat)
    requires Keyed(h) && i < |h.slots| && j < |h.slots|
  {
    h.leq(h.keys[h.slots[i]], h.keys[h.slots[j]])
  }

  ghost predicate Ordered<K(!new)>(h: Heap<K>)
    requires Keyed(h)
  {
    forall i :: 0 < i < |h.slots| ==> Leq(h, Parent(i), i)
  }

  // Ordered but for the node in slot j, which has nothing to say about its parent and its children.
  ghost predicate OrderedBut<K(!new)>(h: Heap<K>, j: nat)
    requires Keyed(h)
  {
    && (forall i :: 0 < i < |h.slots| && i != j && Parent(i) != j ==> Leq(h, Parent(i), i))
    && (forall i :: 0 < i < |h.slots| && Parent(i) == j && 0 < j < |h.slots| ==> Leq(h, Parent(j), i))
  }

  ghost predicate UpOk<K(!new)>(h: Heap<K>, j: nat)
    requires Keyed(h)
  {
    0 < j < |h.slots| ==> Leq(h, Parent(j), j)
  }

  ghost predicate DownOk<K(!new)>(h: Heap<K>, j: nat)
    requires Keyed(h)
  {
    forall i :: 0 < i < |h.slots| && Parent(i) == j ==> Leq(h, j, i)
  }

  lemma OrderedParts<K(!new)>(h: Heap<K>, j: nat)
    requires Keyed(h) && j < |h.slots|
    ensures Ordered(h) <==> OrderedBut(h, j) && UpOk(h, j) && DownOk(h, j)
  {
    if Ordered(h) {
      forall i | 0 < i < |h.slots| && Parent(i) == j && 0 < j ensures Leq(h, Parent(j), i) {
        assert Leq(h, Parent(j), j) && Leq(h, j, i);
      }
    }
  }

  // The key of the node in slot j has changed: the heap is still ordered but for that slot.
  lemma Rekeyed<K(!new)>(h: Heap<K>, j: nat, key: K)
    requires Keyed(h) && j < |h.slots| && OrderedBut(h, j)
    ensures var h' := h.(keys := h.keys[h.slots[j] := key]); Keyed(h') && OrderedBut(h', j)
  {
    var h' := h.(keys := h.keys[h.slots[j] := key]);
    assert forall i :: 0 <= i < |h.slots| && i != j ==> h.slots[i] != h.slots[j];
    forall i | 0 < i < |h'.slots| && i != j && Parent(i) != j ensures Leq(h', Parent(i), i) {
      assert Leq(h, Parent(i), i);
    }
    forall i | 0 < i < |h'.slots| && Parent(i) == j && 0 < j ensures Leq(h', Parent(j), i) {
      assert Leq(h, Parent(j), i);
    }
  }

  ghost function Swapped(s: seq<Node>, i: nat, j: nat): seq<Node>
    requires i < |s| && j < |s|
  {
    s[i := s[j]][j := s[i]]
  }

  lemma SwappedFacts(s: seq<Node>, i: nat, j: nat)
    requires i < |s| && j < |s| && NoRepeat(s)
    ensures NoRepeat(Swapped(s, i, j)) && |Swapped(s, i, j)| == |s|
    ensures forall x :: x in Swapped(s, i, j) <==> x in s
  {
    var t := Swapped(s, i, j);
    forall x | x in s ensures x in t {
      var k :| 0 <= k < |s| && s[k] == x;
      assert t[if k == i then j else if k == j then i else k] == x;
    }
  }

  // One step of a bubble: the node of slot j and its parent, which should come after it, change places.
  lemma BubbleStep<K(!new)>(h: Heap<K>, j: nat)
    requires Keyed(h) && 0 < j < |h.slots| && OrderedBut(h, j) && !Leq(h, Parent(j), j)
    ensures var h' := h.(slots := Swapped(h.slots, j, Parent(j)));
      Keyed(h') && OrderedBut(h', Parent(j)) && DownOk(h', Parent(j))
  {
    var p := Parent(j);
    var h' := h.(slots := Swapped(h.slots, j, p));
    SwappedFacts(h.slots, j, p);
    forall i | 0 < i < |h'.slots| && i != p && Parent(i) != p ensures Leq(h', Parent(i), i) {
      if Parent(i) == j {
        assert Leq(h, p, i);
      } else {
        assert Leq(h, Parent(i), i);
      }
    }
    forall i | 0 < i < |h'.slots| && Parent(i) == p
      ensures Leq(h', p, i) && (0 < p ==> Leq(h', Parent(p), i))
    {
      assert 0 < p ==> Leq(h, Parent(p), p);
      if i != j {
        assert Leq(h, p, i);
      }
    }
  }

  // One step of a sink: the node of slot j and its lesser child c, which should come before it, change places.
  lemma SinkStep<K(!new)>(h: Heap<K>, j: nat, c: nat)
    requires Keyed(h) && j < c < |h.slots| && Parent(c) == j && OrderedBut(h, j) && UpOk(h, j)
    requires !Leq(h, j, c) && forall i :: 0 < i < |h.slots| && Parent(i) == j ==> Leq(h, c, i)
    ensures var h' := h.(slots := Swapped(h.slots, j, c));
      Keyed(h') && OrderedBut(h', c) && UpOk(h', c)
  {
    var h' := h.(slots := Swapped(h.slots, j, c));
    SwappedFacts(h.slots, j, c);
    forall i | 0 < i < |h'.slots| && i != c && Parent(i) != c ensures Leq(h', Parent(i), i) {
      if i == j {
        assert Leq(h, Parent(j), c);
      } else if Parent(i) == j {
        assert Leq(h, c, i);
      } else {
        assert Leq(h, Parent(i), i);
      }
    }
    forall i | 0 < i < |h'.slots| && Parent(i) == c ensures Leq(h', Parent(c), i) {
      assert Leq(h, c, i);
    }
  }

  /** The root comes before every node. */
  lemma {:induction false} RootIsLeast<K(!new)>(h: Heap<K>, i: nat)
    requires Keyed(h) && Ordered(h) && i < |h.slots|
    ensures Leq(h, 0, i)
    decreases i
  {
    if i > 0 {
      RootIsLeast(h, Parent(i));
      assert Leq(h, Parent(i), i);
    }
  }
}
