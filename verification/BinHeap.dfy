/** An indexed binary heap: every node knows its slot, and may be removed or re-ranked from there. */
module BinHeap {
  import opened Lists
  import opened HeapOrder
  import HeapPages

  // Every node's index is its slot.
  ghost predicate Indexed(slots: seq<Node>, index: map<Node, nat>) {
    forall i :: 0 <= i < |slots| ==> slots[i] in index && index[slots[i]] == i
  }

  lemma IndexSwapped(slots: seq<Node>, index: map<Node, nat>, i: nat, j: nat)
    requires NoRepeat(slots) && Indexed(slots, index) && i < |slots| && j < |slots| && i != j
    ensures Indexed(Swapped(slots, i, j), index[slots[j] := i][slots[i] := j])
  {
  }

  // slots is t, but that e has not been written to slot i yet.
  ghost predicate HoleAt(slots: seq<Node>, t: seq<Node>, i: nat, e: Node) {
    i < |t| == |slots| && t[i] == e && slots[i := e] == t
  }

  lemma HoleMoves(slots: seq<Node>, t: seq<Node>, i: nat, j: nat, e: Node)
    requires HoleAt(slots, t, i, e) && j < |t| && i != j
    ensures j < |slots| && slots[j] == t[j] && t[i] == e && HoleAt(slots[i := slots[j]], Swapped(t, i, j), j, e)
  {
  }

  lemma HoleCloses(slots: seq<Node>, t: seq<Node>, i: nat, e: Node)
    requires HoleAt(slots, t, i, e)
    ensures i < |slots| == |t| && slots[i := e] == t && t[i] == e
  {
  }

  lemma HoleOpens(slots: seq<Node>, i: nat)
    requires i < |slots|
    ensures HoleAt(slots, slots, i, slots[i])
  {
  }

  class BinaryHeap<K(!new)> {
    const pages: HeapPages.Pages
    const leq: (K, K) -> bool
    // The nodes by index; the slot of an index is where pages.Pointer says.
    var slots: seq<Node>
    var index: map<Node, nat>
    var keys: map<Node, K>

    ghost function View(): Heap<K>
      reads this
    {
      Heap(slots, keys, leq)
    }

    // All but the order.
    ghost predicate Laid()
      reads this, pages
    {
      Keyed(View()) && Indexed(slots, index) && pages.Valid() && |slots| <= pages.hwm
    }

    ghost predicate Valid()
      reads this, pages
    {
      Laid() && Ordered(View())
    }

    constructor (leq: (K, K) -> bool)
      requires TotalPreorder(leq)
      ensures Valid() && slots == [] && fresh(pages) && this.leq == leq
    {
      this.leq := leq;
      pages := new HeapPages.Pages();
      slots, index, keys := [], map[], map[];
    }

    /** Moves e up as long as its parent should come after it. */
    method Bubble(e: Node) returns (didSth: bool)
      requires Laid() && e in index && index[e] < |slots| && slots[index[e]] == e && OrderedBut(View(), index[e])
      modifies `slots, `index
      ensures Laid() && |slots| == |old(slots)| && (forall x :: x in slots <==> x in old(slots))
      ensures e in old(index) && e in index && index[e] < |slots| && slots[index[e]] == e
      ensures didSth || old(DownOk(View(), index[e])) ==> Ordered(View())
      ensures !didSth ==> slots == old(slots) && index[e] == old(index)[e] && UpOk(View(), index[e])
      ensures didSth ==> index[e] < old(index)[e]
    {
      hide Ordered, OrderedBut, UpOk, DownOk, Keyed, NoRepeat, Indexed, Swapped, TotalPreorder, HoleAt, Leq;
      var cur := index[e];
      didSth := false;
      ghost var t := slots;
      ghost var ix: map<Node, nat> := index;
      KeyedFacts(View());
      HoleOpens(slots, cur);
      while cur > 0
        invariant 0 <= cur && HoleAt(slots, t, cur, e) && cur < |t| == |slots| == |old(slots)| && e in keys
        invariant Keyed(Heap(t, keys, leq)) && OrderedBut(Heap(t, keys, leq), cur) && Indexed(t, ix)
        invariant ix == index[e := cur] && (forall x :: x in t <==> x in old(slots))
        invariant didSth || old(DownOk(View(), index[e])) ==> DownOk(Heap(t, keys, leq), cur)
        invariant !didSth ==> t == old(slots) && cur == old(index)[e]
        invariant didSth ==> cur < old(index)[e]
        decreases cur
      {
        var parent := (cur - 1) / 2;
        KeyedFacts(Heap(t, keys, leq));
        HoleMoves(slots, t, cur, parent, e);
        if leq(keys[slots[parent]], keys[e]) {
          break;
        }
        LeqMeans(Heap(t, keys, leq), parent, cur);
        BubbleStep(Heap(t, keys, leq), cur);
        SwappedFacts(t, cur, parent);
        IndexSwapped(t, ix, cur, parent);
        ix := ix[t[parent] := cur][e := parent];
        index := index[slots[parent] := cur];
        slots := slots[cur := slots[parent]];
        t := Swapped(t, cur, parent);
        cur := parent;
        didSth := true;
      }
      HoleCloses(slots, t, cur, e);
      index := index[e := cur];
      slots := slots[cur := e];
      assert index == ix && slots == t;
      AtRest(View(), cur);
    }

    /** Moves e down as long as it should come after its lesser child. */
    method Sink(e: Node) returns (didSth: bool)
      requires Laid() && e in index && index[e] < |slots| && slots[index[e]] == e
      requires OrderedBut(View(), index[e]) && UpOk(View(), index[e])
      modifies `slots, `index
      ensures Valid() && |slots| == |old(slots)| && (forall x :: x in slots <==> x in old(slots))
      ensures e in index && index[e] < |slots| && slots[index[e]] == e
      ensures e in old(index) && (if didSth then index[e] > old(index)[e] else slots == old(slots))
    {
      hide Ordered, OrderedBut, UpOk, DownOk, Keyed, NoRepeat, Indexed, Swapped, HoleAt, TotalPreorder, Leq;
      var cur, n := index[e], |slots|;
      didSth := false;
      ghost var t := slots;
      ghost var ix: map<Node, nat> := index;
      KeyedFacts(View());
      HoleOpens(slots, cur);
      while cur < n
        invariant 0 <= cur && HoleAt(slots, t, cur, e) && cur < |t| == |slots| == n && e in keys
        invariant Keyed(Heap(t, keys, leq)) && OrderedBut(Heap(t, keys, leq), cur) && Indexed(t, ix)
        invariant UpOk(Heap(t, keys, leq), cur)
        invariant if didSth then cur > old(index)[e] else t == old(slots) && cur == old(index)[e]
        invariant ix == index[e := cur] && (forall x :: x in t <==> x in old(slots))
        decreases n - cur
      {
        KeyedFacts(Heap(t, keys, leq));
        var child := 2 * cur + 1;
        if child >= n {
          break;
        }
        HoleMoves(slots, t, cur, child, e);
        if child + 1 < n {
          HoleMoves(slots, t, cur, child + 1, e);
          if leq(keys[slots[child + 1]], keys[slots[child]]) {
            child := child + 1;
          }
        }
        LesserChild(Heap(t, keys, leq), cur, child);
        if leq(keys[e], keys[slots[child]]) {
          break;
        }
        LeqMeans(Heap(t, keys, leq), cur, child);
        SinkStep(Heap(t, keys, leq), cur, child);
        SwappedFacts(t, cur, child);
        IndexSwapped(t, ix, cur, child);
        ix := ix[t[child] := cur][e := child];
        index := index[slots[child] := cur];
        slots := slots[cur := slots[child]];
        t := Swapped(t, cur, child);
        cur := child;
        didSth := true;
      }
      HoleCloses(slots, t, cur, e);
      index := index[e := cur];
      slots := slots[cur := e];
      assert index == ix && slots == t;
      AtBottom(View(), cur);
    }

    /** Repairs a heap that is ordered but for e, whose key has changed. */
    method Relocate(e: Node)
      requires Laid() && e in index && index[e] < |slots| && slots[index[e]] == e && OrderedBut(View(), index[e])
      modifies `slots, `index
      ensures Valid() && |slots| == |old(slots)| && (forall x :: x in slots <==> x in old(slots))
    {
      hide Ordered, OrderedBut, UpOk, DownOk, Keyed, NoRepeat, Indexed;
      var didSth := Bubble(e);
      if !didSth {
        didSth := Sink(e);
      }
    }

    // What a user does when the key of a node in the heap changes.
    method Rekey(e: Node, key: K)
      requires Valid() && e in slots
      modifies `slots, `index, `keys
      ensures Valid() && |slots| == |old(slots)| && (forall x :: x in slots <==> x in old(slots))
      ensures keys == old(keys)[e := key]
    {
      hide Ordered, OrderedBut, UpOk, DownOk, Keyed, NoRepeat;
      IndexOf(View(), index, e);
      OrderedParts(View(), index[e]);
      Rekeyed(View(), index[e], key);
      keys := keys[e := key];
      Relocate(e);
    }

    /** Adds e, unless the storage is full or the hop_enter hook, which is asked last, refuses it. */
    method Insert(e: Node, key: K, admitted: bool) returns (ok: bool)
      requires Valid() && e !in slots
      modifies this, pages
      ensures Valid() && (!ok ==> slots == old(slots) && keys == old(keys))
      ensures ok ==> |slots| == |old(slots)| + 1 && forall x :: x in slots <==> x in old(slots) || x == e
      ensures ok ==> keys == old(keys)[e := key]
      ensures ok <==> admitted && |old(slots)| < HeapPages.CAPACITY
    {
      hide Ordered, OrderedBut, UpOk, DownOk, Keyed, NoRepeat, Indexed;
      var newIdx := |slots|;
      pages.HwmFits();
      if newIdx == pages.hwm {
        ok := pages.Grow();
        if !ok {
          return;
        }
      }
      if !admitted {
        return false;
      }
      Appended(View(), index, e, key);
      keys := keys[e := key];
      index := index[e := newIdx];
      slots := slots + [e];
      var didSth := Bubble(e);
      ok := true;
    }

    /** Takes e out from wherever it is: the last node takes its slot and finds its place. */
    method Remove(e: Node)
      requires Valid() && e in slots
      modifies `slots, `index
      ensures Valid() && |slots| == |old(slots)| - 1 && forall x :: x in slots <==> x in old(slots) && x != e
    {
      hide Ordered, OrderedBut, UpOk, DownOk, Keyed, NoRepeat, Indexed;
      IndexOf(View(), index, e);
      var cur, n := index[e], |slots| - 1;
      var last := slots[n];
      ghost var h := View();
      if last == e {
        Shortened(h, index, e);
        slots := slots[..n];
        return;
      }
      Replaced(h, index, cur);
      index := index[last := cur];
      slots := slots[..n][cur := last];
      Relocate(last);
    }

    // The node that comes before all others, if there is any.
    method Root() returns (found: bool, e: Node)
      requires Valid()
      ensures found <==> slots != []
      ensures found ==> e in slots && forall x :: x in slots ==> e in keys && x in keys && leq(keys[e], keys[x])
    {
      found := slots != [];
      e := 0;
      if found {
        e := slots[0];
        forall x | x in slots ensures e in keys && x in keys && leq(keys[e], keys[x]) {
          var i :| 0 <= i < |slots| && slots[i] == x;
          RootIsLeast(View(), i);
        }
      }
    }
  }

  // A node that has stopped moving up.
  lemma AtRest<K(!new)>(h: Heap<K>, j: nat)
    requires Keyed(h) && j < |h.slots| && OrderedBut(h, j)
    requires j > 0 ==> h.leq(h.keys[h.slots[Parent(j)]], h.keys[h.slots[j]])
    ensures UpOk(h, j) && (DownOk(h, j) ==> Ordered(h))
  {
    OrderedParts(h, j);
  }

  lemma LeqMeans<K(!new)>(h: Heap<K>, i: nat, j: nat)
    requires Keyed(h) && i < |h.slots| && j < |h.slots|
    ensures Leq(h, i, j) == h.leq(h.keys[h.slots[i]], h.keys[h.slots[j]])
  {
  }

  // The child picked is the one that comes first.
  lemma LesserChild<K(!new)>(h: Heap<K>, j: nat, c: nat)
    requires Keyed(h) && c < |h.slots| && (c == 2 * j + 1 || c == 2 * j + 2)
    requires c == 2 * j + 1 ==> (c + 1 < |h.slots| ==> !h.leq(h.keys[h.slots[c + 1]], h.keys[h.slots[c]]))
    requires c == 2 * j + 2 ==> h.leq(h.keys[h.slots[c]], h.keys[h.slots[c - 1]])
    ensures Parent(c) == j && forall i :: 0 < i < |h.slots| && Parent(i) == j ==> Leq(h, c, i)
    ensures h.leq(h.keys[h.slots[j]], h.keys[h.slots[c]]) ==> DownOk(h, j)
  {
    forall i | 0 < i < |h.slots| && Parent(i) == j ensures Leq(h, c, i) {
      assert i == 2 * j + 1 || i == 2 * j + 2;
    }
  }

  // A node that has stopped moving down.
  lemma AtBottom<K(!new)>(h: Heap<K>, j: nat)
    requires Keyed(h) && j < |h.slots| && OrderedBut(h, j) && UpOk(h, j)
    requires 2 * j + 1 >= |h.slots| || DownOk(h, j)
    ensures Ordered(h)
  {
    OrderedParts(h, j);
  }

  lemma KeyedFacts<K(!new)>(h: Heap<K>)
    requires Keyed(h)
    ensures NoRepeat(h.slots) && TotalPreorder(h.leq) && forall i :: 0 <= i < |h.slots| ==> h.slots[i] in h.keys
  {
  }

  lemma IndexOf<K(!new)>(h: Heap<K>, index: map<Node, nat>, e: Node)
    requires Keyed(h) && Indexed(h.slots, index) && e in h.slots
    ensures e in index && index[e] < |h.slots| && h.slots[index[e]] == e
  {
    var i :| 0 <= i < |h.slots| && h.slots[i] == e;
  }

  // A new last node has no children yet.
  lemma Appended<K(!new)>(h: Heap<K>, index: map<Node, nat>, e: Node, key: K)
    requires Keyed(h) && Ordered(h) && Indexed(h.slots, index) && e !in h.slots
    ensures var h' := Heap(h.slots + [e], h.keys[e := key], h.leq); var n := |h.slots|;
      && Keyed(h') && OrderedBut(h', n) && DownOk(h', n) && Indexed(h'.slots, index[e := n])
      && forall x :: x in h'.slots <==> x in h.slots || x == e
  {
    var h' := Heap(h.slots + [e], h.keys[e := key], h.leq);
    AppendFacts(h.slots, e);
    assert Keyed(h');
    forall i | 0 < i < |h'.slots| && i != |h.slots| && Parent(i) != |h.slots| ensures Leq(h', Parent(i), i) {
      assert Leq(h, Parent(i), i);
    }
  }

  lemma Shortened<K(!new)>(h: Heap<K>, index: map<Node, nat>, e: Node)
    requires Keyed(h) && Ordered(h) && Indexed(h.slots, index) && h.slots != [] && h.slots[|h.slots| - 1] == e
    ensures var h' := h.(slots := h.slots[..|h.slots| - 1]);
      && Keyed(h') && Ordered(h') && Indexed(h'.slots, index)
      && forall x :: x in h'.slots <==> x in h.slots && x != e
  {
    var h' := h.(slots := h.slots[..|h.slots| - 1]);
    assert h.slots == h'.slots + [e];
    forall i | 0 < i < |h'.slots| ensures Leq(h', Parent(i), i) {
      assert Leq(h, Parent(i), i);
    }
  }

  // The last node in the slot of the removed one may be out of order there.
  lemma Replaced<K(!new)>(h: Heap<K>, index: map<Node, nat>, cur: nat)
    requires Keyed(h) && Ordered(h) && Indexed(h.slots, index) && cur < |h.slots| - 1
    ensures var n := |h.slots| - 1; var h' := h.(slots := h.slots[..n][cur := h.slots[n]]);
      && Keyed(h') && OrderedBut(h', cur) && Indexed(h'.slots, index[h.slots[n] := cur])
      && forall x :: x in h'.slots <==> x in h.slots && x != h.slots[cur]
  {
    ReplacedNodes(h.slots, index, cur);
    ReplacedOrder(h, cur);
  }

  lemma ReplacedOrder<K(!new)>(h: Heap<K>, cur: nat)
    requires Keyed(h) && Ordered(h) && cur < |h.slots| - 1
    requires var n := |h.slots| - 1; Keyed(h.(slots := h.slots[..n][cur := h.slots[n]]))
    ensures var n := |h.slots| - 1; OrderedBut(h.(slots := h.slots[..n][cur := h.slots[n]]), cur)
  {
    hide TotalPreorder, NoRepeat;
    var n := |h.slots| - 1;
    var h' := h.(slots := h.slots[..n][cur := h.slots[n]]);
    forall i | 0 < i < n && i != cur && Parent(i) != cur ensures Leq(h', Parent(i), i) {
      assert Leq(h, Parent(i), i);
    }
    forall i | 0 < i < n && Parent(i) == cur && 0 < cur ensures Leq(h', Parent(cur), i) {
      OrderedParts(h, cur);
      assert Leq(h, Parent(cur), i);
    }
  }

  lemma ReplacedNodes(s: seq<Node>, index: map<Node, nat>, cur: nat)
    requires NoRepeat(s) && Indexed(s, index) && cur < |s| - 1
    ensures var t := s[..|s| - 1][cur := s[|s| - 1]];
      && NoRepeat(t) && Indexed(t, index[s[|s| - 1] := cur]) && forall x :: x in t <==> x in s && x != s[cur]
  {
    var n := |s| - 1;
    var t := s[..n][cur := s[n]];
    forall x | x in s && x != s[cur] ensures x in t {
      var i :| 0 <= i < |s| && s[i] == x;
      assert t[if i == n then cur else i] == x;
    }
  }
}
