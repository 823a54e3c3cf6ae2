/** The paged storage of the heap: pages of slots reached directly, through one directory, or through two. */
module HeapPages {
  import opened Lists

  type Page = nat

  const SIZE: nat := 512

  // What one, two and three levels of pages hold together.
  const CAPACITY: nat := SIZE + SIZE * SIZE + SIZE * SIZE * SIZE

  // The single page and the two directories.
  datatype Dirs = Dirs(single: Page, double: map<nat, Page>, triple: map<nat, map<nat, Page>>)

  // Page number q is where the directories say.
  ghost predicate PageAt(d: Dirs, q: nat, page: Page) {
    if q == 0 then d.single == page
    else if q - 1 < SIZE then q - 1 in d.double && d.double[q - 1] == page
    else
      var r := q - 1 - SIZE;
      r / SIZE in d.triple && r % SIZE in d.triple[r / SIZE] && d.triple[r / SIZE][r % SIZE] == page
  }

  ghost predicate Linked(d: Dirs, pages: seq<Page>) {
    forall q :: 0 <= q < |pages| ==> PageAt(d, q, pages[q])
  }

  class Pages {
    var hwm: nat
    // Page 0 stands for a null pointer; a directory is a map from its allocated entries.
    var elements1: Page
    var elements2: map<nat, Page>
    var elements3: map<nat, map<nat, Page>>
    var next: Page
    // The pages in the order of the indices that they hold.
    ghost var pages: seq<Page>

    ghost function Directories(): Dirs
      reads `elements1, `elements2, `elements3
    {
      Dirs(elements1, elements2, elements3)
    }

    ghost predicate Valid()
      reads this
    {
      && hwm == |pages| * SIZE && NoRepeat(pages) && |pages| <= 1 + SIZE + SIZE * SIZE && next > 0
      && Linked(Directories(), pages) && forall q :: 0 <= q < |pages| ==> 0 < pages[q] < next
    }

    constructor ()
      ensures Valid() && pages == []
    {
      hwm, elements1, elements2, elements3, next, pages := 0, 0, map[], map[], 1, [];
    }

    method GrowDouble(at: nat, frag2: Page)
      requires Valid() && |pages| >= 1 && at == (|pages| - 1) * SIZE && |pages| - 1 < SIZE
      modifies `elements2
      ensures Linked(Directories(), pages + [frag2])
    {
      PageNumber(|pages| - 1);
      if at == 0 {
        elements2 := map[];
      }
      elements2 := elements2[at / SIZE := frag2];
    }

    method GrowTriple(at: nat, frag2: Page)
      requires Valid() && |pages| >= 1 + SIZE && at == (|pages| - 1 - SIZE) * SIZE
      modifies `elements3
      ensures Linked(Directories(), pages + [frag2])
    {
      ghost var r := |pages| - 1 - SIZE;
      PageNumber(r);
      assert r % SIZE != 0 ==> PageAt(Directories(), |pages| - 1, pages[|pages| - 1]);
      if at == 0 {
        elements3 := map[];
      }
      var frag1: map<nat, Page> := if (at / SIZE) % SIZE == 0 then map[] else elements3[at / (SIZE * SIZE)];
      elements3 := elements3[at / (SIZE * SIZE) := frag1[(at / SIZE) % SIZE := frag2]];
      forall q: nat | 1 + SIZE <= q < |pages| ensures PageAt(Directories(), q, pages[q]) {
        assert q - 1 - SIZE < r && PageAt(old(Directories()), q, pages[q]);
      }
      forall q: nat | q < 1 + SIZE ensures PageAt(Directories(), q, pages[q]) {
        assert PageAt(old(Directories()), q, pages[q]);
      }
    }

    // One more page of slots, until the triple level is full.
    method Grow() returns (ok: bool)
      requires Valid()
      modifies this
      ensures Valid() && (ok <==> old(hwm) < 512 + 512 * 512 + 512 * 512 * 512)
      ensures if ok then hwm == old(hwm) + 512 && |pages| > 0 && pages[..|pages| - 1] == old(pages)
              else hwm == old(hwm) && pages == old(pages)
    {
      hide PageAt, Linked;
      var at := hwm;
      var frag2 := next;
      ok := true;
      if at == 0 {
        elements1 := frag2;
        FirstPage(Directories());
      } else if at - SIZE < SIZE * SIZE {
        GrowDouble(at - SIZE, frag2);
      } else {
        at := at - SIZE - SIZE * SIZE;
        if at >= SIZE * SIZE * SIZE {
          return false;
        }
        GrowTriple(at, frag2);
      }
      next := next + 1;
      MorePages(pages, frag2);
      pages := pages + [frag2];
      hwm := hwm + SIZE;
    }

    lemma HwmFits()
      requires Valid()
      ensures hwm <= CAPACITY
    {
    }

    /** cfs_binheap_pointer: below the high-water mark every index has a slot on an allocated page. */
    method Pointer(idx: nat) returns (page: Page, slot: nat)
      requires Valid() && idx < hwm
      ensures idx / 512 < |pages| && page == pages[idx / 512] && page != 0 && slot == idx % 512
    {
      assert PageAt(Directories(), idx / SIZE, pages[idx / SIZE]);
      var at := idx;
      if at < SIZE {
        return elements1, at;
      }
      at := at - SIZE;
      if at < SIZE * SIZE {
        return elements2[at / SIZE], at % SIZE;
      }
      at := at - SIZE * SIZE;
      return elements3[at / (SIZE * SIZE)][(at / SIZE) % SIZE], at % SIZE;
    }
  }

  lemma FirstPage(d: Dirs)
    ensures Linked(d, [] + [d.single])
  {
  }

  lemma PageNumber(r: nat)
    ensures (r * SIZE) / SIZE == r && (r * SIZE) / (SIZE * SIZE) == r / SIZE
  {
  }

  lemma MorePages(pages: seq<Page>, page: Page)
    requires NoRepeat(pages) && forall q :: 0 <= q < |pages| ==> pages[q] < page
    ensures NoRepeat(pages + [page])
  {
  }

  /** Distinct indices have distinct slots. */
  lemma SlotsDistinct(pages: seq<Page>, i: nat, j: nat)
    requires NoRepeat(pages) && i / 512 < |pages| && j / 512 < |pages| && i != j
    ensures pages[i / 512] != pages[j / 512] || i % 512 != j % 512
  {
    assert i == i / SIZE * SIZE + i % SIZE && j == j / SIZE * SIZE + j % SIZE;
  }
}
