/** Who owns every physical frame: the kernel image and firmware, the page tables, the heap pages,
    the callers of `pmm_alloc_page`, or nobody any more. */
module Ownership {
  import opened Words
  import opened PageTables
  import opened Walker
  import opened VirtualMemory
  import opened Heap
  import opened HeapCost
  import FrameSets

  predicate MapsTo(m: Machine, k: Slot, f: nat) {
    Mapped(m, k) && Translate(m.mem, m.root, HeapPage(k)).value.frame == f
  }

  ghost predicate HeapFrame(m: Machine, f: nat) {
    exists k: Slot :: MapsTo(m, k, f)
  }

  /** Frames held outside the page tables and the heap: reserved at start-up, held by clients, or
      lost to a map that failed. */
  datatype Ledger = Ledger(reserved: set<nat>, client: set<nat>, lost: set<nat>)

  function Held(l: Ledger): set<nat> {
    l.reserved + l.client + l.lost
  }

  ghost predicate Disjoint(l: Ledger) {
    l.reserved !! l.client !! l.lost
  }

  /** The used frames are the disjoint union of the tables, the heap frames and the ledger. */
  ghost predicate Partition(m: Machine, l: Ledger) {
    && Disjoint(l)
    && (forall f: nat :: f in m.used <==> f in Held(l) || TableOf(m, f) || HeapFrame(m, f))
    && (forall f: nat | f in Held(l) :: !TableOf(m, f) && !HeapFrame(m, f))
    && (forall f: nat | TableOf(m, f) :: !HeapFrame(m, f))
  }

  /** No frame backs two heap pages. */
  ghost predicate HeapInjective(m: Machine) {
    forall j: Slot, k: Slot, f: nat | MapsTo(m, j, f) && MapsTo(m, k, f) :: j == k
  }

  ghost predicate HeapFlags(m: Machine) {
    forall k: Slot | Mapped(m, k) :: Translate(m.mem, m.root, HeapPage(k)).value.flags == HEAP_FLAGS
  }

  ghost predicate Owned(m: Machine, l: Ledger) {
    Partition(m, l) && HeapInjective(m) && HeapFlags(m) && 0 in l.reserved
  }

  // ------------------------------------------------------- allocator operations

  /** A frame taken from the allocator belongs to nobody else. */
  lemma TakeOwned(m: Machine, l: Ledger, l': Ledger, f: nat)
    requires Owned(m, l) && f !in m.used && Disjoint(l') && l'.reserved == l.reserved && Held(l') == Held(l) + {f}
    ensures Owned(Take(m, f), l')
  {
    var n := Take(m, f);
    assert forall k: Slot, g: nat :: MapsTo(n, k, g) == MapsTo(m, k, g);
    SameHeapFrames(m, n);
    TablesKept(m, n);
  }

  lemma SameHeapFrames(m: Machine, n: Machine)
    requires forall k: Slot, g: nat :: MapsTo(n, k, g) == MapsTo(m, k, g)
    ensures forall g: nat :: HeapFrame(n, g) == HeapFrame(m, g)
  {
    forall g: nat
      ensures HeapFrame(n, g) == HeapFrame(m, g)
    {
      if HeapFrame(m, g) {
        var k: Slot :| MapsTo(m, k, g);
        assert MapsTo(n, k, g);
      }
    }
  }

  /** A client gives back a frame it holds. */
  lemma ReleaseOwned(m: Machine, l: Ledger, f: nat)
    requires Inv(m) && Owned(m, l) && f in l.client
    ensures var n := m.(used := FrameSets.Free(m.used, f));
            Inv(n) && Owned(n, l.(client := l.client - {f}))
  {
    var n := m.(used := FrameSets.Free(m.used, f));
    var l' := l.(client := l.client - {f});
    assert Held(l') == Held(l) - {f};
    SameHeapFrames(m, n);
    TablesKept(m, n);
    forall p | Depth(p) <= 3 && TableAt(n.mem, n.root, p).Some?
      ensures TableAt(n.mem, n.root, p).value in n.used
    {
      assert TableOf(m, TableAt(m.mem, m.root, p).value);
    }
  }

  // --------------------------------------------------------- mapping operations

  /** Growing the tables while the heap pages keep their frames keeps the partition. */
  lemma GrowOwned(m: Machine, n: Machine, l: Ledger)
    requires Inv(m) && Owned(m, l) && TablesGrow(m, n)
    requires forall k: Slot :: Translate(n.mem, n.root, HeapPage(k)) == Translate(m.mem, m.root, HeapPage(k))
    ensures Owned(n, l)
  {
    forall k: Slot, g: nat
      ensures MapsTo(n, k, g) == MapsTo(m, k, g)
    {
      assert Mapped(n, k) == Mapped(m, k);
    }
    SameHeapFrames(m, n);
    forall f: nat | TableOf(m, f)
      ensures TableOf(n, f)
    {
      TableStays(m, n, f);
    }
    assert forall k: Slot :: Mapped(n, k) == Mapped(m, k);
  }

  /** A page outside the heap window is mapped or unmapped: nobody loses or gains a frame, except the
      page tables. */
  lemma MapOutsideOwned(m: Machine, l: Ledger, v: VPage, pa: Word, flags: nat)
    requires Inv(m) && Owned(m, l) && PathClear(m.mem, m.root, v)
    requires pa < PHYSICAL_LIMIT && flags < 4096 && forall k: Slot :: v != HeapPage(k)
    ensures Owned(MapPage(m, v, pa, flags), l)
  {
    MapKeepsInvariant(m, v, pa, flags);
    forall k: Slot {
      MapUpdatesOneKey(m, v, pa, flags, HeapPage(k));
    }
    GrowOwned(m, MapPage(m, v, pa, flags), l);
  }

  lemma UnmapOutsideOwned(m: Machine, l: Ledger, v: VPage)
    requires Inv(m) && Owned(m, l) && PathClear(m.mem, m.root, v) && forall k: Slot :: v != HeapPage(k)
    ensures Owned(UnmapPage(m, v), l)
  {
    UnmapKeepsInvariant(m, v);
    forall k: Slot {
      UnmapRemovesOneKey(m, v, HeapPage(k));
    }
    GrowOwned(m, UnmapPage(m, v), l);
  }

  /** A held frame becomes the frame of an unmapped heap page. */
  lemma AdoptOwned(m: Machine, n: Machine, l: Ledger, k: Slot, f: nat)
    requires Inv(m) && Owned(m, l) && TablesGrow(m, n) && f in l.lost && !Mapped(m, k)
    requires forall j: Slot :: Translate(n.mem, n.root, HeapPage(j)) ==
               if j == k then Some(Leaf(f, HEAP_FLAGS)) else Translate(m.mem, m.root, HeapPage(j))
    ensures Owned(n, l.(lost := l.lost - {f}))
  {
    hide Translate, Inv, HeapPage;
    assert forall j: Slot, g: nat :: MapsTo(n, j, g) <==> if j == k then g == f else MapsTo(m, j, g);
    forall g: nat
      ensures HeapFrame(n, g) <==> HeapFrame(m, g) || g == f
    {
      if HeapFrame(m, g) {
        var j: Slot :| MapsTo(m, j, g);
        assert MapsTo(n, j, g);
      }
      assert MapsTo(n, k, f);
    }
    forall g: nat | TableOf(m, g)
      ensures TableOf(n, g)
    {
      TableStays(m, n, g);
    }
    assert Held(l.(lost := l.lost - {f})) == Held(l) - {f};
    assert forall j: Slot :: !MapsTo(m, j, f) by {
      assert !HeapFrame(m, f);
    }
  }

  // ----------------------------------------------------------- the kmalloc loop

  lemma FreshHeapPages(m: Machine, k: Slot)
    requires HeapReady(m) && NextFrame(m) != 0
    ensures MapFresh(m, HeapPage(k)).root == m.root
    ensures forall j: Slot ::
              Translate(MapFresh(m, HeapPage(k)).mem, m.root, HeapPage(j)) ==
                if FreshEnough(m, HeapPage(k)) && j == k then Some(Leaf(NextFrame(m), HEAP_FLAGS))
                else Translate(m.mem, m.root, HeapPage(j))
  {
    MapFreshKeeps(m, HeapPage(k));
    forall j: Slot
      ensures Translate(MapFresh(m, HeapPage(k)).mem, m.root, HeapPage(j)) ==
                if FreshEnough(m, HeapPage(k)) && j == k then Some(Leaf(NextFrame(m), HEAP_FLAGS))
                else Translate(m.mem, m.root, HeapPage(j))
    {
      MapFreshTranslates(m, HeapPage(k), HeapPage(j));
      if HeapPage(j) == HeapPage(k) { HeapPagesDistinct(j, k); }
    }
  }

  lemma TakeLost(m: Machine, l: Ledger)
    requires Inv(m) && Owned(m, l) && NextFrame(m) != 0
    ensures var f := NextFrame(m);
            && Inv(Take(m, f)) && f !in l.lost
            && Owned(Take(m, f), l.(lost := l.lost + {f}))
  {
    var f := NextFrame(m);
    TakeKeeps(m);
    var la := l.(lost := l.lost + {f});
    assert Held(la) == Held(l) + {f};
    assert f !in Held(l);
    TakeOwned(m, l, la, f);
  }

  lemma AdoptOrLose(a: Machine, n: Machine, la: Ledger, k: Slot, f: nat, enough: bool)
    requires Inv(a) && Owned(a, la) && TablesGrow(a, n) && f in la.lost && !Mapped(a, k)
    requires forall j: Slot :: Translate(n.mem, n.root, HeapPage(j)) ==
               if enough && j == k then Some(Leaf(f, HEAP_FLAGS)) else Translate(a.mem, a.root, HeapPage(j))
    ensures Owned(n, if enough then la.(lost := la.lost - {f}) else la)
  {
    if enough {
      AdoptOwned(a, n, la, k, f);
    } else {
      GrowOwned(a, n, la);
    }
  }

  /** One page of the loop: its frame ends up in the heap, or is lost when the map failed. */
  lemma FreshOwned(m: Machine, l: Ledger, k: Slot)
    requires HeapReady(m) && Owned(m, l) && !Mapped(m, k) && NextFrame(m) != 0
    ensures Owned(MapFresh(m, HeapPage(k)), if FreshEnough(m, HeapPage(k)) then l else l.(lost := l.lost + {NextFrame(m)}))
  {
    var f := NextFrame(m);
    var la := l.(lost := l.lost + {f});
    TakeLost(m, l);
    MapFreshKeeps(m, HeapPage(k));
    FreshHeapPages(m, k);
    AdoptOrLose(Take(m, f), MapFresh(m, HeapPage(k)), la, k, f, FreshEnough(m, HeapPage(k)));
    assert la.lost - {f} == l.lost;
    assert la.(lost := l.lost) == l;
  }

  /** The whole loop: reserved and client frames stay what they are, and frames are lost only when
      memory has run out. */
  lemma {:induction false} RangeOwned(m: Machine, l: Ledger, k: nat, end: nat) returns (l': Ledger)
    requires HeapReady(m) && Owned(m, l) && end <= HEAP_PAGES
    ensures Owned(MapRange(m, k, end).0, l')
    ensures l'.reserved == l.reserved && l'.client == l.client && l.lost <= l'.lost
    ensures l'.lost != l.lost ==> FreeFrames(MapRange(m, k, end).0) == 0
    decreases end - k
  {
    l' := l;
    if k < end {
      LookupTellsMapped(m, k);
      if Mapped(m, k) {
        l' := RangeOwned(m, l, k + 1, end);
      } else if NextFrame(m) != 0 {
        MapFreshKeepsHeap(m, k);
        var n := MapFresh(m, HeapPage(k));
        FreshOwned(m, l, k);
        var la := if FreshEnough(m, HeapPage(k)) then l else l.(lost := l.lost + {NextFrame(m)});
        l' := RangeOwned(n, la, k + 1, end);
        MapFreshCounts(m, HeapPage(k));
        if FreeFrames(n) == 0 {
          FullStays(n, k + 1, end);
        }
      }
    }
  }

  // ----------------------------------------------------------- writing to the heap

  /** The machine after a program stores the word w at index i of the frame behind heap page k. */
  function Poke(m: Machine, k: Slot, i: Index, w: Word): Machine
    requires Mapped(m, k) && Translate(m.mem, m.root, HeapPage(k)).value.frame < |m.mem|
  {
    m.(mem := Store(m.mem, Translate(m.mem, m.root, HeapPage(k)).value.frame, i, w))
  }

  /** A store into a frame that holds no table disturbs no table, no translation and no owner. */
  lemma StoreKeepsOwners(m: Machine, l: Ledger, f: nat, i: Index, w: Word)
    requires HeapReady(m) && Owned(m, l) && f < |m.mem| && !TableOf(m, f)
    ensures var n := m.(mem := Store(m.mem, f, i, w));
            && HeapReady(n) && Owned(n, l)
            && SameTables(m.mem, n.mem, m.root) && SameEntries(m.mem, n.mem, m.root)
  {
    var n := m.(mem := Store(m.mem, f, i, w));
    StoreOutsideTables(m, f, i, w);
    SameEntriesKeep(m, n);
    SameHeapFrames(m, n);
    TablesKept(m, n);
    assert forall j: Slot :: Mapped(n, j) == Mapped(m, j);
  }

  /** Heap contents cannot disturb the page tables: no store through the heap changes a table, a
      translation or an access right. */
  lemma PokeKeeps(m: Machine, l: Ledger, k: Slot, i: Index, w: Word)
    requires HeapReady(m) && Owned(m, l) && Mapped(m, k)
    ensures Translate(m.mem, m.root, HeapPage(k)).value.frame < |m.mem|
    ensures var n := Poke(m, k, i, w);
            && HeapReady(n) && Owned(n, l)
            && SameTables(m.mem, n.mem, m.root) && SameEntries(m.mem, n.mem, m.root)
  {
    var f := Translate(m.mem, m.root, HeapPage(k)).value.frame;
    assert MapsTo(m, k, f);
    assert HeapFrame(m, f);
    StoreKeepsOwners(m, l, f, i, w);
  }

  lemma SameEntriesKeep(m: Machine, n: Machine)
    requires HeapReady(m) && n.root == m.root && n.used == m.used && n.total == m.total && |n.mem| == |m.mem|
    requires Tree(n.mem, m.root) && SameTables(m.mem, n.mem, m.root) && SameEntries(m.mem, n.mem, m.root)
    ensures HeapReady(n)
    ensures forall v :: Translate(n.mem, m.root, v) == Translate(m.mem, m.root, v)
    ensures forall q | Depth(q) <= 3 :: ClearTo(n.mem, m.root, q) == ClearTo(m.mem, m.root, q)
  {
    SameEntriesInv(m, n);
    forall v: VPage
      ensures Translate(n.mem, m.root, v) == Translate(m.mem, m.root, v)
    {
      SameEntriesSameTranslation(m.mem, n.mem, m.root, v);
    }
    assert forall k: Slot :: Mapped(n, k) == Mapped(m, k);
  }
}
