/** How many frames a range of heap pages costs, counted before the call, and the proof that the
    loop of `kmalloc` maps the whole range exactly when that many frames are free. */
module HeapCost {
  import opened Words
  import opened PageTables
  import opened Walker
  import opened VirtualMemory
  import opened Heap
  import FrameSets

  /** The page table for the j-th 2 MB of the address range that starts at HEAP_START. */
  function WindowPt(j: Index): (p: Path)
    ensures Depth(p) == 3
  {
    Child(Child(Child(Root, 256), 0), j)
  }

  function Absent(m: Machine, p: Path): nat {
    if TableAt(m.mem, m.root, p).None? then 1 else 0
  }

  /** Page tables missing among those numbered from j up to `end`. */
  function MissingPts(m: Machine, j: nat, end: nat): nat
    requires end <= 8
    decreases end - j
  {
    if j >= end then 0 else Absent(m, WindowPt(j)) + MissingPts(m, j + 1, end)
  }

  function Unmapped(m: Machine, k: nat, end: nat): nat
    requires end <= HEAP_PAGES
    decreases end - k
  {
    if k >= end then 0 else (if Mapped(m, k) then 0 else 1) + Unmapped(m, k + 1, end)
  }

  function UpperTables(m: Machine): nat {
    Absent(m, Child(Root, 256)) + Absent(m, Child(Child(Root, 256), 0))
  }

  /** One frame for each unmapped page and one for each table that does not exist yet. */
  function Need(m: Machine, k: nat, end: nat): nat
    requires end <= HEAP_PAGES
  {
    if k >= end then 0
    else Unmapped(m, k, end) + UpperTables(m) + MissingPts(m, k / 512, (end + 511) / 512)
  }

  lemma {:induction false} UnmappedBound(m: Machine, k: nat, end: nat)
    requires end <= HEAP_PAGES
    ensures Unmapped(m, k, end) <= if k < end then end - k else 0
    decreases end - k
  {
    if k < end {
      UnmappedBound(m, k + 1, end);
    }
  }

  lemma {:induction false} MissingPtsBound(m: Machine, j: nat, end: nat)
    requires end <= 8
    ensures MissingPts(m, j, end) <= if j < end then end - j else 0
    decreases end - j
  {
    if j < end {
      MissingPtsBound(m, j + 1, end);
    }
  }

  /** The whole window never needs more than ten tables. */
  lemma TenTables(m: Machine, k: nat, end: nat)
    requires k <= end <= HEAP_PAGES
    ensures Need(m, k, end) <= end - k + 10
  {
    UnmappedBound(m, k, end);
    MissingPtsBound(m, k / 512, (end + 511) / 512);
  }

  lemma SlotTables(m: Machine, k: Slot)
    ensures Pt(HeapPage(k)) == WindowPt(k / 512)
    ensures MissingTables(m, Pt(HeapPage(k))) == UpperTables(m) + Absent(m, WindowPt(k / 512))
  {
    var p := Pt(HeapPage(k));
    assert MissingTables(m, p) == MissingTables(m, p.parent) + Absent(m, p);
    assert MissingTables(m, p.parent) == MissingTables(m, p.parent.parent) + Absent(m, p.parent);
    assert MissingTables(m, p.parent.parent) == MissingTables(m, Root) + Absent(m, p.parent.parent);
  }

  /** A table that exists has existing tables above it. */
  lemma TablesAbove(m: Machine, j: Index)
    requires TableAt(m.mem, m.root, WindowPt(j)).Some?
    ensures UpperTables(m) == 0 && Absent(m, WindowPt(j)) == 0
  {
  }

  lemma MappedHasTable(m: Machine, k: Slot)
    requires HeapReady(m) && Mapped(m, k)
    ensures TableAt(m.mem, m.root, WindowPt(k / 512)).Some?
  {
    assert PathClear(m.mem, m.root, HeapPage(k));
    ClearTranslation(m, HeapPage(k));
    assert Entry(m.mem, m.root, Pt(HeapPage(k)), HeapPage(k).i1) != 0;
  }

  /** The first page decides which page table the count starts with. */
  lemma NeedSplit(m: Machine, k: nat, end: nat)
    requires k < end <= HEAP_PAGES
    ensures Need(m, k, end) == (if Mapped(m, k) then 0 else 1) + Unmapped(m, k + 1, end) + UpperTables(m)
                               + Absent(m, WindowPt(k / 512)) + MissingPts(m, k / 512 + 1, (end + 511) / 512)
  {
  }

  /** The count for the pages after k, when the page table of k exists. */
  lemma NeedRest(m: Machine, k: nat, end: nat)
    requires k < end <= HEAP_PAGES && TableAt(m.mem, m.root, WindowPt(k / 512)).Some?
    ensures Need(m, k + 1, end) == Unmapped(m, k + 1, end) + MissingPts(m, k / 512 + 1, (end + 511) / 512)
  {
    TablesAbove(m, k / 512);
    if k + 1 < end && (k + 1) / 512 == k / 512 {
      assert MissingPts(m, k / 512, (end + 511) / 512) == MissingPts(m, k / 512 + 1, (end + 511) / 512);
    } else if k + 1 < end {
      assert (k + 1) / 512 == k / 512 + 1;
    } else {
      assert (end + 511) / 512 == k / 512 + 1;
    }
  }

  lemma {:induction false} SameUnmapped(m: Machine, n: Machine, k: nat, end: nat)
    requires end <= HEAP_PAGES && forall j: Slot | k <= j < end :: Mapped(n, j) == Mapped(m, j)
    ensures Unmapped(n, k, end) == Unmapped(m, k, end)
    decreases end - k
  {
    if k < end {
      SameUnmapped(m, n, k + 1, end);
    }
  }

  lemma {:induction false} SameMissingPts(m: Machine, n: Machine, j: nat, end: nat)
    requires end <= 8 && forall i: Index | j <= i < end :: Absent(n, WindowPt(i)) == Absent(m, WindowPt(i))
    ensures MissingPts(n, j, end) == MissingPts(m, j, end)
    decreases end - j
  {
    if j < end {
      SameMissingPts(m, n, j + 1, end);
    }
  }

  lemma OtherPagesSame(m: Machine, k: nat, end: nat)
    requires HeapReady(m) && k < end <= HEAP_PAGES && NextFrame(m) != 0
    ensures Unmapped(MapFresh(m, HeapPage(k)), k + 1, end) == Unmapped(m, k + 1, end)
  {
    var n := MapFresh(m, HeapPage(k));
    MapFreshKeeps(m, HeapPage(k));
    forall j: Slot | k + 1 <= j < end
      ensures Mapped(n, j) == Mapped(m, j)
    {
      MapFreshTranslates(m, HeapPage(k), HeapPage(j));
    }
    SameUnmapped(m, n, k + 1, end);
  }

  lemma OtherTablesSame(m: Machine, k: nat, end: nat)
    requires HeapReady(m) && k < HEAP_PAGES && end <= 8 && NextFrame(m) != 0
    ensures MissingPts(MapFresh(m, HeapPage(k)), k / 512 + 1, end) == MissingPts(m, k / 512 + 1, end)
  {
    hide MapFresh;
    var n := MapFresh(m, HeapPage(k));
    MapFreshKeeps(m, HeapPage(k));
    MapFreshCounts(m, HeapPage(k));
    forall i: Index | k / 512 + 1 <= i < end
      ensures Absent(n, WindowPt(i)) == Absent(m, WindowPt(i))
    {
      NotAboveSibling(i, k / 512);
    }
    SameMissingPts(m, n, k / 512 + 1, end);
  }

  /** After a page was mapped successfully the rest costs what it cost before. */
  lemma NeedAfterFresh(m: Machine, k: nat, end: nat)
    requires HeapReady(m) && k < end <= HEAP_PAGES && !Mapped(m, k)
    requires NextFrame(m) != 0 && FreshEnough(m, HeapPage(k))
    ensures Need(MapFresh(m, HeapPage(k)), k + 1, end) == Need(m, k, end) - 1 - MissingTables(m, Pt(HeapPage(k)))
  {
    var n := MapFresh(m, HeapPage(k));
    MapFreshCounts(m, HeapPage(k));
    MapFreshKeeps(m, HeapPage(k));
    SlotTables(m, k);
    NeedSplit(m, k, end);
    NeedRest(n, k, end);
    OtherPagesSame(m, k, end);
    OtherTablesSame(m, k, (end + 511) / 512);
  }

  lemma NotAboveSibling(i: Index, j: Index)
    requires i != j
    ensures !OnWay(WindowPt(i), WindowPt(j))
  {
    NotOnWay(WindowPt(i), WindowPt(j).parent);
  }

  /** The page just tried is mapped at the end of the loop exactly when its map succeeded. */
  lemma FreshPageAtEnd(m: Machine, k: nat, end: nat)
    requires HeapReady(m) && k < end <= HEAP_PAGES && !Mapped(m, k) && NextFrame(m) != 0
    ensures HeapReady(MapFresh(m, HeapPage(k)))
    ensures MapRange(m, k, end) == MapRange(MapFresh(m, HeapPage(k)), k + 1, end)
    ensures Mapped(MapRange(m, k, end).0, k) <==> FreshEnough(m, HeapPage(k))
  {
    var v := HeapPage(k);
    var n := MapFresh(m, v);
    LookupTellsMapped(m, k);
    MapFreshKeepsHeap(m, k);
    MapFreshKeeps(m, v);
    MapFreshTranslates(m, v, v);
    MapRangeKeepsMappings(n, k + 1, end, v);
  }

  lemma AllMappedSplit(n: Machine, k: nat, end: nat)
    requires k < end <= HEAP_PAGES
    ensures AllMapped(n, k, end) <==> Mapped(n, k) && AllMapped(n, k + 1, end)
  {
  }

  lemma MappedPageAtEnd(m: Machine, k: nat, end: nat)
    requires HeapReady(m) && k < end <= HEAP_PAGES && Mapped(m, k)
    ensures MapRange(m, k, end) == MapRange(m, k + 1, end) && Mapped(MapRange(m, k, end).0, k)
    ensures Need(m, k, end) == Need(m, k + 1, end)
  {
    LookupTellsMapped(m, k);
    MapRangeKeepsMappings(m, k, end, HeapPage(k));
    MappedHasTable(m, k);
    TablesAbove(m, k / 512);
    NeedSplit(m, k, end);
    NeedRest(m, k, end);
  }

  lemma NeedAtLeast(m: Machine, k: nat, end: nat)
    requires k < end <= HEAP_PAGES && !Mapped(m, k)
    ensures Need(m, k, end) >= 1 + MissingTables(m, Pt(HeapPage(k)))
  {
    NeedSplit(m, k, end);
    SlotTables(m, k);
  }

  lemma NoFrameLeft(m: Machine, k: nat, end: nat)
    requires HeapReady(m) && k < end <= HEAP_PAGES && !Mapped(m, k)
    ensures NextFrame(m) == 0 <==> FreeFrames(m) == 0
    ensures FreeFrames(m) >= 0
    ensures NextFrame(m) == 0 ==> MapRange(m, k, end) == (m, false)
  {
    LookupTellsMapped(m, k);
    FrameSets.FreeCountZero(m.used, m.total);
    FrameSets.AllocTakesLowest(m.used, m.total);
  }

  /** Once nothing is free the loop takes nothing more. */
  lemma {:induction false} FullStays(m: Machine, k: nat, end: nat)
    requires HeapReady(m) && end <= HEAP_PAGES && FreeFrames(m) == 0
    ensures MapRange(m, k, end).0 == m
    decreases end - k
  {
    FrameSets.AllocTakesLowest(m.used, m.total);
    if k < end {
      LookupTellsMapped(m, k);
      if Mapped(m, k) {
        FullStays(m, k + 1, end);
      }
    }
  }

  lemma ReadyPage(m: Machine, k: Slot)
    requires HeapReady(m)
    ensures Inv(m) && PathClear(m.mem, m.root, HeapPage(k))
  {
  }

  /** The page at k gets no mapping, for lack of a frame for it or for its tables. */
  lemma ShortOfFrames(m: Machine, k: nat, end: nat)
    requires HeapReady(m) && k < end <= HEAP_PAGES && !Mapped(m, k)
    requires NextFrame(m) == 0 || !FreshEnough(m, HeapPage(k))
    ensures var (n, ok) := MapRange(m, k, end);
            !(ok && AllMapped(n, k, end)) && FreeFrames(n) == 0 && FreeFrames(m) < Need(m, k, end)
  {
    ReadyPage(m, k);
    hide MapFresh, MapRange, Mapped, Need, HeapReady, Inv;
    NoFrameLeft(m, k, end);
    NeedAtLeast(m, k, end);
    if NextFrame(m) != 0 {
      FreshPageAtEnd(m, k, end);
      MapFreshCounts(m, HeapPage(k));
      FullStays(MapFresh(m, HeapPage(k)), k + 1, end);
      AllMappedSplit(MapRange(m, k, end).0, k, end);
    }
  }

  /** The loop maps the whole range, and `kmalloc` does not give up, exactly when the range costs no
      more frames than are free; it then takes exactly that many, and otherwise all there are. */
  lemma {:induction false} RangeFits(m: Machine, k: nat, end: nat)
    requires HeapReady(m) && end <= HEAP_PAGES
    ensures var (n, ok) := MapRange(m, k, end);
            && (ok && AllMapped(n, k, end) <==> Need(m, k, end) <= FreeFrames(m))
            && FreeFrames(n) == if Need(m, k, end) <= FreeFrames(m) then FreeFrames(m) - Need(m, k, end) else 0
    decreases end - k
  {
    hide MapFresh, MapRange, Mapped, Need, AllMapped, FreeFrames, HeapReady, Inv;
    if k >= end {
      EmptyRange(m, k, end);
    } else {
      AllMappedSplit(MapRange(m, k, end).0, k, end);
      if Mapped(m, k) {
        MappedPageAtEnd(m, k, end);
        RangeFits(m, k + 1, end);
      } else if NextFrame(m) == 0 || !FreshEnough(m, HeapPage(k)) {
        ShortOfFrames(m, k, end);
      } else {
        ReadyPage(m, k);
        FreshPageAtEnd(m, k, end);
        MapFreshCounts(m, HeapPage(k));
        NeedAfterFresh(m, k, end);
        RangeFits(MapFresh(m, HeapPage(k)), k + 1, end);
      }
    }
  }

  lemma EmptyRange(m: Machine, k: nat, end: nat)
    requires HeapReady(m) && end <= HEAP_PAGES && k >= end
    ensures MapRange(m, k, end) == (m, true) && AllMapped(m, k, end) && Need(m, k, end) == 0 && FreeFrames(m) >= 0
  {
    FrameSets.FreeCountZero(m.used, m.total);
  }

  // ------------------------------------------------ when the loop does not give up

  /** The last unmapped page from k up to `end`; `end` when all are mapped. */
  function LastUnmapped(m: Machine, k: nat, end: nat): (last: nat)
    requires k <= end <= HEAP_PAGES
    ensures k <= last <= end && (last < end ==> !Mapped(m, last))
    ensures forall j: Slot | k <= j < end && (last < j || last == end) :: Mapped(m, j)
    decreases end - k
  {
    if k == end then end
    else
      var last := LastUnmapped(m, k + 1, end);
      if last == end && !Mapped(m, k) then k else last
  }

  /** The loop takes a frame for the last unmapped page as well, but does not look whether the map of
      that page succeeds: one frame for it, and all that the pages before it cost. */
  function AnswerNeed(m: Machine, k: nat, end: nat): nat
    requires end <= HEAP_PAGES
  {
    if k >= end || LastUnmapped(m, k, end) == end then 0 else Need(m, k, LastUnmapped(m, k, end)) + 1
  }

  lemma FreshKeepsOthers(m: Machine, k: Slot)
    requires HeapReady(m) && NextFrame(m) != 0
    ensures HeapReady(MapFresh(m, HeapPage(k)))
    ensures forall j: Slot | j != k :: Mapped(MapFresh(m, HeapPage(k)), j) == Mapped(m, j)
  {
    MapFreshKeepsHeap(m, k);
    MapFreshKeeps(m, HeapPage(k));
    forall j: Slot | j != k
      ensures Mapped(MapFresh(m, HeapPage(k)), j) == Mapped(m, j)
    {
      MapFreshTranslates(m, HeapPage(k), HeapPage(j));
      if HeapPage(j) == HeapPage(k) {
        HeapPagesDistinct(j, k);
      }
    }
  }

  lemma {:induction false} AnswersAt(m: Machine, k: nat, last: nat, end: nat)
    requires HeapReady(m) && k <= last < end <= HEAP_PAGES
    requires !Mapped(m, last) && AllMapped(m, last + 1, end)
    ensures MapRange(m, k, end).1 <==> Need(m, k, last) < FreeFrames(m)
    decreases last - k
  {
    ReadyPage(m, k);
    hide MapFresh, MapRange, Mapped, Need, HeapReady, Inv;
    if Mapped(m, k) {
      MappedPageAtEnd(m, k, end);
      MappedPageAtEnd(m, k, last);
      AnswersAt(m, k + 1, last, end);
    } else {
      NoFrameLeft(m, k, end);
      NoNeed(m, k);
      if NextFrame(m) != 0 {
        var n := MapFresh(m, HeapPage(k));
        FreshPageAtEnd(m, k, end);
        FreshKeepsOthers(m, k);
        if k == last {
          MappedRangeIsFree(n, k + 1, end);
        } else {
          MapFreshCounts(m, HeapPage(k));
          NeedAtLeast(m, k, last);
          AnswersAt(n, k + 1, last, end);
          if FreshEnough(m, HeapPage(k)) {
            NeedAfterFresh(m, k, last);
          }
        }
      }
    }
  }

  lemma NoNeed(m: Machine, k: nat)
    requires k <= HEAP_PAGES
    ensures Need(m, k, k) == 0
  {
  }

  /** The loop does not give up exactly when the frames suffice for all pages before the last unmapped
      one and one frame is left for that page, whether or not the tables it needs can still be made. */
  lemma RangeAnswers(m: Machine, k: nat, end: nat)
    requires HeapReady(m) && end <= HEAP_PAGES
    ensures MapRange(m, k, end).1 <==> AnswerNeed(m, k, end) <= FreeFrames(m)
  {
    FrameSets.FreeCountZero(m.used, m.total);
    if k < end {
      var last := LastUnmapped(m, k, end);
      if last == end {
        MappedRangeIsFree(m, k, end);
      } else {
        AnswersAt(m, k, last, end);
      }
    }
  }
}
