/** Four-level page tables as the processor reads them (Intel SDM Vol. 3A, sections 4.5 and 4.6),
    and what one store to a table does to the whole tree. */
module PageTables {
  import opened Words

  datatype Option<+T> = None | Some(value: T)

  const PHYSICAL_LIMIT: nat := 0x10_0000_0000_0000 // 2^52

  const PAGE_PRESENT: nat := 1
  const PAGE_WRITE: nat := 2
  const PAGE_USER: nat := 4

  type Index = i: nat | i < 512
  type Frame = f: seq<Word> | |f| == 512 witness seq(512, _ => 0)
  type Memory = seq<Frame>

  function ZeroFrame(): (f: Frame)
    ensures forall i | 0 <= i < 512 :: f[i] == 0
  {
    seq(512, _ => 0)
  }

  // ---------------------------------------------------------------- entries

  predicate Present(e: nat) { e % 2 == 1 }

  predicate User(e: nat) { e / 4 % 2 == 1 }

  predicate Writable(e: nat) { e / 2 % 2 == 1 }

  /** Bit 7: the entry maps a 2 MB or 1 GB page instead of naming a table. */
  predicate Large(e: nat) { e / 0x80 % 2 == 1 }

  /** Bits 12 to 51: the physical frame the entry names. */
  function FrameOf(e: nat): nat { e / 4096 % 0x100_0000_0000 }

  predicate Link(e: nat) { Present(e) && !Large(e) }

  // ------------------------------------------------------------------ paths

  /** The place of a table in the tree: the index taken at each level from the PML4 down. */
  datatype Path = Root | Child(parent: Path, index: Index)

  function Depth(p: Path): nat {
    match p
    case Root => 0
    case Child(q, _) => Depth(q) + 1
  }

  /** The frame holding the table at path p, when every entry on the way is a link. */
  function TableAt(m: Memory, root: nat, p: Path): (t: Option<nat>)
    ensures t.Some? ==> t.value < |m|
    decreases p, 0
  {
    match p
    case Root => if root < |m| then Some(root) else None
    case Child(q, i) =>
      var e := Entry(m, root, q, i);
      if Link(e) && FrameOf(e) < |m| then Some(FrameOf(e)) else None
  }

  /** The word at index i of the table at path q; 0 (not present) when there is no such table. */
  function Entry(m: Memory, root: nat, q: Path, i: Index): Word
    decreases q, 1
  {
    match TableAt(m, root, q)
    case None => 0
    case Some(t) => m[t][i]
  }

  // ------------------------------------------------------- address translation

  /** A 4 KB virtual page: the four table indices of its addresses. */
  datatype VPage = VPage(i4: Index, i3: Index, i2: Index, i1: Index)

  function PageOf(va: nat): VPage {
    VPage(va / 0x80_0000_0000 % 512, va / 0x4000_0000 % 512, va / 0x20_0000 % 512, va / 0x1000 % 512)
  }

  function Pdpt(v: VPage): (p: Path)
    ensures Depth(p) == 1
  {
    Child(Root, v.i4)
  }

  function Pd(v: VPage): (p: Path)
    ensures Depth(p) == 2
  {
    Child(Pdpt(v), v.i3)
  }

  function Pt(v: VPage): (p: Path)
    ensures Depth(p) == 3
  {
    Child(Pd(v), v.i2)
  }

  datatype Leaf = Leaf(frame: nat, flags: nat)

  /** What the four entries on the way to v translate it to. */
  function Walk(e4: nat, e3: nat, e2: nat, e1: nat, v: VPage): Option<Leaf> {
    if !Link(e4) || !Present(e3) then None
    else if Large(e3) then Some(Leaf(FrameOf(e3) / 0x40000 * 0x40000 + v.i2 * 512 + v.i1, e3 % 4096))
    else if !Present(e2) then None
    else if Large(e2) then Some(Leaf(FrameOf(e2) / 512 * 512 + v.i1, e2 % 4096))
    else if Present(e1) then Some(Leaf(FrameOf(e1), e1 % 4096))
    else None
  }

  /** The processor's walk for the page v: the frame it reaches and the flags of the last entry. */
  function Translate(m: Memory, root: nat, v: VPage): Option<Leaf> {
    Walk(Entry(m, root, Root, v.i4), Entry(m, root, Pdpt(v), v.i3), Entry(m, root, Pd(v), v.i2),
         Entry(m, root, Pt(v), v.i1), v)
  }

  /** User access to v: the U/S bit of every entry used for the translation. */
  predicate UserAccess(m: Memory, root: nat, v: VPage) {
    && Translate(m, root, v).Some?
    && User(Entry(m, root, Root, v.i4))
    && var e3 := Entry(m, root, Pdpt(v), v.i3);
       User(e3) && (Large(e3) ||
                    var e2 := Entry(m, root, Pd(v), v.i2);
                    User(e2) && (Large(e2) || User(Entry(m, root, Pt(v), v.i1))))
  }

  /** Write access to v: the R/W bit of every entry used for the translation. */
  predicate WriteAccess(m: Memory, root: nat, v: VPage) {
    && Translate(m, root, v).Some?
    && Writable(Entry(m, root, Root, v.i4))
    && var e3 := Entry(m, root, Pdpt(v), v.i3);
       Writable(e3) && (Large(e3) ||
                        var e2 := Entry(m, root, Pd(v), v.i2);
                        Writable(e2) && (Large(e2) || Writable(Entry(m, root, Pt(v), v.i1))))
  }

  predicate IsLarge(e: nat) { Present(e) && Large(e) }

  /** No large-page entry lies on the way to the table at p. */
  predicate ClearTo(m: Memory, root: nat, p: Path) {
    match p
    case Root => true
    case Child(q, i) => ClearTo(m, root, q) && !IsLarge(Entry(m, root, q, i))
  }

  predicate PathClear(m: Memory, root: nat, v: VPage) {
    ClearTo(m, root, Pt(v))
  }

  lemma PathClearLevels(m: Memory, root: nat, v: VPage)
    ensures PathClear(m, root, v) <==> ClearTo(m, root, Pd(v)) && !IsLarge(Entry(m, root, Pd(v), v.i2))
    ensures ClearTo(m, root, Pd(v)) <==> ClearTo(m, root, Pdpt(v)) && !IsLarge(Entry(m, root, Pdpt(v), v.i3))
    ensures ClearTo(m, root, Pdpt(v)) <==> !IsLarge(Entry(m, root, Root, v.i4))
  {
    assert ClearTo(m, root, Root);
  }

  // ------------------------------------------------------------- the invariant

  ghost predicate NoSharing(m: Memory, root: nat) {
    forall p, q | Depth(p) <= 3 && Depth(q) <= 3 && TableAt(m, root, p).Some? && TableAt(m, root, p) == TableAt(m, root, q) ::
      p == q
  }

  ghost predicate LinksInside(m: Memory, root: nat) {
    forall q, i: Index | Depth(q) <= 2 && Link(Entry(m, root, q, i)) :: FrameOf(Entry(m, root, q, i)) < |m|
  }

  ghost predicate EntriesNarrow(m: Memory, root: nat) {
    forall q, i: Index | Depth(q) <= 3 :: Entry(m, root, q, i) < PHYSICAL_LIMIT
  }

  /** The tables form a tree: no frame holds the tables of two paths. */
  ghost predicate Tree(m: Memory, root: nat) {
    && root < |m|
    && NoSharing(m, root)
    && LinksInside(m, root)
    && EntriesNarrow(m, root)
  }

  ghost predicate IsTable(m: Memory, root: nat, f: nat) {
    exists p :: Depth(p) <= 3 && TableAt(m, root, p) == Some(f)
  }

  // -------------------------------------------------------- stores into the tree

  function Store(m: Memory, f: nat, i: Index, w: Word): Memory
    requires f < |m|
  {
    m[f := m[f][i := w]]
  }

  predicate SameLink(e: nat, w: nat) {
    Link(e) == Link(w) && (Link(e) ==> FrameOf(e) == FrameOf(w))
  }

  /** The tree of n is the tree of m with the single entry (p, i) replaced by w. */
  ghost predicate PointUpdate(m: Memory, n: Memory, root: nat, p: Path, i: Index, w: Word) {
    forall q, j: Index | Depth(q) <= 3 ::
      Entry(n, root, q, j) == if q == p && j == i then w else Entry(m, root, q, j)
  }

  ghost predicate SameTables(m: Memory, n: Memory, root: nat) {
    forall q | Depth(q) <= 3 :: TableAt(n, root, q) == TableAt(m, root, q)
  }

  ghost predicate SameEntries(m: Memory, n: Memory, root: nat) {
    forall q, j: Index | Depth(q) <= 3 :: Entry(n, root, q, j) == Entry(m, root, q, j)
  }

  lemma {:induction false} StoreKeepsTable(m: Memory, root: nat, p: Path, i: Index, w: Word, q: Path)
    requires Tree(m, root) && Depth(p) <= 3 && Depth(q) <= 3 && TableAt(m, root, p).Some?
    requires Depth(p) == 3 || SameLink(Entry(m, root, p, i), w)
    ensures TableAt(Store(m, TableAt(m, root, p).value, i, w), root, q) == TableAt(m, root, q)
  {
    match q
    case Root =>
    case Child(r, j) =>
      StoreKeepsTable(m, root, p, i, w, r);
      var f := TableAt(m, root, p).value;
      if TableAt(m, root, r) == Some(f) {
        assert r == p;
      }
  }

  /** A store that changes no link is exactly one changed entry of the tree. */
  lemma StoreIsPointUpdate(m: Memory, root: nat, p: Path, i: Index, w: Word)
    requires Tree(m, root) && Depth(p) <= 3 && TableAt(m, root, p).Some?
    requires Depth(p) == 3 || SameLink(Entry(m, root, p, i), w)
    requires w < PHYSICAL_LIMIT
    ensures var n := Store(m, TableAt(m, root, p).value, i, w);
            Tree(n, root) && SameTables(m, n, root) && PointUpdate(m, n, root, p, i, w)
  {
    var f := TableAt(m, root, p).value;
    var n := Store(m, f, i, w);
    forall q | Depth(q) <= 3
      ensures TableAt(n, root, q) == TableAt(m, root, q)
    {
      StoreKeepsTable(m, root, p, i, w, q);
    }
    forall q, j: Index | Depth(q) <= 3
      ensures Entry(n, root, q, j) == if q == p && j == i then w else Entry(m, root, q, j)
    {
      assert TableAt(n, root, q) == TableAt(m, root, q);
      if TableAt(m, root, q) == Some(f) {
        assert q == p;
      }
    }
    assert NoSharing(n, root);
    assert LinksInside(n, root);
  }

  lemma {:induction false} LinkAddsTable(m: Memory, root: nat, p: Path, i: Index, w: Word, q: Path)
    requires Tree(m, root) && Depth(p) <= 2 && Depth(q) <= 3 && TableAt(m, root, p).Some?
    requires !Link(Entry(m, root, p, i)) && Link(w) && FrameOf(w) < |m| && m[FrameOf(w)] == ZeroFrame()
    requires !IsTable(m, root, FrameOf(w))
    ensures TableAt(Store(m, TableAt(m, root, p).value, i, w), root, q)
         == if q == Child(p, i) then Some(FrameOf(w)) else TableAt(m, root, q)
  {
    match q
    case Root =>
    case Child(r, j) =>
      LinkAddsTable(m, root, p, i, w, r);
      var f := TableAt(m, root, p).value;
      var n := Store(m, f, i, w);
      if r == Child(p, i) {
        assert TableAt(m, root, r).None?;
        assert n[FrameOf(w)] == ZeroFrame();
        assert Entry(n, root, r, j) == 0;
      } else if r == p {
      } else if TableAt(m, root, r).Some? {
        assert TableAt(m, root, r) != Some(f);
      }
  }

  /** Linking a zeroed frame that is no table yet is also exactly one changed entry. */
  lemma LinkIsPointUpdate(m: Memory, root: nat, p: Path, i: Index, w: Word)
    requires Tree(m, root) && Depth(p) <= 2 && TableAt(m, root, p).Some?
    requires !Link(Entry(m, root, p, i)) && Link(w) && FrameOf(w) < |m| && m[FrameOf(w)] == ZeroFrame()
    requires !IsTable(m, root, FrameOf(w)) && w < PHYSICAL_LIMIT
    ensures var n := Store(m, TableAt(m, root, p).value, i, w);
            && Tree(n, root)
            && PointUpdate(m, n, root, p, i, w)
            && forall q | Depth(q) <= 3 ::
                 TableAt(n, root, q) == if q == Child(p, i) then Some(FrameOf(w)) else TableAt(m, root, q)
  {
    var f := TableAt(m, root, p).value;
    var n := Store(m, f, i, w);
    forall q | Depth(q) <= 3
      ensures TableAt(n, root, q) == if q == Child(p, i) then Some(FrameOf(w)) else TableAt(m, root, q)
    {
      LinkAddsTable(m, root, p, i, w, q);
    }
    forall q, j: Index | Depth(q) <= 3
      ensures Entry(n, root, q, j) == if q == p && j == i then w else Entry(m, root, q, j)
    {
      if q == Child(p, i) {
        assert TableAt(m, root, q).None?;
        assert n[FrameOf(w)] == ZeroFrame();
      } else if TableAt(m, root, q) == Some(f) {
        assert q == p;
      }
    }
    assert NoSharing(n, root) by {
      forall a, b | Depth(a) <= 3 && Depth(b) <= 3 && TableAt(n, root, a).Some? && TableAt(n, root, a) == TableAt(n, root, b)
        ensures a == b
      {
        assert TableAt(m, root, a) != Some(FrameOf(w)) && TableAt(m, root, b) != Some(FrameOf(w));
      }
    }
    assert LinksInside(n, root);
  }

  lemma {:induction false} FrameWriteKeepsTable(m: Memory, root: nat, f: nat, x: Frame, q: Path)
    requires f < |m| && !IsTable(m, root, f) && Depth(q) <= 3
    ensures TableAt(m[f := x], root, q) == TableAt(m, root, q)
  {
    match q
    case Root =>
    case Child(r, j) =>
      FrameWriteKeepsTable(m, root, f, x, r);
      assert TableAt(m, root, r) != Some(f);
  }

  /** Any write to a frame that holds no table leaves the whole tree alone. */
  lemma FrameWriteKeepsTree(m: Memory, root: nat, f: nat, x: Frame)
    requires f < |m| && !IsTable(m, root, f)
    ensures SameTables(m, m[f := x], root) && SameEntries(m, m[f := x], root)
    ensures Tree(m, root) ==> Tree(m[f := x], root)
  {
    var n := m[f := x];
    forall q | Depth(q) <= 3
      ensures TableAt(n, root, q) == TableAt(m, root, q)
    {
      FrameWriteKeepsTable(m, root, f, x, q);
    }
    forall q, j: Index | Depth(q) <= 3
      ensures Entry(n, root, q, j) == Entry(m, root, q, j)
    {
      assert TableAt(n, root, q) == TableAt(m, root, q) != Some(f);
    }
    if Tree(m, root) {
      assert NoSharing(n, root);
      assert LinksInside(n, root);
    }
  }

  /** The large pages on a path depend on the upper-level entries only. */
  lemma {:induction false} ClearToKept(m: Memory, n: Memory, root: nat, p: Path, i: Index, w: Word, q: Path)
    requires PointUpdate(m, n, root, p, i, w) && Depth(q) <= 3
    requires Depth(p) == 3 || IsLarge(Entry(m, root, p, i)) == IsLarge(w)
    ensures ClearTo(n, root, q) == ClearTo(m, root, q)
  {
    match q
    case Root =>
    case Child(r, j) => ClearToKept(m, n, root, p, i, w, r);
  }

  /** The same entries give the same translations and access rights. */
  lemma SameEntriesSameTranslation(m: Memory, n: Memory, root: nat, v: VPage)
    requires SameEntries(m, n, root)
    ensures Translate(n, root, v) == Translate(m, root, v)
    ensures UserAccess(n, root, v) == UserAccess(m, root, v)
  {
  }
}
