/** The page-table code of src/kernel/mm/vmm.c on the 2 MB pages the loader made: the walker never
    tests the large-page bit. What lookup and map do there, and when they are right. */
module LargePages {
  import opened Words
  import opened PageTables
  import opened Walker
  import opened VirtualMemory
  import FrameSets

  /** The address the processor translates to; 0 when there is none. */
  function TrueAddress(m: Machine, v: VPage, offset: nat): nat {
    match Translate(m.mem, m.root, v)
    case None => 0
    case Some(leaf) => leaf.frame * 4096 + offset
  }

  /** The entry of the page directory for v maps a 2 MB page that starts in physical memory. */
  predicate OnLargePage(m: Machine, v: VPage) {
    && ClearTo(m.mem, m.root, Pd(v))
    && IsLarge(Entry(m.mem, m.root, Pd(v), v.i2))
    && Entry(m.mem, m.root, Pd(v), v.i2) / 4096 < |m.mem|
  }

  /** The first frame of the 2 MB page, which the walker takes for a page table. */
  function LargeStart(m: Machine, v: VPage): nat {
    Entry(m.mem, m.root, Pd(v), v.i2) / 4096
  }

  /** The frame the processor translates v to. */
  function LargeFrame(m: Machine, v: VPage): nat {
    LargeStart(m, v) / 512 * 512 + v.i1
  }

  lemma LargePageTranslates(m: Machine, v: VPage)
    requires Inv(m) && OnLargePage(m, v)
    ensures TableAt(m.mem, m.root, Pd(v)).Some?
    ensures Translate(m.mem, m.root, v) == Some(Leaf(LargeFrame(m, v), Entry(m.mem, m.root, Pd(v), v.i2) % 4096))
  {
    StartsFromInv(m, Pd(v), v.i2);
    assert FrameOf(Entry(m.mem, m.root, Pd(v), v.i2)) == LargeStart(m, v);
  }

  /** The walk down to the page directory of a large page finds it. */
  lemma LargePageWalk(m: Machine, v: VPage, create: bool, user: bool)
    requires Inv(m) && OnLargePage(m, v)
    ensures TableAt(m.mem, m.root, Pd(v)).Some?
    ensures var (a, r) := Reach(m, Pd(v), create, user);
            && Entry(a.mem, m.root, Pd(v), v.i2) == Entry(m.mem, m.root, Pd(v), v.i2)
            && r == TableAt(m.mem, m.root, Pd(v)) && a.used == m.used && SameTables(m.mem, a.mem, m.root) && (!user ==> a == m)
            && GetPte(m, v, create, user) == Descend(a, r.value, v.i2, create, user)
  {
    hide Inv, Descend, Entry, SameTables, Large, Present;
    LargePageTranslates(m, v);
    PathClearLevels(m.mem, m.root, v);
    ReachFinds(m, Pd(v), create, user);
    NotOnWay(Pt(v), Pd(v));
    ReachKeepsEntry(m, Pd(v), create, user, Pd(v), v.i2);
    BelowIsReach(m, Pdpt(v), create, user);
    BelowIsReach(m, Pd(v), create, user);
  }

  /** On a 2 MB page the walker ends at the word at index i1 of its first frame. */
  lemma LargePageEnd(m: Machine, v: VPage, create: bool)
    requires Inv(m) && OnLargePage(m, v)
    ensures GetPte(m, v, create, false) == (m, Some(LargeStart(m, v)))
  {
    LargePageWalk(m, v, create, false);
  }

  /** When the answer of `vmm_virt_to_phys` is the processor's: always where no large page lies on the
      path, and for a 2 MB page exactly when the word the walker takes for the last entry happens to
      name the same frame. */
  lemma LookupExactly(m: Machine, v: VPage, offset: nat)
    requires Inv(m) && offset < 4096 && (PathClear(m.mem, m.root, v) || OnLargePage(m, v))
    ensures LookupAnywhere(m, v, offset) == TrueAddress(m, v, offset) <==>
            || PathClear(m.mem, m.root, v)
            || var w := m.mem[LargeStart(m, v)][v.i1];
               if Present(w) then w / 4096 == LargeFrame(m, v) else LargeFrame(m, v) == 0 && offset == 0
  {
    if PathClear(m.mem, m.root, v) {
      OnClearPath(m, v);
      LookupRefinesTranslation(m, v, offset);
    } else {
      LargePageTranslates(m, v);
      LargePageEnd(m, v, false);
      var w := m.mem[LargeStart(m, v)][v.i1];
      assert LookupAnywhere(m, v, offset) == if Present(w) then PhysicalAddress(w, offset) else 0;
      assert PhysicalAddress(w, offset) == w / 4096 * 4096 + offset;
    }
  }

  /** What `vmm_map_page` does to a page inside a 2 MB page: without the user flag it stores into the
      first frame of the large page and nowhere else. */
  lemma MapOnLargePage(m: Machine, v: VPage, pa: Word, flags: nat)
    requires Inv(m) && OnLargePage(m, v) && flags < 4096 && !User(flags)
    ensures MapAnywhere(m, v, pa, flags) == m.(mem := Store(m.mem, LargeStart(m, v), v.i1, LeafEntry(pa, flags)))
  {
    LargePageEnd(m, v, true);
  }

  /** Unless that frame is a table no translation changes, and from then on lookup answers with an
      address that was never mapped. */
  lemma MapOnLargePageIsLost(m: Machine, v: VPage, pa: Word, flags: nat, offset: nat)
    requires Inv(m) && OnLargePage(m, v) && flags < 4096 && !User(flags) && pa < PHYSICAL_LIMIT && offset < 4096
    requires !TableOf(m, LargeStart(m, v))
    ensures var n := MapAnywhere(m, v, pa, flags);
            && Inv(n) && SameEntries(m.mem, n.mem, m.root)
            && (forall x :: Translate(n.mem, m.root, x) == Translate(m.mem, m.root, x))
            && LookupAnywhere(n, v, offset) == pa - pa % 4096 + offset
  {
    hide Inv, Translate;
    InvIsTree(m);
    var w := LeafEntry(pa, flags);
    var n := MapAnywhere(m, v, pa, flags);
    MapOnLargePage(m, v, pa, flags);
    StoreOutsideTables(m, LargeStart(m, v), v.i1, w);
    assert OnLargePage(n, v) && LargeStart(n, v) == LargeStart(m, v);
    LargePageEnd(n, v, false);
    LeafEntryFields(pa, flags);
    assert n.mem[LargeStart(m, v)][v.i1] == w;
    assert w / 4096 == pa / 4096;
  }

  // ------------------------------------------------------ one store, page by page

  /** The processor reads the word at index i of frame f to translate x. */
  predicate UsesWord(m: Memory, root: nat, x: VPage, f: nat, i: Index) {
    || (TableAt(m, root, Root) == Some(f) && x.i4 == i)
    || (TableAt(m, root, Pdpt(x)) == Some(f) && x.i3 == i)
    || (TableAt(m, root, Pd(x)) == Some(f) && x.i2 == i)
    || (TableAt(m, root, Pt(x)) == Some(f) && x.i1 == i)
  }

  /** A store leaves every page alone that is not translated through the word stored to. */
  lemma StoreSpares(m: Memory, root: nat, f: nat, i: Index, w: Word, x: VPage)
    requires f < |m| && !UsesWord(m, root, x, f, i)
    ensures Translate(Store(m, f, i, w), root, x) == Translate(m, root, x)
    ensures UserAccess(Store(m, f, i, w), root, x) == UserAccess(m, root, x)
  {
    var n := Store(m, f, i, w);
    assert Entry(n, root, Root, x.i4) == Entry(m, root, Root, x.i4);
    assert TableAt(n, root, Pdpt(x)) == TableAt(m, root, Pdpt(x));
    assert Entry(n, root, Pdpt(x), x.i3) == Entry(m, root, Pdpt(x), x.i3);
    assert TableAt(n, root, Pd(x)) == TableAt(m, root, Pd(x));
    assert Entry(n, root, Pd(x), x.i2) == Entry(m, root, Pd(x), x.i2);
    assert TableAt(n, root, Pt(x)) == TableAt(m, root, Pt(x));
    assert Entry(n, root, Pt(x), x.i1) == Entry(m, root, Pt(x), x.i1);
  }

  lemma DataIsNotUsed(m: Machine, f: nat, i: Index, x: VPage)
    requires !TableOf(m, f)
    ensures !UsesWord(m.mem, m.root, x, f, i)
  {
    assert Depth(Root) == 0;
  }

  lemma {:induction false} AboveKept(m: Memory, root: nat, p: Path, i: Index, w: Word, q: Path)
    requires Tree(m, root) && Depth(p) <= 3 && TableAt(m, root, p).Some? && OnWay(q, p)
    ensures TableAt(Store(m, TableAt(m, root, p).value, i, w), root, q) == TableAt(m, root, q)
    ensures Depth(q) <= Depth(p) && (q != p ==> Depth(q) < Depth(p))
    decreases p, q
  {
    OnWayDepth(q, p);
    if q.Child? {
      OnWayParent(q, p);
      AboveKept(m, root, p, i, w, q.parent);
      assert TableAt(m, root, q.parent) != TableAt(m, root, p);
    }
  }

  lemma {:induction false} OnWayDepth(q: Path, p: Path)
    requires OnWay(q, p)
    ensures Depth(q) <= Depth(p) && (q != p ==> Depth(q) < Depth(p))
    decreases p
  {
    if q != p {
      OnWayDepth(q, p.parent);
    }
  }

  lemma {:induction false} OnWayParent(q: Path, p: Path)
    requires OnWay(q, p) && q.Child?
    ensures OnWay(q.parent, p) && q.parent != p
    decreases p
  {
    OnWayDepth(q, p);
    if q == p {
      assert OnWay(q.parent, q.parent);
    } else {
      OnWayParent(q, p.parent);
    }
  }

  /** A store into a table, whatever its level, is that entry of that table. */
  lemma StoreHitsEntry(m: Memory, root: nat, p: Path, i: Index, w: Word)
    requires Tree(m, root) && Depth(p) <= 3 && TableAt(m, root, p).Some?
    ensures Entry(Store(m, TableAt(m, root, p).value, i, w), root, p, i) == w
  {
    AboveKept(m, root, p, i, w, p);
  }

  // -------------------------------------------------- the walk on a large page

  /** An entry with the user bit added when it is missing. */
  function AddedUser(e: Word): Word {
    if User(e) then e else WithUser(e)
  }

  function SetLargeUser(m: Machine, v: VPage): Machine
    requires OnLargePage(m, v) && TableAt(m.mem, m.root, Pd(v)).Some?
  {
    m.(mem := Store(m.mem, TableAt(m.mem, m.root, Pd(v)).value, v.i2, AddedUser(Entry(m.mem, m.root, Pd(v), v.i2))))
  }

  lemma AddedUserFields(e: Word)
    requires Present(e) && e < PHYSICAL_LIMIT
    ensures var w := AddedUser(e);
            w < PHYSICAL_LIMIT && Present(w) && User(w) && Large(w) == Large(e) && FrameOf(w) == FrameOf(e) == e / 4096
  {
    DivIs(e / 4096, 0x100_0000_0000, 0);
    if !User(e) {
      AddUser(e);
    }
  }

  /** The walk with the user flag leaves the user bit in the entry of the large page itself. */
  lemma SetLargeUserKeeps(m: Machine, v: VPage)
    requires Inv(m) && OnLargePage(m, v) && UserPath(m.mem, m.root, Pd(v)) && TableAt(m.mem, m.root, Pd(v)).Some?
    ensures var n := SetLargeUser(m, v);
            && Inv(n) && SameTables(m.mem, n.mem, m.root)
            && PointUpdate(m.mem, n.mem, m.root, Pd(v), v.i2, AddedUser(Entry(m.mem, m.root, Pd(v), v.i2)))
            && UserPath(n.mem, m.root, Pd(v))
  {
    var e := Entry(m.mem, m.root, Pd(v), v.i2);
    var w := AddedUser(e);
    var n := SetLargeUser(m, v);
    StartsFromInv(m, Pd(v), v.i2);
    AddedUserFields(e);
    StoreIsPointUpdate(m.mem, m.root, Pd(v), v.i2, w);
    UserClosedGrows(m.mem, n.mem, m.root, Pd(v), v.i2, w);
    TablesKept(m, n);
  }

  lemma LargeEntryFields(m: Machine, v: VPage)
    requires Inv(m) && OnLargePage(m, v)
    ensures var w := AddedUser(Entry(m.mem, m.root, Pd(v), v.i2));
            IsLarge(w) && User(w) && FrameOf(w) == LargeStart(m, v)
  {
    StartsFromInv(m, Pd(v), v.i2);
    AddedUserFields(Entry(m.mem, m.root, Pd(v), v.i2));
  }

  lemma UserWalkOnLargePage(m: Machine, v: VPage)
    requires Inv(m) && OnLargePage(m, v)
    ensures var (a, r) := Reach(m, Pd(v), true, true);
            && Inv(a) && Grown(m, a) && OnLargePage(a, v) && LargeStart(a, v) == LargeStart(m, v)
            && Entry(a.mem, m.root, Pd(v), v.i2) == Entry(m.mem, m.root, Pd(v), v.i2)
            && UserPath(a.mem, m.root, Pd(v)) && TableAt(a.mem, m.root, Pd(v)).Some?
            && a.used == m.used && SameTables(m.mem, a.mem, m.root)
            && GetPte(m, v, true, true) == (SetLargeUser(a, v), Some(LargeStart(m, v)))
  {
    LargePageWalk(m, v, true, true);
    var (a, r) := Reach(m, Pd(v), true, true);
    assert a.mem[r.value][v.i2] == Entry(a.mem, m.root, Pd(v), v.i2);
    StoreSame(a.mem, r.value, v.i2);
  }

  lemma StoreSame(m: Memory, f: nat, i: Index)
    requires f < |m|
    ensures Store(m, f, i, m[f][i]) == m
  {
    assert m[f][i := m[f][i]] == m[f];
  }

  lemma UserAccessAsBefore(m: Machine, n: Machine, x: VPage)
    requires Inv(m) && Inv(n) && n.root == m.root && Translate(n.mem, m.root, x) == Translate(m.mem, m.root, x)
    ensures UserAccess(n.mem, m.root, x) == UserAccess(m.mem, m.root, x)
  {
    UserIsLeafBit(m, x);
    UserIsLeafBit(n, x);
  }

  predicate InLargePage(v: VPage, x: VPage) {
    Pd(x) == Pd(v) && x.i2 == v.i2
  }

  /** The flags of the 2 MB page around v after a walk with or without the user flag. */
  function LargeFlags(m: Machine, v: VPage, user: bool): nat {
    var e := Entry(m.mem, m.root, Pd(v), v.i2);
    (if user then AddedUser(e) else e) % 4096
  }

  /** How the page x is seen in n: with the user flag the 512 pages of the 2 MB page around v carry the
      user bit; every other page is as it was in m. */
  ghost predicate OpenedAt(m: Machine, n: Machine, v: VPage, x: VPage, user: bool) {
    && n.root == m.root
    && Translate(n.mem, m.root, x) ==
         (if InLargePage(v, x) then Some(Leaf(LargeStart(m, v) / 512 * 512 + x.i1, LargeFlags(m, v, user)))
          else Translate(m.mem, m.root, x))
    && UserAccess(n.mem, m.root, x) == ((user && InLargePage(v, x)) || UserAccess(m.mem, m.root, x))
  }

  /** Translations and access below one changed 2 MB entry. */
  lemma LargeEntryChanged(m: Machine, n: Machine, v: VPage, w: Word, x: VPage)
    requires Inv(m) && OnLargePage(m, v) && n.root == m.root
    requires PointUpdate(m.mem, n.mem, m.root, Pd(v), v.i2, w)
    requires IsLarge(w) && User(w) && FrameOf(w) == LargeStart(m, v) && UserPath(n.mem, m.root, Pd(v))
    ensures Translate(n.mem, m.root, x) ==
              (if InLargePage(v, x) then Some(Leaf(LargeStart(m, v) / 512 * 512 + x.i1, w % 4096)) else Translate(m.mem, m.root, x))
    ensures InLargePage(v, x) ==> UserAccess(n.mem, m.root, x)
  {
    EntriesOnPath(m.mem, n.mem, m.root, Pd(v), v.i2, w, x);
    if InLargePage(v, x) {
      assert UserPath(n.mem, m.root, Pdpt(v)) && UserPath(n.mem, m.root, Root);
    } else if Pd(x) == Pd(v) {
      assert Entry(n.mem, m.root, Pd(x), x.i2) == Entry(m.mem, m.root, Pd(x), x.i2);
    }
  }

  /** The user walk before the last store: the user bits on the way and in the entry of the page. */
  lemma UserWalkOpens(m: Machine, v: VPage, x: VPage)
    requires Inv(m) && OnLargePage(m, v)
    ensures var c := GetPte(m, v, true, true).0;
            Inv(c) && SameTables(m.mem, c.mem, m.root) && OpenedAt(m, c, v, x, true)
  {
    hide Inv, Translate, UserAccess, PointUpdate, Reach, SetLargeUser, AddedUser, InLargePage,
         Entry, TableAt, TableOf;
    InvIsTree(m);
    var e := Entry(m.mem, m.root, Pd(v), v.i2);
    var a := Reach(m, Pd(v), true, true).0;
    UserWalkOnLargePage(m, v);
    var c := SetLargeUser(a, v);
    SetLargeUserKeeps(a, v);
    LargeEntryFields(m, v);
    LargeEntryChanged(a, c, v, AddedUser(e), x);
    SetLargeUserShape(a, v);
    if !InLargePage(v, x) {
      UserAccessAsBefore(m, c, x);
    }
  }

  lemma SetLargeUserShape(m: Machine, v: VPage)
    requires OnLargePage(m, v) && TableAt(m.mem, m.root, Pd(v)).Some?
    ensures var n := SetLargeUser(m, v); n.root == m.root && n.used == m.used && n.total == m.total && |n.mem| == |m.mem|
  {
  }

  /** The walk of a map inside a 2 MB page ends at its first frame; it has changed nothing but user
      bits. */
  lemma MapWalkOpens(m: Machine, v: VPage, user: bool, x: VPage)
    requires Inv(m) && OnLargePage(m, v)
    ensures var (c, r) := GetPte(m, v, true, user);
            && r == Some(LargeStart(m, v)) && Inv(c) && c.root == m.root && |c.mem| == |m.mem|
            && SameTables(m.mem, c.mem, m.root) && OpenedAt(m, c, v, x, user)
  {
    hide Inv, UserAccess, GetPte;
    InvIsTree(m);
    if user {
      UserWalkOnLargePage(m, v);
      UserWalkOpens(m, v, x);
    } else {
      LargePageEnd(m, v, true);
      if InLargePage(v, x) {
        LargePageTranslates(m, x);
      }
    }
  }

  lemma SameTablesSameUse(m: Memory, n: Memory, root: nat, x: VPage, f: nat, i: Index)
    requires SameTables(m, n, root)
    ensures UsesWord(n, root, x, f, i) == UsesWord(m, root, x, f, i)
  {
    assert Depth(Root) == 0;
  }

  /** What `vmm_map_page` does inside a 2 MB page, seen from any page x whose translation does not use
      the word it stores to: no page is mapped; with the user flag the whole 2 MB page, and no other, is
      opened to user mode. */
  lemma MapOnLargePageSpares(m: Machine, v: VPage, pa: Word, flags: nat, x: VPage)
    requires Inv(m) && OnLargePage(m, v) && flags < 4096
    requires !UsesWord(m.mem, m.root, x, LargeStart(m, v), v.i1)
    ensures OpenedAt(m, MapAnywhere(m, v, pa, flags), v, x, User(flags))
    ensures !TableOf(m, LargeStart(m, v)) ==> Inv(MapAnywhere(m, v, pa, flags))
  {
    hide Inv, Translate, UserAccess, GetPte, UsesWord, InLargePage;
    InvIsTree(m);
    var c := GetPte(m, v, true, User(flags)).0;
    MapWalkOpens(m, v, User(flags), x);
    SameTablesSameUse(m.mem, c.mem, m.root, x, LargeStart(m, v), v.i1);
    StoreSpares(c.mem, m.root, LargeStart(m, v), v.i1, LeafEntry(pa, flags), x);
    TablesKept(m, c);
    if !TableOf(m, LargeStart(m, v)) {
      StoreOutsideTables(c, LargeStart(m, v), v.i1, LeafEntry(pa, flags));
    }
  }

  /** With the user flag the 512 pages of the large page become accessible in user mode, and no other
      page that is not translated through the word stored to. */
  lemma UserMapOpensLargePage(m: Machine, v: VPage, pa: Word, flags: nat, x: VPage)
    requires Inv(m) && OnLargePage(m, v) && flags < 4096 && User(flags)
    requires !UsesWord(m.mem, m.root, x, LargeStart(m, v), v.i1)
    ensures var n := MapAnywhere(m, v, pa, flags);
            && UserAccess(n.mem, m.root, x) == (InLargePage(v, x) || UserAccess(m.mem, m.root, x))
            && OpenedAt(m, n, v, x, true)
            && (!TableOf(m, LargeStart(m, v)) ==> Inv(n))
  {
    MapOnLargePageSpares(m, v, pa, flags, x);
  }

  /** When the first frame of the 2 MB page is a table of whatever level, the map replaces an entry of
      that table. */
  lemma MapOnLargePageHitsEntry(m: Machine, v: VPage, pa: Word, flags: nat, p: Path)
    requires Inv(m) && OnLargePage(m, v) && flags < 4096
    requires Depth(p) <= 3 && TableAt(m.mem, m.root, p) == Some(LargeStart(m, v))
    ensures Entry(MapAnywhere(m, v, pa, flags).mem, m.root, p, v.i1) == LeafEntry(pa, flags)
  {
    hide Inv, Entry, GetPte, User;
    InvIsTree(m);
    var c := GetPte(m, v, true, User(flags)).0;
    MapWalkOpens(m, v, User(flags), v);
    InvIsTree(c);
    StoreHitsEntry(c.mem, m.root, p, v.i1, LeafEntry(pa, flags));
  }

  lemma MapAnywhereIs(m: Machine, v: VPage, pa: Word, flags: nat)
    requires Inv(m) && OnLargePage(m, v) && flags < 4096
    ensures Sound(m)
    ensures var c := GetPte(m, v, true, User(flags)).0;
            && LargeStart(m, v) < |c.mem|
            && MapAnywhere(m, v, pa, flags) == c.(mem := Store(c.mem, LargeStart(m, v), v.i1, LeafEntry(pa, flags)))
  {
    hide GetPte, User;
    MapWalkOpens(m, v, User(flags), v);
  }

  /** In particular, when it is a page table another page is mapped in place of the one asked for. */
  lemma MapOnLargePageHitsTable(m: Machine, v: VPage, pa: Word, flags: nat, x: VPage)
    requires Inv(m) && OnLargePage(m, v) && flags < 4096 && pa < PHYSICAL_LIMIT
    requires TableAt(m.mem, m.root, Pt(x)) == Some(LargeStart(m, v)) && x.i1 == v.i1
    ensures x != v
    ensures Translate(MapAnywhere(m, v, pa, flags).mem, m.root, x) == Some(Leaf(pa / 4096, flags + (1 - flags % 2)))
    ensures Translate(MapAnywhere(m, v, pa, flags).mem, m.root, v) == Some(Leaf(LargeFrame(m, v), LargeFlags(m, v, User(flags))))
  {
    hide Inv, Translate, GetPte, User, UserAccess, InLargePage, LargeFlags, UsesWord, MapAnywhere;
    MapAnywhereIs(m, v, pa, flags);
    InvIsTree(m);
    var c := GetPte(m, v, true, User(flags)).0;
    MapWalkOpens(m, v, User(flags), v);
    LeafEntryFields(pa, flags);
    LeafStoreTranslates(c, x, LeafEntry(pa, flags), x);
    LargeHasNoTable(m, v);
    OtherTableNotUsed(m, v, x);
    MapOnLargePageSpares(m, v, pa, flags, v);
    InOwnLargePage(v);
  }

  lemma InOwnLargePage(v: VPage)
    ensures InLargePage(v, v)
  {
  }

  lemma LargeHasNoTable(m: Machine, v: VPage)
    requires OnLargePage(m, v)
    ensures TableAt(m.mem, m.root, Pt(v)).None?
  {
  }

  /** A page table is none of the upper tables on the way to v. */
  lemma OtherTableNotUsed(m: Machine, v: VPage, x: VPage)
    requires Inv(m) && OnLargePage(m, v) && TableAt(m.mem, m.root, Pt(x)) == Some(LargeStart(m, v))
    ensures !UsesWord(m.mem, m.root, v, LargeStart(m, v), v.i1)
  {
    LargeHasNoTable(m, v);
    assert Depth(Root) == 0;
  }

  lemma {:induction false} NothingMissing(m: Machine, p: Path)
    requires TableAt(m.mem, m.root, p).Some?
    ensures MissingTables(m, p) == 0
  {
    if p.Child? {
      NothingMissing(m, p.parent);
    }
  }

  /** A page that is mapped has all its tables. */
  lemma EnoughIfMapped(m: Machine, v: VPage)
    requires Inv(m) && PathClear(m.mem, m.root, v)
    ensures Translate(m.mem, m.root, v).Some? ==> Enough(m, v)
  {
    FrameSets.FreeCountZero(m.used, m.total);
    ClearTranslation(m, v);
    if TableAt(m.mem, m.root, Pt(v)).Some? {
      NothingMissing(m, Pt(v));
    }
  }

  /** When `vmm_map_page` maps the page it was asked to map: on a path without large pages exactly when
      the free frames cover the missing tables; inside a 2 MB page exactly when the page already is the
      frame asked for, with the flags asked for. */
  lemma MapExactly(m: Machine, v: VPage, pa: Word, flags: nat)
    requires Inv(m) && flags < 4096 && pa < PHYSICAL_LIMIT
    requires PathClear(m.mem, m.root, v) || (OnLargePage(m, v) && !UsesWord(m.mem, m.root, v, LargeStart(m, v), v.i1))
    ensures Translate(MapAnywhere(m, v, pa, flags).mem, m.root, v) == Some(Leaf(pa / 4096, flags + (1 - flags % 2))) <==>
            if PathClear(m.mem, m.root, v) then Enough(m, v)
            else LargeFrame(m, v) == pa / 4096 && LargeFlags(m, v, User(flags)) == flags + (1 - flags % 2)
  {
    hide Inv, Translate, MapAnywhere, MapPage, UsesWord, Enough, LargeFlags, OnLargePage, User, PathClear, UserAccess;
    InvIsTree(m);
    InOwnLargePage(v);
    if PathClear(m.mem, m.root, v) {
      OnClearPath(m, v);
      MapUpdatesOneKey(m, v, pa, flags, v);
      EnoughIfMapped(m, v);
    } else {
      MapOnLargePageSpares(m, v, pa, flags, v);
    }
  }

  // --------------------------------------------------------------------- unmap

  /** What `vmm_unmap_page` does to a page inside a 2 MB page: it clears a word of the first frame when
      that word looks present, and nothing else. */
  lemma UnmapOnLargePage(m: Machine, v: VPage)
    requires Inv(m) && OnLargePage(m, v)
    ensures UnmapAnywhere(m, v) ==
              if Present(m.mem[LargeStart(m, v)][v.i1]) then m.(mem := Store(m.mem, LargeStart(m, v), v.i1, 0)) else m
  {
    LargePageEnd(m, v, false);
  }

  /** No page is unmapped that is not translated through that word, the one asked for included. */
  lemma UnmapOnLargePageSpares(m: Machine, v: VPage, x: VPage)
    requires Inv(m) && OnLargePage(m, v) && !UsesWord(m.mem, m.root, x, LargeStart(m, v), v.i1)
    ensures Translate(UnmapAnywhere(m, v).mem, m.root, x) == Translate(m.mem, m.root, x)
    ensures UserAccess(UnmapAnywhere(m, v).mem, m.root, x) == UserAccess(m.mem, m.root, x)
    ensures !TableOf(m, LargeStart(m, v)) ==> Inv(UnmapAnywhere(m, v))
  {
    hide Inv, Translate, UserAccess, UsesWord;
    InvIsTree(m);
    UnmapOnLargePage(m, v);
    StoreSpares(m.mem, m.root, LargeStart(m, v), v.i1, 0, x);
    if !TableOf(m, LargeStart(m, v)) {
      StoreOutsideTables(m, LargeStart(m, v), v.i1, 0);
    }
  }

  /** When the first frame is a page table, another page is unmapped in place of the one asked for. */
  lemma UnmapOnLargePageHitsTable(m: Machine, v: VPage, x: VPage)
    requires Inv(m) && OnLargePage(m, v)
    requires TableAt(m.mem, m.root, Pt(x)) == Some(LargeStart(m, v)) && x.i1 == v.i1
    ensures x != v && Translate(UnmapAnywhere(m, v).mem, m.root, x) == None
    ensures Translate(UnmapAnywhere(m, v).mem, m.root, v) == Translate(m.mem, m.root, v) != None
  {
    UnmapOnLargePage(m, v);
    LargePageTranslates(m, v);
    LargeHasNoTable(m, v);
    OtherTableNotUsed(m, v, x);
    UnmapOnLargePageSpares(m, v, v);
    LeafStoreTranslates(m, x, 0, x);
    TableTranslation(m, x);
  }

  /** Below a page table the translation is the entry of that table. */
  lemma TableTranslation(m: Machine, x: VPage)
    requires Inv(m) && TableAt(m.mem, m.root, Pt(x)).Some?
    ensures var e := Entry(m.mem, m.root, Pt(x), x.i1);
            Translate(m.mem, m.root, x) == if Present(e) then Some(Leaf(FrameOf(e), e % 4096)) else None
  {
  }

  /** When `vmm_unmap_page` unmaps the page it was asked to unmap: exactly on paths without large
      pages. */
  lemma UnmapExactly(m: Machine, v: VPage)
    requires Inv(m)
    requires PathClear(m.mem, m.root, v) || (OnLargePage(m, v) && !UsesWord(m.mem, m.root, v, LargeStart(m, v), v.i1))
    ensures Translate(UnmapAnywhere(m, v).mem, m.root, v) == None <==> PathClear(m.mem, m.root, v)
  {
    if PathClear(m.mem, m.root, v) {
      OnClearPath(m, v);
      UnmapRemovesOneKey(m, v, v);
    } else {
      LargePageTranslates(m, v);
      UnmapOnLargePageSpares(m, v, v);
    }
  }
}
