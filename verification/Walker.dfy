/** The table walk of src/kernel/mm/vmm.c as functions on memory values, and what they do to
    every translation. */
module Walker {
  import opened Words
  import opened PageTables
  import FrameSets

  /** Physical memory, the frame of the PML4, and the frames the allocator has given out. */
  datatype Machine = Machine(mem: Memory, root: nat, used: set<nat>, total: nat)

  const IDENTITY_FRAMES: nat := 0x4_0000 // 1 GB

  /** Every entry on the way to the table at p allows user access. */
  predicate UserPath(m: Memory, root: nat, p: Path) {
    match p
    case Root => true
    case Child(q, i) => UserPath(m, root, q) && Link(Entry(m, root, q, i)) && User(Entry(m, root, q, i))
  }

  predicate IsLeaf(depth: nat, e: nat) {
    Present(e) && (depth == 3 || Large(e))
  }

  ghost predicate UserClosed(m: Memory, root: nat) {
    forall q, i: Index | Depth(q) <= 3 && IsLeaf(Depth(q), Entry(m, root, q, i)) && User(Entry(m, root, q, i)) ::
      UserPath(m, root, q)
  }

  /** Tables never restrict write access. */
  ghost predicate LinksWritable(m: Memory, root: nat) {
    forall q, i: Index | Depth(q) <= 2 && Link(Entry(m, root, q, i)) :: Writable(Entry(m, root, q, i))
  }

  ghost predicate TablesUsed(m: Machine) {
    forall p | Depth(p) <= 3 && TableAt(m.mem, m.root, p).Some? :: TableAt(m.mem, m.root, p).value in m.used
  }

  ghost predicate Inv(m: Machine) {
    && Tree(m.mem, m.root)
    && m.total <= |m.mem| <= IDENTITY_FRAMES
    && FrameSets.Below(m.used, m.total)
    && 0 in m.used
    && TablesUsed(m)
    && UserClosed(m.mem, m.root)
    && LinksWritable(m.mem, m.root)
  }

  function FreeFrames(m: Machine): int {
    FrameSets.FreeCount(m.used, m.total)
  }

  ghost predicate TableOf(m: Machine, f: nat) {
    IsTable(m.mem, m.root, f)
  }

  // ------------------------------------------------------------------- one level

  function ParentFlags(user: bool): nat {
    PAGE_PRESENT + PAGE_WRITE + if user then PAGE_USER else 0
  }

  /** `entry |= PAGE_USER` for an entry without that bit. */
  function WithUser(e: Word): Word {
    (e + PAGE_USER) % TWO_64
  }

  /** One level of `vmm_get_pte_flags`: the next table below entry i of the table in frame t. */
  function Descend(m: Machine, t: nat, i: Index, create: bool, user: bool): (Machine, Option<nat>)
    requires t < |m.mem| && m.total <= |m.mem| <= IDENTITY_FRAMES
  {
    var e := m.mem[t][i];
    if !Present(e) then
      if !create then (m, None) else
      var (used, f) := FrameSets.Alloc(m.used, m.total);
      if f == 0 then (m.(used := used), None)
      else (Linked(m, t, i, f, user), Some(f))
    else if user && !User(e) then
      (m.(mem := Store(m.mem, t, i, WithUser(e))), Some(e / 4096))
    else
      (m, Some(e / 4096))
  }

  /** Tables may have been added to m, nothing that was there moved, and the frames newly used are
      exactly the new tables. Used frames that hold no table keep their contents. */
  ghost predicate TablesGrow(m: Machine, n: Machine) {
    && n.root == m.root && n.total == m.total && |n.mem| == |m.mem|
    && m.used <= n.used
    && (forall q | Depth(q) <= 3 && TableAt(m.mem, m.root, q).Some? ::
          TableAt(n.mem, m.root, q) == TableAt(m.mem, m.root, q))
    && (forall f: nat :: f in n.used && f !in m.used <==> TableOf(n, f) && !TableOf(m, f))
    && (forall f: nat | f in m.used && !TableOf(m, f) && f < |m.mem| :: n.mem[f] == m.mem[f])
    && (forall p | Depth(p) <= 3 :: ClearTo(n.mem, m.root, p) == ClearTo(m.mem, m.root, p))
  }

  /** Tables were added but every translation is the same. */
  ghost predicate Grown(m: Machine, n: Machine) {
    && TablesGrow(m, n)
    && (forall v :: Translate(n.mem, m.root, v) == Translate(m.mem, m.root, v))
  }

  lemma TableStays(m: Machine, n: Machine, f: nat)
    requires TablesGrow(m, n) && TableOf(m, f)
    ensures TableOf(n, f)
  {
    var p :| Depth(p) <= 3 && TableAt(m.mem, m.root, p) == Some(f);
    assert TableAt(n.mem, m.root, p) == Some(f);
  }

  lemma TablesGrowTransitive(a: Machine, b: Machine, c: Machine)
    requires TablesGrow(a, b) && TablesGrow(b, c)
    ensures TablesGrow(a, c)
  {
    forall f: nat | TableOf(a, f)
      ensures TableOf(b, f)
    {
      TableStays(a, b, f);
    }
    forall f: nat | TableOf(b, f)
      ensures TableOf(c, f)
    {
      TableStays(b, c, f);
    }
  }

  /** The three low digits when bit 2 is set. */
  lemma AddUserLow(a: nat, r: nat)
    requires r < 4
    ensures var e := 8 * a + r;
            (e + 4) / 4 % 2 == 1 && (e + 4) % 2 == e % 2 && (e + 4) / 2 % 2 == e / 2 % 2
  {
    var e := 8 * a + r;
    var h := if r < 2 then 0 else 1;
    DivIs(e + 4, 4, 2 * a + 1);
    EvenPlus(a, 1);
    EvenPlus(2, e);
    DivIs(e, 2, 4 * a + h);
    DivIs(e + 4, 2, 4 * a + 2 + h);
    EvenPlus(2 * a, h);
    EvenPlus(2 * a + 1, h);
  }

  /** The digits above bit 2 do not notice it. */
  lemma AddUserHigh(a: nat, r: nat)
    requires r < 4 && 8 * a + r < PHYSICAL_LIMIT
    ensures var e := 8 * a + r;
            e + 4 < PHYSICAL_LIMIT && (e + 4) / 0x80 == e / 0x80 && (e + 4) / 4096 == e / 4096
  {
    DivOfDigits(a, r, 16);
    DivOfDigits(a, r + 4, 16);
    DivOfDigits(a, r, 512);
    DivOfDigits(a, r + 4, 512);
  }

  // Adding PAGE_USER to an entry touches nothing but bit 2.
  lemma AddUser(e: Word)
    requires Present(e) && !User(e) && e < PHYSICAL_LIMIT
    ensures var w := WithUser(e);
            w < PHYSICAL_LIMIT && Present(w) && User(w) && Large(w) == Large(e) && FrameOf(w) == FrameOf(e) == e / 4096
            && Writable(w) == Writable(e)
  {
    var a, r := e / 8, e % 8;
    assert e == 8 * a + r;
    DivIs(e, 4, 2 * a + r / 4);
    assert r < 4;
    AddUserHigh(a, r);
    AddUserLow(a, r);
    DivIs(e / 4096, 0x100_0000_0000, 0);
  }

  lemma NewLink(f: nat, user: bool)
    requires f < IDENTITY_FRAMES
    ensures var w := f * 4096 + ParentFlags(user);
            w < PHYSICAL_LIMIT && Link(w) && Writable(w) && FrameOf(w) == f && (User(w) <==> user)
  {
    var low := ParentFlags(user);
    DivIs(f * 4096 + low, 4096, f);
    LowDigit(f, low, 1, 2048);
    LowDigit(f, low, 2, 1024);
    LowDigit(f, low, 4, 512);
    LowDigit(f, low, 0x80, 16);
    DivIs(f, 0x100_0000_0000, 0);
  }

  lemma {:induction false} UserPathGrows(m: Memory, n: Memory, root: nat, p: Path, i: Index, w: Word, q: Path)
    requires PointUpdate(m, n, root, p, i, w) && Depth(q) <= 3
    requires Link(Entry(m, root, p, i)) && User(Entry(m, root, p, i)) ==> Link(w) && User(w)
    ensures UserPath(m, root, q) ==> UserPath(n, root, q)
  {
    match q
    case Root =>
    case Child(r, j) => UserPathGrows(m, n, root, p, i, w, r);
  }

  /** User access granted along a path is never withdrawn, and stays granted above every user leaf. */
  lemma UserClosedGrows(m: Memory, n: Memory, root: nat, p: Path, i: Index, w: Word)
    requires PointUpdate(m, n, root, p, i, w) && UserClosed(m, root)
    requires Link(Entry(m, root, p, i)) && User(Entry(m, root, p, i)) ==> Link(w) && User(w)
    requires IsLeaf(Depth(p), w) && User(w) ==> UserPath(m, root, p)
    ensures UserClosed(n, root)
    ensures forall q | Depth(q) <= 3 && UserPath(m, root, q) :: UserPath(n, root, q)
  {
    forall q | Depth(q) <= 3 && UserPath(m, root, q)
      ensures UserPath(n, root, q)
    {
      UserPathGrows(m, n, root, p, i, w, q);
    }
  }

  /** The entries on the way to v after one changed entry. */
  lemma EntriesOnPath(m: Memory, n: Memory, root: nat, p: Path, i: Index, w: Word, v: VPage)
    requires PointUpdate(m, n, root, p, i, w)
    ensures Entry(n, root, Root, v.i4) == if p == Root && i == v.i4 then w else Entry(m, root, Root, v.i4)
    ensures Entry(n, root, Pdpt(v), v.i3) == if p == Pdpt(v) && i == v.i3 then w else Entry(m, root, Pdpt(v), v.i3)
    ensures Entry(n, root, Pd(v), v.i2) == if p == Pd(v) && i == v.i2 then w else Entry(m, root, Pd(v), v.i2)
    ensures Entry(n, root, Pt(v), v.i1) == if p == Pt(v) && i == v.i1 then w else Entry(m, root, Pt(v), v.i1)
  {
  }

  /** Changing an entry that is a link before and after changes no translation. */
  lemma PointUpdateOnLink(m: Memory, n: Memory, root: nat, p: Path, i: Index, w: Word, v: VPage)
    requires PointUpdate(m, n, root, p, i, w) && Depth(p) <= 2
    requires Link(Entry(m, root, p, i)) && Link(w)
    ensures Translate(n, root, v) == Translate(m, root, v)
  {
    EntriesOnPath(m, n, root, p, i, w, v);
  }

  /** Linking an empty table below an absent entry changes no translation. */
  lemma PointUpdateOnAbsent(m: Memory, n: Memory, root: nat, p: Path, i: Index, w: Word, v: VPage)
    requires PointUpdate(m, n, root, p, i, w) && Depth(p) <= 2
    requires !Present(Entry(m, root, p, i)) && Link(w)
    ensures Translate(n, root, v) == Translate(m, root, v)
  {
    EntriesOnPath(m, n, root, p, i, w, v);
    assert TableAt(m, root, Child(p, i)).None?;
    assert forall j: Index :: Entry(m, root, Child(p, i), j) == 0;
  }

  /** An upper-level entry gains the user bit: every translation stays. */
  lemma SetUserKeeps(m: Machine, p: Path, i: Index)
    requires Inv(m) && Depth(p) <= 2 && TableAt(m.mem, m.root, p).Some?
    requires var e := Entry(m.mem, m.root, p, i); Link(e) && !User(e)
    ensures var e := Entry(m.mem, m.root, p, i);
            var n := m.(mem := Store(m.mem, TableAt(m.mem, m.root, p).value, i, WithUser(e)));
            && Inv(n) && Grown(m, n)
            && TableAt(n.mem, m.root, Child(p, i)) == Some(e / 4096)
            && (UserPath(m.mem, m.root, p) ==> UserPath(n.mem, m.root, Child(p, i)))
  {
    var e := Entry(m.mem, m.root, p, i);
    var w := WithUser(e);
    AddUser(e);
    var t := TableAt(m.mem, m.root, p).value;
    var n := m.(mem := Store(m.mem, t, i, w));
    StoreIsPointUpdate(m.mem, m.root, p, i, w);
    UserClosedGrows(m.mem, n.mem, m.root, p, i, w);
    TablesKept(m, n);
    assert TableAt(n.mem, m.root, Child(p, i)) == TableAt(m.mem, m.root, Child(p, i));
    forall v: VPage
      ensures Translate(n.mem, m.root, v) == Translate(m.mem, m.root, v)
    {
      PointUpdateOnLink(m.mem, n.mem, m.root, p, i, w, v);
    }
    forall q | Depth(q) <= 3
      ensures ClearTo(n.mem, m.root, q) == ClearTo(m.mem, m.root, q)
    {
      ClearToKept(m.mem, n.mem, m.root, p, i, w, q);
    }
    assert TableOf(m, t);
  }

  lemma TablesKept(m: Machine, n: Machine)
    requires n.root == m.root && SameTables(m.mem, n.mem, m.root)
    ensures forall f: nat :: TableOf(n, f) <==> TableOf(m, f)
  {
    forall f: nat
      ensures TableOf(n, f) <==> TableOf(m, f)
    {
      if TableOf(m, f) {
        var q :| Depth(q) <= 3 && TableAt(m.mem, m.root, q) == Some(f);
        assert TableAt(n.mem, m.root, q) == Some(f);
      }
      if TableOf(n, f) {
        var q :| Depth(q) <= 3 && TableAt(n.mem, m.root, q) == Some(f);
        assert TableAt(m.mem, m.root, q) == Some(f);
      }
    }
  }

  /** The two stores that add a table: clear the frame f, then link it at (p, i). */
  function Linked(m: Machine, t: nat, i: Index, f: nat, user: bool): Machine
    requires t < |m.mem| && f < |m.mem| <= IDENTITY_FRAMES
  {
    m.(mem := Store(m.mem[f := ZeroFrame()], t, i, f * 4096 + ParentFlags(user)), used := m.used + {f})
  }

  /** Clearing and linking a free frame changes one entry of the tree and adds one table. */
  lemma LinkIsOneEntry(m: Machine, p: Path, i: Index, f: nat, user: bool)
    requires Inv(m) && Depth(p) <= 2 && TableAt(m.mem, m.root, p).Some?
    requires !Present(Entry(m.mem, m.root, p, i)) && f < m.total && f !in m.used
    ensures var n := Linked(m, TableAt(m.mem, m.root, p).value, i, f, user);
            && Tree(n.mem, m.root)
            && PointUpdate(m.mem, n.mem, m.root, p, i, f * 4096 + ParentFlags(user))
            && forall q | Depth(q) <= 3 ::
                 TableAt(n.mem, m.root, q) == if q == Child(p, i) then Some(f) else TableAt(m.mem, m.root, q)
  {
    NewLink(f, user);
    assert !TableOf(m, f);
    var z := m.mem[f := ZeroFrame()];
    FrameWriteKeepsTree(m.mem, m.root, f, ZeroFrame());
    assert !IsTable(z, m.root, f);
    assert Entry(z, m.root, p, i) == Entry(m.mem, m.root, p, i);
    LinkIsPointUpdate(z, m.root, p, i, f * 4096 + ParentFlags(user));
  }

  lemma OneMoreTable(m: Machine, n: Machine, p: Path, i: Index, f: nat)
    requires n.root == m.root && Depth(p) <= 2 && TableAt(m.mem, m.root, Child(p, i)).None?
    requires forall q | Depth(q) <= 3 ::
               TableAt(n.mem, m.root, q) == if q == Child(p, i) then Some(f) else TableAt(m.mem, m.root, q)
    ensures forall g: nat :: TableOf(n, g) <==> TableOf(m, g) || g == f
  {
    forall g: nat
      ensures TableOf(n, g) <==> TableOf(m, g) || g == f
    {
      if TableOf(m, g) {
        var q :| Depth(q) <= 3 && TableAt(m.mem, m.root, q) == Some(g);
        assert TableAt(n.mem, m.root, q) == Some(g);
      }
      if TableOf(n, g) {
        var q :| Depth(q) <= 3 && TableAt(n.mem, m.root, q) == Some(g);
        assert q == Child(p, i) || TableAt(m.mem, m.root, q) == Some(g);
      }
      assert TableAt(n.mem, m.root, Child(p, i)) == Some(f);
    }
  }

  /** A frame from the allocator is zeroed and linked: the tree grows by one empty table. */
  lemma LinkKeeps(m: Machine, p: Path, i: Index, f: nat, user: bool)
    requires Inv(m) && Depth(p) <= 2 && TableAt(m.mem, m.root, p).Some?
    requires !Present(Entry(m.mem, m.root, p, i)) && f < m.total && f !in m.used
    ensures var n := Linked(m, TableAt(m.mem, m.root, p).value, i, f, user);
            && Inv(n) && Grown(m, n)
            && TableAt(n.mem, m.root, Child(p, i)) == Some(f)
            && (user && UserPath(m.mem, m.root, p) ==> UserPath(n.mem, m.root, Child(p, i)))
  {
    var t := TableAt(m.mem, m.root, p).value;
    var w := f * 4096 + ParentFlags(user);
    var n := Linked(m, t, i, f, user);
    NewLink(f, user);
    LinkIsOneEntry(m, p, i, f, user);
    UserClosedGrows(m.mem, n.mem, m.root, p, i, w);
    OneMoreTable(m, n, p, i, f);
    forall v: VPage
      ensures Translate(n.mem, m.root, v) == Translate(m.mem, m.root, v)
    {
      PointUpdateOnAbsent(m.mem, n.mem, m.root, p, i, w, v);
    }
    forall q | Depth(q) <= 3
      ensures ClearTo(n.mem, m.root, q) == ClearTo(m.mem, m.root, q)
    {
      ClearToKept(m.mem, n.mem, m.root, p, i, w, q);
    }
    assert !TableOf(m, f);
    assert TableOf(m, t);
  }

  lemma {:induction false} SameEntriesPath(m: Memory, n: Memory, root: nat, q: Path)
    requires SameEntries(m, n, root) && Depth(q) <= 3
    ensures UserPath(n, root, q) == UserPath(m, root, q)
    ensures ClearTo(n, root, q) == ClearTo(m, root, q)
  {
    if q.Child? {
      SameEntriesPath(m, n, root, q.parent);
    }
  }

  /** The invariant is a property of the tree and of the frames in use. */
  lemma SameEntriesInv(m: Machine, n: Machine)
    requires Inv(m) && n.root == m.root && n.used == m.used && n.total == m.total && |n.mem| == |m.mem|
    requires Tree(n.mem, m.root) && SameTables(m.mem, n.mem, m.root) && SameEntries(m.mem, n.mem, m.root)
    ensures Inv(n)
    ensures forall q | Depth(q) <= 3 :: ClearTo(n.mem, m.root, q) == ClearTo(m.mem, m.root, q)
  {
    forall q | Depth(q) <= 3
      ensures UserPath(n.mem, m.root, q) == UserPath(m.mem, m.root, q)
      ensures ClearTo(n.mem, m.root, q) == ClearTo(m.mem, m.root, q)
    {
      SameEntriesPath(m.mem, n.mem, m.root, q);
    }
  }

  /** A store into a frame that holds no table is invisible to the processor's walk. */
  lemma StoreOutsideTables(m: Machine, f: nat, i: Index, w: Word)
    requires Inv(m) && f < |m.mem| && !TableOf(m, f)
    ensures var n := m.(mem := Store(m.mem, f, i, w));
            && Inv(n) && SameTables(m.mem, n.mem, m.root) && SameEntries(m.mem, n.mem, m.root)
            && (forall x :: Translate(n.mem, m.root, x) == Translate(m.mem, m.root, x))
            && (forall q | Depth(q) <= 3 :: ClearTo(n.mem, m.root, q) == ClearTo(m.mem, m.root, q))
  {
    hide Inv, Translate;
    var n := m.(mem := Store(m.mem, f, i, w));
    InvIsTree(m);
    FrameWriteKeepsTree(m.mem, m.root, f, m.mem[f][i := w]);
    SameEntriesInv(m, n);
    forall x: VPage
      ensures Translate(n.mem, m.root, x) == Translate(m.mem, m.root, x)
    {
      SameEntriesSameTranslation(m.mem, n.mem, m.root, x);
    }
  }

  lemma InvIsTree(m: Machine)
    requires Inv(m)
    ensures Tree(m.mem, m.root) && Sound(m)
  {
  }

  /** What one level of the walk needs to know. */
  lemma StartsFromInv(m: Machine, p: Path, i: Index)
    requires Inv(m) && Depth(p) <= 2
    ensures var (used, f) := FrameSets.Alloc(m.used, m.total);
            && (f == 0 ==> used == m.used)
            && (f != 0 ==> used == m.used + {f} && f < m.total && f !in m.used)
    ensures var e := Entry(m.mem, m.root, p, i);
            FrameOf(e) == e / 4096 && (Link(e) ==> e / 4096 < |m.mem|)
    ensures TablesGrow(m, m)
  {
    FrameSets.AllocTakesLowest(m.used, m.total);
    DivIs(Entry(m.mem, m.root, p, i) / 4096, 0x100_0000_0000, 0);
  }

  /** One level of the walk keeps the invariant and every translation. */
  lemma DescendKeeps(m: Machine, p: Path, i: Index, create: bool, user: bool)
    requires Inv(m) && Depth(p) <= 2 && TableAt(m.mem, m.root, p).Some?
    requires !IsLarge(Entry(m.mem, m.root, p, i))
    requires user ==> UserPath(m.mem, m.root, p)
    ensures var (n, r) := Descend(m, TableAt(m.mem, m.root, p).value, i, create, user);
            && Inv(n) && Grown(m, n)
            && (r.Some? ==> r == TableAt(n.mem, m.root, Child(p, i)))
            && (r.Some? && user ==> UserPath(n.mem, m.root, Child(p, i)))
  {
    hide Inv, TablesGrow, FrameSets.Alloc, Linked, Large, User, WithUser;
    var t := TableAt(m.mem, m.root, p).value;
    var e := Entry(m.mem, m.root, p, i);
    StartsFromInv(m, p, i);
    if !Present(e) {
      if create {
        var f := FrameSets.Alloc(m.used, m.total).1;
        if f != 0 {
          LinkKeeps(m, p, i, f, user);
        }
      }
    } else {
      if user && !User(e) {
        SetUserKeeps(m, p, i);
      }
    }
  }

  lemma NewEntry(m: Machine, p: Path, i: Index, f: nat, user: bool)
    requires Inv(m) && Depth(p) <= 2 && TableAt(m.mem, m.root, p).Some?
    requires !Present(Entry(m.mem, m.root, p, i)) && f < m.total && f !in m.used
    ensures Entry(Linked(m, TableAt(m.mem, m.root, p).value, i, f, user).mem, m.root, p, i) == 4096 * f + if user then 7 else 3
  {
    LinkIsOneEntry(m, p, i, f, user);
    hide Entry, TableAt, Linked, Inv, Tree;
  }

  lemma UserEntry(m: Machine, p: Path, i: Index)
    requires Inv(m) && Depth(p) <= 2 && TableAt(m.mem, m.root, p).Some?
    requires var e := Entry(m.mem, m.root, p, i); Link(e) && !User(e)
    ensures var e := Entry(m.mem, m.root, p, i);
            Entry(Store(m.mem, TableAt(m.mem, m.root, p).value, i, WithUser(e)), m.root, p, i) == e + 4
  {
    var e := Entry(m.mem, m.root, p, i);
    AddUser(e);
    StoreIsPointUpdate(m.mem, m.root, p, i, WithUser(e));
    hide Entry, TableAt, Inv, Tree, User, Large;
  }

  /** The entry one level leaves: a new table is linked present and writable, and for the user when asked
      for; an existing entry gains at most the user bit. */
  lemma DescendEntry(m: Machine, p: Path, i: Index, create: bool, user: bool)
    requires Inv(m) && Depth(p) <= 2 && TableAt(m.mem, m.root, p).Some? && !IsLarge(Entry(m.mem, m.root, p, i))
    ensures var e := Entry(m.mem, m.root, p, i);
            var (n, r) := Descend(m, TableAt(m.mem, m.root, p).value, i, create, user);
            Entry(n.mem, m.root, p, i) ==
              if Present(e) then (if user && !User(e) then e + 4 else e)
              else if r.Some? then 4096 * r.value + (if user then 7 else 3)
              else e
  {
    StartsFromInv(m, p, i);
    hide Inv, TablesGrow, FrameSets.Alloc, Linked, Large, User, WithUser;
    var e := Entry(m.mem, m.root, p, i);
    var f := FrameSets.Alloc(m.used, m.total).1;
    if !Present(e) && create && f != 0 {
      NewEntry(m, p, i, f, user);
    } else if Present(e) && user && !User(e) {
      UserEntry(m, p, i);
    }
  }

  /** One level of the walk fails exactly when it would have to create a table without permission
      or without a free frame. */
  lemma DescendCounts(m: Machine, p: Path, i: Index, create: bool, user: bool)
    requires Inv(m) && Depth(p) <= 2 && TableAt(m.mem, m.root, p).Some?
    requires !IsLarge(Entry(m.mem, m.root, p, i))
    ensures var (n, r) := Descend(m, TableAt(m.mem, m.root, p).value, i, create, user);
            var absent := TableAt(m.mem, m.root, Child(p, i)).None?;
            && (r.None? <==> absent && (!create || FreeFrames(m) == 0))
            && FreeFrames(n) == FreeFrames(m) - (if r.Some? && absent then 1 else 0)
            && (!create && !user ==> n == m)
  {
    FrameSets.AllocTakesLowest(m.used, m.total);
  }

  /** One level of the walk touches one path only. */
  lemma DescendElsewhere(m: Machine, p: Path, i: Index, create: bool, user: bool, q: Path)
    requires Inv(m) && Depth(p) <= 2 && TableAt(m.mem, m.root, p).Some?
    requires !IsLarge(Entry(m.mem, m.root, p, i)) && Depth(q) <= 3 && q != Child(p, i)
    ensures TableAt(Descend(m, TableAt(m.mem, m.root, p).value, i, create, user).0.mem, m.root, q) == TableAt(m.mem, m.root, q)
  {
    var e := Entry(m.mem, m.root, p, i);
    if !Present(e) {
      FrameSets.AllocTakesLowest(m.used, m.total);
      var f := FrameSets.Alloc(m.used, m.total).1;
      if create && f != 0 {
        LinkIsOneEntry(m, p, i, f, user);
      }
    } else if user && !User(e) {
      AddUser(e);
      StoreKeepsTable(m.mem, m.root, p, i, WithUser(e), q);
    }
  }

  // -------------------------------------------------------------------- the walk

  /** How many of the tables on the way down p do not exist yet. */
  function MissingTables(m: Machine, p: Path): nat {
    match p
    case Root => 0
    case Child(q, _) => MissingTables(m, q) + if TableAt(m.mem, m.root, p).None? then 1 else 0
  }

  /** The walk of `vmm_get_pte_flags` down to the table at path p. */
  function Reach(m: Machine, p: Path, create: bool, user: bool): (r: (Machine, Option<nat>))
    requires Inv(m) && ClearTo(m.mem, m.root, p) && Depth(p) <= 3
    ensures Inv(r.0) && Grown(m, r.0)
    ensures r.1.Some? ==> r.1 == TableAt(r.0.mem, m.root, p) && (user ==> UserPath(r.0.mem, m.root, p))
    decreases p
  {
    match p
    case Root => (m, Some(m.root))
    case Child(q, i) =>
      var a := Reach(m, q, create, user);
      if a.1.None? then a else
      ReachStep(m, a.0, q, i, create, user);
      Descend(a.0, a.1.value, i, create, user)
  }

  /** One more level of a walk that has got down to the table at q. */
  lemma ReachStep(m: Machine, a: Machine, q: Path, i: Index, create: bool, user: bool)
    requires Inv(a) && Grown(m, a) && Depth(q) <= 2 && ClearTo(m.mem, m.root, Child(q, i))
    requires TableAt(a.mem, m.root, q).Some? && (user ==> UserPath(a.mem, m.root, q))
    ensures a.total <= |a.mem| <= IDENTITY_FRAMES
    ensures var (n, r) := Descend(a, TableAt(a.mem, m.root, q).value, i, create, user);
            && Inv(n) && Grown(m, n)
            && (r.Some? ==> r == TableAt(n.mem, m.root, Child(q, i)) && (user ==> UserPath(n.mem, m.root, Child(q, i))))
  {
    assert ClearTo(a.mem, m.root, Child(q, i));
    hide Descend, FrameSets.Alloc;
    DescendKeeps(a, q, i, create, user);
    TablesGrowTransitive(m, a, Descend(a, TableAt(a.mem, m.root, q).value, i, create, user).0);
  }

  /** q is the path p or one of the tables above it. */
  predicate OnWay(q: Path, p: Path) {
    q == p || (p.Child? && OnWay(q, p.parent))
  }

  /** The walk adds tables on its own way only. */
  lemma {:induction false} ReachElsewhere(m: Machine, p: Path, create: bool, user: bool, q: Path)
    requires Inv(m) && ClearTo(m.mem, m.root, p) && Depth(p) <= 3
    requires Depth(q) <= 3 && !OnWay(q, p)
    ensures TableAt(Reach(m, p, create, user).0.mem, m.root, q) == TableAt(m.mem, m.root, q)
    decreases p
  {
    if p.Child? {
      ReachElsewhere(m, p.parent, create, user, q);
      var a := Reach(m, p.parent, create, user);
      if a.1.Some? {
        LastStep(m, p, create, user, a);
        DescendElsewhere(a.0, p.parent, p.index, create, user, q);
      }
    }
  }

  /** One level of the walk changes one entry only. */
  lemma DescendKeepsEntry(m: Machine, p: Path, i: Index, create: bool, user: bool, q: Path, j: Index)
    requires Inv(m) && Depth(p) <= 2 && TableAt(m.mem, m.root, p).Some?
    requires !IsLarge(Entry(m.mem, m.root, p, i)) && Depth(q) <= 2 && Child(q, j) != Child(p, i)
    ensures Entry(Descend(m, TableAt(m.mem, m.root, p).value, i, create, user).0.mem, m.root, q, j) == Entry(m.mem, m.root, q, j)
  {
    var e := Entry(m.mem, m.root, p, i);
    if !Present(e) {
      FrameSets.AllocTakesLowest(m.used, m.total);
      var f := FrameSets.Alloc(m.used, m.total).1;
      if create && f != 0 {
        LinkIsOneEntry(m, p, i, f, user);
      }
    } else if user && !User(e) {
      AddUser(e);
      StoreIsPointUpdate(m.mem, m.root, p, i, WithUser(e));
    }
  }

  /** The walk changes upper-level entries on its own way only. */
  lemma {:induction false} ReachKeepsEntry(m: Machine, p: Path, create: bool, user: bool, q: Path, j: Index)
    requires Inv(m) && ClearTo(m.mem, m.root, p) && Depth(p) <= 3
    requires Depth(q) <= 2 && !OnWay(Child(q, j), p)
    ensures Entry(Reach(m, p, create, user).0.mem, m.root, q, j) == Entry(m.mem, m.root, q, j)
    decreases p
  {
    if p.Child? {
      ReachKeepsEntry(m, p.parent, create, user, q, j);
      var a := Reach(m, p.parent, create, user);
      if a.1.Some? {
        LastStep(m, p, create, user, a);
        DescendKeepsEntry(a.0, p.parent, p.index, create, user, q, j);
      }
    }
  }

  /** The last level of a walk that got that far. */
  lemma LastStep(m: Machine, p: Path, create: bool, user: bool, a: (Machine, Option<nat>))
    requires Inv(m) && ClearTo(m.mem, m.root, p) && Depth(p) <= 3 && p.Child?
    requires a == Reach(m, p.parent, create, user) && a.1.Some?
    ensures Inv(a.0) && TableAt(a.0.mem, m.root, p.parent) == a.1 && !IsLarge(Entry(a.0.mem, m.root, p.parent, p.index))
    ensures a.0.root == m.root
    ensures Reach(m, p, create, user) == Descend(a.0, a.1.value, p.index, create, user)
  {
    assert ClearTo(a.0.mem, m.root, p);
  }

  /** With `create` the walk fails exactly when there are fewer free frames than missing tables, and
      otherwise takes one frame for each of them. */
  lemma {:induction false} ReachCounts(m: Machine, p: Path, user: bool)
    requires Inv(m) && ClearTo(m.mem, m.root, p) && Depth(p) <= 3
    ensures var (n, r) := Reach(m, p, true, user);
            && (r.Some? <==> MissingTables(m, p) <= FreeFrames(m))
            && FreeFrames(n) == if r.Some? then FreeFrames(m) - MissingTables(m, p) else 0
    decreases p
  {
    FrameSets.FreeCountZero(m.used, m.total);
    match p
    case Root =>
    case Child(q, i) =>
      ReachCounts(m, q, user);
      NotOnWay(p, q);
      ReachElsewhere(m, q, true, user, p);
      var a := Reach(m, q, true, user);
      if a.1.Some? {
        LastStep(m, p, true, user, a);
        FrameSets.FreeCountZero(a.0.used, m.total);
        DescendCounts(a.0, q, i, true, user);
      }
  }

  /** Without `create` the walk changes nothing and finds the table if there is one. */
  lemma {:induction false} ReachReads(m: Machine, p: Path)
    requires Inv(m) && ClearTo(m.mem, m.root, p) && Depth(p) <= 3
    ensures Reach(m, p, false, false) == (m, TableAt(m.mem, m.root, p))
    decreases p
  {
    match p
    case Root =>
    case Child(q, i) =>
      ReachReads(m, q);
      if TableAt(m.mem, m.root, q).Some? {
        DescendKeeps(m, q, i, false, false);
        DescendCounts(m, q, i, false, false);
      }
  }

  /** A walk to a table that exists finds it; at most it adds user bits on the way. */
  lemma {:induction false} ReachFinds(m: Machine, p: Path, create: bool, user: bool)
    requires Inv(m) && ClearTo(m.mem, m.root, p) && Depth(p) <= 3 && TableAt(m.mem, m.root, p).Some?
    ensures var (n, r) := Reach(m, p, create, user);
            r == TableAt(m.mem, m.root, p) && n.used == m.used && SameTables(m.mem, n.mem, m.root) && (!user ==> n == m)
    decreases p
  {
    if p.Child? {
      ReachFinds(m, p.parent, create, user);
      var a := Reach(m, p.parent, create, user);
      LastStep(m, p, create, user, a);
      DescendFinds(a.0, p.parent, p.index, create, user);
    }
  }

  lemma DescendFinds(m: Machine, p: Path, i: Index, create: bool, user: bool)
    requires Inv(m) && Depth(p) <= 2 && TableAt(m.mem, m.root, Child(p, i)).Some?
    ensures TableAt(m.mem, m.root, p).Some?
    ensures var (n, r) := Descend(m, TableAt(m.mem, m.root, p).value, i, create, user);
            r == TableAt(m.mem, m.root, Child(p, i)) && n.used == m.used && SameTables(m.mem, n.mem, m.root) && (!user ==> n == m)
  {
    var e := Entry(m.mem, m.root, p, i);
    StartsFromInv(m, p, i);
    if user && !User(e) {
      AddUser(e);
      StoreIsPointUpdate(m.mem, m.root, p, i, WithUser(e));
    }
  }

  lemma {:induction false} NotOnWay(p: Path, q: Path)
    requires Depth(q) < Depth(p)
    ensures !OnWay(p, q)
  {
    if q.Child? {
      NotOnWay(p, q.parent);
    }
  }

  // ------------------------------------------------- the same walk on any tables

  /** What the walk needs of memory to be able to add tables. */
  predicate Sound(m: Machine) {
    m.root < |m.mem| && m.total <= |m.mem| <= IDENTITY_FRAMES
  }

  /** The next level below whatever the level before took for a table. Where an address lies outside
      physical memory the walk ends. */
  function Below(m: Machine, t: Option<nat>, i: Index, create: bool, user: bool): (r: (Machine, Option<nat>))
    requires Sound(m)
    ensures Sound(r.0) && r.0.root == m.root && r.0.total == m.total && |r.0.mem| == |m.mem|
    ensures !create && !user ==> r.0 == m
  {
    match t
    case None => (m, None)
    case Some(f) => if f < |m.mem| then Descend(m, f, i, create, user) else (m, None)
  }

  /** `vmm_get_pte_flags` on any tables, large pages included: the walk tests the present bit only. */
  function GetPte(m: Machine, v: VPage, create: bool, user: bool): (r: (Machine, Option<nat>))
    requires Sound(m)
    ensures Sound(r.0) && r.0.root == m.root && r.0.total == m.total && |r.0.mem| == |m.mem|
    ensures !create && !user ==> r.0 == m
  {
    var a := Below(m, Some(m.root), v.i4, create, user);
    var b := Below(a.0, a.1, v.i3, create, user);
    Below(b.0, b.1, v.i2, create, user)
  }

  predicate InsideOrNone(m: Machine, t: Option<nat>) {
    t.Some? ==> t.value < |m.mem|
  }

  /** Everything the walk takes for a table lies in physical memory. */
  predicate WalkInside(m: Machine, v: VPage, create: bool, user: bool)
    requires Sound(m)
  {
    var a := Below(m, Some(m.root), v.i4, create, user);
    var b := Below(a.0, a.1, v.i3, create, user);
    InsideOrNone(m, a.1) && InsideOrNone(m, b.1) && InsideOrNone(m, Below(b.0, b.1, v.i2, create, user).1)
  }

  /** Without large pages on the way it is the walk down the tree. */
  lemma GetPteIsReach(m: Machine, v: VPage, create: bool, user: bool)
    requires Inv(m) && PathClear(m.mem, m.root, v)
    ensures GetPte(m, v, create, user) == Reach(m, Pt(v), create, user) && WalkInside(m, v, create, user)
  {
    PathClearLevels(m.mem, m.root, v);
    BelowIsReach(m, Pdpt(v), create, user);
    BelowIsReach(m, Pd(v), create, user);
    BelowIsReach(m, Pt(v), create, user);
  }

  lemma BelowIsReach(m: Machine, p: Path, create: bool, user: bool)
    requires Inv(m) && p.Child? && ClearTo(m.mem, m.root, p) && Depth(p) <= 3
    ensures var a := Reach(m, p.parent, create, user);
            Below(a.0, a.1, p.index, create, user) == Reach(m, p, create, user)
    ensures InsideOrNone(m, Reach(m, p, create, user).1)
  {
    var a := Reach(m, p.parent, create, user);
    if a.1.Some? {
      LastStep(m, p, create, user, a);
    }
  }
}
