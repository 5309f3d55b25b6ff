/** The heap window as memory: what a word at a virtual address holds, and that no operation but a store
    to that very word changes it. */
module HeapWords {
  import opened Words
  import opened PageTables
  import opened Walker
  import opened VirtualMemory
  import opened Heap
  import opened HeapCost
  import opened BumpHeap
  import opened Ownership
  import opened Boot
  import opened Runs

  predicate HeapAddress(a: nat) {
    HEAP_START <= a < HEAP_LIMIT && a % 8 == 0
  }

  function SlotOf(a: nat): Slot
    requires HeapAddress(a)
  {
    (a - HEAP_START) / 4096
  }

  function WordOf(a: nat): Index
    requires HeapAddress(a)
  {
    (a - HEAP_START) % 4096 / 8
  }

  lemma SplitAddress(d: nat)
    requires d % 8 == 0
    ensures d == 4096 * (d / 4096) + 8 * (d % 4096 / 8)
  {
    var q, r, e := d / 4096, d % 4096, d / 8;
    assert d == 4096 * q + r && d == 8 * e;
    assert r == 8 * (e - 512 * q);
    DivIs(r, 8, e - 512 * q);
  }

  lemma AddressOfWord(a: nat)
    requires HeapAddress(a)
    ensures a == HEAP_START + 4096 * SlotOf(a) + 8 * WordOf(a)
  {
    assert a - HEAP_START == 8 * (a / 8 - HEAP_START / 8);
    SplitAddress(a - HEAP_START);
  }

  lemma WordsApart(a: nat, b: nat)
    requires HeapAddress(a) && HeapAddress(b) && SlotOf(a) == SlotOf(b) && WordOf(a) == WordOf(b)
    ensures a == b
  {
    AddressOfWord(a);
    AddressOfWord(b);
  }

  /** The frame behind a mapped heap page. */
  function Backing(m: Machine, k: Slot): nat
    requires Mapped(m, k)
  {
    Translate(m.mem, m.root, HeapPage(k)).value.frame
  }

  predicate Readable(m: Machine, a: nat) {
    HeapAddress(a) && Mapped(m, SlotOf(a)) && Backing(m, SlotOf(a)) < |m.mem|
  }

  function ReadWord(m: Machine, a: nat): Word
    requires Readable(m, a)
  {
    m.mem[Backing(m, SlotOf(a))][WordOf(a)]
  }

  /** Every heap word that could be read before can be read now and is the same. */
  ghost predicate KeepsWords(m: Machine, n: Machine) {
    forall a: nat | Readable(m, a) :: Readable(n, a) && ReadWord(n, a) == ReadWord(m, a)
  }

  lemma MappedIsReadable(w: World, l: Ledger, a: nat)
    requires Good(w, l) && HeapAddress(a) && Mapped(w.h.machine, SlotOf(a))
    ensures Readable(w.h.machine, a)
  {
    GoodIsReady(w, l);
  }

  /** The frame of a heap page is in use and no table. */
  lemma BackingIsData(m: Machine, l: Ledger, k: Slot)
    requires Owned(m, l) && Mapped(m, k)
    ensures Backing(m, k) in m.used && !TableOf(m, Backing(m, k))
  {
    assert MapsTo(m, k, Backing(m, k));
    assert HeapFrame(m, Backing(m, k));
  }

  lemma WordsKeptIf(m: Machine, n: Machine, l: Ledger)
    requires Owned(m, l) && Persists(m, n) && |n.mem| == |m.mem|
    requires forall f: nat | f in m.used && !TableOf(m, f) && f < |m.mem| :: n.mem[f] == m.mem[f]
    ensures KeepsWords(m, n)
  {
    forall a: nat | Readable(m, a)
      ensures Readable(n, a) && ReadWord(n, a) == ReadWord(m, a)
    {
      BackingIsData(m, l, SlotOf(a));
    }
  }

  lemma FreshKeepsFrame(m: Machine, k: Slot, f: nat)
    requires HeapReady(m) && NextFrame(m) != 0 && f in m.used && !TableOf(m, f) && f < |m.mem|
    ensures var n := MapFresh(m, HeapPage(k));
            HeapReady(n) && |n.mem| == |m.mem| && n.mem[f] == m.mem[f] && f in n.used && !TableOf(n, f)
  {
    hide MapFresh, HeapPage, TableOf, Inv;
    MapFreshKeepsHeap(m, k);
    MapFreshKeeps(m, HeapPage(k));
    TakeSameTables(m, f);
  }

  lemma TakeSameTables(m: Machine, f: nat)
    ensures TableOf(Take(m, NextFrame(m)), f) == TableOf(m, f)
  {
  }

  lemma {:induction false} RangeKeepsFrame(m: Machine, k: nat, end: nat, f: nat)
    requires HeapReady(m) && end <= HEAP_PAGES && f in m.used && !TableOf(m, f) && f < |m.mem|
    ensures |MapRange(m, k, end).0.mem| == |m.mem| && MapRange(m, k, end).0.mem[f] == m.mem[f]
    decreases end - k
  {
    hide MapFresh, TableOf, Mapped;
    if k < end {
      LookupTellsMapped(m, k);
      if Mapped(m, k) {
        RangeKeepsFrame(m, k + 1, end, f);
      } else if NextFrame(m) != 0 {
        FreshKeepsFrame(m, k, f);
        RangeKeepsFrame(MapFresh(m, HeapPage(k)), k + 1, end, f);
      }
    }
  }

  lemma KmallocKeepsWords(h: HeapState, size: Word, l: Ledger)
    requires HeapOk(h) && Owned(h.machine, l)
    ensures KeepsWords(h.machine, Kmalloc(h, size).0.machine)
  {
    hide Owned, KeepsWords, NewPtr;
    var m, n := h.machine, Kmalloc(h, size).0.machine;
    KmallocPersists(h, size);
    var end := NewPtr(h.ptr, size);
    if size != 0 && end < HEAP_LIMIT {
      assert 0 in m.used;
      ZeroIsData(m, l);
      RangeKeepsFrame(m, FirstSlot(h.ptr), EndSlot(end), 0);
      forall f: nat | f in m.used && !TableOf(m, f) && f < |m.mem|
        ensures n.mem[f] == m.mem[f]
      {
        RangeKeepsFrame(m, FirstSlot(h.ptr), EndSlot(end), f);
      }
    }
    WordsKeptIf(m, n, l);
  }

  lemma ZeroIsData(m: Machine, l: Ledger)
    requires Inv(m) && Owned(m, l)
    ensures 0 in m.used && !TableOf(m, 0) && 0 < |m.mem|
  {
    assert 0 in Held(l);
  }

  /** Only a store through the heap window changes heap words. */
  lemma StepKeepsWords(w: World, op: Op, l: Ledger)
    requires Good(w, l) && Ready(w) && Allowed(w, op) && !op.OpPoke?
    ensures KeepsWords(w.h.machine, Step(w, op).h.machine)
  {
    var m, n := w.h.machine, Step(w, op).h.machine;
    StepPersists(w, op, l);
    hide KeepsWords, Persists;
    match op
    case OpKmalloc(size) => KmallocKeepsWords(w.h, size, l);
    case OpAlloc => WordsKeptIf(m, n, l);
    case OpFree(f) => WordsKeptIf(m, n, l);
    case OpMap(v, pa, flags) =>
      ClientPathClear(m, v);
      MapKeepsInvariant(m, v, pa, flags);
      WordsKeptIf(m, n, l);
    case OpUnmap(v) =>
      ClientPathClear(m, v);
      UnmapKeepsInvariant(m, v);
      WordsKeptIf(m, n, l);
    case OpWrite(f, i, x) =>
      WriteKeepsWords(m, l, f, i, x);
  }

  lemma WriteKeepsWords(m: Machine, l: Ledger, f: nat, i: Index, x: Word)
    requires HeapReady(m) && Owned(m, l) && f in l.client && f < |m.mem|
    ensures KeepsWords(m, m.(mem := Store(m.mem, f, i, x)))
  {
    var n := m.(mem := Store(m.mem, f, i, x));
    WritePersists(m, l, f, i, x);
    assert f in Held(l);
    forall a: nat | Readable(m, a)
      ensures Readable(n, a) && ReadWord(n, a) == ReadWord(m, a)
    {
      assert MapsTo(m, SlotOf(a), Backing(m, SlotOf(a)));
      assert HeapFrame(m, Backing(m, SlotOf(a)));
    }
  }

  // ------------------------------------------------------------------ stores

  /** A store through the heap window changes one word and no other. */
  lemma PokeIsOneWord(w: World, l: Ledger, k: Slot, i: Index, x: Word, a: nat)
    requires Good(w, l) && Ready(w) && Mapped(w.h.machine, k) && Readable(w.h.machine, a)
    ensures var n := Step(w, OpPoke(k, i, x)).h.machine;
            Readable(n, a) && ReadWord(n, a) == if SlotOf(a) == k && WordOf(a) == i then x else ReadWord(w.h.machine, a)
  {
    var m := w.h.machine;
    StepPersists(w, OpPoke(k, i, x), l);
    assert MapsTo(m, k, Backing(m, k)) && MapsTo(m, SlotOf(a), Backing(m, SlotOf(a)));
    if SlotOf(a) != k {
      assert Backing(m, SlotOf(a)) != Backing(m, k);
    }
  }

  /** One store of the kernel; a store to a page that is not mapped changes nothing. */
  function PutWord(w: World, a: nat, x: Word): World
    requires Ready(w)
  {
    if Readable(w.h.machine, a) then Step(w, OpPoke(SlotOf(a), WordOf(a), x)) else w
  }

  lemma PutWordKeeps(w: World, l: Ledger, a: nat, x: Word)
    requires Good(w, l) && Ready(w) && Readable(w.h.machine, a)
    ensures var n := PutWord(w, a, x);
            && Good(n, l) && Ready(n) && Persists(w.h.machine, n.h.machine)
            && n == w.(h := w.h.(machine := n.h.machine))
            && forall b: nat | Readable(w.h.machine, b) ::
                 Readable(n.h.machine, b) && ReadWord(n.h.machine, b) == if b == a then x else ReadWord(w.h.machine, b)
  {
    var op := OpPoke(SlotOf(a), WordOf(a), x);
    var n := PutWord(w, a, x);
    PokeGood(w, SlotOf(a), WordOf(a), x, l);
    GoodIsReady(n, l);
    StepPersists(w, op, l);
    forall b: nat | Readable(w.h.machine, b)
      ensures Readable(n.h.machine, b) && ReadWord(n.h.machine, b) == if b == a then x else ReadWord(w.h.machine, b)
    {
      PokeIsOneWord(w, l, SlotOf(a), WordOf(a), x, b);
      if SlotOf(b) == SlotOf(a) && WordOf(b) == WordOf(a) {
        WordsApart(a, b);
      }
    }
  }

  /** The words xs stored one behind the other from address a on. */
  ghost function PutWords(w: World, a: nat, xs: seq<Word>): World
    requires Ready(w)
    decreases |xs|
  {
    if xs == [] then w
    else
      var n := PutWord(w, a, xs[0]);
      if Ready(n) then PutWords(n, a + 8, xs[1..]) else n
  }

  predicate HoldsWord(m: Machine, a: nat, x: Word) {
    Readable(m, a) && ReadWord(m, a) == x
  }

  /** The words from a on can be read and are xs. */
  ghost predicate HoldsWords(m: Machine, a: nat, xs: seq<Word>) {
    forall j: nat | j < |xs| :: HoldsWord(m, a + 8 * j, xs[j])
  }

  /** Afterwards exactly these words have changed. */
  lemma {:induction false} PutWordsHolds(w: World, l: Ledger, a: nat, xs: seq<Word>)
    requires Good(w, l) && Ready(w) && forall j: nat | j < |xs| :: Readable(w.h.machine, a + 8 * j)
    ensures var n := PutWords(w, a, xs);
            && Good(n, l) && Ready(n) && Persists(w.h.machine, n.h.machine)
            && n == w.(h := w.h.(machine := n.h.machine))
            && HoldsWords(n.h.machine, a, xs)
            && forall b: nat | Readable(w.h.machine, b) && !(a <= b < a + 8 * |xs|) ::
                 Readable(n.h.machine, b) && ReadWord(n.h.machine, b) == ReadWord(w.h.machine, b)
    decreases |xs|
  {
    hide Good, Ready, Readable, ReadWord, Persists, PutWord, HoldsWords;
    if xs == [] {
      NothingHeld(w, l, a);
    } else {
      var n := PutWord(w, a, xs[0]);
      assert Readable(w.h.machine, a + 8 * 0);
      PutWordKeeps(w, l, a, xs[0]);
      forall j: nat | j < |xs[1..]|
        ensures Readable(n.h.machine, a + 8 + 8 * j)
      {
        assert Readable(w.h.machine, a + 8 * (j + 1));
      }
      PutWordsHolds(n, l, a + 8, xs[1..]);
      var end := PutWords(n, a + 8, xs[1..]);
      PersistsTransitive(w.h.machine, n.h.machine, end.h.machine);
      HoldsOneMore(end.h.machine, a, xs);
    }
  }

  lemma NothingHeld(w: World, l: Ledger, a: nat)
    requires Good(w, l)
    ensures HoldsWords(w.h.machine, a, []) && Persists(w.h.machine, w.h.machine)
  {
  }

  lemma HoldsOneMore(m: Machine, a: nat, xs: seq<Word>)
    requires xs != [] && Readable(m, a) && ReadWord(m, a) == xs[0] && HoldsWords(m, a + 8, xs[1..])
    ensures HoldsWords(m, a, xs)
  {
    assert HoldsWord(m, a, xs[0]);
    hide HoldsWord;
    forall j: nat | j < |xs|
      ensures HoldsWord(m, a + 8 * j, xs[j])
    {
      if j > 0 {
        var i := j - 1;
        assert HoldsWord(m, a + 8 + 8 * i, xs[1..][i]);
        assert a + 8 + 8 * i == a + 8 * j;
      }
    }
  }
}
