/** The scancode ring of src/kernel/keyboard_irq.c: an interrupt handler writes, the kernel reads, and
    the handler may run between any two steps of the reader. */
module Keyboard {
  const BUFFER_SIZE: nat := 256

  type Scancode = b: nat | b < 256

  datatype Ring = Ring(buffer: seq<Scancode>, read: nat, write: nat)

  predicate RingOk(r: Ring) {
    |r.buffer| == BUFFER_SIZE && r.read < BUFFER_SIZE && r.write < BUFFER_SIZE
  }

  function Next(i: nat): (n: nat)
    ensures i < BUFFER_SIZE ==> n == if i == BUFFER_SIZE - 1 then 0 else i + 1
  {
    (i + 1) % BUFFER_SIZE
  }

  /** How many scancodes wait in the ring. */
  function Pending(r: Ring): nat
    requires RingOk(r)
  {
    if r.write >= r.read then r.write - r.read else r.write + BUFFER_SIZE - r.read
  }

  /** The waiting scancodes, oldest first. */
  function Contents(r: Ring): (c: seq<Scancode>)
    requires RingOk(r)
    ensures |c| == Pending(r)
  {
    if r.write >= r.read then r.buffer[r.read..r.write] else r.buffer[r.read..] + r.buffer[..r.write]
  }

  // ------------------------------------------------------------------- the steps

  /** `keyboard_irq_handler` */
  function Produce(r: Ring, code: Scancode): Ring
    requires RingOk(r)
  {
    if Next(r.write) != r.read then r.(buffer := r.buffer[r.write := code], write := Next(r.write)) else r
  }

  /** Where the reader stands inside `kb_irq_get_scancode`. */
  datatype Reader = Idle | Checked | Loaded(code: Scancode)

  /** The ring, the reader, and the history: scancodes stored and scancodes handed out. */
  datatype System = System(ring: Ring, reader: Reader, accepted: seq<Scancode>, delivered: seq<Scancode>)

  datatype Event = Interrupt(code: Scancode) | ReaderStep

  function Step(s: System, e: Event): System
    requires RingOk(s.ring)
  {
    match e
    case Interrupt(code) =>
      s.(ring := Produce(s.ring, code),
         accepted := if Pending(s.ring) < BUFFER_SIZE - 1 then s.accepted + [code] else s.accepted)
    case ReaderStep =>
      match s.reader
      case Idle => if s.ring.read == s.ring.write then s else s.(reader := Checked)
      case Checked => s.(reader := Loaded(s.ring.buffer[s.ring.read]))
      case Loaded(code) => s.(ring := s.ring.(read := Next(s.ring.read)), reader := Idle, delivered := s.delivered + [code])
  }

  predicate Inv(s: System) {
    && RingOk(s.ring)
    && s.accepted == s.delivered + Contents(s.ring)
    && (s.reader != Idle ==> s.ring.read != s.ring.write)
    && (s.reader.Loaded? ==> s.reader.code == s.ring.buffer[s.ring.read])
  }

  function Start(buffer: seq<Scancode>): System {
    System(Ring(buffer, 0, 0), Idle, [], [])
  }

  // ---------------------------------------------------------------- the ring laws

  /** A scancode is dropped exactly when 255 are waiting; otherwise it goes behind all others. */
  lemma ProduceAppends(r: Ring, code: Scancode)
    requires RingOk(r)
    ensures RingOk(Produce(r, code))
    ensures Contents(Produce(r, code)) == if Pending(r) == 255 then Contents(r) else Contents(r) + [code]
    ensures Produce(r, code).read == r.read
  {
    var n := Produce(r, code);
    if Next(r.write) != r.read {
      if r.write >= r.read && r.write == BUFFER_SIZE - 1 {
        assert n.buffer[r.read..] + n.buffer[..0] == r.buffer[r.read..r.write] + [code];
      } else if r.write >= r.read {
        assert n.buffer[r.read..r.write + 1] == r.buffer[r.read..r.write] + [code];
      } else {
        assert n.buffer[r.read..] == r.buffer[r.read..];
        assert n.buffer[..r.write + 1] == r.buffer[..r.write] + [code];
      }
    }
  }

  /** The interrupt never touches the slot the reader is about to load. */
  lemma ProduceSparesReader(r: Ring, code: Scancode)
    requires RingOk(r) && r.read != r.write
    ensures Produce(r, code).buffer[r.read] == r.buffer[r.read] && Produce(r, code).write != r.read
  {
  }

  lemma ConsumeTakesOldest(r: Ring)
    requires RingOk(r) && r.read != r.write
    ensures var n := r.(read := Next(r.read));
            RingOk(n) && Contents(r) == [r.buffer[r.read]] + Contents(n)
  {
    var n := r.(read := Next(r.read));
    if r.write < r.read && r.read == BUFFER_SIZE - 1 {
      assert r.buffer[r.read..] == [r.buffer[r.read]];
    } else if r.write < r.read {
      assert r.buffer[r.read..] == [r.buffer[r.read]] + r.buffer[r.read + 1..];
    }
  }

  // ------------------------------------------------------------------- all runs

  lemma StepKeeps(s: System, e: Event)
    requires Inv(s)
    ensures Inv(Step(s, e))
  {
    match e
    case Interrupt(code) =>
      ProduceAppends(s.ring, code);
      if s.ring.read != s.ring.write {
        ProduceSparesReader(s.ring, code);
      }
      assert (s.delivered + Contents(s.ring)) + [code] == s.delivered + (Contents(s.ring) + [code]);
    case ReaderStep =>
      if s.reader.Loaded? {
        ConsumeTakesOldest(s.ring);
        var n := s.ring.(read := Next(s.ring.read));
        assert s.delivered + ([s.reader.code] + Contents(n)) == (s.delivered + [s.reader.code]) + Contents(n);
      }
  }

  ghost function Run(s: System, es: seq<Event>): System
    requires Inv(s)
    decreases |es|
  {
    if es == [] then s
    else
      StepKeeps(s, es[0]);
      Run(Step(s, es[0]), es[1..])
  }

  /** Under every interleaving of interrupts and reader steps the scancodes handed out are, in order,
      the first of those accepted, and the rest is exactly what waits in the ring. */
  lemma {:induction false} DeliveredInOrder(s: System, es: seq<Event>)
    requires Inv(s)
    ensures Inv(Run(s, es))
    ensures Run(s, es).delivered <= Run(s, es).accepted
    ensures s.accepted <= Run(s, es).accepted && s.delivered <= Run(s, es).delivered
    decreases |es|
  {
    if es != [] {
      StepKeeps(s, es[0]);
      DeliveredInOrder(Step(s, es[0]), es[1..]);
    }
  }

  lemma StartOk(buffer: seq<Scancode>)
    requires |buffer| == BUFFER_SIZE
    ensures Inv(Start(buffer))
  {
    assert Contents(Ring(buffer, 0, 0)) == [];
  }

  /** From the empty ring on: everything accepted was either handed out, in order, or still waits. */
  lemma NothingIsLost(buffer: seq<Scancode>, es: seq<Event>)
    requires |buffer| == BUFFER_SIZE
    ensures Inv(Start(buffer))
    ensures var n := Run(Start(buffer), es); RingOk(n.ring) && n.accepted == n.delivered + Contents(n.ring)
  {
    StartOk(buffer);
    DeliveredInOrder(Start(buffer), es);
  }

  /** `kb_irq_get_scancode` without interruption. */
  function Consume(r: Ring): (Ring, Scancode)
    requires RingOk(r)
  {
    if r.read == r.write then (r, 0) else (r.(read := Next(r.read)), r.buffer[r.read])
  }

  /** An uninterrupted call is the three steps of the reader, or its check alone when nothing waits. */
  lemma ConsumeIsThreeSteps(s: System)
    requires Inv(s) && s.reader == Idle
    ensures s.ring.read == s.ring.write ==> Step(s, ReaderStep) == s && Consume(s.ring).0 == s.ring
    ensures s.ring.read != s.ring.write ==>
              var b := Step(s, ReaderStep);
              RingOk(b.ring)
              && var c := Step(b, ReaderStep);
              RingOk(c.ring)
              && Step(c, ReaderStep) == s.(ring := Consume(s.ring).0, delivered := s.delivered + [Consume(s.ring).1])
  {
  }

  /** Interrupts between the check and the end of a read cannot make the read fail or change its
      result: the reader gets the scancode that was oldest when it checked. */
  lemma {:induction false} ReadIsAtomic(s: System, codes: seq<Scancode>)
    requires Inv(s) && s.ring.read != s.ring.write
    ensures var n := Interrupts(s, codes);
            Inv(n) && n.ring.read == s.ring.read != n.ring.write && n.ring.buffer[n.ring.read] == s.ring.buffer[s.ring.read]
            && n.reader == s.reader && n.delivered == s.delivered
    decreases |codes|
  {
    if codes != [] {
      StepKeeps(s, Interrupt(codes[0]));
      ProduceSparesReader(s.ring, codes[0]);
      ReadIsAtomic(Step(s, Interrupt(codes[0])), codes[1..]);
    }
  }

  ghost function Interrupts(s: System, codes: seq<Scancode>): System
    requires Inv(s)
    decreases |codes|
  {
    if codes == [] then s
    else
      StepKeeps(s, Interrupt(codes[0]));
      Interrupts(Step(s, Interrupt(codes[0])), codes[1..])
  }

  /** A complete read with any interrupts at its two interruption points delivers the scancode that
      was oldest when the read began. */
  lemma InterruptedReadDeliversOldest(s: System, first: seq<Scancode>, second: seq<Scancode>)
    requires Inv(s) && s.reader == Idle && s.ring.read != s.ring.write
    ensures var a := Step(s, ReaderStep);
            Inv(a)
            && var b := Interrupts(a, first);
            Inv(b)
            && var c := Step(b, ReaderStep);
            Inv(c)
            && var d := Interrupts(c, second);
            Inv(d) && Step(d, ReaderStep).delivered == s.delivered + [Contents(s.ring)[0]]
  {
    var a := Step(s, ReaderStep);
    StepKeeps(s, ReaderStep);
    ReadIsAtomic(a, first);
    var b := Interrupts(a, first);
    StepKeeps(b, ReaderStep);
    var c := Step(b, ReaderStep);
    ReadIsAtomic(c, second);
    ConsumeTakesOldest(s.ring);
  }

  // ------------------------------------------------------------------ the driver

  class KeyboardBuffer {
    const buffer: array<Scancode>
    var read: nat
    var write: nat

    ghost function State(): Ring
      reads this, buffer
    {
      Ring(buffer[..], read, write)
    }

    ghost predicate Valid()
      reads this, buffer
    {
      RingOk(State())
    }

    /** `keyboard_irq_init` */
    constructor ()
      ensures Valid() && Contents(State()) == []
    {
      buffer := new Scancode[BUFFER_SIZE];
      read := 0;
      write := 0;
    }

    method IrqHandler(scancode: Scancode)
      requires Valid()
      modifies this`write, buffer
      ensures Valid() && State() == Produce(old(State()), scancode)
    {
      var nextWrite := (write + 1) % BUFFER_SIZE;
      if nextWrite != read {
        buffer[write] := scancode;
        write := nextWrite;
      }
    }

    /** `kb_irq_has_scancode` */
    method HasScancode() returns (yes: bool)
      requires Valid()
      ensures yes <==> Contents(State()) != []
    {
      yes := read != write;
    }

    /** `kb_irq_get_scancode`, run without interruption: the oldest scancode, or 0 when there is none. */
    method GetScancode() returns (scancode: Scancode)
      requires Valid()
      modifies this`read
      ensures Valid() && (State(), scancode) == Consume(old(State()))
      ensures old(Contents(State())) == [] ==> scancode == 0 && State() == old(State())
      ensures old(Contents(State())) != [] ==> old(Contents(State())) == [scancode] + Contents(State())
    {
      if read == write {
        return 0;
      }
      ConsumeTakesOldest(State());
      scancode := buffer[read];
      read := (read + 1) % BUFFER_SIZE;
    }
  }
}
