/** `irq_common_stub` (src/kernel/idt_asm.asm): what it pushes, what it pops, and that the frame in
    between is a registers_t (src/kernel/isr.h). */
module InterruptStub {
  import opened Words
  import Scheduler

  datatype Reg = RAX | RBX | RCX | RDX | RSI | RDI | RBP | R8 | R9 | R10 | R11 | R12 | R13 | R14 | R15

  type Selector = s: nat | s < 0x1_0000

  type Registers = Reg -> Word

  /** The processor state an interrupt must preserve. */
  datatype Cpu = Cpu(gpr: Registers, ds: Selector, es: Selector, rip: Word, cs: Word, rflags: Word, rsp: Word, ss: Word)

  /** The order of the push instructions. */
  function PushOrder(): (o: seq<Reg>)
    ensures |o| == 15
  {
    [RAX, RBX, RCX, RDX, RSI, RDI, RBP, R8, R9, R10, R11, R12, R13, R14, R15]
  }

  /** The order of the pop instructions. */
  function PopOrder(): (o: seq<Reg>)
    ensures |o| == 15
  {
    [R15, R14, R13, R12, R11, R10, R9, R8, RBP, RDI, RSI, RDX, RCX, RBX, RAX]
  }

  // The stack is a sequence of words with the top first, so index i is the address rsp + 8 * i.

  function PushRegs(stack: seq<Word>, gpr: Registers, order: seq<Reg>): (r: seq<Word>)
    ensures |r| == |stack| + |order|
  {
    if order == [] then stack
    else [gpr(order[|order| - 1])] + PushRegs(stack, gpr, order[..|order| - 1])
  }

  function SetReg(gpr: Registers, r: Reg, w: Word): Registers {
    x => if x == r then w else gpr(x)
  }

  function PopRegs(stack: seq<Word>, gpr: Registers, order: seq<Reg>): (r: (seq<Word>, Registers))
    requires |stack| >= |order|
    ensures |r.0| == |stack| - |order|
    decreases |stack|
  {
    if order == [] then (stack, gpr)
    else PopRegs(stack[1..], SetReg(gpr, order[0], stack[0]), order[1..])
  }

  predicate Distinct(order: seq<Reg>) {
    forall i, j | 0 <= i < j < |order| :: order[i] != order[j]
  }

  predicate Reversed(pops: seq<Reg>, pushes: seq<Reg>) {
    |pops| == |pushes| && forall i | 0 <= i < |pops| :: pops[i] == pushes[|pushes| - 1 - i]
  }

  /** The word index of each general register in registers_t: gs, fs, es, ds come first, then r15
      down to r8, rbp, rdi, rsi, rdx, rcx, rbx, rax. */
  function FieldOf(r: Reg): nat {
    match r
    case R15 => 4
    case R14 => 5
    case R13 => 6
    case R12 => 7
    case R11 => 8
    case R10 => 9
    case R9 => 10
    case R8 => 11
    case RBP => 12
    case RDI => 13
    case RSI => 14
    case RDX => 15
    case RCX => 16
    case RBX => 17
    case RAX => 18
  }

  lemma FieldIsPopSlot(r: Reg)
    ensures 4 <= FieldOf(r) < 19 && PopOrder()[FieldOf(r) - 4] == r
  {
  }

  lemma PushSlots(i: nat)
    requires i < 15
    ensures FieldOf(PushOrder()[i]) == 18 - i
  {
  }

  lemma OrdersMatch()
    ensures Reversed(PopOrder(), PushOrder()) && Distinct(PushOrder())
    ensures forall r: Reg :: r in PopOrder()
  {
    hide PopOrder, PushOrder, FieldOf;
    forall r: Reg
      ensures r in PopOrder()
    {
      FieldIsPopSlot(r);
    }
    forall i: nat | i < 15
      ensures FieldOf(PushOrder()[i]) == 18 - i && PopOrder()[14 - i] == PushOrder()[i]
    {
      PushSlots(i);
      FieldIsPopSlot(PushOrder()[i]);
    }
    forall i: nat | i < 15
      ensures PopOrder()[i] == PushOrder()[14 - i]
    {
      assert PopOrder()[14 - (14 - i)] == PushOrder()[14 - i];
    }
  }

  /** The i-th word from the top is the register pushed i-th from last. */
  lemma {:induction false} PushedAt(stack: seq<Word>, gpr: Registers, order: seq<Reg>, i: nat)
    requires i < |order| + |stack|
    ensures PushRegs(stack, gpr, order)[i] ==
              if i < |order| then gpr(order[|order| - 1 - i]) else stack[i - |order|]
  {
    if order != [] && i > 0 {
      PushedAt(stack, gpr, order[..|order| - 1], i - 1);
    }
  }

  /** Popping loads every register named in the list from its own word and keeps the others. */
  lemma {:induction false} PoppedReg(stack: seq<Word>, gpr: Registers, order: seq<Reg>, r: Reg)
    requires |stack| >= |order| && Distinct(order)
    ensures PopRegs(stack, gpr, order).0 == stack[|order|..]
    ensures r !in order ==> PopRegs(stack, gpr, order).1(r) == gpr(r)
    ensures forall i | 0 <= i < |order| && order[i] == r :: PopRegs(stack, gpr, order).1(r) == stack[i]
    decreases |order|
  {
    if order != [] {
      var rest := order[1..];
      assert forall i | 0 <= i < |rest| :: rest[i] == order[i + 1];
      PoppedReg(stack[1..], SetReg(gpr, order[0], stack[0]), rest, r);
      assert stack[1..][|rest|..] == stack[|order|..];
      forall i | 0 <= i < |order| && order[i] == r
        ensures PopRegs(stack, gpr, order).1(r) == stack[i]
      {
        if i > 0 {
          assert rest[i - 1] == r;
        } else {
          assert r !in rest;
        }
      }
    }
  }

  // -------------------------------------------------------------------- the stub

  /** `mov ax, selector` leaves the upper 48 bits of rax. */
  function WithLow16(w: Word, s: Selector): Word {
    w - w % 0x1_0000 + s
  }

  /** The frame on the stack when `irq_handler` is called: five words from the processor, the error
      code and vector of the IRQ macro, and what the stub pushes. */
  function Enter(cpu: Cpu, vector: Word): (frame: seq<Word>)
    ensures |frame| == 26
  {
    var pushed := PushRegs([vector, 0, cpu.rip, cpu.cs, cpu.rflags, cpu.rsp, cpu.ss], cpu.gpr, PushOrder());
    var ds := WithLow16(cpu.gpr(RAX), cpu.ds);
    var es := WithLow16(ds, cpu.es);
    [0, 0, es, ds] + pushed
  }

  /** The stub after `mov rsp, rax`: the processor state it resumes from the frame at the top of the
      stack. The registers at that moment are whatever the C code left. */
  function Leave(frame: seq<Word>, clobbered: Registers): Cpu
    requires |frame| == 26
  {
    var (rest, gpr) := PopRegs(frame[4..], clobbered, PopOrder());
    Cpu(gpr, frame[3] % 0x1_0000, frame[2] % 0x1_0000, rest[2], rest[3], rest[4], rest[5], rest[6])
  }

  /** The pushes lay out a registers_t: every register in its own field, then vector, error code and
      the five words of the processor; 26 words, the 208 bytes task_create reserves. */
  lemma EnterIsRegistersT(cpu: Cpu, vector: Word, r: Reg)
    ensures var f := Enter(cpu, vector);
            && 8 * |f| == Scheduler.FRAME_SIZE
            && f[FieldOf(r)] == cpu.gpr(r)
            && f[3] % 0x1_0000 == cpu.ds && f[2] % 0x1_0000 == cpu.es
            && f[19] == vector && f[20] == 0
            && f[21] == cpu.rip && f[22] == cpu.cs && f[23] == cpu.rflags && f[24] == cpu.rsp && f[25] == cpu.ss
  {
    OrdersMatch();
    FieldIsPopSlot(r);
    var base := [vector, 0, cpu.rip, cpu.cs, cpu.rflags, cpu.rsp, cpu.ss];
    PushedAt(base, cpu.gpr, PushOrder(), FieldOf(r) - 4);
    PushedTail(base, cpu.gpr);
    Low16(cpu.gpr(RAX), cpu.ds);
    Low16(WithLow16(cpu.gpr(RAX), cpu.ds), cpu.es);
  }

  lemma PushedTail(base: seq<Word>, gpr: Registers)
    ensures PushRegs(base, gpr, PushOrder())[15..] == base
  {
    forall i | 0 <= i < |base|
      ensures PushRegs(base, gpr, PushOrder())[15 + i] == base[i]
    {
      PushedAt(base, gpr, PushOrder(), 15 + i);
    }
  }

  lemma Low16(w: Word, s: Selector)
    ensures WithLow16(w, s) % 0x1_0000 == s
  {
    assert (w - w % 0x1_0000) % 0x1_0000 == 0;
  }

  /** The pops load the processor from the registers_t fields of any frame, whoever wrote it. */
  lemma LeaveLoadsRegistersT(f: seq<Word>, clobbered: Registers, r: Reg)
    requires |f| == 26
    ensures var c := Leave(f, clobbered);
            && c.gpr(r) == f[FieldOf(r)]
            && c.ds == f[3] % 0x1_0000 && c.es == f[2] % 0x1_0000
            && c.rip == f[21] && c.cs == f[22] && c.rflags == f[23] && c.rsp == f[24] && c.ss == f[25]
  {
    OrdersMatch();
    FieldIsPopSlot(r);
    assert Distinct(PopOrder());
    PoppedReg(f[4..], clobbered, PopOrder(), r);
    assert f[4..][15..] == f[19..];
  }

  /** The stub is transparent: a frame that is resumed unchanged gives back the interrupted processor
      state, register for register, whatever the C code did to the registers. */
  lemma StubRestores(cpu: Cpu, vector: Word, clobbered: Registers, r: Reg)
    ensures var c := Leave(Enter(cpu, vector), clobbered);
            && c.gpr(r) == cpu.gpr(r)
            && c.ds == cpu.ds && c.es == cpu.es
            && c.rip == cpu.rip && c.cs == cpu.cs && c.rflags == cpu.rflags && c.rsp == cpu.rsp && c.ss == cpu.ss
  {
    EnterIsRegistersT(cpu, vector, r);
    LeaveLoadsRegistersT(Enter(cpu, vector), clobbered, r);
  }

  function ClearedRegisters(): (z: seq<Word>)
    ensures |z| == 15 && forall i | 0 <= i < 15 :: z[i] == 0
  {
    seq(15, _ => 0)
  }

  /** The register frame `task_create` writes at the address `frame`. */
  function FirstFrame(frame: Word, entry: Word): (f: seq<Word>)
    ensures |f| == 26
  {
    [0x10, 0x10, 0x10, 0x10]
    + ClearedRegisters()
    + [0, 0, entry, 0x08, 0x202, frame, 0x10]
  }

  /** A new task starts at its entry point with interrupts on, cleared registers, kernel selectors and
      its stack pointer at its own frame. */
  lemma FirstFrameStartsTask(frame: Word, entry: Word, clobbered: Registers, r: Reg)
    ensures var c := Leave(FirstFrame(frame, entry), clobbered);
            && c.gpr(r) == 0 && c.rip == entry && c.rsp == frame
            && c.rflags == 0x202 && c.cs == 0x08 && c.ds == c.es == c.ss == 0x10
    ensures var f := FirstFrame(frame, entry); f[0] == f[1] == 0x10 && f[19] == f[20] == 0
  {
    hide Leave, PopOrder;
    LeaveLoadsRegistersT(FirstFrame(frame, entry), clobbered, r);
    FieldIsPopSlot(r);
    assert FirstFrame(frame, entry)[FieldOf(r)] == ClearedRegisters()[FieldOf(r) - 4];
  }
}
