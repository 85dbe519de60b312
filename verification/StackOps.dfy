/** theM's stack instructions byte by byte: what each opcode reads, where it goes and what it leaves. */
module StackOps {
  import opened Bytes
  import opened Mmu
  import opened StackMachine

  /** The byte k places after CS:IP, the offset wrapping at 16 bits. */
  predicate Byte(m: M, k: nat, b: u8) {
    var at := 16 * (m.r.cs as int) + (m.r.ip + k) % 0x1_0000;
    at < |m.mem| && m.mem[at] == b
  }

  /** The word at a linear address, its high byte first. */
  function WordAt(mem: seq<u8>, a: nat): int
    requires a + 1 < |mem|
  {
    0x100 * (mem[a] as int) + mem[a + 1]
  }

  function Linear(r: Regs): nat { 16 * (r.ss as int) + r.sp }

  lemma OpcodeAt(m: M, b: u8)
    requires Byte(m, 0, b)
    ensures m.r.CodeAddr(0) < |m.mem| && OpAt(m.mem, m.r) == Opcode(b)
  {
  }

  lemma OperandAt(m: M, lo: u8, hi: u8)
    requires Byte(m, 1, lo) && Byte(m, 2, hi)
    ensures m.r.CodeAddr(1) < |m.mem| && m.r.CodeAddr(2) < |m.mem| && Imm(m.mem, m.r) == lo + 0x100 * (hi as int)
  {
  }

  // ---- CALL and RET ------------------------------------------------------------

  /** E8 lo hi goes to the address lo + 256 * hi bytes after it, modulo 2^16, with the address after it on the stack. */
  lemma CallLands(m: M, l: Layout, lo: u8, hi: u8)
    requires l.Ok() && l.Safe(m) && Byte(m, 0, 0xE8) && Byte(m, 1, lo) && Byte(m, 2, hi)
    ensures CanStep(m)
    ensures var c := Step(m);
            && c.r == m.r.(ip := (m.r.ip + 3 + lo + 0x100 * (hi as int)) % 0x1_0000, sp := (m.r.sp - 2) % 0x1_0000)
            && 2 <= Linear(m.r) <= |c.mem| && WordAt(c.mem, Linear(m.r) - 2) == (m.r.ip + 3) % 0x1_0000
  {
    OpcodeAt(m, 0xE8);
    OperandAt(m, lo, hi);
    CallStep(m, l);
    AddTwice(m.r.ip, 3, lo + 0x100 * (hi as int));
  }

  lemma CallStep(m: M, l: Layout)
    requires l.Ok() && l.Safe(m) && OpAt(m.mem, m.r) == Call
    ensures CanStep(m) && m.r.CodeAddr(1) < |m.mem| && m.r.CodeAddr(2) < |m.mem|
    ensures var c := Step(m);
            && c.r == m.r.(ip := Add16(Add16(m.r.ip, 3), Imm(m.mem, m.r)), sp := (m.r.sp - 2) % 0x1_0000)
            && 2 <= Linear(m.r) <= |c.mem| && WordAt(c.mem, Linear(m.r) - 2) == Add16(m.r.ip, 3)
  {
    hide Opcode, Words, PushVal, CanPush, Add16, AbsStep;
    Fetched(m, l);
    CallSimulates(m, l);
    PushCons(Skip(m, 3), Skip(m, 3).r.ip, l);
  }

  lemma AddTwice(x: u16, a: nat, b: nat)
    ensures Add16(Add16(x, a), b) == (x + a + b) % 0x1_0000
  {
    var y := x + a;
    assert y == 0x1_0000 * (y / 0x1_0000) + y % 0x1_0000;
    ModShift(y / 0x1_0000, y % 0x1_0000 + b);
  }

  lemma ModShift(q: nat, r: nat)
    ensures (0x1_0000 * q + r) % 0x1_0000 == r % 0x1_0000
  {
  }

  /** The operand an assembler writes for a target, least significant byte first, lands on it. */
  lemma AssembledCall(m: M, l: Layout, target: u16, lo: u8, hi: u8)
    requires l.Ok() && l.Safe(m) && Byte(m, 0, 0xE8) && Byte(m, 1, lo) && Byte(m, 2, hi)
    requires var d := (target - m.r.ip - 3) % 0x1_0000; lo == d % 0x100 && hi == d / 0x100
    ensures CanStep(m) && Step(m).r.ip == target
  {
    CallLands(m, l, lo, hi);
    Distance(m.r.ip, target, (target - m.r.ip - 3) % 0x1_0000);
  }

  lemma Distance(ip: u16, target: u16, d: int)
    requires d == (target - ip - 3) % 0x1_0000
    ensures (ip + 3 + d) % 0x1_0000 == target
  {
    var q := (target - ip - 3) / 0x1_0000;
    assert ip + 3 + d == target - 0x1_0000 * q && q <= 0;
    ModShift(-q, target);
  }

  /** C3 goes to the word on top of the stack. */
  lemma RetLands(m: M, l: Layout)
    requires l.Ok() && l.Safe(m) && Byte(m, 0, 0xC3)
    ensures CanStep(m) && Linear(m.r) + 1 < |m.mem|
    ensures Step(m).mem == m.mem && Step(m).r == m.r.(ip := WordAt(m.mem, Linear(m.r)), sp := (m.r.sp + 2) % 0x1_0000)
  {
    OpcodeAt(m, 0xC3);
    assert OpAt(m.mem, m.r) == Ret;
    hide Opcode, Step, CanStep, OpAt, Layout.Safe, Byte;
    RetStep(m, l);
  }

  lemma RetStep(m: M, l: Layout)
    requires l.Ok() && l.Safe(m) && OpAt(m.mem, m.r) == Ret
    ensures CanStep(m) && Linear(m.r) + 1 < |m.mem|
    ensures Step(m).mem == m.mem && Step(m).r == m.r.(ip := WordAt(m.mem, Linear(m.r)), sp := (m.r.sp + 2) % 0x1_0000)
  {
    hide Opcode, Words;
    Fetched(m, l);
    PopUncons(Skip(m, 1), Reg.IP, l);
  }

  /** C2 lo hi does the same and then drops lo + 256 * hi more bytes. */
  lemma RetImmDrops(m: M, l: Layout, lo: u8, hi: u8)
    requires l.Ok() && l.Safe(m) && Byte(m, 0, 0xC2) && Byte(m, 1, lo) && Byte(m, 2, hi)
    ensures CanStep(m) && Linear(m.r) + 1 < |m.mem|
    ensures Step(m).mem == m.mem
    ensures Step(m).r == m.r.(ip := WordAt(m.mem, Linear(m.r)), sp := (m.r.sp + 2 + lo + 0x100 * (hi as int)) % 0x1_0000)
  {
    OpcodeAt(m, 0xC2);
    OperandAt(m, lo, hi);
    assert OpAt(m.mem, m.r) == RetImm;
    hide Opcode, Step, CanStep, OpAt, Layout.Safe, Byte;
    RetImmStep(m, l);
  }

  lemma RetImmStep(m: M, l: Layout)
    requires l.Ok() && l.Safe(m) && OpAt(m.mem, m.r) == RetImm
    ensures CanStep(m) && Linear(m.r) + 1 < |m.mem| && m.r.CodeAddr(1) < |m.mem| && m.r.CodeAddr(2) < |m.mem|
    ensures Step(m).mem == m.mem
    ensures Step(m).r == m.r.(ip := WordAt(m.mem, Linear(m.r)), sp := (m.r.sp + 2 + Imm(m.mem, m.r)) % 0x1_0000)
  {
    hide Opcode, Words, Imm;
    Fetched(m, l);
    PopUncons(Skip(m, 3), Reg.IP, l);
    assert Add16(PopReg(Skip(m, 3), Reg.IP).r.sp, Imm(m.mem, m.r)) == (m.r.sp + 2 + Imm(m.mem, m.r)) % 0x1_0000;
    hide Add16;
  }

  // ---- PUSH and POP -----------------------------------------------------------------

  /** The register an opcode pushes. */
  predicate Pushed(b: u8, r: Regs, v: u16) {
    match b
    case 0x50 => v == r.ax case 0x51 => v == r.cx case 0x52 => v == r.dx case 0x53 => v == r.bx
    case 0x54 => v == r.sp case 0x55 => v == r.bp case 0x56 => v == r.si case 0x57 => v == r.di
    case 0x0E => v == r.cs case 0x1E => v == r.ds case 0x06 => v == r.es case 0x9C => v == r.flags
    case 0x16 => v == r.dx
    case _ => false
  }

  lemma PushStores(m: M, l: Layout, b: u8, v: u16)
    requires l.Ok() && l.Safe(m) && Byte(m, 0, b) && Pushed(b, m.r, v)
    ensures CanStep(m)
    ensures var c := Step(m);
            && c.r == m.r.(ip := (m.r.ip + 1) % 0x1_0000, sp := (m.r.sp - 2) % 0x1_0000)
            && 2 <= Linear(m.r) <= |c.mem| && WordAt(c.mem, Linear(m.r) - 2) == v
  {
    OpcodeAt(m, b);
    PushStep(m, l);
  }

  lemma PushStep(m: M, l: Layout)
    requires l.Ok() && l.Safe(m) && OpAt(m.mem, m.r).Push?
    ensures CanStep(m)
    ensures var c := Step(m);
            && c.r == m.r.(ip := (m.r.ip + 1) % 0x1_0000, sp := (m.r.sp - 2) % 0x1_0000)
            && 2 <= Linear(m.r) <= |c.mem| && WordAt(c.mem, Linear(m.r) - 2) == Skip(m, 1).r.Get(OpAt(m.mem, m.r).reg)
  {
    hide Opcode, Words, PushVal, CanPush, Regs.Get;
    Fetched(m, l);
    PushCons(Skip(m, 1), Skip(m, 1).r.Get(OpAt(m.mem, m.r).reg), l);
  }

  /** The register an opcode pops into, written out. */
  predicate Popped(b: u8, r: Regs, n: Regs, v: u16) {
    match b
    case 0x58 => n == r.(ax := v) case 0x59 => n == r.(cx := v) case 0x5A => n == r.(dx := v) case 0x5B => n == r.(bx := v)
    case 0x5D => n == r.(bp := v) case 0x5E => n == r.(si := v) case 0x5F => n == r.(di := v)
    case 0x1F => n == r.(ds := v) case 0x07 => n == r.(es := v)
    case _ => false
  }

  lemma PopLoads(m: M, l: Layout, b: u8)
    requires l.Ok() && l.Safe(m) && Byte(m, 0, b)
    requires b in {0x58, 0x59, 0x5A, 0x5B, 0x5D, 0x5E, 0x5F, 0x1F, 0x07}
    ensures CanStep(m) && Linear(m.r) + 1 < |m.mem|
    ensures Step(m).mem == m.mem
    ensures Popped(b, m.r.(ip := (m.r.ip + 1) % 0x1_0000, sp := (m.r.sp + 2) % 0x1_0000), Step(m).r, WordAt(m.mem, Linear(m.r)))
  {
    OpcodeAt(m, b);
    var op := OpAt(m.mem, m.r);
    assert op.Pop?;
    hide Step, CanStep, OpAt, Layout.Safe, Byte, WordAt;
    PopStep(m, l);
    assert op == Opcode(b);
  }

  lemma PopStep(m: M, l: Layout)
    requires l.Ok() && l.Safe(m) && OpAt(m.mem, m.r).Pop?
    ensures CanStep(m) && Linear(m.r) + 1 < |m.mem|
    ensures Step(m).mem == m.mem
    ensures Step(m).r == m.r.(ip := (m.r.ip + 1) % 0x1_0000, sp := (m.r.sp + 2) % 0x1_0000).Set(OpAt(m.mem, m.r).reg, WordAt(m.mem, Linear(m.r)))
  {
    hide Opcode, Words, Regs.Set;
    Fetched(m, l);
    PopUncons(Skip(m, 1), OpAt(m.mem, m.r).reg, l);
    Add16In(m.r.sp, 2);
  }

  // ---- PUSHA and POPA ------------------------------------------------------------------

  lemma {:induction false} WordIn(mem: seq<u8>, lo: nat, base: nat, k: nat)
    requires lo + 2 * k + 1 < base <= |mem|
    ensures k < |Words(mem, lo, base)| && Words(mem, lo, base)[k] == WordAt(mem, lo + 2 * k)
    decreases k
  {
    if k > 0 {
      WordIn(mem, lo + 2, base, k - 1);
    }
  }

  ghost predicate SavedAt(mem: seq<u8>, a: int, r: Regs) {
    && 0 <= a && a + 16 <= |mem|
    && WordAt(mem, a) == r.di && WordAt(mem, a + 2) == r.si && WordAt(mem, a + 4) == r.bp && WordAt(mem, a + 6) == r.sp - 8
    && WordAt(mem, a + 8) == r.bx && WordAt(mem, a + 10) == r.dx && WordAt(mem, a + 12) == r.cx && WordAt(mem, a + 14) == r.ax
  }

  /** 60 leaves, from the top, DI, SI, BP, SP less the eight bytes already pushed, BX, DX, CX and AX. */
  lemma PushaStores(m: M, l: Layout)
    requires l.Ok() && l.Safe(m) && Byte(m, 0, 0x60)
    ensures CanStep(m)
    ensures Step(m).r == m.r.(ip := (m.r.ip + 1) % 0x1_0000, sp := (m.r.sp - 16) % 0x1_0000)
    ensures SavedAt(Step(m).mem, Linear(m.r) - 16, m.r)
  {
    hide Opcode, Step, CanStep, OpAt, Layout.Safe, Layout.Ok, Byte, Words, WordAt, SavedAt;
    IsPusha(m);
    PushaStep(m, l);
    SafeSp(m, l);
    FromList(Step(m).mem, Linear(m.r) - 16, l.base, m.r, l.Abs(m).st);
  }

  lemma IsPusha(m: M)
    requires Byte(m, 0, 0x60)
    ensures m.r.CodeAddr(0) < |m.mem| && OpAt(m.mem, m.r) == Pusha
  {
    OpcodeAt(m, 0x60);
  }

  lemma FromList(mem: seq<u8>, a: nat, base: nat, r: Regs, rest: seq<u16>)
    requires a + 16 <= base <= |mem| && 8 <= r.sp
    requires Words(mem, a, base) == [r.di, r.si, r.bp, Add16(r.sp, -8), r.bx, r.dx, r.cx, r.ax] + rest
    ensures SavedAt(mem, a, r)
  {
    hide WordAt, Words;
    EightWords(mem, a, base);
    Add16In(r.sp, -8);
  }

  lemma SafeSp(m: M, l: Layout)
    requires l.Ok() && l.Safe(m) && OpAt(m.mem, m.r) == Pusha
    ensures 16 <= m.r.sp && l.Holds(m) && l.base <= MEM_SIZE
  {
  }

  lemma EightWords(mem: seq<u8>, a: nat, base: nat)
    requires a + 16 <= base <= |mem|
    ensures var w := Words(mem, a, base);
            && |w| >= 8 && WordAt(mem, a) == w[0] && WordAt(mem, a + 2) == w[1] && WordAt(mem, a + 4) == w[2]
            && WordAt(mem, a + 6) == w[3] && WordAt(mem, a + 8) == w[4] && WordAt(mem, a + 10) == w[5]
            && WordAt(mem, a + 12) == w[6] && WordAt(mem, a + 14) == w[7]
  {
    hide Words, WordAt;
    WordIn(mem, a, base, 0);
    WordIn(mem, a, base, 1);
    WordIn(mem, a, base, 2);
    WordIn(mem, a, base, 3);
    WordIn(mem, a, base, 4);
    WordIn(mem, a, base, 5);
    WordIn(mem, a, base, 6);
    WordIn(mem, a, base, 7);
  }

  lemma PushaStep(m: M, l: Layout)
    requires l.Ok() && l.Safe(m) && OpAt(m.mem, m.r) == Pusha
    ensures CanStep(m)
    ensures var c, a := Step(m), Linear(m.r) - 16;
            && l.floor <= a && Linear(m.r) <= l.base <= |c.mem| && c.r == m.r.(ip := (m.r.ip + 1) % 0x1_0000, sp := (m.r.sp - 16) % 0x1_0000)
            && Words(c.mem, a, l.base)
               == [m.r.di, m.r.si, m.r.bp, Add16(m.r.sp, -8), m.r.bx, m.r.dx, m.r.cx, m.r.ax] + l.Abs(m).st
  {
    hide Words, PushAll, CanPushAll, A.ConsAll, AbsStep, Opcode;
    Fetched(m, l);
    PushaSimulates(m, l);
    PushAllCons(Skip(m, 1), PUSHA_ORDER, l);
    PushaList(l.Abs(m));
  }

  /** 61 loads them back, all but SP. */
  lemma PopaLoads(m: M, l: Layout)
    requires l.Ok() && l.Safe(m) && Byte(m, 0, 0x61)
    ensures CanStep(m) && Linear(m.r) + 16 <= |m.mem|
    ensures var a, n := Linear(m.r), Step(m).r;
            && n.di == WordAt(m.mem, a) && n.si == WordAt(m.mem, a + 2) && n.bp == WordAt(m.mem, a + 4)
            && n.bx == WordAt(m.mem, a + 8) && n.dx == WordAt(m.mem, a + 10) && n.cx == WordAt(m.mem, a + 12)
            && n.ax == WordAt(m.mem, a + 14) && n.sp == m.r.sp + 16 && n.ss == m.r.ss
  {
    OpcodeAt(m, 0x61);
    assert OpAt(m.mem, m.r) == Popa;
    hide Words, Step, CanStep, AbsStep, Opcode, OpAt, WordAt;
    PopaStep(m, l);
    PopaDepth(m, l);
    EightWords(m.mem, Linear(m.r), l.base);
    PopaList(m.r, Words(m.mem, Linear(m.r), l.base));
  }

  lemma PopaStep(m: M, l: Layout)
    requires l.Ok() && l.Safe(m) && OpAt(m.mem, m.r) == Popa
    ensures CanStep(m) && InMem(m) && Linear(m.r) + 16 <= l.base && l.base <= |m.mem|
    ensures |Words(m.mem, Linear(m.r), l.base)| >= 8
    ensures AbsStep(A(m.r, Words(m.mem, Linear(m.r), l.base)), Popa, 0).r == Step(m).r
  {
    hide Words, DoPopa, CanPopa, PopAll, CanPopAll, A.Popa, A.UnconsAll, AbsStep, Opcode;
    PopaSimulates(m, l);
  }
}
