/** theM's stack instructions over segmented memory, refined to a list of words. */
module StackMachine {
  import opened Bytes
  import opened Mmu

  datatype Reg = AX | BX | CX | DX | CS | DS | ES | SS | SP | BP | SI | DI | IP | FLAGS

  datatype Regs = Regs(ax: u16, bx: u16, cx: u16, dx: u16, sp: u16, bp: u16, si: u16, di: u16,
                       cs: u16, ds: u16, es: u16, ss: u16, flags: u16, ip: u16)
  {
    function Get(reg: Reg): u16 {
      match reg
      case AX => ax case BX => bx case CX => cx case DX => dx
      case CS => cs case DS => ds case ES => es case SS => ss
      case SP => sp case BP => bp case SI => si case DI => di
      case IP => ip case FLAGS => flags
    }

    function Set(reg: Reg, v: u16): Regs {
      match reg
      case AX => this.(ax := v) case BX => this.(bx := v) case CX => this.(cx := v) case DX => this.(dx := v)
      case CS => this.(cs := v) case DS => this.(ds := v) case ES => this.(es := v) case SS => this.(ss := v)
      case SP => this.(sp := v) case BP => this.(bp := v) case SI => this.(si := v) case DI => this.(di := v)
      case IP => this.(ip := v) case FLAGS => this.(flags := v)
    }

    function StackAddr(): nat { 16 * (ss as int) + sp }

    /** Linear address of the k-th byte from CS:IP, the offset wrapping at 16 bits. */
    function CodeAddr(k: nat): nat { 16 * (cs as int) + Add16(ip, k) }
  }

  function Add16(x: u16, d: int): u16 { (x + d) % M16 }

  /** Registers, memory and the render lock. */
  datatype M = M(r: Regs, mem: seq<u8>, locked: bool)

  datatype Op = Push(reg: Reg) | Pop(reg: Reg) | Pusha | Popa | Call | Ret | RetImm | Other

  /** The opcodes of the stack instructions. PUSH SS pushes DX, as op_codes.c has it. */
  function Opcode(b: u8): Op {
    match b
    case 0x50 => Push(AX) case 0x51 => Push(CX) case 0x52 => Push(DX) case 0x53 => Push(BX)
    case 0x54 => Push(SP) case 0x55 => Push(BP) case 0x56 => Push(SI) case 0x57 => Push(DI)
    case 0x0E => Push(CS) case 0x1E => Push(DS) case 0x06 => Push(ES) case 0x16 => Push(DX) case 0x9C => Push(FLAGS)
    case 0x58 => Pop(AX) case 0x59 => Pop(CX) case 0x5A => Pop(DX) case 0x5B => Pop(BX)
    case 0x5C => Pop(SP) case 0x5D => Pop(BP) case 0x5E => Pop(SI) case 0x5F => Pop(DI)
    case 0x1F => Pop(DS) case 0x07 => Pop(ES) case 0x17 => Pop(SS)
    case 0x60 => Pusha case 0x61 => Popa
    case 0xE8 => Call case 0xC3 => Ret case 0xC2 => RetImm
    case _ => Other
  }

  const PUSHA_ORDER: seq<Reg> := [AX, CX, DX, BX, SP, BP, SI, DI]
  const POPA_FIRST: seq<Reg> := [DI, SI, BP]
  const POPA_LAST: seq<Reg> := [BX, DX, CX, AX]

  // ---- the machine -----------------------------------------------------------

  predicate InMem(m: M) { |m.mem| == MEM_SIZE }

  predicate CanPush(m: M) { InMem(m) && 2 <= m.r.StackAddr() <= MEM_SIZE }

  predicate CanPop(m: M) { InMem(m) && m.r.StackAddr() + 2 <= MEM_SIZE }

  /** Low byte first, then the high byte below it. */
  function PushVal(m: M, v: u16): M
    requires CanPush(m)
  {
    var a := m.r.StackAddr();
    M(m.r.(sp := Add16(m.r.sp, -2)),
      Written(Written(m.mem, m.locked, a - 1, v % 0x100), m.locked, a - 2, v / 0x100), m.locked)
  }

  function Top(m: M): u16
    requires CanPop(m)
  {
    Be16(m.mem[m.r.StackAddr()], m.mem[m.r.StackAddr() + 1])
  }

  function Drop(m: M, bytes: nat): M {
    m.(r := m.r.(sp := Add16(m.r.sp, bytes)))
  }

  function PushReg(m: M, reg: Reg): M
    requires CanPush(m)
  {
    PushVal(m, m.r.Get(reg))
  }

  function PopReg(m: M, reg: Reg): M
    requires CanPop(m)
  {
    var d := Drop(m, 2);
    d.(r := d.r.Set(reg, Top(m)))
  }

  predicate CanPushAll(m: M, regs: seq<Reg>)
    decreases |regs|
  {
    regs == [] || (CanPush(m) && CanPushAll(PushReg(m, regs[0]), regs[1..]))
  }

  function PushAll(m: M, regs: seq<Reg>): M
    requires CanPushAll(m, regs)
    decreases |regs|
  {
    if regs == [] then m else PushAll(PushReg(m, regs[0]), regs[1..])
  }

  predicate CanPopAll(m: M, regs: seq<Reg>)
    decreases |regs|
  {
    regs == [] || (CanPop(m) && CanPopAll(PopReg(m, regs[0]), regs[1..]))
  }

  function PopAll(m: M, regs: seq<Reg>): M
    requires CanPopAll(m, regs)
    decreases |regs|
  {
    if regs == [] then m else PopAll(PopReg(m, regs[0]), regs[1..])
  }

  /** POPA: pops, skips the saved SP, pops. */
  predicate CanPopa(m: M, first: seq<Reg>, last: seq<Reg>) {
    CanPopAll(m, first) && CanPopAll(Drop(PopAll(m, first), 2), last)
  }

  function DoPopa(m: M, first: seq<Reg>, last: seq<Reg>): M
    requires CanPopa(m, first, last)
  {
    PopAll(Drop(PopAll(m, first), 2), last)
  }

  predicate CanFetch(m: M, n: nat) {
    InMem(m) && forall k :: 0 <= k < n ==> m.r.CodeAddr(k) < MEM_SIZE
  }

  function Skip(m: M, n: nat): M {
    m.(r := m.r.(ip := Add16(m.r.ip, n)))
  }

  /** The 16-bit operand after the opcode, low byte first. */
  function Imm(mem: seq<u8>, r: Regs): u16
    requires r.CodeAddr(1) < |mem| && r.CodeAddr(2) < |mem|
  {
    Be16(mem[r.CodeAddr(2)], mem[r.CodeAddr(1)])
  }

  function Length(op: Op): nat {
    if op.Call? || op.RetImm? then 3 else 1
  }

  function OpAt(mem: seq<u8>, r: Regs): Op
    requires r.CodeAddr(0) < |mem|
  {
    Opcode(mem[r.CodeAddr(0)])
  }

  /** The memory accesses of the next instruction exist, and it is a stack instruction. */
  predicate CanStep(m: M) {
    && CanFetch(m, 1)
    && var op := OpAt(m.mem, m.r);
    && op != Other && CanFetch(m, Length(op))
    && var n := Skip(m, Length(op));
    && match op
       case Push(_) => CanPush(n)
       case Pop(_) => CanPop(n)
       case Pusha => CanPushAll(n, PUSHA_ORDER)
       case Popa => CanPopa(n, POPA_FIRST, POPA_LAST)
       case Call => CanPush(n)
       case Ret => CanPop(n)
       case RetImm => CanPop(n)
  }

  function Step(m: M): M
    requires CanStep(m)
  {
    var op := OpAt(m.mem, m.r);
    var n := Skip(m, Length(op));
    match op
    case Push(reg) => PushReg(n, reg)
    case Pop(reg) => PopReg(n, reg)
    case Pusha => PushAll(n, PUSHA_ORDER)
    case Popa => DoPopa(n, POPA_FIRST, POPA_LAST)
    case Call =>
      var p := PushVal(n, n.r.ip);
      p.(r := p.r.(ip := Add16(p.r.ip, Imm(m.mem, m.r))))
    case Ret => PopReg(n, IP)
    case RetImm => Drop(PopReg(n, IP), Imm(m.mem, m.r))
  }

  // ---- the abstract machine: registers and a list of words -----------------------

  datatype A = A(r: Regs, st: seq<u16>)
  {
    function Cons(v: u16): A { A(r.(sp := Add16(r.sp, -2)), [v] + st) }

    function Uncons(reg: Reg): A
      requires st != []
    {
      A(r.(sp := Add16(r.sp, 2)).Set(reg, st[0]), st[1..])
    }

    function Cut(n: nat): A
      requires n <= |st|
    {
      A(r.(sp := Add16(r.sp, 2 * n)), st[n..])
    }

    function ConsAll(regs: seq<Reg>): (a: A)
      ensures |a.st| == |st| + |regs|
      decreases |regs|
    {
      if regs == [] then this else Cons(r.Get(regs[0])).ConsAll(regs[1..])
    }

    function UnconsAll(regs: seq<Reg>): (a: A)
      requires |regs| <= |st|
      ensures |a.st| == |st| - |regs|
      decreases |regs|
    {
      if regs == [] then this else Uncons(regs[0]).UnconsAll(regs[1..])
    }

    function Popa(first: seq<Reg>, last: seq<Reg>): (a: A)
      requires |first| + 1 + |last| <= |st|
      ensures |a.st| == |st| - |first| - 1 - |last|
    {
      UnconsAll(first).Cut(1).UnconsAll(last)
    }
  }

  /** Words an instruction pushes and pops. */
  function Pushes(op: Op): nat {
    match op case Push(_) => 1 case Pusha => 8 case Call => 1 case _ => 0
  }

  function Pops(op: Op, imm: u16): nat {
    match op case Pop(_) => 1 case Popa => 8 case Ret => 1 case RetImm => 1 + imm / 2 case _ => 0
  }

  function AbsStep(a: A, op: Op, imm: u16): A
    requires Pops(op, imm) <= |a.st|
  {
    var n := A(a.r.(ip := Add16(a.r.ip, Length(op))), a.st);
    match op
    case Push(reg) => n.Cons(n.r.Get(reg))
    case Pop(reg) => n.Uncons(reg)
    case Pusha => n.ConsAll(PUSHA_ORDER)
    case Popa => n.Popa(POPA_FIRST, POPA_LAST)
    case Call =>
      var p := n.Cons(n.r.ip);
      p.(r := p.r.(ip := Add16(p.r.ip, imm)))
    case Ret => n.Uncons(IP)
    case RetImm => n.Uncons(IP).Cut(imm / 2)
    case Other => n
  }

  /** Memory from lo up to base as words, high byte at the lower address. */
  function Words(mem: seq<u8>, lo: nat, base: nat): (w: seq<u16>)
    requires lo <= base <= |mem|
    ensures |w| == (base - lo) / 2
    decreases base - lo
  {
    if lo + 1 >= base then [] else [Be16(mem[lo], mem[lo + 1])] + Words(mem, lo + 2, base)
  }

  lemma {:induction false} WordsSame(mem: seq<u8>, mem': seq<u8>, lo: nat, base: nat)
    requires lo <= base <= |mem| == |mem'| && forall i :: lo <= i < base ==> mem[i] == mem'[i]
    ensures Words(mem, lo, base) == Words(mem', lo, base)
    decreases base - lo
  {
    if lo + 1 < base {
      WordsSame(mem, mem', lo + 2, base);
    }
  }

  lemma {:induction false} WordsDrop(mem: seq<u8>, lo: nat, base: nat, n: nat)
    requires lo + 2 * n <= base <= |mem|
    ensures Words(mem, lo, base)[n..] == Words(mem, lo + 2 * n, base)
    decreases n
  {
    if n > 0 {
      WordsDrop(mem, lo + 2, base, n - 1);
      assert Words(mem, lo, base)[n..] == Words(mem, lo + 2, base)[n - 1..];
    }
  }

  // ---- where the stack lies -------------------------------------------------------

  /** The stack occupies [floor, base), apart from the code [code, end) and from the addresses that redraw. */
  datatype Layout = Layout(floor: nat, base: nat, code: nat, end: nat)
  {
    ghost predicate Ok() {
      && floor <= base <= MEM_SIZE && code <= end <= MEM_SIZE
      && (base <= code || end <= floor)
      && forall i :: floor <= i < base ==> !Redraws(i)
    }

    /** A whole number of words above SS:SP. */
    predicate Holds(m: M) {
      InMem(m) && floor <= m.r.StackAddr() <= base && (base - m.r.StackAddr()) % 2 == 0
    }

    /** The next instruction is in the code, is none of POP SP and POP SS, and neither leaves the stack area nor wraps SP. */
    predicate Safe(m: M) {
      && Holds(m) && code <= m.r.CodeAddr(0) < end <= MEM_SIZE
      && var op := OpAt(m.mem, m.r);
      && op != Other && op != Pop(SP) && op != Pop(SS)
      && (Length(op) == 3 ==> code <= m.r.CodeAddr(1) < end && code <= m.r.CodeAddr(2) < end)
      && var imm := if Length(op) == 3 then Imm(m.mem, m.r) else 0;
      && (op == RetImm ==> imm % 2 == 0)
      && floor + 2 * Pushes(op) <= m.r.StackAddr() && 2 * Pushes(op) <= m.r.sp
      && m.r.StackAddr() + 2 * Pops(op, imm) <= base && m.r.sp + 2 * Pops(op, imm) < M16
    }

    function Abs(m: M): A
      requires Holds(m) && base <= MEM_SIZE
    {
      A(m.r, Words(m.mem, m.r.StackAddr(), base))
    }
  }

  lemma Add16In(x: u16, d: int)
    requires 0 <= x + d < M16
    ensures Add16(x, d) == x + d
  {
  }

  /** push conses: only the two bytes below SS:SP change. */
  lemma PushCons(m: M, v: u16, l: Layout)
    requires l.Ok() && l.Holds(m) && l.floor + 2 <= m.r.StackAddr() && 2 <= m.r.sp
    ensures CanPush(m)
    ensures var n := PushVal(m, v);
            && l.Holds(n) && n.r == m.r.(sp := m.r.sp - 2) && n.locked == m.locked
            && l.Abs(n) == l.Abs(m).Cons(v) && Be16(n.mem[m.r.StackAddr() - 2], n.mem[m.r.StackAddr() - 1]) == v
            && forall i :: 0 <= i < MEM_SIZE && !(m.r.StackAddr() - 2 <= i < m.r.StackAddr()) ==> n.mem[i] == m.mem[i]
  {
    var a, n := m.r.StackAddr(), PushVal(m, v);
    Add16In(m.r.sp, -2);
    assert n.mem == m.mem[a - 1 := v % 0x100][a - 2 := v / 0x100];
    WordsSame(m.mem, n.mem, a, l.base);
    assert Be16(n.mem[a - 2], n.mem[a - 1]) == v;
  }

  /** pop unconses. */
  lemma PopUncons(m: M, reg: Reg, l: Layout)
    requires l.Ok() && l.Holds(m) && m.r.StackAddr() + 2 <= l.base && m.r.sp + 2 < M16
    requires reg != SP && reg != SS
    ensures CanPop(m)
    ensures var n := PopReg(m, reg);
            && l.Holds(n) && n.mem == m.mem && n.locked == m.locked
            && n.r.StackAddr() == m.r.StackAddr() + 2 && n.r.sp == m.r.sp + 2 && n.r.ss == m.r.ss
            && l.Abs(n) == l.Abs(m).Uncons(reg)
  {
    Add16In(m.r.sp, 2);
    assert Words(m.mem, m.r.StackAddr(), l.base)[1..] == Words(m.mem, m.r.StackAddr() + 2, l.base);
  }

  lemma {:induction false} PushAllCons(m: M, regs: seq<Reg>, l: Layout)
    requires l.Ok() && l.Holds(m) && l.floor + 2 * |regs| <= m.r.StackAddr() && 2 * |regs| <= m.r.sp
    ensures CanPushAll(m, regs)
    ensures var n := PushAll(m, regs);
            && l.Holds(n) && n.r == m.r.(sp := m.r.sp - 2 * |regs|) && n.locked == m.locked
            && l.Abs(n) == l.Abs(m).ConsAll(regs)
            && forall i :: 0 <= i < MEM_SIZE && !(l.floor <= i < m.r.StackAddr()) ==> n.mem[i] == m.mem[i]
    decreases |regs|
  {
    if regs != [] {
      PushCons(m, m.r.Get(regs[0]), l);
      PushAllCons(PushReg(m, regs[0]), regs[1..], l);
    }
  }

  lemma {:induction false} PopAllUncons(m: M, regs: seq<Reg>, l: Layout)
    requires l.Ok() && l.Holds(m) && m.r.StackAddr() + 2 * |regs| <= l.base && m.r.sp + 2 * |regs| < M16
    requires SP !in regs && SS !in regs
    ensures CanPopAll(m, regs)
    ensures var n := PopAll(m, regs);
            && l.Holds(n) && n.mem == m.mem && n.locked == m.locked
            && n.r.StackAddr() == m.r.StackAddr() + 2 * |regs| && n.r.sp == m.r.sp + 2 * |regs| && n.r.ss == m.r.ss
            && l.Abs(n) == l.Abs(m).UnconsAll(regs)
    decreases |regs|
  {
    if regs != [] {
      PopUncons(m, regs[0], l);
      PopAllUncons(PopReg(m, regs[0]), regs[1..], l);
    }
  }

  lemma DropCuts(m: M, n: nat, l: Layout)
    requires l.Ok() && l.Holds(m) && m.r.StackAddr() + 2 * n <= l.base && m.r.sp + 2 * n < M16
    ensures var d := Drop(m, 2 * n);
            && l.Holds(d) && d.mem == m.mem && d.r.sp == m.r.sp + 2 * n && d.r.ss == m.r.ss && l.Abs(d) == l.Abs(m).Cut(n)
  {
    Add16In(m.r.sp, 2 * n);
    WordsDrop(m.mem, m.r.StackAddr(), l.base, n);
  }

  /** What one safe instruction does to the layout, to SP and to memory at and above SS:SP. */
  ghost predicate Framed(m: M, n: M, l: Layout) {
    && l.Holds(m) && l.Holds(n) && n.r.ss == m.r.ss
    && n.r.StackAddr() - n.r.sp == m.r.StackAddr() - m.r.sp
    && forall i :: 0 <= i < MEM_SIZE && (!(l.floor <= i < l.base) || m.r.StackAddr() <= i) ==> n.mem[i] == m.mem[i]
  }

  function Operand(m: M, op: Op): u16
    requires CanFetch(m, Length(op))
  {
    if Length(op) == 3 then Imm(m.mem, m.r) else 0
  }

  /** The step of m is its abstract counterpart, and keeps to the layout. */
  ghost predicate Simulates(m: M, l: Layout)
    requires l.Ok()
  {
    && CanStep(m) && Framed(m, Step(m), l)
    && var op := OpAt(m.mem, m.r);
    && Pops(op, Operand(m, op)) <= |l.Abs(m).st|
    && l.Abs(Step(m)) == AbsStep(l.Abs(m), op, Operand(m, op))
  }

  lemma Fetched(m: M, l: Layout)
    requires l.Ok() && l.Safe(m)
    ensures var op := OpAt(m.mem, m.r);
            var n := Skip(m, Length(op));
            && CanFetch(m, Length(op)) && l.Holds(n) && l.Abs(n) == A(n.r, l.Abs(m).st)
            && n.mem == m.mem && n.r == m.r.(ip := Add16(m.r.ip, Length(op)))
  {
  }

  lemma PushSimulates(m: M, l: Layout)
    requires l.Ok() && l.Safe(m) && OpAt(m.mem, m.r).Push?
    ensures Simulates(m, l)
  {
    hide Words, PushVal, CanPush, Add16;
    var n := Skip(m, 1);
    Fetched(m, l);
    PushCons(n, n.r.Get(OpAt(m.mem, m.r).reg), l);
  }

  lemma CallSimulates(m: M, l: Layout)
    requires l.Ok() && l.Safe(m) && OpAt(m.mem, m.r).Call?
    ensures Simulates(m, l)
  {
    hide Words, PushVal, CanPush, Add16;
    var n := Skip(m, 3);
    Fetched(m, l);
    PushCons(n, n.r.ip, l);
  }

  lemma PopSimulates(m: M, l: Layout)
    requires l.Ok() && l.Safe(m) && (OpAt(m.mem, m.r).Pop? || OpAt(m.mem, m.r).Ret?)
    ensures Simulates(m, l)
  {
    var op := OpAt(m.mem, m.r);
    Fetched(m, l);
    PopUncons(Skip(m, 1), if op.Pop? then op.reg else IP, l);
  }

  /** A pop into IP and then n words dropped. */
  lemma PopThenCut(m: M, words: nat, l: Layout)
    requires l.Ok() && l.Holds(m) && m.r.StackAddr() + 2 + 2 * words <= l.base && m.r.sp + 2 + 2 * words < M16
    ensures CanPop(m)
    ensures var n := Drop(PopReg(m, IP), 2 * words);
            && l.Holds(n) && n.mem == m.mem && n.r.ss == m.r.ss && n.r.sp == m.r.sp + 2 + 2 * words
            && l.Abs(n) == l.Abs(m).Uncons(IP).Cut(words)
  {
    PopUncons(m, IP, l);
    DropCuts(PopReg(m, IP), words, l);
  }

  lemma RetImmSimulates(m: M, l: Layout)
    requires l.Ok() && l.Safe(m) && OpAt(m.mem, m.r).RetImm?
    ensures Simulates(m, l)
  {
    var words := Imm(m.mem, m.r) / 2;
    assert Imm(m.mem, m.r) == 2 * words;
    Fetched(m, l);
    PopThenCut(Skip(m, 3), words, l);
  }

  lemma PushaSimulates(m: M, l: Layout)
    requires l.Ok() && l.Safe(m) && OpAt(m.mem, m.r).Pusha?
    ensures Simulates(m, l)
  {
    hide Words, PushAll, CanPushAll, A.ConsAll;
    Fetched(m, l);
    PushAllCons(Skip(m, 1), PUSHA_ORDER, l);
  }

  /** POPA's shape: pops, a skipped word, pops. */
  lemma PopSkipPop(m: M, first: seq<Reg>, last: seq<Reg>, l: Layout)
    requires l.Ok() && l.Holds(m) && SP !in first && SS !in first && SP !in last && SS !in last
    requires var n := 2 * (|first| + 1 + |last|); m.r.StackAddr() + n <= l.base && m.r.sp + n < M16
    ensures CanPopa(m, first, last)
    ensures var n := DoPopa(m, first, last);
            && l.Holds(n) && n.mem == m.mem && n.r.ss == m.r.ss && n.r.sp == m.r.sp + 2 * (|first| + 1 + |last|)
            && l.Abs(n) == l.Abs(m).Popa(first, last)
  {
    PopAllUncons(m, first, l);
    DropCuts(PopAll(m, first), 1, l);
    PopAllUncons(Drop(PopAll(m, first), 2), last, l);
  }

  lemma PopaSimulates(m: M, l: Layout)
    requires l.Ok() && l.Safe(m) && OpAt(m.mem, m.r).Popa?
    ensures Simulates(m, l)
  {
    hide Words, DoPopa, CanPopa, PopAll, CanPopAll, A.Popa, A.UnconsAll;
    Fetched(m, l);
    PopSkipPop(Skip(m, 1), POPA_FIRST, POPA_LAST, l);
  }

  /** Simulation: a safe instruction is its abstract counterpart on the list of words. */
  lemma StepRefines(m: M, l: Layout)
    requires l.Ok() && l.Safe(m)
    ensures Simulates(m, l)
  {
    match OpAt(m.mem, m.r)
    case Push(_) => PushSimulates(m, l);
    case Pop(_) => PopSimulates(m, l);
    case Pusha => PushaSimulates(m, l);
    case Popa => PopaSimulates(m, l);
    case Call => CallSimulates(m, l);
    case Ret => PopSimulates(m, l);
    case RetImm => RetImmSimulates(m, l);
  }

  // ---- runs -----------------------------------------------------------------------

  /** A turn of the interpreter: a stack instruction, or another one with what it leaves in registers and memory. */
  datatype Turn = Stack | Local(r: Regs, mem: seq<u8>)

  /** Stack instructions are safe; others keep SS and SP, and write neither the stack area nor the code. */
  ghost predicate Allowed(m: M, t: Turn, l: Layout)
    requires l.Ok()
  {
    match t
    case Stack => l.Safe(m)
    case Local(r, mem) =>
      && r.ss == m.r.ss && r.sp == m.r.sp && |mem| == |m.mem| == MEM_SIZE
      && forall i :: l.floor <= i < l.base || l.code <= i < l.end ==> mem[i] == m.mem[i]
  }

  ghost function After(m: M, t: Turn, l: Layout): M
    requires l.Ok() && Allowed(m, t, l)
  {
    match t
    case Stack => (StepRefines(m, l); Step(m))
    case Local(r, mem) => M(r, mem, m.locked)
  }

  ghost predicate SafeRun(m: M, ts: seq<Turn>, l: Layout)
    requires l.Ok()
    decreases |ts|
  {
    ts == [] || (Allowed(m, ts[0], l) && SafeRun(After(m, ts[0], l), ts[1..], l))
  }

  ghost function Run(m: M, ts: seq<Turn>, l: Layout): M
    requires l.Ok() && SafeRun(m, ts, l)
    decreases |ts|
  {
    if ts == [] then m else Run(After(m, ts[0], l), ts[1..], l)
  }

  predicate CanAbs(code: seq<u8>, a: A) {
    && a.r.CodeAddr(0) < |code|
    && (Length(OpAt(code, a.r)) == 3 ==> a.r.CodeAddr(1) < |code| && a.r.CodeAddr(2) < |code|)
    && Pops(OpAt(code, a.r), AbsOperand(code, a)) <= |a.st|
  }

  function AbsOperand(code: seq<u8>, a: A): u16
    requires a.r.CodeAddr(0) < |code|
    requires Length(OpAt(code, a.r)) == 3 ==> a.r.CodeAddr(1) < |code| && a.r.CodeAddr(2) < |code|
  {
    if Length(OpAt(code, a.r)) == 3 then Imm(code, a.r) else 0
  }

  /** The abstract machine on a fixed program: of another instruction it sees the registers, its list stays. */
  function AbsTurn(code: seq<u8>, a: A, t: Turn): A {
    match t
    case Stack => if CanAbs(code, a) then AbsStep(a, OpAt(code, a.r), AbsOperand(code, a)) else a
    case Local(r, _) => A(r, a.st)
  }

  function AbsRun(code: seq<u8>, a: A, ts: seq<Turn>): A
    decreases |ts|
  {
    if ts == [] then a else AbsRun(code, AbsTurn(code, a, ts[0]), ts[1..])
  }

  lemma TurnRefines(m: M, t: Turn, l: Layout, code: seq<u8>)
    requires l.Ok() && Allowed(m, t, l) && l.Holds(m)
    requires |code| == MEM_SIZE && forall i :: l.code <= i < l.end ==> code[i] == m.mem[i]
    ensures var n := After(m, t, l);
            && l.Holds(n) && l.Abs(n) == AbsTurn(code, l.Abs(m), t)
            && (forall i :: l.code <= i < l.end ==> n.mem[i] == m.mem[i])
            && (t.Stack? ==> forall i :: 0 <= i < MEM_SIZE && !(l.floor <= i < l.base) ==> n.mem[i] == m.mem[i])
  {
    hide Step, AbsStep, CanStep, Opcode, Words;
    match t
    case Stack =>
      StepRefines(m, l);
      assert OpAt(code, m.r) == OpAt(m.mem, m.r);
    case Local(r, mem) =>
      WordsSame(m.mem, mem, m.r.StackAddr(), l.base);
  }

  /** Stack refinement over every safe run, whatever else the program does between its stack instructions: memory from
      SS:SP up to the base is the list the abstract machine computes; the code stays, and so does all other memory
      outside the stack area unless another instruction writes it. */
  lemma {:induction false} StackRefinement(m: M, ts: seq<Turn>, l: Layout, code: seq<u8>)
    requires l.Ok() && SafeRun(m, ts, l) && l.Holds(m)
    requires |code| == MEM_SIZE && forall i :: l.code <= i < l.end ==> code[i] == m.mem[i]
    ensures l.Holds(Run(m, ts, l)) && l.Abs(Run(m, ts, l)) == AbsRun(code, l.Abs(m), ts)
    ensures forall i :: l.code <= i < l.end ==> Run(m, ts, l).mem[i] == m.mem[i]
    ensures (forall t :: t in ts ==> t.Stack?) ==>
      forall i :: 0 <= i < MEM_SIZE && !(l.floor <= i < l.base) ==> Run(m, ts, l).mem[i] == m.mem[i]
    decreases |ts|
  {
    hide After, AbsTurn, Allowed, Words;
    if ts != [] {
      TurnRefines(m, ts[0], l, code);
      StackRefinement(After(m, ts[0], l), ts[1..], l, code);
    }
  }

  /** SS:SP stays at or below x throughout the run. */
  ghost predicate Below(m: M, ts: seq<Turn>, l: Layout, x: nat)
    requires l.Ok() && SafeRun(m, ts, l)
    decreases |ts|
  {
    m.r.StackAddr() <= x && (ts == [] || Below(After(m, ts[0], l), ts[1..], l, x))
  }

  lemma TurnKeeps(m: M, t: Turn, l: Layout)
    requires l.Ok() && Allowed(m, t, l) && l.Holds(m)
    ensures var n := After(m, t, l);
            && l.Holds(n) && n.r.ss == m.r.ss && n.r.StackAddr() - n.r.sp == m.r.StackAddr() - m.r.sp
            && forall i :: m.r.StackAddr() <= i < l.base ==> n.mem[i] == m.mem[i]
  {
    hide Step, AbsStep, CanStep, Opcode, Words;
    if t.Stack? {
      StepRefines(m, l);
    }
  }

  /** A run that stays below x changes nothing of the stack at or above x, nor SS. */
  lemma {:induction false} BelowKeeps(m: M, ts: seq<Turn>, l: Layout, x: nat)
    requires l.Ok() && SafeRun(m, ts, l) && l.Holds(m) && Below(m, ts, l, x)
    ensures var e := Run(m, ts, l);
            && l.Holds(e) && e.r.ss == m.r.ss && e.r.StackAddr() - e.r.sp == m.r.StackAddr() - m.r.sp
            && forall i :: x <= i < l.base ==> e.mem[i] == m.mem[i]
    decreases |ts|
  {
    hide After, Allowed;
    if ts != [] {
      TurnKeeps(m, ts[0], l);
      BelowKeeps(After(m, ts[0], l), ts[1..], l, x);
    }
  }

  /** What a call leaves on top of the stack. */
  lemma CallPushes(m: M, l: Layout)
    requires l.Ok() && l.Safe(m) && OpAt(m.mem, m.r) == Call
    ensures CanStep(m)
    ensures var c := Step(m);
            && l.Holds(c) && c.r.StackAddr() + 2 == m.r.StackAddr() && c.r.sp + 2 == m.r.sp && c.r.ss == m.r.ss
            && Be16(c.mem[c.r.StackAddr()], c.mem[c.r.StackAddr() + 1]) == Add16(m.r.ip, 3)
            && forall i :: m.r.StackAddr() <= i < MEM_SIZE ==> c.mem[i] == m.mem[i]
  {
    StepRefines(m, l);
    Fetched(m, l);
    PushCons(Skip(m, 3), Skip(m, 3).r.ip, l);
    var c := Step(m);
    assert Words(c.mem, c.r.StackAddr(), l.base)[0] == Add16(m.r.ip, 3);
  }

  lemma RetPops(m: M, l: Layout)
    requires l.Ok() && l.Safe(m) && OpAt(m.mem, m.r) == Ret
    ensures CanStep(m)
    ensures var f := Step(m);
            && f.mem == m.mem && f.r.sp == m.r.sp + 2 && f.r.ss == m.r.ss && m.r.StackAddr() + 1 < MEM_SIZE
            && f.r.ip == Be16(m.mem[m.r.StackAddr()], m.mem[m.r.StackAddr() + 1])
  {
    Fetched(m, l);
    PopUncons(Skip(m, 1), IP, l);
  }

  /** Balanced CALL/RET: after a call, any code that never pops its return address, ended by a RET at the same depth,
      continues right after the CALL with SP and the caller's stack as they were. */
  lemma CallReturns(m: M, ts: seq<Turn>, l: Layout)
    requires l.Ok() && l.Safe(m) && OpAt(m.mem, m.r) == Call && CanStep(m)
    requires SafeRun(Step(m), ts, l) && Below(Step(m), ts, l, Step(m).r.StackAddr())
    requires var e := Run(Step(m), ts, l);
             e.r.StackAddr() == Step(m).r.StackAddr() && l.Safe(e) && OpAt(e.mem, e.r) == Ret
    ensures var e := Run(Step(m), ts, l);
            && CanStep(e)
            && var f := Step(e);
            && f.r.ip == Add16(m.r.ip, 3) && f.r.sp == m.r.sp && f.r.ss == m.r.ss
            && forall i :: m.r.StackAddr() <= i < l.base ==> f.mem[i] == m.mem[i]
  {
    hide Step, CanStep, Add16, Run, SafeRun, Below;
    CallPushes(m, l);
    BelowKeeps(Step(m), ts, l, Step(m).r.StackAddr());
    RetPops(Run(Step(m), ts, l), l);
  }

  lemma PushaUnrolled(n: A)
    ensures var p := n.Cons(n.r.ax).Cons(n.r.cx).Cons(n.r.dx).Cons(n.r.bx);
            n.ConsAll(PUSHA_ORDER) == p.Cons(p.r.sp).Cons(p.r.bp).Cons(p.r.si).Cons(p.r.di)
  {
    hide Add16;
  }

  lemma PushaList(a: A)
    ensures AbsStep(a, Pusha, 0).st == [a.r.di, a.r.si, a.r.bp, Add16(a.r.sp, -8), a.r.bx, a.r.dx, a.r.cx, a.r.ax] + a.st
  {
    hide Add16, A.ConsAll;
    var n := A(a.r.(ip := Add16(a.r.ip, 1)), a.st);
    PushaUnrolled(n);
    FourPushes(a.r.sp);
    var p := n.Cons(n.r.ax).Cons(n.r.cx).Cons(n.r.dx).Cons(n.r.bx);
    assert p.st == [a.r.bx, a.r.dx, a.r.cx, a.r.ax] + a.st;
  }

  lemma FourPushes(x: u16)
    ensures Add16(Add16(Add16(Add16(x, -2), -2), -2), -2) == Add16(x, -8)
  {
  }

  lemma PopaList(r: Regs, w: seq<u16>)
    requires |w| >= 8
    ensures var q := AbsStep(A(r, w), Popa, 0);
            && q.st == w[8..] && q.r.di == w[0] && q.r.si == w[1] && q.r.bp == w[2]
            && q.r.bx == w[4] && q.r.dx == w[5] && q.r.cx == w[6] && q.r.ax == w[7]
  {
    var n := A(r.(ip := Add16(r.ip, 1)), w);
    var f := n.UnconsAll(POPA_FIRST);
    assert f == n.Uncons(DI).Uncons(SI).Uncons(BP);
    assert f.st == w[3..] && f.r.di == w[0] && f.r.si == w[1] && f.r.bp == w[2];
    var c := f.Cut(1);
    assert c.st == w[4..];
    assert c.UnconsAll(POPA_LAST) == c.Uncons(BX).Uncons(DX).Uncons(CX).Uncons(AX);
  }

  /** On lists: POPA on what PUSHA pushed gives back the registers PUSHA saved. */
  lemma PopaUndoesPusha(a: A, r: Regs)
    ensures var p := AbsStep(a, Pusha, 0);
            && |p.st| == |a.st| + 8
            && var q := AbsStep(A(r, p.st), Popa, 0);
            && q.st == a.st && q.r.ax == a.r.ax && q.r.bx == a.r.bx && q.r.cx == a.r.cx && q.r.dx == a.r.dx
            && q.r.bp == a.r.bp && q.r.si == a.r.si && q.r.di == a.r.di
  {
    hide AbsStep;
    PushaList(a);
    PopaList(r, AbsStep(a, Pusha, 0).st);
  }

  /** POPA restores the eight general registers saved by PUSHA, whatever safe code ran in between, as long as it never
      popped what PUSHA pushed and left SS:SP where PUSHA had put it. */
  lemma PopaRestores(m: M, ts: seq<Turn>, l: Layout)
    requires l.Ok() && l.Safe(m) && OpAt(m.mem, m.r) == Pusha && CanStep(m)
    requires SafeRun(Step(m), ts, l) && Below(Step(m), ts, l, Step(m).r.StackAddr())
    requires var e := Run(Step(m), ts, l);
             e.r.StackAddr() == Step(m).r.StackAddr() && l.Safe(e) && OpAt(e.mem, e.r) == Popa
    ensures var e := Run(Step(m), ts, l);
            && CanStep(e)
            && var r := Step(e).r;
            && r.ax == m.r.ax && r.bx == m.r.bx && r.cx == m.r.cx && r.dx == m.r.dx
            && r.sp == m.r.sp && r.bp == m.r.bp && r.si == m.r.si && r.di == m.r.di && r.ss == m.r.ss
  {
    hide Step, AbsStep, CanStep, Opcode, Words;
    StepRefines(m, l);
    var c := Step(m);
    var e := Run(c, ts, l);
    BelowKeeps(c, ts, l, c.r.StackAddr());
    WordsSame(c.mem, e.mem, c.r.StackAddr(), l.base);
    StepRefines(e, l);
    PopaUndoesPusha(l.Abs(m), e.r);
    PushaDepth(m, l);
    PopaDepth(e, l);
  }

  lemma PushaDepth(m: M, l: Layout)
    requires l.Ok() && l.Safe(m) && OpAt(m.mem, m.r) == Pusha && CanStep(m)
    ensures Step(m).r.sp == m.r.sp - 16 && Step(m).r.ss == m.r.ss
  {
    hide Words;
    Fetched(m, l);
    PushAllCons(Skip(m, 1), PUSHA_ORDER, l);
  }

  lemma PopaDepth(m: M, l: Layout)
    requires l.Ok() && l.Safe(m) && OpAt(m.mem, m.r) == Popa && CanStep(m)
    ensures Step(m).r.sp == m.r.sp + 16 && Step(m).r.ss == m.r.ss
  {
    hide Words, DoPopa, CanPopa, PopAll, CanPopAll, A.Popa, A.UnconsAll;
    Fetched(m, l);
    PopSkipPop(Skip(m, 1), POPA_FIRST, POPA_LAST, l);
  }
}
