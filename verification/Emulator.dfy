/** theM's CPU object: register fields and memory changed in place, each method tied to the machine of StackMachine. */
module Emulator {
  import opened Bytes
  import opened Mmu
  import opened StackMachine

  class Cpu {
    var AX: u16
    var BX: u16
    var CX: u16
    var DX: u16
    var SP: u16
    var BP: u16
    var SI: u16
    var DI: u16
    var CS: u16
    var DS: u16
    var ES: u16
    var SS: u16
    var FLAGS: u16
    var IP: u16

    ghost function Val(): Regs
      reads this
    {
      Regs(AX, BX, CX, DX, SP, BP, SI, DI, CS, DS, ES, SS, FLAGS, IP)
    }

    ghost function State(memory: Memory): M
      reads this, memory, memory.bytes
    {
      M(Val(), memory.bytes[..], memory.render_lock != 0)
    }

    /** The state main.c starts from. */
    constructor ()
      ensures CS == 0x1000 && DS == 0x1000 && SS == 0 && SP == 0xffff && IP == 0x0100
    {
      CS, DS, SS, SP, IP := 0x1000, 0x1000, 0, 0xffff, 0x0100;
      AX, BX, CX, DX, BP, SI, DI, ES, FLAGS := 0, 0, 0, 0, 0, 0, 0, 0, 0;
    }

    method GetNextByte(memory: Memory) returns (b: u8)
      requires memory.Valid() && Val().CodeAddr(0) < MEM_SIZE
      modifies this`IP
      ensures 16 * (CS as int) + old(IP) < MEM_SIZE && b == memory.bytes[16 * (CS as int) + old(IP)]
      ensures b == memory.bytes[old(Val()).CodeAddr(0)]
      ensures Val() == old(Val()).(ip := Add16(old(IP), 1)) && IP == (old(IP) + 1) % 0x1_0000
    {
      var addr := 16 * (CS as int) + IP;
      SameAddress(Val());
      IP := if IP == 0xffff then 0 else IP + 1;
      b := memory.MmuRead(addr);
    }

    static lemma SameAddress(r: Regs)
      ensures r.CodeAddr(0) == 16 * (r.cs as int) + r.ip
      ensures Add16(r.ip, 1) == if r.ip == 0xffff then 0 else r.ip + 1
    {
    }

    method PushReg(memory: Memory, reg: Reg)
      requires memory.Valid() && CanPush(State(memory))
      modifies this`SP, memory`render_lock, memory.bytes
      ensures memory.Valid() && State(memory) == StackMachine.PushReg(old(State(memory)), reg)
    {
      var stack_addr := 16 * (SS as int) + SP;
      var v := Value(reg);
      var hb, lb := v / 0x100, v % 0x100;
      memory.MmuWrite(stack_addr - 1, lb);
      memory.MmuWrite(stack_addr - 2, hb);
      SP := Add16(SP, -2);
    }

    /** The register switch of push_reg. */
    method Value(reg: Reg) returns (v: u16)
      ensures v == Val().Get(reg)
    {
      match reg
      case AX => v := AX;
      case BX => v := BX;
      case CX => v := CX;
      case DX => v := DX;
      case CS => v := CS;
      case DS => v := DS;
      case ES => v := ES;
      case SS => v := SS;
      case SP => v := SP;
      case BP => v := BP;
      case SI => v := SI;
      case DI => v := DI;
      case IP => v := IP;
      case FLAGS => v := FLAGS;
    }

    method PopReg(memory: Memory, reg: Reg)
      requires memory.Valid() && CanPop(State(memory))
      modifies this
      ensures State(memory) == StackMachine.PopReg(old(State(memory)), reg)
    {
      var stack_addr := 16 * (SS as int) + SP;
      var hb := memory.MmuRead(stack_addr);
      var lb := memory.MmuRead(stack_addr + 1);
      var v := Be16(hb, lb);
      SP := Add16(SP, 2);
      match reg
      case AX => AX := v;
      case BX => BX := v;
      case CX => CX := v;
      case DX => DX := v;
      case CS => CS := v;
      case DS => DS := v;
      case ES => ES := v;
      case SS => SS := v;
      case SP => SP := v;
      case BP => BP := v;
      case SI => SI := v;
      case DI => DI := v;
      case IP => IP := v;
      case FLAGS => FLAGS := v;
    }

    /** Adds a sign-extended displacement to IP. */
    method JumpShort(addr: u8)
      modifies this`IP
      ensures IP == (old(IP) + if addr < 0x80 then addr as int else addr as int - 0x100) % 0x1_0000
    {
      if addr > 0x7f {
        var d := addr - 0x80;
        IP := Add16(IP, -0x80);
        TwoJumps(old(IP), d);
        IP := Add16(IP, d);
        return;
      }
      IP := Add16(IP, addr);
    }

    static lemma TwoJumps(ip: u16, d: int)
      ensures Add16(Add16(ip, -0x80), d) == Add16(ip, d - 0x80)
    {
    }

    /** One turn of switch_opcode's loop on a stack instruction. */
    method ExecuteStackOp(memory: Memory)
      requires memory.Valid() && CanStep(State(memory))
      modifies this, memory`render_lock, memory.bytes
      ensures memory.Valid() && State(memory) == Step(old(State(memory)))
    {
      ghost var m := State(memory);
      var opcode := GetNextByte(memory);
      assert State(memory) == Skip(m, 1);
      match Opcode(opcode)
      case Push(reg) => PushReg(memory, reg);
      case Pop(reg) => PopReg(memory, reg);
      case Pusha => PushAllRegs(memory);
      case Popa => PopAllRegs(memory);
      case Call => CallRel16(memory, m);
      case Ret => RetNear(memory);
      case RetImm => RetImm16(memory, m);
      case Other => assert false;
    }

    method PushAllRegs(memory: Memory)
      requires memory.Valid() && CanPushAll(State(memory), PUSHA_ORDER)
      modifies this`SP, memory`render_lock, memory.bytes
      ensures memory.Valid() && State(memory) == PushAll(old(State(memory)), PUSHA_ORDER)
    {
      PushRegs(memory, [Reg.AX, Reg.CX, Reg.DX, Reg.BX, Reg.SP, Reg.BP, Reg.SI, Reg.DI]);
    }

    method PushRegs(memory: Memory, regs: seq<Reg>)
      requires memory.Valid() && CanPushAll(State(memory), regs)
      modifies this`SP, memory`render_lock, memory.bytes
      ensures memory.Valid() && State(memory) == PushAll(old(State(memory)), regs)
    {
      var i := 0;
      while i < |regs|
        invariant 0 <= i <= |regs| && memory.Valid()
        invariant CanPushAll(State(memory), regs[i..])
        invariant PushAll(State(memory), regs[i..]) == PushAll(old(State(memory)), regs)
      {
        assert regs[i..][1..] == regs[i + 1..];
        PushReg(memory, regs[i]);
        i := i + 1;
      }
    }

    method PopRegs(memory: Memory, regs: seq<Reg>)
      requires memory.Valid() && CanPopAll(State(memory), regs)
      modifies this
      ensures State(memory) == PopAll(old(State(memory)), regs)
    {
      var i := 0;
      while i < |regs|
        invariant 0 <= i <= |regs|
        invariant CanPopAll(State(memory), regs[i..])
        invariant PopAll(State(memory), regs[i..]) == PopAll(old(State(memory)), regs)
      {
        assert regs[i..][1..] == regs[i + 1..];
        PopReg(memory, regs[i]);
        i := i + 1;
      }
    }

    method PopAllRegs(memory: Memory)
      requires memory.Valid() && CanPopa(State(memory), POPA_FIRST, POPA_LAST)
      modifies this
      ensures State(memory) == DoPopa(old(State(memory)), POPA_FIRST, POPA_LAST)
    {
      PopRegs(memory, [Reg.DI, Reg.SI, Reg.BP]);
      SP := Add16(SP, 2);
      PopRegs(memory, [Reg.BX, Reg.DX, Reg.CX, Reg.AX]);
    }

    method CallRel16(memory: Memory, ghost m: M)
      requires memory.Valid() && CanStep(m) && OpAt(m.mem, m.r) == Call && State(memory) == Skip(m, 1)
      modifies this, memory`render_lock, memory.bytes
      ensures memory.Valid() && State(memory) == Step(m)
    {
      hide PushVal;
      Operands(m);
      var bl := GetNextByte(memory);
      var bh := GetNextByte(memory);
      PushReturn(memory);
      IP := Add16(IP, Be16(bh, bl));
    }

    /** The return address on the stack, low byte first. */
    method PushReturn(memory: Memory)
      requires memory.Valid() && CanPush(State(memory))
      modifies this`SP, memory`render_lock, memory.bytes
      ensures memory.Valid() && State(memory) == PushVal(old(State(memory)), old(IP))
    {
      hide Written;
      var stack := 16 * (SS as int) + SP;
      var ripl, riph := IP % 0x100, IP / 0x100;
      memory.MmuWrite(stack - 1, ripl);
      memory.MmuWrite(stack - 2, riph);
      SP := Add16(SP, -2);
    }

    /** Fetching byte by byte reaches the same addresses as counting from the opcode. */
    static lemma Operands(m: M)
      requires CanFetch(m, 3)
      ensures Skip(m, 1).r.CodeAddr(0) == m.r.CodeAddr(1) < MEM_SIZE
      ensures Skip(Skip(m, 1), 1) == Skip(m, 2) && Skip(m, 2).r.CodeAddr(0) == m.r.CodeAddr(2) < MEM_SIZE
      ensures Skip(Skip(m, 2), 1) == Skip(m, 3)
    {
    }

    method RetNear(memory: Memory)
      requires memory.Valid() && CanPop(State(memory))
      modifies this
      ensures State(memory) == StackMachine.PopReg(old(State(memory)), Reg.IP)
    {
      var stack := 16 * (SS as int) + SP;
      var riph := memory.MmuRead(stack);
      var ripl := memory.MmuRead(stack + 1);
      SP := Add16(SP, 2);
      IP := Be16(riph, ripl);
    }

    method RetImm16(memory: Memory, ghost m: M)
      requires memory.Valid() && CanStep(m) && OpAt(m.mem, m.r) == RetImm && State(memory) == Skip(m, 1)
      modifies this
      ensures State(memory) == Step(m)
    {
      Operands(m);
      var bl := GetNextByte(memory);
      var bh := GetNextByte(memory);
      RetNear(memory);
      SP := Add16(SP, Be16(bh, bl));
    }
  }
}
