/** theM's memory: a write into text memory redraws the screen, and redrawing writes memory again. */
module Mmu {
  import opened Bytes

  const MEM_SIZE: nat := 0x10_0000
  const TEXT_MODE_BASE: nat := 0xB8000
  const TEXT_MODE_ROWS: nat := 25
  const TEXT_MODE_COLS: nat := 80
  const CELLS: nat := 2000
  const SPACE: u8 := 0x20

  /** Address of the character byte of cell k; its attribute follows. */
  function Cell(k: nat): nat {
    TEXT_MODE_BASE + 2 * k
  }

  /** Memory after the first k cells were drawn: a cell with character 0 becomes a blank with attribute 0x20. */
  function Drawn(mem: seq<u8>, k: nat): (r: seq<u8>)
    requires |mem| == MEM_SIZE && k <= CELLS
    ensures |r| == MEM_SIZE
  {
    if k == 0 then mem
    else
      var p := Drawn(mem, k - 1);
      if p[Cell(k - 1)] == 0 then p[Cell(k - 1) := SPACE][Cell(k - 1) + 1 := SPACE] else p
  }

  function Rendered(mem: seq<u8>): (r: seq<u8>)
    requires |mem| == MEM_SIZE
    ensures |r| == MEM_SIZE
  {
    Drawn(mem, CELLS)
  }

  /** The addresses whose writes redraw the screen. */
  predicate Redraws(addr: nat) {
    TEXT_MODE_BASE <= addr <= TEXT_MODE_BASE + 2 * 80 * 24
  }

  /** mmu_write's effect on memory. */
  function Written(mem: seq<u8>, locked: bool, addr: nat, value: u8): (r: seq<u8>)
    requires |mem| == MEM_SIZE && addr < MEM_SIZE
    ensures |r| == MEM_SIZE
  {
    if Redraws(addr) && !locked then Rendered(mem[addr := value]) else mem[addr := value]
  }

  ghost predicate NoZeroCell(mem: seq<u8>)
    requires |mem| == MEM_SIZE
  {
    forall k :: 0 <= k < CELLS ==> mem[Cell(k)] != 0
  }

  /** Which cell a text address belongs to. */
  lemma CellOf(i: nat)
    requires TEXT_MODE_BASE <= i < Cell(CELLS)
    ensures var k := (i - TEXT_MODE_BASE) / 2; 0 <= k < CELLS && (i == Cell(k) || i == Cell(k) + 1)
  {
  }

  /** Byte i after the first n cells were drawn. */
  lemma {:induction false} DrawnAt(mem: seq<u8>, n: nat, i: nat)
    requires |mem| == MEM_SIZE && n <= CELLS && i < MEM_SIZE
    ensures Drawn(mem, n)[i] ==
      if TEXT_MODE_BASE <= i < Cell(n) && mem[Cell((i - TEXT_MODE_BASE) / 2)] == 0 then SPACE else mem[i]
  {
    if n > 0 {
      DrawnAt(mem, n - 1, i);
      DrawnAt(mem, n - 1, Cell(n - 1));
    }
  }

  /** Cell k after the first n cells were drawn. */
  lemma DrawnCell(mem: seq<u8>, n: nat, k: nat)
    requires |mem| == MEM_SIZE && n <= CELLS && k < CELLS
    ensures var d, blank := Drawn(mem, n), k < n && mem[Cell(k)] == 0;
            && d[Cell(k)] == (if blank then SPACE else mem[Cell(k)])
            && d[Cell(k) + 1] == (if blank then SPACE else mem[Cell(k) + 1])
  {
    DrawnAt(mem, n, Cell(k));
    DrawnAt(mem, n, Cell(k) + 1);
  }

  /** Rendering blanks exactly the zero cells, leaves everything else, and leaves none behind. */
  lemma RenderEffect(mem: seq<u8>)
    requires |mem| == MEM_SIZE
    ensures NoZeroCell(Rendered(mem))
    ensures forall k :: 0 <= k < CELLS && mem[Cell(k)] == 0 ==> Rendered(mem)[Cell(k)] == 0x20 && Rendered(mem)[Cell(k) + 1] == 0x20
    ensures forall k :: 0 <= k < CELLS && mem[Cell(k)] != 0 ==>
      Rendered(mem)[Cell(k)] == mem[Cell(k)] && Rendered(mem)[Cell(k) + 1] == mem[Cell(k) + 1]
    ensures forall i :: 0 <= i < MEM_SIZE && !(TEXT_MODE_BASE <= i < Cell(CELLS)) ==> Rendered(mem)[i] == mem[i]
  {
    forall i | 0 <= i < MEM_SIZE && !(TEXT_MODE_BASE <= i < Cell(CELLS)) ensures Rendered(mem)[i] == mem[i] {
      DrawnAt(mem, CELLS, i);
    }
    forall k | 0 <= k < CELLS
      ensures Rendered(mem)[Cell(k)] == (if mem[Cell(k)] == 0 then SPACE else mem[Cell(k)])
      ensures Rendered(mem)[Cell(k) + 1] == (if mem[Cell(k)] == 0 then SPACE else mem[Cell(k) + 1])
    {
      DrawnCell(mem, CELLS, k);
    }
  }

  lemma NoChange(mem: seq<u8>)
    requires |mem| == MEM_SIZE && NoZeroCell(mem)
    ensures Rendered(mem) == mem
  {
    forall i | 0 <= i < MEM_SIZE ensures Rendered(mem)[i] == mem[i] {
      DrawnAt(mem, CELLS, i);
      if TEXT_MODE_BASE <= i < Cell(CELLS) {
        CellOf(i);
      }
    }
  }

  /** Rendering changes nothing exactly when no cell is zero; so rendering again never does. */
  lemma RenderFixed(mem: seq<u8>)
    requires |mem| == MEM_SIZE
    ensures Rendered(mem) == mem <==> NoZeroCell(mem)
    ensures Rendered(Rendered(mem)) == Rendered(mem)
  {
    RenderEffect(mem);
    NoChange(Rendered(mem));
    if NoZeroCell(mem) {
      NoChange(mem);
    }
  }

  /** A write with the lock clear, on a screen that shows no zero cell: the screen keeps that property exactly unless
      a zero goes to a character of the last row past its first cell, whose writes do not redraw. */
  lemma WriteKeepsScreen(mem: seq<u8>, addr: nat, value: u8)
    requires |mem| == MEM_SIZE && addr < MEM_SIZE && NoZeroCell(mem)
    ensures NoZeroCell(Written(mem, false, addr, value)) <==>
      !(value == 0 && addr % 2 == 0 && 0xB_8000 + 2 * 80 * 24 < addr < 0xB_8000 + 2 * 80 * 25)
  {
    var w := mem[addr := value];
    if Redraws(addr) {
      RenderEffect(w);
    } else if value == 0 && addr % 2 == 0 && TEXT_MODE_BASE + 2 * 80 * 24 < addr < Cell(CELLS) {
      CellOf(addr);
      assert w[Cell((addr - TEXT_MODE_BASE) / 2)] == 0;
    }
  }

  /** What a redrawing write leaves: in its cell the written byte and the other one as it was, or a blank if the
      character is then zero; every cell whose character is not zero as it was, nothing outside text memory changed, no zero character anywhere. */
  lemma WriteEffect(mem: seq<u8>, addr: nat, value: u8)
    requires |mem| == MEM_SIZE && Redraws(addr)
    ensures var m := Written(mem, false, addr, value);
            && NoZeroCell(m)
            && (forall k :: 0 <= k < CELLS && mem[Cell(k)] != 0 && addr != Cell(k) && addr != Cell(k) + 1 ==>
                  m[Cell(k)] == mem[Cell(k)] && m[Cell(k) + 1] == mem[Cell(k) + 1])
            && (forall i :: 0 <= i < MEM_SIZE && !(TEXT_MODE_BASE <= i < Cell(CELLS)) ==> m[i] == mem[i])
            && var k := (addr - TEXT_MODE_BASE) / 2;
            && var other := if addr == Cell(k) then Cell(k) + 1 else Cell(k);
            && if mem[addr := value][Cell(k)] == 0 then m[addr] == m[other] == SPACE
               else m[addr] == value && m[other] == mem[other]
  {
    var w := mem[addr := value];
    RenderEffect(w);
    CellOf(addr);
    var k := (addr - TEXT_MODE_BASE) / 2;
    DrawnCell(w, CELLS, k);
  }

  // ---- the code ----------------------------------------------------------------

  class Memory {
    const bytes: array<u8>
    var render_lock: u8

    ghost predicate Valid()
      reads this
    {
      bytes.Length == MEM_SIZE
    }

    constructor ()
      ensures Valid() && render_lock == 0 && fresh(bytes)
    {
      bytes := new u8[MEM_SIZE];
      render_lock := 0;
    }

    /** The program's start offset is 0, so an address is its index. */
    method MmuRead(addr: nat) returns (value: u8)
      requires Valid() && addr < MEM_SIZE
      ensures value == bytes[addr]
    {
      value := bytes[addr];
    }

    method MmuWrite(addr: nat, value: u8)
      requires Valid() && addr < MEM_SIZE
      modifies this`render_lock, bytes
      ensures Valid() && render_lock == old(render_lock)
      ensures bytes[..] == Written(old(bytes[..]), old(render_lock) != 0, addr, value)
      decreases if render_lock == 0 then 3 else 0
    {
      bytes[addr] := value;
      assert bytes[..] == old(bytes[..])[addr := value];
      if Redraws(addr) && render_lock == 0 {
        var screen := RenderTextMode();
      }
    }

    /** The first n characters handed to printf are those in memory, none of them zero. */
    ghost predicate Shows(screen: array<u8>, n: nat)
      reads this, bytes, screen
    {
      Valid() && screen.Length == CELLS && n <= CELLS && forall k :: 0 <= k < n ==> screen[k] == bytes[Cell(k)] != 0
    }

    /** Draws all cells; a zero character is replaced through MmuWrite with the lock held, which is why the mutual
        recursion ends. Returns the text handed to printf. */
    method RenderTextMode() returns (screen: array<u8>)
      requires Valid() && render_lock == 0
      modifies this`render_lock, bytes
      ensures Valid() && render_lock == 0
      ensures bytes[..] == Rendered(old(bytes[..]))
      ensures fresh(screen) && Shows(screen, CELLS)
      decreases 2
    {
      screen := new u8[CELLS];
      ghost var mem, n := bytes[..], 0;
      var row := 0;
      while row < TEXT_MODE_ROWS
        invariant 0 <= row <= TEXT_MODE_ROWS && render_lock == 0 && fresh(screen) && n == 80 * row
        invariant bytes[..] == Drawn(mem, n) && Shows(screen, n)
      {
        n := DrawRow(mem, row, n, screen);
        row := row + 1;
      }
    }

    method DrawRow(ghost mem: seq<u8>, row: nat, ghost first: nat, screen: array<u8>) returns (ghost n: nat)
      requires render_lock == 0 && row < TEXT_MODE_ROWS && first == 80 * row && screen != bytes
      requires |mem| == MEM_SIZE && Shows(screen, first) && bytes[..] == Drawn(mem, first)
      modifies this`render_lock, bytes, screen
      ensures n == first + 80
      ensures render_lock == 0 && bytes[..] == Drawn(mem, n) && Shows(screen, n)
      decreases 1, 1
    {
      n := first;
      var col := 0;
      while col < TEXT_MODE_COLS
        invariant 0 <= col <= TEXT_MODE_COLS && render_lock == 0 && n == first + col
        invariant bytes[..] == Drawn(mem, n) && Shows(screen, n)
      {
        DrawCell(mem, n, row * TEXT_MODE_COLS + col, screen);
        n := n + 1;
        col := col + 1;
      }
    }

    method DrawCell(ghost mem: seq<u8>, ghost n: nat, k: nat, screen: array<u8>)
      requires render_lock == 0 && k == n < CELLS && screen != bytes
      requires |mem| == MEM_SIZE && Shows(screen, n) && bytes[..] == Drawn(mem, n)
      modifies this`render_lock, bytes, screen
      ensures render_lock == 0 && bytes[..] == Drawn(mem, n + 1) && Shows(screen, n + 1)
      decreases 1, 0
    {
      var offset := Cell(k);
      var ch := MmuRead(offset);
      screen[k] := ch;
      if ch == 0 {
        render_lock := 1;
        MmuWrite(offset, SPACE);
        MmuWrite(offset + 1, SPACE);
        screen[k] := SPACE;
        render_lock := 0;
      }
    }
  }
}
