/**
 * The virtual machine: a byte-addressed code memory read through
 * `read_bits`, a data memory of cells updated in place by the four
 * `execute_*` methods, `step`, `run` and the address loop of the memory dump.
 */
module Interpreter {
  import opened Wrappers
  import opened Bits
  import opened Instructions

  /** The data memory size `VirtualMachine()` uses when none is given. */
  const DefaultMemorySize: nat := 100000

  /**
   * What `step` and `run` raise: an `IndexError` on a data memory index, or
   * the `ValueError` for an opcode none of the four instructions has.
   */
  datatype Fault = IndexOutOfRange(index: int) | UnknownOpcode(opcode: nat, pc: nat)

  // ---------------------------------------------------------------------------
  // Decoding: the fields each `execute_*` method reads, at its own bit offsets

  function LoadConstAt(code: seq<Byte>, pc: nat): Instruction
  {
    LoadConst(ReadBits(code, pc, 7, 11), ReadBits(code, pc, 18, 26))
  }

  function ReadMemAt(code: seq<Byte>, pc: nat): Instruction
  {
    ReadMem(ReadBits(code, pc, 7, 8), ReadBits(code, pc, 15, 26), ReadBits(code, pc, 41, 26))
  }

  function WriteMemAt(code: seq<Byte>, pc: nat): Instruction
  {
    WriteMem(ReadBits(code, pc, 7, 26), ReadBits(code, pc, 33, 26))
  }

  function GteAt(code: seq<Byte>, pc: nat): Instruction
  {
    Gte(ReadBits(code, pc, 7, 8), ReadBits(code, pc, 15, 26), ReadBits(code, pc, 41, 26),
        ReadBits(code, pc, 67, 26), ReadBits(code, pc, 93, 8))
  }

  /** The opcode in bits 0-6 at `pc`. */
  function OpcodeAt(code: seq<Byte>, pc: nat): nat
  {
    ReadBits(code, pc, 0, 7)
  }

  /** The instruction `step` dispatches to at `pc`, or `None` for an unknown opcode. */
  function Decode(code: seq<Byte>, pc: nat): Option<Instruction>
  {
    var opcode := OpcodeAt(code, pc);
    if opcode == OpLoadConst then Some(LoadConstAt(code, pc))
    else if opcode == OpReadMem then Some(ReadMemAt(code, pc))
    else if opcode == OpWriteMem then Some(WriteMemAt(code, pc))
    else if opcode == OpGte then Some(GteAt(code, pc))
    else None
  }

  /**
   * Whatever bytes the code holds, a decoded instruction carries the opcode
   * it was dispatched on and operands within their constructor's ranges.
   */
  lemma DecodeValid(code: seq<Byte>, pc: nat)
    ensures Decode(code, pc).Some? <==> OpcodeAt(code, pc) in {OpLoadConst, OpReadMem, OpWriteMem, OpGte}
    ensures Decode(code, pc).Some? ==>
      Decode(code, pc).value.Valid() && Decode(code, pc).value.Opcode() == OpcodeAt(code, pc)
  {
    OperandWidths();
    var op := OpcodeAt(code, pc);
    if op == OpLoadConst {
      ReadBitsField(code, pc, 7, 11);
      ReadBitsField(code, pc, 18, 26);
    } else if op == OpReadMem {
      ReadBitsField(code, pc, 7, 8);
      ReadBitsField(code, pc, 15, 26);
      ReadBitsField(code, pc, 41, 26);
    } else if op == OpWriteMem {
      ReadBitsField(code, pc, 7, 26);
      ReadBitsField(code, pc, 33, 26);
    } else if op == OpGte {
      ReadBitsField(code, pc, 7, 8);
      ReadBitsField(code, pc, 15, 26);
      ReadBitsField(code, pc, 41, 26);
      ReadBitsField(code, pc, 67, 26);
      ReadBitsField(code, pc, 93, 8);
    }
  }

  // ---------------------------------------------------------------------------
  // The effect of one instruction on the data memory

  /**
   * The data memory after one instruction, reading and writing cells in the
   * order the `execute_*` methods do and raising on the first index past the
   * end; no cell is written unless every index was in range.
   */
  function Execute(i: Instruction, mem: seq<nat>): Result<seq<nat>, Fault>
  {
    match i
    case LoadConst(c, a) =>
      if a >= |mem| then Failure(IndexOutOfRange(a))
      else Success(mem[a := c])
    case ReadMem(o, s, d) =>
      if s >= |mem| then Failure(IndexOutOfRange(s))
      else
        var eff := mem[s] + o;
        if eff >= |mem| then Failure(IndexOutOfRange(eff))
        else if d >= |mem| then Failure(IndexOutOfRange(d))
        else Success(mem[d := mem[eff]])
    case WriteMem(s, d) =>
      if s >= |mem| then Failure(IndexOutOfRange(s))
      else if d >= |mem| then Failure(IndexOutOfRange(d))
      else Success(mem[d := mem[s]])
    case Gte(o1, a1, a2, r, o2) =>
      if a1 >= |mem| then Failure(IndexOutOfRange(a1))
      else
        var eff1 := mem[a1] + o1;
        if r >= |mem| then Failure(IndexOutOfRange(r))
        else
          var effRes := mem[r] + o2;
          if eff1 >= |mem| then Failure(IndexOutOfRange(eff1))
          else if a2 >= |mem| then Failure(IndexOutOfRange(a2))
          else if effRes >= |mem| then Failure(IndexOutOfRange(effRes))
          else Success(mem[effRes := if mem[eff1] >= mem[a2] then 1 else 0])
  }

  /** Every index the instruction reads or writes lies inside the memory. */
  predicate InBounds(i: Instruction, mem: seq<nat>)
  {
    match i
    case LoadConst(_, a) => a < |mem|
    case ReadMem(o, s, d) => s < |mem| && mem[s] + o < |mem| && d < |mem|
    case WriteMem(s, d) => s < |mem| && d < |mem|
    case Gte(o1, a1, a2, r, o2) =>
      a1 < |mem| && r < |mem| && mem[a1] + o1 < |mem| && a2 < |mem| && mem[r] + o2 < |mem|
  }

  /** The cell the instruction writes: direct for LOAD_CONST and the copies, `memory[res_addr] + offset2` for GTE. */
  function Target(i: Instruction, mem: seq<nat>): nat
    requires InBounds(i, mem)
  {
    match i
    case LoadConst(_, a) => a
    case ReadMem(_, _, d) => d
    case WriteMem(_, d) => d
    case Gte(_, _, _, r, o2) => mem[r] + o2
  }

  /** The value written, computed from the memory before the instruction. */
  function Value(i: Instruction, mem: seq<nat>): nat
    requires InBounds(i, mem)
  {
    match i
    case LoadConst(c, _) => c
    case ReadMem(o, s, _) => mem[mem[s] + o]
    case WriteMem(s, _) => mem[s]
    case Gte(o1, a1, a2, _, _) => if mem[mem[a1] + o1] >= mem[a2] then 1 else 0
  }

  /**
   * An instruction runs exactly when all its indices are in range; it then
   * writes its value into its target cell and changes no other cell, and
   * otherwise it raises on an index past the end and changes nothing.
   */
  lemma ExecuteSpec(i: Instruction, mem: seq<nat>)
    ensures Execute(i, mem).Success? <==> InBounds(i, mem)
    ensures InBounds(i, mem) ==> Execute(i, mem) == Success(mem[Target(i, mem) := Value(i, mem)])
    ensures Execute(i, mem).Failure? ==>
      Execute(i, mem).error.IndexOutOfRange? && Execute(i, mem).error.index >= |mem|
  {
  }

  /** All cells are valid 11-bit constants. */
  predicate CellsBounded(mem: seq<nat>)
  {
    forall j :: 0 <= j < |mem| ==> mem[j] < ConstantLimit
  }

  /**
   * Cells only ever receive a checked constant, a copy of a cell, or 0 or 1,
   * so memory that starts with 11-bit values keeps them.
   */
  lemma ExecuteBounded(i: Instruction, mem: seq<nat>)
    requires i.Valid() && CellsBounded(mem)
    ensures Execute(i, mem).Success? ==> CellsBounded(Execute(i, mem).value)
  {
    ExecuteSpec(i, mem);
  }

  // ---------------------------------------------------------------------------
  // One step and a whole run, as functions of the machine state

  datatype StepResult = Halted | Stepped(mem: seq<nat>, pc: nat) | Raised(fault: Fault)

  /** `step`: nothing at the end of the code, else decode at `pc`, execute, and move past the instruction. */
  function StepSpec(code: seq<Byte>, mem: seq<nat>, pc: nat): StepResult
  {
    if pc >= |code| then Halted
    else match Decode(code, pc)
      case None => Raised(UnknownOpcode(OpcodeAt(code, pc), pc))
      case Some(i) =>
        match Execute(i, mem)
        case Failure(f) => Raised(f)
        case Success(m) => Stepped(m, pc + i.Length())
  }

  /**
   * A step that runs moves `pc` by exactly the length of the instruction
   * whose opcode it found, and keeps the memory size; a step at or past the
   * end halts, and one on an unknown opcode raises naming that opcode.
   */
  lemma StepAdvances(code: seq<Byte>, mem: seq<nat>, pc: nat)
    ensures StepSpec(code, mem, pc).Halted? <==> pc >= |code|
    ensures pc < |code| && OpcodeAt(code, pc) !in {OpLoadConst, OpReadMem, OpWriteMem, OpGte} ==>
      StepSpec(code, mem, pc) == Raised(UnknownOpcode(OpcodeAt(code, pc), pc))
    ensures StepSpec(code, mem, pc).Stepped? ==>
      && |StepSpec(code, mem, pc).mem| == |mem|
      && var op := OpcodeAt(code, pc);
         StepSpec(code, mem, pc).pc == pc + (if op == OpLoadConst then 6 else if op == OpReadMem then 9
                                             else if op == OpWriteMem then 8 else 13)
  {
    DecodeValid(code, pc);
    if Decode(code, pc).Some? {
      ExecuteSpec(Decode(code, pc).value, mem);
    }
  }

  datatype Outcome = Outcome(mem: seq<nat>, pc: nat, fault: Option<Fault>)

  /** `run`: steps until one halts or raises. Every step moves `pc` forward, so this ends. */
  function RunSpec(code: seq<Byte>, mem: seq<nat>, pc: nat): Outcome
    decreases |code| - pc
  {
    match StepSpec(code, mem, pc)
    case Halted => Outcome(mem, pc, None)
    case Raised(f) => Outcome(mem, pc, Some(f))
    case Stepped(m, next) =>
      StepAdvances(code, mem, pc);
      RunSpec(code, m, next)
  }

  /** A run that does not raise stops with `pc` at or past the end of the code, and the memory keeps its size. */
  lemma {:induction false} RunEnds(code: seq<Byte>, mem: seq<nat>, pc: nat)
    ensures RunSpec(code, mem, pc).fault.None? ==> RunSpec(code, mem, pc).pc >= |code|
    ensures RunSpec(code, mem, pc).pc >= pc
    ensures |RunSpec(code, mem, pc).mem| == |mem|
    decreases |code| - pc
  {
    StepAdvances(code, mem, pc);
    match StepSpec(code, mem, pc)
    case Halted =>
    case Raised(_) =>
    case Stepped(m, next) =>
      RunEnds(code, m, next);
  }

  /** Memory that holds 11-bit values before a run holds them after it, however the run ends. */
  lemma {:induction false} RunBounded(code: seq<Byte>, mem: seq<nat>, pc: nat)
    requires CellsBounded(mem)
    ensures CellsBounded(RunSpec(code, mem, pc).mem)
    decreases |code| - pc
  {
    StepAdvances(code, mem, pc);
    match StepSpec(code, mem, pc)
    case Halted =>
    case Raised(_) =>
    case Stepped(m, next) =>
      DecodeValid(code, pc);
      ExecuteBounded(Decode(code, pc).value, mem);
      RunBounded(code, m, next);
  }

  // ---------------------------------------------------------------------------
  // The memory dump

  /** One `<cell>` of the dump: the address as given and the value found there. */
  datatype Cell = Cell(address: int, value: nat)

  /** `data_memory[addr]` on a Python list: negative indices count from the end. */
  function ListIndex(mem: seq<nat>, addr: int): Result<nat, Fault>
  {
    if 0 <= addr < |mem| then Success(mem[addr])
    else if -|mem| <= addr < 0 then Success(mem[|mem| + addr])
    else Failure(IndexOutOfRange(addr))
  }

  /** The cells the dump loop emits for `range(start, end + 1)`, skipping addresses not below the memory size. */
  function DumpSpec(mem: seq<nat>, start: int, end: int): Result<seq<Cell>, Fault>
    decreases end - start
  {
    if end < start then Success([])
    else match DumpSpec(mem, start, end - 1)
      case Failure(f) => Failure(f)
      case Success(cells) =>
        if end < |mem| then
          match ListIndex(mem, end)
          case Failure(f) => Failure(f)
          case Success(v) => Success(cells + [Cell(end, v)])
        else Success(cells)
  }

  /**
   * From a non-negative start the dump lists, in ascending order, every
   * address from `start` up to `end` that is inside the memory, with its value.
   */
  lemma {:induction false} DumpFromZero(mem: seq<nat>, start: nat, end: int)
    ensures DumpSpec(mem, start, end).Success?
    ensures var last := if end < |mem| then end else |mem| - 1;
      var cells := DumpSpec(mem, start, end).value;
      && |cells| == (if last < start then 0 else last - start + 1)
      && forall k :: 0 <= k < |cells| ==> start + k < |mem| && cells[k] == Cell(start + k, mem[start + k])
    decreases end - start
  {
    if end >= start {
      DumpFromZero(mem, start, end - 1);
    }
  }

  /** Once the dump raises at some address it raises the same way for every later end. */
  lemma {:induction false} DumpFailureSticks(mem: seq<nat>, start: int, mid: int, end: int)
    requires mid <= end && DumpSpec(mem, start, mid).Failure?
    ensures DumpSpec(mem, start, end) == DumpSpec(mem, start, mid)
    decreases end - mid
  {
    if mid < end {
      DumpFailureSticks(mem, start, mid, end - 1);
    }
  }

  /** A start below minus the memory size raises on the very first address, whatever the end. */
  lemma {:induction false} DumpTooNegative(mem: seq<nat>, start: int, end: int)
    requires start < -|mem| && start <= end
    ensures DumpSpec(mem, start, end) == Failure(IndexOutOfRange(start))
    decreases end - start
  {
    if end > start {
      DumpTooNegative(mem, start, end - 1);
    }
  }

  // ---------------------------------------------------------------------------
  // The machine

  /** Which of `step`'s two normal results it returned: `None` at the end of the code, or a trace line. */
  datatype Status = Finished | Executed

  class VirtualMachine {
    var dataMemory: array<nat>
    var codeMemory: seq<Byte>
    var pc: nat

    /** `VirtualMachine(memory_size)`: zeroed data memory, no code, `pc` at 0. */
    constructor(memorySize: nat := DefaultMemorySize)
      ensures fresh(dataMemory)
      ensures dataMemory[..] == seq(memorySize, _ => 0)
      ensures codeMemory == [] && pc == 0
    {
      dataMemory := new nat[memorySize](_ => 0);
      codeMemory := [];
      pc := 0;
    }

    /** `load_program`: replaces the code and rewinds `pc`; data memory is kept. */
    method LoadProgram(binaryCode: seq<Byte>)
      modifies this
      ensures codeMemory == binaryCode && pc == 0
      ensures dataMemory == old(dataMemory)
    {
      codeMemory := binaryCode;
      pc := 0;
    }

    /** `read_bits`: bits `[startBit, startBit + length)` of the code at `pc`. */
    function ReadBitsHere(startBit: nat, length: nat): nat
      reads this
    {
      ReadBits(codeMemory, pc, startBit, length)
    }

    /** The new state after `Execute(i, ...)` from `oldMem` and `oldPc`: moved on, or untouched with the fault. */
    ghost predicate ExecutedAs(i: Instruction, oldMem: seq<nat>, oldPc: nat, fault: Option<Fault>)
      reads this, dataMemory
    {
      match Execute(i, oldMem)
      case Success(m) => fault.None? && dataMemory[..] == m && pc == oldPc + i.Length()
      case Failure(f) => fault == Some(f) && dataMemory[..] == oldMem && pc == oldPc
    }

    /** `execute_load_const`: reads its two fields, then stores the constant. */
    method ExecuteLoadConst() returns (fault: Option<Fault>)
      modifies this`pc, dataMemory
      ensures ExecutedAs(LoadConstAt(codeMemory, old(pc)), old(dataMemory[..]), old(pc), fault)
    {
      var constant := ReadBitsHere(7, 11);
      var address := ReadBitsHere(18, 26);
      fault := LoadConstCells(constant, address);
    }

    /** The rest of `execute_load_const` once its fields are read: `memory[address] = constant`. */
    method LoadConstCells(constant: nat, address: nat) returns (fault: Option<Fault>)
      modifies this`pc, dataMemory
      ensures ExecutedAs(LoadConst(constant, address), old(dataMemory[..]), old(pc), fault)
    {
      if address >= dataMemory.Length {
        return Some(IndexOutOfRange(address));
      }
      dataMemory[address] := constant;
      pc := pc + 6;
      return None;
    }

    /** `execute_read_mem`: reads its three fields, then copies through the indirect address. */
    method ExecuteReadMem() returns (fault: Option<Fault>)
      modifies this`pc, dataMemory
      ensures ExecutedAs(ReadMemAt(codeMemory, old(pc)), old(dataMemory[..]), old(pc), fault)
    {
      var offset := ReadBitsHere(7, 8);
      var srcAddr := ReadBitsHere(15, 26);
      var dstAddr := ReadBitsHere(41, 26);
      fault := ReadMemCells(offset, srcAddr, dstAddr);
    }

    /** The rest of `execute_read_mem`: `memory[dst] = memory[memory[src] + offset]`. */
    method ReadMemCells(offset: nat, srcAddr: nat, dstAddr: nat) returns (fault: Option<Fault>)
      modifies this`pc, dataMemory
      ensures ExecutedAs(ReadMem(offset, srcAddr, dstAddr), old(dataMemory[..]), old(pc), fault)
    {
      if srcAddr >= dataMemory.Length {
        return Some(IndexOutOfRange(srcAddr));
      }
      var effectiveAddr := dataMemory[srcAddr] + offset;
      if effectiveAddr >= dataMemory.Length {
        return Some(IndexOutOfRange(effectiveAddr));
      }
      var value := dataMemory[effectiveAddr];
      if dstAddr >= dataMemory.Length {
        return Some(IndexOutOfRange(dstAddr));
      }
      dataMemory[dstAddr] := value;
      pc := pc + 9;
      return None;
    }

    /** `execute_write_mem`: reads its two fields, then copies the cell. */
    method ExecuteWriteMem() returns (fault: Option<Fault>)
      modifies this`pc, dataMemory
      ensures ExecutedAs(WriteMemAt(codeMemory, old(pc)), old(dataMemory[..]), old(pc), fault)
    {
      var srcAddr := ReadBitsHere(7, 26);
      var dstAddr := ReadBitsHere(33, 26);
      fault := WriteMemCells(srcAddr, dstAddr);
    }

    /** The rest of `execute_write_mem`: `memory[dst] = memory[src]`. */
    method WriteMemCells(srcAddr: nat, dstAddr: nat) returns (fault: Option<Fault>)
      modifies this`pc, dataMemory
      ensures ExecutedAs(WriteMem(srcAddr, dstAddr), old(dataMemory[..]), old(pc), fault)
    {
      if srcAddr >= dataMemory.Length {
        return Some(IndexOutOfRange(srcAddr));
      }
      var value := dataMemory[srcAddr];
      if dstAddr >= dataMemory.Length {
        return Some(IndexOutOfRange(dstAddr));
      }
      dataMemory[dstAddr] := value;
      pc := pc + 8;
      return None;
    }

    /** `execute_gte`: reads its five fields, then compares and stores the flag. */
    method ExecuteGte() returns (fault: Option<Fault>)
      modifies this`pc, dataMemory
      ensures ExecutedAs(GteAt(codeMemory, old(pc)), old(dataMemory[..]), old(pc), fault)
    {
      var offset1 := ReadBitsHere(7, 8);
      var addr1 := ReadBitsHere(15, 26);
      var addr2 := ReadBitsHere(41, 26);
      var resAddr := ReadBitsHere(67, 26);
      var offset2 := ReadBitsHere(93, 8);
      fault := GteCells(offset1, addr1, addr2, resAddr, offset2);
    }

    /**
     * The rest of `execute_gte`: both effective addresses and both operands
     * are read before the one write of `memory[addr1'] >= memory[addr2]`.
     */
    method GteCells(offset1: nat, addr1: nat, addr2: nat, resAddr: nat, offset2: nat) returns (fault: Option<Fault>)
      modifies this`pc, dataMemory
      ensures ExecutedAs(Gte(offset1, addr1, addr2, resAddr, offset2), old(dataMemory[..]), old(pc), fault)
    {
      if addr1 >= dataMemory.Length {
        return Some(IndexOutOfRange(addr1));
      }
      var effectiveAddr1 := dataMemory[addr1] + offset1;
      if resAddr >= dataMemory.Length {
        return Some(IndexOutOfRange(resAddr));
      }
      var effectiveResAddr := dataMemory[resAddr] + offset2;
      if effectiveAddr1 >= dataMemory.Length {
        return Some(IndexOutOfRange(effectiveAddr1));
      }
      var operand1 := dataMemory[effectiveAddr1];
      if addr2 >= dataMemory.Length {
        return Some(IndexOutOfRange(addr2));
      }
      var operand2 := dataMemory[addr2];
      var result := if operand1 >= operand2 then 1 else 0;
      if effectiveResAddr >= dataMemory.Length {
        return Some(IndexOutOfRange(effectiveResAddr));
      }
      dataMemory[effectiveResAddr] := result;
      pc := pc + 13;
      return None;
    }

    /** The new state and result of `step` agree with `StepSpec` from `oldMem` and `oldPc`. */
    ghost predicate SteppedAs(s: StepResult, oldMem: seq<nat>, oldPc: nat, r: Result<Status, Fault>)
      reads this, dataMemory
    {
      match s
      case Halted => r == Success(Finished) && dataMemory[..] == oldMem && pc == oldPc
      case Stepped(m, next) => r == Success(Executed) && dataMemory[..] == m && pc == next
      case Raised(f) => r == Failure(f) && dataMemory[..] == oldMem && pc == oldPc
    }

    /** `step`. */
    method Step() returns (r: Result<Status, Fault>)
      modifies this`pc, dataMemory
      ensures SteppedAs(StepSpec(codeMemory, old(dataMemory[..]), old(pc)), old(dataMemory[..]), old(pc), r)
    {
      if pc >= |codeMemory| {
        return Success(Finished);
      }
      var opcode := ReadBitsHere(0, 7);
      var fault: Option<Fault>;
      if opcode == OpLoadConst {
        fault := ExecuteLoadConst();
      } else if opcode == OpReadMem {
        fault := ExecuteReadMem();
      } else if opcode == OpWriteMem {
        fault := ExecuteWriteMem();
      } else if opcode == OpGte {
        fault := ExecuteGte();
      } else {
        return Failure(UnknownOpcode(opcode, pc));
      }
      if fault.Some? {
        return Failure(fault.value);
      }
      return Success(Executed);
    }

    /** `run`: steps until `pc` reaches the end of the code; a raised fault ends the run with the state it left. */
    method Run() returns (fault: Option<Fault>)
      modifies this`pc, dataMemory
      ensures RunSpec(codeMemory, old(dataMemory[..]), old(pc)) == Outcome(dataMemory[..], pc, fault)
    {
      while pc < |codeMemory|
        invariant RunSpec(codeMemory, dataMemory[..], pc) == RunSpec(codeMemory, old(dataMemory[..]), old(pc))
        decreases |codeMemory| - pc
      {
        ghost var before, at := dataMemory[..], pc;
        StepAdvances(codeMemory, before, at);
        var r := Step();
        if r.Failure? {
          return Some(r.error);
        }
        if r.value == Finished {
          break;
        }
      }
      return None;
    }

    /** The address loop of `dump_memory_xml`: the cells written to the dump, in order. */
    method DumpRange(start: int, end: int) returns (r: Result<seq<Cell>, Fault>)
      ensures r == DumpSpec(dataMemory[..], start, end)
    {
      var cells: seq<Cell> := [];
      var addr := start;
      while addr < end + 1
        invariant start <= addr <= end + 1 || (end < start && addr == start)
        invariant DumpSpec(dataMemory[..], start, addr - 1) == Success(cells)
        decreases end + 1 - addr
      {
        if addr < dataMemory.Length {
          if addr < -dataMemory.Length {
            DumpFailureSticks(dataMemory[..], start, addr, end);
            return Failure(IndexOutOfRange(addr));
          }
          var value := if addr >= 0 then dataMemory[addr] else dataMemory[dataMemory.Length + addr];
          cells := cells + [Cell(addr, value)];
        }
        addr := addr + 1;
      }
      return Success(cells);
    }
  }
}
