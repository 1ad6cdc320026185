/**
 * The cross-file contract between the assembler and the virtual machine:
 * the bit offsets `to_bytes` packs each operand at are the offsets the
 * matching `execute_*` method reads it back from, so a machine loaded with
 * the output of `to_binary` runs the assembled instructions one by one.
 */
module RoundTrip {
  import opened Wrappers
  import opened Bits
  import opened Instructions
  import opened Assembler
  import opened Interpreter
  import opened Seqs

  /** Every field of every layout ends within the instruction's bytes. */
  lemma FieldWithin(i: Instruction, k: nat)
    requires k < |Fields(i)|
    ensures Fields(i)[k].offset + Fields(i)[k].width <= 8 * i.Length()
  {
    LayoutContiguous(i);
    if k + 1 < |Fields(i)| {
      ContiguousOrder(Fields(i), k, |Fields(i)| - 1);
    }
  }

  /**
   * Whatever bytes precede and follow an encoded instruction, `read_bits`
   * at the instruction's start recovers each field of its layout.
   */
  lemma ReadEncodedField(pre: seq<Byte>, i: Instruction, post: seq<Byte>, k: nat)
    requires i.Valid() && k < |Fields(i)|
    ensures ReadBits(pre + Encode(i) + post, |pre|, Fields(i)[k].offset, Fields(i)[k].width) == Fields(i)[k].value
  {
    FieldWithin(i, k);
    ReadBitsWithin(pre, Encode(i), post, Fields(i)[k].offset, Fields(i)[k].width);
    EncodeFields(i, k);
  }

  /** Code whose bits at `pc` hold every field of `i`'s layout decodes to `i`. */
  lemma DecodeFields(code: seq<Byte>, pc: nat, i: Instruction)
    requires forall k :: 0 <= k < |Fields(i)| ==>
      ReadBits(code, pc, Fields(i)[k].offset, Fields(i)[k].width) == Fields(i)[k].value
    ensures Decode(code, pc) == Some(i)
  {
    var fs := Fields(i);
    assert OpcodeAt(code, pc) == i.Opcode() by {
      assert fs[0] == Field(i.Opcode(), 0, 7);
    }
    match i
    case LoadConst(c, a) =>
      assert fs[1] == Field(c, 7, 11) && fs[2] == Field(a, 18, 26);
    case WriteMem(s, d) =>
      assert fs[1] == Field(s, 7, 26) && fs[2] == Field(d, 33, 26);
    case ReadMem(o, s, d) =>
      assert fs[1] == Field(o, 7, 8) && fs[2] == Field(s, 15, 26) && fs[3] == Field(d, 41, 26);
    case Gte(o1, a1, a2, r, o2) =>
      assert fs[1] == Field(o1, 7, 8) && fs[2] == Field(a1, 15, 26) && fs[3] == Field(a2, 41, 26);
      assert fs[4] == Field(r, 67, 26) && fs[5] == Field(o2, 93, 8);
  }

  /**
   * Decoding at the start of an encoded instruction gives that instruction
   * back, wherever in the code it sits: the opcode selects the right
   * `execute_*` method and that method's `read_bits` calls recover every operand.
   */
  lemma DecodeEncode(pre: seq<Byte>, i: Instruction, post: seq<Byte>)
    requires i.Valid()
    ensures Decode(pre + Encode(i) + post, |pre|) == Some(i)
  {
    forall k | 0 <= k < |Fields(i)|
      ensures ReadBits(pre + Encode(i) + post, |pre|, Fields(i)[k].offset, Fields(i)[k].width) == Fields(i)[k].value
    {
      ReadEncodedField(pre, i, post, k);
    }
    DecodeFields(pre + Encode(i) + post, |pre|, i);
  }

  /** The instruction-level meaning of a program: each instruction in turn until one raises. */
  function ExecuteFrom(prog: seq<Instruction>, mem: seq<nat>, pc: nat): Outcome
  {
    if prog == [] then Outcome(mem, pc, None)
    else match Execute(prog[0], mem)
      case Failure(f) => Outcome(mem, pc, Some(f))
      case Success(m) => ExecuteFrom(prog[1..], m, pc + prog[0].Length())
  }

  /** The encoding of a program whose first instruction is `i`. */
  lemma BinaryCons(i: Instruction, rest: seq<Instruction>)
    requires i.Valid() && ValidProgram(rest)
    ensures ValidProgram([i] + rest)
    ensures Binary([i] + rest) == Encode(i) + Binary(rest)
  {
    assert ValidProgram([i]);
    assert Binary([i]) == Encode(i) by {
      assert [i][..0] == [];
    }
    BinaryAppend([i], rest);
  }

  /** A run from an instruction the code decodes to executes it, then runs on from the next one. */
  lemma RunDecoded(code: seq<Byte>, pc: nat, i: Instruction, mem: seq<nat>)
    requires pc < |code| && Decode(code, pc) == Some(i)
    ensures RunSpec(code, mem, pc) == match Execute(i, mem)
      case Failure(f) => Outcome(mem, pc, Some(f))
      case Success(m) => RunSpec(code, m, pc + i.Length())
  {
  }

  /** Running the rest of a binary from the start of its `q` part executes `q` instruction by instruction. */
  lemma {:induction false} RunBinaryFrom(p: seq<Instruction>, q: seq<Instruction>, mem: seq<nat>)
    requires ValidProgram(p) && ValidProgram(q)
    ensures RunSpec(Binary(p) + Binary(q), mem, |Binary(p)|) == ExecuteFrom(q, mem, |Binary(p)|)
    ensures ExecuteFrom(q, mem, |Binary(p)|).fault.None? ==>
      ExecuteFrom(q, mem, |Binary(p)|).pc == |Binary(p)| + |Binary(q)|
    decreases |q|
  {
    var code, pc := Binary(p) + Binary(q), |Binary(p)|;
    if q == [] {
      assert code == Binary(p);
    } else {
      var i, rest := q[0], q[1..];
      assert q == [i] + rest;
      ValidProgramParts([i], rest);
      BinaryCons(i, rest);
      ConcatAssoc(Binary(p), Encode(i), Binary(rest));
      DecodeEncode(Binary(p), i, Binary(rest));
      RunDecoded(code, pc, i, mem);
      BinarySnoc(p, i);
      assert |Binary(p + [i])| == pc + i.Length();
      match Execute(i, mem)
      case Failure(_) =>
      case Success(m) =>
        RunBinaryFrom(p + [i], rest, m);
        assert |Binary(q)| == i.Length() + |Binary(rest)|;
    }
  }

  /**
   * A machine running the output of `to_binary` from `pc` 0 does exactly
   * what executing the assembled instructions in order does: same memory,
   * same fault, and it stops at the end of the last instruction it ran.
   */
  lemma RunBinary(prog: seq<Instruction>, mem: seq<nat>)
    requires ValidProgram(prog)
    ensures RunSpec(Binary(prog), mem, 0) == ExecuteFrom(prog, mem, 0)
    ensures ExecuteFrom(prog, mem, 0).fault.None? ==> ExecuteFrom(prog, mem, 0).pc == |Binary(prog)|
  {
    RunBinaryFrom([], prog, mem);
    assert Binary([]) + Binary(prog) == Binary(prog);
  }

  /** Zeroed data memory of the default size, as `VirtualMachine()` builds it. */
  function FreshMemory(): seq<nat>
  {
    seq(DefaultMemorySize, _ => 0)
  }

  /**
   * `LOAD_CONST 5 0; LOAD_CONST 10 1; GTE 0 0 1 2 0`. GTE compares
   * `memory[memory[0] + 0]`, that is cell 5, holding 0, with cell 1, holding
   * 10, and writes the resulting 0 into cell `memory[2] + 0`, that is cell 0.
   */
  lemma ScenarioA()
    ensures ValidProgram([LoadConst(5, 0), LoadConst(10, 1), Gte(0, 0, 1, 2, 0)])
    ensures var o := ExecuteFrom([LoadConst(5, 0), LoadConst(10, 1), Gte(0, 0, 1, 2, 0)], FreshMemory(), 0);
      o.fault == None && o.pc == 25 && |o.mem| == DefaultMemorySize && o.mem[0] == 0 && o.mem[1] == 10 && o.mem[2] == 0
  {
    var prog := [LoadConst(5, 0), LoadConst(10, 1), Gte(0, 0, 1, 2, 0)];
    assert ValidProgram(prog);
    var m0 := FreshMemory();
    var m1 := m0[0 := 5];
    var m2 := m1[1 := 10];
    var m3 := m2[0 := 0];
    assert m2[0] == 5 && m2[5] == 0 && m2[1] == 10 && m2[2] == 0;
    assert ExecuteFrom(prog[2..], m2, 12) == Outcome(m3, 25, None);
    assert ExecuteFrom(prog[1..], m1, 6) == ExecuteFrom(prog[2..], m2, 12);
  }

  /**
   * `LOAD_CONST 10 0; LOAD_CONST 5 1; GTE 0 0 1 2 0`. Cell 2 stays 0: GTE
   * compares cell `memory[0] + 0 = 10`, holding 0, with cell 1, holding 5,
   * and the 0 it computes goes to cell `memory[2] + 0 = 0`.
   */
  lemma ScenarioB()
    ensures ValidProgram([LoadConst(10, 0), LoadConst(5, 1), Gte(0, 0, 1, 2, 0)])
    ensures var o := ExecuteFrom([LoadConst(10, 0), LoadConst(5, 1), Gte(0, 0, 1, 2, 0)], FreshMemory(), 0);
      o.fault == None && o.pc == 25 && |o.mem| == DefaultMemorySize && o.mem[0] == 0 && o.mem[1] == 5 && o.mem[2] == 0
  {
    var prog := [LoadConst(10, 0), LoadConst(5, 1), Gte(0, 0, 1, 2, 0)];
    assert ValidProgram(prog);
    var m0 := FreshMemory();
    var m1 := m0[0 := 10];
    var m2 := m1[1 := 5];
    var m3 := m2[0 := 0];
    assert m2[0] == 10 && m2[10] == 0 && m2[1] == 5 && m2[2] == 0;
    assert ExecuteFrom(prog[2..], m2, 12) == Outcome(m3, 25, None);
    assert ExecuteFrom(prog[1..], m1, 6) == ExecuteFrom(prog[2..], m2, 12);
  }

  /** `LOAD_CONST 7 0; LOAD_CONST 3 5; READ_MEM 2 0 6` copies the never-written cell `memory[0] + 2 = 9` into cell 6. */
  lemma ScenarioC()
    ensures ValidProgram([LoadConst(7, 0), LoadConst(3, 5), ReadMem(2, 0, 6)])
    ensures var o := ExecuteFrom([LoadConst(7, 0), LoadConst(3, 5), ReadMem(2, 0, 6)], FreshMemory(), 0);
      o.fault == None && o.pc == 21 && |o.mem| == DefaultMemorySize
      && o.mem[0] == 7 && o.mem[5] == 3 && o.mem[6] == o.mem[9] == 0
  {
    var prog := [LoadConst(7, 0), LoadConst(3, 5), ReadMem(2, 0, 6)];
    assert ValidProgram(prog);
    var m0 := FreshMemory();
    var m1 := m0[0 := 7];
    var m2 := m1[5 := 3];
    var m3 := m2[6 := 0];
    assert m2[0] == 7 && m2[9] == 0;
    assert ExecuteFrom(prog[2..], m2, 12) == Outcome(m3, 21, None);
    assert ExecuteFrom(prog[1..], m1, 6) == ExecuteFrom(prog[2..], m2, 12);
  }

  /** `LOAD_CONST 42 3; WRITE_MEM 3 4` leaves 42 in both cells. */
  lemma ScenarioD()
    ensures ValidProgram([LoadConst(42, 3), WriteMem(3, 4)])
    ensures var o := ExecuteFrom([LoadConst(42, 3), WriteMem(3, 4)], FreshMemory(), 0);
      o.fault == None && o.pc == 14 && |o.mem| == DefaultMemorySize && o.mem[3] == 42 && o.mem[4] == 42
  {
    var prog := [LoadConst(42, 3), WriteMem(3, 4)];
    assert ValidProgram(prog);
    var m0 := FreshMemory();
    var m1 := m0[3 := 42];
    var m2 := m1[4 := 42];
    assert ExecuteFrom(prog[1..], m1, 6) == Outcome(m2, 14, None);
  }
}
