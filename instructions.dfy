/**
 * The four instruction classes of the assembler: their range-checking
 * constructors, their bit layouts and their `to_bytes` encodings.
 */
module Instructions {
  import opened Wrappers
  import opened Bits

  /** Exclusive upper bounds of the operand kinds: 11-bit constants, 8-bit offsets, 26-bit addresses. */
  const ConstantLimit: nat := 2048
  const OffsetLimit: nat := 256
  const AddressLimit: nat := 67108864

  const OpLoadConst: nat := 111
  const OpReadMem: nat := 40
  const OpWriteMem: nat := 101
  const OpGte: nat := 68

  /** The `ValueError`s the assembler raises. */
  datatype AsmError =
    | OperandOutOfRange(operand: string, value: int, limit: nat)
    | WrongArgumentCount(mnemonic: string, expected: nat, got: nat)
    | UnknownMnemonic(mnemonic: string)
    | NotAnInteger(token: string)
    | InLine(line: string, cause: AsmError)

  /** A constructed instruction. Only the constructors below build them from untrusted integers. */
  datatype Instruction =
    | LoadConst(constant: nat, address: nat)
    | ReadMem(offset: nat, srcAddr: nat, dstAddr: nat)
    | WriteMem(srcAddr: nat, dstAddr: nat)
    | Gte(offset1: nat, addr1: nat, addr2: nat, resAddr: nat, offset2: nat)
  {
    function Opcode(): nat
    {
      match this
      case LoadConst(_, _) => OpLoadConst
      case ReadMem(_, _, _) => OpReadMem
      case WriteMem(_, _) => OpWriteMem
      case Gte(_, _, _, _, _) => OpGte
    }

    /** The fixed number of bytes `to_bytes` produces. */
    function Length(): nat
    {
      match this
      case LoadConst(_, _) => 6
      case ReadMem(_, _, _) => 9
      case WriteMem(_, _) => 8
      case Gte(_, _, _, _, _) => 13
    }

    /** Every operand lies in the range its constructor checks. */
    predicate Valid()
    {
      match this
      case LoadConst(c, a) => c < ConstantLimit && a < AddressLimit
      case ReadMem(o, s, d) => o < OffsetLimit && s < AddressLimit && d < AddressLimit
      case WriteMem(s, d) => s < AddressLimit && d < AddressLimit
      case Gte(o1, a1, a2, r, o2) =>
        o1 < OffsetLimit && o2 < OffsetLimit && a1 < AddressLimit && a2 < AddressLimit && r < AddressLimit
    }
  }

  /** An error raised by a constructor names an operand whose value lies outside `[0, limit)`. */
  predicate RangeError(e: AsmError)
  {
    e.OperandOutOfRange? && !(0 <= e.value < e.limit)
  }

  /** `LoadConstInstruction(constant, address)`. */
  function NewLoadConst(constant: int, address: int): (r: Result<Instruction, AsmError>)
    ensures r.Success? <==> 0 <= constant < ConstantLimit && 0 <= address < AddressLimit
    ensures r.Success? ==> r.value == LoadConst(constant, address) && r.value.Valid()
    ensures r.Failure? ==> RangeError(r.error)
    ensures !(0 <= constant < ConstantLimit) ==> r == Failure(OperandOutOfRange("constant", constant, ConstantLimit))
    ensures 0 <= constant < ConstantLimit && !(0 <= address < AddressLimit) ==>
      r == Failure(OperandOutOfRange("address", address, AddressLimit))
  {
    if !(0 <= constant < ConstantLimit) then Failure(OperandOutOfRange("constant", constant, ConstantLimit))
    else if !(0 <= address < AddressLimit) then Failure(OperandOutOfRange("address", address, AddressLimit))
    else Success(LoadConst(constant, address))
  }

  /** `ReadMemInstruction(offset, src_addr, dst_addr)`. */
  function NewReadMem(offset: int, srcAddr: int, dstAddr: int): (r: Result<Instruction, AsmError>)
    ensures r.Success? <==> 0 <= offset < OffsetLimit && 0 <= srcAddr < AddressLimit && 0 <= dstAddr < AddressLimit
    ensures r.Success? ==> r.value == ReadMem(offset, srcAddr, dstAddr) && r.value.Valid()
    ensures r.Failure? ==> RangeError(r.error)
    ensures !(0 <= offset < OffsetLimit) ==> r == Failure(OperandOutOfRange("offset", offset, OffsetLimit))
    ensures 0 <= offset < OffsetLimit && !(0 <= srcAddr < AddressLimit) ==>
      r == Failure(OperandOutOfRange("src_addr", srcAddr, AddressLimit))
    ensures 0 <= offset < OffsetLimit && 0 <= srcAddr < AddressLimit && !(0 <= dstAddr < AddressLimit) ==>
      r == Failure(OperandOutOfRange("dst_addr", dstAddr, AddressLimit))
  {
    if !(0 <= offset < OffsetLimit) then Failure(OperandOutOfRange("offset", offset, OffsetLimit))
    else if !(0 <= srcAddr < AddressLimit) then Failure(OperandOutOfRange("src_addr", srcAddr, AddressLimit))
    else if !(0 <= dstAddr < AddressLimit) then Failure(OperandOutOfRange("dst_addr", dstAddr, AddressLimit))
    else Success(ReadMem(offset, srcAddr, dstAddr))
  }

  /** `WriteMemInstruction(src_addr, dst_addr)`. */
  function NewWriteMem(srcAddr: int, dstAddr: int): (r: Result<Instruction, AsmError>)
    ensures r.Success? <==> 0 <= srcAddr < AddressLimit && 0 <= dstAddr < AddressLimit
    ensures r.Success? ==> r.value == WriteMem(srcAddr, dstAddr) && r.value.Valid()
    ensures r.Failure? ==> RangeError(r.error)
    ensures !(0 <= srcAddr < AddressLimit) ==> r == Failure(OperandOutOfRange("src_addr", srcAddr, AddressLimit))
    ensures 0 <= srcAddr < AddressLimit && !(0 <= dstAddr < AddressLimit) ==>
      r == Failure(OperandOutOfRange("dst_addr", dstAddr, AddressLimit))
  {
    if !(0 <= srcAddr < AddressLimit) then Failure(OperandOutOfRange("src_addr", srcAddr, AddressLimit))
    else if !(0 <= dstAddr < AddressLimit) then Failure(OperandOutOfRange("dst_addr", dstAddr, AddressLimit))
    else Success(WriteMem(srcAddr, dstAddr))
  }

  /** `GTEInstruction(offset1, addr1, addr2, res_addr, offset2)`: both offsets are checked before the addresses. */
  function NewGte(offset1: int, addr1: int, addr2: int, resAddr: int, offset2: int): (r: Result<Instruction, AsmError>)
    ensures r.Success? <==>
      && 0 <= offset1 < OffsetLimit && 0 <= offset2 < OffsetLimit
      && 0 <= addr1 < AddressLimit && 0 <= addr2 < AddressLimit && 0 <= resAddr < AddressLimit
    ensures r.Success? ==> r.value == Gte(offset1, addr1, addr2, resAddr, offset2) && r.value.Valid()
    ensures r.Failure? ==> RangeError(r.error)
    ensures !(0 <= offset1 < OffsetLimit) ==> r == Failure(OperandOutOfRange("offset1", offset1, OffsetLimit))
    ensures 0 <= offset1 < OffsetLimit && !(0 <= offset2 < OffsetLimit) ==>
      r == Failure(OperandOutOfRange("offset2", offset2, OffsetLimit))
    ensures 0 <= offset1 < OffsetLimit && 0 <= offset2 < OffsetLimit && !(0 <= addr1 < AddressLimit) ==>
      r == Failure(OperandOutOfRange("addr1", addr1, AddressLimit))
    ensures (0 <= offset1 < OffsetLimit && 0 <= offset2 < OffsetLimit && 0 <= addr1 < AddressLimit
             && !(0 <= addr2 < AddressLimit)) ==>
      r == Failure(OperandOutOfRange("addr2", addr2, AddressLimit))
    ensures (0 <= offset1 < OffsetLimit && 0 <= offset2 < OffsetLimit && 0 <= addr1 < AddressLimit
             && 0 <= addr2 < AddressLimit && !(0 <= resAddr < AddressLimit)) ==>
      r == Failure(OperandOutOfRange("res_addr", resAddr, AddressLimit))
  {
    if !(0 <= offset1 < OffsetLimit) then Failure(OperandOutOfRange("offset1", offset1, OffsetLimit))
    else if !(0 <= offset2 < OffsetLimit) then Failure(OperandOutOfRange("offset2", offset2, OffsetLimit))
    else if !(0 <= addr1 < AddressLimit) then Failure(OperandOutOfRange("addr1", addr1, AddressLimit))
    else if !(0 <= addr2 < AddressLimit) then Failure(OperandOutOfRange("addr2", addr2, AddressLimit))
    else if !(0 <= resAddr < AddressLimit) then Failure(OperandOutOfRange("res_addr", resAddr, AddressLimit))
    else Success(Gte(offset1, addr1, addr2, resAddr, offset2))
  }

  /** Builds `i` back through its own constructor: a valid instruction is always accepted unchanged. */
  function Rebuild(i: Instruction): Result<Instruction, AsmError>
  {
    match i
    case LoadConst(c, a) => NewLoadConst(c, a)
    case ReadMem(o, s, d) => NewReadMem(o, s, d)
    case WriteMem(s, d) => NewWriteMem(s, d)
    case Gte(o1, a1, a2, r, o2) => NewGte(o1, a1, a2, r, o2)
  }

  lemma RebuildValid(i: Instruction)
    ensures Rebuild(i).Success? <==> i.Valid()
    ensures i.Valid() ==> Rebuild(i) == Success(i)
  {
  }

  // ---------------------------------------------------------------------------
  // Bit layout

  /** One operand placed at a bit offset with a bit width. */
  datatype Field = Field(value: nat, offset: nat, width: nat)

  /** The layout table of each instruction: opcode in bits 0-6, operands in order after it. */
  function Fields(i: Instruction): (fs: seq<Field>)
    ensures |fs| >= 1 && fs[0] == Field(i.Opcode(), 0, 7)
  {
    match i
    case LoadConst(c, a) => [Field(OpLoadConst, 0, 7), Field(c, 7, 11), Field(a, 18, 26)]
    case ReadMem(o, s, d) => [Field(OpReadMem, 0, 7), Field(o, 7, 8), Field(s, 15, 26), Field(d, 41, 26)]
    case WriteMem(s, d) => [Field(OpWriteMem, 0, 7), Field(s, 7, 26), Field(d, 33, 26)]
    case Gte(o1, a1, a2, r, o2) =>
      [Field(OpGte, 0, 7), Field(o1, 7, 8), Field(a1, 15, 26), Field(a2, 41, 26), Field(r, 67, 26), Field(o2, 93, 8)]
  }

  /** Fields follow one another without gaps or overlap, starting at bit 0. */
  predicate Contiguous(fs: seq<Field>)
  {
    && (|fs| > 0 ==> fs[0].offset == 0)
    && forall k :: 0 < k < |fs| ==> fs[k].offset == fs[k - 1].offset + fs[k - 1].width
  }

  /** Every value fits its width. */
  predicate Fits(fs: seq<Field>)
  {
    forall k :: 0 <= k < |fs| ==> fs[k].value < Pow2(fs[k].width)
  }

  /** The first bit after the last field. */
  function End(fs: seq<Field>): nat
  {
    if fs == [] then 0 else fs[|fs| - 1].offset + fs[|fs| - 1].width
  }

  /** `f0 | (f1 << o1) | ... | (fn << on)`, or-ed from left to right as the `to_bytes` methods write it. */
  function Pack(fs: seq<Field>): nat
  {
    if fs == [] then 0
    else BitOr(Pack(fs[..|fs| - 1]), Shl(fs[|fs| - 1].value, fs[|fs| - 1].offset))
  }

  /** The integer `value` each `to_bytes` method builds. */
  function Packed(i: Instruction): nat
  {
    Pack(Fields(i))
  }

  /** `instr.to_bytes()`: the packed value as `Length()` little-endian bytes. */
  function Encode(i: Instruction): (r: seq<Byte>)
    requires i.Valid()
    ensures |r| == i.Length()
    ensures FromBytes(r) == Packed(i)
  {
    PackedBound(i);
    Pow2Monotone(End(Fields(i)), 8 * i.Length());
    ToBytes(Packed(i), i.Length())
  }

  lemma OperandWidths()
    ensures Pow2(7) == 128 && Pow2(8) == OffsetLimit && Pow2(11) == ConstantLimit && Pow2(26) == AddressLimit
  {
    assert Pow2(8) == 256;
    Pow2Byte(8);
    Pow2Byte(16);
    assert Pow2(11) == 2048;
    assert Pow2(26) == Pow2(2) * 256 * 256 * 256;
  }

  /** The layout tables start at bit 0, have no gaps and fit in `Length()` bytes. */
  lemma LayoutContiguous(i: Instruction)
    ensures Contiguous(Fields(i))
    ensures End(Fields(i)) <= 8 * i.Length()
  {
    var fs := Fields(i);
    forall k | 0 < k < |fs|
      ensures fs[k].offset == fs[k - 1].offset + fs[k - 1].width
    {
      match i
      case LoadConst(_, _) =>
      case ReadMem(_, _, _) =>
      case WriteMem(_, _) =>
      case Gte(_, _, _, _, _) =>
    }
  }

  /** Every operand of a valid instruction fits the width of its field. */
  lemma LayoutFits(i: Instruction)
    requires i.Valid()
    ensures Fits(Fields(i))
  {
    OperandWidths();
    var fs := Fields(i);
    forall k | 0 <= k < |fs|
      ensures fs[k].value < Pow2(fs[k].width)
    {
      match i
      case LoadConst(_, _) =>
      case ReadMem(_, _, _) =>
      case WriteMem(_, _) =>
      case Gte(_, _, _, _, _) =>
    }
  }

  lemma LayoutWellFormed(i: Instruction)
    requires i.Valid()
    ensures Contiguous(Fields(i)) && Fits(Fields(i))
    ensures End(Fields(i)) <= 8 * i.Length()
  {
    LayoutContiguous(i);
    LayoutFits(i);
  }

  lemma ContiguousInit(fs: seq<Field>)
    requires fs != [] && Contiguous(fs) && Fits(fs)
    ensures Contiguous(fs[..|fs| - 1]) && Fits(fs[..|fs| - 1])
    ensures End(fs[..|fs| - 1]) == fs[|fs| - 1].offset
  {
  }

  /** Fields further right start after an earlier field ends. */
  lemma {:induction false} ContiguousOrder(fs: seq<Field>, j: nat, k: nat)
    requires Contiguous(fs) && j < k < |fs|
    ensures fs[j].offset + fs[j].width <= fs[k].offset
    decreases k - j
  {
    if j + 1 < k {
      ContiguousOrder(fs, j, k - 1);
    }
  }

  /** Or-ing disjoint fields adds them, and the result fits below the end of the layout. */
  lemma {:induction false} PackSum(fs: seq<Field>)
    requires Contiguous(fs) && Fits(fs)
    ensures Pack(fs) < Pow2(End(fs))
    ensures fs != [] ==> Pack(fs) == Pack(fs[..|fs| - 1]) + Shl(fs[|fs| - 1].value, fs[|fs| - 1].offset)
  {
    if fs != [] {
      var init, last := fs[..|fs| - 1], fs[|fs| - 1];
      ContiguousInit(fs);
      PackSum(init);
      BitOrDisjoint(Pack(init), last.value, last.offset);
      FieldBound(Pack(init), last.value, last.offset, last.width);
    }
  }

  /** Every field can be read back from the packed value by shifting and masking. */
  lemma {:induction false} PackExtract(fs: seq<Field>, k: nat)
    requires Contiguous(fs) && Fits(fs) && k < |fs|
    ensures LowBits(Shr(Pack(fs), fs[k].offset), fs[k].width) == fs[k].value
  {
    var init, last := fs[..|fs| - 1], fs[|fs| - 1];
    PackSum(fs);
    ContiguousInit(fs);
    PackSum(init);
    if k == |fs| - 1 {
      FieldExtract(Pack(fs), Pack(init), last.value, 0, last.offset, last.width);
    } else {
      PackExtract(init, k);
      ContiguousOrder(fs, k, |fs| - 1);
      HighIgnored(Pack(init), last.value, last.offset, fs[k].offset, fs[k].width);
    }
  }

  /** The packed value stays below bit `End`, so `to_bytes` never overflows its length. */
  lemma PackedBound(i: Instruction)
    requires i.Valid()
    ensures Packed(i) < Pow2(End(Fields(i)))
    ensures End(Fields(i)) <= 8 * i.Length()
  {
    LayoutWellFormed(i);
    PackSum(Fields(i));
  }

  /** Each operand sits in the bits its layout names: `(value >> offset) & (2^width - 1)` gives it back. */
  lemma PackedFields(i: Instruction, k: nat)
    requires i.Valid() && k < |Fields(i)|
    ensures LowBits(Shr(Packed(i), Fields(i)[k].offset), Fields(i)[k].width) == Fields(i)[k].value
  {
    LayoutWellFormed(i);
    PackExtract(Fields(i), k);
  }

  /** Decoding the bytes of any instruction by its layout table gives its operands back. */
  lemma EncodeFields(i: Instruction, k: nat)
    requires i.Valid() && k < |Fields(i)|
    ensures LowBits(Shr(FromBytes(Encode(i)), Fields(i)[k].offset), Fields(i)[k].width) == Fields(i)[k].value
  {
    PackedFields(i, k);
  }

  /** The low 7 bits of the first encoded byte are the opcode. */
  lemma FirstByteOpcode(i: Instruction)
    requires i.Valid()
    ensures LowBits(Encode(i)[0], 7) == i.Opcode()
  {
    var e := Encode(i);
    EncodeFields(i, 0);
    ShlByte(FromBytes(e[1..]), 0);
    assert FromBytes(e) == e[0] + Shl(FromBytes(e[1..]), 8);
    HighIgnored(e[0], FromBytes(e[1..]), 8, 0, 7);
  }

  /** Distinct valid instructions have distinct encodings. */
  lemma EncodeInjective(i: Instruction, j: Instruction)
    requires i.Valid() && j.Valid() && Encode(i) == Encode(j)
    ensures i == j
  {
    PackedFields(i, 0);
    PackedFields(j, 0);
    assert i.Opcode() == j.Opcode();
    forall k | 0 < k < |Fields(i)|
      ensures Fields(i)[k].value == Fields(j)[k].value
    {
      PackedFields(i, k);
      PackedFields(j, k);
    }
    assert Fields(i) == Fields(j);
  }
}
