# assembler-uvm in Dafny

A model of the two halves of the UVM toolchain (variant 15), and proofs that they agree on one bit-exact binary format.

- The assembler (`assembler.py`) has four instruction classes: LOAD_CONST, READ_MEM, WRITE_MEM and GTE.
  - Their constructors range-check the operands: an 11-bit constant, 8-bit offsets and 26-bit addresses.
  - Their `to_bytes` methods pack a 7-bit opcode and the operands into one integer, then write it little-endian in 6, 9, 8 or 13 bytes.
  - `Assembler.parse_line` turns one source line into an instruction, into nothing, or into an error.
  - `assemble` collects the instructions of a source text in line order.
  - `to_binary` concatenates their encodings.
- The virtual machine (`interpreter.py`) holds a data memory (a list of 100000 cells by default), a code buffer and a byte program counter.
  - `read_bits` extracts a bit field relative to `pc`.
  - The four `execute_*` methods decode their fields, update memory, and advance `pc` by the instruction's length.
  - `step` dispatches on the opcode, and `run` steps until `pc` passes the end of the code.
  - The address loop of `dump_memory_xml` lists the cells in an inclusive range.

## Files

| file | module | contents |
|---|---|---|
| `wrappers.dfy` | `Wrappers` | `Option` and `Result` |
| `seqs.dfy` | `Seqs` | associativity of sequence concatenation |
| `bits.dfy` | `Bits` | powers of two, shifts, Python's `\|` and `&` on naturals, `int.from_bytes`/`to_bytes` (little-endian), `read_bits` |
| `instructions.dfy` | `Instructions` | the instruction values, their range-checking constructors, bit layouts and `to_bytes` |
| `text.dfy` | `Text` | `str.strip`, `str.split()`, `str.split('\n')`, `str.join`, `str.upper`, `int()` on decimal tokens, `str()` |
| `assembler.dfy` | `Assembler` | `parse_line`, the `assemble` loop and `to_binary` (class `Assembler`), and the printed form of an instruction used to state the parse round trip |
| `interpreter.dfy` | `Interpreter` | the pure step and run semantics, and class `VirtualMachine` with the source's fields and methods |
| `roundtrip.dfy` | `RoundTrip` | the cross-file properties: decoding what was encoded, running what was assembled, and the end-to-end examples |

Modelling choices:

- **Numbers.** Bytes are `Byte` (a `nat` below 256). The packed instruction is a `nat`: the GTE layout has 101 bits, so no fixed machine word is assumed. Shifts are multiplication and division by powers of two. `|` and `&` are defined bit by bit and proved equal to `+` for disjoint fields and to `% 2^n` for a mask.
- **Cells.** Memory cells are `nat`. Every stored value is a range-checked constant, a copy of a cell, or 0/1, so no cell can be negative.
- **Errors.** The `ValueError`s of the assembler are the `AsmError` values. A line's error is wrapped with the line text, as the `except` at assembler.py:209-210 does.
  - The interpreter has no bounds checks, so an out-of-range list index raises Python's `IndexError`. It is modelled as `Fault.IndexOutOfRange(index)`. Each `execute_*` raises before its single write, so on a fault memory and `pc` are unchanged, as in the source.
  - An unknown opcode is `Fault.UnknownOpcode(opcode, pc)`.
- **Imperative parts.** These stay imperative.
  - `VirtualMachine` is a class whose `dataMemory` is an `array<nat>`.
  - Each `execute_*` reads its fields with `ReadBitsHere` (the source's `read_bits`) and then updates the array in the source's order of reads and writes.
  - `Run` and `DumpRange` are loops.
  - `Assembler.Assemble` and `ToBinary` are loops over the line list and the instruction list.
  - Each method is proved against a pure function (`StepSpec`, `RunSpec`, `DumpSpec`, `AssembleSpec`, `Binary`), and the lemmas are stated about those functions.
- **Truncated code.** `read_bits` slices past the end of the code buffer and treats missing bytes as zero. `Slice` and `ReadBits` do the same, so a truncated trailing instruction still executes and `pc` ends beyond the code.

How the code behaves at three points where a reader might expect otherwise:

- **Tokenizing.** `parse_line` splits a line into words itself (assembler.py:154-210). That is modelled (`Assembler.ParseLine`), so operands are parsed from text rather than taken as integers.
- **GTE addressing.** GTE is indirect in both `addr1` and `res_addr` (interpreter.py:110-121).
  - Take `LOAD_CONST 10 0; LOAD_CONST 5 1; GTE 0 0 1 2 0`. Read with direct addressing, it would compare cells 0 and 1 and store 1 in cell 2. The code instead compares `memory[memory[0] + 0] = memory[10] = 0` with `memory[1] = 5`, and writes 0 into `memory[memory[2] + 0] = memory[0]`. So `memory[2]` stays 0 (`RoundTrip.ScenarioB`).
  - Take `LOAD_CONST 5 0; LOAD_CONST 10 1; GTE 0 0 1 2 0`. It also ends with `memory[2] == 0`, but only because cell 2 is never written. The 0 goes into cell 0 (`RoundTrip.ScenarioA`).
- **Bounds.** No address is bounds-checked. Memory is a Python list indexed directly, and that is what is modelled.

## Model

| member | source | states |
|---|---|---|
| Instructions.NewLoadConst | assembler.py:28-37 | construction succeeds iff 0 <= constant < 2048 and 0 <= address < 67108864 (the maxima are accepted); success holds exactly those operands and a valid instruction; a bad constant is reported first, then a bad address, each error naming the operand, its value and its limit |
| Instructions.NewReadMem | assembler.py:56-68 | succeeds iff the offset is below 256 and both addresses are below 2^26; success holds the operands; the first failing check, in the order offset, src_addr, dst_addr, is reported with the operand's name, value and limit |
| Instructions.NewWriteMem | assembler.py:84-93 | succeeds iff both addresses are below 2^26; success holds the operands; the first failing check, src_addr then dst_addr, is reported with the operand's name, value and limit |
| Instructions.NewGte | assembler.py:109-127 | succeeds iff both offsets are below 256 and the three addresses below 2^26; the first failing check, in the order offset1, offset2, addr1, addr2, res_addr (offsets before addresses), is reported with the operand's name, value and limit |
| Instructions.RebuildValid | assembler.py:28-127 | re-running an instruction's constructor on its own fields succeeds exactly for valid instructions and then returns the same instruction |
| Instructions.LayoutWellFormed | assembler.py:129-134 | each layout starts with the 7-bit opcode at bit 0, its fields are contiguous and in order, every valid operand fits its width, and the layout ends within 8 × the byte length |
| Instructions.Encode | assembler.py:39-48 | a valid instruction encodes to exactly its fixed length (6, 9, 8 or 13 bytes, independent of the operands) whose little-endian value is the packed value |
| Instructions.PackedBound | assembler.py:135-141 | the packed value of a valid instruction is below 2^(end of its layout) <= 2^(8 × length): `to_bytes` never overflows and the unused high bits (3 of 104 for GTE) are zero |
| Instructions.PackSum | assembler.py:135-140 | for contiguous fields within their widths, the left-to-right OR of the shifted fields is below 2^(end of the layout), and each OR adds the next field to what is already packed |
| Instructions.PackedFields | assembler.py:135-140 | every field of the packed value, opcode included, is recovered as `(value >> offset) mod 2^width` |
| Instructions.EncodeFields | assembler.py:75-76 | the same holds of the integer read back from the encoded bytes |
| Instructions.FirstByteOpcode | assembler.py:45-48 | the low 7 bits of the first encoded byte are the opcode (111, 40, 101 or 68) |
| Instructions.EncodeInjective | assembler.py:100-101 | two valid instructions with the same bytes are the same instruction |
| Bits.ToBytes | assembler.py:48 | `value.to_bytes(n, 'little')` for a value below 2^(8n): exactly n bytes whose little-endian value is the value |
| Bits.BitOrDisjoint | assembler.py:45 | OR-ing a field shifted above a smaller value is addition, so the packed value is the sum of its shifted fields |
| Bits.BitAndMask | interpreter.py:42-45 | `x & ((1 << n) - 1)` keeps exactly the low n bits of x |
| Bits.FromBytesAppend | interpreter.py:38 | little-endian `int.from_bytes` of a concatenation is the first part plus the second shifted by its bit length |
| Bits.ReadBitsField | interpreter.py:28-45 | `read_bits(s, n)` is below 2^n and equals bits [s, s+n) of the little-endian integer formed by the code bytes from `pc` on; bytes past the end count as zero |
| Bits.ReadBitsWithin | interpreter.py:31-38 | a field lying inside one instruction's bytes is read from those bytes alone, whatever code precedes or follows them |
| Text.StripEmpty | assembler.py:161-163 | `strip()` gives the empty string iff the line is all whitespace |
| Text.StripAround | assembler.py:161 | surrounding whitespace does not change `strip()` |
| Text.SplitJoin | assembler.py:166 | `split()` recovers non-empty, whitespace-free words joined by single spaces |
| Text.SplitOnJoin | assembler.py:216 | joining the pieces of `split('\n')` with newlines gives the source back: no text is lost or reordered |
| Text.JoinSplitOn | assembler.py:216 | `split('\n')` of newline-joined lines without newlines gives back exactly those lines |
| Text.BeforeHashComment | assembler.py:157-158 | cutting at `#` keeps exactly the text before the first `#`, and leaves a line without `#` whole |
| Text.ParseIntToString | assembler.py:177-178 | `int(str(z)) == z` for every integer |
| Assembler.MnemonicArity | assembler.py:174-204 | the mnemonic of each instruction takes exactly as many arguments as it has operands (2, 3, 2, 5) |
| Assembler.ParseIntsSpec | assembler.py:177-178 | the arguments convert iff each is an integer, and then to those integers in order; otherwise the error names the first non-integer argument |
| Assembler.ParseInstructionSpec | assembler.py:174-207 | an unknown mnemonic is an error; a known one with the wrong argument count is an error naming the expected and actual counts; then the first non-integer argument; then range errors; a success is a valid instruction with that mnemonic and those operands |
| Assembler.ParseInstructionAccepts | assembler.py:174-204 | with a known mnemonic and the right number of integer arguments, the line goes to that mnemonic's constructor with the arguments in order, so a range error is the constructor's; it is accepted exactly when some valid instruction has that mnemonic and those operands |
| Assembler.ParseLineValid | assembler.py:154-210 | every instruction `parse_line` returns passed its range checks |
| Assembler.ParseLineBlank | assembler.py:157-168 | `parse_line` returns nothing iff the text before the first `#` is all whitespace |
| Assembler.ParseLineComment | assembler.py:157-158 | everything from the first `#` on is ignored |
| Assembler.ParseLinePadded | assembler.py:161 | whitespace around the code does not change the result |
| Assembler.ParseFormat | assembler.py:166-204 | the printed form of a valid instruction parses back to it, with its mnemonic spelled in any mix of upper and lower case |
| Assembler.CollectValid | assembler.py:216-220 | whatever `assemble` collects is a program of valid instructions |
| Assembler.CollectNext | assembler.py:216-220 | each line adds its instruction at the end, or nothing for a blank line, and a failing line stops the collection |
| Assembler.FirstFailure | assembler.py:221-223 | the reported failure is at a failing line, and every line before it parsed |
| Assembler.CollectFormatted | assembler.py:216-220 | parsing the printed lines of a valid program gives back the program, in order |
| Assembler.AssembleListing | assembler.py:212-225 | assembling a printed program, one instruction per line, succeeds with that program |
| Assembler.BinaryLength | assembler.py:227-232 | the binary's length is the sum of the instructions' lengths |
| Assembler.BinaryAppend | assembler.py:229-231 | the binary of a concatenated program is the concatenation of the binaries, in order |
| Assembler.Assembler.constructor | assembler.py:151-152 | a new assembler holds no instructions |
| Assembler.Assembler.Assemble | assembler.py:212-225 | on success, the result and the stored list are every line's instruction in line order; on failure, the error of the first failing line, with the instructions before it kept |
| Assembler.Assembler.ToBinary | assembler.py:227-232 | the bytes are the in-order concatenation of the stored instructions' encodings |
| Interpreter.DecodeValid | interpreter.py:134-146 | an instruction is decoded iff the opcode is 111, 40, 101 or 68, and what is decoded has that opcode and operands within their widths |
| Interpreter.ExecuteSpec | interpreter.py:47-126 | an instruction succeeds iff every index it reads or writes is inside memory, and then exactly one cell changes, to the LOAD_CONST constant, the copied cell, or the 0/1 of `>=`; otherwise the error is an index at or past the end |
| Interpreter.ExecuteBounded | interpreter.py:55-121 | if every cell is below 2048 before a valid instruction, every cell is below 2048 after it |
| Interpreter.StepAdvances | interpreter.py:128-146 | `step` halts iff `pc` is at or past the end; an unknown opcode raises; a step keeps the memory size and moves `pc` by exactly 6, 9, 8 or 13 for opcodes 111, 40, 101, 68 |
| Interpreter.RunEnds | interpreter.py:148-155 | a run without a fault ends with `pc` at or past the end of the code; `pc` never moves back; the memory size is kept |
| Interpreter.RunBounded | interpreter.py:148-155 | every cell stays below 2048 throughout a run (an invariant of the machine) |
| Interpreter.DumpFromZero | interpreter.py:168-172 | from a non-negative start, the dump lists, in ascending order, every address from start to end that is below the memory size, with its value |
| Interpreter.DumpFailureSticks | interpreter.py:168-172 | once the dump raises, extending the range does not change the outcome |
| Interpreter.DumpTooNegative | interpreter.py:168-172 | a start below minus the memory size raises `IndexError` at the start address |
| Interpreter.VirtualMachine.constructor | interpreter.py:17-21 | a new machine has `memory_size` zero cells, no code and `pc` 0 |
| Interpreter.VirtualMachine.LoadProgram | interpreter.py:23-26 | loading replaces the code, resets `pc` to 0 and keeps the data memory |
| Interpreter.VirtualMachine.ExecuteLoadConst | interpreter.py:47-60 | the machine reads the instruction at `pc` and executes it: `memory[address] = constant` and `pc += 6`, or the IndexError with nothing changed |
| Interpreter.VirtualMachine.LoadConstCells | interpreter.py:54-58 | the store and the `pc` move of LOAD_CONST for given operands |
| Interpreter.VirtualMachine.ExecuteReadMem | interpreter.py:62-80 | `memory[dst] = old memory[old memory[src] + offset]` and `pc += 9`, or the IndexError with nothing changed |
| Interpreter.VirtualMachine.ReadMemCells | interpreter.py:70-78 | the reads, the write and the `pc` move of READ_MEM for given operands, in the source's order |
| Interpreter.VirtualMachine.ExecuteWriteMem | interpreter.py:82-96 | `memory[dst] = old memory[src]` and `pc += 8`, or the IndexError with nothing changed |
| Interpreter.VirtualMachine.WriteMemCells | interpreter.py:89-94 | the copy and the `pc` move of WRITE_MEM for given operands |
| Interpreter.VirtualMachine.ExecuteGte | interpreter.py:98-126 | writes 1 into `old memory[res_addr] + offset2` iff `old memory[old memory[addr1] + offset1] >= old memory[addr2]`, else 0, and `pc += 13`; or the IndexError with nothing changed |
| Interpreter.VirtualMachine.GteCells | interpreter.py:109-124 | both effective addresses and both operands are read before the single write |
| Interpreter.VirtualMachine.Step | interpreter.py:128-146 | `step` agrees with the step semantics: halted with nothing changed, one instruction executed, or the error with nothing changed |
| Interpreter.VirtualMachine.Run | interpreter.py:148-160 | the loop ends in the state, and with the fault, of the run semantics from the state it started in |
| Interpreter.VirtualMachine.DumpRange | interpreter.py:168-172 | the loop emits exactly the cells of the dump semantics, or its IndexError |
| RoundTrip.ReadEncodedField | interpreter.py:102-107 | each `read_bits` at a layout's offset and width, applied at the start of an encoded instruction anywhere in the code, returns that field's value |
| RoundTrip.DecodeEncode | interpreter.py:134-144 | decoding at the start of an encoded instruction, wherever it sits in the code, gives back that instruction |
| RoundTrip.RunBinary | interpreter.py:148-155 | running the assembled binary of a valid program from `pc` 0 executes its instructions in order: same final memory, final `pc` and fault; without a fault the run stops exactly at the binary's length |
| RoundTrip.ScenarioA | interpreter.py:98-126 | `LOAD_CONST 5 0; LOAD_CONST 10 1; GTE 0 0 1 2 0` on fresh memory ends at `pc` 25 with cell 0 = 0 (`memory[5] >= memory[1]` is false), cell 1 = 10 and cell 2 = 0 |
| RoundTrip.ScenarioB | interpreter.py:98-126 | `LOAD_CONST 10 0; LOAD_CONST 5 1; GTE 0 0 1 2 0` ends at `pc` 25 with cell 0 = 0 (`memory[10] >= memory[1]` is false), cell 1 = 5 and cell 2 = 0 |
| RoundTrip.ScenarioC | interpreter.py:62-80 | `LOAD_CONST 7 0; LOAD_CONST 3 5; READ_MEM 2 0 6` ends at `pc` 21 with cell 6 = cell 9 = 0 |
| RoundTrip.ScenarioD | interpreter.py:82-96 | `LOAD_CONST 42 3; WRITE_MEM 3 4` ends at `pc` 14 with cells 3 and 4 both 42 |

## Left out

- The `main()` functions of both files: command-line arguments, file reads and writes, `sys.exit`, and the verbose flag. These are I/O.
- The `stderr` message of `assemble`, which carries the line number, and the verbose printing and step count of `run`. These are output only. The error itself is modelled and is propagated unchanged.
- The `__repr__` methods and the trace strings that `execute_*` and `step` return. Only the distinction between halted and executed is kept (`Status`).
- The XML element building, the minidom pretty-printing and the file write of `dump_memory_xml`. Only its address loop is modelled.
- Upper-casing beyond ASCII. `Text.Upper` maps only `a`-`z`. Python's `str.upper` also maps a few other letters onto ASCII ones, for example the long s `ſ` to `S` and the dotless `ı` to `I`. A mnemonic spelled with such letters is accepted by the source and rejected by the model.
- `int()` with non-ASCII digits, and surrounding whitespace inside a token, which `split()` never produces. Tokens are an optional sign and ASCII decimal digits with single underscores between them.
- The `OverflowError` of `to_bytes` for an over-wide value. It cannot arise for an instruction that passed its constructor, which `Encode` requires.
- The opcode that each `execute_*` reads with `read_bits(0, 7)` and never uses.
