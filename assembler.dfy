/**
 * The assembler: `parse_line` turns one line of assembly text into an
 * instruction, `assemble` collects the instructions of a whole source text
 * in order, and `to_binary` concatenates their encodings.
 */
module Assembler {
  import opened Wrappers
  import opened Bits
  import opened Text
  import opened Instructions
  import opened Seqs

  /** The number of operands each mnemonic takes; `None` for an unknown mnemonic. */
  function Arity(mnemonic: string): Option<nat>
  {
    if mnemonic == "LOAD_CONST" then Some(2)
    else if mnemonic == "READ_MEM" then Some(3)
    else if mnemonic == "WRITE_MEM" then Some(2)
    else if mnemonic == "GTE" then Some(5)
    else None
  }

  /** The upper-case mnemonic of an instruction. */
  function Mnemonic(i: Instruction): string
  {
    match i
    case LoadConst(_, _) => "LOAD_CONST"
    case ReadMem(_, _, _) => "READ_MEM"
    case WriteMem(_, _) => "WRITE_MEM"
    case Gte(_, _, _, _, _) => "GTE"
  }

  /** The operands of an instruction in the order the assembly text lists them. */
  function Operands(i: Instruction): seq<int>
  {
    match i
    case LoadConst(c, a) => [c, a]
    case ReadMem(o, s, d) => [o, s, d]
    case WriteMem(s, d) => [s, d]
    case Gte(o1, a1, a2, r, o2) => [o1, a1, a2, r, o2]
  }

  /** Each instruction's mnemonic is known and takes exactly its number of operands. */
  lemma MnemonicArity(i: Instruction)
    ensures Arity(Mnemonic(i)) == Some(|Operands(i)|)
  {
  }

  /** `int(a)` on each argument from left to right; the first non-integer raises. */
  function ParseInts(args: seq<string>): (r: Result<seq<int>, AsmError>)
    ensures r.Success? ==> |r.value| == |args|
  {
    if args == [] then Success([])
    else match ParseInt(args[0])
      case None => Failure(NotAnInteger(args[0]))
      case Some(v) =>
        match ParseInts(args[1..])
        case Failure(e) => Failure(e)
        case Success(vs) => Success([v] + vs)
  }

  /**
   * The arguments convert when every one of them is an integer, each to its
   * own value; otherwise the error names the first argument that is not.
   */
  lemma {:induction false} ParseIntsSpec(args: seq<string>)
    ensures ParseInts(args).Success? <==> forall k :: 0 <= k < |args| ==> ParseInt(args[k]).Some?
    ensures ParseInts(args).Success? ==> forall k :: 0 <= k < |args| ==> ParseInts(args).value[k] == ParseInt(args[k]).value
    ensures ParseInts(args).Failure? ==>
      exists k :: 0 <= k < |args| && ParseInts(args).error == NotAnInteger(args[k]) && ParseInt(args[k]).None?
        && forall j :: 0 <= j < k ==> ParseInt(args[j]).Some?
  {
    if args != [] {
      ParseIntsSpec(args[1..]);
      assert forall k :: 1 <= k < |args| ==> args[1..][k - 1] == args[k];
      if ParseInt(args[0]).Some? && ParseInts(args[1..]).Failure? {
        var k :| 0 <= k < |args[1..]| && ParseInts(args[1..]).error == NotAnInteger(args[1..][k]) && ParseInt(args[1..][k]).None?
          && forall j :: 0 <= j < k ==> ParseInt(args[1..][j]).Some?;
        assert forall j :: 0 <= j < k + 1 ==> ParseInt(args[j]).Some? by {
          forall j | 0 < j < k + 1
            ensures ParseInt(args[j]).Some?
          {
            assert args[j] == args[1..][j - 1];
          }
        }
        assert ParseInts(args).error == NotAnInteger(args[k + 1]);
      }
    }
  }

  /** The `try` block of `parse_line`: dispatch on the upper-cased mnemonic, check the count, convert, construct. */
  function ParseInstruction(mnemonic: string, args: seq<string>): Result<Instruction, AsmError>
  {
    if mnemonic == "LOAD_CONST" then
      if |args| != 2 then Failure(WrongArgumentCount("LOAD_CONST", 2, |args|))
      else match ParseInts(args)
        case Failure(e) => Failure(e)
        case Success(v) => NewLoadConst(v[0], v[1])
    else if mnemonic == "READ_MEM" then
      if |args| != 3 then Failure(WrongArgumentCount("READ_MEM", 3, |args|))
      else match ParseInts(args)
        case Failure(e) => Failure(e)
        case Success(v) => NewReadMem(v[0], v[1], v[2])
    else if mnemonic == "WRITE_MEM" then
      if |args| != 2 then Failure(WrongArgumentCount("WRITE_MEM", 2, |args|))
      else match ParseInts(args)
        case Failure(e) => Failure(e)
        case Success(v) => NewWriteMem(v[0], v[1])
    else if mnemonic == "GTE" then
      if |args| != 5 then Failure(WrongArgumentCount("GTE", 5, |args|))
      else match ParseInts(args)
        case Failure(e) => Failure(e)
        case Success(v) => NewGte(v[0], v[1], v[2], v[3], v[4])
    else Failure(UnknownMnemonic(mnemonic))
  }

  /**
   * An unknown mnemonic and a wrong argument count are rejected before any
   * argument is converted; a non-integer argument comes next, then the
   * constructor's range check. An accepted instruction has the mnemonic and,
   * in order, the arguments it was given.
   */
  lemma ParseInstructionSpec(mnemonic: string, args: seq<string>)
    ensures var r := ParseInstruction(mnemonic, args);
      && (Arity(mnemonic).None? ==> r == Failure(UnknownMnemonic(mnemonic)))
      && (Arity(mnemonic).Some? && |args| != Arity(mnemonic).value ==>
            r == Failure(WrongArgumentCount(mnemonic, Arity(mnemonic).value, |args|)))
      && (Arity(mnemonic).Some? && |args| == Arity(mnemonic).value && ParseInts(args).Failure? ==>
            r == Failure(ParseInts(args).error))
      && (Arity(mnemonic).Some? && |args| == Arity(mnemonic).value && ParseInts(args).Success? && r.Failure? ==>
            RangeError(r.error))
      && (r.Success? ==>
            && r.value.Valid() && Mnemonic(r.value) == mnemonic
            && ParseInts(args).Success? && Operands(r.value) == ParseInts(args).value)
    ensures Arity(mnemonic).Some? && |args| == Arity(mnemonic).value && ParseInts(args).Success? ==>
      && ParseInstruction(mnemonic, args) == Construct(mnemonic, ParseInts(args).value)
      && (ParseInstruction(mnemonic, args).Success? <==>
            exists i: Instruction :: i.Valid() && Mnemonic(i) == mnemonic && Operands(i) == ParseInts(args).value)
  {
    if Arity(mnemonic).Some? && |args| == Arity(mnemonic).value && ParseInts(args).Success? {
      ParseInstructionAccepts(mnemonic, args);
    }
    // One case per mnemonic, as `parse_line` branches.
    if mnemonic == "LOAD_CONST" {
    } else if mnemonic == "READ_MEM" {
    } else if mnemonic == "WRITE_MEM" {
    } else if mnemonic == "GTE" {
    }
  }

  /**
   * With a known mnemonic and the right number of integer arguments, the line
   * goes to that mnemonic's constructor, and it is accepted exactly when some
   * valid instruction has that mnemonic and those operands.
   */
  lemma ParseInstructionAccepts(mnemonic: string, args: seq<string>)
    requires Arity(mnemonic).Some? && |args| == Arity(mnemonic).value && ParseInts(args).Success?
    ensures ParseInstruction(mnemonic, args) == Construct(mnemonic, ParseInts(args).value)
    ensures ParseInstruction(mnemonic, args).Success? <==>
      exists i: Instruction :: i.Valid() && Mnemonic(i) == mnemonic && Operands(i) == ParseInts(args).value
  {
    var r := ParseInstruction(mnemonic, args);
    if r.Success? {
      assert r.value.Valid() && Mnemonic(r.value) == mnemonic && Operands(r.value) == ParseInts(args).value;
    }
    if exists i: Instruction :: i.Valid() && Mnemonic(i) == mnemonic && Operands(i) == ParseInts(args).value {
      var i: Instruction :| i.Valid() && Mnemonic(i) == mnemonic && Operands(i) == ParseInts(args).value;
      ParseInstructionOf(i, args);
    }
  }

  /** The constructor a known mnemonic calls, applied to its converted arguments in order. */
  function Construct(mnemonic: string, vs: seq<int>): Result<Instruction, AsmError>
    requires Arity(mnemonic).Some? && |vs| == Arity(mnemonic).value
  {
    if mnemonic == "LOAD_CONST" then NewLoadConst(vs[0], vs[1])
    else if mnemonic == "READ_MEM" then NewReadMem(vs[0], vs[1], vs[2])
    else if mnemonic == "WRITE_MEM" then NewWriteMem(vs[0], vs[1])
    else NewGte(vs[0], vs[1], vs[2], vs[3], vs[4])
  }

  /**
   * `parse_line`: `Success(None)` for a line with nothing but whitespace and
   * a comment, `Success(Some(i))` for an instruction, and otherwise the error
   * wrapped with the comment-free, stripped line.
   */
  function ParseLine(line: string): Result<Option<Instruction>, AsmError>
  {
    ParseCode(Strip(BeforeHash(line)))
  }

  /** `parse_line` from the point where the comment is cut off and the line stripped. */
  function ParseCode(code: string): Result<Option<Instruction>, AsmError>
  {
    if code == [] then Success(None)
    else
      var tokens := Split(code);
      if tokens == [] then Success(None)
      else
        match ParseInstruction(Upper(tokens[0]), tokens[1..])
        case Success(i) => Success(Some(i))
        case Failure(e) => Failure(InLine(code, e))
  }

  /** Whatever `parse_line` returns is a range-checked instruction. */
  lemma ParseLineValid(line: string)
    ensures ParseLine(line).Success? && ParseLine(line).value.Some? ==> ParseLine(line).value.value.Valid()
  {
    ParseCodeValid(Strip(BeforeHash(line)));
  }

  lemma ParseCodeValid(code: string)
    ensures ParseCode(code).Success? && ParseCode(code).value.Some? ==> ParseCode(code).value.value.Valid()
  {
    if code != [] && Split(code) != [] {
      ParseInstructionSpec(Upper(Split(code)[0]), Split(code)[1..]);
    }
  }

  /** A non-blank stripped line has at least one token. */
  lemma SplitTrimmed(code: string)
    requires code != [] && Trimmed(code)
    ensures Split(code) != []
  {
    StripLeftPadded([], code);
    assert [] + code == code;
  }

  /** A line yields no instruction and no error exactly when its text before `#` is blank. */
  lemma ParseLineBlank(line: string)
    ensures ParseLine(line) == Success(None) <==> AllSpace(BeforeHash(line))
  {
    var code := Strip(BeforeHash(line));
    StripEmpty(BeforeHash(line));
    if code != [] {
      SplitTrimmed(code);
    }
  }

  /** A line is parsed as the text before its first `#`. */
  lemma ParseLineComment(code: string, comment: string)
    requires '#' !in code
    ensures ParseLine(code + "#" + comment) == ParseLine(code)
  {
    BeforeHashComment(code, comment);
  }

  /** Whitespace around the instruction text changes nothing. */
  lemma ParseLinePadded(pre: string, code: string, post: string)
    requires AllSpace(pre) && AllSpace(post) && '#' !in code
    ensures ParseLine(pre + code + post) == ParseLine(code)
  {
    assert '#' !in pre + code + post by {
      assert forall c :: c in pre ==> IsSpace(c);
      assert forall c :: c in post ==> IsSpace(c);
    }
    BeforeHashComment(pre + code + post, []);
    BeforeHashComment(code, []);
    StripAround(pre, code, post);
  }

  /** `w` is a spelling of the mnemonic of `i` in any mix of upper and lower case. */
  predicate Spells(w: string, i: Instruction)
  {
    Upper(w) == Mnemonic(i)
  }

  /** The words of a line that spells `i`: the mnemonic as `w`, then the operands in decimal. */
  function FormatWords(i: Instruction, w: string): (ws: seq<string>)
    requires i.Valid()
    ensures |ws| == 1 + |Operands(i)|
  {
    var ops := Operands(i);
    [w] + seq(|ops|, k requires 0 <= k < |ops| => IntToString(ops[k]))
  }

  /** One line of assembly text for `i`, words separated by single spaces. */
  function Format(i: Instruction, w: string): string
    requires i.Valid()
  {
    Join(FormatWords(i, w), " ")
  }

  /** Mnemonics are spelled with upper-case ASCII letters and `_` only. */
  lemma MnemonicChars(i: Instruction)
    ensures Mnemonic(i) != [] && Identifier(Mnemonic(i))
    ensures forall k :: 0 <= k < |Mnemonic(i)| ==> !('a' <= Mnemonic(i)[k] <= 'z')
  {
  }

  /** The upper-case mnemonic is one of its own spellings. */
  lemma UpperMnemonic(i: Instruction)
    ensures Spells(Mnemonic(i), i)
  {
    MnemonicChars(i);
    UpperFixed(Mnemonic(i));
  }

  /** Any spelling of a mnemonic is a single word: upper-casing keeps whitespace and `#` as they are. */
  lemma MnemonicSpelling(i: Instruction, w: string)
    requires Spells(w, i)
    ensures w != [] && NoSpace(w) && '#' !in w
  {
    var m := Mnemonic(i);
    MnemonicChars(i);
    IdentifierNoSpace(m);
    UpperAt(w);
    forall k | 0 <= k < |w|
      ensures !IsSpace(w[k]) && w[k] != '#'
    {
      assert m[k] == UpperChar(w[k]);
    }
  }

  lemma OperandsNat(i: Instruction)
    ensures forall k :: 0 <= k < |Operands(i)| ==> Operands(i)[k] >= 0
  {
  }

  lemma FormatWordsShape(i: Instruction, w: string)
    requires i.Valid() && Spells(w, i)
    ensures forall k :: 0 <= k < |FormatWords(i, w)| ==>
      FormatWords(i, w)[k] != [] && NoSpace(FormatWords(i, w)[k]) && '#' !in FormatWords(i, w)[k]
  {
    var ws := FormatWords(i, w);
    MnemonicSpelling(i, w);
    OperandsNat(i);
    forall k | 1 <= k < |ws|
      ensures ws[k] != [] && NoSpace(ws[k]) && '#' !in ws[k]
    {
      var n: nat := Operands(i)[k - 1];
      assert ws[k] == NatToString(n);
      NumeralWord(n);
    }
  }

  lemma {:induction false} JoinWithout(ws: seq<string>, c: char)
    requires forall k :: 0 <= k < |ws| ==> c !in ws[k]
    requires c != ' '
    ensures c !in Join(ws, " ")
  {
    if |ws| > 1 {
      JoinWithout(ws[1..], c);
    }
  }

  lemma {:induction false} JoinTrimmed(ws: seq<string>)
    requires |ws| >= 1
    requires forall k :: 0 <= k < |ws| ==> ws[k] != [] && NoSpace(ws[k])
    ensures Join(ws, " ") != [] && Trimmed(Join(ws, " "))
  {
    if |ws| > 1 {
      JoinTrimmed(ws[1..]);
    }
  }

  /** Arguments that each convert to their integer convert together to the list of those integers. */
  lemma {:induction false} ParseIntsAll(args: seq<string>, ns: seq<int>)
    requires |args| == |ns|
    requires forall k :: 0 <= k < |args| ==> ParseInt(args[k]) == Some(ns[k])
    ensures ParseInts(args) == Success(ns)
  {
    if args != [] {
      ParseIntsAll(args[1..], ns[1..]);
      assert [ns[0]] + ns[1..] == ns;
    }
  }

  /** The operand list of a printed line converts back to the operands. */
  lemma ParseOperands(i: Instruction, w: string)
    requires i.Valid()
    ensures ParseInts(FormatWords(i, w)[1..]) == Success(Operands(i))
  {
    var ops := Operands(i);
    var args := FormatWords(i, w)[1..];
    forall k | 0 <= k < |args|
      ensures ParseInt(args[k]) == Some(ops[k])
    {
      assert args[k] == IntToString(ops[k]);
      ParseIntToString(ops[k]);
    }
    ParseIntsAll(args, ops);
  }

  /** The words of a printed instruction come back from comment removal, stripping and splitting. */
  lemma FormatTokens(i: Instruction, w: string)
    requires i.Valid() && Spells(w, i)
    ensures Strip(BeforeHash(Format(i, w))) == Format(i, w) != []
    ensures Split(Format(i, w)) == FormatWords(i, w)
  {
    var ws := FormatWords(i, w);
    var line := Format(i, w);
    FormatWordsShape(i, w);
    JoinWithout(ws, '#');
    BeforeHashComment(line, []);
    JoinTrimmed(ws);
    StripPadded([], line, []);
    assert [] + line + [] == line;
    SplitJoin(ws);
  }

  /** An instruction's own mnemonic with its own operands constructs that instruction. */
  lemma ParseInstructionOf(i: Instruction, args: seq<string>)
    requires i.Valid() && ParseInts(args) == Success(Operands(i))
    ensures ParseInstruction(Mnemonic(i), args) == Success(i)
  {
    match i
    case LoadConst(c, a) =>
      assert NewLoadConst(c, a) == Success(i);
    case ReadMem(o, s, d) =>
      assert NewReadMem(o, s, d) == Success(i);
    case WriteMem(s, d) =>
      assert NewWriteMem(s, d) == Success(i);
    case Gte(o1, a1, a2, r, o2) =>
      assert NewGte(o1, a1, a2, r, o2) == Success(i);
  }

  /** A printed instruction, its mnemonic in any mix of upper and lower case, parses back to the same instruction. */
  lemma ParseFormat(i: Instruction, w: string)
    requires i.Valid() && Spells(w, i)
    ensures ParseLine(Format(i, w)) == Success(Some(i))
  {
    var ws := FormatWords(i, w);
    FormatTokens(i, w);
    MnemonicSpelling(i, w);
    ParseOperands(i, w);
    ParseInstructionOf(i, ws[1..]);
  }

  // ---------------------------------------------------------------------------
  // Whole programs

  /** What `parse_line` makes of one line. */
  type Parsed = Result<Option<Instruction>, AsmError>

  /** `parse_line` applied to every line. */
  function ParseLines(lines: seq<string>): (rs: seq<Parsed>)
    ensures |rs| == |lines|
  {
    if lines == [] then [] else ParseLines(lines[..|lines| - 1]) + [ParseLine(lines[|lines| - 1])]
  }

  lemma {:induction false} ParseLinesAt(lines: seq<string>, k: nat)
    requires k < |lines|
    ensures ParseLines(lines)[k] == ParseLine(lines[k])
  {
    if k < |lines| - 1 {
      ParseLinesAt(lines[..|lines| - 1], k);
    }
  }

  predicate AllOk(rs: seq<Parsed>)
  {
    forall k :: 0 <= k < |rs| ==> rs[k].Success?
  }

  /** The instructions of the successfully parsed lines, in line order, blank lines skipped. */
  function Collect(rs: seq<Parsed>): (r: seq<Instruction>)
    ensures |r| <= |rs|
  {
    if rs == [] then []
    else
      var init := Collect(rs[..|rs| - 1]);
      match rs[|rs| - 1]
      case Success(Some(i)) => init + [i]
      case _ => init
  }

  /** Only instructions `parse_line` returned are collected, so all of them are range-checked. */
  lemma {:induction false} CollectValid(lines: seq<string>)
    ensures ValidProgram(Collect(ParseLines(lines)))
  {
    if lines != [] {
      var init := lines[..|lines| - 1];
      CollectValid(init);
      var rs := ParseLines(lines);
      assert rs[..|lines| - 1] == ParseLines(init);
      ParseLineValid(lines[|lines| - 1]);
      ValidProgramParts(Collect(ParseLines(init)), Collect([rs[|rs| - 1]]));
    }
  }

  /** Collecting a text made of two parts collects each part in turn. */
  lemma {:induction false} CollectAppend(a: seq<Parsed>, b: seq<Parsed>)
    ensures Collect(a + b) == Collect(a) + Collect(b)
    decreases |b|
  {
    if b == [] {
      assert a + b == a;
    } else {
      CollectAppend(a, b[..|b| - 1]);
      assert (a + b)[..|a + b| - 1] == a + b[..|b| - 1];
    }
  }

  /** Lines that each spell one instruction collect to exactly those instructions, in order. */
  lemma {:induction false} CollectAll(rs: seq<Parsed>, prog: seq<Instruction>)
    requires |rs| == |prog|
    requires forall k :: 0 <= k < |rs| ==> rs[k] == Success(Some(prog[k]))
    ensures Collect(rs) == prog
  {
    if rs != [] {
      CollectAll(rs[..|rs| - 1], prog[..|prog| - 1]);
    }
  }

  /** The source text lines that print a program, one instruction per line. */
  function FormatLines(prog: seq<Instruction>): (lines: seq<string>)
    requires ValidProgram(prog)
    ensures |lines| == |prog|
  {
    seq(|prog|, k requires 0 <= k < |prog| => Format(prog[k], Mnemonic(prog[k])))
  }

  /** Assembling a printed program gives the program back. */
  lemma CollectFormatted(prog: seq<Instruction>)
    requires ValidProgram(prog)
    ensures AllOk(ParseLines(FormatLines(prog)))
    ensures Collect(ParseLines(FormatLines(prog))) == prog
  {
    var rs := ParseLines(FormatLines(prog));
    forall k | 0 <= k < |prog|
      ensures rs[k] == Success(Some(prog[k]))
    {
      ParseLinesAt(FormatLines(prog), k);
      ParseListed(prog[k]);
    }
    CollectAll(rs, prog);
  }

  /** An instruction printed with its upper-case mnemonic parses back to it. */
  lemma ParseListed(i: Instruction)
    requires i.Valid()
    ensures ParseLine(Format(i, Mnemonic(i))) == Success(Some(i))
  {
    UpperMnemonic(i);
    ParseFormat(i, Mnemonic(i));
  }

  /** The index of the first line `assemble` rejects. */
  function FirstFailure(rs: seq<Parsed>): (k: nat)
    requires !AllOk(rs)
    ensures k < |rs| && rs[k].Failure?
    ensures AllOk(rs[..k])
  {
    if rs[0].Failure? then 0
    else
      var k := FirstFailure(rs[1..]);
      assert forall j :: 0 <= j < k + 1 ==> rs[..k + 1][j] == rs[j];
      k + 1
  }

  /** One more line: its instruction, if any, goes after those collected so far. */
  lemma CollectNext(rs: seq<Parsed>, n: nat)
    requires n < |rs|
    ensures AllOk(rs[..n + 1]) <==> AllOk(rs[..n]) && rs[n].Success?
    ensures Collect(rs[..n + 1]) == Collect(rs[..n]) + (if rs[n].Success? && rs[n].value.Some? then [rs[n].value.value] else [])
  {
    var a := rs[..n + 1];
    assert a[..n] == rs[..n] && a[n] == rs[n];
    assert forall j :: 0 <= j < n ==> a[j] == rs[..n][j];
    if !(rs[n].Success? && rs[n].value.Some?) {
      assert Collect(rs[..n]) + [] == Collect(rs[..n]);
    }
  }

  /**
   * What `assemble` returns and leaves in `self.instructions` for the parsed
   * lines: every instruction when all lines parse, and otherwise the first
   * failing line's error together with the instructions of the lines before it.
   */
  function AssembleSpec(rs: seq<Parsed>): (Result<seq<Instruction>, AsmError>, seq<Instruction>)
  {
    if AllOk(rs) then (Success(Collect(rs)), Collect(rs))
    else
      var k := FirstFailure(rs);
      (Failure(rs[k].error), Collect(rs[..k]))
  }

  /** Assembling the printed listing of a valid program (one instruction per line) succeeds with that program. */
  lemma AssembleListing(prog: seq<Instruction>)
    requires ValidProgram(prog)
    ensures AssembleSpec(ParseLines(SplitOn(Join(FormatLines(prog), "\n"), '\n'))) == (Success(prog), prog)
  {
    var lines := FormatLines(prog);
    if prog == [] {
      assert Join(lines, "\n") == [];
      ParseLineBlank([]);
      assert ParseLines([[]]) == [Success(None)];
    } else {
      forall k | 0 <= k < |lines|
        ensures '\n' !in lines[k]
      {
        var ws := FormatWords(prog[k], Mnemonic(prog[k]));
        UpperMnemonic(prog[k]);
        FormatWordsShape(prog[k], Mnemonic(prog[k]));
        forall j | 0 <= j < |ws|
          ensures '\n' !in ws[j]
        {
          assert IsSpace('\n');
        }
        JoinWithout(ws, '\n');
      }
      JoinSplitOn(lines, '\n');
      CollectFormatted(prog);
    }
  }

  lemma FirstFailureIs(rs: seq<Parsed>, n: nat)
    requires n < |rs| && AllOk(rs[..n]) && rs[n].Failure?
    ensures !AllOk(rs) && FirstFailure(rs) == n
  {
    var k := FirstFailure(rs);
    assert forall j :: 0 <= j < k ==> rs[..k][j] == rs[j];
    assert forall j :: 0 <= j < n ==> rs[..n][j] == rs[j];
  }

  /** Every instruction of the program went through its range-checking constructor. */
  predicate ValidProgram(prog: seq<Instruction>)
  {
    forall k :: 0 <= k < |prog| ==> prog[k].Valid()
  }

  lemma ValidProgramParts(p: seq<Instruction>, q: seq<Instruction>)
    ensures ValidProgram(p + q) <==> ValidProgram(p) && ValidProgram(q)
  {
    assert forall k :: 0 <= k < |p| ==> (p + q)[k] == p[k];
    assert forall k :: 0 <= k < |q| ==> (p + q)[|p| + k] == q[k];
    if ValidProgram(p) && ValidProgram(q) {
      forall k | 0 <= k < |p + q|
        ensures (p + q)[k].Valid()
      {
        if k >= |p| {
          assert (p + q)[|p| + (k - |p|)] == q[k - |p|];
        }
      }
    }
  }

  /** The concatenated encodings of `prog`, in order: the bytes `to_binary` returns. */
  function Binary(prog: seq<Instruction>): seq<Byte>
    requires ValidProgram(prog)
  {
    if prog == [] then [] else Binary(prog[..|prog| - 1]) + Encode(prog[|prog| - 1])
  }

  /** The sum of the fixed lengths of the instructions. */
  function TotalLength(prog: seq<Instruction>): nat
  {
    if prog == [] then 0 else TotalLength(prog[..|prog| - 1]) + prog[|prog| - 1].Length()
  }

  /** The binary is exactly as long as the instructions' fixed lengths add up to. */
  lemma {:induction false} BinaryLength(prog: seq<Instruction>)
    requires ValidProgram(prog)
    ensures |Binary(prog)| == TotalLength(prog)
  {
    if prog != [] {
      BinaryLength(prog[..|prog| - 1]);
    }
  }

  /** The binary of two programs run one after the other is the two binaries one after the other. */
  lemma BinarySnoc(p: seq<Instruction>, i: Instruction)
    requires ValidProgram(p) && i.Valid()
    ensures ValidProgram(p + [i])
    ensures Binary(p + [i]) == Binary(p) + Encode(i)
  {
    ValidProgramParts(p, [i]);
    assert (p + [i])[..|p|] == p;
  }

  lemma {:induction false} BinaryAppend(p: seq<Instruction>, q: seq<Instruction>)
    requires ValidProgram(p) && ValidProgram(q)
    ensures ValidProgram(p + q)
    ensures Binary(p + q) == Binary(p) + Binary(q)
    decreases |q|
  {
    ValidProgramParts(p, q);
    if q == [] {
      assert p + q == p;
    } else {
      var init, last := q[..|q| - 1], q[|q| - 1];
      assert q == init + [last];
      ValidProgramParts(init, [last]);
      BinaryAppend(p, init);
      assert p + q == (p + init) + [last];
      BinarySnoc(p + init, last);
      BinarySnoc(init, last);
      ConcatAssoc(Binary(p), Binary(init), Encode(last));
    }
  }

  /** `Assembler`: holds the instructions of the last `assemble` call. */
  class Assembler {
    var instructions: seq<Instruction>

    /** Every stored instruction went through its range-checking constructor. */
    predicate Valid()
      reads this
    {
      ValidProgram(instructions)
    }

    constructor()
      ensures instructions == [] && Valid()
    {
      instructions := [];
    }

    /**
     * `assemble`: parses the lines of `source` in order. On success it keeps
     * and returns every instruction in line order; on the first bad line it
     * raises that line's error, keeping the instructions of the lines before.
     */
    method Assemble(source: string) returns (r: Result<seq<Instruction>, AsmError>)
      modifies this
      ensures Valid()
      ensures (r, instructions) == AssembleSpec(ParseLines(SplitOn(source, '\n')))
    {
      var lines := SplitOn(source, '\n');
      ghost var rs := ParseLines(lines);
      instructions := [];
      var n := 0;
      while n < |lines|
        invariant 0 <= n <= |lines|
        invariant AllOk(rs[..n])
        invariant instructions == Collect(rs[..n])
        invariant Valid()
      {
        var parsed := ParseLine(lines[n]);
        ParseLinesAt(lines, n);
        ParseLineValid(lines[n]);
        CollectNext(rs, n);
        if parsed.Failure? {
          FirstFailureIs(rs, n);
          return Failure(parsed.error);
        }
        if parsed.value.Some? {
          instructions := instructions + [parsed.value.value];
        }
        n := n + 1;
      }
      assert rs[..n] == rs;
      return Success(instructions);
    }

    /** `to_binary`: the encodings of the stored instructions, concatenated in order. */
    method ToBinary() returns (binary: seq<Byte>)
      requires Valid()
      ensures binary == Binary(instructions)
    {
      binary := [];
      var n := 0;
      while n < |instructions|
        invariant 0 <= n <= |instructions|
        invariant binary == Binary(instructions[..n])
      {
        assert instructions[..n + 1][..n] == instructions[..n];
        binary := binary + Encode(instructions[n]);
        n := n + 1;
      }
      assert instructions[..n] == instructions;
    }
  }
}
