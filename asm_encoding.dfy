/**
 * The pure encoders of the assembler (Assembler/scripts.js): register codes,
 * addresses, the ARIT instruction word, the CALC macro that expands to ARIT,
 * and the hexadecimal text of the assembled image.
 */
module AsmEncoding {
  import opened Wrappers
  import opened JsRuntime
  import opened Bits
  import Numerals

  // ---------------------------------------------------------------------------
  // Errors
  // ---------------------------------------------------------------------------

  /**
   * The diagnostics of the `AssemblingError` hierarchy. All are `BadSyntax`
   * except `BadAddressSyntax` (a subclass of it) and `IncompleteFixups` (a
   * plain `AssemblingError`).
   */
  datatype AsmError =
    | UnknownMnemonic(mnemonic: string)
    | NumberExceedsWordSize
    | InvalidAritOperation(operation: string)
    | InvalidRegister(register: string)
    | RegisterNotAddressable(register: string)
    | InvalidAritSecondRegister(reported: string)
    | InvalidCalcOperation(operation: string)
    | BadAddressSyntax
    | IncompleteFixups

  /** Everything the assembler can throw. Only `Assembling` is caught by `perform`. */
  datatype Exception =
    | Assembling(error: AsmError)
      /** A TypeError: the class `BadSyntax` was called without `new`. */
    | ConstructorCalledWithoutNew(message: string)
      /** A TypeError: a string method was called on a missing operand (`undefined`). */
    | UndefinedOperand
      /** The plain `Error` of `moveHeadTo` and `advanceHead`. */
    | HeadMovedBackwards

  datatype Outcome<T> = Ok(value: T) | Raised(exc: Exception)

  // ---------------------------------------------------------------------------
  // Registers
  // ---------------------------------------------------------------------------

  /** Register names by 3-bit code; codes 4 and 5 name no register. */
  const REGISTER_NAMES: seq<string> := ["a", "b", "c", "d", "?", "?", "r", "psw"]

  predicate IsRegisterCode(code: int)
  {
    0 <= code < 8 && code != 4 && code != 5
  }

  predicate IsRegisterName(name: string)
  {
    name in REGISTER_NAMES && name != "?"
  }

  /** `getRegisterCode(register, lower)`. */
  function GetRegisterCode(register: string, lower: bool): (r: Outcome<nat>)
    ensures r.Ok? ==> IsRegisterCode(r.value) && REGISTER_NAMES[r.value] == register
    ensures r.Ok? ==> !(lower && r.value >= 6)
    ensures IsRegisterName(register) && !(lower && register in ["r", "psw"]) ==> r.Ok?
    ensures lower && register in ["r", "psw"] ==>
      r == Raised(Assembling(RegisterNotAddressable(register)))
    ensures !IsRegisterName(register) ==> r == Raised(Assembling(InvalidRegister(register)))
  {
    if lower && (register == "psw" || register == "r") then
      Raised(Assembling(RegisterNotAddressable(register)))
    else if register == "a" then Ok(0)
    else if register == "b" then Ok(1)
    else if register == "c" then Ok(2)
    else if register == "d" then Ok(3)
    else if register == "r" then Ok(6)
    else if register == "psw" then Ok(7)
    else Raised(Assembling(InvalidRegister(register)))
  }

  // ---------------------------------------------------------------------------
  // Addresses
  // ---------------------------------------------------------------------------

  /**
   * `toAddress(str)`: the number the token denotes, rejected when it lies
   * outside the 12-bit address space. NaN fails neither comparison and is
   * returned as it is.
   */
  function ToAddress(token: string): (r: Outcome<Number>)
    ensures r.Ok? ==> r.value == ParseNumber(token)
    ensures r.Ok? && r.value.Int? ==> 0 <= r.value.i <= 0xFFF
    ensures ParseNumber(token).NaN? ==> r.Ok?
    ensures r.Raised? ==> r.exc == Assembling(BadAddressSyntax)
  {
    var address := ParseNumber(token);
    if address.Int? && address.i < 0 then Raised(Assembling(BadAddressSyntax))
    else if address.Int? && address.i > 0xFFF then Raised(Assembling(BadAddressSyntax))
    else Ok(address)
  }

  /** The decimal numeral of an address is accepted as that address; any other number is refused. */
  lemma AddressRoundTrip(n: int)
    ensures ToAddress(Numerals.Decimal(n)) ==
      if 0 <= n <= 0xFFF then Ok(Int(n)) else Raised(Assembling(BadAddressSyntax))
  {
    ParseDecimal(n);
  }

  // ---------------------------------------------------------------------------
  // ARIT
  // ---------------------------------------------------------------------------

  /** ARIT operation mnemonics by 3-bit operation code. */
  const ARIT_OP_NAMES: seq<string> := ["0", "f", "not", "and", "or", "xor", "add", "sub"]

  /** The operation field for an ARIT mnemonic. */
  function AritOpCode(operation: string): (r: Option<nat>)
    ensures r.Some? <==> operation in ARIT_OP_NAMES
    ensures r.Some? ==> r.value < 8 && ARIT_OP_NAMES[r.value] == operation
  {
    if operation == "0" then Some(0)
    else if operation == "f" then Some(1)
    else if operation == "not" then Some(2)
    else if operation == "and" then Some(3)
    else if operation == "or" then Some(4)
    else if operation == "xor" then Some(5)
    else if operation == "add" then Some(6)
    else if operation == "sub" then Some(7)
    else None
  }

  /** The names the second ARIT operand may take. */
  const SECOND_OPERAND_NAMES: seq<string> := ["0", "zero", "a", "b", "c", "d"]

  /**
   * The meaning of a second-operand field: with bit 2 clear it is the
   * constant zero, with bit 2 set it is register A..D by the two low bits.
   */
  predicate NamesSecondOperand(code: int, name: string)
  {
    (code == 0 && (name == "0" || name == "zero"))
    || (4 <= code < 8 && REGISTER_NAMES[code - 4] == name)
  }

  /** The second-operand field for a name. */
  function SecondOperandCode(reg2: string): (r: Option<nat>)
    ensures r.Some? <==> reg2 in SECOND_OPERAND_NAMES
    ensures r.Some? ==> r.value < 8 && NamesSecondOperand(r.value, reg2)
  {
    if reg2 == "0" || reg2 == "zero" then Some(0)
    else if reg2 == "a" then Some(4)
    else if reg2 == "b" then Some(5)
    else if reg2 == "c" then Some(6)
    else if reg2 == "d" then Some(7)
    else None
  }

  /**
   * `0x6000 | op << 9 | dst << 6 | src << 3 | second`: the fields occupy
   * disjoint bits, so the OR is their weighted sum.
   */
  function AritWord(op: nat, dst: nat, src: nat, second: nat): (w: int)
    requires op < 8 && dst < 8 && src < 8 && second < 8
    ensures w == 0x6000 + op * 512 + dst * 64 + src * 8 + second
  {
    Pow2Values();
    var w1 := BitOr(0x6000, op * 512);
    OrLowBits(0x6000, 6, op * 512, 12);
    var w2 := BitOr(w1, dst * 64);
    OrLowBits(w1, 48 + op, dst * 64, 9);
    var w3 := BitOr(w2, src * 8);
    OrLowBits(w2, 384 + op * 8 + dst, src * 8, 6);
    OrLowBits(w3, 3072 + op * 64 + dst * 8 + src, second, 3);
    BitOr(w3, second)
  }

  /** The opcode nibble, bits 15..12 of an instruction word. */
  function OpcodeField(w: int): int { w / 0x1000 }
  /** The ARIT operation, bits 11..9. */
  function OpField(w: int): int { w / 512 % 8 }
  /** The ARIT destination register, bits 8..6. */
  function DstField(w: int): int { w / 64 % 8 }
  /** The ARIT first operand register, bits 5..3. */
  function SrcField(w: int): int { w / 8 % 8 }
  /** The ARIT second operand, bits 2..0. */
  function SecondField(w: int): int { w % 8 }

  /** The fields of an ARIT word read back from the word. */
  lemma AritFields(op: nat, dst: nat, src: nat, second: nat)
    requires op < 8 && dst < 8 && src < 8 && second < 8
    ensures var w := 0x6000 + op * 512 + dst * 64 + src * 8 + second;
      OpcodeField(w) == 6 && OpField(w) == op && DstField(w) == dst && SrcField(w) == src
      && SecondField(w) == second
  {
    var low := src * 8 + second;
    assert low < 64;
    var w := 0x6000 + op * 512 + dst * 64 + low;
    assert w == (48 + op) * 512 + (dst * 64 + low);
    assert w / 512 == 48 + op;
    assert w == (384 + op * 8 + dst) * 64 + low;
    assert w / 64 == 384 + op * 8 + dst;
    assert w == (3072 + op * 64 + dst * 8 + src) * 8 + second;
    assert w / 8 == 3072 + op * 64 + dst * 8 + src;
  }

  /** The comma-separated operand list after the mnemonic, untrimmed. */
  function AritArguments(line: string): (args: seq<string>)
    ensures |args| >= 1
  {
    Split(Trim(SubstringFrom(line, 4)), ',')
  }

  /** Every piece trimmed. */
  function TrimAll(pieces: seq<string>): (r: seq<string>)
    ensures |r| == |pieces| && forall i :: 0 <= i < |r| ==> r[i] == Trim(pieces[i])
  {
    seq(|pieces|, i requires 0 <= i < |pieces| => Trim(pieces[i]))
  }

  /** The operands of an `arit` line, each trimmed. */
  function AritOperands(line: string): (ops: seq<string>)
    ensures |ops| == |AritArguments(line)|
  {
    TrimAll(AritArguments(line))
  }

  /** Operands the assembler accepts: an operation, two registers and a second operand. */
  predicate AritOperandsValid(ops: seq<string>)
  {
    |ops| >= 4 && ops[0] in ARIT_OP_NAMES && IsRegisterName(ops[1]) && IsRegisterName(ops[2])
    && ops[3] in SECOND_OPERAND_NAMES
  }

  /** The fields of `w` name the operands. */
  predicate EncodesOperands(w: int, ops: seq<string>)
    requires |ops| >= 4
  {
    OpcodeField(w) == 6 && ARIT_OP_NAMES[OpField(w)] == ops[0]
    && REGISTER_NAMES[DstField(w)] == ops[1] && REGISTER_NAMES[SrcField(w)] == ops[2]
    && NamesSecondOperand(SecondField(w), ops[3])
  }

  /**
   * The body of `interpretArit` after the operands are split and trimmed:
   * the word, or the first diagnostic in operand order. A missing operand is
   * `undefined`, whose `trim` throws a TypeError.
   */
  function EncodeArit(ops: seq<string>): (r: Outcome<int>)
    requires |ops| >= 1
    ensures r.Ok? <==> AritOperandsValid(ops)
    ensures r.Ok? ==> IsAritWord(r.value) && EncodesOperands(r.value, ops)
    ensures ops[0] !in ARIT_OP_NAMES ==> r == Raised(Assembling(InvalidAritOperation(ops[0])))
    ensures ops[0] in ARIT_OP_NAMES && |ops| < 2 ==> r == Raised(UndefinedOperand)
    ensures ops[0] in ARIT_OP_NAMES && |ops| >= 2 && !IsRegisterName(ops[1]) ==>
      r == Raised(Assembling(InvalidRegister(ops[1])))
    ensures (|ops| >= 4 && ops[0] in ARIT_OP_NAMES && IsRegisterName(ops[1]) && IsRegisterName(ops[2])
      && ops[3] !in SECOND_OPERAND_NAMES) ==> r == Raised(Assembling(InvalidAritSecondRegister(ops[2])))
  {
    match AritOpCode(ops[0])
    case None => Raised(Assembling(InvalidAritOperation(ops[0])))
    case Some(op) =>
      if |ops| < 2 then Raised(UndefinedOperand)
      else match GetRegisterCode(ops[1], false)
        case Raised(e) => Raised(e)
        case Ok(dst) =>
          if |ops| < 3 then Raised(UndefinedOperand)
          else match GetRegisterCode(ops[2], false)
            case Raised(e) => Raised(e)
            case Ok(src) =>
              if |ops| < 4 then Raised(UndefinedOperand)
              else match SecondOperandCode(ops[3])
                case None => Raised(Assembling(InvalidAritSecondRegister(ops[2])))
                case Some(second) =>
                  EncodedWord(ops, op, dst, src, second);
                  Ok(AritWord(op, dst, src, second))
  }

  /** The word built from valid operand codes is an ARIT word that names those operands. */
  lemma EncodedWord(ops: seq<string>, op: nat, dst: nat, src: nat, second: nat)
    requires |ops| >= 4 && op < 8 && ARIT_OP_NAMES[op] == ops[0]
    requires IsRegisterCode(dst) && REGISTER_NAMES[dst] == ops[1]
    requires IsRegisterCode(src) && REGISTER_NAMES[src] == ops[2]
    requires second < 8 && NamesSecondOperand(second, ops[3])
    ensures IsAritWord(AritWord(op, dst, src, second)) && EncodesOperands(AritWord(op, dst, src, second), ops)
  {
    AritFields(op, dst, src, second);
  }

  /** `interpretArit(line)`. */
  function InterpretArit(line: string): (r: Outcome<int>)
    ensures r.Ok? <==> AritOperandsValid(AritOperands(line))
    ensures r.Ok? ==> IsAritWord(r.value) && EncodesOperands(r.value, AritOperands(line))
  {
    EncodeArit(AritOperands(line))
  }

  /** An ARIT word the assembler can produce: valid register codes, second operand 0 or A..D. */
  predicate IsAritWord(w: int)
  {
    0x6000 <= w < 0x7000 && IsRegisterCode(DstField(w)) && IsRegisterCode(SrcField(w))
    && (SecondField(w) == 0 || SecondField(w) >= 4)
  }

  /** The text naming a second-operand field. */
  function SecondOperandName(code: int): (name: string)
    requires code == 0 || 4 <= code < 8
    ensures NamesSecondOperand(code, name) && name in SECOND_OPERAND_NAMES
  {
    if code == 0 then "0" else REGISTER_NAMES[code - 4]
  }

  /** The text of `arit ${operation}, ${destination}, ${reg1}, ${reg2}`. */
  function AritLine(operation: string, destination: string, reg1: string, reg2: string): string
  {
    "arit " + operation + ", " + destination + ", " + reg1 + ", " + reg2
  }

  /** The canonical `arit` line of an ARIT word. */
  function DisassembleArit(w: int): string
    requires IsAritWord(w)
  {
    AritLine(ARIT_OP_NAMES[OpField(w)], REGISTER_NAMES[DstField(w)], REGISTER_NAMES[SrcField(w)],
      SecondOperandName(SecondField(w)))
  }

  /** A word with no whitespace in it. */
  predicate IsWord(t: string)
  {
    |t| > 0 && forall i :: 0 <= i < |t| ==> !IsSpace(t[i])
  }

  /** The mnemonics of the operation and register tables are words free of commas. */
  lemma TableNamesAreWords()
    ensures forall k :: 0 <= k < 8 ==> IsWord(ARIT_OP_NAMES[k]) && ',' !in ARIT_OP_NAMES[k]
    ensures forall k :: 0 <= k < 8 ==> IsWord(REGISTER_NAMES[k]) && ',' !in REGISTER_NAMES[k]
    ensures forall k :: 0 <= k < |SECOND_OPERAND_NAMES| ==>
      IsWord(SECOND_OPERAND_NAMES[k]) && ',' !in SECOND_OPERAND_NAMES[k]
  {
  }

  /** A word preceded by one space trims back to the word. */
  lemma TrimSpaced(t: string)
    requires IsWord(t)
    ensures Trim(" " + t) == t && Trim(t) == t
  {
    assert !IsSpace(t[0]) && !IsSpace(t[|t| - 1]);
    TrimLeadingSpace(t);
    TrimNoSpace(t);
  }

  /** A comma in `" " + t` can only come from `t`. */
  lemma NoCommaSpaced(t: string)
    requires ',' !in t
    ensures ',' !in " " + t
  {
    assert forall k :: 1 <= k < |" " + t| ==> (" " + t)[k] == t[k - 1];
  }

  /** Four separator-free pieces joined by three separators split back into the pieces. */
  lemma SplitFour(x: string, y: string, z: string, w: string, sep: char)
    requires sep !in x && sep !in y && sep !in z && sep !in w
    ensures Split(x + [sep] + (y + [sep] + (z + [sep] + w)), sep) == [x, y, z, w]
  {
    SplitNoSeparator(w, sep);
    SplitCons(z, w, sep);
    SplitCons(y, z + [sep] + w, sep);
    SplitCons(x, y + [sep] + (z + [sep] + w), sep);
  }

  /** `", "` is a comma followed by a space. */
  lemma CommaSpaces(a: string, b: string, c: string, d: string)
    ensures a + ", " + b + ", " + c + ", " + d
      == a + [','] + ((" " + b) + [','] + ((" " + c) + [','] + (" " + d)))
  {
    var sb, sc, sd := " " + b, " " + c, " " + d;
    assert a + ", " + b == a + [','] + sb;
    assert a + ", " + b + ", " + c == a + [','] + sb + [','] + sc;
    assert a + ", " + b + ", " + c + ", " + d == a + [','] + sb + [','] + sc + [','] + sd;
    assert a + [','] + sb + [','] + sc + [','] + sd == a + [','] + (sb + [','] + (sc + [','] + sd));
  }

  /** The operand list of `a + ", " + b + ", " + c + ", " + d`. */
  lemma SplitFourOperands(a: string, b: string, c: string, d: string)
    requires ',' !in a && ',' !in b && ',' !in c && ',' !in d
    ensures Split(a + ", " + b + ", " + c + ", " + d, ',') == [a, " " + b, " " + c, " " + d]
  {
    NoCommaSpaced(b);
    NoCommaSpaced(c);
    NoCommaSpaced(d);
    SplitFour(a, " " + b, " " + c, " " + d, ',');
    CommaSpaces(a, b, c, d);
  }

  /** The line is the mnemonic, a space and the comma-separated operands. */
  lemma AritLineBody(a: string, b: string, c: string, d: string)
    ensures AritLine(a, b, c, d) == "arit " + (a + ", " + b + ", " + c + ", " + d)
  {
  }

  /** Dropping the four letters of a mnemonic leaves the space and the rest. */
  lemma DropMnemonic(body: string)
    ensures SubstringFrom("arit " + body, 4) == " " + body
  {
  }

  /** The first and last characters of the comma-separated operands. */
  lemma OperandsEnds(a: string, b: string, c: string, d: string)
    requires |a| > 0 && |d| > 0
    ensures var body := a + ", " + b + ", " + c + ", " + d;
      |body| > 0 && body[0] == a[0] && body[|body| - 1] == d[|d| - 1]
  {
  }

  /** The trimmed text after the mnemonic is the comma-separated operands. */
  lemma AritLineTrimmed(a: string, b: string, c: string, d: string)
    requires |a| > 0 && |d| > 0 && !IsSpace(a[0]) && !IsSpace(d[|d| - 1])
    ensures Trim(SubstringFrom(AritLine(a, b, c, d), 4)) == a + ", " + b + ", " + c + ", " + d
  {
    var body := a + ", " + b + ", " + c + ", " + d;
    AritLineBody(a, b, c, d);
    DropMnemonic(body);
    OperandsEnds(a, b, c, d);
    TrimLeadingSpace(body);
  }

  /** The line's operand list before trimming. */
  lemma AritLineArguments(a: string, b: string, c: string, d: string)
    requires IsWord(a) && IsWord(d)
    requires ',' !in a && ',' !in b && ',' !in c && ',' !in d
    ensures AritArguments(AritLine(a, b, c, d)) == [a, " " + b, " " + c, " " + d]
  {
    assert !IsSpace(a[0]) && !IsSpace(d[|d| - 1]);
    AritLineTrimmed(a, b, c, d);
    SplitFourOperands(a, b, c, d);
  }

  /** The operands of the line `AritLine(a, b, c, d)`, for comma-free words a..d. */
  lemma AritLineOperands(a: string, b: string, c: string, d: string)
    requires IsWord(a) && IsWord(b) && IsWord(c) && IsWord(d)
    requires ',' !in a && ',' !in b && ',' !in c && ',' !in d
    ensures var ops := AritOperands(AritLine(a, b, c, d));
      |ops| == 4 && ops[0] == a && ops[1] == b && ops[2] == c && ops[3] == d
  {
    var line := AritLine(a, b, c, d);
    AritLineArguments(a, b, c, d);
    var args := AritArguments(line);
    assert args[0] == a && args[1] == " " + b && args[2] == " " + c && args[3] == " " + d;
    TrimSpaced(a);
    TrimSpaced(b);
    TrimSpaced(c);
    TrimSpaced(d);
    var ops := AritOperands(line);
    assert ops[0] == Trim(args[0]) && ops[1] == Trim(args[1]);
    assert ops[2] == Trim(args[2]) && ops[3] == Trim(args[3]);
  }

  /** An ARIT word is the weighted sum of its fields. */
  lemma AritWordFields(w: int)
    requires 0x6000 <= w < 0x7000
    ensures w == 0x6000 + OpField(w) * 512 + DstField(w) * 64 + SrcField(w) * 8 + SecondField(w)
  {
    var q3 := w / 8;
    assert w == q3 * 8 + SecondField(w);
    var q2 := q3 / 8;
    assert q3 == q2 * 8 + SrcField(w) by { assert q3 % 8 == w / 8 % 8; }
    assert w / 64 == q2;
    var q1 := q2 / 8;
    assert q2 == q1 * 8 + DstField(w);
    assert w / 512 == q1;
    assert q1 == 48 + OpField(w);
  }

  /** The operand names of an ARIT word. */
  function AritNames(w: int): (names: seq<string>)
    requires IsAritWord(w)
    ensures |names| == 4
  {
    [ARIT_OP_NAMES[OpField(w)], REGISTER_NAMES[DstField(w)], REGISTER_NAMES[SrcField(w)],
     SecondOperandName(SecondField(w))]
  }

  /** The operand names of an ARIT word are comma-free words. */
  lemma AritNamesAreWords(w: int)
    requires IsAritWord(w)
    ensures var n := AritNames(w);
      IsWord(n[0]) && IsWord(n[1]) && IsWord(n[2]) && IsWord(n[3])
      && ',' !in n[0] && ',' !in n[1] && ',' !in n[2] && ',' !in n[3]
  {
    TableNamesAreWords();
    var k := SecondField(w);
    assert AritNames(w)[3] in SECOND_OPERAND_NAMES;
  }

  /** The operation name of a code has that code. */
  lemma AritOpCodeOfName(k: int)
    requires 0 <= k < 8
    ensures AritOpCode(ARIT_OP_NAMES[k]) == Some(k)
  {
  }

  /** The name of a register code has that code. */
  lemma RegisterCodeOfName(k: int)
    requires IsRegisterCode(k)
    ensures GetRegisterCode(REGISTER_NAMES[k], false) == Ok(k)
  {
  }

  /** The name of a second-operand field has that field. */
  lemma SecondCodeOfName(k: int)
    requires k == 0 || 4 <= k < 8
    ensures SecondOperandCode(SecondOperandName(k)) == Some(k)
  {
  }

  /** Encoding the operand names of an ARIT word gives the word. */
  lemma EncodeAritNames(w: int, ops: seq<string>)
    requires IsAritWord(w)
    requires |ops| == 4 && ops[0] == ARIT_OP_NAMES[OpField(w)] && ops[1] == REGISTER_NAMES[DstField(w)]
      && ops[2] == REGISTER_NAMES[SrcField(w)] && ops[3] == SecondOperandName(SecondField(w))
    ensures EncodeArit(ops) == Ok(w)
  {
    var op, dst, src, second := OpField(w), DstField(w), SrcField(w), SecondField(w);
    AritOpCodeOfName(op);
    RegisterCodeOfName(dst);
    RegisterCodeOfName(src);
    SecondCodeOfName(second);
    var x := AritWord(op, dst, src, second);
    assert EncodeArit(ops) == Ok(x);
    AritWordFields(w);
    assert x == w;
  }

  /** Disassembling an ARIT word and assembling the line gives the word back. */
  lemma AritRoundTrip(w: int)
    requires IsAritWord(w)
    ensures InterpretArit(DisassembleArit(w)) == Ok(w)
  {
    var n := AritNames(w);
    AritNamesAreWords(w);
    AritLineOperands(n[0], n[1], n[2], n[3]);
    assert DisassembleArit(w) == AritLine(n[0], n[1], n[2], n[3]);
    EncodeAritNames(w, AritOperands(DisassembleArit(w)));
  }

  /** Different codes carry different names. */
  lemma NamesDistinct()
    ensures forall i, j :: 0 <= i < j < 8 ==> ARIT_OP_NAMES[i] != ARIT_OP_NAMES[j]
    ensures forall i, j :: 0 <= i < j < 8 && IsRegisterCode(i) && IsRegisterCode(j) ==>
      REGISTER_NAMES[i] != REGISTER_NAMES[j]
  {
  }

  /** A second-operand name determines its field. */
  lemma SecondNameUnique(c1: int, c2: int, name: string)
    requires NamesSecondOperand(c1, name) && NamesSecondOperand(c2, name)
    ensures c1 == c2
  {
  }

  // ---------------------------------------------------------------------------
  // CALC
  // ---------------------------------------------------------------------------

  /** The space-separated tokens after the mnemonic. */
  function CalcArguments(line: string): (args: seq<string>)
    ensures |args| >= 1
  {
    Split(Trim(SubstringFrom(line, 4)), ' ')
  }

  /** ARIT operation for a CALC operator symbol. */
  function CalcOperation(symbol: Option<string>): (r: Option<string>)
    ensures r.Some? ==> r.value in ARIT_OP_NAMES
  {
    if symbol == Some("&") then Some("and")
    else if symbol == Some("|") then Some("or")
    else if symbol == Some("^") then Some("xor")
    else if symbol == Some("+") then Some("add")
    else if symbol == Some("-") then Some("sub")
    else None
  }

  const MISSING_EQUALS := "Calc instruction missing equals sign!"

  /** Operation, first and second operand of the short form `calc D = X`. */
  function ShortForm(x: string): (string, string, string)
  {
    if StartsWith(x, "~") then ("not", SubstringFrom(x, 1), "0")
    else if StartsWith(x, "0") then ("0", "a", "0")
    else if StartsWith(x, "f") then ("f", "a", "0")
    else ("add", x, "0")
  }

  /** Operation, first and second operand of a `calc` line whose tokens are `args`. */
  function CalcShape(args: seq<string>): Outcome<(string, string, string)>
  {
    if |args| == 3 then Ok(ShortForm(args[2]))
    else
      match CalcOperation(Arg(args, 3))
      case None => Raised(Assembling(InvalidCalcOperation(Substituted(Arg(args, 3)))))
      case Some(operation) => Ok((operation, Substituted(Arg(args, 2)), Substituted(Arg(args, 4))))
  }

  /** The `arit` line a `calc` line stands for, or what its expansion throws. */
  function CalcExpansion(line: string): Outcome<string>
  {
    var args := CalcArguments(line);
    if Arg(args, 1) != Some("=") then Raised(ConstructorCalledWithoutNew(MISSING_EQUALS))
    else
      match CalcShape(args)
      case Raised(e) => Raised(e)
      case Ok((operation, reg1, reg2)) => Ok(AritLine(operation, args[0], reg1, reg2))
  }

  /** `interpretCalc(line)`: the ARIT word of the expansion of a `calc` line. */
  function InterpretCalc(line: string): (r: Outcome<int>)
    ensures Arg(CalcArguments(line), 1) != Some("=") ==>
      r == Raised(ConstructorCalledWithoutNew(MISSING_EQUALS))
    ensures r.Ok? ==> IsAritWord(r.value)
  {
    match CalcExpansion(line)
    case Raised(e) => Raised(e)
    case Ok(arit) => InterpretArit(arit)
  }

  /** The line `calc` followed by the tokens, separated by single spaces. */
  function CalcLine(tokens: seq<string>): string
  {
    "calc " + Join(tokens, ' ')
  }

  /** A join of words starts and ends with a non-space character. */
  lemma {:induction false} JoinEnds(tokens: seq<string>)
    requires |tokens| >= 1
    requires forall i :: 0 <= i < |tokens| ==> IsWord(tokens[i])
    ensures var j := Join(tokens, ' ');
      |j| > 0 && !IsSpace(j[0]) && !IsSpace(j[|j| - 1])
  {
    var t := tokens[0];
    assert IsWord(t) && t[0] == t[0];
    if |tokens| > 1 {
      JoinEnds(tokens[1..]);
      var rest := Join(tokens[1..], ' ');
      assert Join(tokens, ' ') == t + [' '] + rest;
      assert (t + [' '] + rest)[0] == t[0];
    } else {
      assert !IsSpace(t[|t| - 1]);
    }
  }

  /** The tokens of `CalcLine(tokens)` for words. */
  lemma CalcLineArguments(tokens: seq<string>)
    requires |tokens| >= 1
    requires forall i :: 0 <= i < |tokens| ==> IsWord(tokens[i])
    ensures CalcArguments(CalcLine(tokens)) == tokens
  {
    var body := Join(tokens, ' ');
    JoinEnds(tokens);
    assert SubstringFrom("calc " + body, 4) == " " + body;
    TrimLeadingSpace(body);
    forall i | 0 <= i < |tokens| ensures ' ' !in tokens[i] {
      assert IsWord(tokens[i]);
    }
    SplitJoin(tokens, ' ');
  }

  /**
   * `calc D = R OP S` stands for `arit NAME, D, R, S`, where NAME is the ARIT
   * operation of the operator; an unknown operator is refused.
   */
  lemma CalcBinary(d: string, r: string, op: string, s: string)
    requires IsWord(d) && IsWord(r) && IsWord(op) && IsWord(s)
    ensures CalcExpansion(CalcLine([d, "=", r, op, s])) ==
      match CalcOperation(Some(op))
      case Some(name) => Ok(AritLine(name, d, r, s))
      case None => Raised(Assembling(InvalidCalcOperation(op)))
  {
    var tokens := [d, "=", r, op, s];
    assert IsWord("=");
    assert forall i :: 0 <= i < 5 ==> IsWord(tokens[i]);
    CalcLineArguments(tokens);
    BinaryExpansion(CalcLine(tokens), d, r, op, s);
  }

  /** The expansion of a line whose tokens are `D = R OP S`. */
  lemma BinaryExpansion(line: string, d: string, r: string, op: string, s: string)
    requires CalcArguments(line) == [d, "=", r, op, s]
    ensures CalcExpansion(line) ==
      match CalcOperation(Some(op))
      case Some(name) => Ok(AritLine(name, d, r, s))
      case None => Raised(Assembling(InvalidCalcOperation(op)))
  {
    var args := CalcArguments(line);
    assert Arg(args, 1) == Some("=") && Arg(args, 2) == Some(r) && Arg(args, 3) == Some(op) && Arg(args, 4) == Some(s);
  }

  /**
   * The three-token forms `calc D = X`: `~R` is NOT of R, a leading `0` or `f`
   * sets D to zero or to all ones, and anything else copies X through ADD with zero.
   */
  lemma ShortFormCases(x: string)
    requires |x| > 0
    ensures ShortForm(x) ==
      if x[0] == '~' then ("not", x[1..], "0")
      else if x[0] == '0' then ("0", "a", "0")
      else if x[0] == 'f' then ("f", "a", "0")
      else ("add", x, "0")
  {
    assert StartsWith(x, "~") <==> x[0] == '~';
    assert StartsWith(x, "0") <==> x[0] == '0';
    assert StartsWith(x, "f") <==> x[0] == 'f';
  }

  /** `calc D = X` stands for the `arit` line of its short form. */
  lemma CalcShort(d: string, x: string)
    requires IsWord(d) && IsWord(x)
    ensures CalcExpansion(CalcLine([d, "=", x])) == Ok(
      if x[0] == '~' then AritLine("not", d, x[1..], "0")
      else if x[0] == '0' then AritLine("0", d, "a", "0")
      else if x[0] == 'f' then AritLine("f", d, "a", "0")
      else AritLine("add", d, x, "0"))
  {
    var tokens := [d, "=", x];
    assert IsWord("=");
    assert forall i :: 0 <= i < 3 ==> IsWord(tokens[i]);
    CalcLineArguments(tokens);
    ShortFormCases(x);
  }

  // ---------------------------------------------------------------------------
  // Hexadecimal text of words
  // ---------------------------------------------------------------------------

  /** `number.toString(16)`. */
  function NumberText(n: Number): string
  {
    match n
    case NaN => "NaN"
    case Int(i) => Numerals.Hex(i)
  }

  /** `toHexStr(number)`: the hexadecimal text with '0's prepended up to four characters. */
  function HexText(n: Number): string
  {
    var s := NumberText(n);
    if |s| < 4 then Numerals.Zeros(4 - |s|) + s else s
  }

  /** Loop form of `toHexStr`. */
  method ToHexStr(number: Number) returns (str: string)
    ensures str == HexText(number)
  {
    str := NumberText(number);
    var padding := 4 - |str|;
    var i := 0;
    while i < padding
      invariant 0 <= i && (padding > 0 ==> i <= padding) && (padding <= 0 ==> i == 0)
      invariant str == Numerals.Zeros(i) + NumberText(number)
    {
      PadStep(i, NumberText(number));
      str := "0" + str;
      i := i + 1;
    }
  }

  /** One more '0' in front of the padded text. */
  lemma PadStep(i: nat, text: string)
    ensures "0" + (Numerals.Zeros(i) + text) == Numerals.Zeros(i + 1) + text
  {
    assert Numerals.Zeros(i + 1) == "0" + Numerals.Zeros(i);
  }

  /** A 16-bit word is written as exactly four hexadecimal digits that read back as the word. */
  lemma HexTextWord(v: int)
    requires 0 <= v <= 0xFFFF
    ensures var s := HexText(Int(v));
      |s| == 4 && Numerals.AllDigitsIn(s, 16) && Numerals.FromBase(s, 16) == v
  {
    var t := Numerals.ToBase(v, 16);
    assert Numerals.Power(16, 4) == 0x10000;
    Numerals.ToBaseLength(v, 16, 4);
    Numerals.FromToBase(v, 16);
    Numerals.LeadingZeros(4 - |t|, t, 16);
  }

  // ---------------------------------------------------------------------------
  // The image text
  // ---------------------------------------------------------------------------

  /** The image with bundling off: every word's hexadecimal text followed by a space. */
  function FlatImage(memory: seq<Number>): string
  {
    if memory == [] then "" else HexText(memory[0]) + " " + FlatImage(memory[1..])
  }

  /** Reads a flat image back: four hexadecimal digits and a space per word. */
  function ReadFlatImage(s: string): Option<seq<int>>
  {
    if s == [] then Some([])
    else if |s| >= 5 && s[4] == ' ' && Numerals.AllDigitsIn(s[..4], 16) then
      match ReadFlatImage(s[5..])
      case None => None
      case Some(rest) => Some([Numerals.FromBase(s[..4], 16) as int] + rest)
    else None
  }

  /** A memory image made of 16-bit words. */
  predicate AllWords(memory: seq<Number>)
  {
    forall k :: 0 <= k < |memory| ==> memory[k].Int? && 0 <= memory[k].i <= 0xFFFF
  }

  function Values(memory: seq<Number>): (vs: seq<int>)
    requires AllWords(memory)
    ensures |vs| == |memory| && forall k :: 0 <= k < |memory| ==> vs[k] == memory[k].i
  {
    seq(|memory|, k requires 0 <= k < |memory| => memory[k].i)
  }

  lemma FlatImageHead(h: string, tail: string)
    requires |h| == 4
    ensures var s := h + " " + tail;
            |s| == 5 + |tail| && s[..4] == h && s[4] == ' ' && s[5..] == tail
  {
    var s := h + " " + tail;
    assert s[..4] == h;
    assert s[5..] == tail;
  }

  lemma ValuesCons(memory: seq<Number>)
    requires AllWords(memory) && memory != [] && AllWords(memory[1..])
    ensures Values(memory) == [memory[0].i] + Values(memory[1..])
  {
    assert Values(memory) == [memory[0].i] + Values(memory[1..]);
  }

  /** The flat image of 16-bit words reads back as those words, in order. */
  lemma {:induction false} FlatImageRoundTrip(memory: seq<Number>)
    requires AllWords(memory)
    ensures |FlatImage(memory)| == 5 * |memory|
    ensures ReadFlatImage(FlatImage(memory)) == Some(Values(memory))
  {
    if memory != [] {
      var h := HexText(memory[0]);
      HexTextWord(memory[0].i);
      var s := FlatImage(memory);
      assert AllWords(memory[1..]);
      FlatImageRoundTrip(memory[1..]);
      FlatImageHead(h, FlatImage(memory[1..]));
      ValuesCons(memory);
    }
  }

  /** Number of words directly after a word that compare equal to its value. */
  function SameRun(value: Number, rest: seq<Number>): (n: nat)
    ensures n <= |rest|
    ensures forall k :: 0 <= k < n ==> LooseEquals(rest[k], value)
    ensures n < |rest| ==> !LooseEquals(rest[n], value)
  {
    if rest != [] && LooseEquals(rest[0], value) then 1 + SameRun(value, rest[1..]) else 0
  }

  /** The first run of a non-empty image. */
  function FirstRun(memory: seq<Number>): (n: nat)
    requires memory != []
    ensures 1 <= n <= |memory|
  {
    1 + SameRun(memory[0], memory[1..])
  }

  /** `times + "*"` in front of a bundled word whose count is not 1. */
  function CountPrefix(times: nat): string
  {
    if times != 1 then Numerals.Decimal(times) + "*" else ""
  }

  /** The image with bundling on: each run of equal words as its count, a `*`, and the word. */
  function BundledImage(memory: seq<Number>): string
    decreases |memory|
  {
    if memory == [] then ""
    else
      var n := FirstRun(memory);
      CountPrefix(n) + HexText(memory[0]) + " " + BundledImage(memory[n..])
  }

  /** The runs of equal words of an image: (count, word) in order. */
  function Runs(memory: seq<Number>): seq<(nat, Number)>
    decreases |memory|
  {
    if memory == [] then []
    else
      var n := FirstRun(memory);
      [(n, memory[0])] + Runs(memory[n..])
  }

  /** `n` copies of a word. */
  function Repeat(v: Number, n: nat): (r: seq<Number>)
    ensures |r| == n && forall k :: 0 <= k < n ==> r[k] == v
  {
    seq(n, _ => v)
  }

  /** The image a sequence of runs stands for. */
  function Expand(runs: seq<(nat, Number)>): seq<Number>
  {
    if runs == [] then [] else Repeat(runs[0].1, runs[0].0) + Expand(runs[1..])
  }

  /** The words of the first run are all the first word. */
  lemma FirstRunWords(memory: seq<Number>)
    requires memory != []
    ensures Repeat(memory[0], FirstRun(memory)) == memory[..FirstRun(memory)]
  {
    var n := FirstRun(memory);
    var head := Repeat(memory[0], n);
    forall k | 0 <= k < n ensures head[k] == memory[k] {
      if k > 0 {
        assert LooseEquals(memory[1..][k - 1], memory[0]);
      }
    }
  }

  /** The expansion of an image's runs starts with the copies of its first run. */
  lemma ExpandFirst(memory: seq<Number>)
    requires memory != []
    ensures Expand(Runs(memory)) ==
      Repeat(memory[0], FirstRun(memory)) + Expand(Runs(memory[FirstRun(memory)..]))
  {
    var runs := Runs(memory);
    assert runs[1..] == Runs(memory[FirstRun(memory)..]);
  }

  /** A prefix and the matching suffix make up the whole. */
  lemma Glue(memory: seq<Number>, n: nat, head: seq<Number>, tail: seq<Number>)
    requires n <= |memory| && head == memory[..n] && tail == memory[n..]
    ensures head + tail == memory
  {
    assert memory == memory[..n] + memory[n..];
  }

  /** Expanding the runs of an image restores the image. */
  lemma {:induction false} RunsExpand(memory: seq<Number>)
    ensures Expand(Runs(memory)) == memory
    decreases |memory|
  {
    if memory != [] {
      var n := FirstRun(memory);
      var rest := memory[n..];
      RunsExpand(rest);
      FirstRunWords(memory);
      ExpandFirst(memory);
      Glue(memory, n, Repeat(memory[0], n), Expand(Runs(rest)));
    }
  }

  /** Every run holds at least one word. */
  lemma {:induction false} RunsNonEmpty(memory: seq<Number>, k: nat)
    requires k < |Runs(memory)|
    ensures Runs(memory)[k].0 >= 1
    decreases |memory|
  {
    var n := FirstRun(memory);
    if k > 0 {
      assert Runs(memory)[k] == Runs(memory[n..])[k - 1];
      RunsNonEmpty(memory[n..], k - 1);
    }
  }

  /** No two neighbouring runs could have been merged: their words compare unequal. */
  lemma {:induction false} RunsMaximal(memory: seq<Number>, k: nat)
    requires k + 1 < |Runs(memory)|
    ensures !LooseEquals(Runs(memory)[k + 1].1, Runs(memory)[k].1)
    decreases |memory|
  {
    var n := FirstRun(memory);
    var rest := memory[n..];
    var runs := Runs(memory);
    assert runs[1..] == Runs(rest);
    if k > 0 {
      RunsMaximal(rest, k - 1);
    } else {
      assert rest[0] == memory[1..][n - 1];
      assert Runs(rest)[0].1 == rest[0];
    }
  }

  /** The number of leading decimal digits of `s`. */
  function DigitRun(s: string): (n: nat)
    ensures n <= |s|
    decreases |s|
  {
    if s != [] && Numerals.IsDigitIn(s[0], 10) then 1 + DigitRun(s[1..]) else 0
  }

  /** A decimal numeral in front of a non-digit is the digit run. */
  lemma {:induction false} DigitRunOf(digits: string, rest: string)
    requires Numerals.AllDigitsIn(digits, 10)
    requires rest != [] && !Numerals.IsDigitIn(rest[0], 10)
    ensures DigitRun(digits + rest) == |digits|
    decreases |digits|
  {
    var s := digits + rest;
    if digits != [] {
      assert s[0] == digits[0];
      assert s[1..] == digits[1..] + rest;
      assert Numerals.AllDigitsIn(digits[1..], 10) by {
        forall k | 0 <= k < |digits[1..]| ensures Numerals.IsDigitIn(digits[1..][k], 10) {
          assert digits[1..][k] == digits[k + 1];
        }
      }
      DigitRunOf(digits[1..], rest);
    } else {
      assert s == rest;
    }
  }

  /** `n` copies of a value. */
  function RepeatValue(v: int, n: nat): (r: seq<int>)
    ensures |r| == n && forall k :: 0 <= k < n ==> r[k] == v
  {
    seq(n, k => v)
  }

  /**
   * Reads a bundled image back: a word is `hhhh ` for a single copy, or a
   * decimal count, a `*` and `hhhh ` for that many copies.
   */
  function ReadBundledImage(s: string): Option<seq<int>>
    decreases |s|
  {
    if s == [] then Some([])
    else if |s| >= 5 && s[4] == ' ' && Numerals.AllDigitsIn(s[..4], 16) then
      match ReadBundledImage(s[5..])
      case None => None
      case Some(rest) => Some([Numerals.FromBase(s[..4], 16) as int] + rest)
    else
      var d := DigitRun(s);
      if 1 <= d && d + 6 <= |s| && s[d] == '*' && s[d + 5] == ' '
         && Numerals.AllDigitsIn(s[..d], 10) && Numerals.AllDigitsIn(s[d + 1..d + 5], 16) then
        match ReadBundledImage(s[d + 6..])
        case None => None
        case Some(rest) =>
          Some(RepeatValue(Numerals.FromBase(s[d + 1..d + 5], 16), Numerals.FromBase(s[..d], 10)) + rest)
      else None
  }

  /** The pieces of a counted word: the count, the `*`, the word and the space. */
  lemma CountedHead(count: string, h: string, tail: string)
    requires |count| >= 1 && Numerals.AllDigitsIn(count, 10) && |h| == 4 && Numerals.AllDigitsIn(h, 16)
    ensures var s := count + "*" + h + " " + tail; var d := |count|;
      && d + 6 <= |s| && s[4] != ' ' && s[d] == '*' && s[d + 5] == ' '
      && s[..d] == count && s[d + 1..d + 5] == h && s[d + 6..] == tail
  {
    var s := count + "*" + h + " " + tail;
    var d := |count|;
    assert s[..d] == count;
    assert s[d + 1..d + 5] == h;
    assert s[d + 6..] == tail;
    if 4 < d {
      assert s[4] == count[4];
    } else if d < 4 {
      assert s[4] == h[3 - d];
    }
  }

  /** The decimal numeral of a count reads back as the count. */
  lemma CountNumeral(n: nat)
    ensures var c := Numerals.Decimal(n);
      |c| >= 1 && Numerals.AllDigitsIn(c, 10) && Numerals.FromBase(c, 10) == n
  {
    Numerals.FromToBase(n, 10);
  }

  /** The values of an image: those of its first `n` words, then the rest. */
  lemma ValuesRun(memory: seq<Number>, n: nat)
    requires AllWords(memory) && 1 <= n <= |memory|
    requires forall k :: 0 <= k < n ==> memory[k] == memory[0]
    ensures AllWords(memory[n..])
    ensures Values(memory) == RepeatValue(memory[0].i, n) + Values(memory[n..])
  {
    assert AllWords(memory[n..]) by {
      forall k | 0 <= k < |memory[n..]| ensures memory[n..][k] == memory[k + n] {}
    }
    var r := RepeatValue(memory[0].i, n) + Values(memory[n..]);
    forall k | 0 <= k < |memory| ensures r[k] == Values(memory)[k] {
      if k >= n {
        assert memory[n..][k - n] == memory[k];
      }
    }
  }

  /** A single word `hhhh ` in front of a readable tail. */
  lemma SingleRead(h: string, tail: string, rest: seq<int>)
    requires |h| == 4 && Numerals.AllDigitsIn(h, 16)
    requires ReadBundledImage(tail) == Some(rest)
    ensures ReadBundledImage(h + " " + tail) == Some([Numerals.FromBase(h, 16) as int] + rest)
  {
    FlatImageHead(h, tail);
  }

  /** A counted word `N*hhhh ` in front of a readable tail. */
  lemma CountedRead(n: nat, h: string, tail: string, rest: seq<int>)
    requires |h| == 4 && Numerals.AllDigitsIn(h, 16)
    requires ReadBundledImage(tail) == Some(rest)
    ensures ReadBundledImage(Numerals.Decimal(n) + "*" + h + " " + tail)
         == Some(RepeatValue(Numerals.FromBase(h, 16), n) + rest)
  {
    var count := Numerals.Decimal(n);
    var s := count + "*" + h + " " + tail;
    CountNumeral(n);
    CountedHead(count, h, tail);
    assert s == count + ("*" + h + " " + tail);
    DigitRunOf(count, "*" + h + " " + tail);
  }

  /** A piece of the bundled image, for any count, in front of a readable tail. */
  lemma PieceRead(n: nat, h: string, tail: string, rest: seq<int>)
    requires n >= 1 && |h| == 4 && Numerals.AllDigitsIn(h, 16)
    requires ReadBundledImage(tail) == Some(rest)
    ensures ReadBundledImage(CountPrefix(n) + h + " " + tail)
         == Some(RepeatValue(Numerals.FromBase(h, 16), n) + rest)
  {
    if n == 1 {
      assert CountPrefix(n) + h + " " + tail == h + " " + tail;
      SingleRead(h, tail, rest);
      assert RepeatValue(Numerals.FromBase(h, 16), 1) == [Numerals.FromBase(h, 16) as int];
    } else {
      CountedRead(n, h, tail, rest);
    }
  }

  /** The bundled image of 16-bit words reads back as those words, in order. */
  lemma {:induction false} BundledImageRoundTrip(memory: seq<Number>)
    requires AllWords(memory)
    ensures ReadBundledImage(BundledImage(memory)) == Some(Values(memory))
    decreases |memory|
  {
    if memory != [] {
      var n := FirstRun(memory);
      var h := HexText(memory[0]);
      HexTextWord(memory[0].i);
      FirstRunWords(memory);
      assert forall k :: 0 <= k < n ==> memory[k] == memory[..n][k];
      ValuesRun(memory, n);
      BundledImageRoundTrip(memory[n..]);
      PieceRead(n, h, BundledImage(memory[n..]), Values(memory[n..]));
    }
  }

  /** The image text for either setting of `bundling`. */
  function Image(memory: seq<Number>, bundling: bool): string
  {
    if bundling then BundledImage(memory) else FlatImage(memory)
  }

  /** A run that the loop measured has the length `SameRun` computes. */
  lemma {:induction false} SameRunIs(value: Number, rest: seq<Number>, n: nat)
    requires n <= |rest|
    requires forall k :: 0 <= k < n ==> LooseEquals(rest[k], value)
    requires n < |rest| ==> !LooseEquals(rest[n], value)
    ensures SameRun(value, rest) == n
    decreases n
  {
    if n > 0 {
      var tail := rest[1..];
      assert forall k :: 0 <= k < n - 1 ==> tail[k] == rest[k + 1];
      assert n - 1 < |tail| ==> tail[n - 1] == rest[n];
      SameRunIs(value, tail, n - 1);
    }
  }

  /** The run the loop measured from `start` to `stop` is the first run of `memory[start..]`. */
  lemma RunLength(memory: seq<Number>, start: nat, stop: nat)
    requires start < stop <= |memory|
    requires forall k :: start < k < stop ==> LooseEquals(memory[k], memory[start])
    requires stop < |memory| ==> !LooseEquals(memory[stop], memory[start])
    ensures BundledImage(memory[start..]) ==
      CountPrefix(stop - start) + HexText(memory[start]) + " " + BundledImage(memory[stop..])
  {
    var m := memory[start..];
    var rest := m[1..];
    SuffixSlices(memory, start, stop);
    SameRunIs(m[0], rest, stop - start - 1);
  }

  lemma SuffixSlices(memory: seq<Number>, start: nat, stop: nat)
    requires start < stop <= |memory|
    ensures var rest := memory[start..][1..];
            |rest| == |memory| - start - 1 &&
            (forall k :: 0 <= k < |rest| ==> rest[k] == memory[start + 1 + k]) &&
            memory[start..][0] == memory[start] && memory[start..][stop - start..] == memory[stop..]
  {
  }

  /** One step of the image: the first word's text, with its count when bundling. */
  lemma ImageStep(memory: seq<Number>, start: nat, stop: nat, bundling: bool)
    requires start < stop <= |memory|
    requires !bundling ==> stop == start + 1
    requires bundling ==> forall k :: start < k < stop ==> LooseEquals(memory[k], memory[start])
    requires bundling && stop < |memory| ==> !LooseEquals(memory[stop], memory[start])
    ensures Image(memory[start..], bundling) ==
      (if bundling then CountPrefix(stop - start) else "") + (HexText(memory[start]) + " ")
      + Image(memory[stop..], bundling)
  {
    var text := HexText(memory[start]) + " ";
    if bundling {
      RunLength(memory, start, stop);
      Associate(CountPrefix(stop - start), HexText(memory[start]), " ", BundledImage(memory[stop..]));
    } else {
      FlatStep(memory, start);
      assert "" + text == text;
    }
  }

  /** The flat image of a suffix is its first word's text and the image of the rest. */
  lemma FlatStep(memory: seq<Number>, start: nat)
    requires start < |memory|
    ensures FlatImage(memory[start..]) == HexText(memory[start]) + " " + FlatImage(memory[start + 1..])
  {
    var m := memory[start..];
    assert m[0] == memory[start];
    assert m[1..] == memory[start + 1..];
  }

  lemma Associate(a: string, b: string, c: string, d: string)
    ensures a + b + c + d == a + (b + c) + d
  {
  }

  /**
   * The inner loop of `output` with bundling on: advance past the words
   * equal to `memory[start]`, counting them with the first.
   */
  method CountRun(memory: seq<Number>, start: nat) returns (stop: nat, times: nat)
    requires start < |memory|
    ensures start < stop <= |memory| && times == stop - start
    ensures forall k :: start < k < stop ==> LooseEquals(memory[k], memory[start])
    ensures stop < |memory| ==> !LooseEquals(memory[stop], memory[start])
  {
    var value := memory[start];
    times := 1;
    stop := start + 1;
    while stop < |memory| && LooseEquals(value, memory[stop])
      invariant start < stop <= |memory| && times == stop - start
      invariant forall k :: start < k < stop ==> LooseEquals(memory[k], value)
      decreases |memory| - stop
    {
      times := times + 1;
      stop := stop + 1;
    }
  }

  /**
   * Loop form of `output`: with bundling off, each word's text with a space;
   * with bundling on, runs of equal words counted.
   */
  method Serialise(memory: seq<Number>, bundling: bool) returns (output: string)
    ensures output == Image(memory, bundling)
  {
    output := "";
    var i := 0;
    while i < |memory|
      invariant 0 <= i <= |memory|
      invariant output + Image(memory[i..], bundling) == Image(memory, bundling)
      decreases |memory| - i
    {
      var piece, next := NextPiece(memory, i, bundling);
      Associate3(output, piece, Image(memory[next..], bundling));
      output := output + piece;
      i := next;
    }
  }

  /** One pass of the loop of `output`: the text of the word at `start`, with its count when bundling. */
  method NextPiece(memory: seq<Number>, start: nat, bundling: bool) returns (piece: string, stop: nat)
    requires start < |memory|
    ensures start < stop <= |memory|
    ensures Image(memory[start..], bundling) == piece + Image(memory[stop..], bundling)
  {
    var times := 1;
    var value := memory[start];
    var prefix := "";
    if bundling {
      stop, times := CountRun(memory, start);
      if times != 1 {
        prefix := Numerals.Decimal(times) + "*";
      }
    } else {
      stop := start + 1;
    }
    var text := ToHexStr(value);
    piece := prefix + (text + " ");
    ImageStep(memory, start, stop, bundling);
    Associate3(prefix, text + " ", Image(memory[stop..], bundling));
  }

  lemma Associate3(a: string, b: string, c: string)
    ensures a + b + c == a + (b + c)
  {
  }
}
