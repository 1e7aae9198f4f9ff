# emulador-oac in Dafny

A model of the two halves of emulador-oac, a teaching tool for a small 16-bit instruction set.

The first half is the assembler from `Assembler/scripts.js`. It makes one pass over the lines of the source text. Each line is trimmed and lower-cased; blank lines are skipped. A line is then one of:
- a label definition `name:`;
- a data directive (`dw`, `times`);
- an instruction (`nop`, `lda`, `sta`, `jmp`, `jnz`, `arit`, `calc`, `hlt`).

Words are written into a growing memory behind a write head that only moves forward. Forward references to labels wait in a ledger of fixups until the label is defined. The image is written out as hexadecimal text.

The second half is the emulator in C:
- `src/Emulador.c`: the emulator's step semantics. This covers fetch, execute and advance over a memory of 16-bit words, the ARIT unit and its PSW flags, reset to the initial snapshot, and the breakpoint bookkeeping that decides when the command prompt is reached.
- `src/Util.c`: bit helpers, C-string helpers and a growable vector.
- `src/StringBuffer.c`: a growable string buffer, including the translation of `§X` colour markers into ANSI escapes.
- `EP1.c`: an earlier, smaller processor loop.

Modules and files:

| module | file | models |
|---|---|---|
| `Wrappers` | wrappers.dfy | `Option` |
| `Numerals` | numerals.dfy | numerals in a base; C `%i` and JavaScript `toString(16)` of integers |
| `Bits` | bits.dfy | `&`, `\|`, `^`, `~`, `>>` on naturals, bit by bit |
| `JsRuntime` | js_runtime.dfy | the JavaScript built-ins the assembler uses: `trim`, `toLowerCase`, `split`, `join`, `startsWith`, `endsWith`, `substring`, `Number(...)`, `\|`, `==` |
| `AsmEncoding` | asm_encoding.dfy | `getRegisterCode`, `toAddress`, `interpretArit`, `interpretCalc`, `toHexStr`, and the image text of `output` |
| `AsmCompilation` | asm_compilation.dfy | the `Compilation` class: `emit`, `moveHeadTo`, `advanceHead`, `getTarget`, label definitions, `interpretDataDirective`, `times`, the `perform` loop, `output` |
| `AsmFixups` | asm_fixups.dfy | forward references to labels across the `perform` loop: the placeholders waiting in the fixup ledger, and their completion when the label is defined |
| `Util` | util.dfy | `setBit`, `getBit`, `toLowerCase`, `strEquals`, `vecInit`, `vecGrow`, `vecAdd`, `vecRemove` |
| `StringBuffers` | string_buffer.dfy | `stbInit`, `stbGrow`, `stbAppendv`, `stbAppendBuffer`, `stbColorize`, `stbFree` |
| `Cpu` | cpu.dfy | the 16-bit word, `uint16_t` wrap-around, and the opcode and argument fields of an instruction |
| `Emulador` | emulator.dfy | `emuGetRegister`, `emuDoArit`, `emuExecute`, `emuFetch`, `emuAdvance`, `emuReset`, `emuGuardAddress`, `emuFault`, `emuSetBreakpoint`, `emuGetBreakpoint`, `emuCheckBreakpoints`, and the step countdown of `cliBeforeExecute` |
| `Ep1` | ep1.dfy | the loop of `processa` in EP1.c |

Where the source changes state in place, the model does too:
- the `Compilation` class;
- the emulator, whose memory is an `array`;
- the string buffer;
- the vector;
- `toLowerCase`, on an array of characters;
- the loop of `processa`.

Each of these methods is proved against a specification function on values, and the properties are proved about those functions. The pure encoders are functions.

JavaScript numbers are modelled as `Number = Int(i) | NaN`. `Number(token)` reads an optionally signed decimal numeral, with surrounding whitespace ignored and the empty string as 0; every other token is NaN. NaN is carried through as JavaScript carries it:
- comparisons with NaN are false;
- `NaN | x` is `x`;
- a loop bounded by NaN runs no iteration.

`|` is modelled exactly, through ToInt32.

Missing tokens are modelled as `undefined`. Calling a string method on one throws a TypeError. `throw BadSyntax(...)` without `new` is also a TypeError. Neither is an `AssemblingError`, so both escape `perform` through its rethrow.

The emulator's build flags are fixed at the values the source sets:
- `DUMMY_MODE` 0;
- `START_IN_BREAKING_MODE` 1;
- `BREAK_AT_FAULTS` 1;
- `BREAK_AT_HALT` 1;
- `FAULT_ON_LOOP_AROUND` 1.

## Model

| member | source | states |
|---|---|---|
| AsmEncoding.GetRegisterCode | Assembler/scripts.js:36-50 | a, b, c, d, r, psw map to the codes 0, 1, 2, 3, 6, 7 (the code names the register). Any other name throws BadSyntax "Invalid register". With `lower` set, r and psw throw the "cannot be addressed here" error instead |
| AsmEncoding.ToAddress | Assembler/scripts.js:69-74 | the result is `Number(str)`. An integer result lies in 0..0xFFF; anything outside throws BadAddressSyntax. NaN fails both comparisons and is returned |
| AsmEncoding.AddressRoundTrip | Assembler/scripts.js:69-74 | the decimal numeral of n is accepted as the address n exactly when 0 <= n <= 0xFFF, and throws BadAddressSyntax otherwise |
| AsmEncoding.AritOpCode | Assembler/scripts.js:207-219 | an operation is accepted exactly when it is one of 0, f, not, and, or, xor, add, sub, and its code (0..7) is its position in that table |
| AsmEncoding.SecondOperandCode | Assembler/scripts.js:227-238 | the second operand is accepted exactly when it is 0, zero, a, b, c or d. Its field is 0 for 0 and zero, and 4 + the register code for a..d |
| AsmEncoding.AritWord | Assembler/scripts.js:205-240 | `0x6000 \| op<<9 \| dst<<6 \| src<<3 \| second` equals the weighted sum of the fields, because they occupy disjoint bits |
| AsmEncoding.AritFields | Assembler/scripts.js:205-240 | the opcode nibble of an ARIT word is 6, and the operation, destination, first-operand and second-operand fields read back from it |
| AsmEncoding.EncodeArit | Assembler/scripts.js:207-240 | the operands are accepted exactly when they are valid, and then the word is an ARIT word whose fields name them. An invalid operation, a missing operand, an invalid register and an invalid second operand each give their own error, in operand order. The last of these reports the first register, as the source does |
| AsmEncoding.InterpretArit | Assembler/scripts.js:202-241 | `interpretArit(line)` succeeds exactly when the trimmed comma-separated operands after `arit` are valid, and the word's fields then name them |
| AsmEncoding.AritRoundTrip | Assembler/scripts.js:202-241 | for every ARIT word the assembler can produce, assembling its canonical `arit` line gives the word back |
| AsmEncoding.NamesDistinct | Assembler/scripts.js:209-216 | no two operation codes or register codes share a name, so an ARIT line is read unambiguously |
| AsmEncoding.SecondNameUnique | Assembler/scripts.js:229-235 | a second-operand name determines its field |
| AsmEncoding.InterpretCalc | Assembler/scripts.js:243-290 | a calc line without `=` as its second token throws the TypeError of `BadSyntax` called without `new`. A successful calc gives an ARIT word |
| AsmEncoding.CalcBinary | Assembler/scripts.js:273-289 | `calc d = r OP s` expands to `arit NAME, d, r, s`, where NAME is and, or, xor, add or sub for `& \| ^ + -`; any other operator throws "Invalid CALC operation" |
| AsmEncoding.ShortFormCases | Assembler/scripts.js:256-272 | the short forms `calc d = X`: `~R` is not with R; a leading 0 is 0 with a; a leading f is f with a; anything else is add of X; the second operand is 0 in each case |
| AsmEncoding.CalcShort | Assembler/scripts.js:256-289 | `calc d = X` expands to the `arit` line of its short form |
| AsmEncoding.CalcLineArguments | Assembler/scripts.js:244-245 | the space-separated operands after `calc` are the tokens the line was built from |
| AsmEncoding.ToHexStr | Assembler/scripts.js:60-67 | the loop that pads with '0' produces the `toString(16)` text padded with zeros up to four characters |
| AsmEncoding.HexTextWord | Assembler/scripts.js:60-67 | a 16-bit word is written as exactly four lower-case hexadecimal digits that read back as the word |
| AsmEncoding.FlatImageRoundTrip | Assembler/scripts.js:318-341 | with bundling off, the image of 16-bit words is five characters per word and reads back as the words, in offset order |
| AsmEncoding.Serialise | Assembler/scripts.js:318-341 | the loop of `output`, for either setting of `bundling`, produces the image text: every word on its own, or each run of equal words as its count and `*` when bundling |
| AsmEncoding.NextPiece | Assembler/scripts.js:323-338 | one pass of the loop of `output` produces the text of the word at the index, and with bundling its count, followed by the image of the remaining words |
| AsmEncoding.CountRun | Assembler/scripts.js:326-329 | the bundling inner loop stops at the first word that does not compare equal, and `times` counts the run including its first word |
| AsmEncoding.RunsExpand | Assembler/scripts.js:326-333 | the runs the bundled image is made of expand back into the memory |
| AsmEncoding.RunsNonEmpty | Assembler/scripts.js:326-333 | every run holds at least one word |
| AsmEncoding.RunsMaximal | Assembler/scripts.js:326-333 | neighbouring runs hold words that compare unequal, so no run could be longer |
| AsmEncoding.RunLength | Assembler/scripts.js:323-338 | a run measured by the loop is written as its count prefix (omitted for 1), the word's text and a space, followed by the image of the rest |
| AsmEncoding.BundledImageRoundTrip | Assembler/scripts.js:323-338 | with `bundling` on, the image of 16-bit words reads back as the words, in order: a lone word is `hhhh `, and a run of n > 1 equal words is the decimal n, `*` and `hhhh ` |
| JsRuntime.TrimStart | Assembler/scripts.js:95 | leading whitespace removed: a suffix of the string that is empty or starts with a non-space |
| JsRuntime.TrimEnd | Assembler/scripts.js:95 | trailing whitespace removed: a prefix of the string that is empty or ends with a non-space |
| JsRuntime.TrimStartDropsSpaces | Assembler/scripts.js:95 | everything `trim` drops at the front is whitespace |
| JsRuntime.TrimEndDropsSpaces | Assembler/scripts.js:95 | everything `trim` drops at the back is whitespace |
| JsRuntime.TrimNoSpace | Assembler/scripts.js:95 | a string that neither starts nor ends with whitespace is its own trim |
| JsRuntime.Split | Assembler/scripts.js:90 | `split` always yields at least one piece |
| JsRuntime.JoinSplit | Assembler/scripts.js:117-126 | joining the pieces of a split with the separator restores the string |
| JsRuntime.SplitJoin | Assembler/scripts.js:126 | splitting a join of separator-free pieces gives the pieces back |
| JsRuntime.Arg | Assembler/scripts.js:118 | `args[k]` is the element when k is in range, and `undefined` past the end |
| JsRuntime.ParseDecimal | Assembler/scripts.js:70 | `Number` of the decimal numeral of an integer is that integer |
| JsRuntime.BitOrSmall | Assembler/scripts.js:110 | `a \| b` on unsigned 32-bit operands is their bitwise OR, read as a signed 32-bit integer |
| JsRuntime.OrLow12 | Assembler/scripts.js:134-149 | OR-ing a 12-bit address into an opcode nibble is addition |
| JsRuntime.OrZero | Assembler/scripts.js:209 | OR with 0 keeps a non-negative 32-bit value |
| Numerals.FromToBase | Assembler/scripts.js:61 | the numeral `toString` writes for a natural reads back as that natural |
| Numerals.ToBaseLength | Assembler/scripts.js:61-62 | a number below base^k is written with at most k digits, so a 16-bit word needs no more than four hexadecimal digits |
| Numerals.LeadingZeros | Assembler/scripts.js:63-65 | the zeros `toHexStr` prepends do not change the value of the numeral |
| AsmCompilation.Compilation.constructor | Assembler/scripts.js:77-84 | line 1, head at 0, empty memory, no labels, no fixups, fill pattern 0 |
| AsmCompilation.EmitEffects | Assembler/scripts.js:357-371 | `emit(hex, times)` has three effects on memory and the head: cells below the old length are unchanged, the gap up to the head gets the fill pattern, and `times` copies of `hex` follow. The head moves past them and nothing else changes |
| AsmCompilation.EmitConsistent | Assembler/scripts.js:357-371 | emitting keeps the ledger invariant: nothing is written at or past the head, a label with pending fixups is undefined, and every pending offset is a written cell, in order |
| AsmCompilation.Compilation.Emit | Assembler/scripts.js:357-371 | the method updates the fields exactly as `Emitted` says |
| AsmCompilation.HeadMovedTo | Assembler/scripts.js:343-348 | moving the head throws exactly when the location is behind it. Otherwise the head is at the location and memory is unchanged |
| AsmCompilation.HeadAdvanced | Assembler/scripts.js:350-355 | advancing the head throws exactly when the increment is negative. Otherwise the head moves by the increment and memory is unchanged |
| AsmCompilation.HeadMovesConsistent | Assembler/scripts.js:343-355 | both head moves keep the ledger invariant |
| AsmCompilation.Compilation.MoveHeadTo | Assembler/scripts.js:343-348 | the method either throws and changes nothing, or ends in the state `HeadMovedTo` gives |
| AsmCompilation.Compilation.AdvanceHead | Assembler/scripts.js:350-355 | the method either throws and changes nothing, or ends in the state `HeadAdvanced` gives |
| AsmCompilation.TargetCases | Assembler/scripts.js:292-316 | a defined `:label` gives its position and changes nothing. An undefined one gives 0 and appends the current position to that label's fixup list, leaving every other list as it was. Any other operand goes through `toAddress` |
| AsmCompilation.Compilation.GetTarget | Assembler/scripts.js:292-316 | the method returns the address and leaves the state that `Target` gives |
| AsmCompilation.PatchedCells | Assembler/scripts.js:108-111 | patching ORs the position into each pending offset once and leaves every other cell unchanged |
| AsmCompilation.LabelDefinedEffects | Assembler/scripts.js:99-115 | defining `label:` records the position, ORs it into every cell waiting for the label, drops the label's ledger entry and keeps the invariant |
| AsmCompilation.Compilation.DefineLabel | Assembler/scripts.js:99-115 | the method's new state is `LabelDefined` |
| AsmCompilation.PatchResolves | Assembler/scripts.js:105-111 | the placeholder of a forward reference is the bare opcode; the patch turns it into the opcode with the 12-bit position as its address |
| AsmCompilation.DataDirectiveCases | Assembler/scripts.js:191-200 | `dw N` emits N when N is at most 0xFFFF, or is NaN. Otherwise it throws, in the same way in every state: BadSyntax for a number that is too large, and a TypeError for a mnemonic other than `dw` |
| AsmCompilation.Compilation.InterpretDataDirective | Assembler/scripts.js:191-200 | the method follows `DataDirective`: either it throws and changes nothing, or it ends in that state |
| AsmCompilation.RepeatedEmits | Assembler/scripts.js:123-128 | `times N directive` emits the directive's word N times in a row. A throwing directive throws on its first iteration with nothing emitted. N <= 0 or NaN emits nothing |
| AsmCompilation.Compilation.InterpretTimes | Assembler/scripts.js:123-128 | the loop of `times` follows `TimesDirective` |
| AsmCompilation.EmittedTwice | Assembler/scripts.js:125-127 | emitting a word n times and then once more is emitting it n + 1 times |
| AsmCompilation.MemoryOpcode | Assembler/scripts.js:132-151 | the memory-reference mnemonics have opcodes 1..4 |
| AsmCompilation.Compilation.InterpretReference | Assembler/scripts.js:132-151 | `lda`/`sta`/`jmp`/`jnz` emit the opcode OR-ed with the target, or pass on its exception with nothing changed |
| AsmCompilation.Compilation.EmitEncoded | Assembler/scripts.js:152-161 | `arit`/`calc` emit the encoded word, or pass on its exception with nothing changed |
| AsmCompilation.Compilation.InterpretInstruction | Assembler/scripts.js:117-167 | the `switch` on the first token follows `Instruction`, including the "Unknown mnemonic" error |
| AsmCompilation.HandlersConsistent | Assembler/scripts.js:117-167 | every handler keeps the ledger invariant and the line number |
| AsmCompilation.InstructionConsistent | Assembler/scripts.js:117-167 | an instruction line keeps the ledger invariant and the line number |
| AsmCompilation.LineCases | Assembler/scripts.js:95-117 | a blank line changes nothing; a line ending in `:` defines the label before it; any other line is an instruction |
| AsmCompilation.LineConsistent | Assembler/scripts.js:95-167 | every line keeps the ledger invariant and the line number |
| AsmCompilation.Compilation.InterpretLine | Assembler/scripts.js:95-167 | the loop body follows `Line` and keeps the invariant |
| AsmCompilation.RunStep | Assembler/scripts.js:94-168 | one pass of the loop of `perform` as an equation between the run from a line and the resumption after its outcome |
| AsmCompilation.RunEnds | Assembler/scripts.js:94-189 | the run ends in a consistent state. It succeeds only with an empty ledger and every line processed. A run that processed every line with references still pending fails with "incomplete fixups" on that line number, even though every line encoded |
| AsmCompilation.ResumeEnds | Assembler/scripts.js:94-189 | the same after each line's outcome |
| AsmCompilation.ResumeStops | Assembler/scripts.js:174-180 | a throw stops the loop on its line in the state before that line. An `AssemblingError` is reported with the line number; any other exception escapes |
| AsmCompilation.ResumeGoesOn | Assembler/scripts.js:94 | a line that goes through moves the loop on to the next line number |
| AsmCompilation.LineRun | Assembler/scripts.js:94-180 | from the class's side, one pass either throws and fixes the outcome of the whole run, or moves to the next line without changing that outcome |
| AsmCompilation.LastLineIgnored | Assembler/scripts.js:94 | the last newline-separated piece of the text never affects the result, since `lineNo` stops one short of `lines.length` |
| AsmCompilation.ResumeIgnoresLast | Assembler/scripts.js:94 | the same after each line's outcome |
| AsmCompilation.Compilation.PerformLine | Assembler/scripts.js:94-180 | one pass of the loop on the fields: either it ends `perform` with the outcome of the run, or the run from the next line has that outcome |
| AsmCompilation.Compilation.Perform | Assembler/scripts.js:86-189 | `perform` ends with the verdict and the state that `Performed` gives for the text |
| AsmCompilation.Compilation.Output | Assembler/scripts.js:318-341 | with `bundling` the constant false, the output is the flat image: each word's text followed by a space |
| AsmCompilation.Fill | Assembler/scripts.js:365-368 | `fill(v, from, to)` sets the cells in [from, to) to v and keeps the length and every other cell |
| AsmCompilation.Stored | Assembler/scripts.js:364 | a write past the end grows the array to index + 1 and keeps the earlier cells |
| AsmFixups.PushedAwaits | Assembler/scripts.js:292-316 | a reference to an undefined label appends the head position to that label's fixup list and leaves every other list as it was; the cell emitted there holds the bare opcode `op * 0x1000` |
| AsmFixups.ForwardReference | Assembler/scripts.js:132-151 | a line `lda`/`sta`/`jmp`/`jnz` `:name` with name undefined goes through, and the cell at the old head waits for name holding the bare opcode 0x1000..0x4000 |
| AsmFixups.EmitExtends | Assembler/scripts.js:357-371 | emitting only appends to memory, keeps the labels and the lists, and keeps every pending cell a placeholder with no offset pending under two labels |
| AsmFixups.InstructionExtends | Assembler/scripts.js:117-167 | every instruction line only appends to memory and to the fixup lists, at offsets at or past the old end of memory, keeps the labels, and keeps every pending cell a placeholder with no offset pending under two labels |
| AsmFixups.LabelKeeps | Assembler/scripts.js:99-115 | defining a label keeps every pending cell a placeholder, every completed cell as it is, and the waiting cells and positions of the other labels |
| AsmFixups.LabelResolves | Assembler/scripts.js:99-115 | a cell waiting for the label gets the position OR-ed into its placeholder and the label records the position; with a 12-bit position the cell holds `op * 0x1000` + position |
| AsmFixups.LabelCompletesQueue | Assembler/scripts.js:105-111 | with a 12-bit position, every cell in the label's list held a placeholder and afterwards holds it plus the position |
| AsmFixups.LineKeeps | Assembler/scripts.js:95-167 | every line that goes through keeps the placeholder invariant and the completed cells; a line other than `name:` keeps the cells waiting for name and name's position |
| AsmFixups.RunKeepsSettled | Assembler/scripts.js:94-189 | a completed cell and a defined label's position survive every later line that does not redefine the label |
| AsmFixups.RunCompletesReference | Assembler/scripts.js:94-189 | when the text assembles, a cell that waited for a label defined at most once in the rest of the text holds its placeholder OR the label's position, which for a 12-bit position is their sum; with no definition in the rest of the text it does not assemble |
| AsmFixups.ForwardReferenceRun | Assembler/scripts.js:94-189 | a reference `jmp :l` above the only `l:`: when the text assembles, the reference's word is the opcode with the address of l (opcode * 0x1000 + address for a 12-bit address); without an `l:` below it the text does not assemble |
| Util.GetBit | src/Util.c:27-29 | `getBit(value, bit)` is bit `bit` of the value |
| Util.SetBitEffect | src/Util.c:16-29 | after `setBit`, bit `bit` holds the value and every other bit is as it was; so `getBit(setBit(x, b, v), b) == v` |
| Util.SetBitIdle | src/Util.c:16-21 | setting a bit to the value it already has changes nothing |
| Util.SetBitTwice | src/Util.c:16-21 | setting the same bit twice keeps only the second value |
| Util.SetBitsCommute | src/Util.c:16-21 | setting two different bits gives the same word in either order |
| Util.WordsEqual | src/Util.c:27-29 | a 16-bit word is determined by its sixteen bits |
| Util.LowerChar | src/Util.c:34 | `tolower` changes 'A'..'Z' into the matching lower-case letter (32 on) and nothing else |
| Util.Length | src/Util.c:33 | the length of a C string is the index of its first NUL |
| Util.ToLowerCase | src/Util.c:32-37 | the array becomes `Lowered` of its old contents: the text lower-cased in place, and the terminator and what follows it untouched |
| Util.Lowered | src/Util.c:32-37 | lower-casing keeps the array's length and the string's length |
| Util.LoweredText | src/Util.c:32-37 | the text keeps its length, each character is its `tolower`, and no upper-case letter is left |
| Util.SameFrom | src/Util.c:40-42 | the walk of `strcmp` from an index succeeds exactly when both strings agree from there up to their terminators |
| Util.StrEqualsText | src/Util.c:40-42 | `strEquals(a, b)` holds exactly when the texts of a and b are equal |
| Util.Vector.Init | src/Util.c:46-50 | `vecInit`: size 0, capacity 1, no elements |
| Util.Vector.Grow | src/Util.c:65-68 | `vecGrow` doubles the capacity and keeps the elements |
| Util.Vector.Add | src/Util.c:71-78 | `vecAdd` puts the element after the others, growing first when full, and keeps size <= capacity |
| Util.Vector.Remove | src/Util.c:82-92 | `vecRemove(index)` with index < size removes that element and shifts the later ones left in order |
| StringBuffers.StringBuffer.Init | src/StringBuffer.c:11-15 | `stbInit`: size 0, capacity 2, empty contents |
| StringBuffers.StringBuffer.Free | src/StringBuffer.c:140-145 | `stbFree`: no array, size 0, capacity 0 |
| StringBuffers.Growth | src/StringBuffer.c:20-24 | the growth is twice the request and never less than 8 |
| StringBuffers.StringBuffer.Grow | src/StringBuffer.c:20-27 | `stbGrow(min)` adds `Growth(min)` to the capacity and keeps the size and contents |
| StringBuffers.StringBuffer.Appendv | src/StringBuffer.c:48-83 | succeeds exactly when formatting succeeds. On success the formatted text is appended and the size grows by its length. The capacity is unchanged when the text fits in the room left, and otherwise grows once, by `Growth(length)`, after which the text fits. On failure nothing changes |
| StringBuffers.StringBuffer.AppendBuffer | src/StringBuffer.c:88-97 | the contents become this buffer's followed by the other's, and the sizes add. The capacity grows as the corrected test says, which leaves room for the terminator |
| StringBuffers.AppendBufferOverflowAsWritten | src/StringBuffer.c:88-97 | with the test as written, a fresh buffer (capacity 2) receiving a two-character text is not grown, and the terminator lands past the allocation |
| StringBuffers.AppendBufferAsWrittenMisses | src/StringBuffer.c:90 | the as-written test leaves no room for the terminator exactly when the capacity equals the new size |
| StringBuffers.AppendBufferRoom | src/StringBuffer.c:90-96 | with the corrected test there is always a cell for the terminator |
| StringBuffers.RunLength | src/StringBuffer.c:111 | the leading bytes before the first marker byte |
| StringBuffers.Tokens | src/StringBuffer.c:111-135 | the tokens of `strtok(s, "§")` are non-empty, free of marker bytes, and free of NUL when s is |
| StringBuffers.EscapeCodes | src/StringBuffer.c:119-131 | R maps to `\033[0m`; '0'..'7' to `\033[0;3Nm`; '8' and '9' to `\033[1;3Nm` with N = c−'8'; 'A'..'F' to `\033[1;3Nm` with N = c−'A'+2 |
| StringBuffers.ColorizedPlain | src/StringBuffer.c:119-135 | with colours off, colourising removes every marker and the code byte after it, and nothing else |
| StringBuffers.ColorizedKeepsHead | src/StringBuffer.c:111-115 | text before the first marker heads the result unchanged |
| StringBuffers.AfterMarkerRendered | src/StringBuffer.c:118-136 | the tokens after a marker, rendered without colours, are the text with further markers and each code byte dropped |
| StringBuffers.PlainRun | src/StringBuffer.c:111-115 | bytes before the first marker are copied as they are |
| StringBuffers.RenderedCons | src/StringBuffer.c:118-136 | the pieces of a run of tokens are rendered in order |
| StringBuffers.FirstToken | src/StringBuffer.c:112 | the test `array[0] == token[0]` holds exactly when the text does not start with a marker byte |
| StringBuffers.ColorizedFrom | src/StringBuffer.c:111-136 | the text the loop builds is `Colorized`: the first token when it is not preceded by a marker, then the rendered later tokens |
| StringBuffers.StringBuffer.Colorize | src/StringBuffer.c:103-137 | the buffer is rebuilt to hold `Colorized` of its old text. Its capacity is `ColorizedCapacity`: from 2, each append of a piece grows it once, by `Growth` of the piece's length, when the piece does not fit |
| StringBuffers.StringBuffer.AppendPieces | src/StringBuffer.c:118-136 | the `while (token)` loop appends the rendered tokens from the index on, and the capacity grows as each of those appends grows it |
| StringBuffers.StringBuffer.AppendNext | src/StringBuffer.c:118-136 | one pass of the loop carries the contents and the capacity from the tokens before the index to the tokens up to and including it |
| StringBuffers.StringBuffer.AppendPiece | src/StringBuffer.c:119-133 | one pass appends the escape of the token's code byte (with colours on) and then the rest of the token; each append grows the capacity as `stbAppendv` does |
| StringBuffers.EscapeHasNoNul | src/StringBuffer.c:122-129 | an escape sequence holds no terminator |
| Cpu.Wrap | src/Emulador.c:803-807 | `uint16_t` arithmetic: a value in range is itself, and otherwise it is reduced modulo 2^16 |
| Cpu.OpcodeOf | src/Emulador.c:770 | the opcode is bits 15..12 of the instruction |
| Cpu.ArgumentOf | src/Emulador.c:771 | the argument is bits 11..0 of the instruction |
| Cpu.InstructionFields | src/Emulador.c:770-771 | opcode and argument together make up the instruction |
| Cpu.FieldsDetermine | src/Emulador.c:770-771 | an instruction built from an opcode and an argument decodes back to them |
| Emulador.CodeOf | src/Emulador.c:967-984 | every register has a code that `emuGetRegister` decodes back to it |
| Emulador.RegisterCodes | src/Emulador.c:967-984 | a code that decodes to a register is that register's code; 4, 5 and codes above 7 decode to NULL |
| Emulador.Put | src/Emulador.c:914-942 | a write through the register pointer changes that register and no other |
| Emulador.AritField | src/Emulador.c:866-875 | `(argument & (0b111 << k)) >> k` is the 3-bit field at bit k |
| Emulador.AritFieldsOf | src/Emulador.c:866-872 | the operation, destination and first-operand fields of an ARIT argument |
| Emulador.SecondOperandBits | src/Emulador.c:896-900 | `bits & 0b100` is 0 exactly when the field is below 4, and `bits & 0b011` is the field modulo 4 |
| Emulador.SecondOperand | src/Emulador.c:891-910 | the second operand is 0 when bit 2 of its field is clear, and otherwise the register A..D its low two bits name |
| Emulador.AritValueBits | src/Emulador.c:912-930 | SET0 clears every bit; SETF sets every bit; NOT flips each bit of op1; AND, OR and XOR act bit by bit |
| Emulador.AddSubFlags | src/Emulador.c:931-961 | ADD stores (op1+op2) mod 2^16 and sets PSW bit 15 exactly when the sum exceeds 0xFFFF. SUB stores (op1−op2) mod 2^16 and sets bit 14 exactly when op2 > op1. Bits 13, 12 and 11 are op1 < op2, op1 == op2 and op1 > op2 |
| Emulador.AritFlagBits | src/Emulador.c:938-961 | ARIT sets only the flag bits and keeps every other bit of PSW |
| Emulador.AritBadRegister | src/Emulador.c:877-889 | a destination or first-operand code of 4 or 5 faults before any register is written |
| Emulador.AritCompletes | src/Emulador.c:877-961 | with valid codes ARIT completes. The destination gets the result, the other registers other than PSW keep their values, and PSW gets the flags on top of the value it has after the write |
| Emulador.Emulator.DoArit | src/Emulador.c:861-962 | on the emulator, `emuDoArit` leaves the registers `AritOn` gives, or faults with the registers unchanged |
| Emulador.ExecuteHaltAndUnknown | src/Emulador.c:848-854 | HLT returns EMU_HALT with nothing changed; opcodes 7..14 return EMU_FAULT with nothing changed |
| Emulador.ExecuteGuarded | src/Emulador.c:780-827 | LDA, STA, JMP and JNZ with an argument beyond memory return EMU_FAULT with registers and memory unchanged |
| Emulador.StoreThenLoad | src/Emulador.c:780-795 | STA then LDA at one address: that cell holds A, every other cell is unchanged, and the registers are as before |
| Emulador.LoadThenStore | src/Emulador.c:780-795 | LDA then STA at one address leaves memory unchanged and A holding that cell |
| Emulador.JnzIsConditionalJmp | src/Emulador.c:798-827 | JNZ with A = 0 changes no register; with A ≠ 0 it acts exactly as JMP does |
| Emulador.CallReturn | src/Emulador.c:798-840 | a JMP to a subroutine whose first word is RET returns to the word after the JMP. R then points past the RET. The PC arithmetic wraps modulo 2^16 |
| Emulador.Emulator.Execute | src/Emulador.c:764-858 | `emuExecute` returns the result and leaves the registers and memory that `ExecuteOn` gives; a fault puts the emulator in step-through mode with no steps left |
| Emulador.AdvancedPC | src/Emulador.c:745-761 | the next PC lies inside memory. It is PC + 1 (as a 16-bit value) when that is inside memory, and 0 when it is not |
| Emulador.Emulator.Advance | src/Emulador.c:745-761 | `emuAdvance` moves PC on as `AdvancedPC` says, and faults when it loops around |
| Emulador.Emulator.Reset | src/Emulador.c:718-732 | all eight registers become 0 and memory becomes a copy of the snapshot |
| Emulador.Emulator.Fetch | src/Emulador.c:735-742 | the word at PC is returned and kept in RI; nothing else changes |
| Emulador.Emulator.GuardAddress | src/Emulador.c:1177-1186 | the answer is whether the address lies beyond memory, and such an address faults |
| Emulador.Emulator.Fault | src/Emulador.c:1196-1217 | with breakOnFaults, a fault sets step-through mode and clears the steps left |
| Emulador.Emulator.Initialize | src/Emulador.c:683-714 | the given memory is the live memory and a copy of it the snapshot. The emulator starts in step-through mode, breaking on faults, with no breakpoints and cleared registers |
| Emulador.FirstAt | src/Emulador.c:1163-1173 | the search finds the first breakpoint at the address, or reports that none is there |
| Emulador.Emulator.GetBreakpoint | src/Emulador.c:1163-1173 | `emuGetBreakpoint` returns the first breakpoint at the address, or NULL when none is there |
| Emulador.Emulator.SetBreakpoint | src/Emulador.c:1125-1140 | the breakpoints become `WithBreakpoint`; nothing else changes |
| Emulador.SetBreakpointSets | src/Emulador.c:1125-1140 | after `emuSetBreakpoint(addr, hits)` the breakpoint at addr has `hits` left |
| Emulador.SetBreakpointKeepsOthers | src/Emulador.c:1125-1140 | breakpoints at other addresses are unchanged |
| Emulador.SetBreakpointUnique | src/Emulador.c:1125-1140 | at most one breakpoint per address is kept: an existing one is updated, otherwise one is appended |
| Emulador.HitCountsDown | src/Emulador.c:375-393 | a check at PC counts a positive breakpoint down by one, keeps −1 (without end) and 0 (disabled), and leaves every other breakpoint alone |
| Emulador.BreakpointCountdown | src/Emulador.c:375-393 | a breakpoint set with h > 0 hits has h − n left after n checks at its address, and 0 (disabled) after h; with −1 it never runs out |
| Emulador.Emulator.CheckBreakpoints | src/Emulador.c:375-404 | an enabled breakpoint at PC, or else a HLT in RI, sets step-through mode with no steps left. The breakpoint's count is handled as `AfterHit` says. Otherwise nothing changes |
| Emulador.Emulator.BeforeExecute | src/Emulador.c:352-371 | after the breakpoint check, a step still owed is used up without reaching the prompt. Otherwise the prompt is reached exactly in step-through mode |
| Ep1.HaltStopsAtOnce | EP1.c:39-49 | opcode 0xF ends the loop with only RI loaded: no other register changes and PC is not incremented |
| Ep1.LoadOutOfBounds | EP1.c:57-64 | an LDA whose argument lies beyond memory ends the model's run with only RI loaded, since the C read past the array is undefined |
| Ep1.NextCycle | EP1.c:37-98 | any other instruction (an LDA reading inside memory) loads RI, keeps B, C, D and PSW, and continues the loop. LDA sets A to `memory[argument]`. A taken JNZ sets R = PC+1 and PC = argument−1 before the increment. NOP, opcode 6, a JNZ with A = 0 and bad instructions change only PC. PC increments and wraps to 0 at `memSize` |
| Ep1.JnzLands | EP1.c:69-96 | a taken JNZ lands on its argument when that lies inside memory, argument 0 included, through the 16-bit wrap of argument − 1 |
| Ep1.AgreesWithEmulador | EP1.c:37-98 | on NOP, LDA, JNZ and HLT with addresses inside memory, a pass of this loop continues or halts, and is a fetch, an `emuExecute` and (unless halted) an `emuAdvance` of the full emulator |
| Ep1.HaltedOnHlt | EP1.c:37-98 | a run that ends halted ends with a HLT in RI |
| Ep1.Pass | EP1.c:37-98 | the loop body on the registers produces `Next`, including the stop at an LDA beyond memory |
| Ep1.Processa | EP1.c:23-98 | registers start at 0 and the loop runs until a HLT or an LDA beyond memory ends it; the result is `RunFrom` from the cleared registers |
| Ep1.RunHalts | EP1.c:39-49 | a pass that halts or stops ends the run with that pass |
| Ep1.RunGoesOn | EP1.c:93-98 | a pass that neither halts nor stops keeps PC inside memory and hands over to the next pass |

## Left out

- DOM and browser plumbing of the assembler (`main`, `doAssemble`, `emitError`, `emitInfo`, `console.log`): `perform` takes the text and returns the verdict, a line and a diagnostic.
- `emitHex` (Assembler/scripts.js:21-34) writes to an undeclared global and is never called.
- JsRuntime.ParseNumber: `Number(...)` is modelled on optionally signed decimal numerals and the empty string. Hexadecimal, binary, octal, exponent and fraction forms read as NaN here, whereas JavaScript reads them as numbers.
- JsRuntime.ToLower: only ASCII letters change; Unicode case mapping is not modelled.
- AsmCompilation.Compilation.Emit: requires `times >= 1` and the head at or past the end of memory. Every caller passes one word. The head never moves backwards and is never moved by any caller, so a gap behind the head, or `times` of 0 or NaN, cannot arise.
- AsmCompilation.Stored: the holes of a JavaScript array written past its end are stood in for by a value, because every caller fills them at once.
- Labels are a `map`: keys inherited from `Object.prototype` (`constructor`, `toString`) are ordinary missing labels here.
- `moveHeadTo` with a NaN location is modelled on integers only; no caller passes NaN.
- AsmEncoding.Serialise: the `bundling` setting of `output` is a parameter; `Compilation.Output` uses the source's constant false.
- Util.SetBit: requires `bit < 16`; every caller passes 11..15. A shift by 16 or more would be undefined in C. The pointer write is the returned value.
- Util.Vector.Remove: requires `0 <= index < size`. The source only asserts index < size, and a negative index would be undefined behaviour.
- `vecFree` and `emuRemoveBreakpoint` are not part of this model. `emuRemoveBreakpoint` reads the element table instead of its entries (src/Emulador.c:1148) and is never called.
- The vector's capacity is an unbounded number: doubling past the range of C `int` is not modelled.
- StringBuffers.StringBuffer.Appendv: the formatted text of `vsnprintf` is an input (`None` for a formatting error), required to hold no NUL; the format string is not interpreted.
- StringBuffers.StringBuffer.Colorize: requires a text with at least one token. An empty text or one made only of marker bytes makes the source dereference a NULL token. `%` inside a token is handed to `stbAppend` as a format; the model copies it as it is. `char` is taken to be signed, and the marker is the two bytes of the UTF-8 `§`, either of which `strtok` splits at.
- Memory allocation (`malloc`, `realloc`, `calloc`, `free`) is capacity bookkeeping; allocation failure is not modelled.
- Printing: `emuFault`/`emuWarn` messages, `emuDumpRegisters`, the breakpoint messages, `emuPrintDisassemblyLine`, `emuDisassembly`, `prints`. Only their effect on `breaking`/`stepsLeft` is kept.
- The command line (`cliWaitUserCommand`, the `cli*Cmd` handlers, `cliPrintWelcome`) and the signal handler: `BeforeExecute` returns whether the prompt is reached instead of reading a command.
- The driver loop `processa` of src/Emulador.c (its calls to `cliBeforeExecute`, fetch, execute and advance) is not part of this model. Its steps are modelled one by one.
- Emulador.Emulator.Fetch: requires PC inside memory, which `Reset` and `Advance` establish and the driver loop relies on.
- The copies of the string-buffer, bit and vector code at the end of src/Emulador.c are modelled once, from src/StringBuffer.c and src/Util.c.
- Ep1.Processa: the loop of `processa` need not terminate, so the model runs at most `fuel` passes. `printf` of the halt message and the missing return value are left out.
- Ep1.Next: `fault` and `pause` print and wait for a key, then execution carries on, so they change nothing here. An LDA whose argument lies outside memory still reads `memory[argument]` after its failed check (EP1.c:57-64), which is undefined in C; the model ends the run there (`OutOfBounds`) instead of inventing a value.
- `verifyAddress` of EP1.c (EP1.c:103-108) receives `memSize` truncated to `uint16_t`, so with exactly 2^16 words it compares with 0 and every check fails. A failed check only reaches the no-op `fault`, so the model does not evaluate the comparison. Whether the LDA read lies inside memory is decided against the full size.
- AsmFixups.RunCompletesReference: requires the label to be defined at most once in the rest of the text. A later redefinition changes the label's position but not the cells already completed, so the cell would not match the final position.

## Findings

| source | as written | input that shows it | evidently intended | confidence | as-written member | corrected member |
|---|---|---|---|---|---|---|
| src/StringBuffer.c:90 | `stbAppendBuffer` grows only when `capacity < newSize`, then `strcpy` writes `newSize + 1` bytes | a fresh buffer (size 0, capacity 2) receiving a buffer holding "ab": no growth, and the terminator goes to index 2 of a 2-cell array | grow when `capacity <= newSize`, so that the terminator fits | not executed | StringBuffers.AppendBufferOverflowAsWritten, StringBuffers.AppendBufferAsWrittenMisses | StringBuffers.AppendBufferRoom, StringBuffers.StringBuffer.AppendBuffer |
