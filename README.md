# RV32I assembler, modelled in Dafny

`Scripts/assembler.py` is a small assembler for the RV32I base
integer instruction set of RISC-V. It runs in four steps:

1. `cleaner` reads the source file. It strips each line, drops blank
   lines and lines that start with `#`, and cuts trailing `#` comments.
2. `parse_instruction` turns each cleaned line into a dictionary. The line
   loses its commas and is split on white space. The family (R, I, L, S, B,
   U, J or JALR) is chosen from the lower-cased mnemonic, and the operand
   entries depend on the family.
3. `encode_instruction` looks the mnemonic up in that family's encoding
   dictionary. It resolves the register names with `register_to_number`,
   reads the immediate with `int()`, and places the fields at the bit
   positions the RISC-V Unprivileged ISA manual gives. The result is eight
   lower-case hexadecimal digits.
4. `main` writes one line per result to the output file.

The model follows the code, including where the code does not do what its
design describes:

- An unknown mnemonic gives None from the parser. The encoder then raises a
  TypeError when it indexes that None. A mnemonic written in upper case
  parses, because the family is chosen on the lower-cased form, but the
  dictionary keeps the mnemonic as written. The encoder's tables do not
  hold that spelling, so the encoder yields None. Writing that None to the
  output file then raises a TypeError.
- An unknown register name is not reported as an error. `register_to_number`
  returns None, and the shift `None << k` raises a TypeError.
- A malformed `offset(base)` gives None from `re.match`, and calling
  `.group` on it raises an AttributeError.
- A `jal` or `jalr` line with a token count neither branch accepts raises
  an UnboundLocalError.
- A missing token raises an IndexError. Operands written with a bare comma,
  as in `add x1,x2,x3`, lose the comma and become one token (`x1x2x3`), so
  such a line raises an IndexError too.

Each of these is a value of `Parser.Crash`. Immediates out of range are
truncated by the masks without an error. The model states this residue
by residue.

Modules:

- `Wrappers` holds `Option` and `Result`.
- `Bits` models Python's unbounded integer shifts, masks and `|`.
- `Text` models the string operations: split, strip, lower, comma
  deletion, `index`, `int()` and the offset regular expression.
- `Tables` holds the two table set-ups.
- `Registers` models `register_to_number`.
- `Parser` models `parse_instruction`.
- `Formats` holds the six word layouts and their field decoders.
- `Hex` models the eight-digit rendering.
- `Encoder` models `encode_instruction`.
- `Driver` models `cleaner` and `main`.
- `Vectors` holds worked lines and their words.

## Model

| member | source | states |
|---|---|---|
| Tables.FamiliesDisjoint | Scripts/assembler.py:394-431 | no mnemonic belongs to two of the seven instruction families |
| Tables.EncodingsCoverFamilies | Scripts/assembler.py:481-548 | each encoding dictionary has an entry for exactly the mnemonics of its family |
| Tables.FieldsFit | Scripts/assembler.py:481-548 | every opcode fits 7 bits, every funct3 3 bits and every funct7 7 bits |
| Tables.FieldsPresent | Scripts/assembler.py:481-548 | each entry has the funct3/funct7 fields its encoder branch reads, so no KeyError can arise |
| Tables.MnemonicsLowerCase | Scripts/assembler.py:394-431 | every mnemonic in the tables equals its own lower-case form |
| Registers.RegisterToNumber | Scripts/assembler.py:436-475 | a resolved index is one that the lower-cased name denotes (its xN name, its ABI name, or fp for 8) |
| Registers.ResolvesIff | Scripts/assembler.py:436-475 | a name resolves to register i if and only if its lower-cased form denotes i |
| Registers.NamesInTable | Scripts/assembler.py:437-470 | every register is in the dictionary under its numeric name and its ABI name |
| Registers.TableDenotes | Scripts/assembler.py:437-470 | every dictionary entry maps a name to the register it denotes |
| Registers.DistinctNames | Scripts/assembler.py:437-470 | no name denotes two registers |
| Registers.CaseInsensitive | Scripts/assembler.py:473 | a name resolves like its lower-case form |
| Registers.UnknownNumericName | Scripts/assembler.py:474-475 | x32 is not in the dictionary and resolves to None |
| Registers.UnknownAbiName | Scripts/assembler.py:474-475 | pc is not in the dictionary and resolves to None |
| Registers.EmptyName | Scripts/assembler.py:474-475 | the empty name resolves to None |
| Registers.ArgumentAlias | Scripts/assembler.py:448 | a0 and x10 both resolve to 10 |
| Registers.FramePointerAlias | Scripts/assembler.py:446 | s0, fp and x8 all resolve to 8 |
| Registers.UpperCaseAlias | Scripts/assembler.py:473 | A0 resolves to 10 and ZERO to 0 |
| Registers.LowerNoUpper | Scripts/assembler.py:473 | a name without upper-case letters is unchanged by lower-casing |
| Text.LowerIdempotent | Scripts/assembler.py:79 | lower-casing twice is lower-casing once, and leaves no upper-case letter |
| Text.DeleteCommas | Scripts/assembler.py:76 | the result holds exactly the characters of the line other than commas, and is no longer |
| Text.Split | Scripts/assembler.py:76 | every token is non-empty and holds no white space |
| Text.SplitAllSpace | Scripts/assembler.py:76 | a text of white space alone has no tokens |
| Text.SplitToken | Scripts/assembler.py:76 | a run of non-space characters is a single token |
| Text.SplitSeparated | Scripts/assembler.py:76 | split() cuts at any non-empty run of white space: the tokens of a + ws + b are those of a followed by those of b |
| Text.SplitInterleave | Scripts/assembler.py:76 | tokens separated by any white-space runs split back into exactly those tokens |
| Text.TokenizeInterleave | Scripts/assembler.py:76 | comma-free tokens whose separators still hold white space once the commas are deleted tokenize back to exactly those tokens |
| Text.CommaJoins | Scripts/assembler.py:76 | a bare comma between two tokens joins them into one token |
| Text.SplitJoinSpaced | Scripts/assembler.py:76 | splitting tokens joined by spaces gives the tokens back |
| Text.TokenizeCanonical | Scripts/assembler.py:76 | a line written as a mnemonic, a space and comma-separated operands tokenizes to the mnemonic followed by the operands |
| Text.Strip | Scripts/assembler.py:49 | the result neither starts nor ends with white space |
| Text.StripParts | Scripts/assembler.py:49 | the line is white space, then the stripped text, then white space |
| Text.StripIdempotent | Scripts/assembler.py:57 | stripping a stripped line changes nothing |
| Text.FirstIndex | Scripts/assembler.py:56-57 | the index is that of the first occurrence when there is one, and no earlier character matches |
| Text.ParseInt | Scripts/assembler.py:254 | `int()` of a token succeeds exactly on an optional sign followed by decimal digits |
| Text.DigitsRoundTrip | Scripts/assembler.py:254 | reading back a natural number's decimal digits gives the number |
| Text.ParseIntDecimal | Scripts/assembler.py:254 | `int()` of any integer's decimal numeral gives that integer |
| Text.DigitRun | Scripts/assembler.py:109 | the run is the longest prefix of decimal digits |
| Text.WordRun | Scripts/assembler.py:109 | the run is the longest prefix of word characters |
| Text.MatchOffsetSound | Scripts/assembler.py:109-113 | a match yields a signed numeral and a word that, wrapped as offset(base), form a prefix of the token |
| Text.MatchOffsetComplete | Scripts/assembler.py:109-113 | every offset(base) text matches, and the match gives back the offset and the base |
| Parser.FamilyOf | Scripts/assembler.py:82-216 | a family is chosen exactly for the mnemonics in the instruction tables |
| Parser.ParseOffset | Scripts/assembler.py:105-144 | a load or store parses exactly when its address matches offset(base), keeping its kind and mnemonic, and otherwise raises AttributeError |
| Parser.ParseTokens | Scripts/assembler.py:70-216 | an empty line raises IndexError; the result is None exactly for an unknown lower-cased mnemonic; a dictionary keeps the mnemonic as written, has the family of its lower-cased form and has exactly that family's entries |
| Parser.ParseCount | Scripts/assembler.py:82-212 | a token count the family does not accept raises IndexError, or UnboundLocalError for jal/jalr; an accepted count parses, except that a load or store also needs offset(base) and otherwise raises AttributeError |
| Parser.UnknownMnemonic | Scripts/assembler.py:214-216 | a line whose lower-cased mnemonic is in no table parses to None |
| Parser.JalLinksRa | Scripts/assembler.py:174-180 | a jal with only a target links through x1 |
| Parser.JalrOffsetZero | Scripts/assembler.py:193-201 | a jalr with two registers has immediate "0" |
| Parser.MnemonicKeptAsWritten | Scripts/assembler.py:79-102 | ADDI parses as an I-type dictionary whose mnemonic is still "ADDI" |
| Parser.MalformedOffset | Scripts/assembler.py:105-113 | a store whose address is not offset(base) raises AttributeError |
| Parser.ParseRender | Scripts/assembler.py:70-216 | a well-formed dictionary written out as a line parses back to the same dictionary |
| Parser.ParseOperands | Scripts/assembler.py:79-212 | a well-formed dictionary's mnemonic and operand tokens parse back to that dictionary |
| Formats.RFormat | Scripts/assembler.py:240-243 | every R field reads back from the word, and the word already fits 32 bits |
| Formats.IFormat | Scripts/assembler.py:265-268 | opcode, rd, funct3 and rs1 read back, and the I immediate reads back as imm mod 2^12 |
| Formats.SFormat | Scripts/assembler.py:299-306 | the fixed fields read back, and the two halves of the immediate rejoin to imm mod 2^12 |
| Formats.BFormat | Scripts/assembler.py:320-329 | the fixed fields read back, and the branch offset reads back as imm mod 2^13 with bit 0 cleared |
| Formats.UFormat | Scripts/assembler.py:341-344 | opcode and rd read back, and the upper twenty bits hold imm mod 2^20 |
| Formats.JFormat | Scripts/assembler.py:359-367 | opcode and rd read back, and the jump offset reads back as imm mod 2^21 with bit 0 cleared |
| Formats.IRoundTrip | Scripts/assembler.py:265-268 | an immediate in [-2^11, 2^11) is recovered exactly by sign extension |
| Formats.SRoundTrip | Scripts/assembler.py:299-306 | a store offset in [-2^11, 2^11) is recovered exactly |
| Formats.BRoundTrip | Scripts/assembler.py:320-329 | an even branch offset in [-2^12, 2^12) is recovered exactly |
| Formats.URoundTrip | Scripts/assembler.py:341-344 | an upper immediate in [0, 2^20) is recovered exactly |
| Formats.JRoundTrip | Scripts/assembler.py:359-367 | an even jump offset in [-2^20, 2^20) is recovered exactly |
| Formats.IModulo | Scripts/assembler.py:265-268 | I words with immediates equal mod 2^12 are equal |
| Formats.SModulo | Scripts/assembler.py:299-303 | S words with immediates equal mod 2^12 are equal |
| Formats.BModulo | Scripts/assembler.py:320-326 | B words whose offsets agree in bits 1 to 12 are equal |
| Formats.UModulo | Scripts/assembler.py:341-344 | U words with immediates equal mod 2^20 are equal |
| Formats.JModulo | Scripts/assembler.py:359-365 | J words whose offsets agree in bits 1 to 20 are equal |
| Formats.ShamtFields | Scripts/assembler.py:257-265 | in a 32-bit word the I immediate is the funct7 field above the rs2 field |
| Hex.HexDigits | Scripts/assembler.py:243 | the rendering has the requested number of lower-case hexadecimal digits |
| Hex.HexDigitsValue | Scripts/assembler.py:243 | n digits denote the value modulo 16^n |
| Hex.Hex8 | Scripts/assembler.py:243 | a word is written as exactly eight lower-case hexadecimal digits |
| Hex.Hex8RoundTrip | Scripts/assembler.py:243 | the eight digits denote the word exactly |
| Hex.Hex8Injective | Scripts/assembler.py:243 | distinct words are written differently |
| Hex.HexValueInjective | Scripts/assembler.py:243 | equal-length digit strings of equal value are the same string |
| Hex.HexCharRoundTrip | Scripts/assembler.py:243 | each digit denotes its own value |
| Encoder.ShiftAmounts | Scripts/assembler.py:257-262 | slli/srli keep the amount mod 32; srai keeps it mod 32 and adds bit 10; other mnemonics keep the immediate |
| Encoder.ShiftField | Scripts/assembler.py:257-265 | the adjusted immediate, cut to the twelve-bit field, is the intended I immediate |
| Encoder.RSound | Scripts/assembler.py:228-243 | an R word holds the dictionary's opcode, funct3 and funct7 and the three named registers |
| Encoder.ISound | Scripts/assembler.py:246-285 | an I, load or jalr word holds its fixed fields, rd, rs1 and the intended immediate |
| Encoder.SSound | Scripts/assembler.py:288-306 | a store word holds its fixed fields, rs1, rs2 and the offset mod 2^12 |
| Encoder.BSound | Scripts/assembler.py:309-329 | a branch word holds its fixed fields, rs1, rs2 and the offset mod 2^13 without bit 0 |
| Encoder.USound | Scripts/assembler.py:332-344 | a U word holds its opcode, rd and the immediate mod 2^20 |
| Encoder.JalSound | Scripts/assembler.py:350-367 | a jal word holds its opcode, rd and the offset mod 2^21 without bit 0 |
| Encoder.EncodeSound | Scripts/assembler.py:221-387 | every word the encoder produces decodes, field by field, to the dictionary's constants, its registers and the kept bits of its immediate |
| Encoder.ROutcome | Scripts/assembler.py:228-243 | the R branch, which reads no immediate, fails with TypeError on an unknown register and otherwise yields a word |
| Encoder.IOutcome | Scripts/assembler.py:246-285 | the I branch fails with ValueError on a non-numeral, then TypeError on an unknown register, else yields a word |
| Encoder.SOutcome | Scripts/assembler.py:288-329 | the S and B branches fail with ValueError, then TypeError, else yield a word |
| Encoder.UOutcome | Scripts/assembler.py:332-367 | the U and jal branches fail with ValueError, then TypeError, else yield a word |
| Encoder.DispatchR | Scripts/assembler.py:228-243 | an R mnemonic reaches the R branch and has the outcome its operands dictate |
| Encoder.DispatchI | Scripts/assembler.py:246-268 | an I mnemonic reaches the I branch and has the outcome its operands dictate |
| Encoder.DispatchL | Scripts/assembler.py:271-285 | a load mnemonic reaches the load branch and has the outcome its operands dictate |
| Encoder.DispatchS | Scripts/assembler.py:288-306 | a store mnemonic reaches the S branch and has the outcome its operands dictate |
| Encoder.DispatchB | Scripts/assembler.py:309-329 | a branch mnemonic reaches the B branch and has the outcome its operands dictate |
| Encoder.DispatchU | Scripts/assembler.py:332-344 | a U mnemonic reaches the U branch and has the outcome its operands dictate |
| Encoder.DispatchJal | Scripts/assembler.py:350-367 | jal reaches its branch and has the outcome its operands dictate |
| Encoder.DispatchJalr | Scripts/assembler.py:370-384 | jalr reaches its branch and has the outcome its operands dictate |
| Encoder.JumpsOutsideOtherFamilies | Scripts/assembler.py:394-431 | jal and jalr are in none of the other families, so the encoder reaches the jump branch for them |
| Encoder.EncodeOutcome | Scripts/assembler.py:221-387 | for every dictionary the parser builds: a mnemonic the tables do not hold in that spelling yields None; otherwise a non-numeral immediate gives ValueError, then an unknown register gives TypeError, and anything else gives a word |
| Encoder.EncodeInstruction | Scripts/assembler.py:221-387 | a failure or a None propagates; a word is written as eight hexadecimal digits that denote it |
| Encoder.AliasSameWord | Scripts/assembler.py:235-237 | replacing any register operand by another name of the same register (an alias or another case) leaves the encoder's outcome unchanged, for every instruction |
| Encoder.ArgumentAliasSameWord | Scripts/assembler.py:448 | a0 and x10 as rd give the same outcome for every instruction |
| Encoder.ShiftWords | Scripts/assembler.py:261-265 | setting bit 10 of a shift's immediate adds bit 30 to the word and changes nothing else |
| Encoder.ShiftDispatch | Scripts/assembler.py:246-262 | srli and srai go through the I branch with the shift adjustment |
| Encoder.MnemonicOnlyShifts | Scripts/assembler.py:246-268 | in the I branch the mnemonic changes neither whether it fails nor the error |
| Encoder.ArithmeticShiftBit | Scripts/assembler.py:257-265 | srai and srli with the same operands fail alike, or give words that differ exactly by bit 30 |
| Encoder.ShiftModulo | Scripts/assembler.py:254-265 | two shift dictionaries whose immediates agree modulo 32 have the same outcome |
| Encoder.ShiftEncoding | Scripts/assembler.py:257-265 | a shift word holds the amount mod 32 in the rs2 field and funct7 0x20 for srai, 0 otherwise |
| Driver.CleanSteps | Scripts/assembler.py:49-57 | the strip, skip and cut steps on one line leave exactly its code part |
| Driver.UncommentedClean | Scripts/assembler.py:56-61 | a non-empty code part is non-empty, stripped and free of `#` |
| Driver.CleanLineFixed | Scripts/assembler.py:46-61 | a clean line is its own code part |
| Driver.StripKeeps | Scripts/assembler.py:57 | stripping introduces no `#` |
| Driver.CleanAllClean | Scripts/assembler.py:46-64 | every kept line is non-empty, stripped and free of `#` |
| Driver.CleanAllAppend | Scripts/assembler.py:46-61 | cleaning works line by line in order: cleaning two halves of a file and joining them gives the cleaned file |
| Driver.CleanAllIdempotent | Scripts/assembler.py:34-64 | cleaning a cleaned file changes nothing |
| Driver.Clean | Scripts/assembler.py:34-64 | the loop returns the code part of every line that has one, in order |
| Driver.Assemble | Scripts/assembler.py:20-24 | the loop succeeds exactly when every line encodes, with one result per line in order; otherwise it stops with the first line's exception |
| Driver.EncodeLineText | Scripts/assembler.py:21-22 | a line's text, when there is one, is eight hexadecimal digits |
| Driver.WriteCode | Scripts/assembler.py:27-29 | writing fails with TypeError exactly when some result is None, and otherwise gives each text followed by a newline |
| Driver.ListingLayout | Scripts/assembler.py:27-29 | the file holds one nine-character line per result, in order: its eight digits and a newline |
| Driver.AssembleProgram | Scripts/assembler.py:7-29 | the output exists exactly when every cleaned line encodes to a word, and then holds each word's digits on its own line in order; otherwise the first exception or the TypeError of writing a None |
| Vectors.AddiVector | Scripts/assembler.py:246-268 | addi x5, x0, 5 is written 00500293 |
| Vectors.AddVector | Scripts/assembler.py:228-243 | add x1, x2, x3 is written 003100b3 |
| Vectors.SwVector | Scripts/assembler.py:288-306 | sw x5, 8(x2) is written 00512423 |
| Vectors.JalVector | Scripts/assembler.py:350-367 | jal x1, 16 is written 010000ef |
| Vectors.SraiVector | Scripts/assembler.py:257-268 | srai x1, x2, 3 is written 40315093 |
| Vectors.UpperCaseVector | Scripts/assembler.py:386-387 | ADDI x1, x0, 5 encodes to None: the upper-case mnemonic falls to the error branch |

## Left out

- File input and output are not modelled, so `sys.argv`, `open`, `readlines` and `write` are outside the model. The source lines come in as a sequence, and the output file's text comes out as a string.
- `print` is not modelled. That covers the word printed for each line and the ERROR message of an unknown mnemonic. The model keeps only the None that follows that message.
- A crash in the middle of the write loop leaves a partly written file. The model gives only the exception.
- `int()` on a token is modelled for an optional sign and ASCII decimal digits. Underscores (`1_0`), other Unicode digits and surrounding white space, which Python also accepts, are left out. The tokens never hold white space anyway.
- `str.strip`, `str.split`, `str.lower` and the `\d`/`\w` classes of the offset pattern are modelled on ASCII. Their Unicode behaviour is left out.
- Registers.RegisterToNumber: the dictionary of lines 437-470 is modelled as a match on the lower-cased name rather than a map. Its contents are stated by NamesInTable and TableDenotes.
- The encoder's jump branch is modelled as the tests `m == "jal"` and `m == "jalr"`. The source first tests membership in the J table, which holds exactly those two mnemonics, so the two forms agree.
- The worked lines in `Vectors` are built by `Vectors.Line` in the form `mnemonic op1, op2, ...`. Other spacings are covered by `Text.TokenizeInterleave`.
