# Hack assembler, modelled and verified in Dafny

This project models the assembler for the Hack computer from chapter 6 of
*The Elements of Computing Systems* (`assembler.py`). The assembler turns a
list of source lines into a list of 16-character `'0'`/`'1'` machine words in
four stages:

1. **Parse.** Each line has its trailing `//` comment removed and its
   surrounding whitespace stripped. It is then matched against five grammars,
   tried in a fixed order: A-instruction (`@value`), C-instruction
   (`dest=comp;jump`), label (`(name)`), empty line, and the catch-all error
   line. If any line is an error, the parse fails with one
   `Error at line N: <line>` message per bad line.
2. **Analyze symbols.** The predefined table holds `SP`..`THAT`, `SCREEN`,
   `KBD` and `R0`..`R15`. Pass 1 gives each label the number of A- and
   C-instructions before it. Pass 2 gives each new symbolic A-operand the
   next free address, counting up from 16.
3. **Strip symbols.** Keep only the A- and C-instructions, with every
   symbolic operand replaced by its address.
4. **Translate.** An A-instruction becomes `0` followed by 15 address bits.
   A C-instruction becomes `111` followed by its comp, dest and jump codes,
   looked up in fixed tables.

Modules:

| module | file | contents |
|---|---|---|
| `Wrappers` | wrappers.dfy | `Option` and `Result`, and `Sequence`: a list of results becomes the result of a list, where the first failure wins |
| `Text` | text.dfy | comment removal, Python 2 `str.strip`, symbol and digit classes, decimal numerals |
| `Instructions` | instructions.dfy | the instruction sum type, replacing the run-time class-name dispatch |
| `Recognizer` | recognizer.dfy | the five per-kind parsers as recognisers over `seq<char>`, and `ParseInstruction` |
| `Parsing` | parsing.dfy | the whole-program `Parse` with error aggregation |
| `Symbols` | symbols.dfy | `InitialSymbolTable` and the two passes of `AnalyzeSymbols` |
| `Eliminator` | eliminator.dfy | `StripSymbols` |
| `Encoder` | encoder.dfy | `_ToBinary15`, the comp/dest/jump tables, the C-encoding, and `TranslateToBinary` |
| `Assembler` | assembler.dfy | `Assemble`, the composition of the stages, and its end-to-end properties |
| `SamplePrograms` | programs.dfy | the unit tests' concrete lines and programs, restated as lemmas |

The assembler's own loops are methods: `_ToBinary15`, `ParseInstruction`,
the error loop of `Parse`, `InitialSymbolTable`, both passes of
`AnalyzeSymbols` and `StripSymbols`. Each method is proved equal to a
specification function, and the lemmas state the properties of that function.
The pure parts are functions: comment removal, the per-kind parsers, the
C-encoding, the translation map and the composition.

These behaviours of the source are modelled as written:
- **`-A` has no code.** The comp grammar accepts `-A`, but the comp table has
  no entry for it. `D=-A` therefore parses, and its translation fails with
  the missing key. The model gives `MissingKey("-A")` where the source raises
  `KeyError`.
- **A bare `@` is a symbol.** It parses as the symbolic operand `""`, which
  is then allocated a variable address.
- **Wide addresses are truncated.** A resolved address of 2^15 or more
  silently encodes as its value mod 2^15.
- **Labels overwrite.** A repeated label ends at its last definition, and a
  label may redefine a predefined name.
- **Text of error lines.** The message for an error line quotes the line
  exactly as given, with no comment removed and no whitespace stripped.

## Model

| member | source | states |
|---|---|---|
| `Text.RemoveTrailingComment` | assembler.py:42-47 | the result is the prefix of the line before the first `//`; it contains no `//`; if anything was cut, the cut starts at a `//` |
| `Text.CommentAndPaddingIgnored` | assembler.py:42-47 | surrounding whitespace and a trailing `//` comment are removed, leaving exactly the instruction text |
| `Text.DecimalRoundTrip` | assembler.py:89-90 | reading back the decimal numeral of `n` gives `n` |
| `Recognizer.ParseValue` | assembler.py:87-93 | a digit-only operand is accepted exactly when its value is below 2^15, and then holds that value; any other operand becomes a symbol |
| `Recognizer.ANumberGrammar` | assembler.py:70-93 | a line parses as `@n` iff its stripped text is `@` and a digit run of value `n`, with `n < 2^15` |
| `Recognizer.ASymbolGrammar` | assembler.py:70-93 | a line parses as symbolic `@x` iff its stripped text is `@x` and `x` is empty or a symbol |
| `Recognizer.AddressLiteralRange` | assembler.py:88-93 | `@` plus the numeral of `v` parses to `v` when `v < 2^15` and is rejected otherwise |
| `Recognizer.WideLiteralIsError` | assembler.py:87-93 | a line `@` plus the numeral of a value of 2^15 or more is classified as an error line, keeping its text |
| `Recognizer.DigitLedOperand` | assembler.py:53 | an operand that starts with a digit but is not all digits is not an A-instruction |
| `Recognizer.CGrammar` | assembler.py:171-193 | a line parses as C-instruction `(dest, comp, jump)` iff its stripped text is `dest=comp;jump`, with the optional parts omitted when empty, and every field is a listed mnemonic |
| `Recognizer.MatchCComplete` | assembler.py:99-104 | every listed combination of dest, comp and jump, written out, is recognised with those fields |
| `Recognizer.LGrammar` | assembler.py:204-219 | a line parses as label `x` iff its stripped text is `(x)` and `x` is a symbol |
| `Text.BlankNormalForm` | assembler.py:42-47 | a line normalises to nothing iff it is all whitespace, or whitespace followed by a `//` comment |
| `Recognizer.EmptyGrammar` | assembler.py:222-239 | the empty grammar accepts exactly the blank lines and the lines that are only a comment, possibly indented |
| `Recognizer.ParseInstruction` | assembler.py:270-286 | the early-return loop over the grammars returns the classification of the line |
| `Recognizer.FirstMatchIsClassification` | assembler.py:262-286 | the classification is the result of the first grammar, in the order A, C, L, Empty, Error, that matches |
| `Recognizer.ClassifyMatches` | assembler.py:262-286 | whichever grammar matches gives the classification; a line is an error iff no other grammar matches, and then it keeps its original text |
| `Recognizer.GrammarsExclusive` | assembler.py:262-267 | at most one of the A, C, L and Empty grammars matches a line, so their order never decides between them |
| `Recognizer.BlankIsEmpty` | assembler.py:225-239 | a line that is blank after comment removal and stripping is an empty instruction |
| `Recognizer.SameTextSameKind` | assembler.py:80-84 | two lines with the same stripped text have the same classification, except that an error keeps its own line |
| `Recognizer.LayoutIgnored` | assembler.py:80-84 | a line whose comment-free, stripped text is a clean instruction text is classified as that text is; with `Text.CommentAndPaddingIgnored`, surrounding whitespace and a trailing comment never change the classification |
| `Assembler.WideLiteralRejected` | assembler.py:303-311 | a program with an address literal of 2^15 or more fails with syntax errors, and that line's message is among them |
| `Assembler.ClassifiedCValid` | assembler.py:188-193 | a line classified as a C-instruction has a comp from the mnemonic list, and a dest and jump that are empty or listed |
| `Parsing.ClassifyAll` | assembler.py:303 | the loop maps every line to its classification, in order |
| `Parsing.CollectErrors` | assembler.py:304-309 | the loop produces the diagnostics of the instruction list |
| `Parsing.Parse` | assembler.py:289-312 | parsing a program is its classification, or the failure carrying its diagnostics |
| `Parsing.OneInstructionPerLine` | assembler.py:303-312 | a successful parse has one instruction per line, in order, and none of them is an error |
| `Parsing.ParseFailsIffErrorLine` | assembler.py:310-312 | the parse fails iff some line is classified as an error |
| `Parsing.ErrorReported` | assembler.py:304-311 | every error line `i` appears in the failure as `Error at line i+1: <line>`, preceded only by the messages for earlier error lines |
| `Parsing.DiagnosticAt` | assembler.py:304-309 | the diagnostics list one message per error, in order, using 1-based line numbers that count every line |
| `Symbols.InitialSymbolTable` | assembler.py:315-328 | the loop builds the predefined table |
| `Symbols.PredefinedTable` | assembler.py:315-328 | `R0`..`R15` map to 0..15, the named symbols keep their addresses, and there are no other keys |
| `Symbols.AnalyzeSymbols` | assembler.py:331-363 | the two loops build the table of both passes, starting from the predefined table |
| `Symbols.LabelPassKeys` | assembler.py:345-352 | pass 1 adds exactly the labels of the program to the table |
| `Symbols.LabelAddress` | assembler.py:345-352 | a label maps to the number of A- and C-instructions before its last definition |
| `Symbols.PredefinedKept` | assembler.py:354-361 | a predefined name that no label redefines keeps its predefined address |
| `Symbols.VariableAddresses` | assembler.py:354-361 | the variables are the used symbols that are neither predefined nor labels; they are distinct, in order of first use, and get 16, 17, ... |
| `Symbols.AllSymbolsResolved` | assembler.py:331-363 | the table's keys are exactly the predefined names, the labels and the symbols used |
| `Eliminator.TableCovers` | assembler.py:386-388 | every symbolic operand of the program has an entry in its symbol table |
| `Eliminator.Stripped` | assembler.py:382-394 | the result has one instruction per A- or C-instruction of the input, and every one is resolved |
| `Eliminator.StripSymbols` | assembler.py:366-394 | the loop returns the stripped program |
| `Eliminator.StripSymbolsAt` | assembler.py:382-394 | the A- or C-instruction at position `j` ends up at position "A/C count before `j`"; C-instructions and numeric A-instructions are kept unchanged; a symbol is replaced by its table address |
| `Eliminator.StrippedFrom` | assembler.py:382-394 | every instruction of the result comes from an A- or C-instruction of the input |
| `Eliminator.StripIdempotent` | assembler.py:366-394 | stripping a stripped program changes nothing |
| `Eliminator.LabelTarget` | assembler.py:346-352 | a label resolves to the address of the first A- or C-instruction after its last definition |
| `Encoder.ToBinary15` | assembler.py:62-68 | the fifteen-step loop produces the 15 low bits of its argument |
| `Encoder.ValueOfBits` | assembler.py:62-68 | the `k` bits of `n`, read big-endian, are `n mod 2^k` |
| `Encoder.BitsOfValue` | assembler.py:62-68 | writing out the value of a bit string at its own width gives the string back |
| `Encoder.AEncoding` | assembler.py:58-60 | an A-word has 16 bits, starts with `0`, and its last 15 bits read `v mod 2^15`, which is `v` itself when `v < 2^15` |
| `Encoder.AEncodingInjective` | assembler.py:58-68 | two addresses have the same A-word iff they agree mod 2^15 |
| `Encoder.AWordOfResidue` | assembler.py:58-68 | an address and its residue mod 2^15 have the same A-word |
| `Encoder.CompKeys` | assembler.py:106-134 | the comp table has an entry for every comp mnemonic of the grammar except `-A` |
| `Encoder.MinusAMissing` | assembler.py:106-134 | the comp table has no entry for `-A` |
| `Encoder.CompCodesWidth` | assembler.py:106-134 | every comp code has 7 bits |
| `Encoder.DestKeys` | assembler.py:136-145 | the dest table maps the empty dest to `000` and has an entry for every dest mnemonic |
| `Encoder.JumpKeys` | assembler.py:147-156 | the jump table maps the empty jump to `000` and has an entry for every jump mnemonic |
| `Encoder.Lookup` | assembler.py:166-168 | a lookup succeeds iff the key is in the table, and then returns that key's code |
| `Encoder.EncodeCDefined` | assembler.py:163-169 | a parsed C-instruction encodes iff its comp is not `-A`; otherwise the missing key is `-A` |
| `Encoder.CEncodingShape` | assembler.py:163-169 | a C-word is `111`, then the 7-bit comp code, then the 3-bit dest code, then the 3-bit jump code; an absent dest or jump encodes as `000` |
| `Encoder.EncodeWord` | assembler.py:406 | every encoded word has 16 bits and starts with `0` exactly for A-instructions |
| `Encoder.TranslateWords` | assembler.py:397-406 | a successful translation has one word per instruction, in order, each the encoding of its instruction |
| `Encoder.TranslateFails` | assembler.py:397-406 | translation fails iff some instruction has no encoding, and reports the key of the first such instruction |
| `Wrappers.SequenceValues` | assembler.py:406 | a mapped computation that raises nowhere yields all the per-element values, in order |
| `Wrappers.SequenceFailure` | assembler.py:406 | a mapped computation raises iff some element raises, and the first element that raises decides the error |
| `Assembler.Assemble` | assembler.py:409-418 | assembling is parse, then strip, then translate, with the first failing stage's error |
| `Assembler.SyntaxErrorsIffErrorLine` | assembler.py:409-418 | assembly fails with syntax errors iff some line is an error line, and the errors are the parse diagnostics |
| `Assembler.TranslationFailsIffMinusA` | assembler.py:106-134 | a parsed program fails to translate iff it has a C-instruction with comp `-A`, and the missing key is `-A` |
| `Assembler.MissingKeyIffMinusA` | assembler.py:409-418 | a program that parses fails to assemble iff some line is a C-instruction computing `-A`, and the error is the missing key `-A` |
| `Assembler.AssembledWords` | assembler.py:409-418 | a successful assembly has one 16-bit word per A- or C-instruction, in source order; each is the encoding of the stripped instruction and starts with `0` exactly for A-instructions |
| `SamplePrograms.RejectsText` | assembler_test.py:139-141 | assembling `I like pie!` fails with the message `Error at line 1: I like pie!` |
| `SamplePrograms.ClassifiesNumber` | assembler_test.py:115-117 | `@123` is the A-instruction with address 123 |
| `SamplePrograms.ClassifiesSymbol` | assembler_test.py:119-121 | `@loop` is the symbolic A-instruction `loop` |
| `SamplePrograms.ClassifiesCompute` | assembler_test.py:123-125 | `M=M+1` is the C-instruction with dest `M` and comp `M+1` and no jump |
| `SamplePrograms.ClassifiesComment` | assembler_test.py:127-129 | `// I like pie!` is an empty instruction |
| `SamplePrograms.ClassifiesLabel` | assembler_test.py:131-133 | `(loop)` is the label `loop` |
| `SamplePrograms.ClassifiesBlah` | assembler_test.py:135-137 | `Blah` is an error line that keeps its text |
| `SamplePrograms.IsCommentLine` | assembler_test.py:103-104 | any line that is only a `//` comment is an empty instruction |
| `SamplePrograms.ClassifiesBareAt` | assembler.py:53 | a bare `@` is the symbolic A-instruction with the empty name |
| `SamplePrograms.BareAtIsVariable` | assembler.py:354-361 | the empty name of a bare `@` is allocated the first variable address, 16 |
| `SamplePrograms.MinusAHasNoCode` | assembler.py:101-134 | the one-line program `D=-A` fails with the missing key `-A` |
| `SamplePrograms.FirstSymbolIsFirstVariable` | assembler.py:354-361 | a new symbol in the first instruction gets address 16 |

## Left out

- `main` (assembler.py:421-443): argument checks, the `.asm` suffix test, file reading and writing, and printing. These are I/O.
- The `os.linesep` join of error messages: the failure carries the list of messages instead of one joined string.
- Python's `re` engine and `str.strip`: replaced by hand-written recognisers over `seq<char>` and an explicit whitespace predicate (space, tab, newline, carriage return, vertical tab, form feed). Regex backtracking is not modelled. The recognisers are proved to accept exactly the strings of each grammar.
- `AssemblerError` and `KeyError` are not exceptions in the model: the assembler returns a `Result` whose failure is `SyntaxErrors(messages)` or `MissingKey(key)`.
- Encoder.Encode: requires a resolved instruction. The source would raise `TypeError` for a symbolic operand and `AttributeError` for a label, empty or error line, but the pipeline never passes those to the encoder, because stripping removes or resolves them.
- Encoder.Translate: requires resolved instructions, for the same reason as `Encode`.
- C-encoding injectivity (distinct comp codes) is not proved.
- The concrete programs of `testAssembleAdd`, `testAssembleMax` and `testAssembleRect` (assembler_test.py:143-269) and their literal binary outputs are not restated. Their properties are covered in general by `Assembler.AssembledWords`, `Encoder.AEncoding`, `Encoder.CEncodingShape`, `Symbols.LabelAddress` and `Symbols.VariableAddresses`.
- Python 2 byte strings are modelled as Dafny `char` sequences. Every grammar character and every whitespace character is ASCII, and non-ASCII text only ever reaches an error message, where it is quoted unchanged, so no behaviour depends on the difference.
