/**
 * Concrete lines and programs, and what the model gives for them: a line no
 * grammar accepts, the comp `-A` that has no code, a variable, a label and a
 * bare `@`.
 */
module SamplePrograms {
  import opened Wrappers
  import opened Text
  import opened Instructions
  import opened Recognizer
  import opened Parsing
  import opened Symbols
  import opened Eliminator
  import opened Encoder
  import opened Assembler

  /** A name that neither is a register nor has a named entry is not predefined. */
  lemma NotPredefined(x: string)
    requires (|x| == 0 || x[0] != 'R') && x !in NamedSymbols
    ensures x !in Predefined()
  {
    PredefinedTable();
    forall i | 0 <= i < RegisterCount
      ensures RegisterName(i) != x
    {
      assert RegisterName(i)[0] == 'R';
    }
  }

  /**
   * A program that starts with an unknown symbol gives that symbol the first
   * variable address, 16.
   */
  lemma FirstSymbolIsFirstVariable(instrs: seq<Instruction>, x: string)
    requires |instrs| > 0 && instrs[0] == AInstruction(Symbol(x))
    requires x !in Predefined() && x !in Labels(instrs)
    ensures x in SymbolTableOf(instrs) && SymbolTableOf(instrs)[x] == FirstVariable
  {
    LabelPassKeys(instrs, Predefined(), 0);
    assert Variables(instrs)[0] == x;
    VariableAddresses(instrs);
  }

  /** A line that is not an instruction fails the assembly with one message. */
  lemma RejectsText()
    ensures AssembleResult(["I like pie!"]) == Failure(SyntaxErrors(["Error at line 1: I like pie!"]))
  {
    var line := "I like pie!";
    PieIsError();
    assert Classified([line]) == [ErrorInstruction(line)];
    assert Diagnostics([ErrorInstruction(line)]) == [ErrorMessage(1, line)];
    PieMessage();
  }

  lemma PieIsError()
    ensures Classify("I like pie!") == ErrorInstruction("I like pie!")
  {
    PieHasNoSeparators();
    NotAnInstruction("I like pie!", 1);
  }

  lemma PieHasNoSeparators()
    ensures '=' !in "I like pie!" && ';' !in "I like pie!" && '/' !in "I like pie!"
  {
    var line := "I like pie!";
    assert forall k :: 0 <= k < |line| ==> line[k] != '=' && line[k] != ';' && line[k] != '/';
  }

  /**
   * A trimmed line with no separator, comment, `@` or `(` in front, and a
   * character no mnemonic uses, is an error line.
   */
  lemma NotAnInstruction(line: string, k: nat)
    requires IsTrimmed(line) && '/' !in line && '=' !in line && ';' !in line
    requires 0 < |line| && line[0] != '@' && line[0] != '('
    requires k < |line| && !MnemonicChar(line[k])
    ensures Classify(line) == ErrorInstruction(line)
  {
    NormalizeClean(line);
    CutAbsent(line, '=');
    CutAbsent(line, ';');
    if Member(line, CompMnemonics) {
      CompIsPlain(line);
    }
    ClassifyMatches(line);
  }

  lemma PieMessage()
    ensures ErrorMessage(1, "I like pie!") == "Error at line 1: I like pie!"
  {
    assert DecimalString(1) == "1";
  }

  /** `D=-A` is a C-instruction, but its comp has no code: assembly fails with the key `-A`. */
  lemma MinusAHasNoCode()
    ensures AssembleResult(["D=-A"]) == Failure(MissingKey("-A"))
  {
    var line := "D=-A";
    MinusAIsC();
    ParseFailsIffErrorLine([line]);
    MissingKeyIffMinusA([line]);
  }

  lemma MinusAIsC()
    ensures Classify("D=-A") == CInstruction("D", "-A", "")
  {
    assert DestMnemonics[1] == "D" && CompMnemonics[8] == "-A";
    IsCLine("D=-A", "D", "-A", "");
  }

  // ---------------------------------------------------------------------
  // Classifying concrete lines

  /** A clean line spelling out valid C fields is that C-instruction. */
  lemma IsCLine(line: string, dest: string, comp: string, jump: string)
    requires IsTrimmed(line) && '/' !in line
    requires line == CText(dest, comp, jump) && ValidFields(dest, comp, jump)
    ensures Classify(line) == CInstruction(dest, comp, jump)
  {
    NormalizeClean(line);
    CGrammar(line, dest, comp, jump);
    FieldsArePlain(dest, comp, jump);
    CTextFirstChar(dest, comp, jump);
    ClassifyMatches(line);
  }

  /** `@` and a decimal below 2^15 is a numeric A-instruction. */
  lemma IsNumberLine(line: string, n: nat)
    requires line == "@" + DecimalString(n) && n < AddressLimit
    ensures Classify(line) == AInstruction(Number(n))
  {
    AddressLiteralRange(n);
    ClassifyMatches(line);
  }

  /** A clean `@` line with a symbol, or with nothing, is a symbolic A-instruction. */
  lemma IsSymbolLine(line: string, x: string)
    requires IsTrimmed(line) && '/' !in line
    requires line == "@" + x && (|x| == 0 || IsSymbol(x))
    ensures Classify(line) == AInstruction(Symbol(x))
  {
    NormalizeClean(line);
    ASymbolGrammar(line, x);
    ClassifyMatches(line);
  }

  /** A clean `(symbol)` line is a label. */
  lemma IsLabelLine(line: string, x: string)
    requires IsTrimmed(line) && '/' !in line
    requires line == "(" + x + ")" && IsSymbol(x)
    ensures Classify(line) == LInstruction(x)
  {
    NormalizeClean(line);
    LGrammar(line, x);
    GrammarsExclusive(line);
    ClassifyMatches(line);
  }

  /** A line that is only a comment is empty. */
  lemma IsCommentLine(line: string, comment: string)
    requires line == "//" + comment
    ensures Classify(line) == EmptyInstruction
  {
    CommentOnly(comment);
    BlankIsEmpty(line);
  }

  // ---------------------------------------------------------------------
  // The lines of the assembler's classification tests

  lemma ClassifiesNumber()
    ensures Classify("@123") == AInstruction(Number(123))
  {
    assert DecimalString(123) == "123";
    IsNumberLine("@123", 123);
  }

  lemma ClassifiesSymbol()
    ensures Classify("@loop") == AInstruction(Symbol("loop"))
  {
    IsSymbolLine("@loop", "loop");
  }

  /** A bare `@` is an A-instruction whose symbol is the empty name. */
  lemma ClassifiesBareAt()
    ensures Classify("@") == AInstruction(Symbol(""))
  {
    IsSymbolLine("@", "");
  }

  lemma ClassifiesCompute()
    ensures Classify("M=M+1") == CInstruction("M", "M+1", "")
  {
    assert DestMnemonics[0] == "M" && CompMnemonics[21] == "M+1";
    IsCLine("M=M+1", "M", "M+1", "");
  }

  lemma ClassifiesComment()
    ensures Classify("// I like pie!") == EmptyInstruction
  {
    IsCommentLine("// I like pie!", " I like pie!");
  }

  lemma ClassifiesLabel()
    ensures Classify("(loop)") == LInstruction("loop")
  {
    IsLabelLine("(loop)", "loop");
  }

  lemma ClassifiesBlah()
    ensures Classify("Blah") == ErrorInstruction("Blah")
  {
    NotAnInstruction("Blah", 1);
  }

  /** The empty symbol of a bare `@` is a variable like any other: it gets address 16. */
  lemma BareAtIsVariable()
    ensures SymbolTableOf([AInstruction(Symbol(""))])[""] == FirstVariable
  {
    NotPredefined("");
    FirstSymbolIsFirstVariable([AInstruction(Symbol(""))], "");
  }
}
