/**
 * The assembler as a whole: parse the lines, eliminate the symbols, and
 * translate what is left into 16-bit words.
 */
module Assembler {
  import opened Wrappers
  import opened Text
  import opened Instructions
  import opened Recognizer
  import opened Parsing
  import opened Symbols
  import opened Eliminator
  import opened Encoder

  /**
   * Why assembly stops: the messages of the lines no grammar accepts, or the
   * key a code table lacks.
   */
  datatype AssemblyError = SyntaxErrors(messages: seq<string>) | MissingKey(key: string)

  /** What `Assemble` returns, or the error it raises. */
  function AssembleResult(lines: seq<string>): Result<seq<string>, AssemblyError> {
    match ParseResult(lines)
    case Failure(msgs) => Failure(SyntaxErrors(msgs))
    case Success(instrs) =>
      match Translate(Stripped(instrs))
      case Failure(key) => Failure(MissingKey(key))
      case Success(words) => Success(words)
  }

  /** `Assemble`: `Parse`, then `StripSymbols`, then `TranslateToBinary`. */
  method Assemble(lines: seq<string>) returns (r: Result<seq<string>, AssemblyError>)
    ensures r == AssembleResult(lines)
  {
    var parsed := Parse(lines);
    if parsed.Failure? {
      return Failure(SyntaxErrors(parsed.error));
    }
    var stripped := StripSymbols(parsed.value);
    var words := Translate(stripped);
    if words.Failure? {
      return Failure(MissingKey(words.error));
    }
    return Success(words.value);
  }

  /**
   * Assembly stops with syntax errors exactly when some line is an error,
   * and they are the messages `Parse` collects.
   */
  lemma SyntaxErrorsIffErrorLine(lines: seq<string>)
    ensures (AssembleResult(lines).Failure? && AssembleResult(lines).error.SyntaxErrors?)
        <==> exists i :: 0 <= i < |lines| && Classify(lines[i]).ErrorInstruction?
    ensures AssembleResult(lines).Failure? && AssembleResult(lines).error.SyntaxErrors? ==>
      AssembleResult(lines).error.messages == ParseResult(lines).error
  {
    ParseFailsIffErrorLine(lines);
  }

  /**
   * A line holding an address literal of 2^15 or more stops assembly with a
   * syntax error, and its message is among those reported.
   */
  lemma WideLiteralRejected(lines: seq<string>, i: nat, v: nat)
    requires i < |lines| && v >= AddressLimit && lines[i] == "@" + DecimalString(v)
    ensures AssembleResult(lines).Failure? && AssembleResult(lines).error.SyntaxErrors?
    ensures ErrorMessage(i + 1, lines[i]) in AssembleResult(lines).error.messages
  {
    WideLiteralIsError(v);
    ErrorReported(lines, i);
    SyntaxErrorsIffErrorLine(lines);
  }

  /** Every C-instruction a line is classified as has fields its grammar allows. */
  lemma ClassifiedCValid(line: string)
    requires Classify(line).CInstruction?
    ensures var c := Classify(line);
      ValidFields(c.dest, c.comp, c.jump)
  {
    ClassifiedAsC(line);
    MatchCValid(Normalize(line));
  }

  /** Every C-instruction of `instrs` has fields its grammar allows. */
  predicate FieldsValid(instrs: seq<Instruction>) {
    forall j :: 0 <= j < |instrs| && instrs[j].CInstruction? ==> ValidFields(instrs[j].dest, instrs[j].comp, instrs[j].jump)
  }

  /** The instructions of classified lines have valid fields. */
  lemma ClassifiedFieldsValid(lines: seq<string>)
    ensures FieldsValid(Classified(lines))
  {
    var instrs := Classified(lines);
    forall j | 0 <= j < |instrs| && instrs[j].CInstruction?
      ensures ValidFields(instrs[j].dest, instrs[j].comp, instrs[j].jump)
    {
      ClassifiedAt(lines, j);
      ClassifiedCValid(lines[j]);
    }
  }

  /**
   * A program with no error line fails only for a C-instruction whose comp
   * is `-A`, and then with the key `-A`.
   */
  lemma MissingKeyIffMinusA(lines: seq<string>)
    requires ParseResult(lines).Success?
    ensures AssembleResult(lines).Failure?
        <==> exists j :: 0 <= j < |lines| && Classify(lines[j]).CInstruction? && Classify(lines[j]).comp == "-A"
    ensures AssembleResult(lines).Failure? ==> AssembleResult(lines).error == MissingKey("-A")
  {
    AssembleParsed(lines);
    ClassifiedFieldsValid(lines);
    TranslationFailsIffMinusA(Classified(lines));
    MinusALines(lines);
  }

  /** A program that parses fails to assemble exactly when its translation fails, with that key. */
  lemma AssembleParsed(lines: seq<string>)
    requires ParseResult(lines).Success?
    ensures AssembleResult(lines).Failure? <==> Translate(Stripped(Classified(lines))).Failure?
    ensures AssembleResult(lines).Failure? ==>
      AssembleResult(lines).error == MissingKey(Translate(Stripped(Classified(lines))).error)
  {
  }

  /** Some line is a `-A` C-instruction exactly when its classification holds one. */
  lemma MinusALines(lines: seq<string>)
    ensures (exists j :: 0 <= j < |lines| && Classify(lines[j]).CInstruction? && Classify(lines[j]).comp == "-A")
        <==> exists j :: 0 <= j < |lines| && Classified(lines)[j].CInstruction? && Classified(lines)[j].comp == "-A"
  {
    var instrs := Classified(lines);
    if exists j :: 0 <= j < |lines| && Classify(lines[j]).CInstruction? && Classify(lines[j]).comp == "-A" {
      var j :| 0 <= j < |lines| && Classify(lines[j]).CInstruction? && Classify(lines[j]).comp == "-A";
      ClassifiedAt(lines, j);
    }
    if exists j :: 0 <= j < |lines| && instrs[j].CInstruction? && instrs[j].comp == "-A" {
      var j :| 0 <= j < |lines| && instrs[j].CInstruction? && instrs[j].comp == "-A";
      ClassifiedAt(lines, j);
    }
  }

  /** Translation after symbol elimination fails exactly for a `-A` comp, with that key. */
  lemma TranslationFailsIffMinusA(instrs: seq<Instruction>)
    requires FieldsValid(instrs)
    ensures Translate(Stripped(instrs)).Failure?
        <==> exists j :: 0 <= j < |instrs| && instrs[j].CInstruction? && instrs[j].comp == "-A"
    ensures Translate(Stripped(instrs)).Failure? ==> Translate(Stripped(instrs)).error == "-A"
  {
    var s := Stripped(instrs);
    TranslateFails(s);
    forall k | 0 <= k < |s| && Encode(s[k]).Failure?
      ensures Encode(s[k]).error == "-A"
      ensures exists j :: 0 <= j < |instrs| && instrs[j].CInstruction? && instrs[j].comp == "-A"
    {
      FailingWordIsMinusA(instrs, k);
    }
    forall j | 0 <= j < |instrs| && instrs[j].CInstruction? && instrs[j].comp == "-A"
      ensures exists k :: 0 <= k < |s| && Encode(s[k]).Failure?
    {
      MinusAWordFails(instrs, j);
    }
  }

  /** A word that cannot be encoded comes from a C-instruction whose comp is `-A`. */
  lemma FailingWordIsMinusA(instrs: seq<Instruction>, k: nat)
    requires FieldsValid(instrs)
    requires k < |Stripped(instrs)| && Encode(Stripped(instrs)[k]).Failure?
    ensures Encode(Stripped(instrs)[k]).error == "-A"
    ensures exists j :: 0 <= j < |instrs| && instrs[j].CInstruction? && instrs[j].comp == "-A"
  {
    var t := SymbolTableOf(instrs);
    TableCovers(instrs);
    StrippedFrom(instrs, t, k);
    var j :| 0 <= j < |instrs| && instrs[j].IsEncodable() && CountEncodable(instrs[..j]) == k;
    StrippedAt(instrs, t, j);
    EncodeCDefined(instrs[j].dest, instrs[j].comp, instrs[j].jump);
  }

  /** A C-instruction whose comp is `-A` leaves a word that cannot be encoded. */
  lemma MinusAWordFails(instrs: seq<Instruction>, j: nat)
    requires j < |instrs| && instrs[j].CInstruction? && instrs[j].comp == "-A"
    ensures var s := Stripped(instrs);
      CountEncodable(instrs[..j]) < |s| && Encode(s[CountEncodable(instrs[..j])]).Failure?
  {
    TableCovers(instrs);
    StrippedAt(instrs, SymbolTableOf(instrs), j);
    MinusAMissing();
  }

  /**
   * A successful assembly gives one sixteen-bit word per A- or
   * C-instruction, in order: the encoding of that instruction after symbol
   * elimination, an A-word starting with '0' and a C-word with '1'.
   */
  lemma AssembledWords(lines: seq<string>)
    requires AssembleResult(lines).Success?
    ensures |AssembleResult(lines).value| == CountEncodable(Classified(lines))
    ensures var s := Stripped(Classified(lines));
      forall k :: 0 <= k < |s| ==> Encode(s[k]) == Success(AssembleResult(lines).value[k])
    ensures forall k :: 0 <= k < |AssembleResult(lines).value| ==>
      var w := AssembleResult(lines).value[k];
      |w| == 16 && IsBinary(w) && (w[0] == '0' <==> Stripped(Classified(lines))[k].AInstruction?)
  {
    var s := Stripped(Classified(lines));
    TranslateWords(s);
    forall k | 0 <= k < |s|
      ensures |Encode(s[k]).value| == 16 && IsBinary(Encode(s[k]).value)
      ensures Encode(s[k]).value[0] == '0' <==> s[k].AInstruction?
    {
      EncodeWord(s[k]);
    }
  }
}
