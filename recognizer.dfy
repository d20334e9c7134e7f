/**
 * Line classification: the four grammars of Hack assembly (A-instruction,
 * C-instruction, label, empty line), tried in a fixed order with a catch-all
 * error kind, and the whole-program parse that gathers every bad line.
 *
 * The grammars are closed languages, so each is written as a recogniser over
 * the normalised line instead of a regular expression.
 */
module Recognizer {
  import opened Wrappers
  import opened Text
  import opened Instructions

  /** The destinations of `(?:(M|D|MD|A|AM|AD|AMD)=)?`. */
  const DestMnemonics: seq<string> := ["M", "D", "MD", "A", "AM", "AD", "AMD"]

  /** The jumps of `(?:;(JGT|JEQ|JGE|JLT|JNE|JLE|JMP))?`. */
  const JumpMnemonics: seq<string> := ["JGT", "JEQ", "JGE", "JLT", "JNE", "JLE", "JMP"]

  /** The 28 computations the C-instruction grammar accepts (note `-A`). */
  const CompMnemonics: seq<string> := [
    "0", "1", "-1", "D", "A", "!D", "!A", "-D", "-A", "D+1", "A+1", "D-1", "A-1",
    "D+A", "D-A", "A-D", "D&A", "D|A",
    "M", "!M", "-M", "M+1", "M-1", "D+M", "D-M", "M-D", "D&M", "D|M"
  ]

  // ---------------------------------------------------------------------
  // A-instructions: ^@(\d*|SYMBOL)$

  /**
   * `AInstruction._ParseValue`: a digit run becomes a number, accepted only
   * below 2^15; anything else (including the empty operand) is a symbol.
   */
  function ParseValue(value: string): (r: Option<Instruction>)
    ensures r.Some? ==> r.value.AInstruction?
    ensures IsDigits(value) ==> (r.Some? <==> DecimalValue(value) < AddressLimit)
    ensures IsDigits(value) && DecimalValue(value) < AddressLimit ==> r == Some(AInstruction(Number(DecimalValue(value))))
    ensures !IsDigits(value) ==> r == Some(AInstruction(Symbol(value)))
  {
    if IsDigits(value) then
      var n := DecimalValue(value);
      if n < AddressLimit then Some(AInstruction(Number(n))) else None
    else
      Some(AInstruction(Symbol(value)))
  }

  /** `AInstruction.Parse`. */
  function ParseA(line: string): (r: Option<Instruction>)
    ensures r.Some? ==> r.value.AInstruction?
  {
    MatchA(Normalize(line))
  }

  /** The A-instruction regular expression on the normalised line. */
  function MatchA(s: string): (r: Option<Instruction>)
    ensures r.Some? ==> r.value.AInstruction?
  {
    if |s| >= 1 && s[0] == '@' && (OnlyDigits(s[1..]) || IsSymbol(s[1..])) then
      ParseValue(s[1..])
    else
      None
  }

  // ---------------------------------------------------------------------
  // C-instructions: ^(?:(DEST)=)?(COMP)(?:;(JUMP))?$

  /** `CInstruction.Parse`: the C grammar on the normalised line. */
  function ParseC(line: string): (r: Option<Instruction>)
    ensures r.Some? ==> r.value.CInstruction?
  {
    MatchC(Normalize(line))
  }

  /**
   * The C-instruction regular expression and `_ParseMatch`. No mnemonic
   * contains `=` or `;`, so cutting at the first of each recovers the
   * three groups; an absent destination or jump is the empty string.
   */
  function MatchC(s: string): (r: Option<Instruction>)
    ensures r.Some? ==> r.value.CInstruction?
  {
    var (before, afterEq) := Cut(s, '=');
    var dest := if afterEq.Some? then before else "";
    var rest := afterEq.GetOr(s);
    var (comp, afterSemi) := Cut(rest, ';');
    var jump := afterSemi.GetOr("");
    if (afterEq.None? || Member(dest, DestMnemonics)) && Member(comp, CompMnemonics) && (afterSemi.None? || Member(jump, JumpMnemonics)) then
      Some(CInstruction(dest, comp, jump))
    else
      None
  }

  /** `dest=`, or nothing for an absent destination. */
  function DestText(dest: string): string {
    if |dest| == 0 then "" else dest + "="
  }

  /** `;jump`, or nothing for an absent jump. */
  function JumpText(jump: string): string {
    if |jump| == 0 then "" else ";" + jump
  }

  /** The text a C-instruction is written as, optional parts left out when empty. */
  function CText(dest: string, comp: string, jump: string): string {
    DestText(dest) + (comp + JumpText(jump))
  }

  /** The three fields are each allowed by the grammar. */
  predicate ValidFields(dest: string, comp: string, jump: string) {
    (|dest| == 0 || Member(dest, DestMnemonics)) && Member(comp, CompMnemonics) && (|jump| == 0 || Member(jump, JumpMnemonics))
  }

  // ---------------------------------------------------------------------
  // Labels, empty lines, errors

  /** `LInstruction.Parse`: `^\((SYMBOL)\)$`. */
  function ParseL(line: string): (r: Option<Instruction>)
    ensures r.Some? ==> r.value.LInstruction?
  {
    MatchL(Normalize(line))
  }

  /** The label regular expression on the normalised line. */
  function MatchL(s: string): (r: Option<Instruction>)
    ensures r.Some? ==> r.value.LInstruction?
  {
    if |s| >= 2 && s[0] == '(' && s[|s| - 1] == ')' && IsSymbol(s[1..|s| - 1]) then
      Some(LInstruction(s[1..|s| - 1]))
    else
      None
  }

  /** `EmptyInstruction.Parse`: nothing left after comment removal and stripping. */
  function ParseEmpty(line: string): (r: Option<Instruction>)
    ensures r.Some? <==> |Normalize(line)| == 0
    ensures r.Some? ==> r.value == EmptyInstruction
  {
    if |Normalize(line)| == 0 then Some(EmptyInstruction) else None
  }

  /** `ErrorInstruction.Parse`: always matches and keeps the line as given. */
  function ParseError(line: string): (r: Option<Instruction>)
    ensures r == Some(ErrorInstruction(line))
  {
    Some(ErrorInstruction(line))
  }

  /** `_INSTRUCTIONS`: how many grammars there are. */
  const GrammarCount: nat := 5

  /** `_INSTRUCTIONS[k].Parse`: the grammars in the order they are tried. */
  function Grammar(k: nat, line: string): Option<Instruction>
    requires k < GrammarCount
  {
    if k == 0 then ParseA(line)
    else if k == 1 then ParseC(line)
    else if k == 2 then ParseL(line)
    else if k == 3 then ParseEmpty(line)
    else ParseError(line)
  }

  /** The kind a line gets: the first grammar that matches. */
  function Classify(line: string): Instruction {
    if ParseA(line).Some? then ParseA(line).value
    else if ParseC(line).Some? then ParseC(line).value
    else if ParseL(line).Some? then ParseL(line).value
    else if ParseEmpty(line).Some? then ParseEmpty(line).value
    else ParseError(line).value
  }

  /** `ParseInstruction`: try each grammar in turn and return the first match. */
  method ParseInstruction(line: string) returns (r: Instruction)
    ensures r == Classify(line)
  {
    for i := 0 to GrammarCount
      invariant forall k :: 0 <= k < i ==> Grammar(k, line).None?
    {
      var result := Grammar(i, line);
      if result.Some? {
        FirstMatchIsClassification(line, i);
        return result.value;
      }
    }
    CatchAllMatches(line);
    assert false;
  }

  /** The last grammar, the error kind, matches every line. */
  lemma CatchAllMatches(line: string)
    ensures Grammar(GrammarCount - 1, line).Some?
  {
  }

  /** The grammar ParseInstruction stops at gives the classification. */
  lemma FirstMatchIsClassification(line: string, i: nat)
    requires i < GrammarCount && Grammar(i, line).Some?
    requires forall k :: 0 <= k < i ==> Grammar(k, line).None?
    ensures Classify(line) == Grammar(i, line).value
  {
    assert i > 0 ==> Grammar(0, line).None?;
    assert i > 1 ==> Grammar(1, line).None?;
    assert i > 2 ==> Grammar(2, line).None?;
    assert i > 3 ==> Grammar(3, line).None?;
    assert Grammar(i, line) == if i == 0 then ParseA(line) else if i == 1 then ParseC(line)
      else if i == 2 then ParseL(line) else if i == 3 then ParseEmpty(line) else Some(ErrorInstruction(line));
    FirstOfResults(ParseA(line), ParseC(line), ParseL(line), ParseEmpty(line), ErrorInstruction(line), i, Grammar(i, line));
  }

  /** Picking the first of five results, the last always present, finds the first one present. */
  lemma FirstOfResults(a: Option<Instruction>, c: Option<Instruction>, l: Option<Instruction>, e: Option<Instruction>,
                       err: Instruction, i: nat, r: Option<Instruction>)
    requires i < GrammarCount && r.Some?
    requires r == if i == 0 then a else if i == 1 then c else if i == 2 then l else if i == 3 then e else Some(err)
    requires (i > 0 ==> a.None?) && (i > 1 ==> c.None?) && (i > 2 ==> l.None?) && (i > 3 ==> e.None?)
    ensures r.value == if a.Some? then a.value else if c.Some? then c.value else if l.Some? then l.value
      else if e.Some? then e.value else err
  {
  }

  /** A line classified as a C-instruction is one the C grammar accepts. */
  lemma ClassifiedAsC(line: string)
    requires Classify(line).CInstruction?
    ensures ParseC(line).Some? && Classify(line) == ParseC(line).value
  {
    CKindIsC(ParseA(line), ParseC(line), ParseL(line), ParseEmpty(line), ErrorInstruction(line), Classify(line));
  }

  /** When the first present of five results is a C-instruction, it is the second one. */
  lemma CKindIsC(a: Option<Instruction>, c: Option<Instruction>, l: Option<Instruction>, e: Option<Instruction>,
                 err: Instruction, r: Instruction)
    requires a.Some? ==> a.value.AInstruction?
    requires l.Some? ==> l.value.LInstruction?
    requires e.Some? ==> e.value == EmptyInstruction
    requires err.ErrorInstruction? && r.CInstruction?
    requires r == if a.Some? then a.value else if c.Some? then c.value else if l.Some? then l.value
      else if e.Some? then e.value else err
    ensures c.Some? && r == c.value
  {
  }

  // ---------------------------------------------------------------------
  // What each grammar accepts

  /** The characters mnemonics are spelled with. */
  predicate MnemonicChar(c: char) {
    ('A' <= c <= 'Z') || c == '0' || c == '1' || c == '-' || c == '!' || c == '+' || c == '&' || c == '|'
  }

  /**
   * A mnemonic is a non-empty word of mnemonic characters: no `=`, `;`,
   * `/`, `@`, `(` or whitespace can occur in it.
   */
  predicate PlainMnemonic(x: string) {
    |x| > 0 && forall k :: 0 <= k < |x| ==> MnemonicChar(x[k])
  }

  lemma DestIsPlain(x: string)
    requires Member(x, DestMnemonics)
    ensures PlainMnemonic(x)
  {
    DestListPlain();
    MemberPlain(x, DestMnemonics);
  }

  lemma CompIsPlain(x: string)
    requires Member(x, CompMnemonics)
    ensures PlainMnemonic(x)
  {
    CompListPlain();
    MemberPlain(x, CompMnemonics);
  }

  lemma JumpIsPlain(x: string)
    requires Member(x, JumpMnemonics)
    ensures PlainMnemonic(x)
  {
    JumpListPlain();
    MemberPlain(x, JumpMnemonics);
  }

  lemma DestListPlain()
    ensures forall i :: 0 <= i < |DestMnemonics| ==> PlainMnemonic(DestMnemonics[i])
  {
  }

  lemma CompListPlain()
    ensures forall i :: 0 <= i < |CompMnemonics| ==> PlainMnemonic(CompMnemonics[i])
  {
  }

  lemma JumpListPlain()
    ensures forall i :: 0 <= i < |JumpMnemonics| ==> PlainMnemonic(JumpMnemonics[i])
  {
  }

  lemma MemberPlain(x: string, list: seq<string>)
    requires Member(x, list)
    requires forall i :: 0 <= i < |list| ==> PlainMnemonic(list[i])
    ensures PlainMnemonic(x)
  {
  }

  /**
   * The C-instruction grammar, both ways: a line parses to the fields
   * `dest`, `comp`, `jump` exactly when its normalised text is those fields
   * written out and each field is one the grammar allows.
   */
  lemma CGrammar(line: string, dest: string, comp: string, jump: string)
    ensures ParseC(line) == Some(CInstruction(dest, comp, jump))
        <==> Normalize(line) == CText(dest, comp, jump) && ValidFields(dest, comp, jump)
  {
    var s := Normalize(line);
    if MatchC(s) == Some(CInstruction(dest, comp, jump)) {
      MatchCSound(s);
    }
    if s == CText(dest, comp, jump) && ValidFields(dest, comp, jump) {
      MatchCComplete(dest, comp, jump);
    }
  }

  lemma MatchCSound(s: string)
    requires MatchC(s).Some?
    ensures var c := MatchC(s).value;
      s == CText(c.dest, c.comp, c.jump) && ValidFields(c.dest, c.comp, c.jump)
  {
    MatchCValid(s);
    MatchCText(s);
  }

  /** Whatever the C grammar accepts has fields the grammar allows. */
  lemma MatchCValid(s: string)
    requires MatchC(s).Some?
    ensures var c := MatchC(s).value;
      ValidFields(c.dest, c.comp, c.jump)
  {
  }

  /** Whatever the C grammar accepts is its fields written out. */
  lemma MatchCText(s: string)
    requires MatchC(s).Some?
    ensures var c := MatchC(s).value;
      s == CText(c.dest, c.comp, c.jump)
  {
    var (before, afterEq) := Cut(s, '=');
    var rest := afterEq.GetOr(s);
    var (comp, afterSemi) := Cut(rest, ';');
    if afterEq.Some? {
      DestIsPlain(before);
    }
    if afterSemi.Some? {
      JumpIsPlain(afterSemi.value);
    }
    RejoinDest(s);
    RejoinJump(rest);
  }

  /** Putting the text back together around the first `=`. */
  lemma RejoinDest(s: string)
    requires Cut(s, '=').1.Some? ==> |Cut(s, '=').0| > 0
    ensures var (before, afterEq) := Cut(s, '=');
      s == DestText(if afterEq.Some? then before else "") + afterEq.GetOr(s)
  {
  }

  /** Putting the text back together around the first `;`. */
  lemma RejoinJump(rest: string)
    requires Cut(rest, ';').1.Some? ==> |Cut(rest, ';').1.value| > 0
    ensures var (comp, afterSemi) := Cut(rest, ';');
      rest == comp + JumpText(afterSemi.GetOr(""))
  {
  }

  lemma MatchCComplete(dest: string, comp: string, jump: string)
    requires ValidFields(dest, comp, jump)
    ensures MatchC(CText(dest, comp, jump)) == Some(CInstruction(dest, comp, jump))
  {
    FieldsArePlain(dest, comp, jump);
    var rest := comp + JumpText(jump);
    CutCompJump(comp, jump);
    CutDestRest(dest, rest);
    var s := CText(dest, comp, jump);
    MatchCOfCuts(s, if |dest| == 0 then None else Some(rest), if |jump| == 0 then None else Some(jump));
  }

  /** MatchC read off the two cuts of the text. */
  lemma MatchCOfCuts(s: string, afterEq: Option<string>, afterSemi: Option<string>)
    requires Cut(s, '=').1 == afterEq
    requires Cut(afterEq.GetOr(s), ';').1 == afterSemi
    ensures var dest := if afterEq.Some? then Cut(s, '=').0 else "";
      var comp := Cut(afterEq.GetOr(s), ';').0;
      var jump := afterSemi.GetOr("");
      MatchC(s) == if (afterEq.None? || Member(dest, DestMnemonics)) && Member(comp, CompMnemonics)
          && (afterSemi.None? || Member(jump, JumpMnemonics))
        then Some(CInstruction(dest, comp, jump)) else None
  {
  }

  lemma FieldsArePlain(dest: string, comp: string, jump: string)
    requires ValidFields(dest, comp, jump)
    ensures PlainMnemonic(comp)
    ensures |dest| == 0 || PlainMnemonic(dest)
    ensures |jump| == 0 || PlainMnemonic(jump)
  {
    CompIsPlain(comp);
    if |dest| > 0 {
      DestIsPlain(dest);
    }
    if |jump| > 0 {
      JumpIsPlain(jump);
    }
  }

  /** Cutting `comp;jump` (or `comp`) at its first `;` recovers the two fields. */
  lemma CutCompJump(comp: string, jump: string)
    requires PlainMnemonic(comp) && (|jump| == 0 || PlainMnemonic(jump))
    ensures '=' !in comp + JumpText(jump)
    ensures Cut(comp + JumpText(jump), ';') == (comp, if |jump| == 0 then None else Some(jump))
  {
    NoSeparators(comp);
    if |jump| == 0 {
      assert comp + JumpText(jump) == comp;
      CutAbsent(comp, ';');
    } else {
      NoSeparators(jump);
      assert comp + JumpText(jump) == comp + [';'] + jump;
      CutJoined(comp, ';', jump);
    }
  }

  /** Cutting `dest=rest` (or `rest`) at its first `=` recovers the destination. */
  lemma CutDestRest(dest: string, rest: string)
    requires |dest| == 0 || PlainMnemonic(dest)
    requires '=' !in rest
    ensures Cut(DestText(dest) + rest, '=') == if |dest| == 0 then (rest, None) else (dest, Some(rest))
  {
    if |dest| == 0 {
      assert DestText(dest) + rest == rest;
      CutAbsent(rest, '=');
    } else {
      NoSeparators(dest);
      assert DestText(dest) + rest == dest + ['='] + rest;
      CutJoined(dest, '=', rest);
    }
  }

  /** A mnemonic holds neither separator of the C-instruction grammar. */
  lemma NoSeparators(x: string)
    requires PlainMnemonic(x)
    ensures '=' !in x && ';' !in x
  {
    forall k | 0 <= k < |x| ensures x[k] != '=' && x[k] != ';' {
      assert MnemonicChar(x[k]);
    }
  }

  // ---------------------------------------------------------------------
  // A-instructions

  /**
   * A line is a symbolic A-instruction exactly when its text is `@` followed
   * by a symbol or by nothing at all (a bare `@` names the empty symbol).
   */
  lemma ASymbolGrammar(line: string, x: string)
    ensures ParseA(line) == Some(AInstruction(Symbol(x)))
        <==> Normalize(line) == "@" + x && (|x| == 0 || IsSymbol(x))
  {
    var s := Normalize(line);
    if ParseA(line) == Some(AInstruction(Symbol(x))) {
      ASymbolSound(s, x);
    }
    if s == "@" + x && (|x| == 0 || IsSymbol(x)) {
      ASymbolComplete(x);
      assert s[1..] == x;
    }
  }

  lemma ASymbolSound(s: string, x: string)
    requires |s| >= 1 && s[0] == '@' && (OnlyDigits(s[1..]) || IsSymbol(s[1..]))
    requires ParseValue(s[1..]) == Some(AInstruction(Symbol(x)))
    ensures s == "@" + x && (|x| == 0 || IsSymbol(x))
  {
    assert s == [s[0]] + s[1..];
  }

  lemma ASymbolComplete(x: string)
    requires |x| == 0 || IsSymbol(x)
    ensures OnlyDigits(x) || IsSymbol(x)
    ensures ParseValue(x) == Some(AInstruction(Symbol(x)))
  {
    if |x| > 0 {
      assert !IsDigit(x[0]);
    }
  }

  /**
   * A line is a numeric A-instruction holding `n` exactly when its text is
   * `@` followed by a digit run whose value is `n`, and `n` is below 2^15.
   */
  lemma ANumberGrammar(line: string, n: nat)
    ensures ParseA(line) == Some(AInstruction(Number(n)))
        <==> var s := Normalize(line);
          |s| > 1 && s[0] == '@' && IsDigits(s[1..]) && DecimalValue(s[1..]) == n && n < AddressLimit
  {
  }

  /** `@` followed by the decimal form of `v` parses exactly when `v < 2^15`. */
  lemma AddressLiteralRange(v: nat)
    ensures ParseA("@" + DecimalString(v))
        == if v < AddressLimit then Some(AInstruction(Number(v))) else None
  {
    var d := DecimalString(v);
    NumberLineClean(d);
    DecimalRoundTrip(v);
    AtDigits(d);
  }

  /** `@` and a digit run parses as that number when it is below 2^15, and not at all otherwise. */
  lemma AtDigits(d: string)
    requires IsDigits(d)
    ensures MatchA("@" + d) == if DecimalValue(d) < AddressLimit then Some(AInstruction(Number(DecimalValue(d)))) else None
  {
    assert ("@" + d)[1..] == d;
  }

  /** A symbol may not start with a digit: such an operand is rejected outright. */
  lemma DigitLedOperand(line: string, x: string)
    requires Normalize(line) == "@" + x
    requires |x| > 0 && IsDigit(x[0]) && !OnlyDigits(x)
    ensures ParseA(line).None?
  {
    AtDigitLed(Normalize(line), x);
  }

  lemma AtDigitLed(s: string, x: string)
    requires s == "@" + x
    requires |x| > 0 && IsDigit(x[0]) && !OnlyDigits(x)
    ensures MatchA(s).None?
  {
    assert s[1..] == x;
  }

  // ---------------------------------------------------------------------
  // Labels

  /** A line is a label named `x` exactly when its text is `(x)` and `x` is a symbol. */
  lemma LGrammar(line: string, x: string)
    ensures ParseL(line) == Some(LInstruction(x))
        <==> Normalize(line) == "(" + x + ")" && IsSymbol(x)
  {
    var s := Normalize(line);
    if ParseL(line) == Some(LInstruction(x)) {
      LSound(s);
    }
    if s == "(" + x + ")" {
      assert s[1..|s| - 1] == x;
    }
  }

  lemma LSound(s: string)
    requires |s| >= 2 && s[0] == '(' && s[|s| - 1] == ')'
    ensures s == "(" + s[1..|s| - 1] + ")"
  {
  }

  // ---------------------------------------------------------------------
  // Classification

  /** An accepted C-instruction starts with a mnemonic character. */
  lemma CFirstChar(s: string)
    requires MatchC(s).Some?
    ensures |s| > 0 && MnemonicChar(s[0])
  {
    MatchCSound(s);
    var c := MatchC(s).value;
    FieldsArePlain(c.dest, c.comp, c.jump);
    CTextFirstChar(c.dest, c.comp, c.jump);
  }

  lemma CTextFirstChar(dest: string, comp: string, jump: string)
    requires PlainMnemonic(comp) && (|dest| == 0 || PlainMnemonic(dest))
    ensures |CText(dest, comp, jump)| > 0
    ensures MnemonicChar(CText(dest, comp, jump)[0])
  {
    if |dest| == 0 {
      assert CText(dest, comp, jump)[0] == comp[0];
    } else {
      assert CText(dest, comp, jump)[0] == dest[0];
    }
  }

  /**
   * The four grammars are mutually exclusive: a line matches at most one of
   * A, C, L and Empty, so the order they are tried in only matters for the
   * catch-all error kind.
   */
  lemma GrammarsExclusive(line: string)
    ensures ParseA(line).Some? ==> ParseC(line).None? && ParseL(line).None? && ParseEmpty(line).None?
    ensures ParseC(line).Some? ==> ParseL(line).None? && ParseEmpty(line).None?
    ensures ParseL(line).Some? ==> ParseEmpty(line).None?
  {
    MatchesExclusive(Normalize(line));
  }

  /** The exclusivity of the grammars, on the normalised line. */
  lemma MatchesExclusive(s: string)
    ensures MatchA(s).Some? ==> MatchC(s).None? && MatchL(s).None? && |s| > 0
    ensures MatchC(s).Some? ==> MatchL(s).None? && |s| > 0
    ensures MatchL(s).Some? ==> |s| > 0
  {
    if MatchC(s).Some? {
      CFirstChar(s);
    }
  }

  /**
   * `EmptyInstruction.Parse` accepts exactly the blank lines and the lines
   * that are only a comment, possibly indented.
   */
  lemma EmptyGrammar(line: string)
    ensures ParseEmpty(line) == Some(EmptyInstruction)
        <==> AllWhitespace(line) || exists pre, comment :: AllWhitespace(pre) && line == pre + "//" + comment
  {
    BlankNormalForm(line);
  }

  /**
   * An address literal of 2^15 or more is no instruction at all: the line
   * falls through to the error kind.
   */
  lemma WideLiteralIsError(v: nat)
    requires v >= AddressLimit
    ensures var line := "@" + DecimalString(v);
      Classify(line) == ErrorInstruction(line)
  {
    var line := "@" + DecimalString(v);
    NumberLineClean(DecimalString(v));
    AddressLiteralRange(v);
    AtSignLeads(line);
    ClassifyMatches(line);
  }

  /** Neither the C grammar nor the label grammar accepts a text that starts with `@`. */
  lemma AtSignLeads(s: string)
    requires |s| > 0 && s[0] == '@'
    ensures MatchC(s).None? && MatchL(s).None?
  {
    if MatchC(s).Some? {
      CFirstChar(s);
    }
  }

  /** A line with nothing left after normalisation is an empty instruction. */
  lemma BlankIsEmpty(line: string)
    requires |Normalize(line)| == 0
    ensures Classify(line) == EmptyInstruction
  {
    MatchesExclusive(Normalize(line));
  }

  /**
   * The kind `Classify` gives is the grammar that matches; a line is an
   * error exactly when no grammar matches, and the error keeps the line as
   * it was written.
   */
  lemma ClassifyMatches(line: string)
    ensures ParseA(line).Some? ==> Classify(line) == ParseA(line).value
    ensures ParseC(line).Some? ==> Classify(line) == ParseC(line).value
    ensures ParseL(line).Some? ==> Classify(line) == ParseL(line).value
    ensures ParseEmpty(line).Some? ==> Classify(line) == EmptyInstruction
    ensures Classify(line).ErrorInstruction?
        <==> ParseA(line).None? && ParseC(line).None? && ParseL(line).None? && ParseEmpty(line).None?
    ensures Classify(line).ErrorInstruction? ==> Classify(line) == ErrorInstruction(line)
  {
    GrammarsExclusive(line);
  }

  /** Two lines with the same normal form are classified alike, up to the text an error keeps. */
  lemma SameTextSameKind(line1: string, line2: string)
    requires Normalize(line1) == Normalize(line2)
    ensures Classify(line1) == if Classify(line2).ErrorInstruction? then ErrorInstruction(line1) else Classify(line2)
  {
    ParsersAgree(line1, line2);
  }

  lemma ParsersAgree(line1: string, line2: string)
    requires Normalize(line1) == Normalize(line2)
    ensures ParseA(line1) == ParseA(line2) && ParseC(line1) == ParseC(line2)
    ensures ParseL(line1) == ParseL(line2) && ParseEmpty(line1) == ParseEmpty(line2)
  {
  }

  /**
   * Layout never changes how a line is classified: a line whose comment-free,
   * stripped text is the instruction text `core` is classified as `core` is,
   * except that an error keeps the line as written. `CommentAndPaddingIgnored`
   * says which lines have a given text as their normal form.
   */
  lemma LayoutIgnored(line: string, core: string)
    requires Normalize(line) == core && IsTrimmed(core) && '/' !in core
    ensures Classify(line) == if Classify(core).ErrorInstruction? then ErrorInstruction(line) else Classify(core)
  {
    NormalizeClean(core);
    SameTextSameKind(line, core);
  }
}
