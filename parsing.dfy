/**
 * The whole-program parse: one instruction per line, and a failure that
 * lists every bad line, in order, numbered from 1.
 */
module Parsing {
  import opened Wrappers
  import opened Text
  import opened Instructions
  import opened Recognizer

  /** The report for a bad line: `Error at line N: <line as written>`. */
  function ErrorMessage(n: nat, line: string): string {
    "Error at line " + DecimalString(n) + ": " + line
  }

  /** How many error instructions `instrs` holds. */
  function CountErrors(instrs: seq<Instruction>): nat {
    if |instrs| == 0 then 0
    else CountErrors(instrs[..|instrs| - 1]) + (if instrs[|instrs| - 1].ErrorInstruction? then 1 else 0)
  }

  /**
   * The messages for the error instructions of `instrs`, in order; the
   * instruction at index `i` is reported as line `i + 1`.
   */
  function Diagnostics(instrs: seq<Instruction>): (msgs: seq<string>)
    ensures |msgs| == CountErrors(instrs)
  {
    if |instrs| == 0 then []
    else
      var last := instrs[|instrs| - 1];
      Diagnostics(instrs[..|instrs| - 1])
        + (if last.ErrorInstruction? then [ErrorMessage(|instrs|, last.line)] else [])
  }

  /** Python's `map`: `f` applied to every element, in order. */
  function Map<A, B>(f: A -> B, xs: seq<A>): (ys: seq<B>)
    ensures |ys| == |xs|
  {
    if |xs| == 0 then [] else Map(f, xs[..|xs| - 1]) + [f(xs[|xs| - 1])]
  }

  lemma {:induction false} MapAt<A, B>(f: A -> B, xs: seq<A>, k: nat)
    requires k < |xs|
    ensures Map(f, xs)[k] == f(xs[k])
  {
    var init := xs[..|xs| - 1];
    if k < |init| {
      MapAt(f, init, k);
      assert init[k] == xs[k];
    }
  }

  lemma MapSnoc<A, B>(f: A -> B, xs: seq<A>, i: nat)
    requires i < |xs|
    ensures Map(f, xs[..i + 1]) == Map(f, xs[..i]) + [f(xs[i])]
  {
    assert xs[..i + 1][..i] == xs[..i];
  }

  /** Every line classified, in order. */
  function Classified(lines: seq<string>): (instrs: seq<Instruction>)
    ensures |instrs| == |lines|
  {
    Map(Classify, lines)
  }

  /** The instruction at index `k` is the classification of line `k`. */
  lemma ClassifiedAt(lines: seq<string>, k: nat)
    requires k < |lines|
    ensures Classified(lines)[k] == Classify(lines[k])
  {
    MapAt(Classify, lines, k);
  }

  lemma ClassifiedAll(lines: seq<string>)
    ensures forall k :: 0 <= k < |lines| ==> Classified(lines)[k] == Classify(lines[k])
  {
    forall k | 0 <= k < |lines| ensures Classified(lines)[k] == Classify(lines[k]) {
      ClassifiedAt(lines, k);
    }
  }

  /** What `Parse` returns, or the messages its `AssemblerError` carries. */
  function ParseResult(lines: seq<string>): Result<seq<Instruction>, seq<string>> {
    var instrs := Classified(lines);
    var msgs := Diagnostics(instrs);
    if |msgs| > 0 then Failure(msgs) else Success(instrs)
  }

  /**
   * `Parse`: classify every line, then collect a message for each error
   * instruction.
   */
  method Parse(lines: seq<string>) returns (r: Result<seq<Instruction>, seq<string>>)
    ensures r == ParseResult(lines)
  {
    var instrs := ClassifyAll(lines);
    var errors := CollectErrors(instrs);
    if |errors| > 0 {
      return Failure(errors);
    }
    return Success(instrs);
  }

  /** `map(ParseInstruction, program_lines)`. */
  method ClassifyAll(lines: seq<string>) returns (instrs: seq<Instruction>)
    ensures instrs == Classified(lines)
  {
    instrs := [];
    var i := 0;
    while i < |lines|
      invariant 0 <= i <= |lines|
      invariant instrs == Classified(lines[..i])
    {
      var instr := ParseInstruction(lines[i]);
      ClassifiedSnoc(lines, i);
      instrs := instrs + [instr];
      i := i + 1;
    }
    assert lines[..i] == lines;
  }

  /** Classifying one more line appends its classification. */
  lemma ClassifiedSnoc(lines: seq<string>, i: nat)
    requires i < |lines|
    ensures Classified(lines[..i + 1]) == Classified(lines[..i]) + [Classify(lines[i])]
  {
    MapSnoc(Classify, lines, i);
  }

  /** The loop of `Parse` that walks the instructions with a line counter. */
  method CollectErrors(instrs: seq<Instruction>) returns (errors: seq<string>)
    ensures errors == Diagnostics(instrs)
  {
    errors := [];
    var lineNumber := 1;
    var j := 0;
    while j < |instrs|
      invariant 0 <= j <= |instrs|
      invariant lineNumber == j + 1
      invariant errors == Diagnostics(instrs[..j])
    {
      assert instrs[..j + 1][..j] == instrs[..j];
      if instrs[j].ErrorInstruction? {
        errors := errors + [ErrorMessage(lineNumber, instrs[j].line)];
      }
      lineNumber := lineNumber + 1;
      j := j + 1;
    }
    assert instrs[..j] == instrs;
  }

  /** On success there is exactly one instruction per line, in line order. */
  lemma OneInstructionPerLine(lines: seq<string>)
    requires ParseResult(lines).Success?
    ensures |ParseResult(lines).value| == |lines|
    ensures forall i :: 0 <= i < |lines| ==> ParseResult(lines).value[i] == Classify(lines[i])
    ensures forall i :: 0 <= i < |lines| ==> !ParseResult(lines).value[i].ErrorInstruction?
  {
    ClassifiedAll(lines);
    forall i | 0 <= i < |lines|
      ensures !Classified(lines)[i].ErrorInstruction?
    {
      if Classified(lines)[i].ErrorInstruction? {
        CountErrorsAt(Classified(lines), i);
      }
    }
  }

  /** Parsing fails exactly when some line is an error. */
  lemma ParseFailsIffErrorLine(lines: seq<string>)
    ensures ParseResult(lines).Failure?
        <==> exists i :: 0 <= i < |lines| && Classify(lines[i]).ErrorInstruction?
  {
    var instrs := Classified(lines);
    ClassifiedAll(lines);
    if exists i :: 0 <= i < |lines| && Classify(lines[i]).ErrorInstruction? {
      var i :| 0 <= i < |lines| && Classify(lines[i]).ErrorInstruction?;
      CountErrorsAt(instrs, i);
    } else {
      NoErrorsCounted(instrs);
    }
  }

  /**
   * The failure reports every bad line once: there are as many messages as
   * error lines, and the bad line at index `i` is reported, as line `i + 1`
   * with its original text, right after the bad lines before it.
   */
  lemma ErrorReported(lines: seq<string>, i: nat)
    requires i < |lines| && Classify(lines[i]).ErrorInstruction?
    ensures ParseResult(lines).Failure?
    ensures |ParseResult(lines).error| == CountErrors(Classified(lines))
    ensures var k := CountErrors(Classified(lines)[..i]);
      k < |ParseResult(lines).error| && ParseResult(lines).error[k] == ErrorMessage(i + 1, lines[i])
  {
    var instrs := Classified(lines);
    ClassifiedAt(lines, i);
    CountErrorsAt(instrs, i);
    DiagnosticAt(instrs, i);
    ClassifyMatches(lines[i]);
  }

  /** The message for the error at index `i` sits after those for the errors before it. */
  lemma {:induction false} DiagnosticAt(instrs: seq<Instruction>, i: nat)
    requires i < |instrs| && instrs[i].ErrorInstruction?
    ensures CountErrors(instrs[..i]) < |Diagnostics(instrs)|
    ensures Diagnostics(instrs)[CountErrors(instrs[..i])] == ErrorMessage(i + 1, instrs[i].line)
  {
    var init := instrs[..|instrs| - 1];
    CountErrorsAt(instrs, i);
    if i < |instrs| - 1 {
      assert init[..i] == instrs[..i];
      DiagnosticAt(init, i);
    }
  }

  /** An error at index `i` is counted: the errors before it are fewer than all of them. */
  lemma {:induction false} CountErrorsAt(instrs: seq<Instruction>, i: nat)
    requires i < |instrs| && instrs[i].ErrorInstruction?
    ensures CountErrors(instrs[..i]) < CountErrors(instrs)
  {
    var init := instrs[..|instrs| - 1];
    if i < |instrs| - 1 {
      assert init[..i] == instrs[..i];
      CountErrorsAt(init, i);
    } else {
      assert init == instrs[..i];
    }
  }

  lemma {:induction false} NoErrorsCounted(instrs: seq<Instruction>)
    requires forall i :: 0 <= i < |instrs| ==> !instrs[i].ErrorInstruction?
    ensures CountErrors(instrs) == 0
  {
    if |instrs| > 0 {
      NoErrorsCounted(instrs[..|instrs| - 1]);
    }
  }
}
