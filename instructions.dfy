/**
 * The five kinds of line the assembler recognises. The source tells them
 * apart by class name at run time; here they are one closed sum type.
 */
module Instructions {
  import opened Text

  /** The operand of an A-instruction: a number, or a symbol still to resolve. */
  datatype Operand = Number(n: nat) | Symbol(name: string)

  datatype Instruction =
    | AInstruction(value: Operand)
    | CInstruction(dest: string, comp: string, jump: string)
    | LInstruction(name: string)
    | EmptyInstruction
    | ErrorInstruction(line: string)
  {
    /** The kinds that occupy an address and get a machine word. */
    predicate IsEncodable() {
      AInstruction? || CInstruction?
    }

    /** An instruction that needs no symbol table to encode. */
    predicate IsResolved() {
      (AInstruction? && value.Number?) || CInstruction?
    }
  }

  /** 2^15: the first value an A-instruction literal cannot hold. */
  const AddressLimit: nat := 32768

  /** Number of A- and C-instructions in `instrs`: the address of the next one. */
  function CountEncodable(instrs: seq<Instruction>): (n: nat)
    ensures n <= |instrs|
  {
    if |instrs| == 0 then 0
    else (if instrs[0].IsEncodable() then 1 else 0) + CountEncodable(instrs[1..])
  }

  /** The label names defined anywhere in `instrs`. */
  function Labels(instrs: seq<Instruction>): set<string> {
    set i | 0 <= i < |instrs| && instrs[i].LInstruction? :: instrs[i].name
  }

  /** The symbolic operands used anywhere in `instrs`. */
  function SymbolUses(instrs: seq<Instruction>): set<string> {
    set i | 0 <= i < |instrs| && instrs[i].AInstruction? && instrs[i].value.Symbol? :: instrs[i].value.name
  }

  lemma LabelsCons(instrs: seq<Instruction>)
    requires |instrs| > 0
    ensures Labels(instrs) == (if instrs[0].LInstruction? then {instrs[0].name} else {}) + Labels(instrs[1..])
  {
    var rest := instrs[1..];
    forall x | x in Labels(instrs) ensures x in (if instrs[0].LInstruction? then {instrs[0].name} else {}) + Labels(rest) {
      var i :| 0 <= i < |instrs| && instrs[i].LInstruction? && instrs[i].name == x;
      if i > 0 {
        assert rest[i - 1] == instrs[i];
      }
    }
    forall x | x in Labels(rest) ensures x in Labels(instrs) {
      var i :| 0 <= i < |rest| && rest[i].LInstruction? && rest[i].name == x;
      assert instrs[i + 1] == rest[i];
    }
  }

  lemma SymbolUsesCons(instrs: seq<Instruction>)
    requires |instrs| > 0
    ensures SymbolUses(instrs)
        == (if instrs[0].AInstruction? && instrs[0].value.Symbol? then {instrs[0].value.name} else {}) + SymbolUses(instrs[1..])
  {
    var rest := instrs[1..];
    forall x | x in SymbolUses(instrs)
      ensures x in (if instrs[0].AInstruction? && instrs[0].value.Symbol? then {instrs[0].value.name} else {}) + SymbolUses(rest)
    {
      var i :| 0 <= i < |instrs| && instrs[i].AInstruction? && instrs[i].value.Symbol? && instrs[i].value.name == x;
      if i > 0 {
        assert rest[i - 1] == instrs[i];
      }
    }
    forall x | x in SymbolUses(rest) ensures x in SymbolUses(instrs) {
      var i :| 0 <= i < |rest| && rest[i].AInstruction? && rest[i].value.Symbol? && rest[i].value.name == x;
      assert instrs[i + 1] == rest[i];
    }
  }

  /**
   * Instructions that are neither A- nor C-instructions do not move the
   * address: the count up to `m` equals the count up to `j`.
   */
  lemma {:induction false} CountEncodableGap(instrs: seq<Instruction>, j: nat, m: nat)
    requires j <= m <= |instrs|
    requires forall k :: j <= k < m ==> !instrs[k].IsEncodable()
    ensures CountEncodable(instrs[..m]) == CountEncodable(instrs[..j])
  {
    if j > 0 {
      CountEncodableGap(instrs[1..], j - 1, m - 1);
      assert instrs[..m][1..] == instrs[1..][..m - 1];
      assert instrs[..j][1..] == instrs[1..][..j - 1];
    } else if m > 0 {
      CountEncodableGap(instrs[1..], 0, m - 1);
      assert instrs[..m][1..] == instrs[1..][..m - 1];
    }
  }
}
