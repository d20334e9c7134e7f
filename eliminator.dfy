/**
 * Symbol elimination: the A- and C-instructions of a program, in order,
 * with every symbolic operand replaced by its address.
 */
module Eliminator {
  import opened Instructions
  import opened Symbols

  /** Every symbolic operand of `instrs` has an entry in `t`. */
  predicate Covers(t: SymbolTable, instrs: seq<Instruction>) {
    forall k :: 0 <= k < |instrs| && instrs[k].AInstruction? && instrs[k].value.Symbol? ==> instrs[k].value.name in t
  }

  /** An instruction with its symbolic operand, if it has one, looked up in `t`. */
  function Resolve(instr: Instruction, t: SymbolTable): (r: Instruction)
    requires instr.AInstruction? && instr.value.Symbol? ==> instr.value.name in t
    ensures instr.IsEncodable() ==> r.IsResolved()
    ensures !instr.AInstruction? ==> r == instr
  {
    if instr.AInstruction? && instr.value.Symbol? then AInstruction(Number(t[instr.value.name])) else instr
  }

  /** The A- and C-instructions of `instrs`, resolved against `t`. */
  function StripWith(instrs: seq<Instruction>, t: SymbolTable): (r: seq<Instruction>)
    requires Covers(t, instrs)
    ensures |r| == CountEncodable(instrs)
    ensures forall k :: 0 <= k < |r| ==> r[k].IsResolved()
  {
    if |instrs| == 0 then []
    else (if instrs[0].IsEncodable() then [Resolve(instrs[0], t)] else []) + StripWith(instrs[1..], t)
  }

  /** The table `AnalyzeSymbols` builds covers every symbolic operand. */
  lemma TableCovers(instrs: seq<Instruction>)
    ensures Covers(SymbolTableOf(instrs), instrs)
  {
    AllSymbolsResolved(instrs);
    forall k | 0 <= k < |instrs| && instrs[k].AInstruction? && instrs[k].value.Symbol?
      ensures instrs[k].value.name in SymbolTableOf(instrs)
    {
      assert instrs[k].value.name in SymbolUses(instrs);
    }
  }

  /** What `StripSymbols` returns. */
  function Stripped(instrs: seq<Instruction>): (r: seq<Instruction>)
    ensures |r| == CountEncodable(instrs)
    ensures forall k :: 0 <= k < |r| ==> r[k].IsResolved()
  {
    TableCovers(instrs);
    StripWith(instrs, SymbolTableOf(instrs))
  }

  /** `StripSymbols`: build the table, then copy and resolve the A- and C-instructions. */
  method StripSymbols(instrs: seq<Instruction>) returns (stripped: seq<Instruction>)
    ensures stripped == Stripped(instrs)
  {
    stripped := [];
    var table := AnalyzeSymbols(instrs);
    TableCovers(instrs);
    var i := 0;
    while i < |instrs|
      invariant 0 <= i <= |instrs|
      invariant stripped + StripWith(instrs[i..], table) == StripWith(instrs, table)
    {
      StripWithStep(instrs, table, i);
      var instr := instrs[i];
      if instr.AInstruction? {
        if instr.value.Symbol? {
          stripped := stripped + [AInstruction(Number(table[instr.value.name]))];
        } else {
          stripped := stripped + [instr];
        }
      } else if instr.CInstruction? {
        stripped := stripped + [instr];
      }
      i := i + 1;
    }
  }

  /** One iteration of the `StripSymbols` loop: keep `instrs[i]`, resolved, or drop it. */
  lemma StripWithStep(instrs: seq<Instruction>, t: SymbolTable, i: nat)
    requires Covers(t, instrs) && i < |instrs|
    ensures instrs[i].IsEncodable() ==>
      forall p :: p + StripWith(instrs[i..], t) == (p + [Resolve(instrs[i], t)]) + StripWith(instrs[i + 1..], t)
    ensures !instrs[i].IsEncodable() ==> StripWith(instrs[i..], t) == StripWith(instrs[i + 1..], t)
  {
    assert instrs[i..][1..] == instrs[i + 1..];
  }

  /**
   * The A- or C-instruction at index `j` lands, resolved, at its address:
   * the number of A- and C-instructions before it.
   */
  lemma {:induction false} StrippedAt(instrs: seq<Instruction>, t: SymbolTable, j: nat)
    requires Covers(t, instrs) && j < |instrs| && instrs[j].IsEncodable()
    ensures CountEncodable(instrs[..j]) < |StripWith(instrs, t)|
    ensures StripWith(instrs, t)[CountEncodable(instrs[..j])] == Resolve(instrs[j], t)
  {
    if j > 0 {
      StrippedAt(instrs[1..], t, j - 1);
      assert instrs[..j][1..] == instrs[1..][..j - 1];
    }
  }

  /** Every instruction of the result comes from an A- or C-instruction of the input. */
  lemma {:induction false} StrippedFrom(instrs: seq<Instruction>, t: SymbolTable, k: nat)
    requires Covers(t, instrs) && k < |StripWith(instrs, t)|
    ensures exists j :: 0 <= j < |instrs| && instrs[j].IsEncodable() && CountEncodable(instrs[..j]) == k
  {
    if instrs[0].IsEncodable() && k == 0 {
      assert instrs[0].IsEncodable() && CountEncodable(instrs[..0]) == 0;
    } else {
      var k' := if instrs[0].IsEncodable() then k - 1 else k;
      StrippedFrom(instrs[1..], t, k');
      var j :| 0 <= j < |instrs[1..]| && instrs[1..][j].IsEncodable() && CountEncodable(instrs[1..][..j]) == k';
      assert instrs[..j + 1][1..] == instrs[1..][..j];
      assert instrs[j + 1].IsEncodable() && CountEncodable(instrs[..j + 1]) == k;
    }
  }

  /** A program without labels, empties or symbols is left as it is. */
  lemma {:induction false} ResolvedUnchanged(instrs: seq<Instruction>, t: SymbolTable)
    requires forall k :: 0 <= k < |instrs| ==> instrs[k].IsResolved()
    ensures Covers(t, instrs) && StripWith(instrs, t) == instrs
  {
    if |instrs| > 0 {
      ResolvedUnchanged(instrs[1..], t);
    }
  }

  /** Stripping twice is stripping once. */
  lemma StripIdempotent(instrs: seq<Instruction>)
    ensures Stripped(Stripped(instrs)) == Stripped(instrs)
  {
    ResolvedUnchanged(Stripped(instrs), SymbolTableOf(Stripped(instrs)));
  }

  /**
   * In the stripped program a C-instruction and a numeric A-instruction are
   * copied as they are, and a symbolic one gets its table address.
   */
  lemma StripSymbolsAt(instrs: seq<Instruction>, j: nat)
    requires j < |instrs| && instrs[j].IsEncodable()
    ensures CountEncodable(instrs[..j]) < |Stripped(instrs)|
    ensures instrs[j].CInstruction? ==> Stripped(instrs)[CountEncodable(instrs[..j])] == instrs[j]
    ensures instrs[j].AInstruction? && instrs[j].value.Number? ==> Stripped(instrs)[CountEncodable(instrs[..j])] == instrs[j]
    ensures instrs[j].AInstruction? && instrs[j].value.Symbol? ==>
      instrs[j].value.name in SymbolTableOf(instrs)
      && Stripped(instrs)[CountEncodable(instrs[..j])] == AInstruction(Number(SymbolTableOf(instrs)[instrs[j].value.name]))
  {
    TableCovers(instrs);
    StrippedAt(instrs, SymbolTableOf(instrs), j);
  }

  /**
   * A label whose last definition is at index `j` holds the address of the
   * first A- or C-instruction after it (see `StripSymbolsAt` for what sits
   * there), wherever the label is referenced.
   */
  lemma LabelTarget(instrs: seq<Instruction>, j: nat, m: nat, x: string)
    requires j < m < |instrs| && DefinesLabel(instrs[j], x)
    requires forall k :: j < k < |instrs| ==> !DefinesLabel(instrs[k], x)
    requires instrs[m].IsEncodable() && forall k :: j < k < m ==> !instrs[k].IsEncodable()
    ensures x in SymbolTableOf(instrs) && SymbolTableOf(instrs)[x] == CountEncodable(instrs[..m])
  {
    LabelAddress(instrs, j, x);
    CountEncodableGap(instrs, j, m);
  }
}
