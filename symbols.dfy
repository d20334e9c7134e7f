/**
 * The symbol table: the predefined names of the Hack platform, the label
 * pass that gives every label the address of the instruction after it, and
 * the variable pass that hands out RAM addresses from 16 upwards.
 */
module Symbols {
  import opened Text
  import opened Instructions

  type SymbolTable = map<string, nat>

  /** The named entries of the predefined table. */
  const NamedSymbols: SymbolTable :=
    map["SP" := 0, "LCL" := 1, "ARG" := 2, "THIS" := 3, "THAT" := 4, "SCREEN" := 16384, "KBD" := 24576]

  /** Number of virtual registers `R0` .. `R15`. */
  const RegisterCount: nat := 16

  /** The address the first variable gets. */
  const FirstVariable: nat := 16

  /** `"R%d" % (i,)`. */
  function RegisterName(i: nat): string {
    "R" + DecimalString(i)
  }

  /** `t` with `R0` .. `R(n-1)` set to `0` .. `n-1`. */
  function WithRegisters(t: SymbolTable, n: nat): SymbolTable {
    if n == 0 then t else WithRegisters(t, n - 1)[RegisterName(n - 1) := n - 1]
  }

  /** The table `InitialSymbolTable` returns. */
  function Predefined(): SymbolTable {
    WithRegisters(NamedSymbols, RegisterCount)
  }

  /** `InitialSymbolTable`: the named entries, then one entry per register in a loop. */
  method InitialSymbolTable() returns (table: SymbolTable)
    ensures table == Predefined()
  {
    table := NamedSymbols;
    var i := 0;
    while i < RegisterCount
      invariant 0 <= i <= RegisterCount
      invariant table == WithRegisters(NamedSymbols, i)
    {
      table := table[RegisterName(i) := i];
      i := i + 1;
    }
  }

  // ---------------------------------------------------------------------
  // The two passes

  /** One step of the label loop: a label is set to `addr`; A and C advance it. */
  function LabelStep(instr: Instruction, t: SymbolTable, addr: nat): (SymbolTable, nat) {
    if instr.LInstruction? then (t[instr.name := addr], addr)
    else if instr.IsEncodable() then (t, addr + 1)
    else (t, addr)
  }

  /**
   * The label pass over `instrs`, starting from `t` with `addr` A- and
   * C-instructions already seen: each label is set (overwriting any earlier
   * value) to the number of A- and C-instructions before it.
   */
  function LabelPass(instrs: seq<Instruction>, t: SymbolTable, addr: nat): SymbolTable {
    if |instrs| == 0 then t
    else
      var (t', addr') := LabelStep(instrs[0], t, addr);
      LabelPass(instrs[1..], t', addr')
  }

  /** A symbolic A-operand whose name is not in `known`. */
  predicate IsFreshSymbol(instr: Instruction, known: set<string>) {
    instr.AInstruction? && instr.value.Symbol? && instr.value.name !in known
  }

  /** One step of the variable loop: a fresh symbol gets `next`, which then advances. */
  function VariableStep(instr: Instruction, t: SymbolTable, next: nat): (SymbolTable, nat) {
    if IsFreshSymbol(instr, t.Keys) then (t[instr.value.name := next], next + 1) else (t, next)
  }

  /**
   * The variable pass: each symbolic A-operand not yet in the table gets
   * the next free address, counting up from `next`.
   */
  function VariablePass(instrs: seq<Instruction>, t: SymbolTable, next: nat): SymbolTable {
    if |instrs| == 0 then t
    else
      var (t', next') := VariableStep(instrs[0], t, next);
      VariablePass(instrs[1..], t', next')
  }

  /** The table after the label pass. */
  function LabelTable(instrs: seq<Instruction>): SymbolTable {
    LabelPass(instrs, Predefined(), 0)
  }

  /** The table `AnalyzeSymbols` returns. */
  function SymbolTableOf(instrs: seq<Instruction>): SymbolTable {
    VariablePass(instrs, LabelTable(instrs), FirstVariable)
  }

  /** `AnalyzeSymbols`: the predefined table, the label loop, then the variable loop. */
  method AnalyzeSymbols(instrs: seq<Instruction>) returns (table: SymbolTable)
    ensures table == SymbolTableOf(instrs)
  {
    table := InitialSymbolTable();
    var address := 0;
    var i := 0;
    while i < |instrs|
      invariant 0 <= i <= |instrs|
      invariant LabelPass(instrs[i..], table, address) == LabelTable(instrs)
    {
      assert instrs[i..][1..] == instrs[i + 1..];
      if instrs[i].LInstruction? {
        table := table[instrs[i].name := address];
      } else if instrs[i].AInstruction? || instrs[i].CInstruction? {
        address := address + 1;
      }
      i := i + 1;
    }
    var variable := FirstVariable;
    var j := 0;
    while j < |instrs|
      invariant 0 <= j <= |instrs|
      invariant VariablePass(instrs[j..], table, variable) == SymbolTableOf(instrs)
    {
      assert instrs[j..][1..] == instrs[j + 1..];
      if instrs[j].AInstruction? {
        var value := instrs[j].value;
        if value.Symbol? && value.name !in table {
          table := table[value.name := variable];
          variable := variable + 1;
        }
      }
      j := j + 1;
    }
  }

  // ---------------------------------------------------------------------
  // The predefined table

  /** The names `R0` .. `R(n-1)`. */
  function RegisterNames(n: nat): set<string> {
    set i | 0 <= i < n :: RegisterName(i)
  }

  lemma RegisterNamesDistinct(i: nat, j: nat)
    requires i != j
    ensures RegisterName(i) != RegisterName(j)
  {
    DecimalRoundTrip(i);
    DecimalRoundTrip(j);
    assert RegisterName(i)[1..] == DecimalString(i);
    assert RegisterName(j)[1..] == DecimalString(j);
  }

  lemma {:induction false} WithRegistersAt(t: SymbolTable, n: nat, i: nat)
    requires i < n
    ensures RegisterName(i) in WithRegisters(t, n) && WithRegisters(t, n)[RegisterName(i)] == i
  {
    if i < n - 1 {
      WithRegistersAt(t, n - 1, i);
      RegisterNamesDistinct(i, n - 1);
    }
  }

  lemma {:induction false} WithRegistersKeeps(t: SymbolTable, n: nat, x: string)
    requires x in t && (|x| == 0 || x[0] != 'R')
    ensures x in WithRegisters(t, n) && WithRegisters(t, n)[x] == t[x]
  {
    if n > 0 {
      WithRegistersKeeps(t, n - 1, x);
      assert RegisterName(n - 1)[0] == 'R';
    }
  }

  lemma {:induction false} WithRegistersKeys(t: SymbolTable, n: nat)
    ensures WithRegisters(t, n).Keys == t.Keys + RegisterNames(n)
  {
    if n > 0 {
      WithRegistersKeys(t, n - 1);
      assert RegisterNames(n) == RegisterNames(n - 1) + {RegisterName(n - 1)};
    }
  }

  /** No named entry looks like a register. */
  lemma NamedAreNotRegisters()
    ensures forall x :: x in NamedSymbols ==> |x| > 0 && x[0] != 'R'
  {
  }

  /**
   * `InitialSymbolTable` holds exactly the seven named entries and `R0` ..
   * `R15`, register `Ri` standing for address `i`.
   */
  lemma PredefinedTable()
    ensures forall i :: 0 <= i < RegisterCount ==> RegisterName(i) in Predefined() && Predefined()[RegisterName(i)] == i
    ensures forall x :: x in NamedSymbols ==> x in Predefined() && Predefined()[x] == NamedSymbols[x]
    ensures Predefined().Keys == NamedSymbols.Keys + RegisterNames(RegisterCount)
  {
    forall i | 0 <= i < RegisterCount
      ensures RegisterName(i) in Predefined() && Predefined()[RegisterName(i)] == i
    {
      WithRegistersAt(NamedSymbols, RegisterCount, i);
    }
    NamedAreNotRegisters();
    forall x | x in NamedSymbols
      ensures x in Predefined() && Predefined()[x] == NamedSymbols[x]
    {
      WithRegistersKeeps(NamedSymbols, RegisterCount, x);
    }
    WithRegistersKeys(NamedSymbols, RegisterCount);
  }

  // ---------------------------------------------------------------------
  // Labels

  predicate DefinesLabel(instr: Instruction, x: string) {
    instr.LInstruction? && instr.name == x
  }

  /** A name no label of `instrs` defines keeps whatever entry it had. */
  lemma {:induction false} LabelPassKeeps(instrs: seq<Instruction>, t: SymbolTable, addr: nat, x: string)
    requires forall k :: 0 <= k < |instrs| ==> !DefinesLabel(instrs[k], x)
    ensures (x in LabelPass(instrs, t, addr)) == (x in t)
    ensures x in t ==> LabelPass(instrs, t, addr)[x] == t[x]
  {
    if |instrs| > 0 {
      var (t', addr') := LabelStep(instrs[0], t, addr);
      assert !DefinesLabel(instrs[0], x);
      LabelPassKeeps(instrs[1..], t', addr', x);
    }
  }

  /** The label pass adds exactly the labels of `instrs`. */
  lemma {:induction false} LabelPassKeys(instrs: seq<Instruction>, t: SymbolTable, addr: nat)
    ensures LabelPass(instrs, t, addr).Keys == t.Keys + Labels(instrs)
  {
    if |instrs| > 0 {
      var (t', addr') := LabelStep(instrs[0], t, addr);
      LabelPassKeys(instrs[1..], t', addr');
      LabelsCons(instrs);
    }
  }

  /**
   * A label defined at index `j` and not again later ends up with `addr`
   * plus the number of A- and C-instructions before index `j`.
   */
  lemma {:induction false} LabelPassLast(instrs: seq<Instruction>, t: SymbolTable, addr: nat, j: nat, x: string)
    requires j < |instrs| && DefinesLabel(instrs[j], x)
    requires forall k :: j < k < |instrs| ==> !DefinesLabel(instrs[k], x)
    ensures x in LabelPass(instrs, t, addr)
    ensures LabelPass(instrs, t, addr)[x] == addr + CountEncodable(instrs[..j])
  {
    var (t', addr') := LabelStep(instrs[0], t, addr);
    if j == 0 {
      LabelPassKeeps(instrs[1..], t', addr', x);
    } else {
      LabelPassLast(instrs[1..], t', addr', j - 1, x);
      assert instrs[..j][1..] == instrs[1..][..j - 1];
    }
  }

  // ---------------------------------------------------------------------
  // Variables

  /**
   * The symbolic A-operands of `instrs` not in `known`, each once, in the
   * order of their first use.
   */
  function NewSymbols(instrs: seq<Instruction>, known: set<string>): seq<string> {
    if |instrs| == 0 then []
    else if IsFreshSymbol(instrs[0], known) then
      [instrs[0].value.name] + NewSymbols(instrs[1..], known + {instrs[0].value.name})
    else NewSymbols(instrs[1..], known)
  }

  /** The names of `vs` are mapped by `t` to `first`, `first + 1`, ... in order. */
  predicate AllocatedFrom(vs: seq<string>, t: SymbolTable, first: nat) {
    forall k :: 0 <= k < |vs| ==> vs[k] in t && t[vs[k]] == first + k
  }

  predicate Distinct(vs: seq<string>) {
    forall a, b :: 0 <= a < b < |vs| ==> vs[a] != vs[b]
  }

  /** Entries already in the table are never changed by the variable pass. */
  lemma {:induction false} VariablePassKeeps(instrs: seq<Instruction>, t: SymbolTable, next: nat, x: string)
    requires x in t
    ensures x in VariablePass(instrs, t, next) && VariablePass(instrs, t, next)[x] == t[x]
  {
    if |instrs| > 0 {
      var (t', next') := VariableStep(instrs[0], t, next);
      VariablePassKeeps(instrs[1..], t', next', x);
    }
  }

  /** The variable pass gives the k-th new symbol the address `next + k`. */
  lemma {:induction false} VariablePassAddresses(instrs: seq<Instruction>, t: SymbolTable, next: nat)
    ensures AllocatedFrom(NewSymbols(instrs, t.Keys), VariablePass(instrs, t, next), next)
    decreases |instrs|, 1
  {
    if |instrs| > 0 {
      if IsFreshSymbol(instrs[0], t.Keys) {
        FreshStepAddresses(instrs, t, next);
      } else {
        VariablePassAddresses(instrs[1..], t, next);
        assert NewSymbols(instrs, t.Keys) == NewSymbols(instrs[1..], t.Keys);
      }
    }
  }

  /** The step case of `VariablePassAddresses` where the first instruction uses a fresh symbol. */
  lemma {:induction false} FreshStepAddresses(instrs: seq<Instruction>, t: SymbolTable, next: nat)
    requires |instrs| > 0 && IsFreshSymbol(instrs[0], t.Keys)
    ensures AllocatedFrom(NewSymbols(instrs, t.Keys), VariablePass(instrs, t, next), next)
    decreases |instrs|, 0
  {
    var y := instrs[0].value.name;
    var t' := t[y := next];
    VariablePassAddresses(instrs[1..], t', next + 1);
    assert t'.Keys == t.Keys + {y};
    var ws := NewSymbols(instrs[1..], t'.Keys);
    var vs := NewSymbols(instrs, t.Keys);
    assert vs == [y] + ws;
    assert VariablePass(instrs, t, next) == VariablePass(instrs[1..], t', next + 1);
    VariablePassKeeps(instrs[1..], t', next + 1, y);
    forall k | 0 <= k < |vs|
      ensures vs[k] in VariablePass(instrs, t, next) && VariablePass(instrs, t, next)[vs[k]] == next + k
    {
      if k > 0 {
        assert vs[k] == ws[k - 1];
      }
    }
  }

  /** The variable pass adds exactly the new symbols. */
  lemma {:induction false} VariablePassKeys(instrs: seq<Instruction>, t: SymbolTable, next: nat)
    ensures forall x :: x in VariablePass(instrs, t, next) <==> x in t || x in NewSymbols(instrs, t.Keys)
  {
    if |instrs| > 0 {
      var (t', next') := VariableStep(instrs[0], t, next);
      VariablePassKeys(instrs[1..], t', next');
      if IsFreshSymbol(instrs[0], t.Keys) {
        assert t'.Keys == t.Keys + {instrs[0].value.name};
      }
    }
  }

  /**
   * The new symbols are distinct, none of them was known, and they are
   * exactly the symbolic operands of `instrs` that were not known.
   */
  lemma {:induction false} NewSymbolsAre(instrs: seq<Instruction>, known: set<string>)
    ensures Distinct(NewSymbols(instrs, known))
    ensures forall x :: x in NewSymbols(instrs, known) <==> x in SymbolUses(instrs) && x !in known
  {
    if |instrs| > 0 {
      SymbolUsesCons(instrs);
      if IsFreshSymbol(instrs[0], known) {
        var y := instrs[0].value.name;
        NewSymbolsAre(instrs[1..], known + {y});
        FreshSymbolFirst(instrs, known);
      } else {
        NewSymbolsAre(instrs[1..], known);
        assert NewSymbols(instrs, known) == NewSymbols(instrs[1..], known);
      }
    }
  }

  /** The fresh symbol put first does not recur among the later new symbols. */
  lemma FreshSymbolFirst(instrs: seq<Instruction>, known: set<string>)
    requires |instrs| > 0 && IsFreshSymbol(instrs[0], known)
    requires Distinct(NewSymbols(instrs[1..], known + {instrs[0].value.name}))
    requires forall x :: x in NewSymbols(instrs[1..], known + {instrs[0].value.name}) ==> x !in known + {instrs[0].value.name}
    ensures Distinct(NewSymbols(instrs, known))
  {
    var y := instrs[0].value.name;
    var ws := NewSymbols(instrs[1..], known + {y});
    var vs := NewSymbols(instrs, known);
    assert vs == [y] + ws;
    forall a, b | 0 <= a < b < |vs|
      ensures vs[a] != vs[b]
    {
      assert vs[b] == ws[b - 1];
      if a > 0 {
        assert vs[a] == ws[a - 1];
      } else {
        assert vs[b] in ws;
      }
    }
  }

  // ---------------------------------------------------------------------
  // What AnalyzeSymbols promises

  /** The variables of a program: its unknown symbols, in order of first use. */
  function Variables(instrs: seq<Instruction>): seq<string> {
    NewSymbols(instrs, LabelTable(instrs).Keys)
  }

  /**
   * A label maps to the number of A- and C-instructions strictly before its
   * last definition, wherever it is referenced.
   */
  lemma LabelAddress(instrs: seq<Instruction>, j: nat, x: string)
    requires j < |instrs| && DefinesLabel(instrs[j], x)
    requires forall k :: j < k < |instrs| ==> !DefinesLabel(instrs[k], x)
    ensures x in SymbolTableOf(instrs) && SymbolTableOf(instrs)[x] == CountEncodable(instrs[..j])
  {
    LabelPassLast(instrs, Predefined(), 0, j, x);
    VariablePassKeeps(instrs, LabelTable(instrs), FirstVariable, x);
  }

  /** A predefined name that no label redefines keeps its predefined address. */
  lemma PredefinedKept(instrs: seq<Instruction>, x: string)
    requires x in Predefined()
    requires forall k :: 0 <= k < |instrs| ==> !DefinesLabel(instrs[k], x)
    ensures x in SymbolTableOf(instrs) && SymbolTableOf(instrs)[x] == Predefined()[x]
  {
    LabelPassKeeps(instrs, Predefined(), 0, x);
    VariablePassKeeps(instrs, LabelTable(instrs), FirstVariable, x);
  }

  /**
   * Variables get 16, 17, ... in order of first use; they are distinct and
   * are exactly the symbolic operands that are neither predefined nor labels.
   */
  lemma VariableAddresses(instrs: seq<Instruction>)
    ensures AllocatedFrom(Variables(instrs), SymbolTableOf(instrs), FirstVariable)
    ensures Distinct(Variables(instrs))
    ensures forall x :: (x in Variables(instrs)
        <==> x in SymbolUses(instrs) && x !in Predefined() && x !in Labels(instrs))
  {
    VariablePassAddresses(instrs, LabelTable(instrs), FirstVariable);
    NewSymbolsAre(instrs, LabelTable(instrs).Keys);
    LabelPassKeys(instrs, Predefined(), 0);
  }

  /**
   * The finished table knows exactly the predefined names, the labels and
   * the symbolic operands: every symbol the program uses is resolved.
   */
  lemma AllSymbolsResolved(instrs: seq<Instruction>)
    ensures SymbolTableOf(instrs).Keys == Predefined().Keys + Labels(instrs) + SymbolUses(instrs)
  {
    LabelPassKeys(instrs, Predefined(), 0);
    VariablePassKeys(instrs, LabelTable(instrs), FirstVariable);
    NewSymbolsAre(instrs, LabelTable(instrs).Keys);
  }
}
