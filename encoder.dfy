/**
 * Binary encoding of resolved A- and C-instructions into 16-character
 * strings of '0' and '1'.
 */
module Encoder {
  import opened Wrappers
  import opened Text
  import opened Instructions
  import opened Recognizer

  // ---------------------------------------------------------------------
  // Bit strings

  function Pow2(k: nat): (r: nat)
    ensures r > 0
  {
    if k == 0 then 1 else 2 * Pow2(k - 1)
  }

  /** A string made only of '0' and '1'. */
  predicate IsBinary(s: string) {
    forall k :: 0 <= k < |s| ==> s[k] == '0' || s[k] == '1'
  }

  /** `str(number % 2)`. */
  function BitChar(n: nat): char {
    if n % 2 == 0 then '0' else '1'
  }

  /** The low `k` bits of `n`, most significant first. */
  function Bits(n: nat, k: nat): (r: string)
    ensures |r| == k && IsBinary(r)
  {
    if k == 0 then "" else Bits(n / 2, k - 1) + [BitChar(n)]
  }

  /** The number a string of bits stands for, most significant first. */
  function Value(s: string): nat {
    if |s| == 0 then 0 else 2 * Value(s[..|s| - 1]) + (if s[|s| - 1] == '1' then 1 else 0)
  }

  /** `_ToBinary15`: fifteen rounds of prepending the low bit and halving. */
  method ToBinary15(n: nat) returns (result: string)
    ensures result == Bits(n, 15)
  {
    result := "";
    var number := n;
    var i := 0;
    while i < 15
      invariant 0 <= i <= 15
      invariant Bits(number, 15 - i) + result == Bits(n, 15)
    {
      assert Bits(number, 15 - i) == Bits(number / 2, 15 - i - 1) + [BitChar(number)];
      result := [BitChar(number)] + result;
      number := number / 2;
      i := i + 1;
    }
  }

  /** Reading back `k` bits of `n` gives `n` modulo `2^k`. */
  lemma {:induction false} ValueOfBits(n: nat, k: nat)
    ensures Value(Bits(n, k)) == n % Pow2(k)
  {
    if k > 0 {
      var r := Bits(n, k);
      assert r[..k - 1] == Bits(n / 2, k - 1);
      ValueOfBits(n / 2, k - 1);
      ModDouble(n, Pow2(k - 1));
    }
  }

  lemma ModDouble(n: nat, m: nat)
    requires m > 0
    ensures 2 * ((n / 2) % m) + n % 2 == n % (2 * m)
  {
    var q := n / 2;
    var a := q / m;
    var b := q % m;
    assert q == m * a + b;
    assert n == (2 * m) * a + (2 * b + n % 2);
    ModUnique(n, 2 * m, a, 2 * b + n % 2);
  }

  /** The remainder is the only `r` in `[0, d)` with `n == d * q + r`. */
  lemma ModUnique(n: int, d: int, q: int, r: int)
    requires d > 0 && n == d * q + r && 0 <= r < d
    ensures n % d == r
  {
    var q' := n / d;
    assert n == d * q' + n % d;
    var e := q - q';
    assert d * e == d * q - d * q';
    assert d * e == n % d - r;
    if e >= 1 {
      MulAtLeast(d, e);
    } else if e <= -1 {
      MulAtMost(d, e);
    }
  }

  lemma MulAtLeast(d: int, e: int)
    requires d > 0 && e >= 1
    ensures d * e >= d
  {
  }

  lemma MulAtMost(d: int, e: int)
    requires d > 0 && e <= -1
    ensures d * e <= -d
  {
  }

  /** Writing the value of a bit string back in as many bits gives the string. */
  lemma {:induction false} BitsOfValue(s: string)
    requires IsBinary(s)
    ensures Bits(Value(s), |s|) == s
  {
    if |s| > 0 {
      var init := s[..|s| - 1];
      BitsOfValue(init);
      assert Value(s) / 2 == Value(init);
      assert s == init + [s[|s| - 1]];
    }
  }

  // ---------------------------------------------------------------------
  // A-instructions

  /** `AInstruction.ToBinary`: a '0' then the operand in fifteen bits. */
  function EncodeA(n: nat): string {
    "0" + Bits(n, 15)
  }

  /**
   * The A-word has sixteen bits, starts with '0', and its last fifteen read
   * back as the operand modulo 2^15; an operand below 2^15 comes back exactly.
   */
  lemma AEncoding(n: nat)
    ensures |EncodeA(n)| == 16 && IsBinary(EncodeA(n)) && EncodeA(n)[0] == '0'
    ensures Value(EncodeA(n)[1..]) == n % AddressLimit
    ensures n < AddressLimit ==> Value(EncodeA(n)[1..]) == n
  {
    AWordShape(n);
    ValueOfBits(n, 15);
    AddressLimitIsPow2();
    SmallResidue(n, AddressLimit);
  }

  lemma AWordShape(n: nat)
    ensures |EncodeA(n)| == 16 && IsBinary(EncodeA(n)) && EncodeA(n)[0] == '0'
    ensures EncodeA(n)[1..] == Bits(n, 15)
  {
    var w := EncodeA(n);
    assert w[1..] == Bits(n, 15);
    forall k | 0 <= k < |w|
      ensures w[k] == '0' || w[k] == '1'
    {
      if k > 0 {
        assert w[k] == Bits(n, 15)[k - 1];
      }
    }
  }

  lemma SmallResidue(n: nat, m: nat)
    requires m > 0
    ensures n < m ==> n % m == n
  {
  }

  lemma AddressLimitIsPow2()
    ensures Pow2(15) == AddressLimit
  {
    assert Pow2(5) == 32;
    assert Pow2(10) == 1024;
    assert Pow2(15) == 32768;
  }

  /** Two operands get the same A-word exactly when they agree modulo 2^15. */
  lemma AEncodingInjective(n1: nat, n2: nat)
    ensures EncodeA(n1) == EncodeA(n2) <==> n1 % AddressLimit == n2 % AddressLimit
  {
    AEncoding(n1);
    AEncoding(n2);
    if n1 % AddressLimit == n2 % AddressLimit {
      AWordOfResidue(n1);
      AWordOfResidue(n2);
    }
  }

  /** The A-word depends on the operand only modulo 2^15. */
  lemma AWordOfResidue(n: nat)
    ensures EncodeA(n) == EncodeA(n % AddressLimit)
  {
    AEncoding(n);
    AEncoding(n % AddressLimit);
    BitsOfValue(EncodeA(n)[1..]);
    BitsOfValue(EncodeA(n % AddressLimit)[1..]);
    assert EncodeA(n)[1..] == Bits(n, 15);
    assert EncodeA(n % AddressLimit)[1..] == Bits(n % AddressLimit, 15);
  }

  // ---------------------------------------------------------------------
  // C-instructions

  /** `_COMP_TABLE`; `-A` is accepted by the grammar but has no entry here. */
  const CompTable: seq<(string, string)> := [
    ("0", "0101010"), ("1", "0111111"), ("-1", "0111010"), ("D", "0001100"),
    ("A", "0110000"), ("!D", "0001101"), ("!A", "0110001"), ("-D", "0001111"),
    ("D+1", "0011111"), ("A+1", "0110111"), ("D-1", "0001110"), ("A-1", "0110010"),
    ("D+A", "0000010"), ("D-A", "0010011"), ("A-D", "0000111"), ("D&A", "0000000"),
    ("D|A", "0010101"), ("M", "1110000"), ("!M", "1110001"), ("-M", "1110011"),
    ("M+1", "1110111"), ("M-1", "1110010"), ("D+M", "1000010"), ("D-M", "1010011"),
    ("M-D", "1000111"), ("D&M", "1000000"), ("D|M", "1010101")]

  /** `_DEST_TABLE`. */
  const DestTable: seq<(string, string)> := [
    ("", "000"), ("M", "001"), ("D", "010"), ("MD", "011"),
    ("A", "100"), ("AM", "101"), ("AD", "110"), ("AMD", "111")]

  /** `_JUMP_TABLE`. */
  const JumpTable: seq<(string, string)> := [
    ("", "000"), ("JGT", "001"), ("JEQ", "010"), ("JGE", "011"),
    ("JLT", "100"), ("JNE", "101"), ("JLE", "110"), ("JMP", "111")]

  /** The code `table` gives `key`, if it has an entry for it. */
  function Lookup(table: seq<(string, string)>, key: string): (r: Option<string>)
    ensures r.Some? <==> exists i :: 0 <= i < |table| && table[i].0 == key
    ensures r.Some? ==> exists i :: 0 <= i < |table| && table[i] == (key, r.value)
  {
    if |table| == 0 then None
    else if table[0].0 == key then Some(table[0].1)
    else
      var r := Lookup(table[1..], key);
      assert r.Some? ==> exists i :: 0 <= i < |table[1..]| && table[1..][i] == (key, r.value);
      r
  }

  /** Every code of `table` is a string of `width` bits. */
  predicate CodesHaveWidth(table: seq<(string, string)>, width: nat) {
    forall i :: 0 <= i < |table| ==> |table[i].1| == width && IsBinary(table[i].1)
  }

  lemma CompCodesWidth()
    ensures CodesHaveWidth(CompTable, 7)
  {
  }

  lemma DestCodesWidth()
    ensures CodesHaveWidth(DestTable, 3)
  {
  }

  lemma JumpCodesWidth()
    ensures CodesHaveWidth(JumpTable, 3)
  {
  }

  /**
   * The comp table lists the comp mnemonics in grammar order, leaving out
   * `-A`, the ninth.
   */
  lemma CompKeys()
    ensures |CompTable| == 27 && |CompMnemonics| == 28 && CompMnemonics[8] == "-A"
    ensures forall i :: 0 <= i < 8 ==> CompTable[i].0 == CompMnemonics[i]
    ensures forall i :: 8 <= i < 27 ==> CompTable[i].0 == CompMnemonics[i + 1]
  {
  }

  lemma MinusAUnlisted()
    ensures forall i :: 0 <= i < |CompTable| ==> CompTable[i].0 != "-A"
  {
  }

  /** The dest table has the empty destination first, then every dest mnemonic. */
  lemma DestKeys()
    ensures |DestTable| == |DestMnemonics| + 1 && DestTable[0] == ("", "000")
    ensures forall i :: 0 <= i < |DestMnemonics| ==> DestTable[i + 1].0 == DestMnemonics[i]
  {
  }

  /** The jump table has the empty jump first, then every jump mnemonic. */
  lemma JumpKeys()
    ensures |JumpTable| == |JumpMnemonics| + 1 && JumpTable[0] == ("", "000")
    ensures forall i :: 0 <= i < |JumpMnemonics| ==> JumpTable[i + 1].0 == JumpMnemonics[i]
  {
  }

  /** A table listing `list` except its entry at `gap` has every other member of `list`. */
  lemma FoundExceptGap(table: seq<(string, string)>, list: seq<string>, gap: nat, key: string)
    requires |list| == |table| + 1 && gap < |list|
    requires forall i :: 0 <= i < gap ==> table[i].0 == list[i]
    requires forall i :: gap <= i < |table| ==> table[i].0 == list[i + 1]
    requires Member(key, list) && key != list[gap]
    ensures Lookup(table, key).Some?
  {
    var i :| 0 <= i < |list| && list[i] == key;
    var j := GapIndex(table, list, gap, i);
    KeyAt(table, j, key);
  }

  /** Where entry `i` of `list` sits in a table that leaves out entry `gap`. */
  function GapIndex(table: seq<(string, string)>, list: seq<string>, gap: nat, i: nat): (j: nat)
    requires |list| == |table| + 1 && gap < |list| && i < |list| && i != gap
    requires forall k :: 0 <= k < gap ==> table[k].0 == list[k]
    requires forall k :: gap <= k < |table| ==> table[k].0 == list[k + 1]
    ensures j < |table| && table[j].0 == list[i]
  {
    if i < gap then i else i - 1
  }

  lemma KeyAt(table: seq<(string, string)>, j: nat, key: string)
    requires j < |table| && table[j].0 == key
    ensures Lookup(table, key).Some?
  {
  }

  /** A table listing "" and then `list` has the empty key and every member of `list`. */
  lemma FoundAfterEmpty(table: seq<(string, string)>, list: seq<string>, key: string)
    requires |table| == |list| + 1 && table[0].0 == ""
    requires forall i :: 0 <= i < |list| ==> table[i + 1].0 == list[i]
    requires |key| == 0 || Member(key, list)
    ensures Lookup(table, key).Some?
  {
    if |key| == 0 {
      assert table[0].0 == key;
    } else {
      var i :| 0 <= i < |list| && list[i] == key;
      assert table[i + 1].0 == key;
    }
  }

  lemma CompFound(comp: string)
    requires Member(comp, CompMnemonics) && comp != "-A"
    ensures Lookup(CompTable, comp).Some?
  {
    CompKeys();
    FoundExceptGap(CompTable, CompMnemonics, 8, comp);
  }

  lemma MinusAMissing()
    ensures Lookup(CompTable, "-A").None?
  {
    MinusAUnlisted();
  }

  lemma DestFound(dest: string)
    requires |dest| == 0 || Member(dest, DestMnemonics)
    ensures Lookup(DestTable, dest).Some?
  {
    DestKeys();
    FoundAfterEmpty(DestTable, DestMnemonics, dest);
  }

  lemma JumpFound(jump: string)
    requires |jump| == 0 || Member(jump, JumpMnemonics)
    ensures Lookup(JumpTable, jump).Some?
  {
    JumpKeys();
    FoundAfterEmpty(JumpTable, JumpMnemonics, jump);
  }

  /** A code found in a table has the table's width. */
  lemma LookupWidth(table: seq<(string, string)>, width: nat, key: string)
    requires CodesHaveWidth(table, width) && Lookup(table, key).Some?
    ensures |Lookup(table, key).value| == width && IsBinary(Lookup(table, key).value)
  {
  }

  /**
   * `CInstruction.ToBinary`: "111", then the comp, dest and jump codes; a
   * key missing from its table fails with that key, comp checked first.
   */
  function EncodeC(dest: string, comp: string, jump: string): Result<string, string> {
    var c := Lookup(CompTable, comp);
    var d := Lookup(DestTable, dest);
    var j := Lookup(JumpTable, jump);
    if c.None? then Failure(comp)
    else if d.None? then Failure(dest)
    else if j.None? then Failure(jump)
    else Success("111" + c.value + d.value + j.value)
  }

  /**
   * For the fields the C grammar accepts, encoding fails exactly when comp
   * is `-A`, and then with the key `-A`.
   */
  lemma EncodeCDefined(dest: string, comp: string, jump: string)
    requires ValidFields(dest, comp, jump)
    ensures EncodeC(dest, comp, jump).Success? <==> comp != "-A"
    ensures EncodeC(dest, comp, jump).Failure? ==> EncodeC(dest, comp, jump).error == "-A"
  {
    DestFound(dest);
    JumpFound(jump);
    if comp != "-A" {
      CompFound(comp);
    } else {
      MinusAMissing();
    }
  }

  /** The layout of a C-word built from codes of the right widths. */
  lemma CWordLayout(c: string, d: string, j: string)
    requires |c| == 7 && |d| == 3 && |j| == 3 && IsBinary(c) && IsBinary(d) && IsBinary(j)
    ensures var w := "111" + c + d + j;
      |w| == 16 && IsBinary(w) && w[..3] == "111" && w[3..10] == c && w[10..13] == d && w[13..] == j
  {
    var w := "111" + c + d + j;
    forall k | 0 <= k < 16
      ensures w[k] == '0' || w[k] == '1'
    {
      if k >= 13 {
        assert w[k] == j[k - 13];
      } else if k >= 10 {
        assert w[k] == d[k - 10];
      } else if k >= 3 {
        assert w[k] == c[k - 3];
      }
    }
  }

  /**
   * A C-word has sixteen bits: "111", seven comp bits, three dest bits and
   * three jump bits, each the code its table gives; an absent dest or jump
   * is "000".
   */
  lemma CEncodingShape(dest: string, comp: string, jump: string)
    requires EncodeC(dest, comp, jump).Success?
    ensures var w := EncodeC(dest, comp, jump).value;
      |w| == 16 && IsBinary(w) && w[..3] == "111"
      && w[3..10] == Lookup(CompTable, comp).value
      && w[10..13] == Lookup(DestTable, dest).value
      && w[13..] == Lookup(JumpTable, jump).value
    ensures |dest| == 0 ==> EncodeC(dest, comp, jump).value[10..13] == "000"
    ensures |jump| == 0 ==> EncodeC(dest, comp, jump).value[13..] == "000"
  {
    var c := Lookup(CompTable, comp).value;
    var d := Lookup(DestTable, dest).value;
    var j := Lookup(JumpTable, jump).value;
    CodeWidths(comp, dest, jump);
    CWordLayout(c, d, j);
    EmptyCodes(dest, jump);
  }

  lemma CodeWidths(comp: string, dest: string, jump: string)
    requires Lookup(CompTable, comp).Some? && Lookup(DestTable, dest).Some? && Lookup(JumpTable, jump).Some?
    ensures |Lookup(CompTable, comp).value| == 7 && IsBinary(Lookup(CompTable, comp).value)
    ensures |Lookup(DestTable, dest).value| == 3 && IsBinary(Lookup(DestTable, dest).value)
    ensures |Lookup(JumpTable, jump).value| == 3 && IsBinary(Lookup(JumpTable, jump).value)
  {
    CompCodesWidth();
    DestCodesWidth();
    JumpCodesWidth();
    LookupWidth(CompTable, 7, comp);
    LookupWidth(DestTable, 3, dest);
    LookupWidth(JumpTable, 3, jump);
  }

  /** The empty dest and the empty jump both encode as "000". */
  lemma EmptyCodes(dest: string, jump: string)
    ensures |dest| == 0 ==> Lookup(DestTable, dest) == Some("000")
    ensures |jump| == 0 ==> Lookup(JumpTable, jump) == Some("000")
  {
    DestKeys();
    JumpKeys();
  }

  // ---------------------------------------------------------------------
  // Instructions and programs

  /** `ToBinary` of a resolved instruction; fails with the key a table lacks. */
  function Encode(instr: Instruction): Result<string, string>
    requires instr.IsResolved()
  {
    if instr.AInstruction? then Success(EncodeA(instr.value.n))
    else EncodeC(instr.dest, instr.comp, instr.jump)
  }

  /** Every word is sixteen bits, and its first bit tells an A-word from a C-word. */
  lemma EncodeWord(instr: Instruction)
    requires instr.IsResolved() && Encode(instr).Success?
    ensures |Encode(instr).value| == 16 && IsBinary(Encode(instr).value)
    ensures Encode(instr).value[0] == '0' <==> instr.AInstruction?
  {
    if instr.AInstruction? {
      AEncoding(instr.value.n);
    } else {
      CEncodingShape(instr.dest, instr.comp, instr.jump);
      assert Encode(instr).value[0] == Encode(instr).value[..3][0];
    }
  }

  /** Each instruction's `ToBinary`, in order. */
  function EncodeAll(instrs: seq<Instruction>): (rs: seq<Result<string, string>>)
    requires forall k :: 0 <= k < |instrs| ==> instrs[k].IsResolved()
    ensures |rs| == |instrs| && forall k :: 0 <= k < |instrs| ==> rs[k] == Encode(instrs[k])
  {
    seq(|instrs|, k requires 0 <= k < |instrs| => Encode(instrs[k]))
  }

  /**
   * `TranslateToBinary`: every instruction encoded, in order; the first
   * failing one stops the translation with its missing key.
   */
  function Translate(instrs: seq<Instruction>): Result<seq<string>, string>
    requires forall k :: 0 <= k < |instrs| ==> instrs[k].IsResolved()
  {
    Sequence(EncodeAll(instrs))
  }

  /** A successful translation has one word per instruction, in order. */
  lemma TranslateWords(instrs: seq<Instruction>)
    requires forall k :: 0 <= k < |instrs| ==> instrs[k].IsResolved()
    requires Translate(instrs).Success?
    ensures |Translate(instrs).value| == |instrs|
    ensures forall k :: 0 <= k < |instrs| ==> Encode(instrs[k]) == Success(Translate(instrs).value[k])
  {
    SequenceValues(EncodeAll(instrs));
  }

  /**
   * Translation fails exactly when some instruction has no encoding, and
   * then with the key of the first such instruction.
   */
  lemma TranslateFails(instrs: seq<Instruction>)
    requires forall k :: 0 <= k < |instrs| ==> instrs[k].IsResolved()
    ensures Translate(instrs).Failure? <==> exists k :: 0 <= k < |instrs| && Encode(instrs[k]).Failure?
    ensures Translate(instrs).Failure? ==>
      exists k :: (0 <= k < |instrs| && Encode(instrs[k]) == Failure(Translate(instrs).error)
        && forall k' :: 0 <= k' < k ==> Encode(instrs[k']).Success?)
  {
    SequenceFailure(EncodeAll(instrs));
  }
}
