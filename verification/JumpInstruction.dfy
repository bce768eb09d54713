/**
 The jump instruction at the start of the boot head (`fes1_head.c`), and the processor's reading of
 it: JAL in sections 2.3 and 2.5 of the RISC-V Unprivileged ISA, B (encoding A1) in section A8.8.18
 of the ARMv7-A/R Architecture Reference Manual.  `headSize` is sizeof(boot0_file_head_t).
 */
module JumpInstruction {
  import opened Bits

  // ----- RISC-V -----

  /** `BROM_FILE_HEAD_SIZE` */
  function JalSize(headSize: Word): nat {
    And(headSize, 0x000F_FFFF)
  }

  /** `BROM_FILE_HEAD_BIT_10_1` */
  function Bits10To1(size: nat): nat {
    Shr(And(size, 0x7FE), 1)
  }

  /** `BROM_FILE_HEAD_BIT_11` */
  function Bit11(size: nat): nat {
    Shr(And(size, 0x800), 11)
  }

  /** `BROM_FILE_HEAD_BIT_19_12` */
  function Bits19To12(size: nat): nat {
    Shr(And(size, 0xF_F000), 12)
  }

  /** `BROM_FILE_HEAD_BIT_20` */
  function Bit20(size: nat): nat {
    Shr(And(size, 0x10_0000), 20)
  }

  /** `BROM_FILE_HEAD_SIZE_OFFSET | 0x6f` */
  function Assemble(bit20: nat, bits10To1: nat, bit11: nat, bits19To12: nat): nat {
    var offset := Or(Or(Or(Wrap(bit20 * 0x8000_0000), Wrap(bits10To1 * 0x20_0000)), Wrap(bit11 * 0x10_0000)),
                     Wrap(bits19To12 * 0x1000));
    Or(offset, 0x6f)
  }

  /** `JUMP_INSTRUCTION` under CFG_ARCH_RISCV */
  function JalWord(headSize: Word): nat {
    var size := JalSize(headSize);
    Assemble(Bit20(size), Bits10To1(size), Bit11(size), Bits19To12(size))
  }

  datatype Jal = Jal(opcode: nat, rd: nat, offset: int)

  /** The fields of a J-type instruction: the immediate is stored as bits 20, 10:1, 11 and 19:12. */
  function ReadJal(instr: nat): Jal {
    var sign := instr / 0x8000_0000;
    var imm := instr / 0x20_0000 % 0x400 * 2 + instr / 0x10_0000 % 2 * 0x800 + instr / 0x1000 % 0x100 * 0x1000;
    Jal(instr % 0x80, instr / 0x80 % 0x20, imm - sign * 0x10_0000)
  }

  lemma Pow2Constants()
    ensures Pow2(1) == 2 && Pow2(11) == 0x800 && Pow2(12) == 0x1000 && Pow2(20) == 0x10_0000
    ensures Pow2(21) == 0x20_0000 && Pow2(24) == 0x100_0000 && Pow2(32) == WORD_SIZE
  {
    Pow2Values();
    assert Pow2(3) == 8 && Pow2(4) == 16;
    Pow2Add(8, 3);
    Pow2Add(8, 4);
    Pow2Add(20, 1);
  }

  /** A masked field, shifted down. */
  lemma Field(x: nat, k: nat, n: nat)
    requires k <= n
    ensures Pow2(k) <= Pow2(n)
    ensures Shr(And(x, Pow2(n) - Pow2(k)), k) == x % Pow2(n) / Pow2(k)
  {
    AndField(x, k, n);
    LowOfLow(x, k, n);
    ShrLowIsDivMod(x, n);
    ShrOfRoundedDown(Low(x, n), k);
    ShrLowIsDivMod(Low(x, n), k);
  }

  lemma {:induction false} ShrOfRoundedDown(x: nat, k: nat)
    ensures Low(x, k) <= x && Shr(x - Low(x, k), k) == Shr(x, k)
  {
    if k == 0 {
    } else {
      ShrOfRoundedDown(x / 2, k - 1);
      assert (x - Low(x, k)) / 2 == x / 2 - Low(x / 2, k - 1);
    }
  }

  lemma {:induction false} LowOfLow(x: nat, k: nat, n: nat)
    requires k <= n
    ensures Low(Low(x, n), k) == Low(x, k)
  {
    if k == 0 {
    } else {
      LowOfLow(x / 2, k - 1, n - 1);
    }
  }

  lemma OrMultiple(q: nat, m: nat, y: nat, k: nat)
    requires m == Pow2(k) && y < m
    ensures Or(q * m, y) == q * m + y
  {
    ShrLowIsDivMod(q * m, k);
    DivModUnique(q * m, m, q, 0);
    OrDisjoint(q * m, y, k);
  }

  lemma Field11(s: nat)
    ensures Bits10To1(s) == s % 0x800 / 2
    ensures Bit11(s) == s % 0x1000 / 0x800
  {
    Pow2Constants();
    Field(s, 1, 11);
    Field(s, 11, 12);
  }

  lemma Field20(s: nat)
    requires s < 0x10_0000
    ensures Bits19To12(s) == s / 0x1000 && Bit20(s) == 0
  {
    Pow2Constants();
    Field(s, 12, 20);
    NoField(s, 20);
    assert s % 0x10_0000 == s;
  }

  lemma NoField(s: nat, k: nat)
    requires s < Pow2(k)
    ensures Shr(And(s, Pow2(k + 1) - Pow2(k)), k) == 0
  {
    AndField(s, k, k + 1);
    ShrSmall(s, k);
    ShrSmall(s, k + 1);
    ShrSmall(0, k);
  }

  lemma SizeField(headSize: Word)
    ensures JalSize(headSize) == headSize % 0x10_0000
  {
    Pow2Values();
    AndLowMask(headSize, 20);
    ShrLowIsDivMod(headSize, 20);
  }

  /** The fields do not meet, so the instruction is their sum. */
  lemma JalFields(a: nat, b: nat, c: nat)
    requires a < 0x400 && b < 2 && c < 0x100
    ensures Assemble(0, a, b, c) == a * 0x20_0000 + b * 0x10_0000 + c * 0x1000 + 0x6f
  {
    Pow2Constants();
    var x := 2 * a + b;
    var y := 0x100 * x + c;
    calc {
      Assemble(0, a, b, c);
      { WrapIsIdentity(0); WrapIsIdentity(a * 0x20_0000); WrapIsIdentity(b * 0x10_0000); WrapIsIdentity(c * 0x1000); }
      Or(Or(Or(Or(0, a * 0x20_0000), b * 0x10_0000), c * 0x1000), 0x6f);
      Or(Or(Or(a * 0x20_0000, b * 0x10_0000), c * 0x1000), 0x6f);
      { OrMultiple(a, 0x20_0000, b * 0x10_0000, 21); }
      Or(Or(x * 0x10_0000, c * 0x1000), 0x6f);
      { OrMultiple(x, 0x10_0000, c * 0x1000, 20); }
      Or(y * 0x1000, 0x6f);
      { OrMultiple(y, 0x1000, 0x6f, 12); }
      y * 0x1000 + 0x6f;
    }
  }

  /**
   The word is a plain jump (JAL with rd = x0) forward by the even part of the head size modulo
   2^20: to the end of the head exactly when its size is even and below 2^20.
   */
  lemma JalReachesEndOfHead(headSize: Word)
    ensures var j := ReadJal(JalWord(headSize));
            && JalWord(headSize) < WORD_SIZE
            && j.opcode == 0x6f && j.rd == 0
            && j.offset == headSize % 0x10_0000 - headSize % 2
            && (j.offset == headSize <==> headSize % 2 == 0 && headSize < 0x10_0000)
  {
    DecodedJal(headSize);
    Parity(headSize);
  }

  lemma DecodedJal(headSize: Word)
    ensures JalWord(headSize) < WORD_SIZE
    ensures ReadJal(JalWord(headSize)) == Jal(0x6f, 0, headSize % 0x10_0000 - headSize % 2)
  {
    var s := headSize % 0x10_0000;
    var a, b, c := s % 0x800 / 2, s % 0x1000 / 0x800, s / 0x1000;
    FieldRanges(s);
    FieldsOfSize(s);
    Parity(headSize);
    JalWordFields(headSize, s, a, b, c);
    ReadFields(a, b, c);
  }

  lemma FieldRanges(s: nat)
    requires s < 0x10_0000
    ensures s % 0x800 / 2 < 0x400 && s % 0x1000 / 0x800 < 2 && s / 0x1000 < 0x100
  {
  }

  lemma Parity(size: Word)
    ensures size % 0x10_0000 % 2 == size % 2
    ensures size % 0x10_0000 - size % 2 == size <==> size % 2 == 0 && size < 0x10_0000
  {
    var q, s := size / 0x10_0000, size % 0x10_0000;
    assert size == 2 * (0x8_0000 * q + s / 2) + s % 2;
  }

  lemma JalWordFields(headSize: Word, s: nat, a: nat, b: nat, c: nat)
    requires s == headSize % 0x10_0000
    requires a == s % 0x800 / 2 && b == s % 0x1000 / 0x800 && c == s / 0x1000
    ensures JalWord(headSize) == a * 0x20_0000 + b * 0x10_0000 + c * 0x1000 + 0x6f
  {
    calc {
      JalWord(headSize);
      { SizeField(headSize); }
      Assemble(Bit20(s), Bits10To1(s), Bit11(s), Bits19To12(s));
      { Field11(s); Field20(s); }
      Assemble(0, a, b, c);
      { JalFields(a, b, c); }
      a * 0x20_0000 + b * 0x10_0000 + c * 0x1000 + 0x6f;
    }
  }

  lemma FieldsOfSize(s: nat)
    requires s < 0x10_0000
    ensures s % 0x800 / 2 * 2 + s % 0x1000 / 0x800 * 0x800 + s / 0x1000 * 0x1000 == s - s % 2
  {
    var c, r := s / 0x1000, s % 0x1000;
    var b, t := r / 0x800, r % 0x800;
    assert s == (2 * c + b) * 0x800 + t;
    DivModUnique(s, 0x800, 2 * c + b, t);
  }

  lemma ReadFields(a: nat, b: nat, c: nat)
    requires a < 0x400 && b < 2 && c < 0x100
    ensures var w := a * 0x20_0000 + b * 0x10_0000 + c * 0x1000 + 0x6f;
            w < WORD_SIZE && ReadJal(w) == Jal(0x6f, 0, a * 2 + b * 0x800 + c * 0x1000)
  {
    var w := a * 0x20_0000 + b * 0x10_0000 + c * 0x1000 + 0x6f;
    var x := 2 * a + b;
    var y := 0x100 * x + c;
    DivModUnique(w, 0x8000_0000, 0, w);
    DivModUnique(w, 0x20_0000, a, b * 0x10_0000 + c * 0x1000 + 0x6f);
    DivModUnique(a, 0x400, 0, a);
    DivModUnique(w, 0x10_0000, x, c * 0x1000 + 0x6f);
    DivModUnique(x, 2, a, b);
    DivModUnique(w, 0x1000, y, 0x6f);
    DivModUnique(y, 0x100, x, c);
    DivModUnique(w, 0x80, 0x20 * y, 0x6f);
    DivModUnique(0x20 * y, 0x20, y, 0);
  }

  // ----- ARM -----

  /** `(sizeof(boot0_file_head_t) + sizeof(int) - 1) / sizeof(int) - 2` on size_t */
  function BranchWords(headSize: Word): Word {
    Wrap(Wrap(headSize + 3) / 4 - 2)
  }

  /** `JUMP_INSTRUCTION` otherwise */
  function BranchWord(headSize: Word): Word {
    BranchIsWord(BranchWords(headSize));
    Or(BranchWords(headSize), 0xEA00_0000)
  }

  /** The instruction the comment in the file describes, which also masks the word count to 24 bits. */
  function DocumentedBranchWord(headSize: Word): Word {
    AndAtMost(BranchWords(headSize), 0x00FF_FFFF);
    BranchIsWord(And(BranchWords(headSize), 0x00FF_FFFF));
    Or(And(BranchWords(headSize), 0x00FF_FFFF), 0xEA00_0000)
  }

  datatype Branch = Branch(cond: nat, op: nat, offset: int)

  /** The fields of a branch, with its target relative to its own address: the PC reads 8 ahead. */
  function ReadBranch(instr: Word): Branch {
    var imm24 := instr % 0x100_0000;
    var signed := if imm24 >= 0x80_0000 then imm24 - 0x100_0000 else imm24;
    Branch(instr / 0x1000_0000, instr / 0x100_0000 % 0x10, 4 * signed + 8)
  }

  /** An unconditional branch to `target` */
  predicate BranchesTo(instr: Word, target: int) {
    var b := ReadBranch(instr);
    b.cond == 0xE && b.op == 0xA && b.offset == target
  }

  function WordAligned(size: nat): nat {
    (size + 3) / 4 * 4
  }

  lemma BranchIsWord(words: Word)
    ensures Or(words, 0xEA00_0000) < WORD_SIZE
  {
    Pow2Values();
    OrBound(words, 0xEA00_0000, 32);
  }

  /** The opcode byte is merged with the top byte of the word count; the low 24 bits are the count's. */
  lemma BranchParts(words: Word)
    ensures Or(words, 0xEA00_0000) % 0x100_0000 == words % 0x100_0000
    ensures Or(words, 0xEA00_0000) / 0x100_0000 >= words / 0x100_0000
    ensures words < 0x100_0000 ==> Or(words, 0xEA00_0000) / 0x100_0000 == 0xEA
  {
    Pow2Values();
    var op := 0xEA00_0000;
    ShrLowIsDivMod(words, 24);
    ShrLowIsDivMod(op, 24);
    ShrLowIsDivMod(Or(words, op), 24);
    OrShr(words, op, 24);
    OrLow(words, op, 24);
    assert Shr(op, 24) == 0xEA && Low(op, 24) == 0;
    OrComm(Low(words, 24), 0);
    OrAtLeast(Shr(words, 24), 0xEA);
  }

  /**
   The instruction built branches to the first word after the head exactly for sizes from 5 bytes up
   to 2^25 + 4.  Without the mask the comment promises, a head of at most one word makes the
   count negative, which overwrites the condition and the opcode.
   */
  lemma BranchReachesEndOfHead(headSize: Word)
    ensures BranchesTo(BranchWord(headSize), WordAligned(headSize)) <==> 4 < headSize <= 0x200_0004
  {
    BranchParts(BranchWords(headSize));
    BranchCases(headSize, BranchWord(headSize));
  }

  /** The instruction for every size: the word count with the branch opcode or-ed in. */
  lemma BranchByBits(headSize: Word, k: nat)
    ensures Bit(BranchWord(headSize), k) <==> Bit(BranchWords(headSize), k) || Bit(0xEA00_0000, k)
  {
    var opcode := 0xEA00_0000;
    BitOr(BranchWords(headSize), opcode, k);
  }

  /** The word count for every size: two less than the words of the head, and -2 where those wrap to none. */
  lemma BranchCount(headSize: Word)
    ensures headSize == 0 || headSize + 3 >= WORD_SIZE ==> BranchWords(headSize) == 0xffff_fffe
    ensures 0 < headSize < WORD_SIZE - 3 ==> BranchWords(headSize) == Wrap(WordAligned(headSize) / 4 - 2)
  {
  }

  /** A head of at most one word, 4 bytes say: the count is -1 and the instruction is all ones. */
  lemma SmallHeadIsNoBranch(headSize: Word)
    requires 0 < headSize <= 4
    ensures BranchWord(headSize) == 0xffff_ffff && !BranchesTo(BranchWord(headSize), WordAligned(headSize))
  {
    OneWordCount(headSize);
    AllOnes(BranchWords(headSize));
    BranchReachesEndOfHead(headSize);
  }

  lemma OneWordCount(headSize: Word)
    requires 0 < headSize <= 4
    ensures BranchWords(headSize) == 0xffff_ffff
  {
  }

  lemma AllOnes(words: Word)
    requires words == 0xffff_ffff
    ensures Or(words, 0xEA00_0000) == words
  {
    OrAtLeast(words, 0xEA00_0000);
    BranchIsWord(words);
  }

  /** The cases of the word count: in range, too large, negative, and wrapped. */
  lemma BranchCases(headSize: Word, instr: Word)
    requires var words := BranchWords(headSize);
             && instr % 0x100_0000 == words % 0x100_0000
             && instr / 0x100_0000 >= words / 0x100_0000
             && (words < 0x100_0000 ==> instr / 0x100_0000 == 0xEA)
    ensures BranchesTo(instr, WordAligned(headSize)) <==> 4 < headSize <= 0x200_0004
  {
    var words := BranchWords(headSize);
    WordCount(headSize, words);
    OpcodeByte(instr);
    if words >= 0x100_0000 {
      TooFar(words, headSize, instr);
    }
  }

  lemma WordCount(headSize: Word, words: Word)
    requires words == BranchWords(headSize)
    ensures headSize <= 4 || headSize + 3 >= WORD_SIZE ==> words >= 0xFFFF_FFFE
    ensures 4 < headSize < WORD_SIZE - 3 ==> words < 0x4000_0000 && 4 * words + 8 == WordAligned(headSize)
  {
  }

  /** Condition and opcode are the top byte of the instruction. */
  lemma OpcodeByte(instr: Word)
    ensures ReadBranch(instr).cond == 0xE && ReadBranch(instr).op == 0xA <==> instr / 0x100_0000 == 0xEA
  {
    var top := instr / 0x100_0000;
    assert instr / 0x1000_0000 == top / 0x10;
  }

  lemma TooFar(words: Word, headSize: Word, instr: Word)
    requires words == BranchWords(headSize) && words >= 0x100_0000
    requires instr % 0x100_0000 == words % 0x100_0000 && instr / 0x100_0000 >= words / 0x100_0000
    ensures !BranchesTo(instr, WordAligned(headSize))
    ensures !(4 < headSize <= 0x200_0004)
  {
    WordCount(headSize, words);
    OpcodeByte(instr);
    if words >= 0xFFFF_FFFE {
      assert instr / 0x100_0000 >= 0xFF;
    } else {
      assert ReadBranch(instr).offset < 0x200_0008;
    }
  }

  /** With the mask, small heads work as well. */
  lemma DocumentedBranchReachesEndOfHead(headSize: Word)
    ensures BranchesTo(DocumentedBranchWord(headSize), WordAligned(headSize)) <==> headSize <= 0x200_0004
    ensures DocumentedBranchWord(headSize) == 0xEA00_0000 + BranchWords(headSize) % 0x100_0000
  {
    MaskWords(BranchWords(headSize));
    MaskedBranchCases(headSize, DocumentedBranchWord(headSize));
  }

  lemma MaskWords(words: Word)
    ensures var instr := Or(And(words, 0x00FF_FFFF), 0xEA00_0000);
            instr % 0x100_0000 == words % 0x100_0000 && instr / 0x100_0000 == 0xEA
  {
    MaskIsLow(words);
    BranchParts(words % 0x100_0000);
  }

  lemma MaskIsLow(words: Word)
    ensures And(words, 0x00FF_FFFF) == words % 0x100_0000
  {
    Pow2Values();
    AndLowMask(words, 24);
    ShrLowIsDivMod(words, 24);
  }

  lemma MaskedBranchCases(headSize: Word, instr: Word)
    requires instr % 0x100_0000 == BranchWords(headSize) % 0x100_0000 && instr / 0x100_0000 == 0xEA
    ensures BranchesTo(instr, WordAligned(headSize)) <==> headSize <= 0x200_0004
  {
    WordCount(headSize, BranchWords(headSize));
    OpcodeByte(instr);
  }
}
