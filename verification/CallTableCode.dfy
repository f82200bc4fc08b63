/** Instruction words built from their fields, and the code through which the call table is found. */
module CallTableCode {
  import opened PhysMem
  import opened CallTable

  // ------------------------------------------------------------------- the encoding

  /** Opcode, two registers and a 16-bit immediate, signed or not. */
  function IType(op: nat, rs: Reg, rt: Reg, imm: int): Word
    requires op < 64 && -0x8000 <= imm < 0x1_0000
  {
    op * 0x400_0000 + rs * 0x20_0000 + rt * 0x1_0000 + (if imm < 0 then imm + 0x1_0000 else imm)
  }

  /** Opcode 0, three registers, a shift amount and a function. */
  function RType(rs: Reg, rt: Reg, rd: Reg, sa: nat, funct: nat): Word
    requires sa < 32 && funct < 64
  {
    rs * 0x20_0000 + rt * 0x1_0000 + rd * 0x800 + sa * 0x40 + funct
  }

  const SLL := 0
  const JR := 8
  const JALR := 9
  const ADDU := 33
  const SUBU := 35
  const ADDIU := 9
  const LUI := 15
  const LW := 35

  /** The immediate is the low half of the word as a signed number. */
  lemma ImmSigned(v: Word)
    ensures -0x8000 <= Imm(v) < 0x8000 && (v - Imm(v)) % 0x1_0000 == 0
  {}

  lemma IFields(op: nat, rs: Reg, rt: Reg, imm: int)
    requires op < 64 && -0x8000 <= imm < 0x1_0000
    ensures var v := IType(op, rs, rt, imm);
            && Op(v) == op && Rs(v) == rs && Rt(v) == rt
            && v % 0x1_0000 == (if imm < 0 then imm + 0x1_0000 else imm)
            && (imm < 0x8000 ==> Imm(v) == imm)
  {
    var v, low := IType(op, rs, rt, imm), if imm < 0 then imm + 0x1_0000 else imm;
    assert v / 0x1_0000 == op * 0x400 + rs * 0x20 + rt;
    assert v / 0x20_0000 == op * 0x20 + rs;
  }

  lemma RFields(rs: Reg, rt: Reg, rd: Reg, sa: nat, funct: nat)
    requires sa < 32 && funct < 64
    ensures var v := RType(rs, rt, rd, sa, funct);
            Op(v) == 0 && Rs(v) == rs && Rt(v) == rt && Rd(v) == rd && Sa(v) == sa && Funct(v) == funct
  {
    var v := RType(rs, rt, rd, sa, funct);
    assert v / 0x40 == rs * 0x8000 + rt * 0x400 + rd * 0x20 + sa;
    assert v / 0x800 == rs * 0x400 + rt * 0x20 + rd;
    assert v / 0x1_0000 == rs * 0x20 + rt;
    assert v / 0x20_0000 == rs;
  }

  /** Every followed instruction is decoded to its own fields. */
  lemma DecodeEncoded(rs: Reg, rt: Reg, rd: Reg, imm: int, high: nat, sa: nat)
    requires -0x8000 <= imm < 0x8000 && high < 0x1_0000 && sa < 32
    ensures Decode(IType(ADDIU, rs, rt, imm)) == Addiu(rt, rs, imm)
    ensures Decode(IType(LW, rs, rt, imm)) == Instr.Lw(rt, rs, imm)
    ensures Decode(IType(LUI, 0, rt, high)) == Instr.Lui(rt, high)
    ensures Decode(RType(rs, rt, rd, 0, ADDU)) == Addu(rd, rs, rt)
    ensures Decode(RType(rs, rt, rd, 0, SUBU)) == Subu(rd, rs, rt)
    ensures Decode(RType(0, rt, rd, sa, SLL)) == Sll(rd, rt, sa)
    ensures IndirectJump(RType(rs, 0, rd, 0, JALR)) && IndirectJump(RType(rs, 0, 0, 0, JR))
  {
    hide IType, RType, Op, Rs, Rt, Rd, Sa, Funct, Imm;
    IFields(ADDIU, rs, rt, imm);
    IFields(LW, rs, rt, imm);
    IFields(LUI, 0, rt, high);
    RFields(rs, rt, rd, 0, ADDU);
    RFields(rs, rt, rd, 0, SUBU);
    RFields(0, rt, rd, sa, SLL);
    RFields(rs, 0, rd, 0, JALR);
    RFields(rs, 0, 0, 0, JR);
  }

  // ------------------------------------------------------------------ the arithmetic

  /** Subtraction undoes addition, and addition is the sum wherever that fits a word. */
  lemma SubUndoesAdd(x: Word, y: Word)
    ensures Sub(Add(x, y), y) == x
    ensures x + y < TWO32 ==> Add(x, y) == x + y
  {}

  /** Each place more doubles the shifted word, in 32 bits. */
  lemma ShiftDoubles(x: Word, sa: nat)
    ensures Wrap(x * Pow2(0)) == x
    ensures var y := Wrap(x * Pow2(sa)); Wrap(x * Pow2(sa + 1)) == Add(y, y)
  {
    hide Wrap, Add;
    var z := x * Pow2(sa);
    assert x * Pow2(sa + 1) == z + z by {
      assert Pow2(sa + 1) == Pow2(sa) + Pow2(sa);
    }
    WrapDouble(z);
    WrapSmall(x);
  }

  lemma WrapSmall(x: Word)
    ensures Wrap(x) == x
  {}

  lemma WrapDouble(z: nat)
    ensures Wrap(z + z) == Add(Wrap(z), Wrap(z))
  {}

  // ---------------------------------------------------------------- one scan step each

  lemma ScanAddiu(s: Scan, rs: Reg, rt: Reg, imm: int)
    requires !s.stopped && -0x8000 <= imm < 0x8000
    ensures ScanStep(s, IType(ADDIU, rs, rt, imm)) == s.(regs := s.regs[rt := Add(s.regs[rs], imm)])
  {
    hide IType, Op, Rs, Rt, Imm, Add, Special;
    IFields(ADDIU, rs, rt, imm);
  }

  lemma ScanLui(s: Scan, rt: Reg, high: nat)
    requires !s.stopped && high < 0x1_0000
    ensures ScanStep(s, IType(LUI, 0, rt, high)) == s.(regs := s.regs[rt := high * 0x1_0000])
  {
    hide IType, Op, Rs, Rt, Imm, Add, Special;
    IFields(LUI, 0, rt, high);
    LuiExact(IType(LUI, 0, rt, high));
  }

  lemma ScanLw(s: Scan, rs: Reg, rt: Reg, imm: int)
    requires !s.stopped && -0x8000 <= imm < 0x8000
    ensures ScanStep(s, IType(LW, rs, rt, imm)) == s.(load := s.load[rt := Add(s.regs[rs], imm)])
  {
    hide IType, Op, Rs, Rt, Imm, Add, Special;
    IFields(LW, rs, rt, imm);
  }

  lemma ScanAddu(s: Scan, rs: Reg, rt: Reg, rd: Reg)
    requires !s.stopped
    ensures ScanStep(s, RType(rs, rt, rd, 0, ADDU)) == s.(regs := s.regs[rd := Add(s.regs[rs], s.regs[rt])])
  {
    hide RType, Op, Rs, Rt, Rd, Sa, Funct, Add, Wrap, Pow2;
    RFields(rs, rt, rd, 0, ADDU);
  }

  lemma ScanSll(s: Scan, rt: Reg, rd: Reg, sa: nat)
    requires !s.stopped && rd != 0 && sa < 32
    ensures ScanStep(s, RType(0, rt, rd, sa, SLL)) == s.(regs := s.regs[rd := Wrap(s.regs[rt] * Pow2(sa))])
  {
    hide RType, Op, Rs, Rt, Rd, Sa, Funct, Add, Wrap, Pow2;
    RFields(0, rt, rd, sa, SLL);
  }

  /** A jump through a register stops the scan when an address has been noted for it; `jalr` also when
      none has, and then leaves the table as it was. */
  lemma ScanJumps(s: Scan, rs: Reg, rd: Reg)
    requires !s.stopped
    ensures ScanStep(s, RType(rs, 0, 0, 0, JR)) ==
            if s.load[rs] != 0 then s.(jumpBase := s.load[rs], stopped := true) else s
    ensures ScanStep(s, RType(rs, 0, rd, 0, JALR)) ==
            s.(jumpBase := if s.load[rs] != 0 then s.load[rs] else s.jumpBase, stopped := true)
  {
    hide RType, Op, Rs, Rt, Rd, Sa, Funct, Add, Wrap, Pow2;
    RFields(rs, 0, 0, 0, JR);
    RFields(rs, 0, rd, 0, JALR);
  }

  // --------------------------------------------------------------- building an address

  /** The halves an assembler puts in a lui and the addiu or lw after it. */
  function Low(a: Word): int {
    if a % 0x1_0000 < 0x8000 then a % 0x1_0000 else a % 0x1_0000 - 0x1_0000
  }

  function High(a: Word): nat {
    (a + 0x8000) / 0x1_0000 % 0x1_0000
  }

  lemma HalvesAddUp(a: Word)
    ensures High(a) < 0x1_0000 && -0x8000 <= Low(a) < 0x8000
    ensures Add(High(a) * 0x1_0000, Low(a)) == a
  {}

  /** For every 32-bit address a lui and an addiu leave exactly it in the register, in the scan as in the
      processor, and nothing else changes. */
  lemma PairLeavesAddress(s: Scan, r: File, a: Word, d: Reg, env: Env, env': Env)
    requires !s.stopped && d != 0
    ensures ScanStep(ScanStep(s, IType(LUI, 0, d, High(a))), IType(ADDIU, d, d, Low(a))) == s.(regs := s.regs[d := a])
    ensures CpuStep(CpuStep(r, IType(LUI, 0, d, High(a)), env), IType(ADDIU, d, d, Low(a)), env') == r[d := a]
  {
    hide ScanStep, IType, Add, High, Low, Decode;
    HalvesAddUp(a);
    ScanLui(s, d, High(a));
    var s1 := s.(regs := s.regs[d := High(a) * 0x1_0000]);
    ScanAddiu(s1, d, d, Low(a));
    assert s.regs[d := High(a) * 0x1_0000][d := a] == s.regs[d := a];
    DecodeEncoded(d, d, d, Low(a), High(a), 0);
    assert r[d := High(a) * 0x1_0000][d := a] == r[d := a];
  }

  // --------------------------------------------------------------------- the dispatch

  function ScanFrom(s: Scan, words: seq<Word>): Scan
    decreases |words|
  {
    if words == [] then s else ScanFrom(ScanStep(s, words[0]), words[1..])
  }

  lemma {:induction false} ScanOn(before: seq<Word>, words: seq<Word>)
    ensures ScanCode(before + words) == ScanFrom(ScanCode(before), words)
    decreases |words|
  {
    hide ScanStep;
    if words == [] {
      assert before + words == before;
    } else {
      var next := before + [words[0]];
      assert next[..|next| - 1] == before;
      assert before + words == next + words[1..];
      ScanOn(next, words[1..]);
    }
  }

  /** The dispatch of a call: the table's address, the call's index times four added to it, the entry
      loaded, and the jump. */
  function Dispatch(table: Word, off: int, b: Reg, i: Reg, t: Reg, jump: Word): seq<Word>
    requires -0x8000 <= off < 0x8000
  {
    [IType(LUI, 0, b, High(table)), RType(0, i, i, 2, SLL), IType(ADDIU, b, b, Low(table)),
     RType(i, b, i, 0, ADDU), IType(LW, i, t, off), jump]
  }

  /** With the index register still zero, the scan stops there with the address of the table. */
  lemma DispatchFound(s: Scan, table: Word, off: int, b: Reg, i: Reg, t: Reg, jump: Word)
    requires !s.stopped && s.regs[i] == 0 && b != 0 && i != 0 && b != i && -0x8000 <= off < 0x8000
    requires jump in [RType(t, 0, 0, 0, JR), RType(t, 0, 31, 0, JALR)] && Add(table, off) != 0
    ensures var u := ScanFrom(s, Dispatch(table, off, b, i, t, jump)); u.stopped && u.jumpBase == Add(table, off)
  {
    hide ScanStep, ScanFrom, IType, RType, High, Low, Wrap, Add, Pow2;
    HalvesAddUp(table);
    var w := Dispatch(table, off, b, i, t, jump);
    ScanLui(s, b, High(table));
    var s1 := ScanStep(s, w[0]);
    ScanSll(s1, i, i, 2);
    ZeroShifted(Pow2(2));
    var s2 := ScanStep(s1, w[1]);
    ScanAddiu(s2, b, b, Low(table));
    var s3 := ScanStep(s2, w[2]);
    ScanAddu(s3, i, b, i);
    ZeroAdded(table);
    var s4 := ScanStep(s3, w[3]);
    ScanLw(s4, i, t, off);
    var s5 := ScanStep(s4, w[4]);
    ScanJumps(s5, t, 31);
    SixSteps(s, w);
  }

  lemma ZeroShifted(p: nat)
    ensures Wrap(0 * p) == 0
  {}

  lemma ZeroAdded(x: Word)
    ensures Add(0, x) == x
  {}

  lemma SixSteps(s: Scan, w: seq<Word>)
    requires |w| == 6
    ensures ScanFrom(s, w) ==
            ScanStep(ScanStep(ScanStep(ScanStep(ScanStep(ScanStep(s, w[0]), w[1]), w[2]), w[3]), w[4]), w[5])
  {
    hide ScanStep;
    var s1 := ScanStep(s, w[0]);
    var s2 := ScanStep(s1, w[1]);
    var s3 := ScanStep(s2, w[2]);
    var s4 := ScanStep(s3, w[3]);
    var s5 := ScanStep(s4, w[4]);
    assert ScanFrom(s, w) == ScanFrom(s1, w[1..]);
    assert ScanFrom(s1, w[1..]) == ScanFrom(s2, w[2..]) by { assert w[1..][1..] == w[2..]; }
    assert ScanFrom(s2, w[2..]) == ScanFrom(s3, w[3..]) by { assert w[2..][1..] == w[3..]; }
    assert ScanFrom(s3, w[3..]) == ScanFrom(s4, w[4..]) by { assert w[3..][1..] == w[4..]; }
    assert ScanFrom(s4, w[4..]) == ScanFrom(s5, w[5..]) by { assert w[4..][1..] == w[5..]; }
    assert w[5..][1..] == [];
    assert ScanFrom(s5, w[5..]) == ScanFrom(ScanStep(s5, w[5]), []);
  }

  /** Addresses move with the image: what the SBIOS has at its start plus `d` is at the copy plus `d`. */
  lemma RebaseMoves(d: nat, addr: Word)
    requires 0x8000_1000 + d < TWO32
    ensures Rebase(0x8000_1000 + d, addr) == Add(addr, d)
  {}

  lemma MagicIsText(m: seq<Byte>, p: nat)
    requires Whole(m) && p + 4 <= SIZE && m[p..p + 4] == [0x50, 0x53, 0x32, 0x62]
    ensures Le(m, p, 4) == MAGIC
  {
    var b := m[p..p + 4];
    assert b[0] == m[p] && b[1] == m[p + 1] && b[2] == m[p + 2] && b[3] == m[p + 3];
    assert Le(m, p + 4, 0) == 0;
    assert Le(m, p + 3, 1) == 0x62;
    assert Le(m, p + 2, 2) == 0x6232;
    assert Le(m, p + 1, 3) == 0x62_3253;
  }

  /** The words of the loaded copy from `d` bytes on. */
  ghost predicate CodeAt(m: seq<Byte>, addr: Word, d: nat, words: seq<Word>)
    requires Whole(m)
  {
    forall k :: 0 <= k < |words| ==> words[k] == Le(m, addr + d + 4 * k, 4)
  }

  lemma CodeIs(m: seq<Byte>, addr: Word, d: nat, words: seq<Word>)
    requires Whole(m) && 0x8000_1000 + d < TWO32 && addr + d < TWO32 && |words| <= 128
    requires Le(m, addr, 4) == 0x8000_1000 + d && CodeAt(m, addr, d, words)
    ensures words == Code(m, addr, 128)[..|words|]
  {
    hide Le, Rebase;
    RebaseMoves(d, addr);
    SubUndoesAdd(addr, d);
    var code := Code(m, addr, 128);
    forall k | 0 <= k < |words| ensures words[k] == code[k] {}
  }

  /** Whatever code the entry point begins with, a dispatch within its first 128 words, reached with its
      index register still zero, gives the table at its place in the copy. */
  lemma TableFound(m: seq<Byte>, addr: Word, d: nat, before: seq<Word>, table: nat, off: int, b: Reg, i: Reg, t: Reg, jump: Word)
    requires Whole(m) && Le(m, addr + 4, 4) == MAGIC
    requires 0x8000_1000 + d < TWO32 && addr + d < TWO32 && Le(m, addr, 4) == 0x8000_1000 + d
    requires -0x8000 <= off < 0x8000 && 0x8000_1000 <= table < TWO32 && 0x8000_1000 <= table + off < TWO32
    requires b != 0 && i != 0 && b != i && jump in [RType(t, 0, 0, 0, JR), RType(t, 0, 31, 0, JALR)]
    requires |before| + 6 <= 128 && CodeAt(m, addr, d, before + Dispatch(table, off, b, i, t, jump))
    requires !ScanCode(before).stopped && ScanCode(before).regs[i] == 0
    ensures CallTable.CallTable(m, addr) == Add(addr, table + off - 0x8000_1000)
  {
    hide ScanStep, ScanFrom, ScanCode, Dispatch, RType, Le;
    var code, words := Code(m, addr, 128), before + Dispatch(table, off, b, i, t, jump);
    assert Add(table, off) == table + off;
    DispatchLength(table, off, b, i, t, jump);
    CodeIs(m, addr, d, words);
    DispatchFound(ScanCode(before), table, off, b, i, t, jump);
    ScanOn(before, Dispatch(table, off, b, i, t, jump));
    StoppedPrefix(code, |words|);
    RebaseMoves(table + off - 0x8000_1000, addr);
  }

  lemma DispatchLength(table: Word, off: int, b: Reg, i: Reg, t: Reg, jump: Word)
    requires -0x8000 <= off < 0x8000
    ensures |Dispatch(table, off, b, i, t, jump)| == 6
  {}

  /** The halves in the dispatch that current compilers emit: 0x8001 and -31800 for 0x800083C8. */
  lemma CompiledHalves()
    ensures High(0x8000_83C8) == 0x8001 && Low(0x8000_83C8) == -31800
  {}
}
