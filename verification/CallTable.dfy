/**
 * Recovering the SBIOS call table from compiled code: the loader runs a few MIPS instructions in its
 * head, register by register, until it meets an indirect jump through a register it saw being loaded.
 */
module CallTable {
  import opened PhysMem

  const SBIOS_START := 0x8000_1000
  const CHECKED := 128
  const MAGIC := 0x6232_5350   // "PS2b"

  type Word = w: int | 0 <= w < TWO32
  type Reg = r: int | 0 <= r < 32
  type File = f: seq<Word> | |f| == 32 witness seq(32, _ => 0)

  function Wrap(x: int): Word {
    x % TWO32
  }

  function Add(x: int, y: int): Word {
    Wrap(x + y)
  }

  function Sub(x: int, y: int): Word {
    Wrap(x - y)
  }

  function Zeros(): File {
    seq(32, _ => 0)
  }

  // -------------------------------------------------------------------- the encoding

  function Op(v: Word): nat { v / 0x400_0000 }
  function Rs(v: Word): Reg { v / 0x20_0000 % 32 }
  function Rt(v: Word): Reg { v / 0x1_0000 % 32 }
  function Rd(v: Word): Reg { v / 0x800 % 32 }
  function Sa(v: Word): nat { v / 0x40 % 32 }
  function Funct(v: Word): nat { v % 64 }

  /** The immediate, sign-extended. */
  function Imm(v: Word): int {
    if v % 0x1_0000 < 0x8000 then v % 0x1_0000 else v % 0x1_0000 - 0x1_0000
  }

  function Pow2(n: nat): nat {
    if n == 0 then 1 else 2 * Pow2(n - 1)
  }

  // ------------------------------------------------------------- the loader's own scan

  datatype Scan = Scan(regs: File, load: File, jumpBase: Word, stopped: bool)

  function Start(): Scan {
    Scan(Zeros(), Zeros(), 0, false)
  }

  function Special(s: Scan, v: Word): Scan {
    if Funct(v) == 35 then s.(regs := s.regs[Rd(v) := Sub(s.regs[Rs(v)], s.regs[Rt(v)])])
    else if Funct(v) == 33 then s.(regs := s.regs[Rd(v) := Add(s.regs[Rs(v)], s.regs[Rt(v)])])
    else if Funct(v) == 0 then
      if Rd(v) != 0 then s.(regs := s.regs[Rd(v) := Wrap(s.regs[Rt(v)] * Pow2(Sa(v)))]) else s
    else if Funct(v) == 8 then
      if s.load[Rs(v)] != 0 then s.(jumpBase := s.load[Rs(v)], stopped := true) else s
    else if Funct(v) == 9 && Rt(v) == 0 then
      s.(jumpBase := if s.load[Rs(v)] != 0 then s.load[Rs(v)] else s.jumpBase, stopped := true)
    else s
  }

  function ScanStep(s: Scan, v: Word): Scan {
    if s.stopped then s
    else if Op(v) == 9 then s.(regs := s.regs[Rt(v) := Add(s.regs[Rs(v)], Imm(v))])
    else if Op(v) == 15 then
      if Rs(v) == 0 then s.(regs := s.regs[Rt(v) := Wrap(Imm(v) * 0x1_0000)]) else s
    else if Op(v) == 0 then Special(s, v)
    else if Op(v) == 35 then s.(load := s.load[Rt(v) := Add(s.regs[Rs(v)], Imm(v))])
    else s
  }

  function ScanCode(code: seq<Word>): Scan {
    if code == [] then Start() else ScanStep(ScanCode(code[..|code| - 1]), code[|code| - 1])
  }

  function Rebase(x: Word, addr: Word): Word {
    Wrap(x - SBIOS_START + addr)
  }

  // ---------------------------------------------------------------- the real processor

  /** What an instruction may do that the loader does not follow: the registers it writes, and the word
      a load brings in. */
  datatype Env = Env(writes: map<Reg, Word>, loaded: Word)

  /** Register 0 reads as zero whatever is written to it. */
  function Write(r: File, d: Reg, w: Word): File {
    if d == 0 then r else r[d := w]
  }

  datatype Instr =
    | Addiu(rt: Reg, rs: Reg, imm: int) | Lui(rt: Reg, high: nat) | Addu(rd: Reg, rs: Reg, rt: Reg)
    | Subu(rd: Reg, rs: Reg, rt: Reg) | Sll(rd: Reg, rt: Reg, sa: nat) | Lw(rt: Reg, rs: Reg, imm: int)
    | Other

  /** The instruction set's own decoding: reserved fields must be zero. */
  function Decode(v: Word): Instr {
    if Op(v) == 9 then Addiu(Rt(v), Rs(v), Imm(v))
    else if Op(v) == 15 && Rs(v) == 0 then Lui(Rt(v), v % 0x1_0000)
    else if Op(v) == 0 && Funct(v) == 33 && Sa(v) == 0 then Addu(Rd(v), Rs(v), Rt(v))
    else if Op(v) == 0 && Funct(v) == 35 && Sa(v) == 0 then Subu(Rd(v), Rs(v), Rt(v))
    else if Op(v) == 0 && Funct(v) == 0 && Rs(v) == 0 then Sll(Rd(v), Rt(v), Sa(v))
    else if Op(v) == 35 then Lw(Rt(v), Rs(v), Imm(v))
    else Other
  }

  function CpuStep(r: File, v: Word, env: Env): File {
    match Decode(v)
    case Addiu(rt, rs, imm) => Write(r, rt, Add(r[rs], imm))
    case Lui(rt, high) => Write(r, rt, high * 0x1_0000)
    case Addu(rd, rs, rt) => Write(r, rd, Add(r[rs], r[rt]))
    case Subu(rd, rs, rt) => Write(r, rd, Sub(r[rs], r[rt]))
    case Sll(rd, rt, sa) => Write(r, rd, Wrap(r[rt] * Pow2(sa)))
    case Lw(rt, _, _) => Write(r, rt, env.loaded)
    case Other => seq(32, d requires 0 <= d < 32 => if d in env.writes && d != 0 then env.writes[d] else r[d])
  }

  /** The registers an instruction really writes. */
  function Written(v: Word, env: Env): set<Reg> {
    match Decode(v)
    case Addiu(rt, _, _) => {rt}
    case Lui(rt, _) => {rt}
    case Addu(rd, _, _) => {rd}
    case Subu(rd, _, _) => {rd}
    case Sll(rd, _, _) => {rd}
    case Lw(rt, _, _) => {rt}
    case Other => env.writes.Keys
  }

  /** The followed instructions compute a tracked register from tracked registers. */
  predicate Tracks(stale: set<Reg>, v: Word) {
    match Decode(v)
    case Addiu(rt, rs, _) => rt != 0 && rs !in stale
    case Lui(rt, _) => rt != 0
    case Addu(rd, rs, rt) => rd != 0 && rs !in stale && rt !in stale
    case Subu(rd, rs, rt) => rd != 0 && rs !in stale && rt !in stale
    case Sll(rd, rt, _) => rd == 0 || rt !in stale
    case _ => false
  }

  /** The register the loader's scan writes for this instruction, whether or not the processor does. */
  function Assigned(v: Word): set<Reg> {
    if Op(v) == 9 then {Rt(v)}
    else if Op(v) == 15 && Rs(v) == 0 then {Rt(v)}
    else if Op(v) == 0 && (Funct(v) == 33 || Funct(v) == 35) then {Rd(v)}
    else if Op(v) == 0 && Funct(v) == 0 && Rd(v) != 0 then {Rd(v)}
    else {}
  }

  /**
   * The real machine next to what is known of it. Registers not `stale` were last written, if at all, by a
   * followed instruction from registers not stale then; `loads` gives, for each register last written by a
   * load whose base was not stale, the address that load really read.
   */
  datatype Machine = Machine(r: File, stale: set<Reg>, loads: map<Reg, Word>)

  function MachineStep(c: Machine, v: Word, env: Env): Machine {
    var i := Decode(v);
    Machine(
      CpuStep(c.r, v, env),
      if Tracks(c.stale, v) then c.stale - Assigned(v)
      else if i.Lw? && i.rt == 0 then c.stale
      else c.stale + Written(v, env) + Assigned(v),
      if i.Lw? && i.rt != 0 && i.rs !in c.stale then c.loads[i.rt := Add(c.r[i.rs], i.imm)]
      else c.loads - Written(v, env))
  }

  function RunCode(code: seq<Word>, envs: seq<Env>): Machine
    requires |envs| == |code|
  {
    if code == [] then Machine(Zeros(), {}, map[])
    else
      var n := |code| - 1;
      MachineStep(RunCode(code[..n], envs[..n]), code[n], envs[n])
  }

  ghost predicate Agrees(s: Scan, c: Machine) {
    && c.r[0] == 0
    && (forall d: Reg :: d !in c.stale ==> s.regs[d] == c.r[d])
    && (forall d: Reg :: d in c.loads ==> s.load[d] == c.loads[d])
  }

  /** Sign-extending a lui immediate first makes no difference in 32 bits. */
  lemma LuiExact(v: Word)
    ensures Wrap(Imm(v) * 0x1_0000) == v % 0x1_0000 * 0x1_0000
  {}

  lemma StepAgrees(s: Scan, c: Machine, v: Word, env: Env)
    requires Agrees(s, c) && !s.stopped
    ensures Agrees(ScanStep(s, v), MachineStep(c, v, env))
  {
    hide Op, Rs, Rt, Rd, Sa, Funct, Imm, Add, Sub, Wrap, Pow2;
    LuiExact(v);
  }

  /** Over any straight-line code: the scan's registers hold the real machine's values wherever they are
      not stale, and its load addresses are the ones the processor used. */
  lemma {:induction false} ScanSound(code: seq<Word>, envs: seq<Env>)
    requires |envs| == |code| && !ScanCode(code).stopped
    ensures Agrees(ScanCode(code), RunCode(code, envs))
  {
    hide ScanStep, MachineStep;
    if code != [] {
      var n := |code| - 1;
      var before := ScanCode(code[..n]);
      if before.stopped {
        StoppedStays(before, code[n]);
      }
      ScanSound(code[..n], envs[..n]);
      StepAgrees(before, RunCode(code[..n], envs[..n]), code[n], envs[n]);
    }
  }

  lemma StoppedStays(s: Scan, v: Word)
    requires s.stopped
    ensures ScanStep(s, v) == s
  {}

  lemma {:induction false} StoppedPrefix(code: seq<Word>, n: nat)
    requires n <= |code| && ScanCode(code[..n]).stopped
    ensures ScanCode(code) == ScanCode(code[..n])
    decreases |code|
  {
    hide ScanStep;
    if n < |code| {
      assert code[..|code| - 1][..n] == code[..n];
      StoppedPrefix(code[..|code| - 1], n);
      StoppedStays(ScanCode(code[..|code| - 1]), code[|code| - 1]);
    } else {
      assert code[..n] == code;
    }
  }

  /** `jr rs` or `jalr rs`, as the scan recognises them. */
  predicate IndirectJump(v: Word) {
    Op(v) == 0 && (Funct(v) == 8 || (Funct(v) == 9 && Rt(v) == 0))
  }

  /** The words the loader looks at: from the entry point that the image names, in its loaded copy. */
  function Code(m: seq<Byte>, addr: Word, n: nat): (c: seq<Word>)
    requires Whole(m)
    ensures |c| == n && forall i :: 0 <= i < n ==> c[i] == Le(m, Rebase(Le(m, addr, 4), addr) + 4 * i, 4)
  {
    seq(n, i requires 0 <= i => Le(m, Rebase(Le(m, addr, 4), addr) + 4 * i, 4))
  }

  /** getSBIOSCallTable; 0 is NULL. */
  function CallTable(m: seq<Byte>, addr: Word): Word
    requires Whole(m)
  {
    if Le(m, addr + 4, 4) != MAGIC then 0
    else
      var base := ScanCode(Code(m, addr, CHECKED)).jumpBase;
      if base != 0 then Rebase(base, addr) else 0
  }

  /** When the scan first stops at an indirect jump through a register that the real machine last loaded
      from a tracked base, the call table found is the address that load read, moved into the copy. */
  lemma TableIsTheLoadedAddress(m: seq<Byte>, addr: Word, n: nat, envs: seq<Env>)
    requires Whole(m) && Le(m, addr + 4, 4) == MAGIC && n < CHECKED && |envs| == n
    requires var code := Code(m, addr, CHECKED);
             !ScanCode(code[..n]).stopped && IndirectJump(code[n])
    requires var code := Code(m, addr, CHECKED);
             var rs := Rs(code[n]);
             rs in RunCode(code[..n], envs).loads && RunCode(code[..n], envs).loads[rs] != 0
    ensures var code := Code(m, addr, CHECKED);
            CallTable(m, addr) == Rebase(RunCode(code[..n], envs).loads[Rs(code[n])], addr)
  {
    hide RunCode, Op, Rs, Rt, Funct, Rd;
    var code := Code(m, addr, CHECKED);
    ScanSound(code[..n], envs);
    assert code[..n + 1][..n] == code[..n];
    assert ScanCode(code[..n + 1]) == ScanStep(ScanCode(code[..n]), code[n]);
    StoppedPrefix(code, n + 1);
  }

  // ---------------------------------------------------------------- the loop itself

  method GetSbiosCallTable(mem: array<Byte>, addr: Word) returns (table: Word)
    requires mem.Length == SIZE
    ensures table == CallTable(mem[..], addr)
  {
    hide ScanStep, Le;
    ghost var m := mem[..];
    if Le(mem[..], addr + 4, 4) != MAGIC {
      return 0;
    }
    var entrypoint := Rebase(Le(mem[..], addr, 4), addr);
    var regs, load := new Word[32](_ => 0), new Word[32](_ => 0);
    var jumpBase: Word := 0;
    ghost var code := Code(m, addr, CHECKED);
    for i := 0 to CHECKED
      invariant mem[..] == m
      invariant ScanCode(code[..i]) == Scan(regs[..], load[..], jumpBase, false)
    {
      var v := Le(mem[..], entrypoint + 4 * i, 4);
      assert code[..i + 1][..i] == code[..i];
      assert v == code[i];
      var stop;
      jumpBase, stop := Examine(regs, load, jumpBase, v);
      if stop {
        StoppedPrefix(code, i + 1);
        return if jumpBase != 0 then Rebase(jumpBase, addr) else 0;
      }
    }
    assert code[..CHECKED] == code;
    return if jumpBase != 0 then Rebase(jumpBase, addr) else 0;
  }

  /** One instruction of the loop. */
  method Examine(regs: array<Word>, load: array<Word>, jumpBase: Word, v: Word) returns (base: Word, stop: bool)
    requires regs.Length == 32 && load.Length == 32 && regs != load
    modifies regs, load
    ensures Scan(regs[..], load[..], base, stop) == ScanStep(Scan(old(regs[..]), old(load[..]), jumpBase, false), v)
  {
    hide Imm, Pow2, Add, Sub, Wrap, Rs, Rt, Rd, Sa, Funct;
    base, stop := jumpBase, false;
    if Op(v) == 9 {
      regs[Rt(v)] := Add(regs[Rs(v)], Imm(v));
    }
    if Op(v) == 15 {
      if Rs(v) == 0 {
        regs[Rt(v)] := Wrap(Imm(v) * 0x1_0000);
      }
    }
    if Op(v) == 0 {
      if Funct(v) == 35 {
        regs[Rd(v)] := Sub(regs[Rs(v)], regs[Rt(v)]);
      }
      if Funct(v) == 33 {
        regs[Rd(v)] := Add(regs[Rs(v)], regs[Rt(v)]);
      }
      if Funct(v) == 0 && Rd(v) != 0 {
        regs[Rd(v)] := Wrap(regs[Rt(v)] * Pow2(Sa(v)));
      }
      if Funct(v) == 8 && load[Rs(v)] != 0 {
        return load[Rs(v)], true;
      }
      if Funct(v) == 9 && Rt(v) == 0 {
        if load[Rs(v)] != 0 {
          base := load[Rs(v)];
        }
        return base, true;
      }
    }
    if Op(v) == 35 {
      load[Rt(v)] := Add(regs[Rs(v)], Imm(v));
    }
  }
}
