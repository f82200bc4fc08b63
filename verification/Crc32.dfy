/**
 * The loader's CRC: a register that shifts left, MSB first, fed with the data bits LSB first.
 *
 * A machine word is modelled by its bits, most significant first, so that `reg << 1` drops the first
 * bit, `reg >> 24` is the first eight bits and `^` acts bit by bit.
 */
module Crc32 {

  type Bits = seq<bool>

  type Word = w: Bits | |w| == 32 witness Zeros(32)

  newtype Byte = b: int | 0 <= b < 256

  function Zeros(n: nat): (z: Bits)
    ensures |z| == n && forall i :: 0 <= i < n ==> !z[i]
  {
    seq(n, _ => false)
  }

  function Xor(x: Bits, y: Bits): (z: Bits)
    requires |x| == |y|
    ensures |z| == |x| && forall i :: 0 <= i < |x| ==> z[i] == (x[i] != y[i])
  {
    seq(|x|, i requires 0 <= i < |x| => x[i] != y[i])
  }

  /** 0x04C11DB7, the generator of section 3.2.9 of IEEE 802.3. */
  const MASK: Word := [
    false, false, false, false, false, true, false, false,
    true, true, false, false, false, false, false, true,
    false, false, false, true, true, true, false, true,
    true, false, true, true, false, true, true, true]

  /** One shift of the register with no data bit, as the table builder does it. */
  function Shift(reg: Word): Word {
    if reg[0] then Xor(reg[1..] + [false], MASK) else reg[1..] + [false]
  }

  /** One data bit, compared with the register's top bit as the bit-at-a-time loop does. */
  function FeedBit(reg: Word, bit: bool): Word {
    if reg[0] != bit then Xor(reg[1..] + [false], MASK) else reg[1..] + [false]
  }

  function FeedBits(reg: Word, bits: Bits): Word
    decreases |bits|
  {
    if bits == [] then reg else FeedBits(FeedBit(reg, bits[0]), bits[1..])
  }

  /** Bit `n` of a byte, that is `(b >> n) & 1`. */
  predicate BitOf(b: nat, n: nat) {
    if n == 0 then b % 2 == 1 else BitOf(b / 2, n - 1)
  }

  /** A byte in feeding order, least significant bit first. */
  function Feed(b: Byte): (bits: Bits)
    ensures |bits| == 8 && forall n :: 0 <= n < 8 ==> bits[n] == BitOf(b as int, n)
  {
    seq(8, n requires 0 <= n => BitOf(b as int, n))
  }

  function Stream(data: seq<Byte>): (bits: Bits)
    ensures |bits| == 8 * |data|
  {
    if data == [] then [] else Feed(data[0]) + Stream(data[1..])
  }

  /** The bit-at-a-time CRC of the tool that stores the checksum in the ELF. */
  function SerialCrc(data: seq<Byte>): Word {
    FeedBits(Zeros(32), Stream(data))
  }

  // ----------------------------------------------------------------- one shift

  lemma ShiftLinear(x: Word, y: Word)
    ensures Shift(Xor(x, y)) == Xor(Shift(x), Shift(y))
  {}

  /** The shift loses nothing, because the generator has a constant term. */
  lemma ShiftKernel(x: Word)
    ensures Shift(x) == Zeros(32) <==> x == Zeros(32)
  {
    if Shift(x) == Zeros(32) {
      assert !Shift(x)[31];
      assert forall i :: 0 < i < 32 ==> x[i] == Shift(x)[i - 1];
    }
  }

  function Shifts(reg: Word, n: nat): Word
    decreases n
  {
    if n == 0 then reg else Shifts(Shift(reg), n - 1)
  }

  lemma {:induction false} ShiftsKernel(x: Word, n: nat)
    ensures Shifts(x, n) == Zeros(32) <==> x == Zeros(32)
    decreases n
  {
    if n > 0 {
      ShiftKernel(x);
      ShiftsKernel(Shift(x), n - 1);
    }
  }

  lemma {:induction false} ShiftsLinear(x: Word, y: Word, n: nat)
    ensures Shifts(Xor(x, y), n) == Xor(Shifts(x, n), Shifts(y, n))
    decreases n
  {
    if n > 0 {
      ShiftLinear(x, y);
      ShiftsLinear(Shift(x), Shift(y), n - 1);
    }
  }

  // ---------------------------------------- a run of bits added to the register

  /** A run of at most 32 bits laid out from the top of a register. */
  function Pad(bits: Bits): Word
    requires |bits| <= 32
  {
    bits + Zeros(32 - |bits|)
  }

  lemma FeedBitIsShift(reg: Word, bits: Bits)
    requires 0 < |bits| <= 32
    ensures Shift(Xor(reg, Pad(bits))) == Xor(FeedBit(reg, bits[0]), Pad(bits[1..]))
  {}

  /** Feeding a run of at most 32 bits is shifting the register with that run added to it. */
  lemma {:induction false} FeedIsShifts(reg: Word, bits: Bits)
    requires |bits| <= 32
    ensures FeedBits(reg, bits) == Shifts(Xor(reg, Pad(bits)), |bits|)
    decreases |bits|
  {
    if bits == [] {
      assert Xor(reg, Pad(bits)) == reg;
    } else {
      FeedBitIsShift(reg, bits);
      FeedIsShifts(FeedBit(reg, bits[0]), bits[1..]);
    }
  }

  // ------------------------------------------------------------ error detection

  lemma FeedBitLinear(x: Word, y: Word, p: bool, q: bool)
    ensures FeedBit(Xor(x, y), p != q) == Xor(FeedBit(x, p), FeedBit(y, q))
  {}

  lemma {:induction false} FeedLinear(x: Word, y: Word, a: Bits, b: Bits)
    requires |a| == |b|
    ensures FeedBits(Xor(x, y), Xor(a, b)) == Xor(FeedBits(x, a), FeedBits(y, b))
    decreases |a|
  {
    if a != [] {
      FeedBitLinear(x, y, a[0], b[0]);
      FeedLinear(FeedBit(x, a[0]), FeedBit(y, b[0]), a[1..], b[1..]);
      assert Xor(a, b)[1..] == Xor(a[1..], b[1..]);
    }
  }

  lemma {:induction false} FeedAppend(reg: Word, a: Bits, b: Bits)
    ensures FeedBits(reg, a + b) == FeedBits(FeedBits(reg, a), b)
    decreases |a|
  {
    if a == [] {
      assert a + b == b;
    } else {
      assert (a + b)[1..] == a[1..] + b;
      FeedAppend(FeedBit(reg, a[0]), a[1..], b);
    }
  }

  /** Zero bits neither create nor hide a difference. */
  lemma {:induction false} FeedQuiet(reg: Word, n: nat)
    ensures FeedBits(reg, Zeros(n)) == Zeros(32) <==> reg == Zeros(32)
    decreases n
  {
    if n > 0 {
      assert FeedBit(reg, false) == Shift(reg);
      ShiftKernel(reg);
      assert Zeros(n)[1..] == Zeros(n - 1);
      FeedQuiet(Shift(reg), n - 1);
    }
  }

  lemma PadZero(burst: Bits)
    requires |burst| <= 32
    ensures Pad(burst) == Zeros(32) <==> burst == Zeros(|burst|)
  {
    assert forall i :: 0 <= i < |burst| ==> burst[i] == Pad(burst)[i];
    if Pad(burst) == Zeros(32) {
      assert forall i :: 0 <= i < |burst| ==> !burst[i];
    }
  }

  lemma BurstRegister(burst: Bits)
    requires |burst| <= 32
    ensures FeedBits(Zeros(32), burst) == Zeros(32) <==> burst == Zeros(|burst|)
  {
    hide Shift, Pad, FeedBits;
    FeedIsShifts(Zeros(32), burst);
    XorZero(Zeros(32), Pad(burst));
    ShiftsKernel(Xor(Zeros(32), Pad(burst)), |burst|);
    PadZero(burst);
  }

  /** A nonzero difference confined to 32 consecutive bits reaches the end of the stream. */
  lemma BurstSurvives(before: nat, burst: Bits, after: nat)
    requires |burst| <= 32
    ensures FeedBits(Zeros(32), Zeros(before) + (burst + Zeros(after))) == Zeros(32) <==> burst == Zeros(|burst|)
  {
    var zero := Zeros(32);
    var tail := burst + Zeros(after);
    FeedAppend(zero, Zeros(before), tail);
    FeedQuiet(zero, before);
    FeedAppend(zero, burst, Zeros(after));
    FeedQuiet(FeedBits(zero, burst), after);
    BurstRegister(burst);
  }

  lemma XorZero(x: Bits, y: Bits)
    requires |x| == |y|
    ensures Xor(x, y) == Zeros(|x|) <==> x == y
  {
    if Xor(x, y) == Zeros(|x|) {
      assert forall i :: 0 <= i < |x| ==> !Xor(x, y)[i];
    }
  }

  lemma WindowDifference(a: Bits, b: Bits, lo: nat, hi: nat)
    requires |a| == |b| && lo <= hi <= |a|
    requires a[..lo] == b[..lo] && a[hi..] == b[hi..]
    ensures Xor(a, b) == Zeros(lo) + (Xor(a[lo..hi], b[lo..hi]) + Zeros(|a| - hi))
    ensures a == b <==> a[lo..hi] == b[lo..hi]
  {
    forall i | 0 <= i < lo ensures a[i] == b[i] { assert a[..lo][i] == b[..lo][i]; }
    forall i | hi <= i < |a| ensures a[i] == b[i] { assert a[hi..][i - hi] == b[hi..][i - hi]; }
    assert a == a[..lo] + a[lo..hi] + a[hi..] && b == b[..lo] + b[lo..hi] + b[hi..];
  }

  /** Streams that agree outside a window of 32 bits have equal CRCs only when they are equal. */
  lemma StreamBurst(a: Bits, b: Bits, lo: nat, hi: nat)
    requires |a| == |b| && lo <= hi <= |a| && hi - lo <= 32
    requires a[..lo] == b[..lo] && a[hi..] == b[hi..]
    ensures FeedBits(Zeros(32), a) == FeedBits(Zeros(32), b) <==> a == b
  {
    var zero := Zeros(32);
    var burst := Xor(a[lo..hi], b[lo..hi]);
    WindowDifference(a, b, lo, hi);
    BurstSurvives(lo, burst, |a| - hi);
    FeedLinear(zero, zero, a, b);
    XorZero(zero, zero);
    XorZero(FeedBits(zero, a), FeedBits(zero, b));
    XorZero(a[lo..hi], b[lo..hi]);
  }

  // ------------------------------------------------------------- byte strings

  lemma {:induction false} StreamAppend(a: seq<Byte>, b: seq<Byte>)
    ensures Stream(a + b) == Stream(a) + Stream(b)
  {
    if a == [] {
      assert a + b == b;
    } else {
      assert (a + b)[1..] == a[1..] + b;
      StreamAppend(a[1..], b);
    }
  }

  function Pow2(n: nat): nat {
    if n == 0 then 1 else 2 * Pow2(n - 1)
  }

  lemma {:induction false} BitsDetermine(x: nat, y: nat, n: nat)
    requires x < Pow2(n) && y < Pow2(n)
    requires forall k :: 0 <= k < n ==> BitOf(x, k) == BitOf(y, k)
    ensures x == y
  {
    if n > 0 {
      assert BitOf(x, 0) == BitOf(y, 0);
      var hx, hy := x / 2, y / 2;
      forall k | 0 <= k < n - 1 ensures BitOf(hx, k) == BitOf(hy, k) {
        var next := k + 1;
        assert BitOf(x, next) == BitOf(y, next);
      }
      BitsDetermine(hx, hy, n - 1);
    }
  }

  lemma {:induction false} StreamInjective(a: seq<Byte>, b: seq<Byte>)
    requires |a| == |b| && Stream(a) == Stream(b)
    ensures a == b
  {
    if a != [] {
      assert Stream(a)[..8] == Feed(a[0]) && Stream(b)[..8] == Feed(b[0]);
      assert Stream(a)[8..] == Stream(a[1..]) && Stream(b)[8..] == Stream(b[1..]);
      var x, y := a[0] as int, b[0] as int;
      forall k | 0 <= k < 8 ensures BitOf(x, k) == BitOf(y, k) {
        assert Feed(a[0])[k] == Feed(b[0])[k];
      }
      assert Pow2(4) == 16 && Pow2(8) == 256;
      BitsDetermine(x, y, 8);
      StreamInjective(a[1..], b[1..]);
    }
  }

  lemma {:induction false} StreamPrefix(data: seq<Byte>, k: nat)
    requires k <= |data|
    ensures Stream(data)[..8 * k] == Stream(data[..k]) && Stream(data)[8 * k..] == Stream(data[k..])
  {
    StreamAppend(data[..k], data[k..]);
    assert data == data[..k] + data[k..];
  }

  /** Inputs of equal length that differ only inside four consecutive bytes have different CRCs. */
  lemma FourByteBurstDetected(a: seq<Byte>, b: seq<Byte>, lo: nat, hi: nat)
    requires |a| == |b| && lo <= hi <= |a| && hi - lo <= 4
    requires a[..lo] == b[..lo] && a[hi..] == b[hi..]
    ensures SerialCrc(a) == SerialCrc(b) <==> a == b
  {
    StreamPrefix(a, lo);
    StreamPrefix(b, lo);
    StreamPrefix(a, hi);
    StreamPrefix(b, hi);
    StreamBurst(Stream(a), Stream(b), 8 * lo, 8 * hi);
    if Stream(a) == Stream(b) {
      StreamInjective(a, b);
    }
  }

  // ------------------------------------------------------------- which CRC it is

  /** The number a byte's bits in feeding order spell. */
  function FromLow(bits: Bits): nat {
    if bits == [] then 0 else (if bits[0] then 1 else 0) + 2 * FromLow(bits[1..])
  }

  /** Bytes are fed least significant bit first. */
  lemma FeedIsLowFirst(b: Byte)
    ensures FromLow(Feed(b)) == b as int
  {
    hide FromLow;
    var n := b as int;
    LowBits(n, 8);
    assert Pow2(4) == 16 && Pow2(8) == 256;
    assert Feed(b) == Low(n, 8);
  }

  function Low(n: nat, width: nat): (bits: Bits)
    ensures |bits| == width && forall k :: 0 <= k < width ==> bits[k] == BitOf(n, k)
    decreases width
  {
    if width == 0 then [] else [n % 2 == 1] + Low(n / 2, width - 1)
  }

  lemma {:induction false} LowBits(n: nat, width: nat)
    requires n < Pow2(width)
    ensures FromLow(Low(n, width)) == n
    decreases width
  {
    if width > 0 {
      LowBits(n / 2, width - 1);
      assert Low(n, width)[1..] == Low(n / 2, width - 1);
    }
  }

  lemma {:induction false} FeedZeros(n: nat)
    ensures FeedBits(Zeros(32), Zeros(n)) == Zeros(32)
  {
    FeedQuiet(Zeros(32), n);
  }

  /** A message with a single one bit leaves the generator, shifted once for every bit that follows. By
      linearity this decides the CRC of every message. */
  lemma OneBit(before: nat, after: nat)
    ensures FeedBits(Zeros(32), Zeros(before) + ([true] + Zeros(after))) == Shifts(MASK, after)
  {
    var zero := Zeros(32);
    FeedAppend(zero, Zeros(before), [true] + Zeros(after));
    FeedZeros(before);
    FeedAppend(zero, [true], Zeros(after));
    assert FeedBit(zero, true) == MASK;
    assert FeedBits(zero, [true]) == FeedBits(MASK, [true][1..]) == MASK;
    ZerosShift(MASK, after);
  }

  lemma {:induction false} ZerosShift(reg: Word, n: nat)
    ensures FeedBits(reg, Zeros(n)) == Shifts(reg, n)
    decreases n
  {
    if n > 0 {
      assert FeedBit(reg, false) == Shift(reg);
      assert Zeros(n)[1..] == Zeros(n - 1);
      ZerosShift(Shift(reg), n - 1);
    }
  }

  /** The CRC of the one byte 0x80, whose one bit is fed last, is the generator itself. */
  lemma GeneratorIs()
    ensures Index(SerialCrc([0x80])) == 0x04C1_1DB7
    ensures SerialCrc([0x00]) == SerialCrc([]) == Zeros(32)
  {
    assert Stream([0x80]) == Feed(0x80) && Stream([0x00]) == Feed(0x00) by {
      assert Stream([0x80]) == Feed(0x80) + Stream([]) && Stream([0x00]) == Feed(0x00) + Stream([]);
    }
    assert Low(0x80, 8) == Zeros(7) + ([true] + Zeros(0));
    assert Feed(0x80) == Low(0x80, 8);
    OneBit(7, 0);
    MaskValue();
    assert Low(0, 8) == Zeros(8);
    assert Feed(0x00) == Low(0, 8);
    FeedZeros(8);
  }

  lemma MaskHigh()
    ensures Index(MASK[..16]) == 0x04C1
  {
    hide Index;
    IndexNothing();
    assert MASK[..0] == [];
    MaskNibble(0, 0x0);
    MaskNibble(4, 0x4);
    MaskNibble(8, 0xC);
    MaskNibble(12, 0x1);
  }

  lemma MaskValue()
    ensures Index(MASK) == 0x04C1_1DB7
  {
    hide Index;
    MaskHigh();
    assert MASK[..32] == MASK;
    MaskNibble(16, 0x1);
    MaskNibble(20, 0xD);
    MaskNibble(24, 0xB);
    MaskNibble(28, 0x7);
  }

  lemma MaskNibble(k: nat, d: nat)
    requires k + 4 <= 32
    requires d == (if MASK[k] then 8 else 0) + (if MASK[k + 1] then 4 else 0) + (if MASK[k + 2] then 2 else 0) + (if MASK[k + 3] then 1 else 0)
    ensures Index(MASK[..k + 4]) == 16 * Index(MASK[..k]) + d
  {
    hide Index;
    IndexNibble(MASK[..k], MASK[k..k + 4]);
    assert MASK[..k + 4] == MASK[..k] + MASK[k..k + 4];
  }

  lemma IndexNothing()
    ensures Index([]) == 0
  {}

  /** Four more bits. */
  lemma IndexNibble(a: Bits, b: Bits)
    requires |b| == 4
    ensures Index(a + b) == 16 * Index(a) + (if b[0] then 8 else 0) + (if b[1] then 4 else 0) + (if b[2] then 2 else 0) + (if b[3] then 1 else 0)
  {
    hide Index;
    assert a + b == a + [b[0]] + [b[1]] + [b[2]] + [b[3]];
    IndexSnoc(a, b[0]);
    IndexSnoc(a + [b[0]], b[1]);
    IndexSnoc(a + [b[0]] + [b[1]], b[2]);
    IndexSnoc(a + [b[0]] + [b[1]] + [b[2]], b[3]);
  }

  lemma IndexSnoc(a: Bits, b: bool)
    ensures Index(a + [b]) == 2 * Index(a) + (if b then 1 else 0)
  {
    assert (a + [b])[..|a|] == a;
  }

  // ------------------------------------------------------- the table-driven form

  /** The table index of eight bits taken from the top of a register. */
  function Index(bits: Bits): (n: nat)
    ensures n < Pow2(|bits|)
  {
    if bits == [] then 0 else 2 * Index(bits[..|bits| - 1]) + (if bits[|bits| - 1] then 1 else 0)
  }

  /** `width` bits of a number, most significant first. */
  function ToBits(n: nat, width: nat): (bits: Bits)
    ensures |bits| == width
  {
    if width == 0 then [] else ToBits(n / 2, width - 1) + [n % 2 == 1]
  }

  lemma {:induction false} IndexRoundTrip(bits: Bits)
    ensures ToBits(Index(bits), |bits|) == bits
  {
    if bits != [] {
      IndexRoundTrip(bits[..|bits| - 1]);
    }
  }

  /** What `crc_table[i]` has to be: `i << 24` shifted eight times. */
  function TableEntry(i: nat): Word {
    Shifts(ToBits(i, 8) + Zeros(24), 8)
  }

  /** Shifting a register whose top `n` bits are clear only moves it. */
  lemma {:induction false} ShiftsClear(reg: Word, n: nat)
    requires n <= 32 && reg[..n] == Zeros(n)
    ensures Shifts(reg, n) == reg[n..] + Zeros(n)
    decreases n
  {
    if n > 0 {
      assert !reg[..n][0];
      var next := Shift(reg);
      forall i | 0 <= i < n - 1 ensures !next[i] { assert !reg[..n][i + 1]; }
      ShiftsClear(next, n - 1);
    }
  }

  /** One byte through the table is eight bits through the register. */
  lemma TableStep(reg: Word, b: Byte)
    ensures FeedBits(reg, Feed(b)) == Xor(reg[8..] + Zeros(8), TableEntry(Index(Xor(reg[..8], Feed(b)))))
  {
    var top := Xor(reg[..8], Feed(b));
    var high: Word := top + Zeros(24);
    var low: Word := Zeros(8) + reg[8..];
    FeedIsShifts(reg, Feed(b));
    assert Xor(reg, Pad(Feed(b))) == Xor(low, high);
    ShiftsLinear(low, high, 8);
    assert low[..8] == Zeros(8) && low[8..] == reg[8..];
    ShiftsClear(low, 8);
    IndexRoundTrip(top);
  }

  lemma {:induction false} ShiftsSnoc(reg: Word, n: nat)
    ensures Shifts(reg, n + 1) == Shift(Shifts(reg, n))
    decreases n
  {
    if n > 0 {
      ShiftsSnoc(Shift(reg), n - 1);
    }
  }

  lemma StreamSnoc(data: seq<Byte>, b: Byte)
    ensures Stream(data + [b]) == Stream(data) + Feed(b)
  {
    StreamAppend(data, [b]);
    assert Stream([b]) == Feed(b) + Stream([]);
  }

  lemma SerialStep(data: seq<Byte>, b: Byte)
    ensures var reg := SerialCrc(data);
            SerialCrc(data + [b]) == Xor(reg[8..] + Zeros(8), TableEntry(Index(Xor(reg[..8], Feed(b)))))
  {
    StreamSnoc(data, b);
    FeedAppend(Zeros(32), Stream(data), Feed(b));
    TableStep(SerialCrc(data), b);
  }

  /** The two tables and the flag that says they have been filled. */
  class Crc {
    const table: array<Word>
    const reverse: array<Bits>
    var ready: bool

    ghost predicate Valid()
      reads this, table, reverse
    {
      Filled(if ready then 256 else 0)
    }

    /** The first `n` entries of both tables are right. */
    ghost predicate Filled(n: nat)
      reads table, reverse
    {
      && table.Length == reverse.Length == 256
      && table as object != reverse
      && (forall i :: 0 <= i < n && i < 256 ==> table[i] == TableEntry(i))
      && (forall i :: 0 <= i < n && i < 256 ==> reverse[i] == Feed(i as Byte))
    }

    constructor ()
      ensures Valid() && fresh(table) && fresh(reverse) && !ready
    {
      table := new Word[256](_ => Zeros(32));
      reverse := new Bits[256](_ => Zeros(8));
      ready := false;
    }

    /** The inner loop: one row of both tables. */
    static method BuildRow(i: Byte) returns (reg: Word, r: Bits)
      ensures reg == TableEntry(i as int) && r == Feed(i)
    {
      var start: Word := ToBits(i as int, 8) + Zeros(24);
      reg, r := start, Zeros(8);
      for n := 0 to 8
        invariant reg == Shifts(start, n)
        invariant |r| == 8 && forall k :: 0 <= k < 8 ==> r[k] == (k < n && BitOf(i as int, k))
      {
        ShiftsSnoc(start, n);
        if reg[0] {
          reg := Xor(reg[1..] + [false], MASK);
        } else {
          reg := reg[1..] + [false];
        }
        if BitOf(i as int, n) {
          r := r[n := true];
        }
      }
    }

    method BuildTable()
      requires Valid()
      modifies this, table, reverse
      ensures Valid() && ready
    {
      hide TableEntry, Feed;
      for i := 0 to 256
        invariant Filled(if ready then 256 else i)
      {
        var reg, r := BuildRow(i as Byte);
        table[i] := reg;
        reverse[i] := r;
      }
      ready := true;
    }

    /** The table-driven loop computes the bit-at-a-time CRC, whether or not the tables were ready. */
    method CalcCrc(data: seq<Byte>) returns (crc: Word)
      requires Valid()
      modifies this, table, reverse
      ensures Valid() && ready
      ensures crc == SerialCrc(data)
    {
      if !ready {
        BuildTable();
      }
      crc := Zeros(32);
      for i := 0 to |data|
        invariant Valid() && ready
        invariant crc == SerialCrc(data[..i])
      {
        var idx := Xor(crc[..8], reverse[data[i] as int]);
        assert Index(idx) < 256 by { assert Pow2(4) == 16; }
        SerialStep(data[..i], data[i]);
        assert data[..i + 1] == data[..i] + [data[i]];
        crc := Xor(crc[8..] + Zeros(8), table[Index(idx)]);
      }
      assert data[..|data|] == data;
    }
  }
}
