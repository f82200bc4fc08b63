/** Memory as the loader sees it: every pointer is compared and used after the PHYSADDR mask. */
module PhysMem {

  /** PHYSADDR keeps 28 bits. */
  const SIZE := 0x1000_0000
  const TWO32 := 0x1_0000_0000

  type Byte = b: int | 0 <= b < 256

  predicate Whole(m: seq<Byte>) {
    |m| == SIZE
  }

  function Phys(x: int): (a: nat)
    ensures a < SIZE
  {
    x % SIZE
  }

  function At(m: seq<Byte>, x: int): Byte
    requires Whole(m)
  {
    m[Phys(x)]
  }

  function Pow256(n: nat): nat {
    if n == 0 then 1 else 0x100 * Pow256(n - 1)
  }

  /** `n` bytes read little-endian. */
  function Le(m: seq<Byte>, x: int, n: nat): (v: nat)
    requires Whole(m)
    ensures v < Pow256(n)
    ensures n == 2 ==> v < 0x1_0000
    ensures n == 4 ==> v < TWO32
    decreases n
  {
    assert Pow256(2) == 0x1_0000 && Pow256(4) == 0x1_0000 * Pow256(2);
    if n == 0 then 0 else At(m, x) + 0x100 * Le(m, x + 1, n - 1)
  }

  lemma {:induction false} LeSame(m: seq<Byte>, r: seq<Byte>, x: nat, n: nat)
    requires Whole(m) && Whole(r) && x + n <= SIZE
    requires forall a :: x <= a < x + n ==> r[a] == m[a]
    ensures Le(r, x, n) == Le(m, x, n)
    decreases n
  {
    if n > 0 {
      LeSame(m, r, x + 1, n - 1);
    }
  }

  /** A forward byte copy: overlapping source bytes are read after they have been overwritten. */
  function CopyBytes(m: seq<Byte>, dest: int, src: int, n: nat): (r: seq<Byte>)
    requires Whole(m)
    ensures Whole(r)
  {
    if n == 0 then m
    else
      var r := CopyBytes(m, dest, src, n - 1);
      r[Phys(dest + n - 1) := At(r, src + n - 1)]
  }

  function ZeroBytes(m: seq<Byte>, dest: int, n: nat): (r: seq<Byte>)
    requires Whole(m)
    ensures Whole(r)
  {
    if n == 0 then m else ZeroBytes(m, dest, n - 1)[Phys(dest + n - 1) := 0]
  }

  lemma PhysStep(x: int, i: nat)
    requires Phys(x) + i < SIZE
    ensures Phys(x + i) == Phys(x) + i
  {}

  function Moved(m: seq<Byte>, d: nat, s: nat, n: nat, a: nat): Byte
    requires Whole(m) && a < SIZE && s + n <= SIZE
  {
    if d <= a < d + n then m[s + (a - d)] else m[a]
  }

  /** Away from its own source a copy moves the source bytes and touches nothing else. */
  lemma {:induction false} CopyMoves(m: seq<Byte>, dest: int, src: int, n: nat)
    requires Whole(m)
    requires Phys(dest) + n <= SIZE && Phys(src) + n <= SIZE
    requires Phys(dest) + n <= Phys(src) || Phys(src) + n <= Phys(dest)
    ensures forall a :: 0 <= a < SIZE ==>
      CopyBytes(m, dest, src, n)[a] == Moved(m, Phys(dest), Phys(src), n, a)
  {
    if n > 0 {
      CopyMoves(m, dest, src, n - 1);
      PhysStep(dest, n - 1);
      PhysStep(src, n - 1);
      var before := CopyBytes(m, dest, src, n - 1);
      var d, s := Phys(dest) + (n - 1), Phys(src) + (n - 1);
      assert before[s] == m[s];
      assert CopyBytes(m, dest, src, n) == before[d := m[s]];
    }
  }

  /** One byte past its own source a copy repeats the first byte, as a forward loop does. */
  lemma {:induction false} CopySmears(m: seq<Byte>, src: int, n: nat, a: nat)
    requires Whole(m) && Phys(src) + n < SIZE && a <= n
    ensures CopyBytes(m, src + 1, src, n)[Phys(src) + a] == m[Phys(src)]
    decreases n
  {
    if n > 0 {
      var before, s := CopyBytes(m, src + 1, src, n - 1), Phys(src);
      PhysStep(src, n);
      PhysStep(src, n - 1);
      assert src + 1 + n - 1 == src + n;
      assert CopyBytes(m, src + 1, src, n) == before[s + n := before[s + (n - 1)]];
      CopySmears(m, src, n - 1, if a == n then n - 1 else a);
    }
  }

  lemma {:induction false} ZeroClears(m: seq<Byte>, dest: int, n: nat)
    requires Whole(m) && Phys(dest) + n <= SIZE
    ensures forall a :: 0 <= a < SIZE ==>
      ZeroBytes(m, dest, n)[a] == if Phys(dest) <= a < Phys(dest) + n then 0 else m[a]
  {
    if n > 0 {
      ZeroClears(m, dest, n - 1);
      PhysStep(dest, n - 1);
    }
  }

  // ------------------------------------------------------------- the loops themselves

  /** A 32-bit word read as an `int`. */
  function Int32(x: nat): int
    requires x < TWO32
  {
    if x < 0x8000_0000 then x else x - TWO32
  }

  /** The turns of `for (i = 0; i < size; i++)`. */
  function Turns(size: int): nat {
    if size > 0 then size else 0
  }

  method Kmemcpy(mem: array<Byte>, dest: int, src: int, size: int)
    requires mem.Length == SIZE
    modifies mem
    ensures mem[..] == CopyBytes(old(mem[..]), dest, src, Turns(size))
  {
    var i := 0;
    while i < size
      invariant 0 <= i <= Turns(size)
      invariant mem[..] == CopyBytes(old(mem[..]), dest, src, i)
    {
      mem[Phys(dest + i)] := mem[Phys(src + i)];
      i := i + 1;
    }
  }

  method Memset0(mem: array<Byte>, dest: int, n: nat)
    requires mem.Length == SIZE
    modifies mem
    ensures mem[..] == ZeroBytes(old(mem[..]), dest, n)
  {
    for i := 0 to n
      invariant mem[..] == ZeroBytes(old(mem[..]), dest, i)
    {
      mem[Phys(dest + i)] := 0;
    }
  }

  predicate SameByte(m: seq<Byte>, x: int, y: int, i: nat)
    requires Whole(m)
  {
    At(m, x + i) == At(m, y + i)
  }

  ghost predicate SameBytes(m: seq<Byte>, x: int, y: int, n: nat)
    requires Whole(m)
  {
    forall i :: 0 <= i < n ==> SameByte(m, x, y, i)
  }

  /** memcmp, for equality. */
  method Memcmp(mem: array<Byte>, x: int, y: int, n: nat) returns (same: bool)
    requires mem.Length == SIZE
    ensures same <==> SameBytes(mem[..], x, y, n)
  {
    for i := 0 to n
      invariant SameBytes(mem[..], x, y, i)
    {
      if mem[Phys(x + i)] != mem[Phys(y + i)] {
        assert !SameByte(mem[..], x, y, i);
        return false;
      }
    }
    return true;
  }
}
