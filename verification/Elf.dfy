/** Checking, copying and verifying the loadable segments of a 32-bit ELF. */
module Elf {
  import opened PhysMem

  const ELFMAGIC := 0x464c_457f
  const PT_LOAD := 1
  const EHDR_SIZE := 52
  const PHDR_SIZE := 32
  const LIMIT := 128 * 1024 * 1024

  datatype Phdr = Phdr(ptype: nat, offset: nat, paddr: nat, filesz: nat, memsz: nat)

  function Magic(m: seq<Byte>, buffer: nat): nat
    requires Whole(m)
  {
    Le(m, buffer, 4)
  }

  function Entry(m: seq<Byte>, buffer: nat): nat
    requires Whole(m)
  {
    Le(m, buffer + 24, 4)
  }

  function Phnum(m: seq<Byte>, buffer: nat): nat
    requires Whole(m)
  {
    Le(m, buffer + 44, 2)
  }

  /** The program headers are taken to follow the file header directly. */
  function Header(m: seq<Byte>, buffer: nat, i: nat): (h: Phdr)
    requires Whole(m)
    ensures h.paddr < TWO32 && h.filesz < TWO32 && h.memsz < TWO32 && h.offset < TWO32
  {
    var p := buffer + EHDR_SIZE + PHDR_SIZE * i;
    Phdr(Le(m, p, 4), Le(m, p + 4, 4), Le(m, p + 12, 4), Le(m, p + 16, 4), Le(m, p + 20, 4))
  }

  predicate Loadable(h: Phdr) {
    h.ptype == PT_LOAD && h.memsz != 0
  }

  function Size(h: Phdr): nat {
    if h.memsz < h.filesz then h.filesz else h.memsz
  }

  /** `dest + size` in 32 bits. */
  function Last(h: Phdr): nat {
    (Phys(h.paddr) + Size(h)) % TWO32
  }

  predicate GoodArea(address: nat) {
    address / 0x1000_0000 == 0x8 || address / 0x1000_0000 == 0xA
  }

  function EntryError(entry: nat, start: nat, end: nat): int {
    if !GoodArea(entry) then -20
    else if Phys(entry) < start then -21
    else if Phys(entry) >= end then -21
    else 0
  }

  function SegmentError(h: Phdr, filesize: nat, start: nat, end: nat): int {
    if !Loadable(h) then 0
    else if h.filesz != 0 && h.filesz > LIMIT then -31
    else if h.filesz != 0 && h.offset > LIMIT then -31
    else if h.filesz != 0 && h.offset + h.filesz >= filesize then -30
    else if !GoodArea(h.paddr) then -2
    else if Phys(h.paddr) < start then -3
    else if Last(h) >= end then -4
    else 0
  }

  predicate CoversEntry(h: Phdr, entry: nat) {
    Loadable(h) && Phys(h.paddr) <= Phys(entry) && Last(h) > Phys(entry)
  }

  /** `(int) (memsz - filesz)` when that is positive, else nothing to clear. */
  function ClearSize(h: Phdr): nat {
    var d := (h.memsz - h.filesz) % TWO32;
    if d < 0x8000_0000 then d else 0
  }

  /** kmemcpy takes the size as an `int`: nothing is copied from 2 GiB on. */
  function CopySize(h: Phdr): nat {
    var n := h.filesz % TWO32;
    if n < 0x8000_0000 then n else 0
  }

  /** Copy one segment's file bytes to `dest` and clear the rest of it. */
  function LoadSegment(m: seq<Byte>, buffer: nat, h: Phdr, dest: int): (r: seq<Byte>)
    requires Whole(m)
    ensures Whole(r)
  {
    ZeroBytes(CopyBytes(m, dest, buffer + h.offset, CopySize(h)), dest + h.filesz, ClearSize(h))
  }

  // --------------------------------------------------------------- the three passes

  datatype Args = Args(buffer: nat, filesize: nat, start: nat, end: nat, destaddr: Dest)
  datatype Dest = Nowhere | To(address: int)

  /** The state of the checking loop; `rc` stays at the first error. */
  datatype Scan = Scan(rc: int, highest: nat, covered: bool, m: seq<Byte>)

  function CheckStep(s: Scan, a: Args, entry: nat, i: nat): (r: Scan)
    requires Whole(s.m)
    ensures Whole(r.m)
  {
    if s.rc != 0 then s
    else
      var h := Header(s.m, a.buffer, i);
      var rc := SegmentError(h, a.filesize, a.start, a.end);
      if rc != 0 then s.(rc := rc, highest := if rc == -4 && s.highest < Last(h) then Last(h) else s.highest)
      else if !Loadable(h) then s
      else
        Scan(0, if s.highest < Last(h) then Last(h) else s.highest, s.covered || CoversEntry(h, entry),
             if a.destaddr.To?
             then LoadSegment(s.m, a.buffer, h, a.destaddr.address + Phys(h.paddr) - a.start) else s.m)
  }

  function CheckUpTo(m: seq<Byte>, a: Args, n: nat): (s: Scan)
    requires Whole(m)
    ensures Whole(s.m)
  {
    if n == 0 then Scan(0, 0, false, m) else CheckStep(CheckUpTo(m, a, n - 1), a, Entry(m, a.buffer), n - 1)
  }

  /** check_sections32. */
  function Check(m: seq<Byte>, a: Args): (s: Scan)
    requires Whole(m)
    ensures Whole(s.m)
  {
    if Magic(m, a.buffer) != ELFMAGIC then Scan(-1, 0, false, m)
    else
      var rc := EntryError(Entry(m, a.buffer), a.start, a.end);
      if rc != 0 then Scan(rc, 0, false, m)
      else
        var s := CheckUpTo(m, a, Phnum(m, a.buffer));
        if s.rc == 0 && !s.covered then s.(rc := -5) else s
  }

  /** Loading the first `n` segments, each `shift` bytes from its physical address. */
  function LoadUpTo(m: seq<Byte>, buffer: nat, shift: int, n: nat): (r: seq<Byte>)
    requires Whole(m)
    ensures Whole(r)
  {
    if n == 0 then m
    else
      var r := LoadUpTo(m, buffer, shift, n - 1);
      var h := Header(r, buffer, n - 1);
      if Loadable(h) then LoadSegment(r, buffer, h, Phys(h.paddr) + shift) else r
  }

  /** verify_sections32 does not panic. Only the first byte of a cleared tail is looked at. */
  ghost predicate VerifyOk(m: seq<Byte>, buffer: nat)
    requires Whole(m)
  {
    && Magic(m, buffer) == ELFMAGIC
    && forall k :: 0 <= k < Phnum(m, buffer) ==> SegmentVerifies(m, buffer, Header(m, buffer, k))
  }

  ghost predicate SegmentVerifies(m: seq<Byte>, buffer: nat, h: Phdr)
    requires Whole(m)
  {
    Loadable(h) ==>
      && SameBytes(m, h.paddr, buffer + h.offset, h.filesz)
      && ((h.memsz - h.filesz) % TWO32 != 0 ==> At(m, h.paddr + h.filesz) == 0)
  }

  // ----------------------------------------------------------------- what is loaded

  /** The ELF file lies within memory and holds its own header table. */
  predicate FileGood(m: seq<Byte>, buffer: nat, filesize: nat)
    requires Whole(m)
  {
    buffer + filesize <= SIZE && EHDR_SIZE + PHDR_SIZE * Phnum(m, buffer) <= filesize
  }

  function File(m: seq<Byte>, buffer: nat, filesize: nat): seq<Byte>
    requires Whole(m) && buffer + filesize <= SIZE
  {
    m[buffer..buffer + filesize]
  }

  function Headers(m: seq<Byte>, buffer: nat, n: nat): (hs: seq<Phdr>)
    requires Whole(m)
    ensures |hs| == n && forall k :: 0 <= k < n ==> hs[k] == Header(m, buffer, k)
  {
    seq(n, k requires 0 <= k => Header(m, buffer, k))
  }

  /** A segment that lies in [start, end), without wrapping, and whose file part lies in the file. */
  predicate Fits(h: Phdr, filesize: nat, start: nat, end: nat) {
    Loadable(h) ==>
      && start <= Phys(h.paddr) && Phys(h.paddr) + Size(h) <= end <= SIZE
      && (h.filesz != 0 ==> h.offset + h.filesz <= filesize)
  }

  ghost predicate AllFit(hs: seq<Phdr>, filesize: nat, start: nat, end: nat) {
    forall k :: 0 <= k < |hs| ==> Fits(hs[k], filesize, start, end)
  }

  /** [start + shift, end + shift) is memory, and none of it holds the file. */
  predicate TargetFree(buffer: nat, filesize: nat, start: nat, end: nat, shift: int) {
    && 0 <= start + shift <= end + shift <= SIZE && start <= end
    && (end + shift <= buffer || buffer + filesize <= start + shift)
  }

  /** The byte that segments put at physical address `x`: the last one that covers it decides. */
  function Loaded(hs: seq<Phdr>, file: seq<Byte>, x: int, otherwise: Byte): Byte {
    if hs == [] then otherwise
    else
      var h := hs[|hs| - 1];
      var d := x - Phys(h.paddr);
      if Loadable(h) && 0 <= d < h.filesz && h.offset + d < |file| then file[h.offset + d]
      else if Loadable(h) && h.filesz <= d < h.memsz then 0
      else Loaded(hs[..|hs| - 1], file, x, otherwise)
  }

  predicate CoveredBy(h: Phdr, x: int) {
    Loadable(h) && 0 <= x - Phys(h.paddr) < Size(h)
  }

  /** Loading a list of segments, each `shift` bytes from its physical address. */
  function LoadList(m: seq<Byte>, buffer: nat, hs: seq<Phdr>, shift: int): (r: seq<Byte>)
    requires Whole(m)
    ensures Whole(r)
  {
    if hs == [] then m
    else
      var r := LoadList(m, buffer, hs[..|hs| - 1], shift);
      var h := hs[|hs| - 1];
      if Loadable(h) then LoadSegment(r, buffer, h, Phys(h.paddr) + shift) else r
  }

  lemma PhysSmall(x: nat)
    requires x < SIZE
    ensures Phys(x) == x
  {}

  lemma ClearExact(h: Phdr)
    requires h.memsz < TWO32 && h.filesz < TWO32 && Size(h) <= SIZE
    ensures ClearSize(h) == if h.memsz > h.filesz then h.memsz - h.filesz else 0
    ensures CopySize(h) == h.filesz
  {}

  /** What one segment does to one byte of memory. */
  function SegmentByte(m: seq<Byte>, file: seq<Byte>, h: Phdr, d: int, a: nat): Byte
    requires Whole(m) && a < SIZE
  {
    if d <= a < d + h.filesz && h.offset + (a - d) < |file| then file[h.offset + (a - d)]
    else if d + h.filesz <= a < d + h.memsz then 0
    else m[a]
  }

  predicate Sane(h: Phdr) {
    h.memsz < TWO32 && h.filesz < TWO32
  }

  lemma SegmentImage(m: seq<Byte>, buffer: nat, filesize: nat, start: nat, end: nat, shift: int, h: Phdr)
    requires Whole(m) && buffer + filesize <= SIZE && TargetFree(buffer, filesize, start, end, shift)
    requires Loadable(h) && Fits(h, filesize, start, end) && Sane(h)
    ensures var d := Phys(h.paddr) + shift;
            var r := LoadSegment(m, buffer, h, d);
            forall a :: 0 <= a < SIZE ==> r[a] == SegmentByte(m, File(m, buffer, filesize), h, d, a)
  {
    hide ClearSize, CopySize, CopyBytes, ZeroBytes, Moved;
    var d, s, n := Phys(h.paddr) + shift, buffer + h.offset, h.filesz;
    var z := ClearSize(h);
    ClearExact(h);
    PhysSmall(d);
    var c := CopyBytes(m, d, s, n);
    CopyPart(m, buffer, filesize, h.offset, d, n);
    var r := ZeroBytes(c, d + n, z);
    if z > 0 {
      PhysSmall(d + n);
      ZeroClears(c, d + n, z);
    }
    forall a | 0 <= a < SIZE ensures r[a] == SegmentByte(m, File(m, buffer, filesize), h, d, a) {
      assert r[a] == if d + n <= a < d + n + z then 0 else c[a] by {
        if z == 0 { assert r == c by { ZeroNothing(c, d + n); } }
      }
      assert h.filesz > 0 ==> h.offset + h.filesz <= filesize;
      assert c[a] == Patched(m, File(m, buffer, filesize), h.offset, d, n, a);
    }
  }

  lemma ZeroNothing(m: seq<Byte>, d: int)
    requires Whole(m)
    ensures ZeroBytes(m, d, 0) == m
  {}

  function Patched(m: seq<Byte>, file: seq<Byte>, offset: nat, d: nat, n: nat, a: nat): Byte
    requires Whole(m) && a < SIZE && (n > 0 ==> offset + n <= |file|)
  {
    if d <= a < d + n then file[offset + (a - d)] else m[a]
  }

  lemma CopyPart(m: seq<Byte>, buffer: nat, filesize: nat, offset: nat, d: nat, n: nat)
    requires Whole(m) && buffer + filesize <= SIZE && d + n <= SIZE && (n > 0 ==> offset + n <= filesize)
    requires n > 0 ==> d + n <= buffer || buffer + filesize <= d
    ensures var file := File(m, buffer, filesize);
            forall a :: 0 <= a < SIZE ==>
              CopyBytes(m, d, buffer + offset, n)[a] == Patched(m, file, offset, d, n, a)
  {
    if n > 0 {
      PhysSmall(d);
      PhysSmall(buffer + offset);
      CopyMoves(m, d, buffer + offset, n);
    }
  }

  lemma SegmentSparesFile(m: seq<Byte>, r: seq<Byte>, buffer: nat, filesize: nat, start: nat, end: nat, shift: int, h: Phdr)
    requires Whole(m) && Whole(r) && TargetFree(buffer, filesize, start, end, shift)
    requires Loadable(h) && Fits(h, filesize, start, end) && buffer + filesize <= SIZE
    requires forall a :: 0 <= a < SIZE ==>
               r[a] == SegmentByte(m, File(m, buffer, filesize), h, Phys(h.paddr) + shift, a)
    ensures File(r, buffer, filesize) == File(m, buffer, filesize)
  {
    forall a | buffer <= a < buffer + filesize ensures r[a] == m[a] {}
  }

  ghost predicate ImageIs(m: seq<Byte>, r: seq<Byte>, file: seq<Byte>, hs: seq<Phdr>, shift: int)
    requires Whole(m) && Whole(r)
  {
    forall a :: 0 <= a < SIZE ==> r[a] == Loaded(hs, file, a - shift, m[a])
  }

  lemma OneMoreSegment(m: seq<Byte>, r: seq<Byte>, file: seq<Byte>, hs: seq<Phdr>, filesize: nat, start: nat, end: nat, shift: int)
    requires Whole(m) && Whole(r) && hs != [] && |file| == filesize
    requires Fits(hs[|hs| - 1], filesize, start, end)
    requires ImageIs(m, r, file, hs[..|hs| - 1], shift)
    ensures var h := hs[|hs| - 1];
            if Loadable(h) then
              forall a :: 0 <= a < SIZE ==>
                SegmentByte(r, file, h, Phys(h.paddr) + shift, a) == Loaded(hs, file, a - shift, m[a])
            else ImageIs(m, r, file, hs, shift)
  {}

  lemma EmptyImage(m: seq<Byte>, file: seq<Byte>, shift: int)
    requires Whole(m)
    ensures ImageIs(m, m, file, [], shift)
  {}

  /** Segments that fit are loaded, in header order, as `Loaded` says, and leave the file alone. */
  lemma {:induction false} ImageOfList(m: seq<Byte>, buffer: nat, filesize: nat, start: nat, end: nat, shift: int, hs: seq<Phdr>)
    requires Whole(m) && buffer + filesize <= SIZE && TargetFree(buffer, filesize, start, end, shift)
    requires AllFit(hs, filesize, start, end) && forall k :: 0 <= k < |hs| ==> Sane(hs[k])
    ensures var r := LoadList(m, buffer, hs, shift);
            var file := File(m, buffer, filesize);
            File(r, buffer, filesize) == file && ImageIs(m, r, file, hs, shift)
  {
    hide Loaded, SegmentByte, LoadSegment, Phys;
    if hs == [] {
      EmptyImage(m, File(m, buffer, filesize), shift);
    } else {
      var before, h := hs[..|hs| - 1], hs[|hs| - 1];
      ImageOfList(m, buffer, filesize, start, end, shift, before);
      var r, t := LoadList(m, buffer, before, shift), LoadList(m, buffer, hs, shift);
      var file := File(m, buffer, filesize);
      assert Fits(h, filesize, start, end) && Sane(h);
      OneMoreSegment(m, r, file, hs, filesize, start, end, shift);
      if Loadable(h) {
        SegmentImage(r, buffer, filesize, start, end, shift, h);
        SegmentSparesFile(r, t, buffer, filesize, start, end, shift, h);
      }
    }
  }

  // ------------------------------------ header reads while memory is being written

  lemma WordSame(m: seq<Byte>, r: seq<Byte>, buffer: nat, filesize: nat, i: nat, n: nat)
    requires Whole(m) && Whole(r) && buffer + filesize <= SIZE && i + n <= filesize
    requires File(r, buffer, filesize) == File(m, buffer, filesize)
    ensures Le(r, buffer + i, n) == Le(m, buffer + i, n)
  {
    hide Le;
    forall a | buffer + i <= a < buffer + i + n ensures r[a] == m[a] {
      assert File(r, buffer, filesize)[a - buffer] == File(m, buffer, filesize)[a - buffer];
    }
    LeSame(m, r, buffer + i, n);
  }

  lemma HeaderSame(m: seq<Byte>, r: seq<Byte>, buffer: nat, filesize: nat, i: nat)
    requires Whole(m) && Whole(r) && buffer + filesize <= SIZE && EHDR_SIZE + PHDR_SIZE * i + PHDR_SIZE <= filesize
    requires File(r, buffer, filesize) == File(m, buffer, filesize)
    ensures Header(r, buffer, i) == Header(m, buffer, i)
  {
    hide Le;
    var p := EHDR_SIZE + PHDR_SIZE * i;
    WordSame(m, r, buffer, filesize, p, 4);
    WordSame(m, r, buffer, filesize, p + 4, 4);
    WordSame(m, r, buffer, filesize, p + 12, 4);
    WordSame(m, r, buffer, filesize, p + 16, 4);
    WordSame(m, r, buffer, filesize, p + 20, 4);
  }

  lemma FileHeaderSame(m: seq<Byte>, r: seq<Byte>, buffer: nat, filesize: nat)
    requires Whole(m) && Whole(r) && buffer + filesize <= SIZE && EHDR_SIZE <= filesize
    requires File(r, buffer, filesize) == File(m, buffer, filesize)
    ensures Magic(r, buffer) == Magic(m, buffer) && Entry(r, buffer) == Entry(m, buffer)
    ensures Phnum(r, buffer) == Phnum(m, buffer)
  {
    WordSame(m, r, buffer, filesize, 0, 4);
    WordSame(m, r, buffer, filesize, 24, 4);
    WordSame(m, r, buffer, filesize, 44, 2);
  }

  /** Reading the headers as the copy goes on reads the headers of the file as it was. */
  lemma {:induction false} LoadUpToIsList(m: seq<Byte>, buffer: nat, filesize: nat, start: nat, end: nat, shift: int, n: nat)
    requires Whole(m) && FileGood(m, buffer, filesize) && n <= Phnum(m, buffer)
    requires TargetFree(buffer, filesize, start, end, shift)
    requires AllFit(Headers(m, buffer, n), filesize, start, end)
    ensures LoadUpTo(m, buffer, shift, n) == LoadList(m, buffer, Headers(m, buffer, n), shift)
  {
    hide Header, LoadSegment, Loaded;
    if n > 0 {
      var hs := Headers(m, buffer, n - 1);
      assert Headers(m, buffer, n)[..n - 1] == hs;
      forall k | 0 <= k < n - 1 ensures Fits(hs[k], filesize, start, end) {
        assert Headers(m, buffer, n)[k] == hs[k];
      }
      LoadUpToIsList(m, buffer, filesize, start, end, shift, n - 1);
      ImageOfList(m, buffer, filesize, start, end, shift, hs);
      HeaderSame(m, LoadList(m, buffer, hs, shift), buffer, filesize, n - 1);
    }
  }
}
