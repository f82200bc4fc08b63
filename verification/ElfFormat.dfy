/** The ELF layout the loader reads, and what its check accepts, without reference to the check itself. */
module ElfFormat {
  import opened PhysMem
  import opened Elf
  import opened ElfLoad

  // --------------------------------------------------------- the layout of the headers

  /** A little-endian halfword and word. */
  function Half(v: nat): (b: seq<Byte>)
    requires v < 0x1_0000
    ensures |b| == 2
  {
    [v % 0x100, v / 0x100]
  }

  function Word(v: nat): (b: seq<Byte>)
    requires v < TWO32
    ensures |b| == 4
  {
    [v % 0x100, v / 0x100 % 0x100, v / 0x1_0000 % 0x100, v / 0x100_0000]
  }

  predicate Holds(m: seq<Byte>, p: nat, bytes: seq<Byte>)
    requires Whole(m)
  {
    p + |bytes| <= SIZE && m[p..p + |bytes|] == bytes
  }

  lemma HoldsPart(m: seq<Byte>, p: nat, before: seq<Byte>, part: seq<Byte>, after: seq<Byte>)
    requires Whole(m) && Holds(m, p, before + part + after)
    ensures Holds(m, p + |before|, part)
  {
    var all, i, j := before + part + after, |before|, |before| + |part|;
    assert all[i..j] == part;
    forall k | i <= k < j ensures m[p + k] == all[k] {
      assert m[p..p + |all|][k] == m[p + k];
    }
    assert m[p + i..p + j] == part;
  }

  lemma WordReadBack(m: seq<Byte>, p: nat, v: nat)
    requires Whole(m) && v < TWO32 && Holds(m, p, Word(v))
    ensures Le(m, p, 4) == v
  {
    hide Le;
    var b := m[p..p + 4];
    assert b[0] == m[p] && b[1] == m[p + 1] && b[2] == m[p + 2] && b[3] == m[p + 3];
    LeBytes(m, p);
    WordValue(v);
  }

  lemma WordValue(v: nat)
    requires v < TWO32
    ensures v == v % 0x100 + 0x100 * (v / 0x100 % 0x100) + 0x1_0000 * (v / 0x1_0000 % 0x100) + 0x100_0000 * (v / 0x100_0000)
  {}

  lemma LeBytes(m: seq<Byte>, p: nat)
    requires Whole(m) && p + 4 <= SIZE
    ensures Le(m, p, 4) ==
            (m[p] as int) + 0x100 * (m[p + 1] as int) + 0x1_0000 * (m[p + 2] as int) + 0x100_0000 * (m[p + 3] as int)
  {
    hide Phys;
    PhysSmall(p);
    PhysSmall(p + 1);
    PhysSmall(p + 2);
    PhysSmall(p + 3);
    LeStep(m, p, 4);
    LeStep(m, p + 1, 3);
    LeStep(m, p + 2, 2);
    LeStep(m, p + 3, 1);
  }

  lemma LeStep(m: seq<Byte>, p: nat, n: nat)
    requires Whole(m) && n > 0
    ensures Le(m, p, n) == (At(m, p) as int) + 0x100 * Le(m, p + 1, n - 1)
    ensures n == 1 ==> Le(m, p + 1, n - 1) == 0
  {
    hide At, Phys;
  }

  lemma HalfReadBack(m: seq<Byte>, p: nat, v: nat)
    requires Whole(m) && v < 0x1_0000 && Holds(m, p, Half(v))
    ensures Le(m, p, 2) == v
  {
    var b := m[p..p + 2];
    assert b[0] == m[p] && b[1] == m[p + 1];
    PhysSmall(p);
    PhysSmall(p + 1);
    LeStep(m, p, 2);
    LeStep(m, p + 1, 1);
  }

  predicate IsPhdr(h: Phdr) {
    h.ptype < TWO32 && h.offset < TWO32 && h.paddr < TWO32 && h.filesz < TWO32 && h.memsz < TWO32
  }

  /** Elf32_Phdr: type, offset, virtual and physical address, sizes in file and memory, flags, alignment. */
  function PhdrBytes(h: Phdr, vaddr: nat, flags: nat, align: nat): (b: seq<Byte>)
    requires IsPhdr(h) && vaddr < TWO32 && flags < TWO32 && align < TWO32
    ensures |b| == 32
  {
    Word(h.ptype) + Word(h.offset) + Word(vaddr) + Word(h.paddr) + Word(h.filesz) + Word(h.memsz) + Word(flags) + Word(align)
  }

  /** Elf32_Ehdr after its magic number: the rest of the identification, then the fields up to the number
      of program headers; `more` are the fields the loader does not read. */
  datatype Ehdr = Ehdr(ident: seq<Byte>, kind: seq<Byte>, entry: nat, offsets: seq<Byte>, phnum: nat, sections: seq<Byte>)

  predicate IsEhdr(e: Ehdr) {
    && |e.ident| == 12 && |e.kind| == 8 && e.entry < TWO32 && |e.offsets| == 16 && e.phnum < 0x1_0000
    && |e.sections| == 6
  }

  function EhdrBytes(e: Ehdr): (b: seq<Byte>)
    requires IsEhdr(e)
    ensures |b| == 52
  {
    [0x7F, 0x45, 0x4C, 0x46] + e.ident + e.kind + Word(e.entry) + e.offsets + Half(e.phnum) + e.sections
  }

  /** A program header laid out in memory is read back field by field. */
  lemma HeaderReadBack(m: seq<Byte>, buffer: nat, i: nat, h: Phdr, vaddr: nat, flags: nat, align: nat)
    requires Whole(m) && IsPhdr(h) && vaddr < TWO32 && flags < TWO32 && align < TWO32
    requires Holds(m, buffer + 52 + 32 * i, PhdrBytes(h, vaddr, flags, align))
    ensures Header(m, buffer, i) == h
  {
    hide Word, Le, Holds;
    var p, all := buffer + 52 + 32 * i, PhdrBytes(h, vaddr, flags, align);
    PhdrField(m, p, all, 0, h.ptype);
    PhdrField(m, p, all, 4, h.offset);
    PhdrField(m, p, all, 12, h.paddr);
    PhdrField(m, p, all, 16, h.filesz);
    PhdrField(m, p, all, 20, h.memsz);
  }

  lemma PhdrField(m: seq<Byte>, p: nat, all: seq<Byte>, at: nat, v: nat)
    requires Whole(m) && Holds(m, p, all) && at + 4 <= |all| && v < TWO32 && all[at..at + 4] == Word(v)
    ensures Le(m, p + at, 4) == v
  {
    hide Word, Le;
    assert all == all[..at] + all[at..at + 4] + all[at + 4..];
    HoldsPart(m, p, all[..at], all[at..at + 4], all[at + 4..]);
    WordReadBack(m, p + at, v);
  }

  /** And so is the file header. */
  lemma FileHeaderReadBack(m: seq<Byte>, buffer: nat, e: Ehdr)
    requires Whole(m) && IsEhdr(e) && Holds(m, buffer, EhdrBytes(e))
    ensures Magic(m, buffer) == ELFMAGIC && Entry(m, buffer) == e.entry && Phnum(m, buffer) == e.phnum
  {
    hide Le, Holds;
    var all := EhdrBytes(e);
    assert Word(ELFMAGIC) == [0x7F, 0x45, 0x4C, 0x46];
    PhdrField(m, buffer, all, 0, ELFMAGIC);
    PhdrField(m, buffer, all, 24, e.entry);
    assert all == all[..44] + Half(e.phnum) + all[46..];
    HoldsPart(m, buffer, all[..44], Half(e.phnum), all[46..]);
    HalfReadBack(m, buffer + 44, e.phnum);
  }

  // -------------------------------------------------------------- what is accepted

  /** The two areas through which the loader reaches memory. */
  predicate Reachable(address: nat) {
    0x8000_0000 <= address < 0x9000_0000 || 0xA000_0000 <= address < 0xB000_0000
  }

  predicate ToLoad(h: Phdr) {
    h.ptype == 1 && h.memsz != 0
  }

  predicate SizesAllowed(h: Phdr) {
    h.filesz != 0 ==> h.filesz <= 128 * 1024 * 1024 && h.offset <= 128 * 1024 * 1024
  }

  predicate FilePartAllowed(h: Phdr, filesize: nat) {
    h.filesz != 0 ==> h.offset + h.filesz < filesize
  }

  /** The segment begins at `start` or after, and ends before `end`. */
  predicate Inside(h: Phdr, start: nat, end: nat) {
    var first := h.paddr % 0x1000_0000;
    start <= first && first + h.memsz < end && first + h.filesz < end
  }

  predicate SegmentAllowed(h: Phdr, filesize: nat, start: nat, end: nat) {
    ToLoad(h) ==>
      SizesAllowed(h) && FilePartAllowed(h, filesize) && Reachable(h.paddr) && Inside(h, start, end)
  }

  predicate HasAddress(h: Phdr, x: nat) {
    ToLoad(h) && h.paddr % 0x1000_0000 <= x && (x < h.paddr % 0x1000_0000 + h.memsz || x < h.paddr % 0x1000_0000 + h.filesz)
  }

  predicate NoWrapping(h: Phdr) {
    ToLoad(h) ==> h.paddr % 0x1000_0000 + h.memsz < TWO32 && h.paddr % 0x1000_0000 + h.filesz < TWO32
  }

  /** A segment that does not wrap passes exactly when it is allowed, and each error says what is wrong
      with it first. */
  lemma SegmentErrorSays(h: Phdr, filesize: nat, start: nat, end: nat)
    requires h.paddr < TWO32 && Sane(h) && NoWrapping(h)
    ensures var rc := SegmentError(h, filesize, start, end);
            && (rc == 0 <==> SegmentAllowed(h, filesize, start, end))
            && (rc == -31 <==> ToLoad(h) && !SizesAllowed(h))
            && (rc == -30 <==> ToLoad(h) && SizesAllowed(h) && !FilePartAllowed(h, filesize))
            && (rc == -2 <==> ToLoad(h) && SizesAllowed(h) && FilePartAllowed(h, filesize) && !Reachable(h.paddr))
            && (rc == -3 ==> h.paddr % 0x1000_0000 < start && Reachable(h.paddr))
            && (rc == -4 ==> start <= h.paddr % 0x1000_0000 && !Inside(h, start, end) && Reachable(h.paddr))
            && rc in {0, -2, -3, -4, -30, -31}
  {}

  lemma EntryErrorSays(entry: nat, start: nat, end: nat)
    requires entry < TWO32
    ensures EntryError(entry, start, end) == 0 <==> Reachable(entry) && start <= entry % 0x1000_0000 < end
    ensures EntryError(entry, start, end) == -20 <==> !Reachable(entry)
    ensures EntryError(entry, start, end) in {0, -20, -21}
  {}

  lemma CoversSays(h: Phdr, entry: nat)
    requires Sane(h) && NoWrapping(h)
    ensures CoversEntry(h, entry) <==> HasAddress(h, entry % 0x1000_0000)
  {}

  lemma NoWrapSays(hs: seq<Phdr>)
    requires NoWrap(hs)
    ensures forall k :: 0 <= k < |hs| ==> NoWrapping(hs[k])
  {
    forall k | 0 <= k < |hs| ensures NoWrapping(hs[k]) {
      assert Loadable(hs[k]) ==> Phys(hs[k].paddr) + Size(hs[k]) < TWO32;
    }
  }

  /** What the loader should accept for [start, end). */
  predicate Allowed(m: seq<Byte>, a: Args)
    requires Whole(m)
  {
    var hs, entry := AllHeaders(m, a.buffer), Entry(m, a.buffer);
    && Magic(m, a.buffer) == 0x464C_457F
    && Reachable(entry) && a.start <= entry % 0x1000_0000 < a.end
    && (forall k :: 0 <= k < |hs| ==> SegmentAllowed(hs[k], a.filesize, a.start, a.end))
    && exists k :: 0 <= k < |hs| && HasAddress(hs[k], entry % 0x1000_0000)
  }

  /** The check returns 0 exactly for the ELFs that should be accepted. */
  lemma CheckAllows(m: seq<Byte>, a: Args)
    requires Whole(m) && MayBuild(m, a) && NoWrap(AllHeaders(m, a.buffer))
    ensures Check(m, a).rc == 0 <==> Allowed(m, a)
  {
    hide Header, SegmentError, SegmentAllowed, Reachable, HasAddress, NoWrapping, CoversEntry, EntryError, MayBuild, Check, Le, NoWrap;
    var hs, entry := AllHeaders(m, a.buffer), Entry(m, a.buffer);
    CheckDecides(m, a);
    NoWrapSays(hs);
    EntryErrorSays(entry, a.start, a.end);
    forall k | 0 <= k < |hs|
      ensures SegmentError(hs[k], a.filesize, a.start, a.end) == 0 <==> SegmentAllowed(hs[k], a.filesize, a.start, a.end)
      ensures CoversEntry(hs[k], entry) <==> HasAddress(hs[k], entry % 0x1000_0000)
    {
      PaddrSmall(m, a.buffer, k);
      SegmentErrorSays(hs[k], a.filesize, a.start, a.end);
      CoversSays(hs[k], entry);
    }
  }

  /** The first segment that fails decides the error. */
  lemma {:induction false} FirstErrorIs(hs: seq<Phdr>, filesize: nat, start: nat, end: nat)
    ensures var rc := FirstError(hs, filesize, start, end);
            rc != 0 ==> exists k :: 0 <= k < |hs| && FailsFirst(hs, k, filesize, start, end, rc)
  {
    hide SegmentError;
    if hs != [] {
      var before := hs[..|hs| - 1];
      var rc := FirstError(hs, filesize, start, end);
      FirstErrorIs(before, filesize, start, end);
      if FirstError(before, filesize, start, end) != 0 {
        var k :| 0 <= k < |before| && FailsFirst(before, k, filesize, start, end, rc);
        forall j | 0 <= j < k ensures SegmentError(hs[j], filesize, start, end) == 0 { assert before[j] == hs[j]; }
        assert FailsFirst(hs, k, filesize, start, end, rc);
      } else if rc != 0 {
        FirstErrorPasses(before, filesize, start, end);
        forall j | 0 <= j < |before| ensures SegmentError(hs[j], filesize, start, end) == 0 { assert before[j] == hs[j]; }
        assert FailsFirst(hs, |hs| - 1, filesize, start, end, rc);
      }
    }
  }

  predicate FailsFirst(hs: seq<Phdr>, k: int, filesize: nat, start: nat, end: nat, rc: int) {
    && 0 <= k < |hs| && SegmentError(hs[k], filesize, start, end) == rc
    && forall j :: 0 <= j < k ==> SegmentError(hs[j], filesize, start, end) == 0
  }

  /** The other results: -1 for a wrong magic number, then the entry point's error, then that of the first
      segment that fails, then -5 when no segment holds the entry point. */
  lemma CheckErrorSays(m: seq<Byte>, a: Args)
    requires Whole(m) && MayBuild(m, a) && Check(m, a).rc != 0
    ensures var hs, entry, rc := AllHeaders(m, a.buffer), Entry(m, a.buffer), Check(m, a).rc;
            if Magic(m, a.buffer) != 0x464C_457F then rc == -1
            else if EntryError(entry, a.start, a.end) != 0 then rc == EntryError(entry, a.start, a.end)
            else
              || (exists k :: 0 <= k < |hs| && FailsFirst(hs, k, a.filesize, a.start, a.end, rc))
              || (rc == -5 && AllPass(hs, a.filesize, a.start, a.end) && !Reached(hs, entry))
  {
    hide Header, SegmentError, FailsFirst, CheckStep, CheckUpTo, Reached, MayBuild;
    var hs := AllHeaders(m, a.buffer);
    ScanIs(m, a, Phnum(m, a.buffer));
    FirstErrorPasses(hs, a.filesize, a.start, a.end);
    FirstErrorIs(hs, a.filesize, a.start, a.end);
  }

  lemma PaddrSmall(m: seq<Byte>, buffer: nat, k: nat)
    requires Whole(m)
    ensures Header(m, buffer, k).paddr < TWO32 && Sane(Header(m, buffer, k))
  {}

  /** The highest address reported is where the last of the loaded segments ends. */
  lemma {:induction false} HighestIsAnEnd(hs: seq<Phdr>)
    requires NoWrap(hs)
    ensures forall k :: 0 <= k < |hs| && ToLoad(hs[k]) ==>
              hs[k].paddr % 0x1000_0000 + hs[k].memsz <= MaxLast(hs) && hs[k].paddr % 0x1000_0000 + hs[k].filesz <= MaxLast(hs)
    ensures MaxLast(hs) > 0 ==>
              exists k :: 0 <= k < |hs| && ToLoad(hs[k]) && EndsAt(hs[k], MaxLast(hs))
  {
    if hs != [] {
      var last := |hs| - 1;
      var before := hs[..last];
      forall k | 0 <= k < last && Loadable(before[k]) ensures Phys(before[k].paddr) + Size(before[k]) < TWO32 {
        assert before[k] == hs[k];
      }
      HighestIsAnEnd(before);
      assert Loadable(hs[last]) ==> Phys(hs[last].paddr) + Size(hs[last]) < TWO32;
      forall k | 0 <= k < |hs| && ToLoad(hs[k])
        ensures hs[k].paddr % 0x1000_0000 + hs[k].memsz <= MaxLast(hs) && hs[k].paddr % 0x1000_0000 + hs[k].filesz <= MaxLast(hs)
      {
        if k < last { assert before[k] == hs[k]; }
      }
      if MaxLast(hs) > 0 {
        if MaxLast(hs) == MaxLast(before) {
          var k :| 0 <= k < last && ToLoad(before[k]) && EndsAt(before[k], MaxLast(before));
          assert ToLoad(hs[k]) && EndsAt(hs[k], MaxLast(hs));
        } else {
          assert ToLoad(hs[last]) && EndsAt(hs[last], MaxLast(hs));
        }
      }
    }
  }

  predicate EndsAt(h: Phdr, x: nat) {
    x == h.paddr % 0x1000_0000 + h.memsz || x == h.paddr % 0x1000_0000 + h.filesz
  }
}
