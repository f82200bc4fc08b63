/** What passing verification says about memory. */
module ElfVerify {
  import opened PhysMem
  import opened Elf
  import opened ElfLoad

  /** The segment is where it should be: its file bytes, then zeros. */
  ghost predicate SegmentLoaded(m: seq<Byte>, buffer: nat, h: Phdr)
    requires Whole(m)
  {
    Loadable(h) ==>
      && SameBytes(m, h.paddr, buffer + h.offset, h.filesz)
      && forall x :: Phys(h.paddr) + h.filesz <= x < Phys(h.paddr) + h.memsz ==> At(m, x) == 0
  }

  /** A segment and its file part, apart from each other in memory. */
  predicate InMemory(buffer: nat, h: Phdr) {
    && Sane(h) && Loadable(h) && Phys(h.paddr) + Size(h) <= SIZE && buffer + h.offset + h.filesz <= SIZE
    && (Phys(h.paddr) + Size(h) <= buffer + h.offset || buffer + h.offset + h.filesz <= Phys(h.paddr))
  }

  predicate ShortTail(h: Phdr) {
    Loadable(h) ==> h.memsz <= h.filesz + 1
  }

  ghost predicate VerifyingIsLoaded(buffer: nat, h: Phdr) {
    forall m :: Whole(m) && SegmentVerifies(m, buffer, h) ==> SegmentLoaded(m, buffer, h)
  }

  function Stray(m: seq<Byte>, x: nat): (r: seq<Byte>)
    requires Whole(m) && x < SIZE
    ensures Whole(r)
  {
    m[x := 1]
  }

  function Blank(): (m: seq<Byte>)
    ensures Whole(m) && forall i :: 0 <= i < SIZE ==> m[i] == 0
  {
    seq(SIZE, i => 0 as Byte)
  }

  /** A memory that passes although the second byte of the tail is not zero. */
  lemma MissedTail(buffer: nat, h: Phdr) returns (m: seq<Byte>)
    requires InMemory(buffer, h) && h.memsz > h.filesz + 1
    ensures Whole(m) && SegmentVerifies(m, buffer, h) && !SegmentLoaded(m, buffer, h)
  {
    var x, src := Phys(h.paddr) + h.filesz + 1, buffer + h.offset;
    m := Stray(Blank(), x);
    forall i | 0 <= i < h.filesz ensures SameByte(m, h.paddr, src, i) {
      PhysStep(h.paddr, i);
      PhysSmall(src + i);
    }
    PhysStep(h.paddr, h.filesz);
    PhysSmall(x);
    assert At(m, x) == 1;
  }

  /** For one segment, passing means being loaded exactly when the tail has at most one byte. */
  lemma SegmentTrust(buffer: nat, h: Phdr)
    requires InMemory(buffer, h)
    ensures VerifyingIsLoaded(buffer, h) <==> ShortTail(h)
  {
    if ShortTail(h) {
      forall m | Whole(m) && SegmentVerifies(m, buffer, h) ensures SegmentLoaded(m, buffer, h) {
        if h.memsz > h.filesz {
          PhysStep(h.paddr, h.filesz);
          PhysSmall(Phys(h.paddr) + h.filesz);
        }
      }
    } else {
      var m := MissedTail(buffer, h);
    }
  }

  // ------------------------------------------------------------------- the whole file

  /** An accepted ELF with disjoint segments, none longer in the file than in memory, beside its target. */
  predicate Regular(m: seq<Byte>, a: Args)
    requires Whole(m)
  {
    var hs := AllHeaders(m, a.buffer);
    && Accepts(m, a) && FileGood(m, a.buffer, a.filesize) && a.end <= SIZE && NoWrap(hs) && Disjoint(hs)
    && (forall k :: 0 <= k < |hs| ==> hs[k].filesz <= hs[k].memsz)
    && (MaxLast(hs) <= a.buffer || a.buffer + a.filesize <= a.start)
  }

  /** Memory still holds the file, and everything the file asks for: loading it again changes nothing. */
  ghost predicate HoldsImage(m: seq<Byte>, a: Args, r: seq<Byte>)
    requires Whole(m) && Whole(r) && a.buffer + a.filesize <= SIZE
  {
    ImageIs(r, r, File(m, a.buffer, a.filesize), AllHeaders(m, a.buffer), 0)
  }

  /** `r` holds the same file and passes. */
  ghost predicate Passes(m: seq<Byte>, a: Args, r: seq<Byte>)
    requires Whole(m) && Whole(r) && a.buffer + a.filesize <= SIZE
  {
    File(r, a.buffer, a.filesize) == File(m, a.buffer, a.filesize) && VerifyOk(r, a.buffer)
  }

  ghost predicate PassingIsLoaded(m: seq<Byte>, a: Args)
    requires Whole(m) && a.buffer + a.filesize <= SIZE
  {
    forall r :: Whole(r) && Passes(m, a, r) ==> HoldsImage(m, a, r)
  }

  lemma ByteHolds(r: seq<Byte>, buffer: nat, filesize: nat, h: Phdr, d: nat)
    requires Whole(r) && buffer + filesize <= SIZE && Sane(h) && Loadable(h) && Phys(h.paddr) + Size(h) <= SIZE
    requires h.filesz != 0 ==> h.offset + h.filesz <= filesize
    requires SegmentVerifies(r, buffer, h) && ShortTail(h) && d < Size(h)
    ensures r[Phys(h.paddr) + d] == if d < h.filesz then File(r, buffer, filesize)[h.offset + d] else 0
  {
    var src := buffer + h.offset;
    PhysStep(h.paddr, d);
    if d < h.filesz {
      assert SameByte(r, h.paddr, src, d);
      PhysSmall(src + d);
    }
  }

  lemma SegmentHolds(a: Args, r: seq<Byte>, hs: seq<Phdr>, highest: nat, k: nat, x: nat)
    requires Whole(r) && a.buffer + a.filesize <= SIZE && k < |hs| && Sane(hs[k])
    requires Fits(hs[k], a.filesize, a.start, highest) && Disjoint(hs) && CoveredBy(hs[k], x)
    requires SegmentVerifies(r, a.buffer, hs[k]) && ShortTail(hs[k])
    ensures x < SIZE && r[x] == Loaded(hs, File(r, a.buffer, a.filesize), x, r[x])
  {
    hide Disjoint, Loaded, SegmentVerifies, Phys;
    LoadedByOne(hs, File(r, a.buffer, a.filesize), k, x, r[x]);
    ByteHolds(r, a.buffer, a.filesize, hs[k], x - Phys(hs[k].paddr));
  }

  /** With short tails, a memory that passes holds the image. */
  lemma ShortTailsTrusted(m: seq<Byte>, a: Args, r: seq<Byte>)
    requires Whole(m) && Regular(m, a) && Whole(r) && Passes(m, a, r)
    requires forall k :: 0 <= k < |AllHeaders(m, a.buffer)| ==> ShortTail(AllHeaders(m, a.buffer)[k])
    ensures HoldsImage(m, a, r)
  {
    hide SegmentError, Header, Loaded, CoveredBy, SegmentVerifies, Fits, Disjoint, ShortTail, Accepts, File;
    var hs, file := AllHeaders(m, a.buffer), File(m, a.buffer, a.filesize);
    AcceptedFits(m, a);
    FileHeaderSame(m, r, a.buffer, a.filesize);
    forall x | 0 <= x < SIZE ensures r[x] == Loaded(hs, file, x - 0, r[x]) {
      if k :| 0 <= k < |hs| && CoveredBy(hs[k], x) {
        HeaderSame(m, r, a.buffer, a.filesize, k);
        assert SegmentVerifies(r, a.buffer, Header(r, a.buffer, k));
        SegmentHolds(a, r, hs, MaxLast(hs), k, x);
      } else {
        LoadedOutside(hs, file, x, r[x]);
      }
    }
  }

  lemma OthersApart(hs: seq<Phdr>, k: nat, j: nat, x: nat)
    requires k < |hs| && j < |hs| && Disjoint(hs) && CoveredBy(hs[k], x) && j != k
    ensures !CoveredBy(hs[j], x)
  {}

  /** A stray byte that is neither file byte, loaded file byte nor first tail byte goes unseen. */
  lemma StrayUnseen(buffer: nat, filesize: nat, r: seq<Byte>, h: Phdr, x: nat)
    requires Whole(r) && buffer + filesize <= SIZE && x < SIZE && !(buffer <= x < buffer + filesize)
    requires Loadable(h) ==> Phys(h.paddr) + h.memsz <= SIZE && h.filesz <= h.memsz && Sane(h)
    requires Loadable(h) && h.filesz != 0 ==> h.offset + h.filesz <= filesize
    requires Loadable(h) ==> x < Phys(h.paddr) || x > Phys(h.paddr) + h.filesz || (x == Phys(h.paddr) + h.memsz)
    requires SegmentVerifies(r, buffer, h)
    ensures SegmentVerifies(Stray(r, x), buffer, h)
  {
    var r', src := Stray(r, x), buffer + h.offset;
    if Loadable(h) {
      forall i | 0 <= i < h.filesz ensures SameByte(r', h.paddr, src, i) {
        assert SameByte(r, h.paddr, src, i);
        PhysStep(h.paddr, i);
        PhysSmall(src + i);
      }
      if h.memsz > h.filesz {
        PhysStep(h.paddr, h.filesz);
      }
    }
  }

  /** Changing the second byte of a tail leaves every segment passing. */
  lemma OneTailByte(a: Args, highest: nat, r: seq<Byte>, hs: seq<Phdr>, k: nat, j: nat)
    requires Whole(r) && a.buffer + a.filesize <= SIZE && k < |hs| && j < |hs| && Disjoint(hs)
    requires Fits(hs[j], a.filesize, a.start, highest) && Fits(hs[k], a.filesize, a.start, highest)
    requires Sane(hs[j]) && hs[j].filesz <= hs[j].memsz
    requires highest <= a.buffer || a.buffer + a.filesize <= a.start
    requires Loadable(hs[k]) && hs[k].memsz > hs[k].filesz + 1
    requires SegmentVerifies(r, a.buffer, hs[j])
    ensures var x := Phys(hs[k].paddr) + hs[k].filesz + 1;
            x < SIZE && SegmentVerifies(Stray(r, x), a.buffer, hs[j])
  {
    hide SegmentVerifies, Disjoint, Stray;
    var x := Phys(hs[k].paddr) + hs[k].filesz + 1;
    if j != k {
      OthersApart(hs, k, j, x);
    }
    StrayUnseen(a.buffer, a.filesize, r, hs[j], x);
  }

  /** The stray byte leaves the whole file passing. */
  lemma StrayPasses(m: seq<Byte>, a: Args, r: seq<Byte>, k: nat)
    requires Whole(m) && Regular(m, a) && Whole(r) && Passes(m, a, r)
    requires k < |AllHeaders(m, a.buffer)| && !ShortTail(AllHeaders(m, a.buffer)[k])
    ensures var h := AllHeaders(m, a.buffer)[k];
            var x := Phys(h.paddr) + h.filesz + 1;
            x < SIZE && Passes(m, a, Stray(r, x))
  {
    hide SegmentError, Header, Accepts, SegmentVerifies, Disjoint, CoveredBy, CoversEntry, Stray, Last, NoWrap, File;
    var hs := AllHeaders(m, a.buffer);
    var highest, h := MaxLast(hs), hs[k];
    var x := Phys(h.paddr) + h.filesz + 1;
    AcceptedFits(m, a);
    assert Fits(h, a.filesize, a.start, highest);
    var r' := Stray(r, x);
    FileKept(r, a.buffer, a.filesize, x);
    FileHeaderSame(m, r, a.buffer, a.filesize);
    FileHeaderSame(m, r', a.buffer, a.filesize);
    forall j | 0 <= j < |hs| ensures SegmentVerifies(r', a.buffer, Header(r', a.buffer, j)) {
      HeaderSame(m, r, a.buffer, a.filesize, j);
      HeaderSame(m, r', a.buffer, a.filesize, j);
      assert SegmentVerifies(r, a.buffer, Header(r, a.buffer, j));
      assert Fits(hs[j], a.filesize, a.start, highest);
      OneTailByte(a, highest, r, hs, k, j);
    }
  }

  lemma CopyPasses(m: seq<Byte>, a: Args)
    requires Whole(m) && Regular(m, a)
    ensures Passes(m, a, LoadUpTo(m, a.buffer, 0, Phnum(m, a.buffer)))
  {
    hide Accepts, AllHeaders, NoWrap, Disjoint, LoadUpTo, VerifyOk, Loaded, CoveredBy;
    CopyWritesTheImage(m, a);
    VerifyAfterCopy(m, a);
  }

  /** With a longer tail, some memory passes without holding the image. */
  lemma LongTailMissed(m: seq<Byte>, a: Args, k: nat) returns (r: seq<Byte>)
    requires Whole(m) && Regular(m, a) && k < |AllHeaders(m, a.buffer)| && !ShortTail(AllHeaders(m, a.buffer)[k])
    ensures Whole(r) && Passes(m, a, r) && !HoldsImage(m, a, r)
  {
    hide Accepts, AllHeaders, Header, NoWrap, Disjoint, LoadUpTo, VerifyOk, Loaded, Passes, MaxLast;
    var hs, file := AllHeaders(m, a.buffer), File(m, a.buffer, a.filesize);
    var x := Phys(hs[k].paddr) + hs[k].filesz + 1;
    var r0 := LoadUpTo(m, a.buffer, 0, Phnum(m, a.buffer));
    CopyPasses(m, a);
    StrayPasses(m, a, r0, k);
    r := Stray(r0, x);
    TailIsZero(hs, file, k, x, r[x]);
    assert r[x] != Loaded(hs, file, x - 0, r[x]);
  }

  lemma FileKept(r: seq<Byte>, buffer: nat, filesize: nat, x: nat)
    requires Whole(r) && buffer + filesize <= SIZE && x < SIZE && !(buffer <= x < buffer + filesize)
    ensures File(Stray(r, x), buffer, filesize) == File(r, buffer, filesize)
  {}

  lemma TailIsZero(hs: seq<Phdr>, file: seq<Byte>, k: nat, x: nat, otherwise: Byte)
    requires k < |hs| && Disjoint(hs) && Loadable(hs[k])
    requires Phys(hs[k].paddr) + hs[k].filesz <= x < Phys(hs[k].paddr) + hs[k].memsz
    ensures Loaded(hs, file, x, otherwise) == 0
  {
    hide Disjoint, Loaded;
    LoadedByOne(hs, file, k, x, otherwise);
  }

  lemma RegularInMemory(m: seq<Byte>, a: Args)
    requires Whole(m) && Regular(m, a)
    ensures a.buffer + a.filesize <= SIZE
  {}

  /** Not panicking means that the file is loaded exactly when no loadable segment has a cleared tail of
      more than one byte. */
  lemma VerifyTrust(m: seq<Byte>, a: Args)
    requires Whole(m) && Regular(m, a)
    ensures PassingIsLoaded(m, a) <==>
            forall k :: 0 <= k < |AllHeaders(m, a.buffer)| ==> ShortTail(AllHeaders(m, a.buffer)[k])
  {
    hide Regular, Passes, HoldsImage, ShortTail, AllHeaders, Header, Headers;
    RegularInMemory(m, a);
    var hs := AllHeaders(m, a.buffer);
    if k :| 0 <= k < |hs| && !ShortTail(hs[k]) {
      var r := LongTailMissed(m, a, k);
    } else {
      forall r | Whole(r) && Passes(m, a, r) ensures HoldsImage(m, a, r) {
        ShortTailsTrusted(m, a, r);
      }
    }
  }

  // ----------------------------------------------- segments longer in the file than in memory

  predicate Overlong(h: Phdr) {
    Loadable(h) && h.filesz > h.memsz
  }

  function Ones(): (m: seq<Byte>)
    ensures Whole(m) && forall i :: 0 <= i < SIZE ==> m[i] == 1
  {
    seq(SIZE, i => 1 as Byte)
  }

  /** Such a segment can be loaded as it should be, and not pass. */
  lemma OverlongPanics(buffer: nat, h: Phdr) returns (m: seq<Byte>)
    requires InMemory(buffer, h) && Overlong(h)
    ensures Whole(m) && SegmentLoaded(m, buffer, h) && !SegmentVerifies(m, buffer, h)
  {
    m := Ones();
    assert At(m, h.paddr + h.filesz) == 1;
  }

  /** The byte after the file part of an overlong segment is zero. */
  predicate ClearAfter(r: seq<Byte>, h: Phdr)
    requires Whole(r)
  {
    Overlong(h) ==> Phys(h.paddr) + h.filesz < SIZE && r[Phys(h.paddr) + h.filesz] == 0
  }

  /** As Regular, with segments of any sizes. */
  predicate Separate(m: seq<Byte>, a: Args)
    requires Whole(m)
  {
    var hs := AllHeaders(m, a.buffer);
    && Accepts(m, a) && FileGood(m, a.buffer, a.filesize) && a.end <= SIZE && NoWrap(hs) && Disjoint(hs)
    && (MaxLast(hs) <= a.buffer || a.buffer + a.filesize <= a.start)
  }

  /** The difference of the sizes wraps, so verification looks at the byte after the file part. */
  lemma OverlongVerifies(m: seq<Byte>, r: seq<Byte>, a: Args, hs: seq<Phdr>, highest: nat, k: nat)
    requires Whole(m) && Whole(r) && a.buffer + a.filesize <= SIZE && k < |hs| && Sane(hs[k])
    requires Fits(hs[k], a.filesize, a.start, highest) && Disjoint(hs) && highest < SIZE
    requires File(r, a.buffer, a.filesize) == File(m, a.buffer, a.filesize)
    requires forall x :: 0 <= x < SIZE ==> r[x] == Loaded(hs, File(m, a.buffer, a.filesize), x, m[x])
    ensures SegmentVerifies(r, a.buffer, hs[k]) <==> ClearAfter(r, hs[k])
  {
    hide Disjoint, Loaded, File;
    var h := hs[k];
    if !Overlong(h) {
      if Loadable(h) { SegmentVerifiesAfter(m, r, a, hs, highest, k); }
    } else {
      var src := a.buffer + h.offset;
      forall i | 0 <= i < h.filesz ensures SameByte(r, h.paddr, src, i) {
        FileByteVerifies(m, r, a, hs, highest, k, i);
      }
      PhysStep(h.paddr, h.filesz);
      assert (h.memsz - h.filesz) % TWO32 != 0;
    }
  }

  lemma OneAfterCopy(m: seq<Byte>, a: Args, k: nat)
    requires Whole(m) && Separate(m, a) && k < |AllHeaders(m, a.buffer)|
    ensures var r := LoadUpTo(m, a.buffer, 0, Phnum(m, a.buffer));
            && Header(r, a.buffer, k) == AllHeaders(m, a.buffer)[k]
            && (SegmentVerifies(r, a.buffer, Header(r, a.buffer, k)) <==> ClearAfter(r, Header(r, a.buffer, k)))
  {
    hide SegmentError, Header, Loaded, LoadSegment, LoadUpTo, CoveredBy, CoversEntry, SegmentVerifies, Fits, Disjoint, Accepts,
      File, Last, ClearAfter, NoWrap;
    var hs := AllHeaders(m, a.buffer);
    var r := LoadUpTo(m, a.buffer, 0, |hs|);
    CopyWritesTheImage(m, a);
    AcceptedFits(m, a);
    HeaderSame(m, r, a.buffer, a.filesize, k);
    assert Fits(hs[k], a.filesize, a.start, MaxLast(hs));
    OverlongVerifies(m, r, a, hs, MaxLast(hs), k);
  }

  lemma FileAfterCopy(m: seq<Byte>, a: Args)
    requires Whole(m) && Separate(m, a)
    ensures var r := LoadUpTo(m, a.buffer, 0, Phnum(m, a.buffer));
            Magic(r, a.buffer) == ELFMAGIC && Phnum(r, a.buffer) == Phnum(m, a.buffer)
  {
    hide SegmentError, Header, Loaded, LoadSegment, LoadUpTo, CoveredBy, CoversEntry, File, NoWrap, Disjoint;
    CopyWritesTheImage(m, a);
    FileHeaderSame(m, LoadUpTo(m, a.buffer, 0, Phnum(m, a.buffer)), a.buffer, a.filesize);
  }

  /** After copying an accepted ELF with disjoint segments, verification panics exactly when some segment
      is longer in the file than in memory and the byte after its file part is not zero. */
  lemma VerifyAfterCopyIff(m: seq<Byte>, a: Args)
    requires Whole(m) && Separate(m, a)
    ensures var hs, r := AllHeaders(m, a.buffer), LoadUpTo(m, a.buffer, 0, Phnum(m, a.buffer));
            VerifyOk(r, a.buffer) <==> forall k :: 0 <= k < |hs| ==> ClearAfter(r, hs[k])
  {
    hide Header, LoadUpTo, SegmentVerifies, ClearAfter, Separate, Magic, Phnum;
    FileAfterCopy(m, a);
    forall k | 0 <= k < |AllHeaders(m, a.buffer)|
      ensures var r := LoadUpTo(m, a.buffer, 0, Phnum(m, a.buffer));
              && Header(r, a.buffer, k) == AllHeaders(m, a.buffer)[k]
              && (SegmentVerifies(r, a.buffer, Header(r, a.buffer, k)) <==> ClearAfter(r, Header(r, a.buffer, k)))
    {
      OneAfterCopy(m, a, k);
    }
  }
}
