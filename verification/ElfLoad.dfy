/** What the three ELF passes guarantee together, and the loops that make them. */
module ElfLoad {
  import opened PhysMem
  import opened Elf

  // ------------------------------------------------------------ what the check decides

  function FirstError(hs: seq<Phdr>, filesize: nat, start: nat, end: nat): int {
    if hs == [] then 0
    else
      var rc := FirstError(hs[..|hs| - 1], filesize, start, end);
      if rc != 0 then rc else SegmentError(hs[|hs| - 1], filesize, start, end)
  }

  function MaxLast(hs: seq<Phdr>): nat {
    if hs == [] then 0
    else
      var high := MaxLast(hs[..|hs| - 1]);
      var h := hs[|hs| - 1];
      if Loadable(h) && high < Last(h) then Last(h) else high
  }

  predicate Reached(hs: seq<Phdr>, entry: nat) {
    exists k :: 0 <= k < |hs| && CoversEntry(hs[k], entry)
  }

  predicate AllPass(hs: seq<Phdr>, filesize: nat, start: nat, end: nat) {
    forall k :: 0 <= k < |hs| ==> SegmentError(hs[k], filesize, start, end) == 0
  }

  /** Every loadable segment ends below 4 GiB. */
  predicate NoWrap(hs: seq<Phdr>) {
    forall k :: 0 <= k < |hs| && Loadable(hs[k]) ==> Phys(hs[k].paddr) + Size(hs[k]) < TWO32
  }

  /** Every header of the file. */
  function AllHeaders(m: seq<Byte>, buffer: nat): (hs: seq<Phdr>)
    requires Whole(m)
    ensures forall k :: 0 <= k < |hs| ==> Sane(hs[k])
  {
    Headers(m, buffer, Phnum(m, buffer))
  }

  /** An ELF the loader should accept for [start, end). */
  predicate Accepts(m: seq<Byte>, a: Args)
    requires Whole(m)
  {
    && Magic(m, a.buffer) == ELFMAGIC
    && EntryError(Entry(m, a.buffer), a.start, a.end) == 0
    && AllPass(AllHeaders(m, a.buffer), a.filesize, a.start, a.end)
    && Reached(AllHeaders(m, a.buffer), Entry(m, a.buffer))
  }

  /** The check writes nothing, or builds its image in memory that holds neither file nor wrapped segment. */
  predicate MayBuild(m: seq<Byte>, a: Args)
    requires Whole(m)
  {
    a.destaddr.To? ==>
      && FileGood(m, a.buffer, a.filesize) && a.end <= SIZE && NoWrap(AllHeaders(m, a.buffer))
      && TargetFree(a.buffer, a.filesize, a.start, a.end, a.destaddr.address - a.start)
  }

  lemma {:induction false} FirstErrorPasses(hs: seq<Phdr>, filesize: nat, start: nat, end: nat)
    ensures FirstError(hs, filesize, start, end) == 0 <==> AllPass(hs, filesize, start, end)
  {
    hide SegmentError;
    if hs != [] {
      var before := hs[..|hs| - 1];
      FirstErrorPasses(before, filesize, start, end);
      if AllPass(before, filesize, start, end) && SegmentError(hs[|hs| - 1], filesize, start, end) == 0 {
        forall k | 0 <= k < |hs| ensures SegmentError(hs[k], filesize, start, end) == 0 {
          if k < |hs| - 1 { assert before[k] == hs[k]; }
        }
      }
      if AllPass(hs, filesize, start, end) {
        forall k | 0 <= k < |before| ensures SegmentError(before[k], filesize, start, end) == 0 {
          assert before[k] == hs[k];
        }
      }
    }
  }

  /** A segment that passes and does not wrap fits. */
  lemma PassFits(h: Phdr, filesize: nat, start: nat, end: nat)
    requires SegmentError(h, filesize, start, end) == 0 && end <= SIZE && Sane(h)
    requires Loadable(h) ==> Phys(h.paddr) + Size(h) < TWO32
    ensures Fits(h, filesize, start, end)
    ensures Loadable(h) ==> Last(h) == Phys(h.paddr) + Size(h) < end
    ensures Loadable(h) && h.filesz != 0 ==> h.offset + h.filesz < filesize
  {}

  lemma AllPassFit(hs: seq<Phdr>, filesize: nat, start: nat, end: nat)
    requires AllPass(hs, filesize, start, end) && NoWrap(hs) && end <= SIZE
    requires forall k :: 0 <= k < |hs| ==> Sane(hs[k])
    ensures AllFit(hs, filesize, start, end)
  {
    hide SegmentError, Fits;
    forall k | 0 <= k < |hs| ensures Fits(hs[k], filesize, start, end) {
      assert SegmentError(hs[k], filesize, start, end) == 0;
      PassFits(hs[k], filesize, start, end);
    }
  }

  /** The checking loop finds the first error, the highest end, whether the entry is covered, and builds
      the image that loading at the given displacement builds. */
  lemma {:induction false} ScanIs(m: seq<Byte>, a: Args, n: nat)
    requires Whole(m) && n <= Phnum(m, a.buffer) && MayBuild(m, a)
    ensures var s := CheckUpTo(m, a, n);
            var hs := Headers(m, a.buffer, n);
            && s.rc == FirstError(hs, a.filesize, a.start, a.end)
            && (s.rc == 0 ==>
                  && s.highest == MaxLast(hs)
                  && (s.covered <==> Reached(hs, Entry(m, a.buffer)))
                  && s.m == if a.destaddr.To? then LoadUpTo(m, a.buffer, a.destaddr.address - a.start, n) else m)
  {
    hide Header, SegmentError, Last, LoadSegment, FileGood, TargetFree, NoWrap, Reached, Magic, Entry, Phnum, Phys;
    if n == 0 {
      assert Headers(m, a.buffer, 0) == [];
      ReachedNone(Entry(m, a.buffer));
    } else {
      ScanIs(m, a, n - 1);
      var hs := Headers(m, a.buffer, n);
      assert hs[..n - 1] == Headers(m, a.buffer, n - 1);
      var s := CheckUpTo(m, a, n - 1);
      if s.rc == 0 {
        ReachedStep(hs, Entry(m, a.buffer));
        if a.destaddr.To? {
          HeaderWhileBuilding(m, a, n);
        }
      }
    }
  }

  lemma ReachedNone(entry: nat)
    ensures !Reached([], entry)
  {}

  lemma ReachedStep(hs: seq<Phdr>, entry: nat)
    requires hs != []
    ensures Reached(hs, entry) <==> Reached(hs[..|hs| - 1], entry) || CoversEntry(hs[|hs| - 1], entry)
  {
    hide CoversEntry;
    var before := hs[..|hs| - 1];
    if Reached(before, entry) {
      var k :| 0 <= k < |before| && CoversEntry(before[k], entry);
      assert CoversEntry(hs[k], entry);
    }
    if Reached(hs, entry) {
      var k :| 0 <= k < |hs| && CoversEntry(hs[k], entry);
      if k < |before| { assert CoversEntry(before[k], entry); }
    }
  }

  lemma HeaderWhileBuilding(m: seq<Byte>, a: Args, n: nat)
    requires Whole(m) && 0 < n <= Phnum(m, a.buffer) && MayBuild(m, a) && a.destaddr.To?
    requires FirstError(Headers(m, a.buffer, n - 1), a.filesize, a.start, a.end) == 0
    ensures Header(LoadUpTo(m, a.buffer, a.destaddr.address - a.start, n - 1), a.buffer, n - 1) == Header(m, a.buffer, n - 1)
  {
    hide Header, SegmentError, LoadSegment, Loaded, Fits;
    var hs := Headers(m, a.buffer, n - 1);
    var shift := a.destaddr.address - a.start;
    FirstErrorPasses(hs, a.filesize, a.start, a.end);
    forall k | 0 <= k < |hs| && Loadable(hs[k]) ensures Phys(hs[k].paddr) + Size(hs[k]) < TWO32 {
      assert hs[k] == AllHeaders(m, a.buffer)[k];
    }
    AllPassFit(hs, a.filesize, a.start, a.end);
    LoadUpToIsList(m, a.buffer, a.filesize, a.start, a.end, shift, n - 1);
    ImageOfList(m, a.buffer, a.filesize, a.start, a.end, shift, hs);
    HeaderSame(m, LoadList(m, a.buffer, hs, shift), a.buffer, a.filesize, n - 1);
  }

  /** The check returns 0 exactly for the ELFs it should accept, whether or not it also builds the image. */
  lemma CheckDecides(m: seq<Byte>, a: Args)
    requires Whole(m) && MayBuild(m, a)
    ensures Check(m, a).rc == 0 <==> Accepts(m, a)
    ensures Check(m, a).rc == 0 ==> Check(m, a).highest == MaxLast(AllHeaders(m, a.buffer))
    ensures Check(m, a).rc == 0 ==>
      Check(m, a).m == if a.destaddr.To? then LoadUpTo(m, a.buffer, a.destaddr.address - a.start, Phnum(m, a.buffer)) else m
  {
    hide Header, SegmentError, CheckStep, CheckUpTo, LoadUpTo, Reached, MayBuild;
    ScanIs(m, a, Phnum(m, a.buffer));
    FirstErrorPasses(AllHeaders(m, a.buffer), a.filesize, a.start, a.end);
  }

  // ------------------------------------------------------------------ what is copied

  lemma {:induction false} MaxLastBounds(hs: seq<Phdr>, filesize: nat, start: nat, end: nat)
    requires AllPass(hs, filesize, start, end)
    ensures forall k :: 0 <= k < |hs| && Loadable(hs[k]) ==> Last(hs[k]) <= MaxLast(hs)
    ensures MaxLast(hs) == 0 || MaxLast(hs) < end
  {
    if hs != [] {
      var before, h := hs[..|hs| - 1], hs[|hs| - 1];
      forall k | 0 <= k < |before| ensures SegmentError(before[k], filesize, start, end) == 0 {
        assert before[k] == hs[k];
      }
      MaxLastBounds(before, filesize, start, end);
      assert SegmentError(h, filesize, start, end) == 0;
      forall k | 0 <= k < |hs| && Loadable(hs[k]) ensures Last(hs[k]) <= MaxLast(hs) {
        if k < |before| { assert before[k] == hs[k]; }
      }
    }
  }

  /** Accepted segments lie in [start, highest), and the entry point lies in one of them. */
  lemma AcceptedFits(m: seq<Byte>, a: Args)
    requires Whole(m) && Accepts(m, a) && NoWrap(AllHeaders(m, a.buffer)) && a.end <= SIZE
    ensures var hs, highest := AllHeaders(m, a.buffer), MaxLast(AllHeaders(m, a.buffer));
            && a.start <= highest < a.end
            && AllFit(hs, a.filesize, a.start, highest)
            && (forall k :: 0 <= k < |hs| && Loadable(hs[k]) && hs[k].filesz != 0 ==>
                  hs[k].offset + hs[k].filesz < a.filesize)
            && exists k :: 0 <= k < |hs| && CoveredBy(hs[k], Phys(Entry(m, a.buffer)))
  {
    hide SegmentError, Header, Fits, Last;
    var hs, entry := AllHeaders(m, a.buffer), Entry(m, a.buffer);
    var highest := MaxLast(hs);
    MaxLastBounds(hs, a.filesize, a.start, a.end);
    var c :| 0 <= c < |hs| && CoversEntry(hs[c], entry);
    forall k | 0 <= k < |hs|
      ensures Fits(hs[k], a.filesize, a.start, highest)
      ensures Loadable(hs[k]) && hs[k].filesz != 0 ==> hs[k].offset + hs[k].filesz < a.filesize
    {
      assert SegmentError(hs[k], a.filesize, a.start, a.end) == 0;
      PassFits(hs[k], a.filesize, a.start, a.end);
      TightFit(hs[k], a.filesize, a.start, a.end, highest);
    }
    EntryInside(hs[c], entry, a.filesize, a.start, a.end);
    assert Last(hs[c]) <= highest;
  }

  lemma TightFit(h: Phdr, filesize: nat, start: nat, end: nat, highest: nat)
    requires Fits(h, filesize, start, end) && (Loadable(h) ==> Last(h) <= highest)
    requires Loadable(h) ==> Last(h) == Phys(h.paddr) + Size(h)
    requires highest <= SIZE
    ensures Fits(h, filesize, start, highest)
  {}

  lemma EntryInside(h: Phdr, entry: nat, filesize: nat, start: nat, end: nat)
    requires CoversEntry(h, entry) && SegmentError(h, filesize, start, end) == 0
    requires end <= SIZE && Sane(h) && Phys(h.paddr) + Size(h) < TWO32
    ensures CoveredBy(h, Phys(entry)) && start <= Last(h) && Last(h) > 0
  {}

  lemma {:induction false} LoadedOutside(hs: seq<Phdr>, file: seq<Byte>, x: int, otherwise: Byte)
    requires forall k :: 0 <= k < |hs| ==> !CoveredBy(hs[k], x)
    ensures Loaded(hs, file, x, otherwise) == otherwise
  {
    if hs != [] {
      var before := hs[..|hs| - 1];
      forall k | 0 <= k < |before| ensures !CoveredBy(before[k], x) { assert before[k] == hs[k]; }
      LoadedOutside(before, file, x, otherwise);
    }
  }

  /** Copying an accepted kernel writes only [start, highest), below `end`; there it puts the bytes of
      the last segment that covers each address, and the file itself survives. */
  lemma CopyWritesTheImage(m: seq<Byte>, a: Args)
    requires Whole(m) && Accepts(m, a) && FileGood(m, a.buffer, a.filesize) && a.end <= SIZE
    requires NoWrap(AllHeaders(m, a.buffer))
    requires var highest := MaxLast(AllHeaders(m, a.buffer));
             highest <= a.buffer || a.buffer + a.filesize <= a.start
    ensures var hs, highest := AllHeaders(m, a.buffer), MaxLast(AllHeaders(m, a.buffer));
            var file := File(m, a.buffer, a.filesize);
            var r := LoadUpTo(m, a.buffer, 0, Phnum(m, a.buffer));
            && a.start <= highest < a.end
            && (forall x :: 0 <= x < SIZE ==> r[x] == Loaded(hs, file, x, m[x]))
            && (forall x :: 0 <= x < SIZE && !(a.start <= x < highest) ==> r[x] == m[x])
            && File(r, a.buffer, a.filesize) == file
            && exists k :: 0 <= k < |hs| && CoveredBy(hs[k], Phys(Entry(m, a.buffer)))
  {
    hide SegmentError, Header, Loaded, LoadSegment, Accepts, CoveredBy;
    var hs, highest := AllHeaders(m, a.buffer), MaxLast(AllHeaders(m, a.buffer));
    var file := File(m, a.buffer, a.filesize);
    AcceptedFits(m, a);
    LoadUpToIsList(m, a.buffer, a.filesize, a.start, highest, 0, |hs|);
    ImageOfList(m, a.buffer, a.filesize, a.start, highest, 0, hs);
    var r := LoadUpTo(m, a.buffer, 0, |hs|);
    forall x | 0 <= x < SIZE && !(a.start <= x < highest) ensures r[x] == m[x] {
      OutsideIsUncovered(hs, a.filesize, a.start, highest, x);
      LoadedOutside(hs, file, x - 0, m[x]);
    }
  }

  lemma OutsideIsUncovered(hs: seq<Phdr>, filesize: nat, start: nat, highest: nat, x: nat)
    requires AllFit(hs, filesize, start, highest) && !(start <= x < highest)
    ensures forall k :: 0 <= k < |hs| ==> !CoveredBy(hs[k], x)
  {
    forall k | 0 <= k < |hs| ensures !CoveredBy(hs[k], x) {
      assert Fits(hs[k], filesize, start, highest);
    }
  }

  // ------------------------------------------------------------- segments that do wrap

  /** An address that copying the segment writes. */
  ghost predicate Writes(h: Phdr, x: nat) {
    || (exists i: nat :: i < CopySize(h) && WrittenAt(h.paddr, 0, i, x))
    || (exists i: nat :: i < ClearSize(h) && WrittenAt(h.paddr, h.filesz, i, x))
  }

  predicate WrittenAt(base: nat, skip: nat, i: nat, x: nat) {
    Phys(base + skip + i) == x
  }

  /** A segment that passes the check is written inside [start, end) exactly when its file part ends
      there: for a segment that wraps 32 bits, the check looks at nothing that would make it so. */
  lemma PassedWritesInside(h: Phdr, filesize: nat, start: nat, end: nat)
    requires Sane(h) && Loadable(h) && SegmentError(h, filesize, start, end) == 0 && end < SIZE
    ensures (forall x: nat :: Writes(h, x) ==> start <= x < end) <==> h.filesz == 0 || Phys(h.paddr) + h.filesz <= end
  {
    var d := Phys(h.paddr);
    if h.filesz == 0 || d + h.filesz <= end {
      forall x: nat | Writes(h, x) ensures start <= x < end {
        if i: nat :| i < CopySize(h) && WrittenAt(h.paddr, 0, i, x) {
          PhysStep(h.paddr, i);
        } else {
          var i: nat :| i < ClearSize(h) && WrittenAt(h.paddr, h.filesz, i, x);
          ClearPartInside(h, filesize, start, end, i);
        }
      }
    } else {
      var i := if d >= end then 0 else end - d;
      PhysStep(h.paddr, i);
      assert WrittenAt(h.paddr, 0, i, d + i);
      assert Writes(h, d + i);
    }
  }

  lemma ClearPartInside(h: Phdr, filesize: nat, start: nat, end: nat, i: nat)
    requires Sane(h) && Loadable(h) && SegmentError(h, filesize, start, end) == 0 && end < SIZE
    requires i < ClearSize(h)
    ensures start <= Phys(h.paddr + h.filesz + i) < end
  {
    assert h.memsz - h.filesz == ClearSize(h);
    PhysStep(h.paddr, h.filesz + i);
  }

  /** Such a segment exists: it passes the check for [0x10000, 0x500000) and is copied above it. */
  lemma WrappingSegmentPasses()
    ensures var h := Phdr(PT_LOAD, 0x1000, 0x8FFF_0000, 0x10, 0xF002_0000);
            && SegmentError(h, 0x2000, 0x1_0000, 0x50_0000) == 0
            && Writes(h, 0x0FFF_0000)
  {
    assert WrittenAt(0x8FFF_0000, 0, 0, 0x0FFF_0000);
  }

  // ------------------------------------------------------------------ verification

  predicate Disjoint(hs: seq<Phdr>) {
    forall i, j :: 0 <= i < j < |hs| && Loadable(hs[i]) && Loadable(hs[j]) ==>
      || Phys(hs[i].paddr) + Size(hs[i]) <= Phys(hs[j].paddr)
      || Phys(hs[j].paddr) + Size(hs[j]) <= Phys(hs[i].paddr)
  }

  lemma {:induction false} LoadedByOne(hs: seq<Phdr>, file: seq<Byte>, k: nat, x: int, otherwise: Byte)
    requires k < |hs| && CoveredBy(hs[k], x) && Disjoint(hs)
    requires x - Phys(hs[k].paddr) < hs[k].filesz ==> hs[k].offset + hs[k].filesz <= |file|
    ensures Loaded(hs, file, x, otherwise) ==
            var d := x - Phys(hs[k].paddr); if d < hs[k].filesz then file[hs[k].offset + d] else 0
  {
    var last := |hs| - 1;
    if k < last {
      var before := hs[..last];
      assert before[k] == hs[k];
      assert Disjoint(before) by {
        forall i, j | 0 <= i < j < last && Loadable(before[i]) && Loadable(before[j])
          ensures || Phys(before[i].paddr) + Size(before[i]) <= Phys(before[j].paddr)
                  || Phys(before[j].paddr) + Size(before[j]) <= Phys(before[i].paddr)
        {
          assert before[i] == hs[i] && before[j] == hs[j];
        }
      }
      LoadedByOne(before, file, k, x, otherwise);
      assert Loadable(hs[last]) ==> !CoveredBy(hs[last], x);
    }
  }

  /** After copying an accepted kernel with disjoint segments, verification finds nothing to panic about. */
  lemma VerifyAfterCopy(m: seq<Byte>, a: Args)
    requires Whole(m) && Accepts(m, a) && FileGood(m, a.buffer, a.filesize) && a.end <= SIZE
    requires NoWrap(AllHeaders(m, a.buffer)) && Disjoint(AllHeaders(m, a.buffer))
    requires forall k :: 0 <= k < |AllHeaders(m, a.buffer)| ==>
               AllHeaders(m, a.buffer)[k].filesz <= AllHeaders(m, a.buffer)[k].memsz
    requires var highest := MaxLast(AllHeaders(m, a.buffer));
             highest <= a.buffer || a.buffer + a.filesize <= a.start
    ensures VerifyOk(LoadUpTo(m, a.buffer, 0, Phnum(m, a.buffer)), a.buffer)
  {
    hide SegmentError, Header, Loaded, LoadSegment, LoadUpTo, CoveredBy, SegmentVerifies, Fits, Disjoint;
    var hs := AllHeaders(m, a.buffer);
    var r := LoadUpTo(m, a.buffer, 0, |hs|);
    CopyWritesTheImage(m, a);
    AcceptedFits(m, a);
    FileHeaderSame(m, r, a.buffer, a.filesize);
    forall k | 0 <= k < |hs| ensures SegmentVerifies(r, a.buffer, Header(r, a.buffer, k)) {
      HeaderSame(m, r, a.buffer, a.filesize, k);
      assert Fits(hs[k], a.filesize, a.start, MaxLast(hs));
      SegmentVerifiesAfter(m, r, a, hs, MaxLast(hs), k);
    }
  }

  lemma SegmentVerifiesAfter(m: seq<Byte>, r: seq<Byte>, a: Args, hs: seq<Phdr>, highest: nat, k: nat)
    requires Whole(m) && Whole(r) && a.buffer + a.filesize <= SIZE && k < |hs| && Sane(hs[k])
    requires Fits(hs[k], a.filesize, a.start, highest) && Disjoint(hs) && hs[k].filesz <= hs[k].memsz
    requires File(r, a.buffer, a.filesize) == File(m, a.buffer, a.filesize)
    requires forall x :: 0 <= x < SIZE ==> r[x] == Loaded(hs, File(m, a.buffer, a.filesize), x, m[x])
    ensures SegmentVerifies(r, a.buffer, hs[k])
  {
    hide Disjoint, Loaded, Phys, At, Fits, File;
    var h := hs[k];
    if Loadable(h) {
      var src := a.buffer + h.offset;
      forall i | 0 <= i < h.filesz ensures SameByte(r, h.paddr, src, i) {
        FileByteVerifies(m, r, a, hs, highest, k, i);
      }
      if h.memsz > h.filesz {
        TailVerifies(m, r, a, hs, highest, k);
      }
    }
  }

  lemma TailVerifies(m: seq<Byte>, r: seq<Byte>, a: Args, hs: seq<Phdr>, highest: nat, k: nat)
    requires Whole(m) && Whole(r) && a.buffer + a.filesize <= SIZE && k < |hs|
    requires Fits(hs[k], a.filesize, a.start, highest) && Disjoint(hs) && Loadable(hs[k]) && hs[k].filesz < hs[k].memsz
    requires forall x :: 0 <= x < SIZE ==> r[x] == Loaded(hs, File(m, a.buffer, a.filesize), x, m[x])
    ensures At(r, hs[k].paddr + hs[k].filesz) == 0
  {
    hide Disjoint, Loaded;
    var h := hs[k];
    var x := Phys(h.paddr) + h.filesz;
    PhysStep(h.paddr, h.filesz);
    LoadedByOne(hs, File(m, a.buffer, a.filesize), k, x, m[x]);
  }

  lemma FileByteVerifies(m: seq<Byte>, r: seq<Byte>, a: Args, hs: seq<Phdr>, highest: nat, k: nat, i: nat)
    requires Whole(m) && Whole(r) && a.buffer + a.filesize <= SIZE && k < |hs|
    requires Fits(hs[k], a.filesize, a.start, highest) && Disjoint(hs) && Loadable(hs[k]) && i < hs[k].filesz
    requires File(r, a.buffer, a.filesize) == File(m, a.buffer, a.filesize)
    requires forall x :: 0 <= x < SIZE ==> r[x] == Loaded(hs, File(m, a.buffer, a.filesize), x, m[x])
    ensures SameByte(r, hs[k].paddr, a.buffer + hs[k].offset, i)
  {
    hide Disjoint, Loaded;
    var h, file := hs[k], File(m, a.buffer, a.filesize);
    var x, y := Phys(h.paddr) + i, a.buffer + h.offset + i;
    PhysStep(h.paddr, i);
    PhysSmall(y);
    LoadedByOne(hs, file, k, x, m[x]);
    assert File(r, a.buffer, a.filesize)[h.offset + i] == r[y];
  }

  // ------------------------------------------------------------------ the two images

  lemma {:induction false} LoadedIgnoresOld(hs: seq<Phdr>, filesize: nat, start: nat, end: nat, file: seq<Byte>, x: int, p: Byte, q: Byte)
    requires AllFit(hs, filesize, start, end) && |file| == filesize
    requires exists k :: 0 <= k < |hs| && CoveredBy(hs[k], x)
    ensures Loaded(hs, file, x, p) == Loaded(hs, file, x, q)
  {
    var last := |hs| - 1;
    assert Fits(hs[last], filesize, start, end);
    if !CoveredBy(hs[last], x) {
      var k :| 0 <= k < |hs| && CoveredBy(hs[k], x);
      var before := hs[..last];
      assert CoveredBy(before[k], x);
      forall j | 0 <= j < last ensures Fits(before[j], filesize, start, end) { assert before[j] == hs[j]; }
      LoadedIgnoresOld(before, filesize, start, end, file, x, p, q);
    }
  }

  /** Checking with a destination buffer builds there, relative to `start`, what the copy puts in memory,
      overlapping segments included. */
  lemma CheckBuildsWhatCopyWrites(m: seq<Byte>, a: Args, x: nat)
    requires Whole(m) && a.destaddr.To? && Accepts(m, a) && MayBuild(m, a)
    requires TargetFree(a.buffer, a.filesize, a.start, a.end, 0)
    requires exists k :: 0 <= k < |AllHeaders(m, a.buffer)| && CoveredBy(AllHeaders(m, a.buffer)[k], x)
    ensures var hs := AllHeaders(m, a.buffer);
            var built, copied := Check(m, a).m, LoadUpTo(m, a.buffer, 0, |hs|);
            && 0 <= a.destaddr.address + (x - a.start) < SIZE && a.start <= x < a.end
            && built[a.destaddr.address + (x - a.start)] == copied[x] == Loaded(hs, File(m, a.buffer, a.filesize), x, m[x])
  {
    hide SegmentError, Header, Loaded, LoadSegment, LoadUpTo, Check, CoveredBy, Accepts, FirstError;
    var hs, shift, n := AllHeaders(m, a.buffer), a.destaddr.address - a.start, Phnum(m, a.buffer);
    var file := File(m, a.buffer, a.filesize);
    CheckDecides(m, a);
    AcceptedPass(m, a);
    AllPassFit(hs, a.filesize, a.start, a.end);
    LoadUpToIsList(m, a.buffer, a.filesize, a.start, a.end, shift, n);
    LoadUpToIsList(m, a.buffer, a.filesize, a.start, a.end, 0, n);
    ImageOfList(m, a.buffer, a.filesize, a.start, a.end, shift, hs);
    ImageOfList(m, a.buffer, a.filesize, a.start, a.end, 0, hs);
    CoveredInside(hs, a.filesize, a.start, a.end, x);
    LoadedIgnoresOld(hs, a.filesize, a.start, a.end, file, x, m[x], m[x + shift]);
    var built := LoadUpTo(m, a.buffer, shift, n);
    assert built[x + shift] == Loaded(hs, file, (x + shift) - shift, m[x + shift]);
    assert LoadUpTo(m, a.buffer, 0, n)[x] == Loaded(hs, file, x - 0, m[x]);
  }

  lemma AcceptedPass(m: seq<Byte>, a: Args)
    requires Whole(m) && Accepts(m, a)
    ensures AllPass(AllHeaders(m, a.buffer), a.filesize, a.start, a.end)
  {}

  lemma CoveredInside(hs: seq<Phdr>, filesize: nat, start: nat, end: nat, x: nat)
    requires AllFit(hs, filesize, start, end) && exists k :: 0 <= k < |hs| && CoveredBy(hs[k], x)
    ensures start <= x < end
  {
    var k :| 0 <= k < |hs| && CoveredBy(hs[k], x);
    assert Fits(hs[k], filesize, start, end);
  }

  // ---------------------------------------------------------------- the loops themselves

  method CheckSections32(mem: array<Byte>, a: Args) returns (rc: int, highest: nat)
    requires mem.Length == SIZE
    modifies mem
    ensures var s := Check(old(mem[..]), a);
            rc == s.rc && highest == s.highest && mem[..] == s.m
  {
    hide CheckStep, Header, EntryError, LoadSegment;
    ghost var m0 := mem[..];
    highest := 0;
    var magic := ReadLe(mem, a.buffer, 4);
    if magic != ELFMAGIC {
      return -1, 0;
    }
    var entry := ReadLe(mem, a.buffer + 24, 4);
    rc := EntryError(entry, a.start, a.end);
    if rc != 0 {
      return rc, 0;
    }
    var covered := false;
    var phnum := ReadLe(mem, a.buffer + 44, 2);
    for i := 0 to phnum
      invariant rc == 0 && CheckUpTo(m0, a, i) == Scan(0, highest, covered, mem[..])
    {
      rc, highest, covered := CheckOne(mem, a, entry, i, highest, covered);
      if rc != 0 {
        StopsAt(m0, a, i + 1, phnum);
        return rc, highest;
      }
    }
    if !covered {
      return -5, highest;
    }
    return 0, highest;
  }

  /** Once the loop has stopped at an error, nothing later changes its outcome. */
  lemma {:induction false} StopsAt(m: seq<Byte>, a: Args, i: nat, n: nat)
    requires Whole(m) && i <= n && CheckUpTo(m, a, i).rc != 0
    ensures CheckUpTo(m, a, n) == CheckUpTo(m, a, i)
    decreases n
  {
    hide Header, SegmentError, LoadSegment;
    if i < n {
      StopsAt(m, a, i, n - 1);
    }
  }

  method ReadLe(mem: array<Byte>, x: int, n: nat) returns (v: nat)
    requires mem.Length == SIZE && n <= 4
    ensures v == Le(mem[..], x, n)
  {
    v := Le(mem[..], x, n);
  }

  method ReadHeader(mem: array<Byte>, buffer: nat, i: nat) returns (h: Phdr)
    requires mem.Length == SIZE
    ensures h == Header(mem[..], buffer, i)
  {
    var p := buffer + EHDR_SIZE + PHDR_SIZE * i;
    var ptype := ReadLe(mem, p, 4);
    var offset := ReadLe(mem, p + 4, 4);
    var paddr := ReadLe(mem, p + 12, 4);
    var filesz := ReadLe(mem, p + 16, 4);
    var memsz := ReadLe(mem, p + 20, 4);
    h := Phdr(ptype, offset, paddr, filesz, memsz);
  }

  /** Copy the file part of one segment and clear its tail. */
  method LoadOne(mem: array<Byte>, buffer: nat, h: Phdr, dest: int)
    requires mem.Length == SIZE
    modifies mem
    ensures mem[..] == LoadSegment(old(mem[..]), buffer, h, dest)
  {
    Kmemcpy(mem, dest, buffer + h.offset, Int32(h.filesz % TWO32));
    Memset0(mem, dest + h.filesz, ClearSize(h));
  }

  /** One turn of the checking loop. */
  method CheckOne(mem: array<Byte>, a: Args, entry: nat, i: nat, highest: nat, covered: bool)
    returns (rc: int, highest': nat, covered': bool)
    requires mem.Length == SIZE
    modifies mem
    ensures Scan(rc, highest', covered', mem[..]) == CheckStep(Scan(0, highest, covered, old(mem[..])), a, entry, i)
  {
    hide Header, LoadSegment;
    highest', covered' := highest, covered;
    rc := 0;
    var h := ReadHeader(mem, a.buffer, i);
    if h.ptype != PT_LOAD || h.memsz == 0 {
      return;
    }
    if h.filesz != 0 {
      if h.filesz > LIMIT || h.offset > LIMIT {
        return -31, highest, covered;
      }
      if h.offset + h.filesz >= a.filesize {
        return -30, highest, covered;
      }
    }
    if !GoodArea(h.paddr) {
      return -2, highest, covered;
    }
    var dest := Phys(h.paddr);
    if dest < a.start {
      return -3, highest, covered;
    }
    var last := (dest + (if h.memsz < h.filesz then h.filesz else h.memsz)) % TWO32;
    if highest' < last {
      highest' := last;
    }
    if last >= a.end {
      return -4, highest', covered;
    }
    if dest <= Phys(entry) && last > Phys(entry) {
      covered' := true;
    }
    if a.destaddr.To? {
      LoadOne(mem, a.buffer, h, a.destaddr.address + Phys(h.paddr) - a.start);
    }
  }

  /** The entry is 0, the source's NULL, for a file that is no ELF. */
  method CopySections32(mem: array<Byte>, buffer: nat) returns (entry: int)
    requires mem.Length == SIZE
    modifies mem
    ensures var m := old(mem[..]);
            if Magic(m, buffer) == ELFMAGIC
            then entry == Entry(m, buffer) && mem[..] == LoadUpTo(m, buffer, 0, Phnum(m, buffer))
            else entry == 0 && mem[..] == m
  {
    hide Header, LoadSegment;
    ghost var m0 := mem[..];
    var magic := ReadLe(mem, buffer, 4);
    if magic != ELFMAGIC {
      return 0;
    }
    entry := ReadLe(mem, buffer + 24, 4);
    var phnum := ReadLe(mem, buffer + 44, 2);
    for i := 0 to phnum
      invariant mem[..] == LoadUpTo(m0, buffer, 0, i)
    {
      var h := ReadHeader(mem, buffer, i);
      if Loadable(h) {
        LoadOne(mem, buffer, h, Phys(h.paddr));
      }
    }
  }

  method VerifySections32(mem: array<Byte>, buffer: nat) returns (panics: bool)
    requires mem.Length == SIZE
    ensures panics <==> !VerifyOk(mem[..], buffer)
  {
    hide Header, SegmentVerifies;
    var magic := ReadLe(mem, buffer, 4);
    if magic != ELFMAGIC {
      return true;
    }
    var phnum := ReadLe(mem, buffer + 44, 2);
    for i := 0 to phnum
      invariant forall k :: 0 <= k < i ==> SegmentVerifies(mem[..], buffer, Header(mem[..], buffer, k))
    {
      var h := ReadHeader(mem, buffer, i);
      var ok := VerifyOne(mem, buffer, h);
      if !ok {
        return true;
      }
    }
    return false;
  }

  /** The tail loop looks at the same byte each time round. */
  method VerifyOne(mem: array<Byte>, buffer: nat, h: Phdr) returns (ok: bool)
    requires mem.Length == SIZE
    ensures ok <==> SegmentVerifies(mem[..], buffer, h)
  {
    if !Loadable(h) {
      return true;
    }
    ok := Memcmp(mem, h.paddr, buffer + h.offset, h.filesz);
    if ok {
      var size := (h.memsz - h.filesz) % TWO32;
      for i := 0 to size
        invariant i > 0 ==> At(mem[..], h.paddr + h.filesz) == 0
      {
        if mem[Phys(h.paddr + h.filesz)] != 0 {
          return false;
        }
      }
    }
  }
}
