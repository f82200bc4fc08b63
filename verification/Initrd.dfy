/** Where real_loader puts the initrd, between the kernel's last byte and the loader itself. */
module Initrd {
  import opened PhysMem
  import opened Elf
  import opened ElfLoad

  const KERNEL_START := 0x1_0000
  const NORMAL_MEMORY_START := 0x8_0000
  const PAGE := 4096

  /** Two's complement reading of a 32-bit word. */
  function Signed(x: nat): int
    requires x < TWO32
  {
    if x < 0x8000_0000 then x else x - TWO32
  }

  datatype Placement = Failed(rc: int) | Placed(base: nat, size: nat)

  /** `((highest + 4095) & ~4095) - 8`, all in 32 bits. */
  function Base(highest: nat): nat {
    var up := (highest + (PAGE - 1)) % TWO32;
    (up - up % PAGE - 8) % TWO32
  }

  /** The placement, as arithmetic. `filesize` is what ftell reports, -1 when it fails. */
  function Place(highest: nat, lowest: nat, filesize: int): Placement {
    if !(highest < lowest && highest >= NORMAL_MEMORY_START && Base(highest) > highest) then Failed(-12)
    else
      var base := Base(highest);
      var available := Signed((lowest - (base + 8)) % TWO32);
      if filesize > available then Failed(-10)
      else
        var size := filesize % TWO32;
        if size == 0 then Failed(-9)
        else if (base + 8 + size) % TWO32 >= lowest then Failed(-11)
        else Placed(base, size)
  }

  /** The steps of real_loader and load_file, in their order. */
  method PlaceInitrd(highest: nat, lowest: nat, filesize: int) returns (p: Placement)
    requires highest < TWO32 && lowest < TWO32
    ensures p == Place(highest, lowest, filesize)
  {
    var base := 0;
    var header := false;
    if highest < lowest && highest >= NORMAL_MEMORY_START {
      var up := (highest + 4096 - 1) % TWO32;
      base := (up - up % PAGE - 8) % TWO32;
      header := base > highest;
    }
    if !header {
      return Failed(-12);
    }
    var size := Signed((lowest - (base + 8)) % TWO32);
    if filesize > size {
      return Failed(-10);
    }
    size := filesize;
    if size % TWO32 == 0 {
      return Failed(-9);
    }
    if (base + 8 + size % TWO32) % TWO32 >= lowest {
      return Failed(-11);
    }
    return Placed(base, size % TWO32);
  }

  /** A region whose data starts on a page, above the kernel and below the loader. */
  predicate RegionGood(base: nat, size: nat, highest: nat, lowest: nat) {
    (base + 8) % PAGE == 0 && highest < base && base + 8 + size < lowest
  }

  /** Loading succeeds with a good region, also when the available size wraps, unless ftell failed: then
      the size is 4 GiB less one byte, and nothing stops it. */
  lemma PlacedIffMeasured(highest: nat, lowest: nat, filesize: int)
    requires lowest <= SIZE && -1 <= filesize < 0x8000_0000
    requires Place(highest, lowest, filesize).Placed?
    ensures var p := Place(highest, lowest, filesize);
            RegionGood(p.base, p.size, highest, lowest) <==> filesize >= 0
  {
    hide Base;
    BasePage(highest);
    if filesize == -1 {
      assert filesize % TWO32 == TWO32 - 1;
    } else {
      assert filesize % TWO32 == filesize;
    }
  }

  /** The data starts on the page boundary at or after the kernel's end. */
  lemma BasePage(highest: nat)
    requires NORMAL_MEMORY_START <= highest < SIZE
    ensures (Base(highest) + 8) % PAGE == 0 && 0 <= Base(highest) + 8 - highest < PAGE
  {}

  /** When it succeeds: exactly when the file fits between the page that follows the kernel and the
      loader, and the kernel leaves room for the header below that page. */
  lemma PlacedWhen(highest: nat, lowest: nat, filesize: int)
    requires lowest <= SIZE && 0 <= filesize < 0x8000_0000
    ensures Place(highest, lowest, filesize).Placed? <==>
              && NORMAL_MEMORY_START <= highest
              && 0 < filesize
              && exists base: nat :: RegionGood(base, filesize, highest, lowest) && base + 8 - highest < PAGE
  {
    hide Base, Place;
    if base: nat :| RegionGood(base, filesize, highest, lowest) && base + 8 - highest < PAGE {
      if NORMAL_MEMORY_START <= highest && 0 < filesize {
        PlaceFits(highest, lowest, filesize, base);
      }
    }
    if Place(highest, lowest, filesize).Placed? {
      PlacedIffMeasured(highest, lowest, filesize);
      PlacedBase(highest, lowest, filesize);
    }
  }

  lemma PlaceFits(highest: nat, lowest: nat, filesize: nat, base: nat)
    requires lowest <= SIZE && NORMAL_MEMORY_START <= highest && 0 < filesize < 0x8000_0000
    requires RegionGood(base, filesize, highest, lowest) && base + 8 - highest < PAGE
    ensures Place(highest, lowest, filesize) == Placed(base, filesize)
  {
    hide Base;
    PageAbove(highest, base);
  }

  lemma PlacedBase(highest: nat, lowest: nat, filesize: nat)
    requires lowest <= SIZE && filesize < 0x8000_0000 && Place(highest, lowest, filesize).Placed?
    ensures var p := Place(highest, lowest, filesize);
            p.size == filesize > 0 && NORMAL_MEMORY_START <= highest && p.base + 8 - highest < PAGE
  {}

  lemma PageAbove(highest: nat, base: nat)
    requires (base + 8) % PAGE == 0 && highest < base && base + 8 - highest < PAGE && base + 8 < TWO32
    ensures Base(highest) == base
  {}

  /** How far the kernel's end is below the next page boundary. */
  function Gap(highest: nat): nat {
    if highest % 4096 == 0 then 0 else 4096 - highest % 4096
  }

  /** The placement without 32-bit arithmetic: where the initrd goes, or which error is reported. The
      kernel must reach 512 KiB, end below the loader and leave more than 8 bytes of its last page. */
  lemma PlaceIs(highest: nat, lowest: nat, filesize: nat)
    requires lowest <= SIZE && filesize < 0x8000_0000
    ensures var data := highest + Gap(highest);
            Place(highest, lowest, filesize) ==
              if highest < 0x8_0000 || highest >= lowest || Gap(highest) <= 8 then Failed(-12)
              else if data + filesize > lowest then Failed(-10)
              else if filesize == 0 then Failed(-9)
              else if data + filesize == lowest then Failed(-11)
              else Placed(data - 8, filesize)
  {
    hide Base, Gap;
    if NORMAL_MEMORY_START <= highest < lowest {
      BaseIs(highest);
      var room := lowest - (highest + Gap(highest));
      assert room % TWO32 == if room < 0 then room + TWO32 else room;
      assert filesize % TWO32 == filesize;
    }
  }

  lemma BaseIs(highest: nat)
    requires NORMAL_MEMORY_START <= highest < SIZE
    ensures Base(highest) == highest + Gap(highest) - 8 && Gap(highest) < 4096
  {}

  /** ftell failing is enough: a 2 MiB kernel below a loader at 5 MiB. */
  lemma UnmeasuredInitrdPlaced()
    ensures var p := Place(0x20_0100, 0x50_0000, -1);
            p == Placed(0x20_0FF8, 0xFFFF_FFFF) && !RegionGood(p.base, p.size, 0x20_0100, 0x50_0000)
  {}

  /** Loading the initrd has written at most its header and data. */
  predicate InitrdLoaded(checked: seq<Byte>, m: seq<Byte>, p: Placement) {
    && Whole(checked) && Whole(m)
    && forall x :: 0 <= x < SIZE && !(p.Placed? && p.base <= x < p.base + 8 + p.size) ==> m[x] == checked[x]
  }

  /** The ELF lies above everything the initrd writes, so what was checked still holds. */
  lemma CheckStillHolds(checked: seq<Byte>, m: seq<Byte>, a: Args, p: Placement)
    requires InitrdLoaded(checked, m, p) && (p.Placed? ==> p.base + 8 + p.size < a.end) && a.end <= a.buffer
    requires Accepts(checked, a) && FileGood(checked, a.buffer, a.filesize)
    ensures Accepts(m, a) && FileGood(m, a.buffer, a.filesize)
    ensures File(m, a.buffer, a.filesize) == File(checked, a.buffer, a.filesize)
    ensures AllHeaders(m, a.buffer) == AllHeaders(checked, a.buffer)
  {
    hide Header, SegmentError, CoversEntry, EntryError, Le;
    assert File(m, a.buffer, a.filesize) == File(checked, a.buffer, a.filesize);
    FileHeaderSame(checked, m, a.buffer, a.filesize);
    forall k | 0 <= k < Phnum(checked, a.buffer) ensures Header(m, a.buffer, k) == Header(checked, a.buffer, k) {
      HeaderSame(checked, m, a.buffer, a.filesize, k);
    }
  }

  /** With the kernel accepted before the initrd was loaded, copying it preserves the placed initrd with
      its header, the loader, and the ELF it is copied from. */
  lemma KernelCopySpares(checked: seq<Byte>, m: seq<Byte>, a: Args, filesize: int)
    requires Whole(checked) && a.start == KERNEL_START && a.end <= a.buffer && a.end <= SIZE
    requires Accepts(checked, a) && FileGood(checked, a.buffer, a.filesize) && NoWrap(AllHeaders(checked, a.buffer))
    requires 0 <= filesize < 0x8000_0000
    requires InitrdLoaded(checked, m, Place(MaxLast(AllHeaders(checked, a.buffer)), a.end, filesize))
    ensures var p := Place(MaxLast(AllHeaders(checked, a.buffer)), a.end, filesize);
            var copied := LoadUpTo(m, a.buffer, 0, Phnum(m, a.buffer));
            && (forall x :: a.end <= x < SIZE ==> copied[x] == checked[x])
            && (p.Placed? ==> forall x :: p.base <= x < p.base + 8 + p.size ==> x < SIZE && copied[x] == m[x])
            && File(copied, a.buffer, a.filesize) == File(checked, a.buffer, a.filesize)
            && MaxLast(AllHeaders(checked, a.buffer)) < a.end
            && forall x :: a.start <= x < MaxLast(AllHeaders(checked, a.buffer)) ==>
                 copied[x] == Loaded(AllHeaders(checked, a.buffer), File(checked, a.buffer, a.filesize), x, checked[x])
  {
    hide LoadUpTo, Accepts, Loaded, Header;
    var highest := MaxLast(AllHeaders(checked, a.buffer));
    AcceptedFits(checked, a);
    if Place(highest, a.end, filesize).Placed? {
      PlacedIffMeasured(highest, a.end, filesize);
    }
    CheckStillHolds(checked, m, a, Place(highest, a.end, filesize));
    CopyWritesTheImage(m, a);
  }
}
