/** The sector image a disk's files are laid out into (`getTIDiskImage`): a volume
    information block in sector 0, the file descriptor index in sector 1, one descriptor
    record per file from sector 2 on, then each file's data sectors one after another,
    with the allocation bit map in sector 0 marking sectors 0 and 1 and each file's data
    sectors (but not the descriptor sectors) as used.

    The image is a typed array of 1440 sectors: every store outside it is dropped. */
module ImageFormat {
  import opened Bytes
  import opened Records
  import opened Files
  import opened Framing
  import opened DskFormat

  const IMAGE_SECTORS := 1440
  const IMAGE_SIZE := 1440 * 256
  /** At most this many files are written; the rest of the directory is left out. */
  const MAX_FILES := 127
  /** Offset of the allocation bit map in sector 0. */
  const BITMAP := 0x38
  /** Offset of the data chain pointers in a file descriptor record. */
  const CHAIN := 0x1C

  // ---------------------------------------------------------------- fixed parts

  /** The volume information block as written from offset 0: the name padded with
      spaces to 10 characters (never cut), 1440 sectors, 18 sectors per track, "DSK",
      protection 0x20, 40 tracks per side, 2 sides, density 2. */
  function VolumeHeader(name: seq<byte>): (r: seq<byte>)
    ensures |r| == if |name| < 10 then 20 else |name| + 10
  {
    PadRight(name, SPACE, 10) + Word(IMAGE_SECTORS) + [18] + Ascii("DSK") + [0x20, 40, 2, 2]
  }

  /** The image before any file is placed: the volume header, sectors 0 and 1 marked as
      used and the bit map bytes past the last sector (0xEC to 0xFF) all set. */
  function BlankImage(name: seq<byte>): (img: seq<byte>)
    ensures |img| == IMAGE_SIZE
  {
    var vib := Poke(Zeros(IMAGE_SIZE), 0, VolumeHeader(name));
    Poke(Poke(vib, BITMAP, [3]), 0xEC, seq<byte>(0x14, _ => 0xFF))
  }

  // ---------------------------------------------------------------- descriptor record

  /** The status flags byte: record type in bit 7, datatype in bit 1, file type in bit 0.
      A program file's attributes are all -1, so every bit is set. */
  function FlagsByte(f: FileState): byte
    requires f.Valid()
  {
    if f.IsData() then f.recordType * 0x80 + f.dataType * 2 else 0xFF
  }

  /** Records per sector: `floor(256 / length)` in a byte for a fixed-record file; a length
      of 0 gives JavaScript's Infinity, which a byte store turns into 0. */
  function PerSectorByte(f: FileState): byte
  {
    if f.IsFixed() && f.recordLength > 0 then (256 / f.recordLength) % 256 else 0
  }

  /** Record length byte: only a fixed-record file stores its record length. */
  function LengthByte(f: FileState): byte
    requires f.Valid()
  {
    if f.IsFixed() then f.recordLength else 0
  }

  /** The fields of a descriptor record from its first byte: name padded to 10
      characters, extended record length 0, flags, records per sector, sectors allocated,
      end-of-file offset, record length and number of records. */
  function DescriptorFields(name: seq<byte>, flags: byte, perSector: byte, sectors: int, eof: byte, recordLength: byte, count: int): (r: seq<byte>)
    ensures |r| == if |name| < 10 then 20 else |name| + 10
  {
    PadRight(name, SPACE, 10) + Word(0) + [flags, perSector] + Word(sectors) + [eof, recordLength] + Word(count)
  }

  /** The descriptor record written for `f`: the record count only for a fixed-record file. */
  function DescriptorBytes(f: FileState): (r: seq<byte>)
    requires f.Valid() && !GeometryThrows(f)
    ensures |r| == if |f.name| < 10 then 20 else |f.name| + 10
  {
    DescriptorFields(f.name, FlagsByte(f), PerSectorByte(f), SectorCount(f), EOFOffset(f) % 256,
                     LengthByte(f), if f.IsFixed() then |f.records| else 0)
  }

  /** The five bytes written at offset 0x1C of a descriptor record for data starting at
      sector `start` and ending `offset` sectors later. The two last fields are written as
      words, so a zero byte precedes each. */
  function ChainBytes(start: int, offset: int): (r: seq<byte>)
    ensures |r| == 5
  {
    [start % 256] + Word((offset % 16) * 16 + (start % 4096) / 256) + Word((offset % 4096) / 16)
  }

  // ---------------------------------------------------------------- data sectors

  /** The writer's state while a file's data is laid out: the image, the write offset,
      the current sector and the records written into it. */
  datatype Pen = Pen(img: seq<byte>, n: int, sectorNo: int, recCnt: nat)

  /** `floor(256 / length)` for a fixed-record file; 0 stands for JavaScript's Infinity
      (length 0), which the record count never reaches. */
  function RecordsPerSector(recordLength: int): nat
  {
    if recordLength <= 0 then 0 else 256 / recordLength
  }

  /** One fixed record written: its bytes at the write offset, and a move to the next
      sector once the sector holds its records per sector. */
  function FixedStep(p: Pen, data: seq<byte>, rps: nat): Pen
  {
    var img := Poke(p.img, p.n, data);
    if p.recCnt + 1 == rps then Pen(img, (p.sectorNo + 1) * 256, p.sectorNo + 1, 0)
    else Pen(img, p.n + |data|, p.sectorNo, p.recCnt + 1)
  }

  /** The records `rs` of a fixed-record file written from sector `start`; `None` when a
      record is a hole (`getData` on `undefined` throws). */
  function FixedLayout(img: seq<byte>, start: int, rs: Slots, rps: nat): (r: Option<Pen>)
    ensures r.Some? ==> |r.value.img| == |img| && start <= r.value.sectorNo
    ensures r.Some? ==> r.value.n >= start * 256
    decreases |rs|
  {
    if rs == [] then Some(Pen(img, start * 256, start, 0))
    else match FixedLayout(img, start, rs[..|rs| - 1], rps)
      case None => None
      case Some(p) =>
        match rs[|rs| - 1]
        case None => None
        case Some(rec) => Some(FixedStep(p, rec.data, rps))
  }

  /** One variable record written: a record of 256 bytes or more first moves to the next
      sector (the bytes left in a sector are never counted down), then its length byte and
      its bytes. */
  function VariableStep(p: Pen, data: seq<byte>): Pen
  {
    var s := if 256 <= |data| then p.sectorNo + 1 else p.sectorNo;
    var n := if 256 <= |data| then s * 256 else p.n;
    Pen(Poke(p.img, n, [|data| % 256] + data), n + 1 + |data|, s, 0)
  }

  function VariableLayout(img: seq<byte>, start: int, rs: Slots): (r: Option<Pen>)
    ensures r.Some? ==> |r.value.img| == |img| && start <= r.value.sectorNo
    ensures r.Some? ==> r.value.n >= start * 256
    decreases |rs|
  {
    if rs == [] then Some(Pen(img, start * 256, start, 0))
    else match VariableLayout(img, start, rs[..|rs| - 1])
      case None => None
      case Some(p) =>
        match rs[|rs| - 1]
        case None => None
        case Some(rec) => Some(VariableStep(p, rec.data))
  }

  /** Where a file's data went: the image and the last sector counted as the file's. */
  datatype Placed = Placed(img: seq<byte>, last: int)

  /** A file's data written from sector `start`. A fixed-record file steps back one sector
      when its last sector was just completed; a variable-record file ends with an end
      marker and always steps back one; a program is written in one piece. */
  function DataLayout(img: seq<byte>, f: FileState, start: int): (r: Option<Placed>)
    ensures r.Some? ==> |r.value.img| == |img| && r.value.last >= start - 1
  {
    if f.IsFixed() then
      match FixedLayout(img, start, f.records, RecordsPerSector(f.recordLength))
      case None => None
      case Some(p) => Some(Placed(p.img, if p.recCnt == 0 then p.sectorNo - 1 else p.sectorNo))
    else if f.IsData() then
      match VariableLayout(img, start, f.records)
      case None => None
      case Some(p) => Some(Placed(Poke(p.img, p.n, [0xFF]), p.sectorNo - 1))
    else
      var len := |f.program|;
      Some(Placed(Poke(img, start * 256, f.program), start + len / 256 - (if len % 256 == 0 then 1 else 0)))
  }

  // ---------------------------------------------------------------- allocation bit map

  /** Bit `k` of a byte. */
  function Bit(k: nat): byte
    requires k < 8
  {
    [1, 2, 4, 8, 16, 32, 64, 128][k]
  }

  /** Sector `i` marked as used in the bit map. */
  function Mark(img: seq<byte>, i: nat): (r: seq<byte>)
    ensures |r| == |img|
  {
    var at := BITMAP + i / 8;
    Poke(img, at, [OrByte(At(img, at), Bit(i % 8))])
  }

  /** Sectors `lo` to `hi` marked as used; none when `hi < lo`. */
  function MarkSectors(img: seq<byte>, lo: nat, hi: int): (r: seq<byte>)
    ensures |r| == |img|
    decreases if hi < lo then 0 else hi - lo + 1
  {
    if hi < lo then img else MarkSectors(Mark(img, lo), lo + 1, hi)
  }

  /** Marking sectors changes only the bit map and what follows it. */
  lemma {:induction false} MarkSectorsBelow(img: seq<byte>, lo: nat, hi: int)
    ensures SameBelow(img, MarkSectors(img, lo, hi), BITMAP)
    decreases if hi < lo then 0 else hi - lo + 1
  {
    if lo <= hi {
      MarkBelow(img, img, lo);
      MarkSectorsBelow(Mark(img, lo), lo + 1, hi);
    }
  }

  /** One more sector marked keeps what lies below the bit map. */
  lemma MarkBelow(img: seq<byte>, marked: seq<byte>, i: nat)
    requires SameBelow(img, marked, BITMAP)
    ensures SameBelow(img, Mark(marked, i), BITMAP)
  {
    var at := BITMAP + i / 8;
    PokeBelow(marked, at, [OrByte(At(marked, at), Bit(i % 8))], BITMAP);
  }

  /** Sector `i` is marked as used in the bit map of `img`: bit `i % 8` of bit map byte
      `i / 8`. */
  predicate Used(img: seq<byte>, i: nat)
  {
    HasBit(At(img, BITMAP + i / 8), i % 8)
  }

  /** Only bit `k` of `Bit(k)` is set. */
  lemma BitBits(k: nat, j: nat)
    requires k < 8 && j < 8
    ensures HasBit(Bit(k), j) <==> j == k
  {
    assert Bit(k) == Pow2(k) by {
      if k < 4 {
        assert Pow2(0) == 1 && Pow2(1) == 2 && Pow2(2) == 4 && Pow2(3) == 8;
      } else {
        assert Pow2(4) == 16 && Pow2(5) == 32 && Pow2(6) == 64 && Pow2(7) == 128;
      }
    }
    Pow2Bits(k, j);
  }

  /** Marking sector `i` sets its bit, keeps every other sector's bit, and changes no byte
      but bit map byte `i / 8`; a byte past the end of the image is not stored. */
  lemma MarkBits(img: seq<byte>, i: nat, j: nat)
    ensures Used(Mark(img, i), j) <==> Used(img, j) || (j == i && BITMAP + i / 8 < |img|)
    ensures forall x :: x != BITMAP + i / 8 ==> At(Mark(img, i), x) == At(img, x)
  {
    var at := BITMAP + i / 8;
    var m := Mark(img, i);
    if j / 8 == i / 8 && at < |img| {
      assert At(m, at) == OrByte(At(img, at), Bit(i % 8));
      OrByteHasBit(At(img, at), Bit(i % 8), j % 8);
      BitBits(i % 8, j % 8);
    }
  }

  /** Marking sectors `lo` to `hi` sets exactly their bits (those whose byte lies in the
      image) and keeps every bit already set. */
  lemma {:induction false} MarkSectorsBits(img: seq<byte>, lo: nat, hi: int, j: nat)
    ensures Used(MarkSectors(img, lo, hi), j) <==> Used(img, j) || (lo <= j <= hi && BITMAP + j / 8 < |img|)
    decreases if hi < lo then 0 else hi - lo + 1
  {
    if lo <= hi {
      MarkBits(img, lo, j);
      MarkSectorsBits(Mark(img, lo), lo + 1, hi, j);
    }
  }

  /** Marking sectors `lo` to `hi` changes no byte outside bit map bytes `lo / 8` to
      `hi / 8`. */
  lemma {:induction false} MarkSectorsFrame(img: seq<byte>, lo: nat, hi: int, x: int)
    requires x < BITMAP + lo / 8 || BITMAP + hi / 8 < x
    ensures At(MarkSectors(img, lo, hi), x) == At(img, x)
    decreases if hi < lo then 0 else hi - lo + 1
  {
    if lo <= hi {
      MarkBits(img, lo, 0);
      MarkSectorsFrame(Mark(img, lo), lo + 1, hi, x);
    }
  }

  /** The bit map of the blank image: byte 0 is 3 (sectors 0 and 1 reserved), bytes 0xEC
      to 0xFF (sectors 1440 and beyond) are 0xFF, and the bytes between are 0 unless the
      volume name runs into them. */
  lemma BlankBitMap(name: seq<byte>)
    ensures var img := BlankImage(name);
            && At(img, BITMAP) == 3
            && (forall x :: 0xEC <= x < 0x100 ==> img[x] == 0xFF)
            && (forall x :: BITMAP < x < 0xEC && x >= |VolumeHeader(name)| ==> img[x] == 0)
  {
  }

  /** In the blank image of a volume name that stays clear of the bit map, the sectors of
      the disk marked as used are exactly sectors 0 and 1. */
  lemma BlankUsed(name: seq<byte>, j: nat)
    requires |name| <= BITMAP - 10 && j < IMAGE_SECTORS
    ensures Used(BlankImage(name), j) <==> j < 2
  {
    BlankBitMap(name);
    var img := BlankImage(name);
    if j < 8 {
      assert At(img, BITMAP + j / 8) == 3 && j % 8 == j;
      if j >= 2 {
        assert HasBit(3, j) == HasBit(1, j - 1) == HasBit(0, j - 2);
        NoBitOfZero(j - 2);
      } else {
        assert HasBit(3, 0) && HasBit(3, 1) == HasBit(1, 0);
      }
    } else {
      assert At(img, BITMAP + j / 8) == 0;
      NoBitOfZero(j % 8);
    }
  }

  // ---------------------------------------------------------------- the whole image

  /** Every file of the directory is valid. */
  predicate AllValid(files: seq<FileState>)
  {
    forall i :: 0 <= i < |files| ==> files[i].Valid()
  }

  function FileCount(files: seq<FileState>): nat
  {
    if |files| < MAX_FILES then |files| else MAX_FILES
  }

  /** File `f` placed with its data from sector `next`: its index entry, its descriptor
      record, then its data, chain pointers and bit map bits; then the next free
      sector. `None` when computing the geometry or writing the data throws. */
  function PlaceFile(img: seq<byte>, f: nat, file: FileState, next: nat): (r: Option<Placed>)
    requires file.Valid() && next >= 2
    ensures r.Some? ==> |r.value.img| == |img| && r.value.last >= next
    ensures r.Some? ==> SameBelow(img, r.value.img, BITMAP)
  {
    var fdr := (2 + f) * 256;
    var indexed := Poke(img, 256 + 2 * f, Word(2 + f));
    if GeometryThrows(file) then None
    else
      var described := Poke(indexed, fdr, DescriptorBytes(file));
      PokeBelow(img, 256 + 2 * f, Word(2 + f), BITMAP);
      PokeBelow(indexed, fdr, DescriptorBytes(file), BITMAP);
      SameBelowTrans(img, indexed, described, BITMAP);
      var r := PlaceData(described, fdr, file, next);
      if r.Some? then SameBelowTrans(img, described, r.value.img, BITMAP); r else r
  }

  /** The data of a file whose descriptor record is at `fdr`, written from sector `next`,
      then its chain pointers and its bit map bits; then the next free sector. */
  function PlaceData(img: seq<byte>, fdr: int, file: FileState, next: nat): (r: Option<Placed>)
    requires file.Valid() && fdr >= 256 && next >= 2
    ensures r.Some? ==> |r.value.img| == |img| && r.value.last >= next
    ensures r.Some? ==> SameBelow(img, r.value.img, BITMAP)
  {
    match DataLayout(img, file, next)
    case None => None
    case Some(d) =>
      var chained := Poke(d.img, fdr + CHAIN, ChainBytes(next, d.last - next));
      PlaceDataBelow(img, fdr, file, next, d.img, d.last);
      Some(Placed(MarkSectors(chained, next, d.last), d.last + 1))
  }

  /** The first `k` files placed; `last` is then the next free sector. */
  function PlaceFiles(img: seq<byte>, files: seq<FileState>, k: nat): (r: Option<Placed>)
    requires AllValid(files) && k <= FileCount(files)
    ensures r.Some? ==> |r.value.img| == |img| && r.value.last >= 2 + FileCount(files)
    ensures r.Some? ==> SameBelow(img, r.value.img, BITMAP)
  {
    if k == 0 then Some(Placed(img, 2 + FileCount(files)))
    else match PlaceFiles(img, files, k - 1)
      case None => None
      case Some(p) =>
        var r := PlaceFile(p.img, k - 1, files[k - 1], p.last);
        if r.Some? then SameBelowTrans(img, p.img, r.value.img, BITMAP); r else r
  }

  /** What `getTIDiskImage` returns for a volume `name` holding `files`, or `None` when
      it throws. */
  function DiskImageBytes(name: seq<byte>, files: seq<FileState>): (r: Option<seq<byte>>)
    requires AllValid(files)
    ensures r.Some? ==> |r.value| == IMAGE_SIZE
  {
    match PlaceFiles(BlankImage(name), files, FileCount(files))
    case None => None
    case Some(p) => Some(p.img)
  }

  /** `readSector`: the 256 bytes of sector `s`; bytes outside the image read as 0. */
  function SectorBytes(img: seq<byte>, s: int): (r: seq<byte>)
    ensures |r| == 256
  {
    Peek(img, 256 * s, 256)
  }

  // ---------------------------------------------------------------- frames

  /** The bytes of `a` below offset `lo`. */
  function Below(a: seq<byte>, lo: int): (r: seq<byte>)
    ensures |r| == if lo <= 0 then 0 else if lo < |a| then lo else |a|
  {
    if lo <= 0 then [] else if lo < |a| then a[..lo] else a
  }

  /** `b` has the length of `a` and agrees with it below offset `lo`. */
  predicate SameBelow(a: seq<byte>, b: seq<byte>, lo: int)
  {
    |a| == |b| && Below(a, lo) == Below(b, lo)
  }

  /** Agreeing below `lo`, byte by byte. */
  lemma SameBelowAt(a: seq<byte>, b: seq<byte>, lo: int, i: int)
    requires SameBelow(a, b, lo) && 0 <= i < lo
    ensures At(a, i) == At(b, i)
  {
    if i < |a| {
      assert At(a, i) == Below(a, lo)[i];
      assert At(b, i) == Below(b, lo)[i];
    }
  }

  // ---------------------------------------------------------------- when it throws

  /** A data file with a hole in its record array: its records cannot all be read. */
  predicate Unwritable(f: FileState)
  {
    f.IsData() && !NoHoles(f.records)
  }

  lemma {:induction false} FixedLayoutThrows(img: seq<byte>, start: int, rs: Slots, rps: nat)
    ensures FixedLayout(img, start, rs, rps).None? <==> !NoHoles(rs)
    decreases |rs|
  {
    if rs != [] {
      var init := rs[..|rs| - 1];
      FixedLayoutThrows(img, start, init, rps);
      assert NoHoles(rs) <==> NoHoles(init) && rs[|rs| - 1].Some? by {
        assert forall i :: 0 <= i < |init| ==> init[i] == rs[i];
      }
    }
  }

  lemma {:induction false} VariableLayoutThrows(img: seq<byte>, start: int, rs: Slots)
    ensures VariableLayout(img, start, rs).None? <==> !NoHoles(rs)
    decreases |rs|
  {
    if rs != [] {
      var init := rs[..|rs| - 1];
      VariableLayoutThrows(img, start, init);
      assert NoHoles(rs) <==> NoHoles(init) && rs[|rs| - 1].Some? by {
        assert forall i :: 0 <= i < |init| ==> init[i] == rs[i];
      }
    }
  }

  /** Placing a file throws exactly when it is a data file with a hole: a variable-record
      file already while its geometry is computed, a fixed-record file while its data is
      written. */
  lemma PlaceFileThrows(img: seq<byte>, f: nat, file: FileState, next: nat)
    requires file.Valid() && next >= 2
    ensures PlaceFile(img, f, file, next).None? <==> Unwritable(file)
  {
    if !GeometryThrows(file) {
      var indexed := Poke(img, 256 + 2 * f, Word(2 + f));
      var described := Poke(indexed, (2 + f) * 256, DescriptorBytes(file));
      FixedLayoutThrows(described, next, file.records, RecordsPerSector(file.recordLength));
      VariableLayoutThrows(described, next, file.records);
    }
  }

  /** One of the first `k` files is unwritable. */
  predicate AnyUnwritable(files: seq<FileState>, k: nat)
    requires k <= |files|
  {
    k > 0 && (AnyUnwritable(files, k - 1) || Unwritable(files[k - 1]))
  }

  lemma {:induction false} AnyUnwritableExists(files: seq<FileState>, k: nat)
    requires k <= |files|
    ensures AnyUnwritable(files, k) <==> exists f :: 0 <= f < k && Unwritable(files[f])
  {
    if k > 0 {
      AnyUnwritableExists(files, k - 1);
    }
  }

  /** An unwritable file among the first `k` is among the first `k'` for `k <= k'`. */
  lemma {:induction false} AnyUnwritableGrows(files: seq<FileState>, k: nat, k': nat)
    requires k <= k' <= |files| && AnyUnwritable(files, k)
    ensures AnyUnwritable(files, k')
    decreases k' - k
  {
    if k < k' {
      AnyUnwritableGrows(files, k, k' - 1);
    }
  }

  lemma {:induction false} PlaceFilesThrows(img: seq<byte>, files: seq<FileState>, k: nat)
    requires AllValid(files) && k <= FileCount(files)
    ensures PlaceFiles(img, files, k).None? <==> AnyUnwritable(files, k)
  {
    if k > 0 {
      PlaceFilesThrows(img, files, k - 1);
      match PlaceFiles(img, files, k - 1)
      case None =>
      case Some(p) =>
        PlaceFileThrows(p.img, k - 1, files[k - 1], p.last);
    }
  }

  /** Once placing throws, placing all the files throws too. */
  lemma PlaceFilesThrowsLater(img: seq<byte>, files: seq<FileState>, k: nat)
    requires AllValid(files) && k <= FileCount(files) && PlaceFiles(img, files, k).None?
    ensures PlaceFiles(img, files, FileCount(files)).None?
  {
    PlaceFilesThrows(img, files, k);
    AnyUnwritableGrows(files, k, FileCount(files));
    PlaceFilesThrows(img, files, FileCount(files));
  }

  // ---------------------------------------------------------------- what placing keeps

  lemma SameBelowTrans(a: seq<byte>, b: seq<byte>, c: seq<byte>, lo: int)
    requires SameBelow(a, b, lo) && SameBelow(b, c, lo)
    ensures SameBelow(a, c, lo)
  {
  }

  lemma SameBelowLower(a: seq<byte>, b: seq<byte>, lo: int, lo': int)
    requires SameBelow(a, b, lo) && lo' <= lo
    ensures SameBelow(a, b, lo')
  {
    forall i | 0 <= i < |Below(a, lo')|
      ensures Below(a, lo')[i] == Below(b, lo')[i]
    {
      assert Below(a, lo')[i] == Below(a, lo)[i];
      assert Below(b, lo')[i] == Below(b, lo)[i];
    }
  }

  lemma PokeBelow(img: seq<byte>, addr: int, bs: seq<byte>, lo: int)
    requires lo <= addr
    ensures SameBelow(img, Poke(img, addr, bs), lo)
  {
    var poked := Poke(img, addr, bs);
    forall i | 0 <= i < |Below(img, lo)|
      ensures Below(img, lo)[i] == Below(poked, lo)[i]
    {
      assert Below(img, lo)[i] == img[i];
      assert Below(poked, lo)[i] == poked[i];
    }
  }

  /** Fixed records are written only from their first sector on. */
  lemma {:induction false} FixedLayoutBelow(img: seq<byte>, start: int, rs: Slots, rps: nat)
    requires FixedLayout(img, start, rs, rps).Some?
    ensures SameBelow(img, FixedLayout(img, start, rs, rps).value.img, start * 256)
    decreases |rs|
  {
    if rs != [] {
      var init := rs[..|rs| - 1];
      FixedLayoutBelow(img, start, init, rps);
      var p := FixedLayout(img, start, init, rps).value;
      var data := rs[|rs| - 1].value.data;
      PokeBelow(p.img, p.n, data, start * 256);
      SameBelowTrans(img, p.img, FixedStep(p, data, rps).img, start * 256);
    }
  }

  /** Variable records are written only from their first sector on. */
  lemma {:induction false} VariableLayoutBelow(img: seq<byte>, start: int, rs: Slots)
    requires VariableLayout(img, start, rs).Some?
    ensures SameBelow(img, VariableLayout(img, start, rs).value.img, start * 256)
    decreases |rs|
  {
    if rs != [] {
      var init := rs[..|rs| - 1];
      VariableLayoutBelow(img, start, init);
      var p := VariableLayout(img, start, init).value;
      var data := rs[|rs| - 1].value.data;
      var n := if 256 <= |data| then (p.sectorNo + 1) * 256 else p.n;
      PokeBelow(p.img, n, [|data| % 256] + data, start * 256);
      SameBelowTrans(img, p.img, VariableStep(p, data).img, start * 256);
    }
  }

  /** A file's data is written only from its first sector on. */
  lemma DataLayoutBelow(img: seq<byte>, f: FileState, start: int)
    requires DataLayout(img, f, start).Some?
    ensures SameBelow(img, DataLayout(img, f, start).value.img, start * 256)
  {
    if f.IsFixed() {
      FixedLayoutBelow(img, start, f.records, RecordsPerSector(f.recordLength));
    } else if f.IsData() {
      VariableLayoutBelow(img, start, f.records);
      var p := VariableLayout(img, start, f.records).value;
      PokeBelow(p.img, p.n, [0xFF], start * 256);
      SameBelowTrans(img, p.img, Poke(p.img, p.n, [0xFF]), start * 256);
    } else {
      PokeBelow(img, start * 256, f.program, start * 256);
    }
  }

  /** Writing a file's chain pointers into its descriptor record and marking its sectors
      keeps the volume information block. */
  lemma ChainMarkBelow(laid: seq<byte>, fdr: int, next: nat, last: int)
    requires fdr >= 256
    ensures SameBelow(laid, MarkSectors(Poke(laid, fdr + CHAIN, ChainBytes(next, last - next)), next, last), BITMAP)
  {
    var chained := Poke(laid, fdr + CHAIN, ChainBytes(next, last - next));
    PokeBelow(laid, fdr + CHAIN, ChainBytes(next, last - next), BITMAP);
    MarkSectorsBelow(chained, next, last);
    SameBelowTrans(laid, chained, MarkSectors(chained, next, last), BITMAP);
  }

  /** Placing a file's data, chain pointers and bit map bits keeps the volume
      information block. */
  lemma PlaceDataBelow(img: seq<byte>, fdr: int, file: FileState, next: nat, laid: seq<byte>, last: int)
    requires file.Valid() && fdr >= 256 && next >= 2
    requires DataLayout(img, file, next) == Some(Placed(laid, last))
    ensures SameBelow(img, MarkSectors(Poke(laid, fdr + CHAIN, ChainBytes(next, last - next)), next, last), BITMAP)
  {
    DataLayoutBelow(img, file, next);
    SameBelowLower(img, laid, next * 256, BITMAP);
    ChainMarkBelow(laid, fdr, next, last);
    SameBelowTrans(img, laid, MarkSectors(Poke(laid, fdr + CHAIN, ChainBytes(next, last - next)), next, last), BITMAP);
  }

  // ---------------------------------------------------------------- one step at a time

  lemma PlaceDataThrows(img: seq<byte>, fdr: int, file: FileState, next: nat)
    requires file.Valid() && fdr >= 256 && next >= 2
    ensures PlaceData(img, fdr, file, next).None? <==> DataLayout(img, file, next).None?
  {
  }

  lemma PlaceDataStep(img: seq<byte>, fdr: int, file: FileState, next: nat, laid: seq<byte>, last: int)
    requires file.Valid() && fdr >= 256 && next >= 2
    requires DataLayout(img, file, next) == Some(Placed(laid, last))
    ensures PlaceData(img, fdr, file, next).Some?
    ensures PlaceData(img, fdr, file, next).value.img
            == MarkSectors(Poke(laid, fdr + CHAIN, ChainBytes(next, last - next)), next, last)
    ensures PlaceData(img, fdr, file, next).value.last == last + 1
  {
    PlaceDataImage(img, fdr, file, next, laid, last);
  }

  lemma PlaceDataImage(img: seq<byte>, fdr: int, file: FileState, next: nat, laid: seq<byte>, last: int)
    requires file.Valid() && fdr >= 256 && next >= 2
    requires DataLayout(img, file, next) == Some(Placed(laid, last))
    ensures PlaceData(img, fdr, file, next).value.img
            == MarkSectors(Poke(laid, fdr + CHAIN, ChainBytes(next, last - next)), next, last)
  {
  }

  lemma PlaceFilesStep(img: seq<byte>, files: seq<FileState>, k: nat)
    requires AllValid(files) && k < FileCount(files) && PlaceFiles(img, files, k).Some?
    ensures var p := PlaceFiles(img, files, k).value;
            PlaceFiles(img, files, k + 1) == PlaceFile(p.img, k, files[k], p.last)
  {
  }

  /** `getTIDiskImage` throws exactly when one of the files it writes (the first 127) is a
      data file with a hole. */
  lemma ImageThrows(name: seq<byte>, files: seq<FileState>)
    requires AllValid(files)
    ensures DiskImageBytes(name, files).None? <==> exists f :: 0 <= f < FileCount(files) && Unwritable(files[f])
  {
    PlaceFilesThrows(BlankImage(name), files, FileCount(files));
    AnyUnwritableExists(files, FileCount(files));
  }

  // ---------------------------------------------------------------- bit map

  /** Placing one file marks exactly its data sectors, from `next` up to the next free
      sector; its index entry and descriptor record lie past the bit map. */
  lemma PlaceFileBits(img: seq<byte>, f: nat, file: FileState, next: nat, j: nat)
    requires file.Valid() && next >= 2 && |img| == IMAGE_SIZE && j < IMAGE_SECTORS
    requires PlaceFile(img, f, file, next).Some?
    ensures Used(PlaceFile(img, f, file, next).value.img, j) <==> Used(img, j) || next <= j < PlaceFile(img, f, file, next).value.last
  {
    var described := Poke(Poke(img, 256 + 2 * f, Word(2 + f)), (2 + f) * 256, DescriptorBytes(file));
    DescribedBelow(img, f, file);
    PlaceFileData(img, f, file, next);
    PlaceDataBits(img, described, (2 + f) * 256, file, next, j);
  }

  /** Once its index entry and descriptor record are written, a file is placed by placing
      its data. */
  lemma PlaceFileData(img: seq<byte>, f: nat, file: FileState, next: nat)
    requires file.Valid() && next >= 2 && !GeometryThrows(file)
    ensures PlaceFile(img, f, file, next)
            == PlaceData(Poke(Poke(img, 256 + 2 * f, Word(2 + f)), (2 + f) * 256, DescriptorBytes(file)), (2 + f) * 256, file, next)
  {
  }

  /** The index entry and descriptor record of file `f` lie past the bit map. */
  lemma DescribedBelow(img: seq<byte>, f: nat, file: FileState)
    requires file.Valid() && !GeometryThrows(file)
    ensures SameBelow(img, Poke(Poke(img, 256 + 2 * f, Word(2 + f)), (2 + f) * 256, DescriptorBytes(file)), 256)
  {
    var indexed := Poke(img, 256 + 2 * f, Word(2 + f));
    PokeBelow(img, 256 + 2 * f, Word(2 + f), 256);
    PokeBelow(indexed, (2 + f) * 256, DescriptorBytes(file), 256);
    SameBelowTrans(img, indexed, Poke(indexed, (2 + f) * 256, DescriptorBytes(file)), 256);
  }

  /** Placing a file's data into `described`, which agrees with `img` below sector 1,
      leaves every bit of `img` and marks the data sectors. */
  lemma PlaceDataBits(img: seq<byte>, described: seq<byte>, fdr: int, file: FileState, next: nat, j: nat)
    requires file.Valid() && fdr >= 256 && next >= 2 && |img| == IMAGE_SIZE && j < IMAGE_SECTORS
    requires SameBelow(img, described, 256) && PlaceData(described, fdr, file, next).Some?
    ensures Used(PlaceData(described, fdr, file, next).value.img, j)
            <==> Used(img, j) || next <= j < PlaceData(described, fdr, file, next).value.last
  {
    PlaceDataThrows(described, fdr, file, next);
    var d := DataLayout(described, file, next).value;
    DataLayoutBelow(described, file, next);
    LaidBits(img, described, d.img, fdr, next, d.last, j);
    PlaceDataStep(described, fdr, file, next, d.img, d.last);
  }

  /** Data laid out from sector `next` into `described`, which agrees with `img` below
      sector 1, then its chain pointers and bits, change no bit but those of `next` to
      `last`. */
  lemma LaidBits(img: seq<byte>, described: seq<byte>, laid: seq<byte>, fdr: int, next: nat, last: int, j: nat)
    requires fdr >= 256 && next >= 2 && |img| == IMAGE_SIZE && j < IMAGE_SECTORS
    requires SameBelow(img, described, 256) && SameBelow(described, laid, next * 256)
    ensures Used(MarkSectors(Poke(laid, fdr + CHAIN, ChainBytes(next, last - next)), next, last), j)
            <==> Used(img, j) || next <= j <= last
  {
    var chained := Poke(laid, fdr + CHAIN, ChainBytes(next, last - next));
    SameBelowLower(described, laid, next * 256, 256);
    PokeBelow(laid, fdr + CHAIN, ChainBytes(next, last - next), 256);
    SameBelowTrans(img, described, laid, 256);
    SameBelowTrans(img, laid, chained, 256);
    SameBelowAt(img, chained, 256, BITMAP + j / 8);
    MarkSectorsBits(chained, next, last, j);
  }

  /** Placing the first `k` files marks exactly the sectors from the first data sector
      `2 + FileCount(files)` up to the next free sector. */
  lemma {:induction false} PlaceFilesBits(img: seq<byte>, files: seq<FileState>, k: nat, j: nat)
    requires AllValid(files) && k <= FileCount(files) && |img| == IMAGE_SIZE && j < IMAGE_SECTORS
    requires PlaceFiles(img, files, k).Some?
    ensures Used(PlaceFiles(img, files, k).value.img, j)
            <==> Used(img, j) || 2 + FileCount(files) <= j < PlaceFiles(img, files, k).value.last
  {
    if k > 0 {
      var p := PlaceFiles(img, files, k - 1).value;
      PlaceFilesBits(img, files, k - 1, j);
      PlaceFileBits(p.img, k - 1, files[k - 1], p.last, j);
    }
  }

  /** The bit map of a synthesised image: of the disk's 1440 sectors, those marked as used
      are sectors 0 and 1 and the data sectors, from the first after the descriptor records
      up to the next free sector. The descriptor sectors 2 to `1 + FileCount(files)` are
      not marked. */
  lemma DiskImageBits(name: seq<byte>, files: seq<FileState>, j: nat)
    requires AllValid(files) && |name| <= BITMAP - 10 && j < IMAGE_SECTORS
    requires DiskImageBytes(name, files).Some?
    ensures Used(DiskImageBytes(name, files).value, j)
            <==> j < 2 || 2 + FileCount(files) <= j < PlaceFiles(BlankImage(name), files, FileCount(files)).value.last
  {
    PlaceFilesBits(BlankImage(name), files, FileCount(files), j);
    BlankUsed(name, j);
  }

  // ---------------------------------------------------------------- read back

  /** The blank image starts with the volume header. */
  lemma BlankHeader(name: seq<byte>)
    requires |name| <= 10
    ensures Peek(BlankImage(name), 0, 20) == VolumeHeader(name)
  {
  }

  /** A name padded to 10 characters reads back, trimmed, as the name trimmed. */
  lemma PaddedNameReadBack(buf: seq<byte>, at: int, name: seq<byte>)
    requires |name| <= 10 && Peek(buf, at, 10) == PadRight(name, SPACE, 10)
    ensures Trim(Peek(buf, at, 10)) == Trim(name)
  {
    TrimPadded(name, 10);
  }

  /** A volume header read back by the flat-image reader: the name trimmed and 1440
      sectors. */
  lemma HeaderReadBack(img: seq<byte>, name: seq<byte>)
    requires |name| <= 10 && Peek(img, 0, 20) == VolumeHeader(name)
    ensures VolumeName(img) == Trim(name) && TotalSectors(img) == IMAGE_SECTORS
  {
    var h := VolumeHeader(name);
    var p := Peek(img, 0, 20);
    assert h[10] == 5 && h[11] == 160;
    assert At(img, 0x0A) == p[10] && At(img, 0x0B) == p[11];
    assert Peek(img, 0, 10) == p[..10] == h[..10] == PadRight(name, SPACE, 10);
    PaddedNameReadBack(img, 0, name);
  }

  /** The volume information block survives every file placed, and the flat-image reader
      finds the volume name and the sector count in it. */
  lemma VolumeReadBack(name: seq<byte>, files: seq<FileState>)
    requires AllValid(files) && |name| <= 10 && DiskImageBytes(name, files).Some?
    ensures var img := DiskImageBytes(name, files).value;
            && Peek(img, 0, 20) == VolumeHeader(name)
            && VolumeName(img) == Trim(name)
            && TotalSectors(img) == IMAGE_SECTORS
  {
    var blank := BlankImage(name);
    var img := DiskImageBytes(name, files).value;
    BlankHeader(name);
    forall i | 0 <= i < 20
      ensures Peek(img, 0, 20)[i] == Peek(blank, 0, 20)[i]
    {
      SameBelowAt(blank, img, BITMAP, i);
    }
    assert Peek(img, 0, 20) == Peek(blank, 0, 20);
    HeaderReadBack(img, name);
  }

  lemma SectorsField(buf: seq<byte>, fdr: nat, name: seq<byte>, flags: byte, perSector: byte, sectors: int, eof: byte, recordLength: byte, count: int)
    requires |name| <= 10 && Peek(buf, fdr, 20) == DescriptorFields(name, flags, perSector, sectors, eof, recordLength, count)
    ensures WordAt(buf, fdr + 0x0E) == sectors % 0x10000
  {
    var d := DescriptorFields(name, flags, perSector, sectors, eof, recordLength, count);
    var p := Peek(buf, fdr, 20);
    assert d[14..16] == Word(sectors);
    WordValue(sectors);
    assert At(buf, fdr + 0x0E) == p[14] && At(buf, fdr + 0x0F) == p[15];
  }

  lemma ByteFields(buf: seq<byte>, fdr: nat, name: seq<byte>, flags: byte, perSector: byte, sectors: int, eof: byte, recordLength: byte, count: int)
    requires |name| <= 10 && Peek(buf, fdr, 20) == DescriptorFields(name, flags, perSector, sectors, eof, recordLength, count)
    ensures At(buf, fdr + 0x0C) == flags && At(buf, fdr + 0x0D) == perSector
    ensures At(buf, fdr + 0x10) == eof && At(buf, fdr + 0x11) == recordLength
    ensures Peek(buf, fdr, 10) == PadRight(name, SPACE, 10)
  {
    var p := Peek(buf, fdr, 20);
    assert At(buf, fdr + 0x0C) == p[12] && At(buf, fdr + 0x0D) == p[13];
    assert At(buf, fdr + 0x10) == p[16] && At(buf, fdr + 0x11) == p[17];
    assert Peek(buf, fdr, 10) == p[..10];
  }

  /** Descriptor fields read back by the flat-image reader: the trimmed name and every
      field, the sector count modulo 2^16. */
  lemma FieldsReadBack(buf: seq<byte>, fdr: nat, name: seq<byte>, flags: byte, perSector: byte, sectors: int, eof: byte, recordLength: byte, count: int)
    requires |name| <= 10 && Peek(buf, fdr, 20) == DescriptorFields(name, flags, perSector, sectors, eof, recordLength, count)
    ensures ReadDescriptor(buf, fdr) == Descriptor(Trim(name), flags, perSector, sectors % 0x10000, eof, recordLength)
  {
    SectorsField(buf, fdr, name, flags, perSector, sectors, eof, recordLength, count);
    ByteFields(buf, fdr, name, flags, perSector, sectors, eof, recordLength, count);
    PaddedNameReadBack(buf, fdr, name);
  }

  /** The descriptor record as the flat-image reader reads it back: the trimmed name, the
      flags, records per sector, sectors modulo 2^16, end-of-file offset and record
      length bytes. */
  lemma DescriptorReadBack(img: seq<byte>, fdr: nat, f: FileState)
    requires f.Valid() && !GeometryThrows(f) && |f.name| <= 10 && fdr + 20 <= |img|
    ensures ReadDescriptor(Poke(img, fdr, DescriptorBytes(f)), fdr)
            == Descriptor(Trim(f.name), FlagsByte(f), PerSectorByte(f), SectorCount(f) % 0x10000,
                          EOFOffset(f) % 256, LengthByte(f))
  {
    var d := DescriptorBytes(f);
    PeekPoke(img, fdr, d);
    FieldsReadBack(Poke(img, fdr, d), fdr, f.name, FlagsByte(f), PerSectorByte(f), SectorCount(f), EOFOffset(f) % 256,
                   LengthByte(f), if f.IsFixed() then |f.records| else 0);
  }

  /** The flags and record length bytes carry a file's attributes: decoded as the loaders
      decode them they give the file type, record type, datatype and, except for a
      variable-record file, the record length back. */
  lemma FlagsRoundTrip(f: FileState)
    requires f.Valid()
    ensures FlagAttributes(FlagsByte(f), LengthByte(f))
            == (f.fileType, f.recordType, if f.IsVariable() then 0 else f.recordLength, f.dataType)
  {
  }

  /** A word below 256 is a zero byte followed by the value. */
  lemma SmallWord(x: int)
    requires 0 <= x < 256
    ensures Word(x) == [0, x]
  {
  }

  /** The chain bytes spelt out: the low start byte, then the two word fields. */
  lemma ChainBytesShape(start: int, offset: int)
    ensures var x := (offset % 16) * 16 + (start % 4096) / 256;
            ChainBytes(start, offset) == [start % 256, 0, x, 0, (offset % 4096) / 16]
  {
    SmallWord((offset % 16) * 16 + (start % 4096) / 256);
    SmallWord((offset % 4096) / 16);
  }

  lemma ChainFields(buf: seq<byte>, fdr: nat, a: byte, x: byte, y: byte)
    requires Peek(buf, fdr + CHAIN, 5) == [a, 0, x, 0, y]
    ensures ChainAt(buf, fdr, 0) == (a, x * 16)
  {
    var p := Peek(buf, fdr + CHAIN, 5);
    assert At(buf, fdr + CHAIN) == p[0];
    assert At(buf, fdr + CHAIN + 1) == p[1];
    assert At(buf, fdr + CHAIN + 2) == p[2];
  }

  /** What the flat-image reader finds in the first chain pointer written for a file whose
      data starts at sector `start` and ends `offset` sectors later. */
  lemma ChainReadBack(img: seq<byte>, fdr: nat, start: int, offset: int)
    requires fdr + CHAIN + 5 <= |img|
    ensures ChainAt(Poke(img, fdr + CHAIN, ChainBytes(start, offset)), fdr, 0)
            == (start % 256, ((offset % 16) * 16 + (start % 4096) / 256) * 16)
  {
    var bytes := ChainBytes(start, offset);
    ChainBytesShape(start, offset);
    PeekPoke(img, fdr + CHAIN, bytes);
    ChainFields(Poke(img, fdr + CHAIN, bytes), fdr, bytes[0], bytes[2], bytes[4]);
  }

  /** The chain pointer reads back as the run written only for a file of one sector that
      starts below sector 256. */
  lemma ChainMisread(img: seq<byte>, fdr: nat, start: nat, offset: nat)
    requires fdr + CHAIN + 5 <= |img| && start < 4096 && offset < 4096
    ensures ChainAt(Poke(img, fdr + CHAIN, ChainBytes(start, offset)), fdr, 0) == (start, offset)
            <==> start < 256 && offset == 0
  {
    ChainReadBack(img, fdr, start, offset);
    ChainPairMisread(start, offset);
  }

  /** The arithmetic of `ChainMisread`: the run decoded from the chain bytes equals the
      run encoded only for a first sector below 256 and no further sectors. */
  lemma ChainPairMisread(start: nat, offset: nat)
    requires start < 4096 && offset < 4096
    ensures (start % 256, ((offset % 16) * 16 + (start % 4096) / 256) * 16) == (start, offset)
            <==> start < 256 && offset == 0
  {
    assert start % 4096 == start;
    var r := offset % 16;
    if start % 256 == start && (r * 16 + start / 256) * 16 == offset {
      assert start < 256;
      assert start / 256 == 0;
      DivModUnique(offset, 16, 16 * r, 0);
    }
  }

  // ---------------------------------------------------------------- data sectors

  /** One more record either fills the sector or adds one to the count in it. */
  lemma DivModStep(k: nat, d: nat)
    requires d >= 1
    ensures k % d + 1 == d ==> (k + 1) / d == k / d + 1 && (k + 1) % d == 0
    ensures k % d + 1 != d ==> (k + 1) / d == k / d && (k + 1) % d == k % d + 1
  {
    var q, r := k / d, k % d;
    if r + 1 == d {
      DivModUnique(k + 1, d, q + 1, 0);
    } else {
      DivModUnique(k + 1, d, q, r + 1);
    }
  }

  /** After `k` fixed records the writer is in sector `start + k / rps` with `k % rps`
      records in it; with no limit it stays in sector `start`. */
  lemma {:induction false} FixedLayoutCounts(img: seq<byte>, start: int, rs: Slots, rps: nat)
    requires FixedLayout(img, start, rs, rps).Some?
    ensures var p := FixedLayout(img, start, rs, rps).value;
            if rps == 0 then p.sectorNo == start && p.recCnt == |rs|
            else p.sectorNo == start + |rs| / rps && p.recCnt == |rs| % rps
    decreases |rs|
  {
    if rs != [] {
      FixedLayoutCounts(img, start, rs[..|rs| - 1], rps);
      if rps > 0 {
        DivModStep(|rs| - 1, rps);
      }
    }
  }

  /** A fixed-record or program file's data ends in the sector its sector count names. */
  lemma DataEnd(img: seq<byte>, f: FileState, start: int)
    requires f.Valid() && !f.IsVariable() && DataLayout(img, f, start).Some?
    ensures DataLayout(img, f, start).value.last == start + SectorCount(f) - 1
  {
    if f.IsFixed() {
      FixedLayoutCounts(img, start, f.records, RecordsPerSector(f.recordLength));
    }
  }

  /** A program is stored in one piece from its first sector. */
  lemma ProgramReadBack(img: seq<byte>, f: FileState, start: nat)
    requires f.Valid() && !f.IsData() && start * 256 + |f.program| <= |img|
    ensures DataLayout(img, f, start).Some?
    ensures Peek(DataLayout(img, f, start).value.img, start * 256, |f.program|) == f.program
  {
    PeekPoke(img, start * 256, f.program);
  }

  /** Variable records shorter than 256 bytes are written back to back from the first
      sector, without ever moving to a next sector. */
  lemma {:induction false} VariableLayoutShort(img: seq<byte>, start: int, rs: seq<Record>)
    requires forall i :: 0 <= i < |rs| ==> |rs[i].data| < 256
    ensures Fits(rs)
    ensures VariableLayout(img, start, Somes(rs))
            == Some(Pen(Poke(img, start * 256, Frame(rs)), start * 256 + |Frame(rs)|, start, 0))
    decreases |rs|
  {
    if rs == [] {
      assert Somes(rs) == [] && Frame(rs) == [];
      assert Poke(img, start * 256, []) == img;
      assert VariableLayout(img, start, Somes(rs)) == Some(Pen(img, start * 256, start, 0))
             == Some(Pen(Poke(img, start * 256, Frame(rs)), start * 256 + |Frame(rs)|, start, 0));
    } else {
      var init, r := rs[..|rs| - 1], rs[|rs| - 1];
      VariableLayoutShort(img, start, init);
      VariableLayoutSnoc(img, start, init, r);
      assert init + [r] == rs;
      assert VariableLayout(img, start, Somes(rs))
             == Some(Pen(Poke(img, start * 256, Frame(rs)), start * 256 + |Frame(rs)|, start, 0));
    }
  }

  /** The step of `VariableLayoutShort`: one more short record. */
  lemma VariableLayoutSnoc(img: seq<byte>, start: int, init: seq<Record>, r: Record)
    requires Fits(init) && |r.data| < 256
    requires VariableLayout(img, start, Somes(init))
             == Some(Pen(Poke(img, start * 256, Frame(init)), start * 256 + |Frame(init)|, start, 0))
    ensures Fits(init + [r])
    ensures VariableLayout(img, start, Somes(init + [r]))
            == Some(Pen(Poke(img, start * 256, Frame(init + [r])), start * 256 + |Frame(init + [r])|, start, 0))
  {
    var a := start * 256;
    var rs := init + [r];
    assert Somes(rs)[..|rs| - 1] == Somes(init);
    var p := Pen(Poke(img, a, Frame(init)), a + |Frame(init)|, start, 0);
    assert VariableLayout(img, start, Somes(rs)) == Some(VariableStep(p, r.data));
    VariableStepShort(p, r.data);
    var x: seq<byte> := [|r.data|] + r.data;
    FrameSnoc(init, r);
    PokeConcat(img, a, Frame(init), x);
  }

  /** A record shorter than 256 bytes stays in the current sector. */
  lemma VariableStepShort(p: Pen, data: seq<byte>)
    requires |data| < 256
    ensures VariableStep(p, data) == Pen(Poke(p.img, p.n, [|data|] + data), p.n + 1 + |data|, p.sectorNo, 0)
  {
  }

  /** A variable-record file of records shorter than 256 bytes takes no sector of its
      own: the next file's data starts in its first sector. */
  lemma VariableEnd(img: seq<byte>, f: FileState, start: int, rs: seq<Record>)
    requires f.Valid() && f.IsVariable() && f.records == Somes(rs)
    requires forall i :: 0 <= i < |rs| ==> |rs[i].data| < 256
    ensures DataLayout(img, f, start).Some? && DataLayout(img, f, start).value.last + 1 == start
  {
    VariableLayoutShort(img, start, rs);
  }

  /** A variable-record file of records shorter than 256 bytes is placed without marking
      any sector in the bit map, although its data fills part of sector `next`. */
  lemma VariableUnmarked(img: seq<byte>, f: nat, file: FileState, next: nat, rs: seq<Record>, j: nat)
    requires file.Valid() && file.IsVariable() && file.records == Somes(rs)
    requires forall i :: 0 <= i < |rs| ==> |rs[i].data| < 256
    requires next >= 2 && |img| == IMAGE_SIZE && j < IMAGE_SECTORS
    ensures PlaceFile(img, f, file, next).Some?
    ensures PlaceFile(img, f, file, next).value.last == next
    ensures Used(PlaceFile(img, f, file, next).value.img, j) <==> Used(img, j)
  {
    var fdr := (2 + f) * 256;
    var described := Poke(Poke(img, 256 + 2 * f, Word(2 + f)), fdr, DescriptorBytes(file));
    VariableEnd(described, file, next, rs);
    PlaceFileBits(img, f, file, next, j);
  }

  /** Variable records that fit a length byte and are not end markers, written into an
      image with room for them, scan back as the same records from the file's first
      sector. */
  lemma VariableReadBack(img: seq<byte>, f: FileState, start: nat, rs: seq<Record>)
    requires f.Valid() && f.IsVariable() && f.records == Somes(rs)
    requires Frameable(rs, false) && forall i :: 0 <= i < |rs| ==> rs[i].Variable?
    requires start * 256 + |Frame(rs)| < |img|
    ensures DataLayout(img, f, start).Some?
    ensures Scan(DataLayout(img, f, start).value.img, start * 256, false) == Some(rs)
  {
    VariableLayoutShort(img, start, rs);
    var a := start * 256;
    var fr := Frame(rs);
    PokeConcat(img, a, fr, [0xFF]);
    var out := Poke(img, a, fr + [0xFF]);
    assert DataLayout(img, f, start).value.img == out;
    assert out[a..a + |fr|] == fr;
    assert out[a + |fr|] == 0xFF;
    FrameScans(out, a, rs, false);
  }
}
