/** Flat sector images (`loadDSKFile`): sector 0 holds the volume information block,
    sector 1 the file descriptor index (one big-endian descriptor sector number per file,
    0 for none) and every file has a descriptor record (FDR) with its name, status flags,
    geometry and a list of 3-byte data chain pointers, each naming a run of sectors.

    The loader is specified here as a fold over the index entries, the chain pointers and
    the sectors of each run, in the order the loader visits them. */
module DskFormat {
  import opened Bytes
  import opened Records
  import opened Files
  import opened Directory
  import opened Framing

  const INDEX_ENTRIES := 128
  const CHAIN_ENTRIES := 0x4C
  /** Where the data chain pointers start in a descriptor record. */
  const CHAIN_OFFSET := 0x1C
  /** Above this many sectors a chain pointer counts allocation units of two sectors. */
  const HIGH_CAPACITY := 1600

  /** The volume name: the first ten bytes, trimmed. */
  function VolumeName(buf: seq<byte>): seq<byte>
  {
    Trim(Peek(buf, 0, 10))
  }

  function TotalSectors(buf: seq<byte>): nat
  {
    WordAt(buf, 0x0A)
  }

  /** Entry `k` of the file descriptor index: the sector of a descriptor record, or 0. */
  function IndexEntry(buf: seq<byte>, k: nat): nat
  {
    WordAt(buf, 0x100 + 2 * k)
  }

  datatype Descriptor = Descriptor(name: seq<byte>, flags: byte, recordsPerSector: byte, sectorsAllocated: nat, eofOffset: byte, recordLength: byte)

  /** The fields of the descriptor record at byte `fdr`. */
  function ReadDescriptor(buf: seq<byte>, fdr: nat): Descriptor
  {
    Descriptor(Trim(Peek(buf, fdr, 10)), At(buf, fdr + 0x0C), At(buf, fdr + 0x0D),
               WordAt(buf, fdr + 0x0E), At(buf, fdr + 0x10), At(buf, fdr + 0x11))
  }

  /** Chain pointer `k` of the descriptor record at `fdr`: the 12-bit first sector `m`
      (low byte, then the low nibble of the middle byte) and the 12-bit offset `n` of the
      last sector of the run within the file (high nibble of the middle byte, then the
      last byte). */
  function ChainAt(buf: seq<byte>, fdr: nat, k: nat): (mn: (nat, nat))
  {
    var p := fdr + CHAIN_OFFSET + 3 * k;
    ((At(buf, p + 1) % 16) * 0x100 + At(buf, p), At(buf, p + 2) * 16 + At(buf, p + 1) / 16)
  }

  /** Both halves of a chain pointer are 12-bit numbers. */
  lemma ChainBounds(buf: seq<byte>, fdr: nat, k: nat)
    ensures ChainAt(buf, fdr, k).0 < 4096 && ChainAt(buf, fdr, k).1 < 4096
  {
  }

  /** The first sector of a run: `m`, doubled on a disk of more than 1600 sectors. */
  function RunStart(m: nat, total: nat): nat
  {
    if total > HIGH_CAPACITY then 2 * m else m
  }

  /** The number of sectors of a run from `start` to `start + n - (nLast + 1)`, inclusive. */
  function RunLength(n: nat, nLast: int): nat
  {
    if n - nLast > 0 then n - nLast else 0
  }

  /** A chain pointer covers exactly the sectors between the previous run's last file
      offset and its own, wherever its first sector lies, and a disk above 1600 sectors
      doubles the first sector. */
  lemma RunGeometry(buf: seq<byte>, fdr: nat, k: nat, total: nat, nLast: int)
    requires nLast < ChainAt(buf, fdr, k).1
    ensures var (m, n) := ChainAt(buf, fdr, k);
            && RunLength(n, nLast) == n - nLast
            && RunStart(m, total) + RunLength(n, nLast) - 1 == RunStart(m, total) + n - (nLast + 1)
            && (total > HIGH_CAPACITY ==> RunStart(m, total) == 2 * m)
            && (total <= HIGH_CAPACITY ==> RunStart(m, total) == m)
  {
  }

  /** The loader's state while it walks a file's chain: the last run's end offset, the
      sectors still allocated (decremented before each sector) and what was read. */
  datatype Walk = Walk(nLast: int, sectorsLeft: int, records: seq<Record>, program: seq<byte>)

  /** The first `count` fixed records of a sector, `recordLength` bytes each, one after
      another from the start of the sector. */
  function FixedSector(buf: seq<byte>, sector: nat, count: nat, recordLength: nat): (rs: seq<Record>)
    ensures |rs| == count
  {
    if count == 0 then []
    else FixedSector(buf, sector, count - 1, recordLength) + [Fixed(Peek(buf, sector * 256 + (count - 1) * recordLength, recordLength))]
  }

  /** The bytes a program file takes from a sector: all 256, except for the last
      allocated sector (and any after it), which holds the end-of-file offset's worth
      unless that offset is 0. */
  function ProgramSectorBytes(sectorsLeft: int, eofOffset: byte): nat
  {
    if sectorsLeft > 0 || eofOffset == 0 then 256 else eofOffset
  }

  /** One sector of a file: fixed records, variable records scanned up to 0xFF or 0, or
      program bytes. `None` when the variable-record scan runs off the image. */
  function SectorStep(buf: seq<byte>, d: Descriptor, sector: nat, w: Walk): Option<Walk>
  {
    var left := w.sectorsLeft - 1;
    if FlagFileType(d.flags) == FILE_TYPE_DATA then
      if FlagRecordType(d.flags) == RECORD_TYPE_FIXED then
        Some(w.(sectorsLeft := left, records := w.records + FixedSector(buf, sector, d.recordsPerSector, d.recordLength)))
      else match Scan(buf, sector * 256, true)
        case None => None
        case Some(rs) => Some(w.(sectorsLeft := left, records := w.records + rs))
    else
      Some(w.(sectorsLeft := left, program := w.program + Peek(buf, sector * 256, ProgramSectorBytes(left, d.eofOffset))))
  }

  /** The sectors `start` to `start + count - 1`, in order. */
  function WalkRun(buf: seq<byte>, d: Descriptor, start: nat, count: nat, w: Walk): Option<Walk>
  {
    if count == 0 then Some(w)
    else match WalkRun(buf, d, start, count - 1, w)
      case None => None
      case Some(w') => SectorStep(buf, d, start + count - 1, w')
  }

  /** Chain pointer `k`: nothing when its first sector is 0, else its run. */
  function ChainStep(buf: seq<byte>, d: Descriptor, total: nat, fdr: nat, k: nat, w: Walk): Option<Walk>
  {
    var (m, n) := ChainAt(buf, fdr, k);
    if m == 0 then Some(w)
    else WalkRun(buf, d, RunStart(m, total), RunLength(n, w.nLast), w.(nLast := n))
  }

  /** The walk over the first `k` chain pointers. */
  function ChainWalk(buf: seq<byte>, d: Descriptor, total: nat, fdr: nat, k: nat): Option<Walk>
  {
    if k == 0 then Some(Walk(-1, d.sectorsAllocated, [], []))
    else match ChainWalk(buf, d, total, fdr, k - 1)
      case None => None
      case Some(w) => ChainStep(buf, d, total, fdr, k - 1, w)
  }

  /** The file a descriptor record describes, opened for output, filled, closed and, for a
      program, given the bytes read. */
  function LoadedFile(buf: seq<byte>, total: nat, fdr: nat): Option<FileState>
  {
    var d := ReadDescriptor(buf, fdr);
    match ChainWalk(buf, d, total, fdr, CHAIN_ENTRIES)
    case None => None
    case Some(w) =>
      var (ft, rt, rl, dt) := FlagAttributes(d.flags, d.recordLength);
      var f := WrittenFile(d.name, ft, rt, rl, dt, w.records);
      Some(if ft == FILE_TYPE_PROGRAM then f.(program := w.program) else f)
  }

  /** What index entry `k` yields: nothing when it is 0, a file, or a load that never
      returns. */
  datatype Entry = Empty | Found(file: FileState) | Stuck

  function EntryAt(buf: seq<byte>, k: nat): Entry
  {
    var s := IndexEntry(buf, k);
    if s == 0 then Empty
    else match LoadedFile(buf, TotalSectors(buf), s * 256)
      case None => Stuck
      case Some(f) => Found(f)
  }

  /** The entries of the whole file descriptor index, in order. */
  function Entries(buf: seq<byte>): (es: seq<Entry>)
    ensures |es| == INDEX_ENTRIES && forall k :: 0 <= k < INDEX_ENTRIES ==> es[k] == EntryAt(buf, k)
  {
    seq(INDEX_ENTRIES, k requires 0 <= k < INDEX_ENTRIES => EntryAt(buf, k))
  }

  /** The file list the entries build, one after another, each replacing a file of the
      same name; `None` once an entry never returns. */
  function Gather(es: seq<Entry>): Option<seq<FileState>>
  {
    if es == [] then Some([])
    else match Gather(es[..|es| - 1])
      case None => None
      case Some(fs) =>
        match es[|es| - 1]
        case Empty => Some(fs)
        case Found(f) => Some(Put(fs, f))
        case Stuck => None
  }

  /** What `loadDSKFile` leaves in the drive: the volume and its files, or `None` when a
      variable-record scan runs off the image and the loader never returns. */
  function ParseDsk(buf: seq<byte>): Option<ImageState>
  {
    match Gather(Entries(buf))
    case None => None
    case Some(fs) => Some(ImageState(VolumeName(buf), fs))
  }

  // ---------------------------------------------------------------- properties

  /** A file as a loader leaves it: closed and without holes. */
  predicate Settled(f: FileState)
  {
    f.operationMode == CLOSED && NoHoles(f.records)
  }

  /** A loaded file is valid and settled, and carries the descriptor's name and file type. */
  lemma LoadedFileShape(buf: seq<byte>, total: nat, fdr: nat)
    requires LoadedFile(buf, total, fdr).Some?
    ensures var f := LoadedFile(buf, total, fdr).value;
            && f.Valid() && Settled(f)
            && f.name == ReadDescriptor(buf, fdr).name
            && f.fileType == FlagFileType(ReadDescriptor(buf, fdr).flags)
  {
  }

  /** A file list as the loader builds it: well formed, every file settled. */
  predicate LoadedList(fs: seq<FileState>)
  {
    WellFormed(fs) && forall i :: 0 <= i < |fs| ==> Settled(fs[i])
  }

  /** Every file the entries hold is valid and settled. */
  predicate GoodEntries(es: seq<Entry>)
  {
    forall k :: 0 <= k < |es| && es[k].Found? ==> es[k].file.Valid() && Settled(es[k].file)
  }

  /** Gathering valid, settled files gives a well-formed list of settled files. */
  lemma {:induction false} GatherWellFormed(es: seq<Entry>)
    requires Gather(es).Some? && GoodEntries(es)
    ensures LoadedList(Gather(es).value)
    decreases |es|
  {
    if es != [] {
      var init := es[..|es| - 1];
      assert GoodEntries(init) by {
        assert forall k :: 0 <= k < |init| ==> init[k] == es[k];
      }
      GatherWellFormed(init);
      var fs := Gather(init).value;
      match es[|es| - 1]
      case Empty =>
      case Found(f) =>
        PutKeepsWellFormed(fs, f);
        PutEvery(fs, f, Settled);
      case Stuck =>
    }
  }

  lemma EntryGood(buf: seq<byte>, k: nat)
    requires EntryAt(buf, k).Found?
    ensures EntryAt(buf, k).file.Valid() && Settled(EntryAt(buf, k).file)
  {
    LoadedFileShape(buf, TotalSectors(buf), IndexEntry(buf, k) * 256);
  }

  lemma EntriesGood(buf: seq<byte>)
    ensures GoodEntries(Entries(buf))
  {
    var es := Entries(buf);
    forall k | 0 <= k < |es| && es[k].Found?
      ensures es[k].file.Valid() && Settled(es[k].file)
    {
      EntryGood(buf, k);
    }
  }

  /** A loaded image is well formed and holds only closed files without holes. */
  lemma ParsedWellFormed(buf: seq<byte>)
    requires ParseDsk(buf).Some?
    ensures LoadedList(ParseDsk(buf).value.files)
    ensures ParseDsk(buf).value.name == Trim(Peek(buf, 0, 10))
  {
    EntriesGood(buf);
    GatherWellFormed(Entries(buf));
  }

  // ---------------------------------------------------------------- sector accounting

  /** The end offset of the last run among the first `k` chain pointers, -1 before any. */
  function LastOffset(buf: seq<byte>, fdr: nat, k: nat): int
  {
    if k == 0 then -1
    else if ChainAt(buf, fdr, k - 1).0 == 0 then LastOffset(buf, fdr, k - 1)
    else ChainAt(buf, fdr, k - 1).1
  }

  /** Chain pointers whose runs' end offsets increase, as a well-formed chain has them. */
  predicate Increasing(buf: seq<byte>, fdr: nat, k: nat)
  {
    k == 0 || (Increasing(buf, fdr, k - 1) && (ChainAt(buf, fdr, k - 1).0 == 0 || ChainAt(buf, fdr, k - 1).1 > LastOffset(buf, fdr, k - 1)))
  }

  /** A run of `count` sectors takes `count` from the sectors left. */
  lemma {:induction false} WalkRunCount(buf: seq<byte>, d: Descriptor, start: nat, count: nat, w: Walk)
    requires WalkRun(buf, d, start, count, w).Some?
    ensures var w' := WalkRun(buf, d, start, count, w).value;
            w'.sectorsLeft == w.sectorsLeft - count && w'.nLast == w.nLast
  {
    if count > 0 {
      WalkRunCount(buf, d, start, count - 1, w);
    }
  }

  /** The sectors a chain walk visits: one more than the last run's end offset when the
      offsets increase, never fewer. */
  lemma {:induction false} ChainWalkCount(buf: seq<byte>, d: Descriptor, total: nat, fdr: nat, k: nat)
    requires ChainWalk(buf, d, total, fdr, k).Some?
    ensures var w := ChainWalk(buf, d, total, fdr, k).value;
            && w.nLast == LastOffset(buf, fdr, k)
            && d.sectorsAllocated - w.sectorsLeft >= w.nLast + 1
            && (Increasing(buf, fdr, k) ==> d.sectorsAllocated - w.sectorsLeft == w.nLast + 1)
  {
    if k > 0 {
      ChainWalkCount(buf, d, total, fdr, k - 1);
      var w := ChainWalk(buf, d, total, fdr, k - 1).value;
      var (m, n) := ChainAt(buf, fdr, k - 1);
      if m != 0 {
        WalkRunCount(buf, d, RunStart(m, total), RunLength(n, w.nLast), w.(nLast := n));
      }
    }
  }

  /** The program bytes read from the first `t` sectors of a file of `alloc` allocated sectors. */
  function ProgramBytes(alloc: nat, t: nat, eofOffset: byte): nat
  {
    if t == 0 then 0 else ProgramBytes(alloc, t - 1, eofOffset) + ProgramSectorBytes(alloc - t, eofOffset)
  }

  /** Reading all allocated sectors of a program gives the file length the descriptor
      states: whole sectors, the last one cut to the end-of-file offset unless it is 0. */
  lemma {:induction false} ProgramBytesAll(alloc: nat, eofOffset: byte)
    requires alloc > 0
    ensures ProgramBytes(alloc, alloc, eofOffset) == (alloc - 1) * 256 + (if eofOffset == 0 then 256 else eofOffset)
  {
    ProgramBytesFull(alloc, alloc - 1, eofOffset);
  }

  /** Before the last alloc sector, every sector gives 256 bytes. */
  lemma {:induction false} ProgramBytesFull(alloc: nat, t: nat, eofOffset: byte)
    requires t < alloc
    ensures ProgramBytes(alloc, t, eofOffset) == 256 * t
  {
    if t > 0 {
      ProgramBytesFull(alloc, t - 1, eofOffset);
    }
  }

  /** For a program, a run adds exactly the bytes its sectors give. */
  lemma {:induction false} WalkRunProgram(buf: seq<byte>, d: Descriptor, start: nat, count: nat, w: Walk)
    requires FlagFileType(d.flags) == FILE_TYPE_PROGRAM
    requires 0 <= d.sectorsAllocated - w.sectorsLeft && |w.program| == ProgramBytes(d.sectorsAllocated, d.sectorsAllocated - w.sectorsLeft, d.eofOffset)
    ensures WalkRun(buf, d, start, count, w).Some?
    ensures var w' := WalkRun(buf, d, start, count, w).value;
            && w'.sectorsLeft == w.sectorsLeft - count
            && |w'.program| == ProgramBytes(d.sectorsAllocated, d.sectorsAllocated - w'.sectorsLeft, d.eofOffset)
            && w'.records == w.records
  {
    if count > 0 {
      WalkRunProgram(buf, d, start, count - 1, w);
    }
  }

  /** For a program, the chain walk never stops early and reads the bytes its sectors give. */
  lemma {:induction false} ChainWalkProgram(buf: seq<byte>, d: Descriptor, total: nat, fdr: nat, k: nat)
    requires FlagFileType(d.flags) == FILE_TYPE_PROGRAM
    ensures ChainWalk(buf, d, total, fdr, k).Some?
    ensures var w := ChainWalk(buf, d, total, fdr, k).value;
            && 0 <= d.sectorsAllocated - w.sectorsLeft
            && |w.program| == ProgramBytes(d.sectorsAllocated, d.sectorsAllocated - w.sectorsLeft, d.eofOffset)
            && w.records == []
  {
    if k > 0 {
      ChainWalkProgram(buf, d, total, fdr, k - 1);
      var w := ChainWalk(buf, d, total, fdr, k - 1).value;
      var (m, n) := ChainAt(buf, fdr, k - 1);
      if m != 0 {
        WalkRunProgram(buf, d, RunStart(m, total), RunLength(n, w.nLast), w.(nLast := n));
      }
    }
  }

  /** A program whose chain walks exactly its alloc sectors loads with the length the
      descriptor states, so it reports the descriptor's own sector count and end-of-file
      offset again. */
  lemma LoadedProgram(buf: seq<byte>, total: nat, fdr: nat)
    requires var d := ReadDescriptor(buf, fdr);
             && FlagFileType(d.flags) == FILE_TYPE_PROGRAM && d.sectorsAllocated > 0
             && ChainWalk(buf, d, total, fdr, CHAIN_ENTRIES).Some?
             && ChainWalk(buf, d, total, fdr, CHAIN_ENTRIES).value.sectorsLeft == 0
    ensures LoadedFile(buf, total, fdr).Some?
    ensures var d := ReadDescriptor(buf, fdr);
            var f := LoadedFile(buf, total, fdr).value;
            && f.fileType == FILE_TYPE_PROGRAM
            && |f.program| == (d.sectorsAllocated - 1) * 256 + (if d.eofOffset == 0 then 256 else d.eofOffset)
            && SectorCount(f) == d.sectorsAllocated && EOFOffset(f) == d.eofOffset
  {
    var d := ReadDescriptor(buf, fdr);
    ChainWalkProgram(buf, d, total, fdr, CHAIN_ENTRIES);
    ProgramBytesAll(d.sectorsAllocated, d.eofOffset);
    var f := LoadedFile(buf, total, fdr).value;
    var s := d.sectorsAllocated;
    if d.eofOffset == 0 {
      assert |f.program| == s * 256;
    } else {
      assert |f.program| == (s - 1) * 256 + d.eofOffset;
    }
  }

  /** For a fixed-record file, each sector adds the descriptor's records per sector, all of
      the descriptor's record length. */
  lemma {:induction false} WalkRunFixed(buf: seq<byte>, d: Descriptor, start: nat, count: nat, w: Walk)
    requires FlagFileType(d.flags) == FILE_TYPE_DATA && FlagRecordType(d.flags) == RECORD_TYPE_FIXED
    requires AllFixed(w.records, d.recordLength)
    ensures WalkRun(buf, d, start, count, w).Some?
    ensures var w' := WalkRun(buf, d, start, count, w).value;
            && |w'.records| == |w.records| + count * d.recordsPerSector
            && AllFixed(w'.records, d.recordLength)
  {
    if count > 0 {
      WalkRunFixed(buf, d, start, count - 1, w);
      var w' := WalkRun(buf, d, start, count - 1, w).value;
      var more := FixedSector(buf, start + count - 1, d.recordsPerSector, d.recordLength);
      FixedSectorShape(buf, start + count - 1, d.recordsPerSector, d.recordLength);
      AllFixedConcat(w'.records, more, d.recordLength);
      assert (count - 1) * d.recordsPerSector + d.recordsPerSector == count * d.recordsPerSector;
    }
  }

  lemma Distribute(a: int, b: int, r: int)
    ensures a * r + b * r == (a + b) * r
  {
  }

  predicate AllFixed(rs: seq<Record>, len: nat)
  {
    forall k :: 0 <= k < |rs| ==> rs[k].Fixed? && |rs[k].data| == len
  }

  lemma AllFixedConcat(a: seq<Record>, b: seq<Record>, len: nat)
    requires AllFixed(a, len) && AllFixed(b, len)
    ensures AllFixed(a + b, len)
  {
    assert forall k :: |a| <= k < |a + b| ==> (a + b)[k] == b[k - |a|];
  }

  lemma {:induction false} FixedSectorShape(buf: seq<byte>, sector: nat, count: nat, len: nat)
    ensures AllFixed(FixedSector(buf, sector, count, len), len)
  {
    if count > 0 {
      FixedSectorShape(buf, sector, count - 1, len);
      AllFixedConcat(FixedSector(buf, sector, count - 1, len), [Fixed(Peek(buf, sector * 256 + (count - 1) * len, len))], len);
    }
  }

  /** A fixed-record file loads with the descriptor's records per sector for every sector
      its chain walks, all of the descriptor's record length. */
  lemma {:induction false} ChainWalkFixed(buf: seq<byte>, d: Descriptor, total: nat, fdr: nat, k: nat)
    requires FlagFileType(d.flags) == FILE_TYPE_DATA && FlagRecordType(d.flags) == RECORD_TYPE_FIXED
    ensures ChainWalk(buf, d, total, fdr, k).Some?
    ensures var w := ChainWalk(buf, d, total, fdr, k).value;
            && |w.records| == (d.sectorsAllocated - w.sectorsLeft) * d.recordsPerSector
            && AllFixed(w.records, d.recordLength)
  {
    if k > 0 {
      ChainWalkFixed(buf, d, total, fdr, k - 1);
      var w := ChainWalk(buf, d, total, fdr, k - 1).value;
      var (m, n) := ChainAt(buf, fdr, k - 1);
      if m != 0 {
        var c := RunLength(n, w.nLast);
        WalkRunFixed(buf, d, RunStart(m, total), c, w.(nLast := n));
        WalkRunCount(buf, d, RunStart(m, total), c, w.(nLast := n));
        var w' := ChainWalk(buf, d, total, fdr, k).value;
        assert d.sectorsAllocated - w'.sectorsLeft == (d.sectorsAllocated - w.sectorsLeft) + c;
        Distribute(d.sectorsAllocated - w.sectorsLeft, c, d.recordsPerSector);
      }
    }
  }

  /** Variable records read from an image are never empty and shorter than 255 bytes: a
      length byte of 0 or 0xFF ends a sector. */
  lemma {:induction false} WalkRunVariable(buf: seq<byte>, d: Descriptor, start: nat, count: nat, w: Walk)
    requires FlagFileType(d.flags) == FILE_TYPE_DATA && FlagRecordType(d.flags) != RECORD_TYPE_FIXED
    requires WalkRun(buf, d, start, count, w).Some?
    requires Frameable(w.records, true) && forall k :: 0 <= k < |w.records| ==> w.records[k].Variable?
    ensures var rs := WalkRun(buf, d, start, count, w).value.records;
            Frameable(rs, true) && forall k :: 0 <= k < |rs| ==> rs[k].Variable?
  {
    if count > 0 {
      WalkRunVariable(buf, d, start, count - 1, w);
      var w' := WalkRun(buf, d, start, count - 1, w).value;
      var sector := start + count - 1;
      ScanRecords(buf, sector * 256, true);
      var more := Scan(buf, sector * 256, true).value;
      var rs := w'.records + more;
      assert forall k :: |w'.records| <= k < |rs| ==> rs[k] == more[k - |w'.records|];
    }
  }

  lemma {:induction false} ChainWalkVariable(buf: seq<byte>, d: Descriptor, total: nat, fdr: nat, k: nat)
    requires FlagFileType(d.flags) == FILE_TYPE_DATA && FlagRecordType(d.flags) != RECORD_TYPE_FIXED
    requires ChainWalk(buf, d, total, fdr, k).Some?
    ensures var rs := ChainWalk(buf, d, total, fdr, k).value.records;
            Frameable(rs, true) && forall j :: 0 <= j < |rs| ==> rs[j].Variable? && 0 < |rs[j].data| < 0xFF
  {
    if k > 0 {
      ChainWalkVariable(buf, d, total, fdr, k - 1);
      var w := ChainWalk(buf, d, total, fdr, k - 1).value;
      var (m, n) := ChainAt(buf, fdr, k - 1);
      if m != 0 {
        WalkRunVariable(buf, d, RunStart(m, total), RunLength(n, w.nLast), w.(nLast := n));
      }
    }
  }

  // ---------------------------------------------------------------- loads that never return

  /** A run that gets stuck at some sector stays stuck. */
  lemma {:induction false} WalkRunStuck(buf: seq<byte>, d: Descriptor, start: nat, j: nat, count: int, w: Walk)
    requires j <= count && WalkRun(buf, d, start, j, w).None?
    ensures WalkRun(buf, d, start, count, w).None?
    decreases count
  {
    if count > j {
      WalkRunStuck(buf, d, start, j, count - 1, w);
    }
  }

  /** A chain walk that gets stuck at some pointer stays stuck. */
  lemma {:induction false} ChainWalkStuck(buf: seq<byte>, d: Descriptor, total: nat, fdr: nat, j: nat, k: nat)
    requires j <= k && ChainWalk(buf, d, total, fdr, j).None?
    ensures ChainWalk(buf, d, total, fdr, k).None?
    decreases k
  {
    if k > j {
      ChainWalkStuck(buf, d, total, fdr, j, k - 1);
    }
  }

  /** Once an entry never returns, neither does the whole index. */
  lemma {:induction false} GatherStuck(es: seq<Entry>, j: nat)
    requires j <= |es| && Gather(es[..j]).None?
    ensures Gather(es).None?
    decreases |es|
  {
    if |es| > j {
      var init := es[..|es| - 1];
      assert init[..j] == es[..j];
      GatherStuck(init, j);
    } else {
      assert es[..j] == es;
    }
  }

  /** What the loader leaves, from the gathered file list: the volume and the list, a well
      formed one, or nothing when the gathering got stuck. */
  lemma ParseDskGathered(buf: seq<byte>, fs: Option<seq<FileState>>)
    requires Gather(Entries(buf)) == fs
    ensures fs.None? ==> ParseDsk(buf).None?
    ensures fs.Some? ==> ParseDsk(buf) == Some(ImageState(VolumeName(buf), fs.value)) && WellFormed(fs.value)
  {
    if fs.Some? {
      ParsedWellFormed(buf);
    }
  }
}
