/** A disk image held in memory (`DiskImage`): a volume name and the file map. Files are
    held as values; `putFile` stores the file as it is when put. */
module Images {
  import opened Bytes
  import opened Records
  import opened Files
  import opened Directory
  import opened Framing
  import opened TIFormat
  import opened ImageFormat

  class DiskImage {
    const name: seq<byte>
    var files: seq<FileState>

    function State(): ImageState
      reads this
    {
      ImageState(name, files)
    }

    /** The file map has unique names and holds valid files only. */
    ghost predicate Valid()
      reads this
    {
      WellFormed(files)
    }

    constructor (name: seq<byte>)
      ensures State() == ImageState(name, []) && Valid()
    {
      this.name := name;
      files := [];
    }

    method PutFile(f: FileState)
      modifies this
      ensures files == Put(old(files), f)
    {
      match IndexOf(Names(files), f.name)
      case None =>
        files := files + [f];
      case Some(k) =>
        files := files[k := f];
    }

    method GetFile(fileName: seq<byte>) returns (r: Option<FileState>)
      ensures r == Lookup(files, fileName)
    {
      r := Lookup(files, fileName);
    }

    method DeleteFile(fileName: seq<byte>)
      modifies this
      ensures files == Remove(old(files), fileName)
    {
      match IndexOf(Names(files), fileName)
      case None =>
      case Some(k) =>
        files := files[..k] + files[k + 1..];
    }

    // ------------------------------------------------------------ loading a container

    /** `loadTIFile(host, buf)`: the file a TIFILES or V9T9 container holds, read record by
        record and put into the image; nothing happens for a buffer that is no container
        or too short. `diverges` stands for a variable-record scan that runs off the end of
        the buffer, where the source loops forever. */
    method LoadTIFile(host: seq<byte>, buf: seq<byte>) returns (diverges: bool)
      requires Valid()
      modifies this
      ensures Valid()
      ensures diverges <==> ParseTIFile(host, buf).Diverges?
      ensures ParseTIFile(host, buf).Loaded? ==> files == Put(old(files), ParseTIFile(host, buf).file)
      ensures !ParseTIFile(host, buf).Loaded? ==> files == old(files)
    {
      var outcome := ReadContainer(host, buf);
      diverges := outcome.Diverges?;
      if outcome.Loaded? {
        LoadedIsValid(host, buf);
        PutKeepsWellFormed(files, outcome.file);
        PutFile(outcome.file);
      }
    }

    /** The header checks of `loadTIFile` and the file it builds. */
    static method ReadContainer(host: seq<byte>, buf: seq<byte>) returns (outcome: LoadOutcome)
      ensures outcome == ParseTIFile(host, buf)
    {
      if |buf| <= SECTOR_OFFSET {
        return NotLoaded;
      }
      var header := DetectHeader(host, buf);
      if header.None? {
        return NotLoaded;
      }
      outcome := ReadHeadedFile(buf, header.value);
    }

    /** The file a container with a recognised header holds, once its length is checked. */
    static method ReadHeadedFile(buf: seq<byte>, h: Header) returns (outcome: LoadOutcome)
      requires |buf| > SECTOR_OFFSET
      ensures outcome == LoadWithHeader(buf, h)
    {
      var fileLength := ContainerLength(h.sectors, h.eofOffset);
      if |buf| < SECTOR_OFFSET + fileLength {
        return NotLoaded;
      }
      if FlagFileType(h.flags) == FILE_TYPE_DATA {
        outcome := ReadDataFile(buf, h);
      } else {
        var file := ReadProgramFile(buf, h.name, if fileLength > 0 then fileLength else 0);
        outcome := Loaded(file.State());
      }
    }

    /** A program file holding the `len` bytes after the header. */
    static method ReadProgramFile(buf: seq<byte>, name: seq<byte>, len: nat) returns (file: DiskFile)
      requires SECTOR_OFFSET + len <= |buf|
      ensures fresh(file)
      ensures file.State() == NewFile(name, FILE_TYPE_PROGRAM, -1, -1, -1).(program := buf[SECTOR_OFFSET..SECTOR_OFFSET + len])
    {
      file := new DiskFile(name, FILE_TYPE_PROGRAM, -1, -1, -1);
      var program := CopyBytes(buf, SECTOR_OFFSET, len);
      PeekInside(buf, SECTOR_OFFSET, len);
      file.SetProgram(program);
    }

    /** A data file opened for output, its records read from the container's sectors, and
        closed again; `Diverges` when a variable-record scan runs off the end of the buffer. */
    static method ReadDataFile(buf: seq<byte>, h: Header) returns (outcome: LoadOutcome)
      ensures var rt, dt := FlagRecordType(h.flags), FlagDataType(h.flags);
              outcome == if rt == RECORD_TYPE_FIXED
                         then Loaded(WrittenFile(h.name, FILE_TYPE_DATA, rt, h.recordLength, dt, FixedRecordsTI(buf, h, h.sectors)))
                         else match VariableRecordsTI(buf, h.sectors)
                           case None => Diverges
                           case Some(rs) => Loaded(WrittenFile(h.name, FILE_TYPE_DATA, rt, h.recordLength, dt, rs))
    {
      var recordType, dataType := FlagRecordType(h.flags), FlagDataType(h.flags);
      var file := new DiskFile(h.name, FILE_TYPE_DATA, recordType, h.recordLength, dataType);
      file.Open(OPERATION_MODE_OUTPUT, ACCESS_TYPE_SEQUENTIAL);
      ghost var empty := file.State();
      ghost var rs: seq<Record>;
      if recordType == RECORD_TYPE_FIXED {
        ReadFixedRecords(file, buf, h, empty);
        rs := FixedRecordsTI(buf, h, h.sectors);
      } else {
        var diverges := ReadVariableRecords(file, buf, h.sectors, empty);
        if diverges {
          return Diverges;
        }
        rs := VariableRecordsTI(buf, h.sectors).value;
      }
      file.Close();
      assert file.State() == WrittenFile(h.name, FILE_TYPE_DATA, recordType, h.recordLength, dataType, rs);
      outcome := Loaded(file.State());
    }

    /** `len` bytes of `buf` from `at`, one at a time; bytes past the end read as 0. */
    static method CopyBytes(buf: seq<byte>, at: nat, len: nat) returns (data: seq<byte>)
      ensures data == Peek(buf, at, len)
    {
      data := [];
      for i := 0 to len
        invariant |data| == i && forall k :: 0 <= k < i ==> data[k] == At(buf, at + k)
      {
        data := data + [if at + i < |buf| then buf[at + i] else 0];
      }
    }

    /** `putRecord` on a file written sequentially from empty: `r` goes after the records
        already written. */
    static method Append(file: DiskFile, r: Record, ghost empty: FileState, ghost rs: seq<Record>)
      requires file.State() == Written(empty, rs)
      modifies file
      ensures file.State() == Written(empty, rs + [r])
    {
      file.PutRecord(r);
      StoreAtEnd(Somes(rs), r);
      assert Somes(rs) + [Some(r)] == Somes(rs + [r]);
    }

    /** The fixed-record sectors of a container read into `file`: every record position of
        every sector that starts inside the file length. */
    static method ReadFixedRecords(file: DiskFile, buf: seq<byte>, h: Header, ghost empty: FileState)
      requires file.State() == Written(empty, [])
      modifies file
      ensures file.State() == Written(empty, FixedRecordsTI(buf, h, h.sectors))
    {
      for sector := 0 to h.sectors
        invariant file.State() == Written(empty, FixedRecordsTI(buf, h, sector))
      {
        ReadFixedSector(file, buf, h, sector, empty, FixedRecordsTI(buf, h, sector));
      }
    }

    /** The record positions of one fixed-record sector read into `file`. */
    static method ReadFixedSector(file: DiskFile, buf: seq<byte>, h: Header, sector: nat, ghost empty: FileState, ghost before: seq<Record>)
      requires file.State() == Written(empty, before)
      modifies file
      ensures file.State() == Written(empty, before + FixedSectorRecords(buf, h, sector, h.recordsPerSector))
    {
      for rec := 0 to h.recordsPerSector
        invariant file.State() == Written(empty, before + FixedSectorRecords(buf, h, sector, rec))
      {
        ReadFixedSlot(file, buf, h, sector, rec, empty, before + FixedSectorRecords(buf, h, sector, rec));
        assert before + FixedSectorRecords(buf, h, sector, rec) + FixedSlotRecord(buf, h, sector, rec)
            == before + FixedSectorRecords(buf, h, sector, rec + 1);
      }
    }

    /** The record at position `rec` of sector `sector`, read when it starts before the end
        of the file. */
    static method ReadFixedSlot(file: DiskFile, buf: seq<byte>, h: Header, sector: nat, rec: nat, ghost empty: FileState, ghost before: seq<Record>)
      requires file.State() == Written(empty, before)
      modifies file
      ensures file.State() == Written(empty, before + FixedSlotRecord(buf, h, sector, rec))
    {
      var fileLength := ContainerLength(h.sectors, h.eofOffset);
      if sector * 256 + rec * h.recordLength < fileLength {
        var data := CopyBytes(buf, SECTOR_OFFSET + sector * 256 + rec * h.recordLength, h.recordLength);
        var r := NewFixedRecord(data, h.recordLength);
        Append(file, r, empty, before);
      } else {
        assert before + [] == before;
      }
    }

    /** The variable-record sectors of a container read into `file`, each scanned up to
        its end marker; `diverges` when a scan runs off the end of the buffer. */
    static method ReadVariableRecords(file: DiskFile, buf: seq<byte>, sectors: nat, ghost empty: FileState)
      returns (diverges: bool)
      requires file.State() == Written(empty, [])
      modifies file
      ensures diverges <==> VariableRecordsTI(buf, sectors).None?
      ensures !diverges ==> file.State() == Written(empty, VariableRecordsTI(buf, sectors).value)
    {
      for sector := 0 to sectors
        invariant VariableRecordsTI(buf, sector).Some?
        invariant file.State() == Written(empty, VariableRecordsTI(buf, sector).value)
      {
        ghost var before := VariableRecordsTI(buf, sector).value;
        diverges := ReadVariableSector(file, buf, SECTOR_OFFSET + sector * 256, false, empty, before);
        if diverges {
          VariableRecordsTIThrowsLater(buf, sector + 1, sectors);
          return;
        }
      }
      diverges := false;
    }

    /** One sector of variable records: length byte, data bytes, and so on up to 0xFF (or
        up to 0 as well, with `stopAtZero`). */
    static method ReadVariableSector(file: DiskFile, buf: seq<byte>, start: nat, stopAtZero: bool, ghost empty: FileState, ghost before: seq<Record>)
      returns (diverges: bool)
      requires file.State() == Written(empty, before)
      modifies file
      ensures diverges <==> Scan(buf, start, stopAtZero).None?
      ensures !diverges ==> file.State() == Written(empty, before + Scan(buf, start, stopAtZero).value)
    {
      var i := start;
      ghost var got: seq<Record> := [];
      assert Scan(buf, start, stopAtZero) == Then(got, Scan(buf, start, stopAtZero)) by {
        if Scan(buf, start, stopAtZero).Some? {
          assert got + Scan(buf, start, stopAtZero).value == Scan(buf, start, stopAtZero).value;
        }
      }
      while true
        invariant Scan(buf, start, stopAtZero) == Then(got, Scan(buf, i, stopAtZero))
        invariant file.State() == Written(empty, before + got)
        decreases |buf| - i
      {
        if i >= |buf| {
          return true;
        }
        var recordLength := buf[i];
        if recordLength == 0xFF || (stopAtZero && recordLength == 0) {
          assert got + [] == got;
          return false;
        }
        var data := CopyBytes(buf, i + 1, recordLength);
        Append(file, Variable(data), empty, before + got);
        ThenSnoc(got, Variable(data), Scan(buf, i + 1 + recordLength, stopAtZero));
        assert before + got + [Variable(data)] == before + (got + [Variable(data)]);
        got := got + [Variable(data)];
        i := i + 1 + recordLength;
      }
    }

    // ------------------------------------------------------------ byte writers

    /** `writeByte`: stores the low byte of `b` at `n`, dropped outside the array. */
    static method WriteByte(data: array<byte>, n: int, b: int) returns (n': int)
      modifies data
      ensures data[..] == Poke(old(data[..]), n, [b % 0x100]) && n' == n + 1
    {
      if 0 <= n < data.Length {
        data[n] := b % 0x100;
      }
      n' := n + 1;
    }

    /** `writeWord`: stores the two bytes of `w`, high byte first. */
    static method WriteWord(data: array<byte>, n: int, w: int) returns (n': int)
      modifies data
      ensures data[..] == Poke(old(data[..]), n, Word(w)) && n' == n + 2
    {
      ghost var before := data[..];
      n' := WriteByte(data, n, (w % 0x10000) / 0x100);
      n' := WriteByte(data, n', w);
      PokeConcat(before, n, [(w % 0x10000) / 0x100], [w % 0x100]);
    }

    /** `writeString`: stores the characters of `s`, then spaces up to `padLen`. */
    static method WriteString(data: array<byte>, n: int, s: seq<byte>, padLen: nat) returns (n': int)
      modifies data
      ensures data[..] == Poke(old(data[..]), n, PadRight(s, SPACE, padLen))
      ensures n' == n + |PadRight(s, SPACE, padLen)|
    {
      ghost var before := data[..];
      var padded := PadRight(s, SPACE, padLen);
      n' := n;
      for i := 0 to |s|
        invariant n' == n + i
        invariant data[..] == Poke(before, n, s[..i])
      {
        PokeConcat(before, n, s[..i], [s[i]]);
        assert s[..i] + [s[i]] == s[..i + 1];
        n' := WriteByte(data, n', s[i]);
      }
      assert s[..|s|] == s == padded[..|s|];
      var pad := if |s| < padLen then padLen - |s| else 0;
      for i := 0 to pad
        invariant n' == n + |s| + i
        invariant data[..] == Poke(before, n, padded[..|s| + i])
      {
        PokeConcat(before, n, padded[..|s| + i], [SPACE]);
        assert padded[..|s| + i] + [SPACE] == padded[..|s| + i + 1];
        n' := WriteByte(data, n', SPACE);
      }
      assert padded[..|padded|] == padded;
    }

    /** The bytes of `bs` stored one by one from `n`. */
    static method WriteBytes(data: array<byte>, n: int, bs: seq<byte>) returns (n': int)
      modifies data
      ensures data[..] == Poke(old(data[..]), n, bs) && n' == n + |bs|
    {
      ghost var before := data[..];
      n' := n;
      for j := 0 to |bs|
        invariant n' == n + j
        invariant data[..] == Poke(before, n, bs[..j])
      {
        PokeConcat(before, n, bs[..j], [bs[j]]);
        assert bs[..j] + [bs[j]] == bs[..j + 1];
        n' := WriteByte(data, n', bs[j]);
      }
      assert bs[..|bs|] == bs;
    }

    // ------------------------------------------------------------ getTIDiskImage

    /** The volume information block and the fixed bits of the allocation bit map. */
    method WriteVolumeHeader(img: array<byte>)
      requires img[..] == Zeros(IMAGE_SIZE)
      modifies img
      ensures img[..] == BlankImage(name)
    {
      WriteVolumeInformation(img);
      var _ := WriteByte(img, BITMAP, 3);
      ghost var reserved := img[..];
      for i := 0xEC to 0x100
        invariant img[..] == Poke(reserved, 0xEC, seq<byte>(i - 0xEC, _ => 0xFF))
      {
        PokeConcat(reserved, 0xEC, seq<byte>(i - 0xEC, _ => 0xFF), [0xFF]);
        assert seq<byte>(i - 0xEC, _ => 0xFF) + [0xFF] == seq<byte>(i + 1 - 0xEC, _ => 0xFF);
        ghost var pre := img[..];
        img[i] := 0xFF;
        assert img[..] == Poke(pre, i, [0xFF]);
      }
    }

    /** The fields of the volume information block, from offset 0: the name padded to
        10 characters, the sector count, the sectors per track, then the format fields. */
    method WriteVolumeInformation(img: array<byte>)
      modifies img
      ensures img[..] == Poke(old(img[..]), 0, VolumeHeader(name))
    {
      ghost var zero := img[..];
      var n := WriteString(img, 0, name, 10);
      ghost var padded := PadRight(name, SPACE, 10);
      n := WriteGeometry(img, n);
      PokeConcat(zero, 0, padded, Word(IMAGE_SECTORS) + [18]);
      ghost var acc := padded + (Word(IMAGE_SECTORS) + [18]);
      n := WriteFormat(img, n);
      PokeConcat(zero, 0, acc, Ascii("DSK") + [0x20, 40, 2, 2]);
      assert acc + (Ascii("DSK") + [0x20, 40, 2, 2]) == VolumeHeader(name);
    }

    /** The total sector count and the sectors per track. */
    static method WriteGeometry(img: array<byte>, n: int) returns (n': int)
      modifies img
      ensures img[..] == Poke(old(img[..]), n, Word(IMAGE_SECTORS) + [18]) && n' == n + 3
    {
      ghost var before := img[..];
      n' := WriteWord(img, n, IMAGE_SECTORS);
      n' := WriteByte(img, n', 18);
      PokeConcat(before, n, Word(IMAGE_SECTORS), [18]);
    }

    /** The letters "DSK", the protection byte, the tracks per side, the sides and the density. */
    static method WriteFormat(img: array<byte>, n: int) returns (n': int)
      modifies img
      ensures img[..] == Poke(old(img[..]), n, Ascii("DSK") + [0x20, 40, 2, 2]) && n' == n + 7
    {
      ghost var before := img[..];
      n' := WriteString(img, n, Ascii("DSK"), 3);
      assert PadRight(Ascii("DSK"), SPACE, 3) == Ascii("DSK");
      ghost var acc := Ascii("DSK");
      n' := WriteByte(img, n', 0x20);
      PokeConcat(before, n, acc, [0x20]);
      acc := acc + [0x20];
      n' := WriteByte(img, n', 40);
      PokeConcat(before, n, acc, [40]);
      acc := acc + [40];
      n' := WriteByte(img, n', 2);
      PokeConcat(before, n, acc, [2]);
      acc := acc + [2];
      n' := WriteByte(img, n', 2);
      PokeConcat(before, n, acc, [2]);
      acc := acc + [2];
      assert acc == Ascii("DSK") + [0x20, 40, 2, 2];
    }

    // ------------------------------------------------------------ one file

    /** The descriptor record of `file` at `fdr`. */
    static method WriteDescriptor(img: array<byte>, fdr: int, file: FileState)
      requires file.Valid() && !GeometryThrows(file)
      modifies img
      ensures img[..] == Poke(old(img[..]), fdr, DescriptorBytes(file))
    {
      ghost var before := img[..];
      var n := WriteDescriptorHead(img, fdr, file.name, FlagsByte(file), PerSectorByte(file));
      ghost var head := PadRight(file.name, SPACE, 10) + Word(0) + [FlagsByte(file), PerSectorByte(file)];
      var count := if file.IsFixed() then |file.records| else 0;
      n := WriteDescriptorTail(img, n, SectorCount(file), EOFOffset(file), LengthByte(file), count);
      ghost var tail := Word(SectorCount(file)) + [EOFOffset(file) % 256, LengthByte(file)] + Word(count);
      PokeConcat(before, fdr, head, tail);
      assert head + tail == DescriptorBytes(file);
    }

    /** The name, the extended record length, the status flags and the records per sector. */
    static method WriteDescriptorHead(img: array<byte>, n: int, name: seq<byte>, flags: byte, perSector: byte) returns (n': int)
      modifies img
      ensures img[..] == Poke(old(img[..]), n, PadRight(name, SPACE, 10) + Word(0) + [flags, perSector])
      ensures n' == n + |PadRight(name, SPACE, 10)| + 4
    {
      ghost var before := img[..];
      n' := WriteString(img, n, name, 10);
      ghost var acc := PadRight(name, SPACE, 10);
      n' := WriteWord(img, n', 0);
      PokeConcat(before, n, acc, Word(0));
      acc := acc + Word(0);
      n' := WriteByte(img, n', flags);
      PokeConcat(before, n, acc, [flags]);
      acc := acc + [flags];
      n' := WriteByte(img, n', perSector);
      PokeConcat(before, n, acc, [perSector]);
      assert acc + [perSector] == PadRight(name, SPACE, 10) + Word(0) + [flags, perSector];
    }

    /** The sectors allocated, the end-of-file offset, the record length and the record count. */
    static method WriteDescriptorTail(img: array<byte>, n: int, sectors: int, eof: int, recordLength: byte, count: int) returns (n': int)
      modifies img
      ensures img[..] == Poke(old(img[..]), n, Word(sectors) + [eof % 256, recordLength] + Word(count))
      ensures n' == n + 6
    {
      ghost var before := img[..];
      n' := WriteWord(img, n, sectors);
      ghost var acc := Word(sectors);
      n' := WriteByte(img, n', eof);
      PokeConcat(before, n, acc, [eof % 256]);
      acc := acc + [eof % 256];
      n' := WriteByte(img, n', recordLength);
      PokeConcat(before, n, acc, [recordLength]);
      acc := acc + [recordLength];
      n' := WriteWord(img, n', count);
      PokeConcat(before, n, acc, Word(count));
      assert acc + Word(count) == Word(sectors) + [eof % 256, recordLength] + Word(count);
    }

    /** The records of a fixed-record file, `rps` to a sector from sector `start`;
        `throws` when a record is a hole. */
    static method WriteFixedRecords(img: array<byte>, start: int, rs: Slots, rps: nat)
      returns (throws: bool, n: int, sectorNo: int, recCnt: nat)
      modifies img
      ensures throws <==> FixedLayout(old(img[..]), start, rs, rps).None?
      ensures !throws ==> FixedLayout(old(img[..]), start, rs, rps) == Some(Pen(img[..], n, sectorNo, recCnt))
    {
      ghost var before := img[..];
      sectorNo, recCnt, throws := start, 0, false;
      n := sectorNo * 256;
      var i := 0;
      while i < |rs|
        invariant 0 <= i <= |rs|
        invariant FixedLayout(before, start, rs[..i], rps) == Some(Pen(img[..], n, sectorNo, recCnt))
      {
        assert rs[..i + 1][..i] == rs[..i];
        match rs[i]
        case None =>
          FixedLayoutThrows(before, start, rs, rps);
          throws := true;
          return;
        case Some(rec) =>
          n := WriteBytes(img, n, rec.data);
          recCnt := recCnt + 1;
          if recCnt == rps {
            sectorNo := sectorNo + 1;
            n := sectorNo * 256;
            recCnt := 0;
          }
        i := i + 1;
      }
      assert rs[..|rs|] == rs;
    }

    /** The records of a variable-record file from sector `start`, each a length byte and
        its bytes; `throws` when a record is a hole. The bytes left in the sector are
        reset but never counted down. */
    static method WriteVariableRecords(img: array<byte>, start: int, rs: Slots)
      returns (throws: bool, n: int, sectorNo: int)
      modifies img
      ensures throws <==> VariableLayout(old(img[..]), start, rs).None?
      ensures !throws ==> VariableLayout(old(img[..]), start, rs) == Some(Pen(img[..], n, sectorNo, 0))
    {
      ghost var before := img[..];
      sectorNo, throws := start, false;
      n := sectorNo * 256;
      var sectorBytesLeft := 256;
      var i := 0;
      while i < |rs|
        invariant 0 <= i <= |rs| && sectorBytesLeft == 256
        invariant VariableLayout(before, start, rs[..i]) == Some(Pen(img[..], n, sectorNo, 0))
      {
        assert rs[..i + 1][..i] == rs[..i];
        match rs[i]
        case None =>
          VariableLayoutThrows(before, start, rs);
          throws := true;
          return;
        case Some(rec) =>
          var data := rec.data;
          if sectorBytesLeft <= |data| {
            sectorNo := sectorNo + 1;
            n := sectorNo * 256;
            sectorBytesLeft := 256;
          }
          ghost var pre := img[..];
          n := WriteByte(img, n, |data|);
          n := WriteBytes(img, n, data);
          PokeConcat(pre, n - |data| - 1, [|data| % 256], data);
        i := i + 1;
      }
      assert rs[..|rs|] == rs;
    }

    /** The data sectors of `file` from sector `start`, and the last sector they take. */
    static method WriteData(img: array<byte>, file: FileState, start: int) returns (throws: bool, last: int)
      requires file.Valid()
      modifies img
      ensures throws <==> DataLayout(old(img[..]), file, start).None?
      ensures !throws ==> DataLayout(old(img[..]), file, start) == Some(Placed(img[..], last))
    {
      var n, sectorNo := start * 256, start;
      last := start;
      if file.IsData() {
        if file.IsFixed() {
          var recCnt;
          throws, n, sectorNo, recCnt := WriteFixedRecords(img, start, file.records, RecordsPerSector(file.recordLength));
          if throws {
            return;
          }
          if recCnt == 0 {
            sectorNo := sectorNo - 1;
          }
        } else {
          throws, n, sectorNo := WriteVariableRecords(img, start, file.records);
          if throws {
            return;
          }
          var sectorBytesLeft := 256;
          n := WriteByte(img, n, 0xFF);
          if sectorBytesLeft == 256 {
            sectorNo := sectorNo - 1;
          }
        }
      } else {
        throws := false;
        var program := file.program;
        n := WriteBytes(img, start * 256, program);
        sectorNo := start + |program| / 256 - (if |program| % 256 == 0 then 1 else 0);
      }
      last := sectorNo;
    }

    /** The data chain pointer block at `at`: the first sector and the number of sectors
        after it, packed into three 12-bit fields. */
    static method WriteChain(img: array<byte>, at: int, start: int, sectorCount: int)
      modifies img
      ensures img[..] == Poke(old(img[..]), at, ChainBytes(start, sectorCount))
    {
      ghost var before := img[..];
      var n := WriteByte(img, at, start % 256);
      ghost var acc := [start % 256];
      n := WriteWord(img, n, (sectorCount % 16) * 16 + (start % 4096) / 256);
      PokeConcat(before, at, acc, Word((sectorCount % 16) * 16 + (start % 4096) / 256));
      acc := acc + Word((sectorCount % 16) * 16 + (start % 4096) / 256);
      n := WriteWord(img, n, (sectorCount % 4096) / 16);
      PokeConcat(before, at, acc, Word((sectorCount % 4096) / 16));
      assert acc + Word((sectorCount % 4096) / 16) == ChainBytes(start, sectorCount);
    }

    /** Sectors `lo` to `hi` marked as used in the allocation bit map; none when the
        data took no sector (`hi == lo - 1`). */
    static method MarkUsed(img: array<byte>, lo: nat, hi: int)
      requires lo <= hi + 1
      modifies img
      ensures img[..] == MarkSectors(old(img[..]), lo, hi)
    {
      ghost var before := img[..];
      for i := lo to hi + 1
        invariant MarkSectors(img[..], i, hi) == MarkSectors(before, lo, hi)
      {
        MarkNext(img, i, hi);
      }
    }

    /** One more sector marked: what is left to mark starts one sector later. */
    static method MarkNext(img: array<byte>, i: nat, hi: int)
      requires i <= hi
      modifies img
      ensures MarkSectors(img[..], i + 1, hi) == MarkSectors(old(img[..]), i, hi)
    {
      MarkOne(img, i);
    }

    /** The bit of sector `i` set in the allocation bit map; a byte past the end of the
        image is neither read nor stored. */
    static method MarkOne(img: array<byte>, i: nat)
      modifies img
      ensures img[..] == Mark(old(img[..]), i)
    {
      var at := BITMAP + i / 8;
      if at < img.Length {
        img[at] := OrByte(img[at], Bit(i % 8));
      }
    }

    /** File `f` of the directory written with its data from sector `next`: its index
        entry, its descriptor record, its data, its chain pointers and its bit map bits;
        `next'` is then the next free sector. */
    static method WriteFile(img: array<byte>, f: nat, file: FileState, next: nat) returns (throws: bool, next': int)
      requires file.Valid() && next >= 2
      modifies img
      ensures throws <==> PlaceFile(old(img[..]), f, file, next).None?
      ensures !throws ==> PlaceFile(old(img[..]), f, file, next) == Some(Placed(img[..], next'))
    {
      ghost var before := img[..];
      var _ := WriteWord(img, 256 + 2 * f, 2 + f);
      next' := next;
      if GeometryThrows(file) {
        throws := true;
        return;
      }
      var fdr := (2 + f) * 256;
      WriteDescriptor(img, fdr, file);
      ghost var described := img[..];
      assert PlaceFile(before, f, file, next) == PlaceData(described, fdr, file, next);
      throws, next' := WriteDataChained(img, fdr, file, next);
    }

    /** The data of a file whose descriptor record is at `fdr`, then its chain pointers
        and its bit map bits. */
    static method WriteDataChained(img: array<byte>, fdr: int, file: FileState, next: nat) returns (throws: bool, next': int)
      requires file.Valid() && fdr >= 256 && next >= 2
      modifies img
      ensures throws <==> PlaceData(old(img[..]), fdr, file, next).None?
      ensures !throws ==> PlaceData(old(img[..]), fdr, file, next) == Some(Placed(img[..], next'))
    {
      ghost var before := img[..];
      var sectorNo;
      throws, sectorNo := WriteData(img, file, next);
      next' := sectorNo + 1;
      if throws {
        PlaceDataThrows(before, fdr, file, next);
        return;
      }
      PlaceDataStep(before, fdr, file, next, img[..], sectorNo);
      ChainAndMark(img, fdr, next, sectorNo);
    }

    /** The chain pointers of data from sector `next` to `last` written into the
        descriptor record at `fdr`, and those sectors marked as used. */
    static method ChainAndMark(img: array<byte>, fdr: int, next: nat, last: int)
      requires next <= last + 1
      modifies img
      ensures img[..] == MarkSectors(Poke(old(img[..]), fdr + CHAIN, ChainBytes(next, last - next)), next, last)
    {
      WriteChain(img, fdr + CHAIN, next, last - next);
      MarkUsed(img, next, last);
    }

    /** `getTIDiskImage`: the volume header, then the first 127 files placed one after
        another; `throws` when placing one of them throws. */
    method GetTIDiskImage() returns (img: array<byte>, throws: bool)
      requires Valid()
      ensures fresh(img)
      ensures throws <==> DiskImageBytes(name, files).None?
      ensures !throws ==> img[..] == DiskImageBytes(name, files).value
    {
      img := new byte[IMAGE_SIZE](_ => 0);
      assert img[..] == Zeros(IMAGE_SIZE);
      WriteVolumeHeader(img);
      throws := WriteFiles(img, BlankImage(name), files);
    }

    /** The loop of `getTIDiskImage`: the files written one after the other into the
        blank image, their data from the first sector after their descriptor records. */
    static method WriteFiles(img: array<byte>, ghost blank: seq<byte>, files: seq<FileState>) returns (throws: bool)
      requires AllValid(files) && img[..] == blank
      modifies img
      ensures throws <==> PlaceFiles(blank, files, FileCount(files)).None?
      ensures !throws ==> img[..] == PlaceFiles(blank, files, FileCount(files)).value.img
    {
      var fileCount := if |files| < MAX_FILES then |files| else MAX_FILES;
      var nextDataSectorNo := 2 + fileCount;
      throws := false;
      for f := 0 to fileCount
        invariant PlaceFiles(blank, files, f) == Some(Placed(img[..], nextDataSectorNo))
      {
        throws, nextDataSectorNo := WriteNextFile(img, blank, files, f, nextDataSectorNo);
        if throws {
          return;
        }
      }
      assert PlaceFiles(blank, files, FileCount(files)) == Some(Placed(img[..], nextDataSectorNo));
    }

    /** One turn of the loop of `getTIDiskImage`: file `f` written after the files before it. */
    static method WriteNextFile(img: array<byte>, ghost blank: seq<byte>, files: seq<FileState>, f: nat, next: int)
      returns (throws: bool, next': int)
      requires AllValid(files) && f < FileCount(files)
      requires PlaceFiles(blank, files, f) == Some(Placed(img[..], next))
      modifies img
      ensures throws ==> PlaceFiles(blank, files, FileCount(files)).None?
      ensures !throws ==> PlaceFiles(blank, files, f + 1) == Some(Placed(img[..], next'))
    {
      ghost var before := img[..];
      PlaceFilesStep(blank, files, f);
      assert PlaceFiles(blank, files, f + 1) == PlaceFile(before, f, files[f], next);
      throws, next' := WriteFile(img, f, files[f], next);
      if throws {
        assert PlaceFiles(blank, files, f + 1).None?;
        PlaceFilesThrowsLater(blank, files, f + 1);
      }
    }

    /** `readSector`: the 256 bytes of sector `sectorNo` of the image; bytes outside the
        image read as 0. */
    method ReadSector(sectorNo: int) returns (sector: array<byte>, throws: bool)
      requires Valid()
      ensures fresh(sector)
      ensures throws <==> DiskImageBytes(name, files).None?
      ensures !throws ==> sector[..] == SectorBytes(DiskImageBytes(name, files).value, sectorNo)
    {
      sector := new byte[256](_ => 0);
      var tiDiskImage;
      tiDiskImage, throws := GetTIDiskImage();
      if throws {
        return;
      }
      CopySector(sector, tiDiskImage, 256 * sectorNo);
    }

    /** The 256 bytes of `image` from `sectorOffset` copied into `sector`. */
    static method CopySector(sector: array<byte>, image: array<byte>, sectorOffset: int)
      requires sector.Length == 256 && sector != image
      modifies sector
      ensures sector[..] == Peek(image[..], sectorOffset, 256)
    {
      for i := 0 to 256
        invariant forall j :: 0 <= j < i ==> sector[j] == At(image[..], sectorOffset + j)
      {
        sector[i] := if 0 <= sectorOffset + i < image.Length then image[sectorOffset + i] else 0;
      }
    }
  }
}
