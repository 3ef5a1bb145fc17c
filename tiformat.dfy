/** Single-file containers (`loadTIFile`): a 128-byte header followed by the file's
    sectors. Two headers are recognised: TIFILES (byte 0 is 7, then the letters
    "TIFILES") and V9T9 (the header starts with the file's own name). */
module TIFormat {
  import opened Bytes
  import opened Records
  import opened Files
  import opened Framing

  /** Where the file's first sector starts in the container. */
  const SECTOR_OFFSET := 0x80

  predicate IsPrintable(b: byte)
  {
    32 <= b < 128
  }

  /** The characters the regular expression `[0-9A-Za-z_\-]` accepts. */
  predicate IsHostNameChar(b: byte)
  {
    || '0' as int <= b <= '9' as int
    || 'A' as int <= b <= 'Z' as int
    || 'a' as int <= b <= 'z' as int
    || b == '_' as int || b == '-' as int
  }

  /** The characters of `s` that satisfy `p`, in order. */
  function Keep(s: seq<byte>, p: byte -> bool): (r: seq<byte>)
    ensures |r| <= |s| && forall i :: 0 <= i < |r| ==> p(r[i])
  {
    if s == [] then [] else (if p(s[0]) then [s[0]] else []) + Keep(s[1..], p)
  }

  /** The name taken from a host file name when a TIFILES header holds none: its name
      characters, but only when the whole host name is shorter than 10 characters. */
  function HostName(host: seq<byte>): (r: seq<byte>)
    ensures |r| < 10
  {
    if |host| < 10 then Keep(host, IsHostNameChar) else []
  }

  predicate IsTIFiles(buf: seq<byte>)
  {
    |buf| >= 8 && buf[0] == 7 && buf[1..8] == Ascii("TIFILES")
  }

  /** A V9T9 header: its first 8 bytes and the first 8 characters of the host file name,
      both trimmed and upper-cased, agree. */
  predicate IsV9T9(host: seq<byte>, buf: seq<byte>)
  {
    |buf| >= 8 && Upper(Trim(buf[..8])) == Upper(Trim(host[..if |host| < 8 then |host| else 8]))
  }

  /** The comparison ignores the case of Latin-1 letters too: a buffer that starts with a
      capital E acute padded with spaces is a V9T9 header for the host name "é". */
  lemma V9T9Latin1Case(buf: seq<byte>)
    requires |buf| >= 8 && buf[..8] == PadRight([0xC9], SPACE, 8)
    ensures IsV9T9([0xE9], buf) && !IsTIFiles(buf)
  {
    var head: seq<byte> := [0xC9];
    var host: seq<byte> := [0xE9];
    TrimPadded(head, 8);
    TrimSingle(0xC9);
    TrimSingle(0xE9);
    assert host[..1] == host;
    assert Upper(head) == Upper(host) by {
      assert Upper(head) == [UpperCode(0xC9)] + Upper([]);
      assert Upper(host) == [UpperCode(0xE9)] + Upper([]);
    }
    assert buf[0] == 0xC9 by {
      assert buf[0] == buf[..8][0] == PadRight(head, SPACE, 8)[..1][0];
    }
  }



  datatype Header = Header(name: seq<byte>, sectors: nat, flags: byte, recordsPerSector: byte, eofOffset: byte, recordLength: byte)

  /** The header fields of either container kind, or `None` for neither. */
  function DetectHeader(host: seq<byte>, buf: seq<byte>): (h: Option<Header>)
    requires |buf| > SECTOR_OFFSET
    ensures h.Some? <==> IsTIFiles(buf) || IsV9T9(host, buf)
  {
    if IsTIFiles(buf) then
      var own := if buf[0x10] != 0xCA then Trim(Keep(buf[0x10..0x1A], IsPrintable)) else [];
      var name := if |own| > 0 then own else HostName(host);
      Some(Header(name, WordAt(buf, 0x8), buf[0xA], buf[0xB], buf[0xC], buf[0xD]))
    else if IsV9T9(host, buf) then
      Some(Header(Trim(Keep(buf[..10], IsPrintable)), WordAt(buf, 0xE), buf[0xC], buf[0xD], buf[0x10], buf[0x11]))
    else None
  }

  /** The file length a header describes. */
  function FileLength(h: Header): int
  {
    ContainerLength(h.sectors, h.eofOffset)
  }

  /** The record (if any) at position `rec` of sector `s` of a fixed-record file: taken
      when it starts before the end of the file. */
  function FixedSlotRecord(buf: seq<byte>, h: Header, s: nat, rec: nat): seq<Record>
  {
    if s * 256 + rec * h.recordLength < FileLength(h)
    then [Fixed(FixedBytes(Peek(buf, SECTOR_OFFSET + s * 256 + rec * h.recordLength, h.recordLength), h.recordLength))]
    else []
  }

  /** The records of the first `recs` positions of sector `s`. */
  function FixedSectorRecords(buf: seq<byte>, h: Header, s: nat, recs: nat): seq<Record>
  {
    if recs == 0 then [] else FixedSectorRecords(buf, h, s, recs - 1) + FixedSlotRecord(buf, h, s, recs - 1)
  }

  /** The records of the first `sectors` sectors of a fixed-record file. */
  function FixedRecordsTI(buf: seq<byte>, h: Header, sectors: nat): seq<Record>
  {
    if sectors == 0 then [] else FixedRecordsTI(buf, h, sectors - 1) + FixedSectorRecords(buf, h, sectors - 1, h.recordsPerSector)
  }

  /** The records of the first `sectors` sectors of a variable-record file, each sector
      scanned up to its 0xFF; `None` when a scan runs off the end of the buffer. */
  function VariableRecordsTI(buf: seq<byte>, sectors: nat): Option<seq<Record>>
  {
    if sectors == 0 then Some([])
    else match VariableRecordsTI(buf, sectors - 1)
      case None => None
      case Some(rs) =>
        match Scan(buf, SECTOR_OFFSET + (sectors - 1) * 256, false)
        case None => None
        case Some(more) => Some(rs + more)
  }

  /** The records `got` followed by those of a scan still to come. */
  function Then(got: seq<Record>, rest: Option<seq<Record>>): (r: Option<seq<Record>>)
    ensures r.Some? <==> rest.Some?
  {
    match rest
    case None => None
    case Some(rs) => Some(got + rs)
  }

  /** A record taken off the front of the scan still to come joins the records got. */
  lemma ThenSnoc(got: seq<Record>, r: Record, rest: Option<seq<Record>>)
    ensures Then(got, Then([r], rest)) == Then(got + [r], rest)
  {
    if rest.Some? {
      assert got + ([r] + rest.value) == got + [r] + rest.value;
    }
  }

  /** Once a sector's scan runs off the end of the buffer, so does reading any more sectors. */
  lemma {:induction false} VariableRecordsTIThrowsLater(buf: seq<byte>, k: nat, sectors: nat)
    requires k <= sectors && VariableRecordsTI(buf, k).None?
    ensures VariableRecordsTI(buf, sectors).None?
    decreases sectors - k
  {
    if k < sectors {
      VariableRecordsTIThrowsLater(buf, k + 1, sectors);
    }
  }

  datatype LoadOutcome = NotLoaded | Loaded(file: FileState) | Diverges

  /** What `loadTIFile(host, buf)` does: nothing unless the buffer is longer than the
      header, has a recognised header and holds the whole file; else the file it builds. */
  function ParseTIFile(host: seq<byte>, buf: seq<byte>): LoadOutcome
  {
    if |buf| <= SECTOR_OFFSET then NotLoaded
    else match DetectHeader(host, buf)
      case None => NotLoaded
      case Some(h) => LoadWithHeader(buf, h)
  }

  /** The file a container with the recognised header `h` holds: nothing unless the buffer
      holds the whole file. */
  function LoadWithHeader(buf: seq<byte>, h: Header): (r: LoadOutcome)
    requires |buf| > SECTOR_OFFSET
    ensures r == NotLoaded <==> |buf| < SECTOR_OFFSET + FileLength(h)
  {
    if |buf| < SECTOR_OFFSET + FileLength(h) then NotLoaded
    else if FlagFileType(h.flags) == FILE_TYPE_DATA then
      var rt, dt := FlagRecordType(h.flags), FlagDataType(h.flags);
      if rt == RECORD_TYPE_FIXED then
        Loaded(WrittenFile(h.name, FILE_TYPE_DATA, rt, h.recordLength, dt, FixedRecordsTI(buf, h, h.sectors)))
      else match VariableRecordsTI(buf, h.sectors)
        case None => Diverges
        case Some(rs) => Loaded(WrittenFile(h.name, FILE_TYPE_DATA, rt, h.recordLength, dt, rs))
    else
      var len := if FileLength(h) > 0 then FileLength(h) else 0;
      Loaded(NewFile(h.name, FILE_TYPE_PROGRAM, -1, -1, -1).(program := buf[SECTOR_OFFSET..SECTOR_OFFSET + len]))
  }

  /** A container is taken exactly when it is longer than its header, carries a TIFILES or
      V9T9 header and holds the header plus the file length the header states. */
  lemma LoadCondition(host: seq<byte>, buf: seq<byte>)
    ensures ParseTIFile(host, buf) != NotLoaded <==>
              && |buf| > SECTOR_OFFSET
              && (IsTIFiles(buf) || IsV9T9(host, buf))
              && |buf| >= SECTOR_OFFSET + FileLength(DetectHeader(host, buf).value)
  {
    if |buf| > SECTOR_OFFSET {
      var header := DetectHeader(host, buf);
      if header.Some? {
        assert ParseTIFile(host, buf) == LoadWithHeader(buf, header.value);
      }
    }
  }

  /** A loaded file is a closed, valid file without holes, named as the header says. */
  lemma LoadedIsValid(host: seq<byte>, buf: seq<byte>)
    requires ParseTIFile(host, buf).Loaded?
    ensures var f := ParseTIFile(host, buf).file;
            && f.Valid() && f.operationMode == CLOSED && NoHoles(f.records)
            && f.name == DetectHeader(host, buf).value.name
  {
    var h := DetectHeader(host, buf).value;
    if FlagFileType(h.flags) == FILE_TYPE_DATA {
      assert FlagRecordType(h.flags) in {0, 1} && FlagDataType(h.flags) in {0, 1};
    }
  }

  /** A program loaded from a container with at least one sector reports the container's
      own sector count and end-of-file offset, and holds exactly the file length. */
  lemma LoadedProgramGeometry(host: seq<byte>, buf: seq<byte>)
    requires ParseTIFile(host, buf).Loaded?
    requires var h := DetectHeader(host, buf).value; FlagFileType(h.flags) == FILE_TYPE_PROGRAM && h.sectors > 0
    ensures var h := DetectHeader(host, buf).value;
            var f := ParseTIFile(host, buf).file;
            && |f.program| == FileLength(h)
            && SectorCount(f) == h.sectors && EOFOffset(f) == h.eofOffset
  {
    var h := DetectHeader(host, buf).value;
    var len := FileLength(h);
    assert ParseTIFile(host, buf) == LoadWithHeader(buf, h);
    ProgramOfLength(h.name, buf[SECTOR_OFFSET..SECTOR_OFFSET + len], h.sectors, h.eofOffset);
  }

  /** A program of the length a header gives has the header's sector count and offset. */
  lemma ProgramOfLength(name: seq<byte>, program: seq<byte>, sectors: nat, eofOffset: byte)
    requires sectors > 0 && |program| == ContainerLength(sectors, eofOffset)
    ensures var f := NewFile(name, FILE_TYPE_PROGRAM, -1, -1, -1).(program := program);
            SectorCount(f) == sectors && EOFOffset(f) == eofOffset
  {
    if eofOffset > 0 {
      assert |program| == (sectors - 1) * 256 + eofOffset;
    } else {
      assert |program| == sectors * 256;
    }
  }

  predicate AllFixedOfLength(rs: seq<Record>, len: nat)
  {
    forall k :: 0 <= k < |rs| ==> rs[k].Fixed? && |rs[k].data| == len
  }

  lemma ConcatFixedOfLength(a: seq<Record>, b: seq<Record>, len: nat)
    requires AllFixedOfLength(a, len) && AllFixedOfLength(b, len)
    ensures AllFixedOfLength(a + b, len)
  {
    assert forall k :: |a| <= k < |a + b| ==> (a + b)[k] == b[k - |a|];
  }

  /** Every record of a fixed-record sector has the header's record length. */
  lemma {:induction false} FixedSectorRecordsLength(buf: seq<byte>, h: Header, s: nat, recs: nat)
    ensures AllFixedOfLength(FixedSectorRecords(buf, h, s, recs), h.recordLength)
    ensures |FixedSectorRecords(buf, h, s, recs)| <= recs
  {
    if recs > 0 {
      FixedSectorRecordsLength(buf, h, s, recs - 1);
      ConcatFixedOfLength(FixedSectorRecords(buf, h, s, recs - 1), FixedSlotRecord(buf, h, s, recs - 1), h.recordLength);
    }
  }

  /** Every record of a fixed-record file has the header's record length, and no sector
      yields more records than the header's records per sector. */
  lemma {:induction false} FixedRecordsLength(buf: seq<byte>, h: Header, sectors: nat)
    ensures AllFixedOfLength(FixedRecordsTI(buf, h, sectors), h.recordLength)
    ensures |FixedRecordsTI(buf, h, sectors)| <= sectors * h.recordsPerSector
  {
    if sectors > 0 {
      var a := FixedRecordsTI(buf, h, sectors - 1);
      var b := FixedSectorRecords(buf, h, sectors - 1, h.recordsPerSector);
      FixedRecordsLength(buf, h, sectors - 1);
      FixedSectorRecordsLength(buf, h, sectors - 1, h.recordsPerSector);
      ConcatFixedOfLength(a, b, h.recordLength);
      assert (sectors - 1) * h.recordsPerSector + h.recordsPerSector == sectors * h.recordsPerSector;
    }
  }

  /** Records read from variable sectors are shorter than 255 bytes. */
  lemma {:induction false} VariableRecordsShort(buf: seq<byte>, sectors: nat)
    requires VariableRecordsTI(buf, sectors).Some?
    ensures var rs := VariableRecordsTI(buf, sectors).value;
            forall k :: 0 <= k < |rs| ==> rs[k].Variable? && |rs[k].data| < 0xFF
  {
    if sectors > 0 {
      VariableRecordsShort(buf, sectors - 1);
      ScanRecords(buf, SECTOR_OFFSET + (sectors - 1) * 256, false);
    }
  }

  /** A loaded variable-record file with at least one record has well-defined geometry,
      and its sector count and end-of-file offset describe exactly its bytes. */
  lemma LoadedVariableGeometry(host: seq<byte>, buf: seq<byte>)
    requires ParseTIFile(host, buf).Loaded? && ParseTIFile(host, buf).file.IsVariable()
    requires ParseTIFile(host, buf).file.records != []
    ensures var f := ParseTIFile(host, buf).file;
            && !GeometryThrows(f) && 0 < EOFOffset(f) <= 256
            && ContainerLength(SectorCount(f), EOFOffset(f)) == FileSize(f)
  {
    var h := DetectHeader(host, buf).value;
    var f := ParseTIFile(host, buf).file;
    VariableRecordsShort(buf, h.sectors);
    var rs := VariableRecordsTI(buf, h.sectors).value;
    assert f.records == Somes(rs);
    VariableGeometry(f);
  }
}
