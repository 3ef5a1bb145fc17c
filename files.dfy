/** TI files as the disk code keeps them (`DiskFile`): a fixed set of attributes, a cursor
    over a record array that may contain holes, and the bytes of a program image.

    `FileState` is the value of one file; the class `DiskFile` updates a file in place and
    every method is specified by the `FileState` function it implements. */
module Files {
  import opened Bytes
  import opened Records

  const FILE_TYPE_DATA := 0
  const FILE_TYPE_PROGRAM := 1
  const ACCESS_TYPE_SEQUENTIAL := 0
  const ACCESS_TYPE_RELATIVE := 1
  const RECORD_TYPE_FIXED := 0
  const RECORD_TYPE_VARIABLE := 1
  const DATATYPE_DISPLAY := 0
  const DATATYPE_INTERNAL := 1
  const OPERATION_MODE_UPDATE := 0
  const OPERATION_MODE_OUTPUT := 1
  const OPERATION_MODE_INPUT := 2
  const OPERATION_MODE_APPEND := 3
  /** Operation mode and record pointer of a closed file. */
  const CLOSED := -1
  /** Access type of a file that was never opened (JavaScript `undefined`). */
  const UNSET := -1

  /** The record array: `None` is a hole, an index the array has no element at. */
  type Slots = seq<Option<Record>>

  /** The attribute combinations files are created with: a data file with a fixed or
      variable record type, a display or internal datatype and a record length of one byte,
      or a program file whose three data attributes are -1. */
  predicate ValidAttributes(fileType: int, recordType: int, recordLength: int, dataType: int)
  {
    || (&& fileType == FILE_TYPE_DATA
        && recordType in {RECORD_TYPE_FIXED, RECORD_TYPE_VARIABLE}
        && dataType in {DATATYPE_DISPLAY, DATATYPE_INTERNAL}
        && 0 <= recordLength < 0x100)
    || (fileType == FILE_TYPE_PROGRAM && recordType == -1 && recordLength == -1 && dataType == -1)
  }

  datatype FileState = FileState(
    name: seq<byte>,
    fileType: int,
    recordType: int,
    recordLength: int,
    dataType: int,
    operationMode: int,
    accessType: int,
    recordPointer: int,
    records: Slots,
    program: seq<byte>)
  {
    /** An open file always has a cursor at or after the first record. */
    predicate Valid()
    {
      && ValidAttributes(fileType, recordType, recordLength, dataType)
      && recordPointer >= CLOSED
      && (operationMode != CLOSED ==> recordPointer >= 0)
    }

    predicate IsData() { fileType == FILE_TYPE_DATA }
    predicate IsFixed() { IsData() && recordType == RECORD_TYPE_FIXED }
    predicate IsVariable() { IsData() && recordType != RECORD_TYPE_FIXED }
  }

  /** A file as its constructor leaves it: closed, no records, no program. */
  function NewFile(name: seq<byte>, fileType: int, recordType: int, recordLength: int, dataType: int): (f: FileState)
    requires ValidAttributes(fileType, recordType, recordLength, dataType)
    ensures f.Valid() && f.operationMode == CLOSED && f.records == [] && f.program == []
  {
    FileState(name, fileType, recordType, recordLength, dataType, CLOSED, UNSET, CLOSED, [], [])
  }

  /** The status flag bits of a TI file header or descriptor record: record type in
      bit 7, datatype in bit 1, file type in bit 0. */
  function FlagRecordType(flags: byte): int { flags / 0x80 }
  function FlagDataType(flags: byte): int { (flags / 2) % 2 }
  function FlagFileType(flags: byte): int { flags % 2 }

  /** The attributes a loader creates a file with from its status flags and record
      length: a data file keeps the decoded record type, datatype and length, a program
      file gets -1 for all three. */
  function FlagAttributes(flags: byte, recordLength: byte): (a: (int, int, int, int))
    ensures ValidAttributes(a.0, a.1, a.2, a.3)
    ensures a.0 == FlagFileType(flags)
    ensures a.0 == FILE_TYPE_DATA ==> a.1 == FlagRecordType(flags) && a.2 == recordLength && a.3 == FlagDataType(flags)
  {
    if FlagFileType(flags) == FILE_TYPE_DATA
    then (FILE_TYPE_DATA, FlagRecordType(flags), recordLength as int, FlagDataType(flags))
    else (FILE_TYPE_PROGRAM, -1, -1, -1)
  }

  // ---------------------------------------------------------------- record slots

  /** A record array without holes holding `rs`. */
  function Somes(rs: seq<Record>): (r: Slots)
    ensures |r| == |rs| && forall i :: 0 <= i < |rs| ==> r[i] == Some(rs[i])
  {
    seq(|rs|, i requires 0 <= i < |rs| => Some(rs[i]))
  }

  /** `records[p]`: the record at index `p`, or `None` at a hole or outside the array. */
  function SlotAt(rs: Slots, p: int): Option<Record>
  {
    if 0 <= p < |rs| then rs[p] else None
  }

  /** `records[p] = r`: past the end the array grows, leaving holes before index `p`. */
  function StoreAt(rs: Slots, p: nat, r: Record): (rs': Slots)
    ensures |rs'| == if p < |rs| then |rs| else p + 1
    ensures SlotAt(rs', p) == Some(r)
    ensures forall q :: q != p ==> SlotAt(rs', q) == SlotAt(rs, q)
  {
    if p < |rs| then rs[p := Some(r)]
    else rs + seq(p - |rs|, _ => None) + [Some(r)]
  }

  /** `delete records[p]`: the slot becomes a hole; the length of the array is unchanged. */
  function ClearAt(rs: Slots, p: int): (rs': Slots)
    ensures |rs'| == |rs|
    ensures SlotAt(rs', p) == None
    ensures forall q :: q != p ==> SlotAt(rs', q) == SlotAt(rs, q)
  {
    if 0 <= p < |rs| then rs[p := None] else rs
  }

  predicate NoHoles(rs: Slots)
  {
    forall i :: 0 <= i < |rs| ==> rs[i].Some?
  }

  /** Writing the records `rs` one after another from an empty array gives exactly `rs`. */
  lemma StoreAtEnd(rs: Slots, r: Record)
    ensures StoreAt(rs, |rs|, r) == rs + [Some(r)]
  {
  }

  // ---------------------------------------------------------------- cursor operations

  function Opened(f: FileState, mode: int, access: int): FileState
  {
    f.(operationMode := mode, recordPointer := 0, accessType := access)
  }

  function Closed(f: FileState): FileState
  {
    f.(operationMode := CLOSED, recordPointer := CLOSED)
  }

  function Seeked(f: FileState, p: nat): FileState
  {
    f.(recordPointer := p)
  }

  function Rewound(f: FileState): FileState
  {
    f.(recordPointer := 0)
  }

  function WithProgram(f: FileState, program: seq<byte>): FileState
  {
    f.(program := program)
  }

  /** `getRecord`: the record under the cursor (`None` at a hole or past the end) and the
      file with the cursor advanced by one. */
  function Fetched(f: FileState): (Option<Record>, FileState)
  {
    (SlotAt(f.records, f.recordPointer), f.(recordPointer := f.recordPointer + 1))
  }

  /** `putRecord`: `r` stored under the cursor, which then advances by one. */
  function Stored(f: FileState, r: Record): FileState
    requires f.recordPointer >= 0
  {
    f.(records := StoreAt(f.records, f.recordPointer, r), recordPointer := f.recordPointer + 1)
  }

  /** `deleteRecord`: the slot under the cursor becomes a hole. */
  function Cleared(f: FileState): FileState
  {
    f.(records := ClearAt(f.records, f.recordPointer))
  }

  /** `isEOF`: the cursor is at or past the end of the record array. */
  predicate AtEOF(f: FileState)
  {
    f.recordPointer >= |f.records|
  }

  /** `f` with exactly the records `rs` written to it sequentially, the cursor after them. */
  function Written(f: FileState, rs: seq<Record>): (w: FileState)
    ensures w.records == Somes(rs) && w.recordPointer == |rs|
  {
    f.(records := Somes(rs), recordPointer := |rs|)
  }

  /** A new file opened for output, written sequentially with `rs` and closed again, as
      the loaders and the catalog builder produce their files. */
  function WrittenFile(name: seq<byte>, fileType: int, recordType: int, recordLength: int, dataType: int, rs: seq<Record>): (f: FileState)
    requires ValidAttributes(fileType, recordType, recordLength, dataType)
    ensures f.Valid() && f.operationMode == CLOSED && NoHoles(f.records)
  {
    NewFile(name, fileType, recordType, recordLength, dataType).(accessType := ACCESS_TYPE_SEQUENTIAL, records := Somes(rs))
  }

  /** Every cursor operation keeps a valid file valid (a store needs an open file). */
  lemma OperationsPreserveValid(f: FileState, mode: int, access: int, p: nat, r: Record, program: seq<byte>)
    requires f.Valid()
    ensures Opened(f, mode, access).Valid() && Closed(f).Valid() && Seeked(f, p).Valid()
    ensures Rewound(f).Valid() && WithProgram(f, program).Valid() && Fetched(f).1.Valid()
    ensures Cleared(f).Valid()
    ensures f.operationMode != CLOSED ==> Stored(f, r).Valid()
  {
  }

  /** A record stored and read back at the same position is the record stored, and
      storing leaves every other position as it was. */
  lemma StoreThenFetch(f: FileState, r: Record, q: int)
    requires f.recordPointer >= 0
    ensures Fetched(Seeked(Stored(f, r), f.recordPointer)).0 == Some(r)
    ensures q != f.recordPointer ==> SlotAt(Stored(f, r).records, q) == SlotAt(f.records, q)
  {
  }

  /** Writing at the end of the array appends and keeps the cursor at the end, so a file
      opened for output and written sequentially holds exactly the records written. */
  lemma StoreAtEOF(f: FileState, r: Record)
    requires f.recordPointer == |f.records|
    ensures Stored(f, r).records == f.records + [Some(r)]
    ensures Stored(f, r).recordPointer == |Stored(f, r).records|
  {
  }

  /** Deleting the record under the cursor leaves a hole there, keeps the count and
      the cursor, and leaves every other slot alone. */
  lemma ClearedOnlyCursor(f: FileState, q: int)
    ensures |Cleared(f).records| == |f.records| && Cleared(f).recordPointer == f.recordPointer
    ensures SlotAt(Cleared(f).records, f.recordPointer) == None
    ensures q != f.recordPointer ==> SlotAt(Cleared(f).records, q) == SlotAt(f.records, q)
  {
  }

  // ---------------------------------------------------------------- geometry

  /** Sectors of a fixed-record file of `count` records of `recordLength` bytes:
      `count` over `floor(256 / recordLength)`, rounded up. A record length of 0 makes
      the divisor JavaScript's `Infinity`, so the count is then 0 or 1. */
  function FixedSectorCount(count: nat, recordLength: nat): nat
  {
    if recordLength == 0 then (if count == 0 then 0 else 1)
    else
      var rps := 256 / recordLength;
      if rps == 0 then 0
      else count / rps + (if count % rps == 0 then 0 else 1)
  }

  /** Bytes used in the last sector of a fixed-record file: `(count % rps) * recordLength`. */
  function FixedEOFOffset(count: nat, recordLength: nat): nat
  {
    if recordLength == 0 then 0
    else
      var rps := 256 / recordLength;
      if rps == 0 then 0 else (count % rps) * recordLength
  }

  /** The running packing of variable records into sectors, as `getSectorCount` and
      `getEOFOffset` compute it: each record takes its length plus one length byte, and
      a sector is counted whenever the running byte count passes 256.
      Returns the final byte count and the number of sectors counted. */
  function VariablePacking(rs: Slots): (r: (int, nat))
    requires NoHoles(rs)
    decreases |rs|
  {
    if rs == [] then (0, 0)
    else
      var (n, sectors) := VariablePacking(rs[..|rs| - 1]);
      var n' := n + |rs[|rs| - 1].value.data| + 1;
      if n' > 256 then (n' - 256, sectors + 1) else (n', sectors)
  }

  /** Total bytes of a variable-record file: every record plus its length byte. */
  function VariableSize(rs: Slots): (size: nat)
    requires NoHoles(rs)
    decreases |rs|
  {
    if rs == [] then 0 else VariableSize(rs[..|rs| - 1]) + |rs[|rs| - 1].value.data| + 1
  }

  /** `getSectorCount`, `getEOFOffset` and `getFileSize` call `getData()` on every record
      of a variable-record file, which throws at a hole. */
  predicate GeometryThrows(f: FileState)
  {
    f.IsVariable() && !NoHoles(f.records)
  }

  function SectorCount(f: FileState): nat
    requires f.Valid() && !GeometryThrows(f)
  {
    if f.IsFixed() then FixedSectorCount(|f.records|, f.recordLength)
    else if f.IsVariable() then VariablePacking(f.records).1 + 1
    else |f.program| / 256 + (if |f.program| % 256 == 0 then 0 else 1)
  }

  function EOFOffset(f: FileState): int
    requires f.Valid() && !GeometryThrows(f)
  {
    if f.IsFixed() then FixedEOFOffset(|f.records|, f.recordLength)
    else if f.IsVariable() then VariablePacking(f.records).0
    else |f.program| % 256
  }

  function FileSize(f: FileState): nat
    requires f.Valid() && !GeometryThrows(f)
  {
    if f.IsFixed() then f.recordLength * |f.records|
    else if f.IsVariable() then VariableSize(f.records)
    else |f.program|
  }

  /** The byte length a TI file header's sector count and end-of-file offset describe:
      whole sectors, less the unused tail of the last one when the offset is not 0. */
  function ContainerLength(sectors: int, eofOffset: int): int
  {
    sectors * 256 - (if eofOffset > 0 then 256 - eofOffset else 0)
  }

  /** The running packing never leaves more than a sector's worth of bytes pending, the
      bytes pending are positive once any record was packed, and packing loses no byte:
      every counted sector stands for exactly 256 bytes. */
  lemma {:induction false} VariablePackingInvariant(rs: Slots)
    requires NoHoles(rs)
    requires forall i :: 0 <= i < |rs| ==> |rs[i].value.data| < 256
    ensures 0 <= VariablePacking(rs).0 <= 256
    ensures rs != [] ==> VariablePacking(rs).0 > 0
    ensures VariablePacking(rs).1 * 256 + VariablePacking(rs).0 == VariableSize(rs)
    decreases |rs|
  {
    if rs != [] {
      VariablePackingInvariant(rs[..|rs| - 1]);
    }
  }

  /** A program file's sector count and end-of-file offset describe its length exactly:
      the sectors are the length in 256-byte units rounded up and the offset is what
      lies in the last, partial sector. */
  lemma ProgramGeometry(f: FileState)
    requires f.Valid() && f.fileType == FILE_TYPE_PROGRAM
    ensures 0 <= EOFOffset(f) < 256
    ensures (SectorCount(f) - 1) * 256 < |f.program| <= SectorCount(f) * 256 || (|f.program| == 0 && SectorCount(f) == 0)
    ensures ContainerLength(SectorCount(f), EOFOffset(f)) == FileSize(f)
  {
  }

  /** A fixed-record file needs exactly enough sectors for its records, `floor(256 / len)`
      to a sector, and the offset is the bytes of the records in the last partial sector. */
  lemma FixedGeometry(f: FileState)
    requires f.Valid() && f.IsFixed() && f.recordLength > 0
    ensures var rps := 256 / f.recordLength;
            && rps >= 1
            && ((SectorCount(f) - 1) * rps < |f.records| <= SectorCount(f) * rps || (|f.records| == 0 && SectorCount(f) == 0))
    ensures EOFOffset(f) < 256 && FileSize(f) == f.recordLength * |f.records|
  {
    var rps := 256 / f.recordLength;
    var n := |f.records|;
    assert rps >= 1;
    assert n == (n / rps) * rps + n % rps;
    assert (n % rps) * f.recordLength < rps * f.recordLength <= 256;
  }

  /** A variable-record file with at least one record and no record longer than 255
      bytes: the end-of-file offset is between 1 and 256 and, read back through a TI file
      header, sector count and offset describe exactly the bytes written. */
  lemma VariableGeometry(f: FileState)
    requires f.Valid() && f.IsVariable() && NoHoles(f.records) && f.records != []
    requires forall i :: 0 <= i < |f.records| ==> |f.records[i].value.data| < 256
    ensures 0 < EOFOffset(f) <= 256
    ensures ContainerLength(SectorCount(f), EOFOffset(f)) == FileSize(f)
  {
    VariablePackingInvariant(f.records);
  }

  // ---------------------------------------------------------------- the mutable file

  class DiskFile {
    const name: seq<byte>
    const fileType: int
    const recordType: int
    const recordLength: int
    const dataType: int
    var operationMode: int
    var accessType: int
    var recordPointer: int
    var records: Slots
    var program: seq<byte>

    function State(): FileState
      reads this
    {
      FileState(name, fileType, recordType, recordLength, dataType,
                operationMode, accessType, recordPointer, records, program)
    }

    ghost predicate Valid()
      reads this
    {
      State().Valid()
    }

    constructor (name: seq<byte>, fileType: int, recordType: int, recordLength: int, dataType: int)
      requires ValidAttributes(fileType, recordType, recordLength, dataType)
      ensures State() == NewFile(name, fileType, recordType, recordLength, dataType)
      ensures Valid()
    {
      this.name := name;
      this.fileType := fileType;
      this.recordType := recordType;
      this.recordLength := recordLength;
      this.dataType := dataType;
      operationMode := CLOSED;
      accessType := UNSET;
      recordPointer := CLOSED;
      records := [];
      program := [];
    }

    method Open(mode: int, access: int)
      modifies this
      ensures State() == Opened(old(State()), mode, access)
    {
      operationMode := mode;
      recordPointer := 0;
      accessType := access;
    }

    method Close()
      modifies this
      ensures State() == Closed(old(State()))
    {
      operationMode := CLOSED;
      recordPointer := CLOSED;
    }

    method SetRecordPointer(p: nat)
      modifies this
      ensures State() == Seeked(old(State()), p)
    {
      recordPointer := p;
    }

    method Rewind()
      modifies this
      ensures State() == Rewound(old(State()))
    {
      recordPointer := 0;
    }

    method SetProgram(p: seq<byte>)
      modifies this
      ensures State() == WithProgram(old(State()), p)
    {
      program := p;
    }

    method GetRecord() returns (r: Option<Record>)
      modifies this
      ensures (r, State()) == Fetched(old(State()))
    {
      r := SlotAt(records, recordPointer);
      recordPointer := recordPointer + 1;
    }

    method PutRecord(r: Record)
      requires recordPointer >= 0
      modifies this
      ensures State() == Stored(old(State()), r)
    {
      records := StoreAt(records, recordPointer, r);
      recordPointer := recordPointer + 1;
    }

    method DeleteRecord()
      modifies this
      ensures State() == Cleared(old(State()))
    {
      records := ClearAt(records, recordPointer);
    }

    function IsEOF(): bool
      reads this
    {
      AtEOF(State())
    }

    /** `getSectorCount`: for a variable-record file, the loop over the records. */
    method GetSectorCount() returns (sectors: nat)
      requires Valid() && !GeometryThrows(State())
      ensures sectors == SectorCount(State())
    {
      if fileType == FILE_TYPE_DATA {
        if recordType == RECORD_TYPE_FIXED {
          sectors := FixedSectorCount(|records|, recordLength);
        } else {
          var n := 0;
          sectors := 0;
          for i := 0 to |records|
            invariant (n, sectors) == VariablePacking(records[..i])
          {
            assert records[..i + 1][..i] == records[..i];
            n := n + |records[i].value.data| + 1;
            if n > 256 {
              n := n - 256;
              sectors := sectors + 1;
            }
          }
          assert records[..|records|] == records;
          sectors := sectors + 1;
        }
      } else {
        sectors := |program| / 256 + (if |program| % 256 == 0 then 0 else 1);
      }
    }

    /** `getEOFOffset`: for a variable-record file, the same loop keeping only the byte count. */
    method GetEOFOffset() returns (offset: int)
      requires Valid() && !GeometryThrows(State())
      ensures offset == EOFOffset(State())
    {
      if fileType == FILE_TYPE_DATA {
        if recordType == RECORD_TYPE_FIXED {
          offset := FixedEOFOffset(|records|, recordLength);
        } else {
          var n := 0;
          for i := 0 to |records|
            invariant n == VariablePacking(records[..i]).0
          {
            assert records[..i + 1][..i] == records[..i];
            n := n + |records[i].value.data| + 1;
            if n > 256 {
              n := n - 256;
            }
          }
          assert records[..|records|] == records;
          offset := n;
        }
      } else {
        offset := |program| % 256;
      }
    }

    /** `getFileSize`: for a variable-record file, the sum of record lengths plus one each. */
    method GetFileSize() returns (size: nat)
      requires Valid() && !GeometryThrows(State())
      ensures size == FileSize(State())
    {
      if fileType == FILE_TYPE_DATA {
        if recordType == RECORD_TYPE_FIXED {
          size := recordLength * |records|;
        } else {
          size := 0;
          for i := 0 to |records|
            invariant size == VariableSize(records[..i])
          {
            assert records[..i + 1][..i] == records[..i];
            size := size + |records[i].value.data| + 1;
          }
          assert records[..|records|] == records;
        }
      } else {
        size := |program|;
      }
    }
  }
}
