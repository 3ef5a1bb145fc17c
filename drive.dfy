/** A disk drive (`DiskDrive`): its name, the console's video RAM it shares, the disk image
    it holds, if any, and the catalog file of the last catalog OPEN. `dsrRoutine` serves
    the PABs programs place in that RAM; `loadDSKFile` reads a flat sector image into a new
    disk image. Every method is proved against the value-level specification: the PAB
    protocol, the catalog and the sector image format. */
module Drive {
  import opened Bytes
  import opened Records
  import opened Files
  import opened Directory
  import opened Framing
  import opened Catalog
  import opened DskFormat
  import opened Images
  import opened Protocol

  class DiskDrive {
    const name: seq<byte>
    const ram: array<byte>
    var diskImage: DiskImage?
    var catalogFile: Option<FileState>

    /** The image's file list is well formed and an open catalog is a valid file. */
    ghost predicate Valid()
      reads this, diskImage
    {
      && (diskImage != null ==> diskImage.Valid())
      && (catalogFile.Some? ==> catalogFile.value.Valid())
    }

    /** The image as a value, `None` when the drive is empty. */
    function ImageValue(): Option<ImageState>
      reads this, diskImage
    {
      if diskImage == null then None else Some(diskImage.State())
    }

    constructor (name: seq<byte>, ram: array<byte>, diskImage: DiskImage?)
      requires diskImage != null ==> diskImage.Valid()
      ensures this.name == name && this.ram == ram && this.diskImage == diskImage
      ensures catalogFile.None? && Valid()
    {
      this.name := name;
      this.ram := ram;
      this.diskImage := diskImage;
      catalogFile := None;
    }

    // ------------------------------------------------------------ RAM access

    /** A byte of RAM; 0 outside it. */
    method Load(a: int) returns (b: byte)
      ensures b == At(ram[..], a)
    {
      b := if 0 <= a < ram.Length then ram[a] else 0;
    }

    /** `len` bytes of RAM from `a`, one at a time. */
    method LoadBytes(a: int, len: nat) returns (bs: seq<byte>)
      ensures bs == Peek(ram[..], a, len)
    {
      bs := [];
      for i := 0 to len
        invariant |bs| == i && forall k :: 0 <= k < i ==> bs[k] == At(ram[..], a + k)
      {
        var b := Load(a + i);
        bs := bs + [b];
      }
    }

    /** A store into RAM, dropped outside it. */
    method StoreByte(a: int, b: byte)
      modifies ram
      ensures ram[..] == Poke(old(ram[..]), a, [b])
    {
      if 0 <= a < ram.Length {
        ram[a] := b;
      }
    }

    /** `bs` stored from `a` on, one byte at a time. */
    method StoreBytes(a: int, bs: seq<byte>)
      modifies ram
      ensures ram[..] == Poke(old(ram[..]), a, bs)
    {
      assert Poke(old(ram[..]), a, []) == old(ram[..]);
      for i := 0 to |bs|
        invariant ram[..] == Poke(old(ram[..]), a, bs[..i])
      {
        StoreByte(a + i, bs[i]);
        PokeConcat(old(ram[..]), a, bs[..i], [bs[i]]);
        assert bs[..i] + [bs[i]] == bs[..i + 1];
      }
      assert bs[..|bs|] == bs;
    }

    /** A word stored high byte first (`(w & 0xFF00) >> 8`, then `w & 0xFF`). */
    method StoreWord(a: int, w: int)
      modifies ram
      ensures ram[..] == Poke(old(ram[..]), a, Word(w))
    {
      StoreByte(a, (w % 0x10000) / 0x100);
      StoreByte(a + 1, w % 0x100);
      PokeConcat(old(ram[..]), a, [(w % 0x10000) / 0x100], [w % 0x100]);
    }

    /** The PAB at `p`, its file name copied byte by byte. */
    method ReadPabFields(p: int) returns (pab: Pab)
      ensures pab == ReadPab(ram[..], p)
    {
      var opCode := Load(p);
      var flags := Load(p + 1);
      var bufferHigh := Load(p + 2);
      var bufferLow := Load(p + 3);
      var recordLength := Load(p + 4);
      var characterCount := Load(p + 5);
      var numberHigh := Load(p + 6);
      var numberLow := Load(p + 7);
      var fileNameLength := Load(p + 9);
      var fileName := LoadBytes(p + 10, fileNameLength);
      pab := Pab(opCode, flags, bufferHigh as int * 0x100 + bufferLow, recordLength, characterCount,
                 numberHigh as int * 0x100 + numberLow, fileName);
    }

    // ------------------------------------------------------------ the DSR

    /** The drive's state after an operation is the effect `e` describes. */
    ghost predicate Holds(img: DiskImage, e: Effect, error: ErrorCode)
      reads this, img, ram
    {
      img.files == e.files && catalogFile == e.catalog && ram[..] == e.ram && error == e.error
    }

    /** `dsrRoutine(p)`: serves the PAB at `p` and returns the status (0x20 when the PAB
        names another drive); the error code goes into the PAB's flag byte. `throws` when
        building the catalog throws, and then nothing has changed. */
    method DsrRoutine(p: int) returns (status: byte, throws: bool)
      requires Valid()
      modifies this, ram, diskImage
      ensures Valid() && diskImage == old(diskImage)
      ensures var r := Dsr(name, old(ImageValue()), old(catalogFile), old(ram[..]), p);
              && (throws <==> r.None?)
              && (r.Some? ==> && ImageValue() == r.value.image && catalogFile == r.value.catalog
                              && ram[..] == r.value.ram && status == r.value.status)
              && (r.None? ==> && ImageValue() == old(ImageValue()) && catalogFile == old(catalogFile)
                              && ram[..] == old(ram[..]))
    {
      var pab := ReadPabFields(p);
      var errorCode: ErrorCode := NO_ERROR;
      status, throws := 0, false;
      if diskImage != null {
        if |name| < |pab.fileName| && pab.fileName[..|name| + 1] == name + [DOT] {
          var fileName := pab.fileName[|name| + 1..];
          errorCode, throws := Perform(diskImage, p, pab, fileName);
          if throws {
            return;
          }
        } else {
          status := NOT_THIS_DEVICE;
        }
      } else {
        errorCode := ERROR_DEVICE_ERROR;
      }
      StoreError(p, errorCode);
    }

    /** The error code goes into the three high bits of the PAB's flag byte. */
    method StoreError(p: int, errorCode: ErrorCode)
      modifies ram
      ensures ram[..] == SetError(old(ram[..]), p, errorCode)
    {
      var flags := Load(p + 1);
      StoreByte(p + 1, OrByte(flags, errorCode * 32));
    }

    /** The operation the PAB's op-code names, on the image `img` the drive holds. */
    method Perform(img: DiskImage, p: int, pab: Pab, fileName: seq<byte>) returns (error: ErrorCode, throws: bool)
      requires Valid() && diskImage == img
      modifies this, ram, img
      ensures Valid() && diskImage == old(diskImage)
      ensures var e := Operation(old(img.State()), old(catalogFile), old(ram[..]), p, pab, fileName);
              && (throws <==> e.None?)
              && (e.Some? ==> Holds(img, e.value, error))
              && (e.None? ==> img.files == old(img.files) && catalogFile == old(catalogFile) && ram[..] == old(ram[..]))
    {
      OperationKeepsInvariant(img.State(), catalogFile, ram[..], p, pab, fileName);
      throws := false;
      var op := pab.opCode;
      if op == OP_OPEN {
        error, throws := OpenFile(img, p, pab, fileName);
      } else if op == OP_CLOSE {
        error := CloseFile(img, pab, fileName);
      } else if op == OP_READ {
        error := ReadRecord(img, p, pab, fileName);
      } else if op == OP_WRITE {
        error := WriteRecord(img, p, pab, fileName);
      } else if op == OP_REWIND {
        error := RewindFile(img, pab, fileName);
      } else if op == OP_LOAD {
        error := LoadProgram(img, pab, fileName);
      } else if op == OP_SAVE {
        error := SaveProgram(img, pab, fileName);
      } else if op == OP_DELETE {
        error := DeleteFile(img, fileName);
      } else if op == OP_SCRATCH {
        error := ScratchRecord(img, pab, fileName);
      } else if op == OP_STATUS {
        error := FileStatus(img, p, fileName);
      } else {
        error := ERROR_ILLEGAL_OPERATION;
      }
    }

    /** OPEN: creates a file for output, opens an existing one, or builds the catalog. */
    method OpenFile(img: DiskImage, p: int, pab: Pab, fileName: seq<byte>) returns (error: ErrorCode, throws: bool)
      requires img.Valid() && diskImage == img
      modifies this, ram, img
      ensures diskImage == old(diskImage)
      ensures var e := OpenOp(img.name, old(img.files), old(catalogFile), old(ram[..]), p, pab, fileName);
              && (throws <==> e.None?)
              && (e.Some? ==> Holds(img, e.value, error))
              && (e.None? ==> img.files == old(img.files) && catalogFile == old(catalogFile) && ram[..] == old(ram[..]))
    {
      var mode, access := PabMode(pab.flags), PabAccess(pab.flags);
      var recordType, dataType := PabRecordType(pab.flags), PabDataType(pab.flags);
      var recordLength := pab.recordLength;
      error, throws := NO_ERROR, false;
      if mode == OPERATION_MODE_OUTPUT {
        if recordLength == 0 {
          recordLength := DEFAULT_RECORD_LENGTH;
          StoreByte(p + 4, recordLength);
        }
        FlagFields(pab.flags);
        var file := new DiskFile(fileName, FILE_TYPE_DATA, recordType, recordLength, dataType);
        file.Open(mode, access);
        img.PutFile(file.State());
      } else if |fileName| > 0 {
        var found := img.GetFile(fileName);
        if found.None? {
          return ERROR_FILE_ERROR, false;
        }
        var f := found.value;
        if || f.operationMode != CLOSED || f.fileType == FILE_TYPE_PROGRAM || f.recordType != recordType
           || (f.recordLength != recordLength && recordLength != 0) {
          return ERROR_BAD_OPEN_ATTRIBUTE, false;
        }
        if recordLength == 0 {
          StoreByte(p + 4, f.recordLength);
        }
        img.PutFile(Opened(f, mode, access));
      } else if mode == OPERATION_MODE_INPUT {
        var cat;
        cat, throws := CreateCatalogFile(img);
        if throws {
          return;
        }
        cat.Open(mode, access);
        catalogFile := Some(cat.State());
        if recordLength == 0 {
          StoreByte(p + 4, CATALOG_RECORD_LENGTH);
        }
      } else {
        error := ERROR_ILLEGAL_OPERATION;
      }
    }

    /** CLOSE: closes a named data file open in the PAB's mode, or drops the catalog. */
    method CloseFile(img: DiskImage, pab: Pab, fileName: seq<byte>) returns (error: ErrorCode)
      modifies this, img
      ensures diskImage == old(diskImage)
      ensures Holds(img, CloseOp(old(img.files), old(catalogFile), ram[..], pab, fileName), error)
    {
      error := NO_ERROR;
      if |fileName| > 0 {
        var found := img.GetFile(fileName);
        if found.Some? {
          if found.value.fileType == FILE_TYPE_DATA {
            if found.value.operationMode == PabMode(pab.flags) {
              img.PutFile(Closed(found.value));
            } else {
              error := ERROR_ILLEGAL_OPERATION;
            }
          } else {
            error := ERROR_FILE_ERROR;
          }
        } else {
          error := ERROR_FILE_ERROR;
        }
      } else {
        catalogFile := None;
      }
    }

    /** READ: the record under the cursor of a data file (or the catalog) into the data
        buffer, its length into the character count and the new cursor into the record
        number. */
    method ReadRecord(img: DiskImage, p: int, pab: Pab, fileName: seq<byte>) returns (error: ErrorCode)
      modifies this, ram, img
      ensures diskImage == old(diskImage)
      ensures Holds(img, ReadOp(old(img.files), old(catalogFile), old(ram[..]), p, pab, fileName), error)
    {
      var found: Option<FileState>;
      if |fileName| > 0 {
        found := img.GetFile(fileName);
      } else {
        found := catalogFile;
      }
      if found.None? || found.value.fileType != FILE_TYPE_DATA {
        return ERROR_FILE_ERROR;
      }
      var f;
      f, error := ReadFromFile(found.value, p, pab, |fileName| > 0);
      if |fileName| > 0 {
        img.PutFile(f);
      } else {
        catalogFile := Some(f);
      }
    }

    /** READ from the data file `f`, moved to the record number first when `seek` says so. */
    method ReadFromFile(f: FileState, p: int, pab: Pab, seek: bool) returns (f': FileState, error: ErrorCode)
      modifies ram
      ensures (f', ram[..], error) == ReadFrom(f, old(ram[..]), p, pab, seek)
    {
      f' := f;
      var mode := PabMode(pab.flags);
      if f'.accessType == ACCESS_TYPE_RELATIVE && seek {
        f' := Seeked(f', pab.recordNumber);
      }
      var record := SlotAt(f'.records, f'.recordPointer);
      f' := f'.(recordPointer := f'.recordPointer + 1);
      error := NO_ERROR;
      if record.Some? {
        if f'.operationMode == mode {
          if mode == OPERATION_MODE_UPDATE || mode == OPERATION_MODE_INPUT {
            DeliverRecord(p, pab, record.value.data, f'.recordPointer);
          } else {
            error := ERROR_ILLEGAL_OPERATION;
          }
        } else {
          error := ERROR_ILLEGAL_OPERATION;
        }
      } else {
        f' := Closed(f');
        error := ERROR_READ_PAST_END;
      }
    }

    /** A record handed to the program: at most the record length of its bytes into the
        data buffer, their number at byte 5 of the PAB and the record pointer at byte 6. */
    method DeliverRecord(p: int, pab: Pab, data: seq<byte>, pointer: int)
      modifies ram
      ensures ram[..] == Delivered(old(ram[..]), p, pab, data, pointer)
    {
      var bytesToRead: byte := if |data| < pab.recordLength then |data| else pab.recordLength;
      StoreBytes(pab.bufferAddress, data[..bytesToRead]);
      StoreByte(p + 5, bytesToRead);
      StoreWord(p + 6, pointer);
    }

    /** WRITE: the data buffer as a record into a data file open in the PAB's mode. */
    method WriteRecord(img: DiskImage, p: int, pab: Pab, fileName: seq<byte>) returns (error: ErrorCode)
      requires img.Valid()
      modifies ram, img
      ensures Holds(img, WriteOp(old(img.files), catalogFile, old(ram[..]), p, pab, fileName), error)
    {
      var found := img.GetFile(fileName);
      if found.None? || found.value.fileType != FILE_TYPE_DATA {
        return ERROR_FILE_ERROR;
      }
      var f := found.value;
      var mode := PabMode(pab.flags);
      if f.operationMode != mode {
        return ERROR_ILLEGAL_OPERATION;
      }
      if f.accessType == ACCESS_TYPE_RELATIVE {
        f := Seeked(f, pab.recordNumber);
      }
      var record := TakeRecord(pab);
      error := NO_ERROR;
      if mode == OPERATION_MODE_UPDATE {
        f := Stored(f, record);
      } else if mode == OPERATION_MODE_INPUT {
        error := ERROR_ILLEGAL_OPERATION;
      } else if AtEOF(f) {
        f := Stored(f, record);
      } else {
        error := ERROR_ILLEGAL_OPERATION;
      }
      img.PutFile(f);
      StoreWord(p + 6, f.recordPointer);
    }

    /** The record in the data buffer: the record length's worth of bytes for a fixed
        record, the character count's for a variable one. */
    method TakeRecord(pab: Pab) returns (record: Record)
      ensures record == BufferRecord(ram[..], pab)
    {
      var fixed := PabRecordType(pab.flags) == RECORD_TYPE_FIXED;
      var bytesToWrite := if fixed then pab.recordLength else pab.characterCount;
      var writeBuffer := LoadBytes(pab.bufferAddress, bytesToWrite);
      if fixed {
        record := NewFixedRecord(writeBuffer, pab.recordLength);
      } else {
        record := Variable(writeBuffer);
      }
    }

    /** REWIND: the cursor of a data file open in the PAB's mode back to the start. */
    method RewindFile(img: DiskImage, pab: Pab, fileName: seq<byte>) returns (error: ErrorCode)
      modifies img
      ensures Holds(img, RewindOp(old(img.files), catalogFile, ram[..], pab, fileName), error)
    {
      var found := img.GetFile(fileName);
      if found.None? {
        return ERROR_FILE_ERROR;
      }
      if found.value.operationMode != PabMode(pab.flags) {
        return ERROR_ILLEGAL_OPERATION;
      }
      if found.value.fileType == FILE_TYPE_PROGRAM {
        return ERROR_FILE_ERROR;
      }
      img.PutFile(Rewound(found.value));
      error := NO_ERROR;
    }

    /** LOAD: a program, cut to the record number, into the data buffer. */
    method LoadProgram(img: DiskImage, pab: Pab, fileName: seq<byte>) returns (error: ErrorCode)
      modifies ram
      ensures Holds(img, LoadOp(img.files, catalogFile, old(ram[..]), pab, fileName), error)
    {
      var found := img.GetFile(fileName);
      if found.None? || found.value.fileType != FILE_TYPE_PROGRAM {
        return ERROR_FILE_ERROR;
      }
      var loadBuffer := found.value.program;
      var count := if pab.recordNumber < |loadBuffer| then pab.recordNumber else |loadBuffer|;
      StoreBytes(pab.bufferAddress, loadBuffer[..count]);
      error := NO_ERROR;
    }

    /** SAVE: the data buffer, as many bytes as the record number, as a file's program; a
        missing file is first created as a program file. */
    method SaveProgram(img: DiskImage, pab: Pab, fileName: seq<byte>) returns (error: ErrorCode)
      requires img.Valid()
      modifies img
      ensures Holds(img, SaveOp(old(img.files), catalogFile, ram[..], pab, fileName), error)
    {
      var found := img.GetFile(fileName);
      var f: FileState;
      if found.None? {
        f := NewFile(fileName, FILE_TYPE_PROGRAM, -1, -1, -1);
        img.PutFile(f);
      } else {
        f := found.value;
      }
      var saveBuffer := LoadBytes(pab.bufferAddress, pab.recordNumber);
      ghost var before := img.files;
      img.PutFile(WithProgram(f, saveBuffer));
      if found.None? {
        PutTwice(old(img.files), f, WithProgram(f, saveBuffer));
      }
      error := NO_ERROR;
    }

    /** DELETE: the named file leaves the image. */
    method DeleteFile(img: DiskImage, fileName: seq<byte>) returns (error: ErrorCode)
      modifies img
      ensures Holds(img, DeleteOp(old(img.files), catalogFile, ram[..], fileName), error)
    {
      var found := img.GetFile(fileName);
      if found.None? {
        return ERROR_FILE_ERROR;
      }
      img.DeleteFile(fileName);
      error := NO_ERROR;
    }

    /** SCRATCH: in a relative data file open for update, the record after the one the
        record number addresses becomes a hole, once that one is read. */
    method ScratchRecord(img: DiskImage, pab: Pab, fileName: seq<byte>) returns (error: ErrorCode)
      modifies img
      ensures Holds(img, ScratchOp(old(img.files), catalogFile, ram[..], pab, fileName), error)
    {
      var found := img.GetFile(fileName);
      if found.None? || found.value.fileType != FILE_TYPE_DATA {
        return ERROR_FILE_ERROR;
      }
      var f := found.value;
      var mode := PabMode(pab.flags);
      if f.operationMode != mode || f.accessType != ACCESS_TYPE_RELATIVE {
        return ERROR_ILLEGAL_OPERATION;
      }
      f := Seeked(f, pab.recordNumber);
      error := NO_ERROR;
      if mode == OPERATION_MODE_UPDATE {
        var record := SlotAt(f.records, f.recordPointer);
        f := f.(recordPointer := f.recordPointer + 1);
        if record.Some? {
          f := Cleared(f);
        } else {
          error := ERROR_ILLEGAL_OPERATION;
        }
      } else {
        error := ERROR_ILLEGAL_OPERATION;
      }
      img.PutFile(f);
    }

    /** STATUS: the file's status bits, or "no such file", into byte 8 of the PAB. */
    method FileStatus(img: DiskImage, p: int, fileName: seq<byte>) returns (error: ErrorCode)
      modifies ram
      ensures Holds(img, StatusOp(img.files, catalogFile, old(ram[..]), p, fileName), error)
    {
      var fileStatus: byte := 0;
      var found := img.GetFile(fileName);
      if found.Some? {
        var f := found.value;
        if f.dataType == DATATYPE_INTERNAL {
          fileStatus := fileStatus + STATUS_INTERNAL;
        }
        if f.fileType == FILE_TYPE_PROGRAM {
          fileStatus := fileStatus + STATUS_PROGRAM;
        }
        if f.recordType == RECORD_TYPE_VARIABLE {
          fileStatus := fileStatus + STATUS_VARIABLE;
        }
        if AtEOF(f) {
          fileStatus := fileStatus + STATUS_EOF;
        }
      } else {
        fileStatus := STATUS_NO_SUCH_FILE;
      }
      StoreByte(p + 8, fileStatus);
      error := NO_ERROR;
    }

    // ------------------------------------------------------------ the catalog

    /** `createCatalogFile`: the volume record, one record per file and the terminator,
        written through one reused byte array. `throws` when a file's sector count throws. */
    method CreateCatalogFile(img: DiskImage) returns (cat: DiskFile, throws: bool)
      requires img.Valid()
      ensures fresh(cat)
      ensures throws <==> CatalogThrows(img.files)
      ensures !throws ==> cat.State() == CatalogFile(img.name, img.files)
    {
      cat := new DiskFile(Ascii("CATALOG"), FILE_TYPE_DATA, RECORD_TYPE_FIXED, 38, DATATYPE_INTERNAL);
      cat.Open(OPERATION_MODE_OUTPUT, ACCESS_TYPE_SEQUENTIAL);
      ghost var empty := cat.State();
      var data := WriteCatalogRecord(cat, [], PadRight(img.name, SPACE, 10), 0, VOLUME_SECTORS, FREE_SECTORS, empty, []);
      ghost var volume := VolumeBytes(img.name);
      ghost var head := Fixed(FixedBytes(volume, 38));
      FixedBytesTruncates(volume, 38);
      assert data[..|volume|] == volume;
      assert data[..38] == volume[..38];
      assert [Fixed(data[..38])] == [head];
      data, throws := WriteEntries(cat, data, img.name, img.files, empty, head);
      if throws {
        return;
      }
      WriteTerminator(cat, data, empty, [head] + EntryRecords(img.files), LastWritten(img.name, img.files));
      cat.Close();
    }

    /** The record of every file, in map order, after the volume record `head`; `throws`
        when a file's sector count throws. */
    static method WriteEntries(cat: DiskFile, data: seq<byte>, volumeName: seq<byte>, files: seq<FileState>,
                               ghost empty: FileState, ghost head: Record) returns (data': seq<byte>, throws: bool)
      requires AllValid(files)
      requires cat.State() == Written(empty, [head])
      requires |data| >= |VolumeBytes(volumeName)| && data[..|VolumeBytes(volumeName)|] == VolumeBytes(volumeName)
      modifies cat
      ensures throws <==> CatalogThrows(files)
      ensures !throws ==> && cat.State() == Written(empty, [head] + EntryRecords(files))
                          && |data'| >= |LastWritten(volumeName, files)|
                          && data'[..|LastWritten(volumeName, files)|] == LastWritten(volumeName, files)
    {
      data' := data;
      assert files[..0] == [];
      assert [head] + EntryRecords(files[..0]) == [head];
      for i := 0 to |files|
        invariant AllValid(files[..i]) && !CatalogThrows(files[..i])
        invariant cat.State() == Written(empty, [head] + EntryRecords(files[..i]))
        invariant |data'| >= |LastWritten(volumeName, files[..i])|
        invariant data'[..|LastWritten(volumeName, files[..i])|] == LastWritten(volumeName, files[..i])
      {
        if GeometryThrows(files[i]) {
          return data', true;
        }
        data' := WriteEntry(cat, data', volumeName, files, i, empty, head);
      }
      assert files[..|files|] == files;
      throws := false;
    }

    /** The record of `files[i]`: padded name, type code, sectors used and record length. */
    static method WriteEntry(cat: DiskFile, data: seq<byte>, volumeName: seq<byte>, files: seq<FileState>, i: nat,
                             ghost empty: FileState, ghost head: Record) returns (data': seq<byte>)
      requires AllValid(files) && i < |files| && !CatalogThrows(files[..i]) && !GeometryThrows(files[i])
      requires cat.State() == Written(empty, [head] + EntryRecords(files[..i]))
      requires |data| >= 38
      modifies cat
      ensures AllValid(files[..i + 1]) && !CatalogThrows(files[..i + 1])
      ensures cat.State() == Written(empty, [head] + EntryRecords(files[..i + 1]))
      ensures |data'| >= |LastWritten(volumeName, files[..i + 1])|
      ensures data'[..|LastWritten(volumeName, files[..i + 1])|] == LastWritten(volumeName, files[..i + 1])
    {
      var file := files[i];
      CatalogStep(volumeName, files, i);
      ghost var rs := EntryRecords(files[..i]);
      data' := WriteCatalogRecord(cat, data, PadRight(file.name, SPACE, 10), TypeCode(file), SectorCount(file), file.recordLength,
                                  empty, [head] + rs);
      ghost var bytes := EntryBytes(file);
      assert data'[..|bytes|] == bytes;
      FixedBytesTruncates(bytes, 38);
      assert data'[..38] == bytes[..38];
      assert [head] + rs + [Fixed(data'[..38])] == [head] + (rs + [Fixed(FixedBytes(bytes, 38))]);
    }

    /** The terminator: an empty name and three zeros over the start of the reused array,
        whose bytes 28 to 37 are still those of the last record written. */
    static method WriteTerminator(cat: DiskFile, data: seq<byte>, ghost empty: FileState, ghost rs: seq<Record>, ghost last: seq<byte>)
      requires cat.State() == Written(empty, rs)
      requires |last| >= 38 && |data| >= |last| && data[..|last|] == last
      modifies cat
      ensures cat.State() == Written(empty, rs + [Fixed(TerminatorBytes() + last[28..38])])
    {
      var data' := WriteCatalogRecord(cat, data, [], 0, 0, 0, empty, rs);
      assert data'[..38] == TerminatorBytes() + last[28..38] by {
        assert data'[..28] == TerminatorBytes();
        assert data'[28..38] == data[28..38] == last[28..38];
      }
    }

    /** One catalog record: a string and three numbers written from the start of the
        reused byte array, whose first 38 bytes become the next fixed record. */
    static method WriteCatalogRecord(cat: DiskFile, data: seq<byte>, s: seq<byte>, a: int, b: int, c: int,
                                     ghost empty: FileState, ghost rs: seq<Record>) returns (data': seq<byte>)
      requires cat.State() == Written(empty, rs)
      requires 38 <= |data| || 10 <= |s|
      modifies cat
      ensures data' == GrowWrite(data, 0, StringBytes(s) + FloatBytes(a) + FloatBytes(b) + FloatBytes(c))
      ensures |data'| >= 38 && cat.State() == Written(empty, rs + [Fixed(data'[..38])])
    {
      data' := WriteFields(data, s, a, b, c);
      var record := NewFixedRecord(data', 38);
      FixedBytesTruncates(data', 38);
      DiskImage.Append(cat, record, empty, rs);
    }

    /** A string and three numbers written from the start of the reused byte array. */
    static method WriteFields(data: seq<byte>, s: seq<byte>, a: int, b: int, c: int) returns (data': seq<byte>)
      ensures data' == GrowWrite(data, 0, StringBytes(s) + FloatBytes(a) + FloatBytes(b) + FloatBytes(c))
    {
      var n := 0;
      data', n := WriteAsString(data, n, s);
      data', n := WriteAsFloat(data', n, a);
      GrowWriteConcat(data, 0, StringBytes(s), FloatBytes(a));
      data', n := WriteAsFloat(data', n, b);
      GrowWriteConcat(data, 0, StringBytes(s) + FloatBytes(a), FloatBytes(b));
      data', n := WriteAsFloat(data', n, c);
      GrowWriteConcat(data, 0, StringBytes(s) + FloatBytes(a) + FloatBytes(b), FloatBytes(c));
    }

    // ------------------------------------------------------------ loading a sector image

    /** `loadDSKFile(buf)`: a new image named after the volume, with every file the
        descriptor index names, put in index order; the drive then holds it. `diverges`
        when a variable-record scan runs off the end of the buffer, where the source loops
        forever; the drive then keeps its image. */
    method LoadDskFile(buf: seq<byte>) returns (diverges: bool)
      requires Valid()
      modifies this
      ensures Valid() && catalogFile == old(catalogFile)
      ensures diverges <==> ParseDsk(buf).None?
      ensures !diverges ==> diskImage != null && fresh(diskImage) && diskImage.State() == ParseDsk(buf).value
      ensures diverges ==> diskImage == old(diskImage)
    {
      var volumeName := DiskImage.CopyBytes(buf, 0, 10);
      var image := new DiskImage(Trim(volumeName));
      diverges := LoadEntries(image, buf);
      ParseDskGathered(buf, if diverges then None else Some(image.files));
      if !diverges {
        diskImage := image;
      }
    }

    /** The files of the descriptor index, one entry after another, put into `image`. */
    static method LoadEntries(image: DiskImage, buf: seq<byte>) returns (stuck: bool)
      requires image.files == []
      modifies image
      ensures stuck <==> Gather(Entries(buf)).None?
      ensures !stuck ==> Gather(Entries(buf)) == Some(image.files)
    {
      var totalSectors := WordAt(buf, 0x0A);
      for k := 0 to INDEX_ENTRIES
        invariant Gather(Entries(buf)[..k]) == Some(image.files)
      {
        stuck := LoadEntry(image, buf, totalSectors, k);
        if stuck {
          GatherStuck(Entries(buf), k + 1);
          return;
        }
      }
      assert Entries(buf)[..INDEX_ENTRIES] == Entries(buf);
      stuck := false;
    }

    /** Index entry `k`: nothing when it is 0, else the file its descriptor record
        describes, put into `image`. */
    static method LoadEntry(image: DiskImage, buf: seq<byte>, totalSectors: nat, k: nat) returns (stuck: bool)
      requires totalSectors == TotalSectors(buf) && k < INDEX_ENTRIES
      requires Gather(Entries(buf)[..k]) == Some(image.files)
      modifies image
      ensures stuck <==> Gather(Entries(buf)[..k + 1]).None?
      ensures !stuck ==> Gather(Entries(buf)[..k + 1]) == Some(image.files)
    {
      ghost var es := Entries(buf);
      assert es[..k + 1][..k] == es[..k];
      var sectorNo := WordAt(buf, 0x100 + 2 * k);
      stuck := false;
      if sectorNo != 0 {
        var file;
        file, stuck := LoadFile(buf, totalSectors, sectorNo * 256);
        if !stuck {
          image.PutFile(file);
        }
      }
    }

    /** The file the descriptor record at `fdr` describes, read along its data chain. */
    static method LoadFile(buf: seq<byte>, total: nat, fdr: nat) returns (file: FileState, stuck: bool)
      ensures stuck <==> LoadedFile(buf, total, fdr).None?
      ensures !stuck ==> file == LoadedFile(buf, total, fdr).value
    {
      var d := ReadDescriptor(buf, fdr);
      var (fileType, recordType, recordLength, dataType) := FlagAttributes(d.flags, d.recordLength);
      var diskFile := new DiskFile(d.name, fileType, recordType, recordLength, dataType);
      diskFile.Open(OPERATION_MODE_OUTPUT, ACCESS_TYPE_SEQUENTIAL);
      ghost var empty := diskFile.State();
      var program: seq<byte> := [];
      var sectorsLeft: int := d.sectorsAllocated;
      var nLast: int := -1;
      ghost var got: seq<Record> := [];
      for k := 0 to CHAIN_ENTRIES
        invariant ChainWalk(buf, d, total, fdr, k) == Some(Walk(nLast, sectorsLeft, got, program))
        invariant diskFile.State() == Written(empty, got)
      {
        var (m, n) := ChainAt(buf, fdr, k);
        if m != 0 {
          var startSector := RunStart(m, total);
          var endSector := startSector + n - (nLast + 1);
          nLast := n;
          ghost var w := Walk(nLast, sectorsLeft, got, program);
          sectorsLeft, program, got, stuck := LoadRun(diskFile, buf, d, startSector, endSector, sectorsLeft, program, w, empty);
          if stuck {
            file := diskFile.State();
            ChainWalkStuck(buf, d, total, fdr, k + 1, CHAIN_ENTRIES);
            return;
          }
        }
      }
      diskFile.Close();
      if fileType == FILE_TYPE_PROGRAM {
        diskFile.SetProgram(program);
      }
      file, stuck := diskFile.State(), false;
    }

    /** The sectors `start` to `end` of a file, in order. */
    static method LoadRun(file: DiskFile, buf: seq<byte>, d: Descriptor, start: nat, end: int,
                          sectorsLeft: int, program: seq<byte>, ghost w: Walk, ghost empty: FileState)
      returns (sectorsLeft': int, program': seq<byte>, ghost got: seq<Record>, stuck: bool)
      requires w.sectorsLeft == sectorsLeft && w.program == program
      requires file.State() == Written(empty, w.records)
      modifies file
      ensures var run := WalkRun(buf, d, start, if end + 1 - start > 0 then end + 1 - start else 0, w);
              && (stuck <==> run.None?)
              && (!stuck ==> run == Some(Walk(w.nLast, sectorsLeft', got, program')) && file.State() == Written(empty, got))
    {
      sectorsLeft', program', got, stuck := sectorsLeft, program, w.records, false;
      var sector := start;
      while sector <= end
        invariant start <= sector && (sector <= end + 1 || sector == start)
        invariant WalkRun(buf, d, start, sector - start, w) == Some(Walk(w.nLast, sectorsLeft', got, program'))
        invariant file.State() == Written(empty, got)
        decreases end - sector
      {
        ghost var before := Walk(w.nLast, sectorsLeft', got, program');
        sectorsLeft', program', got, stuck := LoadSector(file, buf, d, sector, sectorsLeft', program', before, empty);
        if stuck {
          WalkRunStuck(buf, d, start, sector + 1 - start, end + 1 - start, w);
          return;
        }
        sector := sector + 1;
      }
    }

    /** One sector of a file: its fixed records, its variable records up to the end
        marker (0xFF, or 0), or its program bytes. */
    static method LoadSector(file: DiskFile, buf: seq<byte>, d: Descriptor, sector: nat,
                             sectorsLeft: int, program: seq<byte>, ghost w: Walk, ghost empty: FileState)
      returns (sectorsLeft': int, program': seq<byte>, ghost got: seq<Record>, stuck: bool)
      requires w.sectorsLeft == sectorsLeft && w.program == program
      requires file.State() == Written(empty, w.records)
      modifies file
      ensures stuck <==> SectorStep(buf, d, sector, w).None?
      ensures !stuck ==> SectorStep(buf, d, sector, w) == Some(Walk(w.nLast, sectorsLeft', got, program'))
                         && file.State() == Written(empty, got)
    {
      sectorsLeft', program', got, stuck := sectorsLeft - 1, program, w.records, false;
      if FlagFileType(d.flags) == FILE_TYPE_DATA {
        if FlagRecordType(d.flags) == RECORD_TYPE_FIXED {
          LoadFixedSector(file, buf, sector, d.recordsPerSector, d.recordLength, empty, w.records);
          got := w.records + FixedSector(buf, sector, d.recordsPerSector, d.recordLength);
        } else {
          stuck := DiskImage.ReadVariableSector(file, buf, sector * 256, true, empty, w.records);
          if !stuck {
            got := w.records + Scan(buf, sector * 256, true).value;
          }
        }
      } else {
        var count := if sectorsLeft' > 0 || d.eofOffset == 0 then 256 else d.eofOffset;
        var bytes := DiskImage.CopyBytes(buf, sector * 256, count);
        program' := program' + bytes;
      }
    }

    /** The first `count` fixed records of a sector, one after another. */
    static method LoadFixedSector(file: DiskFile, buf: seq<byte>, sector: nat, count: nat, recordLength: nat,
                                  ghost empty: FileState, ghost before: seq<Record>)
      requires file.State() == Written(empty, before)
      modifies file
      ensures file.State() == Written(empty, before + FixedSector(buf, sector, count, recordLength))
    {
      for record := 0 to count
        invariant file.State() == Written(empty, before + FixedSector(buf, sector, record, recordLength))
      {
        var data := DiskImage.CopyBytes(buf, sector * 256 + record * recordLength, recordLength);
        var r := NewFixedRecord(data, recordLength);
        FixedBytesTruncates(data, recordLength);
        assert data[..recordLength] == data;
        DiskImage.Append(file, r, empty, before + FixedSector(buf, sector, record, recordLength));
        assert before + FixedSector(buf, sector, record, recordLength) + [r]
            == before + FixedSector(buf, sector, record + 1, recordLength);
      }
    }
  }
}
