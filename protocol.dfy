/** The disk DSR (`dsrRoutine`): a program leaves a peripheral access block (PAB) in video
    RAM and calls the drive, which decodes the block, performs one file operation on the
    disk image and reports back through the block: an error code in the three high bits
    of the flag byte, the record length, character count and record number fields, the
    file status byte, and the data buffer the block points to.

    Each operation is specified here by a function from the drive's state (the image's
    files, the open catalog and the RAM) to an `Effect`: the new state and the error code,
    taking the branches of the source in its order. */
module Protocol {
  import opened Bytes
  import opened Records
  import opened Files
  import opened Directory
  import opened Catalog

  const OP_OPEN := 0
  const OP_CLOSE := 1
  const OP_READ := 2
  const OP_WRITE := 3
  const OP_REWIND := 4
  const OP_LOAD := 5
  const OP_SAVE := 6
  const OP_DELETE := 7
  const OP_SCRATCH := 8
  const OP_STATUS := 9

  /** The error codes fit the three high bits of the flag byte. */
  type ErrorCode = e: nat | e < 8

  const NO_ERROR: ErrorCode := 0
  const ERROR_BAD_OPEN_ATTRIBUTE: ErrorCode := 2
  const ERROR_ILLEGAL_OPERATION: ErrorCode := 3
  const ERROR_READ_PAST_END: ErrorCode := 5
  const ERROR_DEVICE_ERROR: ErrorCode := 6
  const ERROR_FILE_ERROR: ErrorCode := 7

  const STATUS_NO_SUCH_FILE: byte := 0x80
  const STATUS_INTERNAL: byte := 0x10
  const STATUS_PROGRAM: byte := 0x08
  const STATUS_VARIABLE: byte := 0x04
  const STATUS_EOF: byte := 0x01

  /** What the DSR returns when the file name does not start with the drive's name and a
      dot, so that the next device in the chain is asked. */
  const NOT_THIS_DEVICE: byte := 0x20

  /** Record lengths filled in when a PAB asks for the default (0). */
  const DEFAULT_RECORD_LENGTH: byte := 128
  const CATALOG_RECORD_LENGTH: byte := 38

  const DOT: byte := 0x2E

  // ---------------------------------------------------------------- the access block

  /** The fields of a PAB: op-code, flags and status, data buffer address, record length,
      character count, record number and the file name (the screen offset is not used). */
  datatype Pab = Pab(opCode: byte, flags: byte, bufferAddress: nat, recordLength: byte,
                     characterCount: byte, recordNumber: nat, fileName: seq<byte>)

  /** The PAB at `p`: bytes 0, 1, the word at 2, bytes 4 and 5, the word at 6, and the
      name whose length is byte 9, from byte 10 on. */
  function ReadPab(ram: seq<byte>, p: int): (pab: Pab)
    ensures pab.bufferAddress < 0x10000 && pab.recordNumber < 0x10000
    ensures |pab.fileName| == At(ram, p + 9)
  {
    Pab(At(ram, p), At(ram, p + 1), WordAt(ram, p + 2), At(ram, p + 4), At(ram, p + 5),
        WordAt(ram, p + 6), Peek(ram, p + 10, At(ram, p + 9)))
  }

  /** The attributes packed in the flag byte: record type in bit 4, datatype in bit 3,
      operation mode in bits 1 and 2, access type in bit 0. */
  function PabRecordType(flags: byte): int { (flags / 0x10) % 2 }
  function PabDataType(flags: byte): int { (flags / 8) % 2 }
  function PabMode(flags: byte): int { (flags / 2) % 4 }
  function PabAccess(flags: byte): int { flags % 2 }

  /** The four fields decode the five low bits of the flag byte exactly: packing them
      again gives those bits back, and each is within its range. */
  lemma FlagFields(flags: byte)
    ensures 16 * PabRecordType(flags) + 8 * PabDataType(flags) + 2 * PabMode(flags) + PabAccess(flags) == flags % 32
    ensures PabRecordType(flags) in {RECORD_TYPE_FIXED, RECORD_TYPE_VARIABLE}
    ensures PabDataType(flags) in {DATATYPE_DISPLAY, DATATYPE_INTERNAL}
    ensures PabMode(flags) in {OPERATION_MODE_UPDATE, OPERATION_MODE_OUTPUT, OPERATION_MODE_INPUT, OPERATION_MODE_APPEND}
  {
    var f: int := flags;
    var q, r := f / 32, f % 32;
    var a, r1 := r / 16, r % 16;
    var b, r2 := r1 / 8, r1 % 8;
    var c, d := r2 / 2, r2 % 2;
    DivModUnique(f, 16, 2 * q + a, r1);
    DivModUnique(2 * q + a, 2, q, a);
    DivModUnique(f, 8, 4 * q + 2 * a + b, r2);
    DivModUnique(4 * q + 2 * a + b, 2, 2 * q + a, b);
    DivModUnique(f, 2, 16 * q + 8 * a + 4 * b + c, d);
    DivModUnique(16 * q + 8 * a + 4 * b + c, 4, 4 * q + 2 * a + b, c);
  }

  /** A name addressed to drive `drive`: it starts with the drive's name and a dot. */
  predicate OnDrive(drive: seq<byte>, name: seq<byte>)
  {
    |drive| < |name| && name[..|drive| + 1] == drive + [DOT]
  }

  /** The error code stored into the three high bits of the flag byte (`| error << 5`). */
  function SetError(ram: seq<byte>, p: int, error: ErrorCode): (ram': seq<byte>)
    ensures |ram'| == |ram|
  {
    Poke(ram, p + 1, [OrByte(At(ram, p + 1), error * 32)])
  }

  /** Into a flag byte whose error bits are clear, the error code lands in those bits and
      nothing else in RAM changes; an error code of 0 changes nothing at all. */
  lemma ErrorField(ram: seq<byte>, p: int, error: ErrorCode)
    ensures 0 <= p + 1 < |ram| && ram[p + 1] < 32 ==>
              SetError(ram, p, error)[p + 1] == ram[p + 1] + 32 * error
              && SetError(ram, p, error)[p + 1] / 32 == error
    ensures forall i :: 0 <= i < |ram| && i != p + 1 ==> SetError(ram, p, error)[i] == ram[i]
    ensures error == 0 ==> SetError(ram, p, error) == ram
  {
    if 0 <= p + 1 < |ram| && ram[p + 1] < 32 {
      OrByteHigh(ram[p + 1], error);
    }
    if error == 0 {
      OrByteZero(At(ram, p + 1));
    }
  }

  // ---------------------------------------------------------------- effects

  /** What one operation leaves: the image's files, the catalog file, the RAM and the
      error code. */
  datatype Effect = Effect(files: seq<FileState>, catalog: Option<FileState>, ram: seq<byte>, error: ErrorCode)

  /** The state as it was, with an error code. */
  function Fail(files: seq<FileState>, catalog: Option<FileState>, ram: seq<byte>, error: ErrorCode): (e: Effect)
    ensures e.files == files && e.catalog == catalog && e.ram == ram && e.error == error
  {
    Effect(files, catalog, ram, error)
  }

  /** Stores `rl` into the PAB's record length field when the PAB asked for the default. */
  function DefaultLength(ram: seq<byte>, p: int, pab: Pab, rl: byte): (ram': seq<byte>)
    ensures |ram'| == |ram|
  {
    if pab.recordLength == 0 then Poke(ram, p + 4, [rl]) else ram
  }

  /** OPEN. Output creates a new, empty file of the PAB's attributes (128-byte records by
      default), replacing one of the same name. Otherwise a named file must exist, be
      closed, be a data file and match the record type and any record length asked for;
      an empty name opened for input builds the catalog. `None` when building the catalog
      throws. */
  function OpenOp(volume: seq<byte>, files: seq<FileState>, catalog: Option<FileState>, ram: seq<byte>, p: int, pab: Pab, name: seq<byte>): Option<Effect>
    requires WellFormed(files)
  {
    var mode, access := PabMode(pab.flags), PabAccess(pab.flags);
    var rt, dt := PabRecordType(pab.flags), PabDataType(pab.flags);
    if mode == OPERATION_MODE_OUTPUT then
      var rl := if pab.recordLength == 0 then DEFAULT_RECORD_LENGTH else pab.recordLength;
      var f := NewFile(name, FILE_TYPE_DATA, rt, rl, dt);
      Some(Effect(Put(files, Opened(f, mode, access)), catalog, DefaultLength(ram, p, pab, rl), NO_ERROR))
    else if |name| > 0 then
      match Lookup(files, name)
      case None => Some(Fail(files, catalog, ram, ERROR_FILE_ERROR))
      case Some(f) =>
        if || f.operationMode != CLOSED || f.fileType == FILE_TYPE_PROGRAM || f.recordType != rt
           || (f.recordLength != pab.recordLength && pab.recordLength != 0)
        then Some(Fail(files, catalog, ram, ERROR_BAD_OPEN_ATTRIBUTE))
        else Some(Effect(Put(files, Opened(f, mode, access)), catalog, DefaultLength(ram, p, pab, f.recordLength), NO_ERROR))
    else if mode == OPERATION_MODE_INPUT then
      if CatalogThrows(files) then None
      else
        var cat := Opened(CatalogFile(volume, files), mode, access);
        Some(Effect(files, Some(cat), DefaultLength(ram, p, pab, CATALOG_RECORD_LENGTH), NO_ERROR))
    else Some(Fail(files, catalog, ram, ERROR_ILLEGAL_OPERATION))
  }

  /** CLOSE. A named data file open in the PAB's mode is closed; an empty name drops the
      catalog. */
  function CloseOp(files: seq<FileState>, catalog: Option<FileState>, ram: seq<byte>, pab: Pab, name: seq<byte>): Effect
  {
    if |name| > 0 then
      match Lookup(files, name)
      case None => Fail(files, catalog, ram, ERROR_FILE_ERROR)
      case Some(f) =>
        if f.fileType != FILE_TYPE_DATA then Fail(files, catalog, ram, ERROR_FILE_ERROR)
        else if f.operationMode != PabMode(pab.flags) then Fail(files, catalog, ram, ERROR_ILLEGAL_OPERATION)
        else Effect(Put(files, Closed(f)), catalog, ram, NO_ERROR)
    else Effect(files, None, ram, NO_ERROR)
  }

  /** The number of bytes a READ delivers: the record, cut to the PAB's record length. */
  function DeliveredCount(data: seq<byte>, recordLength: byte): (n: byte)
    ensures n <= |data| && n <= recordLength
    ensures n == |data| || n == recordLength
  {
    if |data| < recordLength then |data| else recordLength
  }

  /** A record handed to the program: its bytes in the data buffer, their number in the
      character count and the new record pointer in the record number field. */
  function Delivered(ram: seq<byte>, p: int, pab: Pab, data: seq<byte>, pointer: int): (ram': seq<byte>)
    ensures |ram'| == |ram|
  {
    var count := DeliveredCount(data, pab.recordLength);
    Poke(Poke(Poke(ram, pab.bufferAddress, data[..count]), p + 5, [count]), p + 6, Word(pointer))
  }

  /** READ from the data file `f`: a relative file first moves to the PAB's record number
      when `seek` says so, then the record under the cursor is read and the cursor
      advances. A missing record closes the file with "read past end"; a file open in
      another mode, or for output or append, is refused. The file, RAM and error after. */
  function ReadFrom(f: FileState, ram: seq<byte>, p: int, pab: Pab, seek: bool): (FileState, seq<byte>, ErrorCode)
  {
    var mode := PabMode(pab.flags);
    var g := if f.accessType == ACCESS_TYPE_RELATIVE && seek then Seeked(f, pab.recordNumber) else f;
    var (r, h) := Fetched(g);
    match r
    case None => (Closed(h), ram, ERROR_READ_PAST_END)
    case Some(record) =>
      if h.operationMode != mode then (h, ram, ERROR_ILLEGAL_OPERATION)
      else if mode == OPERATION_MODE_UPDATE || mode == OPERATION_MODE_INPUT
      then (h, Delivered(ram, p, pab, record.data, h.recordPointer), NO_ERROR)
      else (h, ram, ERROR_ILLEGAL_OPERATION)
  }

  /** READ from a named data file, which is moved to the PAB's record number when it is
      relative, or, for an empty name, from the catalog, read sequentially. */
  function ReadOp(files: seq<FileState>, catalog: Option<FileState>, ram: seq<byte>, p: int, pab: Pab, name: seq<byte>): Effect
  {
    var source := if |name| > 0 then Lookup(files, name) else catalog;
    match source
    case None => Fail(files, catalog, ram, ERROR_FILE_ERROR)
    case Some(f) =>
      if f.fileType != FILE_TYPE_DATA then Fail(files, catalog, ram, ERROR_FILE_ERROR)
      else
        var (h', ram', error) := ReadFrom(f, ram, p, pab, |name| > 0);
        if |name| > 0 then Effect(Put(files, h'), catalog, ram', error)
        else Effect(files, Some(h'), ram', error)
  }

  /** The record a WRITE takes from the data buffer: as many bytes as the record length
      for a fixed record, as the character count for a variable one. */
  function BufferRecord(ram: seq<byte>, pab: Pab): Record
  {
    if PabRecordType(pab.flags) == RECORD_TYPE_FIXED
    then Fixed(FixedBytes(Peek(ram, pab.bufferAddress, pab.recordLength), pab.recordLength))
    else Variable(Peek(ram, pab.bufferAddress, pab.characterCount))
  }

  /** WRITE to a data file open in the PAB's mode: a relative file first moves to the
      PAB's record number; update stores the record under the cursor, output and append
      only at the end of the file, input never. The record pointer is reported back
      whether or not the record was stored. */
  function WriteOp(files: seq<FileState>, catalog: Option<FileState>, ram: seq<byte>, p: int, pab: Pab, name: seq<byte>): Effect
    requires WellFormed(files)
  {
    match Lookup(files, name)
    case None => Fail(files, catalog, ram, ERROR_FILE_ERROR)
    case Some(f) =>
      var mode := PabMode(pab.flags);
      if f.fileType != FILE_TYPE_DATA then Fail(files, catalog, ram, ERROR_FILE_ERROR)
      else if f.operationMode != mode then Fail(files, catalog, ram, ERROR_ILLEGAL_OPERATION)
      else
        var g := if f.accessType == ACCESS_TYPE_RELATIVE then Seeked(f, pab.recordNumber) else f;
        var record := BufferRecord(ram, pab);
        var (h, error) :=
          if mode == OPERATION_MODE_UPDATE then (Stored(g, record), NO_ERROR)
          else if mode == OPERATION_MODE_INPUT then (g, ERROR_ILLEGAL_OPERATION)
          else if AtEOF(g) then (Stored(g, record), NO_ERROR)
          else (g, ERROR_ILLEGAL_OPERATION);
        Effect(Put(files, h), catalog, Poke(ram, p + 6, Word(h.recordPointer)), error)
  }

  /** REWIND a data file open in the PAB's mode: the cursor goes back to the first record. */
  function RewindOp(files: seq<FileState>, catalog: Option<FileState>, ram: seq<byte>, pab: Pab, name: seq<byte>): Effect
  {
    match Lookup(files, name)
    case None => Fail(files, catalog, ram, ERROR_FILE_ERROR)
    case Some(f) =>
      if f.operationMode != PabMode(pab.flags) then Fail(files, catalog, ram, ERROR_ILLEGAL_OPERATION)
      else if f.fileType == FILE_TYPE_PROGRAM then Fail(files, catalog, ram, ERROR_FILE_ERROR)
      else Effect(Put(files, Rewound(f)), catalog, ram, NO_ERROR)
  }

  /** The bytes LOAD copies: the program, cut to the PAB's record number (the buffer size). */
  function LoadedBytes(program: seq<byte>, limit: nat): (bs: seq<byte>)
    ensures |bs| <= limit && |bs| <= |program| && (|bs| == limit || |bs| == |program|)
    ensures bs == program[..|bs|]
  {
    if limit < |program| then program[..limit] else program
  }

  /** LOAD a program file into the data buffer. */
  function LoadOp(files: seq<FileState>, catalog: Option<FileState>, ram: seq<byte>, pab: Pab, name: seq<byte>): Effect
  {
    match Lookup(files, name)
    case None => Fail(files, catalog, ram, ERROR_FILE_ERROR)
    case Some(f) =>
      if f.fileType != FILE_TYPE_PROGRAM then Fail(files, catalog, ram, ERROR_FILE_ERROR)
      else Effect(files, catalog, Poke(ram, pab.bufferAddress, LoadedBytes(f.program, pab.recordNumber)), NO_ERROR)
  }

  /** SAVE the data buffer, as many bytes as the record number says, as the program of the
      named file, which is created as a program file when missing. An existing data file
      keeps its type and gets the bytes as its program. */
  function SaveOp(files: seq<FileState>, catalog: Option<FileState>, ram: seq<byte>, pab: Pab, name: seq<byte>): Effect
  {
    var f := match Lookup(files, name)
             case None => NewFile(name, FILE_TYPE_PROGRAM, -1, -1, -1)
             case Some(f) => f;
    Effect(Put(files, WithProgram(f, Peek(ram, pab.bufferAddress, pab.recordNumber))), catalog, ram, NO_ERROR)
  }

  /** DELETE the named file from the image. */
  function DeleteOp(files: seq<FileState>, catalog: Option<FileState>, ram: seq<byte>, name: seq<byte>): Effect
  {
    match Lookup(files, name)
    case None => Fail(files, catalog, ram, ERROR_FILE_ERROR)
    case Some(_) => Effect(Remove(files, name), catalog, ram, NO_ERROR)
  }

  /** SCRATCH a record of a relative data file open for update: the cursor moves to the
      PAB's record number, the record there is read (advancing the cursor) and, if it
      exists, the record under the advanced cursor is deleted. */
  function ScratchOp(files: seq<FileState>, catalog: Option<FileState>, ram: seq<byte>, pab: Pab, name: seq<byte>): Effect
  {
    match Lookup(files, name)
    case None => Fail(files, catalog, ram, ERROR_FILE_ERROR)
    case Some(f) =>
      var mode := PabMode(pab.flags);
      if f.fileType != FILE_TYPE_DATA then Fail(files, catalog, ram, ERROR_FILE_ERROR)
      else if f.operationMode != mode || f.accessType != ACCESS_TYPE_RELATIVE then Fail(files, catalog, ram, ERROR_ILLEGAL_OPERATION)
      else
        var g := Seeked(f, pab.recordNumber);
        if mode != OPERATION_MODE_UPDATE then Effect(Put(files, g), catalog, ram, ERROR_ILLEGAL_OPERATION)
        else
          var (r, h) := Fetched(g);
          if r.Some? then Effect(Put(files, Cleared(h)), catalog, ram, NO_ERROR)
          else Effect(Put(files, h), catalog, ram, ERROR_ILLEGAL_OPERATION)
  }

  /** The status byte of a file: internal, program, variable and end-of-file bits. */
  function StatusByte(f: FileState): byte
  {
    (if f.dataType == DATATYPE_INTERNAL then STATUS_INTERNAL else 0)
    + (if f.fileType == FILE_TYPE_PROGRAM then STATUS_PROGRAM else 0)
    + (if f.recordType == RECORD_TYPE_VARIABLE then STATUS_VARIABLE else 0)
    + (if AtEOF(f) then STATUS_EOF else 0)
  }

  /** STATUS: the file's status byte, or "no such file", into byte 8 of the PAB. */
  function StatusOp(files: seq<FileState>, catalog: Option<FileState>, ram: seq<byte>, p: int, name: seq<byte>): Effect
  {
    var status := match Lookup(files, name)
                  case None => STATUS_NO_SUCH_FILE
                  case Some(f) => StatusByte(f);
    Effect(files, catalog, Poke(ram, p + 8, [status]), NO_ERROR)
  }

  /** The operation the PAB's op-code names; an unknown op-code is an illegal operation. */
  function Operation(img: ImageState, catalog: Option<FileState>, ram: seq<byte>, p: int, pab: Pab, name: seq<byte>): Option<Effect>
    requires WellFormed(img.files)
  {
    var files, op := img.files, pab.opCode;
    if op == OP_OPEN then OpenOp(img.name, files, catalog, ram, p, pab, name)
    else Some(
      if op == OP_CLOSE then CloseOp(files, catalog, ram, pab, name)
      else if op == OP_READ then ReadOp(files, catalog, ram, p, pab, name)
      else if op == OP_WRITE then WriteOp(files, catalog, ram, p, pab, name)
      else if op == OP_REWIND then RewindOp(files, catalog, ram, pab, name)
      else if op == OP_LOAD then LoadOp(files, catalog, ram, pab, name)
      else if op == OP_SAVE then SaveOp(files, catalog, ram, pab, name)
      else if op == OP_DELETE then DeleteOp(files, catalog, ram, name)
      else if op == OP_SCRATCH then ScratchOp(files, catalog, ram, pab, name)
      else if op == OP_STATUS then StatusOp(files, catalog, ram, p, name)
      else Fail(files, catalog, ram, ERROR_ILLEGAL_OPERATION))
  }

  /** What the drive holds after a call, and the status it returns. */
  datatype DsrResult = DsrResult(image: Option<ImageState>, catalog: Option<FileState>, ram: seq<byte>, status: byte)

  /** `dsrRoutine(p)` on a drive called `drive`: no image is a device error; a name not
      addressed to this drive returns "not this device"; otherwise the operation runs on
      the name after the drive prefix. The error code is ORed into the flag byte at the
      end. `None` when the operation throws. */
  function Dsr(drive: seq<byte>, image: Option<ImageState>, catalog: Option<FileState>, ram: seq<byte>, p: int): Option<DsrResult>
    requires image.Some? ==> WellFormed(image.value.files)
  {
    var pab := ReadPab(ram, p);
    match image
    case None => Some(DsrResult(image, catalog, SetError(ram, p, ERROR_DEVICE_ERROR), 0))
    case Some(img) =>
      if !OnDrive(drive, pab.fileName) then Some(DsrResult(image, catalog, SetError(ram, p, NO_ERROR), NOT_THIS_DEVICE))
      else
        match Operation(img, catalog, ram, p, pab, pab.fileName[|drive| + 1..])
        case None => None
        case Some(e) => Some(DsrResult(Some(ImageState(img.name, e.files)), e.catalog, SetError(e.ram, p, e.error), 0))
  }

  // ---------------------------------------------------------------- properties

  /** A name is addressed to the drive exactly when it is the drive's name, a dot and a
      rest; the operation then works on that rest. */
  lemma DrivePrefix(drive: seq<byte>, name: seq<byte>, rest: seq<byte>)
    ensures OnDrive(drive, drive + [DOT] + rest) && (drive + [DOT] + rest)[|drive| + 1..] == rest
    ensures OnDrive(drive, name) ==> name == drive + [DOT] + name[|drive| + 1..]
  {
    var full := drive + [DOT] + rest;
    assert full[..|drive| + 1] == drive + [DOT];
    if OnDrive(drive, name) {
      assert name == name[..|drive| + 1] + name[|drive| + 1..];
    }
  }

  /** Without a disk image every call fails with a device error: the status is 0, no byte
      but the flag byte changes, and an error field that was clear then reads 6. */
  lemma NoImage(drive: seq<byte>, catalog: Option<FileState>, ram: seq<byte>, p: int)
    ensures var r := Dsr(drive, None, catalog, ram, p);
            && r.Some? && r.value.image.None? && r.value.catalog == catalog && r.value.status == 0
            && |r.value.ram| == |ram|
            && (forall i :: 0 <= i < |ram| && i != p + 1 ==> r.value.ram[i] == ram[i])
            && (0 <= p + 1 < |ram| && ram[p + 1] < 32 ==> r.value.ram[p + 1] / 32 == ERROR_DEVICE_ERROR)
  {
    ErrorField(ram, p, ERROR_DEVICE_ERROR);
  }

  /** A name for another device changes nothing, RAM included, and returns 0x20. */
  lemma NotThisDevice(drive: seq<byte>, img: ImageState, catalog: Option<FileState>, ram: seq<byte>, p: int)
    requires WellFormed(img.files) && !OnDrive(drive, ReadPab(ram, p).fileName)
    ensures Dsr(drive, Some(img), catalog, ram, p) == Some(DsrResult(Some(img), catalog, ram, NOT_THIS_DEVICE))
  {
    ErrorField(ram, p, NO_ERROR);
  }

  /** For a name addressed to the drive, the call throws exactly when the operation does;
      otherwise the status is 0, the image keeps its name and takes the operation's files,
      and the error code of the operation is what a program reads from the error field
      (when that field was clear). */
  lemma Dispatched(drive: seq<byte>, img: ImageState, catalog: Option<FileState>, ram: seq<byte>, p: int)
    requires WellFormed(img.files) && OnDrive(drive, ReadPab(ram, p).fileName)
    ensures var pab := ReadPab(ram, p);
            var op := Operation(img, catalog, ram, p, pab, pab.fileName[|drive| + 1..]);
            var r := Dsr(drive, Some(img), catalog, ram, p);
            && (r.None? <==> op.None?)
            && (op.Some? ==>
                  && r.value.status == 0
                  && r.value.image == Some(ImageState(img.name, op.value.files))
                  && r.value.catalog == op.value.catalog
                  && (0 <= p + 1 < |op.value.ram| && op.value.ram[p + 1] < 32 ==> r.value.ram[p + 1] / 32 == op.value.error))
  {
    var pab := ReadPab(ram, p);
    var op := Operation(img, catalog, ram, p, pab, pab.fileName[|drive| + 1..]);
    if op.Some? {
      ErrorField(op.value.ram, p, op.value.error);
    }
  }

  /** Every valid file may be put into a well-formed list. */
  lemma PutAnyValid(files: seq<FileState>)
    requires WellFormed(files)
    ensures forall g: FileState {:trigger Put(files, g)} :: g.Valid() ==> WellFormed(Put(files, g))
  {
    forall g: FileState | g.Valid()
      ensures WellFormed(Put(files, g))
    {
      PutKeepsWellFormed(files, g);
    }
  }

  /** Every operation keeps the file list well formed and an open catalog valid, and never
      changes the size of RAM. */
  lemma OperationKeepsInvariant(img: ImageState, catalog: Option<FileState>, ram: seq<byte>, p: int, pab: Pab, name: seq<byte>)
    requires WellFormed(img.files) && (catalog.Some? ==> catalog.value.Valid())
    ensures var e := Operation(img, catalog, ram, p, pab, name);
            e.Some? ==> Keeps(e.value, catalog, ram)
  {
    var files, op := img.files, pab.opCode;
    if op == OP_OPEN {
      OpenKeepsInvariant(img.name, files, catalog, ram, p, pab, name);
    } else if op == OP_READ {
      ReadKeepsInvariant(files, catalog, ram, p, pab, name);
    } else if op == OP_WRITE {
      WriteKeepsInvariant(files, catalog, ram, p, pab, name);
    } else if op == OP_SCRATCH {
      ScratchKeepsInvariant(files, catalog, ram, pab, name);
    } else if op == OP_DELETE {
      RemoveKeepsWellFormed(files, name);
    } else if op == OP_CLOSE {
      CloseKeepsInvariant(files, catalog, ram, pab, name);
    } else if op == OP_REWIND {
      RewindKeepsInvariant(files, catalog, ram, pab, name);
    } else if op == OP_SAVE {
      SaveKeepsInvariant(files, catalog, ram, pab, name);
    }
  }

  /** The drive's invariant after an operation. */
  predicate Keeps(e: Effect, catalog: Option<FileState>, ram: seq<byte>)
  {
    && WellFormed(e.files)
    && (e.catalog.Some? ==> e.catalog.value.Valid())
    && |e.ram| == |ram|
  }

  lemma OpenKeepsInvariant(volume: seq<byte>, files: seq<FileState>, catalog: Option<FileState>, ram: seq<byte>, p: int, pab: Pab, name: seq<byte>)
    requires WellFormed(files) && (catalog.Some? ==> catalog.value.Valid())
    ensures var e := OpenOp(volume, files, catalog, ram, p, pab, name);
            e.Some? ==> Keeps(e.value, catalog, ram)
  {
    var mode := PabMode(pab.flags);
    if mode == OPERATION_MODE_OUTPUT || |name| > 0 {
      PutAnyValid(files);
    } else if mode == OPERATION_MODE_INPUT && !CatalogThrows(files) {
      CatalogShape(volume, files);
    }
  }

  /** Reading from a valid file leaves it valid and the memory its size. */
  lemma ReadFromValid(f: FileState, ram: seq<byte>, p: int, pab: Pab, seek: bool)
    requires f.Valid()
    ensures ReadFrom(f, ram, p, pab, seek).0.Valid() && |ReadFrom(f, ram, p, pab, seek).1| == |ram|
  {
    var g := if f.accessType == ACCESS_TYPE_RELATIVE && seek then f.(recordPointer := pab.recordNumber) else f;
    assert g.Valid();
    var h := g.(recordPointer := g.recordPointer + 1);
    assert h.Valid();
    assert Closed(h).Valid();
  }

  lemma ReadKeepsInvariant(files: seq<FileState>, catalog: Option<FileState>, ram: seq<byte>, p: int, pab: Pab, name: seq<byte>)
    requires WellFormed(files) && (catalog.Some? ==> catalog.value.Valid())
    ensures Keeps(ReadOp(files, catalog, ram, p, pab, name), catalog, ram)
  {
    var source := if |name| > 0 then Lookup(files, name) else catalog;
    if source.Some? && source.value.fileType == FILE_TYPE_DATA {
      ReadFromValid(source.value, ram, p, pab, |name| > 0);
    }
    PutAnyValid(files);
  }

  lemma WriteKeepsInvariant(files: seq<FileState>, catalog: Option<FileState>, ram: seq<byte>, p: int, pab: Pab, name: seq<byte>)
    requires WellFormed(files) && (catalog.Some? ==> catalog.value.Valid())
    ensures Keeps(WriteOp(files, catalog, ram, p, pab, name), catalog, ram)
  {
    PutAnyValid(files);
  }

  lemma CloseKeepsInvariant(files: seq<FileState>, catalog: Option<FileState>, ram: seq<byte>, pab: Pab, name: seq<byte>)
    requires WellFormed(files) && (catalog.Some? ==> catalog.value.Valid())
    ensures Keeps(CloseOp(files, catalog, ram, pab, name), catalog, ram)
  {
    PutAnyValid(files);
  }

  lemma RewindKeepsInvariant(files: seq<FileState>, catalog: Option<FileState>, ram: seq<byte>, pab: Pab, name: seq<byte>)
    requires WellFormed(files) && (catalog.Some? ==> catalog.value.Valid())
    ensures Keeps(RewindOp(files, catalog, ram, pab, name), catalog, ram)
  {
    PutAnyValid(files);
  }

  lemma SaveKeepsInvariant(files: seq<FileState>, catalog: Option<FileState>, ram: seq<byte>, pab: Pab, name: seq<byte>)
    requires WellFormed(files) && (catalog.Some? ==> catalog.value.Valid())
    ensures Keeps(SaveOp(files, catalog, ram, pab, name), catalog, ram)
  {
    PutAnyValid(files);
  }

  lemma ScratchKeepsInvariant(files: seq<FileState>, catalog: Option<FileState>, ram: seq<byte>, pab: Pab, name: seq<byte>)
    requires WellFormed(files) && (catalog.Some? ==> catalog.value.Valid())
    ensures Keeps(ScratchOp(files, catalog, ram, pab, name), catalog, ram)
  {
    PutAnyValid(files);
  }

  /** Every call keeps the drive's invariant: a well-formed image with the same volume
      name, a valid catalog, RAM of the same size. */
  lemma DsrKeepsInvariant(drive: seq<byte>, image: Option<ImageState>, catalog: Option<FileState>, ram: seq<byte>, p: int)
    requires image.Some? ==> WellFormed(image.value.files)
    requires catalog.Some? ==> catalog.value.Valid()
    ensures var r := Dsr(drive, image, catalog, ram, p);
            r.Some? ==> && (r.value.image.Some? <==> image.Some?)
                        && (image.Some? ==> WellFormed(r.value.image.value.files) && r.value.image.value.name == image.value.name)
                        && (r.value.catalog.Some? ==> r.value.catalog.value.Valid())
                        && |r.value.ram| == |ram|
  {
    var pab := ReadPab(ram, p);
    if image.Some? && OnDrive(drive, pab.fileName) {
      OperationKeepsInvariant(image.value, catalog, ram, p, pab, pab.fileName[|drive| + 1..]);
    }
  }

  /** OPEN for output leaves an empty file of the PAB's attributes, open at its start in
      the PAB's mode and access type, in place of any file of that name; a record length
      of 0 becomes 128 and is written back into the PAB. No other file changes. */
  lemma OpenOutputCreates(volume: seq<byte>, files: seq<FileState>, catalog: Option<FileState>, ram: seq<byte>, p: int, pab: Pab, name: seq<byte>, other: seq<byte>)
    requires WellFormed(files) && PabMode(pab.flags) == OPERATION_MODE_OUTPUT
    ensures var e := OpenOp(volume, files, catalog, ram, p, pab, name);
            var rl := if pab.recordLength == 0 then DEFAULT_RECORD_LENGTH else pab.recordLength;
            && e.Some? && e.value.error == NO_ERROR && e.value.catalog == catalog
            && Lookup(e.value.files, name).Some?
            && (var f := Lookup(e.value.files, name).value;
                && f.records == [] && AtEOF(f)
                && f.operationMode == OPERATION_MODE_OUTPUT && f.accessType == PabAccess(pab.flags)
                && f.fileType == FILE_TYPE_DATA && f.recordType == PabRecordType(pab.flags)
                && f.dataType == PabDataType(pab.flags) && f.recordLength == rl)
            && (pab.recordLength == 0 && 0 <= p + 4 < |ram| ==> e.value.ram[p + 4] == DEFAULT_RECORD_LENGTH)
            && (pab.recordLength != 0 ==> e.value.ram == ram)
            && (other != name ==> Lookup(e.value.files, other) == Lookup(files, other))
  {
    var rl := if pab.recordLength == 0 then DEFAULT_RECORD_LENGTH else pab.recordLength;
    var f := Opened(NewFile(name, FILE_TYPE_DATA, PabRecordType(pab.flags), rl, PabDataType(pab.flags)), OPERATION_MODE_OUTPUT, PabAccess(pab.flags));
    PutSpec(files, f, other);
  }

  /** A file opened by OPEN (other than for output) cannot be opened again before it is
      closed: a second OPEN other than for output is refused with "bad open attribute"
      and changes nothing. */
  lemma OpenTwiceRefused(volume: seq<byte>, files: seq<FileState>, catalog: Option<FileState>, ram: seq<byte>, p: int, pab: Pab, name: seq<byte>,
                         ram2: seq<byte>, pab2: Pab)
    requires WellFormed(files) && |name| > 0 && PabMode(pab.flags) != OPERATION_MODE_OUTPUT
    requires OpenOp(volume, files, catalog, ram, p, pab, name).Some?
    requires OpenOp(volume, files, catalog, ram, p, pab, name).value.error == NO_ERROR
    requires PabMode(pab2.flags) != OPERATION_MODE_OUTPUT
    ensures var e := OpenOp(volume, files, catalog, ram, p, pab, name).value;
            && WellFormed(e.files)
            && OpenOp(volume, e.files, e.catalog, ram2, p, pab2, name) == Some(Fail(e.files, e.catalog, ram2, ERROR_BAD_OPEN_ATTRIBUTE))
  {
    var f := Lookup(files, name).value;
    var g := Opened(f, PabMode(pab.flags), PabAccess(pab.flags));
    PutSpec(files, g, name);
    PutKeepsWellFormed(files, g);
  }

  /** CLOSE after OPEN of an existing file gives the file back as it was, except that it
      remembers the access type it was opened with and its cursor is reset. */
  lemma OpenThenClose(volume: seq<byte>, files: seq<FileState>, catalog: Option<FileState>, ram: seq<byte>, p: int, pab: Pab, name: seq<byte>,
                      ram2: seq<byte>, pab2: Pab)
    requires WellFormed(files) && |name| > 0 && PabMode(pab.flags) != OPERATION_MODE_OUTPUT
    requires OpenOp(volume, files, catalog, ram, p, pab, name).Some?
    requires OpenOp(volume, files, catalog, ram, p, pab, name).value.error == NO_ERROR
    requires PabMode(pab2.flags) == PabMode(pab.flags)
    ensures var e := OpenOp(volume, files, catalog, ram, p, pab, name).value;
            var f := Lookup(files, name).value;
            var e2 := CloseOp(e.files, e.catalog, ram2, pab2, name);
            && e2.error == NO_ERROR
            && e2.files == Put(files, f.(accessType := PabAccess(pab.flags), recordPointer := CLOSED))
  {
    var f := Lookup(files, name).value;
    var g := Opened(f, PabMode(pab.flags), PabAccess(pab.flags));
    PutSpec(files, g, name);
    PutTwice(files, g, Closed(g));
  }

  /** A record written to a relative file open for update and read back from the same
      record number is the record written: both calls succeed, and the read hands the
      program the written bytes, cut to the record length it asks for, with the record
      number after it. */
  lemma WriteThenRead(files: seq<FileState>, catalog: Option<FileState>, ram: seq<byte>, p: int, pw: Pab, name: seq<byte>,
                      ram2: seq<byte>, p2: int, pr: Pab)
    requires WellFormed(files) && |name| > 0 && Lookup(files, name).Some?
    requires var f := Lookup(files, name).value;
             && f.fileType == FILE_TYPE_DATA && f.operationMode == OPERATION_MODE_UPDATE
             && f.accessType == ACCESS_TYPE_RELATIVE
    requires PabMode(pw.flags) == OPERATION_MODE_UPDATE && PabMode(pr.flags) == OPERATION_MODE_UPDATE
    requires pr.recordNumber == pw.recordNumber
    ensures var e1 := WriteOp(files, catalog, ram, p, pw, name);
            var e2 := ReadOp(e1.files, e1.catalog, ram2, p2, pr, name);
            && e1.error == NO_ERROR && e1.ram == Poke(ram, p + 6, Word(pw.recordNumber + 1))
            && e2.error == NO_ERROR
            && e2.ram == Delivered(ram2, p2, pr, BufferRecord(ram, pw).data, pw.recordNumber + 1)
  {
    var f := Lookup(files, name).value;
    var h := Stored(Seeked(f, pw.recordNumber), BufferRecord(ram, pw));
    PutSpec(files, h, name);
  }

  /** Reading a sequential file where no record is left (past the end, or at a deleted
      record) fails with "read past end" and closes the file; RAM is untouched. */
  lemma ReadPastEnd(files: seq<FileState>, catalog: Option<FileState>, ram: seq<byte>, p: int, pab: Pab, name: seq<byte>)
    requires WellFormed(files) && |name| > 0 && Lookup(files, name).Some?
    requires var f := Lookup(files, name).value;
             f.fileType == FILE_TYPE_DATA && f.accessType != ACCESS_TYPE_RELATIVE && SlotAt(f.records, f.recordPointer).None?
    ensures var e := ReadOp(files, catalog, ram, p, pab, name);
            && e.error == ERROR_READ_PAST_END && e.ram == ram
            && Lookup(e.files, name) == Some(Closed(Lookup(files, name).value))
  {
    var f := Lookup(files, name).value;
    PutSpec(files, Closed(f), name);
  }

  /** A sequential file open for output or append takes a record only at its end, where it
      is appended; anywhere else the write is refused and the records stay as they were. */
  lemma WriteOnlyAtEnd(files: seq<FileState>, catalog: Option<FileState>, ram: seq<byte>, p: int, pab: Pab, name: seq<byte>)
    requires WellFormed(files) && Lookup(files, name).Some?
    requires var f := Lookup(files, name).value;
             && f.fileType == FILE_TYPE_DATA && f.accessType != ACCESS_TYPE_RELATIVE
             && f.operationMode == PabMode(pab.flags)
             && (f.operationMode == OPERATION_MODE_OUTPUT || f.operationMode == OPERATION_MODE_APPEND)
    ensures var f := Lookup(files, name).value;
            var e := WriteOp(files, catalog, ram, p, pab, name);
            && Lookup(e.files, name).Some?
            && (e.error == NO_ERROR <==> AtEOF(f))
            && (!AtEOF(f) ==> e.error == ERROR_ILLEGAL_OPERATION && Lookup(e.files, name).value.records == f.records)
            && (f.recordPointer == |f.records| ==> Lookup(e.files, name).value.records == f.records + [Some(BufferRecord(ram, pab))])
  {
    var f := Lookup(files, name).value;
    var h := if AtEOF(f) then Stored(f, BufferRecord(ram, pab)) else f;
    PutSpec(files, h, name);
  }

  /** A program saved and loaded again under the same name comes back: LOAD copies the
      saved bytes, as many as its own record number allows, into its buffer. Saving over a
      data file succeeds, but the file stays a data file and LOAD then refuses it. */
  lemma SaveThenLoad(files: seq<FileState>, catalog: Option<FileState>, ram: seq<byte>, ps: Pab, name: seq<byte>, ram2: seq<byte>, pl: Pab)
    requires UniqueNames(Names(files))
    ensures var e1 := SaveOp(files, catalog, ram, ps, name);
            var e2 := LoadOp(e1.files, e1.catalog, ram2, pl, name);
            var data := Lookup(files, name).Some? && Lookup(files, name).value.fileType != FILE_TYPE_PROGRAM;
            && e1.error == NO_ERROR
            && (!data ==> e2.error == NO_ERROR
                          && e2.ram == Poke(ram2, pl.bufferAddress, LoadedBytes(Peek(ram, ps.bufferAddress, ps.recordNumber), pl.recordNumber)))
            && (data ==> e2.error == ERROR_FILE_ERROR && e2.ram == ram2)
  {
    var f := match Lookup(files, name)
             case None => NewFile(name, FILE_TYPE_PROGRAM, -1, -1, -1)
             case Some(f) => f;
    PutSpec(files, WithProgram(f, Peek(ram, ps.bufferAddress, ps.recordNumber)), name);
  }

  /** A deleted file is gone: STATUS reports "no such file" and a second DELETE fails. */
  lemma DeleteThenStatus(files: seq<FileState>, catalog: Option<FileState>, ram: seq<byte>, name: seq<byte>, ram2: seq<byte>, p2: int)
    requires UniqueNames(Names(files)) && Lookup(files, name).Some?
    ensures var e1 := DeleteOp(files, catalog, ram, name);
            && e1.error == NO_ERROR
            && StatusOp(e1.files, e1.catalog, ram2, p2, name).ram == Poke(ram2, p2 + 8, [STATUS_NO_SUCH_FILE])
            && DeleteOp(e1.files, e1.catalog, ram2, name).error == ERROR_FILE_ERROR
  {
    RemoveSpec(files, name, name);
  }

  /** The status byte of an existing file never has the "no such file" bit, and each of
      its four bits reads back the property it stands for. */
  lemma StatusBits(f: FileState)
    requires f.Valid()
    ensures var s := StatusByte(f);
            && s < 0x20
            && ((s / 0x10) % 2 == 1 <==> f.dataType == DATATYPE_INTERNAL)
            && ((s / 8) % 2 == 1 <==> f.fileType == FILE_TYPE_PROGRAM)
            && ((s / 4) % 2 == 1 <==> f.recordType == RECORD_TYPE_VARIABLE)
            && (s % 2 == 1 <==> AtEOF(f))
  {
    var a := if f.dataType == DATATYPE_INTERNAL then 1 else 0;
    var b := if f.fileType == FILE_TYPE_PROGRAM then 1 else 0;
    var c := if f.recordType == RECORD_TYPE_VARIABLE then 1 else 0;
    var d := if AtEOF(f) then 1 else 0;
    var s := StatusByte(f);
    assert s == 16 * a + 8 * b + 4 * c + d;
    DivModUnique(s, 16, a, 8 * b + 4 * c + d);
    DivModUnique(s, 8, 2 * a + b, 4 * c + d);
    DivModUnique(2 * a + b, 2, a, b);
    DivModUnique(s, 4, 4 * a + 2 * b + c, d);
    DivModUnique(4 * a + 2 * b + c, 2, 2 * a + b, c);
    DivModUnique(s, 2, 8 * a + 4 * b + 2 * c, d);
  }

  /** SCRATCH of record n of a relative file open for update moves the cursor past record
      n. When record n exists the call succeeds, but record n stays and record n + 1 is
      deleted, because the deletion happens under the advanced cursor; without a record n
      the call is refused and no record changes. Every other record is kept either way. */
  lemma ScratchClearsFollowing(files: seq<FileState>, catalog: Option<FileState>, ram: seq<byte>, pab: Pab, name: seq<byte>, q: int)
    requires WellFormed(files) && Lookup(files, name).Some?
    requires var f := Lookup(files, name).value;
             && f.fileType == FILE_TYPE_DATA && f.accessType == ACCESS_TYPE_RELATIVE
             && f.operationMode == OPERATION_MODE_UPDATE && PabMode(pab.flags) == OPERATION_MODE_UPDATE
    ensures var f := Lookup(files, name).value;
            var n := pab.recordNumber;
            var e := ScratchOp(files, catalog, ram, pab, name);
            && Lookup(e.files, name).Some?
            && var g := Lookup(e.files, name).value;
               && g.recordPointer == n + 1
               && (SlotAt(f.records, n).Some? ==>
                     e.error == NO_ERROR && SlotAt(g.records, n) == SlotAt(f.records, n) && SlotAt(g.records, n + 1).None?)
               && (SlotAt(f.records, n).None? ==> e.error == ERROR_ILLEGAL_OPERATION && g.records == f.records)
               && (q != n + 1 ==> SlotAt(g.records, q) == SlotAt(f.records, q))
  {
    var f := Lookup(files, name).value;
    var h := Fetched(Seeked(f, pab.recordNumber)).1;
    PutSpec(files, if SlotAt(f.records, pab.recordNumber).Some? then Cleared(h) else h, name);
  }

  /** After CLOSE a file takes no more records: a WRITE in any mode is refused and changes
      nothing. */
  lemma CloseThenWrite(files: seq<FileState>, catalog: Option<FileState>, ram: seq<byte>, pc: Pab, name: seq<byte>,
                       ram2: seq<byte>, p2: int, pw: Pab)
    requires WellFormed(files) && |name| > 0
    requires CloseOp(files, catalog, ram, pc, name).error == NO_ERROR
    ensures var e1 := CloseOp(files, catalog, ram, pc, name);
            && WellFormed(e1.files)
            && WriteOp(e1.files, e1.catalog, ram2, p2, pw, name) == Fail(e1.files, e1.catalog, ram2, ERROR_ILLEGAL_OPERATION)
  {
    var f := Lookup(files, name).value;
    PutSpec(files, Closed(f), name);
    PutKeepsWellFormed(files, Closed(f));
  }

  /** Opening the catalog (an empty name, for input) and reading from it hands the program
      the volume record first, with the record number 1. */
  lemma CatalogOpenThenRead(volume: seq<byte>, files: seq<FileState>, catalog: Option<FileState>, ram: seq<byte>, p: int, po: Pab,
                            ram2: seq<byte>, p2: int, pr: Pab)
    requires WellFormed(files) && !CatalogThrows(files)
    requires PabMode(po.flags) == OPERATION_MODE_INPUT && PabMode(pr.flags) == OPERATION_MODE_INPUT
    ensures var e1 := OpenOp(volume, files, catalog, ram, p, po, []);
            && e1.Some? && e1.value.error == NO_ERROR && e1.value.files == files
            && var e2 := ReadOp(e1.value.files, e1.value.catalog, ram2, p2, pr, []);
               && e2.error == NO_ERROR
               && e2.ram == Delivered(ram2, p2, pr, FixedBytes(VolumeBytes(volume), 38), 1)
  {
    CatalogShape(volume, files);
  }

  /** After REWIND the next sequential READ hands over the file's first record. */
  lemma RewindThenRead(files: seq<FileState>, catalog: Option<FileState>, ram: seq<byte>, pab: Pab, name: seq<byte>,
                       ram2: seq<byte>, p2: int, pr: Pab)
    requires WellFormed(files) && |name| > 0 && Lookup(files, name).Some?
    requires var f := Lookup(files, name).value;
             && f.fileType == FILE_TYPE_DATA && f.accessType != ACCESS_TYPE_RELATIVE
             && f.operationMode == PabMode(pab.flags) && f.operationMode == PabMode(pr.flags)
             && (f.operationMode == OPERATION_MODE_UPDATE || f.operationMode == OPERATION_MODE_INPUT)
             && SlotAt(f.records, 0).Some?
    ensures var e1 := RewindOp(files, catalog, ram, pab, name);
            var e2 := ReadOp(e1.files, e1.catalog, ram2, p2, pr, name);
            && e1.error == NO_ERROR && e2.error == NO_ERROR
            && e2.ram == Delivered(ram2, p2, pr, SlotAt(Lookup(files, name).value.records, 0).value.data, 1)
  {
    var f := Lookup(files, name).value;
    PutSpec(files, Rewound(f), name);
  }

  /** What a delivered record leaves for the program, when the data buffer lies in RAM
      apart from the PAB's bytes 5 to 7: the bytes copied read back from the buffer, byte 5
      holds their count and bytes 6 and 7 the record number after the record. */
  lemma DeliveredReadBack(ram: seq<byte>, p: nat, pab: Pab, data: seq<byte>, pointer: int)
    requires p + 8 <= |ram| && pab.bufferAddress + DeliveredCount(data, pab.recordLength) <= |ram|
    requires pab.bufferAddress + DeliveredCount(data, pab.recordLength) <= p + 5 || p + 8 <= pab.bufferAddress
    ensures var n := DeliveredCount(data, pab.recordLength);
            var r := Delivered(ram, p, pab, data, pointer);
            && Peek(r, pab.bufferAddress, n) == data[..n]
            && r[p + 5] == n
            && WordAt(r, p + 6) == pointer % 0x10000
  {
    var n := DeliveredCount(data, pab.recordLength);
    var r1 := Poke(ram, pab.bufferAddress, data[..n]);
    var r2 := Poke(r1, p + 5, [n]);
    var r := Poke(r2, p + 6, Word(pointer));
    PeekPoke(ram, pab.bufferAddress, data[..n]);
    assert Peek(r, pab.bufferAddress, n) == Peek(r1, pab.bufferAddress, n) by {
      forall i | 0 <= i < n ensures Peek(r, pab.bufferAddress, n)[i] == Peek(r1, pab.bufferAddress, n)[i] {
        assert At(r, pab.bufferAddress + i) == At(r1, pab.bufferAddress + i);
      }
    }
    WordRoundTrip(r2, p + 6, pointer);
  }

  /** STATUS only inspects: files, catalog and every RAM byte but byte 8 of the PAB stay,
      no error is reported, and byte 8 holds exactly 0x80 for a missing file and the file's
      status byte otherwise. */
  lemma StatusInspects(files: seq<FileState>, catalog: Option<FileState>, ram: seq<byte>, p: int, name: seq<byte>)
    ensures var e := StatusOp(files, catalog, ram, p, name);
            && e.files == files && e.catalog == catalog && e.error == NO_ERROR && |e.ram| == |ram|
            && (forall i :: 0 <= i < |ram| && i != p + 8 ==> e.ram[i] == ram[i])
            && (Lookup(files, name).None? && 0 <= p + 8 < |ram| ==> e.ram[p + 8] == STATUS_NO_SUCH_FILE)
            && (Lookup(files, name).Some? && 0 <= p + 8 < |ram| ==> e.ram[p + 8] == StatusByte(Lookup(files, name).value))
  {
  }
}
