# Disk drive of a TI-99/4A emulator, in Dafny

This project models the disk subsystem of a browser TI-99/4A emulator (`src/disk.js`) and
proves properties of that model. The subsystem has five parts:

- **Records.** `FixedRecord` and `VariableRecord` are the units a data file is made of.
- **Files (`DiskFile`).** A file has a name, attributes, a cursor, a record array that may
  contain holes, and a program image. Its methods open, close, seek, fetch, store and delete.
  Three geometry functions compute the sector count, the EOF offset and the file size.
- **Disk images (`DiskImage`).** A disk image is a volume name plus a file map. It supports
  put, get and delete. It has two codecs:
  - a loader for single-file containers (TIFILES and V9T9 headers);
  - a writer for flat 1440-sector images, with the volume information block, the file
    descriptor index, descriptor records, data chain pointers and the allocation bit map.
  It can also read one sector of that flat image.
- **The drive (`DiskDrive`).** `dsrRoutine` is the device service routine. A program leaves a
  peripheral access block (PAB) in video RAM. The routine decodes it and runs one of the ten
  operations: OPEN, CLOSE, READ, WRITE, REWIND, LOAD, SAVE, DELETE, SCRATCH or STATUS. It
  reports back through the PAB: the error code goes into the three high bits of the flag byte.
  It also fills the record length, character count, record number and status fields, and the
  data buffer.
- **Catalog and flat-image loader.** `createCatalogFile` builds the catalog pseudo-file: fixed
  38-byte records holding length-prefixed strings and radix-100 numbers. `loadDSKFile` loads a
  flat sector image by walking the descriptor index, the chain pointers and the sectors.

The project has two layers:

1. **Value-level specification.**
   - `Files.FileState` is one file; `Directory.ImageState` is one image.
   - `Protocol` has one function per DSR operation, giving its `Effect`.
   - The formats are pure functions: `TIFormat.ParseTIFile`, `DskFormat.ParseDsk`,
     `ImageFormat.DiskImageBytes` and `Catalog.CatalogFile`.
   - Lemmas state what the code promises: round trips, read-backs, invariants, the error
     cases, and the sequences of operations a program performs.
2. **Imperative classes.** `Files.DiskFile`, `Images.DiskImage` and `Drive.DiskDrive` keep the
   source's fields and loops. Each method's `ensures` ties its new state and results to the
   specification functions. The flat image and the video RAM are `array<byte>`, as the typed
   arrays of the source are.

Modelling conventions:

- Bytes are integers 0..255.
- `isEOF` is the predicate `Files.AtEOF`: the cursor is at or past the length of the record array (`getRecordCount`).
- A load outside a typed array reads 0. In the source it yields `undefined`. A store into a
  typed array or a mask with `&` turns that into 0, but an addition with `+` turns it into NaN;
  the places where the model departs from the source for that reason are listed under
  "Left out". A store outside a typed array is dropped.
- A JavaScript exception is a `throws` outcome. This covers `getData()` on a hole of the record
  array.
- A loop of the source that never ends is a `diverges` outcome. This covers a variable-record
  scan that runs past the end of the buffer and never meets 0xFF.

Where the code departs from the documented behaviour of the disk format, the model follows the
code. Lemmas exhibit each departure:

- **SCRATCH.** `getRecord` advances the cursor before `deleteRecord` runs. SCRATCH of record n
  therefore keeps record n and deletes record n + 1 (`Protocol.ScratchClearsFollowing`).
- **Chain pointers.** `getTIDiskImage` writes them as a byte and two 16-bit words, 5 bytes in
  all. `loadDSKFile` reads them as 3-byte triples. A pointer reads back correctly only for a
  start sector below 256 and a run offset of 0 (`ImageFormat.ChainMisread`).
- **Variable-record data.** `getTIDiskImage` never decreases its count of bytes left in the
  sector.
  - When every record is shorter than 256 bytes, the file's last data sector comes out as one
    before its first (`ImageFormat.VariableEnd`).
  - No sector is marked in the bit map (`ImageFormat.VariableUnmarked`).
  - The next file's data starts in the same sector.
- **Descriptor sectors.** The bit map marks sectors 0 and 1 and the data sectors, but not the
  sectors holding the file descriptor records (`ImageFormat.DiskImageBits`).
- **Catalog terminator.** The last catalog record is not all zeros. Its bytes 28..38 repeat the
  previous record, because the source reuses one buffer (`Catalog.TerminatorRecord`).
- **Numbers from 10000 up.** They are encoded with a "digit" of 100 or more, so they do not read
  back as radix-100 numbers (`Catalog.FloatBeyondFourDigits`).

## Model

| member | source | states |
|---|---|---|
| Bytes.Peek | src/disk.js:218-229 | reading `len` bytes of RAM gives exactly `len` bytes, the i-th being the byte at `addr + i` or 0 outside RAM |
| Bytes.Poke | src/disk.js:1127-1131 | a store of `bs` at `addr` keeps the size of the store; inside it the bytes are `bs`, every other byte is unchanged, and bytes outside the array are dropped |
| Bytes.PeekPoke | src/disk.js:1127-1131 | bytes stored inside the array read back as stored |
| Bytes.PokePeek | src/disk.js:1127-1131 | storing back what was read changes nothing |
| Bytes.GrowWrite | src/disk.js:647-653 | a write into a growable array at offset `n` keeps the bytes before `n`, places `bs` at `n`, keeps the bytes after it and grows the array only as far as needed |
| Bytes.GrowWriteConcat | src/disk.js:599-609 | two consecutive writes at a moving offset are one write of the concatenation |
| Bytes.WordRoundTrip | src/disk.js:1132-1136 | a word stored big-endian by `writeWord` reads back (as the PAB record number is read) as its value modulo 2^16 |
| Bytes.PadRight | src/disk.js:1117-1126 | the padded name has length max(len, \|s\|), starts with `s` and continues with the pad character only |
| Bytes.TrimLeft | src/disk.js:693-697 | the result is a suffix of `s`; everything dropped is JavaScript white space and the result does not start with it |
| Bytes.TrimRight | src/disk.js:693-697 | the result is a prefix of `s`; everything dropped is white space and the result does not end with it |
| Bytes.TrimSlice | src/disk.js:693-697 | `trim()` returns the slice of `s` between its leading and trailing white space, which it does not start or end with |
| Bytes.TrimPadded | src/disk.js:1117-1126 | trimming a space-padded name gives the trimmed name: padding on write is undone by trim on load |
| Bytes.Upper | src/disk.js:903 | `toUpperCase` never shortens a string, and a string without a sharp s (0xDF) maps character by character to the code points of `UpperCode` |
| Bytes.SameUpper | src/disk.js:903 | two distinct character codes upper-case alike exactly when one is an ASCII or Latin-1 small letter and the other its capital |
| Bytes.OrByteHigh | src/disk.js:567-568 | OR-ing `e * 32` into a flag byte below 32 adds `e * 32`: the error code lands in bits 5-7 |
| Bytes.OrByteHasBit | src/disk.js:1112 | bit k of the OR of two bytes is set iff it is set in either byte |
| Records.FixedBytes | src/disk.js:1440-1455 | a fixed record always holds exactly `length` bytes |
| Records.FixedBytesTruncates | src/disk.js:1440-1455 | data at least `length` long is cut to its first `length` bytes |
| Records.FixedBytesPads | src/disk.js:1440-1455 | shorter data is padded with zeros to `length` |
| Records.NewFixedRecord | src/disk.js:1440-1455 | the constructor's loop fills byte i with data[i] when data is long enough, else 0, for exactly `length` bytes |
| Files.NewFile | src/disk.js:1165-1175 | a new file is valid, closed, with no records and no program |
| Files.FlagAttributes | src/disk.js:712-740 | the attributes a loader creates a file with from a descriptor's status flags are valid: the flag's file type and, for a data file, its record type, data type and the given record length |
| Files.StoreAt | src/disk.js:1296-1298 | storing at index p grows the array to p + 1 if needed, puts the record at p and leaves every other slot as it was |
| Files.ClearAt | src/disk.js:1300-1302 | `delete` keeps the array length, empties slot p and leaves every other slot |
| Files.StoreAtEnd | src/disk.js:1296-1298 | storing at the end appends |
| Files.Written | src/disk.js:1296-1298 | a file filled by repeated putRecord from an empty array holds exactly those records, with the cursor after them |
| Files.WrittenFile | src/disk.js:945-970 | a file built by a loader is valid, closed and has no holes |
| Files.OperationsPreserveValid | src/disk.js:1278-1315 | open, close, seek, rewind, setProgram, getRecord, deleteRecord and (on an open file) putRecord keep a file valid |
| Files.StoreThenFetch | src/disk.js:1292-1298 | a record put at the cursor is fetched back after seeking to that index; every other slot is unchanged |
| Files.StoreAtEOF | src/disk.js:1296-1298 | putRecord at the end appends one record and leaves the cursor at the end |
| Files.ClearedOnlyCursor | src/disk.js:1300-1302 | deleteRecord empties the slot at the cursor, keeps the cursor and the length, and changes no other slot |
| Files.VariablePackingInvariant | src/disk.js:1203-1211 | the variable-record sector loop keeps 0 <= n <= 256 (n > 0 once a record is counted) and `sectors * 256 + n` equals the file size |
| Files.ProgramGeometry | src/disk.js:1213-1215 | a program of positive size occupies exactly its sector count: its length lies in ((sectors - 1) * 256, sectors * 256]; the EOF offset is below 256; sectors and offset give back the size |
| Files.FixedGeometry | src/disk.js:1198-1201 | with rps = floor(256 / length) >= 1 records per sector, the records fill exactly the sector count; the EOF offset is below 256 and the size is length * count |
| Files.VariableGeometry | src/disk.js:1203-1232 | for a non-empty variable file, the EOF offset lies in (0, 256] and the sector count and EOF offset give back the file size |
| Files.DiskFile.constructor | src/disk.js:1165-1175 | the new object's state is `NewFile` of its arguments |
| Files.DiskFile.Open | src/disk.js:1286-1290 | sets mode and access type and puts the cursor at 0 (`Opened`), nothing else |
| Files.DiskFile.Close | src/disk.js:1312-1315 | resets mode and cursor to -1 (`Closed`) |
| Files.DiskFile.SetRecordPointer | src/disk.js:1278-1280 | sets the cursor only (`Seeked`) |
| Files.DiskFile.Rewind | src/disk.js:1282-1284 | sets the cursor to 0 only (`Rewound`) |
| Files.DiskFile.SetProgram | src/disk.js:1304-1306 | replaces the program only |
| Files.DiskFile.GetRecord | src/disk.js:1292-1294 | returns the slot at the cursor (none past the end or at a hole) and advances the cursor (`Fetched`) |
| Files.DiskFile.PutRecord | src/disk.js:1296-1298 | stores at the cursor and advances it (`Stored`) |
| Files.DiskFile.DeleteRecord | src/disk.js:1300-1302 | empties the slot at the cursor (`Cleared`) |
| Files.DiskFile.GetSectorCount | src/disk.js:1195-1218 | the loop computes `SectorCount` of the file, whose meaning the geometry lemmas state |
| Files.DiskFile.GetEOFOffset | src/disk.js:1220-1242 | the loop computes `EOFOffset` |
| Files.DiskFile.GetFileSize | src/disk.js:1244-1260 | the loop computes `FileSize` |
| Directory.IndexOf | src/disk.js:848-850 | none iff the name is absent; otherwise the first position holding the name |
| Directory.Lookup | src/disk.js:848-850 | `getFile` finds a file iff its name is in the map, and what it finds is a file of the map with that name |
| Directory.PutSpec | src/disk.js:844-846 | after `putFile` the name maps to the file, other names are unaffected, names stay unique, a replaced key keeps its position and a new key is appended |
| Directory.RemoveSpec | src/disk.js:852-854 | after `deleteFile` the name is absent, other names are unaffected, names stay unique, and the map shrinks by one iff the name was there |
| Directory.PutKeepsWellFormed | src/disk.js:844-846 | putting a valid file keeps the map well formed (unique names, valid files) |
| Directory.RemoveKeepsWellFormed | src/disk.js:852-854 | deleting keeps the map well formed |
| Directory.PutTwice | src/disk.js:844-846 | putting twice under one name is putting the second file |
| Catalog.FloatBytes | src/disk.js:656-690 | every number is 9 bytes: the length 8, a word, a byte, five zeros; the values of the word and the byte are stated by `FloatCases`, the decoding by `FloatRoundTrip` and `FloatReadBack` |
| Catalog.FloatCases | src/disk.js:656-690 | 0 encodes as zeros; 0 < v < 100 as 0x40, v; 100 <= v < 25600 as 0x41, v / 100, v % 100; a negative number negates the first word in 16 bits |
| Catalog.FloatRoundTrip | src/disk.js:656-690 | every v with \|v\| < 10000 decodes back as v in radix 100 |
| Catalog.FloatReadBack | src/disk.js:656-690 | the encoding is onto the decodable numbers: whatever decodes came from encoding its value, which lies within \|v\| < 10000 |
| Catalog.FloatBeyondFourDigits | src/disk.js:656-690 | 10000 <= v < 25600 yields a digit of 100 or more and does not decode |
| Catalog.StringBytes | src/disk.js:647-653 | a string is written as its length byte followed by its bytes |
| Catalog.WriteAsString | src/disk.js:647-653 | writes `StringBytes` at n and returns n + length + 1 |
| Catalog.WriteAsFloat | src/disk.js:656-690 | writes the 9 bytes of `FloatBytes` at n and returns n + 9 |
| Catalog.FloatHead | src/disk.js:659-684 | the four computed bytes followed by five zeros are `FloatBytes` |
| Catalog.TypeCode | src/disk.js:616-627 | the catalog type is 1..5 |
| Catalog.TypeCodeInjective | src/disk.js:616-627 | the type code determines program/data and, for data, display/internal and fixed/variable |
| Catalog.EntryRecords | src/disk.js:610-634 | one fixed 38-byte record per file, in map order |
| Catalog.CatalogStep | src/disk.js:610-634 | one more loop iteration appends the file's entry record and becomes the last bytes written |
| Catalog.CatalogShape | src/disk.js:599-645 | the catalog has \|files\| + 2 records, all fixed of 38 bytes; the file is valid, fixed, closed and internal |
| Catalog.VolumeRecord | src/disk.js:600-609 | record 0 holds the space-padded volume name and the numbers 0, 1440 and 1311 |
| Catalog.EntryRecord | src/disk.js:610-634 | a file's record holds its padded name, its type code, its sector count (read back when below 10000) and its record length |
| Catalog.TerminatorRecord | src/disk.js:636-641 | the last record holds an empty name and three zeros, and its bytes 28..38 are those of the record before it |
| Catalog.LastTwoRecords | src/disk.js:599-645 | the last two records come from the same reused buffer |
| Framing.FrameScans | src/disk.js:957-970 | records framed by length bytes and followed by 0xFF are scanned back exactly |
| Framing.ScanFrames | src/disk.js:957-970 | whatever a scan returns lies framed in the buffer up to a 0xFF (or a 0 where the loader stops at 0) |
| Framing.ScanRecords | src/disk.js:957-970 | scanned records are variable records that fit a length byte |
| TIFormat.HostName | src/disk.js:885-891 | a name made from the host file name is shorter than 10 characters |
| TIFormat.DetectHeader | src/disk.js:868-925 | a header is recognised iff the buffer is TIFILES or V9T9 |
| TIFormat.V9T9Latin1Case | src/disk.js:903 | a buffer starting with a capital E acute padded with spaces is a V9T9 header, not TIFILES, for the host name "é": the name comparison ignores Latin-1 case |
| TIFormat.VariableRecordsTIThrowsLater | src/disk.js:957-970 | once a sector's scan runs off the buffer, loading never returns |
| TIFormat.LoadCondition | src/disk.js:857-987 | a file is loaded (or the load never returns) iff the buffer is longer than 0x80, has a known header and holds the whole file |
| TIFormat.LoadedIsValid | src/disk.js:938-981 | a loaded file is valid, closed, without holes and named by its header |
| TIFormat.LoadWithHeader | src/disk.js:938-986 | once the header is recognised, nothing is loaded exactly when the buffer is shorter than the header plus the file length |
| TIFormat.ProgramOfLength | src/disk.js:900 | a program of the length a header states has that header's sector count and end-of-file offset |
| TIFormat.LoadedProgramGeometry | src/disk.js:973-980 | a loaded program has its header's length, and its sector count and EOF offset equal the header's |
| TIFormat.FixedRecordsLength | src/disk.js:945-956 | loaded fixed records all have the header's record length, at most sectors * recsPerSector of them |
| TIFormat.VariableRecordsShort | src/disk.js:957-970 | loaded variable records are shorter than 255 bytes |
| TIFormat.LoadedVariableGeometry | src/disk.js:957-970 | a loaded non-empty variable file has a computable geometry with EOF offset in (0, 256] |
| DskFormat.ChainBounds | src/disk.js:746-749 | both decoded chain fields are 12-bit values |
| DskFormat.RunGeometry | src/disk.js:752-759 | a run covers sectors m .. m + n - nLast - 1, doubled above 1600 sectors |
| DskFormat.LoadedFileShape | src/disk.js:703-803 | a loaded file is valid, closed, named and typed by its descriptor |
| DskFormat.ParsedWellFormed | src/disk.js:692-806 | a loaded image has unique valid file names, and its volume name is the trimmed first 10 bytes |
| DskFormat.ChainWalkProgram | src/disk.js:791-794 | the program bytes gathered are 256 per full sector and the EOF offset (or 256 when it is 0) in the last |
| DskFormat.LoadedProgram | src/disk.js:692-806 | a program with alloc sectors fully walked has length (alloc - 1) * 256 plus the EOF offset, or 256 when that is 0 |
| DskFormat.ChainWalkFixed | src/disk.js:764-773 | every walked sector yields `recsPerSector` fixed records of the record length |
| DskFormat.ChainWalkVariable | src/disk.js:775-788 | variable records gathered are non-empty and shorter than 255 bytes |
| DskFormat.GatherStuck | src/disk.js:702-805 | once one file's load never returns, neither does the whole load |
| DskFormat.ParseDskGathered | src/disk.js:692-808 | loading yields the image of the volume name and the gathered files, which are well formed, or never returns |
| ImageFormat.BlankImage | src/disk.js:1003-1022 | the image is 1440 * 256 bytes; its bit map is stated by `BlankBitMap` and `BlankUsed`, its volume block by `BlankHeader` |
| ImageFormat.DescriptorBytes | src/disk.js:1030-1049 | a descriptor is 10 name bytes and 10 field bytes; what each field holds is stated by `DescriptorReadBack` and `FlagsRoundTrip` |
| ImageFormat.ChainBytes | src/disk.js:1103-1109 | the chain pointer is written as 5 bytes; their values are stated by `ChainBytesShape`, and what the reader makes of them by `ChainReadBack` and `ChainMisread` |
| ImageFormat.FixedLayoutThrows | src/disk.js:1055-1073 | laying out fixed records throws (`getData` of a hole) iff the record array has a hole |
| ImageFormat.PlaceFileThrows | src/disk.js:1028-1113 | placing a file throws iff it is a data file with a hole in its records |
| ImageFormat.PlaceFilesThrows | src/disk.js:1023-1113 | the first k files throw iff one of them has a hole |
| ImageFormat.ImageThrows | src/disk.js:1003-1115 | `getTIDiskImage` throws iff one of the first 127 files is a data file with a hole in its records |
| ImageFormat.DiskImageBytes | src/disk.js:1003-1115 | the image has 1440 * 256 bytes; its bit map is stated by `DiskImageBits`, its volume block by `VolumeReadBack`, when it throws by `ImageThrows` |
| ImageFormat.SectorBytes | src/disk.js:992-1001 | a sector is 256 bytes: byte i is the image byte at 256 * s + i, or 0 outside the image (the contract of `Peek`) |
| ImageFormat.PlaceFiles | src/disk.js:1023-1113 | placing files keeps the image size and every byte below the bit map, and the last sector used lies past the descriptor sectors |
| ImageFormat.VolumeReadBack | src/disk.js:1005-1018 | the loader reads back the trimmed volume name and 1440 sectors from any written image |
| ImageFormat.HeaderReadBack | src/disk.js:1005-1018 | the volume block written reads back as name and total sector count |
| ImageFormat.DescriptorReadBack | src/disk.js:1030-1049 | a written descriptor reads back as trimmed name, flags, records per sector, sector count, EOF offset and record length |
| ImageFormat.FlagsRoundTrip | src/disk.js:1036-1043 | the status flags written decode back to the file's type, record type, record length (0 for variable) and data type |
| ImageFormat.ChainReadBack | src/disk.js:1103-1109 | what the 3-byte reader makes of the 5-byte pointer |
| ImageFormat.ChainMisread | src/disk.js:1103-1109 | a written chain pointer reads back iff the start sector is below 256 and the offset is 0 |
| ImageFormat.FixedLayoutCounts | src/disk.js:1055-1073 | after k fixed records the writer is at sector start + k / rps, record k % rps of it |
| ImageFormat.DataEnd | src/disk.js:1055-1101 | a fixed or program file's data ends at sector start + sectors - 1 |
| ImageFormat.ProgramReadBack | src/disk.js:1095-1101 | program bytes written read back from the start sector |
| ImageFormat.VariableLayoutShort | src/disk.js:1074-1094 | records shorter than 256 bytes are written framed, one after another, from the start sector |
| ImageFormat.VariableEnd | src/disk.js:1074-1094 | variable data of short records ends at sector start - 1, one before where it starts |
| ImageFormat.VariableReadBack | src/disk.js:1074-1094 | variable records written read back by the loader's scan |
| ImageFormat.MarkSectors | src/disk.js:1110-1113 | marking keeps the image size; which bits it sets is stated by `MarkSectorsBits`, which bytes it leaves by `MarkSectorsFrame` |
| ImageFormat.MarkBits | src/disk.js:1110-1112 | marking sector i sets bit i % 8 of bit map byte i / 8 (when that byte is inside the image), keeps every other sector's bit and changes no other byte |
| ImageFormat.MarkSectorsBits | src/disk.js:1110-1113 | after marking lo..hi, a sector is marked iff it was marked before or lies in lo..hi with its bit map byte inside the image |
| ImageFormat.MarkSectorsFrame | src/disk.js:1110-1113 | marking lo..hi changes no byte outside bit map bytes lo / 8 to hi / 8 |
| ImageFormat.BlankBitMap | src/disk.js:1016-1020 | the blank image's bit map byte 0 is 3, bytes 0xEC..0xFF are 0xFF, and the bytes between are 0 where the volume name does not reach |
| ImageFormat.BlankUsed | src/disk.js:1016-1020 | for a volume name of at most 46 characters, the disk sectors marked in the blank image are exactly 0 and 1 |
| ImageFormat.PlaceFileBits | src/disk.js:1026-1113 | placing one file marks exactly its data sectors, from its first up to the next free sector, and keeps every other bit |
| ImageFormat.PlaceFilesBits | src/disk.js:1023-1113 | placing the first k files marks exactly the sectors from 2 + the file count up to the next free sector |
| ImageFormat.DiskImageBits | src/disk.js:1003-1115 | in a synthesised image the disk sectors marked are exactly 0, 1 and the data sectors from 2 + the file count up to the next free sector; the descriptor sectors are not marked |
| ImageFormat.VariableUnmarked | src/disk.js:1074-1113 | a variable-record file of short records is placed without marking any sector, and the next file starts in its first data sector |
| Images.DiskImage.constructor | src/disk.js:818-822 | a new image has its name and no files |
| Images.DiskImage.PutFile | src/disk.js:844-846 | the files become `Put` of the old files |
| Images.DiskImage.GetFile | src/disk.js:848-850 | returns `Lookup` of the name |
| Images.DiskImage.DeleteFile | src/disk.js:852-854 | the files become `Remove` of the old files |
| Images.DiskImage.LoadTIFile | src/disk.js:856-990 | keeps the image valid; never returns iff the parse never does; puts the parsed file when loaded, else leaves the files |
| Images.DiskImage.ReadContainer | src/disk.js:856-987 | the outcome is that of `ParseTIFile` |
| Images.DiskImage.ReadHeadedFile | src/disk.js:938-986 | the outcome is that of `LoadWithHeader` for the recognised header |
| Images.DiskImage.ReadProgramFile | src/disk.js:973-980 | a new program file holding the file's bytes after the header |
| Images.DiskImage.ReadDataFile | src/disk.js:940-972 | the file of fixed records or of scanned variable records, or no return |
| Images.DiskImage.ReadFixedRecords | src/disk.js:945-956 | the file holds `FixedRecordsTI` |
| Images.DiskImage.ReadVariableRecords | src/disk.js:957-970 | never returns iff a scan runs off; else the file holds the records scanned |
| Images.DiskImage.CopyBytes | src/disk.js:948-951 | the copied bytes are `Peek` of the buffer |
| Images.DiskImage.WriteByte | src/disk.js:1127-1131 | stores the byte modulo 256 and returns n + 1 |
| Images.DiskImage.WriteWord | src/disk.js:1132-1136 | stores the big-endian word and returns n + 2 |
| Images.DiskImage.WriteString | src/disk.js:1117-1126 | stores the space-padded string and returns n plus its length |
| Images.DiskImage.WriteVolumeHeader | src/disk.js:1005-1022 | turns a zero image into `BlankImage`, whose volume block and bit map (sectors 0 and 1 reserved, bytes 0xEC..0xFF set) `BlankHeader`, `BlankBitMap` and `BlankUsed` state |
| Images.DiskImage.WriteDescriptor | src/disk.js:1030-1049 | stores `DescriptorBytes` at the descriptor sector |
| Images.DiskImage.WriteFixedRecords | src/disk.js:1055-1073 | throws iff `FixedLayout` does, else leaves its image and position |
| Images.DiskImage.WriteVariableRecords | src/disk.js:1074-1094 | throws iff `VariableLayout` does, else leaves its image and position |
| Images.DiskImage.WriteData | src/disk.js:1050-1102 | throws iff `DataLayout` does, else leaves its image and last sector |
| Images.DiskImage.WriteChain | src/disk.js:1103-1109 | stores `ChainBytes` at the pointer |
| Images.DiskImage.MarkUsed | src/disk.js:1110-1113 | the new image is `MarkSectors` of the old one, which `MarkSectorsBits` and `MarkSectorsFrame` state: the bits of lo..hi are set, every other bit and byte is kept |
| Images.DiskImage.WriteFile | src/disk.js:1026-1113 | throws iff `PlaceFile` does, else leaves its image and next sector |
| Images.DiskImage.GetTIDiskImage | src/disk.js:1003-1115 | throws iff `DiskImageBytes` is none, else returns exactly those bytes |
| Images.DiskImage.ReadSector | src/disk.js:992-1001 | returns the 256 bytes of the sector in the synthesised image, or throws as it does |
| Protocol.ReadPab | src/disk.js:217-229 | buffer address and record number are 16-bit; the name has the PAB's name length |
| Protocol.FlagFields | src/disk.js:230-233 | the four fields decoded from the flag byte recompose its low five bits, each in its range |
| Protocol.SetError | src/disk.js:567 | writing the error keeps the RAM size; which byte changes and how is stated by `ErrorField` |
| Protocol.ErrorField | src/disk.js:567 | only the flag byte changes; with clear error bits it gains 32 * error and reads back the error; error 0 changes nothing |
| Protocol.DeliveredCount | src/disk.js:347-348 | READ copies min(record length, data length) bytes |
| Protocol.LoadedBytes | src/disk.js:459-461 | LOAD copies a prefix of the program of min(record number, length) bytes |
| Protocol.DrivePrefix | src/disk.js:255-256 | a name is for this drive iff it is the drive name, a dot and a rest, which is then the file name |
| Protocol.NoImage | src/disk.js:562-568 | without an image the call reports a device error, returns 0 and changes no other byte |
| Protocol.NotThisDevice | src/disk.js:559-561 | a name for another device changes nothing and returns 0x20 |
| Protocol.Dispatched | src/disk.js:254-568 | a name for the drive runs the operation: the call throws iff it does; otherwise status 0, the operation's files, and its error in the flag byte |
| Protocol.DsrKeepsInvariant | src/disk.js:215-568 | every call keeps a well-formed image with the same name, a valid catalog and the RAM size |
| Protocol.OperationKeepsInvariant | src/disk.js:258-557 | every operation keeps the files well formed, the catalog valid and the RAM size |
| Protocol.OpenOutputCreates | src/disk.js:261-270 | OPEN for output replaces any file of the name by an empty open file with the PAB's attributes, defaulting length 0 to 128 in the PAB |
| Protocol.OpenTwiceRefused | src/disk.js:272-283 | a file opened (not for output) cannot be opened again: "bad open attribute", nothing changes |
| Protocol.OpenThenClose | src/disk.js:259-328 | CLOSE after OPEN restores the file, except for its access type, with the cursor reset |
| Protocol.WriteThenRead | src/disk.js:329-433 | a relative record written in update mode reads back at the same number, cut to the record length, with the following record number |
| Protocol.ReadPastEnd | src/disk.js:366-372 | reading a sequential file where no record is left reports "read past end", closes the file and leaves RAM |
| Protocol.WriteOnlyAtEnd | src/disk.js:405-417 | output or append appends at the end and is refused elsewhere, records unchanged |
| Protocol.SaveThenLoad | src/disk.js:454-484 | a saved program loads back, up to LOAD's byte count; a data file saved over stays data and LOAD refuses it |
| Protocol.DeleteThenStatus | src/disk.js:485-553 | after DELETE, STATUS reports "no such file" and DELETE again fails |
| Protocol.DeliveredReadBack | src/disk.js:345-353 | when the buffer lies apart from PAB bytes 5-7, the delivered bytes read back from the buffer, byte 5 holds their count min(stored, declared) and bytes 6-7 the next record number |
| Protocol.StatusInspects | src/disk.js:530-553 | STATUS changes no file, no catalog and no RAM byte but PAB byte 8, reports no error, and byte 8 is exactly 0x80 for a missing file and the file's status byte otherwise |
| Protocol.StatusBits | src/disk.js:530-553 | the status byte of an existing file has no 0x80 bit and each bit reads back its property |
| Protocol.ScratchClearsFollowing | src/disk.js:495-529 | SCRATCH n keeps record n and deletes n + 1 when n exists, else is refused; other records stay |
| Protocol.CloseThenWrite | src/disk.js:304-433 | after CLOSE every WRITE is refused and changes nothing |
| Protocol.CatalogOpenThenRead | src/disk.js:285-353 | opening the catalog and reading gives the volume record, with record number 1 |
| Protocol.RewindThenRead | src/disk.js:329-453 | after REWIND a sequential read gives the first record |
| Drive.DiskDrive.constructor | src/disk.js:61-67 | a drive holds its name, RAM and image, with no catalog |
| Drive.DiskDrive.ReadPabFields | src/disk.js:217-229 | the fields read from RAM are `ReadPab` |
| Drive.DiskDrive.DsrRoutine | src/disk.js:215-568 | the routine's new image, catalog, RAM, status and exception are those of `Dsr` |
| Drive.DiskDrive.StoreError | src/disk.js:567 | the flag byte update is `SetError` |
| Drive.DiskDrive.OpenFile | src/disk.js:259-303 | OPEN performs `OpenOp` |
| Drive.DiskDrive.CloseFile | src/disk.js:304-328 | CLOSE performs `CloseOp` |
| Drive.DiskDrive.ReadRecord | src/disk.js:329-381 | READ performs `ReadOp` |
| Drive.DiskDrive.DeliverRecord | src/disk.js:345-353 | the copy loop and the count and record-number stores are `Delivered` |
| Drive.DiskDrive.WriteRecord | src/disk.js:382-433 | WRITE performs `WriteOp` |
| Drive.DiskDrive.TakeRecord | src/disk.js:389-399 | the record built from the buffer is `BufferRecord` |
| Drive.DiskDrive.RewindFile | src/disk.js:434-453 | REWIND performs `RewindOp` |
| Drive.DiskDrive.LoadProgram | src/disk.js:454-471 | LOAD performs `LoadOp` |
| Drive.DiskDrive.SaveProgram | src/disk.js:472-484 | SAVE performs `SaveOp` |
| Drive.DiskDrive.DeleteFile | src/disk.js:485-494 | DELETE performs `DeleteOp` |
| Drive.DiskDrive.ScratchRecord | src/disk.js:495-529 | SCRATCH performs `ScratchOp` |
| Drive.DiskDrive.FileStatus | src/disk.js:530-553 | STATUS performs `StatusOp` |
| Drive.DiskDrive.CreateCatalogFile | src/disk.js:599-645 | throws iff some variable-record file has a hole (its sector count throws), else the new file is `CatalogFile` |
| Drive.DiskDrive.WriteEntries | src/disk.js:610-634 | appends one entry per file in map order, stopping with an exception at the first variable-record file with a hole |
| Drive.DiskDrive.WriteTerminator | src/disk.js:636-641 | appends the terminator over the reused buffer |
| Drive.DiskDrive.WriteFields | src/disk.js:600-608 | writes a string and three numbers from offset 0 |
| Drive.DiskDrive.LoadDskFile | src/disk.js:692-808 | never returns iff `ParseDsk` does not; otherwise the drive's new image is `ParseDsk` of the buffer |
| Drive.DiskDrive.LoadEntries | src/disk.js:702-805 | the files loaded are the gathered files of the index |
| Drive.DiskDrive.LoadFile | src/disk.js:703-803 | the file loaded from one descriptor is `LoadedFile` |
| Drive.DiskDrive.LoadFixedSector | src/disk.js:764-773 | a sector yields `FixedSector` of the record length |

## Left out

- `getState`/`setState` of drive, image, file and record (serialisation for saved sessions), `toString`, `getFilesArray`, the log messages, the ROM image `DSR_ROM`, `execute`, `powerUp`, `setFiles` and `sectorIO`: these are hosting and persistence code around the core.
- Files are held as values in the image's map: where the source changes a file object that the map holds (open, close, putRecord, setProgram and the others), the model puts the changed value back under the same name, where it keeps its position. Aliasing of a file object that a caller keeps outside the drive is not modelled.
- A JavaScript object enumerates integer-like keys before other keys. The model keeps insertion order for every name.
- Flat images whose file descriptor index (bytes 0x100 to 0x1FF) or a descriptor record lies partly outside the buffer: `loadDSKFile` adds out-of-range loads with `+` (disk.js:703 and 719), which gives NaN. An index word of NaN is not 0, so the source loads a DATA FIXED file named by ten NUL characters with an undefined record length, and a sector count of NaN reaches the catalog as NaN; the model reads those bytes as 0, skips such an index entry and sees a sector count and record length of 0.
- File names that are properties of `Object.prototype` (`toString`, `constructor`, `__proto__` and the others): the file map is a plain object, so `getFile` of such a name finds the inherited value and the operation then throws a TypeError where it calls a file method, and `putFile` of a file named `__proto__` replaces the map's prototype instead of adding a key. The model's map holds only the names put into it, so `Lookup` of such a name finds nothing.
- Bytes.Upper/TIFormat.IsV9T9: `toUpperCase` is modelled on the character codes 0x00-0xFF that the header and a byte-string host name hold, including the Latin-1 small letters 0xE0-0xFE (not 0xF7), the micro sign 0xB5 (to U+039C), y with diaeresis 0xFF (to U+0178) and the sharp s 0xDF (to "SS"); a host file name with characters above 0xFF, which the source's JavaScript string could hold, is not modelled, nor is the case mapping of such characters.
- PAB addresses are unbounded integers: `pabAddr + i` is not wrapped to 16 bits, and reads or writes beyond the RAM array read 0 or are dropped as the typed array does.
- Catalog.FloatRoundTrip: proved for |v| < 10000 only, because larger values are not encoded in radix 100 by the source.
- Catalog.EntryRecord: states the catalog entry of a file whose name has at most 10 characters; longer names shift the fields in the source as in the model, but the field read-backs are stated only for the usual case.
- ImageFormat.VolumeReadBack: stated for volume names of at most 10 characters.
- ImageFormat.DiskImageBits: stated for the 1440 sectors of the disk and volume names of at most 46 characters. A longer name runs into the bit map, and a file whose data runs past sector 1599 sets bits in bytes of sector 1 and beyond (the descriptor index); the model computes both, but no lemma states them.
- ImageFormat.DescriptorReadBack: stated for file names of at most 10 characters.
- Images.DiskImage.GetTIDiskImage: the full read-back of a synthesised image through `loadDSKFile` is not stated, because with the chain pointer and variable-record layout as written it fails for most images; the read-backs of its parts are stated instead.
- A JavaScript loop that never ends (a variable-record scan past the end of the buffer) is a `diverges` or `stuck` result, and an exception is a `throws` result; what the emulator does after either is not modelled.
- The `Protocol` operation functions (`OpenOp` and the others) carry no contracts of their own; what they promise is stated by the lemmas in the table.
