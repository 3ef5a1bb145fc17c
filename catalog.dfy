/** The disk catalog (`createCatalogFile`): an internal, fixed 38-byte record file that a
    program reads to list a disk. Every record is a length-prefixed string followed by three
    numbers in the TI radix-100 floating point format, 9 bytes each. */
module Catalog {
  import opened Bytes
  import opened Records
  import opened Files
  import opened Directory

  // ---------------------------------------------------------------- numbers

  /** `x | 0x4100` for a 16-bit `x`: sets bits 8 and 14. */
  function Or4100(x: nat): (r: nat)
    requires x < 0x10000
    ensures r < 0x10000
  {
    x + (if (x / 0x100) % 2 == 0 then 0x100 else 0) + (if (x / 0x4000) % 2 == 0 then 0x4000 else 0)
  }

  /** The first word `writeAsFloat` builds for a magnitude `a`, before any negation:
      `floor(a / 100) | 0x4100` from 100 up, `a | 0x4000` below, 0 for 0. Only its low
      16 bits reach the output. */
  function MagnitudeWord(a: nat): (w: nat)
    ensures w < 0x10000
  {
    if a >= 100 then Or4100((a / 100) % 0x10000)
    else if a == 0 then 0
    else a + 0x4000
  }

  /** The first word `writeAsFloat(val)` emits: the magnitude word, replaced by its 16-bit
      two's complement (`((~w) + 1) & 0xFFFF`) when `val` is negative. */
  function FirstWord(v: int): (w: nat)
    ensures w < 0x10000
  {
    var w0 := MagnitudeWord(if v < 0 then -v else v);
    if v < 0 then (0x10000 - w0) % 0x10000 else w0
  }

  /** The second word's low byte: `val mod 100` from 100 up, else 0. */
  function SecondByte(v: int): byte
  {
    var a := if v < 0 then -v else v;
    if a >= 100 then a % 100 else 0
  }

  /** The 9 bytes `writeAsFloat(val)` emits: the length 8, the first word high byte first,
      the second byte and five zeros. */
  function FloatBytes(v: int): (r: seq<byte>)
    ensures |r| == 9 && r[0] == 8 && r[4..] == Zeros(5)
  {
    [8, FirstWord(v) / 0x100, FirstWord(v) % 0x100, SecondByte(v), 0, 0, 0, 0, 0]
  }

  /** Reading a TI radix-100 number with an exponent of at most 100^1: the sign is the
      two's complement of the first word, the high byte of its magnitude is 0x40 plus the
      exponent and the following bytes are base-100 digits, the first non-zero. `None` for
      byte strings that are not such a number. */
  function RadixValue(b: seq<byte>): Option<int>
  {
    if |b| != 9 || b[0] != 8 || b[4..] != Zeros(5) then None
    else
      var w0 := (b[1] as int) * 0x100 + b[2];
      var neg := w0 >= 0x8000;
      var w := if neg then 0x10000 - w0 else w0;
      var mag := Magnitude(w, b[3]);
      if mag.None? || (neg && mag.value == 0) then None
      else var m: int := mag.value; Some(if neg then -m else m)
  }

  /** The magnitude a first word `w` and a second digit `d2` stand for. */
  function Magnitude(w: nat, d2: byte): Option<nat>
  {
    var hi, d1 := w / 0x100, w % 0x100;
    if w == 0 && d2 == 0 then Some(0)
    else if hi == 0x40 && 0 < d1 < 100 && d2 == 0 then Some(d1)
    else if hi == 0x41 && 0 < d1 < 100 && d2 < 100 then Some(d1 * 100 + d2)
    else None
  }

  /** The magnitude word by range: 0, `0x4000 + a` below 100, `0x4100 + a div 100` up to 25599. */
  lemma MagnitudeWordCases(a: nat)
    ensures a == 0 ==> MagnitudeWord(a) == 0
    ensures 0 < a < 100 ==> MagnitudeWord(a) == 0x4000 + a
    ensures 100 <= a < 25600 ==> MagnitudeWord(a) == 0x4100 + a / 100
  {
    if 100 <= a < 25600 {
      var x := a / 100;
      assert x < 256;
      assert x % 0x10000 == x;
      assert x / 0x100 == 0 && x / 0x4000 == 0;
    }
  }

  lemma SplitWord(hi: nat, lo: nat)
    requires lo < 0x100
    ensures (hi * 0x100 + lo) / 0x100 == hi && (hi * 0x100 + lo) % 0x100 == lo
  {
  }

  /** The value bytes `writeAsFloat` emits, case by case: nothing for 0, `0x40, v` below
      100, `0x41, v div 100, v mod 100` from 100 up to 25599, and for negative values the
      first word of the magnitude negated in 16 bits. */
  lemma FloatCases(v: int)
    ensures v == 0 ==> FloatBytes(v)[1..4] == [0, 0, 0]
    ensures 0 < v < 100 ==> FloatBytes(v)[1..4] == [0x40, v, 0]
    ensures 100 <= v < 25600 ==> FloatBytes(v)[1..4] == [0x41, v / 100, v % 100]
    ensures v < 0 ==> FirstWord(v) == (0x10000 - FirstWord(-v)) % 0x10000 && SecondByte(v) == SecondByte(-v)
  {
    if v >= 0 {
      var w := FirstWord(v);
      assert FloatBytes(v)[1..4] == [w / 0x100, w % 0x100, SecondByte(v)];
      MagnitudeWordCases(v);
      if 0 < v < 100 {
        assert w == 0x40 * 0x100 + v;
        SplitWord(0x40, v);
      } else if 100 <= v < 25600 {
        assert w == 0x41 * 0x100 + v / 100;
        SplitWord(0x41, v / 100);
      }
    }
  }

  /** The magnitude word of up to four digits reads back as the magnitude and has the
      sign bit clear. */
  lemma MagnitudeRoundTrip(a: nat)
    requires a < 10000
    ensures Magnitude(MagnitudeWord(a), SecondByte(a)) == Some(a)
    ensures MagnitudeWord(a) < 0x8000 && (a > 0 ==> MagnitudeWord(a) > 0)
  {
    MagnitudeWordCases(a);
    if a >= 100 {
      SplitWord(0x41, a / 100);
    } else if a > 0 {
      SplitWord(0x40, a);
    }
  }

  /** Up to four digits, reading back what `writeAsFloat` wrote gives the value. */
  lemma FloatRoundTrip(v: int)
    requires -10000 < v < 10000
    ensures RadixValue(FloatBytes(v)) == Some(v)
  {
    var a := if v < 0 then -v else v;
    MagnitudeRoundTrip(a);
    FirstWordBytes(v);
    FirstWordSign(v);
  }

  /** The first word and second byte, where `FloatBytes` puts them. */
  lemma FirstWordBytes(v: int)
    ensures var b := FloatBytes(v);
            && (b[1] as int) * 0x100 + b[2] == FirstWord(v)
            && b[3] == SecondByte(if v < 0 then -v else v)
  {
    var w := FirstWord(v);
    SplitWord(w / 0x100, w % 0x100);
  }

  /** Within four digits the sign bit of the first word is the sign of the value, and a
      negative value's first word negates back to the magnitude word. */
  lemma FirstWordSign(v: int)
    requires -10000 < v < 10000
    ensures v >= 0 ==> FirstWord(v) == MagnitudeWord(v) < 0x8000
    ensures v < 0 ==> FirstWord(v) >= 0x8000 && 0x10000 - FirstWord(v) == MagnitudeWord(-v)
  {
    MagnitudeRoundTrip(if v < 0 then -v else v);
  }

  /** A word and digit that read back as a magnitude are the ones written for it. */
  lemma MagnitudeInverse(w: nat, d2: byte)
    requires Magnitude(w, d2).Some?
    ensures var a := Magnitude(w, d2).value;
            && a < 10000 && MagnitudeWord(a) == w && SecondByte(a) == d2
  {
    var a := Magnitude(w, d2).value;
    MagnitudeWordCases(a);
    if a >= 100 {
      assert a / 100 == w % 0x100 && a % 100 == d2;
    }
  }

  /** Every byte string that reads back as a value is the encoding of that value, so
      within four digits the encoding and the reading are inverse bijections. */
  lemma FloatReadBack(b: seq<byte>)
    requires RadixValue(b).Some?
    ensures -10000 < RadixValue(b).value < 10000
    ensures FloatBytes(RadixValue(b).value) == b
  {
    var v := RadixValue(b).value;
    var w0 := (b[1] as int) * 0x100 + b[2];
    var w := if w0 >= 0x8000 then 0x10000 - w0 else w0;
    MagnitudeInverse(w, b[3]);
    var a := Magnitude(w, b[3]).value;
    var m: int := a;
    assert v == (if w0 >= 0x8000 then -m else m);
    assert FirstWord(v) == w0;
    SplitWord(b[1], b[2]);
    assert b == b[..4] + b[4..];
  }

  /** From 10000 on, the second byte of the encoding is no radix-100 digit, so such values
      (sector counts of large files) do not read back. */
  lemma FloatBeyondFourDigits(v: int)
    requires 10000 <= v < 25600
    ensures FloatBytes(v)[2] >= 100
    ensures RadixValue(FloatBytes(v)).None?
  {
    MagnitudeWordCases(v);
    SplitWord(0x41, v / 100);
  }

  // ---------------------------------------------------------------- strings

  /** The bytes `writeAsString(s)` emits: the length, then the characters. The length is
      a JavaScript number stored into a record; it is kept modulo 256 here. */
  function StringBytes(s: seq<byte>): (r: seq<byte>)
    ensures |r| == |s| + 1 && r[0] == |s| % 0x100 && r[1..] == s
  {
    [|s| % 0x100] + s
  }

  /** `writeAsString`: appends into a reused array at offset `n`. */
  method WriteAsString(data: seq<byte>, n: nat, s: seq<byte>) returns (data': seq<byte>, n': nat)
    requires n <= |data|
    ensures data' == GrowWrite(data, n, StringBytes(s)) && n' == n + |s| + 1
  {
    data' := GrowWrite(data, n, [|s| % 0x100]);
    n' := n + 1;
    for i := 0 to |s|
      invariant n' == n + 1 + i && n' <= |data'|
      invariant data' == GrowWrite(data, n, StringBytes(s)[..i + 1])
    {
      GrowWriteConcat(data, n, StringBytes(s)[..i + 1], [s[i]]);
      assert StringBytes(s)[..i + 1] + [s[i]] == StringBytes(s)[..i + 2];
      data' := GrowWrite(data', n', [s[i]]);
      n' := n' + 1;
    }
    assert StringBytes(s)[..|s| + 1] == StringBytes(s);
  }

  /** `writeAsFloat`: appends the 9-byte encoding of `v` into a reused array at offset `n`:
      the length byte and the two words, then five zeros. */
  method WriteAsFloat(data: seq<byte>, n: nat, v: int) returns (data': seq<byte>, n': nat)
    requires n <= |data|
    ensures data' == GrowWrite(data, n, FloatBytes(v)) && n' == n + 9
  {
    var head := FloatHead(v);
    data' := GrowWrite(data, n, head);
    n' := n + 4;
    for i := 0 to 5
      invariant n' == n + 4 + i && n' <= |data'|
      invariant data' == GrowWrite(data, n, head + Zeros(i))
    {
      GrowWriteConcat(data, n, head + Zeros(i), [0]);
      assert head + Zeros(i) + [0] == head + Zeros(i + 1);
      data' := GrowWrite(data', n', [0]);
      n' := n' + 1;
    }
  }

  /** The words `writeAsFloat` computes: the length byte 8, the first word high byte first
      and the low byte of the second. */
  method FloatHead(v: int) returns (head: seq<byte>)
    ensures head + Zeros(5) == FloatBytes(v)
  {
    var a := if v < 0 then -v else v;
    var w0 := MagnitudeWord(a);
    var w1: byte := if a >= 100 then a % 100 else 0;
    if v < 0 {
      w0 := (0x10000 - w0) % 0x10000;
    }
    assert w0 == FirstWord(v) && w1 == SecondByte(v);
    head := [8, w0 / 0x100, w0 % 0x100, w1];
    FloatBytesSplit(v);
  }

  lemma FloatBytesSplit(v: int)
    ensures FloatBytes(v) == [8, FirstWord(v) / 0x100, FirstWord(v) % 0x100, SecondByte(v)] + Zeros(5)
  {
    assert FloatBytes(v) == FloatBytes(v)[..4] + FloatBytes(v)[4..];
  }

  // ---------------------------------------------------------------- records

  /** The catalog's type code: 5 for a program, else 1 (display fixed) plus 2 for
      internal data plus 1 for variable records. */
  function TypeCode(f: FileState): (t: int)
    requires f.Valid()
    ensures 1 <= t <= 5
  {
    if f.fileType == FILE_TYPE_PROGRAM then 5
    else 1 + (if f.dataType == DATATYPE_INTERNAL then 2 else 0)
           + (if f.recordType == RECORD_TYPE_VARIABLE then 1 else 0)
  }

  /** The type code determines the file type and, for data files, the datatype and the
      record type. */
  lemma TypeCodeInjective(f: FileState, g: FileState)
    requires f.Valid() && g.Valid() && TypeCode(f) == TypeCode(g)
    ensures f.fileType == g.fileType
    ensures f.IsData() ==> f.dataType == g.dataType && f.recordType == g.recordType
  {
  }

  const VOLUME_SECTORS := 1440
  const FREE_SECTORS := 1311

  /** The volume record before truncation: the name padded to 10, then 0, the sector
      count and the (constant) number of free sectors. */
  function VolumeBytes(volumeName: seq<byte>): (r: seq<byte>)
    ensures |r| >= 38
  {
    StringBytes(PadRight(volumeName, SPACE, 10)) + FloatBytes(0) + FloatBytes(VOLUME_SECTORS) + FloatBytes(FREE_SECTORS)
  }

  /** The entry of one file before truncation: padded name, type code, sectors used and
      record length (-1 for programs). */
  function EntryBytes(f: FileState): (r: seq<byte>)
    requires f.Valid() && !GeometryThrows(f)
    ensures |r| >= 38
  {
    StringBytes(PadRight(f.name, SPACE, 10)) + FloatBytes(TypeCode(f)) + FloatBytes(SectorCount(f)) + FloatBytes(f.recordLength)
  }

  /** What the terminator writes: an empty string and three zeros, 28 bytes. */
  function TerminatorBytes(): (r: seq<byte>)
    ensures |r| == 28
  {
    StringBytes([]) + FloatBytes(0) + FloatBytes(0) + FloatBytes(0)
  }

  /** Every file of the list is valid, as in a well-formed file list. */
  predicate AllValid(files: seq<FileState>)
  {
    forall i :: 0 <= i < |files| ==> files[i].Valid()
  }

  /** Building the catalog calls `getSectorCount` on every file, which throws for a
      variable-record file with holes. */
  predicate CatalogThrows(files: seq<FileState>)
  {
    exists i :: 0 <= i < |files| && GeometryThrows(files[i])
  }

  /** The bytes the reused buffer starts with when the terminator is written: those of the
      last record written. */
  function LastWritten(volumeName: seq<byte>, files: seq<FileState>): (r: seq<byte>)
    requires AllValid(files) && !CatalogThrows(files)
    ensures |r| >= 38
  {
    if files == [] then VolumeBytes(volumeName) else EntryBytes(files[|files| - 1])
  }

  /** The records of the catalog: the volume record, one entry per file in map order and
      the terminator, whose last ten bytes are left over from the record before it. */
  function CatalogRecords(volumeName: seq<byte>, files: seq<FileState>): seq<Record>
    requires AllValid(files) && !CatalogThrows(files)
  {
    [Fixed(FixedBytes(VolumeBytes(volumeName), 38))]
    + EntryRecords(files)
    + [Fixed(TerminatorBytes() + LastWritten(volumeName, files)[28..38])]
  }

  /** The entry records of the files, in map order. */
  function EntryRecords(files: seq<FileState>): (rs: seq<Record>)
    requires AllValid(files) && !CatalogThrows(files)
    ensures |rs| == |files|
    ensures forall i :: 0 <= i < |files| ==> rs[i] == Fixed(FixedBytes(EntryBytes(files[i]), 38))
  {
    seq(|files|, i requires 0 <= i < |files| => Fixed(FixedBytes(EntryBytes(files[i]), 38)))
  }

  /** One step of the catalog loop: when no file before `files[i]` throws and `files[i]`
      does not either, the entries so far grow by the record of `files[i]`, which becomes
      the last record written. */
  lemma CatalogStep(volumeName: seq<byte>, files: seq<FileState>, i: nat)
    requires AllValid(files) && i < |files| && !CatalogThrows(files[..i]) && !GeometryThrows(files[i])
    ensures AllValid(files[..i + 1]) && !CatalogThrows(files[..i + 1])
    ensures EntryRecords(files[..i + 1]) == EntryRecords(files[..i]) + [Fixed(FixedBytes(EntryBytes(files[i]), 38))]
    ensures LastWritten(volumeName, files[..i + 1]) == EntryBytes(files[i])
  {
    var before, after := files[..i], files[..i + 1];
    assert after == before + [files[i]];
    assert AllValid(after) by {
      forall k | 0 <= k < |after| ensures after[k].Valid() {
        assert after[k] == files[k];
      }
    }
    assert !CatalogThrows(after) by {
      forall k | 0 <= k < |after| ensures !GeometryThrows(after[k]) {
        if k < i {
          assert after[k] == before[k];
        }
      }
    }
  }

  /** The catalog file once built and closed. */
  function CatalogFile(volumeName: seq<byte>, files: seq<FileState>): FileState
    requires AllValid(files) && !CatalogThrows(files)
  {
    WrittenFile(Ascii("CATALOG"), FILE_TYPE_DATA, RECORD_TYPE_FIXED, 38, DATATYPE_INTERNAL, CatalogRecords(volumeName, files))
  }

  /** The catalog has one record per file plus the volume record and the terminator; all
      are fixed records of 38 bytes, and the file is a closed, valid, internal fixed file. */
  lemma CatalogShape(volumeName: seq<byte>, files: seq<FileState>)
    requires AllValid(files) && !CatalogThrows(files)
    ensures var rs := CatalogRecords(volumeName, files);
            && |rs| == |files| + 2
            && forall i :: 0 <= i < |rs| ==> rs[i].Fixed? && |rs[i].data| == 38
    ensures CatalogFile(volumeName, files).Valid() && CatalogFile(volumeName, files).IsFixed()
    ensures CatalogFile(volumeName, files).operationMode == CLOSED
  {
  }

  /** A record of a string field of 11 bytes and three 9-byte numbers, cut to 38 bytes:
      each number lies at its place and reads back as it did on its own. */
  lemma NumberFields(a: seq<byte>, x: seq<byte>, y: seq<byte>, z: seq<byte>)
    requires |a| == 11 && |x| == 9 && |y| == 9 && |z| == 9
    ensures var r := FixedBytes(a + x + y + z, 38);
            && r[0] == a[0] && r[1..11] == a[1..]
            && r[11..20] == x && r[20..29] == y && r[29..38] == z
  {
    var b := a + x + y + z;
    FixedBytesTruncates(b, 38);
    assert FixedBytes(b, 38) == b;
  }

  /** For a volume name of at most 10 characters, the volume record holds the name length
      10, the padded name, and the numbers 0, 1440 and 1311. */
  lemma VolumeRecord(volumeName: seq<byte>)
    requires |volumeName| <= 10
    ensures var r := FixedBytes(VolumeBytes(volumeName), 38);
            && r[0] == 10 && r[1..11] == PadRight(volumeName, SPACE, 10)
            && RadixValue(r[11..20]) == Some(0)
            && RadixValue(r[20..29]) == Some(1440)
            && RadixValue(r[29..38]) == Some(1311)
  {
    NumberFields(StringBytes(PadRight(volumeName, SPACE, 10)), FloatBytes(0), FloatBytes(VOLUME_SECTORS), FloatBytes(FREE_SECTORS));
    FloatRoundTrip(0);
    FloatRoundTrip(1440);
    FloatRoundTrip(1311);
  }

  /** For a file name of at most 10 characters, the file's record holds the padded name,
      its type code, its sector count and its record length as numbers; each reads back
      while it has at most four digits. */
  lemma EntryRecord(f: FileState)
    requires f.Valid() && !GeometryThrows(f) && |f.name| <= 10
    ensures var r := FixedBytes(EntryBytes(f), 38);
            && r[0] == 10 && r[1..11] == PadRight(f.name, SPACE, 10)
            && r[11..20] == FloatBytes(TypeCode(f)) && RadixValue(r[11..20]) == Some(TypeCode(f))
            && r[20..29] == FloatBytes(SectorCount(f))
            && (SectorCount(f) < 10000 ==> RadixValue(r[20..29]) == Some(SectorCount(f)))
            && RadixValue(r[29..38]) == Some(f.recordLength)
  {
    NumberFields(StringBytes(PadRight(f.name, SPACE, 10)), FloatBytes(TypeCode(f)), FloatBytes(SectorCount(f)), FloatBytes(f.recordLength));
    FloatRoundTrip(TypeCode(f));
    if SectorCount(f) < 10000 {
      FloatRoundTrip(SectorCount(f));
    }
    FloatRoundTrip(f.recordLength);
  }

  /** Where the fields of the terminator lie, whatever its last ten bytes. */
  lemma TerminatorFields(tail: seq<byte>)
    requires |tail| == 10
    ensures var t := TerminatorBytes() + tail;
            && t[0] == 0 && t[1..10] == FloatBytes(0) && t[10..19] == FloatBytes(0) && t[19..28] == FloatBytes(0)
            && t[28..38] == tail
  {
    var z := FloatBytes(0);
    assert TerminatorBytes() == [0] + z + z + z;
  }

  /** The terminator starts with an empty name (first byte 0) and three zeros, and its last
      ten bytes repeat those of the record before it. */
  lemma TerminatorRecord(volumeName: seq<byte>, files: seq<FileState>)
    requires AllValid(files) && !CatalogThrows(files)
    ensures var rs := CatalogRecords(volumeName, files);
            var t := rs[|rs| - 1].data;
            && t[0] == 0
            && RadixValue(t[1..10]) == Some(0) && RadixValue(t[10..19]) == Some(0) && RadixValue(t[19..28]) == Some(0)
            && t[28..38] == rs[|rs| - 2].data[28..38]
  {
    var last := LastWritten(volumeName, files);
    LastTwoRecords(volumeName, files);
    TerminatorFields(last[28..38]);
    FloatRoundTrip(0);
    FixedBytesTruncates(last, 38);
  }

  /** The two last records of the catalog: the last one written from the buffer, cut to
      38 bytes, and the terminator. */
  lemma LastTwoRecords(volumeName: seq<byte>, files: seq<FileState>)
    requires AllValid(files) && !CatalogThrows(files)
    ensures var rs := CatalogRecords(volumeName, files);
            var last := LastWritten(volumeName, files);
            && |rs| == |files| + 2
            && rs[|rs| - 2].data == FixedBytes(last, 38)
            && rs[|rs| - 1].data == TerminatorBytes() + last[28..38]
  {
    LastTwo(Fixed(FixedBytes(VolumeBytes(volumeName), 38)), EntryRecords(files),
            Fixed(TerminatorBytes() + LastWritten(volumeName, files)[28..38]));
  }

  lemma LastTwo(head: Record, middle: seq<Record>, tail: Record)
    ensures var rs := [head] + middle + [tail];
            && |rs| == |middle| + 2 && rs[|rs| - 1] == tail
            && rs[|rs| - 2] == if middle == [] then head else middle[|middle| - 1]
  {
  }
}
