/** The file map of a disk image (`DiskImage.files`): a JavaScript object keyed by file
    name, which enumerates its keys in insertion order and keeps a key's position when its
    value is replaced. It is modelled as an association list of file states with unique
    names; `Lookup` is the map it stands for. */
module Directory {
  import opened Bytes
  import opened Files

  datatype ImageState = ImageState(name: seq<byte>, files: seq<FileState>)

  function Names(fs: seq<FileState>): (names: seq<seq<byte>>)
    ensures |names| == |fs| && forall i :: 0 <= i < |fs| ==> names[i] == fs[i].name
  {
    seq(|fs|, i requires 0 <= i < |fs| => fs[i].name)
  }

  predicate UniqueNames(names: seq<seq<byte>>)
  {
    forall i, j :: 0 <= i < j < |names| ==> names[i] != names[j]
  }

  /** A well-formed file list: unique names and every file valid. */
  predicate WellFormed(fs: seq<FileState>)
  {
    UniqueNames(Names(fs)) && forall i :: 0 <= i < |fs| ==> fs[i].Valid()
  }

  /** The position of the first entry called `name`, if any. */
  function IndexOf(names: seq<seq<byte>>, name: seq<byte>): (r: Option<nat>)
    ensures r.None? <==> name !in names
    ensures r.Some? ==> r.value < |names| && names[r.value] == name
    ensures r.Some? ==> forall k :: 0 <= k < r.value ==> names[k] != name
  {
    if names == [] then None
    else if names[0] == name then Some(0)
    else match IndexOf(names[1..], name)
      case None => None
      case Some(k) => Some(k + 1)
  }

  /** `getFile(name)`: the file called `name`, or `undefined`. Names inherited from
      `Object.prototype` are not own keys of the map and are not modelled. */
  function Lookup(fs: seq<FileState>, name: seq<byte>): (r: Option<FileState>)
    ensures r.None? <==> name !in Names(fs)
    ensures r.Some? ==> r.value in fs && r.value.name == name
  {
    match IndexOf(Names(fs), name)
    case None => None
    case Some(k) => Some(fs[k])
  }

  /** `putFile(f)`: replaces the entry of the same name in place, or appends. */
  function Put(fs: seq<FileState>, f: FileState): seq<FileState>
  {
    match IndexOf(Names(fs), f.name)
    case None => fs + [f]
    case Some(k) => fs[k := f]
  }

  /** `deleteFile(name)`: drops the entry called `name`, keeping the order of the others. */
  function Remove(fs: seq<FileState>, name: seq<byte>): seq<FileState>
  {
    match IndexOf(Names(fs), name)
    case None => fs
    case Some(k) => fs[..k] + fs[k + 1..]
  }

  /** With unique names, the position of a name is the one entry carrying it. */
  lemma IndexOfUnique(names: seq<seq<byte>>, i: nat)
    requires UniqueNames(names) && i < |names|
    ensures IndexOf(names, names[i]) == Some(i)
  {
  }

  /** `putFile` behaves as a map update: looking up the file's name yields the file and
      every other name yields what it did before. It keeps names unique; an existing name
      keeps its position and a new one goes last. */
  lemma PutSpec(fs: seq<FileState>, f: FileState, other: seq<byte>)
    requires UniqueNames(Names(fs))
    ensures UniqueNames(Names(Put(fs, f)))
    ensures Lookup(Put(fs, f), f.name) == Some(f)
    ensures other != f.name ==> Lookup(Put(fs, f), other) == Lookup(fs, other)
    ensures f.name in Names(fs) ==> Names(Put(fs, f)) == Names(fs)
    ensures f.name !in Names(fs) ==> Put(fs, f) == fs + [f]
  {
    var fs' := Put(fs, f);
    match IndexOf(Names(fs), f.name)
    case None =>
      assert Names(fs') == Names(fs) + [f.name];
      IndexOfUnique(Names(fs'), |fs|);
      if other in Names(fs) {
        var i := IndexOf(Names(fs), other).value;
        IndexOfUnique(Names(fs), i);
        IndexOfUnique(Names(fs'), i);
      }
    case Some(k) =>
      assert Names(fs') == Names(fs);
      IndexOfUnique(Names(fs'), k);
  }

  /** Dropping position `k` from a list of unique names: the dropped name is gone and the
      others stay unique. */
  lemma DropName(names: seq<seq<byte>>, k: nat)
    requires UniqueNames(names) && k < |names|
    ensures var rest := names[..k] + names[k + 1..];
            UniqueNames(rest) && names[k] !in rest
  {
    var rest := names[..k] + names[k + 1..];
    assert forall i :: 0 <= i < |rest| ==> rest[i] == names[if i < k then i else i + 1];
  }

  /** After dropping position `k`, a name after it moves down by one, a name before it
      stays. */
  lemma DropNameIndex(names: seq<seq<byte>>, k: nat, i: nat)
    requires UniqueNames(names) && k < |names| && i < |names| && i != k
    ensures IndexOf(names[..k] + names[k + 1..], names[i]) == Some(if i < k then i else i - 1)
  {
    var rest := names[..k] + names[k + 1..];
    DropName(names, k);
    assert rest[if i < k then i else i - 1] == names[i];
    IndexOfUnique(rest, if i < k then i else i - 1);
  }

  /** `deleteFile` behaves as a map removal: the name is no longer found and every other
      name yields what it did before. It keeps names unique, and the remaining entries keep
      their order. */
  lemma RemoveSpec(fs: seq<FileState>, name: seq<byte>, other: seq<byte>)
    requires UniqueNames(Names(fs))
    ensures UniqueNames(Names(Remove(fs, name)))
    ensures Lookup(Remove(fs, name), name).None?
    ensures other != name ==> Lookup(Remove(fs, name), other) == Lookup(fs, other)
    ensures name in Names(fs) ==> |Remove(fs, name)| == |fs| - 1
    ensures name !in Names(fs) ==> Remove(fs, name) == fs
  {
    match IndexOf(Names(fs), name)
    case None =>
    case Some(k) =>
      var fs' := Remove(fs, name);
      var names, rest := Names(fs), Names(fs');
      assert forall i :: 0 <= i < |fs'| ==> fs'[i] == fs[if i < k then i else i + 1];
      assert rest == names[..k] + names[k + 1..];
      DropName(names, k);
      if other != name {
        if other in names {
          var i := IndexOf(names, other).value;
          var i' := if i < k then i else i - 1;
          DropNameIndex(names, k, i);
          assert fs'[i'] == fs[i];
        } else {
          assert other !in rest;
        }
      }
  }

  /** Putting a valid file into a well-formed list keeps it well-formed. */
  lemma PutKeepsWellFormed(fs: seq<FileState>, f: FileState)
    requires WellFormed(fs) && f.Valid()
    ensures WellFormed(Put(fs, f))
  {
    PutSpec(fs, f, f.name);
  }

  /** A property every file of the list and the new file have holds of every file after
      `putFile`. */
  lemma PutEvery(fs: seq<FileState>, f: FileState, p: FileState -> bool)
    requires forall i :: 0 <= i < |fs| ==> p(fs[i])
    requires p(f)
    ensures forall i :: 0 <= i < |Put(fs, f)| ==> p(Put(fs, f)[i])
  {
  }

  /** Removing a name from a well-formed list keeps it well-formed. */
  lemma RemoveKeepsWellFormed(fs: seq<FileState>, name: seq<byte>)
    requires WellFormed(fs)
    ensures WellFormed(Remove(fs, name))
  {
    RemoveSpec(fs, name, name);
    match IndexOf(Names(fs), name)
    case None =>
    case Some(k) =>
      var fs' := Remove(fs, name);
      assert forall i :: 0 <= i < |fs'| ==> fs'[i] == fs[if i < k then i else i + 1];
  }

  /** Putting two files of the same name one after the other leaves only the second. */
  lemma PutTwice(fs: seq<FileState>, f: FileState, g: FileState)
    requires UniqueNames(Names(fs)) && f.name == g.name
    ensures Put(Put(fs, f), g) == Put(fs, g)
  {
    PutSpec(fs, f, f.name);
    if f.name !in Names(fs) {
      assert Names(fs + [f]) == Names(fs) + [f.name];
      IndexOfUnique(Names(fs + [f]), |fs|);
    }
  }
}
