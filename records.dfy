/** Records of data files (`FixedRecord` and `VariableRecord`). Both variants carry their
    bytes; the tag records which constructor built them. */
module Records {
  import opened Bytes

  datatype Record = Fixed(data: seq<byte>) | Variable(data: seq<byte>)

  /** The bytes a `FixedRecord(data, length)` holds: `data` cut or zero-padded to `length`. */
  function FixedBytes(data: seq<byte>, length: nat): (r: seq<byte>)
    ensures |r| == length
  {
    seq<byte>(length, i requires 0 <= i < length => if i < |data| then data[i] else 0)
  }

  /** A fixed record built from at least `length` bytes keeps exactly their first `length`. */
  lemma FixedBytesTruncates(data: seq<byte>, length: nat)
    requires length <= |data|
    ensures FixedBytes(data, length) == data[..length]
  {
  }

  /** A fixed record built from fewer than `length` bytes keeps them all and is zero-filled after them. */
  lemma FixedBytesPads(data: seq<byte>, length: nat)
    requires |data| <= length
    ensures FixedBytes(data, length) == data + Zeros(length - |data|)
  {
  }

  /** The `FixedRecord` constructor: copies `length` bytes, taking 0 past the end of `data`. */
  method NewFixedRecord(data: seq<byte>, length: nat) returns (r: Record)
    ensures r.Fixed? && |r.data| == length
    ensures forall i :: 0 <= i < length ==> r.data[i] == if i < |data| then data[i] else 0
    ensures r == Fixed(FixedBytes(data, length))
  {
    var bytes: seq<byte> := [];
    for i := 0 to length
      invariant |bytes| == i
      invariant forall k :: 0 <= k < i ==> bytes[k] == if k < |data| then data[k] else 0
    {
      bytes := bytes + [if i < |data| then data[i] else 0];
    }
    r := Fixed(bytes);
  }
}
