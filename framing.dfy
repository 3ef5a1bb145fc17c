/** Variable-length records as they lie in sectors: a length byte, that many data bytes,
    and so on, up to an end marker 0xFF. Both loaders scan this layout; the flat-image
    loader also stops at a length of 0. */
module Framing {
  import opened Bytes
  import opened Records

  /** Every record fits a length byte, and none has the length of an end marker. */
  predicate Frameable(rs: seq<Record>, stopAtZero: bool)
  {
    && Fits(rs)
    && forall k :: 0 <= k < |rs| ==> |rs[k].data| < 0xFF && (stopAtZero ==> |rs[k].data| != 0)
  }

  predicate Fits(rs: seq<Record>)
  {
    forall k :: 0 <= k < |rs| ==> |rs[k].data| < 0x100
  }

  /** The bytes of `rs` laid out one after another, each preceded by its length. */
  function Frame(rs: seq<Record>): (r: seq<byte>)
    requires Fits(rs)
  {
    if rs == [] then [] else [|rs[0].data|] + rs[0].data + Frame(rs[1..])
  }

  lemma FrameCons(r: Record, rest: seq<Record>)
    requires |r.data| < 0x100 && Fits(rest)
    ensures Fits([r] + rest)
    ensures Frame([r] + rest) == [|r.data|] + r.data + Frame(rest)
  {
    assert ([r] + rest)[1..] == rest;
  }

  /** Framing one more record appends its length byte and its bytes. */
  lemma {:induction false} FrameSnoc(rs: seq<Record>, r: Record)
    requires Fits(rs) && |r.data| < 0x100
    ensures Fits(rs + [r])
    ensures Frame(rs + [r]) == Frame(rs) + ([|r.data|] + r.data)
    decreases |rs|
  {
    if rs == [] {
      assert [r] + [] == [r];
      FrameCons(r, []);
      assert Frame(rs + [r]) == [|r.data|] + r.data + [];
    } else {
      var t, e := rs[1..], [|r.data|] + r.data;
      var h := [|rs[0].data|] + rs[0].data;
      FrameSnoc(t, r);
      assert [rs[0]] + (t + [r]) == rs + [r];
      assert [rs[0]] + t == rs;
      FrameCons(rs[0], t + [r]);
      FrameCons(rs[0], t);
      assert Frame(rs + [r]) == h + (Frame(t) + e);
      assert Frame(rs) == h + Frame(t);
      assert h + (Frame(t) + e) == (h + Frame(t)) + e;
    }
  }

  /** Scanning variable records from index `i`: the records up to the first end marker, or
      `None` when a length byte would be read past the end of `buf`. A load there is
      `undefined`, which is neither 0xFF nor 0, so the scanning loop never ends.
      Data bytes past the end read as 0. */
  function Scan(buf: seq<byte>, i: nat, stopAtZero: bool): (r: Option<seq<Record>>)
    decreases |buf| - i
  {
    if i >= |buf| then None
    else if buf[i] == 0xFF || (stopAtZero && buf[i] == 0) then Some([])
    else match Scan(buf, i + 1 + buf[i], stopAtZero)
      case None => None
      case Some(rest) => Some([Variable(Peek(buf, i + 1, buf[i]))] + rest)
  }

  /** A successful scan reads variable records none of which has the length of an end
      marker. */
  lemma {:induction false} ScanRecords(buf: seq<byte>, i: nat, stopAtZero: bool)
    requires Scan(buf, i, stopAtZero).Some?
    ensures var rs := Scan(buf, i, stopAtZero).value;
            && Frameable(rs, stopAtZero)
            && forall k :: 0 <= k < |rs| ==> rs[k].Variable?
    decreases |buf| - i
  {
    if !(buf[i] == 0xFF || (stopAtZero && buf[i] == 0)) {
      var j := i + 1 + buf[i];
      ScanRecords(buf, j, stopAtZero);
      var rest := Scan(buf, j, stopAtZero).value;
      var rs := [Variable(Peek(buf, i + 1, buf[i]))] + rest;
      assert Scan(buf, i, stopAtZero).value == rs;
      forall k | 0 <= k < |rs|
        ensures |rs[k].data| < 0xFF && (stopAtZero ==> |rs[k].data| != 0) && rs[k].Variable?
      {
        if k > 0 { assert rs[k] == rest[k - 1]; }
      }
    }
  }

  /** What a successful scan read: the bytes from `i` on are exactly the framed records,
      and an end marker follows them. */
  lemma {:induction false} ScanFrames(buf: seq<byte>, i: nat, stopAtZero: bool)
    requires Scan(buf, i, stopAtZero).Some?
    ensures Fits(Scan(buf, i, stopAtZero).value)
    ensures var f := Frame(Scan(buf, i, stopAtZero).value);
            && i + |f| < |buf|
            && buf[i..i + |f|] == f
            && (buf[i + |f|] == 0xFF || (stopAtZero && buf[i + |f|] == 0))
    decreases |buf| - i
  {
    ScanRecords(buf, i, stopAtZero);
    if !(buf[i] == 0xFF || (stopAtZero && buf[i] == 0)) {
      var len := buf[i];
      var j := i + 1 + len;
      ScanFrames(buf, j, stopAtZero);
      var rest := Scan(buf, j, stopAtZero).value;
      var r := Variable(Peek(buf, i + 1, len));
      assert Scan(buf, i, stopAtZero).value == [r] + rest;
      FrameCons(r, rest);
      FramedHere(buf, i, r.data, Frame(rest));
    }
  }

  /** A length byte, that many bytes and what follows, read where they lie. */
  lemma FramedHere(buf: seq<byte>, i: nat, data: seq<byte>, tail: seq<byte>)
    requires i + 1 + |data| + |tail| <= |buf| && buf[i] as int == |data|
    requires Peek(buf, i + 1, |data|) == data && buf[i + 1 + |data|..i + 1 + |data| + |tail|] == tail
    ensures buf[i..i + |[|data|] + data + tail|] == [|data|] + data + tail
  {
    PeekInside(buf, i + 1, |data|);
    SliceConcat(buf, i, [|data|] + data, tail);
    SliceConcat(buf, i, [|data|], data);
  }

  lemma FrameableTail(rs: seq<Record>, stopAtZero: bool)
    requires rs != [] && Frameable(rs, stopAtZero) && forall k :: 0 <= k < |rs| ==> rs[k].Variable?
    ensures Frameable(rs[1..], stopAtZero) && forall k :: 0 <= k < |rs| - 1 ==> rs[1..][k].Variable?
  {
    assert forall k :: 0 <= k < |rs| - 1 ==> rs[1..][k] == rs[k + 1];
  }

  /** Framed records followed by an end marker scan back to the same records, wherever
      they lie in the buffer. */
  lemma {:induction false} FrameScans(buf: seq<byte>, i: nat, rs: seq<Record>, stopAtZero: bool)
    requires Frameable(rs, stopAtZero) && forall k :: 0 <= k < |rs| ==> rs[k].Variable?
    requires i + |Frame(rs)| < |buf| && buf[i..i + |Frame(rs)|] == Frame(rs)
    requires buf[i + |Frame(rs)|] == 0xFF
    ensures Scan(buf, i, stopAtZero) == Some(rs)
    decreases |rs|
  {
    if rs != [] {
      var r, tail := rs[0], rs[1..];
      var len := |r.data|;
      FrameableTail(rs, stopAtZero);
      assert [r] + tail == rs;
      FrameCons(r, tail);
      var j := i + 1 + len;
      var f := Frame(rs);
      assert f == [len] + r.data + Frame(tail);
      SliceConcat(buf, i, [len] + r.data, Frame(tail));
      SliceConcat(buf, i, [len], r.data);
      assert buf[i] == buf[i..i + 1][0] == len;
      FrameScans(buf, j, tail, stopAtZero);
      PeekInside(buf, i + 1, len);
      assert r == Variable(r.data);
    } else {
      assert buf[i] == 0xFF;
    }
  }
}
