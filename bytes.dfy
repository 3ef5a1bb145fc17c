/** Bytes, byte strings and the two kinds of byte store the disk code writes into:
    typed arrays of fixed size (`Uint8Array`), where stores outside the array are dropped
    and loads outside it read as 0, and growable JavaScript arrays written at a moving
    offset. */
module Bytes {

  type byte = x: int | 0 <= x < 0x100

  datatype Option<T> = None | Some(value: T)

  /** The byte at `addr`, or 0 outside `mem`. A typed-array load out of range yields
      `undefined`, which a store into a byte array or a mask with `&` turns into 0; where
      the source adds it with `+` instead, it becomes NaN, which this model does not
      follow. */
  function At(mem: seq<byte>, addr: int): byte
  {
    if 0 <= addr < |mem| then mem[addr] else 0
  }

  /** `len` consecutive bytes loaded from `addr`. */
  function Peek(mem: seq<byte>, addr: int, len: nat): (r: seq<byte>)
    ensures |r| == len
    ensures forall i :: 0 <= i < len ==> r[i] == At(mem, addr + i)
  {
    seq<byte>(len, i requires 0 <= i < len => At(mem, addr + i))
  }

  /** `bs` stored from `addr` into a fixed-size byte array; stores out of range are dropped. */
  function Poke(mem: seq<byte>, addr: int, bs: seq<byte>): (r: seq<byte>)
    ensures |r| == |mem|
    ensures forall i :: 0 <= i < |mem| ==> r[i] == if addr <= i < addr + |bs| then bs[i - addr] else mem[i]
  {
    seq<byte>(|mem|, i requires 0 <= i < |mem| => if addr <= i < addr + |bs| then bs[i - addr] else mem[i])
  }

  /** Storing bytes and loading them back from the same place yields them again. */
  lemma PeekPoke(mem: seq<byte>, addr: nat, bs: seq<byte>)
    requires addr + |bs| <= |mem|
    ensures Peek(Poke(mem, addr, bs), addr, |bs|) == bs
  {
  }

  /** Storing what is already there changes nothing. */
  lemma PokePeek(mem: seq<byte>, addr: nat, len: nat)
    requires addr + len <= |mem|
    ensures Poke(mem, addr, Peek(mem, addr, len)) == mem
  {
  }

  /** `bs` written at offset `n <= |data|` of a growable array: elements past the old end are appended. */
  function GrowWrite(data: seq<byte>, n: nat, bs: seq<byte>): (r: seq<byte>)
    requires n <= |data|
    ensures |r| == if n + |bs| < |data| then |data| else n + |bs|
    ensures r[..n] == data[..n] && r[n..n + |bs|] == bs
    ensures forall i :: n + |bs| <= i < |data| ==> r[i] == data[i]
  {
    data[..n] + bs + if n + |bs| < |data| then data[n + |bs|..] else []
  }

  /** Two consecutive writes at a moving offset are one write of both byte strings. */
  lemma GrowWriteConcat(data: seq<byte>, n: nat, a: seq<byte>, b: seq<byte>)
    requires n <= |data|
    ensures GrowWrite(GrowWrite(data, n, a), n + |a|, b) == GrowWrite(data, n, a + b)
  {
    var d1 := GrowWrite(data, n, a);
    var d2 := GrowWrite(d1, n + |a|, b);
    var d3 := GrowWrite(data, n, a + b);
    assert |d2| == |d3|;
    forall i | 0 <= i < |d2| ensures d2[i] == d3[i] {
      if i < n {
        assert d2[i] == d2[..n + |a|][i] == d1[..n + |a|][i] == d1[i] == d1[..n][i];
        assert d3[i] == d3[..n][i];
      } else if i < n + |a| {
        assert d2[i] == d2[..n + |a|][i] == d1[..n + |a|][i] == d1[i] == d1[n..n + |a|][i - n];
        assert d3[i] == d3[n..n + |a| + |b|][i - n];
      } else if i < n + |a| + |b| {
        assert d2[i] == d2[n + |a|..n + |a| + |b|][i - n - |a|];
        assert d3[i] == d3[n..n + |a| + |b|][i - n];
      }
    }
  }

  /** The two bytes, high first, that `writeWord` stores for `w` (`(w & 0xFF00) >> 8`, `w & 0xFF`). */
  function Word(w: int): (r: seq<byte>)
    ensures |r| == 2
  {
    [(w % 0x10000) / 0x100, w % 0x100]
  }

  /** The big-endian word at `addr` (`buf[addr] << 8 | buf[addr + 1]`). */
  function WordAt(mem: seq<byte>, addr: int): (w: nat)
    ensures w < 0x10000
  {
    At(mem, addr) * 0x100 + At(mem, addr + 1)
  }

  /** Reading back a stored word gives the word modulo 2^16. */
  lemma WordRoundTrip(mem: seq<byte>, addr: nat, w: int)
    requires addr + 2 <= |mem|
    ensures WordAt(Poke(mem, addr, Word(w)), addr) == w % 0x10000
  {
    var poked := Poke(mem, addr, Word(w));
    WordValue(w);
    PeekPoke(mem, addr, Word(w));
    var p := Peek(poked, addr, 2);
    assert At(poked, addr) == p[0] && At(poked, addr + 1) == p[1];
  }

  /** The value `WordAt` reads from the two bytes of `Word(w)`: `w` modulo 2^16. */
  lemma WordValue(w: int)
    ensures (Word(w)[0] as int) * 0x100 + Word(w)[1] == w % 0x10000
  {
    var m := w % 0x10000;
    var q := w / 0x10000;
    DivModUnique(w, 0x100, q * 0x100 + m / 0x100, m % 0x100);
  }

  lemma MulBound(t: int, d: int)
    requires d > 0 && t >= 1
    ensures t * d >= d
  {
    assert t * d == (t - 1) * d + d;
  }

  /** Quotient and remainder are the only ones with `n == q * d + r` and `0 <= r < d`. */
  lemma DivModUnique(n: int, d: int, q: int, r: int)
    requires d > 0 && n == q * d + r && 0 <= r < d
    ensures n / d == q && n % d == r
  {
    var q', r' := n / d, n % d;
    assert (q - q') * d == r' - r;
    if q' < q {
      MulBound(q - q', d);
    } else if q' > q {
      MulBound(q' - q, d);
    }
  }

  /** A slice holds `a + b` exactly when it holds `a` and then `b`. */
  lemma SliceConcat(buf: seq<byte>, i: nat, a: seq<byte>, b: seq<byte>)
    requires i + |a| + |b| <= |buf|
    ensures buf[i..i + |a| + |b|] == a + b <==> buf[i..i + |a|] == a && buf[i + |a|..i + |a| + |b|] == b
  {
    var s := buf[i..i + |a| + |b|];
    assert buf[i..i + |a|] == s[..|a|] && (a + b)[..|a|] == a;
    assert buf[i + |a|..i + |a| + |b|] == s[|a|..] && (a + b)[|a|..] == b;
    assert s == s[..|a|] + s[|a|..];
  }

  /** Bytes loaded from within the buffer are its slice. */
  lemma PeekInside(buf: seq<byte>, addr: nat, len: nat)
    requires addr + len <= |buf|
    ensures Peek(buf, addr, len) == buf[addr..addr + len]
  {
  }

  /** Two stores at adjacent addresses are one store of both byte strings. */
  lemma PokeConcat(mem: seq<byte>, addr: int, a: seq<byte>, b: seq<byte>)
    ensures Poke(Poke(mem, addr, a), addr + |a|, b) == Poke(mem, addr, a + b)
  {
    var l := Poke(Poke(mem, addr, a), addr + |a|, b);
    var r := Poke(mem, addr, a + b);
    assert forall i :: 0 <= i < |mem| ==> l[i] == r[i];
  }

  /** `padr(ch, len)`: `s` extended on the right with `ch` up to length `len`; never truncated. */
  function PadRight(s: seq<byte>, ch: byte, len: nat): (r: seq<byte>)
    ensures |r| == if |s| < len then len else |s|
    ensures r[..|s|] == s && forall i :: |s| <= i < |r| ==> r[i] == ch
  {
    s + seq<byte>(if |s| < len then len - |s| else 0, _ => ch)
  }

  const SPACE: byte := 0x20

  /** The characters of code 0-255 that JavaScript's `trim` removes. */
  predicate IsJsSpace(b: byte)
  {
    b == 0x09 || b == 0x0A || b == 0x0B || b == 0x0C || b == 0x0D || b == 0x20 || b == 0xA0
  }

  function TrimLeft(s: seq<byte>): (r: seq<byte>)
    ensures |r| <= |s| && r == s[|s| - |r|..]
    ensures r == [] || !IsJsSpace(r[0])
    ensures forall i :: 0 <= i < |s| - |r| ==> IsJsSpace(s[i])
  {
    if s != [] && IsJsSpace(s[0]) then TrimLeft(s[1..]) else s
  }

  function TrimRight(s: seq<byte>): (r: seq<byte>)
    ensures |r| <= |s| && r == s[..|r|]
    ensures r == [] || !IsJsSpace(r[|r| - 1])
    ensures forall i :: |r| <= i < |s| ==> IsJsSpace(s[i])
  {
    if s != [] && IsJsSpace(s[|s| - 1]) then TrimRight(s[..|s| - 1]) else s
  }

  /** `trim()`: `s` without its leading and trailing white space. */
  function Trim(s: seq<byte>): (r: seq<byte>)
  {
    TrimRight(TrimLeft(s))
  }

  /** A single character that is not white space trims to itself. */
  lemma TrimSingle(b: byte)
    requires !IsJsSpace(b)
    ensures Trim([b]) == [b]
  {
    assert TrimLeft([b]) == [b];
  }

  /** The trimmed string is the part of `s` after its leading white space. */
  lemma TrimInside(s: seq<byte>)
    ensures var i := |s| - |TrimLeft(s)|;
            i + |Trim(s)| <= |s| && Trim(s) == s[i..i + |Trim(s)|]
  {
    var l := TrimLeft(s);
    var r := TrimRight(l);
    var i := |s| - |l|;
    assert l == s[i..] && r == l[..|r|];
  }

  /** What trimming on the right cut off of the left-trimmed string is white space. */
  lemma TrimTail(s: seq<byte>)
    ensures forall k :: |s| - |TrimLeft(s)| + |Trim(s)| <= k < |s| ==> IsJsSpace(s[k])
  {
    var l := TrimLeft(s);
    var i := |s| - |l|;
    forall k | i + |Trim(s)| <= k < |s|
      ensures IsJsSpace(s[k])
    {
      assert s[k] == l[k - i];
    }
  }

  /** A trimmed string starts and ends with something other than white space. */
  lemma TrimEnds(s: seq<byte>)
    ensures Trim(s) == [] || (!IsJsSpace(Trim(s)[0]) && !IsJsSpace(Trim(s)[|Trim(s)| - 1]))
  {
    var l := TrimLeft(s);
    var r := TrimRight(l);
    if r != [] {
      assert r[0] == l[0];
    }
  }

  /** Trimming keeps a contiguous middle part of `s`, cut only at white space, and the result
      neither starts nor ends with white space. */
  lemma TrimSlice(s: seq<byte>)
    ensures var i := |s| - |TrimLeft(s)|;
            var j := i + |Trim(s)|;
            && 0 <= i <= j <= |s| && Trim(s) == s[i..j]
            && (forall k :: 0 <= k < i ==> IsJsSpace(s[k]))
            && (forall k :: j <= k < |s| ==> IsJsSpace(s[k]))
    ensures Trim(s) == [] || (!IsJsSpace(Trim(s)[0]) && !IsJsSpace(Trim(s)[|Trim(s)| - 1]))
  {
    TrimInside(s);
    TrimTail(s);
    TrimEnds(s);
  }

  /** White space appended to `s` is all removed again by trimming on the right. */
  lemma {:induction false} TrimRightSpaces(s: seq<byte>, t: seq<byte>)
    requires forall i :: 0 <= i < |t| ==> IsJsSpace(t[i])
    ensures TrimRight(s + t) == TrimRight(s)
    decreases |t|
  {
    if t == [] {
      assert s + t == s;
    } else {
      var init := t[..|t| - 1];
      assert (s + t)[..|s + t| - 1] == s + init;
      TrimRightSpaces(s, init);
    }
  }

  /** Trimming on the left a string followed by white space: the white space stays unless
      the string itself is all white space. */
  lemma {:induction false} TrimLeftSpaces(s: seq<byte>, t: seq<byte>)
    requires forall i :: 0 <= i < |t| ==> IsJsSpace(t[i])
    ensures TrimLeft(s + t) == if TrimLeft(s) == [] then [] else TrimLeft(s) + t
    decreases |s|
  {
    if s == [] {
      assert s + t == t;
    } else if IsJsSpace(s[0]) {
      assert (s + t)[1..] == s[1..] + t;
      TrimLeftSpaces(s[1..], t);
    }
  }

  /** A name padded with spaces trims to the name trimmed. */
  lemma TrimPadded(s: seq<byte>, len: nat)
    ensures Trim(PadRight(s, SPACE, len)) == Trim(s)
  {
    var t := PadRight(s, SPACE, len)[|s|..];
    assert PadRight(s, SPACE, len) == s + t;
    TrimLeftSpaces(s, t);
    if TrimLeft(s) != [] {
      TrimRightSpaces(TrimLeft(s), t);
    }
  }

  /** `toUpperCase` on one character code below 0x100 other than 0xDF, as a Unicode code
      point: the ASCII and Latin-1 small letters move down by 0x20, and the micro sign and
      y with diaeresis map outside the byte range. */
  function UpperCode(b: byte): int
  {
    if 'a' as int <= b <= 'z' as int then b - 0x20
    else if 0xE0 <= b <= 0xFE && b != 0xF7 then b - 0x20
    else if b == 0xB5 then 0x39C
    else if b == 0xFF then 0x178
    else b
  }

  /** `toUpperCase` on one character code: the sharp s becomes "SS", every other code one
      code point. */
  function UpperChar(b: byte): seq<int>
  {
    if b == 0xDF then ['S' as int, 'S' as int] else [UpperCode(b)]
  }

  /** `toUpperCase` on a string of character codes below 0x100, as code points. */
  function Upper(s: seq<byte>): (r: seq<int>)
    ensures |r| >= |s|
    ensures (forall i :: 0 <= i < |s| ==> s[i] != 0xDF) ==>
              |r| == |s| && forall i :: 0 <= i < |s| ==> r[i] == UpperCode(s[i])
  {
    if s == [] then [] else UpperChar(s[0]) + Upper(s[1..])
  }

  /** A small letter, ASCII or Latin-1, which upper case moves down by 0x20. */
  predicate SmallLetter(b: byte)
  {
    'a' as int <= b <= 'z' as int || (0xE0 <= b <= 0xFE && b != 0xF7)
  }

  /** Two distinct character codes upper-case alike exactly when one is a small letter and
      the other its capital. */
  lemma SameUpper(b: byte, c: byte)
    requires b != c
    ensures UpperCode(b) == UpperCode(c) <==>
              (SmallLetter(b) && c == b - 0x20) || (SmallLetter(c) && b == c - 0x20)
  {
  }

  /** The character codes of a string literal (all below 256). */
  function Ascii(s: string): (r: seq<byte>)
    requires forall i :: 0 <= i < |s| ==> s[i] as int < 0x100
    ensures |r| == |s|
  {
    seq<byte>(|s|, i requires 0 <= i < |s| => s[i] as int)
  }

  function Zeros(n: nat): (r: seq<byte>)
    ensures |r| == n && forall i :: 0 <= i < n ==> r[i] == 0
  {
    seq<byte>(n, _ => 0)
  }

  function Pow2(n: nat): (r: nat)
    ensures r >= 1
  {
    if n == 0 then 1 else 2 * Pow2(n - 1)
  }

  /** The low `n` bits of the bitwise OR of `a` and `b`, taken from the lowest bit up. */
  function OrBits(a: nat, b: nat, n: nat): (r: nat)
    ensures r < Pow2(n)
  {
    if n == 0 then 0
    else (if a % 2 == 1 || b % 2 == 1 then 1 else 0) + 2 * OrBits(a / 2, b / 2, n - 1)
  }

  /** Bitwise OR of two bytes. */
  function OrByte(a: byte, b: byte): byte
  {
    assert Pow2(8) == 256;
    OrBits(a, b, 8)
  }

  /** Bit `k` of `a`, counted from the lowest. */
  predicate HasBit(a: nat, k: nat)
  {
    if k == 0 then a % 2 == 1 else HasBit(a / 2, k - 1)
  }

  /** Bit `k` of an OR (within the `n` bits kept) is set iff it is set in either operand. */
  lemma {:induction false} OrBitsHasBit(a: nat, b: nat, n: nat, k: nat)
    requires k < n
    ensures HasBit(OrBits(a, b, n), k) <==> HasBit(a, k) || HasBit(b, k)
  {
    var low := if a % 2 == 1 || b % 2 == 1 then 1 else 0;
    var rest := OrBits(a / 2, b / 2, n - 1);
    assert OrBits(a, b, n) == low + 2 * rest;
    LowBit(low, rest);
    if k > 0 {
      OrBitsHasBit(a / 2, b / 2, n - 1, k - 1);
    }
  }

  /** A bit followed by `rest`: the bit is the lowest one and `rest` the number above it. */
  lemma LowBit(low: nat, rest: nat)
    requires low < 2
    ensures (low + 2 * rest) % 2 == low && (low + 2 * rest) / 2 == rest
  {
  }

  /** Bit `k` of the OR of two bytes is set iff it is set in either byte. */
  lemma OrByteHasBit(a: byte, b: byte, k: nat)
    requires k < 8
    ensures HasBit(OrByte(a, b), k) <==> HasBit(a, k) || HasBit(b, k)
  {
    OrBitsHasBit(a, b, 8, k);
  }

  /** Only bit `k` of `2^k` is set. */
  lemma {:induction false} Pow2Bits(k: nat, j: nat)
    ensures HasBit(Pow2(k), j) <==> j == k
  {
    if j > 0 {
      if k == 0 {
        NoBitOfZero(j - 1);
      } else {
        Pow2Bits(k - 1, j - 1);
      }
    }
  }

  /** 0 has no bit set. */
  lemma {:induction false} NoBitOfZero(k: nat)
    ensures !HasBit(0, k)
  {
    if k > 0 {
      NoBitOfZero(k - 1);
    }
  }

  /** The OR of a number below `2^k` and a multiple of `2^k` below `2^n` is their sum: the
      two have no bit in common. */
  lemma {:induction false} OrBitsDisjoint(a: nat, m: nat, k: nat, n: nat)
    requires k <= n && a < Pow2(k) && m < Pow2(n - k)
    ensures OrBits(a, m * Pow2(k), n) == a + m * Pow2(k)
  {
    if k == 0 {
      OrBitsZeroLeft(m, n);
    } else {
      var t := m * Pow2(k - 1);
      assert m * Pow2(k) == 2 * t;
      OrBitsDisjoint(a / 2, m, k - 1, n - 1);
    }
  }

  /** OR with 0 from the left keeps a number that fits in `n` bits. */
  lemma {:induction false} OrBitsZeroLeft(m: nat, n: nat)
    requires m < Pow2(n)
    ensures OrBits(0, m, n) == m
  {
    if n > 0 {
      OrBitsZeroLeft(m / 2, n - 1);
    }
  }

  /** OR with 0 leaves a byte unchanged. */
  lemma OrByteZero(a: byte)
    ensures OrByte(a, 0) == a
  {
    assert Pow2(8) == 256 && Pow2(0) == 1;
    OrBitsDisjoint(a, 0, 8, 8);
  }

  /** ORing `e << 5` into a byte whose three high bits are clear sets them to `e` and keeps
      the five low bits. */
  lemma OrByteHigh(a: byte, e: nat)
    requires a < 32 && e < 8
    ensures OrByte(a, e * 32) == a + e * 32
  {
    assert Pow2(5) == 32 && Pow2(3) == 8 && Pow2(8) == 256;
    OrBitsDisjoint(a, e, 5, 8);
  }
}
