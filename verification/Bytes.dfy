/**
 Byte strings and the fixed-width integers that the log and the wire copy with `memcpy`.
 Integers are laid out little-endian. C++ strings are byte strings here.
 */
module Bytes {
  type byte = x: int | 0 <= x < 256
  type bytes = seq<byte>

  const TWO_32: int := 0x1_0000_0000
  const TWO_64: int := 0x1_0000_0000_0000_0000

  type uint32 = x: int | 0 <= x < TWO_32
  type uint64 = x: int | 0 <= x < TWO_64

  datatype Option<+T> = None | Some(value: T)

  /** `static_cast<uint32_t>(n)`. */
  function ToU32(n: nat): uint32 {
    if n < TWO_32 then n else n % TWO_32
  }

  function Min(a: int, b: int): int {
    if a <= b then a else b
  }

  function Max(a: int, b: int): int {
    if a >= b then a else b
  }

  lemma Associative<T>(a: seq<T>, b: seq<T>, c: seq<T>)
    ensures (a + b) + c == a + (b + c)
  {
  }

  lemma ConcatParts<T>(a: seq<T>, b: seq<T>, c: seq<T>)
    ensures (a + b + c)[..|a|] == a
    ensures (a + b + c)[|a|..|a| + |b|] == b
    ensures (a + b + c)[|a| + |b|..] == c
  {
  }

  lemma CutConcat<T>(a: seq<T>, b: seq<T>, cut: nat)
    requires cut <= |a| + |b|
    ensures (a + b)[..cut] == if cut < |a| then a[..cut] else a + b[..cut - |a|]
  {
  }

  lemma SplitAfter<T>(s: seq<T>, i: nat, n: nat)
    requires i + n <= |s|
    ensures s[..i + n] == s[..i] + s[i..][..n]
  {
  }

  lemma DropTwice<T>(s: seq<T>, i: nat, n: nat)
    requires i + n <= |s|
    ensures s[i..][n..] == s[i + n..]
  {
  }

  lemma PartOfPart<T>(s: seq<T>, a: nat, b: nat, i: nat, j: nat)
    requires a <= b <= |s| && i <= j <= b - a
    ensures s[a..b][i..j] == s[a + i..a + j]
  {
    forall k | i <= k < j
      ensures s[a..b][k] == s[a + k]
    {
    }
  }

  lemma PartOfFront<T>(front: seq<T>, rest: seq<T>, i: nat, j: nat)
    requires i <= j <= |front|
    ensures (front + rest)[i..j] == front[i..j]
  {
  }

  lemma WithoutLast<T>(a: seq<T>, b: seq<T>)
    requires b != []
    ensures (a + b)[..|a + b| - 1] == a + b[..|b| - 1] && (a + b)[|a + b| - 1] == b[|b| - 1]
  {
  }

  lemma Adjacent<T>(s: seq<T>, i: nat, j: nat, k: nat)
    requires i <= j <= k <= |s|
    ensures s[i..j] + s[j..k] == s[i..k]
  {
  }

  /** The bytes of a text literal. */
  function Ascii(s: string): (bs: bytes)
    ensures |bs| == |s|
  {
    seq(|s|, i requires 0 <= i < |s| => s[i] as int % 256)
  }

  function Pow256(width: nat): (p: nat)
    ensures p >= 1
  {
    if width == 0 then 1 else 256 * Pow256(width - 1)
  }

  lemma Pow256Widths()
    ensures Pow256(3) == 0x100_0000
    ensures Pow256(4) == TWO_32
    ensures Pow256(8) == TWO_64
  {
    assert Pow256(4) == 256 * 256 * 256 * 256;
    assert Pow256(8) == 256 * 256 * 256 * 256 * Pow256(4);
  }

  /** The low `width` bytes of `n`, least significant first. */
  function LE(n: nat, width: nat): (bs: bytes)
    ensures |bs| == width
  {
    if width == 0 then [] else [n % 256] + LE(n / 256, width - 1)
  }

  function FromLE(bs: bytes): (n: nat)
    ensures n < Pow256(|bs|)
  {
    if bs == [] then 0 else bs[0] + 256 * FromLE(bs[1..])
  }

  lemma {:induction false} FromLEOfLE(n: nat, width: nat)
    requires n < Pow256(width)
    ensures FromLE(LE(n, width)) == n
  {
    if width > 0 {
      FromLEOfLE(n / 256, width - 1);
      assert LE(n, width)[1..] == LE(n / 256, width - 1);
    }
  }

  lemma {:induction false} LEPrefix(n: nat, width: nat)
    ensures LE(n, width + 1)[..width] == LE(n, width)
  {
    if width > 0 {
      LEPrefix(n / 256, width - 1);
    }
  }

  lemma {:induction false} LEOfFromLE(bs: bytes)
    ensures LE(FromLE(bs), |bs|) == bs
  {
    if bs != [] {
      var low: int, high: int := bs[0], FromLE(bs[1..]);
      LEOfFromLE(bs[1..]);
      assert (low + 256 * high) % 256 == low && (low + 256 * high) / 256 == high;
      assert [bs[0]] + bs[1..] == bs;
    }
  }

  /** The 32-bit integer stored at offset `i`. */
  function U32At(data: bytes, i: nat): uint32
    requires i + 4 <= |data|
  {
    Pow256Widths();
    FromLE(data[i..i + 4])
  }

  /** The 64-bit integer stored at offset `i`. */
  function U64At(data: bytes, i: nat): uint64
    requires i + 8 <= |data|
  {
    Pow256Widths();
    FromLE(data[i..i + 8])
  }

  /** A 32-bit integer written at offset `i` is read back from offset `i`. */
  lemma U32AtOfLE(data: bytes, i: nat, n: uint32)
    requires i + 4 <= |data| && data[i..i + 4] == LE(n, 4)
    ensures U32At(data, i) == n
  {
    Pow256Widths();
    FromLEOfLE(n, 4);
  }

  lemma U64AtOfLE(data: bytes, i: nat, n: uint64)
    requires i + 8 <= |data| && data[i..i + 8] == LE(n, 8)
    ensures U64At(data, i) == n
  {
    Pow256Widths();
    FromLEOfLE(n, 8);
  }

  /** A body behind its length, as the log and the wire frame it; the length field is cast to 32 bits. */
  function FrameOf(body: bytes): (frame: bytes)
    ensures |frame| == 4 + |body|
  {
    LE(ToU32(|body|), 4) + body
  }

  /** A frame taken apart again. */
  lemma FrameParts(body: bytes, rest: bytes)
    ensures var file := FrameOf(body) + rest;
            && U32At(file, 0) == ToU32(|body|)
            && file[4..4 + |body|] == body
            && file[4 + |body|..] == rest
  {
    ConcatParts(LE(ToU32(|body|), 4), body, rest);
    U32AtOfLE(FrameOf(body) + rest, 0, ToU32(|body|));
  }

  /** The cast keeps the low 32 bits. */
  lemma ToU32Wraps(n: nat)
    ensures ToU32(n + 0x1_0000_0000) == ToU32(n)
    ensures n < 0x1_0000_0000 ==> ToU32(n) == n
  {
  }

  /** A 32-bit integer lies in the data low byte first. */
  lemma U32AtIsLowByteFirst(data: bytes, i: nat)
    requires i + 4 <= |data|
    ensures U32At(data, i)
         == data[i] as int + 0x100 * (data[i + 1] as int) + 0x1_0000 * (data[i + 2] as int) + 0x100_0000 * (data[i + 3] as int)
  {
    FourBytes(data[i], data[i + 1], data[i + 2], data[i + 3]);
    assert data[i..i + 4] == [data[i], data[i + 1], data[i + 2], data[i + 3]];
  }

  lemma FourBytes(b0: byte, b1: byte, b2: byte, b3: byte)
    ensures FromLE([b0, b1, b2, b3]) == b0 as int + 0x100 * (b1 as int) + 0x1_0000 * (b2 as int) + 0x100_0000 * (b3 as int)
  {
    FirstByte(b0, [b1, b2, b3]);
    FirstByte(b1, [b2, b3]);
    FirstByte(b2, [b3]);
    FirstByte(b3, []);
    assert [b0] + [b1, b2, b3] == [b0, b1, b2, b3] && [b1] + [b2, b3] == [b1, b2, b3] && [b2] + [b3] == [b2, b3];
  }

  lemma FirstByte(low: byte, high: bytes)
    ensures FromLE([low] + high) == low as int + 256 * FromLE(high)
  {
    assert ([low] + high)[1..] == high;
  }
}
