/**
 * Big-endian readers of native_src/byte_codec.h.
 *
 * The C++ readers load 2, 4 or 8 bytes through an unaligned pointer, which
 * yields the bytes in the host's order, and then pass the value through
 * `big_to_native`, which is the identity on a big-endian host and a byte swap
 * on a little-endian one.  The model keeps that split: `UnalignedRead` is the
 * host load, `BigToNative` the conversion, and the host byte order is a
 * parameter.  The readers' contracts show that the result is the big-endian
 * value of the bytes whatever the host order is.
 */
module ByteCodec {

  /** One byte of the buffer, read as unsigned. */
  type byte = b: int | 0 <= b < 256

  /** Byte order of the host the code is compiled for (`__BYTE_ORDER`). */
  datatype ByteOrder = BigEndian | LittleEndian

  function Pow256(n: nat): (r: nat)
    ensures r > 0
  {
    if n == 0 then 1 else 256 * Pow256(n - 1)
  }

  /** The unsigned value of `s`, most significant byte first. */
  function BigValue(s: seq<byte>): nat
  {
    if s == [] then 0 else BigValue(s[..|s| - 1]) * 256 + s[|s| - 1]
  }

  /** The unsigned value of `s`, least significant byte first. */
  function LittleValue(s: seq<byte>): nat
  {
    if s == [] then 0 else s[0] + 256 * LittleValue(s[1..])
  }

  /** The `width` low-order bytes of `x`, least significant first. */
  function LittleBytes(x: nat, width: nat): (r: seq<byte>)
    ensures |r| == width
  {
    if width == 0 then [] else [x % 256] + LittleBytes(x / 256, width - 1)
  }

  function Reverse(s: seq<byte>): (r: seq<byte>)
    ensures |r| == |s|
  {
    if s == [] then [] else [s[|s| - 1]] + Reverse(s[..|s| - 1])
  }

  lemma {:induction false} BigValueBound(s: seq<byte>)
    ensures BigValue(s) < Pow256(|s|)
  {
    if s != [] {
      BigValueBound(s[..|s| - 1]);
    }
  }

  /** Reading the bytes in the opposite order is reading the reversed bytes. */
  lemma {:induction false} BigValueIsLittleValueOfReverse(s: seq<byte>)
    ensures BigValue(s) == LittleValue(Reverse(s))
  {
    if s != [] {
      var r := Reverse(s);
      assert r[0] == s[|s| - 1] && r[1..] == Reverse(s[..|s| - 1]);
      BigValueIsLittleValueOfReverse(s[..|s| - 1]);
    }
  }

  lemma {:induction false} ReverseAt(s: seq<byte>, k: nat)
    requires k < |s|
    ensures Reverse(s)[k] == s[|s| - 1 - k]
  {
    if k > 0 {
      ReverseAt(s[..|s| - 1], k - 1);
    }
  }

  lemma ReverseReverse(s: seq<byte>)
    ensures Reverse(Reverse(s)) == s
  {
    forall k | 0 <= k < |s|
      ensures Reverse(Reverse(s))[k] == s[k]
    {
      ReverseAt(Reverse(s), k);
      ReverseAt(s, |s| - 1 - k);
    }
  }

  /** Splitting a value into its little-endian bytes undoes `LittleValue`. */
  lemma {:induction false} LittleBytesOfLittleValue(s: seq<byte>)
    ensures LittleBytes(LittleValue(s), |s|) == s
  {
    if s != [] {
      var v := LittleValue(s);
      assert v % 256 == s[0] && v / 256 == LittleValue(s[1..]);
      LittleBytesOfLittleValue(s[1..]);
    }
  }

  /** `LittleValue` undoes the split when the value fits in `width` bytes. */
  lemma {:induction false} LittleValueOfLittleBytes(x: nat, width: nat)
    requires x < Pow256(width)
    ensures LittleValue(LittleBytes(x, width)) == x
  {
    if width > 0 {
      LittleValueOfLittleBytes(x / 256, width - 1);
    }
  }

  lemma LittleValueBound(s: seq<byte>)
    ensures LittleValue(s) < Pow256(|s|)
  {
    ReverseReverse(s);
    BigValueIsLittleValueOfReverse(Reverse(s));
    BigValueBound(Reverse(s));
  }

  /** `__builtin_bswap16/32/64`: the byte of `x` at significance k moves to significance width-1-k. */
  function ByteSwap(x: nat, width: nat): (r: nat)
    ensures r < Pow256(width)
  {
    BigValueBound(LittleBytes(x, width));
    BigValue(LittleBytes(x, width))
  }

  /** Swapping twice gives back every value that fits in `width` bytes. */
  lemma ByteSwapInvolutive(x: nat, width: nat)
    requires x < Pow256(width)
    ensures ByteSwap(ByteSwap(x, width), width) == x
  {
    var l := LittleBytes(x, width);
    BigValueIsLittleValueOfReverse(l);
    LittleBytesOfLittleValue(Reverse(l));
    BigValueIsLittleValueOfReverse(Reverse(l));
    ReverseReverse(l);
    LittleValueOfLittleBytes(x, width);
  }

  /** `big_to_native`: identity on a big-endian host, byte swap on a little-endian one. */
  function BigToNative(x: nat, width: nat, host: ByteOrder): (r: nat)
    requires x < Pow256(width)
    ensures r < Pow256(width)
    ensures host == BigEndian ==> r == x
    ensures host == LittleEndian ==> ByteSwap(r, width) == x
  {
    if host == BigEndian then x
    else
      ByteSwapInvolutive(x, width);
      ByteSwap(x, width)
  }

  /** `unaligned_read`: the host's native load of `width` bytes at `i`. */
  function UnalignedRead(buf: seq<byte>, i: nat, width: nat, host: ByteOrder): (r: nat)
    requires i + width <= |buf|
    ensures r < Pow256(width)
  {
    var s := buf[i..i + width];
    BigValueBound(s);
    LittleValueBound(s);
    if host == BigEndian then BigValue(s) else LittleValue(s)
  }

  /** Whatever the host order, converting the native load gives the big-endian value of the bytes. */
  lemma BigToNativeOfLoad(buf: seq<byte>, i: nat, width: nat, host: ByteOrder)
    requires i + width <= |buf|
    ensures BigToNative(UnalignedRead(buf, i, width, host), width, host) == BigValue(buf[i..i + width])
  {
    if host == LittleEndian {
      LittleBytesOfLittleValue(buf[i..i + width]);
    }
  }

  lemma {:induction false} BigValueAppend(a: seq<byte>, b: seq<byte>)
    ensures BigValue(a + b) == BigValue(a) * Pow256(|b|) + BigValue(b)
  {
    if b == [] {
      assert a + b == a;
    } else {
      var b' := b[..|b| - 1];
      assert (a + b)[..|a + b| - 1] == a + b';
      BigValueAppend(a, b');
      calc {
        BigValue(a + b);
        BigValue(a + b') * 256 + b[|b| - 1];
        (BigValue(a) * Pow256(|b'|) + BigValue(b')) * 256 + b[|b| - 1];
        BigValue(a) * (Pow256(|b'|) * 256) + (BigValue(b') * 256 + b[|b| - 1]);
        BigValue(a) * Pow256(|b|) + BigValue(b);
      }
    }
  }

  lemma BigValue2(s: seq<byte>)
    requires |s| == 2
    ensures BigValue(s) == s[0] as int * 0x100 + s[1]
  {
    var init := s[..1];
    assert init[..0] == [];
    assert BigValue(init) == s[0];
  }

  lemma BigValue4(s: seq<byte>)
    requires |s| == 4
    ensures BigValue(s) == s[0] as int * 0x100_0000 + s[1] as int * 0x1_0000 + s[2] as int * 0x100 + s[3]
  {
    BigValueAppend(s[..2], s[2..]);
    assert s == s[..2] + s[2..];
    BigValue2(s[..2]);
    BigValue2(s[2..]);
  }

  /** The two bytes at `i` as a big-endian number. */
  function BigEndianU16(buf: seq<byte>, i: nat): (r: nat)
    requires i + 2 <= |buf|
    ensures r < 0x1_0000
  {
    buf[i] as int * 0x100 + buf[i + 1]
  }

  /** The four bytes at `i` as a big-endian number. */
  function BigEndianU32(buf: seq<byte>, i: nat): (r: nat)
    requires i + 4 <= |buf|
    ensures r < 0x1_0000_0000
  {
    buf[i] as int * 0x100_0000 + buf[i + 1] as int * 0x1_0000 + buf[i + 2] as int * 0x100 + buf[i + 3]
  }

  /** The eight bytes at `i` as a big-endian number: the high four bytes, then the low four. */
  function BigEndianU64(buf: seq<byte>, i: nat): (r: nat)
    requires i + 8 <= |buf|
    ensures r < 0x1_0000_0000_0000_0000
  {
    BigEndianU32(buf, i) * 0x1_0000_0000 + BigEndianU32(buf, i + 4)
  }

  /** `read_big_u16`: on either host byte order, the two bytes at `i`, most significant first. */
  function ReadBigU16(buf: seq<byte>, i: nat, host: ByteOrder): (r: nat)
    requires i + 2 <= |buf|
    ensures r == BigEndianU16(buf, i)
  {
    BigToNativeOfLoad(buf, i, 2, host);
    BigValue2(buf[i..i + 2]);
    BigToNative(UnalignedRead(buf, i, 2, host), 2, host)
  }

  /** `read_big_u32`: on either host byte order, the four bytes at `i`, most significant first. */
  function ReadBigU32(buf: seq<byte>, i: nat, host: ByteOrder): (r: nat)
    requires i + 4 <= |buf|
    ensures r == BigEndianU32(buf, i)
  {
    BigToNativeOfLoad(buf, i, 4, host);
    BigValue4(buf[i..i + 4]);
    BigToNative(UnalignedRead(buf, i, 4, host), 4, host)
  }

  /** `read_big_u64`: on either host byte order, the eight bytes at `i`, most significant first. */
  function ReadBigU64(buf: seq<byte>, i: nat, host: ByteOrder): (r: nat)
    requires i + 8 <= |buf|
    ensures r == BigEndianU64(buf, i)
  {
    BigToNativeOfLoad(buf, i, 8, host);
    var s := buf[i..i + 8];
    assert s == s[..4] + s[4..];
    BigValueAppend(s[..4], s[4..]);
    BigValue4(s[..4]);
    BigValue4(s[4..]);
    BigToNative(UnalignedRead(buf, i, 8, host), 8, host)
  }

  /**
   * `read_big_float64`: the IEEE-754 double whose bit pattern is the eight
   * bytes at `i`.  The model keeps the bit pattern, not the floating-point value.
   */
  function ReadBigFloat64(buf: seq<byte>, i: nat, host: ByteOrder): (bits: nat)
    requires i + 8 <= |buf|
    ensures bits == BigEndianU64(buf, i)
  {
    ReadBigU64(buf, i, host)
  }
}
