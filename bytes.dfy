/** Option, used where the source has a nullable pointer or an optional result. */
module Wrappers {
  datatype Option<+T> = None | Some(value: T)
}

/** Bytes, fixed-width integers, little-endian fields and C strings. */
module Bytes {

  type byte = b: int | 0 <= b < 0x100
  type uint16 = x: int | 0 <= x < 0x1_0000
  type uint32 = x: int | 0 <= x < 0x1_0000_0000

  /** The CRC32 streaming primitive (crc32.h): the value crc32_end returns for all
      bytes fed since crc32_start. Its polynomial arithmetic is not part of this model,
      so every operation that checks a CRC takes it as a parameter. */
  type Crc32 = seq<byte> -> uint32

  /** The 16-bit value stored little-endian at s[i], s[i+1]. */
  function LeU16(s: seq<byte>, i: nat): uint16
    requires i + 2 <= |s|
  {
    (s[i] as int) + 0x100 * (s[i + 1] as int)
  }

  /** The 32-bit value stored little-endian at s[i..i+4] (a memcpy into a uint32_t). */
  function LeU32(s: seq<byte>, i: nat): uint32
    requires i + 4 <= |s|
  {
    (s[i] as int) + 0x100 * (s[i + 1] as int) + 0x1_0000 * (s[i + 2] as int) + 0x100_0000 * (s[i + 3] as int)
  }

  /** The four bytes a memcpy of a uint32_t puts in memory on a little-endian host. */
  function EncodeLeU32(x: uint32): (s: seq<byte>)
    ensures |s| == 4 && LeU32(s, 0) == x
  {
    var b0, r0 := x % 0x100, x / 0x100;
    var b1, r1 := r0 % 0x100, r0 / 0x100;
    var b2, b3 := r1 % 0x100, r1 / 0x100;
    assert r0 == b1 + 0x100 * r1;
    assert x == b0 + 0x100 * b1 + 0x1_0000 * b2 + 0x100_0000 * b3;
    [b0, b1, b2, b3]
  }

  /** Reading a stored field back and storing it again gives the same bytes. */
  lemma EncodeOfDecode(s: seq<byte>, i: nat)
    requires i + 4 <= |s|
    ensures EncodeLeU32(LeU32(s, i)) == s[i..i + 4]
  {
    var x := LeU32(s, i);
    var e := EncodeLeU32(x);
    var r0 := x / 0x100;
    assert x == (s[i] as int) + 0x100 * ((s[i + 1] as int) + 0x100 * (s[i + 2] as int) + 0x1_0000 * (s[i + 3] as int));
    assert x % 0x100 == (s[i] as int) && r0 == (s[i + 1] as int) + 0x100 * (s[i + 2] as int) + 0x1_0000 * (s[i + 3] as int);
    var r1 := r0 / 0x100;
    assert r0 % 0x100 == (s[i + 1] as int) && r1 == (s[i + 2] as int) + 0x100 * (s[i + 3] as int);
    assert r1 % 0x100 == s[i + 2] && r1 / 0x100 == s[i + 3];
    assert e == [s[i], s[i + 1], s[i + 2], s[i + 3]];
  }

  /** The C string stored at the start of s: its bytes up to the first NUL, or all of s
      when it holds none (the model never reads past the bytes it is given). */
  function UntilNul(s: seq<byte>): (r: seq<byte>)
    ensures |r| <= |s| && r == s[..|r|]
    ensures forall i :: 0 <= i < |r| ==> r[i] != 0
    ensures |r| < |s| ==> s[|r|] == 0
  {
    if s == [] || s[0] == 0 then [] else [s[0]] + UntilNul(s[1..])
  }

  /** A string without NUL followed by its terminator reads back as itself. */
  lemma {:induction false} UntilNulTerminated(k: seq<byte>)
    requires forall i :: 0 <= i < |k| ==> k[i] != 0
    ensures UntilNul(k + [0]) == k
  {
    if k != [] {
      assert (k + [0])[1..] == k[1..] + [0];
      UntilNulTerminated(k[1..]);
    }
  }

  /** strlen: the index of the first NUL in s, or |s|. */
  function CStrLen(s: seq<byte>): nat
  {
    |UntilNul(s)|
  }
}
