/** Bytes and the big-endian fixed-width integers that java.nio.ByteBuffer reads and writes
    (ByteBuffer's default byte order), plus the 24-bit helpers readU24Int and write24Int. */
module Bytes {

  /** One byte, as the unsigned value of its eight bits. */
  type byte = x: int | 0 <= x < 0x100


  /** A Java int. */
  type i32 = x: int | -0x8000_0000 <= x < 0x8000_0000

  /** An unsigned 32-bit value, as CRC32.getValue returns. */
  type u32 = x: int | 0 <= x < 0x1_0000_0000

  /** The low `width` bytes of v, most significant first. */
  function BigEndian(v: nat, width: nat): (r: seq<byte>)
    ensures |r| == width
  {
    if width == 0 then [] else BigEndian(v / 0x100, width - 1) + [v % 0x100]
  }

  /** putShort((short) v): the low 16 bits of v, most significant byte first. */
  function U16(v: int): (r: seq<byte>)
    ensures |r| == 2
  {
    BigEndian(v % 0x1_0000, 2)
  }

  /** write24Int(buffer, v): the low 24 bits of v, most significant byte first. */
  function U24(v: int): (r: seq<byte>)
    ensures |r| == 3
  {
    BigEndian(v % 0x100_0000, 3)
  }

  /** putInt(v): the 32 bits of v in two's complement, most significant byte first. */
  function I32(v: int): (r: seq<byte>)
    ensures |r| == 4
  {
    BigEndian(v % 0x1_0000_0000, 4)
  }

  /** getShort() & 0xFFFF at position p. */
  function ReadU16(s: seq<byte>, p: nat): (r: nat)
    requires p + 2 <= |s|
    ensures r < 0x1_0000
  {
    (s[p] as int) * 0x100 + (s[p + 1] as int)
  }

  /** readU24Int at position p. */
  function ReadU24(s: seq<byte>, p: nat): (r: nat)
    requires p + 3 <= |s|
    ensures r < 0x100_0000
  {
    (s[p] as int) * 0x1_0000 + (s[p + 1] as int) * 0x100 + (s[p + 2] as int)
  }

  /** getInt() at position p: the four bytes read as a two's-complement Java int. */
  function ReadI32(s: seq<byte>, p: nat): (r: i32)
    requires p + 4 <= |s|
  {
    var u := (s[p] as int) * 0x100_0000 + (s[p + 1] as int) * 0x1_0000 + (s[p + 2] as int) * 0x100 + (s[p + 3] as int);
    if u < 0x8000_0000 then u else u - 0x1_0000_0000
  }

  /** A zero-filled run, as ByteBuffer.allocate leaves the bytes nobody writes. */
  function Zeros(n: nat): (r: seq<byte>)
    ensures |r| == n && forall i :: 0 <= i < n ==> r[i] == 0
  {
    seq(n, _ => 0)
  }

  /** The two bytes of BigEndian(w, 2) read back as w, when w fits. */
  lemma BigEndian2(w: nat)
    requires w < 0x1_0000
    ensures BigEndian(w, 2) == [w / 0x100, w % 0x100]
  {
    var q := w / 0x100;
    assert BigEndian(q, 1) == [q % 0x100] by {
      assert BigEndian(q / 0x100, 0) == [];
    }
  }

  lemma BigEndian3(w: nat)
    requires w < 0x100_0000
    ensures var q := w / 0x100; BigEndian(w, 3) == [q / 0x100, q % 0x100, w % 0x100]
  {
    BigEndian2(w / 0x100);
  }

  lemma BigEndian4(w: nat)
    requires w < 0x1_0000_0000
    ensures var q1 := w / 0x100; var q2 := q1 / 0x100;
      BigEndian(w, 4) == [q2 / 0x100, q2 % 0x100, q1 % 0x100, w % 0x100]
  {
    BigEndian3(w / 0x100);
  }

  lemma U16RoundTrip(v: int, pre: seq<byte>, post: seq<byte>)
    ensures ReadU16(pre + U16(v) + post, |pre|) == v % 0x1_0000
  {
    var w := v % 0x1_0000;
    BigEndian2(w);
    var s := pre + U16(v) + post;
    assert s[|pre|] == w / 0x100 && s[|pre| + 1] == w % 0x100;
  }

  lemma U24RoundTrip(v: int, pre: seq<byte>, post: seq<byte>)
    ensures ReadU24(pre + U24(v) + post, |pre|) == v % 0x100_0000
  {
    var w := v % 0x100_0000;
    var q := w / 0x100;
    BigEndian3(w);
    var s := pre + U24(v) + post;
    var p := |pre|;
    assert s[p] == q / 0x100 && s[p + 1] == q % 0x100 && s[p + 2] == w % 0x100;
  }

  lemma I32RoundTrip(v: i32, pre: seq<byte>, post: seq<byte>)
    ensures ReadI32(pre + I32(v) + post, |pre|) == v
  {
    var w := v % 0x1_0000_0000;
    var q1 := w / 0x100;
    var q2 := q1 / 0x100;
    BigEndian4(w);
    var s := pre + I32(v) + post;
    var p := |pre|;
    assert s[p] == q2 / 0x100 && s[p + 1] == q2 % 0x100 && s[p + 2] == q1 % 0x100 && s[p + 3] == w % 0x100;
    assert (q2 / 0x100) * 0x100_0000 + (q2 % 0x100) * 0x1_0000 + (q1 % 0x100) * 0x100 + w % 0x100 == w;
  }

  /** Reading the 24-bit field at q back, where its three bytes were written. */
  lemma ReadU24At(b: seq<byte>, q: nat, v: int)
    requires q + 3 <= |b| && b[q .. q + 3] == U24(v)
    ensures ReadU24(b, q) == v % 0x100_0000
  {
    var w := v % 0x100_0000;
    BigEndian3(w);
    assert b[q] == b[q .. q + 3][0] && b[q + 1] == b[q .. q + 3][1] && b[q + 2] == b[q .. q + 3][2];
  }

  /** Reading the int at q back, where its four bytes were written. */
  lemma ReadI32At(b: seq<byte>, q: nat, v: i32)
    requires q + 4 <= |b| && b[q .. q + 4] == I32(v)
    ensures ReadI32(b, q) == v
  {
    var w := v % 0x1_0000_0000;
    var q1 := w / 0x100;
    var q2 := q1 / 0x100;
    BigEndian4(w);
    var t := b[q .. q + 4];
    assert b[q] == t[0] && b[q + 1] == t[1] && b[q + 2] == t[2] && b[q + 3] == t[3];
    assert (q2 / 0x100) * 0x100_0000 + (q2 % 0x100) * 0x1_0000 + (q1 % 0x100) * 0x100 + w % 0x100 == w;
  }

  /** The middle part of a concatenation, sliced back out. */
  lemma Middle(a: seq<byte>, x: seq<byte>, c: seq<byte>)
    ensures (a + x + c)[|a| .. |a| + |x|] == x
  {
  }
}
