/** Bytes and the fixed-width integers the wire formats are made of. */
module Bytes {

  type byte = x: int | 0 <= x < 0x100
  type u16 = x: int | 0 <= x < 0x1_0000
  type u32 = x: int | 0 <= x < 0x1_0000_0000

  /** The number of values an integer of the given byte width can hold. */
  function Modulus(width: int): (m: int)
    ensures m > 0
  {
    if width == 1 then 0x100 else if width == 2 then 0x1_0000 else 0x1_0000_0000
  }

  /** Big-endian encoding in 1, 2 or 4 bytes (`htons`, `htonl` and a copy). */
  function BE(v: int, width: int): (s: seq<byte>)
    requires width == 1 || width == 2 || width == 4
    requires 0 <= v < Modulus(width)
    ensures |s| == width
  {
    if width == 1 then [v]
    else if width == 2 then [v / 0x100, v % 0x100]
    else [v / 0x100_0000, v / 0x1_0000 % 0x100, v / 0x100 % 0x100, v % 0x100]
  }

  /** The value of 1, 2 or 4 big-endian bytes. */
  function FromBE(s: seq<byte>): (v: int)
    requires |s| == 1 || |s| == 2 || |s| == 4
    ensures 0 <= v < Modulus(|s|)
  {
    if |s| == 1 then s[0]
    else if |s| == 2 then (s[0] as int) * 0x100 + s[1]
    else (s[0] as int) * 0x100_0000 + (s[1] as int) * 0x1_0000 + (s[2] as int) * 0x100 + s[3]
  }

  lemma FromBEOfBE(v: int, width: int)
    requires width == 1 || width == 2 || width == 4
    requires 0 <= v < Modulus(width)
    ensures FromBE(BE(v, width)) == v
  {
    if width == 4 {
      assert v / 0x1_0000 == v / 0x100 / 0x100;
      assert v / 0x100_0000 == v / 0x100 / 0x100 / 0x100;
    }
  }

  /** The number some digits to base 256 stand for, the first one being the most significant. */
  function MostSignificantFirst(s: seq<byte>): (v: int) {
    if s == [] then 0 else 256 * MostSignificantFirst(s[..|s| - 1]) + s[|s| - 1] as int
  }

  /** The number they stand for if the first one is the least significant. */
  function LeastSignificantFirst(s: seq<byte>): (v: int) {
    if s == [] then 0 else s[0] as int + 256 * LeastSignificantFirst(s[1..])
  }

  /** Network byte order. */
  lemma BEIsMostSignificantFirst(v: int, width: int)
    requires width == 1 || width == 2 || width == 4
    requires 0 <= v < Modulus(width)
    ensures MostSignificantFirst(BE(v, width)) == v
  {
    FromBEOfBE(v, width);
    var s := BE(v, width);
    Digit([], s[0]);
    assert [] + [s[0]] == s[..1];
    if width >= 2 {
      Digit(s[..1], s[1]);
      assert s[..1] + [s[1]] == s[..2];
    }
    if width == 4 {
      Digit(s[..2], s[2]);
      assert s[..2] + [s[2]] == s[..3];
      Digit(s[..3], s[3]);
      assert s[..3] + [s[3]] == s[..4];
    }
    assert s[..width] == s;
  }

  lemma Digit(s: seq<byte>, b: byte)
    ensures MostSignificantFirst(s + [b]) == 256 * MostSignificantFirst(s) + b as int
  {
    assert (s + [b])[..|s|] == s;
  }

  lemma LE32IsLeastSignificantFirst(v: u32)
    ensures LeastSignificantFirst(LE32(v)) == v
  {
    var s := LE32(v);
    LE16IsLeastSignificantFirst(v % 0x1_0000);
    LE16IsLeastSignificantFirst(v / 0x1_0000);
    assert s[2..] == LE16(v / 0x1_0000) && s[1..] == [s[1]] + s[2..];
  }

  lemma LE16IsLeastSignificantFirst(v: u16)
    ensures LeastSignificantFirst(LE16(v)) == v
  {
    var s := LE16(v);
    assert s[1..] == [s[1]] && [s[1]][1..] == [];
    assert LeastSignificantFirst([s[1]]) == s[1] as int;
  }

  lemma DigitsOf(q: int, r: byte)
    ensures (q * 0x100 + r) / 0x100 == q && (q * 0x100 + r) % 0x100 == r
  {
  }

  lemma BEOfFromBE(s: seq<byte>)
    requires |s| == 1 || |s| == 2 || |s| == 4
    ensures BE(FromBE(s), |s|) == s
  {
    if |s| == 4 {
      var a: int, b: int, c: int := s[0], s[1], s[2];
      var v := FromBE(s);
      DigitsOf(a, s[1]);
      DigitsOf(a * 0x100 + b, s[2]);
      DigitsOf((a * 0x100 + b) * 0x100 + c, s[3]);
      assert v == ((a * 0x100 + b) * 0x100 + c) * 0x100 + s[3];
      assert v / 0x1_0000 == v / 0x100 / 0x100;
      assert v / 0x100_0000 == v / 0x100 / 0x100 / 0x100;
    }
  }

  /** Little-endian encoding, the byte order of the native message header. */
  function LE16(v: u16): (s: seq<byte>)
    ensures |s| == 2
  {
    [v % 0x100, v / 0x100]
  }

  function FromLE16(s: seq<byte>): (v: u16)
    requires |s| == 2
  {
    (s[0] as int) + (s[1] as int) * 0x100
  }

  function LE32(v: u32): (s: seq<byte>)
    ensures |s| == 4
  {
    LE16(v % 0x1_0000) + LE16(v / 0x1_0000)
  }

  function FromLE32(s: seq<byte>): (v: u32)
    requires |s| == 4
  {
    (FromLE16(s[..2]) as int) + (FromLE16(s[2..]) as int) * 0x1_0000
  }

  lemma FromLE16OfLE16(v: u16)
    ensures FromLE16(LE16(v)) == v
  {
  }

  lemma FromLE32OfLE32(v: u32)
    ensures FromLE32(LE32(v)) == v
  {
    assert LE32(v)[..2] == LE16(v % 0x1_0000);
    assert LE32(v)[2..] == LE16(v / 0x1_0000);
  }

  /** A buffer with the bytes from `pos` on overwritten by `s`. */
  function Put(b: seq<byte>, pos: nat, s: seq<byte>): (r: seq<byte>)
    requires pos + |s| <= |b|
    ensures |r| == |b|
    ensures r[pos..pos + |s|] == s
    ensures r[..pos] == b[..pos] && r[pos + |s|..] == b[pos + |s|..]
  {
    b[..pos] + s + b[pos + |s|..]
  }

  /** Two writes one after the other are one longer write. */
  lemma PutPut(b: seq<byte>, pos: nat, s: seq<byte>, t: seq<byte>)
    requires pos + |s| + |t| <= |b|
    ensures Put(Put(b, pos, s), pos + |s|, t) == Put(b, pos, s + t)
  {
    var m := Put(b, pos, s);
    assert m[..pos + |s|] == b[..pos] + s;
    assert m[pos + |s| + |t|..] == b[pos + |s| + |t|..];
  }

  lemma PutNothing(b: seq<byte>, pos: nat)
    requires pos <= |b|
    ensures Put(b, pos, []) == b
  {
  }

  /** Filling in a header in front of what was written is one write from the start. */
  lemma PutBefore(b: seq<byte>, h: seq<byte>, s: seq<byte>)
    requires |h| + |s| <= |b|
    ensures Put(Put(b, |h|, s), 0, h) == Put(b, 0, h + s)
  {
    var m := Put(b, |h|, s);
    assert m[|h|..] == s + b[|h| + |s|..];
  }

  lemma SliceOfSlice(s: seq<byte>, a: nat, b: nat, i: nat, j: nat)
    requires a <= b <= |s| && i <= j <= b - a
    ensures s[a..b][i..j] == s[a + i..a + j]
  {
    var x, y := s[a..b][i..j], s[a + i..a + j];
    assert |x| == |y| && forall k :: 0 <= k < |x| ==> x[k] == y[k];
  }

  /** `memcpy` into a buffer. */
  method CopyInto(buf: array<byte>, pos: nat, s: seq<byte>)
    requires pos + |s| <= buf.Length
    modifies buf
    ensures buf[..] == Put(old(buf[..]), pos, s)
  {
    ghost var was := buf[..];
    for i := 0 to |s|
      invariant buf[..] == was[..pos] + s[..i] + was[pos + i..]
    {
      buf[pos + i] := s[i];
    }
  }
}
