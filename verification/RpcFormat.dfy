/**
 The RPC message format: a big-endian 16-bit length (which counts itself), then a
 run of parameters, each a big-endian type word followed by its data.  A message
 is described independently of the four pieces of code that read and write it:
 `Wire` and `Message` say what the bytes are, `Parse` reads them back.
 */
module RpcFormat {
  import opened Bytes

  const LENGTH_SIZE := 2
  const TYPE_SIZE := 2
  const MAX_BLOB_SIZE := 16383

  const TYPE_UINT8 := 0x9000
  const TYPE_UINT16 := 0xA000
  const TYPE_UINT32 := 0xB000
  const TYPE_INT8 := 0xD000
  const TYPE_INT16 := 0xE000
  const TYPE_INT32 := 0xF000

  const ERR_BUFFER_OVERFLOW := -1
  const ERR_BAD_PARAM := -2
  const ERR_BAD_TYPE := -3
  const ERR_BAD_TLV := -4
  const ERR_WRONG_NUM_PARAMS := -6

  /** Bit 15 of a type word tells integers from blobs; callers pass wider words too. */
  predicate IsInteger(t: nat) {
    t / 0x8000 % 2 == 1
  }

  predicate IsBlob(t: nat) {
    t / 0x8000 % 2 == 0
  }

  predicate IsSigned(t: nat) {
    t / 0x4000 % 4 == 3
  }

  /** The number of data bytes a type word announces; -1 for the two "any size" integer types. */
  function SizeOfType(t: u16): (size: int) {
    if IsInteger(t)
    then [-1, 1, 2, 4, -1, 1, 2, 4][t / 0x1000 % 8]
    else t % 0x4000
  }

  /** The type words that may appear in a message: every blob, and exactly six integers. */
  predicate ValidType(t: u16) {
    IsBlob(t) || t in {TYPE_UINT8, TYPE_UINT16, TYPE_UINT32, TYPE_INT8, TYPE_INT16, TYPE_INT32}
  }

  /** The two tests the encoder and the decoder make accept exactly the valid type words. */
  lemma ValidTypeTests(t: u16)
    ensures ValidType(t) <==> SizeOfType(t) >= 0 && (IsInteger(t) ==> t % 0x1000 == 0)
    ensures ValidType(t) ==> 0 <= SizeOfType(t) <= MAX_BLOB_SIZE
    ensures ValidType(t) && IsInteger(t) ==> SizeOfType(t) in {1, 2, 4}
  {
    if IsInteger(t) && t % 0x1000 == 0 {
      assert t == t / 0x1000 * 0x1000;
      assert 8 <= t / 0x1000 < 16;
    }
  }

  /**
   The type words one by one: the width of each integer type and the size of each blob, with
   or without the string flag, which are integers and which of those are signed.
   */
  lemma TypeWords(t: u16)
    ensures t < 16384 ==> SizeOfType(t) == t
    ensures 16384 <= t < 32768 ==> SizeOfType(t) == t - 16384
    ensures SizeOfType(0x9000) == SizeOfType(0xD000) == 1
    ensures SizeOfType(0xA000) == SizeOfType(0xE000) == 2
    ensures SizeOfType(0xB000) == SizeOfType(0xF000) == 4
    ensures SizeOfType(0x8000) == SizeOfType(0xC000) == -1
    ensures IsBlob(t) <==> t < 32768
    ensures IsInteger(t) <==> t >= 32768
    ensures IsSigned(t) <==> t >= 49152
    ensures ValidType(t) <==> t < 32768 || t in {0x9000, 0xA000, 0xB000, 0xD000, 0xE000, 0xF000}
  {
  }

  /** One parameter as it travels. */
  datatype Tlv = Tlv(kind: u16, data: seq<byte>) {
    predicate Valid() {
      ValidType(kind) && |data| == SizeOfType(kind)
    }

    function Bytes(): (s: seq<byte>)
      ensures |s| == TYPE_SIZE + |data|
    {
      BE(kind, 2) + data
    }
  }

  ghost predicate AllValid(ts: seq<Tlv>) {
    forall t <- ts :: t.Valid()
  }

  /** The parameters laid out one after another. */
  function Wire(ts: seq<Tlv>): (s: seq<byte>) {
    if ts == [] then [] else ts[0].Bytes() + Wire(ts[1..])
  }

  lemma {:induction false} WireConcat(a: seq<Tlv>, b: seq<Tlv>)
    ensures Wire(a + b) == Wire(a) + Wire(b)
  {
    if a == [] {
      assert a + b == b;
    } else {
      assert (a + b)[1..] == a[1..] + b;
      WireConcat(a[1..], b);
    }
  }

  lemma WireAppend(ts: seq<Tlv>, t: Tlv)
    ensures Wire(ts + [t]) == Wire(ts) + t.Bytes()
  {
    WireConcat(ts, [t]);
    assert Wire([t]) == t.Bytes() + Wire([]);
  }

  /** 2 + sum(2 + size): the length of a message holding these parameters. */
  function EncodedSize(ts: seq<Tlv>): (n: nat)
    ensures ts != [] ==> n >= LENGTH_SIZE + TYPE_SIZE
    ensures n >= LENGTH_SIZE
  {
    if ts == [] then LENGTH_SIZE else EncodedSize(ts[..|ts| - 1]) + TYPE_SIZE + |ts[|ts| - 1].data|
  }

  lemma {:induction false} EncodedSizeIsWireLength(ts: seq<Tlv>)
    ensures EncodedSize(ts) == LENGTH_SIZE + |Wire(ts)|
  {
    if ts != [] {
      var rest, last := ts[..|ts| - 1], ts[|ts| - 1];
      assert ts == rest + [last];
      EncodedSizeIsWireLength(rest);
      WireAppend(rest, last);
    }
  }

  /** A whole message: the length prefix and the parameters. */
  function Message(ts: seq<Tlv>): (s: seq<byte>)
    requires LENGTH_SIZE + |Wire(ts)| < 0x1_0000
    ensures |s| == LENGTH_SIZE + |Wire(ts)|
    ensures s[LENGTH_SIZE..] == Wire(ts)
  {
    BE(LENGTH_SIZE + |Wire(ts)|, 2) + Wire(ts)
  }

  /** A message starts with its length, most significant byte first, and so does each parameter with its type. */
  lemma MessageBytes(t: Tlv, rest: seq<Tlv>)
    requires LENGTH_SIZE + |Wire([t] + rest)| < 0x1_0000
    ensures var s := Message([t] + rest);
      && |s| >= 4 + |t.data|
      && MostSignificantFirst(s[..2]) == |s|
      && MostSignificantFirst(s[2..4]) == t.kind
      && s[4..4 + |t.data|] == t.data
  {
    hide BE;
    var s := Message([t] + rest);
    BEIsMostSignificantFirst(|s|, 2);
    BEIsMostSignificantFirst(t.kind, 2);
    assert ([t] + rest)[1..] == rest;
    assert s[LENGTH_SIZE..] == t.Bytes() + Wire(rest);
    assert s[..LENGTH_SIZE] == BE(|s|, 2);
    assert s[2..4] == s[LENGTH_SIZE..][..TYPE_SIZE] == BE(t.kind, 2);
    assert s[4..4 + |t.data|] == s[LENGTH_SIZE..][TYPE_SIZE..TYPE_SIZE + |t.data|];
  }

  datatype Option<+T> = None | Some(value: T)

  /** Reads parameters until the bytes run out; `None` if they do not end on a boundary. */
  function Parse(s: seq<byte>): (r: Option<seq<Tlv>>) {
    if s == [] then Some([])
    else if |s| < TYPE_SIZE then None
    else
      var kind := FromBE(s[..TYPE_SIZE]);
      if !ValidType(kind) then None
      else
        var size := SizeOfType(kind);
        ValidTypeTests(kind);
        if |s| < TYPE_SIZE + size then None
        else
          match Parse(s[TYPE_SIZE + size..])
          case None => None
          case Some(rest) => Some([Tlv(kind, s[TYPE_SIZE..TYPE_SIZE + size])] + rest)
  }

  lemma ParseFirst(t: Tlv, rest: seq<byte>)
    requires t.Valid() && Parse(rest).Some?
    ensures Parse(t.Bytes() + rest) == Some([t] + Parse(rest).value)
  {
    hide BE, FromBE, ValidType, SizeOfType;
    var s, size := t.Bytes() + rest, |t.data|;
    ValidTypeTests(t.kind);
    FromBEOfBE(t.kind, 2);
    assert s[..TYPE_SIZE] == BE(t.kind, 2);
    assert s[TYPE_SIZE..TYPE_SIZE + size] == t.data;
    assert s[TYPE_SIZE + size..] == rest;
  }

  /** Reading back what was laid out returns the same parameters. */
  lemma {:induction false} ParseOfWire(ts: seq<Tlv>)
    requires AllValid(ts)
    ensures Parse(Wire(ts)) == Some(ts)
  {
    if ts != [] {
      ParseOfWire(ts[1..]);
      ParseFirst(ts[0], Wire(ts[1..]));
      assert ts == [ts[0]] + ts[1..];
    }
  }

  /** Whatever can be read is valid, and is laid out as exactly the bytes it was read from. */
  lemma {:induction false} WireOfParse(s: seq<byte>)
    requires Parse(s).Some?
    ensures AllValid(Parse(s).value) && Wire(Parse(s).value) == s
  {
    hide BE, FromBE, ValidType, SizeOfType;
    if s != [] {
      var kind := FromBE(s[..TYPE_SIZE]);
      ValidTypeTests(kind);
      var size := SizeOfType(kind);
      var rest := s[TYPE_SIZE + size..];
      WireOfParse(rest);
      BEOfFromBE(s[..TYPE_SIZE]);
      var t := Tlv(kind, s[TYPE_SIZE..TYPE_SIZE + size]);
      assert Parse(s).value[1..] == Parse(rest).value;
      assert s == t.Bytes() + rest;
    }
  }

  /** The length word of a buffer (`getlen`). */
  function LengthWord(b: seq<byte>): (n: u16)
    requires |b| >= LENGTH_SIZE
  {
    FromBE(b[..LENGTH_SIZE])
  }

  /** A buffer holds exactly these parameters: its length word is its size and its body parses to them. */
  ghost predicate Holds(b: seq<byte>, ts: seq<Tlv>) {
    && LENGTH_SIZE <= |b| < 0x1_0000
    && LengthWord(b) == |b|
    && Parse(b[LENGTH_SIZE..]) == Some(ts)
  }

  lemma MessageHolds(ts: seq<Tlv>)
    requires LENGTH_SIZE + |Wire(ts)| < 0x1_0000 && AllValid(ts)
    ensures Holds(Message(ts), ts)
  {
    hide BE, FromBE;
    var b := Message(ts);
    ParseOfWire(ts);
    FromBEOfBE(|b|, 2);
    assert b[..LENGTH_SIZE] == BE(|b|, 2);
  }

  lemma HeldIsMessage(b: seq<byte>, ts: seq<Tlv>)
    requires Holds(b, ts)
    ensures LENGTH_SIZE + |Wire(ts)| < 0x1_0000 && AllValid(ts) && b == Message(ts)
  {
    hide BE, FromBE;
    WireOfParse(b[LENGTH_SIZE..]);
    BEOfFromBE(b[..LENGTH_SIZE]);
    assert b == b[..LENGTH_SIZE] + b[LENGTH_SIZE..];
  }

  /** A buffer holds these parameters exactly when it is their message, byte for byte. */
  lemma HoldsIffMessage(b: seq<byte>, ts: seq<Tlv>)
    ensures Holds(b, ts)
       <==> (LENGTH_SIZE + |Wire(ts)| < 0x1_0000 && AllValid(ts) && b == Message(ts))
  {
    if Holds(b, ts) {
      HeldIsMessage(b, ts);
    }
    if LENGTH_SIZE + |Wire(ts)| < 0x1_0000 && AllValid(ts) && b == Message(ts) {
      MessageHolds(ts);
    }
  }

  /**
   The length word is 16 bits: what the writers leave in a buffer, with the length reduced to
   them, is a readable message exactly when the length fits.
   */
  lemma TruncatedUnless(ts: seq<Tlv>)
    requires AllValid(ts)
    ensures var n := LENGTH_SIZE + |Wire(ts)|;
      Holds(BE(n % 0x1_0000, 2) + Wire(ts), ts) <==> n < 0x1_0000
  {
    hide BE, FromBE, Parse, Wire, LengthWord, AllValid;
    if LENGTH_SIZE + |Wire(ts)| < 0x1_0000 {
      MessageHolds(ts);
    }
  }

  /** Five of the largest blobs are a message that does not fit its length word. */
  lemma FiveLargeBlobs(data: seq<byte>)
    requires |data| == MAX_BLOB_SIZE
    ensures var t := Tlv(MAX_BLOB_SIZE, data);
      var ts := [t, t, t, t, t];
      AllValid(ts) && !Holds(BE(EncodedSize(ts) % 0x1_0000, 2) + Wire(ts), ts)
  {
    hide BE, Parse, LengthWord;
    var t := Tlv(MAX_BLOB_SIZE, data);
    var ts := [t, t, t, t, t];
    EncodedSizeIsWireLength(ts);
    assert ts[..4] == [t, t, t, t] && ts[..4][..3] == [t, t, t] && ts[..4][..3][..2] == [t, t];
    assert ts[..4][..3][..2][..1] == [t] && [t][..0] == [];
    assert EncodedSize([t]) == LENGTH_SIZE + 16385 && EncodedSize([t, t]) == LENGTH_SIZE + 2 * 16385;
    assert EncodedSize([t, t, t]) == LENGTH_SIZE + 3 * 16385 && EncodedSize([t, t, t, t]) == LENGTH_SIZE + 4 * 16385;
    TruncatedUnless(ts);
  }
}
