/** Reading a message a value at a time: the typed `af_rpc_get_*_from_buffer_at_pos` calls. */
module RpcReaders {
  import opened Bytes
  import opened RpcFormat
  import opened RpcParams
  import opened RpcDecoder

  /** A caller's variable, passed by address. */
  class Cell {
    var value: int

    constructor (v: int)
      ensures value == v
    {
      value := v;
    }
  }

  /** Position 0 stands for the first parameter. */
  function Start(pos: nat): (p: nat)
    ensures p != 0
  {
    if pos == 0 then LENGTH_SIZE else pos
  }

  /** What every reader looks at before it looks at the parameter; 0 if there is nothing wrong so far. */
  function PositionRefusal(b: seq<byte>, bufSize: int, pos: nat): (e: int)
    requires |b| >= LENGTH_SIZE
  {
    if 0 <= bufSize <= LENGTH_SIZE then ERR_BAD_PARAM
    else if LengthWord(b) > bufSize then ERR_BAD_TLV
    else if Start(pos) > LengthWord(b) then ERR_BAD_PARAM
    else 0
  }

  /** Why an integer reader refuses a position; 0 if it reads a number. */
  function IntegerRefusal(b: seq<byte>, bufSize: int, pos: nat, kind: u16): (e: int)
    requires LENGTH_SIZE <= |b| && bufSize <= |b| && ValidType(kind) && IsInteger(kind)
    ensures e <= 0
  {
    var p := Start(pos);
    if PositionRefusal(b, bufSize, pos) != 0 then PositionRefusal(b, bufSize, pos)
    else if p + TYPE_SIZE + SizeOfType(kind) > LengthWord(b) then ERR_BAD_TLV
    else
      ValidTypeTests(kind);
      if FromBE(b[p..p + TYPE_SIZE]) != kind then ERR_BAD_TYPE else 0
  }

  /** Why the blob reader refuses a position; 0 if it copies a blob. */
  function BlobRefusal(b: seq<byte>, bufSize: int, pos: nat, capacity: int): (e: int)
    requires LENGTH_SIZE <= |b| && bufSize <= |b|
    requires PositionRefusal(b, bufSize, pos) == 0 ==> Start(pos) + TYPE_SIZE <= |b|
    ensures e <= 0
  {
    var p := Start(pos);
    if PositionRefusal(b, bufSize, pos) != 0 then PositionRefusal(b, bufSize, pos)
    else
      var kind := FromBE(b[p..p + TYPE_SIZE]);
      if !IsBlob(kind) then ERR_BAD_TYPE
      else if p + TYPE_SIZE + kind % 0x4000 > LengthWord(b) then ERR_BAD_TLV
      else if kind % 0x4000 > capacity then ERR_BUFFER_OVERFLOW
      else 0
  }

  /** A negative size passes the first test, which is between unsigned numbers, and fails the second. */
  ghost predicate ReadInput(buf: array?<byte>, bufSize: int) {
    buf != null ==> bufSize <= buf.Length && (!(0 <= bufSize <= LENGTH_SIZE) ==> LENGTH_SIZE <= buf.Length)
  }

  /** Any of the six integer readers; `kind` is the type it stands for. */
  method GetInteger(value: Cell?, buf: array?<byte>, bufSize: int, pos: nat, kind: u16) returns (r: int)
    requires ReadInput(buf, bufSize) && ValidType(kind) && IsInteger(kind)
    modifies value
    ensures value == null || buf == null || 0 <= bufSize <= LENGTH_SIZE ==> r == ERR_BAD_PARAM
    ensures value != null && buf != null && !(0 <= bufSize <= LENGTH_SIZE) ==>
      && (r < 0 ==> r == IntegerRefusal(buf[..], bufSize, pos, kind))
      && (r >= 0 ==>
            && IntegerRefusal(buf[..], bufSize, pos, kind) == 0
            && 0 <= SizeOfType(kind) && r == Start(pos) + TYPE_SIZE + SizeOfType(kind) <= buf.Length
            && Tlv(kind, buf[Start(pos) + TYPE_SIZE..r]).Valid()
            && value.value == IntegerValue(Tlv(kind, buf[Start(pos) + TYPE_SIZE..r])))
    ensures r < 0 && value != null ==> value.value == old(value.value)
  {
    hide BE, FromBE, ValidType, SizeOfType, IsInteger, IntegerValue;
    if value == null || buf == null || 0 <= bufSize <= LENGTH_SIZE {
      return ERR_BAD_PARAM;
    }
    ghost var b := buf[..];
    assert b[..LENGTH_SIZE] == buf[..LENGTH_SIZE];
    var len := FromBE(buf[..LENGTH_SIZE]);
    if len > bufSize {
      return ERR_BAD_TLV;
    }
    var p := if pos == 0 then LENGTH_SIZE else pos;
    if p > len {
      return ERR_BAD_PARAM;
    }
    ValidTypeTests(kind);
    var size := SizeOfType(kind);
    if p + TYPE_SIZE + size > len {
      return ERR_BAD_TLV;
    }
    assert b[p..p + TYPE_SIZE] == buf[p..p + TYPE_SIZE];
    var kindRead := FromBE(buf[p..p + TYPE_SIZE]);
    if kindRead != kind {
      return ERR_BAD_TYPE;
    }
    p := p + TYPE_SIZE;
    value.value := IntegerValue(Tlv(kind, buf[p..p + size]));
    return p + size;
  }

  /**
   `blobSize` holds the room there is, and is left holding the size of the blob.  The type
   word is read once the position is accepted, so there the caller owes its two bytes.
   */
  method GetBlob(blob: array?<byte>, blobSize: Cell?, buf: array?<byte>, bufSize: int, pos: nat) returns (r: int)
    requires ReadInput(buf, bufSize)
    requires buf != null ==> blob != buf
    requires buf != null && !(0 <= bufSize <= LENGTH_SIZE) && PositionRefusal(buf[..], bufSize, pos) == 0 ==>
      Start(pos) + TYPE_SIZE <= buf.Length
    requires blob != null && blobSize != null ==> blobSize.value <= blob.Length
    modifies blob, blobSize
    ensures buf == null || 0 <= bufSize <= LENGTH_SIZE || blob == null || blobSize == null || old(blobSize.value) <= 0
      ==> r == ERR_BAD_PARAM
    ensures
      buf != null && !(0 <= bufSize <= LENGTH_SIZE) && blob != null && blobSize != null && old(blobSize.value) > 0 ==>
      && (r < 0 ==> r == BlobRefusal(buf[..], bufSize, pos, old(blobSize.value)))
      && (r >= 0 ==>
            && BlobRefusal(buf[..], bufSize, pos, old(blobSize.value)) == 0
            && 0 <= blobSize.value <= old(blobSize.value)
            && r == Start(pos) + TYPE_SIZE + blobSize.value <= buf.Length
            && blobSize.value == FromBE(buf[..][Start(pos)..Start(pos) + TYPE_SIZE]) % 0x4000
            && blob[..] == Put(old(blob[..]), 0, buf[Start(pos) + TYPE_SIZE..r]))
    ensures r < 0 && blob != null ==> blob[..] == old(blob[..])
    ensures r < 0 && blobSize != null ==> blobSize.value == old(blobSize.value)
  {
    hide BE, FromBE, Put;
    if buf == null || 0 <= bufSize <= LENGTH_SIZE || blob == null || blobSize == null || blobSize.value <= 0 {
      return ERR_BAD_PARAM;
    }
    ghost var b := buf[..];
    assert b[..LENGTH_SIZE] == buf[..LENGTH_SIZE];
    var len := FromBE(buf[..LENGTH_SIZE]);
    if len > bufSize {
      return ERR_BAD_TLV;
    }
    var p := if pos == 0 then LENGTH_SIZE else pos;
    if p > len {
      return ERR_BAD_PARAM;
    }
    assert b[p..p + TYPE_SIZE] == buf[p..p + TYPE_SIZE];
    var kind := FromBE(buf[p..p + TYPE_SIZE]);
    if !IsBlob(kind) {
      return ERR_BAD_TYPE;
    }
    p := p + TYPE_SIZE;
    var size := kind % 0x4000;
    if p + size > len {
      return ERR_BAD_TLV;
    }
    if size > blobSize.value {
      return ERR_BUFFER_OVERFLOW;
    }
    if size != 0 {
      CopyInto(blob, 0, buf[p..p + size]);
    } else {
      PutNothing(blob[..], 0);
    }
    blobSize.value := size;
    return p + size;
  }

  /** What one reader call gets out of a parameter. */
  datatype Reading = Number(n: int) | Contents(data: seq<byte>)

  function Meaning(t: Tlv): (m: Reading)
    requires t.Valid()
  {
    if IsInteger(t.kind) then Number(IntegerValue(t)) else Contents(t.data)
  }

  /** Where the i-th parameter of a message is, and what is there. */
  lemma ParameterAt(b: seq<byte>, n: nat, ts: seq<Tlv>, i: nat)
    requires n <= |b| && Holds(b[..n], ts) && i < |ts|
    ensures ts[i].Valid() && LengthWord(b) == n > LENGTH_SIZE
    ensures OffsetOf(ts, i + 1) == OffsetOf(ts, i) + |ts[i].Bytes()| <= n
    ensures var p := OffsetOf(ts, i);
      && FromBE(b[p..p + TYPE_SIZE]) == ts[i].kind
      && b[p + TYPE_SIZE..p + |ts[i].Bytes()|] == ts[i].data
  {
    hide BE, FromBE, Parse, ValidType, SizeOfType, Wire;
    HeldIsMessage(b[..n], ts);
    assert ts[i] in ts;
    WireAt(ts, i);
    assert ts[..i + 1] == ts[..i] + [ts[i]];
    WireAppend(ts[..i], ts[i]);
    assert b[..n][..LENGTH_SIZE] == b[..LENGTH_SIZE];
    var p, t := OffsetOf(ts, i), ts[i];
    assert b[..n][p..p + |t.Bytes()|] == t.Bytes();
    assert b[p..p + |t.Bytes()|] == t.Bytes();
    assert b[p..p + TYPE_SIZE] == t.Bytes()[..TYPE_SIZE] == BE(t.kind, 2);
    assert b[p + TYPE_SIZE..p + |t.Bytes()|] == t.Bytes()[TYPE_SIZE..];
    FromBEOfBE(t.kind, 2);
  }

  /** The matching reader does not refuse a parameter of a message, from its own offset or, for the first, from 0. */
  lemma NotRefusedAt(b: seq<byte>, n: nat, ts: seq<Tlv>, i: nat, pos: nat, capacity: int)
    requires n <= |b| && Holds(b[..n], ts) && i < |ts|
    requires Start(pos) == OffsetOf(ts, i)
    ensures n > LENGTH_SIZE && Start(pos) + TYPE_SIZE <= |b| && ts[i].Valid()
    ensures ValidType(ts[i].kind)
    ensures IsInteger(ts[i].kind) ==> IntegerRefusal(b, n, pos, ts[i].kind) == 0
    ensures !IsInteger(ts[i].kind) && |ts[i].data| <= capacity ==> BlobRefusal(b, n, pos, capacity) == 0
  {
    hide BE, FromBE;
    ParameterAt(b, n, ts, i);
    ValidTypeTests(ts[i].kind);
  }

  /**
   On a message, at the place of its i-th parameter, an integer reader reads exactly if its
   type is the parameter's.  If it is not, the answer says so if its number would fit in what
   is left of the message, and otherwise that the message is too short.
   */
  lemma IntegerReaderIff(b: seq<byte>, n: nat, ts: seq<Tlv>, i: nat, pos: nat, kind: u16)
    requires n <= |b| && Holds(b[..n], ts) && i < |ts| && Start(pos) == OffsetOf(ts, i)
    requires kind in {0x9000, 0xA000, 0xB000, 0xD000, 0xE000, 0xF000}
    ensures LENGTH_SIZE <= |b| && ValidType(kind) && IsInteger(kind)
    ensures IntegerRefusal(b, n, pos, kind) == 0 <==> kind == ts[i].kind
    ensures var width := if kind in {0x9000, 0xD000} then 1 else if kind in {0xA000, 0xE000} then 2 else 4;
      kind != ts[i].kind ==>
        IntegerRefusal(b, n, pos, kind) == if OffsetOf(ts, i) + 2 + width <= n then -3 else -4
  {
    hide BE, FromBE, Parse, Wire;
    ParameterAt(b, n, ts, i);
    TypeWords(kind);
    ValidTypeTests(kind);
    ValidTypeTests(ts[i].kind);
  }

  /**
   On a message, the blob reader reads exactly if the parameter is a blob and there is room
   for it; otherwise the answer says which of the two is missing.
   */
  lemma BlobReaderIff(b: seq<byte>, n: nat, ts: seq<Tlv>, i: nat, pos: nat, capacity: int)
    requires n <= |b| && Holds(b[..n], ts) && i < |ts| && Start(pos) == OffsetOf(ts, i)
    ensures LENGTH_SIZE <= |b| && Start(pos) + TYPE_SIZE <= |b|
    ensures BlobRefusal(b, n, pos, capacity) == 0 <==> ts[i].kind < 32768 && |ts[i].data| <= capacity
    ensures ts[i].kind >= 32768 ==> BlobRefusal(b, n, pos, capacity) == -3
    ensures ts[i].kind < 32768 && |ts[i].data| > capacity ==> BlobRefusal(b, n, pos, capacity) == -1
  {
    hide BE, FromBE, Parse, Wire;
    ParameterAt(b, n, ts, i);
    TypeWords(ts[i].kind);
  }

  /**
   Behind a message's last parameter there is nothing to read: the integer readers find it too
   short there, and any reader refuses a place further on, or a buffer shorter than it says.
   */
  lemma NothingBehind(b: seq<byte>, n: nat, ts: seq<Tlv>, pos: nat, bufSize: int, kind: u16, capacity: int)
    requires n <= |b| && Holds(b[..n], ts) && kind in {0x9000, 0xA000, 0xB000, 0xD000, 0xE000, 0xF000}
    requires bufSize <= |b| && !(0 <= bufSize <= LENGTH_SIZE)
    ensures LENGTH_SIZE <= |b| && ValidType(kind) && IsInteger(kind)
    ensures bufSize < n ==> IntegerRefusal(b, bufSize, pos, kind) == -4 && BlobRefusal(b, bufSize, pos, capacity) == -4
    ensures bufSize >= n && Start(pos) > n ==>
      IntegerRefusal(b, bufSize, pos, kind) == -2 && BlobRefusal(b, bufSize, pos, capacity) == -2
    ensures bufSize >= n && Start(pos) == n ==> IntegerRefusal(b, bufSize, pos, kind) == -4
  {
    hide BE, FromBE, Parse, Wire;
    TypeWords(kind);
    assert b[..n][..LENGTH_SIZE] == b[..LENGTH_SIZE];
  }

  /** The caller's blob buffer is large enough, if it is needed at all.  No call takes an empty one. */
  predicate RoomFor(t: Tlv, capacity: nat) {
    IsInteger(t.kind) || (1 <= capacity && |t.data| <= capacity)
  }

  /** The call that reads the i-th parameter of a message: the reader of its type, given enough room. */
  method ReadParameter(buf: array<byte>, bufSize: nat, pos: nat, kind: u16, capacity: nat,
                       ghost ts: seq<Tlv>, ghost i: nat)
    returns (r: int, m: Reading)
    requires bufSize <= buf.Length && Holds(buf[..bufSize], ts) && i < |ts|
    requires Start(pos) == OffsetOf(ts, i) && Matches(ts[i].kind, kind)
    requires RoomFor(ts[i], capacity)
    ensures ts[i].Valid() && r == OffsetOf(ts, i + 1) && m == Meaning(ts[i])
  {
    hide BE, FromBE, Parse, Wire, IntegerRefusal, BlobRefusal;
    NotRefusedAt(buf[..], bufSize, ts, i, pos, capacity);
    ParameterAt(buf[..], bufSize, ts, i);
    var out := new Cell(capacity);
    if IsInteger(kind) {
      r := GetInteger(out, buf, bufSize, pos, kind);
      assert buf[Start(pos) + TYPE_SIZE..r] == buf[..][Start(pos) + TYPE_SIZE..r];
      m := Number(out.value);
    } else {
      var room := new byte[capacity];
      r := GetBlob(room, out, buf, bufSize, pos);
      BlobRead(room[..], buf[..], ts[i].data, Start(pos) + TYPE_SIZE, r);
      m := Contents(room[..out.value]);
    }
  }

  lemma BlobRead(room: seq<byte>, b: seq<byte>, data: seq<byte>, p: nat, r: int)
    requires p + |data| == r <= |b| && b[p..r] == data && |data| <= |room|
    requires room[..|data|] == b[p..r]
    ensures room[..|data|] == data
  {
  }

  /**
   Chaining the matching readers from position 0 through a message visits every parameter
   boundary, reads what each parameter means and ends at the declared length.
   */
  method ReadChain(buf: array<byte>, bufSize: nat, kinds: seq<u16>, capacity: nat, ghost ts: seq<Tlv>)
    returns (ms: seq<Reading>, stops: seq<int>)
    requires bufSize <= buf.Length && Holds(buf[..bufSize], ts) && ts != []
    requires |kinds| == |ts| && forall i :: 0 <= i < |ts| ==> Matches(ts[i].kind, kinds[i])
    requires forall t <- ts :: RoomFor(t, capacity)
    ensures AllValid(ts) && |ms| == |stops| == |ts|
    ensures forall i :: 0 <= i < |ts| ==> ms[i] == Meaning(ts[i]) && stops[i] == OffsetOf(ts, i + 1)
    ensures stops[|ts| - 1] == LengthWord(buf[..bufSize]) == bufSize
  {
    hide Holds, LengthWord, OffsetOf, Wire, Matches, Meaning, ValidType, SizeOfType;
    ms, stops := [], [];
    ChainEnds(buf[..bufSize], ts);
    var pos: nat := 0;
    for i := 0 to |kinds|
      invariant |ms| == |stops| == i && Start(pos) == OffsetOf(ts, i)
      invariant forall j :: 0 <= j < i ==> ms[j] == Meaning(ts[j]) && stops[j] == OffsetOf(ts, j + 1)
      invariant i > 0 ==> stops[i - 1] == pos
    {
      assert ts[i] in ts;
      var r, m := ReadParameter(buf, bufSize, pos, kinds[i], capacity, ts, i);
      ms, stops, pos := ms + [m], stops + [r], r;
    }
  }

  lemma ChainEnds(b: seq<byte>, ts: seq<Tlv>)
    requires Holds(b, ts)
    ensures AllValid(ts) && OffsetOf(ts, 0) == LENGTH_SIZE && OffsetOf(ts, |ts|) == LengthWord(b) == |b|
  {
    HeldIsMessage(b, ts);
    assert ts[..0] == [] && Wire([]) == [] && ts[..|ts|] == ts;
  }
}
