/** Building a message a value at a time, in place: `af_rpc_init_buffer` and the `af_rpc_add_*` calls. */
module RpcBuilder {
  import opened Bytes
  import opened RpcFormat
  import opened RpcParams
  import opened RpcEncoder

  /** What a caller asks to be added.  The six integer calls differ only in the type they stand for. */
  datatype Value = Integer(kind: u16, w: int) | Blob(mem: array?<byte>, size: int)

  /** What the caller owes: an integer call has one of the six types, a blob as much memory as it says. */
  predicate Readable(v: Value) {
    match v
    case Integer(kind, _) => ValidType(kind) && IsInteger(kind)
    case Blob(mem, size) => mem != null ==> size <= mem.Length
  }

  /** The memory a value is read from. */
  ghost function Source(v: Value): (m: set<array<byte>>) {
    if v.Blob? && v.mem != null then {v.mem} else {}
  }

  predicate BadValue(v: Value) {
    v.Blob? && (v.size < 0 || (v.mem == null && v.size > 0) || v.size > MAX_BLOB_SIZE)
  }

  /** The parameter a value is sent as. */
  ghost function AddedTlv(v: Value): (t: Tlv)
    requires Readable(v) && !BadValue(v)
    reads Source(v)
    ensures t.Valid()
  {
    match v
    case Integer(kind, w) => Tlv(kind, IntegerData(kind, w))
    case Blob(mem, size) => if size == 0 then Tlv(0, []) else Tlv(size, mem[..size])
  }

  function ValueSize(v: Value): (n: int)
    requires Readable(v)
  {
    match v
    case Integer(kind, _) => SizeOfType(kind)
    case Blob(_, size) => size
  }

  /** Why a value is refused by a buffer whose length word is `pos`; 0 if it is added. */
  function AddRefusal(v: Value, pos: nat, bufSize: int): (e: int)
    requires Readable(v)
  {
    if bufSize <= 0 || BadValue(v) then ERR_BAD_PARAM
    else if bufSize < LENGTH_SIZE then ERR_BAD_TLV
    else if pos + TYPE_SIZE + ValueSize(v) > bufSize then ERR_BUFFER_OVERFLOW
    else 0
  }

  /** A buffer after a parameter was written at its length word and the length word moved on. */
  function Extended(b: seq<byte>, t: Tlv): (r: seq<byte>)
    requires |b| >= LENGTH_SIZE && LengthWord(b) + |t.Bytes()| <= |b|
    ensures |r| == |b|
  {
    Put(Put(b, LengthWord(b), t.Bytes()), 0, BE((LengthWord(b) + |t.Bytes()|) % 0x1_0000, 2))
  }

  /** A negative size is not refused: the comparison is made between unsigned numbers. */
  method InitBuffer(buf: array?<byte>, bufSize: int) returns (r: int)
    requires buf != null ==> bufSize <= buf.Length && (bufSize < 0 ==> LENGTH_SIZE <= buf.Length)
    modifies buf
    ensures r == LENGTH_SIZE || r == ERR_BAD_PARAM
    ensures r == LENGTH_SIZE <==> buf != null && !(0 <= bufSize < LENGTH_SIZE)
    ensures r == LENGTH_SIZE ==> buf[..] == Put(old(buf[..]), 0, Message([]))
    ensures r != LENGTH_SIZE && buf != null ==> buf[..] == old(buf[..])
  {
    if buf == null || 0 <= bufSize < LENGTH_SIZE {
      return ERR_BAD_PARAM;
    }
    assert Message([]) == BE(LENGTH_SIZE, 2);
    CopyInto(buf, 0, BE(LENGTH_SIZE, 2));
    return LENGTH_SIZE;
  }

  /** Any of the six integer calls; `kind` is the type it stands for. */
  method AddInteger(buf: array?<byte>, bufSize: int, kind: u16, w: int) returns (r: int)
    requires buf != null ==> bufSize <= buf.Length
    requires Readable(Integer(kind, w))
    modifies buf
    ensures Added(buf, bufSize, Integer(kind, w), r, if buf == null then [] else old(buf[..]))
  {
    hide BE, FromBE, Put;
    if buf == null || bufSize <= 0 {
      return ERR_BAD_PARAM;
    }
    if bufSize < LENGTH_SIZE {
      return ERR_BAD_TLV;
    }
    ValidTypeTests(kind);
    ghost var b, t := buf[..], AddedTlv(Integer(kind, w));
    assert buf[..LENGTH_SIZE] == b[..LENGTH_SIZE];
    var pos, size := FromBE(buf[..LENGTH_SIZE]), SizeOfType(kind);
    if pos + TYPE_SIZE + size > bufSize {
      return ERR_BUFFER_OVERFLOW;
    }
    PutPut(b, pos, BE(kind, 2), t.data);
    CopyInto(buf, pos, BE(kind, 2));
    pos := pos + TYPE_SIZE;
    CopyInto(buf, pos, BE(w % Modulus(size), size));
    pos := pos + size;
    CopyInto(buf, 0, BE(pos % 0x1_0000, 2));
    return pos;
  }

  method AddBlob(buf: array?<byte>, bufSize: int, blob: array?<byte>, blobSize: int) returns (r: int)
    requires buf != null ==> bufSize <= buf.Length && blob != buf
    requires Readable(Blob(blob, blobSize))
    modifies buf
    ensures Added(buf, bufSize, Blob(blob, blobSize), r, if buf == null then [] else old(buf[..]))
  {
    hide BE, FromBE, Put;
    if buf == null || bufSize <= 0 || blobSize < 0 || (blob == null && blobSize > 0) || blobSize > MAX_BLOB_SIZE {
      return ERR_BAD_PARAM;
    }
    if bufSize < LENGTH_SIZE {
      return ERR_BAD_TLV;
    }
    ghost var b, t := buf[..], AddedTlv(Blob(blob, blobSize));
    assert buf[..LENGTH_SIZE] == b[..LENGTH_SIZE];
    var pos := FromBE(buf[..LENGTH_SIZE]);
    if pos + TYPE_SIZE + blobSize > bufSize {
      return ERR_BUFFER_OVERFLOW;
    }
    PutPut(b, pos, BE(blobSize, 2), t.data);
    CopyInto(buf, pos, BE(blobSize, 2));
    pos := pos + TYPE_SIZE;
    if blobSize != 0 {
      CopyInto(buf, pos, blob[..blobSize]);
      pos := pos + blobSize;
    } else {
      PutNothing(buf[..], pos);
    }
    CopyInto(buf, 0, BE(pos % 0x1_0000, 2));
    return pos;
  }

  /** The whole effect of adding a value: a refusal changes nothing, an addition extends the buffer. */
  ghost predicate Added(buf: array?<byte>, bufSize: int, v: Value, r: int, was: seq<byte>)
    requires Readable(v) && (buf != null ==> bufSize <= buf.Length == |was|)
    reads buf, Source(v)
  {
    if buf == null then r == ERR_BAD_PARAM
    else
      var pos := if |was| < LENGTH_SIZE then 0 else LengthWord(was);
      var e := AddRefusal(v, pos, bufSize);
      if e != 0 then r == e && buf[..] == was
      else
        && |AddedTlv(v).data| == ValueSize(v)
        && r == pos + TYPE_SIZE + ValueSize(v) <= bufSize
        && buf[..] == Extended(was, AddedTlv(v))
  }

  /** A buffer whose first bytes are the message of `ts`. */
  ghost predicate Built(b: seq<byte>, ts: seq<Tlv>) {
    && AllValid(ts)
    && LENGTH_SIZE + |Wire(ts)| < 0x1_0000
    && Message(ts) <= b
  }

  lemma BuiltLength(b: seq<byte>, ts: seq<Tlv>)
    requires Built(b, ts)
    ensures |b| >= LENGTH_SIZE && LengthWord(b) == |Message(ts)|
  {
    hide BE, FromBE;
    FromBEOfBE(|Message(ts)|, 2);
    assert b[..LENGTH_SIZE] == Message(ts)[..LENGTH_SIZE] == BE(|Message(ts)|, 2);
  }

  /** Extending a built buffer by a parameter builds the message with that parameter last. */
  lemma ExtendBuilt(b: seq<byte>, ts: seq<Tlv>, t: Tlv)
    requires Built(b, ts) && t.Valid()
    requires |Message(ts)| + |t.Bytes()| <= |b| && |Message(ts)| + |t.Bytes()| < 0x1_0000
    ensures |b| >= LENGTH_SIZE && LengthWord(b) == |Message(ts)|
    ensures Built(Extended(b, t), ts + [t])
  {
    hide BE, FromBE, Wire, ValidType, SizeOfType;
    BuiltLength(b, ts);
    WireAppend(ts, t);
    var n, m := |Message(ts)|, |Message(ts)| + |t.Bytes()|;
    var w := Put(b, n, t.Bytes());
    assert w[..n] == Message(ts);
    assert w[LENGTH_SIZE..m] == w[LENGTH_SIZE..n] + w[n..m] == Wire(ts) + t.Bytes();
    var x := Put(w, 0, BE(m, 2));
    assert x[..m] == BE(m, 2) + w[LENGTH_SIZE..m];
  }

  /** A value as it stands when it is offered; `None` if it is refused by any buffer. */
  ghost function Offered(v: Value): (o: Option<Tlv>)
    requires Readable(v)
    reads Source(v)
    ensures o.Some? ==> o.value.Valid() && |o.value.data| == ValueSize(v)
  {
    if BadValue(v) then None else ValidTypeTests(AddedTlv(v).kind); Some(AddedTlv(v))
  }

  ghost function Memory(vs: seq<Value>): (ms: set<array<byte>>) {
    set v, m | v in vs && m in Source(v) :: m
  }

  ghost function Offers(vs: seq<Value>): (os: seq<Option<Tlv>>)
    requires forall v <- vs :: Readable(v)
    reads Memory(vs)
    ensures |os| == |vs|
    ensures forall i :: 0 <= i < |vs| ==> os[i] == Offered(vs[i])
  {
    if vs == [] then [] else
      assert forall v <- vs[1..] :: v in vs;
      [Offered(vs[0])] + Offers(vs[1..])
  }

  /** The parameters a buffer of this size takes of what is offered: each is refused only on its own account. */
  ghost function Accepted(os: seq<Option<Tlv>>, bufSize: int): (ts: seq<Tlv>) {
    if os == [] then []
    else
      var before := Accepted(os[..|os| - 1], bufSize);
      match os[|os| - 1]
      case None => before
      case Some(t) => if EncodedSize(before) + TYPE_SIZE + |t.data| <= bufSize then before + [t] else before
  }

  method Add(buf: array<byte>, bufSize: int, v: Value) returns (r: int)
    requires bufSize <= buf.Length && Readable(v) && buf !in Source(v)
    modifies buf
    ensures Added(buf, bufSize, v, r, old(buf[..]))
  {
    match v
    case Integer(kind, w) => r := AddInteger(buf, bufSize, kind, w);
    case Blob(mem, size) => r := AddBlob(buf, bufSize, mem, size);
  }

  lemma EncodedSizeOneMore(ts: seq<Tlv>, t: Tlv)
    ensures EncodedSize(ts + [t]) == EncodedSize(ts) + TYPE_SIZE + |t.data|
  {
    assert (ts + [t])[..|ts|] == ts;
  }

  /** One call on a built buffer, accepted or not, leaves a built buffer. */
  lemma AddKeepsBuilt(buf: array<byte>, bufSize: int, v: Value, r: int, was: seq<byte>, os: seq<Option<Tlv>>)
    requires LENGTH_SIZE <= bufSize <= buf.Length == |was| && bufSize < 0x1_0000 && Readable(v)
    requires var ts := Accepted(os, bufSize); Built(was, ts) && EncodedSize(ts) <= bufSize
    requires Added(buf, bufSize, v, r, was)
    ensures var ts := Accepted(os + [Offered(v)], bufSize); Built(buf[..], ts) && EncodedSize(ts) <= bufSize
    ensures var n := EncodedSize(Accepted(os, bufSize));
      r == if DataSize(v).None? then -2
           else if n + 2 + DataSize(v).value > bufSize then -1
           else n + 2 + DataSize(v).value
  {
    hide BE, FromBE, Put, Wire, ValidType, SizeOfType, Accepted, EncodedSize, DataSize, Built, Extended;
    hide BadValue, ValueSize, AddRefusal, AddedTlv, Offered, Message;
    var ts := Accepted(os, bufSize);
    BuiltLength(was, ts);
    EncodedSizeIsWireLength(ts);
    SizeOffered(v);
    AddRefusalIff(v, EncodedSize(ts), bufSize);
    AcceptOneMore(os, v, bufSize);
    if AddRefusal(v, EncodedSize(ts), bufSize) == 0 {
      ExtendBuilt(was, ts, AddedTlv(v));
      EncodedSizeOneMore(ts, AddedTlv(v));
    }
  }

  /**
   After `init_buffer` and any sequence of calls, accepted or refused, the buffer holds the
   message of exactly the accepted values, in order; and each call is answered with the new
   length of the message, or with the reason it is refused for.
   */
  method Build(buf: array<byte>, bufSize: int, vs: seq<Value>) returns (rs: seq<int>)
    requires LENGTH_SIZE <= bufSize <= buf.Length && bufSize < 0x1_0000
    requires forall v <- vs :: Readable(v) && buf !in Source(v)
    modifies buf
    ensures var ts := Accepted(old(Offers(vs)), bufSize); Built(buf[..], ts) && EncodedSize(ts) <= bufSize
    ensures |rs| == |vs| && forall i :: 0 <= i < |vs| ==> rs[i] == AnswerTo(vs, i, bufSize)
  {
    hide Accepted, EncodedSize, Built, AnswerTo, Offered, Message, Put, Taken, LengthOf, DataSize;
    ghost var os := Offers(vs);
    AcceptedSizes(vs, bufSize);
    var _ := InitBuffer(buf, bufSize);
    BuiltNothing(buf[..], os, bufSize);
    rs := [];
    for i := 0 to |vs|
      invariant |rs| == i && forall j :: 0 <= j < i ==> rs[j] == AnswerTo(vs, j, bufSize)
      invariant var ts := Accepted(os[..i], bufSize); Built(buf[..], ts) && EncodedSize(ts) <= bufSize
      invariant forall j :: i <= j < |vs| ==> Offered(vs[j]) == os[j]
    {
      assert os[..i + 1] == os[..i] + [os[i]];
      var r := AddNext(buf, bufSize, vs[i], os[..i]);
      LengthAnswered(vs, i, bufSize, r);
      rs := rs + [r];
    }
    assert os[..|vs|] == os;
  }

  /** One call on a built buffer. */
  method AddNext(buf: array<byte>, bufSize: int, v: Value, ghost os: seq<Option<Tlv>>) returns (r: int)
    requires LENGTH_SIZE <= bufSize <= buf.Length && bufSize < 0x1_0000 && Readable(v) && buf !in Source(v)
    requires var ts := Accepted(os, bufSize); Built(buf[..], ts) && EncodedSize(ts) <= bufSize
    modifies buf
    ensures var ts := Accepted(os + [old(Offered(v))], bufSize); Built(buf[..], ts) && EncodedSize(ts) <= bufSize
    ensures var n := EncodedSize(Accepted(os, bufSize));
      r == if DataSize(v).None? then -2
           else if n + 2 + DataSize(v).value > bufSize then -1
           else n + 2 + DataSize(v).value
  {
    hide Accepted, EncodedSize, Built, Added, DataSize, Offered;
    ghost var was := buf[..];
    r := Add(buf, bufSize, v);
    AddKeepsBuilt(buf, bufSize, v, r, was, os);
  }

  lemma BuiltNothing(b: seq<byte>, os: seq<Option<Tlv>>, bufSize: int)
    requires |b| >= LENGTH_SIZE && b == Put(b, 0, Message([])) && bufSize >= LENGTH_SIZE
    ensures var ts := Accepted(os[..0], bufSize); Built(b, ts) && EncodedSize(ts) <= bufSize
  {
    assert b[..LENGTH_SIZE] == Message([]);
    assert os[..0] == [];
  }

  /** The data bytes a value takes up; `None` if it is refused by any buffer. */
  function DataSize(v: Value): (o: Option<nat>) {
    match v
    case Integer(kind, _) => Some(if kind in {0x9000, 0xD000} then 1 else if kind in {0xA000, 0xE000} then 2 else 4)
    case Blob(mem, size) => if 0 <= size <= 16383 && (mem != null || size == 0) then Some(size) else None
  }

  /** Why a value is refused by a buffer with `pos` bytes in use: a bad value first, then want of room. */
  lemma AddRefusalIff(v: Value, pos: nat, bufSize: int)
    requires Readable(v)
    ensures DataSize(v).None? || bufSize <= 0 ==> AddRefusal(v, pos, bufSize) == -2
    ensures DataSize(v).Some? && bufSize == 1 ==> AddRefusal(v, pos, bufSize) == -4
    ensures DataSize(v).Some? && bufSize >= 2 ==>
      AddRefusal(v, pos, bufSize) == if pos + 2 + DataSize(v).value <= bufSize then 0 else -1
  {
    if v.Integer? {
      TypeWords(v.kind);
    }
  }

  /** The length of a message of these values. */
  function LengthOf(vs: seq<Value>): (n: int) {
    if vs == [] then 2
    else
      var o := DataSize(vs[|vs| - 1]);
      LengthOf(vs[..|vs| - 1]) + 2 + if o.Some? then o.value else 0
  }

  /** The values of those offered that a buffer of this size takes: each that is not bad and still fits. */
  function Taken(vs: seq<Value>, bufSize: int): (ws: seq<Value>)
    ensures forall w <- ws :: w in vs
  {
    if vs == [] then []
    else
      var before := Taken(vs[..|vs| - 1], bufSize);
      var o := DataSize(vs[|vs| - 1]);
      if o.Some? && LengthOf(before) + 2 + o.value <= bufSize then before + [vs[|vs| - 1]] else before
  }

  /** These parameters are those of these values, one by one. */
  ghost predicate Match(ts: seq<Tlv>, ws: seq<Value>)
    requires forall w <- ws :: Readable(w)
    reads Memory(ws)
  {
    |ts| == |ws| && forall j :: 0 <= j < |ws| ==> !BadValue(ws[j]) && ts[j] == AddedTlv(ws[j])
  }

  /** What a buffer accepts is the values taken, which their sizes alone decide. */
  lemma {:induction false} AcceptedIsTaken(vs: seq<Value>, bufSize: int)
    requires forall v <- vs :: Readable(v)
    ensures Match(Accepted(Offers(vs), bufSize), Taken(vs, bufSize))
    ensures EncodedSize(Accepted(Offers(vs), bufSize)) == LengthOf(Taken(vs, bufSize))
    decreases |vs|
  {
    hide AddedTlv, BadValue, DataSize, Offered, Readable, Accepted, EncodedSize, LengthOf, Match, Offers, Taken;
    if vs == [] {
      NoneTaken(bufSize);
    } else {
      var rest, v := vs[..|vs| - 1], vs[|vs| - 1];
      assert forall u <- rest :: u in vs;
      assert v in vs;
      AcceptedIsTaken(rest, bufSize);
      OffersOneMore(vs);
      TakenOneMore(vs, bufSize);
      SizeOffered(v);
      AcceptOneMore(Offers(rest), v, bufSize);
      if DataSize(v).Some? {
        MatchOneMore(Accepted(Offers(rest), bufSize), Taken(rest, bufSize), v);
      }
    }
  }

  lemma OffersOneMore(vs: seq<Value>)
    requires vs != [] && forall v <- vs :: Readable(v)
    ensures var rest, v := vs[..|vs| - 1], vs[|vs| - 1];
      (forall u <- rest :: Readable(u)) && Offers(vs) == Offers(rest) + [Offered(v)]
  {
    hide Offered, Readable;
    assert forall u <- vs[..|vs| - 1] :: u in vs;
  }

  lemma TakenOneMore(vs: seq<Value>, bufSize: int)
    requires vs != []
    ensures var before, v := Taken(vs[..|vs| - 1], bufSize), vs[|vs| - 1];
      var o := DataSize(v);
      Taken(vs, bufSize) == if o.Some? && LengthOf(before) + 2 + o.value <= bufSize then before + [v] else before
  {
  }

  lemma NoneTaken(bufSize: int)
    ensures Offers([]) == [] && Taken([], bufSize) == [] && Accepted([], bufSize) == []
    ensures EncodedSize([]) == 2 && LengthOf([]) == 2 && Match([], [])
  {
  }

  lemma AcceptOneMore(os: seq<Option<Tlv>>, v: Value, bufSize: int)
    requires Readable(v)
    requires DataSize(v).Some? ==> Offered(v) == Some(AddedTlv(v)) && |AddedTlv(v).data| == DataSize(v).value
    requires DataSize(v).None? ==> Offered(v).None?
    ensures var before, o := Accepted(os, bufSize), DataSize(v);
      Accepted(os + [Offered(v)], bufSize)
        == if o.Some? && EncodedSize(before) + 2 + o.value <= bufSize then before + [AddedTlv(v)] else before
  {
    hide AddedTlv, DataSize, Offered, Readable, EncodedSize;
    assert (os + [Offered(v)])[..|os|] == os;
  }

  lemma MatchOneMore(ts: seq<Tlv>, ws: seq<Value>, v: Value)
    requires (forall w <- ws :: Readable(w)) && Readable(v) && !BadValue(v) && Match(ts, ws)
    ensures forall w <- ws + [v] :: Readable(w)
    ensures Match(ts + [AddedTlv(v)], ws + [v])
    ensures EncodedSize(ts + [AddedTlv(v)]) == EncodedSize(ts) + 2 + |AddedTlv(v).data|
    ensures LengthOf(ws + [v]) == LengthOf(ws) + 2 + if DataSize(v).Some? then DataSize(v).value else 0
  {
    hide AddedTlv, DataSize, Readable;
    assert (ts + [AddedTlv(v)])[..|ts|] == ts && (ws + [v])[..|ws|] == ws;
  }

  /** What the i-th call is answered. */
  function AnswerTo(vs: seq<Value>, i: nat, bufSize: int): (r: int)
    requires i < |vs|
  {
    var o, n := DataSize(vs[i]), LengthOf(Taken(vs[..i], bufSize));
    if o.None? then -2 else if n + 2 + o.value > bufSize then -1 else n + 2 + o.value
  }

  lemma LengthAnswered(vs: seq<Value>, i: nat, bufSize: int, r: int)
    requires i < |vs|
    requires var o, n := DataSize(vs[i]), LengthOf(Taken(vs[..i], bufSize));
      r == if o.None? then -2 else if n + 2 + o.value > bufSize then -1 else n + 2 + o.value
    ensures r == AnswerTo(vs, i, bufSize)
  {
  }

  lemma AcceptedSizes(vs: seq<Value>, bufSize: int)
    requires forall v <- vs :: Readable(v)
    ensures forall i :: 0 <= i < |vs| ==>
      EncodedSize(Accepted(Offers(vs)[..i], bufSize)) == LengthOf(Taken(vs[..i], bufSize))
  {
    hide Accepted, EncodedSize, LengthOf, Taken, Readable, Offered, Match;
    forall i | 0 <= i < |vs|
      ensures EncodedSize(Accepted(Offers(vs)[..i], bufSize)) == LengthOf(Taken(vs[..i], bufSize))
    {
      assert forall v <- vs[..i] :: v in vs;
      assert Offers(vs)[..i] == Offers(vs[..i]);
      AcceptedIsTaken(vs[..i], bufSize);
    }
  }

  lemma SizeOffered(v: Value)
    requires Readable(v)
    ensures BadValue(v) <==> DataSize(v).None?
    ensures DataSize(v).Some? ==> Offered(v) == Some(AddedTlv(v)) && |AddedTlv(v).data| == DataSize(v).value
    ensures DataSize(v).None? ==> Offered(v).None?
  {
    if v.Integer? {
      TypeWords(v.kind);
    }
  }
}
