/** The batch encoder: `af_rpc_create_buffer_with_params`. */
module RpcEncoder {
  import opened Bytes
  import opened RpcFormat
  import opened RpcParams

  /** Where the encoder stands after these parameters, computed from their type words alone. */
  function ParamsSize(ps: seq<Param>): (n: int) {
    if ps == [] then LENGTH_SIZE
    else ParamsSize(ps[..|ps| - 1]) + TYPE_SIZE + SizeOfType(SentKind(ps[|ps| - 1]))
  }

  /** ... which is the size of the message they encode to. */
  lemma {:induction false} ParamsSizeIsEncodedSize(ps: seq<Param>)
    requires Sendable(ps)
    ensures ParamsSize(ps) == EncodedSize(TlvsOf(ps))
  {
    hide CanSend, SizeOfType, ValidType;
    if ps != [] {
      var rest := ps[..|ps| - 1];
      assert forall p <- rest :: p in ps;
      assert ps[|ps| - 1] in ps;
      ParamsSizeIsEncodedSize(rest);
      assert TlvsOf(ps)[..|ps| - 1] == TlvsOf(rest);
    }
  }

  /** Why a parameter cannot be written at `pos`; 0 if it can. */
  function Refusal(p: Param, pos: int, bufSize: int): (e: int)
    ensures e == 0 && Readable(p) ==> CanSend(p)
    ensures e == 0 ==> 0 <= SizeOfType(SentKind(p)) && pos + TYPE_SIZE + SizeOfType(SentKind(p)) <= bufSize
    ensures e == ERR_BAD_PARAM ==> pos + TYPE_SIZE < bufSize
    ensures e == 0 || e in {ERR_BAD_TYPE, ERR_BUFFER_OVERFLOW, ERR_BAD_PARAM}
  {
    var kind := SentKind(p);
    var size := SizeOfType(kind);
    ValidTypeTests(kind);
    if size < 0 || size > MAX_BLOB_SIZE then ERR_BAD_TYPE
    else if pos + TYPE_SIZE + size > bufSize then ERR_BUFFER_OVERFLOW
    else if IsInteger(kind) && kind % 0x1000 != 0 then ERR_BAD_TYPE
    else if IsBlob(kind) && size > 0 && p.base.Null? then ERR_BAD_PARAM
    else 0
  }

  /**
   A parameter is written exactly if its type word is valid, it is not a null blob of some size,
   and it fits.  If only the room is missing the answer says so; a null blob that would fit is a
   bad parameter; a bad type is reported as one, unless its data would not fit either.
   */
  lemma RefusalIff(p: Param, pos: int, bufSize: int)
    requires Readable(p)
    ensures var kind := p.kind % 65536;
      var size := SizeOfType(kind);
      var missing := p.base.Null? && kind % 16384 > 0;
      && (Refusal(p, pos, bufSize) == 0 <==> ValidType(kind) && !missing && pos + 2 + size <= bufSize)
      && (ValidType(kind) && pos + 2 + size > bufSize ==> Refusal(p, pos, bufSize) == -1)
      && (ValidType(kind) && missing && pos + 2 + size <= bufSize ==> Refusal(p, pos, bufSize) == -2)
      && (!ValidType(kind) && (size == -1 || pos + 2 + size <= bufSize) ==> Refusal(p, pos, bufSize) == -3)
      && (!ValidType(kind) && size != -1 && pos + 2 + size > bufSize ==> Refusal(p, pos, bufSize) == -1)
  {
    ValidTypeTests(SentKind(p));
    TypeWords(SentKind(p));
  }

  /** The first parameter that is refused, given that everything before it was written. */
  ghost predicate RefusedAt(ps: seq<Param>, i: nat, bufSize: int, e: int) {
    && i < |ps|
    && Sendable(ps[..i]) && ParamsSize(ps[..i]) <= bufSize
    && e != 0 && e == Refusal(ps[i], ParamsSize(ps[..i]), bufSize)
  }

  /** What the caller owes: the buffers are as long as it says, and no blob lies in the destination. */
  ghost predicate EncodeInput(buf: array?<byte>, bufSize: int, params: array?<Param>, numParams: int)
    reads params
  {
    && (buf != null ==> bufSize <= buf.Length)
    && (params != null ==> numParams <= params.Length)
    && (params != null ==> forall i :: 0 <= i < numParams ==>
          Readable(params[i]) && (params[i].base.Ptr? ==> params[i].base.mem != buf))
  }

  ghost predicate BadEncodeArguments(buf: array?<byte>, bufSize: int, params: array?<Param>, numParams: int) {
    buf == null || bufSize <= 0 || params == null || numParams < 0
  }

  lemma SendableExtend(ps: seq<Param>, i: nat)
    requires i < |ps| && Sendable(ps[..i]) && CanSend(ps[i])
    ensures Sendable(ps[..i + 1])
    ensures ParamsSize(ps[..i + 1]) == ParamsSize(ps[..i]) + TYPE_SIZE + SizeOfType(SentKind(ps[i]))
  {
    hide CanSend, SizeOfType;
    assert ps[..i + 1] == ps[..i] + [ps[i]];
    assert ps[..i + 1][..i] == ps[..i];
  }

  /** Writes one accepted parameter at `pos`: the type word, then the number or the blob. */
  method WriteParam(buf: array<byte>, pos: nat, p: Param, ghost bufSize: int) returns (next: nat)
    requires Readable(p) && Refusal(p, pos, bufSize) == 0
    requires bufSize <= buf.Length && (p.base.Ptr? ==> p.base.mem != buf)
    modifies buf
    ensures next == pos + TYPE_SIZE + |TlvOf(p).data| <= bufSize
    ensures TlvOf(p) == old(TlvOf(p))
    ensures buf[..] == Put(old(buf[..]), pos, TlvOf(p).Bytes())
  {
    hide BE, FromBE, Refusal, Put, ValidType, SizeOfType;
    var kind := SentKind(p);
    var size := SizeOfType(kind);
    ghost var was, t := buf[..], TlvOf(p);
    ValidTypeTests(kind);
    CopyInto(buf, pos, BE(kind, 2));
    next := pos + TYPE_SIZE;
    PutPut(was, pos, BE(kind, 2), t.data);
    if IsInteger(kind) {
      CopyInto(buf, next, BE(p.base.w % Modulus(size), size));
    } else if size > 0 {
      CopyInto(buf, next, p.base.mem[p.base.off..p.base.off + size]);
    } else {
      PutNothing(buf[..], next);
    }
    next := next + size;
  }

  /** The length word and everything past the end of the buffer are as they were. */
  ghost predicate Untouched(b: seq<byte>, was: seq<byte>, bufSize: int) {
    && LENGTH_SIZE <= bufSize <= |b| == |was|
    && b[..LENGTH_SIZE] == was[..LENGTH_SIZE]
    && b[bufSize..] == was[bufSize..]
  }

  lemma PutUntouched(b: seq<byte>, was: seq<byte>, bufSize: int, pos: nat, s: seq<byte>)
    requires Untouched(b, was, bufSize) && LENGTH_SIZE <= pos && pos + |s| <= bufSize
    ensures Untouched(Put(b, pos, s), was, bufSize)
  {
    var m := Put(b, pos, s);
    assert m[..LENGTH_SIZE] == b[..LENGTH_SIZE];
    assert m[bufSize..] == b[bufSize..];
  }

  /** One round of the encoder's loop, on a buffer that holds the parameters before this one. */
  method WriteNext(buf: array<byte>, bufSize: int, pos: nat, p: Param,
                   ghost was: seq<byte>, ghost before: seq<Tlv>)
    returns (r: int)
    requires LENGTH_SIZE <= pos <= bufSize <= buf.Length == |was|
    requires Readable(p) && (p.base.Ptr? ==> p.base.mem != buf)
    requires pos == LENGTH_SIZE + |Wire(before)| && buf[..] == Put(was, LENGTH_SIZE, Wire(before))
    modifies buf
    ensures r < 0 <==> Refusal(p, pos, bufSize) != 0
    ensures r < 0 ==> r == Refusal(p, pos, bufSize)
    ensures r < 0 ==> Untouched(buf[..], was, bufSize)
    ensures r >= 0 ==> TlvOf(p) == old(TlvOf(p))
    ensures r >= 0 ==>
      && r == pos + TYPE_SIZE + |TlvOf(p).data| <= bufSize
      && r == LENGTH_SIZE + |Wire(before + [TlvOf(p)])|
      && buf[..] == Put(was, LENGTH_SIZE, Wire(before + [TlvOf(p)]))
  {
    hide BE, FromBE, Refusal, SizeOfType, ValidType, Readable, CanSend, Put;
    var e := Refusal(p, pos, bufSize);
    if e != 0 {
      PutUntouched(was, was, bufSize, LENGTH_SIZE, Wire(before));
      if e == ERR_BAD_PARAM {
        // the type word of a null blob is already written when it is refused
        PutUntouched(buf[..], was, bufSize, pos, BE(SentKind(p), 2));
        CopyInto(buf, pos, BE(SentKind(p), 2));
      }
      return e;
    }
    WireAppend(before, TlvOf(p));
    PutPut(was, LENGTH_SIZE, Wire(before), TlvOf(p).Bytes());
    r := WriteParam(buf, pos, p, bufSize);
  }

  /** The encoder's loop and its last step, the length word. */
  method WriteParams(buf: array<byte>, bufSize: int, ps: seq<Param>) returns (r: int)
    requires LENGTH_SIZE <= bufSize <= buf.Length
    requires forall p <- ps :: Readable(p) && (p.base.Ptr? ==> p.base.mem != buf)
    modifies buf
    ensures r >= 0 <==> Sendable(ps) && ParamsSize(ps) <= bufSize
    ensures r >= 0 ==>
      && LENGTH_SIZE <= r == ParamsSize(ps)
      && r == LENGTH_SIZE + |Wire(old(TlvsOf(ps)))|
      && buf[..] == Put(old(buf[..]), 0, BE(r % 0x1_0000, 2) + Wire(old(TlvsOf(ps))))
    ensures r < 0 ==> exists i: nat :: RefusedAt(ps, i, bufSize, r)
    ensures r < 0 ==> Untouched(buf[..], old(buf[..]), bufSize)
  {
    hide BE, FromBE, Refusal, SizeOfType, ValidType, Put, ParamsSize, Readable, CanSend, Untouched;
    hide Wire, TlvOf, TlvsOf, Sendable, RefusedAt;
    var pos := LENGTH_SIZE;
    ghost var was, ts := buf[..], TlvsOf(ps);
    EncodeNothing(was, ps, ts);
    var i := 0;
    while i < |ps|
      invariant 0 <= i <= |ps|
      invariant Sendable(ps[..i]) && pos == ParamsSize(ps[..i]) && LENGTH_SIZE <= pos <= bufSize
      invariant pos == LENGTH_SIZE + |Wire(ts[..i])|
      invariant buf[..] == Put(was, LENGTH_SIZE, Wire(ts[..i]))
    {
      var next := WriteNext(buf, bufSize, pos, ps[i], was, ts[..i]);
      if next < 0 {
        RefusedCannotFit(ps, i, bufSize, next);
        return next;
      }
      SendableExtend(ps, i);
      assert ts[..i + 1] == ts[..i] + [ts[i]];
      pos := next;
      i := i + 1;
    }
    assert ps[..i] == ps && ts[..i] == ts;
    PutBefore(was, BE(pos % 0x1_0000, 2), Wire(ts));
    CopyInto(buf, 0, BE(pos % 0x1_0000, 2));
    return pos;
  }

  /**
   Succeeds exactly when every parameter can be sent and the message fits, and then
   leaves that message in the buffer (see `TruncatedUnless` for its length word).  Otherwise it
   reports the first refused parameter and has not touched the length word or anything past the
   end of the buffer.
   */
  method CreateBufferWithParams(buf: array?<byte>, bufSize: int, params: array?<Param>, numParams: int)
    returns (r: int)
    requires EncodeInput(buf, bufSize, params, numParams)
    modifies buf
    ensures BadEncodeArguments(buf, bufSize, params, numParams) ==> r == ERR_BAD_PARAM
    ensures !BadEncodeArguments(buf, bufSize, params, numParams) ==>
      var ps := params[..numParams];
      && (bufSize < LENGTH_SIZE ==> r == ERR_BUFFER_OVERFLOW)
      && (r >= 0 <==> bufSize >= LENGTH_SIZE && Sendable(ps) && ParamsSize(ps) <= bufSize)
      && (r >= 0 ==>
            && r == LENGTH_SIZE + |Wire(old(TlvsOf(ps)))| <= bufSize
            && buf[..] == Put(old(buf[..]), 0, BE(r % 0x1_0000, 2) + Wire(old(TlvsOf(ps)))))
      && (r < 0 && bufSize >= LENGTH_SIZE ==>
            && (exists i: nat :: RefusedAt(ps, i, bufSize, r))
            && Untouched(buf[..], old(buf[..]), bufSize))
  {
    hide BE, FromBE, Put, Readable, CanSend, ParamsSize, Untouched, RefusedAt, Wire;
    if buf == null || bufSize <= 0 || params == null || numParams < 0 {
      return ERR_BAD_PARAM;
    }
    if bufSize < LENGTH_SIZE {
      return ERR_BUFFER_OVERFLOW;
    }
    r := WriteParams(buf, bufSize, params[..numParams]);
  }

  lemma EncodeNothing(b: seq<byte>, ps: seq<Param>, ts: seq<Tlv>)
    requires |b| >= LENGTH_SIZE
    ensures Sendable(ps[..0]) && ParamsSize(ps[..0]) == LENGTH_SIZE
    ensures Wire(ts[..0]) == [] && Put(b, LENGTH_SIZE, []) == b
  {
    assert ps[..0] == [] && ts[..0] == [];
  }

  lemma {:induction false} ParamsSizeMonotone(ps: seq<Param>, i: nat)
    requires i <= |ps| && Sendable(ps)
    ensures ParamsSize(ps[..i]) <= ParamsSize(ps)
    decreases |ps|
  {
    if i == |ps| {
      assert ps[..i] == ps;
    } else {
      var rest := ps[..|ps| - 1];
      assert forall p <- rest :: p in ps;
      assert ps[|ps| - 1] in ps;
      ValidTypeTests(SentKind(ps[|ps| - 1]));
      assert rest[..i] == ps[..i];
      ParamsSizeMonotone(rest, i);
    }
  }

  /** A refusal is final: the list cannot both be sendable and fit. */
  lemma RefusedCannotFit(ps: seq<Param>, i: nat, bufSize: int, e: int)
    requires i < |ps| && Sendable(ps[..i]) && ParamsSize(ps[..i]) <= bufSize
    requires e != 0 && e == Refusal(ps[i], ParamsSize(ps[..i]), bufSize)
    ensures RefusedAt(ps, i, bufSize, e)
    ensures e < 0 && !(Sendable(ps) && ParamsSize(ps) <= bufSize)
  {
    if Sendable(ps) && ParamsSize(ps) <= bufSize {
      assert ps[i] in ps;
      ParamsSizeMonotone(ps, i + 1);
      assert ps[..i + 1][..i] == ps[..i];
      ValidTypeTests(SentKind(ps[i]));
      assert false;
    }
  }
}
