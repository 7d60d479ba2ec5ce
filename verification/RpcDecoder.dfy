/** The batch decoder, `af_rpc_get_params_from_buffer`, and what a message is to it. */
module RpcDecoder {
  import opened Bytes
  import opened RpcFormat
  import opened RpcParams

  /** What strict mode wants of a parameter: the same integer type, or both blobs. */
  predicate Matches(kind: u16, expected: u32) {
    if IsInteger(kind) then expected == kind else IsBlob(expected)
  }

  /** Why the parameter at the front of these bytes is refused; 0 if it is not. */
  function ParamRefusal(s: seq<byte>, expected: u32, strict: bool): (e: int)
    ensures e == 0 || e == ERR_BAD_TLV || e == ERR_BAD_TYPE
  {
    if |s| < TYPE_SIZE then ERR_BAD_TLV
    else
      var kind := FromBE(s[..TYPE_SIZE]);
      var size := SizeOfType(kind);
      if TYPE_SIZE + size > |s| then ERR_BAD_TLV
      else if IsInteger(kind) then
        if kind % 0x1000 != 0 then ERR_BAD_TYPE
        else if strict && expected != kind then ERR_BAD_TYPE
        else if size < 0 then ERR_BAD_TYPE
        else 0
      else if strict && !IsBlob(expected) then ERR_BAD_TYPE
      else 0
  }

  /** The parameter at the front of some bytes. */
  function Front(s: seq<byte>): (t: Tlv)
    requires |s| >= TYPE_SIZE
    requires var kind := FromBE(s[..TYPE_SIZE]); ValidType(kind) && TYPE_SIZE + SizeOfType(kind) <= |s|
    ensures t.Valid() && t.Bytes() <= s
  {
    var kind := FromBE(s[..TYPE_SIZE]);
    ValidTypeTests(kind);
    BEOfFromBE(s[..TYPE_SIZE]);
    Tlv(kind, s[TYPE_SIZE..TYPE_SIZE + SizeOfType(kind)])
  }

  lemma NotRefused(s: seq<byte>, expected: u32, strict: bool)
    requires ParamRefusal(s, expected, strict) == 0
    ensures |s| >= TYPE_SIZE
    ensures var kind := FromBE(s[..TYPE_SIZE]);
      && ValidType(kind) && 0 <= SizeOfType(kind) && TYPE_SIZE + SizeOfType(kind) <= |s|
      && (strict ==> Matches(kind, expected))
  {
    ValidTypeTests(FromBE(s[..TYPE_SIZE]));
  }

  /** A valid parameter followed by anything is refused only by strict mode, and only on a mismatch. */
  lemma ValidIsRefusedIff(t: Tlv, rest: seq<byte>, expected: u32, strict: bool)
    requires t.Valid()
    ensures ParamRefusal(t.Bytes() + rest, expected, strict) == 0 <==> (strict ==> Matches(t.kind, expected))
  {
    hide BE, FromBE, SizeOfType, ValidType;
    var s := t.Bytes() + rest;
    ValidTypeTests(t.kind);
    FromBEOfBE(t.kind, 2);
    assert s[..TYPE_SIZE] == BE(t.kind, 2);
  }

  /** The parameters read so far: valid, at the front of the body, and as expected. */
  ghost predicate ReadSoFar(body: seq<byte>, exps: seq<u32>, strict: bool, ts: seq<Tlv>) {
    && AllValid(ts)
    && |ts| <= |exps|
    && Wire(ts) <= body
    && (strict ==> forall i :: 0 <= i < |ts| ==> Matches(ts[i].kind, exps[i]))
  }

  /** The bytes between the length word and the declared end. */
  function Body(b: seq<byte>): (s: seq<byte>)
    requires LENGTH_SIZE <= |b| && LengthWord(b) <= |b|
  {
    if LengthWord(b) < LENGTH_SIZE then [] else b[LENGTH_SIZE..LengthWord(b)]
  }

  /** The decoder's answer once it has read `ts` and can read no more. */
  function Verdict(rest: seq<byte>, exps: seq<u32>, strict: bool, n: nat, atEnd: bool): (r: int)
    requires n <= |exps|
  {
    if rest == [] then
      if strict && n != |exps| then ERR_WRONG_NUM_PARAMS
      else if !atEnd then ERR_BAD_TLV
      else n
    else if n == |exps| then 0
    else ParamRefusal(rest, exps[n], strict)
  }

  /** `r` is the answer to the bytes `b`, given after the parameters `ts` were read. */
  ghost predicate Outcome(b: seq<byte>, exps: seq<u32>, strict: bool, ts: seq<Tlv>, r: int) {
    if |b| < LENGTH_SIZE || LengthWord(b) > |b| then ts == [] && r == ERR_BAD_TLV
    else
      && ReadSoFar(Body(b), exps, strict, ts)
      && var rest := Body(b)[|Wire(ts)|..];
      && (rest != [] && |ts| < |exps| ==> ParamRefusal(rest, exps[|ts|], strict) != 0)
      && r == Verdict(rest, exps, strict, |ts|, LENGTH_SIZE + |Body(b)| == |b|)
  }

  /** The layout is a prefix code: of two lists laid out at the front of the same bytes, one extends the other. */
  lemma {:induction false} WirePrefix(a: seq<Tlv>, b: seq<Tlv>, s: seq<byte>)
    requires AllValid(a) && AllValid(b) && |a| <= |b|
    requires Wire(a) <= s && Wire(b) <= s
    ensures a <= b
  {
    hide BE, FromBE, ValidType, SizeOfType;
    if a != [] {
      assert a[0] in a && b[0] in b;
      FrontUnique(a[0], Wire(a[1..]), b[0], Wire(b[1..]), s);
      var n := |a[0].Bytes()|;
      assert Wire(a[1..]) == Wire(a)[n..] && Wire(b[1..]) == Wire(b)[n..];
      WirePrefix(a[1..], b[1..], s[n..]);
      assert a == [a[0]] + a[1..] && b == [b[0]] + b[1..];
    }
  }

  lemma FrontUnique(t: Tlv, x: seq<byte>, u: Tlv, y: seq<byte>, s: seq<byte>)
    requires t.Valid() && u.Valid()
    requires t.Bytes() + x <= s && u.Bytes() + y <= s
    ensures t == u
  {
    hide BE, FromBE, ValidType, SizeOfType;
    assert s[..TYPE_SIZE] == t.Bytes()[..TYPE_SIZE] == BE(t.kind, 2);
    assert s[..TYPE_SIZE] == u.Bytes()[..TYPE_SIZE] == BE(u.kind, 2);
    FromBEOfBE(t.kind, 2);
    FromBEOfBE(u.kind, 2);
    assert t.data == s[TYPE_SIZE..TYPE_SIZE + |t.data|] == u.data;
  }

  /** If more parameters could be read, the decoder has not stopped. */
  lemma StoppedIsLongest(body: seq<byte>, exps: seq<u32>, strict: bool, ts: seq<Tlv>, us: seq<Tlv>)
    requires ReadSoFar(body, exps, strict, ts) && ReadSoFar(body, exps, strict, us)
    requires var rest := body[|Wire(ts)|..];
      rest != [] && |ts| < |exps| ==> ParamRefusal(rest, exps[|ts|], strict) != 0
    ensures |us| <= |ts|
  {
    if |us| > |ts| {
      hide ParamRefusal, Matches, Wire;
      WirePrefix(ts, us, body);
      var t := us[|ts|];
      var rest := body[|Wire(ts)|..];
      NextOnWire(ts, us, body);
      ValidIsRefusedIff(t, rest[|t.Bytes()|..], exps[|ts|], strict);
    }
  }

  /** Of a longer list, the parameter after the shorter one is the next on the wire. */
  lemma NextOnWire(ts: seq<Tlv>, us: seq<Tlv>, body: seq<byte>)
    requires ts < us && Wire(us) <= body
    ensures Wire(ts) <= body
    ensures var t, rest := us[|ts|], body[|Wire(ts)|..];
      |t.Bytes()| <= |rest| && rest == t.Bytes() + rest[|t.Bytes()|..]
  {
    hide Wire;
    var t, later := us[|ts|], us[|ts| + 1..];
    assert us == (ts + [t]) + later;
    WireConcat(ts + [t], later);
    WireAppend(ts, t);
    var n, m := |Wire(ts)|, |Wire(ts + [t])|;
    assert body[..m] == Wire(ts + [t]) == Wire(ts) + t.Bytes();
    assert body[n..m] == t.Bytes();
    assert body == body[..n] + (body[n..m] + body[m..]);
  }

  /** `Outcome` determines the answer: no buffer has two. */
  lemma OutcomeUnique(b: seq<byte>, exps: seq<u32>, strict: bool, ts: seq<Tlv>, r: int, us: seq<Tlv>, q: int)
    requires Outcome(b, exps, strict, ts, r) && Outcome(b, exps, strict, us, q)
    ensures ts == us && r == q
  {
    if |b| >= LENGTH_SIZE && LengthWord(b) <= |b| {
      hide ParamRefusal, LengthWord;
      StoppedIsLongest(Body(b), exps, strict, ts, us);
      StoppedIsLongest(Body(b), exps, strict, us, ts);
      WirePrefix(ts, us, Body(b));
    }
  }

  /** What strict and permissive mode ask of the parameters of a well-formed message. */
  ghost predicate AsExpected(ts: seq<Tlv>, exps: seq<u32>, strict: bool) {
    if strict
    then |ts| == |exps| && forall i :: 0 <= i < |ts| ==> Matches(ts[i].kind, exps[i])
    else |ts| <= |exps|
  }

  /**
   A buffer is accepted with n >= 1 parameters exactly when it is, byte for byte, the
   message of n parameters that are as expected.
   */
  lemma AcceptedIff(b: seq<byte>, exps: seq<u32>, strict: bool, ts: seq<Tlv>, n: int)
    requires n >= 1
    ensures Outcome(b, exps, strict, ts, n) <==> Holds(b, ts) && |ts| == n && AsExpected(ts, exps, strict)
  {
    hide BE, FromBE, ParamRefusal, Matches, LengthWord;
    if Outcome(b, exps, strict, ts, n) {
      assert Wire(ts) == Body(b) == b[LENGTH_SIZE..];
      ParseOfWire(ts);
    }
    if Holds(b, ts) && |ts| == n && AsExpected(ts, exps, strict) {
      WireOfParse(b[LENGTH_SIZE..]);
      assert Wire(ts) == Body(b);
    }
  }

  /** Strict mode accepts exactly what permissive mode accepts and finds as expected, with the same parameters. */
  lemma StrictIff(b: seq<byte>, exps: seq<u32>, ts: seq<Tlv>, n: int)
    requires n >= 1
    ensures Outcome(b, exps, true, ts, n)
       <==> (&& Outcome(b, exps, false, ts, n)
             && n == |exps|
             && forall i :: 0 <= i < n ==> Matches(ts[i].kind, exps[i]))
  {
    hide Matches;
    AcceptedIff(b, exps, true, ts, n);
    AcceptedIff(b, exps, false, ts, n);
  }

  /** The type word is what strict mode expects: the same integer type, or both blobs. */
  predicate SameType(kind: u16, expected: u32) {
    if kind >= 32768 then expected == kind else expected % 65536 < 32768
  }

  lemma MatchesIsSameType(kind: u16, expected: u32)
    ensures Matches(kind, expected) <==> SameType(kind, expected)
  {
    TypeWords(kind);
  }

  /**
   The answer to a well-formed message, in either mode.  Permissive mode returns the count, or
   0 for want of room.  Strict mode reads up to the first parameter that is not of the type
   expected and says so; if there is none, it returns the count, or says that it is too low.
   */
  lemma AnswerToMessage(b: seq<byte>, exps: seq<u32>, strict: bool, ts: seq<Tlv>, us: seq<Tlv>, r: int)
    requires Holds(b, ts) && Outcome(b, exps, strict, us, r)
    ensures us <= ts && |us| <= |exps|
    ensures strict ==> forall i :: 0 <= i < |us| ==> SameType(ts[i].kind, exps[i])
    ensures |us| < |ts| && |us| < |exps| ==> strict && !SameType(ts[|us|].kind, exps[|us|]) && r == -3
    ensures |us| < |ts| && |us| == |exps| ==> r == 0
    ensures |us| == |ts| ==> r == if strict && |ts| < |exps| then -6 else |ts|
  {
    hide BE, FromBE, LengthWord, Matches, ParamRefusal, SameType, ReadSoFar, Verdict, Wire;
    HeldBody(b, ts);
    WhatIsRead(Wire(ts), exps, strict, ts, us);
    forall i | 0 <= i < |us| ensures strict ==> SameType(ts[i].kind, exps[i]) {
      MatchesRead(Wire(ts), exps, strict, us, i);
    }
    VerdictOnMessage(Wire(ts), exps, strict, ts, us);
  }

  lemma HeldBody(b: seq<byte>, ts: seq<Tlv>)
    requires Holds(b, ts)
    ensures AllValid(ts) && LENGTH_SIZE <= |b| && LengthWord(b) == |b| && Body(b) == Wire(ts)
  {
    hide BE, FromBE, Wire;
    HeldIsMessage(b, ts);
  }

  lemma MatchesRead(body: seq<byte>, exps: seq<u32>, strict: bool, us: seq<Tlv>, i: nat)
    requires ReadSoFar(body, exps, strict, us) && i < |us|
    ensures strict ==> SameType(us[i].kind, exps[i])
  {
    MatchesIsSameType(us[i].kind, exps[i]);
  }

  lemma WhatIsRead(body: seq<byte>, exps: seq<u32>, strict: bool, ts: seq<Tlv>, us: seq<Tlv>)
    requires AllValid(ts) && body == Wire(ts) && ReadSoFar(body, exps, strict, us)
    ensures us <= ts && |us| <= |exps| && Wire(us) <= body
    ensures |us| == |ts| <==> body[|Wire(us)|..] == []
    ensures |us| < |ts| ==> body[|Wire(us)|..] == ts[|us|].Bytes() + Wire(ts[|us| + 1..])
  {
    hide Matches, Wire;
    if |us| > |ts| {
      WirePrefix(ts, us, body);
      NextOnWire(ts, us, body);
      assert false;
    }
    WirePrefix(us, ts, body);
    if |us| < |ts| {
      var t, later := ts[|us|], ts[|us| + 1..];
      assert ts == us + ([t] + later);
      WireConcat(us, [t] + later);
      WireFirst(t, later);
      assert body[|Wire(us)|..] == t.Bytes() + Wire(later);
    } else {
      assert us == ts;
    }
  }

  lemma WireFirst(t: Tlv, rest: seq<Tlv>)
    ensures Wire([t] + rest) == t.Bytes() + Wire(rest)
  {
    assert ([t] + rest)[1..] == rest;
  }

  lemma VerdictOnMessage(body: seq<byte>, exps: seq<u32>, strict: bool, ts: seq<Tlv>, us: seq<Tlv>)
    requires AllValid(ts) && body == Wire(ts) && us <= ts && |us| <= |exps| && Wire(us) <= body
    requires |us| == |ts| <==> body[|Wire(us)|..] == []
    requires |us| < |ts| ==> body[|Wire(us)|..] == ts[|us|].Bytes() + Wire(ts[|us| + 1..])
    requires var rest := body[|Wire(us)|..];
      rest != [] && |us| < |exps| ==> ParamRefusal(rest, exps[|us|], strict) != 0
    ensures var r := Verdict(body[|Wire(us)|..], exps, strict, |us|, true);
      && (|us| < |ts| && |us| < |exps| ==> strict && !SameType(ts[|us|].kind, exps[|us|]) && r == -3)
      && (|us| < |ts| && |us| == |exps| ==> r == 0)
      && (|us| == |ts| ==> r == if strict && |ts| < |exps| then -6 else |ts|)
  {
    hide Wire, Matches, SameType;
    if |us| < |ts| && |us| < |exps| {
      var t := ts[|us|];
      assert t in ts;
      ValidIsRefusedIff(t, Wire(ts[|us| + 1..]), exps[|us|], strict);
      MatchesIsSameType(t.kind, exps[|us|]);
      MismatchCode(t, Wire(ts[|us| + 1..]), exps[|us|], strict);
    }
  }

  lemma MismatchCode(t: Tlv, rest: seq<byte>, expected: u32, strict: bool)
    requires t.Valid() && ParamRefusal(t.Bytes() + rest, expected, strict) != 0
    ensures ParamRefusal(t.Bytes() + rest, expected, strict) == -3
  {
    hide BE, FromBE, SizeOfType, ValidType;
    var s := t.Bytes() + rest;
    ValidTypeTests(t.kind);
    FromBEOfBE(t.kind, 2);
    assert s[..TYPE_SIZE] == BE(t.kind, 2);
  }

  /** A buffer shorter than its length word says is bad, and nothing is read from it. */
  lemma ShortBuffer(b: seq<byte>, exps: seq<u32>, strict: bool, r: int, us: seq<Tlv>)
    requires Outcome(b, exps, strict, us, r) && (|b| < LENGTH_SIZE || LengthWord(b) > |b|)
    ensures r == -4 && us == []
  {
  }

  /** Well-formed parameters that end before the buffer does are bad, if there is room for them. */
  lemma TrailingBytes(b: seq<byte>, exps: seq<u32>, ts: seq<Tlv>, r: int, us: seq<Tlv>)
    requires Outcome(b, exps, false, us, r) && |b| >= LENGTH_SIZE && LENGTH_SIZE <= LengthWord(b) < |b|
    requires AllValid(ts) && |ts| <= |exps| && b[LENGTH_SIZE..LengthWord(b)] == Wire(ts)
    ensures r == -4
  {
    hide BE, FromBE, LengthWord, Matches, ParamRefusal, Wire;
    WhatIsRead(Wire(ts), exps, false, ts, us);
    if |us| < |ts| {
      assert ts[|us|] in ts;
      ValidIsRefusedIff(ts[|us|], Wire(ts[|us| + 1..]), exps[|us|], false);
    }
  }

  /** A parameter that is cut short is bad. */
  lemma CutParameter(t: Tlv, k: nat, expected: u32, strict: bool)
    requires t.Valid() && 0 < k < |t.Bytes()|
    ensures ParamRefusal(t.Bytes()[..k], expected, strict) == -4
  {
    hide BE, FromBE, SizeOfType, ValidType;
    ValidTypeTests(t.kind);
    FromBEOfBE(t.kind, 2);
    if k >= TYPE_SIZE {
      assert t.Bytes()[..k][..TYPE_SIZE] == BE(t.kind, 2);
    }
  }

  /** A type word that stands for nothing is a bad type, whatever is expected, if enough bytes follow it. */
  lemma InvalidType(kind: u16, rest: seq<byte>, expected: u32, strict: bool)
    requires !ValidType(kind) && |rest| >= 4
    ensures ParamRefusal(BE(kind, 2) + rest, expected, strict) == -3
  {
    hide BE, FromBE;
    FromBEOfBE(kind, 2);
    TypeWords(kind);
    ValidTypeTests(kind);
    assert (BE(kind, 2) + rest)[..TYPE_SIZE] == BE(kind, 2);
  }

  /** Decoding is injective: two buffers accepted with the same parameters are the same bytes. */
  lemma DecodingInjective(b: seq<byte>, c: seq<byte>, exps: seq<u32>, exps': seq<u32>, ts: seq<Tlv>, n: int)
    requires n >= 1
    requires Outcome(b, exps, false, ts, n) && Outcome(c, exps', false, ts, n)
    ensures b == c
  {
    AcceptedIff(b, exps, false, ts, n);
    AcceptedIff(c, exps', false, ts, n);
    HeldIsMessage(b, ts);
    HeldIsMessage(c, ts);
  }

  /**
   The answer 0 is ambiguous: it means an empty message (whose length word may also be
   0 or 1), or more parameters than the caller made room for.
   */
  lemma ZeroIff(b: seq<byte>, exps: seq<u32>, strict: bool, ts: seq<Tlv>)
    ensures Outcome(b, exps, strict, ts, 0) <==>
      || (&& |b| == LENGTH_SIZE && LengthWord(b) <= LENGTH_SIZE
          && ts == [] && (strict ==> exps == []))
      || (&& |b| >= LENGTH_SIZE && LengthWord(b) <= |b|
          && |ts| == |exps| && ReadSoFar(Body(b), exps, strict, ts) && Wire(ts) < Body(b))
  {
    hide ParamRefusal, Matches, LengthWord;
    if Outcome(b, exps, strict, ts, 0) && Body(b)[|Wire(ts)|..] == [] {
      assert ts == [];
    }
    assert Wire([]) == [];
  }

  /** A message of one parameter, decoded with no room for any, is answered like an empty one. */
  lemma OneParameterNoRoom()
    ensures var b := [0, 5, 0x90, 0, 7];
      Holds(b, [Tlv(TYPE_UINT8, [7])]) && Outcome(b, [], false, [], 0)
  {
    var b, t := [0, 5, 0x90, 0, 7], Tlv(TYPE_UINT8, [7]);
    assert b[..LENGTH_SIZE] == [0, 5] && LengthWord(b) == 5;
    assert Wire([t]) == t.Bytes() + [] == [0x90, 0, 7];
    assert Message([t]) == b;
    assert AllValid([t]);
    MessageHolds([t]);
    assert Wire([]) == [];
    ZeroIff(b, [], false, []);
  }

  /** The parameter structure the decoder fills in: the widened number, or the address of the blob in the buffer. */
  ghost function DecodedParam(t: Tlv, buf: array<byte>, off: nat): (p: Param)
    requires t.Valid()
  {
    if IsInteger(t.kind) then Param(Word(DecodedWord(t)), t.kind)
    else Param(Ptr(buf, off + TYPE_SIZE), t.kind)
  }

  /** The offset of the i-th parameter of a message. */
  function OffsetOf(ts: seq<Tlv>, i: nat): (n: nat)
    requires i <= |ts|
    ensures n >= LENGTH_SIZE
  {
    LENGTH_SIZE + |Wire(ts[..i])|
  }

  ghost predicate DecodedParams(ps: seq<Param>, ts: seq<Tlv>, buf: array<byte>) {
    && AllValid(ts) && |ts| == |ps|
    && forall i :: 0 <= i < |ts| ==> ps[i] == DecodedParam(ts[i], buf, OffsetOf(ts, i))
  }

  function Kinds(ps: seq<Param>): (ks: seq<u32>) {
    seq(|ps|, i requires 0 <= i < |ps| => ps[i].kind)
  }

  /** Reading the number of the given type at `pos`, as the `switch` of the decoder does. */
  method ReadInteger(buf: array<byte>, pos: nat, kind: u16) returns (w: int)
    requires IsInteger(kind) && ValidType(kind) && 0 <= SizeOfType(kind) && pos + SizeOfType(kind) <= buf.Length
    ensures Tlv(kind, buf[pos..pos + SizeOfType(kind)]).Valid()
    ensures w == DecodedWord(Tlv(kind, buf[pos..pos + SizeOfType(kind)]))
  {
    ValidTypeTests(kind);
    SignedKinds(kind);
    var v := FromBE(buf[pos..pos + SizeOfType(kind)]);
    if kind == TYPE_INT8 {
      w := if v >= 0x80 then v - 0x100 else v;
    } else if kind == TYPE_INT16 {
      w := v;
      if v / 0x8000 % 2 == 1 {
        w := w + 0xFFFF_0000;
      }
    } else {
      w := v;
    }
  }

  /** What the caller owes: the buffer and the parameter array are as long as it says. */
  predicate DecodeInput(params: array?<Param>, numParams: int, buf: array?<byte>, bufSize: int) {
    && (buf != null ==> bufSize <= buf.Length)
    && (params != null ==> numParams <= params.Length)
  }

  predicate BadDecodeArguments(params: array?<Param>, numParams: int, buf: array?<byte>, bufSize: int) {
    params == null || numParams < 0 || buf == null || bufSize <= 0
  }

  /** One round of the decoder's loop; `next` is negative for a refusal. */
  method ReadNext(params: array<Param>, param: nat, buf: array<byte>, pos: nat, len: nat, permissive: int)
    returns (next: int)
    requires param < params.Length && pos < len <= buf.Length
    modifies params
    ensures forall i :: 0 <= i < params.Length && i != param ==> params[i] == old(params[i])
    ensures next < 0 <==> ParamRefusal(buf[pos..len], old(params[param].kind), permissive == 0) != 0
    ensures next < 0 ==> next == ParamRefusal(buf[pos..len], old(params[param].kind), permissive == 0)
    ensures next >= 0 ==>
      && var s := buf[pos..len];
      && |s| >= TYPE_SIZE && ValidType(FromBE(s[..TYPE_SIZE])) && TYPE_SIZE + SizeOfType(FromBE(s[..TYPE_SIZE])) <= |s|
      && next == pos + |Front(s).Bytes()|
      && params[param] == DecodedParam(Front(s), buf, pos)
  {
    hide BE, FromBE, DecodedWord;
    ghost var s, exp := buf[pos..len], params[param].kind;
    if pos + TYPE_SIZE > len {
      return ERR_BAD_TLV;
    }
    var kind := FromBE(buf[pos..pos + TYPE_SIZE]);
    var at := pos + TYPE_SIZE;
    SliceOfSlice(buf[..], pos, len, 0, TYPE_SIZE);
    var size := SizeOfType(kind);
    ValidTypeTests(kind);
    if at + size > len {
      return ERR_BAD_TLV;
    }
    var expType := params[param].kind;
    if IsInteger(kind) {
      if kind % 0x1000 != 0 {
        return ERR_BAD_TYPE;
      }
      if permissive == 0 && expType != kind {
        return ERR_BAD_TYPE;
      }
      params[param] := params[param].(kind := kind);
      if size < 0 {
        // the two "any size" types end in the default branch of the switch
        return ERR_BAD_TYPE;
      }
      var w := ReadInteger(buf, at, kind);
      SliceOfSlice(buf[..], pos, len, TYPE_SIZE, TYPE_SIZE + size);
      params[param] := params[param].(base := Word(w));
    } else {
      if permissive == 0 && !IsBlob(expType) {
        return ERR_BAD_TYPE;
      }
      params[param] := Param(Ptr(buf, at), kind);
    }
    next := at + size;
  }

  /** Reading one more parameter keeps what was read before. */
  lemma ReadOneMore(body: seq<byte>, exps: seq<u32>, strict: bool, ts: seq<Tlv>, t: Tlv)
    requires ReadSoFar(body, exps, strict, ts) && |ts| < |exps|
    requires t.Valid() && t.Bytes() <= body[|Wire(ts)|..]
    requires strict ==> Matches(t.kind, exps[|ts|])
    ensures ReadSoFar(body, exps, strict, ts + [t])
    ensures |Wire(ts + [t])| == |Wire(ts)| + |t.Bytes()|
  {
    hide Wire, Matches, ValidType, SizeOfType, BE;
    WireAppend(ts, t);
    var n := |Wire(ts)|;
    assert body == body[..n] + body[n..] == Wire(ts) + body[n..];
  }

  lemma DecodedOneMore(ps: seq<Param>, ts: seq<Tlv>, buf: array<byte>, t: Tlv, p: Param)
    requires DecodedParams(ps, ts, buf) && t.Valid() && p == DecodedParam(t, buf, LENGTH_SIZE + |Wire(ts)|)
    ensures DecodedParams(ps + [p], ts + [t], buf)
  {
    hide DecodedParam, Wire;
    var us, qs := ts + [t], ps + [p];
    assert ts[..|ts|] == ts && AllValid(us);
    forall i | 0 <= i < |us| ensures us[i].Valid() && qs[i] == DecodedParam(us[i], buf, OffsetOf(us, i)) {
      assert us[..i] == ts[..i];
    }
  }

  /** The decoder's loop: reads parameters up to the declared end, or stops with an error, or for want of room. */
  method ReadParams(params: array<Param>, numParams: nat, buf: array<byte>, len: nat, permissive: int)
    returns (stopped: bool, r: int, pos: nat, ghost ts: seq<Tlv>)
    requires numParams <= params.Length && len <= buf.Length
    modifies params
    ensures var body := if len < LENGTH_SIZE then [] else buf[LENGTH_SIZE..len];
      var exps := old(Kinds(params[..numParams]));
      && ReadSoFar(body, exps, permissive == 0, ts)
      && var rest := body[|Wire(ts)|..];
      && (stopped <==> rest != [])
      && (stopped && |ts| < numParams ==> r == ParamRefusal(rest, exps[|ts|], permissive == 0) < 0)
      && (stopped && |ts| == numParams ==> r == 0)
      && (!stopped ==> r == |ts|)
      && pos == LENGTH_SIZE + |Wire(ts)|
      && (!stopped ==> pos == LENGTH_SIZE + |body|)
    ensures |ts| <= numParams && DecodedParams(params[..|ts|], ts, buf)
    ensures forall i :: |ts| < i < params.Length ==> params[i] == old(params[i])
    ensures r >= 0 && |ts| < params.Length ==> params[|ts|] == old(params[|ts|])
  {
    hide BE, FromBE, ParamRefusal, Matches, DecodedWord, SizeOfType, ValidType, DecodedParam, DecodedParams, ReadSoFar;
    hide Wire, AllValid;
    ghost var exps, strict := Kinds(params[..numParams]), permissive == 0;
    ghost var body := if len < LENGTH_SIZE then [] else buf[LENGTH_SIZE..len];
    StartReading(body, exps, strict, buf);
    ts := [];
    assert params[..0] == [];
    pos := LENGTH_SIZE;
    var param := 0;
    while pos < len
      invariant LENGTH_SIZE <= pos == LENGTH_SIZE + |Wire(ts)| <= LENGTH_SIZE + |body|
      invariant param == |ts| <= numParams
      invariant ReadSoFar(body, exps, strict, ts)
      invariant DecodedParams(params[..param], ts, buf)
      invariant forall i :: param <= i < params.Length ==> params[i] == old(params[i])
    {
      ghost var rest := buf[pos..len];
      assert body[|Wire(ts)|..] == rest;
      if param >= numParams {
        return true, 0, pos, ts;
      }
      ghost var ps := params[..param];
      var next := ReadNext(params, param, buf, pos, len, permissive);
      assert params[..param] == ps;
      if next < 0 {
        return true, next, pos, ts;
      }
      NotRefused(rest, exps[param], strict);
      ReadOneMore(body, exps, strict, ts, Front(rest));
      DecodedOneMore(ps, ts, buf, Front(rest), params[param]);
      assert params[..param + 1] == ps + [params[param]];
      ts := ts + [Front(rest)];
      pos := next;
      param := param + 1;
    }
    assert body[|Wire(ts)|..] == [];
    return false, param, pos, ts;
  }

  /**
   The answer is the one `Outcome` gives for the buffer's bytes, and the parameters read
   are left in the array; the array beyond the one last looked at is as it was.
   */
  method GetParamsFromBuffer(params: array?<Param>, numParams: int, buf: array?<byte>, bufSize: int, permissive: int)
    returns (r: int, ghost ts: seq<Tlv>)
    requires DecodeInput(params, numParams, buf, bufSize)
    modifies params
    ensures BadDecodeArguments(params, numParams, buf, bufSize) ==>
      && r == ERR_BAD_PARAM
      && (params != null ==> params[..] == old(params[..]))
    ensures !BadDecodeArguments(params, numParams, buf, bufSize) ==>
      && Outcome(buf[..bufSize], old(Kinds(params[..numParams])), permissive == 0, ts, r)
      && |ts| <= numParams
      && DecodedParams(params[..|ts|], ts, buf)
      && (forall i :: |ts| < i < params.Length ==> params[i] == old(params[i]))
      && (r >= 0 && |ts| < params.Length ==> params[|ts|] == old(params[|ts|]))
  {
    hide BE, FromBE, ParamRefusal, Matches, DecodedParam, DecodedParams, ReadSoFar, Wire, AllValid;
    ts := [];
    if params == null || numParams < 0 || buf == null || bufSize <= 0 {
      return ERR_BAD_PARAM, ts;
    }
    ghost var b := buf[..bufSize];
    StartReading([], Kinds(params[..numParams]), permissive == 0, buf);
    assert params[..0] == [];
    if bufSize < LENGTH_SIZE {
      return ERR_BAD_TLV, ts;
    }
    assert buf[..LENGTH_SIZE] == b[..LENGTH_SIZE];
    var len := FromBE(buf[..LENGTH_SIZE]);
    if len > bufSize {
      return ERR_BAD_TLV, ts;
    }
    if len >= LENGTH_SIZE {
      SliceOfSlice(buf[..], 0, bufSize, LENGTH_SIZE, len);
      assert buf[..][LENGTH_SIZE..len] == buf[LENGTH_SIZE..len] && buf[..][..bufSize] == b;
    }
    var stopped, pos;
    stopped, r, pos, ts := ReadParams(params, numParams, buf, len, permissive);
    if stopped {
      return r, ts;
    }
    if permissive == 0 && r != numParams {
      return ERR_WRONG_NUM_PARAMS, ts;
    }
    if pos != bufSize {
      return ERR_BAD_TLV, ts;
    }
  }

  lemma StartReading(body: seq<byte>, exps: seq<u32>, strict: bool, buf: array<byte>)
    ensures ReadSoFar(body, exps, strict, []) && DecodedParams([], [], buf) && Wire([]) == []
  {
  }

  /** What the decoder leaves in the array means exactly the parameters of the message. */
  lemma DecodedMeans(ps: seq<Param>, ts: seq<Tlv>, buf: array<byte>, n: nat)
    requires n <= buf.Length && Holds(buf[..n], ts) && DecodedParams(ps, ts, buf)
    ensures Sendable(ps) && TlvsOf(ps) == ts
    ensures forall i :: 0 <= i < |ts| ==> ps[i].kind == ts[i].kind
  {
    hide BE, FromBE, Parse, ValidType, SizeOfType, Wire;
    HeldIsMessage(buf[..n], ts);
    forall i | 0 <= i < |ts| ensures CanSend(ps[i]) && TlvOf(ps[i]) == ts[i] {
      assert ts[i] in ts;
      MeansOne(ps[i], ts, i, buf, n);
    }
  }

  lemma WireAt(ts: seq<Tlv>, i: nat)
    requires i < |ts|
    ensures var k := |Wire(ts[..i])|;
      k + |ts[i].Bytes()| <= |Wire(ts)| && Wire(ts)[k..k + |ts[i].Bytes()|] == ts[i].Bytes()
  {
    assert ts == ts[..i] + ([ts[i]] + ts[i + 1..]);
    WireConcat(ts[..i], [ts[i]] + ts[i + 1..]);
    assert ([ts[i]] + ts[i + 1..])[1..] == ts[i + 1..];
  }

  /** Where the i-th parameter is in a buffer that starts with a message. */
  lemma InMessage(b: seq<byte>, ts: seq<Tlv>, i: nat)
    requires i < |ts| && LENGTH_SIZE + |Wire(ts)| < 0x1_0000 && Message(ts) <= b
    ensures var t, off := ts[i], OffsetOf(ts, i);
      && off + |t.Bytes()| <= |Message(ts)|
      && b[off..off + |t.Bytes()|] == t.Bytes()
      && b[off + TYPE_SIZE..off + |t.Bytes()|] == t.data
  {
    hide BE, Wire;
    var t, k := ts[i], |Wire(ts[..i])|;
    var n := |t.Bytes()|;
    WireAt(ts, i);
    var m := |Message(ts)|;
    assert b[LENGTH_SIZE..m] == Message(ts)[LENGTH_SIZE..];
    SliceOfSlice(b, LENGTH_SIZE, m, k, k + n);
    SliceOfSlice(b, LENGTH_SIZE, m, k + TYPE_SIZE, k + n);
    SliceOfSlice(Wire(ts), k, k + n, TYPE_SIZE, n);
  }

  lemma MeansOne(p: Param, ts: seq<Tlv>, i: nat, buf: array<byte>, n: nat)
    requires i < |ts| && AllValid(ts) && n <= buf.Length
    requires LENGTH_SIZE + |Wire(ts)| < 0x1_0000 && buf[..n] == Message(ts)
    requires p == DecodedParam(ts[i], buf, OffsetOf(ts, i))
    ensures CanSend(p) && TlvOf(p) == ts[i]
  {
    hide BE, FromBE, Wire, ValidType, SizeOfType, OffsetOf, Message;
    var t, off := ts[i], OffsetOf(ts, i);
    assert t in ts && t.Valid();
    ValidTypeTests(t.kind);
    if IsInteger(t.kind) {
      DecodedWordReadsBack(t);
    } else {
      assert IsBlob(t.kind);
      InMessage(buf[..], ts, i);
      assert buf[off + TYPE_SIZE..off + TYPE_SIZE + |t.data|] == t.data;
    }
  }
}
