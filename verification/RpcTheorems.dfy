/**
 How the four pieces of code that share the message format fit together: each theorem
 here runs two of them and says what comes out.
 */
module RpcTheorems {
  import opened Bytes
  import opened RpcFormat
  import opened RpcParams
  import opened RpcEncoder
  import opened RpcDecoder
  import opened RpcReaders
  import Builder = RpcBuilder

  /** What the caller reads out of a parameter structure: the number at its width and sign, or the bytes pointed at. */
  ghost function ParamReading(p: Param): (m: Reading)
    requires CanSend(p)
    reads if p.base.Ptr? then {p.base.mem} else {}
  {
    var kind := SentKind(p);
    if IsInteger(kind) then Number(ReadWord(kind, p.base.w))
    else if p.base.Null? then Contents([])
    else Contents(p.base.mem[p.base.off..p.base.off + SizeOfType(kind)])
  }

  /** A structure reads as what its parameter means, whether a caller filled it in or the decoder did. */
  lemma ReadingIsMeaning(p: Param)
    requires CanSend(p)
    ensures ParamReading(p) == Meaning(TlvOf(p))
  {
    var kind := SentKind(p);
    ValidTypeTests(kind);
    if IsInteger(kind) {
      IntegerRoundTrip(kind, p.base.w);
    }
  }

  lemma SameBytesSameReadings(ps: seq<Param>, ts: seq<Tlv>)
    requires Sendable(ps) && TlvsOf(ps) == ts
    ensures forall i :: 0 <= i < |ps| ==>
      CanSend(ps[i]) && SentKind(ps[i]) == ts[i].kind && ts[i].Valid() && ParamReading(ps[i]) == Meaning(ts[i])
  {
    forall i | 0 <= i < |ps|
      ensures CanSend(ps[i]) && SentKind(ps[i]) == ts[i].kind && ts[i].Valid() && ParamReading(ps[i]) == Meaning(ts[i])
    {
      assert ps[i] in ps;
      ReadingIsMeaning(ps[i]);
    }
  }

  /** Decoding the first n bytes of a buffer that holds a message returns that message's parameters. */
  method DecodeMessage(buf: array<byte>, n: nat, out: array<Param>, room: nat, ghost ts: seq<Tlv>) returns (m: int)
    requires n <= buf.Length && Holds(buf[..n], ts) && |ts| <= room <= out.Length
    modifies out
    ensures m == |ts|
    ensures Sendable(out[..m]) && TlvsOf(out[..m]) == ts
    ensures forall i :: 0 <= i < m ==> out[i].kind == ts[i].kind
  {
    hide Holds, Outcome, DecodedParams;
    ghost var us;
    ghost var exps := Kinds(out[..room]);
    HeldLength(buf[..n], ts);
    m, us := GetParamsFromBuffer(out, room, buf, n, 1);
    HeldIsAccepted(buf[..n], exps, ts);
    OutcomeUnique(buf[..n], exps, false, us, m, ts, |ts|);
    DecodedMeans(out[..m], ts, buf, n);
  }

  /** A message is accepted, an empty one too, if there is room for its parameters. */
  lemma HeldIsAccepted(b: seq<byte>, exps: seq<u32>, ts: seq<Tlv>)
    requires Holds(b, ts) && |ts| <= |exps|
    ensures Outcome(b, exps, false, ts, |ts|)
  {
    hide Outcome, ReadSoFar, LengthWord;
    if ts == [] {
      HeldIsMessage(b, ts);
      ZeroIff(b, exps, false, ts);
    } else {
      AcceptedIff(b, exps, false, ts, |ts|);
    }
  }

  lemma HeldLength(b: seq<byte>, ts: seq<Tlv>)
    requires Holds(b, ts)
    ensures |b| >= LENGTH_SIZE
  {
  }

  /** Encoding succeeds exactly when the message fits, and then the bytes written hold the parameters. */
  method EncodeMessage(buf: array<byte>, bufSize: nat, params: array<Param>, n: nat) returns (r: int)
    requires EncodeInput(buf, bufSize, params, n) && 0 < bufSize < 0x1_0000
    requires n <= params.Length && Sendable(params[..n])
    modifies buf
    ensures r >= 0 <==> EncodedSize(old(TlvsOf(params[..n]))) <= bufSize
    ensures r >= 0 ==> r == EncodedSize(old(TlvsOf(params[..n]))) && Holds(buf[..r], old(TlvsOf(params[..n])))
    ensures r >= 0 ==> buf[r..] == old(buf[r..])
  {
    hide Wire, Parse, CanSend, TlvOf, SentKind, BE, FromBE, ParamsSize, TlvsOf, Sendable, EncodedSize, Holds;
    ghost var ts := TlvsOf(params[..n]);
    ParamsSizeIsEncodedSize(params[..n]);
    EncodedSizeIsWireLength(ts);
    r := CreateBufferWithParams(buf, bufSize, params, n);
    if r >= 0 {
      MessageHolds(ts);
      assert buf[..r] == Message(ts);
    }
  }

  /**
   Round trip: a parameter list that is encoded comes back from the decoder with the same
   count, the same types, the same numbers at their width and sign, and the same blobs.
   */
  method BatchRoundTrip(buf: array<byte>, bufSize: nat, params: array<Param>, n: nat, out: array<Param>)
    returns (r: int, m: int)
    requires EncodeInput(buf, bufSize, params, n) && 0 < bufSize < 0x1_0000
    requires n <= out.Length && n <= params.Length && Sendable(params[..n])
    modifies buf, out
    ensures r >= 0 <==> EncodedSize(old(TlvsOf(params[..n]))) <= bufSize
    ensures r >= 0 ==>
      && r == EncodedSize(old(TlvsOf(params[..n])))
      && m == n
      && Sendable(out[..n])
      && forall i :: 0 <= i < n ==>
           && CanSend(old(params[i])) && CanSend(out[i]) && SentKind(out[i]) == SentKind(old(params[i]))
           && ParamReading(out[i]) == old(ParamReading(params[i]))
           && out[i].kind == old(params[i]).kind % 65536
           && NumberSurvives(old(params[i]), out[i])
  {
    hide CanSend, TlvOf, TlvsOf, SentKind, ParamReading, Holds, EncodedSize, Meaning, Readable;
    ghost var ts := TlvsOf(params[..n]);
    SameBytesSameReadings(params[..n], ts);
    m := 0;
    r := EncodeMessage(buf, bufSize, params, n);
    if r >= 0 {
      m := DecodeMessage(buf, r, out, n, ts);
      SameBytesSameReadings(out[..n], ts);
      forall i | 0 <= i < n
        ensures NumberSurvives(old(params[i]), out[i]) && out[i].kind == old(params[i]).kind % 65536
      {
        OwnNumber(old(params[i]), out[i]);
      }
    }
  }

  /** A number in the range of its type is the number taken out of the decoded structure. */
  ghost predicate NumberSurvives(p: Param, q: Param) {
    var kind := p.kind % 65536;
    p.base.Word? && InOwnRange(kind, p.base.w) ==>
      && q.base.Word? && ValidType(kind) && IsInteger(kind) && ReadWord(kind, q.base.w) == p.base.w
  }

  lemma OwnNumber(p: Param, q: Param)
    requires CanSend(p) && CanSend(q) && SentKind(p) == SentKind(q)
    requires p.base.Word? ==> ParamReading(p) == ParamReading(q)
    ensures NumberSurvives(p, q) && SentKind(p) == p.kind % 65536
  {
    var kind := p.kind % 65536;
    if p.base.Word? && InOwnRange(kind, p.base.w) {
      OwnRangeSurvives(kind, p.base.w);
    }
  }

  /**
   Canonical form: whatever permissive decoding accepts, encoding what it returned into
   another buffer reproduces byte for byte.
   */
  method DecodeThenEncode(buf: array<byte>, bufSize: int, params: array<Param>, room: nat, other: array<byte>)
    returns (n: int, r: int)
    requires 0 < bufSize <= buf.Length && bufSize <= other.Length && other != buf && room <= params.Length
    modifies params, other
    ensures n >= 1 ==> r == bufSize && other[..bufSize] == buf[..bufSize]
  {
    hide Holds, Outcome, DecodedParams, Sendable, TlvsOf, Wire, CanSend, TlvOf;
    ghost var ts;
    r := 0;
    ghost var exps := Kinds(params[..room]);
    n, ts := GetParamsFromBuffer(params, room, buf, bufSize, 1);
    if n >= 1 {
      AcceptedIff(buf[..bufSize], exps, false, ts, n);
      DecodedMeans(params[..n], ts, buf, bufSize);
      DecodedReadable(params[..n], ts, buf, other);
      HeldIsMessage(buf[..bufSize], ts);
      EncodedSizeIsWireLength(ts);
      r := EncodeMessage(other, bufSize, params, n);
      HeldIsMessage(other[..r], ts);
    }
  }

  lemma DecodedReadable(ps: seq<Param>, ts: seq<Tlv>, buf: array<byte>, other: array<byte>)
    requires Sendable(ps) && DecodedParams(ps, ts, buf) && other != buf
    ensures forall p <- ps :: Readable(p) && (p.base.Ptr? ==> p.base.mem != other)
  {
    forall p | p in ps ensures Readable(p) && (p.base.Ptr? ==> p.base.mem != other) {
      assert CanSend(p);
    }
  }

  /**
   The incremental builder and the batch encoder write the same bytes: building offers one
   at a time gives what encoding the accepted ones at once gives.
   */
  method BuilderMatchesBatch(buf: array<byte>, bufSize: nat, vs: seq<Builder.Value>,
                             other: array<byte>, params: array<Param>, n: nat)
    returns (r: int)
    requires LENGTH_SIZE <= bufSize <= buf.Length && bufSize <= other.Length && bufSize < 0x1_0000 && other != buf
    requires forall v <- vs :: Builder.Readable(v) && buf !in Builder.Source(v)
    requires EncodeInput(other, bufSize, params, n) && n <= params.Length
    requires Sendable(params[..n]) && TlvsOf(params[..n]) == Builder.Accepted(Builder.Offers(vs), bufSize)
    requires buf !in Memory(params[..n])
    modifies buf, other
    ensures 0 <= r <= bufSize && buf[..r] == other[..r]
    ensures LengthWord(buf[..]) == r
  {
    hide Holds, Wire, Parse, CanSend, TlvOf, BE, FromBE, Sendable, Builder.Accepted, TlvsOf, EncodedSize;
    ghost var ts, ps := TlvsOf(params[..n]), params[..n];
    var _ := Builder.Build(buf, bufSize, vs);
    assert TlvsOf(ps) == ts;
    r := EncodeMessage(other, bufSize, params, n);
    HeldIsMessage(other[..r], ts);
    Builder.BuiltLength(buf[..], ts);
  }

  /** What a caller who offers a value means by it. */
  ghost function Intended(v: Builder.Value): (m: Reading)
    reads Builder.Source(v)
  {
    match v
    case Integer(_, w) => Number(w)
    case Blob(mem, size) => Contents(if mem == null || !(0 <= size <= mem.Length) then [] else mem[..size])
  }

  ghost function Intents(ws: seq<Builder.Value>): (ms: seq<Reading>)
    reads Builder.Memory(ws)
    ensures |ms| == |ws|
    ensures forall i :: 0 <= i < |ws| ==> ms[i] == Intended(ws[i])
  {
    if ws == [] then [] else
      assert forall w <- ws[1..] :: w in ws;
      [Intended(ws[0])] + Intents(ws[1..])
  }

  /** The values a buffer takes are there to be read: the type word of each and the bytes or number it stands for. */
  lemma AddedMeans(v: Builder.Value)
    requires Builder.Readable(v) && !Builder.BadValue(v)
    ensures var t := Builder.AddedTlv(v);
      match v
      case Integer(kind, w) => t.kind == kind && Meaning(t) == Number(ReadWord(kind, w))
      case Blob(mem, size) => t.kind == size && Meaning(t) == Contents(if mem == null then [] else mem[..size])
    ensures v.Integer? && InOwnRange(v.kind, v.w) ==> Meaning(Builder.AddedTlv(v)) == Intended(v)
    ensures v.Blob? ==> Meaning(Builder.AddedTlv(v)) == Intended(v)
  {
    match v
    case Integer(kind, w) =>
      IntegerRoundTrip(kind, w);
      if InOwnRange(kind, w) {
        OwnRangeSurvives(kind, w);
      }
    case Blob(_, size) => TypeWords(size);
  }

  /** The type word a reader has to be called for. */
  function WordOf(v: Builder.Value): (kind: u16)
    requires !Builder.BadValue(v)
  {
    match v
    case Integer(kind, _) => kind
    case Blob(_, size) => size
  }

  /**
   Build, then read: chained from position 0, the readers get exactly the values the buffer
   took, in order - the numbers themselves, which the C types keep in their range, and the
   blobs as they were when offered.
   */
  method BuildThenRead(buf: array<byte>, bufSize: nat, vs: seq<Builder.Value>, capacity: nat)
    returns (ms: seq<Reading>)
    requires LENGTH_SIZE <= bufSize <= buf.Length && bufSize < 0x1_0000
    requires forall v <- vs :: Builder.Readable(v) && buf !in Builder.Source(v)
    requires forall v <- vs :: v.Integer? ==> InOwnRange(v.kind, v.w)
    requires capacity >= MAX_BLOB_SIZE
    modifies buf
    ensures ms == old(Intents(Builder.Taken(vs, bufSize)))
    ensures LengthWord(buf[..]) == Builder.LengthOf(Builder.Taken(vs, bufSize)) <= bufSize
  {
    hide Builder.Accepted, Builder.Built, Builder.BadValue, Builder.AddedTlv, Intended, EncodedSize, Message, Wire;
    hide Holds, LengthWord, Builder.LengthOf, Meaning, Builder.Readable, InOwnRange, WordOf, Builder.Match;
    hide Builder.Taken, OffsetOf, Intents, Matches, Builder.Offers;
    ghost var ts := Builder.Accepted(Builder.Offers(vs), bufSize);
    var ws := Builder.Taken(vs, bufSize);
    Builder.AcceptedIsTaken(vs, bufSize);
    TakenMean(ts, ws);
    ghost var exp := Intents(ws);
    var _ := Builder.Build(buf, bufSize, vs);
    BuiltHolds(buf[..], ts);
    ms := [];
    if ws != [] {
      WordIs(buf[..]);
      assert buf[..LENGTH_SIZE] == buf[..][..LENGTH_SIZE];
      var n := FromBE(buf[..LENGTH_SIZE]);
      assert buf[..][..n] == buf[..n];
      SmallBlobs(ts, capacity);
      var stops;
      ms, stops := ReadChain(buf, n, KindsOf(ws), capacity, ts);
    }
    assert ms == exp;
  }

  function KindsOf(ws: seq<Builder.Value>): (kinds: seq<u16>)
    requires forall w <- ws :: !Builder.BadValue(w) && Builder.Readable(w)
  {
    seq(|ws|, i requires 0 <= i < |ws| => assert ws[i] in ws; WordOf(ws[i]))
  }

  lemma TakenMean(ts: seq<Tlv>, ws: seq<Builder.Value>)
    requires (forall w <- ws :: Builder.Readable(w)) && Builder.Match(ts, ws)
    requires forall w <- ws :: w.Integer? ==> InOwnRange(w.kind, w.w)
    ensures forall w <- ws :: !Builder.BadValue(w)
    ensures |ts| == |ws| == |Intents(ws)|
    ensures forall i :: 0 <= i < |ts| ==>
      && ts[i].Valid() && Meaning(ts[i]) == Intents(ws)[i] && Matches(ts[i].kind, KindsOf(ws)[i])
  {
    hide Builder.BadValue, Builder.AddedTlv, Intended, Meaning, Builder.Readable, InOwnRange, WordOf;
    forall w | w in ws ensures !Builder.BadValue(w) {
      var j :| 0 <= j < |ws| && ws[j] == w;
    }
    forall i | 0 <= i < |ts|
      ensures ts[i].Valid() && Meaning(ts[i]) == Intents(ws)[i] && Matches(ts[i].kind, KindsOf(ws)[i])
    {
      assert ws[i] in ws;
      MeansIntended(ws[i]);
      SameKindMatches(ts[i].kind);
    }
  }

  lemma WordIs(b: seq<byte>)
    requires |b| >= LENGTH_SIZE
    ensures LengthWord(b) == FromBE(b[..LENGTH_SIZE])
  {
  }

  lemma MeansIntended(v: Builder.Value)
    requires Builder.Readable(v) && !Builder.BadValue(v) && (v.Integer? ==> InOwnRange(v.kind, v.w))
    ensures Builder.AddedTlv(v).Valid() && Meaning(Builder.AddedTlv(v)) == Intended(v)
    ensures Builder.AddedTlv(v).kind == WordOf(v)
  {
    AddedMeans(v);
  }

  /** A built buffer, up to its length word, holds the message. */
  lemma BuiltHolds(b: seq<byte>, ts: seq<Tlv>)
    requires Builder.Built(b, ts)
    ensures LENGTH_SIZE <= |b| && LengthWord(b) == EncodedSize(ts) <= |b|
    ensures Holds(b[..LengthWord(b)], ts) && AllValid(ts)
  {
    hide BE, FromBE, Wire;
    Builder.BuiltLength(b, ts);
    EncodedSizeIsWireLength(ts);
    MessageHolds(ts);
    assert b[..|Message(ts)|] == Message(ts);
  }

  lemma SmallBlobs(ts: seq<Tlv>, capacity: nat)
    requires AllValid(ts) && capacity >= MAX_BLOB_SIZE
    ensures forall t <- ts :: RoomFor(t, capacity)
  {
    forall t | t in ts ensures RoomFor(t, capacity) {
      ValidTypeTests(t.kind);
    }
  }

  /**
   The typed readers, chained from position 0 over whatever permissive decoding accepts,
   read what the decoded structures hold, stop at every boundary and end at the declared length.
   */
  method ReadersMatchBatch(buf: array<byte>, bufSize: int, params: array<Param>, room: nat, capacity: nat)
    returns (n: int, ms: seq<Reading>, stops: seq<int>)
    requires 0 < bufSize <= buf.Length && room <= params.Length
    modifies params
    ensures n <= params.Length
    ensures n >= 1 && BlobsFit(params[..n], capacity) ==>
      && |ms| == |stops| == n
      && bufSize >= LENGTH_SIZE && LengthWord(buf[..bufSize]) == bufSize == stops[n - 1]
      && Sendable(params[..n])
      && (forall i :: 0 <= i < n ==>
            && CanSend(params[i]) && ms[i] == ParamReading(params[i])
            && stops[i] == OffsetOf(TlvsOf(params[..n]), i + 1))
  {
    hide Holds, Outcome, DecodedParams, CanSend, TlvOf, Meaning, ParamReading, OffsetOf, LengthWord, SentKind, TlvsOf;
    ghost var ts, exps := [], Kinds(params[..room]);
    ms, stops := [], [];
    n, ts := GetParamsFromBuffer(params, room, buf, bufSize, 1);
    if n >= 1 {
      AcceptedIff(buf[..bufSize], exps, false, ts, n);
      var ps := params[..n];
      DecodedMeans(ps, ts, buf, bufSize);
      SameBytesSameReadings(ps, ts);
      if BlobsFit(ps, capacity) {
        KindsMatch(ps, ts, capacity);
        ms, stops := ReadChain(buf, bufSize, WordsOf(ps), capacity, ts);
        DecodedMeans(ps, ts, buf, bufSize);
        SameBytesSameReadings(ps, ts);
      }
    }
  }

  function WordsOf(ps: seq<Param>): (kinds: seq<u16>) {
    seq(|ps|, i requires 0 <= i < |ps| => SentKind(ps[i]))
  }

  /** The caller has room for each of the blobs. */
  predicate BlobsFit(ps: seq<Param>, capacity: nat) {
    forall p <- ps :: IsInteger(SentKind(p)) || (1 <= capacity && SizeOfType(SentKind(p)) <= capacity)
  }

  lemma KindsMatch(ps: seq<Param>, ts: seq<Tlv>, capacity: nat)
    requires |ps| == |ts| && BlobsFit(ps, capacity) && AllValid(ts)
    requires forall i :: 0 <= i < |ps| ==> SentKind(ps[i]) == ts[i].kind
    ensures forall i :: 0 <= i < |ts| ==> Matches(ts[i].kind, WordsOf(ps)[i])
    ensures forall t <- ts :: RoomFor(t, capacity)
  {
    hide IsInteger, SizeOfType, ValidType;
    forall t | t in ts ensures RoomFor(t, capacity) {
      var i :| 0 <= i < |ts| && ts[i] == t;
      assert ps[i] in ps;
    }
    forall i | 0 <= i < |ts| ensures Matches(ts[i].kind, WordsOf(ps)[i]) {
      SameKindMatches(ts[i].kind);
    }
  }

  lemma SameKindMatches(kind: u16)
    ensures Matches(kind, kind)
  {
  }
}
