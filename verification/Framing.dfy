/** Frames: an 8-byte header in native byte order, then the payload; and the loop that cuts a buffer into them. */
module Framing {
  import opened Bytes
  import opened SeqNum

  /** `sizeof(af_ipc_msghdr_t)`: 4 + 2 bytes and 2 of padding. */
  const HEADER_LEN := 8
  const MAX_MSGLEN := 4096

  datatype Frame = Frame(seqNum: u32, payload: seq<byte>)

  /** The frames `af_ipc_send` does not refuse for their size. */
  predicate Sendable(f: Frame) {
    |f.payload| + HEADER_LEN <= MAX_MSGLEN
  }

  /** Header and payload as `sendmsg` gathers them. */
  function Encode(f: Frame): (s: seq<byte>)
    requires Sendable(f)
    ensures |s| == HEADER_LEN + |f.payload|
  {
    LE32(f.seqNum) + LE16(HEADER_LEN + |f.payload|) + [0, 0] + f.payload
  }

  function HeaderSeqNum(s: seq<byte>): (n: u32)
    requires |s| >= HEADER_LEN
  {
    FromLE32(s[..4])
  }

  function HeaderLength(s: seq<byte>): (n: u16)
    requires |s| >= HEADER_LEN
  {
    FromLE16(s[4..6])
  }

  /** The tests a frame has to pass to be dispatched.  The first one refuses a bare header at the end of the buffer. */
  predicate CanCut(s: seq<byte>) {
    |s| > HEADER_LEN && HEADER_LEN <= HeaderLength(s) <= |s|
  }

  /** The frames the receive loop dispatches from some bytes. */
  function Cut(s: seq<byte>): (fs: seq<Frame>) {
    if !CanCut(s) then []
    else [Frame(HeaderSeqNum(s), s[HEADER_LEN..HeaderLength(s)])] + Cut(s[HeaderLength(s)..])
  }

  /** A stream of frames. */
  function Stream(fs: seq<Frame>): (s: seq<byte>)
    requires forall f <- fs :: Sendable(f)
  {
    if fs == [] then [] else Encode(fs[0]) + Stream(fs[1..])
  }

  /** The 16-bit length in the header is the true length: it never truncates. */
  lemma HeaderOfEncode(f: Frame, rest: seq<byte>)
    requires Sendable(f)
    ensures var s := Encode(f) + rest;
      && HeaderSeqNum(s) == f.seqNum
      && HeaderLength(s) == |Encode(f)|
      && s[HEADER_LEN..|Encode(f)|] == f.payload
  {
    hide LE16, LE32, FromLE16, FromLE32;
    var s := Encode(f) + rest;
    FromLE32OfLE32(f.seqNum);
    FromLE16OfLE16(HEADER_LEN + |f.payload|);
    assert s[..4] == LE32(f.seqNum);
    assert s[4..6] == LE16(HEADER_LEN + |f.payload|);
  }

  /**
   The largest payload is 4088 bytes.  The header byte by byte: sequence number and total
   length, least significant byte first, and two of padding.
   */
  lemma HeaderBytes(f: Frame)
    ensures Sendable(f) <==> |f.payload| <= 4088
    ensures Sendable(f) ==>
      var s := Encode(f);
      && |s| == 8 + |f.payload|
      && LeastSignificantFirst(s[..4]) == f.seqNum
      && LeastSignificantFirst(s[4..6]) == |s|
      && s[6] == s[7] == 0
      && s[8..] == f.payload
  {
    hide LE16, LE32;
    if Sendable(f) {
      var s := Encode(f);
      LE32IsLeastSignificantFirst(f.seqNum);
      LE16IsLeastSignificantFirst(|s|);
      assert s[..4] == LE32(f.seqNum) && s[4..6] == LE16(|s|);
    }
  }

  /** A whole frame at the front is dispatched unless it is a bare header with nothing after it. */
  lemma CutFirst(f: Frame, rest: seq<byte>)
    requires Sendable(f)
    ensures f.payload != [] || rest != [] ==> Cut(Encode(f) + rest) == [f] + Cut(rest)
    ensures f.payload == [] && rest == [] ==> Cut(Encode(f) + rest) == []
  {
    HeaderOfEncode(f, rest);
    assert (Encode(f) + rest)[|Encode(f)|..] == rest;
  }

  /** A frame that is cut short is not dispatched, and nothing else is made of its bytes. */
  lemma CutShort(f: Frame, k: nat)
    requires Sendable(f) && k < |Encode(f)|
    ensures Cut(Encode(f)[..k]) == []
  {
    HeaderOfEncode(f, []);
    var s := Encode(f) + [];
    if k > HEADER_LEN {
      assert s[..k][4..6] == s[4..6];
      assert Encode(f) == s;
    }
  }

  /**
   Framing: a stream of frames with payloads, cut at any byte, is dispatched as exactly the
   n frames that lie wholly before the cut, in order and unchanged.
   */
  lemma {:induction false} CutOfStream(fs: seq<Frame>, k: nat, n: nat)
    requires forall f <- fs :: Sendable(f) && f.payload != []
    requires n <= |fs| && |Stream(fs[..n])| <= k <= |Stream(fs)|
    requires n < |fs| ==> k < |Stream(fs[..n + 1])|
    ensures Cut(Stream(fs)[..k]) == fs[..n]
  {
    hide Cut, Encode, HeaderSeqNum, HeaderLength;
    if n == 0 {
      if fs == [] {
        assert Stream(fs)[..k] == [];
        CutEnds([]);
      } else {
        assert fs[..1] == [fs[0]] && [fs[0]][1..] == [];
        assert Stream(fs[..1]) == Encode(fs[0]) + Stream([]) == Encode(fs[0]);
        assert Stream(fs)[..k] == Encode(fs[0])[..k];
        CutShort(fs[0], k);
      }
    } else {
      var f, rest := fs[0], fs[1..];
      assert forall g <- rest :: g in fs;
      StreamFirst(fs, n);
      if n < |fs| {
        StreamFirst(fs, n + 1);
      }
      var j := k - |Encode(f)|;
      CutOfStream(rest, j, n - 1);
      assert Stream(fs)[..k] == Encode(f) + Stream(rest)[..j];
      CutFirst(f, Stream(rest)[..j]);
      assert fs[..n] == [f] + rest[..n - 1];
    }
  }

  lemma StreamFirst(fs: seq<Frame>, n: nat)
    requires forall f <- fs :: Sendable(f)
    requires 0 < n <= |fs|
    ensures Stream(fs[..n]) == Encode(fs[0]) + Stream(fs[1..][..n - 1])
  {
    assert fs[..n][1..] == fs[1..][..n - 1];
  }

  lemma {:induction false} StreamConcat(a: seq<Frame>, b: seq<Frame>)
    requires (forall f <- a :: Sendable(f)) && (forall f <- b :: Sendable(f))
    ensures Stream(a + b) == Stream(a) + Stream(b)
  {
    hide Encode;
    if a == [] {
      assert a + b == b;
    } else {
      assert (a + b)[1..] == a[1..] + b;
      StreamConcat(a[1..], b);
    }
  }

  /** The number of frames that lie wholly before a cut. */
  lemma {:induction false} WholeFrames(fs: seq<Frame>, k: nat) returns (n: nat)
    requires forall f <- fs :: Sendable(f)
    requires k <= |Stream(fs)|
    ensures n <= |fs| && |Stream(fs[..n])| <= k
    ensures n < |fs| ==> k < |Stream(fs[..n + 1])|
  {
    hide Encode;
    if fs == [] || k < |Encode(fs[0])| {
      n := 0;
      if fs != [] {
        StreamFirst(fs, 1);
      }
    } else {
      assert forall g <- fs[1..] :: g in fs;
      n := WholeFrames(fs[1..], k - |Encode(fs[0])|);
      n := n + 1;
      StreamFirst(fs, n);
      if n < |fs| {
        StreamFirst(fs, n + 1);
      }
    }
  }

  /** A whole stream is dispatched whole exactly when its last frame is not a bare header. */
  lemma {:induction false} WholeStreamIff(fs: seq<Frame>)
    requires forall f <- fs :: Sendable(f)
    ensures Cut(Stream(fs)) == fs <==> (fs != [] ==> fs[|fs| - 1].payload != [])
    ensures Cut(Stream(fs)) == fs || (fs != [] && Cut(Stream(fs)) == fs[..|fs| - 1])
  {
    hide Encode, Cut, Sendable;
    if fs == [] {
      CutEnds([]);
    } else {
      var f, rest := fs[0], fs[1..];
      assert forall g <- rest :: g in fs;
      CutFirst(f, Stream(rest));
      if rest == [] {
        CutEnds([]);
      } else {
        WholeStreamIff(rest);
        StreamNotEmpty(rest);
        SameFirst(f, Cut(Stream(rest)), rest);
      }
    }
  }

  /** A request without a payload, alone in a buffer, is not dispatched. */
  lemma LoneHeader(id: RequestId)
    ensures var f := Frame(RequestWord(id), []); Sendable(f) && Stream([f]) == Encode(f) && Cut(Stream([f])) == []
  {
    hide Encode, Cut;
    var f := Frame(RequestWord(id), []);
    assert [f][1..] == [] && Stream([]) == [];
    WholeStreamIff([f]);
    CutFirst(f, []);
    assert Encode(f) + [] == Encode(f);
  }

  lemma SameFirst(f: Frame, a: seq<Frame>, b: seq<Frame>)
    requires b != []
    ensures [f] + a == [f] + b <==> a == b
    ensures ([f] + b)[..|b|] == [f] + b[..|b| - 1]
  {
    assert ([f] + a)[1..] == a && ([f] + b)[1..] == b;
  }

  lemma StreamNotEmpty(fs: seq<Frame>)
    requires fs != [] && forall f <- fs :: Sendable(f)
    ensures Stream(fs) != []
  {
  }

  /** One call the receive loop makes: to the receive callback, or to the pending request with this id. */
  datatype Dispatch = ToReceiver(seqNum: u32, off: nat, size: nat) | ToPending(id: RequestId, off: nat, size: nat)

  /** What a frame at this offset is dispatched as. */
  function DispatchOf(f: Frame, clientId: u16, off: nat): (d: Dispatch) {
    if Classify(f.seqNum) != Reply
    then ToReceiver(AppWord(f.seqNum, clientId), off, |f.payload|)
    else ToPending(SeqId(f.seqNum), off, |f.payload|)
  }

  /** The dispatches lie end to end from the start of the buffer, a header before each. */
  ghost predicate Tiles(ds: seq<Dispatch>, upTo: nat) {
    && (ds == [] ==> upTo == 0)
    && (ds != [] ==> ds[0].off == HEADER_LEN && upTo == ds[|ds| - 1].off + ds[|ds| - 1].size)
    && forall i :: 0 < i < |ds| ==> ds[i].off == ds[i - 1].off + ds[i - 1].size + HEADER_LEN
  }

  /** Each dispatch is the one for its frame, with the frame's payload in the buffer. */
  ghost predicate DispatchesOf(ds: seq<Dispatch>, fs: seq<Frame>, b: seq<byte>, clientId: u16) {
    && |ds| == |fs|
    && forall i :: 0 <= i < |ds| ==>
         && ds[i] == DispatchOf(fs[i], clientId, ds[i].off)
         && ds[i].off + ds[i].size <= |b|
         && b[ds[i].off..ds[i].off + ds[i].size] == fs[i].payload
  }

  /**
   The receive loop.  On any bytes it ends; its dispatches are in bounds, tile a prefix of
   the buffer, and are those of the frames cut from it.
   */
  method ReceiveLoop(buf: array<byte>, len: nat, clientId: u16) returns (ds: seq<Dispatch>, pos: nat)
    requires len <= buf.Length
    ensures DispatchesOf(ds, Cut(buf[..len]), buf[..len], clientId)
    ensures pos <= len && Tiles(ds, pos) && !CanCut(buf[pos..len])
  {
    hide Cut, Tiles, DispatchesOf, Classify, AppWord, IsNewRequest, HeaderSeqNum, HeaderLength, CanCut;
    ghost var b, fs := buf[..len], [];
    ds, pos := [], 0;
    assert buf[0..len] == b;
    NothingDispatched(b, clientId);
    while pos < len
      invariant pos <= len
      invariant Tiles(ds, pos)
      invariant DispatchesOf(ds, fs, b, clientId)
      invariant Cut(b) == fs + Cut(buf[pos..len])
      decreases len - pos
    {
      ghost var s := buf[pos..len];
      if pos + HEADER_LEN >= len {
        CutEnds(s);
        break;
      }
      var word, length := ReadHeader(buf, pos, len);
      var seqNum := SeqId(word);
      if pos + length > len || length < HEADER_LEN {
        CutEnds(s);
        break;
      }
      CutUnfold(s);
      SeqIdEnough(word, clientId);
      var off, size := pos + HEADER_LEN, length - HEADER_LEN;
      var d := if seqNum == 0 || IsNewRequest(seqNum)
               then ToReceiver(AppWord(seqNum, clientId), off, size)
               else ToPending(seqNum, off, size);
      ghost var f := Frame(word, s[HEADER_LEN..length]);
      FrameInPlace(buf[..], pos, len, length);
      TilesExtend(ds, pos, d);
      DispatchesExtend(ds, fs, b, f, d, clientId);
      assert fs + ([f] + Cut(s[length..])) == fs + [f] + Cut(s[length..]);
      ds, pos, fs := ds + [d], pos + length, fs + [f];
    }
    CutEnds(buf[pos..len]);
    assert fs + [] == fs;
  }

  method ReadHeader(buf: array<byte>, pos: nat, len: nat) returns (word: u32, length: u16)
    requires pos + HEADER_LEN < len <= buf.Length
    ensures word == HeaderSeqNum(buf[pos..len]) && length == HeaderLength(buf[pos..len])
  {
    SliceOfSlice(buf[..], pos, len, 0, 4);
    SliceOfSlice(buf[..], pos, len, 4, 6);
    word, length := FromLE32(buf[pos..pos + 4]), FromLE16(buf[pos + 4..pos + 6]);
  }

  lemma FrameInPlace(b: seq<byte>, pos: nat, len: nat, length: nat)
    requires HEADER_LEN <= length && pos + length <= len <= |b|
    ensures b[pos..len][HEADER_LEN..length] == b[..len][pos + HEADER_LEN..pos + length]
    ensures b[pos..len][length..] == b[pos + length..len]
  {
    SliceOfSlice(b, pos, len, HEADER_LEN, length);
    SliceOfSlice(b, 0, len, pos + HEADER_LEN, pos + length);
    SliceOfSlice(b, pos, len, length, len - pos);
  }

  lemma NothingDispatched(b: seq<byte>, clientId: u16)
    ensures Tiles([], 0) && DispatchesOf([], [], b, clientId)
    ensures [] + Cut(b) == Cut(b)
  {
  }

  lemma CutEnds(s: seq<byte>)
    ensures !CanCut(s) ==> Cut(s) == []
    ensures |s| <= HEADER_LEN || !(HEADER_LEN <= HeaderLength(s) <= |s|) ==> !CanCut(s)
  {
  }

  lemma TilesExtend(ds: seq<Dispatch>, pos: nat, d: Dispatch)
    requires Tiles(ds, pos) && d.off == pos + HEADER_LEN
    ensures Tiles(ds + [d], d.off + d.size)
  {
  }

  lemma CutUnfold(s: seq<byte>)
    requires |s| > HEADER_LEN && HEADER_LEN <= HeaderLength(s) <= |s|
    ensures Cut(s) == [Frame(HeaderSeqNum(s), s[HEADER_LEN..HeaderLength(s)])] + Cut(s[HeaderLength(s)..])
  {
  }

  lemma DispatchesExtend(ds: seq<Dispatch>, fs: seq<Frame>, b: seq<byte>, f: Frame, d: Dispatch, clientId: u16)
    requires DispatchesOf(ds, fs, b, clientId)
    requires d == DispatchOf(f, clientId, d.off)
    requires d.off + d.size <= |b| && b[d.off..d.off + d.size] == f.payload
    ensures DispatchesOf(ds + [d], fs + [f], b, clientId)
  {
    hide DispatchOf;
  }

  lemma SeqIdEnough(word: u32, clientId: u16)
    ensures Classify(SeqId(word)) == Classify(word) && AppWord(SeqId(word), clientId) == AppWord(word, clientId)
    ensures Classify(word) == Reply <==> !(SeqId(word) == 0 || IsNewRequest(SeqId(word)))
    ensures Classify(word) == Reply ==> 1 <= SeqId(word) < 0x8000
  {
  }
}
