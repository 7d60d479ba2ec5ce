/**
 The two layers together: parameters encoded as an RPC message and sent as the payload of a
 frame arrive unchanged, whatever other frames share the receive buffer.
 */
module RpcOverIpc {
  import opened Bytes
  import opened SeqNum
  import opened Framing
  import Rpc = RpcFormat
  import opened RpcParams
  import RpcEncoder
  import RpcTheorems
  import RpcReaders

  const PAYLOAD_LIMIT := MAX_MSGLEN - HEADER_LEN

  /**
   The receive loop gives the i-th frame of a stream to its i-th dispatch: one dispatch, with
   exactly that frame's payload, even if the buffer ends in the middle of a later frame.
   */
  method ReceiveStream(buf: array<byte>, len: nat, clientId: u16, ghost fs: seq<Frame>, ghost n: nat)
    returns (ds: seq<Dispatch>)
    requires forall g <- fs :: Framing.Sendable(g) && g.payload != []
    requires n <= |fs| && |Stream(fs[..n])| <= len <= |Stream(fs)| && len <= buf.Length
    requires n < |fs| ==> len < |Stream(fs[..n + 1])|
    requires buf[..len] == Stream(fs)[..len]
    ensures |ds| == n
    ensures forall i :: 0 <= i < n ==>
      && ds[i] == DispatchOf(fs[i], clientId, ds[i].off)
      && ds[i].off + ds[i].size <= len
      && buf[ds[i].off..ds[i].off + ds[i].size] == fs[i].payload
  {
    hide Cut, Encode, CanCut, DispatchOf, Stream;
    CutOfStream(fs, len, n);
    var pos;
    ds, pos := ReceiveLoop(buf, len, clientId);
    forall i | 0 <= i < n ensures buf[ds[i].off..ds[i].off + ds[i].size] == fs[i].payload {
      SliceOfSlice(buf[..], 0, len, ds[i].off, ds[i].off + ds[i].size);
    }
  }

  /**
   Encodes parameters and makes the request frame that carries them.  What fits the frame
   limit fits the encoder, and the 16-bit lengths of both layers are exact.
   */
  method MakeRequest(buf: array<byte>, params: array<Param>, n: nat, id: RequestId)
    returns (r: int, f: Frame)
    requires RpcEncoder.EncodeInput(buf, PAYLOAD_LIMIT, params, n)
    requires n <= params.Length && RpcParams.Sendable(params[..n])
    modifies buf
    ensures r >= 0 <==> Rpc.EncodedSize(old(TlvsOf(params[..n]))) <= PAYLOAD_LIMIT
    ensures r >= 0 ==>
      && r <= buf.Length && f == Frame(RequestWord(id), buf[..r])
      && Framing.Sendable(f) && f.payload != []
      && Rpc.Holds(f.payload, old(TlvsOf(params[..n])))
      && HeaderLength(Encode(f)) == |Encode(f)|
  {
    hide TlvsOf, Rpc.Holds, Encode, HeaderLength, Rpc.EncodedSize, Readable, CanSend;
    ghost var ts := TlvsOf(params[..n]);
    r := RpcTheorems.EncodeMessage(buf, PAYLOAD_LIMIT, params, n);
    f := Frame(RequestWord(id), []);
    if r >= 0 {
      RpcTheorems.HeldLength(buf[..r], ts);
      f := Frame(RequestWord(id), buf[..r]);
      HeaderOfEncode(f, []);
      assert Encode(f) + [] == Encode(f);
    }
  }

  /**
   A request's payload is given to one dispatch of the receive callback, under the request's
   id, and decodes to the parameters it holds.
   */
  method Arrives(buf: array<byte>, len: nat, clientId: u16, ghost fs: seq<Frame>, ghost n: nat, i: nat, id: RequestId,
                 ghost ts: seq<Rpc.Tlv>, payload: array<byte>, out: array<Param>)
    returns (ds: seq<Dispatch>, m: int)
    requires forall g <- fs :: Framing.Sendable(g) && g.payload != []
    requires n <= |fs| && |Stream(fs[..n])| <= len <= |Stream(fs)| && len <= buf.Length
    requires n < |fs| ==> len < |Stream(fs[..n + 1])|
    requires buf[..len] == Stream(fs)[..len]
    requires i < n && fs[i].seqNum == RequestWord(id) && Rpc.Holds(fs[i].payload, ts)
    requires |ts| <= out.Length && payload.Length >= MAX_MSGLEN && payload != buf
    modifies out, payload
    ensures |ds| == n && forall j :: 0 <= j < n ==> ds[j] == DispatchOf(fs[j], clientId, ds[j].off)
    ensures ds[i] == ToReceiver(clientId * 0x1_0000 + id, ds[i].off, ds[i].size)
    ensures m == |ts| && RpcParams.Sendable(out[..m]) && TlvsOf(out[..m]) == ts
    ensures forall j :: 0 <= j < m ==>
      && ts[j].Valid() && CanSend(out[j]) && SentKind(out[j]) == ts[j].kind
      && RpcTheorems.ParamReading(out[j]) == RpcReaders.Meaning(ts[j])
  {
    hide Rpc.Holds, Encode, Stream, TlvsOf, CanSend, RpcTheorems.ParamReading, RpcReaders.Meaning, Put, SentKind;
    ds := ReceiveStream(buf, len, clientId, fs, n);
    var d := ds[i];
    RequestsAndRepliesApart(id, clientId);
    assert fs[i] in fs;
    // the callback is handed the payload's address; the decoder sees it as a buffer of its own
    CopyInto(payload, 0, buf[d.off..d.off + d.size]);
    assert payload[..d.size] == fs[i].payload;
    m := RpcTheorems.DecodeMessage(payload, d.size, out, out.Length, ts);
    RpcTheorems.SameBytesSameReadings(out[..m], ts);
  }

  /** The frames that are whole in a stream cut somewhere behind one of them. */
  lemma CutBehind(before: seq<Frame>, f: Frame, after: seq<Frame>, cut: nat) returns (n: nat)
    requires (forall g <- before :: Framing.Sendable(g)) && (forall g <- after :: Framing.Sendable(g))
    requires Framing.Sendable(f)
    requires cut <= |Stream(after)|
    ensures forall g <- before + [f] + after :: Framing.Sendable(g)
    ensures var fs, len := before + [f] + after, |Stream(before)| + |Encode(f)| + cut;
      && |before| < n <= |fs| && |Stream(fs[..n])| <= len <= |Stream(fs)|
      && (n < |fs| ==> len < |Stream(fs[..n + 1])|)
      && Stream(fs)[..len] == Stream(before) + Encode(f) + Stream(after)[..cut]
  {
    hide Encode, Stream;
    var head := before + [f];
    var k := WholeFrames(after, cut);
    StreamOfOne(f);
    StreamConcat(before, [f]);
    StreamConcat(head, after);
    n := |head| + k;
    var fs := head + after;
    assert fs[..n] == head + after[..k];
    assert forall g <- after[..k] :: g in after;
    StreamConcat(head, after[..k]);
    if n < |fs| {
      assert fs[..n + 1] == head + after[..k + 1];
      assert forall g <- after[..k + 1] :: g in after;
      StreamConcat(head, after[..k + 1]);
    }
  }

  lemma StreamOfOne(f: Frame)
    requires Framing.Sendable(f)
    ensures Stream([f]) == Encode(f)
  {
    hide Encode;
    assert [f][1..] == [] && Stream([]) == [];
  }

  /**
   From the sender's structures to the receiver's: parameters whose encoding fits a frame,
   sent as a request among any other frames and received in a buffer that ends anywhere
   behind it, arrive as one dispatch under the request's id, and decode to the same count,
   types, numbers and blobs.
   */
  method SendAndReceive(wire: array<byte>, params: array<Param>, n: nat, id: RequestId,
                        before: seq<Frame>, after: seq<Frame>, cut: nat,
                        clientId: u16, buf: array<byte>, payload: array<byte>, out: array<Param>)
    returns (r: int, f: Frame, ds: seq<Dispatch>, m: int)
    requires RpcEncoder.EncodeInput(wire, PAYLOAD_LIMIT, params, n)
    requires n <= params.Length && n <= out.Length && RpcParams.Sendable(params[..n])
    requires forall g <- before :: Framing.Sendable(g) && g.payload != []
    requires forall g <- after :: Framing.Sendable(g) && g.payload != []
    requires cut <= |Stream(after)| && |Stream(before)| + MAX_MSGLEN + cut <= buf.Length
    requires payload.Length >= MAX_MSGLEN && payload != buf
    modifies wire, buf, payload, out
    ensures r >= 0 <==> Rpc.EncodedSize(old(TlvsOf(params[..n]))) <= PAYLOAD_LIMIT
    ensures r >= 0 ==>
      && |before| < |ds| <= |before + [f] + after|
      && (forall j :: 0 <= j < |ds| ==> ds[j] == DispatchOf((before + [f] + after)[j], clientId, ds[j].off))
      && ds[|before|] == ToReceiver(clientId * 0x1_0000 + id, ds[|before|].off, ds[|before|].size)
      && m == n && RpcParams.Sendable(out[..n])
      && forall j :: 0 <= j < n ==>
           && CanSend(old(params[j])) && CanSend(out[j]) && SentKind(out[j]) == SentKind(old(params[j]))
           && RpcTheorems.ParamReading(out[j]) == old(RpcTheorems.ParamReading(params[j]))
           && RpcTheorems.NumberSurvives(old(params[j]), out[j])
  {
    hide Rpc.Holds, Rpc.EncodedSize, Encode, Stream, TlvsOf, CanSend, RpcTheorems.ParamReading, RpcReaders.Meaning,
      Put, SentKind, DispatchOf, Readable;
    ghost var ts := TlvsOf(params[..n]);
    RpcTheorems.SameBytesSameReadings(params[..n], ts);
    r, f := MakeRequest(wire, params, n, id);
    ds, m := [], 0;
    if r >= 0 {
      ghost var k := CutBehind(before, f, after, cut);
      var s := Stream(before) + Encode(f) + Stream(after)[..cut];
      CopyInto(buf, 0, s);
      ghost var fs := before + [f] + after;
      assert fs[|before|] == f;
      ds, m := Arrives(buf, |s|, clientId, fs, k, |before|, id, ts, payload, out);
      forall j | 0 <= j < n ensures RpcTheorems.NumberSurvives(old(params[j]), out[j]) {
        RpcTheorems.OwnNumber(old(params[j]), out[j]);
      }
    }
  }
}
