/**
 Sequence numbers.  The upper half of the 32-bit word is a client id; the lower half is a
 15-bit request id and, in bit 15, a mark that tells a new request from a reply.
 */
module SeqNum {
  import opened Bytes

  const NEW_REQUEST := 0x8000

  /** The number of ids a request counter and a client counter go through before they repeat. */
  const REQUEST_IDS := 0x7FFF
  const CLIENT_IDS := 0xFFFF

  type RequestId = x: int | 1 <= x < 0x8000 witness 1

  function ClientId(s: u32): (c: u16) { s / 0x1_0000 }

  function SeqId(s: u32): (q: u16) { s % 0x1_0000 }

  predicate IsNewRequest(s: u32) { s / NEW_REQUEST % 2 == 1 }

  /** What a receiver takes a message to be. */
  datatype Kind = Unsolicited | Request | Reply

  function Classify(s: u32): (k: Kind) {
    if SeqId(s) == 0 then Unsolicited else if IsNewRequest(SeqId(s)) then Request else Reply
  }

  /** The word a new request travels with: the id with bit 15 set, and no client id. */
  function RequestWord(id: RequestId): (s: u32) { id + NEW_REQUEST }

  /** The word handed to the receive callback: the lower half without bit 15, under the receiver's id for the sender. */
  function AppWord(s: u32, clientId: u16): (a: u32) {
    clientId * 0x1_0000 + SeqId(s) % NEW_REQUEST
  }

  /**
   Direction separation: whatever ids the two ends have outstanding, a request is taken for
   a request and the answer to it for a reply carrying the same id.
   */
  lemma RequestsAndRepliesApart(id: RequestId, clientId: u16)
    ensures Classify(RequestWord(id)) == Request && RequestWord(id) == 32768 + id
    ensures var a := AppWord(RequestWord(id), clientId);
      Classify(a) == Reply && SeqId(a) == id && ClientId(a) == clientId && a == 65536 * clientId + id
  {
    var a := AppWord(RequestWord(id), clientId);
    assert RequestWord(id) == 0x8000 + id;
    assert a == clientId * 0x1_0000 + id;
  }

  /** An application never sees bit 15; the word it sees is 0 in the lower half only if nothing is to be answered. */
  lemma AppWordIsClean(s: u32, clientId: u16)
    ensures !IsNewRequest(AppWord(s, clientId)) && ClientId(AppWord(s, clientId)) == clientId
    ensures Classify(s) == Unsolicited ==> SeqId(AppWord(s, clientId)) == 0
    ensures Classify(s) == Request ==>
      SeqId(AppWord(s, clientId)) == SeqId(s) - NEW_REQUEST
  {
    var q := SeqId(s) % NEW_REQUEST;
    assert AppWord(s, clientId) == clientId * 0x1_0000 + q;
    assert (clientId * 0x1_0000 + q) / 0x1_0000 == clientId && (clientId * 0x1_0000 + q) % 0x1_0000 == q;
    assert AppWord(s, clientId) / NEW_REQUEST == clientId * 2;
  }

  /** The step of the request counter: `(last + 1) & 0x7fff`, skipping 0. */
  function NextRequestId(last: u16): (id: RequestId) {
    var n := (last + 1) % 0x8000;
    if n == 0 then 1 else n
  }

  /** The step of the client counter, which wraps at 16 bits and skips 0. */
  function NextClientId(last: u16): (id: u16)
    ensures id != 0
  {
    var n := (last + 1) % 0x1_0000;
    if n == 0 then 1 else n
  }

  /** The n-th value of a counter that starts before 1 and goes round 1..m. */
  function Nth(n: nat, m: int): (id: int)
    requires m > 0
    ensures 0 <= id <= m && (id == 0 <==> n == 0)
  {
    if n == 0 then 0 else (n - 1) % m + 1
  }

  lemma NthNext(n: nat, m: int)
    requires m > 0
    ensures Nth(n + 1, m) == if Nth(n, m) == m then 1 else Nth(n, m) + 1
  {
    if n > 0 {
      var q, r := (n - 1) / m, (n - 1) % m;
      assert n - 1 == q * m + r;
      if r == m - 1 {
        assert n == (q + 1) * m by { assert (q + 1) * m == q * m + m; }
        ModOf(q + 1, 0, m);
      } else {
        assert n == q * m + (r + 1);
        ModOf(q, r + 1, m);
      }
    } else {
      ModOf(0, 0, m);
    }
  }

  lemma ModOf(q: int, r: int, m: int)
    requires 0 <= r < m
    ensures (q * m + r) % m == r && (q * m + r) / m == q
  {
    var x := q * m + r;
    assert x == x / m * m + x % m;
    var d := x / m - q;
    assert d * m == r - x % m;
    if d >= 1 {
      MultipleMonotone(1, d, m);
    } else if d <= -1 {
      MultipleMonotone(d, -1, m);
    }
  }

  lemma MultipleMonotone(a: int, b: int, m: nat)
    requires a <= b
    ensures a * m <= b * m
  {
  }

  /** The counters in the code are these: the n-th generated id is ((n - 1) mod 32767) + 1. */
  lemma RequestIdIsNth(n: nat)
    ensures NextRequestId(Nth(n, REQUEST_IDS)) == Nth(n + 1, REQUEST_IDS)
  {
    NthNext(n, REQUEST_IDS);
  }

  lemma ClientIdIsNth(n: nat)
    ensures NextClientId(Nth(n, CLIENT_IDS)) == Nth(n + 1, CLIENT_IDS)
  {
    NthNext(n, CLIENT_IDS);
  }

  /** A counter repeats an id exactly after whole rounds, so never within a window shorter than a round. */
  lemma NthRepeatsIff(a: nat, b: nat, m: int)
    requires m > 0 && 0 < a <= b
    ensures Nth(a, m) == Nth(b, m) <==> (b - a) % m == 0
    ensures b - a < m && Nth(a, m) == Nth(b, m) ==> a == b
  {
    var q, ra, rb := (b - 1) / m - (a - 1) / m, (a - 1) % m, (b - 1) % m;
    assert b - a == q * m + (rb - ra) by {
      assert q * m == (b - 1) / m * m - (a - 1) / m * m;
    }
    if rb >= ra {
      ModOf(q, rb - ra, m);
    } else {
      assert (q - 1) * m == q * m - m;
      ModOf(q - 1, rb - ra + m, m);
    }
    if b - a < m {
      ModOf(0, b - a, m);
    }
  }
}
