/**
 Client ids.  The server counts every value its id counter takes, assigned or skipped: the
 count is a client's tick, which the code does not have.  Ids repeat, ticks do not.
 */
module ClientIds {
  import opened SeqNum

  datatype Slot = Slot(cid: int, tick: nat)

  function CidOf(tick: nat): (cid: int)
    requires tick > 0
    ensures 1 <= cid <= CLIENT_IDS
  {
    Nth(tick, CLIENT_IDS)
  }

  function Cids(ss: seq<Slot>): (cs: set<int>) {
    set s <- ss :: s.cid
  }

  /** Clients hold the id of their tick, and no two hold the same. */
  ghost predicate Distinct(ss: seq<Slot>, ticks: nat) {
    && (forall s <- ss :: 1 <= s.tick <= ticks && s.cid == CidOf(s.tick))
    && (forall i, j :: 0 <= i < j < |ss| ==> ss[i].cid != ss[j].cid)
  }

  /** Every id the counter went through from tick a to tick b is held. */
  ghost predicate AllHeld(a: nat, b: nat, held: set<int>) {
    forall t {:trigger CidOf(t)} :: a < t <= b ==> CidOf(t) in held
  }

  lemma {:induction false} CidsFewerThanSlots(ss: seq<Slot>)
    ensures |Cids(ss)| <= |ss|
  {
    if ss == [] {
      assert Cids(ss) == {};
    } else {
      var last := ss[|ss| - 1];
      CidsFewerThanSlots(ss[..|ss| - 1]);
      assert ss == ss[..|ss| - 1] + [last];
      assert Cids(ss) == Cids(ss[..|ss| - 1]) + {last.cid};
    }
  }

  /** Pigeonhole: the counter cannot go through more held ids than there are, short of a whole round. */
  lemma {:induction false} Pigeonhole(a: nat, b: nat, held: set<int>)
    requires a <= b <= a + CLIENT_IDS && AllHeld(a, b, held)
    ensures b - a <= |held|
    decreases b
  {
    if a < b {
      var id := CidOf(b);
      forall t | a < t <= b - 1 ensures CidOf(t) in held - {id} {
        NthRepeatsIff(t, b, CLIENT_IDS);
      }
      Pigeonhole(a, b - 1, held - {id});
      assert id in held;
      assert |held - {id}| == |held| - 1;
    }
  }

  lemma OneMoreHeld(a: nat, b: nat, held: set<int>)
    requires a <= b && AllHeld(a, b, held) && CidOf(b + 1) in held
    ensures AllHeld(a, b + 1, held)
  {
    forall t {:trigger CidOf(t)} | a < t <= b + 1 ensures CidOf(t) in held {
      assert t <= b || t == b + 1;
    }
  }

  /** Some id is free within one step more than there are ids held. */
  lemma FreeIdSoon(a: nat, b: nat, ss: seq<Slot>)
    requires |ss| < CLIENT_IDS && a <= b <= a + |ss| + 1 && AllHeld(a, b, Cids(ss))
    ensures b <= a + |ss|
  {
    Pigeonhole(a, b, Cids(ss));
    CidsFewerThanSlots(ss);
  }

  /** Between two ticks with the same id the counter went through every id. */
  lemma FullCircle(a: nat, b: nat, id: int) returns (t: nat)
    requires 0 < a < b && CidOf(a) == CidOf(b) && 1 <= id <= CLIENT_IDS
    ensures a < t <= b && CidOf(t) == id
  {
    NthRepeatsIff(a, b, CLIENT_IDS);
    t := if id > CidOf(a) then a + (id - CidOf(a)) else a + (id - CidOf(a)) + CLIENT_IDS;
    Ahead(a, t - a);
  }

  lemma {:induction false} Ahead(a: nat, d: nat)
    requires a > 0 && d <= CLIENT_IDS
    ensures CidOf(a + d) == if CidOf(a) + d <= CLIENT_IDS then CidOf(a) + d else CidOf(a) + d - CLIENT_IDS
  {
    if d > 0 {
      Ahead(a, d - 1);
      ClientIdIsNth(a + d - 1);
    }
  }

  /** A new client at the head of the list, under a free id, leaves the ids distinct. */
  lemma AcceptKeeps(ss: seq<Slot>, before: nat, tick: nat)
    requires Distinct(ss, before) && tick > before && CidOf(tick) !in Cids(ss)
    ensures Distinct([Slot(CidOf(tick), tick)] + ss, tick)
    ensures Distinct(ss, tick)
  {
    forall i | 0 <= i < |ss| ensures ss[i].cid != CidOf(tick) {
      assert ss[i] in ss;
    }
  }
}
