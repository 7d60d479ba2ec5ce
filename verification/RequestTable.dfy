/**
 The pending requests of one connection end, as a value.  Every id handed out has an issue
 number, counted from 1, which the code does not have: ids repeat, issue numbers do not.
 */
module RequestTable {
  import opened SeqNum

  datatype Entry = Entry(id: RequestId, issue: nat)

  /** `pending` is the list, newest first; `timers` are the issue numbers whose timeout can still fire. */
  datatype Table = Table(issued: nat, pending: seq<Entry>, timers: set<nat>)

  const EMPTY := Table(0, [], {})

  /** The id of the n-th request. */
  function IdOf(n: nat): (id: RequestId)
    requires n > 0
    ensures id == Nth(n, REQUEST_IDS)
  {
    Nth(n, REQUEST_IDS)
  }

  function Issues(es: seq<Entry>): (ks: set<nat>) {
    set e <- es :: e.issue
  }

  /** The place of the first entry with this id; the length of the list if there is none. */
  function IndexOf(es: seq<Entry>, id: RequestId): (i: nat)
    ensures i <= |es|
    ensures i < |es| ==> es[i].id == id
    ensures forall j :: 0 <= j < i ==> es[j].id != id
  {
    if es == [] || es[0].id == id then 0 else 1 + IndexOf(es[1..], id)
  }

  /** The list without its first entry with this id; every other entry keeps its place in the order. */
  function Without(es: seq<Entry>, id: RequestId): (r: seq<Entry>) {
    var i := IndexOf(es, id);
    if i < |es| then Removed(es, i) else es
  }

  /** A new request at the head of the list, with a timer. */
  function Register(t: Table): (r: Table) {
    var n := t.issued + 1;
    Table(n, [Entry(IdOf(n), n)] + t.pending, t.timers + {n})
  }

  /** A request whose timer could not be made: it is gone again, but its id is used up. */
  function RegisterInVain(t: Table): (r: Table) {
    t.(issued := t.issued + 1)
  }

  /** A timeout or a send failure of request k: its timer goes, and the first entry with its id. */
  function Cancel(t: Table, k: nat): (r: Table)
    requires k > 0
  {
    t.(pending := Without(t.pending, IdOf(k)), timers := t.timers - {k})
  }

  /** The entry a reply with this id is matched with. */
  function Matched(t: Table, id: RequestId): (e: Entry)
    requires IndexOf(t.pending, id) < |t.pending|
  {
    t.pending[IndexOf(t.pending, id)]
  }

  predicate HasMatch(t: Table, id: RequestId) {
    IndexOf(t.pending, id) < |t.pending|
  }

  /** A reply: the matched entry and its timer go; a reply with no match changes nothing. */
  function Answer(t: Table, id: RequestId): (r: Table) {
    if HasMatch(t, id)
    then t.(pending := Without(t.pending, id), timers := t.timers - {Matched(t, id).issue})
    else t
  }

  function ShutDown(t: Table): (r: Table) {
    t.(pending := [], timers := {})
  }

  /** Entries carry the id of their issue number, newest first. */
  ghost predicate Ordered(t: Table) {
    && (forall e <- t.pending :: 1 <= e.issue <= t.issued && e.id == IdOf(e.issue))
    && (forall i, j :: 0 <= i < j < |t.pending| ==> t.pending[i].issue > t.pending[j].issue)
  }

  /** Timer ownership: the live timers and the pending requests are in one-to-one correspondence. */
  ghost predicate Valid(t: Table) {
    Ordered(t) && t.timers == Issues(t.pending)
  }

  /** All pending requests are among the last 32767 issued. */
  ghost predicate InWindow(t: Table) {
    forall e <- t.pending :: t.issued - e.issue < REQUEST_IDS
  }

  /** Within the window pending ids are pairwise distinct. */
  lemma DistinctIds(t: Table)
    requires Ordered(t) && InWindow(t)
    ensures forall i, j :: 0 <= i < j < |t.pending| ==> t.pending[i].id != t.pending[j].id
  {
    forall i, j | 0 <= i < j < |t.pending| ensures t.pending[i].id != t.pending[j].id {
      assert t.pending[i] in t.pending && t.pending[j] in t.pending;
      NthRepeatsIff(t.pending[j].issue, t.pending[i].issue, REQUEST_IDS);
    }
  }

  /** The list without the entry at i. */
  function Removed<T>(es: seq<T>, i: nat): (r: seq<T>)
    requires i < |es|
    ensures |r| == |es| - 1
    ensures forall j :: 0 <= j < |r| ==> r[j] == es[if j < i then j else j + 1]
  {
    es[..i] + es[i + 1..]
  }

  lemma RemovedDistinct<T>(es: seq<T>, i: nat)
    requires i < |es| && forall j, k :: 0 <= j < k < |es| ==> es[j] != es[k]
    ensures var r := Removed(es, i); forall j, k :: 0 <= j < k < |r| ==> r[j] != r[k]
  {
  }

  lemma RemovedMembers(es: seq<Entry>, i: nat)
    requires i < |es|
    ensures forall e <- es :: e == es[i] || e in Removed(es, i)
    ensures forall e <- Removed(es, i) :: e in es
  {
    var r := Removed(es, i);
    forall e | e in es ensures e == es[i] || e in r {
      var j :| 0 <= j < |es| && es[j] == e;
      assert j < i ==> r[j] == e;
      assert j > i ==> r[j - 1] == e;
    }
  }

  /** ... holds every other entry, in order, and every other issue number. */
  lemma RemoveAt(t: Table, i: nat)
    requires Ordered(t) && i < |t.pending|
    ensures Ordered(t.(pending := Removed(t.pending, i)))
    ensures Issues(Removed(t.pending, i)) == Issues(t.pending) - {t.pending[i].issue}
  {
    hide IdOf, Removed;
    var es, r := t.pending, Removed(t.pending, i);
    RemovedMembers(es, i);
    RemovedOrder(t, i);
    forall n ensures n in Issues(r) <==> n in Issues(es) && n != es[i].issue {
      if n in Issues(r) {
        var j :| 0 <= j < |r| && r[j].issue == n;
        assert n == es[if j < i then j else j + 1].issue;
      }
    }
  }

  lemma RemovedOrder(t: Table, i: nat)
    requires Ordered(t) && i < |t.pending|
    ensures Ordered(t.(pending := Removed(t.pending, i)))
  {
    hide IdOf, Removed;
    RemovedMembers(t.pending, i);
  }

  lemma RegisterKeeps(t: Table)
    requires Valid(t)
    ensures Valid(Register(t)) && Valid(RegisterInVain(t))
  {
    var r := Register(t);
    assert r.pending[0].issue == r.issued;
    assert forall e :: e in r.pending <==> e == r.pending[0] || e in t.pending;
  }

  /** The first entry with the id of request k is that request itself. */
  ghost predicate FirstIs(t: Table, k: nat) {
    k > 0 && HasMatch(t, IdOf(k)) && Matched(t, IdOf(k)).issue == k
  }

  /** Where a request with a live timer is in the list: not before the first entry with its id. */
  lemma PlaceOf(t: Table, k: nat) returns (j: nat)
    requires Valid(t) && k in t.timers
    ensures k > 0 && j < |t.pending| && t.pending[j] == Entry(IdOf(k), k)
    ensures IndexOf(t.pending, IdOf(k)) <= j
  {
    var e :| e in t.pending && e.issue == k;
    j :| 0 <= j < |t.pending| && t.pending[j] == e;
  }

  /** The first entry with the id of request k is request k exactly when no newer one has been given that id. */
  lemma FirstIff(t: Table, k: nat)
    requires Valid(t) && k in t.timers
    ensures k > 0 && HasMatch(t, IdOf(k)) && k <= Matched(t, IdOf(k)).issue
    ensures FirstIs(t, k) <==> forall e <- t.pending :: e.issue > k ==> e.id != IdOf(k)
  {
    hide IdOf;
    var j := PlaceOf(t, k);
    var i := IndexOf(t.pending, IdOf(k));
    assert t.pending[i] in t.pending;
    if FirstIs(t, k) {
      assert i == j;
      forall e | e in t.pending && e.issue > k ensures e.id != IdOf(k) {
        var n :| 0 <= n < |t.pending| && t.pending[n] == e;
        assert n < j;
      }
    }
  }

  /**
   A timeout or send failure removes exactly its own request, and keeps timers and requests
   in correspondence, exactly when no newer pending request has been given the same id.
   */
  lemma CancelIff(t: Table, k: nat)
    requires Valid(t) && k in t.timers
    ensures k > 0
    ensures Valid(Cancel(t, k)) <==> forall e <- t.pending :: e.issue > k ==> e.id != IdOf(k)
    ensures Valid(Cancel(t, k)) <==> Issues(Cancel(t, k).pending) == Issues(t.pending) - {k}
  {
    hide IdOf;
    FirstIff(t, k);
    var i := IndexOf(t.pending, IdOf(k));
    RemoveAt(t, i);
    if t.pending[i].issue != k {
      assert k in Issues(Cancel(t, k).pending);
    }
  }

  /** Within the window a timeout or send failure always does. */
  lemma CancelInWindow(t: Table, k: nat)
    requires Valid(t) && InWindow(t) && k in t.timers
    ensures FirstIs(t, k) && Valid(Cancel(t, k))
    ensures Issues(Cancel(t, k).pending) == Issues(t.pending) - {k}
  {
    hide IdOf, Issues, Ordered, InWindow, Cancel;
    FirstIff(t, k);
    CancelIff(t, k);
    DistinctIds(t);
    var _ := PlaceOf(t, k);
  }

  /** A reply removes exactly the request it is matched with, even if ids repeat. */
  lemma AnswerKeeps(t: Table, id: RequestId)
    requires Valid(t)
    ensures Valid(Answer(t, id))
    ensures HasMatch(t, id) ==>
      && Matched(t, id) in t.pending
      && Issues(Answer(t, id).pending) == Issues(t.pending) - {Matched(t, id).issue}
    ensures !HasMatch(t, id) ==> Answer(t, id) == t && forall e <- t.pending :: e.id != id
  {
    if HasMatch(t, id) {
      RemoveAt(t, IndexOf(t.pending, id));
    }
  }

  /**
   Correlation: a reply to request k that arrives before 32767 newer requests were issued is
   matched with request k if that is pending, and with nothing otherwise.
   */
  lemma ReplyMatchesIff(t: Table, k: nat)
    requires Ordered(t) && InWindow(t) && 1 <= k <= t.issued && t.issued - k < REQUEST_IDS
    ensures HasMatch(t, IdOf(k)) <==> k in Issues(t.pending)
    ensures HasMatch(t, IdOf(k)) ==> Matched(t, IdOf(k)).issue == k
  {
    if HasMatch(t, IdOf(k)) {
      var e := Matched(t, IdOf(k));
      assert e in t.pending;
      NthRepeatsIff(if k < e.issue then k else e.issue, if k < e.issue then e.issue else k, REQUEST_IDS);
    }
  }

  /**
   However late it is, and whatever ids repeat, a reply to request k is given to another
   request exactly when a newer request with the same id is pending, or k is no longer
   pending and an older one is.  Ids are the same exactly whole rounds of the counter apart.
   */
  lemma MisdeliveredIff(t: Table, k: nat)
    requires Ordered(t) && k > 0
    ensures HasMatch(t, IdOf(k)) && Matched(t, IdOf(k)).issue != k
       <==> || (exists e <- t.pending :: e.issue > k && (e.issue - k) % REQUEST_IDS == 0)
            || (k !in Issues(t.pending) && exists e <- t.pending :: e.issue < k && (k - e.issue) % REQUEST_IDS == 0)
  {
    hide IdOf;
    forall e | e in t.pending
      ensures e.issue > k ==> (e.id == IdOf(k) <==> (e.issue - k) % REQUEST_IDS == 0)
      ensures e.issue < k ==> (e.id == IdOf(k) <==> (k - e.issue) % REQUEST_IDS == 0)
      ensures e.issue == k ==> e.id == IdOf(k)
    {
      SameIdIff(t, e, k);
    }
    MatchedIsNewest(t, IdOf(k));
  }

  /** A reply is matched with the newest of the requests that have its id. */
  lemma MatchedIsNewest(t: Table, id: RequestId)
    requires Ordered(t)
    ensures HasMatch(t, id) <==> exists e <- t.pending :: e.id == id
    ensures HasMatch(t, id) ==>
      Matched(t, id) in t.pending && forall e <- t.pending :: e.id == id ==> e.issue <= Matched(t, id).issue
  {
    hide IdOf;
    forall e | e in t.pending && e.id == id ensures HasMatch(t, id) && e.issue <= Matched(t, id).issue {
      var j :| 0 <= j < |t.pending| && t.pending[j] == e;
      assert IndexOf(t.pending, id) <= j;
    }
  }

  lemma SameIdIff(t: Table, e: Entry, k: nat)
    requires Ordered(t) && k > 0 && e in t.pending
    ensures e.issue > k ==> (e.id == IdOf(k) <==> (e.issue - k) % REQUEST_IDS == 0)
    ensures e.issue < k ==> (e.id == IdOf(k) <==> (k - e.issue) % REQUEST_IDS == 0)
    ensures e.issue == k ==> e.id == IdOf(k)
  {
    if e.issue >= k {
      NthRepeatsIff(k, e.issue, REQUEST_IDS);
    } else {
      NthRepeatsIff(e.issue, k, REQUEST_IDS);
    }
  }

  lemma WithoutOrder(t: Table, id: RequestId)
    requires Ordered(t)
    ensures Ordered(t.(pending := Without(t.pending, id)))
  {
    hide IdOf, Removed, Ordered;
    if HasMatch(t, id) {
      RemovedOrder(t, IndexOf(t.pending, id));
    }
  }

  /** Whatever happens, and whatever ids repeat, the list stays in the order of issue. */
  lemma StaysOrdered(t: Table, k: nat, id: RequestId)
    requires Ordered(t) && k > 0
    ensures Ordered(Register(t)) && Ordered(RegisterInVain(t)) && Ordered(ShutDown(t))
    ensures Ordered(Cancel(t, k)) && Ordered(Answer(t, id))
  {
    hide IdOf, Without, HasMatch;
    WithoutOrder(t, id);
    WithoutOrder(t, IdOf(k));
  }
}
