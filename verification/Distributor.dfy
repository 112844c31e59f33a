/**
The light client's request distributor (les/distributor.go). Whether a peer can queue, which
requests it can serve and how long each would have to wait are parameters of a call.
*/
module Distributor {
  import opened Wrappers

  type Peer = nat

  datatype Req = Req(id: nat, reqOrder: nat)

  /** The peers' answers while a request is being chosen. */
  datatype Answers = Answers(canQueue: Peer -> bool, canSend: (Req, Peer) -> bool, waitBefore: (Peer, Req) -> nat) {
    predicate Serves(p: Peer, r: Req) {
      canQueue(p) && canSend(r, p)
    }
  }

  // ----- The queue

  ghost predicate InOrder(q: seq<Req>) {
    forall i, j | 0 <= i < j < |q| :: q[i].reqOrder < q[j].reqOrder
  }

  /** The list with `r` put in at position `i`. */
  ghost function Inserted(q: seq<Req>, r: Req, i: nat): seq<Req>
    requires i <= |q|
  {
    q[..i] + [r] + q[i..]
  }

  // ----- Which request a peer would get

  /** The first request that the peer serves, or the length of the queue. */
  ghost function First(q: seq<Req>, a: Answers, p: Peer): (i: nat)
    ensures i <= |q| && (i < |q| ==> a.Serves(p, q[i])) && forall j | 0 <= j < i :: !a.Serves(p, q[j])
  {
    if q == [] || a.Serves(p, q[0]) then 0 else 1 + First(q[1..], a, p)
  }

  /** How long the peer's first request would have to wait. */
  ghost function Wait(q: seq<Req>, a: Answers, p: Peer): nat {
    if First(q, a, p) < |q| then a.waitBefore(p, q[First(q, a, p)]) else 0
  }

  /** The earliest request of the queue that the peer can queue and be sent. */
  ghost predicate Granted(q: seq<Req>, a: Answers, p: Peer, x: Req) {
    && a.canQueue(p)
    && exists i | 0 <= i < |q| :: q[i] == x && a.canSend(x, p) && forall j | 0 <= j < i :: !a.canSend(q[j], p)
  }

  lemma {:induction false} GrantedIff(q: seq<Req>, a: Answers, p: Peer, x: Req)
    ensures Granted(q, a, p, x) <==> First(q, a, p) < |q| && q[First(q, a, p)] == x
    ensures First(q, a, p) < |q| ==> Wait(q, a, p) == a.waitBefore(p, q[First(q, a, p)])
    ensures First(q, a, p) == |q| <==> forall y <- q :: !(a.canQueue(p) && a.canSend(y, p))
  {
    var i := First(q, a, p);
    if i < |q| { assert a.Serves(p, q[i]); }
    if Granted(q, a, p, x) {
      var k :| 0 <= k < |q| && q[k] == x && a.canSend(x, p) && forall j | 0 <= j < k :: !a.canSend(q[j], p);
      assert a.Serves(p, q[k]);
    }
  }

  /** A peer, the request for it and the wait. */
  datatype Offer = Offer(peer: Peer, req: Req, wait: nat)

  ghost function OfferTo(q: seq<Req>, a: Answers, p: Peer): Offer
    requires First(q, a, p) < |q|
  {
    Offer(p, q[First(q, a, p)], Wait(q, a, p))
  }

  /**
  Requests before `n` have been offered to all peers, request `n` to all but `rest`. The
  peers with an offer are `checked`; offers without a wait are in `now`, and `best` is an
  offer with the shortest wait among the others.
  */
  ghost predicate Offered(q: seq<Req>, a: Answers, peers: set<Peer>, n: nat, rest: set<Peer>,
                          checked: set<Peer>, now: set<Offer>, best: Option<Offer>) {
    && (forall p :: p in checked <==> p in peers && First(q, a, p) < |q|
                                      && (First(q, a, p) < n || (First(q, a, p) == n && p !in rest)))
    && (forall o <- now :: o.peer in checked && o == OfferTo(q, a, o.peer) && o.wait == 0)
    && (forall p <- checked :: Wait(q, a, p) == 0 ==> OfferTo(q, a, p) in now)
    && (best.Some? ==>
          best.value.peer in checked && best.value == OfferTo(q, a, best.value.peer) && best.value.wait > 0)
    && (forall p <- checked :: Wait(q, a, p) > 0 ==> best.Some? && best.value.wait <= Wait(q, a, p))
  }

  lemma {:induction false} NextRequestOffered(q: seq<Req>, a: Answers, peers: set<Peer>, n: nat,
                                              checked: set<Peer>, now: set<Offer>, best: Option<Offer>)
    requires n < |q| && Offered(q, a, peers, n, {}, checked, now, best)
    ensures Offered(q, a, peers, n + 1, peers, checked, now, best)
  {
  }

  /** What offering request `n` to `p` leaves. */
  ghost function BestOf(best: Option<Offer>, o: Offer): Option<Offer> {
    if o.wait > 0 && (best.None? || o.wait < best.value.wait) then Some(o) else best
  }

  lemma {:induction false} OfferStep(q: seq<Req>, a: Answers, peers: set<Peer>, n: nat, rest: set<Peer>, p: Peer,
                                     checked: set<Peer>, now: set<Offer>, best: Option<Offer>)
    requires n < |q| && Offered(q, a, peers, n, rest, checked, now, best) && p in rest && rest <= peers
    ensures First(q, a, p) == n <==> p !in checked && a.Serves(p, q[n])
    ensures First(q, a, p) == n ==>
              var o := OfferTo(q, a, p);
              o == Offer(p, q[n], a.waitBefore(p, q[n]))
              && Offered(q, a, peers, n, rest - {p}, checked + {p},
                         if o.wait == 0 then now + {o} else now, BestOf(best, o))
    ensures First(q, a, p) != n ==> Offered(q, a, peers, n, rest - {p}, checked, now, best)
  {
  }

  /** Offer request `n` to every peer that has no offer yet. */
  method OfferToAll(q: seq<Req>, a: Answers, peers: set<Peer>, n: nat, checked0: set<Peer>, now0: set<Offer>,
                    best0: Option<Offer>)
    returns (canSend: bool, checked: set<Peer>, now: set<Offer>, best: Option<Offer>)
    requires n < |q| && Offered(q, a, peers, n, peers, checked0, now0, best0)
    ensures Offered(q, a, peers, n, {}, checked, now, best)
    ensures canSend <==> exists p <- peers :: First(q, a, p) == n
  {
    canSend, checked, now, best := false, checked0, now0, best0;
    var rest := peers;
    while rest != {}
      invariant rest <= peers && Offered(q, a, peers, n, rest, checked, now, best)
      invariant canSend <==> exists p <- peers - rest :: First(q, a, p) == n
      decreases rest
    {
      var p :| p in rest;
      OfferStep(q, a, peers, n, rest, p, checked, now, best);
      rest := rest - {p};
      if p !in checked && a.Serves(p, q[n]) {
        canSend := true;
        var wait := a.waitBefore(p, q[n]);
        if wait == 0 {
          now := now + {Offer(p, q[n], 0)};
        } else if best.None? || wait < best.value.wait {
          best := Some(Offer(p, q[n], wait));
        }
        checked := checked + {p};
      }
    }
  }

  /**
  Choose the next request. `drop` requests at the front that no peer serves are dropped. Each
  peer is offered the earliest request that it serves; an offer without a wait is preferred,
  then the one with the shortest wait.
  */
  method NextRequest(q: seq<Req>, a: Answers, peers: set<Peer>) returns (drop: nat, r: Option<Offer>)
    ensures drop <= |q| && (forall p <- peers :: drop <= First(q, a, p))
    ensures drop < |q| ==> exists p <- peers :: First(q, a, p) == drop
    ensures r.None? <==> drop == |q|
    ensures r.Some? ==>
              r.value.peer in peers && First(q, a, r.value.peer) < |q| && r.value == OfferTo(q, a, r.value.peer)
    ensures r.Some? ==> forall p <- peers :: First(q, a, p) < |q| ==> r.value.wait <= Wait(q, a, p)
    // The result in terms of the peers' answers.
    ensures r.Some? ==> Granted(q, a, r.value.peer, r.value.req)
    ensures r.Some? ==> r.value.wait == a.waitBefore(r.value.peer, r.value.req)
    ensures r.Some? ==> forall p, x | p in peers && Granted(q, a, p, x) :: r.value.wait <= a.waitBefore(p, x)
    ensures r.None? <==> forall p, x | p in peers && x in q :: !(a.canQueue(p) && a.canSend(x, p))
    ensures forall i, p | 0 <= i < drop && p in peers :: !(a.canQueue(p) && a.canSend(q[i], p))
  {
    drop := 0;
    var n := 0;
    var checked: set<Peer>, now: set<Offer>, best: Option<Offer> := {}, {}, None;
    while (|peers| > 0 || drop == n) && n < |q|
      invariant drop <= n <= |q| && Offered(q, a, peers, n, peers, checked, now, best)
      invariant forall p <- peers :: drop <= First(q, a, p)
      invariant drop < n ==> exists p <- peers :: First(q, a, p) == drop
    {
      var canSend;
      canSend, checked, now, best := OfferToAll(q, a, peers, n, checked, now, best);
      NextRequestOffered(q, a, peers, n, checked, now, best);
      if !canSend && drop == n { drop := drop + 1; }
      n := n + 1;
    }
    assert forall p <- peers :: First(q, a, p) < |q| <==> p in checked;
    forall p, x
      ensures Granted(q, a, p, x) <==> First(q, a, p) < |q| && q[First(q, a, p)] == x
      ensures First(q, a, p) < |q| ==> Wait(q, a, p) == a.waitBefore(p, q[First(q, a, p)])
      ensures First(q, a, p) == |q| <==> forall y <- q :: !(a.canQueue(p) && a.canSend(y, p))
    {
      GrantedIff(q, a, p, x);
    }
    if now != {} {
      var c :| c in now;
      return drop, Some(c);
    }
    return drop, best;
  }

  /** The position at which a request goes into the queue: behind all earlier ones. */
  method Position(q: seq<Req>, r: Req) returns (i: nat)
    requires InOrder(q)
    ensures i <= |q| && (forall j | 0 <= j < i :: q[j].reqOrder < r.reqOrder)
    ensures i < |q| ==> q[i].reqOrder >= r.reqOrder
  {
    if |q| == 0 || r.reqOrder > q[|q| - 1].reqOrder { return |q|; }
    i := 0;
    while q[i].reqOrder < r.reqOrder
      invariant i < |q| && forall j | 0 <= j < i :: q[j].reqOrder < r.reqOrder
      decreases |q| - i
    {
      i := i + 1;
    }
  }

  lemma {:induction false} InsertedInOrder(q: seq<Req>, r: Req, i: nat)
    requires InOrder(q) && i <= |q| && (forall j | 0 <= j < i :: q[j].reqOrder < r.reqOrder)
    requires i < |q| ==> q[i].reqOrder > r.reqOrder
    ensures InOrder(Inserted(q, r, i))
  {
    forall j | i <= j < |q| ensures q[j].reqOrder > r.reqOrder {
      if j > i { assert q[i].reqOrder < q[j].reqOrder; }
    }
  }

  class RequestDistributor {
    var reqQueue: seq<Req>
    var lastReqOrder: nat
    var peers: set<Peer>

    /** The queue is in the order of creation, and no order is given out twice. */
    ghost predicate Valid()
      reads this
    {
      InOrder(reqQueue) && forall r <- reqQueue :: 0 < r.reqOrder <= lastReqOrder
    }

    constructor ()
      ensures Valid() && reqQueue == [] && peers == {}
    {
      reqQueue, lastReqOrder, peers := [], 0, {};
    }

    /** Queue a new request at the end, or one that is sent again where it was; `r'` has its order. */
    method Queue(r: Req) returns (r': Req, ghost i: nat)
      requires Valid() && r.reqOrder <= lastReqOrder && forall x <- reqQueue :: x.reqOrder != r.reqOrder
      modifies this`reqQueue, this`lastReqOrder
      ensures Valid() && i <= |old(reqQueue)| && reqQueue == Inserted(old(reqQueue), r', i)
      ensures r'.id == r.id && r'.reqOrder == if r.reqOrder == 0 then old(lastReqOrder) + 1 else r.reqOrder
      ensures r.reqOrder == 0 ==> i == |old(reqQueue)|
      ensures lastReqOrder == if r.reqOrder == 0 then old(lastReqOrder) + 1 else old(lastReqOrder)
    {
      r' := r;
      if r'.reqOrder == 0 {
        lastReqOrder := lastReqOrder + 1;
        r' := r'.(reqOrder := lastReqOrder);
      }
      var at := Position(reqQueue, r');
      i := at;
      InsertedInOrder(reqQueue, r', at);
      reqQueue := reqQueue[..at] + [r'] + reqQueue[at..];
    }

    /** Take a request out, if it is still queued. */
    method Remove(r: Req) returns (found: bool)
      requires Valid()
      modifies this`reqQueue
      ensures Valid() && found == (r in old(reqQueue)) && (!found ==> reqQueue == old(reqQueue))
      ensures forall x :: x in reqQueue <==> x in old(reqQueue) && x != r
    {
      for i := 0 to |reqQueue|
        invariant reqQueue == old(reqQueue) && r !in reqQueue[..i]
      {
        if reqQueue[i] == r {
          ghost var q := reqQueue;
          reqQueue := reqQueue[..i] + reqQueue[i + 1..];
          assert forall x <- q :: x == r || x in reqQueue;
          return true;
        }
      }
      assert reqQueue[..|reqQueue|] == reqQueue;
      return false;
    }

    /** Find the next request to send, dropping those at the front that no registered peer can serve. */
    method Next(a: Answers) returns (r: Option<Offer>, ghost drop: nat)
      requires Valid()
      modifies this`reqQueue
      ensures Valid() && drop <= |old(reqQueue)| && reqQueue == old(reqQueue)[drop..]
      ensures forall p, i | p in peers && 0 <= i < drop :: !(a.canQueue(p) && a.canSend(old(reqQueue)[i], p))
      ensures reqQueue != [] ==> r.Some? && exists p <- peers :: a.canQueue(p) && a.canSend(reqQueue[0], p)
      ensures r.Some? ==> r.value.peer in peers && Granted(old(reqQueue), a, r.value.peer, r.value.req)
      ensures r.Some? ==> r.value.wait == a.waitBefore(r.value.peer, r.value.req)
      ensures r.Some? ==>
                forall p, x | p in peers && Granted(old(reqQueue), a, p, x) :: r.value.wait <= a.waitBefore(p, x)
    {
      var n;
      n, r := NextRequest(reqQueue, a, peers);
      drop := n;
      reqQueue := reqQueue[n..];
    }
  }
}
