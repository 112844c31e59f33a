/**
One-to-many event delivery (event/feed.go). Channels are named by numbers. The slot at
index 0 of the send list belongs to the channel on which removals arrive, `REMOVE_SUB`.
*/
module Feed {
  type Chan = nat

  const REMOVE_SUB: Chan := 0
  const FIRST_SUB_SEND_CASE := 1

  // ----- Lists without repetition

  ghost predicate Distinct(s: seq<Chan>) {
    forall i, j | 0 <= i < j < |s| :: s[i] != s[j]
  }

  ghost function Elems(s: seq<Chan>): set<Chan> {
    set i | 0 <= i < |s| :: s[i]
  }

  /** The list with the elements at `i` and `j` exchanged. */
  ghost function Swapped(s: seq<Chan>, i: nat, j: nat): seq<Chan>
    requires i < |s| && j < |s|
  {
    s[i := s[j]][j := s[i]]
  }

  /** The list without the element at `i`. */
  ghost function Without(s: seq<Chan>, i: nat): seq<Chan>
    requires i < |s|
  {
    s[..i] + s[i + 1..]
  }

  lemma {:induction false} WithoutIs(s: seq<Chan>, i: nat)
    requires Distinct(s) && i < |s|
    ensures Distinct(Without(s, i)) && Elems(Without(s, i)) == Elems(s) - {s[i]}
  {
    var t := Without(s, i);
    assert forall k | 0 <= k < |t| :: t[k] == if k < i then s[k] else s[k + 1];
    forall x | x in Elems(s) - {s[i]} ensures x in Elems(t) {
      var k :| 0 <= k < |s| && s[k] == x;
      assert t[if k < i then k else k - 1] == x;
    }
  }

  lemma {:induction false} ElemsTake(s: seq<Chan>, n: nat)
    requires n < |s|
    ensures Elems(s[..n + 1]) == Elems(s[..n]) + {s[n]}
  {
    assert forall k | 0 <= k < n :: s[..n + 1][k] == s[..n][k];
    assert s[..n + 1][n] == s[n];
  }

  /** Deactivating case `i` of the first `p` takes exactly it out of the prefix and keeps the whole list's channels. */
  lemma {:induction false} SwappedIs(s: seq<Chan>, i: nat, p: nat)
    requires Distinct(s) && i < p <= |s|
    ensures var t := Swapped(s, i, p - 1);
            && Distinct(t) && Elems(t) == Elems(s) && Elems(t[..p - 1]) == Elems(s[..p]) - {s[i]}
  {
    var t := Swapped(s, i, p - 1);
    forall x ensures x in Elems(t) <==> x in Elems(s) {
      if x in Elems(s) {
        var k :| 0 <= k < |s| && s[k] == x;
        assert t[if k == i then p - 1 else if k == p - 1 then i else k] == x;
      }
    }
    assert t[..p - 1] == if i == p - 1 then s[..p - 1] else s[..p - 1][i := s[p - 1]];
    ElemsTake(s, p - 1);
    forall x ensures x in Elems(t[..p - 1]) <==> x in Elems(s[..p]) - {s[i]} {
      if x in Elems(s[..p]) - {s[i]} {
        var k :| 0 <= k < p && s[..p][k] == x;
        assert t[..p - 1][if k == p - 1 then i else k] == x;
      }
    }
  }

  /**
  Deleting a channel from the list deletes it from the prefix if it is there, and shifts the prefix
  otherwise not at all.
  */
  lemma {:induction false} WithoutPrefix(s: seq<Chan>, i: nat, p: nat)
    requires Distinct(s) && i < |s| && p <= |s|
    ensures var q: nat := if i < p then p - 1 else p;
            && q <= |Without(s, i)| && Elems(Without(s, i)[..q]) == Elems(s[..p]) - {s[i]}
  {
    if i < p {
      assert Without(s, i)[..p - 1] == Without(s[..p], i);
      WithoutIs(s[..p], i);
    } else {
      assert Without(s, i)[..p] == s[..p];
    }
  }

  // ----- One send

  /**
  Where a send is: of the channels `merged` it started with, `sent` have the value, `dropped`
  have been removed, `early` of these before they got it. The list `c` holds what is still
  subscribed, and its first `p` cases are the channels still to be served.
  */
  ghost predicate Progress(merged: set<Chan>, c: seq<Chan>, p: nat, sent: set<Chan>, dropped: set<Chan>,
                           early: set<Chan>)
  {
    && Distinct(c) && FIRST_SUB_SEND_CASE <= p <= |c| && c[0] == REMOVE_SUB
    && Elems(c) == merged - dropped && Elems(c[..p]) == merged - sent - early
    && early <= dropped && sent !! early && sent + dropped <= merged && REMOVE_SUB in merged - sent - dropped
  }

  /** From the log `first` to the log `now`, exactly the channels `sent` have taken a value, each once. */
  ghost predicate Took(first: seq<Chan>, now: seq<Chan>, sent: set<Chan>) {
    first <= now && Distinct(now[|first|..]) && Elems(now[|first|..]) == sent
  }

  lemma {:induction false} TookOne(first: seq<Chan>, now: seq<Chan>, sent: set<Chan>, ch: Chan)
    requires Took(first, now, sent) && ch !in sent
    ensures Took(first, now + [ch], sent + {ch})
  {
    var s, t := now[|first|..], (now + [ch])[|first|..];
    assert t == s + [ch] && t[..|s|] == s && t[..|s| + 1] == t;
    ElemsTake(t, |s|);
    assert forall k | 0 <= k < |s| :: s[k] in Elems(s);
  }

  lemma {:induction false} SendStep(merged: set<Chan>, c: seq<Chan>, p: nat, sent: set<Chan>, dropped: set<Chan>,
                                    early: set<Chan>, i: nat)
    requires Progress(merged, c, p, sent, dropped, early) && FIRST_SUB_SEND_CASE <= i < p
    ensures c[i] !in sent && c[i] in merged && Elems(Swapped(c, i, p - 1)) == Elems(c)
    ensures Progress(merged, Swapped(c, i, p - 1), p - 1, sent + {c[i]}, dropped, early)
  {
    SwappedIs(c, i, p);
    assert c[i] in Elems(c[..p]) by { assert c[..p][i] == c[i]; }
    assert c[i] != c[0];
    assert c[i] in Elems(c);
  }

  lemma {:induction false} RemoveStep(merged: set<Chan>, c: seq<Chan>, p: nat, sent: set<Chan>, dropped: set<Chan>,
                                      early: set<Chan>, i: nat)
    requires Progress(merged, c, p, sent, dropped, early) && FIRST_SUB_SEND_CASE <= i < |c|
    ensures i < p <==> c[i] !in sent
    ensures Elems(Without(c, i)) == Elems(c) - {c[i]}
    ensures Progress(merged, Without(c, i), if i < p then p - 1 else p, sent, dropped + {c[i]}, early + ({c[i]} - sent))
  {
    WithoutIs(c, i);
    WithoutPrefix(c, i, p);
    assert c[i] in Elems(c);
    assert c[i] != c[0];
    if i < p {
      assert c[i] in Elems(c[..p]) by { assert c[..p][i] == c[i]; }
    } else {
      assert c[i] !in Elems(c[..p]) by { assert forall k | 0 <= k < p :: c[..p][k] == c[k] != c[i]; }
    }
  }

  // ----- The feed

  class Feed {
    var buf: array<Chan>      // the array behind the send list
    var full: nat             // the length of the send list
    var inbox: seq<Chan>      // subscribed since the last send began
    var leaving: set<Chan>    // removals that found nothing in the inbox and wait for a send or its lock
    var delivered: seq<Chan>  // the channels that have taken a value, in order

    ghost predicate Valid()
      reads this, buf
    {
      && FIRST_SUB_SEND_CASE <= full <= buf.Length && buf[0] == REMOVE_SUB
      && Distinct(buf[..full]) && Distinct(inbox) && Elems(buf[..full]) !! Elems(inbox)
      && leaving <= Elems(buf[..full]) - {REMOVE_SUB}
    }

    /** The channels that the next send will serve. */
    ghost function Subscribed(): set<Chan>
      reads this, buf
      requires Valid()
    {
      Elems(buf[..full]) + Elems(inbox) - {REMOVE_SUB}
    }

    constructor ()
      ensures Valid() && fresh(buf) && Subscribed() == {} && leaving == {} && delivered == []
    {
      buf := new Chan[1];
      full, inbox, leaving, delivered := 1, [], {}, [];
      new;
      buf[0] := REMOVE_SUB;
    }

    method Subscribe(ch: Chan)
      requires Valid() && ch != REMOVE_SUB && ch !in Subscribed()
      modifies this`inbox
      ensures Valid() && Subscribed() == old(Subscribed()) + {ch} && inbox == old(inbox) + [ch]
    {
      inbox := inbox + [ch];
      assert Elems(inbox) == Elems(old(inbox)) + {ch} by {
        assert inbox[..|inbox| - 1] == old(inbox);
        ElemsTake(inbox, |inbox| - 1);
        assert inbox[..|inbox|] == inbox;
      }
    }

    /** The first half of a removal: an inbox entry goes at once, anything else waits for the send list. */
    method StartRemove(ch: Chan)
      requires Valid() && ch in Subscribed() - leaving
      modifies this`inbox, this`leaving
      ensures Valid() && leaving >= old(leaving)
      ensures Subscribed() - leaving == old(Subscribed() - leaving) - {ch}
      ensures ch in leaving <==> ch in Elems(buf[..full])
    {
      var index := Find(inbox, ch);
      if index != -1 {
        WithoutIs(inbox, index);
        inbox := inbox[..index] + inbox[index + 1..];
      } else {
        leaving := leaving + {ch};
      }
    }

    /** Close the gap at `index` in the send list, in place. */
    method Delete(index: nat)
      requires index < full <= buf.Length
      modifies this`full, buf
      ensures full == old(full) - 1 && buf[..full] == Without(old(buf[..full]), index)
    {
      for j := index to full - 1
        invariant full == old(full)
        invariant forall k | 0 <= k < full :: buf[k] == if index <= k < j then old(buf[k + 1]) else old(buf[k])
      {
        buf[j] := buf[j + 1];
      }
      full := full - 1;
    }

    /** Take the channel out of the send list, with its waiting removal. */
    method DeleteLeaving(ch: Chan) returns (index: nat)
      requires Valid() && ch in leaving
      modifies this`full, this`leaving, buf
      ensures Valid() && leaving == old(leaving) - {ch}
      ensures FIRST_SUB_SEND_CASE <= index < old(full) && old(buf[index]) == ch
      ensures buf[..full] == Without(old(buf[..full]), index)
    {
      var i := Find(buf[..full], ch);
      WithoutIs(buf[..full], i);
      index := i;
      Delete(index);
      leaving := leaving - {ch};
    }

    /** The second half of a removal when no send is in progress. */
    method FinishRemove(ch: Chan)
      requires Valid() && ch in leaving
      modifies this`full, this`leaving, buf
      ensures Valid() && leaving == old(leaving) - {ch} && Subscribed() == old(Subscribed()) - {ch}
    {
      ghost var c := buf[..full];
      var index := DeleteLeaving(ch);
      WithoutIs(c, index);
    }

    /** Anything that other threads may do while a send holds its lock; `asked` are the removals now waiting. */
    method Others() returns (ghost asked: set<Chan>)
      requires Valid()
      modifies this`inbox, this`leaving
      ensures Valid() && leaving == old(leaving) + asked && asked !! old(leaving)
    {
      asked := {};
      var n: nat :| true;
      for i := 0 to n
        invariant Valid() && leaving == old(leaving) + asked && asked !! old(leaving)
      {
        var ch: Chan :| true;
        var subscribed := ch in buf[..full] || ch in inbox;
        if !subscribed && ch != REMOVE_SUB {
          Subscribe(ch);
        } else if subscribed && ch != REMOVE_SUB && ch !in leaving {
          ghost var before := leaving;
          StartRemove(ch);
          asked := asked + (leaving - before);
        }
      }
    }

    /** Move the inbox into the send list. */
    method Merge()
      requires Valid()
      modifies this`buf, this`full, this`inbox
      ensures Valid() && fresh(buf) && inbox == [] && buf[..full] == old(buf[..full] + inbox)
      ensures Elems(buf[..full]) == old(Subscribed()) + {REMOVE_SUB} && Subscribed() == old(Subscribed())
    {
      var merged := buf[..full] + inbox;
      ElemsConcat(buf[..full], inbox);
      assert buf[..full][0] == REMOVE_SUB;
      buf := new Chan[|merged|](i requires 0 <= i < |merged| => merged[i]);
      full, inbox := |merged|, [];
      assert buf[..full] == merged;
    }

    /** The channel of case `i` takes the value, and the case moves behind the first `p - 1`. */
    method Deliver(p: nat, i: nat)
      requires i < p <= full <= buf.Length
      modifies buf, this`delivered
      ensures buf[..full] == Swapped(old(buf[..full]), i, p - 1)
      ensures delivered == old(delivered) + [old(buf[i])]
    {
      delivered := delivered + [buf[i]];
      buf[i], buf[p - 1] := buf[p - 1], buf[i];
    }

    /** One delivery, by case `i`, of a send in progress. */
    method SendTo(i: nat, p0: nat, n0: nat, ghost merged: set<Chan>, ghost sent0: set<Chan>, ghost dropped: set<Chan>,
                  ghost early: set<Chan>, ghost first: seq<Chan>)
      returns (p: nat, n: nat, ghost sent: set<Chan>)
      requires Valid() && Progress(merged, buf[..full], p0, sent0, dropped, early) && n0 == |sent0|
      requires FIRST_SUB_SEND_CASE <= i < p0 && Took(first, delivered, sent0)
      modifies buf, this`delivered
      ensures Valid() && Progress(merged, buf[..full], p, sent, dropped, early) && n == |sent| && p == p0 - 1
      ensures Took(first, delivered, sent)
    {
      SendStep(merged, buf[..full], p0, sent0, dropped, early, i);
      TookOne(first, delivered, sent0, buf[i]);
      sent := sent0 + {buf[i]};
      Deliver(p0, i);
      n, p := n0 + 1, p0 - 1;
    }

    /** The fast path: try each case once, without blocking. */
    method TrySends(p0: nat, n0: nat, ghost merged: set<Chan>, ghost sent0: set<Chan>, ghost dropped: set<Chan>,
                    ghost early: set<Chan>, ghost first: seq<Chan>)
      returns (p: nat, n: nat, ghost sent: set<Chan>)
      requires Valid() && Progress(merged, buf[..full], p0, sent0, dropped, early) && n0 == |sent0|
      requires Took(first, delivered, sent0)
      modifies buf, this`delivered
      ensures Valid() && Progress(merged, buf[..full], p, sent, dropped, early) && n == |sent| && p <= p0
      ensures Took(first, delivered, sent)
    {
      p, n, sent := p0, n0, sent0;
      var i := FIRST_SUB_SEND_CASE;
      while i < p
        invariant Valid() && Progress(merged, buf[..full], p, sent, dropped, early) && n == |sent| && p <= p0
        invariant FIRST_SUB_SEND_CASE <= i && Took(first, delivered, sent)
        decreases p - i
      {
        var ready: bool := *;
        if ready {
          p, n, sent := SendTo(i, p, n, merged, sent, dropped, early, first);
        } else {
          i := i + 1;
        }
      }
    }

    /** Wait until a channel takes the value or a removal comes in; `removed` holds that removal, if any. */
    method Select(p0: nat, n0: nat, ghost merged: set<Chan>, ghost sent0: set<Chan>, ghost dropped: set<Chan>,
                  ghost early0: set<Chan>, ghost first: seq<Chan>)
      returns (p: nat, n: nat, ghost sent: set<Chan>, ghost removed: set<Chan>, ghost early: set<Chan>)
      requires Valid() && Progress(merged, buf[..full], p0, sent0, dropped, early0) && n0 == |sent0|
      requires p0 > FIRST_SUB_SEND_CASE && Took(first, delivered, sent0)
      modifies this`full, this`leaving, this`delivered, buf
      ensures Valid() && Progress(merged, buf[..full], p, sent, dropped + removed, early) && n == |sent|
      ensures full + p < old(full) + p0 && Took(first, delivered, sent)
      ensures leaving == old(leaving) - removed && removed <= old(leaving)
    {
      p, n, sent, removed, early := p0, n0, sent0, {}, early0;
      var chosen :| 0 <= chosen < p0 && (chosen == 0 ==> leaving != {});
      if chosen == 0 {
        var ch :| ch in leaving;
        ghost var c := buf[..full];
        var index := DeleteLeaving(ch);
        RemoveStep(merged, c, p, sent, dropped, early, index);
        removed, early := {ch}, early + ({ch} - sent);
        if index < p { p := p - 1; }
      } else {
        p, n, sent := SendTo(chosen, p, n, merged, sent, dropped, early, first);
        assert dropped + removed == dropped;
      }
    }

    /** Try and wait in turns until only the case of removals is left. */
    method Serve(ghost merged: set<Chan>)
      returns (nsent: nat, ghost sent: set<Chan>, ghost dropped: set<Chan>, ghost early: set<Chan>,
               ghost asked: set<Chan>)
      requires Valid() && Elems(buf[..full]) == merged
      modifies this`full, this`inbox, this`leaving, this`delivered, buf
      ensures Valid() && nsent == |sent| && Progress(merged, buf[..full], FIRST_SUB_SEND_CASE, sent, dropped, early)
      ensures dropped + leaving == old(leaving) + asked && Took(old(delivered), delivered, sent)
    {
      nsent, sent, dropped, early, asked := 0, {}, {}, {}, {};
      var p := full;
      assert buf[..full][..p] == buf[..full];
      while true
        invariant Valid() && Progress(merged, buf[..full], p, sent, dropped, early) && nsent == |sent|
        invariant dropped + leaving == old(leaving) + asked && Took(old(delivered), delivered, sent)
        decreases full + p
      {
        p, nsent, sent := TrySends(p, nsent, merged, sent, dropped, early, old(delivered));
        if p == FIRST_SUB_SEND_CASE { break; }
        ghost var before, removed := leaving, {};
        ghost var started := Others();
        p, nsent, sent, removed, early := Select(p, nsent, merged, sent, dropped, early, old(delivered));
        Conserved(old(leaving), before, leaving, dropped, asked, started, removed);
        asked, dropped := asked + started, dropped + removed;
      }
    }

    /**
    Deliver to every subscribed channel. Which channels are ready, and which removals come
    in meanwhile (`asked`), is arbitrary. A channel gets the value once unless it was removed first.
    */
    method Send()
      returns (nsent: nat, ghost sent: set<Chan>, ghost dropped: set<Chan>, ghost early: set<Chan>,
               ghost asked: set<Chan>)
      requires Valid()
      modifies this, buf
      ensures Valid() && fresh(buf)
      ensures nsent == |sent| && sent == old(Subscribed()) - early && early <= dropped <= old(Subscribed())
      ensures Elems(buf[..full]) - {REMOVE_SUB} == old(Subscribed()) - dropped
      ensures dropped + leaving == old(leaving) + asked && dropped !! leaving
      ensures old(delivered) <= delivered && Distinct(delivered[|old(delivered)|..])
      ensures Elems(delivered[|old(delivered)|..]) == sent
    {
      Merge();
      ghost var merged := Elems(buf[..full]);
      nsent, sent, dropped, early, asked := Serve(merged);
      AllServed(old(Subscribed()), merged, buf[..full], sent, dropped, early);
    }
  }

  /** A send that has no case left but that of removals is complete. */
  lemma {:induction false} AllServed(subs: set<Chan>, merged: set<Chan>, c: seq<Chan>, sent: set<Chan>,
                                     dropped: set<Chan>, early: set<Chan>)
    requires Progress(merged, c, FIRST_SUB_SEND_CASE, sent, dropped, early)
    requires merged == subs + {REMOVE_SUB} && REMOVE_SUB !in subs
    ensures sent == subs - early && early <= dropped <= subs
    ensures Elems(c) - {REMOVE_SUB} == subs - dropped && dropped !! Elems(c)
  {
    assert Elems(c[..FIRST_SUB_SEND_CASE]) == {REMOVE_SUB};
  }

  /** A removal that is waiting came in, and goes on waiting or is carried out. */
  lemma {:induction false} Conserved(first: set<Chan>, before: set<Chan>, after: set<Chan>, dropped: set<Chan>,
                                     asked: set<Chan>, started: set<Chan>, removed: set<Chan>)
    requires dropped + before == first + asked && after == before + started - removed && removed <= before + started
    ensures dropped + removed + after == first + (asked + started)
  {
  }

  lemma {:induction false} ElemsConcat(a: seq<Chan>, b: seq<Chan>)
    requires Distinct(a) && Distinct(b) && Elems(a) !! Elems(b)
    ensures Elems(a + b) == Elems(a) + Elems(b) && Distinct(a + b)
  {
    forall x | x in Elems(b) ensures x in Elems(a + b) {
      var k :| 0 <= k < |b| && b[k] == x;
      assert (a + b)[|a| + k] == x;
    }
    forall x | x in Elems(a) ensures x in Elems(a + b) {
      var k :| 0 <= k < |a| && a[k] == x;
      assert (a + b)[k] == x;
    }
    forall i, j | 0 <= i < j < |a + b| ensures (a + b)[i] != (a + b)[j] {
      assert i < |a| <= j ==> a[i] in Elems(a) && b[j - |a|] in Elems(b);
    }
  }

  /** The index of a channel in a list, or -1. */
  method Find(s: seq<Chan>, ch: Chan) returns (index: int)
    ensures -1 <= index < |s|
    ensures index == -1 <==> ch !in Elems(s)
    ensures index >= 0 ==> s[index] == ch && forall k | 0 <= k < index :: s[k] != ch
  {
    for i := 0 to |s|
      invariant forall k | 0 <= k < i :: s[k] != ch
    {
      if s[i] == ch { return i; }
    }
    return -1;
  }
}
