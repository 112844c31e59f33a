/** The pool's price heap with lazy deletion (core/tx_list.go). */
module TxPricedList {
  import opened BinaryHeap
  import opened Transactions

  /** The pool's transactions by hash. */
  type Pool = map<nat, Tx>

  function Price(x: Tx): int { x.gasPrice }

  ghost predicate Live(all: Pool, x: Tx) {
    x.hash in all && all[x.hash] == x
  }

  /** Transactions are under their own hashes, and a hash belongs to one transaction. */
  ghost predicate Honest(all: Pool, items: seq<Tx>) {
    && (forall h <- all :: all[h].hash == h)
    && (forall x <- items :: x.hash in all ==> all[x.hash] == x)
  }

  /** A heap with an entry for every transaction of the pool, and perhaps for others. */
  ghost predicate Tracks(items: seq<Tx>, all: Pool) {
    IsHeap(items, Price) && Honest(all, items) && forall h <- all :: all[h] in items
  }

  /** Every transaction of the pool has one entry. */
  ghost predicate Once(items: seq<Tx>, all: Pool) {
    forall x <- items :: x.hash in all ==> multiset(items)[x] == 1
  }

  /** No transaction is listed twice. */
  ghost predicate Distinct(s: seq<Tx>) {
    forall x <- s :: multiset(s)[x] == 1
  }

  /** The number of entries of `x`. */
  ghost function Entries(s: seq<Tx>, x: Tx): nat {
    multiset(s)[x]
  }

  /** Of the entries `before`, some are still in the heap, some saved, some to drop, and the others stale. */
  ghost predicate Shared(before: seq<Tx>, items: seq<Tx>, save: seq<Tx>, drop: seq<Tx>, gone: seq<Tx>, all: Pool) {
    && (forall x {:trigger Entries(before, x)} ::
          Entries(before, x) == Entries(items, x) + Entries(save, x) + Entries(drop, x) + Entries(gone, x))
    && forall g <- gone :: g.hash !in all
  }

  lemma {:induction false} SharedFirst(items: seq<Tx>, all: Pool)
    ensures Shared(items, items, [], [], [], all)
  {
    var none: seq<Tx> := [];
    forall x ensures Entries(none, x) == 0 { assert multiset(none) == multiset{}; }
  }

  lemma {:induction false} EntriesMore(s: seq<Tx>, y: Tx, x: Tx)
    ensures Entries(s + [y], x) == Entries(s, x) + if x == y then 1 else 0
  {
  }

  lemma {:induction false} EntriesLess(s: seq<Tx>, rest: seq<Tx>, y: Tx, x: Tx)
    requires y in s && multiset(rest) == multiset(s) - multiset{y}
    ensures Entries(s, x) == Entries(rest, x) + if x == y then 1 else 0
  {
    assert y in multiset(s);
  }

  /** An entry that is popped goes to one of the lists. */
  lemma {:induction false} SharedPop(before: seq<Tx>, items: seq<Tx>, rest: seq<Tx>, tx: Tx,
                                     save: seq<Tx>, drop: seq<Tx>, gone: seq<Tx>, all: Pool)
    requires Shared(before, items, save, drop, gone, all) && tx in items
    requires multiset(rest) == multiset(items) - multiset{tx}
    ensures Shared(before, rest, save + [tx], drop, gone, all) && Shared(before, rest, save, drop + [tx], gone, all)
    ensures tx.hash !in all ==> Shared(before, rest, save, drop, gone + [tx], all)
  {
    forall x
      ensures Entries(items, x) == Entries(rest, x) + if x == tx then 1 else 0
      ensures Entries(save + [tx], x) == Entries(save, x) + if x == tx then 1 else 0
      ensures Entries(drop + [tx], x) == Entries(drop, x) + if x == tx then 1 else 0
      ensures Entries(gone + [tx], x) == Entries(gone, x) + if x == tx then 1 else 0
    {
      EntriesLess(items, rest, tx, x);
      EntriesMore(save, tx, x);
      EntriesMore(drop, tx, x);
      EntriesMore(gone, tx, x);
    }
  }

  /** A transaction of the pool keeps its entries, in the heap or among those dropped. */
  ghost predicate KeepsEntries(before: seq<Tx>, items: seq<Tx>, drop: seq<Tx>, all: Pool) {
    forall x {:trigger Entries(before, x)} :: Live(all, x) ==>
      Entries(items, x) + Entries(drop, x) == Entries(before, x)
  }

  lemma {:induction false} SharedOut(before: seq<Tx>, items: seq<Tx>, save: seq<Tx>, drop: seq<Tx>, gone: seq<Tx>,
                                     all: Pool, last: seq<Tx>)
    requires Shared(before, items, save, drop, gone, all) && multiset(last) == multiset(items) + multiset(save)
    ensures KeepsEntries(before, last, drop, all)
  {
    forall x | Live(all, x) ensures Entries(last, x) + Entries(drop, x) == Entries(before, x) {
      assert x !in gone;
      assert Entries(gone, x) == 0;
    }
  }

  /** Where transactions have one entry each, none is dropped twice. */
  lemma {:induction false} DroppedOnce(before: seq<Tx>, items: seq<Tx>, drop: seq<Tx>, all: Pool)
    requires Once(before, all) && KeepsEntries(before, items, drop, all) && forall d <- drop :: Live(all, d)
    ensures Distinct(drop)
  {
    forall d | d in drop ensures multiset(drop)[d] == 1 {
      assert d in multiset(drop) && Live(all, d);
      assert Entries(before, d) >= Entries(drop, d) > 0;
      assert d in multiset(before) && d in before;
    }
  }

  /** What popping the first entry keeps. */
  lemma {:induction false} PopKeeps(items: seq<Tx>, rest: seq<Tx>, x: Tx)
    requires IsHeap(items, Price) && items != [] && x == items[0] && multiset(rest) == multiset(items) - multiset{x}
    ensures forall y <- rest :: y in items && x.gasPrice <= y.gasPrice
    ensures forall y <- items :: y == x || y in rest
  {
    forall y | y in rest ensures y in items && x.gasPrice <= y.gasPrice {
      assert y in multiset(rest) && y in multiset(items);
      var i :| 0 <= i < |items| && items[i] == y;
      RootLeast(items, Price, i);
    }
    forall y | y in items ensures y == x || y in rest {
      if y != x { assert y in multiset(items) && y in multiset(rest); }
    }
  }

  lemma {:induction false} OnceMore(before: seq<Tx>, items: seq<Tx>, tx: Tx, all: Pool)
    requires multiset(items) == multiset(before) + multiset{tx} && Once(before, all)
    requires forall x <- before :: x.hash == tx.hash ==> x == tx
    ensures Once(items, all[tx.hash := tx]) <==> tx !in before
  {
    assert tx in before <==> tx in multiset(before);
    if tx in before {
      assert tx in multiset(items) && multiset(items)[tx] >= 2;
    } else {
      forall x | x in items && x.hash in all[tx.hash := tx] ensures multiset(items)[x] == 1 {
        assert x in multiset(items);
        if x != tx { assert x in multiset(before) && x in before; }
      }
    }
  }

  class TxPricedList {
    var items: seq<Tx>
    var stales: int

    constructor ()
      ensures items == [] && stales == 0 && Tracks(items, map[])
    {
      items, stales := [], 0;
    }

    /** Whether a transaction is as cheap as the cheapest in the pool; stale entries at the front go. */
    method Underpriced(tx: Tx, all: Pool, local: Tx -> bool) returns (r: bool)
      requires Tracks(items, all)
      modifies this
      ensures Tracks(items, all) && old(stales) - stales == |old(items)| - |items|
      ensures r <==> !local(tx) && all != map[] && forall h <- all :: all[h].gasPrice >= tx.gasPrice
    {
      if local(tx) { return false; }
      while items != [] && items[0].hash !in all
        invariant Tracks(items, all) && old(stales) - stales == |old(items)| - |items|
        decreases |items|
      {
        ghost var before := items;
        var x;
        stales := stales - 1;
        items, x := Pop(items, Price);
        PopKeeps(before, items, x);
      }
      if items == [] {
        assert all == map[];
        return false;
      }
      var cheapest := items[0];
      forall h | h in all ensures all[h].gasPrice >= cheapest.gasPrice {
        var i :| 0 <= i < |items| && items[i] == all[h];
        RootLeast(items, Price, i);
      }
      return cheapest.gasPrice >= tx.gasPrice;
    }

    /** Add an entry for a transaction, whether it has one already or not. */
    method Put(tx: Tx, ghost all: Pool)
      requires Tracks(items, all) && (tx.hash in all ==> all[tx.hash] == tx)
      requires forall x <- items :: x.hash == tx.hash ==> x == tx
      modifies this`items
      ensures Tracks(items, all[tx.hash := tx]) && multiset(items) == multiset(old(items)) + multiset{tx}
      ensures Once(old(items), all) ==> (Once(items, all[tx.hash := tx]) <==> tx !in old(items))
    {
      ghost var before := items;
      items := Push(items, Price, tx);
      forall y | y in items ensures y == tx || y in before { assert y in multiset(items); }
      forall y | y == tx || y in before ensures y in items { assert y in multiset(items); }
      if Once(before, all) { OnceMore(before, items, tx, all); }
    }

    /** Count a removal from the pool; when a quarter of the entries may be stale, begin anew. */
    method Removed(all: Pool)
      requires Tracks(items, all)
      modifies this
      ensures Tracks(items, all)
      ensures if old(stales) + 1 <= |old(items)| / 4 then stales == old(stales) + 1 && items == old(items)
              else stales == 0 && multiset(items) == multiset(all.Values)
    {
      stales := stales + 1;
      if stales <= |items| / 4 { return; }
      var entries := Listing(all);
      stales := 0;
      items := Init(entries, Price);
      forall h | h in all ensures all[h] in items { assert all[h] in multiset(items); }
      forall x | x in items ensures x in all.Values { assert x in multiset(items); }
    }

    /** Take all remote transactions below the threshold off the heap. */
    method Cap(threshold: int, all: Pool, local: Tx -> bool) returns (drop: seq<Tx>)
      requires Tracks(items, all)
      modifies this
      ensures Honest(all, items) && IsHeap(items, Price)
      ensures forall d :: d in drop <==> Live(all, d) && !local(d) && d.gasPrice < threshold
      ensures forall h <- all :: all[h] in drop || all[h] in items
      ensures KeepsEntries(old(items), items, drop, all) && (Once(old(items), all) ==> Distinct(drop))
      ensures old(stales) - stales == |old(items)| - |items| - |drop|
    {
      var save, stale;
      ghost var gone;
      ghost var first := items;
      items, save, drop, stale, gone := PopCheap(items, threshold, all, local);
      stales := stales - stale;
      ghost var kept := items;
      items := PushAll(items, save, all);
      SharedOut(first, kept, save, drop, gone, all, items);
      if Once(first, all) { DroppedOnce(first, items, drop, all); }
    }

    /** Take the cheapest remote transactions off the heap, at most `count`. */
    method Discard(count: nat, all: Pool, local: Tx -> bool) returns (drop: seq<Tx>)
      requires Tracks(items, all)
      modifies this
      ensures Honest(all, items) && IsHeap(items, Price) && |drop| <= count
      ensures forall d <- drop :: Live(all, d) && !local(d)
      ensures forall h <- all :: all[h] in drop || all[h] in items
      ensures forall d, h | d in drop && h in all && !local(all[h]) && all[h] !in drop :: d.gasPrice <= all[h].gasPrice
      ensures |drop| < count ==> forall h <- all :: !local(all[h]) ==> all[h] in drop
      ensures |drop| < count ==> forall y <- items :: local(y)
      ensures KeepsEntries(old(items), items, drop, all) && (Once(old(items), all) ==> Distinct(drop))
      ensures old(stales) - stales == |old(items)| - |items| - |drop|
    {
      drop := [];
      var save := [];
      ghost var gone := [];
      SharedFirst(items, all);
      while items != [] && |drop| < count
        invariant Sifted(old(items), items, save, drop, gone, all, local) && |drop| <= count
        invariant |items| + |save| + |drop| + |gone| == |old(items)| && old(stales) - stales == |gone|
        decreases |items|
      {
        ghost var before := items;
        var tx;
        items, tx := Pop(items, Price);
        SiftedPop(old(items), before, items, tx, save, drop, gone, all, local);
        if tx.hash !in all {
          gone := gone + [tx];
          stales := stales - 1;
        } else if local(tx) {
          save := save + [tx];
        } else {
          drop := drop + [tx];
        }
      }
      ghost var kept := items;
      items := PushAll(items, save, all);
      SharedOut(old(items), kept, save, drop, gone, all, items);
      if Once(old(items), all) { DroppedOnce(old(items), items, drop, all); }
    }
  }

  /** A transaction put twice is listed twice. */
  method ListedTwice(tx: Tx) returns (drop: seq<Tx>)
    ensures drop == [tx, tx]
  {
    var all: Pool := map[tx.hash := tx];
    var list := new TxPricedList();
    list.Put(tx, map[]);
    list.Put(tx, all);
    assert all[tx.hash := tx] == all;
    ghost var before := list.items;
    drop := list.Discard(2, all, (x: Tx) => false);
    assert |drop| < 2 ==> tx !in list.items;
    TwoEntries(before, list.items, drop, tx, all);
  }

  lemma {:induction false} TwoEntries(before: seq<Tx>, items: seq<Tx>, drop: seq<Tx>, tx: Tx, all: Pool)
    requires multiset(before) == multiset{tx, tx} && KeepsEntries(before, items, drop, all) && |drop| <= 2
    requires all == map[tx.hash := tx] && (forall d <- drop :: Live(all, d)) && (|drop| < 2 ==> tx !in items)
    ensures drop == [tx, tx]
  {
    assert Live(all, tx) && Entries(before, tx) == 2;
    forall i | 0 <= i < |drop| ensures drop[i] == tx { assert drop[i] in drop; }
    AllSame(drop, tx);
    assert |drop| < 2 ==> Entries(items, tx) == 0;
  }

  lemma {:induction false} AllSame(s: seq<Tx>, x: Tx)
    requires forall i | 0 <= i < |s| :: s[i] == x
    ensures Entries(s, x) == |s|
  {
    if s != [] {
      var n := |s| - 1;
      assert s == s[..n] + [s[n]];
      AllSame(s[..n], x);
      EntriesMore(s[..n], s[n], x);
    }
  }

  /** While entries are popped, each live one is in the heap, among the local ones saved or among those to drop. */
  ghost predicate Sorting(all: Pool, items: seq<Tx>, save: seq<Tx>, drop: seq<Tx>, local: Tx -> bool) {
    && IsHeap(items, Price) && Honest(all, items)
    && (forall d <- drop :: Live(all, d) && !local(d))
    && (forall x <- save :: Live(all, x) && local(x))
    && (forall d, y | d in drop && y in items :: d.gasPrice <= y.gasPrice)
    && forall h <- all :: all[h] in items || all[h] in save || all[h] in drop
  }

  ghost predicate Sifted(first: seq<Tx>, items: seq<Tx>, save: seq<Tx>, drop: seq<Tx>, gone: seq<Tx>, all: Pool,
                         local: Tx -> bool)
  {
    Sorting(all, items, save, drop, local) && Shared(first, items, save, drop, gone, all)
  }

  /** The popped entry is no dearer than the others, and goes to one of the lists. */
  lemma {:induction false} SiftedPop(first: seq<Tx>, items: seq<Tx>, rest: seq<Tx>, tx: Tx, save: seq<Tx>,
                                     drop: seq<Tx>, gone: seq<Tx>, all: Pool, local: Tx -> bool)
    requires Sifted(first, items, save, drop, gone, all, local) && items != [] && tx == items[0]
    requires IsHeap(rest, Price) && multiset(rest) == multiset(items) - multiset{tx}
    ensures forall y <- rest :: tx.gasPrice <= y.gasPrice
    ensures tx.hash !in all ==> Sifted(first, rest, save, drop, gone + [tx], all, local)
    ensures tx.hash in all && local(tx) ==> Sifted(first, rest, save + [tx], drop, gone, all, local)
    ensures tx.hash in all && !local(tx) ==> Sifted(first, rest, save, drop + [tx], gone, all, local)
    ensures tx.hash in all ==> Live(all, tx) && Shared(first, rest, save + [tx], drop, gone, all)
  {
    PopKeeps(items, rest, tx);
    SharedPop(first, items, rest, tx, save, drop, gone, all);
  }

  /** Pop entries up to the first live one at or above the threshold, which is saved with the local ones. */
  method PopCheap(items0: seq<Tx>, threshold: int, all: Pool, local: Tx -> bool)
    returns (items: seq<Tx>, save: seq<Tx>, drop: seq<Tx>, stale: nat, ghost gone: seq<Tx>)
    requires Tracks(items0, all)
    ensures Shared(items0, items, save, drop, gone, all) && stale == |gone|
    ensures |items| + |save| + |drop| + |gone| == |items0|
    ensures IsHeap(items, Price) && Honest(all, items) && forall x <- save :: Live(all, x)
    ensures forall h <- all :: all[h] in items || all[h] in save || all[h] in drop
    ensures forall d :: d in drop <==> Live(all, d) && !local(d) && d.gasPrice < threshold
  {
    items, save, drop, stale, gone := items0, [], [], 0, [];
    SharedFirst(items0, all);
    while items != []
      invariant Sifted(items0, items, save, drop, gone, all, local) && stale == |gone|
      invariant |items| + |save| + |drop| + |gone| == |items0|
      invariant forall d <- drop :: d.gasPrice < threshold
      decreases |items|
    {
      ghost var before := items;
      var tx;
      items, tx := Pop(items, Price);
      SiftedPop(items0, before, items, tx, save, drop, gone, all, local);
      if tx.hash !in all {
        gone, stale := gone + [tx], stale + 1;
        continue;
      }
      if tx.gasPrice >= threshold {
        PopKeeps(before, items, tx);
        save := save + [tx];
        break;
      }
      if local(tx) {
        save := save + [tx];
      } else {
        drop := drop + [tx];
      }
    }
  }

  /** Put saved entries back. */
  method PushAll(items0: seq<Tx>, save: seq<Tx>, ghost all: Pool) returns (items: seq<Tx>)
    requires IsHeap(items0, Price) && Honest(all, items0) && forall x <- save :: Live(all, x)
    ensures IsHeap(items, Price) && Honest(all, items) && forall y :: y in items <==> y in items0 || y in save
    ensures multiset(items) == multiset(items0) + multiset(save) && |items| == |items0| + |save|
  {
    items := items0;
    for i := 0 to |save|
      invariant IsHeap(items, Price) && multiset(items) == multiset(items0) + multiset(save[..i])
      invariant |items| == |items0| + i
    {
      assert save[..i + 1] == save[..i] + [save[i]];
      items := Push(items, Price, save[i]);
    }
    assert save[..|save|] == save;
    forall y ensures y in items <==> y in items0 || y in save {
      assert y in items <==> y in multiset(items);
      assert y in items0 <==> y in multiset(items0);
      assert y in save <==> y in multiset(save);
    }
  }

  /** The transactions of the pool in some order. */
  method Listing(all: Pool) returns (s: seq<Tx>)
    ensures multiset(s) == multiset(all.Values)
  {
    s := [];
    var rest := all.Values;
    ghost var done: set<Tx> := {};
    while rest != {}
      invariant done !! rest && done + rest == all.Values && multiset(s) == multiset(done)
      decreases rest
    {
      var x :| x in rest;
      s, rest, done := s + [x], rest - {x}, done + {x};
    }
    assert done == all.Values;
  }
}
