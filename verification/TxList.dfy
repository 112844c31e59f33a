/** The transactions of one account, with a cap on their costs (core/tx_list.go). */
module TxList {
  import opened Transactions
  import opened TxSortedMap
  import opened Wrappers

  /** No nonce is missing between two that are there. */
  ghost predicate Contiguous(items: Items) {
    forall a, b, c | a in items && c in items && a < b < c :: b in items
  }

  /** What a full filter keeps: what can be paid for and, in a strict list, has nothing unaffordable before it. */
  ghost function Affordable(items: Items, strict: bool, limit: int): Items {
    map n | n in items && items[n].cost <= limit
            && (strict ==> forall m <- items :: items[m].cost > limit ==> n < m) :: items[n]
  }

  /** What goes because it costs too much. */
  ghost function TooCostly(items: Items, limit: int): Items {
    map n | n in items && items[n].cost > limit :: items[n]
  }

  /** A new price replaces an old one if it is higher and reaches the bumped threshold. */
  ghost predicate Replaces(price: int, oldPrice: int, bump: nat) {
    price > oldPrice && price >= oldPrice * (100 + bump) / 100
  }

  /** The threshold is the old price and the bump in percent, rounded down. */
  lemma {:induction false} ReplacesIff(price: int, oldPrice: nat, bump: nat)
    ensures Replaces(price, oldPrice, bump) <==>
              price > oldPrice && 100 * price + 99 >= oldPrice * 100 + oldPrice * bump
  {
    Expand(oldPrice, bump);
    Rounded(price, oldPrice * (100 + bump));
  }

  lemma {:induction false} Expand(a: nat, b: nat)
    ensures a * (100 + b) == a * 100 + a * b
  {
  }

  lemma {:induction false} Rounded(x: int, y: nat)
    ensures x >= y / 100 <==> 100 * x + 99 >= y
  {
  }

  /** With a bump of ten percent, 110 replaces 100, 109 does not, and 2 replaces 1. */
  lemma {:induction false} TenPercent()
    ensures Replaces(110, 100, 10) && !Replaces(109, 100, 10) && Replaces(2, 1, 10) && !Replaces(1, 1, 10)
  {
  }

  ghost predicate Capped(items: Items, costcap: int) {
    forall n <- items :: items[n].cost <= costcap
  }

  /** Where the cap covers all costs, a full filter keeps everything. */
  lemma {:induction false} CappedFilter(items: Items, strict: bool, costcap: int, limit: int)
    requires Capped(items, costcap) && costcap <= limit
    ensures Affordable(items, strict, limit) == items
  {
  }

  // ----- What keeps a list contiguous

  lemma {:induction false} AffordableContiguous(items: Items, limit: int)
    requires Contiguous(items)
    ensures Contiguous(Affordable(items, true, limit))
  {
    var kept := Affordable(items, true, limit);
    forall a, b, c | a in kept && c in kept && a < b < c ensures b in kept {
      assert b in items;
    }
  }

  lemma {:induction false} CutContiguous(items: Items, t: nat)
    requires Contiguous(items)
    ensures Contiguous(Below(items, t)) && Contiguous(From(items, t))
  {
  }

  /** A run that a gap ends takes all of a list without gaps. */
  lemma {:induction false} RunTakesAll(items: Items, m: nat, t: nat)
    requires Contiguous(items) && IsRun(items, m, t)
    ensures From(items, t) == map[]
  {
  }

  // ----- The parts of the filter

  lemma {:induction false} FilteredCost(all: Items, costly: Tx -> bool, limit: int)
    requires forall x :: costly(x) == (x.cost > limit)
    ensures all - Kept(all, costly).Keys == TooCostly(all, limit)
  {
  }

  lemma {:induction false} FilteredLoose(all: Items, costly: Tx -> bool, strict: bool, limit: int)
    requires (forall x :: costly(x) == (x.cost > limit)) && (strict ==> TooCostly(all, limit) == map[])
    ensures Kept(all, costly) == Affordable(all, strict, limit)
    ensures all - Kept(all, costly).Keys - TooCostly(all, limit).Keys == map[]
  {
    assert forall n <- all :: all[n].cost > limit ==> n in TooCostly(all, limit);
  }

  lemma {:induction false} FilteredStrict(all: Items, costly: Tx -> bool, limit: int, after: Tx -> bool, lowest: nat)
    requires Keyed(all) && (forall x :: costly(x) == (x.cost > limit)) && (forall x :: after(x) == (x.nonce > lowest))
    requires lowest in TooCostly(all, limit) && forall n <- TooCostly(all, limit) :: lowest <= n
    ensures Kept(Kept(all, costly), after) == Affordable(all, true, limit)
    ensures Kept(all, costly) - Affordable(all, true, limit).Keys
            == all - Affordable(all, true, limit).Keys - TooCostly(all, limit).Keys
  {
    assert forall n <- all :: all[n].cost > limit ==> n in TooCostly(all, limit);
  }

  lemma {:induction false} RemovedStrict(all: Items, after: Tx -> bool, nonce: nat)
    requires Keyed(all) && nonce in all && forall x :: after(x) == (x.nonce > nonce)
    ensures Kept(all - {nonce}, after) == Below(all, nonce)
    ensures (all - {nonce}) - Below(all, nonce).Keys == all - Below(all, nonce).Keys - {nonce}
  {
  }

  /** The lowest nonce in a list. */
  method Lowest(removed: seq<Tx>, ghost items: Items) returns (lowest: nat)
    requires IsListed(removed, items) && removed != []
    ensures lowest in items && forall n <- items :: lowest <= n
  {
    lowest := removed[0].nonce;
    for i := 1 to |removed|
      invariant exists j | 0 <= j < i :: removed[j].nonce == lowest
      invariant forall j | 0 <= j < i :: lowest <= removed[j].nonce
    {
      if lowest > removed[i].nonce { lowest := removed[i].nonce; }
    }
    forall n | n in items ensures lowest <= n { var j := ListedAt(removed, items, n); }
    var j :| 0 <= j < |removed| && removed[j].nonce == lowest;
    ListedIn(removed, items, j);
  }

  lemma {:induction false} ListedAt(r: seq<Tx>, items: Items, n: nat) returns (j: nat)
    requires IsListed(r, items) && n in items
    ensures j < |r| && r[j].nonce == n
    decreases |r|
  {
    j := |r| - 1;
    if r[j].nonce != n { j := ListedAt(r[..j], items - {r[j].nonce}, n); }
  }

  lemma {:induction false} ListedIn(r: seq<Tx>, items: Items, j: nat)
    requires IsListed(r, items) && j < |r|
    ensures r[j].nonce in items
    decreases |r|
  {
    if j < |r| - 1 { ListedIn(r[..|r| - 1], items - {r[|r| - 1].nonce}, j); }
  }

  class TxList {
    const strict: bool
    const txs: TxSortedMap
    var costcap: int

    ghost predicate Valid()
      reads this, txs
    {
      txs.Valid() && Capped(txs.items, costcap)
    }

    constructor (strict0: bool)
      ensures Valid() && strict == strict0 && txs.items == map[] && costcap == 0 && fresh(txs)
    {
      strict, costcap := strict0, 0;
      txs := new TxSortedMap();
    }

    /** Insert a transaction unless a better one has its nonce. */
    method Add(tx: Tx, priceBump: nat) returns (inserted: bool, previous: Option<Tx>)
      requires Valid()
      modifies this, txs
      ensures Valid()
      ensures inserted == (tx.nonce !in old(txs.items)
                           || Replaces(tx.gasPrice, old(txs.items)[tx.nonce].gasPrice, priceBump))
      ensures txs.items == if inserted then old(txs.items)[tx.nonce := tx] else old(txs.items)
      ensures previous == if inserted && tx.nonce in old(txs.items) then Some(old(txs.items)[tx.nonce]) else None
      ensures costcap == if inserted && tx.cost > old(costcap) then tx.cost else old(costcap)
    {
      previous := None;
      if tx.nonce in txs.items {
        var older := txs.items[tx.nonce];
        var threshold := older.gasPrice * (100 + priceBump) / 100;
        if older.gasPrice >= tx.gasPrice || threshold > tx.gasPrice { return false, None; }
        previous := Some(older);
      }
      txs.Put(tx);
      if costcap < tx.cost { costcap := tx.cost; }
      inserted := true;
    }

    /** Remove all below a nonce, returning them in order. */
    method Forward(threshold: nat) returns (removed: seq<Tx>)
      requires Valid()
      modifies this, txs
      ensures Valid() && costcap == old(costcap)
      ensures txs.items == From(old(txs.items), threshold) && IsFlat(removed, Below(old(txs.items), threshold))
      ensures Contiguous(old(txs.items)) ==> Contiguous(txs.items)
    {
      if Contiguous(txs.items) { CutContiguous(txs.items, threshold); }
      removed := txs.Forward(threshold);
    }

    /** Keep the lowest nonces up to a number, returning the others from the top. */
    method Cap(threshold: nat) returns (drops: seq<Tx>, ghost t: nat)
      requires Valid()
      modifies this, txs
      ensures Valid() && costcap == old(costcap)
      ensures txs.items == Below(old(txs.items), t) && IsFlatDown(drops, From(old(txs.items), t))
      ensures |txs.items| == if threshold < |old(txs.items)| then threshold else |old(txs.items)|
      ensures Contiguous(old(txs.items)) ==> Contiguous(txs.items)
    {
      ghost var all := txs.items;
      drops, t := txs.Cap(threshold);
      if Contiguous(all) { CutContiguous(all, t); }
    }

    /** Take the run of consecutive nonces from the lowest on; of a list without gaps that is everything. */
    method Ready(start: nat) returns (ready: seq<Tx>, ghost t: nat)
      requires Valid()
      modifies this, txs
      ensures Valid() && costcap == old(costcap)
      ensures txs.items == From(old(txs.items), t) && IsFlat(ready, Below(old(txs.items), t))
      ensures (forall n <- old(txs.items) :: n > start) ==> txs.items == old(txs.items)
      ensures (exists n <- old(txs.items) :: n <= start) ==> exists m: nat :: IsRun(old(txs.items), m, t)
      ensures Contiguous(old(txs.items)) ==> Contiguous(txs.items)
      ensures Contiguous(old(txs.items)) && (exists n <- old(txs.items) :: n <= start) ==> txs.items == map[]
    {
      ghost var all := txs.items;
      ready, t := txs.Ready(start);
      if Contiguous(all) {
        CutContiguous(all, t);
        if n :| n in all && n <= start {
          var m: nat :| IsRun(all, m, t);
          RunTakesAll(all, m, t);
        }
      }
    }

    /** Remove what costs too much; the cap lets a call end at once where nothing can. */
    method Filter(costLimit: int) returns (removed: seq<Tx>, invalids: seq<Tx>)
      requires Valid()
      modifies this, txs
      ensures Valid() && txs.items == Affordable(old(txs.items), strict, costLimit)
      ensures costcap == if costLimit < old(costcap) then costLimit else old(costcap)
      ensures IsListed(removed, TooCostly(old(txs.items), costLimit))
      ensures IsListed(invalids, old(txs.items) - txs.items.Keys - TooCostly(old(txs.items), costLimit).Keys)
      ensures strict && Contiguous(old(txs.items)) ==> Contiguous(txs.items)
    {
      ghost var all := txs.items;
      if Contiguous(all) { AffordableContiguous(all, costLimit); }
      if costcap <= costLimit {
        CappedFilter(all, strict, costcap, costLimit);
        assert TooCostly(all, costLimit) == map[] && all - all.Keys - {} == map[];
        return [], [];
      }
      costcap := costLimit;
      var costly := (x: Tx) => x.cost > costLimit;
      removed := txs.Filter(costly);
      invalids := [];
      FilteredCost(all, costly, costLimit);
      if strict && |removed| > 0 {
        var lowest := Lowest(removed, TooCostly(all, costLimit));
        var after := (x: Tx) => x.nonce > lowest;
        invalids := txs.Filter(after);
        FilteredStrict(all, costly, costLimit, after, lowest);
      } else {
        FilteredLoose(all, costly, strict, costLimit);
      }
    }

    /** Remove a transaction and, from a strict list, all after it. */
    method Remove(tx: Tx) returns (found: bool, invalids: seq<Tx>)
      requires Valid()
      modifies this, txs
      ensures Valid() && found == (tx.nonce in old(txs.items)) && costcap == old(costcap)
      ensures txs.items == if strict && found then Below(old(txs.items), tx.nonce) else old(txs.items) - {tx.nonce}
      ensures IsListed(invalids, old(txs.items) - txs.items.Keys - {tx.nonce})
      ensures strict && Contiguous(old(txs.items)) ==> Contiguous(txs.items)
    {
      ghost var all := txs.items;
      if Contiguous(all) { CutContiguous(all, tx.nonce); }
      invalids := [];
      found := txs.Remove(tx.nonce);
      if found && strict {
        var nonce := tx.nonce;
        var after := (x: Tx) => x.nonce > nonce;
        invalids := txs.Filter(after);
        RemovedStrict(all, after, nonce);
      } else {
        assert all - txs.items.Keys - {tx.nonce} == map[];
      }
    }
  }
}
