/** A nonce-indexed map with a heap of its nonces and a cache of its sorted contents (core/tx_list.go). */
module TxSortedMap {
  import opened BinaryHeap
  import opened Transactions
  import opened Wrappers

  type Items = map<nat, Tx>

  function Self(n: nat): int { n }

  /** Every transaction is under its own nonce. */
  ghost predicate Keyed(items: Items) {
    forall n <- items :: items[n].nonce == n
  }

  /** The list `c` is the contents in order of nonce. */
  ghost predicate IsFlat(c: seq<Tx>, items: Items) {
    if c == [] then items == map[]
    else
      var x := c[|c| - 1];
      && x.nonce in items && items[x.nonce] == x && (forall n <- items :: n <= x.nonce)
      && IsFlat(c[..|c| - 1], items - {x.nonce})
  }

  /** There is one such list. */
  lemma {:induction false} FlatUnique(c: seq<Tx>, d: seq<Tx>, items: Items)
    requires IsFlat(c, items) && IsFlat(d, items)
    ensures c == d
    decreases |c|
  {
    if c != [] && d != [] {
      var x := c[|c| - 1];
      FlatUnique(c[..|c| - 1], d[..|d| - 1], items - {x.nonce});
      assert c == c[..|c| - 1] + [x] && d == d[..|d| - 1] + [x];
    }
  }

  lemma {:induction false} FlatAppend(c: seq<Tx>, items: Items, x: Tx)
    requires IsFlat(c, items) && forall n <- items :: n < x.nonce
    ensures IsFlat(c + [x], items[x.nonce := x])
  {
    assert (c + [x])[..|c|] == c;
    assert items[x.nonce := x] - {x.nonce} == items;
  }

  ghost function Below(items: Items, t: nat): Items {
    map n | n in items && n < t :: items[n]
  }

  ghost function From(items: Items, t: nat): Items {
    map n | n in items && n >= t :: items[n]
  }

  /** A sorted list splits where the nonces reach `t`. */
  lemma {:induction false} FlatSplit(c: seq<Tx>, items: Items, t: nat) returns (k: nat)
    requires IsFlat(c, items)
    ensures k <= |c| && IsFlat(c[..k], Below(items, t)) && IsFlat(c[k..], From(items, t))
    decreases |c|
  {
    k := |c|;
    if c == [] || c[|c| - 1].nonce < t {
      AllBelow(items, t);
      assert c[..k] == c && c[k..] == [];
    } else {
      var d, x := c[..|c| - 1], c[|c| - 1];
      k := FlatSplit(d, items - {x.nonce}, t);
      TopFrom(items, t, x);
      FlatAppend(d[k..], From(items - {x.nonce}, t), x);
      assert c[k..] == d[k..] + [x] && d[..k] == c[..k];
    }
  }

  lemma {:induction false} AllBelow(items: Items, t: nat)
    requires forall n <- items :: n < t
    ensures Below(items, t) == items && From(items, t) == map[]
  {
  }

  lemma {:induction false} TopFrom(items: Items, t: nat, x: Tx)
    requires x.nonce in items && items[x.nonce] == x && x.nonce >= t && forall n <- items :: n <= x.nonce
    ensures Below(items - {x.nonce}, t) == Below(items, t)
    ensures From(items - {x.nonce}, t)[x.nonce := x] == From(items, t)
    ensures forall n <- From(items - {x.nonce}, t) :: n < x.nonce
  {
  }

  /** As many as there are below `t`, dropped from the front of the sorted list, leave the rest. */
  lemma {:induction false} FlatForward(c: seq<Tx>, items: Items, t: nat, low: seq<Tx>)
    requires IsFlat(c, items) && IsFlat(low, Below(items, t))
    ensures |low| <= |c| && c[..|low|] == low && IsFlat(c[|low|..], From(items, t))
  {
    var k := FlatSplit(c, items, t);
    FlatUnique(c[..k], low, Below(items, t));
  }

  /** The heap holds each nonce once. */
  ghost predicate Indexes(index: seq<nat>, items: Items) {
    IsHeap(index, Self) && multiset(index) == multiset(items.Keys)
  }

  lemma {:induction false} IndexWithout(index: seq<nat>, index': seq<nat>, items: Items, n: nat)
    requires Indexes(index, items) && n in items && IsHeap(index', Self)
    requires multiset(index') == multiset(index) - multiset{n}
    ensures Indexes(index', items - {n})
  {
    assert (items - {n}).Keys == items.Keys - {n};
    assert multiset(items.Keys - {n}) == multiset(items.Keys) - multiset{n};
  }

  lemma {:induction false} IndexHas(index: seq<nat>, items: Items)
    requires Indexes(index, items)
    ensures |index| == |items| && (forall n :: n in index ==> n in items) && forall n :: n in items ==> n in index
  {
    assert |multiset(index)| == |index| && |multiset(items.Keys)| == |items.Keys|;
    forall n | n in index ensures n in items { assert n in multiset(index); }
    forall n | n in items ensures n in index { assert n in multiset(items.Keys); }
  }

  /** The first nonce of the heap is the least. */
  lemma {:induction false} FirstLeast(index: seq<nat>, items: Items)
    requires Indexes(index, items) && index != []
    ensures index[0] in items && forall n <- items :: index[0] <= n
  {
    IndexHas(index, items);
    forall n | n in items ensures index[0] <= n {
      var i :| 0 <= i < |index| && index[i] == n;
      RootLeast(index, Self, i);
    }
  }

  lemma {:induction false} FlatSize(c: seq<Tx>, items: Items)
    requires IsFlat(c, items)
    ensures |c| == |items| && Keyed(items)
    decreases |c|
  {
    if c != [] {
      var x := c[|c| - 1];
      FlatSize(c[..|c| - 1], items - {x.nonce});
      assert (items - {x.nonce}).Keys == items.Keys - {x.nonce};
      forall n | n in items ensures items[n].nonce == n {
        if n != x.nonce { assert n in items - {x.nonce}; }
      }
    }
  }

  /** The list `d` is the contents with the highest nonce first. */
  ghost predicate IsFlatDown(d: seq<Tx>, items: Items) {
    if d == [] then items == map[]
    else
      var x := d[|d| - 1];
      && x.nonce in items && items[x.nonce] == x && (forall n <- items :: n >= x.nonce)
      && IsFlatDown(d[..|d| - 1], items - {x.nonce})
  }

  lemma {:induction false} FlatDownAppend(d: seq<Tx>, items: Items, x: Tx)
    requires IsFlatDown(d, items) && forall n <- items :: n > x.nonce
    ensures IsFlatDown(d + [x], items[x.nonce := x])
  {
    assert (d + [x])[..|d|] == d;
    assert items[x.nonce := x] - {x.nonce} == items;
  }

  // ----- Sorting

  ghost predicate Ascending(s: seq<nat>) {
    forall i, j | 0 <= i < j < |s| :: s[i] <= s[j]
  }

  /** The elements of a heap in order. */
  method Sort(index: seq<nat>) returns (s: seq<nat>)
    requires IsHeap(index, Self)
    ensures Ascending(s) && multiset(s) == multiset(index)
  {
    var h := index;
    s := [];
    while h != []
      invariant IsHeap(h, Self) && multiset(s) + multiset(h) == multiset(index)
      invariant Ascending(s) && forall i, j | 0 <= i < |s| && 0 <= j < |h| :: s[i] <= h[j]
      decreases |h|
    {
      ghost var before := h;
      forall j | 0 <= j < |h| ensures h[0] <= h[j] { RootLeast(h, Self, j); }
      var x;
      h, x := Pop(h, Self);
      forall j | 0 <= j < |h| ensures h[j] in before { assert h[j] in multiset(h); }
      s := s + [x];
    }
  }

  /** The nonces of a map in some order. */
  method KeysOf(items: Items) returns (s: seq<nat>)
    ensures multiset(s) == multiset(items.Keys)
  {
    s := [];
    var rest := items.Keys;
    ghost var done: set<nat> := {};
    while rest != {}
      invariant done !! rest && done + rest == items.Keys && multiset(s) == multiset(done)
      decreases rest
    {
      var n :| n in rest;
      s, rest, done := s + [n], rest - {n}, done + {n};
    }
    assert done == items.Keys;
  }

  // ----- The map

  class TxSortedMap {
    var items: Items
    var index: seq<nat>
    var cache: Option<seq<Tx>>

    ghost predicate Valid()
      reads this
    {
      Keyed(items) && Indexes(index, items) && (cache.Some? ==> IsFlat(cache.value, items))
    }

    constructor ()
      ensures Valid() && items == map[]
    {
      items, index, cache := map[], [], None;
    }

    method Put(tx: Tx)
      requires Valid()
      modifies this
      ensures Valid() && items == old(items)[tx.nonce := tx]
    {
      if tx.nonce !in items {
        index := Push(index, Self, tx.nonce);
        assert multiset(items.Keys + {tx.nonce}) == multiset(items.Keys) + multiset{tx.nonce};
      }
      assert items[tx.nonce := tx].Keys == items.Keys + {tx.nonce};
      items, cache := items[tx.nonce := tx], None;
    }

    /** Remove what is below the threshold, in order, and shift the front of the cache. */
    method Forward(threshold: nat) returns (removed: seq<Tx>)
      requires Valid()
      modifies this
      ensures Valid() && items == From(old(items), threshold) && IsFlat(removed, Below(old(items), threshold))
    {
      ghost var all := items;
      items, index, removed := PopBelow(items, index, threshold);
      if cache.Some? {
        FlatForward(cache.value, all, threshold, removed);
        cache := Some(cache.value[|removed|..]);
      }
    }

    /** Remove what `drop` names, in some order; the heap and the cache are then rebuilt or forgotten. */
    method Filter(drop: Tx -> bool) returns (removed: seq<Tx>)
      requires Valid()
      modifies this
      ensures Valid() && items == Kept(old(items), drop) && IsListed(removed, old(items) - Kept(old(items), drop).Keys)
    {
      ghost var all := items;
      items, removed := Sift(items, drop);
      if |removed| > 0 {
        var keys := KeysOf(items);
        index := Init(keys, Self);
        cache := None;
      } else {
        NoneDropped(all, drop);
      }
    }

    /** Keep the lowest nonces only, returning the others from the top, and shift the back of the cache. */
    method Cap(threshold: nat) returns (drops: seq<Tx>, ghost t: nat)
      requires Valid()
      modifies this
      ensures Valid() && items == Below(old(items), t) && IsFlatDown(drops, From(old(items), t))
      ensures |items| == if threshold < |old(items)| then threshold else |old(items)|
    {
      IndexHas(index, items);
      if |items| <= threshold {
        t := Above(items);
        AllBelow(items, t);
        return [], t;
      }
      ghost var all := items;
      var sorted := Sort(index);
      items, drops, t := CutAbove(items, sorted, threshold);
      index := Init(sorted[..threshold], Self);
      if cache.Some? {
        FlatSize(cache.value, all);
        var k := FlatSplit(cache.value, all, t);
        FlatSize(cache.value[..k], items);
        FlatDownSize(drops, From(all, t));
        BelowFromSize(all, t);
        cache := Some(cache.value[..|cache.value| - |drops|]);
      }
    }

    method Remove(nonce: nat) returns (found: bool)
      requires Valid()
      modifies this
      ensures Valid() && found == (nonce in old(items)) && items == old(items) - {nonce}
    {
      found := nonce in items;
      if found {
        IndexHas(index, items);
        var i := Find(index, nonce);
        ghost var before := index;
        index := BinaryHeap.Remove(index, Self, i);
        IndexWithout(before, index, items, nonce);
        items, cache := items - {nonce}, None;
      }
    }

    /** Take the run of consecutive nonces from the lowest on, unless it begins above `start`. */
    method Ready(start: nat) returns (ready: seq<Tx>, ghost t: nat)
      requires Valid()
      modifies this
      ensures Valid() && items == From(old(items), t) && IsFlat(ready, Below(old(items), t))
      ensures (forall n <- old(items) :: n > start) ==> t == 0
      ensures (exists n <- old(items) :: n <= start) ==> exists m: nat :: IsRun(old(items), m, t)
    {
      t := 0;
      ready := [];
      AllFrom(items, 0);
      if index == [] { IndexHas(index, items); return; }
      FirstLeast(index, items);
      if index[0] > start { return; }
      items, index, ready, t := PopRun(items, index);
      cache := None;
    }

    /** The contents in order of nonce, from the cache if there is one. */
    method Flatten() returns (txs: seq<Tx>)
      requires Valid()
      modifies this`cache
      ensures Valid() && IsFlat(txs, items)
    {
      if cache.None? {
        var keys := KeysOf(items);
        var heap := Init(keys, Self);
        var sorted := Sort(heap);
        txs := [];
        SortedKeys(sorted, items);
        for i := 0 to |sorted|
          invariant IsFlat(txs, Among(items, sorted[..i]))
        {
          FlattenStep(items, sorted, i);
          FlatAppend(txs, Among(items, sorted[..i]), items[sorted[i]]);
          txs := txs + [items[sorted[i]]];
        }
        assert Among(items, sorted[..|sorted|]) == items;
        cache := Some(txs);
      }
      txs := cache.value;
    }
  }

  /** The nonces from the lowest, `m`, up to the first gap, `t`. */
  ghost predicate IsRun(items: Items, m: nat, t: nat) {
    && m in items && (forall n <- items :: m <= n)
    && m < t && t !in items && forall n | m <= n < t :: n in items
  }

  /** Pop the heap until the threshold is reached. */
  method PopBelow(all: Items, index0: seq<nat>, threshold: nat)
    returns (items: Items, index: seq<nat>, removed: seq<Tx>)
    requires Keyed(all) && Indexes(index0, all)
    ensures Indexes(index, items) && items == From(all, threshold) && IsFlat(removed, Below(all, threshold))
  {
    items, index, removed := all, index0, [];
    ghost var gone: Items := map[];
    while index != [] && index[0] < threshold
      invariant Keyed(items) && Indexes(index, items) && Popped(all, items, gone, threshold) && IsFlat(removed, gone)
      decreases |index|
    {
      FirstLeast(index, items);
      var nonce := index[0];
      index := PopIndex(index, items);
      PopStep(all, items, gone, threshold, nonce);
      FlatAppend(removed, gone, items[nonce]);
      removed, gone := removed + [items[nonce]], gone[nonce := items[nonce]];
      items := items - {nonce};
    }
    if index != [] { FirstLeast(index, items); } else { IndexHas(index, items); }
    PoppedAll(all, items, gone, threshold);
  }

  /** Take the first nonce off the heap. */
  method PopIndex(index: seq<nat>, ghost items: Items) returns (index': seq<nat>)
    requires Indexes(index, items) && index != []
    ensures index[0] in items && Indexes(index', items - {index[0]}) && |index'| == |index| - 1
  {
    FirstLeast(index, items);
    var nonce;
    index', nonce := Pop(index, Self);
    IndexWithout(index, index', items, nonce);
  }

  /** The nonces from `m` up to `next` have been taken. */
  ghost predicate Taken(all: Items, items: Items, ready: seq<Tx>, m: nat, next: nat) {
    m <= next && items == From(all, next) && IsFlat(ready, Below(all, next)) && forall n | m <= n < next :: n in all
  }

  lemma {:induction false} TakeNext(all: Items, items: Items, ready: seq<Tx>, m: nat, next: nat)
    requires Keyed(all) && Taken(all, items, ready, m, next) && next in items
    ensures items[next] == all[next] && Taken(all, items - {next}, ready + [all[next]], m, next + 1)
  {
    ReadyStep(all, next, ready);
  }

  /** Pop the heap as long as its first nonce is the next. */
  method PopRun(all: Items, index0: seq<nat>) returns (items: Items, index: seq<nat>, ready: seq<Tx>, ghost t: nat)
    requires Keyed(all) && Indexes(index0, all) && index0 != []
    ensures Indexes(index, items) && items == From(all, t) && IsFlat(ready, Below(all, t)) && IsRun(all, index0[0], t)
  {
    items, index, ready := all, index0, [];
    var next := index[0];
    FirstLeast(index, items);
    AllFrom(items, next);
    while index != [] && index[0] == next
      invariant Indexes(index, items) && Taken(all, items, ready, index0[0], next)
      invariant next == index0[0] ==> index == index0
      decreases |index|
    {
      index := PopIndex(index, items);
      TakeNext(all, items, ready, index0[0], next);
      ready := ready + [items[next]];
      items, next := items - {next}, next + 1;
    }
    t := next;
    NextMissing(all, index, t);
  }

  lemma {:induction false} NextMissing(all: Items, index: seq<nat>, t: nat)
    requires Indexes(index, From(all, t)) && (index == [] || index[0] != t)
    ensures t !in all
  {
    assert t in all ==> t in From(all, t);
    IndexHas(index, From(all, t));
    if index != [] { FirstLeast(index, From(all, t)); }
  }

  /** Delete the nonces of the sorted list from the end down to position `threshold`. */
  method CutAbove(all: Items, sorted: seq<nat>, threshold: nat) returns (items: Items, drops: seq<Tx>, ghost t: nat)
    requires Keyed(all) && Ascending(sorted) && multiset(sorted) == multiset(all.Keys) && threshold < |sorted|
    ensures items == Below(all, t) && IsFlatDown(drops, From(all, t))
    ensures multiset(sorted[..threshold]) == multiset(items.Keys) && |items| == threshold
  {
    items, drops := all, [];
    var size := |sorted|;
    LastHighest(sorted, all);
    t := sorted[size - 1] + 1;
    AllBelow(items, t);
    assert sorted[..size] == sorted;
    while size > threshold
      invariant threshold <= size <= |sorted|
      invariant items == Below(all, t) && IsFlatDown(drops, From(all, t))
      invariant multiset(sorted[..size]) == multiset(items.Keys)
    {
      var n := sorted[size - 1];
      CutStep(all, sorted, size, t, drops);
      drops := drops + [items[n]];
      items, size, t := items - {n}, size - 1, n;
    }
    assert |multiset(sorted[..size])| == size && |multiset(items.Keys)| == |items.Keys|;
  }

  method Find(index: seq<nat>, nonce: nat) returns (i: nat)
    requires nonce in index
    ensures i < |index| && index[i] == nonce
  {
    i := 0;
    while index[i] != nonce
      invariant i < |index| && exists k :: i <= k < |index| && index[k] == nonce
      decreases |index| - i
    {
      i := i + 1;
    }
  }

  /** The list `r` has the contents in some order, each once. */
  ghost predicate IsListed(r: seq<Tx>, items: Items) {
    if r == [] then items == map[]
    else
      var x := r[|r| - 1];
      x.nonce in items && items[x.nonce] == x && IsListed(r[..|r| - 1], items - {x.nonce})
  }

  lemma {:induction false} ListedAppend(r: seq<Tx>, items: Items, x: Tx)
    requires IsListed(r, items) && x.nonce !in items
    ensures IsListed(r + [x], items[x.nonce := x])
  {
    assert (r + [x])[..|r|] == r;
    assert items[x.nonce := x] - {x.nonce} == items;
  }

  /** Of `all`, all but `rest` are looked at; `gone` are those to drop. */
  ghost predicate Sifted(all: Items, items: Items, gone: Items, rest: set<nat>, drop: Tx -> bool) {
    && all.Keys == items.Keys + gone.Keys && items.Keys !! gone.Keys && rest <= items.Keys
    && (forall n <- items :: items[n] == all[n] && (n in rest || !drop(all[n])))
    && (forall n <- gone :: gone[n] == all[n] && drop(all[n]))
  }

  lemma {:induction false} SiftStep(all: Items, items: Items, gone: Items, rest: set<nat>, drop: Tx -> bool, n: nat)
    requires Sifted(all, items, gone, rest, drop) && n in rest
    ensures drop(items[n]) ==> Sifted(all, items - {n}, gone[n := items[n]], rest - {n}, drop)
    ensures !drop(items[n]) ==> Sifted(all, items, gone, rest - {n}, drop)
  {
  }

  lemma {:induction false} SiftedAll(all: Items, items: Items, gone: Items, drop: Tx -> bool)
    requires Sifted(all, items, gone, {}, drop)
    ensures items == Kept(all, drop) && gone == all - Kept(all, drop).Keys
  {
  }

  lemma {:induction false} NoneDropped(all: Items, drop: Tx -> bool)
    requires all - Kept(all, drop).Keys == map[]
    ensures Kept(all, drop) == all
  {
    assert forall n | n in all :: n in Kept(all, drop) || n in all - Kept(all, drop).Keys;
  }

  /** Delete what `drop` names while walking the map in some order. */
  method Sift(all: Items, drop: Tx -> bool) returns (items: Items, removed: seq<Tx>)
    requires Keyed(all)
    ensures items == Kept(all, drop) && IsListed(removed, all - items.Keys)
  {
    removed, items := [], all;
    var rest := all.Keys;
    ghost var gone: Items := map[];
    while rest != {}
      invariant Sifted(all, items, gone, rest, drop) && IsListed(removed, gone)
      decreases rest
    {
      var n :| n in rest;
      SiftStep(all, items, gone, rest, drop, n);
      if drop(items[n]) {
        ListedAppend(removed, gone, items[n]);
        removed, gone := removed + [items[n]], gone[n := items[n]];
        items := items - {n};
      }
      rest := rest - {n};
    }
    SiftedAll(all, items, gone, drop);
  }

  ghost function Kept(items: Items, drop: Tx -> bool): Items {
    map n | n in items && !drop(items[n]) :: items[n]
  }

  /** The items whose nonces are in the list. */
  ghost function Among(items: Items, s: seq<nat>): Items {
    map n | n in items && n in s :: items[n]
  }

  lemma {:induction false} SortedKeys(s: seq<nat>, items: Items)
    requires Ascending(s) && multiset(s) == multiset(items.Keys)
    ensures (forall n <- items :: n in s) && (forall i | 0 <= i < |s| :: s[i] in items)
    ensures forall i, j | 0 <= i < j < |s| :: s[i] < s[j]
  {
    forall n | n in items ensures n in s { assert n in multiset(items.Keys); }
    forall i | 0 <= i < |s| ensures s[i] in items { assert s[i] in multiset(s); }
    forall i, j | 0 <= i < j < |s| ensures s[i] < s[j] {
      if s[i] == s[j] { TwiceIn(s, i, j); }
    }
  }

  lemma {:induction false} TwiceIn(s: seq<nat>, i: nat, j: nat)
    requires i < j < |s| && s[i] == s[j]
    ensures multiset(s)[s[i]] >= 2
  {
    assert s == s[..i] + [s[i]] + s[i + 1..];
    assert s[i + 1..][j - i - 1] == s[j];
  }

  /** Of `all`, the transactions `gone`, the lowest and all below the threshold, are out and `items` are left. */
  ghost predicate Popped(all: Items, items: Items, gone: Items, t: nat) {
    && all.Keys == gone.Keys + items.Keys
    && (forall n <- gone :: n < t && gone[n] == all[n])
    && (forall n <- items :: items[n] == all[n])
    && (forall m, n | m in gone && n in items :: m < n)
  }

  lemma {:induction false} PopStep(all: Items, items: Items, gone: Items, t: nat, nonce: nat)
    requires Popped(all, items, gone, t) && Keyed(items) && nonce in items && nonce < t
    requires forall n <- items :: nonce <= n
    ensures Popped(all, items - {nonce}, gone[nonce := items[nonce]], t)
  {
  }

  lemma {:induction false} PoppedAll(all: Items, items: Items, gone: Items, t: nat)
    requires Popped(all, items, gone, t) && forall n <- items :: n >= t
    ensures gone == Below(all, t) && items == From(all, t)
  {
  }

  lemma {:induction false} AllFrom(items: Items, t: nat)
    requires forall n <- items :: n >= t
    ensures From(items, t) == items && Below(items, t) == map[]
  {
  }

  lemma {:induction false} ReadyStep(all: Items, t: nat, ready: seq<Tx>)
    requires Keyed(all) && t in all && IsFlat(ready, Below(all, t))
    ensures IsFlat(ready + [all[t]], Below(all, t + 1)) && From(all, t + 1) == From(all, t) - {t}
  {
    assert Below(all, t + 1) == Below(all, t)[t := all[t]];
    FlatAppend(ready, Below(all, t), all[t]);
  }

  /** A nonce above all. */
  ghost function Above(items: Items): (t: nat)
    ensures forall n <- items :: n < t
    decreases |items|
  {
    if items == map[] then 0
    else
      var n :| n in items;
      var rest := Above(items - {n});
      assert items.Keys == (items - {n}).Keys + {n};
      if n < rest then rest else n + 1
  }

  lemma {:induction false} FlatDownSize(d: seq<Tx>, items: Items)
    requires IsFlatDown(d, items)
    ensures |d| == |items|
    decreases |d|
  {
    if d != [] {
      var x := d[|d| - 1];
      FlatDownSize(d[..|d| - 1], items - {x.nonce});
      assert (items - {x.nonce}).Keys == items.Keys - {x.nonce};
    }
  }

  lemma {:induction false} BelowFromSize(items: Items, t: nat)
    ensures |Below(items, t)| + |From(items, t)| == |items|
  {
    assert items.Keys == Below(items, t).Keys + From(items, t).Keys;
    assert Below(items, t).Keys !! From(items, t).Keys;
  }

  /** The last of the first `size` sorted nonces is the highest of those not cut yet, and goes next. */
  lemma {:induction false} CutStep(all: Items, sorted: seq<nat>, size: nat, t: nat, drops: seq<Tx>)
    requires Keyed(all) && Ascending(sorted) && 0 < size <= |sorted|
    requires multiset(sorted[..size]) == multiset(Below(all, t).Keys)
    requires IsFlatDown(drops, From(all, t))
    ensures var n := sorted[size - 1];
            && n in Below(all, t) && Below(all, t) - {n} == Below(all, n) && IsFlatDown(drops + [all[n]], From(all, n))
            && multiset(sorted[..size - 1]) == multiset(Below(all, n).Keys)
  {
    var n := sorted[size - 1];
    LastHighest(sorted[..size], Below(all, t));
    CutMaps(all, t, n);
    assert sorted[..size][..size - 1] == sorted[..size - 1];
    FlatDownAppend(drops, From(all, t), all[n]);
  }

  lemma {:induction false} LastHighest(s: seq<nat>, items: Items)
    requires Ascending(s) && s != [] && multiset(s) == multiset(items.Keys)
    ensures var n := s[|s| - 1];
            n in items && (forall m <- items :: m <= n) && multiset(s[..|s| - 1]) == multiset((items - {n}).Keys)
  {
    var n := s[|s| - 1];
    SortedKeys(s, items);
    assert s == s[..|s| - 1] + [n];
    forall m | m in items ensures m <= n {
      var i :| 0 <= i < |s| && s[i] == m;
    }
    assert (items - {n}).Keys == items.Keys - {n};
    assert multiset(items.Keys - {n}) == multiset(items.Keys) - multiset{n};
  }

  lemma {:induction false} CutMaps(all: Items, t: nat, n: nat)
    requires n in Below(all, t) && forall m <- Below(all, t) :: m <= n
    ensures Below(all, t) - {n} == Below(all, n) && From(all, t)[n := all[n]] == From(all, n)
    ensures forall m <- From(all, t) :: m > n
  {
    forall m | m in From(all, n) ensures m in From(all, t) || m == n {
      if m < t { assert m in Below(all, t); }
    }
  }

  lemma {:induction false} FlattenStep(items: Items, sorted: seq<nat>, i: nat)
    requires i < |sorted| && sorted[i] in items && forall j, k | 0 <= j < k < |sorted| :: sorted[j] < sorted[k]
    ensures Among(items, sorted[..i + 1]) == Among(items, sorted[..i])[sorted[i] := items[sorted[i]]]
    ensures forall n <- Among(items, sorted[..i]) :: n < sorted[i]
  {
    assert sorted[..i + 1] == sorted[..i] + [sorted[i]];
  }
}
