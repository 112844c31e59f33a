/**
The 8-ary sum tree behind weighted random selection (les/randselect.go), as a value.
A node of height `h` has eight slots of height `h - 1`; a slot of height 0 holds an item.
The flat view of a tree is the sequence of its leaves, used and free, in index order.
*/
module SelectTree {
  import opened Multiples

  /** Entries, each with its own name. */
  type Item = nat

  const BRANCHES := 8

  datatype Slot = Empty | Entry(item: Item) | Branch(node: Node)
  datatype Node = Node(items: seq<Slot>, weights: seq<int>, sumWeight: int, level: nat, itemCnt: nat, maxItems: nat)
  datatype Leaf = Free | Held(item: Item, weight: int)

  // ----- Flat view

  /** The number of leaves of a slot of height `h`. */
  ghost function Cap(h: nat): nat {
    if h == 0 then 1 else Times(Cap(h - 1), BRANCHES)
  }

  ghost function Frees(n: nat): (s: seq<Leaf>)
    ensures |s| == n && forall i | 0 <= i < n :: s[i] == Free
  {
    seq(n, _ => Free)
  }

  /** The leaves of a slot of height `h`. */
  ghost function Leaves(s: Slot, w: int, h: nat): seq<Leaf>
    decreases h, 0
  {
    if h == 0 then [if s.Entry? then Held(s.item, w) else Free]
    else if s.Branch? then Row(s.node, h - 1, BRANCHES)
    else Frees(Cap(h))
  }

  /** The leaves of the first `b` slots of a node, each of height `h`. */
  ghost function Row(n: Node, h: nat, b: nat): seq<Leaf>
    decreases h, b
  {
    if b == 0 || b > |n.items| || b > |n.weights| then []
    else Row(n, h, b - 1) + Leaves(n.items[b - 1], n.weights[b - 1], h)
  }

  function Weight(l: Leaf): int {
    if l.Held? then l.weight else 0
  }

  /** The total weight of a sequence of leaves. */
  ghost function Total(s: seq<Leaf>): int {
    if s == [] then 0 else Weight(s[0]) + Total(s[1..])
  }

  /** The number of used leaves. */
  ghost function Count(s: seq<Leaf>): nat {
    if s == [] then 0 else (if s[0].Held? then 1 else 0) + Count(s[1..])
  }

  // ----- Invariant

  /** A slot is free and weighs nothing, or holds an item of positive weight or a node of that weight. */
  ghost predicate SlotOk(s: Slot, w: int, h: nat)
    decreases h, 1
  {
    match s
    case Empty => w == 0
    case Entry(_) => h == 0 && w > 0
    case Branch(n) => h > 0 && NodeOk(n, h) && w == n.sumWeight
  }

  /** The node's stored sums are those of its leaves, and its slots are in order. */
  ghost predicate NodeOk(n: Node, h: nat)
    requires h > 0
    decreases h, 0
  {
    && |n.items| == |n.weights| == BRANCHES
    && n.level == h - 1 && n.maxItems == Cap(h)
    && n.sumWeight == Total(Row(n, h - 1, BRANCHES)) && n.itemCnt == Count(Row(n, h - 1, BRANCHES))
    && forall b | 0 <= b < BRANCHES :: SlotOk(n.items[b], n.weights[b], h - 1)
  }

  /** Well-formed slots of height `h`. */
  ghost predicate RowOk(n: Node, h: nat) {
    |n.items| == |n.weights| == BRANCHES && forall b | 0 <= b < BRANCHES :: SlotOk(n.items[b], n.weights[b], h)
  }

  // ----- Sums over sequences

  lemma {:induction false} TotalConcat(a: seq<Leaf>, b: seq<Leaf>)
    ensures Total(a + b) == Total(a) + Total(b) && Count(a + b) == Count(a) + Count(b)
    decreases |a|
  {
    if a == [] {
      assert a + b == b;
    } else {
      assert (a + b)[1..] == a[1..] + b;
      TotalConcat(a[1..], b);
    }
  }

  lemma {:induction false} TotalOne(l: Leaf)
    ensures Total([l]) == Weight(l) && Count([l]) == if l.Held? then 1 else 0
  {
    assert [l][1..] == [];
  }

  lemma {:induction false} TotalUpdate(s: seq<Leaf>, i: nat, l: Leaf)
    requires i < |s|
    ensures Total(s[i := l]) == Total(s) - Weight(s[i]) + Weight(l)
    ensures Count(s[i := l]) == Count(s) - (if s[i].Held? then 1 else 0) + if l.Held? then 1 else 0
  {
    assert s == s[..i] + [s[i]] + s[i + 1..];
    assert s[i := l] == s[..i] + [l] + s[i + 1..];
    TotalConcat(s[..i], [s[i]]);
    TotalConcat(s[..i] + [s[i]], s[i + 1..]);
    TotalConcat(s[..i], [l]);
    TotalConcat(s[..i] + [l], s[i + 1..]);
    TotalOne(s[i]);
    TotalOne(l);
  }

  lemma {:induction false} FreesTotal(n: nat)
    ensures Total(Frees(n)) == 0 && Count(Frees(n)) == 0
  {
    if n > 0 {
      assert Frees(n)[1..] == Frees(n - 1);
      FreesTotal(n - 1);
    }
  }

  lemma {:induction false} CountBound(s: seq<Leaf>)
    ensures Count(s) <= |s|
    ensures Count(s) == |s| ==> forall i | 0 <= i < |s| :: s[i].Held?
  {
    if s != [] { CountBound(s[1..]); }
  }

  // ----- Rows

  lemma {:induction false} CapPositive(h: nat)
    ensures Cap(h) > 0
  {
    if h > 0 {
      CapPositive(h - 1);
      TimesMono(Cap(h - 1), 1, BRANCHES);
    }
  }

  /** A slot has as many leaves as it has room for, and weighs what its leaves weigh. */
  lemma {:induction false} LeavesSize(s: Slot, w: int, h: nat)
    requires SlotOk(s, w, h)
    ensures |Leaves(s, w, h)| == Cap(h) && Total(Leaves(s, w, h)) == w
    decreases h, 0
  {
    if h == 0 {
      TotalOne(Leaves(s, w, h)[0]);
    } else if s.Branch? {
      RowSize(s.node, h - 1, BRANCHES);
    } else {
      FreesTotal(Cap(h));
    }
  }

  lemma {:induction false} RowSize(n: Node, h: nat, b: nat)
    requires RowOk(n, h) && b <= BRANCHES
    ensures |Row(n, h, b)| == Times(Cap(h), b)
    decreases h, b
  {
    if b > 0 {
      RowSize(n, h, b - 1);
      LeavesSize(n.items[b - 1], n.weights[b - 1], h);
    }
  }

  /** The leaves of the slots after `k` and before `b`. */
  ghost function Rest(n: Node, h: nat, k: nat, b: nat): seq<Leaf> {
    if b <= k + 1 || b > |n.items| || b > |n.weights| then []
    else Rest(n, h, k, b - 1) + Leaves(n.items[b - 1], n.weights[b - 1], h)
  }

  /** Where the leaves of slot `k` are in the row. */
  lemma {:induction false} RowSplit(n: Node, h: nat, k: nat, b: nat)
    requires k < b <= |n.items| == |n.weights|
    ensures Row(n, h, b) == Row(n, h, k) + Leaves(n.items[k], n.weights[k], h) + Rest(n, h, k, b)
    decreases b
  {
    if k < b - 1 { RowSplit(n, h, k, b - 1); }
  }

  /** The leaves of a row depend on its slots only. */
  lemma {:induction false} RowSame(n: Node, m: Node, h: nat, k: nat, b: nat)
    requires |n.items| == |n.weights| == |m.items| == |m.weights| && k < b <= |n.items|
    requires m.items == n.items[k := m.items[k]] && m.weights == n.weights[k := m.weights[k]]
    ensures Row(n, h, k) == Row(m, h, k) && Rest(n, h, k, b) == Rest(m, h, k, b)
  {
    RowBefore(n, m, h, k, k);
    RestAfter(n, m, h, k, b);
  }

  lemma {:induction false} RowBefore(n: Node, m: Node, h: nat, k: nat, b: nat)
    requires |n.items| == |n.weights| == |m.items| == |m.weights| && b <= k < |n.items|
    requires m.items == n.items[k := m.items[k]] && m.weights == n.weights[k := m.weights[k]]
    ensures Row(n, h, b) == Row(m, h, b)
  {
    if b > 0 { RowBefore(n, m, h, k, b - 1); }
  }

  lemma {:induction false} RestAfter(n: Node, m: Node, h: nat, k: nat, b: nat)
    requires |n.items| == |n.weights| == |m.items| == |m.weights| && k < b <= |n.items|
    requires m.items == n.items[k := m.items[k]] && m.weights == n.weights[k := m.weights[k]]
    ensures Rest(n, h, k, b) == Rest(m, h, k, b)
  {
    if b > k + 1 { RestAfter(n, m, h, k, b - 1); }
  }

  lemma {:induction false} Splice(a: seq<Leaf>, b: seq<Leaf>, c: seq<Leaf>, i: nat, l: Leaf)
    requires i < |b|
    ensures (a + b + c)[|a| + i] == b[i] && (a + b + c)[|a| + i := l] == a + b[i := l] + c
  {
    assert (a + b)[|a| + i := l] == a + b[i := l];
  }
}
