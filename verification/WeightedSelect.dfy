/** Weighted random selection (les/randselect.go): the operations on the sum tree, and the selector built on it. */
module WeightedSelect {
  import opened Multiples
  import opened SelectTree
  import opened Sums
  import opened Wrappers

  /** All leaves under a node. */
  ghost function All(n: Node): seq<Leaf> {
    Row(n, n.level, BRANCHES)
  }

  ghost predicate Ok(n: Node) {
    NodeOk(n, n.level + 1)
  }

  lemma {:induction false} AtHeight(n: Node, h: nat)
    requires h == n.level + 1
    ensures Ok(n) <==> NodeOk(n, h)
  {
  }

  /** The node below in slot `k`. */
  lemma {:induction false} Below(n: Node, k: nat)
    requires Ok(n) && n.level > 0 && k < BRANCHES && n.items[k] != Empty
    ensures n.items[k].Branch? && Ok(n.items[k].node) && n.items[k].node.level == n.level - 1
    ensures n.items[k].node.sumWeight == n.weights[k] && n.items[k].node.maxItems == Cap(n.level)
    ensures All(n.items[k].node) == Leaves(n.items[k], n.weights[k], n.level)
  {
    assert SlotOk(n.items[k], n.weights[k], n.level);
    assert NodeOk(n.items[k].node, n.level);
  }

  /** Node `m` is `n` with another slot `k`, one whose leaf `i` has become `l`. */
  ghost predicate Changed(n: Node, m: Node, k: nat, i: nat, l: Leaf) {
    && m.level == n.level && m.maxItems == n.maxItems && k < BRANCHES && i < Cap(n.level)
    && |m.items| == |m.weights| == BRANCHES && RowOk(n, n.level)
    && m.items == n.items[k := m.items[k]] && m.weights == n.weights[k := m.weights[k]]
    && SlotOk(m.items[k], m.weights[k], n.level)
    && |Leaves(n.items[k], n.weights[k], n.level)| == Cap(n.level)
    && Leaves(m.items[k], m.weights[k], n.level) == Leaves(n.items[k], n.weights[k], n.level)[i := l]
  }

  /** The same leaf, and only it, changes in the whole node. */
  lemma {:induction false} RowChanged(n: Node, m: Node, k: nat, i: nat, l: Leaf, idx: nat)
    requires Ok(n) && Changed(n, m, k, i, l) && idx == Times(Cap(n.level), k) + i
    ensures |All(n)| == n.maxItems && idx < n.maxItems
    ensures All(n)[idx] == Leaves(n.items[k], n.weights[k], n.level)[i] && All(m) == All(n)[idx := l]
  {
    RowSize(n, n.level, BRANCHES);
    RowSize(n, n.level, k);
    RowSplit(n, n.level, k, BRANCHES);
    RowSplit(m, n.level, k, BRANCHES);
    RowSame(n, m, n.level, k, BRANCHES);
    Splice(Row(n, n.level, k), Leaves(n.items[k], n.weights[k], n.level), Rest(n, n.level, k, BRANCHES), i, l);
  }

  /** A node stays in order when a leaf changes and its sums follow. */
  lemma {:induction false} Rebuilt(n: Node, m: Node, k: nat, i: nat, l: Leaf, idx: nat)
    requires Ok(n) && Changed(n, m, k, i, l) && idx == Times(Cap(n.level), k) + i
    requires var was := Leaves(n.items[k], n.weights[k], n.level)[i];
             && m.sumWeight == n.sumWeight - Weight(was) + Weight(l)
             && m.itemCnt == n.itemCnt - (if was.Held? then 1 else 0) + if l.Held? then 1 else 0
    ensures Ok(m) && |All(n)| == n.maxItems && idx < n.maxItems
    ensures All(n)[idx] == Leaves(n.items[k], n.weights[k], n.level)[i] && All(m) == All(n)[idx := l]
  {
    RowChanged(n, m, k, i, l, idx);
    TotalUpdate(All(n), idx, l);
    assert RowOk(m, n.level);
  }

  /** Whether the slot can take one more item. */
  predicate Full(n: Node, b: nat)
    requires b < |n.items|
  {
    match n.items[b]
    case Empty => false
    case Entry(_) => true
    case Branch(m) => n.level == 0 || m.itemCnt == m.maxItems
  }

  lemma {:induction false} FullRow(n: Node, b: nat)
    requires Ok(n) && b < BRANCHES && Full(n, b) && Count(Row(n, n.level, b)) == |Row(n, n.level, b)|
    ensures Count(Row(n, n.level, b + 1)) == |Row(n, n.level, b + 1)|
  {
    var s := Leaves(n.items[b], n.weights[b], n.level);
    assert SlotOk(n.items[b], n.weights[b], n.level);
    LeavesSize(n.items[b], n.weights[b], n.level);
    if n.level == 0 { TotalOne(s[0]); } else { Below(n, b); }
    TotalConcat(Row(n, n.level, b), s);
  }

  /** The full slots a search has passed leave room for it to end before the last one. */
  lemma {:induction false} NotAllFull(n: Node, b: nat)
    requires Ok(n) && n.itemCnt < n.maxItems && b <= BRANCHES
    requires Count(Row(n, n.level, b)) == |Row(n, n.level, b)|
    ensures b < BRANCHES
  {
    RowSize(n, n.level, BRANCHES);
  }

  /** An empty node of the given level. */
  function NewNode(level: nat, maxItems: nat): Node {
    Node(seq(BRANCHES, _ => Empty), seq(BRANCHES, _ => 0), 0, level, 0, maxItems)
  }

  lemma {:induction false} EmptyRow(n: Node, h: nat, b: nat)
    requires |n.items| == |n.weights| == BRANCHES && b <= BRANCHES
    requires forall i | 0 <= i < b :: n.items[i] == Empty && n.weights[i] == 0
    ensures Row(n, h, b) == Frees(Times(Cap(h), b))
  {
    if b > 0 { EmptyRow(n, h, b - 1); }
  }

  lemma {:induction false} NewNodeOk(level: nat)
    ensures Ok(NewNode(level, Cap(level + 1))) && All(NewNode(level, Cap(level + 1))) == Frees(Cap(level + 1))
  {
    EmptyRow(NewNode(level, Cap(level + 1)), level, BRANCHES);
    FreesTotal(Cap(level + 1));
  }

  /** An eighth of a node's room is the room of each of its slots. */
  lemma {:induction false} Eighth(h: nat)
    ensures Cap(h + 1) / BRANCHES == Cap(h) > 0
  {
    TimesProduct(Cap(h), BRANCHES);
    CapPositive(h);
  }

  /** The node that an insertion into slot `b` goes down to. */
  method SubNode(n: Node, b: nat) returns (m: Node)
    requires Ok(n) && n.level > 0 && b < BRANCHES && !Full(n, b)
    ensures Ok(m) && m.level == n.level - 1 && m.itemCnt < m.maxItems == Cap(n.level)
    ensures All(m) == Leaves(n.items[b], n.weights[b], n.level) && m.sumWeight == n.weights[b]
    ensures |All(m)| == Cap(n.level)
  {
    assert SlotOk(n.items[b], n.weights[b], n.level);
    LeavesSize(n.items[b], n.weights[b], n.level);
    if n.items[b] == Empty {
      Eighth(n.level);
      NewNodeOk(n.level - 1);
      FreesTotal(Cap(n.level));
      m := NewNode(n.level - 1, n.maxItems / BRANCHES);
    } else {
      m := n.items[b].node;
      Below(n, b);
      CountBound(All(m));
    }
  }

  /** The first branch with room. */
  method FindRoom(n: Node) returns (branch: nat)
    requires Ok(n) && n.itemCnt < n.maxItems
    ensures branch < BRANCHES && !Full(n, branch) && forall b | 0 <= b < branch :: Full(n, b)
  {
    branch := 0;
    while Full(n, branch)
      invariant branch < BRANCHES && Count(Row(n, n.level, branch)) == |Row(n, n.level, branch)|
      invariant forall b | 0 <= b < branch :: Full(n, b)
      decreases BRANCHES - branch
    {
      FullRow(n, branch);
      branch := branch + 1;
      NotAllFull(n, branch);
    }
  }

  /** The index of a leaf and the way back, as the source computes them. */
  lemma {:induction false} IndexOf(c: nat, k: nat, i: nat)
    requires i < c
    ensures Times(c, k) + i == c * k + i && (Times(c, k) + i) / c == k
  {
    TimesProduct(c, k);
    TimesDivide(c, k, Times(c, k) + i);
    TimesDivide(c, k + 1, Times(c, k) + i);
  }

  /** What putting an item at `idx` does to a node: that leaf was free and no other leaf changes. */
  ghost predicate Inserted(n: Node, m: Node, idx: nat, item: Item, weight: int) {
    && Ok(n) && Ok(m) && m.level == n.level && m.maxItems == n.maxItems
    && m.sumWeight == n.sumWeight + weight && m.itemCnt == n.itemCnt + 1
    && idx < |All(n)| && All(n)[idx] == Free && All(m) == All(n)[idx := Held(item, weight)]
  }

  /** The new node when slot `k`, which held the leaves of `sub`, gets those of `sub'`. */
  lemma {:induction false} InsertedAbove(n: Node, m: Node, k: nat, i: nat, sub: Node, sub': Node, item: Item,
                                         weight: int)
    requires Ok(n) && n.level > 0 && k < BRANCHES && weight > 0 && Inserted(sub, sub', i, item, weight)
    requires sub.level == n.level - 1 && |All(sub)| == Cap(n.level)
    requires All(sub) == Leaves(n.items[k], n.weights[k], n.level) && sub.sumWeight == n.weights[k]
    requires m == n.(items := n.items[k := Branch(sub')], weights := n.weights[k := n.weights[k] + weight],
                     sumWeight := n.sumWeight + weight, itemCnt := n.itemCnt + 1)
    ensures Inserted(n, m, Times(Cap(n.level), k) + i, item, weight)
  {
    AtHeight(sub', n.level);
    assert Leaves(m.items[k], m.weights[k], n.level) == All(sub');
    assert RowOk(n, n.level);
    Rebuilt(n, m, k, i, Held(item, weight), Times(Cap(n.level), k) + i);
  }

  lemma {:induction false} InsertedHere(n: Node, m: Node, k: nat, item: Item, weight: int)
    requires Ok(n) && n.level == 0 && k < BRANCHES && !Full(n, k) && weight > 0
    requires m == n.(items := n.items[k := Entry(item)], weights := n.weights[k := n.weights[k] + weight],
                     sumWeight := n.sumWeight + weight, itemCnt := n.itemCnt + 1)
    ensures Inserted(n, m, k, item, weight)
  {
    assert SlotOk(n.items[k], n.weights[k], 0);
    IndexOf(1, k, 0);
    Rebuilt(n, m, k, 0, Held(item, weight), k);
  }

  /** Put an item into the first branch with room. */
  method Insert(n: Node, item: Item, weight: int) returns (n': Node, idx: nat)
    requires Ok(n) && n.itemCnt < n.maxItems && weight > 0
    ensures Inserted(n, n', idx, item, weight)
    decreases n.level
  {
    var branch := FindRoom(n);
    n' := n.(weights := n.weights[branch := n.weights[branch] + weight],
          sumWeight := n.sumWeight + weight, itemCnt := n.itemCnt + 1);
    if n.level == 0 {
      n' := n'.(items := n.items[branch := Entry(item)]);
      idx := branch;
      InsertedHere(n, n', branch, item, weight);
    } else {
      var sub := SubNode(n, branch);
      var sub', subIdx := Insert(sub, item, weight);
      n' := n'.(items := n.items[branch := Branch(sub')]);
      idx := sub'.maxItems * branch + subIdx;
      IndexOf(sub'.maxItems, branch, subIdx);
      InsertedAbove(n, n', branch, subIdx, sub, sub', item, weight);
    }
  }

  /** Dividing an index by the size of a slot gives the slot and the place in it. */
  lemma {:induction false} Divide(c: nat, idx: nat, k: nat, i: int)
    requires c > 0 && idx < Times(c, BRANCHES) && k == idx / c && i == idx - k * c
    ensures k < BRANCHES && 0 <= i < c && idx == Times(c, k) + i
  {
    TimesProduct(c, k);
    TimesDivide(c, BRANCHES, idx);
  }

  /** Where a leaf of slot `k` is among all leaves. */
  lemma {:induction false} Locate(n: Node, k: nat, i: nat, idx: nat)
    requires Ok(n) && k < BRANCHES && i < Cap(n.level) && idx == Times(Cap(n.level), k) + i
    ensures |Leaves(n.items[k], n.weights[k], n.level)| == Cap(n.level) && idx < |All(n)|
    ensures All(n)[idx] == Leaves(n.items[k], n.weights[k], n.level)[i]
  {
    LeavesSize(n.items[k], n.weights[k], n.level);
    RowSize(n, n.level, k);
    RowSplit(n, n.level, k, BRANCHES);
    Splice(Row(n, n.level, k), Leaves(n.items[k], n.weights[k], n.level), Rest(n, n.level, k, BRANCHES), i, Free);
  }

  /** The leaf that holds `item` at the given weight; an item of weight zero is not held. */
  function LeafOf(item: Item, weight: int): Leaf {
    if weight == 0 then Free else Held(item, weight)
  }

  /** The place of an index that is known to be used: its slot is not empty. */
  lemma {:induction false} LocateHeld(n: Node, idx: nat, k: nat, i: int)
    requires Ok(n) && idx < |All(n)| && All(n)[idx].Held? && Cap(n.level) > 0
    requires k == idx / Cap(n.level) && i == idx - k * Cap(n.level)
    ensures n.itemCnt > 0 && k < BRANCHES && 0 <= i < Cap(n.level) && idx == Times(Cap(n.level), k) + i
    ensures |Leaves(n.items[k], n.weights[k], n.level)| == Cap(n.level)
    ensures All(n)[idx] == Leaves(n.items[k], n.weights[k], n.level)[i]
    ensures SlotOk(n.items[k], n.weights[k], n.level) && n.items[k] != Empty
  {
    RowSize(n, n.level, BRANCHES);
    Divide(Cap(n.level), idx, k, i);
    Locate(n, k, i, idx);
    CountHeld(All(n), idx);
  }

  /** What setting the weight of the item at `idx` does to a node. */
  ghost predicate Reweighed(n: Node, m: Node, idx: nat, weight: int, diff: int) {
    && Ok(n) && Ok(m) && m.level == n.level && m.maxItems == n.maxItems
    && idx < |All(n)| && All(n)[idx].Held?
    && diff == weight - All(n)[idx].weight && m.sumWeight == n.sumWeight + diff
    && m.itemCnt == n.itemCnt - (if weight == 0 then 1 else 0)
    && All(m) == All(n)[idx := LeafOf(All(n)[idx].item, weight)]
  }

  lemma {:induction false} LocateEntry(n: Node, idx: nat)
    requires Ok(n) && n.level == 0 && idx < |All(n)|
    ensures idx < BRANCHES && idx == Times(1, idx) + 0 && SlotOk(n.items[idx], n.weights[idx], 0)
    ensures All(n)[idx] == Leaves(n.items[idx], n.weights[idx], 0)[0]
    ensures All(n)[idx].Held? ==> n.itemCnt > 0
  {
    RowSize(n, 0, BRANCHES);
    TimesProduct(1, idx);
    TimesProduct(1, BRANCHES);
    Locate(n, idx, 0, idx);
    if All(n)[idx].Held? { CountHeld(All(n), idx); }
  }

  /** Set the weight of an item held by this very node. */
  method SetEntry(n: Node, idx: nat, weight: int) returns (n': Node, diff: int)
    requires Ok(n) && n.level == 0 && weight >= 0 && idx < |All(n)| && All(n)[idx].Held?
    ensures Reweighed(n, n', idx, weight, diff)
  {
    LocateEntry(n, idx);
    diff := weight - n.weights[idx];
    n' := n.(weights := n.weights[idx := weight], sumWeight := n.sumWeight + diff);
    if weight == 0 { n' := n'.(items := n.items[idx := Empty], itemCnt := n.itemCnt - 1); }
    Rebuilt(n, n', idx, 0, LeafOf(All(n)[idx].item, weight), idx);
  }

  /** The new node when the node below it in slot `k` is reweighed. */
  lemma {:induction false} ReweighedAbove(n: Node, m: Node, k: nat, i: nat, idx: nat, weight: int, diff: int)
    requires Ok(n) && n.level > 0 && weight >= 0 && idx < |All(n)| && All(n)[idx].Held?
    requires k < BRANCHES && i < Cap(n.level) && idx == Times(Cap(n.level), k) + i
    requires |m.items| == BRANCHES && n.items[k].Branch? && m.items[k].Branch?
    requires Reweighed(n.items[k].node, m.items[k].node, i, weight, diff)
    requires n.itemCnt > 0
    requires m == n.(items := n.items[k := m.items[k]], weights := n.weights[k := n.weights[k] + diff],
                     sumWeight := n.sumWeight + diff, itemCnt := n.itemCnt - (if weight == 0 then 1 else 0))
    ensures Reweighed(n, m, idx, weight, diff)
  {
    assert SlotOk(n.items[k], n.weights[k], n.level);
    Below(n, k);
    AtHeight(m.items[k].node, n.level);
    Locate(n, k, i, idx);
    Rebuilt(n, m, k, i, LeafOf(All(n)[idx].item, weight), idx);
  }

  /** The branch that leads to a used index, and the index below it. */
  method Descend(n: Node, idx: nat) returns (branch: nat, subIdx: nat)
    requires Ok(n) && n.level > 0 && idx < |All(n)| && All(n)[idx].Held?
    ensures n.itemCnt > 0 && branch < BRANCHES && subIdx < Cap(n.level) && idx == Times(Cap(n.level), branch) + subIdx
    ensures n.items[branch].Branch? && Ok(n.items[branch].node) && n.items[branch].node.level == n.level - 1
    ensures subIdx < |All(n.items[branch].node)| && All(n.items[branch].node)[subIdx] == All(n)[idx]
  {
    var branchItems := n.maxItems / BRANCHES;
    Eighth(n.level);
    branch := idx / branchItems;
    var below := idx - branch * branchItems;
    LocateHeld(n, idx, branch, below);
    Below(n, branch);
    subIdx := below;
  }

  /** Give the item at `idx` a weight, zero to remove it; returns the change. */
  method SetNodeWeight(n: Node, idx: nat, weight: int) returns (n': Node, diff: int)
    requires Ok(n) && weight >= 0 && idx < |All(n)| && All(n)[idx].Held?
    ensures Reweighed(n, n', idx, weight, diff)
    decreases n.level
  {
    if n.level == 0 {
      n', diff := SetEntry(n, idx, weight);
    } else {
      var branch, subIdx := Descend(n, idx);
      var sub;
      sub, diff := SetNodeWeight(n.items[branch].node, subIdx, weight);
      n' := n.(items := n.items[branch := Branch(sub)], weights := n.weights[branch := n.weights[branch] + diff],
            sumWeight := n.sumWeight + diff, itemCnt := n.itemCnt - if weight == 0 then 1 else 0);
      ReweighedAbove(n, n', branch, subIdx, idx, weight, diff);
    }
  }

  lemma {:induction false} CountHeld(s: seq<Leaf>, i: nat)
    requires i < |s| && s[i].Held?
    ensures Count(s) > 0
  {
    TotalUpdate(s, i, Free);
  }

  // ----- Choice

  /** The leaf that value `v` falls on, with the leaves laid end to end. */
  ghost function Pick(s: seq<Leaf>, v: int): nat {
    if s == [] then 0
    else if v < Weight(s[0]) then 0
    else 1 + Pick(s[1..], v - Weight(s[0]))
  }

  /** Leaves never weigh less than nothing. */
  ghost predicate Weighed(s: seq<Leaf>) {
    forall i | 0 <= i < |s| :: s[i].Held? ==> s[i].weight > 0
  }

  /** A leaf is picked by the values from the total before it up to the total with it. */
  lemma {:induction false} PickIs(s: seq<Leaf>, v: int, i: nat)
    requires Weighed(s) && 0 <= v < Total(s) && i < |s|
    ensures Pick(s, v) == i <==> Total(s[..i]) <= v < Total(s[..i]) + Weight(s[i])
    ensures Pick(s, v) < |s|
  {
    var t, w := s[1..], Weight(s[0]);
    if v < w {
      TotalNonNegative(s[..i]);
      if i > 0 { FirstWeight(s, i); TotalNonNegative(t[..i - 1]); }
    } else {
      FirstWeight(s, i);
      PickIs(t, v - w, if i == 0 then 0 else i - 1);
    }
  }

  lemma {:induction false} FirstWeight(s: seq<Leaf>, i: nat)
    requires i <= |s| && s != []
    ensures i == 0 ==> Total(s[..i]) == 0
    ensures i > 0 ==> Total(s[..i]) == Weight(s[0]) + Total(s[1..][..i - 1])
  {
    if i > 0 { assert s[..i][1..] == s[1..][..i - 1]; }
  }

  lemma {:induction false} TotalNonNegative(s: seq<Leaf>)
    requires Weighed(s)
    ensures Total(s) >= 0
  {
    if s != [] { TotalNonNegative(s[1..]); }
  }

  lemma {:induction false} LeavesWeighed(s: Slot, w: int, h: nat)
    requires SlotOk(s, w, h)
    ensures Weighed(Leaves(s, w, h))
    decreases h, 0
  {
    if h > 0 && s.Branch? { RowWeighed(s.node, h - 1, BRANCHES); }
  }

  lemma {:induction false} RowWeighed(n: Node, h: nat, b: nat)
    requires RowOk(n, h) && b <= BRANCHES
    ensures Weighed(Row(n, h, b))
    decreases h, b
  {
    if b > 0 {
      RowWeighed(n, h, b - 1);
      LeavesWeighed(n.items[b - 1], n.weights[b - 1], h);
    }
  }

  /** Totals inside a concatenation. */
  lemma {:induction false} InnerTotal(a: seq<Leaf>, b: seq<Leaf>, c: seq<Leaf>, i: nat)
    requires Weighed(a) && Weighed(b) && Weighed(c) && i < |b|
    ensures Total((a + b + c)[..|a| + i]) == Total(a) + Total(b[..i]) && (a + b + c)[|a| + i] == b[i]
    ensures Total(a) >= 0 && Total(a) + Total(b) <= Total(a + b + c)
  {
    assert (a + b + c)[..|a| + i] == a + b[..i];
    TotalConcat(a, b[..i]);
    TotalConcat(a, b);
    TotalConcat(a + b, c);
    TotalNonNegative(c);
    TotalNonNegative(a);
  }

  lemma {:induction false} PickInner(a: seq<Leaf>, b: seq<Leaf>, c: seq<Leaf>, v: int)
    requires Weighed(a) && Weighed(b) && Weighed(c) && Total(a) <= v < Total(a) + Total(b)
    ensures Pick(b, v - Total(a)) < |b| && Pick(a + b + c, v) == |a| + Pick(b, v - Total(a))
  {
    var i := Pick(b, v - Total(a));
    PickIs(b, v - Total(a), 0);
    PickIs(b, v - Total(a), i);
    InnerTotal(a, b, c, i);
    PickIs(a + b + c, v, |a| + i);
  }

  /** A value that falls in slot `k` picks a leaf of it. */
  lemma {:induction false} PickSlot(n: Node, k: nat, val: int, sub: nat)
    requires Ok(n) && k < BRANCHES
    requires Total(Row(n, n.level, k)) <= val < Total(Row(n, n.level, k)) + n.weights[k]
    requires sub == Pick(Leaves(n.items[k], n.weights[k], n.level), val - Total(Row(n, n.level, k)))
    ensures sub < |Leaves(n.items[k], n.weights[k], n.level)|
    ensures Pick(All(n), val) == |Row(n, n.level, k)| + sub < |All(n)|
    ensures All(n)[Pick(All(n), val)] == Leaves(n.items[k], n.weights[k], n.level)[sub]
  {
    var s := Leaves(n.items[k], n.weights[k], n.level);
    var rest := Rest(n, n.level, k, BRANCHES);
    LeavesSize(n.items[k], n.weights[k], n.level);
    RowSplit(n, n.level, k, BRANCHES);
    RowWeighed(n, n.level, BRANCHES);
    WeighedParts(Row(n, n.level, k), s, rest);
    PickInner(Row(n, n.level, k), s, rest, val);
    Splice(Row(n, n.level, k), s, rest, sub, Free);
  }

  lemma {:induction false} WeighedParts(a: seq<Leaf>, b: seq<Leaf>, c: seq<Leaf>)
    requires Weighed(a + b + c)
    ensures Weighed(a) && Weighed(b) && Weighed(c)
  {
    var s := a + b + c;
    assert forall i | 0 <= i < |a| :: a[i] == s[i];
    assert forall i | 0 <= i < |b| :: b[i] == s[|a| + i];
    assert forall i | 0 <= i < |c| :: c[i] == s[|a| + |b| + i];
  }

  /** The slot whose share of the weight `val` falls in, and what is left of `val` there. */
  method FindShare(n: Node, val: int) returns (k: nat, rem: int)
    requires Ok(n) && 0 <= val < n.sumWeight
    ensures k < BRANCHES && 0 <= rem < n.weights[k] && rem == val - Total(Row(n, n.level, k))
  {
    k, rem := 0, val;
    while rem >= n.weights[k]
      invariant k < BRANCHES && 0 <= rem == val - Total(Row(n, n.level, k))
      decreases BRANCHES - k
    {
      LeavesSize(n.items[k], n.weights[k], n.level);
      TotalConcat(Row(n, n.level, k), Leaves(n.items[k], n.weights[k], n.level));
      k, rem := k + 1, rem - n.weights[k];
    }
  }

  /** The item that `val` falls on, with its stored weight. */
  method ChooseLeaf(n: Node, val: int) returns (item: Item, weight: int)
    requires Ok(n) && 0 <= val < n.sumWeight
    ensures Pick(All(n), val) < |All(n)| && All(n)[Pick(All(n), val)] == Held(item, weight) && weight > 0
    decreases n.level
  {
    var k, rem := FindShare(n, val);
    ghost var sub := Pick(Leaves(n.items[k], n.weights[k], n.level), rem);
    PickSlot(n, k, val, sub);
    assert SlotOk(n.items[k], n.weights[k], n.level);
    if n.level == 0 {
      item, weight := n.items[k].item, n.weights[k];
    } else {
      Below(n, k);
      item, weight := ChooseLeaf(n.items[k].node, rem);
    }
  }

  // ----- The selector

  /** `idx` names exactly the used leaves, each by its own item. */
  ghost predicate Indexed(s: seq<Leaf>, idx: map<Item, nat>) {
    && (forall x <- idx :: idx[x] < |s| && s[idx[x]].Held? && s[idx[x]].item == x)
    && (forall i | 0 <= i < |s| && s[i].Held? :: s[i].item in idx && idx[s[i].item] == i)
  }

  /** The flat map that the tree stands for. */
  ghost function WeightsOf(s: seq<Leaf>, idx: map<Item, nat>): map<Item, int>
    requires Indexed(s, idx)
  {
    map x | x in idx :: s[idx[x]].weight
  }

  /** Without its last leaf, the flat map loses at most that leaf's item. */
  lemma {:induction false} LastLeaf(s: seq<Leaf>, idx: map<Item, nat>, t: seq<Leaf>, l: Leaf)
    requires Indexed(s, idx) && s == t + [l]
    ensures l.Held? ==> Indexed(t, idx - {l.item}) && WeightsOf(t, idx - {l.item}) == WeightsOf(s, idx) - {l.item}
    ensures l.Held? ==> l.item in WeightsOf(s, idx) && WeightsOf(s, idx)[l.item] == l.weight
    ensures !l.Held? ==> Indexed(t, idx) && WeightsOf(t, idx) == WeightsOf(s, idx)
  {
    assert s[|t|] == l;
    assert forall i | 0 <= i < |t| :: t[i] == s[i];
  }

  /** The total weight is the sum over the flat map. */
  lemma {:induction false} TotalIsSum(s: seq<Leaf>, idx: map<Item, nat>)
    requires Indexed(s, idx)
    ensures Total(s) == Sum(WeightsOf(s, idx))
    decreases |s|
  {
    if s == [] {
      assert WeightsOf(s, idx).Keys == {};
    } else {
      var t, l := s[..|s| - 1], s[|s| - 1];
      LastLeaf(s, idx, t, l);
      TotalConcat(t, [l]);
      TotalOne(l);
      if l.Held? {
        TotalIsSum(t, idx - {l.item});
        SumWithout(WeightsOf(s, idx), l.item);
      } else {
        TotalIsSum(t, idx);
      }
    }
  }

  ghost function Interval(a: int, b: int): set<int>
    decreases b - a
  {
    if a >= b then {} else Interval(a, b - 1) + {b - 1}
  }

  lemma {:induction false} IntervalIs(a: int, b: int)
    ensures forall v: int :: v in Interval(a, b) <==> a <= v < b
    ensures a <= b ==> |Interval(a, b)| == b - a
    decreases b - a
  {
    if a < b { IntervalIs(a, b - 1); }
  }

  /** The values in the tree's range on which the choice falls on `x`. */
  ghost function ValuesFor(n: Node, x: Item): set<int>
    requires Ok(n)
  {
    var s := All(n);
    set v | 0 <= v < n.sumWeight && Pick(s, v) < |s| && s[Pick(s, v)].Held? && s[Pick(s, v)].item == x
  }

  /** Selection is in exact proportion: as many values choose an item as it weighs. */
  lemma {:induction false} Proportional(n: Node, idx: map<Item, nat>, x: Item)
    requires Ok(n) && Indexed(All(n), idx)
    ensures |ValuesFor(n, x)| == if x in idx then WeightsOf(All(n), idx)[x] else 0
  {
    var s := All(n);
    RowWeighed(n, n.level, BRANCHES);
    if x in idx {
      var i := idx[x];
      var low := Total(s[..i]);
      Bounds(s, i);
      IntervalIs(low, low + s[i].weight);
      forall v: int ensures v in ValuesFor(n, x) <==> v in Interval(low, low + s[i].weight) {
        if 0 <= v < n.sumWeight { PickIs(s, v, i); }
      }
      assert ValuesFor(n, x) == Interval(low, low + s[i].weight);
    } else {
      assert ValuesFor(n, x) == {};
    }
  }

  /** An item drawn with stored weight `last` is accepted at its current weight, or by a second draw below it. */
  predicate Accepts(weight: nat, last: int, draw: int) {
    weight >= last || draw < weight
  }

  /** The second draws that accept an item. */
  ghost function AcceptingDraws(weight: nat, last: nat): set<int> {
    set d: int | 0 <= d < last && Accepts(weight, last, d)
  }

  /** Of the draws for an item, as many accept it as it weighs now, or all if it weighs more than before. */
  lemma {:induction false} AcceptedShare(weight: nat, last: nat)
    ensures |AcceptingDraws(weight, last)| == if weight < last then weight else last
  {
    var n := if weight < last then weight else last;
    IntervalIs(0, n);
    assert AcceptingDraws(weight, last) == Interval(0, n);
  }

  /** The pairs of a first and a second draw with which a round returns an item that weighs `weight` now. */
  ghost function Outcomes(n: Node, idx: map<Item, nat>, x: Item, weight: nat): set<(int, int)>
    requires Ok(n) && Indexed(All(n), idx) && x in idx && WeightsOf(All(n), idx)[x] >= 0
  {
    Grid(ValuesFor(n, x), AcceptingDraws(weight, WeightsOf(All(n), idx)[x]))
  }

  /**
  An item of stored weight `w` is returned by `w * min(w, weight)` pairs; there are `w` second draws
  for each first one.
  */
  lemma {:induction false} RoundShare(n: Node, idx: map<Item, nat>, x: Item, weight: nat)
    requires Ok(n) && Indexed(All(n), idx) && x in idx && WeightsOf(All(n), idx)[x] >= 0
    ensures var w := WeightsOf(All(n), idx)[x];
            |Outcomes(n, idx, x, weight)| == w * if weight < w then weight else w
  {
    var w := WeightsOf(All(n), idx)[x];
    Proportional(n, idx, x);
    AcceptedShare(weight, w);
    GridCount(ValuesFor(n, x), AcceptingDraws(weight, w));
  }

  ghost function Grid<A, B>(a: set<A>, b: set<B>): set<(A, B)> {
    set u, v | u in a && v in b :: (u, v)
  }

  ghost function OneRow<A, B>(u: A, b: set<B>): set<(A, B)> {
    set v | v in b :: (u, v)
  }

  lemma {:induction false} GridCount<A, B>(a: set<A>, b: set<B>)
    ensures |Grid(a, b)| == |a| * |b|
    decreases |a|
  {
    if u :| u in a {
      GridCount(a - {u}, b);
      RowCount(u, b);
      assert Grid(a, b) == Grid(a - {u}, b) + OneRow(u, b) && Grid(a - {u}, b) !! OneRow(u, b);
      OneMore(|a| - 1, |b|);
    } else {
      assert a == {} && Grid(a, b) == {};
    }
  }

  lemma {:induction false} OneMore(m: nat, n: nat)
    ensures (m + 1) * n == m * n + n
  {
  }

  lemma {:induction false} RowCount<A, B>(u: A, b: set<B>)
    ensures |OneRow(u, b)| == |b|
    decreases |b|
  {
    if x :| x in b {
      RowCount(u, b - {x});
      assert OneRow(u, b) == OneRow(u, b - {x}) + {(u, x)};
    } else {
      assert b == {} && OneRow(u, b) == {};
    }
  }

  lemma {:induction false} Bounds(s: seq<Leaf>, i: nat)
    requires Weighed(s) && i < |s|
    ensures 0 <= Total(s[..i]) && Total(s[..i]) + Weight(s[i]) <= Total(s)
  {
    assert s == s[..i] + [s[i]] + s[i + 1..];
    WeighedParts(s[..i], [s[i]], s[i + 1..]);
    InnerTotal(s[..i], [s[i]], s[i + 1..], 0);
    TotalOne(s[i]);
  }

  // ----- The class

  /** The root one level higher: the old root becomes the first branch. */
  function Grown(n: Node): Node {
    Node([Branch(n)] + seq(BRANCHES - 1, _ => Empty), [n.sumWeight] + seq(BRANCHES - 1, _ => 0),
         n.sumWeight, n.level + 1, n.itemCnt, n.maxItems * BRANCHES)
  }

  lemma {:induction false} GrownOk(n: Node)
    requires Ok(n)
    ensures Ok(Grown(n)) && Grown(n).itemCnt < Grown(n).maxItems
    ensures All(Grown(n)) == All(n) + Frees(Times(Cap(n.level + 1), BRANCHES - 1))
  {
    var m := Grown(n);
    RowSize(n, n.level, BRANCHES);
    GrownRow(n, BRANCHES);
    TotalConcat(All(n), Frees(Times(Cap(m.level), BRANCHES - 1)));
    FreesTotal(Times(Cap(m.level), BRANCHES - 1));
    TimesProduct(Cap(m.level), BRANCHES);
    CapPositive(m.level);
    TimesMono(Cap(m.level), 1, BRANCHES - 1);
    AtHeight(n, m.level);
    CountBound(All(n));
  }

  lemma {:induction false} FreesIndexed(s: seq<Leaf>, idx: map<Item, nat>, k: nat)
    requires Indexed(s, idx)
    ensures Indexed(s + Frees(k), idx) && WeightsOf(s + Frees(k), idx) == WeightsOf(s, idx)
  {
  }

  /** All leaves keep their index when the root grows; the new ones are free. */
  lemma {:induction false} GrownKeeps(n: Node, idx: map<Item, nat>)
    requires Ok(n) && Indexed(All(n), idx)
    ensures Ok(Grown(n)) && Grown(n).itemCnt < Grown(n).maxItems && All(n) <= All(Grown(n))
    ensures Indexed(All(Grown(n)), idx) && WeightsOf(All(Grown(n)), idx) == WeightsOf(All(n), idx)
  {
    GrownOk(n);
    FreesIndexed(All(n), idx, Times(Cap(n.level + 1), BRANCHES - 1));
  }

  lemma {:induction false} GrownRow(n: Node, b: nat)
    requires Ok(n) && 1 <= b <= BRANCHES
    ensures Row(Grown(n), n.level + 1, b) == All(n) + Frees(Times(Cap(n.level + 1), b - 1))
  {
    if b > 1 { GrownRow(n, b - 1); }
  }

  class WeightedRandomSelect {
    var root: Node
    var idx: map<Item, nat>

    ghost predicate Valid()
      reads this
    {
      Ok(root) && Indexed(All(root), idx)
    }

    /** The items and their stored weights. */
    ghost function Weights(): map<Item, int>
      reads this
      requires Valid()
    {
      WeightsOf(All(root), idx)
    }

    constructor ()
      ensures Valid() && Weights() == map[]
    {
      root, idx := NewNode(0, BRANCHES), map[];
      new;
      TimesProduct(1, BRANCHES);
      NewNodeOk(0);
    }

    /** Set, add or, with weight zero, remove an item. */
    method SetWeight(item: Item, weight: int)
      requires Valid() && weight >= 0
      modifies this
      ensures Valid()
      ensures Weights() == Reset(old(Weights()), item, weight)
    {
      if item in idx {
        var diff;
        ghost var s, i := All(root), idx[item];
        root, diff := SetNodeWeight(root, idx[item], weight);
        LeafSet(s, idx, item, weight);
        if weight == 0 { idx := idx - {item}; }
      } else if weight != 0 {
        if root.itemCnt == root.maxItems {
          GrownKeeps(root, idx);
          root := Grown(root);
        } else {
          RowSize(root, root.level, BRANCHES);
          CountBound(All(root));
        }
        ghost var s := All(root);
        var i;
        root, i := Insert(root, item, weight);
        LeafAdded(s, idx, item, weight, i);
        idx := idx[item := i];
      }
    }

    /** One round of a choice: draw an item, bring its weight up to date, accept it or not. */
    method Draw(now: Item -> nat) returns (item: Item, accepted: bool, ghost val: int, ghost draw: int)
      requires Valid() && root.sumWeight != 0
      modifies this
      ensures val in old(ValuesFor(root, item)) && 0 <= draw < old(Weights())[item]
      ensures accepted == Accepts(now(item), old(Weights())[item], draw)
      ensures Valid() && item in old(Weights()) && Weights() == Reset(old(Weights()), item, now(item))
      ensures accepted ==> now(item) > 0
      ensures !accepted ==> root.sumWeight < old(root.sumWeight)
    {
      ghost var w := Weights();
      Stored(root, idx);
      var first :| 0 <= first < root.sumWeight;
      var lastWeight;
      item, lastWeight := ChooseLeaf(root, first);
      assert w[item] == lastWeight;
      var weight := now(item);
      if weight != lastWeight { SetWeight(item, weight); }
      var second :| 0 <= second < lastWeight;
      accepted := Accepts(weight, lastWeight, second);
      val, draw := first, second;
      ResetSum(w, item, weight);
      Stored(root, idx);
    }

    /**
    Choose an item, bringing stored weights up to date where the choice falls. `now` gives
    the current weights; the draws are arbitrary. Every retry lowers the stored total.
    */
    method Choose(now: Item -> nat) returns (choice: Option<Item>)
      requires Valid()
      modifies this
      ensures Valid() && Updated(old(Weights()), Weights(), now)
      ensures choice.None? <==> forall x <- old(Weights()) :: now(x) == 0
      ensures choice.Some? ==> choice.value in Weights() && Weights()[choice.value] == now(choice.value) > 0
    {
      Stored(root, idx);
      while root.sumWeight != 0
        invariant Valid() && Updated(old(Weights()), Weights(), now) && root.sumWeight >= 0
        decreases root.sumWeight
      {
        ghost var w := Weights();
        var item, accepted, val, draw := Draw(now);
        ResetUpdated(old(Weights()), w, item, now);
        if accepted { return Some(item); }
        Stored(root, idx);
      }
      Stored(root, idx);
      return None;
    }
  }

  /** The weights after setting that of `x`; weight zero removes it. */
  ghost function Reset(w: map<Item, int>, x: Item, v: int): map<Item, int> {
    if v == 0 then w - {x} else w[x := v]
  }

  lemma {:induction false} ResetSum(w: map<Item, int>, x: Item, v: int)
    requires x in w
    ensures Sum(Reset(w, x, v)) == Sum(w) - w[x] + v
  {
    if v == 0 { SumWithout(w, x); } else { SumUpdate(w, x, v); }
  }

  lemma {:induction false} ResetUpdated(w0: map<Item, int>, w: map<Item, int>, x: Item, now: Item -> nat)
    requires Updated(w0, w, now) && x in w
    ensures Updated(w0, Reset(w, x, now(x)), now)
  {
  }

  /** The weights `w` are `w0`, some of them brought up to date. */
  ghost predicate Updated(w0: map<Item, int>, w: map<Item, int>, now: Item -> nat) {
    && w.Keys <= w0.Keys
    && (forall x <- w :: w[x] == w0[x] || w[x] == now(x))
    && (forall x <- w0 :: x in w || now(x) == 0)
  }

  /** The root's total is the sum of the stored weights, all positive; it is zero only when there are none. */
  lemma {:induction false} Stored(n: Node, idx: map<Item, nat>)
    requires Ok(n) && Indexed(All(n), idx)
    ensures n.sumWeight == Sum(WeightsOf(All(n), idx)) >= 0
    ensures forall x <- idx :: WeightsOf(All(n), idx)[x] > 0
    ensures n.sumWeight == 0 <==> idx == map[]
  {
    var s := All(n);
    RowWeighed(n, n.level, BRANCHES);
    TotalIsSum(s, idx);
    TotalNonNegative(s);
    forall x | x in idx ensures s[idx[x]].weight > 0 && n.sumWeight > 0 { Bounds(s, idx[x]); }
  }

  lemma {:induction false} LeafSet(s: seq<Leaf>, idx: map<Item, nat>, item: Item, weight: int)
    requires Indexed(s, idx) && item in idx
    ensures var t := s[idx[item] := LeafOf(item, weight)];
            if weight == 0 then Indexed(t, idx - {item}) && WeightsOf(t, idx - {item}) == WeightsOf(s, idx) - {item}
            else Indexed(t, idx) && WeightsOf(t, idx) == WeightsOf(s, idx)[item := weight]
  {
  }

  lemma {:induction false} LeafAdded(s: seq<Leaf>, idx: map<Item, nat>, item: Item, weight: int, i: nat)
    requires Indexed(s, idx) && item !in idx && i < |s| && s[i] == Free
    ensures var t := s[i := Held(item, weight)];
            Indexed(t, idx[item := i]) && WeightsOf(t, idx[item := i]) == WeightsOf(s, idx)[item := weight]
  {
  }
}
