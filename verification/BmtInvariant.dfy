/**
The invariant of the concurrent hasher. It gives each launched leaf one owner: the
goroutine that carries its subtree, the node at which its subtree waits, or the result
channel.
*/
module BmtInvariant {
  import opened BmtTree
  import opened BmtHasher

  // ----- Ancestors

  lemma {:induction false} AncMono(a: nat, b: nat, h: nat)
    requires a <= b
    ensures Anc(a, h) <= Anc(b, h)
  {
    if h > 0 { AncMono(a, b, h - 1); }
  }

  lemma {:induction false} AncSame(a: nat, b: nat, h: nat, k: nat)
    requires h <= k && Anc(a, h) == Anc(b, h)
    ensures Anc(a, k) == Anc(b, k)
  {
    if h < k { AncSame(a, b, h, k - 1); }
  }

  lemma {:induction false} AncAnc(a: nat, h: nat, k: nat)
    ensures Anc(Anc(a, h), k) == Anc(a, h + k)
  {
    if k > 0 { AncAnc(a, h, k - 1); }
  }

  /** The height of the lowest node at index 0 above leaf `q`. */
  ghost function RootHeight(q: nat): nat {
    if q == 0 then 0 else 1 + RootHeight(q / 2)
  }

  lemma {:induction false} RootHeightExact(q: nat, h: nat)
    ensures Anc(q, h) == 0 <==> RootHeight(q) <= h
  {
    if q == 0 {
      AncMono(0, 0, h);
      AncZero(h);
    } else if h > 0 {
      RootHeightExact(q / 2, h - 1);
      AncAnc(q, 1, h - 1);
      assert Anc(q, 1) == Anc(q, 0) / 2 == q / 2;
    }
  }

  lemma {:induction false} AncZero(h: nat)
    ensures Anc(0, h) == 0
  {
    if h > 0 { AncZero(h - 1); }
  }

  lemma {:induction false} AncInTree(depth: nat, q: nat, l: nat, h: nat)
    requires l <= q && Anc(q, depth) == 0 && h <= depth
    ensures InTree(depth, Pos(h, Anc(l, h)))
  {
    AncAnc(l, h, depth - h);
    AncMono(l, q, depth);
  }

  // ----- The invariant

  datatype Item = ByGo(j: nat) | AtNode(h: nat, i: nat) | Sent

  ghost function R(c: Chunk): nat
  {
    RootHeight(c.Last())
  }

  /** A goroutine past the toggle has its whole node to itself. */
  predicate Whole(g: Go) {
    g.pc == Combine || g.pc == Deliver
  }

  /** The height of the complete subtree that a goroutine has already accounted for. */
  function Carried(g: Go): nat {
    if Whole(g) || g.at.h == 0 then g.at.h else g.at.h - 1
  }

  /** Every leaf with data below node `m` of height `h` is launched and owned by `it`. */
  ghost predicate AllOwned(c: Chunk, own: seq<Item>, h: nat, m: int, it: Item) {
    forall l: nat :: l < |c.segs| && Anc(l, h) == m ==> l < |own| && own[l] == it
  }

  /** Every leaf owned by `it` lies below node `m` of height `h`. */
  ghost predicate OwnsOnly(own: seq<Item>, h: nat, m: int, it: Item) {
    forall l: nat :: l < |own| && own[l] == it ==> Anc(l, h) == m
  }

  /** The leaves of the subtree carried by `j` are owned by `j`. */
  ghost predicate Covers(c: Chunk, st: State, own: seq<Item>, j: nat)
    requires j < |st.gos|
  {
    AllOwned(c, own, Carried(st.gos[j]), Anc(j, Carried(st.gos[j])), ByGo(j))
  }

  /** The value goroutine `j` carries, and those it has put into its node. */
  ghost predicate HoldsValue(c: Chunk, st: State, j: nat)
    requires j < |st.gos|
  {
    var g := st.gos[j];
    var h, n := g.at.h, At(st.nodes, g.at);
    match g.pc
    case Done => true
    case Start => g.s == c.Seg(j) && |g.s| > c.size && c.depth > 0
    case Write => g.s == Arriving(c, j, h)
    case Check => (if g.isLeft then n.left else n.right) == Arriving(c, j, h)
    case Toggle => !n.unbalanced && (if g.isLeft then n.left else n.right) == Arriving(c, j, h)
    case Combine =>
      if n.unbalanced then n.left == Arriving(c, j, h)
      else h > 0 && 2 * g.at.i + 1 <= Anc(c.Last(), h - 1)
           && n.left == Val(c, h - 1, 2 * g.at.i) && n.right == Val(c, h - 1, 2 * g.at.i + 1)
    case Deliver => g.s == Completed(c, g.at)
  }

  /** The value of the subtree at `v`, or the chunk hash if the chunk is a single leaf. */
  ghost function Completed(c: Chunk, v: Pos): Bytes
  {
    if c.Last() == 0 then RootVal(c) else Val(c, v.h, v.i)
  }

  /** What goroutine `j` brings to its node at height `h`: a raw segment at a leaf, else a subtree value. */
  ghost function Arriving(c: Chunk, j: nat, h: nat): Bytes
  {
    if h == 0 then c.Seg(j) else Val(c, h - 1, Anc(j, h - 1))
  }

  ghost predicate GoInv(c: Chunk, st: State, own: seq<Item>, j: nat)
    requires j < |st.gos| == |own|
  {
    var g := st.gos[j];
    j <= c.Last() && (g.pc != Done ==>
      && g.at.h <= R(c) && g.at.i == Anc(j, g.at.h)
      && (g.at.h == 0 ==> g.isLeft && (g.pc != Start ==> j == c.Last() && PathStart(c) == 0))
      && (g.at.h > 0 ==> g.pc != Start && (g.isLeft <==> Anc(j, g.at.h - 1) % 2 == 0))
      && (c.Last() == 0 && g.at.h == 0 && g.pc != Start ==> g.n == 0 && g.d == 0)
      && (c.Last() > 0 ==> g.n > 0 || g.d > 0)
      && Covers(c, st, own, j) && HoldsValue(c, st, j))
  }

  /** The writer has passed height `h` of the final path. */
  ghost predicate Passed(c: Chunk, main: Main, h: nat)
  {
    PathStart(c) <= h <= R(c)
    && match main
       case Launching => false
       case Finalising(v, _, _) => h < v.h
       case _ => true
  }

  /** The final path enters its node of height `h` from the left. */
  ghost predicate EntersLeft(c: Chunk, h: nat)
  {
    h > 0 ==> Anc(c.Last(), h - 1) % 2 == 0
  }

  ghost predicate Flags(c: Chunk, st: State, v: Pos)
  {
    var n := At(st.nodes, v);
    && (n.unbalanced <==> Passed(c, st.main, v.h) && v.i == Anc(c.Last(), v.h) && EntersLeft(c, v.h))
    && (n.unbalanced ==> n.right == [])
    && (n.root <==> v == Pos(c.depth, 0) || (v == Pos(R(c), 0) && (st.main.LaunchLast? || st.main.Waiting?)))
  }

  /** The subtree on side `w` of node `v` waits there with its value. */
  ghost predicate SideWaits(c: Chunk, st: State, own: seq<Item>, v: Pos, w: nat)
    requires |st.gos| == |own|
  {
    && w < 2 && 0 < v.h <= R(c) && 2 * v.i + 1 <= Anc(c.Last(), v.h - 1)
    && AllOwned(c, own, v.h - 1, 2 * v.i + w, AtNode(v.h, v.i))
    && OwnsOnly(own, v.h - 1, 2 * v.i + w, AtNode(v.h, v.i))
    && (if w == 0 then At(st.nodes, v).left else At(st.nodes, v).right) == Val(c, v.h - 1, 2 * v.i + w)
  }

  /** The height of the complete subtree that an owner accounts for. */
  ghost function Level(c: Chunk, st: State, it: Item): int
  {
    match it
    case ByGo(j) => if j < |st.gos| then Carried(st.gos[j]) else -1
    case AtNode(h, _) => h - 1
    case Sent => R(c)
  }

  /** The counter of `v` shows no visit, one waiting subtree, or two visits with everything below moved on. */
  ghost predicate Counter(c: Chunk, z: Nodes, st: State, own: seq<Item>, v: Pos)
    requires |st.gos| == |own|
  {
    var s, s0 := At(st.nodes, v).state, At(z, v).state;
    || s == s0
    || (s == Add32(s0) && (SideWaits(c, st, own, v, 0) || SideWaits(c, st, own, v, 1)))
    || (s == Add32(Add32(s0)) && v.h <= R(c)
        && forall l: nat :: l < |c.segs| && Anc(l, v.h) == v.i ==> l < |own| && Level(c, st, own[l]) >= v.h)
  }

  /** Owners are live: a running goroutine over the leaf, or a node that waits on the leaf's side. */
  ghost predicate OwnerInv(c: Chunk, z: Nodes, st: State, own: seq<Item>, l: nat)
    requires l < |own| == |st.gos|
  {
    match own[l]
    case ByGo(j) => j < |st.gos| && st.gos[j].pc != Done && Anc(l, Carried(st.gos[j])) == Anc(j, Carried(st.gos[j]))
    case AtNode(h, i) =>
      0 < h <= R(c) && Anc(l, h) == i && At(st.nodes, Pos(h, i)).state == Add32(At(z, Pos(h, i)).state)
    case Sent => st.results != []
  }

  ghost predicate WriterInv(c: Chunk, st: State)
  {
    match st.main
    case Launching => |st.gos| <= c.Last()
    case Finalising(v, isLeft, d) =>
      |st.gos| == c.Last() && PathStart(c) <= v.h <= R(c) && v.i == Anc(c.Last(), v.h)
      && (isLeft <==> EntersLeft(c, v.h)) && (c.Last() == 0 ==> d == 0)
    case LaunchLast(d) => |st.gos| == c.Last() && (c.Last() == 0 ==> d == 0)
    case Waiting => |st.gos| == |c.segs|
  }

  ghost predicate ResultInv(c: Chunk, st: State, own: seq<Item>)
  {
    st.results == []
    || (st.results == [RootVal(c)] && |own| == |c.segs| && forall l :: 0 <= l < |own| ==> own[l] == Sent)
  }

  ghost predicate Inv(c: Chunk, z: Nodes, st: State, own: seq<Item>) {
    && c.Valid() && Ready(z, c.depth) && |st.gos| == |own|
    && (forall j: nat :: j < |st.gos| ==> GoInv(c, st, own, j))
    && (forall v: Pos :: InTree(c.depth, v) ==> v in st.nodes && Flags(c, st, v) && Counter(c, z, st, own, v))
    && (forall l: nat :: l < |own| ==> OwnerInv(c, z, st, own, l))
    && WriterInv(c, st) && ResultInv(c, st, own)
  }

  lemma InitInv(c: Chunk, z: Nodes)
    requires c.Valid() && Ready(z, c.depth)
    ensures Inv(c, z, Init(z), [])
  {
    forall v: Pos | InTree(c.depth, v) ensures Flags(c, Init(z), v) && Counter(c, z, Init(z), [], v) {}
  }

  // ----- No two parties at one place

  /** A goroutine owns its own leaf, so no other goroutine carries a subtree over it. */
  lemma {:induction false} Apart(c: Chunk, st: State, own: seq<Item>, j: nat, k: nat)
    requires c.Valid() && j < |st.gos| == |own| && k < |st.gos| && j != k
    requires GoInv(c, st, own, j) && GoInv(c, st, own, k) && st.gos[j].pc != Done && st.gos[k].pc != Done
    ensures Anc(j, Carried(st.gos[k])) != Anc(k, Carried(st.gos[k]))
    ensures Anc(j, Carried(st.gos[j])) != Anc(k, Carried(st.gos[j]))
  {
    assert own[j] == ByGo(j) && own[k] == ByGo(k);
  }

  /** Two goroutines at one node come from different sides, and neither has combined. */
  lemma {:induction false} Meet(c: Chunk, st: State, own: seq<Item>, j: nat, k: nat)
    requires c.Valid() && j < |st.gos| == |own| && k < |st.gos| && j != k
    requires GoInv(c, st, own, j) && GoInv(c, st, own, k) && st.gos[j].pc != Done && st.gos[k].pc != Done
    requires st.gos[j].at == st.gos[k].at
    ensures st.gos[j].at.h > 0 && !Whole(st.gos[k]) && st.gos[k].isLeft != st.gos[j].isLeft
  {
    Apart(c, st, own, j, k);
  }

  /** A goroutine that comes from the right is not at an unbalanced node. */
  lemma {:induction false} RightBalanced(c: Chunk, st: State, own: seq<Item>, j: nat)
    requires c.Valid() && j < |st.gos| == |own| && GoInv(c, st, own, j) && st.gos[j].pc != Done
    requires Flags(c, st, st.gos[j].at) && At(st.nodes, st.gos[j].at).unbalanced
    ensures st.gos[j].isLeft
    ensures st.gos[j].at.h > 0 ==> Anc(j, st.gos[j].at.h - 1) == Anc(c.Last(), st.gos[j].at.h - 1) == 2 * st.gos[j].at.i
  {
    if st.gos[j].at.h > 0 { AncMono(j, c.Last(), st.gos[j].at.h - 1); }
  }

  /** The side of a waiting node that goroutine `j` comes from is not the waiting one. */
  lemma {:induction false} OtherSide(c: Chunk, st: State, own: seq<Item>, j: nat, w: nat)
    requires c.Valid() && j < |st.gos| == |own| && GoInv(c, st, own, j) && st.gos[j].pc != Done
    requires SideWaits(c, st, own, st.gos[j].at, w)
    ensures !Whole(st.gos[j]) && (st.gos[j].isLeft <==> w == 1)
  {
    var h, i := st.gos[j].at.h, st.gos[j].at.i;
    assert own[j] == ByGo(j);
    if Whole(st.gos[j]) {
      LeafBelow(c.Last(), h - 1, 2 * i + w);
    }
  }

  /** A node not right of the final path has a leaf with data below it. */
  lemma {:induction false} LeafBelow(q: nat, h: nat, m: nat)
    requires m <= Anc(q, h)
    ensures exists l: nat :: l <= q && Anc(l, h) == m
  {
    if h == 0 { assert Anc(m, 0) == m; }
    else {
      LeafBelow(q, h - 1, 2 * m);
      var l: nat :| l <= q && Anc(l, h - 1) == 2 * m;
      assert Anc(l, h) == m;
    }
  }

  /** Hand every leaf below node `m` of height `h` to `it`. */
  ghost function Handed(own: seq<Item>, h: nat, m: int, it: Item): (r: seq<Item>)
    ensures |r| == |own|
    ensures forall l: nat :: l < |own| ==> r[l] == if Anc(l, h) == m then it else own[l]
  {
    seq(|own|, l requires 0 <= l < |own| => if Anc(l, h) == m then it else own[l])
  }

  /** No leaf is taken away from `it`. */
  ghost predicate Keeps(own: seq<Item>, own': seq<Item>, it: Item) {
    |own| <= |own'| && forall l: nat :: l < |own| && own[l] == it ==> own'[l] == it
  }

  /** No leaf is given to `it`. */
  ghost predicate GainsNone(own: seq<Item>, own': seq<Item>, it: Item) {
    forall l: nat :: l < |own'| && own'[l] == it ==> l < |own| && own[l] == it
  }

  lemma {:induction false} OwnedKept(c: Chunk, own: seq<Item>, own': seq<Item>, h: nat, m: int, it: Item)
    requires AllOwned(c, own, h, m, it) && Keeps(own, own', it)
    ensures AllOwned(c, own', h, m, it)
  {}

  /** Handing over leaves that all belong to `x` takes nothing from anyone else. */
  lemma {:induction false} HandedKeeps(c: Chunk, own: seq<Item>, h: nat, m: int, x: Item, new_: Item, it: Item)
    requires |own| <= |c.segs| && AllOwned(c, own, h, m, x) && it != x
    ensures Keeps(own, Handed(own, h, m, new_), it)
  {}

  /** The node holds the same values and is as balanced as before. */
  ghost predicate SameValues(st: State, st': State, v: Pos) {
    var n, n' := At(st.nodes, v), At(st'.nodes, v);
    n'.left == n.left && n'.right == n.right && n'.unbalanced == n.unbalanced
  }

  /** A goroutine that did not move keeps its invariant if it keeps its leaves and its node's values. */
  lemma {:induction false} GoKept(c: Chunk, st: State, st': State, own: seq<Item>, own': seq<Item>, k: nat)
    requires c.Valid() && k < |st.gos| == |own| <= |st'.gos| == |own'|
    requires GoInv(c, st, own, k) && st'.gos[k] == st.gos[k]
    requires Keeps(own, own', ByGo(k)) && SameValues(st, st', st.gos[k].at)
    ensures GoInv(c, st', own', k)
  {
    if st.gos[k].pc != Done {
      OwnedKept(c, own, own', Carried(st.gos[k]), Anc(k, Carried(st.gos[k])), ByGo(k));
    }
  }

  /** The same when leaves that all belong to someone else are handed over. */
  lemma {:induction false} GoBystander(c: Chunk, st: State, st': State, own: seq<Item>, h: nat, m: int, x: Item,
                                       new_: Item, k: nat)
    requires c.Valid() && k < |st.gos| == |own| == |st'.gos| <= |c.segs|
    requires GoInv(c, st, own, k) && st'.gos[k] == st.gos[k] && SameValues(st, st', st.gos[k].at)
    requires AllOwned(c, own, h, m, x) && x != ByGo(k)
    ensures GoInv(c, st', Handed(own, h, m, new_), k)
  {
    HandedKeeps(c, own, h, m, x, new_, ByGo(k));
    GoKept(c, st, st', own, Handed(own, h, m, new_), k);
  }

  /** The counter of an untouched node stays right if the node keeps its leaves and no level falls. */
  lemma {:induction false} CounterKept(c: Chunk, z: Nodes, st: State, st': State, own: seq<Item>, own': seq<Item>,
                                       v: Pos)
    requires c.Valid() && |st.gos| == |own| <= |st'.gos| == |own'|
    requires Counter(c, z, st, own, v) && Keeps(own, own', AtNode(v.h, v.i)) && GainsNone(own, own', AtNode(v.h, v.i))
    requires At(st'.nodes, v).state == At(st.nodes, v).state && At(st'.nodes, v).left == At(st.nodes, v).left
    requires At(st'.nodes, v).right == At(st.nodes, v).right || (v.h > 0 ==> !SideWaits(c, st, own, v, 1))
    requires forall l: nat :: l < |own| ==> Level(c, st', own'[l]) >= Level(c, st, own[l])
    ensures Counter(c, z, st', own', v)
  {
    if SideWaits(c, st, own, v, 0) {
      OwnedKept(c, own, own', v.h - 1, 2 * v.i + 0, AtNode(v.h, v.i));
      assert SideWaits(c, st', own', v, 0);
    }
    if SideWaits(c, st, own, v, 1) {
      OwnedKept(c, own, own', v.h - 1, 2 * v.i + 1, AtNode(v.h, v.i));
      assert SideWaits(c, st', own', v, 1);
    }
  }

  /** Two complete halves make a complete node, and joining them takes leaves from their owners only. */
  lemma {:induction false} HandedJoin(c: Chunk, own: seq<Item>, h: nat, i: nat, x: Item, y: Item, new_: Item)
    requires h > 0 && |own| <= |c.segs|
    requires AllOwned(c, own, h - 1, 2 * i, x) && AllOwned(c, own, h - 1, 2 * i + 1, y)
    ensures AllOwned(c, Handed(own, h, i, new_), h, i, new_)
    ensures forall l: nat :: l < |own| && Handed(own, h, i, new_)[l] != own[l] ==> own[l] == x || own[l] == y
  {
    forall l: nat | l < |c.segs| && Anc(l, h) == i ensures l < |own| && (own[l] == x || own[l] == y) {
      assert Anc(l, h - 1) == 2 * i || Anc(l, h - 1) == 2 * i + 1;
    }
  }
}
