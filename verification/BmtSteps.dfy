/**
Each step of the writer or of a goroutine keeps the invariant of the concurrent hasher.
*/
module BmtSteps {
  import opened BmtTree
  import opened BmtHasher
  import opened BmtInvariant

  // ----- Write: put the carried value into the node

  lemma {:induction false} WriteKeepsGo(c: Chunk, st: State, own: seq<Item>, j: nat, k: nat)
    requires c.Valid() && j < |st.gos| == |own| && st.gos[j].pc == Write && k < |st.gos| && k != j
    requires GoInv(c, st, own, j) && GoInv(c, st, own, k)
    ensures GoInv(c, StepWorker(c, st, j), own, k)
  {
    if st.gos[k].pc != Done && st.gos[k].at == st.gos[j].at {
      Meet(c, st, own, j, k);
    } else if st.gos[k].pc != Done {
      GoKept(c, st, StepWorker(c, st, j), own, own, k);
    }
  }

  lemma {:induction false} WriteMoves(c: Chunk, st: State, own: seq<Item>, j: nat)
    requires c.Valid() && j < |st.gos| == |own| && st.gos[j].pc == Write && GoInv(c, st, own, j)
    ensures GoInv(c, StepWorker(c, st, j), own, j)
  {}

  lemma {:induction false} WriteKeepsNode(c: Chunk, z: Nodes, st: State, own: seq<Item>, j: nat, v: Pos)
    requires c.Valid() && j < |st.gos| == |own| && st.gos[j].pc == Write
    requires GoInv(c, st, own, j) && Flags(c, st, v) && Counter(c, z, st, own, v)
    ensures Flags(c, StepWorker(c, st, j), v) && Counter(c, z, StepWorker(c, st, j), own, v)
  {
    var st' := StepWorker(c, st, j);
    assert forall it :: Level(c, st', it) == Level(c, st, it);
    if v == st.gos[j].at {
      if At(st.nodes, v).unbalanced { RightBalanced(c, st, own, j); }
      if SideWaits(c, st, own, v, 0) { OtherSide(c, st, own, j, 0); assert SideWaits(c, st', own, v, 0); }
      if SideWaits(c, st, own, v, 1) { OtherSide(c, st, own, j, 1); assert SideWaits(c, st', own, v, 1); }
    } else {
      CounterKept(c, z, st, st', own, own, v);
    }
  }

  lemma {:induction false} WriteStep(c: Chunk, z: Nodes, st: State, own: seq<Item>, j: nat)
    requires Inv(c, z, st, own) && j < |st.gos| && st.gos[j].pc == Write
    ensures Inv(c, z, StepWorker(c, st, j), own)
  {
    var st' := StepWorker(c, st, j);
    forall k: nat | k < |st'.gos| ensures GoInv(c, st', own, k) {
      if k == j { WriteMoves(c, st, own, j); } else { WriteKeepsGo(c, st, own, j, k); }
    }
    forall v: Pos | InTree(c.depth, v) ensures v in st'.nodes && Flags(c, st', v) && Counter(c, z, st', own, v) {
      WriteKeepsNode(c, z, st, own, j, v);
    }
    forall l: nat | l < |own| ensures OwnerInv(c, z, st', own, l) { assert OwnerInv(c, z, st, own, l); }
  }

  // ----- Check: pass through an unbalanced node, go to the toggle of another

  lemma {:induction false} PassCovers(c: Chunk, st: State, own: seq<Item>, j: nat)
    requires c.Valid() && j < |st.gos| == |own| && st.gos[j].pc == Check && GoInv(c, st, own, j)
    requires Flags(c, st, st.gos[j].at) && At(st.nodes, st.gos[j].at).unbalanced
    ensures AllOwned(c, own, st.gos[j].at.h, st.gos[j].at.i, ByGo(j))
  {
    var h, i := st.gos[j].at.h, st.gos[j].at.i;
    if h > 0 {
      RightBalanced(c, st, own, j);
      forall l: nat | l < |c.segs| && Anc(l, h) == i ensures Anc(l, h - 1) == 2 * i { AncMono(l, c.Last(), h - 1); }
    }
  }

  lemma {:induction false} PassGo(c: Chunk, st: State, own: seq<Item>, j: nat)
    requires c.Valid() && j < |st.gos| == |own| && st.gos[j].pc == Check && GoInv(c, st, own, j)
    requires Flags(c, st, st.gos[j].at) && At(st.nodes, st.gos[j].at).unbalanced
    ensures GoInv(c, StepWorker(c, st, j), own, j)
  {
    PassCovers(c, st, own, j);
    RightBalanced(c, st, own, j);
  }

  lemma {:induction false} CheckGo(c: Chunk, st: State, own: seq<Item>, j: nat)
    requires c.Valid() && j < |st.gos| == |own| && st.gos[j].pc == Check && GoInv(c, st, own, j)
    requires Flags(c, st, st.gos[j].at)
    ensures GoInv(c, StepWorker(c, st, j), own, j)
  {
    if At(st.nodes, st.gos[j].at).unbalanced { PassGo(c, st, own, j); }
  }

  lemma {:induction false} CheckStep(c: Chunk, z: Nodes, st: State, own: seq<Item>, j: nat)
    requires Inv(c, z, st, own) && j < |st.gos| && st.gos[j].pc == Check && InTree(c.depth, st.gos[j].at)
    ensures Inv(c, z, StepWorker(c, st, j), own)
  {
    var st' := StepWorker(c, st, j);
    forall k: nat | k < |st'.gos| ensures GoInv(c, st', own, k) {
      if k == j { CheckGo(c, st, own, j); } else { GoKept(c, st, st', own, own, k); }
    }
    Climbed(c, z, st, st', own, j);
  }

  /** Raising the carried height of one goroutine, with the nodes untouched, keeps nodes and owners in order. */
  lemma {:induction false} Climbed(c: Chunk, z: Nodes, st: State, st': State, own: seq<Item>, j: nat)
    requires Inv(c, z, st, own) && j < |st.gos| && st.gos[j].pc != Done
    requires st'.nodes == st.nodes && st'.main == st.main && st'.results == st.results
    requires |st'.gos| == |st.gos| && st'.gos == st.gos[j := st'.gos[j]] && st'.gos[j].pc != Done
    requires Carried(st'.gos[j]) >= Carried(st.gos[j])
    ensures forall v: Pos :: InTree(c.depth, v) ==> v in st'.nodes && Flags(c, st', v) && Counter(c, z, st', own, v)
    ensures forall l: nat :: l < |own| ==> OwnerInv(c, z, st', own, l)
  {
    forall v: Pos | InTree(c.depth, v) ensures v in st'.nodes && Flags(c, st', v) && Counter(c, z, st', own, v) {
      assert Flags(c, st, v) && Counter(c, z, st, own, v);
      assert forall it :: Level(c, st', it) >= Level(c, st, it);
    }
    forall l: nat | l < |own| ensures OwnerInv(c, z, st', own, l) {
      assert OwnerInv(c, z, st, own, l);
      if own[l] == ByGo(j) { AncSame(l, j, Carried(st.gos[j]), Carried(st'.gos[j])); }
    }
  }

  // ----- Toggle, first visit: the goroutine ends and its subtree waits

  /** A goroutine at a balanced node finds the counter unvisited or waiting, never spent. */
  lemma {:induction false} NotSpent(c: Chunk, z: Nodes, st: State, own: seq<Item>, j: nat)
    requires c.Valid() && Ready(z, c.depth) && j < |st.gos| == |own| && st.gos[j].pc == Toggle
    requires GoInv(c, st, own, j) && Flags(c, st, st.gos[j].at) && Counter(c, z, st, own, st.gos[j].at)
    requires WriterInv(c, st) && !At(st.nodes, st.gos[j].at).unbalanced
    ensures st.gos[j].at.h > 0
    ensures At(st.nodes, st.gos[j].at).state != Add32(Add32(At(z, st.gos[j].at).state))
            || At(st.nodes, st.gos[j].at).state == At(z, st.gos[j].at).state
            || At(st.nodes, st.gos[j].at).state == Add32(At(z, st.gos[j].at).state)
  {
    assert own[j] == ByGo(j);
  }

  /** The owners after goroutine `j` has left its subtree waiting at its node. */
  ghost function Parked(st: State, own: seq<Item>, j: nat): seq<Item>
    requires j < |st.gos| && st.gos[j].at.h > 0
  {
    var u := st.gos[j].at;
    Handed(own, u.h - 1, Anc(j, u.h - 1), AtNode(u.h, u.i))
  }

  /** Goroutine `j` is the first visitor of its node. */
  ghost predicate FirstVisit(c: Chunk, z: Nodes, st: State, own: seq<Item>, j: nat)
  {
    && j < |st.gos| == |own| <= |c.segs| && st.gos[j].pc == Toggle && st.gos[j].at.h > 0 && GoInv(c, st, own, j)
    && !At(st.nodes, st.gos[j].at).unbalanced && Waits(Add32(At(st.nodes, st.gos[j].at).state))
    && At(st.nodes, st.gos[j].at).state == At(z, st.gos[j].at).state
    && Flags(c, st, st.gos[j].at) && WriterInv(c, st)
    && OwnsOnly(own, 0, -1, AtNode(st.gos[j].at.h, st.gos[j].at.i))
  }

  lemma {:induction false} FirstLevels(c: Chunk, z: Nodes, st: State, own: seq<Item>, j: nat, l: nat)
    requires c.Valid() && FirstVisit(c, z, st, own, j) && l < |own|
    ensures Level(c, StepWorker(c, st, j), Parked(st, own, j)[l]) >= Level(c, st, own[l])
    ensures Parked(st, own, j)[l] == own[l] || own[l] == ByGo(j)
  {}

  /** A balanced node has data on both sides. */
  lemma {:induction false} BothHalves(c: Chunk, z: Nodes, st: State, own: seq<Item>, j: nat)
    requires c.Valid() && FirstVisit(c, z, st, own, j)
    ensures 2 * st.gos[j].at.i + 1 <= Anc(c.Last(), st.gos[j].at.h - 1)
  {
    AncMono(j, c.Last(), st.gos[j].at.h - 1);
  }

  /** The leaves handed over are those on the side that now waits. */
  lemma {:induction false} ParkedOwners(c: Chunk, z: Nodes, st: State, own: seq<Item>, j: nat, w: nat)
    requires c.Valid() && FirstVisit(c, z, st, own, j) && w == if st.gos[j].isLeft then 0 else 1
    ensures var u := st.gos[j].at;
            && Anc(j, u.h - 1) == 2 * u.i + w
            && AllOwned(c, Parked(st, own, j), u.h - 1, 2 * u.i + w, AtNode(u.h, u.i))
            && OwnsOnly(Parked(st, own, j), u.h - 1, 2 * u.i + w, AtNode(u.h, u.i))
  {
    var u := st.gos[j].at;
    assert Anc(j, u.h) == Anc(j, u.h - 1) / 2;
  }

  lemma {:induction false} FirstHere(c: Chunk, z: Nodes, st: State, own: seq<Item>, j: nat)
    requires c.Valid() && FirstVisit(c, z, st, own, j)
    ensures Counter(c, z, StepWorker(c, st, j), Parked(st, own, j), st.gos[j].at)
  {
    var u, w := st.gos[j].at, if st.gos[j].isLeft then 0 else 1;
    AncMono(j, c.Last(), u.h - 1);
    BothHalves(c, z, st, own, j);
    ParkedOwners(c, z, st, own, j, w);
    assert SideWaits(c, StepWorker(c, st, j), Parked(st, own, j), u, w);
  }

  lemma {:induction false} FirstElsewhere(c: Chunk, z: Nodes, st: State, own: seq<Item>, j: nat, v: Pos)
    requires c.Valid() && FirstVisit(c, z, st, own, j) && Counter(c, z, st, own, v) && v != st.gos[j].at
    ensures Counter(c, z, StepWorker(c, st, j), Parked(st, own, j), v)
  {
    var st', own' := StepWorker(c, st, j), Parked(st, own, j);
    var u := st.gos[j].at;
    HandedKeeps(c, own, u.h - 1, Anc(j, u.h - 1), ByGo(j), AtNode(u.h, u.i), AtNode(v.h, v.i));
    forall l: nat | l < |own| ensures Level(c, st', own'[l]) >= Level(c, st, own[l]) {
      FirstLevels(c, z, st, own, j, l);
    }
    CounterKept(c, z, st, st', own, own', v);
  }

  lemma {:induction false} FirstOwner(c: Chunk, z: Nodes, st: State, own: seq<Item>, j: nat, l: nat)
    requires c.Valid() && FirstVisit(c, z, st, own, j) && l < |own| && OwnerInv(c, z, st, own, l)
    requires own[j] == ByGo(j)
    ensures OwnerInv(c, z, StepWorker(c, st, j), Parked(st, own, j), l)
  {
    FirstLevels(c, z, st, own, j, l);
  }

  lemma {:induction false} FirstFrame(c: Chunk, z: Nodes, st: State, own: seq<Item>, j: nat, k: nat)
    requires c.Valid() && FirstVisit(c, z, st, own, j) && k < |st.gos|
    ensures var st' := StepWorker(c, st, j);
            && |st'.gos| == |st.gos| && SameValues(st, st', st.gos[k].at)
            && if k == j then st'.gos[k].pc == Done else st'.gos[k] == st.gos[k]
  {
  }

  lemma {:induction false} FirstGo(c: Chunk, z: Nodes, st: State, own: seq<Item>, j: nat, k: nat)
    requires c.Valid() && FirstVisit(c, z, st, own, j) && k < |st.gos| && GoInv(c, st, own, k)
    ensures GoInv(c, StepWorker(c, st, j), Parked(st, own, j), k)
  {
    FirstFrame(c, z, st, own, j, k);
    FirstGoAfter(c, z, st, StepWorker(c, st, j), own, j, k);
  }

  lemma {:induction false} FirstGoAfter(c: Chunk, z: Nodes, st: State, st': State, own: seq<Item>, j: nat, k: nat)
    requires c.Valid() && FirstVisit(c, z, st, own, j) && k < |st.gos| == |st'.gos| && GoInv(c, st, own, k)
    requires SameValues(st, st', st.gos[k].at) && if k == j then st'.gos[k].pc == Done else st'.gos[k] == st.gos[k]
    ensures GoInv(c, st', Parked(st, own, j), k)
  {
    var u := st.gos[j].at;
    if k != j { GoBystander(c, st, st', own, u.h - 1, Anc(j, u.h - 1), ByGo(j), AtNode(u.h, u.i), k); }
  }

  lemma {:induction false} FirstStep(c: Chunk, z: Nodes, st: State, own: seq<Item>, j: nat)
    requires Inv(c, z, st, own) && FirstVisit(c, z, st, own, j)
    ensures Inv(c, z, StepWorker(c, st, j), Parked(st, own, j))
  {
    var st', own' := StepWorker(c, st, j), Parked(st, own, j);
    var u := st.gos[j].at;
    forall k: nat | k < |st'.gos| ensures GoInv(c, st', own', k) { FirstGo(c, z, st, own, j, k); }
    forall v: Pos | InTree(c.depth, v) ensures v in st'.nodes && Flags(c, st', v) && Counter(c, z, st', own', v) {
      assert Flags(c, st, v) && Counter(c, z, st, own, v);
      if v == u { FirstHere(c, z, st, own, j); } else { FirstElsewhere(c, z, st, own, j, v); }
    }
    assert own[j] == ByGo(j);
    forall l: nat | l < |own'| ensures OwnerInv(c, z, st', own', l) { FirstOwner(c, z, st, own, j, l); }
  }

  // ----- Toggle, second visit: both halves are there and the goroutine goes on

  /** Goroutine `j` is the second visitor; the subtree on side `w` waits for it. */
  ghost predicate SecondVisit(c: Chunk, z: Nodes, st: State, own: seq<Item>, j: nat, w: nat)
  {
    && j < |st.gos| == |own| <= |c.segs| && st.gos[j].pc == Toggle && GoInv(c, st, own, j)
    && !At(st.nodes, st.gos[j].at).unbalanced && !Waits(Add32(At(st.nodes, st.gos[j].at).state))
    && At(st.nodes, st.gos[j].at).state == Add32(At(z, st.gos[j].at).state)
    && SideWaits(c, st, own, st.gos[j].at, w)
  }

  /** The owners after goroutine `j` has taken over both halves of its node. */
  ghost function Joined(st: State, own: seq<Item>, j: nat): seq<Item>
    requires j < |st.gos|
  {
    Handed(own, st.gos[j].at.h, st.gos[j].at.i, ByGo(j))
  }

  lemma {:induction false} SecondOwners(c: Chunk, z: Nodes, st: State, own: seq<Item>, j: nat, w: nat)
    requires c.Valid() && SecondVisit(c, z, st, own, j, w)
    ensures AllOwned(c, Joined(st, own, j), st.gos[j].at.h, st.gos[j].at.i, ByGo(j))
    ensures forall l: nat :: l < |own| ==>
      var o, o' := own[l], Joined(st, own, j)[l];
      o' == o || (o' == ByGo(j) && o == AtNode(st.gos[j].at.h, st.gos[j].at.i))
  {
    var h, i := st.gos[j].at.h, st.gos[j].at.i;
    OtherSide(c, st, own, j, w);
    assert Anc(j, h) == i && Anc(j, h - 1) == 2 * i + (1 - w);
    if w == 0 {
      HandedJoin(c, own, h, i, AtNode(h, i), ByGo(j), ByGo(j));
    } else {
      HandedJoin(c, own, h, i, ByGo(j), AtNode(h, i), ByGo(j));
    }
  }

  /** The second visit moves the counter and the goroutine on, and nothing else. */
  lemma {:induction false} SecondFrame(c: Chunk, z: Nodes, st: State, own: seq<Item>, j: nat, w: nat, k: nat, v: Pos)
    requires c.Valid() && SecondVisit(c, z, st, own, j, w) && k < |st.gos|
    ensures var e := StepWorker(c, st, j);
            && |e.gos| == |st.gos| && e.main == st.main && e.results == st.results && SameValues(st, e, v)
            && e.gos[k] == if k == j then st.gos[j].(pc := Combine) else st.gos[k]
  {
  }

  lemma {:induction false} SecondValues(c: Chunk, z: Nodes, st: State, own: seq<Item>, j: nat, w: nat)
    requires c.Valid() && SecondVisit(c, z, st, own, j, w)
    ensures HoldsValue(c, StepWorker(c, st, j), j)
  {
    BothValues(c, z, st, own, j, w);
    SecondFrame(c, z, st, own, j, w, j, st.gos[j].at);
    CombineHolds(c, st, StepWorker(c, st, j), j);
  }

  lemma {:induction false} CombineHolds(c: Chunk, st: State, e: State, j: nat)
    requires j < |st.gos| == |e.gos| && e.gos[j] == st.gos[j].(pc := Combine) && SameValues(st, e, st.gos[j].at)
    requires var u, n := st.gos[j].at, At(st.nodes, st.gos[j].at);
             && !n.unbalanced && u.h > 0 && 2 * u.i + 1 <= Anc(c.Last(), u.h - 1)
             && n.left == Val(c, u.h - 1, 2 * u.i) && n.right == Val(c, u.h - 1, 2 * u.i + 1)
    ensures HoldsValue(c, e, j)
  {
  }

  /** The second visitor finds the values of both halves. */
  lemma {:induction false} BothValues(c: Chunk, z: Nodes, st: State, own: seq<Item>, j: nat, w: nat)
    requires c.Valid() && SecondVisit(c, z, st, own, j, w)
    ensures var u := st.gos[j].at;
            && u.h > 0 && 2 * u.i + 1 <= Anc(c.Last(), u.h - 1)
            && At(st.nodes, u).left == Val(c, u.h - 1, 2 * u.i) && At(st.nodes, u).right == Val(c, u.h - 1, 2 * u.i + 1)
  {
    var h, i := st.gos[j].at.h, st.gos[j].at.i;
    OtherSide(c, st, own, j, w);
    AncMono(j, c.Last(), h - 1);
    assert Anc(j, h - 1) == 2 * i + (1 - w);
  }

  lemma {:induction false} SecondGo(c: Chunk, z: Nodes, st: State, own: seq<Item>, j: nat, w: nat)
    requires c.Valid() && SecondVisit(c, z, st, own, j, w)
    ensures GoInv(c, StepWorker(c, st, j), Joined(st, own, j), j)
  {
    SecondValues(c, z, st, own, j, w);
    SecondOwners(c, z, st, own, j, w);
  }

  lemma {:induction false} SecondLevels(c: Chunk, z: Nodes, st: State, own: seq<Item>, j: nat, w: nat, l: nat)
    requires c.Valid() && SecondVisit(c, z, st, own, j, w) && l < |own|
    ensures Level(c, StepWorker(c, st, j), Joined(st, own, j)[l]) >= Level(c, st, own[l])
  {
    SecondOwners(c, z, st, own, j, w);
  }

  lemma {:induction false} SecondElsewhere(c: Chunk, z: Nodes, st: State, own: seq<Item>, j: nat, w: nat, v: Pos)
    requires c.Valid() && SecondVisit(c, z, st, own, j, w) && Counter(c, z, st, own, v) && v != st.gos[j].at
    ensures Counter(c, z, StepWorker(c, st, j), Joined(st, own, j), v)
  {
    var st', own' := StepWorker(c, st, j), Joined(st, own, j);
    SecondOwners(c, z, st, own, j, w);
    forall l: nat | l < |own| ensures Level(c, st', own'[l]) >= Level(c, st, own[l]) {
      SecondLevels(c, z, st, own, j, w, l);
    }
    CounterKept(c, z, st, st', own, own', v);
  }

  lemma {:induction false} SecondOwner(c: Chunk, z: Nodes, st: State, own: seq<Item>, j: nat, w: nat, l: nat)
    requires c.Valid() && SecondVisit(c, z, st, own, j, w) && l < |own| && OwnerInv(c, z, st, own, l)
    ensures OwnerInv(c, z, StepWorker(c, st, j), Joined(st, own, j), l)
  {
    var u := st.gos[j].at;
    OtherSide(c, st, own, j, w);
    if Joined(st, own, j)[l] == ByGo(j) {
      if own[l] == ByGo(j) { AncSame(l, j, u.h - 1, u.h); }
    }
  }

  lemma {:induction false} SecondStep(c: Chunk, z: Nodes, st: State, own: seq<Item>, j: nat, w: nat)
    requires Inv(c, z, st, own) && SecondVisit(c, z, st, own, j, w)
    ensures Inv(c, z, StepWorker(c, st, j), Joined(st, own, j))
  {
    var st', own' := StepWorker(c, st, j), Joined(st, own, j);
    var u := st.gos[j].at;
    SecondOwners(c, z, st, own, j, w);
    forall k: nat | k < |st'.gos| ensures GoInv(c, st', own', k) {
      assert GoInv(c, st, own, k);
      SecondFrame(c, z, st, own, j, w, k, st.gos[k].at);
      if k == j { SecondGo(c, z, st, own, j, w); } else { GoKept(c, st, st', own, own', k); }
    }
    forall v: Pos | InTree(c.depth, v) ensures v in st'.nodes && Flags(c, st', v) && Counter(c, z, st', own', v) {
      assert Flags(c, st, v) && Counter(c, z, st, own, v);
      if v != u { SecondElsewhere(c, z, st, own, j, w, v); }
    }
    forall l: nat | l < |own'| ensures OwnerInv(c, z, st', own', l) { SecondOwner(c, z, st, own, j, w, l); }
    assert own[j] == ByGo(j);
  }

  // ----- Start and Combine: hand a complete subtree on

  /** Goroutine `j` has completed the subtree at its node and is about to hand on `s`. */
  ghost predicate Completing(c: Chunk, st: State, own: seq<Item>, j: nat, n: nat, s: Bytes)
  {
    && j < |st.gos| == |own| <= |c.segs| && st.gos[j].pc != Done && GoInv(c, st, own, j)
    && Carried(st.gos[j]) == st.gos[j].at.h && Flags(c, st, st.gos[j].at)
    && WriterInv(c, st) && (c.Last() > 0 ==> n > 0 || st.gos[j].d > 0)
    && s == Completed(c, st.gos[j].at)
  }

  /** The subtree at the root height is the whole chunk, and only there does a goroutine see a root. */
  lemma {:induction false} RootSeen(c: Chunk, st: State, own: seq<Item>, j: nat, n: nat, s: Bytes)
    requires c.Valid() && Completing(c, st, own, j, n, s)
    ensures At(st.nodes, st.gos[j].at).root <==> st.gos[j].at.h == R(c)
    ensures st.gos[j].at.h == R(c) ==> |own| == |c.segs| && forall l: nat :: l < |own| ==> own[l] == ByGo(j)
  {
    var h := st.gos[j].at.h;
    RootHeightExact(c.Last(), c.depth);
    RootHeightExact(c.Last(), R(c));
    assert AllOwned(c, own, h, Anc(j, h), ByGo(j));
    if h == R(c) {
      AncMono(j, c.Last(), h);
      assert Anc(c.Last(), h) == Anc(j, h) == 0;
      forall l: nat | l < |c.segs| ensures l < |own| && own[l] == ByGo(j) {
        AncMono(l, c.Last(), h);
        AncMono(j, c.Last(), h);
      }
      assert c.Last() < |own|;
    }
  }

  lemma {:induction false} ValAbove(c: Chunk, h: nat)
    requires c.Valid() && R(c) <= h && c.Last() > 0
    ensures Anc(c.Last(), h) == 0 && Anc(c.Last(), R(c)) == 0
    ensures Val(c, h, 0) == Val(c, R(c), 0)
  {
    RootHeightExact(c.Last(), h);
    RootHeightExact(c.Last(), R(c));
    if h > R(c) { ValAbove(c, h - 1); }
  }

  /** A goroutine that does not see a root goes to the parent. */
  lemma {:induction false} EmitClimbs(st: State, j: nat, n: nat, s: Bytes)
    requires j < |st.gos| && !At(st.nodes, st.gos[j].at).root
    ensures var g, e := st.gos[j], Emit(st, j, n, s);
            && |e.gos| == |st.gos| && e.nodes == st.nodes && e.main == st.main && e.results == st.results
            && e.gos[j] == Go(Write, Pos(g.at.h + 1, g.at.i / 2), g.at.i % 2 == 0, n, g.d, s)
            && e.gos == st.gos[j := e.gos[j]]
  {
  }

  /** A goroutine that has come to the parent of a complete subtree with its value. */
  lemma {:induction false} ClimbedGo(c: Chunk, st: State, own: seq<Item>, j: nat, h: nat, i: nat)
    requires c.Valid() && j < |st.gos| == |own| && j <= c.Last() && c.Last() > 0 && h < R(c) && i == Anc(j, h)
    requires var g := st.gos[j]; g.pc == Write && g.at == Pos(h + 1, i / 2) && (g.isLeft <==> i % 2 == 0)
    requires AllOwned(c, own, h, i, ByGo(j)) && st.gos[j].s == Val(c, h, i) && (st.gos[j].n > 0 || st.gos[j].d > 0)
    ensures GoInv(c, st, own, j)
  {
    assert Carried(st.gos[j]) == h && Anc(j, h + 1) == i / 2;
  }

  /** Climbing to the parent. */
  lemma {:induction false} ClimbGo(c: Chunk, st: State, own: seq<Item>, j: nat, n: nat, s: Bytes)
    requires c.Valid() && Completing(c, st, own, j, n, s) && st.gos[j].at.h < R(c)
    ensures Emit(st, j, n, s).gos[j].pc == Write
    ensures GoInv(c, Emit(st, j, n, s), own, j)
  {
    var h, i := st.gos[j].at.h, st.gos[j].at.i;
    RootSeen(c, st, own, j, n, s);
    EmitClimbs(st, j, n, s);
    assert c.Last() > 0;
    ClimbedGo(c, Emit(st, j, n, s), own, j, h, i);
  }

  lemma {:induction false} ClimbStep(c: Chunk, z: Nodes, st: State, own: seq<Item>, j: nat, n: nat, s: Bytes)
    requires Inv(c, z, st, own) && Completing(c, st, own, j, n, s) && st.gos[j].at.h < R(c)
    ensures Inv(c, z, Emit(st, j, n, s), own)
  {
    var st' := Emit(st, j, n, s);
    ClimbGo(c, st, own, j, n, s);
    forall k: nat | k < |st'.gos| ensures GoInv(c, st', own, k) {
      assert GoInv(c, st, own, k);
      if k != j { GoKept(c, st, st', own, own, k); }
    }
    Climbed(c, z, st, st', own, j);
  }

  lemma {:induction false} SentValue(c: Chunk, st: State, own: seq<Item>, j: nat, n: nat, s: Bytes)
    requires c.Valid() && Completing(c, st, own, j, n, s) && st.gos[j].at.h == R(c)
    ensures s == RootVal(c)
  {
    RootHeightExact(c.Last(), R(c));
    AncMono(j, c.Last(), R(c));
    assert st.gos[j].at == Pos(R(c), 0);
    if c.Last() > 0 { RootHeightExact(c.Last(), c.depth); ValAbove(c, c.depth); }
  }

  lemma {:induction false} SentNode(c: Chunk, z: Nodes, st: State, st': State, own: seq<Item>, j: nat, v: Pos)
    requires c.Valid() && |own| == |st.gos| == |st'.gos| == |c.segs| && forall l: nat :: l < |own| ==> own[l] == ByGo(j)
    requires Counter(c, z, st, own, v) && st'.nodes == st.nodes
    ensures Counter(c, z, st', seq(|own|, _ => Sent), v)
  {
    NoneWaits(c, st, own, j, v);
  }

  /** Sending the chunk hash: every leaf is accounted for, so no goroutine and no node is left waiting. */
  lemma {:induction false} SendStep(c: Chunk, z: Nodes, st: State, own: seq<Item>, j: nat, n: nat, s: Bytes)
    requires Inv(c, z, st, own) && Completing(c, st, own, j, n, s) && st.gos[j].at.h == R(c)
    ensures Inv(c, z, Emit(st, j, n, s), seq(|own|, _ => Sent))
  {
    var st', own' := Emit(st, j, n, s), seq(|own|, _ => Sent);
    RootSeen(c, st, own, j, n, s);
    SentValue(c, st, own, j, n, s);
    assert own[j] == ByGo(j);
    forall k: nat | k < |st'.gos| ensures GoInv(c, st', own', k) {
      assert GoInv(c, st, own, k) && own[k] == ByGo(j);
    }
    forall v: Pos | InTree(c.depth, v) ensures v in st'.nodes && Flags(c, st', v) && Counter(c, z, st', own', v) {
      assert Flags(c, st, v) && Counter(c, z, st, own, v);
      SentNode(c, z, st, st', own, j, v);
    }
  }

  lemma {:induction false} NoneWaits(c: Chunk, st: State, own: seq<Item>, j: nat, v: Pos)
    requires c.Valid() && |own| == |st.gos| && |own| == |c.segs| && forall l: nat :: l < |own| ==> own[l] == ByGo(j)
    ensures !SideWaits(c, st, own, v, 0) && !SideWaits(c, st, own, v, 1)
  {
    if SideWaits(c, st, own, v, 0) { LeafBelow(c.Last(), v.h - 1, 2 * v.i + 0); }
    if SideWaits(c, st, own, v, 1) { LeafBelow(c.Last(), v.h - 1, 2 * v.i + 1); }
  }

  lemma {:induction false} StartCompletes(c: Chunk, st: State, own: seq<Item>, j: nat)
    requires c.Valid() && j < |st.gos| == |own| <= |c.segs| && st.gos[j].pc == Start
    requires GoInv(c, st, own, j) && Flags(c, st, st.gos[j].at) && WriterInv(c, st)
    ensures Completing(c, st, own, j, st.gos[j].n, c.H(st.gos[j].s))
  {
    AncMono(j, c.Last(), 0);
  }

  lemma {:induction false} CombinationExact(c: Chunk, st: State, own: seq<Item>, j: nat)
    requires c.Valid() && j < |st.gos| == |own| <= |c.segs| && st.gos[j].pc == Combine
    requires GoInv(c, st, own, j) && Flags(c, st, st.gos[j].at) && WriterInv(c, st)
    ensures Combination(c, st.gos[j], At(st.nodes, st.gos[j].at)) == Completed(c, st.gos[j].at)
  {
    var g := st.gos[j];
    var h, i, n := g.at.h, g.at.i, At(st.nodes, g.at);
    AncMono(j, c.Last(), h);
    if n.unbalanced {
      assert n.left + n.right == n.left;
      RightBalanced(c, st, own, j);
    }
  }

  lemma {:induction false} DeliverCompletes(c: Chunk, st: State, own: seq<Item>, j: nat)
    requires c.Valid() && j < |st.gos| == |own| <= |c.segs| && st.gos[j].pc == Deliver
    requires GoInv(c, st, own, j) && Flags(c, st, st.gos[j].at) && WriterInv(c, st)
    ensures Completing(c, st, own, j, st.gos[j].n + 1, st.gos[j].s)
  {
  }

  // ----- Any goroutine step

  lemma Add32Distinct(s: int)
    ensures Add32(s) != s && Add32(Add32(s)) != Add32(s)
  {}

  lemma {:induction false} EmitStep(c: Chunk, z: Nodes, st: State, own: seq<Item>, j: nat, n: nat, s: Bytes)
    returns (own': seq<Item>)
    requires Inv(c, z, st, own) && Completing(c, st, own, j, n, s)
    ensures Inv(c, z, Emit(st, j, n, s), own')
  {
    if st.gos[j].at.h == R(c) {
      SendStep(c, z, st, own, j, n, s);
      own' := seq(|own|, _ => Sent);
    } else {
      ClimbStep(c, z, st, own, j, n, s);
      own' := own;
    }
  }

  lemma {:induction false} ToggleStep(c: Chunk, z: Nodes, st: State, own: seq<Item>, j: nat) returns (own': seq<Item>)
    requires Inv(c, z, st, own) && j < |st.gos| && st.gos[j].pc == Toggle && InTree(c.depth, st.gos[j].at)
    ensures Inv(c, z, StepWorker(c, st, j), own')
  {
    var v := st.gos[j].at;
    assert GoInv(c, st, own, j) && Flags(c, st, v) && Counter(c, z, st, own, v);
    NotSpent(c, z, st, own, j);
    assert MeetsTwo(At(z, v).state);
    if At(st.nodes, v).state == At(z, v).state {
      own' := Parked(st, own, j);
      Add32Distinct(At(z, v).state);
      forall l: nat | l < |own| ensures own[l] != AtNode(v.h, v.i) { assert OwnerInv(c, z, st, own, l); }
      FirstStep(c, z, st, own, j);
    } else {
      own' := Joined(st, own, j);
      SecondStep(c, z, st, own, j, if SideWaits(c, st, own, v, 0) then 0 else 1);
    }
  }

  lemma {:induction false} WorkerFacts(c: Chunk, z: Nodes, st: State, own: seq<Item>, j: nat)
    requires Inv(c, z, st, own) && j < |st.gos| && st.gos[j].pc != Done
    ensures |own| <= |c.segs| && GoInv(c, st, own, j)
    ensures InTree(c.depth, st.gos[j].at) && Flags(c, st, st.gos[j].at)
  {
    assert GoInv(c, st, own, j);
    RootHeightExact(c.Last(), c.depth);
    AncInTree(c.depth, c.Last(), j, st.gos[j].at.h);
  }

  lemma {:induction false} StartStep(c: Chunk, z: Nodes, st: State, own: seq<Item>, j: nat) returns (own': seq<Item>)
    requires Inv(c, z, st, own) && j < |st.gos| && st.gos[j].pc == Start
    ensures Inv(c, z, StepWorker(c, st, j), own')
  {
    WorkerFacts(c, z, st, own, j);
    StartCompletes(c, st, own, j);
    own' := EmitStep(c, z, st, own, j, st.gos[j].n, c.H(st.gos[j].s));
  }

  lemma {:induction false} CombineStep(c: Chunk, z: Nodes, st: State, own: seq<Item>, j: nat)
    requires Inv(c, z, st, own) && j < |st.gos| && st.gos[j].pc == Combine
    ensures Inv(c, z, StepWorker(c, st, j), own)
  {
    var st' := StepWorker(c, st, j);
    WorkerFacts(c, z, st, own, j);
    CombinationExact(c, st, own, j);
    forall k: nat | k < |st'.gos| ensures GoInv(c, st', own, k) {
      assert GoInv(c, st, own, k);
      if k != j { GoKept(c, st, st', own, own, k); }
    }
    Climbed(c, z, st, st', own, j);
  }

  lemma {:induction false} DeliverStep(c: Chunk, z: Nodes, st: State, own: seq<Item>, j: nat) returns (own': seq<Item>)
    requires Inv(c, z, st, own) && j < |st.gos| && st.gos[j].pc == Deliver
    ensures Inv(c, z, StepWorker(c, st, j), own')
  {
    WorkerFacts(c, z, st, own, j);
    DeliverCompletes(c, st, own, j);
    own' := EmitStep(c, z, st, own, j, st.gos[j].n + 1, st.gos[j].s);
  }

  lemma {:induction false} WorkerStep(c: Chunk, z: Nodes, st: State, own: seq<Item>, j: nat) returns (own': seq<Item>)
    requires Inv(c, z, st, own) && j < |st.gos| && st.gos[j].pc != Done
    ensures Inv(c, z, StepWorker(c, st, j), own')
  {
    match st.gos[j].pc
    case Start =>
      own' := StartStep(c, z, st, own, j);
    case Write =>
      WriteStep(c, z, st, own, j);
      own' := own;
    case Check =>
      WorkerFacts(c, z, st, own, j);
      CheckStep(c, z, st, own, j);
      own' := own;
    case Toggle =>
      WorkerFacts(c, z, st, own, j);
      own' := ToggleStep(c, z, st, own, j);
    case Combine =>
      CombineStep(c, z, st, own, j);
      own' := own;
    case Deliver =>
      own' := DeliverStep(c, z, st, own, j);
  }

  // ----- Writer steps

  lemma {:induction false} Launched(c: Chunk, st: State, own: seq<Item>, d: nat)
    requires c.Valid() && 0 < |st.gos| == |own| <= |c.segs| && own[|own| - 1] == ByGo(|own| - 1)
    requires st.gos[|own| - 1] == Launch(c, |own| - 1, d)
    requires |own| - 1 < c.Last() ==> d == c.depth
    requires c.Last() == 0 ==> d == 0
    ensures GoInv(c, st, own, |own| - 1)
  {}

  lemma {:induction false} LaunchStep(c: Chunk, z: Nodes, st: State, own: seq<Item>, d: nat, main': Main)
    requires Inv(c, z, st, own) && |own| < |c.segs|
    requires (st.main == Launching && |own| < c.Last() && main' == Launching && d == c.depth)
             || (st.main == LaunchLast(d) && main' == Waiting)
    ensures Inv(c, z, st.(gos := st.gos + [Launch(c, |own|, d)], main := main'), own + [ByGo(|own|)])
  {
    var st', own' := st.(gos := st.gos + [Launch(c, |own|, d)], main := main'), own + [ByGo(|own|)];
    forall k: nat | k < |st'.gos| ensures GoInv(c, st', own', k) {
      if k == |own| { Launched(c, st', own', d); } else { GoKept(c, st, st', own, own', k); }
    }
    forall v: Pos | InTree(c.depth, v) ensures v in st'.nodes && Flags(c, st', v) && Counter(c, z, st', own', v) {
      assert Flags(c, st, v) && Counter(c, z, st, own, v);
      CounterKept(c, z, st, st', own, own', v);
    }
    forall l: nat | l < |own'| ensures OwnerInv(c, z, st', own', l) { assert l < |own| ==> OwnerInv(c, z, st, own, l); }
  }

  lemma {:induction false} PathBegin(c: Chunk, z: Nodes, st: State, own: seq<Item>)
    requires Inv(c, z, st, own) && st.main == Launching && |own| == c.Last()
    ensures Inv(c, z, StepWriter(c, st), own)
  {
    var st' := StepWriter(c, st);
    assert Anc(c.Last(), 1) == Anc(c.Last(), 0) / 2;
    forall k: nat | k < |st'.gos| ensures GoInv(c, st', own, k) { GoKept(c, st, st', own, own, k); }
    forall v: Pos | InTree(c.depth, v) ensures v in st'.nodes && Flags(c, st', v) && Counter(c, z, st', own, v) {
      assert Flags(c, st, v) && Counter(c, z, st, own, v);
      CounterKept(c, z, st, st', own, own, v);
    }
    forall l: nat | l < |own| ensures OwnerInv(c, z, st', own, l) { assert OwnerInv(c, z, st, own, l); }
  }

  /** Before the last leaf is launched nobody reads or has written the right side of a node on its path. */
  lemma {:induction false} PathUntouched(c: Chunk, st: State, own: seq<Item>, v: Pos, k: nat)
    requires c.Valid() && |st.gos| == |own| == c.Last() && v.i == Anc(c.Last(), v.h) && k < |own|
    requires GoInv(c, st, own, k) && st.gos[k].pc != Done && st.gos[k].at == v
    ensures st.gos[k].isLeft && !Whole(st.gos[k]) && st.gos[k].pc != Start && !EntersLeft(c, v.h)
  {
    if v.h > 0 { AncMono(k, c.Last(), v.h - 1); }
  }

  lemma {:induction false} PathNotWaiting(c: Chunk, st: State, own: seq<Item>, v: Pos)
    requires c.Valid() && |st.gos| == |own| == c.Last() && v.i == Anc(c.Last(), v.h)
    ensures !SideWaits(c, st, own, v, 1)
  {}

  lemma {:induction false} PathFlags(c: Chunk, st: State, v: Pos)
    requires c.Valid() && st.main.Finalising? && WriterInv(c, st) && Flags(c, st, v)
    ensures Flags(c, StepWriter(c, st), v)
  {
    RootHeightExact(c.Last(), st.main.at.h);
    RootHeightExact(c.Last(), R(c));
  }

  lemma {:induction false} PathGo(c: Chunk, st: State, own: seq<Item>, k: nat)
    requires c.Valid() && st.main.Finalising? && WriterInv(c, st) && |own| == |st.gos| && k < |own|
    requires GoInv(c, st, own, k)
    ensures GoInv(c, StepWriter(c, st), own, k)
  {
    if st.gos[k].pc != Done {
      if st.gos[k].at == st.main.at { PathUntouched(c, st, own, st.main.at, k); PathValue(c, st, k); }
      else { GoKept(c, st, StepWriter(c, st), own, own, k); }
    }
  }

  lemma {:induction false} PathValue(c: Chunk, st: State, k: nat)
    requires c.Valid() && st.main.Finalising? && k < |st.gos| && k <= c.Last() && HoldsValue(c, st, k)
    requires st.gos[k].isLeft && (st.gos[k].pc == Write || st.gos[k].pc == Check || st.gos[k].pc == Toggle)
    requires !st.main.isLeft
    ensures HoldsValue(c, StepWriter(c, st), k)
  {}

  lemma {:induction false} PathNode(c: Chunk, z: Nodes, st: State, own: seq<Item>, v: Pos)
    requires c.Valid() && st.main.Finalising? && WriterInv(c, st) && |own| == |st.gos| && Counter(c, z, st, own, v)
    ensures Counter(c, z, StepWriter(c, st), own, v)
  {
    if v == st.main.at { PathNotWaiting(c, st, own, v); }
    CounterKept(c, z, st, StepWriter(c, st), own, own, v);
  }

  lemma {:induction false} PathStep(c: Chunk, z: Nodes, st: State, own: seq<Item>)
    requires Inv(c, z, st, own) && st.main.Finalising?
    ensures Inv(c, z, StepWriter(c, st), own)
  {
    var st', u := StepWriter(c, st), st.main.at;
    RootHeightExact(c.Last(), u.h);
    assert Anc(c.Last(), u.h + 1) == u.i / 2;
    forall k: nat | k < |st'.gos| ensures GoInv(c, st', own, k) { PathGo(c, st, own, k); }
    forall v: Pos | InTree(c.depth, v) ensures v in st'.nodes && Flags(c, st', v) && Counter(c, z, st', own, v) {
      assert Flags(c, st, v) && Counter(c, z, st, own, v);
      PathFlags(c, st, v);
      PathNode(c, z, st, own, v);
    }
    forall l: nat | l < |own| ensures OwnerInv(c, z, st', own, l) { assert OwnerInv(c, z, st, own, l); }
  }

  lemma {:induction false} WriterStep(c: Chunk, z: Nodes, st: State, own: seq<Item>) returns (own': seq<Item>)
    requires Inv(c, z, st, own) && st.main != Waiting
    ensures Inv(c, z, StepWriter(c, st), own')
  {
    own' := own;
    match st.main
    case Launching =>
      if |st.gos| < c.Last() {
        LaunchStep(c, z, st, own, c.depth, Launching);
        own' := own + [ByGo(|own|)];
      } else {
        PathBegin(c, z, st, own);
      }
    case Finalising(_, _, _) =>
      PathStep(c, z, st, own);
    case LaunchLast(d) =>
      LaunchStep(c, z, st, own, d, Waiting);
      own' := own + [ByGo(|own|)];
  }
}
