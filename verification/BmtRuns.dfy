/**
Whole runs of the concurrent hasher: every schedule is finite, none gets stuck before a
result, exactly one result is sent, it is the reference hash, and the tree is left clean.
*/
module BmtRuns {
  import opened BmtTree
  import opened BmtHasher
  import opened BmtInvariant
  import opened BmtSteps
  import opened BmtWriter

  // ----- Every reachable state

  lemma {:induction false} RunInv(c: Chunk, z: Nodes, schedule: seq<Actor>) returns (own: seq<Item>)
    requires c.Valid() && Ready(z, c.depth)
    ensures Inv(c, z, Run(c, Init(z), schedule), own)
    decreases |schedule|
  {
    if schedule == [] {
      InitInv(c, z);
      own := [];
    } else {
      var a := schedule[|schedule| - 1];
      var prev := Run(c, Init(z), schedule[..|schedule| - 1]);
      own := RunInv(c, z, schedule[..|schedule| - 1]);
      if Enabled(prev, a) {
        match a
        case Writer => own := WriterStep(c, z, prev, own);
        case Worker(j) => own := WorkerStep(c, z, prev, own, j);
      }
    }
  }

  // ----- No run gets stuck

  /** A leaf owned by a node lies on the side that waits there. */
  lemma {:induction false} WaitingSide(c: Chunk, z: Nodes, st: State, own: seq<Item>, l: nat) returns (w: nat)
    requires Inv(c, z, st, own) && l < |own| == |c.segs| && own[l].AtNode?
    ensures SideWaits(c, st, own, Pos(own[l].h, own[l].i), w)
    ensures own[l].h > 0 && Anc(l, own[l].h) == own[l].i
  {
    assert OwnerInv(c, z, st, own, l);
    var v := Pos(own[l].h, own[l].i);
    RootHeightExact(c.Last(), c.depth);
    AncInTree(c.depth, c.Last(), l, v.h);
    assert Counter(c, z, st, own, v);
    Add32Distinct(At(z, v).state);
    w := if SideWaits(c, st, own, v, 0) then 0 else 1;
  }

  /** While a node waits, some goroutine runs: the other side of a lowest waiting node. */
  lemma {:induction false} SomeoneRuns(c: Chunk, z: Nodes, st: State, own: seq<Item>, l: nat) returns (k: nat)
    requires Inv(c, z, st, own) && l < |own| == |c.segs| && own[l].AtNode? && st.results == []
    ensures k < |st.gos| && st.gos[k].pc != Done
    decreases own[l].h
  {
    var v := Pos(own[l].h, own[l].i);
    var w := WaitingSide(c, z, st, own, l);
    LeafBelow(c.Last(), v.h - 1, 2 * v.i + (1 - w));
    var l': nat :| l' <= c.Last() && Anc(l', v.h - 1) == 2 * v.i + (1 - w);
    assert OwnerInv(c, z, st, own, l');
    if own[l'].ByGo? {
      k := own[l'].j;
    } else {
      var w' := WaitingSide(c, z, st, own, l');
      if own[l'].h > v.h { AncSame(l, l', v.h, own[l'].h - 1); }
      k := SomeoneRuns(c, z, st, own, l');
    }
  }

  /** Until the result is sent, someone can move. */
  lemma {:induction false} NeverStuck(c: Chunk, z: Nodes, schedule: seq<Actor>)
    requires c.Valid() && Ready(z, c.depth)
    requires Run(c, Init(z), schedule).results == []
    ensures exists a :: Enabled(Run(c, Init(z), schedule), a)
  {
    var st := Run(c, Init(z), schedule);
    var own := RunInv(c, z, schedule);
    if st.main != Waiting {
      assert Enabled(st, Writer);
    } else {
      assert OwnerInv(c, z, st, own, 0);
      var k := if own[0].ByGo? then own[0].j else 0;
      if !own[0].ByGo? { k := SomeoneRuns(c, z, st, own, 0); }
      assert Enabled(st, Worker(k));
    }
  }

  // ----- Every run is finite

  function PcRank(pc: Pc): nat {
    match pc
    case Start => 6
    case Write => 5
    case Check => 4
    case Toggle => 3
    case Combine => 2
    case Deliver => 1
    case Done => 0
  }

  ghost function GoRank(c: Chunk, g: Go): nat
  {
    if g.at.h > R(c) then 0 else
    6 * (R(c) - g.at.h) + PcRank(g.pc)
  }

  ghost function GoRanks(c: Chunk, gos: seq<Go>): nat
  {
    if gos == [] then 0
    else GoRanks(c, gos[..|gos| - 1])
         + if gos[|gos| - 1].pc == Done then 0 else GoRank(c, gos[|gos| - 1])
  }

  ghost function WriterRank(c: Chunk, st: State): nat
  {
    match st.main
    case Launching => if |st.gos| <= c.Last() then c.Last() - |st.gos| + R(c) + 3 else 0
    case Finalising(v, _, _) => if v.h <= R(c) then R(c) - v.h + 2 else 0
    case LaunchLast(_) => 1
    case Waiting => 0
  }

  /** A bound on the moves still to come. */
  ghost function Rank(c: Chunk, st: State): nat
  {
    WriterRank(c, st) * (6 * R(c) + 7) + GoRanks(c, st.gos)
  }

  lemma {:induction false} RankUpdate(c: Chunk, gos: seq<Go>, j: nat, g: Go)
    requires c.Valid() && j < |gos|
    requires gos[j].pc != Done && (g.pc != Done ==> GoRank(c, g) < GoRank(c, gos[j])) && GoRank(c, gos[j]) > 0
    ensures GoRanks(c, gos[j := g]) < GoRanks(c, gos)
  {
    var m := |gos| - 1;
    if j == m {
      assert gos[j := g][..m] == gos[..m];
    } else {
      assert gos[j := g][..m] == gos[..m][j := g];
      RankUpdate(c, gos[..m], j, g);
    }
  }

  /** A step of a goroutine ends it, moves it on at its node, or takes it to the parent. */
  lemma {:induction false} WorkerMoves(c: Chunk, st: State, j: nat)
    requires j < |st.gos| && st.gos[j].pc != Done
    ensures var g, e := st.gos[j], StepWorker(c, st, j);
            && e.main == st.main && |e.gos| == |st.gos| && e.gos == st.gos[j := e.gos[j]]
            && (e.gos[j].pc == Done
                || (e.gos[j].at == g.at && PcRank(e.gos[j].pc) < PcRank(g.pc))
                || (e.gos[j].at.h == g.at.h + 1 && e.gos[j].pc == Write))
  {
  }

  lemma {:induction false} WorkerRank(c: Chunk, z: Nodes, st: State, own: seq<Item>, j: nat)
    requires Inv(c, z, st, own) && j < |st.gos| && st.gos[j].pc != Done
    ensures GoRanks(c, StepWorker(c, st, j).gos) < GoRanks(c, st.gos)
    ensures StepWorker(c, st, j).main == st.main && |StepWorker(c, st, j).gos| == |st.gos|
  {
    assert GoInv(c, st, own, j);
    var g := StepWorker(c, st, j).gos[j];
    WorkerMoves(c, st, j);
    RankUpdate(c, st.gos, j, g);
  }

  lemma {:induction false} LaunchRank(c: Chunk, gos: seq<Go>, g: Go)
    ensures GoRanks(c, gos + [g]) <= GoRanks(c, gos) + 6 * R(c) + 6
  {
    assert (gos + [g])[..|gos|] == gos;
  }

  /** The writer adds at most one goroutine. */
  lemma {:induction false} WriterGos(c: Chunk, st: State)
    requires st.main != Waiting
    ensures GoRanks(c, StepWriter(c, st).gos) <= GoRanks(c, st.gos) + 6 * R(c) + 6
  {
    var gos := StepWriter(c, st).gos;
    if |gos| == |st.gos| + 1 { LaunchRank(c, st.gos, gos[|st.gos|]); }
  }

  lemma {:induction false} WriterRankFalls(c: Chunk, z: Nodes, st: State, own: seq<Item>)
    requires Inv(c, z, st, own) && st.main != Waiting
    ensures WriterRank(c, StepWriter(c, st)) < WriterRank(c, st)
    ensures GoRanks(c, StepWriter(c, st).gos) <= GoRanks(c, st.gos) + 6 * R(c) + 6
  {
    WriterGos(c, st);
    RootHeightExact(c.Last(), R(c));
    if st.main.Finalising? { RootHeightExact(c.Last(), st.main.at.h); }
  }

  lemma TradeRank(r': nat, r: nat, k: nat, a': nat, a: nat)
    requires r' < r && a' < a + k
    ensures r' * k + a' < r * k + a
  {
    MulMono(r' + 1, r, k);
    assert (r' + 1) * k == r' * k + k;
  }

  /** Every move uses up rank. */
  lemma {:induction false} RankFalls(c: Chunk, z: Nodes, st: State, own: seq<Item>, a: Actor)
    requires Inv(c, z, st, own) && Enabled(st, a)
    ensures Rank(c, Step(c, st, a)) < Rank(c, st)
  {
    var st' := Step(c, st, a);
    if a == Writer {
      WriterRankFalls(c, z, st, own);
      TradeRank(WriterRank(c, st'), WriterRank(c, st), 6 * R(c) + 7, GoRanks(c, st'.gos), GoRanks(c, st.gos));
    } else {
      WorkerRank(c, z, st, own, a.j);
      assert WriterRank(c, st') == WriterRank(c, st);
    }
  }

  /** In `schedule` every actor moves when its turn comes. */
  ghost predicate AllMove(c: Chunk, st: State, schedule: seq<Actor>)
    decreases |schedule|
  {
    schedule == [] || (AllMove(c, st, schedule[..|schedule| - 1])
                       && Enabled(Run(c, st, schedule[..|schedule| - 1]), schedule[|schedule| - 1]))
  }

  /** No schedule has more moves than the rank of the first state. */
  lemma {:induction false} RunsAreFinite(c: Chunk, z: Nodes, schedule: seq<Actor>)
    requires c.Valid() && Ready(z, c.depth) && AllMove(c, Init(z), schedule)
    ensures |schedule| + Rank(c, Run(c, Init(z), schedule)) <= Rank(c, Init(z))
    decreases |schedule|
  {
    if schedule != [] {
      var before := schedule[..|schedule| - 1];
      RunsAreFinite(c, z, before);
      var own := RunInv(c, z, before);
      RankFalls(c, z, Run(c, Init(z), before), own, schedule[|schedule| - 1]);
    }
  }

  // ----- The result and the tree afterwards

  /** Reset the final path: walk from the last leaf to the top of the tree. */
  function ReleaseTree(nodes: Nodes, depth: nat, v: Pos): Nodes
    requires v.h <= depth
    decreases depth - v.h
  {
    var n := At(nodes, v).(unbalanced := false);
    if v.h == depth then nodes[v := n]
    else ReleaseTree(nodes[v := n.(root := false)], depth, Pos(v.h + 1, v.i / 2))
  }

  lemma {:induction false} ReleaseAt(nodes: Nodes, depth: nat, l: nat, h: nat, u: Pos)
    requires h <= depth
    ensures var r := ReleaseTree(nodes, depth, Pos(h, Anc(l, h)));
            var onPath := h <= u.h <= depth && u.i == Anc(l, u.h);
            && (u in nodes ==> u in r)
            && At(r, u).state == At(nodes, u).state
            && At(r, u).unbalanced == (At(nodes, u).unbalanced && !onPath)
            && At(r, u).root == (At(nodes, u).root && (u.h == depth || !onPath))
    decreases depth - h
  {
    if h < depth {
      var v := Pos(h, Anc(l, h));
      var n := At(nodes, v).(unbalanced := false, root := false);
      assert Anc(l, h + 1) == Anc(l, h) / 2;
      ReleaseAt(nodes[v := n], depth, l, h + 1, u);
    }
  }

  /** On an int32 counter a node meets two visitors exactly when the counter is even and not negative. */
  lemma MeetsTwoExact(s: int)
    requires -0x8000_0000 <= s <= 0x7fff_ffff
    ensures MeetsTwo(s) <==> s >= 0 && s % 2 == 0
  {}

  /** The nodes as the next chunk finds them. */
  function Released(c: Chunk, nodes: Nodes): Nodes
  {
    ReleaseTree(nodes, c.depth, Pos(0, c.Last()))
  }

  /** Flags are clean and every counter is even, unvisited or visited twice. */
  ghost predicate CleanAfter(z: Nodes, nodes: Nodes, depth: nat) {
    forall v :: InTree(depth, v) ==>
      && v in nodes && !nodes[v].unbalanced && (nodes[v].root <==> v == Pos(depth, 0))
      && (nodes[v].state == At(z, v).state || nodes[v].state == Add32(Add32(At(z, v).state)))
  }

  lemma {:induction false} ReleasedNode(c: Chunk, z: Nodes, st: State, own: seq<Item>, v: Pos)
    requires Inv(c, z, st, own) && st.results != [] && InTree(c.depth, v)
    ensures var r := Released(c, st.nodes);
            && v in r && !r[v].unbalanced && (r[v].root <==> v == Pos(c.depth, 0))
            && (r[v].state == At(z, v).state || r[v].state == Add32(Add32(At(z, v).state)))
  {
    assert Flags(c, st, v) && Counter(c, z, st, own, v);
    assert Anc(c.Last(), 0) == c.Last();
    ReleaseAt(st.nodes, c.depth, c.Last(), 0, v);
    RootHeightExact(c.Last(), R(c));
    RootHeightExact(c.Last(), c.depth);
    NoneWaitsSent(c, st, own, v);
  }

  lemma {:induction false} NoneWaitsSent(c: Chunk, st: State, own: seq<Item>, v: Pos)
    requires |own| == |st.gos| == |c.segs| > 0 && forall l: nat :: l < |own| ==> own[l] == Sent
    ensures !SideWaits(c, st, own, v, 0) && !SideWaits(c, st, own, v, 1)
  {
    if SideWaits(c, st, own, v, 0) { LeafBelow(c.Last(), v.h - 1, 2 * v.i + 0); }
    if SideWaits(c, st, own, v, 1) { LeafBelow(c.Last(), v.h - 1, 2 * v.i + 1); }
  }

  /**
  For every chunk and every schedule: at most one value is sent, it is the hash the
  reference hasher computes for the same bytes, and once it is sent every goroutine has
  ended, every toggle has an even count and releasing the tree leaves its flags clean.
  */
  lemma {:induction false} RunCorrect(c: Chunk, z: Nodes, schedule: seq<Actor>, d: Bytes, s: nat, k: nat)
    requires c.Valid() && Ready(z, c.depth) && Cut(c.segs, d, c.size)
    requires 2 * s == Width(c.size, k) && |d| <= Width(c.size, k)
    ensures var st := Run(c, Init(z), schedule);
            st.results == []
            || (&& st.results == [RefHash(c.H, c.size, d, s)]
                && (forall a :: !Enabled(st, a))
                && CleanAfter(z, Released(c, st.nodes), c.depth))
  {
    var st := Run(c, Init(z), schedule);
    var own := RunInv(c, z, schedule);
    RootIsRef(c, d, s, k);
    if st.results != [] {
      forall k: nat | k < |st.gos| ensures st.gos[k].pc == Done { assert GoInv(c, st, own, k) && own[k] == Sent; }
      forall v | InTree(c.depth, v)
        ensures var r := Released(c, st.nodes);
                && v in r && !r[v].unbalanced && (r[v].root <==> v == Pos(c.depth, 0))
                && (r[v].state == At(z, v).state || r[v].state == Add32(Add32(At(z, v).state)))
      {
        ReleasedNode(c, z, st, own, v);
      }
    }
  }

  /** The chunk cut by a one-shot write, with a tree of the computed depth, is valid. */
  lemma {:induction false} WrittenChunk(H: Bytes -> Bytes, size: nat, count: nat, b: Bytes, depth: nat,
                                        segs: seq<Bytes>)
    requires size > 0 && count > 0 && Anc((count - 1) / 2, depth) == 0
    requires Cut(segs, Capped(size, count, b), size) && |segs| - 1 <= (count - 1) / 2
    ensures Chunk(H, size, depth, segs).Valid()
  {
    var d, q := Capped(size, count, b), |segs| - 1;
    AncMono(q, (count - 1) / 2, depth);
    forall j | 0 <= j < q ensures |segs[j]| == 2 * size { OffsetMono(size, 0, j + 1, q); }
    assert segs[q] == Piece(d, size, 0, q);
  }

  /** What is taken in lies within the reference span. */
  lemma {:induction false} WithinSpan(size: nat, count: nat, b: Bytes, k: nat)
    requires size > 0 && count <= 2 * Pow2(k)
    ensures |Capped(size, count, b)| <= Width(size, k)
  {
    MulMono(count, 2 * Pow2(k), size);
    WidthPow2(size, k);
    Doubled(Pow2(k), size);
  }

  lemma {:induction false} Doubled(p: nat, size: nat)
    ensures 2 * p * size == 2 * (p * size)
  {
  }

  /**
  The whole hasher: build a tree for `count` segments, write `b`, and let the writer and the
  goroutines run in the given order. Whatever is sent is the reference hash of the bytes taken in,
  and it has been sent when nobody can move.
  */
  method HashChunk(H: Bytes -> Bytes, size: nat, count: nat, b: Bytes, schedule: seq<Actor>)
    returns (st: State, ref: Bytes, span: nat, c: Chunk, nodes: Nodes, ghost k: nat)
    requires size > 0 && count > 0
    ensures CoverLevel(count, k) && span == Pow2(k) * size && span > 0
    ensures ref == RefHash(H, size, Capped(size, count, b), span)
    ensures c.Valid() && c.H == H && c.size == size && Cut(c.segs, Capped(size, count, b), size)
    ensures Ready(nodes, c.depth) && forall v <- nodes :: nodes[v].state == 0
    ensures st == Run(c, Init(nodes), schedule)
    ensures st.results == [] || st.results == [ref]
    ensures (forall a :: !Enabled(st, a)) <==> st.results == [ref]
  {
    var depth := Depth(count);
    nodes := NewTree(depth);
    var launched, segment := WriteChunk(size, count, b);
    span, k := NewRefSpan(size, count);
    c := Chunk(H, size, depth, launched + [segment]);
    WrittenChunk(H, size, count, b, depth, c.segs);
    WithinSpan(size, count, b, k);
    WidthPow2(size, k);
    st := Run(c, Init(nodes), schedule);
    ref := RefHash(H, size, Capped(size, count, b), span);
    RunCorrect(c, nodes, schedule, Capped(size, count, b), span, k);
    if st.results == [] { NeverStuck(c, nodes, schedule); }
  }
}
