/**
What becomes of the hasher when the 32-bit counter of an inner node has wrapped to a negative
value: the first visitor no longer waits, so a hash can be sent before all the data has been read.
A clean tree with even counters serves every chunk exactly when no inner counter is negative.
*/
module BmtWrapped {
  import opened BmtTree
  import opened BmtHasher
  import opened BmtInvariant
  import opened BmtSteps
  import opened BmtRuns

  /** A hasher of a pool: one base hash and one segment size. */
  datatype Pool = Pool(H: Bytes -> Bytes, size: nat)

  /** A chunk that such a hasher cuts for a tree of this depth. */
  ghost predicate Cuts(p: Pool, depth: nat, c: Chunk) {
    c.Valid() && c.H == p.H && c.size == p.size && c.depth == depth
  }

  /** Every chunk, under every schedule, gets its hash or nothing. */
  ghost predicate Serves(p: Pool, z: Nodes, depth: nat) {
    forall c: Chunk, schedule: seq<Actor> | Cuts(p, depth, c) ::
      Run(c, Init(z), schedule).results == [] || Run(c, Init(z), schedule).results == [RootVal(c)]
  }

  ghost predicate EvenCounters(z: Nodes, depth: nat) {
    forall v :: InTree(depth, v) ==> At(z, v).state % 2 == 0
  }

  // ----- Schedules piece by piece

  lemma {:induction false} RunThen(c: Chunk, st: State, s: seq<Actor>, t: seq<Actor>)
    ensures Run(c, st, s + t) == Run(c, Run(c, st, s), t)
    decreases |t|
  {
    if t == [] {
      assert s + t == s;
    } else {
      var last := |t| - 1;
      assert (s + t)[..|s + t| - 1] == s + t[..last] && (s + t)[|s + t| - 1] == t[last];
      RunThen(c, st, s, t[..last]);
    }
  }

  lemma {:induction false} RunNext(c: Chunk, st: State, s: seq<Actor>, a: Actor)
    requires Enabled(Run(c, st, s), a)
    ensures Run(c, st, s + [a]) == Step(c, Run(c, st, s), a)
  {
    assert (s + [a])[..|s + [a]| - 1] == s;
  }

  // ----- One goroutine on its own

  /** All double segments are full, so every goroutine starts by hashing its own. */
  ghost predicate Doubles(c: Chunk) {
    c.Valid() && c.Last() > 0 && c.depth > 0 && forall j: nat :: j < |c.segs| ==> |c.Seg(j)| == 2 * c.size
  }

  /** The writer is done and the flags are those of the final path. */
  ghost predicate Shaped(c: Chunk, st: State) {
    && st.main == Waiting && |st.gos| == |c.segs|
    && forall v {:trigger At(st.nodes, v)} :: InTree(c.depth, v) ==>
         && (At(st.nodes, v).unbalanced <==> 1 <= v.h <= R(c) && v.i == Anc(c.Last(), v.h) && EntersLeft(c, v.h))
         && (At(st.nodes, v).root <==> v == Pos(c.depth, 0) || v == Pos(R(c), 0))
  }

  ghost predicate Fresh(st: State, l: nat) {
    l < |st.gos| && st.gos[l].pc == Start && st.gos[l].at == Pos(0, l)
  }

  /** Only goroutine `j` and the node `u` have changed, and of `u` not the flags. */
  ghost predicate OnlyAt(st: State, st': State, j: nat, u: Pos) {
    && j < |st.gos| == |st'.gos| && st'.main == st.main && st'.gos == st.gos[j := st'.gos[j]]
    && (forall w :: w != u ==> At(st'.nodes, w) == At(st.nodes, w))
    && At(st'.nodes, u).unbalanced == At(st.nodes, u).unbalanced && At(st'.nodes, u).root == At(st.nodes, u).root
  }

  lemma {:induction false} OnlyAtShaped(c: Chunk, st: State, st': State, j: nat, u: Pos)
    requires Shaped(c, st) && OnlyAt(st, st', j, u)
    ensures Shaped(c, st')
  {
  }

  lemma {:induction false} OnlyAtTwice(st: State, d: State, e: State, j: nat, u: Pos)
    requires OnlyAt(st, d, j, u) && OnlyAt(d, e, j, u)
    ensures OnlyAt(st, e, j, u)
  {
  }

  /** A goroutine at `u` with a value to put there. */
  ghost predicate Arrived(st: State, j: nat, u: Pos) {
    j < |st.gos| && st.gos[j].pc == Write && st.gos[j].at == u
  }

  function Above(u: Pos): Pos { Pos(u.h + 1, u.i / 2) }

  /** Goroutine `j` has gone on to the node above `u`, or has sent its value if `u` is a root. */
  ghost predicate GoneOn(st: State, st': State, j: nat, u: Pos) {
    if At(st.nodes, u).root then |st'.results| == |st.results| + 1
    else st'.results == st.results && Arrived(st', j, Above(u))
  }

  /** Writing the value and reading the flag. */
  lemma {:induction false} Visit(c: Chunk, st: State, j: nat, u: Pos) returns (s: seq<Actor>)
    requires Arrived(st, j, u)
    ensures var e := Run(c, st, s);
            && s == [Worker(j)] + [Worker(j)] && OnlyAt(st, e, j, u) && e.results == st.results
            && e.gos[j].pc == (if At(st.nodes, u).unbalanced then Combine else Toggle) && e.gos[j].at == u
            && At(e.nodes, u).state == At(st.nodes, u).state
  {
    var w := Worker(j);
    s := [w] + [w];
    assert Run(c, st, []) == st && [] + [w] == [w];
    RunNext(c, st, [], w);
    RunNext(c, st, [w], w);
  }

  /** Combining the sides of the node and handing the result on. */
  lemma {:induction false} Leave(c: Chunk, st: State, j: nat, u: Pos) returns (s: seq<Actor>)
    requires j < |st.gos| && st.gos[j].pc == Combine && st.gos[j].at == u
    ensures var e := Run(c, st, s);
            && s == [Worker(j)] + [Worker(j)] && OnlyAt(st, e, j, u) && GoneOn(st, e, j, u)
            && At(e.nodes, u) == At(st.nodes, u)
  {
    var w := Worker(j);
    s := [w] + [w];
    assert Run(c, st, []) == st && [] + [w] == [w];
    RunNext(c, st, [], w);
    RunNext(c, st, [w], w);
  }

  lemma {:induction false} Tick(c: Chunk, st: State, j: nat, u: Pos) returns (s: seq<Actor>)
    requires j < |st.gos| && st.gos[j].pc == Toggle && st.gos[j].at == u
    ensures var e := Run(c, st, s);
            && s == [Worker(j)] && OnlyAt(st, e, j, u) && e.results == st.results
            && e.gos[j].pc == (if Waits(Add32(At(st.nodes, u).state)) then Done else Combine) && e.gos[j].at == u
            && At(e.nodes, u).state == Add32(At(st.nodes, u).state)
  {
    var w := Worker(j);
    s := [w];
    assert Run(c, st, []) == st && [] + [w] == [w];
    RunNext(c, st, [], w);
  }

  /** All moves of a schedule are those of goroutine `j`. */
  ghost predicate Only(s: seq<Actor>, j: nat) {
    forall a <- s :: a == Worker(j)
  }

  /** A visitor of a balanced node moves its counter, and waits or not. */
  lemma {:induction false} Counts(c: Chunk, st: State, j: nat, u: Pos) returns (s: seq<Actor>)
    requires Arrived(st, j, u) && !At(st.nodes, u).unbalanced
    ensures var e := Run(c, st, s);
            && Only(s, j) && OnlyAt(st, e, j, u) && e.results == st.results && e.gos[j].at == u
            && e.gos[j].pc == (if Waits(Add32(At(st.nodes, u).state)) then Done else Combine)
            && At(e.nodes, u).state == Add32(At(st.nodes, u).state)
  {
    var a := Visit(c, st, j, u);
    var d := Run(c, st, a);
    var b := Tick(c, d, j, u);
    s := a + b;
    RunThen(c, st, a, b);
    OnlyAtTwice(st, d, Run(c, d, b), j, u);
  }

  /** The first visitor of a balanced node ends there. */
  lemma {:induction false} Parks(c: Chunk, st: State, j: nat, u: Pos) returns (s: seq<Actor>)
    requires Arrived(st, j, u) && !At(st.nodes, u).unbalanced && Waits(Add32(At(st.nodes, u).state))
    ensures var e := Run(c, st, s);
            && Only(s, j) && OnlyAt(st, e, j, u) && e.results == st.results
            && At(e.nodes, u).state == Add32(At(st.nodes, u).state)
  {
    s := Counts(c, st, j, u);
  }

  /** A visitor of an unbalanced node goes on. */
  lemma {:induction false} Through(c: Chunk, st: State, j: nat, u: Pos) returns (s: seq<Actor>)
    requires Arrived(st, j, u) && At(st.nodes, u).unbalanced
    ensures var e := Run(c, st, s); Only(s, j) && OnlyAt(st, e, j, u) && GoneOn(st, e, j, u)
  {
    var a := Visit(c, st, j, u);
    var d := Run(c, st, a);
    var b := Leave(c, d, j, u);
    s := a + b;
    RunThen(c, st, a, b);
    OnlyAtTwice(st, d, Run(c, d, b), j, u);
  }

  /** So does a visitor of a balanced node that need not wait. */
  lemma {:induction false} Joins(c: Chunk, st: State, j: nat, u: Pos) returns (s: seq<Actor>)
    requires Arrived(st, j, u) && !At(st.nodes, u).unbalanced && !Waits(Add32(At(st.nodes, u).state))
    ensures var e := Run(c, st, s);
            && Only(s, j) && OnlyAt(st, e, j, u) && GoneOn(st, e, j, u)
            && At(e.nodes, u).state == Add32(At(st.nodes, u).state)
  {
    var a := Counts(c, st, j, u);
    var d := Run(c, st, a);
    var b := Leave(c, d, j, u);
    s := a + b;
    RunThen(c, st, a, b);
    OnlyAtTwice(st, d, Run(c, d, b), j, u);
  }

  lemma {:induction false} Passing(c: Chunk, st: State, j: nat, u: Pos) returns (s: seq<Actor>)
    requires Arrived(st, j, u) && (At(st.nodes, u).unbalanced || !Waits(Add32(At(st.nodes, u).state)))
    ensures var e := Run(c, st, s); Only(s, j) && OnlyAt(st, e, j, u) && GoneOn(st, e, j, u)
  {
    if At(st.nodes, u).unbalanced { s := Through(c, st, j, u); } else { s := Joins(c, st, j, u); }
  }

  /** A fresh goroutine hashes its segment and goes to the node above its leaf. */
  lemma {:induction false} Starting(c: Chunk, st: State, l: nat) returns (s: seq<Actor>)
    requires Doubles(c) && Shaped(c, st) && Fresh(st, l) && l <= c.Last()
    ensures var e := Run(c, st, s);
            && Only(s, l) && OnlyAt(st, e, l, Pos(0, l)) && e.results == st.results && e.nodes == st.nodes
            && Arrived(e, l, Above(Pos(0, l)))
  {
    s := [Worker(l)];
    assert Run(c, st, []) == st && [] + [Worker(l)] == [Worker(l)];
    RunNext(c, st, [], Worker(l));
    AncInTree(c.depth, c.Last(), l, 0);
    RootHeightExact(c.Last(), 0);
  }

  // ----- A whole subtree left of the final path

  /** `w` is the node of height `h` and index `i`, or lies below it. */
  ghost predicate Below(h: nat, i: nat, w: Pos) {
    w.h <= h && Anc(w.i, h - w.h) == i
  }

  ghost predicate Tame(st: State, h: nat, i: nat) {
    forall w {:trigger At(st.nodes, w)} :: Below(h, i, w) && w.h > 0 ==> MeetsTwo(At(st.nodes, w).state)
  }

  ghost predicate AllFresh(st: State, h: nat, i: nat) {
    forall l: nat :: l < |st.gos| && Anc(l, h) == i ==> Fresh(st, l)
  }

  /** Only the subtree at height `h` and index `i` has changed. */
  ghost predicate OnlyBelow(st: State, st': State, h: nat, i: nat) {
    && |st'.gos| == |st.gos| && st'.main == st.main && st'.results == st.results
    && (forall l: nat :: l < |st.gos| && Anc(l, h) != i ==> st'.gos[l] == st.gos[l])
    && (forall w :: !Below(h, i, w) ==> At(st'.nodes, w) == At(st.nodes, w))
  }

  /** All moves are those of goroutines from the subtree. */
  ghost predicate From(s: seq<Actor>, h: nat, i: nat) {
    forall a <- s :: a.Worker? && Anc(a.j, h) == i
  }

  lemma {:induction false} HalfBelow(h: nat, i: nat, k: nat, w: Pos)
    requires h > 0 && k < 2 && Below(h - 1, 2 * i + k, w)
    ensures Below(h, i, w)
  {
    assert Anc(w.i, h - w.h) == Anc(w.i, h - 1 - w.h) / 2;
  }

  lemma {:induction false} BelowHalf(st: State, e: State, h: nat, i: nat, k: nat)
    requires h > 0 && k < 2 && OnlyBelow(st, e, h - 1, 2 * i + k)
    ensures OnlyBelow(st, e, h, i)
  {
    forall w | !Below(h, i, w) ensures At(e.nodes, w) == At(st.nodes, w) {
      if Below(h - 1, 2 * i + k, w) { HalfBelow(h, i, k, w); }
    }
  }

  lemma {:induction false} BelowAt(st: State, e: State, h: nat, i: nat, j: nat)
    requires OnlyAt(st, e, j, Pos(h, i)) && Anc(j, h) == i && e.results == st.results
    ensures OnlyBelow(st, e, h, i)
  {
    assert Below(h, i, Pos(h, i));
  }

  lemma {:induction false} BelowTwice(st: State, d: State, e: State, h: nat, i: nat)
    requires OnlyBelow(st, d, h, i) && OnlyBelow(d, e, h, i)
    ensures OnlyBelow(st, e, h, i)
  {
  }

  /** What holds below a node holds below each half of it. */
  lemma {:induction false} Halved(c: Chunk, st: State, h: nat, i: nat, k: nat)
    requires h > 0 && k < 2 && i < Anc(c.Last(), h) && AllFresh(st, h, i) && Tame(st, h, i)
    ensures 2 * i + k < Anc(c.Last(), h - 1) && AllFresh(st, h - 1, 2 * i + k) && Tame(st, h - 1, 2 * i + k)
  {
    forall w | Below(h - 1, 2 * i + k, w) && w.h > 0 ensures MeetsTwo(At(st.nodes, w).state) { HalfBelow(h, i, k, w); }
  }

  /** A change in the left half or at the node leaves the right half alone. */
  lemma {:induction false} RightHalfKept(st: State, d: State, e: State, h: nat, i: nat, j: nat)
    requires h > 0 && OnlyBelow(st, d, h - 1, 2 * i) && OnlyAt(d, e, j, Pos(h, i)) && Anc(j, h - 1) == 2 * i
    requires AllFresh(st, h - 1, 2 * i + 1) && Tame(st, h - 1, 2 * i + 1)
    ensures AllFresh(e, h - 1, 2 * i + 1) && Tame(e, h - 1, 2 * i + 1)
  {
    forall l: nat | l < |e.gos| && Anc(l, h - 1) == 2 * i + 1 ensures Fresh(e, l) { assert Fresh(st, l); }
    forall w | Below(h - 1, 2 * i + 1, w) && w.h > 0 ensures MeetsTwo(At(e.nodes, w).state) {
      assert At(e.nodes, w) == At(d.nodes, w) == At(st.nodes, w);
    }
  }

  /** A node left of the final path is balanced and no root. */
  lemma {:induction false} LeftOfPath(c: Chunk, st: State, h: nat, i: nat)
    requires Doubles(c) && Shaped(c, st) && i < Anc(c.Last(), h)
    ensures !At(st.nodes, Pos(h, i)).unbalanced && !At(st.nodes, Pos(h, i)).root
  {
    RootHeightExact(c.Last(), h);
    RootHeightExact(c.Last(), c.depth);
    LeafBelow(c.Last(), h, i);
    var l: nat :| l <= c.Last() && Anc(l, h) == i;
    AncInTree(c.depth, c.Last(), l, h);
  }

  /** The left half of a subtree sends one goroutine to the node, where it waits. */
  lemma {:induction false} LeftHalf(c: Chunk, st: State, h: nat, i: nat) returns (s: seq<Actor>)
    requires Doubles(c) && Shaped(c, st) && h > 0 && i < Anc(c.Last(), h) && AllFresh(st, h, i) && Tame(st, h, i)
    ensures var e := Run(c, st, s);
            && Shaped(c, e) && OnlyBelow(st, e, h, i) && From(s, h, i)
            && AllFresh(e, h - 1, 2 * i + 1) && Tame(e, h - 1, 2 * i + 1)
            && At(e.nodes, Pos(h, i)).state == Add32(At(st.nodes, Pos(h, i)).state)
    decreases h, 0
  {
    var u := Pos(h, i);
    Halved(c, st, h, i, 0);
    Halved(c, st, h, i, 1);
    var a, j := Subtree(c, st, h - 1, 2 * i);
    var d := Run(c, st, a);
    assert !Below(h - 1, 2 * i, u) && Below(h, i, u) && Above(Pos(h - 1, 2 * i)) == u;
    LeftOfPath(c, d, h, i);
    var b := Parks(c, d, j, u);
    var e := Run(c, d, b);
    s := a + b;
    RunThen(c, st, a, b);
    OnlyAtShaped(c, d, e, j, u);
    RightHalfKept(st, d, e, h, i, j);
    BelowHalf(st, d, h, i, 0);
    BelowAt(d, e, h, i, j);
    BelowTwice(st, d, e, h, i);
  }

  /** The right half sends another, which goes on. */
  lemma {:induction false} RightHalf(c: Chunk, st: State, h: nat, i: nat) returns (s: seq<Actor>, j: nat)
    requires Doubles(c) && Shaped(c, st) && h > 0 && i < Anc(c.Last(), h)
    requires 2 * i + 1 < Anc(c.Last(), h - 1) && AllFresh(st, h - 1, 2 * i + 1) && Tame(st, h - 1, 2 * i + 1)
    requires !Waits(Add32(At(st.nodes, Pos(h, i)).state))
    ensures var e := Run(c, st, s);
            Shaped(c, e) && OnlyBelow(st, e, h, i) && Arrived(e, j, Above(Pos(h, i))) && Anc(j, h) == i && From(s, h, i)
    decreases h, 0
  {
    var u := Pos(h, i);
    var a;
    a, j := Subtree(c, st, h - 1, 2 * i + 1);
    var d := Run(c, st, a);
    assert !Below(h - 1, 2 * i + 1, u) && Above(Pos(h - 1, 2 * i + 1)) == u;
    LeftOfPath(c, d, h, i);
    var b := Passing(c, d, j, u);
    var e := Run(c, d, b);
    s := a + b;
    RunThen(c, st, a, b);
    OnlyAtShaped(c, d, e, j, u);
    BelowHalf(st, d, h, i, 1);
    BelowAt(d, e, h, i, j);
    BelowTwice(st, d, e, h, i);
  }

  /** The goroutines of a full subtree with tame counters can send one of them on, alone. */
  lemma {:induction false} Subtree(c: Chunk, st: State, h: nat, i: nat) returns (s: seq<Actor>, j: nat)
    requires Doubles(c) && Shaped(c, st) && i < Anc(c.Last(), h) && AllFresh(st, h, i) && Tame(st, h, i)
    ensures var e := Run(c, st, s);
            Shaped(c, e) && OnlyBelow(st, e, h, i) && Arrived(e, j, Above(Pos(h, i))) && Anc(j, h) == i && From(s, h, i)
    decreases h, 1
  {
    if h == 0 {
      j := i;
      assert Anc(i, 0) == i;
      s := Starting(c, st, i);
      OnlyAtShaped(c, st, Run(c, st, s), i, Pos(0, i));
      BelowAt(st, Run(c, st, s), 0, i, i);
    } else {
      Halved(c, st, h, i, 1);
      assert Below(h, i, Pos(h, i)) && MeetsTwo(At(st.nodes, Pos(h, i)).state);
      var a := LeftHalf(c, st, h, i);
      var d := Run(c, st, a);
      var b;
      b, j := RightHalf(c, d, h, i);
      s := a + b;
      RunThen(c, st, a, b);
      BelowTwice(st, d, Run(c, d, b), h, i);
    }
  }

  // ----- The last goroutine climbs to the top of the final path

  /** Nothing has happened yet outside the subtree of height `h` over the last leaf. */
  ghost predicate Untouched(c: Chunk, z: Nodes, st: State, h: nat) {
    && (forall l: nat :: l <= c.Last() && Anc(l, h) != Anc(c.Last(), h) ==> Fresh(st, l))
    && (forall w {:trigger At(st.nodes, w)} :: !Below(h, Anc(c.Last(), h), w) ==>
          At(st.nodes, w).state == At(z, w).state)
  }

  /** The first leaf under the node of height `h` and index `m`. */
  ghost function FirstLeaf(h: nat, m: nat): nat {
    if h == 0 then m else FirstLeaf(h - 1, 2 * m)
  }

  lemma {:induction false} FirstLeafAnc(h: nat, m: nat)
    ensures Anc(FirstLeaf(h, m), h) == m
  {
    if h > 0 { FirstLeafAnc(h - 1, 2 * m); }
  }

  /** The first leaf of the right half of a node: the least last leaf for which the node joins two halves. */
  ghost function Joining(w: Pos): nat
    requires w.h > 0
  {
    FirstLeaf(w.h - 1, 2 * w.i + 1)
  }

  /**
  All counters are even, and those of nodes that join two halves of less data than up to leaf `q`
  are not negative.
  */
  ghost predicate TameBefore(z: Nodes, depth: nat, q: nat) {
    forall w {:trigger At(z, w)} :: InTree(depth, w) && w.h > 0 ==>
      && -0x8000_0000 <= At(z, w).state <= 0x7fff_ffff && At(z, w).state % 2 == 0
      && (Joining(w) < q ==> At(z, w).state >= 0)
  }

  lemma {:induction false} JoiningBelow(depth: nat, q: nat, h: nat, i: nat, w: Pos)
    requires Anc(q, depth) == 0 && h <= depth && i < Anc(q, h) && Below(h, i, w) && w.h > 0
    ensures InTree(depth, w) && Joining(w) < q
  {
    var f := Joining(w);
    FirstLeafAnc(w.h - 1, 2 * w.i + 1);
    assert Anc(f, w.h) == w.i;
    AncAnc(f, w.h, h - w.h);
    if q <= f { AncMono(q, f, h); }
    AncInTree(depth, q, f, w.h);
  }

  lemma {:induction false} SiblingTame(c: Chunk, z: Nodes, st: State, h: nat)
    requires c.Valid() && h <= R(c) && TameBefore(z, c.depth, c.Last()) && Untouched(c, z, st, h)
    requires |st.gos| == |c.segs|
    requires Anc(c.Last(), h) % 2 == 1
    ensures AllFresh(st, h, Anc(c.Last(), h) - 1) && Tame(st, h, Anc(c.Last(), h) - 1)
  {
    var i := Anc(c.Last(), h) - 1;
    RootHeightExact(c.Last(), c.depth);
    forall w | Below(h, i, w) && w.h > 0 ensures MeetsTwo(At(st.nodes, w).state) {
      JoiningBelow(c.depth, c.Last(), h, i, w);
      assert !Below(h, Anc(c.Last(), h), w);
      assert At(st.nodes, w).state == At(z, w).state >= 0;
      MeetsTwoExact(At(z, w).state);
    }
  }

  lemma {:induction false} UntouchedUp(c: Chunk, z: Nodes, st: State, e: State, h: nat)
    requires Untouched(c, z, st, h) && |e.gos| == |st.gos|
    requires forall l: nat :: l < |st.gos| && Anc(l, h + 1) != Anc(c.Last(), h + 1) ==> e.gos[l] == st.gos[l]
    requires forall w :: !Below(h + 1, Anc(c.Last(), h + 1), w) ==> At(e.nodes, w) == At(st.nodes, w)
    ensures Untouched(c, z, e, h + 1)
  {
    var q := c.Last();
    forall l: nat | l <= q && Anc(l, h + 1) != Anc(q, h + 1) ensures Fresh(e, l) { assert Fresh(st, l); }
    forall w | !Below(h + 1, Anc(q, h + 1), w) ensures At(e.nodes, w).state == At(z, w).state {
      assert !Below(h, Anc(q, h), w);
    }
  }

  /** The last goroutine passes its node, from outside or as the second visitor. */
  lemma {:induction false} LastPasses(c: Chunk, z: Nodes, st: State, d: State, h: nat) returns (s: seq<Actor>)
    requires Doubles(c) && Shaped(c, d) && h < R(c) && Untouched(c, z, st, h)
    requires OnlyBelow(st, d, h + 1, Anc(c.Last(), h + 1)) && Arrived(d, c.Last(), Pos(h + 1, Anc(c.Last(), h + 1)))
    requires var n := At(d.nodes, Pos(h + 1, Anc(c.Last(), h + 1))); n.unbalanced || !Waits(Add32(n.state))
    ensures var e, u := Run(c, d, s), Pos(h + 1, Anc(c.Last(), h + 1));
            Shaped(c, e) && Untouched(c, z, e, h + 1) && Only(s, c.Last()) && GoneOn(d, e, c.Last(), u)
  {
    var q, u := c.Last(), Pos(h + 1, Anc(c.Last(), h + 1));
    s := Passing(c, d, q, u);
    var e := Run(c, d, s);
    OnlyAtShaped(c, d, e, q, u);
    assert Below(u.h, u.i, u);
    UntouchedUp(c, z, st, e, h);
  }

  /** The left sibling of the last goroutine's subtree sends a goroutine to their common node. */
  lemma {:induction false} SiblingArrives(c: Chunk, z: Nodes, st: State, h: nat) returns (s: seq<Actor>, j: nat)
    requires Doubles(c) && Shaped(c, st) && h < R(c) && TameBefore(z, c.depth, c.Last()) && Untouched(c, z, st, h)
    requires Anc(c.Last(), h) % 2 == 1
    ensures var e, u, i := Run(c, st, s), Pos(h + 1, Anc(c.Last(), h + 1)), Anc(c.Last(), h) - 1;
            && Shaped(c, e) && OnlyBelow(st, e, h, i) && From(s, h, i) && i == 2 * u.i
            && Arrived(e, j, u) && Anc(j, h) == i && At(e.nodes, u).state == At(z, u).state
  {
    var q, u, i := c.Last(), Pos(h + 1, Anc(c.Last(), h + 1)), Anc(c.Last(), h) - 1;
    SiblingTame(c, z, st, h);
    s, j := Subtree(c, st, h, i);
    assert i == 2 * u.i && Above(Pos(h, i)) == u && !Below(h, i, u) && !Below(h, Anc(q, h), u);
  }

  /**
  A node that the final path enters from the right is balanced and meets two visitors if its counter
  is not negative.
  */
  lemma {:induction false} PathNodeTame(c: Chunk, z: Nodes, st: State, h: nat)
    requires Doubles(c) && Shaped(c, st) && h < R(c) && TameBefore(z, c.depth, c.Last()) && Anc(c.Last(), h) % 2 == 1
    ensures var u := Pos(h + 1, Anc(c.Last(), h + 1));
            !At(st.nodes, u).unbalanced && (At(z, u).state >= 0 ==> MeetsTwo(At(z, u).state))
  {
    var q, u := c.Last(), Pos(h + 1, Anc(c.Last(), h + 1));
    RootHeightExact(q, c.depth);
    AncInTree(c.depth, q, q, u.h);
    MeetsTwoExact(At(z, u).state);
  }

  /** There it waits. */
  lemma {:induction false} SiblingWaits(c: Chunk, z: Nodes, st: State, h: nat) returns (s: seq<Actor>)
    requires Doubles(c) && Shaped(c, st) && h < R(c) && TameBefore(z, c.depth, c.Last()) && Untouched(c, z, st, h)
    requires Anc(c.Last(), h) % 2 == 1 && At(z, Pos(h + 1, Anc(c.Last(), h + 1))).state >= 0
    requires Arrived(st, c.Last(), Pos(h + 1, Anc(c.Last(), h + 1)))
    ensures var e, u := Run(c, st, s), Pos(h + 1, Anc(c.Last(), h + 1));
            && Shaped(c, e) && OnlyBelow(st, e, u.h, u.i) && From(s, h, Anc(c.Last(), h) - 1)
            && Arrived(e, c.Last(), u) && !Waits(Add32(At(e.nodes, u).state))
  {
    var q, u := c.Last(), Pos(h + 1, Anc(c.Last(), h + 1));
    var a, j := SiblingArrives(c, z, st, h);
    var d := Run(c, st, a);
    PathNodeTame(c, z, d, h);
    var b := Parks(c, d, j, u);
    var e := Run(c, d, b);
    s := a + b;
    RunThen(c, st, a, b);
    OnlyAtShaped(c, d, e, j, u);
    BelowHalf(st, d, u.h, u.i, 0);
    BelowAt(d, e, u.h, u.i, j);
    BelowTwice(st, d, e, u.h, u.i);
    assert e.gos[q] == d.gos[q] == st.gos[q];
  }

  /** A left half, at height `k`, that the last goroutine can leave behind: the node above it has a negative counter. */
  ghost predicate LeftBehind(c: Chunk, z: Nodes, l: nat, k: nat) {
    && k < R(c) && Anc(c.Last(), k) % 2 == 1 && Anc(l, k) == Anc(c.Last(), k) - 1
    && At(z, Pos(k + 1, Anc(c.Last(), k + 1))).state < 0
  }

  /** No goroutine under another left half is that of `l`. */
  lemma {:induction false} NotBehind(q: nat, l: nat, k: nat, h: nat, j: nat)
    requires Anc(q, k) % 2 == 1 && Anc(l, k) == Anc(q, k) - 1 && h != k
    requires Anc(q, h) % 2 == 1 && Anc(j, h) == Anc(q, h) - 1
    ensures j != l
  {
    if h < k {
      assert Anc(j, h + 1) == Anc(q, h + 1);
      AncSame(j, q, h + 1, k);
    } else {
      assert Anc(l, k + 1) == Anc(q, k + 1);
      AncSame(l, q, k + 1, h);
    }
  }

  /** No move is that of goroutine `l`. */
  ghost predicate Without(s: seq<Actor>, l: nat) {
    forall a <- s :: a != Worker(l)
  }

  /** One level up: at a node with a tame counter after its sibling, elsewhere at once. */
  lemma {:induction false} LevelUp(c: Chunk, z: Nodes, st: State, h: nat, l: nat, k: nat) returns (s: seq<Actor>)
    requires Doubles(c) && Shaped(c, st) && h < R(c) && TameBefore(z, c.depth, c.Last()) && Untouched(c, z, st, h)
    requires Arrived(st, c.Last(), Pos(h + 1, Anc(c.Last(), h + 1))) && st.results == [] && LeftBehind(c, z, l, k)
    ensures var e, u := Run(c, st, s), Pos(h + 1, Anc(c.Last(), h + 1));
            && Shaped(c, e) && Untouched(c, z, e, h + 1) && Without(s, l) && GoneOn(st, e, c.Last(), u)
  {
    var q, u := c.Last(), Pos(h + 1, Anc(c.Last(), h + 1));
    RootHeightExact(q, c.depth);
    AncInTree(c.depth, q, q, u.h);
    if Anc(q, h) % 2 == 1 && At(z, u).state >= 0 {
      var a := SiblingWaits(c, z, st, h);
      var d := Run(c, st, a);
      forall x | x in a ensures x != Worker(l) { NotBehind(q, l, k, h, x.j); }
      var b := LastPasses(c, z, st, d, h);
      s := a + b;
      RunThen(c, st, a, b);
    } else {
      assert !Below(h, Anc(q, h), u) && At(st.nodes, u).state == At(z, u).state;
      s := LastPasses(c, z, st, st, h);
    }
  }

  /** Whatever is left behind, the last goroutine reaches the top and sends a value. */
  lemma {:induction false} ToTheTop(c: Chunk, z: Nodes, st: State, h: nat, l: nat, k: nat) returns (s: seq<Actor>)
    requires Doubles(c) && Shaped(c, st) && h < R(c) && TameBefore(z, c.depth, c.Last()) && Untouched(c, z, st, h)
    requires Arrived(st, c.Last(), Pos(h + 1, Anc(c.Last(), h + 1))) && st.results == [] && LeftBehind(c, z, l, k)
    ensures |Run(c, st, s).results| == 1 && Without(s, l)
    decreases R(c) - h
  {
    var q, u := c.Last(), Pos(h + 1, Anc(c.Last(), h + 1));
    RootHeightExact(q, c.depth);
    RootHeightExact(q, u.h);
    AncInTree(c.depth, q, q, u.h);
    s := LevelUp(c, z, st, h, l, k);
    if u.h < R(c) {
      var t := ToTheTop(c, z, Run(c, st, s), h + 1, l, k);
      RunThen(c, st, s, t);
      s := s + t;
    }
  }

  // ----- The writer goes first

  /** Nothing but the writer has moved. */
  ghost predicate WriterOnly(c: Chunk, z: Nodes, st: State) {
    && WriterInv(c, st) && st.results == [] && (forall j: nat :: j < |st.gos| ==> Fresh(st, j))
    && (forall w :: At(st.nodes, w).state == At(z, w).state)
    && (forall v :: InTree(c.depth, v) ==> v in st.nodes && Flags(c, st, v))
  }

  lemma {:induction false} WriterKeeps(c: Chunk, st: State)
    requires c.Valid() && WriterInv(c, st) && st.main != Waiting
    ensures WriterInv(c, StepWriter(c, st)) && WriterRank(c, StepWriter(c, st)) < WriterRank(c, st)
  {
    RootHeightExact(c.Last(), R(c));
    RootHeightExact(c.Last(), 0);
    assert Anc(c.Last(), 1) == Anc(c.Last(), 0) / 2;
    if st.main.Finalising? {
      RootHeightExact(c.Last(), st.main.at.h);
      assert Anc(c.Last(), st.main.at.h + 1) == st.main.at.i / 2;
    }
  }

  lemma {:induction false} WriterFlags(c: Chunk, st: State, v: Pos)
    requires c.Valid() && WriterInv(c, st) && st.main != Waiting && Flags(c, st, v)
    ensures Flags(c, StepWriter(c, st), v)
  {
    if st.main.Finalising? { PathFlags(c, st, v); }
  }

  lemma {:induction false} WriterLaunches(c: Chunk, st: State, j: nat)
    requires Doubles(c) && WriterInv(c, st) && st.main != Waiting && j < |StepWriter(c, st).gos|
    requires j < |st.gos| ==> Fresh(st, j)
    ensures Fresh(StepWriter(c, st), j)
  {
  }

  lemma {:induction false} WriterOnlyStep(c: Chunk, z: Nodes, st: State)
    requires Doubles(c) && WriterOnly(c, z, st) && st.main != Waiting
    ensures WriterOnly(c, z, StepWriter(c, st)) && WriterRank(c, StepWriter(c, st)) < WriterRank(c, st)
  {
    var e := StepWriter(c, st);
    WriterKeeps(c, st);
    forall j: nat | j < |e.gos| ensures Fresh(e, j) {
      assert j < |st.gos| ==> Fresh(st, j);
      WriterLaunches(c, st, j);
    }
    forall v | InTree(c.depth, v) ensures v in e.nodes && Flags(c, e, v) {
      assert Flags(c, st, v);
      WriterFlags(c, st, v);
    }
  }

  /** The writer, left alone, launches everything and marks the final path. */
  lemma {:induction false} WriterDone(c: Chunk, z: Nodes, st: State) returns (s: seq<Actor>)
    requires Doubles(c) && WriterOnly(c, z, st)
    ensures WriterOnly(c, z, Run(c, st, s)) && Run(c, st, s).main == Waiting && forall a <- s :: a == Writer
    decreases WriterRank(c, st)
  {
    s := [];
    if st.main != Waiting {
      WriterOnlyStep(c, z, st);
      var t := WriterDone(c, z, StepWriter(c, st));
      assert Run(c, st, []) == st && [] + [Writer] == [Writer];
      RunNext(c, st, [], Writer);
      RunThen(c, st, [Writer], t);
      s := [Writer] + t;
    }
  }

  /** A negative counter lets a value be sent although goroutine `l` has not moved. */
  lemma {:induction false} SentEarly(c: Chunk, z: Nodes, l: nat, k: nat) returns (s: seq<Actor>)
    requires Doubles(c) && Clean(z, c.depth) && TameBefore(z, c.depth, c.Last()) && LeftBehind(c, z, l, k)
    ensures |Run(c, Init(z), s).results| == 1 && Without(s, l)
  {
    var q := c.Last();
    forall v | InTree(c.depth, v) ensures Flags(c, Init(z), v) {}
    var a := WriterDone(c, z, Init(z));
    var st := Run(c, Init(z), a);
    ShapedNow(c, z, st);
    var b := Starting(c, st, q);
    var d := Run(c, st, b);
    OnlyAtShaped(c, st, d, q, Pos(0, q));
    assert Anc(q, 0) == q && Anc(q, 1) == q / 2;
    forall x: nat | x <= q && Anc(x, 0) != q ensures Fresh(d, x) { assert Fresh(st, x); }
    var e := ToTheTop(c, z, d, 0, l, k);
    s := a + (b + e);
    RunThen(c, st, b, e);
    RunThen(c, Init(z), a, b + e);
  }

  lemma {:induction false} ShapedNow(c: Chunk, z: Nodes, st: State)
    requires Doubles(c) && WriterOnly(c, z, st) && st.main == Waiting
    ensures Shaped(c, st) && |st.gos| == |c.segs| && R(c) > 0
  {
    RootHeightExact(c.Last(), 0);
    forall v | InTree(c.depth, v)
      ensures At(st.nodes, v).unbalanced <==> 1 <= v.h <= R(c) && v.i == Anc(c.Last(), v.h) && EntersLeft(c, v.h)
      ensures At(st.nodes, v).root <==> v == Pos(c.depth, 0) || v == Pos(R(c), 0)
    {
      assert Flags(c, st, v);
    }
  }

  /** Two leaves under a node with a negative counter: both goroutines pass it, and two values are sent. */
  lemma {:induction false} SentTwice(c: Chunk, z: Nodes) returns (s: seq<Actor>)
    requires Doubles(c) && c.Last() == 1 && Clean(z, c.depth)
    requires At(z, Pos(1, 0)).state < 0 && At(z, Pos(1, 0)).state % 2 == 0
    ensures |Run(c, Init(z), s).results| == 2
  {
    var u := Pos(1, 0);
    forall v | InTree(c.depth, v) ensures Flags(c, Init(z), v) {}
    var a := WriterDone(c, z, Init(z));
    var st := Run(c, Init(z), a);
    ShapedNow(c, z, st);
    var b, d := PairArrives(c, st);
    var x := Joins(c, d, 0, u);
    var e := Run(c, d, x);
    var y := Joins(c, e, 1, u);
    s := a + (b + (x + y));
    RunThen(c, d, x, y);
    RunThen(c, st, b, x + y);
    RunThen(c, Init(z), a, b + (x + y));
  }

  lemma {:induction false} PairArrives(c: Chunk, st: State) returns (s: seq<Actor>, e: State)
    requires Doubles(c) && c.Last() == 1 && Shaped(c, st) && Fresh(st, 0) && Fresh(st, 1)
    ensures e == Run(c, st, s) && Arrived(e, 0, Pos(1, 0)) && Arrived(e, 1, Pos(1, 0)) && e.results == st.results
    ensures At(e.nodes, Pos(1, 0)) == At(st.nodes, Pos(1, 0)) && At(st.nodes, Pos(1, 0)).root
    ensures !At(st.nodes, Pos(1, 0)).unbalanced
  {
    var a := Starting(c, st, 0);
    var d := Run(c, st, a);
    OnlyAtShaped(c, st, d, 0, Pos(0, 0));
    var b := Starting(c, d, 1);
    e := Run(c, d, b);
    s := a + b;
    RunThen(c, st, a, b);
    AncInTree(c.depth, 1, 1, 1);
    assert Anc(1, 0) == 1 && Anc(1, 1) == 0;
    RootHeightExact(1, 1);
    RootHeightExact(1, 0);
  }

  // ----- What is sent early does not depend on all of the data

  /** The chunks differ in segment `l` only, and not in its length. */
  ghost predicate Twins(c: Chunk, d: Chunk, l: nat) {
    && l < |c.segs| && d == c.(segs := c.segs[l := d.Seg(l)]) && |d.Seg(l)| == |c.Seg(l)|
  }

  /** The states differ at most in the value that goroutine `l` carries. */
  ghost predicate SameBut(st: State, e: State, l: nat) {
    && e == st.(gos := e.gos) && |e.gos| == |st.gos|
    && forall j: nat :: j < |st.gos| ==> e.gos[j] == if j == l then st.gos[j].(s := e.gos[j].s) else st.gos[j]
  }

  lemma {:induction false} TwinLaunch(c: Chunk, d: Chunk, st: State, e: State, l: nat, j: nat, x: nat)
    requires Twins(c, d, l) && SameBut(st, e, l) && j == |st.gos|
    ensures SameBut(st.(gos := st.gos + [Launch(c, j, x)]), e.(gos := e.gos + [Launch(d, j, x)]), l)
  {
    assert j != l ==> c.Seg(j) == d.Seg(j);
    assert Launch(d, j, x) == if j == l then Launch(c, j, x).(s := d.Seg(j)) else Launch(c, j, x);
  }

  lemma {:induction false} TwinWriter(c: Chunk, d: Chunk, st: State, e: State, l: nat)
    requires Twins(c, d, l) && SameBut(st, e, l) && WriterInv(c, st) && st.main != Waiting
    ensures SameBut(StepWriter(c, st), StepWriter(d, e), l)
  {
    TwinLaunch(c, d, st, e, l, |st.gos|, c.depth);
    if st.main.LaunchLast? { TwinLaunch(c, d, st, e, l, |st.gos|, st.main.d); }
    assert |c.Seg(l)| == |d.Seg(l)| && c.Last() == d.Last() && |c.Seg(c.Last())| == |d.Seg(c.Last())|;
  }

  lemma {:induction false} TwinWorker(c: Chunk, d: Chunk, st: State, e: State, l: nat, j: nat)
    requires Twins(c, d, l) && SameBut(st, e, l) && j != l && j < |st.gos| && st.gos[j].pc != Done
    ensures e.gos[j] == st.gos[j] && SameBut(StepWorker(c, st, j), StepWorker(d, e, j), l)
  {
    var st', e' := StepWorker(c, st, j), StepWorker(d, e, j);
    assert e.gos[j] == st.gos[j] && d.H == c.H;
    assert st' == st'.(gos := st.gos[j := st'.gos[j]]) && e' == e'.(gos := e.gos[j := e'.gos[j]]);
  }

  lemma {:induction false} TwinRun(c: Chunk, d: Chunk, z: Nodes, l: nat, s: seq<Actor>)
    requires c.Valid() && Twins(c, d, l) && Without(s, l)
    ensures WriterInv(c, Run(c, Init(z), s)) && SameBut(Run(c, Init(z), s), Run(d, Init(z), s), l)
    decreases |s|
  {
    if s != [] {
      var rest, a := s[..|s| - 1], s[|s| - 1];
      assert a in s && forall x <- rest :: x in s;
      TwinRun(c, d, z, l, rest);
      var st, e := Run(c, Init(z), rest), Run(d, Init(z), rest);
      if Enabled(st, a) {
        match a
        case Writer => TwinWriter(c, d, st, e, l); WriterKeeps(c, st);
        case Worker(j) => TwinWorker(c, d, st, e, l, j);
      }
    }
  }

  /** The length of a hash depends on the length of what is hashed only. */
  ghost predicate EvenLengths(H: Bytes -> Bytes) {
    forall x: Bytes, y: Bytes {:trigger EvenOn(H, x, y)} :: EvenOn(H, x, y)
  }

  ghost predicate EvenOn(H: Bytes -> Bytes, x: Bytes, y: Bytes) {
    |x| == |y| ==> |H(x)| == |H(y)|
  }

  /** Different byte strings of one length have different hashes. */
  ghost predicate CollisionFree(H: Bytes -> Bytes) {
    forall x: Bytes, y: Bytes {:trigger Apart(H, x, y)} :: Apart(H, x, y)
  }

  ghost predicate Apart(H: Bytes -> Bytes, x: Bytes, y: Bytes) {
    |x| == |y| && x != y ==> H(x) != H(y)
  }

  /** The node at height `h`, index `i` hashes something. */
  ghost predicate Hashes(c: Chunk, h: nat, i: nat) {
    i <= Anc(c.Last(), h) && if h == 0 then |c.Seg(i)| > c.size else 2 * i + 1 <= Anc(c.Last(), h - 1)
  }

  /** What it hashes. */
  ghost function Input(c: Chunk, h: nat, i: nat): Bytes {
    if h == 0 then c.Seg(i) else Val(c, h - 1, 2 * i) + Val(c, h - 1, 2 * i + 1)
  }

  /** Some node hashes different byte strings of one length in the two chunks, to the same hash. */
  ghost predicate Collide(c: Chunk, d: Chunk) {
    exists h: nat, i: nat {:trigger CollideAt(c, d, h, i)} :: CollideAt(c, d, h, i)
  }

  ghost predicate CollideAt(c: Chunk, d: Chunk, h: nat, i: nat) {
    && Hashes(c, h, i) && |Input(c, h, i)| == |Input(d, h, i)| && Input(c, h, i) != Input(d, h, i)
    && c.H(Input(c, h, i)) == c.H(Input(d, h, i))
  }

  ghost predicate Differ(c: Chunk, d: Chunk, h: nat, i: nat, differ: bool) {
    |Val(c, h, i)| == |Val(d, h, i)| && (Val(c, h, i) == Val(d, h, i) <==> !differ)
  }

  lemma {:induction false} TwinNode(c: Chunk, d: Chunk, h: nat, i: nat, left: bool, right: bool)
    requires h > 0 && c.H == d.H && EvenLengths(c.H) && c.Last() == d.Last() && i <= Anc(c.Last(), h)
    requires !CollideAt(c, d, h, i) && Differ(c, d, h - 1, 2 * i, left)
    requires if 2 * i + 1 <= Anc(c.Last(), h - 1) then Differ(c, d, h - 1, 2 * i + 1, right) else !right
    ensures Differ(c, d, h, i, left || right)
  {
    if 2 * i + 1 <= Anc(c.Last(), h - 1) {
      Pairs(Val(c, h - 1, 2 * i), Val(c, h - 1, 2 * i + 1), Val(d, h - 1, 2 * i), Val(d, h - 1, 2 * i + 1));
      assert Hashes(c, h, i) && |Input(c, h, i)| == |Input(d, h, i)|;
      assert EvenOn(c.H, Input(c, h, i), Input(d, h, i));
      assert Val(c, h, i) == c.H(Input(c, h, i)) && Val(d, h, i) == c.H(Input(d, h, i));
    }
  }

  lemma {:induction false} TwinLeaf(c: Chunk, d: Chunk, l: nat, i: nat)
    requires Twins(c, d, l) && c.Seg(l) != d.Seg(l) && EvenLengths(c.H) && i <= c.Last() && !CollideAt(c, d, 0, i)
    ensures Differ(c, d, 0, i, l == i)
  {
    assert i != l ==> c.Seg(i) == d.Seg(i);
    assert |c.Seg(i)| == |d.Seg(i)|;
    assert EvenOn(c.H, c.Seg(i), d.Seg(i));
    assert Anc(c.Last(), 0) == c.Last();
  }

  /** A node right below whose parent is not right of the final path is not right of it either. */
  lemma {:induction false} LeftChild(q: nat, h: nat, i: nat)
    requires h > 0 && i <= Anc(q, h)
    ensures 2 * i <= Anc(q, h - 1)
  {
  }

  /** No node shows a collision, and at the leaves just the values over segment `l` differ. */
  ghost predicate Diverge(c: Chunk, d: Chunk, l: nat) {
    && c.H == d.H && EvenLengths(c.H) && c.Last() == d.Last() && l <= c.Last()
    && (forall h: nat, i: nat {:trigger CollideAt(c, d, h, i)} :: !CollideAt(c, d, h, i))
    && forall j: nat {:trigger LeafDiffers(c, d, l, j)} :: j <= c.Last() ==> LeafDiffers(c, d, l, j)
  }

  ghost predicate LeafDiffers(c: Chunk, d: Chunk, l: nat, j: nat) {
    Differ(c, d, 0, j, l == j)
  }

  /** Then at every node just the values over segment `l` differ. */
  lemma {:induction false} TwinInner(c: Chunk, d: Chunk, l: nat, h: nat, i: nat)
    requires Diverge(c, d, l) && i <= Anc(c.Last(), h)
    ensures Differ(c, d, h, i, Anc(l, h) == i)
  {
    if h == 0 {
      assert LeafDiffers(c, d, l, i);
    } else {
      AncMono(l, c.Last(), h - 1);
      LeftChild(c.Last(), h, i);
      TwinInner(c, d, l, h - 1, 2 * i);
      if 2 * i + 1 <= Anc(c.Last(), h - 1) { TwinInner(c, d, l, h - 1, 2 * i + 1); }
      assert !CollideAt(c, d, h, i);
      TwinNode(c, d, h, i, Anc(l, h - 1) == 2 * i, Anc(l, h - 1) == 2 * i + 1);
    }
  }

  /** Unless there is a collision, the values over segment `l` differ and the others do not. */
  lemma {:induction false} TwinValues(c: Chunk, d: Chunk, l: nat, h: nat, i: nat)
    requires Twins(c, d, l) && c.Seg(l) != d.Seg(l) && EvenLengths(c.H) && !Collide(c, d)
    requires l <= c.Last() && i <= Anc(c.Last(), h)
    ensures Differ(c, d, h, i, Anc(l, h) == i)
  {
    assert d.Last() == c.Last();
    forall j: nat | j <= c.Last() ensures LeafDiffers(c, d, l, j) {
      assert !CollideAt(c, d, 0, j);
      TwinLeaf(c, d, l, j);
    }
    TwinInner(c, d, l, h, i);
  }

  lemma {:induction false} Pairs(a: Bytes, b: Bytes, x: Bytes, y: Bytes)
    requires |a| == |x|
    ensures a + b == x + y <==> a == x && b == y
  {
    if a + b == x + y {
      assert a == (a + b)[..|a|] && x == (x + y)[..|a|];
      assert b == (a + b)[|a|..] && y == (x + y)[|a|..];
    }
  }

  // ----- Exactly when a tree can be used

  /** Full double segments up to leaf `q`, number `l` of them filled with `x`. */
  function Filled(p: Pool, depth: nat, q: nat, l: nat, x: bv8): Chunk {
    Chunk(p.H, p.size, depth, seq(q + 1, j => seq(2 * p.size, _ => if j == l then x else 0)))
  }

  /** The last leaf and a leaf to be left behind for a node with a negative counter. */
  lemma {:induction false} Leaves(z: Nodes, depth: nat, v: Pos) returns (q: nat, l: nat)
    requires InTree(depth, v) && v.h > 0 && At(z, v).state < 0
    ensures q == Joining(v) && l < q && Anc(q, depth) == 0 && v.h - 1 < RootHeight(q)
    ensures Anc(q, v.h - 1) == 2 * v.i + 1 && Anc(l, v.h - 1) == 2 * v.i
  {
    var k := v.h - 1;
    q, l := Joining(v), FirstLeaf(k, 2 * v.i);
    FirstLeafAnc(k, 2 * v.i);
    FirstLeafAnc(k, 2 * v.i + 1);
    if q <= l { AncMono(q, l, k); }
    assert Anc(q, v.h) == v.i;
    AncAnc(q, v.h, depth - v.h);
    RootHeightExact(q, k);
  }

  lemma {:induction false} FilledDoubles(p: Pool, depth: nat, q: nat, l: nat, x: bv8)
    requires p.size > 0 && l < q && depth > 0 && Anc(q, depth) == 0
    ensures Doubles(Filled(p, depth, q, l, x)) && Filled(p, depth, q, l, x).Last() == q
    ensures Cuts(p, depth, Filled(p, depth, q, l, x))
  {
  }

  lemma {:induction false} FilledTwins(p: Pool, depth: nat, q: nat, l: nat)
    requires p.size > 0 && EvenLengths(p.H) && l < q && depth > 0 && Anc(q, depth) == 0
    ensures var c, d := Filled(p, depth, q, l, 0), Filled(p, depth, q, l, 1);
            Twins(c, d, l) && (Collide(c, d) || RootVal(c) != RootVal(d))
  {
    var c, d := Filled(p, depth, q, l, 0), Filled(p, depth, q, l, 1);
    assert d.segs == c.segs[l := d.Seg(l)];
    assert c.Seg(l)[0] != d.Seg(l)[0];
    AncMono(l, q, depth);
    if !Collide(c, d) { TwinValues(c, d, l, depth, 0); }
  }

  /**
  A negative counter, with those of all nodes that join less data not negative, spoils one of two
  chunks that end where its node joins, unless these two show a collision of the base hash.
  */
  lemma {:induction false} Spoils(p: Pool, z: Nodes, depth: nat, v: Pos) returns (c: Chunk, d: Chunk, s: seq<Actor>)
    requires p.size > 0 && EvenLengths(p.H)
    requires Clean(z, depth) && InTree(depth, v) && v.h > 0 && At(z, v).state < 0 && TameBefore(z, depth, Joining(v))
    ensures Cuts(p, depth, c) && Cuts(p, depth, d)
    ensures |Run(c, Init(z), s).results| == 1 && Run(c, Init(z), s).results == Run(d, Init(z), s).results
    ensures Collide(c, d) || RootVal(c) != RootVal(d)
  {
    var q, l := Leaves(z, depth, v);
    c, d := Filled(p, depth, q, l, 0), Filled(p, depth, q, l, 1);
    FilledDoubles(p, depth, q, l, 0);
    FilledDoubles(p, depth, q, l, 1);
    FilledTwins(p, depth, q, l);
    assert Anc(q, v.h) == v.i;
    s := SentEarly(c, z, l, v.h - 1);
    TwinRun(c, d, z, l, s);
  }

  /** Among the nodes with a negative counter, one that joins the least data. */
  lemma {:induction false} LeastNegative(z: Nodes, depth: nat, v: Pos) returns (w: Pos)
    requires Clean(z, depth) && EvenCounters(z, depth) && InTree(depth, v) && v.h > 0 && At(z, v).state < 0
    ensures InTree(depth, w) && w.h > 0 && At(z, w).state < 0 && TameBefore(z, depth, Joining(w))
    decreases Joining(v)
  {
    if u: Pos :| InTree(depth, u) && u.h > 0 && Joining(u) < Joining(v) && At(z, u).state < 0 {
      w := LeastNegative(z, depth, u);
    } else {
      w := v;
    }
  }

  /** A clean tree without negative inner counters serves every chunk, whatever the base hash. */
  lemma {:induction false} TameServes(p: Pool, z: Nodes, depth: nat)
    requires Clean(z, depth) && EvenCounters(z, depth)
    requires forall v :: InTree(depth, v) && v.h > 0 ==> At(z, v).state >= 0
    ensures Serves(p, z, depth)
  {
    forall v | InTree(depth, v) && v.h > 0 ensures MeetsTwo(z[v].state) { MeetsTwoExact(z[v].state); }
    forall c: Chunk, s: seq<Actor> | Cuts(p, depth, c)
      ensures Run(c, Init(z), s).results == [] || Run(c, Init(z), s).results == [RootVal(c)]
    {
      var own := RunInv(c, z, s);
    }
  }

  lemma {:induction false} NoCollision(p: Pool, c: Chunk, d: Chunk)
    requires CollisionFree(p.H) && c.H == p.H
    ensures !Collide(c, d)
  {
    forall h: nat, i: nat ensures !CollideAt(c, d, h, i) { assert Apart(p.H, Input(c, h, i), Input(d, h, i)); }
  }

  /**
  For every hasher with a collision-free base hash: a clean tree with even counters serves every
  chunk exactly when no inner counter is negative.
  */
  lemma {:induction false} ServesIff(p: Pool, z: Nodes, depth: nat)
    requires p.size > 0 && EvenLengths(p.H) && CollisionFree(p.H) && Clean(z, depth) && EvenCounters(z, depth)
    ensures Serves(p, z, depth) <==> forall v :: InTree(depth, v) && v.h > 0 ==> At(z, v).state >= 0
  {
    if v :| InTree(depth, v) && v.h > 0 && At(z, v).state < 0 {
      var w := LeastNegative(z, depth, v);
      var c, d, s := Spoils(p, z, depth, w);
      assert Cuts(p, depth, c) && Cuts(p, depth, d);
      NoCollision(p, c, d);
      assert Run(c, Init(z), s).results != [RootVal(c)] || Run(d, Init(z), s).results != [RootVal(d)];
    } else {
      TameServes(p, z, depth);
    }
  }

  /** So a released tree serves the next chunk exactly until an inner counter has wrapped. */
  lemma {:induction false} ReusableIff(p: Pool, z: Nodes, nodes: Nodes, depth: nat)
    requires p.size > 0 && EvenLengths(p.H) && CollisionFree(p.H)
    requires Ready(z, depth) && EvenCounters(z, depth) && CleanAfter(z, nodes, depth)
    ensures Clean(nodes, depth) && EvenCounters(nodes, depth)
    ensures Serves(p, nodes, depth) <==> forall v :: InTree(depth, v) && v.h > 0 ==> At(nodes, v).state >= 0
  {
    ServesIff(p, nodes, depth);
  }
}
