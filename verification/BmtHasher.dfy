/**
The concurrent hasher. A writer launches one goroutine per double segment; each climbs
the tree, and of the two that meet at a node the first stops and the second goes on. The
writer and the goroutines interleave freely: a run is any schedule of their single steps.
*/
module BmtHasher {
  import opened BmtTree

  // ----- State

  /** A tree node by height above the leaves and index in its level. */
  datatype Pos = Pos(h: nat, i: nat)

  datatype Node = Node(left: Bytes, right: Bytes, state: int, unbalanced: bool, root: bool)

  type Nodes = map<Pos, Node>

  datatype Pc = Start | Write | Check | Toggle | Combine | Deliver | Done

  /** A goroutine: what it does next, the node it works on, and the value it carries. */
  datatype Go = Go(pc: Pc, at: Pos, isLeft: bool, n: nat, d: nat, s: Bytes)

  /** The writer: launching segments, walking the final path, launching the last segment, waiting. */
  datatype Main = Launching | Finalising(at: Pos, isLeft: bool, d: nat) | LaunchLast(d: nat) | Waiting

  /** `results` are the values sent on the result channel. */
  datatype State = State(nodes: Nodes, gos: seq<Go>, main: Main, results: seq<Bytes>)

  datatype Actor = Writer | Worker(j: nat)

  function At(nodes: Nodes, v: Pos): Node {
    if v in nodes then nodes[v] else Node([], [], 0, false, false)
  }

  // ----- The toggle on a 32-bit counter

  /** Atomic increment of an int32. */
  function Add32(x: int): int {
    if x == 0x7fff_ffff then -0x8000_0000 else x + 1
  }

  /** The source's test `x % 2 == 1`, whose remainder is -1 for negative odd `x`. */
  predicate Waits(x: int) {
    x > 0 && x % 2 == 1
  }

  /** Of two visitors the first waits and the second goes on. */
  predicate MeetsTwo(state: int) {
    Waits(Add32(state)) && !Waits(Add32(Add32(state)))
  }

  // ----- Steps

  function Launch(c: Chunk, j: nat, d: nat): Go {
    if |c.Seg(j)| > c.size && c.depth > 0 then Go(Start, Pos(0, j), true, j, d, c.Seg(j))
    else Go(Write, Pos(0, j), true, 2 * j, d, c.Seg(j))
  }

  /** The height at which the writer starts to walk the final path. */
  function PathStart(c: Chunk): nat {
    if |c.Seg(c.Last())| > c.size && c.Last() > 0 && c.depth > 0 then 1 else 0
  }

  function StepWriter(c: Chunk, st: State): State
    requires st.main != Waiting
  {
    match st.main
    case Launching =>
      if |st.gos| < c.Last() then st.(gos := st.gos + [Launch(c, |st.gos|, c.depth)])
      else if PathStart(c) == 1 then st.(main := Finalising(Pos(1, c.Last() / 2), c.Last() % 2 == 0, 0))
      else st.(main := Finalising(Pos(0, c.Last()), true, 0))
    case Finalising(v, isLeft, d) =>
      var n := At(st.nodes, v).(unbalanced := isLeft, right := []);
      if v.i == 0 then st.(nodes := st.nodes[v := n.(root := true)], main := LaunchLast(d))
      else st.(nodes := st.nodes[v := n], main := Finalising(Pos(v.h + 1, v.i / 2), v.i % 2 == 0, d + 1))
    case LaunchLast(d) =>
      st.(gos := st.gos + [Launch(c, c.Last(), d)], main := Waiting)
  }

  /** Hand `s` on from the node of goroutine `j`: to the result channel at a root, else to the parent. */
  function Emit(st: State, j: nat, n: nat, s: Bytes): State
    requires j < |st.gos|
  {
    var g := st.gos[j];
    if At(st.nodes, g.at).root then
      st.(results := st.results + [s], gos := st.gos[j := g.(pc := Done)])
    else
      st.(gos := st.gos[j := Go(Write, Pos(g.at.h + 1, g.at.i / 2), g.at.i % 2 == 0, n, g.d, s)])
  }

  /** The value a goroutine makes of the two sides of its node. */
  function Combination(c: Chunk, g: Go, n: Node): Bytes {
    if !n.unbalanced || !g.isLeft || (g.n == 0 && g.d == 0) then c.H(n.left + n.right) else n.left + n.right
  }

  function StepWorker(c: Chunk, st: State, j: nat): State
    requires j < |st.gos| && st.gos[j].pc != Done
  {
    var g := st.gos[j];
    var v := g.at;
    var n := At(st.nodes, v);
    match g.pc
    case Start =>
      Emit(st, j, g.n, c.H(g.s))
    case Write =>
      st.(nodes := st.nodes[v := if g.isLeft then n.(left := g.s) else n.(right := g.s)],
          gos := st.gos[j := g.(pc := Check)])
    case Check =>
      st.(gos := st.gos[j := g.(pc := if n.unbalanced then Combine else Toggle)])
    case Toggle =>
      var t := Add32(n.state);
      st.(nodes := st.nodes[v := n.(state := t)],
          gos := st.gos[j := g.(pc := if Waits(t) then Done else Combine)])
    case Combine =>
      st.(gos := st.gos[j := g.(pc := Deliver, s := Combination(c, g, n))])
    case Deliver =>
      Emit(st, j, g.n + 1, g.s)
  }

  predicate Enabled(st: State, a: Actor) {
    match a
    case Writer => st.main != Waiting
    case Worker(j) => j < |st.gos| && st.gos[j].pc != Done
  }

  function Step(c: Chunk, st: State, a: Actor): State
    requires Enabled(st, a)
  {
    match a
    case Writer => StepWriter(c, st)
    case Worker(j) => StepWorker(c, st, j)
  }

  /** The state after the actors of `schedule` have moved in turn; an actor that cannot move is passed over. */
  function Run(c: Chunk, st: State, schedule: seq<Actor>): State
    decreases |schedule|
  {
    if schedule == [] then st
    else
      var a := schedule[|schedule| - 1];
      var prev := Run(c, st, schedule[..|schedule| - 1]);
      if Enabled(prev, a) then Step(c, prev, a) else prev
  }

  // ----- A tree ready for a chunk

  /** The nodes of a tree of `depth` levels above the leaves. */
  predicate InTree(depth: nat, v: Pos) {
    v.h <= depth && Anc(v.i, depth - v.h) == 0
  }

  /** Every counter is an int32, no node is unbalanced, and only the top is a root. */
  ghost predicate Clean(nodes: Nodes, depth: nat) {
    forall v :: InTree(depth, v) ==>
      v in nodes && -0x8000_0000 <= nodes[v].state <= 0x7fff_ffff
      && !nodes[v].unbalanced && (nodes[v].root <==> v == Pos(depth, 0))
  }

  /** A clean tree whose inner nodes meet two visitors. */
  ghost predicate Ready(nodes: Nodes, depth: nat) {
    Clean(nodes, depth) && forall v :: InTree(depth, v) && v.h > 0 ==> MeetsTwo(nodes[v].state)
  }

  /** The hasher at the start of a chunk. */
  function Init(nodes: Nodes): State {
    State(nodes, [], Launching, [])
  }

  // ----- Building the tree

  /** The number of levels above the leaves for `n` segments: just enough to join all leaves. */
  method Depth(n: nat) returns (d: nat)
    ensures n > 0 ==> Anc((n - 1) / 2, d) == 0 && (d > 0 ==> Anc((n - 1) / 2, d - 1) > 0)
    ensures n == 0 ==> d == 0
  {
    d := 0;
    if n == 0 { return; }
    var l := (n - 1) / 2;
    while l > 0
      invariant l == Anc((n - 1) / 2, d) && (d > 0 ==> Anc((n - 1) / 2, d - 1) > 0)
      decreases l
    {
      l := l / 2;
      d := d + 1;
    }
  }

  /** Build the levels from the top down; `count` is the number of nodes in the current level. */
  method NewTree(depth: nat) returns (nodes: Nodes)
    ensures Ready(nodes, depth)
    ensures forall v <- nodes :: nodes[v].state == 0
  {
    nodes := map[Pos(depth, 0) := Node([], [], 0, false, true)];
    var level, count := depth, 1;
    ghost var up := 0;
    while level > 0
      invariant 0 <= level <= depth && up == depth - level
      invariant forall i: nat :: Anc(i, up) == 0 <==> i < count
      invariant forall v: Pos :: v.h >= level && InTree(depth, v) ==> v in nodes
      invariant forall v <- nodes :: nodes[v] == Node([], [], 0, false, v == Pos(depth, 0))
    {
      level, count, up := level - 1, count * 2, up + 1;
      forall i: nat ensures Anc(i, up) == 0 <==> i < count { AncHalf(i, up); }
      nodes := nodes + map i: nat | i < count :: Pos(level, i) := Node([], [], 0, false, false);
    }
  }

  lemma {:induction false} AncHalf(l: nat, h: nat)
    requires h > 0
    ensures Anc(l, h) == Anc(l / 2, h - 1)
  {
    if h > 1 { AncHalf(l, h - 1); }
  }
}
