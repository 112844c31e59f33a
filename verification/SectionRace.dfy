/**
A failed reset in the chain indexer (core/chain_indexer.go): the rollback to zero sections runs
without the lock, beside the notifications, which hold it. Both go through the same loop,
setValidSections, on the same fields. A step here is one access of that loop to a field or to the
database, so that lowering the count and dropping a head take two each; a schedule says which of the
two threads takes the next step.
*/
module SectionRace {
  import opened Ancestry
  import opened SectionIndex
  import opened Wrappers

  /** The stored count in memory, the persisted count and the persisted heads. */
  datatype Index = Index(stored: nat, count: Option<nat>, heads: map<nat, Hash>)

  /** The next step of a thread on its way to `k` sections; `was` and `at` are what it has read of the count. */
  datatype Place =
    | Idle
    | PutCount(k: nat)
    | Test(k: nat)
    | Load(k: nat)
    | Lower(k: nat, was: nat)
    | Pick(k: nat)
    | Drop(k: nat, at: nat)
    | SetStored(k: nat)

  /** The rollback and the notification at work, and the notifications still to come. */
  datatype Race = Race(index: Index, rollback: Place, notice: Place, todo: seq<Note>)

  ghost predicate Sound(size: nat, x: Index) {
    IndexOk(size, x.stored, x.count, x.heads)
  }

  /** The effect of a step on the index; lowering a zero count wraps. */
  function Effect(x: Index, p: Place): Index {
    match p
    case PutCount(k) => x.(count := Some(k))
    case Lower(_, was) => x.(stored := if was == 0 then UINT64_MAX else was - 1)
    case Drop(_, at) => x.(heads := x.heads - {at})
    case SetStored(k) => x.(stored := k)
    case _ => x
  }

  function Next(x: Index, p: Place): Place {
    match p
    case PutCount(k) => Test(k)
    case Test(k) => if x.stored > k then Load(k) else SetStored(k)
    case Load(k) => Lower(k, x.stored)
    case Lower(k, _) => Pick(k)
    case Pick(k) => Drop(k, x.stored)
    case Drop(k, _) => Test(k)
    case _ => Idle
  }

  /** A reorg that reaches below the stored sections is the only notification to change the index. */
  function Entry(size: nat, x: Index, note: Note): Place
    requires size > 0
  {
    if note.reorg && note.head / size < x.stored then PutCount(note.head / size) else Idle
  }

  /** One step, of the rollback if `roll`, else of the notifications. */
  function Step(size: nat, r: Race, roll: bool): Race
    requires size > 0
  {
    if roll then r.(index := Effect(r.index, r.rollback), rollback := Next(r.index, r.rollback))
    else if r.notice != Idle then r.(index := Effect(r.index, r.notice), notice := Next(r.index, r.notice))
    else if r.todo == [] then r
    else r.(notice := Entry(size, r.index, r.todo[0]), todo := r.todo[1..])
  }

  ghost function Run(size: nat, r: Race, schedule: seq<bool>): Race
    requires size > 0
    decreases |schedule|
  {
    if schedule == [] then r else Run(size, Step(size, r, schedule[0]), schedule[1..])
  }

  function Start(x: Index, notes: seq<Note>): Race {
    Race(x, PutCount(0), Idle, notes)
  }

  /** Both threads are done, and the lock is free for the updater. */
  predicate Over(r: Race) {
    r.rollback == Idle && r.notice == Idle && r.todo == []
  }

  lemma {:induction false} RunThen(size: nat, r: Race, a: seq<bool>, b: seq<bool>)
    requires size > 0
    ensures Run(size, r, a + b) == Run(size, Run(size, r, a), b)
    decreases |a|
  {
    if a == [] {
      assert a + b == b;
    } else {
      assert (a + b)[1..] == a[1..] + b;
      RunThen(size, Step(size, r, a[0]), a[1..], b);
    }
  }

  lemma {:induction false} RunOne(size: nat, r: Race, roll: bool, b: seq<bool>)
    requires size > 0
    ensures Run(size, r, [roll] + b) == Run(size, Step(size, r, roll), b)
  {
    assert ([roll] + b)[1..] == b;
  }

  lemma {:induction false} RunTwo(size: nat, r: Race, roll: bool, b: seq<bool>)
    requires size > 0
    ensures Run(size, r, [roll] + ([roll] + b)) == Run(size, Step(size, Step(size, r, roll), roll), b)
  {
    RunOne(size, Step(size, r, roll), roll, b);
    RunOne(size, r, roll, [roll] + b);
  }

  lemma {:induction false} RunFour(size: nat, r: Race, roll: bool, b: seq<bool>)
    requires size > 0
    ensures Run(size, r, [roll] + ([roll] + ([roll] + ([roll] + b))))
            == Run(size, Step(size, Step(size, Step(size, Step(size, r, roll), roll), roll), roll), b)
  {
    RunTwo(size, Step(size, Step(size, r, roll), roll), roll, b);
    RunTwo(size, r, roll, [roll] + ([roll] + b));
  }

  // ----- One thread alone

  /** Lowering the count and dropping the head below it, undisturbed. */
  lemma {:induction false} RollbackRound(size: nat, r: Race, b: seq<bool>)
    requires size > 0 && r.rollback.Load? && r.index.stored <= UINT64_MAX
    ensures var x := r.index;
            var n := if x.stored == 0 then UINT64_MAX else x.stored - 1;
            Run(size, r, [true] + ([true] + ([true] + ([true] + b))))
            == Run(size, r.(rollback := Test(r.rollback.k), index := x.(stored := n, heads := x.heads - {n})), b)
  {
    RunFour(size, r, true, b);
  }

  lemma {:induction false} NoticeRound(size: nat, r: Race, b: seq<bool>)
    requires size > 0 && r.notice.Load? && r.index.stored > 0
    ensures var x := r.index;
            var n := x.stored - 1;
            Run(size, r, [false] + ([false] + ([false] + ([false] + b))))
            == Run(size, r.(notice := Test(r.notice.k), index := x.(stored := n, heads := x.heads - {n})), b)
  {
    RunFour(size, r, false, b);
  }

  /** The rollback left alone ends with all heads above `k` dropped, whatever count was written. */
  lemma {:induction false} RollbackAlone(size: nat, r: Race) returns (s: seq<bool>)
    requires size > 0 && r.rollback.Test? && r.rollback.k <= r.index.stored <= UINT64_MAX
    ensures var k, x := r.rollback.k, r.index;
            Run(size, r, s) == r.(rollback := Idle, index := x.(stored := k, heads := Cut(x.heads, k, x.stored)))
    decreases r.index.stored
  {
    var k, x := r.rollback.k, r.index;
    if x.stored == k {
      assert Cut(x.heads, k, k) == x.heads;
      s := [true] + ([true] + []);
      RunTwo(size, r, true, []);
    } else {
      var n := x.stored - 1;
      var t := RollbackAlone(size, r.(index := x.(stored := n, heads := x.heads - {n})));
      assert Cut(x.heads - {n}, k, n) == Cut(x.heads, k, x.stored);
      var four := [true] + ([true] + ([true] + ([true] + t)));
      s := [true] + four;
      RunOne(size, r, true, four);
      RollbackRound(size, Step(size, r, true), t);
    }
  }

  /** So does a notification left alone. */
  lemma {:induction false} NoticeAlone(size: nat, r: Race) returns (s: seq<bool>)
    requires size > 0 && r.notice.Test? && r.notice.k <= r.index.stored
    ensures var k, x := r.notice.k, r.index;
            Run(size, r, s) == r.(notice := Idle, index := x.(stored := k, heads := Cut(x.heads, k, x.stored)))
    decreases r.index.stored
  {
    var k, x := r.notice.k, r.index;
    if x.stored == k {
      assert Cut(x.heads, k, k) == x.heads;
      s := [false] + ([false] + []);
      RunTwo(size, r, false, []);
    } else {
      var n := x.stored - 1;
      var t := NoticeAlone(size, r.(index := x.(stored := n, heads := x.heads - {n})));
      assert Cut(x.heads - {n}, k, n) == Cut(x.heads, k, x.stored);
      var four := [false] + ([false] + ([false] + ([false] + t)));
      s := [false] + four;
      RunOne(size, r, false, four);
      NoticeRound(size, Step(size, r, false), t);
    }
  }

  /** A reorg taken up while the rollback waits leaves its own section count everywhere. */
  lemma {:induction false} Reorg(size: nat, r: Race) returns (s: seq<bool>)
    requires size > 0 && r.notice == Idle && r.todo != [] && r.todo[0].reorg && r.todo[0].head / size < r.index.stored
    ensures var k := r.todo[0].head / size;
            Run(size, r, s)
            == r.(todo := r.todo[1..], index := Index(k, Some(k), Cut(r.index.heads, k, r.index.stored)))
  {
    var r1 := Step(size, r, false);
    var r2 := Step(size, r1, false);
    var t := NoticeAlone(size, r2);
    s := [false] + ([false] + t);
    RunOne(size, r1, false, t);
    RunOne(size, r, false, [false] + t);
  }

  /** With nothing stored the remaining notifications change nothing. */
  lemma {:induction false} Drain(size: nat, r: Race) returns (s: seq<bool>)
    requires size > 0 && r.notice == Idle && r.index.stored == 0
    ensures Run(size, r, s) == r.(todo := [])
    decreases |r.todo|
  {
    s := [];
    if r.todo != [] {
      var t := Drain(size, Step(size, r, false));
      s := [false] + t;
      RunOne(size, r, false, t);
    }
  }

  /** The rest of a race in which the rollback has seen or will see a positive count last. */
  lemma {:induction false} Ending(size: nat, r: Race) returns (s: seq<bool>)
    requires size > 0 && r.rollback == Test(0) && r.notice == Idle && r.index.stored <= UINT64_MAX
    ensures Run(size, r, s) == Race(Index(0, r.index.count, Cut(r.index.heads, 0, r.index.stored)), Idle, Idle, [])
  {
    var a := RollbackAlone(size, r);
    var b := Drain(size, Run(size, r, a));
    s := a + b;
    RunThen(size, r, a, b);
  }

  // ----- Which notifications the rollback survives

  /** No reorg reaches below section `s`. */
  predicate Quiet(size: nat, s: nat, notes: seq<Note>)
    requires size > 0
  {
    forall n <- notes :: n.reorg ==> s <= n.head / size
  }

  /** Every reorg reaches section 0, or none that a 64-bit count can hold. */
  predicate OnlyZero(size: nat, notes: seq<Note>)
    requires size > 0
  {
    forall n <- notes :: n.reorg ==> n.head / size == 0 || n.head / size >= UINT64_MAX
  }

  /** After the first reorg that reaches section 0 only such ones follow. */
  predicate ThenOnlyZero(size: nat, notes: seq<Note>)
    requires size > 0
  {
    notes == []
    || if notes[0].reorg && notes[0].head / size == 0 then OnlyZero(size, notes[1..])
       else ThenOnlyZero(size, notes[1..])
  }

  /** What a caller can tell beforehand about a rollback from `stored` sections beside these notifications. */
  predicate Harmless(size: nat, stored: nat, notes: seq<Note>)
    requires size > 0
  {
    if stored == 1 then ThenOnlyZero(size, notes) else Quiet(size, stored, notes)
  }

  // ----- Harmless: every schedule empties the index

  /** The rollback works its way down undisturbed. */
  ghost predicate Calm(size: nat, top: nat, heads: map<nat, Hash>, r: Race)
    requires size > 0
  {
    var x := r.index;
    && r.notice == Idle && Quiet(size, top, r.todo) && x.stored <= top
    && (r.rollback != Idle ==> r.rollback.k == 0)
    && (r.rollback.PutCount? || x.count == Some(0))
    && (r.rollback.Load? ==> x.stored > 0) && (r.rollback.Lower? ==> r.rollback.was == x.stored > 0)
    && (r.rollback.Pick? || r.rollback.Drop? ==> x.stored < top) && (r.rollback.Drop? ==> r.rollback.at == x.stored)
    && (r.rollback.SetStored? || r.rollback == Idle ==> x.stored == 0)
    && x.heads == Cut(heads, if r.rollback.Pick? || r.rollback.Drop? then x.stored + 1 else x.stored, top)
  }

  lemma {:induction false} CalmStep(size: nat, top: nat, heads: map<nat, Hash>, r: Race, roll: bool)
    requires size > 0 && Calm(size, top, heads, r)
    ensures Calm(size, top, heads, Step(size, r, roll))
  {
    var x := r.index;
    if roll && r.rollback.Drop? {
      assert Cut(heads, x.stored + 1, top) - {x.stored} == Cut(heads, x.stored, top);
    }
  }

  lemma {:induction false} CalmRun(size: nat, top: nat, heads: map<nat, Hash>, r: Race, s: seq<bool>)
    requires size > 0 && Calm(size, top, heads, r)
    ensures Calm(size, top, heads, Run(size, r, s))
    decreases |s|
  {
    if s != [] {
      CalmStep(size, top, heads, r, s[0]);
      CalmRun(size, top, heads, Step(size, r, s[0]), s[1..]);
    }
  }

  /** A thread about to drop head 0, unless another one changes the count first. */
  predicate AtZero(x: Index, p: Place) {
    (p.Pick? && x.stored == 0) || (p.Drop? && p.at == 0)
  }

  predicate AimsAtZero(p: Place) {
    (p != Idle ==> p.k == 0) && (p.Lower? ==> p.was <= UINT64_MAX)
  }

  /**
  With one stored section both threads go to zero. A thread that has seen zero leaves head 0
  behind only to a thread that is about to drop it.
  */
  ghost predicate Lone(size: nat, r: Race)
    requires size > 0
  {
    var x, there := r.index, 0 in r.index.heads;
    && AimsAtZero(r.rollback) && AimsAtZero(r.notice)
    && x.heads.Keys <= {0} && x.stored <= UINT64_MAX && (r.rollback.PutCount? || x.count == Some(0))
    && (there && x.stored == 0 ==> AtZero(x, r.rollback) || AtZero(x, r.notice))
    && (there && r.notice.SetStored? ==> AtZero(x, r.rollback))
    && (there && (r.rollback.SetStored? || r.rollback == Idle) ==> AtZero(x, r.notice))
    && (r.rollback == Idle && x.stored != 0 ==> r.notice != Idle)
    && (OnlyZero(size, r.todo)
        || (ThenOnlyZero(size, r.todo) && r.notice == Idle && x.stored <= 1
            && (r.rollback.Load? ==> x.stored == 1) && (r.rollback.Lower? ==> r.rollback.was == 1)))
  }

  lemma {:induction false} LoneStep(size: nat, r: Race, roll: bool)
    requires size > 0 && Lone(size, r)
    ensures Lone(size, Step(size, r, roll))
  {
  }

  lemma {:induction false} LoneRun(size: nat, r: Race, s: seq<bool>)
    requires size > 0 && Lone(size, r)
    ensures Lone(size, Run(size, r, s))
    decreases |s|
  {
    if s != [] {
      LoneStep(size, r, s[0]);
      LoneRun(size, Step(size, r, s[0]), s[1..]);
    }
  }

  lemma {:induction false} Emptied(size: nat, x: Index, notes: seq<Note>, s: seq<bool>)
    requires size > 0 && Sound(size, x) && Harmless(size, x.stored, notes) && Over(Run(size, Start(x, notes), s))
    ensures Run(size, Start(x, notes), s).index == Index(0, Some(0), map[])
  {
    if x.stored == 1 {
      LoneRun(size, Start(x, notes), s);
      assert Run(size, Start(x, notes), s).index.heads == map[];
    } else {
      assert x.heads == Cut(x.heads, x.stored, x.stored);
      CalmRun(size, x.stored, x.heads, Start(x, notes), s);
      assert Cut(x.heads, 0, x.stored) == map[];
    }
  }

  // ----- Not harmless: some schedule leaves the index broken

  /** A reorg to a section above 0 writes its count over that of the rollback, which then drops everything. */
  lemma {:induction false} Overwritten(size: nat, r: Race) returns (s: seq<bool>)
    requires size > 0 && r.rollback == Test(0) && r.notice == Idle && r.index.stored <= UINT64_MAX
    requires r.todo != [] && r.todo[0].reorg && r.todo[0].head / size < r.index.stored
    ensures Over(Run(size, r, s))
    ensures var x := Run(size, r, s).index; x.stored == 0 && x.count == Some(r.todo[0].head / size)
  {
    var a := Reorg(size, r);
    var b := Ending(size, Run(size, r, a));
    s := a + b;
    RunThen(size, r, a, b);
  }

  lemma {:induction false} Lowered(size: nat, x: Index, todo: seq<Note>) returns (s: seq<bool>)
    requires size > 0 && x.stored > 0
    ensures Run(size, Start(x, todo), s) == Race(x.(count := Some(0), stored := x.stored - 1), Pick(0), Idle, todo)
  {
    s := [true] + ([true] + ([true] + ([true] + [])));
    RunFour(size, Start(x, todo), true, []);
  }

  lemma {:induction false} BothLowered(size: nat, r: Race) returns (s: seq<bool>)
    requires size > 0 && r.rollback == Pick(0) && r.notice == Idle && r.index.stored > 0
    requires r.todo != [] && r.todo[0].reorg && r.todo[0].head / size == 0
    ensures Run(size, r, s)
            == Race(r.index.(count := Some(0), stored := r.index.stored - 1), Pick(0), Pick(0), r.todo[1..])
  {
    var four := [false] + ([false] + ([false] + ([false] + [])));
    s := [false] + four;
    RunOne(size, r, false, four);
    RunFour(size, Step(size, r, false), false, []);
  }

  /** Both then drop the same head, and go on down from it. */
  lemma {:induction false} BothDropped(size: nat, r: Race) returns (s: seq<bool>)
    requires size > 0 && r.rollback == Pick(0) && r.notice == Pick(0) && r.index.stored <= UINT64_MAX
    ensures var x := r.index;
            Run(size, r, s) == Race(Index(0, x.count, Cut(x.heads, 0, x.stored + 1)), Idle, Idle, [])
  {
    var x := r.index;
    var r1 := Step(size, Step(size, r, true), true);
    var r2 := Step(size, Step(size, r1, false), false);
    assert r2 == Race(x.(heads := x.heads - {x.stored}), Test(0), Test(0), r.todo);
    var t := NoticeAlone(size, r2);
    var u := Ending(size, Run(size, r2, t));
    assert Cut(Cut(x.heads - {x.stored}, 0, x.stored), 0, 0) == Cut(x.heads, 0, x.stored + 1);
    s := [true] + ([true] + ([false] + ([false] + (t + u))));
    RunThen(size, r2, t, u);
    RunTwo(size, r1, false, t + u);
    RunTwo(size, r, true, [false] + ([false] + (t + u)));
  }

  /** Two threads that lower the count one after the other both drop the lower head, and the upper one stays. */
  lemma {:induction false} Skipped(size: nat, x: Index, todo: seq<Note>) returns (s: seq<bool>)
    requires size > 0 && 2 <= x.stored <= UINT64_MAX && x.stored - 1 in x.heads
    requires todo != [] && todo[0].reorg && todo[0].head / size == 0
    ensures var e := Run(size, Start(x, todo), s);
            Over(e) && e.index.stored == 0 && x.stored - 1 in e.index.heads
  {
    var a := Lowered(size, x, todo);
    var r := Run(size, Start(x, todo), a);
    var b := BothLowered(size, r);
    var c := BothDropped(size, Run(size, r, b));
    s := a + (b + c);
    RunThen(size, r, b, c);
    RunThen(size, Start(x, todo), a, b + c);
  }

  lemma {:induction false} BrokenMany(size: nat, x: Index, notes: seq<Note>) returns (s: seq<bool>)
    requires size > 0 && Sound(size, x) && 2 <= x.stored <= UINT64_MAX && !Quiet(size, x.stored, notes)
    ensures Over(Run(size, Start(x, notes), s)) && !Sound(size, Run(size, Start(x, notes), s).index)
    decreases |notes|
  {
    var r := Start(x, notes);
    if !(notes[0].reorg && notes[0].head / size < x.stored) {
      var t := BrokenMany(size, x, notes[1..]);
      s := [false] + t;
      RunOne(size, r, false, t);
    } else if notes[0].head / size == 0 {
      s := Skipped(size, x, notes);
    } else {
      var t := Overwritten(size, Step(size, r, true));
      s := [true] + t;
      RunOne(size, r, true, t);
    }
  }

  /** Lowered to zero by another thread after it saw one section, the count wraps, and any reorg reaches below it. */
  lemma {:induction false} BrokenWrapped(size: nat, r: Race) returns (s: seq<bool>)
    requires size > 0 && r.rollback == Load(0) && r.notice == Idle && r.index.stored == 0 && !OnlyZero(size, r.todo)
    ensures Over(Run(size, r, s)) && !Sound(size, Run(size, r, s).index)
    decreases |r.todo|
  {
    var n := r.todo[0];
    if n.reorg && 0 < n.head / size < UINT64_MAX {
      var x := r.index.(stored := UINT64_MAX, heads := r.index.heads - {UINT64_MAX});
      var t := Overwritten(size, r.(rollback := Test(0), index := x));
      s := [true] + ([true] + ([true] + ([true] + t)));
      RollbackRound(size, r, t);
    } else {
      var t := BrokenWrapped(size, Step(size, r, false));
      s := [false] + t;
      RunOne(size, r, false, t);
    }
  }

  lemma {:induction false} BrokenOne(size: nat, r: Race) returns (s: seq<bool>)
    requires size > 0 && r.rollback == Load(0) && r.notice == Idle && r.index.stored == 1
    requires !ThenOnlyZero(size, r.todo)
    ensures Over(Run(size, r, s)) && !Sound(size, Run(size, r, s).index)
    decreases |r.todo|
  {
    if r.todo[0].reorg && r.todo[0].head / size == 0 {
      var a := Reorg(size, r);
      var b := BrokenWrapped(size, Run(size, r, a));
      s := a + b;
      RunThen(size, r, a, b);
    } else {
      var t := BrokenOne(size, Step(size, r, false));
      s := [false] + t;
      RunOne(size, r, false, t);
    }
  }

  lemma {:induction false} Broken(size: nat, x: Index, notes: seq<Note>) returns (s: seq<bool>)
    requires size > 0 && Sound(size, x) && x.stored <= UINT64_MAX && !Harmless(size, x.stored, notes)
    ensures Over(Run(size, Start(x, notes), s)) && !Sound(size, Run(size, Start(x, notes), s).index)
  {
    if x.stored == 1 {
      var r := Start(x, notes);
      var r1 := Step(size, r, true);
      var t := BrokenOne(size, Step(size, r1, true));
      s := [true] + ([true] + t);
      RunOne(size, r1, true, t);
      RunOne(size, r, true, [true] + t);
    } else {
      s := BrokenMany(size, x, notes);
    }
  }

  /**
  The index is in order after every schedule of a failed reset exactly when the notifications are
  harmless: no reorg reaches below the stored sections, or there is one stored section and, after
  the first reorg to section 0, only reorgs to section 0 follow. Some schedule always ends.
  */
  lemma {:induction false} SurvivesIff(size: nat, x: Index, notes: seq<Note>)
    requires size > 0 && Sound(size, x) && x.stored <= UINT64_MAX
    ensures Harmless(size, x.stored, notes)
            <==> forall s: seq<bool> | Over(Run(size, Start(x, notes), s)) ::
                   Sound(size, Run(size, Start(x, notes), s).index)
    ensures exists s: seq<bool> :: Over(Run(size, Start(x, notes), s))
  {
    var e := Ending(size, Step(size, Start(x, notes), true));
    RunOne(size, Start(x, notes), true, e);
    if Harmless(size, x.stored, notes) {
      forall s: seq<bool> | Over(Run(size, Start(x, notes), s))
        ensures Sound(size, Run(size, Start(x, notes), s).index)
      {
        Emptied(size, x, notes, s);
      }
    } else {
      var s := Broken(size, x, notes);
      assert Over(Run(size, Start(x, notes), s));
    }
  }

  /**
  Three sections stored and a reorg to section 1: the count persisted is 1, with no section and no
  head behind it.
  */
  lemma {:induction false} CountOutlivesHeads(size: nat, x: Index) returns (s: seq<bool>)
    requires size > 0 && Sound(size, x) && x.stored == 3
    ensures Run(size, Start(x, [Note(size, true)]), s) == Race(Index(0, Some(1), map[]), Idle, Idle, [])
    ensures !Sound(size, Index(0, Some(1), map[])) && !Sound(size, Index(1, Some(1), map[]))
  {
    var r := Start(x, [Note(size, true)]);
    var r1 := Step(size, r, true);
    var a := Reorg(size, r1);
    var b := Ending(size, Run(size, r1, a));
    s := [true] + (a + b);
    RunThen(size, r1, a, b);
    RunOne(size, r, true, a + b);
    assert Cut(Cut(x.heads, 1, 3), 0, 1) == map[];
    assert 0 !in Index(1, Some(1), map[]).heads;
  }
}
