/**
The chain indexer (core/chain_indexer.go): sections of the chain are processed with the lock
released while reorg notifications come in. What the database returns for each number, how
the backend answers, which notifications arrive and how the threads take turns are parameters, so
that every interleaving is some choice of them.
*/
module ChainIndexer {
  import opened Ancestry
  import opened Multiples
  import opened SectionIndex
  import opened SectionRace
  import opened Wrappers

  /**
  What happens outside the lock: backend answers, the header read for each number, notifications
  and, should the rollback of a failed reset run beside them, the order of their steps.
  */
  datatype Outside =
    Outside(resetOk: bool, commitOk: bool, found: nat -> Option<Header>, notes: seq<Note>, order: seq<bool>)

  /** The head of section `s` as read after the head `prev`, if everything outside went well. */
  ghost function Read(size: nat, s: nat, prev: Hash, out: Outside): Option<Hash> {
    if out.resetOk && out.commitOk then Reading(out.found, prev, First(size, s), size) else None
  }

  /** A turn that finds `s` sections stored completes section `s`. */
  ghost predicate Completes(size: nat, s: nat, prev: Hash, out: Outside)
    requires size > 0
  {
    Read(size, s, prev, out).Some? && Kept(size, s, out.notes) == s
  }

  /** The index after notifications alone. */
  ghost function After(size: nat, x: Index, notes: seq<Note>): Index
    requires size > 0
  {
    var k := Kept(size, x.stored, notes);
    Index(k, if k == x.stored then x.count else Some(k), Cut(x.heads, k, x.stored))
  }

  lemma {:induction false} AfterOne(size: nat, x: Index, note: Note)
    requires size > 0
    ensures var k := note.head / size;
            After(size, x, [note])
            == if note.reorg && k < x.stored then Index(k, Some(k), Cut(x.heads, k, x.stored)) else x
  {
    assert [note][..0] == [];
    assert Kept(size, x.stored, [note][..0]) == x.stored;
    assert Cut(x.heads, x.stored, x.stored) == x.heads;
  }

  lemma {:induction false} AfterNext(size: nat, x: Index, notes: seq<Note>, note: Note)
    requires size > 0
    ensures After(size, x, notes + [note]) == After(size, After(size, x, notes), [note])
  {
    var k := Kept(size, x.stored, notes);
    KeptIff(size, x.stored, notes, 0);
    AfterOne(size, After(size, x, notes), note);
    assert (notes + [note])[..|notes|] == notes;
    var l := note.head / size;
    assert l < k ==> Cut(Cut(x.heads, k, x.stored), l, k) == Cut(x.heads, l, x.stored);
  }

  /** The index after the unlocked part of a turn. */
  ghost function Left(size: nat, x: Index, out: Outside): Index
    requires size > 0
  {
    if out.resetOk then After(size, x, out.notes) else Run(size, Start(x, out.notes), out.order).index
  }

  class ChainIndexer {
    const sectionSize: nat
    const confirmsReq: nat
    var storedSections: nat
    var knownSections: nat
    var cascadedHead: nat
    var count: Option<nat>         // persisted
    var heads: map<nat, Hash>      // persisted

    ghost predicate Valid()
      reads this
    {
      && 0 < sectionSize && knownSections <= UINT64_MAX && storedSections <= UINT64_MAX
      && IndexOk(sectionSize, storedSections, count, heads)
    }

    /** Start on the database that an earlier indexer, or none, has left. */
    constructor (size: nat, confirms: nat, count0: Option<nat>, heads0: map<nat, Hash>)
      requires size > 0
      requires var stored := if count0.Some? then count0.value else 0;
               stored <= UINT64_MAX && IndexOk(size, stored, count0, heads0)
      ensures Valid() && sectionSize == size && heads == heads0 && count == count0 && knownSections == 0
    {
      sectionSize, confirmsReq := size, confirms;
      count, heads := count0, heads0;
      storedSections := if count0.Some? then count0.value else 0;
      knownSections, cascadedHead := 0, 0;
    }

    function Contents(): Index
      reads this
    {
      Index(storedSections, count, heads)
    }

    function SectionHead(section: nat): Hash
      reads this
    {
      if section in heads then heads[section] else Zero
    }

    /** Write the count first, then drop the heads above it one by one. */
    method SetValidSections(sections: nat)
      modifies this`storedSections, this`count, this`heads
      ensures storedSections == sections && count == Some(sections)
      ensures heads == Cut(old(heads), sections, old(storedSections))
    {
      count := Some(sections);
      while storedSections > sections
        invariant storedSections == old(storedSections) || sections <= storedSections < old(storedSections)
        invariant count == Some(sections)
        invariant heads == Cut(old(heads), storedSections, old(storedSections))
      {
        storedSections := storedSections - 1;
        heads := heads - {storedSections};
      }
      assert heads == Cut(old(heads), sections, old(storedSections));
      storedSections := sections;
    }

    /** A new head makes more sections known. */
    method RaiseKnown(head: nat)
      requires 0 < sectionSize && knownSections <= UINT64_MAX
      modifies this`knownSections
      ensures knownSections == Max(Complete(head, confirmsReq, sectionSize), old(knownSections)) <= UINT64_MAX
    {
      if head >= confirmsReq {
        var blocks := head + 1 - confirmsReq;
        if blocks <= UINT64_MAX {  // one more would wrap to zero
          var sections := blocks / sectionSize;
          QuotientBound(blocks, sectionSize);
          if sections > knownSections { knownSections := sections; }
        }
      }
    }

    /** A reorg to a section makes it and all above unknown. */
    method RevertKnown(changed: nat)
      modifies this`knownSections, this`cascadedHead
      ensures knownSections == Min(changed, old(knownSections))
      ensures cascadedHead == Min(First(sectionSize, changed), old(cascadedHead))
    {
      if changed < knownSections { knownSections := changed; }
      TimesProduct(sectionSize, changed);
      var head := changed * sectionSize;
      if head < cascadedHead { cascadedHead := head; }
    }

    /** The part of a notification that touches only fields guarded by the lock throughout. */
    method Observe(note: Note)
      requires 0 < sectionSize && knownSections <= UINT64_MAX
      modifies this`knownSections, this`cascadedHead
      ensures knownSections <= UINT64_MAX
      ensures note.reorg ==> knownSections == Min(note.head / sectionSize, old(knownSections))
                             && cascadedHead == Min(First(sectionSize, note.head / sectionSize), old(cascadedHead))
      ensures !note.reorg ==> knownSections == Max(Complete(note.head, confirmsReq, sectionSize), old(knownSections))
                              && cascadedHead == old(cascadedHead)
    {
      if note.reorg { RevertKnown(note.head / sectionSize); } else { RaiseKnown(note.head); }
    }

    /** A new head makes more sections known; a reorg takes back those it reaches. */
    method NewHead(note: Note)
      requires Valid() && note.head <= UINT64_MAX
      modifies this
      ensures Valid() && Contents() == After(sectionSize, old(Contents()), [note])
      ensures note.reorg ==> knownSections == Min(note.head / sectionSize, old(knownSections))
                             && cascadedHead == Min(First(sectionSize, note.head / sectionSize), old(cascadedHead))
      ensures !note.reorg ==> knownSections == Max(Complete(note.head, confirmsReq, sectionSize), old(knownSections))
                              && cascadedHead == old(cascadedHead)
    {
      AfterOne(sectionSize, Contents(), note);
      Observe(note);
      var changed := note.head / sectionSize;
      if note.reorg && changed < storedSections {
        CutOk(sectionSize, storedSections, count, heads, changed);
        SetValidSections(changed);
      }
    }

    /** Notifications one after the other, as the lock makes them. */
    method Notify(notes: seq<Note>)
      requires Valid() && forall n <- notes :: n.head <= UINT64_MAX
      modifies this
      ensures Valid() && Contents() == After(sectionSize, old(Contents()), notes)
      ensures knownSections == Known(sectionSize, confirmsReq, old(knownSections), notes)
      ensures cascadedHead == Cascaded(sectionSize, old(cascadedHead), notes)
    {
      assert heads == Cut(heads, storedSections, storedSections);
      for i := 0 to |notes|
        invariant Valid() && Contents() == After(sectionSize, old(Contents()), notes[..i])
        invariant knownSections == Known(sectionSize, confirmsReq, old(knownSections), notes[..i])
        invariant cascadedHead == Cascaded(sectionSize, old(cascadedHead), notes[..i])
      {
        SeenNext(sectionSize, confirmsReq, old(knownSections), old(cascadedHead), notes, i);
        assert notes[..i + 1] == notes[..i] + [notes[i]];
        AfterNext(sectionSize, old(Contents()), notes[..i], notes[i]);
        NewHead(notes[i]);
      }
      assert notes[..|notes|] == notes;
    }

    /** One access of setValidSections to the index. */
    method Advance(p: Place) returns (q: Place)
      modifies this`storedSections, this`count, this`heads
      ensures Contents() == Effect(old(Contents()), p) && q == Next(old(Contents()), p)
    {
      match p {
        case PutCount(k) => count := Some(k); q := Test(k);
        case Test(k) => q := if storedSections > k then Load(k) else SetStored(k);
        case Load(k) => q := Lower(k, storedSections);
        case Lower(k, was) => storedSections := if was == 0 then UINT64_MAX else was - 1; q := Pick(k);
        case Pick(k) => q := Drop(k, storedSections);
        case Drop(k, at) => heads := heads - {at}; q := Test(k);
        case SetStored(k) => storedSections := k; q := Idle;
        case Idle => q := Idle;
      }
    }

    /** The rollback of a failed reset and the notifications, taking turns in the given order. */
    method RollBack(notes: seq<Note>, order: seq<bool>)
      requires 0 < sectionSize && knownSections <= UINT64_MAX && forall n <- notes :: n.head <= UINT64_MAX
      modifies this
      ensures knownSections <= UINT64_MAX
      ensures Contents() == Run(sectionSize, Start(old(Contents()), notes), order).index
      ensures Over(Run(sectionSize, Start(old(Contents()), notes), order)) ==>
                cascadedHead == Cascaded(sectionSize, old(cascadedHead), notes)
    {
      var rollback, notice, next := PutCount(0), Idle, 0;
      ghost var end := Run(sectionSize, Start(Contents(), notes), order);
      assert notes[0..] == notes && order[0..] == order;
      for i := 0 to |order|
        invariant next <= |notes| && knownSections <= UINT64_MAX
        invariant cascadedHead == Cascaded(sectionSize, old(cascadedHead), notes[..next])
        invariant Run(sectionSize, Race(Contents(), rollback, notice, notes[next..]), order[i..]) == end
      {
        assert order[i..][1..] == order[i + 1..];
        if order[i] {
          rollback := Advance(rollback);
        } else if notice != Idle {
          notice := Advance(notice);
        } else if next < |notes| {
          assert notes[next..][1..] == notes[next + 1..];
          SeenNext(sectionSize, confirmsReq, 0, old(cascadedHead), notes, next);
          Observe(notes[next]);
          notice := Entry(sectionSize, Contents(), notes[next]);
          next := next + 1;
        }
      }
      assert order[|order|..] == [] && (|notes[next..]| == 0 ==> notes[..next] == notes);
    }

    /** Read a whole section, checking that each header links to the one before. */
    method ProcessSection(section: nat, lastHead: Hash, out: Outside) returns (r: Option<Hash>)
      requires 0 < sectionSize && knownSections <= UINT64_MAX && forall n <- out.notes :: n.head <= UINT64_MAX
      modifies this
      ensures out.resetOk ==> unchanged(this)
      ensures !out.resetOk ==> knownSections <= UINT64_MAX
                               && Contents() == Run(sectionSize, Start(old(Contents()), out.notes), out.order).index
      ensures !out.resetOk && Over(Run(sectionSize, Start(old(Contents()), out.notes), out.order)) ==>
                cascadedHead == Cascaded(sectionSize, old(cascadedHead), out.notes)
      ensures r == Read(sectionSize, section, lastHead, out)
    {
      if !out.resetOk {
        RollBack(out.notes, out.order);
        return None;
      }
      TimesProduct(sectionSize, section);
      var start, last := section * sectionSize, lastHead;
      for i := 0 to sectionSize
        invariant Reading(out.found, lastHead, start, i) == Some(last)
        invariant unchanged(this)
      {
        var header := out.found(start + i);
        if header.None? || header.value.number != start + i || header.value.parentHash != last {
          ReadingFails(out.found, lastHead, start, i + 1, sectionSize);
          return None;
        }
        last := HashOf(header.value);
      }
      return if out.commitOk then Some(last) else None;
    }

    /**
    The end of a turn, with the lock held again: `section` is completed if it was read and
    the head before it is still `oldHead`. At the start of the turn the heads were `heads0`.
    */
    method Finish(section: nat, oldHead: Hash, newHead: Option<Hash>, ghost count0: Option<nat>,
                  ghost heads0: map<nat, Hash>)
      returns (done: bool)
      requires newHead.Some? ==>
                 && Valid() && storedSections <= section < UINT64_MAX
                 && IndexOk(sectionSize, section, count0, heads0) && oldHead == Before(heads0, section)
                 && heads == Cut(heads0, storedSections, section)
                 && IsRun(oldHead, newHead.value, First(sectionSize, section), sectionSize)
      modifies this
      ensures done == (newHead.Some? && old(storedSections) == section)
      ensures done ==> Valid() && Contents() == Index(section + 1, Some(section + 1), heads0[section := newHead.value])
      ensures done ==> knownSections == old(knownSections) && cascadedHead == First(sectionSize, section + 1) - 1
      ensures !done ==> Contents() == old(Contents()) && knownSections == storedSections
      ensures !done ==> cascadedHead == old(cascadedHead)
    {
      var prev := if section > 0 then section - 1 else UINT64_MAX;
      if newHead.Some? {
        HeadStays(sectionSize, section, count0, heads0, heads, storedSections, oldHead, prev);
      }
      done := newHead.Some? && oldHead == SectionHead(prev);
      if done {
        Extended(sectionSize, section, count, heads, newHead.value);
        heads := heads[section := newHead.value];
        assert heads == Cut(heads, section + 1, section);
        SetValidSections(section + 1);
        TimesProduct(sectionSize, section + 1);
        TimesMono(sectionSize, 1, section + 1);
        cascadedHead := storedSections * sectionSize - 1;
      } else {
        knownSections := storedSections;
      }
    }

    /**
    One turn of the update loop. The next section is completed exactly when the backend
    succeeds, the headers read are linked, and no reorg reached below the section meanwhile.
    The index stays in order unless a reset fails beside harmful notifications.
    */
    method Update(out: Outside) returns (done: bool)
      requires Valid() && forall n <- out.notes :: n.head <= UINT64_MAX
      modifies this
      ensures old(knownSections) <= old(storedSections) ==> !done && unchanged(this)
      ensures old(knownSections) > old(storedSections) ==>
                var prev, s := old(Before(heads, storedSections)), old(storedSections);
                && done == Completes(sectionSize, s, prev, out)
                && (done ==> Contents()
                             == Index(s + 1, Some(s + 1), old(heads)[s := Read(sectionSize, s, prev, out).value]))
                && (!done ==> Contents() == Left(sectionSize, old(Contents()), out) && knownSections == storedSections)
      // A completed section leaves the further known ones to be processed, as the notifications have them.
      ensures done ==> knownSections == Known(sectionSize, confirmsReq, old(knownSections), out.notes)
                       && cascadedHead == First(sectionSize, old(storedSections) + 1) - 1
      ensures old(knownSections) > old(storedSections) && !done ==>
                (out.resetOk || Over(Run(sectionSize, Start(old(Contents()), out.notes), out.order))) ==>
                  cascadedHead == Cascaded(sectionSize, old(cascadedHead), out.notes)
      ensures old(knownSections) > old(storedSections) && !out.resetOk ==>
                (Valid() <==>
                   Sound(sectionSize, Left(sectionSize, old(Contents()), out)) && storedSections <= UINT64_MAX)
      ensures out.resetOk ==> Valid()
      ensures Harmless(sectionSize, old(storedSections), out.notes) ==>
                Over(Run(sectionSize, Start(old(Contents()), out.notes), out.order)) ==> Valid()
    {
      done := false;
      if knownSections > storedSections {
        var section := storedSections;
        ghost var x := Contents();
        var oldHead := if section > 0 then SectionHead(section - 1) else Zero;
        var newHead := ProcessSection(section, oldHead, out);
        if out.resetOk { Notify(out.notes); }
        KeptIff(sectionSize, section, out.notes, section);
        ReadingIsRun(out.found, oldHead, First(sectionSize, section), sectionSize);
        done := Finish(section, oldHead, newHead, x.count, x.heads);
        if !out.resetOk && Harmless(sectionSize, section, out.notes) {
          if Over(Run(sectionSize, Start(x, out.notes), out.order)) { Emptied(sectionSize, x, out.notes, out.order); }
        }
      }
    }
  }

  /**
  Turns of the update loop on a chain that stands still: each completes a section until all known
  ones are stored, with the blocks of the chain as their heads.
  */
  method CatchUp(indexer: ChainIndexer, genesis: Header, h: Header, outs: seq<Outside>)
    requires indexer.Valid() && indexer.storedSections <= indexer.knownSections
    requires Rooted(genesis, h) && genesis.number == 0 && genesis.parentHash == Zero
    requires EndsOn(indexer.sectionSize, h, indexer.Contents())
    requires First(indexer.sectionSize, indexer.knownSections) <= h.number + 1
    requires forall out <- outs :: Undisturbed(h, out)
    modifies indexer
    ensures indexer.Valid() && indexer.knownSections == old(indexer.knownSections)
    ensures indexer.storedSections == Min(indexer.knownSections, old(indexer.storedSections) + |outs|)
    ensures EndsOn(indexer.sectionSize, h, indexer.Contents())
  {
    ghost var size := indexer.sectionSize;
    for i := 0 to |outs|
      invariant indexer.Valid() && indexer.knownSections == old(indexer.knownSections)
      invariant indexer.storedSections == Min(indexer.knownSections, old(indexer.storedSections) + i)
      invariant EndsOn(size, h, indexer.Contents())
    {
      assert outs[i] in outs;
      if indexer.storedSections < indexer.knownSections {
        TimesMono(size, indexer.storedSections + 1, indexer.knownSections);
        TurnCompletes(genesis, h, size, indexer.Contents(), outs[i]);
      }
      var done := indexer.Update(outs[i]);
    }
  }

  /** The turn reads the path of `h` and meets neither a failure nor a notification. */
  ghost predicate Undisturbed(h: Header, out: Outside) {
    out.resetOk && out.commitOk && out.found == PathOf(h) && out.notes == []
  }

  /** The sections stored last end on the path of `h`. */
  ghost predicate EndsOn(size: nat, h: Header, x: Index) {
    Before(x.heads, x.stored) == HashAt(h, First(size, x.stored) - 1)
  }

  /** An undisturbed turn on the path of a long enough chain completes its section, and the next can follow. */
  lemma {:induction false} TurnCompletes(genesis: Header, h: Header, size: nat, x: Index, out: Outside)
    requires size > 0 && Rooted(genesis, h) && genesis.number == 0 && genesis.parentHash == Zero
    requires Undisturbed(h, out) && EndsOn(size, h, x) && First(size, x.stored + 1) <= h.number + 1
    ensures var s, prev := x.stored, Before(x.heads, x.stored);
            && Completes(size, s, prev, out) && Read(size, s, prev, out) == Some(HashAt(h, First(size, s + 1) - 1))
            && EndsOn(size, h, Index(s + 1, Some(s + 1), x.heads[s := Read(size, s, prev, out).value]))
  {
    ReadingPath(genesis, h, First(size, x.stored), size);
  }

  /** The head before a section is still there exactly when no reorg has reached below the section. */
  lemma {:induction false} HeadStays(size: nat, section: nat, count: Option<nat>, heads: map<nat, Hash>,
                                     now: map<nat, Hash>, k: nat, oldHead: Hash, prev: nat)
    requires size > 0 && IndexOk(size, section, count, heads) && k <= section <= UINT64_MAX
    requires now == Cut(heads, k, section)
    requires oldHead == Before(heads, section) && prev == if section > 0 then section - 1 else UINT64_MAX
    ensures oldHead == (if prev in now then now[prev] else Zero) <==> k == section
    ensures k == section ==> now == heads
  {
    if section > 0 { HeadNumber(size, section, count, heads, section - 1); }
  }

  // ----- What the comparison of heads at the end of a turn misses

  /** The hash at number `n` on the path of `h`, the zero hash below block 0. */
  ghost function HashAt(h: Header, n: int): Hash {
    if n < 0 then Zero else HashOf(Up(h, n))
  }

  ghost function PathOf(h: Header): nat -> Option<Header> {
    (n: nat) => Some(Up(h, n))
  }

  /** Reading the canonical path of one head always succeeds. */
  lemma {:induction false} ReadingPath(genesis: Header, h: Header, first: nat, n: nat)
    requires Rooted(genesis, h) && genesis.number == 0 && genesis.parentHash == Zero && first + n <= h.number + 1
    ensures Reading(PathOf(h), HashAt(h, first - 1), first, n) == Some(HashAt(h, first + n - 1))
  {
    if n > 0 {
      ReadingPath(genesis, h, first, n - 1);
      UpRooted(genesis, h, first + n - 1);
    }
  }

  /**
  A section read from the path of `h1` while the chain is reorganised to `h2`, their common
  ancestor being `c`, is completed by the turn exactly when `c` is at or above the section's first
  block. The head stored is canonical afterwards only if `c` is at or above the last block. So the
  turn stores a stale section exactly when the fork lies within it.
  */
  lemma {:induction false} StaleIff(genesis: Header, h1: Header, h2: Header, c: Header, size: nat, s: nat, out: Outside)
    requires size > 0 && Rooted(genesis, h1) && Rooted(genesis, h2) && genesis.number == 0 && genesis.parentHash == Zero
    requires HighestCommon(genesis, c, h1, h2)
    requires First(size, s) + size - 1 <= h1.number && First(size, s) + size - 1 <= h2.number
    requires out.resetOk && out.commitOk && out.found == PathOf(h1)
    requires out.notes == [Note(c.number, true), Note(h2.number, false)]
    ensures var first, last, prev := First(size, s), First(size, s) + size - 1, HashAt(h1, First(size, s) - 1);
            && Read(size, s, prev, out) == Some(HashAt(h1, last))
            && (Completes(size, s, prev, out) <==> first <= c.number)
            && (Completes(size, s, prev, out) && Read(size, s, prev, out).value != HashAt(h2, last)
                <==> first <= c.number < last)
  {
    var first, last := First(size, s), First(size, s) + size - 1;
    ReadingPath(genesis, h1, first, size);
    var fork := [Note(c.number, true)];
    assert out.notes[..1] == fork && fork[..0] == [];
    assert Kept(size, s, fork[..0]) == s;
    assert Kept(size, s, out.notes) == Kept(size, s, fork);
    TimesDivide(size, s, c.number);
    AncestorIffUp(genesis, c, h1);
    AncestorIffUp(genesis, c, h2);
    if last <= c.number {
      UpUp(h1, c.number, last);
      UpUp(h2, c.number, last);
    } else if Up(h1, last) == Up(h2, last) {
      UpRooted(genesis, h1, last);
      AncestorIffUp(genesis, Up(h1, last), h1);
      AncestorIffUp(genesis, Up(h1, last), h2);
    }
  }

  /** Children of one genesis that differ in difficulty. */
  ghost function Child(difficulty: int): Header {
    Header(HashOf(Header(Zero, 0, 1, [])), 1, difficulty, [])
  }

  /** Sections of two blocks and a fork right after genesis: section 0 is completed with a head off the chain. */
  lemma {:induction false} StaleSection(out: Outside)
    requires out.resetOk && out.commitOk && out.notes == [Note(0, true), Note(1, false)]
    requires out.found == PathOf(Child(1))
    ensures Completes(2, 0, Zero, out) && Read(2, 0, Zero, out) == Some(HashOf(Child(1)))
    ensures HashAt(Child(2), 1) != HashOf(Child(1))
  {
    var g := Header(Zero, 0, 1, []);
    MeetingPointIsHighest(g, Child(1), Child(2), 0);
    StaleIff(g, Child(1), Child(2), g, 2, 0, out);
  }
}
