/**
The section index of the chain indexer (core/chain_indexer.go): runs of parent-linked headers,
the heads that mark their ends, and what notifications take back.
*/
module SectionIndex {
  import opened Ancestry
  import opened Multiples
  import opened Wrappers

  const UINT64_MAX := 0xFFFF_FFFF_FFFF_FFFF

  /** A notification of a new head, or of the last block that a reorg left in place. */
  datatype Note = Note(head: nat, reorg: bool)

  // ----- Runs of headers

  /** The `n` headers numbered from `first`, each the parent of the next, lead from hash `prev` to hash `last`. */
  ghost predicate IsRun(prev: Hash, last: Hash, first: nat, n: nat) {
    if n == 0 then last == prev
    else last.HashOf? && last.header.number == first + n - 1 && IsRun(prev, last.header.parentHash, first, n - 1)
  }

  /** The hash that reading `n` numbers from `first` leads to, if each header read links to the one before. */
  ghost function Reading(found: nat -> Option<Header>, prev: Hash, first: nat, n: nat): Option<Hash> {
    if n == 0 then Some(prev)
    else
      var before := Reading(found, prev, first, n - 1);
      var h := found(first + n - 1);
      if before.Some? && h.Some? && h.value.number == first + n - 1 && h.value.parentHash == before.value
      then Some(HashOf(h.value)) else None
  }

  /** Whatever was read, a reading that succeeds is a run. */
  lemma {:induction false} ReadingIsRun(found: nat -> Option<Header>, prev: Hash, first: nat, n: nat)
    ensures var r := Reading(found, prev, first, n); r.Some? ==> IsRun(prev, r.value, first, n)
  {
    if n > 0 { ReadingIsRun(found, prev, first, n - 1); }
  }

  lemma {:induction false} ReadingFails(found: nat -> Option<Header>, prev: Hash, first: nat, m: nat, n: nat)
    requires m <= n && Reading(found, prev, first, m) == None
    ensures Reading(found, prev, first, n) == None
  {
    if m < n { ReadingFails(found, prev, first, m, n - 1); }
  }

  /** The start of a run is on the ancestor path of its end. */
  lemma {:induction false} RunUp(prev: Hash, last: Hash, first: nat, n: nat)
    requires IsRun(prev, last, first, n) && n > 0 && prev.HashOf? && first > 0 && prev.header.number == first - 1
    ensures Up(last.header, first - 1) == prev.header
  {
    if n > 1 {
      RunUp(prev, last.header.parentHash, first, n - 1);
    } else {
      assert last.header.parentHash == prev;
    }
  }

  // ----- The section index

  /** The number of the first block of section `s`. */
  ghost function First(size: nat, s: nat): nat {
    Times(size, s)
  }

  /** The head before section `s`, the zero hash before section 0. */
  ghost function Before(heads: map<nat, Hash>, s: nat): Hash {
    if s == 0 || s - 1 !in heads then Zero else heads[s - 1]
  }

  /** Section `s` is a run of `size` headers from the head before. */
  ghost predicate SectionOk(size: nat, heads: map<nat, Hash>, s: nat)
    requires s in heads
  {
    IsRun(Before(heads, s), heads[s], First(size, s), size)
  }

  /** Heads exist exactly for the stored sections, as many as were counted, and every section is in order. */
  ghost predicate IndexOk(size: nat, stored: nat, count: Option<nat>, heads: map<nat, Hash>) {
    && (forall s: nat :: s in heads <==> s < stored)
    && count == (if count.None? then None else Some(stored)) && (count.None? ==> stored == 0)
    && forall s: nat {:trigger SectionOk(size, heads, s)} :: s in heads ==> SectionOk(size, heads, s)
  }

  lemma {:induction false} HeadNumber(size: nat, stored: nat, count: Option<nat>, heads: map<nat, Hash>, s: nat)
    requires size > 0 && IndexOk(size, stored, count, heads) && s < stored
    ensures heads[s].HashOf? && heads[s].header.number == First(size, s) + size - 1
  {
    assert SectionOk(size, heads, s);
  }

  /** All section heads lie on one ancestor path, that of the last. */
  lemma {:induction false} OnePath(size: nat, stored: nat, count: Option<nat>, heads: map<nat, Hash>, s: nat, t: nat)
    requires size > 0 && IndexOk(size, stored, count, heads) && s <= t < stored
    ensures heads[s].HashOf? && heads[t].HashOf? && heads[s].header.number == First(size, s) + size - 1
    ensures Up(heads[t].header, heads[s].header.number) == heads[s].header
    decreases t
  {
    HeadNumber(size, stored, count, heads, s);
    HeadNumber(size, stored, count, heads, t);
    if s < t {
      OnePath(size, stored, count, heads, s, t - 1);
      HeadNumber(size, stored, count, heads, t - 1);
      assert SectionOk(size, heads, t);
      RunUp(heads[t - 1], heads[t], First(size, t), size);
      TimesMono(size, s, t - 1);
      UpUp(heads[t].header, heads[t - 1].header.number, heads[s].header.number);
    }
  }

  /** The number of stored sections after a series of notifications. */
  ghost function Kept(size: nat, stored: nat, notes: seq<Note>): nat
    requires size > 0
  {
    if notes == [] then stored
    else
      var k := Kept(size, stored, notes[..|notes| - 1]);
      var note := notes[|notes| - 1];
      if note.reorg && note.head / size < k then note.head / size else k
  }

  /** Sections below `k` survive exactly when no reorg reaches below block `k * size`. */
  lemma {:induction false} KeptIff(size: nat, stored: nat, notes: seq<Note>, k: nat)
    requires size > 0
    ensures Kept(size, stored, notes) <= stored
    ensures k <= Kept(size, stored, notes) <==>
            k <= stored && forall i | 0 <= i < |notes| && notes[i].reorg :: First(size, k) <= notes[i].head
  {
    if notes != [] {
      var rest := notes[..|notes| - 1];
      KeptIff(size, stored, rest, k);
      TimesDivide(size, k, notes[|notes| - 1].head);
      assert notes == rest + [notes[|notes| - 1]];
    }
  }

  /** The heads without those of sections `k` to `top - 1`. */
  ghost function Cut(heads: map<nat, Hash>, k: nat, top: nat): map<nat, Hash> {
    map s | s in heads && !(k <= s < top) :: heads[s]
  }

  function Min(a: nat, b: nat): nat { if a < b then a else b }
  function Max(a: nat, b: nat): nat { if a < b then b else a }

  /** The number of sections with all blocks confirmed when `head` is the newest block. */
  ghost function Complete(head: nat, confirms: nat, size: nat): nat
    requires size > 0
  {
    if head < confirms || head + 1 - confirms > UINT64_MAX then 0 else (head + 1 - confirms) / size
  }

  /** A section is complete exactly when its last block has the confirmations asked for. */
  lemma {:induction false} CompleteIff(head: nat, confirms: nat, size: nat, k: nat)
    requires size > 0 && head + 1 - confirms <= UINT64_MAX
    ensures k <= Complete(head, confirms, size) <==> k == 0 || First(size, k) - 1 + confirms <= head
  {
    if k > 0 { TimesMono(size, 1, k); }
    if head >= confirms { TimesDivide(size, k, head + 1 - confirms); }
  }

  /** The number of known sections after a series of notifications. */
  ghost function Known(size: nat, confirms: nat, known: nat, notes: seq<Note>): nat
    requires size > 0
  {
    if notes == [] then known
    else
      var k := Known(size, confirms, known, notes[..|notes| - 1]);
      var note := notes[|notes| - 1];
      if note.reorg then Min(note.head / size, k) else Max(Complete(note.head, confirms, size), k)
  }

  /** Section `k - 1` is known before or by note `j` (-1 for before), and no later reorg reaches it. */
  ghost predicate KnownSince(size: nat, confirms: nat, known: nat, notes: seq<Note>, k: nat, j: int)
    requires size > 0
  {
    && -1 <= j < |notes|
    && (if j < 0 then k <= known else !notes[j].reorg && k <= Complete(notes[j].head, confirms, size))
    && forall i | j < i < |notes| && notes[i].reorg :: First(size, k) <= notes[i].head
  }

  /** Sections are known exactly if some head made them so and no later reorg reached them. */
  lemma {:induction false} KnownIff(size: nat, confirms: nat, known: nat, notes: seq<Note>, k: nat)
    requires size > 0
    ensures k <= Known(size, confirms, known, notes)
            <==> exists j: int :: KnownSince(size, confirms, known, notes, k, j)
  {
    if notes == [] {
      assert KnownSince(size, confirms, known, notes, k, -1) <==> k <= known;
    } else {
      var n := |notes| - 1;
      var rest, note := notes[..n], notes[n];
      KnownIff(size, confirms, known, rest, k);
      TimesDivide(size, k, note.head);
      if k <= Known(size, confirms, known, notes) {
        if !note.reorg && k <= Complete(note.head, confirms, size) {
          assert KnownSince(size, confirms, known, notes, k, n);
        } else {
          var j: int :| KnownSince(size, confirms, known, rest, k, j);
          assert KnownSince(size, confirms, known, notes, k, j);
        }
      }
      if j: int :| KnownSince(size, confirms, known, notes, k, j) {
        if j < n { assert KnownSince(size, confirms, known, rest, k, j); }
      }
    }
  }

  /** Without a reorg no section is forgotten, and without a note none becomes known. */
  lemma {:induction false} KnownKept(size: nat, confirms: nat, known: nat, notes: seq<Note>)
    requires size > 0 && forall i | 0 <= i < |notes| :: !notes[i].reorg
    ensures known <= Known(size, confirms, known, notes)
    ensures notes == [] ==> Known(size, confirms, known, notes) == known
  {
    if notes != [] { KnownKept(size, confirms, known, notes[..|notes| - 1]); }
  }

  /** The last block handed on to children after a series of notifications. */
  ghost function Cascaded(size: nat, cascaded: nat, notes: seq<Note>): nat
    requires size > 0
  {
    if notes == [] then cascaded
    else
      var k := Cascaded(size, cascaded, notes[..|notes| - 1]);
      var note := notes[|notes| - 1];
      if note.reorg then Min(First(size, note.head / size), k) else k
  }

  lemma {:induction false} SeenNext(size: nat, confirms: nat, known: nat, cascaded: nat, notes: seq<Note>, i: nat)
    requires size > 0 && i < |notes|
    ensures var k, c, note := Known(size, confirms, known, notes[..i]), Cascaded(size, cascaded, notes[..i]), notes[i];
            && Known(size, confirms, known, notes[..i + 1])
               == (if note.reorg then Min(note.head / size, k) else Max(Complete(note.head, confirms, size), k))
            && Cascaded(size, cascaded, notes[..i + 1])
               == if note.reorg then Min(First(size, note.head / size), c) else c
  {
    assert notes[..i + 1][..i] == notes[..i];
  }

  lemma {:induction false} Extended(size: nat, stored: nat, count: Option<nat>, heads: map<nat, Hash>, last: Hash)
    requires IndexOk(size, stored, count, heads) && IsRun(Before(heads, stored), last, First(size, stored), size)
    ensures IndexOk(size, stored + 1, Some(stored + 1), heads[stored := last])
  {
    var c := heads[stored := last];
    forall s: nat | s in c ensures SectionOk(size, c, s) {
      if s < stored { assert SectionOk(size, heads, s); }
      assert Before(c, s) == Before(heads, s);
    }
  }

  /** Dropping the last sections leaves the others in order. */
  lemma {:induction false} CutOk(size: nat, stored: nat, count: Option<nat>, heads: map<nat, Hash>, k: nat)
    requires IndexOk(size, stored, count, heads) && k <= stored
    ensures IndexOk(size, k, Some(k), Cut(heads, k, stored)) && (k == 0 ==> Cut(heads, k, stored) == map[])
  {
    var c := Cut(heads, k, stored);
    forall s: nat | s in c ensures SectionOk(size, c, s) {
      assert SectionOk(size, heads, s);
      assert Before(c, s) == Before(heads, s);
    }
  }
}
