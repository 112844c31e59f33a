/**
The block chain: blocks, total difficulties, the canonical index, the transaction lookup
index and the three heads, patched in place by every block written. A fork that
wins is adopted by `Reorg`, which walks both branches down to their common block.
*/
module BlockChain {
  import opened Ancestry
  import opened Wrappers

  datatype Error = NoError | UnknownAncestor | InvalidChain

  /** Positional metadata of a transaction. */
  datatype Entry = Entry(blockHash: Hash, number: nat, index: nat)

  type Lookup = map<TxHash, Entry>

  // ----- Reference definitions on the ancestor path

  /** Entry `e` names a position of `t` on the path of `head`. */
  ghost predicate Located(head: Header, t: TxHash, e: Entry) {
    && e.number <= head.number
    && e.blockHash == HashOf(Up(head, e.number))
    && e.index < |Up(head, e.number).txs|
    && Up(head, e.number).txs[e.index] == t
  }

  /** No transaction has two positions on the path of `head`. */
  ghost predicate NoRepeat(head: Header) {
    forall t, e, f :: Located(head, t, e) && Located(head, t, f) ==> e == f
  }

  /** No branch of the store holds a transaction twice. */
  ghost predicate NoRepeats(s: Store) {
    forall h {:trigger Has(s, h)} :: Has(s, h) ==> NoRepeat(h)
  }

  /** The lookup index is exactly the set of positions on the path of `head`. */
  ghost predicate LookupExact(lookup: Lookup, head: Header) {
    && (forall t, e :: Located(head, t, e) ==> t in lookup && lookup[t] == e)
    && (forall t <- lookup :: Located(head, t, lookup[t]))
  }

  /** Transaction `t` is in a block of the path of `head` above height `n`. */
  ghost predicate TxAbove(head: Header, n: nat, t: TxHash) {
    exists e :: Located(head, t, e) && e.number > n
  }

  /** The blocks of the path of `head` above height `n`, newest first. */
  ghost predicate Branch(chain: seq<Header>, head: Header, n: nat) {
    && n <= head.number && |chain| == head.number - n
    && forall i :: 0 <= i < |chain| ==> chain[i] == Up(head, head.number - i)
  }

  ghost predicate TxsOfBranch(txs: seq<TxHash>, head: Header, n: nat) {
    forall t :: t in txs <==> TxAbove(head, n, t)
  }

  /** `after` is `before` overwritten by the positions on the path of `head` above `n`. */
  ghost predicate Overlaid(after: Lookup, before: Lookup, head: Header, n: nat) {
    && (forall t, e :: Located(head, t, e) && e.number > n ==> t in after && after[t] == e)
    && (forall t <- after :: (Located(head, t, after[t]) && after[t].number > n)
                             || (t in before && after[t] == before[t]))
    && (forall t <- before :: t in after)
  }

  /** The canonical index holds the path of `head` up to its height (stale entries may remain above). */
  ghost predicate HoldsPath(canonical: map<nat, Hash>, head: Header) {
    forall n: nat :: n <= head.number ==> n in canonical && canonical[n] == HashOf(Up(head, n))
  }

  // ----- Branch lemmas

  lemma BranchStep(chain: seq<Header>, txs: seq<TxHash>, head: Header, n: nat)
    requires Branch(chain, head, n) && n > 0 && Up(head, n).number == n
    ensures Branch(chain + [Up(head, n)], head, n - 1)
    ensures TxsOfBranch(txs, head, n) ==> TxsOfBranch(txs + Up(head, n).txs, head, n - 1)
  {
    if TxsOfBranch(txs, head, n) { TxsStep(txs, head, n); }
  }

  lemma TxsStep(txs: seq<TxHash>, head: Header, n: nat)
    requires TxsOfBranch(txs, head, n) && 0 < n <= head.number
    ensures TxsOfBranch(txs + Up(head, n).txs, head, n - 1)
  {
    var b := Up(head, n);
    forall t ensures t in txs + b.txs <==> TxAbove(head, n - 1, t) {
      if t in b.txs {
        var i :| 0 <= i < |b.txs| && b.txs[i] == t;
        assert Located(head, t, Entry(HashOf(b), n, i));
      }
      if TxAbove(head, n - 1, t) {
        var e :| Located(head, t, e) && e.number > n - 1;
        if e.number > n { assert TxAbove(head, n, t); }
      }
    }
  }

  // ----- Lookup lemmas

  /** Writing the entries of the block at height `n` extends the overlay down to `n - 1`. */
  lemma OverlayStep(l0: Lookup, l1: Lookup, l2: Lookup, head: Header, n: nat)
    requires 0 < n <= head.number && NoRepeat(head)
    requires Overlaid(l1, l0, head, n) && EntriesWritten(l1, l2, Up(head, n), n)
    ensures Overlaid(l2, l0, head, n - 1)
  {
    var b := Up(head, n);
    forall t, e | Located(head, t, e) && e.number > n - 1 ensures t in l2 && l2[t] == e {
      if e.number == n { assert b.txs[e.index] == t; assert Located(head, t, l2[t]); }
      else if t in b.txs { assert Located(head, t, l2[t]); }
    }
    forall t | t in l2
      ensures (Located(head, t, l2[t]) && l2[t].number > n - 1) || (t in l0 && l2[t] == l0[t])
    {
      if t in b.txs { assert Located(head, t, l2[t]); } else { assert t in l1; }
    }
  }

  /** Every transaction of `b` got an entry naming one of its positions; the rest is untouched. */
  ghost predicate EntriesWritten(before: Lookup, after: Lookup, b: Header, n: nat) {
    && (forall t <- b.txs :: t in after && after[t].blockHash == HashOf(b) && after[t].number == n
                             && after[t].index < |b.txs| && b.txs[after[t].index] == t)
    && (forall t <- after :: t in b.txs || (t in before && after[t] == before[t]))
    && (forall t <- before :: t in after)
  }

  /** The lookup half of a reorganisation from `old` to `head` above their common height `c`. */
  lemma ReorgLookup(l0: Lookup, l1: Lookup, l2: Lookup, old_: Header, head: Header, c: nat)
    requires LookupExact(l0, old_) && NoRepeat(old_) && NoRepeat(head)
    requires c <= old_.number && c <= head.number && Up(old_, c) == Up(head, c)
    requires Overlaid(l1, l0, head, c)
    requires forall t :: t in l2 <==> t in l1 && !(TxAbove(old_, c, t) && !TxAbove(head, c, t))
    requires forall t <- l2 :: l2[t] == l1[t]
    ensures LookupExact(l2, head)
  {
    forall t, e | Located(head, t, e) ensures t in l2 && l2[t] == e {
      if e.number > c {
        assert TxAbove(head, c, t);
      } else {
        SamePathBelow(old_, head, c, e.number);
        assert Located(old_, t, e);
      }
    }
    forall t | t in l2 ensures Located(head, t, l2[t]) {
      if !(Located(head, t, l1[t]) && l1[t].number > c) {
        assert l1[t] == l0[t] && Located(old_, t, l0[t]);
        if l0[t].number <= c { SamePathBelow(old_, head, c, l0[t].number); }
      }
    }
  }

  /** Writing the entries of a new block makes the exact index of its parent exact for it. */
  lemma ExtendLookup(l0: Lookup, l1: Lookup, parent: Header, block: Header)
    requires LookupExact(l0, parent) && NoRepeat(parent) && NoRepeat(block)
    requires block.number == parent.number + 1 && Up(block, parent.number) == parent
    requires EntriesWritten(l0, l1, block, block.number)
    ensures LookupExact(l1, block)
  {
    OverlayStep(l0, l0, l1, block, block.number);
    ReorgLookup(l0, l1, l1, parent, block, parent.number);
  }

  /** Writing the entries of the head again changes nothing. */
  lemma RewriteLookup(l0: Lookup, l1: Lookup, head: Header)
    requires LookupExact(l0, head) && NoRepeat(head) && EntriesWritten(l0, l1, head, head.number)
    ensures LookupExact(l1, head)
  {
    forall t | t in l1 ensures Located(head, t, l1[t]) {
      if t in head.txs { assert Up(head, l1[t].number) == head; }
    }
    forall t, e | Located(head, t, e) ensures t in l1 && l1[t] == e {
      assert Located(head, t, l1[t]);
    }
  }

  lemma SamePathBelow(a: Header, b: Header, c: nat, n: nat)
    requires Up(a, c) == Up(b, c) && n <= c
    ensures Up(a, n) == Up(b, n)
  {
    UpUp(a, c, n);
    UpUp(b, c, n);
  }

  // ----- Operations on values

  /** Store the position of every transaction of `b`. */
  method WriteTxLookupEntries(before: Lookup, b: Header) returns (after: Lookup)
    ensures EntriesWritten(before, after, b, b.number)
  {
    after := before;
    for i := 0 to |b.txs|
      invariant forall t <- b.txs[..i] :: t in after && after[t].blockHash == HashOf(b)
                  && after[t].number == b.number && after[t].index < i && b.txs[after[t].index] == t
      invariant forall t <- after :: t in b.txs[..i] || (t in before && after[t] == before[t])
      invariant forall t <- before :: t in after
    {
      after := after[b.txs[i] := Entry(HashOf(b), b.number, i)];
      assert b.txs[..i + 1] == b.txs[..i] + [b.txs[i]];
    }
    assert b.txs[..|b.txs|] == b.txs;
  }

  /** The transactions of `a` that are not in `b`. */
  method TxDifference(a: seq<TxHash>, b: seq<TxHash>) returns (keep: seq<TxHash>)
    ensures forall t :: t in keep <==> t in a && t !in b
  {
    keep := [];
    for i := 0 to |a|
      invariant forall t :: t in keep <==> t in a[..i] && t !in b
    {
      if a[i] !in b { keep := keep + [a[i]]; }
    }
  }

  /** Remove the entries of `txs`. */
  method DeleteTxLookupEntries(before: Lookup, txs: seq<TxHash>) returns (after: Lookup)
    ensures forall t :: t in after <==> t in before && t !in txs
    ensures forall t <- after :: after[t] == before[t]
  {
    after := before;
    for i := 0 to |txs|
      invariant forall t :: t in after <==> t in before && t !in txs[..i]
      invariant forall t <- after :: after[t] == before[t]
    {
      after := after - {txs[i]};
    }
  }

  /** `c` is the height of the highest block shared by the paths of `a` and `b`. */
  ghost predicate ForksAt(a: Header, b: Header, c: nat) {
    && c <= a.number && c <= b.number && Up(a, c) == Up(b, c)
    && (c == a.number || c == b.number || Up(a, c + 1) != Up(b, c + 1))
  }

  /** A cursor that has walked from `head` collecting the blocks (and transactions) it left behind. */
  ghost predicate Walked(s: Store, genesis: Header, head: Header, cur: Option<Header>, chain: seq<Header>)
  {
    && cur.Some? && cur.value.number <= head.number && cur.value == Up(head, cur.value.number)
    && Branch(chain, head, cur.value.number)
    && Rooted(genesis, cur.value)
    && (Has(s, cur.value) || cur.value.parentHash in s)
  }

  lemma WalkStep(s: Store, genesis: Header, head: Header, cur: Header, chain: seq<Header>, txs: seq<TxHash>)
    requires ParentClosed(s, genesis) && Walked(s, genesis, head, Some(cur), chain) && cur.number > 0
    ensures Walked(s, genesis, head, GetHeader(s, cur.parentHash, cur.number - 1), chain + [cur])
    ensures GetHeader(s, cur.parentHash, cur.number - 1) == Some(Up(head, cur.number - 1))
    ensures Up(head, cur.number - 1).number == cur.number - 1
    ensures TxsOfBranch(txs, head, cur.number) ==> TxsOfBranch(txs + cur.txs, head, cur.number - 1)
  {
    ParentFound(s, genesis, cur);
    UpUp(head, cur.number, cur.number - 1);
    BranchStep(chain, txs, head, cur.number);
    UpRooted(genesis, cur, cur.number - 1);
  }

  /** Walk one branch down to height `n`, collecting the blocks passed and their transactions. */
  method Reduce(s: Store, ghost genesis: Header, head: Header, n: nat)
    returns (cur: Option<Header>, chain: seq<Header>, txs: seq<TxHash>)
    requires ParentClosed(s, genesis) && Rooted(genesis, head) && n <= head.number
    requires Has(s, head) || head.parentHash in s
    ensures Walked(s, genesis, head, cur, chain) && cur.value.number == n
    ensures TxsOfBranch(txs, head, n)
  {
    cur, chain, txs := Some(head), [], [];
    while cur.Some? && cur.value.number != n
      invariant Walked(s, genesis, head, cur, chain) && n <= cur.value.number
      invariant TxsOfBranch(txs, head, cur.value.number)
      decreases if cur.Some? then cur.value.number + 1 else 0
    {
      WalkStep(s, genesis, head, cur.value, chain, txs);
      chain, txs := chain + [cur.value], txs + cur.value.txs;
      cur := GetHeader(s, cur.value.parentHash, cur.value.number - 1);
    }
  }

  /** Both cursors stand at one height, and the blocks one higher, if on both branches, differ. */
  ghost predicate Descending(s: Store, genesis: Header, oldHead: Header, newHead: Header,
                             old_: Option<Header>, new_: Option<Header>,
                             oldChain: seq<Header>, newChain: seq<Header>, txs: seq<TxHash>)
  {
    && Walked(s, genesis, oldHead, old_, oldChain) && Walked(s, genesis, newHead, new_, newChain)
    && old_.value.number == new_.value.number
    && TxsOfBranch(txs, oldHead, old_.value.number)
    && (old_.value.number == oldHead.number || old_.value.number == newHead.number
        || Up(oldHead, old_.value.number + 1) != Up(newHead, old_.value.number + 1))
  }

  lemma DescendStep(s: Store, genesis: Header, oldHead: Header, newHead: Header, old_: Header, new_: Header,
                    oldChain: seq<Header>, newChain: seq<Header>, txs: seq<TxHash>)
    requires ParentClosed(s, genesis) && old_ != new_
    requires Descending(s, genesis, oldHead, newHead, Some(old_), Some(new_), oldChain, newChain, txs)
    ensures old_.number > 0
    ensures GetHeader(s, old_.parentHash, old_.number - 1).Some?
    ensures GetHeader(s, old_.parentHash, old_.number - 1).value.number == old_.number - 1
    ensures Descending(s, genesis, oldHead, newHead,
                       GetHeader(s, old_.parentHash, old_.number - 1), GetHeader(s, new_.parentHash, new_.number - 1),
                       oldChain + [old_], newChain + [new_], txs + old_.txs)
  {
    UpRooted(genesis, old_, old_.number);
    UpRooted(genesis, new_, new_.number);
    WalkStep(s, genesis, oldHead, old_, oldChain, txs);
    WalkStep(s, genesis, newHead, new_, newChain, []);
  }

  lemma DescendDone(s: Store, genesis: Header, oldHead: Header, newHead: Header, common: Header,
                    oldChain: seq<Header>, newChain: seq<Header>, txs: seq<TxHash>)
    requires Descending(s, genesis, oldHead, newHead, Some(common), Some(common), oldChain, newChain, txs)
    ensures ForksAt(oldHead, newHead, common.number)
    ensures Branch(oldChain, oldHead, common.number) && Branch(newChain, newHead, common.number)
    ensures TxsOfBranch(txs, oldHead, common.number)
  {}

  /** Reduce whichever branch is higher to the height of the other. */
  method Level(s: Store, ghost genesis: Header, oldHead: Header, newHead: Header)
    returns (old_: Option<Header>, new_: Option<Header>,
             oldChain: seq<Header>, newChain: seq<Header>, deletedTxs: seq<TxHash>)
    requires ParentClosed(s, genesis) && Has(s, oldHead)
    requires Rooted(genesis, newHead) && (Has(s, newHead) || newHead.parentHash in s)
    ensures Descending(s, genesis, oldHead, newHead, old_, new_, oldChain, newChain, deletedTxs)
  {
    old_, new_ := Some(oldHead), Some(newHead);
    oldChain, newChain, deletedTxs := [], [], [];
    if oldHead.number > newHead.number {
      old_, oldChain, deletedTxs := Reduce(s, genesis, oldHead, newHead.number);
    } else {
      var ignored;
      new_, newChain, ignored := Reduce(s, genesis, newHead, oldHead.number);
    }
  }

  /**
  The first half of a reorganisation: level the two branches, then walk them down in step
  to the common block. `ok` is false when a block of either branch is missing.
  */
  method CollectBranches(s: Store, ghost genesis: Header, oldHead: Header, newHead: Header)
    returns (ok: bool, oldChain: seq<Header>, newChain: seq<Header>, deletedTxs: seq<TxHash>, ghost c: nat)
    requires ParentClosed(s, genesis) && Has(s, oldHead)
    requires Rooted(genesis, newHead) && (Has(s, newHead) || newHead.parentHash in s)
    ensures ok && ForksAt(oldHead, newHead, c)
    ensures Branch(oldChain, oldHead, c) && Branch(newChain, newHead, c)
    ensures TxsOfBranch(deletedTxs, oldHead, c)
  {
    var old_, new_;
    old_, new_, oldChain, newChain, deletedTxs := Level(s, genesis, oldHead, newHead);
    while old_.Some? && new_.Some? && old_.value != new_.value
      invariant Descending(s, genesis, oldHead, newHead, old_, new_, oldChain, newChain, deletedTxs)
      decreases if old_.Some? then old_.value.number + 1 else 0
    {
      DescendStep(s, genesis, oldHead, newHead, old_.value, new_.value, oldChain, newChain, deletedTxs);
      oldChain, newChain := oldChain + [old_.value], newChain + [new_.value];
      deletedTxs := deletedTxs + old_.value.txs;
      old_, new_ := GetHeader(s, old_.value.parentHash, old_.value.number - 1),
                    GetHeader(s, new_.value.parentHash, new_.value.number - 1);
    }
    ok := old_.Some? && new_.Some?;
    c := old_.value.number;
    DescendDone(s, genesis, oldHead, newHead, old_.value, oldChain, newChain, deletedTxs);
  }

  // ----- The chain

  /** The fork choice rule: more total difficulty; on a tie the lower number, then the coin. */
  ghost predicate Preferred(genesis: Header, block: Header, head: Header, coin: bool) {
    var e, l := TotalDifficulty(genesis, block), TotalDifficulty(genesis, head);
    e > l || (e == l && (block.number < head.number || (block.number == head.number && coin)))
  }

  /** The index entries of the path of `head` above height `c` are set, the others are as before. */
  ghost predicate PathWritten(before: map<nat, Hash>, after: map<nat, Hash>, head: Header, c: nat) {
    && (forall n: nat :: c < n <= head.number ==> n in after && after[n] == HashOf(Up(head, n)))
    && (forall n: nat :: !(c < n <= head.number) ==>
          (n in after <==> n in before) && (n in after ==> after[n] == before[n]))
  }

  lemma PathStep(before: map<nat, Hash>, after: map<nat, Hash>, head: Header, n: nat)
    requires PathWritten(before, after, head, n) && 0 < n <= head.number
    ensures PathWritten(before, after[n := HashOf(Up(head, n))], head, n - 1)
  {}

  lemma PathWrittenHolds(before: map<nat, Hash>, after: map<nat, Hash>, oldHead: Header, head: Header, c: nat)
    requires HoldsPath(before, oldHead) && PathWritten(before, after, head, c)
    requires c <= oldHead.number && c <= head.number && Up(oldHead, c) == Up(head, c)
    ensures HoldsPath(after, head)
  {
    forall n: nat | n <= head.number ensures n in after && after[n] == HashOf(Up(head, n)) {
      if n <= c { SamePathBelow(oldHead, head, c, n); }
    }
  }

  /** One more entry turns the path of the parent into that of the block. */
  lemma ExtendPath(canonical: map<nat, Hash>, oldHead: Header, block: Header)
    requires HoldsPath(canonical, oldHead)
    requires oldHead.number + 1 == block.number && Up(block, oldHead.number) == oldHead
    ensures HoldsPath(canonical[block.number := HashOf(block)], block)
  {
    forall n: nat | n <= oldHead.number ensures HashOf(Up(block, n)) == canonical[n] {
      UpUp(block, oldHead.number, n);
    }
  }

  /**
  The header head after adopting the path of `head` above `c`: the lowest new block if its
  index entry has changed, unmoved if there is no new block.
  */
  ghost predicate HeaderMoved(canonical: map<nat, Hash>, before: Header, after: Header, head: Header, c: nat) {
    && (c < head.number && GetCanonicalHash(canonical, c + 1) != HashOf(Up(head, c + 1)) ==> after == Up(head, c + 1))
    && (c == head.number ==> after == before)
  }

  // ----- Entries above the head

  /** The index entry at `n` names a stored block of that number. */
  ghost predicate EntryStored(canonical: map<nat, Hash>, s: Store, n: nat)
    requires n in canonical
  {
    canonical[n].HashOf? && canonical[n].header.number == n && Has(s, canonical[n].header)
  }

  /** The index entry at `n` is not above `head` or does not descend from it. */
  ghost predicate EntryTidy(canonical: map<nat, Hash>, head: Header, n: nat)
    requires n in canonical
  {
    n > head.number && canonical[n].HashOf? ==> Up(canonical[n].header, head.number) != head
  }

  ghost predicate IndexStored(canonical: map<nat, Hash>, s: Store) {
    forall n {:trigger EntryStored(canonical, s, n)} :: n in canonical ==> EntryStored(canonical, s, n)
  }

  /** No index entry above `head` descends from it. */
  ghost predicate Tidy(canonical: map<nat, Hash>, head: Header) {
    forall n {:trigger EntryTidy(canonical, head, n)} :: n in canonical ==> EntryTidy(canonical, head, n)
  }

  lemma {:induction false} IndexKept(s: Store, genesis: Header, before: map<nat, Hash>, after: map<nat, Hash>,
                                     head: Header, c: nat)
    requires ParentClosed(s, genesis) && Has(s, head) && IndexStored(before, s) && PathWritten(before, after, head, c)
    ensures IndexStored(after, s)
  {
    forall n | n in after ensures EntryStored(after, s, n) {
      if n in before { assert EntryStored(before, s, n); }
      if c < n <= head.number {
        AncestorStored(s, genesis, head, n);
        UpRooted(genesis, head, n);
      }
    }
  }

  lemma {:induction false} StoredStill(canonical: map<nat, Hash>, s: Store, h: Header)
    requires IndexStored(canonical, s)
    ensures IndexStored(canonical, s[HashOf(h) := h])
  {
    forall n | n in canonical ensures EntryStored(canonical, s[HashOf(h) := h], n) {
      assert EntryStored(canonical, s, n);
    }
  }

  /** Entries above a head that was not stored before cannot descend from it. */
  lemma {:induction false} NewHeadTidy(s: Store, genesis: Header, before: map<nat, Hash>, after: map<nat, Hash>,
                                       head: Header, c: nat)
    requires ParentClosed(s, genesis) && HashOf(head) !in s && IndexStored(before, s)
    requires PathWritten(before, after, head, c)
    ensures Tidy(after, head)
  {
    forall n | n in after && n > head.number && after[n].HashOf? ensures EntryTidy(after, head, n) {
      assert EntryStored(before, s, n);
      AncestorStored(s, genesis, before[n].header, head.number);
    }
  }

  lemma {:induction false} HeadIndexed(s: Store, genesis: Header, before: map<nat, Hash>, after: map<nat, Hash>,
                                       head: Header, c: nat)
    requires ParentClosed(s, genesis) && ParentClosed(s[HashOf(head) := head], genesis)
    requires IndexStored(before, s) && PathWritten(before, after, head, c)
    ensures IndexStored(after, s[HashOf(head) := head])
    ensures HashOf(head) !in s ==> Tidy(after, head)
  {
    StoredStill(before, s, head);
    IndexKept(s[HashOf(head) := head], genesis, before, after, head, c);
    if HashOf(head) !in s { NewHeadTidy(s, genesis, before, after, head, c); }
  }

  lemma {:induction false} AncestorLighter(genesis: Header, h: Header, n: nat)
    requires Rooted(genesis, h) && genesis.number == 0 && n < h.number
    requires forall m: nat :: n < m <= h.number ==> Up(h, m).difficulty > 0
    ensures TotalDifficulty(genesis, Up(h, n)) < TotalDifficulty(genesis, h)
  {
    var p := h.parentHash.header;
    assert Up(h, h.number) == h;
    if n < p.number {
      forall m: nat | n < m <= p.number ensures Up(p, m).difficulty > 0 { assert Up(h, m) == Up(p, m); }
      AncestorLighter(genesis, p, n);
    }
  }

  /** With positive difficulties nothing stored descends from a heaviest head. */
  lemma {:induction false} HeaviestTidy(s: Store, tds: map<Hash, int>, genesis: Header, canonical: map<nat, Hash>,
                                        head: Header)
    requires ParentClosed(s, genesis) && TdExact(s, tds, genesis) && Heaviest(tds, head) && Has(s, head)
    requires IndexStored(canonical, s) && forall k <- s :: s[k].number > 0 ==> s[k].difficulty > 0
    ensures Tidy(canonical, head)
  {
    forall n | n in canonical && n > head.number && canonical[n].HashOf? ensures EntryTidy(canonical, head, n) {
      assert EntryStored(canonical, s, n);
      var h := canonical[n].header;
      forall m: nat | head.number < m <= h.number ensures Up(h, m).difficulty > 0 {
        AncestorStored(s, genesis, h, m);
        UpRooted(genesis, h, m);
      }
      AncestorLighter(genesis, h, head.number);
    }
  }

  /** The entry above the fork is not that of the new branch. */
  lemma {:induction false} EntryDiffers(canonical: map<nat, Hash>, oldHead: Header, block: Header, c: nat,
                                        genesis: Header)
    requires HoldsPath(canonical, oldHead) && ForksAt(oldHead, block, c) && c < block.number
    requires Rooted(genesis, block) && genesis.number == 0
    requires c == oldHead.number ==> Tidy(canonical, oldHead)
    ensures GetCanonicalHash(canonical, c + 1) != HashOf(Up(block, c + 1))
  {
    UpRooted(genesis, block, c + 1);
    UpUp(block, c + 1, c);
    if c == oldHead.number && c + 1 in canonical { assert EntryTidy(canonical, oldHead, c + 1); }
  }

  /** The header is the oldest block of the new branch, which is the new head exactly if it is the only one. */
  ghost predicate OldestNew(header: Header, block: Header, c: nat) {
    header == Up(block, c + 1) && (header == block <==> c + 1 == block.number)
  }

  /**
  The header head after `block` has become head, leaving the old path at `c`. The new branch is
  inserted newest first, so the header head is left at its oldest block, and is the new head
  exactly when the branch is one block long. A branch on top of the old head needs a tidy index.
  */
  ghost predicate HeaderAfter(canonical: map<nat, Hash>, oldHead: Header, before: Header, after: Header,
                              block: Header, c: nat)
  {
    if c >= block.number then after == before
    else c < oldHead.number || Tidy(canonical, oldHead) ==>
           OldestNew(after, block, c)
  }

  lemma {:induction false} HeadOfBranch(s: Store, genesis: Header, canonical: map<nat, Hash>, oldHead: Header,
                                        before: Header, after: Header, block: Header, c: nat)
    requires ParentClosed(s, genesis) && Has(s, oldHead) && Rooted(genesis, block) && ForksAt(oldHead, block, c)
    requires HoldsPath(canonical, oldHead) && HeaderMoved(canonical, before, after, block, c)
    ensures HeaderAfter(canonical, oldHead, before, after, block, c)
    ensures c == block.number ==> Has(s, block)
  {
    if c == block.number {
      AncestorStored(s, genesis, oldHead, c);
    } else {
      UpRooted(genesis, block, c + 1);
      if c < oldHead.number || Tidy(canonical, oldHead) { EntryDiffers(canonical, oldHead, block, c, genesis); }
    }
  }

  lemma NoRepeatsBefore(s: Store, h: Header)
    requires NoRepeats(s[HashOf(h) := h]) && (HashOf(h) in s ==> Has(s, h))
    ensures NoRepeats(s) && NoRepeat(h)
  {
    assert Has(s[HashOf(h) := h], h);
    forall x | Has(s, x) ensures NoRepeat(x) { assert Has(s[HashOf(h) := h], x); }
  }

  class BlockChain {
    const genesis: Header
    var blocks: Store
    var tds: map<Hash, int>
    var canonical: map<nat, Hash>
    var lookup: Lookup
    var currentBlock: Header
    var headBlockHash: Hash
    var currentHeader: Header
    var headHeaderHash: Hash
    var currentFastBlock: Header
    var headFastHash: Hash
    ghost var writtenOnce: bool    // no block has been written a second time

    /** Every head agrees with its persisted hash, and the fast head with the header head. */
    ghost predicate HeadsAgree()
      reads this
    {
      headBlockHash == HashOf(currentBlock) && headHeaderHash == HashOf(currentHeader)
      && headFastHash == HashOf(currentFastBlock) && currentFastBlock == currentHeader
    }

    ghost predicate Valid()
      reads this
    {
      && ParentClosed(blocks, genesis) && TdExact(blocks, tds, genesis) && HeadsAgree()
      && Has(blocks, currentBlock)
      && HoldsPath(canonical, currentBlock) && IndexStored(canonical, blocks)
      && (writtenOnce ==> Tidy(canonical, currentBlock))
      && Heaviest(tds, currentBlock) && LowestHeaviest(tds, currentBlock)
      && (NoRepeats(blocks) ==> LookupExact(lookup, currentBlock))
    }

    constructor (g: Header)
      requires g.number == 0 && g.txs == []
      ensures Valid() && genesis == g && currentBlock == g && blocks == map[HashOf(g) := g] && lookup == map[]
              && writtenOnce
    {
      genesis := g;
      blocks := map[HashOf(g) := g];
      tds := map[HashOf(g) := g.difficulty];
      canonical := map[0 := HashOf(g)];
      lookup := map[];
      currentBlock, headBlockHash := g, HashOf(g);
      currentHeader, headHeaderHash := g, HashOf(g);
      currentFastBlock, headFastHash := g, HashOf(g);
      writtenOnce := true;
    }

    /** Make `block` the head; the header and fast heads follow only if the index entry changes. */
    method Insert(block: Header)
      requires HeadsAgree()
      modifies this`canonical, this`headBlockHash, this`currentBlock, this`currentHeader, this`headHeaderHash,
               this`currentFastBlock, this`headFastHash
      ensures HeadsAgree() && currentBlock == block
      ensures canonical == old(canonical)[block.number := HashOf(block)]
      ensures currentHeader
              == if old(GetCanonicalHash(canonical, block.number)) != HashOf(block) then block else old(currentHeader)
      ensures currentFastBlock
              == if old(GetCanonicalHash(canonical, block.number)) != HashOf(block) then block
                 else old(currentFastBlock)
    {
      var updateHeads := GetCanonicalHash(canonical, block.number) != HashOf(block);
      canonical := canonical[block.number := HashOf(block)];
      headBlockHash := HashOf(block);
      currentBlock := block;
      if updateHeads {
        currentHeader, headHeaderHash := block, HashOf(block);
        currentFastBlock, headFastHash := block, HashOf(block);
      }
    }

    /** Insert one block of the new branch and write its lookup entries. */
    method AdoptBlock(block: Header, ghost head: Header, ghost n: nat,
                      ghost canonical0: map<nat, Hash>, ghost lookup0: Lookup)
      requires HeadsAgree() && 0 < n <= head.number && block == Up(head, n) && block.number == n
      requires PathWritten(canonical0, canonical, head, n)
      requires NoRepeat(head) ==> Overlaid(lookup, lookup0, head, n)
      modifies this`canonical, this`headBlockHash, this`currentBlock, this`currentHeader, this`headHeaderHash,
               this`currentFastBlock, this`headFastHash, this`lookup
      ensures HeadsAgree()
      ensures PathWritten(canonical0, canonical, head, n - 1)
      ensures NoRepeat(head) ==> Overlaid(lookup, lookup0, head, n - 1)
      ensures old(GetCanonicalHash(canonical, n)) != HashOf(block) ==> currentHeader == block
    {
      PathStep(canonical0, canonical, head, n);
      Insert(block);
      ghost var before := lookup;
      lookup := WriteTxLookupEntries(lookup, block);
      if NoRepeat(head) { OverlayStep(lookup0, before, lookup, head, n); }
    }

    /** Insert the blocks of the new branch, newest first, and write their lookup entries. */
    method AdoptBranch(newChain: seq<Header>, ghost head: Header, ghost c: nat) returns (addedTxs: seq<TxHash>)
      requires HeadsAgree() && Branch(newChain, head, c)
      requires forall n: nat :: c < n <= head.number ==> Up(head, n).number == n
      modifies this`canonical, this`headBlockHash, this`currentBlock, this`currentHeader, this`headHeaderHash,
               this`currentFastBlock, this`headFastHash, this`lookup
      ensures HeadsAgree()
      ensures PathWritten(old(canonical), canonical, head, c)
      ensures NoRepeat(head) ==> Overlaid(lookup, old(lookup), head, c)
      ensures TxsOfBranch(addedTxs, head, c)
      ensures newChain != [] && old(GetCanonicalHash(canonical, c + 1)) != HashOf(Up(head, c + 1)) ==>
                currentHeader == Up(head, c + 1)
      ensures newChain == [] ==> currentHeader == old(currentHeader)
    {
      addedTxs := [];
      ghost var n: nat := head.number;
      for i := 0 to |newChain|
        invariant n == head.number - i && HeadsAgree()
        invariant PathWritten(old(canonical), canonical, head, n)
        invariant NoRepeat(head) ==> Overlaid(lookup, old(lookup), head, n)
        invariant TxsOfBranch(addedTxs, head, n)
        invariant 0 < i == |newChain| && old(GetCanonicalHash(canonical, c + 1)) != HashOf(Up(head, c + 1)) ==>
                    currentHeader == Up(head, c + 1)
        invariant i == 0 ==> currentHeader == old(currentHeader)
      {
        AdoptBlock(newChain[i], head, n, old(canonical), old(lookup));
        TxsStep(addedTxs, head, n);
        addedTxs := addedTxs + newChain[i].txs;
        n := n - 1;
      }
    }

    /**
    Adopt the branch of `newBlock`, whose parent is stored. Walks both branches to the
    common block, inserts the new branch, then drops the lookup entries of transactions
    that are on the old branch only.
    */
    method Reorg(newBlock: Header) returns (ok: bool, ghost c: nat)
      requires ParentClosed(blocks, genesis) && Has(blocks, currentBlock) && HeadsAgree()
      requires HoldsPath(canonical, currentBlock)
      requires Rooted(genesis, newBlock) && newBlock.parentHash in blocks
      modifies this`canonical, this`headBlockHash, this`currentBlock, this`currentHeader, this`headHeaderHash,
               this`currentFastBlock, this`headFastHash, this`lookup
      ensures ok && HeadsAgree() && ForksAt(old(currentBlock), newBlock, c)
      ensures HoldsPath(canonical, newBlock)
      ensures LookupExact(old(lookup), old(currentBlock)) && NoRepeat(old(currentBlock)) && NoRepeat(newBlock) ==>
                LookupExact(lookup, newBlock)
      ensures PathWritten(old(canonical), canonical, newBlock, c)
      ensures HeaderMoved(old(canonical), old(currentHeader), currentHeader, newBlock, c)
    {
      var oldChain, newChain, deletedTxs;
      ok, oldChain, newChain, deletedTxs, c := CollectBranches(blocks, genesis, currentBlock, newBlock);
      forall n: nat | n <= newBlock.number ensures Up(newBlock, n).number == n { UpRooted(genesis, newBlock, n); }
      ghost var oldHead, lookup0, canonical0 := currentBlock, lookup, canonical;
      var addedTxs := AdoptBranch(newChain, newBlock, c);
      PathWrittenHolds(canonical0, canonical, oldHead, newBlock, c);
      var diff := TxDifference(deletedTxs, addedTxs);
      ghost var lookup1 := lookup;
      lookup := DeleteTxLookupEntries(lookup, diff);
      if LookupExact(lookup0, oldHead) && NoRepeat(oldHead) && NoRepeat(newBlock) {
        ReorgLookup(lookup0, lookup1, lookup, oldHead, newBlock, c);
      }
    }

    /**
    Write one executed block. `coin` is the random choice between heads of equal total
    difficulty and number; `c` is the height at which the new head leaves the old one.
    Header verification has established that the number follows a known parent.
    */
    method WriteBlockAndState(block: Header, coin: bool) returns (status: Status, err: Error, ghost c: nat)
      requires Valid()
      requires block.parentHash in blocks ==> block.number == blocks[block.parentHash].number + 1
      modifies this
      ensures Valid()
      ensures err == UnknownAncestor <==> block.parentHash !in old(blocks)
      ensures err == NoError || err == UnknownAncestor
      ensures err != NoError ==> status == NonStat && unchanged(this)
      ensures err == NoError ==> blocks == old(blocks)[HashOf(block) := block]
      ensures err == NoError ==>
                status == if Preferred(genesis, block, old(currentBlock), coin) then CanonStat else SideStat
      ensures err == NoError ==>
                var e, l := TotalDifficulty(genesis, block), TotalDifficulty(genesis, old(currentBlock));
                && (e > l || (e == l && block.number < old(currentBlock).number) ==> status == CanonStat)
                && (e < l || (e == l && block.number > old(currentBlock).number) ==> status == SideStat)
                && (e == l && block.number == old(currentBlock).number ==> (status == CanonStat <==> coin))
      ensures status == CanonStat ==> currentBlock == block && ForksAt(old(currentBlock), block, c)
      ensures status == SideStat ==> currentBlock == old(currentBlock) && currentHeader == old(currentHeader)
                                     && canonical == old(canonical) && lookup == old(lookup)
      ensures writtenOnce == (old(writtenOnce) && (err == NoError ==> HashOf(block) !in old(blocks)))
      ensures status == CanonStat ==>
                HeaderAfter(old(canonical), old(currentBlock), old(currentHeader), currentHeader, block, c)
      ensures status == CanonStat && writtenOnce ==> OldestNew(currentHeader, block, c)
    {
      c := 0;
      var known, wins := WriteTd(block, coin);
      if !known {
        return NonStat, UnknownAncestor, c;
      }
      status, c := Commit(block, wins);
      err := NoError;
    }

    /** Store `block`, as the new head if it wins and on its side branch otherwise. */
    method Commit(block: Header, wins: bool) returns (status: Status, ghost c: nat)
      requires Weighed(block, if wins then block else currentBlock)
      modifies this
      ensures Valid() && blocks == old(blocks)[HashOf(block) := block]
      ensures status == if wins then CanonStat else SideStat
      ensures writtenOnce == (old(writtenOnce) && HashOf(block) !in old(blocks))
      ensures wins ==> currentBlock == block && ForksAt(old(currentBlock), block, c)
      ensures wins ==> HeaderAfter(old(canonical), old(currentBlock), old(currentHeader), currentHeader, block, c)
      ensures wins && writtenOnce ==> OldestNew(currentHeader, block, c)
      ensures !wins ==> currentBlock == old(currentBlock) && currentHeader == old(currentHeader)
                        && canonical == old(canonical) && lookup == old(lookup)
    {
      if wins {
        c := CommitHead(block);
        status := CanonStat;
      } else {
        c := 0;
        CommitSide(block);
        status := SideStat;
      }
    }

    /** Everything a block write relies on once the total difficulty of `block` is stored. */
    ghost predicate Weighed(block: Header, head: Header)
      reads this
    {
      && ParentClosed(blocks, genesis) && HeadsAgree() && Has(blocks, currentBlock)
      && HoldsPath(canonical, currentBlock) && IndexStored(canonical, blocks)
      && (writtenOnce ==> Tidy(canonical, currentBlock))
      && (NoRepeats(blocks) ==> LookupExact(lookup, currentBlock))
      && ParentClosed(blocks[HashOf(block) := block], genesis) && TdExact(blocks[HashOf(block) := block], tds, genesis)
      && block.parentHash in blocks && Rooted(genesis, block) && block.number > 0
      && Up(block, block.number - 1) == blocks[block.parentHash]
      && Heaviest(tds, head) && LowestHeaviest(tds, head) && (HashOf(block) in blocks ==> Has(blocks, block))
    }

    /** Store a winning block and make it the head. */
    method CommitHead(block: Header) returns (ghost c: nat)
      requires Weighed(block, block)
      modifies this
      ensures Valid() && blocks == old(blocks)[HashOf(block) := block]
      ensures currentBlock == block && ForksAt(old(currentBlock), block, c)
      ensures writtenOnce ==> OldestNew(currentHeader, block, c)
      ensures HeaderAfter(old(canonical), old(currentBlock), old(currentHeader), currentHeader, block, c)
      ensures writtenOnce == (old(writtenOnce) && HashOf(block) !in old(blocks))
    {
      writtenOnce := writtenOnce && HashOf(block) !in blocks;
      c := TakeHead(block);
      HeadOfBranch(old(blocks), genesis, old(canonical), old(currentBlock),
                   old(currentHeader), currentHeader, block, c);
    }

    /** Store a losing block; neither the heads nor the indexes change. */
    method CommitSide(block: Header)
      requires Weighed(block, currentBlock)
      modifies this`blocks, this`writtenOnce
      ensures Valid() && blocks == old(blocks)[HashOf(block) := block]
      ensures writtenOnce == (old(writtenOnce) && HashOf(block) !in old(blocks))
    {
      writtenOnce := writtenOnce && HashOf(block) !in blocks;
      StoredStill(canonical, blocks, block);
      if NoRepeats(blocks[HashOf(block) := block]) { NoRepeatsBefore(blocks, block); }
      blocks := blocks[HashOf(block) := block];
    }

    /** Store the total difficulty of `block`, if its parent is known, and apply the fork choice rule. */
    method WriteTd(block: Header, coin: bool) returns (known: bool, wins: bool)
      requires Valid()
      requires block.parentHash in blocks ==> block.number == blocks[block.parentHash].number + 1
      modifies this`tds
      ensures known <==> block.parentHash in blocks
      ensures !known ==> tds == old(tds) && !wins
      ensures known ==> wins == Preferred(genesis, block, currentBlock, coin)
      ensures known ==> Weighed(block, if wins then block else currentBlock)
    {
      var ptd := GetTd(tds, block.parentHash, block.number - 1);
      if ptd == None {
        return false, false;
      }
      HeaderAdded(blocks, tds, genesis, block);
      HeaviestKept(blocks, tds, genesis, currentBlock, block);
      var localTd := GetTd(tds, HashOf(currentBlock), currentBlock.number).value;
      var externTd := block.difficulty + ptd.value;
      ghost var before := tds;
      tds := tds[HashOf(block) := externTd];
      known, wins := true, externTd > localTd;
      if !wins && externTd == localTd {
        wins := block.number < currentBlock.number || (block.number == currentBlock.number && coin);
      }
      LowestKept(before, currentBlock, block, externTd, wins);
    }

    /** The canonical half of a block write: reorganise if needed, store, then set the head. */
    method TakeHead(block: Header) returns (ghost c: nat)
      requires ParentClosed(blocks, genesis) && HeadsAgree() && Has(blocks, currentBlock)
      requires HoldsPath(canonical, currentBlock) && IndexStored(canonical, blocks)
      requires ParentClosed(blocks[HashOf(block) := block], genesis)
      requires block.parentHash in blocks && Rooted(genesis, block) && block.number > 0
      requires Up(block, block.number - 1) == blocks[block.parentHash]
      requires NoRepeats(blocks) ==> LookupExact(lookup, currentBlock)
      modifies this`blocks, this`canonical, this`headBlockHash, this`currentBlock, this`currentHeader,
               this`headHeaderHash, this`currentFastBlock, this`headFastHash, this`lookup
      ensures blocks == old(blocks)[HashOf(block) := block] && HeadsAgree() && currentBlock == block
      ensures HoldsPath(canonical, block) && ForksAt(old(currentBlock), block, c)
      ensures NoRepeats(blocks) ==> LookupExact(lookup, block)
      ensures IndexStored(canonical, blocks) && (HashOf(block) !in old(blocks) ==> Tidy(canonical, block))
      ensures HeaderMoved(old(canonical), old(currentHeader), currentHeader, block, c)
    {
      ghost var oldHead, lookup0 := currentBlock, lookup;
      if block.parentHash != HashOf(currentBlock) {
        c := Switch(block);
      } else {
        c := Extend(block);
      }
      HeadIndexed(old(blocks), genesis, old(canonical), canonical, block, c);
      if NoRepeats(blocks) {
        NoRepeatsBefore(old(blocks), block);
        assert NoRepeat(oldHead) && LookupExact(lookup0, oldHead);
      }
    }

    /** Adopt the branch of `block`, then store it as head. */
    method Switch(block: Header) returns (ghost c: nat)
      requires ParentClosed(blocks, genesis) && HeadsAgree() && Has(blocks, currentBlock)
      requires HoldsPath(canonical, currentBlock)
      requires block.parentHash in blocks && Rooted(genesis, block)
      modifies this`blocks, this`canonical, this`headBlockHash, this`currentBlock, this`currentHeader,
               this`headHeaderHash, this`currentFastBlock, this`headFastHash, this`lookup
      ensures blocks == old(blocks)[HashOf(block) := block] && HeadsAgree() && currentBlock == block
      ensures HoldsPath(canonical, block) && ForksAt(old(currentBlock), block, c)
      ensures NoRepeat(old(currentBlock)) && NoRepeat(block) && LookupExact(old(lookup), old(currentBlock)) ==>
                LookupExact(lookup, block)
      ensures PathWritten(old(canonical), canonical, block, c)
      ensures HeaderMoved(old(canonical), old(currentHeader), currentHeader, block, c)
    {
      ghost var exact := NoRepeat(currentBlock) && LookupExact(lookup, currentBlock);
      var ok;
      ok, c := Reorg(block);
      assert ok;
      ghost var path := canonical;
      assert path[block.number] == HashOf(block);
      StoreHead(block, exact, block);
      assert canonical == path;
    }

    /** Store a child of the head as head. */
    method Extend(block: Header) returns (ghost c: nat)
      requires HeadsAgree() && HoldsPath(canonical, currentBlock)
      requires block.number == currentBlock.number + 1 && Up(block, currentBlock.number) == currentBlock
      modifies this`blocks, this`canonical, this`headBlockHash, this`currentBlock, this`currentHeader,
               this`headHeaderHash, this`currentFastBlock, this`headFastHash, this`lookup
      ensures blocks == old(blocks)[HashOf(block) := block] && HeadsAgree() && currentBlock == block
      ensures HoldsPath(canonical, block) && ForksAt(old(currentBlock), block, c)
      ensures NoRepeat(old(currentBlock)) && NoRepeat(block) && LookupExact(old(lookup), old(currentBlock)) ==>
                LookupExact(lookup, block)
      ensures PathWritten(old(canonical), canonical, block, c)
      ensures HeaderMoved(old(canonical), old(currentHeader), currentHeader, block, c)
    {
      c := currentBlock.number;
      ExtendPath(canonical, currentBlock, block);
      StoreHead(block, NoRepeat(currentBlock) && LookupExact(lookup, currentBlock), currentBlock);
    }

    /** Write the batch of a canonical block (body and lookup entries) and insert it as head. */
    method StoreHead(block: Header, ghost exact: bool, ghost base: Header)
      requires HeadsAgree()
      requires base == block || (base.number + 1 == block.number && Up(block, base.number) == base)
      requires exact && NoRepeat(block) ==> LookupExact(lookup, base) && NoRepeat(base)
      modifies this`blocks, this`canonical, this`headBlockHash, this`currentBlock, this`currentHeader,
               this`headHeaderHash, this`currentFastBlock, this`headFastHash, this`lookup
      ensures blocks == old(blocks)[HashOf(block) := block] && HeadsAgree() && currentBlock == block
      ensures canonical == old(canonical)[block.number := HashOf(block)]
      ensures exact && NoRepeat(block) ==> LookupExact(lookup, block)
      ensures currentHeader
              == if old(GetCanonicalHash(canonical, block.number)) != HashOf(block) then block else old(currentHeader)
    {
      ghost var lookup0 := lookup;
      lookup := WriteTxLookupEntries(lookup, block);
      blocks := blocks[HashOf(block) := block];
      if exact && NoRepeat(block) {
        if base == block { RewriteLookup(lookup0, lookup, block); } else { ExtendLookup(lookup0, lookup, base, block); }
      }
      Insert(block);
    }
  }

  /** Two blocks on one parent, the second the lighter one. */
  method Siblings(g: Header, a: Header, b: Header) returns (chain: BlockChain)
    requires g == Header(Zero, 0, g.difficulty, [])
    requires a == Header(HashOf(g), 1, 2, []) && b == Header(HashOf(g), 1, 1, [])
    ensures fresh(chain) && chain.Valid() && chain.writtenOnce && chain.genesis == g
    ensures chain.currentBlock == a && chain.blocks == map[HashOf(g) := g, HashOf(a) := a, HashOf(b) := b]
  {
    chain := new BlockChain(g);
    var status, err, c := chain.WriteBlockAndState(a, false);
    status, err, c := chain.WriteBlockAndState(b, false);
  }

  /** A child of the lighter one wins, and the header head stays at its parent. */
  method LaggingHeader(g: Header) returns (chain: BlockChain)
    requires g == Header(Zero, 0, g.difficulty, [])
    ensures fresh(chain) && chain.Valid() && chain.writtenOnce
    ensures chain.currentBlock.number == 2 && chain.currentHeader == Up(chain.currentBlock, 1) != chain.currentBlock
  {
    var a, b := Header(HashOf(g), 1, 2, []), Header(HashOf(g), 1, 1, []);
    var d := Header(HashOf(b), 2, 2, []);
    chain := Siblings(g, a, b);
    var status, err, c := chain.WriteBlockAndState(d, false);
    assert TotalDifficulty(g, d) == 2 + TotalDifficulty(g, b);
    Forks(g, a, b, d, c);
  }

  /** Of two branches of equal difficulty the shorter wins, whatever the coin. */
  method TieForLower(g: Header, coin: bool) returns (chain: BlockChain)
    requires g == Header(Zero, 0, g.difficulty, [])
    ensures fresh(chain) && chain.Valid() && chain.currentBlock == Header(HashOf(g), 1, 2, [])
  {
    chain := new BlockChain(g);
    var a1, b1 := Header(HashOf(g), 1, 1, []), Header(HashOf(g), 1, 2, []);
    var a2 := Header(HashOf(a1), 2, 1, []);
    var status, err, c := chain.WriteBlockAndState(a1, coin);
    status, err, c := chain.WriteBlockAndState(a2, coin);
    TwoAndTwo(g, a1, a2, b1);
    status, err, c := chain.WriteBlockAndState(b1, coin);
  }

  lemma {:induction false} TwoAndTwo(g: Header, a1: Header, a2: Header, b1: Header)
    requires g == Header(Zero, 0, g.difficulty, []) && a1 == Header(HashOf(g), 1, 1, [])
    requires a2 == Header(HashOf(a1), 2, 1, []) && b1 == Header(HashOf(g), 1, 2, [])
    ensures TotalDifficulty(g, a1) == g.difficulty + 1
    ensures TotalDifficulty(g, a2) == TotalDifficulty(g, b1) == g.difficulty + 2
  {
  }

  lemma {:induction false} Forks(g: Header, a: Header, b: Header, d: Header, c: nat)
    requires g.number == 0 && a.number == b.number == 1 && a != b && a.parentHash == b.parentHash == HashOf(g)
    requires d.number == 2 && d.parentHash == HashOf(b) && ForksAt(a, d, c)
    ensures c == 0
  {
    assert Up(d, 1) == b && Up(a, 1) == a;
    assert Up(d, 0) == Up(b, 0) == g;
  }
}
