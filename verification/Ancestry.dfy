/**
Headers, hashes and the ancestor path of a header.

A hash is symbolic: it is either the zero hash or the hash of one header. Distinct
headers therefore have distinct hashes, no header can be its own ancestor, and the zero
hash belongs to no header. A header commits to its transactions through a root, so the
transactions appear here as a field, and a block is its header.
*/
module Ancestry {
  import opened Wrappers

  type TxHash = nat

  datatype Hash = Zero | HashOf(header: Header)

  datatype Header = Header(parentHash: Hash, number: nat, difficulty: int, txs: seq<TxHash>)

  /** Headers keyed by hash. */
  type Store = map<Hash, Header>

  /** The outcome of writing a header or a block. */
  datatype Status = NonStat | CanonStat | SideStat

  // ----- The ancestor path, defined on the header alone

  /** The header `h` is linked down to `genesis`, with numbers falling by one. */
  ghost predicate Rooted(genesis: Header, h: Header) {
    h == genesis
    || (h.parentHash.HashOf? && h.number == h.parentHash.header.number + 1
        && Rooted(genesis, h.parentHash.header))
  }

  /** The ancestor of `h` at height `n` (`h` itself when `n` is not below it). */
  ghost function Up(h: Header, n: nat): (a: Header)
    ensures h.number <= n ==> a == h
  {
    if h.number <= n || h.parentHash.Zero? then h else Up(h.parentHash.header, n)
  }

  /** `a` is met when walking from `h` to `genesis` along parent hashes. */
  ghost predicate IsAncestor(genesis: Header, a: Header, h: Header) {
    a == h || (h != genesis && h.parentHash.HashOf? && IsAncestor(genesis, a, h.parentHash.header))
  }

  /** The sum of the difficulties from `genesis` to `h`. */
  ghost function TotalDifficulty(genesis: Header, h: Header): int {
    if h == genesis || h.parentHash.Zero? then h.difficulty
    else h.difficulty + TotalDifficulty(genesis, h.parentHash.header)
  }

  /** The sum of the difficulties of the ancestors of `h` at heights 0 to `n`. */
  ghost function PathSum(h: Header, n: nat): int {
    Up(h, n).difficulty + if n == 0 then 0 else PathSum(h, n - 1)
  }

  lemma {:induction false} UpRooted(genesis: Header, h: Header, n: nat)
    requires Rooted(genesis, h) && genesis.number == 0 && n <= h.number
    ensures Rooted(genesis, Up(h, n)) && Up(h, n).number == n
    ensures n == 0 ==> Up(h, n) == genesis
    ensures n > 0 ==> Up(h, n).parentHash == HashOf(Up(h, n - 1))
  {
    if n < h.number {
      UpRooted(genesis, h.parentHash.header, n);
      if n > 0 { assert Up(h, n - 1) == Up(h.parentHash.header, n - 1); }
    } else if n > 0 {
      assert Up(h, n - 1) == h.parentHash.header;
    }
  }

  lemma {:induction false} UpUp(h: Header, m: nat, n: nat)
    requires n <= m
    ensures Up(Up(h, m), n) == Up(h, n)
  {
    if h.number > m && h.parentHash.HashOf? { UpUp(h.parentHash.header, m, n); }
  }

  lemma {:induction false} PathSumUp(h: Header, m: nat, n: nat)
    requires n <= m
    ensures PathSum(Up(h, m), n) == PathSum(h, n)
  {
    UpUp(h, m, n);
    if n > 0 { PathSumUp(h, m, n - 1); }
  }

  /** The total difficulty is the sum over all heights of the path. */
  lemma {:induction false} TotalIsPathSum(genesis: Header, h: Header)
    requires Rooted(genesis, h) && genesis.number == 0
    ensures TotalDifficulty(genesis, h) == PathSum(h, h.number)
  {
    if h != genesis {
      var p := h.parentHash.header;
      TotalIsPathSum(genesis, p);
      assert Up(h, p.number) == p;
      PathSumUp(h, p.number, p.number);
    }
  }

  /** The walk and the height function describe the same ancestors. */
  lemma {:induction false} AncestorIffUp(genesis: Header, a: Header, h: Header)
    requires Rooted(genesis, h) && genesis.number == 0
    ensures IsAncestor(genesis, a, h) <==> a.number <= h.number && Up(h, a.number) == a
  {
    if h != genesis {
      var p := h.parentHash.header;
      AncestorIffUp(genesis, a, p);
      if a.number <= p.number { assert Up(h, a.number) == Up(p, a.number); }
    }
  }

  // ----- Stores

  /** Header `h` is stored under its own hash. */
  predicate Has(s: Store, h: Header) {
    HashOf(h) in s && s[HashOf(h)] == h
  }

  /** Every entry is a header under its own hash, is rooted, and has its parent stored. */
  ghost predicate ParentClosed(s: Store, genesis: Header) {
    && genesis.number == 0 && Has(s, genesis)
    && (forall k <- s :: k == HashOf(s[k]))
    && (forall h {:trigger Has(s, h)} :: Has(s, h) ==>
          Rooted(genesis, h) && (h == genesis || h.parentHash in s))
  }

  /** A database read by hash and number; `number` is -1 below block 0. */
  function GetHeader(s: Store, hash: Hash, number: int): Option<Header> {
    if hash in s && s[hash].number == number then Some(s[hash]) else None
  }

  /** The stored total difficulty of the header with this hash and number. */
  function GetTd(tds: map<Hash, int>, hash: Hash, number: int): Option<int> {
    if hash in tds && hash.HashOf? && hash.header.number == number then Some(tds[hash]) else None
  }

  /** The canonical index at `n`, the zero hash where there is no entry. */
  function GetCanonicalHash(canonical: map<nat, Hash>, n: nat): Hash {
    if n in canonical then canonical[n] else Zero
  }

  /** In a parent-closed store the parent of a rooted header is found by hash and number. */
  lemma ParentFound(s: Store, genesis: Header, h: Header)
    requires ParentClosed(s, genesis) && h.number > 0
    requires Has(s, h) || (Rooted(genesis, h) && h.parentHash in s)
    ensures GetHeader(s, h.parentHash, h.number - 1) == Some(Up(h, h.number - 1))
    ensures Has(s, Up(h, h.number - 1)) && HashOf(Up(h, h.number - 1)) == h.parentHash
  {
    UpRooted(genesis, h, h.number);
  }

  /** The ancestors of a stored header are stored. */
  lemma {:induction false} AncestorStored(s: Store, genesis: Header, h: Header, n: nat)
    requires ParentClosed(s, genesis) && Has(s, h) && n <= h.number
    ensures Has(s, Up(h, n))
  {
    if n < h.number {
      ParentFound(s, genesis, h);
      UpUp(h, h.number - 1, n);
      UpRooted(genesis, h, h.number - 1);
      AncestorStored(s, genesis, Up(h, h.number - 1), n);
    }
  }

  /** Each stored header carries the sum of the difficulties along its path. */
  ghost predicate TdExact(s: Store, tds: map<Hash, int>, genesis: Header) {
    tds.Keys == s.Keys && forall k <- s :: tds[k] == TotalDifficulty(genesis, s[k])
  }

  /** No stored header has more total difficulty than `head`. */
  ghost predicate Heaviest(tds: map<Hash, int>, head: Header) {
    HashOf(head) in tds && forall k <- tds :: tds[k] <= tds[HashOf(head)]
  }

  /** A header above a stored parent is rooted, and its parent is its ancestor one lower. */
  lemma ChildRooted(s: Store, genesis: Header, h: Header)
    requires ParentClosed(s, genesis) && h.parentHash in s && h.number == s[h.parentHash].number + 1
    ensures Rooted(genesis, h) && h != genesis && h.parentHash == HashOf(s[h.parentHash])
    ensures Up(h, h.number - 1) == s[h.parentHash]
  {
    assert Has(s, s[h.parentHash]);
  }

  lemma StoreGrows(s: Store, genesis: Header, h: Header)
    requires ParentClosed(s, genesis) && Rooted(genesis, h) && h.parentHash in s
    ensures ParentClosed(s[HashOf(h) := h], genesis)
  {
    assert Has(s[HashOf(h) := h], genesis) by { assert Has(s, genesis); }
    forall x | Has(s[HashOf(h) := h], x)
      ensures Rooted(genesis, x) && (x == genesis || x.parentHash in s[HashOf(h) := h])
    {
      if x != h { assert Has(s, x); }
    }
  }

  lemma SumsGrow(s: Store, tds: map<Hash, int>, genesis: Header, h: Header)
    requires TdExact(s, tds, genesis) && h != genesis && h.parentHash in s && h.parentHash == HashOf(s[h.parentHash])
    ensures TotalDifficulty(genesis, h) == h.difficulty + tds[h.parentHash]
    ensures TdExact(s[HashOf(h) := h], tds[HashOf(h) := TotalDifficulty(genesis, h)], genesis)
  {}

  /** Adding a header whose parent is stored keeps the store parent-closed and the sums exact. */
  lemma HeaderAdded(s: Store, tds: map<Hash, int>, genesis: Header, h: Header)
    requires ParentClosed(s, genesis) && TdExact(s, tds, genesis) && h.parentHash in s
    requires h.number == s[h.parentHash].number + 1
    ensures ParentClosed(s[HashOf(h) := h], genesis)
    ensures TdExact(s[HashOf(h) := h], tds[HashOf(h) := TotalDifficulty(genesis, h)], genesis)
    ensures TotalDifficulty(genesis, h) == h.difficulty + tds[h.parentHash]
    ensures Rooted(genesis, h) && Up(h, h.number - 1) == s[h.parentHash] && h.parentHash == HashOf(s[h.parentHash])
  {
    ChildRooted(s, genesis, h);
    StoreGrows(s, genesis, h);
    SumsGrow(s, tds, genesis, h);
  }

  /** The head stays heaviest when it is kept against a lighter newcomer or replaced by one at least as heavy. */
  lemma HeaviestKept(s: Store, tds: map<Hash, int>, genesis: Header, head: Header, h: Header)
    requires TdExact(s, tds, genesis) && Heaviest(tds, head) && (HashOf(h) in s ==> Has(s, h))
    requires Has(s, head)
    ensures TotalDifficulty(genesis, h) >= TotalDifficulty(genesis, head) ==>
              Heaviest(tds[HashOf(h) := TotalDifficulty(genesis, h)], h)
    ensures TotalDifficulty(genesis, h) <= TotalDifficulty(genesis, head) ==>
              Heaviest(tds[HashOf(h) := TotalDifficulty(genesis, h)], head)
  {}

  /** No header as heavy as `head` has a lower number. */
  ghost predicate LowestHeaviest(tds: map<Hash, int>, head: Header) {
    HashOf(head) in tds && forall k {:trigger NotLower(tds, head, k)} :: k in tds ==> NotLower(tds, head, k)
  }

  ghost predicate NotLower(tds: map<Hash, int>, head: Header, k: Hash)
    requires k in tds && HashOf(head) in tds
  {
    k.HashOf? && tds[k] == tds[HashOf(head)] ==> head.number <= k.header.number
  }

  /** The head stays lowest of the heaviest if a tie goes to the lower number. */
  lemma {:induction false} LowestKept(tds: map<Hash, int>, head: Header, h: Header, td: int, wins: bool)
    requires Heaviest(tds, head) && LowestHeaviest(tds, head)
    requires HashOf(h) in tds ==> tds[HashOf(h)] == td
    requires if wins then td > tds[HashOf(head)] || (td == tds[HashOf(head)] && h.number <= head.number)
             else td < tds[HashOf(head)] || (td == tds[HashOf(head)] && h.number >= head.number)
    ensures LowestHeaviest(tds[HashOf(h) := td], if wins then h else head)
  {
    var now, best := tds[HashOf(h) := td], if wins then h else head;
    forall k | k in now ensures NotLower(now, best, k) {
      if k in tds { assert NotLower(tds, head, k); }
    }
  }

  // ----- FindCommonAncestor

  /** `c` is an ancestor of both, and no common ancestor is higher. */
  ghost predicate HighestCommon(genesis: Header, c: Header, a: Header, b: Header) {
    && IsAncestor(genesis, c, a) && IsAncestor(genesis, c, b)
    && forall d :: IsAncestor(genesis, d, a) && IsAncestor(genesis, d, b) ==> d.number <= c.number
  }

  lemma MeetingPointIsHighest(genesis: Header, a: Header, b: Header, n: nat)
    requires Rooted(genesis, a) && Rooted(genesis, b) && genesis.number == 0
    requires n <= a.number && n <= b.number && Up(a, n) == Up(b, n)
    requires n == a.number || n == b.number || Up(a, n + 1) != Up(b, n + 1)
    ensures HighestCommon(genesis, Up(a, n), a, b)
  {
    UpRooted(genesis, a, n);
    AncestorIffUp(genesis, Up(a, n), a);
    AncestorIffUp(genesis, Up(a, n), b);
    forall d | IsAncestor(genesis, d, a) && IsAncestor(genesis, d, b) ensures d.number <= n {
      AncestorIffUp(genesis, d, a);
      AncestorIffUp(genesis, d, b);
      if d.number > n { UpUp(a, d.number, n + 1); UpUp(b, d.number, n + 1); }
    }
  }

  /**
  Follow parent links from `h0` until the number is at most `n`. The result is `None`
  when a header on the way is not in the store, as under light synchronisation.
  */
  method Descend(s: Store, ghost genesis: Header, h0: Header, n: nat) returns (h: Option<Header>)
    ensures ParentClosed(s, genesis) && Has(s, h0) ==>
              h == Some(Up(h0, n)) && Has(s, Up(h0, n))
    ensures h.Some? ==> h.value.number <= n && (h0.number >= n ==> h.value.number == n)
    ensures h0.number <= n ==> h == Some(h0)
  {
    h := Some(h0);
    while h.Some? && h.value.number > n
      invariant h.Some? ==> h.value == h0 || n <= h.value.number < h0.number
      invariant h0.number <= n ==> h == Some(h0)
      invariant ParentClosed(s, genesis) && Has(s, h0) ==>
                  h.Some? && Has(s, h.value) && Up(h.value, n) == Up(h0, n)
      decreases if h.Some? then h.value.number + 1 else 0
    {
      if ParentClosed(s, genesis) && Has(s, h0) {
        ParentFound(s, genesis, h.value);
        UpUp(h.value, h.value.number - 1, n);
      }
      h := GetHeader(s, h.value.parentHash, h.value.number - 1);
    }
  }

  /** Level the two headers, then descend in step until their hashes agree. */
  method FindCommonAncestor(s: Store, ghost genesis: Header, a0: Header, b0: Header) returns (r: Option<Header>)
    ensures ParentClosed(s, genesis) && Has(s, a0) && Has(s, b0) ==>
              r.Some? && Has(s, r.value) && HighestCommon(genesis, r.value, a0, b0)
  {
    ghost var closed := ParentClosed(s, genesis) && Has(s, a0) && Has(s, b0);
    var a := Descend(s, genesis, a0, b0.number);
    var b := Some(b0);
    if a.Some? { b := Descend(s, genesis, b0, a.value.number); }
    if closed { Levelled(s, genesis, a0, b0); }
    ghost var top: nat := if a0.number <= b0.number then a0.number else b0.number;
    while a.Some? && b.Some? && a.value != b.value
      invariant a.Some? && b.Some? ==> a.value.number == b.value.number <= top
      invariant closed ==> InStep(s, genesis, a0, b0, a, b, top)
      decreases if a.Some? && b.Some? then a.value.number + 1 else 0
    {
      if closed { StepDown(s, genesis, a0, b0, a.value, b.value, top); }
      a, b := GetHeader(s, a.value.parentHash, a.value.number - 1),
              GetHeader(s, b.value.parentHash, b.value.number - 1);
    }
    if closed { Met(s, genesis, a0, b0, a.value, top); }
    r := if b.Some? then a else None;
  }

  /** The two cursors are the ancestors at one height, and the headers one higher differ. */
  ghost predicate InStep(s: Store, genesis: Header, a0: Header, b0: Header,
                         a: Option<Header>, b: Option<Header>, top: nat)
  {
    && a.Some? && Has(s, a.value) && b.Some? && Has(s, b.value)
    && Rooted(genesis, a0) && Rooted(genesis, b0)
    && a.value.number == b.value.number <= top
    && a.value == Up(a0, a.value.number) && b.value == Up(b0, a.value.number)
    && (a.value.number < top ==> Up(a0, a.value.number + 1) != Up(b0, a.value.number + 1))
  }

  lemma Levelled(s: Store, genesis: Header, a0: Header, b0: Header)
    requires ParentClosed(s, genesis) && Has(s, a0) && Has(s, b0)
    requires Has(s, Up(a0, b0.number)) && Has(s, Up(b0, Up(a0, b0.number).number))
    ensures InStep(s, genesis, a0, b0, Some(Up(a0, b0.number)), Some(Up(b0, Up(a0, b0.number).number)),
                   if a0.number <= b0.number then a0.number else b0.number)
  {
    if b0.number <= a0.number { UpRooted(genesis, a0, b0.number); } else { UpRooted(genesis, b0, a0.number); }
  }

  lemma Met(s: Store, genesis: Header, a0: Header, b0: Header, a: Header, top: nat)
    requires genesis.number == 0 && InStep(s, genesis, a0, b0, Some(a), Some(a), top)
    requires top == if a0.number <= b0.number then a0.number else b0.number
    ensures HighestCommon(genesis, a, a0, b0)
  {
    MeetingPointIsHighest(genesis, a0, b0, a.number);
  }

  lemma CursorStep(s: Store, genesis: Header, h0: Header, h: Header)
    requires ParentClosed(s, genesis) && Has(s, h) && h == Up(h0, h.number) && h.number > 0
    ensures GetHeader(s, h.parentHash, h.number - 1) == Some(Up(h0, h.number - 1))
    ensures Has(s, Up(h0, h.number - 1)) && Up(h0, h.number - 1).number == h.number - 1
  {
    ParentFound(s, genesis, h);
    UpUp(h0, h.number, h.number - 1);
  }

  lemma StepDown(s: Store, genesis: Header, a0: Header, b0: Header, a: Header, b: Header, top: nat)
    requires ParentClosed(s, genesis) && InStep(s, genesis, a0, b0, Some(a), Some(b), top)
    requires a != b && top <= a0.number && top <= b0.number
    ensures a.number > 0
    ensures InStep(s, genesis, a0, b0, GetHeader(s, a.parentHash, a.number - 1),
                   GetHeader(s, b.parentHash, b.number - 1), top)
  {
    if a.number == 0 {
      UpRooted(genesis, a0, 0);
      UpRooted(genesis, b0, 0);
    } else {
      CursorStep(s, genesis, a0, a);
      CursorStep(s, genesis, b0, b);
    }
  }
}
