/**
The header chain: headers, total difficulties and the number-to-hash index, patched in
place by every header written. The reference definition is the ancestor path of the head.
*/
module HeaderChain {
  import opened Ancestry
  import opened Wrappers

  datatype Error = NoError | UnknownAncestor | NonContiguous | Aborted

  /** The index maps exactly the heights up to `head`, each to the ancestor at that height. */
  ghost predicate IsPathIndex(canonical: map<nat, Hash>, head: Header) {
    && (forall n: nat :: n in canonical <==> n <= head.number)
    && (forall n: nat :: n <= head.number ==> n in canonical && canonical[n] == HashOf(Up(head, n)))
  }

  /** Above `n` the index holds the path of `head`; up to `n` it holds the path of `base`. */
  ghost predicate Patched(canonical: map<nat, Hash>, head: Header, base: Header, n: nat) {
    && (forall m: nat :: m <= n && m <= base.number ==> m in canonical && canonical[m] == HashOf(Up(base, m)))
    && (forall m: nat :: n < m < head.number ==> m in canonical && canonical[m] == HashOf(Up(head, m)))
    && (forall m: nat :: m in canonical ==> (m <= n && m <= base.number) || n < m <= head.number)
  }

  lemma PatchStart(canonical: map<nat, Hash>, head: Header, base: Header)
    requires IsPathIndex(canonical, base) && head.number > 0
    ensures Patched(map n | n in canonical && n <= head.number :: canonical[n], head, base, head.number - 1)
  {}

  lemma PatchStep(canonical: map<nat, Hash>, head: Header, base: Header, n: nat)
    requires Patched(canonical, head, base, n) && 0 < n < head.number
    ensures Patched(canonical[n := HashOf(Up(head, n))], head, base, n - 1)
  {}

  /** Once the two paths agree at `n` they agree below it, so the patched index is the path of `head`. */
  lemma PatchComplete(canonical: map<nat, Hash>, head: Header, base: Header, n: nat)
    requires Patched(canonical, head, base, n) && n < head.number && n <= base.number
    requires Up(head, n) == Up(base, n)
    ensures IsPathIndex(canonical[head.number := HashOf(head)], head)
  {
    forall m: nat | m <= n ensures Up(head, m) == Up(base, m) {
      UpUp(head, n, m);
      UpUp(base, n, m);
    }
  }

  class HeaderChain {
    const genesis: Header
    var headers: Store
    var tds: map<Hash, int>
    var canonical: map<nat, Hash>
    var currentHeader: Header
    var headHeaderHash: Hash

    ghost predicate Valid()
      reads this
    {
      && ParentClosed(headers, genesis)
      && TdExact(headers, tds, genesis)
      && headHeaderHash == HashOf(currentHeader)
      && Has(headers, currentHeader)
      && IsPathIndex(canonical, currentHeader)
      && Heaviest(tds, currentHeader)
    }

    constructor (g: Header)
      requires g.number == 0
      ensures Valid() && genesis == g && currentHeader == g
      ensures headers == map[HashOf(g) := g]
    {
      genesis := g;
      headers := map[HashOf(g) := g];
      tds := map[HashOf(g) := g.difficulty];
      canonical := map[0 := HashOf(g)];
      currentHeader := g;
      headHeaderHash := HashOf(g);
    }

    /** Delete the canonical assignments above `number`, up to the first gap. */
    method DeleteAbove(number: nat)
      requires IsPathIndex(canonical, currentHeader)
      modifies this`canonical
      ensures canonical == map n | n in old(canonical) && n <= number :: old(canonical)[n]
    {
      var i := number + 1;
      while GetCanonicalHash(canonical, i) != Zero
        invariant i > number
        invariant canonical == map n | n in old(canonical) && !(number < n < i) :: old(canonical)[n]
        decreases currentHeader.number + 1 - i
      {
        canonical := canonical - {i};
        i := i + 1;
      }
    }

    /** Walk from `parent` towards genesis, overwriting assignments until one already agrees. */
    method OverwriteStale(header: Header, ghost base: Header)
      requires ParentClosed(headers, genesis)
      requires header.number > 0 && header.parentHash in headers
      requires header.parentHash == HashOf(Up(header, header.number - 1))
      requires Up(header, header.number - 1).number == header.number - 1
      requires Has(headers, base) && Rooted(genesis, base)
      requires Patched(canonical, header, base, header.number - 1)
      modifies this`canonical
      ensures IsPathIndex(canonical[header.number := HashOf(header)], header)
    {
      var headHash, headNumber := header.parentHash, header.number - 1;
      var headHeader := GetHeader(headers, headHash, headNumber);
      assert Has(headers, Up(header, headNumber));
      UpRooted(genesis, base, 0);
      while GetCanonicalHash(canonical, headNumber) != headHash
        invariant 0 <= headNumber < header.number
        invariant headHash == HashOf(Up(header, headNumber)) && Has(headers, Up(header, headNumber))
        invariant headHeader == Some(Up(header, headNumber)) && headHeader.value.number == headNumber
        invariant Patched(canonical, header, base, headNumber)
        decreases headNumber
      {
        UpRooted(genesis, headHeader.value, 0);
        PatchStep(canonical, header, base, headNumber);
        canonical := canonical[headNumber := headHash];
        ParentFound(headers, genesis, headHeader.value);
        UpUp(header, headNumber, headNumber - 1);
        headHash, headNumber := headHeader.value.parentHash, headHeader.value.number - 1;
        headHeader := GetHeader(headers, headHash, headNumber);
      }
      PatchComplete(canonical, header, base, headNumber);
    }

    /** Re-route the canonical chain to `header`, whose parent is stored. */
    method Reroute(header: Header)
      requires ParentClosed(headers, genesis) && Has(headers, currentHeader)
      requires IsPathIndex(canonical, currentHeader)
      requires header.number > 0 && header.parentHash in headers
      requires header.parentHash == HashOf(Up(header, header.number - 1))
      requires Up(header, header.number - 1).number == header.number - 1
      modifies this`canonical, this`currentHeader, this`headHeaderHash
      ensures IsPathIndex(canonical, header) && currentHeader == header && headHeaderHash == HashOf(header)
    {
      PatchStart(canonical, header, currentHeader);
      DeleteAbove(header.number);
      OverwriteStale(header, currentHeader);
      canonical := canonical[header.number := HashOf(header)];
      headHeaderHash, currentHeader := HashOf(header), header;
    }

    /**
    Write one header. `coin` is the random choice between heads of equal total difficulty.
    Header verification has established that the number follows a known parent.
    */
    method WriteHeader(header: Header, coin: bool) returns (status: Status, err: Error)
      requires Valid()
      requires header.parentHash in headers ==> header.number == headers[header.parentHash].number + 1
      modifies this
      ensures Valid()
      ensures err == UnknownAncestor <==> header.parentHash !in old(headers)
      ensures err == NoError || err == UnknownAncestor
      ensures err != NoError ==> status == NonStat && unchanged(this)
      ensures err == NoError ==> headers == old(headers)[HashOf(header) := header]
      ensures err == NoError ==> status == if AtLeast(header, old(currentHeader), coin) then CanonStat else SideStat
      ensures err == NoError ==>
                var e, l := TotalDifficulty(genesis, header), TotalDifficulty(genesis, old(currentHeader));
                (e > l ==> status == CanonStat) && (e < l ==> status == SideStat)
                && (e == l ==> (status == CanonStat <==> coin))
      ensures err == NoError ==>
                currentHeader == if AtLeast(header, old(currentHeader), coin) then header else old(currentHeader)
    {
      var ptd := GetTd(tds, header.parentHash, header.number - 1);
      if ptd == None {
        return NonStat, UnknownAncestor;
      }
      var hash, number := HashOf(header), header.number;
      HeaderAdded(headers, tds, genesis, header);
      HeaviestKept(headers, tds, genesis, currentHeader, header);
      var localTd := GetTd(tds, headHeaderHash, currentHeader.number).value;
      var externTd := header.difficulty + ptd.value;
      tds := tds[hash := externTd];
      headers := headers[hash := header];
      status, err := SideStat, NoError;
      if externTd > localTd || (externTd == localTd && coin) {
        Reroute(header);
        status := CanonStat;
      }
    }

    /** The fork choice rule: strictly more total difficulty, or equal and the coin says so. */
    ghost predicate AtLeast(header: Header, head: Header, coin: bool) {
      var e, l := TotalDifficulty(genesis, header), TotalDifficulty(genesis, head);
      e > l || (e == l && coin)
    }

    /**
    Insert a verified run of headers, skipping those already known. `interrupted(i)` tells
    whether shutdown was requested before item `i`.
    */
    method InsertHeaderChain(chain: seq<Header>, coin: nat -> bool, interrupted: nat -> bool)
      returns (index: nat, err: Error)
      requires Valid() && chain != [] && Contiguous(chain)
      requires chain[0].parentHash in headers ==> chain[0].number == headers[chain[0].parentHash].number + 1
      modifies this
      ensures Valid()
      ensures err == NoError ==> index == 0 && Added(old(headers), headers, chain)
      ensures err != NoError ==> index < |chain| && Added(old(headers), headers, chain[..index])
      // Only the first header can lack its ancestor, and only an interruption stops the others.
      ensures err == NoError <==>
                (forall i | 0 <= i < |chain| :: !interrupted(i)) && old(Attached(headers, chain[0]))
      ensures err == UnknownAncestor <==> !interrupted(0) && !old(Attached(headers, chain[0]))
      ensures err == UnknownAncestor ==> index == 0
      ensures err == NoError || err == UnknownAncestor || err == Aborted
      ensures err == Aborted ==> interrupted(index) && forall i | 0 <= i < index :: !interrupted(i)
      ensures currentHeader == old(currentHeader) || currentHeader in chain
      // Known headers are skipped: without a new one nothing changes.
      ensures (forall h <- chain :: HashOf(h) in old(headers)) ==> unchanged(this)
    {
      err := NoError;
      var i := 0;
      ghost var known := forall h <- chain :: HashOf(h) in headers;
      while i < |chain|
        invariant 0 <= i <= |chain| && Valid() && err == NoError
        invariant Added(old(headers), headers, chain[..i]) && (i == 0 ==> headers == old(headers))
        invariant currentHeader == old(currentHeader) || currentHeader in chain
        invariant (forall j | 0 <= j < i :: !interrupted(j)) && (i > 0 ==> old(Attached(headers, chain[0])))
        invariant known ==> unchanged(this)
      {
        if interrupted(i) {
          return i, Aborted;
        }
        var header := chain[i];
        AddedNext(old(headers), headers, chain, i);
        if HashOf(header) !in headers {
          var _, e := WriteHeader(header, coin(i));
          if e != NoError {
            return i, e;
          }
        }
        i := i + 1;
      }
      assert chain[..i] == chain;
      index := 0;
    }
  }

  /** Each header names its predecessor as parent and is numbered one higher. */
  ghost predicate Contiguous(chain: seq<Header>) {
    forall i :: 1 <= i < |chain| ==>
      chain[i].number == chain[i - 1].number + 1 && chain[i].parentHash == HashOf(chain[i - 1])
  }

  /** A header that is stored or whose parent is. */
  ghost predicate Attached(s: Store, h: Header) {
    HashOf(h) in s || h.parentHash in s
  }

  /** The store `after` is `before` plus the headers of `chain`. */
  ghost predicate Added(before: Store, after: Store, chain: seq<Header>) {
    && (forall k <- before :: k in after && after[k] == before[k])
    && (forall h <- chain :: HashOf(h) in after && after[HashOf(h)] == h)
    && (forall k <- after :: k in before || after[k] in chain)
  }

  lemma AddedOne(before: Store, after: Store, chain: seq<Header>, h: Header)
    requires Added(before, after, chain)
    requires HashOf(h) in after ==> after[HashOf(h)] == h
    ensures Added(before, after[HashOf(h) := h], chain + [h])
  {
    assert h in chain + [h];
    forall k | k in after[HashOf(h) := h] ensures k in before || after[HashOf(h) := h][k] in chain + [h] {
      if k != HashOf(h) && k !in before { assert after[k] in chain; }
    }
  }

  lemma AddedNext(before: Store, after: Store, chain: seq<Header>, i: nat)
    requires i < |chain| && Added(before, after, chain[..i]) && Contiguous(chain)
    requires HashOf(chain[i]) in after ==> after[HashOf(chain[i])] == chain[i]
    ensures Added(before, after[HashOf(chain[i]) := chain[i]], chain[..i + 1])
    ensures HashOf(chain[i]) in after ==> after[HashOf(chain[i]) := chain[i]] == after
    ensures i > 0 ==> chain[i].parentHash in after && chain[i].number == after[chain[i].parentHash].number + 1
  {
    AddedOne(before, after, chain[..i], chain[i]);
    assert chain[..i + 1] == chain[..i] + [chain[i]];
    if i > 0 { assert chain[i - 1] in chain[..i]; }
  }

  /** The ancestry check made before a run of headers or blocks is inserted. */
  method CheckContiguous(chain: seq<Header>) returns (err: Error)
    ensures err == NoError <==> Contiguous(chain)
    ensures err != NoError ==> err == NonContiguous
  {
    var i := 1;
    while i < |chain|
      invariant 1 <= i
      invariant forall j :: 1 <= j < i && j < |chain| ==>
                  chain[j].number == chain[j - 1].number + 1 && chain[j].parentHash == HashOf(chain[j - 1])
    {
      if chain[i].number != chain[i - 1].number + 1 || chain[i].parentHash != HashOf(chain[i - 1]) {
        return NonContiguous;
      }
      i := i + 1;
    }
    err := NoError;
  }
}
