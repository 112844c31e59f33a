/**
The pending limit of the transaction pool: when all accounts together hold more than
`globalSlots` executable transactions, the longest lists are cut, one transaction at a
time, until the total fits. The loops compute a water level.
*/
module PendingLimit {
  import opened Sums
  import opened Transactions

  type Addr = nat

  /** The executable transactions of each account, in nonce order. */
  type Lists = map<Addr, seq<Tx>>

  function Min(a: int, b: int): int {
    if a <= b then a else b
  }

  /** How many transactions each account keeps. */
  type Lens = map<Addr, int>

  /** The lists `p` cut to the lengths `k`. */
  ghost function Cut(p: Lists, k: Lens): Lists {
    map a | a in p :: if a in k && 0 <= k[a] <= |p[a]| then p[a][..k[a]] else p[a]
  }

  lemma {:induction false} CutOne(p: Lists, k: Lens, a: Addr)
    requires a in p && a in k && 0 < k[a] <= |p[a]|
    ensures |Cut(p, k)[a]| == k[a] && Cut(p, k)[a][k[a] - 1] == p[a][k[a] - 1]
    ensures Cut(p, k)[a := Cut(p, k)[a][..k[a] - 1]] == Cut(p, k[a := k[a] - 1])
  {
    assert Cut(p, k)[a][..k[a] - 1] == p[a][..k[a] - 1];
  }

  // ----- The specification: a water level

  /** Every non-local account keeps at most `t` transactions; local ones keep all. */
  ghost function LevelLens(p: Lists, locals: set<Addr>, t: nat): Lens {
    map a | a in p :: if a in locals then |p[a]| else Min(|p[a]|, t)
  }

  ghost function TotalAt(p: Lists, locals: set<Addr>, t: nat): int {
    Sum(LevelLens(p, locals, t))
  }

  /** `t` is the highest level, not below `slots`, at which the total fits, or `slots` if none fits. */
  ghost predicate WaterLevel(p: Lists, locals: set<Addr>, slots: nat, limit: nat, t: nat) {
    && t >= slots
    && (TotalAt(p, locals, t) <= limit || t == slots)
    && (forall u: nat :: u > t ==> TotalAt(p, locals, u) > limit)
  }

  lemma {:induction false} TotalMono(p: Lists, locals: set<Addr>, t: nat, u: nat)
    requires t <= u
    ensures 0 <= TotalAt(p, locals, t) <= TotalAt(p, locals, u)
  {
    assert LevelLens(p, locals, t).Keys == LevelLens(p, locals, u).Keys == p.Keys;
    SumNonNegative(LevelLens(p, locals, t), p.Keys);
    SumMono(LevelLens(p, locals, t), LevelLens(p, locals, u), p.Keys);
  }

  /** The lengths at level `t`, with those of `done` already one lower. */
  ghost function Partly(p: Lists, locals: set<Addr>, t: nat, done: seq<Addr>): Lens {
    map a | a in p ::
      if a in locals then |p[a]|
      else if a in done then Min(|p[a]|, t - 1)
      else Min(|p[a]|, t)
  }

  lemma TakeNext(s: seq<Addr>, i: nat)
    requires i < |s|
    ensures s[..i + 1] == s[..i] + [s[i]]
  {}

  lemma TakeAll(s: seq<Addr>)
    ensures s[..0] == [] && s[..|s|] == s
  {}

  /** `offs` are distinct non-local accounts that hold at least `t` transactions each. */
  ghost predicate Offenders(p: Lists, locals: set<Addr>, t: nat, offs: seq<Addr>) {
    offs == []
    || (var m := |offs| - 1;
        && offs[m] in p && offs[m] !in locals && |p[offs[m]]| >= t && offs[m] !in offs[..m]
        && Offenders(p, locals, t, offs[..m]))
  }

  lemma {:induction false} OffenderAt(p: Lists, locals: set<Addr>, t: nat, offs: seq<Addr>, i: nat)
    requires Offenders(p, locals, t, offs) && i < |offs|
    ensures offs[i] in p && offs[i] !in locals && |p[offs[i]]| >= t && offs[i] !in offs[..i]
  {
    if i < |offs| - 1 {
      OffenderAt(p, locals, t, offs[..|offs| - 1], i);
      assert offs[..|offs| - 1][..i] == offs[..i];
    }
  }

  lemma {:induction false} RoundStep(p: Lists, locals: set<Addr>, t: nat, done: seq<Addr>, a: Addr)
    requires a in p && a !in locals && a !in done && |p[a]| >= t > 0
    ensures Partly(p, locals, t, done)[a] == t
    ensures Partly(p, locals, t, done + [a]) == Partly(p, locals, t, done)[a := Partly(p, locals, t, done)[a] - 1]
    ensures Sum(Partly(p, locals, t, done + [a])) == Sum(Partly(p, locals, t, done)) - 1 >= 0
  {
    assert Partly(p, locals, t, done + [a]) == Partly(p, locals, t, done)[a := t - 1];
    SumUpdate(Partly(p, locals, t, done), a, t - 1);
    assert Partly(p, locals, t, done + [a]).Keys == p.Keys;
    SumNonNegative(Partly(p, locals, t, done + [a]), p.Keys);
  }

  lemma {:induction false} NextKept(p: Lists, locals: set<Addr>, t: nat, offs: seq<Addr>, i: nat)
    requires Offenders(p, locals, t, offs) && t > 0 && i < |offs|
    ensures var k, a := Partly(p, locals, t, offs[..i]), offs[i];
            && a in p && a in k && k[a] == t <= |p[a]|
            && Partly(p, locals, t, offs[..i + 1]) == k[a := k[a] - 1]
            && Sum(Partly(p, locals, t, offs[..i + 1])) == Sum(k) - 1 >= 0
  {
    OffenderAt(p, locals, t, offs, i);
    TakeNext(offs, i);
    RoundStep(p, locals, t, offs[..i], offs[i]);
  }

  /** The non-local accounts with more than `floor` transactions that are not among `offs`. */
  ghost function Missed(p: Lists, locals: set<Addr>, floor: nat, offs: seq<Addr>): set<Addr> {
    if offs == [] then set a | a in p && a !in locals && |p[a]| > floor
    else Missed(p, locals, floor, offs[..|offs| - 1]) - {offs[|offs| - 1]}
  }

  lemma {:induction false} MissedIs(p: Lists, locals: set<Addr>, floor: nat, offs: seq<Addr>)
    ensures Missed(p, locals, floor, offs) == set a | a in p && a !in locals && |p[a]| > floor && a !in offs
  {
    if offs != [] { MissedIs(p, locals, floor, offs[..|offs| - 1]); }
  }

  lemma {:induction false} RoundDone(p: Lists, locals: set<Addr>, t: nat, u: nat, floor: nat, offs: seq<Addr>)
    requires Missed(p, locals, floor, offs) == {} && u == t + 1 && floor <= t
    ensures Partly(p, locals, u, offs) == LevelLens(p, locals, t)
    ensures Partly(p, locals, u, []) == LevelLens(p, locals, u)
  {
    MissedIs(p, locals, floor, offs);
    forall a | a in p && a !in locals && a !in offs ensures |p[a]| < u {
      assert a !in Missed(p, locals, floor, offs);
    }
  }

  /** There is at most one water level. */
  lemma {:induction false} WaterLevelUnique(p: Lists, locals: set<Addr>, slots: nat, limit: nat, t: nat, u: nat)
    requires WaterLevel(p, locals, slots, limit, t) && WaterLevel(p, locals, slots, limit, u)
    ensures t == u
  {}

  // ----- Side effects of dropping

  /** Transaction hash `h` was dropped when the lists `p` were cut to `q`. */
  ghost predicate Dropped(p: Lists, q: Lists, h: nat) {
    exists a, i: nat :: a in p && a in q && |q[a]| <= i < |p[a]| && p[a][i].hash == h
  }

  /** The account nonce after the transactions from index `k` on have been dropped, last first. */
  function NonceAfter(nonce: nat, list: seq<Tx>, k: nat): nat
    decreases |list| - k
  {
    if k >= |list| then nonce
    else Min(NonceAfter(nonce, list, k + 1), list[k].nonce)
  }

  lemma {:induction false} DroppedOne(p: Lists, q: Lists, a: Addr, h: nat)
    requires a in p && a in q && 0 < |q[a]| <= |p[a]|
    ensures Dropped(p, q[a := q[a][..|q[a]| - 1]], h) <==> Dropped(p, q, h) || h == p[a][|q[a]| - 1].hash
  {
    var k: nat, r := |q[a]| - 1, q[a := q[a][..|q[a]| - 1]];
    if Dropped(p, r, h) {
      var b, i: nat :| b in p && b in r && |r[b]| <= i < |p[b]| && p[b][i].hash == h;
      if !(b == a && i == k) { assert b in q && |q[b]| <= i; }
    }
    if Dropped(p, q, h) {
      var b, i: nat :| b in p && b in q && |q[b]| <= i < |p[b]| && p[b][i].hash == h;
      assert b in r && |r[b]| <= i;
    }
    if h == p[a][k].hash { assert a in r && |r[a]| <= k < |p[a]|; }
  }

  /** The pool-wide index once the lists `p` have been cut to `q`. */
  ghost function AllAfter(all: set<nat>, p: Lists, q: Lists): set<nat> {
    set h | h in all && !Dropped(p, q, h)
  }

  /** The pending nonces once the lists `p` have been cut to `q`. */
  function NoncesAfter(nonces: map<Addr, nat>, p: Lists, q: Lists): map<Addr, nat> {
    map a | a in nonces :: if a in p && a in q then NonceAfter(nonces[a], p[a], |q[a]|) else nonces[a]
  }

  lemma {:induction false} AllAfterOne(all: set<nat>, p: Lists, q: Lists, a: Addr)
    requires a in p && a in q && 0 < |q[a]| <= |p[a]|
    ensures AllAfter(all, p, q[a := q[a][..|q[a]| - 1]]) == AllAfter(all, p, q) - {p[a][|q[a]| - 1].hash}
  {
    var r, x := q[a := q[a][..|q[a]| - 1]], p[a][|q[a]| - 1].hash;
    forall h | h in all ensures Dropped(p, r, h) <==> Dropped(p, q, h) || h == x { DroppedOne(p, q, a, h); }
  }

  lemma {:induction false} NoncesAfterOne(nonces: map<Addr, nat>, p: Lists, q: Lists, a: Addr)
    requires a in p && a in q && 0 < |q[a]| <= |p[a]| && a in nonces
    ensures NoncesAfter(nonces, p, q[a := q[a][..|q[a]| - 1]])
            == if NoncesAfter(nonces, p, q)[a] > p[a][|q[a]| - 1].nonce
               then NoncesAfter(nonces, p, q)[a := p[a][|q[a]| - 1].nonce] else NoncesAfter(nonces, p, q)
  {}

  lemma {:induction false} NothingDropped(all: set<nat>, nonces: map<Addr, nat>, p: Lists)
    ensures AllAfter(all, p, p) == all && NoncesAfter(nonces, p, p) == nonces
  {}

  /** The executable lists, the pool-wide index and the pending nonces. */
  datatype View = View(p: Lists, all: set<nat>, nonces: map<Addr, nat>)

  /** The pool `o` after every list has been cut to the lengths `k`. */
  ghost function After(o: View, k: Lens): View {
    var q := Cut(o.p, k);
    View(q, AllAfter(o.all, o.p, q), NoncesAfter(o.nonces, o.p, q))
  }

  /** The pool after the last transaction of `a` is dropped, with its index entry, and the nonce lowered to it. */
  function WithoutLast(v: View, a: Addr): View
    requires a in v.p && v.p[a] != [] && a in v.nonces
  {
    var list := v.p[a];
    var tx := list[|list| - 1];
    View(v.p[a := list[..|list| - 1]], v.all - {tx.hash},
         if v.nonces[a] > tx.nonce then v.nonces[a := tx.nonce] else v.nonces)
  }

  lemma {:induction false} DropOne(o: View, k: Lens, a: Addr)
    requires o.nonces.Keys == o.p.Keys && a in o.p && a in k && 0 < k[a] <= |o.p[a]|
    ensures a in After(o, k).p && After(o, k).p[a] != [] && a in After(o, k).nonces
    ensures After(o, k[a := k[a] - 1]) == WithoutLast(After(o, k), a)
  {
    CutOne(o.p, k, a);
    AllAfterOne(o.all, o.p, Cut(o.p, k), a);
    NoncesAfterOne(o.nonces, o.p, Cut(o.p, k), a);
  }

  function Lengths(p: Lists): Lens {
    map a | a in p :: |p[a]|
  }

  /** Lengths that the lists `p` can be cut to. */
  ghost predicate Fits(p: Lists, k: Lens) {
    k.Keys == p.Keys && forall a <- k :: 0 <= k[a] <= |p[a]|
  }

  lemma {:induction false} LengthsOfCut(p: Lists, k: Lens)
    requires Fits(p, k)
    ensures Lengths(Cut(p, k)) == k
  {}

  lemma {:induction false} Uncut(o: View)
    ensures Fits(o.p, Lengths(o.p)) && After(o, Lengths(o.p)) == o
  {
    var p, q := o.p, Cut(o.p, Lengths(o.p));
    forall a | a in p ensures q[a] == p[a] { assert p[a][..|p[a]|] == p[a]; }
    assert q == p;
    NothingDropped(o.all, o.nonces, o.p);
  }

  /**
  The accounts over the minimum allowance are split into the offenders, who reach the
  level `t`, and the spammers still queued, who do not exceed it.
  */
  ghost predicate Split(p: Lists, locals: set<Addr>, slots: nat, t: nat, offs: seq<Addr>, spammers: set<Addr>) {
    && Offenders(p, locals, t, offs)
    && spammers == Missed(p, locals, slots, offs) && Missed(p, locals, t, offs) == {}
  }

  lemma {:induction false} OffendersLower(p: Lists, locals: set<Addr>, t: nat, u: nat, offs: seq<Addr>)
    requires Offenders(p, locals, t, offs) && u <= t
    ensures Offenders(p, locals, u, offs)
  {
    if offs != [] { OffendersLower(p, locals, t, u, offs[..|offs| - 1]); }
  }

  /** A longest spammer joins the offenders; the level is then its length. */
  lemma {:induction false} Join(p: Lists, locals: set<Addr>, slots: nat, t: nat, offs: seq<Addr>, spammers: set<Addr>,
                                a: Addr)
    requires Split(p, locals, slots, t, offs, spammers) && a in spammers && a in p
    requires Missed(p, locals, |p[a]|, offs) == {}
    ensures Split(p, locals, slots, |p[a]|, offs + [a], spammers - {a})
  {
    MissedIs(p, locals, slots, offs);
    MissedIs(p, locals, t, offs);
    assert a !in Missed(p, locals, t, offs);
    OffendersLower(p, locals, t, |p[a]|, offs);
    assert (offs + [a])[..|offs|] == offs;
  }

  lemma {:induction false} SpammerIn(p: Lists, locals: set<Addr>, slots: nat, t: nat, offs: seq<Addr>,
                                     spammers: set<Addr>, a: Addr)
    requires Split(p, locals, slots, t, offs, spammers) && a in spammers
    ensures a in p && a !in locals && slots < |p[a]| <= t
  {
    MissedIs(p, locals, slots, offs);
    MissedIs(p, locals, t, offs);
    assert a !in Missed(p, locals, t, offs);
  }

  lemma {:induction false} NoneLonger(p: Lists, locals: set<Addr>, slots: nat, offs: seq<Addr>, a: Addr)
    requires a in p && |p[a]| > slots
    requires forall b <- Missed(p, locals, slots, offs) :: b in p && |p[b]| <= |p[a]|
    ensures Missed(p, locals, |p[a]|, offs) == {}
  {
    MissedIs(p, locals, slots, offs);
    MissedIs(p, locals, |p[a]|, offs);
    forall b | b in Missed(p, locals, |p[a]|, offs) ensures false { assert b in Missed(p, locals, slots, offs); }
  }

  lemma {:induction false} RoundSum(p: Lists, locals: set<Addr>, t: nat, offs: seq<Addr>, i: nat)
    requires Offenders(p, locals, t, offs) && t > 0 && i <= |offs|
    ensures Sum(Partly(p, locals, t, offs[..i])) == Sum(Partly(p, locals, t, [])) - i
  {
    TakeAll(offs);
    if i > 0 {
      RoundSum(p, locals, t, offs, i - 1);
      NextKept(p, locals, t, offs, i - 1);
    }
  }

  /** Raising the level by one adds one transaction for every offender. */
  lemma {:induction false} LevelUp(p: Lists, locals: set<Addr>, t: nat, u: nat, floor: nat, offs: seq<Addr>)
    requires u == t + 1 && Offenders(p, locals, u, offs) && Missed(p, locals, floor, offs) == {} && floor <= t
    ensures TotalAt(p, locals, u) == TotalAt(p, locals, t) + |offs|
  {
    RoundDone(p, locals, t, u, floor, offs);
    RoundSum(p, locals, u, offs, |offs|);
    TakeAll(offs);
  }

  /** Levels above every non-local list are all alike. */
  lemma {:induction false} SameLevel(p: Lists, locals: set<Addr>, t: nat, u: nat)
    requires forall a <- p :: a !in locals ==> |p[a]| <= t && |p[a]| <= u
    ensures LevelLens(p, locals, t) == LevelLens(p, locals, u)
  {}

  /** At a level no higher than `t` every offender holds exactly that many transactions. */
  lemma {:induction false} LevelOf(p: Lists, locals: set<Addr>, t: nat, u: nat, offs: seq<Addr>, i: nat)
    requires Offenders(p, locals, t, offs) && u <= t && i < |offs|
    ensures offs[i] in p && |Cut(p, LevelLens(p, locals, u))[offs[i]]| == u
  {
    OffenderAt(p, locals, t, offs, i);
  }

  /** With no offender yet, the level may be taken down to the longest spammer. */
  lemma {:induction false} FirstLevel(p: Lists, locals: set<Addr>, t: nat, u: nat)
    requires Missed(p, locals, t, []) == {} && Missed(p, locals, u, []) == {}
    ensures LevelLens(p, locals, t) == LevelLens(p, locals, u)
  {
    forall b | b in p && b !in locals ensures |p[b]| <= t && |p[b]| <= u {
      assert b !in Missed(p, locals, t, []) && b !in Missed(p, locals, u, []);
    }
    SameLevel(p, locals, t, u);
  }

  lemma {:induction false} WaterLevelFound(p: Lists, locals: set<Addr>, slots: nat, limit: nat, t: nat, above: nat)
    requires t >= slots && above == t + 1
    requires (TotalAt(p, locals, t) <= limit && TotalAt(p, locals, above) > limit)
             || (TotalAt(p, locals, t) > limit && t == slots)
    ensures WaterLevel(p, locals, slots, limit, t)
  {
    forall u: nat | u > t ensures TotalAt(p, locals, u) > limit {
      TotalMono(p, locals, above, u);
      TotalMono(p, locals, t, above);
    }
  }

  /** A level that cuts nothing. */
  lemma {:induction false} TopLevel(o: View, locals: set<Addr>, slots: nat) returns (top: nat)
    ensures top >= slots && Missed(o.p, locals, top, []) == {}
    ensures LevelView(o, locals, top) == o && TotalAt(o.p, locals, top) == Sum(Lengths(o.p))
  {
    var k := Lengths(o.p);
    SumNonNegative(k, k.Keys);
    top := if Sum(k) >= slots then Sum(k) else slots;
    forall a | a in o.p ensures |o.p[a]| <= top {
      SumTake(k, k.Keys, a);
      SumNonNegative(k, k.Keys - {a});
    }
    assert LevelLens(o.p, locals, top) == k;
    Uncut(o);
  }

  lemma {:induction false} LevelCount(o: View, locals: set<Addr>, t: nat)
    ensures Sum(Lengths(LevelView(o, locals, t).p)) == TotalAt(o.p, locals, t)
  {
    LengthsOfCut(o.p, LevelLens(o.p, locals, t));
  }

  lemma {:induction false} LongestExists(p: Lists, s: set<Addr>)
    requires s != {} && s <= p.Keys
    ensures exists a :: a in s && forall b <- s :: |p[b]| <= |p[a]|
    decreases |s|
  {
    var x :| x in s;
    if s - {x} != {} {
      LongestExists(p, s - {x});
      var a :| a in s - {x} && forall b <- s - {x} :: |p[b]| <= |p[a]|;
      var m := if |p[x]| <= |p[a]| then a else x;
      assert forall b <- s :: b == x || b in s - {x};
      assert m in s && forall b <- s :: |p[b]| <= |p[m]|;
    } else {
      assert s == {x};
    }
  }

  // ----- The loops

  lemma {:induction false} RoundDrop(o: View, locals: set<Addr>, t: nat, offs: seq<Addr>, i: nat)
    requires t > 0 && Offenders(o.p, locals, t, offs) && o.nonces.Keys == o.p.Keys && i < |offs|
    ensures var v := After(o, Partly(o.p, locals, t, offs[..i]));
            && offs[i] in v.p && v.p[offs[i]] != [] && offs[i] in v.nonces
            && After(o, Partly(o.p, locals, t, offs[..i + 1])) == WithoutLast(v, offs[i])
            && Sum(Partly(o.p, locals, t, offs[..i + 1])) == Sum(Partly(o.p, locals, t, offs[..i])) - 1 >= 0
  {
    NextKept(o.p, locals, t, offs, i);
    DropOne(o, Partly(o.p, locals, t, offs[..i]), offs[i]);
  }

  /** Drop one transaction from every offender; `count` is the running total of the pool. */
  method Round(v: View, offs: seq<Addr>, count: nat, ghost locals: set<Addr>, ghost t: nat, ghost o: View)
    returns (v': View, count': nat)
    requires t > 0 && Offenders(o.p, locals, t, offs) && o.nonces.Keys == o.p.Keys
    requires v == After(o, Partly(o.p, locals, t, [])) && count == Sum(Partly(o.p, locals, t, []))
    ensures v' == After(o, Partly(o.p, locals, t, offs)) && count' == Sum(Partly(o.p, locals, t, offs))
  {
    v', count' := v, count;
    TakeAll(offs);
    for i := 0 to |offs|
      invariant v' == After(o, Partly(o.p, locals, t, offs[..i]))
      invariant count' == Sum(Partly(o.p, locals, t, offs[..i]))
    {
      RoundDrop(o, locals, t, offs, i);
      v', count' := WithoutLast(v', offs[i]), count' - 1;
    }
  }

  /** The pool `o` cut to level `t`. */
  ghost function LevelView(o: View, locals: set<Addr>, t: nat): View {
    After(o, LevelLens(o.p, locals, t))
  }

  /** One round lowers the level from `u` to `t`; `top` is a level that every offender once reached. */
  method LowerLevel(v: View, offs: seq<Addr>, count: nat, ghost locals: set<Addr>, ghost t: nat, ghost u: nat,
                    ghost top: nat, ghost floor: nat, ghost o: View)
    returns (v': View, count': nat)
    requires u == t + 1 && floor <= t < top && o.nonces.Keys == o.p.Keys && offs != []
    requires v == LevelView(o, locals, u) && count == TotalAt(o.p, locals, u)
    requires Offenders(o.p, locals, top, offs) && Missed(o.p, locals, floor, offs) == {}
    ensures v' == LevelView(o, locals, t) && count' == TotalAt(o.p, locals, t) && count' == count - |offs|
    ensures offs[|offs| - 1] in v'.p && |v'.p[offs[|offs| - 1]]| == t
  {
    OffendersLower(o.p, locals, top, u, offs);
    RoundDone(o.p, locals, t, u, floor, offs);
    LevelUp(o.p, locals, t, u, floor, offs);
    v', count' := Round(v, offs, count, locals, u, o);
    LevelOf(o.p, locals, top, t, offs, |offs| - 1);
  }

  /** Take the spammer with the most transactions. */
  method PopSpammer(v: View, spammers: set<Addr>, ghost locals: set<Addr>, ghost slots: nat, ghost t: nat,
                    ghost o: View, ghost offs: seq<Addr>)
    returns (a: Addr)
    requires v == LevelView(o, locals, t) && Split(o.p, locals, slots, t, offs, spammers) && spammers != {}
    ensures a in spammers && a in v.p && a in o.p && slots < |v.p[a]| == |o.p[a]| <= t
    ensures Missed(o.p, locals, |o.p[a]|, offs) == {}
  {
    forall b | b in spammers ensures b in v.p && b in o.p && v.p[b] == o.p[b] {
      SpammerIn(o.p, locals, slots, t, offs, spammers, b);
      assert LevelLens(o.p, locals, t)[b] == |o.p[b]|;
    }
    LongestExists(v.p, spammers);
    a :| a in spammers && forall b <- spammers :: |v.p[b]| <= |v.p[a]|;
    SpammerIn(o.p, locals, slots, t, offs, spammers, a);
    NoneLonger(o.p, locals, slots, offs, a);
  }

  /** Cut all offenders, round by round, down to `floor` transactions or until the total fits in `limit`. */
  method CutDown(v: View, offs: seq<Addr>, floor: nat, limit: nat, count: nat,
                 ghost locals: set<Addr>, ghost t: nat, ghost o: View)
    returns (v': View, count': nat, ghost t': nat)
    requires v == LevelView(o, locals, t) && count == TotalAt(o.p, locals, t) && o.nonces.Keys == o.p.Keys
    requires Offenders(o.p, locals, t, offs) && offs != []
    requires Missed(o.p, locals, floor, offs) == {} && count > limit && floor <= t
    ensures v' == LevelView(o, locals, t') && count' == TotalAt(o.p, locals, t') && floor <= t' <= t
    ensures count' > limit ==> t' == floor
    ensures count' <= limit ==> t' < t && count' + |offs| > limit
  {
    v', count', t' := v, count, t;
    var last := offs[|offs| - 1];
    LevelOf(o.p, locals, t, t, offs, |offs| - 1);
    while count' > limit && |v'.p[last]| > floor
      invariant v' == LevelView(o, locals, t') && count' == TotalAt(o.p, locals, t') && floor <= t' <= t
      invariant last in v'.p && |v'.p[last]| == t'
      invariant count' > limit || (t' < t && count' + |offs| > limit)
      decreases t'
    {
      ghost var lower: nat := t' - 1;
      v', count' := LowerLevel(v', offs, count', locals, lower, t', t, floor, o);
      t' := lower;
    }
  }

  /** The level above the one reached would still be over the limit. */
  lemma {:induction false} Exceeds(p: Lists, locals: set<Addr>, t: nat, above: nat, top: nat, floor: nat,
                                   offs: seq<Addr>, limit: nat)
    requires above == t + 1 <= top && Offenders(p, locals, top, offs) && Missed(p, locals, floor, offs) == {}
    requires floor <= t
    requires TotalAt(p, locals, t) + |offs| > limit
    ensures TotalAt(p, locals, above) > limit
  {
    OffendersLower(p, locals, top, above, offs);
    LevelUp(p, locals, t, above, floor, offs);
  }

  /** Move the longest spammer to the offenders and cut the earlier ones down to it. */
  method Admit(v: View, offs: seq<Addr>, spammers: set<Addr>, limit: nat, count: nat,
               ghost locals: set<Addr>, ghost slots: nat, ghost t: nat, ghost o: View)
    returns (v': View, offs': seq<Addr>, spammers': set<Addr>, count': nat, ghost t': nat, ghost above: nat)
    requires v == LevelView(o, locals, t) && count == TotalAt(o.p, locals, t) && o.nonces.Keys == o.p.Keys
    requires count > limit && Split(o.p, locals, slots, t, offs, spammers) && spammers != {}
    ensures v' == LevelView(o, locals, t') && count' == TotalAt(o.p, locals, t') && t' >= slots
    ensures spammers' < spammers && above == t' + 1
    ensures count' <= limit ==> TotalAt(o.p, locals, above) > limit
    ensures count' > limit ==> offs' != [] && Split(o.p, locals, slots, t', offs', spammers')
  {
    var a := PopSpammer(v, spammers, locals, slots, t, o, offs);
    offs', spammers' := offs + [a], spammers - {a};
    Join(o.p, locals, slots, t, offs, spammers, a);
    if |offs'| > 1 {
      v', count', t' := CutDown(v, offs, |v.p[a]|, limit, count, locals, t, o);
      above := t' + 1;
      if count' <= limit { Exceeds(o.p, locals, t', above, t, |o.p[a]|, offs, limit); }
    } else {
      FirstLevel(o.p, locals, t, |o.p[a]|);
      v', count', t' := v, count, |o.p[a]|;
      above := t' + 1;
    }
  }

  /** Take spammers one by one, longest first, until the total fits or all are offenders. */
  method Gather(v: View, spammers0: set<Addr>, limit: nat, count0: nat,
                ghost locals: set<Addr>, ghost slots: nat, ghost top: nat, ghost o: View)
    returns (v': View, offs: seq<Addr>, count: nat, ghost t: nat, ghost above: nat)
    requires v == LevelView(o, locals, top) && count0 == TotalAt(o.p, locals, top) && o.nonces.Keys == o.p.Keys
    requires count0 > limit && Split(o.p, locals, slots, top, [], spammers0) && top >= slots
    ensures v' == LevelView(o, locals, t) && count == TotalAt(o.p, locals, t) && t >= slots && above == t + 1
    ensures count <= limit ==> TotalAt(o.p, locals, above) > limit
    ensures count > limit ==> Split(o.p, locals, slots, t, offs, {})
  {
    v', offs, count, t, above := v, [], count0, top, top + 1;
    var spammers := spammers0;
    while count > limit && spammers != {}
      invariant v' == LevelView(o, locals, t) && count == TotalAt(o.p, locals, t) && t >= slots && above == t + 1
      invariant count <= limit ==> TotalAt(o.p, locals, above) > limit
      invariant count > limit ==> Split(o.p, locals, slots, t, offs, spammers)
      decreases spammers
    {
      v', offs, spammers, count, t, above := Admit(v', offs, spammers, limit, count, locals, slots, t, o);
    }
  }

  // ----- The pool

  // ----- What the level means for each account

  lemma {:induction false} NonceAfterIs(nonce: nat, list: seq<Tx>, k: nat)
    ensures var n := NonceAfter(nonce, list, k);
            && n <= nonce && (forall i | k <= i < |list| :: n <= list[i].nonce)
            && (n == nonce || exists i | k <= i < |list| :: n == list[i].nonce)
    decreases |list| - k
  {
    if k < |list| { NonceAfterIs(nonce, list, k + 1); }
  }

  /** Transaction `i` of account `a` is above the level. */
  ghost predicate Above(p: Lists, locals: set<Addr>, t: nat, a: Addr, i: nat) {
    a in p && a !in locals && t <= i < |p[a]|
  }

  /**
  Local accounts keep their lists and the others the first `t` transactions. The hashes of exactly
  the others are forgotten, and a nonce is lowered to the lowest that was dropped.
  */
  lemma {:induction false} LevelViewExact(o: View, locals: set<Addr>, t: nat)
    requires o.nonces.Keys == o.p.Keys
    ensures var v := LevelView(o, locals, t);
            && v.p.Keys == o.p.Keys && v.nonces.Keys == o.nonces.Keys
            && (forall a <- o.p :: v.p[a] == if a in locals || |o.p[a]| <= t then o.p[a] else o.p[a][..t])
            && (forall h :: h in v.all <==>
                  h in o.all && forall a, i: nat | Above(o.p, locals, t, a, i) :: o.p[a][i].hash != h)
            && (forall a, i: nat | Above(o.p, locals, t, a, i) :: v.nonces[a] <= o.p[a][i].nonce)
            && forall a <- o.p :: v.nonces[a] <= o.nonces[a]
                 && (v.nonces[a] == o.nonces[a]
                     || exists i: nat :: Above(o.p, locals, t, a, i) && v.nonces[a] == o.p[a][i].nonce)
  {
    var v := LevelView(o, locals, t);
    forall a | a in o.p
      ensures v.p[a] == if a in locals || |o.p[a]| <= t then o.p[a] else o.p[a][..t]
      ensures v.nonces[a] <= o.nonces[a]
      ensures forall i: nat | Above(o.p, locals, t, a, i) :: v.nonces[a] <= o.p[a][i].nonce
      ensures v.nonces[a] == o.nonces[a]
              || exists i: nat :: Above(o.p, locals, t, a, i) && v.nonces[a] == o.p[a][i].nonce
    {
      LevelAccount(o, locals, t, a);
    }
    forall h ensures h in v.all <==>
        h in o.all && forall a, i: nat | Above(o.p, locals, t, a, i) :: o.p[a][i].hash != h {
      LevelHash(o, locals, t, h);
    }
  }

  /**
  Local lists stay and the others keep their first transactions; a list that was cut keeps the
  allowance at least, and no other non-local list is longer.
  */
  ghost predicate Fair(p: Lists, q: Lists, locals: set<Addr>, slots: nat) {
    && q.Keys == p.Keys && (forall a <- p :: q[a] <= p[a] && (a in locals ==> q[a] == p[a]))
    && (forall a <- p :: |q[a]| < |p[a]| ==> |q[a]| >= slots)
    && forall a, b | a in p && b in p && b !in locals && |q[a]| < |p[a]| :: |q[b]| <= |q[a]|
  }

  /** The total is within the limit, or no non-local list is above the allowance. */
  ghost predicate Met(q: Lists, locals: set<Addr>, slots: nat, limit: nat, count: nat) {
    count > limit ==> forall a <- q :: a !in locals ==> |q[a]| <= slots
  }

  lemma {:induction false} LevelFair(o: View, v: View, locals: set<Addr>, slots: nat, limit: nat, t: nat, count: nat)
    requires o.nonces.Keys == o.p.Keys && v == LevelView(o, locals, t) && count == TotalAt(o.p, locals, t)
    requires WaterLevel(o.p, locals, slots, limit, t)
    ensures Fair(o.p, v.p, locals, slots) && Met(v.p, locals, slots, limit, count)
  {
    forall a | a in o.p ensures KeptAt(o.p, v.p, locals, t, a) { LevelAccount(o, locals, t, a); }
    CutFair(o.p, v.p, locals, slots, limit, t, count);
  }

  /** Account `a` keeps its list, or its first `t` transactions. */
  ghost predicate KeptAt(p: Lists, q: Lists, locals: set<Addr>, t: nat, a: Addr)
    requires a in p
  {
    a in q && q[a] == if a in locals || |p[a]| <= t then p[a] else p[a][..t]
  }

  lemma {:induction false} CutFair(p: Lists, q: Lists, locals: set<Addr>, slots: nat, limit: nat, t: nat, count: nat)
    requires q.Keys == p.Keys && slots <= t && (count <= limit || t == slots)
    requires forall a {:trigger KeptAt(p, q, locals, t, a)} :: a in p ==> KeptAt(p, q, locals, t, a)
    ensures Fair(p, q, locals, slots) && Met(q, locals, slots, limit, count)
  {
    forall a | a in p ensures q[a] == if a in locals || |p[a]| <= t then p[a] else p[a][..t] {
      assert KeptAt(p, q, locals, t, a);
    }
  }

  /** The accounts that have lost transactions. */
  ghost function Shortened(p: Lists, q: Lists): set<Addr> {
    set a | a in p && a in q && |q[a]| < |p[a]|
  }

  ghost function Longer(p: Lists, locals: set<Addr>, t: nat): set<Addr> {
    set a | a in p && a !in locals && |p[a]| > t
  }

  lemma {:induction false} OneMore(p: Lists, locals: set<Addr>, t: nat, s: set<Addr>)
    requires s <= p.Keys
    ensures SumOver(LevelLens(p, locals, t + 1), s) ==
              SumOver(LevelLens(p, locals, t), s) + |Longer(p, locals, t) * s|
    decreases |s|
  {
    var longer := Longer(p, locals, t);
    if s == {} {
      assert longer * s == {};
    } else {
      var a :| a in s;
      SumTake(LevelLens(p, locals, t), s, a);
      SumTake(LevelLens(p, locals, t + 1), s, a);
      OneMore(p, locals, t, s - {a});
      assert longer * s - {a} == longer * (s - {a});
      assert a in longer <==> a in longer * s;
    }
  }

  /** One transaction more for every account that has lost some, and the total is above the limit. */
  lemma {:induction false} LevelTight(o: View, v: View, locals: set<Addr>, slots: nat, limit: nat, t: nat, count: nat)
    requires o.nonces.Keys == o.p.Keys && v == LevelView(o, locals, t) && count == TotalAt(o.p, locals, t)
    requires WaterLevel(o.p, locals, slots, limit, t)
    ensures count + |Shortened(o.p, v.p)| > limit
  {
    LevelAbove(o.p, locals, slots, limit, t);
    forall a | a in o.p ensures KeptAt(o.p, v.p, locals, t, a) { LevelAccount(o, locals, t, a); }
    CutShortens(o.p, v.p, locals, t);
  }

  lemma {:induction false} LevelAbove(p: Lists, locals: set<Addr>, slots: nat, limit: nat, t: nat)
    requires WaterLevel(p, locals, slots, limit, t)
    ensures TotalAt(p, locals, t) + |Longer(p, locals, t)| > limit
  {
    var longer := Longer(p, locals, t);
    OneMore(p, locals, t, p.Keys);
    assert longer * p.Keys == longer;
    assert LevelLens(p, locals, t).Keys == p.Keys == LevelLens(p, locals, t + 1).Keys;
    assert TotalAt(p, locals, t + 1) > limit;
  }

  lemma {:induction false} CutShortens(p: Lists, q: Lists, locals: set<Addr>, t: nat)
    requires forall a {:trigger KeptAt(p, q, locals, t, a)} :: a in p ==> KeptAt(p, q, locals, t, a)
    ensures Shortened(p, q) == Longer(p, locals, t)
  {
    forall a | a in p ensures a in Shortened(p, q) <==> a in Longer(p, locals, t) {
      assert KeptAt(p, q, locals, t, a);
    }
  }

  lemma {:induction false} NothingFair(p: Lists, locals: set<Addr>, slots: nat)
    ensures Fair(p, p, locals, slots)
  {
  }

  lemma {:induction false} LevelAccount(o: View, locals: set<Addr>, t: nat, a: Addr)
    requires o.nonces.Keys == o.p.Keys && a in o.p
    ensures var v := LevelView(o, locals, t);
            && a in v.p && a in v.nonces
            && v.p[a] == (if a in locals || |o.p[a]| <= t then o.p[a] else o.p[a][..t])
            && v.nonces[a] <= o.nonces[a]
            && (forall i: nat | Above(o.p, locals, t, a, i) :: v.nonces[a] <= o.p[a][i].nonce)
            && (v.nonces[a] == o.nonces[a]
                || exists i: nat :: Above(o.p, locals, t, a, i) && v.nonces[a] == o.p[a][i].nonce)
  {
    var v := LevelView(o, locals, t);
    assert o.p[a][..|o.p[a]|] == o.p[a];
    NonceAfterIs(o.nonces[a], o.p[a], |v.p[a]|);
    if v.nonces[a] != o.nonces[a] {
      var i :| |v.p[a]| <= i < |o.p[a]| && v.nonces[a] == o.p[a][i].nonce;
      assert Above(o.p, locals, t, a, i);
    }
  }

  lemma {:induction false} LevelHash(o: View, locals: set<Addr>, t: nat, h: nat)
    requires o.nonces.Keys == o.p.Keys
    ensures h in LevelView(o, locals, t).all <==>
              h in o.all && forall a, i: nat | Above(o.p, locals, t, a, i) :: o.p[a][i].hash != h
  {
    var v := LevelView(o, locals, t);
    forall a, i: nat | a in o.p && i < |o.p[a]|
      ensures Above(o.p, locals, t, a, i) <==> a in v.p && |v.p[a]| <= i
    {
      LevelAccount(o, locals, t, a);
    }
    assert v.p == Cut(o.p, LevelLens(o.p, locals, t));
    if a, i: nat :| Above(o.p, locals, t, a, i) && o.p[a][i].hash == h { assert Dropped(o.p, v.p, h); }
    if Dropped(o.p, v.p, h) {
      var a, i: nat :| a in o.p && a in v.p && |v.p[a]| <= i < |o.p[a]| && o.p[a][i].hash == h;
      assert Above(o.p, locals, t, a, i);
    }
  }

  class TxPool {
    const locals: set<Addr>
    const accountSlots: nat
    const globalSlots: nat
    var pending: Lists
    var all: set<nat>
    var nonces: map<Addr, nat>

    /** The state that the pending limit acts on. */
    function Value(): View
      reads this
    {
      View(pending, all, nonces)
    }

    /** The number of executable transactions, added up in any order. */
    method CountPending() returns (n: nat)
      ensures n == Sum(Lengths(pending))
    {
      n := 0;
      var rest := pending.Keys;
      ghost var lens := Lengths(pending);
      assert rest == lens.Keys;
      while rest != {}
        invariant rest <= pending.Keys
        invariant n + SumOver(lens, rest) == Sum(lens)
        decreases rest
      {
        var a :| a in rest;
        SumTake(lens, rest, a);
        n := n + |pending[a]|;
        rest := rest - {a};
      }
    }

    /** The non-local accounts above the minimum allowance. */
    method FindSpammers() returns (spammers: set<Addr>)
      ensures spammers == Missed(pending, locals, accountSlots, [])
    {
      spammers := {};
      var rest := pending.Keys;
      while rest != {}
        invariant rest <= pending.Keys
        invariant spammers == set a | a in pending && a !in rest && a !in locals && |pending[a]| > accountSlots
        decreases rest
      {
        var a :| a in rest;
        if a !in locals && |pending[a]| > accountSlots { spammers := spammers + {a}; }
        rest := rest - {a};
      }
    }

    /**
    Enforce the pending limit. If the total is within it, nothing changes; otherwise the
    pool is cut to its water level, and nothing but that was dropped.
    */
    method EqualisePending() returns (count: nat, ghost t: nat)
      requires nonces.Keys == pending.Keys
      modifies this`pending, this`all, this`nonces
      ensures count == Sum(Lengths(pending))
      ensures Sum(Lengths(old(pending))) <= globalSlots ==> Value() == old(Value())
      ensures Sum(Lengths(old(pending))) > globalSlots ==>
                WaterLevel(old(pending), locals, accountSlots, globalSlots, t)
                && Value() == LevelView(old(Value()), locals, t)
      ensures Fair(old(pending), pending, locals, accountSlots)
      ensures Met(pending, locals, accountSlots, globalSlots, count)
      ensures Sum(Lengths(old(pending))) > globalSlots ==>
                count + |Shortened(old(pending), pending)| > globalSlots
    {
      count := CountPending();
      t := 0;
      if count > globalSlots {
        ghost var o := Value();
        var spammers := FindSpammers();
        var v;
        v, count, t := CutToLimit(Value(), spammers, locals, accountSlots, globalSlots, count);
        LevelCount(o, locals, t);
        LevelFair(o, v, locals, accountSlots, globalSlots, t, count);
        LevelTight(o, v, locals, accountSlots, globalSlots, t, count);
        pending, all, nonces := v.p, v.all, v.nonces;
      } else {
        NothingFair(pending, locals, accountSlots);
      }
    }
  }

  /** The two stages of the limit: gather and equalise the offenders, then cut them all alike. */
  method CutToLimit(o: View, spammers: set<Addr>, ghost locals: set<Addr>, slots: nat, limit: nat, count0: nat)
    returns (v: View, count: nat, ghost t: nat)
    requires o.nonces.Keys == o.p.Keys && spammers == Missed(o.p, locals, slots, [])
    requires count0 == Sum(Lengths(o.p)) && count0 > limit
    ensures v == LevelView(o, locals, t) && count == TotalAt(o.p, locals, t)
    ensures WaterLevel(o.p, locals, slots, limit, t)
  {
    ghost var top := TopLevel(o, locals, slots);
    ghost var above := 0;
    var offs;
    v, offs, count, t, above := Gather(o, spammers, limit, count0, locals, slots, top, o);
    if count > limit {
      if |offs| > 0 {
        ghost var t0 := t;
        v, count, t := CutDown(v, offs, slots, limit, count, locals, t0, o);
        above := t + 1;
        if count <= limit { Exceeds(o.p, locals, t, above, t0, slots, offs, limit); }
      } else {
        FirstLevel(o.p, locals, t, slots);
        t, above := slots, slots + 1;
      }
    }
    WaterLevelFound(o.p, locals, slots, limit, t, above);
  }
}
