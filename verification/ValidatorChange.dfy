/**
The vote on a batch of validator power changes (third_part/txEncrypt/validator_tx.go), after
the batch has been decoded. Powers are unbounded integers here; signature and key checks are
parameters. Maps are walked in an arbitrary order, as in Go.
*/
module ValidatorChange {
  import opened Sums

  type Key = string

  /** A validator and the power it is to have. */
  datatype Item = Item(pubKey: Key, power: int)

  datatype Verdict = Accepted | NoKeys | BadKey | Overflow | BigChange | NotSigned

  function LowerChar(c: char): char {
    if 'A' <= c <= 'Z' then c + 32 as char else c
  }

  function Lower(k: Key): (r: Key)
    ensures |r| == |k|
  {
    if k == [] then [] else Lower(k[..|k| - 1]) + [LowerChar(k[|k| - 1])]
  }

  /** No two keys differ in case only. */
  ghost predicate Apart(s: set<Key>) {
    forall a, b | a in s && b in s && Lower(a) == Lower(b) :: a == b
  }

  ghost function Lowered(s: set<Key>): set<Key> {
    set k | k in s :: Lower(k)
  }

  /** The powers under lower-case keys. */
  ghost predicate IsLowered(m: map<Key, int>, pubkey: map<Key, int>) {
    m.Keys == Lowered(pubkey.Keys) && forall k <- pubkey :: m[Lower(k)] == pubkey[k]
  }

  ghost predicate NonNegative(m: map<Key, int>) {
    forall k <- m :: m[k] >= 0
  }

  // ----- What is decided

  ghost function Abs(x: int): int { if x < 0 then -x else x }

  ghost function PowerOf(m: map<Key, int>, k: Key): int {
    if k in m then m[k] else 0
  }

  /** The sum of the changes, each against the present power. */
  ghost function Change(m: map<Key, int>, items: seq<Item>): int {
    if items == [] then 0
    else
      var last := items[|items| - 1];
      Change(m, items[..|items| - 1]) + Abs(PowerOf(m, Lower(last.pubKey)) - last.power)
  }

  /** The powers once the items are assigned in order. */
  ghost function After(m: map<Key, int>, items: seq<Item>): map<Key, int> {
    if items == [] then m
    else
      var last := items[|items| - 1];
      After(m, items[..|items| - 1])[Lower(last.pubKey) := last.power]
  }

  /** More than two thirds of all power. */
  ghost predicate Quorum(m: map<Key, int>, q: set<Key>) {
    q <= m.Keys && 3 * SumOver(m, q) > 2 * Sum(m)
  }

  /** The spellings of validators' keys with a valid signature. */
  ghost function Valid(keys: set<Key>, signed: set<Key>, verify: Key -> bool): set<Key> {
    set k | k in signed && Lower(k) in keys && verify(k)
  }

  /** The validators with a valid signature. */
  ghost function Signers(keys: set<Key>, signed: set<Key>, verify: Key -> bool): (r: set<Key>)
    ensures r <= keys
  {
    Lowered(Valid(keys, signed, verify))
  }

  /** All of `v` are spellings of `keys`. */
  ghost predicate Spells(keys: set<Key>, v: set<Key>) {
    forall k <- v :: Lower(k) in keys
  }

  /** The power that counts for each spelling, that of its validator. */
  ghost function Spelled(m: map<Key, int>, v: set<Key>): map<Key, int>
    requires Spells(m.Keys, v)
  {
    map k | k in v :: m[Lower(k)]
  }

  /** The signatures count more than two thirds of all power, each spelling by itself. */
  ghost predicate Enough(m: map<Key, int>, signed: set<Key>, verify: Key -> bool) {
    3 * Sum(Spelled(m, Valid(m.Keys, signed, verify))) > 2 * Sum(m)
  }

  /** What the vote decides; no order of the keys enters. */
  ghost function Decision(m: map<Key, int>, items: seq<Item>, signed: set<Key>, wellFormed: Key -> bool,
                          verify: Key -> bool): Verdict
  {
    if m == map[] then NoKeys
    else if exists i | 0 <= i < |items| :: !wellFormed(items[i].pubKey) then BadKey
    else if exists i | 0 <= i < |items| :: items[i].power < 0 then Overflow
    else if Change(m, items) >= Sum(m) / 3 then BigChange
    else if Enough(m, signed, verify) then Accepted
    else NotSigned
  }

  // ----- The vote

  lemma {:induction false} LoweredStep(m: map<Key, int>, pubkey: map<Key, int>, rest: set<Key>, k: Key)
    requires rest <= pubkey.Keys && Apart(pubkey.Keys) && k in rest && IsLowered(m, pubkey - rest)
    ensures Lower(k) !in m && IsLowered(m[Lower(k) := pubkey[k]], pubkey - (rest - {k}))
  {
    assert (pubkey - (rest - {k})).Keys == (pubkey - rest).Keys + {k};
  }

  /** The keys in lower case, and the sum of all power. */
  method LowerAll(pubkey: map<Key, int>) returns (m: map<Key, int>, total: int)
    ensures total == Sum(pubkey) && (Apart(pubkey.Keys) ==> IsLowered(m, pubkey) && total == Sum(m))
  {
    m, total := map[], 0;
    var rest := pubkey.Keys;
    while rest != {}
      invariant rest <= pubkey.Keys && total + SumOver(pubkey, rest) == Sum(pubkey)
      invariant Apart(pubkey.Keys) ==> IsLowered(m, pubkey - rest) && total == Sum(m)
      decreases rest
    {
      var k :| k in rest;
      SumTake(pubkey, rest, k);
      SumUpdate(m, Lower(k), pubkey[k]);
      if Apart(pubkey.Keys) { LoweredStep(m, pubkey, rest, k); }
      m, total, rest := m[Lower(k) := pubkey[k]], total + pubkey[k], rest - {k};
    }
    assert pubkey - rest == pubkey;
  }

  /** The lower-case powers do not depend on the order in which the keys were met. */
  lemma {:induction false} LoweredUnique(m: map<Key, int>, n: map<Key, int>, pubkey: map<Key, int>)
    requires IsLowered(m, pubkey) && IsLowered(n, pubkey)
    ensures m == n
  {
    forall k | k in m ensures k in n && m[k] == n[k] {
      var j :| j in pubkey && Lower(j) == k;
    }
  }

  /** The change, added up item by item; a negative power stops it. */
  method AddChanges(m: map<Key, int>, items: seq<Item>) returns (acc: int, ok: bool)
    ensures ok <==> forall i | 0 <= i < |items| :: items[i].power >= 0
    ensures ok ==> acc == Change(m, items)
  {
    acc, ok := 0, true;
    for i := 0 to |items|
      invariant acc == Change(m, items[..i]) && ok && forall j | 0 <= j < i :: items[j].power >= 0
    {
      assert items[..i + 1][..i] == items[..i];
      var power := items[i].power;
      if power < 0 { return acc, false; }
      var k := Lower(items[i].pubKey);
      if k !in m {
        acc := acc + power;
      } else {
        var np := m[k] - power;
        if np < 0 { np := -np; }
        acc := acc + np;
      }
    }
    assert items[..|items|] == items;
  }

  /** Add up signatures in any order until they are enough. */
  method CountSigned(m: map<Key, int>, total: int, signed: set<Key>, verify: Key -> bool) returns (ok: bool)
    ensures NonNegative(m) && total == Sum(m) ==> (ok <==> Enough(m, signed, verify))
  {
    var signPower, rest := 0, signed;
    ghost var fine, valid, done := NonNegative(m) && total == Sum(m), Valid(m.Keys, signed, verify), {};
    ghost var counted := Spelled(m, valid);
    if fine { SumNonNegative(m, m.Keys); }
    while rest != {}
      invariant rest <= signed && done == valid - rest
      invariant fine ==> signPower == SumOver(counted, done) <= total * 2 / 3
      decreases rest
    {
      var k :| k in rest;
      rest := rest - {k};
      if Lower(k) in m && verify(k) {
        SumTake(counted, done + {k}, k);
        assert done + {k} - {k} == done;
        done := done + {k};
        signPower := signPower + m[Lower(k)];
        if signPower > total * 2 / 3 {
          if fine { SumSubset(counted, done, valid); }
          return true;
        }
      }
      assert done == valid - rest;
    }
    assert done == valid == counted.Keys;
    return false;
  }

  /** The whole check; its verdict does not depend on the order in which maps are walked. */
  method ParseValidatorTx(pubkey: map<Key, int>, items: seq<Item>, signed: set<Key>, wellFormed: Key -> bool,
                          verify: Key -> bool)
    returns (verdict: Verdict)
    ensures NonNegative(pubkey) && Apart(pubkey.Keys) ==>
              exists m :: IsLowered(m, pubkey) && verdict == Decision(m, items, signed, wellFormed, verify)
  {
    if |pubkey| == 0 {
      assert IsLowered(map[], pubkey);
      return NoKeys;
    }
    var m, totalPower := LowerAll(pubkey);
    assert Apart(pubkey.Keys) ==> m != map[] by { var k :| k in pubkey; assert Apart(pubkey.Keys) ==> Lower(k) in m; }
    for i := 0 to |items|
      invariant forall j | 0 <= j < i :: wellFormed(items[j].pubKey)
    {
      if !wellFormed(items[i].pubKey) { return BadKey; }
    }
    var acc, ok := AddChanges(m, items);
    if !ok { return Overflow; }
    if acc >= totalPower / 3 { return BigChange; }
    ok := CountSigned(m, totalPower, signed, verify);
    verdict := if ok then Accepted else NotSigned;
  }

  // ----- What acceptance is worth

  /** Two quorums of the same powers share more than a third of all power. */
  lemma {:induction false} QuorumsShare(m: map<Key, int>, p: set<Key>, q: set<Key>)
    requires NonNegative(m) && Quorum(m, p) && Quorum(m, q)
    ensures 3 * SumOver(m, p * q) > Sum(m)
  {
    SumUnion(m, p, q);
    SumSubset(m, p + q, m.Keys);
  }

  lemma {:induction false} LoweredLess(v: set<Key>, k: Key)
    requires k in v
    ensures Lowered(v) == Lowered(v - {k}) + {Lower(k)}
    ensures Apart(v) ==> Lower(k) !in Lowered(v - {k}) && Apart(v - {k})
  {
  }

  lemma {:induction false} SpelledLess(m: map<Key, int>, v: set<Key>, k: Key)
    requires k in v && Spells(m.Keys, v)
    ensures Spells(m.Keys, v - {k}) && Sum(Spelled(m, v)) == m[Lower(k)] + Sum(Spelled(m, v - {k}))
  {
    var c := Spelled(m, v);
    SumWithout(c, k);
    assert c - {k} == Spelled(m, v - {k});
  }

  /** Spellings count at least what their validators weigh, and exactly that if none is spelled twice. */
  lemma {:induction false} SpelledSum(m: map<Key, int>, v: set<Key>)
    requires NonNegative(m) && Spells(m.Keys, v)
    ensures Sum(Spelled(m, v)) >= SumOver(m, Lowered(v))
    ensures Apart(v) ==> Sum(Spelled(m, v)) == SumOver(m, Lowered(v))
    decreases |v|
  {
    if v == {} {
      assert Lowered(v) == {};
    } else {
      var k :| k in v;
      LoweredLess(v, k);
      SpelledLess(m, v, k);
      SpelledSum(m, v - {k});
      var rest := Lowered(v - {k});
      if Lower(k) in rest {
        assert rest == Lowered(v);
      } else {
        SumTake(m, Lowered(v), Lower(k));
        assert Lowered(v) - {Lower(k)} == rest;
      }
    }
  }

  /** No validator is spelled twice, or all validators sign. */
  ghost predicate OnceOrAll(keys: set<Key>, v: set<Key>) {
    Apart(v) || Lowered(v) == keys
  }

  lemma {:induction false} AllZero(m: map<Key, int>, v: set<Key>)
    requires NonNegative(m) && Spells(m.Keys, v) && Sum(m) == 0
    ensures Sum(Spelled(m, v)) == 0
  {
    var c := Spelled(m, v);
    forall k | k in v ensures c[k] == 0 {
      SumTake(m, m.Keys, Lower(k));
      SumNonNegative(m, m.Keys - {Lower(k)});
    }
    SumZero(c, c.Keys);
  }

  /** A quorum of signers is enough; what is enough is a quorum if no validator is spelled twice or all sign. */
  lemma {:induction false} EnoughIsQuorum(m: map<Key, int>, signed: set<Key>, verify: Key -> bool)
    requires NonNegative(m)
    ensures Quorum(m, Signers(m.Keys, signed, verify)) ==> Enough(m, signed, verify)
    ensures OnceOrAll(m.Keys, Valid(m.Keys, signed, verify)) && Enough(m, signed, verify) ==>
              Quorum(m, Signers(m.Keys, signed, verify))
  {
    var v := Valid(m.Keys, signed, verify);
    assert Signers(m.Keys, signed, verify) == Lowered(v);
    SpelledSum(m, v);
    SumNonNegative(m, m.Keys);
    if Sum(m) == 0 { AllZero(m, v); }
  }

  /** Powers 2 and 3 for two validators, none for the others. */
  ghost function TwoAndThree(keys: set<Key>, x: Key, y: Key): map<Key, int> {
    map k | k in keys :: if k == x then 2 else if k == y then 3 else 0
  }

  lemma {:induction false} TwoAndThreeSum(keys: set<Key>, x: Key, y: Key, s: set<Key>)
    requires x in keys && y in keys && x != y && x in s && y !in s && s <= keys
    ensures var m := TwoAndThree(keys, x, y); Sum(m) == 5 && SumOver(m, s) == 2
  {
    var m := TwoAndThree(keys, x, y);
    assert m.Keys == keys;
    SumTake(m, keys, x);
    SumTake(m, keys - {x}, y);
    SumZero(m, keys - {x} - {y});
    SumTake(m, s, x);
    SumZero(m, s - {x});
  }

  /** A validator that signs under two spellings counts twice. */
  lemma {:induction false} CountsTwice(m: map<Key, int>, v: set<Key>, a: Key, b: Key)
    requires NonNegative(m) && Spells(m.Keys, v) && a in v && b in v && a != b && Lower(a) == Lower(b)
    ensures Sum(Spelled(m, v)) >= 2 * m[Lower(a)]
  {
    SpelledLess(m, v, a);
    SpelledLess(m, v - {a}, b);
    var c := Spelled(m, v - {a} - {b});
    SumNonNegative(c, c.Keys);
  }

  /**
  For a set of validators and the signatures handed in, being enough means a quorum of
  validators, whatever their powers, exactly when none of them signs under two spellings or
  all of them sign.
  */
  lemma {:induction false} QuorumIff(keys: set<Key>, signed: set<Key>, verify: Key -> bool)
    ensures OnceOrAll(keys, Valid(keys, signed, verify))
            <==> forall m: map<Key, int> | m.Keys == keys && NonNegative(m) && Enough(m, signed, verify) ::
                   Quorum(m, Signers(keys, signed, verify))
  {
    var v := Valid(keys, signed, verify);
    assert Signers(keys, signed, verify) == Lowered(v) <= keys;
    if OnceOrAll(keys, v) {
      forall m: map<Key, int> | m.Keys == keys && NonNegative(m) && Enough(m, signed, verify)
        ensures Quorum(m, Signers(keys, signed, verify))
      {
        EnoughIsQuorum(m, signed, verify);
      }
    } else {
      var a, b :| a in v && b in v && Lower(a) == Lower(b) && a != b;
      assert Lowered(v) < keys && Lower(a) in Lowered(v);
      var y :| y in keys && y !in Lowered(v);
      var m := TwoAndThree(keys, Lower(a), y);
      TwoAndThreeSum(keys, Lower(a), y, Lowered(v));
      CountsTwice(m, v, a, b);
      assert m.Keys == keys && Enough(m, signed, verify) && !Quorum(m, Lowered(v));
    }
  }

  /**
  Two accepted batches, neither of them with a validator spelled twice, share signers with more than
  a third of all power.
  */
  lemma {:induction false} AcceptedShare(m: map<Key, int>, items1: seq<Item>, items2: seq<Item>, signed1: set<Key>,
                                         signed2: set<Key>, wellFormed: Key -> bool,
                                         verify1: Key -> bool, verify2: Key -> bool)
    requires NonNegative(m)
    requires OnceOrAll(m.Keys, Valid(m.Keys, signed1, verify1)) && OnceOrAll(m.Keys, Valid(m.Keys, signed2, verify2))
    requires Decision(m, items1, signed1, wellFormed, verify1) == Accepted
    requires Decision(m, items2, signed2, wellFormed, verify2) == Accepted
    ensures 3 * SumOver(m, Signers(m.Keys, signed1, verify1) * Signers(m.Keys, signed2, verify2)) > Sum(m)
  {
    EnoughIsQuorum(m, signed1, verify1);
    EnoughIsQuorum(m, signed2, verify2);
    QuorumsShare(m, Signers(m.Keys, signed1, verify1), Signers(m.Keys, signed2, verify2));
  }

  lemma {:induction false} LowerTwice(c: char)
    ensures Lower([c, c]) == [LowerChar(c), LowerChar(c)]
  {
    assert [c, c][..1] == [c] && [c][..0] == [];
    assert Lower([]) == [] && Lower([c]) == [LowerChar(c)];
  }

  lemma {:induction false} TwoSpellings()
    ensures Lower("aa") == Lower("AA") == "aa" && Lower("bb") == Lower("BB") == "bb"
  {
    LowerTwice('a');
    LowerTwice('A');
    LowerTwice('b');
    LowerTwice('B');
  }

  /** One validator under two spellings. */
  lemma {:induction false} AloneAccepted(m: map<Key, int>, x: Key, a: Key, b: Key, wellFormed: Key -> bool,
                                         yes: Key -> bool)
    requires NonNegative(m) && x in m && Lower(a) == Lower(b) == x && a != b && yes(a) && yes(b)
    requires Sum(m) >= 3 && 6 * m[x] > 2 * Sum(m)
    ensures Decision(m, [], {a, b}, wellFormed, yes) == Accepted && Signers(m.Keys, {a, b}, yes) == {x}
  {
    var v := {a, b};
    assert Valid(m.Keys, v, yes) == v && Lowered(v) == {x};
    CountsTwice(m, v, a, b);
    assert Change(m, []) == 0;
  }

  /** Powers 2 and 3: each of the two validators alone, under two spellings, gets a batch accepted. */
  lemma {:induction false} NothingShared(wellFormed: Key -> bool)
    ensures var m, yes := map["aa" := 2, "bb" := 3], (k: Key) => true;
            && Decision(m, [], {"aa", "AA"}, wellFormed, yes) == Accepted
            && Decision(m, [], {"bb", "BB"}, wellFormed, yes) == Accepted
            && Signers(m.Keys, {"aa", "AA"}, yes) * Signers(m.Keys, {"bb", "BB"}, yes) == {}
  {
    var m, yes := map["aa" := 2, "bb" := 3], (k: Key) => true;
    TwoSpellings();
    SumTake(m, m.Keys, "aa");
    SumTake(m, m.Keys - {"aa"}, "bb");
    assert m.Keys - {"aa"} - {"bb"} == {};
    AloneAccepted(m, "aa", "aa", "AA", wellFormed, yes);
    AloneAccepted(m, "bb", "bb", "BB", wellFormed, yes);
  }

  /** By how much each power changes. */
  ghost function Diff(m: map<Key, int>, n: map<Key, int>): map<Key, int> {
    map k | k in m.Keys + n.Keys :: Abs(PowerOf(n, k) - PowerOf(m, k))
  }

  lemma {:induction false} DiffStep(m: map<Key, int>, n: map<Key, int>, k: Key, p: int)
    ensures Sum(Diff(m, n[k := p])) <= Sum(Diff(m, n)) + Abs(p - PowerOf(m, k))
  {
    var d, v := Diff(m, n), Abs(p - PowerOf(m, k));
    assert Diff(m, n[k := p]) == d[k := v];
    SumUpdate(d, k, v);
  }

  /** All changes together are no more than what was voted on, even if a validator is named twice. */
  lemma {:induction false} AfterDiff(m: map<Key, int>, items: seq<Item>)
    ensures Sum(Diff(m, After(m, items))) <= Change(m, items)
  {
    if items == [] {
      SumZero(Diff(m, m), Diff(m, m).Keys);
    } else {
      var rest, last := items[..|items| - 1], items[|items| - 1];
      AfterDiff(m, rest);
      DiffStep(m, After(m, rest), Lower(last.pubKey), last.power);
    }
  }

  /** No validator is named twice. */
  ghost predicate NamedOnce(items: seq<Item>) {
    items == [] || (NamedOnce(items[..|items| - 1])
                    && forall i | 0 <= i < |items| - 1 :: Lower(items[i].pubKey) != Lower(items[|items| - 1].pubKey))
  }

  lemma {:induction false} AfterOther(m: map<Key, int>, items: seq<Item>, k: Key)
    requires forall i | 0 <= i < |items| :: Lower(items[i].pubKey) != k
    ensures PowerOf(After(m, items), k) == PowerOf(m, k) && (k in After(m, items) <==> k in m)
  {
    if items != [] {
      var rest := items[..|items| - 1];
      assert forall i | 0 <= i < |rest| :: rest[i] == items[i];
      AfterOther(m, rest, k);
    }
  }

  lemma {:induction false} DiffExact(m: map<Key, int>, n: map<Key, int>, k: Key, p: int)
    requires PowerOf(n, k) == PowerOf(m, k) && (k in n <==> k in m)
    ensures Sum(Diff(m, n[k := p])) == Sum(Diff(m, n)) + Abs(p - PowerOf(m, k))
  {
    var d, v := Diff(m, n), Abs(p - PowerOf(m, k));
    assert Diff(m, n[k := p]) == d[k := v];
    SumUpdate(d, k, v);
  }

  /** Where no validator is named twice, what was voted on is exactly what changes. */
  lemma {:induction false} ChangeExact(m: map<Key, int>, items: seq<Item>)
    requires NamedOnce(items)
    ensures Change(m, items) == Sum(Diff(m, After(m, items)))
  {
    if items == [] {
      SumZero(Diff(m, m), Diff(m, m).Keys);
    } else {
      var rest, last := items[..|items| - 1], items[|items| - 1];
      assert forall i | 0 <= i < |rest| :: rest[i] == items[i];
      ChangeExact(m, rest);
      AfterOther(m, rest, Lower(last.pubKey));
      DiffExact(m, After(m, rest), Lower(last.pubKey), last.power);
    }
  }

  /** Every item is well-formed and has no negative power. */
  ghost predicate Sane(items: seq<Item>, wellFormed: Key -> bool) {
    forall i | 0 <= i < |items| :: wellFormed(items[i].pubKey) && items[i].power >= 0
  }

  /** A batch that is sane is refused for its size exactly if it changes a third of all power, rounded down, or more. */
  lemma {:induction false} BigChangeIff(m: map<Key, int>, items: seq<Item>, signed: set<Key>, wellFormed: Key -> bool,
                                        verify: Key -> bool)
    requires NonNegative(m) && m != map[] && Sane(items, wellFormed)
    ensures Decision(m, items, signed, wellFormed, verify) == BigChange <==> Sum(m) < 3 * Change(m, items) + 3
  {
    SumNonNegative(m, m.Keys);
  }

  /** What an accepted batch is: sane, a change of less than a third, and signatures for more than two thirds. */
  lemma {:induction false} AcceptedIff(m: map<Key, int>, items: seq<Item>, signed: set<Key>, wellFormed: Key -> bool,
                                       verify: Key -> bool)
    requires NonNegative(m)
    ensures Decision(m, items, signed, wellFormed, verify) == Accepted <==>
              && m != map[] && Sane(items, wellFormed) && 3 * Change(m, items) + 3 <= Sum(m)
              && 3 * Sum(Spelled(m, Valid(m.Keys, signed, verify))) > 2 * Sum(m)
  {
    SumNonNegative(m, m.Keys);
  }

  /** Which refusal comes first. */
  lemma {:induction false} RefusedIff(m: map<Key, int>, items: seq<Item>, signed: set<Key>, wellFormed: Key -> bool,
                                      verify: Key -> bool)
    requires NonNegative(m)
    ensures var v, formed := Decision(m, items, signed, wellFormed, verify),
                             forall i | 0 <= i < |items| :: wellFormed(items[i].pubKey);
            && (v == NoKeys <==> m == map[]) && (v == BadKey <==> m != map[] && !formed)
            && (v == Overflow <==> m != map[] && formed && exists i | 0 <= i < |items| :: items[i].power < 0)
            && (v == NotSigned <==> m != map[] && Sane(items, wellFormed) && 3 * Change(m, items) + 3 <= Sum(m)
                                    && 3 * Sum(Spelled(m, Valid(m.Keys, signed, verify))) <= 2 * Sum(m))
  {
    SumNonNegative(m, m.Keys);
  }

  /** Three validators of power 3, one of which is to leave: the change is a third and is refused. */
  lemma {:induction false} ThirdRefused(wellFormed: Key -> bool, verify: Key -> bool)
    requires wellFormed("aa")
    ensures var m := map["aa" := 3, "bb" := 3, "cc" := 3];
            Decision(m, [Item("aa", 0)], {"aa", "bb", "cc"}, wellFormed, verify) == BigChange
  {
    var m, items := map["aa" := 3, "bb" := 3, "cc" := 3], [Item("aa", 0)];
    LowerTwice('a');
    assert items[..0] == [] && Change(m, items) == Change(m, []) + 3;
    SumTake(m, m.Keys, "aa");
    SumTake(m, m.Keys - {"aa"}, "bb");
    SumTake(m, m.Keys - {"aa"} - {"bb"}, "cc");
    assert m.Keys - {"aa"} - {"bb"} - {"cc"} == {};
    BigChangeIff(m, items, {"aa", "bb", "cc"}, wellFormed, verify);
  }

  /** The powers of the keys `s`, zero where there is none. */
  ghost function Extended(m: map<Key, int>, s: set<Key>): map<Key, int> {
    map k | k in s :: PowerOf(m, k)
  }

  lemma {:induction false} ExtendedSum(m: map<Key, int>, s: set<Key>, q: set<Key>)
    requires q <= m.Keys <= s
    ensures Sum(Extended(m, s)) == SumOver(Extended(m, s), s) == Sum(m) && SumOver(Extended(m, s), q) == SumOver(m, q)
  {
    var e := Extended(m, s);
    SumSame(e, m, q);
    SumSame(e, m, m.Keys);
    SumZero(e, s - m.Keys);
    SumDisjoint(e, m.Keys, s - m.Keys);
    assert m.Keys + (s - m.Keys) == s == e.Keys;
  }

  lemma {:induction false} Halved(m: map<Key, int>, s: set<Key>, q: set<Key>)
    requires s == m.Keys && q <= s
    ensures Sum(m) == SumOver(m, q) + SumOver(m, s - q)
  {
    SumDisjoint(m, q, s - q);
    assert q + (s - q) == s;
  }

  /** What one set of keys gains is at most what changes in it. */
  lemma {:induction false} Gains(m: map<Key, int>, n: map<Key, int>, s: set<Key>, q: set<Key>)
    requires s == m.Keys + n.Keys && q <= s
    ensures Abs(SumOver(Extended(n, s), q) - SumOver(Extended(m, s), q)) <= SumOver(Diff(m, n), q)
    decreases |q|
  {
    if q != {} {
      var k :| k in q;
      SumTake(Extended(n, s), q, k);
      SumTake(Extended(m, s), q, k);
      SumTake(Diff(m, n), q, k);
      Gains(m, n, s, q - {k});
    }
  }

  /** Any quorum before an accepted change meets any quorum after it. */
  lemma {:induction false} QuorumsMeet(m: map<Key, int>, items: seq<Item>, signed: set<Key>, wellFormed: Key -> bool,
                                       verify: Key -> bool, p: set<Key>, q: set<Key>)
    requires NonNegative(m) && Decision(m, items, signed, wellFormed, verify) == Accepted
    requires Quorum(m, p) && Quorum(After(m, items), q)
    ensures p * q != {}
  {
    AcceptedIff(m, items, signed, wellFormed, verify);
    if p * q == {} {
      assert p !! q by { assert forall x | x in p && x in q :: x in p * q; }
      SumNonNegative(m, m.Keys);
      AfterDiff(m, items);
      DisjointQuorums(m, After(m, items), m.Keys + After(m, items).Keys, p, q);
    }
  }

  /** Disjoint quorums need a change of at least half of all power. */
  lemma {:induction false} DisjointQuorums(m: map<Key, int>, n: map<Key, int>, s: set<Key>, p: set<Key>, q: set<Key>)
    requires NonNegative(m) && s == m.Keys + n.Keys && Quorum(m, p) && Quorum(n, q) && p !! q
    ensures 2 * Sum(Diff(m, n)) > Sum(m)
  {
    var em, en, d := Extended(m, s), Extended(n, s), Diff(m, n);
    ExtendedSum(m, s, p);
    ExtendedSum(n, s, q);
    Gains(m, n, s, q);
    Gains(m, n, s, s - q);
    Halved(d, s, q);
    Halved(em, s, q);
    Halved(en, s, q);
    SumNonNegative(d, q);
    assert p <= s - q;
    SumSubset(em, p, s - q);
  }
}
