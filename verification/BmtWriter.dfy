/**
Cutting a chunk for the concurrent hasher (bmt/bmt.go, Write): bytes come in through one or more
writes, full double segments are handed to goroutines, and one open segment is left for the sum.
*/
module BmtWriter {
  import opened BmtTree
  import opened Wrappers

  /** The double segments handed to goroutines, and the open one. */
  datatype Open = Open(launched: seq<Bytes>, segment: Bytes)

  /** The bytes a hasher for `count` segments is to take in. */
  function Capped(size: nat, count: nat, b: Bytes): Bytes {
    if |b| > count * size then b[..count * size] else b
  }

  // ----- What the segments hold

  ghost function Flat(segs: seq<Bytes>): Bytes {
    if segs == [] then [] else Flat(segs[..|segs| - 1]) + segs[|segs| - 1]
  }

  ghost predicate AllDouble(segs: seq<Bytes>, size: nat) {
    forall j | 0 <= j < |segs| :: |segs[j]| == 2 * size
  }

  /** The segments are those of `d`; with anything launched the open one is not empty. */
  ghost predicate Holds(size: nat, h: Open, d: Bytes) {
    && d == Flat(h.launched) + h.segment && AllDouble(h.launched, size) && |h.segment| <= 2 * size
    && (h.launched != [] ==> h.segment != [])
  }

  lemma {:induction false} FlatSize(segs: seq<Bytes>, size: nat)
    requires AllDouble(segs, size)
    ensures |Flat(segs)| == Offset(size, 0, |segs|)
  {
    if segs != [] { FlatSize(segs[..|segs| - 1], size); }
  }

  lemma {:induction false} FlatMore(segs: seq<Bytes>, s: Bytes)
    ensures Flat(segs + [s]) == Flat(segs) + s
  {
    assert (segs + [s])[..|segs|] == segs;
  }

  lemma {:induction false} FlatConcat(a: seq<Bytes>, b: seq<Bytes>)
    ensures Flat(a + b) == Flat(a) + Flat(b)
    decreases |b|
  {
    if b == [] {
      assert a + b == a;
    } else {
      var n := |b| - 1;
      assert a + b == a + b[..n] + [b[n]];
      FlatConcat(a, b[..n]);
      FlatMore(a + b[..n], b[n]);
    }
  }

  /** Each segment is the piece of the bytes at its place. */
  lemma {:induction false} FlatPiece(segs: seq<Bytes>, rest: Bytes, size: nat, j: nat)
    requires size > 0 && AllDouble(segs, size) && j < |segs|
    ensures Piece(Flat(segs) + rest, size, 0, j) == segs[j]
  {
    var n := |segs| - 1;
    FlatSize(segs[..n], size);
    if j < n {
      assert Flat(segs) + rest == Flat(segs[..n]) + (segs[n] + rest);
      FlatPiece(segs[..n], segs[n] + rest, size, j);
    }
  }

  /** What is held is cut into double segments. */
  lemma {:induction false} HoldsCut(size: nat, h: Open, d: Bytes)
    requires size > 0 && Holds(size, h, d)
    ensures Cut(h.launched + [h.segment], d, size)
  {
    var segs, q := h.launched + [h.segment], |h.launched|;
    FlatSize(h.launched, size);
    forall j | 0 <= j < |segs| ensures segs[j] == Piece(d, size, 0, j) {
      if j < q { FlatPiece(h.launched, h.segment, size, j); }
    }
  }

  // ----- One write

  lemma {:induction false} DoubleMore(segs: seq<Bytes>, s: Bytes, size: nat)
    requires AllDouble(segs, size) && |s| == 2 * size
    ensures AllDouble(segs + [s], size)
  {
  }

  lemma {:induction false} Pushed(more: seq<Bytes>, segment: Bytes, s0: Bytes, b: Bytes, rest: nat, next: nat)
    requires rest <= next <= |b| && Flat(more) + segment == s0 + b[..rest]
    ensures Flat(more + [segment]) + b[rest..next] == s0 + b[..next]
  {
    FlatMore(more, segment);
    assert b[..rest] + b[rest..next] == b[..next];
    assert s0 + b[..rest] + b[rest..next] == s0 + (b[..rest] + b[rest..next]);
  }

  /** The loop of a write: with more to come, the open double segment goes to a goroutine. */
  method PushSegments(s0: Bytes, b: Bytes, size: nat, left: nat, sz0: nat, rest0: nat, need0: nat)
    returns (more: seq<Bytes>, segment: Bytes, ghost k: nat)
    requires size > 0 && left > 0 && rest0 + need0 <= |b| && 0 < |s0| + rest0 <= 2 * size
    requires need0 > 0 && left > 1 ==> |s0| + rest0 == sz0 == 2 * size
    ensures |more| < left && AllDouble(more, size) && 0 < |segment| <= 2 * size
    ensures k <= rest0 + need0 && Flat(more) + segment == s0 + b[..k]
    ensures |more| + 1 == left || k == rest0 + need0
    ensures if more == [] then k == rest0 else k < rest0 + need0 ==> |segment| == 2 * size
  {
    ghost var n := rest0 + need0;
    var i, sz, rest, need: int := 0, sz0, rest0, need0;
    more, segment := [], s0 + b[..rest];
    while need > 0 && i < left - 1
      invariant i == |more| <= left - 1 && AllDouble(more, size) && 0 < |segment| <= 2 * size
      invariant rest + need == n || (need < 0 && rest == n)
      invariant rest <= n && Flat(more) + segment == s0 + b[..rest]
      invariant rest < n && left > 1 ==> |segment| == sz == 2 * size
      invariant more == [] ==> rest == rest0
      decreases n - rest
    {
      DoubleMore(more, segment, size);
      need := need - sz;
      if need < 0 { sz := sz + need; }
      Pushed(more, segment, s0, b, rest, rest + sz);
      more := more + [segment];
      segment := b[rest..rest + sz];
      rest := rest + sz;
      i := i + 1;
    }
    k := rest;
  }

  /** The room from the open leaf on, with `m` segments to go: whole leaves, but one segment if that is all. */
  ghost function Room(size: nat, m: nat): nat {
    if m == 1 then size else Offset(size, 0, (m + 1) / 2)
  }

  ghost function Min(a: int, b: int): int {
    if a < b then a else b
  }

  /** The bytes that a write of `l` bytes takes in, with `o` bytes in the open segment. */
  ghost function Taken(size: nat, m: nat, o: nat, l: nat): int {
    Min(Min(l, m * size), Room(size, m) - o)
  }

  /** A leaf joins as many bytes as it has room for. */
  lemma {:induction false} PushedAll(size: nat, m: nat, o: nat, l: nat, sz: nat, rest: nat, more: nat, segment: nat,
                                     k: nat)
    requires size > 0 && m > 0 && l > 0 && sz == (if m == 1 then size else 2 * size) && o <= sz
    requires rest == Min(sz - o, Min(l, m * size)) && k <= Min(l, m * size) && segment <= 2 * size
    requires more < (m + 1) / 2 && Offset(size, 0, more) + segment == o + k
    requires more + 1 == (m + 1) / 2 || k == Min(l, m * size)
    requires if more == 0 then k == rest else k < Min(l, m * size) ==> segment == 2 * size
    ensures k == Taken(size, m, o, l)
  {
    var left := (m + 1) / 2;
    OffsetMono(size, 0, more + 1, left);
    assert Offset(size, 0, 1) == 2 * size;
  }

  /**
  One write to an open hasher for `count` segments that holds `d`. The need of the write is reckoned
  without the open segment, so at the last leaf of an odd count more than that may be there already;
  the next write then panics.
  */
  method Write(size: nat, count: nat, h: Open, b: Bytes, ghost d: Bytes) returns (r: Option<Open>, ghost n: nat)
    requires size > 0 && count > 0 && Holds(size, h, d) && |h.launched| < (count + 1) / 2
    ensures r.None? <==> b != [] && count == 2 * |h.launched| + 1 && |h.segment| > size
    ensures r.Some? ==> |r.value.launched| < (count + 1) / 2 && n <= |b| && Holds(size, r.value, d + b[..n])
    ensures r.Some? ==> n == if b == [] then 0 else Taken(size, count - 2 * |h.launched|, |h.segment|, |b|)
  {
    n := 0;
    if |b| == 0 {
      assert d + b[..0] == d;
      return Some(h), n;
    }
    var m := count - 2 * |h.launched|;
    Remaining(count, size, |h.launched|);
    var need: int := count * size - |h.launched| * 2 * size;
    var sz := size;
    if need > sz { sz := sz * 2; }
    Wide(m, size);
    if |b| < need { need := |b|; }
    var rest: int := sz - |h.segment|;
    if need < rest { rest := need; }
    if rest < 0 { return None, n; }
    var more, segment;
    more, segment, n := PushSegments(h.segment, b, size, (count + 1) / 2 - |h.launched|, sz, rest, need - rest);
    FlatSize(more, size);
    PushedAll(size, m, |h.segment|, |b|, sz, rest, |more|, |segment|, n);
    HoldsMore(size, h, d, b[..n], more, segment);
    r := Some(Open(h.launched + more, segment));
  }

  lemma {:induction false} Remaining(count: nat, size: nat, cur: nat)
    ensures count * size - cur * 2 * size == (count - 2 * cur) * size
  {
  }

  lemma {:induction false} Wide(m: nat, size: nat)
    requires m > 0 && size > 0
    ensures m * size >= size && (m * size > size <==> m > 1) && (m > 1 ==> m * size >= 2 * size)
  {
    if m > 1 { MulMono(2, m, size); }
  }

  lemma {:induction false} HoldsMore(size: nat, h: Open, d: Bytes, b: Bytes, more: seq<Bytes>, segment: Bytes)
    requires Holds(size, h, d) && AllDouble(more, size) && 0 < |segment| <= 2 * size
    requires Flat(more) + segment == h.segment + b
    ensures Holds(size, Open(h.launched + more, segment), d + b)
  {
    FlatConcat(h.launched, more);
    assert Flat(h.launched) + (Flat(more) + segment) == d + b;
  }

  // ----- When several writes are as good as one

  /** With an odd count, a write that begins below the last leaf and ends above the cap takes in too much. */
  predicate Crosses(size: nat, count: nat, t: nat, l: nat) {
    count % 2 == 1 && 0 < t && t + size <= count * size < t + l
  }

  /** The room is what is to be taken in, or one segment more if an odd number above one is to go. */
  lemma {:induction false} RoomIs(size: nat, m: nat)
    requires size > 0 && m > 0
    ensures Room(size, m) == m * size + if m % 2 == 1 && m > 1 then size else 0
  {
    var j := (m + 1) / 2;
    OffsetProduct(size, j);
    if m % 2 == 1 { assert 2 * j == m + 1; } else { assert 2 * j == m; }
    OneMore(m, size);
  }

  lemma {:induction false} OneMore(m: nat, n: nat)
    ensures (m + 1) * n == m * n + n
  {
  }

  /** What is held within the cap, in segments to go and bytes of the open segment. */
  lemma {:induction false} Reckoned(size: nat, count: nat, h: Open, d: Bytes, m: nat)
    requires size > 0 && Holds(size, h, d) && |h.launched| < (count + 1) / 2 && m == count - 2 * |h.launched|
    ensures m > 0 && count * size - |d| == m * size - |h.segment| && |h.segment| <= |d|
    ensures m % 2 == count % 2 && (d == [] <==> h.segment == [])
    ensures d != [] ==> (|d| + size <= count * size <==> m * size >= |h.segment| + size)
  {
    FlatSize(h.launched, size);
    OffsetProduct(size, |h.launched|);
    Remaining(count, size, |h.launched|);
    Swapped(|h.launched|, size);
  }

  lemma {:induction false} Swapped(q: nat, size: nat)
    ensures 2 * q * size == q * 2 * size
  {
  }

  /** A write takes in what there is up to the cap exactly if it does not cross it from below the last leaf. */
  lemma {:induction false} TakenExact(size: nat, count: nat, h: Open, d: Bytes, l: nat, m: nat)
    requires size > 0 && l > 0 && Holds(size, h, d) && |h.launched| < (count + 1) / 2
    requires m == count - 2 * |h.launched| && |d| <= count * size
    ensures var n := Taken(size, m, |h.segment|, l);
            && 0 <= n <= l && |d| + n >= Min(|d| + l, count * size)
            && (|d| + n == Min(|d| + l, count * size) <==> !Crosses(size, count, |d|, l))
  {
    Reckoned(size, count, h, d, m);
    RoomIs(size, m);
    Wide(m, size);
    if m > 2 { MulMono(3, m, size); }
  }

  /** Within the cap no write panics; above it every one does. */
  lemma {:induction false} PanicsAbove(size: nat, count: nat, h: Open, d: Bytes)
    requires size > 0 && Holds(size, h, d) && |h.launched| < (count + 1) / 2
    ensures count == 2 * |h.launched| + 1 && |h.segment| > size <==> |d| > count * size
  {
    var m := count - 2 * |h.launched|;
    Reckoned(size, count, h, d, m);
    Wide(m, size);
  }

  /** All bytes written. */
  ghost function Joined(bs: seq<Bytes>): Bytes {
    if bs == [] then [] else Joined(bs[..|bs| - 1]) + bs[|bs| - 1]
  }

  /** None of the writes crosses the cap from below the last leaf. */
  ghost predicate Smooth(size: nat, count: nat, bs: seq<Bytes>) {
    bs == [] || (Smooth(size, count, bs[..|bs| - 1])
                 && !Crosses(size, count, |Capped(size, count, Joined(bs[..|bs| - 1]))|, |bs[|bs| - 1]|))
  }

  lemma {:induction false} CappedTwice(size: nat, count: nat, a: Bytes, b: Bytes)
    ensures Capped(size, count, Capped(size, count, a) + b) == Capped(size, count, a + b)
  {
    var n := count * size;
    if |a| > n {
      assert (a[..n] + b)[..n] == a[..n] == (a + b)[..n];
    }
  }

  /** What a write within the cap leaves. */
  lemma {:induction false} WriteLeaves(size: nat, count: nat, h: Open, d: Bytes, b: Bytes, n: nat)
    requires size > 0 && Holds(size, h, d) && |h.launched| < (count + 1) / 2 && |d| <= count * size && n <= |b|
    requires n == if b == [] then 0 else Taken(size, count - 2 * |h.launched|, |h.segment|, |b|)
    ensures Crosses(size, count, |d|, |b|) ==> |d + b[..n]| > count * size
    ensures !Crosses(size, count, |d|, |b|) ==> d + b[..n] == Capped(size, count, d + b)
  {
    if b != [] { TakenExact(size, count, h, d, |b|, count - 2 * |h.launched|); }
    if !Crosses(size, count, |d|, |b|) {
      assert |d + b[..n]| == Min(|d + b|, count * size);
      assert d + b[..n] == (d + b)[..|d| + n];
    }
  }

  /** One more write, on what several have left. */
  ghost predicate Left(size: nat, count: nat, bs: seq<Bytes>, r: Option<Open>, d: Bytes) {
    && (r.Some? ==> Holds(size, r.value, d) && |r.value.launched| < (count + 1) / 2)
    && (if Smooth(size, count, bs) then r.Some? && d == Capped(size, count, Joined(bs))
        else r.None? || |d| > count * size)
  }

  lemma {:induction false} LeftNext(size: nat, count: nat, bs: seq<Bytes>, b: Bytes, h: Open, d: Bytes,
                                    r: Option<Open>, n: nat)
    requires size > 0 && count > 0 && Left(size, count, bs, Some(h), d)
    requires r.None? <==> b != [] && count == 2 * |h.launched| + 1 && |h.segment| > size
    requires r.Some? ==> |r.value.launched| < (count + 1) / 2 && n <= |b| && Holds(size, r.value, d + b[..n])
    requires r.Some? ==> n == if b == [] then 0 else Taken(size, count - 2 * |h.launched|, |h.segment|, |b|)
    ensures Left(size, count, bs + [b], r, if r.Some? then d + b[..n] else d)
  {
    var all := bs + [b];
    assert all[..|all| - 1] == bs && all[|all| - 1] == b;
    PanicsAbove(size, count, h, d);
    if Smooth(size, count, bs) {
      CappedSize(size, count, Joined(bs));
      CappedTwice(size, count, Joined(bs), b);
      WriteLeaves(size, count, h, d, b, n);
    }
  }

  lemma {:induction false} CappedSize(size: nat, count: nat, b: Bytes)
    ensures |Capped(size, count, b)| <= count * size
  {
  }

  /** Several writes to a fresh hasher leave what one write of all bytes leaves exactly if none crosses the cap. */
  method WriteAll(size: nat, count: nat, bs: seq<Bytes>) returns (r: Option<Open>)
    requires size > 0 && count > 0
    ensures Smooth(size, count, bs) <==> r.Some? && Holds(size, r.value, Capped(size, count, Joined(bs)))
  {
    r := Some(Open([], []));
    ghost var d: Bytes := [];
    for i := 0 to |bs|
      invariant Left(size, count, bs[..i], r, d)
    {
      assert bs[..i + 1] == bs[..i] + [bs[i]];
      if r.Some? {
        var h := r.value;
        ghost var n;
        r, n := Write(size, count, h, bs[i], d);
        LeftNext(size, count, bs[..i], bs[i], h, d, r, n);
        d := if r.Some? then d + bs[i][..n] else d;
      } else {
        NotSmooth(size, count, bs[..i], bs[i]);
      }
    }
    assert bs[..|bs|] == bs;
    CappedSize(size, count, Joined(bs));
  }

  lemma {:induction false} NotSmooth(size: nat, count: nat, bs: seq<Bytes>, b: Bytes)
    requires !Smooth(size, count, bs)
    ensures !Smooth(size, count, bs + [b])
  {
    assert (bs + [b])[..|bs|] == bs;
  }

  /** An even count, or no more bytes than the cap, is always smooth. */
  lemma {:induction false} SmoothIf(size: nat, count: nat, bs: seq<Bytes>)
    requires count % 2 == 0 || |Joined(bs)| <= count * size
    ensures Smooth(size, count, bs)
  {
    if bs != [] { SmoothIf(size, count, bs[..|bs| - 1]); }
  }

  /** Three segments of 32 bytes, written to in 40 and 80 bytes, take in all 120. */
  method TakesTooMuch(a: Bytes, b: Bytes) returns (h: Open)
    requires |a| == 40 && |b| == 80
    ensures Holds(32, h, a + b) && |a + b| > |Capped(32, 3, a + b)|
  {
    var r, n := Write(32, 3, Open([], []), a, []);
    h := r.value;
    assert [] + a[..n] == a;
    FlatSize(h.launched, 32);
    OffsetProduct(32, |h.launched|);
    RoomIs(32, 3);
    r, n := Write(32, 3, h, b, a);
    h := r.value;
    assert b[..n] == b;
  }

  /**
  Write the whole of `b` to a fresh hasher for `count` segments: `launched` are the double
  segments handed to goroutines, `segment` is the open one left for the final sum.
  */
  method WriteChunk(size: nat, count: nat, b: Bytes) returns (launched: seq<Bytes>, segment: Bytes)
    requires size > 0 && count > 0
    ensures Cut(launched + [segment], Capped(size, count, b), size)
    ensures |launched| <= (count - 1) / 2
  {
    var r, n := Write(size, count, Open([], []), b, []);
    WriteLeaves(size, count, Open([], []), [], b, n);
    assert [] + b == b;
    HoldsCut(size, r.value, Capped(size, count, b));
    launched, segment := r.value.launched, r.value.segment;
  }
}
