/**
The value a binary Merkle tree gives to a chunk: the reference hasher on bytes, the same
value defined by height, and the value per tree node over double segments.
*/
module BmtTree {
  type Bytes = seq<bv8>

  ghost function Pow2(k: nat): (p: nat)
    ensures p > 0
  {
    if k == 0 then 1 else 2 * Pow2(k - 1)
  }

  // ----- The reference hasher

  /** The loop that halves the span until it is below the data length. */
  function Halve(s: nat, l: nat): (r: nat)
    requires s > 0 && l > 1
    ensures 0 < r <= s && r < l
  {
    if s >= l then Halve(s / 2, l) else s
  }

  /** Hash of `d` over base hash `H` with `size`-byte segments and span `s`. */
  function RefHash(H: Bytes -> Bytes, size: nat, d: Bytes, s: nat): Bytes
    requires size > 0 && s > 0
    decreases |d|
  {
    if |d| > 2 * size then
      var t := Halve(s, |d|);
      var left := RefHash(H, size, d[..t], t);
      var right := if |d| - t > size then RefHash(H, size, d[t..], t) else d[t..];
      H(left + right)
    else
      H(d)
  }

  /** Up to two segments are hashed at once. */
  lemma {:induction false} RefOneLeaf(H: Bytes -> Bytes, size: nat, d: Bytes, s: nat)
    requires size > 0 && s > 0 && |d| <= 2 * size
    ensures RefHash(H, size, d, s) == H(d)
  {
  }

  /** Of three or four segments the first two and the others are hashed, a single one not by itself; then both. */
  lemma {:induction false} RefTwoLeaves(H: Bytes -> Bytes, size: nat, d: Bytes)
    requires size > 0 && 2 * size < |d| <= 4 * size
    ensures var left, right := d[..2 * size], d[2 * size..];
            RefHash(H, size, d, 2 * size) == H(H(left) + if |right| > size then H(right) else right)
  {
    assert Halve(2 * size, |d|) == 2 * size;
    RefOneLeaf(H, size, d[..2 * size], 2 * size);
    if |d| > 3 * size { RefOneLeaf(H, size, d[2 * size..], 2 * size); }
  }

  /** The level whose double width is the least power of two, from 2 on, that covers `count` segments. */
  ghost predicate CoverLevel(count: nat, k: nat) {
    k >= 1 && count <= 2 * Pow2(k) && if count > 2 then 2 * Pow2(k - 1) < count else k == 1
  }

  /**
  The span of a reference hasher for `count` segments: half the power of two that covers them, but
  two segments at least.
  */
  method NewRefSpan(size: nat, count: nat) returns (span: nat, ghost k: nat)
    requires size > 0
    ensures CoverLevel(count, k) && span == Pow2(k) * size && span > 0
  {
    var c := 2;
    k := 1;
    while c < count
      invariant c == Pow2(k) && k >= 1 && (k > 1 ==> Pow2(k - 1) < count) && (count <= 2 ==> k == 1)
      decreases count - c
    {
      c := c * 2;
      k := k + 1;
    }
    if c > 2 { c := c / 2; k := k - 1; }
    span := c * size;
  }

  // ----- The same value by height

  /** Bytes under a node of height `k`. */
  ghost function Width(size: nat, k: nat): (w: nat)
    ensures size > 0 ==> w > 0
  {
    if k == 0 then 2 * size else 2 * Width(size, k - 1)
  }

  /**
  The value of a subtree of height `k` over `d`: a node whose right half is empty passes
  its left value on, and a last piece of at most one segment is not hashed by itself.
  */
  ghost function Tree(H: Bytes -> Bytes, size: nat, k: nat, d: Bytes): Bytes {
    if k == 0 then (if |d| > size then H(d) else d)
    else
      var w := Width(size, k - 1);
      if |d| <= w then Tree(H, size, k - 1, d)
      else H(Tree(H, size, k - 1, d[..w]) + Tree(H, size, k - 1, d[w..]))
  }

  /** Levels that add no data add no hash. */
  lemma {:induction false} TreeAbove(H: Bytes -> Bytes, size: nat, j: nat, k: nat, d: Bytes)
    requires size > 0 && j <= k && |d| <= Width(size, j)
    ensures Tree(H, size, k, d) == Tree(H, size, j, d)
    ensures Width(size, j) <= Width(size, k)
  {
    if j < k { TreeAbove(H, size, j, k - 1, d); }
  }

  /** The reference hasher computes the value by height, whatever the span above the data. */
  lemma {:induction false} RefIsTree(H: Bytes -> Bytes, size: nat, k: nat, d: Bytes, s: nat)
    requires size > 0 && 2 * s == Width(size, k)
    requires size < |d| <= Width(size, k)
    ensures RefHash(H, size, d, s) == Tree(H, size, k, d)
    decreases |d|, k
  {
    if |d| <= 2 * size {
      TreeAbove(H, size, 0, k, d);
    } else if s >= |d| {
      assert s == Width(size, k - 1) && k > 1;
      RefIsTree(H, size, k - 1, d, s / 2);
      assert Halve(s, |d|) == Halve(s / 2, |d|);
    } else {
      var l, r := d[..s], d[s..];
      assert s == Width(size, k - 1);
      WidthAtLeast(size, k - 1);
      RefIsTree(H, size, k, l, s);
      if |r| > size { RefIsTree(H, size, k, r, s); } else { TreeAbove(H, size, 0, k - 1, r); }
    }
  }

  lemma {:induction false} WidthAtLeast(size: nat, k: nat)
    requires size > 0
    ensures Width(size, k) >= 2 * size
  {
    if k > 0 { WidthAtLeast(size, k - 1); }
  }

  lemma {:induction false} WidthPow2(size: nat, k: nat)
    requires size > 0
    ensures Width(size, k) == 2 * (Pow2(k) * size)
  {
    if k > 0 { WidthPow2(size, k - 1); }
  }

  // ----- The value per node, over double segments

  /** A chunk cut into double segments, hashed with a tree of `depth` levels above the leaves. */
  datatype Chunk = Chunk(H: Bytes -> Bytes, size: nat, depth: nat, segs: seq<Bytes>) {
    /** The index of the last leaf written to. */
    function Last(): nat { if segs == [] then 0 else |segs| - 1 }

    function Seg(j: nat): Bytes { if j < |segs| then segs[j] else [] }

    /** All double segments but the last are full; the last leaf is a leaf of the tree. */
    ghost predicate Valid() {
      && size > 0 && segs != [] && Anc(Last(), depth) == 0
      && (forall j: nat :: j < Last() ==> |Seg(j)| == 2 * size)
      && |Seg(Last())| <= 2 * size && (Last() > 0 ==> Seg(Last()) != [])
    }
  }

  /** The index, among nodes of height `h`, of the node above leaf `l`. */
  function Anc(l: nat, h: nat): nat {
    if h == 0 then l else Anc(l, h - 1) / 2
  }

  /** The value that the subtree at height `h`, index `i` hands to its parent. */
  ghost function Val(c: Chunk, h: nat, i: nat): Bytes {
    if h == 0 then (if |c.Seg(i)| > c.size then c.H(c.Seg(i)) else c.Seg(i))
    else if 2 * i + 1 <= Anc(c.Last(), h - 1) then c.H(Val(c, h - 1, 2 * i) + Val(c, h - 1, 2 * i + 1))
    else Val(c, h - 1, 2 * i)
  }

  /** The hash of the whole chunk: one double segment is hashed outright. */
  ghost function RootVal(c: Chunk): Bytes {
    if c.Last() == 0 then c.H(c.Seg(0)) else Val(c, c.depth, 0)
  }

  /** The first byte under the node at height `h`, index `i`. */
  ghost function Offset(size: nat, h: nat, i: nat): nat {
    if i == 0 then 0 else Offset(size, h, i - 1) + Width(size, h)
  }

  /** The bytes of `d` under the node at height `h`, index `i`. */
  ghost function Piece(d: Bytes, size: nat, h: nat, i: nat): Bytes {
    Clip(d, Offset(size, h, i), Width(size, h))
  }

  /** The `w` bytes of `d` from `a` on, or what there is of them. */
  ghost function Clip(d: Bytes, a: nat, w: nat): Bytes {
    if a + w <= |d| then d[a..a + w] else if a <= |d| then d[a..] else []
  }

  /** `segs` is `d` cut into double segments. */
  ghost predicate Cut(segs: seq<Bytes>, d: Bytes, size: nat) {
    && segs != [] && EndsIn(|d|, size, |segs| - 1)
    && forall j {:trigger segs[j]} :: 0 <= j < |segs| ==> segs[j] == Piece(d, size, 0, j)
  }

  /** The last of `n` bytes lies in double segment `q`; without bytes that is the first. */
  ghost predicate EndsIn(n: nat, size: nat, q: nat) {
    n <= Offset(size, 0, q + 1) && if n == 0 then q == 0 else Offset(size, 0, q) < n
  }

  lemma {:induction false} OffsetMono(size: nat, h: nat, i: nat, j: nat)
    requires size > 0 && i <= j
    ensures Offset(size, h, i) <= Offset(size, h, j)
  {
    if i < j { OffsetMono(size, h, i, j - 1); }
  }

  lemma {:induction false} OffsetHalves(size: nat, h: nat, i: nat)
    requires size > 0 && h > 0
    ensures Offset(size, h - 1, 2 * i) == Offset(size, h, i)
    ensures Offset(size, h - 1, 2 * i + 1) == Offset(size, h, i) + Width(size, h - 1)
  {
    if i > 0 { OffsetHalves(size, h, i - 1); }
  }

  /** Node `m` of height `h` has data exactly when it is not right of the last leaf's ancestor. */
  lemma {:induction false} HasData(n: nat, size: nat, q: nat, h: nat, m: nat)
    requires size > 0 && n > 0 && EndsIn(n, size, q)
    ensures m <= Anc(q, h) <==> Offset(size, h, m) < n
  {
    if h == 0 {
      if m <= q { OffsetMono(size, 0, m, q); } else { OffsetMono(size, 0, q + 1, m); }
    } else {
      HasData(n, size, q, h - 1, 2 * m);
      OffsetHalves(size, h, m);
    }
  }

  /** The value of a node is the value by height of the bytes under it. */
  ghost predicate ValAgrees(c: Chunk, d: Bytes, h: nat, i: nat) {
    Offset(c.size, h, i) < |d| && Val(c, h, i) == Tree(c.H, c.size, h, Piece(d, c.size, h, i))
  }

  lemma {:induction false} ValOfHalves(c: Chunk, d: Bytes, h: nat, i: nat)
    requires c.size > 0 && h > 0 && 2 * i + 1 <= Anc(c.Last(), h - 1)
    requires Offset(c.size, h, i) + Width(c.size, h - 1) < |d|
    requires ValAgrees(c, d, h - 1, 2 * i) && ValAgrees(c, d, h - 1, 2 * i + 1)
    ensures ValAgrees(c, d, h, i)
  {
    HalfPieces(d, c.size, h, i);
    TreeSplits(c.H, c.size, h, Piece(d, c.size, h, i),
               Piece(d, c.size, h - 1, 2 * i), Piece(d, c.size, h - 1, 2 * i + 1));
  }

  lemma {:induction false} ValOfLeft(c: Chunk, d: Bytes, h: nat, i: nat)
    requires c.size > 0 && h > 0 && 2 * i + 1 > Anc(c.Last(), h - 1)
    requires Offset(c.size, h, i) < |d| <= Offset(c.size, h, i) + Width(c.size, h - 1)
    requires ValAgrees(c, d, h - 1, 2 * i)
    ensures ValAgrees(c, d, h, i)
  {
    OnlyHalf(c.H, d, c.size, h, i);
  }

  lemma {:induction false} DataBelow(n: nat, size: nat, q: nat, h: nat, i: nat)
    requires size > 0 && n > 0 && EndsIn(n, size, q) && i <= Anc(q, h)
    ensures Offset(size, h, i) < n
    ensures h > 0 ==> 2 * i <= Anc(q, h - 1)
    ensures h > 0 ==> (2 * i + 1 <= Anc(q, h - 1) <==> Offset(size, h, i) + Width(size, h - 1) < n)
  {
    HasData(n, size, q, h, i);
    if h > 0 {
      OffsetHalves(size, h, i);
      HasData(n, size, q, h - 1, 2 * i + 1);
    }
  }

  lemma {:induction false} ValIsTree(c: Chunk, d: Bytes, h: nat, i: nat)
    requires c.size > 0 && d != [] && Cut(c.segs, d, c.size) && i <= Anc(c.Last(), h)
    ensures ValAgrees(c, d, h, i)
  {
    DataBelow(|d|, c.size, c.Last(), h, i);
    if h == 0 {
      assert c.segs[i] == Piece(d, c.size, 0, i);
    } else {
      ValIsTree(c, d, h - 1, 2 * i);
      if 2 * i + 1 <= Anc(c.Last(), h - 1) {
        ValIsTree(c, d, h - 1, 2 * i + 1);
        ValOfHalves(c, d, h, i);
      } else {
        ValOfLeft(c, d, h, i);
      }
    }
  }

  lemma {:induction false} TreeSplits(H: Bytes -> Bytes, size: nat, k: nat, d: Bytes, l: Bytes, r: Bytes)
    requires size > 0 && k > 0 && |l| == Width(size, k - 1) && |r| > 0 && d == l + r
    ensures Tree(H, size, k, d) == H(Tree(H, size, k - 1, l) + Tree(H, size, k - 1, r))
  {
    assert d[..|l|] == l && d[|l|..] == r;
  }

  lemma {:induction false} OnlyHalf(H: Bytes -> Bytes, d: Bytes, size: nat, h: nat, i: nat)
    requires size > 0 && h > 0 && Offset(size, h, i) < |d| <= Offset(size, h, i) + Width(size, h - 1)
    ensures Offset(size, h - 1, 2 * i) == Offset(size, h, i)
    ensures Tree(H, size, h, Piece(d, size, h, i)) == Tree(H, size, h - 1, Piece(d, size, h - 1, 2 * i))
  {
    OffsetHalves(size, h, i);
    assert Piece(d, size, h, i) == d[Offset(size, h, i)..] == Piece(d, size, h - 1, 2 * i);
  }

  lemma {:induction false} HalfPieces(d: Bytes, size: nat, h: nat, i: nat)
    requires size > 0 && h > 0 && Offset(size, h, i) + Width(size, h - 1) < |d|
    ensures Offset(size, h - 1, 2 * i) == Offset(size, h, i)
    ensures Offset(size, h - 1, 2 * i + 1) == Offset(size, h, i) + Width(size, h - 1)
    ensures |Piece(d, size, h - 1, 2 * i)| == Width(size, h - 1) && |Piece(d, size, h - 1, 2 * i + 1)| > 0
    ensures Piece(d, size, h, i) == Piece(d, size, h - 1, 2 * i) + Piece(d, size, h - 1, 2 * i + 1)
  {
    OffsetHalves(size, h, i);
  }

  /** For every chunk the tree value is what the reference hasher computes. */
  lemma RootIsRef(c: Chunk, d: Bytes, s: nat, k: nat)
    requires c.Valid() && Cut(c.segs, d, c.size)
    requires 2 * s == Width(c.size, k) && |d| <= Width(c.size, k)
    ensures RootVal(c) == RefHash(c.H, c.size, d, s)
  {
    if c.Last() == 0 {
      assert c.segs[0] == d;
    } else {
      OffsetMono(c.size, 0, 1, c.Last());
      HasData(|d|, c.size, c.Last(), c.depth, 1);
      ValIsTree(c, d, c.depth, 0);
      assert Piece(d, c.size, c.depth, 0) == d;
      RefIsTree(c.H, c.size, k, d, s);
      if k <= c.depth { TreeAbove(c.H, c.size, k, c.depth, d); } else { TreeAbove(c.H, c.size, c.depth, k, d); }
    }
  }

  lemma MulMono(a: nat, b: nat, w: nat)
    requires a <= b
    ensures a * w <= b * w
  {}

  lemma {:induction false} OffsetProduct(size: nat, i: nat)
    requires size > 0
    ensures Offset(size, 0, i) == 2 * i * size
  {
    if i > 0 {
      OffsetProduct(size, i - 1);
      assert 2 * i * size == 2 * (i - 1) * size + 2 * size;
    }
  }
}
