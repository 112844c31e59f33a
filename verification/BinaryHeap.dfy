/** A binary heap in a list, as Go's container/heap keeps it, ordered by a key. */
module BinaryHeap {
  ghost predicate Child(i: int, c: int) {
    c == 2 * i + 1 || c == 2 * i + 2
  }

  /** No child of index `lo` or more comes before its parent. */
  ghost predicate HeapFrom<T>(h: seq<T>, key: T -> int, lo: int) {
    forall i, c | lo <= i < |h| && 0 <= i && 0 <= c < |h| && Child(i, c) :: key(h[i]) <= key(h[c])
  }

  ghost predicate IsHeap<T>(h: seq<T>, key: T -> int) {
    HeapFrom(h, key, 0)
  }

  /** The first element is least. */
  lemma {:induction false} RootLeast<T>(h: seq<T>, key: T -> int, i: nat)
    requires IsHeap(h, key) && i < |h|
    ensures key(h[0]) <= key(h[i])
  {
    if i > 0 {
      var p := (i - 1) / 2;
      RootLeast(h, key, p);
      assert Child(p, i);
    }
  }

  function Swap<T>(h: seq<T>, i: nat, j: nat): (r: seq<T>)
    requires i < |h| && j < |h|
    ensures |r| == |h| && multiset(r) == multiset(h)
  {
    SwapMultiset(h, i, j);
    h[i := h[j]][j := h[i]]
  }

  lemma {:induction false} SwapMultiset<T>(h: seq<T>, i: nat, j: nat)
    requires i < |h| && j < |h|
    ensures multiset(h[i := h[j]][j := h[i]]) == multiset(h)
  {
  }

  /** A heap but for the children of `k`, which still come after the parent of `k`. */
  ghost predicate Sinking<T>(h: seq<T>, key: T -> int, lo: int, k: int) {
    && (forall i, c | lo <= i < |h| && 0 <= i && i != k && 0 <= c < |h| && Child(i, c) :: key(h[i]) <= key(h[c]))
    && (forall i, c | lo <= i < |h| && 0 <= i && 0 <= k < |h| && 0 <= c < |h| && Child(i, k) && Child(k, c) ::
          key(h[i]) <= key(h[c]))
  }

  lemma {:induction false} SinkStep<T>(h: seq<T>, key: T -> int, lo: nat, k: nat, j: nat)
    requires Sinking(h, key, lo, k) && lo <= k < |h| && j < |h| && Child(k, j) && key(h[j]) < key(h[k])
    requires forall c | 0 <= c < |h| && Child(k, c) :: key(h[j]) <= key(h[c])
    ensures Sinking(Swap(h, k, j), key, lo, j)
  {
  }

  /** The first of the children of `i`, if it comes before `i`; otherwise `i`. */
  method LesserChild<T>(h: seq<T>, key: T -> int, i: nat) returns (j: nat)
    requires i < |h|
    ensures j < |h| && (j == i || (Child(i, j) && key(h[j]) < key(h[i])))
    ensures forall c | 0 <= c < |h| && Child(i, c) :: key(h[j]) <= key(h[c])
  {
    j := 2 * i + 1;
    if j >= |h| { return i; }
    if j + 1 < |h| && key(h[j + 1]) < key(h[j]) { j := j + 1; }
    if key(h[j]) >= key(h[i]) { return i; }
  }

  /** Let the element at `i0` sink until its children come after it. */
  method Down<T>(h0: seq<T>, key: T -> int, i0: nat, ghost lo: nat) returns (h: seq<T>, moved: bool)
    requires lo <= i0 < |h0| && Sinking(h0, key, lo, i0)
    ensures HeapFrom(h, key, lo) && |h| == |h0| && multiset(h) == multiset(h0) && (!moved ==> h == h0)
    ensures HeapFrom(h0, key, i0) ==> !moved
  {
    h := h0;
    var i := i0;
    var j := LesserChild(h, key, i);
    moved := j != i;
    while j != i
      invariant lo <= i < |h| == |h0| && multiset(h) == multiset(h0) && (!moved ==> h == h0 && i == j)
      invariant Sinking(h, key, lo, i)
      invariant j < |h| && (j == i || (Child(i, j) && key(h[j]) < key(h[i])))
      invariant forall c | 0 <= c < |h| && Child(i, c) :: key(h[j]) <= key(h[c])
      decreases |h| - i
    {
      SinkStep(h, key, lo, i, j);
      h, i := Swap(h, i, j), j;
      j := LesserChild(h, key, i);
    }
  }

  /** A heap but for `k` against its parent, which still comes before the children of `k`. */
  ghost predicate Rising<T>(h: seq<T>, key: T -> int, k: int) {
    && (forall i, c | 0 <= i < |h| && 0 <= c < |h| && c != k && Child(i, c) :: key(h[i]) <= key(h[c]))
    && (forall i, c | 0 <= i < |h| && 0 <= k < |h| && 0 <= c < |h| && Child(i, k) && Child(k, c) ::
          key(h[i]) <= key(h[c]))
  }

  lemma {:induction false} RiseStep<T>(h: seq<T>, key: T -> int, k: nat, p: nat)
    requires Rising(h, key, k) && k < |h| && p < |h| && Child(p, k) && key(h[k]) < key(h[p])
    ensures Rising(Swap(h, p, k), key, p)
  {
  }

  /** Let the element at `j0` rise until its parent comes before it. */
  method Up<T>(h0: seq<T>, key: T -> int, j0: nat) returns (h: seq<T>)
    requires j0 < |h0| && Rising(h0, key, j0)
    ensures IsHeap(h, key) && multiset(h) == multiset(h0)
  {
    h := h0;
    var j := j0;
    while j > 0 && key(h[j]) < key(h[(j - 1) / 2])
      invariant j < |h| == |h0| && multiset(h) == multiset(h0) && Rising(h, key, j)
    {
      var i := (j - 1) / 2;
      RiseStep(h, key, j, i);
      h, j := Swap(h, i, j), i;
    }
    assert forall i | 0 <= i < |h| && Child(i, j) :: i == (j - 1) / 2;
  }

  /** Make any list a heap. */
  method Init<T>(h0: seq<T>, key: T -> int) returns (h: seq<T>)
    ensures IsHeap(h, key) && multiset(h) == multiset(h0)
  {
    h := h0;
    var i := |h| / 2 - 1;
    while i >= 0
      invariant -1 <= i < |h| == |h0| && multiset(h) == multiset(h0) && HeapFrom(h, key, i + 1)
    {
      var moved;
      h, moved := Down(h, key, i, i);
      i := i - 1;
    }
  }

  method Push<T>(h0: seq<T>, key: T -> int, x: T) returns (h: seq<T>)
    requires IsHeap(h0, key)
    ensures IsHeap(h, key) && multiset(h) == multiset(h0) + multiset{x}
  {
    h := Up(h0 + [x], key, |h0|);
  }

  /** The last element put in the place of the one at `i`. */
  ghost function Filled<T>(h: seq<T>, i: nat): seq<T>
    requires i < |h|
  {
    if i == |h| - 1 then h[..i] else h[..|h| - 1][i := h[|h| - 1]]
  }

  lemma {:induction false} FilledMultiset<T>(h: seq<T>, i: nat)
    requires i < |h|
    ensures Swap(h, i, |h| - 1)[..|h| - 1] == Filled(h, i) && multiset(Filled(h, i)) == multiset(h) - multiset{h[i]}
  {
    var s, n := Swap(h, i, |h| - 1), |h| - 1;
    assert s == s[..n] + [h[i]];
  }

  /** That element fits under the parent or over the children. */
  lemma {:induction false} FilledShape<T>(h: seq<T>, key: T -> int, i: nat)
    requires IsHeap(h, key) && i < |h| - 1
    ensures var f := Filled(h, i);
            if key(h[|h| - 1]) >= key(h[i]) then Sinking(f, key, 0, i)
            else Rising(f, key, i) && HeapFrom(f, key, i) && Sinking(f, key, i, i)
  {
  }

  lemma {:induction false} HeapRises<T>(h: seq<T>, key: T -> int, i: nat)
    requires IsHeap(h, key) && i < |h|
    ensures Rising(h, key, i)
  {
    forall p, c | 0 <= p < |h| && 0 <= c < |h| && Child(p, i) && Child(i, c) ensures key(h[p]) <= key(h[c]) {
      assert key(h[p]) <= key(h[i]) <= key(h[c]);
    }
  }

  /** Take the element at `i` out. */
  method Remove<T>(h0: seq<T>, key: T -> int, i: nat) returns (h: seq<T>)
    requires IsHeap(h0, key) && i < |h0|
    ensures IsHeap(h, key) && multiset(h) == multiset(h0) - multiset{h0[i]}
  {
    var n := |h0| - 1;
    FilledMultiset(h0, i);
    h := Swap(h0, i, n)[..n];
    if i < n {
      FilledShape(h0, key, i);
      ghost var under := key(h0[n]) >= key(h0[i]);
      var moved;
      h, moved := Down(h, key, i, if under then 0 else i);
      if !moved {
        if under { HeapRises(h, key, i); }
        h := Up(h, key, i);
      }
    }
  }

  /** Take the first element out. */
  method Pop<T>(h0: seq<T>, key: T -> int) returns (h: seq<T>, x: T)
    requires IsHeap(h0, key) && h0 != []
    ensures IsHeap(h, key) && x == h0[0] && multiset(h) == multiset(h0) - multiset{x} && |h| == |h0| - 1
  {
    var n := |h0| - 1;
    x := h0[0];
    FilledMultiset(h0, 0);
    h := Swap(h0, 0, n)[..n];
    if n > 0 {
      var moved;
      h, moved := Down(h, key, 0, 0);
    }
  }
}
