/**
Exactly which argument lists the ABI codec carries faithfully (third_part/abi/argument.go). The
encoder reckons the length of the heads with the outermost size of an array only; where that is
wrong, its offsets are.
*/
module AbiOffsets {
  import opened AbiArguments
  import opened AbiCodec
  import opened AbiLosses
  import opened AbiWords
  import opened Multiples
  import opened Wrappers

  // ----- Lists for which the two reckonings agree

  /** Arrays hold no arrays. */
  ghost predicate OneLevel(args: seq<Argument>) {
    args == [] || (OneLevel(args[..|args| - 1])
                   && (args[|args| - 1].ty.ArrayTy? ==> !args[|args| - 1].ty.elem.ArrayTy?))
  }

  lemma {:induction false} OneLevelAgrees(args: seq<Argument>)
    requires OneLevel(args)
    ensures HeadSize(args) == Start(args)
  {
    if args != [] {
      OneLevelAgrees(args[..|args| - 1]);
      var t := args[|args| - 1].ty;
      if t.ArrayTy? {
        assert FullSize(t.elem) == WORD;
        TimesProduct(WORD, t.size);
      }
    }
  }

  ghost predicate AllSized(args: seq<Argument>) {
    args == [] || (AllSized(args[..|args| - 1]) && Sized(args[|args| - 1].ty))
  }

  lemma {:induction false} SizedOf(args: seq<Argument>, i: nat, n: nat)
    requires i < n <= |args| && AllSized(args[..n])
    ensures Sized(args[i].ty) && AllSized(args[..i])
    decreases n
  {
    assert args[..n][..n - 1] == args[..n - 1];
    if i < n - 1 { SizedOf(args, i, n - 1); }
  }

  /** Both reckon whole words. */
  lemma {:induction false} WholeWords(args: seq<Argument>)
    requires AllSized(args)
    ensures HeadSize(args) % WORD == 0 && Start(args) % WORD == 0
  {
    if args != [] {
      var rest, t := args[..|args| - 1], args[|args| - 1].ty;
      WholeWords(rest);
      Kinds(t);
      if t.ArrayTy? {
        TimesProduct(WORD, t.size);
        TimesWhole(WORD, t.size);
      }
      Whole(HeadSize(rest), InputSize(t));
      Whole(Start(rest), FullSize(t));
    }
  }

  lemma {:induction false} Whole(a: nat, b: nat)
    requires a % WORD == 0 && b % WORD == 0
    ensures (a + b) % WORD == 0 && (a < b ==> a + WORD <= b)
  {
    var m, n := a / 32, b / 32;
    assert a == 32 * m && b == 32 * n;
    assert a + b == 32 * (m + n);
  }

  // ----- Words that are not one

  /** The number in the word at `p`. */
  ghost function WordAt(b: Bytes, p: nat): nat {
    if p + WORD <= |b| then ToNat(b[p..p + WORD]) else 0
  }

  /** Whole words, none of which reads as the number 1. */
  ghost predicate NoOnes(b: Bytes) {
    |b| % WORD == 0 && forall p: nat :: p % WORD == 0 ==> WordAt(b, p) != 1
  }

  lemma {:induction false} NoOnesConcat(a: Bytes, b: Bytes)
    requires NoOnes(a) && NoOnes(b)
    ensures NoOnes(a + b)
  {
    forall p: nat | p % WORD == 0 ensures WordAt(a + b, p) != 1 { WordAtConcat(a, b, p); }
  }

  lemma {:induction false} WordAtConcat(a: Bytes, b: Bytes, p: nat)
    requires NoOnes(a) && NoOnes(b) && p % WORD == 0
    ensures WordAt(a + b, p) != 1
  {
    if p < |a| {
      assert WordAt(a, p) != 1;
      assert (a + b)[p..p + WORD] == a[p..p + WORD];
    } else if p + WORD <= |a + b| {
      assert WordAt(b, p - |a|) != 1;
      assert (a + b)[p..p + WORD] == b[p - |a|..p - |a| + WORD];
    }
  }

  lemma {:induction false} ZerosNoOnes(n: nat)
    requires n % WORD == 0
    ensures NoOnes(Zeros(n))
  {
    forall p: nat ensures WordAt(Zeros(n), p) != 1 {
      if p + WORD <= n {
        assert Zeros(n)[p..p + WORD] == Zeros(WORD);
        ZerosAreZero(WORD);
      }
    }
  }

  lemma {:induction false} WordNoOnes(n: nat)
    requires n != 1 && n < MAX_INT63
    ensures NoOnes(Word(n))
  {
    Small(n);
    assert Word(n)[0..WORD] == Word(n);
  }

  // ----- Lists of zeros with one other value

  /** Zeros everywhere but at argument `i`. */
  ghost function Patch(args: seq<Argument>, i: nat, v: Value): (vs: seq<Value>)
    ensures |vs| == |args|
  {
    seq(|args|, j requires 0 <= j < |args| => if j == i then v else ZeroOf(args[j].ty))
  }

  lemma {:induction false} PatchFits(args: seq<Argument>, i: nat, v: Value, n: nat)
    requires n <= |args| && i < |args| && Fits(args[i].ty, v)
    ensures FitArgs(args, Patch(args, i, v), n)
  {
    if n > 0 {
      PatchFits(args, i, v, n - 1);
      if n - 1 != i { ZeroFits(args[n - 1].ty); }
    }
  }

  /** The size of the tail of argument `j`. */
  lemma {:induction false} PatchTailSize(args: seq<Argument>, i: nat, v: Value, j: nat)
    requires i < |args| && j < |args| && AllSized(args)
    ensures |Tails(args, Patch(args, i, v), j + 1)| - |Tails(args, Patch(args, i, v), j)|
            == if !RequiresLengthPrefix(args[j].ty) then 0 else if i == j then |Encode(args[i].ty, v)| else WORD
  {
    var vs, t := Patch(args, i, v), args[j].ty;
    assert args[..|args|] == args;
    if RequiresLengthPrefix(t) {
      SizedOf(args, j, |args|);
      ZeroEncoded(t);
      NextPrefixed(args, vs, 0, j);
    } else {
      NextInline(args, vs, 0, j);
    }
  }

  lemma {:induction false} PatchTails(args: seq<Argument>, i: nat, v: Value, n: nat)
    requires n <= |args| && i < |args| && AllSized(args)
    ensures |Tails(args, Patch(args, i, v), n)|
            == WORD * Prefixes(args[..n])
               + if n > i && RequiresLengthPrefix(args[i].ty) then |Encode(args[i].ty, v)| - WORD else 0
    ensures Prefixes(args[..n]) <= n
  {
    if n > 0 {
      assert args[..n][..n - 1] == args[..n - 1];
      PatchTails(args, i, v, n - 1);
      PatchTailSize(args, i, v, n - 1);
    }
  }

  lemma {:induction false} PatchHeads(args: seq<Argument>, i: nat, v: Value, base: nat, n: nat)
    requires n <= |args| && i < |args| && AllSized(args)
    ensures var t := args[i].ty;
            |Heads(args, Patch(args, i, v), base, n)|
            == Start(args[..n]) + if n > i && !RequiresLengthPrefix(t) then |Encode(t, v)| - FullSize(t) else 0
  {
    if n > 0 {
      assert args[..n][..n - 1] == args[..n - 1] && args[..|args|] == args;
      PatchHeads(args, i, v, base, n - 1);
      SizedOf(args, n - 1, |args|);
      ZeroEncoded(args[n - 1].ty);
    }
  }

  /** The size of the encoding of such a list. */
  lemma {:induction false} PatchSize(args: seq<Argument>, i: nat, v: Value)
    requires i < |args| && AllSized(args)
    ensures var t := args[i].ty;
            |Packed(args, Patch(args, i, v))|
            == LeastSize(args) + |Encode(t, v)| - if RequiresLengthPrefix(t) then WORD else FullSize(t)
    ensures Prefixes(args) <= |args|
  {
    assert args[..|args|] == args;
    PatchHeads(args, i, v, HeadSize(args), |args|);
    PatchTails(args, i, v, |args|);
  }

  /** A value in place stands where the decoder looks for it. */
  lemma {:induction false} PatchInline(args: seq<Argument>, i: nat, v: Value)
    requires i < |args| && AllSized(args) && !RequiresLengthPrefix(args[i].ty)
    ensures At(Packed(args, Patch(args, i, v)), Start(args[..i]), Encode(args[i].ty, v))
  {
    PatchHeads(args, i, v, HeadSize(args), i);
    InlinePlaced(args, Patch(args, i, v), i);
  }

  /** An offset is where the decoder looks for it. */
  lemma {:induction false} PatchOffset(args: seq<Argument>, i: nat, v: Value, data: Bytes, offset: nat)
    requires i < |args| && AllSized(args) && RequiresLengthPrefix(args[i].ty) && data == Packed(args, Patch(args, i, v))
    requires offset == HeadSize(args) + WORD * Prefixes(args[..i])
    ensures At(data, Start(args[..i]), Word(offset))
  {
    PatchHeads(args, i, v, HeadSize(args), i);
    PatchTails(args, i, v, i);
    OffsetPlaced(args, Patch(args, i, v), i, data, offset);
  }

  /** The value behind it stands behind all heads. */
  lemma {:induction false} PatchTail(args: seq<Argument>, i: nat, v: Value, data: Bytes, place: nat)
    requires i < |args| && AllSized(args) && RequiresLengthPrefix(args[i].ty) && data == Packed(args, Patch(args, i, v))
    requires place == Start(args) + WORD * Prefixes(args[..i])
    ensures At(data, place, Encode(args[i].ty, v))
  {
    var vs, base := Patch(args, i, v), HeadSize(args);
    assert args[..|args|] == args;
    PatchHeads(args, i, v, base, |args|);
    PatchTails(args, i, v, i);
    TailAt(args, vs, i, Heads(args, vs, base, |args|));
  }

  // ----- Lists that lose a value

  /** Values that fit but do not come back. */
  ghost predicate Lost(args: seq<Argument>, vs: seq<Value>) {
    |vs| == |args| && FitArgs(args, vs, |args|) && |Packed(args, vs)| < MAX_INT63 && !Returned(args, vs)
  }

  /** No argument is indexed, and fixed byte strings have 1 to 32 bytes. */
  ghost predicate Plain(args: seq<Argument>) {
    AllSized(args) && NoneIndexed(args)
  }

  lemma {:induction false} UnpackedAt(args: seq<Argument>, vs: seq<Value>, data: Bytes, i: nat, n: nat)
    requires i < n <= |args| && n <= |vs| && Unpacked(args, data, n) == Some(vs[..n])
    ensures Decode(Start(args[..i]), args[i].ty, data) == Some(vs[i])
  {
    var rest := Unpacked(args, data, n - 1).value;
    var last := Decode(Start(args[..n - 1]), args[n - 1].ty, data).value;
    assert vs[..n] == vs[..n - 1] + [vs[n - 1]];
    SameEnds(rest, last, vs[..n - 1], vs[n - 1]);
    if i < n - 1 { UnpackedAt(args, vs, data, i, n - 1); }
  }

  lemma {:induction false} SameEnds(a: seq<Value>, x: Value, b: seq<Value>, y: Value)
    requires a + [x] == b + [y]
    ensures a == b && x == y
  {
    assert (a + [x])[|a|] == x && (b + [y])[|b|] == y;
    assert |a + [x]| == |b + [y]|;
    assert a == (a + [x])[..|a|] == (b + [y])[..|b|] == b;
  }

  lemma {:induction false} PatchLost(args: seq<Argument>, i: nat, v: Value)
    requires i < |args| && Plain(args) && Fits(args[i].ty, v)
    requires LeastSize(args) + |Encode(args[i].ty, v)| < MAX_INT63
    requires Decode(Start(args[..i]), args[i].ty, Packed(args, Patch(args, i, v))) != Some(v)
    ensures Lost(args, Patch(args, i, v))
  {
    var vs := Patch(args, i, v);
    PatchFits(args, i, v, |args|);
    PatchSize(args, i, v);
    NonIndexedAll(args);
    if Unpacked(args, Packed(args, vs), |args|) == Some(vs) {
      assert vs[..|vs|] == vs;
      UnpackedAt(args, vs, Packed(args, vs), i, |args|);
    }
  }

  /** Values one of which panics. */
  lemma {:induction false} PanicLost(args: seq<Argument>, i: nat, v: Value)
    requires i < |args| && AllSized(args) && Fits(args[i].ty, v) && Packing(args[i].ty, v) == Panicked
    requires LeastSize(args) + |Encode(args[i].ty, v)| < MAX_INT63
    ensures Lost(args, Patch(args, i, v)) && PackingArgs(args, Patch(args, i, v)) == Panicked
  {
    var vs := Patch(args, i, v);
    PatchFits(args, i, v, |args|);
    PatchSize(args, i, v);
    FitArgsTyped(args, vs, |args|);
    PackingExact(args[i].ty, v);
    FitsTyped(args[i].ty, v);
    NotPackable(args, vs, i, |args|);
    ArgsExact(args, vs, |args|);
  }

  lemma {:induction false} NotPackable(args: seq<Argument>, vs: seq<Value>, i: nat, n: nat)
    requires i < n <= |args| && n <= |vs| && !Packable(args[i].ty, vs[i])
    ensures !PackableArgs(args, vs, n)
  {
    if i < n - 1 { NotPackable(args, vs, i, n - 1); }
  }

  /** An indexed argument is packed but not decoded. */
  lemma {:induction false} IndexedLost(args: seq<Argument>) returns (vs: seq<Value>)
    requires AllSized(args) && Roomy(args) && !NoneIndexed(args)
    ensures Lost(args, vs)
  {
    var v := ZeroOf(args[0].ty);
    assert args[..|args|] == args;
    SizedOf(args, 0, |args|);
    ZeroFits(args[0].ty);
    ZeroEncoded(args[0].ty);
    WidestParts(args[0].ty);
    RoomFor(args, 0, FullSize(args[0].ty), 0);
    vs := Patch(args, 0, v);
    PatchFits(args, 0, v, |args|);
    PatchSize(args, 0, v);
    FewerDecoded(args);
    var decoded := NonIndexed(args);
    UnpackedLength(decoded, Packed(args, vs), |decoded|);
  }

  lemma {:induction false} FewerDecoded(args: seq<Argument>)
    ensures |NonIndexed(args)| <= |args| && (!NoneIndexed(args) ==> |NonIndexed(args)| < |args|)
  {
    if args != [] {
      FewerDecoded(args[..|args| - 1]);
      assert forall i | 0 <= i < |args| - 1 :: args[..|args| - 1][i] == args[i];
    }
  }

  lemma {:induction false} UnpackedLength(args: seq<Argument>, data: Bytes, n: nat)
    requires n <= |args|
    ensures var vs := Unpacked(args, data, n); vs.Some? ==> |vs.value| == n
  {
    if n > 0 { UnpackedLength(args, data, n - 1); }
  }

  // ----- Room for the values that show a loss

  /** The greatest size of the type or of a type it is made of. */
  ghost function Widest(t: Type): nat {
    if t.SliceTy? || t.ArrayTy? then Max(FullSize(t), Widest(t.elem)) else WORD
  }

  ghost function Widths(args: seq<Argument>): nat {
    if args == [] then WORD else Widths(args[..|args| - 1]) + Widest(args[|args| - 1].ty)
  }

  ghost function Span(args: seq<Argument>): nat {
    HeadSize(args) + LeastSize(args) + 4 * WORD
  }

  /** The types are small enough for values that show a loss to have offsets of 63 bits. */
  ghost predicate Roomy(args: seq<Argument>) {
    16 * Times(Widths(args), Span(args)) < MAX_INT63
  }

  lemma {:induction false} WidestOf(args: seq<Argument>, i: nat, n: nat)
    requires i < n <= |args|
    ensures Widest(args[i].ty) + WORD <= Widths(args[..n])
    decreases n
  {
    assert args[..n][..n - 1] == args[..n - 1];
    WidthsLeast(args[..n - 1]);
    if i < n - 1 { WidestOf(args, i, n - 1); }
  }

  lemma {:induction false} WidthsLeast(args: seq<Argument>)
    ensures Widths(args) >= WORD
  {
    if args != [] { WidthsLeast(args[..|args| - 1]); }
  }

  lemma {:induction false} WidestParts(t: Type)
    ensures FullSize(t) <= Widest(t) && Widest(Leaf(t)) <= Widest(t) && FullSize(Leaf(t)) <= Widest(t)
    ensures t.SliceTy? || t.ArrayTy? ==> FullSize(t.elem) <= Widest(t) && Widest(t.elem) <= Widest(t)
  {
    if t.SliceTy? || t.ArrayTy? { WidestParts(t.elem); }
  }

  /** A product of a size and a number is bounded by that of the bounds. */
  lemma {:induction false} TimesWithin(c: nat, n: nat, w: nat, s: nat)
    requires c <= w && n <= s && 0 < w && 0 < s
    ensures Times(c, n) <= Times(w, s) && s <= Times(w, s) && w <= Times(w, s)
  {
    TimesWider(c, w, n);
    TimesMono(w, n, s);
    TimesMono(w, 1, s);
    TimesProduct(1, s);
    TimesWider(1, w, s);
    assert Times(w, 1) == Times(w, 0) + w;
  }

  /** What there is room for. */
  lemma {:induction false} RoomFor(args: seq<Argument>, i: nat, c: nat, n: nat)
    requires i < |args| && Roomy(args) && c <= Widest(args[i].ty) && n <= Span(args)
    ensures 2 * (LeastSize(args) + HeadSize(args) + Times(c, n) + c + 2 * n + 8 * WORD) < MAX_INT63
  {
    assert args[..|args|] == args;
    WidestOf(args, i, |args|);
    TimesWithin(c, n, Widths(args), Span(args));
  }

  lemma {:induction false} StartMono(args: seq<Argument>, i: nat, n: nat)
    requires i <= n <= |args|
    ensures Start(args[..i]) <= Start(args[..n]) && Prefixes(args[..i]) <= Prefixes(args[..n])
  {
    if i < n {
      assert args[..n][..n - 1] == args[..n - 1];
      StartMono(args, i, n - 1);
    }
  }

  lemma {:induction false} ExtentBound(t: Type, n: nat)
    requires RequiresLengthPrefix(t)
    ensures Extent(t, n) <= Times(if t.SliceTy? then FullSize(t.elem) else 0, n) + n + WORD
  {
  }

  /** There is room for `n` zeros in the innermost type of an argument. */
  lemma {:induction false} RoomForDeep(args: seq<Argument>, i: nat, t: Type, n: nat)
    requires i < |args| && Roomy(args) && Widest(t) <= Widest(args[i].ty) && Dynamic(t) && n <= Span(args)
    ensures LeastSize(args) + HeadSize(args) + FullSize(t) + Extent(Leaf(t), n) + n + 4 * WORD < MAX_INT63
  {
    var l := Leaf(t);
    LeafPrefixed(t);
    WidestParts(t);
    WidestParts(l);
    ExtentBound(l, n);
    RoomFor(args, i, FullSize(t), 0);
    RoomFor(args, i, if l.SliceTy? then FullSize(l.elem) else 0, n);
  }

  lemma {:induction false} LeafPrefixed(t: Type)
    requires Dynamic(t)
    ensures RequiresLengthPrefix(Leaf(t))
  {
    if t.ArrayTy? { LeafPrefixed(t.elem); }
  }

  /** An array of dynamic values, as an argument. */
  lemma {:induction false} DynamicArrayLost(args: seq<Argument>, i: nat) returns (vs: seq<Value>)
    requires Plain(args) && Roomy(args) && i < |args| && !RequiresLengthPrefix(args[i].ty) && Dynamic(args[i].ty)
    ensures Lost(args, vs)
  {
    var t, p := args[i].ty, Start(args[..i]);
    var n := p + WORD;
    assert args[..|args|] == args;
    StartMono(args, i, |args|);
    SizedOf(args, i, |args|);
    RoomForDeep(args, i, t, n);
    DeepFits(t, n);
    DeepEncoded(t, n);
    vs := Patch(args, i, Deep(t, n));
    var data := Packed(args, vs);
    PatchInline(args, i, Deep(t, n));
    AtPrefix(data, p, Word(n) + Zeros(n), Encode(t, Deep(t, n)));
    DeepLost(t, p, n, data);
    PatchLost(args, i, Deep(t, n));
  }

  // ----- Slices with right offsets

  /** Where the contents of a slice stand, if the offsets are right. */
  ghost function Begin(args: seq<Argument>, i: nat): nat
    requires i < |args|
  {
    Start(args) + WORD * Prefixes(args[..i]) + WORD
  }

  lemma {:induction false} BeginBound(args: seq<Argument>, i: nat)
    requires i < |args| && HeadSize(args) == Start(args)
    ensures Begin(args, i) <= LeastSize(args) + WORD && Begin(args, i) + WORD <= Span(args)
  {
    assert args[..|args|] == args;
    StartMono(args, i, |args|);
  }

  /** A slice with right offsets is looked for where it stands, its elements one word apart. */
  lemma {:induction false} SliceFound(args: seq<Argument>, i: nat, elems: seq<Value>, data: Bytes)
    requires i < |args| && AllSized(args) && args[i].ty.SliceTy? && data == Packed(args, Patch(args, i, List(elems)))
    requires HeadSize(args) == Start(args) && |data| < MAX_INT63
    ensures At(data, Begin(args, i), EncodeAll(args[i].ty.elem, elems))
    ensures Decode(Start(args[..i]), args[i].ty, data)
            == if Begin(args, i) + WORD * |elems| > |data| then None
               else Listed(DecodeAll(Begin(args, i), WORD, args[i].ty.elem, |elems|, data))
  {
    var offset := Begin(args, i) - WORD;
    PatchOffset(args, i, List(elems), data, offset);
    PatchTail(args, i, List(elems), data, offset);
    SliceAt(args[i].ty, elems, data, Start(args[..i]), offset);
  }

  lemma {:induction false} SliceSize(t: Type, elems: seq<Value>)
    requires t.SliceTy?
    ensures |Encode(t, List(elems))| == WORD + Max(|EncodeAll(t.elem, elems)|, (|elems| + 31) / 32 * 32)
  {
  }

  lemma {:induction false} PatchSmall(args: seq<Argument>, i: nat, v: Value)
    requires i < |args| && AllSized(args) && LeastSize(args) + |Encode(args[i].ty, v)| < MAX_INT63
    ensures |Packed(args, Patch(args, i, v))| < MAX_INT63
  {
    PatchSize(args, i, v);
  }

  /** A slice of elements without width: its length promises words that are not there. */
  lemma {:induction false} EmptySliceLost(args: seq<Argument>, i: nat) returns (vs: seq<Value>)
    requires Plain(args) && Roomy(args) && i < |args| && args[i].ty.SliceTy? && FullSize(args[i].ty.elem) == 0
    requires HeadSize(args) == Start(args)
    ensures Lost(args, vs)
  {
    var t, n := args[i].ty, Span(args);
    var v := Filled(t, n);
    assert args[..|args|] == args;
    SizedOf(args, i, |args|);
    RoomForDeep(args, i, t, n);
    FilledFits(t, n);
    FilledStarts(t, n);
    TimesZero(n);
    vs := Patch(args, i, v);
    PatchSmall(args, i, v);
    PatchSize(args, i, v);
    SliceFound(args, i, v.elems, Packed(args, vs));
    PatchLost(args, i, v);
  }

  /** A slice of static elements of several words. */
  lemma {:induction false} WideSliceLost(args: seq<Argument>, i: nat) returns (vs: seq<Value>)
    requires Plain(args) && Roomy(args) && i < |args| && args[i].ty.SliceTy? && Static(args[i].ty.elem)
    requires FullSize(args[i].ty.elem) >= 2 * WORD && HeadSize(args) == Start(args)
    ensures Lost(args, vs)
  {
    var t := args[i].ty;
    var v := List(Mixed(t.elem));
    assert args[..|args|] == args;
    SizedOf(args, i, |args|);
    WidestParts(t);
    RoomFor(args, i, FullSize(t.elem), 2);
    MixedEncoded(t.elem);
    SliceSize(t, Mixed(t.elem));
    vs := Patch(args, i, v);
    PatchSmall(args, i, v);
    SliceFound(args, i, Mixed(t.elem), Packed(args, vs));
    MixedLost(t.elem, Begin(args, i), Packed(args, vs));
    PatchLost(args, i, v);
  }

  /** A slice of dynamic elements. */
  lemma {:induction false} DynamicSliceLost(args: seq<Argument>, i: nat) returns (vs: seq<Value>)
    requires Plain(args) && Roomy(args) && i < |args| && args[i].ty.SliceTy? && Dynamic(args[i].ty.elem)
    requires HeadSize(args) == Start(args)
    ensures Lost(args, vs)
  {
    var t, q := args[i].ty, Begin(args, i);
    var e, n := t.elem, q + WORD;
    var elems := [Deep(e, n)];
    assert args[..|args|] == args;
    BeginBound(args, i);
    SizedOf(args, i, |args|);
    WidestParts(t);
    RoomForDeep(args, i, e, n);
    DeepFits(e, n);
    DeepEncoded(e, n);
    OneElement(e, Deep(e, n));
    SliceSize(t, elems);
    vs := Patch(args, i, List(elems));
    var data := Packed(args, vs);
    PatchSmall(args, i, List(elems));
    SliceFound(args, i, elems, data);
    AtPrefix(data, q, Word(n) + Zeros(n), Encode(e, Deep(e, n)));
    DeepLost(e, q, n, data);
    OneDecoded(q, e, data);
    PatchLost(args, i, List(elems));
  }

  lemma {:induction false} OneElement(t: Type, v: Value)
    ensures EncodeAll(t, [v]) == Encode(t, v) && (Fits(t, v) ==> AllFit(t, [v]))
  {
    assert [] + [v] == [v] && [v][..0] == [];
    EncodeLast(t, [], v);
  }

  lemma {:induction false} OneDecoded(start: nat, t: Type, out: Bytes)
    ensures var vs := DecodeAll(start, WORD, t, 1, out); vs.Some? ==> Decode(start, t, out) == Some(vs.value[0])
  {
    var vs := DecodeAll(start, WORD, t, 1, out);
    if vs.Some? { DecodedAt(start, WORD, t, 1, out, vs.value, 0); }
  }

  // ----- Wrong offsets

  /** Where the encoder reckons too much, the first offset leads into the contents behind it. */
  lemma {:induction false} TooFarLost(args: seq<Argument>, f: nat) returns (vs: seq<Value>)
    requires Plain(args) && Roomy(args) && f < |args| && RequiresLengthPrefix(args[f].ty) && Prefixes(args[..f]) == 0
    requires HeadSize(args) > Start(args)
    ensures Lost(args, vs)
  {
    var t, d := args[f].ty, HeadSize(args) - Start(args);
    var v := Filled(t, d);
    assert args[..|args|] == args;
    SizedOf(args, f, |args|);
    WholeWords(args);
    Whole(Start(args), HeadSize(args));
    RoomForDeep(args, f, t, d);
    FilledFits(t, d);
    FilledStarts(t, d);
    vs := Patch(args, f, v);
    var data := Packed(args, vs);
    PatchOffset(args, f, v, data, HeadSize(args));
    PatchTail(args, f, v, data, Start(args));
    TooFar(t, data, Start(args[..f]), Start(args), d, HeadSize(args));
    PatchLost(args, f, v);
  }

  lemma {:induction false} OffsetNoOnes(args: seq<Argument>, vs: seq<Value>, base: nat, i: nat)
    requires i < |args| && i < |vs| && RequiresLengthPrefix(args[i].ty)
    requires WORD <= base && base + |Tails(args, vs, i)| < MAX_INT63
    ensures NoOnes(Head(args, vs, base, i))
  {
    OffsetHead(args, vs, i, base);
    WordNoOnes(base + |Tails(args, vs, i)|);
  }

  lemma {:induction false} HeadNoOnes(args: seq<Argument>, f: nat, v: Value, base: nat, i: nat)
    requires i < |args| && f < |args| && AllSized(args) && RequiresLengthPrefix(args[f].ty)
    requires WORD <= base && base + LeastSize(args) + |Encode(args[f].ty, v)| < MAX_INT63
    requires |Encode(args[f].ty, v)| >= WORD
    ensures NoOnes(Head(args, Patch(args, f, v), base, i))
  {
    var t, vs := args[i].ty, Patch(args, f, v);
    assert args[..|args|] == args;
    if RequiresLengthPrefix(t) {
      PatchTails(args, f, v, i);
      StartMono(args, i, |args|);
      OffsetNoOnes(args, vs, base, i);
    } else {
      SizedOf(args, i, |args|);
      ZeroEncoded(t);
      Kinds(t);
      ZerosNoOnes(FullSize(t));
    }
  }

  /** No word in the heads of these values reads as 1. */
  lemma {:induction false} HeadsNoOnes(args: seq<Argument>, f: nat, v: Value, base: nat, n: nat)
    requires n <= |args| && f < |args| && AllSized(args) && RequiresLengthPrefix(args[f].ty)
    requires WORD <= base && base + LeastSize(args) + |Encode(args[f].ty, v)| < MAX_INT63
    requires |Encode(args[f].ty, v)| >= WORD
    ensures NoOnes(Heads(args, Patch(args, f, v), base, n))
  {
    if n > 0 {
      HeadsNoOnes(args, f, v, base, n - 1);
      HeadNoOnes(args, f, v, base, n - 1);
      NoOnesConcat(Heads(args, Patch(args, f, v), base, n - 1), Head(args, Patch(args, f, v), base, n - 1));
    }
  }

  /** The length found through an offset into the heads is a word of the heads. */
  lemma {:induction false} LengthInHeads(t: Type, out: Bytes, index: nat, offset: nat, heads: Bytes)
    requires RequiresLengthPrefix(t) && At(out, index, Word(offset)) && offset < MAX_INT63
    requires heads <= out && offset + WORD <= |heads|
    ensures var v := Decode(index, t, out); v.Some? ==> PrefixOf(v.value) == WordAt(heads, offset)
  {
    if Decode(index, t, out).Some? {
      DecodedLength(index, t, out);
      AtSlice(out, index, Word(offset));
      Small(offset);
      assert out[offset..offset + WORD] == heads[offset..offset + WORD];
    }
  }

  lemma {:induction false} HeadSizeLeast(args: seq<Argument>, f: nat, n: nat)
    requires f < n <= |args| && RequiresLengthPrefix(args[f].ty)
    ensures HeadSize(args[..n]) >= WORD
    decreases n
  {
    assert args[..n][..n - 1] == args[..n - 1];
    if f < n - 1 { HeadSizeLeast(args, f, n - 1); }
  }

  /** An offset into heads without a 1 does not lead to a length of 1. */
  lemma {:induction false} NearOffset(args: seq<Argument>, f: nat, v: Value, data: Bytes)
    requires f < |args| && AllSized(args) && RequiresLengthPrefix(args[f].ty) && Prefixes(args[..f]) == 0
    requires data == Packed(args, Patch(args, f, v)) && HeadSize(args) < Start(args)
    requires HeadSize(args) + LeastSize(args) + |Encode(args[f].ty, v)| < MAX_INT63 && |Encode(args[f].ty, v)| >= WORD
    ensures var w := Decode(Start(args[..f]), args[f].ty, data); w.Some? ==> PrefixOf(w.value) != 1
  {
    var base, vs := HeadSize(args), Patch(args, f, v);
    assert args[..|args|] == args;
    WholeWords(args);
    Whole(base, Start(args));
    HeadSizeLeast(args, f, |args|);
    PatchOffset(args, f, v, data, base);
    PatchHeads(args, f, v, base, |args|);
    HeadsNoOnes(args, f, v, base, |args|);
    LengthInHeads(args[f].ty, data, Start(args[..f]), base, Heads(args, vs, base, |args|));
  }

  /** Where it reckons too little, the first offset leads into the heads. */
  lemma {:induction false} TooNearLost(args: seq<Argument>, f: nat) returns (vs: seq<Value>)
    requires Plain(args) && Roomy(args) && f < |args| && RequiresLengthPrefix(args[f].ty) && Prefixes(args[..f]) == 0
    requires HeadSize(args) < Start(args)
    ensures Lost(args, vs)
  {
    var t := args[f].ty;
    var v := Filled(t, 1);
    assert args[..|args|] == args;
    SizedOf(args, f, |args|);
    RoomForDeep(args, f, t, 1);
    FilledFits(t, 1);
    FilledStarts(t, 1);
    vs := Patch(args, f, v);
    NearOffset(args, f, v, Packed(args, vs));
    PatchLost(args, f, v);
  }

  lemma {:induction false} FirstPrefix(args: seq<Argument>) returns (f: nat)
    requires HasPrefix(args)
    ensures f < |args| && RequiresLengthPrefix(args[f].ty) && Prefixes(args[..f]) == 0
  {
    var n := |args| - 1;
    if HasPrefix(args[..n]) {
      f := FirstPrefix(args[..n]);
      assert args[..n][..f] == args[..f];
    } else {
      f := n;
      NoPrefixes(args[..n]);
    }
  }

  lemma {:induction false} NoPrefixes(args: seq<Argument>)
    requires !HasPrefix(args)
    ensures Prefixes(args) == 0
  {
    if args != [] { NoPrefixes(args[..|args| - 1]); }
  }

  /** Where the reckonings differ and an offset is needed, some values do not come back. */
  lemma {:induction false} Misplaced(args: seq<Argument>) returns (vs: seq<Value>)
    requires Plain(args) && Roomy(args) && HasPrefix(args) && HeadSize(args) != Start(args)
    ensures Lost(args, vs)
  {
    var f := FirstPrefix(args);
    if HeadSize(args) < Start(args) { vs := TooNearLost(args, f); } else { vs := TooFarLost(args, f); }
  }

  // ----- Arguments without width

  /** Where the least data ends too early for an argument without width, zeros do not come back. */
  lemma {:induction false} CrampedLost(args: seq<Argument>, i: nat) returns (vs: seq<Value>)
    requires Plain(args) && Roomy(args) && i < |args| && FullSize(args[i].ty) == 0
    requires Start(args[..i]) + Need(args[i].ty) > LeastSize(args)
    ensures Lost(args, vs)
  {
    var t := args[i].ty;
    var v := ZeroOf(t);
    assert args[..|args|] == args;
    SizedOf(args, i, |args|);
    RoomFor(args, i, 0, 0);
    ZeroFits(t);
    EmptyElem(t);
    EmptyEncoded(t, v);
    vs := Patch(args, i, v);
    PatchSize(args, i, v);
    EmptyRoundTrip(t, v, Packed(args, vs), Start(args[..i]));
    PatchLost(args, i, v);
  }

  lemma {:induction false} Cramped(args: seq<Argument>, n: nat, size: nat) returns (i: nat)
    requires n <= |args| && !Rooms(args, n, size)
    ensures i < n && FullSize(args[i].ty) == 0 && Start(args[..i]) + Need(args[i].ty) > size
  {
    if Rooms(args, n - 1, size) { i := n - 1; } else { i := Cramped(args, n - 1, size); }
  }

  // ----- Empty lists of arrays

  /** A slice of arrays, as an argument: the empty one panics. */
  lemma {:induction false} ArraySliceLost(args: seq<Argument>, i: nat) returns (vs: seq<Value>)
    requires Plain(args) && Roomy(args) && i < |args| && args[i].ty.SliceTy? && args[i].ty.elem.ArrayTy?
    ensures Lost(args, vs) && PackingArgs(args, vs) == Panicked
  {
    var t := args[i].ty;
    assert args[..|args|] == args;
    SizedOf(args, i, |args|);
    ZeroFits(t);
    ZeroEncoded(t);
    RoomFor(args, i, 0, 0);
    EmptyOfArrays(t, ZeroOf(t));
    vs := Patch(args, i, ZeroOf(t));
    PanicLost(args, i, ZeroOf(t));
  }

  /** An array without width that holds an empty list of arrays panics. */
  lemma {:induction false} WidthlessPanics(t: Type)
    requires FullSize(t) == 0 && !Bare(t)
    ensures !Packable(t, ZeroOf(t))
  {
    EmptyElem(t);
    if t.size > 0 {
      WidthlessPanics(t.elem);
      RepeatUnpackable(t.elem, ZeroOf(t.elem), t.size);
    }
  }

  lemma {:induction false} RepeatUnpackable(t: Type, v: Value, n: nat)
    requires !Packable(t, v) && n > 0
    ensures !AllPackable(t, Repeat(v, n))
  {
    assert Repeat(v, n)[|Repeat(v, n)| - 1] == v;
  }

  lemma {:induction false} WidthlessLost(args: seq<Argument>, i: nat) returns (vs: seq<Value>)
    requires Plain(args) && Roomy(args) && i < |args| && FullSize(args[i].ty) == 0 && !Bare(args[i].ty)
    ensures Lost(args, vs) && PackingArgs(args, vs) == Panicked
  {
    var t := args[i].ty;
    assert args[..|args|] == args;
    SizedOf(args, i, |args|);
    ZeroFits(t);
    ZeroEncoded(t);
    FitsTyped(t, ZeroOf(t));
    RoomFor(args, i, 0, 0);
    WidthlessPanics(t);
    PackingExact(t, ZeroOf(t));
    vs := Patch(args, i, ZeroOf(t));
    PanicLost(args, i, ZeroOf(t));
  }

  const UINT256 := UintTy(256)

  /** The empty slice of type uint256[1][] panics. */
  lemma {:induction false} EmptySlicePanics()
    ensures PackingArgs([Argument(SliceTy(ArrayTy(UINT256, 1)), false)], [List([])]) == Panicked
  {
    var t := SliceTy(ArrayTy(UINT256, 1));
    EmptyOfArrays(t, List([]));
    OneArgument(t, [List([])]);
  }

  lemma {:induction false} OneArgument(t: Type, vs: seq<Value>)
    requires |vs| == 1 && !Packing(t, vs[0]).Done?
    ensures PackingArgs([Argument(t, false)], vs) == Packing(t, vs[0])
  {
    assert ArgsOutcome([Argument(t, false)], vs, 0) == Done([]);
  }

  /** Nothing of types uint256[2][0], uint256 can be packed: all values of these types panic. */
  lemma {:induction false} ZeroArrayPanics(vs: seq<Value>)
    requires |vs| == 2 && Typed(ArrayTy(ArrayTy(UINT256, 2), 0), vs[0])
    ensures PackingArgs([Argument(ArrayTy(ArrayTy(UINT256, 2), 0), false), Argument(UINT256, false)], vs) == Panicked
  {
    var args := [Argument(ArrayTy(ArrayTy(UINT256, 2), 0), false), Argument(UINT256, false)];
    EmptyOfArrays(args[0].ty, vs[0]);
    assert ArgsOutcome(args, vs, 0) == Done([]);
    assert ArgsOutcome(args, vs, 1) == Panicked;
    ArgsFail(args, vs, 1, 2);
  }

  // ----- Exactly which lists are carried

  lemma {:induction false} Unreadable(args: seq<Argument>) returns (i: nat)
    requires !AllReadable(args)
    ensures i < |args| && !Readable(args[i].ty)
  {
    if AllReadable(args[..|args| - 1]) { i := |args| - 1; } else { i := Unreadable(args[..|args| - 1]); }
  }

  lemma {:induction false} PrefixHere(args: seq<Argument>, i: nat, n: nat)
    requires i < n <= |args| && RequiresLengthPrefix(args[i].ty)
    ensures HasPrefix(args[..n])
    decreases n
  {
    assert args[..n][..n - 1] == args[..n - 1];
    if i < n - 1 { PrefixHere(args, i, n - 1); }
  }

  /** Every type that is not readable loses a value. */
  lemma {:induction false} UnreadableLost(args: seq<Argument>, i: nat) returns (vs: seq<Value>)
    requires Plain(args) && Roomy(args) && i < |args| && !Readable(args[i].ty)
    requires HasPrefix(args) ==> HeadSize(args) == Start(args)
    ensures Lost(args, vs)
  {
    var t := args[i].ty;
    assert args[..|args|] == args;
    SizedOf(args, i, |args|);
    Kinds(t);
    if FullSize(t) == 0 {
      vs := WidthlessLost(args, i);
    } else if !RequiresLengthPrefix(t) {
      vs := DynamicArrayLost(args, i);
    } else {
      PrefixHere(args, i, |args|);
      var e := t.elem;
      Kinds(e);
      if FullSize(e) == WORD && Static(e) {
        vs := ArraySliceLost(args, i);
      } else if FullSize(e) == 0 {
        vs := EmptySliceLost(args, i);
      } else if Static(e) {
        Whole(WORD, FullSize(e));
        vs := WideSliceLost(args, i);
      } else {
        vs := DynamicSliceLost(args, i);
      }
    }
  }

  /** A list that does not meet the condition loses some values. */
  lemma {:induction false} Loses(args: seq<Argument>) returns (vs: seq<Value>)
    requires AllSized(args) && Roomy(args) && !Carried(args)
    ensures Lost(args, vs)
  {
    if !NoneIndexed(args) {
      vs := IndexedLost(args);
    } else if HasPrefix(args) && HeadSize(args) != Start(args) {
      vs := Misplaced(args);
    } else if !AllReadable(args) {
      var i := Unreadable(args);
      vs := UnreadableLost(args, i);
    } else {
      var i := Cramped(args, |args|, LeastSize(args));
      vs := CrampedLost(args, i);
    }
  }

  /** Every list of values that fits is packed and comes back from its encoding. */
  ghost predicate Faithful(args: seq<Argument>) {
    forall vs: seq<Value> | |vs| == |args| && FitArgs(args, vs, |args|) && |Packed(args, vs)| < MAX_INT63 ::
      Returned(args, vs)
  }

  lemma {:induction false} CarriedFaithful(args: seq<Argument>)
    requires Carried(args)
    ensures Faithful(args)
  {
    forall vs: seq<Value> | |vs| == |args| && FitArgs(args, vs, |args|) && |Packed(args, vs)| < MAX_INT63
      ensures Returned(args, vs)
    {
      CarriedReturned(args, vs);
    }
  }

  /**
  The codec is faithful exactly where no argument is indexed, no offset is needed or the encoder
  reckons the heads right, nothing dynamic is in an array or a slice, elements of slices are single
  words, no array is without elements of an array type, and what has no width is followed by
  enough data.
  */
  lemma {:induction false} FaithfulIff(args: seq<Argument>)
    requires AllSized(args) && Roomy(args)
    ensures Faithful(args) <==> Carried(args)
  {
    if Carried(args) {
      CarriedFaithful(args);
    } else {
      var vs := Loses(args);
      assert !Faithful(args);
    }
  }

  lemma {:induction false} NestedSizes(args: seq<Argument>)
    requires args == [Argument(ArrayTy(ArrayTy(UINT256, 2), 3), false), Argument(BytesTy, false)]
    ensures HeadSize(args) == 128 && Start(args) == 224 && HasPrefix(args) && AllSized(args) && Roomy(args)
  {
    var first := args[..1];
    assert args[..|args| - 1] == first && first[0] == args[0] && first[..|first| - 1] == [];
    assert HeadSize(first) == 96;
    assert Sized(args[0].ty.elem.elem) && Sized(args[0].ty.elem) && Sized(first[|first| - 1].ty);
    assert AllSized(first[..|first| - 1]) && AllSized(first);
    var inner := args[0].ty.elem;
    TimesProduct(32, 2);
    TimesProduct(64, 3);
    assert FullSize(inner) == 64 && FullSize(args[0].ty) == 192;
    assert Start(first) == 192;
    assert Widest(inner) == 64 && Widest(args[0].ty) == 192;
    assert Widths(first) == 224;
    assert Prefixes(first) == 0 && Prefixes(args) == 1;
    TimesProduct(256, 512);
  }

  /** Types uint256[2][3] and bytes: the heads take 224 bytes, the encoder reckons with 128, and values are lost. */
  lemma {:induction false} NestedLost()
    ensures var args := [Argument(ArrayTy(ArrayTy(UINT256, 2), 3), false), Argument(BytesTy, false)];
            HeadSize(args) == 128 && Start(args) == 224 && !Faithful(args)
  {
    var args := [Argument(ArrayTy(ArrayTy(UINT256, 2), 3), false), Argument(BytesTy, false)];
    NestedSizes(args);
    FaithfulIff(args);
  }

  /** In particular it is faithful where arrays hold no arrays. */
  lemma {:induction false} OneLevelFaithful(args: seq<Argument>)
    requires NoneIndexed(args) && AllReadable(args) && OneLevel(args) && Rooms(args, |args|, LeastSize(args))
    ensures Faithful(args)
  {
    OneLevelAgrees(args);
    CarriedFaithful(args);
  }
}
