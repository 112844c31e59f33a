/**
Values that the ABI codec does not read back (third_part/abi: pack.go, unpack.go), whatever the
rest of the data is: dynamic values inside arrays and slices, which the encoder writes in place
where the decoder looks for offsets, and slices whose elements do not take one word each.
*/
module AbiLosses {
  import opened AbiCodec
  import opened AbiWords
  import opened Multiples
  import opened Wrappers

  /** Fixed byte strings have 1 to 32 bytes. */
  ghost predicate Sized(t: Type) {
    match t
    case FixedBytesTy(n) => 0 < n <= WORD
    case SliceTy(e) => Sized(e)
    case ArrayTy(e, _) => Sized(e)
    case _ => true
  }

  /** An array, of one element at least on each level, of types with a length prefix; or such a type itself. */
  ghost predicate Dynamic(t: Type) {
    if t.ArrayTy? then t.size > 0 && Dynamic(t.elem) else RequiresLengthPrefix(t)
  }

  lemma {:induction false} Kinds(t: Type)
    requires Sized(t)
    ensures Static(t) || Dynamic(t) || FullSize(t) == 0
    ensures Static(t) || Dynamic(t) ==> FullSize(t) >= WORD
    ensures FullSize(t) % WORD == 0
  {
    if t.ArrayTy? {
      Kinds(t.elem);
      TimesWhole(FullSize(t.elem), t.size);
      if t.size > 0 {
        TimesMono(FullSize(t.elem), 1, t.size);
        if FullSize(t.elem) == 0 { TimesZero(t.size); }
      }
    }
  }

  lemma {:induction false} TimesWhole(c: nat, n: nat)
    requires c % WORD == 0
    ensures Times(c, n) % WORD == 0
  {
    if n > 0 { TimesWhole(c, n - 1); }
  }

  // ----- Zeros

  /** The value of all zeros, or the empty one. */
  ghost function ZeroOf(t: Type): Value {
    match t
    case IntTy(_) => Num(0)
    case UintTy(_) => Num(0)
    case BoolTy => Flag(false)
    case AddressTy => Raw(Zeros(20))
    case FunctionTy => Raw(Zeros(24))
    case FixedBytesTy(n) => Raw(Zeros(n))
    case StringTy => Raw([])
    case BytesTy => Raw([])
    case SliceTy(_) => List([])
    case ArrayTy(e, n) => var z := ZeroOf(e); List(Repeat(z, n))
  }

  ghost function Repeat(v: Value, n: nat): seq<Value> {
    if n == 0 then [] else Repeat(v, n - 1) + [v]
  }

  lemma {:induction false} RepeatFits(t: Type, v: Value, n: nat)
    requires Fits(t, v)
    ensures |Repeat(v, n)| == n && AllFit(t, Repeat(v, n))
  {
    if n > 0 {
      RepeatFits(t, v, n - 1);
      assert Repeat(v, n)[..n - 1] == Repeat(v, n - 1);
    }
  }

  lemma {:induction false} ZeroFits(t: Type)
    ensures Fits(t, ZeroOf(t))
  {
    if t.ArrayTy? {
      ZeroFits(t.elem);
      RepeatFits(t.elem, ZeroOf(t.elem), t.size);
    } else if t.IntTy? || t.UintTy? {
      PowMono(0, IntBytes(t.bits));
      PowMono(0, WORD);
    }
  }

  /** Zeros are packed as zeros; the empty string or slice is a length of zero. */
  lemma {:induction false} ZeroEncoded(t: Type)
    requires Sized(t)
    ensures Encode(t, ZeroOf(t)) == Zeros(FullSize(t))
  {
    match t
    case ArrayTy(e, n) =>
      ZeroEncoded(e);
      RepeatEncoded(e, ZeroOf(e), FullSize(e), n);
    case StringTy => EmptySlice();
    case BytesTy => EmptySlice();
    case SliceTy(_) => EmptySlice();
    case AddressTy =>
    case FunctionTy =>
    case FixedBytesTy(_) =>
    case _ => ZeroWord(WORD);
  }

  lemma {:induction false} EmptySlice()
    ensures PackBytesSlice([], 0) == Zeros(WORD)
  {
    ZeroWord(WORD);
  }

  lemma {:induction false} ZeroWord(k: nat)
    ensures BigEndian(0, k) == Zeros(k)
  {
    if k > 0 { SmallWord(0, k); }
  }

  lemma {:induction false} RepeatEncoded(t: Type, v: Value, c: nat, n: nat)
    requires Encode(t, v) == Zeros(c)
    ensures EncodeAll(t, Repeat(v, n)) == Zeros(Times(c, n))
  {
    if n > 0 {
      RepeatEncoded(t, v, c, n - 1);
      EncodeLast(t, Repeat(v, n - 1), v);
      ZerosJoin(Times(c, n - 1), c);
    }
  }

  lemma {:induction false} EncodeLast(t: Type, vs: seq<Value>, v: Value)
    ensures EncodeAll(t, vs + [v]) == EncodeAll(t, vs) + Encode(t, v)
  {
    assert (vs + [v])[..|vs|] == vs;
  }

  lemma {:induction false} ZerosJoin(a: nat, b: nat)
    ensures Zeros(a) + Zeros(b) == Zeros(a + b)
  {
  }

  // ----- A length and zeros

  /** `n` zero bytes, or `n` zero elements. */
  ghost function Filled(t: Type, n: nat): Value {
    if t.SliceTy? then List(Repeat(ZeroOf(t.elem), n)) else Raw(Zeros(n))
  }

  /** The bytes that the contents of `n` zeros take. */
  ghost function Extent(t: Type, n: nat): nat {
    Max(if t.SliceTy? then Times(FullSize(t.elem), n) else n, (n + 31) / 32 * 32)
  }

  lemma {:induction false} FilledFits(t: Type, n: nat)
    requires RequiresLengthPrefix(t)
    ensures Fits(t, Filled(t, n)) && PrefixOf(Filled(t, n)) == n
  {
    if t.SliceTy? {
      ZeroFits(t.elem);
      RepeatFits(t.elem, ZeroOf(t.elem), n);
    }
  }

  lemma {:induction false} FilledEncoded(t: Type, n: nat)
    requires RequiresLengthPrefix(t) && Sized(t)
    ensures Encode(t, Filled(t, n)) == Word(n) + Zeros(Extent(t, n)) && Extent(t, n) >= n
  {
    FilledFits(t, n);
    var b := Contents(t, Filled(t, n));
    assert Encode(t, Filled(t, n)) == PackBytesSlice(b, n);
    if t.SliceTy? {
      ZeroEncoded(t.elem);
      RepeatEncoded(t.elem, ZeroOf(t.elem), FullSize(t.elem), n);
    }
    ZerosPadded(|b|, (n + 31) / 32 * 32);
  }

  lemma {:induction false} ZerosPadded(a: nat, n: nat)
    ensures RightPad(Zeros(a), n) == Zeros(Max(a, n))
  {
  }

  lemma {:induction false} DecodeAllLength(start: nat, step: nat, t: Type, n: nat, out: Bytes)
    ensures var vs := DecodeAll(start, step, t, n, out); vs.Some? ==> |vs.value| == n
  {
    if n > 0 { DecodeAllLength(start, step, t, n - 1, out); }
  }

  /** The elements read are those at their distance. */
  lemma {:induction false} DecodedAt(start: nat, step: nat, t: Type, n: nat, out: Bytes, vs: seq<Value>, j: nat)
    requires DecodeAll(start, step, t, n, out) == Some(vs) && j < n
    ensures |vs| == n && Decode(start + Times(step, j), t, out) == Some(vs[j])
  {
    DecodeAllLength(start, step, t, n, out);
    if j < n - 1 { DecodedAt(start, step, t, n - 1, out, vs[..n - 1], j); }
  }

  /** What is read back has the length that its prefix says. */
  lemma {:induction false} DecodedLength(index: nat, t: Type, out: Bytes)
    requires RequiresLengthPrefix(t) && Decode(index, t, out).Some?
    ensures index + WORD <= |out| && LengthPrefixPointsTo(index, out).Some?
    ensures LengthPrefixPointsTo(index, out).value.1 == PrefixOf(Decode(index, t, out).value)
  {
    var p := LengthPrefixPointsTo(index, out);
    if t.SliceTy? { DecodeAllLength(p.value.0, WORD, t.elem, p.value.1, out); }
  }

  lemma {:induction false} ZerosWithin(out: Bytes, i: nat, n: nat, j: nat, m: nat)
    requires At(out, i, Zeros(n)) && i <= j && j + m <= i + n
    ensures At(out, j, Zeros(m))
  {
    forall k | 0 <= k < m ensures out[j + k] == Zeros(m)[k] { assert out[i + (j + k - i)] == Zeros(n)[j + k - i]; }
  }

  lemma {:induction false} AtPrefix(out: Bytes, i: nat, a: Bytes, b: Bytes)
    requires At(out, i, b) && a <= b
    ensures At(out, i, a)
  {
  }

  /** An offset that leads to zeros is read as an empty value. */
  lemma {:induction false} ReadsEmpty(t: Type, index: nat, offset: nat, out: Bytes)
    requires RequiresLengthPrefix(t) && offset < MAX_INT63 && At(out, index, Word(offset))
    requires At(out, offset, Zeros(WORD))
    ensures var v := Decode(index, t, out); v.Some? ==> PrefixOf(v.value) == 0
  {
    if Decode(index, t, out).Some? {
      DecodedLength(index, t, out);
      AtSlice(out, index, Word(offset));
      AtSlice(out, offset, Zeros(WORD));
      Small(offset);
      ZerosAreZero(WORD);
    }
  }

  // ----- Dynamic values in place

  /** Zeros but for a first innermost value with a length prefix, which holds `n` zeros. */
  ghost function Deep(t: Type, n: nat): Value {
    if t.ArrayTy? && t.size > 0 then List([Deep(t.elem, n)] + Repeat(ZeroOf(t.elem), t.size - 1))
    else if RequiresLengthPrefix(t) then Filled(t, n)
    else ZeroOf(t)
  }

  /** The type of that value. */
  ghost function Leaf(t: Type): Type {
    if t.ArrayTy? then Leaf(t.elem) else t
  }

  lemma {:induction false} FirstFits(t: Type, v: Value, z: Value, n: nat)
    requires Fits(t, v) && Fits(t, z)
    ensures |[v] + Repeat(z, n)| == n + 1 && AllFit(t, [v] + Repeat(z, n))
  {
    if n == 0 {
      assert [v] + Repeat(z, 0) == [v] && [v][..0] == [];
    } else {
      FirstFits(t, v, z, n - 1);
      var vs := [v] + Repeat(z, n);
      assert vs[..|vs| - 1] == [v] + Repeat(z, n - 1);
    }
  }

  lemma {:induction false} FirstEncoded(t: Type, v: Value, z: Value, c: nat, n: nat)
    requires Encode(t, z) == Zeros(c)
    ensures EncodeAll(t, [v] + Repeat(z, n)) == Encode(t, v) + Zeros(Times(c, n))
  {
    if n == 0 {
      assert [v] + Repeat(z, 0) == [] + [v];
      EncodeLast(t, [], v);
      assert Encode(t, v) + Zeros(0) == Encode(t, v);
    } else {
      FirstEncoded(t, v, z, c, n - 1);
      FirstRepeat(v, z, n);
      EncodeLast(t, [v] + Repeat(z, n - 1), z);
      ZerosBehind(Encode(t, v), Times(c, n - 1), c);
    }
  }

  lemma {:induction false} FirstRepeat(v: Value, z: Value, n: nat)
    requires n > 0
    ensures [v] + Repeat(z, n) == [v] + Repeat(z, n - 1) + [z]
  {
  }

  lemma {:induction false} ZerosBehind(b: Bytes, m: nat, n: nat)
    ensures b + Zeros(m) + Zeros(n) == b + Zeros(m + n)
  {
  }

  lemma {:induction false} DeepFits(t: Type, n: nat)
    requires Dynamic(t)
    ensures Fits(t, Deep(t, n))
  {
    if t.ArrayTy? {
      DeepFits(t.elem, n);
      ZeroFits(t.elem);
      FirstFits(t.elem, Deep(t.elem, n), ZeroOf(t.elem), t.size - 1);
    } else {
      FilledFits(t, n);
    }
  }

  lemma {:induction false} FilledStarts(t: Type, n: nat)
    requires RequiresLengthPrefix(t) && Sized(t)
    ensures Word(n) + Zeros(n) <= Encode(t, Filled(t, n)) && |Encode(t, Filled(t, n))| == WORD + Extent(t, n)
  {
    FilledEncoded(t, n);
    ZerosBehind(Word(n), n, Extent(t, n) - n);
  }

  lemma {:induction false} ArrayEncoded(t: Type, n: nat)
    requires t.ArrayTy? && t.size > 0 && Sized(t)
    ensures Encode(t, Deep(t, n)) == Encode(t.elem, Deep(t.elem, n)) + Zeros(Times(FullSize(t.elem), t.size - 1))
  {
    ZeroEncoded(t.elem);
    FirstEncoded(t.elem, Deep(t.elem, n), ZeroOf(t.elem), FullSize(t.elem), t.size - 1);
  }

  /** It is packed as a length followed by zeros. */
  lemma {:induction false} DeepEncoded(t: Type, n: nat)
    requires Dynamic(t) && Sized(t)
    ensures Word(n) + Zeros(n) <= Encode(t, Deep(t, n))
    ensures |Encode(t, Deep(t, n))| == FullSize(t) + Extent(Leaf(t), n)
  {
    if t.ArrayTy? {
      DeepEncoded(t.elem, n);
      ArrayEncoded(t, n);
    } else {
      FilledStarts(t, n);
    }
  }

  /** An array whose first element is not read back is not read back. */
  lemma {:induction false} FirstLost(index: nat, t: Type, out: Bytes, vs: seq<Value>)
    requires t.ArrayTy? && vs != [] && |vs| == t.size && Decode(index, t.elem, out) != Some(vs[0])
    ensures Decode(index, t, out) != Some(List(vs))
  {
    if Decode(index, t, out) == Some(List(vs)) { DecodedAt(index, FullSize(t.elem), t.elem, t.size, out, vs, 0); }
  }

  /** The length is taken for an offset, which leads to the zeros behind it. */
  lemma {:induction false} FilledLost(t: Type, p: nat, n: nat, out: Bytes)
    requires RequiresLengthPrefix(t) && n == p + WORD < MAX_INT63 && At(out, p, Word(n) + Zeros(n))
    ensures Decode(p, t, out) != Some(Filled(t, n))
  {
    AtParts(out, p, Word(n), Zeros(n));
    ZerosWithin(out, n, n, n, WORD);
    ReadsEmpty(t, p, n, out);
    FilledFits(t, n);
  }

  lemma {:induction false} DeepLost(t: Type, p: nat, n: nat, out: Bytes)
    requires Dynamic(t) && n == p + WORD < MAX_INT63 && At(out, p, Word(n) + Zeros(n))
    ensures Decode(p, t, out) != Some(Deep(t, n))
  {
    if t.ArrayTy? {
      DeepLost(t.elem, p, n, out);
      DeepFits(t, n);
      FirstLost(p, t, out, Deep(t, n).elems);
    } else {
      FilledLost(t, p, n, out);
    }
  }

  // ----- Elements of several words in a slice

  /** A value without a zero in it. */
  ghost function OnesOf(t: Type): Value {
    match t
    case IntTy(_) => Num(1)
    case UintTy(_) => Num(1)
    case BoolTy => Flag(true)
    case AddressTy => Raw(Ones(20))
    case FunctionTy => Raw(Ones(24))
    case FixedBytesTy(n) => Raw(Ones(n))
    case ArrayTy(e, n) => var o := OnesOf(e); List(Repeat(o, n))
    case _ => Raw([])
  }

  function Ones(n: nat): (b: Bytes)
    ensures |b| == n
  {
    seq(n, _ => 1)
  }

  lemma {:induction false} OneInRange(signed: bool, bits: nat)
    ensures InRange(signed, bits, 1, WORD)
  {
    assert Pow256(1) == 256 * Pow256(0);
    PowMono(1, WORD);
    if IntBytes(bits) > 0 { PowMono(1, IntBytes(bits)); }
  }

  lemma {:induction false} OnesFit(t: Type)
    requires Static(t)
    ensures Fits(t, OnesOf(t))
  {
    match t
    case ArrayTy(e, n) =>
      OnesFit(e);
      RepeatFits(e, OnesOf(e), n);
    case IntTy(bits) => OneInRange(true, bits);
    case UintTy(bits) => OneInRange(false, bits);
    case _ =>
  }

  lemma {:induction false} ZeroNotOnes(t: Type)
    requires Static(t) && Sized(t) && !t.ArrayTy?
    ensures ZeroOf(t) != OnesOf(t)
  {
    var n := if t.FixedBytesTy? then t.length else if t.AddressTy? then 20 else 24;
    assert Zeros(n)[0] != Ones(n)[0];
  }

  /** A value that begins where a zero word stands is not read as one without a zero in it. */
  lemma {:induction false} OnesLost(t: Type, p: nat, out: Bytes)
    requires Static(t) && Sized(t) && At(out, p, Zeros(WORD))
    ensures Decode(p, t, out) != Some(OnesOf(t))
  {
    if t.ArrayTy? {
      OnesLost(t.elem, p, out);
      OnesFit(t.elem);
      RepeatFits(t.elem, OnesOf(t.elem), t.size);
      RepeatFirst(OnesOf(t.elem), t.size);
      FirstLost(p, t, out, Repeat(OnesOf(t.elem), t.size));
    } else {
      ZeroEncoded(t);
      ZeroFits(t);
      WordRoundTrip(t, ZeroOf(t));
      AtSlice(out, p, Zeros(WORD));
      ZeroNotOnes(t);
    }
  }

  lemma {:induction false} RepeatFirst(v: Value, n: nat)
    requires n > 0
    ensures Repeat(v, n) != [] && Repeat(v, n)[0] == v
  {
    if n > 1 { RepeatFirst(v, n - 1); }
  }

  /** A zero element and one without zeros. */
  ghost function Mixed(t: Type): seq<Value> {
    [ZeroOf(t)] + [OnesOf(t)]
  }

  lemma {:induction false} MixedEncoded(t: Type)
    requires Static(t) && Sized(t)
    ensures |Mixed(t)| == 2 && AllFit(t, Mixed(t)) && |EncodeAll(t, Mixed(t))| == Times(FullSize(t), 2)
    ensures Zeros(FullSize(t)) <= EncodeAll(t, Mixed(t))
  {
    var z, o := ZeroOf(t), OnesOf(t);
    ZeroFits(t);
    OnesFit(t);
    ZeroEncoded(t);
    assert Mixed(t)[..1] == [z] && [z][..0] == [];
    assert [] + [z] == [z];
    EncodeLast(t, [], z);
    EncodeLast(t, [z], o);
    StaticSizes(t, Mixed(t));
  }

  /** Read at a distance of one word, the second begins in the zeros of the first. */
  lemma {:induction false} MixedLost(t: Type, p: nat, out: Bytes)
    requires Static(t) && Sized(t) && FullSize(t) >= 2 * WORD && At(out, p, EncodeAll(t, Mixed(t)))
    ensures DecodeAll(p, WORD, t, 2, out) != Some(Mixed(t))
  {
    MixedEncoded(t);
    AtPrefix(out, p, Zeros(FullSize(t)), EncodeAll(t, Mixed(t)));
    ZerosWithin(out, p, FullSize(t), p + WORD, WORD);
    assert Times(WORD, 1) == Times(WORD, 0) + WORD;
    if DecodeAll(p, WORD, t, 2, out) == Some(Mixed(t)) {
      DecodedAt(p, WORD, t, 2, out, Mixed(t), 1);
      OnesLost(t, p + WORD, out);
    }
  }

  // ----- Slices at a place

  /** The contents of a slice as they are packed. */
  ghost function Padded(t: Type, elems: seq<Value>): Bytes {
    RightPad(EncodeAll(t, elems), (|elems| + 31) / 32 * 32)
  }

  lemma {:induction false} SliceShape(t: Type, elems: seq<Value>)
    requires t.SliceTy?
    ensures Encode(t, List(elems)) == Word(|elems|) + (Padded(t.elem, elems) + [])
    ensures |elems| <= |Padded(t.elem, elems)| && EncodeAll(t.elem, elems) <= Padded(t.elem, elems)
  {
    assert Padded(t.elem, elems) + [] == Padded(t.elem, elems);
  }

  lemma {:induction false} SliceDecoded(index: nat, t: Type, out: Bytes, begin: nat, n: nat)
    requires t.SliceTy? && index + WORD <= |out| && LengthPrefixPointsTo(index, out) == Some((begin, n))
    ensures Decode(index, t, out)
            == if begin + WORD * n > |out| then None else Listed(DecodeAll(begin, WORD, t.elem, n, out))
  {
  }

  /** A slice that an offset leads to is read with its elements one word apart. */
  lemma {:induction false} SliceAt(t: Type, elems: seq<Value>, data: Bytes, index: nat, offset: nat)
    requires t.SliceTy? && |data| < MAX_INT63
    requires At(data, index, Word(offset)) && At(data, offset, Encode(t, List(elems)))
    ensures At(data, offset + WORD, EncodeAll(t.elem, elems))
    ensures Decode(index, t, data) == if offset + WORD + WORD * |elems| > |data| then None
                                      else Listed(DecodeAll(offset + WORD, WORD, t.elem, |elems|, data))
  {
    SliceShape(t, elems);
    PointsTo(data, index, offset, Padded(t.elem, elems), |elems|, []);
    AtPrefix(data, offset + WORD, EncodeAll(t.elem, elems), Padded(t.elem, elems));
    SliceDecoded(index, t, data, offset + WORD, |elems|);
  }

  lemma {:induction false} BehindLength(data: Bytes, a: nat, d: nat, x: nat)
    requires At(data, a, Word(d) + Zeros(d)) && WORD <= d && x == a + d
    ensures At(data, x, Zeros(WORD))
  {
    AtParts(data, a, Word(d), Zeros(d));
    ZerosWithin(data, a + WORD, d, x, WORD);
  }

  /** `d` zeros are not read back through an offset that leads `d` bytes too far. */
  lemma {:induction false} TooFar(t: Type, data: Bytes, index: nat, a: nat, d: nat, x: nat)
    requires RequiresLengthPrefix(t) && Sized(t) && WORD <= d && x == a + d < MAX_INT63
    requires At(data, index, Word(x)) && At(data, a, Encode(t, Filled(t, d)))
    ensures Decode(index, t, data) != Some(Filled(t, d))
  {
    FilledStarts(t, d);
    AtPrefix(data, a, Word(d) + Zeros(d), Encode(t, Filled(t, d)));
    BehindLength(data, a, d, x);
    ReadsEmpty(t, index, x, data);
    FilledFits(t, d);
  }
}
