/** Types, values and their encoding (third_part/abi: type.go, pack.go, unpack.go). */
module AbiCodec {
  import opened AbiWords
  import opened Multiples
  import opened Wrappers

  datatype Type =
    | IntTy(bits: nat)
    | UintTy(bits: nat)
    | BoolTy
    | AddressTy
    | FunctionTy
    | FixedBytesTy(length: nat)
    | StringTy
    | BytesTy
    | SliceTy(elem: Type)
    | ArrayTy(elem: Type, size: nat)

  datatype Value = Num(n: int) | Flag(b: bool) | Raw(bytes: Bytes) | List(elems: seq<Value>)

  /** The bytes of a number that Go holds in a machine integer; 0 for one that it holds as a big integer. */
  function IntBytes(bits: nat): (k: nat)
    ensures k <= 8
  {
    if bits in {8, 16, 32, 64} then bits / 8 else 0
  }

  predicate RequiresLengthPrefix(t: Type) {
    t.StringTy? || t.BytesTy? || t.SliceTy?
  }

  /** A value of the Go type that belongs to `t`, looking at its outermost level only. */
  predicate Shaped(t: Type, v: Value) {
    match t
    case IntTy(_) => v.Num?
    case UintTy(_) => v.Num?
    case BoolTy => v.Flag?
    case AddressTy => v.Raw? && |v.bytes| == 20
    case FunctionTy => v.Raw? && |v.bytes| == 24
    case FixedBytesTy(n) => v.Raw? && |v.bytes| == n
    case StringTy => v.Raw?
    case BytesTy => v.Raw?
    case SliceTy(_) => v.List?
    case ArrayTy(_, n) => v.List? && |v.elems| == n
  }

  /** A value of the Go type that belongs to `t`. */
  ghost predicate Typed(t: Type, v: Value)
    decreases t, 0
  {
    Shaped(t, v) && (t.SliceTy? || t.ArrayTy? ==> AllTyped(t.elem, v.elems))
  }

  ghost predicate AllTyped(t: Type, vs: seq<Value>)
    decreases t, 1, |vs|
  {
    vs == [] || (AllTyped(t, vs[..|vs| - 1]) && Typed(t, vs[|vs| - 1]))
  }

  /** The numbers that can come back: those of the machine type, and big integers that fill a word without sign. */
  ghost predicate InRange(signed: bool, bits: nat, n: int, word: nat) {
    var k := IntBytes(bits);
    if k == 0 then 0 <= n < Pow256(word)
    else if signed then 0 - Pow256(k) <= 2 * n < Pow256(k)
    else 0 <= n < Pow256(k)
  }

  /** A value of the right type with all its numbers in range. */
  ghost predicate Fits(t: Type, v: Value)
    decreases t, 0
  {
    && Shaped(t, v)
    && (t.IntTy? ==> InRange(true, t.bits, v.n, WORD)) && (t.UintTy? ==> InRange(false, t.bits, v.n, WORD))
    && (t.SliceTy? || t.ArrayTy? ==> AllFit(t.elem, v.elems))
  }

  ghost predicate AllFit(t: Type, vs: seq<Value>)
    decreases t, 1, |vs|
  {
    vs == [] || (AllFit(t, vs[..|vs| - 1]) && Fits(t, vs[|vs| - 1]))
  }

  lemma {:induction false} FitsTyped(t: Type, v: Value)
    requires Fits(t, v)
    ensures Typed(t, v)
    decreases t, 0
  {
    if t.SliceTy? || t.ArrayTy? { AllFitTyped(t.elem, v.elems); }
  }

  lemma {:induction false} AllFitTyped(t: Type, vs: seq<Value>)
    requires AllFit(t, vs)
    ensures AllTyped(t, vs)
    decreases t, 1, |vs|
  {
    if vs != [] {
      AllFitTyped(t, vs[..|vs| - 1]);
      FitsTyped(t, vs[|vs| - 1]);
    }
  }

  // ----- Encoding

  /** The length, then the contents in whole words. */
  function PackBytesSlice(b: Bytes, l: nat): Bytes {
    Word(l) + RightPad(b, (l + 31) / 32 * 32)
  }

  /** The encoding of a value that is not a list. */
  function PackElement(t: Type, v: Value): Bytes {
    match v
    case Num(n) => Word(n)
    case Flag(b) => Word(if b then 1 else 0)
    case Raw(b) =>
      (if t.StringTy? || t.BytesTy? then PackBytesSlice(b, |b|)
       else if t.AddressTy? then LeftPad(b, WORD)
       else RightPad(b, WORD))
    case List(_) => []
  }

  ghost function Encode(t: Type, v: Value): Bytes
    decreases t, 0
  {
    if v.List? && t.SliceTy? then PackBytesSlice(EncodeAll(t.elem, v.elems), |v.elems|)
    else if v.List? && t.ArrayTy? then EncodeAll(t.elem, v.elems)
    else PackElement(t, v)
  }

  ghost function EncodeAll(t: Type, vs: seq<Value>): Bytes
    decreases t, 1, |vs|
  {
    if vs == [] then [] else EncodeAll(t, vs[..|vs| - 1]) + Encode(t, vs[|vs| - 1])
  }

  // ----- Decoding

  /** The low bytes of a word as a number of the type's own width. */
  function ReadInteger(signed: bool, bits: nat, b: Bytes): int
    requires |b| >= 8
  {
    var k := IntBytes(bits);
    if k == 0 then ToNat(b) else if signed then ToSigned(b[|b| - k..]) else ToNat(b[|b| - k..])
  }

  function ReadBool(b: Bytes): Option<Value>
    requires |b| == WORD
  {
    if (exists i | 0 <= i < 31 :: b[i] != 0) || b[31] > 1 then None else Some(Flag(b[31] == 1))
  }

  function ReadFunctionType(b: Bytes): Option<Value>
    requires |b| == WORD
  {
    if ToNat(b[24..32]) != 0 then None else Some(Raw(b[..24]))
  }

  function ReadFixedBytes(n: nat, b: Bytes): Option<Value>
    requires |b| == WORD
  {
    if n > WORD then None else Some(Raw(b[..n]))
  }

  /** One word as a value; types with a length prefix and lists are not words. */
  function ReadWord(t: Type, b: Bytes): Option<Value>
    requires |b| == WORD
  {
    match t
    case IntTy(bits) => Some(Num(ReadInteger(true, bits, b)))
    case UintTy(bits) => Some(Num(ReadInteger(false, bits, b)))
    case BoolTy => ReadBool(b)
    case AddressTy => Some(Raw(b[WORD - 20..]))
    case FunctionTy => ReadFunctionType(b)
    case FixedBytesTy(n) => ReadFixedBytes(n, b)
    case _ => None
  }

  const MAX_INT63: int := 0x8000_0000_0000_0000

  /** Follow the offset at `index`: where the contents begin, and how long they are. */
  function LengthPrefixPointsTo(index: nat, out: Bytes): (r: Option<(nat, nat)>)
    requires index + WORD <= |out|
    ensures r.Some? ==> WORD <= r.value.0 && r.value.0 + r.value.1 <= |out|
  {
    var offsetEnd := ToNat(out[index..index + WORD]) + WORD;
    if offsetEnd > |out| || offsetEnd >= MAX_INT63 then None
    else
      var length := ToNat(out[offsetEnd - WORD..offsetEnd]);
      if offsetEnd + length >= MAX_INT63 || offsetEnd + length > |out| then None else Some((offsetEnd, length))
  }

  /** The bytes that a value of this type takes inside an array. */
  ghost function FullSize(t: Type): nat {
    if t.ArrayTy? then Times(FullSize(t.elem), t.size) else WORD
  }

  ghost function Decode(index: nat, t: Type, out: Bytes): Option<Value>
    decreases t, 0
  {
    if index + WORD > |out| then None
    else if t.ArrayTy? then
      (if index + WORD * t.size > |out| then None else Listed(DecodeAll(index, FullSize(t.elem), t.elem, t.size, out)))
    else if RequiresLengthPrefix(t) then
      var p := LengthPrefixPointsTo(index, out);
      if p.None? then None
      else if t.SliceTy? then
        (if p.value.0 + WORD * p.value.1 > |out| then None
         else Listed(DecodeAll(p.value.0, WORD, t.elem, p.value.1, out)))
      else Some(Raw(out[p.value.0..p.value.0 + p.value.1]))
    else ReadWord(t, out[index..index + WORD])
  }

  /** `n` values at distance `step` from each other. */
  ghost function DecodeAll(start: nat, step: nat, t: Type, n: nat, out: Bytes): Option<seq<Value>>
    decreases t, 1, n
  {
    if n == 0 then Some([])
    else
      var vs, v := DecodeAll(start, step, t, n - 1, out), Decode(start + Times(step, n - 1), t, out);
      if vs.None? || v.None? then None else Some(vs.value + [v.value])
  }

  function Listed(vs: Option<seq<Value>>): Option<Value> {
    if vs.None? then None else Some(List(vs.value))
  }

  // ----- The cases of the decoder

  lemma {:induction false} DecodeAllStep(start: nat, step: nat, t: Type, n: nat, out: Bytes, vs: seq<Value>, v: Value)
    requires DecodeAll(start, step, t, n, out) == Some(vs) && Decode(start + Times(step, n), t, out) == Some(v)
    ensures DecodeAll(start, step, t, n + 1, out) == Some(vs + [v])
  {
  }

  lemma {:induction false} DecodeArray(index: nat, t: Type, out: Bytes, vs: seq<Value>)
    requires t.ArrayTy? && index + WORD <= |out| && index + WORD * t.size <= |out|
    requires DecodeAll(index, FullSize(t.elem), t.elem, t.size, out) == Some(vs)
    ensures Decode(index, t, out) == Some(List(vs))
  {
  }

  lemma {:induction false} DecodeSlice(index: nat, t: Type, out: Bytes, begin: nat, n: nat, vs: seq<Value>)
    requires t.SliceTy? && index + WORD <= |out| && LengthPrefixPointsTo(index, out) == Some((begin, n))
    requires begin + WORD * n <= |out| && DecodeAll(begin, WORD, t.elem, n, out) == Some(vs)
    ensures Decode(index, t, out) == Some(List(vs))
  {
  }

  lemma {:induction false} DecodeRaw(index: nat, t: Type, out: Bytes, begin: nat, b: Bytes)
    requires (t.StringTy? || t.BytesTy?) && index + WORD <= |out|
    requires LengthPrefixPointsTo(index, out) == Some((begin, |b|)) && At(out, begin, b)
    ensures Decode(index, t, out) == Some(Raw(b))
  {
    AtSlice(out, begin, b);
  }

  // ----- Round trip of a single value

  /** Types that encode to a fixed number of words, in place. */
  ghost predicate Static(t: Type) {
    match t
    case ArrayTy(e, n) => n > 0 && Static(e)
    case FixedBytesTy(n) => n <= WORD
    case _ => !RequiresLengthPrefix(t)
  }

  /** The part of `out` at `i` is `b`. */
  ghost predicate At(out: Bytes, i: nat, b: Bytes) {
    i + |b| <= |out| && forall k | 0 <= k < |b| :: out[i + k] == b[k]
  }

  lemma {:induction false} AtSlice(out: Bytes, i: nat, b: Bytes)
    requires At(out, i, b)
    ensures out[i..i + |b|] == b
  {
  }

  lemma {:induction false} AtParts(out: Bytes, i: nat, a: Bytes, b: Bytes)
    requires At(out, i, a + b)
    ensures At(out, i, a) && At(out, i + |a|, b)
  {
    forall k | 0 <= k < |a| ensures out[i + k] == a[k] { assert (a + b)[k] == a[k]; }
    forall k | 0 <= k < |b| ensures out[i + |a| + k] == b[k] { assert (a + b)[|a| + k] == b[k]; }
  }

  /** One word comes back exactly if a number in it is in range. */
  lemma {:induction false} WordRoundTrip(t: Type, v: Value)
    requires Static(t) && !t.ArrayTy? && Shaped(t, v)
    ensures |Encode(t, v)| == WORD && (ReadWord(t, Encode(t, v)) == Some(v) <==> Fits(t, v))
  {
    match t
    case IntTy(bits) => IntRoundTrip(true, bits, v.n, WORD);
    case UintTy(bits) => IntRoundTrip(false, bits, v.n, WORD);
    case BoolTy => BoolWord(v.b);
    case FunctionTy =>
      assert RightPad(v.bytes, WORD)[24..32] == Zeros(8);
      ZerosAreZero(8);
    case AddressTy =>
    case FixedBytesTy(n) => assert RightPad(v.bytes, WORD)[..n] == v.bytes;
  }

  /** A packed number comes back exactly if it is in range: no big integer below zero does. */
  lemma {:induction false} IntRoundTrip(signed: bool, bits: nat, n: int, word: nat)
    requires word >= 8
    ensures ReadInteger(signed, bits, BigEndian(n, word)) == n <==> InRange(signed, bits, n, word)
  {
    var k, b := IntBytes(bits), BigEndian(n, word);
    if k == 0 {
      ToNatBound(b);
      if InRange(signed, bits, n, word) { ToNatBigEndian(n, word); }
    } else if signed {
      ToSignedBound(b[word - k..]);
      if InRange(signed, bits, n, word) { LowSigned(n, k, word); }
    } else {
      ToNatBound(b[word - k..]);
      if InRange(signed, bits, n, word) { LowUnsigned(n, k, word); }
    }
  }

  lemma {:induction false} LowSigned(n: int, k: nat, word: nat)
    requires 0 < k <= word && 0 - Pow256(k) <= 2 * n < Pow256(k)
    ensures ToSigned(BigEndian(n, word)[word - k..]) == n
  {
    LowBytes(n, k, word);
    ToSignedBigEndian(n, k);
  }

  lemma {:induction false} LowUnsigned(n: int, k: nat, word: nat)
    requires 0 < k <= word && 0 <= n < Pow256(k)
    ensures ToNat(BigEndian(n, word)[word - k..]) == n
  {
    LowBytes(n, k, word);
    ToNatBigEndian(n, k);
  }

  lemma {:induction false} ZerosAreZero(k: nat)
    ensures ToNat(Zeros(k)) == 0
  {
    if k > 0 {
      ZerosAreZero(k - 1);
      assert Zeros(k)[..k - 1] == Zeros(k - 1);
    }
  }

  lemma {:induction false} SmallWord(n: nat, k: nat)
    requires n < 256 && k > 0
    ensures BigEndian(n, k) == Zeros(k - 1) + [n]
    decreases k
  {
    if k > 1 { SmallWord(0, k - 1); }
  }

  lemma {:induction false} BoolWord(b: bool)
    ensures ReadBool(Word(if b then 1 else 0)) == Some(Flag(b))
  {
    SmallWord(if b then 1 else 0, WORD);
  }

  /** A static value takes the size its type says. */
  lemma {:induction false} StaticSize(t: Type, v: Value)
    requires Static(t) && Fits(t, v)
    ensures |Encode(t, v)| == FullSize(t) >= WORD
    decreases t, 0
  {
    if t.ArrayTy? {
      StaticSizes(t.elem, v.elems);
      StaticSize(t.elem, v.elems[t.size - 1]);
      TimesMono(FullSize(t.elem), 1, t.size);
    } else {
      WordRoundTrip(t, v);
    }
  }

  lemma {:induction false} StaticSizes(t: Type, vs: seq<Value>)
    requires Static(t) && AllFit(t, vs)
    ensures |EncodeAll(t, vs)| == Times(FullSize(t), |vs|)
    decreases t, 1, |vs|
  {
    if vs != [] {
      StaticSizes(t, vs[..|vs| - 1]);
      StaticSize(t, vs[|vs| - 1]);
    }
  }

  /** A static value that stands at `index` is read back. */
  lemma {:induction false} StaticRoundTrip(t: Type, v: Value, out: Bytes, index: nat)
    requires Static(t) && Fits(t, v) && At(out, index, Encode(t, v))
    ensures Decode(index, t, out) == Some(v)
    decreases t, 0
  {
    StaticSize(t, v);
    if t.ArrayTy? {
      StaticRoundTrips(t.elem, v.elems, out, index);
      WordsFit(t, v);
      DecodeArray(index, t, out, v.elems);
    } else {
      WordRoundTrip(t, v);
      AtSlice(out, index, Encode(t, v));
    }
  }

  /** Static values that stand in a row are read back. */
  lemma {:induction false} StaticRoundTrips(t: Type, vs: seq<Value>, out: Bytes, index: nat)
    requires Static(t) && AllFit(t, vs) && At(out, index, EncodeAll(t, vs))
    ensures DecodeAll(index, FullSize(t), t, |vs|, out) == Some(vs)
    decreases t, 1, |vs|
  {
    if vs == [] {
      assert DecodeAll(index, FullSize(t), t, 0, out) == Some([]);
    } else {
      var rest, last := vs[..|vs| - 1], vs[|vs| - 1];
      LastOfRow(t, vs, rest, last, out, index);
      StaticRoundTrips(t, rest, out, index);
      StaticRoundTrip(t, last, out, index + Times(FullSize(t), |rest|));
      DecodeAllStep(index, FullSize(t), t, |rest|, out, rest, last);
    }
  }

  lemma {:induction false} LastOfRow(t: Type, vs: seq<Value>, rest: seq<Value>, last: Value, out: Bytes, index: nat)
    requires Static(t) && AllFit(t, vs) && At(out, index, EncodeAll(t, vs))
    requires vs != [] && rest == vs[..|vs| - 1] && last == vs[|vs| - 1]
    ensures At(out, index, EncodeAll(t, rest)) && At(out, index + Times(FullSize(t), |rest|), Encode(t, last))
    ensures vs == rest + [last]
  {
    AtParts(out, index, EncodeAll(t, rest), Encode(t, last));
    StaticSizes(t, rest);
  }

  /** An array takes at least one word for each element. */
  lemma {:induction false} WordsFit(t: Type, v: Value)
    requires Static(t) && t.ArrayTy? && Fits(t, v)
    ensures WORD * t.size <= |Encode(t, v)|
  {
    StaticSize(t, v);
    StaticSize(t.elem, v.elems[t.size - 1]);
    TimesProduct(WORD, t.size);
    TimesWider(WORD, FullSize(t.elem), t.size);
  }

  lemma {:induction false} TimesWider(c: nat, d: nat, n: nat)
    requires c <= d
    ensures Times(c, n) <= Times(d, n)
  {
    if n > 0 { TimesWider(c, d, n - 1); }
  }

  // ----- Values without width

  /** The bytes that the decoder wants to see from the place of a value without width on. */
  ghost function Need(t: Type): nat {
    if t.ArrayTy? && t.size > 0 then Max(WORD * t.size, Need(t.elem)) else WORD
  }

  ghost function Max(a: nat, b: nat): nat {
    if a < b then b else a
  }

  lemma {:induction false} TimesZero(n: nat)
    ensures Times(0, n) == 0
  {
    if n > 0 { TimesZero(n - 1); }
  }

  /** An array without width has no elements or elements without width. */
  lemma {:induction false} EmptyElem(t: Type)
    requires FullSize(t) == 0
    ensures t.ArrayTy? && (t.size > 0 ==> FullSize(t.elem) == 0)
  {
    if t.ArrayTy? && t.size > 0 { TimesMono(FullSize(t.elem), 1, t.size); }
  }

  lemma {:induction false} EmptyEncoded(t: Type, v: Value)
    requires FullSize(t) == 0 && Fits(t, v)
    ensures Encode(t, v) == []
    decreases t, 0
  {
    EmptyElem(t);
    if t.size > 0 { EmptyAllEncoded(t.elem, v.elems); }
  }

  lemma {:induction false} EmptyAllEncoded(t: Type, vs: seq<Value>)
    requires FullSize(t) == 0 && AllFit(t, vs)
    ensures EncodeAll(t, vs) == []
    decreases t, 1, |vs|
  {
    if vs != [] {
      EmptyAllEncoded(t, vs[..|vs| - 1]);
      EmptyEncoded(t, vs[|vs| - 1]);
    }
  }

  /** A value without width is read back exactly where enough data follows. */
  lemma {:induction false} EmptyRoundTrip(t: Type, v: Value, out: Bytes, index: nat)
    requires FullSize(t) == 0 && Fits(t, v)
    ensures Decode(index, t, out) == if index + Need(t) <= |out| then Some(v) else None
    decreases t, 0
  {
    EmptyElem(t);
    if t.size == 0 {
      assert DecodeAll(index, FullSize(t.elem), t.elem, 0, out) == Some([]);
    } else {
      EmptyRoundTrips(t.elem, v.elems, out, index);
    }
  }

  lemma {:induction false} EmptyRoundTrips(t: Type, vs: seq<Value>, out: Bytes, index: nat)
    requires FullSize(t) == 0 && AllFit(t, vs)
    ensures DecodeAll(index, 0, t, |vs|, out) == if vs == [] || index + Need(t) <= |out| then Some(vs) else None
    decreases t, 1, |vs|
  {
    if vs != [] {
      var rest, last := vs[..|vs| - 1], vs[|vs| - 1];
      EmptyRoundTrips(t, rest, out, index);
      EmptyRoundTrip(t, last, out, index);
      TimesZero(|rest|);
      assert vs == rest + [last];
    }
  }

  // ----- Values behind an offset

  /** Types with a length prefix whose contents are packed and found: a slice holds single words, not in arrays. */
  ghost predicate Prefixed(t: Type) {
    t.StringTy? || t.BytesTy? || (t.SliceTy? && Static(t.elem) && !t.elem.ArrayTy?)
  }

  /** The number that a length prefix holds. */
  ghost function PrefixOf(v: Value): nat {
    if v.Raw? then |v.bytes| else if v.List? then |v.elems| else 0
  }

  /** The contents after the length prefix. */
  ghost function Contents(t: Type, v: Value): Bytes {
    if v.Raw? then v.bytes else if v.List? && t.SliceTy? then EncodeAll(t.elem, v.elems) else []
  }

  lemma {:induction false} PrefixedShape(t: Type, v: Value) returns (padding: Bytes)
    requires Prefixed(t) && Fits(t, v)
    ensures Encode(t, v) == Word(PrefixOf(v)) + (Contents(t, v) + padding)
    ensures |Contents(t, v)| == if t.SliceTy? then WORD * PrefixOf(v) else PrefixOf(v)
  {
    var n, b := PrefixOf(v), Contents(t, v);
    assert Encode(t, v) == PackBytesSlice(b, n);
    padding := RightPad(b, (n + 31) / 32 * 32)[|b|..];
    if t.SliceTy? {
      StaticSizes(t.elem, v.elems);
      TimesProduct(WORD, |v.elems|);
    }
  }

  /** An offset leads to the length and the contents that stand where it points. */
  lemma {:induction false} PointsTo(out: Bytes, index: nat, offset: nat, b: Bytes, n: nat, padding: Bytes)
    requires |out| < MAX_INT63 && At(out, index, Word(offset)) && At(out, offset, Word(n) + (b + padding)) && n <= |b|
    ensures At(out, offset + WORD, b)
    ensures LengthPrefixPointsTo(index, out) == Some((offset + WORD, n))
  {
    AtParts(out, offset, Word(n), b + padding);
    AtParts(out, offset + WORD, b, padding);
    AtSlice(out, index, Word(offset));
    AtSlice(out, offset, Word(n));
    Small(offset);
    Small(n);
  }

  /** A value that an offset at `index` points to is read back. */
  lemma {:induction false} PrefixedRoundTrip(t: Type, v: Value, out: Bytes, index: nat, offset: nat)
    requires Prefixed(t) && Fits(t, v) && |out| < MAX_INT63
    requires At(out, index, Word(offset)) && At(out, offset, Encode(t, v))
    ensures Decode(index, t, out) == Some(v)
  {
    var padding := PrefixedShape(t, v);
    PointsTo(out, index, offset, Contents(t, v), PrefixOf(v), padding);
    if t.SliceTy? {
      StaticRoundTrips(t.elem, v.elems, out, offset + WORD);
      DecodeSlice(index, t, out, offset + WORD, PrefixOf(v), v.elems);
    } else {
      DecodeRaw(index, t, out, offset + WORD, v.bytes);
    }
  }

  /** Offsets and lengths fit in a word. */
  lemma {:induction false} Small(n: nat)
    requires n < MAX_INT63
    ensures ToNat(Word(n)) == n
  {
    assert Pow256(8) == 0x1_0000_0000_0000_0000 by {
      assert Pow256(2) == 0x1_0000;
      assert Pow256(4) == 0x1_0000_0000;
      assert Pow256(6) == 0x1_0000_0000_0000;
    }
    PowMono(8, WORD);
    ToNatBigEndian(n, WORD);
  }

  lemma {:induction false} PowMono(j: nat, k: nat)
    requires j <= k
    ensures Pow256(j) <= Pow256(k)
  {
    if j < k { PowMono(j, k - 1); }
  }

  // ----- The encoder and the decoder

  /** What checking the type of a value gives. */
  datatype Check = Fine | Wrong | Panic

  /** What packing gives. */
  datatype Outcome = Done(bytes: Bytes) | Refused | Panicked

  /**
  The type check before a value is packed. In a list it goes on with the first element if the
  elements are lists, and looks for that element in an empty list if they are arrays.
  */
  function TypeCheck(t: Type, v: Value): Check
    decreases t
  {
    if !Shaped(t, v) then Wrong
    else if !(t.SliceTy? || t.ArrayTy?) then Fine
    else if t.elem.SliceTy? then (if v.elems == [] then Fine else TypeCheck(t.elem, v.elems[0]))
    else if t.elem.ArrayTy? then (if v.elems == [] then Panic else TypeCheck(t.elem, v.elems[0]))
    else Fine
  }

  /** No list in the value is an empty one of arrays. */
  ghost predicate Packable(t: Type, v: Value)
    decreases t, 0
  {
    v.List? && (t.SliceTy? || t.ArrayTy?) ==>
      (t.elem.ArrayTy? ==> v.elems != []) && AllPackable(t.elem, v.elems)
  }

  ghost predicate AllPackable(t: Type, vs: seq<Value>)
    decreases t, 1, |vs|
  {
    vs == [] || (AllPackable(t, vs[..|vs| - 1]) && Packable(t, vs[|vs| - 1]))
  }

  ghost function Packing(t: Type, v: Value): Outcome
    decreases t, 0
  {
    match TypeCheck(t, v)
    case Wrong => Refused
    case Panic => Panicked
    case Fine =>
      if t.SliceTy? || t.ArrayTy? then
        var packed := PackingAll(t.elem, v.elems);
        if !packed.Done? then packed
        else Done(if t.SliceTy? then PackBytesSlice(packed.bytes, |v.elems|) else packed.bytes)
      else Done(PackElement(t, v))
  }

  /** The first element that is not packed decides. */
  ghost function PackingAll(t: Type, vs: seq<Value>): Outcome
    decreases t, 1, |vs|
  {
    if vs == [] then Done([])
    else
      var rest := PackingAll(t, vs[..|vs| - 1]);
      if !rest.Done? then rest
      else
        var last := Packing(t, vs[|vs| - 1]);
        if last.Done? then Done(rest.bytes + last.bytes) else last
  }

  lemma {:induction false} PackingFails(t: Type, vs: seq<Value>, i: nat)
    requires i <= |vs| && !PackingAll(t, vs[..i]).Done?
    ensures PackingAll(t, vs) == PackingAll(t, vs[..i])
    decreases |vs|
  {
    if i < |vs| {
      assert vs[..|vs| - 1][..i] == vs[..i];
      PackingFails(t, vs[..|vs| - 1], i);
    } else {
      assert vs[..i] == vs;
    }
  }

  lemma {:induction false} FirstTyped(t: Type, vs: seq<Value>)
    requires vs != []
    ensures AllTyped(t, vs) ==> Typed(t, vs[0])
    ensures AllPackable(t, vs) ==> Packable(t, vs[0])
    decreases |vs|
  {
    if |vs| > 1 { FirstTyped(t, vs[..|vs| - 1]); }
  }

  /** The type check of a value of the type fails only by a panic, and not if there is no empty list of arrays. */
  lemma {:induction false} CheckTyped(t: Type, v: Value)
    requires Typed(t, v)
    ensures TypeCheck(t, v) != Wrong && (Packable(t, v) ==> TypeCheck(t, v) == Fine)
    decreases t
  {
    if (t.SliceTy? || t.ArrayTy?) && v.elems != [] {
      FirstTyped(t.elem, v.elems);
      CheckTyped(t.elem, v.elems[0]);
    }
  }

  lemma {:induction false} CheckShaped(t: Type, v: Value)
    requires TypeCheck(t, v) == Fine
    ensures Shaped(t, v) && ((t.SliceTy? || t.ArrayTy?) && t.elem.ArrayTy? ==> v.elems != [])
  {
  }

  /** Exactly the values of the type without an empty list of arrays are packed; those with one panic. */
  lemma {:induction false} PackingExact(t: Type, v: Value)
    ensures Packing(t, v).Done? <==> Typed(t, v) && Packable(t, v)
    ensures Packing(t, v).Done? ==> Packing(t, v).bytes == Encode(t, v)
    ensures Typed(t, v) && !Packable(t, v) ==> Packing(t, v) == Panicked
    decreases t, 0
  {
    if Typed(t, v) { CheckTyped(t, v); }
    if TypeCheck(t, v) == Fine {
      CheckShaped(t, v);
      if t.SliceTy? || t.ArrayTy? { PackingAllExact(t.elem, v.elems); }
    }
  }

  lemma {:induction false} PackingAllExact(t: Type, vs: seq<Value>)
    ensures PackingAll(t, vs).Done? <==> AllTyped(t, vs) && AllPackable(t, vs)
    ensures PackingAll(t, vs).Done? ==> PackingAll(t, vs).bytes == EncodeAll(t, vs)
    ensures AllTyped(t, vs) && !AllPackable(t, vs) ==> PackingAll(t, vs) == Panicked
    decreases t, 1, |vs|
  {
    if vs != [] {
      PackingAllExact(t, vs[..|vs| - 1]);
      PackingExact(t, vs[|vs| - 1]);
    }
  }

  /** An empty list of arrays panics. */
  lemma {:induction false} EmptyOfArrays(t: Type, v: Value)
    requires (t.SliceTy? || t.ArrayTy?) && t.elem.ArrayTy? && Shaped(t, v) && v.elems == []
    ensures Packing(t, v) == Panicked
  {
    assert TypeCheck(t, v) == Panic;
  }

  // ----- Which types can always be packed

  /** Arrays of one element at least on each level down to one without elements, which are no arrays. */
  ghost predicate Bare(t: Type) {
    t.ArrayTy? && if t.size == 0 then !t.elem.ArrayTy? else Bare(t.elem)
  }

  lemma {:induction false} BareWidth(t: Type)
    requires Bare(t)
    ensures FullSize(t) == 0
  {
    if t.size > 0 {
      BareWidth(t.elem);
      TimesZero(t.size);
    }
  }

  lemma {:induction false} StaticPackable(t: Type, v: Value)
    requires (Static(t) || Bare(t) || Prefixed(t)) && Fits(t, v)
    ensures Packable(t, v)
    decreases t, 0
  {
    if (t.SliceTy? || t.ArrayTy?) && v.elems != [] { StaticAllPackable(t.elem, v.elems); }
  }

  lemma {:induction false} StaticAllPackable(t: Type, vs: seq<Value>)
    requires (Static(t) || Bare(t)) && AllFit(t, vs)
    ensures AllPackable(t, vs)
    decreases t, 1, |vs|
  {
    if vs != [] {
      StaticAllPackable(t, vs[..|vs| - 1]);
      StaticPackable(t, vs[|vs| - 1]);
    }
  }

  /** Pack the elements of a list one after the other. */
  method PackAll(t: Type, vs: seq<Value>) returns (r: Outcome)
    ensures r == PackingAll(t, vs)
    decreases t, 1
  {
    var packed: Bytes := [];
    for i := 0 to |vs|
      invariant PackingAll(t, vs[..i]) == Done(packed)
    {
      assert vs[..i + 1][..i] == vs[..i];
      var val := Pack(t, vs[i]);
      if !val.Done? {
        PackingFails(t, vs, i + 1);
        return val;
      }
      packed := packed + val.bytes;
    }
    assert vs[..|vs|] == vs;
    return Done(packed);
  }

  /** Pack a value; one of another type is an error, and an empty list of arrays a panic. */
  method Pack(t: Type, v: Value) returns (r: Outcome)
    ensures r == Packing(t, v)
    ensures r.Done? <==> Typed(t, v) && Packable(t, v)
    ensures r.Done? ==> r.bytes == Encode(t, v)
    ensures Typed(t, v) && !Packable(t, v) ==> r == Panicked
    decreases t, 0
  {
    PackingExact(t, v);
    var c := TypeCheck(t, v);
    if c == Wrong { return Refused; }
    if c == Panic { return Panicked; }
    if t.SliceTy? || t.ArrayTy? {
      var packed := PackAll(t.elem, v.elems);
      if !packed.Done? { return packed; }
      return Done(if t.SliceTy? then PackBytesSlice(packed.bytes, |v.elems|) else packed.bytes);
    }
    return Done(PackElement(t, v));
  }

  /** The number of words of an array, all its levels counted. */
  ghost function Words(t: Type): nat {
    if t.ArrayTy? then t.size * Words(t.elem) else 1
  }

  lemma {:induction false} WordsSize(t: Type)
    ensures FullSize(t) == WORD * Words(t)
  {
    if t.ArrayTy? {
      WordsSize(t.elem);
      TimesProduct(FullSize(t.elem), t.size);
      Rescale(WORD, Words(t.elem), t.size);
    }
  }

  lemma {:induction false} Rescale(a: nat, b: nat, c: nat)
    ensures a * b * c == a * (c * b) && a * (b * c) == a * b * c
  {
  }

  method GetFullElemSize(elem: Type) returns (size: nat)
    ensures size == FullSize(elem)
  {
    size := WORD;
    var t := elem;
    while t.ArrayTy?
      invariant size * Words(t) == WORD * Words(elem)
      decreases t
    {
      Rescale(size, t.size, Words(t.elem));
      size, t := size * t.size, t.elem;
    }
    WordsSize(elem);
  }

  lemma {:induction false} DecodeAllFails(start: nat, step: nat, t: Type, m: nat, n: nat, out: Bytes)
    requires m <= n && DecodeAll(start, step, t, m, out) == None
    ensures DecodeAll(start, step, t, n, out) == None
    decreases n
  {
    if m < n { DecodeAllFails(start, step, t, m, n - 1, out); }
  }

  /** Unpack `size` elements from `start` on. */
  method ForEachUnpack(t: Type, out: Bytes, start: nat, size: nat) returns (r: Option<Value>)
    requires t.SliceTy? || t.ArrayTy?
    ensures r == if start + WORD * size > |out| then None
                 else Listed(DecodeAll(start, if t.ArrayTy? then FullSize(t.elem) else WORD, t.elem, size, out))
    decreases t, 0
  {
    if start + WORD * size > |out| { return None; }
    var elemSize := WORD;
    if t.ArrayTy? { elemSize := GetFullElemSize(t.elem); }
    var vs, i := [], start;
    for j := 0 to size
      invariant DecodeAll(start, elemSize, t.elem, j, out) == Some(vs) && i == start + Times(elemSize, j)
    {
      var v := ToGoType(i, t.elem, out);
      if v.None? {
        DecodeAllFails(start, elemSize, t.elem, j + 1, size, out);
        return None;
      }
      DecodeAllStep(start, elemSize, t.elem, j, out, vs, v.value);
      vs, i := vs + [v.value], i + elemSize;
    }
    return Some(List(vs));
  }

  /** Read the value of type `t` that stands at `index`, or that the offset there points to. */
  method ToGoType(index: nat, t: Type, out: Bytes) returns (r: Option<Value>)
    ensures r == Decode(index, t, out)
    decreases t, 1
  {
    if index + WORD > |out| { return None; }
    if t.ArrayTy? {
      r := ForEachUnpack(t, out, index, t.size);
    } else if RequiresLengthPrefix(t) {
      var p := LengthPrefixPointsTo(index, out);
      if p.None? { return None; }
      if t.SliceTy? {
        r := ForEachUnpack(t, out, p.value.0, p.value.1);
      } else {
        r := Some(Raw(out[p.value.0..p.value.0 + p.value.1]));
      }
    } else {
      r := ReadWord(t, out[index..index + WORD]);
    }
  }
}
