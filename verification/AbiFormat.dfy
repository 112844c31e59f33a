/**
The encoding byte by byte, in the words of the Solidity Contract ABI Specification, section "Formal
Specification of the Encoding": what each byte of a packed value is, and which bytes the decoder
takes for a value.
*/
module AbiFormat {
  import opened AbiCodec
  import opened AbiWords
  import opened Multiples
  import opened Wrappers

  /** `b` from `i` on is zeros. */
  ghost predicate ZerosFrom(b: Bytes, i: nat) {
    forall k | i <= k < |b| :: b[k] == 0
  }

  // ----- Words

  /** The byte of weight 256^j, counted from the end. */
  lemma {:induction false} Digit(n: int, k: nat, j: nat)
    requires j < k
    ensures BigEndian(n, k)[k - 1 - j] == n / Pow256(j) % 256
    decreases k
  {
    var q := n / 256;
    DigitStep(n, q, k, j);
    if j > 0 {
      Digit(q, k - 1, j - 1);
      DivideTwice(n, Pow256(j - 1));
    }
  }

  /** The last byte is the remainder, and the others are those of the quotient. */
  lemma {:induction false} DigitStep(n: int, q: int, k: nat, j: nat)
    requires j < k && q == n / 256
    ensures BigEndian(n, k)[k - 1 - j] == if j == 0 then n % 256 else BigEndian(q, k - 1)[k - 1 - j]
  {
  }

  lemma {:induction false} DivideTwice(n: int, p: nat)
    requires p > 0
    ensures n / 256 / p == n / (256 * p)
  {
    var q := n / 256;
    var r, u, v := n % 256, q / p, q % p;
    Split(q, p, u, v);
    assert n == 256 * q + r;
    Regroup(u, p);
    Unique(n, 256 * p, u, 256 * v + r);
  }

  lemma {:induction false} Split(q: int, p: nat, u: int, v: int)
    requires p > 0 && u == q / p && v == q % p
    ensures q == p * u + v && 0 <= v < p
  {
  }

  lemma {:induction false} Regroup(u: int, p: nat)
    ensures 256 * (p * u) == 256 * p * u
  {
  }

  lemma {:induction false} Unique(n: int, m: nat, u: int, w: int)
    requires m > 0 && n == m * u + w && 0 <= w < m
    ensures n / m == u
  {
    var a, b := n / m, n % m;
    Split(n, m, a, b);
    if a < u { Gap(m, a, u); }
    if u < a { Gap(m, u, a); }
  }

  lemma {:induction false} Gap(m: nat, a: int, b: int)
    requires a < b
    ensures m * a + m <= m * b
  {
    assert m * b == m * a + m * (b - a);
    Product(m, b - a);
  }

  lemma {:induction false} Product(m: nat, n: nat)
    requires n >= 1
    ensures m * n >= m
  {
    TimesProduct(m, n);
    TimesMono(m, 1, n);
  }

  /** The first byte counts most. */
  lemma {:induction false} HighByte(b: Bytes)
    requires b != []
    ensures ToNat(b) == b[0] * Pow256(|b| - 1) + ToNat(b[1..])
  {
    var n := |b| - 1;
    if n > 0 {
      HighByte(b[..n]);
      assert b[..n][1..] == b[1..][..n - 1] && b[1..][n - 1] == b[n];
      Factor(b[0], Pow256(n - 1));
    } else {
      assert b[..0] == [] && b[1..] == [];
    }
  }

  lemma {:induction false} Factor(x: nat, p: nat)
    ensures 256 * (x * p) == x * (256 * p)
  {
  }

  /** Zeros in front do not count. */
  lemma {:induction false} ZerosInFront(k: nat, b: Bytes)
    ensures ToNat(Zeros(k) + b) == ToNat(b)
    decreases k
  {
    if k > 0 {
      HighByte(Zeros(k) + b);
      assert (Zeros(k) + b)[1..] == Zeros(k - 1) + b;
      ZerosInFront(k - 1, b);
    } else {
      assert Zeros(0) + b == b;
    }
  }

  // ----- Static types

  /** A number is its 256-bit two's complement, most significant byte first. */
  lemma {:induction false} NumberFormat(t: Type, n: int, j: nat)
    requires (t.IntTy? || t.UintTy?) && j < 32
    ensures |Encode(t, Num(n))| == 32 && Encode(t, Num(n))[31 - j] == n / Pow256(j) % 256
  {
    Digit(n, WORD, j);
  }

  /** An address is the number that its 20 bytes are. */
  lemma {:induction false} AddressFormat(b: Bytes)
    requires |b| == 20
    ensures Encode(AddressTy, Raw(b)) == Word(ToNat(b))
    ensures Encode(AddressTy, Raw(b))[12..] == b && forall i | 0 <= i < 12 :: Encode(AddressTy, Raw(b))[i] == 0
  {
    var e := Encode(AddressTy, Raw(b));
    assert e == Zeros(12) + b;
    ZerosInFront(12, b);
    BigEndianToNat(e);
  }

  /** True is 1 and false is 0. */
  lemma {:induction false} BoolFormat(x: bool)
    ensures var e := Encode(BoolTy, Flag(x));
            |e| == 32 && e[31] == (if x then 1 else 0) && forall i | 0 <= i < 31 :: e[i] == 0
  {
    SmallWord(if x then 1 else 0, WORD);
  }

  /** Fixed byte strings and functions are followed by zeros up to 32 bytes. */
  lemma {:induction false} FixedFormat(t: Type, b: Bytes)
    requires (t.FixedBytesTy? || t.FunctionTy?) && Fits(t, Raw(b)) && |b| <= 32
    ensures |Encode(t, Raw(b))| == 32 && b <= Encode(t, Raw(b)) && ZerosFrom(Encode(t, Raw(b)), |b|)
  {
  }

  /** The elements of an array follow each other. */
  lemma {:induction false} ArrayFormat(t: Type, vs: seq<Value>, j: nat)
    requires t.ArrayTy? && Static(t.elem) && Fits(t, List(vs)) && j < |vs|
    ensures |Encode(t, List(vs))| == Times(FullSize(t.elem), |vs|)
    ensures At(Encode(t, List(vs)), Times(FullSize(t.elem), j), Encode(t.elem, vs[j]))
  {
    RowFormat(t.elem, vs, j);
  }

  lemma {:induction false} RowFormat(t: Type, vs: seq<Value>, j: nat)
    requires Static(t) && AllFit(t, vs) && j < |vs|
    ensures |EncodeAll(t, vs)| == Times(FullSize(t), |vs|)
    ensures At(EncodeAll(t, vs), Times(FullSize(t), j), Encode(t, vs[j]))
    decreases |vs|
  {
    var n := |vs| - 1;
    StaticSizes(t, vs);
    StaticSizes(t, vs[..n]);
    if j < n {
      RowFormat(t, vs[..n], j);
      assert vs[..n][j] == vs[j];
    }
  }

  // ----- Types with a length prefix

  /** Strings and byte strings: the length, the bytes, then zeros up to the next multiple of 32. */
  lemma {:induction false} BytesFormat(t: Type, b: Bytes)
    requires t.StringTy? || t.BytesTy?
    ensures var e := Encode(t, Raw(b));
            && Word(|b|) + b <= e && ZerosFrom(e, 32 + |b|)
            && |e| % 32 == 0 && 32 + |b| <= |e| < 32 + |b| + 32
  {
    var n := (|b| + 31) / 32;
    assert n * 32 == |b| + 31 - (|b| + 31) % 32;
    assert Encode(t, Raw(b)) == Word(|b|) + RightPad(b, n * 32);
    WholeWord(n);
  }

  lemma {:induction false} WholeWord(n: nat)
    ensures (32 + n * 32) % 32 == 0
  {
  }

  /** A slice of single words: their number, then the words. */
  lemma {:induction false} SliceFormat(t: Type, vs: seq<Value>)
    requires t.SliceTy? && Prefixed(t) && Fits(t, List(vs))
    ensures Encode(t, List(vs)) == Word(|vs|) + EncodeAll(t.elem, vs) && |EncodeAll(t.elem, vs)| == 32 * |vs|
  {
    StaticSizes(t.elem, vs);
    TimesProduct(32, |vs|);
  }

  // ----- What the decoder takes for a value

  /** Only the words 0 and 1 are booleans. */
  lemma {:induction false} BoolRead(b: Bytes, x: bool)
    requires |b| == WORD
    ensures ReadBool(b) == Some(Flag(x)) <==> b == Word(if x then 1 else 0)
  {
    SmallWord(if x then 1 else 0, WORD);
    if ReadBool(b) == Some(Flag(x)) { assert b == Zeros(31) + [if x then 1 else 0]; }
  }

  /** Only words that end in eight zeros are functions. */
  lemma {:induction false} FunctionRead(b: Bytes, x: Bytes)
    requires |b| == WORD && |x| == 24
    ensures ReadFunctionType(b) == Some(Raw(x)) <==> b == x + Zeros(8)
  {
    ZerosAreZero(8);
    assert b == b[..24] + b[24..32];
    assert (x + Zeros(8))[..24] == x && (x + Zeros(8))[24..32] == Zeros(8);
    if ReadFunctionType(b) == Some(Raw(x)) {
      BigEndianToNat(b[24..32]);
      BigEndianToNat(Zeros(8));
    }
  }

  /** The low bytes of a word are its remainder. */
  lemma {:induction false} LowPart(b: Bytes, k: nat)
    requires k <= |b|
    ensures ToNat(b) == ToNat(b[..|b| - k]) * Pow256(k) + ToNat(b[|b| - k..])
    decreases k
  {
    if k == 0 {
      assert b[..|b|] == b;
    } else {
      var c, low := b[..|b| - 1], b[|b| - k..];
      LowPart(c, k - 1);
      assert c[..|c| - (k - 1)] == b[..|b| - k] && low[..k - 1] == c[|c| - (k - 1)..] && low[k - 1] == b[|b| - 1];
      Factor(ToNat(b[..|b| - k]), Pow256(k - 1));
    }
  }

  lemma {:induction false} MachinePowers()
    ensures Pow256(1) == 0x100 && Pow256(2) == 0x1_0000 && Pow256(4) == 0x1_0000_0000
    ensures Pow256(8) == 0x1_0000_0000_0000_0000
  {
    assert Pow256(3) == 256 * Pow256(2) && Pow256(5) == 256 * Pow256(4) && Pow256(7) == 256 * Pow256(6);
  }

  /** `n` is what a machine integer with `p` values keeps of `w`. */
  ghost predicate Kept(signed: bool, p: nat, w: nat, n: int)
    requires p > 0
  {
    (w - n) % p == 0 && if signed then 0 - p <= 2 * n < p else 0 <= n < p
  }

  lemma {:induction false} Multiple(x: int, q: int, p: nat)
    requires p > 0 && x == q * p
    ensures x % p == 0
  {
    Unique(x, p, q, 0);
    Split(x, p, q, x % p);
  }

  lemma {:induction false} MachineRead(signed: bool, k: nat, b: Bytes)
    requires 0 < k <= |b|
    ensures var low := b[|b| - k..];
            Kept(signed, Pow256(k), ToNat(b), if signed then ToSigned(low) else ToNat(low))
  {
    var low, q, p := b[|b| - k..], ToNat(b[..|b| - k]), Pow256(k);
    LowPart(b, k);
    ToNatBound(low);
    Multiple(q * p, q, p);
    if signed {
      PowerOf256(k);
      ToSignedBound(low);
      NextMultiple(q, p);
      Multiple(q * p + p, q + 1, p);
    }
  }

  lemma {:induction false} NextMultiple(q: int, p: nat)
    ensures q * p + p == (q + 1) * p
  {
  }

  /** Whatever the word, an integer type of 8, 16, 32 or 64 bits keeps its low bits and any other type all of it. */
  lemma {:induction false} IntegerRead(signed: bool, bits: nat, b: Bytes)
    requires |b| == WORD
    ensures var w, n := ToNat(b), ReadInteger(signed, bits, b);
            && (bits == 8 ==> Kept(signed, 0x100, w, n)) && (bits == 16 ==> Kept(signed, 0x1_0000, w, n))
            && (bits == 32 ==> Kept(signed, 0x1_0000_0000, w, n))
            && (bits == 64 ==> Kept(signed, 0x1_0000_0000_0000_0000, w, n))
            && (bits != 8 && bits != 16 && bits != 32 && bits != 64 ==> n == w)
  {
    var k := IntBytes(bits);
    if k > 0 {
      MachinePowers();
      MachineRead(signed, k, b);
    }
  }

  /** An address is the last 20 bytes of any word, a fixed byte string the first ones. */
  lemma {:induction false} RawRead(front: Bytes, b: Bytes, back: Bytes)
    ensures |front| == 12 && |b| == 20 ==> ReadWord(AddressTy, front + b) == Some(Raw(b))
    ensures |b| + |back| == WORD ==> ReadWord(FixedBytesTy(|b|), b + back) == Some(Raw(b))
  {
    assert (front + b)[|front|..] == b && (b + back)[..|b|] == b;
  }

  /** Contents are found through an offset exactly if they lie within the data. */
  lemma {:induction false} FoundIff(out: Bytes, index: nat, offset: nat, n: nat)
    requires |out| < MAX_INT63 && offset < MAX_INT63 && n < MAX_INT63
    requires At(out, index, Word(offset)) && At(out, offset, Word(n))
    ensures LengthPrefixPointsTo(index, out) == Some((offset + 32, n)) <==> offset + 32 + n <= |out|
    ensures LengthPrefixPointsTo(index, out).None? <==> offset + 32 + n > |out|
  {
    AtSlice(out, index, Word(offset));
    AtSlice(out, offset, Word(n));
    Small(offset);
    Small(n);
  }
}
