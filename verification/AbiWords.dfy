/** Bytes and 32-byte big-endian words (third_part/abi/numbers.go, common/bytes.go). */
module AbiWords {
  type Byte = b: int | 0 <= b < 256
  type Bytes = seq<Byte>

  const WORD := 32

  ghost function Pow256(k: nat): (p: nat)
    ensures p > 0
  {
    if k == 0 then 1 else 256 * Pow256(k - 1)
  }

  /** The low `k` bytes of `n` in two's complement, most significant first. */
  function BigEndian(n: int, k: nat): (b: Bytes)
    ensures |b| == k
    decreases k, n
  {
    if k == 0 then [] else BigEndian(n / 256, k - 1) + [n % 256]
  }

  /** The unsigned value of a big-endian byte string. */
  function ToNat(b: Bytes): (n: nat) {
    if b == [] then 0 else 256 * ToNat(b[..|b| - 1]) + b[|b| - 1]
  }

  /** A number as a word of 256 bits. */
  function Word(n: int): (b: Bytes)
    ensures |b| == WORD
  {
    BigEndian(n, WORD)
  }

  function Zeros(n: nat): (b: Bytes)
    ensures |b| == n
  {
    seq(n, _ => 0)
  }

  /** Filled up with zeros on the right to at least `n` bytes. */
  function RightPad(b: Bytes, n: nat): (r: Bytes)
    ensures b <= r && |r| == if |b| < n then n else |b|
  {
    if n <= |b| then b else b + Zeros(n - |b|)
  }

  /** Filled up with zeros on the left to at least `n` bytes. */
  function LeftPad(b: Bytes, n: nat): (r: Bytes)
    ensures |r| == if |b| < n then n else |b|
    ensures |b| <= n ==> r[n - |b|..] == b
  {
    if n <= |b| then b else Zeros(n - |b|) + b
  }

  /** A number that fits comes back. */
  lemma {:induction false} ToNatBigEndian(n: nat, k: nat)
    requires n < Pow256(k)
    ensures ToNat(BigEndian(n, k)) == n
  {
    if k > 0 {
      ToNatBigEndian(n / 256, k - 1);
      var b := BigEndian(n, k);
      assert b[..|b| - 1] == BigEndian(n / 256, k - 1);
    }
  }

  /** Only the low `k` bytes matter, also of a negative number. */
  lemma {:induction false} Wraps(n: int, k: nat)
    ensures BigEndian(n + Pow256(k), k) == BigEndian(n, k)
    decreases k
  {
    if k > 0 {
      var p := Pow256(k - 1);
      assert Pow256(k) == 256 * p;
      Carry(n, p);
      Wraps(n / 256, k - 1);
    }
  }

  lemma {:induction false} Carry(n: int, p: nat)
    ensures (n + 256 * p) / 256 == n / 256 + p && (n + 256 * p) % 256 == n % 256
  {
  }

  /** The last `j` bytes of a longer form are the shorter form. */
  lemma {:induction false} LowBytes(n: int, j: nat, k: nat)
    requires j <= k
    ensures BigEndian(n, k)[k - j..] == BigEndian(n, j)
    decreases k
  {
    if j > 0 { LowBytes(n / 256, j - 1, k - 1); }
  }

  /** The signed value of a byte string in two's complement. */
  function ToSigned(b: Bytes): (n: int)
    requires b != []
  {
    if b[0] < 128 then ToNat(b) else ToNat(b) - ToNat([1] + Zeros(|b|))
  }

  lemma {:induction false} PowerOf256(k: nat)
    ensures ToNat([1] + Zeros(k)) == Pow256(k)
  {
    var b := [1] + Zeros(k);
    if k == 0 {
      assert b[..0] == [];
    } else {
      assert b[..k] == [1] + Zeros(k - 1);
      PowerOf256(k - 1);
    }
  }

  /** The top byte tells which half of the range a number is in. */
  lemma {:induction false} TopByte(n: nat, k: nat)
    requires k > 0 && n < Pow256(k)
    ensures BigEndian(n, k)[0] < 128 <==> 2 * n < Pow256(k)
  {
    if k == 1 {
      assert Pow256(1) == 256 * Pow256(0);
      assert BigEndian(n / 256, 0) == [];
    } else {
      Halves(n, n / 256, Pow256(k - 2));
      TopByte(n / 256, k - 1);
      assert BigEndian(n, k)[0] == BigEndian(n / 256, k - 1)[0];
    }
  }

  lemma {:induction false} Halves(n: nat, q: nat, p: nat)
    requires q == n / 256
    ensures n < 256 * (256 * p) <==> q < 256 * p
    ensures 2 * n < 256 * (256 * p) <==> 2 * q < 256 * p
  {
    var r := n % 256;
    assert n == 256 * q + r;
  }

  /** A signed number that fits comes back. */
  lemma {:induction false} ToSignedBigEndian(n: int, k: nat)
    requires k > 0 && 0 - Pow256(k) <= 2 * n < Pow256(k)
    ensures ToSigned(BigEndian(n, k)) == n
  {
    PowerOf256(k);
    var m: nat := if n < 0 then n + Pow256(k) else n;
    if n < 0 { Wraps(n, k); }
    ToNatBigEndian(m, k);
    TopByte(m, k);
  }

  lemma {:induction false} ToNatBound(b: Bytes)
    ensures ToNat(b) < Pow256(|b|)
  {
    if b != [] { ToNatBound(b[..|b| - 1]); }
  }

  /** A byte string is the form of its own value. */
  lemma {:induction false} BigEndianToNat(b: Bytes)
    ensures BigEndian(ToNat(b), |b|) == b
  {
    if b != [] {
      var q, r := ToNat(b[..|b| - 1]), b[|b| - 1];
      assert (256 * q + r) / 256 == q && (256 * q + r) % 256 == r;
      BigEndianToNat(b[..|b| - 1]);
    }
  }

  lemma {:induction false} ToSignedBound(b: Bytes)
    requires b != []
    ensures 0 - Pow256(|b|) <= 2 * ToSigned(b) < Pow256(|b|)
  {
    PowerOf256(|b|);
    ToNatBound(b);
    BigEndianToNat(b);
    TopByte(ToNat(b), |b|);
  }
}
