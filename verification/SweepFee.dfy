/** Transfer fees, and the search for the amount that sweeps a balance (common/lkfee.go). */
module SweepFee {
  const MAX_GAS_LIMIT := 5_000_000_000
  const MIN_GAS_LIMIT := 500_000
  const EVER_LIANKE_FEE := 50_000
  const GAS_PRICE := 100_000_000_000
  const LIANKE := 1_000_000_000_000_000_000

  /** The price of one step of the fee. */
  const STEP := 5_000_000_000_000_000

  /** The number of whole coins that cover `x`. */
  ghost predicate Covers(count: int, x: int) {
    LIANKE * (count - 1) < x <= LIANKE * count
  }

  /** The fee in gas: a fixed rate for each coin begun, within limits. */
  function Fee(x: int): (fee: nat)
    ensures MIN_GAS_LIMIT <= fee <= MAX_GAS_LIMIT
  {
    var gas := EVER_LIANKE_FEE * ((x + LIANKE - 1) / LIANKE);
    if gas < MIN_GAS_LIMIT then MIN_GAS_LIMIT else if gas > MAX_GAS_LIMIT then MAX_GAS_LIMIT else gas
  }

  /** What sending `x` takes from the balance. */
  function Total(x: int): int {
    x + GAS_PRICE * Fee(x)
  }

  lemma {:induction false} CoversRound(x: int)
    ensures Covers((x + LIANKE - 1) / LIANKE, x)
    ensures (x + LIANKE - 1) / LIANKE == x / LIANKE + if x % LIANKE != 0 then 1 else 0
  {
    var q, r := x / LIANKE, x % LIANKE;
    var c := (x + LIANKE - 1) / LIANKE;
    assert x == LIANKE * q + r && LIANKE * c <= x + LIANKE - 1 < LIANKE * c + LIANKE;
  }

  lemma {:induction false} CoversOnce(m: int, n: int, x: int, y: int)
    requires Covers(m, x) && Covers(n, y) && x <= y <= x + LIANKE
    ensures m <= n <= m + 1
  {
  }

  /** A larger amount costs no less, and over one coin at most one step of the fee more. */
  lemma {:induction false} FeeStep(x: int, y: int)
    requires x <= y <= x + LIANKE
    ensures Fee(x) <= Fee(y) <= Fee(x) + EVER_LIANKE_FEE
  {
    CoversRound(x);
    CoversRound(y);
    CoversOnce((x + LIANKE - 1) / LIANKE, (y + LIANKE - 1) / LIANKE, x, y);
  }

  lemma {:induction false} FeeMono(x: int, y: int)
    requires x <= y
    ensures Fee(x) <= Fee(y)
    decreases y - x
  {
    if y <= x + LIANKE {
      FeeStep(x, y);
    } else {
      FeeStep(x, x + LIANKE);
      FeeMono(x + LIANKE, y);
    }
  }

  /** The total grows with the amount. */
  lemma {:induction false} TotalMono(x: int, y: int)
    requires x < y
    ensures Total(x) < Total(y)
  {
    FeeMono(x, y);
  }

  /** The fee is 50,000 gas for each coin begun, but 500,000 at least and 5,000,000,000 at most. */
  lemma {:induction false} FeeIs(x: int, count: int)
    requires Covers(count, x)
    ensures Fee(x) == if count < 10 then 500_000 else if count > 100_000 then 5_000_000_000 else 50_000 * count
  {
    CoversRound(x);
    CoversOnce(count, (x + LIANKE - 1) / LIANKE, x, x);
    CoversOnce((x + LIANKE - 1) / LIANKE, count, x, x);
  }

  /** A coin is 10^18, and `count` coins cover what is above `count - 1` of them. */
  lemma {:induction false} CoversIs(count: int, x: int)
    ensures Covers(count, x) <==> 1_000_000_000_000_000_000 * count - 1_000_000_000_000_000_000 < x
                                  && x <= 1_000_000_000_000_000_000 * count
  {
  }

  /** Sending `x` takes `x` and 10^11 for each unit of the fee. */
  lemma {:induction false} TotalIs(x: int)
    ensures Total(x) == x + 100_000_000_000 * Fee(x)
  {
  }

  method CalNewFee(value: int) returns (fee: nat)
    ensures fee == Fee(value)
    ensures forall count {:trigger Covers(count, value)} :: Covers(count, value) ==>
              fee == if count < 10 then 500_000 else if count > 100_000 then 5_000_000_000 else 50_000 * count
  {
    var liankeCount;
    if value % LIANKE != 0 {
      liankeCount := value / LIANKE + 1;
    } else {
      liankeCount := value / LIANKE;
    }
    CoversRound(value);
    var calFeeGas := EVER_LIANKE_FEE * liankeCount;
    if calFeeGas < MIN_GAS_LIMIT { calFeeGas := MIN_GAS_LIMIT; }
    if MAX_GAS_LIMIT != 0 && calFeeGas > MAX_GAS_LIMIT { calFeeGas := MAX_GAS_LIMIT; }
    forall count | Covers(count, value)
      ensures calFeeGas == if count < 10 then 500_000 else if count > 100_000 then 5_000_000_000 else 50_000 * count
    {
      FeeIs(value, count);
    }
    return calFeeGas;
  }

  /** The largest amount that the balance covers together with its fee. */
  ghost predicate Largest(balance: int, amount: int) {
    Total(amount) <= balance && forall more | more > amount :: Total(more) > balance
  }

  lemma {:induction false} LargestNext(balance: int, amount: int)
    requires Total(amount) <= balance < Total(amount + 1)
    ensures Largest(balance, amount)
  {
    forall more | more > amount ensures Total(more) > balance {
      if more > amount + 1 { TotalMono(amount + 1, more); }
    }
  }

  /** What is left is less than the next unit and one step of the fee. */
  lemma {:induction false} ChangeBound(balance: int, amount: int)
    requires Largest(balance, amount)
    ensures balance - Total(amount) <= STEP
  {
    FeeStep(amount, amount + 1);
    assert Total(amount + 1) > balance;
  }

  /**
  Bisection between an amount `min` that the balance covers and an amount `max` that it
  does not. The first turn leaves the interval as it is and halves `amount`.
  */
  method CalAllFee(balance: int, amount: int, min: int, max: int) returns (am: int, changeAm: int, fee: nat)
    requires 0 <= min < amount <= max || min == amount == max - 1
    requires Total(min) <= balance < Total(max)
    ensures fee == Fee(am) && changeAm == balance - Total(am) && Largest(balance, am) && min <= am < max
    decreases max - min, amount
  {
    fee := CalNewFee(amount);
    var gasUsed := GAS_PRICE * fee;
    var newBalance := amount + gasUsed;
    var changeAmount := balance - newBalance;
    if max <= min || amount == min {
      LargestNext(balance, amount);
      return amount, changeAmount, fee;
    }
    if changeAmount == 0 {
      TotalMono(amount, amount + 1);
      LargestNext(balance, amount);
      return amount, changeAmount, fee;
    } else if changeAmount > 0 {
      am, changeAm, fee := CalAllFee(balance, (amount + max) / 2, amount, max);
    } else {
      am, changeAm, fee := CalAllFee(balance, (amount + min) / 2, min, amount);
    }
  }

  /** Sweep a balance; one that does not exceed the least fee is an error. */
  method CalSweepBalanceFee(balance: int) returns (amount: int, changeAmount: int, fee: nat, ok: bool)
    ensures ok == (balance > 50_000_000_000_000_000)
    ensures ok ==> fee == Fee(amount) && amount + GAS_PRICE * fee + changeAmount == balance
    ensures ok ==> Largest(balance, amount) && 0 <= amount && 0 <= changeAmount <= 5_000_000_000_000_000
    ensures !ok ==> amount == changeAmount == fee == 0
  {
    var minGasUsed := GAS_PRICE * MIN_GAS_LIMIT;
    if balance <= minGasUsed { return 0, 0, 0, false; }
    amount, changeAmount, fee := CalAllFee(balance, balance, 0, balance);
    ChangeBound(balance, amount);
    ok := true;
  }
}
