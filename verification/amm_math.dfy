/** The pricing arithmetic of the `simple-amm` pallet: checked operations on
    the runtime's `Balance` type, `quote`, `get_amount_out` and
    `verify_invariant`. `Balance` is an unsigned integer of at least 32 bits
    whose largest value is the parameter `max`; every checked operation fails
    past it, and each failure becomes the pallet's `Overflow` error. */
module AmmMath {
  import CryptoTypes
  import opened NatArith

  /** The largest `Balance`: at least `u32::MAX`, since `Balance` is
      `AtLeast32BitUnsigned`. */
  type MaxBalance = m: nat | m >= 0xFFFF_FFFF witness 0xFFFF_FFFF

  /** The pallet's `Error` enum. `PoolAlreadyExists` is declared there but
      never raised. */
  datatype AmmError =
    | PoolNotFound
    | PoolAlreadyExists
    | InsufficientLiquidity
    | InsufficientLpTokens
    | ZeroAmount
    | SlippageExceeded
    | Overflow
    | InvariantViolated

  datatype AmmResult<+T> = Ok(value: T) | Err(error: AmmError)
  {
    predicate IsFailure() { Err? }

    function PropagateFailure<U>(): AmmResult<U>
      requires Err?
    {
      Err(error)
    }

    function Extract(): T
      requires Ok?
    {
      value
    }
  }

  /** The outcome of an `ensure!`: no value, only a possible error. */
  datatype Check = Pass | Fail(error: AmmError)
  {
    predicate IsFailure() { Fail? }

    function PropagateFailure<U>(): AmmResult<U>
      requires Fail?
    {
      Err(error)
    }
  }

  /** `ensure!(cond, e)`. */
  function Ensure(cond: bool, e: AmmError): Check
  {
    if cond then Pass else Fail(e)
  }

  function CheckedAdd(max: MaxBalance, a: nat, b: nat): (r: CryptoTypes.Option<nat>)
    ensures r.Some? <==> a + b <= max
    ensures r.Some? ==> r.value == a + b
  {
    if a + b <= max then CryptoTypes.Some(a + b) else CryptoTypes.None
  }

  function CheckedSub(a: nat, b: nat): (r: CryptoTypes.Option<nat>)
    ensures r.Some? <==> b <= a
    ensures r.Some? ==> r.value + b == a
  {
    if b <= a then CryptoTypes.Some(a - b) else CryptoTypes.None
  }

  function CheckedMul(max: MaxBalance, a: nat, b: nat): (r: CryptoTypes.Option<nat>)
    ensures r.Some? <==> a * b <= max
    ensures r.Some? ==> r.value == a * b
  {
    if a * b <= max then CryptoTypes.Some(a * b) else CryptoTypes.None
  }

  /** Integer division, `None` only for a zero divisor. */
  function CheckedDiv(a: nat, b: nat): (r: CryptoTypes.Option<nat>)
    ensures r.Some? <==> b != 0
    ensures r.Some? ==> r.value * b <= a < (r.value + 1) * b
  {
    if b == 0 then CryptoTypes.None
    else
      DivFloor(a, b);
      CryptoTypes.Some(a / b)
  }

  /** `.ok_or(Error::<T>::Overflow)`. */
  function OrOverflow(o: CryptoTypes.Option<nat>): (r: AmmResult<nat>)
    ensures r.Ok? <==> o.Some?
    ensures r.Ok? ==> r.value == o.value
    ensures r.Err? ==> r.error == Overflow
  {
    match o
    case Some(v) => Ok(v)
    case None => Err(Overflow)
  }

  // ---------------------------------------------------------------------
  // quote

  /** `quote`: the amount of the other token worth `amountA` at the ratio of
      the reserves, rounded down. */
  function Quote(max: MaxBalance, amountA: nat, reserveA: nat, reserveB: nat): (r: AmmResult<nat>)
    ensures amountA == 0 ==> r == Err(ZeroAmount)
    ensures amountA != 0 && (reserveA == 0 || reserveB == 0) ==> r == Err(InsufficientLiquidity)
    ensures amountA != 0 && reserveA != 0 && reserveB != 0 ==>
              (r.Ok? <==> amountA * reserveB <= max) && (r.Err? ==> r.error == Overflow)
    ensures r.Ok? ==> r.value * reserveA <= amountA * reserveB < (r.value + 1) * reserveA
  {
    if amountA == 0 then Err(ZeroAmount)
    else
      :- Ensure(reserveA != 0, InsufficientLiquidity);
      :- Ensure(reserveB != 0, InsufficientLiquidity);
      var product :- OrOverflow(CheckedMul(max, amountA, reserveB));
      OrOverflow(CheckedDiv(product, reserveA))
  }

  /** Quoting an amount across and quoting the result back never gives more
      than the amount started with. */
  lemma QuoteBackNeverGains(max: MaxBalance, amountA: nat, reserveA: nat, reserveB: nat)
    requires Quote(max, amountA, reserveA, reserveB).Ok?
    requires Quote(max, Quote(max, amountA, reserveA, reserveB).value, reserveB, reserveA).Ok?
    ensures Quote(max, Quote(max, amountA, reserveA, reserveB).value, reserveB, reserveA).value <= amountA
  {
    var b := Quote(max, amountA, reserveA, reserveB).value;
    var back := Quote(max, b, reserveB, reserveA).value;
    // back * rb <= b * ra <= a * rb
    assert back * reserveB <= b * reserveA;
    assert b * reserveA <= amountA * reserveB;
    MulCancel(back, amountA, reserveB);
  }

  // ---------------------------------------------------------------------
  // get_amount_out

  /** The fee, in basis points kept from the input: 10000 - 25. */
  const FEE_KEPT: nat := 9975
  const FEE_SCALE: nat := 10000

  /** The swap price with the 0.25% fee, as the exact rational the floor is
      taken of: numerator over denominator. */
  function OutNumerator(amountIn: nat, reserveOut: nat): nat
  {
    amountIn * FEE_KEPT * reserveOut
  }

  function OutDenominator(amountIn: nat, reserveIn: nat): nat
  {
    reserveIn * FEE_SCALE + amountIn * FEE_KEPT
  }

  /** `get_amount_out`: the constant-product output for `amountIn` after the
      fee, rounded down; `ZeroAmount` for no input, `InsufficientLiquidity`
      for an empty reserve, `Overflow` when an intermediate product or sum
      does not fit in a `Balance`. */
  function GetAmountOut(max: MaxBalance, amountIn: nat, reserveIn: nat, reserveOut: nat): (r: AmmResult<nat>)
    ensures amountIn == 0 ==> r == Err(ZeroAmount)
    ensures amountIn != 0 && (reserveIn == 0 || reserveOut == 0) ==> r == Err(InsufficientLiquidity)
    ensures amountIn != 0 && reserveIn != 0 && reserveOut != 0 ==>
              (r.Ok? <==> OutNumerator(amountIn, reserveOut) <= max && reserveIn * FEE_SCALE <= max
                          && OutDenominator(amountIn, reserveIn) <= max)
              && (r.Err? ==> r.error == Overflow)
    ensures r.Ok? ==> r.value * OutDenominator(amountIn, reserveIn) <= OutNumerator(amountIn, reserveOut)
                        < (r.value + 1) * OutDenominator(amountIn, reserveIn)
  {
    if amountIn == 0 then Err(ZeroAmount)
    else
      :- Ensure(reserveIn != 0, InsufficientLiquidity);
      :- Ensure(reserveOut != 0, InsufficientLiquidity);
      var amountInWithFee :- OrOverflow(CheckedMul(max, amountIn, FEE_KEPT));
      var numerator :- OrOverflow(CheckedMul(max, amountInWithFee, reserveOut));
      var scaled :- OrOverflow(CheckedMul(max, reserveIn, FEE_SCALE));
      var denominator :- OrOverflow(CheckedAdd(max, scaled, amountInWithFee));
      // The numerator fits, so the fee-scaled input alone fits too.
      assert amountIn * FEE_KEPT <= OutNumerator(amountIn, reserveOut) by {
        MulMonotone(1, reserveOut, amountIn * FEE_KEPT);
      }
      OrOverflow(CheckedDiv(numerator, denominator))
  }

  /** The output is below the out-reserve, so the swap cannot drain it. */
  lemma AmountOutBelowReserve(max: MaxBalance, amountIn: nat, reserveIn: nat, reserveOut: nat)
    requires GetAmountOut(max, amountIn, reserveIn, reserveOut).Ok?
    ensures GetAmountOut(max, amountIn, reserveIn, reserveOut).value < reserveOut
  {
    var out := GetAmountOut(max, amountIn, reserveIn, reserveOut).value;
    var d := OutDenominator(amountIn, reserveIn);
    var w := amountIn * FEE_KEPT;
    assert w < d;
    MulStrictMonotone(w, d, reserveOut);
    assert OutNumerator(amountIn, reserveOut) == w * reserveOut;
    MulCancelStrict(out, reserveOut, d);
  }

  /** The fee only lowers the output: what the swap pays is at most what
      the fee-free constant-product price `a * rout / (rin + a)` would. */
  lemma AmountOutBelowFeeFree(max: MaxBalance, amountIn: nat, reserveIn: nat, reserveOut: nat)
    requires GetAmountOut(max, amountIn, reserveIn, reserveOut).Ok?
    ensures GetAmountOut(max, amountIn, reserveIn, reserveOut).value * (reserveIn + amountIn)
         <= amountIn * reserveOut
  {
    var out := GetAmountOut(max, amountIn, reserveIn, reserveOut).value;
    var d := OutDenominator(amountIn, reserveIn);
    var lhs := out * (reserveIn + amountIn);
    assert FEE_KEPT * (reserveIn + amountIn) <= d;
    MulMonotone(FEE_KEPT * (reserveIn + amountIn), d, out);
    assert lhs * FEE_KEPT == out * (FEE_KEPT * (reserveIn + amountIn));
    assert OutNumerator(amountIn, reserveOut) == (amountIn * reserveOut) * FEE_KEPT;
    MulCancel(lhs, amountIn * reserveOut, FEE_KEPT);
  }

  /** The reserves after a swap have at least the product they had before. */
  lemma SwapKeepsProduct(max: MaxBalance, amountIn: nat, reserveIn: nat, reserveOut: nat)
    requires GetAmountOut(max, amountIn, reserveIn, reserveOut).Ok?
    ensures GetAmountOut(max, amountIn, reserveIn, reserveOut).value <= reserveOut
    ensures (reserveIn + amountIn) * (reserveOut - GetAmountOut(max, amountIn, reserveIn, reserveOut).value)
         >= reserveIn * reserveOut
  {
    var out := GetAmountOut(max, amountIn, reserveIn, reserveOut).value;
    AmountOutBelowReserve(max, amountIn, reserveIn, reserveOut);
    AmountOutBelowFeeFree(max, amountIn, reserveIn, reserveOut);
    var s := reserveIn + amountIn;
    assert s * (reserveOut - out) == s * reserveOut - s * out;
    assert s * reserveOut == reserveIn * reserveOut + amountIn * reserveOut;
  }

  // ---------------------------------------------------------------------
  // verify_invariant

  /** `verify_invariant`: the product of the new reserves must be at least
      the product of the old; either product overflowing is `Overflow`. */
  function VerifyInvariant(max: MaxBalance, reserve0: nat, reserve1: nat, oldIn: nat, oldOut: nat): (c: Check)
    ensures c == Pass <==> oldIn * oldOut <= max && reserve0 * reserve1 <= max
                           && reserve0 * reserve1 >= oldIn * oldOut
    ensures c.Fail? ==> (c.error == InvariantViolated <==> oldIn * oldOut <= max && reserve0 * reserve1 <= max)
    ensures c.Fail? ==> c.error in {InvariantViolated, Overflow}
  {
    match (CheckedMul(max, oldIn, oldOut), CheckedMul(max, reserve0, reserve1))
    case (None, _) => Fail(Overflow)
    case (_, None) => Fail(Overflow)
    case (Some(oldK), Some(newK)) => Ensure(newK >= oldK, InvariantViolated)
  }
}
