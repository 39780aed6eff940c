/** The storage and dispatchable calls of the `simple-amm` pallet: pools by
    id, LP-token balances by pool and account, and the pool-id counter.
    Every call is a function from the storage before to the storage after
    and the call's result. A failing call leaves storage as it was, which the
    pallet achieves by raising every error before its first write. The
    caller (`ensure_signed`) is an account parameter; events are left out,
    and the values a call reports in its event are its `Ok` value here. */
module Amm {
  import CryptoTypes
  import opened NatArith
  import opened AmmMath

  type PoolId = CryptoTypes.uint32
  type AssetId = nat
  type AccountId = nat

  const POOL_ID_MAX: PoolId := 0xFFFF_FFFF

  datatype Pool = Pool(token0: AssetId, token1: AssetId, reserve0: nat, reserve1: nat, totalSupply: nat)

  /** The LP balances of one pool, by account; a missing account holds 0. */
  type Ledger = map<AccountId, nat>

  datatype AmmState = AmmState(
    pools: map<PoolId, Pool>,
    lpBalances: map<PoolId, Ledger>,
    nextPoolId: PoolId)

  function Genesis(): (s: AmmState)
    ensures |s.pools| == 0 && s.nextPoolId == 0
  {
    AmmState(map[], map[], 0)
  }

  function LedgerOf(s: AmmState, id: PoolId): Ledger
  {
    if id in s.lpBalances then s.lpBalances[id] else map[]
  }

  /** `LpBalances::get`: a value query, 0 when nothing is stored. */
  function LpBalance(s: AmmState, id: PoolId, who: AccountId): nat
  {
    if who in LedgerOf(s, id) then LedgerOf(s, id)[who] else 0
  }

  function SetLpBalance(s: AmmState, id: PoolId, who: AccountId, v: nat): (s': AmmState)
    ensures LpBalance(s', id, who) == v
    ensures forall i: PoolId, a: AccountId :: (i, a) != (id, who) ==> LpBalance(s', i, a) == LpBalance(s, i, a)
    ensures s'.pools == s.pools && s'.nextPoolId == s.nextPoolId
    ensures LedgerOf(s', id) == LedgerOf(s, id)[who := v]
    ensures forall i: PoolId :: i != id ==> LedgerOf(s', i) == LedgerOf(s, i)
  {
    s.(lpBalances := s.lpBalances[id := LedgerOf(s, id)[who := v]])
  }

  // ---------------------------------------------------------------------
  // create_pool

  /** `create_pool`: an empty pool stored under the counter's id, and the
      counter advanced with `saturating_add(1)`. No check is made that the
      id is free. Returns the new pool's id. */
  function CreatePool(s: AmmState, token0: AssetId, token1: AssetId): (r: (AmmState, PoolId))
    ensures r.1 == s.nextPoolId
    ensures r.0.pools == s.pools[r.1 := Pool(token0, token1, 0, 0, 0)]
    ensures r.0.nextPoolId == if s.nextPoolId < POOL_ID_MAX then s.nextPoolId + 1 else POOL_ID_MAX
    ensures r.0.lpBalances == s.lpBalances
  {
    var id := s.nextPoolId;
    var next := if id + 1 < CryptoTypes.U32_LIMIT then id + 1 else POOL_ID_MAX;
    (s.(pools := s.pools[id := Pool(token0, token1, 0, 0, 0)], nextPoolId := next), id)
  }

  /** Once the counter has saturated, every further `create_pool` lands on
      id `u32::MAX` again and replaces the pool stored there, reserves and
      supply included, while its LP balances stay behind. */
  lemma CreatePoolOverwritesAtSaturation(s: AmmState, token0: AssetId, token1: AssetId)
    requires s.nextPoolId == POOL_ID_MAX && POOL_ID_MAX in s.pools
    ensures CreatePool(s, token0, token1).1 == POOL_ID_MAX
    ensures CreatePool(s, token0, token1).0.nextPoolId == POOL_ID_MAX
    ensures CreatePool(s, token0, token1).0.pools[POOL_ID_MAX] == Pool(token0, token1, 0, 0, 0)
    ensures forall who :: LpBalance(CreatePool(s, token0, token1).0, POOL_ID_MAX, who)
                       == LpBalance(s, POOL_ID_MAX, who)
  {
  }

  /** `create_pool` as its counter evidently intends: the id must be free,
      else `PoolAlreadyExists` (the variant the pallet declares for this);
      the counter still saturates. */
  function CreatePoolFresh(s: AmmState, token0: AssetId, token1: AssetId): (r: (AmmState, AmmResult<PoolId>))
    ensures s.nextPoolId in s.pools <==> r.1.Err?
    ensures r.1.Err? ==> r.0 == s && r.1.error == PoolAlreadyExists
    ensures r.1.Ok? ==> r.1.value !in s.pools && r.0 == CreatePool(s, token0, token1).0
  {
    if s.nextPoolId in s.pools then (s, Err(PoolAlreadyExists))
    else
      var (s', id) := CreatePool(s, token0, token1);
      (s', Ok(id))
  }

  // ---------------------------------------------------------------------
  // swap

  /** The (in, out) reserves for a swap paying in `tokenIn`; `token0` is
      compared first. */
  function Direction(pool: Pool, tokenIn: AssetId): (r: AmmResult<(nat, nat)>)
    ensures r.Ok? <==> tokenIn == pool.token0 || tokenIn == pool.token1
    ensures r.Err? ==> r.error == PoolNotFound
    ensures tokenIn == pool.token0 ==> r == Ok((pool.reserve0, pool.reserve1))
    ensures tokenIn != pool.token0 && tokenIn == pool.token1 ==> r == Ok((pool.reserve1, pool.reserve0))
  {
    if tokenIn == pool.token0 then Ok((pool.reserve0, pool.reserve1))
    else if tokenIn == pool.token1 then Ok((pool.reserve1, pool.reserve0))
    else Err(PoolNotFound)
  }

  /** The reserve update of `swap`: the input added to one side with
      `checked_add`, the output taken from the other with `checked_sub`. */
  function Rebalance(max: MaxBalance, pool: Pool, inIsToken0: bool, amountIn: nat, amountOut: nat): AmmResult<Pool>
  {
    if inIsToken0 then
      var r0 :- OrOverflow(CheckedAdd(max, pool.reserve0, amountIn));
      var r1 :- OrOverflow(CheckedSub(pool.reserve1, amountOut));
      Ok(pool.(reserve0 := r0, reserve1 := r1))
    else
      var r1 :- OrOverflow(CheckedAdd(max, pool.reserve1, amountIn));
      var r0 :- OrOverflow(CheckedSub(pool.reserve0, amountOut));
      Ok(pool.(reserve0 := r0, reserve1 := r1))
  }

  /** The body of `swap` once the pool is loaded: the updated pool and the
      amount paid out. */
  function SwapPool(max: MaxBalance, pool: Pool, tokenIn: AssetId, amountIn: nat, amountOutMin: nat)
    : (r: AmmResult<(Pool, nat)>)
    ensures Direction(pool, tokenIn).Err? ==> r == Err(PoolNotFound)
    ensures Direction(pool, tokenIn).Ok? ==>
              var (rin, rout) := Direction(pool, tokenIn).value;
              var q := GetAmountOut(max, amountIn, rin, rout);
              && (q.Err? ==> r == Err(q.error))
              && (q.Ok? && q.value < amountOutMin ==> r == Err(SlippageExceeded))
              && (q.Ok? && q.value >= amountOutMin && rin + amountIn > max ==> r == Err(Overflow))
              && (q.Ok? && q.value >= amountOutMin && rin + amountIn <= max ==>
                    (r.Ok? <==> rin * rout <= max && (rin + amountIn) * (rout - q.value) <= max)
                    && (r.Err? ==> r == Err(Overflow)))
    ensures r.Ok? ==>
              var (p', out) := r.value;
              && out >= amountOutMin
              && p'.token0 == pool.token0 && p'.token1 == pool.token1 && p'.totalSupply == pool.totalSupply
              && (tokenIn == pool.token0 ==>
                    GetAmountOut(max, amountIn, pool.reserve0, pool.reserve1) == Ok(out)
                    && p'.reserve0 == pool.reserve0 + amountIn && p'.reserve1 + out == pool.reserve1)
              && (tokenIn != pool.token0 ==>
                    tokenIn == pool.token1
                    && GetAmountOut(max, amountIn, pool.reserve1, pool.reserve0) == Ok(out)
                    && p'.reserve1 == pool.reserve1 + amountIn && p'.reserve0 + out == pool.reserve0)
              && p'.reserve0 * p'.reserve1 >= pool.reserve0 * pool.reserve1
  {
    var reserves :- Direction(pool, tokenIn);
    var amountOut :- GetAmountOut(max, amountIn, reserves.0, reserves.1);
    :- Ensure(amountOut >= amountOutMin, SlippageExceeded);
    var updated :- Settle(max, pool, tokenIn == pool.token0, amountIn, amountOut, reserves.0, reserves.1);
    Ok((updated, amountOut))
  }

  /** The last two steps of `swap`: the reserve update, then
      `verify_invariant` against the reserves before it. With the input
      reserve in range it fails only when the old or the new product leaves
      the balance range, and then with `Overflow`. */
  function Settle(max: MaxBalance, pool: Pool, inIsToken0: bool, amountIn: nat, amountOut: nat, rin: nat, rout: nat)
    : (r: AmmResult<Pool>)
    requires rin == (if inIsToken0 then pool.reserve0 else pool.reserve1)
    requires rout == (if inIsToken0 then pool.reserve1 else pool.reserve0)
    requires GetAmountOut(max, amountIn, rin, rout) == Ok(amountOut)
    ensures rin + amountIn > max ==> r == Err(Overflow)
    ensures rin + amountIn <= max ==>
              && (r.Ok? <==> rin * rout <= max && (rin + amountIn) * (rout - amountOut) <= max)
              && (r.Err? ==> r == Err(Overflow))
    ensures r.Ok? ==>
              && r.value.token0 == pool.token0 && r.value.token1 == pool.token1
              && r.value.totalSupply == pool.totalSupply
              && (inIsToken0 ==> r.value.reserve0 == pool.reserve0 + amountIn && r.value.reserve1 + amountOut == pool.reserve1)
              && (!inIsToken0 ==> r.value.reserve1 == pool.reserve1 + amountIn && r.value.reserve0 + amountOut == pool.reserve0)
              && r.value.reserve0 * r.value.reserve1 >= pool.reserve0 * pool.reserve1
  {
    assert rin + amountIn <= max ==> PricedRebalanceFits(max, pool, inIsToken0, amountIn, rin, rout) by {
      if rin + amountIn <= max {
        PricedRebalance(max, pool, inIsToken0, amountIn, rin, rout);
      }
    }
    assert pool.reserve0 * pool.reserve1 == rin * rout;
    var updated :- Rebalance(max, pool, inIsToken0, amountIn, amountOut);
    :- VerifyInvariant(max, updated.reserve0, updated.reserve1, rin, rout);
    Ok(updated)
  }

  /** `swap`: pays `amountIn` of `tokenIn` into the pool and takes out the
      priced amount of the other token. Returns the amount out. */
  function Swap(max: MaxBalance, s: AmmState, poolId: PoolId, tokenIn: AssetId, amountIn: nat, amountOutMin: nat)
    : (r: (AmmState, AmmResult<nat>))
    ensures r.1.Err? ==> r.0 == s
    ensures amountIn == 0 ==> r.1 == Err(ZeroAmount)
    ensures amountIn != 0 && poolId !in s.pools ==> r.1 == Err(PoolNotFound)
    ensures amountIn != 0 && poolId in s.pools
            && tokenIn != s.pools[poolId].token0 && tokenIn != s.pools[poolId].token1
            ==> r.1 == Err(PoolNotFound)
    ensures amountIn != 0 && poolId in s.pools && Direction(s.pools[poolId], tokenIn).Ok? ==>
              var (rin, rout) := Direction(s.pools[poolId], tokenIn).value;
              var q := GetAmountOut(max, amountIn, rin, rout);
              && (q.Err? ==> r.1 == Err(q.error))
              && (q.Ok? && q.value < amountOutMin ==> r.1 == Err(SlippageExceeded))
              && (q.Ok? && q.value >= amountOutMin && rin + amountIn > max ==> r.1 == Err(Overflow))
              && (q.Ok? && q.value >= amountOutMin && rin + amountIn <= max ==>
                    (r.1.Ok? <==> rin * rout <= max && (rin + amountIn) * (rout - q.value) <= max)
                    && (r.1.Err? ==> r.1 == Err(Overflow)))
    ensures r.1.Ok? ==> poolId in s.pools && r.0.pools.Keys == s.pools.Keys
    ensures r.1.Ok? ==>
              var p := s.pools[poolId];
              var p' := r.0.pools[poolId];
              var out := r.1.value;
              && out >= amountOutMin
              && p'.token0 == p.token0 && p'.token1 == p.token1 && p'.totalSupply == p.totalSupply
              && (tokenIn == p.token0 ==>
                    GetAmountOut(max, amountIn, p.reserve0, p.reserve1) == Ok(out)
                    && p'.reserve0 == p.reserve0 + amountIn && p'.reserve1 + out == p.reserve1)
              && (tokenIn != p.token0 ==>
                    tokenIn == p.token1
                    && GetAmountOut(max, amountIn, p.reserve1, p.reserve0) == Ok(out)
                    && p'.reserve1 == p.reserve1 + amountIn && p'.reserve0 + out == p.reserve0)
              && p'.reserve0 * p'.reserve1 >= p.reserve0 * p.reserve1
    ensures r.1.Ok? ==> forall id :: id in s.pools && id != poolId ==> r.0.pools[id] == s.pools[id]
    ensures r.1.Ok? ==> r.0.lpBalances == s.lpBalances && r.0.nextPoolId == s.nextPoolId
  {
    if amountIn == 0 then (s, Err(ZeroAmount))
    else if poolId !in s.pools then (s, Err(PoolNotFound))
    else
      match SwapPool(max, s.pools[poolId], tokenIn, amountIn, amountOutMin)
      case Ok(res) => (s.(pools := s.pools[poolId := res.0]), Ok(res.1))
      case Err(e) => (s, Err(e))
  }

  /** The pallet's own product check never fires: a priced swap always keeps
      the product, so `swap` never fails with `InvariantViolated`. */
  lemma SwapNeverViolatesInvariant(max: MaxBalance, s: AmmState, poolId: PoolId, tokenIn: AssetId,
                                   amountIn: nat, amountOutMin: nat)
    ensures Swap(max, s, poolId, tokenIn, amountIn, amountOutMin).1 != Err(InvariantViolated)
  {
    if amountIn != 0 && poolId in s.pools {
      var pool := s.pools[poolId];
      var out0 := GetAmountOut(max, amountIn, pool.reserve0, pool.reserve1);
      var out1 := GetAmountOut(max, amountIn, pool.reserve1, pool.reserve0);
      if tokenIn == pool.token0 && out0.Ok? && Rebalance(max, pool, true, amountIn, out0.value).Ok? {
        RebalanceKeepsProduct(max, pool, true, amountIn, pool.reserve0, pool.reserve1);
      } else if tokenIn != pool.token0 && tokenIn == pool.token1 && out1.Ok?
                && Rebalance(max, pool, false, amountIn, out1.value).Ok? {
        RebalanceKeepsProduct(max, pool, false, amountIn, pool.reserve1, pool.reserve0);
      }
    }
  }

  /** What a priced swap's rebalance yields when the input side fits: no
      error, and new reserves whose product is that of the moved reserves and
      at least the old one. */
  ghost predicate PricedRebalanceFits(max: MaxBalance, pool: Pool, inIsToken0: bool, amountIn: nat, rin: nat, rout: nat)
    requires GetAmountOut(max, amountIn, rin, rout).Ok?
  {
    var out := GetAmountOut(max, amountIn, rin, rout).value;
    && out < rout
    && Rebalance(max, pool, inIsToken0, amountIn, out).Ok?
    && var u := Rebalance(max, pool, inIsToken0, amountIn, out).value;
       && u.reserve0 * u.reserve1 == (rin + amountIn) * (rout - out)
       && u.reserve0 * u.reserve1 >= rin * rout
  }

  /** A priced swap whose input reserve stays in range always rebalances,
      and never shrinks the product. */
  lemma PricedRebalance(max: MaxBalance, pool: Pool, inIsToken0: bool, amountIn: nat, rin: nat, rout: nat)
    requires rin == (if inIsToken0 then pool.reserve0 else pool.reserve1)
    requires rout == (if inIsToken0 then pool.reserve1 else pool.reserve0)
    requires GetAmountOut(max, amountIn, rin, rout).Ok?
    requires rin + amountIn <= max
    ensures PricedRebalanceFits(max, pool, inIsToken0, amountIn, rin, rout)
  {
    var out := GetAmountOut(max, amountIn, rin, rout).value;
    AmountOutBelowReserve(max, amountIn, rin, rout);
    SwapOutputSubtractionNeverFails(max, pool, amountIn, out, inIsToken0);
    RebalanceKeepsProduct(max, pool, inIsToken0, amountIn, rin, rout);
    var u := Rebalance(max, pool, inIsToken0, amountIn, out).value;
    assert u.reserve0 * u.reserve1 == (rin + amountIn) * (rout - out);
    assert pool.reserve0 * pool.reserve1 == rin * rout;
  }

  /** A priced swap rebalanced in either direction keeps the product. */
  lemma RebalanceKeepsProduct(max: MaxBalance, pool: Pool, inIsToken0: bool, amountIn: nat, rin: nat, rout: nat)
    requires rin == (if inIsToken0 then pool.reserve0 else pool.reserve1)
    requires rout == (if inIsToken0 then pool.reserve1 else pool.reserve0)
    requires GetAmountOut(max, amountIn, rin, rout).Ok?
    requires Rebalance(max, pool, inIsToken0, amountIn, GetAmountOut(max, amountIn, rin, rout).value).Ok?
    ensures var u := Rebalance(max, pool, inIsToken0, amountIn, GetAmountOut(max, amountIn, rin, rout).value).value;
            u.reserve0 * u.reserve1 >= pool.reserve0 * pool.reserve1
  {
    SwapKeepsProduct(max, amountIn, rin, rout);
    var out := GetAmountOut(max, amountIn, rin, rout).value;
    var u := Rebalance(max, pool, inIsToken0, amountIn, out).value;
    if inIsToken0 {
      assert u.reserve0 * u.reserve1 == (rin + amountIn) * (rout - out);
    } else {
      assert u.reserve0 * u.reserve1 == (rin + amountIn) * (rout - out);
      assert pool.reserve0 * pool.reserve1 == rin * rout;
    }
  }

  /** The output reserve never runs short: a swap that prices fails on
      slippage, an overflowing input reserve or an overflowing product, never
      on the output subtraction. */
  lemma SwapOutputSubtractionNeverFails(max: MaxBalance, pool: Pool, amountIn: nat, amountOut: nat, inIsToken0: bool)
    requires amountOut < (if inIsToken0 then pool.reserve1 else pool.reserve0)
    ensures Rebalance(max, pool, inIsToken0, amountIn, amountOut).Err?
        <==> (if inIsToken0 then pool.reserve0 else pool.reserve1) + amountIn > max
  {
  }

  // ---------------------------------------------------------------------
  // add_liquidity

  /** The amounts `add_liquidity` deposits: the desired amounts into an
      empty side, else the largest pair at the pool's ratio that fits the
      desired amounts, subject to the minimums. */
  function ChooseAmounts(max: MaxBalance, pool: Pool, amount0Desired: nat, amount1Desired: nat,
                         amount0Min: nat, amount1Min: nat): (r: AmmResult<(nat, nat)>)
    requires amount0Desired != 0 && amount1Desired != 0
    ensures pool.reserve0 == 0 || pool.reserve1 == 0 ==> r == Ok((amount0Desired, amount1Desired))
    ensures r.Ok? ==> r.value.0 <= amount0Desired && r.value.1 <= amount1Desired
    ensures r.Ok? && pool.reserve0 != 0 && pool.reserve1 != 0 ==>
              && (r.value.0 == amount0Desired ==> r.value.1 >= amount1Min)
              && (r.value.0 != amount0Desired ==> r.value.0 >= amount0Min && r.value.1 == amount1Desired)
    ensures r.Err? ==> r.error in {SlippageExceeded, Overflow}
    ensures r == Err(Overflow) ==> amount0Desired * pool.reserve1 > max || amount1Desired * pool.reserve0 > max
  {
    if pool.reserve0 == 0 || pool.reserve1 == 0 then Ok((amount0Desired, amount1Desired))
    else
      var amount1Optimal :- Quote(max, amount0Desired, pool.reserve0, pool.reserve1);
      if amount1Optimal <= amount1Desired then
        :- Ensure(amount1Optimal >= amount1Min, SlippageExceeded);
        Ok((amount0Desired, amount1Optimal))
      else
        MulMonotone(amount1Desired + 1, amount1Optimal, pool.reserve0);
        QuoteToken0(max, pool, amount0Desired, amount1Desired, amount0Min)
  }

  /** The second branch of the amount choice: token1 is taken at its desired
      amount and token0 is quoted against it. It is entered only when token1's
      desired amount is worth less than token0's, so the quote of token0 comes
      out strictly below its desired amount. */
  function QuoteToken0(max: MaxBalance, pool: Pool, amount0Desired: nat, amount1Desired: nat,
                       amount0Min: nat): (r: AmmResult<(nat, nat)>)
    requires amount1Desired != 0 && pool.reserve0 != 0 && pool.reserve1 != 0
    requires amount1Desired * pool.reserve0 < amount0Desired * pool.reserve1
    ensures r.Ok? ==> r.value.0 < amount0Desired && r.value.0 >= amount0Min && r.value.1 == amount1Desired
    ensures r.Err? ==> r.error == Overflow || r.error == SlippageExceeded
    ensures r == Err(Overflow) ==> amount1Desired * pool.reserve0 > max
  {
    var amount0Optimal :- Quote(max, amount1Desired, pool.reserve1, pool.reserve0);
    // The source's `Overflow` check that the quote does not exceed the
    // desired amount always passes, so it is not written out.
    assert amount0Optimal < amount0Desired by {
      MulCancelStrict(amount0Optimal, amount0Desired, pool.reserve1);
    }
    :- Ensure(amount0Optimal >= amount0Min, SlippageExceeded);
    Ok((amount0Optimal, amount1Desired))
  }

  /** With both reserves non-empty the chosen pair is at the pool's ratio:
      the side not taken at its desired amount is the quote of the other,
      rounded down. */
  lemma ChooseAmountsAtRatio(max: MaxBalance, pool: Pool, amount0Desired: nat, amount1Desired: nat,
                             amount0Min: nat, amount1Min: nat)
    requires amount0Desired != 0 && amount1Desired != 0
    requires pool.reserve0 != 0 && pool.reserve1 != 0
    requires ChooseAmounts(max, pool, amount0Desired, amount1Desired, amount0Min, amount1Min).Ok?
    ensures var (a0, a1) := ChooseAmounts(max, pool, amount0Desired, amount1Desired, amount0Min, amount1Min).value;
            (a0 == amount0Desired ==> a1 * pool.reserve0 <= a0 * pool.reserve1 < (a1 + 1) * pool.reserve0)
            && (a0 != amount0Desired ==> a0 * pool.reserve1 <= a1 * pool.reserve0 < (a0 + 1) * pool.reserve1)
  {
  }

  /** The LP tokens minted for a deposit: the mean of the amounts into a
      pool without supply, else the smaller of the two pro-rata shares. */
  function MintAmount(max: MaxBalance, pool: Pool, amount0: nat, amount1: nat): (r: AmmResult<nat>)
    ensures pool.totalSupply == 0 ==>
              (r.Ok? <==> amount0 + amount1 <= max)
              && (r.Ok? ==> r.value * 2 <= amount0 + amount1 < r.value * 2 + 2)
    ensures pool.totalSupply != 0 && r.Ok? ==>
              && r.value * pool.reserve0 <= amount0 * pool.totalSupply
              && r.value * pool.reserve1 <= amount1 * pool.totalSupply
              && ((r.value + 1) * pool.reserve0 > amount0 * pool.totalSupply
                  || (r.value + 1) * pool.reserve1 > amount1 * pool.totalSupply)
    ensures pool.totalSupply != 0 ==>
              (r.Ok? <==> amount0 * pool.totalSupply <= max && amount1 * pool.totalSupply <= max
                          && pool.reserve0 != 0 && pool.reserve1 != 0)
    ensures r.Err? ==> r.error == Overflow
  {
    if pool.totalSupply == 0 then
      var sum :- OrOverflow(CheckedAdd(max, amount0, amount1));
      OrOverflow(CheckedDiv(sum, 2))
    else
      var p0 :- OrOverflow(CheckedMul(max, amount0, pool.totalSupply));
      var lp0 :- OrOverflow(CheckedDiv(p0, pool.reserve0));
      var p1 :- OrOverflow(CheckedMul(max, amount1, pool.totalSupply));
      var lp1 :- OrOverflow(CheckedDiv(p1, pool.reserve1));
      Ok(if lp0 < lp1 then lp0 else lp1)
  }

  datatype Deposit = Deposit(amount0: nat, amount1: nat, lpTokens: nat)

  /** The body of `add_liquidity` up to the storage writes: the updated pool
      and what was deposited and minted. */
  function AddToPool(max: MaxBalance, pool: Pool, amount0Desired: nat, amount1Desired: nat,
                     amount0Min: nat, amount1Min: nat): (r: AmmResult<(Pool, Deposit)>)
    requires amount0Desired != 0 && amount1Desired != 0
    ensures r.Ok? ==>
              var (p', d) := r.value;
              && d.amount0 <= amount0Desired && d.amount1 <= amount1Desired
              && (pool.reserve0 == 0 || pool.reserve1 == 0 ==> d.amount0 == amount0Desired && d.amount1 == amount1Desired)
              && MintAmount(max, pool, d.amount0, d.amount1) == Ok(d.lpTokens)
              && p' == pool.(reserve0 := pool.reserve0 + d.amount0, reserve1 := pool.reserve1 + d.amount1,
                             totalSupply := pool.totalSupply + d.lpTokens)
              && p'.reserve0 <= max && p'.reserve1 <= max && p'.totalSupply <= max
  {
    var amounts :- ChooseAmounts(max, pool, amount0Desired, amount1Desired, amount0Min, amount1Min);
    var lpTokens :- MintAmount(max, pool, amounts.0, amounts.1);
    var r0 :- OrOverflow(CheckedAdd(max, pool.reserve0, amounts.0));
    var r1 :- OrOverflow(CheckedAdd(max, pool.reserve1, amounts.1));
    var supply :- OrOverflow(CheckedAdd(max, pool.totalSupply, lpTokens));
    Ok((pool.(reserve0 := r0, reserve1 := r1, totalSupply := supply), Deposit(amounts.0, amounts.1, lpTokens)))
  }

  /** `add_liquidity`: deposits into the pool and credits the minted LP
      tokens to the caller. The credit is skipped, without error, when the
      caller's balance would overflow; the pool's supply grows either way. */
  function AddLiquidity(max: MaxBalance, s: AmmState, who: AccountId, poolId: PoolId,
                        amount0Desired: nat, amount1Desired: nat, amount0Min: nat, amount1Min: nat)
    : (r: (AmmState, AmmResult<Deposit>))
    ensures r.1.Err? ==> r.0 == s
    ensures amount0Desired == 0 || amount1Desired == 0 ==> r.1 == Err(ZeroAmount)
    ensures amount0Desired != 0 && amount1Desired != 0 && poolId !in s.pools ==> r.1 == Err(PoolNotFound)
    ensures r.1.Ok? ==> poolId in s.pools && r.0.pools.Keys == s.pools.Keys
    ensures r.1.Ok? ==>
              var p := s.pools[poolId];
              var p' := r.0.pools[poolId];
              var d := r.1.value;
              && d.amount0 <= amount0Desired && d.amount1 <= amount1Desired
              && (p.reserve0 == 0 || p.reserve1 == 0 ==> d.amount0 == amount0Desired && d.amount1 == amount1Desired)
              && MintAmount(max, p, d.amount0, d.amount1) == Ok(d.lpTokens)
              && p'.token0 == p.token0 && p'.token1 == p.token1
              && p'.reserve0 == p.reserve0 + d.amount0 && p'.reserve1 == p.reserve1 + d.amount1
              && p'.totalSupply == p.totalSupply + d.lpTokens
              && p'.reserve0 <= max && p'.reserve1 <= max && p'.totalSupply <= max
    ensures r.1.Ok? ==>
              LpBalance(r.0, poolId, who)
                == if LpBalance(s, poolId, who) + r.1.value.lpTokens <= max
                   then LpBalance(s, poolId, who) + r.1.value.lpTokens
                   else LpBalance(s, poolId, who)
    ensures r.1.Ok? ==> forall i: PoolId, a: AccountId :: (i, a) != (poolId, who) ==> LpBalance(r.0, i, a) == LpBalance(s, i, a)
    ensures r.1.Ok? ==> forall id :: id in s.pools && id != poolId ==> r.0.pools[id] == s.pools[id]
    ensures r.1.Ok? ==> r.0.nextPoolId == s.nextPoolId
    ensures r.1.Ok? ==>
              LedgerOf(r.0, poolId)
                == if LpBalance(s, poolId, who) + r.1.value.lpTokens <= max
                   then LedgerOf(s, poolId)[who := LpBalance(s, poolId, who) + r.1.value.lpTokens]
                   else LedgerOf(s, poolId)
    ensures r.1.Ok? ==> forall i: PoolId :: i != poolId ==> LedgerOf(r.0, i) == LedgerOf(s, i)
  {
    if amount0Desired == 0 || amount1Desired == 0 then (s, Err(ZeroAmount))
    else if poolId !in s.pools then (s, Err(PoolNotFound))
    else
      match AddToPool(max, s.pools[poolId], amount0Desired, amount1Desired, amount0Min, amount1Min)
      case Err(e) => (s, Err(e))
      case Ok(res) =>
        var credited :=
          match CheckedAdd(max, LpBalance(s, poolId, who), res.1.lpTokens)
          case Some(b) => SetLpBalance(s, poolId, who, b)
          case None => s;
        (credited.(pools := credited.pools[poolId := res.0]), Ok(res.1))
  }

  // ---------------------------------------------------------------------
  // remove_liquidity

  datatype Withdrawal = Withdrawal(amount0: nat, amount1: nat)

  /** The body of `remove_liquidity` once the balance check has passed: the
      pro-rata amounts, the slippage checks and the pool update. */
  function RemoveFromPool(max: MaxBalance, pool: Pool, lpTokens: nat, amount0Min: nat, amount1Min: nat)
    : AmmResult<(Pool, Withdrawal)>
  {
    var p0 :- OrOverflow(CheckedMul(max, lpTokens, pool.reserve0));
    var amount0 :- OrOverflow(CheckedDiv(p0, pool.totalSupply));
    var p1 :- OrOverflow(CheckedMul(max, lpTokens, pool.reserve1));
    var amount1 :- OrOverflow(CheckedDiv(p1, pool.totalSupply));
    :- Ensure(amount0 >= amount0Min, SlippageExceeded);
    :- Ensure(amount1 >= amount1Min, SlippageExceeded);
    var r0 :- OrOverflow(CheckedSub(pool.reserve0, amount0));
    var r1 :- OrOverflow(CheckedSub(pool.reserve1, amount1));
    var supply :- OrOverflow(CheckedSub(pool.totalSupply, lpTokens));
    Ok((pool.(reserve0 := r0, reserve1 := r1, totalSupply := supply), Withdrawal(amount0, amount1)))
  }

  /** `remove_liquidity`: burns `lpTokens` of the caller's LP balance and
      takes the pro-rata share of both reserves out of the pool. */
  function RemoveLiquidity(max: MaxBalance, s: AmmState, who: AccountId, poolId: PoolId,
                           lpTokens: nat, amount0Min: nat, amount1Min: nat)
    : (r: (AmmState, AmmResult<Withdrawal>))
    ensures r.1.Err? ==> r.0 == s
    ensures lpTokens == 0 ==> r.1 == Err(ZeroAmount)
    ensures lpTokens != 0 && poolId !in s.pools ==> r.1 == Err(PoolNotFound)
    ensures lpTokens != 0 && poolId in s.pools && LpBalance(s, poolId, who) < lpTokens
            ==> r.1 == Err(InsufficientLpTokens)
    ensures r.1.Ok? ==> poolId in s.pools && r.0.pools.Keys == s.pools.Keys
    ensures r.1.Ok? ==>
              var p := s.pools[poolId];
              var p' := r.0.pools[poolId];
              var w := r.1.value;
              && w.amount0 >= amount0Min && w.amount1 >= amount1Min
              && w.amount0 * p.totalSupply <= lpTokens * p.reserve0 < (w.amount0 + 1) * p.totalSupply
              && w.amount1 * p.totalSupply <= lpTokens * p.reserve1 < (w.amount1 + 1) * p.totalSupply
              && p'.token0 == p.token0 && p'.token1 == p.token1
              && p'.reserve0 + w.amount0 == p.reserve0 && p'.reserve1 + w.amount1 == p.reserve1
              && p'.totalSupply + lpTokens == p.totalSupply
    ensures r.1.Ok? ==> LpBalance(r.0, poolId, who) + lpTokens == LpBalance(s, poolId, who)
    ensures r.1.Ok? ==> forall i: PoolId, a: AccountId :: (i, a) != (poolId, who) ==> LpBalance(r.0, i, a) == LpBalance(s, i, a)
    ensures r.1.Ok? ==> forall id :: id in s.pools && id != poolId ==> r.0.pools[id] == s.pools[id]
    ensures r.1.Ok? ==> r.0.nextPoolId == s.nextPoolId
  {
    if lpTokens == 0 then (s, Err(ZeroAmount))
    else if poolId !in s.pools then (s, Err(PoolNotFound))
    else if LpBalance(s, poolId, who) < lpTokens then (s, Err(InsufficientLpTokens))
    else
      match RemoveFromPool(max, s.pools[poolId], lpTokens, amount0Min, amount1Min)
      case Err(e) => (s, Err(e))
      case Ok(res) =>
        var debited :=
          match CheckedSub(LpBalance(s, poolId, who), lpTokens)
          case Some(b) => SetLpBalance(s, poolId, who, b)
          case None => s;
        (debited.(pools := debited.pools[poolId := res.0]), Ok(res.1))
  }

  /** Burning no more than the supply never takes more than a reserve holds. */
  lemma WithdrawalWithinReserves(max: MaxBalance, pool: Pool, lpTokens: nat, amount0Min: nat, amount1Min: nat)
    requires lpTokens <= pool.totalSupply
    requires lpTokens * pool.reserve0 <= max && lpTokens * pool.reserve1 <= max
    requires pool.totalSupply != 0
    ensures RemoveFromPool(max, pool, lpTokens, amount0Min, amount1Min).Err?
        ==> RemoveFromPool(max, pool, lpTokens, amount0Min, amount1Min).error == SlippageExceeded
  {
    ProRataBelow(lpTokens, pool.totalSupply, pool.reserve0);
    ProRataBelow(lpTokens, pool.totalSupply, pool.reserve1);
    var amount0 := CheckedDiv(lpTokens * pool.reserve0, pool.totalSupply).value;
    var amount1 := CheckedDiv(lpTokens * pool.reserve1, pool.totalSupply).value;
    assert CheckedSub(pool.reserve0, amount0).Some? && CheckedSub(pool.reserve1, amount1).Some?;
  }

  /** A share of at most the whole supply is at most the whole reserve. */
  lemma ProRataBelow(lpTokens: nat, supply: nat, reserve: nat)
    requires 0 < supply && lpTokens <= supply
    ensures (lpTokens * reserve) / supply <= reserve
  {
    var share := (lpTokens * reserve) / supply;
    DivFloor(lpTokens * reserve, supply);
    MulMonotone(lpTokens, supply, reserve);
    MulCancel(share, reserve, supply);
  }
}
