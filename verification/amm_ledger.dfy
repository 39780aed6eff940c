/** LP-token conservation in the `simple-amm` pallet: the LP balances held
    in a pool add up to the pool's `total_supply`, and no balance is stored
    for an id without a pool. The calls preserve it, except `create_pool`
    once its counter has saturated. */
module AmmLedger {
  import opened AmmMath
  import opened Amm

  /** The sum of the balances in a ledger. */
  ghost function Sum(m: Ledger): nat
    decreases |m.Keys|
  {
    if m == map[] then 0
    else
      var k :| k in m;
      m[k] + Sum(m - {k})
  }

  /** The sum may be taken apart at any key. */
  lemma {:induction false} SumRemove(m: Ledger, k: AccountId)
    requires k in m
    ensures Sum(m) == m[k] + Sum(m - {k})
    decreases |m.Keys|
  {
    var j :| j in m && Sum(m) == m[j] + Sum(m - {j});
    if j != k {
      assert |(m - {j}).Keys| < |m.Keys| by {
        assert m.Keys == (m - {j}).Keys + {j};
      }
      assert |(m - {k}).Keys| < |m.Keys| by {
        assert m.Keys == (m - {k}).Keys + {k};
      }
      SumRemove(m - {j}, k);
      SumRemove(m - {k}, j);
      assert m - {j} - {k} == m - {k} - {j};
    }
  }

  /** Setting one balance changes the sum by the difference. */
  lemma SumUpdate(m: Ledger, k: AccountId, v: nat)
    ensures Sum(m[k := v]) + (if k in m then m[k] else 0) == Sum(m) + v
  {
    SumRemove(m[k := v], k);
    assert m[k := v] - {k} == m - {k};
    if k in m {
      SumRemove(m, k);
    } else {
      assert m - {k} == m;
    }
  }

  /** Crediting `lp` to one balance raises the sum by `lp`. */
  lemma SumCredit(m: Ledger, k: AccountId, balance: nat, lp: nat)
    requires balance == if k in m then m[k] else 0
    ensures Sum(m[k := balance + lp]) == Sum(m) + lp
  {
    SumUpdate(m, k, balance + lp);
  }

  /** No single balance exceeds the sum. */
  lemma BalanceBelowSum(s: AmmState, id: PoolId, who: AccountId)
    ensures LpBalance(s, id, who) <= Sum(LedgerOf(s, id))
  {
    if who in LedgerOf(s, id) {
      SumRemove(LedgerOf(s, id), who);
    }
  }

  /** The conservation invariant. */
  ghost predicate LpConserved(s: AmmState)
  {
    forall id :: Sum(LedgerOf(s, id)) == if id in s.pools then s.pools[id].totalSupply else 0
  }

  lemma GenesisConserved()
    ensures LpConserved(Genesis())
  {
    forall id ensures Sum(LedgerOf(Genesis(), id)) == 0 {
    }
  }

  /** Every LP balance is covered by its pool's supply. */
  lemma ConservedBalanceBelowSupply(s: AmmState, id: PoolId, who: AccountId)
    requires LpConserved(s)
    ensures LpBalance(s, id, who) <= if id in s.pools then s.pools[id].totalSupply else 0
  {
    BalanceBelowSum(s, id, who);
  }

  lemma SwapConserves(max: MaxBalance, s: AmmState, poolId: PoolId, tokenIn: AssetId, amountIn: nat, amountOutMin: nat)
    requires LpConserved(s)
    ensures LpConserved(Swap(max, s, poolId, tokenIn, amountIn, amountOutMin).0)
  {
    var s' := Swap(max, s, poolId, tokenIn, amountIn, amountOutMin).0;
    forall id ensures Sum(LedgerOf(s', id)) == if id in s'.pools then s'.pools[id].totalSupply else 0 {
      assert LedgerOf(s', id) == LedgerOf(s, id);
    }
  }

  /** Under conservation the caller's LP credit in `add_liquidity` always
      fits, so it is never skipped, and conservation is kept. */
  lemma AddLiquidityConserves(max: MaxBalance, s: AmmState, who: AccountId, poolId: PoolId,
                              amount0Desired: nat, amount1Desired: nat, amount0Min: nat, amount1Min: nat)
    requires LpConserved(s)
    ensures var r := AddLiquidity(max, s, who, poolId, amount0Desired, amount1Desired, amount0Min, amount1Min);
            r.1.Ok? ==> LpBalance(r.0, poolId, who) == LpBalance(s, poolId, who) + r.1.value.lpTokens
    ensures LpConserved(AddLiquidity(max, s, who, poolId, amount0Desired, amount1Desired, amount0Min, amount1Min).0)
  {
    var r := AddLiquidity(max, s, who, poolId, amount0Desired, amount1Desired, amount0Min, amount1Min);
    if r.1.Ok? {
      var lp := r.1.value.lpTokens;
      BalanceBelowSum(s, poolId, who);
      CreditedLedger(max, s, who, poolId, amount0Desired, amount1Desired, amount0Min, amount1Min);
      CreditConserves(s, r.0, poolId, who, lp);
    }
  }

  /** A state that differs from a conserving one only by `lp` more supply in
      one pool and `lp` more in one of its balances is conserving too. */
  lemma CreditConserves(s: AmmState, s': AmmState, poolId: PoolId, who: AccountId, lp: nat)
    requires LpConserved(s)
    requires poolId in s.pools && s'.pools.Keys == s.pools.Keys
    requires s'.pools[poolId].totalSupply == s.pools[poolId].totalSupply + lp
    requires forall id :: id in s.pools && id != poolId ==> s'.pools[id] == s.pools[id]
    requires LedgerOf(s', poolId) == LedgerOf(s, poolId)[who := LpBalance(s, poolId, who) + lp]
    requires forall i: PoolId :: i != poolId ==> LedgerOf(s', i) == LedgerOf(s, i)
    ensures LpConserved(s')
  {
    var L := LedgerOf(s, poolId);
    assert Sum(L) == s.pools[poolId].totalSupply;
    SumCredit(L, who, LpBalance(s, poolId, who), lp);
    forall id ensures Sum(LedgerOf(s', id)) == if id in s'.pools then s'.pools[id].totalSupply else 0 {
      if id != poolId {
        assert LedgerOf(s', id) == LedgerOf(s, id);
      }
    }
  }

  /** The pool's ledger after a deposit whose credit fits. */
  lemma CreditedLedger(max: MaxBalance, s: AmmState, who: AccountId, poolId: PoolId,
                       amount0Desired: nat, amount1Desired: nat, amount0Min: nat, amount1Min: nat)
    requires AddLiquidity(max, s, who, poolId, amount0Desired, amount1Desired, amount0Min, amount1Min).1.Ok?
    requires LpBalance(s, poolId, who)
             + AddLiquidity(max, s, who, poolId, amount0Desired, amount1Desired, amount0Min, amount1Min).1.value.lpTokens
             <= max
    ensures var r := AddLiquidity(max, s, who, poolId, amount0Desired, amount1Desired, amount0Min, amount1Min);
            LedgerOf(r.0, poolId) == LedgerOf(s, poolId)[who := LpBalance(s, poolId, who) + r.1.value.lpTokens]
  {
  }

  lemma RemoveLiquidityConserves(max: MaxBalance, s: AmmState, who: AccountId, poolId: PoolId,
                                 lpTokens: nat, amount0Min: nat, amount1Min: nat)
    requires LpConserved(s)
    ensures LpConserved(RemoveLiquidity(max, s, who, poolId, lpTokens, amount0Min, amount1Min).0)
  {
    var r := RemoveLiquidity(max, s, who, poolId, lpTokens, amount0Min, amount1Min);
    if r.1.Ok? {
      var L := LedgerOf(s, poolId);
      var bal := LpBalance(s, poolId, who);
      assert LedgerOf(r.0, poolId) == L[who := bal - lpTokens];
      SumUpdate(L, who, bal - lpTokens);
      forall id ensures Sum(LedgerOf(r.0, id)) == if id in r.0.pools then r.0.pools[id].totalSupply else 0 {
        if id != poolId {
          assert LedgerOf(r.0, id) == LedgerOf(s, id);
        }
      }
    }
  }

  /** The corrected `create_pool` keeps conservation: a free id has no
      balances, and the new pool has no supply. */
  lemma CreatePoolFreshConserves(s: AmmState, token0: AssetId, token1: AssetId)
    requires LpConserved(s)
    ensures LpConserved(CreatePoolFresh(s, token0, token1).0)
  {
    var s' := CreatePoolFresh(s, token0, token1).0;
    forall id ensures Sum(LedgerOf(s', id)) == if id in s'.pools then s'.pools[id].totalSupply else 0 {
      assert LedgerOf(s', id) == LedgerOf(s, id);
    }
  }

  /** `create_pool` as written breaks conservation: with the counter
      saturated and a funded pool at id `u32::MAX`, the new empty pool
      replaces it and the holders' balances are left without supply. */
  lemma CreatePoolBreaksConservation()
    ensures var s := AmmState(map[POOL_ID_MAX := Pool(1, 2, 10, 10, 10)], map[POOL_ID_MAX := map[7 := 10]], POOL_ID_MAX);
            LpConserved(s) && !LpConserved(CreatePool(s, 1, 2).0)
  {
    var s := AmmState(map[POOL_ID_MAX := Pool(1, 2, 10, 10, 10)], map[POOL_ID_MAX := map[7 := 10]], POOL_ID_MAX);
    var l: Ledger := map[7 := 10];
    SumRemove(l, 7);
    assert l - {7} == map[];
    forall id ensures Sum(LedgerOf(s, id)) == if id in s.pools then s.pools[id].totalSupply else 0 {
      if id != POOL_ID_MAX {
        assert LedgerOf(s, id) == map[];
      }
    }
    var s' := CreatePool(s, 1, 2).0;
    assert LedgerOf(s', POOL_ID_MAX) == l;
    assert s'.pools[POOL_ID_MAX].totalSupply == 0;
  }
}
