/** Exact order-size arithmetic of the TESTNET acceptance script
    (scripts/external/binance_testnet_acceptance.py), over the reals. */
module OrderSizing {
  import opened Base

  datatype Filters = Filters(
    tickSize: real, stepSize: real, minQty: real, maxQty: real, minNotional: real, maxNotional: Option<real>)

  datatype Error =
    | StepNotPositive
    | PriceNotPositive
    | UtilizationInvalid
    | MaxNotionalNotPositive
    | MinimumExceedsBudget
    | BelowMinimumQuantity
    | MinimumExceedsCap
    | DerivedNotionalExceedsCap
    | NoFreeBalance
    | NoPositiveCap

  // ---- rounding to a step ----

  /** ROUND_DOWN: towards zero. */
  function TowardsZero(x: real): int {
    if x >= 0.0 then x.Floor else -(-x).Floor
  }

  /** ROUND_UP: away from zero. */
  function AwayFromZero(x: real): int {
    if x >= 0.0 then -(-x).Floor else x.Floor
  }

  /** n steps. */
  function Multiple(n: int, step: real): real {
    n as real * step
  }

  /** _step_quantize */
  function StepQuantize(value: real, step: real, up: bool): Result<real, Error> {
    if step <= 0.0 then Err(StepNotPositive)
    else Ok(Multiple(if up then AwayFromZero(value / step) else TowardsZero(value / step), step))
  }

  ghost predicate WholeMultiple(q: real, step: real) {
    exists n: int :: q == Multiple(n, step)
  }

  lemma Monotone(a: real, b: real, c: real)
    requires c > 0.0
    ensures a <= b <==> a * c <= b * c
  {
    assert (b - a) * c == b * c - a * c;
  }

  lemma MultipleVersusQuotient(value: real, step: real, n: int)
    requires step > 0.0
    ensures n as real <= value / step <==> Multiple(n, step) <= value
    ensures n as real >= value / step <==> Multiple(n, step) >= value
  {
    var x := value / step;
    assert x * step == value;
    Monotone(n as real, x, step);
    Monotone(x, n as real, step);
  }

  lemma MultiplesInOrder(m: int, n: int, step: real)
    requires step > 0.0
    ensures m <= n <==> Multiple(m, step) <= Multiple(n, step)
    ensures Multiple(m + 1, step) == Multiple(m, step) + step
  {
    Monotone(m as real, n as real, step);
  }

  /** Rounding towards zero: the greatest multiple that is not greater, or for a
      negative value the least one that is not less. */
  lemma TowardsZeroIsNearest(value: real, step: real, n: int)
    requires step > 0.0
    ensures var d := TowardsZero(value / step);
            && (value >= 0.0 ==> Multiple(d, step) <= value && (Multiple(n, step) <= value <==> n <= d))
            && (value < 0.0 ==> value <= Multiple(d, step) && (value <= Multiple(n, step) <==> d <= n))
  {
    var d := TowardsZero(value / step);
    MultipleVersusQuotient(value, step, 0);
    MultipleVersusQuotient(value, step, d);
    MultipleVersusQuotient(value, step, n);
  }

  /** Rounding away from zero: the least multiple that is not less, or for a
      negative value the greatest one that is not greater. */
  lemma AwayFromZeroIsNearest(value: real, step: real, n: int)
    requires step > 0.0
    ensures var u := AwayFromZero(value / step);
            && (value >= 0.0 ==> value <= Multiple(u, step) && (value <= Multiple(n, step) <==> u <= n))
            && (value < 0.0 ==> Multiple(u, step) <= value && (Multiple(n, step) <= value <==> n <= u))
  {
    var u := AwayFromZero(value / step);
    MultipleVersusQuotient(value, step, 0);
    MultipleVersusQuotient(value, step, u);
    MultipleVersusQuotient(value, step, n);
  }

  // ---- the bounded quantity ----

  function Min(a: real, b: real): real {
    if a <= b then a else b
  }

  function Max(a: real, b: real): real {
    if a >= b then a else b
  }

  /** _effective_notional_cap */
  function EffectiveNotionalCap(filters: Filters, maxNotional: real): (r: Result<real, Error>)
    ensures r.Ok? <==> maxNotional > 0.0
    ensures r.Ok? ==> 0.0 < r.value <= maxNotional && (r.value == maxNotional || filters.maxNotional == Some(r.value))
    ensures r.Ok? && filters.maxNotional.Some? && filters.maxNotional.value > 0.0 ==> r.value <= filters.maxNotional.value
  {
    if maxNotional <= 0.0 then Err(MaxNotionalNotPositive)
    else if filters.maxNotional.Some? && filters.maxNotional.value > 0.0 then Ok(Min(maxNotional, filters.maxNotional.value))
    else Ok(maxNotional)
  }

  /** How the quantity was found: within the budget, or by the fallback to the
      minimum notional, which may raise it to the minimum quantity. */
  datatype Way = WithinBudget | MinimumNotional | RaisedToMinimum

  /** One step more than the quantity that the budget buys. */
  ghost predicate OneStepOver(q: real, budget: real, price: real, step: real) {
    exists n: int :: q == Multiple(n, step) && Multiple(n - 1, step) * price <= budget < q * price
  }

  lemma QuotientVersusProduct(q: real, value: real, price: real)
    requires price > 0.0
    ensures q <= value / price <==> q * price <= value
    ensures value / price <= q <==> value <= q * price
  {
    var x := value / price;
    assert x * price == value;
    Monotone(q, x, price);
    Monotone(x, q, price);
  }

  /** The steps that the budget buys. */
  function Bought(budget: real, price: real, step: real): int
    requires price > 0.0 && step > 0.0
  {
    TowardsZero(budget / price / step)
  }

  /** The steps in the quantity limit. */
  function Limit(maxQty: real, step: real): int
    requires step > 0.0
  {
    TowardsZero(maxQty / step)
  }

  /** The steps that are worth the minimum notional. */
  function Needed(minNotional: real, price: real, step: real): int
    requires price > 0.0 && step > 0.0
  {
    AwayFromZero(minNotional / price / step)
  }

  lemma BoughtIsGreatest(budget: real, price: real, step: real, n: int)
    requires budget > 0.0 && price > 0.0 && step > 0.0
    ensures Multiple(n, step) * price <= budget <==> n <= Bought(budget, price, step)
  {
    QuotientVersusProduct(0.0, budget, price);
    TowardsZeroIsNearest(budget / price, step, n);
    QuotientVersusProduct(Multiple(n, step), budget, price);
  }

  lemma LimitIsGreatest(maxQty: real, step: real, n: int)
    requires step > 0.0
    ensures Multiple(n, step) <= maxQty ==> n <= Limit(maxQty, step)
    ensures maxQty >= 0.0 && n <= Limit(maxQty, step) ==> Multiple(n, step) <= maxQty
  {
    TowardsZeroIsNearest(maxQty, step, n);
    MultiplesInOrder(n, Limit(maxQty, step), step);
  }

  lemma NeededIsLeast(minNotional: real, price: real, step: real, n: int)
    requires price > 0.0 && step > 0.0
    ensures minNotional >= 0.0 ==> (minNotional <= Multiple(n, step) * price <==> Needed(minNotional, price, step) <= n)
    ensures minNotional < 0.0 ==> (Multiple(n, step) * price <= minNotional <==> n <= Needed(minNotional, price, step))
  {
    QuotientVersusProduct(0.0, minNotional, price);
    AwayFromZeroIsNearest(minNotional / price, step, n);
    QuotientVersusProduct(Multiple(n, step), minNotional, price);
  }

  /** Between the quantity limits, and worth between the minimum notional and the cap. */
  ghost predicate Executable(q: real, f: Filters, price: real, cap: real) {
    && f.stepSize > 0.0 && WholeMultiple(q, f.stepSize) && f.minQty <= q
    && (f.maxQty >= 0.0 ==> q <= f.maxQty)
    && (f.minNotional >= 0.0 ==> f.minNotional <= q * price)
    && q * price <= cap
  }

  /** n steps are within both the budget and the limit. */
  ghost predicate Fits(n: int, f: Filters, price: real, budget: real) {
    Multiple(n, f.stepSize) * price <= budget && Multiple(n, f.stepSize) <= f.maxQty
  }

  /** n steps are worth the minimum notional. */
  ghost predicate Worth(n: int, f: Filters, price: real) {
    f.minNotional <= Multiple(n, f.stepSize) * price
  }

  /** No greater multiple is within both the budget and the limit. */
  ghost predicate Greatest(q: real, f: Filters, price: real, budget: real) {
    forall n: int {:trigger Fits(n, f, price, budget)} :: Fits(n, f, price, budget) ==> Multiple(n, f.stepSize) <= q
  }

  /** No multiple within budget and limit is executable. */
  ghost predicate NoneExecutable(f: Filters, price: real, budget: real) {
    forall n: int {:trigger Fits(n, f, price, budget)} ::
      Fits(n, f, price, budget) && f.minQty <= Multiple(n, f.stepSize) ==> !Worth(n, f, price)
  }

  /** No lesser multiple is worth the minimum notional. */
  ghost predicate Least(q: real, f: Filters, price: real) {
    forall n: int {:trigger Worth(n, f, price)} :: Worth(n, f, price) ==> q <= Multiple(n, f.stepSize)
  }

  function LeastInt(a: int, b: int): int {
    if a <= b then a else b
  }

  function StepsWithin(f: Filters, price: real, budget: real): int
    requires price > 0.0 && f.stepSize > 0.0
  {
    LeastInt(Bought(budget, price, f.stepSize), Limit(f.maxQty, f.stepSize))
  }

  /** The rounded budget, limited to the rounded maximum. */
  function QuantityFor(f: Filters, price: real, budget: real): (quantity: real)
    requires price > 0.0 && f.stepSize > 0.0
    ensures quantity == Multiple(StepsWithin(f, price, budget), f.stepSize)
  {
    MultiplesInOrder(Bought(budget, price, f.stepSize), Limit(f.maxQty, f.stepSize), f.stepSize);
    Min(StepQuantize(budget / price, f.stepSize, false).value, StepQuantize(f.maxQty, f.stepSize, false).value)
  }

  lemma NotMore(f: Filters, budget: real, price: real, n: int)
    requires budget > 0.0 && price > 0.0 && f.stepSize > 0.0
    requires Fits(n, f, price, budget)
    ensures Multiple(n, f.stepSize) <= QuantityFor(f, price, budget)
  {
    BoughtIsGreatest(budget, price, f.stepSize, n);
    LimitIsGreatest(f.maxQty, f.stepSize, n);
    MultiplesInOrder(n, StepsWithin(f, price, budget), f.stepSize);
  }

  /** The quantity for a budget is the greatest multiple within it and the limit. */
  lemma QuantityIsGreatest(f: Filters, price: real, budget: real)
    requires budget > 0.0 && price > 0.0 && f.stepSize > 0.0
    ensures var quantity := QuantityFor(f, price, budget);
            && WholeMultiple(quantity, f.stepSize) && quantity * price <= budget && Greatest(quantity, f, price, budget)
            && (f.maxQty >= 0.0 ==> quantity <= f.maxQty)
  {
    var q := StepsWithin(f, price, budget);
    BoughtIsGreatest(budget, price, f.stepSize, q);
    LimitIsGreatest(f.maxQty, f.stepSize, q);
    forall n: int | Fits(n, f, price, budget)
      ensures Multiple(n, f.stepSize) <= QuantityFor(f, price, budget)
    {
      NotMore(f, budget, price, n);
    }
  }

  lemma NeededIsNextStep(f: Filters, price: real, budget: real, q: int, u: int)
    requires budget > 0.0 && price > 0.0 && f.stepSize > 0.0 && 0.0 <= f.minNotional <= budget
    requires q == StepsWithin(f, price, budget) && u == Needed(f.minNotional, price, f.stepSize)
    requires q < u && Multiple(u, f.stepSize) <= f.maxQty
    ensures u == q + 1 && q == Bought(budget, price, f.stepSize)
  {
    LimitIsGreatest(f.maxQty, f.stepSize, u);
    var next := Bought(budget, price, f.stepSize) + 1;
    BoughtIsGreatest(budget, price, f.stepSize, next);
    NeededIsLeast(f.minNotional, price, f.stepSize, next);
  }

  lemma NeededIsLeastWorth(f: Filters, price: real)
    requires price > 0.0 && f.stepSize > 0.0 && f.minNotional >= 0.0
    ensures var needed := StepQuantize(f.minNotional / price, f.stepSize, true).value;
            f.minNotional <= needed * price && Least(needed, f, price)
  {
    var u := Needed(f.minNotional, price, f.stepSize);
    NeededIsLeast(f.minNotional, price, f.stepSize, u);
    forall n: int | Worth(n, f, price)
      ensures Multiple(u, f.stepSize) <= Multiple(n, f.stepSize)
    {
      NeededIsLeast(f.minNotional, price, f.stepSize, n);
      MultiplesInOrder(u, n, f.stepSize);
    }
  }

  lemma NeededCovers(f: Filters, price: real, q: int)
    requires price > 0.0 && f.stepSize > 0.0 && Multiple(q, f.stepSize) * price < f.minNotional
    ensures var u := Needed(f.minNotional, price, f.stepSize);
            && q <= u && (f.minNotional >= 0.0 ==> q < u)
            && Multiple(q, f.stepSize) <= Multiple(u, f.stepSize)
  {
    NeededIsLeast(f.minNotional, price, f.stepSize, q);
    MultiplesInOrder(q, Needed(f.minNotional, price, f.stepSize), f.stepSize);
  }

  lemma StepOver(budget: real, price: real, step: real, n: int)
    requires budget > 0.0 && price > 0.0 && step > 0.0 && n == Bought(budget, price, step) + 1
    ensures OneStepOver(Multiple(n, step), budget, price, step)
  {
    BoughtIsGreatest(budget, price, step, n - 1);
    BoughtIsGreatest(budget, price, step, n);
  }

  /** What the fallback offers for a quantity that is worth too little. */
  ghost predicate IsNext(needed: real, quantity: real, f: Filters, price: real, budget: real) {
    && WholeMultiple(needed, f.stepSize) && quantity <= needed
    && (f.minNotional >= 0.0 ==> f.minNotional <= needed * price && Least(needed, f, price))
    && (f.minNotional >= 0.0 && needed <= f.maxQty ==> OneStepOver(needed, budget, price, f.stepSize))
  }

  /** What is needed for the minimum notional is not less than a multiple that is
      not worth it; within the limit it is one step over the budget. */
  lemma NeededIsNext(f: Filters, price: real, budget: real)
    requires budget > 0.0 && price > 0.0 && f.stepSize > 0.0 && f.minNotional <= budget
    ensures QuantityFor(f, price, budget) * price < f.minNotional ==>
              IsNext(StepQuantize(f.minNotional / price, f.stepSize, true).value, QuantityFor(f, price, budget), f, price, budget)
  {
    if QuantityFor(f, price, budget) * price < f.minNotional {
      var q, u := StepsWithin(f, price, budget), Needed(f.minNotional, price, f.stepSize);
      NeededCovers(f, price, q);
      if f.minNotional >= 0.0 {
        NeededIsLeastWorth(f, price);
        if Multiple(u, f.stepSize) <= f.maxQty {
          NeededIsNextStep(f, price, budget, q, u);
          StepOver(budget, price, f.stepSize, u);
        }
      }
    }
  }

  lemma PartOfCap(cap: real, utilization: real, budget: real)
    requires cap > 0.0 && 0.0 < utilization < 1.0 && budget == cap * utilization
    ensures 0.0 < budget <= cap
  {
    Monotone(utilization, 1.0, cap);
    Monotone(0.0, utilization, cap);
  }

  lemma MinimumWithin(minNotional: real, worth: real, budget: real)
    requires budget > 0.0 && Max(minNotional * 1.1, worth) <= budget
    ensures minNotional <= budget
  {
  }

  /** What Settle may rely on. */
  ghost predicate Found(q: real, f: Filters, price: real, budget: real)
    requires price > 0.0 && f.stepSize > 0.0
  {
    && WholeMultiple(q, f.stepSize) && (f.maxQty >= 0.0 ==> q <= f.maxQty)
    && q * price <= budget && Greatest(q, f, price, budget)
    && (q < f.minQty || q * price < f.minNotional ==> NoneExecutable(f, price, budget))
    && (q * price < f.minNotional ==> IsNext(StepQuantize(f.minNotional / price, f.stepSize, true).value, q, f, price, budget))
  }

  lemma WorthIsKept(f: Filters, price: real, budget: real, n: int)
    requires budget > 0.0 && price > 0.0 && f.stepSize > 0.0
    requires Fits(n, f, price, budget) && f.minQty <= Multiple(n, f.stepSize) && Worth(n, f, price)
    ensures f.minQty <= QuantityFor(f, price, budget) && f.minNotional <= QuantityFor(f, price, budget) * price
  {
    NotMore(f, budget, price, n);
    WorthAsMuch(Multiple(n, f.stepSize), QuantityFor(f, price, budget), price, f.minNotional);
  }

  lemma WorthAsMuch(less: real, more: real, price: real, worth: real)
    requires less <= more && price > 0.0 && worth <= less * price
    ensures worth <= more * price
  {
    Monotone(less, more, price);
  }

  lemma Prepared(f: Filters, price: real, budget: real)
    requires budget > 0.0 && price > 0.0 && f.stepSize > 0.0 && f.minNotional <= budget
    ensures Found(QuantityFor(f, price, budget), f, price, budget)
  {
    QuantityIsGreatest(f, price, budget);
    NeededIsNext(f, price, budget);
    forall n: int | Fits(n, f, price, budget) && f.minQty <= Multiple(n, f.stepSize) && Worth(n, f, price)
      ensures f.minQty <= QuantityFor(f, price, budget) && f.minNotional <= QuantityFor(f, price, budget) * price
    {
      WorthIsKept(f, price, budget, n);
    }
  }

  predicate ValidArguments(price: real, maxNotional: real, utilization: real) {
    price > 0.0 && 0.0 < utilization < 1.0 && maxNotional > 0.0
  }

  /** Why there may be no quantity: a minimum beyond the budget, or nothing
      executable within the budget. */
  ghost predicate NoSize(f: Filters, price: real, budget: real) {
    f.stepSize <= 0.0 || Max(f.minNotional * 1.1, price * f.minQty) > budget || NoneExecutable(f, price, budget)
  }

  /** The greatest executable quantity within the budget, or the next multiple. */
  ghost predicate SizedTo(q: real, f: Filters, price: real, cap: real, budget: real) {
    && Executable(q, f, price, cap)
    && ((q * price <= budget && Greatest(q, f, price, budget))
        || (f.minNotional >= 0.0 ==> OneStepOver(q, budget, price, f.stepSize) && Least(q, f, price)))
  }

  /** _bounded_quantity_for_price. A returned quantity is a whole multiple of the
      step between the two quantity limits, worth between the minimum notional
      and the cap; it is the greatest one within the budget, or, when that is
      worth less than the minimum notional, the next multiple. The raise to the
      minimum quantity and the last error cannot occur. */
  method BoundedQuantityForPrice(f: Filters, price: real, maxNotional: real, utilization: real)
    returns (r: Result<real, Error>, ghost way: Way, ghost budget: real)
    ensures r.Ok? ==>
              && ValidArguments(price, maxNotional, utilization)
              && Executable(r.value, f, price, EffectiveNotionalCap(f, maxNotional).value)
    ensures r.Ok? && way.WithinBudget? ==> r.value * price <= budget && Greatest(r.value, f, price, budget)
    ensures r.Ok? && way.MinimumNotional? && f.minNotional >= 0.0 ==>
              OneStepOver(r.value, budget, price, f.stepSize) && Least(r.value, f, price)
    ensures !way.RaisedToMinimum? && r != Err(DerivedNotionalExceedsCap)
    ensures r == Err(BelowMinimumQuantity) || r == Err(MinimumExceedsCap) ==> NoneExecutable(f, price, budget)
    ensures ValidArguments(price, maxNotional, utilization) ==>
              && budget == EffectiveNotionalCap(f, maxNotional).value * utilization
              && if r.Ok? then SizedTo(r.value, f, price, EffectiveNotionalCap(f, maxNotional).value, budget) else NoSize(f, price, budget)
  {
    way, budget := WithinBudget, 0.0;
    if price <= 0.0 {
      return Err(PriceNotPositive), way, budget;
    }
    if utilization <= 0.0 || utilization >= 1.0 {
      return Err(UtilizationInvalid), way, budget;
    }
    var effective := EffectiveNotionalCap(f, maxNotional);
    if effective.Err? {
      return Err(effective.error), way, budget;
    }
    var cap := effective.value;
    var bounded := cap * utilization;
    budget := bounded;
    PartOfCap(cap, utilization, bounded);
    r, way := QuantityWithin(f, price, cap, bounded);
  }

  /** The two roundings. */
  method BudgetQuantity(f: Filters, price: real, budget: real) returns (quantity: real)
    requires budget > 0.0 && price > 0.0 && f.stepSize > 0.0 && f.minNotional <= budget
    ensures Found(quantity, f, price, budget)
  {
    var bought := StepQuantize(budget / price, f.stepSize, false).value;
    var maxQuantity := StepQuantize(f.maxQty, f.stepSize, false).value;
    quantity := Min(bought, maxQuantity);
    Prepared(f, price, budget);
    assert quantity == QuantityFor(f, price, budget);
  }

  /** From the check of the budget on. */
  method QuantityWithin(f: Filters, price: real, cap: real, budget: real) returns (r: Result<real, Error>, ghost way: Way)
    requires price > 0.0 && 0.0 < budget <= cap
    ensures r.Ok? ==> Executable(r.value, f, price, cap)
    ensures r.Ok? && way.WithinBudget? ==> r.value * price <= budget && Greatest(r.value, f, price, budget)
    ensures r.Ok? && way.MinimumNotional? && f.minNotional >= 0.0 ==>
              OneStepOver(r.value, budget, price, f.stepSize) && Least(r.value, f, price)
    ensures !way.RaisedToMinimum? && r != Err(DerivedNotionalExceedsCap)
    ensures r == Err(BelowMinimumQuantity) || r == Err(MinimumExceedsCap) ==> NoneExecutable(f, price, budget)
    ensures if r.Ok? then SizedTo(r.value, f, price, cap, budget) else NoSize(f, price, budget)
  {
    way := WithinBudget;
    var minimumTarget := Max(f.minNotional * 1.1, price * f.minQty);
    if minimumTarget > budget {
      return Err(MinimumExceedsBudget), way;
    }
    MinimumWithin(f.minNotional, price * f.minQty, budget);
    if f.stepSize <= 0.0 {
      return Err(StepNotPositive), way;
    }
    var quantity := BudgetQuantity(f, price, budget);
    if quantity < f.minQty {
      return Err(BelowMinimumQuantity), way;
    }
    r, way := Settle(f, price, cap, budget, quantity);
  }

  /** The checks of the quantity's worth, with the fallback. */
  method Settle(f: Filters, price: real, cap: real, ghost budget: real, found: real) returns (r: Result<real, Error>, ghost way: Way)
    requires price > 0.0 && f.stepSize > 0.0 && budget <= cap
    requires f.minQty <= found && Found(found, f, price, budget)
    ensures r.Ok? ==> Executable(r.value, f, price, cap)
    ensures r.Ok? && way.WithinBudget? ==> r.value * price <= budget && Greatest(r.value, f, price, budget)
    ensures r.Ok? && way.MinimumNotional? && f.minNotional >= 0.0 ==>
              OneStepOver(r.value, budget, price, f.stepSize) && Least(r.value, f, price)
    ensures !way.RaisedToMinimum? && r != Err(DerivedNotionalExceedsCap)
    ensures r.Err? ==> r == Err(MinimumExceedsCap)
    ensures r == Err(BelowMinimumQuantity) || r == Err(MinimumExceedsCap) ==> NoneExecutable(f, price, budget)
  {
    way := WithinBudget;
    var quantity := found;
    var notional := quantity * price;
    if notional < f.minNotional {
      var minimumQuantity;
      r, minimumQuantity, way := FallBack(f, price, cap, budget, found);
      if r.Err? {
        return;
      }
      quantity := minimumQuantity;
      notional := quantity * price;
    }
    if notional > cap {
      return Err(DerivedNotionalExceedsCap), way;
    }
    r := Ok(quantity);
  }

  /** The minimum quantity that is worth the minimum notional. */
  method FallBack(f: Filters, price: real, cap: real, ghost budget: real, ghost found: real)
    returns (r: Result<real, Error>, minimum: real, ghost way: Way)
    requires price > 0.0 && f.stepSize > 0.0 && f.minQty <= found && Found(found, f, price, budget) && found * price < f.minNotional
    ensures way == MinimumNotional && NoneExecutable(f, price, budget)
    ensures if r.Ok? then Executable(minimum, f, price, cap) else r == Err(MinimumExceedsCap)
    ensures r.Ok? && f.minNotional >= 0.0 ==> OneStepOver(minimum, budget, price, f.stepSize) && Least(minimum, f, price)
  {
    way := MinimumNotional;
    minimum := StepQuantize(f.minNotional / price, f.stepSize, true).value;
    if minimum < f.minQty {
      way := RaisedToMinimum;
      minimum := f.minQty;
    }
    r := if minimum > f.maxQty || minimum * price > cap then Err(MinimumExceedsCap) else Ok(minimum);
  }

  lemma WorthInOrder(m: int, n: int, step: real, price: real)
    requires m <= n && step > 0.0 && price > 0.0
    ensures Multiple(m, step) * price <= Multiple(n, step) * price
  {
    MultiplesInOrder(m, n, step);
    Monotone(Multiple(m, step), Multiple(n, step), price);
  }

  /** A negative quantity limit is rounded towards zero, so it is kept only if it
      is itself a whole multiple. */
  lemma NegativeLimit(f: Filters, price: real, budget: real)
    requires budget > 0.0 && price > 0.0 && f.stepSize > 0.0 && f.maxQty < 0.0
    ensures QuantityFor(f, price, budget) <= f.maxQty <==> WholeMultiple(f.maxQty, f.stepSize)
  {
    var g := Limit(f.maxQty, f.stepSize);
    BoughtIsGreatest(budget, price, f.stepSize, 0);
    TowardsZeroIsNearest(f.maxQty, f.stepSize, 0);
    TowardsZeroIsNearest(f.maxQty, f.stepSize, g);
    assert StepsWithin(f, price, budget) == g;
    if QuantityFor(f, price, budget) <= f.maxQty {
      assert f.maxQty == Multiple(g, f.stepSize);
    }
    if n: int :| f.maxQty == Multiple(n, f.stepSize) {
      TowardsZeroIsNearest(f.maxQty, f.stepSize, n);
      MultiplesInOrder(g, n, f.stepSize);
    }
  }

  /** n steps are worth exactly the minimum notional. */
  ghost predicate WorthExactly(n: int, f: Filters, price: real) {
    f.minNotional == Multiple(n, f.stepSize) * price
  }

  /** A negative minimum notional is rounded away from zero, so what the fallback
      offers is worth it only if some multiple is worth exactly that. */
  lemma NegativeMinimum(f: Filters, price: real)
    requires price > 0.0 && f.stepSize > 0.0 && f.minNotional < 0.0
    ensures Worth(Needed(f.minNotional, price, f.stepSize), f, price) <==> exists n: int :: WorthExactly(n, f, price)
  {
    var u := Needed(f.minNotional, price, f.stepSize);
    NeededIsLeast(f.minNotional, price, f.stepSize, u);
    if Worth(u, f, price) {
      assert WorthExactly(u, f, price);
    }
    if n: int :| WorthExactly(n, f, price) {
      NeededIsLeast(f.minNotional, price, f.stepSize, n);
      WorthInOrder(n, u, f.stepSize, price);
    }
  }
}
