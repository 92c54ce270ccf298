/** The choice of a TESTNET symbol whose visible book promises a partial fill
    (scripts/external/binance_testnet_acceptance.py and its hardened variant). */
module AutoTarget {
  import opened Base
  import opened OrderSizing

  datatype Level = Level(price: real, size: real)

  /** One entry of the ask side: unusable, or with a size, which may not parse. */
  datatype Ask = Malformed | Ask(size: Option<real>)

  /** What the exchange answers about one symbol. */
  datatype Market = Market(
    symbol: string,
    quote: string,
    filters: Filters,
    marketFilters: Filters,
    bids: seq<Level>,
    asks: seq<Ask>,
    ticker: real,
    orderTestPasses: bool)

  datatype Probe = Probe(price: real, quantity: real, executable: real)

  datatype Target = Target(market: Market, probe: Probe, cap: real)

  const ACQUISITION_CAP_UTILIZATION: real := 0.90
  const PARTIAL_CAP_UTILIZATION: real := 0.85
  const BALANCE_CAP_UTILIZATION: real := 0.90
  const AUTO_PARTIAL_MAX_RATIO: real := 0.70

  // ---- a matching model ----

  /** A sell limit order takes from each level priced at or above the limit, in
      book order, what is left of it or what the level has. */
  function Filled(bids: seq<Level>, limit: real, quantity: real): real {
    if bids == [] then 0.0
    else
      var here := if bids[0].price >= limit then Min(quantity, bids[0].size) else 0.0;
      here + Filled(bids[1..], limit, quantity - here)
  }

  /** The size of all bids at or above a price, wherever they stand. */
  function SizeAtOrAbove(bids: seq<Level>, limit: real): real {
    if bids == [] then 0.0
    else
      var last := bids[|bids| - 1];
      SizeAtOrAbove(bids[..|bids| - 1], limit) + if last.price >= limit then last.size else 0.0
  }

  ghost predicate SortedDown(bids: seq<Level>) {
    forall i, j :: 0 <= i < j < |bids| ==> bids[i].price >= bids[j].price
  }

  ghost predicate SizesNotNegative(bids: seq<Level>) {
    forall i :: 0 <= i < |bids| ==> bids[i].size >= 0.0
  }

  lemma {:induction false} SizeFromTheFront(bids: seq<Level>, limit: real)
    requires bids != []
    ensures SizeAtOrAbove(bids, limit) ==
            (if bids[0].price >= limit then bids[0].size else 0.0) + SizeAtOrAbove(bids[1..], limit)
  {
    if |bids| > 1 {
      SizeFromTheFront(bids[..|bids| - 1], limit);
      assert bids[..|bids| - 1][1..] == bids[1..][..|bids| - 2];
    }
  }

  lemma {:induction false} SizeIsNotNegative(bids: seq<Level>, limit: real)
    requires SizesNotNegative(bids)
    ensures SizeAtOrAbove(bids, limit) >= 0.0
  {
    if bids != [] {
      SizeIsNotNegative(bids[..|bids| - 1], limit);
    }
  }

  /** An order fills all that stands at or above its limit, up to its quantity. */
  lemma {:induction false} FilledIsLesser(bids: seq<Level>, limit: real, quantity: real)
    requires SizesNotNegative(bids) && quantity >= 0.0
    ensures Filled(bids, limit, quantity) == Min(quantity, SizeAtOrAbove(bids, limit))
  {
    if bids != [] {
      var here := if bids[0].price >= limit then Min(quantity, bids[0].size) else 0.0;
      FilledIsLesser(bids[1..], limit, quantity - here);
      SizeFromTheFront(bids, limit);
      SizeIsNotNegative(bids[1..], limit);
    }
  }

  lemma {:induction false} NothingBelow(bids: seq<Level>, limit: real, n: nat)
    requires n <= |bids| && forall i :: n <= i < |bids| ==> bids[i].price < limit
    ensures SizeAtOrAbove(bids, limit) == SizeAtOrAbove(bids[..n], limit)
    decreases |bids|
  {
    if n < |bids| {
      NothingBelow(bids[..|bids| - 1], limit, n);
      assert bids[..|bids| - 1][..n] == bids[..n];
    } else {
      assert bids[..n] == bids;
    }
  }

  lemma {:induction false} SizeSplits(bids: seq<Level>, limit: real, n: nat)
    requires n <= |bids|
    ensures SizeAtOrAbove(bids, limit) == SizeAtOrAbove(bids[..n], limit) + SizeAtOrAbove(bids[n..], limit)
    decreases |bids|
  {
    if n < |bids| {
      var front := bids[..|bids| - 1];
      SizeSplits(front, limit, n);
      assert front[..n] == bids[..n] && front[n..] == bids[n..][..|bids| - n - 1];
    } else {
      assert bids[..n] == bids;
    }
  }

  ghost predicate SizesPositive(bids: seq<Level>) {
    forall i :: 0 <= i < |bids| ==> bids[i].size > 0.0
  }

  lemma {:induction false} SomethingAtOrAbove(bids: seq<Level>, limit: real, j: nat)
    requires SizesPositive(bids) && j < |bids| && bids[j].price >= limit
    ensures SizeAtOrAbove(bids, limit) > 0.0
  {
    if j < |bids| - 1 {
      SomethingAtOrAbove(bids[..|bids| - 1], limit, j);
    } else {
      SizeIsNotNegative(bids[..|bids| - 1], limit);
    }
  }

  /** Once a bid is below the price, all further ones are. */
  ghost predicate NoneAfterLower(bids: seq<Level>, limit: real) {
    forall i, j :: 0 <= i < j < |bids| && bids[i].price < limit ==> bids[j].price < limit
  }

  /** Where the loop stops it has counted everything if and only if nothing at or
      above the price follows. */
  lemma CountedAllIff(bids: seq<Level>, limit: real, n: nat)
    requires n <= |bids| && StopsAt(bids, limit, n)
    ensures NoneAfterLower(bids, limit) ==> SizeAtOrAbove(bids[..n], limit) == SizeAtOrAbove(bids, limit)
    ensures SizesPositive(bids) && SizeAtOrAbove(bids[..n], limit) == SizeAtOrAbove(bids, limit) ==> NoneAfterLower(bids, limit)
  {
    if NoneAfterLower(bids, limit) {
      NothingBelow(bids, limit, n);
    }
    SizeSplits(bids, limit, n);
    if SizesPositive(bids) {
      forall j | n <= j < |bids| && bids[j].price >= limit ensures SizeAtOrAbove(bids[n..], limit) > 0.0 {
        assert bids[n..][j - n] == bids[j];
        SomethingAtOrAbove(bids[n..], limit, j - n);
      }
    }
  }

  /** _executable_bid_quantity_from_book. It stops at the first bid below the price,
      so with positive sizes it counts all that an order would fill if and only if
      every bid after that one is below the price too; on a book that is sorted
      downwards that is always so. */
  method ExecutableBidQuantity(bids: seq<Level>, limit: real) returns (executable: real)
    ensures NoneAfterLower(bids, limit) ==> executable == SizeAtOrAbove(bids, limit)
    ensures SizesPositive(bids) ==> (executable == SizeAtOrAbove(bids, limit) <==> NoneAfterLower(bids, limit))
    ensures SortedDown(bids) ==> executable == SizeAtOrAbove(bids, limit)
    ensures exists n :: 0 <= n <= |bids| && StopsAt(bids, limit, n) && executable == SizeAtOrAbove(bids[..n], limit)
  {
    executable := 0.0;
    var i := 0;
    while i < |bids|
      invariant 0 <= i <= |bids|
      invariant forall j :: 0 <= j < i ==> bids[j].price >= limit
      invariant executable == SizeAtOrAbove(bids[..i], limit)
    {
      if bids[i].price < limit {
        break;
      }
      assert bids[..i + 1][..i] == bids[..i];
      executable := executable + bids[i].size;
      i := i + 1;
    }
    assert StopsAt(bids, limit, i);
    CountedAllIff(bids, limit, i);
    assert SortedDown(bids) ==> NoneAfterLower(bids, limit);
  }

  /** The first level below the price is the one at n, or there is none. */
  ghost predicate StopsAt(bids: seq<Level>, limit: real, n: nat)
    requires n <= |bids|
  {
    && (forall j :: 0 <= j < n ==> bids[j].price >= limit)
    && (n < |bids| ==> bids[n].price < limit)
  }

  /** On a book that is not sorted the loop may miss what an order would fill. */
  method UnsortedBookIsUndercounted() returns (executable: real)
    ensures executable == 0.0
    ensures Filled([Level(1.0, 5.0), Level(2.0, 5.0)], 2.0, 9.0) == 5.0
  {
    var bids := [Level(1.0, 5.0), Level(2.0, 5.0)];
    FilledIsLesser(bids, 2.0, 9.0);
    SizeFromTheFront(bids, 2.0);
    SizeFromTheFront(bids[1..], 2.0);
    executable := ExecutableBidQuantity(bids, 2.0);
    assert bids[..0] == [];
  }

  // ---- the ask side ----

  function Usable(ask: Ask): real {
    if ask.Ask? && ask.size.Some? && ask.size.value > 0.0 then ask.size.value else 0.0
  }

  /** The total of the valid positive ask sizes. */
  function Depth(asks: seq<Ask>): real {
    if asks == [] then 0.0 else Depth(asks[..|asks| - 1]) + Usable(asks[|asks| - 1])
  }

  lemma {:induction false} DepthGrows(asks: seq<Ask>, n: nat)
    requires n <= |asks|
    ensures Depth(asks[..n]) <= Depth(asks)
    decreases |asks|
  {
    if n < |asks| {
      DepthGrows(asks[..|asks| - 1], n);
      assert asks[..|asks| - 1][..n] == asks[..n];
    } else {
      assert asks[..n] == asks;
    }
  }

  /** _market_buy_depth_sufficient: exactly when the visible asks cover the order. */
  method MarketBuyDepthSufficient(asks: seq<Ask>, quantity: real) returns (sufficient: bool)
    ensures sufficient <==> quantity > 0.0 && Depth(asks) >= quantity
  {
    if quantity <= 0.0 {
      return false;
    }
    var remaining := quantity;
    var i := 0;
    while i < |asks|
      invariant 0 <= i <= |asks|
      invariant remaining == quantity - Depth(asks[..i]) && remaining > 0.0
    {
      assert asks[..i + 1][..i] == asks[..i];
      var ask := asks[i];
      if ask.Ask? && ask.size.Some? && ask.size.value > 0.0 {
        remaining := remaining - Min(remaining, ask.size.value);
        if remaining <= 0.0 {
          DepthGrows(asks, i + 1);
          return true;
        }
      }
      i := i + 1;
    }
    assert asks[..i] == asks;
    return false;
  }

  // ---- the choice ----

  /** _spendable_notional_cap */
  function SpendableNotionalCap(maxNotional: real, free: real): (r: Result<real, Error>)
    ensures r.Ok? <==> maxNotional > 0.0 && free > 0.0
    ensures r.Ok? ==> 0.0 < r.value <= maxNotional && r.value <= 0.9 * free && (r.value == maxNotional || r.value == 0.9 * free)
  {
    if maxNotional <= 0.0 then Err(MaxNotionalNotPositive)
    else if free <= 0.0 then Err(NoFreeBalance)
    else
      var cap := Min(maxNotional, free * BALANCE_CAP_UTILIZATION);
      if cap <= 0.0 then Err(NoPositiveCap) else Ok(cap)
  }

  /** On a book without a bid at or above the price after a lower one, a sell order
      fills exactly this much, which is a part of it, at most 70 percent. */
  ghost predicate FillsPart(bids: seq<Level>, price: real, quantity: real, fill: real) {
    && 0.0 < fill < quantity && fill <= 0.7 * quantity
    && (NoneAfterLower(bids, price) && SizesNotNegative(bids) ==> Filled(bids, price, quantity) == fill)
  }

  /** The probe's order is executable within the cap and fills a part. */
  ghost predicate PartialFill(p: Probe, filters: Filters, bids: seq<Level>, cap: real) {
    && bids != [] && 0.0 < p.price <= bids[0].price && WholeMultiple(p.price, filters.tickSize)
    && Executable(p.quantity, filters, p.price, cap)
    && FillsPart(bids, p.price, p.quantity, p.executable)
  }

  // ---- why a symbol is passed over ----

  /** The multiple of the step at or just below the value, or at or just above it. */
  ghost predicate Rounded(rounded: real, value: real, step: real, up: bool) {
    WholeMultiple(rounded, step) && if up then rounded - step < value <= rounded else rounded <= value < rounded + step
  }

  /** No quantity can be sized for this price. */
  ghost predicate Unsizable(f: Filters, price: real, maxNotional: real, utilization: real) {
    !ValidArguments(price, maxNotional, utilization)
    || NoSize(f, price, EffectiveNotionalCap(f, maxNotional).value * utilization)
  }

  ghost predicate SizedAt(q: real, f: Filters, price: real, maxNotional: real, utilization: real) {
    ValidArguments(price, maxNotional, utilization)
    && SizedTo(q, f, price, EffectiveNotionalCap(f, maxNotional).value, EffectiveNotionalCap(f, maxNotional).value * utilization)
  }

  /** An order of this quantity would fill nothing, or more than 70 percent of it. */
  ghost predicate NotInPart(bids: seq<Level>, price: real, quantity: real) {
    NoneAfterLower(bids, price) && SizesNotNegative(bids) && quantity > 0.0 ==> !(0.0 < Filled(bids, price, quantity) <= 0.7 * quantity)
  }

  ghost predicate ProbeRefused(f: Filters, bids: seq<Level>, cap: real, acquired: Option<real>) {
    || bids == [] || bids[0].price <= 0.0 || f.tickSize <= 0.0
    || exists price :: Rounded(price, bids[0].price, f.tickSize, false) && PriceRefused(price, f, bids, cap, acquired)
  }

  ghost predicate PriceRefused(price: real, f: Filters, bids: seq<Level>, cap: real, acquired: Option<real>) {
    || Unsizable(f, price, cap, PARTIAL_CAP_UTILIZATION)
    || exists q :: SizedAt(q, f, price, cap, PARTIAL_CAP_UTILIZATION)
                   && ((acquired.Some? && q > acquired.value) || NotInPart(bids, price, q))
  }

  ghost predicate AcquisitionRefused(m: Market, cap: real, probeQuantity: real) {
    || Unsizable(m.marketFilters, m.ticker, cap, ACQUISITION_CAP_UTILIZATION)
    || exists q :: SizedAt(q, m.marketFilters, m.ticker, cap, ACQUISITION_CAP_UTILIZATION)
                   && (q < probeQuantity || q <= 0.0 || Depth(m.asks) < q || !m.orderTestPasses)
  }

  ghost predicate LimitRefused(m: Market, cap: real) {
    || m.filters.tickSize <= 0.0
    || exists limit :: Rounded(limit, m.ticker * 1.5, m.filters.tickSize, true)
                       && Unsizable(m.filters, limit, cap, PARTIAL_CAP_UTILIZATION)
  }

  /** Why there is no target in this market. */
  ghost predicate Refused(m: Market, maxNotional: real, balances: map<string, real>) {
    || m.symbol == "" || m.quote == ""
    || var spendable := SpendableNotionalCap(maxNotional, if m.quote in balances then balances[m.quote] else 0.0);
       spendable.Err? || MarketRefused(m, spendable.value)
  }

  ghost predicate MarketRefused(m: Market, cap: real) {
    || ProbeRefused(m.filters, m.bids, cap, None)
    || (exists probe :: PartialFill(probe, m.filters, m.bids, cap) && AcquisitionRefused(m, cap, probe.quantity))
    || LimitRefused(m, cap)
  }

  /** _bounded_quantity_for_price at one price. */
  method SizeAt(f: Filters, price: real, maxNotional: real, utilization: real) returns (r: Result<real, Error>)
    requires 0.0 < utilization < 1.0
    ensures if r.Ok? then SizedAt(r.value, f, price, maxNotional, utilization) && maxNotional > 0.0
                          && Executable(r.value, f, price, maxNotional)
            else Unsizable(f, price, maxNotional, utilization)
  {
    ghost var way, budget;
    r, way, budget := BoundedQuantityForPrice(f, price, maxNotional, utilization);
    ghost var cap := EffectiveNotionalCap(f, maxNotional);
    if r.Ok? {
      WithinCap(r.value, f, price, cap.value, maxNotional);
    }
  }

  lemma WithinCap(q: real, f: Filters, price: real, cap: real, maxNotional: real)
    requires Executable(q, f, price, cap) && cap <= maxNotional
    ensures Executable(q, f, price, maxNotional)
  {
  }

  /** _auto_probe_for_symbol */
  method AutoProbe(filters: Filters, bids: seq<Level>, maxNotional: real, acquired: Option<real>)
    returns (r: Result<Option<Probe>, Error>)
    ensures if r.Ok? && r.value.Some? then
              && maxNotional > 0.0
              && PartialFill(r.value.value, filters, bids, maxNotional)
              && (acquired.Some? ==> r.value.value.quantity <= acquired.value)
            else ProbeRefused(filters, bids, maxNotional, acquired)
  {
    if |bids| == 0 || bids[0].price <= 0.0 {
      return Ok(None);
    }
    var rounded := Quantized(bids[0].price, filters.tickSize, false);
    if rounded.Err? {
      return Err(rounded.error);
    }
    r := ProbeAt(rounded.value, filters, bids, maxNotional, acquired);
  }

  /** The rest of the probe, at the rounded price. */
  method ProbeAt(price: real, filters: Filters, bids: seq<Level>, maxNotional: real, acquired: Option<real>)
    returns (r: Result<Option<Probe>, Error>)
    requires bids != [] && price <= bids[0].price && WholeMultiple(price, filters.tickSize)
    ensures if r.Ok? && r.value.Some? then
              && maxNotional > 0.0
              && PartialFill(r.value.value, filters, bids, maxNotional)
              && (acquired.Some? ==> r.value.value.quantity <= acquired.value)
            else PriceRefused(price, filters, bids, maxNotional, acquired)
  {
    var sized := SizeAt(filters, price, maxNotional, PARTIAL_CAP_UTILIZATION);
    if sized.Err? {
      return Err(sized.error);
    }
    var quantity := sized.value;
    if acquired.Some? && quantity > acquired.value {
      return Ok(None);
    }
    var fill := PartOfBids(bids, price, quantity);
    return Ok(if fill.Some? then Some(Probe(price, quantity, fill.value)) else None);
  }

  /** What a sell order would fill, if that is a part of it, at most 70 percent. */
  method PartOfBids(bids: seq<Level>, price: real, quantity: real) returns (fill: Option<real>)
    ensures fill.Some? ==> FillsPart(bids, price, quantity, fill.value)
    ensures fill.None? ==> NotInPart(bids, price, quantity)
    ensures NoneAfterLower(bids, price) && SizesNotNegative(bids) && quantity > 0.0 && fill.Some? ==> !NotInPart(bids, price, quantity)
  {
    var executable := ExecutableBidQuantity(bids, price);
    if SizesNotNegative(bids) && quantity > 0.0 {
      FilledIsLesser(bids, price, quantity);
    }
    if executable <= 0.0 || executable >= quantity {
      return None;
    }
    QuotientVersusRatio(executable, quantity);
    if executable / quantity > AUTO_PARTIAL_MAX_RATIO {
      return None;
    }
    return Some(executable);
  }

  lemma QuotientVersusRatio(part: real, whole: real)
    requires whole > 0.0
    ensures part / whole <= AUTO_PARTIAL_MAX_RATIO <==> part <= 0.7 * whole
  {
    QuotientVersusProduct(AUTO_PARTIAL_MAX_RATIO, part, whole);
  }

  /** The price rounded to the tick. */
  method Quantized(price: real, tick: real, up: bool) returns (r: Result<real, Error>)
    requires price > 0.0
    ensures r.Ok? <==> tick > 0.0
    ensures r.Ok? ==> Rounded(r.value, price, tick, up)
  {
    r := StepQuantize(price, tick, up);
    if r.Ok? {
      var n := if up then AwayFromZero(price / tick) else TowardsZero(price / tick);
      if up {
        AwayFromZeroIsNearest(price, tick, n);
        AwayFromZeroIsNearest(price, tick, n - 1);
        MultiplesInOrder(n - 1, n, tick);
      } else {
        TowardsZeroIsNearest(price, tick, n);
        TowardsZeroIsNearest(price, tick, n + 1);
        MultiplesInOrder(n, n + 1, tick);
      }
    }
  }

  /** The acquisition is executable within the cap at the ticker price, covers
      the probe, and is covered by the visible asks. */
  ghost predicate Covered(acquisition: real, m: Market, cap: real, probeQuantity: real) {
    && m.ticker > 0.0 && Executable(acquisition, m.marketFilters, m.ticker, cap)
    && probeQuantity <= acquisition && Depth(m.asks) >= acquisition > 0.0 && m.orderTestPasses
  }

  /** Some quantity is executable at no less than one and a half times the ticker price. */
  ghost predicate LimitOrderFits(m: Market, cap: real) {
    exists q, limit :: limit >= m.ticker * 1.5 && Executable(q, m.filters, limit, cap)
  }

  /** The grounds for a selected target: its cap is within the caller's and 90
      percent of the free balance, its probe promises a partial fill, and both an
      acquisition and a limit order fit the cap. */
  ghost predicate Grounded(t: Target, maxNotional: real, balances: map<string, real>) {
    && t.market.quote in balances && t.cap <= maxNotional && t.cap <= 0.9 * balances[t.market.quote]
    && PartialFill(t.probe, t.market.filters, t.market.bids, t.cap)
    && (exists acquisition :: Covered(acquisition, t.market, t.cap, t.probe.quantity))
    && LimitOrderFits(t.market, t.cap)
  }

  /** The body of the loop over the symbols; None: the symbol is passed over. */
  method TryMarket(m: Market, maxNotional: real, balances: map<string, real>) returns (r: Option<Target>)
    ensures if r.Some? then r.value.market == m && Grounded(r.value, maxNotional, balances)
            else Refused(m, maxNotional, balances)
  {
    if m.symbol == "" || m.quote == "" {
      return None;
    }
    var spendable := SpendableNotionalCap(maxNotional, if m.quote in balances then balances[m.quote] else 0.0);
    if spendable.Err? {
      return None;
    }
    r := TryWithin(m, spendable.value);
  }

  method TryWithin(m: Market, cap: real) returns (r: Option<Target>)
    ensures if r.Some? then
              && r.value.market == m && r.value.cap == cap && PartialFill(r.value.probe, m.filters, m.bids, cap)
              && (exists acquisition :: Covered(acquisition, m, cap, r.value.probe.quantity))
              && LimitOrderFits(m, cap)
            else MarketRefused(m, cap)
  {
    var probe := AutoProbe(m.filters, m.bids, cap, None);
    if probe.Err? || probe.value.None? {
      return None;
    }
    var acquisition := Acquire(m, cap, probe.value.value.quantity);
    if acquisition.None? {
      return None;
    }
    var priced := LimitPriceExecutable(m, cap);
    if !priced {
      return None;
    }
    r := Some(Target(m, probe.value.value, cap));
  }

  /** _safe_quantity and the checks of the acquisition. */
  method Acquire(m: Market, cap: real, probeQuantity: real) returns (acquisition: Option<real>)
    ensures if acquisition.Some? then Covered(acquisition.value, m, cap, probeQuantity)
            else AcquisitionRefused(m, cap, probeQuantity)
  {
    if m.ticker <= 0.0 {
      return None;
    }
    var sized := SizeAt(m.marketFilters, m.ticker, cap, ACQUISITION_CAP_UTILIZATION);
    if sized.Err? || probeQuantity > sized.value {
      return None;
    }
    var deep := MarketBuyDepthSufficient(m.asks, sized.value);
    acquisition := if deep && m.orderTestPasses then Some(sized.value) else None;
  }

  /** An order at one and a half times the ticker price can be sized too. */
  method LimitPriceExecutable(m: Market, cap: real) returns (ok: bool)
    requires m.ticker > 0.0
    ensures if ok then LimitOrderFits(m, cap) else LimitRefused(m, cap)
  {
    var limit := Quantized(m.ticker * 1.5, m.filters.tickSize, true);
    if limit.Err? {
      return false;
    }
    var sized := SizeAt(m.filters, limit.value, cap, PARTIAL_CAP_UTILIZATION);
    ok := sized.Ok?;
    if ok {
      assert limit.value >= m.ticker * 1.5 && Executable(sized.value, m.filters, limit.value, cap);
    }
  }

  /** The target comes from the market at i and every earlier one is refused. */
  ghost predicate FirstAt(markets: seq<Market>, i: nat, t: Target, maxNotional: real, balances: map<string, real>) {
    && i < |markets| && t.market == markets[i]
    && forall j :: 0 <= j < i ==> Refused(markets[j], maxNotional, balances)
  }

  /** _select_auto_target of the hardened variant: the first symbol, in the given
      order, that there is no reason to pass over; none, if there is one for each. */
  method SelectAutoTarget(markets: seq<Market>, maxNotional: real, balances: map<string, real>) returns (r: Option<Target>)
    ensures r.Some? ==>
              Grounded(r.value, maxNotional, balances) && exists i: nat :: FirstAt(markets, i, r.value, maxNotional, balances)
    ensures r.None? ==> forall j :: 0 <= j < |markets| ==> Refused(markets[j], maxNotional, balances)
  {
    for i := 0 to |markets|
      invariant forall j :: 0 <= j < i ==> Refused(markets[j], maxNotional, balances)
    {
      r := TryMarket(markets[i], maxNotional, balances);
      if r.Some? {
        assert FirstAt(markets, i, r.value, maxNotional, balances);
        return;
      }
    }
    r := None;
  }
}
