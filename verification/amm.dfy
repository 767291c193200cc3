/** The constant-product prediction: the pari-mutuel record plus two virtual
    liquidity pools whose product stays `k`. Pools only price a bet; the points
    themselves are recorded as pari-mutuel stakes and settled as such. */
module Amm {
  import opened Common
  import opened Stakes
  import opened Pool
  import opened Ledger
  import opened PariMutuel
  import opened Settlement
  import opened Arith

  /** `k_constant = 100 * 100` */
  const K: real := 10000.0

  /** The starting size of each pool. */
  const Seed: real := 100.0

  datatype AmmMarket = AmmMarket(market: Market, liquidity: map<string, real>)

  /** What `get_current_prices` reports for one option. */
  datatype Quote = Quote(pricePerShare: Extended, potentialShares: real, potentialPayout: real)

  /** Exactly two distinct options, the shape `get_opposite_option` is written for. */
  predicate Binary(options: seq<string>) {
    |options| == 2 && options[0] != options[1]
  }

  /** A binary market whose pools are keyed by its two options. */
  predicate Pooled(a: AmmMarket) {
    Binary(a.market.options) && a.liquidity.Keys == {a.market.options[0], a.market.options[1]}
  }

  /** Two positive pools whose product is `k`. */
  predicate Balanced(x: real, y: real) {
    0.0 < x && 0.0 < y && x * y == K
  }

  /** The pool invariant: the two pools, in the options' order, are balanced. */
  predicate Invariant(a: AmmMarket) {
    Pooled(a) && Balanced(a.liquidity[a.market.options[0]], a.liquidity[a.market.options[1]])
  }

  /** `get_opposite_option`: the first option that is not `o`. */
  function Opposite(options: seq<string>, o: string): (r: string)
    requires Binary(options)
    ensures r in options && r != o
    ensures o in options ==> {o, r} == {options[0], options[1]}
  {
    if options[0] != o then options[0] else options[1]
  }

  /** The constructor: the pari-mutuel record and a pool of 100 per option. */
  function Create(question: string, endTime: int, options: seq<string>, creator: UserId,
                  category: Option<string>): (a: AmmMarket)
    ensures a.market == NewMarket(question, endTime, options, creator, category)
    ensures forall o :: o in a.liquidity <==> o in options
    ensures forall o :: o in a.liquidity ==> a.liquidity[o] == Seed
    ensures Binary(options) ==> Invariant(a)
  {
    AmmMarket(NewMarket(question, endTime, options, creator, category), SeedPools(options))
  }

  /** `{option: 100 for option in options}` */
  function SeedPools(options: seq<string>): (r: map<string, real>)
    ensures forall o :: o in r <==> o in options
    ensures forall o :: o in r ==> r[o] == Seed
    ensures Binary(options) ==> r.Keys == {options[0], options[1]} && Balanced(r[options[0]], r[options[1]])
  {
    var pools := map o | o in options :: Seed;
    if Binary(options) then
      assert pools.Keys == {options[0], options[1]};
      assert Balanced(Seed, Seed);
      pools
    else
      pools
  }

  /** `get_price(o, shares_to_buy)`: 0 for an unknown option, infinity when
      buying empties the pool, and otherwise the points the purchase costs,
      floored at 0. */
  function GetPrice(a: AmmMarket, o: string, sharesToBuy: real): (r: Extended)
    requires Pooled(a)
    ensures o !in a.liquidity ==> r == Finite(0.0)
    ensures r.Infinity? <==> o in a.liquidity && sharesToBuy >= a.liquidity[o]
    ensures r.Finite? ==> r.value >= 0.0
  {
    if o !in a.liquidity then Finite(0.0)
    else
      var x := a.liquidity[o];
      var y := a.liquidity[Opposite(a.market.options, o)];
      var remaining := x - sharesToBuy;
      if remaining <= 0.0 then Infinity
      else
        var cost := K / remaining - y;
        Finite(if cost > 0.0 then cost else 0.0)
  }

  /** `calculate_shares_for_points(o, points)`: `x - k / (y + points)`, raising
      KeyError for an unknown option and ZeroDivisionError when `y + points == 0`. */
  function SharesFor(a: AmmMarket, o: string, points: int): (r: Outcome<real>)
    requires Pooled(a)
    ensures o !in a.liquidity ==> r == Raised(KeyError)
    ensures o in a.liquidity ==>
      var y := a.liquidity[Opposite(a.market.options, o)];
      && (y + (points as real) == 0.0 <==> r == Raised(ZeroDivisionError))
      && (r.Value? ==> (a.liquidity[o] - r.value) * (y + (points as real)) == K)
  {
    if o !in a.liquidity then Raised(KeyError)
    else
      var y := a.liquidity[Opposite(a.market.options, o)];
      if y + (points as real) == 0.0 then Raised(ZeroDivisionError)
      else
        TradeKeepsProduct(y, points as real, K);
        Value(a.liquidity[o] - K / (y + (points as real)))
  }

  /** `place_bet`: an unknown option or a purchase of no shares returns False
      and changes nothing; otherwise the bought pool shrinks by the shares, the
      other grows by the points, and the points (not the shares) are recorded
      as the user's stake. */
  function PlaceBet(a: AmmMarket, user: UserId, o: string, points: int): (r: Outcome<Reply<AmmMarket>>)
    requires Pooled(a)
    ensures o !in a.liquidity ==> r == Value(Reply(false, a))
    ensures o in a.liquidity ==> (r.Raised? <==> SharesFor(a, o, points).Raised?)
    ensures r.Value? && !r.value.ok ==> r.value.state == a
    ensures r.Value? && r.value.ok <==> SharesFor(a, o, points).Value? && SharesFor(a, o, points).value > 0.0
    ensures r.Value? && r.value.ok ==>
      var opp := Opposite(a.market.options, o);
      var b := r.value.state;
      && b.liquidity == a.liquidity[o := a.liquidity[o] - SharesFor(a, o, points).value]
                                   [opp := a.liquidity[opp] + (points as real)]
      && b.market == PariMutuel.PlaceBet(a.market, user, o, points)
      && Pooled(b)
  {
    if o !in a.liquidity then Value(Reply(false, a))
    else
      match SharesFor(a, o, points)
      case Raised(e) => Raised(e)
      case Value(shares) =>
        if shares <= 0.0 then Value(Reply(false, a))
        else
          var opp := Opposite(a.market.options, o);
          var pools := a.liquidity[o := a.liquidity[o] - shares][opp := a.liquidity[opp] + (points as real)];
          Value(Reply(true, AmmMarket(PariMutuel.PlaceBet(a.market, user, o, points), pools)))
  }

  /** `get_odds`: each pool's odds `sum(pools) / (pool * len(options))`; a
      zero pool raises ZeroDivisionError. */
  function GetOdds(a: AmmMarket): (r: Outcome<map<string, real>>)
    requires Pooled(a)
    ensures var x, y := a.liquidity[a.market.options[0]], a.liquidity[a.market.options[1]];
      && (r.Value? <==> x != 0.0 && y != 0.0)
      && (r.Value? ==>
            && r.value.Keys == a.liquidity.Keys
            && r.value[a.market.options[0]] * (x * 2.0) == x + y
            && r.value[a.market.options[1]] * (y * 2.0) == x + y)
  {
    var o0, o1 := a.market.options[0], a.market.options[1];
    var x, y := a.liquidity[o0], a.liquidity[o1];
    var total := x + y;
    if x == 0.0 || y == 0.0 then Raised(ZeroDivisionError)
    else Value(map[o0 := total / (x * 2.0), o1 := total / (y * 2.0)])
  }

  /** `get_user_payout`: 0 before resolution and without a winning stake,
      otherwise `int(stake * (all stakes / winning stakes))`. */
  function GetUserPayout(a: AmmMarket, user: UserId): (r: Outcome<int>)
    ensures !a.market.resolved || a.market.result.None? ==> r == Value(0)
    ensures a.market.resolved && a.market.result.Some? ==>
      var w := a.market.result.value;
      var s := Stake(a.market, w, user);
      && (!HasOption(a.market.bets, w) ==> r == Raised(KeyError))
      && (HasOption(a.market.bets, w) && s == 0 ==> r == Value(0))
      && (HasOption(a.market.bets, w) && s != 0 && OptionTotal(a.market.bets, w) == 0 ==>
            r == Raised(ZeroDivisionError))
  {
    var m := a.market;
    if !m.resolved || m.result.None? then Value(0)
    else
      match Lookup(m.bets, m.result.value)
      case Raised(e) => Raised(e)
      case Value(book) =>
        var shares := Get(book, user);
        if shares == 0 then Value(0)
        else
          var winning := Sum(book);
          if winning == 0 then Raised(ZeroDivisionError)
          else Value(Trunc(Scaled(shares, Total(m.bets), winning)))
  }

  /** `shares * (total_pool / winning_pool)`: the pari-mutuel share, computed
      in the other order. */
  function Scaled(shares: int, total: int, winning: int): (x: real)
    requires winning != 0
    ensures x == Share(total, shares, winning)
  {
    ShareForms(shares as real, total as real, winning as real);
    (shares as real) * ((total as real) / (winning as real))
  }

  /** `resolve`, on the embedded record; the pools are untouched. */
  function Resolve(a: AmmMarket, result: string): (r: Reply<AmmMarket>)
    ensures r.ok <==> result in a.market.options && !a.market.resolved
    ensures r.ok ==> r.state.market.resolved && r.state.market.result == Some(result)
    ensures !r.ok ==> r.state == a
    ensures r.state.liquidity == a.liquidity
    ensures r.state.market.bets == a.market.bets && r.state.market.totalBets == a.market.totalBets
    ensures Invariant(a) ==> Invariant(r.state)
    ensures Valid(a.market) ==> Valid(r.state.market)
  {
    var rep := PariMutuel.Resolve(a.market, result);
    Reply(rep.ok, a.(market := rep.state))
  }

  /** `mark_as_refunded`, on the embedded record; the pools are untouched. */
  function MarkAsRefunded(a: AmmMarket): (r: AmmMarket)
    ensures r.market.resolved && r.market.refunded
    ensures r.liquidity == a.liquidity && r.market.bets == a.market.bets
    ensures r.market.totalBets == a.market.totalBets
    ensures Invariant(a) ==> Invariant(r)
    ensures Valid(a.market) && !a.market.resolved ==> Valid(r.market)
  {
    a.(market := PariMutuel.MarkAsRefunded(a.market))
  }

  /** One entry of `get_current_prices(points)`: price `points / shares` (or
      infinity when no share is bought) and payout `points * (1 / price)` when
      the price is positive (0 for an infinite price, as `1 / inf == 0`). */
  function QuoteFor(points: int, shares: real): (q: Quote)
    ensures q.potentialShares == shares
    ensures shares <= 0.0 ==> q.pricePerShare == Infinity && q.potentialPayout == 0.0
    ensures shares > 0.0 && points > 0 ==>
      && q.pricePerShare.Finite? && q.pricePerShare.value > 0.0
      && q.pricePerShare.value * shares == points as real
      && q.potentialPayout == shares
    ensures shares > 0.0 && points <= 0 ==> q.potentialPayout == 0.0
  {
    var p := points as real;
    if shares > 0.0 then
      var price := p / shares;
      if points > 0 then QuoteArith(p, shares); Quote(Finite(price), shares, p * (1.0 / price))
      else
        assert price <= 0.0 by {
          assert price * shares == p;
        }
        Quote(Finite(price), shares, 0.0)
    else Quote(Infinity, shares, 0.0)
  }

  /** `get_current_prices(points)`: a quote per option; the share calculation's
      ZeroDivisionError escapes. */
  function GetCurrentPrices(a: AmmMarket, points: int): (r: Outcome<map<string, Quote>>)
    requires Pooled(a)
    ensures r.Value? <==> SharesFor(a, a.market.options[0], points).Value?
                          && SharesFor(a, a.market.options[1], points).Value?
    ensures r.Value? ==> r.value.Keys == a.liquidity.Keys
    ensures r.Value? ==>
      forall o :: o in r.value ==> r.value[o] == QuoteFor(points, SharesFor(a, o, points).value)
  {
    var o0, o1 := a.market.options[0], a.market.options[1];
    match SharesFor(a, o0, points)
    case Raised(e) => Raised(e)
    case Value(s0) =>
      match SharesFor(a, o1, points)
      case Raised(e) => Raised(e)
      case Value(s1) => Value(map[o0 := QuoteFor(points, s0), o1 := QuoteFor(points, s1)])
  }

  /** `int(payout)` of the integer payout, as the resolve callback sees it. */
  function AsReal(r: Outcome<int>): (x: Outcome<real>)
    ensures r.Raised? <==> x.Raised?
    ensures r.Value? ==> x == Value(r.value as real)
  {
    match r
    case Value(n) => Value(n as real)
    case Raised(e) => Raised(e)
  }

  /** The resolve callback's credits: the payout loop over `bets[result]` with
      the AMM `get_user_payout`. */
  function AmmWinnerPayouts(a: AmmMarket): (ps: seq<Payment>)
    ensures a.market.result.None? || !HasOption(a.market.bets, a.market.result.value) ==> ps == []
  {
    var m := a.market;
    if m.result.None? then []
    else
      match Lookup(m.bets, m.result.value)
      case Raised(_) => []
      case Value(book) => PayoutLoop(book, u => AsReal(GetUserPayout(a, u)))
  }

  /** The `bet` modal's submit handler: reject a non-positive amount, an ended
      market and a short balance; quote the bet (an exception escapes with
      nothing moved); move the points to the bot's account; then `place_bet`,
      whose False is ignored. */
  function SubmitBet(a: AmmMarket, l: Balances, house: UserId, user: UserId, option: string,
                     amount: int, now: int): (r: Outcome<BetReply<AmmMarket>>)
    requires Pooled(a)
    ensures amount <= 0 ==> r == Value(Refused(NonPositiveAmount))
    ensures amount > 0 && a.market.endTime <= now ==> r == Value(Refused(Ended))
    ensures amount > 0 && a.market.endTime > now && Balance(l, user) < amount ==>
      r == Value(Refused(InsufficientBalance))
    ensures r.Value? && r.value.Escrowed? ==>
      && r.value.ledger == Transfer(l, user, house, amount)
      && 0 < amount <= Balance(l, user) && now < a.market.endTime
  {
    if amount <= 0 then Value(Refused(NonPositiveAmount))
    else if a.market.endTime <= now then Value(Refused(Ended))
    else if Balance(l, user) < amount then Value(Refused(InsufficientBalance))
    else
      match GetCurrentPrices(a, amount)
      case Raised(e) => Raised(e)
      case Value(prices) =>
        if option !in prices then Raised(KeyError)
        else
          var moved := Transfer(l, user, house, amount);
          match PlaceBet(a, user, option, amount)
          case Raised(e) => Raised(e)
          case Value(rep) => Value(Escrowed(rep.state, moved))
  }

  /** Under the invariant both pools are positive and multiply to `k`, read
      from either side. */
  lemma PoolPair(a: AmmMarket, o: string)
    requires Invariant(a) && o in a.liquidity
    ensures var x, y := a.liquidity[o], a.liquidity[Opposite(a.market.options, o)];
      0.0 < x && 0.0 < y && x * y == K
  {
    var x, y := a.liquidity[o], a.liquidity[Opposite(a.market.options, o)];
    if o != a.market.options[0] {
      assert y * x == K;
    }
  }

  /** Under the invariant a bet of `points > 0` buys a positive number of
      shares, fewer than the pool holds. */
  lemma SharesInPool(a: AmmMarket, o: string, points: int)
    requires Invariant(a) && o in a.liquidity && points > 0
    ensures SharesFor(a, o, points).Value?
    ensures 0.0 < SharesFor(a, o, points).value < a.liquidity[o]
  {
    var x, y := a.liquidity[o], a.liquidity[Opposite(a.market.options, o)];
    PoolPair(a, o);
    SharesWithinPool(x, y, points as real, K);
  }

  /** The pools after buying `SharesFor(a, o, points)` shares of `o` with
      `points > 0`: both positive, with product `k`, in the options' order. */
  lemma TradedLiquidity(a: AmmMarket, o: string, points: int, l: map<string, real>)
    requires Invariant(a) && o in a.liquidity && points > 0
    requires SharesFor(a, o, points).Value?
    requires var opp := Opposite(a.market.options, o);
      l == a.liquidity[o := a.liquidity[o] - SharesFor(a, o, points).value]
                      [opp := a.liquidity[opp] + (points as real)]
    ensures Balanced(l[a.market.options[0]], l[a.market.options[1]])
  {
    SharesInPool(a, o, points);
    var opp := Opposite(a.market.options, o);
    var x, y, s := a.liquidity[o], a.liquidity[opp], SharesFor(a, o, points).value;
    assert l[o] == x - s;
    assert l[opp] == y + (points as real);
    if o == a.market.options[0] {
      SameProduct(l[o], l[opp], x - s, y + (points as real), K);
    } else {
      assert opp == a.market.options[0];
      SameProduct(l[opp], l[o], y + (points as real), x - s, K);
    }
  }

  /** Under the invariant a bet of `points > 0` on an option always goes
      through: the pools keep their product `k`, and the record gains exactly
      `points` of stake. */
  lemma BetKeepsInvariant(a: AmmMarket, user: UserId, o: string, points: int)
    requires Invariant(a) && Valid(a.market) && o in a.liquidity && points > 0
    ensures PlaceBet(a, user, o, points).Value? && PlaceBet(a, user, o, points).value.ok
    ensures var b := PlaceBet(a, user, o, points).value.state;
      && Invariant(b)
      && Valid(b.market)
      && b.market.totalBets == a.market.totalBets + points
      && Stake(b.market, o, user) == Stake(a.market, o, user) + points
  {
    BetKeepsPools(a, user, o, points);
    BetRecordsStake(a, user, o, points);
  }

  lemma BetKeepsPools(a: AmmMarket, user: UserId, o: string, points: int)
    requires Invariant(a) && o in a.liquidity && points > 0
    ensures PlaceBet(a, user, o, points).Value? && PlaceBet(a, user, o, points).value.ok
    ensures Invariant(PlaceBet(a, user, o, points).value.state)
    ensures PlaceBet(a, user, o, points).value.state.market == PariMutuel.PlaceBet(a.market, user, o, points)
  {
    SharesInPool(a, o, points);
    TradedLiquidity(a, o, points, PlaceBet(a, user, o, points).value.state.liquidity);
  }

  lemma BetRecordsStake(a: AmmMarket, user: UserId, o: string, points: int)
    requires Valid(a.market) && o in a.market.options && points > 0
    ensures var m := PariMutuel.PlaceBet(a.market, user, o, points);
      && Valid(m)
      && m.totalBets == a.market.totalBets + points
      && Stake(m, o, user) == Stake(a.market, o, user) + points
  {
    assert HasOption(a.market.bets, o);
  }

  /** Diminishing returns: a second bet of the same size on the same option
      buys strictly fewer shares than the first. */
  lemma DiminishingReturns(a: AmmMarket, user: UserId, o: string, points: int)
    requires Invariant(a) && o in a.liquidity && points > 0
    ensures PlaceBet(a, user, o, points).Value?
    ensures var b := PlaceBet(a, user, o, points).value.state;
      && SharesFor(b, o, points).Value?
      && SharesFor(b, o, points).value < SharesFor(a, o, points).value
  {
    BetKeepsPools(a, user, o, points);
    var b := PlaceBet(a, user, o, points).value.state;
    SecondBet(a, b, o, points);
  }

  lemma SecondBet(a: AmmMarket, b: AmmMarket, o: string, points: int)
    requires Invariant(a) && Invariant(b) && o in a.liquidity && points > 0
    requires b.market.options == a.market.options
    requires SharesFor(a, o, points).Value?
    requires var opp := Opposite(a.market.options, o);
      b.liquidity == a.liquidity[o := a.liquidity[o] - SharesFor(a, o, points).value]
                                [opp := a.liquidity[opp] + (points as real)]
    ensures SharesFor(b, o, points).Value?
    ensures SharesFor(b, o, points).value < SharesFor(a, o, points).value
  {
    var opp := Opposite(a.market.options, o);
    var x, y, p := a.liquidity[o], a.liquidity[opp], points as real;
    PoolPair(a, o);
    SharesInPool(b, o, points);
    var s1 := SharesFor(a, o, points).value;
    var s2 := SharesFor(b, o, points).value;
    assert s1 == x - K / (y + p);
    assert b.liquidity[o] == x - s1 && b.liquidity[opp] == y + p;
    assert s2 == (x - s1) - K / ((y + p) + p);
    DiminishingShares(x, y, p, K);
  }

  /** Pricing the shares a bet buys gives back the bet. */
  lemma PriceOfBet(a: AmmMarket, o: string, points: int)
    requires Invariant(a) && o in a.liquidity && points > 0
    ensures SharesFor(a, o, points).Value?
    ensures GetPrice(a, o, SharesFor(a, o, points).value) == Finite(points as real)
  {
    var opp := Opposite(a.market.options, o);
    var x, y, p := a.liquidity[o], a.liquidity[opp], points as real;
    PoolPair(a, o);
    SharesWithinPool(x, y, p, K);
    var shares := SharesFor(a, o, points).value;
    assert x - shares == K / (y + p);
    PriceOfShares(x, y, p, K);
  }

  /** Spending the price of `s` shares (`0 <= s` below the pool) buys exactly `s`
      shares, for a price that is a whole number of points. */
  lemma SharesOfPriceRoundTrip(a: AmmMarket, o: string, s: real, points: int)
    requires Invariant(a) && o in a.liquidity && 0.0 <= s < a.liquidity[o]
    requires GetPrice(a, o, s) == Finite(points as real)
    ensures SharesFor(a, o, points) == Value(s)
  {
    var opp := Opposite(a.market.options, o);
    var x, y := a.liquidity[o], a.liquidity[opp];
    PoolPair(a, o);
    SharesOfPrice(x, y, s, K);
  }

  /** Under the invariant the odds exist, and the implied probabilities
      `1 / (2 * odds)` are the pool shares, which sum to 1; the larger pool
      has the smaller odds. */
  lemma OddsUnderInvariant(a: AmmMarket)
    requires Invariant(a)
    ensures GetOdds(a).Value?
    ensures var o0, o1 := a.market.options[0], a.market.options[1];
      var x, y := a.liquidity[o0], a.liquidity[o1];
      var odds := GetOdds(a).value;
      && 1.0 / (2.0 * odds[o0]) == x / (x + y)
      && 1.0 / (2.0 * odds[o1]) == y / (x + y)
      && (x < y ==> odds[o1] < odds[o0])
  {
    var o0, o1 := a.market.options[0], a.market.options[1];
    var x, y := a.liquidity[o0], a.liquidity[o1];
    PoolOdds(x, y);
    PoolOdds(y, x);
    assert y + x == x + y;
    if x < y {
      OddsOrder(x, y);
    }
  }

  /** Under the invariant a positive quote never raises: every option gets a
      finite positive price and a potential payout equal to its shares. */
  lemma QuotesUnderInvariant(a: AmmMarket, points: int)
    requires Invariant(a) && points > 0
    ensures GetCurrentPrices(a, points).Value?
    ensures GetCurrentPrices(a, points).value.Keys == a.liquidity.Keys
    ensures forall o :: o in GetCurrentPrices(a, points).value ==>
      FairQuote(GetCurrentPrices(a, points).value[o], points)
  {
    var o0, o1 := a.market.options[0], a.market.options[1];
    SharesInPool(a, o0, points);
    SharesInPool(a, o1, points);
    var r := GetCurrentPrices(a, points).value;
    forall o | o in r
      ensures FairQuote(r[o], points)
    {
      SharesInPool(a, o, points);
      QuoteFair(points, SharesFor(a, o, points).value);
    }
  }

  /** A quote for a positive bet that buys shares: a positive share count, a
      finite price that multiplies back to the bet, and a payout of one point
      per share. */
  predicate FairQuote(q: Quote, points: int) {
    && 0.0 < q.potentialShares
    && q.pricePerShare.Finite? && q.pricePerShare.value * q.potentialShares == points as real
    && q.potentialPayout == q.potentialShares
  }

  lemma QuoteFair(points: int, shares: real)
    requires points > 0 && shares > 0.0
    ensures FairQuote(QuoteFor(points, shares), points)
  {
  }

  /** Settlement stays pari-mutuel: when `total_bets` is the sum of the stakes,
      the AMM payout is `int` of the pari-mutuel payout, with the same errors. */
  lemma PayoutIsPariMutuel(a: AmmMarket, user: UserId)
    requires a.market.totalBets == Total(a.market.bets)
    ensures match PariMutuel.GetUserPayout(a.market, user)
      case Value(p) => GetUserPayout(a, user) == Value(Trunc(p))
      case Raised(e) => GetUserPayout(a, user) == Raised(e)
  {
    var m := a.market;
    if m.resolved && m.result.Some? && HasOption(m.bets, m.result.value) {
      var w := m.result.value;
      var s := Stake(m, w, user);
      var pool := OptionTotal(m.bets, w);
      var book := BookOf(m.bets, w);
      assert Lookup(m.bets, w) == Value(book);
      assert Get(book, user) == s && Sum(book) == pool;
      if s != 0 && pool != 0 {
        assert PariMutuel.GetUserPayout(m, user) == Value(Share(m.totalBets, s, pool));
      }
    }
  }

  /** The AMM resolve callback pays the same credits as the pari-mutuel one,
      so payout conservation carries over. */
  lemma AmmPayoutConservation(a: AmmMarket)
    requires Valid(a.market) && a.market.result.Some?
    ensures AmmWinnerPayouts(a) == WinnerPayouts(a.market)
    ensures var book := BookOf(a.market.bets, a.market.result.value);
      var ps := AmmWinnerPayouts(a);
      && |ps| == |book|
      && (forall i :: 0 <= i < |ps| ==> ps[i].user == book[i].user && ps[i].amount >= book[i].amount)
      && PaidTotal(ps) <= a.market.totalBets
  {
    var m := a.market;
    var w := m.result.value;
    var book := BookOf(m.bets, w);
    var f := u => AsReal(GetUserPayout(a, u));
    var g := u => PariMutuel.GetUserPayout(m, u);
    forall i | 0 <= i < |book|
      ensures f(book[i].user).Value? && g(book[i].user).Value?
      ensures f(book[i].user).value > 0.0 && g(book[i].user).value > 0.0
      ensures Trunc(f(book[i].user).value) == Trunc(g(book[i].user).value)
    {
      EntryPayout(m, i);
      PayoutIsPariMutuel(a, book[i].user);
      BookOfKeeps(m.bets, w);
      var k := Trunc(g(book[i].user).value);
      assert book[i].amount > 0;
      assert Trunc(k as real) == k;
    }
    LoopsAgree(book, f, g);
    assert HasOption(m.bets, w);
    PayoutConservation(m);
  }

  /** Two payout functions that agree, entry by entry, on raising, on being
      positive and on their integer part give the same payout loop. */
  lemma {:induction false} LoopsAgree(winners: Book, f: UserId -> Outcome<real>, g: UserId -> Outcome<real>)
    requires forall i :: 0 <= i < |winners| ==>
      && f(winners[i].user).Value? && g(winners[i].user).Value?
      && (f(winners[i].user).value > 0.0 <==> g(winners[i].user).value > 0.0)
      && Trunc(f(winners[i].user).value) == Trunc(g(winners[i].user).value)
    ensures PayoutLoop(winners, f) == PayoutLoop(winners, g)
    decreases |winners|
  {
    if |winners| > 0 {
      assert forall i :: 0 <= i < |winners[1..]| ==> winners[1..][i] == winners[i + 1];
      LoopsAgree(winners[1..], f, g);
    }
  }

  /** Under the invariant a bet that passes the handler's checks escrows the
      points with the bot's account and records exactly them as stake: the bot
      gains what `total_bets` gains. */
  lemma BetEscrow(a: AmmMarket, l: Balances, house: UserId, user: UserId, option: string,
                  amount: int, now: int)
    requires Invariant(a) && Valid(a.market) && option in a.market.options && user != house
    requires 0 < amount <= Balance(l, user) && now < a.market.endTime
    ensures var r := SubmitBet(a, l, house, user, option, amount, now);
      && r.Value? && r.value.Escrowed?
      && Invariant(r.value.market)
      && r.value.market.market.totalBets == a.market.totalBets + amount
      && Balance(r.value.ledger, house) == Balance(l, house) + amount
      && Balance(r.value.ledger, user) == Balance(l, user) - amount
  {
    SubmitGoesThrough(a, l, house, user, option, amount, now);
    BetKeepsInvariant(a, user, option, amount);
  }
  /** The handler's path for a bet that passes its checks and prices. */
  lemma SubmitGoesThrough(a: AmmMarket, l: Balances, house: UserId, user: UserId, option: string,
                          amount: int, now: int)
    requires Invariant(a) && option in a.market.options
    requires 0 < amount <= Balance(l, user) && now < a.market.endTime
    ensures PlaceBet(a, user, option, amount).Value?
    ensures SubmitBet(a, l, house, user, option, amount, now)
      == Value(Escrowed(PlaceBet(a, user, option, amount).value.state, Transfer(l, user, house, amount)))
  {
    QuotesUnderInvariant(a, amount);
    SharesInPool(a, option, amount);
  }

}
