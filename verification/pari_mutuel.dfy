/** The pari-mutuel `Prediction` record: stakes per option and user, a running
    `total_bets`, a one-shot resolution, and the refund flag. Payout is the whole
    pool split in proportion to the stakes on the winning option. */
module PariMutuel {
  import opened Common
  import opened Stakes
  import opened Pool
  import opened Arith

  datatype Market = Market(
    question: string,
    endTime: int,
    options: seq<string>,
    creator: UserId,
    category: Option<string>,
    bets: Bets,
    resolved: bool,
    result: Option<string>,
    refunded: bool,
    totalBets: int)

  /** The invariant of every market the command handlers can produce. */
  ghost predicate Valid(m: Market) {
    && WellFormed(m.bets)
    && AllPositive(m.bets)
    && (forall o :: HasOption(m.bets, o) <==> o in m.options)
    && m.totalBets == Total(m.bets)
    && (m.refunded ==> m.resolved && m.result.None?)
    && (m.result.Some? ==> m.resolved && m.result.value in m.options)
    && (m.resolved ==> m.refunded || m.result.Some?)
  }

  /** `bets[o].get(u, 0)`, 0 also for an unknown option. */
  function Stake(m: Market, o: string, u: UserId): int {
    Get(BookOf(m.bets, o), u)
  }

  /** The constructor: an open market with an empty book for every option. */
  function NewMarket(question: string, endTime: int, options: seq<string>, creator: UserId,
                     category: Option<string>): (m: Market)
    ensures Valid(m)
    ensures !m.resolved && !m.refunded && m.result.None?
    ensures m.totalBets == 0
    ensures forall o, u :: Stake(m, o, u) == 0
    ensures m.options == options && m.endTime == endTime && m.creator == creator
  {
    var bets := Init(options);
    EmptyPool(bets);
    Market(question, endTime, options, creator, category, bets, false, None, false, 0)
  }

  /** `place_bet`: an unknown option changes nothing; otherwise the user's stake
      on the option and the running total both grow by `amount`. */
  function PlaceBet(m: Market, user: UserId, option: string, amount: int): (r: Market)
    ensures !HasOption(m.bets, option) ==> r == m
    ensures HasOption(m.bets, option) ==>
      && r.totalBets == m.totalBets + amount
      && Stake(r, option, user) == Stake(m, option, user) + amount
      && (forall o, v :: o != option || v != user ==> Stake(r, o, v) == Stake(m, o, v))
    ensures r.options == m.options && r.resolved == m.resolved
    ensures r.result == m.result && r.refunded == m.refunded
    ensures r.endTime == m.endTime && r.creator == m.creator
    ensures Valid(m) && amount > 0 ==> Valid(r)
  {
    if HasOption(m.bets, option) then
      var bets := Place(m.bets, option, user, amount);
      PlaceKeeps(m.bets, option, user, amount);
      m.(bets := bets, totalBets := m.totalBets + amount)
    else
      m
  }

  /** `resolve`: succeeds only for a listed option of a market not yet resolved. */
  function Resolve(m: Market, result: string): (r: Reply<Market>)
    ensures r.ok <==> result in m.options && !m.resolved
    ensures r.ok ==> r.state.resolved && r.state.result == Some(result)
    ensures r.state.refunded == m.refunded
    ensures r.state.bets == m.bets && r.state.totalBets == m.totalBets
    ensures r.state.options == m.options && r.state.creator == m.creator
    ensures !r.ok ==> r.state == m
    ensures Valid(m) ==> Valid(r.state)
  {
    if result in m.options && !m.resolved then
      Reply(true, m.(resolved := true, result := Some(result)))
    else
      Reply(false, m)
  }

  /** `mark_as_refunded`: both flags set, the stakes kept. */
  function MarkAsRefunded(m: Market): (r: Market)
    ensures r.resolved && r.refunded
    ensures r.bets == m.bets && r.totalBets == m.totalBets && r.result == m.result
    ensures r.options == m.options && r.creator == m.creator && r.endTime == m.endTime
    ensures Valid(m) && !m.resolved ==> Valid(r)
  {
    m.(refunded := true, resolved := true)
  }

  /** Python's `T * (s / W)` over exact reals. */
  function Share(total: int, stake: int, pool: int): (x: real)
    requires pool != 0
    ensures x * (pool as real) == (total as real) * (stake as real)
  {
    (total as real) * ((stake as real) / (pool as real))
  }

  /** `get_user_payout`: 0 before resolution and for a user with no winning
      stake; otherwise the pool share `total_bets * stake / winning_pool`. */
  function GetUserPayout(m: Market, user: UserId): (r: Outcome<real>)
    ensures !m.resolved || m.result.None? ==> r == Value(0.0)
    ensures m.resolved && m.result.Some? ==>
      var w := m.result.value;
      && (!HasOption(m.bets, w) ==> r == Raised(KeyError))
      && (HasOption(m.bets, w) && Stake(m, w, user) == 0 ==> r == Value(0.0))
      && (HasOption(m.bets, w) && Stake(m, w, user) != 0 && OptionTotal(m.bets, w) == 0 ==>
            r == Raised(ZeroDivisionError))
      && (HasOption(m.bets, w) && Stake(m, w, user) != 0 && OptionTotal(m.bets, w) != 0 ==>
            r.Value? && r.value * (OptionTotal(m.bets, w) as real)
                        == (m.totalBets as real) * (Stake(m, w, user) as real))
  {
    if !m.resolved || m.result.None? then Value(0.0)
    else
      var w := m.result.value;
      var winningPool := OptionTotal(m.bets, w);
      match Lookup(m.bets, w)
      case Raised(e) => Raised(e)
      case Value(book) =>
        var userBet := Get(book, user);
        if userBet == 0 then Value(0.0)
        else if winningPool == 0 then Raised(ZeroDivisionError)
        else Value(Share(m.totalBets, userBet, winningPool))
  }

  /** One entry of `get_odds`: pool total over option total, or infinity when
      nothing (or a non-positive total) is staked on the option. */
  function OddsOf(total: int, optionTotal: int): (r: Extended)
    ensures r.Finite? <==> optionTotal > 0
    ensures r.Finite? ==> r.value * (optionTotal as real) == total as real
  {
    if optionTotal > 0 then Finite((total as real) / (optionTotal as real)) else Infinity
  }

  /** `get_odds`: the odds of every listed option. */
  function GetOdds(m: Market): (r: map<string, Extended>)
    ensures forall o :: o in r <==> o in m.options
    ensures forall o :: o in r ==> r[o] == OddsOf(m.totalBets, OptionTotal(m.bets, o))
  {
    map o | o in m.options :: OddsOf(m.totalBets, OptionTotal(m.bets, o))
  }

  /** `get_bet_history` */
  function GetBetHistory(m: Market): seq<Record> {
    History(m.bets)
  }

  lemma EmptyPool(bets: Bets)
    requires forall i :: 0 <= i < |bets| ==> bets[i].book == []
    ensures Total(bets) == 0
    ensures forall o, u :: Get(BookOf(bets, o), u) == 0
    decreases |bets|
  {
    if |bets| > 0 {
      EmptyPool(bets[1..]);
    }
  }

  /** Resolution is one-shot: a second `resolve` fails and leaves the result. */
  lemma ResolveOnce(m: Market, first: string, second: string)
    requires Resolve(m, first).ok
    ensures !Resolve(Resolve(m, first).state, second).ok
    ensures Resolve(Resolve(m, first).state, second).state.result == Some(first)
  {
  }

  /** A refunded market can no longer be resolved. */
  lemma RefundBlocksResolve(m: Market, result: string)
    ensures !Resolve(MarkAsRefunded(m), result).ok
    ensures Resolve(MarkAsRefunded(m), result).state.result == m.result
  {
  }

  /** Under the invariant every finite odd is at least 1. */
  lemma {:induction false} OddsAtLeastOne(m: Market, o: string)
    requires Valid(m) && o in m.options
    ensures GetOdds(m)[o].Finite? ==> GetOdds(m)[o].value >= 1.0
  {
    OptionTotalBounds(m.bets, o);
    OddsOfAtLeastOne(m.totalBets, OptionTotal(m.bets, o));
  }

  lemma OddsOfAtLeastOne(total: int, optionTotal: int)
    requires optionTotal <= total
    ensures OddsOf(total, optionTotal).Finite? ==> OddsOf(total, optionTotal).value >= 1.0
  {
    var r := OddsOf(total, optionTotal);
    if r.Finite? {
      RatioAtLeastOne(r.value, optionTotal as real, total as real);
    }
  }

  /** Under the invariant the bet history sums to `total_bets`. */
  lemma BetHistoryTotal(m: Market)
    requires Valid(m)
    ensures RecordSum(GetBetHistory(m)) == m.totalBets
    ensures |GetBetHistory(m)| == EntryCount(m.bets)
  {
    HistoryTotal(m.bets);
  }

  /** A winning stake earns at least itself and at most the whole pool. */
  lemma PayoutBounds(m: Market, user: UserId)
    requires Valid(m) && m.result.Some? && Stake(m, m.result.value, user) > 0
    ensures GetUserPayout(m, user).Value?
    ensures var p := GetUserPayout(m, user).value;
      Stake(m, m.result.value, user) as real <= p <= m.totalBets as real
  {
    var w := m.result.value;
    PayoutIsShare(m, user);
    OptionTotalBounds(m.bets, w);
    StakeWithinOption(m.bets, w, user);
    ShareWithin(m.totalBets, Stake(m, w, user), OptionTotal(m.bets, w));
  }

  /** The share `T * (s / W)` of a stake `0 < s <= W <= T` lies in `[s, T]`. */
  lemma ShareWithin(total: int, stake: int, pool: int)
    requires 0 < stake <= pool <= total
    ensures stake as real <= Share(total, stake, pool) <= total as real
  {
    ShareBounds(Share(total, stake, pool), stake as real, pool as real, total as real);
  }

  /** Under the invariant a winning stake's payout is its exact pool share and
      nothing raises. */
  lemma PayoutIsShare(m: Market, user: UserId)
    requires Valid(m) && m.result.Some? && Stake(m, m.result.value, user) > 0
    ensures OptionTotal(m.bets, m.result.value) > 0
    ensures GetUserPayout(m, user) ==
      Value(Share(m.totalBets, Stake(m, m.result.value, user), OptionTotal(m.bets, m.result.value)))
  {
    StakeWithinOption(m.bets, m.result.value, user);
    assert HasOption(m.bets, m.result.value);
  }

  /** With positive stakes a user's stake on an option is within that option's total. */
  lemma {:induction false} StakeWithinOption(bets: Bets, o: string, u: UserId)
    requires AllPositive(bets)
    ensures 0 <= Get(BookOf(bets, o), u) <= OptionTotal(bets, o)
    decreases |bets|
  {
    if |bets| > 0 {
      assert Positive(bets[0].book);
      if bets[0].option == o {
        GetWithinSum(bets[0].book, u);
      } else {
        StakeWithinOption(bets[1..], o, u);
        if HasOption(bets, o) {
          assert HasOption(bets[1..], o);
        }
      }
    }
  }

  lemma {:induction false} GetWithinSum(b: Book, u: UserId)
    requires Positive(b)
    ensures 0 <= Get(b, u) <= Sum(b)
    decreases |b|
  {
    if |b| > 0 {
      GetWithinSum(b[1..], u);
      SumPositive(b[1..]);
    }
  }
}
