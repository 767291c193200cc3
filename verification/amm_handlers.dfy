/** The handlers of the constant-product cog around one market: creation from
    the command's option and duration texts, the refund step of the scheduled
    task, and the resolve callback with its payout loop. */
module AmmHandlers {
  import opened Common
  import opened Stakes
  import opened Pool
  import opened Ledger
  import opened PariMutuel
  import opened Settlement
  import opened Parsing
  import Amm
  import Lifecycle

  /** A market and the ledger after a settlement step, with the credits issued. */
  datatype AmmAfter = AmmAfter(market: Amm.AmmMarket, ledger: Balances, credits: seq<Payment>)

  /** `create_prediction`: the option list is checked first, then the
      `days,hours,minutes` duration, then the end time that many minutes after
      `now` must lie in `datetime`'s range; the market starts with seeded pools. */
  function Create(question: string, optionsText: string, durationText: string,
                  parseInt: string -> Option<int>, creator: UserId, category: Option<string>,
                  now: int): (r: Parsed<Amm.AmmMarket>)
    ensures ',' !in optionsText ==> r == Invalid(TooFewOptions)
    ensures ',' in optionsText && ParseDuration(durationText, parseInt).Invalid? ==>
      r == Invalid(ParseDuration(durationText, parseInt).error)
    ensures ',' in optionsText && ParseDuration(durationText, parseInt).Parsed? ==>
      (r.Parsed? <==> InDatetimeRange(now + 60 * ParseDuration(durationText, parseInt).value))
      && (r.Invalid? ==> r.error == EndOutOfRange)
    ensures r.Parsed? ==>
      var m := r.value.market;
      && m.options == OptionList(optionsText) && |m.options| >= 2
      && m.endTime == now + 60 * ParseDuration(durationText, parseInt).value
      && m.endTime > now
      && m.creator == creator && m.category == category
      && Valid(m) && !m.resolved && !m.refunded && m.totalBets == 0
      && (Amm.Binary(m.options) ==> Amm.Invariant(r.value))
  {
    match ParseOptions(optionsText)
    case Invalid(e) => Invalid(e)
    case Parsed(options) =>
      match ParseDuration(durationText, parseInt)
      case Invalid(e) => Invalid(e)
      case Parsed(total) => Launch(question, options, total, creator, category, now)
  }

  /** The market of `create_prediction` once its inputs parsed: it ends
      `minutes` after `now`, unless that end overflows `datetime`. */
  function Launch(question: string, options: seq<string>, minutes: int, creator: UserId,
                  category: Option<string>, now: int): (r: Parsed<Amm.AmmMarket>)
    ensures r.Parsed? <==> InDatetimeRange(now + 60 * minutes)
    ensures r.Invalid? ==> r.error == EndOutOfRange
    ensures r.Parsed? ==>
      && r.value.market == NewMarket(question, now + 60 * minutes, options, creator, category)
      && (minutes > 0 ==> r.value.market.endTime > now)
      && (Amm.Binary(options) ==> Amm.Invariant(r.value))
  {
    match EndTime(now, minutes)
    case Invalid(e) => Invalid(e)
    case Parsed(end) => Parsed(Amm.Create(question, end, options, creator, category))
  }

  /** The refund step of the scheduled task: a resolved market is left alone;
      otherwise it is marked refunded and every recorded stake is credited
      back. The pools are not touched. */
  function RefundStep(a: Amm.AmmMarket, l: Balances): (r: AmmAfter)
    ensures a.market.resolved ==> r == AmmAfter(a, l, [])
    ensures !a.market.resolved ==> r.market.market.refunded && r.credits == Refunds(a.market.bets)
    ensures r.market.liquidity == a.liquidity && r.market.market.bets == a.market.bets
    ensures Amm.Invariant(a) ==> Amm.Invariant(r.market)
    ensures forall u :: Balance(r.ledger, u) == Balance(l, u) + PaidTo(r.credits, u)
  {
    if a.market.resolved then AmmAfter(a, l, [])
    else
      var ps := Refunds(a.market.bets);
      AmmAfter(Amm.MarkAsRefunded(a), ApplyAll(l, ps), ps)
  }

  /** The resolve callback: `resolve(result)`, and only when it succeeds the
      payout loop over the winning book with the AMM `get_user_payout`. */
  function PayoutStep(a: Amm.AmmMarket, l: Balances, result: string): (r: Reply<AmmAfter>)
    ensures r.ok <==> result in a.market.options && !a.market.resolved
    ensures !r.ok ==> r.state == AmmAfter(a, l, [])
    ensures r.ok ==> r.state.market == Amm.Resolve(a, result).state
    ensures r.ok ==> r.state.credits == Amm.AmmWinnerPayouts(r.state.market)
    ensures forall u :: Balance(r.state.ledger, u) == Balance(l, u) + PaidTo(r.state.credits, u)
  {
    var rep := Amm.Resolve(a, result);
    if !rep.ok then Reply(false, AmmAfter(a, l, []))
    else
      var ps := Amm.AmmWinnerPayouts(rep.state);
      Reply(true, AmmAfter(rep.state, ApplyAll(l, ps), ps))
  }

  /** Creation read back from its inputs: two comma-free option texts and
      three comma-free duration fields with a positive total give a binary
      market on the stripped options, ending that many minutes from now, whose
      pools satisfy the constant-product invariant, provided that end time
      lies in `datetime`'s range; otherwise creation fails with the overflow. */
  lemma CreateFromFields(question: string, yes: string, no: string, days: string, hours: string,
                         minutes: string, parseInt: string -> Option<int>, creator: UserId,
                         category: Option<string>, now: int)
    requires ',' !in yes && ',' !in no && Strip(yes) != Strip(no)
    requires ',' !in days && ',' !in hours && ',' !in minutes
    requires Field(days, parseInt).Some? && Field(hours, parseInt).Some? && Field(minutes, parseInt).Some?
    requires Minutes(Field(days, parseInt).value, Field(hours, parseInt).value, Field(minutes, parseInt).value) > 0
    ensures var r := Create(question, yes + "," + no, days + "," + hours + "," + minutes, parseInt,
                            creator, category, now);
      var end := now + 60 * Minutes(Field(days, parseInt).value, Field(hours, parseInt).value,
                                    Field(minutes, parseInt).value);
      && (r.Parsed? <==> InDatetimeRange(end))
      && (r.Invalid? ==> r.error == EndOutOfRange)
      && (r.Parsed? ==>
            && r.value.market.options == [Strip(yes), Strip(no)]
            && r.value.market.endTime == end
            && Amm.Invariant(r.value))
  {
    DurationOfFields(days, hours, minutes, parseInt);
    OptionsOfPair(yes, no);
  }

  /** The refund step agrees with the pari-mutuel one and gives every staker
      back exactly what they staked, the whole of `total_bets` in all; the
      refunded market can no longer be resolved. */
  lemma RefundReturnsStakes(a: Amm.AmmMarket, l: Balances, u: UserId, o: string)
    requires Valid(a.market) && !a.market.resolved
    ensures var r := RefundStep(a, l);
      && r.market.market == Lifecycle.RefundStep(a.market, l).market
      && r.ledger == Lifecycle.RefundStep(a.market, l).ledger
      && PaidTotal(r.credits) == a.market.totalBets
      && Balance(r.ledger, u) == Balance(l, u) + StakedBy(a.market.bets, u)
      && !Amm.Resolve(r.market, o).ok
  {
    Lifecycle.RefundReturnsStakes(a.market, l, u, o);
  }

  /** The AMM payout step credits what the pari-mutuel one credits: each
      winner at least their stake and, in all, no more than the pool. */
  lemma PayoutPaysWinners(a: Amm.AmmMarket, l: Balances, result: string, u: UserId)
    requires Valid(a.market) && PayoutStep(a, l, result).ok
    ensures var r := PayoutStep(a, l, result).state;
      && r.credits == Lifecycle.PayoutStep(a.market, l, result).state.credits
      && PaidTotal(r.credits) <= a.market.totalBets
      && PaidTo(r.credits, u) >= Stake(a.market, result, u)
      && Balance(r.ledger, u) >= Balance(l, u) + Stake(a.market, result, u)
  {
    var w := Amm.Resolve(a, result).state;
    Amm.AmmPayoutConservation(w);
    Lifecycle.PayoutPaysWinners(a.market, l, result, u);
  }
}
