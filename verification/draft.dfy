/** The older command handlers, which address markets by their index in the
    cog's list: `/create_prediction`, `/bet` with a typed option, and
    `/resolve_prediction` with a typed result. The record is the pari-mutuel one
    without a category and never refunded; its `resolve` has no guard against
    a second call. */
module Draft {
  import opened Common
  import opened Stakes
  import opened Pool
  import opened Ledger
  import opened PariMutuel
  import opened Settlement
  import opened Parsing

  /** What `/resolve_prediction` does: refuse with a reason, or resolve and
      credit the winners. */
  datatype Resolution =
    | Declined(reason: Rejection)
    | Paid(markets: seq<Market>, ledger: Balances, credits: seq<Payment>)

  /** The older `resolve`: a listed option becomes the result even when the
      market is already resolved; an unlisted one changes nothing. */
  function DraftResolve(m: Market, result: string): (r: Market)
    ensures result in m.options ==> r.resolved && r.result == Some(result)
    ensures result !in m.options ==> r == m
    ensures r.bets == m.bets && r.totalBets == m.totalBets && r.options == m.options
    ensures r.endTime == m.endTime && r.refunded == m.refunded
    ensures Valid(m) && !m.refunded ==> Valid(r)
  {
    if result in m.options then m.(resolved := true, result := Some(result)) else m
  }

  /** `/create_prediction`: at least two comma-separated options, the market
      appended to the list with an end time `duration` minutes from now. An
      end time outside `datetime`'s range raises `OverflowError`, which the
      command does not catch, and no market is added. */
  function Create(markets: seq<Market>, question: string, duration: int, optionsText: string,
                  creator: UserId, now: int): (r: Parsed<seq<Market>>)
    ensures r.Parsed? <==> ',' in optionsText && InDatetimeRange(now + 60 * duration)
    ensures r.Invalid? ==> r.error == if ',' in optionsText then EndOutOfRange else TooFewOptions
    ensures r.Parsed? ==>
      && |r.value| == |markets| + 1 && r.value[..|markets|] == markets
      && var m := r.value[|markets|];
      && Valid(m) && !m.resolved && !m.refunded && m.totalBets == 0
      && m.options == OptionList(optionsText) && m.endTime == now + 60 * duration
      && m.creator == creator
  {
    match ParseOptions(optionsText)
    case Invalid(e) => Invalid(e)
    case Parsed(options) =>
      match EndTime(now, duration)
      case Invalid(e) => Invalid(e)
      case Parsed(end) => Parsed(markets + [NewMarket(question, end, options, creator, None)])
  }

  /** `/bet`: the index, the end time, the option, the amount and the balance
      are checked in that order; then the points move to the bot's account and
      the stake is recorded. A resolved market is not refused. */
  function BetCommand(markets: seq<Market>, index: int, user: UserId, option: string, amount: int,
                      now: int, l: Balances, house: UserId): (r: BetReply<seq<Market>>)
    ensures !(0 <= index < |markets|) ==> r == Refused(InvalidIndex)
    ensures 0 <= index < |markets| ==>
      var m := markets[index];
      && (m.endTime <= now ==> r == Refused(Ended))
      && (now < m.endTime && option !in m.options ==> r == Refused(InvalidOption))
      && (now < m.endTime && option in m.options && amount <= 0 ==> r == Refused(NonPositiveAmount))
      && (now < m.endTime && option in m.options && 0 < amount && Balance(l, user) < amount ==>
            r == Refused(InsufficientBalance))
      && (r.Escrowed? <==> now < m.endTime && option in m.options && 0 < amount <= Balance(l, user))
    ensures r.Escrowed? ==>
      && |r.market| == |markets|
      && r.market == markets[index := PlaceBet(markets[index], user, option, amount)]
      && r.ledger == Transfer(l, user, house, amount)
  {
    if !(0 <= index < |markets|) then Refused(InvalidIndex)
    else
      var m := markets[index];
      if m.endTime <= now then Refused(Ended)
      else if option !in m.options then Refused(InvalidOption)
      else if amount <= 0 then Refused(NonPositiveAmount)
      else if Balance(l, user) < amount then Refused(InsufficientBalance)
      else Escrowed(markets[index := PlaceBet(m, user, option, amount)], Transfer(l, user, house, amount))
  }

  /** `/bet` as the later handlers offer it: a resolved market is refused as
      well, before the points move. */
  function BetCommandOpenOnly(markets: seq<Market>, index: int, user: UserId, option: string,
                              amount: int, now: int, l: Balances, house: UserId): (r: BetReply<seq<Market>>)
    ensures 0 <= index < |markets| && markets[index].resolved && now < markets[index].endTime ==>
      r == Refused(AlreadyResolved)
    ensures !(0 <= index < |markets| && markets[index].resolved && now < markets[index].endTime) ==>
      r == BetCommand(markets, index, user, option, amount, now, l, house)
    ensures r.Escrowed? ==> !markets[index].resolved && !r.market[index].resolved
  {
    if 0 <= index < |markets| && markets[index].resolved && now < markets[index].endTime then
      Refused(AlreadyResolved)
    else
      BetCommand(markets, index, user, option, amount, now, l, house)
  }

  /** `/resolve_prediction`: the index, a resolved market and an unlisted
      result are refused in that order; otherwise the market is resolved and
      the payout loop credits the winning book. */
  function ResolveCommand(markets: seq<Market>, index: int, result: string, l: Balances): (r: Resolution)
    ensures !(0 <= index < |markets|) ==> r == Declined(InvalidIndex)
    ensures 0 <= index < |markets| ==>
      var m := markets[index];
      && (m.resolved ==> r == Declined(AlreadyResolved))
      && (!m.resolved && result !in m.options ==> r == Declined(InvalidResult))
      && (r.Paid? <==> !m.resolved && result in m.options)
    ensures r.Paid? ==>
      && |r.markets| == |markets|
      && r.markets[index].resolved && r.markets[index].result == Some(result)
      && r.credits == WinnerPayouts(r.markets[index])
      && forall u :: Balance(r.ledger, u) == Balance(l, u) + PaidTo(r.credits, u)
  {
    if !(0 <= index < |markets|) then Declined(InvalidIndex)
    else
      var m := markets[index];
      if m.resolved then Declined(AlreadyResolved)
      else if result !in m.options then Declined(InvalidResult)
      else
        var w := DraftResolve(m, result);
        var ps := WinnerPayouts(w);
        Paid(markets[index := w], ApplyAll(l, ps), ps)
  }

  /** Unlike the later record's `resolve`, the older one lets a second call
      replace the result. */
  lemma ResolveOverwrites(m: Market, first: string, second: string)
    requires first in m.options && second in m.options
    ensures DraftResolve(DraftResolve(m, first), second).result == Some(second)
    ensures first != second ==> DraftResolve(DraftResolve(m, first), second).result != DraftResolve(m, first).result
  {
  }

  /** The command's guard stops that overwrite: once a market is resolved
      through the command a second command is declined. */
  lemma ResolveCommandOnce(markets: seq<Market>, index: int, first: string, second: string, l: Balances)
    requires ResolveCommand(markets, index, first, l).Paid?
    ensures var r := ResolveCommand(markets, index, first, l);
      ResolveCommand(r.markets, index, second, r.ledger) == Declined(AlreadyResolved)
  {
  }

  /** A bet the older `/bet` accepts on a market resolved before its end time:
      the user's points reach the bot's account, and the resolve command will
      never pay them out, because it now declines the market. */
  lemma LateBetNeverPaid(markets: seq<Market>, index: int, user: UserId, option: string, amount: int,
                         now: int, l: Balances, house: UserId, result: string)
    requires 0 <= index < |markets| && markets[index].resolved
    requires now < markets[index].endTime && option in markets[index].options
    requires 0 < amount <= Balance(l, user) && user != house
    ensures var r := BetCommand(markets, index, user, option, amount, now, l, house);
      && r.Escrowed?
      && Balance(r.ledger, user) == Balance(l, user) - amount
      && Balance(r.ledger, house) == Balance(l, house) + amount
      && ResolveCommand(r.market, index, result, r.ledger) == Declined(AlreadyResolved)
  {
  }

  /** With the open-only guard every accepted bet is paid: resolving the market
      with the bet's option credits the user at least the stake just placed. */
  lemma AcceptedBetIsPaid(markets: seq<Market>, index: int, user: UserId, option: string, amount: int,
                          now: int, l: Balances, house: UserId)
    requires 0 <= index < |markets| && Valid(markets[index]) && !markets[index].refunded
    requires BetCommandOpenOnly(markets, index, user, option, amount, now, l, house).Escrowed?
    ensures var r := BetCommandOpenOnly(markets, index, user, option, amount, now, l, house);
      var p := ResolveCommand(r.market, index, option, r.ledger);
      && p.Paid?
      && PaidTo(p.credits, user) >= amount
  {
    var m := markets[index];
    var r := BetCommandOpenOnly(markets, index, user, option, amount, now, l, house);
    assert HasOption(m.bets, option);
    var placed := PlaceBet(m, user, option, amount);
    assert r.market[index] == placed;
    assert Valid(placed);
    StakeWithinOption(m.bets, option, user);
    assert Stake(placed, option, user) >= amount;
    var w := DraftResolve(placed, option);
    assert Valid(w) && w.result == Some(option);
    WinnerPaidAtLeast(w, user);
  }
}
