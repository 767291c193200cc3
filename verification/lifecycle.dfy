/** The life of one pari-mutuel market, as the command handlers and the
    scheduled task drive it: creation, bets until the end time, resolution by
    the creator with winner payouts, and otherwise the automatic refund after
    the 48-hour grace period. Every handler is a pure step on the market and
    the points ledger; the clock is part of the state. */
module Lifecycle {
  import opened Common
  import opened Stakes
  import opened Pool
  import opened Ledger
  import opened PariMutuel
  import opened Settlement
  import opened Parsing

  /** `48 * 3600` seconds between the end of betting and the refund. */
  const GracePeriod: int := 48 * 3600

  /** A market and the ledger after a settlement step, with the credits issued. */
  datatype After = After(market: Market, ledger: Balances, credits: seq<Payment>)

  /** The refund step of the scheduled task: a resolved market is left alone;
      otherwise it is marked refunded and every stake is credited back. */
  function RefundStep(m: Market, l: Balances): (r: After)
    ensures m.resolved ==> r == After(m, l, [])
    ensures !m.resolved ==> r.market == MarkAsRefunded(m) && r.credits == Refunds(m.bets)
    ensures forall u :: Balance(r.ledger, u) == Balance(l, u) + PaidTo(r.credits, u)
  {
    if m.resolved then After(m, l, [])
    else
      var ps := Refunds(m.bets);
      After(MarkAsRefunded(m), ApplyAll(l, ps), ps)
  }

  /** The resolve callback: `resolve(result)`, and only when it succeeds the
      payout loop over the winning book. */
  function PayoutStep(m: Market, l: Balances, result: string): (r: Reply<After>)
    ensures r.ok <==> result in m.options && !m.resolved
    ensures !r.ok ==> r.state == After(m, l, [])
    ensures r.ok ==> r.state.market == Resolve(m, result).state
    ensures r.ok ==> r.state.credits == WinnerPayouts(r.state.market)
    ensures forall u :: Balance(r.state.ledger, u) == Balance(l, u) + PaidTo(r.state.credits, u)
  {
    var rep := Resolve(m, result);
    if !rep.ok then Reply(false, After(m, l, []))
    else
      var ps := WinnerPayouts(rep.state);
      Reply(true, After(rep.state, ApplyAll(l, ps), ps))
  }

  /** The bet modal's submit handler for the option its button stands for:
      reject a non-positive amount, an ended market and a short balance, then
      move the points to the bot's account and record the stake. */
  function SubmitBet(m: Market, l: Balances, house: UserId, user: UserId, option: string,
                     amount: int, now: int): (r: BetReply<Market>)
    ensures amount <= 0 ==> r == Refused(NonPositiveAmount)
    ensures amount > 0 && m.endTime <= now ==> r == Refused(Ended)
    ensures amount > 0 && now < m.endTime && Balance(l, user) < amount ==> r == Refused(InsufficientBalance)
    ensures r.Escrowed? <==> 0 < amount <= Balance(l, user) && now < m.endTime
  {
    if amount <= 0 then Refused(NonPositiveAmount)
    else if m.endTime <= now then Refused(Ended)
    else if Balance(l, user) < amount then Refused(InsufficientBalance)
    else Escrowed(PlaceBet(m, user, option, amount), Transfer(l, user, house, amount))
  }

  /** The submit handler as the option button builds it: the option is the
      first word of the button label (`label.split(' ')[0]`). */
  function SubmitBetAsWritten(m: Market, l: Balances, house: UserId, user: UserId, caption: string,
                              amount: int, now: int): (r: BetReply<Market>)
    ensures ' ' !in caption ==> r == SubmitBet(m, l, house, user, caption, amount, now)
    ensures r.Escrowed? ==> r.ledger == Transfer(l, user, house, amount)
  {
    SubmitBet(m, l, house, user, FirstWord(caption), amount, now)
  }

  /** The refund step gives every staker back exactly what they staked, the
      whole pool in total, and leaves a market that can no longer be resolved. */
  lemma RefundReturnsStakes(m: Market, l: Balances, u: UserId, o: string)
    requires Valid(m) && !m.resolved
    ensures PaidTotal(RefundStep(m, l).credits) == m.totalBets
    ensures Balance(RefundStep(m, l).ledger, u) == Balance(l, u) + StakedBy(m.bets, u)
    ensures !Resolve(RefundStep(m, l).market, o).ok
  {
    RefundConservation(m.bets, u);
  }

  /** The payout step credits each winner at least their stake and, in all,
      no more than the pool. */
  lemma PayoutPaysWinners(m: Market, l: Balances, result: string, u: UserId)
    requires Valid(m) && PayoutStep(m, l, result).ok
    ensures PaidTotal(PayoutStep(m, l, result).state.credits) <= m.totalBets
    ensures PaidTo(PayoutStep(m, l, result).state.credits, u) >= Stake(m, result, u)
    ensures Balance(PayoutStep(m, l, result).state.ledger, u) >= Balance(l, u) + Stake(m, result, u)
  {
    var w := Resolve(m, result).state;
    PayoutConservation(w);
    WinnerPaidAtLeast(w, u);
  }

  /** A bet on a listed option escrows exactly what it records: the bot's
      account gains what `total_bets` gains, and the user's stake grows by it. */
  lemma ExactOptionEscrow(m: Market, l: Balances, house: UserId, user: UserId, option: string,
                          amount: int, now: int)
    requires Valid(m) && option in m.options && user != house
    requires SubmitBet(m, l, house, user, option, amount, now).Escrowed?
    ensures var r := SubmitBet(m, l, house, user, option, amount, now);
      && Valid(r.market)
      && r.market.totalBets == m.totalBets + amount
      && Balance(r.ledger, house) == Balance(l, house) + amount
      && Stake(r.market, option, user) == Stake(m, option, user) + amount
  {
    assert HasOption(m.bets, option);
  }

  /** When the first word of a button's option is not itself an option the
      points reach the bot's account but no stake is recorded, so `total_bets`
      no longer matches what was escrowed. */
  lemma FirstWordLosesStake(m: Market, l: Balances, house: UserId, user: UserId, caption: string,
                            amount: int, now: int)
    requires Valid(m) && FirstWord(caption) !in m.options && user != house
    requires 0 < amount <= Balance(l, user) && now < m.endTime
    ensures var r := SubmitBetAsWritten(m, l, house, user, caption, amount, now);
      && r.Escrowed?
      && r.market == m
      && Balance(r.ledger, user) == Balance(l, user) - amount
      && Balance(r.ledger, house) == Balance(l, house) + amount
  {
  }

  /** Where the scheduled task is: waiting for the end time, waiting out the
      grace period that started at `since`, or finished. */
  datatype Timer = AwaitClose | AwaitGrace(since: int) | Done

  /** What the engine has credited for the market so far. A payout records the
      market as the payout loop saw it, `paidOn`. */
  datatype Settled =
    | Unsettled
    | PaidOut(credits: seq<Payment>, paidOn: Market)
    | RefundedAll(credits: seq<Payment>)

  /** One market with its ledger. `start` is the ledger when the market was
      created and `house` is the bot's own account, which receives the bets.
      `offered` holds the users whose `/bet` listed the market, so that they
      hold its option buttons. `stray` is bookkeeping only: the points a submit
      moved to the bot for which no stake was recorded. */
  datatype System = System(market: Market, ledger: Balances, start: Balances, house: UserId,
                           timer: Timer, clock: int, settled: Settled,
                           offered: set<UserId>, stray: seq<Payment>)

  /** The inputs: time passing, the two wake-ups of the scheduled task, a user
      invoking `/bet`, the submit of the amount modal behind one of the option
      buttons (`choice` indexes the options, whose names are the labels) and a
      resolution through the result select. */
  datatype Event =
    | Tick(seconds: nat)
    | CloseFires
    | GraceFires
    | Browse(user: UserId)
    | Bet(user: UserId, choice: nat, amount: int)
    | ResolveBy(user: UserId, choice: nat)

  /** What a user has been credited by the settlement. */
  function Credited(s: Settled, u: UserId): int {
    if s.Unsettled? then 0 else PaidTo(s.credits, u)
  }

  /** `create_prediction`: at least two comma-separated options, an end time
      `duration` minutes from now inside `datetime`'s range, and the scheduled
      task waiting for it. The overflow is caught and reported, and then no
      market exists. */
  function Open(question: string, duration: int, optionsText: string, creator: UserId,
                category: Option<string>, now: int, l: Balances, house: UserId): (r: Parsed<System>)
    ensures r.Parsed? <==> ',' in optionsText && InDatetimeRange(now + 60 * duration)
    ensures r.Invalid? ==> r.error == if ',' in optionsText then EndOutOfRange else TooFewOptions
    ensures r.Parsed? ==>
      && r.value.market.options == OptionList(optionsText)
      && r.value.market.endTime == now + 60 * duration
      && r.value.market.totalBets == 0
      && CheckedInv(r.value)
  {
    match ParseOptions(optionsText)
    case Invalid(e) => Invalid(e)
    case Parsed(options) =>
      match EndTime(now, duration)
      case Invalid(e) => Invalid(e)
      case Parsed(end) =>
        var m := NewMarket(question, end, options, creator, category);
        NothingStaked(m.bets);
        Parsed(System(m, l, l, house, AwaitClose, now, Unsettled, {}, []))
  }

  /** The scheduled task after the sleep until the end time: a resolved market
      ends it, otherwise the creator is told and the grace period starts.
      Neither the market nor the ledger changes. */
  function CloseStep(s: System): (r: System)
    ensures r.market == s.market && r.ledger == s.ledger && r.settled == s.settled && r.clock == s.clock
    ensures r.offered == s.offered && r.stray == s.stray
    ensures s.timer.AwaitClose? && s.market.endTime <= s.clock ==>
      r.timer == if s.market.resolved then Done else AwaitGrace(s.clock)
    ensures !(s.timer.AwaitClose? && s.market.endTime <= s.clock) ==> r == s
  {
    if s.timer.AwaitClose? && s.market.endTime <= s.clock then
      s.(timer := if s.market.resolved then Done else AwaitGrace(s.clock))
    else s
  }

  /** The scheduled task after the 48-hour sleep: the refund step, and the end
      of the scheduled coroutine. */
  function GraceStep(s: System): (r: System)
    ensures s.timer.AwaitGrace? && s.timer.since + GracePeriod <= s.clock ==>
      var a := RefundStep(s.market, s.ledger);
      && r.market == a.market && r.ledger == a.ledger && r.timer == Done
      && r.settled == (if s.market.resolved then s.settled else RefundedAll(a.credits))
    ensures !(s.timer.AwaitGrace? && s.timer.since + GracePeriod <= s.clock) ==> r == s
    ensures r.clock == s.clock && r.offered == s.offered && r.stray == s.stray
  {
    if s.timer.AwaitGrace? && s.timer.since + GracePeriod <= s.clock then
      var a := RefundStep(s.market, s.ledger);
      s.(market := a.market, ledger := a.ledger, timer := Done,
         settled := if s.market.resolved then s.settled else RefundedAll(a.credits))
    else s
  }

  /** `/bet`: the list of markets is built once, when the command is invoked,
      from those not resolved and not yet ended; a user shown the market keeps
      its buttons from then on. */
  function BrowseStep(s: System, user: UserId): (r: System)
    ensures !s.market.resolved && s.clock < s.market.endTime ==> r.offered == s.offered + {user}
    ensures s.market.resolved || s.market.endTime <= s.clock ==> r == s
    ensures r == s.(offered := r.offered)
  {
    if !s.market.resolved && s.clock < s.market.endTime then s.(offered := s.offered + {user}) else s
  }

  /** The submit of the amount modal, as the buttons build it: the option is
      the first word of the label, and the handler checks the amount, the end
      time and the balance, but not whether the market has been resolved since
      the list was built. Points the bot receives for an option that is not
      one of the market's are counted in `stray`. */
  function BetStep(s: System, user: UserId, choice: nat, amount: int): (r: System)
    ensures r.timer == s.timer && r.clock == s.clock && r.settled == s.settled && r.offered == s.offered
    ensures r != s ==>
      && user in s.offered && choice < |s.market.options|
      && 0 < amount <= Balance(s.ledger, user) && s.clock < s.market.endTime
    ensures user in s.offered && choice < |s.market.options| ==>
      var option := FirstWord(s.market.options[choice]);
      match SubmitBetAsWritten(s.market, s.ledger, s.house, user, s.market.options[choice], amount, s.clock)
      case Refused(_) => r == s
      case Escrowed(m, l) =>
        && r.market == m && r.ledger == l
        && r.stray == if option in s.market.options then s.stray else [Payment(user, amount)] + s.stray
  {
    if user in s.offered && choice < |s.market.options| then
      var caption := s.market.options[choice];
      match SubmitBetAsWritten(s.market, s.ledger, s.house, user, caption, amount, s.clock)
      case Refused(_) => s
      case Escrowed(m, l) =>
        s.(market := m, ledger := l,
           stray := if FirstWord(caption) in s.market.options then s.stray else [Payment(user, amount)] + s.stray)
    else s
  }

  /** The corrected submit: it bets on the option the button stands for and
      refuses a market resolved since the list was built. */
  function CheckedBetStep(s: System, user: UserId, choice: nat, amount: int): (r: System)
    ensures r.timer == s.timer && r.clock == s.clock && r.settled == s.settled
    ensures r.offered == s.offered && r.stray == s.stray
    ensures s.market.resolved ==> r == s
    ensures r != s ==>
      && user in s.offered && choice < |s.market.options|
      && 0 < amount <= Balance(s.ledger, user) && s.clock < s.market.endTime
    ensures user in s.offered && choice < |s.market.options| && !s.market.resolved ==>
      match SubmitBet(s.market, s.ledger, s.house, user, s.market.options[choice], amount, s.clock)
      case Refused(_) => r == s
      case Escrowed(m, l) => r.market == m && r.ledger == l
  {
    if user in s.offered && choice < |s.market.options| && !s.market.resolved then
      match SubmitBet(s.market, s.ledger, s.house, user, s.market.options[choice], amount, s.clock)
      case Refused(_) => s
      case Escrowed(m, l) => s.(market := m, ledger := l)
    else s
  }

  /** `/resolve_prediction`: only the creator is offered their unresolved
      markets, the select names one of its options, and the callback resolves
      and pays out. */
  function ResolveStep(s: System, user: UserId, choice: nat): (r: System)
    ensures r.timer == s.timer && r.clock == s.clock && r.offered == s.offered && r.stray == s.stray
    ensures s.market.resolved || user != s.market.creator ==> r == s
    ensures !s.market.resolved && user == s.market.creator && choice < |s.market.options| ==>
      && r.market.resolved && r.market.result == Some(s.market.options[choice])
      && r.settled == PaidOut(WinnerPayouts(r.market), r.market)
  {
    if !s.market.resolved && s.market.creator == user && choice < |s.market.options| then
      var rep := PayoutStep(s.market, s.ledger, s.market.options[choice]);
      s.(market := rep.state.market, ledger := rep.state.ledger,
         settled := PaidOut(rep.state.credits, rep.state.market))
    else s
  }

  /** One event, handled as the program handles it. */
  function Step(s: System, e: Event): System {
    match e
    case Tick(n) => s.(clock := s.clock + n)
    case CloseFires => CloseStep(s)
    case GraceFires => GraceStep(s)
    case Browse(user) => BrowseStep(s, user)
    case Bet(user, choice, amount) => BetStep(s, user, choice, amount)
    case ResolveBy(user, choice) => ResolveStep(s, user, choice)
  }

  /** One event, with the corrected submit. */
  function CheckedStep(s: System, e: Event): System {
    match e
    case Bet(user, choice, amount) => CheckedBetStep(s, user, choice, amount)
    case _ => Step(s, e)
  }

  function Run(s: System, events: seq<Event>): System
    decreases |events|
  {
    if |events| == 0 then s else Run(Step(s, events[0]), events[1..])
  }

  function CheckedRun(s: System, events: seq<Event>): System
    decreases |events|
  {
    if |events| == 0 then s else CheckedRun(CheckedStep(s, events[0]), events[1..])
  }

  /** The ledger accounting of one market: every user has their starting
      balance minus what they staked, minus what they sent to the bot with no
      stake recorded, plus what the settlement credited them; the bot's
      account has in addition received all of that. */
  ghost predicate Accounted(s: System) {
    forall u :: Balance(s.ledger, u) ==
      Balance(s.start, u) - StakedBy(s.market.bets, u) - PaidTo(s.stray, u)
      + (if u == s.house then s.market.totalBets + PaidTotal(s.stray) else 0) + Credited(s.settled, u)
  }

  /** The market a payout loop ran on, as it relates to the market now: bets
      accepted after the payout may have grown the books since, but nothing
      else has changed. */
  ghost predicate PaidOn(w: Market, m: Market) {
    && Valid(w) && w.result.Some?
    && w.result == m.result && w.options == m.options
    && w.totalBets <= m.totalBets
  }

  /** The invariant of the life cycle as the program runs it. */
  ghost predicate Inv(s: System) {
    && Valid(s.market)
    && (s.market.resolved <==> !s.settled.Unsettled?)
    && (s.market.refunded <==> s.settled.RefundedAll?)
    && (s.settled.RefundedAll? ==>
          s.settled.credits == Refunds(s.market.bets) && s.market.endTime + GracePeriod <= s.clock)
    && (s.settled.PaidOut? ==>
          PaidOn(s.settled.paidOn, s.market) && s.settled.credits == WinnerPayouts(s.settled.paidOn))
    && (s.timer.AwaitGrace? ==> s.market.endTime <= s.timer.since <= s.clock)
    && (s.timer.Done? ==> s.market.resolved && s.market.endTime <= s.clock)
    && (forall p :: p in s.stray ==> p.amount > 0)
    && Accounted(s)
  }

  /** The invariant with the corrected submit: every escrowed point is a
      recorded stake, and a payout covers the market as it stands. */
  ghost predicate CheckedInv(s: System) {
    && Inv(s)
    && s.stray == []
    && (s.settled.PaidOut? ==> s.settled.paidOn == s.market)
  }

  lemma {:induction false} NothingStaked(bets: Bets)
    requires forall i :: 0 <= i < |bets| ==> bets[i].book == []
    ensures forall u :: StakedBy(bets, u) == 0
    decreases |bets|
  {
    if |bets| > 0 {
      NothingStaked(bets[1..]);
    }
  }

  lemma CloseKeeps(s: System)
    requires Inv(s)
    ensures Inv(CloseStep(s))
  {
  }

  lemma GraceKeeps(s: System)
    requires Inv(s)
    ensures Inv(GraceStep(s))
  {
    var r := GraceStep(s);
    if s.timer.AwaitGrace? && s.timer.since + GracePeriod <= s.clock && !s.market.resolved {
      var a := RefundStep(s.market, s.ledger);
      forall u
        ensures Balance(r.ledger, u) ==
          Balance(r.start, u) - StakedBy(r.market.bets, u) - PaidTo(r.stray, u)
          + (if u == r.house then r.market.totalBets + PaidTotal(r.stray) else 0) + Credited(r.settled, u)
      {
        assert Balance(a.ledger, u) == Balance(s.ledger, u) + PaidTo(a.credits, u);
      }
    }
  }

  /** A bet recorded on an option keeps the accounting. */
  lemma RecordedKeeps(s: System, r: System, user: UserId, option: string, amount: int)
    requires Inv(s) && HasOption(s.market.bets, option) && 0 < amount && s.clock < s.market.endTime
    requires r == s.(market := PlaceBet(s.market, user, option, amount),
                     ledger := Transfer(s.ledger, user, s.house, amount))
    ensures Inv(r)
  {
    var m := r.market;
    assert m.bets == Place(s.market.bets, option, user, amount);
    forall u
      ensures Balance(r.ledger, u) ==
        Balance(r.start, u) - StakedBy(r.market.bets, u) - PaidTo(r.stray, u)
        + (if u == r.house then r.market.totalBets + PaidTotal(r.stray) else 0) + Credited(r.settled, u)
    {
      PlaceStakedBy(s.market.bets, option, user, amount, u);
    }
  }

  /** A bet on an option the market does not know keeps the accounting: the
      points are stray. */
  lemma StrayKeeps(s: System, r: System, user: UserId, amount: int)
    requires Inv(s) && 0 < amount
    requires r == s.(ledger := Transfer(s.ledger, user, s.house, amount), stray := [Payment(user, amount)] + s.stray)
    ensures Inv(r)
  {
    assert r.stray[1..] == s.stray;
    forall u
      ensures Balance(r.ledger, u) ==
        Balance(r.start, u) - StakedBy(r.market.bets, u) - PaidTo(r.stray, u)
        + (if u == r.house then r.market.totalBets + PaidTotal(r.stray) else 0) + Credited(r.settled, u)
    {
    }
  }

  lemma BetKeeps(s: System, user: UserId, choice: nat, amount: int)
    requires Inv(s)
    ensures Inv(BetStep(s, user, choice, amount))
  {
    var r := BetStep(s, user, choice, amount);
    if r != s {
      var option := FirstWord(s.market.options[choice]);
      if option in s.market.options {
        assert HasOption(s.market.bets, option);
        RecordedKeeps(s, r, user, option, amount);
      } else {
        assert !HasOption(s.market.bets, option);
        StrayKeeps(s, r, user, amount);
      }
    }
  }

  lemma CheckedBetKeeps(s: System, user: UserId, choice: nat, amount: int)
    requires CheckedInv(s)
    ensures CheckedInv(CheckedBetStep(s, user, choice, amount))
  {
    var r := CheckedBetStep(s, user, choice, amount);
    if r != s {
      var option := s.market.options[choice];
      assert HasOption(s.market.bets, option);
      RecordedKeeps(s, r, user, option, amount);
    }
  }

  lemma ResolveKeeps(s: System, user: UserId, choice: nat)
    requires Inv(s)
    ensures Inv(ResolveStep(s, user, choice))
    ensures CheckedInv(s) ==> CheckedInv(ResolveStep(s, user, choice))
  {
    var r := ResolveStep(s, user, choice);
    if !s.market.resolved && s.market.creator == user && choice < |s.market.options| {
      var rep := PayoutStep(s.market, s.ledger, s.market.options[choice]);
      forall u
        ensures Balance(r.ledger, u) ==
          Balance(r.start, u) - StakedBy(r.market.bets, u) - PaidTo(r.stray, u)
          + (if u == r.house then r.market.totalBets + PaidTotal(r.stray) else 0) + Credited(r.settled, u)
      {
        assert Balance(rep.state.ledger, u) == Balance(s.ledger, u) + PaidTo(rep.state.credits, u);
      }
    }
  }

  /** Every step of the program keeps the invariant. */
  lemma StepKeeps(s: System, e: Event)
    requires Inv(s)
    ensures Inv(Step(s, e))
  {
    match e
    case Tick(n) =>
    case CloseFires => CloseKeeps(s);
    case GraceFires => GraceKeeps(s);
    case Browse(user) =>
    case Bet(user, choice, amount) => BetKeeps(s, user, choice, amount);
    case ResolveBy(user, choice) => ResolveKeeps(s, user, choice);
  }

  /** Every step with the corrected submit keeps the stronger invariant. */
  lemma CheckedStepKeeps(s: System, e: Event)
    requires CheckedInv(s)
    ensures CheckedInv(CheckedStep(s, e))
  {
    match e
    case Tick(n) =>
    case CloseFires => CloseKeeps(s);
    case GraceFires => GraceKeeps(s);
    case Browse(user) =>
    case Bet(user, choice, amount) => CheckedBetKeeps(s, user, choice, amount);
    case ResolveBy(user, choice) => ResolveKeeps(s, user, choice);
  }

  /** Any run of events from a valid state keeps the invariant. */
  lemma {:induction false} RunKeeps(s: System, events: seq<Event>)
    requires Inv(s)
    ensures Inv(Run(s, events))
    decreases |events|
  {
    if |events| > 0 {
      StepKeeps(s, events[0]);
      RunKeeps(Step(s, events[0]), events[1..]);
    }
  }

  /** Any run with the corrected submit keeps the stronger invariant. */
  lemma {:induction false} CheckedRunKeeps(s: System, events: seq<Event>)
    requires CheckedInv(s)
    ensures CheckedInv(CheckedRun(s, events))
    decreases |events|
  {
    if |events| > 0 {
      CheckedStepKeeps(s, events[0]);
      CheckedRunKeeps(CheckedStep(s, events[0]), events[1..]);
    }
  }

  /** What the invariant promises about the money: a payout never exceeds the
      pool it ran on, which is at most the pool now, and each winner got at
      least their stake at that time; a refund returns exactly the pool, each
      user getting their stake. */
  lemma SettlementBounds(s: System, u: UserId)
    requires Inv(s)
    ensures s.settled.PaidOut? ==>
      PaidTotal(s.settled.credits) <= s.settled.paidOn.totalBets <= s.market.totalBets
    ensures s.settled.PaidOut? ==>
      Credited(s.settled, u) >= Stake(s.settled.paidOn, s.market.result.value, u)
    ensures s.settled.RefundedAll? ==> PaidTotal(s.settled.credits) == s.market.totalBets
    ensures s.settled.RefundedAll? ==> Credited(s.settled, u) == StakedBy(s.market.bets, u)
  {
    if s.settled.PaidOut? {
      PayoutConservation(s.settled.paidOn);
      WinnerPaidAtLeast(s.settled.paidOn, u);
    }
    if s.settled.RefundedAll? {
      RefundConservation(s.market.bets, u);
    }
  }

  /** Once settled, what was credited never changes, and only a submit can
      still move points: the scheduled task, `/bet` and `/resolve_prediction`
      leave market and ledger alone. */
  lemma CreditsAreFinal(s: System, e: Event)
    requires Inv(s) && !s.settled.Unsettled?
    ensures Step(s, e).settled == s.settled
    ensures !e.Bet? ==> Step(s, e).market == s.market && Step(s, e).ledger == s.ledger
  {
  }

  /** A submit accepted after the payout: the user's points go to the bot and
      the unpaid escrow (the stakes recorded after the payout loop ran, and the
      stray points) grows by the amount, while the credits stay as they were,
      so the stake is never paid out or refunded. */
  lemma LateStakeKept(s: System, user: UserId, choice: nat, amount: int)
    requires Inv(s) && s.settled.PaidOut? && user != s.house
    requires user in s.offered && choice < |s.market.options|
    requires 0 < amount <= Balance(s.ledger, user) && s.clock < s.market.endTime
    ensures var r := BetStep(s, user, choice, amount);
      && Inv(r) && r.settled == s.settled
      && Balance(r.ledger, user) == Balance(s.ledger, user) - amount
      && Balance(r.ledger, s.house) == Balance(s.ledger, s.house) + amount
      && r.market.totalBets - r.settled.paidOn.totalBets + PaidTotal(r.stray)
         == s.market.totalBets - s.settled.paidOn.totalBets + PaidTotal(s.stray) + amount
    ensures FirstWord(s.market.options[choice]) in s.market.options ==>
      var r := BetStep(s, user, choice, amount);
      r.stray == s.stray && r.market.totalBets == s.market.totalBets + amount
  {
    BetKeeps(s, user, choice, amount);
    var r := BetStep(s, user, choice, amount);
    var option := FirstWord(s.market.options[choice]);
    if option in s.market.options {
      assert HasOption(s.market.bets, option);
    } else {
      assert !HasOption(s.market.bets, option);
      assert r.stray[1..] == s.stray;
    }
  }

  /** With the corrected submit settlement is final: after it no event changes
      the market, the ledger or what was credited, so a paid-out market is
      never refunded, a refunded one is never paid out, and no stake arrives
      that the settlement did not cover. */
  lemma SettledIsFinal(s: System, e: Event)
    requires CheckedInv(s) && !s.settled.Unsettled?
    ensures CheckedStep(s, e).market == s.market
    ensures CheckedStep(s, e).ledger == s.ledger
    ensures CheckedStep(s, e).settled == s.settled
  {
  }
}
