/** Concrete inputs that exhibit the defects of the command handlers, each
    against the general lemma that explains it. */
module Witnesses {
  import opened Common
  import opened Ledger
  import opened PariMutuel
  import opened Parsing
  import opened Pool
  import opened Settlement
  import opened Lifecycle
  import Draft

  /** An option whose name holds a space, "Yes please", is such an option: a
      bet of 10 on it takes 10 points from the user and records nothing. */
  lemma SpacedOptionLosesStake()
    ensures var m := NewMarket("q", 100, ["Yes please", "No"], 1, None);
      var r := SubmitBetAsWritten(m, map[2 := 50], 0, 2, "Yes please", 10, 0);
      r.Escrowed? && r.market.totalBets == 0 && Balance(r.ledger, 2) == 40 && Balance(r.ledger, 0) == 10
  {
    var m := NewMarket("q", 100, ["Yes please", "No"], 1, None);
    FirstWordNotListed();
    FirstWordLosesStake(m, map[2 := 50], 0, 2, "Yes please", 10, 0);
  }

  /** The first word of that option is neither of the market's options. */
  lemma FirstWordNotListed()
    ensures FirstWord("Yes please") !in ["Yes please", "No"]
  {
    FirstWordOfSpacedOption();
    assert |"Yes"| != |"Yes please"| && |"Yes"| != |"No"|;
  }

  lemma FirstWordOfSpacedOption()
    ensures FirstWord("Yes please") == "Yes"
  {
    FirstWordOfText("Yes please");
  }

  lemma FirstWordOfText(t: string)
    requires t == "Yes please"
    ensures FirstWord(t) == "Yes"
  {
    assert t[3] == ' ' && t[0] != ' ' && t[1] != ' ' && t[2] != ' ';
    FirstWordAt(t, 3);
    assert t[..3] == "Yes";
  }

  /** A market its creator resolved to "A" an hour before its end time: the
      older `/bet` takes a bet of 10 on it, and `/resolve_prediction` then
      declines the market, so the 10 points stay with the bot. */
  lemma BetAfterEarlyResolve()
    ensures var ms := [Draft.DraftResolve(NewMarket("q", 3600, ["A", "B"], 1, None), "A")];
      var r := Draft.BetCommand(ms, 0, 2, "A", 10, 0, map[2 := 50], 0);
      r.Escrowed? && Balance(r.ledger, 2) == 40 && Balance(r.ledger, 0) == 10
        && Draft.ResolveCommand(r.market, 0, "A", r.ledger) == Draft.Declined(AlreadyResolved)
  {
    var ms := [Draft.DraftResolve(NewMarket("q", 3600, ["A", "B"], 1, None), "A")];
    Draft.LateBetNeverPaid(ms, 0, 2, "A", 10, 0, map[2 := 50], 0, "A");
  }

  /** A market on "A" and "B" ending at 3600, created by user 1 at time 0,
      with user 2 holding 50 points and the bot's account 0. */
  function Opened(): System {
    System(NewMarket("q", 3600, ["A", "B"], 1, None), map[2 := 50], map[2 := 50],
           0, AwaitClose, 0, Unsettled, {}, [])
  }

  /** User 2 invokes `/bet`, then the creator resolves the market to "A" an
      hour early, which pays nobody; user 2 then submits 10 on "B". The
      program takes the 10 points and records the stake after the payout, so
      nothing ever credits them, and the corrected invariant no longer holds. */
  lemma LateBetAfterPayout()
    ensures var s0 := Opened();
      var r := BetStep(ResolveStep(BrowseStep(s0, 2), 1, 0), 2, 1, 10);
      && CheckedInv(s0) && Inv(r) && !CheckedInv(r)
      && Balance(r.ledger, 2) == 40 && Balance(r.ledger, 0) == 10
      && r.market.totalBets == 10 && Credited(r.settled, 2) == 0
  {
    var s1 := Browsed();
    var s2 := ResolvedEarly(s1);
    assert s2.market.options[1] == "B";
    var r := LateBet(s2);
  }

  /** The submit of 10 on "B" after the early resolve. */
  lemma LateBet(s2: System) returns (r: System)
    requires Inv(s2) && s2.settled.PaidOut? && s2.house == 0 && s2.settled.paidOn.totalBets == 0
    requires 2 in s2.offered && s2.clock < s2.market.endTime
    requires |s2.market.options| == 2 && ' ' !in s2.market.options[1]
    requires Balance(s2.ledger, 2) == 50 && Balance(s2.ledger, 0) == 0 && s2.market.totalBets == 0
    ensures r == BetStep(s2, 2, 1, 10)
    ensures Inv(r) && r.settled == s2.settled && r.settled.paidOn != r.market
    ensures Balance(r.ledger, 2) == 40 && Balance(r.ledger, 0) == 10 && r.market.totalBets == 10
  {
    assert FirstWord(s2.market.options[1]) == s2.market.options[1];
    LateStakeKept(s2, 2, 1, 10);
    r := BetStep(s2, 2, 1, 10);
  }

  /** The early resolve after user 2 invoked `/bet`. */
  lemma ResolvedEarly(s1: System) returns (s2: System)
    requires CheckedInv(s1) && s1.settled.Unsettled? && s1.house == 0
    requires 2 in s1.offered && s1.clock == 0 && s1.market.endTime == 3600 && s1.market.creator == 1
    requires s1.market.options == ["A", "B"] && s1.market.totalBets == 0 && s1.stray == []
    requires Balance(s1.ledger, 2) == 50 && Balance(s1.ledger, 0) == 0
    requires forall u :: Stake(s1.market, "A", u) == 0
    ensures s2 == ResolveStep(s1, 1, 0)
    ensures Inv(s2) && s2.settled.PaidOut? && s2.house == 0
    ensures s2.settled.paidOn.totalBets == 0
    ensures 2 in s2.offered && s2.clock < s2.market.endTime && s2.market.options == ["A", "B"]
    ensures Balance(s2.ledger, 2) == 50 && Balance(s2.ledger, 0) == 0 && s2.market.totalBets == 0
    ensures Credited(s2.settled, 2) == 0
  {
    s2 := ResolveStep(s1, 1, 0);
    ResolveKeeps(s1, 1, 0);
    PayoutPerUser(s2.market, 2);
    PayoutPerUser(s2.market, 0);
  }

  /** The state after user 2 invoked `/bet`. */
  lemma Browsed() returns (s1: System)
    ensures s1 == BrowseStep(Opened(), 2)
    ensures CheckedInv(Opened()) && CheckedInv(s1) && s1.settled.Unsettled? && s1.house == 0
    ensures 2 in s1.offered && s1.clock == 0 && s1.market.endTime == 3600 && s1.market.creator == 1
    ensures s1.market.options == ["A", "B"] && s1.market.totalBets == 0 && s1.stray == []
    ensures Balance(s1.ledger, 2) == 50 && Balance(s1.ledger, 0) == 0
    ensures forall u :: Stake(s1.market, "A", u) == 0
  {
    var s0 := Opened();
    NothingStaked(s0.market.bets);
    assert CheckedInv(s0);
    s1 := BrowseStep(s0, 2);
  }
}
