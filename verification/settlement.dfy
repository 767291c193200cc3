/** Settlement: the payout loop of the resolve callback and the refund loop of
    the grace timer, as lists of ledger credits. */
module Settlement {
  import opened Common
  import opened Stakes
  import opened Pool
  import opened Ledger
  import opened PariMutuel
  import opened Arith

  /** The payout loop over the winning book, in insertion order: a positive
      payout credits `int(payout)`, a zero one credits nothing, and an exception
      ends the loop, keeping the credits already issued. */
  function PayoutLoop(winners: Book, payout: UserId -> Outcome<real>): (ps: seq<Payment>)
    ensures |ps| <= |winners|
    ensures forall i :: 0 <= i < |ps| ==> Has(winners, ps[i].user) && ps[i].amount >= 0
    decreases |winners|
  {
    if |winners| == 0 then []
    else
      var rest := PayoutLoop(winners[1..], payout);
      assert forall i :: 0 <= i < |rest| ==> Has(winners, rest[i].user) by {
        assert Users(winners) == [winners[0].user] + Users(winners[1..]);
      }
      match payout(winners[0].user)
      case Raised(_) => []
      case Value(p) =>
        if p > 0.0 then [Payment(winners[0].user, Trunc(p))] + rest else rest
  }

  /** The credits of the resolve callback once `resolve(result)` has succeeded:
      `bets[result]` (a KeyError ends the callback before any credit), then the
      payout loop with `get_user_payout`. */
  function WinnerPayouts(m: Market): (ps: seq<Payment>)
    ensures m.result.Some? && HasOption(m.bets, m.result.value) ==>
      forall i :: 0 <= i < |ps| ==> Has(BookOf(m.bets, m.result.value), ps[i].user)
    ensures m.result.None? || !HasOption(m.bets, m.result.value) ==> ps == []
  {
    if m.result.None? then []
    else
      match Lookup(m.bets, m.result.value)
      case Raised(_) => []
      case Value(book) => PayoutLoop(book, u => GetUserPayout(m, u))
  }

  /** The refund credits of one book: every entry gets its amount back. */
  function BookRefunds(b: Book): (ps: seq<Payment>)
    ensures |ps| == |b|
    ensures forall i :: 0 <= i < |b| ==> ps[i] == Payment(b[i].user, b[i].amount)
  {
    if |b| == 0 then [] else [Payment(b[0].user, b[0].amount)] + BookRefunds(b[1..])
  }

  /** The grace-timer refund: for every option, every `(user, amount)` is credited back. */
  function Refunds(bets: Bets): seq<Payment> {
    if |bets| == 0 then [] else BookRefunds(bets[0].book) + Refunds(bets[1..])
  }

  /** What one user has staked over all options. */
  function StakedBy(bets: Bets, u: UserId): int {
    if |bets| == 0 then 0 else Get(bets[0].book, u) + StakedBy(bets[1..], u)
  }

  /** When no payout raises and every one is positive, the loop credits every
      winner, in order, `int` of their payout. */
  lemma {:induction false} LoopPaysAll(winners: Book, payout: UserId -> Outcome<real>)
    requires forall i :: 0 <= i < |winners| ==>
      payout(winners[i].user).Value? && payout(winners[i].user).value > 0.0
    ensures |PayoutLoop(winners, payout)| == |winners|
    ensures forall i :: 0 <= i < |winners| ==>
      PayoutLoop(winners, payout)[i] == Payment(winners[i].user, Trunc(payout(winners[i].user).value))
    decreases |winners|
  {
    if |winners| > 0 {
      assert payout(winners[0].user).Value?;
      LoopPaysAll(winners[1..], payout);
      var ps := PayoutLoop(winners, payout);
      assert ps == [Payment(winners[0].user, Trunc(payout(winners[0].user).value))]
                   + PayoutLoop(winners[1..], payout);
      forall i | 1 <= i < |winners|
        ensures ps[i] == Payment(winners[i].user, Trunc(payout(winners[i].user).value))
      {
        assert winners[1..][i - 1] == winners[i];
      }
    }
  }

  /** When no payout raises, each user of a keyed winning book receives exactly
      `int(payout)` if that payout is positive, and nobody else receives anything. */
  lemma {:induction false} LoopPaidTo(winners: Book, payout: UserId -> Outcome<real>, u: UserId)
    requires Keyed(winners)
    requires forall i :: 0 <= i < |winners| ==> payout(winners[i].user).Value?
    ensures PaidTo(PayoutLoop(winners, payout), u) ==
      if Has(winners, u) && payout(u).value > 0.0 then Trunc(payout(u).value) else 0
    decreases |winners|
  {
    if |winners| > 0 {
      assert payout(winners[0].user).Value?;
      assert forall i :: 0 <= i < |winners[1..]| ==> payout(winners[1..][i].user).Value? by {
        forall i | 0 <= i < |winners[1..]| ensures payout(winners[1..][i].user).Value? {
          assert winners[1..][i] == winners[i + 1];
        }
      }
      LoopPaidTo(winners[1..], payout, u);
      assert Users(winners) == [winners[0].user] + Users(winners[1..]);
      var p := payout(winners[0].user).value;
      if p > 0.0 {
        var ps := PayoutLoop(winners, payout);
        assert ps[1..] == PayoutLoop(winners[1..], payout);
      }
    }
  }

  /** The integer bookkeeping behind payout conservation: if every credit is
      `int(T * s_i / W)`, the credits sum to at most `T * sum(s) / W` and lose
      less than one point each. */
  lemma {:induction false} ScaledSums(ps: seq<Payment>, b: Book, t: int, w: int)
    requires |ps| == |b|
    requires forall i :: 0 <= i < |ps| ==> ScaledFloor(ps[i].amount, b[i].amount, t, w)
    ensures PaidTotal(ps) * w <= t * Sum(b)
    ensures t * Sum(b) + |ps| <= (PaidTotal(ps) + |ps|) * w
    decreases |ps|
  {
    if |ps| > 0 {
      assert forall i :: 0 <= i < |ps[1..]| ==> ScaledFloor(ps[1..][i].amount, b[1..][i].amount, t, w) by {
        forall i | 0 <= i < |ps[1..]| ensures ScaledFloor(ps[1..][i].amount, b[1..][i].amount, t, w) {
          assert ps[1..][i] == ps[i + 1] && b[1..][i] == b[i + 1];
        }
      }
      ScaledSums(ps[1..], b[1..], t, w);
      ScaledFloorStep(ps[0].amount, b[0].amount, PaidTotal(ps[1..]), Sum(b[1..]), |ps| - 1, t, w);
    }
  }

  /** A winning entry of a valid market: its stake is positive and within the
      winning total, and its payout is the exact pool share. */
  lemma WinningEntry(m: Market, i: int)
    requires Valid(m) && m.result.Some?
    requires 0 <= i < |BookOf(m.bets, m.result.value)|
    ensures var w := m.result.value;
      var e := BookOf(m.bets, w)[i];
      && 0 < e.amount <= OptionTotal(m.bets, w) <= m.totalBets
      && GetUserPayout(m, e.user) == Value(Share(m.totalBets, e.amount, OptionTotal(m.bets, w)))
  {
    var w := m.result.value;
    var book := BookOf(m.bets, w);
    var e := book[i];
    BookOfKeeps(m.bets, w);
    GetEntry(book, i);
    assert Stake(m, w, e.user) == e.amount > 0;
    StakeWithinOption(m.bets, w, e.user);
    OptionTotalBounds(m.bets, w);
    PayoutIsShare(m, e.user);
  }

  /** Truncated payout of one winning entry: positive, at least the stake, and
      the integer part of the exact share. */
  lemma EntryPayout(m: Market, i: int)
    requires Valid(m) && m.result.Some?
    requires 0 <= i < |BookOf(m.bets, m.result.value)|
    ensures var e := BookOf(m.bets, m.result.value)[i];
      PaysShare(GetUserPayout(m, e.user), e.amount, m.totalBets, OptionTotal(m.bets, m.result.value))
  {
    WinningEntry(m, i);
    var w := m.result.value;
    var e := BookOf(m.bets, w)[i];
    ShareOutcome(m.totalBets, e.amount, OptionTotal(m.bets, w));
  }

  /** A payout outcome that is the positive share of stake `s`, truncated to the
      integer part of `t * s / w` and at least `s`. */
  predicate PaysShare(r: Outcome<real>, s: int, t: int, w: int) {
    r.Value? && r.value > 0.0 && s <= Trunc(r.value) && ScaledFloor(Trunc(r.value), s, t, w)
  }

  lemma ShareOutcome(t: int, s: int, w: int)
    requires 0 < s <= w <= t
    ensures PaysShare(Value(Share(t, s, w)), s, t, w)
  {
    TruncShare(Share(t, s, w), s, w, t);
  }

  /** Under the market invariant the payout loop runs to the end: one credit
      per winning entry, in order, each the truncated share of its stake. */
  lemma WinnerCredits(m: Market)
    requires Valid(m) && m.result.Some?
    ensures var book := BookOf(m.bets, m.result.value);
      var ps := WinnerPayouts(m);
      && |ps| == |book|
      && forall i :: 0 <= i < |ps| ==>
           && ps[i] == Payment(book[i].user, Trunc(GetUserPayout(m, book[i].user).value))
           && PaysShare(GetUserPayout(m, book[i].user), book[i].amount, m.totalBets,
                        OptionTotal(m.bets, m.result.value))
  {
    var w := m.result.value;
    var book := BookOf(m.bets, w);
    var payout := u => GetUserPayout(m, u);
    forall i | 0 <= i < |book|
      ensures PaysShare(payout(book[i].user), book[i].amount, m.totalBets, OptionTotal(m.bets, w))
    {
      EntryPayout(m, i);
    }
    LoopPaysAll(book, payout);
    assert WinnerPayouts(m) == PayoutLoop(book, payout);
  }

  /** Payout conservation: under the market invariant the resolve callback pays
      every winning entry, in order, at least its stake; the credits sum to at
      most `total_bets`, and truncation loses less than one point per winner. */
  lemma PayoutConservation(m: Market)
    requires Valid(m) && m.result.Some?
    ensures var book := BookOf(m.bets, m.result.value);
      var ps := WinnerPayouts(m);
      && |ps| == |book|
      && (forall i :: 0 <= i < |ps| ==> ps[i].user == book[i].user && ps[i].amount >= book[i].amount)
      && PaidTotal(ps) <= m.totalBets
      && (|ps| > 0 ==> m.totalBets < PaidTotal(ps) + |ps|)
  {
    var w := m.result.value;
    var book := BookOf(m.bets, w);
    var ps := WinnerPayouts(m);
    var t, pool := m.totalBets, OptionTotal(m.bets, w);
    WinnerCredits(m);
    assert forall i :: 0 <= i < |ps| ==> ScaledFloor(ps[i].amount, book[i].amount, t, pool);
    OptionTotalBounds(m.bets, w);
    BookOfKeeps(m.bets, w);
    SumPositive(book);
    assert HasOption(m.bets, w);
    TruncatedSums(ps, book, t, pool);
  }

  /** Summed truncated shares of a whole pool `w = sum(b)` stay within `t` and
      lose less than one point per credit. */
  lemma TruncatedSums(ps: seq<Payment>, b: Book, t: int, w: int)
    requires |ps| == |b| && w == Sum(b) && 0 <= w <= t
    requires |b| > 0 ==> w > 0
    requires forall i :: 0 <= i < |ps| ==> ScaledFloor(ps[i].amount, b[i].amount, t, w)
    ensures PaidTotal(ps) <= t
    ensures |ps| > 0 ==> t < PaidTotal(ps) + |ps|
  {
    ScaledSums(ps, b, t, w);
    if |ps| > 0 {
      CancelLe(PaidTotal(ps), t, w);
      CancelLt(t, PaidTotal(ps) + |ps|, w);
    } else {
      assert PaidTotal(ps) == 0;
    }
  }

  /** A winner is credited exactly `int` of their payout; a user without a
      winning stake is credited nothing. */
  lemma PayoutPerUser(m: Market, u: UserId)
    requires Valid(m) && m.result.Some?
    ensures Stake(m, m.result.value, u) > 0 ==>
      GetUserPayout(m, u).Value? && PaidTo(WinnerPayouts(m), u) == Trunc(GetUserPayout(m, u).value)
    ensures Stake(m, m.result.value, u) <= 0 ==> PaidTo(WinnerPayouts(m), u) == 0
  {
    var w := m.result.value;
    var book := BookOf(m.bets, w);
    var payout := u => GetUserPayout(m, u);
    BookOfKeeps(m.bets, w);
    forall i | 0 <= i < |book| ensures payout(book[i].user).Value? {
      EntryPayout(m, i);
    }
    assert WinnerPayouts(m) == PayoutLoop(book, payout);
    LoopPaidTo(book, payout, u);
    GetPositive(book, u);
    if Stake(m, w, u) > 0 {
      PayoutBounds(m, u);
    }
  }

  /** The refunds of a book sum to the book and give each user their stake. */
  lemma {:induction false} BookRefundsPaid(b: Book, u: UserId)
    ensures PaidTotal(BookRefunds(b)) == Sum(b)
    ensures Keyed(b) ==> PaidTo(BookRefunds(b), u) == Get(b, u)
    decreases |b|
  {
    if |b| > 0 {
      var ps := BookRefunds(b);
      assert ps[1..] == BookRefunds(b[1..]);
      BookRefundsPaid(b[1..], u);
      if Keyed(b) && b[0].user == u {
        GetAbsent(b[1..], u);
      }
    }
  }

  /** Refund conservation: the grace-timer refund credits exactly the pool
      total, and every user exactly what they staked over all options. */
  lemma {:induction false} RefundConservation(bets: Bets, u: UserId)
    ensures PaidTotal(Refunds(bets)) == Total(bets)
    ensures WellFormed(bets) ==> PaidTo(Refunds(bets), u) == StakedBy(bets, u)
    decreases |bets|
  {
    if |bets| > 0 {
      RefundConservation(bets[1..], u);
      BookRefundsPaid(bets[0].book, u);
      PaidConcat(BookRefunds(bets[0].book), Refunds(bets[1..]));
    }
  }

  /** A stake placed by `u` adds to what `u` has staked, and to nobody else's. */
  lemma {:induction false} PlaceStakedBy(bets: Bets, o: string, u: UserId, amount: int, v: UserId)
    ensures StakedBy(Place(bets, o, u, amount), v)
      == StakedBy(bets, v) + (if v == u && HasOption(bets, o) then amount else 0)
    decreases |bets|
  {
    if |bets| > 0 {
      var r := Place(bets, o, u, amount);
      if bets[0].option == o {
        assert r[1..] == bets[1..];
      } else {
        assert r[1..] == Place(bets[1..], o, u, amount);
        PlaceStakedBy(bets[1..], o, u, amount, v);
        assert HasOption(bets, o) <==> HasOption(bets[1..], o);
      }
    }
  }

  /** A winning staker is paid, in whole points, at least their stake. */
  lemma WinnerPaidAtLeast(m: Market, u: UserId)
    requires Valid(m) && m.result.Some?
    ensures PaidTo(WinnerPayouts(m), u) >= Stake(m, m.result.value, u)
    ensures PaidTo(WinnerPayouts(m), u) >= 0
  {
    PayoutPerUser(m, u);
    if Stake(m, m.result.value, u) > 0 {
      PayoutBounds(m, u);
      TruncAtLeast(GetUserPayout(m, u).value, Stake(m, m.result.value, u));
    }
  }
}
