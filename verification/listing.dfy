/** The market lists the command handlers build: the status groups of
    `list_predictions`, the markets offered by `bet`, and the markets offered to
    their creator by `resolve_prediction`. */
module Listing {
  import opened Stakes
  import opened PariMutuel

  /** The four sections of the market listing. */
  datatype Status = Active | Pending | Resolved | Refunded

  /** The classification of `list_predictions`: refunded and resolved markets
      first by their flags, then pending once the end time has passed. */
  function StatusOf(m: Market, now: int): (r: Status)
    ensures r == Refunded <==> m.resolved && m.refunded
    ensures r == Resolved <==> m.resolved && !m.refunded
    ensures r == Pending <==> !m.resolved && m.endTime <= now
    ensures r == Active <==> !m.resolved && now < m.endTime
  {
    if m.resolved then
      if m.refunded then Refunded else Resolved
    else if m.endTime <= now then Pending
    else Active
  }

  /** The markets of one section, in creation order. */
  function Group(ms: seq<Market>, now: int, s: Status): (r: seq<Market>)
    ensures |r| <= |ms|
    ensures forall m :: m in r <==> m in ms && StatusOf(m, now) == s
  {
    if |ms| == 0 then []
    else if StatusOf(ms[0], now) == s then [ms[0]] + Group(ms[1..], now, s)
    else Group(ms[1..], now, s)
  }

  /** A section keeps creation order: the section of two runs of markets is
      the section of the first followed by that of the second, and a single
      market makes up its own section or none. */
  lemma {:induction false} GroupConcat(a: seq<Market>, b: seq<Market>, now: int, s: Status)
    ensures Group(a + b, now, s) == Group(a, now, s) + Group(b, now, s)
    decreases |a|
  {
    if |a| > 0 {
      assert (a + b)[0] == a[0] && (a + b)[1..] == a[1..] + b;
      GroupConcat(a[1..], b, now, s);
    } else {
      assert a + b == b;
    }
  }

  /** The section of one market: itself when its status is `s`, nothing otherwise. */
  lemma GroupOne(m: Market, now: int, s: Status)
    ensures Group([m], now, s) == if StatusOf(m, now) == s then [m] else []
  {
    assert [m][1..] == [];
  }

  /** The markets `bet` offers: not resolved and not yet ended. */
  function Betting(ms: seq<Market>, now: int): (r: seq<Market>)
    ensures forall m :: m in r <==> m in ms && !m.resolved && now < m.endTime
  {
    if |ms| == 0 then []
    else if !ms[0].resolved && ms[0].endTime > now then [ms[0]] + Betting(ms[1..], now)
    else Betting(ms[1..], now)
  }

  /** The markets `resolve_prediction` offers a user: their own unresolved ones. */
  function Resolvable(ms: seq<Market>, user: UserId): (r: seq<Market>)
    ensures forall m :: m in r <==> m in ms && !m.resolved && m.creator == user
  {
    if |ms| == 0 then []
    else if !ms[0].resolved && ms[0].creator == user then [ms[0]] + Resolvable(ms[1..], user)
    else Resolvable(ms[1..], user)
  }

  /** The four sections split the markets: their sizes add up to the number of
      markets, and each market sits in the section of its status. */
  lemma {:induction false} GroupsPartition(ms: seq<Market>, now: int)
    ensures |Group(ms, now, Active)| + |Group(ms, now, Pending)|
          + |Group(ms, now, Resolved)| + |Group(ms, now, Refunded)| == |ms|
    decreases |ms|
  {
    if |ms| > 0 {
      GroupsPartition(ms[1..], now);
    }
  }

  /** The betting list is exactly the Active section, in the same order. */
  lemma {:induction false} BettingIsActive(ms: seq<Market>, now: int)
    ensures Betting(ms, now) == Group(ms, now, Active)
    decreases |ms|
  {
    if |ms| > 0 {
      BettingIsActive(ms[1..], now);
    }
  }

  /** Refund and resolution exclude each other: no market the creator is offered
      is refunded, and resolving one of them with any of its options succeeds. */
  lemma ResolvableNotRefunded(ms: seq<Market>, user: UserId, m: Market, o: string, now: int)
    requires m in Resolvable(ms, user) && Valid(m) && o in m.options
    ensures !m.refunded
    ensures StatusOf(m, now) == Active || StatusOf(m, now) == Pending
    ensures Resolve(m, o).ok
  {
  }
}
