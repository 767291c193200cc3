/** The remote points ledger, reduced to a balance map: `add_points` is a
    credit, `transfer_points` moves points between two users. Neither fails
    here, since the engine ignores their return values. */
module Ledger {
  import opened Stakes

  type Balances = map<UserId, int>

  /** One credit the engine issues. */
  datatype Payment = Payment(user: UserId, amount: int)

  /** The reasons a command handler turns a request down before anything moves. */
  datatype Rejection =
    | InvalidIndex
    | Ended
    | InvalidOption
    | NonPositiveAmount
    | InsufficientBalance
    | AlreadyResolved
    | InvalidResult
    | NotCreator

  /** What a bet request leaves behind: either nothing, or the points escrowed
      with the house and the market after the stake was recorded. */
  datatype BetReply<M> = Refused(reason: Rejection) | Escrowed(market: M, ledger: Balances)

  /** A user unknown to the ledger holds 0 points. */
  function Balance(l: Balances, u: UserId): int {
    if u in l then l[u] else 0
  }

  /** `add_points(u, amount)` */
  function Credit(l: Balances, u: UserId, amount: int): (r: Balances)
    ensures Balance(r, u) == Balance(l, u) + amount
    ensures forall v :: v != u ==> Balance(r, v) == Balance(l, v)
  {
    l[u := Balance(l, u) + amount]
  }

  /** `transfer_points(from, to, amount)`: the sender loses what the receiver gains. */
  function Transfer(l: Balances, from: UserId, to: UserId, amount: int): (r: Balances)
    ensures from != to ==> Balance(r, from) == Balance(l, from) - amount
    ensures from != to ==> Balance(r, to) == Balance(l, to) + amount
    ensures from == to ==> Balance(r, from) == Balance(l, from)
    ensures forall v :: v != from && v != to ==> Balance(r, v) == Balance(l, v)
  {
    Credit(Credit(l, from, -amount), to, amount)
  }

  /** The points a list of credits gives to one user. */
  function PaidTo(ps: seq<Payment>, u: UserId): int {
    if |ps| == 0 then 0
    else (if ps[0].user == u then ps[0].amount else 0) + PaidTo(ps[1..], u)
  }

  /** The points a list of credits gives out in all. */
  function PaidTotal(ps: seq<Payment>): int {
    if |ps| == 0 then 0 else ps[0].amount + PaidTotal(ps[1..])
  }

  /** Issuing the credits one after another. */
  function ApplyAll(l: Balances, ps: seq<Payment>): (r: Balances)
    ensures forall u :: Balance(r, u) == Balance(l, u) + PaidTo(ps, u)
    decreases |ps|
  {
    if |ps| == 0 then l else ApplyAll(Credit(l, ps[0].user, ps[0].amount), ps[1..])
  }

  lemma {:induction false} PaidConcat(a: seq<Payment>, c: seq<Payment>)
    ensures PaidTotal(a + c) == PaidTotal(a) + PaidTotal(c)
    ensures forall u :: PaidTo(a + c, u) == PaidTo(a, u) + PaidTo(c, u)
    decreases |a|
  {
    if |a| == 0 {
      assert a + c == c;
    } else {
      assert (a + c)[1..] == a[1..] + c;
      PaidConcat(a[1..], c);
    }
  }
}
