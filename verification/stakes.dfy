/** The per-option stake dictionary `{user_id: amount}` of a prediction:
    an insertion-ordered map from user to cumulative stake. */
module Stakes {

  type UserId = int

  /** One key/value pair of the dictionary. */
  datatype Entry = Entry(user: UserId, amount: int)

  /** Entries in insertion order; a well-formed book has each user once. */
  type Book = seq<Entry>

  /** The keys of the dictionary, in insertion order. */
  function Users(b: Book): (r: seq<UserId>)
    ensures |r| == |b|
    ensures forall i :: 0 <= i < |b| ==> r[i] == b[i].user
  {
    if |b| == 0 then [] else [b[0].user] + Users(b[1..])
  }

  /** `u in book` */
  predicate Has(b: Book, u: UserId) {
    u in Users(b)
  }

  /** Each user appears at most once, as dictionary keys do. */
  predicate Keyed(b: Book) {
    |b| == 0 || (b[0].user !in Users(b[1..]) && Keyed(b[1..]))
  }

  /** Every recorded stake is positive (the bet handlers only accept amount > 0). */
  predicate Positive(b: Book) {
    forall i :: 0 <= i < |b| ==> b[i].amount > 0
  }

  /** `book.get(u, 0)` */
  function Get(b: Book, u: UserId): int {
    if |b| == 0 then 0
    else if b[0].user == u then b[0].amount
    else Get(b[1..], u)
  }

  /** `sum(book.values())` */
  function Sum(b: Book): int {
    if |b| == 0 then 0 else b[0].amount + Sum(b[1..])
  }

  /** `if u in book: book[u] += amount else: book[u] = amount`: an existing key
      keeps its position, a new key goes last. */
  function Add(b: Book, u: UserId, amount: int): (r: Book)
    ensures Get(r, u) == Get(b, u) + amount
    ensures forall v :: v != u ==> Get(r, v) == Get(b, v)
    ensures Sum(r) == Sum(b) + amount
    decreases |b|
  {
    if |b| == 0 then [Entry(u, amount)]
    else if b[0].user == u then [Entry(u, b[0].amount + amount)] + b[1..]
    else [b[0]] + Add(b[1..], u, amount)
  }

  /** A known user keeps their position; a new user is appended last. */
  lemma {:induction false} AddShape(b: Book, u: UserId, amount: int)
    ensures Users(Add(b, u, amount)) == if Has(b, u) then Users(b) else Users(b) + [u]
    decreases |b|
  {
    if |b| > 0 {
      var r := Add(b, u, amount);
      assert Users(b) == [b[0].user] + Users(b[1..]);
      assert Users(r) == [r[0].user] + Users(r[1..]);
      if b[0].user == u {
        assert r[1..] == b[1..];
      } else {
        var t := Add(b[1..], u, amount);
        assert r[1..] == t;
        AddShape(b[1..], u, amount);
        assert Has(b, u) <==> Has(b[1..], u);
        if Has(b, u) {
          assert Users(t) == Users(b[1..]);
        } else {
          assert Users(t) == Users(b[1..]) + [u];
          assert [b[0].user] + (Users(b[1..]) + [u]) == ([b[0].user] + Users(b[1..])) + [u];
        }
      }
    }
  }

  /** A new user's stake is appended as the last entry. */
  lemma {:induction false} AddAppends(b: Book, u: UserId, amount: int)
    requires !Has(b, u)
    ensures Add(b, u, amount) == b + [Entry(u, amount)]
    decreases |b|
  {
    if |b| > 0 {
      assert Users(b) == [b[0].user] + Users(b[1..]);
      AddAppends(b[1..], u, amount);
      assert b == [b[0]] + b[1..];
      assert [b[0]] + (b[1..] + [Entry(u, amount)]) == b + [Entry(u, amount)];
    }
  }

  /** Adding a stake keeps the keys distinct. */
  lemma {:induction false} AddKeyed(b: Book, u: UserId, amount: int)
    requires Keyed(b)
    ensures Keyed(Add(b, u, amount))
    ensures forall v :: Has(Add(b, u, amount), v) <==> Has(b, v) || v == u
    decreases |b|
  {
    AddShape(b, u, amount);
    if |b| > 0 {
      var r := Add(b, u, amount);
      if b[0].user == u {
        assert r[1..] == b[1..];
      } else {
        AddKeyed(b[1..], u, amount);
        AddShape(b[1..], u, amount);
        assert r[1..] == Add(b[1..], u, amount);
      }
    }
  }

  /** Adding a positive amount keeps every stake positive. */
  lemma {:induction false} AddPositive(b: Book, u: UserId, amount: int)
    requires Positive(b) && amount > 0
    ensures Positive(Add(b, u, amount))
    decreases |b|
  {
    if |b| > 0 && b[0].user != u {
      AddPositive(b[1..], u, amount);
    }
  }

  lemma {:induction false} GetAbsent(b: Book, u: UserId)
    requires !Has(b, u)
    ensures Get(b, u) == 0
    decreases |b|
  {
    if |b| > 0 {
      GetAbsent(b[1..], u);
    }
  }

  /** In a keyed book, looking up the user of an entry finds that entry. */
  lemma {:induction false} GetEntry(b: Book, i: nat)
    requires Keyed(b) && i < |b|
    ensures Get(b, b[i].user) == b[i].amount
    decreases i
  {
    if i > 0 {
      assert b[1..][i - 1] == b[i];
      assert b[i].user in Users(b[1..]);
      GetEntry(b[1..], i - 1);
    }
  }

  /** Stakes of a positive book are non-negative, and positive exactly for its keys. */
  lemma {:induction false} GetPositive(b: Book, u: UserId)
    requires Positive(b)
    ensures Get(b, u) >= 0
    ensures Has(b, u) <==> Get(b, u) > 0
    decreases |b|
  {
    if |b| > 0 {
      GetPositive(b[1..], u);
    }
  }

  /** A positive book sums to at least each of its stakes. */
  lemma {:induction false} SumPositive(b: Book)
    requires Positive(b)
    ensures Sum(b) >= 0
    ensures |b| > 0 ==> Sum(b) > 0
    decreases |b|
  {
    if |b| > 0 {
      SumPositive(b[1..]);
    }
  }

  lemma {:induction false} SumConcat(a: Book, c: Book)
    ensures Sum(a + c) == Sum(a) + Sum(c)
    decreases |a|
  {
    if |a| == 0 {
      assert a + c == c;
    } else {
      assert (a + c)[1..] == a[1..] + c;
      SumConcat(a[1..], c);
    }
  }
}
