/** The `bets` dictionary of a prediction, `{option: {user_id: amount}}`:
    an insertion-ordered map from option to its stake book. */
module Pool {
  import opened Common
  import opened Stakes

  datatype Column = Column(option: string, book: Book)

  /** Columns in insertion order; a well-formed pool has each option once. */
  type Bets = seq<Column>

  /** One `(user_id, option, amount)` triple of the bet history. */
  datatype Record = Record(user: UserId, option: string, amount: int)

  /** The keys of the dictionary, in insertion order. */
  function Options(bets: Bets): (r: seq<string>)
    ensures |r| == |bets|
    ensures forall i :: 0 <= i < |bets| ==> r[i] == bets[i].option
  {
    if |bets| == 0 then [] else [bets[0].option] + Options(bets[1..])
  }

  /** `option in bets` */
  predicate HasOption(bets: Bets, o: string) {
    o in Options(bets)
  }

  /** Options are distinct keys and every book has distinct users. */
  predicate WellFormed(bets: Bets) {
    |bets| == 0 ||
    (bets[0].option !in Options(bets[1..]) && Keyed(bets[0].book) && WellFormed(bets[1..]))
  }

  predicate AllPositive(bets: Bets) {
    forall i :: 0 <= i < |bets| ==> Positive(bets[i].book)
  }

  /** The book of an option, empty when the option is not a key. */
  function BookOf(bets: Bets, o: string): Book {
    if |bets| == 0 then []
    else if bets[0].option == o then bets[0].book
    else BookOf(bets[1..], o)
  }

  /** `bets[o]`, which raises KeyError for an unknown option. */
  function Lookup(bets: Bets, o: string): (r: Outcome<Book>)
    ensures r.Value? <==> HasOption(bets, o)
    ensures r.Value? ==> r.value == BookOf(bets, o)
  {
    if HasOption(bets, o) then Value(BookOf(bets, o)) else Raised(KeyError)
  }

  /** `get_option_total_bets(o)`: the stakes on `o`, 0 for an unknown option. */
  function OptionTotal(bets: Bets, o: string): int {
    if HasOption(bets, o) then Sum(BookOf(bets, o)) else 0
  }

  /** The sum of every stake on every option. */
  function Total(bets: Bets): int {
    if |bets| == 0 then 0 else Sum(bets[0].book) + Total(bets[1..])
  }

  /** `{option: {} for option in options}`: a repeated option keeps its first position. */
  function Init(options: seq<string>): (r: Bets)
    ensures WellFormed(r) && AllPositive(r)
    ensures forall o :: HasOption(r, o) <==> o in options
    ensures forall i :: 0 <= i < |r| ==> r[i].book == []
    decreases |options|
  {
    if |options| == 0 then []
    else
      var prefix := Init(options[..|options| - 1]);
      var last := options[|options| - 1];
      assert options == options[..|options| - 1] + [last];
      if HasOption(prefix, last) then prefix
      else
        AppendColumn(prefix, Column(last, []));
        prefix + [Column(last, [])]
  }

  /** `place_bet`'s bookkeeping: add `amount` to `bets[o][u]` when `o` is a key. */
  function Place(bets: Bets, o: string, u: UserId, amount: int): (r: Bets)
    ensures Options(r) == Options(bets)
    ensures !HasOption(bets, o) ==> r == bets
    ensures HasOption(bets, o) ==> BookOf(r, o) == Add(BookOf(bets, o), u, amount)
    ensures forall p :: p != o ==> BookOf(r, p) == BookOf(bets, p)
    ensures HasOption(bets, o) ==> Total(r) == Total(bets) + amount
    decreases |bets|
  {
    if |bets| == 0 then []
    else if bets[0].option == o then
      var r := [Column(o, Add(bets[0].book, u, amount))] + bets[1..];
      assert r[1..] == bets[1..];
      r
    else
      var r := [bets[0]] + Place(bets[1..], o, u, amount);
      assert r[1..] == Place(bets[1..], o, u, amount);
      r
  }

  /** The triples of one book, tagged with its option. */
  function Rows(o: string, b: Book): (r: seq<Record>)
    ensures |r| == |b|
    ensures forall j :: 0 <= j < |b| ==> r[j] == Record(b[j].user, o, b[j].amount)
  {
    if |b| == 0 then [] else [Record(b[0].user, o, b[0].amount)] + Rows(o, b[1..])
  }

  /** `get_bet_history()`: one triple per stake entry, option by option. */
  function History(bets: Bets): seq<Record> {
    if |bets| == 0 then [] else Rows(bets[0].option, bets[0].book) + History(bets[1..])
  }

  function RecordSum(h: seq<Record>): int {
    if |h| == 0 then 0 else h[0].amount + RecordSum(h[1..])
  }

  /** The number of stake entries over all options. */
  function EntryCount(bets: Bets): nat {
    if |bets| == 0 then 0 else |bets[0].book| + EntryCount(bets[1..])
  }

  lemma AppendColumn(bets: Bets, c: Column)
    requires WellFormed(bets) && AllPositive(bets)
    requires !HasOption(bets, c.option) && c.book == []
    ensures WellFormed(bets + [c]) && AllPositive(bets + [c])
    ensures Options(bets + [c]) == Options(bets) + [c.option]
    decreases |bets|
  {
    if |bets| > 0 {
      assert (bets + [c])[1..] == bets[1..] + [c];
      AppendColumn(bets[1..], c);
    } else {
      assert Options([c]) == [c.option] + Options([]);
    }
  }

  /** Placing a stake keeps the pool well formed, and positive for a positive amount. */
  lemma {:induction false} PlaceKeeps(bets: Bets, o: string, u: UserId, amount: int)
    ensures WellFormed(bets) ==> WellFormed(Place(bets, o, u, amount))
    ensures WellFormed(bets) && AllPositive(bets) && amount > 0 ==> AllPositive(Place(bets, o, u, amount))
    decreases |bets|
  {
    if |bets| > 0 && WellFormed(bets) {
      var r := Place(bets, o, u, amount);
      assert r[1..] == if bets[0].option == o then bets[1..] else Place(bets[1..], o, u, amount);
      if bets[0].option == o {
        AddKeyed(bets[0].book, u, amount);
        if AllPositive(bets) && amount > 0 {
          assert Positive(bets[0].book);
          AddPositive(bets[0].book, u, amount);
        }
      } else {
        PlaceKeeps(bets[1..], o, u, amount);
      }
    }
  }

  /** With positive stakes every option total is between 0 and the pool total. */
  lemma {:induction false} OptionTotalBounds(bets: Bets, o: string)
    requires AllPositive(bets)
    ensures 0 <= OptionTotal(bets, o) <= Total(bets)
    ensures Total(bets) >= 0
    decreases |bets|
  {
    if |bets| > 0 {
      assert Positive(bets[0].book);
      SumPositive(bets[0].book);
      OptionTotalBounds(bets[1..], o);
      if bets[0].option != o && HasOption(bets, o) {
        assert HasOption(bets[1..], o);
      }
    }
  }

  /** The bet history sums to the pool total and has one triple per stake entry. */
  lemma {:induction false} HistoryTotal(bets: Bets)
    ensures RecordSum(History(bets)) == Total(bets)
    ensures |History(bets)| == EntryCount(bets)
    decreases |bets|
  {
    if |bets| > 0 {
      HistoryTotal(bets[1..]);
      RowsSum(bets[0].option, bets[0].book);
      RecordSumConcat(Rows(bets[0].option, bets[0].book), History(bets[1..]));
    }
  }

  /** A triple is in the history exactly when its option's book holds that entry. */
  lemma {:induction false} HistoryMembers(bets: Bets, rec: Record)
    ensures rec in History(bets) <==>
      exists i, j :: 0 <= i < |bets| && 0 <= j < |bets[i].book| &&
        rec == Record(bets[i].book[j].user, bets[i].option, bets[i].book[j].amount)
    decreases |bets|
  {
    if |bets| > 0 {
      HistoryMembers(bets[1..], rec);
      var rows := Rows(bets[0].option, bets[0].book);
      assert History(bets) == rows + History(bets[1..]);
      if rec in History(bets) {
        if rec in rows {
          var j :| 0 <= j < |rows| && rows[j] == rec;
          assert rec == Record(bets[0].book[j].user, bets[0].option, bets[0].book[j].amount);
        } else {
          assert rec in History(bets[1..]);
          var i, j :| 0 <= i < |bets[1..]| && 0 <= j < |bets[1..][i].book| &&
            rec == Record(bets[1..][i].book[j].user, bets[1..][i].option, bets[1..][i].book[j].amount);
          assert bets[1..][i] == bets[i + 1];
        }
      }
      if exists i, j :: 0 <= i < |bets| && 0 <= j < |bets[i].book| &&
          rec == Record(bets[i].book[j].user, bets[i].option, bets[i].book[j].amount) {
        var i, j :| 0 <= i < |bets| && 0 <= j < |bets[i].book| &&
          rec == Record(bets[i].book[j].user, bets[i].option, bets[i].book[j].amount);
        if i == 0 {
          assert rows[j] == rec;
        } else {
          assert bets[1..][i - 1] == bets[i];
          assert rec in History(bets[1..]);
        }
      }
    }
  }

  lemma {:induction false} RowsSum(o: string, b: Book)
    ensures RecordSum(Rows(o, b)) == Sum(b)
    decreases |b|
  {
    if |b| > 0 {
      assert Rows(o, b)[1..] == Rows(o, b[1..]);
      RowsSum(o, b[1..]);
    }
  }

  lemma {:induction false} RecordSumConcat(a: seq<Record>, c: seq<Record>)
    ensures RecordSum(a + c) == RecordSum(a) + RecordSum(c)
    decreases |a|
  {
    if |a| == 0 {
      assert a + c == c;
    } else {
      assert (a + c)[1..] == a[1..] + c;
      RecordSumConcat(a[1..], c);
    }
  }

  /** The book of any option of a well-formed, positive pool is keyed and positive. */
  lemma {:induction false} BookOfKeeps(bets: Bets, o: string)
    ensures WellFormed(bets) ==> Keyed(BookOf(bets, o))
    ensures AllPositive(bets) ==> Positive(BookOf(bets, o))
    decreases |bets|
  {
    if |bets| > 0 && bets[0].option != o {
      BookOfKeeps(bets[1..], o);
      if AllPositive(bets) {
        assert AllPositive(bets[1..]) by {
          forall i | 0 <= i < |bets[1..]| ensures Positive(bets[1..][i].book) {
            assert bets[1..][i] == bets[i + 1];
          }
        }
      }
    } else if |bets| > 0 && AllPositive(bets) {
      assert Positive(bets[0].book);
    }
  }
}
