/** The string routines of the command handlers: `str.split(sep)`, `str.strip()`,
    and the option-list and `days,hours,minutes` parsers of `create_prediction`. */
module Parsing {
  import opened Common

  /** Whitespace removed by `str.strip()`: the characters `str.isspace()`
      accepts, that is tab to carriage return, the four separators `\x1c` to
      `\x1f`, space, and the Unicode spaces and line/paragraph separators. */
  predicate IsSpace(c: char) {
    || '\U{0009}' <= c <= '\U{000D}'
    || '\U{001C}' <= c <= '\U{0020}'
    || c == '\U{0085}' || c == '\U{00A0}' || c == '\U{1680}'
    || '\U{2000}' <= c <= '\U{200A}'
    || c == '\U{2028}' || c == '\U{2029}' || c == '\U{202F}' || c == '\U{205F}' || c == '\U{3000}'
  }

  /** The number of occurrences of `sep` in `s`. */
  function Count(s: string, sep: char): nat {
    if |s| == 0 then 0 else (if s[0] == sep then 1 else 0) + Count(s[1..], sep)
  }

  /** `s.split(sep)` for a one-character separator: every occurrence cuts,
      empty fields are kept, and the result is never empty. */
  function Split(s: string, sep: char): (r: seq<string>)
    ensures |r| == Count(s, sep) + 1
    ensures forall i :: 0 <= i < |r| ==> sep !in r[i]
    decreases |s|
  {
    if |s| == 0 then [""]
    else
      var rest := Split(s[1..], sep);
      if s[0] == sep then [""] + rest
      else [[s[0]] + rest[0]] + rest[1..]
  }

  /** `sep.join(parts)` */
  function Join(parts: seq<string>, sep: char): string
    requires |parts| >= 1
    decreases |parts|
  {
    if |parts| == 1 then parts[0] else parts[0] + [sep] + Join(parts[1..], sep)
  }

  /** Splitting and joining back give the original text. */
  lemma {:induction false} SplitJoin(s: string, sep: char)
    ensures Join(Split(s, sep), sep) == s
    decreases |s|
  {
    if |s| > 0 {
      var rest := Split(s[1..], sep);
      SplitJoin(s[1..], sep);
      if s[0] == sep {
        assert Split(s, sep) == [""] + rest;
        assert (["" ] + rest)[1..] == rest;
        assert s == [sep] + s[1..];
      } else {
        var r := Split(s, sep);
        assert r[0] == [s[0]] + rest[0];
        if |rest| == 1 {
          assert s == [s[0]] + s[1..];
        } else {
          assert r[1..] == rest[1..];
          assert Join(rest, sep) == rest[0] + [sep] + Join(rest[1..], sep);
          assert s == [s[0]] + s[1..];
        }
      }
    }
  }

  /** Joining fields free of the separator and splitting again gives the fields back. */
  lemma {:induction false} JoinSplit(parts: seq<string>, sep: char)
    requires |parts| >= 1
    requires forall i :: 0 <= i < |parts| ==> sep !in parts[i]
    ensures Split(Join(parts, sep), sep) == parts
    decreases |parts|, |parts[0]|
  {
    var s := Join(parts, sep);
    if |parts[0]| > 0 {
      var tail := [parts[0][1..]] + parts[1..];
      assert tail[0] == parts[0][1..] && tail[1..] == parts[1..];
      assert forall i :: 0 <= i < |tail| ==> sep !in tail[i] by {
        forall i | 0 <= i < |tail| ensures sep !in tail[i] {
          if i == 0 {
            assert forall c :: c in parts[0][1..] ==> c in parts[0];
          } else {
            assert tail[i] == parts[i];
          }
        }
      }
      JoinSplit(tail, sep);
      assert s[1..] == Join(tail, sep) by {
        if |parts| == 1 {
        } else {
          assert s == parts[0] + [sep] + Join(parts[1..], sep);
          assert Join(tail, sep) == parts[0][1..] + [sep] + Join(parts[1..], sep);
        }
      }
      assert s[0] == parts[0][0] && parts[0][0] != sep;
      assert [s[0]] + parts[0][1..] == parts[0];
    } else if |parts| > 1 {
      assert s == [sep] + Join(parts[1..], sep);
      assert s[1..] == Join(parts[1..], sep);
      JoinSplit(parts[1..], sep);
      assert [""] + parts[1..] == parts;
    } else {
      assert s == "";
    }
  }

  /** The position of the first non-space character (or `|s|`). */
  function LeadingSpaces(s: string): (n: nat)
    ensures n <= |s|
    ensures forall i :: 0 <= i < n ==> IsSpace(s[i])
    ensures n < |s| ==> !IsSpace(s[n])
  {
    if |s| == 0 || !IsSpace(s[0]) then 0 else 1 + LeadingSpaces(s[1..])
  }

  /** The position after the last non-space character (or 0). */
  function TrailingEnd(s: string): (n: nat)
    ensures n <= |s|
    ensures forall i :: n <= i < |s| ==> IsSpace(s[i])
    ensures n > 0 ==> !IsSpace(s[n - 1])
  {
    if |s| == 0 || !IsSpace(s[|s| - 1]) then |s| else TrailingEnd(s[..|s| - 1])
  }

  /** `s.strip()`: the text between the leading and the trailing whitespace. */
  function Strip(s: string): (r: string)
    ensures |r| == 0 || (!IsSpace(r[0]) && !IsSpace(r[|r| - 1]))
    ensures exists i, j ::
      (&& 0 <= i <= j <= |s| && r == s[i..j]
       && (forall k :: 0 <= k < i ==> IsSpace(s[k]))
       && (forall k :: j <= k < |s| ==> IsSpace(s[k])))
  {
    var i := LeadingSpaces(s);
    var j := TrailingEnd(s);
    if i < j then
      assert !IsSpace(s[i]) && !IsSpace(s[j - 1]);
      s[i..j]
    else
      assert forall k :: 0 <= k < |s| ==> IsSpace(s[k]);
      assert s[0..0] == [];
      []
  }

  /** Stripping twice is stripping once. */
  lemma StripIdempotent(s: string)
    ensures Strip(Strip(s)) == Strip(s)
  {
    var r := Strip(s);
    if |r| > 0 {
      assert LeadingSpaces(r) == 0;
      assert TrailingEnd(r) == |r|;
      assert r[0..|r|] == r;
    }
  }

  /** A blank field (nothing but whitespace) strips to the empty string. */
  lemma StripBlank(s: string)
    ensures Strip(s) == [] <==> forall k :: 0 <= k < |s| ==> IsSpace(s[k])
  {
  }

  /** `label.split(' ')[0]`: the text before the first space. */
  function FirstWord(text: string): (r: string)
    ensures r <= text
    ensures ' ' !in r
    ensures ' ' !in text ==> r == text
    ensures ' ' in text ==> |r| < |text| && text[|r|] == ' '
  {
    SplitJoin(text, ' ');
    var parts := Split(text, ' ');
    JoinPrefix(parts, ' ');
    CountZero(text, ' ');
    if ' ' !in text then
      parts[0]
    else
      assert text == parts[0] + [' '] + Join(parts[1..], ' ');
      parts[0]
  }

  /** The first word ends at the first space. */
  lemma FirstWordAt(text: string, k: nat)
    requires k < |text| && text[k] == ' '
    requires forall i :: 0 <= i < k ==> text[i] != ' '
    ensures FirstWord(text) == text[..k]
  {
    var r := FirstWord(text);
    assert ' ' in text;
    assert text[|r|] == ' ';
    assert forall i :: 0 <= i < |r| ==> text[i] == r[i] && r[i] != ' ';
  }

  lemma JoinPrefix(parts: seq<string>, sep: char)
    requires |parts| >= 1
    ensures parts[0] <= Join(parts, sep)
  {
  }

  /** A character that does not occur is counted zero times. */
  lemma {:induction false} CountZero(s: string, sep: char)
    ensures sep !in s <==> Count(s, sep) == 0
    decreases |s|
  {
    if |s| > 0 {
      CountZero(s[1..], sep);
      assert s == [s[0]] + s[1..];
    }
  }

  /** Why a `create_prediction` request is refused. */
  datatype CreateError =
    | TooFewOptions
    | WrongDurationFormat
    | InvalidNumber
    | NonPositiveDuration
    | EndOutOfRange

  datatype Parsed<+T> = Parsed(value: T) | Invalid(error: CreateError)

  /** `utcnow() + timedelta(minutes=minutes)`: the end time, or the
      `OverflowError` of an end before year 1 or after year 9999. The whole
      seconds of a time decide this: a fraction of a second below 1 cannot
      carry a time past the last second of `datetime.max`. */
  function EndTime(now: int, minutes: int): (r: Parsed<int>)
    ensures r.Parsed? <==> InDatetimeRange(now + 60 * minutes)
    ensures r.Parsed? ==> r.value == now + 60 * minutes && (minutes > 0 ==> r.value > now)
    ensures r.Invalid? ==> r.error == EndOutOfRange
  {
    var t := now + 60 * minutes;
    if InDatetimeRange(t) then Parsed(t) else Invalid(EndOutOfRange)
  }

  /** `[opt.strip() for opt in options.split(",")]` */
  function OptionList(text: string): (r: seq<string>)
    ensures |r| == Count(text, ',') + 1
    ensures forall i :: 0 <= i < |r| ==> r[i] == Strip(Split(text, ',')[i])
  {
    var parts := Split(text, ',');
    seq(|parts|, i requires 0 <= i < |parts| => Strip(parts[i]))
  }

  /** The option check of `create_prediction`: fewer than two options is refused. */
  function ParseOptions(text: string): (r: Parsed<seq<string>>)
    ensures r.Parsed? <==> ',' in text
    ensures r.Parsed? ==> r.value == OptionList(text) && |r.value| >= 2
    ensures r.Invalid? ==> r.error == TooFewOptions
  {
    CountZero(text, ',');
    var options := OptionList(text);
    if |options| < 2 then Invalid(TooFewOptions) else Parsed(options)
  }

  /** One duration field: blank counts as 0, otherwise Python's `int()` of the
      field, given as `parseInt` (None for a ValueError). */
  function Field(part: string, parseInt: string -> Option<int>): (r: Option<int>)
    ensures Strip(part) == [] ==> r == Some(0)
    ensures Strip(part) != [] ==> r == parseInt(part)
  {
    if Strip(part) == [] then Some(0) else parseInt(part)
  }

  /** `days * 24 * 60 + hours * 60 + minutes` */
  function Minutes(days: int, hours: int, minutes: int): int {
    days * 24 * 60 + hours * 60 + minutes
  }

  /** The `days,hours,minutes` parser: exactly three comma fields, each blank or
      a number, and a positive total in minutes. */
  function ParseDuration(text: string, parseInt: string -> Option<int>): (r: Parsed<int>)
    ensures Count(text, ',') != 2 <==> r == Invalid(WrongDurationFormat)
    ensures Count(text, ',') == 2 ==>
      var parts := Split(text, ',');
      (Field(parts[0], parseInt).None? || Field(parts[1], parseInt).None? || Field(parts[2], parseInt).None?)
        <==> r == Invalid(InvalidNumber)
    ensures r.Parsed? || r == Invalid(NonPositiveDuration) ==>
      var parts := Split(text, ',');
      && |parts| == 3
      && Field(parts[0], parseInt).Some? && Field(parts[1], parseInt).Some? && Field(parts[2], parseInt).Some?
      && var total := Minutes(Field(parts[0], parseInt).value, Field(parts[1], parseInt).value,
                              Field(parts[2], parseInt).value);
         (r.Parsed? <==> total > 0) && (r.Parsed? ==> r.value == total)
  {
    var parts := Split(text, ',');
    if |parts| != 3 then Invalid(WrongDurationFormat)
    else
      var d := Field(parts[0], parseInt);
      var h := Field(parts[1], parseInt);
      var m := Field(parts[2], parseInt);
      if d.None? || h.None? || m.None? then Invalid(InvalidNumber)
      else
        var total := Minutes(d.value, h.value, m.value);
        if total <= 0 then Invalid(NonPositiveDuration) else Parsed(total)
  }

  /** The parser read back: three comma-free fields joined by commas give
      their total in minutes, refused only when that total is not positive. */
  lemma DurationOfFields(days: string, hours: string, minutes: string, parseInt: string -> Option<int>)
    requires ',' !in days && ',' !in hours && ',' !in minutes
    requires Field(days, parseInt).Some? && Field(hours, parseInt).Some? && Field(minutes, parseInt).Some?
    ensures var total := Minutes(Field(days, parseInt).value, Field(hours, parseInt).value,
                                 Field(minutes, parseInt).value);
      ParseDuration(days + "," + hours + "," + minutes, parseInt)
        == (if total > 0 then Parsed(total) else Invalid(NonPositiveDuration))
  {
    var text := days + "," + hours + "," + minutes;
    SplitThree(days, hours, minutes);
    var parts := Split(text, ',');
    assert parts[0] == days && parts[1] == hours && parts[2] == minutes;
  }

  /** Three comma-free fields joined by commas split back into those fields. */
  lemma SplitThree(a: string, b: string, c: string)
    requires ',' !in a && ',' !in b && ',' !in c
    ensures Split(a + "," + b + "," + c, ',') == [a, b, c]
  {
    var parts := [a, b, c];
    JoinThree(a, b, c);
    JoinSplit(parts, ',');
  }

  lemma JoinThree(a: string, b: string, c: string)
    ensures Join([a, b, c], ',') == a + "," + b + "," + c
  {
    var parts := [a, b, c];
    assert parts[1..] == [b, c] && parts[1..][1..] == [c];
    assert Join([c], ',') == c;
    assert Join([b, c], ',') == b + [','] + c;
    assert Join(parts, ',') == a + [','] + (b + [','] + c);
  }

  /** The option parser read back: two comma-free texts joined by a comma give
      the two stripped options. */
  lemma OptionsOfPair(first: string, second: string)
    requires ',' !in first && ',' !in second
    ensures ParseOptions(first + "," + second) == Parsed([Strip(first), Strip(second)])
  {
    var text := first + "," + second;
    assert Join([first, second], ',') == text by {
      assert [first, second][1..] == [second];
    }
    JoinSplit([first, second], ',');
    assert Split(text, ',') == [first, second];
    assert text[|first|] == ',';
    var options := OptionList(text);
    assert |options| == 2 && options[0] == Strip(first) && options[1] == Strip(second);
    assert options == [Strip(first), Strip(second)];
    assert ',' in text;
  }
}
