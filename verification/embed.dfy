/** `add_markets_to_embed` of the market listing: the `(question, text)` pairs of
    one status section are packed into embed fields of at most 1000 characters,
    an entry longer than that being cut at its last newline before the limit. */
module Embed {
  import opened Parsing

  /** One `embed.add_field(name=..., value=..., inline=False)`. */
  datatype EmbedField = EmbedField(name: string, value: string)

  /** `MAX_FIELD_LENGTH`, below Discord's 1024 for safety. */
  const MaxFieldLength: nat := 1000

  /** `f"**{market_title}**\n{market_text}\n\n"` */
  function Entry(question: string, text: string): (e: string)
    ensures |e| == |question| + |text| + 7 && e[0] == '*'
  {
    "**" + question + "**\n" + text + "\n\n"
  }

  /** The decimal digit of `d`. */
  function DigitChar(d: nat): (c: char)
    requires d < 10
    ensures IsDigit(c) && DigitOf(c) == d
  {
    (('0' as int) + d) as char
  }

  predicate IsDigit(c: char) {
    '0' <= c <= '9'
  }

  /** The value of a decimal digit. */
  function DigitOf(c: char): (d: nat)
    requires IsDigit(c)
  {
    (c as int) - ('0' as int)
  }

  /** `str(n)` for a natural number. */
  function Digits(n: nat): (s: string)
    ensures |s| > 0 && forall i :: 0 <= i < |s| ==> IsDigit(s[i])
  {
    if n < 10 then [DigitChar(n)] else Digits(n / 10) + [DigitChar(n % 10)]
  }

  /** The number a string of decimal digits denotes. */
  function DigitsValue(s: string): nat
    requires forall i :: 0 <= i < |s| ==> IsDigit(s[i])
  {
    if |s| == 0 then 0 else DigitsValue(s[..|s| - 1]) * 10 + DigitOf(s[|s| - 1])
  }

  /** `str(n)` reads back as `n`. */
  lemma {:induction false} DigitsRoundTrip(n: nat)
    ensures DigitsValue(Digits(n)) == n
  {
    if n >= 10 {
      DigitsRoundTrip(n / 10);
      var s := Digits(n);
      assert s[..|s| - 1] == Digits(n / 10);
    }
  }

  /** `f"{title} ({field_count})" if field_count > 1 else title` */
  function FieldTitle(title: string, count: nat): string {
    if count > 1 then title + " (" + Digits(count) + ")" else title
  }

  /** Different field counts give different names, so no two fields of a
      section share one. */
  lemma TitlesDistinct(title: string, i: nat, j: nat)
    requires 1 <= i && 1 <= j && i != j
    ensures FieldTitle(title, i) != FieldTitle(title, j)
  {
    if i > 1 && j > 1 {
      DigitsRoundTrip(i);
      DigitsRoundTrip(j);
      if FieldTitle(title, i) == FieldTitle(title, j) {
        SameSuffix(title, Digits(i), Digits(j));
      }
    }
  }

  lemma SameSuffix(t: string, x: string, y: string)
    requires t + " (" + x + ")" == t + " (" + y + ")"
    ensures x == y
  {
    var a := t + " (" + x + ")";
    assert |x| == |y|;
    assert x == a[|t| + 2..|t| + 2 + |x|];
  }

  /** The text with every whitespace character removed: what a reader sees of
      it up to line breaks and spacing. */
  function Visible(s: string): (r: string)
    ensures |r| <= |s|
  {
    if |s| == 0 then [] else (if IsSpace(s[0]) then [] else [s[0]]) + Visible(s[1..])
  }

  lemma {:induction false} VisibleConcat(a: string, b: string)
    ensures Visible(a + b) == Visible(a) + Visible(b)
    decreases |a|
  {
    if |a| > 0 {
      assert (a + b)[1..] == a[1..] + b;
      VisibleConcat(a[1..], b);
    } else {
      assert a + b == b;
    }
  }

  lemma {:induction false} VisibleBlank(s: string)
    requires forall k :: 0 <= k < |s| ==> IsSpace(s[k])
    ensures Visible(s) == []
    decreases |s|
  {
    if |s| > 0 {
      VisibleBlank(s[1..]);
    }
  }

  /** `strip()` removes only whitespace. */
  lemma VisibleStrip(s: string)
    ensures Visible(Strip(s)) == Visible(s)
  {
    var r := Strip(s);
    var i, j :| && 0 <= i <= j <= |s| && r == s[i..j]
                && (forall k :: 0 <= k < i ==> IsSpace(s[k]))
                && (forall k :: j <= k < |s| ==> IsSpace(s[k]));
    VisibleMiddle(s, i, j);
  }

  /** Dropping a blank prefix and a blank suffix keeps what is visible. */
  lemma VisibleMiddle(s: string, i: nat, j: nat)
    requires i <= j <= |s|
    requires forall k :: 0 <= k < i ==> IsSpace(s[k])
    requires forall k :: j <= k < |s| ==> IsSpace(s[k])
    ensures Visible(s[i..j]) == Visible(s)
  {
    var a, m, c := s[..i], s[i..j], s[j..];
    Pieces(s, i, j);
    assert forall k :: 0 <= k < |a| ==> a[k] == s[k];
    assert forall k :: 0 <= k < |c| ==> c[k] == s[j + k];
    VisibleBlank(a);
    VisibleBlank(c);
    VisibleAround(a, m, c);
  }

  /** A text is its prefix, middle and suffix. */
  lemma Pieces(s: string, i: nat, j: nat)
    requires i <= j <= |s|
    ensures s == s[..i] + s[i..j] + s[j..]
    ensures s[..j] == s[..i] + s[i..j]
  {
  }

  lemma VisibleAround(a: string, m: string, c: string)
    requires Visible(a) == [] && Visible(c) == []
    ensures Visible(a + m + c) == Visible(m)
  {
    VisibleConcat(a + m, c);
    VisibleConcat(a, m);
  }

  /** Stripping never lengthens; a text starting with whitespace gets shorter;
      one starting with a visible character keeps it and stays non-empty. */
  lemma StripLength(s: string)
    ensures |Strip(s)| <= |s|
    ensures |s| > 0 && IsSpace(s[0]) ==> |Strip(s)| < |s|
    ensures |s| > 0 && !IsSpace(s[0]) ==> 0 < |Strip(s)| && Strip(s)[0] == s[0]
  {
    var r := Strip(s);
    var i, j :| && 0 <= i <= j <= |s| && r == s[i..j]
                && (forall k :: 0 <= k < i ==> IsSpace(s[k]))
                && (forall k :: j <= k < |s| ==> IsSpace(s[k]));
    if |s| > 0 && !IsSpace(s[0]) {
      assert i == 0;
      assert j > 0;
    }
  }

  /** `text.rfind('\n')`: the last newline, -1 when there is none. */
  function LastNewline(s: string): (k: int)
    ensures -1 <= k < |s|
    ensures k >= 0 ==> s[k] == '\n'
    ensures forall j :: k < j < |s| ==> s[j] != '\n'
  {
    if |s| == 0 then -1
    else if s[|s| - 1] == '\n' then |s| - 1
    else LastNewline(s[..|s| - 1])
  }

  /** The pieces glued back together. */
  function Concat(parts: seq<string>): string {
    if |parts| == 0 then [] else Concat(parts[..|parts| - 1]) + parts[|parts| - 1]
  }

  /** The values of the fields, one after the other. */
  function Values(fields: seq<EmbedField>): string {
    if |fields| == 0 then [] else Values(fields[..|fields| - 1]) + fields[|fields| - 1].value
  }

  /** The `market_entry` of every pair of a section, in order. */
  function EntryTexts(markets: seq<(string, string)>): (es: seq<string>)
    ensures |es| == |markets|
    ensures forall i :: 0 <= i < |markets| ==> es[i] == Entry(markets[i].0, markets[i].1)
  {
    seq(|markets|, i requires 0 <= i < |markets| => Entry(markets[i].0, markets[i].1))
  }

  /** A field whose value fits and shows something. */
  predicate Fits(f: EmbedField) {
    0 < |f.value| <= MaxFieldLength
  }

  /** Every piece fits in a field. */
  predicate AllFit(parts: seq<string>) {
    forall k :: 0 <= k < |parts| ==> |parts[k]| <= MaxFieldLength
  }

  /** Every piece starts with a visible character, so it survives `strip()`. */
  predicate AllLed(parts: seq<string>) {
    forall k :: 0 <= k < |parts| ==> |parts[k]| > 0 && !IsSpace(parts[k][0])
  }

  /** The split of one long entry: while text remains, take all of it if it
      fits, else cut at the last newline of the first 1000 characters (at 1000
      when there is none) and strip what follows. */
  method SplitEntry(entry: string) returns (parts: seq<string>)
    ensures AllFit(parts)
    ensures |entry| > 0 && !IsSpace(entry[0]) ==> |parts| > 0 && AllLed(parts)
    ensures |entry| <= MaxFieldLength && |entry| > 0 ==> parts == [entry]
    ensures Visible(Concat(parts)) == Visible(entry)
  {
    parts := [];
    var remaining := entry;
    while |remaining| > 0
      invariant Splitting(entry, parts, remaining)
      decreases |remaining|
    {
      if |remaining| <= MaxFieldLength {
        LastPiece(entry, parts, remaining);
        parts := parts + [remaining];
        return;
      }
      var k := LastNewline(remaining[..MaxFieldLength]);
      var cut := if k == -1 then MaxFieldLength else k;
      CutKeeps(entry, parts, remaining, cut);
      parts := parts + [remaining[..cut]];
      remaining := Strip(remaining[cut..]);
    }
    NothingRemains(entry, parts);
  }

  /** The state of the split: the pieces so far fit (and start visibly when the
      entry does), the entry stays whole until the first cut, and the pieces
      and the rest together show what the entry shows. */
  predicate Splitting(entry: string, parts: seq<string>, remaining: string) {
    && AllFit(parts)
    && (|entry| > 0 && !IsSpace(entry[0]) ==>
          (|remaining| > 0 ==> !IsSpace(remaining[0])) && AllLed(parts))
    && (|parts| == 0 ==> remaining == entry)
    && (|entry| <= MaxFieldLength ==> |parts| == 0)
    && Visible(Concat(parts)) + Visible(remaining) == Visible(entry)
  }

  /** A cut of a rest longer than a field keeps the state of the split. */
  lemma CutKeeps(entry: string, parts: seq<string>, remaining: string, cut: nat)
    requires Splitting(entry, parts, remaining)
    requires cut <= MaxFieldLength < |remaining|
    requires cut == 0 ==> remaining[0] == '\n'
    ensures Splitting(entry, parts + [remaining[..cut]], Strip(remaining[cut..]))
    ensures |Strip(remaining[cut..])| < |remaining|
  {
    SplitStep(parts, remaining, cut, Visible(entry));
    CutShape(parts, remaining, cut);
  }

  /** A rest that fits becomes the last piece. */
  lemma LastPiece(entry: string, parts: seq<string>, remaining: string)
    requires Splitting(entry, parts, remaining) && 0 < |remaining| <= MaxFieldLength
    ensures AllFit(parts + [remaining])
    ensures |entry| > 0 && !IsSpace(entry[0]) ==> AllLed(parts + [remaining])
    ensures |entry| <= MaxFieldLength && |entry| > 0 ==> parts + [remaining] == [entry]
    ensures Visible(Concat(parts + [remaining])) == Visible(entry)
  {
    SplitLast(parts, remaining, Visible(entry));
  }

  /** With nothing left the pieces show the whole entry. */
  lemma NothingRemains(entry: string, parts: seq<string>)
    requires Splitting(entry, parts, [])
    ensures |entry| > 0 ==> |parts| > 0
    ensures |entry| <= MaxFieldLength ==> |entry| == 0
    ensures Visible(Concat(parts)) == Visible(entry)
  {
    assert Visible([]) == [];
  }

  /** What one cut does to the lengths: the piece fits, the rest shrinks, and
      a visible first character carries over to the piece and the rest. */
  lemma CutShape(parts: seq<string>, remaining: string, cut: nat)
    requires cut <= MaxFieldLength < |remaining|
    requires cut == 0 ==> remaining[0] == '\n'
    requires AllFit(parts)
    ensures AllFit(parts + [remaining[..cut]])
    ensures |Strip(remaining[cut..])| < |remaining|
    ensures !IsSpace(remaining[0]) ==>
      && 0 < cut
      && (AllLed(parts) ==> AllLed(parts + [remaining[..cut]]))
      && (|Strip(remaining[cut..])| > 0 ==> !IsSpace(Strip(remaining[cut..])[0]))
  {
    StripLength(remaining[cut..]);
    StripLength(remaining);
    var r := Strip(remaining[cut..]);
    if |r| > 0 {
      assert !IsSpace(r[0]);
    }
  }

  /** One cut of the split keeps every visible character. */
  lemma SplitStep(parts: seq<string>, remaining: string, cut: nat, target: string)
    requires cut <= |remaining|
    requires Visible(Concat(parts)) + Visible(remaining) == target
    ensures Visible(Concat(parts + [remaining[..cut]])) + Visible(Strip(remaining[cut..])) == target
  {
    var part, rest := remaining[..cut], remaining[cut..];
    Halves(remaining, cut);
    VisibleConcat(part, rest);
    VisibleStrip(rest);
    ConcatAppend(parts, part);
    VisibleConcat(Concat(parts), part);
    Assoc(Visible(Concat(parts)), Visible(part), Visible(rest));
  }

  lemma Halves(s: string, i: nat)
    requires i <= |s|
    ensures s == s[..i] + s[i..]
  {
  }

  lemma Assoc(x: string, y: string, z: string)
    ensures (x + y) + z == x + (y + z)
  {
  }

  /** The last piece of the split keeps every visible character. */
  lemma SplitLast(parts: seq<string>, remaining: string, target: string)
    requires Visible(Concat(parts)) + Visible(remaining) == target
    ensures Visible(Concat(parts + [remaining])) == target
  {
    ConcatAppend(parts, remaining);
    VisibleConcat(Concat(parts), remaining);
  }

  lemma ConcatAppend(parts: seq<string>, p: string)
    ensures Concat(parts + [p]) == Concat(parts) + p
  {
    assert (parts + [p])[..|parts|] == parts;
  }

  /** Appending one field to the list. */
  lemma ValuesAppend(fields: seq<EmbedField>, f: EmbedField)
    ensures Values(fields + [f]) == Values(fields) + f.value
  {
    assert (fields + [f])[..|fields|] == fields;
  }

  /** The field a pending block of text becomes: numbered by the field count
      and stripped. The block starts with an entry's `*`, so the value is
      non-empty. */
  function AddField(added: seq<EmbedField>, title: string, content: string): (r: seq<EmbedField>)
    requires 0 < |content| <= MaxFieldLength && !IsSpace(content[0])
    requires Numbered(added, title)
    ensures |r| == |added| + 1 && r[..|added|] == added && r[|added|].value == Strip(content)
    ensures Numbered(r, title)
  {
    StripLength(content);
    var f := EmbedField(FieldTitle(title, |added| + 1), Strip(content));
    NumberedAppend(added, title, f);
    added + [f]
  }

  /** The new field shows what the block showed. */
  lemma AddFieldShows(added: seq<EmbedField>, title: string, content: string)
    requires 0 < |content| <= MaxFieldLength && !IsSpace(content[0])
    requires Numbered(added, title)
    ensures Visible(Values(AddField(added, title, content))) == Visible(Values(added)) + Visible(content)
  {
    var r := AddField(added, title, content);
    var f := r[|added|];
    assert r == added + [f];
    ValuesAppend(added, f);
    VisibleConcat(Values(added), f.value);
    VisibleStrip(content);
  }

  lemma NumberedAppend(added: seq<EmbedField>, title: string, f: EmbedField)
    requires Numbered(added, title)
    requires f.name == FieldTitle(title, |added| + 1) && Fits(f)
    ensures Numbered(added + [f], title)
  {
    var r := added + [f];
    forall k | 0 <= k < |r|
      ensures r[k].name == FieldTitle(title, k + 1) && Fits(r[k])
    {
      if k < |added| {
        assert r[k] == added[k];
      }
    }
  }

  /** The fields are numbered in order from 1 and each one fits. */
  predicate Numbered(added: seq<EmbedField>, title: string) {
    forall k :: 0 <= k < |added| ==> added[k].name == FieldTitle(title, k + 1) && Fits(added[k])
  }

  /** The `for part in parts` loop: one field per piece of a long entry,
      numbered on from the fields before. */
  function AddParts(added: seq<EmbedField>, title: string, parts: seq<string>): (r: seq<EmbedField>)
    requires AllFit(parts) && AllLed(parts)
    requires Numbered(added, title)
    ensures |r| == |added| + |parts| && r[..|added|] == added
    ensures Numbered(r, title)
    decreases |parts|
  {
    if |parts| == 0 then added
    else
      var n := |parts| - 1;
      assert AllFit(parts[..n]) && AllLed(parts[..n]);
      var before := AddParts(added, title, parts[..n]);
      var r := AddField(before, title, parts[n]);
      assert r[..|added|] == r[..|before|][..|added|];
      r
  }

  /** The fields of the pieces show what the pieces show. */
  lemma {:induction false} AddPartsShows(added: seq<EmbedField>, title: string, parts: seq<string>)
    requires AllFit(parts) && AllLed(parts)
    requires Numbered(added, title)
    ensures Visible(Values(AddParts(added, title, parts))) == Visible(Values(added)) + Visible(Concat(parts))
    decreases |parts|
  {
    if |parts| > 0 {
      var n := |parts| - 1;
      assert AllFit(parts[..n]) && AllLed(parts[..n]);
      var before := AddParts(added, title, parts[..n]);
      assert AddParts(added, title, parts) == AddField(before, title, parts[n]);
      assert Concat(parts) == Concat(parts[..n]) + parts[n];
      AddPartsShows(added, title, parts[..n]);
      AddFieldShows(before, title, parts[n]);
      VisibleConcat(Concat(parts[..n]), parts[n]);
      Assoc(Visible(Values(added)), Visible(Concat(parts[..n])), Visible(parts[n]));
    }
  }

  /** The state of the loop over a section's entries: the fields emitted so
      far and the pending block `current_content`. */
  datatype Pending = Pending(added: seq<EmbedField>, current: string)

  /** Every field is numbered and fits; the pending block fits a field and
      starts with a visible character when it is not empty. */
  predicate Packed(p: Pending, title: string) {
    && Numbered(p.added, title)
    && |p.current| <= MaxFieldLength
    && (|p.current| > 0 ==> !IsSpace(p.current[0]))
  }

  /** What a state shows: its fields' values and then its pending block. */
  function Shown(p: Pending): string {
    Visible(Values(p.added)) + Visible(p.current)
  }

  /** `if current_content:` it becomes a field. */
  function Flush(p: Pending, title: string): (r: seq<EmbedField>)
    requires Packed(p, title)
    ensures Numbered(r, title) && |r| >= |p.added| && r[..|p.added|] == p.added
    ensures |p.current| > 0 ==> |r| == |p.added| + 1
    ensures |p.current| == 0 ==> r == p.added
  {
    if |p.current| > 0 then AddField(p.added, title, p.current) else p.added
  }

  /** Flushing keeps what the state shows. */
  lemma FlushShows(p: Pending, title: string)
    requires Packed(p, title)
    ensures Visible(Values(Flush(p, title))) == Shown(p)
  {
    if |p.current| > 0 {
      AddFieldShows(p.added, title, p.current);
    }
  }

  /** The split of an entry as `SplitEntry` returns it for a long entry. */
  predicate SplitOf(entry: string, parts: seq<string>) {
    |parts| > 0 && AllFit(parts) && AllLed(parts) && Visible(Concat(parts)) == Visible(entry)
  }

  /** One turn of the loop over a section's entries, given the split `parts`
      of the entry when it is too long for a field: such an entry flushes the
      pending block and becomes fields of its own; one that does not fit
      beside the pending block flushes it and starts the next; any other is
      appended to the pending block. */
  function PackEntry(p: Pending, title: string, entry: string, parts: seq<string>): (r: Pending)
    requires Packed(p, title)
    requires |entry| > 0 && !IsSpace(entry[0])
    requires |entry| > MaxFieldLength ==> SplitOf(entry, parts)
    ensures Packed(r, title)
    ensures |r.added| >= |p.added| && r.added[..|p.added|] == p.added
    ensures |r.added| > 0 || |r.current| > 0
  {
    if |entry| > MaxFieldLength then
      var flushed := Flush(p, title);
      var added := AddParts(flushed, title, parts);
      assert added[..|p.added|] == added[..|flushed|][..|p.added|];
      Pending(added, "")
    else if |p.current| + |entry| > MaxFieldLength then
      Pending(Flush(p, title), entry)
    else
      Pending(p.added, p.current + entry)
  }

  /** A turn loses no visible character: the new state shows what the old
      one showed followed by the entry. */
  lemma PackEntryShows(p: Pending, title: string, entry: string, parts: seq<string>)
    requires Packed(p, title)
    requires |entry| > 0 && !IsSpace(entry[0])
    requires |entry| > MaxFieldLength ==> SplitOf(entry, parts)
    ensures Shown(PackEntry(p, title, entry, parts)) == Shown(p) + Visible(entry)
  {
    var r := PackEntry(p, title, entry, parts);
    if |entry| > MaxFieldLength {
      var flushed := Flush(p, title);
      assert r == Pending(AddParts(flushed, title, parts), "");
      FlushShows(p, title);
      AddPartsShows(flushed, title, parts);
      assert Visible(r.current) == [];
    } else if |p.current| + |entry| > MaxFieldLength {
      assert r == Pending(Flush(p, title), entry);
      FlushShows(p, title);
    } else {
      assert r == Pending(p.added, p.current + entry);
      VisibleConcat(p.current, entry);
      Assoc(Visible(Values(p.added)), Visible(p.current), Visible(entry));
    }
  }

  /** The loop over a section's entries: the fields it emits and the block
      still pending at the end. */
  method PackAll(entries: seq<string>, title: string) returns (p: Pending)
    requires AllLed(entries)
    ensures Packed(p, title)
    ensures |entries| > 0 ==> |p.added| > 0 || |p.current| > 0
    ensures Shown(p) == Visible(Concat(entries))
  {
    p := Pending([], "");
    var i := 0;
    while i < |entries|
      invariant 0 <= i <= |entries|
      invariant Packed(p, title)
      invariant i > 0 ==> |p.added| > 0 || |p.current| > 0
      invariant Shown(p) == Visible(Concat(entries[..i]))
    {
      var entry := entries[i];
      var parts: seq<string> := [];
      if |entry| > MaxFieldLength {
        parts := SplitEntry(entry);
      }
      ConcatShown(entries, i);
      PackEntryShows(p, title, entry, parts);
      p := PackEntry(p, title, entry, parts);
      i := i + 1;
    }
    assert entries[..|entries|] == entries;
  }

  /** `add_markets_to_embed(markets, title, embed)`: nothing for an empty
      section; otherwise at least one field, every field numbered in order and
      at most 1000 characters long and non-empty, and the fields showing
      exactly the section's entries in order, up to whitespace. */
  method AddMarketsToEmbed(markets: seq<(string, string)>, title: string, embed: seq<EmbedField>)
    returns (r: seq<EmbedField>)
    ensures |markets| == 0 ==> r == embed
    ensures |r| >= |embed| && r[..|embed|] == embed
    ensures |markets| > 0 ==> |r| > |embed|
    ensures forall i :: |embed| <= i < |r| ==> r[i].name == FieldTitle(title, i - |embed| + 1)
    ensures forall i :: |embed| <= i < |r| ==> Fits(r[i])
    ensures Visible(Values(r[|embed|..])) == Visible(Concat(EntryTexts(markets)))
  {
    if |markets| == 0 {
      return embed;
    }
    var entries := EntryTexts(markets);
    assert AllLed(entries);
    var p := PackAll(entries, title);
    var added := Flush(p, title);
    FlushShows(p, title);
    r := embed + added;
    Assemble(embed, added, title);
  }

  /** The section's fields after the fields already in the embed. */
  lemma Assemble(embed: seq<EmbedField>, added: seq<EmbedField>, title: string)
    requires Numbered(added, title)
    ensures (embed + added)[..|embed|] == embed && (embed + added)[|embed|..] == added
    ensures forall i :: |embed| <= i < |embed + added| ==>
      (embed + added)[i].name == FieldTitle(title, i - |embed| + 1) && Fits((embed + added)[i])
  {
    var r := embed + added;
    forall i | |embed| <= i < |r|
      ensures r[i].name == FieldTitle(title, i - |embed| + 1) && Fits(r[i])
    {
      assert r[i] == added[i - |embed|];
    }
  }

  /** The visible text of the first `i + 1` entries. */
  lemma ConcatShown(entries: seq<string>, i: nat)
    requires i < |entries|
    ensures Visible(Concat(entries[..i + 1])) == Visible(Concat(entries[..i])) + Visible(entries[i])
  {
    assert entries[..i + 1][..i] == entries[..i];
    VisibleConcat(Concat(entries[..i]), entries[i]);
  }
}
