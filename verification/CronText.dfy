/** The text functions of the cron compiler, and the grammar of a cron field with its meaning. */
module CronText {
  import opened Common

  const MAX_INT := 0x7fff_ffff_ffff_ffff

  // ---------------------------------------------------------------- cutting text

  /** `strings.Split(s, string(c))`. */
  function Split(s: string, c: char): (pieces: seq<string>)
    ensures pieces != []
  {
    if s == "" then [""]
    else
      var rest := Split(s[1..], c);
      if s[0] == c then [""] + rest else [[s[0]] + rest[0]] + rest[1..]
  }

  function Join(pieces: seq<string>, c: char): string
    requires pieces != []
  {
    if |pieces| == 1 then pieces[0] else pieces[0] + [c] + Join(pieces[1..], c)
  }

  ghost predicate Without(pieces: seq<string>, c: char) {
    forall i :: 0 <= i < |pieces| ==> c !in pieces[i]
  }

  /** Splitting cuts a text into separator-free pieces that join back to it ... */
  lemma {:induction false} SplitJoins(s: string, c: char)
    ensures Without(Split(s, c), c) && Join(Split(s, c), c) == s
  {
    if s != "" {
      SplitJoins(s[1..], c);
      var rest := Split(s[1..], c);
      if s[0] == c {
        assert Split(s, c)[1..] == rest;
      } else if |rest| > 1 {
        assert Split(s, c)[1..] == rest[1..];
      }
    }
  }

  /** ... and those pieces are the only ones that do. */
  lemma {:induction false} SplitUnique(pieces: seq<string>, c: char)
    requires pieces != [] && Without(pieces, c)
    ensures Split(Join(pieces, c), c) == pieces
    decreases |pieces|, |pieces[0]|
  {
    var s := Join(pieces, c);
    if pieces[0] != "" {
      var shorter := [pieces[0][1..]] + pieces[1..];
      SplitUnique(shorter, c);
      assert s[0] == pieces[0][0] && s[1..] == Join(shorter, c);
      assert [s[0]] + pieces[0][1..] == pieces[0];
    } else if |pieces| > 1 {
      SplitUnique(pieces[1..], c);
      assert s[1..] == Join(pieces[1..], c);
    }
  }

  /** `unicode.IsSpace`. */
  predicate IsSpace(ch: char) {
    || '\t' <= ch <= '\r' || ch == ' ' || ch == '\U{85}' || ch == '\U{a0}' || ch == '\U{1680}'
    || '\U{2000}' <= ch <= '\U{200a}' || ch == '\U{2028}' || ch == '\U{2029}'
    || ch == '\U{202f}' || ch == '\U{205f}' || ch == '\U{3000}'
  }

  /** White space are the characters that Unicode calls so in Latin-1, and its space separators and line breaks. */
  lemma SpaceCharacters(ch: char)
    ensures IsSpace(ch) <==>
      ch as int in {9, 10, 11, 12, 13, 32, 0x85, 0xa0, 0x1680, 0x2000, 0x2001, 0x2002, 0x2003, 0x2004, 0x2005, 0x2006,
                    0x2007, 0x2008, 0x2009, 0x200a, 0x2028, 0x2029, 0x202f, 0x205f, 0x3000}
  {
  }

  function WordLength(s: string): (n: nat)
    ensures n <= |s|
    ensures forall i :: 0 <= i < n ==> !IsSpace(s[i])
    ensures n < |s| ==> IsSpace(s[n])
  {
    if s == "" || IsSpace(s[0]) then 0 else 1 + WordLength(s[1..])
  }

  /** `strings.Fields`: the maximal runs of non-space characters. */
  function Fields(s: string): seq<string> {
    if s == "" then []
    else
      var n := WordLength(s);
      if n == 0 then Fields(s[1..]) else [s[..n]] + Fields(s[n..])
  }

  predicate AllSpace(s: string) { forall i :: 0 <= i < |s| ==> IsSpace(s[i]) }

  predicate IsWord(s: string) { s != "" && forall i :: 0 <= i < |s| ==> !IsSpace(s[i]) }

  /** Words laid out between gaps, `gaps[i]` standing before `words[i]`. */
  function Layout(words: seq<string>, gaps: seq<string>): string
    requires |gaps| == |words| + 1
  {
    if words == [] then gaps[0] else gaps[0] + words[0] + Layout(words[1..], gaps[1..])
  }

  lemma {:induction false} FieldsSkipSpace(g: string, s: string)
    requires AllSpace(g)
    ensures Fields(g + s) == Fields(s)
  {
    if g == "" {
      assert g + s == s;
    } else {
      assert (g + s)[0] == g[0] && (g + s)[1..] == g[1..] + s;
      FieldsSkipSpace(g[1..], s);
    }
  }

  lemma FieldsTakeWord(w: string, s: string)
    requires IsWord(w) && (s == "" || IsSpace(s[0]))
    ensures Fields(w + s) == [w] + Fields(s)
  {
    var t := w + s;
    var n := WordLength(t);
    assert forall i :: 0 <= i < |w| ==> t[i] == w[i];
    assert s != "" ==> t[|w|] == s[0];
    assert n == |w| && t[..n] == w && t[n..] == s;
  }

  lemma LayoutFirst(words: seq<string>, gaps: seq<string>)
    requires |gaps| == |words| + 1 && words != []
    ensures Layout(words, gaps) == gaps[0] + (words[0] + Layout(words[1..], gaps[1..]))
  {
  }

  lemma LayoutSpace(words: seq<string>, gaps: seq<string>)
    requires |gaps| == |words| + 1 && AllSpace(gaps[0]) && (words != [] ==> gaps[0] != "")
    ensures Layout(words, gaps) == "" || IsSpace(Layout(words, gaps)[0])
  {
    if words != [] {
      LayoutFirst(words, gaps);
    }
  }

  /** However its words are spaced, a text has exactly those words as fields. */
  lemma {:induction false} FieldsOfLayout(words: seq<string>, gaps: seq<string>)
    requires |gaps| == |words| + 1
    requires forall i :: 0 <= i < |words| ==> IsWord(words[i])
    requires forall i :: 0 <= i < |gaps| ==> AllSpace(gaps[i]) && (0 < i < |words| ==> gaps[i] != "")
    ensures Fields(Layout(words, gaps)) == words
  {
    hide Fields, Layout, IsSpace, IsWord, AllSpace;
    if words == [] {
      FieldsOfSpace(words, gaps);
    } else {
      var rest := Layout(words[1..], gaps[1..]);
      FieldsOfLayout(words[1..], gaps[1..]);
      LayoutSpace(words[1..], gaps[1..]);
      FieldsTakeWord(words[0], rest);
      LayoutFirst(words, gaps);
      FieldsSkipSpace(gaps[0], words[0] + rest);
      assert [words[0]] + words[1..] == words;
    }
  }

  lemma FieldsOfSpace(words: seq<string>, gaps: seq<string>)
    requires words == [] && |gaps| == 1 && AllSpace(gaps[0])
    ensures Fields(Layout(words, gaps)) == []
  {
    FieldsSkipSpace(gaps[0], "");
    assert gaps[0] + "" == gaps[0];
  }

  /** Words with single spaces between them are the fields. */
  lemma {:induction false} FieldsOfJoin(words: seq<string>)
    requires words != [] && forall i :: 0 <= i < |words| ==> IsWord(words[i])
    ensures Fields(Join(words, ' ')) == words
  {
    hide Fields, IsWord;
    if |words| == 1 {
      FieldsTakeWord(words[0], "");
      assert words[0] + "" == words[0] && Fields("") == [] by { NoFields(); }
    } else {
      var rest := Join(words[1..], ' ');
      FieldsOfJoin(words[1..]);
      FieldsSkipSpace(" ", rest);
      FieldsTakeWord(words[0], " " + rest);
      assert Join(words, ' ') == words[0] + (" " + rest);
      assert [words[0]] + words[1..] == words;
    }
  }

  lemma NoFields()
    ensures Fields("") == []
  {
  }

  // ---------------------------------------------------------------- integers

  predicate IsDigit(ch: char) { '0' <= ch <= '9' }

  predicate AllDigits(s: string) { forall i :: 0 <= i < |s| ==> IsDigit(s[i]) }

  function DecimalValue(s: string): nat
    requires AllDigits(s)
  {
    if s == "" then 0
    else
      assert IsDigit(s[|s| - 1]);
      DecimalValue(s[..|s| - 1]) * 10 + (s[|s| - 1] as int - '0' as int)
  }

  /** `strconv.Atoi`: an optional sign, at least one digit, and a value that fits 64 bits. */
  function Atoi(s: string): (r: Option<int>)
    ensures r.Some? ==> -MAX_INT - 1 <= r.value <= MAX_INT
  {
    var neg := s != "" && s[0] == '-';
    var digits := if s != "" && (s[0] == '-' || s[0] == '+') then s[1..] else s;
    if digits == "" || !AllDigits(digits) then None
    else
      var n: int := DecimalValue(digits);
      if neg then (if n <= MAX_INT + 1 then Some(-n) else None)
      else if n <= MAX_INT then Some(n)
      else None
  }

  /** Decimal notation without leading zeros. */
  function Decimal(n: nat): (s: string)
    ensures s != "" && AllDigits(s)
  {
    if n < 10 then [(n + '0' as int) as char] else Decimal(n / 10) + Decimal(n % 10)
  }

  lemma {:induction false} DecimalRoundTrip(n: nat)
    ensures DecimalValue(Decimal(n)) == n
  {
    if n >= 10 {
      DecimalRoundTrip(n / 10);
      assert Decimal(n)[..|Decimal(n)| - 1] == Decimal(n / 10);
    }
  }

  lemma AtoiReadsDecimal(n: nat)
    requires n <= MAX_INT
    ensures Atoi(Decimal(n)) == Some(n)
  {
    DecimalRoundTrip(n);
    assert IsDigit(Decimal(n)[0]);
  }

  /** Ten times the number and one more digit, as long as 64 bits hold it. */
  function InWord(n: Option<int>, d: int): Option<int> {
    if n.Some? && 10 * n.value + d <= 0x7fff_ffff_ffff_ffff then Some(10 * n.value + d) else None
  }

  /** A digit reads as itself, and one more digit multiplies by ten and adds, as long as 64 bits hold it. */
  lemma AtoiDigits(s: string, c: char)
    requires (forall i :: 0 <= i < |s| ==> '0' <= s[i] <= '9') && '0' <= c <= '9'
    ensures Atoi([c]) == Some(c as int - '0' as int)
    ensures s != "" ==> Atoi(s + [c]) == InWord(Atoi(s), c as int - '0' as int)
  {
    DigitsMore("", c);
    DigitsMore(s, c);
    assert "" + [c] == [c] && DecimalValue("") == 0;
    hide DecimalValue, Atoi;
    AtoiPlain([c]);
    AtoiPlain(s + [c]);
    if s != "" {
      AtoiPlain(s);
    }
  }

  lemma DigitsMore(s: string, c: char)
    requires AllDigits(s) && IsDigit(c)
    ensures AllDigits(s + [c]) && DecimalValue(s + [c]) == 10 * DecimalValue(s) + (c as int - '0' as int)
  {
    assert (s + [c])[..|s|] == s;
  }

  /** A leading zero changes nothing, nor does a plus sign; a minus sign negates, within 64 bits. */
  lemma AtoiPrefixes(s: string)
    requires s != "" && forall i :: 0 <= i < |s| ==> '0' <= s[i] <= '9'
    ensures Atoi("0" + s) == Atoi(s) && Atoi("+" + s) == Atoi(s)
    ensures Atoi("-" + s) ==
      if Atoi(s).Some? then Some(-Atoi(s).value)
      else if DecimalValue(s) == 0x8000_0000_0000_0000 then Some(-0x8000_0000_0000_0000)
      else None
  {
    LeadingZero(s);
    hide DecimalValue;
    AtoiPlain(s);
    AtoiPlain("0" + s);
    AtoiSigned(s);
  }

  function Negated(n: int): Option<int> {
    Some(-n)
  }

  lemma AtoiPlain(s: string)
    requires s != "" && AllDigits(s)
    ensures Atoi(s) == if DecimalValue(s) <= MAX_INT then Some(DecimalValue(s)) else None
  {
    hide DecimalValue;
    assert IsDigit(s[0]);
  }

  lemma AtoiSigned(s: string)
    requires s != "" && AllDigits(s)
    ensures Atoi("+" + s) == if DecimalValue(s) <= MAX_INT then Some(DecimalValue(s)) else None
    ensures Atoi("-" + s) == if DecimalValue(s) <= MAX_INT + 1 then Negated(DecimalValue(s)) else None
  {
    hide DecimalValue;
    assert ("+" + s)[1..] == s && ("-" + s)[1..] == s;
  }

  lemma {:induction false} LeadingZero(s: string)
    requires AllDigits(s)
    ensures AllDigits("0" + s) && DecimalValue("0" + s) == DecimalValue(s)
  {
    if s == "" {
      assert ("0" + s)[..0] == "";
    } else {
      LeadingZero(s[..|s| - 1]);
      assert ("0" + s)[..|s|] == "0" + s[..|s| - 1];
    }
  }

  /** Nothing else is a number: at most one sign, and then digits only, at least one. */
  lemma AtoiOnlyDigits(t: string)
    requires Atoi(t).Some?
    ensures exists s: string ::
      (t == s || t == "+" + s || t == "-" + s) && s != "" && forall i :: 0 <= i < |s| ==> '0' <= s[i] <= '9'
  {
    var s := if t[0] == '-' || t[0] == '+' then t[1..] else t;
    assert t == s || t == "+" + s || t == "-" + s;
  }

  // ---------------------------------------------------------------- grammar

  datatype Range = Star | From(lo: int) | Between(lo: int, hi: int)
  datatype Item = Item(range: Range, step: Option<int>)

  ghost predicate ReadsRange(text: string, range: Range) {
    match range
    case Star => text == "*"
    case From(a) => '-' !in text && Atoi(text) == Some(a)
    case Between(a, b) =>
      exists p, q :: text == p + "-" + q && '-' !in p && '-' !in q && Atoi(p) == Some(a) && Atoi(q) == Some(b)
  }

  ghost predicate ReadsItem(text: string, item: Item) {
    match item.step
    case None => '/' !in text && ReadsRange(text, item.range)
    case Some(n) =>
      exists r, s :: text == r + "/" + s && '/' !in r && '/' !in s && ReadsRange(r, item.range) && Atoi(s) == Some(n)
  }

  /** The text of a field is a comma-separated list of item texts. */
  ghost predicate ReadsField(text: string, items: seq<Item>) {
    exists pieces: seq<string> ::
      pieces != [] && Without(pieces, ',') && text == Join(pieces, ',') && ReadsItems(pieces, items)
  }

  ghost predicate ReadsItems(pieces: seq<string>, items: seq<Item>) {
    |pieces| == |items| && forall i :: 0 <= i < |items| ==> ReadsItem(pieces[i], items[i])
  }

  // ---------------------------------------------------------------- meaning

  function Lo(item: Item, min: int): int {
    if item.range.Star? then min else item.range.lo
  }

  /** A single number with a step runs up to the field's maximum. */
  function Hi(item: Item, max: int): int {
    match item.range
    case Star => max
    case From(a) => if item.step.Some? then max else a
    case Between(_, b) => b
  }

  function Step(item: Item): int {
    if item.step.Some? then item.step.value else 1
  }

  predicate WellFormed(item: Item, min: int, max: int) {
    min <= Lo(item, min) <= Hi(item, max) <= max && Step(item) >= 1
  }

  /** The item's values: from its low end to its high end in steps. */
  predicate ItemAdmits(item: Item, min: int, max: int, v: int)
    requires WellFormed(item, min, max)
  {
    Lo(item, min) <= v <= Hi(item, max) && (v - Lo(item, min)) % Step(item) == 0
  }

  predicate AllWellFormed(items: seq<Item>, min: int, max: int) {
    forall i :: 0 <= i < |items| ==> WellFormed(items[i], min, max)
  }

  predicate Admits(items: seq<Item>, min: int, max: int, v: int)
    requires AllWellFormed(items, min, max)
  {
    exists i :: 0 <= i < |items| && ItemAdmits(items[i], min, max, v)
  }

  // ---------------------------------------------------------------- reading the grammar

  function ReadRange(text: string): Option<Range> {
    var parts := Split(text, '-');
    if text == "*" then Some(Star)
    else if |parts| == 1 then
      (match Atoi(text) case Some(a) => Some(From(a)) case None => None)
    else if |parts| == 2 && Atoi(parts[0]).Some? && Atoi(parts[1]).Some? then
      Some(Between(Atoi(parts[0]).value, Atoi(parts[1]).value))
    else None
  }

  function ReadItem(text: string): Option<Item> {
    var parts := Split(text, '/');
    if |parts| > 2 then None
    else match ReadRange(parts[0])
    case None => None
    case Some(r) =>
      if |parts| == 1 then Some(Item(r, None))
      else match Atoi(parts[1]) case Some(n) => Some(Item(r, Some(n))) case None => None
  }

  function ReadItems(pieces: seq<string>): (r: Option<seq<Item>>)
    ensures r.Some? ==> |r.value| == |pieces|
  {
    if pieces == [] then Some([])
    else match ReadItem(pieces[0])
    case None => None
    case Some(i) => match ReadItems(pieces[1..]) case Some(rest) => Some([i] + rest) case None => None
  }

  function ReadField(text: string): Option<seq<Item>> {
    ReadItems(Split(text, ','))
  }

  lemma SplitOne(text: string, c: char)
    ensures |Split(text, c)| == 1 <==> c !in text
    ensures |Split(text, c)| == 1 ==> Split(text, c)[0] == text
  {
    SplitJoins(text, c);
    if c !in text {
      SplitUnique([text], c);
    }
    if |Split(text, c)| > 1 {
      assert Join(Split(text, c), c)[|Split(text, c)[0]|] == c;
    }
  }

  lemma SplitTwo(text: string, c: char)
    requires |Split(text, c)| == 2
    ensures var p, q := Split(text, c)[0], Split(text, c)[1]; text == p + [c] + q && c !in p && c !in q
  {
    SplitJoins(text, c);
  }

  lemma SplitPair(p: string, c: char, q: string)
    requires c !in p && c !in q
    ensures Split(p + [c] + q, c) == [p, q]
  {
    SplitUnique([p, q], c);
    assert Join([p, q], c) == p + [c] + q;
  }

  lemma ReadRangeExact(text: string, range: Range)
    ensures ReadRange(text) == Some(range) <==> ReadsRange(text, range)
  {
    hide Split, Atoi;
    SplitOne(text, '-');
    AtoiStar();
    var parts := Split(text, '-');
    if ReadRange(text) == Some(range) && range.Between? {
      SplitTwo(text, '-');
      assert text == parts[0] + "-" + parts[1];
    }
    if ReadsRange(text, range) && range.Between? {
      var p, q :|
        text == p + "-" + q && '-' !in p && '-' !in q && Atoi(p) == Some(range.lo) && Atoi(q) == Some(range.hi);
      SplitPair(p, '-', q);
      assert text[|p|] == '-';
    }
  }

  lemma AtoiStar()
    ensures Atoi("*") == None
  {
    var s := "*";
    assert !IsDigit(s[0]);
  }

  lemma ReadItemExact(text: string, item: Item)
    ensures ReadItem(text) == Some(item) <==> ReadsItem(text, item)
  {
    hide Split, Atoi, ReadRange, ReadsRange;
    SplitOne(text, '/');
    var parts := Split(text, '/');
    ReadRangeExact(parts[0], item.range);
    if ReadItem(text) == Some(item) && item.step.Some? {
      SplitTwo(text, '/');
      assert text == parts[0] + "/" + parts[1];
    }
    if ReadsItem(text, item) && item.step.Some? {
      var r, s :| text == r + "/" + s && '/' !in r && '/' !in s && ReadsRange(r, item.range) && Atoi(s) == item.step;
      SplitPair(r, '/', s);
    }
  }

  lemma ReadsItemsCons(pieces: seq<string>, items: seq<Item>)
    requires pieces != [] && items != []
    ensures ReadsItems(pieces, items) <==> ReadsItem(pieces[0], items[0]) && ReadsItems(pieces[1..], items[1..])
  {
    hide ReadsItem;
    if ReadsItem(pieces[0], items[0]) && ReadsItems(pieces[1..], items[1..]) {
      forall i | 0 <= i < |items| ensures ReadsItem(pieces[i], items[i]) {
        if i > 0 {
          assert ReadsItem(pieces[1..][i - 1], items[1..][i - 1]);
        }
      }
    }
  }

  lemma {:induction false} ReadItemsExact(pieces: seq<string>, items: seq<Item>)
    ensures ReadItems(pieces) == Some(items) <==> ReadsItems(pieces, items)
  {
    if pieces != [] && items != [] {
      ReadItemsExact(pieces[1..], items[1..]);
      ReadItemExact(pieces[0], items[0]);
      ReadsItemsCons(pieces, items);
      hide ReadsItems, ReadsItem, ReadItem;
      assert items == [items[0]] + items[1..];
    }
  }

  /** The grammar of a field is unambiguous, and `ReadField` reads it. */
  lemma ReadFieldExact(text: string, items: seq<Item>)
    ensures ReadField(text) == Some(items) <==> ReadsField(text, items)
  {
    hide ReadsItems, ReadItems, Split, Join;
    SplitJoins(text, ',');
    ReadItemsExact(Split(text, ','), items);
    if ReadsField(text, items) {
      var pieces: seq<string> :|
        pieces != [] && Without(pieces, ',') && text == Join(pieces, ',') && ReadsItems(pieces, items);
      SplitUnique(pieces, ',');
    }
  }
}
