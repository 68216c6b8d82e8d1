/**
 * Restricting a request's Accept-Language header to the released languages: the header is
 * parsed, each entry is replaced by its released match or dropped, and the rest is printed.
 */
module DarkLang {
  import opened Common
  import opened Decimal
  import opened AcceptLanguage
  import opened AcceptLanguageResults

  const CHINESE_LANGUAGE_CODES: map<string, string> := map[
    "zh-hans" := "zh-CN", "zh-hans-cn" := "zh-CN", "zh-hans-sg" := "zh-CN",
    "zh-hant" := "zh-TW", "zh-hant-hk" := "zh-HK", "zh-hant-mo" := "zh-TW", "zh-hant-tw" := "zh-TW",
    "zh-mo" := "zh-TW", "zh-sg" := "zh-CN"]

  function LowerChar(c: char): char {
    if 'A' <= c <= 'Z' then (c as int - 'A' as int + 'a' as int) as char else c
  }

  function Lower(s: string): string {
    seq(|s|, i requires 0 <= i < |s| => LowerChar(s[i]))
  }

  function ChineseCode(lang: string): string {
    if Lower(lang) in CHINESE_LANGUAGE_CODES then CHINESE_LANGUAGE_CODES[Lower(lang)] else lang
  }

  function ReleasedLangs(options: seq<string>, languageCode: string): seq<string> {
    if languageCode in options then options else options + [languageCode]
  }

  function FirstWithPrefix(released: seq<string>, prefix: string): Option<string> {
    if released == [] then None
    else if Generic(released[0]) == prefix then Some(released[0])
    else FirstWithPrefix(released[1..], prefix)
  }

  function FuzzyMatch(released: seq<string>, code: string): Option<string> {
    if code in released then Some(code) else FirstWithPrefix(released, Generic(code))
  }

  /** A code is matched by itself if released, else by the first released code of its language, if any. */
  lemma {:induction false} FuzzyMatchIsReleased(released: seq<string>, code: string)
    ensures match FuzzyMatch(released, code)
      case Some(r) => r in released && Generic(r) == Generic(code) && (code in released ==> r == code)
        && (code !in released ==> exists i | 0 <= i < |released| ::
              released[i] == r && forall j | 0 <= j < i :: Generic(released[j]) != Generic(code))
      case None => forall r <- released :: Generic(r) != Generic(code)
  {
    if code !in released && released != [] && Generic(released[0]) != Generic(code) {
      FuzzyMatchIsReleased(released[1..], code);
      if FuzzyMatch(released[1..], code).Some? {
        var r := FuzzyMatch(released[1..], code).value;
        var i :| 0 <= i < |released| - 1 && released[1..][i] == r
          && forall j | 0 <= j < i :: Generic(released[1..][j]) != Generic(code);
        assert released[i + 1] == r;
        assert forall j | 0 < j < i + 1 :: released[j] == released[1..][j - 1];
      }
    }
  }

  /** The released match of an entry's language. */
  function Image(released: seq<string>, lang: string): Option<string> {
    var r := FuzzyMatch(released, Lower(ChineseCode(lang)));
    if r == Some("") then None else r
  }

  function Images(released: seq<string>, es: seq<Entry>): seq<Entry> {
    if es == [] then []
    else
      var code := Image(released, es[0].lang);
      (if code.Some? then [Entry(code.value, es[0].q)] else []) + Images(released, es[1..])
  }

  // -------------------------------------------------------------------- printing

  /** The fewest decimals that show a fraction of thousandths. */
  function Decimals(q: nat): (s: string)
    requires 0 < q < 1000
    ensures 1 <= |s| <= 3 && AllDigits(s)
  {
    if q % 100 == 0 then [DigitChar(q / 100)]
    else if q % 10 == 0 then [DigitChar(q / 100), DigitChar(q / 10 % 10)]
    else [DigitChar(q / 100), DigitChar(q / 10 % 10), DigitChar(q % 10)]
  }

  /** A q-value as a float prints it. */
  function FormatQ(q: nat): string
    requires q > 0
  {
    if q < 1000 then "0." + Decimals(q) else Numeral(q / 1000) + ".0"
  }

  predicate Positive(es: seq<Entry>) { forall e <- es :: e.q > 0 }

  function FormatEntry(e: Entry): string
    requires e.q > 0
  {
    e.lang + ";q=" + FormatQ(e.q)
  }

  function Print(es: seq<Entry>): string
    requires Positive(es)
  {
    if es == [] then "" else FormatEntry(es[0]) + if |es| == 1 then "" else ", " + Print(es[1..])
  }

  // ------------------------------------------------------- facts about the parser

  /** A q-value above one: 1, a digit and up to three zeros, read as a whole number. */
  ghost predicate IsOversized(q: nat, x: string) {
    && 2 <= |x| <= 5 && x[0] == '1' && IsDigit(x[1]) && All(x[2..], Zero) && AllDigits(x)
    && q == 1000 * Value(x) && q > 1000
  }

  ghost predicate Readable(q: nat) {
    0 < q && (q <= 1000 || exists x :: IsOversized(q, x))
  }

  lemma {:induction false} ValueSnoc(x: string, c: char)
    requires AllDigits(x) && IsDigit(c)
    ensures Value(x + [c]) == 10 * Value(x) + DigitValue(c)
  {
    assert (x + [c])[..|x|] == x;
  }

  lemma {:induction false} ValueBounds(x: string)
    requires AllDigits(x) && x != "" && x[0] == '1'
    ensures Value(x) >= 1 && (|x| > 1 ==> Value(x) > 1) && Numeral(Value(x)) == x
  {
    var y := x[..|x| - 1];
    assert x == y + [x[|x| - 1]];
    ValueSnoc(y, x[|x| - 1]);
    if |x| == 1 {
      assert y == "" && x == "1";
    } else {
      ValueBounds(y);
    }
  }

  lemma FractionBound(d: string)
    requires 1 <= |d| <= 3 && All(d, Digit)
    ensures Fraction(d) < 1000
  {
    assert AllDigits(d[..1]) && d[..1][..0] == "" && Value(d[..1]) <= 9;
    if |d| >= 2 {
      assert AllDigits(d[..2]) && d[..2][..1] == d[..1] && Value(d[..2]) <= 99;
    }
    assert d[..|d|] == d;
  }

  lemma EntryIsReadable(e: Element)
    requires EntryOf(e).Some?
    ensures Readable(EntryOf(e).value.q)
  {
    if e.quality.Some? {
      var t := e.quality.value.number;
      if t[0] == '0' {
        if |t| > 2 { FractionBound(t[2..]); }
      } else if |t| > 1 && t[1] != '.' && IsDigit(t[1]) {
        assert forall i | 2 <= i < |t| :: t[i] == t[2..][i - 2];
        assert AllDigits(t);
        ValueBounds(t);
        assert IsOversized(EntryOf(e).value.q, t);
      }
    }
  }

  lemma {:induction false} EntriesAreReadable(es: seq<Element>)
    requires EntriesOf(es).Some?
    ensures forall e <- EntriesOf(es).value :: Readable(e.q)
  {
    if es != [] {
      EntryIsReadable(es[0]);
      EntriesAreReadable(es[1..]);
    }
  }

  lemma ParsedIsReadable(header: string)
    requires Parse(header).Entries?
    ensures Descending(Parse(header).entries) && forall e <- Parse(header).entries :: Readable(e.q)
  {
    if Parse(header).entries != [] {
      var es := AllOrNothing(header);
      EntriesAreReadable(es);
      SortIsStable(EntriesOf(es).value);
      forall e | e in Parse(header).entries ensures Readable(e.q) {
        assert e in multiset(Parse(header).entries);
      }
    }
  }

  lemma {:induction false} ImagesAreImages(released: seq<string>, es: seq<Entry>)
    ensures forall e <- Images(released, es) ::
      exists o <- es :: Image(released, o.lang) == Some(e.lang) && o.q == e.q
  {
    if es != [] {
      var rest := Images(released, es[1..]);
      ImagesAreImages(released, es[1..]);
      forall e | e in Images(released, es)
        ensures exists o <- es :: Image(released, o.lang) == Some(e.lang) && o.q == e.q
      {
        if e in rest {
          var o :| o in es[1..] && Image(released, o.lang) == Some(e.lang) && o.q == e.q;
          assert o in es;
        } else {
          assert Image(released, es[0].lang) == Some(e.lang) && es[0].q == e.q;
        }
      }
    }
  }

  lemma {:induction false} ImagesDescend(released: seq<string>, es: seq<Entry>)
    requires Descending(es)
    ensures Descending(Images(released, es))
  {
    if es != [] {
      var rest, code := Images(released, es[1..]), Image(released, es[0].lang);
      ImagesDescend(released, es[1..]);
      if code.Some? {
        forall m | m in rest ensures m.q <= es[0].q { ImageIsLower(released, es, m); }
        DescendingCons(Entry(code.value, es[0].q), rest);
      } else {
        assert Images(released, es) == rest;
      }
    }
  }

  lemma {:induction false} ImageIsLower(released: seq<string>, es: seq<Entry>, m: Entry)
    requires es != [] && Descending(es) && m in Images(released, es[1..])
    ensures m.q <= es[0].q
  {
    ImagesAreImages(released, es[1..]);
    var o :| o in es[1..] && o.q == m.q;
  }

  lemma {:induction false} ImagesKeepOrder(released: seq<string>, es: seq<Entry>)
    requires Descending(es) && forall e <- es :: Readable(e.q)
    ensures var r := Images(released, es);
      && Descending(r) && (forall e <- r :: Readable(e.q)) && Positive(r)
      && forall e <- r :: exists o <- es :: Image(released, o.lang) == Some(e.lang) && o.q == e.q
  {
    ImagesDescend(released, es);
    ImagesAreImages(released, es);
    forall e | e in Images(released, es) ensures Readable(e.q) {
      var o :| o in es && o.q == e.q;
    }
  }

  // ------------------------------------------------------------------ round trip

  /** Released codes as the settings write them: lower case, well formed, and no old Chinese code. */
  ghost predicate Releasable(released: seq<string>) {
    forall c <- released :: c != "" && Lower(c) == c && IsLanguage(c) && c !in CHINESE_LANGUAGE_CODES
  }

  function PrintedOne(e: Entry, last: bool): Element
    requires e.q > 0
  {
    Element(e.lang, Some(Quality("", "", FormatQ(e.q))), if last then End else Comma("", " "))
  }

  function Printed(es: seq<Entry>): (r: seq<Element>)
    requires Positive(es)
    ensures |r| == |es|
  {
    if es == [] then [] else [PrintedOne(es[0], |es| == 1)] + Printed(es[1..])
  }

  lemma ValueOfDigit(a: char)
    requires IsDigit(a)
    ensures Value([a]) == DigitValue(a)
  {
    assert [a][..0] == [];
  }

  lemma ValueOfDigits(a: char, b: char, c: char)
    requires IsDigit(a) && IsDigit(b) && IsDigit(c)
    ensures Value([a]) == DigitValue(a)
    ensures Value([a, b]) == 10 * DigitValue(a) + DigitValue(b)
    ensures Value([a, b, c]) == 100 * DigitValue(a) + 10 * DigitValue(b) + DigitValue(c)
  {
    ValueOfDigit(a);
    ValueSnoc([a], b);
    ValueSnoc([a, b], c);
    assert [a] + [b] == [a, b] && [a, b] + [c] == [a, b, c];
  }

  lemma SplitInDigits(q: nat) returns (a: nat, b: nat, c: nat)
    requires q < 1000
    ensures a < 10 && b < 10 && c < 10 && q == 100 * a + 10 * b + c
    ensures a == q / 100 && b == q / 10 % 10 && c == q % 10 && (q % 100 == 0 <==> b == 0 && c == 0)
  {
    a, b, c := q / 100, q / 10 % 10, q % 10;
  }

  lemma DigitsMakeUp(q: nat)
    requires 0 < q < 1000
    ensures All(Decimals(q), Digit) && Fraction(Decimals(q)) == q
  {
    var a, b, c := SplitInDigits(q);
    var x, y, z := DigitChar(a), DigitChar(b), DigitChar(c);
    ValueOfDigits(x, y, z);
    if b == 0 && c == 0 {
      assert Decimals(q) == [x];
    } else if c == 0 {
      assert Decimals(q) == [x, y];
    } else {
      assert Decimals(q) == [x, y, z];
    }
  }

  lemma PrintedNumber(q: nat)
    requires 0 < q <= 1000
    ensures IsQValue(FormatQ(q)) && Thousandths(FormatQ(q)) == Some(q) && FormatQ(q) != "1"
  {
    if q < 1000 {
      DigitsMakeUp(q);
      assert FormatQ(q)[2..] == Decimals(q);
    } else {
      assert FormatQ(q) == "1.0";
    }
  }

  lemma PrintedElement(e: Entry, last: bool)
    requires 0 < e.q <= 1000 && IsLanguage(e.lang)
    ensures var p := PrintedOne(e, last);
      && IsElement(p, true) && (p.sep.End? <==> last) && !SwallowedIn(p, "") && EntryOf(p) == Some(e)
      && ElementText(p) == FormatEntry(e) + if last then "" else ", "
  {
    PrintedNumber(e.q);
    var p := PrintedOne(e, last);
    var q := QualityText(p.quality);
    assert q == ";q=" + FormatQ(e.q);
    assert e.lang + (q + SeparatorText(p.sep)) == e.lang + ";q=" + FormatQ(e.q) + SeparatorText(p.sep);
  }

  predicate Standard(es: seq<Entry>) { forall e <- es :: 0 < e.q <= 1000 && IsLanguage(e.lang) }

  lemma StrictCons(p: Element, more: seq<Element>)
    requires IsElement(p, true) && IsList(more, true) && (p.sep.End? ==> more == [])
    requires !SwallowedIn(p, "") && !EndsInBareOne(more)
    ensures IsList([p] + more, true) && !EndsInBareOne([p] + more)
  {
  }

  lemma {:induction false} PrintedList(es: seq<Entry>)
    requires Standard(es)
    ensures IsList(Printed(es), true) && !EndsInBareOne(Printed(es))
  {
    if es != [] {
      PrintedList(es[1..]);
      PrintedElement(es[0], |es| == 1);
      StrictCons(PrintedOne(es[0], |es| == 1), Printed(es[1..]));
    }
  }

  lemma {:induction false} TextCons(p: Element, more: seq<Element>, f: string, m: string, last: bool)
    requires ElementText(p) == f + (if last then "" else ", ") && Text(more) == m && (last ==> m == "")
    ensures Text([p] + more) == f + if last then "" else ", " + m
  {
    assert ([p] + more)[1..] == more;
    Regroup(f, ", ", m);
    assert last ==> f + "" + m == f + "";
  }

  lemma {:induction false} PrintedText(es: seq<Entry>)
    requires Standard(es)
    ensures Text(Printed(es)) == Print(es)
  {
    if es != [] {
      PrintedText(es[1..]);
      PrintedElement(es[0], |es| == 1);
      TextCons(PrintedOne(es[0], |es| == 1), Printed(es[1..]), FormatEntry(es[0]), Print(es[1..]), |es| == 1);
    }
  }

  lemma PrintedEntry(e: Entry, last: bool)
    requires 0 < e.q <= 1000 && IsLanguage(e.lang)
    ensures EntryOf(PrintedOne(e, last)) == Some(e)
  {
    PrintedNumber(e.q);
  }

  lemma {:induction false} PrintedEntries(es: seq<Entry>)
    requires Standard(es)
    ensures EntriesOf(Printed(es)) == Some(es)
  {
    if es != [] {
      PrintedEntries(es[1..]);
      PrintedEntry(es[0], |es| == 1);
      EntriesCons(PrintedOne(es[0], |es| == 1), Printed(es[1..]));
      assert es == [es[0]] + es[1..];
    }
  }

  lemma ImageIsReleased(released: seq<string>, lang: string)
    requires Releasable(released)
    ensures Image(released, lang).Some? ==> var c := Image(released, lang).value;
      c in released && IsLanguage(c) && Image(released, c) == Some(c)
  {
    FuzzyMatchIsReleased(released, Lower(ChineseCode(lang)));
  }

  lemma {:induction false} ImagesOfImages(released: seq<string>, es: seq<Entry>)
    requires Releasable(released)
    ensures Images(released, Images(released, es)) == Images(released, es)
    ensures forall e <- Images(released, es) :: IsLanguage(e.lang)
  {
    if es != [] {
      ImagesOfImages(released, es[1..]);
      ImageIsReleased(released, es[0].lang);
      var rest := Images(released, es[1..]);
      var code := Image(released, es[0].lang);
      if code.Some? {
        assert Images(released, es)[1..] == rest;
      } else {
        assert Images(released, es) == rest;
      }
    }
  }

  lemma SemicolonSeparatesNothing(t: string)
    requires t != "" && t[0] == ';'
    ensures MatchSeparator(t).None?
  {
    assert Spaces(t) == 0;
  }

  lemma BareQualityStart(u: string)
    ensures QualityStart(";q=" + u) == Some(("", "", u))
  {
    QualityStartAt("", "", u);
    assert ";q=" + u == "" + (";" + ("" + ("q=" + u)));
  }

  lemma NumberlessRest(u: string)
    requires MatchNumber(u).None?
    ensures MatchRest(";q=" + u).None?
  {
    BareQualityStart(u);
    SemicolonSeparatesNothing(";q=" + u);
  }

  /** An oversized q-value prints as a number that the pattern does not accept. */
  lemma OversizedFails(lang: string, q: nat, rest: string)
    requires IsLanguage(lang) && q > 1000 && Readable(q)
    ensures Match(FormatEntry(Entry(lang, q)) + rest).None?
  {
    var x :| IsOversized(q, x);
    ValueBounds(x);
    var u := ".0" + rest;
    var t := ";q=" + (x + u);
    assert FormatEntry(Entry(lang, q)) == lang + ";q=" + (x + ".0");
    assert FormatEntry(Entry(lang, q)) + rest == lang + t;
    LanguageLengthOf(lang, t);
    OversizedNumberFails(x, u);
    NumberlessRest(x + u);
  }

  /** In terms of the grammar: no element starts such a text, however the pattern is matched. */
  lemma OversizedStartsNoElement(lang: string, q: nat, rest: string, e: Element, after: string)
    requires IsLanguage(lang) && q > 1000 && Readable(q)
    ensures !StartsWithElement(FormatEntry(Entry(lang, q)) + rest, e, after)
  {
    OversizedFails(lang, q, rest);
    MatchIsExact(FormatEntry(Entry(lang, q)) + rest);
  }

  lemma OversizedNumberFails(x: string, u: string)
    requires 2 <= |x| <= 5 && x[0] == '1' && IsDigit(x[1]) && All(x[2..], Zero) && u != "" && u[0] == '.'
    ensures MatchNumber(x + u).None?
  {
    var t := x + u;
    assert t[2..] == x[2..] + u;
    MunchOf(x[2..], u, Zero, 3);
    assert NumberLength(t, true) == |x| && t[|x|..] == u;
    assert Spaces(u) == 0;
    assert t[1..][0] == x[1] && Spaces(t[1..]) == 0;
  }

  lemma UnmatchedStart(header: string)
    requires header != "" && Match(header).None?
    ensures Parse(header) == Entries([])
  {
    PassedTextShows(header[1..], "" + [header[0]]);
  }

  /** The header the middleware writes, or None when parsing raises. */
  function Clean(released: seq<string>, header: string): Option<string> {
    if header == "*" then Some(header)
    else
      var r := Parse(header);
      if r.ValueError? then None
      else
        (ParsedIsReadable(header); ImagesKeepOrder(released, r.entries);
        Some(Print(Images(released, r.entries))))
  }

  /**
   * Parsing the cleaned header gives back exactly the released images of the original
   * entries, with their q-values and in their order, if and only if no kept q-value is
   * above one; and exactly then is cleaning twice the same as cleaning once.
   */
  lemma {:induction false} CleanedHeaderRoundTrips(released: seq<string>, header: string)
    requires Releasable(released) && header != "*" && Parse(header).Entries?
    ensures var images := Images(released, Parse(header).entries); var cleaned := Clean(released, header).value;
      && (Parse(cleaned) == Entries(images) <==> forall e <- images :: e.q <= 1000)
      && (Clean(released, cleaned) == Some(cleaned) <==> forall e <- images :: e.q <= 1000)
  {
    var es := Parse(header).entries;
    var images := Images(released, es);
    ParsedIsReadable(header);
    ImagesKeepOrder(released, es);
    ImagesOfImages(released, es);
    var cleaned := Print(images);
    assert Clean(released, header) == Some(cleaned);
    if forall e <- images :: e.q <= 1000 {
      PrintedParses(images);
      if cleaned != "*" { assert Clean(released, cleaned) == Some(cleaned); }
    } else {
      OversizedParses(images);
      OversizedVanishes(released, images);
    }
  }

  lemma {:induction false} OversizedVanishes(released: seq<string>, es: seq<Entry>)
    requires es != [] && Positive(es) && Parse(Print(es)) == Entries([])
    ensures Clean(released, Print(es)) == Some("") != Some(Print(es))
  {
    assert |Print(es)| >= |FormatEntry(es[0])| >= 3;
    assert Clean(released, Print(es)) == Some(Print(Images(released, [])));
  }

  lemma {:induction false} CleanIs(released: seq<string>, header: string, es: seq<Entry>, images: seq<Entry>)
    requires header != "*" && Parse(header) == Entries(es) && Images(released, es) == images
    ensures Positive(images) && Clean(released, header) == Some(Print(images))
    ensures Descending(images) && forall e <- images :: Readable(e.q)
  {
    ParsedIsReadable(header);
    ImagesKeepOrder(released, es);
  }

  lemma ReleasedImage(code: string, q: nat)
    requires Releasable([code])
    ensures Images([code], [Entry(code, q)]) == [Entry(code, q)]
  {
    assert code in [code];
    assert [Entry(code, q)][1..] == [];
  }

  /** A q-value of two digits, such as `19`. */
  predicate TwoDigits(x: string) { |x| == 2 && x[0] == '1' && IsDigit(x[1]) }

  /**
   * A header whose q-value is a one and a digit, as in `en;q=19`, is cleaned to one with
   * a decimal, as in `en;q=19.0`, and cleaning that drops the language altogether.
   */
  lemma OversizedNumberIsLost(code: string, x: string)
    requires Releasable([code]) && TwoDigits(x)
    ensures var header := code + (";q=" + x);
      Clean([code], header) == Some(header + ".0") && Clean([code], header + ".0") == Some("")
  {
    var e := Entry(code, 1000 * Value(x));
    assert code in [code];
    OversizedNumberIsRead(code, x);
    ReleasedImage(code, e.q);
    NotStar(code, x);
    CleanIs([code], code + (";q=" + x), [e], [e]);
    OversizedIsPrinted(code, x);
    assert e in [e];
    OversizedParses([e]);
    OversizedVanishes([code], [e]);
  }

  lemma NotStar(code: string, x: string)
    ensures code + (";q=" + x) != "*"
  {
    assert |code + (";q=" + x)| >= 3;
  }

  lemma {:induction false} OversizedIsPrinted(code: string, x: string)
    requires TwoDigits(x)
    ensures Value(x) > 1 && Print([Entry(code, 1000 * Value(x))]) == code + (";q=" + x) + ".0"
  {
    ValueBounds(x);
    assert FormatQ(1000 * Value(x)) == x + ".0";
  }

  lemma {:induction false} OversizedNumberIsRead(code: string, x: string)
    requires IsLanguage(code) && TwoDigits(x)
    ensures Parse(code + (";q=" + x)) == Entries([Entry(code, 1000 * Value(x))])
  {
    ValueBounds(x);
    OversizedMatch(x);
    ReadsAs(code, x, 1000 * Value(x));
  }

  lemma ReadsAs(code: string, x: string, v: nat)
    requires IsLanguage(code) && MatchNumber(x) == Some((x, End, "")) && Thousandths(x) == Some(v) && v > 0
    ensures Parse(code + (";q=" + x)) == Entries([Entry(code, v)])
  {
    var e := Element(code, Some(Quality("", "", x)), End);
    MatchesAs(code, x);
    OneMatch(code + (";q=" + x), e, Entry(code, v));
  }

  lemma MatchesAs(code: string, x: string)
    requires IsLanguage(code) && MatchNumber(x) == Some((x, End, ""))
    ensures Match(code + (";q=" + x)) == Some((Element(code, Some(Quality("", "", x)), End), ""))
  {
    var t := ";q=" + x;
    LanguageLengthOf(code, t);
    LanguageNotEmpty(code);
    BareQualityStart(x);
    MatchAt(code + t, |code|, Some(Quality("", "", x)), End, "");
  }

  lemma OneMatch(header: string, e: Element, entry: Entry)
    requires Match(header) == Some((e, "")) && EntryOf(e) == Some(entry)
    ensures Parse(header) == Entries([entry])
  {
    var ps := [Piece("", e)];
    MatchedPieces(header, e, "");
    NothingLeft("");
    assert ps + [] == ps && [e] + Elements([]) == [e] && [e][1..] == [];
    assert [entry] + [] == [entry] && EntriesOf([e]) == Some([entry]);
    ParsedPieces(header, ps, [entry]);
    SortedIsFixed([entry]);
  }

  lemma OversizedMatch(x: string)
    requires TwoDigits(x)
    ensures MatchNumber(x) == Some((x, End, ""))
  {
    assert x[2..] == "" && x[..2] == x;
    LongMatch(x, 2, End, x[2..]);
  }

  lemma {:induction false} PrintedParses(es: seq<Entry>)
    requires Standard(es) && Descending(es)
    ensures Parse(Print(es)) == Entries(es)
  {
    SortedIsFixed(es);
    PrintedText(es);
    PrintedList(es);
    PrintedEntries(es);
    if es == [] { NothingLeft(""); } else { StandardHeaders(Printed(es)); }
  }

  lemma {:induction false} OversizedParses(es: seq<Entry>)
    requires Descending(es) && (forall e <- es :: Readable(e.q) && IsLanguage(e.lang))
    requires exists e <- es :: e.q > 1000
    ensures Positive(es) && es != [] && Parse(Print(es)) == Entries([])
  {
    assert es[0].q > 1000;
    OversizedFails(es[0].lang, es[0].q, if |es| == 1 then "" else ", " + Print(es[1..]));
    UnmatchedStart(Print(es));
  }

  // -------------------------------------------------------------- the middleware

  function JoinFragments(parts: seq<string>): string {
    if parts == [] then "" else parts[0] + if |parts| == 1 then "" else ", " + JoinFragments(parts[1..])
  }

  function Formatted(es: seq<Entry>): (r: seq<string>)
    requires Positive(es)
    ensures |r| == |es|
  {
    if es == [] then [] else [FormatEntry(es[0])] + Formatted(es[1..])
  }

  lemma {:induction false} PrintJoins(es: seq<Entry>)
    requires Positive(es)
    ensures JoinFragments(Formatted(es)) == Print(es)
  {
    if es != [] {
      assert Formatted(es)[1..] == Formatted(es[1..]);
      PrintJoins(es[1..]);
    }
  }

  /** The fragments written for a list of entries. */
  function Fragments(released: seq<string>, es: seq<Entry>): seq<string>
    requires Positive(es)
  {
    if es == [] then [] else Fragment(released, es[0]) + Fragments(released, es[1..])
  }

  function Fragment(released: seq<string>, e: Entry): seq<string>
    requires e.q > 0
  {
    var code := Image(released, e.lang);
    if code.Some? then [FormatEntry(Entry(code.value, e.q))] else []
  }

  lemma {:induction false} FragmentsOfImages(released: seq<string>, es: seq<Entry>)
    requires Positive(es)
    ensures Positive(Images(released, es)) && Fragments(released, es) == Formatted(Images(released, es))
  {
    if es != [] {
      var rest := Images(released, es[1..]);
      FragmentsOfImages(released, es[1..]);
      var code := Image(released, es[0].lang);
      if code.Some? {
        FormattedCons(Entry(code.value, es[0].q), rest);
      } else {
        assert Images(released, es) == rest && Fragments(released, es) == Fragments(released, es[1..]);
      }
    }
  }

  lemma {:induction false} FragmentsStep(released: seq<string>, es: seq<Entry>, i: nat, parts: seq<string>)
    requires i < |es| && Positive(es)
    ensures parts + Fragments(released, es[i..])
         == (parts + Fragment(released, es[i])) + Fragments(released, es[i + 1..])
  {
    assert es[i..][1..] == es[i + 1..];
  }

  lemma {:induction false} FragmentsPrint(released: seq<string>, es: seq<Entry>)
    requires Positive(es)
    ensures Positive(Images(released, es)) && JoinFragments(Fragments(released, es)) == Print(Images(released, es))
  {
    FragmentsOfImages(released, es);
    PrintJoins(Images(released, es));
  }

  lemma {:induction false} FormattedCons(e: Entry, rest: seq<Entry>)
    requires e.q > 0 && Positive(rest)
    ensures Positive([e] + rest) && Formatted([e] + rest) == [FormatEntry(e)] + Formatted(rest)
  {
    assert ([e] + rest)[1..] == rest;
  }

  // ------------------------------------------------------ which languages are kept

  predicate IsLowerCase(s: string, t: string) {
    && |t| == |s|
    && forall i | 0 <= i < |s| :: t[i] == if 'A' <= s[i] <= 'Z' then (s[i] as int + 32) as char else s[i]
  }

  /** The code that is looked up for a language: in lower case, and for a new Chinese code the old one. */
  ghost predicate LooksFor(lang: string, code: string) {
    exists low: string ::
      && IsLowerCase(lang, low)
      && IsLowerCase(if low in CHINESE_LANGUAGE_CODES then CHINESE_LANGUAGE_CODES[low] else lang, code)
  }

  /** Position `i` holds the first of the codes with a prefix. */
  ghost predicate FirstPrefixed(codes: seq<string>, prefix: string, i: int) {
    && 0 <= i < |codes| && Generic(codes[i]) == prefix
    && forall j | 0 <= j < i :: Generic(codes[j]) != prefix
  }

  /**
   * What a code is kept as, if `options` and the default language are released: itself if
   * it is one of them, else the first of the options, and then the default, that has its
   * prefix; and nothing only if none has.
   */
  ghost predicate IsKeptAs(options: seq<string>, languageCode: string, code: string, r: Option<string>) {
    var all := options + [languageCode];
    if code in options || code == languageCode then r == Some(code)
    else
      match r
      case Some(c) => exists i :: FirstPrefixed(all, Generic(code), i) && all[i] == c
      case None => forall c <- all :: Generic(c) != Generic(code)
  }

  ghost predicate LanguageIsKeptAs(options: seq<string>, languageCode: string, lang: string, r: Option<string>) {
    exists code :: LooksFor(lang, code) && IsKeptAs(options, languageCode, code, r)
  }

  /** The entries that are kept, under their codes and with their q-values. */
  function Keep(es: seq<Entry>, codes: seq<Option<string>>): seq<Entry>
    requires |codes| == |es|
  {
    if es == [] then []
    else (if codes[0].Some? then [Entry(codes[0].value, es[0].q)] else []) + Keep(es[1..], codes[1..])
  }

  /** `codes` says, entry by entry, what the languages are kept as. */
  ghost predicate AreKeptAs(
      options: seq<string>, languageCode: string, es: seq<Entry>, codes: seq<Option<string>>)
  {
    && |codes| == |es|
    && forall i | 0 <= i < |es| :: LanguageIsKeptAs(options, languageCode, es[i].lang, codes[i])
  }

  lemma LowerIsLowerCase(s: string)
    ensures IsLowerCase(s, Lower(s))
    ensures forall t | IsLowerCase(s, t) :: t == Lower(s)
  {
    forall t | IsLowerCase(s, t) ensures t == Lower(s) {
      assert forall i | 0 <= i < |s| :: t[i] == Lower(s)[i];
    }
  }

  lemma LooksForOne(lang: string)
    ensures LooksFor(lang, Lower(ChineseCode(lang)))
  {
    LowerIsLowerCase(lang);
    LowerIsLowerCase(ChineseCode(lang));
  }

  /** A language range, in lower case and with the old Chinese codes, does not start with a dash. */
  lemma LookedUpHasPrefix(lang: string)
    requires IsLanguage(lang)
    ensures Generic(Lower(ChineseCode(lang))) != ""
  {
    var code := ChineseCode(lang);
    if code == lang {
      LanguageNotEmpty(lang);
      if lang != "*" { assert Munch(lang, Alpha, 8) > 0; }
    } else {
      assert code in {"zh-CN", "zh-TW", "zh-HK"};
    }
    assert code != "" && code[0] != '-';
    assert Lower(code)[0] != '-';
  }

  lemma {:induction false} ReleasedFirst(options: seq<string>, languageCode: string, code: string)
    requires Generic(code) != ""
    ensures var r := FuzzyMatch(ReleasedLangs(options, languageCode), code);
      r != Some("") && IsKeptAs(options, languageCode, code, r)
  {
    var released, all := ReleasedLangs(options, languageCode), options + [languageCode];
    var r := FuzzyMatch(released, code);
    FuzzyMatchIsReleased(released, code);
    assert forall i | 0 <= i < |released| :: released[i] == all[i];
    assert all[|options|] == languageCode;
    if !(code in options || code == languageCode) {
      if r.Some? {
        var i :| 0 <= i < |released| && released[i] == r.value
          && forall j | 0 <= j < i :: Generic(released[j]) != Generic(code);
        assert FirstPrefixed(all, Generic(code), i);
      } else {
        forall c | c in all ensures Generic(c) != Generic(code) { assert c in released; }
      }
    }
  }

  lemma EntryIsKept(options: seq<string>, languageCode: string, lang: string)
    requires IsLanguage(lang)
    ensures LanguageIsKeptAs(options, languageCode, lang, Image(ReleasedLangs(options, languageCode), lang))
  {
    var code := Lower(ChineseCode(lang));
    LooksForOne(lang);
    LookedUpHasPrefix(lang);
    ReleasedFirst(options, languageCode, code);
  }

  lemma {:induction false} ImagesAreKept(options: seq<string>, languageCode: string, es: seq<Entry>)
    returns (codes: seq<Option<string>>)
    requires forall e <- es :: IsLanguage(e.lang)
    ensures AreKeptAs(options, languageCode, es, codes)
    ensures Images(ReleasedLangs(options, languageCode), es) == Keep(es, codes)
  {
    if es == [] {
      codes := [];
    } else {
      var more := ImagesAreKept(options, languageCode, es[1..]);
      var first := Image(ReleasedLangs(options, languageCode), es[0].lang);
      EntryIsKept(options, languageCode, es[0].lang);
      codes := [first] + more;
      assert es == [es[0]] + es[1..] && codes[1..] == more;
      KeptCons(options, languageCode, es[0], es[1..], first, more);
    }
  }

  lemma KeptCons(
      options: seq<string>, languageCode: string, e: Entry, es: seq<Entry>, c: Option<string>,
      codes: seq<Option<string>>)
    requires LanguageIsKeptAs(options, languageCode, e.lang, c) && AreKeptAs(options, languageCode, es, codes)
    ensures AreKeptAs(options, languageCode, [e] + es, [c] + codes)
  {
    forall i | 0 <= i < |es| + 1
      ensures LanguageIsKeptAs(options, languageCode, ([e] + es)[i].lang, ([c] + codes)[i])
    {
      if i > 0 { assert ([e] + es)[i] == es[i - 1] && ([c] + codes)[i] == codes[i - 1]; }
    }
  }

  /**
   * The header that is written for parsed entries: each entry, in order and with its
   * q-value, under the released code it is kept as, if there is one.
   */
  ghost predicate IsCleaned(options: seq<string>, languageCode: string, es: seq<Entry>, header: string) {
    exists codes ::
      AreKeptAs(options, languageCode, es, codes) && Positive(Keep(es, codes)) && header == Print(Keep(es, codes))
  }

  lemma CleanedKeepsReleased(options: seq<string>, languageCode: string, header: string)
    requires header != "*" && Parse(header).Entries?
    ensures var r := Clean(ReleasedLangs(options, languageCode), header);
      r.Some? && IsCleaned(options, languageCode, Parse(header).entries, r.value)
  {
    var es := Parse(header).entries;
    ParsedAreLanguages(header);
    ParsedIsReadable(header);
    ImagesKeepOrder(ReleasedLangs(options, languageCode), es);
    var codes := ImagesAreKept(options, languageCode, es);
  }

  /** One entry of the header: appends its fragment if it has a released match. */
  method AddFragment(released: seq<string>, e: Entry, parts: seq<string>) returns (r: seq<string>)
    requires e.q > 0
    ensures r == parts + Fragment(released, e)
  {
    var lang := ChineseCode(e.lang);
    var fuzzy := FuzzyMatch(released, Lower(lang));
    r := parts;
    if fuzzy.Some? && fuzzy.value != "" { r := parts + [fuzzy.value + ";q=" + FormatQ(e.q)]; }
  }

  /**
   * Keeps the languages of the options and the default language. Raises, as None, when
   * parsing does; an absent header, or a bare star, is left alone.
   */
  method CleanAcceptHeaders(options: seq<string>, languageCode: string, accept: Option<string>)
    returns (r: Option<Option<string>>)
    ensures accept.None? || accept == Some("*") ==> r == Some(accept)
    ensures accept.Some? ==>
      var cleaned := Clean(ReleasedLangs(options, languageCode), accept.value);
      r == if cleaned.None? then None else Some(cleaned)
    ensures accept.Some? && accept.value != "*" ==>
      match Parse(accept.value)
      case ValueError => r == None
      case Entries(es) => r.Some? && r.value.Some? && IsCleaned(options, languageCode, es, r.value.value)
  {
    if accept.None? || accept.value == "*" { return Some(accept); }
    var parsed := ParseAcceptLangHeader(accept.value);
    if parsed.ValueError? { return None; }
    var newAccept := CleanEntries(ReleasedLangs(options, languageCode), accept.value, parsed.entries);
    CleanedKeepsReleased(options, languageCode, accept.value);
    return Some(Some(newAccept));
  }

  method CleanEntries(released: seq<string>, header: string, es: seq<Entry>) returns (newAccept: string)
    requires Parse(header) == Entries(es)
    ensures Positive(Images(released, es)) && newAccept == Print(Images(released, es))
  {
    ParsedIsReadable(header);
    var fragments: seq<string> := [];
    ghost var all := Fragments(released, es);
    assert es[0..] == es && [] + all == all;
    for i := 0 to |es|
      invariant fragments + Fragments(released, es[i..]) == all
    {
      FragmentsStep(released, es, i, fragments);
      fragments := AddFragment(released, es[i], fragments);
    }
    assert fragments + [] == fragments;
    FragmentsPrint(released, es);
    return JoinFragments(fragments);
  }
}
