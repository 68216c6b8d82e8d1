/**
 * The Accept-Language header (section 14.4 of RFC 2616): the pattern, the splitting of a
 * header along it, and the sorted list of languages.
 */
module AcceptLanguage {
  import opened Common
  import opened Decimal

  predicate IsAlpha(c: char) { 'a' <= c <= 'z' || 'A' <= c <= 'Z' }

  datatype Class = Alpha | Alnum | Digit | Zero | Space

  predicate Is(c: char, k: Class) {
    match k
    case Alpha => IsAlpha(c)
    case Alnum => IsAlpha(c) || IsDigit(c)
    case Digit => IsDigit(c)
    case Zero => c == '0'
    case Space => IsSpace(c)
  }

  predicate All(s: string, k: Class) { forall i | 0 <= i < |s| :: Is(s[i], k) }

  /** How many of the first `max` characters are of the class, without a gap. */
  function Munch(s: string, k: Class, max: nat): (n: nat)
    ensures n <= |s| && n <= max
  {
    if max == 0 || s == "" || !Is(s[0], k) then 0 else 1 + Munch(s[1..], k, max - 1)
  }

  lemma {:induction false} MunchSound(s: string, k: Class, max: nat)
    ensures var n := Munch(s, k, max); All(s[..n], k) && (n < |s| && n < max ==> !Is(s[n], k))
  {
    if max > 0 && s != "" && Is(s[0], k) {
      MunchSound(s[1..], k, max - 1);
      var n := Munch(s[1..], k, max - 1);
      assert s[..n + 1] == [s[0]] + s[1..][..n];
    }
  }

  lemma {:induction false} MunchOf(x: string, t: string, k: Class, max: nat)
    requires All(x, k) && |x| <= max && (t == "" || |x| == max || !Is(t[0], k))
    ensures Munch(x + t, k, max) == |x|
  {
    if x == "" {
      assert x + t == t;
    } else {
      assert (x + t)[1..] == x[1..] + t;
      MunchOf(x[1..], t, k, max - 1);
    }
  }

  function Spaces(s: string): nat
    ensures Spaces(s) <= |s|
  {
    Munch(s, Space, |s|)
  }

  lemma SpacesOf(w: string, t: string)
    requires All(w, Space) && (t == "" || !IsSpace(t[0]))
    ensures Spaces(w + t) == |w| && (w + t)[..|w|] == w && (w + t)[|w|..] == t
  {
    MunchOf(w, t, Space, |w + t|);
  }

  /** The part of a code in front of its first dash: `split('-')[0]`, or `partition('-')[0]`. */
  function Generic(code: string): string {
    if code == "" || code[0] == '-' then "" else [code[0]] + Generic(code[1..])
  }

  lemma {:induction false} GenericEndsAtDash(code: string)
    ensures Generic(code) <= code && '-' !in Generic(code)
    ensures Generic(code) == code || code[|Generic(code)|] == '-'
  {
    if code != "" && code[0] != '-' { GenericEndsAtDash(code[1..]); }
  }

  // ------------------------------------------------------------------- elements

  /** `;q=` with its number, and the white space around the semicolon. */
  datatype Quality = Quality(before: string, after: string, number: string)
  datatype Separator = Comma(left: string, right: string) | End
  datatype Element = Element(lang: string, quality: Option<Quality>, sep: Separator)

  function QualityText(q: Option<Quality>): string {
    if q.None? then "" else q.value.before + ";" + q.value.after + "q=" + q.value.number
  }

  function SeparatorText(s: Separator): string {
    if s.End? then "" else s.left + "," + s.right
  }

  function ElementText(e: Element): string { e.lang + (QualityText(e.quality) + SeparatorText(e.sep)) }

  function Text(es: seq<Element>): string {
    if es == [] then "" else ElementText(es[0]) + Text(es[1..])
  }

  predicate Subtags(t: string)
    decreases |t|
  {
    t == "" || (t[0] == '-' && var n := Munch(t[1..], Alnum, 8); n > 0 && Subtags(t[n + 1..]))
  }

  /** A language range: one to eight letters, then dashed groups of one to eight letters or digits; or a star. */
  predicate IsLanguage(t: string) {
    t == "*" || (var n := Munch(t, Alpha, 8); n > 0 && Subtags(t[n..]))
  }

  /** The q-values of the standard: at most three decimals, and none but zeros after a one. */
  predicate IsQValue(t: string) {
    && t != "" && (t[0] == '0' || t[0] == '1')
    && (|t| > 1 ==> t[1] == '.' && |t| <= 5 && All(t[2..], if t[0] == '0' then Digit else Zero))
  }

  /** What the pattern accepts: any character but a newline may stand for the point after a one. */
  predicate IsNumber(t: string) {
    IsQValue(t) || (2 <= |t| <= 5 && t[0] == '1' && t[1] != '\n' && All(t[2..], Zero))
  }

  predicate IsTail(q: Option<Quality>, sep: Separator, strict: bool) {
    && (q.Some? ==>
          && All(q.value.before, Space) && All(q.value.after, Space)
          && IsNumber(q.value.number) && (strict ==> IsQValue(q.value.number)))
    && (sep.Comma? ==> All(sep.left, Space) && All(sep.right, Space))
  }

  predicate IsElement(e: Element, strict: bool) {
    IsLanguage(e.lang) && IsTail(e.quality, e.sep, strict)
  }

  /** A list of elements of which only the last may do without a comma. */
  predicate IsList(es: seq<Element>, strict: bool) {
    forall i | 0 <= i < |es| :: IsElement(es[i], strict) && (es[i].sep.End? ==> i == |es| - 1)
  }

  // -------------------------------------------------------------------- matching

  lemma {:induction false} SubtagsCons(a: string, b: string)
    requires 1 <= |a| <= 8 && All(a, Alnum) && Subtags(b)
    ensures Subtags("-" + (a + b))
  {
    var t := "-" + (a + b);
    assert t[1..] == a + b && t[|a| + 1..] == b;
    MunchOf(a, b, Alnum, 8);
  }

  lemma {:induction false} LanguageCons(a: string, b: string)
    requires 1 <= |a| <= 8 && All(a, Alpha) && Subtags(b)
    ensures IsLanguage(a + b)
  {
    assert (a + b)[|a|..] == b;
    MunchOf(a, b, Alpha, 8);
  }

  function SubtagsLength(t: string): (n: nat)
    ensures n <= |t|
    decreases |t|
  {
    if t == "" || t[0] != '-' then 0
    else
      var k := Munch(t[1..], Alnum, 8);
      if k == 0 then 0 else k + 1 + SubtagsLength(t[1..][k..])
  }

  lemma FirstSubtag(t: string) returns (a: string, b: string)
    requires SubtagsLength(t) > 0
    ensures 1 <= |a| <= 8 && All(a, Alnum) && t == "-" + (a + b)
    ensures SubtagsLength(t) == 1 + |a| + SubtagsLength(b)
  {
    var u := t[1..];
    var k := Munch(u, Alnum, 8);
    MunchSound(u, Alnum, 8);
    a, b := u[..k], u[k..];
    assert u == a + b && t == "-" + u;
  }

  lemma FrontOfParts(a: string, b: string, m: nat)
    requires m <= |b|
    ensures ("-" + (a + b))[..1 + |a| + m] == "-" + (a + b[..m])
  {
  }

  lemma {:induction false} SubtagsLengthSound(t: string)
    ensures Subtags(t[..SubtagsLength(t)])
    decreases |t|
  {
    if SubtagsLength(t) > 0 {
      var a, b := FirstSubtag(t);
      var m := SubtagsLength(b);
      SubtagsLengthSound(b);
      SubtagsCons(a, b[..m]);
      FrontOfParts(a, b, m);
    }
  }

  /** The language range at the start of the text; nothing shorter can precede what must follow it. */
  function LanguageLength(t: string): (n: nat)
    ensures n <= |t|
  {
    if t != "" && t[0] == '*' then 1
    else
      var n := Munch(t, Alpha, 8);
      if n == 0 then 0 else n + SubtagsLength(t[n..])
  }

  /** A comma with the white space around it, or the end, also just before a final newline. */
  function MatchSeparator(s: string): (r: Option<(Separator, string)>)
    ensures r.Some? ==> |r.value.1| <= |s|
  {
    var n := Spaces(s);
    if n < |s| && s[n] == ',' then
      var t := s[n + 1..];
      var m := Spaces(t);
      Some((Comma(s[..n], t[..m]), t[m..]))
    else if s == "" || s == "\n" then Some((End, s))
    else None
  }

  /** The longest number of a zero, or of a one with any one character as its point. */
  function NumberLength(t: string, pointed: bool): (n: nat)
    ensures n <= |t|
  {
    if t == "" || (t[0] != '0' && t[0] != '1') then 0
    else if !pointed then 1
    else if |t| == 1 || t[1] == '\n' || (t[0] == '0' && t[1] != '.') then 0
    else 2 + Munch(t[2..], if t[0] == '0' then Digit else Zero, 3)
  }

  /** A number, with its point if a separator follows that way, else without; then the separator. */
  function MatchNumber(t: string): (r: Option<(string, Separator, string)>)
    ensures r.Some? ==> |r.value.2| <= |t|
  {
    var n, m := NumberLength(t, true), NumberLength(t, false);
    var long, short := MatchSeparator(t[n..]), MatchSeparator(t[m..]);
    if n > 0 && long.Some? then Some((t[..n], long.value.0, long.value.1))
    else if m > 0 && short.Some? then Some((t[..m], short.value.0, short.value.1))
    else None
  }

  /** White space, `;`, white space and `q=`. */
  function QualityStart(t: string): (r: Option<(string, string, string)>)
    ensures r.Some? ==> |r.value.2| <= |t|
  {
    var n := Spaces(t);
    if n < |t| && t[n] == ';' then
      var u := t[n + 1..];
      var m := Spaces(u);
      if m + 1 < |u| && u[m] == 'q' && u[m + 1] == '=' then Some((t[..n], u[..m], u[m + 2..])) else None
    else None
  }

  /** What follows the language: the optional quality and the separator. */
  function MatchRest(t: string): (r: Option<(Option<Quality>, Separator, string)>)
    ensures r.Some? ==> |r.value.2| <= |t|
  {
    var q := QualityStart(t);
    var number := if q.Some? then MatchNumber(q.value.2) else None;
    var sep := MatchSeparator(t);
    if number.Some? then
      Some((Some(Quality(q.value.0, q.value.1, number.value.0)), number.value.1, number.value.2))
    else if sep.Some? then Some((None, sep.value.0, sep.value.1))
    else None
  }

  /** One match of the pattern at the start of the text, and what is left after it. */
  function Match(s: string): (r: Option<(Element, string)>)
    ensures r.Some? ==> |r.value.1| < |s|
  {
    var n := LanguageLength(s);
    var r := MatchRest(s[n..]);
    if n == 0 || r.None? then None else Some((Element(s[..n], r.value.0, r.value.1), r.value.2))
  }

  // ------------------------------------------------------ a match is an element

  lemma FirstTag(t: string) returns (a: string, b: string)
    requires LanguageLength(t) > 0 && t[0] != '*'
    ensures 1 <= |a| <= 8 && All(a, Alpha) && t == a + b && LanguageLength(t) == |a| + SubtagsLength(b)
  {
    var n := Munch(t, Alpha, 8);
    MunchSound(t, Alpha, 8);
    a, b := t[..n], t[n..];
  }

  lemma LanguageLengthSound(t: string)
    ensures LanguageLength(t) > 0 ==> IsLanguage(t[..LanguageLength(t)])
  {
    if LanguageLength(t) > 0 && t[0] != '*' {
      var a, b := FirstTag(t);
      var m := SubtagsLength(b);
      SubtagsLengthSound(b);
      LanguageCons(a, b[..m]);
      assert t[..|a| + m] == a + b[..m];
    }
  }

  predicate SpacedComma(sep: Separator) {
    sep.Comma? ==> All(sep.left, Space) && All(sep.right, Space)
  }

  /** After the last element nothing is left, or a newline. */
  predicate AtEnd(sep: Separator, rest: string) {
    sep.End? ==> rest == "" || rest == "\n"
  }

  lemma CommaText(s: string, n: nat, m: nat)
    requires n < |s| && s[n] == ',' && m <= |s| - n - 1
    ensures s[..n] + "," + s[n + 1..][..m] + s[n + 1..][m..] == s
  {
    var t := s[n + 1..];
    assert t == t[..m] + t[m..];
    assert s == s[..n] + "," + t;
  }

  lemma MatchSeparatorSound(s: string)
    ensures var r := MatchSeparator(s); r.Some? ==>
      SeparatorText(r.value.0) + r.value.1 == s && SpacedComma(r.value.0) && AtEnd(r.value.0, r.value.1)
  {
    var n := Spaces(s);
    if n < |s| && s[n] == ',' {
      var t := s[n + 1..];
      MunchSound(s, Space, |s|);
      MunchSound(t, Space, |t|);
      CommaText(s, n, Spaces(t));
    } else if s == "" || s == "\n" {
      assert "" + s == s;
    }
  }

  lemma NumberLengthSound(t: string, pointed: bool)
    ensures var n := NumberLength(t, pointed); n > 0 ==> IsNumber(t[..n])
  {
    var n := NumberLength(t, pointed);
    if n > 1 {
      var k := if t[0] == '0' then Digit else Zero;
      MunchSound(t[2..], k, 3);
      assert t[..n][2..] == t[2..][..n - 2];
    }
  }

  lemma NumberAt(t: string, n: nat)
    requires n <= |t| && MatchSeparator(t[n..]).Some?
    ensures var (sep, rest) := MatchSeparator(t[n..]).value;
      t[..n] + (SeparatorText(sep) + rest) == t && SpacedComma(sep) && AtEnd(sep, rest)
  {
    MatchSeparatorSound(t[n..]);
    assert t == t[..n] + t[n..];
  }

  lemma MatchNumberSound(t: string)
    ensures var r := MatchNumber(t); r.Some? ==>
      && IsNumber(r.value.0) && r.value.0 + (SeparatorText(r.value.1) + r.value.2) == t
      && SpacedComma(r.value.1) && AtEnd(r.value.1, r.value.2)
  {
    var n, m := NumberLength(t, true), NumberLength(t, false);
    if n > 0 && MatchSeparator(t[n..]).Some? {
      NumberLengthSound(t, true);
      NumberAt(t, n);
    } else if m > 0 && MatchSeparator(t[m..]).Some? {
      NumberLengthSound(t, false);
      NumberAt(t, m);
    }
  }

  lemma CutQuality(t: string, n: nat, u: string, m: nat)
    requires n < |t| && t[n] == ';' && u == t[n + 1..]
    requires m + 1 < |u| && u[m] == 'q' && u[m + 1] == '='
    ensures t[..n] + ";" + u[..m] + "q=" + u[m + 2..] == t
  {
    assert u == u[..m] + "q=" + u[m + 2..];
    assert t == t[..n] + ";" + u;
  }

  lemma QualityStartParts(t: string, n: nat, u: string, m: nat)
    requires n == Spaces(t) < |t| && t[n] == ';' && u == t[n + 1..] && m == Spaces(u)
    requires m + 1 < |u| && u[m] == 'q' && u[m + 1] == '='
    ensures All(t[..n], Space) && All(u[..m], Space) && t[..n] + ";" + u[..m] + "q=" + u[m + 2..] == t
  {
    MunchSound(t, Space, |t|);
    MunchSound(u, Space, |u|);
    CutQuality(t, n, u, m);
  }

  lemma QualityStartSound(t: string)
    ensures var r := QualityStart(t); r.Some? ==>
      && All(r.value.0, Space) && All(r.value.1, Space)
      && r.value.0 + ";" + r.value.1 + "q=" + r.value.2 == t
  {
    if QualityStart(t).Some? {
      var n := Spaces(t);
      var u := t[n + 1..];
      QualityStartParts(t, n, u, Spaces(u));
    }
  }

  lemma Regroup(a: string, b: string, c: string)
    ensures a + (b + c) == (a + b) + c
  {
  }

  lemma MatchRestSound(t: string)
    ensures var r := MatchRest(t); r.Some? ==>
      && IsTail(r.value.0, r.value.1, false)
      && QualityText(r.value.0) + (SeparatorText(r.value.1) + r.value.2) == t
      && AtEnd(r.value.1, r.value.2)
  {
    var q := QualityStart(t);
    QualityStartSound(t);
    MatchSeparatorSound(t);
    if q.Some? {
      MatchNumberSound(q.value.2);
      var number := MatchNumber(q.value.2);
      if number.Some? {
        Regroup(q.value.0 + ";" + q.value.1 + "q=", number.value.0, SeparatorText(number.value.1) + number.value.2);
      }
    }
    var sep := MatchSeparator(t);
    if sep.Some? { assert "" + (SeparatorText(sep.value.0) + sep.value.1) == t; }
  }

  lemma AppendRest(lang: string, q: Option<Quality>, sep: Separator, rest: string)
    ensures ElementText(Element(lang, q, sep)) + rest == lang + (QualityText(q) + (SeparatorText(sep) + rest))
  {
    Regroup(QualityText(q), SeparatorText(sep), rest);
    Regroup(lang, QualityText(q) + SeparatorText(sep), rest);
  }

  lemma ElementThenRest(s: string, n: nat, q: Option<Quality>, sep: Separator, rest: string)
    requires n <= |s| && QualityText(q) + (SeparatorText(sep) + rest) == s[n..]
    ensures ElementText(Element(s[..n], q, sep)) + rest == s
  {
    AppendRest(s[..n], q, sep, rest);
    assert s == s[..n] + s[n..];
  }

  lemma MatchText(s: string)
    ensures var r := Match(s); r.Some? ==>
      && IsTail(r.value.0.quality, r.value.0.sep, false)
      && ElementText(r.value.0) + r.value.1 == s && AtEnd(r.value.0.sep, r.value.1)
  {
    var n := LanguageLength(s);
    var r := MatchRest(s[n..]);
    if n > 0 && r.Some? {
      MatchRestSound(s[n..]);
      ElementThenRest(s, n, r.value.0, r.value.1, r.value.2);
    }
  }

  /** A match consumes exactly the text of an element. */
  lemma MatchSound(s: string)
    ensures var r := Match(s); r.Some? ==>
      && IsElement(r.value.0, false) && ElementText(r.value.0) + r.value.1 == s && AtEnd(r.value.0.sep, r.value.1)
  {
    LanguageLengthSound(s);
    MatchText(s);
  }

  // --------------------------------------------------------------------- parsing

  /** `before` is the text passed over in front of the match. */
  datatype Piece = Piece(before: string, element: Element)

  /** `split`: the matches from left to right, and the text left after the last one. */
  function Pieces(s: string, before: string): (r: (seq<Piece>, string))
    decreases |s|
  {
    var m := Match(s);
    if m.Some? then
      var (ps, tail) := Pieces(m.value.1, "");
      ([Piece(before, m.value.0)] + ps, tail)
    else if s == "" then ([], before)
    else Pieces(s[1..], before + [s[0]])
  }

  /** `float(number)` in thousandths; None is its ValueError. */
  function Thousandths(t: string): Option<nat> {
    if !IsNumber(t) then None
    else if t[0] == '0' then Some(if |t| <= 2 then 0 else Fraction(t[2..]))
    else if |t| == 1 || t[1] == '.' then Some(1000)
    else if IsDigit(t[1]) then Some(1000 * Value(t))
    else if IsSpace(t[1]) then (if |t| == 2 then Some(1000) else None)
    else if t[1] == 'e' || t[1] == 'E' then (if |t| > 2 then Some(1000) else None)
    else None
  }

  /** Up to three decimals, in thousandths. */
  function Fraction(digits: string): nat
    requires 1 <= |digits| <= 3 && All(digits, Digit)
  {
    Value(digits) * (if |digits| == 1 then 100 else if |digits| == 2 then 10 else 1)
  }

  datatype Entry = Entry(lang: string, q: nat)

  /** The entry of an element: an absent or zero q counts as one. */
  function EntryOf(e: Element): Option<Entry> {
    var v := if e.quality.None? then Some(1000) else Thousandths(e.quality.value.number);
    if v.None? then None else Some(Entry(e.lang, if v.value == 0 then 1000 else v.value))
  }

  datatype Parsed = Entries(entries: seq<Entry>) | ValueError

  function Collect(ps: seq<Piece>): Parsed {
    if ps == [] then Entries([])
    else if ps[0].before != "" then Entries([])
    else
      var e := EntryOf(ps[0].element);
      if e.None? then ValueError
      else
        var rest := Collect(ps[1..]);
        if rest.ValueError? || (rest.entries == [] && |ps| > 1) then rest
        else Entries([e.value] + rest.entries)
  }

  function Insert(e: Entry, s: seq<Entry>): seq<Entry> {
    if s == [] || s[0].q <= e.q then [e] + s else [s[0]] + Insert(e, s[1..])
  }

  /** Stable sort by descending q. */
  function Sorted(s: seq<Entry>): seq<Entry> {
    if s == [] then [] else Insert(s[0], Sorted(s[1..]))
  }

  function Parse(header: string): Parsed {
    var (ps, tail) := Pieces(header, "");
    if tail != "" then Entries([])
    else
      var r := Collect(ps);
      if r.ValueError? then r else Entries(Sorted(r.entries))
  }

  /** `result` followed by what the remaining pieces give. */
  function Onward(result: seq<Entry>, rest: seq<Piece>): Parsed {
    var r := Collect(rest);
    if r.ValueError? || (r.entries == [] && rest != []) then r else Entries(result + r.entries)
  }

  lemma OnwardStep(result: seq<Entry>, e: Entry, rest: seq<Piece>)
    requires rest != [] && rest[0].before == "" && EntryOf(rest[0].element) == Some(e)
    ensures Onward(result, rest) == Onward(result + [e], rest[1..])
  {
    var r := Collect(rest[1..]);
    if r.Entries? { assert result + ([e] + r.entries) == (result + [e]) + r.entries; }
  }

  method ParseAcceptLangHeader(header: string) returns (r: Parsed)
    ensures r == Parse(header)
  {
    var (pieces, tail) := Pieces(header, "");
    if tail != "" { return Entries([]); }
    var result: seq<Entry> := [];
    assert pieces[0..] == pieces;
    for i := 0 to |pieces|
      invariant Onward(result, pieces[i..]) == Collect(pieces)
    {
      if pieces[i].before != "" { return Entries([]); }
      var e := EntryOf(pieces[i].element);
      if e.None? { return ValueError; }
      OnwardStep(result, e.value, pieces[i..]);
      assert pieces[i..][1..] == pieces[i + 1..];
      result := result + [e.value];
    }
    assert result + [] == result;
    return Entries(Sorted(result));
  }
}
