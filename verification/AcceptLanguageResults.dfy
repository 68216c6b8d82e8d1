/** What the parser makes of a header: all or nothing, stable order, and which headers it accepts. */
module AcceptLanguageResults {
  import opened Common
  import opened Decimal
  import opened AcceptLanguage

  // --------------------------------------------------------------------- sorting

  ghost predicate Descending(s: seq<Entry>) {
    forall i, j | 0 <= i < j < |s| :: s[i].q >= s[j].q
  }

  /** The entries of one q-value, in order. */
  function With(s: seq<Entry>, q: nat): seq<Entry> {
    if s == [] then [] else (if s[0].q == q then [s[0]] else []) + With(s[1..], q)
  }

  lemma {:induction false} InsertMembers(e: Entry, s: seq<Entry>)
    ensures multiset(Insert(e, s)) == multiset{e} + multiset(s)
  {
    if s != [] && s[0].q > e.q {
      InsertMembers(e, s[1..]);
      assert s == [s[0]] + s[1..];
    }
  }

  lemma DescendingCons(e: Entry, more: seq<Entry>)
    requires Descending(more) && forall m <- more :: m.q <= e.q
    ensures Descending([e] + more)
  {
  }

  lemma HeadIsHighest(s: seq<Entry>, m: Entry)
    requires Descending(s) && m in s
    ensures m.q <= s[0].q
  {
  }

  lemma {:induction false} InsertDescends(e: Entry, s: seq<Entry>)
    requires Descending(s)
    ensures Descending(Insert(e, s))
  {
    if s != [] && s[0].q > e.q {
      var t := Insert(e, s[1..]);
      InsertDescends(e, s[1..]);
      InsertMembers(e, s[1..]);
      forall m | m in t ensures m.q <= s[0].q {
        assert m in multiset(t);
        if m != e { HeadIsHighest(s, m); }
      }
      DescendingCons(s[0], t);
    } else {
      forall m | m in s ensures m.q <= e.q { HeadIsHighest(s, m); }
      DescendingCons(e, s);
    }
  }

  lemma {:induction false} InsertKeepsOrder(e: Entry, s: seq<Entry>, q: nat)
    ensures With(Insert(e, s), q) == (if e.q == q then [e] else []) + With(s, q)
  {
    if s != [] && s[0].q > e.q {
      var t := Insert(e, s[1..]);
      InsertKeepsOrder(e, s[1..], q);
      assert ([s[0]] + t)[1..] == t;
      assert With([s[0]] + t, q) == (if s[0].q == q then [s[0]] else []) + With(t, q);
    } else {
      assert ([e] + s)[1..] == s;
    }
  }

  /** The sort gives a permutation, descending by q, with equal q-values in their old order. */
  lemma {:induction false} SortIsStable(s: seq<Entry>)
    ensures Descending(Sorted(s)) && multiset(Sorted(s)) == multiset(s)
    ensures forall q :: With(Sorted(s), q) == With(s, q)
  {
    if s != [] {
      SortIsStable(s[1..]);
      InsertMembers(s[0], Sorted(s[1..]));
      InsertDescends(s[0], Sorted(s[1..]));
      forall q ensures With(Sorted(s), q) == With(s, q) { InsertKeepsOrder(s[0], Sorted(s[1..]), q); }
      assert s == [s[0]] + s[1..];
    }
  }

  lemma {:induction false} WithHead(s: seq<Entry>, q: nat)
    ensures With(s, q) != [] <==> exists e <- s :: e.q == q
    ensures forall e <- With(s, q) :: e in s && e.q == q
  {
    if s != [] { WithHead(s[1..], q); }
  }

  /** Only one list is descending and keeps the order within every q-value. */
  lemma {:induction false} StableOrderIsUnique(a: seq<Entry>, b: seq<Entry>)
    requires Descending(a) && Descending(b) && forall q :: With(a, q) == With(b, q)
    ensures a == b
  {
    if a == [] {
      if b != [] { WithHead(a, b[0].q); WithHead(b, b[0].q); }
    } else {
      WithHead(a, a[0].q);
      WithHead(b, a[0].q);
      assert b != [];
      WithHead(a, b[0].q);
      WithHead(b, b[0].q);
      assert a[0].q == b[0].q;
      assert With(a, a[0].q)[0] == a[0] && With(b, b[0].q)[0] == b[0];
      forall q ensures With(a[1..], q) == With(b[1..], q) {
        assert With(a, q) == With(b, q);
        assert With(a, q) == (if a[0].q == q then [a[0]] else []) + With(a[1..], q);
        assert With(b, q) == (if b[0].q == q then [b[0]] else []) + With(b[1..], q);
        if a[0].q == q {
          assert With(a, q)[1..] == With(a[1..], q) && With(b, q)[1..] == With(b[1..], q);
        } else {
          assert With(a, q) == With(a[1..], q) && With(b, q) == With(b[1..], q);
        }
      }
      StableOrderIsUnique(a[1..], b[1..]);
    }
  }

  lemma {:induction false} SortedIsFixed(s: seq<Entry>)
    requires Descending(s)
    ensures Sorted(s) == s
  {
    SortIsStable(s);
    StableOrderIsUnique(Sorted(s), s);
  }

  // -------------------------------------------------------------- all or nothing

  /** The entries of a list of elements; None when some number cannot be read. */
  function EntriesOf(es: seq<Element>): Option<seq<Entry>> {
    if es == [] then Some([])
    else
      var first, rest := EntryOf(es[0]), EntriesOf(es[1..]);
      if first.None? || rest.None? then None else Some([first.value] + rest.value)
  }

  function Elements(ps: seq<Piece>): (es: seq<Element>)
    ensures |es| == |ps| && forall i | 0 <= i < |ps| :: es[i] == ps[i].element
  {
    seq(|ps|, i requires 0 <= i < |ps| => ps[i].element)
  }

  lemma {:induction false} PassedTextShows(s: string, before: string)
    requires before != ""
    ensures var (ps, tail) := Pieces(s, before); if ps == [] then tail != "" else ps[0].before != ""
    decreases |s|
  {
    if Match(s).None? && s != "" { PassedTextShows(s[1..], before + [s[0]]); }
  }

  predicate Gapless(ps: seq<Piece>) { forall i | 0 <= i < |ps| :: ps[i].before == "" }

  lemma {:induction false} MatchedPieces(s: string, e: Element, rest: string)
    requires Match(s) == Some((e, rest))
    ensures var (ps, tail) := Pieces(rest, "");
      Pieces(s, "") == ([Piece("", e)] + ps, tail) && Elements([Piece("", e)] + ps) == [e] + Elements(ps)
  {
  }

  lemma {:induction false} GaplessPiecesTile(s: string)
    requires Gapless(Pieces(s, "").0) && Pieces(s, "").1 == ""
    ensures var es := Elements(Pieces(s, "").0); IsList(es, false) && Text(es) == s
    decreases |s|
  {
    if Match(s).Some? {
      var (e, t) := Match(s).value;
      MatchedPieces(s, e, t);
      MatchSound(s);
      GaplessTail(Piece("", e), Pieces(t, "").0);
      if e.sep.End? { NothingLeft(t); }
      GaplessPiecesTile(t);
      ListCons(e, Elements(Pieces(t, "").0));
    } else if s != "" {
      PassedTextShows(s[1..], "" + [s[0]]);
      assert false;
    }
  }

  lemma GaplessTail(p: Piece, rest: seq<Piece>)
    requires Gapless([p] + rest)
    ensures Gapless(rest)
  {
    assert forall i | 0 <= i < |rest| :: rest[i] == ([p] + rest)[i + 1];
  }

  lemma {:induction false} ListCons(e: Element, es: seq<Element>)
    requires IsElement(e, false) && IsList(es, false) && (e.sep.End? ==> es == [])
    ensures IsList([e] + es, false) && Text([e] + es) == ElementText(e) + Text(es)
  {
    assert ([e] + es)[1..] == es;
  }

  lemma NoMatch(s: string)
    requires s == "" || s == "\n"
    ensures Match(s).None?
  {
    assert LanguageLength(s) == 0;
  }

  lemma {:induction false} NothingLeft(rest: string)
    requires rest == "" || rest == "\n"
    ensures Pieces(rest, "") == ([], rest)
  {
    NoMatch(rest);
    NoMatch("");
    if rest == "\n" {
      assert rest[1..] == "" && "" + [rest[0]] == rest;
      assert Pieces("", rest) == ([], rest);
    }
  }

  lemma {:induction false} CollectReads(ps: seq<Piece>)
    ensures Gapless(ps) ==>
      EntriesOf(Elements(ps)) == match Collect(ps) case Entries(r) => Some(r) case ValueError => None
    ensures Gapless(ps) && Collect(ps).Entries? ==> |Collect(ps).entries| == |ps|
    ensures !Gapless(ps) ==> Collect(ps) == Entries([]) || Collect(ps) == ValueError
  {
    if ps != [] {
      CollectReads(ps[1..]);
      assert Elements(ps)[1..] == Elements(ps[1..]);
      assert Gapless(ps) <==> ps[0].before == "" && Gapless(ps[1..]) by {
        assert forall i | 0 <= i < |ps[1..]| :: ps[1..][i] == ps[i + 1];
        assert forall i | 0 < i < |ps| :: ps[i] == ps[1..][i - 1];
      }
    }
  }

  /** The entries have the languages of the elements, and for standard numbers what those mean. */
  ghost predicate ReadFrom(es: seq<Element>, r: seq<Entry>) {
    && |r| == |es|
    && forall i | 0 <= i < |es| :: r[i].lang == es[i].lang && (IsElement(es[i], true) ==> r[i] == Meant(es[i]))
  }

  lemma {:induction false} EntriesAreRead(es: seq<Element>)
    ensures EntriesOf(es).Some? ==> ReadFrom(es, EntriesOf(es).value)
  {
    if es != [] && EntriesOf(es).Some? {
      EntriesAreRead(es[1..]);
      if IsElement(es[0], true) { ElementMeans(es[0]); }
      assert forall i | 0 < i < |es| :: es[i] == es[1..][i - 1];
    }
  }

  /**
   * A list of languages comes only from a header that elements tile from end to end; it
   * is then the stable sort of their entries. Any other header gives nothing, or raises.
   */
  lemma AllOrNothing(header: string) returns (es: seq<Element>)
    ensures Parse(header).Entries? && Parse(header).entries != [] ==>
      && IsList(es, false) && es != [] && Text(es) == header
      && EntriesOf(es).Some? && Parse(header).entries == Sorted(EntriesOf(es).value)
      && ReadFrom(es, EntriesOf(es).value)
  {
    var (ps, tail) := Pieces(header, "");
    CollectReads(ps);
    es := Elements(ps);
    if tail == "" && Gapless(ps) { GaplessPiecesTile(header); }
    EntriesAreRead(es);
  }

  /** Every parsed entry is a language range, so a later check of its form never skips one. */
  lemma {:induction false} ParsedAreLanguages(header: string)
    requires Parse(header).Entries?
    ensures forall e <- Parse(header).entries :: IsLanguage(e.lang)
  {
    if Parse(header).entries != [] {
      var es := AllOrNothing(header);
      var read := EntriesOf(es).value;
      SortIsStable(read);
      forall e | e in Parse(header).entries ensures IsLanguage(e.lang) {
        assert e in multiset(read);
        var i :| 0 <= i < |read| && read[i] == e;
        assert IsElement(es[i], false);
      }
    }
  }

  // ------------------------------------------------- headers of the standard form

  predicate StartsElement(rest: string) { rest != "" && (IsAlpha(rest[0]) || rest[0] == '*') }

  predicate Stops(t: string) { t == "" || (!Is(t[0], Alnum) && t[0] != '-') }

  lemma {:induction false} SubtagsLengthStep(t: string, a: string, b: string)
    requires 1 <= |a| && t == "-" + (a + b) && Munch(a + b, Alnum, 8) == |a|
    ensures SubtagsLength(t) == 1 + |a| + SubtagsLength(b)
  {
    assert t[1..] == a + b && t[1..][|a|..] == b;
  }

  lemma SubtagsShape(x: string) returns (a: string, y: string)
    requires Subtags(x) && x != ""
    ensures 1 <= |a| <= 8 && All(a, Alnum) && x == "-" + (a + y) && Subtags(y)
    ensures y != "" ==> y[0] == '-'
  {
    var u := x[1..];
    var n := Munch(u, Alnum, 8);
    MunchSound(u, Alnum, 8);
    a, y := u[..n], u[n..];
    assert x[n + 1..] == y && x == "-" + u;
  }

  lemma {:induction false} SubtagsLengthOf(x: string, t: string)
    requires Subtags(x) && Stops(t)
    ensures SubtagsLength(x + t) == |x|
    decreases |x|
  {
    if x == "" {
      assert x + t == t;
    } else {
      var a, y := SubtagsShape(x);
      assert y != "" ==> (y + t)[0] == y[0];
      assert y == "" ==> y + t == t;
      MunchOf(a, y + t, Alnum, 8);
      assert x + t == "-" + (a + (y + t));
      SubtagsLengthStep(x + t, a, y + t);
      SubtagsLengthOf(y, t);
    }
  }

  lemma {:induction false} LanguageLengthStep(t: string, a: string, b: string)
    requires 1 <= |a| && t == a + b && Munch(t, Alpha, 8) == |a|
    ensures LanguageLength(t) == |a| + SubtagsLength(b)
  {
    assert t[|a|..] == b;
    assert t[0] != '*';
  }

  lemma LanguageShape(x: string) returns (a: string, y: string)
    requires IsLanguage(x) && x != "*"
    ensures 1 <= |a| <= 8 && All(a, Alpha) && x == a + y && Subtags(y)
    ensures y != "" ==> y[0] == '-'
  {
    var n := Munch(x, Alpha, 8);
    MunchSound(x, Alpha, 8);
    a, y := x[..n], x[n..];
  }

  lemma LanguageLengthOf(x: string, t: string)
    requires IsLanguage(x) && Stops(t)
    ensures LanguageLength(x + t) == |x| && (x + t)[..|x|] == x && (x + t)[|x|..] == t
  {
    if x != "*" {
      var a, y := LanguageShape(x);
      assert x + t == a + (y + t);
      assert y != "" ==> (y + t)[0] == y[0];
      assert y == "" ==> y + t == t;
      MunchOf(a, y + t, Alpha, 8);
      LanguageLengthStep(x + t, a, y + t);
      SubtagsLengthOf(y, t);
    }
  }

  /** What may follow a separator in a list. */
  predicate Follows(sep: Separator, rest: string) {
    rest == "" || (sep.Comma? && StartsElement(rest))
  }

  lemma MatchSeparatorOf(sep: Separator, rest: string)
    requires SpacedComma(sep) && Follows(sep, rest)
    ensures MatchSeparator(SeparatorText(sep) + rest) == Some((sep, rest))
  {
    if sep.Comma? {
      var t := sep.right + rest;
      assert SeparatorText(sep) + rest == sep.left + ("," + t);
      SpacesOf(sep.left, "," + t);
      assert (sep.left + ("," + t))[|sep.left| + 1..] == t;
      SpacesOf(sep.right, rest);
    } else {
      assert "" + rest == "";
      assert Spaces("") == 0;
    }
  }

  lemma QualityStartAt(w1: string, w2: string, u: string)
    requires All(w1, Space) && All(w2, Space)
    ensures QualityStart(w1 + (";" + (w2 + ("q=" + u)))) == Some((w1, w2, u))
  {
    var v := w2 + ("q=" + u);
    SpacesOf(w1, ";" + v);
    assert (w1 + (";" + v))[|w1| + 1..] == v;
    SpacesOf(w2, "q=" + u);
    assert v[|w2| + 2..] == u;
  }

  lemma QualityTextShape(q: Quality, u: string)
    ensures QualityText(Some(q)) + u == q.before + (";" + (q.after + ("q=" + (q.number + u))))
  {
    var a, b := q.before + ";", q.after + "q=";
    assert QualityText(Some(q)) == a + b + q.number;
    assert q.before + (";" + (q.after + ("q=" + (q.number + u)))) == a + (b + (q.number + u));
    assert a + b + q.number + u == a + (b + (q.number + u));
  }

  lemma QualityStartOf(q: Quality, u: string)
    requires All(q.before, Space) && All(q.after, Space)
    ensures QualityStart(QualityText(Some(q)) + u) == Some((q.before, q.after, q.number + u))
  {
    QualityTextShape(q, u);
    QualityStartAt(q.before, q.after, q.number + u);
  }

  lemma NoQualityStart(sep: Separator, rest: string)
    requires SpacedComma(sep) && Follows(sep, rest)
    ensures QualityStart(SeparatorText(sep) + rest) == None
  {
    if sep.Comma? {
      var t := "," + (sep.right + rest);
      assert SeparatorText(sep) + rest == sep.left + t;
      SpacesOf(sep.left, t);
    } else {
      assert Spaces("") == 0;
    }
  }

  lemma SeparatorStart(sep: Separator, rest: string)
    requires SpacedComma(sep) && Follows(sep, rest)
    ensures var u := SeparatorText(sep) + rest; u != "" ==> IsSpace(u[0]) || u[0] == ','
  {
    if sep.Comma? && sep.left != "" { assert SeparatorText(sep)[0] == sep.left[0]; }
  }

  /** A one directly followed by the header's final comma: the comma is taken for a point. */
  predicate Swallowed(number: string, sep: Separator, rest: string) {
    number == "1" && sep.Comma? && sep.left == "" && (sep.right == "" || sep.right == "\n") && rest == ""
  }

  lemma LongNumberOf(number: string, u: string)
    requires IsQValue(number) && |number| > 1 && (u == "" || IsSpace(u[0]) || u[0] == ',')
    ensures NumberLength(number + u, true) == |number|
  {
    var k := if number[0] == '0' then Digit else Zero;
    assert (number + u)[2..] == number[2..] + u;
    MunchOf(number[2..], u, k, 3);
  }

  lemma LongMatch(t: string, n: nat, sep: Separator, rest: string)
    requires 0 < n == NumberLength(t, true) && MatchSeparator(t[n..]) == Some((sep, rest))
    ensures MatchNumber(t) == Some((t[..n], sep, rest))
  {
  }

  lemma ShortMatch(t: string, n: nat, sep: Separator, rest: string)
    requires n == NumberLength(t, true) && (n == 0 || MatchSeparator(t[n..]).None?)
    requires t != "" && (t[0] == '0' || t[0] == '1') && MatchSeparator(t[1..]) == Some((sep, rest))
    ensures MatchNumber(t) == Some((t[..1], sep, rest))
  {
  }

  lemma PointedOne(c: char, v: string)
    requires c != '\n' && (v == "" || v[0] != '0')
    ensures var t := "1" + ([c] + v); NumberLength(t, true) == 2 && t[..2] == "1" + [c] && t[2..] == v
  {
    var t := "1" + ([c] + v);
    assert t[2..] == v;
    assert Munch(v, Zero, 3) == 0;
  }

  lemma OneThenSpace(sep: Separator, rest: string)
    requires sep.Comma? && SpacedComma(sep) && Follows(sep, rest) && sep.left != "" && sep.left[0] != '\n'
    ensures MatchNumber("1" + (SeparatorText(sep) + rest))
         == Some(("1" + [sep.left[0]], Comma(sep.left[1..], sep.right), rest))
  {
    var sep' := Comma(sep.left[1..], sep.right);
    var v := SeparatorText(sep') + rest;
    assert SeparatorText(sep) + rest == [sep.left[0]] + v;
    SeparatorStart(sep', rest);
    PointedOne(sep.left[0], v);
    MatchSeparatorOf(sep', rest);
    LongMatch("1" + ([sep.left[0]] + v), 2, sep', rest);
  }

  /** No separator starts in white space that an element follows, or that ends the header. */
  lemma NoSeparator(w: string, rest: string)
    requires All(w, Space) && (rest == "" || StartsElement(rest))
    ensures MatchSeparator(w + rest)
         == if rest == "" && (w == "" || w == "\n") then Some((End, w)) else None
  {
    SpacesOf(w, rest);
    assert rest == "" ==> w + rest == w;
  }

  lemma OneThenComma(sep: Separator, rest: string)
    requires sep.Comma? && SpacedComma(sep) && Follows(sep, rest) && sep.left == ""
    ensures MatchNumber("1" + (SeparatorText(sep) + rest))
         == if Swallowed("1", sep, rest) then Some(("1,", End, sep.right)) else Some(("1", sep, rest))
  {
    var v := sep.right + rest;
    var t := "1" + ([','] + v);
    assert SeparatorText(sep) + rest == [','] + v;
    assert "1" + (SeparatorText(sep) + rest) == t && "1" + [','] == "1,";
    assert v != "" ==> v[0] != '0' by {
      if sep.right != "" { assert v[0] == sep.right[0]; }
    }
    PointedOne(',', v);
    NoSeparator(sep.right, rest);
    if Swallowed("1", sep, rest) {
      LongMatch(t, 2, End, sep.right);
    } else {
      MatchSeparatorOf(sep, rest);
      assert t[1..] == SeparatorText(sep) + rest;
      ShortMatch(t, 2, sep, rest);
    }
  }

  lemma MatchNumberOf(number: string, sep: Separator, rest: string)
    requires IsQValue(number) && SpacedComma(sep) && Follows(sep, rest)
    ensures var r := MatchNumber(number + (SeparatorText(sep) + rest));
      && (Swallowed(number, sep, rest) ==> r == Some(("1,", End, sep.right)))
      && (!Swallowed(number, sep, rest) ==>
            r.Some? && r.value.2 == rest && IsNumber(r.value.0) && Thousandths(r.value.0) == Thousandths(number))
  {
    var u := SeparatorText(sep) + rest;
    var t := number + u;
    SeparatorStart(sep, rest);
    MatchSeparatorOf(sep, rest);
    assert t[|number|..] == u && t[..|number|] == number;
    if |number| > 1 {
      LongNumberOf(number, u);
      LongMatch(t, |number|, sep, rest);
    } else if number == "1" && sep.Comma? && sep.left == "" {
      OneThenComma(sep, rest);
    } else if number == "1" && sep.Comma? && sep.left[0] != '\n' {
      OneThenSpace(sep, rest);
    } else {
      assert u != "" ==> t[1] == u[0];
      if sep.Comma? && sep.left != "" { assert u[0] == sep.left[0]; }
      ShortMatch(t, 0, sep, rest);
    }
  }

  lemma TailStops(e: Element, rest: string)
    requires IsElement(e, true) && Follows(e.sep, rest)
    ensures Stops(QualityText(e.quality) + (SeparatorText(e.sep) + rest))
  {
    var tail := SeparatorText(e.sep) + rest;
    var t := QualityText(e.quality) + tail;
    SeparatorStart(e.sep, rest);
    if e.quality.None? { assert t == tail; }
    else if e.quality.value.before == "" { assert t[0] == ';'; }
    else { assert t[0] == e.quality.value.before[0]; }
  }

  lemma MatchRestOf(q: Option<Quality>, sep: Separator, rest: string)
    requires IsTail(q, sep, true) && Follows(sep, rest)
    ensures var r := MatchRest(QualityText(q) + (SeparatorText(sep) + rest)); r.Some?
    ensures var r := MatchRest(QualityText(q) + (SeparatorText(sep) + rest));
      if q.None? then r == Some((None, sep, rest))
      else if Swallowed(q.value.number, sep, rest)
      then r == Some((Some(q.value.(number := "1,")), End, sep.right))
      else (r.value.0.Some? && r.value.2 == rest && IsNumber(r.value.0.value.number)
            && Thousandths(r.value.0.value.number) == Thousandths(q.value.number))
  {
    var tail := SeparatorText(sep) + rest;
    if q.Some? {
      QualityStartOf(q.value, tail);
      MatchNumberOf(q.value.number, sep, rest);
    } else {
      assert "" + tail == tail;
      NoQualityStart(sep, rest);
      MatchSeparatorOf(sep, rest);
    }
  }

  predicate SwallowedIn(e: Element, rest: string) {
    e.quality.Some? && Swallowed(e.quality.value.number, e.sep, rest)
  }

  lemma MatchAt(s: string, n: nat, q: Option<Quality>, sep: Separator, rest: string)
    requires 0 < n == LanguageLength(s) && MatchRest(s[n..]) == Some((q, sep, rest))
    ensures Match(s) == Some((Element(s[..n], q, sep), rest))
  {
  }

  /** An element matched with another number, or with a comma in its number. */
  lemma MatchedEntry(e: Element, rest: string, q: Option<Quality>, sep: Separator)
    requires e.quality.None? <==> q.None?
    requires q.Some? && SwallowedIn(e, rest) ==> q.value.number == "1,"
    requires q.Some? && !SwallowedIn(e, rest) ==> Thousandths(q.value.number) == Thousandths(e.quality.value.number)
    ensures EntryOf(Element(e.lang, q, sep)) == if SwallowedIn(e, rest) then None else EntryOf(e)
  {
    assert Thousandths("1,") == None;
  }

  lemma LanguageNotEmpty(t: string)
    requires IsLanguage(t)
    ensures t != ""
  {
  }

  /** A strict element, in a list, is matched with its language, its entry and the right remainder. */
  lemma MatchElementOf(e: Element, rest: string)
    requires IsElement(e, true) && Follows(e.sep, rest)
    ensures var m := Match(ElementText(e) + rest);
      && m.Some? && EntryOf(m.value.0) == (if SwallowedIn(e, rest) then None else EntryOf(e))
      && m.value.1 == (if SwallowedIn(e, rest) then e.sep.right else rest)
  {
    var t := QualityText(e.quality) + (SeparatorText(e.sep) + rest);
    AppendRest(e.lang, e.quality, e.sep, rest);
    LanguageNotEmpty(e.lang);
    TailStops(e, rest);
    LanguageLengthOf(e.lang, t);
    MatchRestOf(e.quality, e.sep, rest);
    var r := MatchRest(t).value;
    MatchAt(e.lang + t, |e.lang|, r.0, r.1, r.2);
    MatchedEntry(e, rest, r.0, r.1);
  }

  // ------------------------------------------------------ a match is missed nowhere

  lemma SeparatorFound(sep: Separator, rest: string)
    requires SpacedComma(sep) && AtEnd(sep, rest)
    ensures MatchSeparator(SeparatorText(sep) + rest).Some?
    ensures QualityStart(SeparatorText(sep) + rest).None?
  {
    if sep.Comma? {
      var t := "," + (sep.right + rest);
      assert SeparatorText(sep) + rest == sep.left + t;
      SpacesOf(sep.left, t);
    } else {
      assert "" + rest == rest;
      NothingButNewline(rest);
    }
  }

  lemma NothingButNewline(rest: string)
    requires rest == "" || rest == "\n"
    ensures MatchSeparator(rest) == Some((End, rest)) && QualityStart(rest).None?
  {
    SpacesOf(rest, "");
    assert rest + "" == rest;
  }

  /** What a separator and what follows it may start with. */
  lemma SeparatorFirst(sep: Separator, rest: string)
    requires SpacedComma(sep) && AtEnd(sep, rest)
    ensures var u := SeparatorText(sep) + rest; u == "" || IsSpace(u[0]) || u[0] == ','
  {
    var u := SeparatorText(sep) + rest;
    if sep.Comma? {
      assert u == sep.left + ("," + (sep.right + rest));
      if sep.left != "" { assert u[0] == sep.left[0]; }
    } else {
      assert u == rest;
    }
  }

  /** Every number of the pattern is found whole, or in a shorter form, in front of a separator. */
  lemma NumberFound(number: string, sep: Separator, rest: string)
    requires IsNumber(number) && SpacedComma(sep) && AtEnd(sep, rest)
    ensures MatchNumber(number + (SeparatorText(sep) + rest)).Some?
  {
    var u := SeparatorText(sep) + rest;
    SeparatorFound(sep, rest);
    SeparatorFirst(sep, rest);
    assert (number + u)[|number|..] == u;
    if |number| > 1 {
      PointedNumberLength(number, u);
      var r := MatchSeparator(u).value;
      LongMatch(number + u, |number|, r.0, r.1);
    }
  }

  lemma PointedNumberLength(number: string, u: string)
    requires IsNumber(number) && |number| > 1 && (u == "" || IsSpace(u[0]) || u[0] == ',')
    ensures NumberLength(number + u, true) == |number|
  {
    var k := if number[0] == '0' then Digit else Zero;
    assert (number + u)[2..] == number[2..] + u;
    MunchOf(number[2..], u, k, 3);
  }

  lemma RestFound(q: Option<Quality>, sep: Separator, rest: string)
    requires IsTail(q, sep, false) && AtEnd(sep, rest)
    ensures MatchRest(QualityText(q) + (SeparatorText(sep) + rest)).Some?
  {
    var u := SeparatorText(sep) + rest;
    SeparatorFound(sep, rest);
    if q.Some? {
      QualityStartOf(q.value, u);
      NumberFound(q.value.number, sep, rest);
    } else {
      assert "" + u == u;
    }
  }

  lemma TailStopsAt(q: Option<Quality>, sep: Separator, rest: string)
    requires IsTail(q, sep, false) && AtEnd(sep, rest)
    ensures Stops(QualityText(q) + (SeparatorText(sep) + rest))
  {
    var u := SeparatorText(sep) + rest;
    SeparatorFirst(sep, rest);
    if q.None? {
      assert QualityText(q) + u == u;
    } else {
      QualityTextShape(q.value, u);
      if q.value.before != "" { assert (QualityText(q) + u)[0] == q.value.before[0]; }
    }
  }

  lemma ElementFound(e: Element, rest: string)
    requires IsElement(e, false) && AtEnd(e.sep, rest)
    ensures Match(ElementText(e) + rest).Some?
  {
    var t := QualityText(e.quality) + (SeparatorText(e.sep) + rest);
    AppendRest(e.lang, e.quality, e.sep, rest);
    LanguageNotEmpty(e.lang);
    TailStopsAt(e.quality, e.sep, rest);
    LanguageLengthOf(e.lang, t);
    RestFound(e.quality, e.sep, rest);
    var r := MatchRest(t).value;
    MatchAt(e.lang + t, |e.lang|, r.0, r.1, r.2);
  }

  /** The text starts with an element of the pattern's grammar, and ends with it if it has no comma. */
  ghost predicate StartsWithElement(s: string, e: Element, rest: string) {
    IsElement(e, false) && AtEnd(e.sep, rest) && ElementText(e) + rest == s
  }

  /** The pattern matches at the start of exactly those texts that start with an element of its grammar. */
  lemma MatchIsExact(s: string)
    ensures Match(s).Some? <==> exists e, rest :: StartsWithElement(s, e, rest)
  {
    if Match(s).Some? {
      MatchSound(s);
      var (e, rest) := Match(s).value;
      assert StartsWithElement(s, e, rest);
    }
    if e, rest :| StartsWithElement(s, e, rest) {
      ElementFound(e, rest);
    }
  }

  /** The last element ends in `q=1,` or in `q=1,` and a newline. */
  predicate EndsInBareOne(es: seq<Element>) {
    es != [] && SwallowedIn(es[|es| - 1], "")
  }

  lemma {:induction false} TextStarts(es: seq<Element>)
    requires es != [] && IsElement(es[0], true)
    ensures StartsElement(Text(es))
  {
    var x := es[0].lang;
    if x != "*" { MunchSound(x, Alpha, 8); assert x[..Munch(x, Alpha, 8)][0] == x[0]; }
    assert Text(es)[0] == x[0];
  }

  /** What the pieces of a list's text come to. */
  ghost predicate PiecesFit(es: seq<Element>, ps: seq<Piece>, tail: string) {
    && Gapless(ps)
    && (EndsInBareOne(es) ==> tail == es[|es| - 1].sep.right && EntriesOf(Elements(ps)) == None)
    && (!EndsInBareOne(es) ==> tail == "" && EntriesOf(Elements(ps)) == EntriesOf(es))
  }

  lemma ElementsCons(p: Piece, ps: seq<Piece>)
    ensures Elements([p] + ps) == [p.element] + Elements(ps) && Elements([p] + ps)[1..] == Elements(ps)
    ensures p.before == "" && Gapless(ps) ==> Gapless([p] + ps)
  {
  }

  lemma {:induction false} EntriesCons(m: Element, ms: seq<Element>)
    ensures EntriesOf([m] + ms)
         == if EntryOf(m).None? || EntriesOf(ms).None? then None else Some([EntryOf(m).value] + EntriesOf(ms).value)
  {
    assert ([m] + ms)[1..] == ms;
  }

  lemma {:induction false} EndsAlike(e: Element, more: seq<Element>)
    requires !SwallowedIn(e, Text(more))
    ensures EndsInBareOne([e] + more) <==> EndsInBareOne(more)
    ensures EndsInBareOne(more) ==> ([e] + more)[|more|] == more[|more| - 1]
  {
    if more == [] { assert Text(more) == "" && [e] + more == [e]; }
  }

  lemma {:induction false} FitCons(e: Element, more: seq<Element>, m: Element, ps: seq<Piece>, tail: string)
    requires EntryOf(m) == EntryOf(e) != None && !SwallowedIn(e, Text(more)) && PiecesFit(more, ps, tail)
    ensures PiecesFit([e] + more, [Piece("", m)] + ps, tail)
  {
    ElementsCons(Piece("", m), ps);
    EntriesCons(m, Elements(ps));
    EntriesCons(e, more);
    EndsAlike(e, more);
  }

  lemma FitSwallowed(e: Element, m: Element)
    requires EntryOf(m) == None && SwallowedIn(e, "")
    ensures PiecesFit([e], [Piece("", m)], e.sep.right)
  {
    assert Elements([Piece("", m)]) == [m];
  }

  lemma {:induction false} ListTail(e: Element, more: seq<Element>)
    requires IsList([e] + more, true)
    ensures IsElement(e, true) && IsList(more, true) && Follows(e.sep, Text(more))
    ensures Text([e] + more) == ElementText(e) + Text(more)
    ensures SwallowedIn(e, Text(more)) ==> more == []
  {
    var es := [e] + more;
    assert es[0] == e && es[1..] == more;
    forall i | 0 <= i < |more| ensures IsElement(more[i], true) && (more[i].sep.End? ==> i == |more| - 1) {
      assert more[i] == es[i + 1];
    }
    if more != [] { TextStarts(more); }
  }

  lemma {:induction false} PiecesStep(e: Element, more: seq<Element>, s: string)
    requires IsList([e] + more, true) && s == Text([e] + more)
    requires PiecesFit(more, Pieces(Text(more), "").0, Pieces(Text(more), "").1)
    ensures PiecesFit([e] + more, Pieces(s, "").0, Pieces(s, "").1)
  {
    ListTail(e, more);
    MatchElementOf(e, Text(more));
    var m := Match(s).value;
    MatchedPieces(s, m.0, m.1);
    if SwallowedIn(e, Text(more)) {
      NothingLeft(e.sep.right);
      assert [e] + more == [e];
      FitSwallowed(e, m.0);
    } else {
      StrictEntry(e);
      FitCons(e, more, m.0, Pieces(Text(more), "").0, Pieces(Text(more), "").1);
    }
  }

  lemma {:induction false} PiecesOfList(es: seq<Element>)
    requires IsList(es, true)
    ensures PiecesFit(es, Pieces(Text(es), "").0, Pieces(Text(es), "").1)
  {
    if es == [] {
      NothingLeft("");
    } else {
      var e, more := es[0], es[1..];
      assert es == [e] + more;
      ListTail(e, more);
      PiecesOfList(more);
      PiecesStep(e, more, Text(es));
    }
  }

  lemma {:induction false} ParsedPieces(header: string, ps: seq<Piece>, r: seq<Entry>)
    requires Pieces(header, "") == (ps, "") && Gapless(ps) && EntriesOf(Elements(ps)) == Some(r)
    ensures Parse(header) == Entries(Sorted(r))
  {
    CollectReads(ps);
  }

  // ------------------------------------------------------ what the q-values mean

  /** The digits of a standard number: the one in front of the point, and the decimals. */
  function Digits(number: string): string
    requires number != ""
  {
    [number[0]] + if |number| > 2 then number[2..] else ""
  }

  /** A standard number in thousandths, read off its digits. */
  function InThousandths(number: string): nat
    requires IsQValue(number)
  {
    var d := Digits(number);
    QValueDigits(number);
    Value(d) * (if |d| == 1 then 1000 else if |d| == 2 then 100 else if |d| == 3 then 10 else 1)
  }

  lemma QValueDigits(number: string)
    requires IsQValue(number)
    ensures AllDigits(Digits(number)) && 1 <= |Digits(number)| <= 4
  {
    forall i | 0 <= i < |Digits(number)| ensures IsDigit(Digits(number)[i]) {
      if i > 0 { assert Digits(number)[i] == number[2..][i - 1]; }
    }
  }

  predicate AllZeros(digits: string) { forall i | 0 <= i < |digits| :: digits[i] == '0' }

  /** What an element asks for: one without a quality or with one of zero, else the quality. */
  function Meant(e: Element): Entry
    requires IsElement(e, true)
  {
    var q := if e.quality.None? || AllZeros(Digits(e.quality.value.number)) then 1000
             else InThousandths(e.quality.value.number);
    Entry(e.lang, q)
  }

  lemma {:induction false} LeadingDigit(c: char, d: string)
    requires IsDigit(c) && AllDigits(d) && |d| <= 3
    ensures Value([c] + d)
         == Value(d) + DigitValue(c) * (if |d| == 0 then 1 else if |d| == 1 then 10 else if |d| == 2 then 100 else 1000)
  {
    assert [c][..0] == [];
    if d == "" {
      assert [c] + d == [c];
    } else {
      var x := [c] + d;
      assert x[..|x| - 1] == [c] + d[..|d| - 1];
      LeadingDigit(c, d[..|d| - 1]);
    }
  }

  lemma {:induction false} ZeroDigits(d: string)
    requires AllDigits(d)
    ensures Value(d) == 0 <==> AllZeros(d)
  {
    if d != "" {
      var front, last := d[..|d| - 1], d[|d| - 1];
      assert d == front + [last];
      ZeroDigits(front);
      assert forall i | 0 <= i < |front| :: d[i] == front[i];
    }
  }

  lemma NumberMeans(number: string)
    requires IsQValue(number)
    ensures Thousandths(number) == Some(InThousandths(number))
    ensures InThousandths(number) == 0 <==> AllZeros(Digits(number))
  {
    var rest := if |number| > 2 then number[2..] else "";
    QValueDigits(number);
    forall i | 0 <= i < |rest| ensures IsDigit(rest[i]) { assert rest[i] == number[2..][i]; }
    LeadingDigit(number[0], rest);
    ZeroDigits(Digits(number));
    if number[0] == '1' {
      assert AllZeros(rest);
      ZeroDigits(rest);
    }
  }

  lemma ElementMeans(e: Element)
    requires IsElement(e, true)
    ensures EntryOf(e) == Some(Meant(e))
  {
    if e.quality.Some? { NumberMeans(e.quality.value.number); }
  }

  /** What the elements of a header ask for, in its order. */
  function MeantBy(es: seq<Element>): (r: seq<Entry>)
    requires forall i | 0 <= i < |es| :: IsElement(es[i], true)
    ensures |r| == |es| && forall i | 0 <= i < |es| :: r[i] == Meant(es[i])
  {
    seq(|es|, i requires 0 <= i < |es| => Meant(es[i]))
  }

  lemma {:induction false} EntriesMean(es: seq<Element>)
    requires forall i | 0 <= i < |es| :: IsElement(es[i], true)
    ensures EntriesOf(es) == Some(MeantBy(es))
  {
    if es == [] {
    } else {
      var more := es[1..];
      assert forall i | 0 <= i < |more| :: more[i] == es[i + 1];
      EntriesMean(more);
      ElementMeans(es[0]);
      assert MeantBy(es) == [Meant(es[0])] + MeantBy(more);
    }
  }

  /**
   * A header of the standard form, each number within the standard's grammar, is parsed
   * into the stable sort of what its elements ask for exactly when it does not end in a
   * bare `q=1,`. If it does, the parser raises, or drops the whole header when a newline
   * follows.
   */
  lemma {:induction false} StandardHeaders(es: seq<Element>)
    requires IsList(es, true) && es != []
    ensures Parse(Text(es)) == Entries(Sorted(MeantBy(es))) <==> !EndsInBareOne(es)
    ensures EndsInBareOne(es) ==> Parse(Text(es)) == if es[|es| - 1].sep.right == "" then ValueError else Entries([])
    ensures EntriesOf(es) == Some(MeantBy(es))
  {
    var (ps, tail) := Pieces(Text(es), "");
    PiecesOfList(es);
    CollectReads(ps);
    EntriesMean(es);
    SortIsStable(MeantBy(es));
    assert |Sorted(MeantBy(es))| == |multiset(Sorted(MeantBy(es)))|;
  }

  lemma SingleList(e: Element)
    requires IsElement(e, true) && e.sep.End?
    ensures IsList([e], true) && !EndsInBareOne([e]) && Text([e]) == ElementText(e) && MeantBy([e]) == [Meant(e)]
  {
    assert [e][1..] == [] && Text([e]) == ElementText(e) + "";
  }

  lemma {:induction false} OneElement(e: Element)
    requires IsElement(e, true) && e.sep.End?
    ensures Parse(ElementText(e)) == Entries([Meant(e)])
  {
    SingleList(e);
    StandardHeaders([e]);
    SortedIsFixed([Meant(e)]);
  }

  lemma EndText(lang: string, q: Option<Quality>)
    ensures ElementText(Element(lang, q, End)) == lang + QualityText(q)
  {
    assert QualityText(q) + "" == QualityText(q);
  }

  /** A language alone, or with a quality of zero, is asked for with a quality of one. */
  lemma AbsentOrZeroIsOne(lang: string)
    requires IsLanguage(lang)
    ensures Parse(lang) == Entries([Entry(lang, 1000)])
    ensures Parse(lang + ";q=0") == Entries([Entry(lang, 1000)])
  {
    PlainIsOne(lang);
    ZeroIsOne(lang);
  }

  lemma {:induction false} PlainIsOne(lang: string)
    requires IsLanguage(lang)
    ensures Parse(lang) == Entries([Entry(lang, 1000)])
  {
    EndText(lang, None);
    assert lang + "" == lang;
    OneElement(Element(lang, None, End));
  }

  lemma {:induction false} ZeroIsOne(lang: string)
    requires IsLanguage(lang)
    ensures Parse(lang + ";q=0") == Entries([Entry(lang, 1000)])
  {
    var q := Some(Quality("", "", "0"));
    EndText(lang, q);
    assert QualityText(q) == ";q=0";
    OneElement(Element(lang, q, End));
  }

  /** The shortest headers of this kind, such as `en;q=1,`, raise. */
  lemma {:induction false} BareOneRaises(lang: string)
    requires IsLanguage(lang)
    ensures Parse(lang + (";q=1" + ",")) == ValueError
  {
    var e := Element(lang, Some(Quality("", "", "1")), Comma("", ""));
    BareOneText(e);
    StandardHeaders([e]);
  }

  lemma BareOneText(e: Element)
    requires e.quality == Some(Quality("", "", "1")) && e.sep == Comma("", "")
    ensures Text([e]) == e.lang + (";q=1" + ",") && EndsInBareOne([e])
  {
    assert QualityText(e.quality) == ";q=1" && SeparatorText(e.sep) == ",";
    assert [e][1..] == [];
    assert ElementText(e) + "" == ElementText(e);
  }

  lemma StrictEntry(e: Element)
    requires IsElement(e, true)
    ensures EntryOf(e).Some?
  {
  }
}
