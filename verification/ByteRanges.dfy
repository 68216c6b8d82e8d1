/** Serving a byte range of a stored file (section 14.35.1 of RFC 2616). */
module ByteRanges {
  import opened Common
  import opened Decimal

  type Bytes = seq<bv8>

  const CHUNK := 1024

  function Max(a: int, b: int): int { if a < b then b else a }

  // -------------------------------------------------------------------- splitting

  function IndexOf(s: string, c: char): (i: nat)
    requires c in s
    ensures i < |s| && s[i] == c && c !in s[..i]
  {
    if s[0] == c then 0 else
      var i := IndexOf(s[1..], c);
      assert s[..i + 1] == [s[0]] + s[1..][..i];
      i + 1
  }

  /** `s.split(c)` */
  function Split(s: string, c: char): (parts: seq<string>)
    ensures |parts| > 0
  {
    if c !in s then [s]
    else
      var i := IndexOf(s, c);
      [s[..i]] + Split(s[i + 1..], c)
  }

  lemma {:induction false} SplitAt(a: string, c: char, b: string)
    requires c !in a
    ensures Split(a + [c] + b, c) == [a] + Split(b, c)
  {
    var s := a + [c] + b;
    assert s[|a|] == c;
    var i := IndexOf(s, c);
    assert forall k | 0 <= k < |a| :: s[k] == a[k] && a[k] in a;
    assert forall k | 0 <= k < i :: s[k] == s[..i][k];
    assert i == |a|;
    assert s[..i] == a && s[i + 1..] == b;
  }

  // ---------------------------------------------------------------------- parsing

  /** One byte range, clamped to a file of `n` bytes; None is a syntax error. */
  function ParseRange(text: string, n: nat): Option<(int, int)> {
    var t := Strip(text);
    if '-' !in t then None
    else if t[0] == '-' then
      var suffix := ParseInt(t);
      if suffix.None? then None else Some((Max(0, n + suffix.value), n - 1))
    else if t[|t| - 1] == '-' then
      var first := ParseInt(t[..|t| - 1]);
      if first.None? then None else Some((first.value, n - 1))
    else
      var parts := Split(t, '-');
      if |parts| != 2 then None
      else
        var first, last := ParseInt(parts[0]), ParseInt(parts[1]);
        if first.None? || last.None? then None else Some((first.value, Min(last.value, n - 1)))
  }

  function ParseRanges(texts: seq<string>, n: nat): Option<seq<(int, int)>> {
    if texts == [] then Some([])
    else
      var first, rest := ParseRange(texts[0], n), ParseRanges(texts[1..], n);
      if first.None? then None else Prepend([first.value], rest)
  }

  function Prepend<T>(ranges: seq<T>, rest: Option<seq<T>>): Option<seq<T>> {
    if rest.None? then None else Some(ranges + rest.value)
  }

  lemma PrependSnoc<T>(ranges: seq<T>, r: T, rest: Option<seq<T>>)
    ensures Prepend(ranges + [r], rest) == Prepend(ranges, Prepend([r], rest))
    ensures Prepend([], rest) == rest
  {
    if rest.Some? { assert [] + rest.value == rest.value; }
    if rest.Some? { assert ranges + [r] + rest.value == ranges + ([r] + rest.value); }
  }

  /** The unit and the ranges of a header; None is its ValueError. */
  function ParseHeader(header: string, n: nat): Option<(string, seq<(int, int)>)> {
    var sides := Split(header, '=');
    if '=' !in header || |sides| != 2 then None
    else
      var ranges := ParseRanges(Split(sides[1], ','), n);
      if ranges.None? then None else Some((sides[0], ranges.value))
  }

  method ParseOneRange(text: string, n: nat) returns (r: Option<(int, int)>)
    ensures r == ParseRange(text, n)
  {
    var t := Strip(text);
    if '-' !in t {
      return None;
    } else if t[0] == '-' {
      var suffix := ParseInt(t);
      if suffix.None? { return None; }
      return Some((Max(0, n + suffix.value), n - 1));
    } else if t[|t| - 1] == '-' {
      var start := ParseInt(t[..|t| - 1]);
      if start.None? { return None; }
      return Some((start.value, n - 1));
    }
    var parts := Split(t, '-');
    if |parts| != 2 { return None; }
    var start, end := ParseInt(parts[0]), ParseInt(parts[1]);
    if start.None? || end.None? { return None; }
    return Some((start.value, Min(end.value, n - 1)));
  }

  method ParseRangeHeader(header: string, n: nat) returns (r: Option<(string, seq<(int, int)>)>)
    ensures r == ParseHeader(header, n)
    ensures r.Some? ==> |r.value.1| > 0
  {
    if '=' !in header { return None; }
    var sides := Split(header, '=');
    if |sides| != 2 { return None; }
    var unit, texts := sides[0], Split(sides[1], ',');
    var ranges: seq<(int, int)> := [];
    assert texts[0..] == texts;
    PrependSnoc([], (0, 0), ParseRanges(texts, n));
    for i := 0 to |texts|
      invariant |ranges| == i
      invariant ParseRanges(texts, n) == Prepend(ranges, ParseRanges(texts[i..], n))
    {
      assert texts[i..][1..] == texts[i + 1..];
      var range := ParseOneRange(texts[i], n);
      if range.None? { return None; }
      PrependSnoc(ranges, range.value, ParseRanges(texts[i + 1..], n));
      ranges := ranges + [range.value];
    }
    assert ranges + [] == ranges;
    return Some((unit, ranges));
  }

  // -------------------------------------------------------------------- streaming

  function Flatten(chunks: seq<Bytes>): Bytes {
    if chunks == [] then [] else Flatten(chunks[..|chunks| - 1]) + chunks[|chunks| - 1]
  }

  class ContentStream {
    const data: Bytes
    var position: nat

    constructor (data: Bytes)
      ensures this.data == data && position == 0
    {
      this.data, position := data, 0;
    }

    method Read(size: nat) returns (chunk: Bytes)
      requires position <= |data|
      modifies this
      ensures position == Min(old(position) + size, |data|) && chunk == data[old(position)..position]
    {
      var end := Min(position + size, |data|);
      chunk := data[position..end];
      position := end;
    }

    /** Streams the bytes from first to last, both included, chunk by chunk. */
    method StreamDataInRange(first: nat, last: nat) returns (chunks: seq<Bytes>)
      requires first <= last < |data|
      modifies this
      ensures Flatten(chunks) == data[first..last + 1]
    {
      position := first;
      chunks := [];
      var at := first;
      while true
        invariant first <= at <= last + 1 && position == at && Flatten(chunks) == data[first..at]
        decreases last + 1 + CHUNK - at
      {
        if last < at + CHUNK - 1 {
          var chunk := Read(last - at + 1);
          FlattenSnoc(chunks, data, first, at, last + 1);
          return chunks + [chunk];
        }
        var chunk := Read(CHUNK);
        FlattenSnoc(chunks, data, first, at, at + CHUNK);
        at := at + CHUNK;
        chunks := chunks + [chunk];
      }
    }
  }

  lemma {:induction false} FlattenSnoc(chunks: seq<Bytes>, data: Bytes, first: nat, at: nat, to: nat)
    requires first <= at <= to <= |data| && Flatten(chunks) == data[first..at]
    ensures Flatten(chunks + [data[at..to]]) == data[first..to]
  {
    assert (chunks + [data[at..to]])[..|chunks|] == chunks;
    assert data[first..at] + data[at..to] == data[first..to];
  }

  // ---------------------------------------------------------------------- replies

  datatype Reply = Reply(status: nat, body: Bytes, contentRange: Option<string>, contentLength: Option<nat>)

  function FullReply(data: Bytes): Reply {
    Reply(200, data, None, Some(|data|))
  }

  function PartialReply(data: Bytes, first: nat, last: nat): Reply
    requires first <= last < |data|
  {
    Reply(206, data[first..last + 1],
          Some("bytes " + Numeral(first) + "-" + Numeral(last) + "/" + Numeral(|data|)), Some(last - first + 1))
  }

  const UNSATISFIABLE := Reply(416, [], None, None)

  /** The reply once the header is parsed; None and odd units or numbers of ranges get everything. */
  function ReplyParsed(parsed: Option<(string, seq<(int, int)>)>, data: Bytes): Reply {
    if parsed.None? || parsed.value.0 != "bytes" || |parsed.value.1| != 1 then FullReply(data)
    else
      var (first, last) := parsed.value.1[0];
      if 0 <= first <= last < |data| then PartialReply(data, first, last) else UNSATISFIABLE
  }

  /** The reply to a request for a file with a Range header. */
  function ReplyTo(header: string, data: Bytes): Reply {
    if header == "" then FullReply(data) else ReplyParsed(ParseHeader(header, |data|), data)
  }

  method Serve(header: string, content: ContentStream) returns (reply: Reply)
    modifies content
    ensures reply == ReplyTo(header, content.data)
  {
    if header != "" {
      var parsed := ParseRangeHeader(header, |content.data|);
      if parsed.Some? {
        var unit, ranges := parsed.value.0, parsed.value.1;
        if unit == "bytes" && |ranges| == 1 {
          var (first, last) := ranges[0];
          if 0 <= first <= last < |content.data| {
            var chunks := content.StreamDataInRange(first, last);
            var range := "bytes " + Numeral(first) + "-" + Numeral(last) + "/" + Numeral(|content.data|);
            return Reply(206, Flatten(chunks), Some(range), Some(last - first + 1));
          }
          return UNSATISFIABLE;
        }
      }
    }
    return Reply(200, content.data, None, Some(|content.data|));
  }

  // --------------------------------------------------- well-formed single ranges

  /** `a-b`, `a-` and `-n`, each number as it is written. */
  datatype Spec = Closed(first: string, last: string) | From(first: string) | Suffix(count: string)

  predicate Numeric(s: string) { s != "" && AllDigits(s) }

  /** Every number is a string of digits, at least one; leading zeros are allowed. */
  predicate WellFormed(s: Spec) {
    match s
    case Closed(a, b) => Numeric(a) && Numeric(b)
    case From(a) => Numeric(a)
    case Suffix(k) => Numeric(k)
  }

  function SpecText(s: Spec): string {
    match s
    case Closed(a, b) => a + "-" + b
    case From(a) => a + "-"
    case Suffix(k) => "-" + k
  }

  function Header(s: Spec): string { "bytes=" + SpecText(s) }

  /** The interval a spec asks for in a file of n bytes, clamped to the file. */
  function First(s: Spec, n: nat): int
    requires WellFormed(s)
  {
    match s
    case Suffix(k) => Max(0, n - Value(k))
    case _ => Value(s.first)
  }

  function Last(s: Spec, n: nat): int
    requires WellFormed(s)
  {
    match s
    case Closed(_, b) => Min(Value(b), n - 1)
    case _ => n - 1
  }

  lemma ParseRangeOfSpec(s: Spec, n: nat)
    requires WellFormed(s)
    ensures ParseRange(SpecText(s), n) == Some((First(s, n), Last(s, n)))
  {
    match s
    case Closed(a, b) => ParseClosed(a, b, n);
    case From(a) => ParseFrom(a, n);
    case Suffix(k) =>
      ParseIntOfDigits(k);
      StripMinus(k);
      assert ("-" + k)[0] == '-';
  }

  lemma NoMinus(x: string)
    requires AllDigits(x)
    ensures '-' !in x && '=' !in x && ',' !in x
  {
  }

  lemma StripText(x: string, y: string)
    requires Numeric(x) && (y == "" || Numeric(y))
    ensures Strip(x + "-" + y) == x + "-" + y
  {
    var t := x + "-" + y;
    assert t[0] == x[0] && IsDigit(x[0]);
    if y != "" { assert t[|t| - 1] == y[|y| - 1] && IsDigit(y[|y| - 1]); } else { assert t[|t| - 1] == '-'; }
    StripKeeps(t);
  }

  lemma ClosedShape(x: string, y: string)
    requires Numeric(x) && Numeric(y)
    ensures var t := x + "-" + y; '-' in t && t[0] != '-' && t[|t| - 1] != '-' && Split(t, '-') == [x, y]
  {
    var t := x + "-" + y;
    assert t[|x|] == '-';
    assert t[0] == x[0] && IsDigit(x[0]);
    assert t[|t| - 1] == y[|y| - 1] && IsDigit(y[|y| - 1]);
    NoMinus(x);
    NoMinus(y);
    SplitAt(x, '-', y);
    assert Split(y, '-') == [y];
  }

  lemma {:induction false} ParseClosed(x: string, y: string, n: nat)
    requires Numeric(x) && Numeric(y)
    ensures ParseRange(x + "-" + y, n) == Some((Value(x) as int, Min(Value(y), n - 1)))
  {
    StripText(x, y);
    ClosedShape(x, y);
    ParseIntOfDigits(x);
    ParseIntOfDigits(y);
  }

  lemma {:induction false} ParseFrom(x: string, n: nat)
    requires Numeric(x)
    ensures ParseRange(x + "-", n) == Some((Value(x) as int, n - 1))
  {
    var t := x + "-";
    StripText(x, "");
    assert t == x + "-" + "";
    assert t[|x|] == '-' && t[0] == x[0] && IsDigit(x[0]);
    assert t[..|t| - 1] == x;
    ParseIntOfDigits(x);
  }

  lemma SpecTextHasNoSeparator(s: Spec)
    requires WellFormed(s)
    ensures '=' !in SpecText(s) && ',' !in SpecText(s)
  {
    match s
    case Closed(a, b) => NoMinus(a); NoMinus(b);
    case From(a) => NoMinus(a);
    case Suffix(k) => NoMinus(k);
  }

  lemma ParseHeaderOfSpec(s: Spec, n: nat)
    requires WellFormed(s)
    ensures ParseHeader(Header(s), n) == Some(("bytes", [(First(s, n), Last(s, n))]))
  {
    var t := SpecText(s);
    SpecTextHasNoSeparator(s);
    ParseRangeOfSpec(s, n);
    RangesAreRead(t, n);
    assert AsksForOne(Header(s), t);
    OneRangeIsParsed(Header(s), t, n);
  }

  lemma ReplyToSpec(s: Spec, data: Bytes)
    requires WellFormed(s)
    ensures ReplyTo(Header(s), data) == ReplyParsed(Some(("bytes", [(First(s, |data|), Last(s, |data|))])), data)
  {
    ParseHeaderOfSpec(s, |data|);
    assert Header(s)[0] == 'b';
  }

  /** Exactly the bytes of the interval, with their number, if there are any; else 416. */
  predicate IsClamped(r: Reply, data: Bytes, first: int, last: int) {
    && (r.status == 206 <==> first <= last) && (r.status == 416 <==> first > last)
    && (r.status == 206 ==>
          && 0 <= first <= last < |data|
          && r.contentLength == Some(last - first + 1) == Some(|r.body|)
          && r.contentRange == Some("bytes " + Numeral(first) + "-" + Numeral(last) + "/" + Numeral(|data|))
          && r.body == data[first..last + 1])
    && (r.status == 416 ==> r.body == [] && r.contentRange == None && r.contentLength == None)
  }

  lemma ReplyParsedIsClamped(first: int, last: int, data: Bytes)
    requires 0 <= first && last < |data|
    ensures IsClamped(ReplyParsed(Some(("bytes", [(first, last)])), data), data, first, last)
  {
  }

  /**
   * A well-formed single range, in any digits, is answered by exactly the bytes of the clamped interval,
   * with their number, when there are any, and by 416 when there are none.
   */
  lemma SingleRange(s: Spec, data: Bytes)
    requires WellFormed(s)
    ensures IsClamped(ReplyTo(Header(s), data), data, First(s, |data|), Last(s, |data|))
  {
    ReplyToSpec(s, data);
    ReplyParsedIsClamped(First(s, |data|), Last(s, |data|), data);
  }

  function BodyBetween(from: nat, to: nat, data: Bytes): Bytes {
    if to == 0 then [] else ReplyTo(Header(Closed(Numeral(from), Numeral(to - 1))), data).body
  }

  lemma {:induction false} ClosedOfNumerals(from: nat, last: nat, n: nat)
    requires from <= last < n
    ensures var s := Closed(Numeral(from), Numeral(last)); WellFormed(s) && First(s, n) == from && Last(s, n) == last
  {
    ValueOfNumeral(from);
    ValueOfNumeral(last);
  }

  lemma ClampedBody(r: Reply, data: Bytes, first: nat, last: nat)
    requires IsClamped(r, data, first, last) && first <= last
    ensures last < |data| && r.body == data[first..last + 1]
  {
  }

  lemma BodyIsSlice(from: nat, to: nat, data: Bytes)
    requires from < to <= |data|
    ensures BodyBetween(from, to, data) == data[from..to]
  {
    var s := Closed(Numeral(from), Numeral(to - 1));
    ClosedOfNumerals(from, to - 1, |data|);
    SingleRange(s, data);
    ClampedBody(ReplyTo(Header(s), data), data, from, to - 1);
  }

  predicate IsSlice(part: Bytes, from: nat, to: nat, data: Bytes) {
    from <= to <= |data| && part == data[from..to]
  }

  lemma {:induction false} SlicesRebuild(parts: seq<Bytes>, cuts: seq<nat>, data: Bytes)
    requires |cuts| == |parts| + 1 && cuts[0] == 0 && cuts[|parts|] <= |data|
    requires forall i | 0 <= i < |parts| :: IsSlice(parts[i], cuts[i], cuts[i + 1], data)
    ensures Flatten(parts) == data[..cuts[|parts|]]
  {
    var n := |parts|;
    if n > 0 {
      assert IsSlice(parts[n - 1], cuts[n - 1], cuts[n], data);
      SlicesRebuild(parts[..n - 1], cuts[..n], data);
      assert data[..cuts[n - 1]] + data[cuts[n - 1]..cuts[n]] == data[..cuts[n]];
    }
  }

  /** The body received for the range from one cut up to the next. */
  predicate IsBody(part: Bytes, from: nat, to: nat, data: Bytes) {
    part == BodyBetween(from, to, data)
  }

  lemma BodyIsPart(part: Bytes, from: nat, to: nat, data: Bytes)
    requires from < to <= |data| && IsBody(part, from, to, data)
    ensures part == data[from..to]
  {
    BodyIsSlice(from, to, data);
  }

  /** Cuts from the start to the end of a file of `n` bytes, each after the one before. */
  ghost predicate Tiles(cuts: seq<nat>, n: nat) {
    cuts != [] && cuts[0] == 0 && cuts[|cuts| - 1] == n && forall i | 0 < i < |cuts| :: cuts[i - 1] < cuts[i]
  }

  lemma {:induction false} CutIsInside(cuts: seq<nat>, n: nat, i: nat)
    requires Tiles(cuts, n) && i < |cuts|
    ensures cuts[i] <= n
    decreases |cuts| - i
  {
    if i < |cuts| - 1 { CutIsInside(cuts, n, i + 1); }
  }

  lemma TileIsSlice(part: Bytes, cuts: seq<nat>, data: Bytes, i: nat)
    requires Tiles(cuts, |data|) && i < |cuts| - 1 && IsBody(part, cuts[i], cuts[i + 1], data)
    ensures cuts[i] < cuts[i + 1] <= |data| && part == data[cuts[i]..cuts[i + 1]]
  {
    CutIsInside(cuts, |data|, i + 1);
    BodyIsPart(part, cuts[i], cuts[i + 1], data);
  }

  /** Fetching a file range by range along any increasing cuts rebuilds it. */
  lemma {:induction false} TilesRebuild(parts: seq<Bytes>, cuts: seq<nat>, data: Bytes)
    requires Tiles(cuts, |data|) && |cuts| == |parts| + 1
    requires forall i | 0 <= i < |parts| :: IsBody(parts[i], cuts[i], cuts[i + 1], data)
    ensures Flatten(parts) == data
  {
    forall i | 0 <= i < |parts| ensures IsSlice(parts[i], cuts[i], cuts[i + 1], data) {
      TileIsSlice(parts[i], cuts, data, i);
    }
    SlicesRebuild(parts, cuts, data);
  }

  /** A last byte in front of the first is unsatisfiable here, where the standard ignores it. */
  lemma {:induction false} ReversedIsUnsatisfiable(first: string, last: string, data: Bytes)
    requires Numeric(first) && Numeric(last) && Value(last) < Value(first)
    ensures ReplyTo(Header(Closed(first, last)), data) == Reply(416, [], None, None)
  {
    ReplyToSpec(Closed(first, last), data);
  }

  // -------------------------------------------------------------- ignored headers

  /** The text has exactly one `c`, with `a` on its left and `b` on its right. */
  predicate SplitsInto(s: string, c: char, a: string, b: string) {
    s == a + [c] + b && c !in a && c !in b
  }

  lemma {:induction false} SplitOnce(s: string, c: char)
    ensures |Split(s, c)| == 1 <==> c !in s
    ensures |Split(s, c)| == 2 ==> SplitsInto(s, c, Split(s, c)[0], Split(s, c)[1])
    ensures forall a, b | SplitsInto(s, c, a, b) :: Split(s, c) == [a, b]
  {
    if c in s {
      var i := IndexOf(s, c);
      assert s == s[..i] + [c] + s[i + 1..];
    }
    forall a, b | SplitsInto(s, c, a, b) ensures Split(s, c) == [a, b] { SplitAt(a, c, b); }
  }

  /** The texts of a range: `-n`, `a-` or `a-b`, each number with the white space and sign `int` allows. */
  ghost predicate IsRange(text: string) {
    var t := Strip(text);
    if t != "" && t[0] == '-' then IsInteger(t)
    else if t != "" && t[|t| - 1] == '-' then IsInteger(t[..|t| - 1])
    else exists a, b :: SplitsInto(t, '-', a, b) && IsInteger(a) && IsInteger(b)
  }

  lemma RangesAreRead(text: string, n: nat)
    ensures ParseRange(text, n).Some? <==> IsRange(text)
  {
    var t := Strip(text);
    if t != "" && t[0] == '-' {
      IntReadsIntegers(t);
    } else if t != "" && t[|t| - 1] == '-' {
      IntReadsIntegers(t[..|t| - 1]);
    } else {
      SplitOnce(t, '-');
      BothAreRead(t, n);
    }
  }

  lemma {:induction false} BothAreRead(t: string, n: nat)
    requires forall a, b | SplitsInto(t, '-', a, b) :: Split(t, '-') == [a, b]
    requires |Split(t, '-')| == 2 ==> SplitsInto(t, '-', Split(t, '-')[0], Split(t, '-')[1])
    ensures (|Split(t, '-')| == 2 && ParseInt(Split(t, '-')[0]).Some? && ParseInt(Split(t, '-')[1]).Some?)
      <==> exists a, b :: SplitsInto(t, '-', a, b) && IsInteger(a) && IsInteger(b)
  {
    forall x ensures ParseInt(x).Some? <==> IsInteger(x) { IntReadsIntegers(x); }
    if a, b :| SplitsInto(t, '-', a, b) && IsInteger(a) && IsInteger(b) {
      assert Split(t, '-') == [a, b];
    }
  }

  /** The header asks for one range of bytes. */
  ghost predicate AsksForOne(header: string, text: string) {
    header == "bytes=" + text && '=' !in text && ',' !in text && IsRange(text)
  }

  lemma OneRangeIsParsed(header: string, text: string, n: nat)
    requires AsksForOne(header, text)
    ensures ParseRange(text, n).Some? && ParseHeader(header, n) == Some(("bytes", [ParseRange(text, n).value]))
  {
    RangesAreRead(text, n);
    assert SplitsInto(header, '=', "bytes", text);
    assert header[5] == '=';
    SplitOnce(header, '=');
    SplitOnce(text, ',');
    assert Split(text, ',') == [text];
    OneText(text, n);
  }

  lemma {:induction false} OneText(text: string, n: nat)
    requires ParseRange(text, n).Some?
    ensures ParseRanges([text], n) == Some([ParseRange(text, n).value])
  {
    var r := ParseRange(text, n).value;
    assert [text][1..] == [] && [r] + [] == [r];
  }

  lemma ParsedIsOneRange(header: string, n: nat) returns (text: string)
    requires var p := ParseHeader(header, n); p.Some? && p.value.0 == "bytes" && |p.value.1| == 1
    ensures AsksForOne(header, text)
  {
    SplitOnce(header, '=');
    text := Split(header, '=')[1];
    SplitOnce(text, ',');
    ManyRanges(Split(text, ','), n);
    RangesAreRead(text, n);
    assert Split(text, ',') == [text];
    assert "bytes" + ['='] == "bytes=";
  }

  lemma {:induction false} ManyRanges(texts: seq<string>, n: nat)
    ensures ParseRanges(texts, n).Some? ==> |ParseRanges(texts, n).value| == |texts|
    ensures ParseRanges(texts, n).Some? <==> forall t <- texts :: ParseRange(t, n).Some?
  {
    if texts != [] { ManyRanges(texts[1..], n); }
  }

  /**
   * The whole file is sent exactly if the header is anything but the unit, one `=` and one
   * range made of whole numbers, on whatever file: other units, several ranges, a missing
   * dash or number.
   */
  lemma SyntaxErrorsAreIgnored(header: string, data: Bytes)
    ensures ReplyTo(header, data) == Reply(200, data, None, Some(|data|)) <==> forall text :: !AsksForOne(header, text)
  {
    if text :| AsksForOne(header, text) {
      OneRangeIsParsed(header, text, |data|);
      assert header[0] == 'b';
    }
    var p := ParseHeader(header, |data|);
    if p.Some? && p.value.0 == "bytes" && |p.value.1| == 1 {
      var text := ParsedIsOneRange(header, |data|);
    }
  }
}
