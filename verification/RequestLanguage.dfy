/** Choosing the language of a request: path, session, cookie, Accept-Language header, default. */
module RequestLanguage {
  import opened Common
  import opened AcceptLanguage
  import opened AcceptLanguageResults

  /**
   * `languages` are the codes of the language setting in the order a dictionary of them
   * is read, `installed` the codes with a catalogue, `fallbacks` the extra variants some
   * codes name.
   */
  datatype Settings = Settings(
    languages: seq<string>, installed: set<string>, fallbacks: map<string, seq<string>>, languageCode: string)

  datatype Request = Request(
    pathLanguage: Option<string>, sessionLanguage: Option<string>, cookie: Option<string>, accept: string)

  predicate Usable(s: Settings, code: string) { code in s.languages && code in s.installed }

  function Candidates(s: Settings, code: string): seq<string> {
    [code] + (if code in s.fallbacks then s.fallbacks[code] else []) + [Generic(code)]
  }

  function FirstUsable(s: Settings, codes: seq<string>): Option<string> {
    if codes == [] then None
    else if Usable(s, codes[0]) then Some(codes[0])
    else FirstUsable(s, codes[1..])
  }

  predicate StartsWith(code: string, prefix: string) {
    |prefix| <= |code| && code[..|prefix|] == prefix
  }

  function FirstVariant(codes: seq<string>, prefix: string): Option<string> {
    if codes == [] then None
    else if StartsWith(codes[0], prefix) then Some(codes[0])
    else FirstVariant(codes[1..], prefix)
  }

  /** The supported variant of a code; None is its LookupError. */
  function Variant(s: Settings, code: string): Option<string> {
    if code == "" then None
    else
      var exact := FirstUsable(s, Candidates(s, code));
      if exact.Some? then exact else FirstVariant(s.languages, Generic(code) + "-")
  }

  /** A setting code that may stand for `code`. */
  predicate Serves(s: Settings, code: string, v: string) {
    && code != "" && v in s.languages
    && ((v in s.installed && v in Candidates(s, code)) || StartsWith(v, Generic(code) + "-"))
  }

  ghost predicate FirstUsableAt(s: Settings, codes: seq<string>, i: int) {
    0 <= i < |codes| && Usable(s, codes[i]) && forall j | 0 <= j < i :: !Usable(s, codes[j])
  }

  ghost predicate FirstVariantAt(codes: seq<string>, prefix: string, i: int) {
    0 <= i < |codes| && StartsWith(codes[i], prefix) && forall j | 0 <= j < i :: !StartsWith(codes[j], prefix)
  }

  /**
   * The language that is preferred for a code: the code itself, else the first of its
   * fallbacks, else the code in front of the first dash, each if it is supported; else
   * the first language of the settings that is a country variant.
   */
  ghost predicate Preferred(s: Settings, code: string, v: string) {
    var fallbacks := if code in s.fallbacks then s.fallbacks[code] else [];
    && code != ""
    && if Usable(s, code) then v == code
       else if exists f <- fallbacks :: Usable(s, f) then
         exists i | 0 <= i < |fallbacks| ::
           v == fallbacks[i] && Usable(s, v) && forall j | 0 <= j < i :: !Usable(s, fallbacks[j])
       else if Usable(s, Generic(code)) then v == Generic(code)
       else
         exists i | 0 <= i < |s.languages| ::
           v == s.languages[i] && Generic(code) + "-" <= v
           && forall j | 0 <= j < i :: !(Generic(code) + "-" <= s.languages[j])
  }

  lemma {:induction false} FirstUsableFinds(s: Settings, codes: seq<string>) returns (i: int)
    ensures match FirstUsable(s, codes)
      case Some(v) => FirstUsableAt(s, codes, i) && codes[i] == v
      case None => forall c <- codes :: !Usable(s, c)
  {
    i := 0;
    if codes != [] && !Usable(s, codes[0]) {
      i := FirstUsableFinds(s, codes[1..]);
      i := i + 1;
      assert forall j | 0 < j < |codes| :: codes[j] == codes[1..][j - 1];
    }
  }

  lemma {:induction false} FirstVariantFinds(codes: seq<string>, prefix: string) returns (i: int)
    ensures match FirstVariant(codes, prefix)
      case Some(v) => FirstVariantAt(codes, prefix, i) && codes[i] == v
      case None => forall c <- codes :: !StartsWith(c, prefix)
  {
    i := 0;
    if codes != [] && !StartsWith(codes[0], prefix) {
      i := FirstVariantFinds(codes[1..], prefix);
      i := i + 1;
      assert forall j | 0 < j < |codes| :: codes[j] == codes[1..][j - 1];
    }
  }

  lemma UsableIsPreferred(s: Settings, code: string, i: int)
    requires code != "" && FirstUsableAt(s, Candidates(s, code), i)
    ensures Preferred(s, code, Candidates(s, code)[i])
  {
    var c := Candidates(s, code);
    var fallbacks := if code in s.fallbacks then s.fallbacks[code] else [];
    assert c[0] == code && c[|fallbacks| + 1] == Generic(code);
    assert forall j | 0 <= j < |fallbacks| :: fallbacks[j] == c[j + 1];
    if 0 < i <= |fallbacks| { assert fallbacks[i - 1] == c[i] && fallbacks[i - 1] in fallbacks; }
  }

  lemma {:induction false} VariantIsPreferred(s: Settings, code: string, i: int)
    requires code != "" && (forall c <- Candidates(s, code) :: !Usable(s, c))
    requires FirstVariantAt(s.languages, Generic(code) + "-", i)
    ensures Preferred(s, code, s.languages[i])
  {
    var c := Candidates(s, code);
    var fallbacks := if code in s.fallbacks then s.fallbacks[code] else [];
    assert c[0] == code && c[|fallbacks| + 1] == Generic(code);
    assert c[0] in c && c[|fallbacks| + 1] in c;
    forall f | f in fallbacks ensures !Usable(s, f) { assert f in c; }
  }

  lemma PreferredIsOne(s: Settings, code: string, v: string, w: string)
    requires Preferred(s, code, v) && Preferred(s, code, w)
    ensures v == w
  {
  }

  /**
   * A variant is found exactly when some language of the settings serves the code, and it
   * is the one language that is preferred among those that serve it.
   */
  lemma VariantServes(s: Settings, code: string)
    ensures match Variant(s, code)
      case Some(v) => Serves(s, code, v) && Preferred(s, code, v) && forall w | Preferred(s, code, w) :: w == v
      case None => forall v <- s.languages :: !Serves(s, code, v)
  {
    var i := FirstUsableFinds(s, Candidates(s, code));
    var k := FirstVariantFinds(s.languages, Generic(code) + "-");
    var v := Variant(s, code);
    if v.Some? {
      if FirstUsable(s, Candidates(s, code)).Some? {
        UsableIsPreferred(s, code, i);
      } else {
        VariantIsPreferred(s, code, k);
      }
      forall w | Preferred(s, code, w) ensures w == v.value { PreferredIsOne(s, code, w, v.value); }
    }
  }

  method GetSupportedLanguageVariant(s: Settings, code: string) returns (r: Option<string>)
    ensures r == Variant(s, code)
  {
    if code != "" {
      var possible := [code];
      if code in s.fallbacks { possible := possible + s.fallbacks[code]; }
      possible := possible + [Generic(code)];
      assert possible == Candidates(s, code) by {
        if code !in s.fallbacks { assert [code] + [] == [code]; }
      }
      for i := 0 to |possible|
        invariant FirstUsable(s, possible[i..]) == FirstUsable(s, Candidates(s, code))
      {
        assert possible[i..][1..] == possible[i + 1..];
        if possible[i] in s.languages && possible[i] in s.installed { return Some(possible[i]); }
      }
      for i := 0 to |s.languages|
        invariant FirstVariant(s.languages[i..], Generic(code) + "-") == FirstVariant(s.languages, Generic(code) + "-")
      {
        assert s.languages[i..][1..] == s.languages[i + 1..];
        if StartsWith(s.languages[i], Generic(code) + "-") { return Some(s.languages[i]); }
      }
    }
    return None;
  }

  // --------------------------------------------------------------------- requests

  predicate SessionDecides(s: Settings, r: Request) {
    r.sessionLanguage.Some? && Usable(s, r.sessionLanguage.value)
  }

  function CookieVariant(s: Settings, r: Request): Option<string> {
    if r.cookie.Some? then Variant(s, r.cookie.value) else None
  }

  /** The variant of the first entry in front of a star that has one. */
  function HeaderVariant(s: Settings, es: seq<Entry>): Option<string> {
    if es == [] || es[0].lang == "*" then None
    else
      var v := if IsLanguage(es[0].lang) then Variant(s, es[0].lang) else None;
      if v.Some? then v else HeaderVariant(s, es[1..])
  }

  function Default(s: Settings): string {
    var v := Variant(s, s.languageCode);
    if v.Some? then v.value else s.languageCode
  }

  /** The language of the request, or None when parsing the header raises. */
  function LanguageOf(s: Settings, r: Request, checkPath: bool): Option<string> {
    if checkPath && r.pathLanguage.Some? then r.pathLanguage
    else if SessionDecides(s, r) then r.sessionLanguage
    else if CookieVariant(s, r).Some? then CookieVariant(s, r)
    else
      match Parse(r.accept)
      case ValueError => None
      case Entries(es) =>
        var v := HeaderVariant(s, es);
        if v.Some? then v else Some(Default(s))
  }

  ghost predicate Unserved(s: Settings, lang: string) {
    forall v <- s.languages :: !Serves(s, lang, v)
  }

  /** Position `i` holds the first entry that some language serves, and no star is at or before it. */
  ghost predicate Decisive(s: Settings, es: seq<Entry>, i: int) {
    && 0 <= i < |es| && !Unserved(s, es[i].lang)
    && (forall j | 0 <= j < i :: Unserved(s, es[j].lang)) && (forall j | 0 <= j <= i :: es[j].lang != "*")
  }

  lemma {:induction false} HeaderVariantIsDecisive(s: Settings, es: seq<Entry>)
    requires forall e <- es :: IsLanguage(e.lang)
    ensures match HeaderVariant(s, es)
      case Some(v) => exists i :: Decisive(s, es, i) && Preferred(s, es[i].lang, v)
      case None => forall i :: !Decisive(s, es, i)
  {
    if es != [] && es[0].lang != "*" {
      VariantServes(s, es[0].lang);
      if Variant(s, es[0].lang).Some? {
        assert Decisive(s, es, 0);
      } else {
        var more := es[1..];
        HeaderVariantIsDecisive(s, more);
        assert forall j | 0 <= j < |more| :: more[j] == es[j + 1];
        forall i | Decisive(s, es, i) ensures Decisive(s, more, i - 1) {
          assert forall j | 0 <= j < i :: more[j].lang == es[j + 1].lang;
        }
        if HeaderVariant(s, more).Some? {
          var v := HeaderVariant(s, more).value;
          var i :| Decisive(s, more, i) && Preferred(s, more[i].lang, v);
          forall j | 0 <= j < i + 1 ensures Unserved(s, es[j].lang) && es[j].lang != "*" {
            if j > 0 { assert es[j] == more[j - 1]; }
          }
          assert Decisive(s, es, i + 1) && Preferred(s, es[i + 1].lang, v);
        }
      }
    }
  }

  /**
   * When path, session and cookie do not decide and the header parses, the language is
   * the preferred one for the first entry, before any star, that some language serves;
   * if there is none it is the one preferred for the default code, or that code itself.
   */
  lemma HeaderDecides(s: Settings, r: Request, checkPath: bool)
    requires !(checkPath && r.pathLanguage.Some?) && !SessionDecides(s, r) && CookieVariant(s, r).None?
    requires Parse(r.accept).Entries?
    ensures var es := Parse(r.accept).entries; var lang := LanguageOf(s, r, checkPath);
      && lang.Some?
      && ((exists i :: Decisive(s, es, i)) ==> exists i :: Decisive(s, es, i) && Preferred(s, es[i].lang, lang.value))
      && ((forall i :: !Decisive(s, es, i)) ==>
            if Unserved(s, s.languageCode) then lang == Some(s.languageCode)
            else Preferred(s, s.languageCode, lang.value))
  {
    ParsedAreLanguages(r.accept);
    HeaderVariantIsDecisive(s, Parse(r.accept).entries);
    VariantServes(s, s.languageCode);
  }

  /**
   * Before the header: a language in the path comes first if the path is asked for, then a
   * supported one in the session, then the one preferred for the cookie's.
   */
  lemma EarlierSourcesDecide(s: Settings, r: Request, checkPath: bool, v: string)
    ensures checkPath && r.pathLanguage == Some(v) ==> LanguageOf(s, r, checkPath) == Some(v)
    ensures !(checkPath && r.pathLanguage.Some?) ==>
      (r.sessionLanguage == Some(v) && v in s.languages && v in s.installed ==> LanguageOf(s, r, checkPath) == Some(v))
    ensures !(checkPath && r.pathLanguage.Some?) && r.cookie.Some? && Preferred(s, r.cookie.value, v) ==>
      || LanguageOf(s, r, checkPath) == Some(v)
      || (r.sessionLanguage.Some? && r.sessionLanguage.value in s.languages && r.sessionLanguage.value in s.installed)
  {
    if r.cookie.Some? {
      VariantServes(s, r.cookie.value);
      if Preferred(s, r.cookie.value, v) { PreferredServes(s, r.cookie.value, v); }
    }
  }

  lemma PreferredServes(s: Settings, code: string, v: string)
    requires Preferred(s, code, v)
    ensures Serves(s, code, v)
  {
    var c := Candidates(s, code);
    var fallbacks := if code in s.fallbacks then s.fallbacks[code] else [];
    assert c[0] == code && c[|fallbacks| + 1] == Generic(code);
    assert forall j | 0 <= j < |fallbacks| :: fallbacks[j] == c[j + 1];
  }

  method GetLanguageFromRequest(s: Settings, r: Request, checkPath: bool) returns (lang: Option<string>)
    ensures lang == LanguageOf(s, r, checkPath)
  {
    if checkPath && r.pathLanguage.Some? { return r.pathLanguage; }
    if r.sessionLanguage.Some? && r.sessionLanguage.value in s.languages && r.sessionLanguage.value in s.installed {
      return r.sessionLanguage;
    }
    if r.cookie.Some? {
      var v := GetSupportedLanguageVariant(s, r.cookie.value);
      if v.Some? { return v; }
    }
    var parsed := ParseAcceptLangHeader(r.accept);
    if parsed.ValueError? { return None; }
    var es := parsed.entries;
    for i := 0 to |es|
      invariant HeaderVariant(s, es[i..]) == HeaderVariant(s, es)
    {
      assert es[i..][1..] == es[i + 1..];
      if es[i].lang == "*" { break; }
      if !IsLanguage(es[i].lang) { continue; }
      var v := GetSupportedLanguageVariant(s, es[i].lang);
      if v.Some? { return v; }
    }
    var v := GetSupportedLanguageVariant(s, s.languageCode);
    return Some(if v.Some? then v.value else s.languageCode);
  }
}
