/**
 * The locale-string parser of the Test Butler service (`parseLocaleString`).
 *
 * The Java code matches its input in full against the pattern
 *   ([a-z0-9]{2,3})(-r?([A-Z0-9]{2,3})(-(\w+))?)?
 * and builds a locale from groups 1, 3 and 5.  Here the pattern is modelled
 * by the datatype of its matches (`LocaleMatch`) together with the text each
 * match spans (`Spelling`); the parser is a hand-written scanner (`Scan`) that
 * is proved to find a match exactly when one exists, and that match is unique.
 */
module LocaleString {
  import opened Wrappers

  /** A java.util.Locale reduced to its three components; "" marks an absent country or variant. */
  datatype Locale = Locale(language: string, country: string, variant: string)

  /** `[a-z0-9]` */
  predicate IsLanguageChar(c: char) { 'a' <= c <= 'z' || '0' <= c <= '9' }

  /** `[A-Z0-9]` */
  predicate IsCountryChar(c: char) { 'A' <= c <= 'Z' || '0' <= c <= '9' }

  /** `\w` read as ASCII word characters: `[a-zA-Z_0-9]`. */
  predicate IsWordChar(c: char) { 'a' <= c <= 'z' || 'A' <= c <= 'Z' || '0' <= c <= '9' || c == '_' }

  /** `[a-z0-9]{2,3}` */
  predicate IsLanguage(s: string) {
    2 <= |s| <= 3 && forall i :: 0 <= i < |s| ==> IsLanguageChar(s[i])
  }

  /** `[A-Z0-9]{2,3}` */
  predicate IsCountry(s: string) {
    2 <= |s| <= 3 && forall i :: 0 <= i < |s| ==> IsCountryChar(s[i])
  }

  /** `\w+` */
  predicate IsVariant(s: string) {
    1 <= |s| && forall i :: 0 <= i < |s| ==> IsWordChar(s[i])
  }

  /** The locales the parser can produce: a variant only together with a country. */
  ghost predicate ValidLocale(loc: Locale) {
    IsLanguage(loc.language) &&
    (loc.country == "" || IsCountry(loc.country)) &&
    (loc.variant == "" || (loc.country != "" && IsVariant(loc.variant)))
  }

  /** The text `lang`, `lang-COUNTRY`, `lang-rCOUNTRY`, `lang-COUNTRY-variant` or `lang-rCOUNTRY-variant`. */
  function Format(loc: Locale, withR: bool): string {
    loc.language +
    (if loc.country == "" then ""
     else "-" + (if withR then "r" else "") + loc.country +
          (if loc.variant == "" then "" else "-" + loc.variant))
  }

  /** Group 2 of a match: whether the optional `r` was taken, group 3, and group 5 when group 4 takes part. */
  datatype RegionMatch = RegionMatch(hasR: bool, country: string, variant: Option<string>)

  /** A match of the whole pattern: group 1, and group 2 when it takes part. */
  datatype LocaleMatch = LocaleMatch(language: string, region: Option<RegionMatch>)

  /** Every group of group 2 holds text its sub-pattern accepts. */
  ghost predicate RegionWellFormed(g: RegionMatch) {
    IsCountry(g.country) && (g.variant.Some? ==> IsVariant(g.variant.value))
  }

  /** Every group holds text its sub-pattern accepts. */
  ghost predicate WellFormed(m: LocaleMatch) {
    IsLanguage(m.language) && (m.region.Some? ==> RegionWellFormed(m.region.value))
  }

  /** The text group 4 spans: empty when it does not take part. */
  function VariantSpelling(variant: Option<string>): string {
    match variant
    case None => ""
    case Some(v) => "-" + v
  }

  /** The text group 2 spans after its leading dash. */
  function RegionSpelling(g: RegionMatch): string {
    (if g.hasR then "r" else "") + g.country + VariantSpelling(g.variant)
  }

  /** The text a match spans. */
  function Spelling(m: LocaleMatch): string {
    m.language +
    match m.region
    case None => ""
    case Some(g) => "-" + RegionSpelling(g)
  }

  /** `Matcher.matches()`: the whole of `s` is spelled by some match of the pattern. */
  ghost predicate FullMatch(s: string) {
    exists m :: WellFormed(m) && Spelling(m) == s
  }

  predicate NoDash(s: string) {
    forall i :: 0 <= i < |s| ==> s[i] != '-'
  }

  /** The index of the first '-' in `s`, or |s| when there is none. */
  function FirstDash(s: string): (k: nat)
    ensures k <= |s|
    ensures NoDash(s[..k])
    ensures k < |s| ==> s[k] == '-'
  {
    if s == [] || s[0] == '-' then 0
    else
      var k := 1 + FirstDash(s[1..]);
      assert s[..k] == [s[0]] + s[1..][..k - 1];
      k
  }

  /** A dash-free prefix ends where the first dash is. */
  lemma {:induction false} FirstDashAfter(a: string, b: string)
    requires NoDash(a)
    requires b == [] || b[0] == '-'
    ensures FirstDash(a + b) == |a|
  {
    if a != [] {
      assert (a + b)[0] == a[0];
      assert (a + b)[1..] == a[1..] + b;
      FirstDashAfter(a[1..], b);
    } else {
      assert a + b == b;
    }
  }

  /** Scans group 3 and the optional group 4 from `tail`, which follows the dash and the optional `r`. */
  function ScanCountry(tail: string): (r: Option<(string, Option<string>)>)
    ensures r.Some? ==> IsCountry(r.value.0)
    ensures r.Some? && r.value.1.Some? ==> IsVariant(r.value.1.value)
    ensures r.Some? ==> tail == r.value.0 + VariantSpelling(r.value.1)
  {
    var j := FirstDash(tail);
    var country := tail[..j];
    if !IsCountry(country) then None
    else if j == |tail| then
      Some((country, None))
    else
      var variant := tail[j + 1..];
      if !IsVariant(variant) then None
      else
        assert tail == country + "-" + variant;
        Some((country, Some(variant)))
  }

  lemma RegionSpellingOf(rest: string, g: RegionMatch, tail: string)
    requires g.hasR == (rest != [] && rest[0] == 'r')
    requires tail == (if g.hasR then rest[1..] else rest)
    requires tail == g.country + VariantSpelling(g.variant)
    ensures RegionSpelling(g) == rest
  {
    if g.hasR {
      assert rest == [rest[0]] + rest[1..];
    }
  }

  /** Scans what follows the first dash: an optional `r`, the country, and an optional dash and variant. */
  function ScanRegion(rest: string): (r: Option<RegionMatch>)
    ensures r.Some? ==> RegionWellFormed(r.value) && RegionSpelling(r.value) == rest
  {
    var hasR := rest != [] && rest[0] == 'r';
    var tail := if hasR then rest[1..] else rest;
    var scanned := ScanCountry(tail);
    if scanned.None? then None
    else
      var g := RegionMatch(hasR, scanned.value.0, scanned.value.1);
      RegionSpellingOf(rest, g, tail);
      Some(g)
  }

  /** A string cut at its first dash is spelled by the language before it and the region after it. */
  lemma SpellingOf(s: string, i: nat, region: Option<RegionMatch>)
    requires i <= |s|
    requires i == |s| ==> region.None?
    requires i < |s| ==> s[i] == '-' && region.Some? && RegionSpelling(region.value) == s[i + 1..]
    ensures Spelling(LocaleMatch(s[..i], region)) == s
  {
    if i < |s| {
      assert s == s[..i] + "-" + s[i + 1..];
    }
  }

  /**
   * A deterministic matcher for the pattern.  None of the character classes
   * holds '-', and `r` is not a country character, so the language ends at the
   * first dash, the optional `r` is taken exactly when it is there, and the
   * country ends at the next dash.
   */
  function Scan(s: string): (r: Option<LocaleMatch>)
    ensures r.Some? ==> WellFormed(r.value) && Spelling(r.value) == s
  {
    var i := FirstDash(s);
    var language := s[..i];
    if !IsLanguage(language) then None
    else if i == |s| then
      SpellingOf(s, i, None);
      Some(LocaleMatch(language, None))
    else
      var region := ScanRegion(s[i + 1..]);
      if region.None? then None
      else
        SpellingOf(s, i, region);
        Some(LocaleMatch(language, region))
  }

  /** Lines 226-229 of the Java code: a locale from the three groups, null when group 1 is null. */
  function LocaleOfGroups(language: Option<string>, country: Option<string>, variant: Option<string>): (r: Option<Locale>)
    ensures r.Some? <==> language.Some?
    ensures r.Some? ==> r.value.language == language.value
    ensures r.Some? ==> r.value.country == (if country.Some? then country.value else "")
    ensures r.Some? ==> r.value.variant == (if country.Some? && variant.Some? then variant.value else "")
  {
    if language.None? then None
    else if country.None? then Some(Locale(language.value, "", ""))
    else if variant.None? then Some(Locale(language.value, country.value, ""))
    else Some(Locale(language.value, country.value, variant.value))
  }

  /** Group 3 of a match; None when group 2 does not take part. */
  function CountryGroup(m: LocaleMatch): Option<string> {
    if m.region.Some? then Some(m.region.value.country) else None
  }

  /** Group 5 of a match; None when group 4 does not take part. */
  function VariantGroup(m: LocaleMatch): Option<string> {
    if m.region.Some? then m.region.value.variant else None
  }

  /** The locale built from a well-formed match is valid and formats back to the matched text. */
  lemma LocaleOfMatch(m: LocaleMatch)
    requires WellFormed(m)
    ensures LocaleOfGroups(Some(m.language), CountryGroup(m), VariantGroup(m)).Some?
    ensures ValidLocale(LocaleOfGroups(Some(m.language), CountryGroup(m), VariantGroup(m)).value)
    ensures Spelling(m) ==
            Format(LocaleOfGroups(Some(m.language), CountryGroup(m), VariantGroup(m)).value,
                   m.region.Some? && m.region.value.hasR)
  {
    if m.region.Some? {
      var g := m.region.value;
      assert g.country != "";
      if g.variant.Some? {
        assert g.variant.value != "";
      }
    }
  }

  /**
   * `parseLocaleString`: the locale built from groups 1, 3 and 5 of the full
   * match, or None where the Java code returns null.
   */
  function ParseLocaleString(s: string): (r: Option<Locale>)
    ensures r.Some? ==> ValidLocale(r.value)
    ensures r.Some? ==> s == Format(r.value, false) || s == Format(r.value, true)
  {
    match Scan(s)
    case None => None
    case Some(m) =>
      LocaleOfMatch(m);
      LocaleOfGroups(Some(m.language), CountryGroup(m), VariantGroup(m))
  }

  /** The country scanner finds a country followed by an optional dash and variant. */
  lemma ScanCountryComplete(country: string, variant: Option<string>)
    requires IsCountry(country)
    requires variant.Some? ==> IsVariant(variant.value)
    ensures ScanCountry(country + VariantSpelling(variant)) == Some((country, variant))
  {
    var tail := country + VariantSpelling(variant);
    FirstDashAfter(country, VariantSpelling(variant));
    assert tail[..|country|] == country;
    if variant.Some? {
      var v := variant.value;
      assert tail == country + "-" + v;
      assert tail[|country| + 1..] == v;
    }
  }

  /** The optional `r` is taken exactly when it is there, because the country cannot start with `r`. */
  lemma OptionalR(g: RegionMatch)
    requires IsCountry(g.country)
    ensures var rest := RegionSpelling(g);
            (rest != [] && rest[0] == 'r') == g.hasR
    ensures var rest := RegionSpelling(g);
            (if g.hasR then rest[1..] else rest) == g.country + VariantSpelling(g.variant)
  {
    var c := g.country[0];
    assert IsCountryChar(c);
    assert RegionSpelling(g)[0] == if g.hasR then 'r' else c;
  }

  /** The region scanner finds every well-formed group 2. */
  lemma ScanRegionComplete(g: RegionMatch)
    requires RegionWellFormed(g)
    ensures ScanRegion(RegionSpelling(g)) == Some(g)
  {
    ScanCountryComplete(g.country, g.variant);
    OptionalR(g);
  }

  /** The scanner finds every match of the pattern. */
  lemma ScanComplete(m: LocaleMatch)
    requires WellFormed(m)
    ensures Scan(Spelling(m)) == Some(m)
  {
    var s := Spelling(m);
    var after := match m.region case None => "" case Some(g) => "-" + RegionSpelling(g);
    assert s == m.language + after;
    FirstDashAfter(m.language, after);
    assert s[..|m.language|] == m.language;
    if m.region.Some? {
      assert s[|m.language| + 1..] == RegionSpelling(m.region.value);
      ScanRegionComplete(m.region.value);
    }
  }

  /** The pattern is unambiguous: a string is spelled by at most one match, so the groups do not depend on how the regex engine backtracks. */
  lemma MatchUnambiguous(m1: LocaleMatch, m2: LocaleMatch)
    requires WellFormed(m1) && WellFormed(m2)
    requires Spelling(m1) == Spelling(m2)
    ensures m1 == m2
  {
    ScanComplete(m1);
    ScanComplete(m2);
  }

  /** The result is non-null exactly when the whole string matches the pattern; in particular the null-language branch is never taken. */
  lemma ParseSucceedsIffFullMatch(s: string)
    ensures ParseLocaleString(s).Some? <==> FullMatch(s)
  {
    if FullMatch(s) {
      var m :| WellFormed(m) && Spelling(m) == s;
      ScanComplete(m);
    }
  }

  /** The match the parser finds in `Format(loc, withR)`. */
  function MatchOf(loc: Locale, withR: bool): LocaleMatch {
    if loc.country == "" then LocaleMatch(loc.language, None)
    else LocaleMatch(loc.language, Some(RegionMatch(withR, loc.country,
                                                    if loc.variant == "" then None else Some(loc.variant))))
  }

  /** Round trip: `l`, `l-c`, `l-rc` and `l-c-v` (and `l-rc-v`) parse back to their components. */
  lemma ParseFormat(loc: Locale, withR: bool)
    requires ValidLocale(loc)
    ensures ParseLocaleString(Format(loc, withR)) == Some(loc)
  {
    var m := MatchOf(loc, withR);
    assert Spelling(m) == Format(loc, withR);
    ScanComplete(m);
  }

  /** Every character of an accepted string is in `[a-zA-Z0-9_-]`. */
  predicate InAlphabet(s: string) {
    forall i :: 0 <= i < |s| ==> IsWordChar(s[i]) || s[i] == '-'
  }

  lemma SpellingInAlphabet(m: LocaleMatch)
    requires WellFormed(m)
    ensures InAlphabet(Spelling(m))
  {
    if m.region.Some? {
      var g := m.region.value;
      assert InAlphabet(VariantSpelling(g.variant));
      assert InAlphabet(RegionSpelling(g));
    }
  }

  /** A string holding any character other than `[a-zA-Z0-9_-]` is rejected, wherever that character sits. */
  lemma RejectsForeignChar(s: string, i: nat)
    requires i < |s| && !IsWordChar(s[i]) && s[i] != '-'
    ensures ParseLocaleString(s) == None
  {
    if Scan(s).Some? {
      SpellingInAlphabet(Scan(s).value);
    }
  }

  /** A bare language and a language with a country. */
  lemma ParseExamples()
    ensures ParseLocaleString("en") == Some(Locale("en", "", ""))
    ensures ParseLocaleString("en-US") == Some(Locale("en", "US", ""))
  {
    assert Format(Locale("en", "", ""), false) == "en";
    ParseFormat(Locale("en", "", ""), false);
    assert Format(Locale("en", "US", ""), false) == "en-US";
    ParseFormat(Locale("en", "US", ""), false);
  }

  /** Strings with no valid language are ignored. */
  lemma RejectLanguageExamples()
    ensures ParseLocaleString("") == None
    ensures ParseLocaleString("english") == None
  {
    FirstDashAfter("english", "");
    assert "english" + "" == "english";
  }

  /** A lower-case country is not a country. */
  lemma RejectCountryExample()
    ensures ParseLocaleString("en-us") == None
  {
    FirstDashAfter("en", "-us");
    assert "en" + "-us" == "en-us";
    assert "en-us"[..2] == "en" && "en-us"[3..] == "us";
    FirstDashAfter("us", "");
    assert "us" + "" == "us";
  }

  /** A dash must be followed by a variant of at least one character. */
  lemma RejectVariantExample()
    ensures ParseLocaleString("en-US-") == None
  {
    FirstDashAfter("en", "-US-");
    assert "en" + "-US-" == "en-US-";
    assert "en-US-"[..2] == "en" && "en-US-"[3..] == "US-";
    FirstDashAfter("US", "-");
    assert "US" + "-" == "US-";
    assert "US-"[..2] == "US" && "US-"[3..] == "";
  }
}
