/** The marketplace's language catalog and the matcher that resolves a CSV
    language cell against the languages the open form actually offers. */
module Languages {
  import opened Js
  import opened Strings

  /** One selectable language: the form's option value, the option's label in
      every interface language, and extra spellings accepted from a CSV. The
      flag glyph shown next to it is presentation only and is not modelled. */
  datatype Language = Language(mkmValue: nat, mkmLabels: seq<string>, matchStrings: seq<string>)

  /** `mkmLanguages`: the seventeen languages the marketplace knows. */
  const Catalog: seq<Language> := [
    Language(1, ["English", "Anglais", "Englisch", "Inglés", "Inglese"],
      ["en", "en-us", "en_us", "en-gb", "en_gb", "eng"]),
    Language(2, ["French", "Français", "Französisch", "Francés", "Francese"],
      ["fr", "Français"]),
    Language(3, ["German", "Allemand", "Deutsch", "Alemán", "Tedesco"],
      ["de", "Deutsch"]),
    Language(4, ["Spanish", "Espagnol", "Spanisch", "Español", "Spagnolo"],
      ["es", "Español"]),
    Language(5, ["Italian", "Italien", "Italienisch", "Italiano", "Italiano"],
      ["it", "Italiano"]),
    Language(6, ["S-Chinese", "Chinois-S", "S-Chinesisch", "Chino-S", "Cinese-S"],
      ["zhs", "汉语", "zh", "中文", "Chinese", "Simplified Chinese", "zh-hans", "zh_hans", "zh-CN", "zh_CN"]),
    Language(7, ["Japanese", "Japonais", "Japanisch", "Japonés", "Giapponese"],
      ["ja", "日本語", "jp"]),
    Language(8, ["Portuguese", "Portugais", "Portugiesisch", "Portugués", "Portoghese"],
      ["pt", "Português"]),
    Language(9, ["Russian", "Russe", "Russisch", "Ruso", "Russo"],
      ["ru", "Русский"]),
    Language(10, ["Korean", "Coréen", "Koreanisch", "Coreano", "Coreano"],
      ["ko", "한국어", "kr"]),
    Language(11, ["T-Chinese", "Chinois-T", "T-Chinesisch", "Chino-T", "Cinese-T"],
      ["zht", "漢語", "Traditional Chinese", "zh-hant", "zh_hant", "zh-TW", "zh_TW"]),
    Language(12, ["Dutch", "Néerlandais", "Holländisch", "Holandés", "Olandese"],
      ["nl", "Nederlands"]),
    Language(13, ["Polish", "Polonais", "Polnisch", "Polaco", "Polacco"],
      ["pl", "Polski"]),
    Language(14, ["Czech", "Tchèque", "Tschechisch", "Checo", "Ceco"],
      ["cs", "Čeština"]),
    Language(15, ["Hungarian", "Hongrois", "Ungarisch", "Húngaro", "Ungherese"],
      ["hu", "magyar"]),
    Language(16, ["Indonesian", "Indonésien", "Indonesisch", "Indonesio", "Indonesiano"],
      ["id", "Bahasa Indonesia"]),
    Language(17, ["Thai", "Thaï", "Thailändisch", "Tailandés", "Thailandese"],
      ["th", "ไทย"])
  ]

  /** The catalog lists the option values 1..17 in order, so no two entries share one. */
  lemma CatalogValues()
    ensures |Catalog| == 17
    ensures forall i :: 0 <= i < |Catalog| ==> Catalog[i].mkmValue == i + 1
    ensures forall i, j :: 0 <= i < j < |Catalog| ==> Catalog[i].mkmValue != Catalog[j].mkmValue
  {
  }

  /** `n.toString()` for a whole number. */
  function DecimalString(n: nat): (r: string)
    ensures |r| >= 1
    ensures forall k :: 0 <= k < |r| ==> '0' <= r[k] <= '9'
  {
    var digit := ["0", "1", "2", "3", "4", "5", "6", "7", "8", "9"][n % 10];
    if n < 10 then digit else DecimalString(n / 10) + digit
  }

  /** Position of the first catalog entry whose value equals `v`
      (`mkmLanguages.find(({ mkmValue }) => mkmValue === v)`). */
  function FindByValue(v: Num): (r: Option<nat>)
    ensures r.Some? ==> r.value < |Catalog| && v == Finite(Catalog[r.value].mkmValue as real)
    ensures r.None? <==> forall i :: 0 <= i < |Catalog| ==> v != Finite(Catalog[i].mkmValue as real)
  {
    if v.Finite? && v.value.Floor as real == v.value && 1 <= v.value.Floor <= 17 then
      CatalogValues();
      Some(v.value.Floor - 1)
    else
      CatalogValues();
      None
  }

  /** The catalog entries for the option values of the form's language select. */
  function AvailableFrom(rt: Runtime, options: seq<string>): (r: seq<Language>)
    ensures |r| <= |options|
    ensures forall k :: 0 <= k < |r| ==> r[k] in Catalog
  {
    if options == [] then []
    else HeadLanguage(rt, options[0]) + AvailableFrom(rt, options[1..])
  }

  /** The catalog entry of one option value, if its number is in the catalog. */
  function HeadLanguage(rt: Runtime, option: string): (r: seq<Language>)
    ensures |r| <= 1
    ensures r != [] ==> r[0] in Catalog && rt.number(option) == Finite(r[0].mkmValue as real)
  {
    match FindByValue(rt.number(option))
    case Some(i) => [Catalog[i]]
    case None => []
  }

  /** An option whose number is that of catalog entry `i` yields that entry. */
  lemma HeadLanguageFinds(rt: Runtime, option: string, i: nat)
    requires i < |Catalog| && rt.number(option) == Finite(Catalog[i].mkmValue as real)
    ensures HeadLanguage(rt, option) == [Catalog[i]]
  {
    CatalogValues();
  }

  /** `getAvailableLanguages()`: `options` is the option values of the page's
      language select, `None` when the page has none. */
  function AvailableLanguages(rt: Runtime, options: Option<seq<string>>): (r: seq<Language>)
    ensures options.None? || options.value == [] ==> r == []
    ensures options.Some? ==> |r| <= |options.value|
    ensures forall k :: 0 <= k < |r| ==> r[k] in Catalog
  {
    if options.None? || |options.value| == 0 then [] else AvailableFrom(rt, options.value)
  }

  /** An entry is offered exactly when some option value coerces to its number. */
  lemma {:induction false} AvailableMembership(rt: Runtime, options: seq<string>, l: Language)
    ensures l in AvailableFrom(rt, options) <==>
      l in Catalog && exists k :: 0 <= k < |options| && rt.number(options[k]) == Finite(l.mkmValue as real)
  {
    if options != [] {
      AvailableMembership(rt, options[1..], l);
      var head := HeadLanguage(rt, options[0]);
      if l in Catalog && exists k :: 0 <= k < |options| && rt.number(options[k]) == Finite(l.mkmValue as real) {
        var k :| 0 <= k < |options| && rt.number(options[k]) == Finite(l.mkmValue as real);
        if k > 0 {
          assert options[1..][k - 1] == options[k];
        } else {
          var i :| 0 <= i < |Catalog| && Catalog[i] == l;
          HeadLanguageFinds(rt, options[0], i);
        }
      }
      if l in AvailableFrom(rt, options[1..]) {
        var k :| 0 <= k < |options[1..]| && rt.number(options[1..][k]) == Finite(l.mkmValue as real);
        assert options[k + 1] == options[1..][k];
      }
    }
  }

  /** Options are read in page order: the languages of two runs of options
      are those of the first run followed by those of the second. */
  lemma {:induction false} AvailableInOptionOrder(rt: Runtime, xs: seq<string>, ys: seq<string>)
    ensures AvailableFrom(rt, xs + ys) == AvailableFrom(rt, xs) + AvailableFrom(rt, ys)
  {
    if xs == [] {
      assert xs + ys == ys;
    } else {
      var h := HeadLanguage(rt, xs[0]);
      var a, b := AvailableFrom(rt, xs[1..]), AvailableFrom(rt, ys);
      assert (xs + ys)[0] == xs[0];
      assert (xs + ys)[1..] == xs[1..] + ys;
      AvailableInOptionOrder(rt, xs[1..], ys);
      calc {
        AvailableFrom(rt, xs + ys);
        h + AvailableFrom(rt, xs[1..] + ys);
        h + (a + b);
        { assert h + (a + b) == (h + a) + b; }
        (h + a) + b;
        AvailableFrom(rt, xs) + b;
      }
    }
  }

  /** The per-entry test of `matchLanguage`: the input equals, up to
      normalisation, the option value, one of the labels or one of the extra spellings. */
  predicate EntryMatches(rt: Runtime, input: string, l: Language) {
    || Compare(rt, input, DecimalString(l.mkmValue))
    || (exists k :: 0 <= k < |l.mkmLabels| && Compare(rt, input, l.mkmLabels[k]))
    || (exists k :: 0 <= k < |l.matchStrings| && Compare(rt, input, l.matchStrings[k]))
  }

  /** Position of the first entry passing the per-entry test. */
  function FirstMatch(rt: Runtime, input: string, langs: seq<Language>): (r: Option<nat>)
    ensures r.Some? ==> r.value < |langs| && EntryMatches(rt, input, langs[r.value])
    ensures r.Some? ==> forall j :: 0 <= j < r.value ==> !EntryMatches(rt, input, langs[j])
    ensures r.None? <==> forall j :: 0 <= j < |langs| ==> !EntryMatches(rt, input, langs[j])
  {
    if langs == [] then None
    else if EntryMatches(rt, input, langs[0]) then Some(0)
    else match FirstMatch(rt, input, langs[1..])
      case Some(i) => Some(i + 1)
      case None => None
  }

  datatype LanguageMatch = LanguageMatch(matched: bool, data: Language)

  /** `availableLanguages.at(0) ?? mkmLanguages[0]` */
  function Fallback(available: seq<Language>): Language {
    if |available| > 0 then available[0] else Catalog[0]
  }

  /** `matchLanguage(inputLanguage?)` against the languages the page offers. */
  function MatchLanguage(rt: Runtime, available: seq<Language>, input: Option<string>): (r: LanguageMatch)
    ensures r.matched <==>
      StrTruthy(input) && exists i :: 0 <= i < |available| && EntryMatches(rt, input.value, available[i])
    ensures r.matched ==>
      exists i :: 0 <= i < |available| && r.data == available[i]
        && EntryMatches(rt, input.value, available[i])
        && forall j :: 0 <= j < i ==> !EntryMatches(rt, input.value, available[j])
    ensures !r.matched ==> r.data == Fallback(available)
    ensures (forall i :: 0 <= i < |available| ==> available[i] in Catalog) ==> r.data in Catalog
  {
    if !StrTruthy(input) then LanguageMatch(false, Fallback(available))
    else match FirstMatch(rt, input.value, available)
      case Some(i) => LanguageMatch(true, available[i])
      case None => LanguageMatch(false, Fallback(available))
  }

  /** Whatever the page offers, the matcher always answers with a catalog
      entry, and with no language select at all it answers English, unmatched. */
  lemma MatchIsNeverEmpty(rt: Runtime, options: Option<seq<string>>, input: Option<string>)
    ensures MatchLanguage(rt, AvailableLanguages(rt, options), input).data in Catalog
    ensures options.None? ==>
      (MatchLanguage(rt, AvailableLanguages(rt, options), input) == LanguageMatch(false, Catalog[0]))
  {
  }

  /** A regional code such as "zh_TW" picks Traditional over Simplified
      Chinese when the page offers both (shown with an identity fold). */
  lemma RegionalCodeResolves()
    ensures var rt := Runtime(s => s, s => s, s => NaN, n => "", n => "");
      MatchLanguage(rt, [Catalog[5], Catalog[10]], Some("zh_TW")) == LanguageMatch(true, Catalog[10])
  {
    var rt := Runtime(s => s, s => s, s => NaN, n => "", n => "");
    var sc := Catalog[5];
    assert DecimalString(6) == "6";
    assert forall k :: 0 <= k < |sc.mkmLabels| ==> sc.mkmLabels[k] != "zh_TW";
    assert forall k :: 0 <= k < |sc.matchStrings| ==> sc.matchStrings[k] != "zh_TW";
    assert !EntryMatches(rt, "zh_TW", sc);
    var tc := Catalog[10];
    assert tc.matchStrings[6] == "zh_TW";
    assert Compare(rt, "zh_TW", tc.matchStrings[6]);
    assert EntryMatches(rt, "zh_TW", tc);
    assert [sc, tc][1..] == [tc];
    assert FirstMatch(rt, "zh_TW", [tc]) == Some(0);
    assert FirstMatch(rt, "zh_TW", [sc, tc]) == Some(1);
  }
}
