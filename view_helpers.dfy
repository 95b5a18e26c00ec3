/** The helpers the deed and legal code views use to pick the language a
    page is served in, to complete a request path with its language, and
    to name the category of a tool.  They are stated as the view tests pin
    them down. */
module ViewHelpers {
  import opened Common
  import opened Text
  import I18nUtils

  // ---------------------------------------------------------------------
  // Relative paths of deeds and legal codes
  // ---------------------------------------------------------------------

  /** The URL relative to path_start, for a URL below path_start. */
  function RelativeTo(url: string, pathStart: string): (r: string)
    ensures pathStart <= url ==> pathStart + r == url
    ensures !(pathStart <= url) ==> r == url
  {
    if pathStart <= url then url[|pathStart|..] else url
  }

  /** The relative path with its trailing "<kind><code>" replaced by
      "<kind><chosen>"; a path without that ending is left alone. */
  function Relabel(rel: string, kind: string, code: string, chosen: string): (r: string)
    ensures EndsWith(rel, kind + code) ==>
              EndsWith(r, kind + chosen) && r[..|r| - |kind + chosen|] == rel[..|rel| - |kind + code|]
    ensures !EndsWith(rel, kind + code) ==> r == rel
  {
    if EndsWith(rel, kind + code) then rel[..|rel| - |kind + code|] + kind + chosen else rel
  }

  /** The language a deed is served in: the requested one when it is mostly
      translated, else the default language of the jurisdiction when that
      one is, else the site's LANGUAGE_CODE. */
  function DeedLanguage(code: string, languageDefault: string, settings: Settings): (r: string)
    ensures r in settings.languagesMostlyTranslated || r == settings.languageCode
    ensures code in settings.languagesMostlyTranslated ==> r == code
    ensures code !in settings.languagesMostlyTranslated && languageDefault in settings.languagesMostlyTranslated
            ==> r == languageDefault
    ensures code !in settings.languagesMostlyTranslated && languageDefault !in settings.languagesMostlyTranslated
            ==> r == settings.languageCode
  {
    if code in settings.languagesMostlyTranslated then code
    else if languageDefault in settings.languagesMostlyTranslated then languageDefault
    else settings.languageCode
  }

  /** get_deed_rel_path: for a URL below path_start that ends in
      "deed.<code>" past path_start, what lies between the two followed by
      "deed." and the chosen language; any other URL below path_start just
      loses path_start. */
  function DeedRelPath(deedUrl: string, pathStart: string, code: string, languageDefault: string, settings: Settings)
    : (r: string)
    ensures pathStart <= deedUrl && |pathStart| + |"deed." + code| <= |deedUrl| && EndsWith(deedUrl, "deed." + code) ==>
              r == deedUrl[|pathStart|..|deedUrl| - |"deed." + code|] + "deed." + DeedLanguage(code, languageDefault, settings)
    ensures pathStart <= deedUrl && !EndsWith(deedUrl, "deed." + code) ==> r == deedUrl[|pathStart|..]
  {
    RelabelBelow(deedUrl, pathStart, "deed.", code, DeedLanguage(code, languageDefault, settings));
    Relabel(RelativeTo(deedUrl, pathStart), "deed.", code, DeedLanguage(code, languageDefault, settings))
  }

  /** Relabelling the part of a URL below path_start, stated on the URL. */
  lemma RelabelBelow(url: string, pathStart: string, kind: string, code: string, chosen: string)
    ensures var r := Relabel(RelativeTo(url, pathStart), kind, code, chosen);
            && (pathStart <= url && |pathStart| + |kind + code| <= |url| && EndsWith(url, kind + code) ==>
                  r == url[|pathStart|..|url| - |kind + code|] + kind + chosen)
            && (pathStart <= url && !EndsWith(url, kind + code) ==> r == url[|pathStart|..])
  {
    if pathStart <= url {
      var rel := url[|pathStart|..];
      var k := kind + code;
      if |k| <= |rel| {
        assert rel[|rel| - |k|..] == url[|url| - |k|..];
        assert rel[..|rel| - |k|] == url[|pathStart|..|url| - |k|];
      }
    }
  }

  /** The language a legal code is served in: the requested one when the
      document exists in it, else the jurisdiction's default language. */
  function LegalCodeLanguage(code: string, languageDefault: string, legalCodeLanguages: seq<string>): (r: string)
    ensures r == code <== code in legalCodeLanguages
    ensures r != code ==> r == languageDefault
    ensures code !in legalCodeLanguages ==> r == languageDefault
  {
    if code in legalCodeLanguages then code else languageDefault
  }

  /** get_legal_code_rel_path, the same shape with "legalcode." and the
      languages the document exists in. */
  function LegalCodeRelPath(
    legalCodeUrl: string, pathStart: string, code: string, languageDefault: string, legalCodeLanguages: seq<string>)
    : (r: string)
    ensures pathStart <= legalCodeUrl && |pathStart| + |"legalcode." + code| <= |legalCodeUrl|
            && EndsWith(legalCodeUrl, "legalcode." + code) ==>
              r == legalCodeUrl[|pathStart|..|legalCodeUrl| - |"legalcode." + code|] + "legalcode."
                   + LegalCodeLanguage(code, languageDefault, legalCodeLanguages)
    ensures pathStart <= legalCodeUrl && !EndsWith(legalCodeUrl, "legalcode." + code) ==> r == legalCodeUrl[|pathStart|..]
  {
    RelabelBelow(legalCodeUrl, pathStart, "legalcode.", code, LegalCodeLanguage(code, languageDefault, legalCodeLanguages));
    Relabel(RelativeTo(legalCodeUrl, pathStart), "legalcode.", code, LegalCodeLanguage(code, languageDefault, legalCodeLanguages))
  }

  /** For a deed URL below path_start that ends in its own language, the
      relative path keeps everything before "deed." and ends in a language
      that is mostly translated or is the site default; the requested
      language is kept whenever it is mostly translated. */
  lemma DeedRelPathChoice(prefix: string, pathStart: string, code: string, languageDefault: string, settings: Settings)
    ensures var r := DeedRelPath(pathStart + prefix + "deed." + code, pathStart, code, languageDefault, settings);
            var l := DeedLanguage(code, languageDefault, settings);
            && r == prefix + "deed." + l
            && (l in settings.languagesMostlyTranslated || l == settings.languageCode)
            && (code in settings.languagesMostlyTranslated ==> r == prefix + "deed." + code)
  {
    var url := pathStart + prefix + "deed." + code;
    assert pathStart <= url;
    var rel := RelativeTo(url, pathStart);
    assert rel == prefix + "deed." + code by {
      assert pathStart + (prefix + "deed." + code) == url;
    }
    assert EndsWith(rel, "deed." + code) by {
      assert rel[|rel| - |"deed." + code|..] == "deed." + code;
    }
    assert rel[..|rel| - |"deed." + code|] == prefix;
  }

  /** The same for legal codes: the relative path ends in the requested
      language when the document exists in it and in the default
      language otherwise. */
  lemma LegalCodeRelPathChoice(
    prefix: string, pathStart: string, code: string, languageDefault: string, legalCodeLanguages: seq<string>)
    ensures var r := LegalCodeRelPath(pathStart + prefix + "legalcode." + code, pathStart, code, languageDefault, legalCodeLanguages);
            && (code in legalCodeLanguages ==> r == prefix + "legalcode." + code)
            && (code !in legalCodeLanguages ==> r == prefix + "legalcode." + languageDefault)
  {
    var url := pathStart + prefix + "legalcode." + code;
    assert pathStart <= url;
    var rel := RelativeTo(url, pathStart);
    assert rel == prefix + "legalcode." + code by {
      assert pathStart + (prefix + "legalcode." + code) == url;
    }
    assert EndsWith(rel, "legalcode." + code) by {
      assert rel[|rel| - |"legalcode." + code|..] == "legalcode." + code;
    }
    assert rel[..|rel| - |"legalcode." + code|] == prefix;
  }

  // The test URLs below are written as concatenations ("/" + "deed." + "x1")
  // so that the solver matches them against the general lemma above instead
  // of comparing long string literals character by character.

  /** A mostly translated language is served as requested. */
  lemma DeedMostlyTranslatedCode(settings: Settings)
    requires settings.languagesMostlyTranslated == ["x1", "x2"]
    ensures DeedRelPath("/" + "deed." + "x1", "/", "x1", "x2", settings) == "deed." + "x1"
  {
    DeedRelPathChoice("", "/", "x1", "x2", settings);
    assert "/" + "" == "/" && "" + "deed." == "deed.";
  }

  /** A less translated language falls back to the mostly translated
      jurisdiction default. */
  lemma DeedLessTranslatedCode(settings: Settings)
    requires settings.languagesMostlyTranslated == ["x1", "x2"]
    ensures DeedRelPath("/" + "deed." + "x3", "/", "x3", "x2", settings) == "deed." + "x2"
  {
    assert "x3" != "x1" && "x3" != "x2";
    DeedRelPathChoice("", "/", "x3", "x2", settings);
    assert "/" + "" == "/" && "" + "deed." == "deed.";
  }

  /** With nothing mostly translated, LANGUAGE_CODE is used. */
  lemma DeedLessTranslatedDefault(settings: Settings)
    requires settings.languagesMostlyTranslated == [] && settings.languageCode == "x1"
    ensures DeedRelPath("/" + "deed." + "x3", "/", "x3", "x2", settings) == "deed." + "x1"
  {
    DeedRelPathChoice("", "/", "x3", "x2", settings);
    assert "/" + "" == "/" && "" + "deed." == "deed.";
  }

  /** A legal code not available in the requested language is served in
      the default language. */
  lemma LegalCodeFallsBackToDefault(legalCodeLanguages: seq<string>)
    requires legalCodeLanguages == ["en", "es"]
    ensures LegalCodeRelPath("/" + "legalcode." + "xx", "/", "xx", "en", legalCodeLanguages) == "legalcode." + "en"
  {
    assert "xx" != "en" && "xx" != "es";
    LegalCodeRelPathChoice("", "/", "xx", "en", legalCodeLanguages);
    assert "/" + "" == "/" && "" + "legalcode." == "legalcode.";
  }

  // ---------------------------------------------------------------------
  // Request path and language
  // ---------------------------------------------------------------------

  /** The language of a request (the explicit one, else the jurisdiction's
      default language, else LANGUAGE_CODE) and the request path ending in
      ".<language>". */
  function NormalizePathAndLang(
    requestPath: string, jurisdiction: string, code: Option<string>, defaults: map<string, string>, settings: Settings)
    : (r: (string, string))
    ensures code.Some? ==> r.1 == code.value
    ensures code.None? ==> r.1 == I18nUtils.DefaultLanguageForJurisdiction(jurisdiction, defaults, None, settings)
    ensures EndsWith(r.0, "." + r.1)
    ensures r.0 == requestPath || r.0 == requestPath + "." + r.1
    ensures EndsWith(requestPath, "." + r.1) <==> r.0 == requestPath
  {
    var lang := match code
      case Some(c) => c
      case None => I18nUtils.DefaultLanguageForJurisdiction(jurisdiction, defaults, None, settings);
    var path := if EndsWith(requestPath, "." + lang) then requestPath else requestPath + "." + lang;
    assert EndsWith(path, "." + lang) by {
      if path != requestPath {
        assert path[|path| - |"." + lang|..] == "." + lang;
      }
    }
    assert EndsWith(requestPath, "." + lang) <== path == requestPath;
    (path, lang)
  }

  /** Normalising a normalised path with its language changes nothing. */
  lemma NormalizeIdempotent(
    requestPath: string, jurisdiction: string, code: Option<string>, defaults: map<string, string>, settings: Settings)
    ensures var r := NormalizePathAndLang(requestPath, jurisdiction, code, defaults, settings);
            NormalizePathAndLang(r.0, jurisdiction, Some(r.1), defaults, settings) == r
  {
  }

  /** A German-jurisdiction legal code requested without a language gets
      the jurisdiction's default language appended. */
  lemma NormalizeGermanLegalCode(defaults: map<string, string>, settings: Settings)
    requires "de" in defaults && defaults["de"] == "de"
    ensures NormalizePathAndLang("/licenses/by/3.0/de/legalcode", "de", None, defaults, settings)
            == ("/licenses/by/3.0/de/legalcode" + "." + "de", "de")
  {
    var p := "/licenses/by/3.0/de/legalcode";
    assert !EndsWith(p, ".de") by {
      assert p[|p| - 3..] != ".de" by {
        assert p[|p| - 3..][0] == p[|p| - 3] == 'o';
      }
    }
    assert I18nUtils.DefaultLanguageForJurisdiction("de", defaults, None, settings) == "de";
  }

  // ---------------------------------------------------------------------
  // Category and title
  // ---------------------------------------------------------------------

  /** The category shown for a page: the explicit one, else the tool's,
      else "licenses"; its title from the category table.  A category the
      table does not know is a configuration error. */
  function CategoryAndTitle(category: Option<string>, toolCategory: Option<string>): (r: Result<(string, string), string>)
    ensures r.Success? ==> (r.value.0 == "licenses" && r.value.1 == "Licenses")
                           || (r.value.0 == "publicdomain" && r.value.1 == "Public Domain")
    ensures r.Failure? ==> r.error != "licenses" && r.error != "publicdomain"
    ensures category.Some? ==> (if r.Success? then r.value.0 else r.error) == category.value
  {
    var c := match category
      case Some(c) => c
      case None => match toolCategory case Some(t) => t case None => "licenses";
    if c == "licenses" then Success((c, "Licenses"))
    else if c == "publicdomain" then Success((c, "Public Domain"))
    else Failure(c)
  }

  /** The chosen category is the explicit one, else the tool's, else
      "licenses"; it succeeds exactly for the two known categories, each
      with its own title. */
  lemma CategoryChoice(category: Option<string>, toolCategory: Option<string>)
    ensures var r := CategoryAndTitle(category, toolCategory);
            var c := if category.Some? then category.value
                     else if toolCategory.Some? then toolCategory.value else "licenses";
            && (r.Success? <==> c == "licenses" || c == "publicdomain")
            && (r.Success? ==> r.value.0 == c)
            && (r.Success? ==> (r.value.1 == "Licenses" <==> c == "licenses"))
            && (r.Success? ==> (r.value.1 == "Public Domain" <==> c == "publicdomain"))
            && (r.Failure? ==> r.error == c)
  {
  }

  /** The cases the tests state. */
  lemma CategoryExamples()
    ensures CategoryAndTitle(None, None) == Success(("licenses", "Licenses"))
    ensures CategoryAndTitle(None, Some("licenses")) == Success(("licenses", "Licenses"))
    ensures CategoryAndTitle(Some("publicdomain"), None) == Success(("publicdomain", "Public Domain"))
  {
  }
}
