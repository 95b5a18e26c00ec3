/** The language-code and jurisdiction rules of the i18n utilities: redirect
    aliases of a Django language code, normalisation of legacy codes, table
    lookups with defaults, jurisdiction names, the .po to .mo path rewrite and
    the choice of the mostly translated Deeds & UX languages. */
module I18nUtils {
  import opened Common
  import opened Text
  import opened Ordering

  // ---------------------------------------------------------------------
  // Redirect aliases of a Django language code
  // ---------------------------------------------------------------------

  /** The separators tried, in order. */
  const Separators: seq<char> := ['-', '@', '_']

  /** The codes the redirect loop processes: the legacy codes listed for the
      code, followed by the code itself. */
  function ProcessedCodes(code: string, redirects: map<string, seq<string>>): seq<string> {
    (if code in redirects then redirects[code] else []) + [code]
  }

  /** For a separator present in c: c with every part after the first
      upper-cased, then c with every part after the first title-cased. */
  function SeparatorVariants(c: string, sep: char): seq<string> {
    if sep in c then
      var parts := Split(c, sep);
      [Join(sep, [parts[0]] + UpperAll(parts[1..])), Join(sep, [parts[0]] + TitleAll(parts[1..]))]
    else []
  }

  /** The separator variants of c for the separators seps, in order. */
  function VariantsFor(c: string, seps: seq<char>): seq<string> {
    if |seps| == 0 then []
    else VariantsFor(c, seps[..|seps| - 1]) + SeparatorVariants(c, seps[|seps| - 1])
  }

  /** Everything the loop appends for one processed code. */
  function Variants(c: string): seq<string> {
    [c, Upper(c)] + VariantsFor(c, Separators)
  }

  /** Everything the loop appends for the codes, in order. */
  function Candidates(codes: seq<string>): seq<string> {
    if |codes| == 0 then []
    else Candidates(codes[..|codes| - 1]) + Variants(codes[|codes| - 1])
  }

  /** The first code, in processing order, that is not lower-case. */
  function FirstNotLowercase(codes: seq<string>): Option<string> {
    if |codes| == 0 then None
    else
      match FirstNotLowercase(codes[..|codes| - 1])
      case Some(c) => Some(c)
      case None => if IsLowercase(codes[|codes| - 1]) then None else Some(codes[|codes| - 1])
  }

  /** FirstNotLowercase finds a code that is not lower-case, and finds none
      exactly when every code is lower-case. */
  lemma {:induction false} FirstNotLowercaseMeaning(codes: seq<string>)
    ensures var r := FirstNotLowercase(codes);
            && (r.Some? ==> r.value in codes && !IsLowercase(r.value))
            && (r.None? <==> forall c | c in codes :: IsLowercase(c))
  {
    if |codes| > 0 {
      var init := codes[..|codes| - 1];
      FirstNotLowercaseMeaning(init);
      assert codes == init + [codes[|codes| - 1]];
    }
  }

  /** A candidate list holds exactly the variants of the processed codes. */
  lemma {:induction false} CandidatesAreVariants(codes: seq<string>)
    ensures forall y :: y in Candidates(codes) <==> exists c :: c in codes && y in Variants(c)
  {
    if |codes| > 0 {
      var init := codes[..|codes| - 1];
      CandidatesAreVariants(init);
      assert codes == init + [codes[|codes| - 1]];
    }
  }

  /** map_django_to_redirects_language_codes as a specification: the
      distinct candidates, sorted, without the code itself; the assertion
      that every processed code is lower-case becomes the Failure case. */
  function RedirectCodes(code: string, redirects: map<string, seq<string>>): (r: Result<seq<string>, string>)
    ensures r.Failure? ==> r.error in ProcessedCodes(code, redirects) && !IsLowercase(r.error)
    ensures r.Success? ==> StrictlySorted(r.value) && code !in r.value
  {
    var processed := ProcessedCodes(code, redirects);
    FirstNotLowercaseMeaning(processed);
    match FirstNotLowercase(processed)
    case Some(bad) => Failure(bad)
    case None =>
      var sorted := SortedDistinct(Candidates(processed));
      assert code in sorted by {
        CandidatesAreVariants(processed);
        assert code in Variants(code);
      }
      RemoveSorted(sorted, code);
      Success(Remove(sorted, code))
  }

  /** What the redirect list is: it fails exactly when a processed code is
      not lower-case, naming that code; otherwise it is strictly sorted, never
      holds the code itself, and holds exactly the other variants of the
      processed codes. */
  lemma RedirectCodesMeaning(code: string, redirects: map<string, seq<string>>)
    ensures var r := RedirectCodes(code, redirects);
            && (r.Failure? <==> exists c :: c in ProcessedCodes(code, redirects) && !IsLowercase(c))
            && (r.Failure? ==> r.error in ProcessedCodes(code, redirects) && !IsLowercase(r.error))
            && (r.Success? ==> StrictlySorted(r.value) && code !in r.value)
            && (r.Success? ==> forall y :: y in r.value <==>
                  y != code && exists c :: c in ProcessedCodes(code, redirects) && y in Variants(c))
  {
    var processed := ProcessedCodes(code, redirects);
    FirstNotLowercaseMeaning(processed);
    if FirstNotLowercase(processed).None? {
      CandidatesAreVariants(processed);
      assert code in Variants(code);
      RemoveSorted(SortedDistinct(Candidates(processed)), code);
    }
  }

  /** The upper-case form of the code is among its redirects whenever it differs. */
  lemma RedirectsContainUppercase(code: string, redirects: map<string, seq<string>>)
    requires RedirectCodes(code, redirects).Success?
    requires Upper(code) != code
    ensures Upper(code) in RedirectCodes(code, redirects).value
  {
    RedirectCodesMeaning(code, redirects);
    assert code in ProcessedCodes(code, redirects);
    assert Upper(code) in Variants(code);
  }

  lemma {:induction false} VariantsForHas(c: string, seps: seq<char>, k: nat)
    requires k < |seps|
    ensures forall v | v in SeparatorVariants(c, seps[k]) :: v in VariantsFor(c, seps)
  {
    if k < |seps| - 1 {
      VariantsForHas(c, seps[..|seps| - 1], k);
    }
  }

  /** For each separator present in a processed code, the variants with the
      later parts upper-cased and title-cased are among the redirects (unless
      that variant is the code itself). */
  lemma RedirectsContainSeparatorVariants(code: string, redirects: map<string, seq<string>>, c: string, sep: char)
    requires RedirectCodes(code, redirects).Success?
    requires c in ProcessedCodes(code, redirects) && sep in Separators && sep in c
    ensures var parts := Split(c, sep);
            var upper := Join(sep, [parts[0]] + UpperAll(parts[1..]));
            var title := Join(sep, [parts[0]] + TitleAll(parts[1..]));
            (upper != code ==> upper in RedirectCodes(code, redirects).value) &&
            (title != code ==> title in RedirectCodes(code, redirects).value)
  {
    RedirectCodesMeaning(code, redirects);
    var k :| 0 <= k < |Separators| && Separators[k] == sep;
    VariantsForHas(c, Separators, k);
  }

  /** Every variant of a lower-case code lower-cases back to the code. */
  lemma VariantsLowerToCode(c: string)
    requires IsLowercase(c)
    ensures forall v | v in Variants(c) :: Lower(v) == c
  {
    LowerOfCaseChanges(c);
    forall v | v in VariantsFor(c, Separators) ensures Lower(v) == c {
      VariantsForIn(c, Separators, v);
      var sep :| sep in Separators && v in SeparatorVariants(c, sep);
      SeparatorVariantsLower(c, sep);
    }
  }

  /** The separator variants of a lower-case code lower-case back to it. */
  lemma SeparatorVariantsLower(c: string, sep: char)
    requires IsLowercase(c) && !IsLetter(sep)
    ensures forall v | v in SeparatorVariants(c, sep) :: Lower(v) == c
  {
    if sep in c {
      var parts := Split(c, sep);
      SplitOfLowercase(c, sep);
      JoinSplit(c, sep);
      var upper := [parts[0]] + UpperAll(parts[1..]);
      var title := [parts[0]] + TitleAll(parts[1..]);
      LowerJoin(sep, upper);
      LowerJoin(sep, title);
      forall k | 0 <= k < |parts| ensures LowerAll(upper)[k] == parts[k] && LowerAll(title)[k] == parts[k] {
        assert parts[k] in parts;
        LowerOfCaseChanges(parts[k]);
      }
      assert LowerAll(upper) == parts;
      assert LowerAll(title) == parts;
    }
  }

  lemma {:induction false} VariantsForIn(c: string, seps: seq<char>, v: string)
    requires v in VariantsFor(c, seps)
    ensures exists sep :: sep in seps && v in SeparatorVariants(c, sep)
  {
    var init := seps[..|seps| - 1];
    if v in VariantsFor(c, init) {
      VariantsForIn(c, init, v);
      var sep :| sep in init && v in SeparatorVariants(c, sep);
      assert sep in seps;
    } else {
      assert seps[|seps| - 1] in seps;
    }
  }

  /** The inner loop over the separators '-', '@' and '_': for each one
      present in c, append the upper-cased and the title-cased variant. */
  method AppendSeparatorVariants(c: string, codes: seq<string>) returns (r: seq<string>)
    ensures r == codes + VariantsFor(c, Separators)
  {
    r := codes;
    var j := 0;
    while j < |Separators|
      invariant 0 <= j <= |Separators|
      invariant r == codes + VariantsFor(c, Separators[..j])
    {
      r := AppendSeparatorVariant(c, Separators[j], r);
      VariantsForStep(c, Separators, j);
      j := j + 1;
    }
    assert Separators[..j] == Separators;
  }

  /** The body of the inner loop for one separator. */
  method AppendSeparatorVariant(c: string, sep: char, codes: seq<string>) returns (r: seq<string>)
    ensures r == codes + SeparatorVariants(c, sep)
  {
    r := codes;
    if sep in c {
      var parts := Split(c, sep);
      r := r + [Join(sep, [parts[0]] + UpperAll(parts[1..]))];
      r := r + [Join(sep, [parts[0]] + TitleAll(parts[1..]))];
    }
  }

  lemma VariantsForStep(c: string, seps: seq<char>, j: nat)
    requires j < |seps|
    ensures VariantsFor(c, seps[..j + 1]) == VariantsFor(c, seps[..j]) + SeparatorVariants(c, seps[j])
  {
    assert seps[..j + 1][..j] == seps[..j];
  }

  /** One pass of the outer loop for a lower-case code: the code, its
      upper-case form, then its separator variants. */
  method AppendVariants(c: string, codes: seq<string>) returns (r: seq<string>)
    ensures r == codes + Variants(c)
  {
    r := codes + [c, Upper(c)];
    r := AppendSeparatorVariants(c, r);
  }

  /** The method the source runs: nested loops append the candidates, then
      the list is sorted without duplicates and the code is removed.
      (In the source the code is appended to the list stored in the table
      itself; the set and sort make that side effect invisible in the result,
      so the tables are treated as constants here.) */
  method MapDjangoToRedirects(code: string, redirects: map<string, seq<string>>)
    returns (r: Result<seq<string>, string>)
    ensures r == RedirectCodes(code, redirects)
  {
    var legacyCodes := if code in redirects then redirects[code] else [];
    legacyCodes := legacyCodes + [code];
    assert legacyCodes == ProcessedCodes(code, redirects);
    var redirectCodes: seq<string> := [];
    var i := 0;
    while i < |legacyCodes|
      invariant 0 <= i <= |legacyCodes|
      invariant FirstNotLowercase(legacyCodes[..i]) == None
      invariant redirectCodes == Candidates(legacyCodes[..i])
    {
      var c := legacyCodes[i];
      ProcessedPrefixStep(legacyCodes, i);
      if Lower(c) != c {
        FirstNotLowercaseExtends(legacyCodes, i + 1);
        return Failure(c);
      }
      redirectCodes := AppendVariants(c, redirectCodes);
      i := i + 1;
    }
    assert legacyCodes[..i] == legacyCodes;
    assert FirstNotLowercase(ProcessedCodes(code, redirects)) == None;
    var sorted := SortedDistinct(redirectCodes);
    r := Success(Remove(sorted, code));
  }

  /** Processing one more code: it is appended to the candidates, and it is
      the first code that is not lower-case when it is not and no earlier
      one was. */
  lemma ProcessedPrefixStep(codes: seq<string>, i: nat)
    requires i < |codes| && FirstNotLowercase(codes[..i]) == None
    ensures Candidates(codes[..i + 1]) == Candidates(codes[..i]) + Variants(codes[i])
    ensures FirstNotLowercase(codes[..i + 1]) == if IsLowercase(codes[i]) then None else Some(codes[i])
  {
    assert codes[..i + 1][..i] == codes[..i];
  }

  /** Once a prefix holds a code that is not lower-case, the whole list
      reports that same code. */
  lemma {:induction false} FirstNotLowercaseExtends(codes: seq<string>, k: nat)
    requires k <= |codes| && FirstNotLowercase(codes[..k]).Some?
    ensures FirstNotLowercase(codes) == FirstNotLowercase(codes[..k])
  {
    if k < |codes| {
      assert codes[..|codes| - 1][..k] == codes[..k];
      FirstNotLowercaseExtends(codes[..|codes| - 1], k);
    } else {
      assert codes[..k] == codes;
    }
  }

  /** [c.lower() for c in codes if c.lower() != code] */
  function LowerFiltered(codes: seq<string>, code: string): (r: seq<string>)
    ensures forall y :: y in r <==> y != code && exists c :: c in codes && Lower(c) == y
  {
    if |codes| == 0 then []
    else
      assert forall c | c in codes :: c == codes[0] || c in codes[1..] by {
        assert codes == [codes[0]] + codes[1..];
      }
      (if Lower(codes[0]) != code then [Lower(codes[0])] else []) + LowerFiltered(codes[1..], code)
  }

  /** map_django_to_redirects_language_codes_lowercase */
  function RedirectCodesLowercase(code: string, redirects: map<string, seq<string>>): (r: Result<seq<string>, string>)
    ensures r.Failure? <==> RedirectCodes(code, redirects).Failure?
    ensures r.Success? ==> StrictlySorted(r.value) && code !in r.value
    ensures r.Success? ==> forall y | y in r.value :: IsLowercase(y)
  {
    match RedirectCodes(code, redirects)
    case Failure(bad) => Failure(bad)
    case Success(codes) =>
      var lowered := LowerFiltered(codes, code);
      assert forall y | y in lowered :: IsLowercase(y) by {
        forall y | y in lowered ensures IsLowercase(y) {
          var c :| c in codes && Lower(c) == y;
          LowerOfCaseChanges(c);
        }
      }
      Success(SortedDistinct(lowered))
  }

  /** The lower-case redirects are exactly the legacy codes listed for the
      code, other than the code itself: every generated variant lower-cases
      back to the code it came from. */
  lemma LowercaseRedirectsAreLegacyCodes(code: string, redirects: map<string, seq<string>>)
    requires RedirectCodesLowercase(code, redirects).Success?
    ensures forall y :: y in RedirectCodesLowercase(code, redirects).value <==>
              y != code && code in redirects && y in redirects[code]
  {
    RedirectCodesMeaning(code, redirects);
    var processed := ProcessedCodes(code, redirects);
    var codes := RedirectCodes(code, redirects).value;
    var legacy := if code in redirects then redirects[code] else [];
    forall c | c in processed ensures forall v | v in Variants(c) :: Lower(v) == c {
      VariantsLowerToCode(c);
    }
    forall y ensures y in RedirectCodesLowercase(code, redirects).value <==> y != code && y in legacy {
      if y != code && y in legacy {
        assert y in processed;
        assert y in Variants(y);
        LowerOfCaseChanges(y);
        assert y in codes && Lower(y) == y;
      }
      if y in RedirectCodesLowercase(code, redirects).value {
        var c :| c in codes && Lower(c) == y;
        var p :| p in processed && c in Variants(p);
        assert y == p;
      }
    }
  }

  /** A code without an entry in the redirect table has no lower-case redirects. */
  lemma LowercaseRedirectsEmptyWithoutEntry(code: string, redirects: map<string, seq<string>>)
    requires code !in redirects && IsLowercase(code)
    ensures RedirectCodesLowercase(code, redirects) == Success([])
  {
    assert ProcessedCodes(code, redirects) == [code];
    FirstNotLowercaseMeaning([code]);
    LowercaseRedirectsAreLegacyCodes(code, redirects);
    FirstIsMember(RedirectCodesLowercase(code, redirects).value);
  }

  /** Stated without a condition on s so that callers need no branch on
      emptiness (which keeps their proofs small). */
  lemma FirstIsMember(s: seq<string>)
    ensures |s| > 0 ==> s[0] in s
  {
  }

  // ---------------------------------------------------------------------
  // Legacy codes, Transifex codes and jurisdiction defaults
  // ---------------------------------------------------------------------

  /** What normalisation does to one character: lower-case it, and turn
      '@' and '_' into '-'. */
  function FoldChar(c: char): char {
    if c == '@' || c == '_' then '-' else LowerChar(c)
  }

  /** Lower-case, then replace '@' and then '_' by '-'. */
  function NormalizeLegacy(code: string): (r: string)
    ensures |r| == |code| && forall i | 0 <= i < |code| :: r[i] == FoldChar(code[i])
  {
    ReplaceChar(ReplaceChar(Lower(code), '@', '-'), '_', '-')
  }

  /** map_legacy_to_django_language_code */
  function LegacyToDjango(code: string, legacyToDjango: map<string, string>): (r: string)
    ensures NormalizeLegacy(code) in legacyToDjango ==> r == legacyToDjango[NormalizeLegacy(code)]
    ensures NormalizeLegacy(code) !in legacyToDjango ==> r == NormalizeLegacy(code)
    ensures NormalizeLegacy(code) !in legacyToDjango ==>
              IsLowercase(r) && '@' !in r && '_' !in r
  {
    var normalized := NormalizeLegacy(code);
    LowercaseIffNoUpper(normalized);
    if normalized in legacyToDjango then legacyToDjango[normalized] else normalized
  }

  /** Two codes that differ only in letter case or in the separators '@', '_'
      and '-'. */
  predicate SameUpToCaseAndSeparators(a: string, b: string) {
    |a| == |b| && forall i | 0 <= i < |a| :: SameCharUpToCaseAndSeparators(a[i], b[i])
  }

  /** The same character, the same letter in either case, or two of the
      separators '-', '@' and '_'. */
  predicate SameCharUpToCaseAndSeparators(x: char, y: char) {
    || x == y
    || (IsLetter(x) && IsLetter(y) && LowerChar(x) == LowerChar(y))
    || (x in "-@_" && y in "-@_")
  }

  /** Folding identifies exactly the characters that are the same up to
      case and separators. */
  lemma FoldCharIdentifies(x: char, y: char)
    ensures FoldChar(x) == FoldChar(y) <==> SameCharUpToCaseAndSeparators(x, y)
  {
  }

  /** Normalisation identifies exactly the codes that differ only in case
      or separators, so such codes map to the same Django code. */
  lemma NormalizeLegacyIdentifies(a: string, b: string, legacyToDjango: map<string, string>)
    ensures NormalizeLegacy(a) == NormalizeLegacy(b) <==> SameUpToCaseAndSeparators(a, b)
    ensures SameUpToCaseAndSeparators(a, b) ==> LegacyToDjango(a, legacyToDjango) == LegacyToDjango(b, legacyToDjango)
  {
    forall i | 0 <= i < |a| && i < |b|
      ensures FoldChar(a[i]) == FoldChar(b[i]) <==> SameCharUpToCaseAndSeparators(a[i], b[i])
    {
      FoldCharIdentifies(a[i], b[i]);
    }
    if SameUpToCaseAndSeparators(a, b) {
      assert NormalizeLegacy(a) == NormalizeLegacy(b);
    }
    if NormalizeLegacy(a) == NormalizeLegacy(b) {
      assert forall i | 0 <= i < |a| :: NormalizeLegacy(a)[i] == NormalizeLegacy(b)[i];
    }
  }

  /** Normalising a normalised code changes nothing. */
  lemma NormalizeLegacyIdempotent(code: string)
    ensures NormalizeLegacy(NormalizeLegacy(code)) == NormalizeLegacy(code)
  {
    var n := NormalizeLegacy(code);
    assert forall i | 0 <= i < |n| :: FoldChar(n[i]) == n[i];
  }

  /** map_django_to_transifex_language_code: the special case from the
      table, or the code unchanged. */
  function DjangoToTransifex(code: string, djangoToTransifex: map<string, string>): (r: string)
    ensures code in djangoToTransifex ==> r == djangoToTransifex[code]
    ensures code !in djangoToTransifex ==> r == code
  {
    if code in djangoToTransifex then djangoToTransifex[code] else code
  }

  /** get_default_language_for_jurisdiction; the optional argument, when
      omitted, is the site's LANGUAGE_CODE. */
  function DefaultLanguageForJurisdiction(
    jurisdiction: string, defaults: map<string, string>, defaultLanguage: Option<string>, settings: Settings): (r: string)
    ensures jurisdiction in defaults ==> r == defaults[jurisdiction]
    ensures jurisdiction !in defaults && defaultLanguage.Some? ==> r == defaultLanguage.value
    ensures jurisdiction !in defaults && defaultLanguage.None? ==> r == settings.languageCode
  {
    var fallback := match defaultLanguage case Some(l) => l case None => settings.languageCode;
    if jurisdiction in defaults then defaults[jurisdiction] else fallback
  }

  // ---------------------------------------------------------------------
  // Jurisdiction names
  // ---------------------------------------------------------------------

  /** The key get_jurisdiction_name looks up.  An absent jurisdiction code
      is the empty string. */
  function JurisdictionKey(category: string, unit: string, version: string, jurisdiction: string): (key: string)
    ensures key == jurisdiction || key in ["=p10", "=l40", "=l30", "<=l25"]
    ensures key == "=p10" <== unit == "zero" || unit == "mark"
    ensures unit != "zero" && unit != "mark" && jurisdiction != "" ==> key == jurisdiction
  {
    if unit == "zero" || unit == "mark" then "=p10"
    else if category == "licenses" && jurisdiction == "" then
      if version == "4.0" then "=l40" else if version == "3.0" then "=l30" else "<=l25"
    else jurisdiction
  }

  /** get_jurisdiction_name */
  function JurisdictionName(category: string, unit: string, version: string, jurisdiction: string,
                            names: map<string, string>): (r: string)
    ensures JurisdictionKey(category, unit, version, jurisdiction) !in names ==> r == "UNDEFINED"
    ensures r != "UNDEFINED" ==> r in names.Values
  {
    var key := JurisdictionKey(category, unit, version, jurisdiction);
    if key in names then names[key] else "UNDEFINED"
  }

  /** CC0 and the Public Domain Mark always get the name of "=p10",
      whatever category, version or jurisdiction is passed. */
  lemma PublicDomainJurisdictionName(category: string, unit: string, version: string, jurisdiction: string,
                                     names: map<string, string>)
    requires unit == "zero" || unit == "mark"
    ensures JurisdictionName(category, unit, version, jurisdiction, names) ==
            (if "=p10" in names then names["=p10"] else "UNDEFINED")
  {
  }

  /** Unported licenses are named by version: 4.0, 3.0, and 2.5 or older. */
  lemma UnportedLicenseJurisdictionName(unit: string, version: string, names: map<string, string>)
    requires unit != "zero" && unit != "mark"
    ensures var key := if version == "4.0" then "=l40" else if version == "3.0" then "=l30" else "<=l25";
            JurisdictionName("licenses", unit, version, "", names) ==
            (if key in names then names[key] else "UNDEFINED")
  {
  }

  /** Ported tools (and anything that is not an unported license) look up
      their own jurisdiction code. */
  lemma PortedJurisdictionName(category: string, unit: string, version: string, jurisdiction: string,
                               names: map<string, string>)
    requires unit != "zero" && unit != "mark"
    requires category != "licenses" || jurisdiction != ""
    ensures JurisdictionName(category, unit, version, jurisdiction, names) ==
            (if jurisdiction in names then names[jurisdiction] else "UNDEFINED")
  {
  }

  // ---------------------------------------------------------------------
  // The .po to .mo path
  // ---------------------------------------------------------------------

  /** re.sub(r"\.po$", ".mo", path) for a path that does not end in a newline. */
  function MoFilePath(poPath: string): (r: string)
    ensures |r| == |poPath|
    ensures EndsWith(poPath, ".po") ==> EndsWith(r, ".mo") && r[..|r| - 3] == poPath[..|poPath| - 3]
    ensures !EndsWith(poPath, ".po") ==> r == poPath
  {
    if EndsWith(poPath, ".po") then poPath[..|poPath| - 3] + ".mo" else poPath
  }

  /** Rewriting a path that already names a .mo file changes nothing. */
  lemma MoFilePathIdempotent(poPath: string)
    ensures MoFilePath(MoFilePath(poPath)) == MoFilePath(poPath)
  {
    if EndsWith(poPath, ".po") {
      var r := MoFilePath(poPath);
      assert r[|r| - 3..] == ".mo";
    }
  }

  /** The pair save_pofile_as_pofile_and_mofile returns once both files are
      written: the .po path and the .mo path. */
  function SavedPaths(poPath: string): (paths: (string, string))
    ensures paths.0 == poPath && |paths.1| == |poPath|
    ensures EndsWith(poPath, ".po") ==> EndsWith(paths.1, ".mo") && paths.1[..|poPath| - 3] == poPath[..|poPath| - 3]
    ensures !EndsWith(poPath, ".po") ==> paths.1 == poPath
  {
    (poPath, MoFilePath(poPath))
  }

  // ---------------------------------------------------------------------
  // Mostly translated Deeds & UX languages
  // ---------------------------------------------------------------------

  /** What load_deeds_ux_translations reads from one Deeds & UX .po file. */
  datatype PoFileStats = PoFileStats(languageCode: string, percentTranslated: int)

  /** A language is kept when it reaches the threshold or is the site default. */
  predicate MostlyTranslated(p: PoFileStats, settings: Settings) {
    p.percentTranslated >= settings.translationThreshold || p.languageCode == settings.languageCode
  }

  /** The languages of the files. */
  function LanguagesOf(pofiles: seq<PoFileStats>): set<string> {
    set p | p in pofiles :: p.languageCode
  }

  /** The languages of the files that are mostly translated. */
  function MostlyTranslatedLanguages(pofiles: seq<PoFileStats>, settings: Settings): set<string> {
    set p | p in pofiles && MostlyTranslated(p, settings) :: p.languageCode
  }

  /** What one more file adds to the languages seen and to the mostly
      translated ones. */
  lemma PoFilesStep(pofiles: seq<PoFileStats>, i: nat, settings: Settings)
    requires i < |pofiles|
    ensures LanguagesOf(pofiles[..i + 1]) == LanguagesOf(pofiles[..i]) + {pofiles[i].languageCode}
    ensures MostlyTranslatedLanguages(pofiles[..i + 1], settings) ==
            MostlyTranslatedLanguages(pofiles[..i], settings) +
            (if MostlyTranslated(pofiles[i], settings) then {pofiles[i].languageCode} else {})
  {
    assert pofiles[..i + 1] == pofiles[..i] + [pofiles[i]];
  }

  /** For the first n files, info holds the percentage of every file that
      no later one of those files for the same language overrides. */
  predicate RecordsLastPercent(info: map<string, int>, pofiles: seq<PoFileStats>, n: nat)
    requires n <= |pofiles|
  {
    forall k | 0 <= k < n ::
      (forall j | k < j < n :: pofiles[j].languageCode != pofiles[k].languageCode) ==>
      pofiles[k].languageCode in info && info[pofiles[k].languageCode] == pofiles[k].percentTranslated
  }

  /** Recording one more file keeps the latest percentage of each language. */
  lemma RecordsLastPercentStep(info: map<string, int>, pofiles: seq<PoFileStats>, i: nat)
    requires i < |pofiles| && RecordsLastPercent(info, pofiles, i)
    ensures RecordsLastPercent(info[pofiles[i].languageCode := pofiles[i].percentTranslated], pofiles, i + 1)
  {
  }

  /** The loop of load_deeds_ux_translations: record each file's percentage
      (a later file for the same language replaces an earlier one) and
      return the sorted, duplicate-free list of mostly translated languages. */
  method LoadDeedsUxTranslations(pofiles: seq<PoFileStats>, settings: Settings)
    returns (info: map<string, int>, mostlyTranslated: seq<string>)
    ensures StrictlySorted(mostlyTranslated)
    ensures forall x :: x in mostlyTranslated <==>
              exists p :: p in pofiles && p.languageCode == x && MostlyTranslated(p, settings)
    ensures info.Keys == set p | p in pofiles :: p.languageCode
    ensures forall k | 0 <= k < |pofiles| ::
              (forall j | k < j < |pofiles| :: pofiles[j].languageCode != pofiles[k].languageCode) ==>
              info[pofiles[k].languageCode] == pofiles[k].percentTranslated
  {
    info := map[];
    var languages: seq<string> := [];
    var i := 0;
    while i < |pofiles|
      invariant 0 <= i <= |pofiles|
      invariant info.Keys == LanguagesOf(pofiles[..i])
      invariant RecordsLastPercent(info, pofiles, i)
      invariant forall x :: x in languages <==> x in MostlyTranslatedLanguages(pofiles[..i], settings)
    {
      var p := pofiles[i];
      PoFilesStep(pofiles, i, settings);
      RecordsLastPercentStep(info, pofiles, i);
      info := info[p.languageCode := p.percentTranslated];
      if p.percentTranslated < settings.translationThreshold && p.languageCode != settings.languageCode {
        i := i + 1;
        continue;
      }
      languages := languages + [p.languageCode];
      i := i + 1;
    }
    assert pofiles[..i] == pofiles;
    mostlyTranslated := SortedDistinct(languages);
  }
}
