/** The deed-text oracle of the view tests: a table from strings that may
    appear on a deed page to the condition under which a tool's deed shows
    them, and the split of the table into the strings expected and not
    expected for one tool. */
module DeedStrings {

  /** The attributes of a tool the conditions read.  A tool without a
      jurisdiction has the empty jurisdiction code. */
  datatype Tool = Tool(
    unit: string,
    requiresAttribution: bool,
    requiresShareAlike: bool,
    permitsDerivativeWorks: bool,
    prohibitsCommercialUse: bool,
    jurisdictionCode: string,
    superseded: bool
  )

  /** The predicates of the table, named by what they test. */
  datatype Condition =
    | Never
    | Always
    | LicenseUnit               // unit in UNITS_LICENSES
    | AttributionLicense        // requires_attribution and a license unit
    | ShareAlike                // requires_share_alike
    | DerivativesLicense        // permits_derivative_works and a license unit
    | NoDerivatives             // not permits_derivative_works
    | CommercialLicense         // not prohibits_commercial_use and a license unit
    | NonCommercialLicense      // prohibits_commercial_use and a license unit
    | Igo                       // jurisdiction_code == "igo"
    | Superseded                // superseded
    | PortedLicense             // a jurisdiction other than "", "es", "igo", and a license unit

  /** Whether the condition holds for the tool; unitsLicenses is the set of
      license units the tool models define. */
  predicate Holds(c: Condition, t: Tool, unitsLicenses: set<string>) {
    match c
    case Never => false
    case Always => true
    case LicenseUnit => t.unit in unitsLicenses
    case AttributionLicense => t.requiresAttribution && t.unit in unitsLicenses
    case ShareAlike => t.requiresShareAlike
    case DerivativesLicense => t.permitsDerivativeWorks && t.unit in unitsLicenses
    case NoDerivatives => !t.permitsDerivativeWorks
    case CommercialLicense => !t.prohibitsCommercialUse && t.unit in unitsLicenses
    case NonCommercialLicense => t.prohibitsCommercialUse && t.unit in unitsLicenses
    case Igo => t.jurisdictionCode == "igo"
    case Superseded => t.superseded
    case PortedLicense =>
      t.jurisdictionCode != "" && t.jurisdictionCode !in ["", "es", "igo"] && t.unit in unitsLicenses
  }

  /** The keys of strings_to_lambdas, one constructor per string. */
  datatype DeedText =
    | InvalidVariable
    | FreeTo
    | PublicDomainElements
    | CannotRevoke
    | AppropriateCredit
    | ReasonableManner
    | NeverExpected
    | DistributeContributions
    | ShareAlikeText
    | SameLicense
    | AsTheOriginal
    | AdaptText
    | Remix
    | MayNotDistributeModified
    | NoDerivativesText
    | FreeCulturalWorks
    | EvenCommercially
    | MayNotUseFor
    | CommercialPurposes
    | IntergovernmentalOrganization
    | NewerVersionAvailable
    | WorldwideLink

  /** The string each key stands for (long strings are written in pieces). */
  function Wording(d: DeedText): string {
    match d
    case InvalidVariable => "INVALID_VARIABLE"
    case FreeTo => "You are free to:"
    case PublicDomainElements => "You do not have to comply with the " + "license for elements of the material in " + "the public domain"
    case CannotRevoke => "The licensor cannot revoke these " + "freedoms as long as you follow the " + "license terms."
    case AppropriateCredit => "appropriate credit"
    case ReasonableManner => "You may do so in any reasonable manner, " + "but not in any way that suggests the " + "licensor endorses you or your use."
    case NeverExpected => "We never expect to see this string in a " + "license deed."
    case DistributeContributions => "you must distribute your contributions " + "under the"
    case ShareAlikeText => "ShareAlike"
    case SameLicense => "same license"
    case AsTheOriginal => "as the original."
    case AdaptText => "Adapt"
    case Remix => "remix, transform, and build upon the " + "material"
    case MayNotDistributeModified => "you may not distribute the modified " + "material."
    case NoDerivativesText => "NoDerivatives"
    case FreeCulturalWorks => "This license is acceptable for Free " + "Cultural Works."
    case EvenCommercially => "for any purpose, even commercially."
    case MayNotUseFor => "You may not use the material for"
    case CommercialPurposes => "commercial purposes"
    case IntergovernmentalOrganization => "When the Licensor is an " + "intergovernmental organization"
    case NewerVersionAvailable => "of this license is available. You " + "should use it for new works,"
    case WorldwideLink => "href=\"/worldwide/"
  }

  type Table = seq<(DeedText, Condition)>

  /** strings_to_lambdas, in the dictionary's key order. */
  const StringsToConditions: Table := [
    (InvalidVariable, Never),
    (FreeTo, LicenseUnit),
    (PublicDomainElements, LicenseUnit),
    (CannotRevoke, Always),
    (AppropriateCredit, AttributionLicense),
    (ReasonableManner, AttributionLicense),
    (NeverExpected, Never),
    (DistributeContributions, ShareAlike),
    (ShareAlikeText, ShareAlike),
    (SameLicense, ShareAlike),
    (AsTheOriginal, ShareAlike),
    (AdaptText, DerivativesLicense),
    (Remix, DerivativesLicense),
    (MayNotDistributeModified, NoDerivatives),
    (NoDerivativesText, NoDerivatives),
    (FreeCulturalWorks, Never),
    (EvenCommercially, CommercialLicense),
    (MayNotUseFor, NonCommercialLicense),
    (CommercialPurposes, NonCommercialLicense),
    (IntergovernmentalOrganization, Igo),
    (NewerVersionAvailable, Superseded),
    (WorldwideLink, PortedLicense)
  ]

  function Keys(table: Table): (keys: seq<DeedText>)
    ensures |keys| == |table| && forall i | 0 <= i < |table| :: keys[i] == table[i].0
  {
    seq(|table|, i requires 0 <= i < |table| => table[i].0)
  }

  /** A dictionary holds each key once. */
  predicate DistinctKeys(table: Table) {
    forall i, j | 0 <= i < j < |table| :: table[i].0 != table[j].0
  }

  /** [key for key in table if cond(key)(tool) == wanted], in key order. */
  function Select(table: Table, t: Tool, unitsLicenses: set<string>, wanted: bool): seq<DeedText> {
    if |table| == 0 then []
    else
      (if Holds(table[0].1, t, unitsLicenses) == wanted then [table[0].0] else [])
      + Select(table[1..], t, unitsLicenses, wanted)
  }

  function WordingAll(keys: seq<DeedText>): (strings: seq<string>)
    ensures |strings| == |keys| && forall i | 0 <= i < |keys| :: strings[i] == Wording(keys[i])
  {
    seq(|keys|, i requires 0 <= i < |keys| => Wording(keys[i]))
  }

  lemma WordingAllMember(k: DeedText, keys: seq<DeedText>)
    requires k in keys
    ensures Wording(k) in WordingAll(keys)
  {
    var j :| 0 <= j < |keys| && keys[j] == k;
    assert WordingAll(keys)[j] == Wording(k);
  }

  /** expected_and_unexpected_strings_for_tool */
  function ExpectedAndUnexpected(t: Tool, unitsLicenses: set<string>): (lists: (seq<string>, seq<string>))
    ensures |lists.0| + |lists.1| == |StringsToConditions|
  {
    SelectPartitions(StringsToConditions, t, unitsLicenses);
    (WordingAll(Select(StringsToConditions, t, unitsLicenses, true)),
     WordingAll(Select(StringsToConditions, t, unitsLicenses, false)))
  }

  /** a is a (not necessarily contiguous) subsequence of b. */
  predicate Subsequence<T(==)>(a: seq<T>, b: seq<T>)
    decreases |b|
  {
    |a| == 0 || (|b| > 0 && ((a[0] == b[0] && Subsequence(a[1..], b[1..])) || Subsequence(a, b[1..])))
  }

  /** Every key lands in exactly one of the two lists: together they are
      the keys, counted with multiplicity. */
  lemma {:induction false} SelectPartitions(table: Table, t: Tool, unitsLicenses: set<string>)
    ensures multiset(Select(table, t, unitsLicenses, true)) + multiset(Select(table, t, unitsLicenses, false))
            == multiset(Keys(table))
    ensures |Select(table, t, unitsLicenses, true)| + |Select(table, t, unitsLicenses, false)| == |table|
  {
    if |table| > 0 {
      var k := table[0].0;
      var yes := Select(table[1..], t, unitsLicenses, true);
      var no := Select(table[1..], t, unitsLicenses, false);
      SelectPartitions(table[1..], t, unitsLicenses);
      assert Keys(table) == [k] + Keys(table[1..]);
      if Holds(table[0].1, t, unitsLicenses) {
        assert Select(table, t, unitsLicenses, true) == [k] + yes;
        assert Select(table, t, unitsLicenses, false) == no;
      } else {
        assert Select(table, t, unitsLicenses, true) == yes;
        assert Select(table, t, unitsLicenses, false) == [k] + no;
      }
    }
  }

  /** Each list keeps the keys in the dictionary's order. */
  lemma {:induction false} SelectKeepsOrder(table: Table, t: Tool, unitsLicenses: set<string>, wanted: bool)
    ensures Subsequence(Select(table, t, unitsLicenses, wanted), Keys(table))
  {
    if |table| > 0 {
      var rest := Select(table[1..], t, unitsLicenses, wanted);
      SelectKeepsOrder(table[1..], t, unitsLicenses, wanted);
      assert Keys(table)[1..] == Keys(table[1..]);
      if Holds(table[0].1, t, unitsLicenses) != wanted {
        assert Select(table, t, unitsLicenses, wanted) == rest;
        SubsequenceOfTail(rest, Keys(table));
      } else {
        assert Select(table, t, unitsLicenses, wanted) == [table[0].0] + rest;
        assert ([table[0].0] + rest)[1..] == rest;
      }
    }
  }

  lemma SubsequenceOfTail<T>(a: seq<T>, b: seq<T>)
    requires |b| > 0 && Subsequence(a, b[1..])
    ensures Subsequence(a, b)
  {
  }

  /** Only keys of the table are ever selected. */
  lemma {:induction false} SelectFromKeys(table: Table, t: Tool, unitsLicenses: set<string>, wanted: bool)
    ensures forall k | k in Select(table, t, unitsLicenses, wanted) :: exists i :: 0 <= i < |table| && table[i].0 == k
  {
    if |table| > 0 {
      var rest := Select(table[1..], t, unitsLicenses, wanted);
      SelectFromKeys(table[1..], t, unitsLicenses, wanted);
      forall k | k in Select(table, t, unitsLicenses, wanted) ensures exists i :: 0 <= i < |table| && table[i].0 == k {
        if k != table[0].0 {
          assert k in rest;
          var i :| 0 <= i < |table[1..]| && table[1..][i].0 == k;
          assert table[i + 1].0 == k;
        }
      }
    }
  }

  /** With distinct keys, a key is in the selected list exactly when its
      condition evaluates to the wanted value. */
  lemma {:induction false} SelectMembers(table: Table, t: Tool, unitsLicenses: set<string>, wanted: bool)
    requires DistinctKeys(table)
    ensures forall i | 0 <= i < |table| ::
              table[i].0 in Select(table, t, unitsLicenses, wanted) <==> Holds(table[i].1, t, unitsLicenses) == wanted
  {
    if |table| > 0 {
      var tail := table[1..];
      SelectMembers(tail, t, unitsLicenses, wanted);
      SelectFromKeys(tail, t, unitsLicenses, wanted);
      forall i | 0 <= i < |table|
        ensures table[i].0 in Select(table, t, unitsLicenses, wanted) <==> Holds(table[i].1, t, unitsLicenses) == wanted
      {
        if i > 0 {
          assert tail[i - 1] == table[i];
          assert table[0].0 != table[i].0;
        } else {
          assert forall k | 0 <= k < |tail| :: tail[k].0 != table[0].0;
        }
      }
    }
  }

  // Position, Decode and the DecodeWording lemmas exist only to prove the
  // 22 strings distinct cheaply: Decode tells them apart by length (and by
  // the last character where two lengths agree), and the cases are checked
  // in small groups so that no single proof compares many literals.

  /** The position of each key in the dictionary's key order. */
  function Position(d: DeedText): nat {
    match d
    case InvalidVariable => 0
    case FreeTo => 1
    case PublicDomainElements => 2
    case CannotRevoke => 3
    case AppropriateCredit => 4
    case ReasonableManner => 5
    case NeverExpected => 6
    case DistributeContributions => 7
    case ShareAlikeText => 8
    case SameLicense => 9
    case AsTheOriginal => 10
    case AdaptText => 11
    case Remix => 12
    case MayNotDistributeModified => 13
    case NoDerivativesText => 14
    case FreeCulturalWorks => 15
    case EvenCommercially => 16
    case MayNotUseFor => 17
    case CommercialPurposes => 18
    case IntergovernmentalOrganization => 19
    case NewerVersionAvailable => 20
    case WorldwideLink => 21
  }

  /** The keys of strings_to_lambdas are distinct. */
  lemma TableKeysDistinct()
    ensures DistinctKeys(StringsToConditions)
  {
    assert forall i | 0 <= i < |StringsToConditions| :: Position(StringsToConditions[i].0) == i;
  }

  /** Recognises a deed string by its length, and by its last character
      where two strings have the same length. */
  function Decode(s: string): DeedText {
    if |s| == 16 && s[15] == 'E' then InvalidVariable
    else if |s| == 16 && s[15] == ':' then FreeTo
    else if |s| == 92 then PublicDomainElements
    else if |s| == 82 then CannotRevoke
    else if |s| == 18 then AppropriateCredit
    else if |s| == 111 then ReasonableManner
    else if |s| == 53 then NeverExpected
    else if |s| == 48 then DistributeContributions
    else if |s| == 10 then ShareAlikeText
    else if |s| == 12 then SameLicense
    else if |s| == 16 && s[15] == '.' then AsTheOriginal
    else if |s| == 5 then AdaptText
    else if |s| == 45 && s[44] == 'l' then Remix
    else if |s| == 45 && s[44] == '.' then MayNotDistributeModified
    else if |s| == 13 then NoDerivativesText
    else if |s| == 51 then FreeCulturalWorks
    else if |s| == 35 then EvenCommercially
    else if |s| == 32 then MayNotUseFor
    else if |s| == 19 then CommercialPurposes
    else if |s| == 54 then IntergovernmentalOrganization
    else if |s| == 62 then NewerVersionAvailable
    else if |s| == 17 then WorldwideLink
    else InvalidVariable
  }

  lemma DecodeWording0(d: DeedText)
    requires 0 <= Position(d) <= 2
    ensures Decode(Wording(d)) == d
  {
  }

  lemma DecodeWording1(d: DeedText)
    requires 3 <= Position(d) <= 4
    ensures Decode(Wording(d)) == d
  {
  }

  lemma DecodeWording2(d: DeedText)
    requires 5 <= Position(d) <= 6
    ensures Decode(Wording(d)) == d
  {
  }

  lemma DecodeWording3(d: DeedText)
    requires 7 <= Position(d) <= 10
    ensures Decode(Wording(d)) == d
  {
  }

  lemma DecodeWording4(d: DeedText)
    requires 11 <= Position(d) <= 13
    ensures Decode(Wording(d)) == d
  {
  }

  lemma DecodeWording5(d: DeedText)
    requires 14 <= Position(d) <= 16
    ensures Decode(Wording(d)) == d
  {
  }

  lemma DecodeWording6(d: DeedText)
    requires 17 <= Position(d) <= 19
    ensures Decode(Wording(d)) == d
  {
  }

  lemma DecodeWording7(d: DeedText)
    requires 20 <= Position(d) <= 21
    ensures Decode(Wording(d)) == d
  {
  }

  /** Each deed string is recognised from its wording. */
  lemma DecodeWording(d: DeedText)
    ensures Decode(Wording(d)) == d
  {
    if Position(d) <= 2 {
      DecodeWording0(d);
    } else if Position(d) <= 4 {
      DecodeWording1(d);
    } else if Position(d) <= 6 {
      DecodeWording2(d);
    } else if Position(d) <= 10 {
      DecodeWording3(d);
    } else if Position(d) <= 13 {
      DecodeWording4(d);
    } else if Position(d) <= 16 {
      DecodeWording5(d);
    } else if Position(d) <= 19 {
      DecodeWording6(d);
    } else {
      DecodeWording7(d);
    }
  }

  /** Different keys have different wordings. */
  lemma WordingInjective(a: DeedText, b: DeedText)
    ensures Wording(a) == Wording(b) ==> a == b
  {
    DecodeWording(a);
    DecodeWording(b);
  }

  /** The two lists are disjoint, together they hold every string once, and
      each keeps the dictionary's key order. */
  lemma ExpectedAndUnexpectedPartition(t: Tool, unitsLicenses: set<string>)
    ensures var (expected, unexpected) := ExpectedAndUnexpected(t, unitsLicenses);
            && |expected| + |unexpected| == |StringsToConditions|
            && (forall s | s in expected :: s !in unexpected)
            && (forall i | 0 <= i < |StringsToConditions| ::
                  Wording(StringsToConditions[i].0) in expected || Wording(StringsToConditions[i].0) in unexpected)
            && Subsequence(Select(StringsToConditions, t, unitsLicenses, true), Keys(StringsToConditions))
            && Subsequence(Select(StringsToConditions, t, unitsLicenses, false), Keys(StringsToConditions))
  {
    var table := StringsToConditions;
    var lists := ExpectedAndUnexpected(t, unitsLicenses);
    var yes := Select(table, t, unitsLicenses, true);
    var no := Select(table, t, unitsLicenses, false);
    SelectPartitions(table, t, unitsLicenses);
    SelectKeepsOrder(table, t, unitsLicenses, true);
    SelectKeepsOrder(table, t, unitsLicenses, false);
    TableKeysDistinct();
    forall i | 0 <= i < |table| ensures Wording(table[i].0) in lists.0 || Wording(table[i].0) in lists.1 {
      WordingSelected(table, t, unitsLicenses, true, i);
      WordingSelected(table, t, unitsLicenses, false, i);
    }
    SelectFromKeys(table, t, unitsLicenses, true);
    forall s | s in lists.0 ensures s !in lists.1 {
      var a :| 0 <= a < |yes| && lists.0[a] == s;
      assert yes[a] in yes;
      var i :| 0 <= i < |table| && table[i].0 == yes[a];
      WordingSelected(table, t, unitsLicenses, true, i);
      WordingSelected(table, t, unitsLicenses, false, i);
    }
  }

  /** With distinct keys, a key's wording is in the selected strings
      exactly when its condition evaluates to the wanted value. */
  lemma WordingSelected(table: Table, t: Tool, unitsLicenses: set<string>, wanted: bool, i: nat)
    requires DistinctKeys(table) && i < |table|
    ensures Wording(table[i].0) in WordingAll(Select(table, t, unitsLicenses, wanted))
            <==> Holds(table[i].1, t, unitsLicenses) == wanted
  {
    var keys := Select(table, t, unitsLicenses, wanted);
    SelectMembers(table, t, unitsLicenses, wanted);
    if table[i].0 in keys {
      WordingAllMember(table[i].0, keys);
    }
    if Wording(table[i].0) in WordingAll(keys) {
      var a :| 0 <= a < |keys| && WordingAll(keys)[a] == Wording(table[i].0);
      WordingInjective(keys[a], table[i].0);
      assert keys[a] in keys;
    }
  }

  /** A string is expected for a tool exactly when its condition holds for
      the tool, and unexpected exactly when it does not. */
  lemma ExpectedIffHolds(t: Tool, unitsLicenses: set<string>)
    ensures var (expected, unexpected) := ExpectedAndUnexpected(t, unitsLicenses);
            forall i | 0 <= i < |StringsToConditions| ::
              && (Wording(StringsToConditions[i].0) in expected <==> Holds(StringsToConditions[i].1, t, unitsLicenses))
              && (Wording(StringsToConditions[i].0) in unexpected <==> !Holds(StringsToConditions[i].1, t, unitsLicenses))
  {
    var table := StringsToConditions;
    var lists := ExpectedAndUnexpected(t, unitsLicenses);
    TableKeysDistinct();
    forall i | 0 <= i < |table|
      ensures && (Wording(table[i].0) in lists.0 <==> Holds(table[i].1, t, unitsLicenses))
              && (Wording(table[i].0) in lists.1 <==> !Holds(table[i].1, t, unitsLicenses))
    {
      WordingSelected(table, t, unitsLicenses, true, i);
      WordingSelected(table, t, unitsLicenses, false, i);
    }
  }

  /** A string guarded by `never` is unexpected for every tool, and the one
      guarded by `always` is expected for every tool. */
  lemma NeverAndAlwaysStrings(t: Tool, unitsLicenses: set<string>)
    ensures var (expected, unexpected) := ExpectedAndUnexpected(t, unitsLicenses);
            forall i | 0 <= i < |StringsToConditions| ::
              && (StringsToConditions[i].1 == Never ==> Wording(StringsToConditions[i].0) in unexpected)
              && (StringsToConditions[i].1 == Always ==> Wording(StringsToConditions[i].0) in expected)
  {
    var table := StringsToConditions;
    TableKeysDistinct();
    SelectMembers(table, t, unitsLicenses, true);
    SelectMembers(table, t, unitsLicenses, false);
    forall i | 0 <= i < |table| ensures
      && (table[i].1 == Never ==> Wording(table[i].0) in ExpectedAndUnexpected(t, unitsLicenses).1)
      && (table[i].1 == Always ==> Wording(table[i].0) in ExpectedAndUnexpected(t, unitsLicenses).0)
    {
      if table[i].1 == Never {
        WordingAllMember(table[i].0, Select(table, t, unitsLicenses, false));
      }
      if table[i].1 == Always {
        WordingAllMember(table[i].0, Select(table, t, unitsLicenses, true));
      }
    }
  }
}
