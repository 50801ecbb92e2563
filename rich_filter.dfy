/** `AffiliationFilter` of get-papers-list/paper_finder/filter.py: the richer
    tuning, with the larger industry lexicon, the known-company boost, a
    0.1 score for a tie and the 0.15 threshold. */
module RichFilter {
  import opened Text
  import opened Records
  import opened FilterCommon

  /** `INDUSTRY_KEYWORDS`: the 27 keywords both tunings share, then 26
      more on clinical research, services and medicine (53 in all). */
  const IndustryKeywords: set<string> := CoreIndustryKeywords + ExtraIndustryKeywords

  const ExtraIndustryKeywords: set<string> := {
    "clinical trial", "clinical trials", "drug development", "drug design",
    "medical device", "diagnostics", "laboratory services", "consulting",
    "solutions", "technologies", "systems", "services", "group",
    "healthcare", "health care", "medical", "clinical", "trial",
    "cro", "contract research organization", "pharmaceutical research",
    "biomedical", "medicine", "therapy", "treatment", "device"
  }

  /** `KNOWN_COMPANIES`: pharmaceutical, biotech and contract-research
      firms, private medical institutions, and research institutes with
      industry ties. */
  const KnownCompanies: set<string> :=
    DrugMakers + DeviceAndGenericMakers + ContractResearchFirms + PrivateInstitutions

  const DrugMakers: set<string> := {
    "pfizer", "roche", "novartis", "merck", "gsk", "glaxosmithkline",
    "sanofi", "astrazeneca", "bristol myers squibb", "johnson & johnson",
    "abbvie", "amgen", "gilead", "biogen", "regeneron", "vertex",
    "moderna", "biontech", "illumina", "thermo fisher", "agilent",
    "waters", "perkinelmer", "danaher", "abbott", "medtronic"
  }

  const DeviceAndGenericMakers: set<string> := {
    "boston scientific", "stryker", "zimmer biomet", "intuitive surgical",
    "eli lilly", "takeda", "boehringer ingelheim", "bayer", "celgene",
    "samsung biologics", "boehringer",
    "teva", "mylan", "sandoz", "hospira", "fresenius", "baxter"
  }

  const ContractResearchFirms: set<string> := {
    "iqvia", "covance", "parexel", "psi", "icon", "syneos", "ppd",
    "quintiles", "celerion", "medpace", "worldwide clinical trials",
    "labcorp", "quest diagnostics", "eurofins", "charles river",
    "wuxi", "catalent", "lonza"
  }

  const PrivateInstitutions: set<string> := {
    "mayo clinic", "cleveland clinic", "johns hopkins", "kaiser permanente",
    "memorial sloan kettering", "md anderson", "cedars-sinai", "scripps",
    "intermountain healthcare", "geisinger", "henry ford health",
    "sarah cannon research institute", "translational genomics research institute",
    "broad institute", "whitehead institute", "cold spring harbor laboratory"
  }

  const Threshold: real := 0.15

  // ---------------------------------------------------------------------
  // e-mail

  /** `_score_email_domain`.  The rules are tried in order: empty, an
      academic marker, the academic regex, then the suffixes.  The regex
      branch is kept as written; its value -0.9 is never produced. */
  function EmailScore(email: string): (r: real)
    ensures r in {0.0, -0.8, 0.6, 0.8, 0.3, 0.4}
    ensures r == -0.8 <==> email != "" && HasAcademicMarker(Lower(email))
    ensures r > 0.0 ==>
      && !HasAcademicMarker(Lower(email))
      && (EndsWith(Lower(email), ".com") || EndsWith(Lower(email), ".biz")
          || EndsWith(Lower(email), ".org") || EndsWith(Lower(email), ".net"))
  {
    if email == "" then 0.0
    else
      var e := Lower(email);
      if HasAcademicMarker(e) then -0.8
      else if AcademicPattern(e) then AcademicPatternHasMarker(e); assert false; -0.9
      else if EndsWith(e, ".com") then 0.6
      else if EndsWith(e, ".biz") then 0.8
      else if EndsWith(e, ".org") then 0.3
      else if EndsWith(e, ".net") then 0.4
      else 0.0
  }

  /** The suffix rules, for an address with no academic marker: the first
      matching suffix decides, and an address with none scores 0. */
  lemma EmailSuffixScores(email: string)
    requires email != "" && !HasAcademicMarker(Lower(email))
    ensures var e := Lower(email);
      && (EndsWith(e, ".com") ==> EmailScore(email) == 0.6)
      && (EndsWith(e, ".biz") ==> EmailScore(email) == 0.8)
      && (EndsWith(e, ".org") ==> EmailScore(email) == 0.3)
      && (EndsWith(e, ".net") ==> EmailScore(email) == 0.4)
      && ((!EndsWith(e, ".com") && !EndsWith(e, ".biz") && !EndsWith(e, ".org")
           && !EndsWith(e, ".net")) ==> EmailScore(email) == 0.0)
  {
    var e := Lower(email);
    if AcademicPattern(e) {
      AcademicPatternHasMarker(e);
      assert false;
    }
  }

  // ---------------------------------------------------------------------
  // affiliation text

  /** The known companies named in `t`. */
  function CompaniesIn(t: string): set<string> {
    Present(KnownCompanies, t)
  }

  /** `industry_count` after both boosts: one per industry keyword present,
      two for a whole-word legal suffix, two per known company present. */
  function IndustryCount(t: string): (n: nat)
    ensures n >= 2 * |CompaniesIn(t)|
    ensures HasLegalSuffix(t) ==> n >= 3
  {
    var base := |Present(IndustryKeywords, t)| + 2 * |CompaniesIn(t)|;
    if HasLegalSuffix(t) then
      var w := if HasWholeWord(t, "inc") then "inc"
               else if HasWholeWord(t, "ltd") then "ltd"
               else if HasWholeWord(t, "llc") then "llc"
               else if HasWholeWord(t, "corp") then "corp" else "gmbh";
      WholeWordIsContained(t, w);
      assert w in Present(IndustryKeywords, t);
      base + 2
    else base
  }

  /** The industry count is positive exactly when an industry keyword or a
      known company occurs: every legal suffix is itself a keyword. */
  lemma {:induction false} IndustryCountPositive(t: string)
    ensures IndustryCount(t) > 0 <==>
      (exists k :: k in IndustryKeywords && Contains(t, k))
      || (exists c :: c in KnownCompanies && Contains(t, c))
  {
    var ks := Present(IndustryKeywords, t);
    if HasLegalSuffix(t) {
      var w := if HasWholeWord(t, "inc") then "inc"
               else if HasWholeWord(t, "ltd") then "ltd"
               else if HasWholeWord(t, "llc") then "llc"
               else if HasWholeWord(t, "corp") then "corp" else "gmbh";
      WholeWordIsContained(t, w);
      assert w in ks;
    }
    if exists k :: k in IndustryKeywords && Contains(t, k) {
      var k :| k in IndustryKeywords && Contains(t, k);
      assert k in ks;
    }
    if exists c :: c in KnownCompanies && Contains(t, c) {
      var c :| c in KnownCompanies && Contains(t, c);
      assert c in CompaniesIn(t);
    }
  }

  /** Each distinct known company adds two, on top of any keyword it
      shares with the industry lexicon. */
  lemma {:induction false} CompanyBoost(t: string, c: string)
    requires c in KnownCompanies && Contains(t, c)
    ensures IndustryCount(t) >= 2
  {
    assert c in CompaniesIn(t);
  }

  lemma {:induction false} IndustryCountOfEmpty()
    ensures IndustryCount("") == 0
  {
    NoEmptyKeyword();
    NoEmptyCompany();
    PresentInEmpty(IndustryKeywords);
    PresentInEmpty(KnownCompanies);
    LegalSuffixOfEmpty();
  }

  lemma NoEmptyKeyword()
    ensures "" !in IndustryKeywords
  {
    assert "" !in CoreIndustryKeywords;
  }

  lemma NoEmptyCompany()
    ensures "" !in KnownCompanies
  {
    NoEmptyDrugMaker();
    NoEmptyDeviceOrGenericMaker();
    NoEmptyResearchFirm();
    NoEmptyInstitution();
  }

  lemma NoEmptyDrugMaker() ensures "" !in DrugMakers {}
  lemma NoEmptyDeviceOrGenericMaker() ensures "" !in DeviceAndGenericMakers {}
  lemma NoEmptyResearchFirm() ensures "" !in ContractResearchFirms {}
  lemma NoEmptyInstitution() ensures "" !in PrivateInstitutions {}

  /** The decision table of `_score_affiliation_text`: the first matching
      rule wins. */
  function Decide(academic: nat, industry: nat): (r: real)
    ensures r in {-0.7, 0.8, 0.6, -0.4, 0.1}
    ensures r == -0.7 <==> academic > 0 && industry == 0
    ensures r == 0.8 <==> industry > 0 && academic == 0
    ensures r > 0.5 <==> industry > academic
    ensures r < 0.0 <==> academic > industry
    ensures r == 0.1 <==> academic == industry
  {
    if academic > 0 && industry == 0 then -0.7
    else if industry > 0 && academic == 0 then 0.8
    else if industry > academic then 0.6
    else if academic > industry then -0.4
    else 0.1
  }

  /** `_score_affiliation_text`: 0 for an empty text, otherwise the table
      applied to the two counts of the lower-cased text. */
  function AffiliationScore(t: string): (r: real)
    ensures -0.7 <= r <= 0.8
    ensures t == "" ==> r == 0.0
    ensures t != "" ==> (r > 0.5 <==> IndustryCount(Lower(t)) > AcademicCount(Lower(t)))
    ensures t != "" ==> (r < 0.0 <==> AcademicCount(Lower(t)) > IndustryCount(Lower(t)))
    ensures t != "" ==> (r == 0.1 <==> AcademicCount(Lower(t)) == IndustryCount(Lower(t)))
  {
    if t == "" then 0.0
    else
      var l := Lower(t);
      Decide(AcademicCount(l), IndustryCount(l))
  }

  // ---------------------------------------------------------------------
  // classification

  /** `total_score` of `is_industry_affiliation`. */
  function Total(a: Author): (r: real)
    ensures -0.77 <= r <= 0.8
  {
    EmailWeight * EmailScore(EmailOf(a)) + AffiliationWeight * AffiliationScore(AffiliationOf(a))
  }

  /** `is_industry_affiliation`.  An industry author never has an
      academic address, and without a commercial-looking one the affiliation
      alone must lean industry. */
  predicate IsIndustry(a: Author): (r: bool)
    ensures r ==> EmailScore(EmailOf(a)) >= 0.0
    ensures r ==> EmailScore(EmailOf(a)) > 0.0 || AffiliationScore(AffiliationOf(a)) > 0.5
  {
    Total(a) > Threshold
  }

  /** The whole decision in terms of the two scores: a ".com" or ".biz"
      score carries any affiliation, ".org" needs an affiliation score of at
      least 0, ".net" anything but -0.7, a silent address an industry
      majority, and an academic address nothing does. */
  lemma {:induction false} IndustryByScores(a: Author)
    ensures var e := EmailScore(EmailOf(a));
      var s := AffiliationScore(AffiliationOf(a));
      IsIndustry(a) <==>
        || e >= 0.6
        || (e == 0.4 && s != -0.7)
        || (e == 0.3 && s >= 0.0)
        || (e == 0.0 && s > 0.5)
  {
    var e := EmailScore(EmailOf(a));
    var s := AffiliationScore(AffiliationOf(a));
    assert s in {-0.7, -0.4, 0.0, 0.1, 0.6, 0.8} by {
      if AffiliationOf(a) != "" {
        var l := Lower(AffiliationOf(a));
        assert s == Decide(AcademicCount(l), IndustryCount(l));
      }
    }
  }

  /** An author with neither address nor affiliation scores 0 and is not
      industry. */
  lemma {:induction false} NoEvidenceIsAcademic(a: Author)
    requires a.email == None || a.email == Some("")
    requires a.affiliation == ""
    ensures Total(a) == 0.0 && !IsIndustry(a)
  {
    assert EmailOf(a) == "";
    assert AffiliationOf(a) == "";
  }

  /** An academic address outweighs any affiliation: the total is at most
      0.7 * -0.8 + 0.3 * 0.8 = -0.32. */
  lemma {:induction false} AcademicEmailIsAcademic(a: Author)
    requires HasAcademicMarker(EmailOf(a))
    ensures Total(a) <= -0.32 && !IsIndustry(a)
  {
    var e := EmailOf(a);
    assert e != "" by {
      var d :| d in AcademicDomains && Contains(e, d);
      if e == "" { NothingInEmpty(d); assert false; }
    }
    InputsAreLower(a);
  }

  /** With an address that scores 0 (none, or no known suffix), the author
      is industry exactly when industry evidence outnumbers academic
      evidence in the affiliation. */
  lemma {:induction false} SilentEmailDecidesByCounts(a: Author)
    requires EmailScore(EmailOf(a)) == 0.0
    ensures IsIndustry(a) <==> IndustryCount(AffiliationOf(a)) > AcademicCount(AffiliationOf(a))
  {
    var t := AffiliationOf(a);
    InputsAreLower(a);
    IndustryByScores(a);
    if t == "" {
      AcademicCountOfEmpty();
      IndustryCountOfEmpty();
    }
  }

  /** With an empty affiliation the address alone decides: industry exactly
      when its score is positive. */
  lemma {:induction false} EmptyAffiliationDecidesByEmail(a: Author)
    requires a.affiliation == ""
    ensures IsIndustry(a) <==> EmailScore(EmailOf(a)) > 0.0
  {
    assert AffiliationOf(a) == "";
    IndustryByScores(a);
  }

  /** A ".com" or ".biz" address with no academic marker makes the author
      industry whatever the affiliation says. */
  lemma {:induction false} CommercialEmailIsIndustry(a: Author)
    requires EmailOf(a) != "" && !HasAcademicMarker(EmailOf(a))
    requires EndsWith(EmailOf(a), ".com") || EndsWith(EmailOf(a), ".biz")
    ensures IsIndustry(a)
  {
    var e := EmailOf(a);
    InputsAreLower(a);
    EmailSuffixScores(e);
    IndustryByScores(a);
  }

  // ---------------------------------------------------------------------
  // the unit tests' examples

  /** "john.smith@harvard.edu" holds ".edu", so its author is academic
      whatever the affiliation ("Department of Biology, Harvard University"
      in the test). */
  lemma HarvardAuthorIsAcademic(a: Author)
    requires a.email == Some("john.smith@harvard.edu")
    ensures !IsIndustry(a)
  {
    var e := a.email.value;
    HarvardAddress(e);
    assert EmailOf(a) == e;
    AcademicEmailIsAcademic(a);
  }

  /** "jane.johnson@pfizer.com" has no academic marker and ends in ".com",
      so its author is industry whatever the affiliation ("Pfizer Inc.,
      Research Division" in the test). */
  lemma PfizerAuthorIsIndustry(a: Author)
    requires a.email == Some("jane.johnson@pfizer.com")
    ensures IsIndustry(a)
  {
    var e := a.email.value;
    PfizerAddress(e);
    assert EmailOf(a) == e;
    CommercialEmailIsIndustry(a);
  }

  /** `test_email_domain_scoring`: an ".edu" address scores below 0 ... */
  lemma AcademicTestAddressScore(e: string)
    requires e == "test@harvard.edu"
    ensures EmailScore(e) < 0.0
  {
    LowerOfLowercase(e);
    assert StartsAt(e, ".edu", 12);
    assert ".edu" in AcademicDomains;
  }

  /** ... and a ".com" address above. */
  lemma CommercialTestAddressScore(e: string)
    requires e == "test@pfizer.com"
    ensures EmailScore(e) > 0.0
  {
    CommercialTestAddress(e);
    EmailSuffixScores(e);
  }

  /** The same for the keywords only this tuning adds. */
  lemma ExtraKeywordsAbsent(t: string)
    requires 'c' !in t && 'g' !in t && 'l' !in t
    requires !Contains(t, "systems") && !Contains(t, "therapy") && !Contains(t, "treatment")
    ensures forall k :: k in ExtraIndustryKeywords ==> !Contains(t, k)
  {
    AbsentByChar(t, "clinical trial", 0);
    AbsentByChar(t, "clinical trials", 0);
    AbsentByChar(t, "drug development", 3);
    AbsentByChar(t, "drug design", 3);
    AbsentByChar(t, "medical device", 4);
    AbsentByChar(t, "diagnostics", 3);
    AbsentByChar(t, "laboratory services", 0);
    AbsentByChar(t, "consulting", 0);
    AbsentByChar(t, "solutions", 2);
    AbsentByChar(t, "technologies", 2);
    AbsentByChar(t, "services", 5);
    AbsentByChar(t, "group", 0);
    AbsentByChar(t, "healthcare", 3);
    AbsentByChar(t, "health care", 3);
    AbsentByChar(t, "medical", 4);
    AbsentByChar(t, "clinical", 0);
    AbsentByChar(t, "trial", 4);
    AbsentByChar(t, "cro", 0);
    AbsentByChar(t, "contract research organization", 0);
    AbsentByChar(t, "pharmaceutical research", 6);
    AbsentByChar(t, "biomedical", 7);
    AbsentByChar(t, "medicine", 4);
    AbsentByChar(t, "device", 4);
  }

  /** The same for one group of known companies. */
  lemma DrugMakersAbsent(t: string)
    requires 'o' !in t && 'g' !in t && 'c' !in t && 'l' !in t && 'b' !in t && 'f' !in t && 'w' !in t && 'x' !in t
    requires !Contains(t, "danaher")
    ensures forall c :: c in DrugMakers ==> !Contains(t, c)
  {
    AbsentByChar(t, "pfizer", 1);
    AbsentByChar(t, "roche", 1);
    AbsentByChar(t, "novartis", 1);
    AbsentByChar(t, "merck", 3);
    AbsentByChar(t, "gsk", 0);
    AbsentByChar(t, "glaxosmithkline", 0);
    AbsentByChar(t, "sanofi", 3);
    AbsentByChar(t, "astrazeneca", 9);
    AbsentByChar(t, "bristol myers squibb", 0);
    AbsentByChar(t, "johnson & johnson", 1);
    AbsentByChar(t, "abbvie", 1);
    AbsentByChar(t, "amgen", 2);
    AbsentByChar(t, "gilead", 0);
    AbsentByChar(t, "biogen", 0);
    AbsentByChar(t, "regeneron", 2);
    AbsentByChar(t, "vertex", 5);
    AbsentByChar(t, "moderna", 1);
    AbsentByChar(t, "biontech", 0);
    AbsentByChar(t, "illumina", 1);
    AbsentByChar(t, "thermo fisher", 5);
    AbsentByChar(t, "agilent", 1);
    AbsentByChar(t, "waters", 0);
    AbsentByChar(t, "perkinelmer", 7);
    AbsentByChar(t, "abbott", 1);
    AbsentByChar(t, "medtronic", 5);
  }

  /** The same for one group of known companies. */
  lemma DeviceAndGenericMakersAbsent(t: string)
    requires 'b' !in t && 'l' !in t && 'k' !in t && 'o' !in t && 'f' !in t
    requires !Contains(t, "teva")
    ensures forall c :: c in DeviceAndGenericMakers ==> !Contains(t, c)
  {
    AbsentByChar(t, "boston scientific", 0);
    AbsentByChar(t, "stryker", 4);
    AbsentByChar(t, "zimmer biomet", 7);
    AbsentByChar(t, "intuitive surgical", 17);
    AbsentByChar(t, "eli lilly", 1);
    AbsentByChar(t, "takeda", 2);
    AbsentByChar(t, "boehringer ingelheim", 0);
    AbsentByChar(t, "bayer", 0);
    AbsentByChar(t, "celgene", 2);
    AbsentByChar(t, "samsung biologics", 8);
    AbsentByChar(t, "boehringer", 0);
    AbsentByChar(t, "mylan", 2);
    AbsentByChar(t, "sandoz", 4);
    AbsentByChar(t, "hospira", 1);
    AbsentByChar(t, "fresenius", 0);
    AbsentByChar(t, "baxter", 0);
  }

  /** The same for one group of known companies. */
  lemma ContractResearchFirmsAbsent(t: string)
    requires 'c' !in t && 'l' !in t && 'o' !in t && 'q' !in t && 'w' !in t
    requires !Contains(t, "psi") && !Contains(t, "ppd")
    ensures forall c :: c in ContractResearchFirms ==> !Contains(t, c)
  {
    AbsentByChar(t, "iqvia", 1);
    AbsentByChar(t, "covance", 0);
    AbsentByChar(t, "parexel", 6);
    AbsentByChar(t, "icon", 1);
    AbsentByChar(t, "syneos", 4);
    AbsentByChar(t, "quintiles", 0);
    AbsentByChar(t, "celerion", 0);
    AbsentByChar(t, "medpace", 5);
    AbsentByChar(t, "worldwide clinical trials", 0);
    AbsentByChar(t, "labcorp", 0);
    AbsentByChar(t, "quest diagnostics", 0);
    AbsentByChar(t, "eurofins", 3);
    AbsentByChar(t, "charles river", 0);
    AbsentByChar(t, "wuxi", 0);
    AbsentByChar(t, "catalent", 0);
    AbsentByChar(t, "lonza", 0);
  }

  /** The same for one group of known companies. */
  lemma PrivateInstitutionsAbsent(t: string)
    requires 'o' !in t && 'c' !in t && 'g' !in t && 'k' !in t && 'w' !in t
    ensures forall c :: c in PrivateInstitutions ==> !Contains(t, c)
  {
    AbsentByChar(t, "mayo clinic", 3);
    AbsentByChar(t, "cleveland clinic", 0);
    AbsentByChar(t, "johns hopkins", 1);
    AbsentByChar(t, "kaiser permanente", 0);
    AbsentByChar(t, "memorial sloan kettering", 3);
    AbsentByChar(t, "md anderson", 9);
    AbsentByChar(t, "cedars-sinai", 0);
    AbsentByChar(t, "scripps", 1);
    AbsentByChar(t, "intermountain healthcare", 6);
    AbsentByChar(t, "geisinger", 0);
    AbsentByChar(t, "henry ford health", 7);
    AbsentByChar(t, "sarah cannon research institute", 6);
    AbsentByChar(t, "translational genomics research institute", 9);
    AbsentByChar(t, "broad institute", 2);
    AbsentByChar(t, "whitehead institute", 0);
    AbsentByChar(t, "cold spring harbor laboratory", 0);
  }

  /** No industry keyword and no known company occurs in
      "harvard university department". */
  lemma HarvardTestTextIndustry(t: string)
    requires t == "harvard university department"
    ensures IndustryCount(t) == 0
  {
    HarvardTestTextLetters(t);
    HarvardTestTextCore(t);
    HarvardTestTextPairs(t);
    ExtraKeywordsAbsent(t);
    DrugMakersAbsent(t);
    DeviceAndGenericMakersAbsent(t);
    ContractResearchFirmsAbsent(t);
    PrivateInstitutionsAbsent(t);
    IndustryCountPositive(t);
  }

  lemma HarvardTestTextPairs(t: string)
    requires t == "harvard university department"
    ensures !Contains(t, "systems") && !Contains(t, "therapy") && !Contains(t, "treatment")
    ensures !Contains(t, "danaher") && !Contains(t, "teva")
    ensures !Contains(t, "psi") && !Contains(t, "ppd")
  {
    HarvardTestTextLacksKeywords(t);
    HarvardTestTextLacksDrugMakers(t);
    HarvardTestTextLacksResearchFirms(t);
  }

  lemma HarvardTestTextLacksKeywords(t: string)
    requires t == "harvard university department"
    ensures !Contains(t, "systems") && !Contains(t, "therapy") && !Contains(t, "treatment")
  {
    AbsentByPair(t, "systems", 0);
    AbsentByPair(t, "therapy", 0);
    AbsentByPair(t, "treatment", 0);
  }

  lemma HarvardTestTextLacksDrugMakers(t: string)
    requires t == "harvard university department"
    ensures !Contains(t, "danaher") && !Contains(t, "teva")
  {
    AbsentByPair(t, "danaher", 0);
    AbsentByPair(t, "teva", 0);
  }

  lemma HarvardTestTextLacksResearchFirms(t: string)
    requires t == "harvard university department"
    ensures !Contains(t, "psi") && !Contains(t, "ppd")
  {
    AbsentByPair(t, "psi", 0);
    AbsentByPair(t, "ppd", 0);
  }

  /** `test_affiliation_scoring`: "Pfizer Pharmaceutical Company" leans
      industry ... */
  lemma IndustryTestTextScore(t: string)
    requires t == "pfizer pharmaceutical company"
    ensures AffiliationScore(t) > 0.0
  {
    PfizerTestText(t);
    IndustryCountPositive(t);
  }

  /** ... and "Harvard University Department" leans academic. */
  lemma AcademicTestTextScore(t: string)
    requires t == "harvard university department"
    ensures AffiliationScore(t) < 0.0
  {
    HarvardTestText(t);
    HarvardTestTextIndustry(t);
  }
}
