/** `AffiliationFilter` of paper_finder/filter.py: the simpler tuning, with
    the 27-keyword industry lexicon, no known-company boost, ".org" worth
    0.2, no ".net" rule, a 0.0 score for a tie and the 0.5 threshold. */
module SimpleFilter {
  import opened Text
  import opened Records
  import opened FilterCommon

  /** `INDUSTRY_KEYWORDS` of this tuning. */
  const IndustryKeywords: set<string> := CoreIndustryKeywords

  const Threshold: real := 0.5

  // ---------------------------------------------------------------------
  // e-mail

  /** `_score_email_domain`: empty, an academic marker, the academic regex
      (kept as written; -0.9 is never produced), then the suffixes. */
  function EmailScore(email: string): (r: real)
    ensures r in {0.0, -0.8, 0.6, 0.8, 0.2}
    ensures r == -0.8 <==> email != "" && HasAcademicMarker(Lower(email))
    ensures r > 0.0 ==>
      && !HasAcademicMarker(Lower(email))
      && (EndsWith(Lower(email), ".com") || EndsWith(Lower(email), ".biz")
          || EndsWith(Lower(email), ".org"))
  {
    if email == "" then 0.0
    else
      var e := Lower(email);
      if HasAcademicMarker(e) then -0.8
      else if AcademicPattern(e) then AcademicPatternHasMarker(e); assert false; -0.9
      else if EndsWith(e, ".com") then 0.6
      else if EndsWith(e, ".biz") then 0.8
      else if EndsWith(e, ".org") then 0.2
      else 0.0
  }

  /** The suffix rules, for an address with no academic marker.  ".net"
      has no rule here and scores 0 like any other suffix. */
  lemma EmailSuffixScores(email: string)
    requires email != "" && !HasAcademicMarker(Lower(email))
    ensures var e := Lower(email);
      && (EndsWith(e, ".com") ==> EmailScore(email) == 0.6)
      && (EndsWith(e, ".biz") ==> EmailScore(email) == 0.8)
      && (EndsWith(e, ".org") ==> EmailScore(email) == 0.2)
      && ((!EndsWith(e, ".com") && !EndsWith(e, ".biz") && !EndsWith(e, ".org"))
          ==> EmailScore(email) == 0.0)
  {
    var e := Lower(email);
    if AcademicPattern(e) {
      AcademicPatternHasMarker(e);
      assert false;
    }
  }

  // ---------------------------------------------------------------------
  // affiliation text

  /** `industry_count` after its one boost: one per industry keyword
      present, two for a whole-word legal suffix. */
  function IndustryCount(t: string): (n: nat)
    ensures n >= |Present(IndustryKeywords, t)|
    ensures HasLegalSuffix(t) ==> n >= 3
  {
    if HasLegalSuffix(t) then
      var w := if HasWholeWord(t, "inc") then "inc"
               else if HasWholeWord(t, "ltd") then "ltd"
               else if HasWholeWord(t, "llc") then "llc"
               else if HasWholeWord(t, "corp") then "corp" else "gmbh";
      WholeWordIsContained(t, w);
      assert w in Present(IndustryKeywords, t);
      |Present(IndustryKeywords, t)| + 2
    else |Present(IndustryKeywords, t)|
  }

  /** The industry count is positive exactly when an industry keyword
      occurs. */
  lemma {:induction false} IndustryCountPositive(t: string)
    ensures IndustryCount(t) > 0 <==> exists k :: k in IndustryKeywords && Contains(t, k)
  {
    var ks := Present(IndustryKeywords, t);
    if HasLegalSuffix(t) {
      var w := if HasWholeWord(t, "inc") then "inc"
               else if HasWholeWord(t, "ltd") then "ltd"
               else if HasWholeWord(t, "llc") then "llc"
               else if HasWholeWord(t, "corp") then "corp" else "gmbh";
      WholeWordIsContained(t, w);
      assert w in ks;
    }
    if exists k :: k in IndustryKeywords && Contains(t, k) {
      var k :| k in IndustryKeywords && Contains(t, k);
      assert k in ks;
    }
  }

  lemma {:induction false} IndustryCountOfEmpty()
    ensures IndustryCount("") == 0
  {
    assert "" !in IndustryKeywords;
    PresentInEmpty(IndustryKeywords);
    LegalSuffixOfEmpty();
  }

  /** The decision table of `_score_affiliation_text`: the first matching
      rule wins, and a tie scores 0. */
  function Decide(academic: nat, industry: nat): (r: real)
    ensures r in {-0.7, 0.8, 0.5, -0.5, 0.0}
    ensures r == -0.7 <==> academic > 0 && industry == 0
    ensures r == 0.8 <==> industry > 0 && academic == 0
    ensures r > 0.0 <==> industry > academic
    ensures r < 0.0 <==> academic > industry
    ensures r == 0.0 <==> academic == industry
  {
    if academic > 0 && industry == 0 then -0.7
    else if industry > 0 && academic == 0 then 0.8
    else if industry > academic then 0.5
    else if academic > industry then -0.5
    else 0.0
  }

  /** `_score_affiliation_text`: 0 for an empty text, otherwise the table
      applied to the two counts of the lower-cased text. */
  function AffiliationScore(t: string): (r: real)
    ensures -0.7 <= r <= 0.8
    ensures t == "" ==> r == 0.0
    ensures t != "" ==> (r > 0.0 <==> IndustryCount(Lower(t)) > AcademicCount(Lower(t)))
    ensures t != "" ==> (r < 0.0 <==> AcademicCount(Lower(t)) > IndustryCount(Lower(t)))
  {
    if t == "" then 0.0
    else
      var l := Lower(t);
      Decide(AcademicCount(l), IndustryCount(l))
  }

  /** The sign of the affiliation score, counts of the empty text
      included: positive exactly when industry evidence outnumbers academic
      evidence, negative exactly when the reverse holds. */
  lemma {:induction false} AffiliationSign(t: string)
    requires Lower(t) == t
    ensures AffiliationScore(t) > 0.0 <==> IndustryCount(t) > AcademicCount(t)
    ensures AffiliationScore(t) < 0.0 <==> AcademicCount(t) > IndustryCount(t)
  {
    if t == "" {
      AcademicCountOfEmpty();
      IndustryCountOfEmpty();
    }
  }

  // ---------------------------------------------------------------------
  // classification

  /** `total_score` of `is_industry_affiliation`. */
  function Total(a: Author): (r: real)
    ensures -0.77 <= r <= 0.8
  {
    EmailWeight * EmailScore(EmailOf(a)) + AffiliationWeight * AffiliationScore(AffiliationOf(a))
  }

  /** `is_industry_affiliation`.  The threshold is out of reach without a
      ".com" or ".biz" score. */
  predicate IsIndustry(a: Author): (r: bool)
    ensures r ==> EmailScore(EmailOf(a)) in {0.6, 0.8}
  {
    Total(a) > Threshold
  }

  /** The whole decision in terms of the two scores: only a ".biz" or a
      ".com" score can clear 0.5, ".biz" with an affiliation score of at
      least 0 and ".com" with a positive one. */
  lemma {:induction false} IndustryByScores(a: Author)
    ensures var e := EmailScore(EmailOf(a));
      var s := AffiliationScore(AffiliationOf(a));
      IsIndustry(a) <==> (e == 0.8 && s >= 0.0) || (e == 0.6 && s > 0.0)
  {
    var s := AffiliationScore(AffiliationOf(a));
    assert s in {-0.7, -0.5, 0.0, 0.5, 0.8} by {
      if AffiliationOf(a) != "" {
        var l := Lower(AffiliationOf(a));
        assert s == Decide(AcademicCount(l), IndustryCount(l));
      }
    }
  }

  /** Hence an industry author's address ends in ".com" or ".biz". */
  lemma {:induction false} IndustryNeedsCommercialEmail(a: Author)
    requires IsIndustry(a)
    ensures EndsWith(EmailOf(a), ".com") || EndsWith(EmailOf(a), ".biz")
  {
    IndustryByScores(a);
    InputsAreLower(a);
    var e := EmailOf(a);
    EmailSuffixScores(e);
  }

  /** Hence an author with no address, or with an ".org" address, is never
      industry. */
  lemma {:induction false} NoEmailOrOrgIsAcademic(a: Author)
    requires a.email == None || EndsWith(EmailOf(a), ".org")
    ensures !IsIndustry(a)
  {
    var e := EmailOf(a);
    InputsAreLower(a);
    if a.email.Some? && !HasAcademicMarker(e) {
      EmailSuffixScores(e);
      assert EmailScore(e) == 0.2 by {
        assert e[|e| - 4..] == ".org";
      }
    }
    IndustryByScores(a);
  }

  /** With a clean ".com" address the author is industry exactly when
      industry evidence outnumbers academic evidence. */
  lemma {:induction false} ComEmailDecidesByCounts(a: Author)
    requires !HasAcademicMarker(EmailOf(a)) && EndsWith(EmailOf(a), ".com")
    ensures IsIndustry(a) <==> IndustryCount(AffiliationOf(a)) > AcademicCount(AffiliationOf(a))
  {
    InputsAreLower(a);
    EmailSuffixScores(EmailOf(a));
    IndustryByScores(a);
    AffiliationSign(AffiliationOf(a));
  }

  /** With a clean ".biz" address the author is industry exactly when the
      affiliation does not lean academic. */
  lemma {:induction false} BizEmailDecidesBySign(a: Author)
    requires !HasAcademicMarker(EmailOf(a)) && EndsWith(EmailOf(a), ".biz")
    ensures IsIndustry(a) <==> AffiliationScore(AffiliationOf(a)) >= 0.0
    ensures IsIndustry(a) <==> AcademicCount(AffiliationOf(a)) <= IndustryCount(AffiliationOf(a))
  {
    InputsAreLower(a);
    EmailSuffixScores(EmailOf(a));
    IndustryByScores(a);
    AffiliationSign(AffiliationOf(a));
  }

  /** Under this tuning, too, "pfizer pharmaceutical company" leans
      industry ... */
  lemma IndustryTestTextScore(t: string)
    requires t == "pfizer pharmaceutical company"
    ensures AffiliationScore(t) > 0.0
  {
    PfizerTestText(t);
    IndustryCountPositive(t);
  }

  /** ... and "harvard university department" academic. */
  lemma AcademicTestTextScore(t: string)
    requires t == "harvard university department"
    ensures AffiliationScore(t) < 0.0
  {
    HarvardTestText(t);
    HarvardTestTextCore(t);
    IndustryCountPositive(t);
  }
}
