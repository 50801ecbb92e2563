/** The parts of `AffiliationFilter` that both copies of filter.py share
    word for word: the academic lexicons, the academic e-mail markers and
    the academic e-mail regex, the two `\b` boosts, the 0.7/0.3 weights and
    the company-name extractor. */
module FilterCommon {
  import opened Text
  import opened Records

  /** `ACADEMIC_KEYWORDS` (identical in both copies). */
  const AcademicKeywords: set<string> := {
    "university", "college", "institute", "school", "laboratory", "lab",
    "research center", "research centre", "medical center", "medical centre",
    "hospital", "clinic", "department", "faculty", "academy", "polytechnic",
    "campus", "graduate school", "postgraduate", "doctoral", "phd program"
  }

  /** The first 27 entries of `INDUSTRY_KEYWORDS` in the richer tuning,
      which are the whole of it in the simpler one. */
  const CoreIndustryKeywords: set<string> := {
    "pharma", "pharmaceutical", "biotech", "biotechnology", "therapeutics",
    "inc", "incorporated", "ltd", "limited", "llc", "corp", "corporation",
    "company", "co.", "gmbh", "ag", "sa", "plc", "pty", "pvt",
    "biosciences", "life sciences", "research and development", "r&d",
    "drug discovery", "clinical research", "contract research"
  }

  /** `ACADEMIC_DOMAINS`: substrings that mark an academic e-mail address. */
  const AcademicDomains: set<string> := {
    ".edu", ".ac.", ".edu.", "university", "college", "institute"
  }

  /** Weights of the combined score `email * 0.7 + affiliation * 0.3`. */
  const EmailWeight: real := 0.7
  const AffiliationWeight: real := 0.3

  // ---------------------------------------------------------------------
  // the inputs of `is_industry_affiliation`

  /** The lower-cased address, "" when there is none. */
  function EmailOf(a: Author): string {
    match a.email
    case None => ""
    case Some(e) => Lower(e)
  }

  /** The lower-cased affiliation. */
  function AffiliationOf(a: Author): string {
    Lower(a.affiliation)
  }

  /** Both inputs are already lower case, so the scorers' own `lower()`
      changes nothing. */
  lemma {:induction false} InputsAreLower(a: Author)
    ensures Lower(EmailOf(a)) == EmailOf(a)
    ensures Lower(AffiliationOf(a)) == AffiliationOf(a)
  {
    LowerIdempotent(a.affiliation);
    if a.email.Some? {
      LowerIdempotent(a.email.value);
    }
  }

  // ---------------------------------------------------------------------
  // e-mail

  /** The marker loop: some academic marker is a substring of `e`. */
  predicate HasAcademicMarker(e: string) {
    exists d :: d in AcademicDomains && Contains(e, d)
  }

  /** An address that contains none of the six markers has none. */
  lemma NoMarkerWithoutEach(e: string)
    requires !Contains(e, ".edu") && !Contains(e, ".ac.") && !Contains(e, ".edu.")
    requires !Contains(e, "university") && !Contains(e, "college") && !Contains(e, "institute")
    ensures !HasAcademicMarker(e)
  {
  }

  /** Missing letters are enough: without 'd', 'l' and 'u', and without one
      of 'n' and 't', only ".ac." could still occur. */
  lemma NoMarkerByChars(e: string)
    requires 'd' !in e && 'l' !in e && 'u' !in e && ('n' !in e || 't' !in e)
    requires !Contains(e, ".ac.")
    ensures !HasAcademicMarker(e)
  {
    AbsentByChar(e, ".edu", 2);
    AbsentByChar(e, ".edu.", 2);
    AbsentByChar(e, "university", 0);
    AbsentByChar(e, "college", 2);
    if 'n' !in e {
      AbsentByChar(e, "institute", 1);
    } else {
      AbsentByChar(e, "institute", 3);
    }
    NoMarkerWithoutEach(e);
  }

  /** The corresponding address of the industry test author carries no
      academic marker and ends in ".com". */
  lemma PfizerAddress(e: string)
    requires e == "jane.johnson@pfizer.com"
    ensures Lower(e) == e && !HasAcademicMarker(e) && EndsWith(e, ".com")
  {
    PfizerAddressIsLower(e);
    NoMarkerInPfizerAddress(e);
  }

  lemma PfizerAddressIsLower(e: string)
    requires e == "jane.johnson@pfizer.com"
    ensures Lower(e) == e
  {
    LowerOfLowercase(e);
  }

  lemma NoMarkerInPfizerAddress(e: string)
    requires e == "jane.johnson@pfizer.com"
    ensures !HasAcademicMarker(e)
  {
    NoAcInPfizerAddress(e);
    NoMarkerByChars(e);
  }

  lemma NoAcInPfizerAddress(e: string)
    requires e == "jane.johnson@pfizer.com"
    ensures !Contains(e, ".ac.")
  {
    AbsentByPair(e, ".ac.", 0);
  }

  /** The address of the academic test author holds ".edu". */
  lemma HarvardAddress(e: string)
    requires e == "john.smith@harvard.edu"
    ensures Lower(e) == e && HasAcademicMarker(e)
  {
    HarvardAddressIsLower(e);
    assert StartsAt(e, ".edu", 18);
    assert ".edu" in AcademicDomains;
  }

  lemma HarvardAddressIsLower(e: string)
    requires e == "john.smith@harvard.edu"
    ensures Lower(e) == e
  {
    LowerOfLowercase(e);
  }

  /** So does the commercial address of the email-scoring test, which is
      already lower case. */
  lemma CommercialTestAddress(e: string)
    requires e == "test@pfizer.com"
    ensures Lower(e) == e && !HasAcademicMarker(e) && EndsWith(e, ".com")
  {
    LowerOfLowercase(e);
    NoMarkerInCommercialTestAddress(e);
  }

  lemma NoMarkerInCommercialTestAddress(e: string)
    requires e == "test@pfizer.com"
    ensures !HasAcademicMarker(e)
  {
    AbsentByChar(e, ".ac.", 1);
    NoMarkerByChars(e);
  }

  /** `re.search(r'@.*\.(edu|ac\.|edu\.)', e)`: an '@', then any run of
      characters other than a newline, then ".edu", ".ac." or ".edu.". */
  predicate AcademicPattern(e: string) {
    exists i, j :: 0 <= i < j <= |e| && e[i] == '@'
      && (forall k :: i < k < j ==> e[k] != '\n')
      && (StartsAt(e, ".edu", j) || StartsAt(e, ".ac.", j) || StartsAt(e, ".edu.", j))
  }

  /** Whatever the academic regex matches already contains a marker, so the
      regex can only be consulted after the marker loop has returned. */
  lemma {:induction false} AcademicPatternHasMarker(e: string)
    requires AcademicPattern(e)
    ensures HasAcademicMarker(e)
  {
    var i, j :| 0 <= i < j <= |e| && e[i] == '@'
      && (forall k :: i < k < j ==> e[k] != '\n')
      && (StartsAt(e, ".edu", j) || StartsAt(e, ".ac.", j) || StartsAt(e, ".edu.", j));
    if StartsAt(e, ".ac.", j) {
      assert ".ac." in AcademicDomains;
      ContainsWitness(e, ".ac.", j);
    } else {
      assert e[j..j + 4] == ".edu" by {
        if StartsAt(e, ".edu.", j) {
          assert e[j..j + 4] == e[j..j + 5][..4];
        }
      }
      assert StartsAt(e, ".edu", j);
      assert ".edu" in AcademicDomains;
      ContainsWitness(e, ".edu", j);
    }
  }

  // ---------------------------------------------------------------------
  // affiliation text

  /** The members of `lexicon` that occur in `t` as substrings, each once
      however often it occurs: the generator `sum(1 for k in lexicon if k
      in t)` counts exactly these. */
  function Present(lexicon: set<string>, t: string): (ks: set<string>)
    ensures ks <= lexicon
    ensures forall k :: k in ks <==> k in lexicon && Contains(t, k)
  {
    set k | k in lexicon && Contains(t, k)
  }

  /** A lexicon none of whose members occurs in `t` contributes nothing. */
  lemma {:induction false} PresentNone(lexicon: set<string>, t: string)
    requires forall k :: k in lexicon ==> !Contains(t, k)
    ensures Present(lexicon, t) == {}
  {
  }

  /** An empty text holds no member of a lexicon without "". */
  lemma {:induction false} PresentInEmpty(lexicon: set<string>)
    requires "" !in lexicon
    ensures Present(lexicon, "") == {}
  {
    forall k | k in lexicon ensures !Contains("", k) {
      NothingInEmpty(k);
    }
  }

  function AcademicKeywordsIn(t: string): set<string> {
    Present(AcademicKeywords, t)
  }

  /** `re.search(r'\b(university|college|institute)\b', t)` */
  predicate HasAcademicWord(t: string) {
    HasWholeWord(t, "university") || HasWholeWord(t, "college") || HasWholeWord(t, "institute")
  }

  /** `re.search(r'\b(inc|ltd|llc|corp|gmbh)\b', t)` */
  predicate HasLegalSuffix(t: string) {
    HasWholeWord(t, "inc") || HasWholeWord(t, "ltd") || HasWholeWord(t, "llc")
      || HasWholeWord(t, "corp") || HasWholeWord(t, "gmbh")
  }

  /** `academic_count` after its `\b` boost: every keyword present counts,
      and a whole word "university", "college" or "institute" counts three
      times, once as a keyword and twice for the boost. */
  function AcademicCount(t: string): (n: nat)
    ensures n >= |AcademicKeywordsIn(t)|
    ensures HasAcademicWord(t) ==> n >= 3
  {
    if HasAcademicWord(t) then
      var w := if HasWholeWord(t, "university") then "university"
               else if HasWholeWord(t, "college") then "college" else "institute";
      WholeWordIsContained(t, w);
      assert w in AcademicKeywordsIn(t);
      |AcademicKeywordsIn(t)| + 2
    else |AcademicKeywordsIn(t)|
  }

  /** The academic count is positive exactly when some academic keyword
      occurs in the text: the `\b` boost only fires on a word that is itself
      a keyword. */
  lemma {:induction false} AcademicCountPositive(t: string)
    ensures AcademicCount(t) > 0 <==> exists k :: k in AcademicKeywords && Contains(t, k)
  {
    var ks := AcademicKeywordsIn(t);
    if HasAcademicWord(t) {
      var w := if HasWholeWord(t, "university") then "university"
               else if HasWholeWord(t, "college") then "college" else "institute";
      WholeWordIsContained(t, w);
      assert w in ks;
    }
    if exists k :: k in AcademicKeywords && Contains(t, k) {
      var k :| k in AcademicKeywords && Contains(t, k);
      assert k in ks;
    }
  }

  /** Nested keywords such as "lab" and "laboratory" both count: presence of
      the longer one brings the shorter one with it. */
  lemma {:induction false} NestedAcademicKeywordsBothCount(t: string)
    requires Contains(t, "laboratory")
    ensures "lab" in AcademicKeywordsIn(t) && "laboratory" in AcademicKeywordsIn(t)
    ensures AcademicCount(t) >= 2
  {
    ContainsSlice("laboratory", 0, 3);
    assert "laboratory"[0..3] == "lab";
    ContainsTransitive(t, "laboratory", "lab");
    assert {"lab", "laboratory"} <= AcademicKeywordsIn(t);
    SubsetCardinality({"lab", "laboratory"}, AcademicKeywordsIn(t));
  }

  lemma SubsetCardinality(a: set<string>, b: set<string>)
    requires a <= b
    ensures |a| <= |b|
  {
    assert b == a + (b - a);
  }

  /** An empty text holds no academic keyword and no academic word. */
  lemma {:induction false} AcademicCountOfEmpty()
    ensures AcademicCount("") == 0
  {
    forall k | k in AcademicKeywords ensures !Contains("", k) {
      NothingInEmpty(k);
    }
    assert AcademicKeywordsIn("") == {};
    NothingInEmpty("university");
    NothingInEmpty("college");
    NothingInEmpty("institute");
  }

  lemma {:induction false} LegalSuffixOfEmpty()
    ensures !HasLegalSuffix("")
  {
    NothingInEmpty("inc");
    NothingInEmpty("ltd");
    NothingInEmpty("llc");
    NothingInEmpty("corp");
    NothingInEmpty("gmbh");
  }

  /** A text without these letters, and without the three keywords they leave
      possible, has no academic evidence at all. */
  lemma AcademicKeywordsAbsent(t: string)
    requires 'b' !in t && 'd' !in t && 'g' !in t && 's' !in t
    requires !Contains(t, "clinic") && !Contains(t, "faculty") && !Contains(t, "polytechnic")
    ensures AcademicCount(t) == 0
  {
    AbsentByChar(t, "university", 6);
    AbsentByChar(t, "college", 5);
    AbsentByChar(t, "institute", 2);
    AbsentByChar(t, "school", 0);
    AbsentByChar(t, "laboratory", 2);
    AbsentByChar(t, "lab", 2);
    AbsentByChar(t, "research center", 2);
    AbsentByChar(t, "research centre", 2);
    AbsentByChar(t, "medical center", 2);
    AbsentByChar(t, "medical centre", 2);
    AbsentByChar(t, "hospital", 2);
    AbsentByChar(t, "department", 0);
    AbsentByChar(t, "academy", 3);
    AbsentByChar(t, "campus", 5);
    AbsentByChar(t, "graduate school", 0);
    AbsentByChar(t, "postgraduate", 2);
    AbsentByChar(t, "doctoral", 0);
    AbsentByChar(t, "phd program", 2);
    AcademicCountPositive(t);
  }

  /** The same for the shared industry keywords. */
  lemma CoreKeywordsAbsent(t: string)
    requires 'c' !in t && 'g' !in t && 'l' !in t && '&' !in t
    requires !Contains(t, "pharma") && !Contains(t, "sa") && !Contains(t, "pty") && !Contains(t, "pvt")
    ensures forall k :: k in CoreIndustryKeywords ==> !Contains(t, k)
  {
    AbsentByChar(t, "pharmaceutical", 6);
    AbsentByChar(t, "biotech", 5);
    AbsentByChar(t, "biotechnology", 5);
    AbsentByChar(t, "therapeutics", 10);
    AbsentByChar(t, "inc", 2);
    AbsentByChar(t, "incorporated", 2);
    AbsentByChar(t, "ltd", 0);
    AbsentByChar(t, "limited", 0);
    AbsentByChar(t, "llc", 0);
    AbsentByChar(t, "corp", 0);
    AbsentByChar(t, "corporation", 0);
    AbsentByChar(t, "company", 0);
    AbsentByChar(t, "co.", 0);
    AbsentByChar(t, "gmbh", 0);
    AbsentByChar(t, "ag", 1);
    AbsentByChar(t, "plc", 1);
    AbsentByChar(t, "biosciences", 4);
    AbsentByChar(t, "life sciences", 0);
    AbsentByChar(t, "research and development", 6);
    AbsentByChar(t, "r&d", 1);
    AbsentByChar(t, "drug discovery", 3);
    AbsentByChar(t, "clinical research", 0);
    AbsentByChar(t, "contract research", 0);
  }

  // ---------------------------------------------------------------------
  // the affiliation texts of `test_affiliation_scoring`

  /** "pfizer pharmaceutical company" is lower case, holds "pharmaceutical"
      and carries no academic evidence. */
  lemma PfizerTestText(t: string)
    requires t == "pfizer pharmaceutical company"
    ensures Lower(t) == t && AcademicCount(t) == 0 && Contains(t, "pharmaceutical")
  {
    PfizerTestTextIsLower(t);
    PfizerTestTextLetters(t);
    PfizerTestTextPairs(t);
    AcademicKeywordsAbsent(t);
    PfizerTestTextHolds(t);
  }

  lemma PfizerTestTextHolds(t: string)
    requires t == "pfizer pharmaceutical company"
    ensures Contains(t, "pharmaceutical")
  {
    var w := "pharmaceutical";
    assert t == "pfizer " + w + " company";
    assert t[7..21] == w;
    ContainsSlice(t, 7, 21);
  }

  lemma PfizerTestTextIsLower(t: string)
    requires t == "pfizer pharmaceutical company"
    ensures Lower(t) == t
  {
    LowerOfLowercase(t);
  }

  lemma PfizerTestTextLetters(t: string)
    requires t == "pfizer pharmaceutical company"
    ensures 'b' !in t && 'd' !in t && 'g' !in t && 's' !in t
  {
    PfizerTestTextLacksBd(t);
    PfizerTestTextLacksGs(t);
  }

  lemma PfizerTestTextLacksBd(t: string)
    requires t == "pfizer pharmaceutical company"
    ensures 'b' !in t && 'd' !in t
  {
  }

  lemma PfizerTestTextLacksGs(t: string)
    requires t == "pfizer pharmaceutical company"
    ensures 'g' !in t && 's' !in t
  {
  }

  lemma PfizerTestTextPairs(t: string)
    requires t == "pfizer pharmaceutical company"
    ensures !Contains(t, "clinic") && !Contains(t, "faculty") && !Contains(t, "polytechnic")
  {
    AbsentByPair(t, "clinic", 0);
    PfizerTestTextLacksFaPo(t);
  }

  lemma PfizerTestTextLacksFaPo(t: string)
    requires t == "pfizer pharmaceutical company"
    ensures !Contains(t, "faculty") && !Contains(t, "polytechnic")
  {
    AbsentByPair(t, "faculty", 0);
    AbsentByPair(t, "polytechnic", 0);
  }

  /** "harvard university department" is lower case, holds "university" as
      a whole word and "department", and none of the shared industry
      keywords. */
  lemma HarvardTestText(t: string)
    requires t == "harvard university department"
    ensures Lower(t) == t && AcademicCount(t) >= 4
  {
    HarvardTestTextIsLower(t);
    HarvardTestTextWords(t);
    var both: set<string> := {"university", "department"};
    assert |both| == 2;
    SubsetCardinality(both, AcademicKeywordsIn(t));
  }

  lemma HarvardTestTextWords(t: string)
    requires t == "harvard university department"
    ensures HasWholeWord(t, "university") && Contains(t, "department")
  {
    assert StartsAt(t, "university", 8) && Boundary(t, 8) && Boundary(t, 18);
    assert StartsAt(t, "department", 19);
  }

  lemma HarvardTestTextIsLower(t: string)
    requires t == "harvard university department"
    ensures Lower(t) == t
  {
    LowerOfLowercase(t);
  }

  /** The letters that rule out every industry keyword and known company
      but eleven. */
  lemma HarvardTestTextLetters(t: string)
    requires t == "harvard university department"
    ensures 'b' !in t && 'c' !in t && 'f' !in t && 'g' !in t && 'k' !in t && 'l' !in t
    ensures 'o' !in t && 'q' !in t && 'w' !in t && 'x' !in t && '&' !in t
  {
    HarvardTestTextLacksBcf(t);
    HarvardTestTextLacksGkl(t);
    HarvardTestTextLacksOqw(t);
    HarvardTestTextLacksX(t);
  }

  lemma HarvardTestTextLacksBcf(t: string)
    requires t == "harvard university department"
    ensures 'b' !in t && 'c' !in t && 'f' !in t
  {
  }

  lemma HarvardTestTextLacksGkl(t: string)
    requires t == "harvard university department"
    ensures 'g' !in t && 'k' !in t && 'l' !in t
  {
  }

  lemma HarvardTestTextLacksOqw(t: string)
    requires t == "harvard university department"
    ensures 'o' !in t && 'q' !in t && 'w' !in t
  {
  }

  lemma HarvardTestTextLacksX(t: string)
    requires t == "harvard university department"
    ensures 'x' !in t && '&' !in t
  {
  }

  lemma HarvardTestTextCore(t: string)
    requires t == "harvard university department"
    ensures forall k :: k in CoreIndustryKeywords ==> !Contains(t, k)
  {
    HarvardTestTextLetters(t);
    AbsentByPair(t, "pharma", 0);
    AbsentByPair(t, "sa", 0);
    AbsentByPair(t, "pty", 0);
    AbsentByPair(t, "pvt", 0);
    CoreKeywordsAbsent(t);
  }

  // ---------------------------------------------------------------------
  // company name

  predicate IsSeparator(c: char) { c == ',' || c == ';' }

  /** Index of the first ',' or ';' of `s`, or |s| when there is none. */
  function FirstSeparator(s: string): (i: nat)
    ensures i <= |s|
    ensures i < |s| ==> IsSeparator(s[i])
    ensures forall j :: 0 <= j < i ==> !IsSeparator(s[j])
    decreases |s|
  {
    if s == [] then 0
    else if IsSeparator(s[0]) then 0
    else 1 + FirstSeparator(s[1..])
  }

  lemma {:induction false} FirstSeparatorAt(s: string, k: nat)
    requires k <= |s| && (k < |s| ==> IsSeparator(s[k]))
    requires forall j :: 0 <= j < k ==> !IsSeparator(s[j])
    ensures FirstSeparator(s) == k
  {
  }

  /** `re.split(r'[,;]', s)`: at least one part, the first part is the text
      before the first separator, and no part holds a separator. */
  function Split(s: string): (parts: seq<string>)
    ensures |parts| >= 1
    ensures parts[0] == s[..FirstSeparator(s)]
    decreases |s|
  {
    var i := FirstSeparator(s);
    if i == |s| then [s] else [s[..i]] + Split(s[i + 1..])
  }

  /** No part of a split holds a separator. */
  lemma {:induction false} SplitPartsHaveNoSeparator(s: string)
    ensures forall p, j :: p in Split(s) && 0 <= j < |p| ==> !IsSeparator(p[j])
    decreases |s|
  {
    var i := FirstSeparator(s);
    if i < |s| {
      SplitPartsHaveNoSeparator(s[i + 1..]);
    }
  }

  /** The prefix `p` (lower case) followed by whitespace opens `c`,
      compared case-insensitively: one alternative of
      `^(department of|division of|section of)\s+` under re.IGNORECASE. */
  predicate OpensWith(c: string, p: string) {
    |p| < |c| && (forall k :: 0 <= k < |p| ==> LowerChar(c[k]) == p[k]) && IsSpace(c[|p|])
  }

  /** Removes `p` and the whitespace run after it. */
  function DropPrefix(c: string, p: string): (r: string)
    requires OpensWith(c, p)
    ensures |r| < |c| && r == c[|c| - |r|..]
    ensures r == [] || !IsSpace(r[0])
  {
    c[|p| + SpaceRun(c, |p|)..]
  }

  predicate HasOrgPrefix(c: string) {
    OpensWith(c, "department of") || OpensWith(c, "division of") || OpensWith(c, "section of")
  }

  /** The `re.sub` of `_extract_company_name`.  The pattern is anchored with
      `^`, so at most one prefix goes, together with all the whitespace that
      follows it. */
  function StripOrgPrefix(c: string): (r: string)
    ensures |r| <= |c| && r == c[|c| - |r|..]
    ensures !HasOrgPrefix(c) ==> r == c
    ensures HasOrgPrefix(c) ==> |r| < |c| && (r == [] || !IsSpace(r[0]))
  {
    if OpensWith(c, "department of") then DropPrefix(c, "department of")
    else if OpensWith(c, "division of") then DropPrefix(c, "division of")
    else if OpensWith(c, "section of") then DropPrefix(c, "section of")
    else c
  }

  /** The text before the first separator, trimmed. */
  function LeadingSegment(aff: string): string {
    Strip(aff[..FirstSeparator(aff)])
  }

  /** `_extract_company_name`.  The split happens before the prefix is
      removed, so only the leading segment is ever looked at, and the
      final `return affiliation.strip()` is never reached: a split always
      yields at least one part.  The name is no longer than the
      affiliation. */
  function ExtractCompanyName(aff: string): (r: string)
    ensures r == StripOrgPrefix(LeadingSegment(aff))
    ensures |r| <= |aff|
  {
    var parts := Split(aff);
    if |parts| > 0 then StripOrgPrefix(Strip(parts[0])) else Strip(aff)
  }

  /** The extracted name is a separator-free, trimmed piece of the
      affiliation; it is empty exactly when the leading segment is blank,
      and equals the leading segment when that opens with no prefix. */
  lemma {:induction false} ExtractCompanyNameShape(aff: string)
    ensures var r := ExtractCompanyName(aff);
      && (!HasOrgPrefix(LeadingSegment(aff)) ==> r == LeadingSegment(aff))
      && (forall j :: 0 <= j < |r| ==> !IsSeparator(r[j]))
      && Contains(aff, r)
      && (r == [] || (!IsSpace(r[0]) && !IsSpace(r[|r| - 1])))
      && (r == [] <==> LeadingSegment(aff) == [])
  {
    ExtractInAffiliation(aff);
    ExtractHasNoSeparator(aff);
    StripOrgPrefixTrimmed(LeadingSegment(aff));
  }

  /** The name found occurs in the affiliation. */
  lemma {:induction false} ExtractInAffiliation(aff: string)
    ensures Contains(aff, ExtractCompanyName(aff))
  {
    SegmentInAffiliation(aff);
    StripOrgPrefixContained(aff, LeadingSegment(aff));
  }

  lemma {:induction false} StripOrgPrefixContained(s: string, c: string)
    requires Contains(s, c)
    ensures Contains(s, StripOrgPrefix(c))
  {
    SuffixContained(s, c, StripOrgPrefix(c));
  }

  lemma {:induction false} ExtractHasNoSeparator(aff: string)
    ensures var r := ExtractCompanyName(aff);
      forall j :: 0 <= j < |r| ==> !IsSeparator(r[j])
  {
    SegmentInAffiliation(aff);
    StripOrgPrefixHasNoSeparator(LeadingSegment(aff));
  }

  lemma {:induction false} StripOrgPrefixHasNoSeparator(c: string)
    requires forall j :: 0 <= j < |c| ==> !IsSeparator(c[j])
    ensures var r := StripOrgPrefix(c);
      forall j :: 0 <= j < |r| ==> !IsSeparator(r[j])
  {
    SuffixHasNoSeparator(c, StripOrgPrefix(c));
  }

  /** A suffix of a substring is a substring. */
  lemma {:induction false} SuffixContained(s: string, seg: string, r: string)
    requires Contains(s, seg) && |r| <= |seg| && r == seg[|seg| - |r|..]
    ensures Contains(s, r)
  {
    ContainsSlice(seg, |seg| - |r|, |seg|);
    assert seg[|seg| - |r|..|seg|] == r;
    ContainsTransitive(s, seg, r);
  }

  lemma {:induction false} SuffixHasNoSeparator(seg: string, r: string)
    requires forall j :: 0 <= j < |seg| ==> !IsSeparator(seg[j])
    requires |r| <= |seg| && r == seg[|seg| - |r|..]
    ensures forall j :: 0 <= j < |r| ==> !IsSeparator(r[j])
  {
    forall j | 0 <= j < |r| ensures !IsSeparator(r[j]) {
      assert r[j] == seg[|seg| - |r| + j];
    }
  }

  /** Removing a prefix from a trimmed text leaves a trimmed text, and never
      an empty one: the text does not end in the whitespace that follows
      the prefix. */
  lemma {:induction false} StripOrgPrefixTrimmed(c: string)
    requires c == [] || (!IsSpace(c[0]) && !IsSpace(c[|c| - 1]))
    ensures var r := StripOrgPrefix(c);
      (r == [] || (!IsSpace(r[0]) && !IsSpace(r[|r| - 1]))) && (r == [] <==> c == [])
  {
    var r := StripOrgPrefix(c);
    if r != [] {
      assert r[|r| - 1] == c[|c| - 1];
    }
    if HasOrgPrefix(c) {
      assert !IsSpace(c[|c| - 1]);
      assert r != [];
    }
  }

  lemma {:induction false} SegmentInAffiliation(aff: string)
    ensures Contains(aff, LeadingSegment(aff))
    ensures forall j :: 0 <= j < |LeadingSegment(aff)| ==> !IsSeparator(LeadingSegment(aff)[j])
  {
    var head := aff[..FirstSeparator(aff)];
    var seg := Strip(head);
    var i, j := StripStart(head), StripEnd(head);
    assert seg == aff[i..j];
    ContainsSlice(aff, i, j);
  }

  lemma {:induction false} ExtractWithoutPrefix(aff: string, seg: string)
    requires LeadingSegment(aff) == seg && !HasOrgPrefix(seg)
    ensures ExtractCompanyName(aff) == seg
  {
  }

  /** At most one of the three prefixes opens a text: they differ in their
      first two letters. */
  lemma {:induction false} StripOrgPrefixOf(c: string, p: string)
    requires p == "department of" || p == "division of" || p == "section of"
    requires OpensWith(c, p)
    ensures StripOrgPrefix(c) == DropPrefix(c, p)
  {
    if p == "division of" {
      assert LowerChar(c[1]) == 'i';
      assert !OpensWith(c, "department of");
    } else if p == "section of" {
      assert LowerChar(c[0]) == 's';
      assert !OpensWith(c, "department of") && !OpensWith(c, "division of");
    }
  }

  lemma {:induction false} ExtractWithPrefix(aff: string, seg: string, p: string)
    requires LeadingSegment(aff) == seg && OpensWith(seg, p)
    requires p == "department of" || p == "division of" || p == "section of"
    ensures ExtractCompanyName(aff) == DropPrefix(seg, p)
  {
    StripOrgPrefixOf(seg, p);
  }

  lemma {:induction false} LeadingSegmentAt(aff: string, k: nat)
    requires 0 < k < |aff| && IsSeparator(aff[k])
    requires forall j :: 0 <= j < k ==> !IsSeparator(aff[j])
    requires !IsSpace(aff[0]) && !IsSpace(aff[k - 1])
    ensures LeadingSegment(aff) == aff[..k]
  {
    FirstSeparatorAt(aff, k);
    StripUnchanged(aff[..k]);
  }

  /** "Pfizer Inc., Research Division" gives "Pfizer Inc.". */
  lemma ExtractPfizer(aff: string)
    requires aff == "Pfizer Inc., Research Division"
    ensures ExtractCompanyName(aff) == "Pfizer Inc."
  {
    LeadingSegmentAt(aff, 11);
    assert aff[..11] == "Pfizer Inc.";
    assert Lower(aff[..10])[0] == 'p';
    ExtractWithoutPrefix(aff, aff[..11]);
  }

  /** "Division of X, Acme Corp" gives "X", not "Acme Corp": the prefix is
      removed from the first segment after the split. */
  lemma ExtractDivision(aff: string)
    requires aff == "Division of X, Acme Corp"
    ensures ExtractCompanyName(aff) == "X"
  {
    var seg := DivisionSegment(aff);
    DivisionPrefix(seg);
    ExtractWithPrefix(aff, seg, "division of");
  }

  lemma DivisionSegment(aff: string) returns (seg: string)
    requires aff == "Division of X, Acme Corp"
    ensures seg == "Division of X" && LeadingSegment(aff) == seg
  {
    LeadingSegmentAt(aff, 13);
    seg := aff[..13];
  }

  lemma DivisionPrefix(seg: string)
    requires seg == "Division of X"
    ensures OpensWith(seg, "division of") && DropPrefix(seg, "division of") == "X"
  {
    assert OpensWith(seg, "division of");
    assert SpaceRun(seg, 12) == 0;
    assert SpaceRun(seg, 11) == 1;
  }
}
