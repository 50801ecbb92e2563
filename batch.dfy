/** The list- and set-building loops of `AffiliationFilter`, which both
    copies of filter.py share line for line.  They are stated over the
    classifier `isIndustry`, so each tuning instantiates them with its own
    `IsIndustry`. */
module Batch {
  import opened Text
  import opened Records
  import opened Sequences
  import opened FilterCommon

  /** `identify_industry_authors`: the authors the classifier accepts, in
      their original order. */
  method IdentifyIndustryAuthors(authors: seq<Author>, isIndustry: Author -> bool)
    returns (industry: seq<Author>)
    ensures industry == Filter(authors, isIndustry)
    ensures forall a :: a in industry <==> a in authors && isIndustry(a)
  {
    industry := [];
    var i := 0;
    while i < |authors|
      invariant 0 <= i <= |authors|
      invariant industry == Filter(authors[..i], isIndustry)
    {
      FilterStep(authors[..i], authors[i], isIndustry);
      assert authors[..i + 1] == authors[..i] + [authors[i]];
      if isIndustry(authors[i]) {
        industry := industry + [authors[i]];
      }
      i := i + 1;
    }
    assert authors[..i] == authors;
    FilterMembers(authors, isIndustry);
  }

  /** The test of `if industry_authors:` on one paper. */
  function HasIndustryAuthor(isIndustry: Author -> bool): Paper -> bool {
    (p: Paper) => Filter(p.authors, isIndustry) != []
  }

  /** A paper passes exactly when one of its authors is industry. */
  lemma HasIndustryAuthorIff(isIndustry: Author -> bool, p: Paper)
    ensures HasIndustryAuthor(isIndustry)(p) <==> exists a :: a in p.authors && isIndustry(a)
  {
    FilterEmpty(p.authors, isIndustry);
  }

  /** `filter_papers_with_industry_authors`: the papers with at least one
      industry author, in their original order and untouched (each keeps
      its whole author list). */
  method FilterPapersWithIndustryAuthors(papers: seq<Paper>, isIndustry: Author -> bool)
    returns (kept: seq<Paper>)
    ensures kept == Filter(papers, HasIndustryAuthor(isIndustry))
    ensures forall p :: p in kept <==> p in papers && exists a :: a in p.authors && isIndustry(a)
    ensures IsSubsequence(kept, papers)
  {
    ghost var keep := HasIndustryAuthor(isIndustry);
    kept := [];
    var i := 0;
    while i < |papers|
      invariant 0 <= i <= |papers|
      invariant kept == Filter(papers[..i], keep)
    {
      var industry := IdentifyIndustryAuthors(papers[i].authors, isIndustry);
      PaperStep(papers, i, isIndustry, industry);
      if |industry| > 0 {
        kept := kept + [papers[i]];
      }
      i := i + 1;
    }
    assert papers[..i] == papers;
    KeptPapers(papers, isIndustry);
  }

  lemma PaperStep(papers: seq<Paper>, i: nat, isIndustry: Author -> bool, industry: seq<Author>)
    requires i < |papers| && industry == Filter(papers[i].authors, isIndustry)
    ensures Filter(papers[..i + 1], HasIndustryAuthor(isIndustry)) ==
      Filter(papers[..i], HasIndustryAuthor(isIndustry)) + (if |industry| > 0 then [papers[i]] else [])
  {
    FilterStep(papers[..i], papers[i], HasIndustryAuthor(isIndustry));
    assert papers[..i + 1] == papers[..i] + [papers[i]];
  }

  /** The kept papers are those with an industry author, untouched and in
      order. */
  lemma KeptPapers(papers: seq<Paper>, isIndustry: Author -> bool)
    ensures forall p :: p in Filter(papers, HasIndustryAuthor(isIndustry)) <==>
      p in papers && exists a :: a in p.authors && isIndustry(a)
    ensures IsSubsequence(Filter(papers, HasIndustryAuthor(isIndustry)), papers)
  {
    forall p {
      HasIndustryAuthorIff(isIndustry, p);
    }
    FilterIsSubsequence(papers, HasIndustryAuthor(isIndustry));
  }

  // ---------------------------------------------------------------------
  // company names

  /** The author contributes a company name. */
  predicate Contributes(isIndustry: Author -> bool, a: Author) {
    isIndustry(a) && a.affiliation != "" && ExtractCompanyName(a.affiliation) != ""
  }

  /** The names `get_company_affiliations` collects: one per industry author
      with a non-empty affiliation whose extracted name is non-empty,
      duplicates merged. */
  function CompanySet(authors: seq<Author>, isIndustry: Author -> bool): (names: set<string>)
    ensures forall c :: c in names <==>
      exists a :: a in authors && Contributes(isIndustry, a) && c == ExtractCompanyName(a.affiliation)
  {
    set a | a in authors && Contributes(isIndustry, a) :: ExtractCompanyName(a.affiliation)
  }

  lemma CompanySetStep(authors: seq<Author>, a: Author, isIndustry: Author -> bool)
    ensures CompanySet(authors + [a], isIndustry) ==
      CompanySet(authors, isIndustry)
        + (if Contributes(isIndustry, a) then {ExtractCompanyName(a.affiliation)} else {})
  {
  }

  /** `get_company_affiliations`, as the set it builds before `list()`. */
  method GetCompanyAffiliations(authors: seq<Author>, isIndustry: Author -> bool)
    returns (companies: set<string>)
    ensures companies == CompanySet(authors, isIndustry)
  {
    companies := {};
    var i := 0;
    while i < |authors|
      invariant 0 <= i <= |authors|
      invariant companies == CompanySet(authors[..i], isIndustry)
    {
      var a := authors[i];
      CompanySetStep(authors[..i], a, isIndustry);
      assert authors[..i + 1] == authors[..i] + [a];
      if isIndustry(a) && a.affiliation != "" {
        var company := ExtractCompanyName(a.affiliation);
        if company != "" {
          companies := companies + {company};
        }
      }
      i := i + 1;
    }
    assert authors[..i] == authors;
  }

  /** Every collected name is non-empty, trimmed, free of ',' and ';', and
      a substring of the affiliation of an industry author. */
  lemma {:induction false} CompanyNamesAreClean(authors: seq<Author>, isIndustry: Author -> bool, c: string)
    requires c in CompanySet(authors, isIndustry)
    ensures c != "" && !IsSpace(c[0]) && !IsSpace(c[|c| - 1])
    ensures forall j :: 0 <= j < |c| ==> !IsSeparator(c[j])
    ensures exists a :: a in authors && isIndustry(a) && Contains(a.affiliation, c)
  {
    var a :| a in authors && Contributes(isIndustry, a) && c == ExtractCompanyName(a.affiliation);
    ExtractCompanyNameShape(a.affiliation);
    assert a in authors && isIndustry(a) && Contains(a.affiliation, c);
  }

  /** Only industry authors matter: collecting from the filtered list gives
      the same names, which is how `_prepare_paper_row` calls it. */
  lemma {:induction false} CompanySetOfIndustryAuthors(authors: seq<Author>, isIndustry: Author -> bool)
    ensures CompanySet(Filter(authors, isIndustry), isIndustry) == CompanySet(authors, isIndustry)
  {
    FilterMembers(authors, isIndustry);
    var kept := Filter(authors, isIndustry);
    forall a | Contributes(isIndustry, a)
      ensures a in kept <==> a in authors
    {
    }
  }
}
