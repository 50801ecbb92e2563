/** The row shaping and counting of `CSVExporter` in
    get-papers-list/paper_finder/output.py.  The exporter classifies with the
    `AffiliationFilter` of its own package, the richer tuning; like `Batch`,
    every operation here takes that classifier as the parameter `isIndustry`
    (the exporter passes `RichFilter.IsIndustry`).  DataFrames, files and
    printing are not modelled, so each operation returns the rows or counts
    it would have written. */
module Output {
  import opened Text
  import opened Records
  import opened Sequences
  import opened FilterCommon
  import opened Batch
  /** The industry authors of one paper, in author order. */
  function IndustryAuthors(p: Paper, isIndustry: Author -> bool): seq<Author> {
    Filter(p.authors, isIndustry)
  }

  // ---------------------------------------------------------------------
  // author names

  /** One entry of `_format_authors`: it opens with the last name and then
      gives the first name if there is one, the initials if there are only
      those, and nothing more otherwise. */
  function FormatName(a: Author): (r: string)
    ensures |a.lastName| <= |r| && r[..|a.lastName|] == a.lastName
    ensures a.firstName != "" ==> r[|a.lastName|..] == ", " + a.firstName
    ensures a.firstName == "" && a.initials != "" ==> r[|a.lastName|..] == ", " + a.initials
    ensures a.firstName == "" && a.initials == "" ==> r == a.lastName
  {
    if a.firstName != "" then
      assert a.lastName + ", " + a.firstName == a.lastName + (", " + a.firstName);
      a.lastName + ", " + a.firstName
    else if a.initials != "" then
      assert a.lastName + ", " + a.initials == a.lastName + (", " + a.initials);
      a.lastName + ", " + a.initials
    else a.lastName
  }

  function Names(authors: seq<Author>): (names: seq<string>)
    ensures |names| == |authors|
    ensures forall k :: 0 <= k < |authors| ==> names[k] == FormatName(authors[k])
  {
    seq(|authors|, k requires 0 <= k < |authors| => FormatName(authors[k]))
  }

  /** The string `_format_authors` returns. */
  function AuthorList(authors: seq<Author>): string {
    Join("; ", Names(authors))
  }

  /** `_format_authors`: the names in input order, joined with "; ". */
  method FormatAuthors(authors: seq<Author>) returns (s: string)
    ensures s == AuthorList(authors)
    ensures forall k :: 0 <= k < |authors| ==> Contains(s, FormatName(authors[k]))
  {
    var names: seq<string> := [];
    var i := 0;
    while i < |authors|
      invariant 0 <= i <= |authors| && |names| == i
      invariant forall k :: 0 <= k < i ==> names[k] == FormatName(authors[k])
    {
      var a := authors[i];
      var name: string;
      if a.firstName != "" {
        name := a.lastName + ", " + a.firstName;
      } else if a.initials != "" {
        name := a.lastName + ", " + a.initials;
      } else {
        name := a.lastName;
      }
      names := names + [name];
      i := i + 1;
    }
    assert names == Names(authors);
    s := Join("; ", names);
    forall k | 0 <= k < |authors| ensures Contains(s, FormatName(authors[k])) {
      JoinContainsEach("; ", names, k);
    }
  }

  /** `test_author_formatting`: "Smith, John" and "Doe, J.D." both appear
      in the list for those two authors. */
  lemma FormatAuthorsTest(smith: Author, doe: Author)
    requires smith.lastName == "Smith" && smith.firstName == "John"
    requires doe.lastName == "Doe" && doe.firstName == "" && doe.initials == "J.D."
    ensures Contains(AuthorList([smith, doe]), "Smith, John")
    ensures Contains(AuthorList([smith, doe]), "Doe, J.D.")
  {
    var names := Names([smith, doe]);
    assert names[0] == FormatName(smith) == "Smith, John";
    assert names[1] == FormatName(doe) == "Doe, J.D.";
    JoinContainsEach("; ", names, 0);
    JoinContainsEach("; ", names, 1);
  }

  // ---------------------------------------------------------------------
  // one CSV row

  /** The dictionary `_prepare_paper_row` returns, one field per column.
      The company column is the set `get_company_affiliations` builds; the
      order `"; ".join(list(...))` gives it is unspecified. */
  datatype Row = Row(
    pubmedId: string,
    title: string,
    publicationDate: string,
    nonAcademicAuthors: string,
    companyAffiliations: set<string>,
    correspondingEmail: string,
    journal: string,
    totalAuthors: nat,
    industryAuthorsCount: nat)

  /** The column names, in the order the dictionary lists them; the k-th
      names the k-th field of `Row`. */
  const Columns: seq<string> := [
    "PubmedID", "Title", "Publication Date", "Non-academic Author(s)",
    "Company Affiliation(s)", "Corresponding Author Email", "Journal",
    "Total Authors", "Industry Authors Count"]

  /** The columns a result file must have. */
  const RequiredColumns: set<string> := {
    "PubmedID", "Title", "Publication Date", "Non-academic Author(s)",
    "Company Affiliation(s)", "Corresponding Author Email"}

  /** The value of one column. */
  datatype Cell = TextCell(text: string) | CountCell(count: nat) | SetCell(items: set<string>)

  /** The row as the dictionary `_prepare_paper_row` builds: its keys are
      exactly the columns, one entry for each. */
  function Cells(row: Row): (m: map<string, Cell>)
    ensures forall c :: c in m <==> c in Columns
  {
    map[
      "PubmedID" := TextCell(row.pubmedId),
      "Title" := TextCell(row.title),
      "Publication Date" := TextCell(row.publicationDate),
      "Non-academic Author(s)" := TextCell(row.nonAcademicAuthors),
      "Company Affiliation(s)" := SetCell(row.companyAffiliations),
      "Corresponding Author Email" := TextCell(row.correspondingEmail),
      "Journal" := TextCell(row.journal),
      "Total Authors" := CountCell(row.totalAuthors),
      "Industry Authors Count" := CountCell(row.industryAuthorsCount)]
  }

  /** Every required column is one of the row's columns and is a key of
      every row, and no column is listed twice. */
  lemma RequiredColumnsPresent(row: Row)
    ensures forall c :: c in RequiredColumns ==> c in Columns && c in Cells(row)
    ensures forall i, j :: 0 <= i < j < |Columns| ==> Columns[i] != Columns[j]
  {
  }

  /** `paper.corresponding_author_email or ""`. */
  function EmailText(e: Option<string>): (r: string)
    ensures e.Some? ==> r == e.value
    ensures e.None? ==> r == ""
  {
    e.GetOr("")
  }

  /** `_prepare_paper_row` for a paper and its industry authors. */
  function PrepareRow(p: Paper, industry: seq<Author>, isIndustry: Author -> bool): (row: Row)
    ensures row.totalAuthors == |p.authors|
    ensures row.industryAuthorsCount == |industry|
    ensures row.correspondingEmail == EmailText(p.correspondingEmail)
    ensures row.correspondingEmail == "" <==> p.correspondingEmail in {None, Some("")}
    ensures row.nonAcademicAuthors == AuthorList(industry)
    ensures row.companyAffiliations == CompanySet(industry, isIndustry)
    ensures (row.pubmedId, row.title, row.publicationDate, row.journal)
         == (p.pubmedId, p.title, p.publicationDate, p.journal)
  {
    Row(p.pubmedId, p.title, p.publicationDate, AuthorList(industry),
        CompanySet(industry, isIndustry), EmailText(p.correspondingEmail),
        p.journal, |p.authors|, |industry|)
  }

  /** The row of a paper with an industry author: it counts at least one
      and at most all of its authors, and its companies are those of the
      paper's whole author list. */
  lemma {:induction false} PaperRowFacts(p: Paper, isIndustry: Author -> bool)
    requires IndustryAuthors(p, isIndustry) != []
    ensures var row := PrepareRow(p, IndustryAuthors(p, isIndustry), isIndustry);
      && 1 <= row.industryAuthorsCount <= row.totalAuthors
      && row.companyAffiliations == CompanySet(p.authors, isIndustry)
  {
    CompanySetOfIndustryAuthors(p.authors, isIndustry);
  }

  // ---------------------------------------------------------------------
  // the rows of export_papers and print_to_console

  /** The row of one paper, when it has an industry author. */
  function RowFor(p: Paper, isIndustry: Author -> bool): seq<Row> {
    var industry := IndustryAuthors(p, isIndustry);
    if industry != [] then [PrepareRow(p, industry, isIndustry)] else []
  }

  /** One row per paper with an industry author, in paper order. */
  function RowsOf(papers: seq<Paper>, isIndustry: Author -> bool): seq<Row>
    decreases |papers|
  {
    if papers == [] then []
    else RowsOf(papers[..|papers| - 1], isIndustry) + RowFor(papers[|papers| - 1], isIndustry)
  }

  lemma RowsOfSnoc(papers: seq<Paper>, p: Paper, isIndustry: Author -> bool)
    ensures RowsOf(papers + [p], isIndustry) == RowsOf(papers, isIndustry) + RowFor(p, isIndustry)
  {
    assert (papers + [p])[..|papers|] == papers;
  }

  /** The rows are exactly those of the papers
      `filter_papers_with_industry_authors` keeps: as many, and the k-th
      row from the k-th kept paper. */
  lemma {:induction false} RowsOfKeptPapers(papers: seq<Paper>, isIndustry: Author -> bool)
    ensures var kept := Filter(papers, HasIndustryAuthor(isIndustry));
      && |RowsOf(papers, isIndustry)| == |kept|
      && (forall k :: 0 <= k < |kept| ==>
            RowsOf(papers, isIndustry)[k] == PrepareRow(kept[k], IndustryAuthors(kept[k], isIndustry), isIndustry))
    decreases |papers|
  {
    if papers != [] {
      var init := papers[..|papers| - 1];
      var p := papers[|papers| - 1];
      RowsOfKeptPapers(init, isIndustry);
      assert papers == init + [p];
      FilterStep(init, p, HasIndustryAuthor(isIndustry));
    }
  }

  /** The loop shared by `export_papers` and `print_to_console`: the rows
      they hand to the DataFrame, one per paper with an industry author.
      An empty input, and an input without such a paper, give none. */
  method ExportRows(papers: seq<Paper>, isIndustry: Author -> bool) returns (rows: seq<Row>)
    ensures rows == RowsOf(papers, isIndustry)
    ensures |rows| == |Filter(papers, HasIndustryAuthor(isIndustry))|
  {
    rows := [];
    var i := 0;
    while i < |papers|
      invariant 0 <= i <= |papers|
      invariant rows == RowsOf(papers[..i], isIndustry)
    {
      var p := papers[i];
      assert papers[..i + 1][..i] == papers[..i];
      var industry := IdentifyIndustryAuthors(p.authors, isIndustry);
      if |industry| > 0 {
        var row := PrepareRow(p, industry, isIndustry);
        rows := rows + [row];
      }
      i := i + 1;
    }
    assert papers[..i] == papers;
    RowsOfKeptPapers(papers, isIndustry);
  }

  /** Exporting the papers `filter_papers_with_industry_authors` kept gives
      the same rows as exporting all of them, which is how the integration
      test chains the two. */
  lemma {:induction false} RowsAfterPaperFilter(papers: seq<Paper>, isIndustry: Author -> bool)
    ensures RowsOf(Filter(papers, HasIndustryAuthor(isIndustry)), isIndustry) == RowsOf(papers, isIndustry)
    decreases |papers|
  {
    if papers != [] {
      var keep := HasIndustryAuthor(isIndustry);
      var init, p := papers[..|papers| - 1], papers[|papers| - 1];
      assert papers == init + [p];
      FilterStep(init, p, keep);
      RowsAfterPaperFilter(init, isIndustry);
      RowsOfSnoc(init, p, isIndustry);
      RowForOfKept(p, isIndustry);
      var f := Filter(init, keep);
      if keep(p) {
        RowsOfSnoc(f, p, isIndustry);
      } else {
        assert Filter(papers, keep) == f;
        assert RowsOf(init, isIndustry) + [] == RowsOf(init, isIndustry);
      }
    }
  }

  /** A paper has a row exactly when the paper filter keeps it. */
  lemma RowForOfKept(p: Paper, isIndustry: Author -> bool)
    ensures RowFor(p, isIndustry) == [] <==> !HasIndustryAuthor(isIndustry)(p)
  {
  }

  // ---------------------------------------------------------------------
  // print_summary

  /** The counters of `print_summary`. */
  datatype Summary = Summary(totalPapers: nat, papersWithIndustry: nat, totalIndustryAuthors: nat)

  /** Industry authors over all papers; a paper without any adds 0. */
  function IndustryAuthorTotal(papers: seq<Paper>, isIndustry: Author -> bool): nat
    decreases |papers|
  {
    if papers == [] then 0
    else (IndustryAuthorTotal(papers[..|papers| - 1], isIndustry)
          + |IndustryAuthors(papers[|papers| - 1], isIndustry)|)
  }

  /** `print_summary`'s counting loop. */
  method Summarize(papers: seq<Paper>, isIndustry: Author -> bool) returns (s: Summary)
    ensures s.totalPapers == |papers|
    ensures s.papersWithIndustry == |Filter(papers, HasIndustryAuthor(isIndustry))|
    ensures s.totalIndustryAuthors == IndustryAuthorTotal(papers, isIndustry)
  {
    ghost var keep := HasIndustryAuthor(isIndustry);
    var withIndustry := 0;
    var industryAuthors := 0;
    var i := 0;
    while i < |papers|
      invariant 0 <= i <= |papers|
      invariant withIndustry == |Filter(papers[..i], keep)|
      invariant industryAuthors == IndustryAuthorTotal(papers[..i], isIndustry)
    {
      var p := papers[i];
      SummaryStep(papers, i, isIndustry);
      var industry := IdentifyIndustryAuthors(p.authors, isIndustry);
      if |industry| > 0 {
        withIndustry := withIndustry + 1;
        industryAuthors := industryAuthors + |industry|;
      }
      i := i + 1;
    }
    assert papers[..i] == papers;
    s := Summary(|papers|, withIndustry, industryAuthors);
  }

  lemma SummaryStep(papers: seq<Paper>, i: nat, isIndustry: Author -> bool)
    requires i < |papers|
    ensures var p := papers[i];
      && |Filter(papers[..i + 1], HasIndustryAuthor(isIndustry))|
         == |Filter(papers[..i], HasIndustryAuthor(isIndustry))| + (if IndustryAuthors(p, isIndustry) != [] then 1 else 0)
      && IndustryAuthorTotal(papers[..i + 1], isIndustry)
         == IndustryAuthorTotal(papers[..i], isIndustry) + |IndustryAuthors(p, isIndustry)|
  {
    assert papers[..i + 1][..i] == papers[..i];
    FilterStep(papers[..i], papers[i], HasIndustryAuthor(isIndustry));
    assert papers[..i + 1] == papers[..i] + [papers[i]];
  }

  /** Every paper with an industry author brings at least one, so there are
      no more such papers than industry authors, and no more than papers. */
  lemma {:induction false} SummaryBounds(papers: seq<Paper>, isIndustry: Author -> bool)
    ensures |Filter(papers, HasIndustryAuthor(isIndustry))| <= |papers|
    ensures |Filter(papers, HasIndustryAuthor(isIndustry))| <= IndustryAuthorTotal(papers, isIndustry)
    decreases |papers|
  {
    if papers != [] {
      var init := papers[..|papers| - 1];
      var p := papers[|papers| - 1];
      assert papers == init + [p];
      FilterStep(init, p, HasIndustryAuthor(isIndustry));
      SummaryBounds(init, isIndustry);
    }
  }

  // ---------------------------------------------------------------------
  // export_detailed_report

  /** One row of the detailed report: a paper together with one of its
      industry authors. */
  datatype DetailRow = DetailRow(
    pubmedId: string,
    title: string,
    publicationDate: string,
    journal: string,
    lastName: string,
    firstName: string,
    initials: string,
    authorEmail: string,
    affiliation: string,
    correspondingEmail: string,
    abstractText: string)

  const AbstractLimit: nat := 500

  /** The abstract column: its first 500 characters and "..." when it is
      longer than that, the abstract itself otherwise. */
  function TruncateAbstract(a: string): (r: string)
    ensures |a| <= AbstractLimit ==> r == a
    ensures |a| > AbstractLimit ==>
      (|r| == AbstractLimit + 3 && r[..AbstractLimit] == a[..AbstractLimit] && r[AbstractLimit..] == "...")
  {
    if |a| > AbstractLimit then a[..AbstractLimit] + "..." else a
  }

  /** A truncated abstract is at most 503 long and truncating it again
      changes nothing. */
  lemma TruncateAbstractIdempotent(a: string)
    ensures |TruncateAbstract(a)| <= AbstractLimit + 3
    ensures TruncateAbstract(TruncateAbstract(a)) == TruncateAbstract(a)
  {
    var r := TruncateAbstract(a);
    if |a| > AbstractLimit {
      assert r[..AbstractLimit] + "..." == r;
    }
  }

  function DetailRowOf(p: Paper, a: Author): DetailRow {
    DetailRow(p.pubmedId, p.title, p.publicationDate, p.journal,
              a.lastName, a.firstName, a.initials, EmailText(a.email), a.affiliation,
              EmailText(p.correspondingEmail), TruncateAbstract(p.abstractText))
  }

  /** The rows of one paper, one per industry author in author order. */
  function PaperDetails(p: Paper, industry: seq<Author>): (rows: seq<DetailRow>)
    ensures |rows| == |industry|
    ensures forall k :: 0 <= k < |industry| ==> rows[k] == DetailRowOf(p, industry[k])
  {
    seq(|industry|, k requires 0 <= k < |industry| => DetailRowOf(p, industry[k]))
  }

  /** The rows of the whole report: papers in order, and within a paper
      its industry authors in order. */
  function DetailsOf(papers: seq<Paper>, isIndustry: Author -> bool): seq<DetailRow>
    decreases |papers|
  {
    if papers == [] then []
    else
      var p := papers[|papers| - 1];
      DetailsOf(papers[..|papers| - 1], isIndustry) + PaperDetails(p, IndustryAuthors(p, isIndustry))
  }

  /** The detailed report holds one row per industry author: as many rows
      as `print_summary` counts industry authors. */
  lemma {:induction false} DetailsCount(papers: seq<Paper>, isIndustry: Author -> bool)
    ensures |DetailsOf(papers, isIndustry)| == IndustryAuthorTotal(papers, isIndustry)
    decreases |papers|
  {
    if papers != [] {
      DetailsCount(papers[..|papers| - 1], isIndustry);
    }
  }

  /** Every row names a paper of the input and one of its industry
      authors. */
  lemma {:induction false} DetailsAreIndustryPairs(papers: seq<Paper>, isIndustry: Author -> bool, k: nat)
    requires k < |DetailsOf(papers, isIndustry)|
    ensures exists p, a :: (p in papers && a in p.authors && isIndustry(a)
      && DetailsOf(papers, isIndustry)[k] == DetailRowOf(p, a))
    decreases |papers|
  {
    var init := papers[..|papers| - 1];
    var p := papers[|papers| - 1];
    var head := DetailsOf(init, isIndustry);
    if k < |head| {
      DetailsAreIndustryPairs(init, isIndustry, k);
      var q, a :| q in init && a in q.authors && isIndustry(a) && head[k] == DetailRowOf(q, a);
      assert q in papers;
      assert DetailsOf(papers, isIndustry)[k] == head[k];
    } else {
      FilterMembers(p.authors, isIndustry);
      var a := IndustryAuthors(p, isIndustry)[k - |head|];
      assert a in IndustryAuthors(p, isIndustry);
      assert DetailsOf(papers, isIndustry)[k] == DetailRowOf(p, a);
    }
  }

  /** `export_detailed_report`'s nested loop: the rows it hands to the
      DataFrame. */
  method DetailedRows(papers: seq<Paper>, isIndustry: Author -> bool) returns (rows: seq<DetailRow>)
    ensures rows == DetailsOf(papers, isIndustry)
    ensures |rows| == IndustryAuthorTotal(papers, isIndustry)
  {
    rows := [];
    var i := 0;
    while i < |papers|
      invariant 0 <= i <= |papers|
      invariant rows == DetailsOf(papers[..i], isIndustry)
    {
      var p := papers[i];
      assert papers[..i + 1][..i] == papers[..i];
      var industry := IdentifyIndustryAuthors(p.authors, isIndustry);
      ghost var before := rows;
      var j := 0;
      while j < |industry|
        invariant 0 <= j <= |industry|
        invariant rows == before + PaperDetails(p, industry[..j])
      {
        var a := industry[j];
        var abstractText := if |p.abstractText| > 500 then p.abstractText[..500] + "..." else p.abstractText;
        var row := DetailRow(p.pubmedId, p.title, p.publicationDate, p.journal,
                             a.lastName, a.firstName, a.initials, EmailText(a.email), a.affiliation,
                             EmailText(p.correspondingEmail), abstractText);
        assert PaperDetails(p, industry[..j + 1]) == PaperDetails(p, industry[..j]) + [row];
        rows := rows + [row];
        j := j + 1;
      }
      assert industry[..j] == industry;
      i := i + 1;
    }
    assert papers[..i] == papers;
    DetailsCount(papers, isIndustry);
  }
}
