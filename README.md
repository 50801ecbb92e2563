# PubMed paper finder: affiliation classifier

This project models the part of the PubMed paper finder that decides which
authors of a paper work outside academia, which papers to report and what a
report row contains. It covers:

- the `AffiliationFilter` classifier in both of its tunings:
  - `RichFilter` models get-papers-list/paper_finder/filter.py: larger
    lexicons, a known-company boost, a tie score of 0.1 and a threshold of
    0.15;
  - `SimpleFilter` models paper_finder/filter.py: the shared keyword list,
    no company boost, a tie score of 0.0 and a threshold of 0.5;
  - `FilterCommon` holds what the two tunings share: the academic keyword
    list, the academic e-mail markers, keyword counting and the company-name
    extractor;
- the order-preserving loops over authors and papers and the
  company-name collection (`Batch`). They take the classifier as a
  parameter, so one proof serves both tunings;
- the string helpers of `PubMedParser` (`Parser`). These are month names,
  date assembly with zero padding, whitespace cleaning, the first
  corresponding e-mail and author records. The e-mail regular expression
  and its leftmost match are modelled in `EmailRegex`;
- the row shaping and counting of `CSVExporter` (`Output`): author names,
  CSV rows, the rows that are emitted, summary counts, detailed rows and
  abstract truncation.

Shared building blocks:

- `Text`: ASCII lower-casing, substring search, `\b` word boundaries,
  `strip` and `join`;
- `Records`: the `Author` and `Paper` records;
- `Sequences`: an order-preserving `Filter`, with membership, subsequence
  and multiplicity lemmas.

Scores are exact decimals of type `real`. No combined score of either tuning
lands exactly on its threshold, so exact arithmetic decides every author the
way Python's floating point does. The lexicons are constant sets of strings.
A keyword count is the number of distinct lexicon entries the text contains.

The loops of the source are methods proved against a specification function:

- `IdentifyIndustryAuthors`, `FilterPapersWithIndustryAuthors` and
  `GetCompanyAffiliations` in `Batch`;
- `PublicationDate`, `ExtractAuthors` and `CorrespondingEmail` in `Parser`;
- `FormatAuthors`, `ExportRows`, `Summarize` and `DetailedRows` in `Output`.

The expression-only code is modelled as functions, with lemmas relating
them.

Where the code and its own comments disagree, the model follows the code:

- The comments of `_score_email_domain` present the regular-expression check
  as a stronger academic signal (-0.9). Every address it matches already
  contains ".edu" or ".ac.", which the loop before it answers with -0.8.
  So -0.9 is never returned in either tuning (`FilterCommon.AcademicPatternHasMarker`).
- `_extract_company_name` splits at the first ',' or ';' before it removes
  a "Department of / Division of / Section of" prefix. So "Division of X,
  Acme Corp" yields "X" and not the company after the comma
  (`FilterCommon.ExtractDivision`).
- `re.split` always returns at least one part, so the fallback
  `affiliation.strip()` is never reached (`FilterCommon.Split`).

## Model

| member | source | states |
|---|---|---|
| Text.Lower | get-papers-list/paper_finder/filter.py:141-142 | Lower-casing keeps the length and maps each character to its lower-case form: 'A'..'Z' move up by 32 and every other character is kept |
| Text.LowerIdempotent | get-papers-list/paper_finder/filter.py:173 | Lower-casing an already lower-cased address changes nothing |
| Text.WholeWordIsContained | get-papers-list/paper_finder/filter.py:217-221 | A whole-word `\b...\b` match is also a substring match |
| Text.Strip | paper_finder/parser.py:206 | `strip()` returns the slice between a whitespace-only head and a whitespace-only tail, and it neither starts nor ends with whitespace |
| Text.SpaceRunIs | paper_finder/parser.py:205 | The whitespace run from a position is exactly the one that ends at the first character outside whitespace |
| Text.SpaceRunOfPrefix | paper_finder/parser.py:205 | A whitespace run that ends inside a text ends at the same place whatever follows that text |
| Text.JoinContainsEach | get-papers-list/paper_finder/output.py:121 | Every name joined with "; " occurs in the joined string |
| Sequences.Filter | get-papers-list/paper_finder/filter.py:117-121 | The order-preserving filter is never longer than its input; what it keeps is stated by the lemmas below |
| Sequences.FilterMembers | get-papers-list/paper_finder/filter.py:117-121 | The filtered list holds exactly the input elements that satisfy the predicate |
| Sequences.FilterStep | get-papers-list/paper_finder/filter.py:119-121 | One loop step appends the element to the result exactly when it satisfies the predicate |
| Sequences.FilterIsSubsequence | get-papers-list/paper_finder/filter.py:117-121 | The result is a subsequence of the input, so the original order is kept |
| Sequences.FilterCounts | get-papers-list/paper_finder/filter.py:117-121 | A kept element occurs as often as in the input; a rejected one does not occur |
| Sequences.FilterEmpty | get-papers-list/paper_finder/filter.py:98 | The result is empty exactly when no element satisfies the predicate |
| Batch.IdentifyIndustryAuthors | get-papers-list/paper_finder/filter.py:107-129 | The loop returns the order-preserving filter of the authors by the classifier: exactly the industry authors |
| Batch.HasIndustryAuthorIff | get-papers-list/paper_finder/filter.py:96-98 | A paper passes exactly when one of its authors is classified as industry |
| Batch.FilterPapersWithIndustryAuthors | get-papers-list/paper_finder/filter.py:83-105 | The loop keeps exactly the papers with an industry author, unchanged and in their original order |
| Batch.PaperStep | get-papers-list/paper_finder/filter.py:95-100 | One paper step appends the paper exactly when its list of industry authors is non-empty |
| Batch.KeptPapers | get-papers-list/paper_finder/filter.py:83-105 | A paper is kept exactly when it has an industry author, and the kept papers form a subsequence of the input |
| Batch.CompanySet | get-papers-list/paper_finder/filter.py:252-258 | A name is collected exactly when some industry author with a non-empty affiliation yields it as a non-empty extracted name |
| Batch.CompanySetStep | get-papers-list/paper_finder/filter.py:254-258 | One author step adds that author's extracted name exactly when the author contributes one |
| Batch.GetCompanyAffiliations | get-papers-list/paper_finder/filter.py:242-260 | The loop collects exactly the company set described above |
| Batch.CompanyNamesAreClean | get-papers-list/paper_finder/filter.py:255-258 | Every collected name is non-empty, trimmed and free of ',' and ';', and it occurs in the affiliation of an industry author |
| Batch.CompanySetOfIndustryAuthors | get-papers-list/paper_finder/output.py:80 | Collecting from the industry authors alone gives the same names as collecting from all authors |
| FilterCommon.InputsAreLower | get-papers-list/paper_finder/filter.py:141-142 | The address and the affiliation the classifier scores are lower case, and a missing field is "" |
| FilterCommon.NoMarkerWithoutEach | get-papers-list/paper_finder/filter.py:176-178 | An address that contains none of the six academic domain strings gets no academic marker |
| FilterCommon.AcademicPatternHasMarker | get-papers-list/paper_finder/filter.py:181-182 | Any address the academic regular expression matches (an '@', any run of non-newline characters, then ".edu", ".ac." or ".edu.") already contains ".edu" or ".ac.", so the -0.9 branch is dead |
| FilterCommon.PfizerAddress | get-papers-list/test_paper_finder.py:128 | "jane.johnson@pfizer.com" is lower case, has no academic marker and ends in ".com" |
| FilterCommon.HarvardAddress | get-papers-list/test_paper_finder.py:115 | "john.smith@harvard.edu" is lower case and has an academic marker |
| FilterCommon.CommercialTestAddress | get-papers-list/test_paper_finder.py:141 | "test@pfizer.com" is lower case, has no academic marker and ends in ".com" |
| FilterCommon.Present | get-papers-list/paper_finder/filter.py:209-214 | The counted keywords are exactly the lexicon entries the text contains, each counted once |
| FilterCommon.PresentNone | get-papers-list/paper_finder/filter.py:209-214 | When no lexicon entry occurs, nothing is counted |
| FilterCommon.AcademicCount | get-papers-list/paper_finder/filter.py:209-221 | Every academic keyword present counts, and a whole-word "university", "college" or "institute" brings the count to at least 3: once as a keyword and twice for the boost |
| FilterCommon.AcademicCountPositive | get-papers-list/paper_finder/filter.py:209-221 | The academic count is positive exactly when some academic keyword occurs, because the whole-word boost words are keywords themselves |
| FilterCommon.NestedAcademicKeywordsBothCount | get-papers-list/paper_finder/filter.py:209-210 | A text containing "laboratory" counts both "lab" and "laboratory" (presence, not occurrences), so its count is at least 2 |
| FilterCommon.AcademicCountOfEmpty | get-papers-list/paper_finder/filter.py:209-221 | The empty text has academic count 0 |
| FilterCommon.LegalSuffixOfEmpty | get-papers-list/paper_finder/filter.py:217 | The empty text has no whole-word legal suffix |
| FilterCommon.AcademicKeywordsAbsent | get-papers-list/paper_finder/filter.py:209-221 | A text without the letters b, d, g and s, and without "clinic", "faculty" and "polytechnic", has academic count 0 |
| FilterCommon.CoreKeywordsAbsent | get-papers-list/paper_finder/filter.py:213-214 | A text without the characters c, g, l and '&', and without "pharma", "sa", "pty" and "pvt", contains no shared industry keyword |
| FilterCommon.PfizerTestText | get-papers-list/test_paper_finder.py:151 | "pfizer pharmaceutical company" is lower case, contains "pharmaceutical" and has academic count 0 |
| FilterCommon.HarvardTestText | get-papers-list/test_paper_finder.py:147 | "harvard university department" is lower case and has academic count at least 4: two keywords plus the whole-word "university" boost |
| FilterCommon.HarvardTestTextCore | get-papers-list/test_paper_finder.py:147 | "harvard university department" contains no shared industry keyword |
| FilterCommon.FirstSeparator | get-papers-list/paper_finder/filter.py:273 | The index of the first ',' or ';', or the length when there is none |
| FilterCommon.FirstSeparatorAt | get-papers-list/paper_finder/filter.py:273 | Any index with a separator there and none before it is the first separator |
| FilterCommon.Split | get-papers-list/paper_finder/filter.py:273-274 | `re.split(r'[,;]', ...)` returns at least one part, and the first part is the text before the first separator |
| FilterCommon.SplitPartsHaveNoSeparator | get-papers-list/paper_finder/filter.py:273 | No part of the split contains ',' or ';' |
| FilterCommon.DropPrefix | get-papers-list/paper_finder/filter.py:277 | Removing a prefix and the whitespace run after it leaves a strictly shorter suffix that does not start with whitespace |
| FilterCommon.StripOrgPrefix | get-papers-list/paper_finder/filter.py:277 | The substitution returns a suffix of its input: the input itself when no prefix opens it, otherwise a shorter suffix that does not start with whitespace |
| FilterCommon.StripOrgPrefixOf | get-papers-list/paper_finder/filter.py:277 | For each of the three prefixes, written in any case and followed by whitespace, the substitution removes that prefix and the whitespace |
| FilterCommon.StripOrgPrefixTrimmed | get-papers-list/paper_finder/filter.py:275-277 | A trimmed segment stays trimmed after the substitution, and it becomes empty only if it was empty |
| FilterCommon.ExtractCompanyName | get-papers-list/paper_finder/filter.py:262-280 | The name is the prefix removal applied to the trimmed first segment, so the split comes before the substitution and the final `affiliation.strip()` is never reached; the name is no longer than the affiliation |
| FilterCommon.ExtractCompanyNameShape | get-papers-list/paper_finder/filter.py:262-280 | The name is free of separators, trimmed and a substring of the affiliation. It equals the leading segment when that has no prefix, and it is empty only when the leading segment is |
| FilterCommon.ExtractInAffiliation | get-papers-list/paper_finder/filter.py:262-280 | The extracted name occurs in the affiliation |
| FilterCommon.ExtractHasNoSeparator | get-papers-list/paper_finder/filter.py:273-278 | The extracted name contains no ',' or ';' |
| FilterCommon.SegmentInAffiliation | get-papers-list/paper_finder/filter.py:273-275 | The trimmed first segment occurs in the affiliation and holds no separator |
| FilterCommon.ExtractWithoutPrefix | get-papers-list/paper_finder/filter.py:273-278 | Without an organisational prefix the name is the trimmed first segment |
| FilterCommon.ExtractWithPrefix | get-papers-list/paper_finder/filter.py:273-278 | With a prefix the name is the trimmed first segment minus that prefix and its whitespace |
| FilterCommon.LeadingSegmentAt | get-papers-list/paper_finder/filter.py:273-275 | A first segment that already has no space at either end is taken unchanged |
| FilterCommon.ExtractPfizer | get-papers-list/test_paper_finder.py:127 | "Pfizer Inc., Research Division" yields "Pfizer Inc." |
| FilterCommon.ExtractDivision | get-papers-list/paper_finder/filter.py:273-278 | "Division of X, Acme Corp" yields "X", because the split happens before the prefix is removed |
| RichFilter.EmailScore | get-papers-list/paper_finder/filter.py:163-194 | The score is one of 0, -0.8, 0.6, 0.8, 0.3 and 0.4 (never -0.9). It is -0.8 exactly for a non-empty address with an academic marker. It is positive only for an address without a marker ending in ".com", ".biz", ".org" or ".net" |
| RichFilter.EmailSuffixScores | get-papers-list/paper_finder/filter.py:185-194 | For an address without a marker, the first matching suffix decides: ".com" 0.6, ".biz" 0.8, ".org" 0.3, ".net" 0.4, and none of them 0 |
| RichFilter.IndustryCount | get-papers-list/paper_finder/filter.py:213-227 | Each known company present adds at least two, and a whole-word legal suffix brings the count to at least 3: once as a keyword and twice for the boost |
| RichFilter.IndustryCountPositive | get-papers-list/paper_finder/filter.py:213-227 | The industry count is positive exactly when an industry keyword or a known company occurs |
| RichFilter.CompanyBoost | get-papers-list/paper_finder/filter.py:224-227 | A known company in the text lifts the industry count to at least 2 |
| RichFilter.IndustryCountOfEmpty | get-papers-list/paper_finder/filter.py:213-227 | The empty text has industry count 0 |
| RichFilter.Decide | get-papers-list/paper_finder/filter.py:231-240 | The table value is one of -0.7, 0.8, 0.6, -0.4 and 0.1. -0.7 means academic-only evidence and 0.8 industry-only. It is above 0.5 exactly when industry outweighs academic, below 0 exactly when academic outweighs industry, and 0.1 exactly on a tie |
| RichFilter.AffiliationScore | get-papers-list/paper_finder/filter.py:196-240 | The empty text scores 0. Any other text scores within [-0.7, 0.8], leans industry or academic exactly as its lower-cased counts do, and scores 0.1 exactly on a tie |
| RichFilter.Total | get-papers-list/paper_finder/filter.py:151 | The weighted total lies in [-0.77, 0.8] |
| RichFilter.IsIndustry | get-papers-list/paper_finder/filter.py:131-161 | An industry author never has an academic e-mail score, and when the e-mail scores 0 the affiliation must lean industry (score above 0.5) |
| RichFilter.IndustryByScores | get-papers-list/paper_finder/filter.py:141-161 | An author is industry exactly when: the e-mail score is at least 0.6; or it is 0.4 and the affiliation is not academic-only; or it is 0.3 and the affiliation score is at least 0; or the e-mail score is 0 and the affiliation leans industry |
| RichFilter.NoEvidenceIsAcademic | get-papers-list/paper_finder/filter.py:141-161 | With no address and no affiliation the total is 0 and the author is not industry |
| RichFilter.AcademicEmailIsAcademic | get-papers-list/paper_finder/filter.py:151-161 | An address with an academic marker brings the total to at most -0.32, so the author is never industry |
| RichFilter.SilentEmailDecidesByCounts | get-papers-list/paper_finder/filter.py:151-161 | When the e-mail scores 0, the author is industry exactly when the industry count exceeds the academic count |
| RichFilter.EmptyAffiliationDecidesByEmail | get-papers-list/paper_finder/filter.py:151-161 | With an empty affiliation, the author is industry exactly when the e-mail score is positive |
| RichFilter.CommercialEmailIsIndustry | get-papers-list/paper_finder/filter.py:185-188 | A ".com" or ".biz" address without an academic marker makes the author industry whatever the affiliation |
| RichFilter.HarvardAuthorIsAcademic | get-papers-list/test_paper_finder.py:108-119 | An author with the address "john.smith@harvard.edu" is not industry |
| RichFilter.PfizerAuthorIsIndustry | get-papers-list/test_paper_finder.py:121-132 | An author with the address "jane.johnson@pfizer.com" is industry |
| RichFilter.AcademicTestAddressScore | get-papers-list/test_paper_finder.py:137-138 | "test@harvard.edu" scores below 0 |
| RichFilter.CommercialTestAddressScore | get-papers-list/test_paper_finder.py:141-142 | "test@pfizer.com" scores above 0 |
| RichFilter.HarvardTestTextIndustry | get-papers-list/test_paper_finder.py:147 | "harvard university department" contains no industry keyword and no known company, so its industry count is 0 |
| RichFilter.AcademicTestTextScore | get-papers-list/test_paper_finder.py:147-148 | "harvard university department" scores below 0 |
| RichFilter.IndustryTestTextScore | get-papers-list/test_paper_finder.py:151-152 | "pfizer pharmaceutical company" scores above 0 |
| SimpleFilter.EmailScore | paper_finder/filter.py:125-154 | The score is one of 0, -0.8, 0.6, 0.8 and 0.2 (never -0.9). It is -0.8 exactly for a non-empty address with an academic marker. It is positive only for an address without a marker ending in ".com", ".biz" or ".org" |
| SimpleFilter.EmailSuffixScores | paper_finder/filter.py:147-154 | For an address without a marker: ".com" 0.6, ".biz" 0.8, ".org" 0.2, and anything else (".net" included) 0 |
| SimpleFilter.IndustryCount | paper_finder/filter.py:169-178 | Every keyword present counts, and a whole-word legal suffix brings the count to at least 3: once as a keyword and twice for the boost |
| SimpleFilter.IndustryCountPositive | paper_finder/filter.py:173-178 | The industry count is positive exactly when a keyword of the shared list occurs |
| SimpleFilter.IndustryCountOfEmpty | paper_finder/filter.py:173-178 | The empty text has industry count 0 |
| SimpleFilter.Decide | paper_finder/filter.py:184-193 | The table value is one of -0.7, 0.8, 0.5, -0.5 and 0.0. It is positive exactly when industry outweighs academic, negative exactly when academic outweighs industry, and 0 exactly on a tie |
| SimpleFilter.AffiliationScore | paper_finder/filter.py:156-193 | The empty text scores 0. Any other text scores within [-0.7, 0.8], and the sign follows the lower-cased counts |
| SimpleFilter.AffiliationSign | paper_finder/filter.py:163-193 | For lower-case text, including the empty text, the score is positive exactly when industry outweighs academic and negative exactly in the reverse case |
| SimpleFilter.Total | paper_finder/filter.py:117 | The weighted total lies in [-0.77, 0.8] |
| SimpleFilter.IsIndustry | paper_finder/filter.py:97-123 | The threshold 0.5 is out of reach without an e-mail score of 0.6 or 0.8 |
| SimpleFilter.IndustryByScores | paper_finder/filter.py:107-123 | An author is industry exactly when the e-mail scores 0.8 and the affiliation score is at least 0, or the e-mail scores 0.6 and the affiliation score is positive |
| SimpleFilter.IndustryNeedsCommercialEmail | paper_finder/filter.py:117-154 | Hence every industry author's address ends in ".com" or ".biz" |
| SimpleFilter.NoEmailOrOrgIsAcademic | paper_finder/filter.py:117-123 | An author without an address, or with an ".org" address, is never industry |
| SimpleFilter.ComEmailDecidesByCounts | paper_finder/filter.py:117-123 | With a ".com" address without a marker, the author is industry exactly when the industry count exceeds the academic count |
| SimpleFilter.BizEmailDecidesBySign | paper_finder/filter.py:117-123 | With a ".biz" address without a marker, the author is industry exactly when the affiliation score is at least 0, that is when academic does not outweigh industry |
| SimpleFilter.IndustryTestTextScore | paper_finder/filter.py:156-193 | Under this tuning too, "pfizer pharmaceutical company" scores above 0 |
| SimpleFilter.AcademicTestTextScore | paper_finder/filter.py:156-193 | Under this tuning too, "harvard university department" scores below 0 |
| EmailRegex.RunFacts | paper_finder/parser.py:177 | A greedy character-class run holds only class characters and stops at the end or at a character outside the class |
| EmailRegex.RunIsLongest | paper_finder/parser.py:177 | No run of class characters at that position is longer than the greedy one |
| EmailRegex.MatchAtSound | paper_finder/parser.py:177 | What the backtracking matcher returns at a position is a match of the pattern |
| EmailRegex.MatchAtComplete | paper_finder/parser.py:177 | Whenever the pattern matches at a position, the matcher finds a match there |
| EmailRegex.TldEndLongest | paper_finder/parser.py:177 | The back-off of `[A-Z\|a-z]{2,}\b` keeps the longest admissible top-level part |
| EmailRegex.DomainTryLongest | paper_finder/parser.py:177 | The back-off of the greedy domain ends no earlier than any match with a shorter domain, because a top-level part cannot cross the '.' that ends a longer domain |
| EmailRegex.MatchAtLongest | paper_finder/parser.py:177 | At its start position the matcher returns the longest match of the pattern |
| EmailRegex.SearchFromFacts | paper_finder/parser.py:178 | The search reports the leftmost start position with a match, and it reports none only when no position has one |
| EmailRegex.ExtractEmail | paper_finder/parser.py:174-175 | Empty text yields no address |
| EmailRegex.ExtractEmailIsLeftmostMatch | paper_finder/parser.py:172-180 | A returned address is a match of the pattern, no match starts further left, and no match from the same start ends further right |
| EmailRegex.ExtractEmailNoneIffNoMatch | paper_finder/parser.py:178-180 | No address is returned exactly when the pattern matches nowhere |
| EmailRegex.MatchHasOneAt | paper_finder/parser.py:177 | Every match contains exactly one '@' |
| EmailRegex.ExtractEmailShape | paper_finder/parser.py:172-180 | A returned address is a substring of the text with exactly one '@' |
| Parser.Take3 | paper_finder/parser.py:169 | `s[:3]` is the first three characters, or all of them when there are fewer |
| Parser.MonthValuesAreTwoDigits | paper_finder/parser.py:163-167 | Every value of the month map is two digits |
| Parser.MonthNumber | paper_finder/parser.py:161-170 | A string whose lower-cased first three characters name a month maps to two digits, and any other string is returned unchanged |
| Parser.NumericMonthUnchanged | paper_finder/parser.py:169-170 | A numeric month is returned as it is |
| Parser.MonthNumberIdempotent | paper_finder/parser.py:161-170 | Converting twice equals converting once |
| Parser.MonthNumberCaseInsensitive | paper_finder/parser.py:169 | Two spellings with the same lower-cased first three letters naming a month map to the same number |
| Parser.MonthNumberExamples | paper_finder/parser.py:161-170 | "Jan" maps to "01", "DECEMBER" to "12", and "Spring" stays "Spring" |
| Parser.ZFill | paper_finder/parser.py:157 | `zfill(width)` keeps a string at least width long. A shorter one is left-padded with '0' to the width, and the padding goes after a leading sign |
| Parser.ZFillIdempotent | paper_finder/parser.py:157 | Padding twice equals padding once |
| Parser.ZFillKeepsDigits | paper_finder/parser.py:157 | Without a sign, the result ends with the input and everything before it is '0' |
| Parser.FieldOr | paper_finder/parser.py:189-197 | A child with non-empty text gives that text stripped, even when the strip leaves ""; a missing child or an empty text gives the default |
| Parser.WhitespaceMonthPadsToZeros | paper_finder/parser.py:149-157 | A whitespace-only month is not replaced by "01": it strips to "", which pads to "00", so year 2020, month " " and day "5" give "2020-00-05" |
| Parser.FormatDate | paper_finder/parser.py:150-157 | The date opens with the year and a '-', and it is at least six characters longer than the year, since month and day are each padded to at least two |
| Parser.PublicationDate | paper_finder/parser.py:137-159 | The loop returns "" exactly when no candidate has a non-blank year. Otherwise it returns the formatted date, with the stripped year, of the first candidate, in the order PubDate, ArticleDate, DateCompleted, that has one |
| Parser.FormatDateShape | paper_finder/parser.py:157 | With a four-character year and a month and day of at most two unsigned characters (possibly none), the date is "YYYY-MM-DD": ten characters, the year first, dashes at positions 4 and 7 |
| Parser.Collapse | paper_finder/parser.py:205 | The substitution never lengthens the text; its meaning is stated by the lemmas below |
| Parser.CollapseNormal | paper_finder/parser.py:205 | After the substitution every whitespace character is a single space with no space beside it. The result starts with a space exactly when the input starts with whitespace, and it is empty only for empty input |
| Parser.CollapseOfNormal | paper_finder/parser.py:205 | The substitution leaves text that is already normal unchanged |
| Parser.CollapseAfterRun | paper_finder/parser.py:205 | A leading whitespace run becomes one space, and the substitution goes on from the first character after it |
| Parser.CollapseHead | paper_finder/parser.py:205 | A text that does not end in whitespace starts its substitution with one step (a space for a leading run, or the first character) that does not depend on what follows the text |
| Parser.CollapseJoin | paper_finder/parser.py:205 | The substitution works run by run: a whitespace run between a text not ending in whitespace and one not starting with it becomes exactly one space, and both sides are substituted on their own |
| Parser.CleanText | paper_finder/parser.py:199-208 | The cleaned text is normal and neither starts nor ends with a space |
| Parser.CleanTextIdempotent | paper_finder/parser.py:199-208 | Cleaning twice equals cleaning once |
| Parser.CollapseVisible | paper_finder/parser.py:205 | The substitution keeps every non-whitespace character, in order |
| Parser.StripVisible | paper_finder/parser.py:206 | `strip()` keeps every non-whitespace character, in order |
| Parser.CleanTextVisible | paper_finder/parser.py:199-208 | Cleaning keeps exactly the non-whitespace characters of the text, in order |
| Parser.ExtractAuthors | paper_finder/parser.py:108-135 | The loop returns one author per element, in document order, with the element's fields and the address found in that author's own affiliation |
| Parser.AuthorEmailsFromAffiliation | paper_finder/parser.py:123 | An author's address, when present, occurs in the affiliation and holds exactly one '@' |
| Parser.CorrespondingEmail | paper_finder/parser.py:182-187 | The loop returns the non-empty address of the first author who has one, and none when no author does |
| Output.FormatName | get-papers-list/paper_finder/output.py:110-117 | An entry opens with the last name, then gives ", First" when there is a first name, ", Initials" when there are only initials, and nothing more otherwise |
| Output.Names | get-papers-list/paper_finder/output.py:108-119 | One entry per author, in author order |
| Output.FormatAuthors | get-papers-list/paper_finder/output.py:98-121 | The loop returns the entries joined with "; ", and every author's entry occurs in it |
| Output.FormatAuthorsTest | get-papers-list/test_paper_finder.py:190-200 | The list for Smith/John and Doe/J.D. contains "Smith, John" and "Doe, J.D." |
| Output.Cells | get-papers-list/paper_finder/output.py:86-96 | The row's dictionary has exactly the nine columns as its keys |
| Output.RequiredColumnsPresent | get-papers-list/validate_project.py:160-186 | Every required column is among the columns and is a key of every row's dictionary, and no column is repeated |
| Output.EmailText | get-papers-list/paper_finder/output.py:84 | `email or ""`: the address when there is one, otherwise "" |
| Output.PrepareRow | get-papers-list/paper_finder/output.py:65-96 | The row counts all authors and the industry authors, lists the industry authors' names and their company set, copies the ID, title, date and journal, and carries the corresponding address or "", empty exactly when the paper has none |
| Output.PaperRowFacts | get-papers-list/paper_finder/output.py:77-95 | In the row of a paper with industry authors, 1 <= industry count <= total authors, and the companies are those of all the paper's authors |
| Output.RowsOfSnoc | get-papers-list/paper_finder/output.py:40-46 | One more paper adds its row, if it has one, at the end |
| Output.RowsOfKeptPapers | get-papers-list/paper_finder/output.py:38-46 | There is one row per paper with an industry author, in input order, and the k-th row is the row of the k-th such paper |
| Output.ExportRows | get-papers-list/paper_finder/output.py:38-46 | The loop produces exactly those rows, as many as there are papers with an industry author |
| Output.RowsAfterPaperFilter | get-papers-list/paper_finder/output.py:135-143 | Filtering the papers first does not change the rows |
| Output.RowForOfKept | get-papers-list/paper_finder/output.py:135-143 | A paper has a row exactly when the paper filter keeps it |
| Output.Summarize | get-papers-list/paper_finder/output.py:168-176 | The loop counts all papers, the papers with an industry author, and the industry authors over all papers |
| Output.SummaryStep | get-papers-list/paper_finder/output.py:172-176 | One paper step adds 1 and its industry-author count exactly when it has industry authors |
| Output.SummaryBounds | get-papers-list/paper_finder/output.py:168-176 | The papers with industry authors number at most all papers and at most the industry authors |
| Output.TruncateAbstract | get-papers-list/paper_finder/output.py:213 | An abstract of at most 500 characters is kept. A longer one becomes its first 500 characters followed by "..." |
| Output.TruncateAbstractIdempotent | get-papers-list/paper_finder/output.py:213 | A truncated abstract has at most 503 characters, and truncating again changes nothing |
| Output.PaperDetails | get-papers-list/paper_finder/output.py:200-215 | One detail row per industry author of the paper, in author order |
| Output.DetailsCount | get-papers-list/paper_finder/output.py:195-215 | The detailed report has as many rows as there are industry authors over all papers |
| Output.DetailsAreIndustryPairs | get-papers-list/paper_finder/output.py:197-215 | Every detail row belongs to a paper of the input and one of that paper's industry authors |
| Output.DetailedRows | get-papers-list/paper_finder/output.py:195-215 | The loop produces exactly those rows, as many as there are industry authors |

## Left out

- The XML/XPath walk of paper_finder/parser.py (`parse_papers`, `_parse_single_paper`, the lookup in `_get_text`) depends on lxml. Date children arrive as their raw texts (`DateNode`), and `Parser.FieldOr` applies the default and the strip of `_get_text`. Author fields arrive as the texts `_get_text` returns (`AuthorFields`): their default is "", so the strip and the default give the same result for a missing, empty or blank text.
- Network fetching (paper_finder/fetch.py), the language-model service (llm_service.py), the web application (app.py) and the command-line front-ends are not part of this model. They are I/O, threads and foreign calls.
- DataFrames, CSV files, directories and console printing in output.py are not modelled: each operation returns the rows or counts it would have written. The same goes for all debug printing in the filters.
- Output.Summarize: the average number of industry authors per paper (output.py:183-185) is a floating-point division that is only printed, so it is not modelled.
- The early returns of `export_papers` and `print_to_console` on an empty paper list only print a message. The model returns the empty row list instead.
- Batch.GetCompanyAffiliations: `list(set)` has no specified order, so the company names are a set, and the joined "Company Affiliation(s)" text is modelled as that set (`Row.companyAffiliations`).
- Batch, Output: the classifier is a parameter (`isIndustry`), so the loops are proved once for both tunings. The exporter passes `RichFilter.IsIndustry`, and paper_finder/filter.py:49-95 has the same loops as the richer file.
- Python's `lower()`, `\s`, `\b` and character classes are Unicode-aware. The model assumes ASCII text: lower-casing moves only 'A'..'Z', and whitespace is the ASCII whitespace `str.isspace` accepts.
