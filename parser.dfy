/** The string helpers of `PubMedParser` in paper_finder/parser.py.  The XML
    walk itself is not modelled: dates and authors arrive as the text fields
    the XPath queries would have produced. */
module Parser {
  import opened Text
  import opened Records
  import opened EmailRegex

  // ---------------------------------------------------------------------
  // month names

  /** The `month_map` of `_convert_month_name_to_number`. */
  const MonthMap: map<string, string> := map[
    "jan" := "01", "feb" := "02", "mar" := "03", "apr" := "04",
    "may" := "05", "jun" := "06", "jul" := "07", "aug" := "08",
    "sep" := "09", "oct" := "10", "nov" := "11", "dec" := "12"]

  /** Python's `s[:3]`. */
  function Take3(s: string): (r: string)
    ensures |r| == if |s| < 3 then |s| else 3
    ensures r == s[..|r|]
  {
    if |s| <= 3 then s else s[..3]
  }

  predicate IsDigit(c: char) { '0' <= c <= '9' }

  predicate IsTwoDigits(s: string) {
    |s| == 2 && IsDigit(s[0]) && IsDigit(s[1])
  }

  lemma {:induction false} MonthValuesAreTwoDigits(k: string)
    requires k in MonthMap
    ensures IsTwoDigits(MonthMap[k])
  {
  }

  /** `_convert_month_name_to_number`: a month whose first three letters,
      in any case, name a month becomes its two-digit number; anything else
      comes back as given, case included. */
  function MonthNumber(month: string): (r: string)
    ensures Take3(Lower(month)) in MonthMap ==> IsTwoDigits(r)
    ensures Take3(Lower(month)) !in MonthMap ==> r == month
  {
    var key := Take3(Lower(month));
    if key in MonthMap then MonthMapValue(key) else month
  }

  function MonthMapValue(key: string): (r: string)
    requires key in MonthMap
    ensures r == MonthMap[key] && IsTwoDigits(r)
  {
    MonthValuesAreTwoDigits(key);
    MonthMap[key]
  }

  /** A digit string is never a month name, so it passes through. */
  lemma {:induction false} NumericMonthUnchanged(month: string)
    requires forall i :: 0 <= i < |month| ==> IsDigit(month[i])
    ensures MonthNumber(month) == month
  {
    var key := Take3(Lower(month));
    assert |key| > 0 ==> key[0] == LowerChar(month[0]) && IsDigit(key[0]);
    assert key !in MonthMap;
  }

  /** Converting twice is converting once. */
  lemma {:induction false} MonthNumberIdempotent(month: string)
    ensures MonthNumber(MonthNumber(month)) == MonthNumber(month)
  {
    var r := MonthNumber(month);
    if Take3(Lower(month)) in MonthMap {
      NumericMonthUnchanged(r);
    }
  }

  /** Only the first three letters count, and their case does not: two
      months that agree there convert alike when they name a month. */
  lemma {:induction false} MonthNumberCaseInsensitive(m1: string, m2: string)
    requires Take3(Lower(m1)) == Take3(Lower(m2)) && Take3(Lower(m1)) in MonthMap
    ensures MonthNumber(m1) == MonthNumber(m2)
  {
  }

  lemma MonthNumberExamples(a: string, b: string, c: string)
    requires a == "Jan" && b == "DECEMBER" && c == "Spring"
    ensures MonthNumber(a) == "01" && MonthNumber(b) == "12" && MonthNumber(c) == c
  {
    assert Take3(Lower(a)) == "jan";
    assert Take3(Lower(b)) == "dec";
    assert Take3(Lower(c)) == "spr";
  }

  // ---------------------------------------------------------------------
  // zfill

  function Zeros(n: nat): (z: string)
    ensures |z| == n && forall i :: 0 <= i < n ==> z[i] == '0'
  {
    seq(n, _ => '0')
  }

  /** Python's `s.zfill(width)`: '0's after an optional leading sign until
      the string is `width` long; a string already that long is kept. */
  function ZFill(s: string, width: nat): (r: string)
    ensures |r| == if |s| >= width then |s| else width
    ensures |s| >= width ==> r == s
    ensures |s| < width && (s == [] || (s[0] != '+' && s[0] != '-')) ==>
      r == Zeros(width - |s|) + s
    ensures |s| < width && s != [] && (s[0] == '+' || s[0] == '-') ==>
      r == [s[0]] + Zeros(width - |s|) + s[1..]
  {
    if |s| >= width then s
    else if s != [] && (s[0] == '+' || s[0] == '-') then [s[0]] + Zeros(width - |s|) + s[1..]
    else Zeros(width - |s|) + s
  }

  /** Padding once is padding for good. */
  lemma {:induction false} ZFillIdempotent(s: string, width: nat)
    ensures ZFill(ZFill(s, width), width) == ZFill(s, width)
  {
  }

  /** Padding only adds '0's: without a sign the original is a suffix and
      everything before it is '0'. */
  lemma {:induction false} ZFillKeepsDigits(s: string, width: nat)
    requires s == [] || (s[0] != '+' && s[0] != '-')
    ensures var r := ZFill(s, width);
      && EndsWith(r, s)
      && forall i :: 0 <= i < |r| - |s| ==> r[i] == '0'
  {
  }

  // ---------------------------------------------------------------------
  // publication date

  /** The children of one date element (`PubDate`, `ArticleDate` or
      `DateCompleted`): the raw text of each, `None` when the child is
      missing or has no text. */
  datatype DateNode = DateNode(year: Option<string>, month: Option<string>, day: Option<string>)

  /** `_get_text(..., default)`: a child with non-empty text gives that
      text stripped, even when stripping leaves nothing; a missing child
      or an empty text gives the default. */
  function FieldOr(field: Option<string>, default: string): (r: string)
    ensures field.Some? && field.value != "" ==> r == Strip(field.value)
    ensures field.None? || field.value == "" ==> r == default
  {
    match field
    case Some(t) => if t == "" then default else Strip(t)
    case None => default
  }

  /** A whitespace-only month is not replaced by its default: it strips
      to "", which pads to "00". */
  lemma WhitespaceMonthPadsToZeros(node: DateNode)
    requires node == DateNode(Some("2020"), Some(" "), Some("5"))
    ensures FieldOr(node.month, "01") == ""
    ensures FormatDate("2020", node) == "2020-00-05"
  {
    assert FieldOr(node.day, "01") == "5";
    NumericMonthUnchanged("");
  }

  /** The date string of a candidate whose year is `year`. */
  function FormatDate(year: string, node: DateNode): (r: string)
    ensures |r| >= |year| + 6 && r[..|year|] == year && r[|year|] == '-'
  {
    var month := MonthNumber(FieldOr(node.month, "01"));
    var day := FieldOr(node.day, "01");
    year + "-" + ZFill(month, 2) + "-" + ZFill(day, 2)
  }

  /** A candidate is present and has a non-empty year. */
  predicate Dated(c: Option<DateNode>) {
    c.Some? && FieldOr(c.value.year, "") != ""
  }

  /** `_extract_publication_date` over the candidates in the order tried
      (PubDate, ArticleDate, DateCompleted): the first dated candidate
      decides, and with none the date is "". */
  method PublicationDate(candidates: seq<Option<DateNode>>) returns (date: string)
    ensures date == "" <==> forall i :: 0 <= i < |candidates| ==> !Dated(candidates[i])
    ensures date != "" ==> exists i :: (0 <= i < |candidates| && Dated(candidates[i])
      && (forall j :: 0 <= j < i ==> !Dated(candidates[j]))
      && date == FormatDate(FieldOr(candidates[i].value.year, ""), candidates[i].value))
  {
    var i := 0;
    while i < |candidates|
      invariant 0 <= i <= |candidates|
      invariant forall j :: 0 <= j < i ==> !Dated(candidates[j])
    {
      if candidates[i].Some? {
        var node := candidates[i].value;
        var year := FieldOr(node.year, "");
        var month := FieldOr(node.month, "01");
        var day := FieldOr(node.day, "01");
        month := MonthNumber(month);
        if year != "" {
          date := year + "-" + ZFill(month, 2) + "-" + ZFill(day, 2);
          assert date == FormatDate(year, node) && date != "";
          assert Dated(candidates[i]);
          return;
        }
      }
      i := i + 1;
    }
    date := "";
  }

  /** With a four-character year and a month and day of at most two
      unsigned characters each (a month name counts, as it converts to two
      digits), the date has the shape YYYY-MM-DD. */
  lemma {:induction false} FormatDateShape(year: string, node: DateNode)
    requires |year| == 4
    requires var m := FieldOr(node.month, "01");
      Take3(Lower(m)) in MonthMap || (|m| <= 2 && (m == [] || (m[0] != '+' && m[0] != '-')))
    requires var d := FieldOr(node.day, "01"); |d| <= 2 && (d == [] || (d[0] != '+' && d[0] != '-'))
    ensures var r := FormatDate(year, node);
      |r| == 10 && r[..4] == year && r[4] == '-' && r[7] == '-'
  {
  }

  // ---------------------------------------------------------------------
  // whitespace

  /** `re.sub(r'\s+', ' ', s)`: every maximal whitespace run becomes one
      space. */
  function Collapse(s: string): (r: string)
    ensures |r| <= |s|
    decreases |s|
  {
    if s == [] then []
    else if IsSpace(s[0]) then [' '] + Collapse(s[1 + SpaceRun(s, 1)..])
    else [s[0]] + Collapse(s[1..])
  }

  /** Text whose only whitespace is single spaces. */
  predicate Normal(s: string) {
    && (forall i :: 0 <= i < |s| && IsSpace(s[i]) ==> s[i] == ' ')
    && (forall i :: 0 <= i < |s| - 1 ==> !(s[i] == ' ' && s[i + 1] == ' '))
  }

  /** A collapsed text is normal and starts with a space exactly when the
      original starts with whitespace. */
  lemma {:induction false} CollapseNormal(s: string)
    ensures Normal(Collapse(s))
    ensures Collapse(s) != [] ==> (Collapse(s)[0] == ' ' <==> IsSpace(s[0]))
    ensures Collapse(s) == [] <==> s == []
    decreases |s|
  {
    if s != [] {
      if IsSpace(s[0]) {
        var rest := s[1 + SpaceRun(s, 1)..];
        CollapseNormal(rest);
        assert rest != [] ==> !IsSpace(rest[0]);
      } else {
        CollapseNormal(s[1..]);
      }
    }
  }

  /** A whitespace run at the front becomes one space, and the collapse
      goes on from the first character after it. */
  lemma {:induction false} CollapseAfterRun(w: string, b: string)
    requires w != [] && forall k :: 0 <= k < |w| ==> IsSpace(w[k])
    requires b == [] || !IsSpace(b[0])
    ensures Collapse(w + b) == " " + Collapse(b)
  {
    var s := w + b;
    assert |w| < |s| ==> s[|w|] == b[0];
    SpaceRunIs(s, 1, |w| - 1);
    assert s[|w|..] == b;
  }

  /** The collapse works run by run: a whitespace run between a text that
      does not end in whitespace and one that does not start with it
      becomes exactly one space, and both sides collapse on their own. */
  lemma {:induction false} CollapseJoin(a: string, w: string, b: string)
    requires w != [] && forall k :: 0 <= k < |w| ==> IsSpace(w[k])
    requires a == [] || !IsSpace(a[|a| - 1])
    requires b == [] || !IsSpace(b[0])
    ensures Collapse(a + w + b) == Collapse(a) + " " + Collapse(b)
    decreases |a|
  {
    if a == [] {
      CollapseAfterRun(w, b);
      assert a + w + b == w + b;
    } else {
      var h, rest := CollapseHead(a, w + b);
      CollapseJoin(rest, w, b);
      CollapseJoinStep(a, w, b, h, rest);
    }
  }

  /** The inductive step of `CollapseJoin`, from the head of `a`. */
  lemma {:induction false} CollapseJoinStep(a: string, w: string, b: string, h: string, rest: string)
    requires Collapse(a) == h + Collapse(rest)
    requires Collapse(a + (w + b)) == h + Collapse(rest + (w + b))
    requires Collapse(rest + w + b) == Collapse(rest) + " " + Collapse(b)
    ensures Collapse(a + w + b) == Collapse(a) + " " + Collapse(b)
  {
    Regroup(a, w, b, " ");
    Regroup(rest, w, b, " ");
    Regroup(h, Collapse(rest), Collapse(b), " ");
  }

  /** Concatenation regrouped, with and without a separator. */
  lemma Regroup(x: string, y: string, z: string, sep: string)
    ensures x + y + z == x + (y + z)
    ensures x + (y + sep + z) == (x + y) + sep + z
  {
  }

  /** The first step of the collapse of a text that does not end in
      whitespace: a head `h` (one space for a leading run, or the first
      character) and the rest, which is shorter and still does not end in
      whitespace; the step is the same whatever follows the text. */
  lemma {:induction false} CollapseHead(a: string, x: string) returns (h: string, rest: string)
    requires a != [] && !IsSpace(a[|a| - 1])
    ensures |rest| < |a| && (rest == [] || !IsSpace(rest[|rest| - 1]))
    ensures Collapse(a) == h + Collapse(rest)
    ensures Collapse(a + x) == h + Collapse(rest + x)
  {
    if IsSpace(a[0]) {
      var n := SpaceRun(a, 1);
      h, rest := " ", a[1 + n..];
      SpaceRunOfPrefix(a, x, 1);
      assert (a + x)[1 + n..] == rest + x;
    } else {
      h, rest := [a[0]], a[1..];
      assert (a + x)[1..] == rest + x;
    }
  }

  /** Normal text is left alone by the collapse. */
  lemma {:induction false} CollapseOfNormal(s: string)
    requires Normal(s)
    ensures Collapse(s) == s
    decreases |s|
  {
    if s != [] {
      assert Normal(s[1..]) by {
        forall i | 0 <= i < |s[1..]| - 1 ensures !(s[1..][i] == ' ' && s[1..][i + 1] == ' ') {
          assert s[1..][i] == s[i + 1] && s[1..][i + 1] == s[i + 2];
        }
      }
      if IsSpace(s[0]) {
        assert |s| > 1 ==> !IsSpace(s[1]);
        assert SpaceRun(s, 1) == 0;
      }
      CollapseOfNormal(s[1..]);
    }
  }

  /** A slice of normal text is normal. */
  lemma {:induction false} NormalSlice(s: string, i: nat, j: nat)
    requires Normal(s) && i <= j <= |s|
    ensures Normal(s[i..j])
  {
    var t := s[i..j];
    forall k | 0 <= k < |t| - 1 ensures !(t[k] == ' ' && t[k + 1] == ' ') {
      assert t[k] == s[i + k] && t[k + 1] == s[i + k + 1];
    }
  }

  /** `_clean_text`: "" for an empty text, otherwise the collapsed text
      stripped at both ends. */
  function CleanText(text: string): (r: string)
    ensures Normal(r)
    ensures r == [] || (r[0] != ' ' && r[|r| - 1] != ' ')
  {
    if text == "" then ""
    else
      var c := Collapse(text);
      CollapseNormal(text);
      NormalSlice(c, StripStart(c), StripEnd(c));
      Strip(c)
  }

  /** Cleaning a cleaned text changes nothing. */
  lemma {:induction false} CleanTextIdempotent(text: string)
    ensures CleanText(CleanText(text)) == CleanText(text)
  {
    var r := CleanText(text);
    if r != "" {
      CollapseOfNormal(r);
      StripUnchanged(r);
    }
  }

  /** The characters other than whitespace, in order. */
  function Visible(s: string): (v: string)
    decreases |s|
  {
    if s == [] then [] else (if IsSpace(s[0]) then [] else [s[0]]) + Visible(s[1..])
  }

  lemma {:induction false} VisibleAppend(a: string, b: string)
    ensures Visible(a + b) == Visible(a) + Visible(b)
    decreases |a|
  {
    if a == [] {
      assert a + b == b;
    } else {
      assert (a + b)[1..] == a[1..] + b;
      VisibleAppend(a[1..], b);
    }
  }

  lemma {:induction false} VisibleOfSpaces(s: string)
    requires forall i :: 0 <= i < |s| ==> IsSpace(s[i])
    ensures Visible(s) == []
    decreases |s|
  {
    if s != [] {
      VisibleOfSpaces(s[1..]);
    }
  }

  /** Collapsing keeps every visible character, in order. */
  lemma {:induction false} CollapseVisible(s: string)
    ensures Visible(Collapse(s)) == Visible(s)
    decreases |s|
  {
    if s != [] {
      if IsSpace(s[0]) {
        var n := SpaceRun(s, 1);
        var rest := s[1 + n..];
        CollapseVisible(rest);
        assert s == s[..1 + n] + rest;
        VisibleAppend(s[..1 + n], rest);
        VisibleOfSpaces(s[..1 + n]);
        VisibleAppend([' '], Collapse(rest));
      } else {
        CollapseVisible(s[1..]);
        VisibleAppend([s[0]], Collapse(s[1..]));
        assert s == [s[0]] + s[1..];
        VisibleAppend([s[0]], s[1..]);
      }
    }
  }

  /** Stripping removes whitespace only. */
  lemma {:induction false} StripVisible(s: string)
    ensures Visible(Strip(s)) == Visible(s)
  {
    var i := StripStart(s);
    var j := StripEnd(s);
    assert s == s[..i] + Strip(s) + s[j..];
    VisibleOfPadded(s[..i], Strip(s), s[j..]);
  }

  /** Whitespace on either side adds nothing visible. */
  lemma {:induction false} VisibleOfPadded(a: string, m: string, b: string)
    requires forall k :: 0 <= k < |a| ==> IsSpace(a[k])
    requires forall k :: 0 <= k < |b| ==> IsSpace(b[k])
    ensures Visible(a + m + b) == Visible(m)
  {
    VisibleAppend(a + m, b);
    VisibleAppend(a, m);
    VisibleOfSpaces(a);
    VisibleOfSpaces(b);
  }

  /** Cleaning loses no visible character and reorders none. */
  lemma {:induction false} CleanTextVisible(text: string)
    ensures Visible(CleanText(text)) == Visible(text)
  {
    if text != "" {
      CollapseVisible(text);
      StripVisible(Collapse(text));
    }
  }

  // ---------------------------------------------------------------------
  // authors

  /** The four texts `_extract_authors` reads from one `Author` element
      (`LastName`, `ForeName`, `Initials`, the first `Affiliation`), ""
      when missing. */
  datatype AuthorFields = AuthorFields(lastName: string, foreName: string, initials: string, affiliation: string)

  /** `_extract_authors`: one author per element, in document order, each
      with the address found in its own affiliation. */
  method ExtractAuthors(elements: seq<AuthorFields>) returns (authors: seq<Author>)
    ensures |authors| == |elements|
    ensures forall i :: 0 <= i < |authors| ==>
      && authors[i].lastName == elements[i].lastName
      && authors[i].firstName == elements[i].foreName
      && authors[i].initials == elements[i].initials
      && authors[i].affiliation == elements[i].affiliation
      && authors[i].email == ExtractEmail(elements[i].affiliation)
  {
    authors := [];
    var i := 0;
    while i < |elements|
      invariant 0 <= i <= |elements| && |authors| == i
      invariant forall k :: 0 <= k < i ==>
        authors[k] == Author(elements[k].lastName, elements[k].foreName, elements[k].initials,
                             elements[k].affiliation, ExtractEmail(elements[k].affiliation))
    {
      var e := elements[i];
      var email := ExtractEmail(e.affiliation);
      authors := authors + [Author(e.lastName, e.foreName, e.initials, e.affiliation, email)];
      i := i + 1;
    }
  }

  /** Every extracted author address is a substring of that author's
      affiliation with exactly one '@'. */
  lemma {:induction false} AuthorEmailsFromAffiliation(a: Author)
    requires a.email == ExtractEmail(a.affiliation) && a.email.Some?
    ensures Contains(a.affiliation, a.email.value) && Occurrences(a.email.value, '@') == 1
  {
    ExtractEmailShape(a.affiliation);
  }

  /** Python's truthiness test `if author.email:`. */
  predicate HasEmail(a: Author) {
    a.email.Some? && a.email.value != ""
  }

  /** `_find_corresponding_author_email`: the address of the first author,
      in list order, who has a non-empty one; `None` when nobody has. */
  method CorrespondingEmail(authors: seq<Author>) returns (email: Option<string>)
    ensures email.None? <==> forall i :: 0 <= i < |authors| ==> !HasEmail(authors[i])
    ensures email.Some? ==> exists i :: (0 <= i < |authors| && HasEmail(authors[i])
      && email == authors[i].email && forall j :: 0 <= j < i ==> !HasEmail(authors[j]))
  {
    var i := 0;
    while i < |authors|
      invariant 0 <= i <= |authors|
      invariant forall j :: 0 <= j < i ==> !HasEmail(authors[j])
    {
      if HasEmail(authors[i]) {
        return authors[i].email;
      }
      i := i + 1;
    }
    return None;
  }
}
