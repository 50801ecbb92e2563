/** The address pattern of `_extract_email_from_text`,
    `\b[A-Za-z0-9._%+-]+@[A-Za-z0-9.-]+\.[A-Z|a-z]{2,}\b`, and the first
    match `re.findall` reports.  The matcher below follows the regex
    engine's backtracking order; `IsMatch` is the pattern read as a plain
    description, and the two are proved to agree. */
module EmailRegex {
  import opened Text
  import opened Records

  predicate IsLetter(c: char) { ('a' <= c <= 'z') || ('A' <= c <= 'Z') }
  predicate IsDigitChar(c: char) { '0' <= c <= '9' }

  /** `[A-Za-z0-9._%+-]` */
  predicate IsLocalChar(c: char) {
    IsLetter(c) || IsDigitChar(c) || c == '.' || c == '_' || c == '%' || c == '+' || c == '-'
  }

  /** `[A-Za-z0-9.-]` */
  predicate IsDomainChar(c: char) {
    IsLetter(c) || IsDigitChar(c) || c == '.' || c == '-'
  }

  /** `[A-Z|a-z]`: inside a class '|' is a literal character, so it is a
      member alongside the letters. */
  predicate IsTldChar(c: char) {
    IsLetter(c) || c == '|'
  }

  /** Length of the longest run of `cls` characters starting at `i`: what a
      greedy `[...]+` consumes before it backtracks. */
  function Run(s: string, i: nat, cls: char -> bool): (n: nat)
    requires i <= |s|
    ensures i + n <= |s|
    decreases |s| - i
  {
    if i < |s| && cls(s[i]) then 1 + Run(s, i + 1, cls) else 0
  }

  /** Every character of `s[lo..hi]` is in `cls`. */
  predicate AllIn(s: string, lo: nat, hi: nat, cls: char -> bool) {
    lo <= hi <= |s| && forall p :: lo <= p < hi ==> cls(s[p])
  }

  lemma {:induction false} AllInPrefix(s: string, lo: nat, hi: nat, mid: nat, cls: char -> bool)
    requires AllIn(s, lo, hi, cls) && lo <= mid <= hi
    ensures AllIn(s, lo, mid, cls)
  {
  }

  /** The greedy run holds only `cls` characters and stops at the end of
      the text or at a character outside `cls`. */
  lemma {:induction false} RunFacts(s: string, i: nat, cls: char -> bool)
    requires i <= |s|
    ensures AllIn(s, i, i + Run(s, i, cls), cls)
    ensures i + Run(s, i, cls) == |s| || !cls(s[i + Run(s, i, cls)])
    decreases |s| - i
  {
    if i < |s| && cls(s[i]) {
      RunFacts(s, i + 1, cls);
    }
  }

  /** A run of `cls` characters is no longer than the greedy run. */
  lemma {:induction false} RunIsLongest(s: string, i: nat, cls: char -> bool, n: nat)
    requires AllIn(s, i, i + n, cls)
    ensures n <= Run(s, i, cls)
    decreases n
  {
    if n > 0 {
      RunIsLongest(s, i + 1, cls, n - 1);
    }
  }

  // ---------------------------------------------------------------------
  // the pattern as a description

  /** The pattern matches `s[i..e]`: a `\b`, a local part of `n >= 1`
      characters, '@', a domain of `d >= 1` characters, '.', a top-level
      part of `t >= 2` characters, and a `\b`. */
  ghost predicate IsMatch(s: string, i: nat, e: nat) {
    exists n: nat, d: nat, t: nat :: MatchShape(s, i, n, d, t) && e == i + n + 1 + d + 1 + t
  }

  predicate MatchShape(s: string, i: nat, n: nat, d: nat, t: nat) {
    var j := i + n + 1;
    var k := j + d + 1;
    && n >= 1 && d >= 1 && t >= 2 && k + t <= |s|
    && Boundary(s, i)
    && AllIn(s, i, i + n, IsLocalChar)
    && s[i + n] == '@'
    && AllIn(s, j, j + d, IsDomainChar)
    && s[j + d] == '.'
    && AllIn(s, k, k + t, IsTldChar)
    && Boundary(s, k + t)
  }

  // ---------------------------------------------------------------------
  // the matcher

  /** The greedy `{2,}` backing off from `t` characters: the first length,
      longest first, after which `\b` holds. */
  function TldEnd(s: string, k: nat, t: nat): (r: Option<nat>)
    requires k + t <= |s|
    ensures r.Some? ==> k + 2 <= r.value <= k + t && Boundary(s, r.value)
    decreases t
  {
    if t < 2 then None
    else if Boundary(s, k + t) then Some(k + t)
    else TldEnd(s, k, t - 1)
  }

  /** When the back-off fails, no admissible length ends on a `\b`. */
  lemma {:induction false} TldEndNone(s: string, k: nat, t: nat)
    requires k + t <= |s| && TldEnd(s, k, t).None?
    ensures forall p :: k + 2 <= p <= k + t ==> !Boundary(s, p)
    decreases t
  {
    if t >= 2 {
      TldEndNone(s, k, t - 1);
    }
  }

  /** The top-level part tried after a domain of `d` characters that
      starts at `j`. */
  function AfterDomain(s: string, j: nat, d: nat): (r: Option<nat>)
    requires j + d <= |s|
    ensures r.Some? ==> j + d + 3 <= r.value <= |s|
  {
    if j + d < |s| && s[j + d] == '.' then
      var k := j + d + 1;
      TldEnd(s, k, Run(s, k, IsTldChar))
    else None
  }

  /** The greedy domain `+` backing off from `d` characters: the first
      length, longest first, after which '.' and a top-level part fit. */
  function DomainTry(s: string, j: nat, d: nat): (r: Option<nat>)
    requires j + d <= |s|
    ensures r.Some? ==> j + 4 <= r.value <= |s|
    decreases d
  {
    if d == 0 then None
    else
      var here := AfterDomain(s, j, d);
      if here.Some? then here else DomainTry(s, j, d - 1)
  }

  /** The back-off result comes from some admissible domain length, and
      fails only when every length fails. */
  lemma {:induction false} DomainTryFacts(s: string, j: nat, d: nat)
    requires j + d <= |s|
    ensures DomainTry(s, j, d).Some? ==>
      exists u :: 1 <= u <= d && AfterDomain(s, j, u) == DomainTry(s, j, d)
    ensures DomainTry(s, j, d).None? ==> forall u :: 1 <= u <= d ==> AfterDomain(s, j, u).None?
    decreases d
  {
    if d > 0 && AfterDomain(s, j, d).None? {
      DomainTryFacts(s, j, d - 1);
    }
  }

  /** The end of the match the engine finds at `i`, if any. */
  function MatchAt(s: string, i: nat): (r: Option<nat>)
    requires i <= |s|
    ensures r.Some? ==> i < r.value <= |s|
  {
    if !Boundary(s, i) then None
    else
      var n := Run(s, i, IsLocalChar);
      if n == 0 || i + n >= |s| || s[i + n] != '@' then None
      else
        var j := i + n + 1;
        DomainTry(s, j, Run(s, j, IsDomainChar))
  }

  /** The local part the engine takes at `i` and the domain run after its
      '@', when a match starts at `i`. */
  lemma {:induction false} MatchAtParts(s: string, i: nat) returns (n: nat, m: nat)
    requires i <= |s| && MatchAt(s, i).Some?
    ensures n >= 1 && i + n < |s| && s[i + n] == '@' && Boundary(s, i)
    ensures AllIn(s, i, i + n, IsLocalChar)
    ensures i + n + 1 + m <= |s| && AllIn(s, i + n + 1, i + n + 1 + m, IsDomainChar)
    ensures DomainTry(s, i + n + 1, m) == MatchAt(s, i)
  {
    n := Run(s, i, IsLocalChar);
    RunFacts(s, i, IsLocalChar);
    m := Run(s, i + n + 1, IsDomainChar);
    RunFacts(s, i + n + 1, IsDomainChar);
  }

  /** A top-level part found after a domain of `d` characters. */
  lemma {:induction false} AfterDomainParts(s: string, j: nat, d: nat) returns (t: nat)
    requires j + d <= |s| && AfterDomain(s, j, d).Some?
    ensures j + d < |s| && s[j + d] == '.'
    ensures t >= 2 && AfterDomain(s, j, d).value == j + d + 1 + t
    ensures AllIn(s, j + d + 1, j + d + 1 + t, IsTldChar) && Boundary(s, j + d + 1 + t)
  {
    var k := j + d + 1;
    var tm := Run(s, k, IsTldChar);
    RunFacts(s, k, IsTldChar);
    t := TldEnd(s, k, tm).value - k;
    AllInPrefix(s, k, k + tm, k + t, IsTldChar);
  }

  /** What the engine finds is a match of the pattern. */
  lemma {:induction false} MatchAtSound(s: string, i: nat)
    requires i <= |s| && MatchAt(s, i).Some?
    ensures IsMatch(s, i, MatchAt(s, i).value)
  {
    var n, m := MatchAtParts(s, i);
    var j := i + n + 1;
    var e := MatchAt(s, i).value;
    DomainTryFacts(s, j, m);
    var d :| 1 <= d <= m && AfterDomain(s, j, d) == Some(e);
    var t := AfterDomainParts(s, j, d);
    AllInPrefix(s, j, j + m, j + d, IsDomainChar);
    ShapeIsMatch(s, i, n, d, t);
  }

  lemma {:induction false} ShapeIsMatch(s: string, i: nat, n: nat, d: nat, t: nat)
    requires n >= 1 && d >= 1 && t >= 2 && i + n + 1 + d + 1 + t <= |s|
    requires Boundary(s, i) && Boundary(s, i + n + 1 + d + 1 + t)
    requires s[i + n] == '@' && s[i + n + 1 + d] == '.'
    requires AllIn(s, i, i + n, IsLocalChar)
    requires AllIn(s, i + n + 1, i + n + 1 + d, IsDomainChar)
    requires AllIn(s, i + n + 1 + d + 1, i + n + 1 + d + 1 + t, IsTldChar)
    ensures IsMatch(s, i, i + n + 1 + d + 1 + t)
  {
    assert MatchShape(s, i, n, d, t);
  }

  /** The greedy local run stops exactly at the '@'. */
  lemma {:induction false} LocalRunEndsAtAt(s: string, i: nat, n: nat)
    requires AllIn(s, i, i + n, IsLocalChar) && i + n < |s| && s[i + n] == '@'
    ensures Run(s, i, IsLocalChar) == n
  {
    RunIsLongest(s, i, IsLocalChar, n);
    RunFacts(s, i, IsLocalChar);
    assert !IsLocalChar(s[i + n]);
  }

  /** A domain of `d` characters followed by '.' and a top-level part of
      `t` characters ending on a `\b` gives the back-off something to find. */
  lemma {:induction false} AfterDomainFound(s: string, j: nat, d: nat, t: nat)
    requires j + d + 1 + t <= |s| && s[j + d] == '.' && t >= 2
    requires AllIn(s, j + d + 1, j + d + 1 + t, IsTldChar) && Boundary(s, j + d + 1 + t)
    ensures AfterDomain(s, j, d).Some?
  {
    var k := j + d + 1;
    var tm := Run(s, k, IsTldChar);
    RunIsLongest(s, k, IsTldChar, t);
    if TldEnd(s, k, tm).None? {
      TldEndNone(s, k, tm);
    }
    assert TldEnd(s, k, tm).Some?;
  }

  /** At a `\b` followed by a local part and an '@', the engine's answer
      is the domain back-off's. */
  lemma {:induction false} MatchAtFromParts(s: string, i: nat, n: nat)
    requires i + n < |s| && n >= 1 && Boundary(s, i) && s[i + n] == '@'
    requires Run(s, i, IsLocalChar) == n
    ensures MatchAt(s, i) == DomainTry(s, i + n + 1, Run(s, i + n + 1, IsDomainChar))
  {
  }

  /** Where the pattern matches at all, the engine finds a match. */
  lemma {:induction false} MatchAtComplete(s: string, i: nat, e: nat)
    requires i <= |s| && IsMatch(s, i, e)
    ensures MatchAt(s, i).Some?
  {
    var n: nat, d: nat, t: nat :| MatchShape(s, i, n, d, t) && e == i + n + 1 + d + 1 + t;
    LocalRunEndsAtAt(s, i, n);
    var j := i + n + 1;
    var m := Run(s, j, IsDomainChar);
    RunIsLongest(s, j, IsDomainChar, d);
    AfterDomainFound(s, j, d, t);
    DomainTryFacts(s, j, m);
    MatchAtFromParts(s, i, n);
  }

  /** The top-level back-off keeps the longest admissible length: any
      length of at least two ending on a `\b` is no longer than the one
      it reports. */
  lemma {:induction false} TldEndLongest(s: string, k: nat, tm: nat, t: nat)
    requires k + tm <= |s| && 2 <= t <= tm && Boundary(s, k + t)
    ensures TldEnd(s, k, tm).Some? && k + t <= TldEnd(s, k, tm).value
    decreases tm
  {
    if !Boundary(s, k + tm) {
      TldEndLongest(s, k, tm - 1, t);
    }
  }

  /** The domain back-off, tried from `m` characters down, ends no earlier
      than any match whose domain has `d <= m` characters: a longer domain
      ends on a '.', which no top-level part of the shorter one can cross. */
  lemma {:induction false} DomainTryLongest(s: string, j: nat, m: nat, d: nat, t: nat)
    requires 1 <= d <= m && j + m <= |s| && t >= 2 && j + d + 1 + t <= |s| && s[j + d] == '.'
    requires AllIn(s, j + d + 1, j + d + 1 + t, IsTldChar) && Boundary(s, j + d + 1 + t)
    ensures DomainTry(s, j, m).Some? && j + d + 1 + t <= DomainTry(s, j, m).value
    decreases m
  {
    var k := j + d + 1;
    if m == d {
      RunIsLongest(s, k, IsTldChar, t);
      TldEndLongest(s, k, Run(s, k, IsTldChar), t);
    } else if AfterDomain(s, j, m).Some? {
      var u := AfterDomainParts(s, j, m);
    } else {
      DomainTryLongest(s, j, m - 1, d, t);
    }
  }

  /** Where the pattern matches `s[i..q]`, the engine's match at `i` ends
      at `q` or later: it takes the longest match at its start. */
  lemma {:induction false} MatchAtLongest(s: string, i: nat, q: nat)
    requires i <= |s| && IsMatch(s, i, q)
    ensures MatchAt(s, i).Some? && q <= MatchAt(s, i).value
  {
    var n: nat, d: nat, t: nat :| MatchShape(s, i, n, d, t) && q == i + n + 1 + d + 1 + t;
    LocalRunEndsAtAt(s, i, n);
    var j := i + n + 1;
    var m := Run(s, j, IsDomainChar);
    RunIsLongest(s, j, IsDomainChar, d);
    RunFacts(s, j, IsDomainChar);
    DomainTryLongest(s, j, m, d, t);
    MatchAtFromParts(s, i, n);
  }

  // ---------------------------------------------------------------------
  // the leftmost match

  /** The leftmost match starting at or after `i`: its start and end. */
  function SearchFrom(s: string, i: nat): (r: Option<(nat, nat)>)
    requires i <= |s|
    ensures r.Some? ==> i <= r.value.0 < r.value.1 <= |s| && MatchAt(s, r.value.0) == Some(r.value.1)
    decreases |s| - i
  {
    var here := MatchAt(s, i);
    if here.Some? then Some((i, here.value))
    else if i == |s| then None
    else SearchFrom(s, i + 1)
  }

  /** No position before the one reported, and no position at all when
      nothing is reported, has a match. */
  lemma {:induction false} SearchFromFacts(s: string, i: nat)
    requires i <= |s|
    ensures SearchFrom(s, i).Some? ==> forall p :: i <= p < SearchFrom(s, i).value.0 ==> MatchAt(s, p).None?
    ensures SearchFrom(s, i).None? ==> forall p :: i <= p <= |s| ==> MatchAt(s, p).None?
    decreases |s| - i
  {
    if MatchAt(s, i).None? && i < |s| {
      SearchFromFacts(s, i + 1);
    }
  }

  /** `_extract_email_from_text`: `None` for an empty text, otherwise the
      first match `re.findall` would list. */
  function ExtractEmail(text: string): (r: Option<string>)
    ensures text == "" ==> r.None?
  {
    if text == "" then None
    else
      match SearchFrom(text, 0)
      case None => None
      case Some((i, e)) => Some(text[i..e])
  }

  /** The address found is the leftmost match of the pattern. */
  lemma {:induction false} ExtractEmailIsLeftmostMatch(text: string)
    requires ExtractEmail(text).Some?
    ensures exists i: nat, e: nat ::
      && i <= e <= |text| && IsMatch(text, i, e)
      && ExtractEmail(text).value == text[i..e]
      && (forall p: nat, q: nat :: p < i ==> !IsMatch(text, p, q))
      && (forall q: nat :: IsMatch(text, i, q) ==> q <= e)
  {
    var r := SearchFrom(text, 0);
    var i := r.value.0;
    var e := r.value.1;
    MatchAtSound(text, i);
    SearchFromFacts(text, 0);
    forall p: nat, q: nat | p < i ensures !IsMatch(text, p, q) {
      if IsMatch(text, p, q) {
        MatchAtComplete(text, p, q);
        assert false;
      }
    }
    forall q: nat | IsMatch(text, i, q) ensures q <= e {
      MatchAtLongest(text, i, q);
    }
  }

  /** No address is found exactly when the pattern matches nowhere. */
  lemma {:induction false} ExtractEmailNoneIffNoMatch(text: string)
    ensures ExtractEmail(text).None? <==> forall i: nat, e: nat :: i <= |text| ==> !IsMatch(text, i, e)
  {
    if text == "" {
      forall i: nat, e: nat | i <= |text| ensures !IsMatch(text, i, e) {
        if IsMatch(text, i, e) {
          assert false;
        }
      }
    } else if SearchFrom(text, 0).None? {
      SearchFromFacts(text, 0);
      forall i: nat, e: nat | i <= |text| ensures !IsMatch(text, i, e) {
        if IsMatch(text, i, e) {
          MatchAtComplete(text, i, e);
          assert false;
        }
      }
    } else {
      var i := SearchFrom(text, 0).value.0;
      MatchAtSound(text, i);
    }
  }

  /** A slice in which only position `q` holds an '@' has one '@'. */
  lemma {:induction false} OneAtIn(s: string, i: nat, e: nat, q: nat)
    requires i <= q < e <= |s| && s[q] == '@'
    requires forall p :: i <= p < e && p != q ==> s[p] != '@'
    ensures Occurrences(s[i..e], '@') == 1
  {
    var before, after := s[i..q], s[q + 1..e];
    assert s[i..e] == before + ([s[q]] + after);
    assert '@' !in before by {
      forall k | 0 <= k < |before| ensures before[k] != '@' { assert before[k] == s[i + k]; }
    }
    assert '@' !in after by {
      forall k | 0 <= k < |after| ensures after[k] != '@' { assert after[k] == s[q + 1 + k]; }
    }
    OccurrencesAppend(before, [s[q]] + after, '@');
    OccurrencesAppend([s[q]], after, '@');
  }

  /** A match is a substring with exactly one '@': no class of the pattern
      admits one. */
  lemma {:induction false} MatchHasOneAt(s: string, i: nat, e: nat)
    requires IsMatch(s, i, e)
    ensures i <= e <= |s| && Occurrences(s[i..e], '@') == 1
  {
    var n: nat, d: nat, t: nat :| MatchShape(s, i, n, d, t) && e == i + n + 1 + d + 1 + t;
    var j := i + n + 1;
    forall p | i <= p < e && p != i + n ensures s[p] != '@' {
      if p < i + n {
        assert IsLocalChar(s[p]);
      } else if p < j + d {
        assert IsDomainChar(s[p]);
      } else if p > j + d {
        assert IsTldChar(s[p]);
      }
    }
    OneAtIn(s, i, e, i + n);
  }

  /** Any address found occurs in the text and holds exactly one '@'. */
  lemma {:induction false} ExtractEmailShape(text: string)
    requires ExtractEmail(text).Some?
    ensures Contains(text, ExtractEmail(text).value)
    ensures Occurrences(ExtractEmail(text).value, '@') == 1
  {
    ExtractEmailIsLeftmostMatch(text);
    var i: nat, e: nat :| i <= e <= |text| && IsMatch(text, i, e)
      && ExtractEmail(text).value == text[i..e];
    ContainsSlice(text, i, e);
    MatchHasOneAt(text, i, e);
  }
}
