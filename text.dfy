/** String primitives shared by the classifier, the parser helpers and the
    output layer.  Python's `str.lower()`, `str.strip()`, the regex classes
    `\s` and `\w` and the `\b` anchor are given explicit definitions here,
    restricted to ASCII. */
module Text {

  /** Python's `str.isspace()` (and the regex class `\s`) on ASCII:
      space, \t \n \v \f \r and the separators \x1c .. \x1f. */
  predicate IsSpace(c: char) {
    c == ' ' || ('\t' <= c <= '\r') || ('\U{1C}' <= c <= '\U{1F}')
  }

  /** The regex class `\w` on ASCII. */
  predicate IsWordChar(c: char) {
    ('a' <= c <= 'z') || ('A' <= c <= 'Z') || ('0' <= c <= '9') || c == '_'
  }

  predicate IsUpper(c: char) { 'A' <= c <= 'Z' }

  function LowerChar(c: char): (r: char)
    ensures !IsUpper(r)
    ensures IsUpper(c) ==> r as int == c as int + 32
    ensures !IsUpper(c) ==> r == c
  {
    if IsUpper(c) then (c as int + 32) as char else c
  }

  /** `str.lower()` on ASCII. */
  function Lower(s: string): (r: string)
    ensures |r| == |s|
    ensures forall i :: 0 <= i < |s| ==> r[i] == LowerChar(s[i])
  {
    seq(|s|, i requires 0 <= i < |s| => LowerChar(s[i]))
  }

  lemma LowerIdempotent(s: string)
    ensures Lower(Lower(s)) == Lower(s)
  {
  }

  lemma LowerOfLowercase(s: string)
    requires forall i :: 0 <= i < |s| ==> !IsUpper(s[i])
    ensures Lower(s) == s
  {
  }

  lemma LowerEmpty(s: string)
    ensures Lower(s) == "" <==> s == ""
  {
  }

  /** `p` occurs in `s` starting at index `i`. */
  predicate StartsAt(s: string, p: string, i: nat) {
    i + |p| <= |s| && s[i..i + |p|] == p
  }

  /** Python's `p in s` on strings. */
  predicate Contains(s: string, p: string) {
    exists i :: 0 <= i <= |s| && StartsAt(s, p, i)
  }

  /** Python's `s.endswith(p)`. */
  predicate EndsWith(s: string, p: string) {
    |p| <= |s| && s[|s| - |p|..] == p
  }

  /** The regex anchor `\b` at position `i` of `s` (0 <= i <= |s|). */
  predicate Boundary(s: string, i: nat) {
    (0 < i <= |s| && IsWordChar(s[i - 1])) != (i < |s| && IsWordChar(s[i]))
  }

  /** `re.search(r'\bw\b', s)` for a literal word `w`. */
  predicate HasWholeWord(s: string, w: string) {
    exists i :: 0 <= i <= |s| && StartsAt(s, w, i) && Boundary(s, i) && Boundary(s, i + |w|)
  }

  lemma WholeWordIsContained(s: string, w: string)
    requires HasWholeWord(s, w)
    ensures Contains(s, w)
  {
  }

  lemma ContainsWitness(s: string, p: string, i: nat)
    requires StartsAt(s, p, i)
    ensures Contains(s, p)
  {
  }

  /** Substring of a substring. */
  lemma {:induction false} ContainsTransitive(s: string, p: string, q: string)
    requires Contains(s, p) && Contains(p, q)
    ensures Contains(s, q)
  {
    var i :| 0 <= i <= |s| && StartsAt(s, p, i);
    var j :| 0 <= j <= |p| && StartsAt(p, q, j);
    forall k | 0 <= k < |q| ensures s[i + j + k] == q[k] {
      assert q[k] == p[j..j + |q|][k] == p[j + k];
      assert p[j + k] == s[i..i + |p|][j + k];
    }
    assert StartsAt(s, q, i + j);
  }

  lemma {:induction false} ContainsSlice(s: string, i: nat, j: nat)
    requires i <= j <= |s|
    ensures Contains(s, s[i..j])
  {
    assert StartsAt(s, s[i..j], i);
  }

  /** A pattern character that does not occur in `s` rules the pattern out. */
  lemma {:induction false} AbsentByChar(s: string, p: string, k: nat)
    requires k < |p| && p[k] !in s
    ensures !Contains(s, p)
  {
  }

  /** Two adjacent pattern characters that never stand side by side in `s`
      rule the pattern out. */
  lemma {:induction false} AbsentByPair(s: string, p: string, k: nat)
    requires k + 1 < |p|
    requires forall j :: 0 <= j < |s| - 1 ==> !(s[j] == p[k] && s[j + 1] == p[k + 1])
    ensures !Contains(s, p)
  {
    if Contains(s, p) {
      var i :| 0 <= i <= |s| && StartsAt(s, p, i);
      CharsAt(s, p, i, k);
      assert false;
    }
  }

  lemma {:induction false} CharsAt(s: string, p: string, i: nat, k: nat)
    requires StartsAt(s, p, i) && k + 1 < |p|
    ensures s[i + k] == p[k] && s[i + k + 1] == p[k + 1]
  {
    assert s[i + k] == s[i..i + |p|][k];
    assert s[i + k + 1] == s[i..i + |p|][k + 1];
  }

  lemma {:induction false} NothingInEmpty(p: string)
    requires p != ""
    ensures !Contains("", p) && !HasWholeWord("", p)
  {
  }

  // ---------------------------------------------------------------------
  // strip()

  /** Length of the run of whitespace starting at `i`. */
  function SpaceRun(s: string, i: nat): (n: nat)
    requires i <= |s|
    ensures i + n <= |s|
    ensures forall k :: i <= k < i + n ==> IsSpace(s[k])
    ensures i + n == |s| || !IsSpace(s[i + n])
    decreases |s| - i
  {
    if i < |s| && IsSpace(s[i]) then 1 + SpaceRun(s, i + 1) else 0
  }

  /** The run of whitespace from `i` is the one that ends at the first
      character outside whitespace. */
  lemma {:induction false} SpaceRunIs(s: string, i: nat, n: nat)
    requires i + n <= |s| && forall k :: i <= k < i + n ==> IsSpace(s[k])
    requires i + n == |s| || !IsSpace(s[i + n])
    ensures SpaceRun(s, i) == n
    decreases n
  {
    if n > 0 {
      SpaceRunIs(s, i + 1, n - 1);
    }
  }

  /** A whitespace run that ends inside `a` ends at the same place in
      any text that starts with `a`. */
  lemma {:induction false} SpaceRunOfPrefix(a: string, x: string, i: nat)
    requires i < |a| && !IsSpace(a[|a| - 1])
    ensures SpaceRun(a + x, i) == SpaceRun(a, i)
  {
    var n := SpaceRun(a, i);
    assert i + n < |a|;
    SpaceRunIs(a + x, i, n);
  }

  /** Start of the run of whitespace that ends at `j`, not going below `lo`. */
  function TrailStart(s: string, lo: nat, j: nat): (k: nat)
    requires lo <= j <= |s|
    ensures lo <= k <= j
    ensures forall m :: k <= m < j ==> IsSpace(s[m])
    ensures k == lo || !IsSpace(s[k - 1])
    decreases j
  {
    if lo < j && IsSpace(s[j - 1]) then TrailStart(s, lo, j - 1) else j
  }

  /** Bounds of `s.strip()` within `s`. */
  function StripStart(s: string): nat { SpaceRun(s, 0) }
  function StripEnd(s: string): nat { TrailStart(s, StripStart(s), |s|) }

  /** `s.strip()`: the slice `s[i..j]` outside which there is only
      whitespace, and which neither starts nor ends with whitespace. */
  function Strip(s: string): (r: string)
    ensures StripStart(s) <= StripEnd(s) <= |s| && r == s[StripStart(s)..StripEnd(s)]
    ensures forall k :: 0 <= k < StripStart(s) ==> IsSpace(s[k])
    ensures forall k :: StripEnd(s) <= k < |s| ==> IsSpace(s[k])
    ensures r == [] || (!IsSpace(r[0]) && !IsSpace(r[|r| - 1]))
  {
    var i := StripStart(s);
    var j := StripEnd(s);
    assert j > i ==> s[i..j][0] == s[i];
    s[i..j]
  }

  lemma {:induction false} StripUnchanged(s: string)
    requires s == [] || (!IsSpace(s[0]) && !IsSpace(s[|s| - 1]))
    ensures Strip(s) == s
  {
  }

  // ---------------------------------------------------------------------
  // counting and joining

  /** Number of occurrences of the character `c` in `s`. */
  function Occurrences(s: string, c: char): (n: nat)
    ensures n <= |s|
    ensures n == 0 <==> c !in s
  {
    if s == [] then 0 else (if s[0] == c then 1 else 0) + Occurrences(s[1..], c)
  }

  lemma {:induction false} OccurrencesAppend(a: string, b: string, c: char)
    ensures Occurrences(a + b, c) == Occurrences(a, c) + Occurrences(b, c)
  {
    if a == [] {
      assert a + b == b;
    } else {
      assert (a + b)[1..] == a[1..] + b;
      OccurrencesAppend(a[1..], b, c);
    }
  }

  /** Python's `sep.join(xs)`. */
  function Join(sep: string, xs: seq<string>): (r: string)
    decreases |xs|
  {
    if xs == [] then "" else if |xs| == 1 then xs[0] else xs[0] + sep + Join(sep, xs[1..])
  }

  /** Every joined piece appears in the joined string. */
  lemma {:induction false} JoinContainsEach(sep: string, xs: seq<string>, k: nat)
    requires k < |xs|
    ensures Contains(Join(sep, xs), xs[k])
    decreases |xs|
  {
    if |xs| == 1 {
      assert StartsAt(Join(sep, xs), xs[k], 0);
    } else if k == 0 {
      assert StartsAt(Join(sep, xs), xs[0], 0);
    } else {
      JoinContainsEach(sep, xs[1..], k - 1);
      var rest := Join(sep, xs[1..]);
      var off := |xs[0] + sep|;
      assert Join(sep, xs) == (xs[0] + sep) + rest;
      ContainsTransitive(Join(sep, xs), rest, xs[k]) by {
        assert Join(sep, xs)[off..off + |rest|] == rest;
        assert StartsAt(Join(sep, xs), rest, off);
      }
    }
  }
}
