/**
 * The two Python string operations the line parser uses, over `seq<char>`:
 * `str.strip("\n")` and `str.split(sep)` with a non-empty separator; and
 * `sep.join(fields)`, which the parser does not call, as the inverse of
 * the split.
 */
module PyStr {
  import opened Wrappers

  // ---------------------------------------------------------------------
  // strip("\n")
  // ---------------------------------------------------------------------

  /** First index at or after `i` whose character is not a newline (`|s|` if none). */
  function SkipLeading(s: string, i: nat): (r: nat)
    requires i <= |s|
    ensures i <= r <= |s|
    ensures forall k | i <= k < r :: s[k] == '\n'
    ensures r == |s| || s[r] != '\n'
    decreases |s| - i
  {
    if i < |s| && s[i] == '\n' then SkipLeading(s, i + 1) else i
  }

  /** Scanning down from `j` but not below `lo`, the end of the last non-newline run. */
  function SkipTrailing(s: string, lo: nat, j: nat): (r: nat)
    requires lo <= j <= |s|
    ensures lo <= r <= j
    ensures forall k | r <= k < j :: s[k] == '\n'
    ensures r == lo || s[r - 1] != '\n'
    decreases j
  {
    if lo < j && s[j - 1] == '\n' then SkipTrailing(s, lo, j - 1) else j
  }

  /** Neither end of `t` is a newline. */
  predicate Clean(t: string) {
    t == [] || (t[0] != '\n' && t[|t| - 1] != '\n')
  }

  /** Cutting `s[..i]` and `s[j..]` from `s` removes newlines only. */
  ghost predicate NewlineFrame(s: string, i: int, j: int) {
    && 0 <= i <= j <= |s|
    && (forall k | 0 <= k < i :: s[k] == '\n')
    && (forall k | j <= k < |s| :: s[k] == '\n')
  }

  /**
   * `s.strip("\n")`: newlines are removed from BOTH ends, every other
   * character (a carriage return, a space) is kept, and the interior of
   * `s` is untouched.
   */
  function Strip(s: string): (r: string)
    ensures Clean(r)
    ensures exists i, j :: NewlineFrame(s, i, j) && r == s[i..j]
  {
    var i := SkipLeading(s, 0);
    var j := SkipTrailing(s, i, |s|);
    assert NewlineFrame(s, i, j);
    s[i..j]
  }

  /** The stripped line is the ONLY slice of `s` that is framed by newlines and clean. */
  lemma StripUnique(s: string, i: int, j: int)
    requires NewlineFrame(s, i, j) && Clean(s[i..j])
    ensures Strip(s) == s[i..j]
  {
    var a := SkipLeading(s, 0);
    var b := SkipTrailing(s, a, |s|);
    if i < j {
      assert s[i..j][0] == s[i];
      assert s[i..j][j - i - 1] == s[j - 1];
      assert a == i;
      assert b == j;
    } else {
      forall k | 0 <= k < |s| ensures s[k] == '\n' {
        if k >= j { assert j <= k; } else { assert k < i; }
      }
      assert a == |s|;
    }
  }

  /** Stripping twice is stripping once. */
  lemma StripIdempotent(s: string)
    ensures Strip(Strip(s)) == Strip(s)
  {
    var t := Strip(s);
    assert t[0..|t|] == t;
    StripUnique(t, 0, |t|);
  }

  /** Newlines appended to a clean line are exactly what strip removes. */
  lemma StripTrailingNewlines(t: string, nl: string)
    requires Clean(t)
    requires forall k | 0 <= k < |nl| :: nl[k] == '\n'
    ensures Strip(t + nl) == t
  {
    var s := t + nl;
    assert s[0..|t|] == t;
    assert forall k | |t| <= k < |s| :: s[k] == nl[k - |t|];
    StripUnique(s, 0, |t|);
  }

  // ---------------------------------------------------------------------
  // split(sep) and its inverse join
  // ---------------------------------------------------------------------

  /** `sep` occurs in `s` starting at position `p`. */
  predicate OccursAt(s: string, sep: string, p: nat) {
    p + |sep| <= |s| && s[p..p + |sep|] == sep
  }

  /** `s` contains no occurrence of `sep`. */
  ghost predicate Free(s: string, sep: string) {
    forall p: nat :: !OccursAt(s, sep, p)
  }

  /** `s.find(sep, i)`: the leftmost occurrence of `sep` at or after `i`. */
  function FindFrom(s: string, sep: string, i: nat): (r: Option<nat>)
    requires |sep| > 0 && i <= |s|
    ensures r.Some? ==> i <= r.value && OccursAt(s, sep, r.value)
    ensures forall p: nat | i <= p && (r.None? || p < r.value) :: !OccursAt(s, sep, p)
    decreases |s| - i
  {
    if |s| < i + |sep| then None
    else if OccursAt(s, sep, i) then Some(i)
    else FindFrom(s, sep, i + 1)
  }

  lemma SliceOfSlice(s: string, lo: nat, hi: nat, a: nat, b: nat)
    requires lo <= hi <= |s| && a <= b <= hi - lo
    ensures s[lo..hi][a..b] == s[lo + a..lo + b]
  {
    assert forall t | 0 <= t < b - a :: s[lo..hi][a..b][t] == s[lo + a + t];
  }

  /** A slice lying between occurrences holds no occurrence of its own. */
  lemma FreeSlice(s: string, sep: string, lo: nat, hi: nat)
    requires lo <= hi <= |s|
    requires forall p: nat | lo <= p && p + |sep| <= hi :: !OccursAt(s, sep, p)
    ensures Free(s[lo..hi], sep)
  {
    forall p: nat ensures OccursAt(s[lo..hi], sep, p) ==> OccursAt(s, sep, lo + p) {
      if p + |sep| <= hi - lo {
        SliceOfSlice(s, lo, hi, p, p + |sep|);
      }
    }
  }

  /** `sep.join(fields)`. */
  function Join(fields: seq<string>, sep: string): string {
    if |fields| == 0 then ""
    else if |fields| == 1 then fields[0]
    else fields[0] + sep + Join(fields[1..], sep)
  }

  /**
   * `s[i..].split(sep)`: cut at the leftmost occurrence of the separator,
   * then carry on after it; what is left after the last one is the last
   * field, so there is always at least one.
   */
  function SplitFrom(s: string, sep: string, i: nat): (fields: seq<string>)
    requires |sep| > 0 && i <= |s|
    ensures |fields| >= 1
    decreases |s| - i
  {
    match FindFrom(s, sep, i)
    case None => [s[i..]]
    case Some(k) => [s[i..k]] + SplitFrom(s, sep, k + |sep|)
  }

  /** `s.split(sep)` for a non-empty separator. */
  function Split(s: string, sep: string): (fields: seq<string>)
    requires |sep| > 0
    ensures |fields| >= 1
  {
    SplitFrom(s, sep, 0)
  }

  lemma {:induction false} SplitFromJoin(s: string, sep: string, i: nat)
    requires |sep| > 0 && i <= |s|
    ensures Join(SplitFrom(s, sep, i), sep) == s[i..]
    decreases |s| - i
  {
    match FindFrom(s, sep, i)
    case None =>
    case Some(k) =>
      var rest := SplitFrom(s, sep, k + |sep|);
      SplitFromJoin(s, sep, k + |sep|);
      assert s[i..] == s[i..k] + sep + s[k + |sep|..];
      assert ([s[i..k]] + rest)[1..] == rest;
  }

  lemma {:induction false} SplitFromFree(s: string, sep: string, i: nat)
    requires |sep| > 0 && i <= |s|
    ensures forall k | 0 <= k < |SplitFrom(s, sep, i)| :: Free(SplitFrom(s, sep, i)[k], sep)
    decreases |s| - i
  {
    var fields := SplitFrom(s, sep, i);
    match FindFrom(s, sep, i)
    case None =>
      FreeSlice(s, sep, i, |s|);
      assert s[i..|s|] == s[i..];
    case Some(k) =>
      var rest := SplitFrom(s, sep, k + |sep|);
      FreeSlice(s, sep, i, k);
      SplitFromFree(s, sep, k + |sep|);
      assert forall m | 1 <= m < |fields| :: fields[m] == rest[m - 1];
  }

  /** Joining the fields with the separator gives back the split string. */
  lemma SplitJoin(s: string, sep: string)
    requires |sep| > 0
    ensures Join(Split(s, sep), sep) == s
  {
    SplitFromJoin(s, sep, 0);
    assert s[0..] == s;
  }

  /** No field of a split holds the separator. */
  lemma SplitFree(s: string, sep: string)
    requires |sep| > 0
    ensures forall k | 0 <= k < |Split(s, sep)| :: Free(Split(s, sep)[k], sep)
  {
    SplitFromFree(s, sep, 0);
  }

  /** Non-overlapping occurrences of `sep` in `s[i..]`, counted left to right. */
  function CountFrom(s: string, sep: string, i: nat): nat
    requires |sep| > 0 && i <= |s|
    decreases |s| - i
  {
    if |s| < i + |sep| then 0
    else if OccursAt(s, sep, i) then 1 + CountFrom(s, sep, i + |sep|)
    else CountFrom(s, sep, i + 1)
  }

  lemma {:induction false} CountNone(s: string, sep: string, i: nat)
    requires |sep| > 0 && i <= |s|
    requires forall p: nat | i <= p :: !OccursAt(s, sep, p)
    ensures CountFrom(s, sep, i) == 0
    decreases |s| - i
  {
    if i + |sep| <= |s| {
      assert !OccursAt(s, sep, i);
      CountNone(s, sep, i + 1);
    }
  }

  lemma {:induction false} CountSkip(s: string, sep: string, i: nat, k: nat)
    requires |sep| > 0 && i <= k && OccursAt(s, sep, k)
    requires forall p: nat | i <= p < k :: !OccursAt(s, sep, p)
    ensures CountFrom(s, sep, i) == 1 + CountFrom(s, sep, k + |sep|)
    decreases k - i
  {
    if i < k {
      assert !OccursAt(s, sep, i);
      CountSkip(s, sep, i + 1, k);
    }
  }

  /** The number of fields is the number of separator occurrences plus one. */
  lemma {:induction false} SplitFromCount(s: string, sep: string, i: nat)
    requires |sep| > 0 && i <= |s|
    ensures |SplitFrom(s, sep, i)| == CountFrom(s, sep, i) + 1
    decreases |s| - i
  {
    match FindFrom(s, sep, i)
    case None =>
      assert SplitFrom(s, sep, i) == [s[i..]];
      CountNone(s, sep, i);
    case Some(k) =>
      assert SplitFrom(s, sep, i) == [s[i..k]] + SplitFrom(s, sep, k + |sep|);
      CountSkip(s, sep, i, k);
      SplitFromCount(s, sep, k + |sep|);
  }

  lemma SplitCount(s: string, sep: string)
    requires |sep| > 0
    ensures |Split(s, sep)| == CountFrom(s, sep, 0) + 1
  {
    SplitFromCount(s, sep, 0);
  }

  /** For a one-character separator, counting occurrences is counting that character. */
  lemma {:induction false} CountChar(s: string, c: char, i: nat)
    requires i <= |s|
    ensures CountFrom(s, [c], i) == multiset(s[i..])[c]
    decreases |s| - i
  {
    if i < |s| {
      assert s[i..] == [s[i]] + s[i + 1..];
      assert OccursAt(s, [c], i) <==> s[i] == c by {
        assert s[i..i + 1] == [s[i]];
      }
      CountChar(s, c, i + 1);
    }
  }

  /** A line split on one character has one field more than it has separators. */
  lemma SplitCountChar(s: string, c: char)
    ensures |Split(s, [c])| == multiset(s)[c] + 1
  {
    SplitCount(s, [c]);
    CountChar(s, c, 0);
    assert s[0..] == s;
  }

  /** A string without the (one-character) separator is one field. */
  lemma FreeOfChar(s: string, c: char)
    requires forall k | 0 <= k < |s| :: s[k] != c
    ensures Free(s, [c])
  {
    forall p: nat ensures OccursAt(s, [c], p) ==> s[p] == c {
      if p + 1 <= |s| {
        assert s[p..p + 1][0] == s[p];
      }
    }
  }

  /** A suffix with no separator in it leaves nothing for find to report. */
  lemma FindFromNone(s: string, sep: string, i: nat)
    requires |sep| > 0 && i <= |s| && Free(s[i..], sep)
    ensures FindFrom(s, sep, i).None?
  {
    forall p: nat | i <= p ensures OccursAt(s, sep, p) ==> OccursAt(s[i..], sep, p - i) {
      if p + |sep| <= |s| {
        assert s[p..p + |sep|] == s[i..][p - i..p - i + |sep|];
      }
    }
  }

  /** With a one-character separator, find stops right after a separator-free field. */
  lemma FindFromAfterField(s: string, sep: string, i: nat, f: string, t: string)
    requires |sep| == 1 && i <= |s| && Free(f, sep)
    requires s[i..] == f + sep + t
    ensures FindFrom(s, sep, i) == Some(i + |f|)
  {
    var k := i + |f|;
    assert s[k..k + 1] == s[i..][|f|..|f| + 1];
    assert OccursAt(s, sep, k);
    forall p: nat | i <= p < k ensures OccursAt(s, sep, p) ==> OccursAt(f, sep, p - i) {
      assert s[p..p + 1] == s[i..][p - i..p - i + 1];
      assert s[i..][p - i..p - i + 1] == f[p - i..p - i + 1];
    }
  }

  /**
   * For a one-character separator the split is the unique decomposition of
   * the string into separator-free fields that join back to it.
   */
  lemma {:induction false} SplitFromUnique(s: string, sep: string, i: nat, fields: seq<string>)
    requires |sep| == 1 && i <= |s|
    requires |fields| >= 1 && Join(fields, sep) == s[i..]
    requires forall k | 0 <= k < |fields| :: Free(fields[k], sep)
    ensures SplitFrom(s, sep, i) == fields
    decreases |fields|
  {
    var f := fields[0];
    if |fields| == 1 {
      FindFromNone(s, sep, i);
    } else {
      var t := Join(fields[1..], sep);
      var k := i + |f|;
      FindFromAfterField(s, sep, i, f, t);
      assert s[i..k] == f;
      assert s[k + 1..] == t;
      SplitFromUnique(s, sep, k + 1, fields[1..]);
    }
  }

  lemma SplitUnique(s: string, sep: string, fields: seq<string>)
    requires |sep| == 1
    requires |fields| >= 1 && Join(fields, sep) == s
    requires forall k | 0 <= k < |fields| :: Free(fields[k], sep)
    ensures Split(s, sep) == fields
  {
    assert s[0..] == s;
    SplitFromUnique(s, sep, 0, fields);
  }
}
