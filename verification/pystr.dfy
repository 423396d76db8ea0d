/** The Python `str` operations the reply parser is built from: substring
    search, `str.split(sep)`, `sep.join(parts)` and `str.strip()`, on
    strings as sequences of Unicode scalar values. */
module PyStr {
  import opened Wrappers

  /** `p` occurs in `s` starting at index `i`. */
  predicate OccursAt(s: string, p: string, i: int) {
    0 <= i && i + |p| <= |s| && s[i..i + |p|] == p
  }

  /** Python's `p in s` for two strings. */
  predicate Contains(s: string, p: string) {
    exists i :: 0 <= i <= |s| - |p| && OccursAt(s, p, i)
  }

  /** `i` is the leftmost occurrence of `p` in `s`. */
  ghost predicate IsFirstOccurrence(s: string, p: string, i: int) {
    OccursAt(s, p, i) && forall k :: 0 <= k < i ==> !OccursAt(s, p, k)
  }

  /** `j` is the rightmost occurrence of `p` in `s`. */
  ghost predicate IsLastOccurrence(s: string, p: string, j: int) {
    OccursAt(s, p, j) && forall k :: j < k ==> !OccursAt(s, p, k)
  }

  /** `p` read from offset `d` agrees with `p`'s own prefix: two copies of
      `p` could start `d` characters apart. */
  predicate Overlaps(p: string, d: int)
    requires 0 < d < |p|
  {
    p[d..] == p[..|p| - d]
  }

  /** No two occurrences of `p` in any string can share a character. */
  predicate NoSelfOverlap(p: string) {
    forall d :: 0 < d < |p| ==> !Overlaps(p, d)
  }

  /** The leftmost occurrence of `p` in `s` at or after `from`. */
  function IndexOfFrom(s: string, p: string, from: nat): (r: Option<nat>)
    ensures r.Some? ==> from <= r.value && OccursAt(s, p, r.value)
    ensures forall k :: from <= k && (r.None? || k < r.value) ==> !OccursAt(s, p, k)
    decreases |s| - from
  {
    if from + |p| > |s| then None
    else if s[from..from + |p|] == p then Some(from)
    else IndexOfFrom(s, p, from + 1)
  }

  /** Python's `s.find(p)`, with `None` for -1. */
  function IndexOf(s: string, p: string): (r: Option<nat>)
    ensures r.Some? ==> IsFirstOccurrence(s, p, r.value)
    ensures r.None? <==> !Contains(s, p)
  {
    IndexOfFrom(s, p, 0)
  }

  /** Python's `sep.join(parts)`. */
  function Join(parts: seq<string>, sep: string): string {
    if |parts| == 0 then []
    else if |parts| == 1 then parts[0]
    else parts[0] + sep + Join(parts[1..], sep)
  }

  /** Python's `s.split(sep)` for a non-empty separator: cut `s` at each
      leftmost, non-overlapping occurrence of `sep`. */
  function Split(s: string, sep: string): (r: seq<string>)
    requires sep != []
    ensures |r| >= 1
    decreases |s|
  {
    match IndexOf(s, sep)
    case None => [s]
    case Some(i) => [s[..i]] + Split(s[i + |sep|..], sep)
  }

  /** Python's `xs[-1]`. */
  function Last<T>(xs: seq<T>): T
    requires |xs| > 0
  {
    xs[|xs| - 1]
  }

  /** Putting an element in front of a list does not change its last element. */
  lemma LastOfCons<T>(x: T, xs: seq<T>)
    requires |xs| > 0
    ensures Last([x] + xs) == Last(xs)
  {
  }

  /** The characters Python's `str.isspace()` accepts, which are the ones
      `str.strip()` removes when called without arguments. */
  predicate IsSpace(c: char) {
    || c == ' '
    || ('\t' <= c <= '\r')
    || ('\U{1C}' <= c <= '\U{1F}')
    || c == '\U{85}'
    || c == '\U{A0}'
    || c == '\U{1680}'
    || ('\U{2000}' <= c <= '\U{200A}')
    || c == '\U{2028}'
    || c == '\U{2029}'
    || c == '\U{202F}'
    || c == '\U{205F}'
    || c == '\U{3000}'
  }

  /** Neither the first nor the last character of `s` is whitespace. */
  predicate IsStripped(s: string) {
    s == [] || (!IsSpace(s[0]) && !IsSpace(s[|s| - 1]))
  }

  /** Python's `s.lstrip()`: the longest suffix of `s` that does not start
      with whitespace. */
  function TrimStart(s: string): (r: string)
    ensures |r| <= |s| && r == s[|s| - |r|..]
    ensures forall i :: 0 <= i < |s| - |r| ==> IsSpace(s[i])
    ensures r == [] || !IsSpace(r[0])
    decreases |s|
  {
    if |s| > 0 && IsSpace(s[0]) then TrimStart(s[1..]) else s
  }

  /** Python's `s.rstrip()`: the longest prefix of `s` that does not end
      with whitespace. */
  function TrimEnd(s: string): (r: string)
    ensures |r| <= |s| && r == s[..|r|]
    ensures forall i :: |r| <= i < |s| ==> IsSpace(s[i])
    ensures r == [] || !IsSpace(r[|r| - 1])
    decreases |s|
  {
    if |s| > 0 && IsSpace(s[|s| - 1]) then TrimEnd(s[..|s| - 1]) else s
  }

  /** Python's `s.strip()`: `s` with leading and trailing whitespace cut
      off, so that the result neither starts nor ends with whitespace. */
  function Strip(s: string): (r: string)
    ensures IsStripped(r)
  {
    TrimEnd(TrimStart(s))
  }

  /** `r` is the slice of `s` starting at `a`, and everything of `s`
      outside that slice is whitespace. */
  ghost predicate StrippedSlice(s: string, r: string, a: int) {
    && 0 <= a <= |s| - |r|
    && r == s[a..a + |r|]
    && (forall i :: 0 <= i < a ==> IsSpace(s[i]))
    && (forall i :: a + |r| <= i < |s| ==> IsSpace(s[i]))
  }

  // ---------------------------------------------------------------------
  // Occurrences in slices

  /** An occurrence inside the slice `s[a..b]` is an occurrence in `s`. */
  lemma OccursInSlice(s: string, p: string, a: int, b: int, k: int)
    requires 0 <= a <= b <= |s|
    requires OccursAt(s[a..b], p, k)
    ensures OccursAt(s, p, a + k)
  {
    forall t | 0 <= t < |p|
      ensures s[a + k..a + k + |p|][t] == p[t]
    {
      assert s[a..b][k..k + |p|][t] == p[t];
    }
  }

  /** The first `n` characters of the suffix `s[a..]`. */
  lemma PrefixOfSuffix(s: string, a: int, n: int)
    requires 0 <= a && 0 <= n && a + n <= |s|
    ensures s[a..][..n] == s[a..a + n]
  {
  }

  /** An occurrence lying wholly after `a` is an occurrence in `s[a..]`. */
  lemma OccursInSuffix(s: string, p: string, a: int, k: int)
    requires 0 <= a <= |s|
    requires OccursAt(s, p, a + k) && 0 <= k
    ensures OccursAt(s[a..], p, k)
  {
    assert s[a..][k..k + |p|] == s[a + k..a + k + |p|];
  }

  /** A slice of a string without `p` has no `p` either. */
  lemma SliceAbsence(s: string, p: string, a: int, b: int)
    requires 0 <= a <= b <= |s|
    requires !Contains(s, p)
    ensures !Contains(s[a..b], p)
  {
    if Contains(s[a..b], p) {
      var k :| 0 <= k <= |s[a..b]| - |p| && OccursAt(s[a..b], p, k);
      OccursInSlice(s, p, a, b, k);
      assert false;
    }
  }

  /** The text before the first occurrence of `p` does not contain `p`. */
  lemma PrefixAbsence(s: string, p: string, i: int)
    requires p != [] && IsFirstOccurrence(s, p, i)
    ensures !Contains(s[..i], p)
  {
    if Contains(s[..i], p) {
      var k :| 0 <= k <= |s[..i]| - |p| && OccursAt(s[..i], p, k);
      OccursInSlice(s, p, 0, i, k);
      assert false;
    }
  }

  /** Two occurrences of `p` that start `d` apart with `d < |p|` make
      `p` overlap itself at `d`. */
  lemma OverlapOfCloseOccurrences(s: string, p: string, i: int, j: int)
    requires OccursAt(s, p, i) && OccursAt(s, p, j) && i < j < i + |p|
    ensures Overlaps(p, j - i)
  {
    var d := j - i;
    forall t | 0 <= t < |p| - d
      ensures p[d..][t] == p[..|p| - d][t]
    {
      assert p[d + t] == s[i + d + t] == s[j + t] == p[t];
    }
  }

  /** Two occurrences of a pattern that cannot overlap itself are at least
      its length apart. */
  lemma OccurrencesApart(s: string, p: string, i: int, j: int)
    requires NoSelfOverlap(p)
    requires OccursAt(s, p, i) && OccursAt(s, p, j) && i < j
    ensures i + |p| <= j
  {
    if j < i + |p| {
      OverlapOfCloseOccurrences(s, p, i, j);
    }
  }

  /** A string that contains `p + q` contains `p`. */
  lemma ContainsPrefixOfPattern(s: string, p: string, q: string)
    requires Contains(s, p + q)
    ensures Contains(s, p)
  {
    var k :| 0 <= k <= |s| - |p + q| && OccursAt(s, p + q, k);
    assert s[k..k + |p|] == (p + q)[..|p|] == p;
    assert OccursAt(s, p, k);
  }

  /** A string without the character `c` contains no pattern starting with `c`. */
  lemma AbsentCharacter(s: string, p: string)
    requires |p| > 0 && p[0] !in s
    ensures !Contains(s, p)
  {
    forall k | 0 <= k <= |s| - |p|
      ensures !OccursAt(s, p, k)
    {
      assert s[k] in s;
    }
  }

  // ---------------------------------------------------------------------
  // split

  /** Joining the pieces of `s.split(sep)` with `sep` gives `s` back, and no
      piece contains `sep`. */
  lemma {:induction false} SplitJoinsBack(s: string, sep: string)
    requires sep != []
    ensures Join(Split(s, sep), sep) == s
    ensures forall k :: 0 <= k < |Split(s, sep)| ==> !Contains(Split(s, sep)[k], sep)
    decreases |s|
  {
    match IndexOf(s, sep)
    case None =>
    case Some(i) =>
      var rest := s[i + |sep|..];
      var tail := Split(rest, sep);
      SplitJoinsBack(rest, sep);
      PrefixAbsence(s, sep, i);
      assert s == s[..i] + sep + rest by {
        assert s[i..i + |sep|] == sep;
        assert s == s[..i] + s[i..i + |sep|] + rest;
      }
      var pieces := [s[..i]] + tail;
      assert Split(s, sep) == pieces;
      assert pieces[1..] == tail;
      forall k | 1 <= k < |pieces|
        ensures !Contains(pieces[k], sep)
      {
        assert pieces[k] == tail[k - 1];
      }
  }

  /** The first piece of `s.split(sep)` does not contain `sep`. */
  lemma SplitHeadFree(s: string, sep: string)
    requires sep != []
    ensures !Contains(Split(s, sep)[0], sep)
  {
    match IndexOf(s, sep)
    case None =>
    case Some(i) => PrefixAbsence(s, sep, i);
  }

  /** Without an occurrence of `sep`, `s.split(sep)` is `[s]`. */
  lemma SplitWithoutSeparator(s: string, sep: string)
    requires sep != [] && !Contains(s, sep)
    ensures Split(s, sep) == [s]
  {
  }

  /** Past the first occurrence of `sep`, `s.split(sep)` goes on with the
      split of the rest. */
  lemma SplitAtFirst(s: string, sep: string, i: int)
    requires sep != [] && IsFirstOccurrence(s, sep, i)
    ensures Split(s, sep) == [s[..i]] + Split(s[i + |sep|..], sep)
  {
  }

  /** `s.split(sep)[0]` is the text before the first occurrence of `sep`. */
  lemma SplitHeadBeforeFirst(s: string, sep: string, i: int)
    requires sep != [] && IsFirstOccurrence(s, sep, i)
    ensures Split(s, sep)[0] == s[..i]
  {
  }

  /** Nothing after the last occurrence of `p` contains `p`. */
  lemma AfterLastAbsence(s: string, p: string, j: int)
    requires IsLastOccurrence(s, p, j) && p != []
    ensures !Contains(s[j + |p|..], p)
  {
    var rest := s[j + |p|..];
    forall k | 0 <= k <= |rest| - |p|
      ensures !OccursAt(rest, p, k)
    {
      if OccursAt(rest, p, k) {
        assert rest == s[j + |p|..|s|];
        OccursInSlice(s, p, j + |p|, |s|, k);
      }
    }
  }

  /** The last occurrence of `p` in `s` is, shifted, the last one in any
      suffix `s[a..]` that still holds it. */
  lemma LastOccurrenceInSuffix(s: string, p: string, a: int, j: int)
    requires IsLastOccurrence(s, p, j) && 0 <= a <= j
    ensures IsLastOccurrence(s[a..], p, j - a)
  {
    OccursInSuffix(s, p, a, j - a);
    forall k | j - a < k
      ensures !OccursAt(s[a..], p, k)
    {
      if OccursAt(s[a..], p, k) {
        assert s[a..] == s[a..|s|];
        OccursInSlice(s, p, a, |s|, k);
      }
    }
  }

  /** When the first occurrence of `sep` is also the last, the split has two
      pieces and the second is everything after it. */
  lemma SplitLastAtOnlyOccurrence(s: string, sep: string, j: int)
    requires sep != [] && IsFirstOccurrence(s, sep, j) && IsLastOccurrence(s, sep, j)
    ensures Split(s, sep) == [s[..j], s[j + |sep|..]]
  {
    AfterLastAbsence(s, sep, j);
    SplitWithoutSeparator(s[j + |sep|..], sep);
    SplitAtFirst(s, sep, j);
  }

  /** The pieces after the first occurrence of `sep` end in the same piece
      as the whole split. */
  lemma SplitLastPastFirst(s: string, sep: string, i: int)
    requires sep != [] && IsFirstOccurrence(s, sep, i)
    ensures Last(Split(s, sep)) == Last(Split(s[i + |sep|..], sep))
  {
    SplitAtFirst(s, sep, i);
    LastOfCons(s[..i], Split(s[i + |sep|..], sep));
  }

  /** For a separator that cannot overlap itself, `s.split(sep)[-1]` is the
      text after the last occurrence of `sep`. */
  lemma {:induction false} SplitLastAfterLast(s: string, sep: string, j: int)
    requires sep != [] && NoSelfOverlap(sep)
    requires IsLastOccurrence(s, sep, j)
    ensures Last(Split(s, sep)) == s[j + |sep|..]
    decreases |s|
  {
    assert Contains(s, sep) by {
      assert 0 <= j <= |s| - |sep| && OccursAt(s, sep, j);
    }
    var i := IndexOf(s, sep).value;
    if i == j {
      SplitLastAtOnlyOccurrence(s, sep, j);
    } else {
      var rest := s[i + |sep|..];
      OccurrencesApart(s, sep, i, j);
      LastOccurrenceInSuffix(s, sep, i + |sep|, j);
      SplitLastAfterLast(rest, sep, j - (i + |sep|));
      SplitLastPastFirst(s, sep, i);
      assert rest[j - (i + |sep|) + |sep|..] == s[j + |sep|..];
    }
  }

  /** For a separator that cannot overlap itself, splitting a join of pieces
      that do not contain it gives the pieces back. */
  lemma {:induction false} SplitJoin(parts: seq<string>, sep: string)
    requires sep != [] && NoSelfOverlap(sep)
    requires |parts| >= 1
    requires forall k :: 0 <= k < |parts| ==> !Contains(parts[k], sep)
    ensures Split(Join(parts, sep), sep) == parts
    decreases |parts|
  {
    if |parts| == 1 {
      SplitWithoutSeparator(parts[0], sep);
    } else {
      var head := parts[0];
      var tail := Join(parts[1..], sep);
      var s := head + sep + tail;
      assert Join(parts, sep) == s;
      assert OccursAt(s, sep, |head|) by {
        assert s[|head|..|head| + |sep|] == sep;
      }
      forall k | 0 <= k < |head|
        ensures !OccursAt(s, sep, k)
      {
        if OccursAt(s, sep, k) {
          if k + |sep| <= |head| {
            assert s[k..k + |sep|] == head[k..k + |sep|];
            assert OccursAt(head, sep, k);
            assert false;
          } else {
            OccurrencesApart(s, sep, k, |head|);
            assert false;
          }
        }
      }
      assert IsFirstOccurrence(s, sep, |head|);
      assert s[..|head|] == head;
      assert s[|head| + |sep|..] == tail;
      SplitJoin(parts[1..], sep);
      assert parts == [head] + parts[1..];
    }
  }

  // ---------------------------------------------------------------------
  // strip

  /** Stripping the empty string gives the empty string. */
  lemma StripEmpty()
    ensures Strip([]) == []
  {
  }

  /** Stripping a string that is already stripped changes nothing. */
  lemma StripStripped(s: string)
    requires IsStripped(s)
    ensures Strip(s) == s
  {
  }

  /** What `strip()` keeps is a contiguous slice of its input, and
      everything outside that slice is whitespace. */
  lemma StripSlice(s: string)
    ensures exists a :: StrippedSlice(s, Strip(s), a)
  {
    var t := TrimStart(s);
    assert StrippedSlice(s, Strip(s), |s| - |t|);
  }

  /** `strip()` is idempotent. */
  lemma StripIdempotent(s: string)
    ensures Strip(Strip(s)) == Strip(s)
  {
    StripStripped(Strip(s));
  }

  /** `strip()` cannot create an occurrence of a pattern. */
  lemma StripKeepsAbsence(s: string, p: string)
    requires !Contains(s, p)
    ensures !Contains(Strip(s), p)
  {
    var r := Strip(s);
    StripSlice(s);
    var a :| StrippedSlice(s, r, a);
    SliceAbsence(s, p, a, a + |r|);
  }
}
