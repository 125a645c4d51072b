/**
 * The handful of Python `str` operations the extraction heuristics are
 * built from: `upper`, `lower`, `strip`, `split(sep)`, `sep.join`,
 * `find(sub, start)` and the `sub in s` test.  Case mapping is ASCII only;
 * whitespace is the set of characters for which `str.isspace` holds.
 */
module Strings {

  /** `c.isspace()` for Python 3 strings. */
  predicate IsSpace(c: char) {
    || '\U{0009}' <= c <= '\U{000D}' || '\U{001C}' <= c <= '\U{0020}'
    || c == '\U{0085}' || c == '\U{00A0}' || c == '\U{1680}'
    || '\U{2000}' <= c <= '\U{200A}' || c == '\U{2028}' || c == '\U{2029}'
    || c == '\U{202F}' || c == '\U{205F}' || c == '\U{3000}'
  }

  function UpperChar(c: char): char {
    if 'a' <= c <= 'z' then (c as int - 32) as char else c
  }

  function LowerChar(c: char): char {
    if 'A' <= c <= 'Z' then (c as int + 32) as char else c
  }

  /** `s.upper()`, restricted to ASCII letters. */
  function Upper(s: string): (r: string)
    ensures |r| == |s|
    ensures forall i :: 0 <= i < |s| ==> r[i] == UpperChar(s[i])
  {
    seq(|s|, i requires 0 <= i < |s| => UpperChar(s[i]))
  }

  /** `s.lower()`, restricted to ASCII letters. */
  function Lower(s: string): (r: string)
    ensures |r| == |s|
    ensures forall i :: 0 <= i < |s| ==> r[i] == LowerChar(s[i])
  {
    seq(|s|, i requires 0 <= i < |s| => LowerChar(s[i]))
  }

  /** Upper-casing forgets an earlier lower-casing and vice versa, so a
      comparison after either folding ignores the case of its input. */
  lemma CaseFold(s: string)
    ensures Upper(Lower(s)) == Upper(s)
    ensures Lower(Upper(s)) == Lower(s)
  {
    assert forall i :: 0 <= i < |s| ==> Upper(Lower(s))[i] == Upper(s)[i];
    assert forall i :: 0 <= i < |s| ==> Lower(Upper(s))[i] == Lower(s)[i];
  }

  lemma WholePrefix<T>(s: seq<T>)
    ensures s[..|s|] == s
  {
  }

  lemma ConsIndex<T>(x: T, s: seq<T>, i: nat)
    requires i < |s|
    ensures ([x] + s)[i + 1] == s[i]
  {
  }

  /** `pat` occurs in `s` starting at index `k`. */
  predicate OccursAt(s: string, pat: string, k: int) {
    0 <= k && k + |pat| <= |s| && s[k..k + |pat|] == pat
  }

  /** `s.find(pat, start)`: the leftmost occurrence at or after `start`, or -1. */
  function Find(s: string, pat: string, start: nat): (r: int)
    ensures r == -1 || (start <= r && OccursAt(s, pat, r))
    ensures r == -1 ==> forall k :: start <= k ==> !OccursAt(s, pat, k)
    ensures forall k :: start <= k < r ==> !OccursAt(s, pat, k)
    decreases |s| - start
  {
    if start + |pat| > |s| then -1
    else if s[start..start + |pat|] == pat then start
    else Find(s, pat, start + 1)
  }

  /** `pat in s`. */
  predicate Contains(s: string, pat: string) {
    exists k | 0 <= k <= |s| - |pat| :: OccursAt(s, pat, k)
  }

  /** `find` succeeds exactly when the pattern is in the string. */
  lemma FindContains(s: string, pat: string)
    ensures Find(s, pat, 0) >= 0 <==> Contains(s, pat)
  {
    if Contains(s, pat) {
      var k :| 0 <= k <= |s| - |pat| && OccursAt(s, pat, k);
    } else {
      assert Find(s, pat, 0) == -1 || OccursAt(s, pat, Find(s, pat, 0));
    }
  }

  /** An occurrence of `pat` inside the slice `s[a..b]` is one in `s`. */
  lemma OccursInSlice(s: string, a: nat, b: nat, pat: string, k: int)
    requires a <= b <= |s|
    requires OccursAt(s[a..b], pat, k)
    ensures OccursAt(s, pat, a + k) && a + k + |pat| <= b
  {
    var inner := s[a..b];
    assert inner[k..k + |pat|] == pat;
    forall j | 0 <= j < |pat| ensures s[a + k + j] == pat[j] {
      assert inner[k + j] == s[a + k + j];
    }
    assert s[a + k..a + k + |pat|] == pat;
  }

  /** `sep.join(parts)`. */
  function Join(parts: seq<string>, sep: string): string
    decreases |parts|
  {
    if |parts| == 0 then ""
    else if |parts| == 1 then parts[0]
    else parts[0] + sep + Join(parts[1..], sep)
  }

  lemma NoCharBeforeFind(s: string, c: char)
    ensures var i := Find(s, [c], 0);
            i >= 0 ==> c !in s[..i]
    ensures Find(s, [c], 0) < 0 ==> c !in s
  {
    var i := Find(s, [c], 0);
    var bound := if i >= 0 then i else |s|;
    forall k | 0 <= k < bound ensures s[k] != c {
      assert !OccursAt(s, [c], k);
      assert s[k..k + 1] == [s[k]];
    }
  }

  /** `s.split(sep)` for a one-character separator: at least one piece, no
      piece holds the separator, and the first piece runs up to the first one. */
  function Split(s: string, sep: char): (r: seq<string>)
    ensures |r| >= 1
    ensures forall i :: 0 <= i < |r| ==> sep !in r[i]
    ensures |r[0]| <= |s| && r[0] == s[..|r[0]|] && (|r[0]| == |s| || s[|r[0]|] == sep)
    decreases |s|
  {
    var i := Find(s, [sep], 0);
    NoCharBeforeFind(s, sep);
    if i < 0 then [s]
    else
      assert s[i..i + 1] == [sep];
      [s[..i]] + Split(s[i + 1..], sep)
  }

  /** Joining the pieces with the separator gives the string back. */
  lemma {:induction false} JoinSplit(s: string, sep: char)
    ensures Join(Split(s, sep), [sep]) == s
    decreases |s|
  {
    var i := Find(s, [sep], 0);
    if i >= 0 {
      assert s[i..i + 1] == [sep];
      var rest := Split(s[i + 1..], sep);
      JoinSplit(s[i + 1..], sep);
      assert ([s[..i]] + rest)[1..] == rest;
      assert s == s[..i] + [sep] + s[i + 1..];
    }
  }

  lemma PrefixContained(s: string, n: nat)
    requires n <= |s|
    ensures Contains(s, s[..n])
  {
    assert OccursAt(s, s[..n], 0);
  }

  lemma SuffixContained(s: string, a: nat, pat: string)
    requires a <= |s|
    requires Contains(s[a..], pat)
    ensures Contains(s, pat)
  {
    var k :| 0 <= k <= |s[a..]| - |pat| && OccursAt(s[a..], pat, k);
    assert s[a..] == s[a..|s|];
    OccursInSlice(s, a, |s|, pat, k);
  }

  /** Every piece `s.split(sep)` returns occurs in `s`, so `s.find(piece)` finds it. */
  lemma {:induction false} SplitPiecesOccur(s: string, sep: char)
    ensures forall i :: 0 <= i < |Split(s, sep)| ==> Contains(s, Split(s, sep)[i])
    decreases |s|
  {
    var r := Split(s, sep);
    var i := Find(s, [sep], 0);
    if i < 0 {
      assert r == [s];
      assert OccursAt(s, s, 0);
    } else {
      var rest := Split(s[i + 1..], sep);
      assert r == [s[..i]] + rest;
      SplitPiecesOccur(s[i + 1..], sep);
      forall j | 0 <= j < |r| ensures Contains(s, r[j]) {
        if j == 0 {
          PrefixContained(s, i);
        } else {
          SuffixContained(s, i + 1, rest[j - 1]);
        }
      }
    }
  }

  /** Splitting what was joined gives the pieces back, when none holds the separator. */
  lemma {:induction false} SplitJoin(parts: seq<string>, sep: char)
    requires |parts| >= 1
    requires forall i :: 0 <= i < |parts| ==> sep !in parts[i]
    ensures Split(Join(parts, [sep]), sep) == parts
    decreases |parts|
  {
    var s := Join(parts, [sep]);
    var p := parts[0];
    if |parts| == 1 {
      forall k | 0 <= k < |s| ensures !OccursAt(s, [sep], k) {
        assert s[k..k + 1] == [s[k]];
      }
    } else {
      var tail := Join(parts[1..], [sep]);
      assert s == p + [sep] + tail;
      var i := Find(s, [sep], 0);
      assert OccursAt(s, [sep], |p|);
      forall k | 0 <= k < |p| ensures !OccursAt(s, [sep], k) {
        assert s[k] == p[k];
        assert s[k..k + 1] == [s[k]];
      }
      assert i == |p|;
      assert s[..i] == p;
      assert s[i + 1..] == tail;
      SplitJoin(parts[1..], sep);
    }
  }

  /** The first index at or after `i` that is not whitespace, or `|s|`. */
  function SkipSpace(s: string, i: nat): (k: nat)
    requires i <= |s|
    ensures i <= k <= |s|
    ensures forall j :: i <= j < k ==> IsSpace(s[j])
    ensures k == |s| || !IsSpace(s[k])
    decreases |s| - i
  {
    if i == |s| || !IsSpace(s[i]) then i else SkipSpace(s, i + 1)
  }

  /** The end of `s[lo..hi]` once its trailing whitespace is dropped. */
  function SkipSpaceBack(s: string, lo: nat, hi: nat): (k: nat)
    requires lo <= hi <= |s|
    ensures lo <= k <= hi
    ensures forall j :: k <= j < hi ==> IsSpace(s[j])
    ensures k == lo || !IsSpace(s[k - 1])
    decreases hi
  {
    if hi == lo || !IsSpace(s[hi - 1]) then hi else SkipSpaceBack(s, lo, hi - 1)
  }

  /** Everything of `s` outside `s[a..b]` is whitespace. */
  predicate Trimmed(s: string, a: nat, b: nat)
    requires a <= b <= |s|
  {
    (forall k :: 0 <= k < a ==> IsSpace(s[k])) && (forall k :: b <= k < |s| ==> IsSpace(s[k]))
  }

  /** `s.strip()`: empty exactly when `s` is all whitespace; otherwise it
      starts and ends with a non-whitespace character, and it is the part of
      `s` between leading and trailing whitespace. */
  function Strip(s: string): (r: string)
    ensures r == [] <==> forall k :: 0 <= k < |s| ==> IsSpace(s[k])
    ensures r == [] || (!IsSpace(r[0]) && !IsSpace(r[|r| - 1]))
    ensures exists a, b :: 0 <= a <= b <= |s| && r == s[a..b] && Trimmed(s, a, b)
  {
    var a := SkipSpace(s, 0);
    var b := SkipSpaceBack(s, a, |s|);
    assert a < b ==> s[a..b][0] == s[a] && s[a..b][b - a - 1] == s[b - 1];
    s[a..b]
  }
}
