/**
 The string operations the ingestion scripts rely on: `in`, `str.split(sep)[0]`,
 `str.rfind`, `str(int)` for non-negative integers, and `pathlib.Path(...).name`
 and `.stem`.
 */
module Text {

  /** `pat` occurs in `s` starting at index `i`. */
  predicate OccursAt(s: string, pat: string, i: nat)
  {
    i + |pat| <= |s| && s[i..i + |pat|] == pat
  }

  /** Some occurrence of `pat` in `s` starts before index `end`. */
  predicate OccursBefore(s: string, pat: string, end: nat)
  {
    exists i: nat :: i < end && OccursAt(s, pat, i)
  }

  /** Python's `pat in s`. */
  predicate Contains(s: string, pat: string)
  {
    OccursBefore(s, pat, |s| + 1)
  }

  predicate StartsWith(s: string, prefix: string)
  {
    |prefix| <= |s| && s[..|prefix|] == prefix
  }

  predicate EndsWith(s: string, suffix: string)
  {
    |suffix| <= |s| && s[|s| - |suffix|..] == suffix
  }

  /** `pat` starts with a character that never recurs inside it, so no two
      occurrences of `pat` can overlap and none can straddle a boundary that
      is followed by that character. */
  predicate HeadIsUnique(pat: string)
  {
    |pat| > 0 && forall j :: 0 < j < |pat| ==> pat[j] != pat[0]
  }

  lemma OccursShift(s: string, pat: string, i: nat)
    requires |s| > 0
    ensures OccursAt(s, pat, i + 1) <==> OccursAt(s[1..], pat, i)
  {
    if i + 1 + |pat| <= |s| {
      assert s[i + 1..i + 1 + |pat|] == s[1..][i..i + |pat|];
    }
  }

  /**
   Python's `s.split(sep)[0]`: the part of `s` before the first occurrence of
   `sep`, or the whole of `s` when `sep` does not occur. Python raises
   ValueError for an empty separator, hence the precondition.
   */
  function SplitHead(s: string, sep: string): (r: string)
    requires |sep| > 0
    ensures StartsWith(s, r)
    ensures !OccursBefore(s, sep, |r|)
    ensures r == s || OccursAt(s, sep, |r|)
    decreases |s|
  {
    if |s| < |sep| then s
    else if s[..|sep|] == sep then []
    else
      var rest := SplitHead(s[1..], sep);
      assert !OccursBefore(s, sep, |rest| + 1) by {
        forall i: nat | i < |rest| + 1 ensures !OccursAt(s, sep, i) {
          if i > 0 {
            OccursShift(s, sep, i - 1);
          }
        }
      }
      assert rest != s[1..] ==> OccursAt(s, sep, |rest| + 1) by {
        OccursShift(s, sep, |rest|);
      }
      [s[0]] + rest
  }

  /** The three properties in SplitHead's contract determine its result. */
  lemma SplitHeadUnique(s: string, sep: string, r: string)
    requires |sep| > 0
    requires StartsWith(s, r)
    requires !OccursBefore(s, sep, |r|)
    requires r == s || OccursAt(s, sep, |r|)
    ensures SplitHead(s, sep) == r
  {
    var h := SplitHead(s, sep);
    assert |h| == |r|;
    assert h == s[..|h|] && r == s[..|r|];
  }

  /** Splitting a string that does not contain the separator gives it back. */
  lemma SplitHeadAbsent(s: string, sep: string)
    requires |sep| > 0 && !Contains(s, sep)
    ensures SplitHead(s, sep) == s
  {
    SplitHeadUnique(s, sep, s);
  }

  /** An occurrence of a head-unique pattern cannot start inside `a` and end
      inside `b` when `b` starts with the pattern's head. */
  lemma NoStraddle(a: string, b: string, pat: string, i: nat)
    requires HeadIsUnique(pat)
    requires |b| > 0 && b[0] == pat[0]
    requires i < |a| < i + |pat|
    ensures !OccursAt(a + b, pat, i)
  {
    if i + |pat| <= |a + b| {
      assert (a + b)[i..i + |pat|][|a| - i] == b[0] != pat[|a| - i];
    }
  }

  /** An occurrence in `a + b` that starts in `a` lies wholly in `a`, or
      straddles the join. */
  lemma OccursInLeft(a: string, b: string, pat: string, i: nat)
    requires i + |pat| <= |a|
    ensures OccursAt(a + b, pat, i) <==> OccursAt(a, pat, i)
  {
    assert (a + b)[i..i + |pat|] == a[i..i + |pat|];
  }

  lemma OccursInRight(a: string, b: string, pat: string, i: nat)
    ensures OccursAt(a + b, pat, |a| + i) <==> OccursAt(b, pat, i)
  {
    if |a| + i + |pat| <= |a + b| {
      assert (a + b)[|a| + i..|a| + i + |pat|] == b[i..i + |pat|];
    }
  }

  /** No occurrence of a head-unique pattern in `a + b` starts inside `a`
      when `a` does not contain it and `b` starts with its head. */
  lemma NotOccursBeforeJoin(a: string, b: string, pat: string)
    requires HeadIsUnique(pat) && !Contains(a, pat)
    requires |b| > 0 && b[0] == pat[0]
    ensures !OccursBefore(a + b, pat, |a|)
  {
    forall i: nat | i < |a| ensures !OccursAt(a + b, pat, i) {
      if i + |pat| <= |a| {
        OccursInLeft(a, b, pat, i);
      } else {
        NoStraddle(a, b, pat, i);
      }
    }
  }

  /** Round trip for `split`: joining a separator-free `a` to a tail that
      starts with the separator and splitting again gives back `a`. */
  lemma SplitHeadOfJoin(a: string, b: string, sep: string)
    requires HeadIsUnique(sep) && !Contains(a, sep)
    requires OccursAt(b, sep, 0)
    ensures SplitHead(a + b, sep) == a
  {
    assert b[0] == sep[0];
    NotOccursBeforeJoin(a, b, sep);
    OccursInRight(a, b, sep, 0);
    assert (a + b)[..|a|] == a;
    SplitHeadUnique(a + b, sep, a);
  }

  /** `a + b` does not contain a head-unique pattern that neither part contains,
      when `b` starts with the pattern's head. */
  lemma NotContainsJoin(a: string, b: string, pat: string)
    requires HeadIsUnique(pat) && !Contains(a, pat) && !Contains(b, pat)
    requires |b| > 0 && b[0] == pat[0]
    ensures !Contains(a + b, pat)
  {
    NotOccursBeforeJoin(a, b, pat);
    forall i: nat | |a| <= i <= |a + b| ensures !OccursAt(a + b, pat, i) {
      OccursInRight(a, b, pat, i - |a|);
    }
  }

  // ---------------------------------------------------------------------
  // str(n) for n >= 0

  predicate IsDigit(c: char)
  {
    '0' <= c <= '9'
  }

  predicate AllDigits(s: string)
  {
    forall i :: 0 <= i < |s| ==> IsDigit(s[i])
  }

  function DigitChar(d: nat): (c: char)
    requires d < 10
    ensures IsDigit(c)
  {
    (('0' as int) + d) as char
  }

  function DigitValue(c: char): (d: nat)
    requires IsDigit(c)
    ensures d < 10
  {
    (c as int) - ('0' as int)
  }

  /** Python's `str(n)` (and `f"{n}"`) for a non-negative integer: decimal
      digits, most significant first, no leading zeros. */
  function NatToString(n: nat): (r: string)
    ensures |r| > 0 && AllDigits(r)
    ensures |r| > 1 ==> r[0] != '0'
  {
    if n < 10 then [DigitChar(n)]
    else NatToString(n / 10) + [DigitChar(n % 10)]
  }

  /** Reads a string of decimal digits back as a number (Python's `int(s)`). */
  function ParseDigits(s: string): nat
    requires AllDigits(s)
  {
    if s == [] then 0
    else ParseDigits(s[..|s| - 1]) * 10 + DigitValue(s[|s| - 1])
  }

  lemma {:induction false} ParseNatToString(n: nat)
    ensures ParseDigits(NatToString(n)) == n
  {
    var r := NatToString(n);
    if n >= 10 {
      ParseNatToString(n / 10);
      assert r[..|r| - 1] == NatToString(n / 10);
    }
  }

  /** Distinct numbers print differently. */
  lemma NatToStringInjective(a: nat, b: nat)
    requires NatToString(a) == NatToString(b)
    ensures a == b
  {
    ParseNatToString(a);
    ParseNatToString(b);
  }

  // ---------------------------------------------------------------------
  // str.rfind and pathlib

  /** Python's `s.rfind(c)` for one character: the last index holding `c`, or -1. */
  function LastIndexOf(s: string, c: char): (r: int)
    ensures -1 <= r < |s|
    ensures r >= 0 ==> s[r] == c
    ensures forall j :: r < j < |s| ==> s[j] != c
  {
    if |s| == 0 then -1
    else if s[|s| - 1] == c then |s| - 1
    else LastIndexOf(s[..|s| - 1], c)
  }

  /** `PurePosixPath(path).name`: the text after the last '/'. */
  function FileName(path: string): (r: string)
    ensures EndsWith(path, r)
    ensures '/' !in r
  {
    path[LastIndexOf(path, '/') + 1..]
  }

  /** The file name is the whole path, or the part after a '/', so it is
      the longest '/'-free suffix. */
  lemma FileNameIsLastSlashSplit(path: string)
    ensures var r := FileName(path);
            r == path || (|r| < |path| && path[|path| - |r| - 1] == '/')
  {
  }

  /** The name of `dir/name` is `name` when `name` has no '/'. */
  lemma FileNameOfJoin(dir: string, name: string)
    requires '/' !in name
    ensures FileName(dir + "/" + name) == name
  {
    var path := dir + "/" + name;
    var r := FileName(path);
    assert path[|dir|] == '/';
    assert forall j :: |dir| < j < |path| ==> path[j] == name[j - |dir| - 1];
    assert LastIndexOf(path, '/') == |dir|;
    assert path[|dir| + 1..] == name;
  }

  /** `PurePosixPath(path).stem`: the name without its last suffix. A leading
      dot or a trailing dot does not start a suffix. */
  function Stem(path: string): (r: string)
    ensures StartsWith(FileName(path), r)
    ensures '/' !in r
  {
    var name := FileName(path);
    var i := LastIndexOf(name, '.');
    if 0 < i < |name| - 1 then name[..i] else name
  }

  /** The stem cuts the file name at its last '.', and only when that dot
      is neither the first nor the last character; otherwise the stem is
      the whole file name. */
  lemma StemIsLastDotSplit(path: string)
    ensures var name := FileName(path);
            var r := Stem(path);
            r == name || (0 < |r| < |name| - 1 && name[|r|] == '.' && forall j :: |r| < j < |name| ==> name[j] != '.')
    ensures var name := FileName(path);
            forall i :: 0 < i < |name| - 1 && name[i] == '.' && (forall j :: i < j < |name| ==> name[j] != '.')
                        ==> Stem(path) == name[..i]
  {
    var name := FileName(path);
    var last := LastIndexOf(name, '.');
    forall i | 0 < i < |name| - 1 && name[i] == '.' && (forall j :: i < j < |name| ==> name[j] != '.')
      ensures Stem(path) == name[..i]
    {
      assert !(last < i);
      assert last == i;
    }
  }

  /** The stem of `base.ext` is `base` when the extension has no dot and the
      base is a non-empty file name. */
  lemma StemOfName(base: string, ext: string)
    requires |base| > 0 && '/' !in base
    requires |ext| > 0 && '.' !in ext && '/' !in ext
    ensures Stem(base + "." + ext) == base
  {
    var name := base + "." + ext;
    assert '/' !in name by {
      assert forall j :: 0 <= j < |name| ==> name[j] == (if j < |base| then base[j] else if j == |base| then '.' else ext[j - |base| - 1]);
    }
    assert FileName(name) == name;
    assert name[|base|] == '.';
    assert forall j :: |base| < j < |name| ==> name[j] != '.' by {
      assert forall j :: |base| < j < |name| ==> name[j] == ext[j - |base| - 1];
    }
    assert LastIndexOf(name, '.') == |base|;
    assert name[..|base|] == base;
  }
}
