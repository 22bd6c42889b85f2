/**
  Substring search over text, as the regular expressions of the renderer use it:
  a literal is found at a position, and an alternation `(a|b|...)` is tried at
  each position from left to right, its alternatives in the order written.
 */
module Text {
  import opened Wrappers

  /** `s` begins with `pat`. */
  predicate StartsWith(s: seq<char>, pat: seq<char>)
  {
    |pat| <= |s| && s[..|pat|] == pat
  }

  /** `pat` occurs in `s` starting at index `k`. */
  predicate OccursAt(s: seq<char>, k: int, pat: seq<char>)
  {
    0 <= k <= |s| && StartsWith(s[k..], pat)
  }

  predicate Contains(s: seq<char>, pat: seq<char>)
  {
    exists k :: 0 <= k <= |s| && OccursAt(s, k, pat)
  }

  /** The number of positions at which `pat` occurs in `s` (overlapping occurrences included). */
  function Count(s: seq<char>, pat: seq<char>): (n: nat)
    decreases |s|
  {
    (if StartsWith(s, pat) then 1 else 0) + (if |s| == 0 then 0 else Count(s[1..], pat))
  }

  /** `pat` occurs nowhere in `s` exactly when it is counted nowhere. */
  lemma {:induction false} CountZero(s: seq<char>, pat: seq<char>)
    ensures Count(s, pat) == 0 <==> !Contains(s, pat)
    decreases |s|
  {
    assert StartsWith(s, pat) <==> OccursAt(s, 0, pat) by {
      assert s[0..] == s;
    }
    if |s| > 0 {
      CountZero(s[1..], pat);
      forall k | 0 < k <= |s| ensures OccursAt(s, k, pat) <==> OccursAt(s[1..], k - 1, pat) {
        assert s[k..] == s[1..][k - 1..];
      }
      if Contains(s[1..], pat) {
        var k :| 0 <= k <= |s[1..]| && OccursAt(s[1..], k, pat);
        assert OccursAt(s, k + 1, pat);
      }
    }
  }

  /**
    The first alternative of `alts` that `s` begins with, trying them in order,
    as a regular-expression alternation does at one position.
   */
  function FirstPrefix(s: seq<char>, alts: seq<seq<char>>): (r: Option<seq<char>>)
    ensures r.Some? ==> r.value in alts && StartsWith(s, r.value)
    decreases |alts|
  {
    if |alts| == 0 then None
    else if StartsWith(s, alts[0]) then Some(alts[0])
    else FirstPrefix(s, alts[1..])
  }

  /** The alternation fails at a position exactly when no alternative begins there. */
  lemma {:induction false} FirstPrefixNone(s: seq<char>, alts: seq<seq<char>>)
    ensures FirstPrefix(s, alts).None? <==> forall a :: a in alts ==> !StartsWith(s, a)
    decreases |alts|
  {
    if |alts| > 0 {
      FirstPrefixNone(s, alts[1..]);
      assert forall a :: a in alts ==> a == alts[0] || a in alts[1..];
    }
  }

  /**
    The leftmost position `j` of `s` at which one of `alts` begins, with the
    alternative found there: the shortest run `s[..j]` that a lazy `(.*?)`
    followed by the alternation `alts` can match.
   */
  function Find(s: seq<char>, alts: seq<seq<char>>): (r: Option<(nat, seq<char>)>)
    ensures r.Some? ==> r.value.0 <= |s| && FirstPrefix(s[r.value.0..], alts) == Some(r.value.1)
    decreases |s|
  {
    var here := FirstPrefix(s, alts);
    if here.Some? then
      assert s[0..] == s;
      Some((0, here.value))
    else if |s| == 0 then None
    else
      var rest := Find(s[1..], alts);
      if rest.None? then None
      else
        assert s[1..][rest.value.0..] == s[rest.value.0 + 1..];
        Some((rest.value.0 + 1, rest.value.1))
  }

  /** `Find` reports the leftmost position, and reports none only when there is none. */
  lemma {:induction false} FindLeftmost(s: seq<char>, alts: seq<seq<char>>)
    ensures Find(s, alts).Some? ==> forall k :: 0 <= k < Find(s, alts).value.0 ==> FirstPrefix(s[k..], alts).None?
    ensures Find(s, alts).None? ==> forall k :: 0 <= k <= |s| ==> FirstPrefix(s[k..], alts).None?
    decreases |s|
  {
    if FirstPrefix(s, alts).None? {
      assert s[0..] == s;
      if |s| > 0 {
        FindLeftmost(s[1..], alts);
        forall k | 0 < k <= |s| ensures s[k..] == s[1..][k - 1..] { }
      }
    }
  }

  /** Searching for a single literal finds its leftmost occurrence, or reports that it has none. */
  lemma FindLiteral(s: seq<char>, h: seq<char>)
    ensures Find(s, [h]).None? ==> forall k :: 0 <= k <= |s| ==> !OccursAt(s, k, h)
    ensures Find(s, [h]).Some? ==>
              var i := Find(s, [h]).value.0;
              OccursAt(s, i, h) && Find(s, [h]).value.1 == h &&
              forall k :: 0 <= k < i ==> !OccursAt(s, k, h)
  {
    assert h in [h];
    FindLeftmost(s, [h]);
    forall k | 0 <= k <= |s| && OccursAt(s, k, h) ensures FirstPrefix(s[k..], [h]).Some? {
      FirstPrefixNone(s[k..], [h]);
    }
  }

  /** A search that finds nothing in `s` finds nothing in any suffix of `s`. */
  lemma FindNoneSuffix(s: seq<char>, alts: seq<seq<char>>, d: nat)
    requires d <= |s| && Find(s, alts).None?
    ensures Find(s[d..], alts).None?
  {
    FindLeftmost(s, alts);
    FindLeftmost(s[d..], alts);
    forall k | 0 <= k <= |s| - d ensures FirstPrefix(s[d..][k..], alts).None? {
      assert s[d..][k..] == s[d + k..];
    }
  }

  /** The two clauses of `Find`'s contract determine its result. */
  lemma FindUnique(s: seq<char>, alts: seq<seq<char>>, j: nat, t: seq<char>)
    requires j <= |s| && FirstPrefix(s[j..], alts) == Some(t)
    requires forall k :: 0 <= k < j ==> FirstPrefix(s[k..], alts).None?
    ensures Find(s, alts) == Some((j, t))
  {
    FindLeftmost(s, alts);
  }

  /** A pattern holding a character that `s` lacks does not occur in `s`. */
  lemma AbsentChar(s: seq<char>, pat: seq<char>, c: char)
    requires c in pat && c !in s
    ensures !Contains(s, pat)
  {
    var i :| 0 <= i < |pat| && pat[i] == c;
    forall k | 0 <= k <= |s| ensures !OccursAt(s, k, pat) {
      if k + |pat| <= |s| {
        assert s[k..][..|pat|][i] == s[k + i];
      }
    }
  }

  /** Dropping a prefix of `d` characters never adds occurrences. */
  lemma {:induction false} CountDrop(s: seq<char>, pat: seq<char>, d: nat)
    requires d <= |s|
    ensures Count(s[d..], pat) <= Count(s, pat)
    decreases d
  {
    if d == 0 {
      assert s[0..] == s;
    } else {
      assert s[1..][d - 1..] == s[d..];
      CountDrop(s[1..], pat, d - 1);
    }
  }

  /** An occurrence at the front is counted once more than what follows its first character. */
  lemma CountPast(t: seq<char>, pat: seq<char>, k: nat)
    requires StartsWith(t, pat) && 1 <= k <= |t|
    ensures Count(t, pat) >= 1 + Count(t[k..], pat)
  {
    assert Count(t, pat) == 1 + Count(t[1..], pat);
    assert t[1..][k - 1..] == t[k..];
    CountDrop(t[1..], pat, k - 1);
  }

  /** Dropping a prefix in which `pat` does not occur loses no occurrence. */
  lemma {:induction false} CountSkip(s: seq<char>, pat: seq<char>, d: nat)
    requires d <= |s|
    requires forall k :: 0 <= k < d ==> !OccursAt(s, k, pat)
    ensures Count(s[d..], pat) == Count(s, pat)
    decreases d
  {
    if d == 0 {
      assert s[0..] == s;
    } else {
      var t := s[1..];
      assert t[d - 1..] == s[d..];
      assert !StartsWith(s, pat) by {
        assert !OccursAt(s, 0, pat);
        assert s[0..] == s;
      }
      forall k | 0 <= k < d - 1 ensures !OccursAt(t, k, pat) {
        assert t[k..] == s[k + 1..];
        assert !OccursAt(s, k + 1, pat);
      }
      CountSkip(t, pat, d - 1);
    }
  }

  /** Dropping a stretch `[b, e)` of `s` at which `pat` never begins loses no occurrence. */
  lemma CountSkipRange(s: seq<char>, pat: seq<char>, b: nat, e: nat)
    requires b <= e <= |s|
    requires forall q :: b <= q < e ==> !OccursAt(s, q, pat)
    ensures Count(s[b..], pat) == Count(s[e..], pat)
  {
    var t := s[b..];
    forall q | 0 <= q < e - b ensures !OccursAt(t, q, pat) {
      assert t[q..] == s[b + q..];
      assert !OccursAt(s, b + q, pat);
    }
    CountSkip(t, pat, e - b);
    assert t[e - b..] == s[e..];
  }

  /**
    A text in which `h` occurs at `i`, followed by `x` and then by the start of
    `t`, is the text before `i`, then `h + x + t`, then the rest.
   */
  lemma Decompose(s: seq<char>, i: nat, h: seq<char>, x: seq<char>, t: seq<char>)
    requires OccursAt(s, i, h)
    requires i + |h| + |x| <= |s| && s[i + |h|..i + |h| + |x|] == x
    requires StartsWith(s[i + |h| + |x|..], t)
    ensures s == s[..i] + (h + x + t) + s[i + |h| + |x| + |t|..]
  {
    var b := i + |h|;
    var e := b + |x| + |t|;
    assert s[i..e] == h + x + t by {
      assert s[i..b] == h by { assert s[i..][..|h|] == s[i..b]; }
      assert s[b + |x|..e] == t by { assert s[b + |x|..][..|t|] == s[b + |x|..e]; }
      assert s[b..e] == s[b..b + |x|] + s[b + |x|..e];
      assert s[i..e] == s[i..b] + s[b..e];
    }
    assert s == s[..i] + s[i..e] + s[e..];
  }

  /**
    When `h` is unbordered and `i` is its first occurrence in `s`, the
    occurrences are that one and those after it.
   */
  lemma CountFirst(s: seq<char>, h: seq<char>, i: nat)
    requires |h| > 0 && Unbordered(h)
    requires OccursAt(s, i, h) && forall k :: 0 <= k < i ==> !OccursAt(s, k, h)
    ensures Count(s, h) == 1 + Count(s[i + |h|..], h)
  {
    CountSkip(s, h, i);
    CountHead(s[i..], h);
    assert s[i..][|h|..] == s[i + |h|..];
  }

  /** A text that begins with `h` has that occurrence and those after it. */
  lemma CountHead(t: seq<char>, h: seq<char>)
    requires |h| > 0 && Unbordered(h)
    requires StartsWith(t, h)
    ensures Count(t, h) == 1 + Count(t[|h|..], h)
  {
    assert Count(t, h) == 1 + Count(t[1..], h);
    forall k | 0 <= k < |h| - 1 ensures !OccursAt(t[1..], k, h) {
      var d := k + 1;
      assert t[1..][k..] == t[d..];
      if |h| <= |t| - d {
        assert t[d..][..|h|][..|h| - d] == h[d..];
        assert h[d..] != h[..|h| - d];
      }
    }
    assert t[1..][|h| - 1..] == t[|h|..];
    CountSkip(t[1..], h, |h| - 1);
  }

  /** A replacement written as one piece reads the same as its parts in a row. */
  lemma Regroup(a: seq<char>, p: seq<char>, q: seq<char>, x: seq<char>, u: seq<char>, t: seq<char>, z: seq<char>)
    ensures a + (p + q + x + u + t) + z == a + p + q + x + u + t + z
  {
  }

  /** The same for a replacement of three parts. */
  lemma Regroup3(a: seq<char>, p: seq<char>, x: seq<char>, q: seq<char>, z: seq<char>)
    ensures a + (p + x + q) + z == a + p + x + q + z
  {
  }

  /** The same for a text put between two parts of a split template. */
  lemma RegroupSplit(a: seq<char>, p: seq<char>, q: seq<char>, x: seq<char>, u: seq<char>, t: seq<char>, z: seq<char>)
    ensures a + (p + q + x + u) + (t + z) == a + p + q + x + u + t + z
  {
  }

  /** An empty alternative matches at once. */
  lemma FindEmpty(s: seq<char>)
    ensures Find(s, [[]]) == Some((0, []))
  {
    assert s[0..] == s;
  }

  /**
    No proper suffix of `h` is also a prefix of it, so two occurrences of `h`
    never overlap.
   */
  predicate Unbordered(h: seq<char>)
  {
    forall d :: 0 < d < |h| ==> h[d..] != h[..|h| - d]
  }

  /** A text whose first character does not recur in it is unbordered. */
  lemma UniqueFirst(h: seq<char>)
    requires |h| > 0 && forall d :: 0 < d < |h| ==> h[d] != h[0]
    ensures Unbordered(h)
  {
    forall d | 0 < d < |h| ensures h[d..] != h[..|h| - d] {
      assert h[d..][0] != h[..|h| - d][0];
    }
  }

  /**
    When `a` does not hold the unbordered `h`, the first occurrence of `h` in
    `a + h + c` is at `|a|`.
   */
  lemma FirstOccurrence(a: seq<char>, h: seq<char>, c: seq<char>)
    requires Unbordered(h)
    requires !Contains(a, h)
    ensures OccursAt(a + h + c, |a|, h)
    ensures forall k :: 0 <= k < |a| ==> !OccursAt(a + h + c, k, h)
  {
    var s := a + h + c;
    var i := |a|;
    assert s[i..][..|h|] == h;
    forall k | 0 <= k < i ensures !OccursAt(s, k, h) {
      if k + |h| <= i {
        assert s[k..][..|h|] == a[k..][..|h|];
        assert !OccursAt(a, k, h);
      } else if k + |h| <= |s| {
        OverlapBorder(s, h, k, i);
      }
    }
  }

  /** Two overlapping occurrences of `h`, `d` apart, show that `h` has a border of length `|h| - d`. */
  lemma OverlapBorder(s: seq<char>, h: seq<char>, k: nat, i: nat)
    requires k < i < k + |h| && k + |h| <= |s| && OccursAt(s, i, h)
    ensures OccursAt(s, k, h) ==> h[i - k..] == h[..|h| - (i - k)]
  {
    if OccursAt(s, k, h) {
      var d := i - k;
      forall j | 0 <= j < |h| - d
        ensures h[d..][j] == h[..|h| - d][j]
      {
        assert s[k..][d + j] == h[d + j];
        assert s[i..][j] == h[j];
      }
    }
  }

  /**
    When `x` does not hold the unbordered `t`, the shortest run of `x + t + c`
    before `t` is `x`.
   */
  lemma FindLiteralAfter(x: seq<char>, t: seq<char>, c: seq<char>)
    requires |t| > 0 && Unbordered(t) && !Contains(x, t)
    ensures Find(x + t + c, [t]).Some?
    ensures Find(x + t + c, [t]).value.0 == |x| && Find(x + t + c, [t]).value.1 == t
  {
    var z := x + t + c;
    FirstOccurrence(x, t, c);
    assert t in [t];
    forall k | 0 <= k < |x| ensures FirstPrefix(z[k..], [t]).None? {
      FirstPrefixNone(z[k..], [t]);
      assert !OccursAt(z, k, t);
    }
    FindUnique(z, [t], |x|, t);
  }

  /** A search for alternatives none of which occurs in `x` finds nothing. */
  lemma FindAbsent(x: seq<char>, alts: seq<seq<char>>)
    requires forall u :: u in alts ==> !Contains(x, u)
    ensures Find(x, alts).None?
  {
    forall k | 0 <= k <= |x| ensures FirstPrefix(x[k..], alts).None? {
      FirstPrefixNone(x[k..], alts);
      forall u | u in alts ensures !StartsWith(x[k..], u) {
        assert !OccursAt(x, k, u);
      }
    }
    FindLeftmost(x, alts);
  }

  /**
    When every alternative begins with the character `ch` and has no other `ch`,
    `x` holds none of them, and `t` is the alternative found at the start of
    `t + c`, then the shortest run of `x + t + c` before an alternative is `x`.
   */
  lemma FindAfterRun(x: seq<char>, t: seq<char>, c: seq<char>, alts: seq<seq<char>>, ch: char)
    requires forall u :: u in alts ==> |u| > 0 && u[0] == ch && forall d :: 0 < d < |u| ==> u[d] != ch
    requires forall u :: u in alts ==> !Contains(x, u)
    requires FirstPrefix(t + c, alts) == Some(t)
    ensures Find(x + t + c, alts).Some?
    ensures Find(x + t + c, alts).value.0 == |x| && Find(x + t + c, alts).value.1 == t
  {
    var z := x + t + c;
    assert z[|x|..] == t + c;
    forall k | 0 <= k < |x| ensures FirstPrefix(z[k..], alts).None? {
      FirstPrefixNone(z[k..], alts);
      forall u | u in alts ensures !StartsWith(z[k..], u) {
        if k + |u| <= |x| {
          assert z[k..][..|u|] == x[k..][..|u|];
          assert !OccursAt(x, k, u);
        } else if |u| <= |z| - k {
          assert z[k..][..|u|][|x| - k] == z[|x|] == t[0];
        }
      }
    }
    FindUnique(z, alts, |x|, t);
  }

  /** No occurrence of `pat` in `a + b` begins in `a` and ends in `b`. */
  predicate NoStraddle(a: seq<char>, b: seq<char>, pat: seq<char>)
  {
    forall k :: 0 <= k < |a| < k + |pat| ==> !OccursAt(a + b, k, pat)
  }

  /**
    When no occurrence straddles the seam, the occurrences in `a + b` are those
    in `a` and those in `b`.
   */
  lemma {:induction false} CountConcat(a: seq<char>, b: seq<char>, pat: seq<char>)
    requires |pat| > 0 && NoStraddle(a, b, pat)
    ensures Count(a + b, pat) == Count(a, pat) + Count(b, pat)
    decreases |a|
  {
    var s := a + b;
    if |a| == 0 {
      assert s == b;
    } else {
      assert s[1..] == a[1..] + b;
      NoStraddleTail(a, b, pat);
      CountConcat(a[1..], b, pat);
      PrefixApart(a, b, pat);
    }
  }

  /** A seam that no occurrence straddles stays so when `a` loses its first character. */
  lemma NoStraddleTail(a: seq<char>, b: seq<char>, pat: seq<char>)
    requires |a| > 0 && NoStraddle(a, b, pat)
    ensures NoStraddle(a[1..], b, pat)
  {
    var s := a + b;
    forall k | 0 <= k < |a[1..]| < k + |pat| ensures !OccursAt(a[1..] + b, k, pat) {
      assert s[k + 1..] == (a[1..] + b)[k..];
      assert !OccursAt(s, k + 1, pat);
    }
  }

  /** Across a seam that no occurrence straddles, `a + b` begins with `pat` exactly when `a` does. */
  lemma PrefixApart(a: seq<char>, b: seq<char>, pat: seq<char>)
    requires |a| > 0 && NoStraddle(a, b, pat)
    ensures StartsWith(a + b, pat) == StartsWith(a, pat)
  {
    var s := a + b;
    assert s[0..] == s;
    if |pat| <= |a| {
      assert s[..|pat|] == a[..|pat|];
    } else {
      assert !OccursAt(s, 0, pat);
    }
  }

  /** Where `pat` occurs at `k`, the character at `i` of the text is the character at `i - k` of `pat`. */
  lemma CharOfOccurrence(s: seq<char>, k: nat, pat: seq<char>, i: nat)
    requires k <= i < k + |pat| && i < |s|
    ensures OccursAt(s, k, pat) ==> pat[i - k] == s[i]
  {
    if OccursAt(s, k, pat) {
      assert s[k..][..|pat|][i - k] == s[i];
    }
  }

  /** A `pat` without the character `c` cannot straddle a seam that `c` borders. */
  lemma SeamChar(a: seq<char>, b: seq<char>, pat: seq<char>, c: char)
    requires c !in pat
    requires (|a| > 0 && a[|a| - 1] == c) || (|b| > 0 && b[0] == c)
    ensures NoStraddle(a, b, pat)
  {
    var s := a + b;
    var i := if |a| > 0 && a[|a| - 1] == c then |a| - 1 else |a|;
    assert s[i] == c;
    forall k | 0 <= k < |a| < k + |pat| ensures !OccursAt(s, k, pat) {
      CharOfOccurrence(s, k, pat, i);
    }
  }

  /** A bare tag: `<` only at its start and `>` only at its end. */
  predicate Tag(t: seq<char>)
  {
    |t| > 1 && t[0] == '<' && t[|t| - 1] == '>' &&
    (forall d :: 0 < d < |t| ==> t[d] != '<') &&
    (forall d :: 0 <= d < |t| - 1 ==> t[d] != '>')
  }

  /** A tag cannot straddle a seam after a `>` or before a `<`. */
  lemma SeamTag(a: seq<char>, b: seq<char>, pat: seq<char>)
    requires Tag(pat)
    requires (|a| > 0 && a[|a| - 1] == '>') || (|b| > 0 && b[0] == '<')
    ensures NoStraddle(a, b, pat)
  {
    var s := a + b;
    forall k | 0 <= k < |a| < k + |pat| ensures !OccursAt(s, k, pat) {
      if |a| > 0 && a[|a| - 1] == '>' {
        CharOfOccurrence(s, k, pat, |a| - 1);
      } else {
        CharOfOccurrence(s, k, pat, |a|);
      }
    }
  }
}
