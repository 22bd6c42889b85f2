/**
  The text pipeline of `make` (mkdoc.py:53-69), after markdown has produced the
  HTML body: the body is put into the template at the `{%body%}` marker, code
  paragraphs become preformatted blocks, and six heading passes, deepest level
  first, wrap the content after each closing heading tag in a `<section>`.

  Each step is one `re.sub` (module Scan) of one of three compiled patterns.
 */
module Render {
  import opened Wrappers
  import opened Text
  import opened Edits
  import opened Scan

  const Marker: seq<char> := "{%body%}"
  const CodeOpen: seq<char> := "<p><code>"
  const CodeClose: seq<char> := "</code></p>"
  const PreOpen: seq<char> := "<pre><code>"
  const PreClose: seq<char> := "</code></pre>"
  const SectionOpen: seq<char> := "\n<section>\n"
  const SectionClose: seq<char> := "\n</section>\n"
  const BodyClose: seq<char> := "</body>"

  /** A heading level, `h1` to `h6`. */
  type Level = n: int | 1 <= n <= 6 witness 1

  /** The digit of a level in its tags. */
  function Digit(n: Level): (r: char)
    ensures '1' <= r <= '6'
  {
    (48 + n) as char
  }

  function OpenTag(n: Level): (t: seq<char>)
    ensures |t| == 4 && t[0] == '<' && t[3] == '>'
  {
    "<h" + [Digit(n)] + ">"
  }

  function CloseTag(n: Level): (t: seq<char>)
    ensures |t| == 5 && t[0] == '<' && t[4] == '>'
  {
    "</h" + [Digit(n)] + ">"
  }

  /**
    The alternatives that end the content of a level-`n` heading, in the order
    the patterns write them: the opening tags of levels `n` down to 1, then `</body>`.
   */
  function Stops(n: nat): (r: seq<seq<char>>)
    requires n <= 6
    ensures |r| == n + 1 && r[n] == BodyClose
    ensures forall u :: u in r ==> Preserved(u)
  {
    if n == 0 then
      TagsPreserved(1);
      [BodyClose]
    else
      TagsPreserved(n);
      [OpenTag(n)] + Stops(n - 1)
  }

  /**
    The marker pattern (mkdoc.py:7) with the body as replacement (mkdoc.py:59).
    A plain literal behaves as `{%body%}(.*?)()`, whose lazy run is always empty.
   */
  function MarkerRule(body: seq<char>): (r: Rule)
    ensures Unbordered(r.head) && FixedGrowth(r) && Growth(r) == |body| - |Marker|
  {
    MarkerUnbordered();
    Pattern(Marker, [[]], Whole(body))
  }

  /** `<p><code>(.*?)</code></p>` (mkdoc.py:8) replaced by `<pre><code>\1</code></pre>` (mkdoc.py:68). */
  const CodeRule: Rule := Pattern(CodeOpen, [CodeClose], Retag(PreOpen, PreClose))

  /**
    `</hN>(.*?)(<hN>|...|<h1>|</body>)` (mkdoc.py:10-15) replaced by
    `</hN>\n<section>\n\1\n</section>\n\2` (mkdoc.py:62-67).
   */
  function HeadingRule(n: Level): (r: Rule)
    ensures Preserved(r.head) && forall u :: u in r.tails ==> Preserved(u)
  {
    TagsPreserved(n);
    Pattern(CloseTag(n), Stops(n), Enclose(SectionOpen, SectionClose))
  }

  /**
    `block.sub(body, template)` (mkdoc.py:59): every marker is replaced, so the
    page grows by the difference in length once per marker.
   */
  function Substitute(template: seq<char>, body: seq<char>): (r: seq<char>)
    ensures |r| == |template| + Count(template, Marker) * (|body| - |Marker|)
  {
    MatchesEveryHead(MarkerRule(body), template);
    ApplyLength(MarkerRule(body), template);
    Apply(MarkerRule(body), template)
  }

  /**
    `code.sub(...)` (mkdoc.py:68): four characters more per code paragraph, and
    the heading tags and `</body>` are neither added nor removed.
   */
  function CodeBlocks(s: seq<char>): (r: seq<char>)
    ensures |r| == |s| + 4 * Matches(CodeRule, s)
    ensures forall p :: Preserved(p) ==> Count(r, p) == Count(s, p)
  {
    CodeGrowth();
    ApplyLength(CodeRule, s);
    CodeKeepsTags(s);
    Apply(CodeRule, s)
  }

  /**
    `hN.sub(...)` (mkdoc.py:62-67): 23 characters more per match, and the
    heading tags and `</body>` are neither added nor removed, so the passes that
    follow find the same tags.
   */
  function Sectioned(n: Level, s: seq<char>): (r: seq<char>)
    ensures |r| == |s| + 23 * Matches(HeadingRule(n), s)
    ensures forall p :: Preserved(p) ==> Count(r, p) == Count(s, p)
  {
    HeadingGrowth(n);
    ApplyLength(HeadingRule(n), s);
    HeadingKeepsTags(n, s);
    Apply(HeadingRule(n), s)
  }

  /**
    The restructuring of the wrapped page: code paragraphs first, then h6 down
    to h1. It keeps every heading tag and `</body>` of the page.
   */
  function Restructure(wrapped: seq<char>): (r: seq<char>)
    ensures forall p :: Preserved(p) ==> Count(r, p) == Count(wrapped, p)
  {
    Sectioned(1, Sectioned(2, Sectioned(3, Sectioned(4, Sectioned(5, Sectioned(6, CodeBlocks(wrapped)))))))
  }

  /**
    The text `make` writes for a body that markdown produced. `re.sub` reads
    backslash escapes in a replacement string; the model substitutes the body
    literally, which is what Python does for a body without a backslash.
   */
  function Make(body: seq<char>, template: seq<char>): (page: seq<char>)
    requires '\\' !in body
    ensures forall p :: Preserved(p) ==> Count(page, p) == Count(Substitute(template, body), p)
  {
    Restructure(Substitute(template, body))
  }

  // ---------------------------------------------------------------------------
  // The marker substitution (mkdoc.py:7, 59)

  lemma MarkerUnbordered()
    ensures Unbordered(Marker)
  {
    UniqueFirst(Marker);
  }

  /**
    Every occurrence of `{%body%}` in the template is replaced by the body: the
    replacements are as many as the occurrences.
   */
  lemma SubstituteEveryMarker(template: seq<char>, body: seq<char>)
    ensures Matches(MarkerRule(body), template) == Count(template, Marker)
  {
    MarkerUnbordered();
    MatchesEveryHead(MarkerRule(body), template);
  }

  /** A template without the marker comes back unchanged: the body is dropped. */
  lemma SubstituteWithoutMarker(template: seq<char>, body: seq<char>)
    requires !Contains(template, Marker)
    ensures Substitute(template, body) == template
  {
    ApplyWithoutHead(MarkerRule(body), template);
  }

  /** Substituting the marker for itself gives the template back. */
  lemma SubstituteMarkerItself(template: seq<char>)
    ensures Substitute(template, Marker) == template
  {
    ApplyIdle(MarkerRule(Marker), template);
  }

  /**
    A template holding the marker once, `pre + {%body%} + post`, becomes
    `pre + body + post`.
   */
  lemma SubstituteOnce(pre: seq<char>, post: seq<char>, body: seq<char>)
    requires !Contains(pre, Marker) && !Contains(post, Marker)
    ensures Substitute(pre + Marker + post, body) == pre + body + post
  {
    var r := MarkerRule(body);
    MarkerUnbordered();
    FindEmpty(post);
    assert [] + [] + post == post;
    ApplyOnce(r, pre, [], [], post);
    assert pre + Marker + [] + [] + post == pre + Marker + post;
    RewriteTarget(r, [], []);
    ApplyWithoutHead(r, post);
  }

  // ---------------------------------------------------------------------------
  // The code-paragraph rewrite (mkdoc.py:8, 68)

  lemma CodeUnbordered()
    ensures Unbordered(CodeOpen) && Unbordered(CodeClose)
  {
    forall d | 0 < d < |CodeOpen| ensures CodeOpen[d..] != CodeOpen[..|CodeOpen| - d] {
      if d == 3 {
        assert CodeOpen[d..][1] != CodeOpen[..|CodeOpen| - d][1];
      } else {
        assert CodeOpen[d..][0] != CodeOpen[..|CodeOpen| - d][0];
      }
    }
    forall d | 0 < d < |CodeClose| ensures CodeClose[d..] != CodeClose[..|CodeClose| - d] {
      if d == 7 {
        assert CodeClose[d..][2] != CodeClose[..|CodeClose| - d][2];
      } else {
        assert CodeClose[d..][0] != CodeClose[..|CodeClose| - d][0];
      }
    }
  }

  lemma CodeGrowth()
    ensures FixedGrowth(CodeRule) && Growth(CodeRule) == 4
  {
  }

  /** Text without `<p><code>` comes back unchanged. */
  lemma CodeBlocksWithoutCode(s: seq<char>)
    requires !Contains(s, CodeOpen)
    ensures CodeBlocks(s) == s
  {
    ApplyWithoutHead(CodeRule, s);
  }

  /**
    The first `<p><code>` and the first `</code></p>` after it enclose the
    paragraph that becomes a preformatted block, whatever lies between them,
    line breaks and other `<p><code>` included; the pass goes on after it.
   */
  lemma CodeBlocksOnce(a: seq<char>, x: seq<char>, c: seq<char>)
    requires !Contains(a, CodeOpen) && !Contains(x, CodeClose)
    ensures CodeBlocks(a + CodeOpen + x + CodeClose + c) == a + PreOpen + x + PreClose + CodeBlocks(c)
  {
    assert CodeBlocks(a + CodeOpen + x + CodeClose + c) ==
           a + Target(Rewrite(CodeRule, x, CodeClose)) + CodeBlocks(c) by {
      CodeUnbordered();
      FindLiteralAfter(x, CodeClose, c);
      ApplyOnce(CodeRule, a, x, CodeClose, c);
    }
    assert Target(Rewrite(CodeRule, x, CodeClose)) == PreOpen + x + PreClose by {
      RewriteTarget(CodeRule, x, CodeClose);
    }
    Regroup3(a, PreOpen, x, PreClose, CodeBlocks(c));
  }

  // ---------------------------------------------------------------------------
  // The heading passes (mkdoc.py:10-15, 62-67)

  /** The members of `Stops(n)`. */
  lemma {:induction false} StopsMembers(n: nat, u: seq<char>)
    requires n <= 6
    ensures u in Stops(n) <==> u == BodyClose || exists k: Level :: k <= n && u == OpenTag(k)
  {
    if n > 0 {
      StopsMembers(n - 1, u);
    }
  }

  /** Every stop starts with `<` and has no other `<`. */
  lemma StopShape(n: nat, u: seq<char>)
    requires n <= 6 && u in Stops(n)
    ensures |u| > 0 && u[0] == '<' && forall d :: 0 < d < |u| ==> u[d] != '<'
  {
  }

  /** At most one stop begins at any position. */
  lemma StopsExclusive(n: nat, z: seq<char>, u: seq<char>, v: seq<char>)
    requires n <= 6 && u in Stops(n) && v in Stops(n)
    requires StartsWith(z, u) && StartsWith(z, v)
    ensures u == v
  {
    StopsMembers(n, u);
    StopsMembers(n, v);
    assert z[..|u|] == u && z[..|v|] == v;
    assert z[1] == u[1] == v[1];
    if u != BodyClose && v != BodyClose {
      assert z[2] == u[2] == v[2];
    }
  }

  lemma CloseTagUnbordered(n: Level)
    ensures Unbordered(CloseTag(n))
  {
    UniqueFirst(CloseTag(n));
  }

  /**
    A heading pass only inserts: its edit script keeps every character of the
    input and adds nothing but `\n<section>\n` and `\n</section>\n`. Deleting
    what it inserted therefore gives back exactly the pass's input.
   */
  lemma SectionedInsertsOnly(n: Level, s: seq<char>)
    ensures Source(Script(HeadingRule(n), s)) == s
    ensures Target(Script(HeadingRule(n), s)) == Sectioned(n, s)
    ensures forall p :: p in Script(HeadingRule(n), s) ==>
              p.Keep? || (p.before == [] && (p.after == SectionOpen || p.after == SectionClose))
  {
    ScriptSource(HeadingRule(n), s);
    EncloseInsertsOnly(HeadingRule(n), s);
  }

  /**
    A heading pass inserts one `\n<section>\n` and one `\n</section>\n` per
    match, and matches at most once per `</hN>` (exactly once in a closed text,
    `SectionPerHeading`).
   */
  lemma SectionsPerMatch(n: Level, s: seq<char>)
    ensures multiset(Script(HeadingRule(n), s))[Swap([], SectionOpen)] == Matches(HeadingRule(n), s)
    ensures multiset(Script(HeadingRule(n), s))[Swap([], SectionClose)] == Matches(HeadingRule(n), s)
    ensures Matches(HeadingRule(n), s) <= Count(s, CloseTag(n))
  {
    HeadingGrowth(n);
    EnclosePerMatch(HeadingRule(n), s);
    MatchesAtMostHeads(HeadingRule(n), s);
  }

  lemma HeadingGrowth(n: Level)
    ensures FixedGrowth(HeadingRule(n)) && Growth(HeadingRule(n)) == 23
    ensures HeadingRule(n).repl.open != HeadingRule(n).repl.close
  {
    assert |SectionOpen| != |SectionClose|;
  }

  /** Text without `</hN>` is left unchanged by pass N. */
  lemma SectionedWithoutHeading(n: Level, s: seq<char>)
    requires !Contains(s, CloseTag(n))
    ensures Sectioned(n, s) == s
  {
    ApplyWithoutHead(HeadingRule(n), s);
  }

  /**
    When `a` holds no `</hN>`, the content `x` holds no stop, and the stop `t`
    follows it, the pass wraps `x` in a section and goes on after `t`.
   */
  lemma SectionedOnce(n: Level, a: seq<char>, x: seq<char>, t: seq<char>, c: seq<char>)
    requires !Contains(a, CloseTag(n))
    requires t in Stops(n)
    requires forall u :: u in Stops(n) ==> !Contains(x, u)
    ensures Sectioned(n, a + CloseTag(n) + x + t + c) ==
            a + CloseTag(n) + SectionOpen + x + SectionClose + t + Sectioned(n, c)
  {
    var r := HeadingRule(n);
    var w := CloseTag(n) + SectionOpen + x + SectionClose + t;
    assert Sectioned(n, a + CloseTag(n) + x + t + c) == a + Target(Rewrite(r, x, t)) + Sectioned(n, c) by {
      SectionRun(n, x, t, c);
      CloseTagUnbordered(n);
      ApplyOnce(r, a, x, t, c);
    }
    assert Target(Rewrite(r, x, t)) == w by {
      RewriteTarget(r, x, t);
    }
    Regroup(a, CloseTag(n), SectionOpen, x, SectionClose, t, Sectioned(n, c));
  }

  /** The content of a heading runs up to the first stop. */
  lemma SectionRun(n: Level, x: seq<char>, t: seq<char>, c: seq<char>)
    requires t in Stops(n)
    requires forall u :: u in Stops(n) ==> !Contains(x, u)
    ensures Find(x + t + c, Stops(n)).Some?
    ensures Find(x + t + c, Stops(n)).value.0 == |x| && Find(x + t + c, Stops(n)).value.1 == t
  {
    StopFirst(n, t, c);
    forall u | u in Stops(n)
      ensures |u| > 0 && u[0] == '<' && forall d :: 0 < d < |u| ==> u[d] != '<'
    {
      StopShape(n, u);
    }
    FindAfterRun(x, t, c, Stops(n), '<');
  }

  /** The alternation of pass N picks the stop a text begins with. */
  lemma StopFirst(n: Level, t: seq<char>, c: seq<char>)
    requires t in Stops(n)
    ensures FirstPrefix(t + c, Stops(n)) == Some(t)
  {
    assert (t + c)[..|t|] == t;
    FirstPrefixNone(t + c, Stops(n));
    var u := FirstPrefix(t + c, Stops(n)).value;
    StopsExclusive(n, t + c, u, t);
  }

  /**
    Content after the last `</hN>` that no stop follows, such as the end of a
    page without `</body>`, is not wrapped: the pass changes nothing.
   */
  lemma SectionedWithoutStop(n: Level, a: seq<char>, x: seq<char>)
    requires !Contains(a, CloseTag(n))
    requires forall u :: u in Stops(n) ==> !Contains(x, u)
    ensures Sectioned(n, a + CloseTag(n) + x) == a + CloseTag(n) + x
  {
    var r := HeadingRule(n);
    var s := a + CloseTag(n) + x;
    CloseTagUnbordered(n);
    FirstOccurrence(a, CloseTag(n), x);
    assert s == a + CloseTag(n) + x + [];
    FindAbsent(x, Stops(n));
    assert s[|a| + |CloseTag(n)|..] == x;
    NoTailAfterFirstHead(r, s, |a|);
    NoMatchUnchanged(r, s);
  }

  // ---------------------------------------------------------------------------
  // The tags the heading passes search for are kept by every pass

  /**
    The heading tags and `</body>`: bare tags without a line break, each
    holding an `h` or a `b`. None of the texts that the code and heading passes
    replace or insert holds either letter.
   */
  predicate Preserved(p: seq<char>)
  {
    Tag(p) && '\n' !in p && ('h' in p || 'b' in p)
  }

  /** The tags of level `n` and `</body>` are preserved. */
  lemma TagsPreserved(n: Level)
    ensures Preserved(OpenTag(n)) && Preserved(CloseTag(n)) && Preserved(BodyClose)
  {
  }

  /** A text without `h` and `b` holds no occurrence of a preserved tag. */
  lemma CountWithout(u: seq<char>, p: seq<char>)
    requires Preserved(p) && 'h' !in u && 'b' !in u
    ensures Count(u, p) == 0
  {
    if 'h' in p {
      AbsentChar(u, p, 'h');
    } else {
      AbsentChar(u, p, 'b');
    }
    CountZero(u, p);
  }

  /** The texts the passes replace or insert hold neither `h` nor `b`. */
  lemma PlainTexts()
    ensures 'h' !in SectionOpen && 'b' !in SectionOpen && 'h' !in SectionClose && 'b' !in SectionClose
    ensures SectionOpen[|SectionOpen| - 1] == '\n' && SectionClose[0] == '\n' && SectionClose[|SectionClose| - 1] == '\n'
    ensures 'h' !in CodeOpen && 'b' !in CodeOpen && 'h' !in CodeClose && 'b' !in CodeClose
    ensures 'h' !in PreOpen && 'b' !in PreOpen && 'h' !in PreClose && 'b' !in PreClose
  {
  }

  /**
    Between two tag-like texts `u` and `v` without `h` and `b`, the occurrences
    of a preserved tag in `a + u + x + v + c` are those of `a`, `x` and `c`.
   */
  lemma BetweenTags(a: seq<char>, u: seq<char>, x: seq<char>, v: seq<char>, c: seq<char>, p: seq<char>)
    requires Preserved(p)
    requires |u| > 0 && u[0] == '<' && u[|u| - 1] == '>' && 'h' !in u && 'b' !in u
    requires |v| > 0 && v[0] == '<' && v[|v| - 1] == '>' && 'h' !in v && 'b' !in v
    ensures Count(a + u + x + v + c, p) == Count(a, p) + Count(x, p) + Count(c, p)
  {
    assert Count(v + c, p) == Count(c, p) by {
      SeamTag(v, c, p);
      CountConcat(v, c, p);
      CountWithout(v, p);
    }
    assert Count(x + (v + c), p) == Count(x, p) + Count(c, p) by {
      SeamTag(x, v + c, p);
      CountConcat(x, v + c, p);
    }
    assert Count(u + (x + (v + c)), p) == Count(x, p) + Count(c, p) by {
      SeamTag(u, x + (v + c), p);
      CountConcat(u, x + (v + c), p);
      CountWithout(u, p);
    }
    assert a + u + x + v + c == a + (u + (x + (v + c)));
    SeamTag(a, u + (x + (v + c)), p);
    CountConcat(a, u + (x + (v + c)), p);
  }

  /** One code replacement keeps the occurrences of a preserved tag. */
  lemma RetaggedCount(a: seq<char>, x: seq<char>, c: seq<char>, c2: seq<char>, p: seq<char>)
    requires Preserved(p) && Count(c2, p) == Count(c, p)
    ensures Count(a + PreOpen + x + PreClose + c2, p) == Count(a + CodeOpen + x + CodeClose + c, p)
  {
    PlainTexts();
    BetweenTags(a, PreOpen, x, PreClose, c2, p);
    BetweenTags(a, CodeOpen, x, CodeClose, c, p);
  }

  /**
    One heading replacement keeps the occurrences of a preserved tag: the
    inserted texts begin and end with a line break, which no tag holds, and
    they hold no heading tag and no `</body>`.
   */
  lemma EnclosedCount(a: seq<char>, h: seq<char>, x: seq<char>, t: seq<char>, c: seq<char>, c2: seq<char>, p: seq<char>)
    requires Preserved(p) && Count(c2, p) == Count(c, p)
    requires |h| > 0 && h[|h| - 1] == '>'
    requires |t| > 0 && t[0] == '<' && t[|t| - 1] == '>'
    ensures Count(a + h + SectionOpen + x + SectionClose + t + c2, p) == Count(a + h + x + t + c, p)
  {
    TagsApart(a + h, x, t, c, p);
    SectionsApart(a + h, x, t, c2, p);
  }

  /** After a `>` and around a tag `t`, the occurrences of a preserved tag fall into the parts. */
  lemma TagsApart(l: seq<char>, x: seq<char>, t: seq<char>, c: seq<char>, p: seq<char>)
    requires Preserved(p)
    requires |l| > 0 && l[|l| - 1] == '>'
    requires |t| > 0 && t[0] == '<' && t[|t| - 1] == '>'
    ensures Count(l + x + t + c, p) == Count(l, p) + Count(x, p) + Count(t, p) + Count(c, p)
  {
    assert Count(x + (t + c), p) == Count(x, p) + Count(t, p) + Count(c, p) by {
      SeamTag(t, c, p);
      CountConcat(t, c, p);
      SeamTag(x, t + c, p);
      CountConcat(x, t + c, p);
    }
    assert l + x + t + c == l + (x + (t + c));
    SeamTag(l, x + (t + c), p);
    CountConcat(l, x + (t + c), p);
  }

  /** The same with the section texts inserted: they add no occurrence and join none. */
  lemma SectionsApart(l: seq<char>, x: seq<char>, t: seq<char>, c2: seq<char>, p: seq<char>)
    requires Preserved(p)
    requires |l| > 0 && l[|l| - 1] == '>'
    requires |t| > 0 && t[0] == '<' && t[|t| - 1] == '>'
    ensures Count(l + SectionOpen + x + SectionClose + t + c2, p) ==
            Count(l, p) + Count(x, p) + Count(t, p) + Count(c2, p)
  {
    var o := SectionOpen + (x + (SectionClose + (t + c2)));
    SectionCount(x, t, c2, p);
    assert l + SectionOpen + x + SectionClose + t + c2 == l + o;
    SeamTag(l, o, p);
    CountConcat(l, o, p);
  }

  /** A section around `x`, followed by the tag `t`, adds no occurrence and joins none. */
  lemma SectionCount(x: seq<char>, t: seq<char>, c2: seq<char>, p: seq<char>)
    requires Preserved(p)
    requires |t| > 0 && t[0] == '<' && t[|t| - 1] == '>'
    ensures Count(SectionOpen + (x + (SectionClose + (t + c2))), p) == Count(x, p) + Count(t, p) + Count(c2, p)
  {
    PlainTexts();
    var z := SectionClose + (t + c2);
    SectionCloseCount(t, c2, p);
    SeamChar(x, z, p, '\n');
    CountConcat(x, z, p);
    SeamChar(SectionOpen, x + z, p, '\n');
    CountConcat(SectionOpen, x + z, p);
    CountWithout(SectionOpen, p);
  }

  lemma SectionCloseCount(t: seq<char>, c2: seq<char>, p: seq<char>)
    requires Preserved(p)
    requires |t| > 0 && t[0] == '<' && t[|t| - 1] == '>'
    ensures Count(SectionClose + (t + c2), p) == Count(t, p) + Count(c2, p)
  {
    PlainTexts();
    SeamTag(t, c2, p);
    CountConcat(t, c2, p);
    SeamChar(SectionClose, t + c2, p, '\n');
    CountConcat(SectionClose, t + c2, p);
    CountWithout(SectionClose, p);
  }

  /** The code pass keeps every occurrence of a preserved tag. */
  lemma {:induction false} CodeKeepsCount(s: seq<char>, p: seq<char>)
    requires Preserved(p)
    ensures Count(Apply(CodeRule, s), p) == Count(s, p)
    decreases |s|
  {
    match FindMatch(CodeRule, s)
    case None =>
      KeepsText(s);
    case Some(m) =>
      CodeKeepsCount(s[End(CodeRule, m)..], p);
      CodeStepCount(s, m, p);
  }

  lemma CodeStepCount(s: seq<char>, m: Match, p: seq<char>)
    requires Preserved(p) && FindMatch(CodeRule, s) == Some(m)
    requires Count(Apply(CodeRule, s[End(CodeRule, m)..]), p) == Count(s[End(CodeRule, m)..], p)
    ensures Count(Apply(CodeRule, s), p) == Count(s, p)
  {
    var a, x, c := s[..m.start], m.inner, s[End(CodeRule, m)..];
    CodeStepParts(s, m);
    RetaggedCount(a, x, c, Apply(CodeRule, c), p);
  }

  /** One code replacement: `<p><code>` and `</code></p>` around the code become `<pre><code>` and `</code></pre>`. */
  lemma CodeStepParts(s: seq<char>, m: Match)
    requires FindMatch(CodeRule, s) == Some(m)
    ensures var a, x, c := s[..m.start], m.inner, s[End(CodeRule, m)..];
      s == a + CodeOpen + x + CodeClose + c &&
      Apply(CodeRule, s) == a + PreOpen + x + PreClose + Apply(CodeRule, c)
  {
    var a, x, c := s[..m.start], m.inner, s[End(CodeRule, m)..];
    var c2 := Apply(CodeRule, c);
    assert Apply(CodeRule, s) == a + PreOpen + x + PreClose + c2 by {
      ApplyStep(CodeRule, s, m);
      RewriteTarget(CodeRule, x, m.tail);
      Regroup3(a, PreOpen, x, PreClose, c2);
    }
    assert s == a + CodeOpen + x + CodeClose + c by {
      MatchParts(CodeRule, s);
      Regroup3(a, CodeOpen, x, CodeClose, c);
    }
  }

  lemma CodeKeepsTags(s: seq<char>)
    ensures forall p :: Preserved(p) ==> Count(Apply(CodeRule, s), p) == Count(s, p)
  {
    forall p | Preserved(p) ensures Count(Apply(CodeRule, s), p) == Count(s, p) {
      CodeKeepsCount(s, p);
    }
  }

  /** A heading pass keeps every occurrence of a preserved tag. */
  lemma {:induction false} HeadingKeepsCount(n: Level, s: seq<char>, p: seq<char>)
    requires Preserved(p)
    ensures Count(Apply(HeadingRule(n), s), p) == Count(s, p)
    decreases |s|
  {
    match FindMatch(HeadingRule(n), s)
    case None =>
      KeepsText(s);
    case Some(m) =>
      HeadingKeepsCount(n, s[End(HeadingRule(n), m)..], p);
      HeadingStepCount(n, s, m, p);
  }

  lemma HeadingStepCount(n: Level, s: seq<char>, m: Match, p: seq<char>)
    requires Preserved(p) && FindMatch(HeadingRule(n), s) == Some(m)
    requires Count(Apply(HeadingRule(n), s[End(HeadingRule(n), m)..]), p) == Count(s[End(HeadingRule(n), m)..], p)
    ensures Count(Apply(HeadingRule(n), s), p) == Count(s, p)
  {
    var r := HeadingRule(n);
    var a, x, t, c := s[..m.start], m.inner, m.tail, s[End(r, m)..];
    HeadingStepParts(n, s, m);
    EnclosedCount(a, CloseTag(n), x, t, c, Apply(r, c), p);
  }

  /** The input and the output of one heading replacement, part by part. */
  lemma HeadingStepParts(n: Level, s: seq<char>, m: Match)
    requires FindMatch(HeadingRule(n), s) == Some(m)
    ensures var r := HeadingRule(n);
      var a, h, x, t, c := s[..m.start], CloseTag(n), m.inner, m.tail, s[End(r, m)..];
      s == a + h + x + t + c && |t| > 0 && t[0] == '<' && t[|t| - 1] == '>' &&
      Apply(r, s) == a + h + SectionOpen + x + SectionClose + t + Apply(r, c)
  {
    var r := HeadingRule(n);
    var a, h, x, t, c := s[..m.start], CloseTag(n), m.inner, m.tail, s[End(r, m)..];
    assert Apply(r, s) == a + h + SectionOpen + x + SectionClose + t + Apply(r, c) by {
      ApplyStep(r, s, m);
      RewriteTarget(r, x, t);
      Regroup(a, h, SectionOpen, x, SectionClose, t, Apply(r, c));
    }
    assert s == a + h + x + t + c && t in r.tails by {
      MatchParts(r, s);
      Regroup3(a, h, x, t, c);
    }
  }

  lemma HeadingKeepsTags(n: Level, s: seq<char>)
    ensures forall p :: Preserved(p) ==> Count(Apply(HeadingRule(n), s), p) == Count(s, p)
  {
    forall p | Preserved(p) ensures Count(Apply(HeadingRule(n), s), p) == Count(s, p) {
      HeadingKeepsCount(n, s, p);
    }
  }

  // ---------------------------------------------------------------------------
  // The six heading passes in a row

  /**
    The text heading pass `n` is given: the code-rewritten page `s` after the
    passes of levels 6 down to `n + 1`. Each of those passes keeps the tags,
    so pass `n` finds exactly the heading tags and `</body>` of `s`.
   */
  function Before(n: Level, s: seq<char>): (r: seq<char>)
    ensures forall p :: Preserved(p) ==> Count(r, p) == Count(s, p)
    decreases 6 - n
  {
    if n == 6 then s else Sectioned(n + 1, Before(n + 1, s))
  }

  /** The sections the passes of levels 6 down to `n` insert. */
  function Sections(n: Level, s: seq<char>): (k: nat)
    decreases 6 - n
  {
    Matches(HeadingRule(n), Before(n, s)) + (if n == 6 then 0 else Sections(n + 1, s))
  }

  /** The passes of levels 6 down to `n` make the text 23 characters longer per section inserted. */
  lemma {:induction false} PassesLength(n: Level, s: seq<char>)
    ensures |Sectioned(n, Before(n, s))| == |s| + 23 * Sections(n, s)
    decreases 6 - n
  {
    if n < 6 {
      PassesLength(n + 1, s);
    }
  }

  /** A pass that keeps every character and inserts nothing but section texts. */
  predicate InsertsSections(before: seq<char>, after: seq<char>, es: seq<Piece>)
  {
    Source(es) == before && Target(es) == after &&
    forall p :: p in es ==> p.Keep? || (p.before == [] && (p.after == SectionOpen || p.after == SectionClose))
  }

  /**
    The restructuring as six insertion passes over the code-rewritten page `c`:
    pass 6 reads `c`, each later pass reads what the previous one wrote, and
    each keeps all it reads, so removing the inserted section texts pass by pass
    gives back `c`. Pass N inserts one section per match, matches at most once
    per `</hN>` of `c` (no earlier pass adds or removes one), and every section
    makes the page 23 characters longer.
   */
  lemma RestructureSections(w: seq<char>)
    ensures var c := CodeBlocks(w);
      Restructure(w) == Sectioned(1, Before(1, c)) && Before(6, c) == c &&
      (forall n: Level :: InsertsSections(Before(n, c), Sectioned(n, Before(n, c)), Script(HeadingRule(n), Before(n, c)))) &&
      (forall n: Level :: Matches(HeadingRule(n), Before(n, c)) <= Count(c, CloseTag(n))) &&
      |Restructure(w)| == |c| + 23 * Sections(1, c)
  {
    var c := CodeBlocks(w);
    RestructureStages(w);
    PassesInsert(c);
    PassesBound(c);
    PassesLength(1, c);
  }

  lemma RestructureStages(w: seq<char>)
    ensures Restructure(w) == Sectioned(1, Before(1, CodeBlocks(w)))
  {
    var c := CodeBlocks(w);
    assert Before(5, c) == Sectioned(6, c);
    assert Before(4, c) == Sectioned(5, Before(5, c));
    assert Before(3, c) == Sectioned(4, Before(4, c));
    assert Before(2, c) == Sectioned(3, Before(3, c));
    assert Before(1, c) == Sectioned(2, Before(2, c));
  }

  lemma PassesInsert(c: seq<char>)
    ensures forall n: Level :: InsertsSections(Before(n, c), Sectioned(n, Before(n, c)), Script(HeadingRule(n), Before(n, c)))
  {
    forall n: Level ensures InsertsSections(Before(n, c), Sectioned(n, Before(n, c)), Script(HeadingRule(n), Before(n, c))) {
      SectionedInsertsOnly(n, Before(n, c));
    }
  }

  lemma PassesBound(c: seq<char>)
    ensures forall n: Level :: Matches(HeadingRule(n), Before(n, c)) <= Count(c, CloseTag(n))
  {
    forall n: Level ensures Matches(HeadingRule(n), Before(n, c)) <= Count(c, CloseTag(n)) {
      SectionsPerMatch(n, Before(n, c));
    }
  }

  /**
    A page without closing heading tags gets no `<section>`: every heading pass
    finds nothing, and the restructuring is the code pass alone.
   */
  lemma RestructureWithoutHeadings(w: seq<char>)
    requires forall n: Level :: !Contains(w, CloseTag(n))
    ensures Restructure(w) == CodeBlocks(w)
  {
    var c := CodeBlocks(w);
    forall n: Level ensures !Contains(Before(n, c), CloseTag(n)) {
      TagsPreserved(n);
      CountZero(w, CloseTag(n));
      CountZero(Before(n, c), CloseTag(n));
    }
    RestructureStages(w);
    SectionedWithoutHeading(6, Before(6, c));
    SectionedWithoutHeading(5, Before(5, c));
    SectionedWithoutHeading(4, Before(4, c));
    SectionedWithoutHeading(3, Before(3, c));
    SectionedWithoutHeading(2, Before(2, c));
    SectionedWithoutHeading(1, Before(1, c));
  }

  // ---------------------------------------------------------------------------
  // One section per closing heading tag

  /**
    The state of the level-N headings while a text is read from left to right:
    `Shut` when every `</hN>` read so far has been followed by a stop, `Open`
    after a `</hN>` that no stop has followed yet, `Broken` once a second
    `</hN>` came before that stop.
   */
  datatype Reading = Shut | Open | Broken

  /** A stop of level N begins the text. */
  predicate BeginsWithStop(n: Level, s: seq<char>)
  {
    FirstPrefix(s, Stops(n)).Some?
  }

  /** A stop of level N begins at `j` of `s`. */
  predicate StopAt(n: Level, s: seq<char>, j: int)
  {
    0 <= j <= |s| && BeginsWithStop(n, s[j..])
  }

  /** Nothing that the reading of level N looks at begins at `j` of `s`. */
  predicate QuietAt(n: Level, s: seq<char>, j: int)
  {
    !OccursAt(s, j, CloseTag(n)) && !StopAt(n, s, j)
  }

  /** The state after the first position of `s`, from what begins there. */
  function ReadAt(n: Level, q: Reading, s: seq<char>): (q2: Reading)
    ensures q == Broken ==> q2 == Broken
    ensures !StartsWith(s, CloseTag(n)) && !BeginsWithStop(n, s) ==> q2 == q
  {
    if StartsWith(s, CloseTag(n)) then (if q == Shut then Open else Broken)
    else if BeginsWithStop(n, s) then (if q == Broken then Broken else Shut)
    else q
  }

  /** The state after reading every position of `s` from `q`. */
  function Read(n: Level, q: Reading, s: seq<char>): (q2: Reading)
    ensures q == Broken ==> q2 == Broken
    decreases |s|
  {
    if |s| == 0 then q else Read(n, ReadAt(n, q, s), s[1..])
  }

  /**
    Every `</hN>` of `s` is followed by a stop of level N before any other
    `</hN>` begins, as in a page whose level-N headings each end before the
    next heading or `</body>`.
   */
  predicate Closed(n: Level, s: seq<char>)
  {
    Read(n, Shut, s) == Shut
  }

  /**
    In a closed text pass N finds one match per `</hN>`: with the bound of
    `SectionsPerMatch`, every closing heading tag gets exactly one section.
   */
  lemma {:induction false} SectionPerHeading(n: Level, s: seq<char>)
    requires Closed(n, s)
    ensures Matches(HeadingRule(n), s) == Count(s, CloseTag(n))
    decreases |s|
  {
    var r := HeadingRule(n);
    match FindMatch(r, s)
    case None =>
      ClosedMatch(n, s);
      CountZero(s, CloseTag(n));
    case Some(m) =>
      LocateMatch(n, s, m);
      ReadAcrossFound(n, s, m.start, |m.inner|, m.tail, End(r, m));
      ScriptStep(r, s, m);
      CloseTagUnbordered(n);
      CountPastFirstMatch(r, s, m);
      SectionPerHeading(n, s[End(r, m)..]);
  }

  /** In a closed text, a `</hN>` always begins a match. */
  lemma ClosedMatch(n: Level, s: seq<char>)
    ensures Closed(n, s) && FindMatch(HeadingRule(n), s).None? ==> !Contains(s, CloseTag(n))
  {
    var r := HeadingRule(n);
    if FindMatch(r, s).None? && FirstHead(r, s).Some? {
      var i := FirstHead(r, s).value;
      ReadToFirstHead(n, s, i);
      assert s[i..][1..] == s[i + 1..];
      NoStopAfterHead(n, s, i);
      ReadNoStop(n, Open, s, i + 1);
    }
  }

  /** The first match of pass N, in the terms `ReadAcrossFound` takes. */
  lemma LocateMatch(n: Level, s: seq<char>, m: Match)
    requires FindMatch(HeadingRule(n), s) == Some(m)
    ensures OccursAt(s, m.start, CloseTag(n)) && forall k :: 0 <= k < m.start ==> !OccursAt(s, k, CloseTag(n))
    ensures Find(s[m.start + |CloseTag(n)|..], Stops(n)) == Some((|m.inner|, m.tail))
    ensures End(HeadingRule(n), m) == m.start + |CloseTag(n)| + |m.inner| + |m.tail|
  {
    var r := HeadingRule(n);
    MatchFacts(r, s, m);
    MatchAtFirstHead(r, s, m);
    var f := Find(s[m.start + |r.head|..], r.tails);
    assert f.value == (|m.inner|, m.tail);
  }

  /**
    A closed text is closed again after its first `</hN>`, at `i`, and the
    stop the search after it finds, ending at `e`; and no other `</hN>`
    begins in between.
   */
  lemma {:induction false} ReadAcrossFound(n: Level, s: seq<char>, i: nat, w: nat, t: seq<char>, e: nat)
    requires OccursAt(s, i, CloseTag(n)) && forall k :: 0 <= k < i ==> !OccursAt(s, k, CloseTag(n))
    requires Find(s[i + |CloseTag(n)|..], Stops(n)) == Some((w, t))
    requires e == i + |CloseTag(n)| + w + |t|
    ensures Closed(n, s) ==> forall q :: i < q < e ==> !OccursAt(s, q, CloseTag(n))
    ensures Closed(n, s) ==> e <= |s| && Closed(n, s[e..])
  {
    var b, e' := HeadLayout(n, s, i, w, t);
    ReadAcrossHead(n, s, i, b, e);
  }

  /**
    Read from the start, a closed text reads `Shut` again after its first
    `</hN>`, at `i`, and the stop that follows it, from `b` to `e`, with no
    stop in between; and no other `</hN>` begins in between.
   */
  lemma {:induction false} ReadAcrossHead(n: Level, s: seq<char>, i: nat, b: nat, e: nat)
    requires i < b < e <= |s|
    requires OccursAt(s, i, CloseTag(n)) && forall k :: 0 <= k < i ==> !OccursAt(s, k, CloseTag(n))
    requires forall j :: i < j < b ==> !StopAt(n, s, j)
    requires StopAt(n, s, b) && !OccursAt(s, b, CloseTag(n))
    requires forall j :: b < j < e ==> QuietAt(n, s, j)
    ensures Closed(n, s) ==> forall q :: i < q < e ==> !OccursAt(s, q, CloseTag(n))
    ensures Closed(n, s) ==> Closed(n, s[e..])
  {
    var h := CloseTag(n);
    assert Read(n, Shut, s) == Read(n, Open, s[i + 1..]) by {
      ReadToFirstHead(n, s, i);
      assert s[i..][1..] == s[i + 1..];
    }
    if forall q :: i < q < b ==> !OccursAt(s, q, h) {
      forall q | b < q < e
        ensures !OccursAt(s, q, h)
      {
        assert QuietAt(n, s, q);
      }
      ReadThroughStop(n, s, i, b, e);
    } else {
      var q :| i < q < b && OccursAt(s, q, h);
      ReadBreaks(n, Open, s, i + 1, q);
      assert !Closed(n, s);
    }
  }

  /**
    After a `</hN>` at `i`: no stop up to the first one the search finds, at
    `b`, and nothing that the reading looks at inside that stop.
   */
  lemma HeadLayout(n: Level, s: seq<char>, i: nat, w: nat, t: seq<char>) returns (b: nat, e: nat)
    requires OccursAt(s, i, CloseTag(n))
    requires Find(s[i + |CloseTag(n)|..], Stops(n)) == Some((w, t))
    ensures b == i + |CloseTag(n)| + w && e == b + |t|
    ensures i < b < e <= |s|
    ensures forall j :: i < j < b ==> !StopAt(n, s, j)
    ensures StopAt(n, s, b) && !OccursAt(s, b, CloseTag(n))
    ensures forall j :: b < j < e ==> QuietAt(n, s, j)
  {
    b := i + |CloseTag(n)| + w;
    e := b + |t|;
    var z := s[i + |CloseTag(n)|..];
    assert t in Stops(n) && OccursAt(s, b, t) by {
      assert z[w..] == s[b..];
    }
    assert b < e <= |s| by {
      StopShape(n, t);
    }
    assert StopAt(n, s, b) by {
      FirstPrefixNone(s[b..], Stops(n));
    }
    NoStopBeforeFound(n, s, i, w);
    NoCloseInStop(n, s, b, t, b);
    QuietInStop(n, s, b, t);
  }

  /**
    From just after a `</hN>` at `i` to the end `e` of the stop at `b` that
    follows it, with nothing else in between, the reading goes from `Open` to `Shut`.
   */
  lemma ReadThroughStop(n: Level, s: seq<char>, i: nat, b: nat, e: nat)
    requires i < b < e <= |s|
    requires forall q :: i < q < b ==> !OccursAt(s, q, CloseTag(n))
    requires forall j :: i < j < b ==> !StopAt(n, s, j)
    requires StopAt(n, s, b) && !OccursAt(s, b, CloseTag(n))
    requires forall j :: b < j < e ==> QuietAt(n, s, j)
    ensures Read(n, Open, s[i + 1..]) == Read(n, Shut, s[e..])
  {
    ReadToStop(n, s, i, b);
    ReadAtStop(n, s, b);
    ReadQuiet(n, Shut, s, b + 1, e);
  }

  /** Up to the next stop, with no other `</hN>` before it, the reading stays `Open`. */
  lemma ReadToStop(n: Level, s: seq<char>, i: nat, b: nat)
    requires i < b <= |s|
    requires forall q :: i < q < b ==> !OccursAt(s, q, CloseTag(n))
    requires forall j :: i < j < b ==> !StopAt(n, s, j)
    ensures Read(n, Open, s[i + 1..]) == Read(n, Open, s[b..])
  {
    ReadQuiet(n, Open, s, i + 1, b);
  }

  /** The stop that ends a match turns an `Open` reading `Shut`. */
  lemma ReadAtStop(n: Level, s: seq<char>, b: nat)
    requires b < |s| && StopAt(n, s, b) && !OccursAt(s, b, CloseTag(n))
    ensures Read(n, Open, s[b..]) == Read(n, Shut, s[b + 1..])
  {
    assert s[b..][1..] == s[b + 1..];
  }

  /** Reading across positions `[i, j)` where nothing begins leaves the state as it is. */
  lemma {:induction false} ReadQuiet(n: Level, q: Reading, s: seq<char>, i: nat, j: nat)
    requires i <= j <= |s|
    requires forall k :: i <= k < j ==> QuietAt(n, s, k)
    ensures Read(n, q, s[i..]) == Read(n, q, s[j..])
    decreases j - i
  {
    if i < j {
      assert QuietAt(n, s, i);
      assert s[i..][1..] == s[i + 1..];
      ReadQuiet(n, q, s, i + 1, j);
    }
  }

  /** Up to its first `</hN>`, a text read from `Shut` stays `Shut`. */
  lemma {:induction false} ReadToFirstHead(n: Level, s: seq<char>, i: nat)
    requires i <= |s|
    requires forall k :: 0 <= k < i ==> !OccursAt(s, k, CloseTag(n))
    ensures Read(n, Shut, s) == Read(n, Shut, s[i..])
    decreases i
  {
    if i > 0 {
      assert s[0..] == s;
      assert !OccursAt(s, 0, CloseTag(n));
      assert s[1..][i - 1..] == s[i..];
      forall k | 0 <= k < i - 1 ensures !OccursAt(s[1..], k, CloseTag(n)) {
        assert s[1..][k..] == s[k + 1..];
        assert !OccursAt(s, k + 1, CloseTag(n));
      }
      ReadToFirstHead(n, s[1..], i - 1);
    }
  }

  /** A second `</hN>` before any stop breaks a reading that is not `Shut`. */
  lemma {:induction false} ReadBreaks(n: Level, q: Reading, s: seq<char>, i: nat, k: nat)
    requires q != Shut && i <= k && OccursAt(s, k, CloseTag(n))
    requires forall j :: i <= j < k ==> !StopAt(n, s, j)
    ensures Read(n, q, s[i..]) == Broken
    decreases k - i
  {
    assert s[i..][1..] == s[i + 1..];
    if i < k {
      assert !StopAt(n, s, i);
      ReadBreaks(n, ReadAt(n, q, s[i..]), s, i + 1, k);
    }
  }

  /** Without a stop from `i` on, a reading that is not `Shut` never becomes `Shut`. */
  lemma {:induction false} ReadNoStop(n: Level, q: Reading, s: seq<char>, i: nat)
    requires q != Shut && i <= |s|
    requires forall j :: i <= j <= |s| ==> !StopAt(n, s, j)
    ensures Read(n, q, s[i..]) != Shut
    decreases |s| - i
  {
    if i < |s| {
      assert !StopAt(n, s, i);
      assert s[i..][1..] == s[i + 1..];
      ReadNoStop(n, ReadAt(n, q, s[i..]), s, i + 1);
    }
  }

  /** A position whose character is not `<` begins neither `</hN>` nor a stop. */
  lemma QuietWithoutOpen(n: Level, s: seq<char>, j: nat)
    requires j < |s| && s[j] != '<'
    ensures QuietAt(n, s, j)
  {
    var z := s[j..];
    FirstPrefixNone(z, Stops(n));
    forall u | u in Stops(n) ensures !StartsWith(z, u) {
      StopShape(n, u);
      assert |u| > |z| || z[..|u|][0] == z[0];
    }
    assert |CloseTag(n)| > |z| || z[..|CloseTag(n)|][0] == z[0];
  }

  /** No stop begins after a `</hN>` and before the first stop that the search after it finds. */
  lemma NoStopBeforeFound(n: Level, s: seq<char>, i: nat, w: nat)
    requires OccursAt(s, i, CloseTag(n))
    requires Find(s[i + |CloseTag(n)|..], Stops(n)).Some? && Find(s[i + |CloseTag(n)|..], Stops(n)).value.0 == w
    ensures forall j :: i < j < i + |CloseTag(n)| + w ==> !StopAt(n, s, j)
  {
    var h := CloseTag(n);
    var z := s[i + |h|..];
    NoStopInHead(n, s, i);
    FindLeftmost(z, Stops(n));
    forall j | i + |h| <= j < i + |h| + w ensures !StopAt(n, s, j) {
      assert z[j - i - |h|..] == s[j..];
    }
  }

  /** No stop begins inside a `</hN>`. */
  lemma NoStopInHead(n: Level, s: seq<char>, i: nat)
    requires OccursAt(s, i, CloseTag(n))
    ensures forall j :: i < j < i + |CloseTag(n)| ==> !StopAt(n, s, j)
  {
    var h := CloseTag(n);
    TagsPreserved(n);
    forall j | i < j < i + |h| ensures !StopAt(n, s, j) {
      CharOfOccurrence(s, i, h, j);
      QuietWithoutOpen(n, s, j);
    }
  }

  /** Past a `</hN>` with no stop after it, no stop begins at all. */
  lemma NoStopAfterHead(n: Level, s: seq<char>, i: nat)
    requires OccursAt(s, i, CloseTag(n)) && Find(s[i + |CloseTag(n)|..], Stops(n)).None?
    ensures forall j :: i < j <= |s| ==> !StopAt(n, s, j)
  {
    var h := CloseTag(n);
    var z := s[i + |h|..];
    NoStopInHead(n, s, i);
    FindLeftmost(z, Stops(n));
    forall j | i + |h| <= j <= |s| ensures !StopAt(n, s, j) {
      assert z[j - i - |h|..] == s[j..];
    }
  }

  /** Nothing that the reading looks at begins inside a stop but at its start. */
  lemma QuietInStop(n: Level, s: seq<char>, b: nat, t: seq<char>)
    requires t in Stops(n) && OccursAt(s, b, t)
    ensures forall j :: b < j < b + |t| ==> QuietAt(n, s, j)
  {
    StopShape(n, t);
    forall j | b < j < b + |t| ensures QuietAt(n, s, j) {
      CharOfOccurrence(s, b, t, j);
      QuietWithoutOpen(n, s, j);
    }
  }

  /** No `</hN>` begins inside a stop. */
  lemma NoCloseInStop(n: Level, s: seq<char>, b: nat, t: seq<char>, q: nat)
    requires t in Stops(n) && OccursAt(s, b, t)
    requires b <= q < b + |t|
    ensures !OccursAt(s, q, CloseTag(n))
  {
    var h := CloseTag(n);
    StopShape(n, t);
    StopsMembers(n, t);
    if q + |h| <= |s| {
      if q > b {
        CharOfOccurrence(s, b, t, q);
        CharOfOccurrence(s, q, h, q);
      } else if t == BodyClose {
        CharOfOccurrence(s, b, t, q + 2);
        CharOfOccurrence(s, q, h, q + 2);
        assert t[2] != h[2];
      } else {
        var k: Level :| k <= n && t == OpenTag(k);
        CharOfOccurrence(s, b, t, q + 1);
        CharOfOccurrence(s, q, h, q + 1);
        assert t[1] != h[1];
      }
    }
  }

  // ---------------------------------------------------------------------------
  // Every pass reads the same

  /** No heading tag and no `</body>` straddles the seam between `a` and `b`. */
  ghost predicate Apart(a: seq<char>, b: seq<char>)
  {
    forall p :: Preserved(p) ==> NoStraddle(a, b, p)
  }

  /** A seam after `>` or a line break, or before `<` or a line break, keeps tags apart. */
  lemma SeamApart(a: seq<char>, b: seq<char>)
    requires (|a| > 0 && (a[|a| - 1] == '>' || a[|a| - 1] == '\n')) || (|b| > 0 && (b[0] == '<' || b[0] == '\n'))
    ensures Apart(a, b)
  {
    forall p | Preserved(p) ensures NoStraddle(a, b, p) {
      if (|a| > 0 && a[|a| - 1] == '>') || (|b| > 0 && b[0] == '<') {
        SeamTag(a, b, p);
      } else {
        SeamChar(a, b, p, '\n');
      }
    }
  }

  /** Across a seam that keeps tags apart, reading `a + b` reads `a`, then `b`. */
  lemma {:induction false} ReadConcat(n: Level, q: Reading, a: seq<char>, b: seq<char>)
    requires Apart(a, b)
    ensures Read(n, q, a + b) == Read(n, Read(n, q, a), b)
    decreases |a|
  {
    if |a| == 0 {
      assert a + b == b;
    } else {
      assert (a + b)[1..] == a[1..] + b;
      ReadAtApart(n, q, a, b);
      forall p | Preserved(p) ensures NoStraddle(a[1..], b, p) {
        NoStraddleTail(a, b, p);
      }
      ReadConcat(n, ReadAt(n, q, a), a[1..], b);
    }
  }

  lemma ReadAtApart(n: Level, q: Reading, a: seq<char>, b: seq<char>)
    requires |a| > 0 && Apart(a, b)
    ensures ReadAt(n, q, a + b) == ReadAt(n, q, a)
  {
    forall p | Preserved(p) ensures StartsWith(a + b, p) == StartsWith(a, p) {
      PrefixApart(a, b, p);
    }
    TagsPreserved(n);
    FirstPrefixNone(a + b, Stops(n));
    FirstPrefixNone(a, Stops(n));
  }

  /** A text without `h` and `b` leaves every reading as it is. */
  lemma {:induction false} ReadPlain(n: Level, q: Reading, u: seq<char>)
    requires 'h' !in u && 'b' !in u
    ensures Read(n, q, u) == q
    decreases |u|
  {
    if |u| > 0 {
      forall p | Preserved(p) ensures !StartsWith(u, p) {
        CountWithout(u, p);
      }
      TagsPreserved(n);
      FirstPrefixNone(u, Stops(n));
      assert forall c :: c in u[1..] ==> c in u;
      ReadPlain(n, q, u[1..]);
    }
  }

  /** Retagging code between two tag-free tags reads as the text between them. */
  lemma ReadBetweenTags(n: Level, q: Reading, a: seq<char>, u: seq<char>, x: seq<char>, v: seq<char>, c: seq<char>)
    requires |u| > 0 && u[0] == '<' && u[|u| - 1] == '>' && 'h' !in u && 'b' !in u
    requires |v| > 0 && v[0] == '<' && v[|v| - 1] == '>' && 'h' !in v && 'b' !in v
    ensures Read(n, q, a + u + x + v + c) == Read(n, Read(n, Read(n, q, a), x), c)
  {
    var z := x + (v + c);
    assert a + u + x + v + c == a + (u + z);
    SeamApart(a, u + z);
    ReadConcat(n, q, a, u + z);
    var q1 := Read(n, q, a);
    SeamApart(u, z);
    ReadConcat(n, q1, u, z);
    ReadPlain(n, q1, u);
    ReadTagAfter(n, q1, x, v, c);
  }

  lemma ReadTagAfter(n: Level, q: Reading, x: seq<char>, v: seq<char>, c: seq<char>)
    requires |v| > 0 && v[0] == '<' && v[|v| - 1] == '>' && 'h' !in v && 'b' !in v
    ensures Read(n, q, x + (v + c)) == Read(n, Read(n, q, x), c)
  {
    SeamApart(x, v + c);
    ReadConcat(n, q, x, v + c);
    SeamApart(v, c);
    ReadConcat(n, Read(n, q, x), v, c);
    ReadPlain(n, Read(n, q, x), v);
  }

  /** The code pass leaves the reading of every level as it is. */
  lemma {:induction false} CodeKeepsReading(n: Level, s: seq<char>)
    ensures forall q :: Read(n, q, Apply(CodeRule, s)) == Read(n, q, s)
    decreases |s|
  {
    match FindMatch(CodeRule, s)
    case None =>
      KeepsText(s);
    case Some(m) =>
      var a, x, c := s[..m.start], m.inner, s[End(CodeRule, m)..];
      CodeKeepsReading(n, c);
      CodeStepParts(s, m);
      PlainTexts();
      forall q ensures Read(n, q, Apply(CodeRule, s)) == Read(n, q, s) {
        ReadBetweenTags(n, q, a, PreOpen, x, PreClose, Apply(CodeRule, c));
        ReadBetweenTags(n, q, a, CodeOpen, x, CodeClose, c);
      }
  }

  /**
    Reading a text cut after a `>` and before a stop `t`: the part before the
    cut, what lies between, the stop, and the rest, one after the other.
   */
  lemma ReadParts(n: Level, q: Reading, l: seq<char>, x: seq<char>, t: seq<char>, c: seq<char>)
    requires |l| > 0 && l[|l| - 1] == '>'
    requires |t| > 0 && t[0] == '<' && t[|t| - 1] == '>'
    ensures Read(n, q, l + x + t + c) == Read(n, Read(n, Read(n, Read(n, q, l), x), t), c)
  {
    assert l + x + t + c == l + (x + (t + c));
    SeamApart(l, x + (t + c));
    ReadConcat(n, q, l, x + (t + c));
    ReadStopAfter(n, Read(n, q, l), x, t, c);
  }

  /**
    The same text with tag-free `u` and `v`, beginning and ending with a line
    break, inserted around the part between: they change no reading.
   */
  lemma ReadInserted(n: Level, q: Reading, l: seq<char>, u: seq<char>, x: seq<char>, v: seq<char>, t: seq<char>, c: seq<char>)
    requires |l| > 0 && l[|l| - 1] == '>'
    requires |t| > 0 && t[0] == '<' && t[|t| - 1] == '>'
    requires |u| > 0 && u[|u| - 1] == '\n' && 'h' !in u && 'b' !in u
    requires |v| > 0 && v[0] == '\n' && v[|v| - 1] == '\n' && 'h' !in v && 'b' !in v
    ensures Read(n, q, l + u + x + v + t + c) == Read(n, Read(n, Read(n, Read(n, q, l), x), t), c)
  {
    var o := u + (x + (v + (t + c)));
    assert l + u + x + v + t + c == l + o;
    SeamApart(l, o);
    ReadConcat(n, q, l, o);
    ReadSection(n, Read(n, q, l), u, x, v, t, c);
  }

  lemma ReadSection(n: Level, q: Reading, u: seq<char>, x: seq<char>, v: seq<char>, t: seq<char>, c: seq<char>)
    requires |t| > 0 && t[0] == '<' && t[|t| - 1] == '>'
    requires |u| > 0 && u[|u| - 1] == '\n' && 'h' !in u && 'b' !in u
    requires |v| > 0 && v[0] == '\n' && v[|v| - 1] == '\n' && 'h' !in v && 'b' !in v
    ensures Read(n, q, u + (x + (v + (t + c)))) == Read(n, Read(n, Read(n, q, x), t), c)
  {
    var z := v + (t + c);
    SeamApart(u, x + z);
    ReadConcat(n, q, u, x + z);
    ReadPlain(n, q, u);
    SeamApart(x, z);
    ReadConcat(n, q, x, z);
    var q1 := Read(n, q, x);
    SeamApart(v, t + c);
    ReadConcat(n, q1, v, t + c);
    ReadPlain(n, q1, v);
    SeamApart(t, c);
    ReadConcat(n, q1, t, c);
  }

  lemma ReadStopAfter(n: Level, q: Reading, x: seq<char>, t: seq<char>, c: seq<char>)
    requires |t| > 0 && t[0] == '<' && t[|t| - 1] == '>'
    ensures Read(n, q, x + (t + c)) == Read(n, Read(n, Read(n, q, x), t), c)
  {
    SeamApart(x, t + c);
    ReadConcat(n, q, x, t + c);
    SeamApart(t, c);
    ReadConcat(n, Read(n, q, x), t, c);
  }

  /**
    One heading replacement reads the same: the inserted texts hold no tag, and
    they sit after `>` and before `<` with line breaks at both ends.
   */
  lemma HeadingStepReading(n: Level, k: Level, q: Reading, s: seq<char>, m: Match)
    requires FindMatch(HeadingRule(k), s) == Some(m)
    requires forall q :: Read(n, q, Apply(HeadingRule(k), s[End(HeadingRule(k), m)..])) == Read(n, q, s[End(HeadingRule(k), m)..])
    ensures Read(n, q, Apply(HeadingRule(k), s)) == Read(n, q, s)
  {
    var r := HeadingRule(k);
    var l, x, t, c := s[..m.start] + CloseTag(k), m.inner, m.tail, s[End(r, m)..];
    HeadingStepParts(k, s, m);
    assert |l| > 0 && l[|l| - 1] == '>';
    ReadEnclosed(n, q, l, x, t, c, Apply(r, c));
  }

  lemma ReadEnclosed(n: Level, q: Reading, l: seq<char>, x: seq<char>, t: seq<char>, c: seq<char>, c2: seq<char>)
    requires |l| > 0 && l[|l| - 1] == '>'
    requires |t| > 0 && t[0] == '<' && t[|t| - 1] == '>'
    requires forall q :: Read(n, q, c2) == Read(n, q, c)
    ensures Read(n, q, l + SectionOpen + x + SectionClose + t + c2) == Read(n, q, l + x + t + c)
  {
    PlainTexts();
    ReadParts(n, q, l, x, t, c);
    ReadInserted(n, q, l, SectionOpen, x, SectionClose, t, c2);
  }

  /** A heading pass of any level leaves the reading of every level as it is. */
  lemma {:induction false} HeadingKeepsReading(n: Level, k: Level, s: seq<char>)
    ensures forall q :: Read(n, q, Apply(HeadingRule(k), s)) == Read(n, q, s)
    decreases |s|
  {
    var r := HeadingRule(k);
    match FindMatch(r, s)
    case None =>
      KeepsText(s);
    case Some(m) =>
      HeadingKeepsReading(n, k, s[End(r, m)..]);
      forall q ensures Read(n, q, Apply(r, s)) == Read(n, q, s) {
        HeadingStepReading(n, k, q, s, m);
      }
  }

  /** Inserting the sections of any level keeps a text closed at every level, and no more. */
  lemma ClosedKept(n: Level, k: Level, s: seq<char>)
    ensures Closed(n, Sectioned(k, s)) <==> Closed(n, s)
  {
    HeadingKeepsReading(n, k, s);
  }

  /** The text each heading pass reads is closed when the page is. */
  lemma {:induction false} BeforeKeepsReading(n: Level, k: Level, c: seq<char>)
    ensures forall q :: Read(n, q, Before(k, c)) == Read(n, q, c)
    decreases 6 - k
  {
    if k < 6 {
      BeforeKeepsReading(n, k + 1, c);
      HeadingKeepsReading(n, k + 1, Before(k + 1, c));
    }
  }

  /**
    In a page whose headings of every level are closed, every heading pass
    finds one match per closing heading tag of the page, so each `</hN>` gets
    exactly one section.
   */
  lemma RestructureEveryHeading(w: seq<char>)
    requires forall n: Level :: Closed(n, w)
    ensures forall n: Level :: Matches(HeadingRule(n), Before(n, CodeBlocks(w))) == Count(w, CloseTag(n))
  {
    forall n: Level ensures Matches(HeadingRule(n), Before(n, CodeBlocks(w))) == Count(w, CloseTag(n)) {
      SectionPerLevel(n, w);
    }
  }

  /** The same for one level. */
  lemma SectionPerLevel(n: Level, w: seq<char>)
    requires Closed(n, w)
    ensures Matches(HeadingRule(n), Before(n, CodeBlocks(w))) == Count(w, CloseTag(n))
  {
    var c := CodeBlocks(w);
    var b := Before(n, c);
    assert Closed(n, b) by {
      CodeKeepsReading(n, w);
      BeforeKeepsReading(n, n, c);
    }
    SectionPerHeading(n, b);
    assert Count(b, CloseTag(n)) == Count(w, CloseTag(n)) by {
      TagsPreserved(n);
    }
  }

  // ---------------------------------------------------------------------------
  // The whole pipeline (mkdoc.py:59-69)

  /**
    A wrapped page with no `<p><code>` and no closing heading tag comes back
    unchanged: no pass finds anything, so no `<section>` is added.
   */
  lemma RestructurePlain(w: seq<char>)
    requires !Contains(w, CodeOpen)
    requires forall n: Level :: !Contains(w, CloseTag(n))
    ensures Restructure(w) == w
  {
    CodeBlocksWithoutCode(w);
    SectionedWithoutHeading(6, w);
    SectionedWithoutHeading(5, w);
    SectionedWithoutHeading(4, w);
    SectionedWithoutHeading(3, w);
    SectionedWithoutHeading(2, w);
    SectionedWithoutHeading(1, w);
  }

  /**
    For a template holding the marker once and a body without headings or code
    paragraphs, the page is the template with the marker replaced by the body.
   */
  lemma MakePlainBody(pre: seq<char>, body: seq<char>, post: seq<char>)
    requires '\\' !in body
    requires !Contains(pre, Marker) && !Contains(post, Marker)
    requires !Contains(pre + body + post, CodeOpen)
    requires forall n: Level :: !Contains(pre + body + post, CloseTag(n))
    ensures Make(body, pre + Marker + post) == pre + body + post
  {
    SubstituteOnce(pre, post, body);
    RestructurePlain(pre + body + post);
  }

  /**
    For example, markdown `# Title` followed by the paragraph `Hello` gives the
    body `<h1>Title</h1>\n<p>Hello</p>`; in the template
    `<html><body>{%body%}</body></html>` the page becomes
    `<html><body><h1>Title</h1>\n<section>\n\n<p>Hello</p>\n</section>\n</body></html>`.
    The texts are named piecewise so that each step reasons about short pieces.
   */
  predicate ExampleParts(pre: seq<char>, title: seq<char>, text: seq<char>, post: seq<char>)
  {
    pre == "<html><body>" && title == "Title" && text == "\n<p>Hello</p>" && post == "</html>"
  }

  lemma MakeExample(pre: seq<char>, title: seq<char>, text: seq<char>, post: seq<char>)
    requires ExampleParts(pre, title, text, post)
    ensures Make(OpenTag(1) + title + CloseTag(1) + text, pre + Marker + BodyClose + post) ==
            pre + OpenTag(1) + title + CloseTag(1) + SectionOpen + text + SectionClose + BodyClose + post
  {
    ExampleSubstitute(pre, title, text, post);
    ExampleCode(pre, title, text, post);
    ExampleIdle(6, pre, title, text, post);
    ExampleIdle(5, pre, title, text, post);
    ExampleIdle(4, pre, title, text, post);
    ExampleIdle(3, pre, title, text, post);
    ExampleIdle(2, pre, title, text, post);
    ExampleTop(pre, title, text, post);
  }

  /** The marker sits between `<body>` and `</body>`. */
  lemma ExampleSubstitute(pre: seq<char>, title: seq<char>, text: seq<char>, post: seq<char>)
    requires ExampleParts(pre, title, text, post)
    ensures Substitute(pre + Marker + BodyClose + post, OpenTag(1) + title + CloseTag(1) + text) ==
            pre + OpenTag(1) + title + CloseTag(1) + text + BodyClose + post
  {
    var body := OpenTag(1) + title + CloseTag(1) + text;
    assert Substitute(pre + Marker + (BodyClose + post), body) == pre + body + (BodyClose + post) by {
      AbsentChar(pre, Marker, '{');
      AbsentChar(BodyClose + post, Marker, '{');
      SubstituteOnce(pre, BodyClose + post, body);
    }
    assert pre + Marker + BodyClose + post == pre + Marker + (BodyClose + post);
    RegroupSplit(pre, OpenTag(1), title, CloseTag(1), text, BodyClose, post);
  }

  lemma ExampleCode(pre: seq<char>, title: seq<char>, text: seq<char>, post: seq<char>)
    requires ExampleParts(pre, title, text, post)
    ensures var w := pre + OpenTag(1) + title + CloseTag(1) + text + BodyClose + post; CodeBlocks(w) == w
  {
    var w := pre + OpenTag(1) + title + CloseTag(1) + text + BodyClose + post;
    assert 'c' !in pre && 'c' !in OpenTag(1) && 'c' !in title && 'c' !in CloseTag(1);
    assert 'c' !in text && 'c' !in BodyClose && 'c' !in post;
    AbsentChar(w, CodeOpen, 'c');
    CodeBlocksWithoutCode(w);
  }

  lemma ExampleIdle(n: Level, pre: seq<char>, title: seq<char>, text: seq<char>, post: seq<char>)
    requires 2 <= n
    requires ExampleParts(pre, title, text, post)
    ensures var w := pre + OpenTag(1) + title + CloseTag(1) + text + BodyClose + post; Sectioned(n, w) == w
  {
    var w := pre + OpenTag(1) + title + CloseTag(1) + text + BodyClose + post;
    var d := Digit(n);
    assert d !in pre && d !in OpenTag(1) && d !in title && d !in CloseTag(1);
    assert d !in text && d !in BodyClose && d !in post;
    assert CloseTag(n)[3] == d;
    AbsentChar(w, CloseTag(n), d);
    SectionedWithoutHeading(n, w);
  }

  lemma ExampleTop(pre: seq<char>, title: seq<char>, text: seq<char>, post: seq<char>)
    requires ExampleParts(pre, title, text, post)
    ensures Sectioned(1, pre + OpenTag(1) + title + CloseTag(1) + text + BodyClose + post) ==
            pre + OpenTag(1) + title + CloseTag(1) + SectionOpen + text + SectionClose + BodyClose + post
  {
    var a := pre + OpenTag(1) + title;
    ExampleHeading(pre, title, text, post);
    ExampleContent(pre, title, text, post);
    SectionedOnce(1, a, text, BodyClose, post);
    ExampleRest(pre, title, text, post);
    assert pre + OpenTag(1) + title + CloseTag(1) + text + BodyClose + post == a + CloseTag(1) + text + BodyClose + post;
  }

  lemma ExampleHeading(pre: seq<char>, title: seq<char>, text: seq<char>, post: seq<char>)
    requires ExampleParts(pre, title, text, post)
    ensures !Contains(pre + OpenTag(1) + title, CloseTag(1))
  {
    assert '/' !in pre && '/' !in OpenTag(1) && '/' !in title;
    AbsentChar(pre + OpenTag(1) + title, CloseTag(1), '/');
  }

  lemma ExampleContent(pre: seq<char>, title: seq<char>, text: seq<char>, post: seq<char>)
    requires ExampleParts(pre, title, text, post)
    ensures forall u :: u in Stops(1) ==> !Contains(text, u)
  {
    forall u | u in Stops(1) ensures !Contains(text, u) {
      StopsMembers(1, u);
      if u == BodyClose {
        AbsentChar(text, u, 'b');
      } else {
        AbsentChar(text, u, 'h');
      }
    }
  }

  lemma ExampleRest(pre: seq<char>, title: seq<char>, text: seq<char>, post: seq<char>)
    requires ExampleParts(pre, title, text, post)
    ensures Sectioned(1, post) == post
  {
    AbsentChar(post, CloseTag(1), '1');
    SectionedWithoutHeading(1, post);
  }
}
