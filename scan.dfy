/**
  One `re.sub` of a pattern `head (.*?) (tail|tail|...)` compiled with DOTALL.

  `re.sub` scans from left to right: it takes the earliest position where the
  pattern matches, the shortest run for the lazy `(.*?)`, the first alternative
  that matches after that run, replaces the match, and goes on after it. `Apply`
  is that scan. Each replacement is recorded as an edit script (module Edits),
  so that what a pass keeps and what it inserts can be stated.
 */
module Scan {
  import opened Wrappers
  import opened Text
  import opened Edits

  /** The three shapes of replacement string that the renderer uses. */
  datatype Replacement =
    | Whole(text: seq<char>)                        // the whole match becomes `text`
    | Retag(open: seq<char>, close: seq<char>)      // `open\1close`: head and tail swapped, the run kept
    | Enclose(open: seq<char>, close: seq<char>)    // `head` + `open\1close` + `\2`: the run enclosed

  datatype Pattern = Pattern(head: seq<char>, tails: seq<seq<char>>, repl: Replacement)

  /** A compiled pattern with its replacement; a match always begins with a non-empty literal. */
  type Rule = p: Pattern | |p.head| > 0 witness Pattern(" ", [], Whole([]))

  /**
    The replacement of a match whose lazy run is `inner` and whose ending
    alternative is `tail`, as an edit script over the matched text.
   */
  function Rewrite(r: Rule, inner: seq<char>, tail: seq<char>): (es: seq<Piece>)
    ensures exists p :: p in es && p.Swap?
    ensures r.repl.Enclose? ==> forall p :: p in es && p.Swap? ==> p.before == []
    ensures r.repl.Retag? ==> |es| == |inner| + 2
  {
    match r.repl
    case Whole(text) =>
      var w := Swap(r.head + inner + tail, text);
      assert w in [w];
      [w]
    case Retag(open, close) =>
      var w := Swap(r.head, open);
      assert w in [w] + Keeps(inner) + [Swap(tail, close)];
      [w] + Keeps(inner) + [Swap(tail, close)]
    case Enclose(open, close) =>
      var w := Swap([], open);
      assert w in Keeps(r.head) + [w] + Keeps(inner) + [Swap([], close)] + Keeps(tail);
      Keeps(r.head) + [w] + Keeps(inner) + [Swap([], close)] + Keeps(tail)
  }

  /** The pattern of `r` matches `s` at index `k`. */
  predicate MatchAt(r: Rule, s: seq<char>, k: int)
  {
    OccursAt(s, k, r.head) && Find(s[k + |r.head|..], r.tails).Some?
  }

  /** A match: where it starts, its lazy run (group 1) and its ending alternative (group 2). */
  datatype Match = Match(start: nat, inner: seq<char>, tail: seq<char>)

  /** The index just past a match. */
  function End(r: Rule, m: Match): (e: nat)
    ensures e >= m.start + |r.head|
  {
    m.start + |r.head| + |m.inner| + |m.tail|
  }

  /**
    The match `re.sub` replaces first. It suffices to look at the first
    occurrence of the head: when no alternative follows it, none follows any
    later occurrence either (lemma `FindMatchEarliest`).
   */
  function FindMatch(r: Rule, s: seq<char>): (m: Option<Match>)
    ensures m.Some? ==> End(r, m.value) <= |s| && m.value.tail in r.tails
  {
    var f := FirstHead(r, s);
    if f.None? then None
    else
      var b := f.value + |r.head|;
      var g := Find(s[b..], r.tails);
      if g.None? then None
      else Some(Match(f.value, s[b..b + g.value.0], g.value.1))
  }

  /** The search for the head, a literal: its first occurrence, or none. */
  function FirstHead(r: Rule, s: seq<char>): (i: Option<nat>)
    ensures i.Some? ==> OccursAt(s, i.value, r.head) && forall k :: 0 <= k < i.value ==> !OccursAt(s, k, r.head)
    ensures i.None? ==> forall k :: 0 <= k <= |s| ==> !OccursAt(s, k, r.head)
  {
    var h := r.head;
    FindLiteral(s, h);
    var f := Find(s, [h]);
    if f.None? then None else Some(f.value.0)
  }

  /** What a match found by `FindMatch` consists of. */
  lemma MatchFacts(r: Rule, s: seq<char>, m: Match)
    requires FindMatch(r, s) == Some(m)
    ensures OccursAt(s, m.start, r.head) && m.start + |r.head| + |m.inner| <= |s|
    ensures m.inner == s[m.start + |r.head|..m.start + |r.head| + |m.inner|]
    ensures m.tail in r.tails && StartsWith(s[m.start + |r.head| + |m.inner|..], m.tail)
    ensures Find(s[m.start + |r.head|..], r.tails).Some?
    ensures Find(s[m.start + |r.head|..], r.tails).value.0 == |m.inner|
    ensures Find(s[m.start + |r.head|..], r.tails).value.1 == m.tail
  {
    var b := m.start + |r.head|;
    assert s[b..][|m.inner|..] == s[b + |m.inner|..];
  }

  /**
    `FindMatch` finds the earliest index at which the pattern matches, and
    finds nothing only when the pattern matches nowhere.
   */
  lemma FindMatchEarliest(r: Rule, s: seq<char>)
    ensures FindMatch(r, s).None? ==> forall k :: 0 <= k <= |s| ==> !MatchAt(r, s, k)
    ensures FindMatch(r, s).Some? ==>
              MatchAt(r, s, FindMatch(r, s).value.start) &&
              forall k :: 0 <= k < FindMatch(r, s).value.start ==> !MatchAt(r, s, k)
  {
    if FindMatch(r, s).None? {
      NoMatchAnywhere(r, s);
    } else {
      MatchAtStart(r, s);
      EarliestStart(r, s);
    }
  }

  /** Without a match found, the pattern matches nowhere. */
  lemma NoMatchAnywhere(r: Rule, s: seq<char>)
    requires FindMatch(r, s).None?
    ensures forall k :: 0 <= k <= |s| ==> !MatchAt(r, s, k)
  {
    if FirstHead(r, s).Some? {
      NoTailAfterFirstHead(r, s, FirstHead(r, s).value);
    }
  }

  /** The pattern matches where the match found starts. */
  lemma MatchAtStart(r: Rule, s: seq<char>)
    requires FindMatch(r, s).Some?
    ensures MatchAt(r, s, FindMatch(r, s).value.start)
  {
    MatchFacts(r, s, FindMatch(r, s).value);
  }

  /** The pattern matches nowhere before the match found. */
  lemma EarliestStart(r: Rule, s: seq<char>)
    requires FindMatch(r, s).Some?
    ensures forall k :: 0 <= k < FindMatch(r, s).value.start ==> !MatchAt(r, s, k)
  {
    NoMatchBefore(r, s, FindMatch(r, s).value.start);
  }

  /** Before the first occurrence of the head the pattern cannot match. */
  lemma NoMatchBefore(r: Rule, s: seq<char>, i: nat)
    requires forall k :: 0 <= k < i ==> !OccursAt(s, k, r.head)
    ensures forall k :: 0 <= k < i ==> !MatchAt(r, s, k)
  {
  }

  /** When no alternative follows the first head, the pattern matches nowhere. */
  lemma NoTailAfterFirstHead(r: Rule, s: seq<char>, i: nat)
    requires OccursAt(s, i, r.head) && forall k :: 0 <= k < i ==> !OccursAt(s, k, r.head)
    requires Find(s[i + |r.head|..], r.tails).None?
    ensures forall k :: 0 <= k <= |s| ==> !MatchAt(r, s, k)
  {
    var h := r.head;
    var b := i + |h|;
    forall k | i < k <= |s| && OccursAt(s, k, h) ensures Find(s[k + |h|..], r.tails).None? {
      FindNoneSuffix(s[b..], r.tails, k - i);
      assert s[b..][k - i..] == s[k + |h|..];
    }
  }

  /** The text of a match is its head, its lazy run and its ending alternative. */
  lemma MatchParts(r: Rule, s: seq<char>)
    requires FindMatch(r, s).Some?
    ensures var m := FindMatch(r, s).value;
            m.tail in r.tails &&
            s == s[..m.start] + (r.head + m.inner + m.tail) + s[End(r, m)..]
  {
    var m := FindMatch(r, s).value;
    MatchFacts(r, s, m);
    Decompose(s, m.start, r.head, m.inner, m.tail);
  }

  /** The edit script of one `re.sub` of `r` over `s`: only kept characters when nothing matches. */
  function Script(r: Rule, s: seq<char>): (es: seq<Piece>)
    ensures FindMatch(r, s).None? <==> forall p :: p in es ==> p.Keep?
    decreases |s|
  {
    match FindMatch(r, s)
    case None => Keeps(s)
    case Some(m) =>
      var w := Rewrite(r, m.inner, m.tail);
      var es := Keeps(s[..m.start]) + w + Script(r, s[End(r, m)..]);
      assert forall p :: p in w ==> p in es;
      es
  }

  /** The text `re.sub` returns: the input itself when the pattern does not match. */
  function Apply(r: Rule, s: seq<char>): (out: seq<char>)
    ensures FindMatch(r, s).None? ==> out == s
  {
    KeepsText(s);
    Target(Script(r, s))
  }

  /**
    The number of replacements `re.sub` makes (what `re.subn` reports): none
    exactly when the pattern does not match, and at most one per character,
    since every match consumes its non-empty head.
   */
  function Matches(r: Rule, s: seq<char>): (k: nat)
    ensures k == 0 <==> FindMatch(r, s).None?
    ensures k <= |s|
    decreases |s|
  {
    match FindMatch(r, s)
    case None => 0
    case Some(m) => 1 + Matches(r, s[End(r, m)..])
  }

  /** The one step of the scan that the lemmas below unfold. */
  lemma ScriptStep(r: Rule, s: seq<char>, m: Match)
    requires FindMatch(r, s) == Some(m)
    ensures Script(r, s) == Keeps(s[..m.start]) + Rewrite(r, m.inner, m.tail) + Script(r, s[End(r, m)..])
    ensures Matches(r, s) == 1 + Matches(r, s[End(r, m)..])
  {
  }

  /** The same step, read as text. */
  lemma ApplyStep(r: Rule, s: seq<char>, m: Match)
    requires FindMatch(r, s) == Some(m)
    ensures Apply(r, s) == s[..m.start] + Target(Rewrite(r, m.inner, m.tail)) + Apply(r, s[End(r, m)..])
  {
    var a := Keeps(s[..m.start]);
    var w := Rewrite(r, m.inner, m.tail);
    ScriptStep(r, s, m);
    KeepsText(s[..m.start]);
    TargetAppend(a, w);
    TargetAppend(a + w, Script(r, s[End(r, m)..]));
  }

  /** A replacement reads back as the text it matched. */
  lemma RewriteSource(r: Rule, inner: seq<char>, tail: seq<char>)
    ensures Source(Rewrite(r, inner, tail)) == r.head + inner + tail
  {
    match r.repl
    case Whole(_) =>
    case Retag(open, close) => RetagSource(r.head, open, inner, tail, close);
    case Enclose(open, close) => EncloseSource(r.head, open, inner, close, tail);
  }

  /** The text a replacement writes: `\1` is the lazy run and `\2` the ending alternative. */
  lemma RewriteTarget(r: Rule, inner: seq<char>, tail: seq<char>)
    ensures r.repl.Whole? ==> Target(Rewrite(r, inner, tail)) == r.repl.text
    ensures r.repl.Retag? ==> Target(Rewrite(r, inner, tail)) == r.repl.open + inner + r.repl.close
    ensures r.repl.Enclose? ==>
              Target(Rewrite(r, inner, tail)) == r.head + r.repl.open + inner + r.repl.close + tail
  {
    match r.repl
    case Whole(_) =>
    case Retag(open, close) => RetagTarget(r.head, open, inner, tail, close);
    case Enclose(open, close) => EncloseTarget(r.head, open, inner, close, tail);
  }

  lemma RetagSource(head: seq<char>, open: seq<char>, inner: seq<char>, tail: seq<char>, close: seq<char>)
    ensures Source([Swap(head, open)] + Keeps(inner) + [Swap(tail, close)]) == head + inner + tail
  {
    var e := [Swap(head, open)] + Keeps(inner);
    assert Source(e) == head + inner by {
      SourceAppend([Swap(head, open)], Keeps(inner));
      KeepsText(inner);
    }
    SourceAppend(e, [Swap(tail, close)]);
  }

  lemma RetagTarget(head: seq<char>, open: seq<char>, inner: seq<char>, tail: seq<char>, close: seq<char>)
    ensures Target([Swap(head, open)] + Keeps(inner) + [Swap(tail, close)]) == open + inner + close
  {
    var e := [Swap(head, open)] + Keeps(inner);
    assert Target(e) == open + inner by {
      TargetAppend([Swap(head, open)], Keeps(inner));
      KeepsText(inner);
    }
    TargetAppend(e, [Swap(tail, close)]);
  }

  lemma EncloseSource(head: seq<char>, open: seq<char>, inner: seq<char>, close: seq<char>, tail: seq<char>)
    ensures Source(Keeps(head) + [Swap([], open)] + Keeps(inner) + [Swap([], close)] + Keeps(tail)) ==
            head + inner + tail
  {
    var e1 := Keeps(head) + [Swap([], open)];
    assert Source(e1) == head by {
      SourceAppend(Keeps(head), [Swap([], open)]);
      KeepsText(head);
    }
    var e2 := e1 + Keeps(inner);
    assert Source(e2) == head + inner by {
      SourceAppend(e1, Keeps(inner));
      KeepsText(inner);
    }
    var e3 := e2 + [Swap([], close)];
    assert Source(e3) == head + inner by {
      SourceAppend(e2, [Swap([], close)]);
    }
    SourceAppend(e3, Keeps(tail));
    KeepsText(tail);
  }

  lemma EncloseTarget(head: seq<char>, open: seq<char>, inner: seq<char>, close: seq<char>, tail: seq<char>)
    ensures Target(Keeps(head) + [Swap([], open)] + Keeps(inner) + [Swap([], close)] + Keeps(tail)) ==
            head + open + inner + close + tail
  {
    var e1 := Keeps(head) + [Swap([], open)];
    assert Target(e1) == head + open by {
      TargetAppend(Keeps(head), [Swap([], open)]);
      KeepsText(head);
    }
    var e2 := e1 + Keeps(inner);
    assert Target(e2) == head + open + inner by {
      TargetAppend(e1, Keeps(inner));
      KeepsText(inner);
    }
    var e3 := e2 + [Swap([], close)];
    assert Target(e3) == head + open + inner + close by {
      TargetAppend(e2, [Swap([], close)]);
    }
    TargetAppend(e3, Keeps(tail));
    KeepsText(tail);
  }

  /**
    Every pass rewrites only inside its matches: its edit script reads back as
    exactly the text the pass was given.
   */
  lemma {:induction false} ScriptSource(r: Rule, s: seq<char>)
    ensures Source(Script(r, s)) == s
    decreases |s|
  {
    match FindMatch(r, s)
    case None =>
      KeepsText(s);
    case Some(m) =>
      var rest := s[End(r, m)..];
      MatchParts(r, s);
      ScriptSource(r, rest);
      KeepsText(s[..m.start]);
      RewriteSource(r, m.inner, m.tail);
      SourceAppend(Keeps(s[..m.start]), Rewrite(r, m.inner, m.tail));
      SourceAppend(Keeps(s[..m.start]) + Rewrite(r, m.inner, m.tail), Script(r, rest));
  }

  /**
    The rules whose every replacement changes the length of the text by the same
    amount: the lazy run is kept or empty, and every ending alternative has one length.
   */
  predicate FixedGrowth(r: Rule)
  {
    match r.repl
    case Whole(_) => r.tails == [[]]
    case Retag(_, _) => |r.tails| == 1
    case Enclose(_, _) => true
  }

  /**
    How much longer one replacement makes the text: an enclosing replacement
    never shortens it, and a whole-match replacement removes at most the head.
   */
  function Growth(r: Rule): (g: int)
    requires FixedGrowth(r)
    ensures r.repl.Enclose? ==> g >= 0
    ensures r.repl.Whole? ==> g >= -|r.head|
  {
    match r.repl
    case Whole(text) => |text| - |r.head|
    case Retag(open, close) => |open| - |r.head| + |close| - |r.tails[0]|
    case Enclose(open, close) => |open| + |close|
  }

  lemma RewriteLength(r: Rule, inner: seq<char>, tail: seq<char>)
    requires FixedGrowth(r) && tail in r.tails
    requires r.repl.Whole? ==> inner == []
    ensures |Target(Rewrite(r, inner, tail))| == |r.head| + |inner| + |tail| + Growth(r)
  {
    RewriteTarget(r, inner, tail);
  }

  /** With an empty alternative the lazy run of every match is empty. */
  lemma EmptyTailRun(r: Rule, s: seq<char>)
    requires r.tails == [[]] && FindMatch(r, s).Some?
    ensures FindMatch(r, s).value.inner == [] && FindMatch(r, s).value.tail == []
  {
    var i := FirstHead(r, s).value;
    FindEmpty(s[i + |r.head|..]);
  }

  /** The text after a pass is longer by `Growth(r)` for every replacement made. */
  lemma {:induction false} ApplyLength(r: Rule, s: seq<char>)
    requires FixedGrowth(r)
    ensures |Apply(r, s)| == |s| + Matches(r, s) * Growth(r)
    decreases |s|
  {
    match FindMatch(r, s)
    case None =>
      KeepsText(s);
    case Some(m) =>
      ApplyLength(r, s[End(r, m)..]);
      ApplyLengthStep(r, s, m);
  }

  lemma ApplyLengthStep(r: Rule, s: seq<char>, m: Match)
    requires FixedGrowth(r) && FindMatch(r, s) == Some(m)
    requires |Apply(r, s[End(r, m)..])| == |s[End(r, m)..]| + Matches(r, s[End(r, m)..]) * Growth(r)
    ensures |Apply(r, s)| == |s| + Matches(r, s) * Growth(r)
  {
    var g := Growth(r);
    var n := Matches(r, s[End(r, m)..]);
    ApplyStepLength(r, s, m);
    if r.repl.Whole? {
      EmptyTailRun(r, s);
    }
    RewriteLength(r, m.inner, m.tail);
    var before := |Apply(r, s)|;
    var here := |Target(Rewrite(r, m.inner, m.tail))|;
    assert here == End(r, m) - m.start + g;
    assert before == |s| + g + n * g;
    OneMore(Matches(r, s), n, g);
  }

  lemma ApplyStepLength(r: Rule, s: seq<char>, m: Match)
    requires FindMatch(r, s) == Some(m)
    ensures |Apply(r, s)| == m.start + |Target(Rewrite(r, m.inner, m.tail))| + |Apply(r, s[End(r, m)..])|
    ensures Matches(r, s) == 1 + Matches(r, s[End(r, m)..])
  {
    ApplyStep(r, s, m);
  }

  lemma OneMore(m: int, n: int, g: int)
    requires m == n + 1
    ensures m * g == g + n * g
  {
  }

  /**
    A pass replaces nothing exactly when its pattern matches nowhere, and then
    returns its input unchanged.
   */
  lemma NoMatchUnchanged(r: Rule, s: seq<char>)
    ensures Matches(r, s) == 0 <==> forall k :: 0 <= k <= |s| ==> !MatchAt(r, s, k)
    ensures Matches(r, s) == 0 ==> Apply(r, s) == s
  {
    FindMatchEarliest(r, s);
    if FindMatch(r, s).None? {
      KeepsText(s);
    }
  }

  /** A text in which the head of the pattern does not occur comes back unchanged. */
  lemma ApplyWithoutHead(r: Rule, s: seq<char>)
    requires !Contains(s, r.head)
    ensures Matches(r, s) == 0 && Apply(r, s) == s
  {
    NoMatchUnchanged(r, s);
  }

  /** A pass makes at most one replacement per occurrence of its head. */
  lemma {:induction false} MatchesAtMostHeads(r: Rule, s: seq<char>)
    ensures Matches(r, s) <= Count(s, r.head)
    decreases |s|
  {
    match FindMatch(r, s)
    case None =>
    case Some(m) =>
      MatchesAtMostHeads(r, s[End(r, m)..]);
      CountPastMatch(r, s, m);
  }

  /** A match holds one occurrence of the head, and what follows it holds the rest at most. */
  lemma CountPastMatch(r: Rule, s: seq<char>, m: Match)
    requires FindMatch(r, s) == Some(m)
    ensures Count(s, r.head) >= 1 + Count(s[End(r, m)..], r.head)
  {
    var h := r.head;
    var d := End(r, m) - m.start;
    MatchFacts(r, s, m);
    CountDrop(s, h, m.start);
    CountPast(s[m.start..], h, d);
    assert s[m.start..][d..] == s[End(r, m)..];
  }

  /**
    With an unbordered head that begins nowhere inside a match but at its start,
    the match holds exactly one occurrence of the head and what follows it holds
    the rest.
   */
  lemma CountPastFirstMatch(r: Rule, s: seq<char>, m: Match)
    requires FindMatch(r, s) == Some(m) && Unbordered(r.head)
    requires forall q :: m.start < q < End(r, m) ==> !OccursAt(s, q, r.head)
    ensures Count(s, r.head) == 1 + Count(s[End(r, m)..], r.head)
  {
    var h, i, e := r.head, m.start, End(r, m);
    assert OccursAt(s, i, h) && forall k :: 0 <= k < i ==> !OccursAt(s, k, h) by {
      MatchAtFirstHead(r, s, m);
    }
    assert Count(s, h) == 1 + Count(s[i + |h|..], h) by {
      CountFirst(s, h, i);
    }
    assert Count(s[i + |h|..], h) == Count(s[e..], h) by {
      CountSkipRange(s, h, i + |h|, e);
    }
  }

  /** A match begins at the first occurrence of the head. */
  lemma MatchAtFirstHead(r: Rule, s: seq<char>, m: Match)
    requires FindMatch(r, s) == Some(m)
    ensures FirstHead(r, s) == Some(m.start)
  {
  }

  /**
    `re.sub` replaces the earliest match first and carries on after it: when the
    pattern first matches at `i`, the result is the text before `i`, the
    replacement of that match, and the pass applied to what follows the match.
   */
  lemma ApplyAtFirstMatch(r: Rule, s: seq<char>, i: nat)
    requires MatchAt(r, s, i)
    requires forall k :: 0 <= k < i ==> !MatchAt(r, s, k)
    ensures FindMatch(r, s).Some? && FindMatch(r, s).value.start == i
    ensures var m := FindMatch(r, s).value;
            Apply(r, s) == s[..i] + Target(Rewrite(r, m.inner, m.tail)) + Apply(r, s[End(r, m)..])
  {
    FindMatchEarliest(r, s);
    var m := FindMatch(r, s).value;
    ApplyStep(r, s, m);
  }

  /**
    The pass over `a + head + x + t + c`, where `a` holds no head, the head
    is unbordered, and `x` is the shortest run before the alternative `t`: the
    match is replaced and the pass goes on with `c`.
   */
  lemma ApplyOnce(r: Rule, a: seq<char>, x: seq<char>, t: seq<char>, c: seq<char>)
    requires Unbordered(r.head)
    requires !Contains(a, r.head)
    requires Find(x + t + c, r.tails).Some?
    requires Find(x + t + c, r.tails).value.0 == |x| && Find(x + t + c, r.tails).value.1 == t
    ensures Apply(r, a + r.head + x + t + c) == a + Target(Rewrite(r, x, t)) + Apply(r, c)
  {
    var s := a + r.head + x + t + c;
    var m := OnceMatch(r, a, x, t, c);
    ApplyStep(r, s, m);
    assert s[End(r, m)..] == c;
    assert s[..|a|] == a;
  }

  /** The match `ApplyOnce` relies on. */
  lemma OnceMatch(r: Rule, a: seq<char>, x: seq<char>, t: seq<char>, c: seq<char>) returns (m: Match)
    requires Unbordered(r.head)
    requires !Contains(a, r.head)
    requires Find(x + t + c, r.tails).Some?
    requires Find(x + t + c, r.tails).value.0 == |x| && Find(x + t + c, r.tails).value.1 == t
    ensures FindMatch(r, a + r.head + x + t + c) == Some(m)
    ensures m == Match(|a|, x, t)
  {
    var s := a + r.head + x + t + c;
    assert s == a + r.head + (x + t + c);
    FirstHeadMatch(r, a, x + t + c);
    m := FindMatch(r, s).value;
    assert s[|a| + |r.head|..] == x + t + c;
    MatchAfterHead(r, s, m, x, t, c);
  }

  /** The lazy run and the alternative of a match are the ones `Find` gives for the text after its head. */
  lemma MatchAfterHead(r: Rule, s: seq<char>, m: Match, x: seq<char>, t: seq<char>, c: seq<char>)
    requires FindMatch(r, s) == Some(m)
    requires m.start + |r.head| <= |s| && s[m.start + |r.head|..] == x + t + c
    requires Find(x + t + c, r.tails).Some?
    requires Find(x + t + c, r.tails).value.0 == |x| && Find(x + t + c, r.tails).value.1 == t
    ensures m.inner == x && m.tail == t
  {
    var b := m.start + |r.head|;
    var z := s[b..];
    MatchFacts(r, s, m);
    assert z[..|x|] == x;
    assert m.inner == z[..|x|];
  }

  /** When `a` holds no head and an alternative follows it, the first match starts at the head after `a`. */
  lemma FirstHeadMatch(r: Rule, a: seq<char>, z: seq<char>)
    requires Unbordered(r.head)
    requires !Contains(a, r.head)
    requires Find(z, r.tails).Some?
    ensures FindMatch(r, a + r.head + z).Some? && FindMatch(r, a + r.head + z).value.start == |a|
  {
    var s := a + r.head + z;
    var i := |a|;
    FirstOccurrence(a, r.head, z);
    assert s[i + |r.head|..] == z;
    assert MatchAt(r, s, i);
    FindMatchEarliest(r, s);
    var m := FindMatch(r, s).value;
    assert !MatchAt(r, s, m.start) || m.start >= i;
  }

  /**
    With a replacement of the whole match, an empty alternative and an
    unbordered head, every occurrence of the head is replaced: the replacements
    are as many as the occurrences.
   */
  lemma {:induction false} MatchesEveryHead(r: Rule, s: seq<char>)
    requires r.repl.Whole? && r.tails == [[]]
    requires Unbordered(r.head)
    ensures Matches(r, s) == Count(s, r.head)
    decreases |s|
  {
    match FindMatch(r, s)
    case None =>
      NoHeadLeft(r, s);
    case Some(m) =>
      MatchesEveryHead(r, s[End(r, m)..]);
      CountAtMatch(r, s, m);
  }

  /** With an empty alternative, the pattern matches wherever its head occurs. */
  lemma HeadIsMatch(r: Rule, s: seq<char>)
    requires r.tails == [[]]
    ensures forall k :: 0 <= k <= |s| && OccursAt(s, k, r.head) ==> MatchAt(r, s, k)
  {
    forall k | 0 <= k <= |s| && OccursAt(s, k, r.head) ensures MatchAt(r, s, k) {
      FindEmpty(s[k + |r.head|..]);
    }
  }

  lemma NoHeadLeft(r: Rule, s: seq<char>)
    requires r.tails == [[]] && FindMatch(r, s).None?
    ensures Count(s, r.head) == 0
  {
    HeadIsMatch(r, s);
    FindMatchEarliest(r, s);
  }

  /**
    The occurrences of the head in a text are the one a match of an empty
    alternative begins with and those after the match.
   */
  lemma CountAtMatch(r: Rule, s: seq<char>, m: Match)
    requires r.tails == [[]] && FindMatch(r, s) == Some(m)
    requires Unbordered(r.head)
    ensures Count(s, r.head) == 1 + Count(s[End(r, m)..], r.head)
  {
    FirstHeadOfMatch(r, s, m);
    assert End(r, m) == m.start + |r.head| by {
      EmptyTailRun(r, s);
    }
    CountFirst(s, r.head, m.start);
  }

  /** With an empty alternative, a match begins at the first occurrence of the head. */
  lemma FirstHeadOfMatch(r: Rule, s: seq<char>, m: Match)
    requires r.tails == [[]] && FindMatch(r, s) == Some(m)
    ensures OccursAt(s, m.start, r.head) && forall k :: 0 <= k < m.start ==> !OccursAt(s, k, r.head)
  {
    MatchFacts(r, s, m);
    HeadIsMatch(r, s);
    FindMatchEarliest(r, s);
  }

  /**
    With an empty alternative, every replacement of a whole-match rule swaps one
    occurrence of the head for the replacement text.
   */
  lemma {:induction false} WholeSwaps(r: Rule, s: seq<char>)
    requires r.repl.Whole? && r.tails == [[]]
    ensures forall p :: p in Script(r, s) && p.Swap? ==> p == Swap(r.head, r.repl.text)
    decreases |s|
  {
    match FindMatch(r, s)
    case None =>
    case Some(m) =>
      ScriptStep(r, s, m);
      EmptyTailRun(r, s);
      assert r.head + m.inner + m.tail == r.head;
      WholeSwaps(r, s[End(r, m)..]);
  }

  /** A whole-match replacement by the head itself, with an empty alternative, changes nothing. */
  lemma ApplyIdle(r: Rule, s: seq<char>)
    requires r.repl == Whole(r.head) && r.tails == [[]]
    ensures Apply(r, s) == s
  {
    WholeSwaps(r, s);
    IdleSwaps(Script(r, s));
    ScriptSource(r, s);
  }

  /**
    An enclosing pass only inserts: its edit script keeps every character of the
    input and adds nothing but its opening and closing texts.
   */
  lemma {:induction false} EncloseInsertsOnly(r: Rule, s: seq<char>)
    requires r.repl.Enclose?
    ensures forall p :: p in Script(r, s) ==>
              p.Keep? || (p.before == [] && (p.after == r.repl.open || p.after == r.repl.close))
    decreases |s|
  {
    match FindMatch(r, s)
    case None =>
    case Some(m) =>
      ScriptStep(r, s, m);
      EncloseInsertsOnly(r, s[End(r, m)..]);
  }

  /** Each match of an enclosing pass inserts its opening text once and its closing text once. */
  lemma {:induction false} EnclosePerMatch(r: Rule, s: seq<char>)
    requires r.repl.Enclose? && r.repl.open != r.repl.close
    ensures multiset(Script(r, s))[Swap([], r.repl.open)] == Matches(r, s)
    ensures multiset(Script(r, s))[Swap([], r.repl.close)] == Matches(r, s)
    decreases |s|
  {
    match FindMatch(r, s)
    case None =>
      EncloseNoMatch(r, s);
    case Some(m) =>
      ScriptStep(r, s, m);
      EnclosePerMatch(r, s[End(r, m)..]);
      EncloseCountStep(r, s, m, Swap([], r.repl.open));
      EncloseCountStep(r, s, m, Swap([], r.repl.close));
  }

  /** A pass that finds no match inserts nothing. */
  lemma EncloseNoMatch(r: Rule, s: seq<char>)
    requires r.repl.Enclose? && FindMatch(r, s).None?
    ensures multiset(Script(r, s))[Swap([], r.repl.open)] == 0 == Matches(r, s)
    ensures multiset(Script(r, s))[Swap([], r.repl.close)] == 0
  {
    assert Script(r, s) == Keeps(s);
    assert Swap([], r.repl.open) !in Keeps(s) && Swap([], r.repl.close) !in Keeps(s);
  }

  lemma EncloseCountStep(r: Rule, s: seq<char>, m: Match, p: Piece)
    requires r.repl.Enclose? && r.repl.open != r.repl.close && FindMatch(r, s) == Some(m)
    requires p == Swap([], r.repl.open) || p == Swap([], r.repl.close)
    ensures multiset(Script(r, s))[p] == 1 + multiset(Script(r, s[End(r, m)..]))[p]
  {
    var a := Keeps(s[..m.start]);
    var w := Rewrite(r, m.inner, m.tail);
    var b := Script(r, s[End(r, m)..]);
    ScriptStep(r, s, m);
    EncloseCounts(r, m.inner, m.tail);
    assert p !in a;
    assert multiset(a + w + b) == multiset(a) + multiset(w) + multiset(b);
  }

  /** One enclosing replacement inserts the opening text once and the closing text once. */
  lemma EncloseCounts(r: Rule, inner: seq<char>, tail: seq<char>)
    requires r.repl.Enclose? && r.repl.open != r.repl.close
    ensures multiset(Rewrite(r, inner, tail))[Swap([], r.repl.open)] == 1
    ensures multiset(Rewrite(r, inner, tail))[Swap([], r.repl.close)] == 1
  {
    var o := Swap([], r.repl.open);
    var c := Swap([], r.repl.close);
    var k1, k2, k3 := Keeps(r.head), Keeps(inner), Keeps(tail);
    assert o !in k1 && o !in k2 && o !in k3;
    assert c !in k1 && c !in k2 && c !in k3;
    assert Rewrite(r, inner, tail) == k1 + [o] + k2 + [c] + k3;
  }
}
