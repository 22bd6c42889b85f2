/**
  Edit scripts. A rewriting pass over a text is recorded as a sequence of pieces:
  a character kept as it is, or a run of text swapped for another. `Source` reads
  the script as the text before the pass and `Target` as the text after it, so a
  pass that returns `Target(es)` with `Source(es)` equal to its input changes
  nothing but the swapped runs.
 */
module Edits {

  datatype Piece = Keep(c: char) | Swap(before: seq<char>, after: seq<char>)

  /** The text the script was read from; a script of kept characters reads one character per piece. */
  function Source(es: seq<Piece>): (s: seq<char>)
    ensures (forall p :: p in es ==> p.Keep?) ==> |s| == |es|
  {
    if |es| == 0 then []
    else
      (match es[0]
       case Keep(c) => [c]
       case Swap(before, _) => before) + Source(es[1..])
  }

  /** The text the script writes; a script of kept characters writes one character per piece. */
  function Target(es: seq<Piece>): (s: seq<char>)
    ensures (forall p :: p in es ==> p.Keep?) ==> |s| == |es|
  {
    if |es| == 0 then []
    else
      (match es[0]
       case Keep(c) => [c]
       case Swap(_, after) => after) + Target(es[1..])
  }

  /** The script that keeps every character of `s`. */
  function Keeps(s: seq<char>): (es: seq<Piece>)
    ensures |es| == |s|
    ensures forall p :: p in es ==> p.Keep?
  {
    if |s| == 0 then [] else [Keep(s[0])] + Keeps(s[1..])
  }

  lemma {:induction false} SourceAppend(a: seq<Piece>, b: seq<Piece>)
    ensures Source(a + b) == Source(a) + Source(b)
    decreases |a|
  {
    if |a| > 0 {
      assert (a + b)[0] == a[0] && (a + b)[1..] == a[1..] + b;
      SourceAppend(a[1..], b);
    } else {
      assert a + b == b;
    }
  }

  lemma {:induction false} TargetAppend(a: seq<Piece>, b: seq<Piece>)
    ensures Target(a + b) == Target(a) + Target(b)
    decreases |a|
  {
    if |a| > 0 {
      assert (a + b)[0] == a[0] && (a + b)[1..] == a[1..] + b;
      TargetAppend(a[1..], b);
    } else {
      assert a + b == b;
    }
  }

  /** A script of kept characters reads and writes the same text. */
  lemma {:induction false} KeepsText(s: seq<char>)
    ensures Source(Keeps(s)) == s && Target(Keeps(s)) == s
    decreases |s|
  {
    if |s| > 0 {
      KeepsText(s[1..]);
    }
  }

  /** A script whose every swap writes back what it read changes nothing. */
  lemma {:induction false} IdleSwaps(es: seq<Piece>)
    requires forall p :: p in es && p.Swap? ==> p.before == p.after
    ensures Target(es) == Source(es)
    decreases |es|
  {
    if |es| > 0 {
      assert es[0] in es;
      assert forall p :: p in es[1..] ==> p in es;
      IdleSwaps(es[1..]);
    }
  }
}
