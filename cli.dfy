/**
  The output file name chosen in `__main__` (mkdoc.py:93-96): the `-o` value
  when it is given and non-empty, otherwise the input path up to its first dot
  followed by `.html`. `rsplit(".")` without a limit splits at every dot, so
  its first element ends at the first dot of the whole path, directories included.
 */
module Cli {
  import opened Wrappers

  const HtmlSuffix: seq<char> := ".html"

  /** `path.rsplit(".")[0]`: the longest prefix without a dot. */
  function Stem(path: seq<char>): (p: seq<char>)
    ensures p <= path
    ensures '.' !in p
    ensures |p| < |path| ==> path[|p|] == '.'
  {
    if |path| == 0 || path[0] == '.' then [] else [path[0]] + Stem(path[1..])
  }

  /** The prefix without a dot that ends at a dot or at the end is unique: it is `Stem(path)`. */
  lemma {:induction false} StemUnique(path: seq<char>, p: seq<char>)
    requires p <= path && '.' !in p
    requires |p| < |path| ==> path[|p|] == '.'
    ensures p == Stem(path)
  {
    if |path| > 0 && path[0] != '.' {
      assert |p| > 0 && p[0] == path[0];
      StemUnique(path[1..], p[1..]);
    }
  }

  /** A path without a dot is its own stem. */
  lemma StemWithoutDot(path: seq<char>)
    requires '.' !in path
    ensures Stem(path) == path
  {
    StemUnique(path, path);
  }

  /** The stem of `a + "." + b` is the stem of `a`: everything from the first dot on is dropped. */
  lemma StemAtFirstDot(a: seq<char>, b: seq<char>)
    requires '.' !in a
    ensures Stem(a + "." + b) == a
  {
    StemUnique(a + "." + b, a);
  }

  /**
    The output path (mkdoc.py:93-96). `output` is the `-o` option, `None` when
    it is absent; an empty value counts as absent, as Python's truth test does.
   */
  function OutputPath(input: seq<char>, output: Option<seq<char>>): (r: seq<char>)
    ensures output.Some? && output.value != [] ==> r == output.value
    ensures (output.None? || output.value == []) ==>
      |r| >= |HtmlSuffix| && r[|r| - |HtmlSuffix|..] == HtmlSuffix && r[..|r| - |HtmlSuffix|] == Stem(input)
  {
    if output.Some? && output.value != [] then output.value else Stem(input) + HtmlSuffix
  }

  /** The default output is the input's name before its first dot, with `.html` appended. */
  lemma DefaultOutput(a: seq<char>, b: seq<char>)
    requires '.' !in a
    ensures OutputPath(a + "." + b, None) == a + ".html"
    ensures OutputPath(a + "." + b, Some([])) == a + ".html"
  {
    StemAtFirstDot(a, b);
  }

  /** `notes.md` gives `notes.html`. */
  lemma OutputNotes()
    ensures OutputPath("notes.md", None) == "notes.html"
  {
    assert "notes.md" == "notes" + "." + "md";
    DefaultOutput("notes", "md");
  }

  /** `a.b.md` gives `a.html`. */
  lemma OutputTwoDots()
    ensures OutputPath("a.b.md", None) == "a.html"
  {
    assert "a.b.md" == "a" + "." + "b.md";
    DefaultOutput("a", "b.md");
  }

  /** `README` gives `README.html`. */
  lemma OutputNoDot()
    ensures OutputPath("README", None) == "README.html"
  {
    StemWithoutDot("README");
  }

  /** `./x.md` gives `.html`: the dot of the directory counts too. */
  lemma OutputDotDirectory()
    ensures OutputPath("./x.md", None) == ".html"
  {
    assert "./x.md" == [] + "." + "/x.md";
    DefaultOutput([], "/x.md");
  }
}
