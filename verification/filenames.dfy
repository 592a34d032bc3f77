/** Which walked files the classifier looks at, and the words it reads out of
    a file name (books_catigory2.py, lines 45-51). */
module Filenames {
  import opened Text
  import opened StringOrder

  /** A walked file: the directory it was found in, as a list of path
      components, and its file name. os.path.join(root, file) is this pair. */
  datatype Path = Path(dir: seq<string>, name: string)

  /** The file is kept when its lower-cased name ends in ".pdf" and its own
      name does not start with "." (a hidden file). */
  predicate IsCandidate(name: string) {
    EndsWith(Lower(name), ".pdf") && !StartsWith(name, ".")
  }

  /** file.lower().replace("_", " ").replace("-", " ").split() */
  function Tokens(name: string): (r: seq<string>)
    ensures forall t :: t in r ==> t != [] && NoSpace(t) && NoUpper(t)
  {
    var s := Normalize(Lower(name));
    assert NoUpper(s);
    Split(s)
  }

  /** set(Tokens(name)): the words of a file, each counted once. */
  function Words(name: string): set<string> {
    Elems(Tokens(name))
  }

  /** An underscore or a hyphen in a file name separates its words: the
      tokens of the name are those of the part before it, then those of the
      part after it. */
  lemma SeparatorSplitsTokens(a: string, c: char, b: string)
    requires c == '_' || c == '-'
    ensures Tokens(a + [c] + b) == Tokens(a) + Tokens(b)
  {
    LowerConcat(a + [c], b);
    LowerConcat(a, [c]);
    assert Lower([c]) == [c];
    SeparatorSplits(Lower(a), c, Lower(b));
  }

  /** No word of any file name contains whitespace, so a trigger phrase made of
      several words can never be one of its words. */
  lemma NoWordHasSpace(name: string, phrase: string)
    requires exists i :: 0 <= i < |phrase| && IsSpace(phrase[i])
    ensures phrase !in Words(name)
  {
  }

  /** Replacing separators by spaces leaves a ".pdf" ending in place. */
  lemma NormalizeKeepsPdf(l: string)
    requires EndsWith(l, ".pdf")
    ensures EndsWith(Normalize(l), ".pdf")
  {
    var s := Normalize(l);
    var n := |l| - 4;
    forall i | 0 <= i < 4 ensures s[n + i] == ".pdf"[i] {
      assert l[n + i] == l[n..][i];
    }
  }

  /** For a kept file the ".pdf" extension stays attached to the last word:
      the file name's final token ends in ".pdf" rather than being split off. */
  lemma LastTokenKeepsExtension(name: string)
    requires IsCandidate(name)
    ensures Tokens(name) != []
    ensures EndsWith(Tokens(name)[|Tokens(name)| - 1], ".pdf")
  {
    NormalizeKeepsPdf(Lower(name));
    assert NoSpace(".pdf");
    SplitEndsWith(Normalize(Lower(name)), ".pdf");
  }

  /** The file "ai.pdf" has the single word "ai.pdf", not "ai". */
  lemma AiPdfWords()
    ensures Words("ai.pdf") == {"ai.pdf"}
    ensures "ai" !in Words("ai.pdf")
  {
    var s := Normalize(Lower("ai.pdf"));
    assert s == "ai.pdf";
    SplitWord(s);
  }
}
