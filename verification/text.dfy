/** Character and string operations the classifier relies on: lower-casing,
    separator normalisation, Python's argument-less str.split() and the
    " ".join(...) that names emergent categories. */
module Text {

  /** The characters for which Python's str.isspace() holds; str.split()
      with no argument breaks on runs of these. */
  predicate IsSpace(c: char) {
    c == ' ' || ('\t' <= c <= '\r') || ('\U{1C}' <= c <= '\U{1F}') ||
    c == '\U{85}' || c == '\U{A0}' || c == '\U{1680}' ||
    ('\U{2000}' <= c <= '\U{200A}') || c == '\U{2028}' || c == '\U{2029}' ||
    c == '\U{202F}' || c == '\U{205F}' || c == '\U{3000}'
  }

  predicate NoSpace(s: string) {
    forall i :: 0 <= i < |s| ==> !IsSpace(s[i])
  }

  predicate IsUpper(c: char) {
    'A' <= c <= 'Z'
  }

  predicate NoUpper(s: string) {
    forall i :: 0 <= i < |s| ==> !IsUpper(s[i])
  }

  function LowerChar(c: char): char {
    if IsUpper(c) then (c as int + 32) as char else c
  }

  /** str.lower() on the ASCII letters; every other character is kept. */
  function Lower(s: string): (r: string)
    ensures |r| == |s| && NoUpper(r)
    ensures forall i :: 0 <= i < |s| ==> r[i] == LowerChar(s[i])
  {
    seq(|s|, i requires 0 <= i < |s| => LowerChar(s[i]))
  }

  predicate StartsWith(s: string, prefix: string) {
    |prefix| <= |s| && s[..|prefix|] == prefix
  }

  predicate EndsWith(s: string, suffix: string) {
    |suffix| <= |s| && s[|s| - |suffix|..] == suffix
  }

  /** s.replace("_", " ").replace("-", " "): both separators become a space,
      every other character is left where it was. */
  function Normalize(s: string): (r: string)
    ensures |r| == |s|
    ensures forall i :: 0 <= i < |s| ==>
      (s[i] == '_' || s[i] == '-' ==> r[i] == ' ') &&
      (s[i] != '_' && s[i] != '-' ==> r[i] == s[i])
  {
    seq(|s|, i requires 0 <= i < |s| => if s[i] == '_' || s[i] == '-' then ' ' else s[i])
  }

  /** The word being built, emitted when it is not empty. */
  function Flush(cur: string): seq<string> {
    if cur == [] then [] else [cur]
  }

  /** Splitting with `cur` holding the characters of the word read so far. */
  function SplitAcc(s: string, cur: string): (r: seq<string>)
    requires NoSpace(cur)
    ensures forall t :: t in r ==> t != [] && NoSpace(t)
    ensures NoUpper(s) && NoUpper(cur) ==> forall t :: t in r ==> NoUpper(t)
    decreases |s|
  {
    if s == [] then Flush(cur)
    else if IsSpace(s[0]) then Flush(cur) + SplitAcc(s[1..], [])
    else SplitAcc(s[1..], cur + [s[0]])
  }

  /** str.split() with no argument: the maximal runs of non-space characters,
      in order; no token is empty and no token holds a space. */
  function Split(s: string): (r: seq<string>)
    ensures forall t :: t in r ==> t != [] && NoSpace(t)
    ensures NoUpper(s) ==> forall t :: t in r ==> NoUpper(t)
  {
    SplitAcc(s, [])
  }

  /** " ".join(ts) */
  function Join(ts: seq<string>): string {
    if ts == [] then []
    else if |ts| == 1 then ts[0]
    else ts[0] + [' '] + Join(ts[1..])
  }

  /** A word without spaces is one token, appended to what was being read. */
  lemma {:induction false} SplitAccWord(w: string, cur: string)
    requires NoSpace(cur) && NoSpace(w)
    ensures SplitAcc(w, cur) == Flush(cur + w)
    decreases |w|
  {
    if w == [] {
      assert cur + w == cur;
    } else {
      assert !IsSpace(w[0]);
      SplitAccWord(w[1..], cur + [w[0]]);
      assert cur + [w[0]] + w[1..] == cur + w;
    }
  }

  /** A non-empty word without spaces splits into exactly itself. */
  lemma SplitWord(w: string)
    requires w != [] && NoSpace(w)
    ensures Split(w) == [w]
  {
    SplitAccWord(w, []);
    assert [] + w == w;
  }

  /** A space cuts the string in two halves that are split independently. */
  lemma {:induction false} SplitAccAtSpace(a: string, c: char, b: string, cur: string)
    requires NoSpace(cur) && IsSpace(c)
    ensures SplitAcc(a + [c] + b, cur) == SplitAcc(a, cur) + Split(b)
    decreases |a|
  {
    if a == [] {
      assert a + [c] + b == [c] + b;
      assert ([c] + b)[1..] == b;
    } else {
      assert (a + [c] + b)[0] == a[0];
      assert (a + [c] + b)[1..] == a[1..] + [c] + b;
      if IsSpace(a[0]) {
        SplitAccAtSpace(a[1..], c, b, []);
      } else {
        SplitAccAtSpace(a[1..], c, b, cur + [a[0]]);
      }
    }
  }

  lemma SplitAtSpace(a: string, c: char, b: string)
    requires IsSpace(c)
    ensures Split(a + [c] + b) == Split(a) + Split(b)
  {
    SplitAccAtSpace(a, c, b, []);
  }

  /** Lower-casing works character by character, so it distributes over
      concatenation. */
  lemma LowerConcat(a: string, b: string)
    ensures Lower(a + b) == Lower(a) + Lower(b)
  {
    assert forall i :: 0 <= i < |a + b| ==> Lower(a + b)[i] == (Lower(a) + Lower(b))[i];
  }

  /** Separator normalisation works character by character, so it
      distributes over concatenation. */
  lemma NormalizeConcat(a: string, b: string)
    ensures Normalize(a + b) == Normalize(a) + Normalize(b)
  {
    assert forall i :: 0 <= i < |a + b| ==> Normalize(a + b)[i] == (Normalize(a) + Normalize(b))[i];
  }

  /** What the two replace calls are for: an underscore or a hyphen
      separates words exactly as a space does. */
  lemma SeparatorSplits(a: string, c: char, b: string)
    requires c == '_' || c == '-'
    ensures Split(Normalize(a + [c] + b)) == Split(Normalize(a)) + Split(Normalize(b))
  {
    NormalizeConcat(a + [c], b);
    NormalizeConcat(a, [c]);
    assert Normalize([c]) == [' '];
    SplitAtSpace(Normalize(a), ' ', Normalize(b));
  }

  /** A string that ends in a non-empty run of non-space characters `w` has a
      last token, and that token ends in `w`. */
  lemma {:induction false} SplitAccEndsWith(a: string, w: string, cur: string)
    requires NoSpace(cur) && w != [] && NoSpace(w)
    ensures SplitAcc(a + w, cur) != []
    ensures EndsWith(SplitAcc(a + w, cur)[|SplitAcc(a + w, cur)| - 1], w)
    decreases |a|
  {
    if a == [] {
      assert a + w == w;
      SplitAccWord(w, cur);
      assert (cur + w)[|cur + w| - |w|..] == w;
    } else {
      assert (a + w)[0] == a[0];
      assert (a + w)[1..] == a[1..] + w;
      if IsSpace(a[0]) {
        SplitAccEndsWith(a[1..], w, []);
      } else {
        SplitAccEndsWith(a[1..], w, cur + [a[0]]);
      }
    }
  }

  /** A string ending in a non-empty space-free `w` has a last token, and
      that token ends in `w`. */
  lemma SplitEndsWith(s: string, w: string)
    requires EndsWith(s, w) && w != [] && NoSpace(w)
    ensures Split(s) != [] && EndsWith(Split(s)[|Split(s)| - 1], w)
  {
    var a := s[..|s| - |w|];
    assert s == a + w;
    SplitAccEndsWith(a, w, []);
  }

  /** Round trip: splitting a space-joined list of space-free, non-empty
      tokens gives the list back. */
  lemma {:induction false} SplitJoin(ts: seq<string>)
    requires forall t :: t in ts ==> t != [] && NoSpace(t)
    ensures Split(Join(ts)) == ts
    decreases |ts|
  {
    if ts == [] {
    } else if |ts| == 1 {
      assert ts[0] in ts;
      SplitWord(ts[0]);
    } else {
      assert ts[0] in ts;
      assert forall t :: t in ts[1..] ==> t in ts;
      SplitJoin(ts[1..]);
      SplitAtSpace(ts[0], ' ', Join(ts[1..]));
      SplitWord(ts[0]);
    }
  }

  /** Joining tokens with spaces introduces no upper-case letter. */
  lemma {:induction false} JoinNoUpper(ts: seq<string>)
    requires forall t :: t in ts ==> NoUpper(t)
    ensures NoUpper(Join(ts))
    decreases |ts|
  {
    if |ts| == 1 {
      assert ts[0] in ts;
    } else if |ts| > 1 {
      assert ts[0] in ts;
      assert forall t :: t in ts[1..] ==> t in ts;
      JoinNoUpper(ts[1..]);
      var j := Join(ts[1..]);
      assert Join(ts) == ts[0] + [' '] + j;
      forall i | 0 <= i < |Join(ts)| ensures !IsUpper(Join(ts)[i]) {
        if i < |ts[0]| {
          assert Join(ts)[i] == ts[0][i];
        } else if i > |ts[0]| {
          assert Join(ts)[i] == j[i - |ts[0]| - 1];
        }
      }
    }
  }

  /** Joining a non-empty list of non-empty tokens gives a non-empty string
      that starts with the first token. */
  lemma JoinStartsWith(ts: seq<string>)
    requires ts != [] && ts[0] != []
    ensures Join(ts) != [] && Join(ts)[0] == ts[0][0]
  {
  }
}
