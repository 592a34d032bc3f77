/** Emergent categories for the files the keyword pass left over
    (books_catigory2.py, lines 63-81): a word is common when at least two
    deferred files have it, and a deferred file is named after the sorted,
    space-joined set of its common words. */
module Cluster {
  import opened Options
  import opened Text
  import opened StringOrder
  import opened Filenames

  /** The word sets of the deferred files, one per file, in order. */
  function WordSets(ds: seq<Path>): (r: seq<set<string>>)
    ensures |r| == |ds| && forall i :: 0 <= i < |ds| ==> r[i] == Words(ds[i].name)
  {
    seq(|ds|, i requires 0 <= i < |ds| => Words(ds[i].name))
  }

  /** What Counter.update(words) accumulates over the word sets ws: each
      file adds one for every distinct word of its name. */
  function DocCount(ws: seq<set<string>>, t: string): (r: nat)
    ensures r <= |ws|
  {
    if ws == [] then 0
    else DocCount(ws[..|ws| - 1], t) + (if t in ws[|ws| - 1] then 1 else 0)
  }

  /** Every word of some file: the keys the counter ends up with. */
  function AllWords(ws: seq<set<string>>): (r: set<string>)
    ensures forall i :: 0 <= i < |ws| ==> ws[i] <= r
  {
    if ws == [] then {}
    else AllWords(ws[..|ws| - 1]) + ws[|ws| - 1]
  }

  /** common_words: the words counted at least twice. */
  function Common(ws: seq<set<string>>): set<string> {
    set t | t in AllWords(ws) && DocCount(ws, t) >= 2
  }

  /** A word is counted at least once exactly when some file has it. */
  lemma {:induction false} CountedOnce(ws: seq<set<string>>, t: string)
    ensures DocCount(ws, t) >= 1 <==> exists i :: 0 <= i < |ws| && t in ws[i]
    decreases |ws|
  {
    if ws != [] {
      var n := |ws| - 1;
      var pre := ws[..n];
      CountedOnce(pre, t);
      if DocCount(pre, t) >= 1 {
        var i :| 0 <= i < |pre| && t in pre[i];
        assert ws[i] == pre[i];
      }
      if exists i :: 0 <= i < |ws| && t in ws[i] {
        var i :| 0 <= i < |ws| && t in ws[i];
        if i < n {
          assert pre[i] == ws[i];
        }
      }
    }
  }

  /** Two different files have the word t. */
  ghost predicate TwoHolders(ws: seq<set<string>>, t: string) {
    exists i, j :: 0 <= i < j < |ws| && t in ws[i] && t in ws[j]
  }

  lemma {:induction false} CountedTwiceHolders(ws: seq<set<string>>, t: string)
    requires DocCount(ws, t) >= 2
    ensures TwoHolders(ws, t)
    decreases |ws|
  {
    var n := |ws| - 1;
    var pre := ws[..n];
    if t in ws[n] {
      CountedOnce(pre, t);
      var i :| 0 <= i < |pre| && t in pre[i];
      assert ws[i] == pre[i];
    } else {
      CountedTwiceHolders(pre, t);
      var i, j :| 0 <= i < j < |pre| && t in pre[i] && t in pre[j];
      assert ws[i] == pre[i] && ws[j] == pre[j];
    }
  }

  lemma {:induction false} HoldersCountedTwice(ws: seq<set<string>>, t: string)
    requires TwoHolders(ws, t)
    ensures DocCount(ws, t) >= 2
    decreases |ws|
  {
    var n := |ws| - 1;
    var pre := ws[..n];
    var i, j :| 0 <= i < j < |ws| && t in ws[i] && t in ws[j];
    assert pre[i] == ws[i];
    if j < n {
      assert pre[j] == ws[j];
      HoldersCountedTwice(pre, t);
    } else {
      CountedOnce(pre, t);
    }
  }

  /** A word is common exactly when two different files have it. */
  lemma CommonIff(ws: seq<set<string>>, t: string)
    ensures t in Common(ws) <==> TwoHolders(ws, t)
  {
    if TwoHolders(ws, t) {
      HoldersCountedTwice(ws, t);
      var i, j :| 0 <= i < j < |ws| && t in ws[i] && t in ws[j];
      assert t in AllWords(ws);
    }
    if t in Common(ws) {
      CountedTwiceHolders(ws, t);
    }
  }

  /** A word repeated inside one file name is still counted once, so a
      single deferred file never makes a word common. */
  lemma SingleFileNoCommon(p: Path)
    ensures Common(WordSets([p])) == {}
  {
  }

  /** The tokens of ts that are in c, in their order. */
  function Keep(ts: seq<string>, c: set<string>): (r: seq<string>)
    ensures Elems(r) == Elems(ts) * c
  {
    if ts == [] then []
    else
      var pre := ts[..|ts| - 1];
      var last := ts[|ts| - 1];
      assert Elems(ts) == Elems(pre) + {last} by {
        assert ts == pre + [last];
      }
      if last in c then
        assert Elems(Keep(pre, c) + [last]) == Elems(Keep(pre, c)) + {last};
        Keep(pre, c) + [last]
      else Keep(pre, c)
  }

  /** sorted(words & common) as a list: the common words of one file name,
      each once, in increasing order. */
  function SharedWords(c: set<string>, name: string): (r: seq<string>)
    ensures StrictlySorted(r) && Elems(r) == Words(name) * c
  {
    SortedDistinct(Keep(Tokens(name), c))
  }

  /** The emergent category of a deferred file, or None when it shares no
      common word (the file is then left out of the result). */
  function ClusterName(c: set<string>, name: string): (r: Option<string>)
    ensures r.Some? <==> Words(name) * c != {}
  {
    var s := SharedWords(c, name);
    if s == [] then
      assert Elems(s) == {};
      None
    else
      assert s[0] in Elems(s);
      Some(Join(s))
  }

  /** The words of a shared list are real tokens: non-empty and space-free. */
  lemma SharedWordsAreTokens(c: set<string>, name: string)
    ensures forall t :: t in SharedWords(c, name) ==> t != [] && NoSpace(t) && NoUpper(t)
  {
    forall t | t in SharedWords(c, name) ensures t != [] && NoSpace(t) && NoUpper(t) {
      assert t in Elems(SharedWords(c, name));
      assert t in Words(name);
    }
  }

  /** The emergent name is the space-joined listing, in increasing order, of
      exactly the common words of the file: splitting it gives them back. */
  lemma ClusterNameMeaning(c: set<string>, name: string)
    requires ClusterName(c, name).Some?
    ensures StrictlySorted(Split(ClusterName(c, name).value))
    ensures Elems(Split(ClusterName(c, name).value)) == Words(name) * c
  {
    SharedWordsAreTokens(c, name);
    SplitJoin(SharedWords(c, name));
  }

  /** Any strictly sorted listing of the common words of a file joins to its
      emergent name: the name depends on the set alone. */
  lemma ClusterNameOfListing(c: set<string>, name: string, ss: seq<string>)
    requires StrictlySorted(ss) && Elems(ss) == Words(name) * c
    ensures ClusterName(c, name) == if ss == [] then None else Some(Join(ss))
  {
    SortedUnique(ss, SharedWords(c, name));
  }

  /** Two deferred files with a common word land in the same emergent
      category exactly when they have the same common words. */
  lemma SameCluster(c: set<string>, n1: string, n2: string)
    requires ClusterName(c, n1).Some?
    ensures ClusterName(c, n1) == ClusterName(c, n2) <==> Words(n1) * c == Words(n2) * c
  {
    SharedWordsAreTokens(c, n1);
    SharedWordsAreTokens(c, n2);
    SplitJoin(SharedWords(c, n1));
    SplitJoin(SharedWords(c, n2));
    if Words(n1) * c == Words(n2) * c {
      SortedUnique(SharedWords(c, n1), SharedWords(c, n2));
    }
  }

  /** An emergent name is never empty and holds no upper-case letter, so it
      differs from every static category name. */
  lemma ClusterNameEmergent(c: set<string>, name: string)
    requires ClusterName(c, name).Some?
    ensures ClusterName(c, name).value != [] && NoUpper(ClusterName(c, name).value)
  {
    var s := SharedWords(c, name);
    SharedWordsAreTokens(c, name);
    JoinNoUpper(s);
    assert s[0] in s;
    JoinStartsWith(s);
  }
}
