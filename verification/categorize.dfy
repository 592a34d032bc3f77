/** categorize_books (books_catigory2.py, lines 38-87): the keyword pass
    over the walked files, the word count over the files it left over, the
    grouping of those files into emergent categories, and the merge of the
    emergent categories into the result. */
module Categorize {
  import opened Options
  import opened Text
  import opened StringOrder
  import opened Filenames
  import opened Tables
  import opened Classify
  import opened Cluster
  import opened Dicts

  /** The three ways a file is given a bucket key: by the keyword pass, by
      the clustering of deferred files over the common words `common`, and
      the place it has in the final result. */
  datatype KeyFn = ByKeyword | ByCluster(common: set<string>) | Final(common: set<string>)

  function KeyOf(f: KeyFn, p: Path): Option<string> {
    match f
      case ByKeyword => if IsCandidate(p.name) then Category(p.name) else None
      case ByCluster(c) => ClusterName(c, p.name)
      case Final(c) =>
        if !IsCandidate(p.name) then None
        else if Category(p.name).Some? then Category(p.name)
        else ClusterName(c, p.name)
  }

  /** The files of ps that f sends to key k, in the order of ps. */
  function Select(ps: seq<Path>, f: KeyFn, k: string): (r: seq<Path>)
    ensures forall p :: p in r <==> p in ps && KeyOf(f, p) == Some(k)
  {
    if ps == [] then []
    else
      var pre := ps[..|ps| - 1];
      var p := ps[|ps| - 1];
      assert forall q :: q in ps <==> q in pre || q == p by {
        assert ps == pre + [p];
      }
      if KeyOf(f, p) == Some(k) then Select(pre, f, k) + [p] else Select(pre, f, k)
  }

  /** The defaultdict(list) built by appending every file of ps that f
      gives a key to the list under that key, in the order of ps. */
  function Group(ps: seq<Path>, f: KeyFn): Buckets<string, Path> {
    if ps == [] then Empty()
    else
      var b := Group(ps[..|ps| - 1], f);
      var p := ps[|ps| - 1];
      match KeyOf(f, p)
        case None => b
        case Some(k) => Append(b, k, p)
  }

  /** uncategorized_books: the kept files no category matched, in walk order. */
  function Deferred(ps: seq<Path>): (r: seq<Path>)
    ensures forall p :: p in r <==> p in ps && IsCandidate(p.name) && Category(p.name).None?
  {
    if ps == [] then []
    else
      var pre := ps[..|ps| - 1];
      var p := ps[|ps| - 1];
      assert forall q :: q in ps <==> q in pre || q == p by {
        assert ps == pre + [p];
      }
      if IsCandidate(p.name) && Category(p.name).None? then Deferred(pre) + [p] else Deferred(pre)
  }

  lemma {:induction false} GroupValid(ps: seq<Path>, f: KeyFn)
    ensures Valid(Group(ps, f))
    decreases |ps|
  {
    if ps != [] {
      GroupValid(ps[..|ps| - 1], f);
      if KeyOf(f, ps[|ps| - 1]).Some? {
        AppendValid(Group(ps[..|ps| - 1], f), KeyOf(f, ps[|ps| - 1]).value, ps[|ps| - 1]);
      }
    }
  }

  /** A grouping holds key k exactly when some file is sent to k, and the
      list under k is the files sent there, in encounter order. */
  lemma {:induction false} GroupAt(ps: seq<Path>, f: KeyFn, k: string)
    ensures k in Group(ps, f).items <==> Select(ps, f, k) != []
    ensures k in Group(ps, f).items ==> Group(ps, f).items[k] == Select(ps, f, k)
    decreases |ps|
  {
    if ps != [] {
      GroupAt(ps[..|ps| - 1], f, k);
    }
  }

  /** The whole of categorize_books: the keyword buckets, then, when some
      file was deferred, the emergent buckets assigned in after them. */
  function Categorize(walk: seq<Path>): Buckets<string, Path> {
    var kb := Group(walk, ByKeyword);
    var ds := Deferred(walk);
    if ds == [] then kb
    else
      var cb := Group(ds, ByCluster(Common(WordSets(ds))));
      GroupValid(ds, ByCluster(Common(WordSets(ds))));
      AssignAll(kb, cb.order, cb.items)
  }

  /** The bucket a walked file ends up in, if any. */
  function Placement(walk: seq<Path>, p: Path): Option<string> {
    KeyOf(Final(Common(WordSets(Deferred(walk)))), p)
  }

  /** A static name is never emergent: static names start with a capital. */
  lemma StaticNotEmergent(name: string)
    requires Category(name).Some?
    ensures !NoUpper(Category(name).value)
  {
    CategoryCapitalised(name);
  }

  /** No file is sent by the keyword pass to a name without capitals. */
  lemma KeywordSelectEmergent(ps: seq<Path>, k: string)
    requires NoUpper(k)
    ensures Select(ps, ByKeyword, k) == []
  {
    if Select(ps, ByKeyword, k) != [] {
      var p := Select(ps, ByKeyword, k)[0];
      assert p in Select(ps, ByKeyword, k);
      StaticNotEmergent(p.name);
    }
  }

  /** No file is sent by the clustering to a name with a capital. */
  lemma ClusterSelectStatic(ps: seq<Path>, c: set<string>, k: string)
    requires !NoUpper(k)
    ensures Select(ps, ByCluster(c), k) == []
  {
    if Select(ps, ByCluster(c), k) != [] {
      var p := Select(ps, ByCluster(c), k)[0];
      assert p in Select(ps, ByCluster(c), k);
      ClusterNameEmergent(c, p.name);
    }
  }

  /** Under a name with a capital, the final result holds what the keyword
      pass put there. */
  lemma {:induction false} FinalStatic(ps: seq<Path>, c: set<string>, k: string)
    requires !NoUpper(k)
    ensures Select(ps, Final(c), k) == Select(ps, ByKeyword, k)
    decreases |ps|
  {
    if ps != [] {
      var p := ps[|ps| - 1];
      FinalStatic(ps[..|ps| - 1], c, k);
      if IsCandidate(p.name) && Category(p.name).None? && ClusterName(c, p.name).Some? {
        ClusterNameEmergent(c, p.name);
      }
    }
  }

  /** Under a name without capitals, the final result holds what the
      clustering of the deferred files put there. */
  lemma {:induction false} FinalEmergent(ps: seq<Path>, c: set<string>, k: string)
    requires NoUpper(k)
    ensures Select(ps, Final(c), k) == Select(Deferred(ps), ByCluster(c), k)
    decreases |ps|
  {
    if ps != [] {
      var pre := ps[..|ps| - 1];
      var p := ps[|ps| - 1];
      FinalEmergent(pre, c, k);
      if IsCandidate(p.name) && Category(p.name).None? {
        assert (Deferred(pre) + [p])[..|Deferred(pre)|] == Deferred(pre);
      } else if IsCandidate(p.name) {
        StaticNotEmergent(p.name);
      }
    }
  }

  /** What every key of the result holds: exactly the walked files placed
      there, in walk order. */
  lemma CategorizeAt(walk: seq<Path>, k: string)
    ensures k in Categorize(walk).items <==> Select(walk, Final(Common(WordSets(Deferred(walk)))), k) != []
    ensures k in Categorize(walk).items ==>
      Categorize(walk).items[k] == Select(walk, Final(Common(WordSets(Deferred(walk)))), k)
  {
    var ds := Deferred(walk);
    var c := Common(WordSets(ds));
    var kb := Group(walk, ByKeyword);
    var cb := Group(ds, ByCluster(c));
    GroupAt(walk, ByKeyword, k);
    GroupAt(ds, ByCluster(c), k);
    GroupValid(ds, ByCluster(c));
    if NoUpper(k) {
      KeywordSelectEmergent(walk, k);
      FinalEmergent(walk, c, k);
    } else {
      ClusterSelectStatic(ds, c, k);
      FinalStatic(walk, c, k);
    }
    if ds != [] {
      AssignAllAt(kb, cb.order, cb.items, k);
    }
  }

  /** No name is both a keyword bucket and an emergent bucket, so the merge
      overwrites no keyword bucket. */
  lemma KeysDisjoint(walk: seq<Path>)
    ensures forall k :: k in Group(walk, ByKeyword).items ==>
      k !in Group(Deferred(walk), ByCluster(Common(WordSets(Deferred(walk))))).items
  {
    var ds := Deferred(walk);
    forall k | k in Group(walk, ByKeyword).items
      ensures k !in Group(ds, ByCluster(Common(WordSets(ds)))).items
    {
      GroupAt(walk, ByKeyword, k);
      GroupAt(ds, ByCluster(Common(WordSets(ds))), k);
      if NoUpper(k) {
        KeywordSelectEmergent(walk, k);
      } else {
        ClusterSelectStatic(ds, Common(WordSets(ds)), k);
      }
    }
  }

  /** The result is a proper dict whose keys are the keyword buckets in the
      order they were first filled, followed by the emergent buckets in the
      same way. */
  lemma CategorizeOrder(walk: seq<Path>)
    ensures Valid(Categorize(walk))
    ensures Deferred(walk) != [] ==>
              Categorize(walk).order ==
              Group(walk, ByKeyword).order + Group(Deferred(walk), ByCluster(Common(WordSets(Deferred(walk))))).order
  {
    var ds := Deferred(walk);
    GroupValid(walk, ByKeyword);
    GroupValid(ds, ByCluster(Common(WordSets(ds))));
    KeysDisjoint(walk);
    if ds != [] {
      AssignAllDisjoint(Group(walk, ByKeyword), Group(ds, ByCluster(Common(WordSets(ds)))));
    }
  }

  /** Each walked file is in the bucket it is placed in and in no other; a
      file that is not kept, or is deferred and shares no common word, is
      in none. */
  lemma ExactlyOneBucket(walk: seq<Path>, p: Path, k: string)
    ensures (k in Categorize(walk).items && p in Categorize(walk).items[k]) <==>
      p in walk && Placement(walk, p) == Some(k)
  {
    CategorizeAt(walk, k);
  }

  /** A kept file that matches a category is in that category's bucket. */
  lemma KeywordFileKept(walk: seq<Path>, p: Path)
    requires p in walk && IsCandidate(p.name) && Category(p.name).Some?
    ensures Category(p.name).value in Categorize(walk).items
    ensures p in Categorize(walk).items[Category(p.name).value]
  {
    var k := Category(p.name).value;
    assert Placement(walk, p) == Some(k);
    ExactlyOneBucket(walk, p, k);
  }

  /** A file that is not a kept PDF is in no bucket. */
  lemma NonCandidateAbsent(walk: seq<Path>, p: Path, k: string)
    requires !IsCandidate(p.name)
    ensures !(k in Categorize(walk).items && p in Categorize(walk).items[k])
  {
    ExactlyOneBucket(walk, p, k);
  }

  /** After the keyword pass a kept file is either in the bucket of its
      first matching category and in no other, or on the deferred list. */
  lemma KeptOrDeferred(walk: seq<Path>, p: Path, k: string)
    requires p in walk && IsCandidate(p.name)
    ensures p in Deferred(walk) <==> Category(p.name).None?
    ensures (k in Group(walk, ByKeyword).items && p in Group(walk, ByKeyword).items[k]) <==>
            Category(p.name) == Some(k)
  {
    GroupAt(walk, ByKeyword, k);
  }

  /** A deferred file that shares a common word is in the emergent bucket
      named after those words. */
  lemma DeferredFilePlaced(walk: seq<Path>, p: Path)
    requires p in Deferred(walk)
    requires ClusterName(Common(WordSets(Deferred(walk))), p.name).Some?
    ensures ClusterName(Common(WordSets(Deferred(walk))), p.name).value in Categorize(walk).items
    ensures p in Categorize(walk).items[ClusterName(Common(WordSets(Deferred(walk))), p.name).value]
  {
    var k := ClusterName(Common(WordSets(Deferred(walk))), p.name).value;
    assert Placement(walk, p) == Some(k);
    ExactlyOneBucket(walk, p, k);
  }

  /** A deferred file that shares no common word is in no bucket. */
  lemma DeferredFileDropped(walk: seq<Path>, p: Path, k: string)
    requires p in Deferred(walk)
    requires ClusterName(Common(WordSets(Deferred(walk))), p.name).None?
    ensures !(k in Categorize(walk).items && p in Categorize(walk).items[k])
  {
    assert Placement(walk, p).None?;
    ExactlyOneBucket(walk, p, k);
  }

  /** Counter lookup: a missing word counts zero. */
  function Get(counts: map<string, nat>, t: string): nat {
    if t in counts then counts[t] else 0
  }

  /** One walked file that is not a kept PDF changes nothing. */
  lemma SkipStep(walk: seq<Path>, i: nat)
    requires i < |walk| && !IsCandidate(walk[i].name)
    ensures Group(walk[..i + 1], ByKeyword) == Group(walk[..i], ByKeyword)
    ensures Deferred(walk[..i + 1]) == Deferred(walk[..i])
  {
    assert walk[..i + 1][..i] == walk[..i];
  }

  /** One kept file whose words first meet the triggers of entry j is
      appended to the bucket of that category. */
  lemma MatchStep(walk: seq<Path>, i: nat, j: nat)
    requires i < |walk| && IsCandidate(walk[i].name)
    requires FirstMatch(Words(walk[i].name), Categories) == Some(j)
    ensures Group(walk[..i + 1], ByKeyword) == Append(Group(walk[..i], ByKeyword), Categories[j].0, walk[i])
    ensures Deferred(walk[..i + 1]) == Deferred(walk[..i])
  {
    assert walk[..i + 1][..i] == walk[..i];
  }

  /** One kept file that no category matches is deferred. */
  lemma DeferStep(walk: seq<Path>, i: nat)
    requires i < |walk| && IsCandidate(walk[i].name)
    requires FirstMatch(Words(walk[i].name), Categories) == None
    ensures Group(walk[..i + 1], ByKeyword) == Group(walk[..i], ByKeyword)
    ensures Deferred(walk[..i + 1]) == Deferred(walk[..i]) + [walk[i]]
  {
    assert walk[..i + 1][..i] == walk[..i];
  }

  /** One deferred file is appended to the bucket of its emergent name, if
      it has one. */
  lemma ClusterStep(ds: seq<Path>, c: set<string>, i: nat)
    requires i < |ds|
    ensures Group(ds[..i + 1], ByCluster(c)) ==
            match ClusterName(c, ds[i].name)
              case None => Group(ds[..i], ByCluster(c))
              case Some(k) => Append(Group(ds[..i], ByCluster(c)), k, ds[i])
  {
    assert ds[..i + 1][..i] == ds[..i];
  }

  /** Lines 52-58: the scan of CATEGORIES in declaration order that stops
      at the first category whose triggers meet the words. */
  method FindCategory(words: set<string>) returns (categoryFound: bool, j: nat)
    ensures categoryFound ==> FirstMatch(words, Categories) == Some(j)
    ensures !categoryFound ==> FirstMatch(words, Categories) == None
  {
    categoryFound := false;
    j := 0;
    while j < |Categories|
      invariant 0 <= j <= |Categories|
      invariant forall j' :: 0 <= j' < j ==> words * Categories[j'].1 == {}
      invariant !categoryFound
    {
      if words * Categories[j].1 != {} {
        FirstMatchAt(words, Categories, j);
        categoryFound := true;
        return;
      }
      j := j + 1;
    }
  }

  /** Lines 44-61, the body of the walk loop: the kept file walk[i] is
      appended to the first matching category, or to the deferred list. */
  method ClassifyFile(books: Buckets<string, Path>, uncategorized: seq<Path>, ghost walk: seq<Path>, i: nat, p: Path)
    returns (books': Buckets<string, Path>, uncategorized': seq<Path>)
    requires i < |walk| && p == walk[i]
    requires books == Group(walk[..i], ByKeyword) && uncategorized == Deferred(walk[..i])
    ensures books' == Group(walk[..i + 1], ByKeyword)
    ensures uncategorized' == Deferred(walk[..i + 1])
  {
    books', uncategorized' := books, uncategorized;
    if !IsCandidate(p.name) {
      SkipStep(walk, i);
      return;
    }
    var words := Words(p.name);
    var categoryFound, j := FindCategory(words);
    if categoryFound {
      MatchStep(walk, i, j);
      books' := Append(books, Categories[j].0, p);
    } else {
      DeferStep(walk, i);
      uncategorized' := uncategorized + [p];
    }
  }

  /** Lines 42-61: one pass over the walked files, in walk order. */
  method KeywordPass(walk: seq<Path>) returns (books: Buckets<string, Path>, uncategorized: seq<Path>)
    ensures books == Group(walk, ByKeyword)
    ensures uncategorized == Deferred(walk)
  {
    books := Empty();
    uncategorized := [];
    var i := 0;
    while i < |walk|
      invariant 0 <= i <= |walk|
      invariant books == Group(walk[..i], ByKeyword)
      invariant uncategorized == Deferred(walk[..i])
    {
      books, uncategorized := ClassifyFile(books, uncategorized, walk, i, walk[i]);
      i := i + 1;
    }
    assert walk[..i] == walk;
  }

  /** Lines 65-69: how many deferred files have each word. */
  method CountWords(ds: seq<Path>) returns (counts: map<string, nat>)
    ensures forall t :: Get(counts, t) == DocCount(WordSets(ds), t)
  {
    ghost var ws := WordSets(ds);
    counts := map[];
    var i := 0;
    while i < |ds|
      invariant 0 <= i <= |ds|
      invariant forall t :: Get(counts, t) == DocCount(ws[..i], t)
    {
      assert ws[..i + 1][..i] == ws[..i];
      var words := Words(ds[i].name);
      var rest := words;
      while rest != {}
        invariant rest <= words
        invariant forall t ::
                    Get(counts, t) == DocCount(ws[..i], t) + (if t in words && t !in rest then 1 else 0)
        decreases |rest|
      {
        var w :| w in rest;
        counts := counts[w := Get(counts, w) + 1];
        rest := rest - {w};
      }
      i := i + 1;
    }
    assert ws[..i] == ws;
  }

  /** Lines 72-81: each deferred file that has a common word is appended
      to the emergent category named after those words. */
  method ClusterPass(ds: seq<Path>, common: set<string>) returns (newCategories: Buckets<string, Path>)
    ensures newCategories == Group(ds, ByCluster(common))
  {
    newCategories := Empty();
    var i := 0;
    while i < |ds|
      invariant 0 <= i <= |ds|
      invariant newCategories == Group(ds[..i], ByCluster(common))
    {
      ClusterStep(ds, common, i);
      var categoryName := ClusterName(common, ds[i].name);
      if categoryName.Some? {
        newCategories := Append(newCategories, categoryName.value, ds[i]);
      }
      i := i + 1;
    }
    assert ds[..i] == ds;
  }

  /** Lines 65-71: the words at least two deferred files share. */
  method CommonWords(ds: seq<Path>) returns (commonWords: set<string>)
    ensures commonWords == Common(WordSets(ds))
  {
    var wordCounts := CountWords(ds);
    commonWords := set t | t in wordCounts && wordCounts[t] >= 2;
    ghost var ws := WordSets(ds);
    forall t | DocCount(ws, t) >= 2 ensures t in AllWords(ws) {
      CountedOnce(ws, t);
    }
  }

  /** Lines 84-85: each emergent category, in its order, is assigned into
      the result. */
  method Merge(books: Buckets<string, Path>, newCategories: Buckets<string, Path>)
    returns (merged: Buckets<string, Path>)
    requires Valid(newCategories)
    ensures merged == AssignAll(books, newCategories.order, newCategories.items)
  {
    merged := books;
    var m := 0;
    while m < |newCategories.order|
      invariant 0 <= m <= |newCategories.order|
      invariant AssignAll(merged, newCategories.order[m..], newCategories.items) ==
                AssignAll(books, newCategories.order, newCategories.items)
    {
      var category := newCategories.order[m];
      AssignAllStep(merged, newCategories.order, newCategories.items, m);
      merged := Assign(merged, category, newCategories.items[category]);
      m := m + 1;
    }
    assert newCategories.order[m..] == [];
  }

  /** categorize_books: the keyword pass, then, when files were deferred,
      the common words, the clustering and the merge. */
  method CategorizeBooks(walk: seq<Path>) returns (books: Buckets<string, Path>)
    ensures books == Categorize(walk)
  {
    var uncategorized;
    books, uncategorized := KeywordPass(walk);
    if uncategorized != [] {
      var commonWords := CommonWords(uncategorized);
      var newCategories := ClusterPass(uncategorized, commonWords);
      GroupValid(uncategorized, ByCluster(commonWords));
      books := Merge(books, newCategories);
    }
  }
}
