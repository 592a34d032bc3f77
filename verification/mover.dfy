/** move_books (books_catigory2.py, lines 95-113): every categorised file is
    moved into base/<header>/<category>, and when the destination name is
    taken, the name is retried with "_1", "_2", ... inserted before its
    extension. The file system is the set of paths that exist. */
module Mover {
  import opened Text
  import opened Filenames
  import opened Header
  import opened Dicts

  /** Position of the last c in s, or -1 (str.rfind). */
  function LastIndex(s: string, c: char): (r: int)
    ensures -1 <= r < |s|
    ensures r >= 0 ==> s[r] == c
    ensures forall j :: r < j < |s| ==> s[j] != c
  {
    if s == [] then -1
    else if s[|s| - 1] == c then |s| - 1
    else LastIndex(s[..|s| - 1], c)
  }

  predicate OnlyDots(s: string) {
    forall i :: 0 <= i < |s| ==> s[i] == '.'
  }

  /** An extension: empty, or a dot followed by neither dots nor
      separators. */
  predicate IsExtension(e: string) {
    e == [] || (e[0] == '.' && forall i :: 1 <= i < |e| ==> e[i] != '.' && e[i] != '/')
  }

  /** p cut at its last dot, which lies after its last separator. */
  function CutAt(p: string, dot: int, sep: int): (r: (string, string))
    requires 0 <= dot < |p| && -1 <= sep < dot && p[dot] == '.'
    requires forall j :: dot < j < |p| ==> p[j] != '.'
    requires forall j :: sep < j < |p| ==> p[j] != '/'
    ensures r.0 + r.1 == p && IsExtension(r.1) && |r.0| == dot
  {
    assert p[..dot] + p[dot..] == p;
    forall i | 1 <= i < |p[dot..]| ensures p[dot..][i] != '.' && p[dot..][i] != '/' {
      assert p[dot..][i] == p[dot + i];
    }
    (p[..dot], p[dot..])
  }

  /** Some dot of the last path component follows a character of that
      component that is not a dot: the names os.path.splitext cuts. */
  predicate HasExtension(p: string) {
    exists i, j :: LastIndex(p, '/') < j < i < |p| && p[j] != '.' && p[i] == '.'
  }

  /** The test of os.path.splitext (the last dot lies after the last
      separator, and not only dots precede it in the last component) holds
      exactly for the names with an extension. */
  lemma CutCondition(p: string, sep: int, dot: int)
    requires sep == LastIndex(p, '/') && dot == LastIndex(p, '.')
    ensures (dot > sep && !OnlyDots(p[sep + 1..dot])) <==> HasExtension(p)
  {
    if dot > sep && !OnlyDots(p[sep + 1..dot]) {
      var k :| 0 <= k < |p[sep + 1..dot]| && p[sep + 1..dot][k] != '.';
      assert p[sep + 1 + k] != '.' && p[dot] == '.';
    }
    if exists i, j :: sep < j < i < |p| && p[j] != '.' && p[i] == '.' {
      var i, j :| sep < j < i < |p| && p[j] != '.' && p[i] == '.';
      assert i <= dot;
      assert p[sep + 1..dot][j - sep - 1] == p[j];
    }
  }

  /** os.path.splitext on a POSIX path: the extension runs from the last
      dot of the last component to the end, unless only dots precede that
      dot in the component (".bashrc" has no extension). */
  function SplitExt(p: string): (r: (string, string))
    ensures r.0 + r.1 == p && IsExtension(r.1)
  {
    var sep := LastIndex(p, '/');
    var dot := LastIndex(p, '.');
    if dot > sep && !OnlyDots(p[sep + 1..dot]) then CutAt(p, dot, sep)
    else (p, [])
  }

  /** Where os.path.splitext cuts: the extension is non-empty exactly for
      the names with an extension, and then it starts at the last dot. */
  lemma SplitExtCuts(p: string)
    ensures SplitExt(p).1 != [] <==> HasExtension(p)
    ensures SplitExt(p).1 != [] ==> |SplitExt(p).0| == LastIndex(p, '.')
  {
    CutCondition(p, LastIndex(p, '/'), LastIndex(p, '.'));
  }

  /** A name made of a stem that does not start with a dot (line 48 skips
      hidden files) and holds no separator, followed by an extension such as
      ".pdf", splits into exactly these two parts; the stem may hold dots. */
  lemma SplitExtOf(stem: string, ext: string)
    requires stem != [] && stem[0] != '.' && '/' !in stem
    requires ext != [] && IsExtension(ext)
    ensures SplitExt(stem + ext) == (stem, ext)
  {
    var p := stem + ext;
    var n := |stem|;
    assert forall i :: 0 <= i < n ==> p[i] == stem[i];
    assert forall i :: n <= i < |p| ==> p[i] == ext[i - n];
    assert LastIndex(p, '/') == -1;
    var dot := LastIndex(p, '.');
    assert p[n] == '.';
    assert forall j :: n < j < |p| ==> p[j] != '.';
    assert dot == n;
    assert !OnlyDots(p[0..n]) by {
      assert p[0..n][0] == p[0];
    }
    assert p[..n] == stem && p[n..] == ext;
  }

  function Digit(d: nat): (r: char)
    requires d < 10
    ensures '0' <= r <= '9'
  {
    ('0' as int + d) as char
  }

  /** f"{n}": the decimal digits of n, most significant first. */
  function Decimal(n: nat): (r: string)
    ensures r != [] && |r| <= n + 1
    decreases n
  {
    if n < 10 then [Digit(n)] else Decimal(n / 10) + [Digit(n % 10)]
  }

  /** Different counters print differently. */
  lemma {:induction false} DecimalInjective(a: nat, b: nat)
    requires Decimal(a) == Decimal(b)
    ensures a == b
    decreases a
  {
    if a >= 10 && b >= 10 {
      var da, db := Decimal(a), Decimal(b);
      assert da[|da| - 1] == Digit(a % 10) && db[|db| - 1] == Digit(b % 10);
      assert da[..|da| - 1] == Decimal(a / 10) && db[..|db| - 1] == Decimal(b / 10);
      DecimalInjective(a / 10, b / 10);
    }
  }

  /** The name tried after k collisions: the file's own name first, then
      f"{root}_{k}{ext}", always built from the original name. */
  function Attempt(name: string, k: nat): string {
    if k == 0 then name
    else
      var (root, ext) := SplitExt(name);
      root + "_" + Decimal(k) + ext
  }

  /** Every renamed attempt is longer than the name, and two attempts with
      different counters differ, so no name is tried twice. */
  lemma AttemptInjective(name: string, i: nat, j: nat)
    requires Attempt(name, i) == Attempt(name, j)
    ensures i == j
  {
    var (root, ext) := SplitExt(name);
    if i > 0 && j > 0 {
      var s := Attempt(name, i);
      var lo, hi := |root| + 1, |s| - |ext|;
      assert s == root + "_" + Decimal(i) + ext;
      assert |Decimal(i)| == |Decimal(j)|;
      assert s[lo..hi] == Decimal(i);
      assert Attempt(name, j)[lo..hi] == Decimal(j);
      DecimalInjective(i, j);
    }
  }

  /** k is the number of collisions the loop of lines 106-111 meets: the
      first k attempts exist, the (k+1)-th does not. */
  ghost predicate FirstFree(existing: set<Path>, folder: seq<string>, name: string, k: nat) {
    Path(folder, Attempt(name, k)) !in existing &&
    forall j :: 0 <= j < k ==> Path(folder, Attempt(name, j)) in existing
  }

  /** The collision count is determined by the existing paths. */
  lemma FirstFreeUnique(existing: set<Path>, folder: seq<string>, name: string, k1: nat, k2: nat)
    requires FirstFree(existing, folder, name, k1) && FirstFree(existing, folder, name, k2)
    ensures k1 == k2
  {
  }

  /** The paths tried before the t-th attempt. */
  ghost function Tried(folder: seq<string>, name: string, t: nat): set<Path> {
    if t == 0 then {} else Tried(folder, name, t - 1) + {Path(folder, Attempt(name, t - 1))}
  }

  lemma {:induction false} NotTriedYet(folder: seq<string>, name: string, t: nat, u: nat)
    requires t <= u
    ensures Path(folder, Attempt(name, u)) !in Tried(folder, name, t)
    decreases t
  {
    if t > 0 {
      NotTriedYet(folder, name, t - 1, u);
      if Attempt(name, t - 1) == Attempt(name, u) {
        AttemptInjective(name, t - 1, u);
      }
    }
  }

  /** Lines 102-111: the destination of one file, given the paths that
      exist; the loop ends because every attempt is new and only finitely
      many paths exist. */
  method ResolveDestination(folder: seq<string>, fileName: string, existing: set<Path>)
    returns (destinationPath: Path, collisions: nat)
    ensures destinationPath == Path(folder, Attempt(fileName, collisions))
    ensures FirstFree(existing, folder, fileName, collisions)
  {
    destinationPath := Path(folder, fileName);
    var counter := 1;
    while destinationPath in existing
      invariant counter >= 1
      invariant destinationPath == Path(folder, Attempt(fileName, counter - 1))
      invariant forall j :: 0 <= j < counter - 1 ==> Path(folder, Attempt(fileName, j)) in existing
      invariant Tried(folder, fileName, counter - 1) <= existing
      decreases |existing - Tried(folder, fileName, counter - 1)|
    {
      ghost var before := existing - Tried(folder, fileName, counter - 1);
      NotTriedYet(folder, fileName, counter - 1, counter - 1);
      assert before == (existing - Tried(folder, fileName, counter)) + {destinationPath};
      var (name, ext) := SplitExt(fileName);
      destinationPath := Path(folder, name + "_" + Decimal(counter) + ext);
      counter := counter + 1;
    }
    collisions := counter - 1;
  }

  /** A free name is kept as it is. */
  lemma FreeNameKept(existing: set<Path>, folder: seq<string>, name: string)
    requires Path(folder, name) !in existing
    ensures FirstFree(existing, folder, name, 0)
  {
  }

  /** The attempts for a name with an extension: the counter goes between
      the stem and the extension, and every attempt restarts from the
      original name (the second renaming of "a.pdf" is "a_2.pdf", not
      "a_1_2.pdf"). */
  lemma ExtAttempt(stem: string, ext: string, k: nat)
    requires stem != [] && stem[0] != '.' && '/' !in stem
    requires ext != [] && IsExtension(ext) && k >= 1
    ensures Attempt(stem + ext, k) == stem + "_" + Decimal(k) + ext
  {
    SplitExtOf(stem, ext);
  }

  /** With the name taken once and its first renaming free, the file gets
      "_1" before its extension. */
  lemma OneExistingCopy(existing: set<Path>, folder: seq<string>, stem: string, ext: string)
    requires stem != [] && stem[0] != '.' && '/' !in stem
    requires ext != [] && IsExtension(ext)
    requires Path(folder, stem + ext) in existing && Path(folder, stem + "_1" + ext) !in existing
    ensures FirstFree(existing, folder, stem + ext, 1)
  {
    ExtAttempt(stem, ext, 1);
    assert Decimal(1) == "1";
    assert stem + "_" + "1" + ext == stem + "_1" + ext;
  }

  /** A file that already sits at its destination is itself a collision, so
      it is moved to a renamed copy in the same folder. */
  lemma AlreadyInPlace(existing: set<Path>, folder: seq<string>, name: string, k: nat)
    requires Path(folder, name) in existing && FirstFree(existing, folder, name, k)
    ensures k >= 1
  {
  }

  /** One move of shutil.move: the source is gone, the destination exists. */
  datatype Move = Move(source: Path, destination: Path, collisions: nat)

  /** os.path.join(base, header, category) */
  function CategoryFolder(base: seq<string>, category: string): (r: seq<string>)
    ensures |r| == |base| + 2 && r[..|base|] == base
    ensures r[|base|] == DetermineHeader(category) && r[|base| + 1] == category
  {
    base + [DetermineHeader(category), category]
  }

  /** The files of one category, each paired with the category. */
  function Pairs(category: string, files: seq<Path>): (r: seq<(string, Path)>)
    ensures |r| == |files| && forall i :: 0 <= i < |files| ==> r[i] == (category, files[i])
  {
    seq(|files|, i requires 0 <= i < |files| => (category, files[i]))
  }

  /** The (category, file) pairs in the order move_books visits them: the
      categories in dict order, each category's files in list order. */
  function Jobs(order: seq<string>, items: map<string, seq<Path>>): seq<(string, Path)>
    requires forall k :: k in order ==> k in items
  {
    if order == [] then []
    else Jobs(order[..|order| - 1], items) + Pairs(order[|order| - 1], items[order[|order| - 1]])
  }

  lemma JobsStep(order: seq<string>, items: map<string, seq<Path>>, c: nat)
    requires forall k :: k in order ==> k in items
    requires c < |order|
    ensures Jobs(order[..c + 1], items) == Jobs(order[..c], items) + Pairs(order[c], items[order[c]])
  {
    assert order[..c + 1][..c] == order[..c];
  }

  lemma PairsStep(done: seq<(string, Path)>, category: string, files: seq<Path>, f: nat)
    requires f < |files|
    ensures done + Pairs(category, files[..f + 1]) == done + Pairs(category, files[..f]) + [(category, files[f])]
  {
    assert Pairs(category, files[..f + 1]) == Pairs(category, files[..f]) + [(category, files[f])];
  }

  /** The paths that exist after the moves ms, starting from s. */
  ghost function After(s: set<Path>, ms: seq<Move>): set<Path> {
    if ms == [] then s
    else After(s, ms[..|ms| - 1]) - {ms[|ms| - 1].source} + {ms[|ms| - 1].destination}
  }

  /** The move of one (category, file) pair when the paths in s exist. */
  ghost predicate Step(s: set<Path>, base: seq<string>, job: (string, Path), m: Move) {
    var folder := CategoryFolder(base, job.0);
    m.source == job.1 &&
    m.destination == Path(folder, Attempt(job.1.name, m.collisions)) &&
    FirstFree(s, folder, job.1.name, m.collisions)
  }

  /** ms are the moves of the jobs, one each, in order, each made against
      the paths left by the moves before it. */
  ghost predicate Moved(start: set<Path>, base: seq<string>, jobs: seq<(string, Path)>, ms: seq<Move>)
    decreases |jobs|
  {
    |ms| == |jobs| &&
    (jobs == [] ||
     (Moved(start, base, jobs[..|jobs| - 1], ms[..|ms| - 1]) &&
      Step(After(start, ms[..|ms| - 1]), base, jobs[|jobs| - 1], ms[|ms| - 1])))
  }

  lemma MovedSnoc(start: set<Path>, base: seq<string>, jobs: seq<(string, Path)>, ms: seq<Move>,
                  job: (string, Path), m: Move)
    requires Moved(start, base, jobs, ms)
    requires Step(After(start, ms), base, job, m)
    ensures Moved(start, base, jobs + [job], ms + [m])
    ensures After(start, ms + [m]) == After(start, ms) - {m.source} + {m.destination}
  {
    assert (jobs + [job])[..|jobs|] == jobs;
    assert (ms + [m])[..|ms|] == ms;
  }

  /** What one step does: the file of the pair is moved into its category
      folder, to a path that did not exist. */
  lemma StepMeaning(s: set<Path>, base: seq<string>, job: (string, Path), m: Move)
    requires Step(s, base, job, m)
    ensures m.source == job.1
    ensures m.destination.dir == base + [DetermineHeader(job.0), job.0]
    ensures m.destination.name == Attempt(job.1.name, m.collisions)
    ensures m.destination !in s
  {
  }

  /** Every move takes the file listed at its position, puts it under
      base/<header>/<category> and lands on a path that did not exist. */
  lemma {:induction false} MovedMeaning(start: set<Path>, base: seq<string>, jobs: seq<(string, Path)>,
                                        ms: seq<Move>, i: nat)
    requires Moved(start, base, jobs, ms) && i < |ms|
    ensures ms[i].source == jobs[i].1
    ensures ms[i].destination.dir == base + [DetermineHeader(jobs[i].0), jobs[i].0]
    ensures ms[i].destination.name == Attempt(jobs[i].1.name, ms[i].collisions)
    ensures ms[i].destination !in After(start, ms[..i])
    decreases |jobs|
  {
    var n := |jobs| - 1;
    if i < n {
      MovedMeaning(start, base, jobs[..n], ms[..n], i);
      assert ms[..n][..i] == ms[..i];
    } else {
      StepMeaning(After(start, ms[..n]), base, jobs[n], ms[n]);
    }
  }

  /** The file system as move_books sees it. */
  class Disk {
    var present: set<Path>

    constructor (files: set<Path>)
      ensures present == files
    {
      present := files;
    }

    /** Lines 101-113, for one file: find the first free name in the
        category folder and move the file there. */
    method MoveFile(base: seq<string>, category: string, filePath: Path) returns (m: Move)
      modifies this
      ensures Step(old(present), base, (category, filePath), m)
      ensures present == old(present) - {m.source} + {m.destination}
    {
      var categoryFolder := CategoryFolder(base, category);
      var destinationPath, collisions := ResolveDestination(categoryFolder, filePath.name, present);
      m := Move(filePath, destinationPath, collisions);
      present := present - {filePath} + {destinationPath};
    }

    /** Lines 100-113: moves the files of one category, in list order,
        after the moves already made. */
    method MoveCategory(base: seq<string>, category: string, files: seq<Path>,
                        ghost start: set<Path>, ghost done: seq<(string, Path)>, moves: seq<Move>)
      returns (moves': seq<Move>)
      requires Moved(start, base, done, moves) && present == After(start, moves)
      modifies this
      ensures Moved(start, base, done + Pairs(category, files), moves')
      ensures present == After(start, moves')
    {
      moves' := moves;
      assert done + Pairs(category, files[..0]) == done;
      var f := 0;
      while f < |files|
        invariant 0 <= f <= |files|
        invariant Moved(start, base, done + Pairs(category, files[..f]), moves')
        invariant present == After(start, moves')
      {
        var m := MoveFile(base, category, files[f]);
        MovedSnoc(start, base, done + Pairs(category, files[..f]), moves', (category, files[f]), m);
        PairsStep(done, category, files, f);
        moves' := moves' + [m];
        f := f + 1;
      }
      assert files[..f] == files;
    }

    /** Lines 95-113: moves every file of every category, in dict order. */
    method MoveBooks(books: Buckets<string, Path>, base: seq<string>) returns (moves: seq<Move>)
      requires Valid(books)
      modifies this
      ensures Moved(old(present), base, Jobs(books.order, books.items), moves)
      ensures present == After(old(present), moves)
    {
      moves := [];
      var c := 0;
      while c < |books.order|
        invariant 0 <= c <= |books.order|
        invariant Moved(old(present), base, Jobs(books.order[..c], books.items), moves)
        invariant present == After(old(present), moves)
      {
        var category := books.order[c];
        JobsStep(books.order, books.items, c);
        moves := MoveCategory(base, category, books.items[category], old(present),
                              Jobs(books.order[..c], books.items), moves);
        c := c + 1;
      }
      assert books.order[..c] == books.order;
    }
  }
}
