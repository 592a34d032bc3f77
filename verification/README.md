# Book classifier: a verified model

`books_catigory2.py` sorts a directory tree of PDF books into category
folders.

- **Categorising (`categorize_books`).** The script walks the tree and keeps the files whose lower-cased name ends in `.pdf` and that are not hidden. It reads the words of each file name and puts the file under the first category of the `CATEGORIES` table whose trigger words meet those words.
- **Clustering.** Files that no category takes are grouped afterwards. A word that at least two of them share is a *common* word. Such files go into *emergent* categories named after their common words, sorted and joined by spaces.
- **Moving (`move_books`).** Every file is moved into `<base>/<header>/<category>`. The header is looked up in `HEADER_CATEGORIES` and falls back to `Other`. A name already taken is retried as `name_1.ext`, `name_2.ext`, and so on.

The model is written in Dafny and is split into modules that follow those steps.

- **`Text`, `StringOrder`, `Options`.** These model the Python string operations the script relies on (`lower`, `replace`, `split`, `" ".join`, `sorted`). `StringOrder` is Python's code-point ordering of strings.
- **`Tables`.** The two constant tables, in declaration order.
- **`Filenames`.**
  - A walked file is a `Path(dir, name)`.
  - `IsCandidate` is the filter.
  - `Tokens` and `Words` are the tokenizer.
- **`Classify`.** The first-match classifier over `CATEGORIES`.
- **`Cluster`.**
  - Word counting over the deferred files.
  - The common-word set.
  - The emergent category name of a file.
- **`Dicts`.**
  - An insertion-ordered dictionary of lists (`Buckets`).
  - `Append` is `d[k].append(v)` on a `defaultdict(list)`.
  - `Assign` is `d[k] = v`.
- **`Categorize`.**
  - `Categorize` is a function. It states what `categorize_books` returns for a walk, and the properties are proved about it.
  - The method `CategorizeBooks` does the work as the script does it. Its phases `KeywordPass`, `CountWords`, `CommonWords`, `ClusterPass` and `Merge` are loops, proved to compute that function.
- **`Header`.** `determine_header_category`.
- **`Mover`.**
  - The collision loop is `ResolveDestination`.
  - `os.path.splitext` is `SplitExt`.
  - The file system is a class `Disk` whose `present` set holds the paths that exist. `MoveBooks` moves every file, in dictionary order, and updates that set.

Several behaviours of the code are stated and proved as they are written.

- **The extension stays glued to the last word.** `ai.pdf` has the single word `ai.pdf`, so it is not classified as AI.
- **Multi-word triggers never fire.** Trigger phrases made of several words, such as "machine learning" or "solar panel", can never match, because no word holds a space. As a result the categories Solar Panels, Control and Data Science are never chosen.
- **Already-sorted files are renamed.** A file that already sits at its destination counts as a collision with itself. It is moved to a renamed copy in the same folder (`_1` when that name is free).

For example, `machine_learning_basics.pdf` has the words `machine`, `learning` and `basics.pdf`.

## Model

| member | source | states |
|---|---|---|
| Tables.CategoryNamesCapitalised | books_catigory2.py:14-36 | every static category name is non-empty and starts with an upper-case letter |
| Tables.HeaderEntriesCapitalised | books_catigory2.py:6-11 | every category listed under a header starts with an upper-case letter |
| Text.Lower | books_catigory2.py:45 | lower-casing keeps the length, maps each character on its own and leaves no upper-case letter |
| Text.SeparatorSplits | books_catigory2.py:51 | after `_` and `-` are replaced by spaces, an underscore or a hyphen separates words exactly as a space does (the words of `a_b` are those of `a` followed by those of `b`) |
| Text.Split | books_catigory2.py:51 | no token of `str.split()` is empty or holds whitespace; a string without capitals gives tokens without capitals |
| Text.SplitEndsWith | books_catigory2.py:51 | a string ending in a space-free suffix has a last token, and that token ends in the suffix |
| Text.SplitJoin | books_catigory2.py:80 | splitting the space-joined list of non-empty, space-free tokens gives the list back |
| Text.Join | books_catigory2.py:80 | `" ".join`; its partner SplitJoin shows that splitting the joined tokens gives them back, and JoinNoUpper that it adds no capital |
| Text.JoinNoUpper | books_catigory2.py:80 | joining tokens without capitals gives a name without capitals |
| StringOrder.Less | books_catigory2.py:80 | Python's `<` on strings (code-point lexicographic), the order `sorted` uses; LessIrreflexive, LessTransitive, LessTotal and LessAsymmetric show it is a strict total order |
| StringOrder.Insert | books_catigory2.py:80 | inserting into a strictly sorted list keeps it strictly sorted and adds exactly the new element |
| StringOrder.SortedDistinct | books_catigory2.py:80 | `sorted(set(ts))`: strictly sorted, with exactly the elements of ts |
| StringOrder.SortedUnique | books_catigory2.py:80 | two strictly sorted lists with the same elements are equal, so the sorted listing of a set is unique |
| StringOrder.LessTotal | books_catigory2.py:80 | of two different strings one is smaller (the order `sorted` uses is total) |
| StringOrder.LessTransitive | books_catigory2.py:80 | the string order is transitive |
| Filenames.IsCandidate | books_catigory2.py:45-49 | a file is kept when its lower-cased name ends in ".pdf" and its name does not start with "."; NonCandidateAbsent shows every other file is in no bucket, and LastTokenKeepsExtension what a kept name's words look like |
| Filenames.Tokens | books_catigory2.py:51 | every word of a file name is non-empty, holds no whitespace and no upper-case letter |
| Filenames.SeparatorSplitsTokens | books_catigory2.py:51 | an underscore or a hyphen in a file name splits its tokens: those before it, then those after it |
| Filenames.Words | books_catigory2.py:51 | the word set of a name is the set of its tokens; NoWordHasSpace, AiPdfWords and SeparatorSplitsTokens state what it holds |
| Filenames.NoWordHasSpace | books_catigory2.py:51 | a phrase containing whitespace is never a word of any file name |
| Filenames.LastTokenKeepsExtension | books_catigory2.py:45-51 | a kept file has a last word, and that word ends in ".pdf" |
| Filenames.AiPdfWords | books_catigory2.py:51 | the words of "ai.pdf" are exactly {"ai.pdf"}; "ai" is not one of them |
| Classify.FirstMatch | books_catigory2.py:54-58 | the index found is of an entry whose triggers meet the words, and no earlier entry's do; None exactly when no entry's do |
| Classify.FirstMatchAt | books_catigory2.py:54-58 | any matching entry with no matching entry before it is the one chosen |
| Classify.Category | books_catigory2.py:52-61 | a file gets the name of the first category, in declaration order, whose triggers meet its words; it gets none exactly when no category's triggers do |
| Classify.CategoryCapitalised | books_catigory2.py:54-56 | a keyword category given to a file starts with a capital |
| Classify.JavascriptNeverWeb | books_catigory2.py:54-58 | a file with the word "javascript" goes to AI or Programming, never to Web |
| Classify.SpacedEntryNeverMatches | books_catigory2.py:54-55 | an entry whose triggers all hold a space is never the first match |
| Classify.SolarPanelsNeverChosen | books_catigory2.py:24 | no file is ever put under Solar Panels |
| Classify.ControlNeverChosen | books_catigory2.py:25 | no file is ever put under Control |
| Classify.DataScienceNeverChosen | books_catigory2.py:30 | no file is ever put under Data Science |
| Classify.AiPdfUnclassified | books_catigory2.py:15 | "ai.pdf" matches no category, although "ai" is an AI trigger |
| Cluster.DocCount | books_catigory2.py:65-69 | `Counter.update` over the word set of each deferred file (WordSets, lines 66-68): a word's count never exceeds the number of files; CountedOnce, CountedTwiceHolders and HoldersCountedTwice say what it counts |
| Cluster.CountedOnce | books_catigory2.py:65-69 | a word is counted at least once exactly when some deferred file has it |
| Cluster.CountedTwiceHolders | books_catigory2.py:71 | a word counted twice is held by two different files |
| Cluster.HoldersCountedTwice | books_catigory2.py:69 | a word held by two different files is counted at least twice |
| Cluster.CommonIff | books_catigory2.py:65-71 | a word is common exactly when two different deferred files have it |
| Cluster.Common | books_catigory2.py:71 | the words counted at least twice; CommonIff shows these are exactly the words two different deferred files have |
| Cluster.SingleFileNoCommon | books_catigory2.py:69 | a word repeated inside one name counts once, so one deferred file alone makes no word common |
| Cluster.Keep | books_catigory2.py:77 | the kept tokens are exactly the tokens that are common words |
| Cluster.SharedWords | books_catigory2.py:77-80 | `sorted(words & common)`: strictly sorted, and exactly the file's words that are common |
| Cluster.ClusterName | books_catigory2.py:77-81 | a deferred file gets an emergent name exactly when it has a common word |
| Cluster.ClusterNameMeaning | books_catigory2.py:80 | splitting the emergent name gives, in increasing order, exactly the file's common words |
| Cluster.ClusterNameOfListing | books_catigory2.py:80 | the emergent name is the join of any sorted listing of the file's common words, so it depends on that set alone |
| Cluster.SameCluster | books_catigory2.py:77-81 | two deferred files share an emergent category exactly when they have the same common words |
| Cluster.ClusterNameEmergent | books_catigory2.py:80 | an emergent name is non-empty and has no upper-case letter |
| Dicts.Append | books_catigory2.py:56 | appending adds the value at the end of the key's list (a new list for a new key) and the key at the end of the order when new |
| Dicts.AppendValid | books_catigory2.py:56 | appending keeps the dictionary well formed (keys once each, order and keys agree) |
| Dicts.Assign | books_catigory2.py:85 | assignment replaces the key's list and adds the key to the order only when new |
| Dicts.AssignAllAt | books_catigory2.py:84-85 | after assigning a list of keys, a key is present when it was before or was assigned, and holds its assigned value or its old one |
| Dicts.AssignAllOrder | books_catigory2.py:84-85 | assigning fresh, distinct keys appends them to the order in turn |
| Dicts.AssignAllDisjoint | books_catigory2.py:84-85 | merging a dictionary with disjoint keys keeps both sets of lists and puts the new keys after the old ones |
| Categorize.Select | books_catigory2.py:54-61 | a file is selected for a key exactly when it is in the walk and is given that key |
| Categorize.Deferred | books_catigory2.py:60-61 | a file is deferred exactly when it is walked, kept and matches no category |
| Categorize.Group | books_catigory2.py:39-56 | the `defaultdict(list)` filled by appending each file under its key (lines 56 and 81); GroupValid and GroupAt state what each key holds |
| Categorize.GroupValid | books_catigory2.py:39-61 | the grouping is a well-formed dictionary |
| Categorize.GroupAt | books_catigory2.py:54-61 | each key holds exactly the files given that key, in walk order, and only keys some file is given exist |
| Categorize.Categorize | books_catigory2.py:38-87 | what `categorize_books` returns; CategorizeAt, CategorizeOrder and ExactlyOneBucket state what it holds, and CategorizeBooks is proved to compute it |
| Categorize.KeysDisjoint | books_catigory2.py:84-85 | no emergent key is a keyword key, so the assignment of line 85 overwrites no keyword bucket |
| Categorize.CategorizeAt | books_catigory2.py:38-87 | every key of the result holds exactly the files placed there, in walk order, and a key exists exactly when some file is placed there |
| Categorize.CategorizeOrder | books_catigory2.py:84-85 | the result is well formed, and its keys are the keyword buckets in first-fill order followed by the emergent buckets |
| Categorize.ExactlyOneBucket | books_catigory2.py:38-87 | a file is under key k exactly when it was walked and placed at k, so each file is in at most one bucket |
| Categorize.KeptOrDeferred | books_catigory2.py:52-61 | after the keyword pass a kept file is in the bucket of its category and no other, or else deferred |
| Categorize.KeywordFileKept | books_catigory2.py:54-58 | a kept file that matches a category is in that category's bucket of the result |
| Categorize.NonCandidateAbsent | books_catigory2.py:48-49 | a file that is not a visible PDF is in no bucket |
| Categorize.DeferredFilePlaced | books_catigory2.py:79-81 | a deferred file with a common word is in the emergent bucket named after them |
| Categorize.DeferredFileDropped | books_catigory2.py:79 | a deferred file with no common word is in no bucket |
| Categorize.FindCategory | books_catigory2.py:54-58 | the scan stops at the first category whose triggers meet the words, or reports that none does |
| Categorize.ClassifyFile | books_catigory2.py:44-61 | one walked file extends the keyword buckets and the deferred list as the specification functions do |
| Categorize.KeywordPass | books_catigory2.py:42-61 | the pass computes the keyword grouping and the deferred list of the walk |
| Categorize.CountWords | books_catigory2.py:65-69 | the counter gives each word the number of deferred files that have it |
| Categorize.CommonWords | books_catigory2.py:65-71 | the computed set is the set of common words |
| Categorize.ClusterPass | books_catigory2.py:72-81 | the loop computes the grouping of the deferred files by emergent name |
| Categorize.Merge | books_catigory2.py:84-85 | the loop assigns every emergent bucket, in order, into the result |
| Categorize.CategorizeBooks | books_catigory2.py:38-87 | the method returns exactly `Categorize(walk)` |
| Header.HeaderIndex | books_catigory2.py:90-92 | the header found lists the category and no earlier one does; None exactly when no header lists it |
| Header.DetermineHeader | books_catigory2.py:89-93 | the result is "Other" or a header listing the category |
| Header.OtherIff | books_catigory2.py:89-93 | the result is "Other" exactly when no header lists the category |
| Header.EmergentToOther | books_catigory2.py:93 | a name without capitals, such as any emergent name, goes to "Other" |
| Header.SolarPanelsToOther | books_catigory2.py:24 | Solar Panels goes to "Other" |
| Header.WebToTechnology | books_catigory2.py:7 | Web goes to Technology |
| Mover.LastIndex | books_catigory2.py:108 | the position found holds the character and no later one does; -1 when there is none |
| Mover.SplitExt | books_catigory2.py:108 | root and extension concatenate to the name, and the extension is empty or a dot followed by no dot and no separator |
| Mover.SplitExtCuts | books_catigory2.py:108 | the extension is non-empty exactly when some dot of the last component follows a non-dot character of it, and then the cut is at the last dot |
| Mover.SplitExtOf | books_catigory2.py:108 | a stem that does not start with a dot (dots inside are allowed), followed by an extension such as ".pdf", splits into exactly that stem and extension |
| Mover.Decimal | books_catigory2.py:109 | the decimal form of the counter is non-empty |
| Mover.DecimalInjective | books_catigory2.py:109 | different counters print differently |
| Mover.Attempt | books_catigory2.py:106-110 | the name tried after k collisions, always built from the original name; AttemptInjective, ExtAttempt and FreeNameKept state what it is |
| Mover.AttemptInjective | books_catigory2.py:106-111 | different attempts give different names, so no name is tried twice |
| Mover.FirstFreeUnique | books_catigory2.py:106-111 | the number of collisions is determined by the existing paths |
| Mover.NotTriedYet | books_catigory2.py:106-111 | an attempt is never among the names tried before it |
| Mover.ResolveDestination | books_catigory2.py:102-111 | the loop ends at the first attempt that does not exist; every earlier attempt exists |
| Mover.FreeNameKept | books_catigory2.py:103-107 | a free name is used unchanged |
| Mover.ExtAttempt | books_catigory2.py:108-110 | the k-th renaming of `stem.ext` is `stem_k.ext` (`intro.to.ai.pdf` gives `intro.to.ai_1.pdf`), always built from the original name |
| Mover.OneExistingCopy | books_catigory2.py:106-111 | with the name `stem.ext` taken and `stem_1.ext` free, the file lands on `stem_1.ext` |
| Mover.AlreadyInPlace | books_catigory2.py:107 | a file that exists at its own destination meets at least one collision |
| Mover.MovedSnoc | books_catigory2.py:101-113 | one more move extends the record of moves and the set of existing paths |
| Mover.StepMeaning | books_catigory2.py:97-113 | one move takes the listed file to its category folder base/header/category (CategoryFolder, lines 97-98), at a name that did not exist |
| Mover.MovedMeaning | books_catigory2.py:95-113 | every move takes the file at its position to base/header/category, under a name that did not exist just before |
| Mover.Disk.MoveFile | books_catigory2.py:101-113 | one file is moved to its first free name; the source is gone and the destination exists |
| Mover.Disk.MoveCategory | books_catigory2.py:101-113 | the files of one category are moved in list order, each against the paths left by the moves before it |
| Mover.Disk.MoveBooks | books_catigory2.py:95-113 | every file of every category is moved, in dictionary order, and the existing paths are those the moves leave |

## Left out

- Text.Lower: `str.lower()` is modelled on the ASCII letters only. Other Unicode case mappings are not modelled.
- `os.walk` is not modelled. The walk is an input sequence of paths in the order the walk yields them. That order is not modelled.
- `os.path.join`, `os.path.basename` and the string form of paths are not modelled. A path is a list of directory components and a file name.
- Mover.SplitExt: models `os.path.splitext` on POSIX paths. The Windows form, which also treats `\` and drive letters as separators, is not modelled.
- `os.makedirs` is left out. Creating a folder changes no file path in the model.
- `os.path.exists` is membership in `Disk.present`. `shutil.move` is the removal of the source from that set and the addition of the destination. Cross-device copies, permissions and errors are not modelled.
- Moves of a file that is listed twice, or whose source no longer exists, follow the set update. The errors `shutil.move` would raise are not modelled.
- The `print` of each move (line 114) is output only and is left out.
- `save_books_to_file` (lines 116-122) writes a text file and is not part of this model.
- `main` (lines 124-130) holds a fixed path and only chains the three steps. It is not part of this model.
- The image-combining tool in the same repository is not part of this model.
