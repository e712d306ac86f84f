/**
 * The plugin's registry of vocabulary books: the `Map` from book name to
 * book that `syncVocabularyBooksWithSettings` reconciles with the configured
 * paths. The file system enters as two functions: `fileExists` (what
 * `fs.exists` answers) and `read` (the content `fs.read` returns).
 */
module BookRegistry {
  import opened Options
  import opened BookFiles
  import opened VocabularyBooks
  import opened PathSettings

  /** `vocabularyBookPaths[i]`: `undefined` past the end of the array. */
  function PathAt(paths: seq<Option<string>>, i: nat): Option<string> {
    if i < |paths| then paths[i] else None
  }

  /** The text a regular expression matches against when handed a path: `undefined` becomes the text "undefined". */
  function PathText(p: Option<string>): string {
    match p
    case None => "undefined"
    case Some(s) => s
  }

  /** An undefined path is never a book: its text does not end in `.md`. */
  lemma UndefinedPathInvalid(fileExists: string -> bool)
    ensures CheckPath(PathText(None), fileExists) == Invalid
  {
    assert "undefined"[6..] != MarkdownExtension;
  }

  /** The name a book at `path` is filed under. */
  function BookName(path: string): string {
    ExtractNameFromPath(Some(path))
  }

  /** The keys of a registry whose books sit at `ps`, in order. */
  function Names(ps: seq<string>): (names: seq<string>)
    ensures |names| == |ps| && forall i :: 0 <= i < |ps| ==> names[i] == BookName(ps[i])
  {
    seq(|ps|, i requires 0 <= i < |ps| => BookName(ps[i]))
  }

  /** No two books share a name: the paths can be the entries of one `Map`. */
  predicate DistinctNames(ps: seq<string>) {
    forall i, j :: 0 <= i < j < |ps| ==> BookName(ps[i]) != BookName(ps[j])
  }

  /** `allPaths` after its first `n` insertions: the configured paths, each once, in order of first appearance. */
  function AllPaths(paths: seq<Option<string>>, n: nat): seq<Option<string>> {
    if n == 0 then []
    else
      var ap := AllPaths(paths, n - 1);
      if PathAt(paths, n - 1) in ap then ap else ap + [PathAt(paths, n - 1)]
  }

  /** No value occurs twice. */
  predicate NoRepeats<T(==)>(s: seq<T>) {
    forall i, j :: 0 <= i < j < |s| ==> s[i] != s[j]
  }

  /** `allPaths` holds exactly the first `n` configured paths, without repetition. */
  lemma {:induction false} AllPathsAreConfigured(paths: seq<Option<string>>, n: nat)
    ensures forall p :: p in AllPaths(paths, n) <==> exists i :: 0 <= i < n && PathAt(paths, i) == p
    ensures NoRepeats(AllPaths(paths, n))
  {
    if n > 0 {
      AllPathsAreConfigured(paths, n - 1);
      var ap := AllPaths(paths, n - 1);
      var x := PathAt(paths, n - 1);
      if x !in ap {
        AppendNewKeepsDistinct(ap, x);
      }
    }
  }

  /** Appending a value not yet present keeps a sequence free of repetitions. */
  lemma AppendNewKeepsDistinct<T>(s: seq<T>, x: T)
    requires NoRepeats(s) && x !in s
    ensures NoRepeats(s + [x])
  {
    var r := s + [x];
    forall i, j | 0 <= i < j < |r| ensures r[i] != r[j] {
      if j == |s| {
        assert r[i] == s[i] && s[i] in s;
      } else {
        assert r[i] == s[i] && r[j] == s[j];
      }
    }
  }

  /** The paths among the first `j` of `ps` that the removal pass keeps, in order: those whose path is in `allPaths`. */
  function KeptUpTo(ps: seq<string>, j: nat, allPaths: seq<Option<string>>): seq<string>
    requires j <= |ps|
  {
    if j == 0 then []
    else KeptUpTo(ps, j - 1, allPaths) + (if Some(ps[j - 1]) in allPaths then [ps[j - 1]] else [])
  }

  /** The paths of the books the removal pass keeps. */
  function Kept(ps: seq<string>, allPaths: seq<Option<string>>): seq<string> {
    KeptUpTo(ps, |ps|, allPaths)
  }

  /** The removal pass keeps a book exactly when its path is configured. */
  lemma {:induction false} KeptIsFilter(ps: seq<string>, j: nat, allPaths: seq<Option<string>>)
    requires j <= |ps|
    ensures forall p :: p in KeptUpTo(ps, j, allPaths) <==> p in ps[..j] && Some(p) in allPaths
  {
    if j > 0 {
      KeptIsFilter(ps, j - 1, allPaths);
      assert ps[..j] == ps[..j - 1] + [ps[j - 1]];
    }
  }

  /** The removal pass keeps names distinct: no kept name repeats, nor occurs among the paths still to come. */
  lemma {:induction false} KeptKeepsNamesDistinct(ps: seq<string>, j: nat, allPaths: seq<Option<string>>)
    requires j <= |ps| && DistinctNames(ps)
    ensures DistinctNames(KeptUpTo(ps, j, allPaths))
    ensures forall q, i :: q in KeptUpTo(ps, j, allPaths) && j <= i < |ps| ==> BookName(q) != BookName(ps[i])
  {
    if j > 0 {
      KeptKeepsNamesDistinct(ps, j - 1, allPaths);
      var prev := KeptUpTo(ps, j - 1, allPaths);
      if Some(ps[j - 1]) in allPaths {
        DistinctNamesSnoc(prev, ps[j - 1]);
        assert KeptUpTo(ps, j, allPaths) == prev + [ps[j - 1]];
      } else {
        assert KeptUpTo(ps, j, allPaths) == prev;
      }
    }
  }

  /** A path whose name is new keeps names distinct when appended. */
  lemma DistinctNamesSnoc(ps: seq<string>, p: string)
    requires DistinctNames(ps) && forall q :: q in ps ==> BookName(q) != BookName(p)
    ensures DistinctNames(ps + [p])
  {
    forall i, j | 0 <= i < j < |ps| + 1 ensures BookName((ps + [p])[i]) != BookName((ps + [p])[j]) {
      if j == |ps| {
        assert ps[i] in ps;
      }
    }
  }

  /** When every path is configured, the removal pass removes nothing. */
  lemma {:induction false} KeptAllListed(ps: seq<string>, j: nat, allPaths: seq<Option<string>>)
    requires j <= |ps| && forall p :: p in ps ==> Some(p) in allPaths
    ensures KeptUpTo(ps, j, allPaths) == ps[..j]
  {
    if j > 0 {
      KeptAllListed(ps, j - 1, allPaths);
      assert ps[j - 1] in ps;
      assert ps[..j] == ps[..j - 1] + [ps[j - 1]];
    }
  }

  /** One step of the addition pass over the candidate `p`. */
  function AddOne(ps: seq<string>, p: Option<string>, fileExists: string -> bool): seq<string> {
    if ExtractNameFromPath(p) in Names(ps) then ps
    else if CheckPath(PathText(p), fileExists) == Exists then ps + [PathText(p)]
    else ps
  }

  /** The addition pass over the candidates `cands`, in order. */
  function AddAll(ps: seq<string>, cands: seq<Option<string>>, fileExists: string -> bool): seq<string>
    decreases |cands|
  {
    if cands == [] then ps else AddAll(AddOne(ps, cands[0], fileExists), cands[1..], fileExists)
  }

  /** `p` is accounted for: a book of its name is there, or `p` is not an existing book. */
  predicate Covered(ps: seq<string>, p: Option<string>, fileExists: string -> bool) {
    ExtractNameFromPath(p) in Names(ps) || CheckPath(PathText(p), fileExists) != Exists
  }

  /** `ps` is a prefix of `qs`. */
  predicate Extends(qs: seq<string>, ps: seq<string>) {
    |ps| <= |qs| && qs[..|ps|] == ps
  }

  /** A book added for `p` carries `p`'s name. */
  lemma AddOneCovers(ps: seq<string>, p: Option<string>, fileExists: string -> bool)
    ensures Covered(AddOne(ps, p, fileExists), p, fileExists)
    ensures Extends(AddOne(ps, p, fileExists), ps)
    ensures AddOne(ps, p, fileExists) != ps ==>
      p.Some? && AddOne(ps, p, fileExists) == ps + [p.value] && CheckPath(p.value, fileExists) == Exists &&
      BookName(p.value) !in Names(ps)
  {
    UndefinedPathInvalid(fileExists);
    var r := AddOne(ps, p, fileExists);
    if r != ps {
      assert Names(r)[|ps|] == ExtractNameFromPath(p);
    }
  }

  /** Extending the registry keeps every path accounted for. */
  lemma CoveredExtends(ps: seq<string>, qs: seq<string>, p: Option<string>, fileExists: string -> bool)
    requires Extends(qs, ps) && Covered(ps, p, fileExists)
    ensures Covered(qs, p, fileExists)
  {
    if ExtractNameFromPath(p) in Names(ps) {
      var i :| 0 <= i < |ps| && Names(ps)[i] == ExtractNameFromPath(p);
      assert Names(qs)[i] == BookName(qs[i]);
    }
  }

  /**
   * The addition pass only appends, and each book it appends is at a path
   * among the candidates that exists, under a name not yet in the registry.
   */
  lemma {:induction false} AddAllAppends(ps: seq<string>, cands: seq<Option<string>>, fileExists: string -> bool)
    ensures var r := AddAll(ps, cands, fileExists);
      Extends(r, ps) &&
      forall k :: |ps| <= k < |r| ==>
        Some(r[k]) in cands && CheckPath(r[k], fileExists) == Exists && BookName(r[k]) !in Names(r[..k])
    decreases |cands|
  {
    if cands != [] {
      var ps' := AddOne(ps, cands[0], fileExists);
      var rest := cands[1..];
      AddOneCovers(ps, cands[0], fileExists);
      AddAllAppends(ps', rest, fileExists);
      var r := AddAll(ps', rest, fileExists);
      assert r[..|ps'|][..|ps|] == r[..|ps|];
      forall k | |ps| <= k < |r|
        ensures Some(r[k]) in cands && CheckPath(r[k], fileExists) == Exists && BookName(r[k]) !in Names(r[..k])
      {
        if k >= |ps'| {
          assert Some(r[k]) in rest;
        } else {
          assert r[..k] == ps;
        }
      }
    }
  }

  /** After the addition pass every candidate is accounted for. */
  lemma {:induction false} AddAllCovers(ps: seq<string>, cands: seq<Option<string>>, fileExists: string -> bool)
    ensures forall p :: p in cands ==> Covered(AddAll(ps, cands, fileExists), p, fileExists)
    decreases |cands|
  {
    if cands != [] {
      var ps' := AddOne(ps, cands[0], fileExists);
      var r := AddAll(ps', cands[1..], fileExists);
      AddAllCovers(ps', cands[1..], fileExists);
      AddOneCovers(ps, cands[0], fileExists);
      AddAllAppends(ps', cands[1..], fileExists);
      CoveredExtends(ps', r, cands[0], fileExists);
      assert forall p :: p in cands ==> p == cands[0] || p in cands[1..];
    }
  }

  /** When every candidate is accounted for, the addition pass adds nothing. */
  lemma {:induction false} AddAllNothingNew(ps: seq<string>, cands: seq<Option<string>>, fileExists: string -> bool)
    requires forall p :: p in cands ==> Covered(ps, p, fileExists)
    ensures AddAll(ps, cands, fileExists) == ps
    decreases |cands|
  {
    if cands != [] {
      assert cands[0] in cands;
      assert AddOne(ps, cands[0], fileExists) == ps;
      assert forall p :: p in cands[1..] ==> p in cands;
      AddAllNothingNew(ps, cands[1..], fileExists);
    }
  }

  /** What a books' name sequence with distinct entries keeps through the addition pass. */
  lemma AddAllKeepsNamesDistinct(ps: seq<string>, cands: seq<Option<string>>, fileExists: string -> bool)
    requires DistinctNames(ps)
    ensures DistinctNames(AddAll(ps, cands, fileExists))
  {
    var r := AddAll(ps, cands, fileExists);
    AddAllAppends(ps, cands, fileExists);
    forall i, j | 0 <= i < j < |r| ensures BookName(r[i]) != BookName(r[j]) {
      if j >= |ps| {
        assert Names(r[..j])[i] == BookName(r[i]);
      } else {
        assert r[i] == ps[i] && r[j] == ps[j];
      }
    }
  }

  /** The loop bound `i < numOfVocabularyBooks`: no iteration for a negative count. */
  function Count(num: int): nat {
    if num < 0 then 0 else num
  }

  /**
   * The paths of the registry after `syncVocabularyBooksWithSettings`, from
   * the paths of its books before: the removal pass, then the addition pass
   * over `allPaths`.
   */
  function SyncedPaths(bookPaths: seq<string>, paths: seq<Option<string>>, num: int, fileExists: string -> bool): seq<string> {
    var allPaths := AllPaths(paths, Count(num));
    AddAll(Kept(bookPaths, allPaths), allPaths, fileExists)
  }

  /**
   * After a sync every book's path is one of the first `num` configured
   * paths; the books kept come first, in their old order, and each book added
   * is at an existing path under a name not yet taken; names stay distinct.
   */
  lemma SyncListsOnlyConfiguredBooks(bookPaths: seq<string>, paths: seq<Option<string>>, num: int, fileExists: string -> bool)
    requires DistinctNames(bookPaths)
    ensures var r := SyncedPaths(bookPaths, paths, num, fileExists);
      var kept := Kept(bookPaths, AllPaths(paths, Count(num)));
      DistinctNames(r) && Extends(r, kept) &&
      (forall q :: q in kept <==> q in bookPaths && exists i :: 0 <= i < Count(num) && PathAt(paths, i) == Some(q)) &&
      (forall k :: |kept| <= k < |r| ==>
        (exists i :: 0 <= i < Count(num) && PathAt(paths, i) == Some(r[k])) &&
        CheckPath(r[k], fileExists) == Exists && BookName(r[k]) !in Names(r[..k]))
  {
    var allPaths := AllPaths(paths, Count(num));
    AllPathsAreConfigured(paths, Count(num));
    KeptIsFilter(bookPaths, |bookPaths|, allPaths);
    assert bookPaths[..|bookPaths|] == bookPaths;
    KeptKeepsNamesDistinct(bookPaths, |bookPaths|, allPaths);
    var kept := Kept(bookPaths, allPaths);
    AddAllAppends(kept, allPaths, fileExists);
    AddAllKeepsNamesDistinct(kept, allPaths, fileExists);
  }

  /** After a sync every configured path that exists has a book of its name. */
  lemma SyncLoadsEveryExistingBook(bookPaths: seq<string>, paths: seq<Option<string>>, num: int, fileExists: string -> bool)
    ensures var r := SyncedPaths(bookPaths, paths, num, fileExists);
      forall i :: 0 <= i < Count(num) && CheckPath(PathText(PathAt(paths, i)), fileExists) == Exists ==>
        ExtractNameFromPath(PathAt(paths, i)) in Names(r)
  {
    var allPaths := AllPaths(paths, Count(num));
    AllPathsAreConfigured(paths, Count(num));
    var r := SyncedPaths(bookPaths, paths, num, fileExists);
    AddAllCovers(Kept(bookPaths, allPaths), allPaths, fileExists);
    forall i | 0 <= i < Count(num) && CheckPath(PathText(PathAt(paths, i)), fileExists) == Exists
      ensures ExtractNameFromPath(PathAt(paths, i)) in Names(r)
    {
      assert PathAt(paths, i) in allPaths;
    }
  }

  /** A second sync with the same settings and the same files adds and removes nothing. */
  lemma SyncIdempotent(bookPaths: seq<string>, paths: seq<Option<string>>, num: int, fileExists: string -> bool)
    ensures var r := SyncedPaths(bookPaths, paths, num, fileExists);
      SyncedPaths(r, paths, num, fileExists) == r
  {
    var allPaths := AllPaths(paths, Count(num));
    var kept := Kept(bookPaths, allPaths);
    var r := SyncedPaths(bookPaths, paths, num, fileExists);
    KeptIsFilter(bookPaths, |bookPaths|, allPaths);
    AddAllAppends(kept, allPaths, fileExists);
    forall q | q in r ensures Some(q) in allPaths {
      var k :| 0 <= k < |r| && r[k] == q;
      if k < |kept| {
        assert q == r[..|kept|][k];
      }
    }
    KeptAllListed(r, |r|, allPaths);
    assert r[..|r|] == r;
    AddAllCovers(kept, allPaths, fileExists);
    AddAllNothingNew(r, allPaths, fileExists);
  }

  /** The paths of the books, in the registry's order. */
  function Paths(books: seq<VocabularyBook>): (ps: seq<string>)
    ensures |ps| == |books| && forall i :: 0 <= i < |books| ==> ps[i] == books[i].path
  {
    seq(|books|, i requires 0 <= i < |books| => books[i].path)
  }

  /** Deleting the `k`-th book deletes its path. */
  lemma PathsDelete(books: seq<VocabularyBook>, k: nat)
    requires k < |books|
    ensures Paths(books[..k] + books[k + 1..]) == Paths(books)[..k] + Paths(books)[k + 1..]
  {
  }

  /** The removal pass's cursor: the path under it is the next original path. */
  lemma SplitAtCursor(ps: seq<string>, done: seq<string>, origPaths: seq<string>, j: nat)
    requires j <= |origPaths| && |done| < |ps| && ps == done + origPaths[j..]
    ensures j < |origPaths| && ps[|done|] == origPaths[j]
    ensures ps[..|done|] + ps[|done| + 1..] == done + origPaths[j + 1..]
    ensures ps == (done + [origPaths[j]]) + origPaths[j + 1..]
  {
    assert origPaths[j..] == [origPaths[j]] + origPaths[j + 1..];
    assert ps[..|done|] == done;
    assert ps[|done| + 1..] == origPaths[j + 1..];
  }

  /** The removal pass deletes the book under its cursor when its path is not configured. */
  lemma RemovalDrops(kept: seq<VocabularyBook>, k: nat, done: seq<string>, origPaths: seq<string>, j: nat, allPaths: seq<Option<string>>)
    requires j <= |origPaths| && k == |done| < |kept| && Paths(kept) == done + origPaths[j..]
    requires done == KeptUpTo(origPaths, j, allPaths) && Some(kept[k].path) !in allPaths
    ensures j < |origPaths| && done == KeptUpTo(origPaths, j + 1, allPaths)
    ensures Paths(kept[..k] + kept[k + 1..]) == done + origPaths[j + 1..]
  {
    SplitAtCursor(Paths(kept), done, origPaths, j);
    PathsDelete(kept, k);
  }

  /** The removal pass steps over the book under its cursor when its path is configured. */
  lemma RemovalKeeps(kept: seq<VocabularyBook>, k: nat, done: seq<string>, origPaths: seq<string>, j: nat, allPaths: seq<Option<string>>)
    requires j <= |origPaths| && k == |done| < |kept| && Paths(kept) == done + origPaths[j..]
    requires done == KeptUpTo(origPaths, j, allPaths) && Some(kept[k].path) in allPaths
    ensures j < |origPaths| && done + [kept[k].path] == KeptUpTo(origPaths, j + 1, allPaths)
    ensures Paths(kept) == (done + [kept[k].path]) + origPaths[j + 1..]
  {
    SplitAtCursor(Paths(kept), done, origPaths, j);
  }

  /** When the removal pass's cursor reaches the end, what is left is what `Kept` keeps. */
  lemma RemovalDone(ps: seq<string>, done: seq<string>, origPaths: seq<string>, j: nat, allPaths: seq<Option<string>>)
    requires j <= |origPaths| && |ps| == |done| && ps == done + origPaths[j..]
    requires done == KeptUpTo(origPaths, j, allPaths)
    ensures ps == Kept(origPaths, allPaths)
    ensures DistinctNames(origPaths) ==> DistinctNames(ps)
  {
    assert |origPaths[j..]| == 0;
    if DistinctNames(origPaths) {
      KeptKeepsNamesDistinct(origPaths, |origPaths|, allPaths);
    }
  }

  /** Deleting an element leaves only elements that were there. */
  lemma DeleteKeepsMembers<T>(s: seq<T>, k: nat)
    requires k < |s|
    ensures forall x :: x in s[..k] + s[k + 1..] ==> x in s
  {
  }

  /** One iteration of the addition pass. */
  lemma AddAllStep(ps: seq<string>, cands: seq<Option<string>>, m: nat, fileExists: string -> bool)
    requires m < |cands|
    ensures AddAll(ps, cands[m..], fileExists) == AddAll(AddOne(ps, cands[m], fileExists), cands[m + 1..], fileExists)
  {
    assert cands[m..][1..] == cands[m + 1..];
  }

  /** A book is added only under a name not yet taken. */
  lemma AddOneKeepsNamesDistinct(ps: seq<string>, p: Option<string>, fileExists: string -> bool)
    requires DistinctNames(ps)
    ensures DistinctNames(AddOne(ps, p, fileExists))
  {
    AddOneCovers(ps, p, fileExists);
    var r := AddOne(ps, p, fileExists);
    if r != ps {
      forall i | 0 <= i < |ps| ensures BookName(r[i]) != BookName(r[|ps|]) {
        assert Names(ps)[i] == BookName(ps[i]);
      }
    }
  }

  /** The plugin: its two settings and its registry of books. */
  class VocabularyView {
    var numOfVocabularyBooks: int
    var vocabularyBookPaths: seq<Option<string>>
    /** The `Map<string, VocabularyBook>`, as its values in insertion order; each is filed under its own name. */
    var books: seq<VocabularyBook>

    ghost predicate Valid()
      reads this, books
    {
      (forall b :: b in books ==> b.Valid()) && DistinctNames(Paths(books))
    }

    /** `syncVocabularyBooksWithSettings()`: collects `allPaths`, then runs the removal and the addition pass. */
    method SyncVocabularyBooksWithSettings(fileExists: string -> bool, read: string -> string)
      requires Valid()
      modifies this
      ensures Valid()
      ensures numOfVocabularyBooks == old(numOfVocabularyBooks) && vocabularyBookPaths == old(vocabularyBookPaths)
      ensures Paths(books) == SyncedPaths(Paths(old(books)), vocabularyBookPaths, numOfVocabularyBooks, fileExists)
      ensures forall i :: 0 <= i < |books| ==>
        books[i] in old(books) || (fresh(books[i]) && books[i].cache == Loaded(read(books[i].path), []))
    {
      var allPaths := CollectAllPaths(vocabularyBookPaths, numOfVocabularyBooks);
      RemoveUnlistedBooks(allPaths);
      AddListedBooks(allPaths, fileExists, read);
    }

    /** The removal pass: deletes, while iterating, every book whose path is not in `allPaths`. */
    method RemoveUnlistedBooks(allPaths: seq<Option<string>>)
      requires Valid()
      modifies this
      ensures Valid()
      ensures numOfVocabularyBooks == old(numOfVocabularyBooks) && vocabularyBookPaths == old(vocabularyBookPaths)
      ensures Paths(books) == Kept(Paths(old(books)), allPaths)
      ensures forall b :: b in books ==> b in old(books)
    {
      var kept := RemoveUnlisted(books, allPaths);
      KeptKeepsNamesDistinct(Paths(books), |books|, allPaths);
      books := kept;
    }

    /**
     * The addition pass: for every path of `allPaths` whose name is not a key
     * yet and whose status is `EXISTS`, files a new book under its name and
     * loads it.
     */
    method AddListedBooks(allPaths: seq<Option<string>>, fileExists: string -> bool, read: string -> string)
      requires Valid()
      modifies this
      ensures Valid()
      ensures numOfVocabularyBooks == old(numOfVocabularyBooks) && vocabularyBookPaths == old(vocabularyBookPaths)
      ensures Paths(books) == AddAll(Paths(old(books)), allPaths, fileExists)
      ensures forall i :: 0 <= i < |books| ==>
        books[i] in old(books) || (fresh(books[i]) && books[i].cache == Loaded(read(books[i].path), []))
    {
      var added := AddListed(books, allPaths, fileExists, read);
      AddAllKeepsNamesDistinct(Paths(books), allPaths, fileExists);
      books := added;
    }
  }

  /**
   * The removal loop: walks `books` and deletes, as it goes, every book whose
   * path is not in `allPaths`.
   */
  method RemoveUnlisted(books: seq<VocabularyBook>, allPaths: seq<Option<string>>) returns (kept: seq<VocabularyBook>)
    ensures Paths(kept) == Kept(Paths(books), allPaths)
    ensures forall b :: b in kept ==> b in books
  {
    kept := books;
    ghost var origPaths := Paths(books);
    ghost var done: seq<string> := [];
    var k := 0;
    ghost var j := 0;
    while k < |kept|
      invariant 0 <= j <= |origPaths| && k == |done|
      invariant done == KeptUpTo(origPaths, j, allPaths)
      invariant Paths(kept) == done + origPaths[j..]
      invariant forall b :: b in kept ==> b in books
      decreases |kept| - k
    {
      if Some(kept[k].path) !in allPaths {
        RemovalDrops(kept, k, done, origPaths, j, allPaths);
        DeleteKeepsMembers(kept, k);
        kept := kept[..k] + kept[k + 1..];
      } else {
        RemovalKeeps(kept, k, done, origPaths, j, allPaths);
        done := done + [kept[k].path];
        k := k + 1;
      }
      j := j + 1;
    }
    RemovalDone(Paths(kept), done, origPaths, j, allPaths);
  }

  /** A book the addition pass has just made: well formed, and holding the words of the file at its path. */
  ghost predicate LoadedNew(b: VocabularyBook, read: string -> string)
    reads b
  {
    b.Valid() && b.cache == Loaded(read(b.path), [])
  }

  /**
   * The addition loop: walks `allPaths` and, for each path whose name is not
   * taken yet and whose status is `EXISTS`, appends a new book at that path
   * and loads its file.
   */
  method AddListed(books: seq<VocabularyBook>, allPaths: seq<Option<string>>, fileExists: string -> bool, read: string -> string)
    returns (r: seq<VocabularyBook>)
    ensures Paths(r) == AddAll(Paths(books), allPaths, fileExists)
    ensures forall b :: b in r ==> b in books || (fresh(b) && LoadedNew(b, read))
  {
    r := books;
    var m := 0;
    while m < |allPaths|
      invariant 0 <= m <= |allPaths|
      invariant AddAll(Paths(r), allPaths[m..], fileExists) == AddAll(Paths(books), allPaths, fileExists)
      invariant forall b :: b in r ==> b in books || (fresh(b) && LoadedNew(b, read))
    {
      AddAllStep(Paths(r), allPaths, m, fileExists);
      r := AddListedBook(r, allPaths[m], fileExists, read);
      m := m + 1;
    }
  }

  /**
   * One iteration of the addition loop: appends a new, loaded book at `p`
   * when `p`'s name is not taken yet and its status is `EXISTS`.
   */
  method AddListedBook(books: seq<VocabularyBook>, p: Option<string>, fileExists: string -> bool, read: string -> string)
    returns (r: seq<VocabularyBook>)
    ensures Paths(r) == AddOne(Paths(books), p, fileExists)
    ensures r == books || exists b :: r == books + [b] && fresh(b) && LoadedNew(b, read)
  {
    r := books;
    ghost var ps := Paths(books);
    var bookName := ExtractNameFromPath(p);
    if bookName !in Names(Paths(books)) {
      var status := CheckPath(PathText(p), fileExists);
      if status == Exists {
        UndefinedPathInvalid(fileExists);
        var book := NewLoadedBook(p.value, read);
        assert Paths(books + [book]) == ps + [p.value];
        r := books + [book];
      } else {
        assert AddOne(ps, p, fileExists) == ps;
      }
    } else {
      assert AddOne(ps, p, fileExists) == ps;
    }
  }

  /**
   * `new VocabularyBook(path)` followed by `loadWordsFromDiskToCache()`. The
   * load touches the new book alone, so loading it before filing it in the
   * registry leaves the same registry.
   */
  method NewLoadedBook(path: string, read: string -> string) returns (book: VocabularyBook)
    ensures fresh(book) && book.path == path && LoadedNew(book, read)
  {
    book := new VocabularyBook(path);
    book.LoadWordsFromDiskToCache(read(path));
  }

  /** The loop that fills `allPaths` from the first `num` configured paths. */
  method CollectAllPaths(paths: seq<Option<string>>, num: int) returns (allPaths: seq<Option<string>>)
    ensures allPaths == AllPaths(paths, Count(num))
  {
    allPaths := [];
    var i := 0;
    while i < Count(num)
      invariant 0 <= i <= Count(num) && allPaths == AllPaths(paths, i)
    {
      var p := PathAt(paths, i);
      if p !in allPaths {
        allPaths := allPaths + [p];
      }
      i := i + 1;
    }
  }
}
