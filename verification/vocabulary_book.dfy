/**
 * A vocabulary book: one note of the vault whose first vocabulary block holds
 * the words, cached in memory as an insertion-ordered map from term to word.
 * Reading the note is a parameter (`content`, what the file system returns)
 * and writing it is a result (`written`, what is handed back to be stored).
 */
module VocabularyBooks {
  import opened Options
  import opened JsStrings
  import opened WordPairs
  import opened VocaviewBlocks
  import opened CacheMaps
  import opened BookFiles

  /** The first piece of a split is the text before the first separator. */
  lemma SplitHead(s: string, c: char)
    ensures c !in Split(s, c)[0]
    ensures Split(s, c)[0] == s[..|Split(s, c)[0]|]
  {
    match IndexOf(s, c)
    case None =>
    case Some(i) =>
  }

  /**
   * `extractNameFromPath`: the last `/`-separated component of the path, up
   * to its first `.`; the empty name when the path is undefined.
   */
  function ExtractNameFromPath(path: Option<string>): (name: string)
    ensures '/' !in name && '.' !in name
    ensures path.None? ==> name == ""
  {
    match path
    case None => ""
    case Some(p) =>
      var components := Split(p, '/');
      var last := components[|components| - 1];
      SplitPiecesAreSeparatorFree(p, '/');
      SplitHead(last, '.');
      Split(last, '.')[0]
  }

  /** A file name without a dot is its own name. */
  lemma ExtractNameNoDot(file: string)
    requires '/' !in file && '.' !in file
    ensures ExtractNameFromPath(Some(file)) == file
  {
    assert IndexOf(file, '/').None?;
    assert IndexOf(file, '.').None?;
  }

  /** A file name is cut at its first dot. */
  lemma ExtractNameOfFile(stem: string, ext: string)
    requires '/' !in stem && '.' !in stem && '/' !in ext
    ensures ExtractNameFromPath(Some(stem + "." + ext)) == stem
  {
    var file := stem + "." + ext;
    forall k | 0 <= k < |file| ensures file[k] != '/' {
      if k > |stem| {
        assert file[k] == ext[k - |stem| - 1];
      }
    }
    assert IndexOf(file, '/').None?;
    SplitAtFirst(stem, '.', ext);
  }

  /**
   * The text `loadWordsFromDiskToCache()` parses: the first match of the
   * block's pattern, split into lines, without its first and last line,
   * joined again; nothing when the file has no block.
   */
  method BlockText(content: string) returns (text: Option<string>)
    ensures text == BlockBody(content)
  {
    var found := FindBlock(content);
    if found.Some? {
      var b := found.value;
      FindBlockIsFirstMatch(content);
      BodyOfMatch(content, b);
      ghost var body := Body(content, b);
      assert BlockBody(content) == Some(body);
      var lines := Split(MatchText(content, b), '\n');
      ghost var inner := lines[1..|lines| - 1];
      lines := lines[1..];
      if |lines| > 0 {
        lines := lines[..|lines| - 1];
      }
      assert lines == inner;
      text := Some(Join(lines, '\n'));
    } else {
      text := None;
    }
  }

  /** The directories in front of a file name do not change the name. */
  lemma ExtractNameInDir(dir: string, file: string)
    requires '/' !in file
    ensures ExtractNameFromPath(Some(dir + "/" + file)) == ExtractNameFromPath(Some(file))
  {
    SplitAround(dir, '/', file);
    assert IndexOf(file, '/').None?;
    assert Split(file, '/') == [file];
  }

  class VocabularyBook {
    const path: string
    const name: string
    /** The cache `Map<string, Word>`, as its entries in insertion order. */
    var cache: seq<Word>

    /** The name is derived from the path, and the cache holds each term once. */
    ghost predicate Valid()
      reads this
    {
      name == ExtractNameFromPath(Some(path)) && DistinctTerms(cache)
    }

    /** A book for the note at `path`, with an empty cache. */
    constructor (path: string)
      ensures Valid() && this.path == path && cache == []
    {
      this.path := path;
      this.name := ExtractNameFromPath(Some(path));
      cache := [];
    }

    /** `getVocabularyBookName()`: the path's last component up to its first dot. */
    function VocabularyBookName(): (r: string)
      reads this
      requires Valid()
      ensures r == ExtractNameFromPath(Some(path)) && '/' !in r && '.' !in r
    {
      name
    }

    /** `getVocabularyBookPath()`. */
    function VocabularyBookPath(): string {
      path
    }

    /** `hasWord(term)`: the cache has the key `term`. */
    function HasWord(term: string): (b: bool)
      reads this
      ensures b <==> term in AsMap(cache)
    {
      AsMapKeys(cache, term);
      HasTerm(cache, term)
    }

    /**
     * `addWord(w)`: sets `w` under its term, then saves. The term keeps its
     * position if it was cached and goes last otherwise.
     */
    method AddWord(w: Word, content: string) returns (written: string)
      requires Valid()
      modifies this
      ensures Valid() && cache == MapSet(old(cache), w)
      ensures AsMap(cache) == AsMap(old(cache))[w.word := w]
      ensures written == SaveText(content, cache)
    {
      MapSetUpdates(cache, w);
      cache := MapSet(cache, w);
      written := SaveWordsFromCacheToDisk(content);
    }

    /** `removeWord(w)`: deletes `w`'s term from the cache, then saves. */
    method RemoveWord(w: Word, content: string) returns (written: string)
      requires Valid()
      modifies this
      ensures Valid() && cache == MapDelete(old(cache), w.word)
      ensures AsMap(cache) == AsMap(old(cache)) - {w.word}
      ensures written == SaveText(content, cache)
    {
      MapDeleteRemoves(cache, w.word);
      cache := MapDelete(cache, w.word);
      written := SaveWordsFromCacheToDisk(content);
    }

    /**
     * `loadWordsFromDiskToCache()`: without a block the cache is kept;
     * otherwise the block's lines other than the first and the last are
     * parsed, the cache is cleared and every parsed word is set in order.
     */
    method LoadWordsFromDiskToCache(content: string)
      requires Valid()
      modifies this
      ensures Valid() && cache == Loaded(content, old(cache))
    {
      var text := BlockText(content);
      if text.Some? {
        var words := new Words(text.value, ':');
        ghost var ws := words.words;
        cache := [];
        var it := new WordsIterator(words);
        while true
          invariant it.Valid() && it.wordsArr == ws
          invariant cache == SetAll([], ws[..it.nextIndex])
          decreases |ws| - it.nextIndex
        {
          var w, done := it.Next();
          if done {
            break;
          }
          TakeSnoc(ws, it.nextIndex);
          cache := MapSet(cache, w);
        }
        assert ws[..it.nextIndex] == ws;
        SetAllIsLastWins(ws);
      }
    }

    /** The body both branches of `save` accumulate: every entry's line and a newline, in insertion order. */
    method SerialiseCache() returns (body: string)
      ensures body == Serialise(cache)
    {
      body := "";
      var i := 0;
      while i < |cache|
        invariant 0 <= i <= |cache|
        invariant body == Serialise(cache[..i])
      {
        SerialiseSnoc(cache[..i], cache[i]);
        assert cache[..i + 1] == cache[..i] + [cache[i]];
        body := body + cache[i].word + ": " + cache[i].explanation + "\n";
        i := i + 1;
      }
      assert cache[..i] == cache;
    }

    /**
     * `saveWordsFromCacheToDisk()`: replaces the first occurrence of the
     * first block's text by its header line, the trimmed body and a closing
     * fence; without a block, appends a new `vocaview-list1` block.
     */
    method SaveWordsFromCacheToDisk(content: string) returns (written: string)
      ensures written == SaveText(content, cache)
    {
      var found := FindBlock(content);
      if found.Some? {
        var b := found.value;
        FirstOccurrenceIsBlock(content);
        HeaderLineOfMatch(content, b);
        var body := SerialiseCache();
        var m := MatchText(content, b);
        var header := m[..IndexOf(m, '\n').value];
        assert header == HeaderLine(content, b);
        var replacement := header + "\n" + Trim(body) + "\n```";
        written := ReplaceFirst(content, m, replacement);
        assert written == content[..b.start] + replacement + content[b.start + |m|..];
        SpliceIsLayout(content, b, Trim(body));
        SaveTextFound(content, cache, b);
      } else {
        var body := SerialiseCache();
        written := content + "\n```vocaview-list1\n" + Trim(body) + "\n```";
        AppendIsLayout(content, Trim(body));
      }
    }
  }

  /** Appending a new block lays the note out around it. */
  lemma AppendIsLayout(content: string, body: string)
    ensures content + "\n```vocaview-list1\n" + body + "\n```" == Layout(content + "\n", NewBlockHeader, body, "")
  {
    assert "\n```vocaview-list1\n" == "\n" + NewBlockHeader + "\n";
  }

  /** Splicing a rewritten block over the first block's text lays the note out around the new body. */
  lemma SpliceIsLayout(s: string, b: Block, body: string)
    requires IsShortestMatch(s, b)
    ensures var m := MatchText(s, b);
      b.start + |m| <= |s| &&
      s[..b.start] + (HeaderLine(s, b) + "\n" + body + "\n```") + s[b.start + |m|..]
        == Layout(s[..b.start], HeaderLine(s, b), body, s[b.closeAt + |Closing|..])
  {
  }
}
