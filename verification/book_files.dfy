/**
 * The vocabulary book's file format as vocabularybook.ts reads and writes it:
 * the words live in the first vocabulary block of a note, one
 * `term: explanation` line each. Saving rewrites that block's body (or
 * appends a new `vocaview-list1` block); loading parses the first block's
 * body back into the cache.
 */
module BookFiles {
  import opened Options
  import opened JsStrings
  import opened WordPairs
  import opened VocaviewBlocks
  import opened CacheMaps

  /** The line `save` writes for one cache entry: `${word}: ${explanation}`. */
  function Line(w: Word): string {
    w.word + ": " + w.explanation
  }

  /** The body `save` accumulates: every entry's line followed by a newline, in insertion order. */
  function Serialise(es: seq<Word>): string {
    if es == [] then "" else Line(es[0]) + "\n" + Serialise(es[1..])
  }

  /** Appending one entry's line, as the loop in `save` does. */
  lemma {:induction false} SerialiseSnoc(es: seq<Word>, w: Word)
    ensures Serialise(es + [w]) == Serialise(es) + Line(w) + "\n"
    decreases |es|
  {
    if es != [] {
      assert (es + [w])[1..] == es[1..] + [w];
      SerialiseSnoc(es[1..], w);
    }
  }

  /** The lines of the entries. */
  function Lines(es: seq<Word>): seq<string> {
    seq(|es|, i requires 0 <= i < |es| => Line(es[i]))
  }

  /** The accumulated body of a non-empty cache is its lines joined by newlines, plus a final newline. */
  lemma {:induction false} SerialiseIsJoin(es: seq<Word>)
    requires es != []
    ensures Serialise(es) == Join(Lines(es), '\n') + "\n"
    decreases |es|
  {
    var r := es[1..];
    if r == [] {
      assert Lines(es) == [Line(es[0])];
    } else {
      SerialiseIsJoin(r);
      assert Lines(es) == [Line(es[0])] + Lines(r);
    }
  }

  /** A note laid out around a block: text before, header line, newline, body, closing fence, text after. */
  function Layout(pre: string, header: string, body: string, post: string): string {
    pre + header + "\n" + body + Closing + post
  }

  /** The header line of the block `save` appends when the note has none. */
  const NewBlockHeader: string := "```vocaview-list1"

  /**
   * `saveWordsFromCacheToDisk` as a function from the note's content to the
   * content it writes: the first block keeps its header line and everything
   * around it, and gets the trimmed serialisation as its body; without a
   * block, a new one is appended after a newline.
   */
  function SaveText(content: string, es: seq<Word>): string {
    var body := Trim(Serialise(es));
    match FindBlock(content)
    case Some(b) =>
      FindBlockIsFirstMatch(content);
      Layout(content[..b.start], HeaderLine(content, b), body, content[b.closeAt + |Closing|..])
    case None => Layout(content + "\n", NewBlockHeader, body, "")
  }

  /** With a block, `save` lays the note out around the block's header line and the new body. */
  lemma SaveTextFound(content: string, es: seq<Word>, b: Block)
    requires FindBlock(content) == Some(b) && IsShortestMatch(content, b)
    ensures SaveText(content, es) == Layout(content[..b.start], HeaderLine(content, b), Trim(Serialise(es)), content[b.closeAt + |Closing|..])
  {
  }

  /** The header line of the note's first block, if it has one. */
  function BlockHeader(content: string): Option<string> {
    match FindBlock(content)
    case None => None
    case Some(b) =>
      FindBlockIsFirstMatch(content);
      Some(HeaderLine(content, b))
  }

  /** The body of the note's first block, if it has one. */
  function BlockBody(content: string): Option<string> {
    match FindBlock(content)
    case None => None
    case Some(b) =>
      FindBlockIsFirstMatch(content);
      Some(Body(content, b))
  }

  /**
   * `loadWordsFromDiskToCache` as a function: without a block the cache is
   * kept; otherwise it becomes the words parsed from the first block's body,
   * set one after another into an emptied map.
   */
  function Loaded(content: string, current: seq<Word>): seq<Word> {
    match BlockBody(content)
    case None => current
    case Some(body) => SetAll([], Parse(body, ':'))
  }

  /** Loading maps every term of the block to its last definition there, and keeps the map's keys distinct. */
  lemma LoadLastDuplicateWins(content: string, current: seq<Word>)
    requires BlockBody(content).Some?
    ensures DistinctTerms(Loaded(content, current))
    ensures AsMap(Loaded(content, current)) == LastWins(Parse(BlockBody(content).value, ':'))
  {
    SetAllIsLastWins(Parse(BlockBody(content).value, ':'));
  }

  // ---- Reading back what was written ----

  /** A header line: the opening fence followed by one or more word characters. */
  predicate IsHeaderLine(h: string) {
    |Opening| < |h| && h[..|Opening|] == Opening && AllWordChars(h, |Opening|, |h|)
  }

  /** No header line lies inside `s`. */
  ghost predicate NoHeaderIn(s: string) {
    forall q: nat, e: nat :: !HeaderEndsAt(s, q, e)
  }

  /** No closing fence lies inside `s`. */
  ghost predicate NoClosingIn(s: string) {
    forall k: nat :: !ClosingAt(s, k)
  }

  /** A block's header line has the header shape. */
  lemma HeaderLineShape(s: string, b: Block)
    requires IsShortestMatch(s, b)
    ensures IsHeaderLine(HeaderLine(s, b))
  {
    var h := HeaderLine(s, b);
    forall k | 0 <= k < |Opening| ensures h[k] == Opening[k] {
      CharOfOccurrence(s, Opening, b.start, k);
    }
    assert h[..|Opening|] == Opening;
    forall k | |Opening| <= k < |h| ensures IsWordChar(h[k]) {
      assert h[k] == s[b.start + k];
    }
  }

  /** The header `save` appends has the header shape. */
  lemma NewBlockHeaderShape()
    ensures IsHeaderLine(NewBlockHeader)
  {
    var h := NewBlockHeader;
    assert h[..|Opening|] == Opening;
    forall k | |Opening| <= k < |h| ensures IsWordChar(h[k]) {
      assert h[k] in "list1";
    }
  }

  /** The header of a laid-out note is found where it was put. */
  lemma LayoutHeader(pre: string, h: string, body: string, post: string)
    requires IsHeaderLine(h)
    ensures HeaderEndsAt(Layout(pre, h, body, post), |pre|, |pre| + |h|)
    ensures Layout(pre, h, body, post)[|pre|..|pre| + |h|] == h
  {
    var s := Layout(pre, h, body, post);
    forall k | 0 <= k < |h| ensures s[|pre| + k] == h[k] {
    }
    assert s[|pre| + |h|] == '\n';
    assert s[|pre|..|pre| + |h|] == h;
    assert s[|pre|..|pre| + |Opening|] == h[..|Opening|];
    forall k | |pre| + |Opening| <= k < |pre| + |h| ensures IsWordChar(s[k]) {
      assert s[k] == h[k - |pre|];
    }
  }

  /** The body of a laid-out note sits between the header's newline and the closing fence. */
  lemma LayoutBody(pre: string, h: string, body: string, post: string)
    ensures var s := Layout(pre, h, body, post);
      var c := |pre| + |h| + 1 + |body|;
      c + |Closing| <= |s| && s[|pre| + |h| + 1..c] == body && OccursAt(s, body, |pre| + |h| + 1) && ClosingAt(s, c)
  {
    var s := Layout(pre, h, body, post);
    var c := |pre| + |h| + 1 + |body|;
    assert s[|pre| + |h| + 1..c] == body;
    assert s[c..c + |Closing|] == Closing;
  }

  /** A closing fence cannot start in the last three characters before another one. */
  lemma ClosingsDoNotOverlap(s: string, k: nat, c: nat)
    requires ClosingAt(s, k) && ClosingAt(s, c) && k < c
    ensures k + |Closing| <= c
  {
    if c < k + |Closing| {
      CharOfOccurrence(s, Closing, c, 0);
      CharOfOccurrence(s, Closing, k, c - k);
    }
  }

  /** A closing fence of `s` that lies inside an occurrence of `m` is a closing fence of `m`. */
  lemma ClosingWithin(s: string, m: string, p: nat, k: nat)
    requires OccursAt(s, m, p) && ClosingAt(s, k) && p <= k && k + |Closing| <= p + |m|
    ensures ClosingAt(m, k - p)
  {
    OccursWithin(s, m, p, Closing, k - p);
  }

  /** With no closing fence inside the body, the first one after the header is the one that ends the body. */
  lemma LayoutClosing(pre: string, h: string, body: string, post: string)
    requires NoClosingIn(body)
    ensures var s := Layout(pre, h, body, post);
      forall k :: |pre| + |h| < k < |pre| + |h| + 1 + |body| ==> !ClosingAt(s, k)
  {
    var s := Layout(pre, h, body, post);
    var c := |pre| + |h| + 1 + |body|;
    LayoutBody(pre, h, body, post);
    forall k | |pre| + |h| < k < c && ClosingAt(s, k) ensures false {
      ClosingsDoNotOverlap(s, k, c);
      ClosingWithin(s, body, |pre| + |h| + 1, k);
    }
  }

  /** A header line of a string lies in a prefix of it exactly when it is one of that prefix. */
  lemma HeaderInPrefix(s: string, pre: string, q: nat, e: nat)
    requires |pre| <= |s| && s[..|pre|] == pre && e < |pre|
    ensures HeaderEndsAt(s, q, e) <==> HeaderEndsAt(pre, q, e)
  {
    forall k | 0 <= k < |pre| ensures s[k] == pre[k] {
      assert s[..|pre|][k] == s[k];
    }
    if q + |Opening| <= |pre| {
      assert s[q..q + |Opening|] == pre[q..q + |Opening|];
    }
  }

  /** Before a laid-out block, only the text before it could hold a header line. */
  lemma LayoutNoHeaderBefore(pre: string, h: string, body: string, post: string)
    requires IsHeaderLine(h) && NoHeaderIn(pre)
    ensures NoHeaderBefore(Layout(pre, h, body, post), |pre|)
  {
    var s := Layout(pre, h, body, post);
    LayoutHeader(pre, h, body, post);
    assert s[..|pre|] == pre;
    forall q: nat, e: nat | q < |pre| && HeaderEndsAt(s, q, e) ensures false {
      HeaderEndsBeforeOpening(s, q, e, |pre|);
      HeaderInPrefix(s, pre, q, e);
    }
  }

  /** A shortest match with no header line before it is the block `load` reads. */
  lemma FirstBlockRead(s: string, b: Block)
    requires IsShortestMatch(s, b) && NoHeaderBefore(s, b.start)
    ensures FindBlock(s) == Some(b)
    ensures BlockHeader(s) == Some(s[b.start..b.headerEnd]) && BlockBody(s) == Some(s[b.headerEnd + 1..b.closeAt])
  {
    FindBlockFromReaches(s, b, 0);
  }

  /**
   * A note laid out around a block, with no header line before it and no
   * closing fence in its body, is read back with exactly that block: the
   * search finds it first, with the same header line and the same body.
   */
  lemma LayoutFound(pre: string, h: string, body: string, post: string)
    requires IsHeaderLine(h) && NoHeaderIn(pre) && NoClosingIn(body)
    ensures var s := Layout(pre, h, body, post);
      FindBlock(s) == Some(Block(|pre|, |pre| + |h|, |pre| + |h| + 1 + |body|)) &&
      BlockHeader(s) == Some(h) && BlockBody(s) == Some(body)
  {
    var s := Layout(pre, h, body, post);
    var b := Block(|pre|, |pre| + |h|, |pre| + |h| + 1 + |body|);
    LayoutHeader(pre, h, body, post);
    LayoutBody(pre, h, body, post);
    LayoutClosing(pre, h, body, post);
    LayoutNoHeaderBefore(pre, h, body, post);
    FirstBlockRead(s, b);
  }

  /** A laid-out note starts with the text before the block and ends with the text after it. */
  lemma LayoutKeepsOutside(pre: string, h: string, body: string, post: string)
    ensures var s := Layout(pre, h, body, post);
      |pre| + |post| <= |s| && s[..|pre|] == pre && s[|s| - |post|..] == post
  {
    var s := Layout(pre, h, body, post);
    assert s[..|pre|] == pre;
    assert s[|s| - |post|..] == post;
  }

  /** The text before a note's first block holds no header line. */
  lemma NoHeaderBeforeBlock(content: string, b: Block)
    requires FindBlock(content) == Some(b) && IsShortestMatch(content, b)
    ensures NoHeaderIn(content[..b.start])
  {
    var pre := content[..b.start];
    NoHeaderBeforeFirstBlock(content);
    forall q: nat, e: nat | HeaderEndsAt(pre, q, e) ensures false {
      HeaderInPrefix(content, pre, q, e);
    }
  }

  /** A note with no opening fence, plus a newline, holds no header line. */
  lemma NoHeaderWithoutOpening(content: string)
    requires forall q: nat :: !OccursAt(content, Opening, q)
    ensures NoHeaderIn(content + "\n")
  {
    forall q: nat, e: nat | HeaderEndsAt(content + "\n", q, e) ensures false {
      OccursInPrefix(content, "\n", Opening, q);
    }
  }

  // ---- The body round trip ----

  /**
   * An entry `save` can write and `load` read back unchanged: a non-empty,
   * trimmed term without `:` or newline that does not start a closing fence,
   * and a non-empty, trimmed explanation without newline.
   */
  predicate Storable(w: Word) {
    && w.word != "" && IsTrimmed(w.word) && ':' !in w.word && '\n' !in w.word && !StartsWith(w.word, "```")
    && w.explanation != "" && IsTrimmed(w.explanation) && '\n' !in w.explanation
  }

  /** Every entry is storable. */
  predicate AllStorable(es: seq<Word>) {
    forall i :: 0 <= i < |es| ==> Storable(es[i])
  }

  /** The line of a storable entry parses back to the entry. */
  lemma ParseLineOfEntry(w: Word)
    requires Storable(w)
    ensures ParseLine(Line(w), ':') == Some(w)
  {
    assert Line(w) == w.word + [':'] + ([' '] + w.explanation);
    ParseLineSplitsAtFirstSeparator(w.word, ':', [' '] + w.explanation);
    TrimIsTrimmed(w.word);
    TrimAfterWhitespace(' ', w.explanation);
  }

  /** The line of a storable entry is at least three characters long, holds no newline and starts no fence. */
  lemma LineShape(w: Word)
    requires Storable(w)
    ensures |Line(w)| >= 3 && '\n' !in Line(w) && !StartsWith(Line(w), "```")
  {
    var l := Line(w);
    assert l == w.word + [':', ' '] + w.explanation;
    if |w.word| >= 3 {
      assert l[..3] == w.word[..3];
    } else {
      assert l[..3][|w.word|] == ':';
    }
  }

  /** The joined lines start with the first line. */
  lemma JoinStartsWith(parts: seq<string>, c: char)
    requires parts != []
    ensures StartsWith(Join(parts, c), parts[0])
  {
    if |parts| > 1 {
      assert Join(parts, c)[..|parts[0]|] == parts[0];
    }
  }

  /** The joined lines end with the last line. */
  lemma {:induction false} JoinEndsWith(parts: seq<string>, c: char)
    requires parts != []
    ensures EndsWith(Join(parts, c), parts[|parts| - 1])
    decreases |parts|
  {
    if |parts| > 1 {
      var r := parts[1..];
      JoinEndsWith(r, c);
      var j, last := Join(parts, c), parts[|parts| - 1];
      assert last == r[|r| - 1];
      assert j == parts[0] + [c] + Join(r, c);
      assert j[|j| - |last|..] == Join(r, c)[|Join(r, c)| - |last|..];
    }
  }

  /** Lines of at least three characters, without newlines and not starting a fence, join into a text without a closing fence. */
  lemma {:induction false} NoClosingInJoin(parts: seq<string>)
    requires forall i :: 0 <= i < |parts| ==> |parts[i]| >= 3 && '\n' !in parts[i] && !StartsWith(parts[i], "```")
    ensures NoClosingIn(Join(parts, '\n'))
    decreases |parts|
  {
    if parts == [] {
    } else if |parts| == 1 {
      forall k: nat | ClosingAt(parts[0], k) ensures false {
        CharOfOccurrence(parts[0], Closing, k, 0);
      }
    } else {
      var p, r := parts[0], parts[1..];
      NoClosingInJoin(r);
      var j, rest := Join(parts, '\n'), Join(r, '\n');
      assert j == p + ['\n'] + rest;
      JoinStartsWith(r, '\n');
      forall k: nat | ClosingAt(j, k) ensures false {
        ClosingInJoinStep(p, rest, r[0], k);
      }
    }
  }

  /** A newline followed by a line that does not start a fence is no closing fence. */
  lemma NoClosingAtNewline(p: string, rest: string, next: string)
    requires |next| >= 3 && StartsWith(rest, next) && !StartsWith(next, "```")
    ensures !ClosingAt(p + ['\n'] + rest, |p|)
  {
    var j := p + ['\n'] + rest;
    if |p| + |Closing| <= |j| {
      assert j[|p| + 1..|p| + 4] == next[..3];
      assert j[|p|..|p| + |Closing|][1..] == j[|p| + 1..|p| + 4];
    }
  }

  /** The step of `NoClosingInJoin`: a closing fence in `p + "\n" + rest` can only lie in `rest`. */
  lemma ClosingInJoinStep(p: string, rest: string, next: string, k: nat)
    requires '\n' !in p && |next| >= 3 && StartsWith(rest, next) && !StartsWith(next, "```")
    requires ClosingAt(p + ['\n'] + rest, k)
    ensures k > |p| && ClosingAt(rest, k - |p| - 1)
  {
    var j := p + ['\n'] + rest;
    CharOfOccurrence(j, Closing, k, 0);
    NoClosingAtNewline(p, rest, next);
    assert OccursAt(j, rest, |p| + 1);
    OccursWithin(j, rest, |p| + 1, Closing, k - |p| - 1);
  }

  /** The trimmed serialisation of storable entries holds no closing fence. */
  lemma SerialisedBodyHasNoClosing(es: seq<Word>)
    requires AllStorable(es)
    ensures NoClosingIn(Trim(Serialise(es)))
  {
    if es != [] {
      SerialisedBody(es);
      var ls := Lines(es);
      forall i | 0 <= i < |ls| ensures |ls[i]| >= 3 && '\n' !in ls[i] && !StartsWith(ls[i], "```") {
        LineShape(es[i]);
      }
      NoClosingInJoin(ls);
    }
  }

  /** Trimming the serialisation of a non-empty storable cache drops exactly its final newline. */
  lemma SerialisedBody(es: seq<Word>)
    requires es != [] && AllStorable(es)
    ensures Trim(Serialise(es)) == Join(Lines(es), '\n')
  {
    var ls := Lines(es);
    SerialiseIsJoin(es);
    var j := Join(ls, '\n');
    JoinStartsWith(ls, '\n');
    JoinEndsWith(ls, '\n');
    var first, last := es[0], es[|es| - 1];
    assert Line(first)[0] == first.word[0];
    assert Line(last)[|Line(last)| - 1] == last.explanation[|last.explanation| - 1];
    assert j[0] == ls[0][0];
    assert j[|j| - 1] == ls[|ls| - 1][|ls[|ls| - 1]| - 1];
    TrimBeforeWhitespace(j, '\n');
  }

  /** Parsing the trimmed serialisation of storable entries gives the entries back. */
  lemma ParseSerialised(es: seq<Word>)
    requires AllStorable(es)
    ensures Parse(Trim(Serialise(es)), ':') == es
  {
    if es == [] {
      assert Trim("") == "";
      assert Split("", '\n') == [""];
    } else {
      SerialisedBody(es);
      var ls := Lines(es);
      forall i | 0 <= i < |ls| ensures '\n' !in ls[i] {
        LineShape(es[i]);
      }
      assert SeparatorFree(ls, '\n');
      SplitJoin(ls, '\n');
      forall i | 0 <= i < |ls| ensures LineParser(':')(ls[i]) == Some(es[i]) {
        ParseLineOfEntry(es[i]);
      }
      FilterMapAllPresent(ls, LineParser(':'));
    }
  }

  /** The trimmed serialisation of storable entries with distinct terms holds no closing fence and loads back as the entries. */
  lemma StorableBody(es: seq<Word>)
    requires DistinctTerms(es) && AllStorable(es)
    ensures NoClosingIn(Trim(Serialise(es))) && SetAll([], Parse(Trim(Serialise(es)), ':')) == es
  {
    SerialisedBodyHasNoClosing(es);
    ParseSerialised(es);
    SetAllDistinct(es);
  }

  /**
   * Saving into a note that has a block rewrites that block in place: the
   * note's first block still starts at the same position under the same
   * header line and now holds the trimmed serialisation; the text before
   * and after the block is unchanged.
   */
  lemma SaveRewritesBlock(content: string, es: seq<Word>)
    requires AllStorable(es) && FindBlock(content).Some?
    ensures var b, s := FindBlock(content).value, SaveText(content, es);
      && FindBlock(s).Some? && FindBlock(s).value.start == b.start
      && BlockHeader(s) == BlockHeader(content) && BlockBody(s) == Some(Trim(Serialise(es)))
      && b.start <= |content| && b.start <= |s| && s[..b.start] == content[..b.start]
      && b.closeAt + |Closing| <= |content| && EndsWith(s, content[b.closeAt + |Closing|..])
  {
    var b := FindBlock(content).value;
    FindBlockIsFirstMatch(content);
    SerialisedBodyHasNoClosing(es);
    HeaderLineShape(content, b);
    NoHeaderBeforeBlock(content, b);
    var pre, h, body, post := content[..b.start], HeaderLine(content, b), Trim(Serialise(es)), content[b.closeAt + |Closing|..];
    LayoutFound(pre, h, body, post);
    LayoutKeepsOutside(pre, h, body, post);
  }

  /**
   * Saving into a note without an opening fence appends a block that is then
   * the note's first block, with the new header line and the trimmed
   * serialisation as its body; the old content is kept as the prefix.
   */
  lemma SaveAppendsBlock(content: string, es: seq<Word>)
    requires AllStorable(es) && FindBlock(content).None? && forall q: nat :: !OccursAt(content, Opening, q)
    ensures var s := SaveText(content, es);
      && BlockHeader(s) == Some(NewBlockHeader) && BlockBody(s) == Some(Trim(Serialise(es)))
      && |content| < |s| && s[..|content|] == content
  {
    SerialisedBodyHasNoClosing(es);
    NewBlockHeaderShape();
    NoHeaderWithoutOpening(content);
    var body := Trim(Serialise(es));
    LayoutFound(content + "\n", NewBlockHeader, body, "");
    LayoutKeepsOutside(content + "\n", NewBlockHeader, body, "");
    var s := SaveText(content, es);
    assert s[..|content|] == s[..|content| + 1][..|content|];
  }

  /**
   * Saving a cache of storable entries with distinct terms and loading the
   * result restores the cache, whether the note had a block (which is
   * rewritten) or had no opening fence at all (and gets a block appended).
   */
  lemma SaveThenLoad(content: string, es: seq<Word>, current: seq<Word>)
    requires DistinctTerms(es) && AllStorable(es)
    requires FindBlock(content).Some? || forall q: nat :: !OccursAt(content, Opening, q)
    ensures Loaded(SaveText(content, es), current) == es
  {
    StorableBody(es);
    if FindBlock(content).Some? {
      SaveRewritesBlock(content, es);
    } else {
      SaveAppendsBlock(content, es);
    }
  }
}
