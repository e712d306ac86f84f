/**
 * The search that vocabularybook.ts performs with the regular expression
 * /```vocaview-[\w]+\n([\s\S]*?)\n```/: the first block that opens with
 * "```vocaview-", a non-empty run of ASCII word characters and a newline,
 * and closes at the first "\n```" after that newline.
 */
module VocaviewBlocks {
  import opened Options
  import opened JsStrings

  /** The fence that opens a vocabulary block, up to its type name. */
  const Opening: string := "```vocaview-"

  /** A newline followed by the closing fence. */
  const Closing: string := "\n```"

  /** `\w`: an ASCII letter, digit or underscore. */
  predicate IsWordChar(c: char) {
    ('A' <= c <= 'Z') || ('a' <= c <= 'z') || ('0' <= c <= '9') || c == '_'
  }

  /** Every character of `s[lo..hi]` is a word character. */
  predicate AllWordChars(s: string, lo: nat, hi: nat)
    requires lo <= hi <= |s|
  {
    forall k :: lo <= k < hi ==> IsWordChar(s[k])
  }

  /** A header line starts at `p` and its newline is at `e`: the opening fence, one or more word characters, a newline. */
  predicate HeaderEndsAt(s: string, p: nat, e: nat) {
    OccursAt(s, Opening, p) && p + |Opening| < e < |s| && s[e] == '\n' && AllWordChars(s, p + |Opening|, e)
  }

  /** A closing "\n```" starts at `k`. */
  predicate ClosingAt(s: string, k: nat) {
    OccursAt(s, Closing, k)
  }

  /** The regular expression matches at `p`: a header, then a closing fence starting after the header's newline. */
  ghost predicate MatchesAt(s: string, p: nat) {
    exists e, k :: HeaderEndsAt(s, p, e) && e < k && ClosingAt(s, k)
  }

  /** No match starts in `[lo, hi)`. */
  ghost predicate NoMatchIn(s: string, lo: nat, hi: nat) {
    forall q :: lo <= q < hi ==> !MatchesAt(s, q)
  }

  /** No header line starts before `p`. */
  ghost predicate NoHeaderBefore(s: string, p: nat) {
    forall q: nat, e: nat :: q < p ==> !HeaderEndsAt(s, q, e)
  }

  /** A match: where it starts, where its header's newline is, and where its closing fence starts. */
  datatype Block = Block(start: nat, headerEnd: nat, closeAt: nat)

  /** `b` is a match at `b.start` whose body is the shortest one: no closing fence starts inside it. */
  predicate IsShortestMatch(s: string, b: Block) {
    && HeaderEndsAt(s, b.start, b.headerEnd)
    && b.headerEnd < b.closeAt
    && ClosingAt(s, b.closeAt)
    && forall k :: b.headerEnd < k < b.closeAt ==> !ClosingAt(s, k)
  }

  /** The end of the run of word characters that starts at `i`. */
  function WordRunEnd(s: string, i: nat): (e: nat)
    requires i <= |s|
    ensures i <= e <= |s|
    decreases |s| - i
  {
    if i < |s| && IsWordChar(s[i]) then WordRunEnd(s, i + 1) else i
  }

  /** A run of word characters followed by a non-word character (or the end) is the run `WordRunEnd` finds. */
  lemma {:induction false} WordRunEndIs(s: string, i: nat, e: nat)
    requires i <= e <= |s| && AllWordChars(s, i, e) && (e == |s| || !IsWordChar(s[e]))
    ensures WordRunEnd(s, i) == e
    decreases e - i
  {
    if i < e {
      WordRunEndIs(s, i + 1, e);
    }
  }

  /** `WordRunEnd` stops at the first non-word character. */
  lemma {:induction false} WordRunEndIsMaximal(s: string, i: nat)
    requires i <= |s|
    ensures AllWordChars(s, i, WordRunEnd(s, i))
    ensures WordRunEnd(s, i) == |s| || !IsWordChar(s[WordRunEnd(s, i)])
    decreases |s| - i
  {
    if i < |s| && IsWordChar(s[i]) {
      WordRunEndIsMaximal(s, i + 1);
    }
  }

  /** The newline of the header line starting at `p`, if one does. */
  function HeaderAt(s: string, p: nat): Option<nat> {
    if OccursAt(s, Opening, p) then
      var e := WordRunEnd(s, p + |Opening|);
      if p + |Opening| < e < |s| && s[e] == '\n' then Some(e) else None
    else None
  }

  /** `HeaderAt` finds exactly the header lines: `[\w]+` cannot give back characters, since `\n` is not one. */
  lemma HeaderAtIsHeader(s: string, p: nat, e: nat)
    ensures HeaderAt(s, p) == Some(e) <==> HeaderEndsAt(s, p, e)
  {
    if OccursAt(s, Opening, p) {
      WordRunEndIsMaximal(s, p + |Opening|);
      if HeaderEndsAt(s, p, e) {
        WordRunEndIs(s, p + |Opening|, e);
      }
    }
  }

  /** `regex.exec(s)` tried from position `from` on. */
  function FindBlockFrom(s: string, from: nat): Option<Block>
    requires from <= |s|
    decreases |s| - from
  {
    if from == |s| then None
    else match HeaderAt(s, from)
      case None => FindBlockFrom(s, from + 1)
      case Some(e) =>
        match IndexOfSubstringFrom(s, Closing, e + 1)
        case None => FindBlockFrom(s, from + 1)
        case Some(k) => Some(Block(from, e, k))
  }

  /** `regex.exec(s)`: the first vocabulary block of `s`. */
  function FindBlock(s: string): Option<Block> {
    FindBlockFrom(s, 0)
  }

  /** A shortest match is a match. */
  lemma ShortestMatchMatches(s: string, b: Block)
    requires IsShortestMatch(s, b)
    ensures MatchesAt(s, b.start)
  {
  }

  /** A header followed by a closing fence is a match. */
  lemma MatchWitness(s: string, q: nat, e: nat, k: nat)
    requires HeaderEndsAt(s, q, e) && e < k && ClosingAt(s, k)
    ensures MatchesAt(s, q)
  {
  }

  /** Where no header line starts, nothing matches. */
  lemma NoMatchWithoutHeader(s: string, q: nat)
    requires HeaderAt(s, q).None?
    ensures !MatchesAt(s, q)
  {
    forall e: nat | HeaderEndsAt(s, q, e) ensures false {
      HeaderAtIsHeader(s, q, e);
    }
  }

  /** Where a header line has no closing fence after it, nothing matches. */
  lemma NoMatchWithoutClosing(s: string, q: nat, e: nat)
    requires HeaderAt(s, q) == Some(e) && e < |s|
    requires IndexOfSubstringFrom(s, Closing, e + 1).None?
    ensures !MatchesAt(s, q)
  {
    forall e': nat, k: nat | HeaderEndsAt(s, q, e') && e' < k && ClosingAt(s, k) ensures false {
      HeaderAtIsHeader(s, q, e');
    }
  }

  /** The first closing fence after a shortest match's header is the match's own. */
  lemma ClosingFoundAt(s: string, b: Block)
    requires IsShortestMatch(s, b)
    ensures IndexOfSubstringFrom(s, Closing, b.headerEnd + 1) == Some(b.closeAt)
  {
    var r := IndexOfSubstringFrom(s, Closing, b.headerEnd + 1);
    assert b.closeAt <= |s| && ClosingAt(s, b.closeAt);
    if r.Some? && r.value < b.closeAt {
      assert ClosingAt(s, r.value);
    }
  }

  /** A header whose closing fence is the first one after it is a shortest match. */
  lemma FirstClosingIsShortest(s: string, from: nat, e: nat, k: nat)
    requires HeaderAt(s, from) == Some(e) && e < |s|
    requires IndexOfSubstringFrom(s, Closing, e + 1) == Some(k)
    ensures IsShortestMatch(s, Block(from, e, k))
  {
    HeaderAtIsHeader(s, from, e);
  }

  /** Widening a match-free range by one position without a match. */
  lemma NoMatchExtend(s: string, from: nat, hi: nat)
    requires !MatchesAt(s, from) && NoMatchIn(s, from + 1, hi)
    ensures NoMatchIn(s, from, hi)
  {
  }

  /** The scan from `from` returns the leftmost match at or after `from`, with its shortest body. */
  lemma {:induction false} FindBlockFromIsFirstMatch(s: string, from: nat)
    requires from <= |s|
    ensures FindBlockFrom(s, from).Some? ==>
      var b := FindBlockFrom(s, from).value;
      from <= b.start && IsShortestMatch(s, b) && NoMatchIn(s, from, b.start)
    ensures FindBlockFrom(s, from).None? ==> NoMatchIn(s, from, |s| + 1)
    decreases |s| - from
  {
    if from < |s| {
      var h := HeaderAt(s, from);
      if h.Some? && IndexOfSubstringFrom(s, Closing, h.value + 1).Some? {
        FirstClosingIsShortest(s, from, h.value, IndexOfSubstringFrom(s, Closing, h.value + 1).value);
      } else {
        if h.None? {
          NoMatchWithoutHeader(s, from);
        } else {
          HeaderAtIsHeader(s, from, h.value);
          NoMatchWithoutClosing(s, from, h.value);
        }
        FindBlockFromIsFirstMatch(s, from + 1);
        var r := FindBlockFrom(s, from + 1);
        NoMatchExtend(s, from, if r.Some? then r.value.start else |s| + 1);
      }
    }
  }

  /**
   * `regex.exec(s)` follows the leftmost-then-shortest rule: a result is a
   * match with the shortest body and nothing matches before it; no result
   * means nothing matches anywhere.
   */
  lemma FindBlockIsFirstMatch(s: string)
    ensures FindBlock(s).Some? ==> IsShortestMatch(s, FindBlock(s).value) && NoMatchIn(s, 0, FindBlock(s).value.start)
    ensures FindBlock(s).None? <==> NoMatchIn(s, 0, |s| + 1)
  {
    FindBlockFromIsFirstMatch(s, 0);
    if FindBlock(s).Some? {
      ShortestMatchMatches(s, FindBlock(s).value);
    }
  }

  /** The header's newline and the shortest body's end are fixed by the start. */
  lemma ShortestMatchUnique(s: string, b1: Block, b2: Block)
    requires IsShortestMatch(s, b1) && IsShortestMatch(s, b2) && b1.start == b2.start
    ensures b1 == b2
  {
    HeaderAtIsHeader(s, b1.start, b1.headerEnd);
    HeaderAtIsHeader(s, b2.start, b2.headerEnd);
  }

  /** Two opening fences never overlap. */
  lemma OpeningsDoNotOverlap(s: string, q: nat, p: nat)
    requires OccursAt(s, Opening, q) && OccursAt(s, Opening, p) && q < p
    ensures q + |Opening| <= p
  {
    if p <= q + 3 {
      CharOfOccurrence(s, Opening, q, 3);
      CharOfOccurrence(s, Opening, p, 3 - (p - q));
    } else if p < q + |Opening| {
      CharOfOccurrence(s, Opening, p, 0);
      CharOfOccurrence(s, Opening, q, p - q);
    }
  }

  /** A header line that starts before an opening fence ends before it. */
  lemma HeaderEndsBeforeOpening(s: string, q: nat, e: nat, p: nat)
    requires HeaderEndsAt(s, q, e) && OccursAt(s, Opening, p) && q < p
    ensures e < p
  {
    OpeningsDoNotOverlap(s, q, p);
    CharOfOccurrence(s, Opening, p, 0);
  }

  /** Before the first block there is no header line at all: one would have matched with the block's closing fence. */
  lemma NoHeaderBeforeFirstBlock(s: string)
    requires FindBlock(s).Some?
    ensures NoHeaderBefore(s, FindBlock(s).value.start)
  {
    var b := FindBlock(s).value;
    FindBlockIsFirstMatch(s);
    forall q: nat, e: nat | q < b.start && HeaderEndsAt(s, q, e)
      ensures false
    {
      HeaderEndsBeforeOpening(s, q, e, b.start);
      MatchWitness(s, q, e, b.closeAt);
    }
  }

  /** A match with no header line before it is the one `FindBlock` returns. */
  lemma {:induction false} FindBlockFromReaches(s: string, b: Block, from: nat)
    requires IsShortestMatch(s, b) && NoHeaderBefore(s, b.start) && from <= b.start
    ensures FindBlockFrom(s, from) == Some(b)
    decreases b.start - from
  {
    if from < b.start {
      if HeaderAt(s, from).Some? {
        HeaderAtIsHeader(s, from, HeaderAt(s, from).value);
      }
      FindBlockFromReaches(s, b, from + 1);
    } else {
      HeaderAtIsHeader(s, from, b.headerEnd);
      ClosingFoundAt(s, b);
    }
  }

  /** The characters the regular expression matched: `match[0]`. */
  function MatchText(s: string, b: Block): string
    requires IsShortestMatch(s, b)
  {
    s[b.start..b.closeAt + |Closing|]
  }

  /** The header line of a block, without its newline. */
  function HeaderLine(s: string, b: Block): string
    requires IsShortestMatch(s, b)
  {
    s[b.start..b.headerEnd]
  }

  /** The lines between a block's header and its closing fence. */
  function Body(s: string, b: Block): string
    requires IsShortestMatch(s, b)
  {
    s[b.headerEnd + 1..b.closeAt]
  }

  /** A block's text is its header line, a newline, its body and the closing fence; the header line holds no newline. */
  lemma MatchTextParts(s: string, b: Block)
    requires IsShortestMatch(s, b)
    ensures MatchText(s, b) == HeaderLine(s, b) + "\n" + Body(s, b) + Closing
    ensures '\n' !in HeaderLine(s, b) && |HeaderLine(s, b)| == b.headerEnd - b.start
  {
    var h := HeaderLine(s, b);
    forall i | 0 <= i < |h| ensures h[i] != '\n' {
      if i < |Opening| {
        assert h[i] == Opening[i];
      } else {
        assert IsWordChar(s[b.start + i]);
      }
    }
    assert s[b.closeAt..b.closeAt + |Closing|] == Closing;
  }

  /** In a text laid out as a block, the first newline ends the header line. */
  lemma FirstLineOf(m: string, h: string, body: string)
    requires m == h + "\n" + body + Closing && '\n' !in h
    ensures IndexOf(m, '\n') == Some(|h|) && m[..|h|] == h
  {
    assert m[..|h|] == h;
    IndexOfIs(m, '\n', |h|);
  }

  /** In a text laid out as a block, the lines between the first and the last are the body. */
  lemma InnerLinesOf(h: string, body: string)
    requires '\n' !in h
    ensures var lines := Split(h + "\n" + body + Closing, '\n');
      |lines| >= 2 && Join(lines[1..|lines| - 1], '\n') == body
  {
    var tail := body + ['\n'] + "```";
    assert h + "\n" + body + Closing == h + ['\n'] + tail;
    SplitAtFirst(h, '\n', tail);
    SplitAround(body, '\n', "```");
    assert IndexOf("```", '\n').None?;
    var lines := Split(h + "\n" + body + Closing, '\n');
    assert lines == [h] + Split(body, '\n') + ["```"];
    assert lines[1..|lines| - 1] == Split(body, '\n');
    JoinSplit(body, '\n');
  }

  /** `match[0].slice(0, match[0].indexOf('\n'))` is the header line. */
  lemma HeaderLineOfMatch(s: string, b: Block)
    requires IsShortestMatch(s, b)
    ensures IndexOf(MatchText(s, b), '\n') == Some(b.headerEnd - b.start)
    ensures MatchText(s, b)[..b.headerEnd - b.start] == HeaderLine(s, b)
  {
    MatchTextParts(s, b);
    FirstLineOf(MatchText(s, b), HeaderLine(s, b), Body(s, b));
  }

  /** Splitting `match[0]` into lines and dropping the first and the last gives back the body. */
  lemma BodyOfMatch(s: string, b: Block)
    requires IsShortestMatch(s, b)
    ensures var lines := Split(MatchText(s, b), '\n');
      |lines| >= 2 && Join(lines[1..|lines| - 1], '\n') == Body(s, b)
  {
    MatchTextParts(s, b);
    InnerLinesOf(HeaderLine(s, b), Body(s, b));
  }

  /** Two occurrences of the same text agree character by character. */
  lemma OccurrencesAgree(s: string, m: string, q: nat, p: nat, i: nat)
    requires OccursAt(s, m, q) && OccursAt(s, m, p) && i < |m|
    ensures s[q + i] == s[p + i]
  {
    assert s[q + i] == s[q..q + |m|][i] && s[p + i] == s[p..p + |m|][i];
  }

  /** A header line inside a text `m` reappears wherever `m` occurs again. */
  lemma HeaderTransfers(s: string, m: string, p: nat, q: nat, d: nat)
    requires OccursAt(s, m, p) && OccursAt(s, m, q) && d < |m| && HeaderEndsAt(s, p, p + d)
    ensures HeaderEndsAt(s, q, q + d)
  {
    OccursWithin(s, m, p, Opening, 0);
    OccursNested(s, m, q, Opening, 0);
    OccurrencesAgree(s, m, q, p, d);
    forall k | q + |Opening| <= k < q + d ensures IsWordChar(s[k]) {
      OccurrencesAgree(s, m, q, p, k - q);
      assert IsWordChar(s[p + (k - q)]);
    }
  }

  /** The text of a match occurring at `q` starts with a header line at `q`. */
  lemma HeaderElsewhere(s: string, b: Block, q: nat)
    requires IsShortestMatch(s, b) && OccursAt(s, MatchText(s, b), q)
    ensures HeaderEndsAt(s, q, q + (b.headerEnd - b.start))
  {
    assert OccursAt(s, MatchText(s, b), b.start);
    HeaderTransfers(s, MatchText(s, b), b.start, q, b.headerEnd - b.start);
  }

  /** The text of a match occurring at `q` ends with a closing fence at the same offset. */
  lemma ClosingElsewhere(s: string, b: Block, q: nat)
    requires IsShortestMatch(s, b) && OccursAt(s, MatchText(s, b), q)
    ensures ClosingAt(s, q + (b.closeAt - b.start))
  {
    var m := MatchText(s, b);
    assert OccursAt(s, m, b.start);
    OccursWithin(s, m, b.start, Closing, b.closeAt - b.start);
    OccursNested(s, m, q, Closing, b.closeAt - b.start);
  }

  /** A copy of the matched text is a match. */
  lemma CopyMatches(s: string, b: Block, q: nat)
    requires IsShortestMatch(s, b) && OccursAt(s, MatchText(s, b), q)
    ensures MatchesAt(s, q)
  {
    HeaderElsewhere(s, b, q);
    ClosingElsewhere(s, b, q);
    MatchWitness(s, q, q + (b.headerEnd - b.start), q + (b.closeAt - b.start));
  }

  /** The matched text does not occur before a leftmost match: a copy there would be a match too. */
  lemma NoEarlierCopy(s: string, b: Block)
    requires IsShortestMatch(s, b) && NoMatchIn(s, 0, b.start)
    ensures forall q: nat :: q < b.start ==> !OccursAt(s, MatchText(s, b), q)
  {
    forall q: nat | q < b.start && OccursAt(s, MatchText(s, b), q) ensures false {
      CopyMatches(s, b, q);
    }
  }

  /** A text occurring at `p` and nowhere before is found at `p`. */
  lemma FirstOccurrenceAt(s: string, m: string, p: nat)
    requires OccursAt(s, m, p) && forall q: nat :: q < p ==> !OccursAt(s, m, q)
    ensures IndexOfSubstring(s, m) == Some(p)
  {
  }

  /**
   * `content.replace(match[0], ...)` rewrites the block itself: the first
   * occurrence of the matched text is where the match starts.
   */
  lemma FirstOccurrenceIsBlock(s: string)
    requires FindBlock(s).Some?
    ensures var b := FindBlock(s).value;
      IsShortestMatch(s, b) && IndexOfSubstring(s, MatchText(s, b)) == Some(b.start)
  {
    var b := FindBlock(s).value;
    FindBlockIsFirstMatch(s);
    NoEarlierCopy(s, b);
    assert OccursAt(s, MatchText(s, b), b.start);
    FirstOccurrenceAt(s, MatchText(s, b), b.start);
  }
}
