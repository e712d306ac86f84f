/**
 * words.ts: the word-pair parser (`Words`), its iterator, the in-place
 * `shuffle` and the two random draws. `Math.random` is replaced by the
 * values it would have produced: `rs[i]` is the position `shuffle` swaps
 * with at step `i`, and `pick` is the index `getRandomWord` reads.
 */
module WordPairs {
  import opened Options
  import opened JsStrings

  /** A term (`word`) and its explanation. */
  datatype Word = Word(word: string, explanation: string)

  /** Some character of `line` other than its last one is the separator. */
  predicate HasInnerSeparator(line: string, separator: char) {
    exists i :: 0 <= i < |line| - 1 && line[i] == separator
  }

  /** The pair one line contributes: it needs a separator before the line's last character. */
  function ParseLine(line: string, separator: char): Option<Word> {
    match IndexOf(line, separator)
    case None => None
    case Some(pos) =>
      if |line| <= pos + 1 then None
      else Some(Word(Trim(line[..pos]), Trim(line[pos + 1..])))
  }

  /** A line is accepted exactly when a separator occurs before its last character. */
  lemma ParseLineAccepts(line: string, separator: char)
    ensures ParseLine(line, separator).Some? <==> HasInnerSeparator(line, separator)
  {
  }

  /**
   * An accepted line splits at its FIRST separator into the trimmed text
   * before it and the trimmed text after it; later separators stay in the
   * explanation.
   */
  lemma ParseLineSplitsAtFirstSeparator(before: string, separator: char, after: string)
    requires separator !in before && after != []
    ensures ParseLine(before + [separator] + after, separator) == Some(Word(Trim(before), Trim(after)))
  {
    var line := before + [separator] + after;
    assert line[..|before|] == before && line[|before| + 1..] == after;
    IndexOfIs(line, separator, |before|);
  }

  /** A line whose only separator is its last character contributes nothing. */
  lemma ParseLineRejectsTrailingSeparator(before: string, separator: char)
    requires separator !in before
    ensures ParseLine(before + [separator], separator) == None
  {
    var line := before + [separator];
    assert line[..|before|] == before;
    IndexOfIs(line, separator, |before|);
  }

  /** The results of `f` over `xs` that are present, in order: a loop that pushes only what parses. */
  function FilterMap<A, B>(xs: seq<A>, f: A -> Option<B>): (ys: seq<B>)
    ensures |ys| <= |xs|
  {
    if xs == [] then []
    else
      var last := match f(xs[|xs| - 1]) case None => [] case Some(y) => [y];
      FilterMap(xs[..|xs| - 1], f) + last
  }

  /** Filtering keeps order: two blocks filter to the concatenation of their results. */
  lemma {:induction false} FilterMapAppend<A, B>(a: seq<A>, b: seq<A>, f: A -> Option<B>)
    ensures FilterMap(a + b, f) == FilterMap(a, f) + FilterMap(b, f)
    decreases |b|
  {
    if b == [] {
      assert a + b == a;
    } else {
      var b' := b[..|b| - 1];
      assert (a + b)[..|a + b| - 1] == a + b' && (a + b)[|a + b| - 1] == b[|b| - 1];
      FilterMapAppend(a, b', f);
    }
  }

  /** Filtering one more element appends its value, if it has one. */
  lemma FilterMapSnoc<A, B>(xs: seq<A>, x: A, f: A -> Option<B>)
    ensures f(x).None? ==> FilterMap(xs + [x], f) == FilterMap(xs, f)
    ensures f(x).Some? ==> FilterMap(xs + [x], f) == FilterMap(xs, f) + [f(x).value]
  {
    assert (xs + [x])[..|xs|] == xs;
  }

  /** A value is kept exactly when some element maps to it. */
  lemma {:induction false} FilterMapMembers<A, B>(xs: seq<A>, f: A -> Option<B>, y: B)
    ensures y in FilterMap(xs, f) <==> exists i :: 0 <= i < |xs| && f(xs[i]) == Some(y)
  {
    if xs != [] {
      var init := xs[..|xs| - 1];
      FilterMapMembers(init, f, y);
      assert forall i :: 0 <= i < |init| ==> init[i] == xs[i];
    }
  }

  /** When every element maps to a value, the i-th result comes from the i-th element. */
  lemma {:induction false} FilterMapAllPresent<A, B>(xs: seq<A>, f: A -> Option<B>)
    requires forall i :: 0 <= i < |xs| ==> f(xs[i]).Some?
    ensures |FilterMap(xs, f)| == |xs|
    ensures forall i :: 0 <= i < |xs| ==> FilterMap(xs, f)[i] == f(xs[i]).value
  {
    if xs != [] {
      var init := xs[..|xs| - 1];
      assert forall i :: 0 <= i < |init| ==> init[i] == xs[i];
      FilterMapAllPresent(init, f);
    }
  }

  /** `ParseLine` with the separator fixed. */
  function LineParser(separator: char): string -> Option<Word> {
    line => ParseLine(line, separator)
  }

  /** The words of a sequence of lines, in line order. */
  function ParseLines(lines: seq<string>, separator: char): seq<Word> {
    FilterMap(lines, LineParser(separator))
  }

  /** Parsing one more line appends its word, if it has one. */
  lemma ParseLinesStep(lines: seq<string>, i: nat, separator: char)
    requires i < |lines|
    ensures ParseLine(lines[i], separator).None? ==>
      ParseLines(lines[..i + 1], separator) == ParseLines(lines[..i], separator)
    ensures ParseLine(lines[i], separator).Some? ==>
      ParseLines(lines[..i + 1], separator) == ParseLines(lines[..i], separator) + [ParseLine(lines[i], separator).value]
  {
    assert lines[..i + 1] == lines[..i] + [lines[i]];
    FilterMapSnoc(lines[..i], lines[i], LineParser(separator));
  }

  /** `new Words(src, separator)`: the words of the lines of `src`. */
  function Parse(src: string, separator: char): seq<Word> {
    ParseLines(Split(src, '\n'), separator)
  }

  /** The random positions `shuffle` uses on an array of length `n`: one per cell, each in range. */
  predicate IsDraw(rs: seq<nat>, n: nat) {
    |rs| == n && forall k :: 0 <= k < n ==> rs[k] < n
  }

  /** One step of `shuffle`: the cells `i` and `j` exchange their values. */
  function Swap<T>(s: seq<T>, i: nat, j: nat): (r: seq<T>)
    requires i < |s| && j < |s|
    ensures |r| == |s|
  {
    s[i := s[j]][j := s[i]]
  }

  /** The steps `i`, `i+1`, ... of `shuffle`. */
  function ShuffleFrom<T>(s: seq<T>, rs: seq<nat>, i: nat): (r: seq<T>)
    requires IsDraw(rs, |s|) && i <= |s|
    ensures |r| == |s|
    decreases |s| - i
  {
    if i == |s| then s else ShuffleFrom(Swap(s, i, rs[i]), rs, i + 1)
  }

  /** Shuffling only exchanges cells: it is a permutation. */
  lemma {:induction false} ShufflePermutes<T>(s: seq<T>, rs: seq<nat>, i: nat)
    requires IsDraw(rs, |s|) && i <= |s|
    ensures multiset(ShuffleFrom(s, rs, i)) == multiset(s)
    decreases |s| - i
  {
    if i < |s| {
      var sw := Swap(s, i, rs[i]);
      assert multiset(sw) == multiset(s);
      ShufflePermutes(sw, rs, i + 1);
    }
  }

  /** What `shuffle` leaves in the array. */
  function Shuffled<T>(s: seq<T>, rs: seq<nat>): seq<T>
    requires IsDraw(rs, |s|)
  {
    ShuffleFrom(s, rs, 0)
  }

  /** `shuffle(arr)`: swaps every cell `i` in turn with the cell `rs[i]`. */
  method Shuffle<T>(arr: array<T>, rs: seq<nat>)
    requires IsDraw(rs, arr.Length)
    modifies arr
    ensures arr[..] == Shuffled(old(arr[..]), rs)
    ensures multiset(arr[..]) == multiset(old(arr[..]))
  {
    var i := 0;
    while i < arr.Length
      invariant 0 <= i <= arr.Length
      invariant ShuffleFrom(arr[..], rs, i) == Shuffled(old(arr[..]), rs)
    {
      var r := rs[i];
      ghost var before := arr[..];
      var temp := arr[i];
      arr[i] := arr[r];
      arr[r] := temp;
      assert arr[..] == Swap(before, i, r);
      i := i + 1;
    }
    ShufflePermutes(old(arr[..]), rs, 0);
  }

  /** No index occurs twice. */
  predicate Distinct(s: seq<nat>) {
    forall i, j :: 0 <= i < j < |s| ==> s[i] != s[j]
  }

  /** Every index is below `n`. */
  predicate IndicesBelow(idx: seq<nat>, n: nat) {
    forall k :: 0 <= k < |idx| ==> idx[k] < n
  }

  /** `Array.from(Array(n).keys())`. */
  function Range(n: nat): (r: seq<nat>)
    ensures |r| == n && forall i :: 0 <= i < n ==> r[i] == i
  {
    seq(n, i => i)
  }

  lemma SwapKeepsDistinct(s: seq<nat>, i: nat, j: nat)
    requires i < |s| && j < |s| && Distinct(s)
    ensures Distinct(Swap(s, i, j))
  {
    var r := Swap(s, i, j);
    forall p, q | 0 <= p < q < |r| ensures r[p] != r[q] {
      var p' := if p == i then j else if p == j then i else p;
      var q' := if q == i then j else if q == j then i else q;
      assert r[p] == s[p'] && r[q] == s[q'];
    }
  }

  /** Shuffling permutes the cells, so distinct indices stay distinct and bounded ones stay bounded. */
  lemma {:induction false} ShuffleKeepsIndices(s: seq<nat>, rs: seq<nat>, i: nat, n: nat)
    requires IsDraw(rs, |s|) && i <= |s|
    ensures Distinct(s) ==> Distinct(ShuffleFrom(s, rs, i))
    ensures IndicesBelow(s, n) ==> IndicesBelow(ShuffleFrom(s, rs, i), n)
    decreases |s| - i
  {
    if i < |s| {
      if Distinct(s) {
        SwapKeepsDistinct(s, i, rs[i]);
      }
      var sw := Swap(s, i, rs[i]);
      assert IndicesBelow(s, n) ==> IndicesBelow(sw, n);
      ShuffleKeepsIndices(sw, rs, i + 1, n);
    }
  }

  /**
   * The index array `getRandomWords` reads after shuffling `[0, n)`: a
   * permutation of `[0, n)`, so its entries are pairwise distinct indices.
   */
  function DrawIndices(n: nat, rs: seq<nat>): (d: seq<nat>)
    requires IsDraw(rs, n)
    ensures |d| == n && Distinct(d) && IndicesBelow(d, n)
  {
    ShuffleKeepsIndices(Range(n), rs, 0, n);
    Shuffled(Range(n), rs)
  }

  /** The elements of `s` at the positions `idx`. */
  function Pick<T>(s: seq<T>, idx: seq<nat>): (r: seq<T>)
    requires IndicesBelow(idx, |s|)
    ensures |r| == |idx| && forall k :: 0 <= k < |idx| ==> r[k] == s[idx[k]]
  {
    seq(|idx|, k requires 0 <= k < |idx| => s[idx[k]])
  }

  /** Swapping two indices and then reading through them is swapping the values read. */
  lemma PickSwap<T>(s: seq<T>, idx: seq<nat>, i: nat, j: nat)
    requires i < |idx| && j < |idx| && IndicesBelow(idx, |s|)
    ensures IndicesBelow(Swap(idx, i, j), |s|)
    ensures Pick(s, Swap(idx, i, j)) == Swap(Pick(s, idx), i, j)
  {
  }

  /** Shuffling an index array and then reading through it is shuffling the values themselves. */
  lemma {:induction false} PickShuffleFrom<T>(s: seq<T>, idx: seq<nat>, rs: seq<nat>, i: nat)
    requires IsDraw(rs, |idx|) && i <= |idx|
    requires IndicesBelow(idx, |s|) && IndicesBelow(ShuffleFrom(idx, rs, i), |s|)
    ensures Pick(s, ShuffleFrom(idx, rs, i)) == ShuffleFrom(Pick(s, idx), rs, i)
    decreases |idx| - i
  {
    if i < |idx| {
      PickSwap(s, idx, i, rs[i]);
      PickShuffleFrom(s, Swap(idx, i, rs[i]), rs, i + 1);
    }
  }

  /** Reading every position of `[0, |s|)` gives `s` back. */
  lemma PickRange<T>(s: seq<T>)
    ensures Pick(s, Range(|s|)) == s
  {
  }

  /** The words `getRandomWords(num)` returns: the first `num` indices of the shuffled index array, read through. */
  function DrawWords(words: seq<Word>, rs: seq<nat>, num: nat): (r: seq<Word>)
    requires IsDraw(rs, |words|) && num <= |words|
  {
    Pick(words, DrawIndices(|words|, rs)[..num])
  }

  /** A draw holds `num` words, taken from pairwise distinct positions, and never more copies of a word than the collection has. */
  lemma DrawWordsFromDistinctPositions(words: seq<Word>, rs: seq<nat>, num: nat)
    requires IsDraw(rs, |words|) && num <= |words|
    ensures |DrawWords(words, rs, num)| == num
    ensures forall i, j :: 0 <= i < j < num ==> DrawIndices(|words|, rs)[i] != DrawIndices(|words|, rs)[j]
    ensures forall i :: 0 <= i < num ==> DrawWords(words, rs, num)[i] == words[DrawIndices(|words|, rs)[i]]
    ensures multiset(DrawWords(words, rs, num)) <= multiset(words)
  {
    var d := DrawIndices(|words|, rs);
    var all := Pick(words, d);
    PickShuffleFrom(words, Range(|words|), rs, 0);
    PickRange(words);
    ShufflePermutes(words, rs, 0);
    assert all == all[..num] + all[num..];
    assert DrawWords(words, rs, num) == all[..num];
  }

  /** A collection of words parsed from text; read-only once built. */
  class Words {
    var words: seq<Word>
    var length: int

    ghost predicate Valid()
      reads this
    {
      length == |words|
    }

    /** Keeps, in line order, the pair of every line accepted by `ParseLine`. */
    constructor (src: string, separator: char)
      ensures Valid() && words == Parse(src, separator)
    {
      words := [];
      length := 0;
      new;
      var lines := Split(src, '\n');
      var i := 0;
      while i < |lines|
        invariant 0 <= i <= |lines|
        invariant Valid() && words == ParseLines(lines[..i], separator)
      {
        ParseLinesStep(lines, i, separator);
        PushLine(lines[i], separator);
        i := i + 1;
      }
      assert lines[..i] == lines;
    }

    /** The `forEach` callback of the constructor: pushes the pair of an accepted line and updates `length`. */
    method PushLine(line: string, separator: char)
      requires Valid()
      modifies this
      ensures Valid()
      ensures ParseLine(line, separator).None? ==> words == old(words)
      ensures ParseLine(line, separator).Some? ==> words == old(words) + [ParseLine(line, separator).value]
    {
      var separatorPos := IndexOf(line, separator);
      if separatorPos.None? || |line| <= separatorPos.value + 1 {
        return;
      }
      var word := Trim(line[..separatorPos.value]);
      var explanation := Trim(line[separatorPos.value + 1..]);
      words := words + [Word(word, explanation)];
      length := |words|;
    }

    /**
     * `getRandomWords(num)`: reads the words through a shuffled index array
     * `[0, length)`. Positions from `length` on read past the index array and
     * yield `undefined` (`None`); callers clamp `num` to `length` first.
     */
    method GetRandomWords(num: int, rs: seq<nat>) returns (r: seq<Option<Word>>)
      requires Valid() && IsDraw(rs, length)
      ensures |r| == if num < 0 then 0 else num
      ensures forall i :: 0 <= i < |r| ==>
        r[i] == if i < length then Some(words[DrawIndices(length, rs)[i]]) else None
      ensures 0 <= num <= length ==> forall i :: 0 <= i < num ==> r[i] == Some(DrawWords(words, rs, num)[i])
    {
      var indexArr := new nat[length](i => i);
      assert indexArr[..] == Range(length);
      Shuffle(indexArr, rs);
      ghost var d := DrawIndices(length, rs);
      r := [];
      var i := 0;
      while i < num
        invariant 0 <= i <= (if num < 0 then 0 else num)
        invariant indexArr[..] == d
        invariant |r| == i
        invariant forall k :: 0 <= k < i ==> r[k] == if k < length then Some(words[d[k]]) else None
      {
        if i < indexArr.Length {
          r := r + [Some(words[indexArr[i]])];
        } else {
          r := r + [None];
        }
        i := i + 1;
      }
      if 0 <= num <= length {
        DrawWordsFromDistinctPositions(words, rs, num);
      }
    }

    /** `getRandomWord()`: the word at the drawn index; `None` (undefined) when there are no words. */
    function GetRandomWord(pick: nat): (r: Option<Word>)
      reads this
      requires Valid() && (length > 0 ==> pick < length)
      ensures r.Some? <==> length > 0
      ensures r.Some? ==> r.value in words
    {
      if pick < |words| then Some(words[pick]) else None
    }
  }

  /** The iterator `for (const word of words)` runs: forward only, over the words' array. */
  class WordsIterator {
    const wordsArr: seq<Word>
    var nextIndex: nat

    ghost predicate Valid()
      reads this
    {
      nextIndex <= |wordsArr|
    }

    constructor (words: Words)
      ensures Valid() && wordsArr == words.words && nextIndex == 0
    {
      wordsArr := words.words;
      nextIndex := 0;
    }

    /** Yields the words in order; once past the end it reports `done` with an empty word and stays put. */
    method Next() returns (value: Word, done: bool)
      requires Valid()
      modifies this
      ensures Valid()
      ensures done <==> old(nextIndex) == |wordsArr|
      ensures done ==> value == Word("", "") && nextIndex == old(nextIndex)
      ensures !done ==> value == wordsArr[old(nextIndex)] && nextIndex == old(nextIndex) + 1
    {
      if nextIndex >= |wordsArr| {
        return Word("", ""), true;
      }
      value, done := wordsArr[nextIndex], false;
      nextIndex := nextIndex + 1;
    }
  }
}
