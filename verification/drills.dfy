/**
 * The three interactive renderings of a vocabulary block: a word list whose
 * explanations can be shown and hidden, a multiple-choice quiz and a flash
 * card with a spelling check. Randomness (`Math.random`) arrives as
 * parameters: a coin for the per-word or per-question orientation and
 * drawn positions for the shuffles.
 */
module Drills {
  import opened Options
  import opened JsStrings
  import opened WordPairs

  /**
   * Which side of a word is shown first. The block's subtype number `1` and
   * every number other than `2` and `3` show the term; `2` shows the
   * explanation; `3` flips a coin per word or question.
   */
  datatype Orientation = TermFirst | ExplanationFirst | CoinFlip

  function OrientationOf(subtype: int): Orientation {
    if subtype == 2 then ExplanationFirst
    else if subtype == 3 then CoinFlip
    else TermFirst
  }

  /**
   * The (shown, concealed) texts of a word: upper and lower element of a list
   * item, question and answer of a card, question and option of a quiz.
   * `coin` stands for `Math.random() > 0.5`, consulted only when flipping.
   */
  function Sides(o: Orientation, coin: bool, w: Word): (sides: (string, string))
    ensures sides == (w.word, w.explanation) || sides == (w.explanation, w.word)
  {
    match o
    case TermFirst => (w.word, w.explanation)
    case ExplanationFirst => (w.explanation, w.word)
    case CoinFlip => if coin then (w.word, w.explanation) else (w.explanation, w.word)
  }

  /** The subtype numbers as the renderers read them: the two fixed orientations are mirror images, and a flip picks one of them. */
  lemma SidesBySubtype(subtype: int, coin: bool, w: Word)
    ensures subtype != 2 && subtype != 3 ==> Sides(OrientationOf(subtype), coin, w) == (w.word, w.explanation)
    ensures subtype == 2 ==> Sides(OrientationOf(subtype), coin, w) == (w.explanation, w.word)
    ensures subtype == 3 ==> Sides(OrientationOf(subtype), coin, w) == Sides(OrientationOf(if coin then 1 else 2), coin, w)
  {
  }

  function Min(a: int, b: int): int {
    if a < b then a else b
  }

  /**
   * `getRandomQuestionAndOptions(subtype, words, numOfOptions)`: draws
   * `min(length, numOfOptions)` words; the question is the shown side of the
   * first, the options are the concealed sides of all of them, the right
   * one first. With no word to draw, `wordArr[0]` is undefined and reading
   * it throws: `None`.
   */
  function GetRandomQuestionAndOptions(subtype: int, words: seq<Word>, numOfOptions: int, rs: seq<nat>, coin: bool)
    : (r: Option<(string, seq<string>)>)
    requires IsDraw(rs, |words|)
    ensures r.Some? <==> 0 < |words| && 0 < numOfOptions
    ensures r.Some? ==> |r.value.1| == Min(|words|, numOfOptions)
  {
    var num := Min(|words|, numOfOptions);
    if num <= 0 then None
    else
      var drawn := DrawWords(words, rs, num);
      DrawWordsFromDistinctPositions(words, rs, num);
      var o := OrientationOf(subtype);
      Some((Sides(o, coin, drawn[0]).0, seq(num, i requires 0 <= i < num => Sides(o, coin, drawn[i]).1)))
  }

  /**
   * `getRandomQuestionAndAnswer(subtype, words)`: the shown and concealed
   * sides of the word at the drawn position `pick`; `None` when there are no
   * words (`word.word` of undefined throws).
   */
  function GetRandomQuestionAndAnswer(subtype: int, words: seq<Word>, pick: nat, coin: bool): (r: Option<(string, string)>)
    requires 0 < |words| ==> pick < |words|
    ensures r.Some? <==> 0 < |words|
    ensures r.Some? ==> {r.value.0, r.value.1} == {words[pick].word, words[pick].explanation}
    ensures r.Some? && subtype != 2 && subtype != 3 ==> r.value.0 == words[pick].word
    ensures r.Some? && subtype == 2 ==> r.value.0 == words[pick].explanation
  {
    if |words| == 0 then None
    else Some(Sides(OrientationOf(subtype), coin, words[pick]))
  }

  /**
   * The question and the first option belong to one word: the one a card
   * would show for the first drawn position. Every option is the concealed
   * side of a word drawn from its own position.
   */
  lemma {:induction false} QuestionMatchesFirstOption(subtype: int, words: seq<Word>, numOfOptions: int, rs: seq<nat>, coin: bool)
    requires IsDraw(rs, |words|) && 0 < |words| && 0 < numOfOptions
    ensures var d := DrawIndices(|words|, rs);
      var r := GetRandomQuestionAndOptions(subtype, words, numOfOptions, rs, coin);
      r.Some? && 0 < |r.value.1| &&
      GetRandomQuestionAndAnswer(subtype, words, d[0], coin) == Some((r.value.0, r.value.1[0])) &&
      (forall i :: 0 <= i < |r.value.1| ==> r.value.1[i] == Sides(OrientationOf(subtype), coin, words[d[i]]).1) &&
      (forall i, j :: 0 <= i < j < |r.value.1| ==> d[i] != d[j])
  {
    var num := Min(|words|, numOfOptions);
    DrawWordsFromDistinctPositions(words, rs, num);
  }

  /** The numbers of hidden flags in `hs`. */
  function CountHidden(hs: seq<bool>): (n: nat)
    ensures n <= |hs|
  {
    if hs == [] then 0 else CountHidden(hs[..|hs| - 1]) + (if hs[|hs| - 1] then 1 else 0)
  }

  /** Changing one flag changes the count by what that flag contributed. */
  lemma {:induction false} CountHiddenUpdate(hs: seq<bool>, i: nat, b: bool)
    requires i < |hs|
    ensures CountHidden(hs[i := b]) == CountHidden(hs) - (if hs[i] then 1 else 0) + (if b then 1 else 0)
    decreases |hs|
  {
    var n := |hs| - 1;
    if i == n {
      assert hs[i := b][..n] == hs[..n];
    } else {
      assert hs[i := b][..n] == hs[..n][i := b];
      CountHiddenUpdate(hs[..n], i, b);
    }
  }

  /** The count is zero exactly when nothing is hidden, and full exactly when everything is. */
  lemma {:induction false} CountHiddenExtremes(hs: seq<bool>)
    ensures CountHidden(hs) == 0 <==> forall k :: 0 <= k < |hs| ==> !hs[k]
    ensures CountHidden(hs) == |hs| <==> forall k :: 0 <= k < |hs| ==> hs[k]
    decreases |hs|
  {
    if hs != [] {
      var n := |hs| - 1;
      CountHiddenExtremes(hs[..n]);
      assert forall k :: 0 <= k < n ==> hs[..n][k] == hs[k];
    }
  }

  /** All flags agree. */
  predicate Uniform(hs: seq<bool>) {
    forall j, k :: 0 <= j < |hs| && 0 <= k < |hs| ==> hs[j] == hs[k]
  }

  /**
   * The flags after "show/hide all": a mixed list is unified into its
   * majority, a tie hiding (`n >= length / 2`); a unified list is toggled.
   */
  function ShowHideAllResult(hs: seq<bool>): (r: seq<bool>)
    ensures |r| == |hs|
  {
    var n := CountHidden(hs);
    if 0 < n < |hs| then seq(|hs|, _ => 2 * n >= |hs|)
    else seq(|hs|, k requires 0 <= k < |hs| => !hs[k])
  }

  /**
   * "Show/hide all" always leaves the list unified; a mixed list goes to
   * the side holding at least half, a unified one to the other side.
   */
  lemma ShowHideAllUnifies(hs: seq<bool>)
    requires hs != []
    ensures Uniform(ShowHideAllResult(hs))
    ensures var n := CountHidden(hs);
      0 < n < |hs| ==> (ShowHideAllResult(hs)[0] <==> 2 * n >= |hs|)
    ensures Uniform(hs) ==> ShowHideAllResult(hs)[0] == !hs[0]
  {
    CountHiddenExtremes(hs);
    var n := CountHidden(hs);
    if !(0 < n < |hs|) {
      var r := ShowHideAllResult(hs);
      if hs[0] {
        assert n != 0;
      } else {
        assert n != |hs|;
      }
      assert forall k :: 0 <= k < |hs| ==> hs[k] == hs[0];
    }
  }

  /** From a unified list, pressing "show/hide all" twice restores it. */
  lemma ShowHideAllTwice(hs: seq<bool>)
    requires Uniform(hs)
    ensures ShowHideAllResult(ShowHideAllResult(hs)) == hs
  {
    if hs != [] {
      ShowHideAllUnifies(hs);
      var r := ShowHideAllResult(hs);
      ShowHideAllUnifies(r);
    }
  }

  /**
   * The loop of `renderBlockTypeList` over the words: one item per word,
   * its lower element created hidden and counted.
   */
  method FillItems(words: Words, o: Orientation, coins: seq<bool>) returns (items: seq<(string, string)>, hidden: seq<bool>, count: int)
    requires |coins| == |words.words|
    ensures |items| == |hidden| == count == |coins|
    ensures forall i :: 0 <= i < |items| ==> items[i] == Sides(o, coins[i], words.words[i])
    ensures forall k :: 0 <= k < |hidden| ==> hidden[k]
  {
    var it := new WordsIterator(words);
    items, hidden, count := [], [], 0;
    while true
      invariant it.Valid() && it.wordsArr == words.words
      invariant |items| == |hidden| == count == it.nextIndex
      invariant forall i :: 0 <= i < |items| ==> items[i] == Sides(o, coins[i], it.wordsArr[i])
      invariant forall k :: 0 <= k < |hidden| ==> hidden[k]
      decreases |it.wordsArr| - it.nextIndex
    {
      var w, done := it.Next();
      if done {
        break;
      }
      items := items + [Sides(o, coins[|items|], w)];
      hidden := hidden + [true];
      count := count + 1;
    }
  }

  /**
   * A rendered word list: each item shows one side of its word and conceals
   * the other in a lower element that can be hidden; `numOfHidden` is the
   * counter the click handlers keep.
   */
  class ListView {
    var items: seq<(string, string)>
    var hidden: seq<bool>
    var numOfHidden: int

    /** The counter agrees with the hidden flags, one flag per item. */
    ghost predicate Valid()
      reads this
    {
      |hidden| == |items| && numOfHidden == CountHidden(hidden)
    }

    /**
     * `renderBlockTypeList`: one item per parsed word in order, every lower
     * element hidden and counted. `coins[i]` is the flip for the `i`-th word.
     */
    constructor (subtype: int, source: string, coins: seq<bool>)
      requires |coins| == |Parse(source, ':')|
      ensures Valid()
      ensures |items| == |coins|
      ensures forall i :: 0 <= i < |items| ==> items[i] == Sides(OrientationOf(subtype), coins[i], Parse(source, ':')[i])
      ensures forall k :: 0 <= k < |hidden| ==> hidden[k]
      ensures numOfHidden == |items|
    {
      var words := new Words(source, ':');
      var shown, flags, count := FillItems(words, OrientationOf(subtype), coins);
      CountHiddenExtremes(flags);
      items := shown;
      hidden := flags;
      numOfHidden := count;
    }

    /** `divSetHidden(lowerEl, numOfHidden)`: hides the item, counting it only if it was shown. */
    method SetHidden(i: nat)
      requires Valid() && i < |hidden|
      modifies this
      ensures Valid() && items == old(items) && hidden == old(hidden)[i := true]
      ensures numOfHidden == old(numOfHidden) + (if old(hidden)[i] then 0 else 1)
    {
      if hidden[i] {
        assert hidden[i := true] == hidden;
        return;
      }
      CountHiddenUpdate(hidden, i, true);
      hidden := hidden[i := true];
      numOfHidden := numOfHidden + 1;
    }

    /** `divClearHidden(lowerEl, numOfHidden)`: shows the item, uncounting it only if it was hidden. */
    method ClearHidden(i: nat)
      requires Valid() && i < |hidden|
      modifies this
      ensures Valid() && items == old(items) && hidden == old(hidden)[i := false]
      ensures numOfHidden == old(numOfHidden) - (if old(hidden)[i] then 1 else 0)
    {
      if hidden[i] {
        CountHiddenUpdate(hidden, i, false);
        hidden := hidden[i := false];
        numOfHidden := numOfHidden - 1;
      } else {
        assert hidden[i := false] == hidden;
      }
    }

    /** `divToggleHidden(lowerEl, numOfHidden)`: a click on the item. */
    method ToggleHidden(i: nat)
      requires Valid() && i < |hidden|
      modifies this
      ensures Valid() && items == old(items) && hidden == old(hidden)[i := !old(hidden)[i]]
      ensures numOfHidden == old(numOfHidden) + (if old(hidden)[i] then -1 else 1)
    {
      if hidden[i] {
        ClearHidden(i);
      } else {
        SetHidden(i);
      }
    }

    /** The "show/hide all" button, which exists only when the list has an item. */
    method ShowHideAll()
      requires Valid() && 0 < |hidden|
      modifies this
      ensures Valid() && items == old(items) && hidden == ShowHideAllResult(old(hidden))
    {
      var n := numOfHidden;
      var len := |hidden|;
      if 0 < n < len {
        var unifyAsHidden := 2 * n >= len;
        var i := 0;
        while i < len
          invariant 0 <= i <= len && Valid() && |hidden| == len && items == old(items)
          invariant forall k :: 0 <= k < i ==> hidden[k] == unifyAsHidden
        {
          if unifyAsHidden {
            SetHidden(i);
          } else {
            ClearHidden(i);
          }
          i := i + 1;
        }
        assert hidden == ShowHideAllResult(old(hidden));
        return;
      }
      var i := 0;
      while i < len
        invariant 0 <= i <= len && Valid() && |hidden| == len && items == old(items)
        invariant forall k :: 0 <= k < i ==> hidden[k] == !old(hidden)[k]
        invariant forall k :: i <= k < len ==> hidden[k] == old(hidden)[k]
      {
        ToggleHidden(i);
        i := i + 1;
      }
    }
  }

  /** Every index of `[0, n)` occurs in a permutation of `[0, n)`, and nothing else does. */
  lemma PermutationOfRange(idx: seq<nat>, n: nat)
    requires multiset(idx) == multiset(Range(n))
    ensures |idx| == n
    ensures IndicesBelow(idx, n)
    ensures forall v :: 0 <= v < n ==> v in idx
  {
    assert |idx| == |multiset(idx)| == |multiset(Range(n))| == n;
    forall k | 0 <= k < |idx| ensures idx[k] < n {
      assert idx[k] in multiset(Range(n));
    }
    forall v | 0 <= v < n ensures v in idx {
      assert Range(n)[v] == v;
      assert v in multiset(Range(n));
    }
  }

  /**
   * A rendered multiple-choice quiz: the question, the options (the right
   * one first) and the display order `indexArr`, a permutation of the
   * option positions; the accuracy counters and the gate that lets one
   * click through per question.
   */
  class ChoiceDrill {
    const subtype: int
    const words: seq<Word>
    const indexArr: array<nat>
    var question: string
    var options: seq<string>
    var allowSelection: bool
    var correctlyAnswered: nat
    var totalAnswered: nat

    ghost predicate Valid()
      reads this, indexArr
    {
      correctlyAnswered <= totalAnswered &&
      0 < |options| <= |words| &&
      multiset(indexArr[..]) == multiset(Range(|options|))
    }

    /** The text of the `k`-th displayed option. */
    function Displayed(k: nat): (text: string)
      reads this, indexArr
      requires Valid() && k < indexArr.Length
      ensures text in options
    {
      PermutationOfRange(indexArr[..], |options|);
      options[indexArr[k]]
    }

    /**
     * `renderBlockTypeChoice`: the first question with up to four options,
     * displayed in the order of a shuffled `[0, n)`; selection open, both
     * counters zero. Without any word the question cannot be built.
     */
    constructor (subtype: int, source: string, rs: seq<nat>, coin: bool, order: seq<nat>)
      requires 0 < |Parse(source, ':')| && IsDraw(rs, |Parse(source, ':')|)
      requires IsDraw(order, Min(|Parse(source, ':')|, 4))
      ensures Valid() && allowSelection && correctlyAnswered == 0 && totalAnswered == 0
      ensures words == Parse(source, ':')
      ensures GetRandomQuestionAndOptions(subtype, words, 4, rs, coin) == Some((question, options))
      ensures indexArr[..] == Shuffled(Range(|options|), order)
    {
      var ws := new Words(source, ':');
      var qo := GetRandomQuestionAndOptions(subtype, ws.words, 4, rs, coin).value;
      var numOfOptions := |qo.1|;
      var arr := new nat[numOfOptions](i => i);
      assert arr[..] == Range(numOfOptions);
      Shuffle(arr, order);
      this.subtype := subtype;
      this.words := ws.words;
      this.indexArr := arr;
      question := qo.0;
      options := qo.1;
      allowSelection := true;
      correctlyAnswered := 0;
      totalAnswered := 0;
    }

    /**
     * A click on the `k`-th displayed option: ignored while selection is
     * closed; otherwise it closes selection, counts the answer and counts it
     * correct when the displayed text equals the right option's text.
     */
    method Select(k: nat) returns (accepted: bool, correct: bool)
      requires Valid() && k < indexArr.Length
      modifies this
      ensures Valid() && question == old(question) && options == old(options) && !allowSelection
      ensures accepted == old(allowSelection)
      ensures !accepted ==> !correct && totalAnswered == old(totalAnswered) && correctlyAnswered == old(correctlyAnswered)
      ensures accepted ==> (correct <==> Displayed(k) == options[0])
      ensures accepted ==> totalAnswered == old(totalAnswered) + 1
      ensures accepted ==> correctlyAnswered == old(correctlyAnswered) + (if correct then 1 else 0)
    {
      if !allowSelection {
        return false, false;
      }
      allowSelection := false;
      PermutationOfRange(indexArr[..], |options|);
      correct := options[indexArr[k]] == options[0];
      totalAnswered := totalAnswered + 1;
      if correct {
        correctlyAnswered := correctlyAnswered + 1;
      }
      accepted := true;
    }

    /**
     * The delayed handler after a click: a new question with as many options
     * as the first one had, the display order reshuffled, selection reopened.
     */
    method NextQuestion(rs: seq<nat>, coin: bool, order: seq<nat>)
      requires Valid() && IsDraw(rs, |words|) && IsDraw(order, indexArr.Length)
      modifies this, indexArr
      ensures Valid() && allowSelection
      ensures totalAnswered == old(totalAnswered) && correctlyAnswered == old(correctlyAnswered)
      ensures |options| == old(|options|)
      ensures GetRandomQuestionAndOptions(subtype, words, old(|options|), rs, coin) == Some((question, options))
      ensures indexArr[..] == Shuffled(old(indexArr[..]), order)
    {
      var qo := GetRandomQuestionAndOptions(subtype, words, |options|, rs, coin).value;
      question := qo.0;
      options := qo.1;
      Shuffle(indexArr, order);
      allowSelection := true;
    }
  }

  /** The right option is always on display, at some position. */
  lemma RightOptionDisplayed(idx: seq<nat>, options: seq<string>)
    requires multiset(idx) == multiset(Range(|options|)) && 0 < |options|
    ensures exists k :: 0 <= k < |idx| && idx[k] < |options| && options[idx[k]] == options[0]
  {
    PermutationOfRange(idx, |options|);
    assert 0 in idx;
    var k :| 0 <= k < |idx| && idx[k] == 0;
  }

  /**
   * The spelling check on the card: blank input (after trimming) leaves the
   * mark as it is (`None`); otherwise the trimmed input is compared with the
   * answer text.
   */
  function SpellCheck(input: string, answer: string): (verdict: Option<bool>)
    ensures verdict.None? <==> AllWhitespace(input)
    ensures verdict == Some(true) ==> OccursAt(input, answer, LeadingSpace(input)) && answer != []
    ensures verdict == Some(true) <==> answer != [] && IsTrimmed(answer) && Padded(input, answer)
  {
    TrimEmpty(input);
    TrimIsInfix(input);
    TrimIsPadded(input, answer);
    var trimmed := Trim(input);
    if trimmed == "" then None else Some(trimmed == answer)
  }

  /** Typing the answer with white space around it is still marked correct. */
  lemma SpellCheckIgnoresPadding(pre: string, answer: string, post: string)
    requires AllWhitespace(pre) && AllWhitespace(post) && IsTrimmed(answer) && answer != []
    ensures SpellCheck(pre + answer + post, answer) == Some(true)
  {
    TrimPadded(pre, answer, post);
  }

  /** An empty or padded answer text can never be matched: trimmed input is never padded and never blank. */
  lemma SpellCheckNeedsTrimmedAnswer(input: string, answer: string)
    requires !IsTrimmed(answer) || answer == []
    ensures SpellCheck(input, answer) != Some(true)
  {
    TrimIsTrimmed(input);
  }

  datatype SpellMark = Unmarked | MarkedCorrect | MarkedWrong

  /** A rendered flash card: question shown, answer concealed until clicked, and the spelling mark. */
  class CardDrill {
    const subtype: int
    const words: seq<Word>
    var question: string
    var answer: string
    var answerHidden: bool
    var mark: SpellMark

    /**
     * `renderBlockTypeCard`: the question and answer of the word at `pick`,
     * the answer hidden, nothing marked. Without any word the card cannot be
     * built.
     */
    constructor (subtype: int, source: string, pick: nat, coin: bool)
      requires 0 < |Parse(source, ':')| && pick < |Parse(source, ':')|
      ensures words == Parse(source, ':') && this.subtype == subtype
      ensures GetRandomQuestionAndAnswer(subtype, words, pick, coin) == Some((question, answer))
      ensures answerHidden && mark == Unmarked
    {
      var ws := new Words(source, ':');
      var qa := GetRandomQuestionAndAnswer(subtype, ws.words, pick, coin).value;
      this.subtype := subtype;
      this.words := ws.words;
      question := qa.0;
      answer := qa.1;
      answerHidden := true;
      mark := Unmarked;
    }

    /** A click on the question and answer area. */
    method ToggleAnswer()
      modifies this
      ensures answerHidden == !old(answerHidden)
      ensures question == old(question) && answer == old(answer) && mark == old(mark)
    {
      answerHidden := !answerHidden;
    }

    /** The delayed key handler of the spelling input holding `input`. */
    method CheckSpelling(input: string)
      modifies this
      ensures mark == match SpellCheck(input, answer)
        case None => old(mark)
        case Some(ok) => if ok then MarkedCorrect else MarkedWrong
      ensures question == old(question) && answer == old(answer) && answerHidden == old(answerHidden)
    {
      var trimmed := Trim(input);
      if trimmed == "" {
        return;
      }
      if trimmed == answer {
        mark := MarkedCorrect;
      } else {
        mark := MarkedWrong;
      }
    }

    /** The "next" button: a new question and answer, the answer hidden again, the mark cleared. */
    method Next(pick: nat, coin: bool)
      requires pick < |words|
      modifies this
      ensures GetRandomQuestionAndAnswer(subtype, words, pick, coin) == Some((question, answer))
      ensures answerHidden && mark == Unmarked
    {
      var qa := GetRandomQuestionAndAnswer(subtype, words, pick, coin).value;
      question := qa.0;
      answer := qa.1;
      answerHidden := true;
      mark := Unmarked;
    }
  }
}
