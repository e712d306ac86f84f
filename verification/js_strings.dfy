/** An optional value; `None` stands for JavaScript's `undefined` or a failed match. */
module Options {
  datatype Option<+T> = None | Some(value: T)
}

/**
 * The few JavaScript string primitives the plugin relies on:
 * `trim`, `indexOf`, `split`, `join`, `startsWith`, `endsWith` and
 * `replace` with a plain-string pattern.
 */
module JsStrings {
  import opened Options

  /** The characters `String.prototype.trim` removes: ECMAScript WhiteSpace and LineTerminator. */
  const WhiteSpace: set<char> := {
    '\t', '\n', '\U{B}', '\U{C}', '\r', ' ', '\U{A0}', '\U{1680}',
    '\U{2000}', '\U{2001}', '\U{2002}', '\U{2003}', '\U{2004}', '\U{2005}',
    '\U{2006}', '\U{2007}', '\U{2008}', '\U{2009}', '\U{200A}',
    '\U{2028}', '\U{2029}', '\U{202F}', '\U{205F}', '\U{3000}', '\U{FEFF}'
  }

  predicate IsWhitespace(c: char) {
    c in WhiteSpace
  }

  /** A string that `trim` leaves as it is. */
  predicate IsTrimmed(s: string) {
    s == [] || (!IsWhitespace(s[0]) && !IsWhitespace(s[|s| - 1]))
  }

  /** Every character of `s` is white space. */
  predicate AllWhitespace(s: string) {
    forall i :: 0 <= i < |s| ==> IsWhitespace(s[i])
  }

  /** The number of white-space characters `s` starts with. */
  function LeadingSpace(s: string): (n: nat)
    ensures n <= |s|
  {
    if s == [] || !IsWhitespace(s[0]) then 0 else 1 + LeadingSpace(s[1..])
  }

  /** The number of white-space characters `s` ends with. */
  function TrailingSpace(s: string): (n: nat)
    ensures n <= |s|
  {
    if s == [] || !IsWhitespace(s[|s| - 1]) then 0 else 1 + TrailingSpace(s[..|s| - 1])
  }

  /** `LeadingSpace` counts a maximal run of white space at the start. */
  lemma {:induction false} LeadingSpaceIsMaximal(s: string)
    ensures AllWhitespace(s[..LeadingSpace(s)])
    ensures LeadingSpace(s) == |s| || !IsWhitespace(s[LeadingSpace(s)])
  {
    if s != [] && IsWhitespace(s[0]) {
      var t := s[1..];
      LeadingSpaceIsMaximal(t);
      assert s[..LeadingSpace(s)] == [s[0]] + t[..LeadingSpace(t)];
    }
  }

  /** `TrailingSpace` counts a maximal run of white space at the end. */
  lemma {:induction false} TrailingSpaceIsMaximal(s: string)
    ensures AllWhitespace(s[|s| - TrailingSpace(s)..])
    ensures TrailingSpace(s) == |s| || !IsWhitespace(s[|s| - 1 - TrailingSpace(s)])
  {
    if s != [] && IsWhitespace(s[|s| - 1]) {
      var t := s[..|s| - 1];
      TrailingSpaceIsMaximal(t);
      assert s[|s| - TrailingSpace(s)..] == t[|t| - TrailingSpace(t)..] + [s[|s| - 1]];
    }
  }

  function TrimStart(s: string): string {
    s[LeadingSpace(s)..]
  }

  function TrimEnd(s: string): string {
    s[..|s| - TrailingSpace(s)]
  }

  /** `String.prototype.trim`. */
  function Trim(s: string): string {
    TrimEnd(TrimStart(s))
  }

  /** `trim` yields a trimmed string, and exactly the trimmed strings are left as they are. */
  lemma TrimIsTrimmed(s: string)
    ensures IsTrimmed(Trim(s))
    ensures Trim(s) == s <==> IsTrimmed(s)
  {
    LeadingSpaceIsMaximal(s);
    TrailingSpaceIsMaximal(TrimStart(s));
  }

  /** `trim` keeps a contiguous part of `s`: the text right after the leading white space. */
  lemma TrimIsInfix(s: string)
    ensures OccursAt(s, Trim(s), LeadingSpace(s))
  {
    var k := LeadingSpace(s);
    var t := s[k..];
    assert t[..|t| - TrailingSpace(t)] == s[k..k + |t| - TrailingSpace(t)];
  }

  /** What `trim` removes is white space, at both ends. */
  lemma TrimRemovesOnlyWhitespace(s: string)
    ensures AllWhitespace(s[..LeadingSpace(s)])
    ensures AllWhitespace(s[LeadingSpace(s) + |Trim(s)|..])
  {
    var t := TrimStart(s);
    LeadingSpaceIsMaximal(s);
    TrailingSpaceIsMaximal(t);
    assert s[LeadingSpace(s) + |Trim(s)|..] == t[|t| - TrailingSpace(t)..];
  }

  /** Trimming a string that starts with white space and is otherwise trimmed yields the rest. */
  lemma TrimAfterWhitespace(c: char, s: string)
    requires IsWhitespace(c) && IsTrimmed(s)
    ensures Trim([c] + s) == s
  {
    var t := [c] + s;
    assert t[1..] == s;
    assert LeadingSpace(t) == 1 + LeadingSpace(s);
    TrimIsTrimmed(s);
  }

  /** Trimming a trimmed, non-empty string followed by one white-space character yields the string. */
  lemma TrimBeforeWhitespace(s: string, c: char)
    requires IsWhitespace(c) && s != [] && IsTrimmed(s)
    ensures Trim(s + [c]) == s
  {
    var t := s + [c];
    assert LeadingSpace(t) == 0;
    assert t[..|t| - 1] == s;
    assert TrailingSpace(t) == 1;
  }

  /** White space in front of a string that does not start with white space is exactly its leading space. */
  lemma {:induction false} LeadingSpacePadded(pre: string, t: string)
    requires AllWhitespace(pre) && (t == [] || !IsWhitespace(t[0]))
    ensures LeadingSpace(pre + t) == |pre|
    decreases |pre|
  {
    if pre == [] {
      assert pre + t == t;
    } else {
      assert (pre + t)[1..] == pre[1..] + t;
      LeadingSpacePadded(pre[1..], t);
    }
  }

  /** White space after a string that does not end with white space is exactly its trailing space. */
  lemma {:induction false} TrailingSpacePadded(t: string, post: string)
    requires AllWhitespace(post) && (t == [] || !IsWhitespace(t[|t| - 1]))
    ensures TrailingSpace(t + post) == |post|
    decreases |post|
  {
    if post == [] {
      assert t + post == t;
    } else {
      var shorter := post[..|post| - 1];
      assert (t + post)[..|t + post| - 1] == t + shorter;
      TrailingSpacePadded(t, shorter);
    }
  }

  /** `trim` removes any white space around a trimmed, non-empty string and nothing else. */
  lemma TrimPadded(pre: string, s: string, post: string)
    requires AllWhitespace(pre) && AllWhitespace(post) && IsTrimmed(s) && s != []
    ensures Trim(pre + s + post) == s
  {
    assert pre + s + post == pre + (s + post);
    LeadingSpacePadded(pre, s + post);
    assert TrimStart(pre + s + post) == s + post;
    TrailingSpacePadded(s, post);
    assert (s + post)[..|s|] == s;
  }

  /** `trim` yields the empty string exactly on strings made of white space alone. */
  lemma TrimEmpty(s: string)
    ensures Trim(s) == [] <==> AllWhitespace(s)
  {
    LeadingSpaceIsMaximal(s);
    TrimRemovesOnlyWhitespace(s);
    if Trim(s) == [] {
      assert s == s[..LeadingSpace(s)] + s[LeadingSpace(s) + |Trim(s)|..];
    }
  }

  /** `s` is `t` with white space on either side. */
  ghost predicate Padded(s: string, t: string) {
    exists pre, post :: AllWhitespace(pre) && AllWhitespace(post) && s == pre + t + post
  }

  /** `trim` yields `t` exactly when `t` is trimmed and `s` is `t` with white space around it. */
  lemma TrimIsPadded(s: string, t: string)
    ensures Trim(s) == t <==> IsTrimmed(t) && Padded(s, t)
  {
    if Trim(s) == t {
      TrimIsTrimmed(s);
      TrimIsInfix(s);
      TrimRemovesOnlyWhitespace(s);
      var k := LeadingSpace(s);
      assert s == s[..k] + s[k..k + |t|] + s[k + |t|..];
      assert AllWhitespace(s[..k]) && AllWhitespace(s[k + |t|..]);
    }
    if IsTrimmed(t) && Padded(s, t) {
      var pre, post :| AllWhitespace(pre) && AllWhitespace(post) && s == pre + t + post;
      if t == [] {
        forall i | 0 <= i < |s|
          ensures IsWhitespace(s[i])
        {
          if i < |pre| {
            assert s[i] == pre[i];
          } else {
            assert s[i] == post[i - |pre|];
          }
        }
        TrimEmpty(s);
      } else {
        TrimPadded(pre, t, post);
      }
    }
  }

  predicate StartsWith(s: string, prefix: string) {
    |prefix| <= |s| && s[..|prefix|] == prefix
  }

  predicate EndsWith(s: string, suffix: string) {
    |suffix| <= |s| && s[|s| - |suffix|..] == suffix
  }

  /** `s.indexOf(c)` for a one-character argument; `None` stands for -1. */
  function IndexOf(s: string, c: char): (r: Option<nat>)
    ensures r.None? <==> c !in s
    ensures r.Some? ==> r.value < |s| && s[r.value] == c && c !in s[..r.value]
  {
    if s == [] then None
    else if s[0] == c then Some(0)
    else match IndexOf(s[1..], c)
      case None => None
      case Some(i) =>
        assert s[..i + 1] == [s[0]] + s[1..][..i];
        Some(i + 1)
  }

  /** No piece contains the separator `c`. */
  predicate SeparatorFree(parts: seq<string>, c: char) {
    forall i :: 0 <= i < |parts| ==> c !in parts[i]
  }

  /** `s.split(c)` for a one-character separator. */
  function Split(s: string, c: char): (parts: seq<string>)
    ensures |parts| >= 1
    decreases |s|
  {
    match IndexOf(s, c)
    case None => [s]
    case Some(i) => [s[..i]] + Split(s[i + 1..], c)
  }

  /** No piece of a split contains the separator. */
  lemma {:induction false} SplitPiecesAreSeparatorFree(s: string, c: char)
    ensures SeparatorFree(Split(s, c), c)
    decreases |s|
  {
    match IndexOf(s, c)
    case None =>
    case Some(i) =>
      SplitPiecesAreSeparatorFree(s[i + 1..], c);
  }

  /** `parts.join(c)` for a one-character separator. */
  function Join(parts: seq<string>, c: char): string
  {
    if |parts| == 0 then ""
    else if |parts| == 1 then parts[0]
    else parts[0] + [c] + Join(parts[1..], c)
  }

  /** Splitting on `c` and joining with `c` gives back the string. */
  lemma {:induction false} JoinSplit(s: string, c: char)
    ensures Join(Split(s, c), c) == s
    decreases |s|
  {
    match IndexOf(s, c)
    case None =>
    case Some(i) =>
      var rest := s[i + 1..];
      var parts := Split(s, c);
      assert parts == [s[..i]] + Split(rest, c);
      assert parts[0] == s[..i] && parts[1..] == Split(rest, c);
      JoinSplit(rest, c);
      calc {
        Join(parts, c);
        parts[0] + [c] + Join(parts[1..], c);
        s[..i] + [c] + rest;
        s;
      }
  }

  /** The first occurrence of `c` is the one that nothing before it equals. */
  lemma IndexOfIs(s: string, c: char, i: nat)
    requires i < |s| && s[i] == c && c !in s[..i]
    ensures IndexOf(s, c) == Some(i)
  {
    assert s[..i + 1] == s[..i] + [c];
  }

  /** A string without the separator is a single piece, before whatever follows the separator. */
  lemma SplitAtFirst(a: string, c: char, b: string)
    requires IndexOf(a, c).None?
    ensures Split(a + [c] + b, c) == [a] + Split(b, c)
  {
    var s := a + [c] + b;
    assert s[..|a|] == a;
    IndexOfIs(s, c, |a|);
    assert s[|a| + 1..] == b;
  }

  /** The two halves of a concatenation. */
  lemma ConcatHalves<T>(a: seq<T>, b: seq<T>)
    ensures (a + b)[..|a|] == a && (a + b)[|a|..] == b
  {
  }

  /** A non-empty prefix is the shorter prefix and its last element. */
  lemma TakeSnoc<T>(s: seq<T>, i: nat)
    requires 0 < i <= |s|
    ensures s[..i] == s[..i - 1] + [s[i - 1]]
  {
  }

  /** Concatenation is associative. */
  lemma ConcatAssoc<T>(x: seq<T>, y: seq<T>, z: seq<T>)
    ensures x + (y + z) == (x + y) + z
  {
  }

  /** Regrouping a string built around two separators. */
  lemma Regroup<T>(p: seq<T>, x: T, q: seq<T>, r: seq<T>)
    ensures p + [x] + q + [x] + r == p + [x] + (q + [x] + r)
  {
  }

  /** The inductive step of `SplitAround`: the piece before the first separator comes first. */
  lemma SplitAroundStep(p: string, c: char, q: string, b: string)
    requires IndexOf(p, c).None?
    requires Split(q + [c] + b, c) == Split(q, c) + Split(b, c)
    ensures Split(p + [c] + q + [c] + b, c) == Split(p + [c] + q, c) + Split(b, c)
  {
    Regroup(p, c, q, b);
    SplitAtFirst(p, c, q + [c] + b);
    SplitAtFirst(p, c, q);
    ConcatAssoc([p], Split(q, c), Split(b, c));
  }

  /** A separator splits the string into the pieces of its two sides. */
  lemma {:induction false} SplitAround(a: string, c: char, b: string)
    ensures Split(a + [c] + b, c) == Split(a, c) + Split(b, c)
    decreases |a|
  {
    match IndexOf(a, c)
    case None =>
      SplitAtFirst(a, c, b);
    case Some(i) =>
      var p, q := a[..i], a[i + 1..];
      assert a == p + [c] + q;
      SplitAround(q, c, b);
      SplitAroundStep(p, c, q, b);
  }

  /** Joining pieces free of the separator and splitting again gives back the pieces. */
  lemma {:induction false} SplitJoin(parts: seq<string>, c: char)
    requires |parts| >= 1 && SeparatorFree(parts, c)
    ensures Split(Join(parts, c), c) == parts
    decreases |parts|
  {
    var head := parts[0];
    assert IndexOf(head, c).None?;
    if |parts| > 1 {
      var tail := parts[1..];
      assert SeparatorFree(tail, c);
      SplitJoin(tail, c);
      SplitAround(head, c, Join(tail, c));
    }
  }

  /** `pat` occurs in `s` at position `p`. */
  predicate OccursAt(s: string, pat: string, p: nat) {
    p + |pat| <= |s| && s[p..p + |pat|] == pat
  }

  /** The character at offset `i` of an occurrence is the pattern's `i`-th character. */
  lemma CharOfOccurrence(s: string, pat: string, p: nat, i: nat)
    requires OccursAt(s, pat, p) && i < |pat|
    ensures s[p + i] == pat[i]
  {
    assert s[p..p + |pat|][i] == s[p + i];
  }

  /** An occurrence of `pat` inside an occurrence of `m` is an occurrence of `pat` in `m`. */
  lemma OccursWithin(s: string, m: string, p: nat, pat: string, i: nat)
    requires OccursAt(s, m, p) && OccursAt(s, pat, p + i) && i + |pat| <= |m|
    ensures OccursAt(m, pat, i)
  {
    forall j | 0 <= j < |pat| ensures m[i..i + |pat|][j] == pat[j] {
      CharOfOccurrence(s, m, p, i + j);
      CharOfOccurrence(s, pat, p + i, j);
    }
  }

  /** An occurrence that ends within `s` is an occurrence in `s`, whatever follows it. */
  lemma OccursInPrefix(s: string, t: string, pat: string, p: nat)
    requires OccursAt(s + t, pat, p) && p + |pat| <= |s|
    ensures OccursAt(s, pat, p)
  {
    assert (s + t)[p..p + |pat|] == s[p..p + |pat|];
  }

  /** An occurrence of `pat` in `m` lies inside every occurrence of `m`. */
  lemma OccursNested(s: string, m: string, q: nat, pat: string, i: nat)
    requires OccursAt(s, m, q) && OccursAt(m, pat, i)
    ensures OccursAt(s, pat, q + i)
  {
    forall j | 0 <= j < |pat| ensures s[q + i..q + i + |pat|][j] == pat[j] {
      CharOfOccurrence(s, m, q, i + j);
      CharOfOccurrence(m, pat, i, j);
    }
  }

  function IndexOfSubstringFrom(s: string, pat: string, from: nat): (r: Option<nat>)
    requires from <= |s|
    ensures r.Some? ==> from <= r.value && OccursAt(s, pat, r.value)
    ensures r.Some? ==> forall p :: from <= p < r.value ==> !OccursAt(s, pat, p)
    ensures r.None? ==> forall p :: from <= p <= |s| ==> !OccursAt(s, pat, p)
    decreases |s| - from
  {
    if OccursAt(s, pat, from) then Some(from)
    else if from == |s| then None
    else IndexOfSubstringFrom(s, pat, from + 1)
  }

  /** `s.indexOf(pat)` for a string argument: the first position where `pat` occurs. */
  function IndexOfSubstring(s: string, pat: string): (r: Option<nat>)
    ensures r.Some? ==> OccursAt(s, pat, r.value) && forall p :: 0 <= p < r.value ==> !OccursAt(s, pat, p)
    ensures r.None? ==> forall p :: 0 <= p <= |s| ==> !OccursAt(s, pat, p)
  {
    IndexOfSubstringFrom(s, pat, 0)
  }

  /**
   * `s.replace(pat, rep)` with a string pattern: the first occurrence of `pat`
   * is replaced by `rep`, taken literally.
   */
  function ReplaceFirst(s: string, pat: string, rep: string): (r: string)
    ensures IndexOfSubstring(s, pat).None? ==> r == s
    ensures IndexOfSubstring(s, pat).Some? ==>
      var i := IndexOfSubstring(s, pat).value;
      r == s[..i] + rep + s[i + |pat|..]
    ensures (forall q: nat :: !OccursAt(s, pat, q)) ==> r == s
    ensures forall i: nat :: OccursAt(s, pat, i) && (forall q: nat :: q < i ==> !OccursAt(s, pat, q)) ==>
      r == s[..i] + rep + s[i + |pat|..]
  {
    match IndexOfSubstring(s, pat)
    case None => s
    case Some(i) => s[..i] + rep + s[i + |pat|..]
  }
}
