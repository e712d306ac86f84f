/**
 * The `Map<string, Word>` a vocabulary book caches its words in, keyed by
 * term. A JavaScript Map remembers insertion order: `set` on an existing key
 * replaces the value in place, `set` on a new key appends, `delete` removes
 * the entry and keeps the order of the rest. The map is modelled as its
 * sequence of entries, with `AsMap` giving the key-value view.
 */
module CacheMaps {
  import opened WordPairs

  /** No term appears twice. */
  predicate DistinctTerms(es: seq<Word>) {
    forall i, j :: 0 <= i < j < |es| ==> es[i].word != es[j].word
  }

  /** Some entry has the key `term`. */
  predicate HasTerm(es: seq<Word>, term: string) {
    exists i :: 0 <= i < |es| && es[i].word == term
  }

  /** The keys in insertion order. */
  function Terms(es: seq<Word>): seq<string> {
    seq(|es|, i requires 0 <= i < |es| => es[i].word)
  }

  /** The key-value view of the entries. */
  function AsMap(es: seq<Word>): map<string, Word> {
    if es == [] then map[] else AsMap(es[1..])[es[0].word := es[0]]
  }

  /** Distinct keys, split at the first entry. */
  lemma DistinctCons(es: seq<Word>)
    requires es != []
    ensures DistinctTerms(es) <==> !HasTerm(es[1..], es[0].word) && DistinctTerms(es[1..])
  {
    var r := es[1..];
    if !HasTerm(r, es[0].word) && DistinctTerms(r) {
      forall i, j | 0 <= i < j < |es| ensures es[i].word != es[j].word {
        assert es[j] == r[j - 1];
        if 0 < i {
          assert es[i] == r[i - 1];
        }
      }
    }
    if DistinctTerms(es) {
      forall i | 0 <= i < |r| ensures r[i].word != es[0].word {
        assert r[i] == es[i + 1];
      }
      forall i, j | 0 <= i < j < |r| ensures r[i].word != r[j].word {
        assert r[i] == es[i + 1] && r[j] == es[j + 1];
      }
    }
  }

  /** Keys, split at the first entry. */
  lemma HasTermCons(es: seq<Word>, term: string)
    requires es != []
    ensures HasTerm(es, term) <==> es[0].word == term || HasTerm(es[1..], term)
  {
    if HasTerm(es, term) && es[0].word != term {
      var i :| 0 <= i < |es| && es[i].word == term;
      assert es[1..][i - 1] == es[i];
    }
    if HasTerm(es[1..], term) {
      var i :| 0 <= i < |es[1..]| && es[1..][i].word == term;
      assert es[i + 1] == es[1..][i];
    }
  }

  /** The keys of the map view are exactly the entries' terms. */
  lemma {:induction false} AsMapKeys(es: seq<Word>, term: string)
    ensures term in AsMap(es) <==> HasTerm(es, term)
    decreases |es|
  {
    if es != [] {
      HasTermCons(es, term);
      AsMapKeys(es[1..], term);
    }
  }

  /** With distinct keys, the map view sends every entry's term to that entry. */
  lemma {:induction false} AsMapValues(es: seq<Word>, i: nat)
    requires DistinctTerms(es) && i < |es|
    ensures es[i].word in AsMap(es) && AsMap(es)[es[i].word] == es[i]
    decreases |es|
  {
    DistinctCons(es);
    if i > 0 {
      assert es[1..][i - 1] == es[i];
      AsMapValues(es[1..], i - 1);
    }
  }

  /** `map.set(w.word, w)`: an existing key keeps its position and takes the new value; a new key goes last. */
  function MapSet(es: seq<Word>, w: Word): seq<Word> {
    if es == [] then [w]
    else if es[0].word == w.word then [w] + es[1..]
    else [es[0]] + MapSet(es[1..], w)
  }

  /** The keys of a list with a first entry. */
  lemma TermsCons(x: Word, r: seq<Word>)
    ensures Terms([x] + r) == [x.word] + Terms(r)
  {
  }

  /** `set` on a key that is present keeps the order of the keys. */
  lemma {:induction false} MapSetKeepsOrder(es: seq<Word>, w: Word)
    requires HasTerm(es, w.word)
    ensures Terms(MapSet(es, w)) == Terms(es)
    decreases |es|
  {
    HasTermCons(es, w.word);
    var r := es[1..];
    assert es == [es[0]] + r;
    TermsCons(es[0], r);
    if es[0].word == w.word {
      TermsCons(w, r);
    } else {
      MapSetKeepsOrder(r, w);
      TermsCons(es[0], MapSet(r, w));
    }
  }

  /** `set` on a new key appends the entry. */
  lemma {:induction false} MapSetAppends(es: seq<Word>, w: Word)
    requires !HasTerm(es, w.word)
    ensures MapSet(es, w) == es + [w]
    decreases |es|
  {
    if es != [] {
      HasTermCons(es, w.word);
      MapSetAppends(es[1..], w);
      assert es == [es[0]] + es[1..];
    }
  }

  /** After `set`, the keys are the old keys and `w.word`. */
  lemma {:induction false} MapSetTerms(es: seq<Word>, w: Word, term: string)
    ensures HasTerm(MapSet(es, w), term) <==> HasTerm(es, term) || term == w.word
    decreases |es|
  {
    if es == [] {
      assert MapSet(es, w)[0] == w;
    } else {
      HasTermCons(es, term);
      HasTermCons(MapSet(es, w), term);
      var r := es[1..];
      if es[0].word == w.word {
        assert MapSet(es, w)[1..] == r;
      } else {
        assert MapSet(es, w)[1..] == MapSet(r, w);
        MapSetTerms(r, w, term);
      }
    }
  }

  /** `set` keeps the keys distinct, maps `w.word` to `w` and leaves every other key as it was. */
  lemma {:induction false} MapSetUpdates(es: seq<Word>, w: Word)
    requires DistinctTerms(es)
    ensures DistinctTerms(MapSet(es, w))
    ensures AsMap(MapSet(es, w)) == AsMap(es)[w.word := w]
    decreases |es|
  {
    if es != [] {
      DistinctCons(es);
      var r := es[1..];
      var s := MapSet(es, w);
      DistinctCons(s);
      if es[0].word == w.word {
        assert s[1..] == r;
      } else {
        assert s[1..] == MapSet(r, w);
        MapSetUpdates(r, w);
        MapSetTerms(r, w, es[0].word);
      }
    }
  }

  /** `map.delete(term)`: drops the entry with that key and keeps the rest in order. */
  function MapDelete(es: seq<Word>, term: string): seq<Word> {
    if es == [] then []
    else if es[0].word == term then MapDelete(es[1..], term)
    else [es[0]] + MapDelete(es[1..], term)
  }

  /** After `delete`, the keys are the old keys other than `term`. */
  lemma {:induction false} MapDeleteTerms(es: seq<Word>, term: string, t: string)
    ensures HasTerm(MapDelete(es, term), t) <==> HasTerm(es, t) && t != term
    decreases |es|
  {
    if es != [] {
      HasTermCons(es, t);
      var r := es[1..];
      MapDeleteTerms(r, term, t);
      if es[0].word != term {
        HasTermCons(MapDelete(es, term), t);
        assert MapDelete(es, term)[1..] == MapDelete(r, term);
      }
    }
  }

  /** `delete` keeps the keys distinct, removes `term` and leaves every other key as it was. */
  lemma {:induction false} MapDeleteRemoves(es: seq<Word>, term: string)
    requires DistinctTerms(es)
    ensures DistinctTerms(MapDelete(es, term))
    ensures AsMap(MapDelete(es, term)) == AsMap(es) - {term}
    decreases |es|
  {
    if es != [] {
      DistinctCons(es);
      var r := es[1..];
      MapDeleteRemoves(r, term);
      if es[0].word == term {
        AsMapKeys(r, term);
        assert AsMap(r) - {term} == AsMap(r);
      } else {
        var d := MapDelete(es, term);
        assert d[1..] == MapDelete(r, term);
        DistinctCons(d);
        MapDeleteTerms(r, term, es[0].word);
      }
    }
  }

  /** Deleting a key that is absent changes nothing. */
  lemma {:induction false} MapDeleteAbsent(es: seq<Word>, term: string)
    requires !HasTerm(es, term)
    ensures MapDelete(es, term) == es
    decreases |es|
  {
    if es != [] {
      HasTermCons(es, term);
      MapDeleteAbsent(es[1..], term);
    }
  }

  /** `clear()` and then `set` for every word of `ws` in order, starting from `acc`. */
  function SetAll(acc: seq<Word>, ws: seq<Word>): seq<Word> {
    if ws == [] then acc else MapSet(SetAll(acc, ws[..|ws| - 1]), ws[|ws| - 1])
  }

  /** Each term mapped to the last word in `ws` that carries it. */
  function LastWins(ws: seq<Word>): map<string, Word> {
    if ws == [] then map[] else LastWins(ws[..|ws| - 1])[ws[|ws| - 1].word := ws[|ws| - 1]]
  }

  /** Setting the words one after another from an empty map gives the map in which the last duplicate wins. */
  lemma {:induction false} SetAllIsLastWins(ws: seq<Word>)
    ensures DistinctTerms(SetAll([], ws))
    ensures AsMap(SetAll([], ws)) == LastWins(ws)
    decreases |ws|
  {
    if ws != [] {
      SetAllIsLastWins(ws[..|ws| - 1]);
      MapSetUpdates(SetAll([], ws[..|ws| - 1]), ws[|ws| - 1]);
    }
  }

  /** A word that no later word shares its term with is the one its term maps to. */
  lemma {:induction false} LastWinsPicksLast(ws: seq<Word>, i: nat)
    requires i < |ws| && forall j :: i < j < |ws| ==> ws[j].word != ws[i].word
    ensures ws[i].word in LastWins(ws) && LastWins(ws)[ws[i].word] == ws[i]
    decreases |ws|
  {
    if i < |ws| - 1 {
      var init := ws[..|ws| - 1];
      assert init[i] == ws[i];
      LastWinsPicksLast(init, i);
    }
  }

  /** The terms mapped are exactly the terms of the words. */
  lemma {:induction false} LastWinsKeys(ws: seq<Word>, term: string)
    ensures term in LastWins(ws) <==> HasTerm(ws, term)
    decreases |ws|
  {
    if ws != [] {
      var init := ws[..|ws| - 1];
      LastWinsKeys(init, term);
      if HasTerm(ws, term) && ws[|ws| - 1].word != term {
        var i :| 0 <= i < |ws| && ws[i].word == term;
        assert init[i] == ws[i];
      }
      if HasTerm(init, term) {
        var i :| 0 <= i < |init| && init[i].word == term;
        assert ws[i] == init[i];
      }
    }
  }

  /** Setting words with distinct terms from an empty map keeps them all, in order. */
  lemma {:induction false} SetAllDistinct(ws: seq<Word>)
    requires DistinctTerms(ws)
    ensures SetAll([], ws) == ws
    decreases |ws|
  {
    if ws != [] {
      var init, last := ws[..|ws| - 1], ws[|ws| - 1];
      assert DistinctTerms(init) by {
        forall i, j | 0 <= i < j < |init| ensures init[i].word != init[j].word {
          assert init[i] == ws[i] && init[j] == ws[j];
        }
      }
      SetAllDistinct(init);
      forall i | 0 <= i < |init| ensures init[i].word != last.word {
        assert init[i] == ws[i];
      }
      MapSetAppends(init, last);
      assert init + [last] == ws;
    }
  }
}
