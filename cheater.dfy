/** The word filter of src/wordle_cheater/cheater.py: `_flatten`, `check_word`
    and `find_words`. The word dictionary is a parameter instead of a module
    global. */
module Cheater {
  import opened Wrappers

  /** What earlier guesses tell: per position the letters coloured black and
      yellow there, the green letter there if any, and letter counts. */
  datatype Guesses = Guesses(
    blacks: seq<seq<char>>,
    yellows: seq<seq<char>>,
    greens: seq<Option<char>>,
    counts: map<char, int>)

  /** `check_word` asserts that each per-position list has five entries. */
  predicate Shaped(g: Guesses) {
    |g.blacks| == 5 && |g.yellows| == 5 && |g.greens| == 5
  }

  const NoLetters: seq<seq<char>> := [[], [], [], [], []]
  const NoGreens: seq<Option<char>> := [None, None, None, None, None]

  /** The keyword arguments of `check_word` after their `None` defaults are filled in. */
  function WithDefaults(
    blacks: Option<seq<seq<char>>>, yellows: Option<seq<seq<char>>>,
    greens: Option<seq<Option<char>>>, counts: Option<map<char, int>>): (g: Guesses)
    ensures blacks.Some? ==> g.blacks == blacks.value
    ensures yellows.Some? ==> g.yellows == yellows.value
    ensures greens.Some? ==> g.greens == greens.value
    ensures counts.Some? ==> g.counts == counts.value
    ensures blacks.None? ==> |g.blacks| == 5 && forall i :: 0 <= i < 5 ==> g.blacks[i] == []
    ensures yellows.None? ==> |g.yellows| == 5 && forall i :: 0 <= i < 5 ==> g.yellows[i] == []
    ensures greens.None? ==> |g.greens| == 5 && forall i :: 0 <= i < 5 ==> g.greens[i].None?
    ensures counts.None? ==> g.counts == map[]
    ensures Shaped(g) <==>
      (blacks.None? || |blacks.value| == 5) && (yellows.None? || |yellows.value| == 5)
      && (greens.None? || |greens.value| == 5)
  {
    Guesses(blacks.GetOr(NoLetters), yellows.GetOr(NoLetters), greens.GetOr(NoGreens), counts.GetOr(map[]))
  }

  /** `counts.get(c, default)`. */
  function Lookup(m: map<char, int>, c: char, default: int): int {
    if c in m then m[c] else default
  }

  /** `_flatten`: the sub-lists concatenated in order. */
  function Flatten(l: seq<seq<char>>): (r: seq<char>)
    ensures |l| == 0 ==> r == []
    ensures forall c :: c in r <==> exists i :: 0 <= i < |l| && c in l[i]
  {
    if l == [] then [] else l[0] + Flatten(l[1..])
  }

  /** The letters of the non-`None` greens, in order. */
  function Placed(greens: seq<Option<char>>): (r: seq<char>)
    ensures forall c :: c in r <==> Some(c) in greens
  {
    if greens == [] then []
    else (if greens[0].Some? then [greens[0].value] else []) + Placed(greens[1..])
  }

  /** `word.count(c)` for a one-character `c`. */
  function Count(word: string, c: char): (n: nat)
    ensures n <= |word|
    ensures n == 0 <==> c !in word
  {
    if word == [] then 0 else (if word[0] == c then 1 else 0) + Count(word[1..], c)
  }

  /** `known_letters` of the hard-mode check: the flattened yellows, then the greens. */
  function Known(g: Guesses): seq<char> {
    Flatten(g.yellows) + Placed(g.greens)
  }

  /** The hard-mode loop: every known letter occurs in the word, at least
      `counts.get(letter, 1)` times. */
  function HardModeOk(word: string, known: seq<char>, counts: map<char, int>): (ok: bool)
    ensures ok <==> forall c :: c in known ==> c in word && Count(word, c) >= Lookup(counts, c, 1)
  {
    if known == [] then true
    else if known[0] !in word then false
    else if Count(word, known[0]) < Lookup(counts, known[0], 1) then false
    else HardModeOk(word, known[1..], counts)
  }

  /** The body of the per-position loop for position `i`: a letter coloured
      black anywhere may occur at most `counts.get(letter, 0)` times; the letter
      must not be black or yellow at this position, and must be the green
      letter here when there is one. */
  predicate PositionOk(word: string, i: nat, g: Guesses, allBlacks: seq<char>)
    requires Shaped(g) && i < |word| <= 5
  {
    var c := word[i];
    && !(c in allBlacks && Count(word, c) > Lookup(g.counts, c, 0))
    && c !in g.blacks[i]
    && c !in g.yellows[i]
    && !(g.greens[i].Some? && g.greens[i].value != c)
  }

  /** The per-position loop from position `i` on, returning at the first failure. */
  function PositionsFrom(word: string, i: nat, g: Guesses, allBlacks: seq<char>): (ok: bool)
    requires Shaped(g) && i <= |word| <= 5
    ensures ok <==> forall j :: i <= j < |word| ==> PositionOk(word, j, g, allBlacks)
    decreases |word| - i
  {
    if i == |word| then true
    else if !PositionOk(word, i, g, allBlacks) then false
    else PositionsFrom(word, i + 1, g, allBlacks)
  }

  /** `check_word`: `word` is accepted exactly when hard mode (if asked for)
      finds every known letter often enough, every position is compatible, and
      (if asked for) the word is in the dictionary. A word longer than five
      letters would index past the five per-position lists. */
  function CheckWord(word: string, g: Guesses, hard: bool, checkDict: bool, wordleWords: set<string>)
    : (valid: bool)
    requires Shaped(g) && |word| <= 5
    ensures valid ==> hard ==> forall c :: c in Known(g) ==> c in word && Count(word, c) >= Lookup(g.counts, c, 1)
    ensures valid ==> forall i :: 0 <= i < |word| ==> PositionOk(word, i, g, Flatten(g.blacks))
    ensures valid ==> checkDict ==> word in wordleWords
    ensures (hard ==> forall c :: c in Known(g) ==> c in word && Count(word, c) >= Lookup(g.counts, c, 1))
            && (forall i :: 0 <= i < |word| ==> PositionOk(word, i, g, Flatten(g.blacks)))
            && (checkDict ==> word in wordleWords)
            ==> valid
  {
    if hard && !HardModeOk(word, Known(g), g.counts) then false
    else if !PositionsFrom(word, 0, g, Flatten(g.blacks)) then false
    else if checkDict && word !in wordleWords then false
    else true
  }

  /** With hard mode, each letter yellow at some position or green at some
      position occurs in an accepted word, `counts.get(letter, 1)` times or more. */
  lemma HardModeReusesKnownLetters(word: string, g: Guesses, checkDict: bool, wordleWords: set<string>)
    requires Shaped(g) && |word| <= 5
    requires CheckWord(word, g, true, checkDict, wordleWords)
    ensures forall i, c :: 0 <= i < 5 && c in g.yellows[i] ==> c in word && Count(word, c) >= Lookup(g.counts, c, 1)
    ensures forall i :: 0 <= i < 5 && g.greens[i].Some? ==>
      g.greens[i].value in word && Count(word, g.greens[i].value) >= Lookup(g.counts, g.greens[i].value, 1)
  {
    forall i, c | 0 <= i < 5 && c in g.yellows[i]
      ensures c in word && Count(word, c) >= Lookup(g.counts, c, 1)
    {
      assert c in Flatten(g.yellows);
      assert c in Known(g);
    }
    forall i | 0 <= i < 5 && g.greens[i].Some?
      ensures g.greens[i].value in word && Count(word, g.greens[i].value) >= Lookup(g.counts, g.greens[i].value, 1)
    {
      assert Some(g.greens[i].value) in g.greens;
      assert g.greens[i].value in Known(g);
    }
  }

  /** An accepted word avoids, at every position, the letters black or yellow
      there, and has the green letter where there is one. */
  lemma AcceptedFitsPositions(word: string, g: Guesses, hard: bool, checkDict: bool, wordleWords: set<string>)
    requires Shaped(g) && |word| <= 5
    requires CheckWord(word, g, hard, checkDict, wordleWords)
    ensures forall i :: 0 <= i < |word| ==>
      word[i] !in g.blacks[i] && word[i] !in g.yellows[i] && (g.greens[i].None? || g.greens[i] == Some(word[i]))
  {
    forall i | 0 <= i < |word|
      ensures word[i] !in g.blacks[i] && word[i] !in g.yellows[i] && (g.greens[i].None? || g.greens[i] == Some(word[i]))
    {
      assert PositionOk(word, i, g, Flatten(g.blacks));
    }
  }

  /** A letter of an accepted word that is black at any position occurs in the
      word at most `counts.get(letter, 0)` times. */
  lemma AcceptedRespectsBlackCounts(word: string, g: Guesses, hard: bool, checkDict: bool, wordleWords: set<string>)
    requires Shaped(g) && |word| <= 5
    requires CheckWord(word, g, hard, checkDict, wordleWords)
    ensures forall i, c :: 0 <= i < 5 && c in g.blacks[i] && c in word ==> Count(word, c) <= Lookup(g.counts, c, 0)
  {
    forall i, c | 0 <= i < 5 && c in g.blacks[i] && c in word
      ensures Count(word, c) <= Lookup(g.counts, c, 0)
    {
      assert c in Flatten(g.blacks);
      var j :| 0 <= j < |word| && word[j] == c;
      assert PositionOk(word, j, g, Flatten(g.blacks));
    }
  }

  /** Each yellow letter and each green letter occurs in the word, at least
      `counts.get(letter, 1)` times. */
  predicate KnownLettersPresent(word: string, g: Guesses)
    requires Shaped(g)
  {
    && (forall i, c :: 0 <= i < 5 && c in g.yellows[i] ==> c in word && Count(word, c) >= Lookup(g.counts, c, 1))
    && (forall i :: 0 <= i < 5 && g.greens[i].Some? ==>
          g.greens[i].value in word && Count(word, g.greens[i].value) >= Lookup(g.counts, g.greens[i].value, 1))
  }

  /** At each position the letter is neither black nor yellow there, and is the green letter if there is one. */
  predicate SlotsRespected(word: string, g: Guesses)
    requires Shaped(g) && |word| <= 5
  {
    forall i :: 0 <= i < |word| ==>
      word[i] !in g.blacks[i] && word[i] !in g.yellows[i] && (g.greens[i].None? || g.greens[i] == Some(word[i]))
  }

  /** A letter black at any position occurs at most `counts.get(letter, 0)` times. */
  predicate BlackCountsRespected(word: string, g: Guesses)
    requires Shaped(g)
  {
    forall i, c :: 0 <= i < 5 && c in g.blacks[i] && c in word ==> Count(word, c) <= Lookup(g.counts, c, 0)
  }

  /** `check_word` in plain terms: a word is accepted exactly when it holds
      every known letter often enough (in hard mode), respects every slot,
      respects the black-letter counts, and is in the dictionary when that is
      checked. */
  lemma HardModeMeaning(word: string, g: Guesses, hard: bool, checkDict: bool, wordleWords: set<string>)
    requires Shaped(g) && |word| <= 5
    ensures CheckWord(word, g, hard, checkDict, wordleWords) <==>
      && (hard ==> KnownLettersPresent(word, g))
      && SlotsRespected(word, g)
      && BlackCountsRespected(word, g)
      && (checkDict ==> word in wordleWords)
  {
    if CheckWord(word, g, hard, checkDict, wordleWords) {
      if hard {
        HardModeReusesKnownLetters(word, g, checkDict, wordleWords);
      }
      AcceptedFitsPositions(word, g, hard, checkDict, wordleWords);
      AcceptedRespectsBlackCounts(word, g, hard, checkDict, wordleWords);
    }
    if (hard ==> KnownLettersPresent(word, g)) && SlotsRespected(word, g) && BlackCountsRespected(word, g) {
      if hard {
        KnownSuffice(word, g);
      }
      PositionsSuffice(word, g);
    }
  }

  lemma KnownSuffice(word: string, g: Guesses)
    requires Shaped(g) && KnownLettersPresent(word, g)
    ensures forall c :: c in Known(g) ==> c in word && Count(word, c) >= Lookup(g.counts, c, 1)
  {
    forall c | c in Known(g) ensures c in word && Count(word, c) >= Lookup(g.counts, c, 1) {
      assert c in Flatten(g.yellows) || c in Placed(g.greens);
      if c in Flatten(g.yellows) {
        var i :| 0 <= i < |g.yellows| && c in g.yellows[i];
      } else {
        assert Some(c) in g.greens;
        var i :| 0 <= i < |g.greens| && g.greens[i] == Some(c);
        assert g.greens[i].value == c;
      }
    }
  }

  lemma PositionsSuffice(word: string, g: Guesses)
    requires Shaped(g) && |word| <= 5
    requires SlotsRespected(word, g) && BlackCountsRespected(word, g)
    ensures forall i :: 0 <= i < |word| ==> PositionOk(word, i, g, Flatten(g.blacks))
  {
    forall i | 0 <= i < |word| ensures PositionOk(word, i, g, Flatten(g.blacks)) {
      if word[i] in Flatten(g.blacks) {
        var j :| 0 <= j < |g.blacks| && word[i] in g.blacks[j];
        assert word[i] in word;
      }
    }
  }

  /** Hard mode only adds conditions. */
  lemma HardImpliesSoft(word: string, g: Guesses, checkDict: bool, wordleWords: set<string>)
    requires Shaped(g) && |word| <= 5
    ensures CheckWord(word, g, true, checkDict, wordleWords) ==> CheckWord(word, g, false, checkDict, wordleWords)
  {
  }

  /** The dictionary check is one more conjunct and nothing else. */
  lemma DictionaryIsConjunct(word: string, g: Guesses, hard: bool, wordleWords: set<string>)
    requires Shaped(g) && |word| <= 5
    ensures CheckWord(word, g, hard, true, wordleWords)
        == (CheckWord(word, g, hard, false, wordleWords) && word in wordleWords)
  {
  }

  /** With every argument left at its `None` default and no dictionary check,
      every word of at most five letters is accepted, in hard mode too. */
  lemma NoGuessesAcceptEverything(word: string, hard: bool, wordleWords: set<string>)
    requires |word| <= 5
    ensures Shaped(WithDefaults(None, None, None, None))
    ensures CheckWord(word, WithDefaults(None, None, None, None), hard, false, wordleWords)
  {
    var g := WithDefaults(None, None, None, None);
    assert Flatten(g.yellows) == [] by {
      assert Flatten(g.yellows) == [] + Flatten(g.yellows[1..]);
      assert g.yellows[1..] == [[], [], [], []];
    }
    assert Known(g) == [];
    assert Flatten(g.blacks) == [];
    forall i | 0 <= i < |word| ensures PositionOk(word, i, g, Flatten(g.blacks)) { }
  }

  /** The dictionary as a set: the words enumerated. */
  function Members(words: seq<string>): set<string> {
    set w | w in words
  }

  /** The words of `words`, in order, that `check_word` accepts in hard mode
      with the dictionary check against `dict`. */
  function Filter(words: seq<string>, g: Guesses, dict: set<string>): (r: seq<string>)
    requires Shaped(g)
    requires forall w :: w in words ==> |w| <= 5
  {
    if words == [] then []
    else
      var last := words[|words| - 1];
      Filter(words[..|words| - 1], g, dict) + (if CheckWord(last, g, true, true, dict) then [last] else [])
  }

  /** `find_words`: scan the dictionary in its iteration order and keep the
      words `check_word` accepts in hard mode with the dictionary check. */
  method FindWords(g: Guesses, wordleWords: seq<string>) returns (possibleWords: seq<string>)
    requires Shaped(g)
    requires forall w :: w in wordleWords ==> |w| <= 5
    ensures possibleWords == Filter(wordleWords, g, Members(wordleWords))
  {
    possibleWords := [];
    for k := 0 to |wordleWords|
      invariant possibleWords == Filter(wordleWords[..k], g, Members(wordleWords))
    {
      var word := wordleWords[k];
      assert wordleWords[..k + 1][..k] == wordleWords[..k];
      if CheckWord(word, g, true, true, Members(wordleWords)) {
        possibleWords := possibleWords + [word];
      }
    }
    assert wordleWords[..|wordleWords|] == wordleWords;
  }

  /** A word is in the filtered list exactly when it is enumerated by the
      dictionary and `check_word` accepts it in hard mode, with or without the
      dictionary check (every enumerated word passes that check). */
  lemma {:induction false} FilterMembers(words: seq<string>, g: Guesses, all: seq<string>)
    requires Shaped(g)
    requires forall w :: w in all ==> |w| <= 5
    requires forall w :: w in words ==> w in all
    ensures forall w :: w in Filter(words, g, Members(all)) <==>
      w in words && CheckWord(w, g, true, false, {})
  {
    if words != [] {
      var init := words[..|words| - 1];
      var last := words[|words| - 1];
      assert forall w :: w in words <==> w in init || w == last;
      FilterMembers(init, g, all);
      assert last in Members(all);
    }
  }

  predicate Distinct(s: seq<string>) {
    forall i, j :: 0 <= i < j < |s| ==> s[i] != s[j]
  }

  /** No word appears twice in the result when the dictionary enumerates each
      word once, as iterating over a set does. */
  lemma {:induction false} FilterNoDuplicates(words: seq<string>, g: Guesses, dict: set<string>)
    requires Shaped(g)
    requires forall w :: w in words ==> |w| <= 5
    requires Distinct(words)
    ensures Distinct(Filter(words, g, dict))
  {
    if words != [] {
      var init := words[..|words| - 1];
      var last := words[|words| - 1];
      FilterNoDuplicates(init, g, dict);
      FilterSubset(init, g, dict);
      assert last !in init by {
        forall i | 0 <= i < |init| ensures init[i] != last {
          assert words[i] != words[|words| - 1];
        }
      }
      var r0 := Filter(init, g, dict);
      var r := Filter(words, g, dict);
      assert r == r0 + (if CheckWord(last, g, true, true, dict) then [last] else []);
      forall i, j | 0 <= i < j < |r| ensures r[i] != r[j] {
        if j >= |r0| {
          assert r[j] == last && r[i] == r0[i];
          assert r0[i] in r0;
          assert r0[i] in init;
        } else {
          assert r[i] == r0[i] && r[j] == r0[j];
          assert r0[i] != r0[j];
        }
      }
    }
  }

  lemma {:induction false} FilterSubset(words: seq<string>, g: Guesses, dict: set<string>)
    requires Shaped(g)
    requires forall w :: w in words ==> |w| <= 5
    ensures forall w :: w in Filter(words, g, dict) ==> w in words
  {
    if words != [] {
      FilterSubset(words[..|words| - 1], g, dict);
    }
  }
}
