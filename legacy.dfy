/** The first version of the filter, src/wordle_cheater/wordle_cheater.py:
    black letters form one flat list, hard mode checks membership only, and
    there are no letter counts. The word dictionary is a parameter. */
module Legacy {
  import opened Wrappers
  import opened Cheater

  /** `get_words`: the five-letter words of the dictionary. */
  function GetWords(allWords: set<string>): (r: set<string>)
    ensures r <= allWords
    ensures forall w :: w in allWords ==> (w in r <==> |w| == 5)
  {
    set w | w in allWords && |w| == 5
  }

  /** How the per-position loop compares a letter with the yellow list of its
      position. As written the test is `yellows[i] == char`: a list compared
      with a one-character string, which Python never finds equal. The
      evidently intended test is membership. */
  predicate YellowHit(yellowsHere: seq<char>, c: char, intended: bool) {
    if intended then c in yellowsHere else false
  }

  /** The body of the per-position loop: reject a letter in the flat black
      list, a yellow hit, or a letter other than the green one here. */
  predicate PositionOk(word: string, i: nat, blacks: seq<char>, yellows: seq<seq<char>>,
                       greens: seq<Option<char>>, intended: bool)
    requires i < |word| <= 5 && |yellows| == 5 && |greens| == 5
  {
    var c := word[i];
    && c !in blacks
    && !YellowHit(yellows[i], c, intended)
    && !(greens[i].Some? && greens[i].value != c)
  }

  /** The per-position loop from position `i` on, returning at the first failure. */
  function PositionsFrom(word: string, i: nat, blacks: seq<char>, yellows: seq<seq<char>>,
                         greens: seq<Option<char>>, intended: bool): (ok: bool)
    requires i <= |word| <= 5 && |yellows| == 5 && |greens| == 5
    ensures ok <==> forall j :: i <= j < |word| ==> PositionOk(word, j, blacks, yellows, greens, intended)
    decreases |word| - i
  {
    if i == |word| then true
    else if !PositionOk(word, i, blacks, yellows, greens, intended) then false
    else PositionsFrom(word, i + 1, blacks, yellows, greens, intended)
  }

  /** The hard-mode loop: every known letter occurs somewhere in the word. */
  function AllIn(known: seq<char>, word: string): (ok: bool)
    ensures ok <==> forall c :: c in known ==> c in word
  {
    if known == [] then true
    else if known[0] !in word then false
    else AllIn(known[1..], word)
  }

  /** `check_word` with the yellow comparison chosen by `intended`. */
  function Check(word: string, blacks: Option<seq<char>>, yellows: Option<seq<seq<char>>>,
                 greens: Option<seq<Option<char>>>, hard: bool, checkDict: bool,
                 allWords: set<string>, intended: bool): (valid: bool)
    requires |word| <= 5
    requires yellows.Some? ==> |yellows.value| == 5
    requires greens.Some? ==> |greens.value| == 5
    ensures var ys := yellows.GetOr(NoLetters);
            var gs := greens.GetOr(NoGreens);
      valid <==>
        && (hard ==> forall c :: c in Flatten(ys) + Placed(gs) ==> c in word)
        && (forall i :: 0 <= i < |word| ==> PositionOk(word, i, blacks.GetOr([]), ys, gs, intended))
        && (checkDict ==> word in allWords && |word| == 5)
  {
    var blacks := blacks.GetOr([]);
    var yellows := yellows.GetOr(NoLetters);
    var greens := greens.GetOr(NoGreens);
    if hard && !AllIn(Flatten(yellows) + Placed(greens), word) then false
    else if !PositionsFrom(word, 0, blacks, yellows, greens, intended) then false
    else if checkDict && word !in GetWords(allWords) then false
    else true
  }

  /** `check_word` as written: in hard mode every yellow and green letter
      occurs somewhere in the word; no letter of the word is in the flat black
      list; each green letter is at its position; and, when the dictionary is
      checked, the word is a five-letter dictionary word. The yellow lists play
      no part outside hard mode. */
  function CheckWord(word: string, blacks: Option<seq<char>>, yellows: Option<seq<seq<char>>>,
                     greens: Option<seq<Option<char>>>, hard: bool, checkDict: bool,
                     allWords: set<string>): (valid: bool)
    requires |word| <= 5
    requires yellows.Some? ==> |yellows.value| == 5
    requires greens.Some? ==> |greens.value| == 5
    ensures valid <==>
      && (hard ==> KnownIn(yellows.GetOr(NoLetters), greens.GetOr(NoGreens), word))
      && NoBlackLetter(word, blacks.GetOr([]))
      && GreensInPlace(word, greens.GetOr(NoGreens))
      && (checkDict ==> word in allWords && |word| == 5)
  {
    CheckMeaning(word, blacks, yellows, greens, hard, checkDict, allWords, false);
    Check(word, blacks, yellows, greens, hard, checkDict, allWords, false)
  }

  /** `check_word` with the yellow test it evidently intends: the conditions
      of the version as written, and no letter where it was yellow. */
  function CheckWordIntended(word: string, blacks: Option<seq<char>>, yellows: Option<seq<seq<char>>>,
                             greens: Option<seq<Option<char>>>, hard: bool, checkDict: bool,
                             allWords: set<string>): (valid: bool)
    requires |word| <= 5
    requires yellows.Some? ==> |yellows.value| == 5
    requires greens.Some? ==> |greens.value| == 5
    ensures valid <==>
      && (hard ==> KnownIn(yellows.GetOr(NoLetters), greens.GetOr(NoGreens), word))
      && NoBlackLetter(word, blacks.GetOr([]))
      && NoLetterWhereYellow(word, yellows.GetOr(NoLetters))
      && GreensInPlace(word, greens.GetOr(NoGreens))
      && (checkDict ==> word in allWords && |word| == 5)
  {
    CheckMeaning(word, blacks, yellows, greens, hard, checkDict, allWords, true);
    Check(word, blacks, yellows, greens, hard, checkDict, allWords, true)
  }

  /** Every yellow letter and every green letter occurs somewhere in the word. */
  predicate KnownIn(ys: seq<seq<char>>, gs: seq<Option<char>>, word: string)
    requires |ys| == 5 && |gs| == 5
  {
    && (forall i, c :: 0 <= i < 5 && c in ys[i] ==> c in word)
    && (forall i :: 0 <= i < 5 && gs[i].Some? ==> gs[i].value in word)
  }

  /** No letter of the word is in the black list. */
  predicate NoBlackLetter(word: string, bs: seq<char>) {
    forall i :: 0 <= i < |word| ==> word[i] !in bs
  }

  /** No letter of the word is at a position where it was yellow. */
  predicate NoLetterWhereYellow(word: string, ys: seq<seq<char>>)
    requires |word| <= 5 && |ys| == 5
  {
    forall i :: 0 <= i < |word| ==> word[i] !in ys[i]
  }

  /** Each green letter is at its position. */
  predicate GreensInPlace(word: string, gs: seq<Option<char>>)
    requires |word| <= 5 && |gs| == 5
  {
    forall i :: 0 <= i < |word| ==> gs[i].None? || gs[i] == Some(word[i])
  }

  /** The loops of `check_word` in plain terms, for either yellow test: in
      hard mode every yellow and green letter occurs in the word; no letter of
      it is in the black list; with the intended yellow test, no letter is
      where it was yellow; each green letter is at its position; and, when
      the dictionary is checked, the word is a five-letter dictionary word. */
  lemma CheckMeaning(word: string, blacks: Option<seq<char>>, yellows: Option<seq<seq<char>>>,
                     greens: Option<seq<Option<char>>>, hard: bool, checkDict: bool,
                     allWords: set<string>, intended: bool)
    requires |word| <= 5
    requires yellows.Some? ==> |yellows.value| == 5
    requires greens.Some? ==> |greens.value| == 5
    ensures var ys := yellows.GetOr(NoLetters);
            var gs := greens.GetOr(NoGreens);
      Check(word, blacks, yellows, greens, hard, checkDict, allWords, intended) <==>
        && (hard ==> KnownIn(ys, gs, word))
        && NoBlackLetter(word, blacks.GetOr([]))
        && (intended ==> NoLetterWhereYellow(word, ys))
        && GreensInPlace(word, gs)
        && (checkDict ==> word in allWords && |word| == 5)
  {
    var ys := yellows.GetOr(NoLetters);
    var gs := greens.GetOr(NoGreens);
    var bs := blacks.GetOr([]);
    PositionsPlain(word, bs, ys, gs, intended);
    KnownLettersInWord(ys, gs, word);
  }

  /** The per-position loop checks the black list, the green slot and, with
      the intended test only, the yellow list of the position. */
  lemma PositionsPlain(word: string, bs: seq<char>, ys: seq<seq<char>>, gs: seq<Option<char>>, intended: bool)
    requires |word| <= 5 && |ys| == 5 && |gs| == 5
    ensures (forall i :: 0 <= i < |word| ==> PositionOk(word, i, bs, ys, gs, intended)) <==>
      NoBlackLetter(word, bs) && GreensInPlace(word, gs) && (intended ==> NoLetterWhereYellow(word, ys))
  {
    forall i | 0 <= i < |word|
      ensures PositionOk(word, i, bs, ys, gs, intended) <==>
        word[i] !in bs && (gs[i].None? || gs[i] == Some(word[i])) && (intended ==> word[i] !in ys[i])
    {
    }
  }

  /** Every known letter is in the word exactly when every yellow letter and
      every green letter is. */
  lemma KnownLettersInWord(ys: seq<seq<char>>, gs: seq<Option<char>>, word: string)
    requires |ys| == 5 && |gs| == 5
    ensures (forall c :: c in Flatten(ys) + Placed(gs) ==> c in word) <==> KnownIn(ys, gs, word)
  {
    if forall c :: c in Flatten(ys) + Placed(gs) ==> c in word {
      forall i, c | 0 <= i < 5 && c in ys[i] ensures c in word {
        assert c in Flatten(ys);
      }
      forall i | 0 <= i < 5 && gs[i].Some? ensures gs[i].value in word {
        assert Some(gs[i].value) in gs;
      }
    }
  }

  /** Outside hard mode the yellow lists do not change the verdict. */
  lemma YellowsIgnoredWhenSoft(word: string, blacks: Option<seq<char>>, yellows1: Option<seq<seq<char>>>,
                               yellows2: Option<seq<seq<char>>>, greens: Option<seq<Option<char>>>,
                               checkDict: bool, allWords: set<string>)
    requires |word| <= 5
    requires yellows1.Some? ==> |yellows1.value| == 5
    requires yellows2.Some? ==> |yellows2.value| == 5
    requires greens.Some? ==> |greens.value| == 5
    ensures CheckWord(word, blacks, yellows1, greens, false, checkDict, allWords)
         == CheckWord(word, blacks, yellows2, greens, false, checkDict, allWords)
  {
  }

  /** With every argument left to its default and no dictionary check, every
      word of at most five letters is accepted. */
  lemma DefaultsAcceptEverything(word: string, hard: bool, allWords: set<string>)
    requires |word| <= 5
    ensures CheckWord(word, None, None, None, hard, false, allWords)
  {
    assert forall i :: 0 <= i < 5 ==> NoLetters[i] == [] && NoGreens[i] == None;
  }

  /** Hard mode checks membership only: a letter known from two positions
      needs one occurrence. */
  lemma HardModeCountsNothing()
    ensures CheckWord("ember", None, Some([['e'], [], [], ['e'], []]), None, true, false, {})
  {
    assert "ember"[0] == 'e';
  }

  /** The discrepancy: a letter yellow at position 1 is accepted at position 1. */
  lemma MisplacedYellowAccepted()
    ensures "beets"[1] in [[], ['e'], [], [], []][1]
    ensures CheckWord("beets", None, Some([[], ['e'], [], [], []]), None, false, false, {})
  {
  }

  /** The intended filter refuses that word, and differs from the filter as
      written only by refusing letters placed where they were yellow. */
  lemma IntendedRefinesAsWritten(word: string, blacks: Option<seq<char>>, yellows: Option<seq<seq<char>>>,
                                 greens: Option<seq<Option<char>>>, hard: bool, checkDict: bool,
                                 allWords: set<string>)
    requires |word| <= 5
    requires yellows.Some? ==> |yellows.value| == 5
    requires greens.Some? ==> |greens.value| == 5
    ensures !CheckWordIntended("beets", None, Some([[], ['e'], [], [], []]), None, false, false, {})
    ensures CheckWordIntended(word, blacks, yellows, greens, hard, checkDict, allWords) <==>
      && CheckWord(word, blacks, yellows, greens, hard, checkDict, allWords)
      && forall i :: 0 <= i < |word| ==> word[i] !in yellows.GetOr(NoLetters)[i]
  {
    assert "beets"[1] == 'e';
  }
}
