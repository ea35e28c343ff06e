/** Concrete cases from the repository's tests (tests/test_check_word.py,
    tests/test_cheater.py, tests/test_parse_wordle_letters.py), stated on the
    model. The parser cases give black letters an index, as the constructor
    requires. */
module Examples {
  import opened Wrappers
  import opened Letters
  import opened Cheater
  import opened Parser
  import opened ParserProperties

  /** What the guesses 'beats' and 'oiled' tell when the answer is 'elder'. */
  const Elder: Guesses := Guesses(
    [['b', 'o'], ['i'], ['a'], ['t'], ['s']],
    [[], ['e'], ['l'], [], ['d']],
    [None, None, None, Some('e'), None],
    map[])

  /** A word with 'e' at index 3, 'l' and 'd' elsewhere than where they
      were yellow, 'e' not at index 1, and no letter of 'beats' or 'oiled'
      that was black, is accepted in hard mode (when it is in the dictionary,
      if that is checked). */
  lemma ElderFits(w: string, checkDict: bool, dict: set<string>)
    requires |w| == 5 && 'l' in w && 'd' in w && w[3] == 'e'
    requires w[1] != 'e' && w[2] != 'l' && w[4] != 'd'
    requires forall j :: 0 <= j < 5 ==> w[j] !in ['b', 'o', 'i', 'a', 't', 's']
    requires checkDict ==> w in dict
    ensures CheckWord(w, Elder, true, checkDict, dict)
  {
    HardModeMeaning(w, Elder, true, checkDict, dict);
    ElderKnown(w);
    ElderSlots(w);
    ElderBlacks(w);
  }

  lemma ElderKnown(w: string)
    requires |w| == 5 && 'l' in w && 'd' in w && w[3] == 'e'
    ensures KnownLettersPresent(w, Elder)
  {
    var g := Elder;
    assert 'e' in w;
    forall i, c | 0 <= i < 5 && c in g.yellows[i] ensures c in w && Count(w, c) >= Lookup(g.counts, c, 1) {
      ElderYellow(i, c);
    }
    forall i | 0 <= i < 5 && g.greens[i].Some?
      ensures g.greens[i].value in w && Count(w, g.greens[i].value) >= Lookup(g.counts, g.greens[i].value, 1)
    {
      ElderGreen(i);
    }
  }

  lemma ElderSlots(w: string)
    requires |w| == 5 && w[3] == 'e'
    requires w[1] != 'e' && w[2] != 'l' && w[4] != 'd'
    requires forall j :: 0 <= j < 5 ==> w[j] !in ['b', 'o', 'i', 'a', 't', 's']
    ensures SlotsRespected(w, Elder)
  {
    forall i | 0 <= i < 5
      ensures w[i] !in Elder.blacks[i] && w[i] !in Elder.yellows[i] && (Elder.greens[i].None? || Elder.greens[i] == Some(w[i]))
    {
      ElderSlot(w, i);
    }
  }

  lemma ElderBlacks(w: string)
    requires |w| == 5
    requires forall j :: 0 <= j < 5 ==> w[j] !in ['b', 'o', 'i', 'a', 't', 's']
    ensures BlackCountsRespected(w, Elder)
  {
    forall i, c | 0 <= i < 5 && c in Elder.blacks[i] && c in w ensures false {
      ElderBlack(i, c);
    }
  }

  lemma ElderYellow(i: nat, c: char)
    requires i < 5
    ensures c in Elder.yellows[i] ==> c == 'e' || c == 'l' || c == 'd'
  {
    if i == 0 {
      assert Elder.yellows[0] == [];
    } else if i == 1 {
      assert Elder.yellows[1] == ['e'];
    } else if i == 2 {
      assert Elder.yellows[2] == ['l'];
    } else if i == 3 {
      assert Elder.yellows[3] == [];
    } else {
      assert Elder.yellows[4] == ['d'];
    }
  }

  lemma ElderGreen(i: nat)
    requires i < 5
    ensures Elder.greens[i] == if i == 3 then Some('e') else None
  {
  }

  lemma ElderBlack(i: nat, c: char)
    requires i < 5
    ensures c in Elder.blacks[i] ==> c in ['b', 'o', 'i', 'a', 't', 's']
  {
    if i == 0 {
      assert Elder.blacks[0] == ['b', 'o'];
    } else if i == 1 {
      assert Elder.blacks[1] == ['i'];
    } else if i == 2 {
      assert Elder.blacks[2] == ['a'];
    } else if i == 3 {
      assert Elder.blacks[3] == ['t'];
    } else {
      assert Elder.blacks[4] == ['s'];
    }
  }

  /** One slot of such a word. */
  lemma ElderSlot(w: string, i: nat)
    requires |w| == 5 && w[3] == 'e' && i < 5
    requires w[1] != 'e' && w[2] != 'l' && w[4] != 'd'
    requires forall j :: 0 <= j < 5 ==> w[j] !in ['b', 'o', 'i', 'a', 't', 's']
    ensures w[i] !in Elder.blacks[i] && w[i] !in Elder.yellows[i]
    ensures Elder.greens[i].None? || Elder.greens[i] == Some(w[i])
  {
    assert w[i] !in ['b', 'o', 'i', 'a', 't', 's'];
    if i == 0 {
      assert Elder.blacks[0] == ['b', 'o'] && Elder.yellows[0] == [] && Elder.greens[0] == None;
    } else if i == 1 {
      assert Elder.blacks[1] == ['i'] && Elder.yellows[1] == ['e'] && Elder.greens[1] == None;
    } else if i == 2 {
      assert Elder.blacks[2] == ['a'] && Elder.yellows[2] == ['l'] && Elder.greens[2] == None;
    } else if i == 3 {
      assert Elder.blacks[3] == ['t'] && Elder.yellows[3] == [] && Elder.greens[3] == Some('e');
    } else {
      assert Elder.blacks[4] == ['s'] && Elder.yellows[4] == ['d'] && Elder.greens[4] == None;
    }
  }

  /** 'elder' is accepted when it is in the dictionary. */
  lemma ElderAccepted()
    ensures CheckWord("elder", Elder, true, true, {"elder"})
  {
    var w := "elder";
    assert w[0] == 'e' && w[1] == 'l' && w[2] == 'd' && w[3] == 'e' && w[4] == 'r';
    ElderFits(w, true, {"elder"});
  }

  /** A word with 'a' at index 2, where 'a' was black, or with 'l' there,
      where 'l' was yellow, is refused. */
  lemma MarkedAtTwoRejected(w: string, hard: bool, checkDict: bool, dict: set<string>)
    requires 3 <= |w| <= 5 && (w[2] == 'a' || w[2] == 'l')
    ensures !CheckWord(w, Elder, hard, checkDict, dict)
  {
    if CheckWord(w, Elder, hard, checkDict, dict) {
      AcceptedFitsPositions(w, Elder, hard, checkDict, dict);
    }
  }

  /** 'craft', with the black 'a' at index 2, is refused. */
  lemma CraftRejected()
    ensures !CheckWord("craft", Elder, true, false, {})
  {
    MarkedAtTwoRejected("craft", true, false, {});
  }

  /** 'ruled', with the yellow 'l' at index 2, is refused. */
  lemma RuledRejected()
    ensures !CheckWord("ruled", Elder, true, false, {})
  {
    MarkedAtTwoRejected("ruled", true, false, {});
  }

  /** A word without the green 'e' at index 3 is refused. */
  lemma GreenMissingRejected(w: string, hard: bool, checkDict: bool, dict: set<string>)
    requires 4 <= |w| <= 5 && w[3] != 'e'
    ensures !CheckWord(w, Elder, hard, checkDict, dict)
  {
    if CheckWord(w, Elder, hard, checkDict, dict) {
      AcceptedFitsPositions(w, Elder, hard, checkDict, dict);
    }
  }

  /** 'elude' is such a word. */
  lemma EludeRejected()
    ensures !CheckWord("elude", Elder, true, false, {})
  {
    GreenMissingRejected("elude", true, false, {});
  }

  /** In hard mode a word without the yellow 'd' is refused. */
  lemma YellowMissingRejected(w: string, checkDict: bool, dict: set<string>)
    requires |w| <= 5 && 'd' !in w
    ensures !CheckWord(w, Elder, true, checkDict, dict)
  {
    assert 'd' in Elder.yellows[4];
    if CheckWord(w, Elder, true, checkDict, dict) {
      HardModeReusesKnownLetters(w, Elder, checkDict, dict);
    }
  }

  /** 'cruel' is such a word. */
  lemma CruelRejected()
    ensures !CheckWord("cruel", Elder, true, false, {})
  {
    YellowMissingRejected("cruel", false, {});
  }

  /** 'ldzez' passes every letter rule. */
  lemma LdzezAccepted()
    ensures CheckWord("ldzez", Elder, true, false, {})
  {
    var w := "ldzez";
    assert w[0] == 'l' && w[1] == 'd' && w[2] == 'z' && w[3] == 'e' && w[4] == 'z';
    ElderFits(w, false, {});
  }

  /** Only the dictionary refuses 'ldzez'. */
  lemma LdzezNotInDictionary()
    ensures !CheckWord("ldzez", Elder, true, true, {"elder"})
  {
    DictionaryIsConjunct("ldzez", Elder, true, {"elder"});
  }

  /** What the guess 'array' tells when the answer is 'aroma'. */
  const ArrayVsAroma: Guesses := Guesses(
    [[], [], ['r'], [], ['y']],
    [[], [], [], ['a'], []],
    [Some('a'), Some('r'), None, None, None],
    map['a' := 2, 'r' := 1])

  /** `Count` on a five-letter word, position by position. */
  lemma CountFive(w: string, c: char)
    requires |w| == 5
    ensures Count(w, c) == (if w[0] == c then 1 else 0) + (if w[1] == c then 1 else 0) + (if w[2] == c then 1 else 0)
                         + (if w[3] == c then 1 else 0) + (if w[4] == c then 1 else 0)
  {
    var t1 := w[1..];
    var t2 := t1[1..];
    var t3 := t2[1..];
    var t4 := t3[1..];
    assert t4[1..] == [];
    assert Count(t4, c) == if w[4] == c then 1 else 0;
    assert Count(t3, c) == (if w[3] == c then 1 else 0) + Count(t4, c);
    assert Count(t2, c) == (if w[2] == c then 1 else 0) + Count(t3, c);
    assert Count(t1, c) == (if w[1] == c then 1 else 0) + Count(t2, c);
  }

  lemma AromaCounts()
    ensures Count("aroma", 'a') == 2 && Count("aroma", 'r') == 1
  {
    CountFive("aroma", 'a');
    CountFive("aroma", 'r');
  }

  lemma AromaSlot(i: nat)
    requires i < 5
    ensures var g := ArrayVsAroma; var w := "aroma";
      w[i] !in g.blacks[i] && w[i] !in g.yellows[i] && (g.greens[i].None? || g.greens[i] == Some(w[i]))
  {
    var g := ArrayVsAroma;
    var w := "aroma";
    if i == 0 {
      assert w[0] == 'a' && g.blacks[0] == [] && g.yellows[0] == [] && g.greens[0] == Some('a');
    } else if i == 1 {
      assert w[1] == 'r' && g.blacks[1] == [] && g.yellows[1] == [] && g.greens[1] == Some('r');
    } else if i == 2 {
      assert w[2] == 'o' && g.blacks[2] == ['r'] && g.yellows[2] == [] && g.greens[2] == None;
    } else if i == 3 {
      assert w[3] == 'm' && g.blacks[3] == [] && g.yellows[3] == ['a'] && g.greens[3] == None;
    } else {
      assert w[4] == 'a' && g.blacks[4] == ['y'] && g.yellows[4] == [] && g.greens[4] == None;
    }
  }

  lemma AromaYellow(i: nat, c: char)
    requires i < 5
    ensures c in ArrayVsAroma.yellows[i] ==> c == 'a'
  {
    if i == 3 {
      assert ArrayVsAroma.yellows[3] == ['a'];
    } else {
      assert ArrayVsAroma.yellows[i] == [];
    }
  }

  lemma AromaGreen(i: nat)
    requires i < 5
    ensures ArrayVsAroma.greens[i] == if i == 0 then Some('a') else if i == 1 then Some('r') else None
  {
  }

  lemma AromaBlack(i: nat, c: char)
    requires i < 5
    ensures c in ArrayVsAroma.blacks[i] ==> (c == 'r' && i == 2) || (c == 'y' && i == 4)
  {
    if i == 2 {
      assert ArrayVsAroma.blacks[2] == ['r'];
    } else if i == 4 {
      assert ArrayVsAroma.blacks[4] == ['y'];
    } else {
      assert ArrayVsAroma.blacks[i] == [];
    }
  }

  lemma AromaKnown()
    ensures KnownLettersPresent("aroma", ArrayVsAroma)
  {
    var g := ArrayVsAroma;
    var w := "aroma";
    AromaCounts();
    assert w[0] == 'a' && w[1] == 'r';
    forall i, c | 0 <= i < 5 && c in g.yellows[i] ensures c in w && Count(w, c) >= Lookup(g.counts, c, 1) {
      AromaYellow(i, c);
    }
    forall i | 0 <= i < 5 && g.greens[i].Some?
      ensures g.greens[i].value in w && Count(w, g.greens[i].value) >= Lookup(g.counts, g.greens[i].value, 1)
    {
      AromaGreen(i);
    }
  }

  lemma AromaSlots()
    ensures SlotsRespected("aroma", ArrayVsAroma)
  {
    forall i | 0 <= i < 5
      ensures var g := ArrayVsAroma; var w := "aroma";
        w[i] !in g.blacks[i] && w[i] !in g.yellows[i] && (g.greens[i].None? || g.greens[i] == Some(w[i]))
    {
      AromaSlot(i);
    }
  }

  lemma AromaBlacks()
    ensures BlackCountsRespected("aroma", ArrayVsAroma)
  {
    var g := ArrayVsAroma;
    var w := "aroma";
    AromaCounts();
    CountFive(w, 'y');
    forall i, c | 0 <= i < 5 && c in g.blacks[i] && c in w ensures Count(w, c) <= Lookup(g.counts, c, 0) {
      AromaBlack(i, c);
    }
  }

  /** After 'array' against 'aroma', the answer passes: two 'a's and one 'r' are needed. */
  lemma AromaAccepted()
    ensures CheckWord("aroma", ArrayVsAroma, true, false, {})
  {
    HardModeMeaning("aroma", ArrayVsAroma, true, false, {});
    AromaKnown();
    AromaSlots();
    AromaBlacks();
  }

  /** After 'array' against 'right', only one 'r' was coloured, so 'river' is refused. */
  lemma RiverRejected()
    ensures !CheckWord("river",
      Guesses([['a'], [], ['r'], ['a'], ['y']], [[], ['r'], [], [], []], NoGreens, map['r' := 1]),
      true, false, {})
  {
    var g := Guesses([['a'], [], ['r'], ['a'], ['y']], [[], ['r'], [], [], []], NoGreens, map['r' := 1]);
    var w := "river";
    HardModeMeaning(w, g, true, false, {});
    assert 'r' in g.blacks[2] && w[0] == 'r';
    RiverCount();
  }

  lemma RiverCount()
    ensures Count("river", 'r') == 2
  {
    CountFive("river", 'r');
  }

  /** After 'array' against 'corer', two 'r's are known, so 'strip' is refused in hard mode. */
  lemma StripRejected()
    ensures !CheckWord("strip",
      Guesses([['a'], [], [], ['a'], ['y']], [[], ['r'], [], [], []], [None, None, Some('r'), None, None],
              map['r' := 2]),
      true, false, {})
  {
    var g := Guesses([['a'], [], [], ['a'], ['y']], [[], ['r'], [], [], []], [None, None, Some('r'), None, None],
                     map['r' := 2]);
    var w := "strip";
    HardModeMeaning(w, g, true, false, {});
    assert 'r' in g.yellows[1];
    StripCount();
  }

  lemma StripCount()
    ensures Count("strip", 'r') == 1
  {
    CountFive("strip", 'r');
  }

  lemma WordsOfTwo(w1: seq<WordleLetter>, w2: seq<WordleLetter>)
    requires |w1| == 5 && |w2| == 5
    ensures Words(w1 + w2) == [w1, w2]
  {
    assert (w1 + w2)[0..5] == w1 && (w1 + w2)[5..10] == w2;
  }

  /** Parsing two words: the first is always committed, the second checked against it. */
  lemma ParseTwo(w1: seq<WordleLetter>, w2: seq<WordleLetter>)
    requires |w1| == 5 && |w2| == 5
    ensures var g1 := CommitWord(Fresh, w1);
      Parse(w1 + w2) == match WordConflict(g1, w2) case Some(e) => Err(e) case None => Ok(CommitWord(g1, w2))
  {
    WordsOfTwo(w1, w2);
    FirstWordNeverConflicts(w1);
    var g1 := CommitWord(Fresh, w1);
    var ws := [w1, w2];
    assert ws[1..] == [w2] && [w2][1..] == [];
    assert Fold(Fresh, ws) == Fold(g1, [w2]);
    if WordConflict(g1, w2).None? {
      assert Fold(CommitWord(g1, w2), []) == Ok(CommitWord(g1, w2));
    }
  }

  /** How often a five-letter word colours `c`, letter by letter. */
  lemma ColouredFive(w: seq<WordleLetter>, c: char)
    requires |w| == 5
    ensures Coloured(w, c) == Hit(w[0], c) + Hit(w[1], c) + Hit(w[2], c) + Hit(w[3], c) + Hit(w[4], c)
  {
    ColorCountFive(w, Yellow, c);
    ColorCountFive(w, Green, c);
  }

  lemma ColorCountFive(w: seq<WordleLetter>, color: Color, c: char)
    requires |w| == 5
    ensures ColorCount(w, color, c) == HitOf(w[0], color, c) + HitOf(w[1], color, c) + HitOf(w[2], color, c)
                                     + HitOf(w[3], color, c) + HitOf(w[4], color, c)
  {
    var t1 := w[1..];
    var t2 := t1[1..];
    var t3 := t2[1..];
    var t4 := t3[1..];
    assert t4[1..] == [];
    assert ColorCount(t4, color, c) == HitOf(w[4], color, c);
    assert ColorCount(t3, color, c) == HitOf(w[3], color, c) + ColorCount(t4, color, c);
    assert ColorCount(t2, color, c) == HitOf(w[2], color, c) + ColorCount(t3, color, c);
    assert ColorCount(t1, color, c) == HitOf(w[1], color, c) + ColorCount(t2, color, c);
  }

  function HitOf(wl: WordleLetter, color: Color, c: char): nat {
    if wl.color == color && wl.letter == c then 1 else 0
  }

  function Hit(wl: WordleLetter, c: char): nat {
    if wl.letter == c && wl.color != Black then 1 else 0
  }

  function L(c: char, color: Color, i: Position): WordleLetter { WordleLetter(c, color, i) }

  const Beats: seq<WordleLetter> := [L('b', Black, 0), L('e', Yellow, 1), L('a', Black, 2), L('t', Black, 3), L('s', Black, 4)]
  const Oiled: seq<WordleLetter> := [L('o', Black, 0), L('i', Black, 1), L('l', Yellow, 2), L('e', Green, 3), L('d', Yellow, 4)]
  const AfterBeats: Guesses := Guesses([['b'], [], ['a'], ['t'], ['s']], [[], ['e'], [], [], []], NoGreens, map['e' := 1])

  /** Two states agree when every slot and every count does. */
  lemma SameState(h: Guesses, expected: Guesses)
    requires Valid(h) && Valid(expected)
    requires forall i :: 0 <= i < 5 ==>
      h.blacks[i] == expected.blacks[i] && h.yellows[i] == expected.yellows[i] && h.greens[i] == expected.greens[i]
    requires forall c :: Lookup(h.counts, c, 0) == Lookup(expected.counts, c, 0)
    ensures h == expected
  {
    assert h.blacks == expected.blacks && h.yellows == expected.yellows && h.greens == expected.greens;
    forall c ensures c in h.counts <==> c in expected.counts {
      assert Lookup(h.counts, c, 0) == Lookup(expected.counts, c, 0);
    }
    forall c | c in h.counts ensures h.counts[c] == expected.counts[c] {
      assert Lookup(h.counts, c, 0) == Lookup(expected.counts, c, 0);
    }
    assert h.counts == expected.counts;
  }

  /** The state after committing a row, given slot by slot and count by count. */
  lemma RowOnto(g: Guesses, w: seq<WordleLetter>, expected: Guesses)
    requires Valid(g) && IsRow(w) && Valid(expected)
    requires forall i :: 0 <= i < 5 ==>
      && expected.blacks[i] == g.blacks[i] + (if w[i].color == Black then [w[i].letter] else [])
      && expected.yellows[i] == g.yellows[i] + (if w[i].color == Yellow then [w[i].letter] else [])
      && expected.greens[i] == (if w[i].color == Green then Some(w[i].letter) else g.greens[i])
    requires forall c :: Lookup(expected.counts, c, 0)
                      == Max(Lookup(g.counts, c, 0), Hit(w[0], c) + Hit(w[1], c) + Hit(w[2], c) + Hit(w[3], c) + Hit(w[4], c))
    ensures CommitWord(g, w) == expected
  {
    var h := CommitWord(g, w);
    RowCommit(g, w);
    forall c ensures Lookup(h.counts, c, 0) == Lookup(expected.counts, c, 0) {
      ColouredFive(w, c);
    }
    SameState(h, expected);
  }

  lemma BeatsCommitted()
    ensures CommitWord(Fresh, Beats) == AfterBeats
  {
    RowOnto(Fresh, Beats, AfterBeats);
  }

  lemma OiledAccepted()
    ensures WordConflict(AfterBeats, Oiled).None?
  {
    var g := AfterBeats;
    forall wl | wl in Oiled ensures !Offends(g, Oiled, wl) {
      assert forall j :: 0 <= j < 5 ==> wl.letter !in g.blacks[j];
    }
    WordConflictNone(g, Oiled);
  }

  lemma OiledCommitted()
    ensures CommitWord(AfterBeats, Oiled) == Elder.(counts := map['e' := 1, 'l' := 1, 'd' := 1])
  {
    RowOnto(AfterBeats, Oiled, Elder.(counts := map['e' := 1, 'l' := 1, 'd' := 1]));
  }

  /** 'beats' then 'oiled' against 'elder' parse to the state above, with each
      coloured letter counted once. */
  lemma ParseElder()
    ensures Parse(Beats + Oiled) == Ok(Elder.(counts := map['e' := 1, 'l' := 1, 'd' := 1]))
  {
    ParseTwo(Beats, Oiled);
    BeatsCommitted();
    OiledAccepted();
    OiledCommitted();
  }

  const Dream: seq<WordleLetter> := [L('d', Black, 0), L('r', Black, 1), L('e', Black, 2), L('a', Black, 3), L('m', Black, 4)]
  const Rivyr: seq<WordleLetter> := [L('r', Black, 0), L('i', Black, 1), L('v', Black, 2), L('e', Yellow, 3), L('r', Black, 4)]
  const AfterDream: Guesses := Guesses([['d'], ['r'], ['e'], ['a'], ['m']], NoLetters, NoGreens, map[])

  lemma DreamCommitted()
    ensures CommitWord(Fresh, Dream) == AfterDream
  {
    RowOnto(Fresh, Dream, AfterDream);
  }

  /** Against a state holding only black letters, a word whose one
      non-black letter is yellow, black elsewhere before and not black at its
      own position, is refused for that letter as previously black. */
  lemma YellowAfterOnlyBlacks(g: Guesses, w: seq<WordleLetter>, j: nat)
    requires Valid(g) && g.counts == map[]
    requires forall i :: 0 <= i < 5 ==> g.yellows[i] == [] && g.greens[i] == None
    requires j < |w| && w[j].color == Yellow
    requires forall i :: 0 <= i < |w| && i != j ==> w[i].color == Black
    requires w[j].letter in Flatten(g.blacks) && w[j].letter !in g.blacks[w[j].index]
    ensures WordConflict(g, w) == Some(InvalidWordleLetter(YellowButPreviouslyBlack, w[j]))
  {
    assert w[j] in w;
    assert Offends(g, w, w[j]);
    WordConflictNone(g, w);
    WordConflictIsFirstOffender(g, w);
    var e := WordConflict(g, w).value;
    assert e.letter.color != Black;
    assert e.letter == w[j];
  }

  lemma RivyrRefused()
    ensures WordConflict(AfterDream, Rivyr) == Some(InvalidWordleLetter(YellowButPreviouslyBlack, L('e', Yellow, 3)))
  {
    assert 'e' in AfterDream.blacks[2];
    YellowAfterOnlyBlacks(AfterDream, Rivyr, 3);
  }

  /** A letter black in the first word may not be yellow in a later one. */
  lemma ParseBlackThenYellow()
    ensures Parse(Dream + Rivyr) == Err(InvalidWordleLetter(YellowButPreviouslyBlack, L('e', Yellow, 3)))
  {
    ParseTwo(Dream, Rivyr);
    DreamCommitted();
    RivyrRefused();
  }

  const Beast: seq<WordleLetter> := [L('b', Black, 0), L('e', Black, 1), L('a', Black, 2), L('s', Green, 3), L('t', Black, 4)]
  const Chino: seq<WordleLetter> := [L('c', Black, 0), L('h', Black, 1), L('i', Black, 2), L('n', Green, 3), L('o', Black, 4)]

  const AfterBeast: Guesses :=
    Guesses([['b'], ['e'], ['a'], [], ['t']], NoLetters, [None, None, None, Some('s'), None], map['s' := 1])
  const AfterChino: Guesses :=
    Guesses([['b', 'c'], ['e', 'h'], ['a', 'i'], [], ['t', 'o']], NoLetters,
            [None, None, None, Some('n'), None], map['s' := 1, 'n' := 1])

  lemma ChinoAccepted()
    ensures WordConflict(AfterBeast, Chino).None?
  {
    var g := AfterBeast;
    forall wl | wl in Chino ensures !Offends(g, Chino, wl) {
      assert forall j :: 0 <= j < 5 ==> wl.letter !in g.blacks[j];
    }
    WordConflictNone(g, Chino);
  }

  /** Two different greens at one index in two words are not refused: the
      later one replaces the earlier. */
  lemma ParseGreenOverwrite()
    ensures Parse(Beast + Chino) == Ok(AfterChino)
    ensures AfterBeast.greens[3] == Some('s') && AfterChino.greens[3] == Some('n')
  {
    ParseTwo(Beast, Chino);
    BeastCommitted();
    ChinoAccepted();
    ChinoCommitted();
  }

  lemma BeastCommitted()
    ensures CommitWord(Fresh, Beast) == AfterBeast
  {
    RowOnto(Fresh, Beast, AfterBeast);
  }

  lemma ChinoCommitted()
    ensures CommitWord(AfterBeast, Chino) == AfterChino
  {
    RowOnto(AfterBeast, Chino, AfterChino);
  }
}
