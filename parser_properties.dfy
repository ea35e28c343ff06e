/** What `parse_wordle_letters` guarantees, proved about the fold `Parser.Parse`. */
module ParserProperties {
  import opened Wrappers
  import opened Letters
  import opened Cheater
  import opened Parser

  function Max(a: int, b: int): int { if a < b then b else a }

  // ---------------------------------------------------------------------------
  // Local counts

  lemma {:induction false} LetterCountAppend(a: seq<WordleLetter>, b: seq<WordleLetter>, c: char)
    ensures LetterCount(a + b, c) == LetterCount(a, c) + LetterCount(b, c)
    decreases |b|
  {
    if b == [] {
      assert a + b == a;
    } else {
      assert (a + b)[..|a + b| - 1] == a + b[..|b| - 1];
      LetterCountAppend(a, b[..|b| - 1], c);
    }
  }

  lemma {:induction false} LetterCountOfColor(word: seq<WordleLetter>, color: Color, c: char)
    ensures LetterCount(OfColor(word, color), c) == ColorCount(word, color, c)
  {
    if word != [] {
      var head := if word[0].color == color then [word[0]] else [];
      LetterCountAppend(head, OfColor(word[1..], color), c);
      LetterCountOfColor(word[1..], color, c);
      assert LetterCount(head, c) == (if word[0].color == color && word[0].letter == c then 1 else 0) by {
        if head != [] {
          assert head[..0] == [];
        }
      }
    }
  }

  /** `these_counts.get(c, 0)` is how many times `c` is coloured yellow or green in the word. */
  lemma TheseCountsColoured(word: seq<WordleLetter>, c: char)
    ensures Lookup(TheseCounts(word), c, 0) == Coloured(word, c)
  {
    LetterCountAppend(OfColor(word, Yellow), OfColor(word, Green), c);
    LetterCountOfColor(word, Yellow, c);
    LetterCountOfColor(word, Green, c);
  }

  predicate HasLetter(ls: seq<WordleLetter>, c: char) {
    exists j :: 0 <= j < |ls| && ls[j].letter == c
  }

  lemma {:induction false} ColorCountHasLetter(word: seq<WordleLetter>, color: Color, c: char)
    ensures ColorCount(word, color, c) > 0 ==> HasLetter(word, c)
  {
    if word != [] {
      ColorCountHasLetter(word[1..], color, c);
      if ColorCount(word[1..], color, c) > 0 {
        var j :| 0 <= j < |word[1..]| && word[1..][j].letter == c;
        assert word[j + 1].letter == c;
      } else if ColorCount(word, color, c) > 0 {
        assert word[0].letter == c;
      }
    }
  }

  // ---------------------------------------------------------------------------
  // Counts after a commit and after the fold

  lemma {:induction false} CommitCounts(g: Guesses, tc: map<char, int>, ls: seq<WordleLetter>, c: char)
    requires Valid(g)
    ensures Lookup(Commit(g, tc, ls).counts, c, 0)
         == if HasLetter(ls, c) then Max(Lookup(g.counts, c, 0), Lookup(tc, c, 0)) else Lookup(g.counts, c, 0)
  {
    if ls != [] {
      var init := ls[..|ls| - 1];
      var last := ls[|ls| - 1];
      CommitCounts(g, tc, init, c);
      assert HasLetter(ls, c) <==> HasLetter(init, c) || last.letter == c by {
        if HasLetter(ls, c) && !(last.letter == c) {
          var j :| 0 <= j < |ls| && ls[j].letter == c;
          assert init[j].letter == c;
        }
        if HasLetter(init, c) {
          var j :| 0 <= j < |init| && init[j].letter == c;
          assert ls[j].letter == c;
        }
      }
    }
  }

  /** Committing a word sets each count to the larger of its old value and
      how often the word colours the letter. */
  lemma CommitWordCounts(g: Guesses, word: seq<WordleLetter>, c: char)
    requires Valid(g)
    ensures Lookup(CommitWord(g, word).counts, c, 0) == Max(Lookup(g.counts, c, 0), Coloured(word, c))
  {
    CommitCounts(g, TheseCounts(word), word, c);
    TheseCountsColoured(word, c);
    ColorCountHasLetter(word, Yellow, c);
    ColorCountHasLetter(word, Green, c);
  }

  /** The largest number of times any one of `words` colours `c`. */
  function MaxColoured(words: seq<seq<WordleLetter>>, c: char): nat {
    if words == [] then 0 else Max(Coloured(words[0], c), MaxColoured(words[1..], c))
  }

  lemma {:induction false} FoldCounts(g: Guesses, words: seq<seq<WordleLetter>>, c: char)
    requires Valid(g)
    ensures Fold(g, words).Ok? ==>
      Lookup(Fold(g, words).value.counts, c, 0) == Max(Lookup(g.counts, c, 0), MaxColoured(words, c))
    decreases |words|
  {
    if words != [] && WordConflict(g, words[0]).None? {
      CommitWordCounts(g, words[0], c);
      FoldCounts(CommitWord(g, words[0]), words[1..], c);
    }
  }

  /** After a successful parse, `counts[c]` is the largest number of times `c`
      was coloured yellow or green within one guessed word, and `c` is a key
      exactly when some word colours it. */
  lemma ParseCounts(wordleLetters: seq<WordleLetter>)
    requires Parse(wordleLetters).Ok?
    ensures |wordleLetters| % 5 == 0
    ensures var counts := Parse(wordleLetters).value.counts;
      forall c :: Lookup(counts, c, 0) == MaxColoured(Words(wordleLetters), c)
               && (c in counts <==> MaxColoured(Words(wordleLetters), c) > 0)
  {
    var counts := Parse(wordleLetters).value.counts;
    forall c ensures Lookup(counts, c, 0) == MaxColoured(Words(wordleLetters), c) {
      FoldCounts(Fresh, Words(wordleLetters), c);
    }
  }

  // ---------------------------------------------------------------------------
  // Later words only add information

  /** `h` holds everything `g` holds: each black and yellow slot extended,
      every green slot that was set still set, and no count lowered. */
  predicate Grows(g: Guesses, h: Guesses)
    requires Shaped(g) && Shaped(h)
  {
    && (forall i :: 0 <= i < 5 ==> g.blacks[i] <= h.blacks[i] && g.yellows[i] <= h.yellows[i])
    && (forall i :: 0 <= i < 5 ==> g.greens[i].Some? ==> h.greens[i].Some?)
    && (forall c :: Lookup(g.counts, c, 0) <= Lookup(h.counts, c, 0))
  }

  lemma GrowsTransitive(a: Guesses, b: Guesses, c: Guesses)
    requires Shaped(a) && Shaped(b) && Shaped(c)
    requires Grows(a, b) && Grows(b, c)
    ensures Grows(a, c)
  {
    forall i | 0 <= i < 5 ensures a.blacks[i] <= c.blacks[i] && a.yellows[i] <= c.yellows[i] {
      assert a.blacks[i] <= b.blacks[i] <= c.blacks[i];
      assert a.yellows[i] <= b.yellows[i] <= c.yellows[i];
    }
  }

  lemma {:induction false} CommitGrows(g: Guesses, tc: map<char, int>, ls: seq<WordleLetter>)
    requires Valid(g)
    ensures Grows(g, Commit(g, tc, ls))
  {
    if ls != [] {
      var mid := Commit(g, tc, ls[..|ls| - 1]);
      CommitGrows(g, tc, ls[..|ls| - 1]);
      var wl := ls[|ls| - 1];
      var h := CommitLetter(mid, tc, wl);
      assert Grows(mid, h) by {
        forall i | 0 <= i < 5 ensures mid.blacks[i] <= h.blacks[i] && mid.yellows[i] <= h.yellows[i] {
          if i == wl.index {
            assert mid.blacks[i] <= mid.blacks[i] + [wl.letter];
            assert mid.yellows[i] <= mid.yellows[i] + [wl.letter];
          }
        }
      }
      GrowsTransitive(g, mid, h);
    }
  }

  lemma {:induction false} FoldGrows(g: Guesses, words: seq<seq<WordleLetter>>)
    requires Valid(g)
    ensures Fold(g, words).Ok? ==> Grows(g, Fold(g, words).value)
    decreases |words|
  {
    if words != [] && WordConflict(g, words[0]).None? {
      var h := CommitWord(g, words[0]);
      CommitGrows(g, TheseCounts(words[0]), words[0]);
      FoldGrows(h, words[1..]);
      if Fold(g, words).Ok? {
        GrowsTransitive(g, h, Fold(g, words).value);
      }
    }
  }

  /** Folding two runs of words is folding the first, then the second from there. */
  lemma {:induction false} FoldAppend(g: Guesses, a: seq<seq<WordleLetter>>, b: seq<seq<WordleLetter>>)
    requires Valid(g)
    ensures Fold(g, a + b) == match Fold(g, a) case Err(e) => Err(e) case Ok(h) => Fold(h, b)
    decreases |a|
  {
    if a == [] {
      assert a + b == b;
    } else {
      assert (a + b)[0] == a[0] && (a + b)[1..] == a[1..] + b;
      if WordConflict(g, a[0]).None? {
        FoldAppend(CommitWord(g, a[0]), a[1..], b);
      }
    }
  }

  lemma {:induction false} WordsAppend(ls: seq<WordleLetter>, more: seq<WordleLetter>)
    requires |ls| % 5 == 0 && |more| % 5 == 0
    ensures Words(ls + more) == Words(ls) + Words(more)
    decreases |ls|
  {
    if ls == [] {
      assert ls + more == more;
    } else {
      assert (ls + more)[..5] == ls[..5] && (ls + more)[5..] == ls[5..] + more;
      WordsAppend(ls[5..], more);
    }
  }

  /** If a longer list of letters parses, every prefix of whole words parses,
      and the longer list only extends the state: a later word never removes
      a letter, clears a green slot or lowers a count. Once a prefix fails,
      more words do not change the error. */
  lemma ParsePrefix(wordleLetters: seq<WordleLetter>, more: seq<WordleLetter>)
    requires |wordleLetters| % 5 == 0
    ensures Parse(wordleLetters + more).Ok? ==>
      Parse(wordleLetters).Ok? && Grows(Parse(wordleLetters).value, Parse(wordleLetters + more).value)
    ensures Parse(wordleLetters).Err? && |more| % 5 == 0 ==> Parse(wordleLetters + more) == Parse(wordleLetters)
  {
    if |more| % 5 == 0 {
      var a := Words(wordleLetters);
      var b := Words(more);
      WordsAppend(wordleLetters, more);
      assert Parse(wordleLetters + more) == Fold(Fresh, a + b);
      FoldAppend(Fresh, a, b);
      if Parse(wordleLetters).Ok? {
        FoldGrows(Parse(wordleLetters).value, b);
      }
    } else {
      assert |wordleLetters + more| % 5 != 0;
    }
  }

  // ---------------------------------------------------------------------------
  // Each word is checked against the commits of the words before it

  /** The state after committing `words` in order without validating them. */
  function Replay(words: seq<seq<WordleLetter>>): (g: Guesses)
    ensures Valid(g)
  {
    if words == [] then Fresh else CommitWord(Replay(words[..|words| - 1]), words[|words| - 1])
  }

  /** No word at an index in [from, to) conflicts with the replay of the words before it. */
  predicate Clean(words: seq<seq<WordleLetter>>, from: nat, to: nat)
    requires to <= |words|
  {
    forall k :: from <= k < to ==> WordConflict(Replay(words[..k]), words[k]).None?
  }

  lemma ReplayStep(words: seq<seq<WordleLetter>>, k: nat)
    requires k < |words|
    ensures Replay(words[..k + 1]) == CommitWord(Replay(words[..k]), words[k])
  {
    assert words[..k + 1][..k] == words[..k];
  }

  lemma {:induction false} FoldReplay(words: seq<seq<WordleLetter>>, k: nat)
    requires k <= |words|
    ensures var r := Fold(Replay(words[..k]), words[k..]);
      && (r.Ok? <==> Clean(words, k, |words|))
      && (r.Ok? ==> r.value == Replay(words))
      && (r.Err? ==> exists j :: k <= j < |words| && Clean(words, k, j)
                                 && WordConflict(Replay(words[..j]), words[j]) == Some(r.error))
    decreases |words| - k
  {
    var g := Replay(words[..k]);
    if k == |words| {
      assert words[..k] == words;
    } else {
      assert words[k..][0] == words[k] && words[k..][1..] == words[k + 1..];
      if WordConflict(g, words[k]).None? {
        ReplayStep(words, k);
        FoldReplay(words, k + 1);
      }
    }
  }

  /** `parse_wordle_letters` succeeds exactly when no word conflicts with the
      state committed by the words before it, and then returns that committed
      state; when it fails, the error is the conflict of the first word that
      has one, every earlier word being free of conflict. */
  lemma ParseIsReplay(wordleLetters: seq<WordleLetter>)
    requires |wordleLetters| % 5 == 0
    ensures var words := Words(wordleLetters);
      && (Parse(wordleLetters).Ok? <==> Clean(words, 0, |words|))
      && (Parse(wordleLetters).Ok? ==> Parse(wordleLetters).value == Replay(words))
      && (Parse(wordleLetters).Err? ==>
            exists k :: 0 <= k < |words| && Clean(words, 0, k)
              && WordConflict(Replay(words[..k]), words[k]) == Some(Parse(wordleLetters).error))
  {
    var words := Words(wordleLetters);
    assert words[..0] == [] && words[0..] == words;
    FoldReplay(words, 0);
  }

  // ---------------------------------------------------------------------------
  // The first offending letter

  /** The rules a letter of `word` breaks against the state `g`, stated with
      how often `word` colours the letter. */
  predicate Offends(g: Guesses, word: seq<WordleLetter>, wl: WordleLetter)
    requires Shaped(g)
  {
    var c := wl.letter;
    var i := wl.index;
    var blackBefore := exists j :: 0 <= j < 5 && c in g.blacks[j];
    match wl.color
    case Black => c in g.yellows[i] || g.greens[i] == Some(c) || Coloured(word, c) < Lookup(g.counts, c, 0)
    case Yellow => c in g.blacks[i] || g.greens[i] == Some(c) || (blackBefore && Lookup(g.counts, c, 0) == 0)
    case Green => c in g.blacks[i] || c in g.yellows[i] || (blackBefore && Lookup(g.counts, c, 0) == 0)
  }

  /** A conflict is reported exactly when the letter offends, with a reason of its own colour. */
  lemma ConflictOffends(g: Guesses, word: seq<WordleLetter>, wl: WordleLetter)
    requires Shaped(g)
    ensures Conflict(g, TheseCounts(word), wl).Some? <==> Offends(g, word, wl)
    ensures Conflict(g, TheseCounts(word), wl).Some? ==> ReasonColor(Conflict(g, TheseCounts(word), wl).value) == wl.color
  {
    TheseCountsColoured(word, wl.letter);
  }

  /** The order in which the validation loops visit colours. */
  function Rank(c: Color): nat {
    match c
    case Black => 0
    case Yellow => 1
    case Green => 2
  }

  /** One validation loop reports the first letter of its list that is in conflict. */
  lemma {:induction false} FirstConflictIsFirst(g: Guesses, tc: map<char, int>, ls: seq<WordleLetter>)
    requires Shaped(g)
    ensures FirstConflict(g, tc, ls).None? <==> forall j :: 0 <= j < |ls| ==> Conflict(g, tc, ls[j]).None?
    ensures FirstConflict(g, tc, ls).Some? ==>
      exists j :: 0 <= j < |ls| && Conflict(g, tc, ls[j]).Some?
        && FirstConflict(g, tc, ls) == Some(InvalidWordleLetter(Conflict(g, tc, ls[j]).value, ls[j]))
        && forall i :: 0 <= i < j ==> Conflict(g, tc, ls[i]).None?
  {
    if ls != [] {
      FirstConflictIsFirst(g, tc, ls[1..]);
      if Conflict(g, tc, ls[0]).None? {
        if FirstConflict(g, tc, ls[1..]).Some? {
          var j :| 0 <= j < |ls[1..]| && Conflict(g, tc, ls[1..][j]).Some?
            && FirstConflict(g, tc, ls[1..]) == Some(InvalidWordleLetter(Conflict(g, tc, ls[1..][j]).value, ls[1..][j]))
            && forall i :: 0 <= i < j ==> Conflict(g, tc, ls[1..][i]).None?;
          assert ls[j + 1] == ls[1..][j];
          forall i | 0 <= i < j + 1 ensures Conflict(g, tc, ls[i]).None? {
            if i > 0 {
              assert ls[i] == ls[1..][i - 1];
            }
          }
        } else {
          forall j | 0 <= j < |ls| ensures Conflict(g, tc, ls[j]).None? {
            if j > 0 {
              assert ls[j] == ls[1..][j - 1];
            }
          }
        }
      }
    }
  }

  /** One colour's validation loop reports nothing exactly when no letter of
      that colour offends. */
  lemma ColorLoopNone(g: Guesses, word: seq<WordleLetter>, color: Color)
    requires Shaped(g)
    ensures FirstConflict(g, TheseCounts(word), OfColor(word, color)).None?
        <==> forall wl :: wl in word && wl.color == color ==> !Offends(g, word, wl)
  {
    var tc := TheseCounts(word);
    var ls := OfColor(word, color);
    FirstConflictIsFirst(g, tc, ls);
    if FirstConflict(g, tc, ls).None? {
      forall wl | wl in word && wl.color == color ensures !Offends(g, word, wl) {
        assert wl in ls;
        var j :| 0 <= j < |ls| && ls[j] == wl;
        ConflictOffends(g, word, wl);
      }
    } else {
      var j :| 0 <= j < |ls| && Conflict(g, tc, ls[j]).Some?;
      assert ls[j] in ls;
      ConflictOffends(g, word, ls[j]);
    }
  }

  /** When one colour's validation loop reports a letter, it is the first
      offending letter of that colour, with a reason of its colour. */
  lemma ColorLoopSome(g: Guesses, word: seq<WordleLetter>, color: Color)
    requires Shaped(g)
    requires FirstConflict(g, TheseCounts(word), OfColor(word, color)).Some?
    ensures var e := FirstConflict(g, TheseCounts(word), OfColor(word, color));
      && e.value.InvalidWordleLetter?
      && ReasonColor(e.value.reason) == e.value.letter.color == color
      && e.value.letter in word && Offends(g, word, e.value.letter)
      && Conflict(g, TheseCounts(word), e.value.letter) == Some(e.value.reason)
      && var ls := OfColor(word, color);
         exists j :: 0 <= j < |ls| && ls[j] == e.value.letter
           && forall i :: 0 <= i < j ==> !Offends(g, word, ls[i])
  {
    var tc := TheseCounts(word);
    var ls := OfColor(word, color);
    FirstConflictIsFirst(g, tc, ls);
    var e := FirstConflict(g, tc, ls);
    var j :| 0 <= j < |ls| && Conflict(g, tc, ls[j]).Some?
      && e == Some(InvalidWordleLetter(Conflict(g, tc, ls[j]).value, ls[j]))
      && forall i :: 0 <= i < j ==> Conflict(g, tc, ls[i]).None?;
    var wl := ls[j];
    assert wl in ls;
    assert e.value.letter == wl && e.value.reason == Conflict(g, tc, wl).value;
    ConflictOffends(g, word, wl);
    NoConflictNoOffence(g, word, ls, j);
  }

  lemma NoConflictNoOffence(g: Guesses, word: seq<WordleLetter>, ls: seq<WordleLetter>, j: nat)
    requires Shaped(g) && j <= |ls|
    requires forall i :: 0 <= i < j ==> Conflict(g, TheseCounts(word), ls[i]).None?
    ensures forall i :: 0 <= i < j ==> !Offends(g, word, ls[i])
  {
    forall i | 0 <= i < j ensures !Offends(g, word, ls[i]) {
      ConflictOffends(g, word, ls[i]);
    }
  }

  /** A word passes validation exactly when none of its letters breaks a rule. */
  lemma WordConflictNone(g: Guesses, word: seq<WordleLetter>)
    requires Shaped(g)
    ensures WordConflict(g, word).None? <==> forall wl :: wl in word ==> !Offends(g, word, wl)
  {
    ColorLoopNone(g, word, Black);
    ColorLoopNone(g, word, Yellow);
    ColorLoopNone(g, word, Green);
    if WordConflict(g, word).None? {
      forall wl | wl in word ensures !Offends(g, word, wl) {
        assert wl.color == Black || wl.color == Yellow || wl.color == Green;
      }
    }
  }

  /** When a word fails validation, the letter reported is in the word, breaks
      a rule, and the reason belongs to its colour; no letter of a colour
      validated earlier breaks a rule, and neither does any letter before it
      in the list of its own colour. */
  lemma WordConflictIsFirstOffender(g: Guesses, word: seq<WordleLetter>)
    requires Shaped(g)
    requires WordConflict(g, word).Some?
    ensures var e := WordConflict(g, word).value;
      && e.InvalidWordleLetter?
      && ReasonColor(e.reason) == e.letter.color
      && e.letter in word && Offends(g, word, e.letter)
      && Conflict(g, TheseCounts(word), e.letter) == Some(e.reason)
      && (forall wl :: wl in word && Rank(wl.color) < Rank(e.letter.color) ==> !Offends(g, word, wl))
      && var ls := OfColor(word, e.letter.color);
         exists j :: 0 <= j < |ls| && ls[j] == e.letter && forall i :: 0 <= i < j ==> !Offends(g, word, ls[i])
  {
    var tc := TheseCounts(word);
    if FirstConflict(g, tc, OfColor(word, Black)).Some? {
      ColorLoopSome(g, word, Black);
    } else if FirstConflict(g, tc, OfColor(word, Yellow)).Some? {
      ColorLoopNone(g, word, Black);
      ColorLoopSome(g, word, Yellow);
    } else {
      ColorLoopNone(g, word, Black);
      ColorLoopNone(g, word, Yellow);
      ColorLoopSome(g, word, Green);
    }
  }

  /** The first word is never refused: the empty state has nothing to clash with. */
  lemma FirstWordNeverConflicts(word: seq<WordleLetter>)
    ensures WordConflict(Fresh, word).None?
  {
    forall wl | wl in word ensures !Offends(Fresh, word, wl) {
      assert forall i :: 0 <= i < 5 ==> Fresh.blacks[i] == [] && Fresh.yellows[i] == [] && Fresh.greens[i] == None;
    }
    WordConflictNone(Fresh, word);
  }

  // ---------------------------------------------------------------------------
  // What a commit writes

  /** The letters of `ls` with colour `color` at position `i`, in order. */
  function LettersAt(ls: seq<WordleLetter>, color: Color, i: Position): seq<char> {
    if ls == [] then []
    else
      var last := ls[|ls| - 1];
      LettersAt(ls[..|ls| - 1], color, i) + (if last.color == color && last.index == i then [last.letter] else [])
  }

  /** The green slot `i` after `ls`: the last green letter there, else `prior`. */
  function LastGreen(ls: seq<WordleLetter>, i: Position, prior: Option<char>): Option<char> {
    if ls == [] then prior
    else
      var last := ls[|ls| - 1];
      if last.color == Green && last.index == i then Some(last.letter) else LastGreen(ls[..|ls| - 1], i, prior)
  }

  /** A commit appends each black and yellow letter to the list of its
      position, in order, and overwrites a green slot with the last green
      letter for it, so two different greens at one index are not refused:
      the later one wins. */
  lemma {:induction false} CommitSlots(g: Guesses, tc: map<char, int>, ls: seq<WordleLetter>, i: Position)
    requires Valid(g)
    ensures Commit(g, tc, ls).blacks[i] == g.blacks[i] + LettersAt(ls, Black, i)
    ensures Commit(g, tc, ls).yellows[i] == g.yellows[i] + LettersAt(ls, Yellow, i)
    ensures Commit(g, tc, ls).greens[i] == LastGreen(ls, i, g.greens[i])
  {
    if ls == [] {
      assert g.blacks[i] + [] == g.blacks[i] && g.yellows[i] + [] == g.yellows[i];
    } else {
      var init := ls[..|ls| - 1];
      var last := ls[|ls| - 1];
      var h := Commit(g, tc, init);
      assert Commit(g, tc, ls) == CommitLetter(h, tc, last);
      CommitSlots(g, tc, init, i);
      CommitLetterSlot(h, tc, last, i);
      assert LettersAt(ls, Black, i) == LettersAt(init, Black, i) + (if last.color == Black && last.index == i then [last.letter] else []);
      assert LettersAt(ls, Yellow, i) == LettersAt(init, Yellow, i) + (if last.color == Yellow && last.index == i then [last.letter] else []);
    }
  }

  /** One letter of a commit touches only the slot of its own colour and index. */
  lemma CommitLetterSlot(g: Guesses, tc: map<char, int>, wl: WordleLetter, i: Position)
    requires Valid(g)
    ensures var h := CommitLetter(g, tc, wl);
      && h.blacks[i] == g.blacks[i] + (if wl.color == Black && wl.index == i then [wl.letter] else [])
      && h.yellows[i] == g.yellows[i] + (if wl.color == Yellow && wl.index == i then [wl.letter] else [])
      && h.greens[i] == (if wl.color == Green && wl.index == i then Some(wl.letter) else g.greens[i])
  {
  }

  /** A row of the board: five letters, each at its own index. */
  predicate IsRow(word: seq<WordleLetter>) {
    |word| == 5 && forall i :: 0 <= i < 5 ==> word[i].index == i
  }

  lemma {:induction false} RowPrefixSlots(word: seq<WordleLetter>, k: nat, color: Color, i: Position, prior: Option<char>)
    requires IsRow(word) && k <= 5
    ensures LettersAt(word[..k], color, i) == if i < k && word[i].color == color then [word[i].letter] else []
    ensures LastGreen(word[..k], i, prior) == if i < k && word[i].color == Green then Some(word[i].letter) else prior
  {
    if k > 0 {
      assert word[..k][..k - 1] == word[..k - 1];
      RowPrefixSlots(word, k - 1, color, i, prior);
    }
  }

  /** Committing a row adds each black or yellow letter to the list of its
      own position, sets the green slot of each green letter, leaves every
      other slot alone, and raises each count to how often the row colours
      the letter, if that is more. */
  lemma RowCommit(g: Guesses, word: seq<WordleLetter>)
    requires Valid(g) && IsRow(word)
    ensures var h := CommitWord(g, word);
      && (forall i: Position ::
            && h.blacks[i] == g.blacks[i] + (if word[i].color == Black then [word[i].letter] else [])
            && h.yellows[i] == g.yellows[i] + (if word[i].color == Yellow then [word[i].letter] else [])
            && h.greens[i] == (if word[i].color == Green then Some(word[i].letter) else g.greens[i]))
      && (forall c :: Lookup(h.counts, c, 0) == Max(Lookup(g.counts, c, 0), Coloured(word, c)))
  {
    assert word[..5] == word;
    forall i: Position ensures
      var h := CommitWord(g, word);
      && h.blacks[i] == g.blacks[i] + (if word[i].color == Black then [word[i].letter] else [])
      && h.yellows[i] == g.yellows[i] + (if word[i].color == Yellow then [word[i].letter] else [])
      && h.greens[i] == (if word[i].color == Green then Some(word[i].letter) else g.greens[i])
    {
      CommitSlots(g, TheseCounts(word), word, i);
      RowPrefixSlots(word, 5, Black, i, g.greens[i]);
      RowPrefixSlots(word, 5, Yellow, i, g.greens[i]);
    }
    forall c ensures Lookup(CommitWord(g, word).counts, c, 0) == Max(Lookup(g.counts, c, 0), Coloured(word, c)) {
      CommitWordCounts(g, word, c);
    }
  }
}
