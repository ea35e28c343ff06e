/** `parse_wordle_letters` of src/wordle_cheater/cheater.py (lines 204-340):
    fold a flat list of coloured letters, five per guessed word, into the
    blacks, yellows, greens and counts that `check_word` consumes, checking
    each word against what the earlier words built before committing it. */
module Parser {
  import opened Wrappers
  import opened Letters
  import opened Cheater

  /** The message of each `InvalidWordleLetter` the fold can raise. */
  datatype Reason =
    | BlackAndYellow              // "marked black and yellow in the same location"
    | BlackAndGreen               // "marked black and green in the same location"
    | BlackButPreviouslyColored   // "marked black but previously colored"
    | YellowAndBlack              // "marked yellow and black in the same location"
    | YellowAndGreen              // "marked yellow and green in the same location"
    | YellowButPreviouslyBlack    // "marked yellow but previously marked black"
    | GreenAndBlack               // "marked green and black in the same location"
    | GreenAndYellow              // "marked green and yellow in the same location"
    | GreenButPreviouslyBlack     // "marked green but previously marked black"

  /** The `ValueError` on a bad length, or an `InvalidWordleLetter` carrying the letter. */
  datatype ParseError =
    | LengthNotMultipleOfFive
    | InvalidWordleLetter(reason: Reason, letter: WordleLetter)

  /** The colour whose validation loop raises each reason. */
  function ReasonColor(r: Reason): Color {
    match r
    case BlackAndYellow | BlackAndGreen | BlackButPreviouslyColored => Black
    case YellowAndBlack | YellowAndGreen | YellowButPreviouslyBlack => Yellow
    case GreenAndBlack | GreenAndYellow | GreenButPreviouslyBlack => Green
  }

  /** The state before the first word. */
  const Fresh: Guesses := Guesses(NoLetters, NoLetters, NoGreens, map[])

  /** What the fold keeps true: five slots per list, and every count positive. */
  predicate Valid(g: Guesses) {
    Shaped(g) && forall c :: c in g.counts ==> g.counts[c] > 0
  }

  // ---------------------------------------------------------------------------
  // One word: its colours and its local counts

  /** `[wl for wl in word if wl.color == color]`. */
  function OfColor(word: seq<WordleLetter>, color: Color): (r: seq<WordleLetter>)
    ensures forall wl :: wl in r <==> wl in word && wl.color == color
  {
    if word == [] then []
    else (if word[0].color == color then [word[0]] else []) + OfColor(word[1..], color)
  }

  /** How many letters of `ls` are `c`. */
  function LetterCount(ls: seq<WordleLetter>, c: char): nat {
    if ls == [] then 0
    else LetterCount(ls[..|ls| - 1], c) + (if ls[|ls| - 1].letter == c then 1 else 0)
  }

  /** The `these_counts` loop over a list of letters: one increment per letter. */
  function Tally(ls: seq<WordleLetter>): (m: map<char, int>)
    ensures forall c :: Lookup(m, c, 0) == LetterCount(ls, c)
    ensures forall c :: c in m <==> LetterCount(ls, c) > 0
  {
    if ls == [] then map[]
    else
      var m := Tally(ls[..|ls| - 1]);
      var c := ls[|ls| - 1].letter;
      m[c := Lookup(m, c, 0) + 1]
  }

  /** `these_counts`: the yellows and then the greens of the word, tallied. */
  function TheseCounts(word: seq<WordleLetter>): map<char, int> {
    Tally(OfColor(word, Yellow) + OfColor(word, Green))
  }

  /** How many letters of `word` are `c` with colour `color`. */
  function ColorCount(word: seq<WordleLetter>, color: Color, c: char): nat {
    if word == [] then 0
    else (if word[0].color == color && word[0].letter == c then 1 else 0) + ColorCount(word[1..], color, c)
  }

  /** How many times `c` is coloured (yellow or green) in one word. */
  function Coloured(word: seq<WordleLetter>, c: char): nat {
    ColorCount(word, Yellow, c) + ColorCount(word, Green, c)
  }

  // ---------------------------------------------------------------------------
  // Validation of one letter against the state built from earlier words

  function BlackConflict(g: Guesses, theseCounts: map<char, int>, wl: WordleLetter): Option<Reason>
    requires Shaped(g)
  {
    if wl.letter in g.yellows[wl.index] then Some(BlackAndYellow)
    else if g.greens[wl.index] == Some(wl.letter) then Some(BlackAndGreen)
    else if Lookup(theseCounts, wl.letter, 0) < Lookup(g.counts, wl.letter, 0) then Some(BlackButPreviouslyColored)
    else None
  }

  function YellowConflict(g: Guesses, wl: WordleLetter): Option<Reason>
    requires Shaped(g)
  {
    if wl.letter in g.blacks[wl.index] then Some(YellowAndBlack)
    else if g.greens[wl.index] == Some(wl.letter) then Some(YellowAndGreen)
    else if wl.letter in Flatten(g.blacks) && Lookup(g.counts, wl.letter, 0) == 0 then Some(YellowButPreviouslyBlack)
    else None
  }

  function GreenConflict(g: Guesses, wl: WordleLetter): Option<Reason>
    requires Shaped(g)
  {
    if wl.letter in g.blacks[wl.index] then Some(GreenAndBlack)
    else if wl.letter in g.yellows[wl.index] then Some(GreenAndYellow)
    else if wl.letter in Flatten(g.blacks) && Lookup(g.counts, wl.letter, 0) == 0 then Some(GreenButPreviouslyBlack)
    else None
  }

  function Conflict(g: Guesses, theseCounts: map<char, int>, wl: WordleLetter): Option<Reason>
    requires Shaped(g)
  {
    match wl.color
    case Black => BlackConflict(g, theseCounts, wl)
    case Yellow => YellowConflict(g, wl)
    case Green => GreenConflict(g, wl)
  }

  /** One validation loop: the first letter of `ls` in conflict, as the error raised. */
  function FirstConflict(g: Guesses, theseCounts: map<char, int>, ls: seq<WordleLetter>): (e: Option<ParseError>)
    requires Shaped(g)
    ensures e.Some? ==> e.value.InvalidWordleLetter? && e.value.letter in ls
  {
    if ls == [] then None
    else match Conflict(g, theseCounts, ls[0])
      case Some(r) => Some(InvalidWordleLetter(r, ls[0]))
      case None => FirstConflict(g, theseCounts, ls[1..])
  }

  /** The three validation loops of one word: blacks, then yellows, then greens. */
  function WordConflict(g: Guesses, word: seq<WordleLetter>): (e: Option<ParseError>)
    requires Shaped(g)
    ensures e.Some? ==> e.value.InvalidWordleLetter? && e.value.letter in word
  {
    var tc := TheseCounts(word);
    var b := FirstConflict(g, tc, OfColor(word, Black));
    if b.Some? then b
    else
      var y := FirstConflict(g, tc, OfColor(word, Yellow));
      if y.Some? then y
      else FirstConflict(g, tc, OfColor(word, Green))
  }

  // ---------------------------------------------------------------------------
  // Commit of one word

  /** One iteration of the commit loop: record the letter in its slot, then
      raise its count if this word colours it more often. */
  function CommitLetter(g: Guesses, theseCounts: map<char, int>, wl: WordleLetter): (r: Guesses)
    requires Valid(g)
    ensures Valid(r)
  {
    var i := wl.index;
    var placed :=
      match wl.color
      case Black => g.(blacks := g.blacks[i := g.blacks[i] + [wl.letter]])
      case Yellow => g.(yellows := g.yellows[i := g.yellows[i] + [wl.letter]])
      case Green => g.(greens := g.greens[i := Some(wl.letter)]);
    if Lookup(theseCounts, wl.letter, 0) > Lookup(g.counts, wl.letter, 0)
    then placed.(counts := g.counts[wl.letter := theseCounts[wl.letter]])
    else placed
  }

  /** The commit loop over `ls`, in order. */
  function Commit(g: Guesses, theseCounts: map<char, int>, ls: seq<WordleLetter>): (r: Guesses)
    requires Valid(g)
    ensures Valid(r)
  {
    if ls == [] then g
    else CommitLetter(Commit(g, theseCounts, ls[..|ls| - 1]), theseCounts, ls[|ls| - 1])
  }

  function CommitWord(g: Guesses, word: seq<WordleLetter>): (r: Guesses)
    requires Valid(g)
    ensures Valid(r)
  {
    Commit(g, TheseCounts(word), word)
  }

  // ---------------------------------------------------------------------------
  // The fold

  /** `words`: consecutive runs of five letters. */
  function Words(ls: seq<WordleLetter>): (ws: seq<seq<WordleLetter>>)
    requires |ls| % 5 == 0
    ensures |ws| == |ls| / 5
    ensures forall k :: 0 <= k < |ws| ==> ws[k] == ls[5 * k .. 5 * k + 5]
  {
    if ls == [] then [] else [ls[..5]] + Words(ls[5..])
  }

  /** The `for word in words` loop: validate, raise on the first conflict, else commit. */
  function Fold(g: Guesses, words: seq<seq<WordleLetter>>): (r: Result<Guesses, ParseError>)
    requires Valid(g)
    ensures r.Ok? ==> Valid(r.value)
    ensures r != Err(LengthNotMultipleOfFive)
    decreases |words|
  {
    if words == [] then Ok(g)
    else match WordConflict(g, words[0])
      case Some(e) => Err(e)
      case None => Fold(CommitWord(g, words[0]), words[1..])
  }

  /** `parse_wordle_letters`: the length check, then the fold from the empty
      state. A length that is not a multiple of five is the only source of the
      length error, and a successful result always has five slots per list. */
  function Parse(wordleLetters: seq<WordleLetter>): (r: Result<Guesses, ParseError>)
    ensures r == Err(LengthNotMultipleOfFive) <==> |wordleLetters| % 5 != 0
    ensures r.Ok? ==> Valid(r.value)
  {
    if |wordleLetters| % 5 != 0 then Err(LengthNotMultipleOfFive)
    else Fold(Fresh, Words(wordleLetters))
  }

  // ---------------------------------------------------------------------------
  // The imperative procedure

  /** The black validation loop. */
  method ValidateBlacks(g: Guesses, theseCounts: map<char, int>, theseBlacks: seq<WordleLetter>)
    returns (e: Option<ParseError>)
    requires Shaped(g)
    requires forall wl :: wl in theseBlacks ==> wl.color == Black
    ensures e == FirstConflict(g, theseCounts, theseBlacks)
  {
    for j := 0 to |theseBlacks|
      invariant FirstConflict(g, theseCounts, theseBlacks) == FirstConflict(g, theseCounts, theseBlacks[j..])
    {
      var wl := theseBlacks[j];
      assert theseBlacks[j..][0] == wl && theseBlacks[j..][1..] == theseBlacks[j + 1..];
      if wl.letter in g.yellows[wl.index] {
        return Some(InvalidWordleLetter(BlackAndYellow, wl));
      }
      if g.greens[wl.index] == Some(wl.letter) {
        return Some(InvalidWordleLetter(BlackAndGreen, wl));
      }
      // A black letter cannot be coloured in this word fewer times than before.
      var currCount := Lookup(theseCounts, wl.letter, 0);
      var prevCount := Lookup(g.counts, wl.letter, 0);
      if currCount < prevCount {
        return Some(InvalidWordleLetter(BlackButPreviouslyColored, wl));
      }
    }
    return None;
  }

  /** The yellow validation loop. */
  method ValidateYellows(g: Guesses, theseCounts: map<char, int>, theseYellows: seq<WordleLetter>)
    returns (e: Option<ParseError>)
    requires Shaped(g)
    requires forall wl :: wl in theseYellows ==> wl.color == Yellow
    ensures e == FirstConflict(g, theseCounts, theseYellows)
  {
    for j := 0 to |theseYellows|
      invariant FirstConflict(g, theseCounts, theseYellows) == FirstConflict(g, theseCounts, theseYellows[j..])
    {
      var wl := theseYellows[j];
      assert theseYellows[j..][0] == wl && theseYellows[j..][1..] == theseYellows[j + 1..];
      if wl.letter in g.blacks[wl.index] {
        return Some(InvalidWordleLetter(YellowAndBlack, wl));
      }
      if g.greens[wl.index] == Some(wl.letter) {
        return Some(InvalidWordleLetter(YellowAndGreen, wl));
      }
      // A yellow letter may have been black before only if it was also coloured.
      if wl.letter in Flatten(g.blacks) && Lookup(g.counts, wl.letter, 0) == 0 {
        return Some(InvalidWordleLetter(YellowButPreviouslyBlack, wl));
      }
    }
    return None;
  }

  /** The green validation loop. */
  method ValidateGreens(g: Guesses, theseCounts: map<char, int>, theseGreens: seq<WordleLetter>)
    returns (e: Option<ParseError>)
    requires Shaped(g)
    requires forall wl :: wl in theseGreens ==> wl.color == Green
    ensures e == FirstConflict(g, theseCounts, theseGreens)
  {
    for j := 0 to |theseGreens|
      invariant FirstConflict(g, theseCounts, theseGreens) == FirstConflict(g, theseCounts, theseGreens[j..])
    {
      var wl := theseGreens[j];
      assert theseGreens[j..][0] == wl && theseGreens[j..][1..] == theseGreens[j + 1..];
      if wl.letter in g.blacks[wl.index] {
        return Some(InvalidWordleLetter(GreenAndBlack, wl));
      }
      if wl.letter in g.yellows[wl.index] {
        return Some(InvalidWordleLetter(GreenAndYellow, wl));
      }
      // A green letter may have been black before only if it was also coloured.
      if wl.letter in Flatten(g.blacks) && Lookup(g.counts, wl.letter, 0) == 0 {
        return Some(InvalidWordleLetter(GreenButPreviouslyBlack, wl));
      }
    }
    return None;
  }

  /** The `these_counts` loop: count each yellow and green letter of the word. */
  method CountColoured(coloured: seq<WordleLetter>) returns (theseCounts: map<char, int>)
    ensures theseCounts == Tally(coloured)
  {
    theseCounts := map[];
    for j := 0 to |coloured|
      invariant theseCounts == Tally(coloured[..j])
    {
      assert coloured[..j + 1][..j] == coloured[..j];
      var c := coloured[j].letter;
      theseCounts := theseCounts[c := Lookup(theseCounts, c, 0) + 1];
    }
    assert coloured[..|coloured|] == coloured;
  }

  /** The commit loop: append each black and yellow letter to its slot, set
      each green slot, and raise the counts this word colours more often. */
  method CommitLetters(
    blacks0: seq<seq<char>>, yellows0: seq<seq<char>>, greens0: seq<Option<char>>, counts0: map<char, int>,
    theseCounts: map<char, int>, word: seq<WordleLetter>)
    returns (blacks: seq<seq<char>>, yellows: seq<seq<char>>, greens: seq<Option<char>>, counts: map<char, int>)
    requires Valid(Guesses(blacks0, yellows0, greens0, counts0))
    ensures Guesses(blacks, yellows, greens, counts) == Commit(Guesses(blacks0, yellows0, greens0, counts0), theseCounts, word)
  {
    blacks, yellows, greens, counts := blacks0, yellows0, greens0, counts0;
    ghost var g := Guesses(blacks0, yellows0, greens0, counts0);
    for j := 0 to |word|
      invariant Valid(Guesses(blacks, yellows, greens, counts))
      invariant Guesses(blacks, yellows, greens, counts) == Commit(g, theseCounts, word[..j])
    {
      assert word[..j + 1][..j] == word[..j];
      var wl := word[j];
      if wl.color == Black {
        blacks := blacks[wl.index := blacks[wl.index] + [wl.letter]];
      } else if wl.color == Yellow {
        yellows := yellows[wl.index := yellows[wl.index] + [wl.letter]];
      } else if wl.color == Green {
        greens := greens[wl.index := Some(wl.letter)];
      }
      // Only ever raise a count.
      if Lookup(theseCounts, wl.letter, 0) > Lookup(counts, wl.letter, 0) {
        counts := counts[wl.letter := theseCounts[wl.letter]];
      }
    }
    assert word[..|word|] == word;
  }

  /** The validation part of one iteration of the word loop: select the
      letters of each colour, count the coloured ones, then run the black,
      yellow and green loops, stopping at the first conflict. */
  method ValidateWord(g: Guesses, word: seq<WordleLetter>) returns (e: Option<ParseError>, theseCounts: map<char, int>)
    requires Shaped(g)
    ensures theseCounts == TheseCounts(word)
    ensures e == WordConflict(g, word)
  {
    var theseBlacks := OfColor(word, Black);
    var theseYellows := OfColor(word, Yellow);
    var theseGreens := OfColor(word, Green);

    theseCounts := CountColoured(theseYellows + theseGreens);

    e := ValidateBlacks(g, theseCounts, theseBlacks);
    if e.Some? {
      return;
    }
    e := ValidateYellows(g, theseCounts, theseYellows);
    if e.Some? {
      return;
    }
    e := ValidateGreens(g, theseCounts, theseGreens);
  }

  /** `parse_wordle_letters`, updating the four structures in place word by word. */
  method ParseWordleLetters(wordleLetters: seq<WordleLetter>) returns (r: Result<Guesses, ParseError>)
    ensures r == Parse(wordleLetters)
  {
    var blacks := NoLetters;
    var yellows := NoLetters;
    var greens := NoGreens;
    var counts: map<char, int> := map[];

    if |wordleLetters| % 5 != 0 {
      return Err(LengthNotMultipleOfFive);
    }
    var words := Words(wordleLetters);

    for k := 0 to |words|
      invariant Valid(Guesses(blacks, yellows, greens, counts))
      invariant Parse(wordleLetters) == Fold(Guesses(blacks, yellows, greens, counts), words[k..])
    {
      var word := words[k];
      assert words[k..][0] == word && words[k..][1..] == words[k + 1..];

      var e, theseCounts := ValidateWord(Guesses(blacks, yellows, greens, counts), word);
      if e.Some? {
        return Err(e.value);
      }

      blacks, yellows, greens, counts := CommitLetters(blacks, yellows, greens, counts, theseCounts, word);
    }
    return Ok(Guesses(blacks, yellows, greens, counts));
  }
}
