/** One coloured letter of a guess, and the validation `WordleLetter` performs
    when it is constructed (src/wordle_cheater/cheater.py, lines 7-28). */
module Letters {
  import opened Wrappers

  /** The three colours a guessed letter can be given. */
  datatype Color = Black | Yellow | Green

  /** The string the source uses for each colour. */
  function ColorName(c: Color): string {
    match c
    case Black => "black"
    case Yellow => "yellow"
    case Green => "green"
  }

  /** The colour a string names, if it is one of the three accepted names. */
  function ColorNamed(name: string): (c: Option<Color>)
    ensures c.Some? <==> name in {"black", "yellow", "green"}
    ensures c.Some? ==> ColorName(c.value) == name
  {
    if name == "black" then Some(Black)
    else if name == "yellow" then Some(Yellow)
    else if name == "green" then Some(Green)
    else None
  }

  /** The `index` argument as the constructor receives it: left out (`None`),
      an `int` (Python's `bool` is an `int` too), or a value of another type. */
  datatype IndexArg = NoIndex | IntIndex(i: int) | NonIntIndex

  /** A position in a five-letter word. */
  type Position = i: int | 0 <= i < 5

  /** A validated coloured letter. Every colour carries a position, black included. */
  datatype WordleLetter = WordleLetter(letter: char, color: Color, index: Position)

  /** The four `ValueError` messages of the constructor; both index checks share one. */
  datatype LetterError =
    | NotEnglishLetter   // "`letter` must be an english letter."
    | NotLowercase       // "`letter` must be lowercase."
    | BadColor           // "`color` must be one of ['black', 'yellow', 'green']"
    | BadIndex           // "`index` must be integer in range [0, 5)"

  predicate IsLower(c: char) { 'a' <= c <= 'z' }
  predicate IsUpper(c: char) { 'A' <= c <= 'Z' }

  /** `str.upper` and `str.lower`, on ASCII letters. */
  function UpperChar(c: char): char { if IsLower(c) then (c as int - 32) as char else c }
  function LowerChar(c: char): char { if IsUpper(c) then (c as int + 32) as char else c }

  function Upper(s: string): (r: string)
    ensures |r| == |s|
  {
    seq(|s|, i requires 0 <= i < |s| => UpperChar(s[i]))
  }

  function Lower(s: string): (r: string)
    ensures |r| == |s|
  {
    seq(|s|, i requires 0 <= i < |s| => LowerChar(s[i]))
  }

  /** The alphabet the constructor checks against holds one-character strings. */
  predicate SingleCharacters(letters: set<string>) {
    forall s :: s in letters ==> |s| == 1
  }

  /** The English alphabet as upper-case one-character strings. */
  const EnglishLetters: set<string> := set c: char | IsUpper(c) :: [c]

  /** `WordleLetter(letter, color, index)`: the checks run in the source's order
      and the first one that fails is the error. `letters` is the alphabet of
      the dictionary module. */
  function NewWordleLetter(letters: set<string>, letter: string, color: string, index: IndexArg)
    : (r: Result<WordleLetter, LetterError>)
    requires SingleCharacters(letters)
    ensures r.Ok? ==> [r.value.letter] == letter && ColorName(r.value.color) == color
                      && index == IntIndex(r.value.index)
  {
    if Upper(letter) !in letters then Err(NotEnglishLetter)
    else if Lower(letter) != letter then Err(NotLowercase)
    else if ColorNamed(color).None? then Err(BadColor)
    else if !index.IntIndex? then Err(BadIndex)
    else if !(0 <= index.i < 5) then Err(BadIndex)
    else Ok(WordleLetter(letter[0], ColorNamed(color).value, index.i))
  }

  predicate IsAsciiLetter(c: char) { IsLower(c) || IsUpper(c) }

  lemma UpperInEnglish(letter: string)
    ensures Upper(letter) in EnglishLetters <==> |letter| == 1 && IsAsciiLetter(letter[0])
  {
    if |letter| == 1 {
      assert Upper(letter) == [UpperChar(letter[0])];
      if IsAsciiLetter(letter[0]) {
        assert IsUpper(UpperChar(letter[0]));
      }
    }
  }

  /** Over the English alphabet: construction succeeds exactly for one
      lower-case English letter, a colour named black, yellow or green, and an
      int index in [0, 5); each error is reported exactly when every earlier
      check passed and its own check fails. */
  lemma NewWordleLetterEnglish(letter: string, color: string, index: IndexArg)
    ensures SingleCharacters(EnglishLetters)
    ensures var r := NewWordleLetter(EnglishLetters, letter, color, index);
      && (r.Ok? <==> |letter| == 1 && IsLower(letter[0]) && color in {"black", "yellow", "green"}
                     && index.IntIndex? && 0 <= index.i < 5)
      && (r == Err(NotEnglishLetter) <==> !(|letter| == 1 && IsAsciiLetter(letter[0])))
      && (r == Err(NotLowercase) <==> |letter| == 1 && IsUpper(letter[0]))
      && (r == Err(BadColor) <==> |letter| == 1 && IsLower(letter[0])
                                  && color !in {"black", "yellow", "green"})
      && (r == Err(BadIndex) <==> |letter| == 1 && IsLower(letter[0])
                                  && color in {"black", "yellow", "green"}
                                  && !(index.IntIndex? && 0 <= index.i < 5))
  {
    UpperInEnglish(letter);
    if |letter| == 1 {
      assert Lower(letter) == [LowerChar(letter[0])];
    }
  }

  /** A black letter without an index is refused, whatever the letter. */
  lemma BlackNeedsIndex(letters: set<string>, letter: string)
    requires SingleCharacters(letters)
    requires Upper(letter) in letters && Lower(letter) == letter
    ensures NewWordleLetter(letters, letter, "black", NoIndex) == Err(BadIndex)
  {
    assert ColorNamed("black") == Some(Black);
  }

  /** Rebuilding a letter from its own fields gives the same letter. */
  lemma {:induction false} WordleLetterRoundTrip(wl: WordleLetter)
    requires IsLower(wl.letter)
    ensures SingleCharacters(EnglishLetters)
    ensures NewWordleLetter(EnglishLetters, [wl.letter], ColorName(wl.color), IntIndex(wl.index)) == Ok(wl)
  {
    UpperInEnglish([wl.letter]);
    assert Lower([wl.letter]) == [wl.letter];
    match wl.color
    case Black => assert ColorNamed("black") == Some(Black);
    case Yellow => assert ColorNamed("yellow") == Some(Yellow);
    case Green => assert ColorNamed("green") == Some(Green);
  }
}
