/** The Wordle game state and its key handling: typing, erasing, submitting a guess,
    colouring the on-screen keyboard and ending the game. */
module WordleApp {
  import opened Common
  import opened WordleBoard

  const MAX_GUESSES: nat := 6

  /** The banner above the keyboard. */
  datatype Message = NoMessage | WrongLength | NotInList | Won | Lost(word: string)

  // ---------------------------------------------------------------------------
  // Keyboard colouring (`usedLetters`)
  // ---------------------------------------------------------------------------

  function Lookup(used: map<char, Status>, c: char): Option<Status>
  {
    if c in used then Some(used[c]) else None
  }

  /** Some position below `n` holds `c` in both the guess and the target. */
  predicate ExactBelow(guess: string, target: string, n: nat, c: char)
    requires n <= |guess| && n <= |target|
  {
    exists j :: 0 <= j < n && guess[j] == c && target[j] == c
  }

  /** The colour of `c` once positions `0 .. n - 1` of the guess are processed: a letter
      not reached keeps its entry; one placed right somewhere is correct; one elsewhere
      in the target is present unless it was already correct; any other is absent. */
  function Expected(used: map<char, Status>, guess: string, target: string, n: nat, c: char): (r: Option<Status>)
    requires n <= |guess| && n <= |target|
    ensures c !in guess[..n] ==> r == Lookup(used, c)
    ensures c in guess[..n] ==> r.Some? && (r == Some(Absent) <==> c !in target)
    ensures KeyboardConsistent(used, target) && Lookup(used, c) == Some(Correct) ==> r == Some(Correct)
  {
    if c !in guess[..n] then Lookup(used, c)
    else if ExactBelow(guess, target, n, c) then Some(Correct)
    else if c in target then (if Lookup(used, c) == Some(Correct) then Some(Correct) else Some(Present))
    else Some(Absent)
  }

  /** The loop over the five letters of a submitted guess, on a copy of `usedLetters`. */
  method UpdateUsedLetters(used: map<char, Status>, guess: string, target: string)
    returns (newUsed: map<char, Status>)
    requires IsWord(guess) && IsWord(target)
    ensures forall c :: Lookup(newUsed, c) == Expected(used, guess, target, WORD_LENGTH, c)
  {
    newUsed := used;
    for i := 0 to WORD_LENGTH
      invariant forall c :: Lookup(newUsed, c) == Expected(used, guess, target, i, c)
    {
      var letter := guess[i];
      ghost var before := newUsed;
      if letter == target[i] {
        newUsed := newUsed[letter := Correct];
      } else if letter in target && Lookup(newUsed, letter) != Some(Correct) {
        newUsed := newUsed[letter := Present];
      } else if letter !in target {
        newUsed := newUsed[letter := Absent];
      }
      forall c ensures Lookup(newUsed, c) == Expected(used, guess, target, i + 1, c) {
        ExpectedStep(used, guess, target, i, c);
        if c != letter {
          assert Lookup(newUsed, c) == Lookup(before, c);
        }
      }
    }
  }

  lemma ExpectedStep(used: map<char, Status>, guess: string, target: string, i: nat, c: char)
    requires i < |guess| && i < |target|
    ensures c != guess[i] ==> Expected(used, guess, target, i + 1, c) == Expected(used, guess, target, i, c)
    ensures c == guess[i] && c == target[i] ==> Expected(used, guess, target, i + 1, c) == Some(Correct)
    ensures c == guess[i] && c != target[i] && c in target ==>
              Expected(used, guess, target, i + 1, c) ==
              (if Expected(used, guess, target, i, c) == Some(Correct) then Some(Correct) else Some(Present))
    ensures c == guess[i] && c !in target ==> Expected(used, guess, target, i + 1, c) == Some(Absent)
  {
    assert guess[..i + 1] == guess[..i] + [guess[i]];
    if c == guess[i] && c == target[i] {
      assert ExactBelow(guess, target, i + 1, c);
    }
    if c != guess[i] || c != target[i] {
      assert ExactBelow(guess, target, i + 1, c) <==> ExactBelow(guess, target, i, c);
    }
    if c == guess[i] && c !in target {
      assert !ExactBelow(guess, target, i + 1, c);
    }
  }

  /** What the keyboard may show: a letter is absent exactly when the target lacks it. */
  ghost predicate KeyboardConsistent(used: map<char, Status>, target: string)
  {
    forall c :: c in used ==> (used[c] == Absent <==> c !in target)
  }

  /** The three promises of the update: a correct key stays correct, absent is given
      only to letters outside the target, and keys not in the guess keep their
      colour; consistency with the target is kept. */
  lemma UpdateProperties(used: map<char, Status>, guess: string, target: string, c: char)
    requires IsWord(guess) && IsWord(target) && KeyboardConsistent(used, target)
    ensures Lookup(used, c) == Some(Correct) ==> Expected(used, guess, target, WORD_LENGTH, c) == Some(Correct)
    ensures Expected(used, guess, target, WORD_LENGTH, c) == Some(Absent) ==> c !in target
    ensures c !in guess ==> Expected(used, guess, target, WORD_LENGTH, c) == Lookup(used, c)
    ensures forall d :: Expected(used, guess, target, WORD_LENGTH, d).Some? ==>
              (Expected(used, guess, target, WORD_LENGTH, d) == Some(Absent) <==> d !in target)
  {
    assert guess[..WORD_LENGTH] == guess;
    forall d | Expected(used, guess, target, WORD_LENGTH, d).Some?
      ensures Expected(used, guess, target, WORD_LENGTH, d) == Some(Absent) <==> d !in target
    {
      if d in guess && ExactBelow(guess, target, WORD_LENGTH, d) {
        var j :| 0 <= j < WORD_LENGTH && guess[j] == d && target[j] == d;
        assert d in target;
      }
    }
  }

  // ---------------------------------------------------------------------------
  // Keydown mapping
  // ---------------------------------------------------------------------------

  predicate IsAsciiLetter(c: char)
  {
    'A' <= c <= 'Z' || 'a' <= c <= 'z'
  }

  function ToUpper(c: char): char
  {
    if 'a' <= c <= 'z' then (c as int - 32) as char else c
  }

  /** The window `keydown` listener: Backspace is BACK, Enter is ENTER, a single
      ASCII letter is its capital, every other key is ignored. */
  function KeyFromEvent(eventKey: string): (r: Option<string>)
    ensures r == Some("BACK") <==> eventKey == "Backspace"
    ensures r == Some("ENTER") <==> eventKey == "Enter"
    ensures r.Some? && r.value != "BACK" && r.value != "ENTER" <==> |eventKey| == 1 && IsAsciiLetter(eventKey[0])
    ensures r.Some? && |eventKey| == 1 ==>
              |r.value| == 1 && 'A' <= r.value[0] <= 'Z'
              && (r.value[0] == eventKey[0] || r.value[0] as int == eventKey[0] as int - 32)
  {
    if eventKey == "Backspace" then Some("BACK")
    else if eventKey == "Enter" then Some("ENTER")
    else if |eventKey| == 1 && IsAsciiLetter(eventKey[0]) then Some([ToUpper(eventKey[0])])
    else None
  }

  // ---------------------------------------------------------------------------
  // The game
  // ---------------------------------------------------------------------------

  /** The invariant of the game state, on values. */
  ghost predicate GameInvariant(target: string, words: seq<string>, guesses: seq<string>, gameOver: bool,
                                cursor: int, usedLetters: map<char, Status>)
  {
    && IsWord(target)
    && |guesses| <= MAX_GUESSES
    && (gameOver <==> |guesses| == MAX_GUESSES || target in guesses)
    && (forall i :: 0 <= i < |guesses| ==> IsWord(guesses[i]) && guesses[i] in words)
    && 0 <= cursor < WORD_LENGTH
    && KeyboardConsistent(usedLetters, target)
  }

  /** Recording an accepted guess on a running game keeps the invariant. */
  lemma SubmitKeepsInvariant(target: string, words: seq<string>, guesses: seq<string>,
                             usedLetters: map<char, Status>, guess: string, newUsed: map<char, Status>)
    requires GameInvariant(target, words, guesses, false, 0, usedLetters)
    requires IsWord(guess) && guess in words
    requires forall c :: Lookup(newUsed, c) == Expected(usedLetters, guess, target, WORD_LENGTH, c)
    ensures GameInvariant(target, words, guesses + [guess],
                          guess == target || |guesses| + 1 == MAX_GUESSES, 0, newUsed)
  {
    forall c | c in newUsed ensures newUsed[c] == Absent <==> c !in target {
      UpdateProperties(usedLetters, guess, target, c);
      assert Lookup(newUsed, c) == Expected(usedLetters, guess, target, WORD_LENGTH, c);
    }
    var gs := guesses + [guess];
    assert target in gs <==> target in guesses || guess == target;
    assert forall i :: 0 <= i < |guesses| ==> gs[i] == guesses[i];
  }

  class WordleGame {
    var target: string
    var words: seq<string>
    var guesses: seq<string>
    var currentGuess: string
    var gameOver: bool
    var message: Message
    var usedLetters: map<char, Status>
    var cursor: int
    var invalidGuess: bool

    /** The game is over exactly when the target was guessed or six guesses were
        made, so there are never more than six; only accepted words are recorded;
        the cursor stays on the row; the keyboard agrees with the target. */
    ghost predicate Valid()
      reads this
    {
      GameInvariant(target, words, guesses, gameOver, cursor, usedLetters)
    }

    /** A new game: the target drawn from the secret list, everything else empty. */
    constructor (target: string, words: seq<string>)
      requires IsWord(target)
      ensures Valid()
      ensures this.target == target && this.words == words
      ensures guesses == [] && currentGuess == "" && !gameOver && message == NoMessage
      ensures usedLetters == map[] && cursor == 0 && !invalidGuess
    {
      this.target := target;
      this.words := words;
      guesses := [];
      currentGuess := "";
      gameOver := false;
      message := NoMessage;
      usedLetters := map[];
      cursor := 0;
      invalidGuess := false;
    }

    /** `handleKeyPress`. */
    method HandleKeyPress(key: string)
      requires Valid()
      modifies this
      ensures Valid()
      ensures target == old(target) && words == old(words)
      // a finished game ignores every key
      ensures old(gameOver) ==> guesses == old(guesses) && currentGuess == old(currentGuess)
                                && gameOver && message == old(message) && usedLetters == old(usedLetters)
                                && cursor == old(cursor) && invalidGuess == old(invalidGuess)
      ensures !old(gameOver) && key == "BACK" ==>
                && currentGuess == (if old(currentGuess) == [] then [] else old(currentGuess)[..|old(currentGuess)| - 1])
                && cursor == (if old(cursor) > 0 then old(cursor) - 1 else 0)
                && guesses == old(guesses) && !gameOver && message == old(message)
                && usedLetters == old(usedLetters) && invalidGuess == old(invalidGuess)
      ensures !old(gameOver) && key == "ENTER" && |old(currentGuess)| != WORD_LENGTH ==>
                && message == WrongLength && invalidGuess
                && guesses == old(guesses) && currentGuess == old(currentGuess) && cursor == old(cursor)
                && !gameOver && usedLetters == old(usedLetters)
      ensures !old(gameOver) && key == "ENTER" && |old(currentGuess)| == WORD_LENGTH && old(currentGuess) !in words ==>
                && message == NotInList && invalidGuess
                && guesses == old(guesses) && currentGuess == old(currentGuess) && cursor == old(cursor)
                && !gameOver && usedLetters == old(usedLetters)
      ensures !old(gameOver) && key == "ENTER" && |old(currentGuess)| == WORD_LENGTH && old(currentGuess) in words ==>
                && guesses == old(guesses) + [old(currentGuess)]
                && currentGuess == "" && cursor == 0 && invalidGuess == old(invalidGuess)
                && (forall c :: Lookup(usedLetters, c) == Expected(old(usedLetters), old(currentGuess), target, WORD_LENGTH, c))
                && (gameOver <==> old(currentGuess) == target || |guesses| == MAX_GUESSES)
                && message == (if old(currentGuess) == target then Won
                               else if |guesses| == MAX_GUESSES then Lost(target)
                               else old(message))
      ensures !old(gameOver) && key != "BACK" && key != "ENTER" ==>
                && currentGuess == (if |old(currentGuess)| < WORD_LENGTH then old(currentGuess) + key else old(currentGuess))
                && cursor == (if |old(currentGuess)| < WORD_LENGTH then (if old(cursor) < 4 then old(cursor) + 1 else 4)
                              else old(cursor))
                && guesses == old(guesses) && !gameOver && message == old(message)
                && usedLetters == old(usedLetters) && invalidGuess == old(invalidGuess)
    {
      if gameOver {
        return;
      }
      if key == "BACK" {
        EraseLetter();
      } else if key == "ENTER" {
        SubmitGuess();
      } else {
        TypeLetter(key);
      }
    }

    /** BACK: the last letter of the row goes, the cursor moves one left. */
    method EraseLetter()
      requires Valid() && !gameOver
      modifies this
      ensures Valid()
      ensures target == old(target) && words == old(words)
      ensures currentGuess == (if old(currentGuess) == [] then [] else old(currentGuess)[..|old(currentGuess)| - 1])
      ensures cursor == (if old(cursor) > 0 then old(cursor) - 1 else 0)
      ensures guesses == old(guesses) && !gameOver && message == old(message)
      ensures usedLetters == old(usedLetters) && invalidGuess == old(invalidGuess)
    {
      if currentGuess != [] {
        currentGuess := currentGuess[..|currentGuess| - 1];
      }
      cursor := if cursor > 0 then cursor - 1 else 0;
    }

    /** ENTER: a row of the wrong length or outside the list raises a warning;
        otherwise it becomes a guess, the keyboard is recoloured and the game may end. */
    method SubmitGuess()
      requires Valid() && !gameOver
      modifies this
      ensures Valid()
      ensures target == old(target) && words == old(words)
      ensures |old(currentGuess)| != WORD_LENGTH ==>
                && message == WrongLength && invalidGuess
                && guesses == old(guesses) && currentGuess == old(currentGuess) && cursor == old(cursor)
                && !gameOver && usedLetters == old(usedLetters)
      ensures |old(currentGuess)| == WORD_LENGTH && old(currentGuess) !in words ==>
                && message == NotInList && invalidGuess
                && guesses == old(guesses) && currentGuess == old(currentGuess) && cursor == old(cursor)
                && !gameOver && usedLetters == old(usedLetters)
      ensures |old(currentGuess)| == WORD_LENGTH && old(currentGuess) in words ==>
                && guesses == old(guesses) + [old(currentGuess)]
                && currentGuess == "" && cursor == 0 && invalidGuess == old(invalidGuess)
                && (forall c :: Lookup(usedLetters, c) == Expected(old(usedLetters), old(currentGuess), target, WORD_LENGTH, c))
                && (gameOver <==> old(currentGuess) == target || |guesses| == MAX_GUESSES)
                && message == (if old(currentGuess) == target then Won
                               else if |guesses| == MAX_GUESSES then Lost(target)
                               else old(message))
    {
      if |currentGuess| != WORD_LENGTH {
        message := WrongLength;
        invalidGuess := true;
        return;
      }
      if currentGuess !in words {
        message := NotInList;
        invalidGuess := true;
        return;
      }
      var guess := currentGuess;
      var newUsed := UpdateUsedLetters(usedLetters, guess, target);
      var gs := guesses + [guess];
      var over := guess == target || |gs| == MAX_GUESSES;
      var msg := if guess == target then Won else if |gs| == MAX_GUESSES then Lost(target) else message;
      SubmitKeepsInvariant(target, words, guesses, usedLetters, guess, newUsed);
      guesses, currentGuess, cursor, usedLetters, gameOver, message := gs, "", 0, newUsed, over, msg;
    }

    /** A letter key: appended while the row has room, the cursor following it up to
        the last box. */
    method TypeLetter(key: string)
      requires Valid() && !gameOver
      modifies this
      ensures Valid()
      ensures target == old(target) && words == old(words)
      ensures currentGuess == (if |old(currentGuess)| < WORD_LENGTH then old(currentGuess) + key else old(currentGuess))
      ensures cursor == (if |old(currentGuess)| < WORD_LENGTH then (if old(cursor) < 4 then old(cursor) + 1 else 4)
                         else old(cursor))
      ensures guesses == old(guesses) && !gameOver && message == old(message)
      ensures usedLetters == old(usedLetters) && invalidGuess == old(invalidGuess)
    {
      if |currentGuess| < WORD_LENGTH {
        currentGuess := currentGuess + key;
        cursor := if cursor < 4 then cursor + 1 else 4;
      }
    }

    /** The timer set by a guess of the wrong length: the warning goes away. */
    method ExpireLengthWarning()
      requires Valid()
      modifies this
      ensures Valid()
      ensures !invalidGuess && message == NoMessage
      ensures target == old(target) && words == old(words) && guesses == old(guesses)
      ensures currentGuess == old(currentGuess) && cursor == old(cursor)
      ensures gameOver == old(gameOver) && usedLetters == old(usedLetters)
    {
      invalidGuess := false;
      message := NoMessage;
    }

    /** The timer set by a word outside the list: the warning goes away and the row is
        cleared. */
    method ExpireInvalidWordWarning()
      requires Valid()
      modifies this
      ensures Valid()
      ensures !invalidGuess && message == NoMessage && currentGuess == "" && cursor == 0
      ensures target == old(target) && words == old(words) && guesses == old(guesses)
      ensures gameOver == old(gameOver) && usedLetters == old(usedLetters)
    {
      invalidGuess := false;
      currentGuess := "";
      cursor := 0;
      message := NoMessage;
    }
  }
}
