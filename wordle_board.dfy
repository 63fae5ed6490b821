/** The Wordle board: the six displayed rows and the two-pass colouring of a
    submitted guess against the target, which handles repeated letters by letting
    correct positions consume their target letter first. */
module WordleBoard {
  import opened Common

  const ROWS: nat := 6

  datatype Status = Correct | Present | Absent

  function Min(a: int, b: int): int
  {
    if a <= b then a else b
  }

  // ---------------------------------------------------------------------------
  // The reference scoring
  // ---------------------------------------------------------------------------

  /** Positions below `n` where guess and target both hold `c`. */
  function CorrectBelow(guess: string, target: string, n: nat, c: char): nat
    requires n <= |guess| && n <= |target|
  {
    if n == 0 then 0
    else CorrectBelow(guess, target, n - 1, c) + (if guess[n - 1] == target[n - 1] && guess[n - 1] == c then 1 else 0)
  }

  /** Positions below `n` where the guess holds `c` but the target does not. */
  function MissBelow(guess: string, target: string, n: nat, c: char): nat
    requires n <= |guess| && n <= |target|
  {
    if n == 0 then 0
    else MissBelow(guess, target, n - 1, c) + (if guess[n - 1] != target[n - 1] && guess[n - 1] == c then 1 else 0)
  }

  /** Copies of `c` in the target left over once the correct positions took theirs. */
  function Spare(guess: string, target: string, c: char): int
    requires IsWord(guess) && IsWord(target)
  {
    multiset(target)[c] - CorrectBelow(guess, target, WORD_LENGTH, c)
  }

  /** Position `i` is correct when the letters agree; otherwise it is present when the
      misplaced copies of its letter to its left have not yet used up the spare
      copies in the target. */
  function StatusAt(guess: string, target: string, i: nat): (r: Status)
    requires IsWord(guess) && IsWord(target) && i < WORD_LENGTH
    ensures r == Correct <==> guess[i] == target[i]
    ensures r == Present ==> guess[i] in target
  {
    SpareInTarget(guess, target, guess[i]);
    if guess[i] == target[i] then Correct
    else if MissBelow(guess, target, i, guess[i]) < Spare(guess, target, guess[i]) then Present
    else Absent
  }

  /** A letter with a spare copy occurs in the target. */
  lemma SpareInTarget(guess: string, target: string, c: char)
    requires IsWord(guess) && IsWord(target)
    ensures Spare(guess, target, c) > 0 ==> c in target
  {
  }

  function Score(guess: string, target: string): (r: seq<Status>)
    requires IsWord(guess) && IsWord(target)
    ensures |r| == WORD_LENGTH
    ensures forall i :: 0 <= i < WORD_LENGTH ==> (r[i] == Correct <==> guess[i] == target[i])
    ensures (forall i :: 0 <= i < WORD_LENGTH ==> r[i] == Correct) <==> guess == target
  {
    var r := seq(WORD_LENGTH, i requires 0 <= i < WORD_LENGTH => StatusAt(guess, target, i));
    assert (forall i :: 0 <= i < WORD_LENGTH ==> r[i] == Correct) ==> guess == target by {
      if forall i :: 0 <= i < WORD_LENGTH ==> r[i] == Correct {
        forall i | 0 <= i < WORD_LENGTH ensures guess[i] == target[i] {
          assert r[i] == StatusAt(guess, target, i);
        }
      }
    }
    r
  }

  // ---------------------------------------------------------------------------
  // `getLetterStatuses`
  // ---------------------------------------------------------------------------

  /** `getLetterStatuses`: count the target's letters, mark the correct positions and
      take their letters off the count, then mark present every other position whose
      letter still has a positive count, taking it off in turn. */
  method GetLetterStatuses(guess: string, target: string) returns (statuses: array<Status>)
    requires IsWord(guess) && IsWord(target)
    ensures fresh(statuses)
    ensures statuses[..] == Score(guess, target)
  {
    statuses := new Status[WORD_LENGTH](_ => Absent);
    var count := CountLetters(target);
    count := MarkCorrect(guess, target, statuses, count);
    MarkPresent(guess, target, statuses, count);
  }

  /** The first loop: `count[c]` is the number of copies of `c` in the target, and only
      the target's letters have an entry. */
  method CountLetters(target: string) returns (count: map<char, int>)
    requires IsWord(target)
    ensures forall c :: c in count <==> c in target
    ensures forall c :: c in count ==> count[c] == multiset(target)[c]
  {
    count := map[];
    for i := 0 to WORD_LENGTH
      invariant forall c :: c in count <==> c in target[..i]
      invariant forall c :: c in count ==> count[c] == multiset(target[..i])[c]
    {
      var t := target[i];
      count := count[t := (if t in count then count[t] else 0) + 1];
      assert target[..i + 1] == target[..i] + [t];
    }
    assert target[..WORD_LENGTH] == target;
  }

  /** The state of the second loop after positions `0 .. i - 1`. */
  ghost predicate CorrectPass(guess: string, target: string, i: nat, count: map<char, int>, st: seq<Status>)
    requires IsWord(guess) && IsWord(target) && i <= WORD_LENGTH
  {
    && |st| == WORD_LENGTH
    && (forall c :: c in count <==> c in target)
    && (forall c :: c in count ==> count[c] == multiset(target)[c] - CorrectBelow(guess, target, i, c))
    && (forall j :: 0 <= j < WORD_LENGTH ==> st[j] == (if j < i && guess[j] == target[j] then Correct else Absent))
  }

  lemma CorrectPassStep(guess: string, target: string, i: nat, count: map<char, int>, st: seq<Status>)
    requires IsWord(guess) && IsWord(target) && i < WORD_LENGTH
    requires CorrectPass(guess, target, i, count, st)
    ensures guess[i] == target[i] ==> guess[i] in count
    ensures CorrectPass(guess, target, i + 1,
                        if guess[i] == target[i] then count[guess[i] := count[guess[i]] - 1] else count,
                        if guess[i] == target[i] then st[i := Correct] else st)
  {
    assert forall c :: CorrectBelow(guess, target, i + 1, c)
                       == CorrectBelow(guess, target, i, c) + (if guess[i] == target[i] && guess[i] == c then 1 else 0);
    assert guess[i] == target[i] ==> target[i] in target;
  }

  lemma CorrectPassDone(guess: string, target: string, count: map<char, int>, st: seq<Status>)
    requires IsWord(guess) && IsWord(target)
    requires CorrectPass(guess, target, WORD_LENGTH, count, st)
    ensures PresentPass(guess, target, 0, count, st)
  {
    forall c ensures Spare(guess, target, c) >= 0 {
      SpareNonNegative(guess, target, c);
    }
  }

  /** The second loop: mark every agreeing position correct and take its letter off. */
  method MarkCorrect(guess: string, target: string, statuses: array<Status>, count0: map<char, int>)
    returns (count: map<char, int>)
    requires IsWord(guess) && IsWord(target) && statuses.Length == WORD_LENGTH
    requires forall j :: 0 <= j < WORD_LENGTH ==> statuses[j] == Absent
    requires forall c :: c in count0 <==> c in target
    requires forall c :: c in count0 ==> count0[c] == multiset(target)[c]
    modifies statuses
    ensures PresentPass(guess, target, 0, count, statuses[..])
  {
    count := count0;
    assert statuses[..] == seq(WORD_LENGTH, j => Absent);
    for i := 0 to WORD_LENGTH
      invariant CorrectPass(guess, target, i, count, statuses[..])
    {
      ghost var st := statuses[..];
      CorrectPassStep(guess, target, i, count, st);
      if guess[i] == target[i] {
        statuses[i] := Correct;
        assert statuses[..] == st[i := Correct];
        count := count[guess[i] := count[guess[i]] - 1];
      }
    }
    CorrectPassDone(guess, target, count, statuses[..]);
  }

  /** The third loop: mark present every other position whose letter still has a
      positive count, and take it off. */
  method MarkPresent(guess: string, target: string, statuses: array<Status>, count0: map<char, int>)
    requires IsWord(guess) && IsWord(target) && statuses.Length == WORD_LENGTH
    requires PresentPass(guess, target, 0, count0, statuses[..])
    modifies statuses
    ensures statuses[..] == Score(guess, target)
  {
    var count := count0;
    for i := 0 to WORD_LENGTH
      invariant PresentPass(guess, target, i, count, statuses[..])
    {
      var c := guess[i];
      ghost var st := statuses[..];
      PresentPassStep(guess, target, i, count, st);
      if statuses[i] != Correct && c in count && count[c] > 0 {
        statuses[i] := Present;
        assert statuses[..] == st[i := Present];
        count := count[c := count[c] - 1];
      }
    }
  }

  /** The spare copies of each target letter still unclaimed once the misplaced
      copies below `i` have claimed theirs. */
  ghost predicate SpareLeft(guess: string, target: string, i: nat, count: map<char, int>)
    requires IsWord(guess) && IsWord(target) && i <= WORD_LENGTH
  {
    && (forall c :: c in count <==> c in target)
    && (forall c :: c in count ==>
          count[c] == Spare(guess, target, c) - Min(MissBelow(guess, target, i, c), Spare(guess, target, c)))
  }

  /** The state of the third loop before position `i`: the count holds the spare copies
      of each target letter not yet handed out, positions before `i` carry their
      final status and later ones still show the second loop's marks. */
  ghost predicate PresentPass(guess: string, target: string, i: nat, count: map<char, int>, st: seq<Status>)
    requires IsWord(guess) && IsWord(target) && i <= WORD_LENGTH
  {
    && |st| == WORD_LENGTH
    && SpareLeft(guess, target, i, count)
    && (forall j :: 0 <= j < i ==> st[j] == StatusAt(guess, target, j))
    && (forall j :: i <= j < WORD_LENGTH ==> st[j] == (if guess[j] == target[j] then Correct else Absent))
  }

  /** A misplaced letter is marked present exactly when a spare copy is left. */
  lemma PresentDecision(guess: string, target: string, i: nat, count: map<char, int>)
    requires IsWord(guess) && IsWord(target) && i < WORD_LENGTH
    requires SpareLeft(guess, target, i, count) && guess[i] != target[i]
    ensures (guess[i] in count && count[guess[i]] > 0) <==> StatusAt(guess, target, i) == Present
  {
    var c := guess[i];
    SpareNonNegative(guess, target, c);
    if c !in count {
      CorrectBelowAtMostTarget(guess, target, WORD_LENGTH, c);
      assert target[..WORD_LENGTH] == target;
    }
  }

  lemma SpareLeftStep(guess: string, target: string, i: nat, count: map<char, int>)
    requires IsWord(guess) && IsWord(target) && i < WORD_LENGTH
    requires SpareLeft(guess, target, i, count)
    ensures guess[i] != target[i] && guess[i] in count && count[guess[i]] > 0 ==>
              SpareLeft(guess, target, i + 1, count[guess[i] := count[guess[i]] - 1])
    ensures !(guess[i] != target[i] && guess[i] in count && count[guess[i]] > 0) ==>
              SpareLeft(guess, target, i + 1, count)
  {
    var c := guess[i];
    SpareNonNegative(guess, target, c);
    forall d | d != c ensures MissBelow(guess, target, i + 1, d) == MissBelow(guess, target, i, d) {
    }
    if c !in count {
      CorrectBelowAtMostTarget(guess, target, WORD_LENGTH, c);
      assert target[..WORD_LENGTH] == target;
    }
  }

  lemma PresentPassStep(guess: string, target: string, i: nat, count: map<char, int>, st: seq<Status>)
    requires IsWord(guess) && IsWord(target) && i < WORD_LENGTH
    requires PresentPass(guess, target, i, count, st)
    ensures st[i] != Correct && guess[i] in count && count[guess[i]] > 0 ==>
              PresentPass(guess, target, i + 1, count[guess[i] := count[guess[i]] - 1], st[i := Present])
    ensures !(st[i] != Correct && guess[i] in count && count[guess[i]] > 0) ==>
              PresentPass(guess, target, i + 1, count, st)
  {
    assert st[i] == (if guess[i] == target[i] then Correct else Absent);
    SpareLeftStep(guess, target, i, count);
    if guess[i] != target[i] {
      PresentDecision(guess, target, i, count);
    }
  }

  // ---------------------------------------------------------------------------
  // Properties of the scoring
  // ---------------------------------------------------------------------------

  lemma {:induction false} CorrectBelowAtMostTarget(guess: string, target: string, n: nat, c: char)
    requires n <= |guess| && n <= |target|
    ensures CorrectBelow(guess, target, n, c) <= multiset(target[..n])[c]
  {
    if n > 0 {
      CorrectBelowAtMostTarget(guess, target, n - 1, c);
      assert target[..n] == target[..n - 1] + [target[n - 1]];
    }
  }

  lemma SpareNonNegative(guess: string, target: string, c: char)
    requires IsWord(guess) && IsWord(target)
    ensures Spare(guess, target, c) >= 0
  {
    CorrectBelowAtMostTarget(guess, target, WORD_LENGTH, c);
    assert target[..WORD_LENGTH] == target;
  }

  /** A present mark is only given to a letter the target contains. */
  lemma PresentInTarget(guess: string, target: string, i: nat)
    requires IsWord(guess) && IsWord(target) && i < WORD_LENGTH
    requires Score(guess, target)[i] == Present
    ensures guess[i] in target
  {
    assert multiset(target)[guess[i]] > 0;
  }

  lemma {:induction false} MissBelowMonotone(guess: string, target: string, j: nat, i: nat, c: char)
    requires j < i <= |guess| && i <= |target|
    requires guess[j] == c && guess[j] != target[j]
    ensures MissBelow(guess, target, j, c) < MissBelow(guess, target, i, c)
  {
    if i > j + 1 {
      MissBelowMonotone(guess, target, j, i - 1, c);
    }
  }

  /** Present marks go to the leftmost misplaced copies of a letter: a present mark at
      `i` means every misplaced copy to its left is present too. */
  lemma PresentLeftmost(guess: string, target: string, j: nat, i: nat)
    requires IsWord(guess) && IsWord(target) && j < i < WORD_LENGTH
    requires guess[j] == guess[i] && guess[j] != target[j]
    requires Score(guess, target)[i] == Present
    ensures Score(guess, target)[j] == Present
  {
    MissBelowMonotone(guess, target, j, i, guess[i]);
  }

  /** Positions below `n` holding `c` whose status is not absent. */
  function Marked(guess: string, st: seq<Status>, n: nat, c: char): nat
    requires n <= |guess| && n <= |st|
  {
    if n == 0 then 0
    else Marked(guess, st, n - 1, c) + (if guess[n - 1] == c && st[n - 1] != Absent then 1 else 0)
  }

  lemma {:induction false} MarkedSplit(guess: string, target: string, n: nat, c: char)
    requires IsWord(guess) && IsWord(target) && n <= WORD_LENGTH
    ensures Marked(guess, Score(guess, target), n, c) ==
            CorrectBelow(guess, target, n, c) + Min(MissBelow(guess, target, n, c), Spare(guess, target, c))
  {
    SpareNonNegative(guess, target, c);
    if n > 0 {
      MarkedSplit(guess, target, n - 1, c);
    }
  }

  lemma {:induction false} GuessCount(guess: string, target: string, n: nat, c: char)
    requires n <= |guess| && n <= |target|
    ensures multiset(guess[..n])[c] == CorrectBelow(guess, target, n, c) + MissBelow(guess, target, n, c)
  {
    if n > 0 {
      GuessCount(guess, target, n - 1, c);
      assert guess[..n] == guess[..n - 1] + [guess[n - 1]];
    }
  }

  /** For every letter, the positions holding it that are not absent number exactly the
      smaller of its count in the guess and its count in the target; in particular the
      correct and present marks of a letter never exceed its count in the target. */
  lemma NonAbsentIsMin(guess: string, target: string, c: char)
    requires IsWord(guess) && IsWord(target)
    ensures Marked(guess, Score(guess, target), WORD_LENGTH, c) == Min(multiset(guess)[c], multiset(target)[c])
    ensures Marked(guess, Score(guess, target), WORD_LENGTH, c) <= multiset(target)[c]
  {
    MarkedSplit(guess, target, WORD_LENGTH, c);
    GuessCount(guess, target, WORD_LENGTH, c);
    assert guess[..WORD_LENGTH] == guess;
  }

  // ---------------------------------------------------------------------------
  // The displayed rows
  // ---------------------------------------------------------------------------

  /** `rows`: six strings, row `i` the `i`-th guess, the current guess at the first
      free row, empty strings after it. */
  function Rows(guesses: seq<string>, currentGuess: string): (r: seq<string>)
    ensures |r| == ROWS
  {
    seq(ROWS, i requires 0 <= i < ROWS =>
      if i < |guesses| then guesses[i] else if i == |guesses| then currentGuess else "")
  }

  /** With a free row: the guesses, then the current guess, then blanks. */
  lemma RowsLayout(guesses: seq<string>, currentGuess: string)
    requires |guesses| < ROWS
    ensures Rows(guesses, currentGuess) == guesses + [currentGuess] + seq(ROWS - 1 - |guesses|, _ => "")
  {
    var r := Rows(guesses, currentGuess);
    var s := guesses + [currentGuess] + seq(ROWS - 1 - |guesses|, _ => "");
    assert |s| == ROWS;
    forall i | 0 <= i < ROWS ensures r[i] == s[i] {
      if i < |guesses| {
        assert s[i] == guesses[i];
      } else if i == |guesses| {
        assert s[i] == currentGuess;
      } else {
        assert s[i] == seq(ROWS - 1 - |guesses|, _ => "")[i - |guesses| - 1];
      }
    }
  }

  /** With six guesses the current guess is not shown. */
  lemma RowsFull(guesses: seq<string>, currentGuess: string)
    requires |guesses| >= ROWS
    ensures Rows(guesses, currentGuess) == guesses[..ROWS]
  {
  }
}
