/** The Jackpot game: the player drags a letter onto another row of the same column
    to exchange the two letters; the game is won when the rows, read as words, are
    the original words in some order. */
module JackpotGame {
  import opened Common
  import opened JackpotFindWords

  /** The word count the component asks the generator for. */
  const DEFAULT_WORD_COUNT: int := 3

  /** The tile a drag started from. */
  datatype Cell = Cell(row: nat, col: nat)

  // ---------------------------------------------------------------------------
  // String order and sorting (`Array.prototype.sort` on strings)
  // ---------------------------------------------------------------------------

  /** The default `sort` order on strings: code unit by code unit, a proper prefix
      first. */
  predicate LessEq(a: string, b: string)
  {
    if a == [] then true
    else if b == [] then false
    else if a[0] != b[0] then a[0] < b[0]
    else LessEq(a[1..], b[1..])
  }

  lemma {:induction false} LessEqReflexive(a: string)
    ensures LessEq(a, a)
  {
    if a != [] {
      LessEqReflexive(a[1..]);
    }
  }

  lemma {:induction false} LessEqTotal(a: string, b: string)
    ensures LessEq(a, b) || LessEq(b, a)
  {
    if a != [] && b != [] && a[0] == b[0] {
      LessEqTotal(a[1..], b[1..]);
    }
  }

  lemma {:induction false} LessEqAntisymmetric(a: string, b: string)
    requires LessEq(a, b) && LessEq(b, a)
    ensures a == b
  {
    if a != [] && b != [] {
      LessEqAntisymmetric(a[1..], b[1..]);
      assert a == [a[0]] + a[1..] && b == [b[0]] + b[1..];
    }
  }

  lemma {:induction false} LessEqTransitive(a: string, b: string, c: string)
    requires LessEq(a, b) && LessEq(b, c)
    ensures LessEq(a, c)
  {
    if a != [] && b != [] && c != [] && a[0] == b[0] && b[0] == c[0] {
      LessEqTransitive(a[1..], b[1..], c[1..]);
    }
  }

  predicate Sorted(s: seq<string>)
  {
    forall i, j :: 0 <= i < j < |s| ==> LessEq(s[i], s[j])
  }

  function Insert(x: string, s: seq<string>): (r: seq<string>)
    ensures multiset(r) == multiset(s) + multiset{x} && |r| == |s| + 1
  {
    if s == [] then [x]
    else if LessEq(x, s[0]) then [x] + s
    else
      assert s == [s[0]] + s[1..];
      [s[0]] + Insert(x, s[1..])
  }

  lemma {:induction false} InsertSorted(x: string, s: seq<string>)
    requires Sorted(s)
    ensures Sorted(Insert(x, s))
  {
    if s != [] && !LessEq(x, s[0]) {
      InsertSorted(x, s[1..]);
      LessEqTotal(x, s[0]);
      var r := Insert(x, s[1..]);
      forall j | 0 <= j < |r| ensures LessEq(s[0], r[j]) {
        assert r[j] in multiset(s[1..]) + multiset{x};
        if r[j] != x {
          assert r[j] in s[1..];
        }
      }
    }
    else if s != [] {
      forall j | 0 <= j < |s| ensures LessEq(x, s[j]) {
        if j > 0 {
          LessEqTransitive(x, s[0], s[j]);
        }
      }
    }
  }

  /** An insertion sort: the sorted permutation of `s`. */
  function Sort(s: seq<string>): (r: seq<string>)
    ensures multiset(r) == multiset(s) && |r| == |s|
  {
    if s == [] then []
    else
      assert s == [s[0]] + s[1..];
      Insert(s[0], Sort(s[1..]))
  }

  lemma {:induction false} SortSorted(s: seq<string>)
    ensures Sorted(Sort(s))
  {
    if s != [] {
      SortSorted(s[1..]);
      InsertSorted(s[0], Sort(s[1..]));
    }
  }

  /** The head of a sorted list is below every element of it. */
  lemma HeadIsLeast(a: seq<string>, x: string)
    requires Sorted(a) && x in a
    ensures LessEq(a[0], x)
  {
    var i :| 0 <= i < |a| && a[i] == x;
    if i == 0 {
      LessEqReflexive(x);
    }
  }

  lemma ConsEqual<T>(a: seq<T>, b: seq<T>)
    requires a != [] && b != [] && a[0] == b[0] && a[1..] == b[1..]
    ensures a == b
  {
    assert a == [a[0]] + a[1..];
    assert b == [b[0]] + b[1..];
  }

  /** Two sorted lists holding the same strings are the same list. */
  lemma {:induction false} SortedUnique(a: seq<string>, b: seq<string>)
    requires Sorted(a) && Sorted(b) && multiset(a) == multiset(b)
    ensures a == b
  {
    if a != [] {
      assert |b| == |a| by {
        assert |multiset(a)| == |multiset(b)|;
      }
      assert a[0] in multiset(b) && b[0] in multiset(a);
      HeadIsLeast(b, a[0]);
      HeadIsLeast(a, b[0]);
      LessEqAntisymmetric(a[0], b[0]);
      TailMultisetOf(a);
      TailMultisetOf(b);
      SortedUnique(a[1..], b[1..]);
      ConsEqual(a, b);
    }
  }

  /** The win test: the sorted current words equal the sorted original words, which
      holds exactly when the current words are the original words in some order. */
  predicate IsWon(ws: seq<JackpotWord>): (r: bool)
    ensures r <==> multiset(Currents(ws)) == multiset(Originals(ws))
  {
    SortSorted(Currents(ws));
    SortSorted(Originals(ws));
    if multiset(Currents(ws)) == multiset(Originals(ws)) then
      SortedUnique(Sort(Currents(ws)), Sort(Originals(ws)));
      Sort(Currents(ws)) == Sort(Originals(ws))
    else
      Sort(Currents(ws)) == Sort(Originals(ws))
  }

  // ---------------------------------------------------------------------------
  // The move
  // ---------------------------------------------------------------------------

  /** Every word on the board has five letters. */
  predicate Board(ws: seq<JackpotWord>)
  {
    forall i :: 0 <= i < |ws| ==> IsWord(ws[i].currentWord) && IsWord(ws[i].originalWord)
  }

  /** The exchange on the rows as strings. */
  function SwapLetters(cs: seq<string>, r1: nat, r2: nat, col: nat): (r: seq<string>)
    requires AllWords(cs) && r1 < |cs| && r2 < |cs| && col < WORD_LENGTH
    ensures |r| == |cs| && AllWords(r)
  {
    cs[r1 := cs[r1][col := cs[r2][col]]][r2 := cs[r2][col := cs[r1][col]]]
  }

  lemma SwapLettersColumn(cs: seq<string>, r1: nat, r2: nat, col: nat, p: nat)
    requires AllWords(cs) && r1 < |cs| && r2 < |cs| && r1 != r2 && col < WORD_LENGTH && p < WORD_LENGTH
    ensures multiset(Column(SwapLetters(cs, r1, r2, col), p)) == multiset(Column(cs, p))
  {
    var before := Column(cs, p);
    var after := Column(SwapLetters(cs, r1, r2, col), p);
    if p == col {
      assert after == before[r1 := before[r2]][r2 := before[r1]];
      SwapMultiset(before, r1, r2);
    } else {
      assert after == before;
    }
  }

  lemma CurrentsOfSwap(ws: seq<JackpotWord>, r1: nat, r2: nat, col: nat)
    requires Board(ws) && r1 < |ws| && r2 < |ws| && r1 != r2 && col < WORD_LENGTH
    ensures AllWords(Currents(ws))
    ensures Currents(SwapColumn(ws, r1, r2, col)) == SwapLetters(Currents(ws), r1, r2, col)
  {
    var a := Currents(SwapColumn(ws, r1, r2, col));
    var b := SwapLetters(Currents(ws), r1, r2, col);
    forall i | 0 <= i < |a| ensures a[i] == b[i] {
    }
  }

  /** Exchange the letters at column `col` of rows `r1` and `r2`. */
  function SwapColumn(ws: seq<JackpotWord>, r1: nat, r2: nat, col: nat): (r: seq<JackpotWord>)
    requires Board(ws) && r1 < |ws| && r2 < |ws| && r1 != r2 && col < WORD_LENGTH
    ensures |r| == |ws| && Board(r)
    ensures Originals(r) == Originals(ws)
  {
    var w1 := ws[r1].currentWord;
    var w2 := ws[r2].currentWord;
    ws[r1 := ws[r1].(currentWord := w1[col := w2[col]])][r2 := ws[r2].(currentWord := w2[col := w1[col]])]
  }

  /** The letters at `col` of the two rows change places; every other letter of every
      row stays. */
  lemma SwapColumnEffect(ws: seq<JackpotWord>, r1: nat, r2: nat, col: nat)
    requires Board(ws) && r1 < |ws| && r2 < |ws| && r1 != r2 && col < WORD_LENGTH
    ensures var r := SwapColumn(ws, r1, r2, col);
            && r[r1].currentWord[col] == ws[r2].currentWord[col]
            && r[r2].currentWord[col] == ws[r1].currentWord[col]
            && (forall i, p :: 0 <= i < |ws| && 0 <= p < WORD_LENGTH && (p != col || (i != r1 && i != r2)) ==>
                  r[i].currentWord[p] == ws[i].currentWord[p])
  {
  }

  /** Repeating the same exchange restores the board. */
  lemma SwapColumnInvolution(ws: seq<JackpotWord>, r1: nat, r2: nat, col: nat)
    requires Board(ws) && r1 < |ws| && r2 < |ws| && r1 != r2 && col < WORD_LENGTH
    ensures SwapColumn(SwapColumn(ws, r1, r2, col), r1, r2, col) == ws
  {
    var r := SwapColumn(SwapColumn(ws, r1, r2, col), r1, r2, col);
    forall i | 0 <= i < |ws| ensures r[i] == ws[i] {
      if i == r1 || i == r2 {
        assert r[i].currentWord == ws[i].currentWord;
      }
    }
  }

  /** An exchange keeps the multiset of letters of every column. */
  lemma SwapColumnKeepsColumns(ws: seq<JackpotWord>, r1: nat, r2: nat, col: nat, p: nat)
    requires Board(ws) && r1 < |ws| && r2 < |ws| && r1 != r2 && col < WORD_LENGTH && p < WORD_LENGTH
    ensures AllWords(Currents(ws)) && AllWords(Currents(SwapColumn(ws, r1, r2, col)))
    ensures multiset(Column(Currents(SwapColumn(ws, r1, r2, col)), p)) == multiset(Column(Currents(ws), p))
  {
    CurrentsOfSwap(ws, r1, r2, col);
    SwapLettersColumn(Currents(ws), r1, r2, col, p);
  }

  lemma SwapMultiset(s: seq<char>, i: nat, j: nat)
    requires i < |s| && j < |s|
    ensures multiset(s[i := s[j]][j := s[i]]) == multiset(s)
  {
    if i != j {
      var t := s[i := s[j]];
      assert multiset(t) == multiset(s) - multiset{s[i]} + multiset{s[j]};
      assert multiset(t[j := s[i]]) == multiset(t) - multiset{t[j]} + multiset{s[i]};
    }
  }

  /** The `forEach`: every word's `isValid` becomes its dictionary membership. */
  method RecomputeValidity(ws: seq<JackpotWord>, dict: seq<string>) returns (r: seq<JackpotWord>)
    ensures |r| == |ws|
    ensures forall i :: 0 <= i < |r| ==>
              r[i].originalWord == ws[i].originalWord && r[i].currentWord == ws[i].currentWord
              && (r[i].isValid <==> IsValidWord(ws[i].currentWord, dict))
  {
    r := ws;
    for i := 0 to |ws|
      invariant |r| == |ws|
      invariant forall j :: 0 <= j < |r| ==>
                  r[j].originalWord == ws[j].originalWord && r[j].currentWord == ws[j].currentWord
      invariant forall j :: 0 <= j < i ==> (r[j].isValid <==> IsValidWord(ws[j].currentWord, dict))
    {
      r := r[i := r[i].(isValid := IsValidWord(r[i].currentWord, dict))];
    }
  }

  /** `after` is `before` with the exchange done and every `isValid` recomputed. */
  ghost predicate Exchanged(before: seq<JackpotWord>, after: seq<JackpotWord>, r1: nat, r2: nat, col: nat,
                            dict: seq<string>)
    requires Board(before) && r1 < |before| && r2 < |before| && r1 != r2 && col < WORD_LENGTH
  {
    && |after| == |before|
    && forall i :: 0 <= i < |after| ==>
         && after[i].originalWord == before[i].originalWord
         && after[i].currentWord == SwapColumn(before, r1, r2, col)[i].currentWord
         && (after[i].isValid <==> IsValidWord(after[i].currentWord, dict))
  }

  /** The body of a valid drop: exchange the letters, then recompute validity. */
  method ApplySwap(ws: seq<JackpotWord>, r1: nat, r2: nat, col: nat, dict: seq<string>)
    returns (r: seq<JackpotWord>)
    requires Board(ws) && ColumnsKept(ws) && r1 < |ws| && r2 < |ws| && r1 != r2 && col < WORD_LENGTH
    ensures Exchanged(ws, r, r1, r2, col, dict)
    ensures Board(r) && ColumnsKept(r)
  {
    var swapped := SwapColumn(ws, r1, r2, col);
    forall p | 0 <= p < WORD_LENGTH
      ensures multiset(Column(Currents(swapped), p)) == multiset(Column(Originals(swapped), p))
    {
      SwapColumnKeepsColumns(ws, r1, r2, col, p);
    }
    r := RecomputeValidity(swapped, dict);
    assert Currents(r) == Currents(swapped) && Originals(r) == Originals(swapped);
  }

  /** A drop of one row's letter on another row of the same column: the exchanged
      board, with nothing dragged any more and the win decided on the new board. */
  method Drop(ws: seq<JackpotWord>, r1: nat, r2: nat, col: nat, dict: seq<string>)
    returns (r: seq<JackpotWord>, won: bool)
    requires AllWords(dict) && Board(ws) && ColumnsKept(ws)
    requires r1 < |ws| && r2 < |ws| && r1 != r2 && col < WORD_LENGTH
    ensures Exchanged(ws, r, r1, r2, col, dict)
    ensures GameInvariant(dict, r, None, won) && (won <==> IsWon(r))
  {
    r := ApplySwap(ws, r1, r2, col, dict);
    won := IsWon(r);
  }

  /** Letters are only ever moved within their column. */
  ghost predicate ColumnsKept(ws: seq<JackpotWord>)
    requires Board(ws)
  {
    forall p :: 0 <= p < WORD_LENGTH ==> multiset(Column(Currents(ws), p)) == multiset(Column(Originals(ws), p))
  }

  /** Five-letter words on the board, a drag only from one of its tiles, each
      column a rearrangement of the original column, and a win only on a won
      board. */
  ghost predicate GameInvariant(dict: seq<string>, ws: seq<JackpotWord>, dragged: Option<Cell>, gameWon: bool)
  {
    && AllWords(dict)
    && Board(ws)
    && ColumnsKept(ws)
    && (dragged.Some? ==> dragged.value.row < |ws| && dragged.value.col < WORD_LENGTH)
    && (gameWon ==> IsWon(ws))
  }

  class Game {
    var words: seq<JackpotWord>
    var dragged: Option<Cell>
    var gameWon: bool
    var moves: nat
    const dict: seq<string>

    ghost predicate Valid()
      reads this
    {
      GameInvariant(dict, words, dragged, gameWon)
    }

    /** The component before its first puzzle arrives. */
    constructor (dict: seq<string>)
      requires AllWords(dict)
      ensures Valid()
      ensures this.dict == dict && words == [] && dragged == None && !gameWon && moves == 0
    {
      this.dict := dict;
      words := [];
      dragged := None;
      gameWon := false;
      moves := 0;
    }

    /** `startNewGame`: a fresh three-word puzzle and a cleared game.  When the
        generator fails nothing changes (the source's exception leaves the state as
        it was). */
    method StartNewGame(rand: RandomSource, k: nat, fuel: nat) returns (err: Option<GenError>, next: nat)
      requires Valid()
      modifies this
      ensures Valid()
      ensures err.Some? ==> words == old(words) && dragged == old(dragged)
                            && gameWon == old(gameWon) && moves == old(moves)
      ensures err.None? ==> FreshBoard(dict, words) && dragged == None && !gameWon && moves == 0
    {
      var res;
      res, next := GeneratePuzzle(dict, rand, k, fuel);
      if res.Err? {
        return Some(res.error), next;
      }
      assert GameInvariant(dict, res.value, None, false);
      words := res.value;
      dragged := None;
      gameWon := false;
      moves := 0;
      err := None;
    }

    /** `handleDragStart`: remember the tile. */
    method HandleDragStart(row: nat, col: nat)
      requires Valid() && row < |words| && col < WORD_LENGTH
      modifies this
      ensures Valid()
      ensures dragged == Some(Cell(row, col))
      ensures words == old(words) && gameWon == old(gameWon) && moves == old(moves)
    {
      dragged := Some(Cell(row, col));
    }

    /** `handleDrop` on the tile at (`targetRow`, `targetCol`); `won` is whether
        `onGameEnd(true, moves)` is called. */
    method HandleDrop(targetRow: nat, targetCol: nat) returns (won: bool)
      requires Valid() && targetRow < |words| && targetCol < WORD_LENGTH
      modifies this
      ensures Valid()
      ensures old(dragged).None? || old(gameWon) ==>
                words == old(words) && dragged == old(dragged) && gameWon == old(gameWon)
                && moves == old(moves) && !won
      ensures old(dragged).Some? && !old(gameWon)
              && (old(dragged).value.col != targetCol || old(dragged).value.row == targetRow) ==>
                words == old(words) && dragged == None && !gameWon && moves == old(moves) && !won
      ensures old(dragged).Some? && !old(gameWon)
              && old(dragged).value.col == targetCol && old(dragged).value.row != targetRow ==>
                && moves == old(moves) + 1
                && dragged == None
                && Exchanged(old(words), words, old(dragged).value.row, targetRow, targetCol, dict)
                && (gameWon <==> IsWon(words))
                && won == gameWon
    {
      if dragged.None? || gameWon {
        return false;
      }
      var source := dragged.value;
      if source.col != targetCol || source.row == targetRow {
        dragged := None;
        return false;
      }
      won := SwapInColumn(source.row, targetRow, targetCol);
    }

    /** The body of a drop on another row of the dragged tile's column: exchange the
        two letters, recompute validity, count the move and test for a win. */
    method SwapInColumn(sourceRow: nat, targetRow: nat, col: nat) returns (won: bool)
      requires Valid() && !gameWon
      requires sourceRow < |words| && targetRow < |words| && sourceRow != targetRow && col < WORD_LENGTH
      modifies this
      ensures Valid()
      ensures moves == old(moves) + 1 && dragged == None
      ensures Exchanged(old(words), words, sourceRow, targetRow, col, dict)
      ensures (gameWon <==> IsWon(words)) && won == gameWon
    {
      var ws, w := Drop(words, sourceRow, targetRow, col, dict);
      words, dragged, gameWon, moves, won := ws, None, w, moves + 1, w;
      assert GameInvariant(dict, words, dragged, gameWon);
    }
  }

  /** A board as the generator hands it over: three five-letter dictionary words,
      none yet marked valid, with every column a rearrangement of the original one,
      and not already won. */
  ghost predicate FreshBoard(dict: seq<string>, ws: seq<JackpotWord>)
  {
    && |ws| == DEFAULT_WORD_COUNT
    && Board(ws)
    && ColumnsKept(ws)
    && (forall i :: 0 <= i < |ws| ==> ws[i].originalWord in dict && !ws[i].isValid)
    && !IsWon(ws)
  }

  /** `findJackpotWords()` with its default word count. */
  method GeneratePuzzle(dict: seq<string>, rand: RandomSource, k: nat, fuel: nat)
    returns (res: Result<seq<JackpotWord>, GenError>, next: nat)
    requires AllWords(dict)
    ensures res.Ok? ==> FreshBoard(dict, res.value)
  {
    ghost var assigns;
    res, next, assigns := FindJackpotWords(DEFAULT_WORD_COUNT, dict, rand, k, fuel);
    if res.Ok? {
      PuzzleIsBoard(dict, res.value, assigns);
    }
  }

  /** A generated puzzle is a board whose columns are rearrangements of the original
      columns. */
  lemma PuzzleIsBoard(dict: seq<string>, ws: seq<JackpotWord>, assigns: seq<seq<int>>)
    requires AllWords(dict) && JackpotPuzzle(dict, DEFAULT_WORD_COUNT, ws, assigns)
    ensures FreshBoard(dict, ws)
  {
    assert AllWords(Originals(ws));
    PuzzleNotWon(dict, DEFAULT_WORD_COUNT, ws, assigns);
  }

  /** Rows that keep their first letter and hold the original words in some order,
      where no two originals share a first letter, hold each its own original. */
  lemma RowsPinned(o: seq<string>, c: seq<string>)
    requires |o| == |c| && AllWords(o) && AllWords(c) && multiset(c) == multiset(o)
    requires forall i :: 0 <= i < |c| ==> c[i][0] == o[i][0]
    requires forall i, j :: 0 <= i < j < |o| ==> o[i][0] != o[j][0]
    ensures c == o
  {
    forall i | 0 <= i < |c|
      ensures c[i] == o[i]
    {
      assert c[i] in multiset(o);
      var j :| 0 <= j < |o| && o[j] == c[i];
      assert o[j][0] == o[i][0];
    }
  }

  /** A row assignment that reads every row's own letter from a column of distinct
      letters is the identity. */
  lemma AssignmentPinned(o: seq<string>, a: seq<int>, p: nat)
    requires AllWords(o) && |a| == |o| && p < WORD_LENGTH
    requires forall i :: 0 <= i < |a| ==> 0 <= a[i] < |o| && o[a[i]][p] == o[i][p]
    requires forall i, j :: 0 <= i < j < |o| ==> o[i][p] != o[j][p]
    ensures a == Identity(|o|)
  {
    forall i | 0 <= i < |a|
      ensures a[i] == Identity(|o|)[i]
    {
      assert o[a[i]][p] == o[i][p];
    }
  }

  /** A generated puzzle is never won before the first move.  On a won board every
      current word is an original one; column 0 pins it to its own row, and column 1
      then forces the second assignment to be the identity, which the permutation
      search never returns. */
  lemma PuzzleNotWon(dict: seq<string>, wordCount: nat, ws: seq<JackpotWord>, assigns: seq<seq<int>>)
    requires AllWords(dict) && JackpotPuzzle(dict, wordCount, ws, assigns)
    ensures !IsWon(ws)
  {
    var o, c := Originals(ws), Currents(ws);
    PuzzleColumns(dict, wordCount, ws, assigns, o, c);
    if multiset(c) == multiset(o) {
      RowsPinned(o, c);
      AssignmentPinned(o, assigns[1], 1);
      MatchesAllIff(assigns[1], assigns[0]);
    }
  }

  /** What `PuzzleNotWon` needs of a puzzle: distinct first and second letters, rows
      keeping their first letter, and a second assignment that is read from column 1
      and differs from the first. */
  lemma PuzzleColumns(dict: seq<string>, wordCount: nat, ws: seq<JackpotWord>, assigns: seq<seq<int>>,
                      o: seq<string>, c: seq<string>)
    requires AllWords(dict) && JackpotPuzzle(dict, wordCount, ws, assigns)
    requires o == Originals(ws) && c == Currents(ws)
    ensures |o| == |c| && AllWords(o) && AllWords(c)
    ensures forall i :: 0 <= i < |c| ==> c[i][0] == o[i][0]
    ensures forall i, j :: 0 <= i < j < |o| ==> o[i][0] != o[j][0] && o[i][1] != o[j][1]
    ensures |assigns| == WORD_LENGTH && assigns[0] == Identity(|o|) && |assigns[1]| == |o|
    ensures Matches(assigns[1], assigns[0]) < |o|
    ensures forall i :: 0 <= i < |o| ==> 0 <= assigns[1][i] < |o| && o[assigns[1][i]][1] == c[i][1]
  {
  }
}
