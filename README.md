# wordle-bolt in Dafny

This project models the game logic of wordle-bolt, a browser collection of word
puzzles, and proves properties of that model. Three games are covered.

- **Wordle**: guess a secret five-letter word in six tries. Each guess is coloured
  letter by letter (correct, present, absent), and the on-screen keyboard keeps the
  best colour seen for each key.
- **Jackpot**: three dictionary words with their columns 1 to 4 scrambled across the
  rows. The player exchanges two letters of one column and wins once the rows read
  the original words again, in any order.
- **Hashtag**: four words laid out as a `#` on a 5x5 grid. Two words run across
  rows 1 and 3 (H1, H2) and two run down columns 1 and 3 (V1, V2). The player drags
  one tile onto another to exchange their squares.

The generators of the Jackpot and Hashtag puzzles and the store of recently used
secret words are modelled too.

One file per source module:

| file | models |
|---|---|
| `common.dfy` | `Option`/`Result`, the injected random source, five-letter words |
| `rare_letters.dfy` | the rare-letter set `PGBVHFQYXJKWZ` and its count |
| `jackpot_find_words.dfy` | `src/jackpot_find_words.ts` |
| `jackpot_game.dfy` | `src/components/JackpotGame.tsx` (start, drag, drop, win test) |
| `hashtag_find_words.dfy` | `src/hashtag_find_words.ts` |
| `hashtag_game.dfy` | `src/components/HashtagGame.tsx` (initial layout, drop, grid) |
| `wordle_board.dfy` | `src/components/WordleGameBoard.tsx` (`rows`, `getLetterStatuses`) |
| `wordle_app.dfy` | `src/App.tsx` (key handling, keyboard colours, key mapping) |
| `word_history.dfy` | `src/utils/wordHistory.ts` |

## How the model is built

- **Randomness.** `Math.random()` is an injected `RandomSource`, a function from a
  cursor `k` to a raw choice. Each operation that draws takes a cursor and returns
  the next unused one.
  - `Math.floor(Math.random() * n)` is `Draw(rand, k, n)`, an index below `n`. A raw
    choice outside `[0, n)` stands for the last index.
  - `Math.random() < 0.2` is `Coin(rand, k)`.
  - The Fisher-Yates swap partner of index `i` is `Draw(rand, k, i + 1)`, so it is
    always at most `i`.
- **Loops.**
  - Loops with a fixed bound keep that bound: 1000 attempts in
    `findValidPermutation` and 100 in `getRandomWordNotInHistory`.
  - The two unbounded searches (`findJackpotWords`, `find_combination_internal`)
    take a `fuel` argument and fail with `SearchExhausted` when it runs out.
- **State.**
  - Each component's state becomes a class whose methods update the fields:
    `WordleGame`, `JackpotGame.Game` and `HashtagGame.Board`.
  - Browser storage becomes the `history` field of `WordHistory.Store`.
  - The in-place array algorithms keep their arrays:
    - the shuffle (`ShuffleArray`);
    - the column rewrite (`WriteColumn`);
    - the status array of `getLetterStatuses`;
    - the rendered grid (`RenderGrid`, an `array2`).
- **Errors.** Each source path that throws or reads `undefined` becomes a `Result`
  error or an `Option` value:
  - an out-of-range word count;
  - a failed permutation search;
  - an empty dictionary;
  - an empty bucket of the Hashtag generator;
  - an out-of-range `replaceCharAt`.
- **Object identity.** The Hashtag drop compares tiles with `===`. Every tile on the
  board is a distinct object, so the model tells tiles apart by their index in the
  list.

The comment above `shuffleLettersAtPosition` (`src/jackpot_find_words.ts:74`) says
that at most one pair of consecutive letters of an original word may survive in
the shuffled words. The code does not enforce this in two places. The model
follows the code in both:

- A permutation that keeps two or more pairs, without keeping the whole
  assignment, is accepted whatever the budget (`src/jackpot_find_words.ts:60-61`).
  `JackpotFindWords.TwoKeptPairsAcceptedWithoutBudget` exhibits such a case.
- Each column's permutation is compared with the previous column's row
  assignment (`src/jackpot_find_words.ts:84`). A row where the two agree takes
  its letters at positions `p - 1` and `p` from the same original word: that is
  one kept pair. The budget for such pairs starts at the number of words minus
  one (`src/jackpot_find_words.ts:80`), so a three-word puzzle may keep one pair
  in each of two columns.

## Model

| member | source | states |
|---|---|---|
| Common.Draw | src/jackpot_find_words.ts:31 | a random index drawn for a list of `n` elements is below `n` |
| RareLetters.CountRare | src/hashtag_find_words.ts:34-36 | the number of rare elements is at most the length of the list |
| RareLetters.CountRareAppend | src/jackpot_find_words.ts:12-15 | the rare count of a concatenation is the sum of the rare counts of its parts |
| RareLetters.CountRareExtremes | src/hashtag_find_words.ts:34-36 | the count is 0 exactly when no element is rare, and equals the length exactly when every element is rare |
| JackpotFindWords.ElementsCardinality | src/jackpot_find_words.ts:115 | a list has at most as many distinct values as entries, and exactly as many exactly when no value repeats |
| JackpotFindWords.AreLettersDifferentAtPosition | src/jackpot_find_words.ts:6-9 | the column check holds exactly when the letters (or `undefined`) of all words at that position are pairwise distinct |
| JackpotFindWords.ColumnsDistinctIff | src/jackpot_find_words.ts:118-121 | the five column checks all pass exactly when any two words differ at every position 0..4 |
| JackpotFindWords.Join | src/jackpot_find_words.ts:13 | `join('')` of five-letter words has five letters per word |
| JackpotFindWords.JoinAppend | src/jackpot_find_words.ts:13 | `join('')` of a concatenation of lists is the concatenation of the joins |
| JackpotFindWords.CountRareLetters | src/jackpot_find_words.ts:12-15 | for one word it is that word's rare count; for five-letter words it is at most five per word |
| JackpotFindWords.CountRareLettersSplit | src/jackpot_find_words.ts:12-15 | `countRareLetters` is additive over splitting the word list |
| JackpotFindWords.Matches | src/jackpot_find_words.ts:18-27 | the number of matching positions never exceeds the length of the first array |
| JackpotFindWords.MatchesAllIff | src/jackpot_find_words.ts:18-27 | two arrays of one length match at every position exactly when they are equal |
| JackpotFindWords.CountMatchingElements | src/jackpot_find_words.ts:18-27 | the counter loop counts the matching positions; the count is at most the length; for equal lengths it is the length exactly when the arrays are equal |
| JackpotFindWords.SwapPermutes | src/jackpot_find_words.ts:32 | exchanging two entries keeps the length and the multiset |
| JackpotFindWords.FisherYates | src/jackpot_find_words.ts:30-33 | the descending swap loop keeps the length (its multiset is `FisherYatesPermutes`) |
| JackpotFindWords.Shuffled | src/jackpot_find_words.ts:29-35 | `shuffleArray` keeps the length (its multiset is `ShuffledPermutes`) |
| JackpotFindWords.FisherYatesPermutes | src/jackpot_find_words.ts:30-33 | the descending swap loop returns a permutation of its input |
| JackpotFindWords.ShuffledPermutes | src/jackpot_find_words.ts:29-35 | `shuffleArray` returns the same number of elements with the same multiset |
| JackpotFindWords.FisherYatesStep | src/jackpot_find_words.ts:30-33 | one turn of the loop, swapping `i` with `j = Draw(i + 1) <= i`, leaves the final result unchanged |
| JackpotFindWords.Exchange | src/jackpot_find_words.ts:32 | the destructuring swap exchanges entries `i` and `j` of the array and changes nothing else |
| JackpotFindWords.ShuffleArray | src/jackpot_find_words.ts:29-35 | the array ends as the Fisher-Yates shuffle of its old contents; one choice is used per index from `length - 1` down to 1 |
| JackpotFindWords.ShuffleCopy | src/jackpot_find_words.ts:44 | shuffling the copy `[...array]` yields the shuffle of the sequence and uses the same choices |
| JackpotFindWords.TryPermutation | src/jackpot_find_words.ts:44-62 | one attempt rejects a shuffle that matches the previous assignment everywhere; a single-match shuffle passes only with a positive budget and a successful coin, which costs one unit of budget; every other shuffle is accepted with the budget unchanged |
| JackpotFindWords.Attempt | src/jackpot_find_words.ts:44-62 | an accepted attempt is a permutation of the previous assignment that differs from it; the budget drops by exactly 1 for a single match and only from a positive value, and is otherwise unchanged; one attempt uses the shuffle's choices plus at most one coin |
| JackpotFindWords.Search | src/jackpot_find_words.ts:37-64 | whatever the retry loop returns satisfies the acceptance rules of `Attempt`; with no attempts left it returns nothing |
| JackpotFindWords.SearchFailsOnShortArrays | src/jackpot_find_words.ts:42-63 | with fewer than two rows every attempt is rejected and the search returns nothing |
| JackpotFindWords.TwoKeptPairsAcceptedWithoutBudget | src/jackpot_find_words.ts:45-61 | with four rows and no budget left, a shuffle keeping two rows of the previous assignment is still accepted |
| JackpotFindWords.FindValidPermutation | src/jackpot_find_words.ts:37-64 | the loop makes at most 1000 attempts and returns the first accepted one; nothing comes back when every attempt is rejected; a result permutes its input, differs from it, and carries a budget following the rules above, never negative |
| JackpotFindWords.ReplaceCharAt | src/jackpot_find_words.ts:66-71 | the call fails exactly for an index outside `[0, len)`; otherwise the length changes by `len(replacement) - 1`; a one-letter replacement lands at the index and every other character is kept |
| JackpotFindWords.Identity | src/jackpot_find_words.ts:78 | the initial row assignment maps each row to its own word |
| JackpotFindWords.GatherMultiset | src/jackpot_find_words.ts:86-88 | collecting one column's letters through two row lists with the same multiset gives the same multiset of letters |
| JackpotFindWords.ColumnPermuted | src/jackpot_find_words.ts:86-88 | rows whose letter at `p` is taken from a permutation of the words carry, in column `p`, the original column's letters permuted |
| JackpotFindWords.WriteColumn | src/jackpot_find_words.ts:86-88 | the inner loop gives row `i` the letter at `position` of word `perm[i]` and changes no other letter |
| JackpotFindWords.ShuffleStep | src/jackpot_find_words.ts:81-89 | one turn of the column loop keeps the shuffle state: assignments are permutations, each differs from the one before it, the budget equals `n - 1` minus the single-match columns so far, and rows show their assigned letters |
| JackpotFindWords.FinishShuffle | src/jackpot_find_words.ts:81-91 | after column 4 every column of the result is the original column permuted, and column 0 is untouched |
| JackpotFindWords.ShuffleLettersAtPosition | src/jackpot_find_words.ts:76-92 | the failure of a permutation search is a failure result (the source destructures `undefined`); otherwise column 0 of every row is the original letter, column `p >= 1` of row `i` is the letter of word `assigns[p][i]`, each column is a permutation of the original, and at most `n - 1` columns keep one pair |
| JackpotFindWords.DrawWords | src/jackpot_find_words.ts:110-112 | `wordCount` draws, each a dictionary word |
| JackpotFindWords.MakePuzzle | src/jackpot_find_words.ts:133-137 | entry `i` pairs original word `i` with shuffled word `i`, with `isValid` false |
| JackpotFindWords.ColumnsDistinctPairwise | src/jackpot_find_words.ts:118-121 | passing the five column checks means any two words differ at every position |
| JackpotFindWords.AcceptableSelection | src/jackpot_find_words.ts:115-126 | a selection of `wordCount` words passes the loop's tests exactly when its words are distinct, any two differ at every position, and it has at least `wordCount` rare letters |
| JackpotFindWords.SelectionMakesPuzzle | src/jackpot_find_words.ts:105-137 | an accepted selection with its shuffle makes a puzzle: distinct dictionary words, distinct letters in every column, at least `wordCount` rare letters, none marked valid |
| JackpotFindWords.FindJackpotWords | src/jackpot_find_words.ts:100-138 | the call fails with a range error exactly when `wordCount` is outside 3..5; a successful result has `wordCount` entries satisfying the puzzle conditions above |
| JackpotFindWords.IsValidWord | src/jackpot_find_words.ts:140-142 | a word is valid exactly when it occurs in the dictionary |
| JackpotGame.LessEqReflexive | src/components/JackpotGame.tsx:102-103 | the string order of `sort` is reflexive |
| JackpotGame.LessEqTotal | src/components/JackpotGame.tsx:102-103 | any two strings are comparable |
| JackpotGame.LessEqAntisymmetric | src/components/JackpotGame.tsx:102-103 | strings that are each at most the other are equal |
| JackpotGame.LessEqTransitive | src/components/JackpotGame.tsx:102-103 | the order is transitive |
| JackpotGame.Insert | src/components/JackpotGame.tsx:102-103 | inserting a string adds exactly that string to the multiset |
| JackpotGame.InsertSorted | src/components/JackpotGame.tsx:102-103 | inserting into a sorted list keeps it sorted |
| JackpotGame.Sort | src/components/JackpotGame.tsx:102-103 | sorting keeps the length and the multiset of strings |
| JackpotGame.SortSorted | src/components/JackpotGame.tsx:102-103 | the sorted list is in order |
| JackpotGame.SortedUnique | src/components/JackpotGame.tsx:102-104 | two sorted lists with the same multiset are equal, so comparing sorted lists compares multisets |
| JackpotGame.IsWon | src/components/JackpotGame.tsx:102-104 | the win test holds exactly when the current words are the original words in some order |
| JackpotGame.SwapLetters | src/components/JackpotGame.tsx:86-91 | the exchange on plain strings keeps the number of rows and five-letter words |
| JackpotGame.SwapLettersColumn | src/components/JackpotGame.tsx:88 | the exchange on plain strings keeps the letters of every column as a multiset |
| JackpotGame.SwapColumn | src/components/JackpotGame.tsx:82-91 | the exchange keeps the number of rows, five-letter words and every original word |
| JackpotGame.SwapColumnEffect | src/components/JackpotGame.tsx:82-91 | the letters at `sourceCol` of the two rows change places; every other letter of every row stays |
| JackpotGame.SwapColumnInvolution | src/components/JackpotGame.tsx:82-91 | repeating the same exchange restores the words |
| JackpotGame.SwapColumnKeepsColumns | src/components/JackpotGame.tsx:88 | every column keeps its multiset of letters |
| JackpotGame.RecomputeValidity | src/components/JackpotGame.tsx:94-96 | every `isValid` becomes dictionary membership of the current word; the words themselves are untouched |
| JackpotGame.ApplySwap | src/components/JackpotGame.tsx:82-96 | the new board is the exchange with validity recomputed, and it keeps every column's letters |
| JackpotGame.Drop | src/components/JackpotGame.tsx:82-104 | the exchanged board keeps the board invariant with nothing dragged, and the win is the win test on it |
| JackpotGame.Game.constructor | src/components/JackpotGame.tsx:16-19 | before the first puzzle: no words, no drag, not won, no moves |
| JackpotGame.Game.StartNewGame | src/components/JackpotGame.tsx:25-30 | a fresh three-word board, not already won, with no drag, `gameWon` false and `moves` at 0; when the generator throws nothing changes |
| JackpotGame.Game.HandleDragStart | src/components/JackpotGame.tsx:32-33 | the dragged tile is recorded and nothing else changes |
| JackpotGame.Game.HandleDrop | src/components/JackpotGame.tsx:67-110 | with no drag, or once won, nothing changes; a drop in another column or on the same row only clears the drag; a valid drop adds one move, performs the exchange with validity recomputed, clears the drag and reports a win exactly when the win test holds; the invariant (five-letter words, columns kept, a win only on a won board) is preserved |
| JackpotGame.Game.SwapInColumn | src/components/JackpotGame.tsx:78-109 | the valid-drop branch: one more move, the exchange with validity recomputed, no drag, and `gameWon` and the reported win both equal the win test on the new board; the invariant is kept |
| JackpotGame.GeneratePuzzle | src/components/JackpotGame.tsx:26 | a generated board has three five-letter dictionary words, none marked valid, each column a rearrangement of the original column, and is not already won |
| JackpotGame.PuzzleIsBoard | src/jackpot_find_words.ts:131-137 | a generated puzzle is such a board |
| JackpotGame.PuzzleNotWon | src/jackpot_find_words.ts:76-92 | a generated puzzle never starts won: column 1 is shuffled off the identity and column 0 is kept, so the current words cannot be the original words in any order |
| JackpotGame.PuzzleColumns | src/jackpot_find_words.ts:78-88 | a generated puzzle keeps column 0, has distinct letters in columns 0 and 1, and column 1 of row `i` comes from original word `assigns[1][i]`, with `assigns[1]` not the identity |
| JackpotGame.RowsPinned | src/jackpot_find_words.ts:81 | when column 0 is kept and its letters are distinct, the current words can be the original words in some order only in the same order |
| JackpotGame.AssignmentPinned | src/jackpot_find_words.ts:86-88 | a row assignment that reproduces a column of distinct letters is the identity |
| HashtagFindWords.WithSecondLetter | src/hashtag_find_words.ts:10-16 | a bucket holds only dictionary words with that second letter |
| HashtagFindWords.WithSecondLetterWitness | src/hashtag_find_words.ts:12-13 | a bucket is non-empty only if some word has that second letter |
| HashtagFindWords.WithSecondLetterCount | src/hashtag_find_words.ts:10-16 | a bucket holds every word with that second letter as often as the dictionary does, and no other word |
| HashtagFindWords.WithSecondLetterMember | src/hashtag_find_words.ts:10-16 | a word is in a bucket exactly when it is a dictionary word with that second letter |
| HashtagFindWords.GroupBySecondLetter | src/hashtag_find_words.ts:7-19 | the map has a key for exactly the second letters that occur, each holding the words with that letter in dictionary order |
| HashtagFindWords.GroupingStep | src/hashtag_find_words.ts:11-15 | pushing one more word onto its bucket, creating it first if needed, keeps the map equal to the grouping of the longer list |
| HashtagFindWords.BucketIsFilter | src/hashtag_find_words.ts:68 | `get(c) \|\| []` is the list of words with second letter `c` |
| HashtagFindWords.OwnBucket | src/hashtag_find_words.ts:10-16 | every word is in the bucket of its own second letter |
| HashtagFindWords.BucketSizesSum | src/hashtag_find_words.ts:7-19 | the bucket sizes add up to the dictionary size |
| HashtagFindWords.TripleLetters | src/hashtag_find_words.ts:76 | the letters counted for a triple are H1, H2 and V1's cells 0, 2 and 4 (13 letters) |
| HashtagFindWords.V2Letters | src/hashtag_find_words.ts:87 | V2 adds its cells 0, 2 and 4 |
| HashtagFindWords.WithFourthLetter | src/hashtag_find_words.ts:82-83 | the filter keeps exactly the words of the list whose letter 3 matches: only those, and every one of them |
| HashtagFindWords.V2Candidates | src/hashtag_find_words.ts:82-83 | the V2 candidates are exactly the dictionary words whose letter 1 is letter 3 of H1 and whose letter 3 is letter 3 of H2 |
| HashtagFindWords.GridLetters | src/hashtag_find_words.ts:76-88 | the sixteen grid cells |
| HashtagFindWords.GridCount | src/hashtag_find_words.ts:76-88 | the grid's rare count is the triple's count plus V2's three cells |
| HashtagFindWords.PickV2 | src/hashtag_find_words.ts:85-95 | the loop returns a candidate exactly when some candidate's three cells bring the triple's count to 3, and then it is the first such candidate; the running sum kept across candidates gives the same answer, as a count of 2 or more rises only on the candidate that is returned |
| HashtagFindWords.DrawTriple | src/hashtag_find_words.ts:65-73 | H1, V1 and H2 are five-letter dictionary words with `V1[1] = H1[1]` and `H2[1] = V1[3]`; the only failure is an empty bucket, and then some dictionary word's letter 3 is the second letter of no word |
| HashtagFindWords.CombinationFromParts | src/hashtag_find_words.ts:68-93 | a triple with two rare letters and the first V2 reaching three forms a valid combination |
| HashtagFindWords.FindCombinationInternal | src/hashtag_find_words.ts:58-100 | the search fails for an empty dictionary exactly; it reports an empty bucket only when one exists; a result is four dictionary words meeting at the four crossings, with at least 2 rare letters in the triple and at least 3 in the grid, V2 the first candidate reaching 3 |
| HashtagFindWords.FirstCandidateWhenTripleSuffices | src/hashtag_find_words.ts:82-93 | when the triple already has 3 rare letters, V2 is the first candidate of the filtered bucket |
| HashtagFindWords.Tag | src/hashtag_find_words.ts:49-54 | four entries tagged H1, H2, V1, V2 in that order |
| HashtagFindWords.Untag | src/hashtag_find_words.ts:47-55 | reading entries back is defined exactly on four entries tagged in that order |
| HashtagFindWords.TagUntag | src/hashtag_find_words.ts:47-55 | reading back the tagged entries gives the combination |
| HashtagFindWords.UntagTag | src/hashtag_find_words.ts:47-55 | tagging a read-back combination gives the entries |
| HashtagFindWords.FindCombination | src/hashtag_find_words.ts:47-55 | the result is four entries tagged in order, holding a valid combination; the search's failures pass through |
| HashtagGame.InitialLayout | src/components/HashtagGame.tsx:17-39 | the initial board has 16 letters on grid squares 0..4 and no two share a square |
| HashtagGame.Find | src/components/HashtagGame.tsx:64-65 | `find` returns the first tile on the square, or nothing when no tile is there |
| HashtagGame.Exchange | src/components/HashtagGame.tsx:69-77 | the `map` keeps the number of tiles |
| HashtagGame.ExchangeInvolution | src/components/HashtagGame.tsx:69-77 | exchanging the same two tiles again restores the board |
| HashtagGame.ExchangeKeepsFaces | src/components/HashtagGame.tsx:69-77 | no tile changes its letter or state, so the multiset of (letter, state) pairs is kept |
| HashtagGame.ExchangeCells | src/components/HashtagGame.tsx:69-77 | the list of squares is the old one with the two tiles' squares exchanged |
| HashtagGame.ExchangeKeepsOccupied | src/components/HashtagGame.tsx:69-77 | the set and the multiset of occupied squares are kept |
| HashtagGame.ExchangeKeepsPlacement | src/components/HashtagGame.tsx:69-77 | tiles on distinct grid squares stay on distinct grid squares |
| HashtagGame.LastAt | src/components/HashtagGame.tsx:107-109 | a cell shows a tile standing on that square, and nothing exactly when no tile stands there |
| HashtagGame.LastAtIsFound | src/components/HashtagGame.tsx:64-65 | on a well-placed board the tile drawn in a cell is the one `find` returns for it |
| HashtagGame.Board.constructor | src/components/HashtagGame.tsx:17-42 | the initial layout, 12 moves left and no drag, satisfying the board invariant |
| HashtagGame.Board.HandleDragStart | src/components/HashtagGame.tsx:44-46 | the dragged square is recorded and nothing else changes |
| HashtagGame.Board.HandleDrop | src/components/HashtagGame.tsx:52-84 | with no drag nothing changes; a drop on the source square, or from or onto an empty square, keeps letters and moves; otherwise the source tile takes the target's square, the target tile the source's, all other tiles stay and `movesLeft` drops by 1, whatever its value; the drag is cleared and the invariant (distinct grid squares, the same letters and states) is kept |
| HashtagGame.Board.RenderGrid | src/components/HashtagGame.tsx:103-109 | a fresh 5x5 grid whose cell `[y][x]` holds what `forEach` leaves there |
| HashtagGame.RenderedCell | src/components/HashtagGame.tsx:103-109 | a cell holds a tile exactly when a tile stands on that square, and then it is that tile; other cells stay null |
| WordleBoard.Score | src/components/WordleGameBoard.tsx:19-46 | five statuses; position `i` is correct exactly when the guess and the target agree there; all five are correct exactly when the guess is the target |
| WordleBoard.StatusAt | src/components/WordleGameBoard.tsx:29-43 | a position is correct exactly when guess and target agree there, and present only for a letter that occurs in the target |
| WordleBoard.CountLetters | src/components/WordleGameBoard.tsx:24-27 | the count has an entry for exactly the target's letters, each holding its number of copies |
| WordleBoard.CorrectPassStep | src/components/WordleGameBoard.tsx:30-35 | one turn of the second loop keeps its state: the agreeing positions seen so far are correct and their letters are taken off the count |
| WordleBoard.MarkCorrect | src/components/WordleGameBoard.tsx:30-35 | after the second loop, exactly the agreeing positions are correct and each letter's count is its spare copies |
| WordleBoard.PresentDecision | src/components/WordleGameBoard.tsx:39 | a misplaced letter is marked present exactly when its count is still positive |
| WordleBoard.SpareLeftStep | src/components/WordleGameBoard.tsx:39-42 | taking a letter off the count when it is marked present keeps the count at the unclaimed spare copies |
| WordleBoard.PresentPassStep | src/components/WordleGameBoard.tsx:38-43 | one turn of the third loop gives the position its final status and keeps the loop state |
| WordleBoard.MarkPresent | src/components/WordleGameBoard.tsx:38-43 | after the third loop the statuses are the reference scoring |
| WordleBoard.GetLetterStatuses | src/components/WordleGameBoard.tsx:19-46 | the three loops compute exactly the reference scoring |
| WordleBoard.SpareNonNegative | src/components/WordleGameBoard.tsx:30-35 | correct positions never take more copies of a letter than the target has |
| WordleBoard.PresentInTarget | src/components/WordleGameBoard.tsx:39-42 | a present mark goes only to a letter of the target |
| WordleBoard.PresentLeftmost | src/components/WordleGameBoard.tsx:38-43 | present marks go to the leftmost misplaced copies of a letter |
| WordleBoard.MarkedSplit | src/components/WordleGameBoard.tsx:29-43 | the non-absent positions holding a letter are its correct positions plus its present marks |
| WordleBoard.GuessCount | src/components/WordleGameBoard.tsx:29-43 | a letter's copies in the guess are its correct positions plus its misplaced positions |
| WordleBoard.NonAbsentIsMin | src/components/WordleGameBoard.tsx:24-43 | for every letter, the non-absent positions holding it number the smaller of its counts in the guess and in the target, so never more than the target's count |
| WordleBoard.Rows | src/components/WordleGameBoard.tsx:13-17 | the board always has six rows |
| WordleBoard.RowsLayout | src/components/WordleGameBoard.tsx:13-17 | with a free row: the guesses, then the current guess, then empty strings |
| WordleBoard.RowsFull | src/components/WordleGameBoard.tsx:13-17 | with six guesses the rows are the guesses |
| WordleApp.UpdateUsedLetters | src/App.tsx:71-81 | after the loop, each key's colour is the old keyboard updated by the guess's letters in order: a letter placed right becomes correct, a letter elsewhere in the target becomes present unless already correct, any other letter becomes absent; keys outside the guess keep their colour |
| WordleApp.Expected | src/App.tsx:71-81 | a letter not in the processed part of the guess keeps its colour; a processed letter gets a colour, absent exactly when it is not in the target; on a keyboard consistent with the target (absent exactly for the letters it lacks) a correct key stays correct |
| WordleApp.ExpectedStep | src/App.tsx:72-80 | one turn of the loop changes only the entry of its own letter, by the three branches |
| WordleApp.UpdateProperties | src/App.tsx:71-81 | a correct key is never overwritten; absent goes only to letters outside the target; keys not in the guess keep their colour; a keyboard on which a coloured key is absent exactly when its letter is outside the target stays so |
| WordleApp.KeyFromEvent | src/App.tsx:100-108 | `Backspace` gives BACK, `Enter` gives ENTER, a single ASCII letter gives its capital, every other key is ignored |
| WordleApp.SubmitKeepsInvariant | src/App.tsx:65-92 | recording an accepted guess keeps the game invariant: at most six guesses, the game over exactly when a guess is the target or six guesses are made, only listed five-letter words recorded, and a coloured key absent exactly when its letter is outside the target |
| WordleApp.WordleGame.constructor | src/App.tsx:8-32 | a new game with its secret word: no guesses, empty row, no message, uncoloured keyboard, cursor at 0 |
| WordleApp.WordleGame.HandleKeyPress | src/App.tsx:34-97 | a finished game ignores every key; otherwise BACK, ENTER and letters behave as stated for the three methods below; the invariant is kept |
| WordleApp.WordleGame.EraseLetter | src/App.tsx:37-39 | the last letter of the row goes and the cursor becomes `max(0, cursor - 1)`; nothing else changes |
| WordleApp.WordleGame.SubmitGuess | src/App.tsx:40-92 | a row of the wrong length or outside the list only raises its warning; an accepted row is appended to the guesses, the row and cursor are reset, the keyboard follows the colouring rules, the game ends exactly on a win or on the sixth guess with the matching message |
| WordleApp.WordleGame.TypeLetter | src/App.tsx:93-96 | a letter is appended only while the row has fewer than five, and the cursor becomes `min(4, cursor + 1)` |
| WordleApp.WordleGame.ExpireLengthWarning | src/App.tsx:45-48 | the final state after the wrong-length timer: warning and message cleared, nothing else changed |
| WordleApp.WordleGame.ExpireInvalidWordWarning | src/App.tsx:56-61 | the final state after the unknown-word timer: warning cleared, row emptied, cursor at 0 |
| WordHistory.Added | src/utils/wordHistory.ts:8-18 | the new history has at most 50 entries, one more than before until 50 is reached, starts with the word and continues with a prefix of the old history |
| WordHistory.AddedKeepsDuplicates | src/utils/wordHistory.ts:12-15 | below 50 entries the word is added to the multiset even when already present; at 50 the oldest entry falls off |
| WordHistory.Pick | src/utils/wordHistory.ts:30-39 | the chosen word is from the list, and between 1 and `attempts + 1` draws are used |
| WordHistory.PickFirstFresh | src/utils/wordHistory.ts:30-36 | if the first draw outside the history is among the attempts, that word is chosen |
| WordHistory.PickFallback | src/utils/wordHistory.ts:30-39 | if every attempt hits the history, one more draw is taken as is |
| WordHistory.Store.constructor | src/utils/wordHistory.ts:4-5 | with nothing stored the history is empty |
| WordHistory.Store.AddWordToHistory | src/utils/wordHistory.ts:8-18 | the stored history becomes the first 50 entries of the word followed by the old history |
| WordHistory.Store.IsWordInHistory | src/utils/wordHistory.ts:20-23 | true exactly when some entry of the history is the word |
| WordHistory.Store.GetRandomWordNotInHistory | src/utils/wordHistory.ts:25-40 | an empty list yields no word; otherwise it is the first of at most 100 draws outside the history, or one more draw taken as is, so always a word of the list |

## Left out

- The user interface is not part of this model: JSX, styling, `Keyboard.tsx`,
  `GameMenu.tsx`, `Header.tsx`, `ThemeToggle.tsx`, `Button.tsx`, the drag image
  built in `handleDragStart` of the Jackpot game, and the Hashtag hint button.
- The Hashtag hint button is disabled at `movesLeft <= 0`. The drop itself never
  looks at `movesLeft`, and `HashtagGame.Board.HandleDrop` states that.
- The `setTimeout` callbacks run later. Only the state they leave behind is modelled,
  by `ExpireLengthWarning` and `ExpireInvalidWordWarning`. The zero-delay timer that
  removes the drag image is left out with the drag image.
- `console.log` and `print_combi` only print, so they are left out.
- `localStorage` and JSON encoding are not modelled. The stored list is the field
  `WordHistory.Store.history`, and every call reads it directly.
- The word lists (`WORDS5`, `words`, `words_secret`) are not part of this model. They
  are parameters, assumed to hold five-letter words where the source indexes
  letters.
- The main menu that picks a secret word from the history is not modelled. The
  initial `useEffect` and `resetGame` of the Wordle app are modelled only through
  `WordleGame.constructor`, which receives the chosen word.
- Probabilities are not modelled. The random source is arbitrary, and nothing is
  said about distributions or the 0.2 acceptance rate.
- Common.Draw: a raw choice outside `[0, n)` is read as the last index. Every index
  can still be produced.
- The unbounded retry loops of `findJackpotWords` and `find_combination_internal`
  run for at most `fuel` rounds. The source loop may run longer.
- Each array's random order is fixed by the random source and the cursor. Nothing
  is said about which permutation comes out.
- JackpotFindWords.ShuffleArray: the ensures gives only the exact result. The
  permutation property is the separate lemma `ShuffledPermutes`.
- JackpotFindWords.FisherYates: the ensures gives only the length. The multiset is
  the separate lemma `FisherYatesPermutes`, which keeps every caller's proof small.
- JackpotFindWords.Shuffled: the ensures gives only the length. The multiset is the
  separate lemma `ShuffledPermutes`, for the same reason.
- WordleApp.Expected: a correct key is said to stay correct only on a keyboard
  consistent with the target. On any other keyboard the source turns a correct key
  whose letter the target lacks into absent, and the model does the same.
- JackpotGame.GeneratePuzzle: states the board properties the game needs, not the
  generator's full puzzle conditions. Those are stated by
  `JackpotFindWords.FindJackpotWords`.
- When the dictionary is empty, the Jackpot search draws `undefined` words that
  never pass the distinctness check. The model uses up one round of fuel per
  attempt and ends with `SearchExhausted`.
- WordleBoard.Score: requires five-letter guesses, as the app only scores submitted
  words, which must have five letters.
- The score announcement (`onGameEnd`) is modelled only as the `won` result of
  `JackpotGame.Game.HandleDrop`.
- `messageType` is not modelled beyond the `Message` value it accompanies.
