/** The list of recently played secret words, newest first, kept so that a new
    game avoids repeating them.  The browser's storage is the `history` field. */
module WordHistory {
  import opened Common

  const MAX_HISTORY_SIZE: nat := 50
  const MAX_ATTEMPTS: nat := 100

  /** The history after adding `word`: the first 50 entries of `[word] + history`. */
  function Added(history: seq<string>, word: string): (r: seq<string>)
    ensures |r| <= MAX_HISTORY_SIZE
    ensures |r| == if |history| < MAX_HISTORY_SIZE then |history| + 1 else MAX_HISTORY_SIZE
    ensures r[0] == word && r[1..] <= history
  {
    var full := [word] + history;
    var n := if |full| < MAX_HISTORY_SIZE then |full| else MAX_HISTORY_SIZE;
    assert full[1..] == history;
    full[..n]
  }

  /** No deduplication: a word already present gains a second copy, and only the
      oldest entry can fall off. */
  lemma AddedKeepsDuplicates(history: seq<string>, word: string)
    ensures |history| < MAX_HISTORY_SIZE ==>
              multiset(Added(history, word)) == multiset(history) + multiset{word}
    ensures |history| >= MAX_HISTORY_SIZE ==>
              Added(history, word) == [word] + history[..MAX_HISTORY_SIZE - 1]
  {
    var r := Added(history, word);
    if |history| < MAX_HISTORY_SIZE {
      assert r == [word] + history;
    } else {
      assert r[1..] == history[..MAX_HISTORY_SIZE - 1];
      assert r == [r[0]] + r[1..];
    }
  }

  /** The word drawn at random index `k`. */
  function Drawn(wordList: seq<string>, rand: RandomSource, k: nat): string
    requires wordList != []
  {
    wordList[Draw(rand, k, |wordList|)]
  }

  /** The retry loop with `attempts` tries left, starting at draw `k`: the chosen
      word and the next unused draw. */
  function Pick(wordList: seq<string>, history: seq<string>, rand: RandomSource, k: nat, attempts: nat)
    : (r: (string, nat))
    requires wordList != []
    ensures r.0 in wordList && k < r.1 <= k + attempts + 1
    decreases attempts
  {
    if attempts == 0 then (Drawn(wordList, rand, k), k + 1)
    else if Drawn(wordList, rand, k) !in history then (Drawn(wordList, rand, k), k + 1)
    else Pick(wordList, history, rand, k + 1, attempts - 1)
  }

  /** If draw `k + j` is the first of the tries (draws `k`, `k + 1`, ...) to miss the history, that word is
      the one chosen. */
  lemma {:induction false} PickFirstFresh(wordList: seq<string>, history: seq<string>, rand: RandomSource,
                                          k: nat, attempts: nat, j: nat)
    requires wordList != [] && j < attempts
    requires Drawn(wordList, rand, k + j) !in history
    requires forall d :: k <= d < k + j ==> Drawn(wordList, rand, d) in history
    ensures Pick(wordList, history, rand, k, attempts) == (Drawn(wordList, rand, k + j), k + j + 1)
    decreases j
  {
    if j > 0 {
      assert Drawn(wordList, rand, k) in history;
      PickFirstFresh(wordList, history, rand, k + 1, attempts - 1, j - 1);
    }
  }

  /** If every try hits the history, one more draw is taken without checking. */
  lemma {:induction false} PickFallback(wordList: seq<string>, history: seq<string>, rand: RandomSource,
                                        k: nat, attempts: nat)
    requires wordList != []
    requires forall d :: k <= d < k + attempts ==> Drawn(wordList, rand, d) in history
    ensures Pick(wordList, history, rand, k, attempts)
            == (Drawn(wordList, rand, k + attempts), k + attempts + 1)
    decreases attempts
  {
    if attempts > 0 {
      assert Drawn(wordList, rand, k) in history;
      PickFallback(wordList, history, rand, k + 1, attempts - 1);
    }
  }

  class Store {
    var history: seq<string>

    /** Nothing stored yet: the history is empty. */
    constructor ()
      ensures history == []
    {
      history := [];
    }

    method AddWordToHistory(word: string)
      modifies this
      ensures history == Added(old(history), word)
    {
      var full := [word] + history;
      history := full[..if |full| < MAX_HISTORY_SIZE then |full| else MAX_HISTORY_SIZE];
    }

    function IsWordInHistory(word: string): (r: bool)
      reads this
      ensures r <==> exists i :: 0 <= i < |history| && history[i] == word
    {
      word in history
    }

    /** Up to 100 draws looking for a word outside the history, then one more draw
        taken as is.  An empty list yields no word (the source's `undefined`). */
    method GetRandomWordNotInHistory(wordList: seq<string>, rand: RandomSource, k: nat)
      returns (word: Option<string>, next: nat)
      ensures wordList == [] ==> word == None && next == k + 1
      ensures wordList != [] ==> word.Some? && (word.value, next) == Pick(wordList, history, rand, k, MAX_ATTEMPTS)
    {
      if wordList == [] {
        return None, k + 1;
      }
      var attempts := 0;
      next := k;
      while attempts < MAX_ATTEMPTS
        invariant 0 <= attempts <= MAX_ATTEMPTS && next == k + attempts
        invariant Pick(wordList, history, rand, k, MAX_ATTEMPTS)
                  == Pick(wordList, history, rand, next, MAX_ATTEMPTS - attempts)
      {
        var w := wordList[Draw(rand, next, |wordList|)];
        next := next + 1;
        if w !in history {
          return Some(w), next;
        }
        attempts := attempts + 1;
      }
      word := Some(wordList[Draw(rand, next, |wordList|)]);
      next := next + 1;
    }
  }
}
