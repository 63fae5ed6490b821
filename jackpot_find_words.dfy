/** The Jackpot puzzle generator: draw N column-distinct words, then scramble every
    column but the first by row permutations whose "kept consecutive pairs" are
    rationed by a budget. */
module JackpotFindWords {
  import opened Common
  import opened RareLetters

  const MAX_ATTEMPTS: nat := 1000
  const MIN_WORDS: int := 3
  const MAX_WORDS: int := 5


  datatype JackpotWord = JackpotWord(originalWord: string, currentWord: string, isValid: bool)

  datatype GenError = WordCountOutOfRange | PermutationNotFound | SearchExhausted

  // ---------------------------------------------------------------------------
  // Column distinctness

  /** `word[position]` in the source: `undefined` past the end of the word. */
  function CharAt(w: string, p: nat): Option<char>
  {
    if p < |w| then Some(w[p]) else None
  }

  function LettersAt(words: seq<string>, p: nat): seq<Option<char>>
  {
    seq(|words|, i requires 0 <= i < |words| => CharAt(words[i], p))
  }

  function Elements<T>(s: seq<T>): set<T>
  {
    set x | x in s
  }

  ghost predicate Distinct<T>(s: seq<T>)
  {
    forall i, j :: 0 <= i < j < |s| ==> s[i] != s[j]
  }

  /** `new Set(words.map(w => w[position])).size === words.length`: it holds exactly
      when the letters (or `undefined`) of all words at that position are pairwise
      distinct. */
  predicate AreLettersDifferentAtPosition(words: seq<string>, p: nat): (r: bool)
    ensures r <==> forall i, j :: 0 <= i < j < |words| ==> CharAt(words[i], p) != CharAt(words[j], p)
  {
    var col := LettersAt(words, p);
    ElementsCardinality(col);
    assert forall i :: 0 <= i < |words| ==> col[i] == CharAt(words[i], p);
    |Elements(col)| == |words|
  }

  /** A sequence has as many distinct elements as entries exactly when no value repeats. */
  lemma {:induction false} ElementsCardinality<T>(s: seq<T>)
    ensures |Elements(s)| <= |s|
    ensures |Elements(s)| == |s| <==> Distinct(s)
  {
    if s != [] {
      var init, last := s[..|s| - 1], s[|s| - 1];
      assert s == init + [last];
      assert Elements(s) == Elements(init) + {last};
      ElementsCardinality(init);
      if last in Elements(init) {
        var j :| 0 <= j < |init| && init[j] == last;
        assert s[j] == s[|s| - 1];
      } else {
        assert Distinct(s) <==> Distinct(init);
      }
    }
  }

  /** Every one of the five columns passes the check. */
  predicate ColumnsDistinct(words: seq<string>)
  {
    forall pos :: 0 <= pos < WORD_LENGTH ==> AreLettersDifferentAtPosition(words, pos)
  }

  lemma ColumnsDistinctIff(words: seq<string>)
    ensures ColumnsDistinct(words) <==>
              forall pos, i, j :: 0 <= pos < WORD_LENGTH && 0 <= i < j < |words| ==>
                CharAt(words[i], pos) != CharAt(words[j], pos)
  {
    if !ColumnsDistinct(words) {
      var pos :| 0 <= pos < WORD_LENGTH && !AreLettersDifferentAtPosition(words, pos);
      var i, j :| 0 <= i < j < |words| && CharAt(words[i], pos) == CharAt(words[j], pos);
    } else {
      forall pos, i, j | 0 <= pos < WORD_LENGTH && 0 <= i < j < |words|
        ensures CharAt(words[i], pos) != CharAt(words[j], pos)
      {
        assert AreLettersDifferentAtPosition(words, pos);
      }
    }
  }

  // ---------------------------------------------------------------------------
  // Rare letters

  /** `words.join('')`: five letters per word of a word list. */
  function Join(words: seq<string>): (r: string)
    ensures AllWords(words) ==> |r| == WORD_LENGTH * |words|
  {
    if words == [] then "" else words[0] + Join(words[1..])
  }

  lemma {:induction false} JoinAppend(a: seq<string>, b: seq<string>)
    ensures Join(a + b) == Join(a) + Join(b)
  {
    if a == [] {
      assert a + b == b;
    } else {
      assert (a + b)[1..] == a[1..] + b;
      JoinAppend(a[1..], b);
    }
  }

  /** `countRareLetters`: the rare letters of all the words; a single word's own
      count, and at most five per word. */
  function CountRareLetters(words: seq<string>): (r: nat)
    ensures |words| == 1 ==> r == CountRare(words[0])
    ensures AllWords(words) ==> r <= WORD_LENGTH * |words|
  {
    assert |words| == 1 ==> Join(words) == words[0] + Join([]);
    assert |words| == 1 ==> Join(words) == words[0];
    CountRare(Join(words))
  }

  /** The rare-letter count of a word list is additive over splitting the list. */
  lemma CountRareLettersSplit(a: seq<string>, b: seq<string>)
    ensures CountRareLetters(a + b) == CountRareLetters(a) + CountRareLetters(b)
  {
    JoinAppend(a, b);
    CountRareAppend(Join(a), Join(b));
  }

  // ---------------------------------------------------------------------------
  // Matching elements

  /** Number of positions `i < |a|` where `a[i] === b[i]` (an index past the end of
      `b` reads `undefined` and never matches). */
  function Matches<T(==)>(a: seq<T>, b: seq<T>): (r: nat)
    ensures r <= |a|
  {
    if a == [] then 0
    else Matches(a[..|a| - 1], b) + (if |a| - 1 < |b| && a[|a| - 1] == b[|a| - 1] then 1 else 0)
  }

  lemma {:induction false} MatchesPrefix<T>(a: seq<T>, b: seq<T>, n: nat)
    requires n <= |a| && |a| == |b|
    ensures Matches(a[..n], b) == |a[..n]| <==> a[..n] == b[..n]
  {
    if n > 0 {
      assert a[..n][..n - 1] == a[..n - 1];
      MatchesPrefix(a, b, n - 1);
      if a[..n] == b[..n] {
        assert a[..n - 1] == b[..n - 1];
        assert a[n - 1] == b[n - 1];
      }
      if a[..n - 1] == b[..n - 1] && a[n - 1] == b[n - 1] {
        assert a[..n] == b[..n - 1] + [b[n - 1]] == b[..n];
      }
    }
  }

  /** Two sequences of one length match everywhere exactly when they are equal. */
  lemma MatchesAllIff<T>(a: seq<T>, b: seq<T>)
    requires |a| == |b|
    ensures Matches(a, b) == |a| <==> a == b
  {
    MatchesPrefix(a, b, |a|);
    assert a[..|a|] == a && b[..|b|] == b;
  }

  /** `countMatchingElements`: a counter loop. */
  method CountMatchingElements<T(==)>(a: seq<T>, b: seq<T>) returns (count: nat)
    ensures count == Matches(a, b)
    ensures count <= |a|
    ensures |a| == |b| ==> (count == |a| <==> a == b)
  {
    count := 0;
    for i := 0 to |a|
      invariant count == Matches(a[..i], b)
    {
      assert a[..i + 1][..i] == a[..i];
      if i < |b| && a[i] == b[i] {
        count := count + 1;
      }
    }
    assert a[..|a|] == a;
    if |a| == |b| {
      MatchesAllIff(a, b);
    }
  }

  // ---------------------------------------------------------------------------
  // Fisher-Yates shuffle

  function Swap<T>(s: seq<T>, i: nat, j: nat): (r: seq<T>)
    requires i < |s| && j < |s|
  {
    s[i := s[j]][j := s[i]]
  }

  /** The descending Fisher-Yates loop from index `i` down to 1: step `i` swaps `i`
      with `j = Draw(rand, k, i + 1)`, so always `j <= i`. */
  function FisherYates<T>(s: seq<T>, i: nat, rand: RandomSource, k: nat): (r: seq<T>)
    requires i < |s|
    ensures |r| == |s|
    decreases i
  {
    if i == 0 then s
    else FisherYates(Swap(s, i, Draw(rand, k, i + 1)), i - 1, rand, k + 1)
  }

  /** `shuffleArray` on a sequence. */
  function Shuffled<T>(s: seq<T>, rand: RandomSource, k: nat): (r: seq<T>)
    ensures |r| == |s|
  {
    if |s| == 0 then s else FisherYates(s, |s| - 1, rand, k)
  }

  /** Draws consumed by one shuffle: one per index from `|s| - 1` down to 1. */
  function ShuffleDraws(n: nat): nat
  {
    if n == 0 then 0 else n - 1
  }

  lemma SwapPermutes<T>(s: seq<T>, i: nat, j: nat)
    requires i < |s| && j < |s|
    ensures |Swap(s, i, j)| == |s| && multiset(Swap(s, i, j)) == multiset(s)
  {
    var t := s[i := s[j]];
    assert multiset(t) == multiset(s) - multiset{s[i]} + multiset{s[j]};
    assert t[j] == s[j];
    assert multiset(t[j := s[i]]) == multiset(t) - multiset{s[j]} + multiset{s[i]};
  }

  lemma {:induction false} FisherYatesPermutes<T>(s: seq<T>, i: nat, rand: RandomSource, k: nat)
    requires i < |s|
    ensures |FisherYates(s, i, rand, k)| == |s|
    ensures multiset(FisherYates(s, i, rand, k)) == multiset(s)
    decreases i
  {
    if i > 0 {
      var j := Draw(rand, k, i + 1);
      SwapPermutes(s, i, j);
      FisherYatesPermutes(Swap(s, i, j), i - 1, rand, k + 1);
    }
  }

  /** A shuffle returns a permutation of its input. */
  lemma ShuffledPermutes<T>(s: seq<T>, rand: RandomSource, k: nat)
    ensures |Shuffled(s, rand, k)| == |s|
    ensures multiset(Shuffled(s, rand, k)) == multiset(s)
  {
    if |s| > 0 {
      FisherYatesPermutes(s, |s| - 1, rand, k);
    }
  }

  /** One turn of the shuffle loop keeps the result it is heading for. */
  lemma FisherYatesStep<T>(before: seq<T>, after: seq<T>, i: nat, rand: RandomSource, k: nat, target: seq<T>)
    requires 0 < i < |before| && FisherYates(before, i, rand, k) == target
    requires after == Swap(before, i, Draw(rand, k, i + 1))
    ensures FisherYates(after, i - 1, rand, k + 1) == target
  {
  }

  /** `[array[i], array[j]] = [array[j], array[i]]`. */
  method Exchange<T>(a: array<T>, i: nat, j: nat)
    requires i < a.Length && j < a.Length
    modifies a
    ensures a[..] == Swap(old(a[..]), i, j)
  {
    var t := a[i];
    a[i] := a[j];
    a[j] := t;
  }

  /** `shuffleArray`: Fisher-Yates in place. */
  method ShuffleArray<T>(a: array<T>, rand: RandomSource, k: nat) returns (next: nat)
    modifies a
    ensures a[..] == Shuffled(old(a[..]), rand, k)
    ensures next == k + ShuffleDraws(a.Length)
  {
    next := k;
    if a.Length == 0 {
      return;
    }
    assert ShuffleDraws(a.Length) == a.Length - 1;
    ghost var s0 := a[..];
    ghost var target := Shuffled(s0, rand, k);
    var i: nat := a.Length - 1;
    while i > 0
      invariant i < a.Length && next == k + (a.Length - 1 - i)
      invariant FisherYates(a[..], i, rand, next) == target
    {
      var j := Draw(rand, next, i + 1);
      ghost var before := a[..];
      Exchange(a, i, j);
      FisherYatesStep(before, a[..], i, rand, next, target);
      i := i - 1;
      next := next + 1;
    }
  }

  /** `[...array]` followed by `shuffleArray`: shuffle a fresh copy of a sequence. */
  method ShuffleCopy(s: seq<int>, rand: RandomSource, k: nat) returns (r: seq<int>, next: nat)
    ensures r == Shuffled(s, rand, k)
    ensures next == k + ShuffleDraws(|s|)
  {
    var a := new int[|s|](i requires 0 <= i < |s| => s[i]);
    assert a[..] == s;
    next := ShuffleArray(a, rand, k);
    r := a[..];
  }

  // ---------------------------------------------------------------------------
  // findValidPermutation

  datatype Verdict = Accepted(perm: seq<int>, budget: int) | Rejected

  /** One attempt of the retry loop: shuffle, count the positions that keep the
      previous assignment, then reject the unchanged assignment, ration the
      one-match case through the budget and a coin, and accept everything else. */
  function Attempt(prev: seq<int>, budget: int, rand: RandomSource, k: nat): (r: (Verdict, nat))
    ensures r.0.Accepted? ==> AcceptedPermutation(prev, budget, r.0.perm, r.0.budget)
    ensures k + ShuffleDraws(|prev|) <= r.1 <= k + ShuffleDraws(|prev|) + 1
  {
    var shuffled := Shuffled(prev, rand, k);
    var k1 := k + ShuffleDraws(|prev|);
    var m := Matches(shuffled, prev);
    ShuffledPermutes(prev, rand, k);
    ShortPermutationIsIdentity(shuffled, prev);
    MatchesAllIff(shuffled, prev);
    if m == |prev| then (Rejected, k1)
    else if m == 1 then
      if budget > 0 then
        if Coin(rand, k1) then (Accepted(shuffled, budget - 1), k1 + 1) else (Rejected, k1 + 1)
      else (Rejected, k1)
    else (Accepted(shuffled, budget), k1)
  }

  /** The retry loop with `attempts` attempts left; `None` once they are used up.
      Whatever it returns is an accepted permutation. */
  function Search(prev: seq<int>, budget: int, rand: RandomSource, k: nat, attempts: nat)
    : (r: (Option<(seq<int>, int)>, nat))
    ensures r.0.Some? ==> AcceptedPermutation(prev, budget, r.0.value.0, r.0.value.1)
    ensures attempts == 0 ==> r.0 == None
    decreases attempts
  {
    if attempts == 0 then (None, k)
    else
      var (v, k1) := Attempt(prev, budget, rand, k);
      match v
      case Accepted(p, b) => (Some((p, b)), k1)
      case Rejected => Search(prev, budget, rand, k1, attempts - 1)
  }

  /** What an accepted permutation satisfies: it permutes `prev`, differs from it,
      and the budget drops by one exactly for a single-match permutation. */
  ghost predicate AcceptedPermutation(prev: seq<int>, budget: int, p: seq<int>, b: int)
  {
    && |p| == |prev| >= 2
    && multiset(p) == multiset(prev)
    && Matches(p, prev) < |prev|
    && p != prev
    && (Matches(p, prev) == 1 ==> budget > 0 && b == budget - 1)
    && (Matches(p, prev) != 1 ==> b == budget)
    && (budget >= 0 ==> b >= 0)
  }

  /** A sequence of at most one element has no permutation but itself. */
  lemma ShortPermutationIsIdentity(s: seq<int>, t: seq<int>)
    requires |s| == |t| && multiset(s) == multiset(t)
    ensures |s| <= 1 ==> s == t
  {
    if |s| == 1 {
      assert s[0] in multiset(t);
    }
  }

  /** With fewer than two rows no permutation differs from the previous one, so every
      attempt is rejected and the search always fails. */
  lemma {:induction false} SearchFailsOnShortArrays(prev: seq<int>, budget: int, rand: RandomSource, k: nat, attempts: nat)
    requires |prev| <= 1
    ensures Search(prev, budget, rand, k, attempts).0 == None
    decreases attempts
  {
    if attempts > 0 {
      var (v, k1) := Attempt(prev, budget, rand, k);
        ShuffledPermutes(prev, rand, k);
      var s := Shuffled(prev, rand, k);
      ShortPermutationIsIdentity(s, prev);
      MatchesAllIff(s, prev);
      SearchFailsOnShortArrays(prev, budget, rand, k1, attempts - 1);
    }
  }

  /** As written, a permutation keeping two pairs is accepted even with no budget
      left: with four rows, swapping rows 0 and 1 keeps rows 2 and 3. */
  lemma TwoKeptPairsAcceptedWithoutBudget()
    ensures Attempt([0, 1, 2, 3], 0, (x: nat) => if x == 0 then 3 else if x == 1 then 2 else 0, 0)
            == (Accepted([1, 0, 2, 3], 0), 3)
  {
    var rand: RandomSource := (x: nat) => if x == 0 then 3 else if x == 1 then 2 else 0;
    assert rand(0) == 3 && rand(1) == 2 && rand(2) == 0;
    var s := [0, 1, 2, 3];
    assert Swap(s, 3, 3) == s && Swap(s, 2, 2) == s;
    assert FisherYates(s, 3, rand, 0) == FisherYates(s, 2, rand, 1);
    assert FisherYates(s, 2, rand, 1) == FisherYates(s, 1, rand, 2);
    assert FisherYates(s, 1, rand, 2) == FisherYates([1, 0, 2, 3], 0, rand, 3);
    assert Shuffled(s, rand, 0) == [1, 0, 2, 3];
    var b := [0, 1, 2, 3];
    assert [1, 0, 2, 3][..3] == [1, 0, 2] && [1, 0, 2][..2] == [1, 0] && [1, 0][..1] == [1] && [1][..0] == [];
    assert Matches([1], b) == 0;
    assert Matches([1, 0], b) == 0;
    assert Matches([1, 0, 2], b) == 1;
    assert Matches([1, 0, 2, 3], b) == 2;
  }

  lemma SearchRejectStep(prev: seq<int>, budget: int, rand: RandomSource, k: nat, attempts: nat)
    requires attempts > 0 && Attempt(prev, budget, rand, k).0 == Rejected
    ensures Search(prev, budget, rand, k, attempts) == Search(prev, budget, rand, Attempt(prev, budget, rand, k).1, attempts - 1)
  {
  }

  lemma SearchAcceptStep(prev: seq<int>, budget: int, rand: RandomSource, k: nat, attempts: nat)
    requires attempts > 0 && Attempt(prev, budget, rand, k).0.Accepted?
    ensures var (v, k1) := Attempt(prev, budget, rand, k);
            Search(prev, budget, rand, k, attempts) == (Some((v.perm, v.budget)), k1)
  {
  }

  /** The body of the retry loop of `findValidPermutation`: one shuffle of a copy
      and the checks on its matching count. */
  method TryPermutation(prev: seq<int>, budget: int, rand: RandomSource, k: nat) returns (v: Verdict, next: nat)
    ensures (v, next) == Attempt(prev, budget, rand, k)
  {
    var shuffled, k1 := ShuffleCopy(prev, rand, k);
    var m := CountMatchingElements(shuffled, prev);
    if m == |prev| {
      return Rejected, k1;
    }
    if m == 1 {
      if budget > 0 {
        if Coin(rand, k1) {
          return Accepted(shuffled, budget - 1), k1 + 1;
        } else {
          return Rejected, k1 + 1;
        }
      } else {
        return Rejected, k1;
      }
    } else {
      return Accepted(shuffled, budget), k1;
    }
  }

  /** `findValidPermutation`: up to 1000 attempts; `None` when the loop falls off
      the end of the function. */
  method FindValidPermutation(prev: seq<int>, budget: int, rand: RandomSource, k: nat)
    returns (res: Option<(seq<int>, int)>, next: nat)
    ensures (res, next) == Search(prev, budget, rand, k, MAX_ATTEMPTS)
    ensures res.Some? ==> AcceptedPermutation(prev, budget, res.value.0, res.value.1)
  {
    var attempts := 0;
    next := k;
    while attempts < MAX_ATTEMPTS
      invariant 0 <= attempts <= MAX_ATTEMPTS
      invariant Search(prev, budget, rand, k, MAX_ATTEMPTS) == Search(prev, budget, rand, next, MAX_ATTEMPTS - attempts)
    {
      ghost var cur, left := next, MAX_ATTEMPTS - attempts;
      attempts := attempts + 1;
      var verdict, k1 := TryPermutation(prev, budget, rand, next);
      next := k1;
      if verdict.Accepted? {
        SearchAcceptStep(prev, budget, rand, cur, left);
        res := Some((verdict.perm, verdict.budget));
        return;
      }
      SearchRejectStep(prev, budget, rand, cur, left);
    }
    res := None;
  }

  // ---------------------------------------------------------------------------
  // replaceCharAt

  /** `replaceCharAt`: throws on an index outside `[0, |s|)`. */
  function ReplaceCharAt(s: string, index: int, replacement: string): (r: Result<string, ()>)
    ensures r.Err? <==> index < 0 || index >= |s|
    ensures r.Ok? ==> |r.value| == |s| - 1 + |replacement|
    ensures r.Ok? && |replacement| == 1 ==>
              r.value[index] == replacement[0] &&
              forall i :: 0 <= i < |s| && i != index ==> r.value[i] == s[i]
  {
    if index < 0 || index >= |s| then Err(())
    else Ok(s[..index] + replacement + s[index + 1..])
  }

  // ---------------------------------------------------------------------------
  // shuffleLettersAtPosition

  /** `[0, 1, ..., n - 1]`: every row shows its own word. */
  function Identity(n: nat): (r: seq<int>)
    ensures |r| == n && forall i :: 0 <= i < n ==> r[i] == i
  {
    seq(n, i requires 0 <= i < n => i)
  }

  /** Column `p` of a list of words. */
  function Column(words: seq<string>, p: nat): seq<char>
    requires forall i :: 0 <= i < |words| ==> p < |words[i]|
  {
    seq(|words|, i requires 0 <= i < |words| => words[i][p])
  }

  /** `words[r][p]`, or a blank where that reads past the list or the word. */
  function LetterOf(words: seq<string>, r: int, p: nat): char
  {
    if 0 <= r < |words| && p < |words[r]| then words[r][p] else ' '
  }

  /** Letters of column `p` taken from the rows that `rows` lists. */
  function Gather(words: seq<string>, rows: seq<int>, p: nat): seq<char>
  {
    if rows == [] then [] else [LetterOf(words, rows[0], p)] + Gather(words, rows[1..], p)
  }

  lemma {:induction false} GatherAppend(words: seq<string>, a: seq<int>, b: seq<int>, p: nat)
    ensures Gather(words, a + b, p) == Gather(words, a, p) + Gather(words, b, p)
  {
    if a == [] {
      assert a + b == b;
    } else {
      assert (a + b)[1..] == a[1..] + b;
      GatherAppend(words, a[1..], b, p);
    }
  }

  /** Taking row `b[j]` out of the list takes its letter out of the gathered letters. */
  lemma GatherRemove(words: seq<string>, b: seq<int>, j: nat, p: nat)
    requires j < |b|
    ensures multiset(Gather(words, b, p)) ==
            multiset(Gather(words, b[..j] + b[j + 1..], p)) + multiset{LetterOf(words, b[j], p)}
  {
    var left, right := b[..j], b[j + 1..];
    assert b == left + [b[j]] + right;
    GatherAppend(words, left, right, p);
    GatherAppend(words, left, [b[j]], p);
    GatherAppend(words, left + [b[j]], right, p);
    assert Gather(words, [b[j]], p) == [LetterOf(words, b[j], p)];
  }

  /** Gathering depends on the rows only through their multiset. */
  lemma RemoveAtMultiset(b: seq<int>, j: nat)
    requires j < |b|
    ensures multiset(b[..j] + b[j + 1..]) == multiset(b) - multiset{b[j]}
  {
    assert b == b[..j] + [b[j]] + b[j + 1..];
  }

  lemma TailMultisetOf<T>(a: seq<T>)
    requires a != []
    ensures multiset(a[1..]) == multiset(a) - multiset{a[0]}
  {
    assert a == [a[0]] + a[1..];
  }

  lemma GatherHeadStep(words: seq<string>, a: seq<int>, b: seq<int>, j: nat, p: nat)
    requires a != [] && j < |b| && b[j] == a[0]
    requires multiset(Gather(words, a[1..], p)) == multiset(Gather(words, b[..j] + b[j + 1..], p))
    ensures multiset(Gather(words, a, p)) == multiset(Gather(words, b, p))
  {
    GatherRemove(words, b, j, p);
    assert Gather(words, a, p) == [LetterOf(words, a[0], p)] + Gather(words, a[1..], p);
  }

  lemma {:induction false} GatherMultiset(words: seq<string>, a: seq<int>, b: seq<int>, p: nat)
    requires multiset(a) == multiset(b)
    ensures multiset(Gather(words, a, p)) == multiset(Gather(words, b, p))
    decreases |a|
  {
    if a != [] {
      assert a[0] in multiset(b);
      var j :| 0 <= j < |b| && b[j] == a[0];
      RemoveAtMultiset(b, j);
      TailMultisetOf(a);
      GatherMultiset(words, a[1..], b[..j] + b[j + 1..], p);
      GatherHeadStep(words, a, b, j, p);
    }
  }

  lemma {:induction false} GatherIdentity(words: seq<string>, p: nat, n: nat)
    requires n <= |words|
    requires forall i :: 0 <= i < |words| ==> p < |words[i]|
    ensures Gather(words, Identity(|words|)[n..], p) == Column(words, p)[n..]
    decreases |words| - n
  {
    if n < |words| {
      assert Identity(|words|)[n..][1..] == Identity(|words|)[n + 1..];
      GatherIdentity(words, p, n + 1);
      assert Column(words, p)[n..] == [words[n][p]] + Column(words, p)[n + 1..];
    }
  }

  lemma {:induction false} GatherIsColumn(words: seq<string>, rows: seq<int>, p: nat, out: seq<string>)
    requires |out| == |rows|
    requires forall i :: 0 <= i < |out| ==> p < |out[i]| && out[i][p] == LetterOf(words, rows[i], p)
    ensures Gather(words, rows, p) == Column(out, p)
    decreases |rows|
  {
    if rows != [] {
      GatherIsColumn(words, rows[1..], p, out[1..]);
      assert Column(out, p) == [out[0][p]] + Column(out[1..], p);
    }
  }

  /** Number of columns `1 .. p` whose assignment keeps exactly one row of the
      previous column's assignment. */
  function SingleKeptColumns(assigns: seq<seq<int>>, p: nat): nat
    requires p < |assigns|
  {
    if p == 0 then 0
    else SingleKeptColumns(assigns, p - 1) + (if Matches(assigns[p], assigns[p - 1]) == 1 then 1 else 0)
  }

  /** The row assignments of a shuffle: `assigns[p][i]` is the word whose letter row `i`
      shows in column `p`.  Column 0 is the identity; every later column is a
      permutation of the rows that differs from the previous column's assignment;
      at most `n - 1` columns keep exactly one row of it. */
  ghost predicate ControlledAssignments(n: nat, assigns: seq<seq<int>>)
  {
    && |assigns| == WORD_LENGTH
    && assigns[0] == Identity(n)
    && (forall p :: 0 <= p < WORD_LENGTH ==> multiset(assigns[p]) == multiset(Identity(n)))
    && (forall p, i :: 0 <= p < WORD_LENGTH && 0 <= i < |assigns[p]| ==> 0 <= assigns[p][i] < n)
    && (forall p :: 1 <= p < WORD_LENGTH ==> |assigns[p]| == n && Matches(assigns[p], assigns[p - 1]) < n)
    && SingleKeptColumns(assigns, WORD_LENGTH - 1) <= n - 1
  }

  /** The result of a shuffle: column 0 unchanged, column `p` of row `i` is the letter
      of word `assigns[p][i]`, and so every column is the original column permuted. */
  ghost predicate ShuffleOf(words: seq<string>, shuffled: seq<string>, assigns: seq<seq<int>>)
    requires AllWords(words)
  {
    && |shuffled| == |words|
    && ControlledAssignments(|words|, assigns)
    && (forall i :: 0 <= i < |shuffled| ==> IsWord(shuffled[i]))
    && (forall i :: 0 <= i < |shuffled| ==> shuffled[i][0] == words[i][0])
    && (forall p, i :: 1 <= p < WORD_LENGTH && 0 <= i < |shuffled| ==>
          shuffled[i][p] == words[assigns[p][i]][p])
    && (forall p :: 0 <= p < WORD_LENGTH ==> multiset(Column(shuffled, p)) == multiset(Column(words, p)))
  }

  lemma ColumnPermuted(words: seq<string>, shuffled: seq<string>, rows: seq<int>, p: nat)
    requires AllWords(words)
    requires |shuffled| == |words| == |rows| && p < WORD_LENGTH
    requires AllWords(shuffled)
    requires multiset(rows) == multiset(Identity(|words|))
    requires forall i :: 0 <= i < |rows| ==> 0 <= rows[i] < |words|
    requires forall i :: 0 <= i < |shuffled| ==> shuffled[i][p] == words[rows[i]][p]
    ensures multiset(Column(shuffled, p)) == multiset(Column(words, p))
  {
    var id := Identity(|words|);
    GatherIsColumn(words, rows, p, shuffled);
    GatherMultiset(words, rows, id, p);
    GatherIdentity(words, p, 0);
    assert id[0..] == id;
    assert Column(words, p)[0..] == Column(words, p);
  }

  /** The assignments chosen for columns `0 .. |assigns| - 1`: the identity first,
      then permutations of the rows, each differing from its predecessor. */
  ghost predicate AssignmentsSoFar(n: nat, assigns: seq<seq<int>>)
  {
    && |assigns| >= 1
    && assigns[0] == Identity(n)
    && (forall p :: 0 <= p < |assigns| ==> |assigns[p]| == n && multiset(assigns[p]) == multiset(Identity(n)))
    && (forall p, i :: 0 <= p < |assigns| && 0 <= i < |assigns[p]| ==> 0 <= assigns[p][i] < n)
    && (forall p :: 1 <= p < |assigns| ==> Matches(assigns[p], assigns[p - 1]) < n)
  }

  lemma InIdentityRange(n: nat, s: seq<int>)
    requires multiset(s) == multiset(Identity(n))
    ensures forall i :: 0 <= i < |s| ==> 0 <= s[i] < n
  {
    forall i | 0 <= i < |s| ensures 0 <= s[i] < n {
      assert s[i] in multiset(Identity(n));
    }
  }

  lemma ExtendAssignments(n: nat, assigns: seq<seq<int>>, budget: int, perm: seq<int>, budget': int)
    requires AssignmentsSoFar(n, assigns)
    requires AcceptedPermutation(assigns[|assigns| - 1], budget, perm, budget')
    ensures AssignmentsSoFar(n, assigns + [perm])
  {
    var a := assigns + [perm];
    assert a[|assigns|] == perm;
    InIdentityRange(n, perm);
  }

  /** The rows after columns `1 .. position - 1` have been rewritten. */
  ghost predicate RowsSoFar(words: seq<string>, rows: seq<string>, assigns: seq<seq<int>>)
    requires AllWords(words) && |assigns| <= WORD_LENGTH
    requires AssignmentsSoFar(|words|, assigns)
  {
    && |rows| == |words|
    && AllWords(rows)
    && (forall i :: 0 <= i < |rows| ==> rows[i][0] == words[i][0])
    && (forall q, i :: 1 <= q < |assigns| && 0 <= i < |rows| ==> rows[i][q] == words[assigns[q][i]][q])
    && (forall q, i :: |assigns| <= q < WORD_LENGTH && 0 <= i < |rows| ==> rows[i][q] == words[i][q])
  }

  /** `after` is `before` with column `position` of row `r` taken from word `perm[r]`. */
  ghost predicate ColumnWritten(words: seq<string>, perm: seq<int>, position: nat, before: seq<string>, after: seq<string>)
    requires AllWords(words) && position < WORD_LENGTH
  {
    && |after| == |before| == |words| == |perm|
    && AllWords(before) && AllWords(after)
    && (forall r :: 0 <= r < |perm| ==> 0 <= perm[r] < |words|)
    && (forall r :: 0 <= r < |words| ==> after[r][position] == words[perm[r]][position])
    && (forall q, r :: 0 <= q < WORD_LENGTH && q != position && 0 <= r < |words| ==> after[r][q] == before[r][q])
  }

  /** The inner loop of `shuffleLettersAtPosition`: row `i` gets, at `position`, the
      letter of word `perm[i]`; nothing else changes. */
  method WriteColumn(shuffledWords: array<string>, words: seq<string>, perm: seq<int>, position: nat)
    requires shuffledWords.Length == |words| == |perm| && AllWords(words) && position < WORD_LENGTH
    requires forall i :: 0 <= i < |perm| ==> 0 <= perm[i] < |words|
    requires AllWords(shuffledWords[..])
    modifies shuffledWords
    ensures ColumnWritten(words, perm, position, old(shuffledWords[..]), shuffledWords[..])
  {
    ghost var before := shuffledWords[..];
    for i := 0 to |words|
      invariant forall r :: 0 <= r < |words| ==> IsWord(shuffledWords[r])
      invariant forall r :: 0 <= r < i ==> shuffledWords[r][position] == words[perm[r]][position]
      invariant forall r :: i <= r < |words| ==> shuffledWords[r] == before[r]
      invariant forall q, r :: 0 <= q < WORD_LENGTH && q != position && 0 <= r < i ==>
                  shuffledWords[r][q] == before[r][q]
    {
      assert IsWord(before[i]);
      var replaced := ReplaceCharAt(shuffledWords[i], position, [words[perm[i]][position]]);
      shuffledWords[i] := replaced.value;
    }
  }

  lemma ExtendRows(words: seq<string>, before: seq<string>, after: seq<string>, assigns: seq<seq<int>>, perm: seq<int>)
    requires AllWords(words) && |assigns| < WORD_LENGTH
    requires AssignmentsSoFar(|words|, assigns) && AssignmentsSoFar(|words|, assigns + [perm])
    requires RowsSoFar(words, before, assigns)
    requires |after| == |words| == |perm| && AllWords(after)
    requires forall r :: 0 <= r < |perm| ==> 0 <= perm[r] < |words|
    requires forall r :: 0 <= r < |words| ==> after[r][|assigns|] == words[perm[r]][|assigns|]
    requires forall q, r :: 0 <= q < WORD_LENGTH && q != |assigns| && 0 <= r < |words| ==> after[r][q] == before[r][q]
    ensures RowsSoFar(words, after, assigns + [perm])
  {
    var a := assigns + [perm];
    assert forall q :: 0 <= q < |assigns| ==> a[q] == assigns[q];
    assert a[|assigns|] == perm;
  }

  /** `shuffleLettersAtPosition`: for columns 1 to 4, find a permutation of the
      previous column's assignment and write the letters it selects into every row.
      `None` when a search fails (the source then throws on destructuring
      `undefined`).  The ghost `assigns` records each column's assignment. */
  method ShuffleLettersAtPosition(words: seq<string>, rand: RandomSource, k: nat)
    returns (res: Option<seq<string>>, next: nat, ghost assigns: seq<seq<int>>)
    requires AllWords(words)
    ensures res.Some? ==> ShuffleOf(words, res.value, assigns)
    ensures res.Some? ==> |res.value| == |words| && AllWords(res.value)
                          && (forall i :: 0 <= i < |words| ==> res.value[i][0] == words[i][0])
                          && forall p :: 0 <= p < WORD_LENGTH ==>
                               multiset(Column(res.value, p)) == multiset(Column(words, p))
  {
    var n := |words|;
    var shuffledWords := new string[n](i requires 0 <= i < n => words[i]);
    var lastAssign := Identity(n);
    var budget: int := n - 1;
    assigns := [lastAssign];
    next := k;
    assert shuffledWords[..] == words;
    for position := 1 to WORD_LENGTH
      invariant |assigns| == position && lastAssign == assigns[position - 1]
      invariant ShuffleState(words, shuffledWords[..], assigns, budget)
    {
      var found, k1 := FindValidPermutation(lastAssign, budget, rand, next);
      next := k1;
      if found.None? {
        return None, next, assigns;
      }
      var (perm, budget') := found.value;
      InIdentityRange(n, perm);
      ghost var before := shuffledWords[..];
      WriteColumn(shuffledWords, words, perm, position);
      ShuffleStep(words, before, shuffledWords[..], assigns, budget, perm, budget');
      assigns := assigns + [perm];
      lastAssign, budget := perm, budget';
    }
    res := Some(shuffledWords[..]);
    FinishShuffle(words, res.value, assigns, budget);
  }

  /** The state of `shuffleLettersAtPosition` after the columns in `assigns`. */
  ghost predicate ShuffleState(words: seq<string>, rows: seq<string>, assigns: seq<seq<int>>, budget: int)
    requires AllWords(words)
  {
    && 1 <= |assigns| <= WORD_LENGTH
    && AssignmentsSoFar(|words|, assigns)
    && budget == |words| - 1 - SingleKeptColumns(assigns, |assigns| - 1)
    && (|assigns| > 1 ==> |words| >= 2 && budget >= 0)
    && RowsSoFar(words, rows, assigns)
  }

  lemma ShuffleStep(words: seq<string>, before: seq<string>, after: seq<string>, assigns: seq<seq<int>>,
                    budget: int, perm: seq<int>, budget': int)
    requires AllWords(words) && |assigns| < WORD_LENGTH
    requires ShuffleState(words, before, assigns, budget)
    requires AcceptedPermutation(assigns[|assigns| - 1], budget, perm, budget')
    requires ColumnWritten(words, perm, |assigns|, before, after)
    ensures ShuffleState(words, after, assigns + [perm], budget')
  {
    ExtendAssignments(|words|, assigns, budget, perm, budget');
    InIdentityRange(|words|, perm);
    ExtendRows(words, before, after, assigns, perm);
    SingleKeptColumnsStep(assigns, perm);
  }

  lemma FinishShuffle(words: seq<string>, rows: seq<string>, assigns: seq<seq<int>>, budget: int)
    requires AllWords(words) && |assigns| == WORD_LENGTH
    requires ShuffleState(words, rows, assigns, budget)
    ensures ShuffleOf(words, rows, assigns)
  {
    forall p | 0 <= p < WORD_LENGTH
      ensures multiset(Column(rows, p)) == multiset(Column(words, p))
    {
      if p == 0 {
        assert Column(rows, 0) == Column(words, 0);
      } else {
        ColumnPermuted(words, rows, assigns[p], p);
      }
    }
  }

  lemma SingleKeptColumnsStep(assigns: seq<seq<int>>, perm: seq<int>)
    requires |assigns| > 0
    ensures SingleKeptColumns(assigns + [perm], |assigns|) ==
            SingleKeptColumns(assigns, |assigns| - 1) + (if Matches(perm, assigns[|assigns| - 1]) == 1 then 1 else 0)
  {
    SingleKeptColumnsPrefix(assigns, [perm], |assigns| - 1);
  }

  lemma {:induction false} SingleKeptColumnsPrefix(a: seq<seq<int>>, b: seq<seq<int>>, p: nat)
    requires p < |a|
    ensures SingleKeptColumns(a + b, p) == SingleKeptColumns(a, p)
  {
    if p > 0 {
      SingleKeptColumnsPrefix(a, b, p - 1);
    }
  }

  // ---------------------------------------------------------------------------
  // findJackpotWords

  /** `wordCount` words drawn uniformly (with repetition) from the dictionary. */
  function DrawWords(dict: seq<string>, count: nat, rand: RandomSource, k: nat): (r: seq<string>)
    requires |dict| > 0
    ensures |r| == count && forall i :: 0 <= i < count ==> r[i] in dict
    ensures AllWords(dict) ==> AllWords(r)
  {
    var r := seq(count, i requires 0 <= i < count => dict[Draw(rand, k + i, |dict|)]);
    assert forall i :: 0 <= i < count ==> r[i] == dict[Draw(rand, k + i, |dict|)];
    r
  }

  /** The selection checks (`new Set(selectedWords).size`, the five column checks, the
      rare-letter count): for `count` drawn words they hold exactly when the words are
      distinct, differ at every position, and carry at least `count` rare letters. */
  predicate AcceptableSelection(words: seq<string>, count: nat): (r: bool)
    ensures |words| == count ==>
              (r <==> && Distinct(words)
                      && (forall pos, i, j :: 0 <= pos < WORD_LENGTH && 0 <= i < j < |words| ==>
                            CharAt(words[i], pos) != CharAt(words[j], pos))
                      && CountRareLetters(words) >= count)
  {
    ElementsCardinality(words);
    ColumnsDistinctIff(words);
    && |Elements(words)| == count
    && ColumnsDistinct(words)
    && CountRareLetters(words) >= count
  }

  function Originals(puzzle: seq<JackpotWord>): (r: seq<string>)
    ensures |r| == |puzzle| && forall i :: 0 <= i < |r| ==> r[i] == puzzle[i].originalWord
  {
    seq(|puzzle|, i requires 0 <= i < |puzzle| => puzzle[i].originalWord)
  }

  function Currents(puzzle: seq<JackpotWord>): (r: seq<string>)
    ensures |r| == |puzzle| && forall i :: 0 <= i < |r| ==> r[i] == puzzle[i].currentWord
  {
    seq(|puzzle|, i requires 0 <= i < |puzzle| => puzzle[i].currentWord)
  }

  /** The final `map` of `findJackpotWords`: pair every selected word with its shuffled
      form, not yet valid. */
  function MakePuzzle(originals: seq<string>, currents: seq<string>): (r: seq<JackpotWord>)
    requires |originals| == |currents|
    ensures Originals(r) == originals && Currents(r) == currents
    ensures forall i :: 0 <= i < |r| ==> !r[i].isValid
  {
    seq(|originals|, i requires 0 <= i < |originals| => JackpotWord(originals[i], currents[i], false))
  }

  /** What a successful generation returns: `wordCount` entries whose originals are
      distinct dictionary words passing the selection checks, whose current words
      are a controlled shuffle of them, all marked invalid. */
  ghost predicate JackpotPuzzle(dict: seq<string>, wordCount: nat, puzzle: seq<JackpotWord>, assigns: seq<seq<int>>)
    requires AllWords(dict)
  {
    var originals := Originals(puzzle);
    && |puzzle| == wordCount
    && (forall i :: 0 <= i < |puzzle| ==> puzzle[i].originalWord in dict && !puzzle[i].isValid)
    && Distinct(originals)
    && AllWords(originals)
    && (forall pos, i, j :: 0 <= pos < WORD_LENGTH && 0 <= i < j < |puzzle| ==> originals[i][pos] != originals[j][pos])
    && CountRareLetters(originals) >= wordCount
    && ShuffleOf(originals, Currents(puzzle), assigns)
  }

  lemma SelectionMakesPuzzle(dict: seq<string>, wordCount: nat, selected: seq<string>, shuffled: seq<string>,
                             assigns: seq<seq<int>>)
    requires AllWords(dict) && AllWords(selected) && |selected| == wordCount
    requires forall i :: 0 <= i < |selected| ==> selected[i] in dict
    requires AcceptableSelection(selected, wordCount)
    requires ShuffleOf(selected, shuffled, assigns)
    ensures JackpotPuzzle(dict, wordCount, MakePuzzle(selected, shuffled), assigns)
  {
    ElementsCardinality(selected);
    ColumnsDistinctPairwise(selected);
    var puzzle := MakePuzzle(selected, shuffled);
    assert Originals(puzzle) == selected && Currents(puzzle) == shuffled;
  }

  lemma ColumnsDistinctPairwise(words: seq<string>)
    requires AllWords(words) && ColumnsDistinct(words)
    ensures forall pos, i, j :: 0 <= pos < WORD_LENGTH && 0 <= i < j < |words| ==> words[i][pos] != words[j][pos]
  {
    forall pos, i, j | 0 <= pos < WORD_LENGTH && 0 <= i < j < |words|
      ensures words[i][pos] != words[j][pos]
    {
      assert AreLettersDifferentAtPosition(words, pos);
      assert CharAt(words[i], pos) != CharAt(words[j], pos);
    }
  }

  /** `findJackpotWords`: throws unless `3 <= wordCount <= 5`; otherwise retries
      random selections until one passes the checks (here: at most `fuel` times),
      then shuffles it. */
  method FindJackpotWords(wordCount: int, dict: seq<string>, rand: RandomSource, k: nat, fuel: nat)
    returns (res: Result<seq<JackpotWord>, GenError>, next: nat, ghost assigns: seq<seq<int>>)
    requires AllWords(dict)
    ensures res == Err(WordCountOutOfRange) <==> wordCount < MIN_WORDS || wordCount > MAX_WORDS
    ensures res.Ok? ==> JackpotPuzzle(dict, wordCount, res.value, assigns)
  {
    assigns := [];
    next := k;
    if wordCount < MIN_WORDS || wordCount > MAX_WORDS {
      return Err(WordCountOutOfRange), next, assigns;
    }
    var found := false;
    var selected: seq<string> := [];
    var tries := 0;
    while !found
      invariant 0 <= tries <= fuel
      invariant found ==> |selected| == wordCount && AcceptableSelection(selected, wordCount)
      invariant found ==> AllWords(selected) && forall i :: 0 <= i < |selected| ==> selected[i] in dict
      decreases fuel - tries, !found
    {
      if tries == fuel {
        return Err(SearchExhausted), next, assigns;
      }
      tries := tries + 1;
      if |dict| == 0 {
        // every draw reads `undefined`: the set of them has size 1 < wordCount
        next := next + wordCount;
        continue;
      }
      selected := DrawWords(dict, wordCount, rand, next);
      next := next + wordCount;
      if |Elements(selected)| != wordCount {
        continue;
      }
      if !ColumnsDistinct(selected) {
        continue;
      }
      if CountRareLetters(selected) >= wordCount {
        found := true;
      }
    }
    var shuffled;
    shuffled, next, assigns := ShuffleLettersAtPosition(selected, rand, next);
    if shuffled.None? {
      return Err(PermutationNotFound), next, assigns;
    }
    res := Ok(MakePuzzle(selected, shuffled.value));
    SelectionMakesPuzzle(dict, wordCount, selected, shuffled.value, assigns);
  }

  /** `isValidWord`: the word occurs somewhere in the dictionary. */
  predicate IsValidWord(word: string, dict: seq<string>): (r: bool)
    ensures r <==> exists i :: 0 <= i < |dict| && dict[i] == word
  {
    word in dict
  }
}
