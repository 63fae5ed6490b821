/** The Hashtag puzzle generator: four five-letter words laid out as a `#`, H1 on
    row 1, H2 on row 3, V1 on column 1 and V2 on column 3, so that

        . V1 . V2 .
        H1 H1 H1 H1 H1
        . V1 . V2 .
        H2 H2 H2 H2 H2
        . V1 . V2 .

    The four crossings are matched by construction, through buckets of the
    dictionary keyed by the letter at index 1. */
module HashtagFindWords {
  import opened Common
  import opened RareLetters

  // ---------------------------------------------------------------------------
  // Buckets by second letter (`regrouper_par_2eme_lettre`)
  // ---------------------------------------------------------------------------

  /** The words of `ws` whose letter at index 1 is `c`, in dictionary order. */
  function WithSecondLetter(ws: seq<string>, c: char): (r: seq<string>)
    requires AllWords(ws)
    ensures AllWords(r) && |r| <= |ws|
    ensures forall i :: 0 <= i < |r| ==> r[i] in ws && r[i][1] == c
  {
    if ws == [] then []
    else
      var last := ws[|ws| - 1];
      var r := WithSecondLetter(ws[..|ws| - 1], c);
      assert forall i :: 0 <= i < |r| ==> r[i] in ws;
      r + (if last[1] == c then [last] else [])
  }

  /** A non-empty bucket has a dictionary word with that second letter. */
  lemma {:induction false} WithSecondLetterWitness(ws: seq<string>, c: char)
    requires AllWords(ws)
    ensures WithSecondLetter(ws, c) != [] ==> exists i :: 0 <= i < |ws| && ws[i][1] == c
  {
    if ws != [] {
      var init := ws[..|ws| - 1];
      WithSecondLetterWitness(init, c);
      assert forall i :: 0 <= i < |init| ==> init[i] == ws[i];
    }
  }

  /** A bucket holds exactly the words with that second letter, each as often as the
      dictionary does. */
  lemma {:induction false} WithSecondLetterCount(ws: seq<string>, c: char, w: string)
    requires AllWords(ws)
    ensures multiset(WithSecondLetter(ws, c))[w] == if |w| > 1 && w[1] == c then multiset(ws)[w] else 0
  {
    if ws != [] {
      var init, last := ws[..|ws| - 1], ws[|ws| - 1];
      WithSecondLetterCount(init, c, w);
      WithSecondLetterSnoc(ws, c, w);
    }
  }

  /** How one more dictionary word changes the counts. */
  lemma WithSecondLetterSnoc(ws: seq<string>, c: char, w: string)
    requires AllWords(ws) && ws != []
    ensures var init, last := ws[..|ws| - 1], ws[|ws| - 1];
            && multiset(ws)[w] == multiset(init)[w] + (if last == w then 1 else 0)
            && multiset(WithSecondLetter(ws, c))[w]
               == multiset(WithSecondLetter(init, c))[w] + (if last == w && IsWord(last) && last[1] == c then 1 else 0)
  {
    var init, last := ws[..|ws| - 1], ws[|ws| - 1];
    assert ws == init + [last];
    CountSnoc(init, last, w);
    if last[1] == c {
      CountSnoc(WithSecondLetter(init, c), last, w);
    }
  }

  lemma CountSnoc<T>(s: seq<T>, x: T, y: T)
    ensures multiset(s + [x])[y] == multiset(s)[y] + (if x == y then 1 else 0)
  {
  }

  lemma WithSecondLetterMember(ws: seq<string>, c: char, w: string)
    requires AllWords(ws)
    ensures w in WithSecondLetter(ws, c) <==> w in ws && w[1] == c
  {
    WithSecondLetterCount(ws, c, w);
    assert w in ws <==> multiset(ws)[w] > 0;
    assert w in WithSecondLetter(ws, c) <==> multiset(WithSecondLetter(ws, c))[w] > 0;
    if w in ws {
      assert |w| == WORD_LENGTH by {
        var i :| 0 <= i < |ws| && ws[i] == w;
      }
    }
  }

  /** What the map built from `ws` looks like: a key for every second letter that
      occurs and for no other, holding that letter's bucket. */
  ghost predicate IsGrouping(ws: seq<string>, groups: map<char, seq<string>>)
    requires AllWords(ws)
  {
    && (forall c :: c in groups <==> exists i :: 0 <= i < |ws| && ws[i][1] == c)
    && (forall c :: c in groups ==> groups[c] == WithSecondLetter(ws, c))
  }

  /** `regrouper_par_2eme_lettre`: push every word onto the bucket of its second
      letter, creating the bucket on first use. */
  method GroupBySecondLetter(ws: seq<string>) returns (groups: map<char, seq<string>>)
    requires AllWords(ws)
    ensures IsGrouping(ws, groups)
  {
    groups := map[];
    for i := 0 to |ws|
      invariant AllWords(ws[..i]) && IsGrouping(ws[..i], groups)
    {
      var c := ws[i][1];
      ghost var before := groups;
      if c !in groups {
        groups := groups[c := []];
      }
      groups := groups[c := groups[c] + [ws[i]]];
      assert groups == before[c := Bucket(before, c) + [ws[i]]];
      GroupingStep(ws[..i], ws[i], before);
      assert ws[..i] + [ws[i]] == ws[..i + 1];
    }
    assert ws[..|ws|] == ws;
  }

  lemma GroupingStep(ws: seq<string>, w: string, groups: map<char, seq<string>>)
    requires AllWords(ws) && IsWord(w) && IsGrouping(ws, groups)
    ensures AllWords(ws + [w])
    ensures IsGrouping(ws + [w], groups[w[1] := Bucket(groups, w[1]) + [w]])
  {
    var ws' := ws + [w];
    var groups' := groups[w[1] := Bucket(groups, w[1]) + [w]];
    assert AllWords(ws');
    assert ws'[..|ws|] == ws;
    assert ws'[|ws|] == w;
    BucketIsFilter(ws, groups, w[1]);
    forall c ensures c in groups' <==> exists i :: 0 <= i < |ws'| && ws'[i][1] == c {
      if c in groups && c != w[1] {
        var i :| 0 <= i < |ws| && ws[i][1] == c;
        assert ws'[i] == ws[i];
      }
      if exists i :: 0 <= i < |ws'| && ws'[i][1] == c {
        var i :| 0 <= i < |ws'| && ws'[i][1] == c;
        if i < |ws| {
          assert ws[i] == ws'[i];
        }
      }
    }
  }

  /** `map.get(c) || []`: the buckets never hold an empty list, so `||` only replaces
      a missing key. */
  function Bucket(groups: map<char, seq<string>>, c: char): seq<string>
  {
    if c in groups then groups[c] else []
  }

  lemma BucketIsFilter(ws: seq<string>, groups: map<char, seq<string>>, c: char)
    requires AllWords(ws) && IsGrouping(ws, groups)
    ensures Bucket(groups, c) == WithSecondLetter(ws, c)
  {
    WithSecondLetterWitness(ws, c);
  }

  /** Every word is in the bucket of its own second letter. */
  lemma OwnBucket(ws: seq<string>, groups: map<char, seq<string>>, i: nat)
    requires AllWords(ws) && IsGrouping(ws, groups) && i < |ws|
    ensures ws[i][1] in groups && ws[i] in groups[ws[i][1]]
  {
    WithSecondLetterMember(ws, ws[i][1], ws[i]);
  }

  /** Sum of the sizes of the buckets named by `keys`. */
  function TotalSize(groups: map<char, seq<string>>, keys: seq<char>): nat
  {
    if keys == [] then 0 else |Bucket(groups, keys[0])| + TotalSize(groups, keys[1..])
  }

  function SumBuckets(ws: seq<string>, keys: seq<char>): nat
    requires AllWords(ws)
  {
    if keys == [] then 0 else |WithSecondLetter(ws, keys[0])| + SumBuckets(ws, keys[1..])
  }

  function Occurrences(keys: seq<char>, c: char): nat
  {
    if keys == [] then 0 else (if keys[0] == c then 1 else 0) + Occurrences(keys[1..], c)
  }

  predicate NoDuplicates(keys: seq<char>)
  {
    forall i, j :: 0 <= i < j < |keys| ==> keys[i] != keys[j]
  }

  lemma {:induction false} OccurrencesOnce(keys: seq<char>, c: char)
    requires NoDuplicates(keys) && c in keys
    ensures Occurrences(keys, c) == 1
  {
    if keys[0] == c {
      OccurrencesNone(keys[1..], c);
    } else {
      OccurrencesOnce(keys[1..], c);
    }
  }

  lemma {:induction false} OccurrencesNone(keys: seq<char>, c: char)
    requires c !in keys
    ensures Occurrences(keys, c) == 0
  {
    if keys != [] {
      OccurrencesNone(keys[1..], c);
    }
  }

  lemma {:induction false} SumBucketsSnoc(ws: seq<string>, w: string, keys: seq<char>)
    requires AllWords(ws) && IsWord(w)
    ensures AllWords(ws + [w])
    ensures SumBuckets(ws + [w], keys) == SumBuckets(ws, keys) + Occurrences(keys, w[1])
  {
    assert AllWords(ws + [w]);
    assert (ws + [w])[..|ws|] == ws;
    if keys != [] {
      SumBucketsSnoc(ws, w, keys[1..]);
    }
  }

  lemma {:induction false} SumBucketsCovers(ws: seq<string>, keys: seq<char>)
    requires AllWords(ws) && NoDuplicates(keys)
    requires forall i :: 0 <= i < |ws| ==> ws[i][1] in keys
    ensures SumBuckets(ws, keys) == |ws|
  {
    if ws == [] {
      SumBucketsEmpty(keys);
    } else {
      var init := ws[..|ws| - 1];
      var w := ws[|ws| - 1];
      SumBucketsCovers(init, keys);
      SumBucketsSnoc(init, w, keys);
      OccurrencesOnce(keys, w[1]);
      assert init + [w] == ws;
    }
  }

  lemma {:induction false} SumBucketsEmpty(keys: seq<char>)
    ensures SumBuckets([], keys) == 0
  {
    if keys != [] {
      SumBucketsEmpty(keys[1..]);
    }
  }

  lemma {:induction false} TotalSizeIsSum(ws: seq<string>, groups: map<char, seq<string>>, keys: seq<char>)
    requires AllWords(ws) && IsGrouping(ws, groups)
    ensures TotalSize(groups, keys) == SumBuckets(ws, keys)
  {
    if keys != [] {
      BucketIsFilter(ws, groups, keys[0]);
      TotalSizeIsSum(ws, groups, keys[1..]);
    }
  }

  /** The bucket sizes add up to the dictionary size: summing over the map's keys,
      listed once each, counts every word exactly once. */
  lemma BucketSizesSum(ws: seq<string>, groups: map<char, seq<string>>, keys: seq<char>)
    requires AllWords(ws) && IsGrouping(ws, groups)
    requires NoDuplicates(keys) && (forall c :: c in groups <==> c in keys)
    ensures TotalSize(groups, keys) == |ws|
  {
    TotalSizeIsSum(ws, groups, keys);
    forall i | 0 <= i < |ws| ensures ws[i][1] in keys {
      OwnBucket(ws, groups, i);
    }
    SumBucketsCovers(ws, keys);
  }

  // ---------------------------------------------------------------------------
  // The combination search (`find_combination_internal`)
  // ---------------------------------------------------------------------------

  /** The tuple `[mot1, mot2, mot3, mot4]`: H1, H2, V1, V2. */
  datatype Combination = Combination(h1: string, h2: string, v1: string, v2: string)

  datatype CombinationError =
    | EmptyDictionary   // the first draw reads `undefined`
    | MissingBucket     // no word has V1's letter 3 as second letter: H2 is `undefined`
    | SearchExhausted   // the retry loop ran out of fuel

  /** `lettres_combi`: the thirteen letters of H1 and H2 and V1's cells 0, 2 and 4. */
  function TripleLetters(h1: string, h2: string, v1: string): (r: seq<char>)
    requires IsWord(h1) && IsWord(h2) && IsWord(v1)
    ensures |r| == 13
  {
    h1 + h2 + [v1[0], v1[2], v1[4]]
  }

  /** `lettres_mot4`: V2's cells 0, 2 and 4 (cells 1 and 3 are H1's and H2's). */
  function V2Letters(v2: string): (r: seq<char>)
    requires IsWord(v2)
    ensures |r| == 3
  {
    [v2[0], v2[2], v2[4]]
  }

  /** The words of `ws` whose letter at index 3 is `c`, in order (the `filter`). */
  function WithFourthLetter(ws: seq<string>, c: char): (r: seq<string>)
    requires AllWords(ws)
    ensures AllWords(r) && |r| <= |ws|
    ensures forall i :: 0 <= i < |r| ==> r[i] in ws && r[i][3] == c
    ensures forall i :: 0 <= i < |ws| && ws[i][3] == c ==> ws[i] in r
  {
    if ws == [] then []
    else
      var last := ws[|ws| - 1];
      var r := WithFourthLetter(ws[..|ws| - 1], c);
      assert forall i :: 0 <= i < |r| ==> r[i] in ws;
      r + (if last[3] == c then [last] else [])
  }

  /** The V2 candidates: bucket of H1's letter 3, keeping those whose letter 3 is H2's. */
  function V2Candidates(dict: seq<string>, h1: string, h2: string): (r: seq<string>)
    requires AllWords(dict) && IsWord(h1) && IsWord(h2)
    ensures AllWords(r)
    ensures forall i :: 0 <= i < |r| ==> r[i] in dict && r[i][1] == h1[3] && r[i][3] == h2[3]
    ensures forall i :: 0 <= i < |dict| && dict[i][1] == h1[3] && dict[i][3] == h2[3] ==> dict[i] in r
  {
    var bucket := WithSecondLetter(dict, h1[3]);
    forall i | 0 <= i < |dict| && dict[i][1] == h1[3]
      ensures dict[i] in bucket
    {
      WithSecondLetterMember(dict, h1[3], dict[i]);
    }
    WithFourthLetter(bucket, h2[3])
  }

  predicate Words(c: Combination)
  {
    IsWord(c.h1) && IsWord(c.h2) && IsWord(c.v1) && IsWord(c.v2)
  }

  /** The four shared cells of the `#`. */
  predicate Crossings(c: Combination)
    requires Words(c)
  {
    && c.v1[1] == c.h1[1]
    && c.h2[1] == c.v1[3]
    && c.v2[1] == c.h1[3]
    && c.v2[3] == c.h2[3]
  }

  /** The sixteen cells of the grid: H1, H2, then V1's and V2's own cells. */
  function GridLetters(c: Combination): (r: seq<char>)
    requires Words(c)
    ensures |r| == 16
  {
    TripleLetters(c.h1, c.h2, c.v1) + V2Letters(c.v2)
  }

  /** What the search returns: four dictionary words meeting at the crossings, with
      at least two rare letters among H1, H2 and V1's cells and at least three in
      the whole grid, V2 being the first candidate that reaches three. */
  ghost predicate ValidCombination(dict: seq<string>, c: Combination)
    requires AllWords(dict)
  {
    && c.h1 in dict && c.h2 in dict && c.v1 in dict && c.v2 in dict
    && Words(c)
    && Crossings(c)
    && var base := CountRare(TripleLetters(c.h1, c.h2, c.v1));
       var cands := V2Candidates(dict, c.h1, c.h2);
       && base >= 2
       && CountRare(GridLetters(c)) >= 3
       && FirstReaching(cands, base, c.v2)
  }

  /** When H1, H2 and V1 already carry three rare letters, V2 is the first candidate. */
  lemma FirstCandidateWhenTripleSuffices(dict: seq<string>, c: Combination)
    requires AllWords(dict) && ValidCombination(dict, c)
    requires CountRare(TripleLetters(c.h1, c.h2, c.v1)) >= 3
    ensures c.v2 == V2Candidates(dict, c.h1, c.h2)[0]
  {
    var cands := V2Candidates(dict, c.h1, c.h2);
    var base := CountRare(TripleLetters(c.h1, c.h2, c.v1));
    var j :| 0 <= j < |cands| && cands[j] == c.v2
             && forall j' :: 0 <= j' < j ==> base + CountRare(V2Letters(cands[j'])) < 3;
    assert CountRare(V2Letters(cands[0])) >= 0;
  }

  /** The grid count is the triple's count plus V2's three cells. */
  lemma GridCount(c: Combination)
    requires Words(c)
    ensures CountRare(GridLetters(c)) == CountRare(TripleLetters(c.h1, c.h2, c.v1)) + CountRare(V2Letters(c.v2))
  {
    CountRareAppend(TripleLetters(c.h1, c.h2, c.v1), V2Letters(c.v2));
  }

  /** `find_combination_internal`: draw H1 from the dictionary, V1 from H1's bucket and
      H2 from the bucket of V1's letter 3; drop the triple below two rare letters;
      otherwise scan the V2 candidates, adding each one's rare letters to the running
      count `nb`, and return on reaching three.  Three draws per round; at most `fuel`
      rounds. */
  method FindCombinationInternal(dict: seq<string>, groups: map<char, seq<string>>,
                                 rand: RandomSource, k: nat, fuel: nat)
    returns (res: Result<Combination, CombinationError>, next: nat)
    requires AllWords(dict) && IsGrouping(dict, groups)
    ensures res == Err(EmptyDictionary) <==> |dict| == 0
    ensures res == Err(MissingBucket) ==>
              exists i :: 0 <= i < |dict| && WithSecondLetter(dict, dict[i][3]) == []
    ensures res.Ok? ==> ValidCombination(dict, res.value)
  {
    next := k;
    if |dict| == 0 {
      return Err(EmptyDictionary), next;
    }
    var tries := 0;
    while tries < fuel
      decreases fuel - tries
    {
      tries := tries + 1;
      var triple := DrawTriple(dict, groups, rand, next);
      next := next + 3;
      if triple.Err? {
        return Err(triple.error), next;
      }
      var (h1, h2, v1) := triple.value;
      var nb := CountRare(TripleLetters(h1, h2, v1));
      if nb < 2 {
        continue;
      }
      BucketIsFilter(dict, groups, h1[3]);
      var v2 := PickV2(WithFourthLetter(Bucket(groups, h1[3]), h2[3]), nb);
      if v2.Some? {
        res := Ok(Combination(h1, h2, v1, v2.value));
        CombinationFromParts(dict, res.value);
        return res, next;
      }
    }
    return Err(SearchExhausted), next;
  }

  /** The three draws of a round: H1 from the dictionary, V1 from H1's bucket (never
      empty: it holds H1) and H2 from the bucket of V1's letter 3, which may be
      missing. */
  method DrawTriple(dict: seq<string>, groups: map<char, seq<string>>, rand: RandomSource, k: nat)
    returns (res: Result<(string, string, string), CombinationError>)
    requires AllWords(dict) && |dict| > 0 && IsGrouping(dict, groups)
    ensures res.Err? ==> res.error == MissingBucket
    ensures res.Err? ==> exists i :: 0 <= i < |dict| && WithSecondLetter(dict, dict[i][3]) == []
    ensures res.Ok? ==>
              var (h1, h2, v1) := res.value;
              && h1 in dict && h2 in dict && v1 in dict
              && IsWord(h1) && IsWord(h2) && IsWord(v1)
              && v1[1] == h1[1] && h2[1] == v1[3]
  {
    var i1 := Draw(rand, k, |dict|);
    var h1 := dict[i1];
    OwnBucket(dict, groups, i1);
    var v1Candidates := Bucket(groups, h1[1]);
    var v1 := v1Candidates[Draw(rand, k + 1, |v1Candidates|)];
    BucketIsFilter(dict, groups, h1[1]);
    WithSecondLetterMember(dict, h1[1], v1);
    var h2Candidates := Bucket(groups, v1[3]);
    BucketIsFilter(dict, groups, v1[3]);
    var iv :| 0 <= iv < |dict| && dict[iv] == v1;
    if |h2Candidates| == 0 {
      return Err(MissingBucket);
    }
    var h2 := h2Candidates[Draw(rand, k + 2, |h2Candidates|)];
    WithSecondLetterMember(dict, v1[3], h2);
    return Ok((h1, h2, v1));
  }

  lemma CombinationFromParts(dict: seq<string>, c: Combination)
    requires AllWords(dict) && Words(c)
    requires c.h1 in dict && c.h2 in dict && c.v1 in dict
    requires c.v1[1] == c.h1[1] && c.h2[1] == c.v1[3]
    requires CountRare(TripleLetters(c.h1, c.h2, c.v1)) >= 2
    requires FirstReaching(V2Candidates(dict, c.h1, c.h2), CountRare(TripleLetters(c.h1, c.h2, c.v1)), c.v2)
    ensures ValidCombination(dict, c)
  {
    var cands := V2Candidates(dict, c.h1, c.h2);
    var j :| 0 <= j < |cands| && cands[j] == c.v2
             && CountRare(TripleLetters(c.h1, c.h2, c.v1)) + CountRare(V2Letters(cands[j])) >= 3;
    WithSecondLetterMember(dict, c.h1[3], c.v2);
    GridCount(c);
  }

  /** `v2` is the first of `candidates` whose three own cells bring `base` to three. */
  ghost predicate FirstReaching(candidates: seq<string>, base: nat, v2: string)
    requires AllWords(candidates)
  {
    exists j :: 0 <= j < |candidates| && candidates[j] == v2
      && base + CountRare(V2Letters(candidates[j])) >= 3
      && forall j' :: 0 <= j' < j ==> base + CountRare(V2Letters(candidates[j'])) < 3
  }

  /** The inner `for` loop: add each candidate's rare letters to the running count
      and stop at the first candidate that brings it to three.  Because the count
      starts at two or more, a candidate that fails adds nothing, so the running count
      seen by each candidate is the triple's own count. */
  method PickV2(candidates: seq<string>, base: nat) returns (v2: Option<string>)
    requires AllWords(candidates) && base >= 2
    ensures v2.Some? <==> exists j :: 0 <= j < |candidates| && base + CountRare(V2Letters(candidates[j])) >= 3
    ensures v2.Some? ==> FirstReaching(candidates, base, v2.value)
  {
    var nb := base;
    for j := 0 to |candidates|
      invariant nb == base
      invariant forall j' :: 0 <= j' < j ==> base + CountRare(V2Letters(candidates[j'])) < 3
    {
      nb := nb + CountRare(V2Letters(candidates[j]));
      if nb >= 3 {
        return Some(candidates[j]);
      }
    }
    return None;
  }

  // ---------------------------------------------------------------------------
  // Tagging (`find_combination`)
  // ---------------------------------------------------------------------------

  datatype WordType = H1 | H2 | V1 | V2

  datatype Word = Word(word: string, wordType: WordType)

  /** The four entries `find_combination` returns. */
  function Tag(c: Combination): (r: seq<Word>)
    ensures |r| == 4 && r[0].wordType == H1 && r[1].wordType == H2 && r[2].wordType == V1 && r[3].wordType == V2
  {
    [Word(c.h1, H1), Word(c.h2, H2), Word(c.v1, V1), Word(c.v2, V2)]
  }

  /** Reading an entry list back: defined exactly on four entries tagged in order. */
  function Untag(ws: seq<Word>): (r: Option<Combination>)
    ensures r.Some? <==> |ws| == 4 && ws[0].wordType == H1 && ws[1].wordType == H2
                         && ws[2].wordType == V1 && ws[3].wordType == V2
  {
    if |ws| == 4 && ws[0].wordType == H1 && ws[1].wordType == H2 && ws[2].wordType == V1 && ws[3].wordType == V2
    then Some(Combination(ws[0].word, ws[1].word, ws[2].word, ws[3].word))
    else None
  }

  lemma TagUntag(c: Combination)
    ensures Untag(Tag(c)) == Some(c)
  {
  }

  lemma UntagTag(ws: seq<Word>)
    requires Untag(ws).Some?
    ensures Tag(Untag(ws).value) == ws
  {
  }

  /** `find_combination`: run the search and tag its four words. */
  method FindCombination(dict: seq<string>, groups: map<char, seq<string>>,
                         rand: RandomSource, k: nat, fuel: nat)
    returns (res: Result<seq<Word>, CombinationError>, next: nat)
    requires AllWords(dict) && IsGrouping(dict, groups)
    ensures res == Err(EmptyDictionary) <==> |dict| == 0
    ensures res.Ok? ==> Untag(res.value).Some? && ValidCombination(dict, Untag(res.value).value)
  {
    var c;
    c, next := FindCombinationInternal(dict, groups, rand, k, fuel);
    if c.Err? {
      return Err(c.error), next;
    }
    res := Ok(Tag(c.value));
    TagUntag(c.value);
  }
}
