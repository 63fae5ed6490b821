/** Shared vocabulary: optional values, error results and the injected random source. */
module Common {

  datatype Option<+T> = None | Some(value: T)

  datatype Result<+T, +E> = Ok(value: T) | Err(error: E)

  /** The random source: `rand(k)` is the k-th raw draw.  Callers thread a cursor `k`
      through every operation and each operation returns the next unused index. */
  type RandomSource = nat -> nat

  /** `Math.floor(Math.random() * n)`: the k-th choice read as an index in `[0, n)`;
      a choice out of range stands for the last index. */
  function Draw(rand: RandomSource, k: nat, n: nat): (r: nat)
    requires n > 0
    ensures r < n
  {
    if rand(k) < n then rand(k) else n - 1
  }

  /** `Math.random() < 0.2`: a biased coin. */
  predicate Coin(rand: RandomSource, k: nat)
  {
    rand(k) % 5 == 0
  }

  /** Every word list of the games holds five-letter words. */
  const WORD_LENGTH: nat := 5

  predicate IsWord(w: string)
  {
    |w| == WORD_LENGTH
  }

  predicate AllWords(ws: seq<string>)
  {
    forall i :: 0 <= i < |ws| ==> IsWord(ws[i])
  }
}
