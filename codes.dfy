/**
 * The session-code generator of server.js (`generateCode`): six characters
 * drawn from `A-Z0-9`, drawn again while the code is already a key of the
 * session store.
 *
 * `Math.random()` is replaced by an explicit stream of draws. Every draw is a
 * real in [0, 1); one attempt consumes six of them, one per character, in
 * order. The stream is finite: when fewer than six draws remain the generator
 * gives up, which stands in for the source's unbounded retry.
 */
module Codes {
  import opened Wrappers

  const Alphabet: string := "ABCDEFGHIJKLMNOPQRSTUVWXYZ0123456789"
  const CodeLength: nat := 6

  /** One result of `Math.random()`. */
  type Draw = r: real | 0.0 <= r < 1.0

  /** A well-formed generated code: six characters of the alphabet. */
  predicate IsCode(c: string) {
    |c| == CodeLength && forall i :: 0 <= i < |c| ==> c[i] in Alphabet
  }

  /** The alphabet character at index ⌊r·36⌋, the character one draw selects. */
  function CharOf(r: Draw): (c: char)
    ensures c in Alphabet
  {
    var k := (r * |Alphabet| as real).Floor;
    assert 0 <= k < |Alphabet| by {
      assert 0.0 <= r * 36.0 < 36.0;
    }
    Alphabet[k]
  }

  /** The code one attempt builds from its six draws, first draw first. */
  function Candidate(draws: seq<Draw>): (c: string)
    requires |draws| == CodeLength
    ensures IsCode(c)
    ensures forall i :: 0 <= i < CodeLength ==> c[i] == CharOf(draws[i])
  {
    seq(CodeLength, i requires 0 <= i < CodeLength => CharOf(draws[i]))
  }

  /** Number of complete attempts a stream of draws can feed. */
  function Attempts(draws: seq<Draw>): nat {
    |draws| / CodeLength
  }

  /** The candidate of attempt `k` (counting from 0). */
  function Attempt(draws: seq<Draw>, k: nat): (c: string)
    requires k < Attempts(draws)
    ensures IsCode(c)
  {
    Candidate(draws[CodeLength * k .. CodeLength * k + CodeLength])
  }

  /**
   * What the do-while loop returns: the first candidate that is not in
   * `taken`, or None once the stream cannot feed another attempt.
   */
  function GeneratedCode(taken: set<string>, draws: seq<Draw>): (r: Option<string>)
    ensures r.Some? ==> IsCode(r.value) && r.value !in taken
    decreases |draws|
  {
    if |draws| < CodeLength then None
    else
      var c := Candidate(draws[..CodeLength]);
      if c in taken then GeneratedCode(taken, draws[CodeLength..]) else Some(c)
  }

  /** Attempt `k + 1` of a stream is attempt `k` of the stream without its first block. */
  lemma AttemptShift(draws: seq<Draw>, k: nat)
    requires CodeLength <= |draws| && k + 1 < Attempts(draws)
    ensures k < Attempts(draws[CodeLength..])
    ensures Attempt(draws, k + 1) == Attempt(draws[CodeLength..], k)
  {
    var rest := draws[CodeLength..];
    assert rest[CodeLength * k .. CodeLength * k + CodeLength]
        == draws[CodeLength * (k + 1) .. CodeLength * (k + 1) + CodeLength];
  }

  /**
   * The generator gives up exactly when every attempt the stream can feed
   * produced a taken code: it never stops while a free candidate is drawn.
   */
  lemma {:induction false} GeneratedCodeExhausted(taken: set<string>, draws: seq<Draw>)
    ensures GeneratedCode(taken, draws).None? <==>
      forall k :: 0 <= k < Attempts(draws) ==> Attempt(draws, k) in taken
    decreases |draws|
  {
    if CodeLength <= |draws| {
      var rest := draws[CodeLength..];
      assert Attempt(draws, 0) == Candidate(draws[..CodeLength]);
      GeneratedCodeExhausted(taken, rest);
      forall k | 0 <= k < Attempts(rest)
        ensures Attempt(draws, k + 1) == Attempt(rest, k)
      {
        AttemptShift(draws, k);
      }
      if Attempt(draws, 0) in taken {
        forall k | 0 <= k < Attempts(draws)
          ensures Attempt(draws, k) in taken <==> (k == 0 || Attempt(rest, k - 1) in taken)
        {
          if k > 0 { AttemptShift(draws, k - 1); }
        }
      }
    }
  }

  /**
   * A generated code is the candidate of some attempt `k`, and every attempt
   * before `k` drew a taken code: the loop re-draws exactly on collision.
   */
  lemma {:induction false} GeneratedCodeIsFirstFree(taken: set<string>, draws: seq<Draw>)
    requires GeneratedCode(taken, draws).Some?
    ensures exists k :: (0 <= k < Attempts(draws)
      && Attempt(draws, k) == GeneratedCode(taken, draws).value
      && forall j :: 0 <= j < k ==> Attempt(draws, j) in taken)
    decreases |draws|
  {
    var rest := draws[CodeLength..];
    assert Attempt(draws, 0) == Candidate(draws[..CodeLength]);
    if Attempt(draws, 0) in taken {
      GeneratedCodeIsFirstFree(taken, rest);
      var k :| 0 <= k < Attempts(rest)
        && Attempt(rest, k) == GeneratedCode(taken, rest).value
        && forall j :: 0 <= j < k ==> Attempt(rest, j) in taken;
      AttemptShift(draws, k);
      forall j | 0 <= j < k + 1
        ensures Attempt(draws, j) in taken
      {
        if j > 0 { AttemptShift(draws, j - 1); }
      }
    }
  }
}
