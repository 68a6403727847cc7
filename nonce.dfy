/**
 * Host nonces: `randomStringGenerator` and `pick_nonce` of utils.js.
 *
 * `Math.random()` is not modelled; each of its values is an injected
 * draw, a real number in [0, 1), so that the generator and the retry loop
 * are deterministic functions of the draws they are given.
 */
module Nonce {
  import opened Common

  /** Length of the nonce the host sends to the card. */
  const USER_NONCE_SIZE: nat := 16

  /** How many candidates `pick_nonce` tries. */
  const NUM_OF_RETRY: nat := 3

  /** The alphabet of `randomStringGenerator`. */
  const CHARACTERS: string := "ABCDEFGHIJKLMNOPQRSTUVWXYZabcdefghijklmnopqrstuvwxyz0123456789"

  /** A value `Math.random()` can return. */
  predicate IsDraw(d: real)
  {
    0.0 <= d < 1.0
  }

  predicate AllDraws(draws: seq<real>)
  {
    forall i :: 0 <= i < |draws| ==> IsDraw(draws[i])
  }

  /** `characters.charAt(Math.floor(d * charactersLength))`: always a character of the alphabet. */
  function CharOfDraw(d: real): (c: char)
    requires IsDraw(d)
    ensures c in CHARACTERS
  {
    var k := (d * (|CHARACTERS| as real)).Floor;
    CHARACTERS[k]
  }

  /** The text the generator builds from a series of draws, one character per draw. */
  function CandidateOf(draws: seq<real>): (s: string)
    requires AllDraws(draws)
    ensures |s| == |draws|
    ensures forall i :: 0 <= i < |s| ==> s[i] in CHARACTERS
  {
    seq(|draws|, i requires 0 <= i < |draws| => CharOfDraw(draws[i]))
  }

  /** `randomStringGenerator(length)`, with the empty start the generator is meant to have. */
  method RandomString(length: nat, draws: seq<real>) returns (result: string)
    requires |draws| == length && AllDraws(draws)
    ensures result == CandidateOf(draws)
    ensures |result| == length
    ensures forall c :: c in result ==> c in CHARACTERS
  {
    result := "";
    var i := 0;
    while i < length
      invariant 0 <= i <= length
      invariant |result| == i
      invariant forall j :: 0 <= j < i ==> result[j] == CharOfDraw(draws[j])
    {
      result := result + [CharOfDraw(draws[i])];
      i := i + 1;
    }
  }

  /**
   * `randomStringGenerator(length)` as written: `result` starts as a
   * space (utils.js:20), so the text is one character longer than asked
   * and starts with a character the alphabet does not have.
   */
  method RandomStringAsWritten(length: nat, draws: seq<real>) returns (result: string)
    requires |draws| == length && AllDraws(draws)
    ensures result == " " + CandidateOf(draws)
    ensures |result| == length + 1 && result[0] == ' '
  {
    result := " ";
    var i := 0;
    while i < length
      invariant 0 <= i <= length
      invariant |result| == i + 1 && result[0] == ' '
      invariant forall j :: 0 <= j < i ==> result[j + 1] == CharOfDraw(draws[j])
    {
      result := result + [CharOfDraw(draws[i])];
      i := i + 1;
    }
  }

  /** The size of `new Set(rv.split(""))`: the number of distinct characters. */
  function DistinctCount(s: string): nat
  {
    |set c | c in s|
  }

  /** The acceptance test of `pick_nonce`: the first character differs from the last, or at least two distinct characters occur. */
  predicate Acceptable(s: string)
  {
    |s| > 0 && (s[0] != s[|s| - 1] || DistinctCount(s) >= 2)
  }

  /** A single character repeated throughout. */
  predicate Repeated(s: string)
  {
    forall i :: 0 <= i < |s| ==> s[i] == s[0]
  }

  /** A candidate is accepted exactly when it is not one repeated character; the empty text is rejected and counts as repeated. */
  lemma AcceptableIffNotRepeated(s: string)
    ensures Acceptable(s) <==> !Repeated(s)
  {
    var chars := set c | c in s;
    if |s| == 0 {
    } else if Repeated(s) {
      assert chars == {s[0]};
      assert s[|s| - 1] == s[0];
    } else {
      var i :| 0 <= i < |s| && s[i] != s[0];
      assert {s[0], s[i]} <= chars;
      assert |chars - {s[0]}| == |chars| - 1;
      assert s[i] in chars - {s[0]};
    }
  }

  /** The first acceptable candidate, if any. */
  function FirstAcceptable(candidates: seq<string>): (r: Option<string>)
    ensures r.Some? ==> r.value in candidates && Acceptable(r.value)
  {
    if |candidates| == 0 then None
    else if Acceptable(candidates[0]) then Some(candidates[0])
    else FirstAcceptable(candidates[1..])
  }

  /** There is a first acceptable candidate exactly when some candidate is acceptable; it is acceptable and every earlier one is not. */
  lemma {:induction false} FirstAcceptableMeaning(candidates: seq<string>)
    ensures FirstAcceptable(candidates).Some? <==> exists k :: 0 <= k < |candidates| && Acceptable(candidates[k])
    ensures FirstAcceptable(candidates).Some? ==>
      exists k :: 0 <= k < |candidates| && FirstAcceptable(candidates).value == candidates[k] &&
                  Acceptable(candidates[k]) && forall j :: 0 <= j < k ==> !Acceptable(candidates[j])
  {
    if |candidates| > 0 && !Acceptable(candidates[0]) {
      var rest := candidates[1..];
      FirstAcceptableMeaning(rest);
      if FirstAcceptable(rest).Some? {
        var k :| 0 <= k < |rest| && FirstAcceptable(rest).value == rest[k] &&
                 Acceptable(rest[k]) && forall j :: 0 <= j < k ==> !Acceptable(rest[j]);
        assert candidates[k + 1] == rest[k];
        forall j | 0 <= j < k + 1 ensures !Acceptable(candidates[j]) {
          if j > 0 { assert candidates[j] == rest[j - 1]; }
        }
      } else {
        forall k | 0 <= k < |candidates| ensures !Acceptable(candidates[k]) {
          if k > 0 { assert candidates[k] == rest[k - 1]; }
        }
      }
    }
  }

  /** The candidates the draw series produce, one per series. */
  function Candidates(attempts: seq<seq<real>>): seq<string>
    requires forall k :: 0 <= k < |attempts| ==> AllDraws(attempts[k])
  {
    seq(|attempts|, k requires 0 <= k < |attempts| => CandidateOf(attempts[k]))
  }

  /**
   * `pick_nonce`: up to `NUM_OF_RETRY` candidates, one per series of
   * draws; the first acceptable one is returned, and nothing if none is.
   */
  method PickNonce(attempts: seq<seq<real>>) returns (r: Option<string>)
    requires |attempts| == NUM_OF_RETRY
    requires forall k :: 0 <= k < |attempts| ==> |attempts[k]| == USER_NONCE_SIZE && AllDraws(attempts[k])
    ensures r == FirstAcceptable(Candidates(attempts))
    ensures r.Some? ==> Acceptable(r.value) && |r.value| == USER_NONCE_SIZE
    ensures r.Some? ==> forall c :: c in r.value ==> c in CHARACTERS
  {
    var i := 0;
    while i < NUM_OF_RETRY
      invariant 0 <= i <= NUM_OF_RETRY
      invariant FirstAcceptable(Candidates(attempts)) == FirstAcceptable(Candidates(attempts)[i..])
    {
      var rv := RandomString(USER_NONCE_SIZE, attempts[i]);
      assert Candidates(attempts)[i..][0] == rv;
      if Acceptable(rv) {
        return Some(rv);
      }
      assert Candidates(attempts)[i..][1..] == Candidates(attempts)[i + 1..];
      i := i + 1;
    }
    return None;
  }

  /**
   * The acceptance test as written at utils.js:33: `rv[-1]` and
   * `rvSet.length` are both `undefined`, so the test reduces to "the
   * first character exists".
   */
  predicate AcceptedAsWritten(s: string)
  {
    |s| > 0
  }

  /** The written test lets a degenerate nonce through, which the intended test rejects. */
  lemma AcceptedAsWrittenLetsDegenerateThrough()
    ensures AcceptedAsWritten("AAAAAAAAAAAAAAAA")
    ensures !Acceptable("AAAAAAAAAAAAAAAA")
  {
    AcceptableIffNotRepeated("AAAAAAAAAAAAAAAA");
  }
}
