/**
 * `compare`: the share of predictions that match the true labels, as a
 * percentage.
 */
module Evaluation {

  /** The exceptions `compare` can raise. */
  datatype CompareError =
    | IndexError         // `prediction` is shorter than `label`
    | ZeroDivisionError  // `label` is empty

  datatype Result<T> = Ok(value: T) | Err(error: CompareError)

  /** How many of the first `n` positions hold the same labels in both lists. */
  function Matches(labels: seq<string>, prediction: seq<string>, n: nat): nat
    requires n <= |labels| && n <= |prediction|
  {
    if n == 0 then 0
    else Matches(labels, prediction, n - 1) + (if labels[n - 1] == prediction[n - 1] then 1 else 0)
  }

  /**
   * At most `n` of the first `n` positions match, and all of them do
   * exactly when the two lists agree up to `n`.
   */
  lemma {:induction false} MatchesBounds(labels: seq<string>, prediction: seq<string>, n: nat)
    requires n <= |labels| && n <= |prediction|
    ensures Matches(labels, prediction, n) <= n
    ensures Matches(labels, prediction, n) == n <==> labels[..n] == prediction[..n]
  {
    if n > 0 {
      MatchesBounds(labels, prediction, n - 1);
      assert labels[..n] == labels[..n - 1] + [labels[n - 1]];
      assert prediction[..n] == prediction[..n - 1] + [prediction[n - 1]];
      if labels[..n] == prediction[..n] {
        assert labels[..n - 1] == labels[..n][..n - 1];
        assert prediction[..n - 1] == prediction[..n][..n - 1];
      }
    }
  }

  /** `100 * m / n` lies in [0, 100], and equals 100 exactly when `m == n`. */
  lemma PercentOfAll(m: nat, n: nat)
    requires 0 < n && m <= n
    ensures 0.0 <= 100.0 * m as real / n as real <= 100.0
    ensures 100.0 * m as real / n as real == 100.0 <==> m == n
  {
    var p := 100.0 * m as real / n as real;
    assert p * n as real == 100.0 * m as real;
    if p == 100.0 {
      assert 100.0 * n as real == 100.0 * m as real;
    }
  }

  /**
   * `compare(labels, prediction)`: `100 * nb_bon / len(labels)`, where
   * `nb_bon` counts the positions at which the prediction equals the
   * labels. Indexing `prediction` past its end raises `IndexError`; an
   * empty `label` ends in a division by zero.
   */
  method Compare(labels: seq<string>, prediction: seq<string>) returns (r: Result<real>)
    ensures |labels| > |prediction| ==> r == Err(IndexError)
    ensures |labels| == 0 ==> r == Err(ZeroDivisionError)
    ensures 0 < |labels| <= |prediction| ==>
      r == Ok(100.0 * Matches(labels, prediction, |labels|) as real / |labels| as real)
    ensures r.Ok? ==> 0.0 <= r.value <= 100.0
    ensures r.Ok? ==> (r.value == 100.0 <==> labels == prediction[..|labels|])
  {
    var nbBon := 0;
    for i := 0 to |labels|
      invariant i <= |prediction|
      invariant nbBon == Matches(labels, prediction, i)
    {
      if i >= |prediction| {
        return Err(IndexError);
      }
      if labels[i] == prediction[i] {
        nbBon := nbBon + 1;
      }
    }
    if |labels| == 0 {
      return Err(ZeroDivisionError);
    }
    MatchesBounds(labels, prediction, |labels|);
    assert labels[..|labels|] == labels;
    PercentOfAll(nbBon, |labels|);
    r := Ok(100.0 * nbBon as real / |labels| as real);
  }
}
