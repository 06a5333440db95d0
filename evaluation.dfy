/** The precision evaluator `avaliar_recomendacoes`
    (mineracaofinal.py, lines 57-69). */
module Evaluation {
  import opened Rules
  import opened Recommendation

  /** How many of the test transactions have a non-empty candidate set, that
      is, receive at least one recommendation under the default limit.
      `ReceivingBounds` says when the count is zero or full, and `Evaluate`
      proves it is the count the evaluator's loop keeps. */
  function Receiving(tests: seq<seq<Item>>, rules: seq<Rule>): (n: nat)
    ensures n <= |tests|
  {
    if tests == [] then 0
    else
      Receiving(tests[..|tests| - 1], rules) + (if Candidates(tests[|tests| - 1], rules) != {} then 1 else 0)
  }

  /** No test transaction is counted exactly when none has a candidate, and
      all are counted exactly when all have one. */
  lemma {:induction false} ReceivingBounds(tests: seq<seq<Item>>, rules: seq<Rule>)
    ensures Receiving(tests, rules) == 0 <==>
      forall k :: 0 <= k < |tests| ==> Candidates(tests[k], rules) == {}
    ensures Receiving(tests, rules) == |tests| <==>
      forall k :: 0 <= k < |tests| ==> Candidates(tests[k], rules) != {}
  {
    if tests != [] {
      var init := tests[..|tests| - 1];
      assert forall k :: 0 <= k < |init| ==> init[k] == tests[k];
      ReceivingBounds(init, rules);
    }
  }

  /** `avaliar_recomendacoes(test_data, regras)`: `hits` is `acertos`,
      `total` is `total_recomendacoes` and `precision` the value returned. */
  method Evaluate(tests: seq<seq<Item>>, rules: seq<Rule>) returns (hits: int, total: int, precision: real)
    // the transactions counted are exactly those that get a recommendation
    ensures total == Receiving(tests, rules)
    // a recommended item is never in the transaction it was computed for,
    // so no hit is ever counted and the precision is always zero
    ensures hits == 0
    ensures precision == 0.0
  {
    hits, total := 0, 0;
    for k := 0 to |tests|
      invariant total == Receiving(tests[..k], rules)
      invariant hits == 0
    {
      assert tests[..k + 1][..k] == tests[..k];
      var t := tests[k];
      var recs := Recommend(t, rules, DefaultMaxRecommendations);
      assert |recs| > 0 <==> Candidates(t, rules) != {};
      assert Receiving(tests[..k + 1], rules) ==
        Receiving(tests[..k], rules) + (if Candidates(t, rules) != {} then 1 else 0);
      if |recs| > 0 {
        total := total + 1;
        for j := 0 to |recs|
          invariant hits == 0
        {
          if recs[j] in t {
            hits := hits + 1;
          }
        }
      }
    }
    assert tests[..|tests|] == tests;
    precision := if total == 0 then 0.0 else hits as real / total as real;
    assert total != 0 ==> precision == 0.0 / total as real;
  }
}
