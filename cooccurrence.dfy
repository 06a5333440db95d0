/** The choice of the most co-occurring consequent made by
    `plot_coocorrencia(regras, item)` (mineracaofinal.py, lines 79-92),
    without its plotting. */
module Cooccurrence {
  import opened Rules

  datatype Option<T> = None | Some(value: T)

  /** The rules whose antecedent contains `item`, in table order (line 79). */
  function RulesWith(rules: seq<Rule>, item: Item): (sel: seq<Rule>)
    ensures |sel| <= |rules|
    ensures forall r :: r in sel <==> r in rules && item in r.antecedent
    // every matching row is kept as many times as the table holds it
    ensures forall r :: multiset(sel)[r] == (if item in r.antecedent then multiset(rules)[r] else 0)
  {
    if rules == [] then []
    else
      assert rules == [rules[0]] + rules[1..];
      (if item in rules[0].antecedent then [rules[0]] else []) + RulesWith(rules[1..], item)
  }

  /** How often `x` occurs once the consequents of `sel` are exploded into
      one row per item: the count `value_counts` gives it (lines 83-84). */
  function Frequency(sel: seq<Rule>, x: Item): (n: nat)
    ensures n <= |sel|
    ensures n > 0 <==> exists r :: r in sel && x in r.consequent
  {
    if sel == [] then 0
    else (if x in sel[0].consequent then 1 else 0) + Frequency(sel[1..], x)
  }

  /** The items that occur in the exploded consequents: the index of the
      `value_counts` result. */
  function ConsequentItems(sel: seq<Rule>): (s: set<Item>)
    ensures forall x :: x in s <==> Frequency(sel, x) > 0
  {
    if sel == [] then {}
    else sel[0].consequent + ConsequentItems(sel[1..])
  }

  /** A non-empty set of items has one whose frequency is the largest. */
  lemma {:induction false} HasMostFrequent(sel: seq<Rule>, s: set<Item>)
    requires s != {}
    ensures exists x :: x in s && forall y :: y in s ==> Frequency(sel, y) <= Frequency(sel, x)
    decreases s
  {
    var z :| z in s;
    if s - {z} == {} {
      assert s == {z};
    } else {
      HasMostFrequent(sel, s - {z});
      var x :| x in s - {z} && forall y :: y in s - {z} ==> Frequency(sel, y) <= Frequency(sel, x);
      if Frequency(sel, x) < Frequency(sel, z) {
        assert forall y :: y in s ==> Frequency(sel, y) <= Frequency(sel, z);
      } else {
        assert forall y :: y in s ==> Frequency(sel, y) <= Frequency(sel, x);
      }
    }
  }

  /** The item `plot_coocorrencia` returns: among the items other than `item`
      in the consequents of the rules whose antecedent contains `item`, one
      whose frequency is the largest (`frequencia.idxmax()`), or None when no
      rule mentions `item` or `item` is the only consequent item. Ties are
      broken by the order `value_counts` leaves, which the model does not fix. */
  ghost function MostFrequentConsequent(rules: seq<Rule>, item: Item): (res: Option<Item>)
    ensures res == None <==>
      forall r :: r in rules && item in r.antecedent ==> r.consequent <= {item}
    ensures res.Some? ==> res.value != item
    ensures res.Some? ==>
      exists r :: r in rules && item in r.antecedent && res.value in r.consequent
    ensures res.Some? ==> forall y :: y != item ==>
      Frequency(RulesWith(rules, item), y) <= Frequency(RulesWith(rules, item), res.value)
  {
    var sel := RulesWith(rules, item);
    var candidates := ConsequentItems(sel) - {item};
    if candidates == {} then
      assert forall r :: r in rules && item in r.antecedent ==> r.consequent <= {item} by {
        forall r, x | r in rules && item in r.antecedent && x in r.consequent
          ensures x == item
        {
          assert r in sel;
          assert Frequency(sel, x) > 0;
          assert x in ConsequentItems(sel) && x !in candidates;
        }
      }
      None
    else
      HasMostFrequent(sel, candidates);
      var x :| x in candidates &&
        forall y :: y in candidates ==> Frequency(sel, y) <= Frequency(sel, x);
      assert forall y :: y != item && y !in candidates ==> Frequency(sel, y) == 0;
      Some(x)
  }

  /** With the rules B -> C and C -> B, a buyer of B is shown C and nothing is
      shown for D. */
  lemma TwoRuleTableExample()
    ensures MostFrequentConsequent([Rule({"B"}, {"C"}), Rule({"C"}, {"B"})], "B") == Some("C")
    ensures MostFrequentConsequent([Rule({"B"}, {"C"}), Rule({"C"}, {"B"})], "D") == None
  {
  }
}
