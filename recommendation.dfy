/** The rule-based recommendation matcher `recomendar`
    (mineracaofinal.py, lines 46-54). */
module Recommendation {
  import opened Rules

  /** The default of `max_recomendacoes`. */
  const DefaultMaxRecommendations: int := 6

  /** The union of the consequents of the rules in `rules` that fire on `t`,
      accumulated from the first rule to the last, as the loop does. */
  function Accumulated(rules: seq<Rule>, t: seq<Item>): set<Item>
  {
    if rules == [] then {}
    else
      var last := rules[|rules| - 1];
      Accumulated(rules[..|rules| - 1], t) + (if Fires(last, t) then last.consequent else {})
  }

  /** The candidate set once the transaction's own items are removed. */
  function Candidates(t: seq<Item>, rules: seq<Rule>): set<Item>
  {
    Accumulated(rules, t) - Elems(t)
  }

  /** An item is accumulated exactly when some rule that fires has it in its
      consequent. */
  lemma {:induction false} AccumulatedMembership(rules: seq<Rule>, t: seq<Item>, x: Item)
    ensures x in Accumulated(rules, t) <==> exists r :: r in rules && Fires(r, t) && x in r.consequent
  {
    if rules != [] {
      var init, last := rules[..|rules| - 1], rules[|rules| - 1];
      assert rules == init + [last];
      AccumulatedMembership(init, t, x);
    }
  }

  /** An item is a candidate for `t` exactly when it is not in `t` and some
      rule that fires on `t` has it in its consequent. */
  lemma CandidateMembership(t: seq<Item>, rules: seq<Rule>, x: Item)
    ensures x in Candidates(t, rules) <==>
      x !in t && exists r :: r in rules && Fires(r, t) && x in r.consequent
  {
    AccumulatedMembership(rules, t, x);
  }

  function Min(a: int, b: int): int { if a <= b then a else b }

  function Max(a: int, b: int): int { if a >= b then a else b }

  /** Python's slice `s[:n]`: the first `n` elements when `n >= 0`; for a
      negative `n`, all but the last `-n` elements (none if there are fewer). */
  function Take(s: seq<Item>, n: int): (p: seq<Item>)
    ensures p <= s
    ensures n >= 0 ==> |p| == Min(|s|, n)
    ensures n < 0 ==> |p| == Max(0, |s| + n)
  {
    if n >= 0 then (if n <= |s| then s[..n] else s)
    else if |s| + n >= 0 then s[..|s| + n]
    else []
  }

  /** The candidate set does not depend on the order of the rules, nor on
      repeated rules: two rule tables with the same rules give the same
      candidates for every transaction. */
  lemma {:induction false} RuleOrderIrrelevant(rules1: seq<Rule>, rules2: seq<Rule>, t: seq<Item>)
    requires forall r :: r in rules1 <==> r in rules2
    ensures Candidates(t, rules1) == Candidates(t, rules2)
  {
    forall x ensures x in Candidates(t, rules1) <==> x in Candidates(t, rules2) {
      CandidateMembership(t, rules1, x);
      CandidateMembership(t, rules2, x);
      if x in Candidates(t, rules1) {
        var r :| r in rules1 && Fires(r, t) && x in r.consequent;
        assert r in rules2;
      }
      if x in Candidates(t, rules2) {
        var r :| r in rules2 && Fires(r, t) && x in r.consequent;
        assert r in rules1;
      }
    }
  }

  /** What the truncation `[:n]` keeps of a listing of a set: distinct
      elements of the set, as many as the slice allows, and all of them when
      `n` is at least the size of the set. */
  lemma TakeOfListing(order: seq<Item>, c: set<Item>, n: int)
    requires Enumerates(order, c)
    ensures NoDuplicates(Take(order, n))
    ensures forall x :: x in Take(order, n) ==> x in c
    ensures n >= 0 ==> |Take(order, n)| == Min(|c|, n)
    ensures n < 0 ==> |Take(order, n)| == Max(0, |c| + n)
    ensures n >= |c| ==> Elems(Take(order, n)) == c
  {
    EnumerationLength(order, c);
    var p := Take(order, n);
    forall i, j | 0 <= i < j < |p| ensures p[i] != p[j] {
      assert p[i] == order[i] && p[j] == order[j];
    }
    forall x | x in p ensures x in c {
      var i :| 0 <= i < |p| && p[i] == x;
      assert order[i] == x;
    }
    if n >= |c| {
      assert p == order;
    }
  }

  /** `list(s)` for a Python set `s`: its elements, each once, in an order the
      set's iteration decides and the model leaves open. */
  method ListOf(s: set<Item>) returns (order: seq<Item>)
    ensures Enumerates(order, s)
  {
    order := [];
    var rest := s;
    while rest != {}
      invariant rest <= s
      invariant Enumerates(order, s - rest)
      decreases rest
    {
      var x :| x in rest;
      ExtendListing(order, s - rest, x);
      order := order + [x];
      rest := rest - {x};
    }
    assert s - rest == s;
  }

  lemma ExtendListing(order: seq<Item>, c: set<Item>, x: Item)
    requires Enumerates(order, c) && x !in c
    ensures Enumerates(order + [x], c + {x})
  {
  }

  /** `recomendar(transacao, regras, max_recomendacoes)`. */
  method Recommend(t: seq<Item>, rules: seq<Rule>, maxRecs: int) returns (recs: seq<Item>)
    // never recommends an item already in the transaction
    ensures forall x :: x in recs ==> x !in t
    // every recommendation comes from the consequent of a rule that fires
    ensures forall x :: x in recs ==>
      exists r :: r in rules && Fires(r, t) && x in r.consequent
    ensures NoDuplicates(recs)
    ensures maxRecs >= 0 ==> |recs| == Min(|Candidates(t, rules)|, maxRecs)
    ensures maxRecs < 0 ==> |recs| == Max(0, |Candidates(t, rules)| + maxRecs)
    // with room for all of them, every candidate is recommended
    ensures maxRecs >= |Candidates(t, rules)| ==> Elems(recs) == Candidates(t, rules)
    ensures (forall r :: r in rules ==> !Fires(r, t)) ==> recs == []
    // the result is a prefix of some listing of the candidate set
    ensures exists order :: Enumerates(order, Candidates(t, rules)) && recs == Take(order, maxRecs)
  {
    var acc: set<Item> := {};
    for i := 0 to |rules|
      invariant acc == Accumulated(rules[..i], t)
    {
      assert rules[..i + 1] == rules[..i] + [rules[i]];
      if rules[i].antecedent <= Elems(t) {
        acc := acc + rules[i].consequent;
      }
    }
    assert rules[..|rules|] == rules;
    acc := acc - Elems(t);
    var order := ListOf(acc);
    recs := Take(order, maxRecs);
    TakeOfListing(order, acc, maxRecs);
    assert acc == Candidates(t, rules);
    forall x | x in recs
      ensures x !in t && exists r :: r in rules && Fires(r, t) && x in r.consequent
    {
      CandidateMembership(t, rules, x);
    }
    if forall r :: r in rules ==> !Fires(r, t) {
      forall x ensures x !in acc {
        CandidateMembership(t, rules, x);
      }
      assert acc == {};
    }
  }

  /** With the rules B -> C and C -> B, transaction [B] gets candidate C,
      [C] gets B and [D] gets none. */
  lemma TwoRuleTableExample()
    ensures Candidates(["B"], [Rule({"B"}, {"C"}), Rule({"C"}, {"B"})]) == {"C"}
    ensures Candidates(["C"], [Rule({"B"}, {"C"}), Rule({"C"}, {"B"})]) == {"B"}
    ensures Candidates(["D"], [Rule({"B"}, {"C"}), Rule({"C"}, {"B"})]) == {}
  {
    var rules := [Rule({"B"}, {"C"}), Rule({"C"}, {"B"})];
    assert Elems(["B"]) == {"B"};
    assert Elems(["C"]) == {"C"};
    assert Elems(["D"]) == {"D"};
    assert Fires(rules[0], ["B"]) && !Fires(rules[1], ["B"]);
    assert Fires(rules[1], ["C"]) && !Fires(rules[0], ["C"]);
    assert !Fires(rules[0], ["D"]) && !Fires(rules[1], ["D"]);
    assert rules[..1] == [rules[0]] && rules[..1][..0] == [];
    assert Accumulated(rules, ["B"]) == {"C"};
    assert Accumulated(rules, ["C"]) == {"B"};
    assert Accumulated(rules, ["D"]) == {};
  }
}
