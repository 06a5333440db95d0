/** Association rules and transactions, as the recommendation step of
    mineracaofinal.py receives them from the rule miner. */
module Rules {

  /** An item label: the source's items are strings such as "leite" or "pão". */
  type Item = string

  /** One row of the rule table: antecedent -> consequent, both item sets
      (frozensets in the source). Support, confidence and lift are not used
      by the recommendation step and are not carried. */
  datatype Rule = Rule(antecedent: set<Item>, consequent: set<Item>)

  /** The items of a transaction, `set(transacao)`. */
  function Elems(t: seq<Item>): set<Item>
  {
    set x | x in t
  }

  /** A rule applies to a transaction when its antecedent is a subset of the
      transaction's items (`antecedente.issubset(transacao)`). */
  predicate Fires(r: Rule, t: seq<Item>)
  {
    r.antecedent <= Elems(t)
  }

  predicate NoDuplicates(s: seq<Item>)
  {
    forall i, j :: 0 <= i < j < |s| ==> s[i] != s[j]
  }

  /** `s` lists every element of `c` exactly once, in some order: what
      `list(c)` yields for a Python set `c`. */
  predicate Enumerates(s: seq<Item>, c: set<Item>)
  {
    NoDuplicates(s) && Elems(s) == c
  }

  /** A list without duplicates has as many elements as the set it lists. */
  lemma {:induction false} EnumerationLength(s: seq<Item>, c: set<Item>)
    requires Enumerates(s, c)
    ensures |s| == |c|
  {
    if s != [] {
      var n := |s| - 1;
      var init, last := s[..n], s[n];
      assert s == init + [last];
      assert last !in init by {
        forall i | 0 <= i < n ensures init[i] != last {
          assert s[i] != s[n];
        }
      }
      assert Elems(init) == c - {last} by {
        forall x ensures x in Elems(init) <==> x in c - {last} {
          assert x in s <==> x in init || x == last;
        }
      }
      EnumerationLength(init, c - {last});
    }
  }
}
