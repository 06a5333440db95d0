# Rule-based recommendation from association rules — Dafny model

The repository mines association rules from shopping transactions and uses
them to recommend items. Mining itself (frequent itemsets, support, confidence
and lift) is done by library calls whose code is not part of this model; the
rule table they produce is taken as an input: a sequence of rules, each a pair
of item sets (antecedent, consequent). What the repository's own code does with
that table is modelled here:

- `Rules` (rules.dfy): items (strings), rules, the items of a transaction,
  when a rule fires (its antecedent is a subset of the transaction), and what it
  means for a list to enumerate a set (every element once, in some order).
- `Recommendation` (recommendation.dfy): `recomendar`. A method loops over the
  rules and accumulates the union of the consequents of those that fire. It
  removes the transaction's own items and turns the set into a list in an
  order it leaves open. It then truncates the list with Python's slice `[:n]`,
  including Python's meaning of a negative `n`.
  Its contract ties the result to the specification function `Candidates`.
  The lemmas characterise `Candidates` in both directions and show it does not
  depend on rule order or repetition.
- `Evaluation` (evaluation.dfy): `avaliar_recomendacoes`. The method runs the
  nested loops of the source, calling `Recommend` with the default limit 6. It
  proves that `total_recomendacoes` is the number of test transactions with a
  non-empty candidate set. It also proves that `acertos` stays 0, so the
  precision returned is always 0. The reason is that a recommended item is
  never in the transaction it was computed for, which is exactly what the hit
  test looks for.
- `Cooccurrence` (cooccurrence.dfy): the selection inside `plot_coocorrencia`.
  It is a pure pipeline: filter the rules whose antecedent contains the item,
  explode their consequents, count, drop the item itself, take an arg-max.
  Here it is functions and lemmas. Ties among maximal items are left open, as
  the source leaves them to the library's sort order.

The code truncates an unordered set and tests recommended items against the
same transaction they were computed for; the model follows the code.

## Model

| member | source | states |
|---|---|---|
| `Recommendation.Recommend` | mineracaofinal.py:46-54 | no recommended item is in the transaction; each comes from the consequent of a rule whose antecedent is a subset of the transaction; no duplicates; length is min(number of candidates, limit) for a non-negative limit and follows Python's slice for a negative one; all candidates are returned when the limit allows; no firing rule gives `[]`; the result is a slice of some listing of the candidate set |
| `Recommendation.AccumulatedMembership` | mineracaofinal.py:47-52 | an item ends up in the accumulated set exactly when some rule that fires has it in its consequent |
| `Recommendation.CandidateMembership` | mineracaofinal.py:47-53 | an item is a candidate exactly when it is not in the transaction and some firing rule has it in its consequent |
| `Recommendation.RuleOrderIrrelevant` | mineracaofinal.py:48-52 | two rule tables holding the same rules, in any order and with any repetition, give the same candidate set |
| `Recommendation.ListOf` | mineracaofinal.py:54 | `list(s)` of a set lists each of its elements exactly once |
| `Recommendation.Take` | mineracaofinal.py:54 | `s[:n]` is a prefix of `s` of length min(len, n) for n >= 0 and max(0, len + n) for n < 0 |
| `Recommendation.TakeOfListing` | mineracaofinal.py:54 | slicing a listing of a set gives distinct members of the set, as many as the slice allows, and the whole set when the limit is at least its size |
| `Rules.EnumerationLength` | mineracaofinal.py:54 | a duplicate-free list of a set has as many elements as the set |
| `Recommendation.TwoRuleTableExample` | mineracaofinal.py:46-54 | with rules B→C and C→B, transaction [B] has candidates {C}, [C] has {B}, [D] has none |
| `Evaluation.Receiving` | mineracaofinal.py:61-64 | the number of test transactions that receive a recommendation is at most the number of test transactions |
| `Evaluation.ReceivingBounds` | mineracaofinal.py:61-64 | that number is 0 exactly when no test transaction has a candidate, and equals the number of tests exactly when all have one |
| `Evaluation.Evaluate` | mineracaofinal.py:57-69 | `total_recomendacoes` equals the number of test transactions with a non-empty recommendation list; `acertos` is 0; the precision returned is 0 |
| `Cooccurrence.RulesWith` | mineracaofinal.py:79 | the selected rules are exactly the table's rules whose antecedent contains the item, each kept as many times as the table holds it, and there are no more of them than rules |
| `Cooccurrence.Frequency` | mineracaofinal.py:83-84 | an item's count over the exploded consequents is at most the number of selected rules, and positive exactly when some selected consequent contains it |
| `Cooccurrence.ConsequentItems` | mineracaofinal.py:83-85 | the items counted are exactly those with a positive count |
| `Cooccurrence.HasMostFrequent` | mineracaofinal.py:91 | a non-empty set of items has a member of maximal count |
| `Cooccurrence.MostFrequentConsequent` | mineracaofinal.py:79-92 | None exactly when every rule whose antecedent has the item has no consequent item but the item itself; otherwise an item different from the item, in the consequent of such a rule, whose count is maximal among all other items |
| `Cooccurrence.TwoRuleTableExample` | mineracaofinal.py:79-92 | with rules B→C and C→B, the buyer of B is shown C and the buyer of D nothing |

## Left out

- Synthetic transaction generation (mineracaofinal.py:26-29) and the train/test split (line 32): randomness and library calls.
- `TransactionEncoder` and the DataFrame construction (lines 35-37): library data representation; rules and transactions are Dafny values instead.
- `apriori` and `association_rules` (lines 40, 43): library code not available; the rule table is an input, and support, confidence and lift, which the matching never reads, are not carried.
- Evaluation.Evaluate: the result is a `real`, not a floating-point number. When no transaction receives a recommendation the source returns the integer `0`, not `0.0`; the model does not separate the two.
- Cooccurrence.MostFrequentConsequent: counts are integers. The source divides them by their total and multiplies by 100 (line 84). That positive scaling does not change which items are maximal. The percentage itself (line 92) is used only by the plot and is not modelled.
- Cooccurrence.MostFrequentConsequent: when several items share the maximal count, `idxmax` returns whichever comes first in the order `value_counts` produced. The model promises only some maximal item.
- The `'consequents' not in regras.columns` check (lines 76-78): the rule datatype always has a consequent, so the case cannot arise.
- Printing and plotting (lines 72, 77, 81, 88, 94-100, 105-128, 134, 154): user interface.
- The driver code that calls `plot_coocorrencia` for each item of a random or typed-in transaction and then deduplicates the results (lines 133-147, 150-169): I/O glue around the modelled selection.
- The order of `Recommend`'s result: Python's set iteration order is not specified, so the model allows any order.
