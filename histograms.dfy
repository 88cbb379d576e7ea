/**
 * The counting dictionaries the pipeline's reports build,
 * `counts[label] = counts.get(label, 0) + 1` over every entry of a node or
 * edge dictionary. A counter is a multiset of labels: its distinct elements
 * are the dictionary's keys and their multiplicities are the counts.
 */
module Histograms {

  /** The keys among `keys` whose entry `labelOf` sends to `l`. */
  ghost function Matching<K, A, L>(items: map<K, A>, keys: set<K>, labelOf: (K, A) -> L, l: L): set<K>
  {
    set k | k in keys && k in items && labelOf(k, items[k]) == l
  }

  lemma MatchingStep<K, A, L>(items: map<K, A>, keys: set<K>, k: K, labelOf: (K, A) -> L, l: L)
    requires k in items && k !in keys
    ensures |Matching(items, keys + {k}, labelOf, l)|
         == |Matching(items, keys, labelOf, l)| + (if labelOf(k, items[k]) == l then 1 else 0)
  {
    if labelOf(k, items[k]) == l {
      assert Matching(items, keys + {k}, labelOf, l) == Matching(items, keys, labelOf, l) + {k};
    } else {
      assert Matching(items, keys + {k}, labelOf, l) == Matching(items, keys, labelOf, l);
    }
  }

  /**
   * One pass over a dictionary that counts the label of every entry. Each
   * label is counted once per entry that carries it, and the counts add up
   * to the number of entries.
   */
  method Tally<K, A, L(==)>(items: map<K, A>, labelOf: (K, A) -> L) returns (hist: multiset<L>)
    ensures |hist| == |items|
    ensures forall l :: hist[l] == |Matching(items, items.Keys, labelOf, l)|
  {
    hist := multiset{};
    var rest := items.Keys;
    ghost var done: set<K> := {};
    while rest != {}
      invariant rest <= items.Keys && done == items.Keys - rest
      invariant |hist| == |done|
      invariant forall l :: hist[l] == |Matching(items, done, labelOf, l)|
      decreases |rest|
    {
      var k :| k in rest;
      forall l
        ensures |Matching(items, done + {k}, labelOf, l)|
             == |Matching(items, done, labelOf, l)| + (if labelOf(k, items[k]) == l then 1 else 0)
      {
        MatchingStep(items, done, k, labelOf, l);
      }
      hist := hist + multiset{labelOf(k, items[k])};
      rest := rest - {k};
      done := done + {k};
    }
    assert done == items.Keys;
  }
}
