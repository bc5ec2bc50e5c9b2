/**
 * Inserting a run of (key, value) pairs into a std::map with m[key] = value,
 * one after the other: the last pair for a key decides its value.
 */
module Maps {

  import opened Seqs

  /** m after m[k] = v for every pair (k, v) of pairs, in order. */
  function InsertAll<K, V>(m: map<K, V>, pairs: seq<(K, V)>): (r: map<K, V>)
  {
    if |pairs| == 0 then m else InsertAll(m, pairs[..|pairs| - 1])[pairs[|pairs| - 1].0 := pairs[|pairs| - 1].1]
  }

  /** The keys afterwards are the keys before and the keys of the pairs. */
  lemma {:induction false} InsertAllKeys<K, V>(m: map<K, V>, pairs: seq<(K, V)>)
    ensures InsertAll(m, pairs).Keys == m.Keys + set j | 0 <= j < |pairs| :: pairs[j].0
  {
    if |pairs| > 0 {
      var init := pairs[..|pairs| - 1];
      InsertAllKeys(m, init);
      assert (set j | 0 <= j < |pairs| :: pairs[j].0) == (set j | 0 <= j < |init| :: init[j].0) + {pairs[|pairs| - 1].0};
    }
  }

  /** Inserting two runs one after the other is inserting their concatenation. */
  lemma {:induction false} InsertAllAppend<K, V>(m: map<K, V>, p: seq<(K, V)>, q: seq<(K, V)>)
    ensures InsertAll(m, p + q) == InsertAll(InsertAll(m, p), q)
  {
    if |q| > 0 {
      assert (p + q)[..|p + q| - 1] == p + q[..|q| - 1];
      InsertAllAppend(m, p, q[..|q| - 1]);
    } else {
      assert p + q == p;
    }
  }

  /** A key takes the value of its last occurrence in the run. */
  lemma {:induction false} InsertAllLastWins<K, V>(m: map<K, V>, pairs: seq<(K, V)>, i: nat)
    requires i < |pairs|
    requires forall j :: i < j < |pairs| ==> pairs[j].0 != pairs[i].0
    ensures pairs[i].0 in InsertAll(m, pairs) && InsertAll(m, pairs)[pairs[i].0] == pairs[i].1
  {
    if i < |pairs| - 1 {
      InsertAllLastWins(m, pairs[..|pairs| - 1], i);
    }
  }

  /** A key that no pair names keeps its presence and its value. */
  lemma {:induction false} InsertAllUntouched<K, V>(m: map<K, V>, pairs: seq<(K, V)>, k: K)
    requires forall j :: 0 <= j < |pairs| ==> pairs[j].0 != k
    ensures k in InsertAll(m, pairs) <==> k in m
    ensures k in m ==> InsertAll(m, pairs)[k] == m[k]
  {
    if |pairs| > 0 {
      InsertAllUntouched(m, pairs[..|pairs| - 1], k);
    }
  }

  /** Inserting the first i + 1 pairs is inserting the first i, then pair i. */
  lemma InsertAllPrefix<K, V>(m: map<K, V>, pairs: seq<(K, V)>, i: nat)
    requires i < |pairs|
    ensures InsertAll(m, pairs[..i + 1]) == InsertAll(m, pairs[..i])[pairs[i].0 := pairs[i].1]
  {
    assert pairs[..i + 1][..i] == pairs[..i];
  }

  /** Inserting the runs before j and then run j is inserting the runs up to j. */
  lemma InsertAllRuns<K, V>(m: map<K, V>, runs: seq<seq<(K, V)>>, j: nat)
    requires j < |runs|
    ensures InsertAll(m, Flatten(runs[..j + 1])) == InsertAll(InsertAll(m, Flatten(runs[..j])), runs[j])
  {
    assert runs[..j + 1][..j] == runs[..j];
    InsertAllAppend(m, Flatten(runs[..j]), runs[j]);
  }

  /** Inserting no pair changes nothing. */
  lemma InsertAllEmpty<K, V>(m: map<K, V>)
    ensures InsertAll(m, []) == m
  {
  }

  /** Inserting one pair is one assignment. */
  lemma InsertAllOne<K, V>(m: map<K, V>, k: K, v: V)
    ensures InsertAll(m, [(k, v)]) == m[k := v]
  {
    assert [(k, v)][..0] == [];
  }

}
