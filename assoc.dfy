/** Building a map by inserting key/value pairs one after another, as the source's loops
    over `HashMap::insert` do: a later pair with the same key overwrites an earlier one. */
module Assoc {

  /** The map after inserting `pairs` into `acc` in order. */
  function InsertAll<K(==), V>(pairs: seq<(K, V)>, acc: map<K, V>): map<K, V>
  {
    if pairs == [] then acc else InsertAll(pairs[1..], acc[pairs[0].0 := pairs[0].1])
  }

  /** The key of pair `j` does not occur again later. */
  predicate IsLastFor<K(==), V>(pairs: seq<(K, V)>, j: int)
    requires 0 <= j < |pairs|
  {
    forall l :: j < l < |pairs| ==> pairs[l].0 != pairs[j].0
  }

  /** The keys are those of `acc` and of the pairs. */
  lemma {:induction false} InsertAllKeys<K, V>(pairs: seq<(K, V)>, acc: map<K, V>)
    ensures InsertAll(pairs, acc).Keys == acc.Keys + set j | 0 <= j < |pairs| :: pairs[j].0
  {
    if pairs != [] {
      var rest := pairs[1..];
      InsertAllKeys(rest, acc[pairs[0].0 := pairs[0].1]);
      var keys := set j | 0 <= j < |pairs| :: pairs[j].0;
      var restKeys := set j | 0 <= j < |rest| :: rest[j].0;
      assert keys == {pairs[0].0} + restKeys by {
        forall j | 0 <= j < |rest| ensures rest[j].0 in keys {
          assert rest[j] == pairs[j + 1];
        }
        forall j | 0 <= j < |pairs| ensures pairs[j].0 in {pairs[0].0} + restKeys {
          if j > 0 { assert pairs[j] == rest[j - 1]; }
        }
      }
    }
  }

  /** The last pair with a key decides its value. */
  lemma {:induction false} InsertAllLastWins<K, V>(pairs: seq<(K, V)>, acc: map<K, V>, j: int)
    requires 0 <= j < |pairs| && IsLastFor(pairs, j)
    ensures pairs[j].0 in InsertAll(pairs, acc) && InsertAll(pairs, acc)[pairs[j].0] == pairs[j].1
  {
    var rest := pairs[1..];
    var acc' := acc[pairs[0].0 := pairs[0].1];
    if j > 0 {
      assert rest[j - 1] == pairs[j];
      assert IsLastFor(rest, j - 1) by {
        forall l | j - 1 < l < |rest| ensures rest[l].0 != rest[j - 1].0 {
          assert rest[l] == pairs[l + 1];
        }
      }
      InsertAllLastWins(rest, acc', j - 1);
    } else {
      InsertAllUntouched(rest, acc', pairs[0].0);
    }
  }

  /** A key no pair mentions keeps its value from `acc`. */
  lemma {:induction false} InsertAllUntouched<K, V>(pairs: seq<(K, V)>, acc: map<K, V>, k: K)
    requires k in acc
    requires forall j :: 0 <= j < |pairs| ==> pairs[j].0 != k
    ensures k in InsertAll(pairs, acc) && InsertAll(pairs, acc)[k] == acc[k]
  {
    if pairs != [] {
      var rest := pairs[1..];
      assert forall j :: 0 <= j < |rest| ==> rest[j] == pairs[j + 1];
      InsertAllUntouched(rest, acc[pairs[0].0 := pairs[0].1], k);
    }
  }

  /** Inserting two runs of pairs is inserting their concatenation. */
  lemma {:induction false} InsertAllAppend<K, V>(a: seq<(K, V)>, b: seq<(K, V)>, acc: map<K, V>)
    ensures InsertAll(a + b, acc) == InsertAll(b, InsertAll(a, acc))
  {
    if a != [] {
      assert (a + b)[1..] == a[1..] + b;
      InsertAllAppend(a[1..], b, acc[a[0].0 := a[0].1]);
    } else {
      assert a + b == b;
    }
  }
}
