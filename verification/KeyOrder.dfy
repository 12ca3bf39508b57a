/** A set of keys in ascending order, as an ordered map iterates it. */
module KeyOrder {
  import opened Money

  predicate IsLeast(k: Key, keys: set<Key>) {
    k in keys && forall j | j in keys :: KeyLe(k, j)
  }

  lemma {:induction false} LeastExists(keys: set<Key>) returns (k: Key)
    requires keys != {}
    ensures IsLeast(k, keys)
    decreases |keys|
  {
    var j :| j in keys;
    if keys == {j} {
      k := j;
    } else {
      var rest := keys - {j};
      assert keys == rest + {j};
      var r := LeastExists(rest);
      k := if KeyLe(j, r) then j else r;
    }
  }

  lemma {:induction false} RankIsInjective(a: CurrencyCode, b: CurrencyCode)
    requires CurrencyRank(a) == CurrencyRank(b)
    ensures a == b
  {
  }

  lemma {:induction false} LeastIsUnique(j: Key, k: Key, keys: set<Key>)
    requires IsLeast(j, keys) && IsLeast(k, keys)
    ensures j == k
  {
    assert KeyLe(j, k) && KeyLe(k, j);
    RankIsInjective(j.currency, k.currency);
  }

  ghost predicate Ascending(keys: seq<Key>) {
    forall i, j | 0 <= i < j < |keys| :: KeyLe(keys[i], keys[j]) && keys[i] != keys[j]
  }

  /** The keys of a set, least first. */
  ghost function InOrder(keys: set<Key>): seq<Key>
    decreases |keys|
  {
    if keys == {} then []
    else
      assert exists k :: IsLeast(k, keys) by {
        var k := LeastExists(keys);
      }
      var k :| IsLeast(k, keys);
      [k] + InOrder(keys - {k})
  }

  lemma {:induction false} InOrderStep(keys: set<Key>, k: Key)
    requires IsLeast(k, keys)
    ensures InOrder(keys) == [k] + InOrder(keys - {k})
  {
    var j :| IsLeast(j, keys) && InOrder(keys) == [j] + InOrder(keys - {j});
    LeastIsUnique(j, k, keys);
  }

  lemma {:induction false} InOrderLists(keys: set<Key>, k: Key)
    ensures k in InOrder(keys) <==> k in keys
    decreases |keys|
  {
    if keys != {} {
      var least := LeastExists(keys);
      InOrderStep(keys, least);
      InOrderLists(keys - {least}, k);
    }
  }

  lemma {:induction false} InOrderAscends(keys: set<Key>)
    ensures Ascending(InOrder(keys))
    decreases |keys|
  {
    if keys != {} {
      var least := LeastExists(keys);
      var rest := InOrder(keys - {least});
      InOrderStep(keys, least);
      InOrderAscends(keys - {least});
      forall i | 0 <= i < |rest|
        ensures KeyLe(least, rest[i]) && least != rest[i]
      {
        InOrderLists(keys - {least}, rest[i]);
      }
    }
  }
}
