/** The bidirectional map that remembers its most recent keys. */
module LruIndex {
  import opened Common

  /** Both directions, and the keys oldest first. */
  datatype BiMap<K(==), V(==)> = BiMap(left: map<K, V>, right: map<V, K>, keys: seq<K>)
  {
    /** Size, and which keys are remembered. */
    ghost predicate Tracked(limit: nat)
    {
      && |keys| <= limit
      && Distinct(keys)
      && (forall k :: k in left ==> k in keys)
      && (forall k :: k in keys ==> k in left)
    }

    /** Each right-to-left entry points to a live left entry that maps back to it. */
    ghost predicate PointsBack()
    {
      forall v :: v in right ==> right[v] in left && left[right[v]] == v
    }

    /** `evict`. */
    function Evicted(k: K): BiMap<K, V>
    {
      if k in left then BiMap(left - {k}, right - {left[k]}, keys) else this
    }

    /** `insert`. */
    function Inserted(limit: nat, k: K, v: V): BiMap<K, V>
    {
      var freed := if k !in keys && limit <= |keys| && keys != [] then Evicted(keys[0]) else this;
      BiMap(freed.left[k := v], freed.right[v := k], Promoted(keys, limit, k))
    }
  }

  /** The key list once `k` is the newest; the oldest key leaves when a new one comes to a full list. */
  function Promoted<K(==)>(keys: seq<K>, limit: nat, k: K): seq<K>
  {
    if k in keys then Minus(keys, k) + [k]
    else if limit <= |keys| && keys != [] then keys[1..] + [k]
    else keys + [k]
  }

  ghost predicate Distinct<K>(keys: seq<K>)
  {
    forall i, j :: 0 <= i < j < |keys| ==> keys[i] != keys[j]
  }

  function Minus<K(==)>(keys: seq<K>, k: K): seq<K>
  {
    if keys == [] then []
    else Minus(keys[..|keys| - 1], k) + if keys[|keys| - 1] == k then [] else [keys[|keys| - 1]]
  }

  lemma {:induction false} InMinus<K>(keys: seq<K>, k: K, x: K)
    ensures x in Minus(keys, k) <==> x in keys && x != k
  {
    if keys != [] {
      InMinus(keys[..|keys| - 1], k, x);
    }
  }

  /** Taking a key out leaves all others, in their order. */
  lemma {:induction false} MinusAt<K>(keys: seq<K>, k: K) returns (at: seq<nat>)
    ensures Enumerates(at, set i | 0 <= i < |keys| && keys[i] != k)
    ensures PicksAt(Minus(keys, k), keys, at)
  {
    if keys == [] {
      at := [];
    } else {
      var n := |keys| - 1;
      at := MinusAt(keys[..n], k);
      PicksMore(Minus(keys[..n], k), keys, at);
      var before := set i | 0 <= i < n && keys[..n][i] != k;
      var all := set i | 0 <= i < |keys| && keys[i] != k;
      if keys[n] != k {
        assert all == before + {n};
        EnumeratesMore(at, before, n);
        at := at + [n];
      } else {
        assert all == before;
      }
    }
  }

  lemma {:induction false} MinusIsDistinct<K>(keys: seq<K>, k: K)
    requires Distinct(keys)
    ensures Distinct(Minus(keys, k)) && |Minus(keys, k)| == if k in keys then |keys| - 1 else |keys|
  {
    if keys != [] {
      var n := |keys| - 1;
      MinusIsDistinct(keys[..n], k);
      InMinus(keys[..n], k, keys[n]);
      assert keys[n] !in keys[..n];
    }
  }

  lemma PromotedKeys<K>(keys: seq<K>, limit: nat, k: K)
    requires Distinct(keys) && |keys| <= limit && limit > 0
    ensures Distinct(Promoted(keys, limit, k)) && |Promoted(keys, limit, k)| <= limit
  {
    MinusIsDistinct(keys, k);
    InMinus(keys, k, k);
  }

  lemma InPromoted<K>(keys: seq<K>, limit: nat, k: K, x: K)
    requires Distinct(keys)
    ensures x in Promoted(keys, limit, k) <==>
            x == k || (x in keys && !(k !in keys && limit <= |keys| && x == keys[0]))
  {
    InMinus(keys, k, x);
    if keys != [] {
      assert keys == [keys[0]] + keys[1..];
      assert keys[0] !in keys[1..];
    }
  }

  lemma TrackedAfterInsert<K, V>(m: BiMap<K, V>, limit: nat, k: K, v: V)
    requires m.Tracked(limit) && limit > 0
    ensures m.Inserted(limit, k, v).Tracked(limit)
  {
    var next := m.Inserted(limit, k, v);
    PromotedKeys(m.keys, limit, k);
    forall x | x in next.left
      ensures x in next.keys
    {
      InPromoted(m.keys, limit, k, x);
    }
    forall x | x in next.keys
      ensures x in next.left
    {
      InPromoted(m.keys, limit, k, x);
    }
  }

  /**
   Insertion keeps the right-to-left entries pointing back exactly if it does not give a key whose
   own value points back at it a different value.
   */
  lemma PointsBackAfterInsertIff<K, V>(m: BiMap<K, V>, limit: nat, k: K, v: V)
    requires m.Tracked(limit) && m.PointsBack()
    ensures m.Inserted(limit, k, v).PointsBack()
       <==> k !in m.left || m.left[k] == v || m.left[k] !in m.right || m.right[m.left[k]] != k
  {
    var next := m.Inserted(limit, k, v);
    if k in m.left && m.left[k] != v && m.left[k] in m.right && m.right[m.left[k]] == k {
      assert m.left[k] in next.right && next.right[m.left[k]] == k;
    }
  }

  /** Rebinding 7 from 1 to 2 leaves 1 pointing to 7, which no longer maps to it. */
  lemma RebindingLeavesStaleEntry()
    ensures
      var m := BiMap(map[7 := 1], map[1 := 7], [7]);
      m.Tracked(10) && m.PointsBack() && !m.Inserted(10, 7, 2).PointsBack()
  {
    var m := BiMap(map[7 := 1], map[1 := 7], [7]);
    assert m.Inserted(10, 7, 2).right[1] == 7;
  }

  /** The key is found under its value, and no other key changes its value, though one may be evicted. */
  lemma LookupAfterInsert<K, V>(m: BiMap<K, V>, limit: nat, k: K, v: V, j: K)
    requires m.Tracked(limit)
    ensures
      var next := m.Inserted(limit, k, v);
      && k in next.left && next.left[k] == v && v in next.right && next.right[v] == k
      && (j != k && j in next.left ==> j in m.left && next.left[j] == m.left[j])
      && (j in m.left && j !in next.left ==> m.keys != [] && j == m.keys[0] && k !in m.left && |m.keys| == limit)
  {
  }

  // ---------- The newest keys survive ----------

  lemma {:induction false} MinusParts<K>(a: seq<K>, b: seq<K>, k: K)
    ensures Minus(a + b, k) == Minus(a, k) + Minus(b, k) && |Minus(b, k)| <= |b|
  {
    if b == [] {
      assert a + b == a;
    } else {
      var n := |b| - 1;
      assert (a + b)[..|a + b| - 1] == a + b[..n];
      MinusParts(a, b[..n], k);
    }
  }

  lemma {:induction false} MinusNothing<K>(keys: seq<K>, k: K)
    requires k !in keys
    ensures Minus(keys, k) == keys
  {
    if keys != [] {
      MinusNothing(keys[..|keys| - 1], k);
      InitAndLast(keys);
    }
  }

  lemma PromotionOfParts<K>(front: seq<K>, end: seq<K>, limit: nat, k: K) returns (rest: seq<K>)
    requires |end| < limit
    ensures Promoted(front + end, limit, k) == rest + (Minus(end, k) + [k])
  {
    MinusParts(front, end, k);
    if k in front + end {
      rest := Minus(front, k);
      Associates(rest, Minus(end, k), [k]);
    } else {
      MinusNothing(end, k);
      if limit <= |front + end| {
        rest := front[1..];
        assert (front + end)[1..] == rest + end;
      } else {
        rest := front;
      }
      Associates(rest, end, [k]);
    }
  }

  /** As long as fewer than `limit` keys are newer than all others, one more joins them and none is lost. */
  lemma PromotionKeepsEnd<K>(keys: seq<K>, end: seq<K>, limit: nat, k: K)
    requires EndsWith(keys, end) && |end| < limit
    ensures EndsWith(Promoted(keys, limit, k), Minus(end, k) + [k]) && |Minus(end, k)| <= |end|
  {
    SplitEnd(keys, end);
    var rest := PromotionOfParts(keys[..|keys| - |end|], end, limit, k);
    AppendedEnd(rest, Minus(end, k) + [k]);
    MinusParts([], end, k);
  }

  class LruBiMap<K(==), V(==)> {
    var leftToRight: map<K, V>
    var rightToLeft: map<V, K>
    var lruKeys: seq<K>
    const limit: nat

    ghost function View(): BiMap<K, V>
      reads this
    {
      BiMap(leftToRight, rightToLeft, lruKeys)
    }

    ghost predicate Valid()
      reads this
    {
      View().Tracked(limit) && limit > 0
    }

    constructor (limit: nat)
      requires limit > 0
      ensures Valid() && View() == BiMap(map[], map[], []) && this.limit == limit
    {
      leftToRight, rightToLeft, lruKeys := map[], map[], [];
      this.limit := limit;
    }

    method Insert(key: K, value: V)
      requires Valid()
      modifies this
      ensures Valid() && View() == old(View()).Inserted(limit, key, value)
    {
      TrackedAfterInsert(View(), limit, key, value);
      if key !in lruKeys && limit <= |lruKeys| {
        var evicted := lruKeys[0];
        lruKeys := lruKeys[1..] + [key];
        Evict(evicted);
      } else if key in lruKeys {
        lruKeys := Minus(lruKeys, key) + [key];
      } else {
        lruKeys := lruKeys + [key];
      }
      leftToRight := leftToRight[key := value];
      rightToLeft := rightToLeft[value := key];
    }

    method Evict(key: K)
      modifies this
      ensures View() == old(View()).Evicted(key)
    {
      if key in leftToRight {
        var value := leftToRight[key];
        leftToRight := leftToRight - {key};
        rightToLeft := rightToLeft - {value};
      }
    }
  }
}
