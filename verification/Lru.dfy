/** The bounded recency list behind the node's caches, on values: entries with distinct keys, oldest first. */
module Lru {
  import opened Common

  datatype Entry<K, V> = Entry(key: K, value: V)

  type Entries<K, V> = seq<Entry<K, V>>

  function Find<K(==), V>(es: Entries<K, V>, k: K): Option<V>
  {
    if es == [] then None
    else if es[|es| - 1].key == k then Some(es[|es| - 1].value)
    else Find(es[..|es| - 1], k)
  }

  function Without<K(==), V>(es: Entries<K, V>, k: K): (r: Entries<K, V>)
    ensures |r| <= |es|
  {
    if es == [] then []
    else
      var n := |es| - 1;
      Without(es[..n], k) + if es[n].key == k then [] else [es[n]]
  }

  /** The newest `cap` entries. */
  function Newest<K, V>(es: Entries<K, V>, cap: nat): (r: Entries<K, V>)
    ensures |r| <= cap
  {
    if |es| <= cap then es else es[|es| - cap..]
  }

  /** Inserts as newest; when full, the oldest entry goes. */
  function Insert<K(==), V>(es: Entries<K, V>, cap: nat, k: K, v: V): (r: Entries<K, V>)
    ensures |r| <= cap
  {
    Newest(Without(es, k) + [Entry(k, v)], cap)
  }

  /** A hit makes the entry the newest. */
  function Touch<K(==), V>(es: Entries<K, V>, k: K): Entries<K, V>
  {
    match Find(es, k) case None => es case Some(v) => Without(es, k) + [Entry(k, v)]
  }

  // ---------- What is found ----------

  lemma {:induction false} FindInParts<K, V>(a: Entries<K, V>, b: Entries<K, V>, k: K)
    ensures Find(a + b, k) == if Find(b, k).Some? then Find(b, k) else Find(a, k)
  {
    if b == [] {
      assert a + b == a;
    } else {
      var n := |b| - 1;
      assert (a + b)[..|a + b| - 1] == a + b[..n];
      FindInParts(a, b[..n], k);
    }
  }

  lemma {:induction false} FindWithout<K, V>(es: Entries<K, V>, k: K, j: K)
    ensures Find(Without(es, k), j) == if j == k then None else Find(es, j)
  {
    if es != [] {
      var n := |es| - 1;
      FindWithout(es[..n], k, j);
      FindInParts(Without(es[..n], k), if es[n].key == k then [] else [es[n]], j);
    }
  }

  lemma {:induction false} WithoutParts<K, V>(a: Entries<K, V>, b: Entries<K, V>, k: K)
    ensures Without(a + b, k) == Without(a, k) + Without(b, k)
  {
    if b == [] {
      assert a + b == a;
    } else {
      var n := |b| - 1;
      assert (a + b)[..|a + b| - 1] == a + b[..n];
      WithoutParts(a, b[..n], k);
    }
  }

  /** What the newest entries answer is what all of them answered. */
  lemma FindInNewest<K, V>(es: Entries<K, V>, cap: nat, k: K)
    ensures Find(Newest(es, cap), k).Some? ==> Find(es, k) == Find(Newest(es, cap), k)
  {
    if |es| > cap {
      assert es == es[..|es| - cap] + es[|es| - cap..];
      FindInParts(es[..|es| - cap], es[|es| - cap..], k);
    }
  }

  /** An insertion is found, and every other answer stays as it was or is forgotten. */
  lemma FindInserted<K, V>(es: Entries<K, V>, cap: nat, k: K, v: V, j: K)
    requires cap > 0
    ensures Find(Insert(es, cap, k, v), k) == Some(v)
    ensures j != k && Find(Insert(es, cap, k, v), j).Some? ==> Find(Insert(es, cap, k, v), j) == Find(es, j)
  {
    var full := Without(es, k) + [Entry(k, v)];
    var r := Newest(full, cap);
    assert r[|r| - 1] == Entry(k, v);
    FindInNewest(full, cap, j);
    FindInParts(Without(es, k), [Entry(k, v)], j);
    FindWithout(es, k, j);
  }

  lemma FindTouched<K, V>(es: Entries<K, V>, k: K, j: K)
    ensures Find(Touch(es, k), j) == Find(es, j)
  {
    if Find(es, k).Some? {
      var newest := [Entry(k, Find(es, k).value)];
      FindInParts(Without(es, k), newest, j);
      FindWithout(es, k, j);
    }
  }

  // ---------- What is newest ----------

  /** Taking a key out leaves all other entries, in their order. */
  lemma {:induction false} WithoutAt<K, V>(es: Entries<K, V>, k: K) returns (at: seq<nat>)
    ensures Enumerates(at, set i | 0 <= i < |es| && es[i].key != k)
    ensures PicksAt(Without(es, k), es, at)
  {
    if es == [] {
      at := [];
    } else {
      var n := |es| - 1;
      at := WithoutAt(es[..n], k);
      PicksMore(Without(es[..n], k), es, at);
      var before := set i | 0 <= i < n && es[..n][i].key != k;
      var all := set i | 0 <= i < |es| && es[i].key != k;
      if es[n].key != k {
        assert all == before + {n};
        EnumeratesMore(at, before, n);
        at := at + [n];
      } else {
        assert all == before;
      }
    }
  }

  /** A hit puts its entry last and leaves the others as they were; a miss changes nothing. */
  lemma TouchedIsNewest<K, V>(es: Entries<K, V>, k: K)
    ensures
      match Find(es, k)
      case None => Touch(es, k) == es
      case Some(v) =>
        var t := Touch(es, k);
        t != [] && t[|t| - 1] == Entry(k, v) && t[..|t| - 1] == Without(es, k)
  {
  }

  /** An insertion puts its entry last, behind as many of the newest others as there is room for. */
  lemma InsertedIsNewest<K, V>(es: Entries<K, V>, cap: nat, k: K, v: V)
    requires cap > 0
    ensures
      var r, others := Insert(es, cap, k, v), Without(es, k);
      && r != [] && r[|r| - 1] == Entry(k, v) && EndsWith(others, r[..|r| - 1])
      && |r| == if |others| < cap then |others| + 1 else cap
  {
    var r, others := Insert(es, cap, k, v), Without(es, k);
    var n := |r| - 1;
    assert r[..n] == others[|others| - n..];
  }

  // ---------- A batch ----------

  function InsertAll<K(==), V>(es: Entries<K, V>, cap: nat, batch: Entries<K, V>): Entries<K, V>
  {
    if batch == [] then es
    else
      var n := |batch| - 1;
      Insert(InsertAll(es, cap, batch[..n]), cap, batch[n].key, batch[n].value)
  }

  /** The batch alone in an unbounded list: each key once, with its last value. */
  function Alone<K(==), V>(batch: Entries<K, V>): (r: Entries<K, V>)
    ensures |r| <= |batch|
  {
    if batch == [] then []
    else
      var n := |batch| - 1;
      Without(Alone(batch[..n]), batch[n].key) + [batch[n]]
  }

  lemma NewestKeepsEnd<K, V>(front: Entries<K, V>, end: Entries<K, V>, cap: nat)
    requires |end| <= cap
    ensures EndsWith(Newest(front + end, cap), end)
  {
    var all := front + end;
    if |all| > cap {
      var cut := |all| - cap;
      assert all[cut..][cap - |end|..] == all[|front|..] == end;
    }
  }

  /** The last value the batch has for a key. */
  lemma {:induction false} FindAlone<K, V>(batch: Entries<K, V>, k: K)
    ensures Find(Alone(batch), k) == Find(batch, k)
  {
    if batch != [] {
      var n := |batch| - 1;
      FindAlone(batch[..n], k);
      FindInParts(Without(Alone(batch[..n]), batch[n].key), [batch[n]], k);
      FindWithout(Alone(batch[..n]), batch[n].key, k);
    }
  }

  // ---------- What is left of a batch ----------

  ghost predicate DistinctKeys<K, V>(es: Entries<K, V>)
  {
    forall i, j :: 0 <= i < j < |es| ==> es[i].key != es[j].key
  }

  lemma {:induction false} WithoutKeeps<K, V>(es: Entries<K, V>, k: K)
    requires DistinctKeys(es)
    ensures DistinctKeys(Without(es, k)) && |Without(es, k)| >= |es| - 1
    ensures forall e :: e in Without(es, k) ==> e in es && e.key != k
    ensures (forall i :: 0 <= i < |es| ==> es[i].key != k) ==> Without(es, k) == es
  {
    if es != [] {
      var n := |es| - 1;
      WithoutKeeps(es[..n], k);
      InitAndLast(es);
    }
  }

  lemma AppendNewKey<K, V>(es: Entries<K, V>, e: Entry<K, V>)
    requires DistinctKeys(es) && forall x :: x in es ==> x.key != e.key
    ensures DistinctKeys(es + [e])
  {
    assert forall i :: 0 <= i < |es| ==> es[i] in es;
  }

  lemma {:induction false} AloneIsDistinct<K, V>(batch: Entries<K, V>)
    ensures DistinctKeys(Alone(batch))
  {
    if batch != [] {
      var n := |batch| - 1;
      AloneIsDistinct(batch[..n]);
      WithoutKeeps(Alone(batch[..n]), batch[n].key);
      AppendNewKey(Without(Alone(batch[..n]), batch[n].key), batch[n]);
    }
  }

  lemma NewestOfMore<K, V>(front: Entries<K, V>, end: Entries<K, V>, cap: nat)
    requires |end| >= cap
    ensures Newest(front + end, cap) == Newest(end, cap)
  {
  }

  /** Inserting where the newest entries are known, and all of them fit. */
  lemma InsertIntoParts<K, V>(front: Entries<K, V>, end: Entries<K, V>, cap: nat, e: Entry<K, V>)
    requires DistinctKeys(end) && |front + end| <= cap && cap > 0
    ensures
      var next, r := Without(end, e.key) + [e], Insert(front + end, cap, e.key, e.value);
      && (|next| <= cap ==> EndsWith(r, next))
      && (|next| >= cap ==> r == Newest(next, cap))
  {
    var next := Without(end, e.key) + [e];
    WithoutParts(front, end, e.key);
    Associates(Without(front, e.key), Without(end, e.key), [e]);
    if |next| <= cap {
      NewestKeepsEnd(Without(front, e.key), next, cap);
    }
    if |next| >= cap {
      NewestOfMore(Without(front, e.key), next, cap);
    }
  }

  /** Inserting into a list that already is the newest part of a longer one. */
  lemma InsertIntoFull<K, V>(all: Entries<K, V>, cap: nat, e: Entry<K, V>)
    requires DistinctKeys(all) && |all| > cap > 0
    ensures
      var next := Without(all, e.key) + [e];
      |next| >= cap && Insert(Newest(all, cap), cap, e.key, e.value) == Newest(next, cap)
  {
    var front, end := all[..|all| - cap], all[|all| - cap..];
    assert all == front + end;
    WithoutParts(front, end, e.key);
    WithoutKeeps(end, e.key);
    Associates(Without(front, e.key), Without(end, e.key), [e]);
    NewestOfMore(Without(front, e.key), Without(end, e.key) + [e], cap);
  }

  /** A list of limited size holds what is newest of a batch, before it only older entries. */
  ghost predicate Remains<K, V>(es: Entries<K, V>, cap: nat, alone: Entries<K, V>)
  {
    && |es| <= cap
    && (|alone| <= cap ==> EndsWith(es, alone))
    && (|alone| >= cap ==> es == Newest(alone, cap))
  }

  lemma InsertKeepsRemains<K, V>(es: Entries<K, V>, cap: nat, alone: Entries<K, V>, e: Entry<K, V>)
    requires Remains(es, cap, alone) && DistinctKeys(alone) && cap > 0
    ensures Remains(Insert(es, cap, e.key, e.value), cap, Without(alone, e.key) + [e])
  {
    if |alone| <= cap {
      SplitEnd(es, alone);
      InsertIntoParts(es[..|es| - |alone|], alone, cap, e);
    } else {
      InsertIntoFull(alone, cap, e);
      NewestOfFew(Without(alone, e.key) + [e], cap);
    }
  }

  lemma NewestOfFew<K, V>(es: Entries<K, V>, cap: nat)
    ensures |es| <= cap ==> EndsWith(Newest(es, cap), es)
  {
    assert es[0..] == es;
  }

  /** What is left of a batch in a list of limited size: its newest entries, whatever was there before. */
  lemma {:induction false} NewestOfBatchStays<K, V>(es: Entries<K, V>, cap: nat, batch: Entries<K, V>)
    requires cap > 0 && |es| <= cap
    ensures Remains(InsertAll(es, cap, batch), cap, Alone(batch))
  {
    if batch == [] {
      assert es[|es|..] == [];
    } else {
      var n := |batch| - 1;
      NewestOfBatchStays(es, cap, batch[..n]);
      AloneIsDistinct(batch[..n]);
      InsertKeepsRemains(InsertAll(es, cap, batch[..n]), cap, Alone(batch[..n]), batch[n]);
    }
  }

  /** A key that was not there before is found exactly if it is among the newest entries of the batch. */
  lemma FoundIffNewest<K, V>(es: Entries<K, V>, cap: nat, batch: Entries<K, V>, k: K)
    requires cap > 0 && |es| <= cap && Find(es, k).None?
    ensures Find(InsertAll(es, cap, batch), k) == Find(Newest(Alone(batch), cap), k)
  {
    NewestOfBatchStays(es, cap, batch);
    if |Alone(batch)| < cap {
      var all, end := InsertAll(es, cap, batch), Alone(batch);
      SplitEnd(all, end);
      FindInParts(all[..|all| - |end|], end, k);
      FindAlone(batch, k);
      FindInAll(es, cap, batch, k);
    }
  }

  /** Nothing is found that was not found before and is not in the batch. */
  lemma {:induction false} FindInAll<K, V>(es: Entries<K, V>, cap: nat, batch: Entries<K, V>, k: K)
    requires cap > 0
    ensures
      var r := Find(InsertAll(es, cap, batch), k);
      r.Some? ==> r == if Find(batch, k).Some? then Find(batch, k) else Find(es, k)
  {
    if batch != [] {
      var n := |batch| - 1;
      FindInAll(es, cap, batch[..n], k);
      FindInserted(InsertAll(es, cap, batch[..n]), cap, batch[n].key, batch[n].value, k);
    }
  }

  lemma {:induction false} InsertAllParts<K, V>(
    es: Entries<K, V>, cap: nat, a: Entries<K, V>, b: Entries<K, V>)
    ensures InsertAll(es, cap, a + b) == InsertAll(InsertAll(es, cap, a), cap, b)
  {
    if b == [] {
      assert a + b == a;
    } else {
      var n := |b| - 1;
      assert (a + b)[..|a + b| - 1] == a + b[..n];
      InsertAllParts(es, cap, a, b[..n]);
    }
  }

  lemma {:induction false} WithoutFound<K, V>(es: Entries<K, V>, k: K)
    requires Find(es, k).Some?
    ensures |Without(es, k)| < |es|
  {
    if es[|es| - 1].key != k {
      WithoutFound(es[..|es| - 1], k);
    }
  }

  /** A hit is an insertion of what is there. */
  lemma TouchIsInsert<K, V>(es: Entries<K, V>, cap: nat, k: K)
    requires |es| <= cap && Find(es, k).Some?
    ensures Touch(es, k) == Insert(es, cap, k, Find(es, k).value)
  {
    WithoutFound(es, k);
  }

  /** However full the list was, a batch of at most `cap` entries is found in it afterwards. */
  lemma BatchIsFound<K, V>(es: Entries<K, V>, cap: nat, batch: Entries<K, V>, k: K)
    requires cap > 0 && |es| <= cap && |batch| <= cap && Find(batch, k).Some?
    ensures Find(InsertAll(es, cap, batch), k) == Find(batch, k)
  {
    var all, end := InsertAll(es, cap, batch), Alone(batch);
    NewestOfBatchStays(es, cap, batch);
    FindAlone(batch, k);
    SplitEnd(all, end);
    FindInParts(all[..|all| - |end|], end, k);
  }

  lemma InsertAllGrows<K, V>(es: Entries<K, V>, cap: nat, batch: Entries<K, V>, e: Entry<K, V>)
    ensures InsertAll(es, cap, batch + [e]) == Insert(InsertAll(es, cap, batch), cap, e.key, e.value)
  {
    InitOfAppended(batch, e);
  }
}
