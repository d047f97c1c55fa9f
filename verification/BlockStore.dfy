/** The block store: a block cache and a hash index in front of a block source. */
module BlockStore {
  import opened Batching
  import opened Common
  import opened Lru
  import opened LruIndex

  const BLOCK_CACHE_LIMIT: nat := 100_000
  const HASH_INDEX_LIMIT: nat := 1_000_000

  type Hash = nat

  datatype Block = Block(number: nat, hash: Hash, parentHash: Hash, body: nat)

  type Cached = Entries<nat, Block>

  type Index = BiMap<Hash, nat>

  type Found = map<nat, Block>

  /** What the store stands for: the gap block if there is one, else what the source has. */
  function View(gaps: map<nat, Block>, source: Reader<Block>): Reader<Block>
  {
    (n: nat) => if n in gaps then Some(gaps[n]) else Read(source, n)
  }

  /** What the store stands on: the gap blocks and the source. */
  datatype World = World(gaps: Found, source: Reader<Block>)

  function ViewOf(w: World): Reader<Block> { View(w.gaps, w.source) }

  /** The blocks form one chain: each carries its own number, its hash, and the hash before it. */
  ghost predicate Chain(view: Reader<Block>, hashAt: nat -> Hash)
  {
    && (forall m: nat, n: nat :: hashAt(m) == hashAt(n) ==> m == n)
    && (forall n: nat :: Read(view, n).Some? ==> Linked(Read(view, n).value, n, hashAt))
  }

  ghost predicate Linked(b: Block, n: nat, hashAt: nat -> Hash)
  {
    b.number == n && b.hash == hashAt(n) && (n > 0 ==> b.parentHash == hashAt(n - 1))
  }

  /** Every cached block is the one the view has. */
  ghost predicate Faithful(cached: Cached, view: Reader<Block>)
  {
    forall n: nat :: Find(cached, n).Some? ==> Find(cached, n) == Read(view, n)
  }

  /** Every lookup gives the true number, the index stays within its limit, and its two directions agree. */
  ghost predicate Truthful(index: Index, hashAt: nat -> Hash)
  {
    && index.Tracked(HASH_INDEX_LIMIT) && index.PointsBack()
    && (forall h :: h in index.left ==> hashAt(index.left[h]) == h)
  }

  // ---------- What each locked step keeps ----------

  lemma InsertIsFaithful(cached: Cached, view: Reader<Block>, n: nat)
    requires Faithful(cached, view) && Read(view, n).Some?
    ensures Faithful(Insert(cached, BLOCK_CACHE_LIMIT, n, Read(view, n).value), view)
  {
    var next := Insert(cached, BLOCK_CACHE_LIMIT, n, Read(view, n).value);
    forall m: nat | Find(next, m).Some?
      ensures Find(next, m) == Read(view, m)
    {
      FindInserted(cached, BLOCK_CACHE_LIMIT, n, Read(view, n).value, m);
    }
  }

  lemma TouchIsFaithful(cached: Cached, view: Reader<Block>, n: nat)
    requires Faithful(cached, view)
    ensures Faithful(Touch(cached, n), view)
  {
    forall m: nat
      ensures Find(Touch(cached, n), m) == Find(cached, m)
    {
      FindTouched(cached, n, m);
    }
  }

  lemma EntryIsTruthful(index: Index, hashAt: nat -> Hash, n: nat)
    requires Truthful(index, hashAt)
    requires forall a: nat, b: nat :: hashAt(a) == hashAt(b) ==> a == b
    ensures Truthful(index.Inserted(HASH_INDEX_LIMIT, hashAt(n), n), hashAt)
  {
    var h := hashAt(n);
    var next := index.Inserted(HASH_INDEX_LIMIT, h, n);
    TrackedAfterInsert(index, HASH_INDEX_LIMIT, h, n);
    PointsBackAfterInsertIff(index, HASH_INDEX_LIMIT, h, n);
    forall k | k in next.left
      ensures hashAt(next.left[k]) == k
    {
      LookupAfterInsert(index, HASH_INDEX_LIMIT, h, n, k);
    }
  }

  /** `index_block_inner` on values. */
  function Indexed(index: Index, b: Block): Index
  {
    var own := index.Inserted(HASH_INDEX_LIMIT, b.hash, b.number);
    if b.number > 0 then own.Inserted(HASH_INDEX_LIMIT, b.parentHash, b.number - 1) else own
  }

  lemma IndexingIsTruthful(index: Index, hashAt: nat -> Hash, view: Reader<Block>, n: nat)
    requires Truthful(index, hashAt) && Chain(view, hashAt) && Read(view, n).Some?
    ensures Truthful(Indexed(index, Read(view, n).value), hashAt)
  {
    EntryIsTruthful(index, hashAt, n);
    if n > 0 {
      EntryIsTruthful(index.Inserted(HASH_INDEX_LIMIT, hashAt(n), n), hashAt, n - 1);
    }
  }

  /** A block just indexed is found by its hash, and its parent by its own. */
  lemma IndexedIsFound(index: Index, hashAt: nat -> Hash, view: Reader<Block>, n: nat)
    requires Truthful(index, hashAt) && Chain(view, hashAt) && Read(view, n).Some?
    ensures
      var b := Read(view, n).value;
      var next := Indexed(index, b);
      && b.hash in next.left && next.left[b.hash] == n
      && (n > 0 ==> b.parentHash in next.left && next.left[b.parentHash] == n - 1)
  {
    var b := Read(view, n).value;
    var own := index.Inserted(HASH_INDEX_LIMIT, b.hash, n);
    LookupAfterInsert(index, HASH_INDEX_LIMIT, b.hash, n, b.hash);
    EntryIsTruthful(index, hashAt, n);
    if n > 0 {
      NewestIsLast(index.keys, HASH_INDEX_LIMIT, b.hash);
      LookupAfterInsert(own, HASH_INDEX_LIMIT, b.parentHash, n - 1, b.hash);
    }
  }

  lemma NewestIsLast(keys: seq<Hash>, limit: nat, k: Hash)
    ensures var p := Promoted(keys, limit, k); p != [] && p[|p| - 1] == k
  {
  }

  /** Indexing a block puts its hash among the newest keys and drops none of them while there is room. */
  lemma IndexingKeepsNewest(index: Index, end: seq<Hash>, b: Block) returns (newest: seq<Hash>)
    requires EndsWith(index.keys, end) && |end| + 2 <= HASH_INDEX_LIMIT
    ensures EndsWith(Indexed(index, b).keys, newest) && |newest| <= |end| + 2
    ensures b.hash in newest && forall k :: k in end ==> k in newest
  {
    newest := Minus(end, b.hash) + [b.hash];
    PromotionKeepsEnd(index.keys, end, HASH_INDEX_LIMIT, b.hash);
    forall k | k in end
      ensures k in newest
    {
      InMinus(end, b.hash, k);
    }
    if b.number > 0 {
      var own, p := newest, b.parentHash;
      PromotionKeepsEnd(index.Inserted(HASH_INDEX_LIMIT, b.hash, b.number).keys, own, HASH_INDEX_LIMIT, p);
      newest := Minus(own, p) + [p];
      forall k | k in own
        ensures k in newest
      {
        InMinus(own, p, k);
      }
    }
  }

  // ---------- The store ----------

  method IndexBlockInner(idx: LruBiMap<Hash, nat>, block: Block)
    requires idx.Valid() && idx.limit == HASH_INDEX_LIMIT
    modifies idx
    ensures idx.Valid() && idx.View() == Indexed(old(idx.View()), block)
  {
    var number := block.number;
    ghost var before := idx.View();
    idx.Insert(block.hash, number);
    ghost var own := before.Inserted(HASH_INDEX_LIMIT, block.hash, number);
    assert idx.View() == own;
    if number > 0 {
      idx.Insert(block.parentHash, number - 1);
      assert idx.View() == own.Inserted(HASH_INDEX_LIMIT, block.parentHash, number - 1);
    }
  }

  // ---------- What stays in the cache ----------

  /** The entries the first loop of `get_by_numbers` makes the newest. */
  ghost function Swept(cached: Cached, gaps: Found, hs: seq<nat>): Cached
  {
    if hs == [] then []
    else Swept(cached, gaps, hs[..|hs| - 1]) + SweptLast(cached, gaps, hs)
  }

  lemma {:induction false} SweepInserts(cached: Cached, gaps: Found, hs: seq<nat>)
    requires |cached| <= BLOCK_CACHE_LIMIT
    ensures Sweep(cached, gaps, hs).0 == InsertAll(cached, BLOCK_CACHE_LIMIT, Swept(cached, gaps, hs))
    ensures |Sweep(cached, gaps, hs).0| <= BLOCK_CACHE_LIMIT
    ensures |Swept(cached, gaps, hs)| + |Sweep(cached, gaps, hs).2| == |hs|
  {
    if hs != [] {
      var n := |hs| - 1;
      SweepInserts(cached, gaps, hs[..n]);
      SweepOneMore(cached, gaps, hs);
      var swept, more := Swept(cached, gaps, hs[..n]), SweptLast(cached, gaps, hs);
      if more != [] {
        InsertAllGrows(cached, BLOCK_CACHE_LIMIT, swept, more[0]);
      } else {
        assert swept + [] == swept;
      }
    }
  }

  /** What the last height adds to them. */
  ghost function SweptLast(cached: Cached, gaps: Found, hs: seq<nat>): (r: Cached)
    requires hs != []
    ensures |r| <= 1
  {
    var n := |hs| - 1;
    match Find(Sweep(cached, gaps, hs[..n]).0, hs[n])
    case Some(b) => [Entry(hs[n], b)]
    case None => if hs[n] in gaps then [Entry(hs[n], gaps[hs[n]])] else []
  }

  lemma SweepOneMore(cached: Cached, gaps: Found, hs: seq<nat>)
    requires hs != [] && |Sweep(cached, gaps, hs[..|hs| - 1]).0| <= BLOCK_CACHE_LIMIT
    ensures
      var c, missing, more := Sweep(cached, gaps, hs[..|hs| - 1]).0, Sweep(cached, gaps, hs[..|hs| - 1]).2,
                              SweptLast(cached, gaps, hs);
      && Sweep(cached, gaps, hs).0 ==
           (if more == [] then c else Insert(c, BLOCK_CACHE_LIMIT, more[0].key, more[0].value))
      && |Sweep(cached, gaps, hs).2| == |missing| + 1 - |more|
  {
    var c, h := Sweep(cached, gaps, hs[..|hs| - 1]).0, hs[|hs| - 1];
    if Find(c, h).Some? {
      TouchIsInsert(c, BLOCK_CACHE_LIMIT, h);
    }
  }

  /** Every height asked for is among them or missing. */
  lemma {:induction false} SweptOrMissing(cached: Cached, gaps: Found, hs: seq<nat>, i: nat)
    requires i < |hs|
    ensures Find(Swept(cached, gaps, hs), hs[i]).Some? || hs[i] in Sweep(cached, gaps, hs).2
  {
    var n := |hs| - 1;
    FindInParts(Swept(cached, gaps, hs[..n]), SweptLast(cached, gaps, hs), hs[i]);
    if i < n {
      SweptOrMissing(cached, gaps, hs[..n], i);
    }
  }

  ghost function ByNumber(blocks: seq<Block>): (r: Cached)
    ensures |r| == |blocks|
  {
    if blocks == [] then []
    else var n := |blocks| - 1; ByNumber(blocks[..n]) + [Entry(blocks[n].number, blocks[n])]
  }

  lemma {:induction false} KeepAllInserts(cached: Cached, fetched: seq<Block>)
    ensures KeepAll(cached, fetched) == InsertAll(cached, BLOCK_CACHE_LIMIT, ByNumber(fetched))
  {
    if fetched != [] {
      var n := |fetched| - 1;
      KeepAllInserts(cached, fetched[..n]);
      InsertAllGrows(cached, BLOCK_CACHE_LIMIT, ByNumber(fetched[..n]), Entry(fetched[n].number, fetched[n]));
    }
  }

  lemma {:induction false} NumberIsFound(fetched: seq<Block>, i: nat)
    requires i < |fetched|
    ensures Find(ByNumber(fetched), fetched[i].number).Some?
  {
    var n := |fetched| - 1;
    FindInParts(ByNumber(fetched[..n]), [Entry(fetched[n].number, fetched[n])], fetched[i].number);
    if i < n {
      NumberIsFound(fetched[..n], i);
    }
  }

  lemma KeepAllIsBounded(cached: Cached, fetched: seq<Block>)
    requires |cached| <= BLOCK_CACHE_LIMIT
    ensures |KeepAll(cached, fetched)| <= BLOCK_CACHE_LIMIT
  {
  }

  /** Fetched blocks are in the cache, if they are not more than it holds. */
  lemma FetchedAreCached(cached: Cached, fetched: seq<Block>, i: nat)
    requires |cached| <= BLOCK_CACHE_LIMIT && |fetched| <= BLOCK_CACHE_LIMIT && i < |fetched|
    ensures Find(KeepAll(cached, fetched), fetched[i].number).Some?
  {
    KeepAllInserts(cached, fetched);
    NumberIsFound(fetched, i);
    BatchIsFound(cached, BLOCK_CACHE_LIMIT, ByNumber(fetched), fetched[i].number);
  }

  /** What the first loop does not miss is in the cache when it ends, if the list is not longer than that. */
  lemma SweptIsCached(cached: Cached, gaps: Found, hs: seq<nat>, i: nat)
    requires |cached| <= BLOCK_CACHE_LIMIT && |hs| <= BLOCK_CACHE_LIMIT && i < |hs|
    requires hs[i] !in Sweep(cached, gaps, hs).2
    ensures Find(Sweep(cached, gaps, hs).0, hs[i]).Some?
  {
    SweepInserts(cached, gaps, hs);
    SweptOrMissing(cached, gaps, hs, i);
    BatchIsFound(cached, BLOCK_CACHE_LIMIT, Swept(cached, gaps, hs), hs[i]);
  }

  /**
   After a list of gets every block asked for is in the cache, whatever was there before, if the list
   is not longer than the cache.
   */
  lemma ListIsCached(cached: Cached, gaps: Found, hs: seq<nat>, fetched: seq<Block>, i: nat)
    requires |cached| <= BLOCK_CACHE_LIMIT && |hs| <= BLOCK_CACHE_LIMIT && i < |hs|
    requires
      var missing := Sweep(cached, gaps, hs).2;
      |fetched| == |missing| && forall j :: 0 <= j < |missing| ==> fetched[j].number == missing[j]
    ensures Find(KeepAll(Sweep(cached, gaps, hs).0, fetched), hs[i]).Some?
  {
    var (c, _, missing) := Sweep(cached, gaps, hs);
    var swept := Swept(cached, gaps, hs);
    SweepInserts(cached, gaps, hs);
    KeepAllInserts(c, fetched);
    InsertAllParts(cached, BLOCK_CACHE_LIMIT, swept, ByNumber(fetched));
    SweptOrMissing(cached, gaps, hs, i);
    FindInParts(swept, ByNumber(fetched), hs[i]);
    if Find(swept, hs[i]).None? {
      var j :| 0 <= j < |missing| && missing[j] == hs[i];
      NumberIsFound(fetched, j);
    }
    BatchIsFound(cached, BLOCK_CACHE_LIMIT, swept + ByNumber(fetched), hs[i]);
  }

  lemma {:induction false} SweepKeepsAnswers(cached: Cached, gaps: Found, hs: seq<nat>, k: nat)
    requires forall i :: 0 <= i < |hs| && hs[i] in gaps ==> Find(cached, hs[i]).Some?
    ensures Find(Sweep(cached, gaps, hs).0, k) == Find(cached, k)
  {
    if hs != [] {
      var n := |hs| - 1;
      SweepKeepsAnswers(cached, gaps, hs[..n], k);
      SweepKeepsAnswers(cached, gaps, hs[..n], hs[n]);
      FindTouched(Sweep(cached, gaps, hs[..n]).0, hs[n], k);
    }
  }

  /** With all of a list in the cache nothing is missing. */
  lemma {:induction false} NothingIsMissing(cached: Cached, gaps: Found, hs: seq<nat>)
    requires forall i :: 0 <= i < |hs| ==> Find(cached, hs[i]).Some?
    ensures Sweep(cached, gaps, hs).2 == []
  {
    if hs != [] {
      var n := |hs| - 1;
      NothingIsMissing(cached, gaps, hs[..n]);
      SweepKeepsAnswers(cached, gaps, hs[..n], hs[n]);
    }
  }

  /** The positions of the heights the cache does not hold. */
  ghost function Uncached(cached: Cached, hs: seq<nat>): set<nat>
  {
    set i | 0 <= i < |hs| && Find(cached, hs[i]).None?
  }

  lemma UncachedGrow(cached: Cached, hs: seq<nat>)
    requires hs != []
    ensures
      var n := |hs| - 1;
      Uncached(cached, hs) == Uncached(cached, hs[..n]) + if Find(cached, hs[n]).None? then {n} else {}
  {
  }

  lemma MissingGrow(cached: Cached, gaps: Found, hs: seq<nat>)
    requires hs != [] && forall i :: 0 <= i < |hs| && hs[i] in gaps ==> Find(cached, hs[i]).Some?
    ensures
      var n := |hs| - 1;
      Sweep(cached, gaps, hs).2 == Sweep(cached, gaps, hs[..n]).2 + if Find(cached, hs[n]).None? then [hs[n]] else []
  {
    SweepKeepsAnswers(cached, gaps, hs[..|hs| - 1], hs[|hs| - 1]);
  }

  /** While no gap block has to be put into the cache, exactly the heights it does not hold are missing. */
  lemma {:induction false} MissingAt(cached: Cached, gaps: Found, hs: seq<nat>) returns (at: seq<nat>)
    requires forall i :: 0 <= i < |hs| && hs[i] in gaps ==> Find(cached, hs[i]).Some?
    ensures Enumerates(at, Uncached(cached, hs)) && PicksAt(Sweep(cached, gaps, hs).2, hs, at)
  {
    if hs == [] {
      at := [];
    } else {
      var n := |hs| - 1;
      at := MissingAt(cached, gaps, hs[..n]);
      PicksMore(Sweep(cached, gaps, hs[..n]).2, hs, at);
      UncachedGrow(cached, hs);
      MissingGrow(cached, gaps, hs);
      if Find(cached, hs[n]).None? {
        EnumeratesMore(at, Uncached(cached, hs[..n]), n);
        at := at + [n];
      }
    }
  }

  // ---------- Many blocks at once ----------

  /** The blocks gathered so far are those of the view, each under its own height. */
  ghost predicate Gathered(got: map<nat, Block>, view: Reader<Block>)
  {
    forall n :: n in got ==> Read(view, n) == Some(got[n])
  }

  ghost predicate Covered(heights: seq<nat>, got: map<nat, Block>, missing: seq<nat>)
  {
    && (forall i :: 0 <= i < |heights| ==> heights[i] in got || heights[i] in missing)
    && (forall n :: n in got ==> n in heights)
    && (forall i :: 0 <= i < |missing| ==> missing[i] in heights)
  }

  lemma CoveredByMissing(heights: seq<nat>, got: map<nat, Block>, missing: seq<nat>, h: nat)
    requires Covered(heights, got, missing)
    ensures Covered(heights + [h], got, missing + [h])
  {
  }

  lemma CoveredByGot(heights: seq<nat>, got: map<nat, Block>, missing: seq<nat>, h: nat, b: Block)
    requires Covered(heights, got, missing)
    ensures Covered(heights + [h], got[h := b], missing)
  {
  }

  // The sections of `get_by_numbers` on values

  /** The first loop of `get_by_numbers`: cached blocks, gap blocks, and what is missing. */
  function Sweep(cached: Cached, gaps: Found, hs: seq<nat>): (r: (Cached, Found, seq<nat>))
  {
    if hs == [] then (cached, map[], [])
    else
      var n := |hs| - 1;
      var (c, got, missing) := Sweep(cached, gaps, hs[..n]);
      match Find(c, hs[n])
      case Some(b) => (Touch(c, hs[n]), got[hs[n] := b], missing)
      case None =>
        if hs[n] in gaps then (Insert(c, BLOCK_CACHE_LIMIT, hs[n], gaps[hs[n]]), got[hs[n] := gaps[hs[n]]], missing)
        else (c, got, missing + [hs[n]])
  }

  /** The second loop: fetched blocks go into the cache and to those at hand. */
  function KeepAll(cached: Cached, fetched: seq<Block>): Cached
  {
    if fetched == [] then cached
    else
      var n := |fetched| - 1;
      Insert(KeepAll(cached, fetched[..n]), BLOCK_CACHE_LIMIT, fetched[n].number, fetched[n])
  }

  function AddAll(got: Found, fetched: seq<Block>): Found
  {
    if fetched == [] then got
    else var n := |fetched| - 1; AddAll(got, fetched[..n])[fetched[n].number := fetched[n]]
  }

  /** The third loop: the blocks at hand are indexed in the order the map is walked. */
  function IndexedAll(index: Index, got: Found, order: seq<nat>): Index
    requires forall i :: 0 <= i < |order| ==> order[i] in got
  {
    if order == [] then index
    else var n := |order| - 1; Indexed(IndexedAll(index, got, order[..n]), got[order[n]])
  }

  /** The reply: each block is taken out as it is handed over. */
  function Handed(hs: seq<nat>, got: Found): Option<seq<Block>>
  {
    if hs == [] then Some([])
    else if hs[0] !in got then None
    else Both(Some([got[hs[0]]]), Handed(hs[1..], got - {hs[0]}))
  }

  ghost predicate NotGaps(w: World, ns: seq<nat>)
  {
    forall i :: 0 <= i < |ns| ==> ns[i] !in w.gaps
  }

  lemma {:induction false} SweepFinds(w: World, cached: Cached, hs: seq<nat>)
    requires Faithful(cached, ViewOf(w))
    ensures
      var (c, got, missing) := Sweep(cached, w.gaps, hs);
      Faithful(c, ViewOf(w)) && Gathered(got, ViewOf(w)) && Covered(hs, got, missing) && NotGaps(w, missing)
  {
    if hs != [] {
      var n := |hs| - 1;
      SweepFinds(w, cached, hs[..n]);
      SweepOne(w, cached, hs);
    }
  }

  lemma SweepOne(w: World, cached: Cached, hs: seq<nat>)
    requires hs != []
    requires
      var (c, got, missing) := Sweep(cached, w.gaps, hs[..|hs| - 1]);
      && Faithful(c, ViewOf(w)) && Gathered(got, ViewOf(w)) && Covered(hs[..|hs| - 1], got, missing)
      && NotGaps(w, missing)
    ensures
      var (c, got, missing) := Sweep(cached, w.gaps, hs);
      Faithful(c, ViewOf(w)) && Gathered(got, ViewOf(w)) && Covered(hs, got, missing) && NotGaps(w, missing)
  {
    var h := hs[|hs| - 1];
    var (c, got, missing) := Sweep(cached, w.gaps, hs[..|hs| - 1]);
    InitAndLast(hs);
    match Find(c, h)
    case Some(b) =>
      TouchIsFaithful(c, ViewOf(w), h);
      CoveredByGot(hs[..|hs| - 1], got, missing, h, b);
    case None =>
      if h in w.gaps {
        InsertIsFaithful(c, ViewOf(w), h);
        CoveredByGot(hs[..|hs| - 1], got, missing, h, w.gaps[h]);
      } else {
        CoveredByMissing(hs[..|hs| - 1], got, missing, h);
      }
  }

  /** Every fetched block is the view's, under its own number. */
  ghost predicate Ours(view: Reader<Block>, fetched: seq<Block>)
  {
    forall i :: 0 <= i < |fetched| ==> Read(view, fetched[i].number) == Some(fetched[i])
  }

  lemma FetchedAreOurs(w: World, hashAt: nat -> Hash, missing: seq<nat>)
    requires Chain(ViewOf(w), hashAt) && NotGaps(w, missing) && CollectAll(w.source, missing).Some?
    ensures
      var fetched := CollectAll(w.source, missing).value;
      Ours(ViewOf(w), fetched) && forall i :: 0 <= i < |missing| ==> fetched[i].number == missing[i]
  {
    var fetched := CollectAll(w.source, missing).value;
    forall i | 0 <= i < |missing|
      ensures Read(ViewOf(w), fetched[i].number) == Some(fetched[i]) && fetched[i].number == missing[i]
    {
      CollectedAt(w.source, missing, i);
      assert Linked(Read(ViewOf(w), missing[i]).value, missing[i], hashAt);
    }
  }

  lemma {:induction false} KeepAllIsFaithful(view: Reader<Block>, cached: Cached, fetched: seq<Block>)
    requires Faithful(cached, view) && Ours(view, fetched)
    ensures Faithful(KeepAll(cached, fetched), view)
  {
    if fetched != [] {
      var n := |fetched| - 1;
      KeepAllIsFaithful(view, cached, fetched[..n]);
      InsertIsFaithful(KeepAll(cached, fetched[..n]), view, fetched[n].number);
    }
  }

  lemma FetchedStep(cached: Cached, got: Found, fetched: seq<Block>, i: nat)
    requires i < |fetched|
    ensures
      var b := fetched[i];
      && KeepAll(cached, fetched[..i + 1]) == Insert(KeepAll(cached, fetched[..i]), BLOCK_CACHE_LIMIT, b.number, b)
      && AddAll(got, fetched[..i + 1]) == AddAll(got, fetched[..i])[b.number := b]
  {
    PrefixGrows(fetched, i);
    InitOfAppended(fetched[..i], fetched[i]);
  }

  lemma {:induction false} AddAllGathers(view: Reader<Block>, got: Found, fetched: seq<Block>)
    requires Gathered(got, view) && Ours(view, fetched)
    ensures Gathered(AddAll(got, fetched), view)
    ensures forall n :: n in AddAll(got, fetched) ==>
              n in got || exists i :: 0 <= i < |fetched| && fetched[i].number == n
    ensures forall n :: n in got ==> n in AddAll(got, fetched)
    ensures forall i :: 0 <= i < |fetched| ==> fetched[i].number in AddAll(got, fetched)
  {
    if fetched != [] {
      var n := |fetched| - 1;
      AddAllGathers(view, got, fetched[..n]);
      assert forall i :: 0 <= i < n ==> fetched[..n][i] == fetched[i];
    }
  }

  lemma FetchedCover(view: Reader<Block>, hs: seq<nat>, got: Found, missing: seq<nat>, fetched: seq<Block>)
    requires Gathered(got, view) && Ours(view, fetched) && Covered(hs, got, missing)
    requires |fetched| == |missing| && forall i :: 0 <= i < |missing| ==> fetched[i].number == missing[i]
    ensures Gathered(AddAll(got, fetched), view) && Covered(hs, AddAll(got, fetched), [])
  {
    AddAllGathers(view, got, fetched);
    var all := AddAll(got, fetched);
    forall i | 0 <= i < |hs|
      ensures hs[i] in all
    {
      if hs[i] !in got {
        var j :| 0 <= j < |missing| && missing[j] == hs[i];
        assert fetched[j].number in all;
      }
    }
    forall n | n in all
      ensures n in hs
    {
      if n !in got {
        var j :| 0 <= j < |fetched| && fetched[j].number == n;
        assert missing[j] in hs;
      }
    }
  }

  lemma {:induction false} IndexAllIsTruthful(
    view: Reader<Block>, hashAt: nat -> Hash, index: Index, got: Found, order: seq<nat>)
    requires Truthful(index, hashAt) && Chain(view, hashAt) && Gathered(got, view)
    requires forall i :: 0 <= i < |order| ==> order[i] in got
    ensures Truthful(IndexedAll(index, got, order), hashAt)
  {
    if order != [] {
      var n := |order| - 1;
      IndexAllIsTruthful(view, hashAt, index, got, order[..n]);
      IndexingIsTruthful(IndexedAll(index, got, order[..n]), hashAt, view, order[n]);
    }
  }

  ghost predicate AllIn(hs: seq<nat>, got: Found)
  {
    forall i :: 0 <= i < |hs| ==> hs[i] in got
  }

  lemma DistinctFirst(hs: seq<nat>, got: Found)
    requires hs != []
    ensures Distinct(hs) && AllIn(hs, got) <==> hs[0] in got && Distinct(hs[1..]) && AllIn(hs[1..], got - {hs[0]})
  {
    var rest := hs[1..];
    if Distinct(hs) && AllIn(hs, got) {
      forall i | 0 <= i < |rest|
        ensures rest[i] in got - {hs[0]}
      {
        assert rest[i] == hs[i + 1];
      }
    }
    if hs[0] in got && Distinct(rest) && AllIn(rest, got - {hs[0]}) {
      forall i, j | 0 <= i < j < |hs|
        ensures hs[i] != hs[j]
      {
        assert hs[j] == rest[j - 1];
        assert i > 0 ==> hs[i] == rest[i - 1];
      }
      assert forall i :: 0 < i < |hs| ==> hs[i] == rest[i - 1];
    }
  }

  /** Handing over and removing gives the requested blocks in order, or fails on a repeated height. */
  lemma {:induction false} HandedIs(view: Reader<Block>, hs: seq<nat>, got: Found)
    requires Gathered(got, view)
    ensures Handed(hs, got) == if Distinct(hs) && AllIn(hs, got) then CollectAll(view, hs) else None
  {
    if hs != [] {
      DistinctFirst(hs, got);
      if hs[0] in got {
        HandedIs(view, hs[1..], got - {hs[0]});
        CollectParts(view, [hs[0]], hs[1..]);
        assert [hs[0]] + hs[1..] == hs;
        CollectOne(view, hs[0]);
      }
    }
  }

  lemma CollectOne(view: Reader<Block>, n: nat)
    ensures CollectAll(view, [n]) == match Read(view, n) case None => None case Some(b) => Some([b])
  {
    var none: seq<Block> := [];
    assert [n][..0] == [] && CollectAll(view, []) == Some(none);
    if Read(view, n).Some? {
      assert none + [Read(view, n).value] == [Read(view, n).value];
    }
  }

  /** A failed fetch means that one of the requested blocks is not there. */
  lemma FailedFetch(w: World, hs: seq<nat>, got: Found, missing: seq<nat>)
    requires Covered(hs, got, missing) && NotGaps(w, missing) && CollectAll(w.source, missing).None?
    ensures CollectAll(ViewOf(w), hs).None?
  {
    CollectedIff(w.source, missing);
    var i :| 0 <= i < |missing| && Read(w.source, missing[i]).None?;
    assert missing[i] in hs;
    MissingMeansNone(hs, ViewOf(w), missing[i]);
  }

  lemma DistinctStep(hs: seq<nat>, i: nat)
    requires i < |hs| && Distinct(hs[..i])
    ensures if hs[i] in hs[..i] then !Distinct(hs) else Distinct(hs[..i + 1])
  {
    if hs[i] in hs[..i] {
      var j :| 0 <= j < i && hs[..i][j] == hs[i];
      assert hs[j] == hs[i];
    }
  }

  /** What is left once the first `i` heights have been handed out. */
  ghost predicate LeftOver(left: map<nat, Block>, got: map<nat, Block>, handed: seq<nat>)
  {
    && (forall n :: n in left ==> n in got && left[n] == got[n] && n !in handed)
    && (forall n :: n in got && n !in handed ==> n in left)
  }

  lemma HandOutOne(left: map<nat, Block>, got: map<nat, Block>, handed: seq<nat>, h: nat)
    requires LeftOver(left, got, handed)
    ensures LeftOver(left - {h}, got, handed + [h])
  {
  }

  /** Hands out the gathered blocks in the order asked for; each can be handed out once. */
  method HandOut(heights: seq<nat>, got: map<nat, Block>, ghost view: Reader<Block>) returns (r: Option<seq<Block>>)
    requires Gathered(got, view) && Covered(heights, got, [])
    ensures r == if Distinct(heights) then CollectAll(view, heights) else None
  {
    var left := got;
    var out: seq<Block> := [];
    for i := 0 to |heights|
      invariant CollectAll(view, heights[..i]) == Some(out) && Distinct(heights[..i])
      invariant LeftOver(left, got, heights[..i])
    {
      var h := heights[i];
      DistinctStep(heights, i);
      if h !in left {
        return None;
      }
      TakeOne(view, heights, i);
      HandOutOne(left, got, heights[..i], h);
      PrefixGrows(heights, i);
      out := out + [left[h]];
      left := left - {h};
    }
    assert heights[..|heights|] == heights;
    return Some(out);
  }

  /** The hashes of these blocks are in the index. */
  ghost predicate Findable(index: Index, ns: set<nat>, got: map<nat, Block>)
  {
    forall n :: n in ns && n in got ==> got[n].hash in index.left
  }

  /** All but `todo` have been indexed, and their hashes are among the newest keys. */
  ghost predicate Recent(index: Index, newest: seq<Hash>, got: map<nat, Block>, todo: set<nat>)
  {
    && EndsWith(index.keys, newest) && |newest| + 2 * |todo| <= 2 * |got|
    && (forall n :: n in got && n !in todo ==> got[n].hash in newest)
  }

  lemma RecentStep(index: Index, newest: seq<Hash>, got: map<nat, Block>, todo: set<nat>, n: nat)
    returns (next: seq<Hash>)
    requires Recent(index, newest, got, todo) && n in todo && n in got && 2 * |got| <= HASH_INDEX_LIMIT
    ensures Recent(Indexed(index, got[n]), next, got, todo - {n})
  {
    assert todo == todo - {n} + {n};
    next := IndexingKeepsNewest(index, newest, got[n]);
  }

  lemma NewestAreFindable(index: Index, newest: seq<Hash>, got: map<nat, Block>)
    requires index.Tracked(HASH_INDEX_LIMIT) && EndsWith(index.keys, newest)
    requires forall n :: n in got ==> got[n].hash in newest
    ensures Findable(index, got.Keys, got)
  {
    forall n | n in got
      ensures got[n].hash in index.left
    {
      assert got[n].hash in index.keys;
    }
  }

  /** No more blocks are gathered than heights were asked for. */
  lemma {:induction false} GatheredAreFew(heights: seq<nat>, ns: set<nat>)
    requires forall n :: n in ns ==> n in heights
    ensures |ns| <= |heights|
  {
    if heights == [] {
      assert ns == {};
    } else {
      var m := |heights| - 1;
      GatheredAreFew(heights[..m], ns - {heights[m]});
    }
  }

  /** Blocks handed out are blocks gathered. */
  lemma HandedOutAreFindable(index: Index, heights: seq<nat>, got: map<nat, Block>, view: Reader<Block>)
    requires Gathered(got, view) && Covered(heights, got, []) && Findable(index, got.Keys, got)
    requires CollectAll(view, heights).Some?
    ensures forall i :: 0 <= i < |heights| ==> CollectAll(view, heights).value[i].hash in index.left
  {
    forall i | 0 <= i < |heights|
      ensures CollectAll(view, heights).value[i].hash in index.left
    {
      CollectedAt(view, heights, i);
    }
  }

  lemma MissingMeansNone(heights: seq<nat>, view: Reader<Block>, n: nat)
    requires n in heights && Read(view, n).None?
    ensures CollectAll(view, heights).None?
  {
    var i :| 0 <= i < |heights| && heights[i] == n;
    CollectedAt(view, heights, i);
  }

  ghost function Rest(got: Found, done: seq<nat>): set<nat>
  {
    set n | n in got && n !in done
  }

  lemma {:induction false} WalkIsRecent(index: Index, got: Found, order: seq<nat>) returns (newest: seq<Hash>)
    requires Distinct(order) && (forall j :: 0 <= j < |order| ==> order[j] in got) && 2 * |got| <= HASH_INDEX_LIMIT
    ensures Recent(IndexedAll(index, got, order), newest, got, Rest(got, order))
  {
    if order == [] {
      newest := [];
      assert Rest(got, []) == got.Keys;
    } else {
      var n := |order| - 1;
      var before := WalkIsRecent(index, got, order[..n]);
      assert order[n] !in order[..n];
      newest := RecentStep(IndexedAll(index, got, order[..n]), before, got, Rest(got, order[..n]), order[n]);
      InitAndLast(order);
      assert Rest(got, order) == Rest(got, order[..n]) - {order[n]};
    }
  }

  /** In whatever order a map of at most half the limit is walked, all its hashes are in the index afterwards. */
  lemma WalkedAreFindable(index: Index, hashAt: nat -> Hash, view: Reader<Block>, got: Found, order: seq<nat>)
    requires Truthful(index, hashAt) && Chain(view, hashAt) && Gathered(got, view) && Distinct(order)
    requires (forall j :: 0 <= j < |order| ==> order[j] in got) && (forall n :: n in got ==> n in order)
    requires 2 * |got| <= HASH_INDEX_LIMIT
    ensures Findable(IndexedAll(index, got, order), got.Keys, got)
  {
    var newest := WalkIsRecent(index, got, order);
    IndexAllIsTruthful(view, hashAt, index, got, order);
    NewestAreFindable(IndexedAll(index, got, order), newest, got);
  }

  class BlockStore {
    var blocks: Cached
    const hashIndex: LruBiMap<Hash, nat>
    const source: Reader<Block>
    const gapBlocks: map<nat, Block>
    const dbBlockNumber: Option<Hash -> Option<nat>>
    ghost const hashAt: nat -> Hash

    ghost function TheView(): Reader<Block>
    {
      View(gapBlocks, source)
    }

    ghost predicate Valid()
      reads this, hashIndex
    {
      && hashIndex.Valid() && hashIndex.limit == HASH_INDEX_LIMIT
      && Chain(TheView(), hashAt)
      && Faithful(blocks, TheView()) && |blocks| <= BLOCK_CACHE_LIMIT
      && Truthful(hashIndex.View(), hashAt)
    }

    constructor (source: Reader<Block>, gapBlocks: map<nat, Block>, dbBlockNumber: Option<Hash -> Option<nat>>,
                 ghost hashAt: nat -> Hash)
      requires Chain(View(gapBlocks, source), hashAt)
      ensures Valid() && fresh(hashIndex) && blocks == []
      ensures this.source == source && this.gapBlocks == gapBlocks && this.dbBlockNumber == dbBlockNumber
      ensures this.hashAt == hashAt
    {
      blocks := [];
      hashIndex := new LruBiMap(HASH_INDEX_LIMIT);
      this.source, this.gapBlocks, this.dbBlockNumber, this.hashAt := source, gapBlocks, dbBlockNumber, hashAt;
    }

    method IndexBlock(block: Block)
      requires Valid() && Read(TheView(), block.number) == Some(block)
      modifies hashIndex
      ensures Valid() && hashIndex.View() == Indexed(old(hashIndex.View()), block)
    {
      IndexingIsTruthful(hashIndex.View(), hashAt, TheView(), block.number);
      IndexBlockInner(hashIndex, block);
    }

    /** Puts a block of the view into the cache. */
    method Keep(n: nat, block: Block)
      requires Valid() && Read(TheView(), n) == Some(block)
      modifies `blocks
      ensures Valid() && blocks == Insert(old(blocks), BLOCK_CACHE_LIMIT, n, block) && Find(blocks, n) == Some(block)
    {
      InsertIsFaithful(blocks, TheView(), n);
      FindInserted(blocks, BLOCK_CACHE_LIMIT, n, block, n);
      blocks := Insert(blocks, BLOCK_CACHE_LIMIT, n, block);
    }

    method CacheGet(n: nat) returns (r: Option<Block>)
      requires Valid()
      modifies `blocks
      ensures Valid() && blocks == Touch(old(blocks), n)
      ensures r == Find(old(blocks), n) && (r.Some? ==> r == Read(TheView(), n))
    {
      r := Find(blocks, n);
      TouchIsFaithful(blocks, TheView(), n);
      if r.Some? {
        WithoutFound(blocks, n);
      }
      blocks := Touch(blocks, n);
    }

    method GetByNumber(n: nat) returns (r: Option<Block>)
      requires Valid()
      modifies `blocks, hashIndex
      ensures Valid()
      ensures r == Read(TheView(), n)
      ensures blocks == if Find(old(blocks), n).Some? || r.None? then Touch(old(blocks), n)
                        else Insert(old(blocks), BLOCK_CACHE_LIMIT, n, r.value)
      ensures hashIndex.View() == if Find(old(blocks), n).Some? || r.None? then old(hashIndex.View())
                                  else Indexed(old(hashIndex.View()), r.value)
      ensures r.Some? ==> Find(blocks, n) == r
      ensures Find(old(blocks), n).None? && r.Some? ==>
                r.value.hash in hashIndex.leftToRight && hashIndex.leftToRight[r.value.hash] == n
    {
      FindTouched(blocks, n, n);
      r := CacheGet(n);
      if r.Some? {
        return;
      }
      r := if n in gapBlocks then Some(gapBlocks[n]) else Read(source, n);
      if r.None? {
        return;
      }
      Keep(n, r.value);
      IndexedIsFound(hashIndex.View(), hashAt, TheView(), n);
      IndexBlock(r.value);
    }

    /** Heights found in the cache or among the gap blocks, and the others. */
    method Partition(heights: seq<nat>) returns (got: map<nat, Block>, missing: seq<nat>)
      requires Valid()
      modifies `blocks
      ensures Valid() && (blocks, got, missing) == Sweep(old(blocks), gapBlocks, heights)
    {
      got, missing := map[], [];
      for i := 0 to |heights|
        invariant Valid() && (blocks, got, missing) == Sweep(old(blocks), gapBlocks, heights[..i])
      {
        var h := heights[i];
        PrefixGrows(heights, i);
        InitOfAppended(heights[..i], h);
        var hit := CacheGet(h);
        if hit.Some? {
          got := got[h := hit.value];
        } else if h in gapBlocks {
          Keep(h, gapBlocks[h]);
          got := got[h := gapBlocks[h]];
        } else {
          missing := missing + [h];
        }
      }
      assert heights[..|heights|] == heights;
    }

    /** Fetches the missing blocks from the source; `None` if one of them fails. */
    method Fetch(got: Found, missing: seq<nat>) returns (all: Option<Found>)
      requires Valid() && NotGaps(World(gapBlocks, source), missing)
      modifies `blocks
      ensures Valid()
      ensures
        match CollectAll(source, missing)
        case None => all == None && blocks == old(blocks)
        case Some(fetched) => all == Some(AddAll(got, fetched)) && blocks == KeepAll(old(blocks), fetched)
    {
      var fetched := CollectAll(source, missing);
      if fetched.None? {
        return None;
      }
      FetchedAreOurs(World(gapBlocks, source), hashAt, missing);
      assert Ours(TheView(), fetched.value);
      var filled: Found := got;
      for i := 0 to |fetched.value|
        invariant Valid() && blocks == KeepAll(old(blocks), fetched.value[..i])
        invariant filled == AddAll(got, fetched.value[..i])
      {
        var block := fetched.value[i];
        assert Read(TheView(), block.number) == Some(block);
        FetchedStep(old(blocks), got, fetched.value, i);
        Keep(block.number, block);
        filled := filled[block.number := block];
      }
      assert fetched.value[..|fetched.value|] == fetched.value;
      return Some(filled);
    }

    /** Indexes the blocks in whatever order the map yields them. */
    method IndexAll(got: map<nat, Block>)
      requires Valid() && Gathered(got, TheView())
      modifies hashIndex
      ensures Valid()
      ensures 2 * |got| <= HASH_INDEX_LIMIT ==> Findable(hashIndex.View(), got.Keys, got)
    {
      var todo := got.Keys;
      ghost var newest: seq<Hash> := [];
      AppendedEnd(hashIndex.View().keys, newest);
      assert hashIndex.View().keys + newest == hashIndex.View().keys;
      while todo != {}
        invariant Valid() && todo <= got.Keys
        invariant 2 * |got| <= HASH_INDEX_LIMIT ==> Recent(hashIndex.View(), newest, got, todo)
      {
        var n :| n in todo;
        if 2 * |got| <= HASH_INDEX_LIMIT {
          newest := RecentStep(hashIndex.View(), newest, got, todo, n);
        }
        IndexBlock(got[n]);
        todo := todo - {n};
      }
      if 2 * |got| <= HASH_INDEX_LIMIT {
        NewestAreFindable(hashIndex.View(), newest, got);
      }
    }

    /** `get_by_numbers`: on a list without duplicates the same as one get after the other, else an error. */
    method GetByNumbers(heights: seq<nat>) returns (r: Option<seq<Block>>)
      requires Valid()
      modifies `blocks, hashIndex
      ensures Valid()
      ensures r == if Distinct(heights) then CollectAll(TheView(), heights) else None
      ensures r.Some? && 2 * |heights| <= HASH_INDEX_LIMIT ==>
                forall i :: 0 <= i < |heights| ==> r.value[i].hash in hashIndex.leftToRight
      ensures r.Some? && |heights| <= BLOCK_CACHE_LIMIT ==>
                forall i :: 0 <= i < |heights| ==> Find(blocks, heights[i]) == Read(TheView(), heights[i])
    {
      ghost var w := World(gapBlocks, source);
      SweepFinds(w, blocks, heights);
      var got, missing := Partition(heights);
      var all := Fetch(got, missing);
      if all.None? {
        FailedFetch(w, heights, got, missing);
        return None;
      }
      FetchedAreOurs(w, hashAt, missing);
      forall i | 0 <= i < |heights| && |heights| <= BLOCK_CACHE_LIMIT
        ensures Find(blocks, heights[i]).Some?
      {
        ListIsCached(old(blocks), gapBlocks, heights, CollectAll(source, missing).value, i);
      }
      FetchedCover(TheView(), heights, got, missing, CollectAll(source, missing).value);
      IndexAll(all.value);
      r := HandOut(heights, all.value, TheView());
      GatheredAreFew(heights, all.value.Keys);
      if r.Some? && 2 * |heights| <= HASH_INDEX_LIMIT {
        HandedOutAreFindable(hashIndex.View(), heights, all.value, TheView());
      }
    }

    method HashToNumber(hash: Hash) returns (r: Option<nat>)
      requires Valid()
      ensures r ==
              if hash in hashIndex.leftToRight then Some(hashIndex.leftToRight[hash])
              else if dbBlockNumber.Some? then dbBlockNumber.value(hash) else None
      ensures r.Some? && (dbBlockNumber.Some? ==> TrueNumbers(dbBlockNumber.value, hashAt)) ==> hashAt(r.value) == hash
    {
      if hash in hashIndex.leftToRight {
        return Some(hashIndex.leftToRight[hash]);
      }
      if dbBlockNumber.Some? {
        return dbBlockNumber.value(hash);
      }
      return None;
    }
  }

  /** The database never gives a hash a wrong number. */
  ghost predicate TrueNumbers(db: Hash -> Option<nat>, hashAt: nat -> Hash)
  {
    forall h: Hash :: db(h).Some? ==> hashAt(db(h).value) == h
  }

  const GENESIS: Block := Block(0, 1, 0, 0)

  /** Asked for block 0 once, a store answers; asked for it twice in one list, it does not. */
  method DuplicateIsRefused() returns (once: Option<seq<Block>>, twice: Option<seq<Block>>)
    ensures once == Some([GENESIS]) && twice == None
  {
    var gaps: map<nat, Block> := map[0 := GENESIS];
    var source: Reader<Block> := (n: nat) => None;
    ghost var hashAt: nat -> Hash := (n: nat) => n + 1;
    ghost var view := View(gaps, source);
    assert forall n: nat :: Read(view, n).Some? ==> n == 0;
    var store := new BlockStore(source, gaps, None, hashAt);
    assert [0 as nat][..0] == [] && CollectAll(view, []) == Some([]);
    var none: seq<Block> := [];
    assert none + [GENESIS] == [GENESIS];
    assert CollectAll(view, [0]) == Some([GENESIS]);
    once := store.GetByNumbers([0]);
    assert [0 as nat, 0][0] == [0 as nat, 0][1];
    twice := store.GetByNumbers([0, 0]);
  }
}
