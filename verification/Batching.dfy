/** Fetching many blocks in batches: the RPC client, the server that caps a request, and the S3 source. */
module Batching {
  import opened Common

  /** One block by height; `None` is an error. */
  type Reader<!B> = nat -> Option<B>

  function Read<B>(read: Reader<B>, h: nat): Option<B> { read(h) }

  function Both<B>(a: Option<seq<B>>, b: Option<seq<B>>): Option<seq<B>>
  {
    if a.Some? && b.Some? then Some(a.value + b.value) else None
  }

  /** All heights in order, one at a time; one failure fails them all. */
  function CollectAll<B>(read: Reader<B>, hs: seq<nat>): (r: Option<seq<B>>)
    ensures r.Some? ==> |r.value| == |hs|
  {
    if hs == [] then Some([])
    else
      var n := |hs| - 1;
      Both(CollectAll(read, hs[..n]), match Read(read, hs[n]) case None => None case Some(b) => Some([b]))
  }

  lemma {:induction false} CollectParts<B>(read: Reader<B>, a: seq<nat>, b: seq<nat>)
    ensures CollectAll(read, a + b) == Both(CollectAll(read, a), CollectAll(read, b))
  {
    if b == [] {
      assert a + b == a;
      assert CollectAll(read, a).Some? ==> CollectAll(read, a).value + [] == CollectAll(read, a).value;
    } else {
      var n := |b| - 1;
      assert (a + b)[..|a + b| - 1] == a + b[..n];
      CollectParts(read, a, b[..n]);
      BothAssociates(CollectAll(read, a), CollectAll(read, b[..n]),
                     match Read(read, b[n]) case None => None case Some(x) => Some([x]));
    }
  }

  lemma BothAssociates<B>(a: Option<seq<B>>, b: Option<seq<B>>, c: Option<seq<B>>)
    ensures Both(Both(a, b), c) == Both(a, Both(b, c))
  {
    if a.Some? && b.Some? && c.Some? {
      Associates(a.value, b.value, c.value);
    }
  }

  /** The i-th block of a successful collection is the one at the i-th height. */
  lemma {:induction false} CollectedAt<B>(read: Reader<B>, hs: seq<nat>, i: nat)
    requires i < |hs|
    ensures CollectAll(read, hs).Some? ==> Read(read, hs[i]) == Some(CollectAll(read, hs).value[i])
    ensures Read(read, hs[i]).None? ==> CollectAll(read, hs).None?
  {
    if i < |hs| - 1 {
      CollectedAt(read, hs[..|hs| - 1], i);
    }
  }

  lemma {:induction false} CollectedIff<B>(read: Reader<B>, hs: seq<nat>)
    ensures CollectAll(read, hs).Some? <==> forall i :: 0 <= i < |hs| ==> Read(read, hs[i]).Some?
  {
    if hs != [] {
      var n := |hs| - 1;
      CollectedIff(read, hs[..n]);
      assert forall i :: 0 <= i < n ==> hs[..n][i] == hs[i];
    }
  }

  // ---------- Client and server ----------

  const MAX_BATCH: nat := 500   // of the server
  const BATCH_SIZE: nat := 500  // of the client

  /** `sync_get_blocks`: heights beyond the cap are dropped without an error. */
  function SyncGetBlocks<B>(read: Reader<B>, hs: seq<nat>): Option<seq<B>>
  {
    CollectAll(read, if |hs| > MAX_BATCH then hs[..MAX_BATCH] else hs)
  }

  /** One request answers everything exactly if it respects the cap, or fails within it. */
  lemma OneRequestIsCompleteIff<B>(read: Reader<B>, hs: seq<nat>)
    ensures SyncGetBlocks(read, hs) == CollectAll(read, hs)
       <==> |hs| <= MAX_BATCH || CollectAll(read, hs[..MAX_BATCH]).None?
  {
    if |hs| > MAX_BATCH {
      CollectParts(read, hs[..MAX_BATCH], hs[MAX_BATCH..]);
      assert hs == hs[..MAX_BATCH] + hs[MAX_BATCH..];
    }
  }

  /** `heights.chunks(BATCH_SIZE)`. */
  function Chunks(hs: seq<nat>): seq<seq<nat>>
  {
    if hs == [] then []
    else if |hs| <= BATCH_SIZE then [hs]
    else [hs[..BATCH_SIZE]] + Chunks(hs[BATCH_SIZE..])
  }

  function Concat(batches: seq<seq<nat>>): seq<nat>
  {
    if batches == [] then [] else Concat(batches[..|batches| - 1]) + batches[|batches| - 1]
  }

  lemma {:induction false} ConcatParts(a: seq<nat>, batches: seq<seq<nat>>)
    ensures Concat([a] + batches) == a + Concat(batches)
  {
    if batches == [] {
      assert ([a] + batches)[..0] == [];
    } else {
      var n := |batches| - 1;
      assert ([a] + batches)[..n + 1] == [a] + batches[..n];
      ConcatParts(a, batches[..n]);
    }
  }

  lemma {:induction false} ChunksCover(hs: seq<nat>)
    ensures Concat(Chunks(hs)) == hs
    ensures forall i :: 0 <= i < |Chunks(hs)| ==> |Chunks(hs)[i]| <= BATCH_SIZE
  {
    if |hs| > BATCH_SIZE {
      ChunksCover(hs[BATCH_SIZE..]);
      ConcatParts(hs[..BATCH_SIZE], Chunks(hs[BATCH_SIZE..]));
    } else if hs != [] {
      ConcatParts(hs, []);
    }
  }

  lemma ConcatStep(batches: seq<seq<nat>>, i: nat)
    requires i < |batches|
    ensures Concat(batches[..i + 1]) == Concat(batches[..i]) + batches[i]
  {
    assert batches[..i + 1][..i] == batches[..i];
  }

  lemma {:induction false} PrefixFails<B>(read: Reader<B>, batches: seq<seq<nat>>, i: nat)
    requires i <= |batches| && CollectAll(read, Concat(batches[..i])).None?
    ensures CollectAll(read, Concat(batches)).None?
    decreases |batches| - i
  {
    if i == |batches| {
      assert batches[..i] == batches;
    } else {
      ConcatStep(batches, i);
      CollectParts(read, Concat(batches[..i]), batches[i]);
      PrefixFails(read, batches, i + 1);
    }
  }

  /** `RpcBlockSource::collect_blocks` against a server that reads with `read`. */
  method CollectBlocks<B>(read: Reader<B>, heights: seq<nat>) returns (r: Option<seq<B>>)
    ensures r == CollectAll(read, heights)
  {
    var batches := Chunks(heights);
    ChunksCover(heights);
    var allBlocks: seq<B> := [];
    for i := 0 to |batches|
      invariant CollectAll(read, Concat(batches[..i])) == Some(allBlocks)
    {
      ConcatStep(batches, i);
      CollectParts(read, Concat(batches[..i]), batches[i]);
      var result := SyncGetBlocks(read, batches[i]);
      if result.None? {
        PrefixFails(read, batches, i + 1);
        return None;
      }
      allBlocks := allBlocks + result.value;
    }
    assert batches[..|batches|] == batches;
    return Some(allBlocks);
  }

  // ---------- S3 ----------

  const S3_CONCURRENCY: nat := 1000

  lemma TakeOne<B>(read: Reader<B>, hs: seq<nat>, i: nat)
    requires i < |hs|
    ensures CollectAll(read, hs[..i + 1]) ==
            Both(CollectAll(read, hs[..i]), match Read(read, hs[i]) case None => None case Some(b) => Some([b]))
  {
    assert hs[..i + 1][..i] == hs[..i];
  }

  lemma FailsEarly<B>(read: Reader<B>, hs: seq<nat>, i: nat)
    requires i <= |hs| && CollectAll(read, hs[..i]).None?
    ensures CollectAll(read, hs).None?
  {
    assert hs == hs[..i] + hs[i..];
    CollectParts(read, hs[..i], hs[i..]);
  }

  /** `S3BlockSource::collect_blocks`: batches are awaited in order, one after the other. */
  method CollectBlocksS3<B>(read: Reader<B>, heights: seq<nat>) returns (r: Option<seq<B>>)
    ensures r == CollectAll(read, heights)
  {
    var results: seq<B> := [];
    var taken: nat := 0;
    while taken < |heights|
      invariant taken <= |heights| && CollectAll(read, heights[..taken]) == Some(results)
    {
      var size: nat := Min(S3_CONCURRENCY, |heights| - taken);
      for i := taken to taken + size
        invariant CollectAll(read, heights[..i]) == Some(results)
      {
        TakeOne(read, heights, i);
        var block := Read(read, heights[i]);
        if block.None? {
          FailsEarly(read, heights, i + 1);
          return None;
        }
        results := results + [block.value];
      }
      taken := taken + size;
    }
    assert heights[..taken] == heights;
    return Some(results);
  }
}
