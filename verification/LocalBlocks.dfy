/** The cache of local blocks: recent blocks by height, and which file holds which height. */
module LocalBlocks {
  import opened Common
  import opened Lru
  import opened Scanner
  import opened Tailing

  const CACHE_SIZE: nat := 8000

  type Path = nat

  // ---------- Ranges recorded for a file ----------

  function Record(known: map<nat, Path>, r: Range, path: Path): map<nat, Path>
  {
    known + map h | h in Spelled(r) :: path
  }

  function RecordAll(known: map<nat, Path>, ranges: seq<Range>, path: Path): map<nat, Path>
  {
    if ranges == [] then known
    else Record(RecordAll(known, ranges[..|ranges| - 1], path), ranges[|ranges| - 1], path)
  }

  lemma {:induction false} RecordedHeights(known: map<nat, Path>, ranges: seq<Range>, path: Path, h: nat)
    ensures var m := RecordAll(known, ranges, path);
            && (h in m <==> h in known || Covers(ranges, h))
            && (h in m ==> m[h] == if Covers(ranges, h) then path else known[h])
  {
    if ranges != [] {
      var n := |ranges| - 1;
      RecordedHeights(known, ranges[..n], path, h);
      CoversLast(ranges, h);
      InRange(ranges[n], h);
    }
  }

  lemma RecordAllStep(known: map<nat, Path>, ranges: seq<Range>, path: Path, i: nat)
    requires i < |ranges|
    ensures RecordAll(known, ranges[..i + 1], path) == Record(RecordAll(known, ranges[..i], path), ranges[i], path)
  {
    assert ranges[..i + 1][..i] == ranges[..i];
  }

  lemma CoversLast(ranges: seq<Range>, h: nat)
    requires ranges != []
    ensures var n := |ranges| - 1;
            Covers(ranges, h) <==> Covers(ranges[..n], h) || ranges[n].lo <= h <= ranges[n].hi
  {
    var n := |ranges| - 1;
    if Covers(ranges[..n], h) {
      var i :| 0 <= i < n && ranges[..n][i].lo <= h <= ranges[..n][i].hi;
      assert ranges[i].lo <= h <= ranges[i].hi;
    }
    if Covers(ranges, h) {
      var i :| 0 <= i <= n && ranges[i].lo <= h <= ranges[i].hi;
      assert i < n ==> ranges[..n][i] == ranges[i];
    }
  }

  // ---------- The cache ----------

  function Keyed(blocks: seq<Block>): (es: Entries<nat, Block>)
    ensures |es| == |blocks|
    ensures forall i :: 0 <= i < |es| ==> es[i] == Entry(blocks[i].height, blocks[i])
  {
    seq(|blocks|, i requires 0 <= i < |blocks| => Entry(blocks[i].height, blocks[i]))
  }

  /** Every block is filed under its own height. */
  ghost predicate Filed(es: Entries<nat, Block>)
  {
    forall h :: Find(es, h).Some? ==> Find(es, h).value.height == h
  }

  lemma {:induction false} FindKeyed(blocks: seq<Block>, h: nat)
    ensures Find(Keyed(blocks), h).Some? <==> h in Heights(blocks)
    ensures Find(Keyed(blocks), h).Some? ==> Find(Keyed(blocks), h).value.height == h
  {
    if blocks != [] {
      var n := |blocks| - 1;
      assert Keyed(blocks)[..n] == Keyed(blocks[..n]);
      FindKeyed(blocks[..n], h);
      assert Heights(blocks) == Heights(blocks[..n]) + [blocks[n].height];
    }
  }

  lemma FiledAfterInserting(es: Entries<nat, Block>, blocks: seq<Block>)
    requires Filed(es)
    ensures Filed(InsertAll(es, CACHE_SIZE, Keyed(blocks)))
  {
    forall h | Find(InsertAll(es, CACHE_SIZE, Keyed(blocks)), h).Some?
      ensures Find(InsertAll(es, CACHE_SIZE, Keyed(blocks)), h).value.height == h
    {
      FindInAll(es, CACHE_SIZE, Keyed(blocks), h);
      FindKeyed(blocks, h);
    }
  }

  lemma InsertAllStep(es: Entries<nat, Block>, blocks: seq<Block>, i: nat)
    requires i < |blocks|
    ensures InsertAll(es, CACHE_SIZE, Keyed(blocks[..i + 1]))
         == Insert(InsertAll(es, CACHE_SIZE, Keyed(blocks[..i])), CACHE_SIZE, blocks[i].height, blocks[i])
  {
    assert Keyed(blocks[..i + 1]) == Keyed(blocks[..i]) + [Entry(blocks[i].height, blocks[i])];
    InsertAllGrows(es, CACHE_SIZE, Keyed(blocks[..i]), Entry(blocks[i].height, blocks[i]));
  }

  class LocalBlocksCache {
    var cache: Entries<nat, Block>
    var ranges: map<nat, Path>

    ghost predicate Valid()
      reads this
    {
      Filed(cache) && |cache| <= CACHE_SIZE
    }

    constructor ()
      ensures Valid() && cache == [] && ranges == map[]
    {
      cache, ranges := [], map[];
    }

    method LoadScanResult(path: Path, r: ScanResult)
      requires Valid()
      modifies this
      ensures Valid()
      ensures cache == InsertAll(old(cache), CACHE_SIZE, Keyed(r.newBlocks))
      ensures ranges == RecordAll(old(ranges), r.newBlockRanges, path)
    {
      for i := 0 to |r.newBlocks|
        invariant cache == InsertAll(old(cache), CACHE_SIZE, Keyed(r.newBlocks[..i])) && |cache| <= CACHE_SIZE
        invariant ranges == old(ranges)
      {
        InsertAllStep(old(cache), r.newBlocks, i);
        cache := Insert(cache, CACHE_SIZE, r.newBlocks[i].height, r.newBlocks[i]);
      }
      assert r.newBlocks[..|r.newBlocks|] == r.newBlocks;
      FiledAfterInserting(old(cache), r.newBlocks);
      for i := 0 to |r.newBlockRanges|
        modifies `ranges
        invariant ranges == RecordAll(old(ranges), r.newBlockRanges[..i], path)
      {
        RecordAllStep(old(ranges), r.newBlockRanges, path, i);
        ranges := Record(ranges, r.newBlockRanges[i], path);
      }
      assert r.newBlockRanges[..|r.newBlockRanges|] == r.newBlockRanges;
    }

    method GetBlock(height: nat) returns (r: Option<Block>)
      requires Valid()
      modifies `cache
      ensures Valid() && r == Find(old(cache), height) && cache == Touch(old(cache), height)
    {
      r := Find(cache, height);
      TouchIsValid(cache, height);
      cache := Touch(cache, height);
    }
  }

  lemma TouchIsValid(es: Entries<nat, Block>, h: nat)
    requires Filed(es)
    ensures Filed(Touch(es, h)) && |Touch(es, h)| <= |es|
  {
    forall j
      ensures Find(Touch(es, h), j) == Find(es, j)
    {
      FindTouched(es, h, j);
    }
    if Find(es, h).Some? {
      WithoutFound(es, h);
    }
  }

  // ---------- Looking a block up ----------

  /** The blocks a file holds on complete lines. */
  function BlocksOn(parse: BlockParser, content: Bytes): seq<Block>
  {
    Blocks(parse, CompleteLines(content, 0))
  }

  /** Every recorded height is on the file it was recorded for. */
  ghost predicate Backed(ranges: map<nat, Path>, contents: map<Path, Bytes>, parse: BlockParser)
  {
    forall h :: h in ranges && ranges[h] in contents ==> h in Heights(BlocksOn(parse, contents[ranges[h]]))
  }

  /** A fresh scan of a whole file gets the blocks of its complete lines, if blank lines do not parse. */
  lemma WholeScan(parse: BlockParser, content: Bytes)
    requires ParseLine(parse, []).None?
    ensures Blocks(parse, ReadAll(content, 0).0) == BlocksOn(parse, content)
  {
    ScanGetsCompleteLines(content, 0);
    BlocksOfParts(parse, CompleteLines(content, 0), [[]]);
    assert Blocks(parse, [[]]) == [] + Parsed(parse, []);
  }

  lemma {:induction false} AllFromZero(blocks: seq<Block>)
    ensures FromHeight(0, blocks) == blocks
  {
    if blocks != [] {
      AllFromZero(blocks[..|blocks| - 1]);
    }
  }

  /** `try_collect_local_block`; `disk` holds what is in the files that can be opened. */
  method TryCollectLocalBlock(store: LocalBlocksCache, disk: map<Path, Bytes>, parse: BlockParser, height: nat)
    returns (r: Option<Block>)
    requires store.Valid() && ParseLine(parse, []).None?
    modifies store
    ensures store.Valid()
    ensures r.Some? ==> r.value.height == height
    ensures Find(old(store.cache), height).Some? ==> r == Find(old(store.cache), height)
    ensures Find(old(store.cache), height).None? ==> r == FromFile(old(store.ranges), disk, parse, height)
    ensures Backed(old(store.ranges), disk, parse) ==> Backed(store.ranges, disk, parse)
  {
    r := store.GetBlock(height);
    if r.Some? || height !in store.ranges || store.ranges[height] !in disk {
      return;
    }
    var path := store.ranges[height];
    r := LoadFile(store, path, disk[path], parse, height);
    RecordingKeepsBacked(old(store.ranges), path, disk, parse);
  }

  /** What a lookup finds that has to read the file. */
  function FromFile(ranges: map<nat, Path>, disk: map<Path, Bytes>, parse: BlockParser, h: nat): Option<Block>
  {
    if h !in ranges || ranges[h] !in disk then None else Loaded(BlocksOn(parse, disk[ranges[h]]), h)
  }

  /** The last block with the height, if it is among the 8000 newest heights of the file. */
  function Loaded(blocks: seq<Block>, h: nat): Option<Block>
  {
    Find(Newest(Alone(Keyed(blocks)), CACHE_SIZE), h)
  }

  /** The part of `try_collect_local_block` that reads the file. */
  method LoadFile(store: LocalBlocksCache, path: Path, content: Bytes, parse: BlockParser, height: nat)
    returns (r: Option<Block>)
    requires store.Valid() && ParseLine(parse, []).None? && Find(store.cache, height).None?
    modifies store
    ensures store.Valid() && r == Loaded(BlocksOn(parse, content), height) && (r.Some? ==> r.value.height == height)
    ensures store.ranges == RecordAll(old(store.ranges), Ranges(Heights(BlocksOn(parse, content))), path)
  {
    ghost var blocks := BlocksOn(parse, content);
    var file := new HourFile(content);
    var stream := new LineStream(file);
    WholeScan(parse, content);
    AllFromZero(blocks);
    var result := ScanHourFile(stream, parse, 0, false);
    FoundAfterLoading(store.cache, blocks, height);
    store.LoadScanResult(path, result);
    r := store.GetBlock(height);
  }

  lemma FoundAfterLoading(es: Entries<nat, Block>, blocks: seq<Block>, h: nat)
    requires Filed(es) && |es| <= CACHE_SIZE && Find(es, h).None?
    ensures Find(InsertAll(es, CACHE_SIZE, Keyed(blocks)), h) == Loaded(blocks, h)
  {
    FoundIffNewest(es, CACHE_SIZE, Keyed(blocks), h);
  }

  /**
   A recorded height whose file is readable is found, with the last block the file has for it, exactly
   if it is among the 8000 newest heights of the file; with at most 8000 blocks it always is.
   */
  lemma RecordedHeightIsFoundIff(ranges: map<nat, Path>, disk: map<Path, Bytes>, parse: BlockParser, h: nat)
    requires Backed(ranges, disk, parse) && h in ranges && ranges[h] in disk
    ensures
      var blocks, r := BlocksOn(parse, disk[ranges[h]]), FromFile(ranges, disk, parse, h);
      && (r.Some? <==> HasKey(Newest(Alone(Keyed(blocks)), CACHE_SIZE), h))
      && (r.Some? ==> r == Find(Keyed(blocks), h) && r.value.height == h)
      && (|blocks| <= CACHE_SIZE ==> r.Some?)
  {
    var blocks := BlocksOn(parse, disk[ranges[h]]);
    FindKeyed(blocks, h);
    FindAlone(Keyed(blocks), h);
    FindInNewest(Alone(Keyed(blocks)), CACHE_SIZE, h);
    FoundIffKey(Newest(Alone(Keyed(blocks)), CACHE_SIZE), h);
  }

  predicate HasKey(es: Entries<nat, Block>, h: nat)
  {
    exists i :: 0 <= i < |es| && es[i].key == h
  }

  lemma {:induction false} FoundIffKey(es: Entries<nat, Block>, h: nat)
    ensures Find(es, h).Some? <==> HasKey(es, h)
  {
    if es != [] {
      var n := |es| - 1;
      FoundIffKey(es[..n], h);
      if HasKey(es[..n], h) {
        var i :| 0 <= i < n && es[..n][i].key == h;
        assert es[i].key == h;
      }
      if HasKey(es, h) && es[n].key != h {
        var i :| 0 <= i < |es| && es[i].key == h;
        assert es[..n][i].key == h;
      }
    }
  }

  /** Recording the ranges of a file's own blocks. */
  lemma RecordingKeepsBacked(known: map<nat, Path>, path: Path, contents: map<Path, Bytes>, parse: BlockParser)
    requires path in contents
    ensures
      var ranges := Ranges(Heights(BlocksOn(parse, contents[path])));
      Backed(known, contents, parse) ==> Backed(RecordAll(known, ranges, path), contents, parse)
  {
    var hs := Heights(BlocksOn(parse, contents[path]));
    var m := RecordAll(known, Ranges(hs), path);
    if Backed(known, contents, parse) {
      forall h | h in m && m[h] in contents
        ensures h in Heights(BlocksOn(parse, contents[m[h]]))
      {
        RecordedHeights(known, Ranges(hs), path, h);
        RangesCoverHeights(hs, h);
      }
    }
  }

  /** Writing to a file takes no recorded height away. */
  lemma WritingKeepsBacked(ranges: map<nat, Path>, contents: map<Path, Bytes>, parse: BlockParser,
                           path: Path, more: Bytes)
    requires Backed(ranges, contents, parse) && path in contents
    ensures Backed(ranges, contents[path := contents[path] + more], parse)
  {
    var old', new' := CompleteLines(contents[path], 0), CompleteLines(contents[path] + more, 0);
    LinesOnlyGrow(contents[path], more);
    assert new' == old' + new'[|old'|..];
    BlocksOfParts(parse, old', new'[|old'|..]);
    HeightsOfParts(Blocks(parse, old'), Blocks(parse, new'[|old'|..]));
  }
}
