/** Scanning an hourly file for blocks and the ranges of heights it holds. */
module Scanner {
  import opened Common
  import opened Tailing
  import opened Utf8

  datatype Block = Block(height: nat, body: nat)

  /** `line_to_evm_block`. */
  type BlockParser = Bytes -> Option<Block>

  datatype Range = Range(lo: nat, hi: nat)

  datatype ScanResult = ScanResult(nextExpectedHeight: nat, newBlocks: seq<Block>, newBlockRanges: seq<Range>)

  // ---------- Blocks of a list of lines ----------

  function ParseLine(parse: BlockParser, line: Bytes): Option<Block> { parse(line) }

  /** The block of a line, if it parses. */
  function Parsed(parse: BlockParser, line: Bytes): seq<Block>
  {
    match ParseLine(parse, line) case None => [] case Some(block) => [block]
  }

  function Blocks(parse: BlockParser, lines: seq<Bytes>): seq<Block>
  {
    if lines == [] then []
    else Blocks(parse, lines[..|lines| - 1]) + Parsed(parse, lines[|lines| - 1])
  }

  lemma {:induction false} BlocksOfParts(parse: BlockParser, a: seq<Bytes>, b: seq<Bytes>)
    ensures Blocks(parse, a + b) == Blocks(parse, a) + Blocks(parse, b)
  {
    if b == [] {
      assert a + b == a;
    } else {
      var n := |b| - 1;
      assert (a + b)[..|a + b| - 1] == a + b[..n];
      BlocksOfParts(parse, a, b[..n]);
    }
  }

  function Heights(blocks: seq<Block>): (hs: seq<nat>)
    ensures |hs| == |blocks|
    ensures forall i :: 0 <= i < |hs| ==> hs[i] == blocks[i].height
  {
    if blocks == [] then [] else Heights(blocks[..|blocks| - 1]) + [blocks[|blocks| - 1].height]
  }

  // ---------- Ranges ----------

  /** The ranges of a scan under way: those closed, and the one that may still grow. */
  datatype Gathered = Gathered(closed: seq<Range>, current: Option<Range>)
  {
    function All(): seq<Range>
    {
      match current case None => closed case Some(r) => closed + [r]
    }

    /** One more height: the open range grows by it, or is closed and a new one begins. */
    function Take(h: nat): Gathered
    {
      match current
      case None => Gathered(closed, Some(Range(h, h)))
      case Some(r) =>
        if r.hi + 1 == h then Gathered(closed, Some(Range(r.lo, h)))
        else Gathered(closed + [r], Some(Range(h, h)))
    }
  }

  function Gather(hs: seq<nat>): Gathered
  {
    if hs == [] then Gathered([], None) else Gather(hs[..|hs| - 1]).Take(hs[|hs| - 1])
  }

  function Ranges(hs: seq<nat>): seq<Range>
  {
    Gather(hs).All()
  }

  /** The heights of a range, in order. */
  function Spelled(r: Range): seq<nat>
    decreases r.hi
  {
    if r.hi < r.lo then [] else (if r.hi == r.lo then [] else Spelled(Range(r.lo, r.hi - 1))) + [r.hi]
  }

  function Flatten(ranges: seq<Range>): seq<nat>
  {
    if ranges == [] then [] else Flatten(ranges[..|ranges| - 1]) + Spelled(ranges[|ranges| - 1])
  }

  /** No range is empty, and none continues the one before it. */
  ghost predicate Maximal(ranges: seq<Range>)
  {
    && (forall i :: 0 <= i < |ranges| ==> ranges[i].lo <= ranges[i].hi)
    && (forall i, j :: 0 <= i < j < |ranges| && j == i + 1 ==> ranges[i].hi + 1 != ranges[j].lo)
  }

  lemma FlattenGrows(ranges: seq<Range>, r: Range)
    ensures Flatten(ranges + [r]) == Flatten(ranges) + Spelled(r)
  {
    InitOfAppended(ranges, r);
  }

  lemma GatherGrows(hs: seq<nat>, h: nat)
    ensures Gather(hs + [h]) == Gather(hs).Take(h)
  {
    InitOfAppended(hs, h);
  }

  lemma LongerRangeSpells(closed: seq<Range>, r: Range)
    requires r.lo <= r.hi
    ensures Flatten(closed + [Range(r.lo, r.hi + 1)]) == Flatten(closed + [r]) + [r.hi + 1]
  {
    FlattenGrows(closed, r);
    FlattenGrows(closed, Range(r.lo, r.hi + 1));
    Associates(Flatten(closed), Spelled(r), [r.hi + 1]);
  }

  lemma NewRangeSpells(ranges: seq<Range>, h: nat)
    ensures Flatten(ranges + [Range(h, h)]) == Flatten(ranges) + [h]
  {
    FlattenGrows(ranges, Range(h, h));
    assert Spelled(Range(h, h)) == [h];
  }

  lemma TakeSpells(g: Gathered, h: nat)
    requires g.current.Some? ==> g.current.value.lo <= g.current.value.hi
    ensures Flatten(g.Take(h).All()) == Flatten(g.All()) + [h]
  {
    if g.current.Some? && g.current.value.hi + 1 == h {
      LongerRangeSpells(g.closed, g.current.value);
    } else {
      NewRangeSpells(g.All(), h);
    }
  }

  lemma TakeStaysMaximal(g: Gathered, h: nat)
    requires Maximal(g.All()) && (g.current.None? ==> g.closed == [])
    ensures Maximal(g.Take(h).All())
  {
    if g.current.Some? {
      assert g.All()[|g.closed|] == g.current.value;
      assert forall i :: 0 <= i < |g.closed| ==> g.All()[i] == g.closed[i] == g.Take(h).All()[i];
    }
  }

  lemma {:induction false} RangesSpellHeights(hs: seq<nat>)
    ensures Flatten(Ranges(hs)) == hs && Maximal(Ranges(hs))
    ensures Gather(hs).current.None? ==> Gather(hs).closed == []
  {
    if hs != [] {
      var n := |hs| - 1;
      var g := Gather(hs[..n]);
      RangesSpellHeights(hs[..n]);
      if g.current.Some? {
        assert g.All()[|g.closed|] == g.current.value;
      }
      TakeSpells(g, hs[n]);
      TakeStaysMaximal(g, hs[n]);
      InitAndLast(hs);
    }
  }

  /** Spelling out a range that does not continue the open one closes that and leaves this one open. */
  lemma {:induction false} GatherRun(hs: seq<nat>, r: Range)
    requires r.lo <= r.hi
    requires Gather(hs).current.Some? ==> Gather(hs).current.value.hi + 1 != r.lo
    ensures Gather(hs + Spelled(r)) == Gathered(Ranges(hs), Some(r))
    decreases r.hi - r.lo
  {
    if r.lo == r.hi {
      assert Spelled(r) == [r.hi];
      GatherGrows(hs, r.hi);
    } else {
      var shorter := Range(r.lo, r.hi - 1);
      assert hs + Spelled(r) == hs + Spelled(shorter) + [r.hi];
      GatherRun(hs, shorter);
      GatherGrows(hs + Spelled(shorter), r.hi);
    }
  }

  /** There is no other list of maximal ranges that spells the heights. */
  lemma {:induction false} RangesAreUnique(ranges: seq<Range>)
    requires Maximal(ranges)
    ensures Ranges(Flatten(ranges)) == ranges
    ensures var g := Gather(Flatten(ranges));
            if ranges == [] then g.current.None? else g.current == Some(ranges[|ranges| - 1])
  {
    if ranges != [] {
      var n := |ranges| - 1;
      RangesAreUnique(ranges[..n]);
      GatherRun(Flatten(ranges[..n]), ranges[n]);
      InitAndLast(ranges);
    }
  }

  predicate Covers(ranges: seq<Range>, h: nat)
  {
    exists i :: 0 <= i < |ranges| && ranges[i].lo <= h <= ranges[i].hi
  }

  lemma {:induction false} InRange(r: Range, h: nat)
    ensures h in Spelled(r) <==> r.lo <= h <= r.hi
    decreases r.hi
  {
    if r.lo < r.hi {
      InRange(Range(r.lo, r.hi - 1), h);
    }
  }

  lemma {:induction false} InFlatten(ranges: seq<Range>, h: nat)
    ensures h in Flatten(ranges) <==> Covers(ranges, h)
  {
    if ranges != [] {
      var n := |ranges| - 1;
      InFlatten(ranges[..n], h);
      InRange(ranges[n], h);
      if h in Flatten(ranges[..n]) {
        var i :| 0 <= i < n && ranges[..n][i].lo <= h <= ranges[..n][i].hi;
        assert ranges[i].lo <= h <= ranges[i].hi;
      }
    }
  }

  /** The ranges of a scan cover the parsed heights and no others. */
  lemma RangesCoverHeights(hs: seq<nat>, h: nat)
    ensures Covers(Ranges(hs), h) <==> h in hs
  {
    RangesSpellHeights(hs);
    InFlatten(Ranges(hs), h);
  }

  // ---------- One scan ----------

  /** The blocks at or above `start`. */
  function FromHeight(start: nat, blocks: seq<Block>): seq<Block>
  {
    if blocks == [] then []
    else
      var n := |blocks| - 1;
      FromHeight(start, blocks[..n]) + (if blocks[n].height >= start then [blocks[n]] else [])
  }

  function LastHeight(start: nat, blocks: seq<Block>): (h: nat)
    ensures h >= start
  {
    if blocks == [] then start
    else
      var n := |blocks| - 1;
      var last := LastHeight(start, blocks[..n]);
      if blocks[n].height >= start then Max(last, blocks[n].height) else last
  }

  /** What a scan over these blocks reports. */
  function Report(blocks: seq<Block>, start: nat, onlyLoadRanges: bool): ScanResult
  {
    ScanResult(
      LastHeight(start, blocks) + (if blocks == [] then 0 else 1),
      if onlyLoadRanges then [] else FromHeight(start, blocks),
      Ranges(Heights(blocks)))
  }

  /** The lines that parse, in order, and the blocks they hold. */
  lemma {:induction false} BlocksAt(parse: BlockParser, lines: seq<Bytes>) returns (at: seq<nat>)
    ensures Enumerates(at, set i | 0 <= i < |lines| && ParseLine(parse, lines[i]).Some?)
    ensures |Blocks(parse, lines)| == |at|
    ensures forall j :: 0 <= j < |at| ==>
              at[j] < |lines| && Some(Blocks(parse, lines)[j]) == ParseLine(parse, lines[at[j]])
  {
    if lines == [] {
      at := [];
    } else {
      var n := |lines| - 1;
      at := BlocksAt(parse, lines[..n]);
      var before := set i | 0 <= i < n && ParseLine(parse, lines[..n][i]).Some?;
      var all := set i | 0 <= i < |lines| && ParseLine(parse, lines[i]).Some?;
      if ParseLine(parse, lines[n]).Some? {
        assert all == before + {n};
        EnumeratesMore(at, before, n);
        at := at + [n];
      } else {
        assert all == before;
      }
    }
  }

  lemma {:induction false} FromHeightAt(start: nat, blocks: seq<Block>) returns (at: seq<nat>)
    ensures Enumerates(at, set i | 0 <= i < |blocks| && blocks[i].height >= start)
    ensures PicksAt(FromHeight(start, blocks), blocks, at)
  {
    if blocks == [] {
      at := [];
    } else {
      var n := |blocks| - 1;
      at := FromHeightAt(start, blocks[..n]);
      PicksMore(FromHeight(start, blocks[..n]), blocks, at);
      var before := set i | 0 <= i < n && blocks[..n][i].height >= start;
      var all := set i | 0 <= i < |blocks| && blocks[i].height >= start;
      if blocks[n].height >= start {
        assert all == before + {n};
        EnumeratesMore(at, before, n);
        at := at + [n];
      } else {
        assert all == before;
      }
    }
  }

  /** A full scan reports exactly the blocks at or above its start, in order; one for ranges only reports none. */
  lemma NewBlocksAt(blocks: seq<Block>, start: nat) returns (at: seq<nat>)
    ensures Enumerates(at, set i | 0 <= i < |blocks| && blocks[i].height >= start)
    ensures PicksAt(Report(blocks, start, false).newBlocks, blocks, at)
    ensures Report(blocks, start, true).newBlocks == []
  {
    at := FromHeightAt(start, blocks);
  }

  lemma BlocksGrow(parse: BlockParser, lines: seq<Bytes>, line: Bytes)
    ensures Blocks(parse, lines + [line]) == Blocks(parse, lines) + Parsed(parse, line)
  {
    InitOfAppended(lines, line);
  }

  /** The loop variables of a scan. */
  datatype Progress = Progress(newBlocks: seq<Block>, lastHeight: nat, gathered: Gathered)
  {
    /** One more parsed block. */
    function Take(block: Block, start: nat, onlyLoadRanges: bool): Progress
    {
      var recent := block.height >= start;
      Progress(
        if recent && !onlyLoadRanges then newBlocks + [block] else newBlocks,
        if recent then Max(lastHeight, block.height) else lastHeight,
        gathered.Take(block.height))
    }
  }

  function Progressed(blocks: seq<Block>, start: nat, onlyLoadRanges: bool): Progress
  {
    if blocks == [] then Progress([], start, Gathered([], None))
    else Progressed(blocks[..|blocks| - 1], start, onlyLoadRanges).Take(blocks[|blocks| - 1], start, onlyLoadRanges)
  }

  lemma ProgressGrows(blocks: seq<Block>, block: Block, start: nat, onlyLoadRanges: bool)
    ensures Progressed(blocks + [block], start, onlyLoadRanges)
         == Progressed(blocks, start, onlyLoadRanges).Take(block, start, onlyLoadRanges)
  {
    InitOfAppended(blocks, block);
  }

  /** What the loop has computed when it ends. */
  lemma {:induction false} ProgressIsReported(blocks: seq<Block>, start: nat, onlyLoadRanges: bool)
    ensures
      var p := Progressed(blocks, start, onlyLoadRanges);
      && p.newBlocks == (if onlyLoadRanges then [] else FromHeight(start, blocks))
      && p.lastHeight == LastHeight(start, blocks)
      && p.gathered == Gather(Heights(blocks))
      && (p.gathered.current.Some? <==> blocks != [])
  {
    if blocks != [] {
      var n := |blocks| - 1;
      ProgressIsReported(blocks[..n], start, onlyLoadRanges);
      GatherGrows(Heights(blocks[..n]), blocks[n].height);
    }
  }

  lemma ProgressGivesReport(blocks: seq<Block>, start: nat, onlyLoadRanges: bool)
    ensures
      var p := Progressed(blocks, start, onlyLoadRanges);
      Report(blocks, start, onlyLoadRanges) ==
      ScanResult(p.lastHeight + (if p.gathered.current.Some? then 1 else 0), p.newBlocks, p.gathered.All())
  {
    ProgressIsReported(blocks, start, onlyLoadRanges);
  }

  /** A line just read, with all that follows it. */
  function Pending(content: Bytes, line: Option<Bytes>, pos: nat): (seq<Bytes>, nat)
    requires pos <= |content|
  {
    if line.None? then ([], pos)
    else var (lines, end) := ReadAll(content, pos); ([line.value] + lines, end)
  }

  /** A scan that gets `all` has got these lines, then this one, and the cursor is at `pos`. */
  ghost predicate Got(content: Bytes, all: (seq<Bytes>, nat), lines: seq<Bytes>, line: Option<Bytes>, pos: nat)
  {
    && pos <= |content|
    && all == (lines + Pending(content, line, pos).0, Pending(content, line, pos).1)
  }

  lemma GetFirst(content: Bytes, start: nat)
    requires start <= |content|
    ensures var (first, pos) := NextLine(content, start); Got(content, ReadAll(content, start), [], first, pos)
  {
    var (first, pos) := NextLine(content, start);
    assert [] + Pending(content, first, pos).0 == Pending(content, first, pos).0;
  }

  lemma GetNext(content: Bytes, all: (seq<Bytes>, nat), lines: seq<Bytes>, line: Bytes, pos: nat)
    requires Got(content, all, lines, Some(line), pos)
    ensures var (next, pos') := NextLine(content, pos); Got(content, all, lines + [line], next, pos')
  {
    var (next, pos') := NextLine(content, pos);
    Associates(lines, [line], Pending(content, next, pos').0);
  }

  lemma GotAll(content: Bytes, all: (seq<Bytes>, nat), lines: seq<Bytes>, pos: nat)
    requires Got(content, all, lines, None, pos)
    ensures all == (lines, pos)
  {
    assert lines + [] == lines;
  }

  lemma ProgressOfLine(parse: BlockParser, lines: seq<Bytes>, line: Bytes, start: nat, onlyLoadRanges: bool)
    ensures
      var before := Progressed(Blocks(parse, lines), start, onlyLoadRanges);
      Progressed(Blocks(parse, lines + [line]), start, onlyLoadRanges) ==
      match ParseLine(parse, line) case None => before case Some(b) => before.Take(b, start, onlyLoadRanges)
  {
    BlocksGrow(parse, lines, line);
    match ParseLine(parse, line)
    case None => assert Blocks(parse, lines) + [] == Blocks(parse, lines);
    case Some(b) => ProgressGrows(Blocks(parse, lines), b, start, onlyLoadRanges);
  }

  /** The loop body of `scan_hour_file` for one line; `lines` are those before it. */
  method TakeLine(parse: BlockParser, line: Bytes, start: nat, onlyLoadRanges: bool,
                  newBlocks: seq<Block>, lastHeight: nat, blockRanges: seq<Range>, currentRange: Option<Range>,
                  ghost lines: seq<Bytes>)
    returns (newBlocks': seq<Block>, lastHeight': nat, blockRanges': seq<Range>, currentRange': Option<Range>)
    requires Progressed(Blocks(parse, lines), start, onlyLoadRanges)
          == Progress(newBlocks, lastHeight, Gathered(blockRanges, currentRange))
    ensures Progressed(Blocks(parse, lines + [line]), start, onlyLoadRanges)
         == Progress(newBlocks', lastHeight', Gathered(blockRanges', currentRange'))
  {
    newBlocks', lastHeight', blockRanges', currentRange' := newBlocks, lastHeight, blockRanges, currentRange;
    ProgressOfLine(parse, lines, line, start, onlyLoadRanges);
    var parsed := ParseLine(parse, line);
    if parsed.Some? {
      var height := parsed.value.height;
      if height >= start {
        lastHeight' := Max(lastHeight, height);
        if !onlyLoadRanges {
          newBlocks' := newBlocks + [parsed.value];
        }
      }
      if currentRange.Some? && currentRange.value.hi + 1 == height {
        currentRange' := Some(Range(currentRange.value.lo, height));
      } else {
        if currentRange.Some? {
          blockRanges' := blockRanges + [currentRange.value];
        }
        currentRange' := Some(Range(height, height));
      }
    }
  }

  /** `Scanner::scan_hour_file`. */
  method ScanHourFile(stream: LineStream, parse: BlockParser, start: nat, onlyLoadRanges: bool)
    returns (r: ScanResult)
    requires stream.Valid()
    modifies stream`pos
    ensures stream.Valid()
    ensures
      var (lines, end) := ReadAll(stream.file.content, old(stream.pos));
      stream.pos == end && r == Report(Blocks(parse, lines), start, onlyLoadRanges)
  {
    var content := stream.file.content;
    var newBlocks: seq<Block> := [];
    var lastHeight: nat := start;
    var blockRanges: seq<Range> := [];
    var currentRange: Option<Range> := None;
    ghost var lines: seq<Bytes> := [];
    ghost var all := ReadAll(content, stream.pos);
    GetFirst(content, stream.pos);
    var line := stream.Next();
    while line.Some?
      invariant stream.Valid() && stream.file.content == content
      invariant Got(content, all, lines, line, stream.pos)
      invariant Progressed(Blocks(parse, lines), start, onlyLoadRanges)
             == Progress(newBlocks, lastHeight, Gathered(blockRanges, currentRange))
      decreases |content| - stream.pos, if line.Some? then 1 else 0
    {
      newBlocks, lastHeight, blockRanges, currentRange := TakeLine(
        parse, line.value, start, onlyLoadRanges, newBlocks, lastHeight, blockRanges, currentRange, lines);
      GetNext(content, all, lines, line.value, stream.pos);
      lines := lines + [line.value];
      line := stream.Next();
    }
    GotAll(content, all, lines, stream.pos);
    ProgressGivesReport(Blocks(parse, lines), start, onlyLoadRanges);
    var any := currentRange.Some?;
    if any {
      blockRanges := blockRanges + [currentRange.value];
    }
    return ScanResult(lastHeight + (if any then 1 else 0), newBlocks, blockRanges);
  }

  // ---------- The next expected height ----------

  /** The least height that is at or above `start` and above every block seen. */
  function Beyond(start: nat, blocks: seq<Block>): (h: nat)
    ensures h >= start && (h == start || exists i :: 0 <= i < |blocks| && h == blocks[i].height + 1)
    ensures forall i :: 0 <= i < |blocks| ==> blocks[i].height < h
  {
    if blocks == [] then start
    else Max(Beyond(start, blocks[..|blocks| - 1]), blocks[|blocks| - 1].height + 1)
  }

  predicate SomeFrom(start: nat, blocks: seq<Block>)
  {
    exists i :: 0 <= i < |blocks| && blocks[i].height >= start
  }

  lemma {:induction false} LastHeightIsHighest(start: nat, blocks: seq<Block>)
    ensures Beyond(start, blocks) == if SomeFrom(start, blocks) then LastHeight(start, blocks) + 1 else start
    ensures SomeFrom(start, blocks) || LastHeight(start, blocks) == start
  {
    if blocks != [] {
      var n := |blocks| - 1;
      LastHeightIsHighest(start, blocks[..n]);
      if SomeFrom(start, blocks[..n]) {
        var i :| 0 <= i < n && blocks[..n][i].height >= start;
        assert blocks[i].height >= start;
      } else {
        assert forall i :: 0 <= i < n ==> blocks[i] == blocks[..n][i];
      }
    }
  }

  /**
   The reported height is the right one exactly if nothing was parsed or something at or above the
   start was. A scan that meets older blocks only moves on by one and so skips a height it has not seen.
   */
  lemma NextExpectedIsRightIff(blocks: seq<Block>, start: nat, onlyLoadRanges: bool)
    ensures var next := Report(blocks, start, onlyLoadRanges).nextExpectedHeight;
            && (next == Beyond(start, blocks) <==> blocks == [] || SomeFrom(start, blocks))
            && (next != Beyond(start, blocks) ==> next == start + 1)
  {
    LastHeightIsHighest(start, blocks);
  }

  /** Block 5 is awaited and block 3 turns up late: the scan then waits for 6, although 5 never came. */
  lemma OldBlockSkipsHeight(onlyLoadRanges: bool)
    ensures var late := [Block(3, 0)];
            Report(late, 5, onlyLoadRanges).nextExpectedHeight == 6 && Beyond(5, late) == 5
  {
    assert [Block(3, 0)][..0] == [];
  }

  // ---------- Ranges over a tailed file ----------

  /** The heights the scans of a run have put into the range map, each when it ended. */
  function Recorded(parse: BlockParser, events: seq<Event>): set<nat>
  {
    if events == [] then {}
    else
      var before, last := events[..|events| - 1], events[|events| - 1];
      var st := After(before);
      Recorded(parse, before) +
      if EndsScan(st, last) then HeightSet(Ranges(Heights(Blocks(parse, st.scan)))) else {}
  }

  function HeightSet(ranges: seq<Range>): set<nat>
  {
    set h | h in Flatten(ranges)
  }

  lemma HeightsOfParts(a: seq<Block>, b: seq<Block>)
    ensures Heights(a + b) == Heights(a) + Heights(b)
  {
  }

  lemma HeightsGrow(parse: BlockParser, lines: seq<Bytes>, line: Bytes, h: nat)
    ensures h in Heights(Blocks(parse, lines + [line]))
       <==> h in Heights(Blocks(parse, lines)) || h in Heights(Parsed(parse, line))
  {
    BlocksGrow(parse, lines, line);
    HeightsOfParts(Blocks(parse, lines), Parsed(parse, line));
  }

  lemma RecordedGrows(parse: BlockParser, before: seq<Event>, last: Event, h: nat)
    ensures h in Recorded(parse, before + [last])
       <==> || h in Recorded(parse, before)
            || (EndsScan(After(before), last) && h in Heights(Blocks(parse, After(before).scan)))
  {
    InitOfAppended(before, last);
    RangesSpellHeights(Heights(Blocks(parse, After(before).scan)));
  }

  /** What has been delivered has been recorded, but for the scan under way. */
  lemma {:induction false} RecordedIsDelivered(parse: BlockParser, events: seq<Event>, h: nat)
    ensures
      var st := After(events);
      h in Heights(Blocks(parse, st.delivered))
      <==> h in Recorded(parse, events) || h in Heights(Blocks(parse, st.scan))
  {
    if events != [] {
      var before, last := events[..|events| - 1], events[|events| - 1];
      var st := After(before);
      InitAndLast(events);
      RecordedIsDelivered(parse, before, h);
      RecordedGrows(parse, before, last, h);
      if last.Next? && NextLine(st.content, st.pos).0.Some? {
        var line := NextLine(st.content, st.pos).0.value;
        HeightsGrow(parse, st.delivered, line, h);
        HeightsGrow(parse, st.scan, line, h);
      }
    }
  }

  /**
   Tailed in any number of scans, interrupted by writes and errors or not, a file ends up with the
   ranges of its complete lines, if every `next` did no harm; and they are what one scan of all of the
   file would give, if that can decode the unfinished line at its end.
   */
  lemma TailingRecordsTheSameHeights(parse: BlockParser, events: seq<Event>, h: nat)
    requires Clean(events) && NextLine(After(events).content, After(events).pos).0.None?
    ensures
      var content := After(events).content;
      var recorded := h in Recorded(parse, events + [Next]);
      && (recorded <==> Covers(Ranges(Heights(Blocks(parse, CompleteLines(content, 0)))), h))
      && (FaultFree(events) || ValidUtf8(content[TailStart(content, 0)..]) ==>
            (recorded <==> Covers(Ranges(Heights(Blocks(parse, ReadAll(content, 0).0))), h)))
  {
    var all := events + [Next];
    InitOfAppended(events, Next);
    TailingIsExactIff(events);
    WholeScanAgrees(events);
    RecordedIsDelivered(parse, all, h);
    RangesCoverHeights(Heights(Blocks(parse, After(events).delivered)), h);
  }
}
