/**
 Everything that feeds the local block cache, in any order: hl-node appends to its files while the
 ingest loop, the backfill and lookups each read some file line by line and load what they have read.
 */
module LocalIngest {
  import opened Common
  import opened LocalBlocks
  import opened Lru
  import opened Scanner
  import opened Tailing
  import opened Utf8

  /** An open line stream, and what the scan under way has got from it. */
  datatype Reader = Reader(path: Path, pos: nat, lines: seq<Bytes>)

  datatype Store = Store(
    contents: map<Path, Bytes>, readers: seq<Reader>, cache: Entries<nat, Block>, ranges: map<nat, Path>)

  datatype Action =
    | Write(path: Path, bytes: Bytes)                      // hl-node creates a file or appends to it
    | Open(path: Path)                                     // a stream at the start of a file
    | Read(r: nat)                                         // one `next`
    | Fail(r: nat, n: nat)                                 // one `next` that fails after some bytes
    | Load(r: nat, start: nat, onlyLoadRanges: bool)       // `load_scan_result`; the stream stays open
    | Get(height: nat)                                     // a lookup in the cache

  ghost predicate Enabled(st: Store, a: Action)
  {
    match a
    case Write(_, _) => true
    case Open(path) => path in st.contents
    case Read(r) =>
      r < |st.readers| && st.readers[r].path in st.contents
      && st.readers[r].pos <= |st.contents[st.readers[r].path]|
    case Fail(r, n) =>
      r < |st.readers| && st.readers[r].path in st.contents
      && st.readers[r].pos <= |st.contents[st.readers[r].path]|
      && Consumed(st.contents[st.readers[r].path], st.readers[r].pos, n)
    case Load(r, _, _) => r < |st.readers|
    case Get(_) => true
  }

  /** If the line parses, the file holds a block of that height on a complete line. */
  ghost predicate OnFile(parse: BlockParser, s: Bytes, line: Bytes)
  {
    ParseLine(parse, line).Some? ==> ParseLine(parse, line).value.height in Heights(BlocksOn(parse, s))
  }

  /** What a `next` with the cursor at `p` yields, if anything, names no height that the file does not hold. */
  ghost predicate Harmless(parse: BlockParser, s: Bytes, p: nat)
    requires p <= |s|
  {
    NextLine(s, p).0.Some? ==> OnFile(parse, s, NextLine(s, p).0.value)
  }

  function Written(st: Store, path: Path, bytes: Bytes): Store
  {
    st.(contents := st.contents[path := (if path in st.contents then st.contents[path] else []) + bytes])
  }

  function AfterRead(st: Store, r: nat): Store
    requires r < |st.readers| && st.readers[r].path in st.contents
    requires st.readers[r].pos <= |st.contents[st.readers[r].path]|
  {
    var reader := st.readers[r];
    var (line, pos) := NextLine(st.contents[reader.path], reader.pos);
    var lines := match line case None => reader.lines case Some(l) => reader.lines + [l];
    st.(readers := st.readers[r := Reader(reader.path, pos, lines)])
  }

  function AfterFailure(st: Store, r: nat, n: nat): Store
    requires r < |st.readers|
  {
    st.(readers := st.readers[r := st.readers[r].(pos := st.readers[r].pos + n)])
  }

  function AfterLoad(st: Store, parse: BlockParser, r: nat, start: nat, onlyLoadRanges: bool): Store
    requires r < |st.readers|
  {
    var reader := st.readers[r];
    var report := Report(Blocks(parse, reader.lines), start, onlyLoadRanges);
    st.(readers := st.readers[r := reader.(lines := [])],
        cache := InsertAll(st.cache, CACHE_SIZE, Keyed(report.newBlocks)),
        ranges := RecordAll(st.ranges, report.newBlockRanges, reader.path))
  }

  ghost function Act(st: Store, parse: BlockParser, a: Action): Store
    requires Enabled(st, a)
  {
    match a
    case Write(path, bytes) => Written(st, path, bytes)
    case Open(path) => st.(readers := st.readers + [Reader(path, 0, [])])
    case Read(r) => AfterRead(st, r)
    case Fail(r, n) => AfterFailure(st, r, n)
    case Load(r, start, only) => AfterLoad(st, parse, r, start, only)
    case Get(height) => st.(cache := Touch(st.cache, height))
  }

  const EMPTY: Store := Store(map[], [], [], map[])

  ghost predicate IsRun(st: Store, parse: BlockParser, actions: seq<Action>)
    decreases |actions|
  {
    actions == [] || (Enabled(st, actions[0]) && IsRun(Act(st, parse, actions[0]), parse, actions[1..]))
  }

  ghost function Final(st: Store, parse: BlockParser, actions: seq<Action>): Store
    requires IsRun(st, parse, actions)
    decreases |actions|
  {
    if actions == [] then st else Final(Act(st, parse, actions[0]), parse, actions[1..])
  }

  ghost predicate CleanStep(st: Store, parse: BlockParser, a: Action)
    requires Enabled(st, a)
  {
    a.Read? ==> Harmless(parse, st.contents[st.readers[a.r].path], st.readers[a.r].pos)
  }

  /** Every read is harmless. */
  ghost predicate CleanRun(st: Store, parse: BlockParser, actions: seq<Action>)
    requires IsRun(st, parse, actions)
    decreases |actions|
  {
    actions == [] ||
    (CleanStep(st, parse, actions[0]) && CleanRun(Act(st, parse, actions[0]), parse, actions[1..]))
  }

  // ---------- Heights and the lines they stand on ----------

  lemma {:induction false} HeightHasLine(parse: BlockParser, lines: seq<Bytes>, h: nat) returns (i: nat)
    requires h in Heights(Blocks(parse, lines))
    ensures i < |lines| && ParseLine(parse, lines[i]).Some? && ParseLine(parse, lines[i]).value.height == h
  {
    var n := |lines| - 1;
    InitAndLast(lines);
    HeightsGrow(parse, lines[..n], lines[n], h);
    if h in Heights(Blocks(parse, lines[..n])) {
      i := HeightHasLine(parse, lines[..n], h);
    } else {
      i := n;
    }
  }

  lemma {:induction false} LineHasHeight(parse: BlockParser, lines: seq<Bytes>, i: nat)
    requires i < |lines| && ParseLine(parse, lines[i]).Some?
    ensures ParseLine(parse, lines[i]).value.height in Heights(Blocks(parse, lines))
  {
    var n := |lines| - 1;
    var block := ParseLine(parse, lines[i]).value;
    InitAndLast(lines);
    HeightsGrow(parse, lines[..n], lines[n], block.height);
    if i < n {
      LineHasHeight(parse, lines[..n], i);
    } else {
      assert Heights([block])[0] == block.height;
    }
  }

  // ---------- Which reads do no harm ----------

  /** A `next` that does no harm to the lines read does none to the ranges. */
  lemma GoodIsHarmless(parse: BlockParser, s: Bytes, p: nat)
    requires p <= |s| && Good(s, p)
    ensures Harmless(parse, s, p)
  {
    if Terminated(s, p) {
      var lines, line := CompleteLines(s, 0), Decoded(s[LineStart(s, p)..LineEnd(s, p) - 1]);
      NextTerminated(s, p);
      LineIsOnFile(s, p);
      var j :| 0 <= j < |lines| && lines[j] == line;
      if ParseLine(parse, line).Some? {
        LineHasHeight(parse, lines, j);
      }
    } else {
      NextUnfinished(s, p);
    }
  }

  /** Where blank lines do not parse, harm is done only by reading on within a line that an error or a tail tore. */
  lemma OnlyTornLinesHarm(parse: BlockParser, s: Bytes, p: nat)
    requires p <= |s| && ParseLine(parse, []).None? && !Harmless(parse, s, p)
    ensures Terminated(s, p) && LineStart(s, p) < p
  {
    if !Terminated(s, p) {
      NextUnfinished(s, p);
    } else if LineStart(s, p) == p {
      GoodIsHarmless(parse, s, p);
    }
  }

  // ---------- What every action keeps ----------

  /** A reader stands somewhere in its file, and what it has got names only heights the file holds. */
  ghost predicate ReaderOk(contents: map<Path, Bytes>, parse: BlockParser, r: Reader)
  {
    && r.path in contents && r.pos <= |contents[r.path]|
    && (forall i :: 0 <= i < |r.lines| ==> OnFile(parse, contents[r.path], r.lines[i]))
  }

  ghost predicate ReadersOk(contents: map<Path, Bytes>, parse: BlockParser, readers: seq<Reader>)
  {
    forall i :: 0 <= i < |readers| ==> ReaderOk(contents, parse, readers[i])
  }

  lemma ReplaceReader(contents: map<Path, Bytes>, parse: BlockParser, readers: seq<Reader>, r: nat, reader: Reader)
    requires ReadersOk(contents, parse, readers) && r < |readers| && ReaderOk(contents, parse, reader)
    ensures ReadersOk(contents, parse, readers[r := reader])
  {
  }

  ghost predicate Inv(st: Store, parse: BlockParser)
  {
    && ReadersOk(st.contents, parse, st.readers)
    && (forall h :: h in st.ranges ==> st.ranges[h] in st.contents)
    && Backed(st.ranges, st.contents, parse)
    && Filed(st.cache) && |st.cache| <= CACHE_SIZE
  }

  lemma ReadKeepsReader(contents: map<Path, Bytes>, parse: BlockParser, r: Reader)
    requires ReaderOk(contents, parse, r) && Harmless(parse, contents[r.path], r.pos)
    ensures
      var (line, pos) := NextLine(contents[r.path], r.pos);
      ReaderOk(contents, parse, Reader(r.path, pos, match line case None => r.lines case Some(l) => r.lines + [l]))
  {
  }

  lemma WriteKeepsReader(st: Store, parse: BlockParser, path: Path, bytes: Bytes, r: Reader)
    requires ReaderOk(st.contents, parse, r)
    ensures ReaderOk(Written(st, path, bytes).contents, parse, r)
  {
    if r.path == path {
      var s := st.contents[path];
      forall i | 0 <= i < |r.lines|
        ensures OnFile(parse, s + bytes, r.lines[i])
      {
        StaysOnFile(parse, s, bytes, r.lines[i]);
      }
    }
  }

  lemma StaysOnFile(parse: BlockParser, s: Bytes, bytes: Bytes, line: Bytes)
    requires OnFile(parse, s, line)
    ensures OnFile(parse, s + bytes, line)
  {
    var lines, more := CompleteLines(s, 0), CompleteLines(s + bytes, 0);
    LinesOnlyGrow(s, bytes);
    assert more == lines + more[|lines|..];
    BlocksOfParts(parse, lines, more[|lines|..]);
    HeightsOfParts(Blocks(parse, lines), Blocks(parse, more[|lines|..]));
  }

  lemma WriteKeepsBacked(st: Store, parse: BlockParser, path: Path, bytes: Bytes)
    requires Inv(st, parse)
    ensures Backed(st.ranges, Written(st, path, bytes).contents, parse)
  {
    if path in st.contents {
      WritingKeepsBacked(st.ranges, st.contents, parse, path, bytes);
    }
  }

  // ---------- What a scan puts into the range map ----------

  lemma HeightsOnFile(parse: BlockParser, s: Bytes, lines: seq<Bytes>, h: nat)
    requires (forall i :: 0 <= i < |lines| ==> OnFile(parse, s, lines[i])) && h in Heights(Blocks(parse, lines))
    ensures h in Heights(BlocksOn(parse, s))
  {
    var i := HeightHasLine(parse, lines, h);
    assert OnFile(parse, s, lines[i]);
  }

  lemma LoadKeepsBacked(st: Store, parse: BlockParser, r: nat)
    requires Inv(st, parse) && r < |st.readers|
    ensures
      var reader := st.readers[r];
      var ranges := RecordAll(st.ranges, Ranges(Heights(Blocks(parse, reader.lines))), reader.path);
      Backed(ranges, st.contents, parse) && forall h :: h in ranges ==> ranges[h] in st.contents
  {
    var reader := st.readers[r];
    var hs := Heights(Blocks(parse, reader.lines));
    var ranges := RecordAll(st.ranges, Ranges(hs), reader.path);
    forall h | h in ranges
      ensures ranges[h] in st.contents && h in Heights(BlocksOn(parse, st.contents[ranges[h]]))
    {
      RecordedHeights(st.ranges, Ranges(hs), reader.path, h);
      RangesCoverHeights(hs, h);
      if h in hs {
        HeightsOnFile(parse, st.contents[reader.path], reader.lines, h);
      }
    }
  }

  // ---------- Every run ----------

  lemma WriteKeepsInv(st: Store, parse: BlockParser, path: Path, bytes: Bytes)
    requires Inv(st, parse)
    ensures Inv(Written(st, path, bytes), parse)
  {
    forall i | 0 <= i < |st.readers|
      ensures ReaderOk(Written(st, path, bytes).contents, parse, st.readers[i])
    {
      WriteKeepsReader(st, parse, path, bytes, st.readers[i]);
    }
    WriteKeepsBacked(st, parse, path, bytes);
  }

  lemma ReadKeepsInv(st: Store, parse: BlockParser, r: nat)
    requires Inv(st, parse) && r < |st.readers|
    requires ReaderOk(st.contents, parse, st.readers[r])
    requires Harmless(parse, st.contents[st.readers[r].path], st.readers[r].pos)
    ensures Inv(AfterRead(st, r), parse)
  {
    ReadKeepsReader(st.contents, parse, st.readers[r]);
    ReplaceReader(st.contents, parse, st.readers, r, AfterRead(st, r).readers[r]);
  }

  lemma FailureKeepsInv(st: Store, parse: BlockParser, r: nat, n: nat)
    requires Inv(st, parse) && Enabled(st, Fail(r, n))
    ensures Inv(AfterFailure(st, r, n), parse)
  {
    assert ReaderOk(st.contents, parse, st.readers[r]);
    ReplaceReader(st.contents, parse, st.readers, r, AfterFailure(st, r, n).readers[r]);
  }

  lemma LoadKeepsInv(st: Store, parse: BlockParser, r: nat, start: nat, only: bool)
    requires Inv(st, parse) && r < |st.readers|
    ensures Inv(AfterLoad(st, parse, r, start, only), parse)
  {
    var blocks, next := Blocks(parse, st.readers[r].lines), AfterLoad(st, parse, r, start, only);
    LoadKeepsBacked(st, parse, r);
    assert Backed(next.ranges, next.contents, parse);
    CacheStaysFiled(st.cache, Report(blocks, start, only).newBlocks);
    ClearReader(st.contents, parse, st.readers, r);
  }

  lemma ClearReader(contents: map<Path, Bytes>, parse: BlockParser, readers: seq<Reader>, r: nat)
    requires ReadersOk(contents, parse, readers) && r < |readers|
    ensures ReadersOk(contents, parse, readers[r := readers[r].(lines := [])])
  {
    assert ReaderOk(contents, parse, readers[r]);
    ReplaceReader(contents, parse, readers, r, readers[r].(lines := []));
  }

  lemma CacheStaysFiled(cache: Entries<nat, Block>, blocks: seq<Block>)
    requires Filed(cache) && |cache| <= CACHE_SIZE
    ensures var next := InsertAll(cache, CACHE_SIZE, Keyed(blocks)); Filed(next) && |next| <= CACHE_SIZE
  {
    FiledAfterInserting(cache, blocks);
    NewestOfBatchStays(cache, CACHE_SIZE, Keyed(blocks));
  }

  lemma OpenKeepsInv(st: Store, parse: BlockParser, path: Path)
    requires Inv(st, parse) && path in st.contents
    ensures Inv(st.(readers := st.readers + [Reader(path, 0, [])]), parse)
  {
    assert ReaderOk(st.contents, parse, Reader(path, 0, []));
  }

  lemma ActKeepsInv(st: Store, parse: BlockParser, a: Action)
    requires Inv(st, parse) && Enabled(st, a) && CleanStep(st, parse, a)
    ensures Inv(Act(st, parse, a), parse)
  {
    match a
    case Write(path, bytes) => WriteKeepsInv(st, parse, path, bytes);
    case Open(path) => OpenKeepsInv(st, parse, path);
    case Read(r) => ReadKeepsInv(st, parse, r);
    case Fail(r, n) => FailureKeepsInv(st, parse, r, n);
    case Load(r, start, only) => LoadKeepsInv(st, parse, r, start, only);
    case Get(height) => TouchIsValid(st.cache, height);
  }

  lemma {:induction false} RunKeepsInv(st: Store, parse: BlockParser, actions: seq<Action>)
    requires Inv(st, parse) && IsRun(st, parse, actions) && CleanRun(st, parse, actions)
    ensures Inv(Final(st, parse, actions), parse)
    decreases |actions|
  {
    if actions != [] {
      ActKeepsInv(st, parse, actions[0]);
      RunKeepsInv(Act(st, parse, actions[0]), parse, actions[1..]);
    }
  }

  /** Files may have become unreadable; those in `disk` are as they were written. */
  ghost predicate Readable(disk: map<Path, Bytes>, contents: map<Path, Bytes>)
  {
    forall p :: p in disk ==> p in contents && disk[p] == contents[p]
  }

  /**
   A recorded height of a readable file is on that file, and a lookup finds it exactly if it is cached
   or among the 8000 newest heights of the file. What any lookup finds has the height asked for.
   */
  ghost predicate LookupIsRight(st: Store, disk: map<Path, Bytes>, parse: BlockParser, h: nat)
  {
    var r := if Find(st.cache, h).Some? then Find(st.cache, h) else FromFile(st.ranges, disk, parse, h);
    && (r.Some? ==> r.value.height == h)
    && (h in st.ranges && st.ranges[h] in disk ==>
          var blocks := BlocksOn(parse, disk[st.ranges[h]]);
          && h in Heights(blocks)
          && (|blocks| <= CACHE_SIZE ==> r.Some?)
          && (r.Some? <==> Find(st.cache, h).Some? || HasKey(Newest(Alone(Keyed(blocks)), CACHE_SIZE), h)))
  }

  lemma CleanIngestIsFound(parse: BlockParser, actions: seq<Action>, disk: map<Path, Bytes>, h: nat)
    requires IsRun(EMPTY, parse, actions) && CleanRun(EMPTY, parse, actions)
    requires Readable(disk, Final(EMPTY, parse, actions).contents)
    ensures LookupIsRight(Final(EMPTY, parse, actions), disk, parse, h)
  {
    var st := Final(EMPTY, parse, actions);
    RunKeepsInv(EMPTY, parse, actions);
    assert Backed(st.ranges, disk, parse);
    if h in st.ranges && st.ranges[h] in disk {
      RecordedHeightIsFoundIff(st.ranges, disk, parse, h);
    }
  }

  // ---------- Runs without errors ----------

  /** No read fails, and none is made in front of an unfinished line that cannot be decoded. */
  ghost predicate QuietStep(st: Store, a: Action)
    requires Enabled(st, a)
  {
    !a.Fail? && (a.Read? ==> !Broken(st.contents[st.readers[a.r].path], st.readers[a.r].pos))
  }

  ghost predicate QuietRun(st: Store, parse: BlockParser, actions: seq<Action>)
    requires IsRun(st, parse, actions)
    decreases |actions|
  {
    actions == [] || (QuietStep(st, actions[0]) && QuietRun(Act(st, parse, actions[0]), parse, actions[1..]))
  }

  /** The reader stands between two lines of its file. */
  ghost predicate BetweenLines(contents: map<Path, Bytes>, r: Reader)
  {
    && r.path in contents && r.pos <= |contents[r.path]|
    && (r.pos == 0 || contents[r.path][r.pos - 1] == NEWLINE)
  }

  ghost predicate AllBetweenLines(st: Store)
  {
    forall i :: 0 <= i < |st.readers| ==> BetweenLines(st.contents, st.readers[i])
  }

  lemma QuietRead(st: Store, parse: BlockParser, r: nat)
    requires AllBetweenLines(st) && Enabled(st, Read(r)) && QuietStep(st, Read(r))
    ensures Harmless(parse, st.contents[st.readers[r].path], st.readers[r].pos)
    ensures AllBetweenLines(AfterRead(st, r))
  {
    var s, p := st.contents[st.readers[r].path], st.readers[r].pos;
    assert BetweenLines(st.contents, st.readers[r]);
    StaysAtLineStart(State(s, p, [], []), Next);
    GoodIsHarmless(parse, s, p);
  }

  lemma WriteKeepsBetweenLines(st: Store, path: Path, bytes: Bytes)
    requires AllBetweenLines(st)
    ensures AllBetweenLines(Written(st, path, bytes))
  {
    forall i | 0 <= i < |st.readers|
      ensures BetweenLines(Written(st, path, bytes).contents, st.readers[i])
    {
      assert BetweenLines(st.contents, st.readers[i]);
    }
  }

  lemma LoadKeepsBetweenLines(st: Store, parse: BlockParser, r: nat, start: nat, only: bool)
    requires AllBetweenLines(st) && r < |st.readers|
    ensures AllBetweenLines(AfterLoad(st, parse, r, start, only))
  {
    assert BetweenLines(st.contents, st.readers[r].(lines := []));
  }

  lemma QuietStepIsClean(st: Store, parse: BlockParser, a: Action)
    requires AllBetweenLines(st) && Enabled(st, a) && QuietStep(st, a)
    ensures CleanStep(st, parse, a) && AllBetweenLines(Act(st, parse, a))
  {
    match a
    case Write(path, bytes) => WriteKeepsBetweenLines(st, path, bytes);
    case Open(path) => assert BetweenLines(st.contents, Reader(path, 0, []));
    case Read(r) => QuietRead(st, parse, r);
    case Load(r, start, only) => LoadKeepsBetweenLines(st, parse, r, start, only);
    case Get(_) =>
  }

  lemma {:induction false} QuietRunsAreClean(st: Store, parse: BlockParser, actions: seq<Action>)
    requires AllBetweenLines(st) && IsRun(st, parse, actions) && QuietRun(st, parse, actions)
    ensures CleanRun(st, parse, actions)
    decreases |actions|
  {
    if actions != [] {
      QuietStepIsClean(st, parse, actions[0]);
      QuietRunsAreClean(Act(st, parse, actions[0]), parse, actions[1..]);
    }
  }

  /**
   After any interleaving of writes, ingest, backfill and lookups in which no read fails or meets an
   undecodable unfinished line, every recorded height is on its file, and lookups are right.
   */
  lemma IngestedHeightIsFoundIff(parse: BlockParser, actions: seq<Action>, disk: map<Path, Bytes>, h: nat)
    requires IsRun(EMPTY, parse, actions) && QuietRun(EMPTY, parse, actions)
    requires Readable(disk, Final(EMPTY, parse, actions).contents)
    ensures LookupIsRight(Final(EMPTY, parse, actions), disk, parse, h)
  {
    QuietRunsAreClean(EMPTY, parse, actions);
    CleanIngestIsFound(parse, actions, disk, h);
  }

  ghost predicate AsciiFiles(st: Store)
  {
    forall path, i :: path in st.contents && 0 <= i < |st.contents[path]| ==> st.contents[path][i] < 0x80
  }

  /** Only ASCII is written, and no read fails. */
  ghost predicate AsciiActions(actions: seq<Action>)
  {
    && (forall i :: 0 <= i < |actions| ==> !actions[i].Fail?)
    && (forall i, j :: 0 <= i < |actions| && actions[i].Write? && 0 <= j < |actions[i].bytes| ==>
          actions[i].bytes[j] < 0x80)
  }

  lemma {:induction false} AsciiRunsAreQuiet(st: Store, parse: BlockParser, actions: seq<Action>)
    requires AsciiFiles(st) && IsRun(st, parse, actions) && AsciiActions(actions)
    ensures QuietRun(st, parse, actions)
    decreases |actions|
  {
    if actions != [] {
      var a := actions[0];
      if a.Read? {
        var s := st.contents[st.readers[a.r].path];
        AsciiIsValid(s[st.readers[a.r].pos..], 0);
      }
      assert AsciiFiles(Act(st, parse, a));
      AsciiRunsAreQuiet(Act(st, parse, a), parse, actions[1..]);
    }
  }

  // ---------- Runs with errors ----------

  /** No read starts within a line and reaches its newline. */
  ghost predicate UntornStep(st: Store, a: Action)
    requires Enabled(st, a)
  {
    a.Read? ==>
      var s, p := st.contents[st.readers[a.r].path], st.readers[a.r].pos;
      Terminated(s, p) ==> LineStart(s, p) == p
  }

  ghost predicate UntornRun(st: Store, parse: BlockParser, actions: seq<Action>)
    requires IsRun(st, parse, actions)
    decreases |actions|
  {
    actions == [] || (UntornStep(st, actions[0]) && UntornRun(Act(st, parse, actions[0]), parse, actions[1..]))
  }

  lemma {:induction false} UntornRunsAreClean(st: Store, parse: BlockParser, actions: seq<Action>)
    requires ParseLine(parse, []).None? && IsRun(st, parse, actions) && UntornRun(st, parse, actions)
    ensures CleanRun(st, parse, actions)
    decreases |actions|
  {
    if actions != [] {
      var a := actions[0];
      if !CleanStep(st, parse, a) {
        OnlyTornLinesHarm(parse, st.contents[st.readers[a.r].path], st.readers[a.r].pos);
        assert false;
      }
      UntornRunsAreClean(Act(st, parse, a), parse, actions[1..]);
    }
  }

  /**
   The same with reads that fail anywhere and meet any tails, if blank lines do not parse and no stream
   reads on within a line up to its newline.
   */
  lemma UntornIngestIsFound(parse: BlockParser, actions: seq<Action>, disk: map<Path, Bytes>, h: nat)
    requires ParseLine(parse, []).None? && IsRun(EMPTY, parse, actions) && UntornRun(EMPTY, parse, actions)
    requires Readable(disk, Final(EMPTY, parse, actions).contents)
    ensures LookupIsRight(Final(EMPTY, parse, actions), disk, parse, h)
  {
    UntornRunsAreClean(EMPTY, parse, actions);
    CleanIngestIsFound(parse, actions, disk, h);
  }

  // ---------- Exactly which runs are safe ----------

  lemma NotBacked(ranges: map<nat, Path>, contents: map<Path, Bytes>, parse: BlockParser, h: nat)
    requires h in ranges && ranges[h] in contents && h !in Heights(BlocksOn(parse, contents[ranges[h]]))
    ensures !Backed(ranges, contents, parse)
  {
  }

  /** What a stream's scan under way would record. */
  function Recording(st: Store, parse: BlockParser, r: nat): map<nat, Path>
    requires r < |st.readers|
  {
    RecordAll(st.ranges, Ranges(Heights(Blocks(parse, st.readers[r].lines))), st.readers[r].path)
  }

  lemma LineIsRecorded(st: Store, parse: BlockParser, r: nat, i: nat)
    requires r < |st.readers| && i < |st.readers[r].lines| && ParseLine(parse, st.readers[r].lines[i]).Some?
    ensures
      var h := ParseLine(parse, st.readers[r].lines[i]).value.height;
      h in Recording(st, parse, r) && Recording(st, parse, r)[h] == st.readers[r].path
  {
    var lines := st.readers[r].lines;
    var hs, h := Heights(Blocks(parse, lines)), ParseLine(parse, lines[i]).value.height;
    LineHasHeight(parse, lines, i);
    RangesCoverHeights(hs, h);
    RecordedHeights(st.ranges, Ranges(hs), st.readers[r].path, h);
  }

  /** Under the invariant a stream reads once more: what it would record is on the file iff the read is harmless. */
  lemma ReadIsBackedIff(st: Store, parse: BlockParser, r: nat)
    requires Inv(st, parse) && Enabled(st, Read(r))
    ensures Backed(Recording(AfterRead(st, r), parse, r), st.contents, parse)
       <==> Harmless(parse, st.contents[st.readers[r].path], st.readers[r].pos)
  {
    var reader, next := st.readers[r], AfterRead(st, r);
    var s := st.contents[reader.path];
    if Harmless(parse, s, reader.pos) {
      assert ReaderOk(st.contents, parse, reader);
      ReadKeepsInv(st, parse, r);
      LoadKeepsBacked(next, parse, r);
    } else {
      var line := NextLine(s, reader.pos).0.value;
      assert next.readers[r].lines == reader.lines + [line];
      LineIsRecorded(next, parse, r, |reader.lines|);
      NotBacked(Recording(next, parse, r), st.contents, parse, ParseLine(parse, line).value.height);
    }
  }

  /** Whichever stream loads what it has got, every recorded height is on its file. */
  ghost predicate Safe(st: Store, parse: BlockParser)
  {
    && Backed(st.ranges, st.contents, parse)
    && (forall r :: 0 <= r < |st.readers| ==> Backed(Recording(st, parse, r), st.contents, parse))
  }

  ghost predicate SafeRun(st: Store, parse: BlockParser, actions: seq<Action>)
    requires IsRun(st, parse, actions)
    decreases |actions|
  {
    Safe(st, parse) && (actions == [] || SafeRun(Act(st, parse, actions[0]), parse, actions[1..]))
  }

  lemma InvIsSafe(st: Store, parse: BlockParser)
    requires Inv(st, parse)
    ensures Safe(st, parse)
  {
    forall r | 0 <= r < |st.readers|
      ensures Backed(Recording(st, parse, r), st.contents, parse)
    {
      LoadKeepsBacked(st, parse, r);
    }
  }

  lemma UncleanIsUnsafe(st: Store, parse: BlockParser, a: Action)
    requires Inv(st, parse) && Enabled(st, a) && !CleanStep(st, parse, a)
    ensures !Safe(Act(st, parse, a), parse)
  {
    ReadIsBackedIff(st, parse, a.r);
  }

  lemma {:induction false} SafeIffCleanFrom(st: Store, parse: BlockParser, actions: seq<Action>)
    requires Inv(st, parse) && IsRun(st, parse, actions)
    ensures SafeRun(st, parse, actions) <==> CleanRun(st, parse, actions)
    decreases |actions|
  {
    InvIsSafe(st, parse);
    if actions != [] {
      if CleanStep(st, parse, actions[0]) {
        ActKeepsInv(st, parse, actions[0]);
        SafeIffCleanFrom(Act(st, parse, actions[0]), parse, actions[1..]);
      } else {
        UncleanIsUnsafe(st, parse, actions[0]);
      }
    }
  }

  /**
   At every moment of a run, whichever stream then loads, all recorded heights are on their files: this
   is so exactly if no read named a height its file did not hold when it was read.
   */
  lemma RunIsSafeIff(parse: BlockParser, actions: seq<Action>)
    requires IsRun(EMPTY, parse, actions)
    ensures SafeRun(EMPTY, parse, actions) <==> CleanRun(EMPTY, parse, actions)
  {
    SafeIffCleanFrom(EMPTY, parse, actions);
  }

  /** A lookup that hits makes its block the newest of the cache and changes no answer. */
  lemma LookupIsNewest(st: Store, parse: BlockParser, h: nat, k: nat)
    requires Find(st.cache, h).Some?
    ensures
      var next := Act(st, parse, Get(h));
      && next == st.(cache := next.cache) && Find(next.cache, k) == Find(st.cache, k)
      && next.cache != [] && next.cache[|next.cache| - 1] == Entry(h, Find(st.cache, h).value)
  {
    FindTouched(st.cache, h, k);
    TouchedIsNewest(st.cache, h);
  }

  // ---------- A file that is read to its end ----------

  lemma {:induction false} RunsCompose(st: Store, parse: BlockParser, a: seq<Action>, b: seq<Action>)
    requires IsRun(st, parse, a) && IsRun(Final(st, parse, a), parse, b)
    ensures IsRun(st, parse, a + b) && Final(st, parse, a + b) == Final(Final(st, parse, a), parse, b)
    decreases |a|
  {
    if a == [] {
      assert a + b == b;
    } else {
      assert (a + b)[1..] == a[1..] + b;
      RunsCompose(Act(st, parse, a[0]), parse, a[1..], b);
    }
  }

  lemma OneActionRun(st: Store, parse: BlockParser, a: Action)
    requires Enabled(st, a)
    ensures IsRun(st, parse, [a]) && Final(st, parse, [a]) == Act(st, parse, a)
  {
    assert [a][1..] == [];
    assert IsRun(Act(st, parse, a), parse, []);
  }

  function Reads(r: nat, n: nat): seq<Action>
  {
    if n == 0 then [] else [Read(r)] + Reads(r, n - 1)
  }

  /** One `next` after the other up to the first that yields nothing is a scan of what is left of the file. */
  lemma {:induction false} ReadsAreAScan(st: Store, parse: BlockParser, r: nat)
    requires Enabled(st, Read(r))
    ensures
      var reader := st.readers[r];
      var (lines, end) := ReadAll(st.contents[reader.path], reader.pos);
      && IsRun(st, parse, Reads(r, |lines| + 1))
      && Final(st, parse, Reads(r, |lines| + 1)) ==
           st.(readers := st.readers[r := Reader(reader.path, end, reader.lines + lines)])
    decreases |st.contents[st.readers[r].path]| - st.readers[r].pos
  {
    var reader, next := st.readers[r], AfterRead(st, r);
    var s := st.contents[reader.path];
    var (line, e) := NextLine(s, reader.pos);
    OneActionRun(st, parse, Read(r));
    if line.None? {
      assert reader.lines + [] == reader.lines;
      assert Reads(r, 1) == [Read(r)];
    } else {
      var (rest, end) := ReadAll(s, e);
      ReadsAreAScan(next, parse, r);
      RunsCompose(st, parse, [Read(r)], Reads(r, |rest| + 1));
      Associates(reader.lines, [line.value], rest);
      assert next.readers[r := Reader(reader.path, end, reader.lines + [line.value] + rest)]
          == st.readers[r := Reader(reader.path, end, reader.lines + ([line.value] + rest))];
    }
  }

  /**
   A stream that is opened, read to the end and loaded puts exactly the heights of the file's complete
   lines into the range map, for that file, and the blocks from the start height on into the cache.
   */
  lemma ReadFileIsLoaded(st: Store, parse: BlockParser, path: Path, start: nat, only: bool)
    requires path in st.contents && ParseLine(parse, []).None?
    ensures
      var r, blocks := |st.readers|, BlocksOn(parse, st.contents[path]);
      var actions := [Open(path)] + Reads(r, |ReadAll(st.contents[path], 0).0| + 1) + [Load(r, start, only)];
      && IsRun(st, parse, actions)
      && Final(st, parse, actions).contents == st.contents
      && Final(st, parse, actions).ranges == RecordAll(st.ranges, Ranges(Heights(blocks)), path)
      && Final(st, parse, actions).cache ==
           InsertAll(st.cache, CACHE_SIZE, Keyed(Report(blocks, start, only).newBlocks))
  {
    var r, s := |st.readers|, st.contents[path];
    var lines := ReadAll(s, 0).0;
    var open := Act(st, parse, Open(path));
    OneActionRun(st, parse, Open(path));
    ReadsAreAScan(open, parse, r);
    RunsCompose(st, parse, [Open(path)], Reads(r, |lines| + 1));
    var read := Final(open, parse, Reads(r, |lines| + 1));
    assert [] + lines == lines;
    OneActionRun(read, parse, Load(r, start, only));
    RunsCompose(st, parse, [Open(path)] + Reads(r, |lines| + 1), [Load(r, start, only)]);
    WholeScan(parse, s);
  }

  /** So every height of the file is recorded for it, and can be looked up if the file has at most 8000 blocks. */
  lemma ReadHeightIsFound(st: Store, parse: BlockParser, path: Path, h: nat)
    requires Inv(st, parse) && path in st.contents && ParseLine(parse, []).None?
    requires h in Heights(BlocksOn(parse, st.contents[path]))
    ensures
      var s, r := st.contents[path], |st.readers|;
      var actions := [Open(path)] + Reads(r, |ReadAll(s, 0).0| + 1) + [Load(r, 0, false)];
      && IsRun(st, parse, actions)
      && var next := Final(st, parse, actions);
         && h in next.ranges && next.ranges[h] == path
         && (|BlocksOn(parse, s)| <= CACHE_SIZE ==> Find(next.cache, h) == Find(Keyed(BlocksOn(parse, s)), h)
                                                    && Find(next.cache, h).Some?)
  {
    var blocks := BlocksOn(parse, st.contents[path]);
    ReadFileIsLoaded(st, parse, path, 0, false);
    AllFromZero(blocks);
    RangesCoverHeights(Heights(blocks), h);
    RecordedHeights(st.ranges, Ranges(Heights(blocks)), path, h);
    FindKeyed(blocks, h);
    if |blocks| <= CACHE_SIZE {
      BatchIsFound(st.cache, CACHE_SIZE, Keyed(blocks), h);
    }
  }

  // ---------- A torn line that is recorded ----------

  lemma OneAction(st: Store, parse: BlockParser, a: Action, rest: seq<Action>)
    requires Enabled(st, a) && IsRun(Act(st, parse, a), parse, rest)
    ensures IsRun(st, parse, [a] + rest)
    ensures Final(st, parse, [a] + rest) == Final(Act(st, parse, a), parse, rest)
  {
    assert ([a] + rest)[1..] == rest;
  }

  /** One file and one stream of it, with nothing cached or recorded. */
  function Lone(path: Path, s: Bytes, pos: nat, lines: seq<Bytes>): Store
  {
    Store(map[path := s], [Reader(path, pos, lines)], [], map[])
  }

  /** A write, an opening and an error leave a stream anywhere within a line. */
  lemma FailureLeavesStream(parse: BlockParser, path: Path, s: Bytes, n: nat, rest: seq<Action>)
    requires Consumed(s, 0, n) && IsRun(Lone(path, s, n, []), parse, rest)
    ensures
      var actions := [Write(path, s)] + ([Open(path)] + ([Fail(0, n)] + rest));
      IsRun(EMPTY, parse, actions) && Final(EMPTY, parse, actions) == Final(Lone(path, s, n, []), parse, rest)
  {
    var written := Written(EMPTY, path, s);
    assert [] + s == s;
    assert Act(written, parse, Open(path)) == Lone(path, s, 0, []);
    assert Act(Lone(path, s, 0, []), parse, Fail(0, n)) == Lone(path, s, n, []);
    OneAction(Lone(path, s, 0, []), parse, Fail(0, n), rest);
    OneAction(written, parse, Open(path), [Fail(0, n)] + rest);
    OneAction(EMPTY, parse, Write(path, s), [Open(path)] + ([Fail(0, n)] + rest));
  }

  /** Then it reads on and loads. */
  lemma ReadAndLoad(st: Store, parse: BlockParser, r: nat, start: nat, only: bool)
    requires Enabled(st, Read(r))
    ensures
      var actions := [Read(r)] + ([Load(r, start, only)] + []);
      && IsRun(st, parse, actions)
      && Final(st, parse, actions).ranges == Recording(AfterRead(st, r), parse, r)
      && Final(st, parse, actions).contents == st.contents
  {
    OneAction(AfterRead(st, r), parse, Load(r, start, only), []);
    OneAction(st, parse, Read(r), [Load(r, start, only)] + []);
  }

  /** A line of one byte is a block of that height. */
  function OneByte(line: Bytes): Option<Block>
  {
    if |line| == 1 then Some(Block(line[0] as nat, 0)) else None
  }

  lemma SecondByteIsHarmful()
    ensures !Harmless(OneByte, AB, 1)
  {
    LinesOfAB();
    var lines: seq<Bytes> := [[97, 98]];
    assert lines[..0] == [];
    assert ParseLine(OneByte, [97, 98]).None? && ParseLine(OneByte, [98]) == Some(Block(98, 0));
    assert Blocks(OneByte, lines) == [];
  }

  lemma FiveActions(a: Action, b: Action, c: Action, d: Action, e: Action)
    ensures [a, b, c, d, e] == [a] + ([b] + ([c] + ([d] + ([e] + []))))
  {
  }

  lemma TornRun(parse: BlockParser, path: Path, s: Bytes, n: nat, start: nat, only: bool) returns (actions: seq<Action>)
    requires n <= |s| && Consumed(s, 0, n) && !Harmless(parse, s, n)
    ensures actions == [Write(path, s), Open(path), Fail(0, n), Read(0), Load(0, start, only)]
    ensures IsRun(EMPTY, parse, actions)
    ensures var st := Final(EMPTY, parse, actions); !Backed(st.ranges, st.contents, parse)
  {
    var torn, rest := Lone(path, s, n, []), [Read(0)] + ([Load(0, start, only)] + []);
    actions := [Write(path, s)] + ([Open(path)] + ([Fail(0, n)] + rest));
    FiveActions(Write(path, s), Open(path), Fail(0, n), Read(0), Load(0, start, only));
    ReadIsBackedIff(torn, parse, 0);
    ReadAndLoad(torn, parse, 0, start, only);
    FailureLeavesStream(parse, path, s, n, rest);
  }

  /** The file "ab" holds no block, yet behind an error after its first byte height 98 is recorded for it. */
  lemma TornLineIsRecorded(path: Path, start: nat, only: bool)
    ensures
      var actions := [Write(path, AB), Open(path), Fail(0, 1), Read(0), Load(0, start, only)];
      && IsRun(EMPTY, OneByte, actions)
      && var st := Final(EMPTY, OneByte, actions); !Backed(st.ranges, st.contents, OneByte)
  {
    LinesOfAB();
    SecondByteIsHarmful();
    var _ := TornRun(OneByte, path, AB, 1, start, only);
  }
}
