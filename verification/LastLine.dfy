/** Finding the last block of an hourly file by reading it backwards in chunks. */
module LastLine {
  import opened Common
  import opened Utf8

  const CHUNK_SIZE: nat := 50_000

  /** A line parser; what it extracts is left open. */
  type Parser = Bytes -> Option<nat>

  datatype Outcome = Found(block: nat) | NotFound | Panicked

  function Parsed(parse: Parser, line: Bytes): Option<nat> { parse(line) }

  /** The parser accepts single, non-empty lines only. */
  ghost predicate LineParser(parse: Parser)
  {
    forall s: Bytes {:trigger Parsed(parse, s)} :: Parsed(parse, s).Some? ==> s != [] && LastNewline(s).None?
  }

  /** The last newline among the first `n` bytes. */
  function NewlineBefore(text: Bytes, n: nat): (i: Option<nat>)
    requires n <= |text|
    ensures i.Some? ==> i.value < n
  {
    if n == 0 then None
    else if text[n - 1] == NEWLINE then Some(n - 1)
    else NewlineBefore(text, n - 1)
  }

  lemma {:induction false} NewlineBeforeIsLast(text: Bytes, n: nat)
    requires n <= |text|
    ensures match NewlineBefore(text, n)
            case None => forall k :: 0 <= k < n ==> text[k] != NEWLINE
            case Some(i) => text[i] == NEWLINE && forall k :: i < k < n ==> text[k] != NEWLINE
  {
    if n > 0 && text[n - 1] != NEWLINE {
      NewlineBeforeIsLast(text, n - 1);
    }
  }

  function LastNewline(text: Bytes): (i: Option<nat>)
    ensures i.Some? ==> i.value < |text|
  {
    NewlineBefore(text, |text|)
  }

  function WithoutFinalNewline(text: Bytes): Bytes
  {
    if text != [] && text[|text| - 1] == NEWLINE then text[..|text| - 1] else text
  }

  /** What follows the last newline. */
  function AfterNewline(text: Bytes): Bytes
  {
    match LastNewline(text) case None => text case Some(i) => text[i + 1..]
  }

  /** The file's last line, terminated or not. */
  function FinalLine(text: Bytes): Bytes
  {
    AfterNewline(WithoutFinalNewline(text))
  }

  /** The last line that parses, looking at every line. */
  function LastParseable(parse: Parser, text: Bytes): Option<nat>
    decreases |text|
  {
    match LastNewline(text)
    case None => Parsed(parse, text)
    case Some(i) =>
      if Parsed(parse, text[i + 1..]).Some? then Parsed(parse, text[i + 1..]) else LastParseable(parse, text[..i])
  }

  /** The last newline of a text's end, if there is one, is the last of the text. */
  lemma {:induction false} NewlineInSuffix(front: Bytes, end: Bytes, n: nat)
    requires n <= |end| && NewlineBefore(end, n).Some?
    ensures NewlineBefore(front + end, |front| + n) == Some(|front| + NewlineBefore(end, n).value)
  {
    assert (front + end)[|front| + n - 1] == end[n - 1];
    if end[n - 1] != NEWLINE {
      NewlineInSuffix(front, end, n - 1);
    }
  }

  lemma BlankTailIsSkipped(parse: Parser, text: Bytes)
    requires LineParser(parse) && text != [] && text[|text| - 1] == NEWLINE
    ensures LastParseable(parse, text) == LastParseable(parse, text[..|text| - 1])
  {
    assert text[|text| - 1 + 1..] == [];
  }

  lemma PiecesAreValid(text: Bytes, i: nat)
    requires ValidUtf8(text) && i < |text| && text[i] == NEWLINE
    ensures ValidUtf8(text[..i]) && ValidUtf8(text[i + 1..])
  {
    assert text == text[..i] + [NEWLINE] + text[i + 1..];
    ValidByLine(text[..i], text[i + 1..]);
  }

  /** Everything ahead of the final line and the newline before it. */
  function BeforeFinalLine(content: Bytes): Bytes
  {
    var t := WithoutFinalNewline(content);
    match LastNewline(t) case None => [] case Some(i) => t[..i]
  }

  // ---------- The search ----------

  /** The file cut from its end into chunks; only the first one may be short. */
  function Chunks(content: Bytes): seq<Bytes>
  {
    if content == [] then []
    else
      var n := |content| - Min(|content|, CHUNK_SIZE);
      Chunks(content[..n]) + [content[n..]]
  }

  function Join(chunks: seq<Bytes>): Bytes
  {
    if chunks == [] then [] else Join(chunks[..|chunks| - 1]) + chunks[|chunks| - 1]
  }

  predicate LongChunks(chunks: seq<Bytes>)
  {
    forall i :: 1 <= i < |chunks| ==> |chunks[i]| >= 2
  }

  lemma {:induction false} ChunksCover(content: Bytes)
    ensures Join(Chunks(content)) == content && LongChunks(Chunks(content))
  {
    if content != [] {
      var n := |content| - Min(|content|, CHUNK_SIZE);
      ChunksCover(content[..n]);
      assert Chunks(content)[..|Chunks(content)| - 1] == Chunks(content[..n]);
      assert content == content[..n] + content[n..];
    }
  }

  /** A chunk is put ahead of what is kept, and a newline at the very end dropped. */
  function WithChunk(chunk: Bytes, lastLine: Bytes): Bytes
  {
    WithoutFinalNewline(chunk + lastLine)
  }

  function Tried(parse: Parser, line: Bytes): Outcome
  {
    if !ValidUtf8(line) then Panicked
    else match Parsed(parse, line) case None => NotFound case Some(block) => Found(block)
  }

  /** What testing the last line of what is kept leads to: an answer, or less to keep. */
  datatype Step = Done(outcome: Outcome) | Keep(line: Bytes)

  function Examine(parse: Parser, kept: Bytes): Step
  {
    match LastNewline(kept)
    case None => Keep(kept)
    case Some(i) =>
      var r := Tried(parse, kept[i + 1..]);
      if r.NotFound? then Keep(kept[..i]) else Done(r)
  }

  /** The answer when these chunks are unread and `lastLine` is kept of the others. */
  function Search(parse: Parser, chunks: seq<Bytes>, lastLine: Bytes): Outcome
    decreases |chunks|
  {
    if chunks == [] then Tried(parse, lastLine)
    else
      match Examine(parse, WithChunk(chunks[|chunks| - 1], lastLine))
      case Done(r) => r
      case Keep(kept) => Search(parse, chunks[..|chunks| - 1], kept)
  }

  lemma TrimSuffix(front: Bytes, end: Bytes)
    requires end != []
    ensures WithoutFinalNewline(front + end) == front + WithoutFinalNewline(end)
  {
    assert (front + end)[..|front + end| - 1] == front + end[..|end| - 1];
  }

  lemma ReadingKeepsText(chunks: seq<Bytes>, lastLine: Bytes)
    requires chunks != [] && chunks[|chunks| - 1] != []
    ensures Join(chunks[..|chunks| - 1]) + WithChunk(chunks[|chunks| - 1], lastLine)
         == WithoutFinalNewline(Join(chunks) + lastLine)
  {
    var front, chunk := Join(chunks[..|chunks| - 1]), chunks[|chunks| - 1];
    TrimSuffix(front, chunk + lastLine);
    Associates(front, chunk, lastLine);
  }

  /** Splitting what is kept at its last newline splits the text there. */
  lemma SplitAtNewline(front: Bytes, kept: Bytes, i: nat)
    requires LastNewline(kept) == Some(i)
    ensures LastNewline(front + kept) == Some(|front| + i)
    ensures (front + kept)[|front| + i + 1..] == kept[i + 1..]
    ensures (front + kept)[..|front| + i] == front + kept[..i]
    ensures (front + kept)[|front| + i] == NEWLINE
  {
    NewlineInSuffix(front, kept, |kept|);
    NewlineBeforeIsLast(kept, |kept|);
  }

  predicate NonEmpty(chunks: seq<Bytes>)
  {
    forall i :: 0 <= i < |chunks| ==> chunks[i] != []
  }

  // ---------- A valid file never panics ----------

  lemma TrimKeepsValidity(text: Bytes)
    requires ValidUtf8(text)
    ensures ValidUtf8(WithoutFinalNewline(text))
  {
    if WithoutFinalNewline(text) != text {
      PiecesAreValid(text, |text| - 1);
    }
  }

  lemma SplitKeepsValidity(front: Bytes, kept: Bytes, i: nat)
    requires ValidUtf8(front + kept) && LastNewline(kept) == Some(i)
    ensures ValidUtf8(kept[i + 1..]) && ValidUtf8(front + kept[..i])
  {
    SplitAtNewline(front, kept, i);
    PiecesAreValid(front + kept, |front| + i);
  }

  lemma {:induction false} ValidFilesNeverPanic(parse: Parser, chunks: seq<Bytes>, lastLine: Bytes)
    requires NonEmpty(chunks) && ValidUtf8(Join(chunks) + lastLine)
    ensures !Search(parse, chunks, lastLine).Panicked?
    decreases |chunks|
  {
    if chunks == [] {
      assert [] + lastLine == lastLine;
    } else {
      var rest, longer := chunks[..|chunks| - 1], WithChunk(chunks[|chunks| - 1], lastLine);
      TrimKeepsValidity(Join(chunks) + lastLine);
      ReadingKeepsText(chunks, lastLine);
      match LastNewline(longer)
      case None => ValidFilesNeverPanic(parse, rest, longer);
      case Some(i) =>
        SplitKeepsValidity(Join(rest), longer, i);
        ValidFilesNeverPanic(parse, rest, longer[..i]);
    }
  }

  // ---------- Whatever is found is the last parseable line ----------

  lemma TrimKeepsLastParseable(parse: Parser, text: Bytes)
    requires LineParser(parse)
    ensures LastParseable(parse, WithoutFinalNewline(text)) == LastParseable(parse, text)
  {
    if WithoutFinalNewline(text) != text {
      BlankTailIsSkipped(parse, text);
    }
  }

  lemma SplitKeepsLastParseable(parse: Parser, front: Bytes, kept: Bytes, i: nat)
    requires LastNewline(kept) == Some(i)
    ensures
      var candidate := Parsed(parse, kept[i + 1..]);
      LastParseable(parse, front + kept) ==
      if candidate.Some? then candidate else LastParseable(parse, front + kept[..i])
  {
    SplitAtNewline(front, kept, i);
  }

  lemma {:induction false} FoundIsLastParseable(parse: Parser, chunks: seq<Bytes>, lastLine: Bytes)
    requires NonEmpty(chunks) && LineParser(parse)
    ensures
      var r := Search(parse, chunks, lastLine);
      r.Found? ==> LastParseable(parse, Join(chunks) + lastLine) == Some(r.block)
    decreases |chunks|
  {
    if chunks == [] {
      assert [] + lastLine == lastLine;
    } else {
      var rest, longer := chunks[..|chunks| - 1], WithChunk(chunks[|chunks| - 1], lastLine);
      TrimKeepsLastParseable(parse, Join(chunks) + lastLine);
      ReadingKeepsText(chunks, lastLine);
      match LastNewline(longer)
      case None => FoundIsLastParseable(parse, rest, longer);
      case Some(i) =>
        SplitKeepsLastParseable(parse, Join(rest), longer, i);
        FoundIsLastParseable(parse, rest, longer[..i]);
    }
  }

  // ---------- The final line is tried first ----------

  lemma NothingToTrim(front: Bytes, kept: Bytes)
    requires LastNewline(kept).None? && (kept == [] ==> front == [])
    ensures WithoutFinalNewline(front + kept) == front + kept
  {
    NewlineBeforeIsLast(kept, |kept|);
    assert kept != [] ==> (front + kept)[|front + kept| - 1] == kept[|kept| - 1];
  }

  lemma AfterSuffixNewline(front: Bytes, kept: Bytes, i: nat)
    requires LastNewline(kept) == Some(i)
    ensures AfterNewline(front + kept) == kept[i + 1..]
  {
    SplitAtNewline(front, kept, i);
  }

  /** However many chunks it spans, the final line is the first candidate. */
  lemma {:induction false} FinalLineIsTriedFirst(parse: Parser, chunks: seq<Bytes>, lastLine: Bytes)
    requires NonEmpty(chunks) && LongChunks(chunks) && LastNewline(lastLine).None?
    ensures
      var first := Tried(parse, FinalLine(Join(chunks) + lastLine));
      !first.NotFound? ==> Search(parse, chunks, lastLine) == first
    decreases |chunks|
  {
    if chunks == [] {
      NothingToTrim([], lastLine);
      assert [] + lastLine == lastLine;
    } else {
      var rest, longer := chunks[..|chunks| - 1], WithChunk(chunks[|chunks| - 1], lastLine);
      ReadingKeepsText(chunks, lastLine);
      match LastNewline(longer)
      case None =>
        NothingToTrim(Join(rest), longer);
        FinalLineIsTriedFirst(parse, rest, longer);
      case Some(i) => AfterSuffixNewline(Join(rest), longer, i);
    }
  }

  // ---------- Which lines are tried ----------

  /** What the reader may try, in order: one line per chunk that completes one, then all that is left. */
  function Candidates(chunks: seq<Bytes>, lastLine: Bytes): seq<Bytes>
    decreases |chunks|
  {
    if chunks == [] then [lastLine]
    else
      var rest, kept := chunks[..|chunks| - 1], WithChunk(chunks[|chunks| - 1], lastLine);
      match LastNewline(kept)
      case None => Candidates(rest, kept)
      case Some(i) => [kept[i + 1..]] + Candidates(rest, kept[..i])
  }

  function Newlines(k: nat): Bytes
  {
    if k == 0 then [] else Newlines(k - 1) + [NEWLINE]
  }

  /** The text that has these pieces from its end to its start, a newline between two, and more behind each. */
  function Rebuilt(pieces: seq<Bytes>, blanks: seq<nat>): Bytes
    requires |pieces| == |blanks| > 0
  {
    var end := pieces[0] + Newlines(blanks[0]);
    if |pieces| == 1 then end else Rebuilt(pieces[1..], blanks[1..]) + ([NEWLINE] + end)
  }

  function Total(blanks: seq<nat>): nat
  {
    if blanks == [] then 0 else blanks[0] + Total(blanks[1..])
  }

  /**
   Read from its end, the text is made of these pieces, without a gap but for at most `extra` newlines,
   and all of them but the last are single lines of it.
   */
  ghost predicate Spells(text: Bytes, pieces: seq<Bytes>, blanks: seq<nat>, extra: nat)
  {
    && |pieces| == |blanks| > 0 && Rebuilt(pieces, blanks) == text && Total(blanks) <= extra
    && forall j :: 0 <= j < |pieces| - 1 ==> NEWLINE !in pieces[j]
  }

  lemma OneMoreBlank(pieces: seq<Bytes>, blanks: seq<nat>)
    requires |pieces| == |blanks| > 0
    ensures
      var more := blanks[0 := blanks[0] + 1];
      Rebuilt(pieces, more) == Rebuilt(pieces, blanks) + [NEWLINE] && Total(more) == Total(blanks) + 1
  {
    var end := pieces[0] + Newlines(blanks[0]);
    assert blanks[0 := blanks[0] + 1][1..] == blanks[1..];
    assert pieces[0] + Newlines(blanks[0] + 1) == end + [NEWLINE] by {
      Associates(pieces[0], Newlines(blanks[0]), [NEWLINE]);
    }
    if |pieces| > 1 {
      var front := Rebuilt(pieces[1..], blanks[1..]);
      Associates([NEWLINE], end, [NEWLINE]);
      Associates(front, [NEWLINE] + end, [NEWLINE]);
    }
  }

  lemma OneMorePiece(line: Bytes, t: nat, pieces: seq<Bytes>, blanks: seq<nat>)
    requires |pieces| == |blanks| > 0
    ensures Rebuilt([line] + pieces, [t] + blanks) == Rebuilt(pieces, blanks) + ([NEWLINE] + (line + Newlines(t)))
    ensures Total([t] + blanks) == t + Total(blanks)
  {
    assert ([line] + pieces)[1..] == pieces && ([t] + blanks)[1..] == blanks;
  }

  lemma Regroup(front: Bytes, before: Bytes, line: Bytes, tail: Bytes)
    ensures front + before + ([NEWLINE] + (line + tail)) == front + (before + [NEWLINE] + line + tail)
  {
  }

  lemma SplitAround(text: Bytes, i: nat)
    requires i < |text| && text[i] == NEWLINE
    ensures text[..i] + [NEWLINE] + text[i + 1..] == text
  {
  }

  lemma SpellsBlank(text: Bytes, pieces: seq<Bytes>, blanks: seq<nat>, extra: nat)
    requires Spells(text, pieces, blanks, extra)
    ensures Spells(text + [NEWLINE], pieces, blanks[0 := blanks[0] + 1], extra + 1)
  {
    OneMoreBlank(pieces, blanks);
  }

  lemma SpellsLine(front: Bytes, kept: Bytes, i: nat, pieces: seq<Bytes>, blanks: seq<nat>, extra: nat, t: nat)
    requires LastNewline(kept) == Some(i) && Spells(front + kept[..i], pieces, blanks, extra)
    ensures Spells(front + (kept + Newlines(t)), [kept[i + 1..]] + pieces, [t] + blanks, extra + t)
  {
    NewlineBeforeIsLast(kept, |kept|);
    SplitAround(kept, i);
    OneMorePiece(kept[i + 1..], t, pieces, blanks);
    Regroup(front, kept[..i], kept[i + 1..], Newlines(t));
  }

  lemma KeptOfChunk(chunk: Bytes, lastLine: Bytes) returns (t: nat)
    ensures chunk + lastLine == WithChunk(chunk, lastLine) + Newlines(t) && t <= 1
  {
    var all := chunk + lastLine;
    if all != [] && all[|all| - 1] == NEWLINE {
      t := 1;
      InitAndLast(all);
      assert Newlines(1) == [NEWLINE];
    } else {
      t := 0;
    }
  }

  /** Which lines of the file the candidates are; at most one newline is passed over per chunk. */
  lemma {:induction false} CandidatesSpellFile(chunks: seq<Bytes>, lastLine: Bytes) returns (blanks: seq<nat>)
    ensures Spells(Join(chunks) + lastLine, Candidates(chunks, lastLine), blanks, |chunks|)
    decreases |chunks|
  {
    if chunks == [] {
      blanks := [0];
      assert Newlines(0) == [] && [] + lastLine == lastLine;
    } else {
      var n := |chunks| - 1;
      var rest, kept := chunks[..n], WithChunk(chunks[n], lastLine);
      var t := KeptOfChunk(chunks[n], lastLine);
      Associates(Join(rest), chunks[n], lastLine);
      match LastNewline(kept)
      case None =>
        blanks := CandidatesSpellFile(rest, kept);
        Associates(Join(rest), kept, Newlines(t));
        if t == 1 {
          SpellsBlank(Join(rest) + kept, Candidates(rest, kept), blanks, n);
          blanks := blanks[0 := blanks[0] + 1];
          assert Newlines(1) == [NEWLINE];
        }
      case Some(i) =>
        var before := CandidatesSpellFile(rest, kept[..i]);
        blanks := [t] + before;
        SpellsLine(Join(rest), kept, i, Candidates(rest, kept[..i]), before, n, t);
    }
  }

  /** The first line that parses; one that is not UTF-8 ends the search. */
  function TryEach(parse: Parser, lines: seq<Bytes>): Outcome
  {
    if lines == [] then NotFound
    else
      var r := Tried(parse, lines[0]);
      if r.NotFound? then TryEach(parse, lines[1..]) else r
  }

  /** The search tries the candidates, which the file alone determines, and nothing else. */
  lemma {:induction false} SearchTriesCandidates(parse: Parser, chunks: seq<Bytes>, lastLine: Bytes)
    ensures Search(parse, chunks, lastLine) == TryEach(parse, Candidates(chunks, lastLine))
    decreases |chunks|
  {
    if chunks != [] {
      var rest, kept := chunks[..|chunks| - 1], WithChunk(chunks[|chunks| - 1], lastLine);
      match LastNewline(kept)
      case None => SearchTriesCandidates(parse, rest, kept);
      case Some(i) =>
        SearchTriesCandidates(parse, rest, kept[..i]);
        assert ([kept[i + 1..]] + Candidates(rest, kept[..i]))[1..] == Candidates(rest, kept[..i]);
    }
  }

  predicate AnyParses(parse: Parser, lines: seq<Bytes>)
  {
    exists i :: 0 <= i < |lines| && Parsed(parse, lines[i]).Some?
  }

  lemma {:induction false} FoundIffAnyParses(parse: Parser, lines: seq<Bytes>)
    requires !TryEach(parse, lines).Panicked?
    ensures TryEach(parse, lines).Found? <==> AnyParses(parse, lines)
  {
    if lines != [] {
      if Tried(parse, lines[0]).NotFound? {
        FoundIffAnyParses(parse, lines[1..]);
        AnyParsesInRest(parse, lines);
      } else {
        assert Parsed(parse, lines[0]).Some?;
      }
    }
  }

  lemma AnyParsesInRest(parse: Parser, lines: seq<Bytes>)
    requires lines != [] && Parsed(parse, lines[0]).None?
    ensures AnyParses(parse, lines) <==> AnyParses(parse, lines[1..])
  {
    if AnyParses(parse, lines) {
      var i :| 0 <= i < |lines| && Parsed(parse, lines[i]).Some?;
      assert lines[1..][i - 1] == lines[i];
    }
    if AnyParses(parse, lines[1..]) {
      var i :| 0 <= i < |lines[1..]| && Parsed(parse, lines[1..][i]).Some?;
      assert lines[i + 1] == lines[1..][i];
    }
  }

  // ---------- The reader ----------

  lemma {:induction false} ChunksAreNonEmpty(content: Bytes)
    ensures NonEmpty(Chunks(content))
  {
    if content != [] {
      ChunksAreNonEmpty(content[..|content| - Min(|content|, CHUNK_SIZE)]);
    }
  }

  lemma ChunksOfPrefix(content: Bytes, pos: nat)
    requires 0 < pos <= |content|
    ensures
      var n := pos - Min(pos, CHUNK_SIZE);
      Chunks(content[..pos]) == Chunks(content[..n]) + [content[n..pos]]
  {
    var n := pos - Min(pos, CHUNK_SIZE);
    assert content[..pos][..n] == content[..n] && content[..pos][n..] == content[n..pos];
  }

  lemma SearchFromPrefix(parse: Parser, content: Bytes, pos: nat, lastLine: Bytes)
    requires 0 < pos <= |content|
    ensures
      var n := pos - Min(pos, CHUNK_SIZE);
      Search(parse, Chunks(content[..pos]), lastLine) ==
      match Examine(parse, WithChunk(content[n..pos], lastLine))
      case Done(r) => r
      case Keep(kept) => Search(parse, Chunks(content[..n]), kept)
  {
    var chunks := Chunks(content[..pos]);
    ChunksOfPrefix(content, pos);
    assert chunks[..|chunks| - 1] == Chunks(content[..pos - Min(pos, CHUNK_SIZE)]);
  }

  /** What a reader that missed nothing would answer. */
  function Ideal(parse: Parser, content: Bytes): Outcome
  {
    match LastParseable(parse, content) case None => NotFound case Some(block) => Found(block)
  }

  /**
   Is the answer the last parseable line of the file, whatever its size? Exactly if there is none, or
   one of the candidates parses.
   */
  lemma AnswerIsIdealIff(parse: Parser, content: Bytes)
    requires LineParser(parse) && ValidUtf8(content)
    ensures Search(parse, Chunks(content), []) == Ideal(parse, content)
       <==> LastParseable(parse, content).None? || AnyParses(parse, Candidates(Chunks(content), []))
  {
    SearchIsRight(content, parse);
    SearchTriesCandidates(parse, Chunks(content), []);
    FoundIffAnyParses(parse, Candidates(Chunks(content), []));
  }

  /** `read_last_complete_line` on a file with this content. */
  method ReadLastCompleteLine(content: Bytes, parse: Parser) returns (r: Outcome)
    ensures ValidUtf8(content) ==> !r.Panicked?
    ensures LineParser(parse) && r.Found? ==> LastParseable(parse, content) == Some(r.block)
    ensures !Tried(parse, FinalLine(content)).NotFound? ==> r == Tried(parse, FinalLine(content))
    ensures r == TryEach(parse, Candidates(Chunks(content), []))
    ensures LineParser(parse) && ValidUtf8(content) ==>
              (r == Ideal(parse, content)
               <==> LastParseable(parse, content).None? || AnyParses(parse, Candidates(Chunks(content), [])))
  {
    r := ReadBackwards(content, parse);
    SearchIsRight(content, parse);
    SearchTriesCandidates(parse, Chunks(content), []);
    if LineParser(parse) && ValidUtf8(content) {
      AnswerIsIdealIff(parse, content);
    }
  }

  lemma SearchIsRight(content: Bytes, parse: Parser)
    ensures
      var r := Search(parse, Chunks(content), []);
      && (ValidUtf8(content) ==> !r.Panicked?)
      && (LineParser(parse) && r.Found? ==> LastParseable(parse, content) == Some(r.block))
      && (!Tried(parse, FinalLine(content)).NotFound? ==> r == Tried(parse, FinalLine(content)))
  {
    ChunksCover(content);
    ChunksAreNonEmpty(content);
    assert Join(Chunks(content)) + [] == content;
    if ValidUtf8(content) {
      ValidFilesNeverPanic(parse, Chunks(content), []);
    }
    if LineParser(parse) {
      FoundIsLastParseable(parse, Chunks(content), []);
    }
    FinalLineIsTriedFirst(parse, Chunks(content), []);
  }

  /** The first half of the loop body: prepend a chunk, drop a final newline. */
  method Prepend(buf: Bytes, lastLine: Bytes) returns (kept: Bytes)
    requires buf != []
    ensures kept == WithChunk(buf, lastLine)
  {
    kept := buf + lastLine;
    if kept[|kept| - 1] == NEWLINE {
      kept := kept[..|kept| - 1];
    }
  }

  /** The second half: try the last line, and drop it if it does not parse. */
  method TryLast(kept: Bytes, parse: Parser) returns (step: Step)
    ensures step == Examine(parse, kept)
  {
    var idx := LastNewline(kept);
    if idx.Some? {
      var result := Tried(parse, kept[idx.value + 1..]);
      if !result.NotFound? {
        return Done(result);
      }
      return Keep(kept[..idx.value]);
    }
    return Keep(kept);
  }

  /** The loop of `read_last_complete_line`. */
  method ReadBackwards(content: Bytes, parse: Parser) returns (r: Outcome)
    ensures r == Search(parse, Chunks(content), [])
  {
    var pos: nat := |content|;
    var lastLine: Bytes := [];
    ghost var answer := Search(parse, Chunks(content), []);
    assert content[..pos] == content;
    while pos > 0
      invariant pos <= |content|
      invariant Search(parse, Chunks(content[..pos]), lastLine) == answer
    {
      SearchFromPrefix(parse, content, pos, lastLine);
      var readSize := Min(pos, CHUNK_SIZE);
      var kept := Prepend(content[pos - readSize..pos], lastLine);
      var step := TryLast(kept, parse);
      if step.Done? {
        return step.outcome;
      }
      pos, lastLine := pos - readSize, step.line;
    }
    return Tried(parse, lastLine);
  }

  // ---------- Files of one chunk ----------

  lemma OneChunk(content: Bytes)
    requires 0 < |content| <= CHUNK_SIZE
    ensures Chunks(content) == [content]
  {
    ChunksOfPrefix(content, |content|);
    assert content[..|content|] == content && content[0..|content|] == content;
    assert content[..0] == [] && Chunks([]) == [];
  }

  lemma CandidatesOfOne(content: Bytes)
    ensures LastNewline(WithoutFinalNewline(content)).None? ==>
              Candidates([content], []) == [WithoutFinalNewline(content)]
    ensures LastNewline(WithoutFinalNewline(content)).Some? ==>
              Candidates([content], []) == [FinalLine(content), BeforeFinalLine(content)]
  {
    assert content + [] == content && [content][..0] == [];
  }

  lemma LastParseableOfSplit(parse: Parser, text: Bytes, i: nat)
    requires LineParser(parse) && LastNewline(text) == Some(i) && Parsed(parse, text[i + 1..]).None?
    requires LastParseable(parse, text).Some?
    ensures Parsed(parse, text[..i]).Some? <==> LastNewline(text[..i]).None?
  {
  }

  lemma AnyOfTwo(parse: Parser, a: Bytes, b: Bytes)
    ensures AnyParses(parse, [a, b]) <==> Parsed(parse, a).Some? || Parsed(parse, b).Some?
  {
    assert [a, b][0] == a && [a, b][1] == b;
  }

  lemma AnyOfOneChunk(parse: Parser, content: Bytes)
    requires LineParser(parse) && LastParseable(parse, content).Some?
    ensures AnyParses(parse, Candidates([content], []))
       <==> Parsed(parse, FinalLine(content)).Some? || LastNewline(BeforeFinalLine(content)).None?
  {
    var text := WithoutFinalNewline(content);
    CandidatesOfOne(content);
    TrimKeepsLastParseable(parse, content);
    match LastNewline(text)
    case None => assert Parsed(parse, [text][0]).Some?;
    case Some(i) =>
      AnyOfTwo(parse, FinalLine(content), BeforeFinalLine(content));
      if Parsed(parse, FinalLine(content)).None? {
        LastParseableOfSplit(parse, text, i);
      }
  }

  /**
   For a file of one chunk: exactly if there is no such line, or the final line parses, or at most
   one line precedes the final one.
   */
  lemma OneChunkIsIdealIff(parse: Parser, content: Bytes)
    requires LineParser(parse) && ValidUtf8(content) && |content| <= CHUNK_SIZE
    ensures Search(parse, Chunks(content), []) == Ideal(parse, content)
       <==> || LastParseable(parse, content).None?
            || Parsed(parse, FinalLine(content)).Some?
            || LastNewline(BeforeFinalLine(content)).None?
  {
    AnswerIsIdealIff(parse, content);
    if LastParseable(parse, content).Some? {
      OneChunk(content);
      AnyOfOneChunk(parse, content);
    }
  }

  /** A parser that accepts the line "2". */
  function OnlyTwo(line: Bytes): Option<nat>
  {
    if line == [50] then Some(2) else None
  }

  /** "1", "2" and an unfinished "3": the complete line "2" is missed. */
  lemma UnfinishedLineHidesOthers()
    ensures
      var content: Bytes := [49, NEWLINE, 50, NEWLINE, 51];
      Search(OnlyTwo, Chunks(content), []) == NotFound && Ideal(OnlyTwo, content) == Found(2)
  {
    var content: Bytes := [49, NEWLINE, 50, NEWLINE, 51];
    assert WithoutFinalNewline(content) == content;
    assert NewlineBefore(content, 4) == Some(3);
    assert LastNewline(content) == Some(3);
    var rest := content[..3];
    assert NewlineBefore(rest, 2) == Some(1);
    assert LastNewline(rest) == Some(1) && rest[2..] == [50] && content[4..] == [51];
    assert FinalLine(content) == [51] && BeforeFinalLine(content) == rest;
    assert ValidFrom([51], 1) && ValidFrom(rest, 3) && ValidFrom(rest, 2) && ValidFrom(rest, 1);
    assert LastParseable(OnlyTwo, rest) == Some(2);
    OneChunk(content);
    CandidatesOfOne(content);
    SearchTriesCandidates(OnlyTwo, Chunks(content), []);
    assert [[51], rest][1..] == [rest] && [rest][1..] == [];
    assert TryEach(OnlyTwo, [rest]) == NotFound;
  }
}
