/** Reading the lines of an hourly file that hl-node is still writing to. */
module Tailing {
  import opened Common
  import opened Utf8

  // ---------- Lines of a file ----------

  /** Just behind the line that `at` lies in: behind its newline, or the end of the file. */
  function LineEnd(s: Bytes, at: nat): (e: nat)
    requires at <= |s|
    ensures at <= e <= |s|
    ensures at < |s| ==> at < e
    decreases |s| - at
  {
    if at == |s| then at else if s[at] == NEWLINE then at + 1 else LineEnd(s, at + 1)
  }

  /** The line that `at` lies in has its newline. */
  predicate Terminated(s: Bytes, at: nat)
    requires at <= |s|
  {
    at < |s| && s[LineEnd(s, at) - 1] == NEWLINE
  }

  /** What a line is read as; one that is not UTF-8 counts as blank. */
  function Decoded(line: Bytes): Bytes
  {
    if ValidUtf8(line) then line else []
  }

  /** The complete lines from `at` on. */
  function CompleteLines(s: Bytes, at: nat): seq<Bytes>
    requires at <= |s|
    decreases |s| - at
  {
    if !Terminated(s, at) then []
    else var e := LineEnd(s, at); [Decoded(s[at..e - 1])] + CompleteLines(s, e)
  }

  /** Where the unfinished line after them starts. */
  function TailStart(s: Bytes, at: nat): (t: nat)
    requires at <= |s|
    ensures at <= t <= |s|
    decreases |s| - at
  {
    if !Terminated(s, at) then at else TailStart(s, LineEnd(s, at))
  }

  lemma {:induction false} TailIsUnfinished(s: Bytes, at: nat)
    requires at <= |s|
    ensures var t := TailStart(s, at); CompleteLines(s, t) == [] && (t == at || s[t - 1] == NEWLINE)
    decreases |s| - at
  {
    if Terminated(s, at) {
      TailIsUnfinished(s, LineEnd(s, at));
    }
  }

  // ---------- The line stream ----------

  const CARRIAGE_RETURN: byte := 13

  /** The text without its last byte, if that is the given one. */
  function PopIf(text: Bytes, last: byte): Bytes
  {
    if text != [] && text[|text| - 1] == last then text[..|text| - 1] else text
  }

  /** What `next` makes of a line that ends in a newline. It looks for `\r` while the newline is still there. */
  function Chomped(line: Bytes): Bytes
    requires line != [] && line[|line| - 1] == NEWLINE
  {
    var text := PopIf(line, CARRIAGE_RETURN);
    text[..|text| - 1]
  }

  /** `LineStream::next` with the cursor at `at`: the line, if any, and the new cursor. */
  function NextLine(s: Bytes, at: nat): (r: (Option<Bytes>, nat))
    requires at <= |s|
    ensures at <= r.1 <= |s| && (r.0.Some? ==> at < r.1)
  {
    var e := LineEnd(s, at);
    if !ValidUtf8(s[at..e]) then (Some([]), e)
    else if Terminated(s, at) then (Some(Chomped(s[at..e])), e)
    else (None, at)
  }

  /** An error can strike after any bytes of the line that `at` lies in, but not behind its newline. */
  predicate Consumed(s: Bytes, at: nat, n: nat)
    requires at <= |s|
  {
    at + n <= |s| && (at + n == at || at + n < LineEnd(s, at) || !Terminated(s, at))
  }

  class HourFile {
    var content: Bytes

    constructor (initial: Bytes)
      ensures content == initial
    {
      content := initial;
    }

    /** The other process writes; it only ever appends. */
    method Append(bytes: Bytes)
      modifies this
      ensures content == old(content) + bytes
    {
      content := content + bytes;
    }
  }

  class LineStream {
    const file: HourFile
    var pos: nat

    predicate Valid()
      reads this, file
    {
      pos <= |file.content|
    }

    constructor (file: HourFile)
      ensures Valid() && this.file == file && pos == 0
    {
      this.file := file;
      pos := 0;
    }

    /**
     `next` where reading fails after some bytes: there is no line, and the cursor is not moved back. If the
     line was complete, the `next` after that delivers what is left of it.
     */
    method FailedNext(consumed: nat) returns (line: Option<Bytes>)
      requires Valid() && Consumed(file.content, pos, consumed)
      modifies `pos
      ensures Valid() && line == None && pos == old(pos) + consumed
      ensures Terminated(file.content, old(pos)) ==>
                var e := LineEnd(file.content, old(pos));
                pos < e && NextLine(file.content, pos) == (Some(Decoded(file.content[pos..e - 1])), e)
    {
      if Terminated(file.content, pos) {
        FaultTearsLine(file.content, pos, consumed);
      }
      pos := pos + consumed;
      return None;
    }

    method Next() returns (line: Option<Bytes>)
      requires Valid()
      modifies `pos
      ensures Valid() && (line, pos) == NextLine(file.content, old(pos))
    {
      // The cursor runs ahead to the end of the line, and back if the line is unfinished.
      var start, end := pos, LineEnd(file.content, pos);
      var buffer := file.content[pos..end];
      pos := end;
      if !ValidUtf8(buffer) {
        return Some([]);
      }
      if buffer != [] && buffer[|buffer| - 1] == NEWLINE {
        buffer := PopIf(buffer, CARRIAGE_RETURN);
        return Some(buffer[..|buffer| - 1]);
      }
      pos := start;
      return None;
    }
  }

  /** All lines a scan gets, and where it leaves the cursor. */
  function ReadAll(s: Bytes, at: nat): (r: (seq<Bytes>, nat))
    requires at <= |s|
    ensures at <= r.1 <= |s|
    decreases |s| - at
  {
    var (line, e) := NextLine(s, at);
    if line.None? then ([], e)
    else var (lines, end) := ReadAll(s, e); ([line.value] + lines, end)
  }

  /** A scan gets the complete lines; an unfinished one that cannot be decoded is taken for a blank line. */
  lemma {:induction false} ScanGetsCompleteLines(s: Bytes, at: nat)
    requires at <= |s|
    ensures
      var t := TailStart(s, at);
      ReadAll(s, at) ==
      if ValidUtf8(s[t..]) then (CompleteLines(s, at), t) else (CompleteLines(s, at) + [[]], |s|)
    decreases |s| - at
  {
    var e := LineEnd(s, at);
    if Terminated(s, at) {
      NextTerminated(s, at);
      ScanGetsCompleteLines(s, e);
      Associates([Decoded(s[at..e - 1])], CompleteLines(s, e), [[]]);
    } else {
      UnfinishedLineEnds(s, at);
      if !ValidUtf8(s[at..]) {
        assert ReadAll(s, |s|) == ([], |s|);
        assert [[]] + ReadAll(s, |s|).0 == CompleteLines(s, at) + [[]];
      }
    }
  }

  lemma {:induction false} UnfinishedLineEnds(s: Bytes, at: nat)
    requires at <= |s| && !Terminated(s, at)
    ensures LineEnd(s, at) == |s| && s[at..LineEnd(s, at)] == s[at..]
    decreases |s| - at
  {
    if at < |s| {
      assert s[at] != NEWLINE;
      if at + 1 < |s| {
        UnfinishedLineEnds(s, at + 1);
      }
    }
  }

  // ---------- Cutting a file in two ----------

  lemma {:induction false} LineBeforeCut(s: Bytes, at: nat, p: nat)
    requires at <= p <= |s|
    ensures Terminated(s[..p], at) <==> Terminated(s, at) && LineEnd(s, at) <= p
    ensures Terminated(s[..p], at) ==> LineEnd(s[..p], at) == LineEnd(s, at)
    ensures !Terminated(s[..p], at) ==> Terminated(s, p) == Terminated(s, at)
    ensures !Terminated(s[..p], at) && Terminated(s, at) ==> LineEnd(s, p) == LineEnd(s, at)
    ensures !Terminated(s[..p], at) ==> forall i :: at <= i < p ==> s[i] != NEWLINE
    decreases |s| - at
  {
    if at < p {
      if s[at] != NEWLINE {
        LineBeforeCut(s, at + 1, p);
      }
    } else if at < |s| && s[at] != NEWLINE {
      LineBeforeCut(s, at + 1, at + 1);
    }
  }

  /** The first line, if the cut leaves it whole, is the first line of both. */
  lemma FirstLineBeforeCut(s: Bytes, at: nat, p: nat) returns (line: Bytes)
    requires at <= p <= |s| && Terminated(s[..p], at)
    ensures Terminated(s, at) && LineEnd(s, at) <= p
    ensures CompleteLines(s, at) == [line] + CompleteLines(s, LineEnd(s, at))
    ensures CompleteLines(s[..p], at) == [line] + CompleteLines(s[..p], LineEnd(s, at))
  {
    LineBeforeCut(s, at, p);
    var e := LineEnd(s, at);
    line := Decoded(s[at..e - 1]);
    assert s[..p][at..e - 1] == s[at..e - 1];
  }

  /** Cut between lines, no line is changed. */
  lemma {:induction false} LinesOfParts(s: Bytes, at: nat, p: nat)
    requires at <= p <= |s| && (p == at || s[p - 1] == NEWLINE)
    ensures CompleteLines(s, at) == CompleteLines(s[..p], at) + CompleteLines(s, p)
    decreases |s| - at
  {
    if Terminated(s[..p], at) {
      var line := FirstLineBeforeCut(s, at, p);
      LinesOfParts(s, LineEnd(s, at), p);
      Associates([line], CompleteLines(s[..p], LineEnd(s, at)), CompleteLines(s, p));
    } else {
      LineBeforeCut(s, at, p);
      assert p == at;
    }
  }

  lemma {:induction false} TailFromLineStart(s: Bytes, at: nat, p: nat)
    requires at <= p <= |s| && (p == at || s[p - 1] == NEWLINE)
    ensures TailStart(s, at) == TailStart(s, p)
    decreases |s| - at
  {
    LineBeforeCut(s, at, p);
    if Terminated(s, at) && LineEnd(s, at) <= p {
      TailFromLineStart(s, LineEnd(s, at), p);
    } else {
      assert p == at;
    }
  }

  // ---------- Line endings and torn lines ----------

  /** A terminated line without its line ending, be it `\n` or `\r\n`. */
  function WithoutEnding(line: Bytes): Bytes
    requires line != []
  {
    var n := |line| - 1;
    if n > 0 && line[n - 1] == CARRIAGE_RETURN then line[..n - 1] else line[..n]
  }

  /**
   A line is delivered without its newline alone, as the test for `\r` never succeeds; so without its
   line ending exactly if that is not `\r\n`.
   */
  lemma EndingIsStrippedIff(s: Bytes, at: nat)
    requires at <= |s| && Terminated(s, at) && ValidUtf8(s[at..LineEnd(s, at)])
    ensures
      var e := LineEnd(s, at);
      && NextLine(s, at).0 == Some(s[at..e - 1])
      && (NextLine(s, at).0 == Some(WithoutEnding(s[at..e])) <==> !(e - 2 >= at && s[e - 2] == CARRIAGE_RETURN))
  {
    var e := LineEnd(s, at);
    var line := s[at..e];
    assert line[..|line| - 1] == s[at..e - 1];
    assert e - 2 >= at ==> line[|line| - 2] == s[e - 2];
  }

  /** The line "a" ending in `\r\n` is delivered with the `\r`. */
  lemma CarriageReturnStays()
    ensures
      var s: Bytes := [97, CARRIAGE_RETURN, NEWLINE];
      NextLine(s, 0) == (Some([97, CARRIAGE_RETURN]), 3) && WithoutEnding(s) == [97]
  {
    var s: Bytes := [97, CARRIAGE_RETURN, NEWLINE];
    assert LineEnd(s, 2) == 3 && LineEnd(s, 1) == 3 && LineEnd(s, 0) == 3;
    AsciiIsValid(s, 0);
    assert s[0..3] == s && s[0..2] == [97, CARRIAGE_RETURN];
  }

  /** Behind an I/O error that consumed part of a line, the rest of it is delivered as a line of its own. */
  lemma FaultTearsLine(s: Bytes, at: nat, n: nat)
    requires at <= |s| && Terminated(s, at) && Consumed(s, at, n)
    ensures
      var e := LineEnd(s, at);
      at + n < e && NextLine(s, at + n) == (Some(Decoded(s[at + n..e - 1])), e)
  {
    LineBeforeCut(s, at, at + n);
    NextTerminated(s, at + n);
  }

  // ---------- Where lines begin ----------

  /** What `next` yields for each kind of line. */
  lemma NextTerminated(s: Bytes, at: nat)
    requires at <= |s| && Terminated(s, at)
    ensures var e := LineEnd(s, at); NextLine(s, at) == (Some(Decoded(s[at..e - 1])), e)
  {
    var e := LineEnd(s, at);
    ValidWithNewline(s[at..e - 1]);
    assert s[at..e - 1] + [NEWLINE] == s[at..e];
    assert s[at..e][..e - at - 1] == s[at..e - 1];
  }

  lemma NextUnfinished(s: Bytes, at: nat)
    requires at <= |s| && !Terminated(s, at)
    ensures NextLine(s, at) == if ValidUtf8(s[at..]) then (None, at) else (Some([]), |s|)
    ensures CompleteLines(s, at) == []
  {
    UnfinishedLineEnds(s, at);
  }

  lemma LineAlone(s: Bytes, at: nat)
    requires at <= |s| && Terminated(s, at)
    ensures var e := LineEnd(s, at); CompleteLines(s[..e], at) == [Decoded(s[at..e - 1])]
  {
    var e := LineEnd(s, at);
    LineBeforeCut(s, at, e);
    assert s[..e][at..e - 1] == s[at..e - 1];
    assert CompleteLines(s[..e], e) == [];
  }

  lemma PrefixOfPrefix(s: Bytes, p: nat, q: nat)
    requires p <= q <= |s|
    ensures s[..q][..p] == s[..p]
  {
  }

  /** The start of the line that `p` lies in. */
  function LineStart(s: Bytes, p: nat): (l: nat)
    requires p <= |s|
    ensures l <= p
  {
    TailStart(s[..p], 0)
  }

  lemma LineStartIs(s: Bytes, p: nat)
    requires p <= |s|
    ensures
      var l := LineStart(s, p);
      && (l == 0 || s[l - 1] == NEWLINE) && !Terminated(s[..p], l)
      && CompleteLines(s[..p], 0) == CompleteLines(s[..l], 0)
  {
    var l := LineStart(s, p);
    TailIsUnfinished(s[..p], 0);
    LinesOfParts(s[..p], 0, l);
    PrefixOfPrefix(s, l, p);
  }

  /** Bytes without a newline neither end a line nor begin one. */
  lemma SameLine(s: Bytes, p: nat, q: nat)
    requires p <= q <= |s| && forall i :: p <= i < q ==> s[i] != NEWLINE
    ensures LineStart(s, q) == LineStart(s, p) && CompleteLines(s[..q], 0) == CompleteLines(s[..p], 0)
  {
    var l := LineStart(s, p);
    LineStartIs(s, p);
    LineBeforeCut(s[..p], l, p);
    assert s[..p][..p] == s[..p];
    assert forall i :: l <= i < p ==> s[..p][i] == s[i];
    assert !Terminated(s[..q], l);
    TailFromLineStart(s[..q], 0, l);
    LineStartIs(s, q);
  }

  /** An error can strike after any bytes of the file that hold no newline, and after no others. */
  lemma ConsumedIff(s: Bytes, p: nat, n: nat)
    requires p <= |s|
    ensures Consumed(s, p, n) <==> p + n <= |s| && forall i :: p <= i < p + n ==> s[i] != NEWLINE
  {
    if p + n <= |s| {
      LineBeforeCut(s, p, p + n);
    }
  }

  lemma RestHasNoNewline(s: Bytes, p: nat)
    requires p <= |s| && !Terminated(s, p)
    ensures forall i :: p <= i < |s| ==> s[i] != NEWLINE
  {
    assert s[..|s|] == s;
    LineBeforeCut(s, p, |s|);
  }

  /** Behind the line that `p` lies in, that whole line has been added. */
  lemma LineIsAdded(s: Bytes, p: nat)
    requires p <= |s| && Terminated(s, p)
    ensures
      var l, e := LineStart(s, p), LineEnd(s, p);
      CompleteLines(s[..e], 0) == CompleteLines(s[..p], 0) + [Decoded(s[l..e - 1])]
  {
    var l, e := LineStart(s, p), LineEnd(s, p);
    LineStartIs(s, p);
    LineBeforeCut(s, l, p);
    LineAlone(s, l);
    PrefixOfPrefix(s, l, e);
    LinesOfParts(s[..e], 0, l);
  }

  lemma InTheMiddle(all: seq<Bytes>, some: seq<Bytes>, before: seq<Bytes>, line: Bytes, after: seq<Bytes>)
    requires some == before + [line] && all == some + after
    ensures line in all
  {
    assert all[|before|] == line;
  }

  lemma LineIsOnFile(s: Bytes, p: nat)
    requires p <= |s| && Terminated(s, p)
    ensures Decoded(s[LineStart(s, p)..LineEnd(s, p) - 1]) in CompleteLines(s, 0)
  {
    var e := LineEnd(s, p);
    var all, some, before, after :=
      CompleteLines(s, 0), CompleteLines(s[..e], 0), CompleteLines(s[..p], 0), CompleteLines(s, e);
    assert all == some + after by {
      LinesOfParts(s, 0, e);
    }
    LineIsAdded(s, p);
    InTheMiddle(all, some, before, Decoded(s[LineStart(s, p)..e - 1]), after);
  }

  // ---------- Writes, reads and errors in any order ----------

  /**
   One write, one `next`, or one `next` that an I/O error ends after `n` bytes. A scan is a series of
   those up to the first that yields nothing.
   */
  datatype Event = Append(bytes: Bytes) | Next | Fault(n: nat)

  /** `scan` are the lines of the scan under way, `delivered` those of all scans. */
  datatype State = State(content: Bytes, pos: nat, scan: seq<Bytes>, delivered: seq<Bytes>)

  /** An error after more bytes than the line has is none. */
  function Step(st: State, ev: Event): State
    requires st.pos <= |st.content|
  {
    match ev
    case Append(bytes) => st.(content := st.content + bytes)
    case Next =>
      var (line, pos) := NextLine(st.content, st.pos);
      (match line
       case None => st.(pos := pos, scan := [])
       case Some(l) => State(st.content, pos, st.scan + [l], st.delivered + [l]))
    case Fault(n) => if Consumed(st.content, st.pos, n) then st.(pos := st.pos + n, scan := []) else st
  }

  /** Nothing is yielded, so that the scan under way ends. */
  predicate EndsScan(st: State, ev: Event)
    requires st.pos <= |st.content|
  {
    match ev
    case Append(_) => false
    case Next => NextLine(st.content, st.pos).0.None?
    case Fault(n) => Consumed(st.content, st.pos, n)
  }

  /** A scan that has got something ends exactly there. */
  lemma ScanEndsIff(st: State, ev: Event)
    requires st.pos <= |st.content| && st.scan != []
    ensures EndsScan(st, ev) <==> Step(st, ev).scan == []
  {
  }

  /** A file created empty and tailed from the start. */
  function After(events: seq<Event>): (st: State)
    ensures st.pos <= |st.content|
  {
    if events == [] then State([], 0, [], [])
    else Step(After(events[..|events| - 1]), events[|events| - 1])
  }

  /**
   A `next` with the cursor at `p` does no harm: of a complete line, what is left of it is read like
   the whole; and of an unfinished one, what is left can be decoded.
   */
  predicate Good(s: Bytes, p: nat)
    requires p <= |s|
  {
    if Terminated(s, p)
    then var e := LineEnd(s, p); Decoded(s[p..e - 1]) == Decoded(s[LineStart(s, p)..e - 1])
    else ValidUtf8(s[p..])
  }

  /** Every `next` so far did no harm. */
  predicate Clean(events: seq<Event>)
  {
    events == [] ||
    var before := events[..|events| - 1];
    Clean(before) && (events[|events| - 1].Next? ==> Good(After(before).content, After(before).pos))
  }

  /** What should have been delivered. */
  function Due(st: State): seq<Bytes>
    requires st.pos <= |st.content|
  {
    CompleteLines(st.content[..st.pos], 0)
  }

  /** Two lists that grow by one element each stay equal if that is the same, and do not become equal. */
  lemma BothGrow(a: seq<Bytes>, b: seq<Bytes>, x: Bytes, y: Bytes, a': seq<Bytes>, b': seq<Bytes>)
    requires a' == a + [x] && b' == b + [y]
    ensures a' == b' <==> a == b && x == y
  {
    InitOfAppended(a, x);
    InitOfAppended(b, y);
    assert (a + [x])[|a|] == x && (b + [y])[|b|] == y;
  }

  lemma NextDelivers(st: State)
    requires st.pos <= |st.content| && Terminated(st.content, st.pos)
    ensures
      var e := LineEnd(st.content, st.pos);
      var line := Decoded(st.content[st.pos..e - 1]);
      Step(st, Next) == State(st.content, e, st.scan + [line], st.delivered + [line])
  {
    NextTerminated(st.content, st.pos);
  }

  lemma LineIsDue(st: State)
    requires st.pos <= |st.content| && Terminated(st.content, st.pos)
    ensures
      var l, e := LineStart(st.content, st.pos), LineEnd(st.content, st.pos);
      Due(Step(st, Next)) == Due(st) + [Decoded(st.content[l..e - 1])]
  {
    NextDelivers(st);
    LineIsAdded(st.content, st.pos);
  }

  lemma NextAtLine(st: State)
    requires st.pos <= |st.content| && Terminated(st.content, st.pos) && |st.delivered| >= |Due(st)|
    ensures
      var next := Step(st, Next);
      && |next.delivered| >= |Due(next)|
      && (next.delivered == Due(next) <==> st.delivered == Due(st) && Good(st.content, st.pos))
  {
    var s, p, next := st.content, st.pos, Step(st, Next);
    var e := LineEnd(s, p);
    var read, line := Decoded(s[p..e - 1]), Decoded(s[LineStart(s, p)..e - 1]);
    assert Good(s, p) <==> read == line;
    LineIsDue(st);
    NextDelivers(st);
    BothGrow(st.delivered, Due(st), read, line, next.delivered, Due(next));
  }

  lemma NextAtTail(st: State)
    requires st.pos <= |st.content| && !Terminated(st.content, st.pos) && |st.delivered| >= |Due(st)|
    ensures
      var next := Step(st, Next);
      && |next.delivered| >= |Due(next)|
      && (next.delivered == Due(next) <==> st.delivered == Due(st) && Good(st.content, st.pos))
  {
    NextUnfinished(st.content, st.pos);
    RestHasNoNewline(st.content, st.pos);
    SameLine(st.content, st.pos, |st.content|);
  }

  lemma FaultChangesNothing(st: State, n: nat)
    requires st.pos <= |st.content|
    ensures Due(Step(st, Fault(n))) == Due(st)
  {
    if Consumed(st.content, st.pos, n) {
      ConsumedIff(st.content, st.pos, n);
      SameLine(st.content, st.pos, st.pos + n);
    }
  }

  lemma WriteChangesNothing(st: State, bytes: Bytes)
    requires st.pos <= |st.content|
    ensures Due(Step(st, Append(bytes))) == Due(st)
  {
    assert (st.content + bytes)[..st.pos] == st.content[..st.pos];
  }

  lemma {:induction false} RunIsExactIff(events: seq<Event>)
    ensures
      var st := After(events);
      |st.delivered| >= |Due(st)| && (st.delivered == Due(st) <==> Clean(events))
  {
    if events != [] {
      var before := events[..|events| - 1];
      var st := After(before);
      RunIsExactIff(before);
      match events[|events| - 1]
      case Append(bytes) => WriteChangesNothing(st, bytes);
      case Fault(n) => FaultChangesNothing(st, n);
      case Next =>
        if Terminated(st.content, st.pos) {
          NextAtLine(st);
        } else {
          NextAtTail(st);
        }
    }
  }

  /** In front of an unfinished line, all lines of the file are due. */
  lemma AllIsDue(st: State)
    requires st.pos <= |st.content| && !Terminated(st.content, st.pos)
    ensures Due(st) == CompleteLines(st.content, 0)
  {
    RestHasNoNewline(st.content, st.pos);
    SameLine(st.content, st.pos, |st.content|);
    assert st.content[..|st.content|] == st.content;
  }

  /**
   However the file was written, whenever it was read, even in the middle of a scan, and wherever reads
   failed: the lines read are exactly the complete lines up to the cursor, once each and in order, if
   and only if every `next` did no harm. Whenever a scan ends, these are all complete lines of the file.
   */
  lemma TailingIsExactIff(events: seq<Event>)
    ensures
      var st := After(events);
      && (st.delivered == CompleteLines(st.content[..st.pos], 0) <==> Clean(events))
      && (NextLine(st.content, st.pos).0.None? ==>
            (st.delivered == CompleteLines(st.content, 0) <==> Clean(events)))
  {
    var st := After(events);
    RunIsExactIff(events);
    if NextLine(st.content, st.pos).0.None? {
      AllIsDue(st);
    }
  }

  /** The stream's own methods, driven by any events, go through the states of the step system. */
  method Replay(events: seq<Event>)
    returns (file: HourFile, stream: LineStream, scan: seq<Bytes>, delivered: seq<Bytes>)
    ensures stream.file == file && stream.Valid()
    ensures State(file.content, stream.pos, scan, delivered) == After(events)
    ensures delivered == CompleteLines(file.content[..stream.pos], 0) <==> Clean(events)
  {
    file := new HourFile([]);
    stream := new LineStream(file);
    scan, delivered := [], [];
    for i := 0 to |events|
      invariant fresh(file) && fresh(stream) && stream.file == file && stream.Valid()
      invariant State(file.content, stream.pos, scan, delivered) == After(events[..i])
    {
      PrefixGrows(events, i);
      InitOfAppended(events[..i], events[i]);
      match events[i]
      case Append(bytes) => file.Append(bytes);
      case Next =>
        var line := stream.Next();
        if line.Some? {
          scan, delivered := scan + [line.value], delivered + [line.value];
        } else {
          scan := [];
        }
      case Fault(n) =>
        if Consumed(file.content, stream.pos, n) {
          var _ := stream.FailedNext(n);
          scan := [];
        }
    }
    assert events[..|events|] == events;
    TailingIsExactIff(events);
  }

  /** A complete line that can be decoded is read right exactly if it is read from its start. */
  lemma GoodIffWhole(s: Bytes, p: nat)
    requires p <= |s| && Terminated(s, p) && ValidUtf8(s[LineStart(s, p)..LineEnd(s, p) - 1])
    ensures Good(s, p) <==> p == LineStart(s, p)
  {
    var l, e := LineStart(s, p), LineEnd(s, p);
    assert |Decoded(s[p..e - 1])| <= e - 1 - p && |Decoded(s[l..e - 1])| == e - 1 - l;
  }

  // ---------- Runs without errors ----------

  predicate FaultFree(events: seq<Event>)
  {
    forall i :: 0 <= i < |events| ==> !events[i].Fault?
  }

  /** What is left from `at` on is an unfinished line that cannot be decoded. */
  predicate Broken(s: Bytes, at: nat)
    requires at <= |s|
  {
    !Terminated(s, at) && !ValidUtf8(s[at..])
  }

  /** No `next` so far was called in front of an unfinished line that cannot be decoded. */
  predicate Unbroken(events: seq<Event>)
  {
    events == [] ||
    var before := events[..|events| - 1];
    Unbroken(before) && (events[|events| - 1].Next? ==> !Broken(After(before).content, After(before).pos))
  }

  predicate AtLineStart(st: State)
    requires st.pos <= |st.content|
  {
    st.pos == 0 || st.content[st.pos - 1] == NEWLINE
  }

  lemma StaysAtLineStart(st: State, ev: Event)
    requires st.pos <= |st.content| && AtLineStart(st) && !ev.Fault?
    requires ev.Next? ==> !Broken(st.content, st.pos)
    ensures AtLineStart(Step(st, ev)) && (ev.Next? ==> Good(st.content, st.pos))
  {
    if ev.Next? {
      TailFromLineStart(st.content[..st.pos], 0, st.pos);
      if Terminated(st.content, st.pos) {
        NextTerminated(st.content, st.pos);
      } else {
        NextUnfinished(st.content, st.pos);
      }
    }
  }

  lemma {:induction false} UnbrokenIsClean(events: seq<Event>)
    requires FaultFree(events) && Unbroken(events)
    ensures Clean(events) && AtLineStart(After(events))
  {
    if events != [] {
      UnbrokenIsClean(events[..|events| - 1]);
      StaysAtLineStart(After(events[..|events| - 1]), events[|events| - 1]);
    }
  }

  lemma {:induction false} CleanIsUnbroken(events: seq<Event>)
    requires Clean(events)
    ensures Unbroken(events)
  {
    if events != [] {
      CleanIsUnbroken(events[..|events| - 1]);
    }
  }

  /** Without I/O errors, tailing is exact if and only if no undecodable unfinished line was asked for. */
  lemma FaultFreeTailingIsExactIff(events: seq<Event>)
    requires FaultFree(events)
    ensures
      var st := After(events);
      && (st.delivered == CompleteLines(st.content[..st.pos], 0) <==> Unbroken(events))
      && (NextLine(st.content, st.pos).0.None? ==>
            (st.delivered == CompleteLines(st.content, 0) <==> Unbroken(events)))
  {
    TailingIsExactIff(events);
    if Clean(events) {
      CleanIsUnbroken(events);
    }
    if Unbroken(events) {
      UnbrokenIsClean(events);
    }
  }

  /** Half of a two-byte character is read as a blank line, and its other half as a second line. */
  lemma HalfCharacterIsReadTwice()
    ensures
      var st := After([Append([0xC3]), Next, Append([0xA9, NEWLINE]), Next]);
      && st.delivered == [[], []] && CompleteLines(st.content, 0) == [[0xC3, 0xA9]]
      && NextLine(st.content, st.pos).0.None?
  {
    var events := [Append([0xC3]), Next, Append([0xA9, NEWLINE]), Next];
    var s: Bytes := [0xC3, 0xA9, NEWLINE];
    assert events[..3] == [Append([0xC3]), Next, Append([0xA9, NEWLINE])];
    assert events[..3][..2] == [Append([0xC3]), Next];
    assert events[..3][..2][..1] == [Append([0xC3])];
    assert [Append([0xC3])][..0] == [];
    assert After([Append([0xC3])]) == State([0xC3], 0, [], []) by {
      assert [] + [0xC3 as byte] == [0xC3 as byte];
    }
    LonelyByte(0xC3);
    assert After([Append([0xC3]), Next]) == State([0xC3], 1, [[]], [[]]);
    assert [0xC3 as byte] + [0xA9, NEWLINE] == s;
    assert After(events[..3]) == State(s, 1, [[]], [[]]);
    assert LineEnd(s, 3) == 3 && LineEnd(s, 2) == 3 && LineEnd(s, 1) == 3 && LineEnd(s, 0) == 3;
    assert s[1..2] == [0xA9] && s[0..2] == [0xC3, 0xA9];
    LonelyByte(0xA9);
    NextTerminated(s, 1);
    assert ValidFrom([0xC3, 0xA9], 2) && ValidFrom([0xC3, 0xA9], 0);
    assert CompleteLines(s, 3) == [];
    assert s[3..3] == [];
  }

  /** A single byte above 127 is not UTF-8. */
  lemma LonelyByte(b: byte)
    requires b >= 0x80
    ensures !ValidUtf8([b]) && NextLine([b], 0) == (Some([]), 1)
  {
    assert LineEnd([b], 1) == 1 && LineEnd([b], 0) == 1;
    assert [b][0..1] == [b];
    assert !Character([b], 0, Announced(b));
  }

  /** The file "ab", with its newline. */
  const AB: Bytes := [97, 98, NEWLINE]

  lemma LinesOfAB()
    ensures LineEnd(AB, 0) == 3 && Terminated(AB, 0) && CompleteLines(AB, 0) == [[97, 98]]
    ensures Consumed(AB, 0, 1) && NextLine(AB, 1) == (Some([98]), 3)
  {
    assert LineEnd(AB, 3) == 3 && LineEnd(AB, 2) == 3 && LineEnd(AB, 1) == 3;
    assert AB[1..2] == [98] && AB[0..2] == [97, 98];
    AsciiIsValid([98], 0);
    AsciiIsValid([97, 98], 0);
    NextTerminated(AB, 1);
    assert CompleteLines(AB, 3) == [];
  }

  /** An error behind the first byte of "ab": the line comes out as "b". */
  lemma ErrorTearsLine()
    ensures
      var st := After([Append(AB), Fault(1), Next]);
      st.delivered == [[98]] && CompleteLines(st.content, 0) == [[97, 98]]
  {
    var events := [Append(AB), Fault(1), Next];
    LinesOfAB();
    assert events[..2] == [Append(AB), Fault(1)] && events[..2][..1] == [Append(AB)] && [Append(AB)][..0] == [];
    assert After([Append(AB)]) == State(AB, 0, [], []) by {
      assert [] + AB == AB;
    }
    assert After(events[..2]) == State(AB, 1, [], []);
  }

  /** At any moment of a clean run what has been read is a beginning of the file's complete lines. */
  lemma NothingIsReadTooEarly(events: seq<Event>)
    requires Clean(events)
    ensures After(events).delivered <= CompleteLines(After(events).content, 0)
  {
    var st := After(events);
    RunIsExactIff(events);
    LineStartIs(st.content, st.pos);
    LinesOfParts(st.content, 0, LineStart(st.content, st.pos));
  }

  /** Where a clean run's scan ends, a scan of the whole file gets the same, if it can decode the tail. */
  lemma WholeScanAgrees(events: seq<Event>)
    requires Clean(events) && NextLine(After(events).content, After(events).pos).0.None?
    ensures
      var st := After(events);
      var t := TailStart(st.content, 0);
      && (ValidUtf8(st.content[t..]) ==> ReadAll(st.content, 0) == (st.delivered, t))
      && (FaultFree(events) ==> t == st.pos && ValidUtf8(st.content[t..]))
  {
    var st := After(events);
    TailingIsExactIff(events);
    ScanGetsCompleteLines(st.content, 0);
    if FaultFree(events) {
      CleanIsUnbroken(events);
      UnbrokenIsClean(events);
      TailFromLineStart(st.content, 0, st.pos);
      NextUnfinished(st.content, st.pos);
    }
  }

  function Repeat(st: State, n: nat): State
    requires st.pos <= |st.content|
    decreases n
  {
    if n == 0 then st else Repeat(Step(st, Next), n - 1)
  }

  /** A scan that no write interrupts is a series of `next`. */
  lemma {:induction false} ScanIsRepeatedNext(st: State)
    requires st.pos <= |st.content|
    ensures
      var (lines, end) := ReadAll(st.content, st.pos);
      Repeat(st, |lines| + 1) == State(st.content, end, [], st.delivered + lines)
    decreases |st.content| - st.pos
  {
    var (line, e) := NextLine(st.content, st.pos);
    if line.None? {
      assert st.delivered + [] == st.delivered;
      assert Repeat(Step(st, Next), 0) == Step(st, Next);
    } else {
      var (rest, end) := ReadAll(st.content, e);
      ScanIsRepeatedNext(Step(st, Next));
      Associates(st.delivered, [line.value], rest);
    }
  }

  /** Appending to a file adds lines behind the complete ones and changes none of them. */
  lemma LinesOnlyGrow(s: Bytes, more: Bytes)
    ensures CompleteLines(s, 0) <= CompleteLines(s + more, 0)
  {
    var t := TailStart(s, 0);
    TailIsUnfinished(s, 0);
    LinesOfParts(s, 0, t);
    LinesOfParts(s + more, 0, t);
    assert (s + more)[..t] == s[..t];
  }

  /** Text without bytes above 127 is valid wherever it is cut. */
  lemma {:induction false} AsciiIsValid(s: Bytes, at: nat)
    requires at <= |s| && forall i :: 0 <= i < |s| ==> s[i] < 0x80
    ensures ValidFrom(s, at)
    decreases |s| - at
  {
    if at < |s| {
      AsciiIsValid(s, at + 1);
    }
  }

  predicate Ascii(events: seq<Event>)
  {
    forall ev, i :: ev in events && ev.Append? && 0 <= i < |ev.bytes| ==> ev.bytes[i] < 0x80
  }

  lemma {:induction false} AsciiRunsAreUnbroken(events: seq<Event>)
    requires Ascii(events)
    ensures Unbroken(events) && forall i :: 0 <= i < |After(events).content| ==> After(events).content[i] < 0x80
  {
    if events != [] {
      var before, last := events[..|events| - 1], events[|events| - 1];
      assert forall ev :: ev in before ==> ev in events;
      AsciiRunsAreUnbroken(before);
      assert last in events;
      if last.Next? {
        AsciiIsValid(After(before).content[After(before).pos..], 0);
      }
    }
  }

  /** ASCII files are tailed exactly as long as no read fails. */
  lemma AsciiRunsAreClean(events: seq<Event>)
    requires Ascii(events) && FaultFree(events)
    ensures Clean(events)
  {
    AsciiRunsAreUnbroken(events);
    UnbrokenIsClean(events);
  }
}
