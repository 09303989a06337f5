/** The resumable NDJSON tailer (internal/pipelock/tailer.go): line reassembly from a growing file
    and the queue that moves the saved position only past stored lines. */
module Tailer {
  import opened Bytes
  import opened Sequences

  // ----- lines

  const NEWLINE: byte := 10
  const CARRIAGE_RETURN: byte := 13

  /** Offset just past the first newline, if there is one. */
  function LineEnd(b: Bytes): (k: Option<nat>)
    ensures k.Some? ==> 0 < k.value <= |b| && b[k.value - 1] == NEWLINE && NEWLINE !in b[..k.value - 1]
    ensures k.None? ==> NEWLINE !in b
  {
    if |b| == 0 then None
    else if b[0] == NEWLINE then Some(1)
    else
      assert b == [b[0]] + b[1..];
      match LineEnd(b[1..])
      case None => None
      case Some(k) =>
        assert b[..k] == [b[0]] + b[1..][..k - 1];
        Some(k + 1)
  }

  /** The complete lines of b, newlines included; a fragment after the last newline is no line. */
  function Lines(b: Bytes): seq<Bytes>
    decreases |b|
  {
    match LineEnd(b)
    case None => []
    case Some(k) => [b[..k]] + Lines(b[k..])
  }

  function Trim(line: Bytes): Bytes
    decreases |line|
  {
    if |line| > 0 && (line[|line| - 1] == NEWLINE || line[|line| - 1] == CARRIAGE_RETURN) then
      Trim(line[..|line| - 1])
    else line
  }

  /** Whether text is a JSON object; kept abstract. */
  type Parser = Bytes -> bool

  predicate IsEvent(parses: Parser, line: Bytes) { Trim(line) != [] && parses(Trim(line)) }

  /** An event line by its place in the file: where it starts and the offset just past its newline. */
  datatype Span = Span(start: nat, end: nat)

  /** The event lines of b, which starts at offset base of the file. */
  function Events(parses: Parser, b: Bytes, base: nat): seq<Span>
    decreases |b|
  {
    match LineEnd(b)
    case None => []
    case Some(k) =>
      EventHere(parses, b[..k], base) + Events(parses, b[k..], base + k)
  }

  function EventHere(parses: Parser, line: Bytes, start: nat): seq<Span> {
    if IsEvent(parses, line) then [Span(start, start + |line|)] else []
  }

  lemma {:induction false} LineEndOfPrefix(a: Bytes, b: Bytes)
    requires LineEnd(a).Some?
    ensures LineEnd(a + b) == LineEnd(a)
    decreases |a|
  {
    if a[0] != NEWLINE {
      ConcatDrop(a, b, 1);
      LineEndOfPrefix(a[1..], b);
    }
  }

  /** b ends with a newline or is empty. */
  predicate WholeLines(b: Bytes) { |b| == 0 || b[|b| - 1] == NEWLINE }

  /** Whole lines start with the same line whatever follows them. */
  lemma FirstLine(a: Bytes, b: Bytes) returns (k: nat)
    requires WholeLines(a) && |a| > 0
    ensures 0 < k <= |a| && LineEnd(a) == Some(k) && LineEnd(a + b) == Some(k) && WholeLines(a[k..])
    ensures (a + b)[..k] == a[..k] && (a + b)[k..] == a[k..] + b
  {
    hide LineEnd;
    assert a[|a| - 1] in a;
    k := LineEnd(a).value;
    LineEndOfPrefix(a, b);
    ConcatDrop(a, b, k);
    TakeOfConcat(a, b, k);
  }

  lemma {:induction false} LinesConcat(a: Bytes, b: Bytes)
    requires WholeLines(a)
    ensures Lines(a + b) == Lines(a) + Lines(b)
    decreases |a|
  {
    hide LineEnd, WholeLines;
    if |a| == 0 {
      Empty(b);
    } else {
      var k := FirstLine(a, b);
      LinesConcat(a[k..], b);
      Assoc([a[..k]], Lines(a[k..]), Lines(b));
    }
  }

  lemma {:induction false} EventsConcat(parses: Parser, a: Bytes, b: Bytes, base: nat, next: nat)
    requires WholeLines(a) && next == base + |a|
    ensures Events(parses, a + b, base) == Events(parses, a, base) + Events(parses, b, next)
    decreases |a|
  {
    hide EventHere, LineEnd, WholeLines, Events;
    if |a| == 0 {
      assert a == [];
      Empty(b);
      Empty(Events(parses, b, base));
      NoEvents(parses, base);
    } else {
      var k := FirstLine(a, b);
      EventsFrom(parses, a, base, k);
      EventsFrom(parses, a + b, base, k);
      EventsConcat(parses, a[k..], b, base + k, next);
      Assoc(EventHere(parses, a[..k], base), Events(parses, a[k..], base + k), Events(parses, b, next));
    }
  }

  lemma NoEvents(parses: Parser, base: nat)
    ensures Events(parses, [], base) == []
  {
  }

  lemma EventsFrom(parses: Parser, b: Bytes, base: nat, k: nat)
    requires LineEnd(b) == Some(k)
    ensures Events(parses, b, base) == EventHere(parses, b[..k], base) + Events(parses, b[k..], base + k)
  {
    hide LineEnd, EventHere;
  }

  lemma {:induction false} EventsBounded(parses: Parser, b: Bytes, base: nat)
    ensures forall e :: e in Events(parses, b, base) ==> base <= e.start < e.end <= base + |b|
    decreases |b|
  {
    if LineEnd(b).Some? {
      var k := LineEnd(b).value;
      EventsBounded(parses, b[k..], base + k);
    }
  }

  // ----- the read loop's view of the file

  /** A line found in the bytes read so far is the next line of the file. */
  lemma BufferedLine(file: Bytes, pos: nat, off: nat, k: nat)
    requires pos <= off <= |file| && LineEnd(file[pos..off]) == Some(k)
    ensures LineEnd(file[pos..]) == Some(k)
    ensures file[pos..off][..k] == file[pos..][..k] && file[pos..off][k..] == file[pos + k..off]
  {
    hide LineEnd;
    ExtendToEnd(file, pos, off);
    LineEndOfPrefix(file[pos..off], file[off..]);
    TakeOfConcat(file[pos..off], file[off..], k);
    DropSlice(file, pos, k, off - pos);
    DropDrop(file[..off], pos, k);
  }

  /** bufio over the file: buf holds the bytes [pos, off) already read but not yet returned. */
  class LineReader {
    var pos: nat
    var off: nat
    var buf: Bytes

    ghost predicate Valid(file: Bytes)
      reads this
    {
      pos <= off <= |file| && buf == file[pos..off]
    }

    constructor (from: nat)
      ensures pos == off == from && buf == []
    {
      pos, off, buf := from, from, [];
    }

    /** Reads until buf holds a whole line or the file ends; at the end of the file the loop goes
        back to the start of the line it was in. files[i] is what the file holds at the i-th read,
        chunks[i] how much that read may return; seen is the last of them looked at. */
    method Refill(ghost start: Bytes, files: seq<Bytes>, chunks: seq<nat>) returns (atEof: bool, ghost seen: Bytes)
      requires Valid(start) && Growth(start, files) && |files| == |chunks|
      requires forall i :: 0 <= i < |files| ==> chunks[i] > 0
      modifies this
      ensures seen == start || seen in files
      ensures Valid(seen) && pos == old(pos)
      ensures atEof ==> off == pos && buf == [] && NEWLINE !in seen[pos..]
    {
      hide LineEnd;
      atEof, seen := false, start;
      for i := 0 to |files|
        invariant pos == old(pos) && !atEof && Valid(seen)
        invariant seen == if i == 0 then start else files[i - 1]
      {
        if LineEnd(buf).Some? {
          return;
        }
        SliceOfPrefix(seen, files[i], pos, off);
        seen := files[i];
        if off == |files[i]| {
          buf, off := [], pos;
          atEof := true;
          return;
        }
        var n := if chunks[i] <= |files[i]| - off then chunks[i] else |files[i]| - off;
        Extend(files[i], pos, off, off + n);
        buf, off := buf + files[i][off..off + n], off + n;
      }
    }

    /** One pass of the loop: either the next whole line of the file is returned and pos moves past
        it, or nothing is consumed; at the end of the file no whole line was left. */
    method Next(ghost start: Bytes, files: seq<Bytes>, chunks: seq<nat>)
      returns (line: Option<Bytes>, atEof: bool, ghost seen: Bytes)
      requires Valid(start) && Growth(start, files) && |files| == |chunks|
      requires forall i :: 0 <= i < |files| ==> chunks[i] > 0
      modifies this
      ensures seen == start || seen in files
      ensures Valid(seen) && old(pos) <= pos
      ensures line.None? ==> pos == old(pos)
      ensures line.Some? ==>
                && LineEnd(seen[old(pos)..]) == Some(|line.value|)
                && line.value == seen[old(pos)..][..|line.value|]
                && pos == old(pos) + |line.value|
      ensures atEof ==> line.None? && LineEnd(seen[pos..]).None?
    {
      hide LineEnd;
      line := None;
      atEof, seen := Refill(start, files, chunks);
      var k := LineEnd(buf);
      if k.Some? {
        BufferedLine(seen, pos, off, k.value);
        line := Some(buf[..k.value]);
        buf, pos := buf[k.value..], pos + k.value;
      }
    }
  }

  /** The file only grows from one read to the next. */
  ghost predicate Growth(start: Bytes, files: seq<Bytes>) {
    && (|files| > 0 ==> start <= files[0])
    && forall i :: 0 < i < |files| ==> files[i - 1] <= files[i]
  }

  // ----- the commit queue

  datatype PendingLine = PendingLine(end: nat, acked: bool)

  datatype Queue = Queue(pending: seq<PendingLine>, committed: nat)

  /** Length of the longest fully acked prefix. */
  function AckedRun(p: seq<PendingLine>): (n: nat)
    ensures n <= |p| && (n < |p| ==> !p[n].acked) && forall i :: 0 <= i < n ==> p[i].acked
  {
    if |p| == 0 || !p[0].acked then 0 else 1 + AckedRun(p[1..])
  }

  function Settle(q: Queue): Queue {
    var n := AckedRun(q.pending);
    Queue(q.pending[n..], if n == 0 then q.committed else q.pending[n - 1].end)
  }

  function RecordLine(q: Queue, end: nat, emitted: bool): Queue {
    Settle(q.(pending := q.pending + [PendingLine(end, !emitted)]))
  }

  function MarkFirst(p: seq<PendingLine>): seq<PendingLine> {
    if |p| == 0 then [] else if !p[0].acked then [p[0].(acked := true)] + p[1..] else [p[0]] + MarkFirst(p[1..])
  }

  /** MarkFirst changes the first unacked line, or nothing. */
  lemma {:induction false} MarksAt(p: seq<PendingLine>, i: nat)
    requires i <= |p| && (i < |p| ==> !p[i].acked) && forall j :: 0 <= j < i ==> p[j].acked
    ensures MarkFirst(p) == if i < |p| then p[i := p[i].(acked := true)] else p
    decreases |p|
  {
    if i > 0 {
      MarksAt(p[1..], i - 1);
      if i < |p| {
        UpdateTail(p, i, p[i].(acked := true));
      } else {
        ConsSlice(p, 0, |p|);
      }
    }
  }

  function AckOldest(q: Queue): Queue { Settle(q.(pending := MarkFirst(q.pending))) }

  const FLUSH_EVERY_ACKS := 64

  class CommitQueue {
    var pending: seq<PendingLine>
    var committed: nat
    var dirty: nat
    var saved: Option<nat>

    ghost function Contents(): Queue
      reads this
    {
      Queue(pending, committed)
    }

    constructor (from: nat, saved: Option<nat>)
      ensures pending == [] && committed == from && this.saved == saved && dirty == 0
    {
      pending, committed, dirty, this.saved := [], from, 0, saved;
    }

    /** Moves committed past the longest fully acked prefix. */
    method Advance()
      modifies this`pending, this`committed
      ensures Contents() == Settle(old(Contents()))
    {
      var n := 0;
      while n < |pending| && pending[n].acked
        invariant 0 <= n <= |pending| && pending == old(pending)
        invariant forall i :: 0 <= i < n ==> pending[i].acked
        invariant committed == if n == 0 then old(committed) else pending[n - 1].end
      {
        committed := pending[n].end;
        n := n + 1;
      }
      assert n == AckedRun(pending);
      pending := pending[n..];
    }

    /** A line has been read: emitted lines wait for Ack, others settle at once. */
    method Record(end: nat, emitted: bool)
      modifies this`pending, this`committed
      ensures Contents() == RecordLine(old(Contents()), end, emitted)
    {
      pending := pending + [PendingLine(end, !emitted)];
      Advance();
    }

    /** The oldest unacknowledged event is stored. due: a second has passed since the last flush. */
    method Ack(due: bool)
      modifies this
      ensures Contents() == AckOldest(old(Contents()))
      ensures if due || old(dirty) + 1 >= 64 then saved == Some(committed) && dirty == 0
              else saved == old(saved) && dirty == old(dirty) + 1
    {
      var i := 0;
      while i < |pending| && pending[i].acked
        invariant 0 <= i <= |pending| && pending == old(pending)
        invariant forall j :: 0 <= j < i ==> pending[j].acked
      {
        i := i + 1;
      }
      MarksAt(pending, i);
      if i < |pending| {
        pending := pending[i := pending[i].(acked := true)];
      }
      Advance();
      dirty := dirty + 1;
      if dirty >= FLUSH_EVERY_ACKS || due {
        Flush();
      }
    }

    method Flush()
      modifies this`saved, this`dirty
      ensures saved == Some(committed) && dirty == 0
    {
      saved, dirty := Some(committed), 0;
    }
  }

  // ----- where a run starts

  datatype Mode = Fresh | Resumed | Restarted | Rotated | Created

  datatype SavedState = SavedState(ident: nat, offset: int)

  /** The open-mode choice: state is what the state file holds for this path, if it is readable. */
  function OpenAt(firstOpen: bool, appeared: bool, hasStatePath: bool, state: Option<SavedState>, ident: nat,
                  size: nat): (Mode, nat) {
    if !firstOpen then (Rotated, 0)
    else if appeared then (Created, 0)
    else if !hasStatePath || state.None? || state.value.offset < 0 then (Fresh, size)
    else if state.value.ident == ident && state.value.offset <= size then (Resumed, state.value.offset)
    else (Restarted, 0)
  }

  /** Where reading starts: at the saved position of this very file if it is still that long; at 0 in a file that was
      replaced or truncated, before this run or during it, or that appeared while it was watched for; at the end of
      a file about which nothing was saved. */
  lemma OpensWhere(firstOpen: bool, appeared: bool, state: Option<SavedState>, ident: nat, size: nat)
    ensures var from := OpenAt(firstOpen, appeared, true, state, ident, size).1;
            && from <= size
            && (!firstOpen || appeared ==> from == 0)
            && (firstOpen && !appeared && (state.None? || state.value.offset < 0) ==> from == size)
            && (firstOpen && !appeared && state.Some? && state.value.offset >= 0 ==>
                  from == if state.value.ident == ident && state.value.offset <= size then state.value.offset else 0)
    ensures OpenAt(true, false, false, state, ident, size).1 == size
  {
  }

  /** trimNewline takes off all trailing newlines and carriage returns and nothing else; a line of nothing but these
      is no event, whatever parses. */
  lemma {:induction false} TrimTakesLineEndsOnly(line: Bytes)
    ensures Trim(line) <= line
    ensures forall i :: |Trim(line)| <= i < |line| ==> line[i] == NEWLINE || line[i] == CARRIAGE_RETURN
    ensures var t := Trim(line); t != [] ==> t[|t| - 1] != NEWLINE && t[|t| - 1] != CARRIAGE_RETURN
    ensures forall parses: Parser :: Trim(line) == [] ==> !IsEvent(parses, line)
    decreases |line|
  {
    if |line| > 0 && (line[|line| - 1] == NEWLINE || line[|line| - 1] == CARRIAGE_RETURN) {
      TrimTakesLineEndsOnly(line[..|line| - 1]);
    }
  }
}
