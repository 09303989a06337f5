/** The tailer over any number of runs on one growing file: what it reads, and what reaches the
    store across crashes. */
module TailerRuns {
  import opened Bytes
  import opened Sequences
  import opened Tailer

  // ----- the system

  /** A run of the tailer: where it started, the end of the last whole line read, the end of what is
      buffered, the commit queue, events stored but not yet acked, events emitted but not yet
      stored, the events acked and the lines read so far. Events are named by their place in the file. */
  datatype Process =
    | Down
    | Up(from: nat, pos: nat, off: nat, queue: Queue, waiting: seq<Span>, inflight: seq<Span>, acked: seq<Span>,
         lines: seq<Bytes>)

  /** epoch is where the latest run that found no saved position started, first where the first run did. */
  datatype State = State(file: Bytes, saved: Option<nat>, stored: seq<Span>, epoch: nat, first: Option<nat>,
                         run: Process)

  datatype Label =
    | Grow(bytes: Bytes)
    | Start(created: bool)        // created: the file appeared while the tailer was watching for it
    | Fill(n: nat) | TakeLine | Rewind
    | Store | Ack(flush: bool) | Flush
    | Crash

  function SavedFor(saved: Option<nat>): Option<SavedState> {
    if saved.None? then None else Some(SavedState(0, saved.value))
  }

  ghost predicate Enabled(s: State, l: Label) {
    match l
    case Grow(_) => true
    case Start(created) => s.run.Down? && (created ==> s.first.None? && s.saved.None?)
    case Fill(n) => s.run.Up? && Buffered(s) && LineEnd(Buffer(s)).None? && 0 < n <= |s.file| - s.run.off
    case TakeLine => s.run.Up? && Buffered(s) && LineEnd(Buffer(s)).Some?
    case Rewind => s.run.Up? && Buffered(s) && LineEnd(Buffer(s)).None? && s.run.off == |s.file|
    case Store => s.run.Up? && |s.run.inflight| > 0
    case Ack(_) => s.run.Up? && |s.run.waiting| > 0
    case Flush => s.run.Up?
    case Crash => s.run.Up?
  }

  predicate Buffered(s: State) { s.run.Up? && s.run.pos <= s.run.off <= |s.file| }

  function Buffer(s: State): Bytes
    requires Buffered(s)
  {
    s.file[s.run.pos..s.run.off]
  }

  ghost function Apply(parses: Parser, s: State, l: Label): State
    requires Enabled(s, l)
  {
    match l
    case Grow(bytes) => s.(file := s.file + bytes)
    case Start(created) =>
      var from := OpenAt(true, created, true, SavedFor(s.saved), 0, |s.file|).1;
      s.(epoch := if s.saved.None? then from else s.epoch, first := if s.first.None? then Some(from) else s.first,
         run := Up(from, from, from, Queue([], from), [], [], [], []))
    case Fill(n) => s.(run := s.run.(off := s.run.off + n))
    case TakeLine =>
      var k := LineEnd(Buffer(s)).value;
      var line, end := Buffer(s)[..k], s.run.pos + k;
      s.(run := s.run.(pos := end, queue := RecordLine(s.run.queue, end, IsEvent(parses, line)),
                       inflight := s.run.inflight + EventHere(parses, line, s.run.pos), lines := s.run.lines + [line]))
    case Rewind => s.(run := s.run.(off := s.run.pos))
    case Store =>
      var e := s.run.inflight[0];
      s.(stored := s.stored + [e], run := s.run.(inflight := s.run.inflight[1..], waiting := s.run.waiting + [e]))
    case Ack(flush) =>
      var q := AckOldest(s.run.queue);
      s.(saved := if flush then Some(q.committed) else s.saved,
         run := s.run.(queue := q, acked := s.run.acked + [s.run.waiting[0]], waiting := s.run.waiting[1..]))
    case Flush => s.(saved := Some(s.run.queue.committed))
    case Crash => s.(run := Down)
  }

  const INIT := State([], None, [], 0, None, Down)

  ghost predicate Run(parses: Parser, tr: seq<State>, ls: seq<Label>) {
    && |tr| == |ls| + 1 && tr[0] == INIT
    && forall i :: 0 <= i < |ls| ==> Enabled(tr[i], ls[i]) && tr[i + 1] == Apply(parses, tr[i], ls[i])
  }

  // ----- the invariant

  /** Every event line of file[from..to] is stored. */
  ghost predicate Covered(parses: Parser, file: Bytes, from: nat, to: nat, stored: seq<Span>)
    requires from <= to <= |file|
  {
    forall e :: e in Events(parses, file[from..to], from) ==> e in stored
  }

  /** file[i..j] is one whole line. */
  predicate LineAt(file: Bytes, i: nat, j: nat) { i < j <= |file| && LineEnd(file[i..j]) == Some(j - i) }

  /** The queue holds the lines between c and pos in order; an unacked one is an event, an acked one
      is no event or is stored. */
  ghost predicate Spans(parses: Parser, file: Bytes, stored: seq<Span>, c: nat, p: seq<PendingLine>, pos: nat)
    decreases |p|
  {
    if |p| == 0 then c == pos
    else
      && LineAt(file, c, p[0].end)
      && (!p[0].acked ==> IsEvent(parses, file[c..p[0].end]))
      && (p[0].acked ==> !IsEvent(parses, file[c..p[0].end]) || Span(c, p[0].end) in stored)
      && Spans(parses, file, stored, p[0].end, p[1..], pos)
  }

  /** The unacked lines of a queue whose first line starts at c. */
  function Unacked(c: nat, p: seq<PendingLine>): seq<Span>
    decreases |p|
  {
    if |p| == 0 then [] else (if p[0].acked then [] else [Span(c, p[0].end)]) + Unacked(p[0].end, p[1..])
  }

  ghost predicate SavedInv(parses: Parser, s: State) {
    && s.epoch <= |s.file|
    && (s.saved.Some? ==>
          && s.epoch <= s.saved.value <= |s.file| && WholeLines(s.file[s.epoch..s.saved.value])
          && Covered(parses, s.file, s.epoch, s.saved.value, s.stored))
  }

  ghost predicate ReadInv(s: State) {
    s.run.Up? ==>
      && s.epoch <= s.run.from <= s.run.pos <= s.run.off <= |s.file|
      && WholeLines(s.file[s.epoch..s.run.from]) && WholeLines(s.file[s.run.from..s.run.pos])
      && s.run.lines == Lines(s.file[s.run.from..s.run.pos])
  }

  ghost predicate QueueInv(parses: Parser, s: State) {
    s.run.Up? ==>
      var q := s.run.queue;
      && s.epoch <= s.run.from <= q.committed <= s.run.pos <= |s.file|
      && WholeLines(s.file[s.epoch..q.committed])
      && Covered(parses, s.file, s.epoch, q.committed, s.stored)
      && Spans(parses, s.file, s.stored, q.committed, q.pending, s.run.pos)
      && (|q.pending| > 0 ==> !q.pending[0].acked)
      && Unacked(q.committed, q.pending) == s.run.waiting + s.run.inflight
      && (forall e :: e in s.run.waiting ==> e in s.stored)
      && (forall e :: e in s.run.acked ==> e.end <= q.committed)
  }

  /** Every event read so far is stored or on its way. */
  ghost predicate AccountInv(parses: Parser, s: State) {
    s.run.Up? && s.epoch <= s.run.pos <= |s.file| ==>
      forall e :: e in Events(parses, s.file[s.epoch..s.run.pos], s.epoch) ==> e in s.stored || e in s.run.inflight
  }

  ghost predicate Inv(parses: Parser, s: State) {
    SavedInv(parses, s) && ReadInv(s) && QueueInv(parses, s) && AccountInv(parses, s)
  }

  // ----- lines and slices

  lemma WholeLinesJoin(file: Bytes, i: nat, j: nat, k: nat)
    requires i <= j <= k <= |file| && WholeLines(file[i..j]) && WholeLines(file[j..k])
    ensures WholeLines(file[i..k])
  {
  }

  lemma LineIsWhole(file: Bytes, i: nat, j: nat)
    requires LineAt(file, i, j)
    ensures WholeLines(file[i..j]) && Lines(file[i..j]) == [file[i..j]]
  {
    hide LineEnd;
    var b := file[i..j];
    assert b[..j - i] == b && b[j - i..] == [];
    assert LineEnd([]) == None;
  }

  /** Events up to the end of one more line. */
  lemma OneMoreLine(parses: Parser, file: Bytes, from: nat, i: nat, j: nat)
    requires from <= i && LineAt(file, i, j) && WholeLines(file[from..i])
    ensures WholeLines(file[from..j])
    ensures Events(parses, file[from..j], from)
            == Events(parses, file[from..i], from) + EventHere(parses, file[i..j], i)
  {
    hide LineEnd, EventHere, Events, Lines;
    LineIsWhole(file, i, j);
    WholeLinesJoin(file, from, i, j);
    Extend(file, from, i, j);
    EventsConcat(parses, file[from..i], file[i..j], from, i);
    SingleLineEvents(parses, file[i..j], i);
  }

  lemma SingleLineEvents(parses: Parser, line: Bytes, base: nat)
    requires LineEnd(line) == Some(|line|)
    ensures Events(parses, line, base) == EventHere(parses, line, base)
  {
    hide LineEnd, EventHere;
    assert line[..|line|] == line && line[|line|..] == [];
    assert LineEnd([]) == None;
    assert Events(parses, [], base + |line|) == [];
    Empty(EventHere(parses, line, base));
  }

  lemma FirstLineAt(s: State)
    requires Buffered(s) && LineEnd(Buffer(s)).Some?
    ensures LineAt(s.file, s.run.pos, s.run.pos + LineEnd(Buffer(s)).value)
    ensures Buffer(s)[..LineEnd(Buffer(s)).value] == s.file[s.run.pos..s.run.pos + LineEnd(Buffer(s)).value]
  {
    hide LineEnd;
    var b := Buffer(s);
    var k := LineEnd(b).value;
    assert b[..k] == s.file[s.run.pos..s.run.pos + k];
    FirstLineAlone(b);
  }

  lemma FirstLineAlone(b: Bytes)
    requires LineEnd(b).Some?
    ensures LineEnd(b[..LineEnd(b).value]) == LineEnd(b)
    decreases |b|
  {
    var k := LineEnd(b).value;
    if b[0] != NEWLINE {
      FirstLineAlone(b[1..]);
      assert b[..k][1..] == b[1..][..k - 1];
    }
  }

  // ----- the queue

  lemma {:induction false} SpansBounds(parses: Parser, file: Bytes, stored: seq<Span>, c: nat, p: seq<PendingLine>,
                                       pos: nat)
    requires Spans(parses, file, stored, c, p, pos)
    ensures c <= pos && (pos <= |file| || |p| == 0)
    decreases |p|
  {
    if |p| > 0 {
      SpansBounds(parses, file, stored, p[0].end, p[1..], pos);
    }
  }

  lemma {:induction false} SpansGrow(parses: Parser, file: Bytes, file': Bytes, stored: seq<Span>, stored': seq<Span>,
                                     c: nat, p: seq<PendingLine>, pos: nat)
    requires Spans(parses, file, stored, c, p, pos) && file <= file' && stored <= stored'
    ensures Spans(parses, file', stored', c, p, pos)
    decreases |p|
  {
    hide IsEvent, LineEnd;
    if |p| > 0 {
      SliceOfPrefix(file, file', c, p[0].end);
      SpansGrow(parses, file, file', stored, stored', p[0].end, p[1..], pos);
    }
  }

  lemma {:induction false} SpansAppend(parses: Parser, file: Bytes, stored: seq<Span>, c: nat, p: seq<PendingLine>,
                                       pos: nat, end: nat)
    requires Spans(parses, file, stored, c, p, pos) && LineAt(file, pos, end)
    ensures var line := PendingLine(end, !IsEvent(parses, file[pos..end]));
            && Spans(parses, file, stored, c, p + [line], end)
            && Unacked(c, p + [line]) == Unacked(c, p) + EventHere(parses, file[pos..end], pos)
    decreases |p|
  {
    hide IsEvent, LineEnd;
    var line := PendingLine(end, !IsEvent(parses, file[pos..end]));
    if |p| == 0 {
      assert p + [line] == [line] && [line][1..] == [];
    } else {
      SpansAppend(parses, file, stored, p[0].end, p[1..], pos, end);
      ConcatDrop(p, [line], 1);
      Assoc(if p[0].acked then [] else [Span(c, p[0].end)], Unacked(p[0].end, p[1..]),
            EventHere(parses, file[pos..end], pos));
    }
  }

  /** Settling commits only lines that are no events or are stored. */
  lemma {:induction false} SettleCovers(parses: Parser, file: Bytes, stored: seq<Span>, epoch: nat, q: Queue, pos: nat)
    requires Spans(parses, file, stored, q.committed, q.pending, pos) && epoch <= q.committed <= |file|
    requires WholeLines(file[epoch..q.committed]) && Covered(parses, file, epoch, q.committed, stored)
    ensures var r := Settle(q);
            && q.committed <= r.committed <= |file| && r.committed <= pos
            && WholeLines(file[epoch..r.committed]) && Covered(parses, file, epoch, r.committed, stored)
            && Spans(parses, file, stored, r.committed, r.pending, pos)
            && (|r.pending| > 0 ==> !r.pending[0].acked)
            && Unacked(r.committed, r.pending) == Unacked(q.committed, q.pending)
    decreases |q.pending|
  {
    hide IsEvent, LineEnd, Events;
    var p := q.pending;
    if |p| == 0 || !p[0].acked {
      SpansBounds(parses, file, stored, q.committed, p, pos);
      assert p[0..] == p;
    } else {
      var next := Queue(p[1..], p[0].end);
      OneMoreLine(parses, file, epoch, q.committed, p[0].end);
      SettleCovers(parses, file, stored, epoch, next, pos);
      SettleSkips(q);
      Empty(Unacked(p[0].end, p[1..]));
    }
  }

  lemma SettleSkips(q: Queue)
    requires |q.pending| > 0 && q.pending[0].acked
    ensures Settle(q) == Settle(Queue(q.pending[1..], q.pending[0].end))
  {
    var p := q.pending;
    var n := AckedRun(p[1..]);
    assert p[1..][n..] == p[n + 1..];
  }

  /** Acking marks the first line of a settled queue. */
  lemma AckMarksHead(parses: Parser, file: Bytes, stored: seq<Span>, q: Queue, pos: nat)
    requires Spans(parses, file, stored, q.committed, q.pending, pos)
    requires |q.pending| > 0 && !q.pending[0].acked && Span(q.committed, q.pending[0].end) in stored
    ensures var p := MarkFirst(q.pending);
            && Spans(parses, file, stored, q.committed, p, pos)
            && p[0] == PendingLine(q.pending[0].end, true)
            && Unacked(q.committed, p) == Unacked(q.committed, q.pending)[1..]
  {
    hide IsEvent, LineEnd;
    var p := MarkFirst(q.pending);
    assert p[1..] == q.pending[1..];
    Empty(Unacked(p[0].end, p[1..]));
    Halves([Span(q.committed, q.pending[0].end)], Unacked(q.pending[0].end, q.pending[1..]));
  }

  // ----- every step keeps the invariant

  lemma CoveredGrows(parses: Parser, file: Bytes, file': Bytes, from: nat, to: nat, stored: seq<Span>,
                     stored': seq<Span>)
    requires from <= to <= |file| && file <= file' && stored <= stored' && Covered(parses, file, from, to, stored)
    ensures Covered(parses, file', from, to, stored')
  {
    hide Events;
    SliceOfPrefix(file, file', from, to);
  }

  lemma GrowKeepsInv(parses: Parser, s: State, bytes: Bytes)
    requires Inv(parses, s)
    ensures Inv(parses, s.(file := s.file + bytes))
  {
    hide Events, Lines, Covered, Spans, Unacked;
    var f, f' := s.file, s.file + bytes;
    if s.saved.Some? {
      SliceOfPrefix(f, f', s.epoch, s.saved.value);
      CoveredGrows(parses, f, f', s.epoch, s.saved.value, s.stored, s.stored);
    }
    if s.run.Up? {
      var q := s.run.queue;
      SliceOfPrefix(f, f', s.epoch, s.run.from);
      SliceOfPrefix(f, f', s.run.from, s.run.pos);
      SliceOfPrefix(f, f', s.epoch, s.run.pos);
      SliceOfPrefix(f, f', s.epoch, q.committed);
      CoveredGrows(parses, f, f', s.epoch, q.committed, s.stored, s.stored);
      SpansGrow(parses, f, f', s.stored, s.stored, q.committed, q.pending, s.run.pos);
    }
  }

  lemma StartKeepsInv(parses: Parser, s: State, created: bool)
    requires Inv(parses, s) && Enabled(s, Start(created))
    ensures Inv(parses, Apply(parses, s, Start(created)))
  {
    var from := Apply(parses, s, Start(created)).run.from;
    assert s.file[from..from] == [];
  }

  lemma TakeLineKeepsInv(parses: Parser, s: State)
    requires Inv(parses, s) && Enabled(s, TakeLine)
    ensures Inv(parses, Apply(parses, s, TakeLine))
  {
    hide Events, Covered, Spans, Unacked, LineEnd, IsEvent, EventHere, Settle, Lines, ReadInv, AccountInv;
    var s' := Apply(parses, s, TakeLine);
    var q, pos, end := s.run.queue, s.run.pos, s'.run.pos;
    FirstLineAt(s);
    TakeLineReads(parses, s);
    TakeLineAccounts(parses, s);
    SpansAppend(parses, s.file, s.stored, q.committed, q.pending, pos, end);
    var line := PendingLine(end, !IsEvent(parses, s.file[pos..end]));
    SettleCovers(parses, s.file, s.stored, s.epoch, Queue(q.pending + [line], q.committed), end);
    Assoc(s.run.waiting, s.run.inflight, EventHere(parses, s.file[pos..end], pos));
  }

  lemma TakeLineReads(parses: Parser, s: State)
    requires ReadInv(s) && Enabled(s, TakeLine)
    ensures ReadInv(Apply(parses, s, TakeLine))
  {
    hide LineEnd, EventHere, IsEvent, Settle;
    var s' := Apply(parses, s, TakeLine);
    var from, pos, end := s.run.from, s.run.pos, s'.run.pos;
    FirstLineAt(s);
    LineIsWhole(s.file, pos, end);
    WholeLinesJoin(s.file, from, pos, end);
    Extend(s.file, from, pos, end);
    LinesConcat(s.file[from..pos], s.file[pos..end]);
  }

  lemma TakeLineAccounts(parses: Parser, s: State)
    requires ReadInv(s) && AccountInv(parses, s) && Enabled(s, TakeLine)
    ensures AccountInv(parses, Apply(parses, s, TakeLine))
  {
    hide Events, LineEnd, EventHere, IsEvent, Settle, Lines;
    var s' := Apply(parses, s, TakeLine);
    FirstLineAt(s);
    WholeLinesJoin(s.file, s.epoch, s.run.from, s.run.pos);
    OneMoreLine(parses, s.file, s.epoch, s.run.pos, s'.run.pos);
  }

  lemma StoreKeepsInv(parses: Parser, s: State)
    requires Inv(parses, s) && Enabled(s, Label.Store)
    ensures Inv(parses, Apply(parses, s, Label.Store))
  {
    hide Events, Covered, Spans, Unacked, Lines;
    var s' := Apply(parses, s, Label.Store);
    var q := s.run.queue;
    if s.saved.Some? {
      CoveredGrows(parses, s.file, s.file, s.epoch, s.saved.value, s.stored, s'.stored);
    }
    CoveredGrows(parses, s.file, s.file, s.epoch, q.committed, s.stored, s'.stored);
    SpansGrow(parses, s.file, s.file, s.stored, s'.stored, q.committed, q.pending, s.run.pos);
    var e, rest := s.run.inflight[0], s.run.inflight[1..];
    assert s.run.inflight == [e] + rest;
    Assoc(s.run.waiting, [e], rest);
    forall x | x in s.run.inflight
      ensures x in s'.stored || x in s'.run.inflight
    {
    }
  }

  lemma AckKeepsInv(parses: Parser, s: State, flush: bool)
    requires Inv(parses, s) && Enabled(s, Ack(flush))
    ensures Inv(parses, Apply(parses, s, Ack(flush)))
  {
    hide Events, Covered, Spans, Settle, Lines, AccountInv;
    var s' := Apply(parses, s, Ack(flush));
    var q := s.run.queue;
    HeadIsOldest(s);
    AckMarksHead(parses, s.file, s.stored, q, s.run.pos);
    var marked := Queue(MarkFirst(q.pending), q.committed);
    SettleCovers(parses, s.file, s.stored, s.epoch, marked, s.run.pos);
    SettlePassesHead(parses, s.file, s.stored, marked, s.run.pos);
    ConcatDrop(s.run.waiting, s.run.inflight, 1);
    AckKeepsAccount(parses, s, flush);
  }

  lemma AckKeepsAccount(parses: Parser, s: State, flush: bool)
    requires AccountInv(parses, s) && Enabled(s, Ack(flush))
    ensures AccountInv(parses, Apply(parses, s, Ack(flush)))
  {
    hide Events;
  }

  /** The oldest event waiting for its ack heads the queue. */
  lemma HeadIsOldest(s: State)
    requires s.run.Up? && |s.run.waiting| > 0
    requires Unacked(s.run.queue.committed, s.run.queue.pending) == s.run.waiting + s.run.inflight
    requires |s.run.queue.pending| > 0 ==> !s.run.queue.pending[0].acked
    ensures |s.run.queue.pending| > 0
    ensures Span(s.run.queue.committed, s.run.queue.pending[0].end) == s.run.waiting[0]
  {
    assert (s.run.waiting + s.run.inflight)[0] == s.run.waiting[0];
  }

  lemma SettlePassesHead(parses: Parser, file: Bytes, stored: seq<Span>, q: Queue, pos: nat)
    requires Spans(parses, file, stored, q.committed, q.pending, pos) && |q.pending| > 0 && q.pending[0].acked
    ensures q.pending[0].end <= Settle(q).committed
  {
    var next := Queue(q.pending[1..], q.pending[0].end);
    SettleSkips(q);
    SettleRises(parses, file, stored, next, pos);
  }

  lemma {:induction false} SettleRises(parses: Parser, file: Bytes, stored: seq<Span>, q: Queue, pos: nat)
    requires Spans(parses, file, stored, q.committed, q.pending, pos)
    ensures q.committed <= Settle(q).committed
    decreases |q.pending|
  {
    if |q.pending| > 0 && q.pending[0].acked {
      SettleSkips(q);
      SettleRises(parses, file, stored, Queue(q.pending[1..], q.pending[0].end), pos);
    }
  }

  lemma QuietStepKeepsInv(parses: Parser, s: State, l: Label)
    requires Inv(parses, s) && Enabled(s, l) && (l.Fill? || l.Rewind? || l.Flush? || l.Crash?)
    ensures Inv(parses, Apply(parses, s, l))
  {
    hide Events, Covered, Spans, Unacked, Lines, LineEnd;
  }

  lemma StepKeepsInv(parses: Parser, s: State, l: Label)
    requires Inv(parses, s) && Enabled(s, l)
    ensures Inv(parses, Apply(parses, s, l))
  {
    hide Inv;
    match l
    case Grow(bytes) => GrowKeepsInv(parses, s, bytes);
    case Start(created) => StartKeepsInv(parses, s, created);
    case TakeLine => TakeLineKeepsInv(parses, s);
    case Store => StoreKeepsInv(parses, s);
    case Ack(flush) => AckKeepsInv(parses, s, flush);
    case _ => QuietStepKeepsInv(parses, s, l);
  }

  lemma {:induction false} InvHolds(parses: Parser, tr: seq<State>, ls: seq<Label>, i: nat)
    requires Run(parses, tr, ls) && i < |tr|
    ensures Inv(parses, tr[i])
  {
    hide Apply, Enabled, Inv;
    if i == 0 {
      InitInv(parses);
    } else {
      InvHolds(parses, tr, ls, i - 1);
      StepKeepsInv(parses, tr[i - 1], ls[i - 1]);
    }
  }

  lemma InitInv(parses: Parser)
    ensures Inv(parses, INIT)
  {
  }

  // ----- what holds over every run

  /** Nothing is left to read: no whole line lies after pos. */
  ghost predicate CaughtUp(s: State) {
    s.run.Up? && s.run.pos <= |s.file| && LineEnd(s.file[s.run.pos..]).None?
  }

  /** Line reassembly: however the file grew and was read, the lines processed are exactly the whole
      lines from the start offset to pos, each once and in order, and all of them once caught up. */
  lemma LinesAreWholeAndOnce(parses: Parser, tr: seq<State>, ls: seq<Label>, i: nat)
    requires Run(parses, tr, ls) && i < |tr| && tr[i].run.Up?
    ensures var s := tr[i];
            && s.run.from <= s.run.pos <= |s.file|
            && Lines(s.file[s.run.from..]) == s.run.lines + Lines(s.file[s.run.pos..])
            && s.run.lines == Lines(s.file[s.run.from..s.run.pos]) && WholeLines(s.file[s.run.from..s.run.pos])
            && (CaughtUp(s) ==> s.run.lines == Lines(s.file[s.run.from..]))
  {
    hide Apply, Enabled, Lines, LineEnd, SavedInv, QueueInv, AccountInv;
    InvHolds(parses, tr, ls, i);
    var s := tr[i];
    ExtendToEnd(s.file, s.run.from, s.run.pos);
    LinesConcat(s.file[s.run.from..s.run.pos], s.file[s.run.pos..]);
    if CaughtUp(s) {
      NoLines(s.file[s.run.pos..]);
      Empty(s.run.lines);
    }
  }

  lemma NoLines(b: Bytes)
    requires LineEnd(b).None?
    ensures Lines(b) == []
  {
  }

  /** At least once: in every reachable state where the tailer has caught up and nothing is on its
      way, every event line since the epoch is stored, whatever crashed in between. */
  lemma EverythingIsStored(parses: Parser, tr: seq<State>, ls: seq<Label>, i: nat)
    requires Run(parses, tr, ls) && i < |tr| && CaughtUp(tr[i]) && tr[i].run.inflight == []
    ensures tr[i].epoch <= |tr[i].file|
    ensures forall e :: e in Events(parses, tr[i].file[tr[i].epoch..], tr[i].epoch) ==> e in tr[i].stored
  {
    hide Apply, Enabled, Lines, LineEnd, SavedInv, QueueInv, Events;
    InvHolds(parses, tr, ls, i);
    var s := tr[i];
    WholeLinesJoin(s.file, s.epoch, s.run.from, s.run.pos);
    ExtendToEnd(s.file, s.epoch, s.run.pos);
    EventsConcat(parses, s.file[s.epoch..s.run.pos], s.file[s.run.pos..], s.epoch, s.run.pos);
    NoEvents(parses, s.file[s.run.pos..], s.run.pos);
    Empty(Events(parses, s.file[s.epoch..s.run.pos], s.epoch));
  }

  lemma NoEvents(parses: Parser, b: Bytes, base: nat)
    requires LineEnd(b).None?
    ensures Events(parses, b, base) == []
  {
  }

  ghost function Measure(s: State): int {
    if s.run.Up? then 3 * (|s.file| - s.run.pos) + (|s.file| - s.run.off) + |s.run.inflight| else 0
  }

  /** Until then the tailer and its consumer can always take a step that brings it closer. */
  lemma ProgressIsPossible(parses: Parser, tr: seq<State>, ls: seq<Label>, i: nat) returns (l: Label)
    requires Run(parses, tr, ls) && i < |tr| && tr[i].run.Up?
    requires !(CaughtUp(tr[i]) && tr[i].run.inflight == [])
    ensures Enabled(tr[i], l) && (l.Fill? || l.TakeLine? || l.Store?)
    ensures 0 <= Measure(Apply(parses, tr[i], l)) < Measure(tr[i])
  {
    hide Lines, LineEnd, SavedInv, QueueInv, AccountInv, Events, IsEvent, Settle, Run;
    InvHolds(parses, tr, ls, i);
    var s := tr[i];
    var b := Buffer(s);
    if LineEnd(b).Some? {
      l := TakeLine;
    } else if s.run.off < |s.file| {
      l := Fill(1);
    } else {
      assert s.file[s.run.pos..] == b;
      l := Label.Store;
    }
  }

  /** A stop that flushes redelivers nothing that run acked: the next run starts at or after the end
      of every acked event, and everything it reads ends later. */
  lemma FlushedStopRedeliversNothingAcked(parses: Parser, tr: seq<State>, ls: seq<Label>, i: nat)
    requires Run(parses, tr, ls) && i < |tr| && tr[i].run.Up?
    ensures var stopped := Apply(parses, Apply(parses, tr[i], Flush), Crash);
            var next := Apply(parses, stopped, Start(false));
            && next.epoch == tr[i].epoch
            && (forall e :: e in tr[i].run.acked ==> e.end <= next.run.from)
            && forall e :: e in Events(parses, next.file[next.run.from..], next.run.from) ==> e !in tr[i].run.acked
  {
    hide Lines, LineEnd, SavedInv, ReadInv, AccountInv, Events, Run, Covered, Spans, Unacked;
    InvHolds(parses, tr, ls, i);
    var s := tr[i];
    EventsBounded(parses, s.file[s.run.queue.committed..], s.run.queue.committed);
  }

  // ----- at least once, over whole runs

  /** Stored events lie in the file, and the epoch never comes before the first start. */
  ghost predicate HistoryInv(s: State) {
    && (s.first.None? ==> s.saved.None? && s.run.Down?)
    && (s.first.Some? ==> s.first.value <= s.epoch)
    && forall e :: e in s.stored ==> e.end <= |s.file|
  }

  lemma {:induction false} UnackedPlaced(parses: Parser, file: Bytes, stored: seq<Span>, c: nat, p: seq<PendingLine>,
                                         pos: nat)
    requires Spans(parses, file, stored, c, p, pos)
    ensures forall e :: e in Unacked(c, p) ==> c <= e.start && e.end <= |file|
    decreases |p|
  {
    hide IsEvent, LineEnd;
    if |p| > 0 {
      UnackedPlaced(parses, file, stored, p[0].end, p[1..], pos);
    }
  }

  /** What is on its way lies between the epoch and the end of the file. */
  lemma InflightPlaced(parses: Parser, s: State)
    requires QueueInv(parses, s) && s.run.Up?
    ensures forall e :: e in s.run.inflight ==> s.epoch <= e.start && e.end <= |s.file|
  {
    hide Covered, Spans, Unacked;
    var q := s.run.queue;
    UnackedPlaced(parses, s.file, s.stored, q.committed, q.pending, s.run.pos);
    assert forall e :: e in s.run.inflight ==> e in s.run.waiting + s.run.inflight;
  }

  lemma StepKeepsHistory(parses: Parser, s: State, l: Label)
    requires Inv(parses, s) && HistoryInv(s) && Enabled(s, l)
    ensures HistoryInv(Apply(parses, s, l))
  {
    hide QueueInv, AccountInv, ReadInv, Covered, LineEnd, IsEvent, Settle;
    if l.Store? {
      InflightPlaced(parses, s);
    }
  }

  lemma {:induction false} HistoryHolds(parses: Parser, tr: seq<State>, ls: seq<Label>, i: nat)
    requires Run(parses, tr, ls) && i < |tr|
    ensures HistoryInv(tr[i])
  {
    hide Apply, Enabled, Inv;
    if i > 0 {
      HistoryHolds(parses, tr, ls, i - 1);
      InvHolds(parses, tr, ls, i - 1);
      StepKeepsHistory(parses, tr[i - 1], ls[i - 1]);
    }
  }

  /** A start after the first one that finds no saved position: it begins at the end of the file. */
  ghost predicate Unsaved(s: State, l: Label) { l.Start? && s.saved.None? && s.first.Some? }

  /** Nothing that begins before an unsaved start is stored after it. */
  ghost predicate CutOff(s: State, s': State) {
    && s.file <= s'.file && s.stored <= s'.stored && s.first == s'.first && |s.file| <= s'.epoch
    && forall e :: e in s'.stored ==> e in s.stored || |s.file| <= e.start
  }

  lemma StepKeepsCutOff(parses: Parser, s: State, s': State, l: Label)
    requires Inv(parses, s') && Enabled(s', l) && CutOff(s, s') && s.first.Some?
    ensures CutOff(s, Apply(parses, s', l))
  {
    hide QueueInv, AccountInv, ReadInv, Covered, LineEnd, IsEvent, Settle;
    if l.Store? {
      InflightPlaced(parses, s');
    }
  }

  lemma {:induction false} NothingEarlierIsStoredLater(parses: Parser, tr: seq<State>, ls: seq<Label>, t: nat, i: nat)
    requires Run(parses, tr, ls) && t < i < |tr| && Unsaved(tr[t], ls[t])
    ensures CutOff(tr[t], tr[i])
    decreases i
  {
    assert Enabled(tr[i - 1], ls[i - 1]) && tr[i] == Apply(parses, tr[i - 1], ls[i - 1]);
    if t + 1 < i {
      hide Apply, Enabled, Inv, CutOff;
      NothingEarlierIsStoredLater(parses, tr, ls, t, i - 1);
      InvHolds(parses, tr, ls, i - 1);
      StepKeepsCutOff(parses, tr[t], tr[i - 1], ls[i - 1]);
    }
  }

  /** The epoch is the first start or the latest unsaved one. */
  lemma {:induction false} EpochIsAStart(parses: Parser, tr: seq<State>, ls: seq<Label>, i: nat)
    requires Run(parses, tr, ls) && i < |tr| && tr[i].first.Some?
    ensures tr[i].epoch == tr[i].first.value
            || exists t :: 0 <= t < i && Unsaved(tr[t], ls[t]) && tr[i].epoch == |tr[t].file|
    decreases i
  {
    hide LineEnd, IsEvent, Settle, EventHere;
    var s, l := tr[i - 1], ls[i - 1];
    assert Enabled(s, l) && tr[i] == Apply(parses, s, l);
    HistoryHolds(parses, tr, ls, i - 1);
    if s.first.Some? && !Unsaved(s, l) {
      EpochIsAStart(parses, tr, ls, i - 1);
    }
  }

  /** The start in state s loses none of the event lines of the file as it is later, counted from o: all
      that were whole had been stored, and none was half written. */
  ghost predicate LosesNothing(parses: Parser, s: State, file: Bytes, o: nat) {
    && o <= |s.file| && o <= |file|
    && (forall e :: e in Events(parses, s.file[o..], o) ==> e in s.stored)
    && forall e :: e in Events(parses, file[o..], o) ==> !(e.start < |s.file| < e.end)
  }

  /** A file that ends with a newline has no half-written line, whatever is appended. */
  lemma LineEndIsNotStraddled(parses: Parser, file: Bytes, more: Bytes, o: nat, e: Span)
    requires o <= |file| && WholeLines(file[o..]) && e in Events(parses, (file + more)[o..], o)
    ensures !(e.start < |file| < e.end)
  {
    hide Events;
    ConcatDrop(file, more, o);
    EventsConcat(parses, file[o..], more, o, |file|);
    EventsBounded(parses, file[o..], o);
    EventsBounded(parses, more, |file|);
  }

  /** Exactly when delivery is at least once: with the tailer caught up and nothing on its way, every
      event line since the very first start is stored if and only if no later start without a saved
      position lost any. In particular always while every later start finds a saved position. */
  lemma AtLeastOnceIff(parses: Parser, tr: seq<State>, ls: seq<Label>, i: nat)
    requires Run(parses, tr, ls) && i < |tr| && CaughtUp(tr[i]) && tr[i].run.inflight == []
    ensures tr[i].first.Some? && tr[i].first.value <= |tr[i].file|
    ensures var s, o := tr[i], tr[i].first.value;
            (forall e :: e in Events(parses, s.file[o..], o) ==> e in s.stored)
            <==> forall t :: 0 <= t < i && Unsaved(tr[t], ls[t]) ==> LosesNothing(parses, tr[t], s.file, o)
  {
    hide Apply, Enabled, Inv, Events, LineEnd, LosesNothing;
    HistoryHolds(parses, tr, ls, i);
    EverythingIsStored(parses, tr, ls, i);
    var s := tr[i];
    var o := s.first.value;
    if forall e :: e in Events(parses, s.file[o..], o) ==> e in s.stored {
      forall t | 0 <= t < i && Unsaved(tr[t], ls[t])
        ensures LosesNothing(parses, tr[t], s.file, o)
      {
        NothingEarlierIsStoredLater(parses, tr, ls, t, i);
        HistoryHolds(parses, tr, ls, t);
        assert tr[t].epoch <= |tr[t].file| by { EpochInFile(parses, tr, ls, t); }
        StoredMeansNotLost(parses, tr[t], s, o);
      }
    }
    if forall t :: 0 <= t < i && Unsaved(tr[t], ls[t]) ==> LosesNothing(parses, tr[t], s.file, o) {
      EpochIsAStart(parses, tr, ls, i);
      if s.epoch != o {
        var t :| 0 <= t < i && Unsaved(tr[t], ls[t]) && s.epoch == |tr[t].file|;
        NothingEarlierIsStoredLater(parses, tr, ls, t, i);
        NotLostMeansStored(parses, tr[t], s, o);
      }
    }
  }

  lemma EpochInFile(parses: Parser, tr: seq<State>, ls: seq<Label>, i: nat)
    requires Run(parses, tr, ls) && i < |tr|
    ensures tr[i].epoch <= |tr[i].file|
  {
    hide Run, QueueInv, ReadInv, AccountInv, Covered;
    InvHolds(parses, tr, ls, i);
  }

  lemma SuffixOfPrefix(file: Bytes, file': Bytes, o: nat)
    requires o <= |file| && file <= file'
    ensures file'[o..][..|file| - o] == file[o..]
  {
  }

  lemma StoredMeansNotLost(parses: Parser, s: State, s': State, o: nat)
    requires CutOff(s, s') && HistoryInv(s) && s.first == Some(o) && s.epoch <= |s.file|
    requires forall e :: e in Events(parses, s'.file[o..], o) ==> e in s'.stored
    ensures LosesNothing(parses, s, s'.file, o)
  {
    hide Events;
    forall e | e in Events(parses, s.file[o..], o)
      ensures e in s.stored
    {
      EventsBounded(parses, s.file[o..], o);
      SuffixOfPrefix(s.file, s'.file, o);
      EventsOfPrefix(parses, s'.file[o..], |s.file| - o, o, e);
    }
  }

  lemma NotLostMeansStored(parses: Parser, s: State, s': State, o: nat)
    requires CutOff(s, s') && LosesNothing(parses, s, s'.file, o) && s'.epoch == |s.file|
    requires forall e :: e in Events(parses, s'.file[s'.epoch..], s'.epoch) ==> e in s'.stored
    ensures forall e :: e in Events(parses, s'.file[o..], o) ==> e in s'.stored
  {
    hide Events;
    forall e | e in Events(parses, s'.file[o..], o)
      ensures e in s'.stored
    {
      if e.end <= |s.file| {
        SuffixOfPrefix(s.file, s'.file, o);
        EventsOfPrefix(parses, s'.file[o..], |s.file| - o, o, e);
      } else {
        EventsResume(parses, s'.file, o, |s.file|, e);
      }
    }
  }

  /** The event lines of a prefix are the event lines that end in it. */
  lemma {:induction false} EventsOfPrefix(parses: Parser, b: Bytes, n: nat, base: nat, e: Span)
    requires n <= |b|
    ensures e in Events(parses, b[..n], base) <==> e in Events(parses, b, base) && e.end <= base + n
    decreases |b|
  {
    hide LineEnd, EventHere, Events;
    EventsBounded(parses, b[..n], base);
    match LineEnd(b) {
      case None =>
        PrefixLineEnd(b, n);
        NoEvents(parses, b, base);
        NoEvents(parses, b[..n], base);
      case Some(k) =>
        PrefixLineEnd(b, n);
        EventsFrom(parses, b, base, k);
        EventsBounded(parses, b[k..], base + k);
        HereIsWhole(parses, b[..k], base);
        if k <= n {
          EventsFrom(parses, b[..n], base, k);
          assert b[..n][..k] == b[..k] && b[..n][k..] == b[k..][..n - k];
          EventsOfPrefix(parses, b[k..], n - k, base + k, e);
        } else {
          NoEvents(parses, b[..n], base);
        }
    }
  }

  lemma PrefixLineEnd(b: Bytes, n: nat)
    requires n <= |b|
    ensures LineEnd(b[..n]) == if LineEnd(b).Some? && LineEnd(b).value <= n then LineEnd(b) else None
  {
    hide LineEnd;
    Cut(b, n);
    if LineEnd(b).Some? && LineEnd(b).value <= n {
      var k := LineEnd(b).value;
      assert b[..n][k - 1] == NEWLINE && b[..n][k - 1] in b[..n];
    }
    if LineEnd(b[..n]).Some? {
      LineEndOfPrefix(b[..n], b[n..]);
    }
  }

  lemma HereIsWhole(parses: Parser, line: Bytes, start: nat)
    ensures forall e :: e in EventHere(parses, line, start) ==> e == Span(start, start + |line|)
  {
  }

  /** Reading from x on finds every event line that starts at x or later, even if x is inside a line. */
  lemma {:induction false} EventsResume(parses: Parser, file: Bytes, o: nat, x: nat, e: Span)
    requires o <= x <= |file| && e in Events(parses, file[o..], o) && x <= e.start
    ensures e in Events(parses, file[x..], x)
    decreases |file| - o
  {
    hide LineEnd, EventHere, Events;
    if o < x {
      if LineEnd(file[o..]).None? {
        NoEvents(parses, file[o..], o);
      } else {
        var k := LineEnd(file[o..]).value;
        EventsFrom(parses, file[o..], o, k);
        HereIsWhole(parses, file[o..][..k], o);
        DropDrop(file, o, k);
        if o + k <= x {
          EventsResume(parses, file, o + k, x, e);
        } else {
          InsideALine(parses, file, o, x, k);
        }
      }
    }
  }

  lemma InsideALine(parses: Parser, file: Bytes, o: nat, x: nat, k: nat)
    requires o <= x < o + k <= |file| && LineEnd(file[o..]) == Some(k)
    ensures forall e :: e in Events(parses, file[o + k..], o + k) ==> e in Events(parses, file[x..], x)
  {
    hide LineEnd, EventHere, Events;
    DropDrop(file, o, x - o);
    LineEndInside(file[o..], k, x - o);
    EventsFrom(parses, file[x..], x, o + k - x);
    DropDrop(file, x, o + k - x);
  }

  /** From anywhere inside a line, the next line end is that line's. */
  lemma LineEndInside(b: Bytes, k: nat, j: nat)
    requires LineEnd(b) == Some(k) && j < k
    ensures LineEnd(b[j..]) == Some(k - j)
  {
    hide LineEnd;
    DropSlice(b, j, 0, k - 1 - j);
    assert forall i :: j <= i < k - 1 ==> b[i] == b[..k - 1][i];
    LineEndIs(b[j..], k - j);
  }

  /** The first newline is the line end. */
  lemma LineEndIs(b: Bytes, k: nat)
    requires 0 < k <= |b| && b[k - 1] == NEWLINE && NEWLINE !in b[..k - 1]
    ensures LineEnd(b) == Some(k)
  {
    hide LineEnd;
    assert b[k - 1] in b;
    var n := LineEnd(b).value;
    assert forall i :: 0 <= i < k - 1 ==> b[i] == b[..k - 1][i];
    assert forall i :: 0 <= i < n - 1 ==> b[i] == b[..n - 1][i];
  }

  // ----- one restart, and the two ways to lose an event

  /** However the file grows afterwards, a restart still reaches every unstored event since the epoch
      exactly when a position was saved, or everything whole is stored and no event is half written:
      before the first flush nothing is saved, and the next run starts at the end of the file. */
  lemma RestartReachesIff(parses: Parser, tr: seq<State>, ls: seq<Label>, i: nat, more: Bytes)
    requires Run(parses, tr, ls) && i < |tr| && tr[i].run.Down?
    ensures var s := tr[i];
            var from, grown := Apply(parses, s, Start(false)).run.from, s.file + more;
            && s.epoch <= |s.file| && from <= |s.file|
            && ((forall e :: e in Events(parses, grown[s.epoch..], s.epoch) && e !in s.stored ==>
                   e in Events(parses, grown[from..], from))
                <==> s.saved.Some? || LosesNothing(parses, s, grown, s.epoch))
  {
    hide ReadInv, QueueInv, AccountInv, Events, Run;
    InvHolds(parses, tr, ls, i);
    HistoryHolds(parses, tr, ls, i);
    var s := tr[i];
    if s.saved.Some? {
      SavedRestartReaches(parses, s, more);
    } else {
      UnsavedRestartReaches(parses, s, more);
    }
  }

  lemma SavedRestartReaches(parses: Parser, s: State, more: Bytes)
    requires SavedInv(parses, s) && s.saved.Some?
    ensures var o, grown := s.saved.value, s.file + more;
            forall e :: e in Events(parses, grown[s.epoch..], s.epoch) && e !in s.stored ==>
              e in Events(parses, grown[o..], o)
  {
    hide Events;
    var o, grown := s.saved.value, s.file + more;
    ExtendToEnd(grown, s.epoch, o);
    SliceOfPrefix(s.file, grown, s.epoch, o);
    EventsConcat(parses, grown[s.epoch..o], grown[o..], s.epoch, o);
  }

  lemma UnsavedRestartReaches(parses: Parser, s: State, more: Bytes)
    requires HistoryInv(s) && s.epoch <= |s.file|
    ensures var x, grown := |s.file|, s.file + more;
            (forall e :: e in Events(parses, grown[s.epoch..], s.epoch) && e !in s.stored ==>
               e in Events(parses, grown[x..], x))
            <==> LosesNothing(parses, s, grown, s.epoch)
  {
    hide Events;
    var x, grown, o := |s.file|, s.file + more, s.epoch;
    EventsBounded(parses, grown[x..], x);
    EventsBounded(parses, s.file[o..], o);
    SuffixOfPrefix(s.file, grown, o);
    forall e
      ensures e in Events(parses, s.file[o..], o) <==> e in Events(parses, grown[o..], o) && e.end <= x
      ensures e in Events(parses, grown[o..], o) && x <= e.start ==> e in Events(parses, grown[x..], x)
    {
      EventsOfPrefix(parses, grown[o..], x - o, o, e);
      if e in Events(parses, grown[o..], o) && x <= e.start {
        EventsResume(parses, grown, o, x, e);
      }
    }
  }

  /** The first way: a first run that crashes before any ack leaves no saved position, and an event
      written during that run is neither stored nor ever read. */
  lemma CrashBeforeFirstFlushLosesEvents(parses: Parser, line: Bytes) returns (tr: seq<State>, ls: seq<Label>)
    requires LineEnd(line) == Some(|line|) && IsEvent(parses, line)
    ensures Run(parses, tr, ls) && |ls| == 4
    ensures tr[1].run.Up? && tr[1].run.from == 0 && Events(parses, tr[4].file, 0) == [Span(0, |line|)]
    ensures tr[4].stored == [] && tr[4].run.Up? && tr[4].run.from == |line| == |tr[4].file|
  {
    hide LineEnd, IsEvent, Events;
    var n := |line|;
    var s1 := INIT.(first := Some(0), run := Fresh(0));
    var s2 := s1.(file := line);
    Empty(line);
    var s3 := s2.(run := Down);
    var s4 := s3.(epoch := n, run := Fresh(n));
    tr, ls := [INIT, s1, s2, s3, s4], [Start(false), Grow(line), Crash, Start(false)];
    LoneEvent(parses, line);
  }

  function Fresh(from: nat): Process { Up(from, from, from, Queue([], from), [], [], [], []) }

  /** The second way: nothing whole is unstored when that run crashes, but half a line is written. The
      next run takes its second half for a line of its own and the event is never read. */
  lemma HalfLineAtRestartIsLost(parses: Parser, a: Bytes, b: Bytes) returns (tr: seq<State>, ls: seq<Label>)
    requires LineEnd(a).None? && |a| > 0 && LineEnd(b) == Some(|b|) && IsEvent(parses, a + b) && !IsEvent(parses, b)
    ensures Run(parses, tr, ls) && |ls| == 7
    ensures tr[1].run.Up? && tr[1].run.from == 0 && Events(parses, tr[3].file, 0) == [] && tr[3].saved.None?
    ensures Events(parses, tr[7].file, 0) == [Span(0, |a + b|)]
    ensures CaughtUp(tr[7]) && tr[7].run.inflight == [] && tr[7].stored == []
  {
    hide LineEnd, IsEvent, Events, Apply, Enabled;
    var s1 := INIT.(first := Some(0), run := Fresh(0));
    var s2, s3 := s1.(file := a), s1.(file := a, run := Down);
    var s4 := s3.(epoch := |a|, run := Fresh(|a|));
    var s5 := s4.(file := a + b);
    var s6 := s5.(run := s5.run.(off := |a + b|));
    var s7 := SecondHalfAlone(parses, a, b, s4, s5, s6);
    tr := [INIT, s1, s2, s3, s4, s5, s6, s7];
    ls := [Start(false), Grow(a), Crash, Start(false), Grow(b), Fill(|b|), TakeLine];
    CrashedInALine(parses, a, s1, s2, s3, s4);
    EmptyHasNoLine();
    NoEvents(parses, a, 0);
    WholeLineOf(a, b);
    LoneEvent(parses, a + b);
  }

  lemma CrashedInALine(parses: Parser, a: Bytes, s1: State, s2: State, s3: State, s4: State)
    requires s1 == INIT.(first := Some(0), run := Fresh(0)) && s2 == s1.(file := a) && s3 == s2.(run := Down)
    requires s4 == s3.(epoch := |a|, run := Fresh(|a|))
    ensures Enabled(INIT, Start(false)) && s1 == Apply(parses, INIT, Start(false))
    ensures Enabled(s1, Grow(a)) && s2 == Apply(parses, s1, Grow(a))
    ensures Enabled(s2, Crash) && s3 == Apply(parses, s2, Crash)
    ensures Enabled(s3, Start(false)) && s4 == Apply(parses, s3, Start(false))
  {
    Empty(a);
  }

  lemma SecondHalfAlone(parses: Parser, a: Bytes, b: Bytes, s4: State, s5: State, s6: State) returns (s7: State)
    requires LineEnd(b) == Some(|b|) && !IsEvent(parses, b)
    requires s4.file == a && s4.run == Fresh(|a|) && s4.stored == []
    requires s5 == s4.(file := a + b) && s6 == s5.(run := s5.run.(off := |a + b|))
    ensures Enabled(s4, Grow(b)) && s5 == Apply(parses, s4, Grow(b))
    ensures Enabled(s5, Fill(|b|)) && s6 == Apply(parses, s5, Fill(|b|))
    ensures Enabled(s6, TakeLine) && s7 == Apply(parses, s6, TakeLine)
    ensures s7.file == a + b && s7.run.Up? && s7.run.pos == |a + b| && s7.run.inflight == [] && s7.stored == []
  {
    hide LineEnd, IsEvent, Settle;
    Halves(a, b);
    assert Buffer(s6) == b && b[..|b|] == b;
    assert Buffer(s5) == [];
    EmptyHasNoLine();
    s7 := Apply(parses, s6, TakeLine);
  }

  lemma EmptyHasNoLine()
    ensures LineEnd([]) == None
  {
  }

  /** A line without its first half ends where the whole line does. */
  lemma WholeLineOf(a: Bytes, b: Bytes)
    requires LineEnd(a).None? && LineEnd(b) == Some(|b|)
    ensures LineEnd(a + b) == Some(|a + b|)
  {
    hide LineEnd;
    var m := |a + b|;
    ConcatTake(a, b, m - 1);
    assert NEWLINE !in a + b[..|b| - 1];
    LineEndIs(a + b, m);
  }

  lemma LoneEvent(parses: Parser, line: Bytes)
    requires LineEnd(line) == Some(|line|) && IsEvent(parses, line)
    ensures Events(parses, line, 0) == [Span(0, |line|)]
  {
    SingleLineEvents(parses, line, 0);
  }

  // ----- the queue against its simple specification

  datatype Op = Recorded(end: nat, emitted: bool) | Acked

  function Perform(q: Queue, op: Op): Queue {
    match op
    case Recorded(end, emitted) => RecordLine(q, end, emitted)
    case Acked => AckOldest(q)
  }

  function PerformAll(from: nat, ops: seq<Op>): Queue {
    if |ops| == 0 then Queue([], from) else Perform(PerformAll(from, ops[..|ops| - 1]), ops[|ops| - 1])
  }

  /** The specification: the lines recorded so far, and for each whether it still waits. An ack ends
      the wait of the oldest waiting line. */
  function History(ops: seq<Op>): seq<PendingLine> {
    if |ops| == 0 then []
    else
      var before, op := History(ops[..|ops| - 1]), ops[|ops| - 1];
      match op
      case Recorded(end, emitted) => before + [PendingLine(end, !emitted)]
      case Acked => MarkFirst(before)
  }

  /** Commit up to just before the first line that still waits. */
  function CommitPoint(from: nat, lines: seq<PendingLine>): nat {
    var k := AckedRun(lines);
    if k == 0 then from else lines[k - 1].end
  }

  /** After any sequence of records and acks, the queue's committed position is the specified one,
      and it keeps exactly the lines from the first waiting one on. */
  lemma {:induction false} QueueRefinesSpec(from: nat, ops: seq<Op>)
    ensures var h := History(ops);
            PerformAll(from, ops) == Queue(h[AckedRun(h)..], CommitPoint(from, h))
    decreases |ops|
  {
    if |ops| > 0 {
      hide AckedRun, Settle, MarkFirst, CommitPoint;
      var before := ops[..|ops| - 1];
      QueueRefinesSpec(from, before);
      var h := History(before);
      var n := AckedRun(h);
      match ops[|ops| - 1]
      case Recorded(end, emitted) =>
        var line := [PendingLine(end, !emitted)];
        ConcatDrop(h, line, n);
        TakeOfConcat(h, line, n);
        SettleAgain(from, h, h + line, n);
      case Acked =>
        MarkBeyond(h, n);
        SettleAgain(from, h, MarkFirst(h), n);
    }
  }

  /** Marking the first waiting line leaves the settled prefix alone. */
  lemma {:induction false} MarkBeyond(h: seq<PendingLine>, n: nat)
    requires n <= |h| && (n < |h| ==> !h[n].acked) && forall i :: 0 <= i < n ==> h[i].acked
    ensures |MarkFirst(h)| == |h|
    ensures MarkFirst(h)[..n] == h[..n] && MarkFirst(h)[n..] == MarkFirst(h[n..])
    decreases n
  {
    MarksAt(h, n);
    MarksAt(h[n..], 0);
  }

  /** Settling what is left after a settled prefix gives what settling everything would. */
  lemma SettleAgain(from: nat, h: seq<PendingLine>, h': seq<PendingLine>, n: nat)
    requires n == AckedRun(h) <= |h'| && h'[..n] == h[..n]
    ensures Settle(Queue(h'[n..], CommitPoint(from, h))) == Queue(h'[AckedRun(h')..], CommitPoint(from, h'))
  {
    hide AckedRun;
    var m := AckedRun(h'[n..]);
    RunAfterRun(h, h', n);
    DropDrop(h', n, m);
    if n > 0 && m == 0 {
      assert h'[..n][n - 1] == h[..n][n - 1];
    }
  }

  lemma RunAfterRun(h: seq<PendingLine>, h': seq<PendingLine>, n: nat)
    requires n == AckedRun(h) <= |h'| && h'[..n] == h[..n]
    ensures AckedRun(h') == n + AckedRun(h'[n..])
  {
    hide AckedRun;
    var m := AckedRun(h'[n..]);
    forall i | 0 <= i < n + m
      ensures h'[i].acked
    {
      if i < n {
        assert h'[..n][i] == h[..n][i];
      } else {
        assert h'[n..][i - n] == h'[i];
      }
    }
    RunIsUnique(h', n + m);
  }

  lemma RunIsUnique(p: seq<PendingLine>, n: nat)
    requires n <= |p| && (n < |p| ==> !p[n].acked) && forall i :: 0 <= i < n ==> p[i].acked
    ensures AckedRun(p) == n
  {
  }
}
