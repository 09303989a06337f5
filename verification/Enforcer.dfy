/** The enforcer's reader of the log (internal/enforcer/reader.go): ordered delivery through a
    channel that may be full. */
module Enforcer {
  import opened Bytes
  import opened Records
  import opened Framing
  import opened Sequences
  import opened Store
  import opened Protocol
  import opened StoreSafety

  datatype Event = Event(entry: Entry, leafIndex: nat, leafHash: Digest)

  /** The whole log as events, each with its own index and leaf hash. */
  function EventsOf(c: Suite, entries: seq<Entry>): (evs: seq<Event>)
    ensures |evs| == |entries|
    ensures forall i :: 0 <= i < |evs| ==> evs[i] == Event(entries[i], i, Leaf(c, entries[i]))
  {
    seq(|entries|, i requires 0 <= i < |entries| => Event(entries[i], i, Leaf(c, entries[i])))
  }

  /** One poll from entry i on: the events it sends and the lastSeq it leaves, when the channel takes
      room more events before a send would block. */
  function Walk(c: Suite, entries: seq<Entry>, i: nat, lastSeq: nat, room: nat): (seq<Event>, nat)
    requires i <= |entries|
    decreases |entries| - i
  {
    if i == |entries| then ([], lastSeq)
    else
      var e := entries[i];
      if e.seqNo <= lastSeq then Walk(c, entries, i + 1, lastSeq, room)
      else if room == 0 then ([], e.seqNo - 1)
      else
        var (sent, last) := Walk(c, entries, i + 1, e.seqNo, room - 1);
        ([Event(e, i, Leaf(c, e))] + sent, last)
  }

  class TailReader {
    const c: Suite
    var lastSeq: nat

    constructor (c: Suite)
      ensures this.c == c && lastSeq == 0
    {
      this.c, lastSeq := c, 0;
    }

    /** poll's loop, over whatever the log holds. */
    method Poll(entries: seq<Entry>, room: nat) returns (sent: seq<Event>)
      modifies this`lastSeq
      ensures (sent, lastSeq) == Walk(c, entries, 0, old(lastSeq), room)
    {
      hide Leaf;
      sent := [];
      var free := room;
      Empty(Walk(c, entries, 0, lastSeq, room).0);
      for i := 0 to |entries|
        invariant 0 <= free
        invariant var rest := Walk(c, entries, i, lastSeq, free);
                  Walk(c, entries, 0, old(lastSeq), room) == (sent + rest.0, rest.1)
      {
        var e := entries[i];
        if e.seqNo <= lastSeq {
          continue;
        }
        lastSeq := e.seqNo;
        if free == 0 {
          lastSeq := e.seqNo - 1;
          Empty(sent);
          return;
        }
        var event := Event(e, i, Leaf(c, e));
        Assoc(sent, [event], Walk(c, entries, i + 1, lastSeq, free - 1).0);
        sent, free := sent + [event], free - 1;
      }
      Empty(sent);
    }
  }

  // ----- one poll

  function Least(a: nat, b: nat): nat { if a <= b then a else b }

  /** lastSeq falls between the first n numbers and the rest. */
  ghost predicate Splits(es: seq<Entry>, n: nat, lastSeq: nat) {
    && n <= |es|
    && (forall i :: 0 <= i < n ==> es[i].seqNo <= lastSeq)
    && (forall i :: n <= i < |es| ==> lastSeq < es[i].seqNo)
  }

  lemma {:induction false} SplitPlace(es: seq<Entry>, lastSeq: nat) returns (n: nat)
    requires Rising(es)
    ensures Splits(es, n, lastSeq)
    decreases |es|
  {
    n := |es|;
    if |es| > 0 && es[|es| - 1].seqNo > lastSeq {
      n := SplitPlace(es[..|es| - 1], lastSeq);
      assert forall i :: 0 <= i < |es| - 1 ==> es[..|es| - 1][i] == es[i];
    }
  }

  lemma {:induction false} WalkSkips(c: Suite, es: seq<Entry>, i: nat, n: nat, lastSeq: nat, room: nat)
    requires Splits(es, n, lastSeq) && i <= n
    ensures Walk(c, es, i, lastSeq, room) == Walk(c, es, n, lastSeq, room)
    decreases n - i
  {
    if i < n {
      WalkSkips(c, es, i + 1, n, lastSeq, room);
    }
  }

  /** A poll from place n sends the next stretch of the log, as much as fits. The lastSeq it leaves
      is at the end of that stretch, unmoved if the log was at its end, and never beyond the log. */
  lemma {:induction false} WalkSends(c: Suite, es: seq<Entry>, n: nat, lastSeq: nat, room: nat)
    requires Rising(es) && n <= |es| && Splits(es, n, lastSeq)
    ensures var m := Least(room, |es| - n);
            var (sent, last) := Walk(c, es, n, lastSeq, room);
            && sent == EventsOf(c, es)[n..n + m] && Splits(es, n + m, last) && lastSeq <= last
            && if n == |es| then last == lastSeq else last <= es[|es| - 1].seqNo
    decreases |es| - n
  {
    hide Leaf, Rising, Splits, EventsOf;
    var all := EventsOf(c, es);
    assert all[n..n] == [];
    if n < |es| {
      SplitsNext(es, n, lastSeq);
      if room > 0 {
        WalkSends(c, es, n + 1, es[n].seqNo, room - 1);
        ConsSlice(all, n, n + Least(room, |es| - n));
      }
    }
  }

  lemma SplitsNext(es: seq<Entry>, n: nat, lastSeq: nat)
    requires Rising(es) && Splits(es, n, lastSeq) && n < |es|
    ensures lastSeq < es[n].seqNo <= es[|es| - 1].seqNo
    ensures Splits(es, n + 1, es[n].seqNo) && Splits(es, n, es[n].seqNo - 1)
  {
  }

  /** A whole poll: which stretch it sends is fixed by lastSeq and the room. */
  lemma PollSends(c: Suite, es: seq<Entry>, lastSeq: nat, room: nat) returns (n: nat)
    requires Rising(es)
    ensures Splits(es, n, lastSeq)
    ensures var m := Least(room, |es| - n);
            var (sent, last) := Walk(c, es, 0, lastSeq, room);
            && sent == EventsOf(c, es)[n..n + m] && Splits(es, n + m, last) && lastSeq <= last
            && if n == |es| then last == lastSeq else last <= es[|es| - 1].seqNo
  {
    hide Leaf, Walk, Rising, EventsOf;
    n := SplitPlace(es, lastSeq);
    WalkSkips(c, es, 0, n, lastSeq, room);
    WalkSends(c, es, n, lastSeq, room);
  }

  // ----- over any sequence of polls

  datatype Turn = Turn(entries: seq<Entry>, room: nat)

  ghost predicate RisingLogs(ts: seq<Turn>) { forall k :: 0 <= k < |ts| ==> Rising(ts[k].entries) }

  /** Everything sent by these polls, and the lastSeq they leave. */
  ghost function Session(c: Suite, ts: seq<Turn>): (seq<Event>, nat) {
    if |ts| == 0 then ([], 0)
    else
      var (before, lastSeq) := Session(c, ts[..|ts| - 1]);
      var (sent, last) := Walk(c, ts[|ts| - 1].entries, 0, lastSeq, ts[|ts| - 1].room);
      (before + sent, last)
  }

  /** The log has this entry at this place. */
  predicate Shows(es: seq<Entry>, i: nat, e: Entry) { i < |es| && es[i] == e }

  ghost function EventAt(c: Suite, e: Entry, i: nat): Event { Event(e, i, Leaf(c, e)) }

  /** A poll sends an entry exactly if it sees it and takes lastSeq past its number. */
  lemma SentIffPassed(c: Suite, t: Turn, lastSeq: nat, e: Entry, i: nat)
    requires Rising(t.entries)
    ensures var (sent, last) := Walk(c, t.entries, 0, lastSeq, t.room);
            && lastSeq <= last
            && (EventAt(c, e, i) in sent <==> Shows(t.entries, i, e) && lastSeq < e.seqNo <= last)
  {
    hide Leaf, Walk, Rising;
    var es := t.entries;
    var n := PollSends(c, es, lastSeq, t.room);
    var all, m := EventsOf(c, es), n + Least(t.room, |es| - n);
    var sent := Walk(c, es, 0, lastSeq, t.room).0;
    if Shows(es, i, e) && n <= i < m {
      assert sent[i - n] == all[i] == EventAt(c, e, i);
    }
    if EventAt(c, e, i) in sent {
      var k :| 0 <= k < |sent| && sent[k] == EventAt(c, e, i);
      assert sent[k] == all[n + k];
    }
  }

  lemma SessionStep(c: Suite, ts: seq<Turn>, e: Entry, i: nat)
    requires RisingLogs(ts) && |ts| > 0
    ensures var m := |ts| - 1;
            var before, after := Session(c, ts[..m]), Session(c, ts);
            && before.1 <= after.1
            && (EventAt(c, e, i) in after.0 <==>
                  || EventAt(c, e, i) in before.0
                  || (Shows(ts[m].entries, i, e) && before.1 < e.seqNo <= after.1))
  {
    hide Leaf, Walk, Rising, Shows, EventAt;
    SentIffPassed(c, ts[|ts| - 1], Session(c, ts[..|ts| - 1]).1, e, i);
  }

  /** Exactly which events any polls of any logs deliver: those whose entry was seen in its place by
      the poll that took lastSeq past its number. */
  lemma {:induction false} DeliveredIffSeenInTime(c: Suite, ts: seq<Turn>, e: Entry, i: nat)
    requires RisingLogs(ts)
    ensures EventAt(c, e, i) in Session(c, ts).0 <==>
            exists k :: 0 <= k < |ts| && Shows(ts[k].entries, i, e)
                        && Session(c, ts[..k]).1 < e.seqNo <= Session(c, ts[..k + 1]).1
    decreases |ts|
  {
    hide Leaf, Walk, Rising, Shows, EventAt, Session;
    if |ts| == 0 {
      EmptySession(c, ts);
    } else {
      var m := |ts| - 1;
      DeliveredIffSeenInTime(c, ts[..m], e, i);
      SessionStep(c, ts, e, i);
      assert ts[..m + 1] == ts;
      assert forall k :: 0 <= k <= m ==> ts[..m][..k] == ts[..k];
    }
  }

  lemma EmptySession(c: Suite, ts: seq<Turn>)
    requires |ts| == 0
    ensures Session(c, ts) == ([], 0)
  {
  }

  /** Whatever the logs do, delivered numbers rise strictly: nothing is delivered twice. */
  ghost predicate NumbersRise(evs: seq<Event>, lastSeq: nat) {
    && (forall i, j :: 0 <= i < j < |evs| ==> evs[i].entry.seqNo < evs[j].entry.seqNo)
    && forall i :: 0 <= i < |evs| ==> 0 < evs[i].entry.seqNo <= lastSeq
  }

  lemma {:induction false} DeliveredNumbersRise(c: Suite, ts: seq<Turn>)
    requires RisingLogs(ts)
    ensures NumbersRise(Session(c, ts).0, Session(c, ts).1)
    decreases |ts|
  {
    hide Leaf, Walk, NumbersRise, Rising;
    if |ts| > 0 {
      var m := |ts| - 1;
      DeliveredNumbersRise(c, ts[..m]);
      var (before, lastSeq) := Session(c, ts[..m]);
      PollNumbersRise(c, ts[m].entries, lastSeq, ts[m].room, before);
    } else {
      NoNumbers();
    }
  }

  lemma NoNumbers()
    ensures NumbersRise([], 0)
  {
  }

  lemma PollNumbersRise(c: Suite, es: seq<Entry>, lastSeq: nat, room: nat, before: seq<Event>)
    requires Rising(es) && NumbersRise(before, lastSeq)
    ensures var (sent, last) := Walk(c, es, 0, lastSeq, room);
            NumbersRise(before + sent, last)
  {
    hide Leaf, Walk;
    var n := PollSends(c, es, lastSeq, room);
    var (sent, last) := Walk(c, es, 0, lastSeq, room);
    assert forall k :: 0 <= k < |sent| ==> sent[k].entry == es[n + k] && lastSeq < sent[k].entry.seqNo <= last;
    var all := before + sent;
    forall i, j | 0 <= i < j < |all|
      ensures all[i].entry.seqNo < all[j].entry.seqNo
    {
      if |before| <= i {
        assert es[n + i - |before|].seqNo < es[n + j - |before|].seqNo;
      }
    }
  }

  /** For a record that every poll from the j-th on sees in its place, unless its log ends below that
      number: it is delivered if and only if it was delivered before, or the reader had not yet
      passed its number then and has passed it now. */
  lemma {:induction false} DeliveredIffNotPassedBefore(c: Suite, ts: seq<Turn>, j: nat, e: Entry, i: nat)
    requires RisingLogs(ts) && j <= |ts|
    requires forall k :: j <= k < |ts| ==> Shows(ts[k].entries, i, e) || EndsBelow(ts[k].entries, e.seqNo)
    ensures Session(c, ts[..j]).1 <= Session(c, ts).1
    ensures EventAt(c, e, i) in Session(c, ts).0 <==>
            || EventAt(c, e, i) in Session(c, ts[..j]).0
            || Session(c, ts[..j]).1 < e.seqNo <= Session(c, ts).1
    decreases |ts|
  {
    hide Leaf, Walk, Rising, Shows, EventAt, Session, EndsBelow;
    if j == |ts| {
      assert ts[..j] == ts;
    } else {
      var m := |ts| - 1;
      assert ts[..m][..j] == ts[..j];
      DeliveredIffNotPassedBefore(c, ts[..m], j, e, i);
      SessionStep(c, ts, e, i);
      if !Shows(ts[m].entries, i, e) {
        BelowIsNotPassed(c, ts, e.seqNo);
      }
    }
  }

  ghost predicate EndsBelow(es: seq<Entry>, number: nat) { forall k :: 0 <= k < |es| ==> es[k].seqNo < number }

  lemma BelowIsNotPassed(c: Suite, ts: seq<Turn>, number: nat)
    requires RisingLogs(ts) && |ts| > 0 && EndsBelow(ts[|ts| - 1].entries, number)
    ensures Session(c, ts[..|ts| - 1]).1 < number ==> Session(c, ts).1 < number
  {
    hide Leaf, Walk, Rising;
    var t := ts[|ts| - 1];
    var n := PollSends(c, t.entries, Session(c, ts[..|ts| - 1]).1, t.room);
  }

  /** A poll with room for everything passes every number of its log. */
  lemma RoomyPollPasses(c: Suite, ts: seq<Turn>, i: nat)
    requires RisingLogs(ts) && |ts| > 0 && i < |ts[|ts| - 1].entries| <= ts[|ts| - 1].room
    ensures ts[|ts| - 1].entries[i].seqNo <= Session(c, ts).1
  {
    hide Leaf, Walk, Rising;
    var t := ts[|ts| - 1];
    var n := PollSends(c, t.entries, Session(c, ts[..|ts| - 1]).1, t.room);
  }

  // ----- a log that only grows

  /** The log each poll sees holds rising numbers and begins with what the last poll saw. */
  ghost predicate GrowingLog(ts: seq<Turn>) {
    RisingLogs(ts) && forall k :: 0 < k < |ts| ==> ts[k - 1].entries <= ts[k].entries
  }

  /** lastSeq marks the place after the first n entries, in this log and in any longer one. */
  ghost predicate Marks(es: seq<Entry>, n: nat, lastSeq: nat) {
    Splits(es, n, lastSeq) && (n == |es| ==> lastSeq <= SeqOf(es))
  }

  lemma MarksAsLogGrows(es: seq<Entry>, es': seq<Entry>, n: nat, lastSeq: nat)
    requires Marks(es, n, lastSeq) && es <= es' && Rising(es')
    ensures Marks(es', n, lastSeq)
  {
    assert forall i :: 0 <= i < |es| ==> es[i] == es'[i];
    forall i | n <= i < |es'|
      ensures lastSeq < es'[i].seqNo
    {
      if i >= |es| && n < |es| {
        assert es'[n].seqNo < es'[i].seqNo;
      } else if i >= |es| && n > 0 {
        assert es'[n - 1].seqNo < es'[i].seqNo;
      }
    }
  }

  /** How far delivery has got: each poll sends as much of the rest as fits. */
  ghost function Reach(ts: seq<Turn>): (n: nat)
    requires GrowingLog(ts)
    ensures n <= if |ts| == 0 then 0 else |ts[|ts| - 1].entries|
  {
    if |ts| == 0 then 0
    else
      var m := |ts| - 1;
      assert m > 0 ==> ts[m - 1].entries <= ts[m].entries && ts[..m][m - 1] == ts[m - 1];
      Least(Reach(ts[..m]) + ts[m].room, |ts[m].entries|)
  }

  ghost function LatestLog(ts: seq<Turn>): seq<Entry> { if |ts| == 0 then [] else ts[|ts| - 1].entries }

  /** However congested the channel is, what has been delivered over any sequence of polls of a
      growing log is its first entries, in order, without gap or repeat, each with its true index and
      hash; and lastSeq stays between the last delivered number and the next one. */
  lemma {:induction false} DeliveryIsAPrefix(c: Suite, ts: seq<Turn>)
    requires GrowingLog(ts)
    ensures var (sent, lastSeq) := Session(c, ts);
            var log := LatestLog(ts);
            && Reach(ts) <= |log| && sent == EventsOf(c, log)[..Reach(ts)]
            && Marks(log, Reach(ts), lastSeq)
    decreases |ts|
  {
    hide Leaf, Walk, Rising, Marks, EventsOf;
    if |ts| > 0 {
      var m := |ts| - 1;
      DeliveryIsAPrefix(c, ts[..m]);
      assert LatestLog(ts[..m]) <= ts[m].entries;
      var (before, lastSeq) := Session(c, ts[..m]);
      OneMorePoll(c, LatestLog(ts[..m]), ts[m], Reach(ts[..m]), lastSeq);
    } else {
      NothingMarked();
    }
  }

  lemma OneMorePoll(c: Suite, log: seq<Entry>, t: Turn, n: nat, lastSeq: nat)
    requires log <= t.entries && Rising(t.entries) && n <= |log| && Marks(log, n, lastSeq)
    ensures var (sent, last) := Walk(c, t.entries, 0, lastSeq, t.room);
            var reach := Least(n + t.room, |t.entries|);
            EventsOf(c, log)[..n] + sent == EventsOf(c, t.entries)[..reach] && Marks(t.entries, reach, last)
  {
    hide Leaf, Walk, Rising, Splits, EventsOf;
    var es := t.entries;
    MarksAsLogGrows(log, es, n, lastSeq);
    WalkSkips(c, es, 0, n, lastSeq, t.room);
    WalkSends(c, es, n, lastSeq, t.room);
    EventsOfPrefix(c, log, es, n);
    Extend(EventsOf(c, es), 0, n, n + Least(t.room, |es| - n));
  }

  lemma NothingMarked()
    ensures Marks([], 0, 0)
  {
  }

  lemma EventsOfPrefix(c: Suite, es: seq<Entry>, es': seq<Entry>, n: nat)
    requires es <= es' && n <= |es|
    ensures EventsOf(c, es)[..n] == EventsOf(c, es')[0..n]
  {
    hide Leaf;
    assert forall i :: 0 <= i < n ==> es[i] == es'[i];
  }

  // ----- what has been passed

  ghost function LastSent(evs: seq<Event>): nat { if |evs| == 0 then 0 else evs[|evs| - 1].entry.seqNo }

  /** While the logs are numbered without a gap, lastSeq is the number last sent: the reader has
      passed exactly what it has delivered something at or above. */
  lemma {:induction false} PassedIffSent(c: Suite, ts: seq<Turn>)
    requires RisingLogs(ts) && forall k :: 0 <= k < |ts| ==> Numbered(ts[k].entries)
    ensures Session(c, ts).1 == LastSent(Session(c, ts).0)
    decreases |ts|
  {
    hide Leaf, Walk;
    if |ts| > 0 {
      var m := |ts| - 1;
      PassedIffSent(c, ts[..m]);
      var (before, lastSeq) := Session(c, ts[..m]);
      var n := PollSends(c, ts[m].entries, lastSeq, ts[m].room);
      var (sent, last) := Walk(c, ts[m].entries, 0, lastSeq, ts[m].room);
      if n < |ts[m].entries| {
        NumberedSplit(ts[m].entries, n, lastSeq);
        NumberedSplit(ts[m].entries, n + |sent|, last);
      }
    }
  }

  /** In a log numbered without a gap there is one number between place n and the rest. */
  lemma NumberedSplit(es: seq<Entry>, n: nat, lastSeq: nat)
    requires Numbered(es) && Splits(es, n, lastSeq)
    ensures if n < |es| then lastSeq == n else lastSeq >= n
  {
    if n > 0 {
      assert es[n - 1].seqNo == n;
    }
    if n < |es| {
      assert es[n].seqNo == n + 1;
    }
  }

  // ----- polls at any steps of a run of the store

  datatype Poll = Poll(step: nat, room: nat)

  ghost predicate PollsOf(tr: seq<State>, ps: seq<Poll>) {
    && (forall k :: 0 <= k < |ps| ==> ps[k].step < |tr|)
    && forall k, l :: 0 <= k < l < |ps| ==> ps[k].step <= ps[l].step
  }

  /** What each poll finds in the log file at its step. */
  ghost function TurnsOf(c: Suite, key: Bytes, tr: seq<State>, ps: seq<Poll>): (ts: seq<Turn>)
    requires PollsOf(tr, ps)
    ensures |ts| == |ps|
  {
    seq(|ps|, k requires 0 <= k < |ps| =>
      Turn(ReadLog(c, key, tr[ps[k].step].log, |tr[ps[k].step].log|).entries, ps[k].room))
  }

  lemma TurnAt(c: Suite, key: Bytes, tr: seq<State>, ls: seq<Label>, ps: seq<Poll>, k: nat)
    requires Run(c, key, tr, ls) && PollsOf(tr, ps) && k < |ps|
    ensures TurnsOf(c, key, tr, ps)[k] == Turn(Visible(tr[ps[k].step]), ps[k].room)
    ensures Rising(Visible(tr[ps[k].step]))
  {
    hide ReadLog, Visible, Rising, LogInv, HeadInv, SeqInv, SigningInv, PublishedInv, Enabled, Apply;
    InvHolds(c, key, tr, ls, ps[k].step);
    LogReads(c, key, tr[ps[k].step]);
    VisibleRises(tr[ps[k].step]);
  }

  lemma TurnsRise(c: Suite, key: Bytes, tr: seq<State>, ls: seq<Label>, ps: seq<Poll>)
    requires Run(c, key, tr, ls) && PollsOf(tr, ps)
    ensures RisingLogs(TurnsOf(c, key, tr, ps))
  {
    hide Run, Visible, Rising, ReadLog;
    forall k | 0 <= k < |ps|
      ensures Rising(TurnsOf(c, key, tr, ps)[k].entries)
    {
      TurnAt(c, key, tr, ls, ps, k);
    }
  }

  /** The append of e begun at step a is committed at step b, without a crash in between. */
  ghost predicate AppendedBetween(ls: seq<Label>, a: nat, b: nat, e: Entry) {
    && a < b < |ls| && ls[a].Begin? && ls[a].entry == e && ls[b].Commit?
    && forall t :: a < t < b ==> ls[t].Write? || ls[t].Sign?
  }

  lemma {:induction false} DuringAppend(c: Suite, key: Bytes, tr: seq<State>, ls: seq<Label>, a: nat, b: nat,
                                        e: Entry, t: nat)
    requires Run(c, key, tr, ls) && AppendedBetween(ls, a, b, e) && a < t <= b
    ensures tr[t].entries == tr[a].entries && tr[t].pending.Pending? && tr[t].pending.entry == e
    decreases t
  {
    hide OpenDecision, NewHead, Leaf, Frame, Fits;
    assert Enabled(c, key, tr[t - 1], ls[t - 1]);
    if t > a + 1 {
      DuringAppend(c, key, tr, ls, a, b, e, t - 1);
    }
  }

  /** From its append on, the record is in its place or not yet whole. */
  lemma AfterAppend(c: Suite, key: Bytes, tr: seq<State>, ls: seq<Label>, a: nat, b: nat, e: Entry, t: nat)
    requires Run(c, key, tr, ls) && AppendedBetween(ls, a, b, e) && a < t < |tr|
    ensures Shows(Visible(tr[t]), |tr[a].entries|, e) || (t <= b && EndsBelow(Visible(tr[t]), e.seqNo))
  {
    hide OpenDecision, NewHead, Leaf, Frame, Fits, LogInv, HeadInv, SigningInv, PublishedInv, Enabled, Apply;
    if t <= b {
      DuringAppend(c, key, tr, ls, a, b, e, t);
      InvHolds(c, key, tr, ls, t);
    } else {
      DuringAppend(c, key, tr, ls, a, b, e, b);
      Committed(c, key, tr, ls, b);
      HistoryGrows(c, key, tr, ls, b + 1, t);
    }
  }

  /** A running append was begun at some step, and only writes and a signature came since. */
  lemma {:induction false} RunningSince(c: Suite, key: Bytes, tr: seq<State>, ls: seq<Label>, t: nat) returns (a: nat)
    requires Run(c, key, tr, ls) && t < |tr| && (tr[t].phase.Writing? || tr[t].phase.Signed?)
    ensures a < t && ls[a].Begin? && tr[t].pending.Pending? && ls[a].entry == tr[t].pending.entry
    ensures tr[a].entries == tr[t].entries && forall k :: a < k < t ==> ls[k].Write? || ls[k].Sign?
    decreases t
  {
    hide OpenDecision, NewHead, Leaf, Frame, Fits;
    assert Enabled(c, key, tr[t - 1], ls[t - 1]) && tr[t] == Apply(c, key, tr[t - 1], ls[t - 1]);
    if ls[t - 1].Begin? {
      a := t - 1;
    } else {
      a := RunningSince(c, key, tr, ls, t - 1);
    }
  }

  lemma OnlyCommitsAdd(c: Suite, key: Bytes, s: State, l: Label)
    requires Enabled(c, key, s, l)
    ensures Apply(c, key, s, l).entries
            == if l.Commit? && s.pending.Pending? then s.entries + [s.pending.entry] else s.entries
    ensures l.Commit? ==> s.phase.Signed? && s.pending.Pending?
  {
    hide OpenDecision, NewHead, Leaf, Frame, Fits;
  }

  /** Every committed record of a run got there by such an append. */
  lemma {:induction false} CommittedWasAppended(c: Suite, key: Bytes, tr: seq<State>, ls: seq<Label>, i: nat, m: nat)
    returns (a: nat, b: nat)
    requires Run(c, key, tr, ls) && i < |tr| && m < |tr[i].entries|
    ensures AppendedBetween(ls, a, b, tr[i].entries[m]) && b < i && |tr[a].entries| == m
    decreases i
  {
    hide Enabled, Apply;
    var s, l := tr[i - 1], ls[i - 1];
    assert Enabled(c, key, s, l) && tr[i] == Apply(c, key, s, l);
    OnlyCommitsAdd(c, key, s, l);
    if m < |s.entries| {
      a, b := CommittedWasAppended(c, key, tr, ls, i - 1, m);
    } else {
      b := i - 1;
      a := RunningSince(c, key, tr, ls, b);
    }
  }

  lemma Committed(c: Suite, key: Bytes, tr: seq<State>, ls: seq<Label>, b: nat)
    requires Run(c, key, tr, ls) && b < |ls| && ls[b].Commit? && tr[b].pending.Pending?
    ensures tr[b + 1].entries == tr[b].entries + [tr[b].pending.entry]
  {
    hide OpenDecision, NewHead, Leaf, Frame, Fits;
    assert Enabled(c, key, tr[b], ls[b]);
  }

  /** The polls up to step a come first, then the others. */
  ghost predicate PollsSplitAt(ps: seq<Poll>, j: nat, a: nat) {
    && j <= |ps|
    && (forall k :: 0 <= k < j ==> ps[k].step <= a)
    && forall k :: j <= k < |ps| ==> a < ps[k].step
  }

  /** Polls at any steps of any run of the store, with any congestion: a committed record is delivered
      if and only if the reader had not passed its number when its append began, and has passed it
      now, or the very same event had gone out before. A poll after the commit with room for
      everything does pass it. */
  lemma CommittedIsDeliveredIffNotPassed(c: Suite, key: Bytes, tr: seq<State>, ls: seq<Label>, ps: seq<Poll>,
                                         j: nat, a: nat, b: nat, e: Entry)
    requires Run(c, key, tr, ls) && PollsOf(tr, ps) && AppendedBetween(ls, a, b, e) && PollsSplitAt(ps, j, a)
    ensures var ts := TurnsOf(c, key, tr, ps);
            var v, before, after := EventAt(c, e, |tr[a].entries|), Session(c, ts[..j]), Session(c, ts);
            && (v in after.0 <==> v in before.0 || before.1 < e.seqNo <= after.1)
            && (j < |ps| && b < ps[|ps| - 1].step && |Visible(tr[ps[|ps| - 1].step])| <= ps[|ps| - 1].room ==>
                  e.seqNo <= after.1)
  {
    hide Enabled, Apply, Visible, Rising, Shows, EndsBelow, EventAt, Session, TurnsOf;
    var ts, i := TurnsOf(c, key, tr, ps), |tr[a].entries|;
    TurnsRise(c, key, tr, ls, ps);
    forall k | j <= k < |ts|
      ensures Shows(ts[k].entries, i, e) || (ps[k].step <= b && EndsBelow(ts[k].entries, e.seqNo))
    {
      TurnAt(c, key, tr, ls, ps, k);
      AfterAppend(c, key, tr, ls, a, b, e, ps[k].step);
    }
    DeliveredIffNotPassedBefore(c, ts, j, e, i);
    if j < |ps| && b < ps[|ps| - 1].step && |Visible(tr[ps[|ps| - 1].step])| <= ps[|ps| - 1].room {
      TurnAt(c, key, tr, ls, ps, |ps| - 1);
      assert Shows(ts[|ts| - 1].entries, i, e);
      ShownAt(ts[|ts| - 1].entries, i, e);
      RoomyPollPasses(c, ts, i);
    }
  }

  lemma ShownAt(es: seq<Entry>, i: nat, e: Entry)
    requires Shows(es, i, e)
    ensures i < |es| && es[i] == e
  {
  }

  /** In a run where no Append failed to marshal the reader has passed exactly the numbers up to the
      last one it sent, so a committed record is missed exactly if one numbered as high was sent. */
  lemma PassedIffSentInRun(c: Suite, key: Bytes, tr: seq<State>, ls: seq<Label>, ps: seq<Poll>)
    requires Run(c, key, tr, ls) && PollsOf(tr, ps) && forall k :: 0 <= k < |ls| ==> !ls[k].Refuse?
    ensures var (sent, lastSeq) := Session(c, TurnsOf(c, key, tr, ps));
            lastSeq == LastSent(sent)
  {
    hide Enabled, Apply, Visible, Rising, Session, TurnsOf, LastSent, Numbered;
    var ts := TurnsOf(c, key, tr, ps);
    TurnsRise(c, key, tr, ls, ps);
    forall k | 0 <= k < |ts|
      ensures Numbered(ts[k].entries)
    {
      TurnAt(c, key, tr, ls, ps, k);
      SequenceNumbers(c, key, tr, ls, ps[k].step);
    }
    PassedIffSent(c, ts);
  }
}
