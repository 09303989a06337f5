/** Runs of the store, step by step, for every lawful suite: the premises of the safety theorems are
    met by them, and the refusals and losses that the exact conditions name do happen in them. */
module Scenarios {
  import opened Bytes
  import opened Records
  import opened Framing
  import opened Sequences
  import opened Store
  import opened Protocol
  import opened StoreSafety
  import Export
  import Enforcer

  // ----- runs from lists of steps

  lemma {:induction false} ExecConcat(c: Suite, key: Bytes, s: State, a: seq<Label>, b: seq<Label>)
    requires Exec(c, key, s, a).Some?
    ensures Exec(c, key, s, a + b) == Exec(c, key, Exec(c, key, s, a).value, b)
    decreases |a|
  {
    hide Enabled, Apply;
    if |a| == 0 {
      Empty(b);
    } else {
      ConcatDrop(a, b, 1);
      ExecConcat(c, key, Apply(c, key, s, a[0]), a[1..], b);
    }
  }

  lemma {:induction false} ExecPrefix(c: Suite, key: Bytes, s: State, ls: seq<Label>, k: nat)
    requires Exec(c, key, s, ls).Some? && k <= |ls|
    ensures Exec(c, key, s, ls[..k]).Some?
    decreases |ls|
  {
    hide Enabled, Apply;
    if k > 0 {
      ExecPrefix(c, key, Apply(c, key, s, ls[0]), ls[1..], k - 1);
      assert ls[..k][1..] == ls[1..][..k - 1];
    }
  }

  lemma ExecStep(c: Suite, key: Bytes, s: State, ls: seq<Label>, k: nat)
    requires Exec(c, key, s, ls).Some? && k < |ls|
    ensures var before, after := Exec(c, key, s, ls[..k]), Exec(c, key, s, ls[..k + 1]);
            && before.Some? && after.Some?
            && Enabled(c, key, before.value, ls[k]) && after.value == Apply(c, key, before.value, ls[k])
  {
    hide Enabled, Apply;
    ExecPrefix(c, key, s, ls, k);
    ExecPrefix(c, key, s, ls, k + 1);
    assert ls[..k + 1] == ls[..k] + [ls[k]];
    ExecConcat(c, key, s, ls[..k], [ls[k]]);
  }

  /** Steps that can be taken one after the other from the start are a run. */
  lemma ExecIsRun(c: Suite, key: Bytes, ls: seq<Label>) returns (tr: seq<State>)
    requires Lawful(c) && Exec(c, key, INIT, ls).Some?
    ensures Run(c, key, tr, ls)
    ensures forall k :: 0 <= k <= |ls| ==> Exec(c, key, INIT, ls[..k]) == Some(tr[k])
    ensures Exec(c, key, INIT, ls) == Some(tr[|ls|])
  {
    hide Enabled, Apply;
    forall k | 0 <= k <= |ls|
      ensures Exec(c, key, INIT, ls[..k]).Some?
    {
      ExecPrefix(c, key, INIT, ls, k);
    }
    tr := seq(|ls| + 1, k requires 0 <= k <= |ls| => Exec(c, key, INIT, ls[..k]).value);
    forall k | 0 <= k < |ls|
      ensures Enabled(c, key, tr[k], ls[k]) && tr[k + 1] == Apply(c, key, tr[k], ls[k])
    {
      ExecStep(c, key, INIT, ls, k);
    }
    assert ls[..|ls|] == ls;
  }

  lemma {:induction false} ExecKeepsInv(c: Suite, key: Bytes, s: State, ls: seq<Label>)
    requires Lawful(c) && Inv(c, key, s) && Exec(c, key, s, ls).Some?
    ensures Inv(c, key, Exec(c, key, s, ls).value)
    decreases |ls|
  {
    hide Enabled, Apply, Inv;
    if |ls| > 0 {
      StepKeepsInv(c, key, s, ls[0]);
      ExecKeepsInv(c, key, Apply(c, key, s, ls[0]), ls[1..]);
    }
  }

  // ----- the pieces

  /** A running writer with this signer that has committed these entries and used numbers up to seqNo. */
  ghost predicate Ready(c: Suite, key: Bytes, s: State, signer: Option<Signer>, entries: seq<Entry>, seqNo: nat) {
    && Inv(c, key, s)
    && s.phase == Idle && s.signer == signer && s.entries == entries && s.seqNo == seqNo
    && |s.leaves| == |entries|
    && (s.head.Present? <==> |entries| > 0)
    && (s.head.Present? ==> s.head.head.signerKey == SignerKey(signer) && (s.head.head.sig == [] <==> signer.None?))
  }

  function SignerKey(signer: Option<Signer>): Bytes { if signer.None? then [] else signer.value.pub }

  lemma Starts(c: Suite, key: Bytes, signer: Option<Signer>) returns (s: State)
    requires Lawful(c) && GoodSigners(c, signer)
    ensures Exec(c, key, INIT, [Reopen(signer, [])]) == Some(s) && Ready(c, key, s, signer, [], 0)
  {
    hide OpenDecision, ReadLog;
    InitInv(c, key);
    Recovery(c, key, INIT, OwnKey(signer), []);
    var l := Reopen(signer, []);
    s := Apply(c, key, INIT, l);
    OneStep(c, key, INIT, l);
    ExecKeepsInv(c, key, INIT, [l]);
  }

  lemma OneStep(c: Suite, key: Bytes, s: State, l: Label)
    requires Enabled(c, key, s, l)
    ensures Exec(c, key, s, [l]) == Some(Apply(c, key, s, l))
  {
    hide Enabled, Apply;
    assert [l][1..] == [];
  }

  lemma TwoSteps(c: Suite, key: Bytes, s: State, l: Label, l': Label)
    requires Enabled(c, key, s, l) && Enabled(c, key, Apply(c, key, s, l), l')
    ensures Exec(c, key, s, [l, l']) == Some(Apply(c, key, Apply(c, key, s, l), l'))
  {
    hide Enabled, Apply;
    assert [l, l'][1..] == [l'];
    OneStep(c, key, Apply(c, key, s, l), l');
  }

  function Sealed(c: Suite, key: Bytes, e: Entry, nonce: Bytes): Bytes { c.seal(nonce, key, c.encode(e)) }

  function AppendSteps(c: Suite, key: Bytes, e: Entry, nonce: Bytes): (ls: seq<Label>)
    ensures |ls| == 4
  {
    [Begin(e, nonce), Write(4 + |Sealed(c, key, e, nonce)|), Sign, Commit]
  }

  lemma Appends(c: Suite, key: Bytes, s: State, signer: Option<Signer>, entries: seq<Entry>, seqNo: nat, e: Entry,
                nonce: Bytes)
    returns (s': State)
    requires Lawful(c) && Ready(c, key, s, signer, entries, seqNo) && GoodSigners(c, signer)
    requires e.seqNo == seqNo + 1 && |entries| + 1 < MAX_SIZE && Fits(Sealed(c, key, e, nonce))
    ensures Exec(c, key, s, AppendSteps(c, key, e, nonce)) == Some(s')
    ensures Ready(c, key, s', signer, entries + [e], e.seqNo)
  {
    hide Inv, Exec, Frame, Leaf, Merkle.Root, SigInput, Mac;
    AppendIsFourSteps(c, key, s, e, nonce);
    var r := Exec(c, key, s, AppendSteps(c, key, e, nonce));
    s' := r.value;
    ExecKeepsInv(c, key, s, AppendSteps(c, key, e, nonce));
    if signer.Some? {
      assert forall m :: |signer.value.sign(m)| == SIGNATURE_SIZE;
    }
  }

  lemma Refuses(c: Suite, key: Bytes, s: State, signer: Option<Signer>, entries: seq<Entry>, seqNo: nat)
    returns (s': State)
    requires Lawful(c) && Ready(c, key, s, signer, entries, seqNo)
    ensures Exec(c, key, s, [Refuse]) == Some(s') && Ready(c, key, s', signer, entries, seqNo + 1)
  {
    hide Inv;
    s' := Apply(c, key, s, Refuse);
    OneStep(c, key, s, Refuse);
    StepKeepsInv(c, key, s, Refuse);
  }

  /** An append whose frame is whole but whose head is never written: anyone who reads the log sees it. */
  lemma Exposes(c: Suite, key: Bytes, s: State, signer: Option<Signer>, entries: seq<Entry>, seqNo: nat, e: Entry,
                nonce: Bytes)
    returns (s': State)
    requires Lawful(c) && Ready(c, key, s, signer, entries, seqNo)
    requires e.seqNo == seqNo + 1 && |entries| + 1 < MAX_SIZE && Fits(Sealed(c, key, e, nonce))
    ensures Exec(c, key, s, AppendSteps(c, key, e, nonce)[..2]) == Some(s')
    ensures Visible(s') == entries + [e] && s'.entries == entries && s'.head == s.head && s'.phase == Writing
    ensures Inv(c, key, s')
  {
    hide Inv, Frame, Fits, Exec;
    var begin, write := Begin(e, nonce), Write(4 + |Sealed(c, key, e, nonce)|);
    assert AppendSteps(c, key, e, nonce)[..2] == [begin, write];
    TwoSteps(c, key, s, begin, write);
    s' := Apply(c, key, Apply(c, key, s, begin), write);
    ExecKeepsInv(c, key, s, [begin, write]);
  }

  /** The restart after a crash there: the record is gone and its number is free again. */
  lemma Loses(c: Suite, key: Bytes, s: State, signer: Option<Signer>)
    returns (s': State)
    requires Lawful(c) && GoodSigners(c, signer) && Inv(c, key, s) && s.phase == Writing && |s.entries| > 0
    requires s.head.Present? && s.head.head.signerKey == SignerKey(signer) && (s.head.head.sig == [] <==> signer.None?)
    ensures Exec(c, key, s, [Crash, Reopen(signer, [])]) == Some(s')
    ensures Ready(c, key, s', signer, s.entries, SeqOf(s.entries))
  {
    hide OpenDecision, LogInv, HeadInv, SeqInv, SigningInv, PublishedInv, Exec;
    var down := Apply(c, key, s, Crash);
    StepKeepsInv(c, key, s, Crash);
    Recovery(c, key, down, OwnKey(signer), []);
    var reopen := Reopen(signer, []);
    TwoSteps(c, key, s, Crash, reopen);
    s' := Apply(c, key, down, reopen);
    StepKeepsInv(c, key, down, reopen);
  }

  // ----- a first record: the premises of the binding theorems are met

  lemma FirstExport(c: Suite, key: Bytes, s: State, signer: Signer, e: Entry)
    requires Lawful(c) && Ready(c, key, s, Some(signer), [e], 1) && e.seqNo == 1
    ensures s.head.Present? && s.head.head.size == 1 && PinAllowed(s.head.head, [signer.pub])
    ensures Export.PriorsOf(s, [s.head.head], [signer.pub])
    ensures Export.Accepted(c, Export.ExportAt(c, s, Export.EVERYTHING), [signer.pub], [s.head.head])
  {
    hide LogInv, SigningInv, PublishedInv, NewHead, CheckTreeHead, Export.Accepted;
    StoredHeadChecks(c, key, s, None, [], []);
    Export.AcceptedIffPlaced(c, key, s, Export.EVERYTHING, [signer.pub], [s.head.head]);
  }

  /** For every signer and first record there is a run, and a read and an export of what it leaves, that
      satisfy everything TamperEvidence and AcceptedExportIsSigned ask for. */
  lemma FirstRecord(c: Suite, key: Bytes, signer: Signer, e: Entry, nonce: Bytes)
    returns (tr: seq<State>, ls: seq<Label>, o: Observation)
    requires Lawful(c) && GoodSigner(c, signer) && e.seqNo == 1 && Fits(Sealed(c, key, e, nonce))
    ensures Run(c, key, tr, ls) && tr[|ls|].entries == [e] && Observed(tr, |ls|, o)
    ensures NoneForged(c, tr[|ls|], [signer.pub], [o])
    ensures Decide(c, key, [signer.pub], [o]).Ok? && Decide(c, key, [signer.pub], [o]).value.entries == [e]
    ensures tr[|ls|].head.Present?
    ensures var x := Export.ExportAt(c, tr[|ls|], Export.EVERYTHING);
            && Export.Accepted(c, x, [signer.pub], [x.head])
            && Export.NoHeadForged(c, tr[|ls|], x, [signer.pub], [x.head])
            && x.head.size == 1
  {
    hide Enabled, Apply, Exec, Decide, Inv, NoneForged, Export.Accepted, Export.NoHeadForged, ReadLog;
    var s0 := Starts(c, key, Some(signer));
    var s1 := Appends(c, key, s0, Some(signer), [], 0, e, nonce);
    ls := [Reopen(Some(signer), [])] + AppendSteps(c, key, e, nonce);
    ExecConcat(c, key, INIT, [Reopen(Some(signer), [])], AppendSteps(c, key, e, nonce));
    tr := ExecIsRun(c, key, ls);
    assert [] + [e] == [e];
    o := Observation(s1.head, s1.log, |s1.log|, s1.head);
    HonestReadsAreNotForged(c, key, tr, ls, |ls|, |ls|, o, [signer.pub]);
    ReadersAreSafe(c, key, tr, ls, |ls|, [o], [signer.pub]);
    FirstExport(c, key, s1, signer, e);
    Export.HonestExportIsNotForged(c, key, tr, ls, |ls|, Export.EVERYTHING, [signer.pub], [s1.head.head]);
  }

  // ----- a reader that races the first append

  /** For every signer and first record there is a run beside which a reader fails for good although nothing is
      wrong: it finds neither head nor record, and then the head that was written meanwhile. */
  lemma FirstAppendFailsAReader(c: Suite, key: Bytes, signer: Signer, e: Entry, nonce: Bytes, pinned: seq<Bytes>)
    returns (tr: seq<State>, ls: seq<Label>, o: Observation)
    requires Lawful(c) && GoodSigner(c, signer) && e.seqNo == 1 && Fits(Sealed(c, key, e, nonce))
    ensures Run(c, key, tr, ls) && Observed(tr, 0, o) && o.again == tr[|ls|].head
    ensures forall more: seq<Observation> :: Decide(c, key, pinned, [o] + more).Err?
  {
    hide Enabled, Apply, Decide, ReadLog, Export.Accepted, Export.NoHeadForged, NoneForged;
    var first;
    tr, ls, first := FirstRecord(c, key, signer, e, nonce);
    o := Observation(Missing, [], 0, tr[|ls|].head);
    NothingIsRead(c, key);
    forall more: seq<Observation>
      ensures Decide(c, key, pinned, [o] + more).Err?
    {
      RoundAnswers(c, key, tr, ls, 0, [o] + more, pinned);
    }
  }

  lemma NothingIsRead(c: Suite, key: Bytes)
    ensures ReadLog(c, key, [], 0).entries == []
  {
    NothingToSplit();
  }

  // ----- a missing number: the full export is refused

  /** For every signer and record there is a run in which one Append fails to marshal and the next
      succeeds; its log is not numbered 1, 2, 3, and its full export is refused. */
  lemma GapIsRefused(c: Suite, key: Bytes, signer: Signer, e: Entry, nonce: Bytes)
    returns (tr: seq<State>, ls: seq<Label>)
    requires Lawful(c) && GoodSigner(c, signer) && e.seqNo == 2 && Fits(Sealed(c, key, e, nonce))
    ensures Run(c, key, tr, ls) && tr[|ls|].entries == [e] && !Numbered([e])
    ensures tr[|ls|].head.Present? && PinAllowed(tr[|ls|].head.head, [signer.pub])
    ensures !Export.Accepted(c, Export.ExportAt(c, tr[|ls|], Export.EVERYTHING), [signer.pub], [])
  {
    hide Enabled, Apply, Exec, Inv, Export.Accepted, Export.ExportAt;
    var start, append := [Reopen(Some(signer), [])], AppendSteps(c, key, e, nonce);
    var s0 := Starts(c, key, Some(signer));
    var s1 := Refuses(c, key, s0, Some(signer), [], 0);
    var s2 := Appends(c, key, s1, Some(signer), [], 1, e, nonce);
    ExecConcat(c, key, INIT, start, [Refuse]);
    ExecConcat(c, key, INIT, start + [Refuse], append);
    ls := start + [Refuse] + append;
    tr := ExecIsRun(c, key, ls);
    assert [] + [e] == [e] && [e][0].seqNo == 2;
    Export.FullExportAcceptedIffNumbered(c, key, tr, ls, |ls|, [signer.pub]);
  }

  // ----- a replaced record: the enforcer never gets the new one

  /** A first record, perhaps a failed Append, then a record that is whole but never committed. */
  lemma UpToExposure(c: Suite, key: Bytes, signer: Option<Signer>, e1: Entry, e: Entry, nonce: Bytes, gap: bool)
    returns (ls: seq<Label>, s: State)
    requires Lawful(c) && GoodSigners(c, signer) && e1.seqNo == 1 && e.seqNo == (if gap then 3 else 2)
    requires Fits(Sealed(c, key, e1, nonce)) && Fits(Sealed(c, key, e, nonce))
    ensures Exec(c, key, INIT, ls) == Some(s) && Inv(c, key, s) && s.phase == Writing
    ensures s.entries == [e1] && Visible(s) == [e1, e]
    ensures s.head.Present? && s.head.head.signerKey == SignerKey(signer) && (s.head.head.sig == [] <==> signer.None?)
  {
    hide Enabled, Apply, Exec, Inv, Fits, Sealed, AppendSteps;
    var start, first := [Reopen(signer, [])], AppendSteps(c, key, e1, nonce);
    var refused, begun := if gap then [Refuse] else [], AppendSteps(c, key, e, nonce)[..2];
    var s0 := Starts(c, key, signer);
    var s1 := Appends(c, key, s0, signer, [], 0, e1, nonce);
    assert [] + [e1] == [e1] && [e1] + [e] == [e1, e];
    ExecConcat(c, key, INIT, start, first);
    var s2 := MaybeRefuses(c, key, s1, signer, [e1], 1, gap);
    ExecConcat(c, key, INIT, start + first, refused);
    s := Exposes(c, key, s2, signer, [e1], e.seqNo - 1, e, nonce);
    ExecConcat(c, key, INIT, start + first + refused, begun);
    ls := start + first + refused + begun;
  }

  /** Then a crash, a restart, and a record in its place, appended from step a to step b. */
  lemma ReplacingRun(c: Suite, key: Bytes, signer: Option<Signer>, e1: Entry, e: Entry, e2: Entry, nonce: Bytes,
                     gap: bool)
    returns (tr: seq<State>, ls: seq<Label>, a: nat, b: nat)
    requires Lawful(c) && GoodSigners(c, signer)
    requires e1.seqNo == 1 && e.seqNo == (if gap then 3 else 2) && e2.seqNo == 2
    requires Fits(Sealed(c, key, e1, nonce)) && Fits(Sealed(c, key, e, nonce)) && Fits(Sealed(c, key, e2, nonce))
    ensures Run(c, key, tr, ls) && 2 <= a && b + 1 == |ls| && Enforcer.AppendedBetween(ls, a, b, e2)
    ensures Visible(tr[a - 2]) == [e1, e] && tr[a].entries == [e1]
    ensures tr[|ls|].entries == [e1, e2] && Visible(tr[|ls|]) == [e1, e2]
  {
    hide Enabled, Apply, Exec, Inv, Fits, Sealed, AppendSteps;
    var before, s3 := UpToExposure(c, key, signer, e1, e, nonce, gap);
    var restart, append := [Crash, Reopen(signer, [])], AppendSteps(c, key, e2, nonce);
    var s4 := Loses(c, key, s3, signer);
    ExecConcat(c, key, INIT, before, restart);
    var s5 := Appends(c, key, s4, signer, [e1], 1, e2, nonce);
    ExecConcat(c, key, INIT, before + restart, append);
    ls, a := before + restart + append, |before| + 2;
    b := a + 3;
    tr := ExecIsRun(c, key, ls);
    ThreeParts(before, restart, append);
    LastAppend(c, key, before + restart, e2, nonce);
    assert [e1] + [e2] == [e1, e2];
    IdleShowsCommitted(c, key, s5);
  }

  lemma ThreeParts(x: seq<Label>, y: seq<Label>, z: seq<Label>)
    ensures (x + y + z)[..|x| + |y|] == x + y && (x + y + z)[..|x|] == x
  {
    Halves(x + y, z);
    TakeOfConcat(x + y, z, |x|);
    Halves(x, y);
  }

  lemma LastAppend(c: Suite, key: Bytes, before: seq<Label>, e: Entry, nonce: Bytes)
    ensures var ls, a := before + AppendSteps(c, key, e, nonce), |before|;
            Enforcer.AppendedBetween(ls, a, a + 3, e)
  {
    hide Sealed;
  }

  lemma MaybeRefuses(c: Suite, key: Bytes, s: State, signer: Option<Signer>, entries: seq<Entry>, seqNo: nat, gap: bool)
    returns (s': State)
    requires Lawful(c) && Ready(c, key, s, signer, entries, seqNo)
    ensures Exec(c, key, s, if gap then [Refuse] else []) == Some(s')
    ensures Ready(c, key, s', signer, entries, if gap then seqNo + 1 else seqNo)
  {
    hide Enabled, Apply, Ready;
    if gap {
      s' := Refuses(c, key, s, signer, entries, seqNo);
    } else {
      s' := s;
    }
  }

  lemma IdleShowsCommitted(c: Suite, key: Bytes, s: State)
    requires Inv(c, key, s) && s.phase == Idle
    ensures Visible(s) == s.entries
  {
    Empty(s.entries);
  }

  lemma FirstPoll(c: Suite, e1: Entry, e: Entry, ts: seq<Enforcer.Turn>, gap: bool)
    requires e1.seqNo == 1 && e.seqNo == (if gap then 3 else 2)
    requires ts == [Enforcer.Turn([e1, e], if gap then 1 else 2)]
    ensures Enforcer.Session(c, ts) == (Enforcer.EventsOf(c, if gap then [e1] else [e1, e]), 2)
  {
    hide Leaf;
    var es, room := [e1, e], if gap then 1 else 2;
    var v1, v := Enforcer.EventAt(c, e1, 0), Enforcer.EventAt(c, e, 1);
    assert Enforcer.Walk(c, es, 2, 2, 0) == ([], 2);
    assert Enforcer.Walk(c, es, 1, 1, room - 1) == if gap then ([], 2) else ([v] + [], 2);
    assert Enforcer.Walk(c, es, 0, 0, room) == if gap then ([v1] + [], 2) else ([v1] + ([v] + []), 2);
    assert ts[..0] == [] && Enforcer.Session(c, ts[..0]) == ([], 0);
    var w := Enforcer.Walk(c, es, 0, 0, room);
    assert Enforcer.Session(c, ts) == ([] + w.0, w.1);
    Empty(w.0);
    assert Enforcer.EventsOf(c, [e1]) == [v1] && Enforcer.EventsOf(c, [e1, e]) == [v1, v];
    assert w.0 == if gap then [v1] else [v1, v];
  }

  lemma NotAmong(c: Suite, e1: Entry, e: Entry, e2: Entry)
    requires e != e2
    ensures Enforcer.EventAt(c, e2, 1) !in Enforcer.EventsOf(c, [e1, e])
    ensures Enforcer.EventAt(c, e2, 1) !in Enforcer.EventsOf(c, [e1])
  {
    hide Leaf;
    assert forall v :: v in Enforcer.EventsOf(c, [e1, e]) ==> v.leafIndex == 0 || v.entry == e;
    assert forall v :: v in Enforcer.EventsOf(c, [e1]) ==> v.leafIndex == 0;
  }

  /** Polled once while the uncommitted record stands there, with room for it or, after a failed Append,
      only up to it; and once at the end with room for everything. */
  lemma ReplacedRecordIsNotDelivered(c: Suite, key: Bytes, signer: Option<Signer>, e1: Entry, e: Entry, e2: Entry,
                                     nonce: Bytes, gap: bool)
    returns (tr: seq<State>, ls: seq<Label>, ps: seq<Enforcer.Poll>)
    requires Lawful(c) && GoodSigners(c, signer)
    requires e1.seqNo == 1 && e.seqNo == (if gap then 3 else 2) && e2.seqNo == 2 && e != e2
    requires Fits(Sealed(c, key, e1, nonce)) && Fits(Sealed(c, key, e, nonce)) && Fits(Sealed(c, key, e2, nonce))
    ensures Run(c, key, tr, ls) && tr[|ls|].entries == [e1, e2] && Visible(tr[|ls|]) == [e1, e2]
    ensures Enforcer.PollsOf(tr, ps) && |ps| == 2 && ps[1] == Enforcer.Poll(|ls|, 2)
    ensures var ts := Enforcer.TurnsOf(c, key, tr, ps);
            && Enforcer.Session(c, ts[..1]) == (Enforcer.EventsOf(c, if gap then [e1] else [e1, e]), 2)
            && Enforcer.EventAt(c, e2, 1) !in Enforcer.Session(c, ts).0
  {
    hide Enabled, Apply, Exec, Inv, Leaf, Enforcer.Session, Enforcer.TurnsOf, Enforcer.EventsOf;
    var a, b;
    tr, ls, a, b := ReplacingRun(c, key, signer, e1, e, e2, nonce, gap);
    ps := [Enforcer.Poll(a - 2, if gap then 1 else 2), Enforcer.Poll(|ls|, 2)];
    var ts := Enforcer.TurnsOf(c, key, tr, ps);
    Enforcer.TurnAt(c, key, tr, ls, ps, 0);
    FirstPoll(c, e1, e, ts[..1], gap);
    Enforcer.CommittedIsDeliveredIffNotPassed(c, key, tr, ls, ps, 1, a, b, e2);
    NotAmong(c, e1, e, e2);
  }
}
