/** What holds over every run of the store protocol. */
module StoreSafety {
  import opened Bytes
  import opened Records
  import opened Framing
  import opened Sequences
  import opened Store
  import opened Protocol
  import Merkle

  // ----- crash safety

  /** Whatever byte a run was stopped at, Open succeeds exactly when the state is Recoverable; it
      then keeps every committed entry, drops at most one unfinished append, splits the old log
      into the new log and the quarantined bytes, and opening again changes nothing. */
  lemma CrashSafety(c: Suite, key: Bytes, tr: seq<State>, ls: seq<Label>, i: nat, own: Option<Bytes>,
                    trusted: seq<Bytes>)
    requires Run(c, key, tr, ls) && i < |tr|
    ensures var s := tr[i];
            var d := OpenDecision(c, key, own, trusted, s.log, s.head);
            && (d.Ok? <==> Recoverable(s, own, trusted))
            && (d.Ok? ==>
                  && d.value.entries == s.entries
                  && ReadLog(c, key, d.value.log, |d.value.log|).entries == s.entries
                  && s.log == d.value.log + (if d.value.quarantined.None? then [] else d.value.quarantined.value)
                  && d.value.uncommitted <= 1
                  && OpenDecision(c, key, own, trusted, d.value.log, s.head).Ok?
                  && OpenDecision(c, key, own, trusted, d.value.log, s.head).value.log == d.value.log
                  && OpenDecision(c, key, own, trusted, d.value.log, s.head).value.entries == s.entries)
  {
    hide OpenDecision, EncodeLog, Frame, HeadInv, SignerAllowed;
    InvHolds(c, key, tr, ls, i);
    var s := tr[i];
    Recovery(c, key, s, own, trusted);
    if Recoverable(s, own, trusted) {
      RecoveredLogIsClean(c, key, s, own, trusted);
      Empty(EncodeLog(s.records));
    }
  }

  lemma RecoveredLogIsClean(c: Suite, key: Bytes, s: State, own: Option<Bytes>, trusted: seq<Bytes>)
    requires LogInv(c, key, s) && HeadInv(c, key, s) && Recoverable(s, own, trusted)
    ensures var log := EncodeLog(s.records);
            && ReadLog(c, key, log, |log|).entries == s.entries
            && OpenDecision(c, key, own, trusted, log, s.head).Ok?
            && OpenDecision(c, key, own, trusted, log, s.head).value.log == log
            && OpenDecision(c, key, own, trusted, log, s.head).value.entries == s.entries
  {
    hide OpenDecision, EncodeLog, Frame, HeadsChain, SignerAllowed, ReadLog, Leaves;
    var log := EncodeLog(s.records);
    Empty(log);
    ReadLogRoundTrip(c, key, s.records, s.entries, [], |log|);
    var clean := s.(log := log, pending := NoPending, phase := Down);
    Recovery(c, key, clean, own, trusted);
  }

  /** Whatever the directory holds, an Open that succeeds keeps only records its head vouches for:
      the head's size, root, MAC and signature pass against exactly the entries kept, at most one readable
      record is dropped. Where no record is readable the head makes no difference. */
  lemma OpenIsSound(c: Suite, key: Bytes, own: Option<Bytes>, trusted: seq<Bytes>, log: Bytes, file: HeadFile)
    requires OpenDecision(c, key, own, trusted, log, file).Ok?
    ensures var o, read := OpenDecision(c, key, own, trusted, log, file).value, ReadLog(c, key, log, |log|);
            && o.entries <= read.entries && |read.entries| - |o.entries| == o.uncommitted <= 1
            && (|read.entries| > 0 ==>
                  && |o.entries| > 0 && file.Present?
                  && file.head.size == |o.entries| && file.head.root == RootOf(c, o.entries)
                  && file.head.mac == Mac(c, key, |o.entries|, RootOf(c, o.entries))
                  && SignerAllowed(file.head, own, trusted)
                  && (o.unsignedHead <==> own.Some? && file.head.sig == [])
                  && (file.head.sig != [] ==>
                        c.verify(file.head.signerKey, SigInput(|o.entries|, RootOf(c, o.entries)), file.head.sig)))
            && (|read.entries| == 0 ==> o.entries == [] && !o.unsignedHead && forall other ::
                  var d := OpenDecision(c, key, own, trusted, log, other);
                  d.Ok? && d.value.entries == [] && d.value.log == o.log && d.value.quarantined == o.quarantined)
  {
    hide ReadLog, Leaves, Merkle.Root, Mac, SigInput;
    var read := ReadLog(c, key, log, |log|);
    var k := CommittedCount(file, |read.entries|);
    LeavesOfPrefix(c, read.entries, k);
    LeavesOfPrefix(c, read.entries, |read.entries|);
    assert read.entries[..|read.entries|] == read.entries;
    assert Leaves(c, read.entries)[..|read.entries|] == Leaves(c, read.entries);
  }

  // ----- which bytes Open leaves in the log

  /** The last whole frame of the log does not unseal: a wrong key, or corruption. */
  predicate EndsUnreadable(c: Suite, key: Bytes, log: Bytes) {
    var rs := SplitFrames(log);
    |rs| > 0 && Unseal(c, key, rs[|rs| - 1]) == None
  }

  /** log keeps just the first m frames of rs, of which the last holds the last of es. */
  ghost predicate KeepsFrames(c: Suite, key: Bytes, rs: seq<Bytes>, m: nat, log: Bytes, es: seq<Entry>) {
    && m <= |rs| && log == EncodeLog(rs[..m]) && Readable(c, key, rs[..m]) == es
    && (m > 0 ==> Unseal(c, key, rs[m - 1]).Some?)
  }

  /** The last readable record ends with the last whole frame exactly if that frame is readable. */
  lemma LastGoodIsLastFrame(c: Suite, key: Bytes, log: Bytes)
    ensures var read := ReadLog(c, key, log, |log|);
            var lastGood := if |read.ends| > 0 then read.ends[|read.ends| - 1] else 0;
            read.frames == lastGood <==> !EndsUnreadable(c, key, log)
  {
    hide Unseal, EncodeLog, SplitFrames, Readable;
    var rs := SplitFrames(log);
    EncodeInvertsSplit(log);
    if |rs| > 0 {
      EncodeLonger(rs);
      EndsOfFront(c, key, rs);
    } else {
      NoFramesNoEnds(c, key, rs);
    }
  }

  lemma EncodeLonger(rs: seq<Bytes>)
    requires |rs| > 0
    ensures |EncodeLog(rs)| > |EncodeLog(rs[..|rs| - 1])|
  {
    hide Frame;
  }

  lemma NoFramesNoEnds(c: Suite, key: Bytes, rs: seq<Bytes>)
    requires |rs| == 0
    ensures Ends(c, key, rs) == [] && EncodeLog(rs) == []
  {
  }

  lemma EndsOfFront(c: Suite, key: Bytes, rs: seq<Bytes>)
    requires |rs| > 0
    ensures var front := Ends(c, key, rs[..|rs| - 1]);
            Ends(c, key, rs) == if Unseal(c, key, rs[|rs| - 1]) == None then front else front + [|EncodeLog(rs)|]
  {
    hide Unseal, EncodeLog, Readable;
  }

  /** The first k readable entries are those of the first m frames, of which the last is readable. */
  lemma {:induction false} ReadableAt(c: Suite, key: Bytes, rs: seq<Bytes>, k: nat) returns (m: nat)
    requires k <= |Readable(c, key, rs)|
    ensures m <= |rs| && Readable(c, key, rs[..m]) == Readable(c, key, rs)[..k] && (m == 0 <==> k == 0)
    ensures m > 0 ==> Unseal(c, key, rs[m - 1]).Some? && Ends(c, key, rs)[k - 1] == |EncodeLog(rs[..m])|
    decreases |rs|
  {
    hide Unseal, EncodeLog;
    m := 0;
    if k > 0 {
      var n := |rs| - 1;
      if Unseal(c, key, rs[n]).Some? && k == |Readable(c, key, rs)| {
        m := |rs|;
        assert rs[..m] == rs;
      } else {
        m := ReadableAt(c, key, rs[..n], k);
        TakeTake(rs, m, n);
        EndsOfFront(c, key, rs);
      }
    }
  }

  lemma EncodeShorter(rs: seq<Bytes>, m: nat)
    requires m <= |rs|
    ensures EncodeLog(rs[..m]) <= EncodeLog(rs)
    ensures m < |rs| ==> |EncodeLog(rs[..m])| < |EncodeLog(rs)|
  {
    hide EncodeLog;
    Cut(rs, m);
    EncodeConcat(rs[..m], rs[m..]);
    if m < |rs| {
      EncodeLonger(rs[m..]);
    }
  }

  /** Cutting the log after its first k readable entries cuts it after a frame. */
  lemma CutIsAFrameEnd(c: Suite, key: Bytes, log: Bytes, k: nat) returns (m: nat)
    requires k <= |ReadLog(c, key, log, |log|).entries|
    ensures var read := ReadLog(c, key, log, |log|);
            var cut := if k > 0 then read.ends[k - 1] else 0;
            && KeepsFrames(c, key, SplitFrames(log), m, log[..cut], read.entries[..k])
            && (k < |read.entries| ==> cut < |log|)
  {
    hide Unseal, EncodeLog, SplitFrames, Ends, NextFrame, Readable;
    var rs := SplitFrames(log);
    EncodeInvertsSplit(log);
    m := ReadableAt(c, key, rs, k);
    EncodeShorter(rs, m);
    if k == 0 {
      NoFramesNoEnds(c, key, rs[..0]);
    }
    PrefixOfPrefix(EncodeLog(rs[..m]), EncodeLog(rs), log);
    if m == |rs| {
      assert rs[..m] == rs;
    }
  }

  /** Which bytes a successful Open leaves, on any directory. If the last whole frame does not unseal, the
      log is left as it is. Otherwise it is cut just after the frame of the last entry kept, and everything
      behind that goes to quarantine; so something is moved exactly if the last whole frame unseals, if
      there is one, and the log goes on behind the last entry kept. */
  lemma OpenMovesOnlyACrashTail(c: Suite, key: Bytes, own: Option<Bytes>, trusted: seq<Bytes>, log: Bytes,
                                file: HeadFile)
    requires OpenDecision(c, key, own, trusted, log, file).Ok?
    ensures var o, rs := OpenDecision(c, key, own, trusted, log, file).value, SplitFrames(log);
            && (EndsUnreadable(c, key, log) ==>
                  o.log == log && o.quarantined == None && o.entries == Readable(c, key, rs))
            && (!EndsUnreadable(c, key, log) ==>
                  && (exists m :: KeepsFrames(c, key, rs, m, o.log, o.entries))
                  && (o.quarantined.Some? <==> o.log != log)
                  && (o.quarantined.Some? ==> log == o.log + o.quarantined.value))
  {
    hide Unseal, EncodeLog, SplitFrames, Leaves, VerifyTreeHead, Ends, EndsUnreadable, KeepsFrames;
    LastGoodIsLastFrame(c, key, log);
    var read := ReadLog(c, key, log, |log|);
    var k := CommittedCount(file, |read.entries|);
    var m := CutIsAFrameEnd(c, key, log, k);
    assert log[..|log|] == log && read.entries[..|read.entries|] == read.entries;
    if !EndsUnreadable(c, key, log) {
      assert KeepsFrames(c, key, SplitFrames(log), m, OpenDecision(c, key, own, trusted, log, file).value.log,
                         OpenDecision(c, key, own, trusted, log, file).value.entries);
    }
  }

  /** Frames that fail to unseal can be moved all the same when a readable one follows them: a good frame,
      an unreadable one and another good one under a head for the first. */
  lemma UnreadableFrameIsMoved(c: Suite, key: Bytes, s1: Bytes, s2: Bytes, s3: Bytes, e1: Entry, e3: Entry,
                               signer: Option<Signer>)
    requires Fits(s1) && Fits(s2) && Fits(s3) && GoodSigners(c, signer)
    requires Unseal(c, key, s1) == Some(e1) && Unseal(c, key, s2) == None && Unseal(c, key, s3) == Some(e3)
    ensures var head := NewHead(c, key, signer, Leaves(c, [e1]), Missing);
            var d := OpenDecision(c, key, OwnKey(signer), [], EncodeLog([s1, s2, s3]), Present(head));
            && d.Ok? && d.value.entries == [e1] && d.value.log == EncodeLog([s1])
            && d.value.quarantined == Some(EncodeLog([s2, s3]))
  {
    hide Unseal, Frame, NextFrame, ReadLog, OpenDecision, Leaves, CheckTreeHead;
    var rs := [s1, s2, s3];
    var log, head := EncodeLog(rs), NewHead(c, key, signer, Leaves(c, [e1]), Missing);
    ReadsMiddleUnreadable(c, key, s1, s2, s3, e1, e3);
    LeavesOfPrefix(c, [e1, e3], 1);
    assert [e1, e3][..1] == [e1];
    NewHeadChecks(c, key, signer, Leaves(c, [e1]), Missing, OwnKey(signer), [], []);
    assert [s1] + [s2, s3] == rs;
    EncodeConcat([s1], [s2, s3]);
    Halves(EncodeLog([s1]), EncodeLog([s2, s3]));
    EncodeLongerBy(s1, [s2, s3]);
    OpenCutsAfterCommitted(c, key, OwnKey(signer), [], log, Present(head), 1);
  }

  lemma EncodeLongerBy(s: Bytes, rs: seq<Bytes>)
    requires |rs| > 0
    ensures |EncodeLog([s])| < |EncodeLog([s] + rs)|
  {
    hide Frame;
    EncodeConcat([s], rs);
  }

  lemma ReadsMiddleUnreadable(c: Suite, key: Bytes, s1: Bytes, s2: Bytes, s3: Bytes, e1: Entry, e3: Entry)
    requires Fits(s1) && Fits(s2) && Fits(s3)
    requires Unseal(c, key, s1) == Some(e1) && Unseal(c, key, s2) == None && Unseal(c, key, s3) == Some(e3)
    ensures var log := EncodeLog([s1, s2, s3]);
            var r := ReadLog(c, key, log, |log|);
            && r.entries == [e1, e3] && r.ends == [|EncodeLog([s1])|, |log|] && r.frames == |log|
  {
    hide Unseal, Frame, NextFrame;
    var rs := [s1, s2, s3];
    Empty(EncodeLog(rs));
    SplitInvertsEncode(rs, []);
    NothingToSplit();
    Empty(rs);
    assert rs[..2] == [s1, s2] && [s1, s2][..1] == [s1] && [s1][..0] == [];
    assert Readable(c, key, [s1]) == [e1] && Ends(c, key, [s1]) == [|EncodeLog([s1])|];
    assert Readable(c, key, [s1, s2]) == [e1] && Ends(c, key, [s1, s2]) == [|EncodeLog([s1])|];
  }

  lemma NothingToSplit()
    ensures SplitFrames([]) == []
  {
  }

  /** A restart rebuilds the tree and the next number from exactly the committed entries. */
  lemma ReopenRebuildsMemory(c: Suite, key: Bytes, s: State, signer: Option<Signer>, trusted: seq<Bytes>)
    requires Inv(c, key, s) && Enabled(c, key, s, Reopen(signer, trusted))
    ensures var s' := Apply(c, key, s, Reopen(signer, trusted));
            && s'.head == s.head && s'.heads == s.heads && s'.signings == s.signings && s'.entries == s.entries
            && s'.leaves == Leaves(c, s.entries) && s'.seqNo == SeqOf(s.entries)
            && s.quarantined <= s'.quarantined
  {
    hide OpenDecision, EncodeLog, Frame, HeadInv, LogInv;
    Recovery(c, key, s, OwnKey(signer), trusted);
  }

  /** The records Append can still read back are exactly those whose sealed form fits the 64 MiB
      frame limit readLog enforces; Append itself does not check it. After a larger one a log that
      held records can never be opened again, and one that held none opens as empty. */
  lemma AppendSurvivesIffItFits(c: Suite, key: Bytes, records: seq<Bytes>, entries: seq<Entry>, e: Entry, sealed: Bytes,
                                signer: Option<Signer>, stored: HeadFile, own: Option<Bytes>, trusted: seq<Bytes>)
    requires Holds(c, key, records, entries) && |entries| + 1 < MAX_SIZE && GoodSigners(c, signer)
    requires Unseal(c, key, sealed) == Some(e) && 1 <= |sealed| < 0x1_0000_0000
    requires signer.Some? && own.Some? ==> KeyAccepted(signer.value.pub, own.value, trusted)
    ensures var log := EncodeLog(records) + Frame(sealed);
            var head := NewHead(c, key, signer, Leaves(c, entries + [e]), stored);
            var d := OpenDecision(c, key, own, trusted, log, Present(head));
            && ((d.Ok? && d.value.entries == entries + [e]) <==> |sealed| <= 64 * 1024 * 1024)
            && (|sealed| > 64 * 1024 * 1024 ==> if |entries| > 0 then d.Err? else d.Ok? && d.value.entries == [])
  {
    hide CheckTreeHead, Frame, NextFrame, ReadLog, NewHead, Unseal, OpenDecision;
    var log := EncodeLog(records) + Frame(sealed);
    var head := NewHead(c, key, signer, Leaves(c, entries + [e]), stored);
    if |sealed| <= MAX_FRAME {
      FittingRecordReopens(c, key, records, entries, e, sealed, signer, stored, own, trusted);
    } else {
      OversizedFrameIsSkipped(sealed);
      ReadLogRoundTrip(c, key, records, entries, Frame(sealed), |log|);
      NewHeadSize(c, key, signer, Leaves(c, entries + [e]), stored);
      OpenNeedsTheHeadsSize(c, key, own, trusted, log, Present(head));
    }
  }

  lemma OversizedFrameIsSkipped(sealed: Bytes)
    requires MAX_FRAME < |sealed| < 0x1_0000_0000
    ensures NextFrame(Frame(sealed)) == None
  {
    Widths();
    BigEndianRoundTrip(|sealed|, 4);
    Halves(BigEndian(|sealed|, 4), sealed);
  }

  lemma NewHeadSize(c: Suite, key: Bytes, signer: Option<Signer>, leaves: seq<Digest>, stored: HeadFile)
    requires |leaves| < MAX_SIZE
    ensures NewHead(c, key, signer, leaves, stored).size == |leaves|
  {
  }

  /** A head that covers more records than can be read is refused, unless none can be read at all. */
  lemma OpenNeedsTheHeadsSize(c: Suite, key: Bytes, own: Option<Bytes>, trusted: seq<Bytes>, log: Bytes, file: HeadFile)
    requires file.Present? && file.head.size > |ReadLog(c, key, log, |log|).entries|
    ensures var d := OpenDecision(c, key, own, trusted, log, file);
            if |ReadLog(c, key, log, |log|).entries| > 0 then d.Err? else d.Ok? && d.value.entries == []
  {
    hide ReadLog, Leaves, Mac, SigInput, CheckSignature;
  }

  lemma FittingRecordReopens(c: Suite, key: Bytes, records: seq<Bytes>, entries: seq<Entry>, e: Entry, sealed: Bytes,
                             signer: Option<Signer>, stored: HeadFile, own: Option<Bytes>, trusted: seq<Bytes>)
    requires Holds(c, key, records, entries) && |entries| + 1 < MAX_SIZE && GoodSigners(c, signer)
    requires Unseal(c, key, sealed) == Some(e) && Fits(sealed)
    requires signer.Some? && own.Some? ==> KeyAccepted(signer.value.pub, own.value, trusted)
    ensures var log := EncodeLog(records) + Frame(sealed);
            var head := NewHead(c, key, signer, Leaves(c, entries + [e]), stored);
            var d := OpenDecision(c, key, own, trusted, log, Present(head));
            d.Ok? && d.value.entries == entries + [e]
  {
    hide CheckTreeHead, Frame, NextFrame, ReadLog, Unseal, OpenDecision, Leaves;
    var rs, es := records + [sealed], entries + [e];
    Snoc(records, sealed);
    var log := EncodeLog(rs);
    Empty(log);
    ReadLogRoundTrip(c, key, rs, es, [], |log|);
    var head := NewHead(c, key, signer, Leaves(c, es), stored);
    NewHeadChecks(c, key, signer, Leaves(c, es), stored, own, trusted, []);
    assert Leaves(c, es)[..|es|] == Leaves(c, es) && es[..|es|] == es && rs[..|rs|] == rs;
    OpenCutsAfterCommitted(c, key, own, trusted, log, Present(head), |es|);
  }

  // ----- heads

  /** Every head ever published stays a prefix of the log: at any later point of the run the root
      of its first size entries is still its root, and its prevRoot is the head before it. */
  lemma PublishedHeadsStayPrefixes(c: Suite, key: Bytes, tr: seq<State>, ls: seq<Label>, i: nat, j: nat, k: nat)
    requires Run(c, key, tr, ls) && i <= j < |tr| && k < |tr[i].heads|
    ensures var h := tr[i].heads[k];
            && h.size == k + 1 <= |tr[j].entries|
            && h.root == Merkle.Root(c.hash, Leaves(c, tr[j].entries)[..h.size])
            && h.prevRoot == (if k == 0 then [] else tr[i].heads[k - 1].root)
  {
    hide EncodeLog, Frame, Leaves, LogInv, SigInput, Apply, Enabled;
    InvHolds(c, key, tr, ls, i);
    HistoryGrows(c, key, tr, ls, i, j);
    var s := tr[i];
    LeavesOfPrefix(c, tr[j].entries, k + 1);
    assert tr[j].entries[..k + 1] == s.entries[..k + 1];
    HeadAt(c, key, s.entries, s.heads, s.signers, k);
  }

  lemma HeadAt(c: Suite, key: Bytes, entries: seq<Entry>, heads: seq<TreeHead>, signers: seq<Option<Signer>>, k: nat)
    requires HeadsChain(c, key, entries, heads, signers) && k < |heads|
    ensures var h := heads[k];
            && h.size == k + 1
            && h.root == Merkle.Root(c.hash, Leaves(c, entries[..k + 1]))
            && h.prevRoot == (if k == 0 then [] else heads[k - 1].root)
            && (signers[k].Some? ==> h.signerKey == signers[k].value.pub)
            && (forall own, trusted, pinned ::
                  CheckTreeHead(c, h, key, own, trusted, pinned, Leaves(c, entries[..k + 1])).Ok?
                  <==> SignerAllowed(h, own, trusted) && PinAllowed(h, pinned))
  {
    hide CheckTreeHead, SigInput, Leaves;
    var stored := HeadFileOf(heads[..k]);
    forall own, trusted, pinned
      ensures CheckTreeHead(c, heads[k], key, own, trusted, pinned, Leaves(c, entries[..k + 1])).Ok?
              <==> SignerAllowed(heads[k], own, trusted) && PinAllowed(heads[k], pinned)
    {
      NewHeadChecks(c, key, signers[k], Leaves(c, entries[..k + 1]), stored, own, trusted, pinned);
    }
  }

  // ----- readers

  /** A reader that took the head at time i and then the log: every byte it saw was in the file at
      some later time, it read at least to where the file ended at some later time, and stat gave
      the size at some later time. The writer may append, crash, restart and truncate meanwhile. */
  ghost predicate Observed(tr: seq<State>, i: nat, o: Observation) {
    && i < |tr| && o.head == tr[i].head
    && (exists t :: i <= t < |tr| && |tr[t].log| <= |o.view|)
    && (exists t :: i <= t < |tr| && |tr[t].log| == o.size)
    && forall k :: 0 <= k < |o.view| ==> exists t :: i <= t < |tr| && k < |tr[t].log| && o.view[k] == tr[t].log[k]
  }

  /** Committed bytes never move: the file starts with them at every later time. */
  lemma CommittedBytesStay(c: Suite, key: Bytes, tr: seq<State>, ls: seq<Label>, i: nat, t: nat)
    requires Run(c, key, tr, ls) && i <= t < |tr|
    ensures EncodeLog(tr[i].records) <= tr[t].log
  {
    hide EncodeLog, Frame, HeadInv, Apply, Enabled, Holds;
    InvHolds(c, key, tr, ls, t);
    HistoryGrows(c, key, tr, ls, i, t);
    var rs, n := tr[t].records, |tr[i].records|;
    Cut(rs, n);
    EncodeConcat(rs[..n], rs[n..]);
    assert rs[..n] == tr[i].records;
    PrefixOfPrefix(EncodeLog(tr[i].records), EncodeLog(rs), tr[t].log);
  }

  lemma ViewStartsWithCommitted(c: Suite, key: Bytes, tr: seq<State>, ls: seq<Label>, i: nat, o: Observation)
    requires Run(c, key, tr, ls) && Observed(tr, i, o)
    ensures EncodeLog(tr[i].records) <= o.view && |EncodeLog(tr[i].records)| <= o.size
  {
    hide EncodeLog, Frame, Run;
    var base := EncodeLog(tr[i].records);
    forall t | i <= t < |tr|
      ensures base <= tr[t].log
    {
      CommittedBytesStay(c, key, tr, ls, i, t);
    }
  }

  /** Once a head exists, a reader beside a running, crashing, recovering writer always succeeds at
      its first attempt and returns exactly the entries its head covered when it was read. */
  lemma ReadersAreSafe(c: Suite, key: Bytes, tr: seq<State>, ls: seq<Label>, i: nat, rounds: seq<Observation>,
                       pinned: seq<Bytes>)
    requires Run(c, key, tr, ls) && |rounds| > 0 && Observed(tr, i, rounds[0])
    requires tr[i].head.Present? && PinAllowed(tr[i].head.head, pinned)
    ensures var r := Decide(c, key, pinned, rounds);
            && r.Ok? && r.value.entries == tr[i].entries && r.value.leaves == Leaves(c, tr[i].entries)
            && r.value.uncoveredRecords
              == |ReadLog(c, key, rounds[0].view, rounds[0].size).entries| - |tr[i].entries| >= 0
            && r.value.uncoveredBytes == rounds[0].size - |EncodeLog(tr[i].records)| >= 0
  {
    hide CheckTreeHead, EncodeLog, Frame, HeadsChain, Apply, Enabled, ReadLog, Leaves;
    var s, o := tr[i], rounds[0];
    InvHolds(c, key, tr, ls, i);
    ViewStartsWithCommitted(c, key, tr, ls, i, o);
    HeadedStateHasEntries(c, key, s);
    ReadRoundOfKnown(c, key, s, o, pinned);
  }

  /** Rounds taken one after the other beside a run: each starts at its step, and where it found no head
      it looked for one again later. */
  ghost predicate ObservedInTurn(tr: seq<State>, steps: seq<nat>, rounds: seq<Observation>, pinned: seq<Bytes>) {
    && |steps| == |rounds| > 0
    && (forall k, l :: 0 <= k < l < |steps| ==> steps[k] <= steps[l])
    && forall k :: 0 <= k < |rounds| ==>
         && Observed(tr, steps[k], rounds[k])
         && (tr[steps[k]].head.Present? ==> PinAllowed(tr[steps[k]].head.head, pinned))
         && (exists t :: steps[k] <= t < |tr| && rounds[k].again == tr[t].head)
  }

  /** The round found records but no head for them yet: the writer is between its first frame and its head. */
  ghost predicate Waits(c: Suite, key: Bytes, o: Observation) {
    o.head.Missing? && |ReadLog(c, key, o.view, o.size).entries| > 0
  }

  /** What a reader beside a run is told by the round that decides: with a head, exactly the entries it
      covers; without one and with nothing to read, an empty log if no key is pinned; and an error if one is
      or if the first head appeared in between. */
  ghost predicate Answers(c: Suite, key: Bytes, pinned: seq<Bytes>, s: State, o: Observation,
                          r: Result<CommittedLog, StoreError>)
  {
    if s.head.Present? then
      && r.Ok? && r.value.entries == s.entries && r.value.leaves == Leaves(c, s.entries)
      && r.value.uncoveredRecords == |ReadLog(c, key, o.view, o.size).entries| - |s.entries| >= 0
      && r.value.uncoveredBytes == o.size - |EncodeLog(s.records)| >= 0
    else if o.again.Present? then r.Err?
    else if |pinned| > 0 then r == Err(HeadNotSigned)
    else r == Ok(CommittedLog([], [], 0, o.size))
  }

  /** readCommitted beside any run: rounds that wait are tried again, the first that does not wait decides,
      and if all of them wait the answer is that the head is missing. So once a head exists its entries are
      returned, unless an earlier round saw neither head nor record. */
  lemma {:induction false} ReadersAreAnswered(c: Suite, key: Bytes, tr: seq<State>, ls: seq<Label>, steps: seq<nat>,
                                              rounds: seq<Observation>, pinned: seq<Bytes>, n: nat)
    requires Run(c, key, tr, ls) && ObservedInTurn(tr, steps, rounds, pinned)
    requires n <= |rounds| && (forall k :: 0 <= k < n ==> Waits(c, key, rounds[k]))
    requires n < |rounds| ==> !Waits(c, key, rounds[n])
    ensures var r := Decide(c, key, pinned, rounds);
            if n < |rounds| then Answers(c, key, pinned, tr[steps[n]], rounds[n], r) else r == Err(MissingTreeHead)
    decreases n
  {
    hide Enabled, Apply, ReadLog, Leaves, CheckTreeHead, Observed, EncodeLog;
    if n > 0 {
      assert Waits(c, key, rounds[0]);
      if |rounds| > 1 {
        assert forall k :: 0 <= k < |rounds| - 1 ==> rounds[1..][k] == rounds[k + 1] && steps[1..][k] == steps[k + 1];
        ReadersAreAnswered(c, key, tr, ls, steps[1..], rounds[1..], pinned, n - 1);
      }
    } else {
      RoundAnswers(c, key, tr, ls, steps[0], rounds, pinned);
    }
  }

  lemma RoundAnswers(c: Suite, key: Bytes, tr: seq<State>, ls: seq<Label>, i: nat, rounds: seq<Observation>,
                     pinned: seq<Bytes>)
    requires Run(c, key, tr, ls) && |rounds| > 0 && Observed(tr, i, rounds[0]) && !Waits(c, key, rounds[0])
    requires tr[i].head.Present? ==> PinAllowed(tr[i].head.head, pinned)
    requires exists t :: i <= t < |tr| && rounds[0].again == tr[t].head
    ensures Answers(c, key, pinned, tr[i], rounds[0], Decide(c, key, pinned, rounds))
  {
    hide Enabled, Apply, ReadLog, Leaves, Observed, EncodeLog, Mac, SigInput, CheckSignature;
    var o := rounds[0];
    assert o.head == tr[i].head by { HeadOfObservation(tr, i, o); }
    HeadIsNeverCorrupt(c, key, tr, ls, i);
    if tr[i].head.Present? {
      ReadersAreSafe(c, key, tr, ls, i, rounds, pinned);
    } else {
      var t :| i <= t < |tr| && o.again == tr[t].head;
      HeadIsNeverCorrupt(c, key, tr, ls, t);
    }
  }

  lemma HeadIsNeverCorrupt(c: Suite, key: Bytes, tr: seq<State>, ls: seq<Label>, i: nat)
    requires Run(c, key, tr, ls) && i < |tr|
    ensures !tr[i].head.Corrupt? && (tr[i].head.Present? ==> tr[i].head.head.size > 0)
  {
    hide Enabled, Apply, LogInv, SeqInv, SigningInv, PublishedInv, NewHead;
    InvHolds(c, key, tr, ls, i);
    var s := tr[i];
    if |s.heads| > 0 {
      HeadAt(c, key, s.entries, s.heads, s.signers, |s.heads| - 1);
    }
  }

  lemma HeadedStateHasEntries(c: Suite, key: Bytes, s: State)
    requires HeadInv(c, key, s) && s.head.Present?
    ensures |s.entries| > 0
  {
  }

  lemma ReadRoundOfKnown(c: Suite, key: Bytes, s: State, o: Observation, pinned: seq<Bytes>)
    requires LogInv(c, key, s) && HeadInv(c, key, s) && |s.entries| > 0 && o.head == s.head
    requires EncodeLog(s.records) <= o.view && |EncodeLog(s.records)| <= o.size
    requires PinAllowed(s.head.head, pinned)
    ensures var r := ReadRound(c, key, pinned, o);
            && r.Done? && r.log.entries == s.entries && r.log.leaves == Leaves(c, s.entries)
            && r.log.uncoveredRecords == |ReadLog(c, key, o.view, o.size).entries| - |s.entries| >= 0
            && r.log.uncoveredBytes == o.size - |EncodeLog(s.records)|
  {
    hide CheckTreeHead, EncodeLog, Frame, HeadInv, ReadLog, Leaves;
    var base, n := EncodeLog(s.records), |s.entries|;
    Cut(o.view, |base|);
    assert o.view[..|base|] == base;
    ReadLogOfKnownPrefix(c, key, s.records, s.entries, o.view[|base|..], o.size);
    StoredHeadChecks(c, key, s, None, [], pinned);
    var read := ReadLog(c, key, o.view, o.size);
    assert read.entries[..n] == s.entries;
  }

  /** A proof a read-only store gives beside a running writer is for the entry its head covered at
      that index, and verifies against that head's root, whatever was appended since. */
  lemma ProofsMatchTheHead(c: Suite, key: Bytes, tr: seq<State>, ls: seq<Label>, i: nat, o: Observation, index: nat)
    requires Run(c, key, tr, ls) && Observed(tr, i, o)
    ensures var r := ProofFrom(c, key, |tr[i].entries|, o.view, index);
            && (r.Ok? <==> index < |tr[i].entries|)
            && (r.Ok? ==>
                  && r.value.1 == tr[i].entries[index]
                  && r.value.0.index == index && r.value.0.size == |tr[i].entries|
                  && Merkle.Verify(c.hash, RootOf(c, tr[i].entries), Leaf(c, r.value.1), r.value.0).Ok?)
  {
    hide EncodeLog, ProofFrom, HeadInv, Apply, Enabled, Merkle.Verify, Merkle.Root;
    InvHolds(c, key, tr, ls, i);
    ViewStartsWithCommitted(c, key, tr, ls, i, o);
    ProofFromKnown(c, key, tr[i].records, tr[i].entries, o.view, index);
  }

  lemma ProofFromKnown(c: Suite, key: Bytes, records: seq<Bytes>, entries: seq<Entry>, view: Bytes, index: nat)
    requires Holds(c, key, records, entries) && EncodeLog(records) <= view
    ensures var r := ProofFrom(c, key, |entries|, view, index);
            && (r.Ok? <==> index < |entries|)
            && (r.Ok? ==>
                  && r.value.1 == entries[index] && r.value.0.index == index && r.value.0.size == |entries|
                  && Merkle.Verify(c.hash, RootOf(c, entries), Leaf(c, r.value.1), r.value.0).Ok?)
  {
    hide EncodeLog, ReadLog, Merkle.Prove, Merkle.Verify, Merkle.Root, Holds, Leaf;
    var base := EncodeLog(records);
    Cut(view, |base|);
    assert view[..|base|] == base;
    ReadLogOfKnownPrefix(c, key, records, entries, view[|base|..], |view|);
    var all := ReadLog(c, key, view, |view|).entries;
    var kept := if |all| > |entries| then all[..|entries|] else all;
    assert kept == entries;
    Merkle.ProofsAreComplete(c.hash, Leaves(c, entries), index);
  }

  // ----- tamper evidence

  /** The messages the store's signing keys have signed in a run up to this state. */
  ghost predicate WasSigned(c: Suite, s: State, pub: Bytes, message: Bytes) {
    exists g :: && g in s.signings && g.pub == pub && |g.entries| < MAX_SIZE
                && message == SigInput(|g.entries|, RootOf(c, g.entries))
  }

  /** If the signature this head carries verifies under a pinned key for its size and root, the store
      made it. This is about the one signature shown; a key may well sign other messages. */
  ghost predicate NotForged(c: Suite, s: State, pinned: seq<Bytes>, file: HeadFile) {
    file.Present? && file.head.signerKey in pinned && |file.head.root| == 32 && |file.head.sig| == SIGNATURE_SIZE
    && c.verify(file.head.signerKey, SigInput(file.head.size, file.head.root), file.head.sig) ==>
      WasSigned(c, s, file.head.signerKey, SigInput(file.head.size, file.head.root))
  }

  /** No head file these reads came upon is a forgery. */
  ghost predicate NoneForged(c: Suite, s: State, pinned: seq<Bytes>, rounds: seq<Observation>) {
    forall k :: 0 <= k < |rounds| ==>
      NotForged(c, s, pinned, rounds[k].head) && NotForged(c, s, pinned, rounds[k].again)
  }

  /** However the files were changed, and whoever knows the machine key: if a pinned read-only
      open accepts, its entries are the entries a pinned key signed for, all but possibly the
      last of which the log has committed; or two of the strings hashed for the two trees collide. */
  lemma TamperEvidence(c: Suite, key: Bytes, tr: seq<State>, ls: seq<Label>, pinned: seq<Bytes>,
                       anyKey: Bytes, rounds: seq<Observation>)
    requires Run(c, key, tr, ls) && |pinned| > 0 && |rounds| > 0
    requires NoneForged(c, tr[|ls|], pinned, rounds)
    requires Decide(c, anyKey, pinned, rounds).Ok?
    ensures var log := Decide(c, anyKey, pinned, rounds).value;
            exists g :: && g in tr[|ls|].signings && g.pub in pinned && 1 <= |g.entries| == |log.entries|
                        && g.entries[..|g.entries| - 1] <= tr[|ls|].entries
                        && (log.entries == g.entries
                            || Collision(c.hash, Hashed(c, log.entries), Hashed(c, g.entries)))
  {
    hide CheckTreeHead, Decide, ReadRound, HeadInv, LogInv, PublishedInv, Apply, Enabled, Hashed, RootOf, SigInput;
    var s := tr[|ls|];
    InvHolds(c, key, tr, ls, |ls|);
    var log := Decide(c, anyKey, pinned, rounds).value;
    var k, h := AcceptedIsSigned(c, anyKey, pinned, rounds);
    assert NotForged(c, s, pinned, rounds[k].head) && NotForged(c, s, pinned, rounds[k].again);
    var g :| g in s.signings && g.pub == h.signerKey && |g.entries| < MAX_SIZE
             && SigInput(|log.entries|, RootOf(c, log.entries)) == SigInput(|g.entries|, RootOf(c, g.entries));
    SigInputInjective(|log.entries|, RootOf(c, log.entries), |g.entries|, RootOf(c, g.entries));
    assert Justified(c, s, g);
    RootBindsEntries(c, log.entries, g.entries);
  }

  /** The head that decided an accepted pinned open, and the round it was read in. */
  lemma {:induction false} AcceptedIsSigned(c: Suite, key: Bytes, pinned: seq<Bytes>, rounds: seq<Observation>)
    returns (k: nat, h: TreeHead)
    requires |pinned| > 0 && |rounds| > 0 && Decide(c, key, pinned, rounds).Ok?
    ensures k < |rounds| && (rounds[k].head == Present(h) || rounds[k].again == Present(h))
    ensures var log := Decide(c, key, pinned, rounds).value;
            && h.size == |log.entries| && h.root == RootOf(c, log.entries)
            && h.signerKey in pinned && |h.sig| == SIGNATURE_SIZE
            && c.verify(h.signerKey, SigInput(h.size, RootOf(c, log.entries)), h.sig)
  {
    hide SigInput;
    var o := rounds[0];
    if ReadRound(c, key, pinned, o).Retry? {
      k, h := AcceptedIsSigned(c, key, pinned, rounds[1..]);
      k := k + 1;
    } else {
      k, h := 0, if o.head.Missing? then o.again.head else o.head.head;
    }
  }

  /** What a run published is no forgery, in that state and later. */
  lemma PublishedIsNotForged(c: Suite, key: Bytes, tr: seq<State>, ls: seq<Label>, i: nat, k: nat, pinned: seq<Bytes>)
    requires Run(c, key, tr, ls) && i < |tr| && k < |tr[i].heads|
    ensures NotForged(c, tr[|ls|], pinned, Present(tr[i].heads[k]))
  {
    hide LogInv, SeqInv, SigningInv, Apply, Enabled, SigInput, RootOf, CheckTreeHead;
    InvHolds(c, key, tr, ls, i);
    HistoryGrows(c, key, tr, ls, i, |ls|);
    var s := tr[i];
    HeadAt(c, key, s.entries, s.heads, s.signers, k);
    if s.signers[k].Some? {
      var g := Signing(s.signers[k].value.pub, s.entries[..k + 1]);
      assert Made(s, s.signers[k], s.entries[..k + 1]);
      assert g in tr[|ls|].signings && g.pub == s.heads[k].signerKey && |g.entries| == s.heads[k].size;
      assert s.heads[k].root == RootOf(c, g.entries) by { SameRoot(c, g.entries); }
    }
  }

  lemma SameRoot(c: Suite, es: seq<Entry>)
    ensures RootOf(c, es) == Merkle.Root(c.hash, Leaves(c, es))
  {
  }

  /** Every honest read meets the premises of TamperEvidence: beside any run with a pinned head, the
      first round shows no forged head and is accepted. */
  lemma HonestReadsAreNotForged(c: Suite, key: Bytes, tr: seq<State>, ls: seq<Label>, i: nat, t: nat,
                                o: Observation, pinned: seq<Bytes>)
    requires Run(c, key, tr, ls) && Observed(tr, i, o) && i <= t < |tr| && o.again == tr[t].head
    requires |pinned| > 0 && tr[i].head.Present? && PinAllowed(tr[i].head.head, pinned)
    ensures NoneForged(c, tr[|ls|], pinned, [o]) && Decide(c, key, pinned, [o]).Ok?
  {
    hide Run, Observed, Decide, NotForged;
    ReadersAreSafe(c, key, tr, ls, i, [o], pinned);
    HeadFileIsNotForged(c, key, tr, ls, i, pinned);
    HeadFileIsNotForged(c, key, tr, ls, t, pinned);
    assert o.head == tr[i].head by { HeadOfObservation(tr, i, o); }
  }

  lemma HeadOfObservation(tr: seq<State>, i: nat, o: Observation)
    requires Observed(tr, i, o)
    ensures o.head == tr[i].head
  {
  }

  lemma HeadFileIsNotForged(c: Suite, key: Bytes, tr: seq<State>, ls: seq<Label>, i: nat, pinned: seq<Bytes>)
    requires Run(c, key, tr, ls) && i < |tr|
    ensures NotForged(c, tr[|ls|], pinned, tr[i].head)
  {
    hide LogInv, SeqInv, SigningInv, PublishedInv, HeadsChain, Apply, Enabled, SigInput;
    InvHolds(c, key, tr, ls, i);
    if |tr[i].heads| > 0 {
      PublishedIsNotForged(c, key, tr, ls, i, |tr[i].heads| - 1, pinned);
    }
  }

  // ----- sequence numbers

  /** Committed sequence numbers are positive and rise strictly in every run; in a run where no
      Append failed to marshal, entry m carries number m + 1, one that no head covers yet included. */
  lemma SequenceNumbers(c: Suite, key: Bytes, tr: seq<State>, ls: seq<Label>, i: nat)
    requires Run(c, key, tr, ls) && i < |tr|
    ensures Rising(tr[i].entries)
    ensures (forall k :: 0 <= k < i ==> !ls[k].Refuse?) ==> Numbered(tr[i].entries) && Numbered(Visible(tr[i]))
  {
    hide LogInv, HeadInv, Apply, Enabled;
    InvHolds(c, key, tr, ls, i);
    if forall k :: 0 <= k < i ==> !ls[k].Refuse? {
      Unbroken(c, key, tr, ls, i);
    }
  }

  ghost predicate Numbered(es: seq<Entry>) { forall m :: 0 <= m < |es| ==> es[m].seqNo == m + 1 }

  ghost predicate CountInv(s: State) {
    && Numbered(s.entries)
    && (s.phase.Idle? ==> s.seqNo == |s.entries|)
    && (s.pending.Pending? ==> s.pending.entry.seqNo == |s.entries| + 1)
    && (s.phase.Writing? || s.phase.Signed? ==> s.pending.Pending? && s.pending.entry.seqNo == s.seqNo)
  }

  lemma {:induction false} Unbroken(c: Suite, key: Bytes, tr: seq<State>, ls: seq<Label>, i: nat)
    requires Run(c, key, tr, ls) && i < |tr| && forall k :: 0 <= k < i ==> !ls[k].Refuse?
    ensures CountInv(tr[i])
  {
    if i > 0 {
      hide Inv, Apply, Enabled, CountInv;
      Unbroken(c, key, tr, ls, i - 1);
      InvHolds(c, key, tr, ls, i - 1);
      StepCounts(c, key, tr[i - 1], ls[i - 1]);
    } else {
      assert CountInv(INIT);
    }
  }

  lemma StepCounts(c: Suite, key: Bytes, s: State, l: Label)
    requires Inv(c, key, s) && CountInv(s) && Enabled(c, key, s, l) && !l.Refuse?
    ensures CountInv(Apply(c, key, s, l))
  {
    hide OpenDecision, NewHead, Leaves, Leaf, Inv, Frame, Fits;
    if l.Reopen? {
      ReopenRebuildsMemory(c, key, s, l.newSigner, l.trusted);
    }
  }

  // ----- Append is four steps of the protocol

  /** The state a run of steps leads to, if each step is enabled in turn. */
  ghost function Exec(c: Suite, key: Bytes, s: State, ls: seq<Label>): Option<State>
    decreases |ls|
  {
    if |ls| == 0 then Some(s)
    else if Enabled(c, key, s, ls[0]) then Exec(c, key, Apply(c, key, s, ls[0]), ls[1..])
    else None
  }

  lemma ExecFour(c: Suite, key: Bytes, s0: State, s1: State, s2: State, s3: State, s4: State, ls: seq<Label>)
    requires |ls| == 4
    requires Enabled(c, key, s0, ls[0]) && s1 == Apply(c, key, s0, ls[0])
    requires Enabled(c, key, s1, ls[1]) && s2 == Apply(c, key, s1, ls[1])
    requires Enabled(c, key, s2, ls[2]) && s3 == Apply(c, key, s2, ls[2])
    requires Enabled(c, key, s3, ls[3]) && s4 == Apply(c, key, s3, ls[3])
    ensures Exec(c, key, s0, ls) == Some(s4)
  {
    hide Enabled, Apply;
    assert ls[1..][0] == ls[1] && ls[1..][1..] == ls[2..] && ls[2..][0] == ls[2];
    assert ls[2..][1..] == ls[3..] && ls[3..][0] == ls[3] && ls[3..][1..] == [];
    assert Exec(c, key, s3, ls[3..]) == Some(s4);
    assert Exec(c, key, s2, ls[2..]) == Some(s4);
  }

  /** What LogStore.Append promises of the directory and of the store's memory. */
  ghost predicate Appended(c: Suite, key: Bytes, s: State, e: Entry, nonce: Bytes, s': State)
    requires |s.leaves| + 1 < MAX_SIZE
  {
    && s'.log == s.log + Frame(c.seal(nonce, key, c.encode(e)))
    && s'.leaves == s.leaves + [Leaf(c, e)]
    && s'.head == Present(NewHead(c, key, s.signer, s.leaves + [Leaf(c, e)], s.head))
    && s'.seqNo == e.seqNo && s'.quarantined == s.quarantined
    && s'.entries == s.entries + [e] && s'.phase == Idle && s'.signer == s.signer
  }

  /** LogStore.Append is the run begin, write the whole frame, sign, commit. */
  lemma AppendIsFourSteps(c: Suite, key: Bytes, s: State, e: Entry, nonce: Bytes)
    requires Enabled(c, key, s, Begin(e, nonce))
    ensures var r := Exec(c, key, s, [Begin(e, nonce), Write(4 + |c.seal(nonce, key, c.encode(e))|), Sign, Commit]);
            r.Some? && Appended(c, key, s, e, nonce, r.value)
  {
    hide Frame, NewHead, Leaf, OpenDecision, Exec, Fits;
    var sealed := c.seal(nonce, key, c.encode(e));
    var f, w := Frame(sealed), 4 + |sealed|;
    assert f[0..w] == f;
    var s1 := Apply(c, key, s, Begin(e, nonce));
    var s2 := Apply(c, key, s1, Write(w));
    var s3 := Apply(c, key, s2, Sign);
    ExecFour(c, key, s, s1, s2, s3, Apply(c, key, s3, Commit), [Begin(e, nonce), Write(w), Sign, Commit]);
  }
}
