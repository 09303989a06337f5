/** The store as a protocol: a writer that appends a frame byte by byte and then replaces the
    head, crashes anywhere, restarts that recover, and readers that run beside it. */
module Protocol {
  import opened Bytes
  import opened Records
  import opened Framing
  import opened Sequences
  import opened Store

  /** The record being appended, and how many bytes of its frame have reached the file. It
      outlives a crash: its bytes stay in the file until a restart moves them aside. */
  datatype Pending = NoPending | Pending(entry: Entry, sealed: Bytes, written: nat)

  datatype Phase = Down | Idle | Writing | Signed(next: TreeHead)

  /** One use of a signing key: the key, and the entries whose size and root it signed. */
  datatype Signing = Signing(pub: Bytes, entries: seq<Entry>)

  datatype State = State(
    // the directory
    log: Bytes, head: HeadFile, quarantined: seq<Bytes>,
    // the writer process
    phase: Phase, signer: Option<Signer>, leaves: seq<Digest>, seqNo: nat,
    // history: committed entries, their sealed records, the heads published for them with their
    // signers, the append in progress, and every signature ever made
    entries: seq<Entry>, records: seq<Bytes>, heads: seq<TreeHead>, signers: seq<Option<Signer>>,
    pending: Pending, signings: seq<Signing>)

  const INIT := State([], Missing, [], Down, None, [], 0, [], [], [], [], NoPending, [])

  datatype Label =
    | Begin(entry: Entry, nonce: Bytes)             // Append starts: number, marshal, seal
    | Refuse                                        // Append fails to marshal its data
    | Write(n: nat)                                 // n more bytes of the frame reach the file
    | Sign                                          // the new head is built, signed, written beside the old
    | Commit                                        // the new head is renamed into place
    | Crash
    | HalfReopen(copy: Bytes)                       // a restart that dies while copying the tail
    | Reopen(newSigner: Option<Signer>, trusted: seq<Bytes>)

  ghost predicate Enabled(c: Suite, key: Bytes, s: State, l: Label) {
    match l
    case Begin(e, nonce) =>
      && s.phase == Idle && e.seqNo == s.seqNo + 1 && |s.leaves| + 1 < MAX_SIZE
      && Fits(c.seal(nonce, key, c.encode(e)))
    case Refuse => s.phase == Idle
    case Write(n) =>
      && s.phase == Writing && s.pending.Pending? && n > 0
      && s.pending.written + n <= 4 + |s.pending.sealed|
    case Sign =>
      && s.phase == Writing && s.pending.Pending? && s.pending.written == 4 + |s.pending.sealed|
      && |s.leaves| + 1 < MAX_SIZE
    case Commit => s.phase.Signed? && s.pending.Pending?
    case Crash => s.phase != Down
    case HalfReopen(copy) =>
      && s.phase == Down
      && exists own, trusted ::
           var d := OpenDecision(c, key, own, trusted, s.log, s.head);
           d.Ok? && d.value.quarantined.Some? && copy <= d.value.quarantined.value
    case Reopen(signer, trusted) =>
      && s.phase == Down && GoodSigners(c, signer)
      && OpenDecision(c, key, OwnKey(signer), trusted, s.log, s.head).Ok?
  }

  ghost function Apply(c: Suite, key: Bytes, s: State, l: Label): State
    requires Enabled(c, key, s, l)
  {
    match l
    case Begin(e, nonce) =>
      s.(phase := Writing, seqNo := e.seqNo, pending := Pending(e, c.seal(nonce, key, c.encode(e)), 0))
    case Refuse => s.(seqNo := s.seqNo + 1)
    case Write(n) =>
      var w := s.pending.written;
      s.(log := s.log + Frame(s.pending.sealed)[w..w + n], pending := s.pending.(written := w + n))
    case Sign =>
      var leaves := s.leaves + [Leaf(c, s.pending.entry)];
      var signing := if s.signer.None? then [] else [Signing(s.signer.value.pub, s.entries + [s.pending.entry])];
      s.(phase := Signed(NewHead(c, key, s.signer, leaves, s.head)), leaves := leaves, signings := s.signings + signing)
    case Commit =>
      s.(phase := Idle, head := Present(s.phase.next), pending := NoPending,
         entries := s.entries + [s.pending.entry], records := s.records + [s.pending.sealed],
         heads := s.heads + [s.phase.next], signers := s.signers + [s.signer])
    case Crash => s.(phase := Down, leaves := [], seqNo := 0)
    case HalfReopen(copy) => s.(quarantined := s.quarantined + [copy])
    case Reopen(signer, trusted) =>
      var o := OpenDecision(c, key, OwnKey(signer), trusted, s.log, s.head).value;
      s.(phase := Idle, signer := signer, log := o.log, leaves := Leaves(c, o.entries), seqNo := SeqOf(o.entries),
         quarantined := s.quarantined + (if o.quarantined.None? then [] else [o.quarantined.value]),
         pending := NoPending)
  }

  /** A run: its states and the steps between them. */
  ghost predicate Run(c: Suite, key: Bytes, tr: seq<State>, ls: seq<Label>) {
    && Lawful(c)
    && |tr| == |ls| + 1
    && tr[0] == INIT
    && forall i :: 0 <= i < |ls| ==> Enabled(c, key, tr[i], ls[i]) && tr[i + 1] == Apply(c, key, tr[i], ls[i])
  }

  // ----- the invariant

  function PendingBytes(p: Pending): Bytes {
    if p.Pending? && p.written <= 4 + |p.sealed| then Frame(p.sealed)[..p.written] else []
  }

  /** The file is the committed records and the bytes of the append in progress, nothing else. */
  ghost predicate LogInv(c: Suite, key: Bytes, s: State) {
    && Holds(c, key, s.records, s.entries)
    && (s.pending.Pending? ==>
          && s.pending.written <= 4 + |s.pending.sealed|
          && Fits(s.pending.sealed) && Unseal(c, key, s.pending.sealed) == Some(s.pending.entry))
    && s.log == EncodeLog(s.records) + PendingBytes(s.pending)
    && (s.phase == Idle ==> s.pending == NoPending)
    && (s.phase.Signed? ==> s.pending.Pending? && s.pending.written == 4 + |s.pending.sealed|)
  }

  function HeadFileOf(heads: seq<TreeHead>): HeadFile {
    if |heads| == 0 then Missing else Present(heads[|heads| - 1])
  }

  /** Head k was written over the first k + 1 entries, in place of head k - 1. */
  ghost predicate HeadsChain(c: Suite, key: Bytes, entries: seq<Entry>, heads: seq<TreeHead>,
                             signers: seq<Option<Signer>>) {
    && |heads| == |entries| == |signers| < MAX_SIZE
    && forall k :: 0 <= k < |heads| ==>
         && GoodSigners(c, signers[k])
         && heads[k] == NewHead(c, key, signers[k], Leaves(c, entries[..k + 1]), HeadFileOf(heads[..k]))
  }

  ghost predicate HeadInv(c: Suite, key: Bytes, s: State) {
    && HeadsChain(c, key, s.entries, s.heads, s.signers)
    && s.head == HeadFileOf(s.heads)
    && (s.phase != Down ==> GoodSigners(c, s.signer))
    && (s.phase.Idle? || s.phase.Writing? ==> s.leaves == Leaves(c, s.entries))
    && (s.phase.Signed? && s.pending.Pending? ==>
          && |s.entries| + 1 < MAX_SIZE
          && s.leaves == Leaves(c, s.entries + [s.pending.entry])
          && s.phase.next == NewHead(c, key, s.signer, Leaves(c, s.entries + [s.pending.entry]), s.head))
  }

  /** Sequence numbers rise strictly, and the next one is above all that were committed. */
  ghost predicate SeqInv(s: State) {
    && (forall i, j :: 0 <= i < j < |s.entries| ==> s.entries[i].seqNo < s.entries[j].seqNo)
    && (forall i :: 0 <= i < |s.entries| ==> 0 < s.entries[i].seqNo <= SeqOf(s.entries))
    && (s.phase != Down ==> SeqOf(s.entries) <= s.seqNo)
    && (s.pending.Pending? ==> SeqOf(s.entries) < s.pending.entry.seqNo)
    && (s.phase.Writing? || s.phase.Signed? ==> s.pending.Pending? && s.pending.entry.seqNo == s.seqNo)
  }

  /** Every signature covers committed entries and at most one record beyond them. */
  ghost predicate Justified(c: Suite, s: State, g: Signing) {
    && 1 <= |g.entries| < MAX_SIZE
    && g.entries[..|g.entries| - 1] <= s.entries
  }

  ghost predicate SigningInv(c: Suite, s: State) {
    forall i :: 0 <= i < |s.signings| ==> Justified(c, s, s.signings[i])
  }

  /** The signer, if there was one, has signed for these entries. */
  ghost predicate Made(s: State, signer: Option<Signer>, entries: seq<Entry>) {
    signer.Some? ==> Signing(signer.value.pub, entries) in s.signings
  }

  /** Every head that was published, or is about to be, was signed by its signer for its entries. */
  ghost predicate PublishedInv(s: State) {
    && |s.signers| == |s.entries|
    && (forall k :: 0 <= k < |s.signers| ==> Made(s, s.signers[k], s.entries[..k + 1]))
    && (s.phase.Signed? && s.pending.Pending? ==> Made(s, s.signer, s.entries + [s.pending.entry]))
  }

  ghost predicate Inv(c: Suite, key: Bytes, s: State) {
    LogInv(c, key, s) && HeadInv(c, key, s) && SeqInv(s) && SigningInv(c, s) && PublishedInv(s)
  }

  // ----- recovery

  /** Whether the append in progress has its whole frame in the file. */
  predicate FrameComplete(p: Pending) { p.Pending? && p.written == 4 + |p.sealed| }

  lemma IncompleteTailHoldsNoFrame(s: State)
    requires s.pending.Pending? ==> s.pending.written <= 4 + |s.pending.sealed| && Fits(s.pending.sealed)
    requires !FrameComplete(s.pending)
    ensures NextFrame(PendingBytes(s.pending)) == None
  {
    if s.pending.Pending? {
      TornHoldsNoFrame(PendingBytes(s.pending));
    }
  }

  lemma CompleteTailIsARecord(c: Suite, key: Bytes, s: State)
    requires LogInv(c, key, s) && FrameComplete(s.pending)
    ensures s.log == EncodeLog(s.records + [s.pending.sealed])
    ensures Holds(c, key, s.records + [s.pending.sealed], s.entries + [s.pending.entry])
  {
    hide Frame, Unseal;
    Snoc(s.records, s.pending.sealed);
    assert Frame(s.pending.sealed)[..s.pending.written] == Frame(s.pending.sealed);
  }

  /** The stored head passes against the committed entries for every signer that is allowed to
      follow it. */
  lemma StoredHeadChecks(c: Suite, key: Bytes, s: State, own: Option<Bytes>, trusted: seq<Bytes>, pinned: seq<Bytes>)
    requires HeadInv(c, key, s) && |s.entries| > 0
    ensures s.head.Present? && s.head.head.size == |s.entries| && s.head.head.root == RootOf(c, s.entries)
    ensures CheckTreeHead(c, s.head.head, key, own, trusted, pinned, Leaves(c, s.entries)).Ok?
            <==> SignerAllowed(s.head.head, own, trusted) && PinAllowed(s.head.head, pinned)
  {
    hide CheckTreeHead, SigInput;
    var m := |s.heads| - 1;
    assert s.entries[..m + 1] == s.entries;
    NewHeadChecks(c, key, s.signers[m], Leaves(c, s.entries), HeadFileOf(s.heads[..m]), own, trusted, pinned);
  }

  /** What Open reads back: the committed entries, and the interrupted one if its frame is whole. */
  ghost predicate ReadsBack(c: Suite, key: Bytes, s: State) {
    var read, n := ReadLog(c, key, s.log, |s.log|), |s.entries|;
    && n <= |read.entries| == (if FrameComplete(s.pending) then n + 1 else n)
    && read.entries[..n] == s.entries
    && (n > 0 ==> read.ends[n - 1] == |EncodeLog(s.records)|)
    && read.frames == (if |read.ends| > 0 then read.ends[|read.ends| - 1] else 0)
  }

  lemma ReadsBackIncomplete(c: Suite, key: Bytes, s: State)
    requires LogInv(c, key, s) && !FrameComplete(s.pending)
    ensures ReadsBack(c, key, s)
  {
    hide Frame, NextFrame, ReadLog;
    IncompleteTailHoldsNoFrame(s);
    ReadLogRoundTrip(c, key, s.records, s.entries, PendingBytes(s.pending), |s.log|);
    assert s.records[..|s.entries|] == s.records;
  }

  lemma ReadsBackComplete(c: Suite, key: Bytes, s: State)
    requires LogInv(c, key, s) && FrameComplete(s.pending)
    ensures ReadsBack(c, key, s)
  {
    hide Frame, NextFrame, ReadLog;
    var rs, es := s.records + [s.pending.sealed], s.entries + [s.pending.entry];
    CompleteTailIsARecord(c, key, s);
    Empty(EncodeLog(rs));
    ReadLogRoundTrip(c, key, rs, es, [], |s.log|);
    Snoc(s.entries, s.pending.entry);
    Snoc(s.records, s.pending.sealed);
    assert rs[..|rs|] == rs;
  }

  /** What anyone who reads the log finds: the committed entries, and a record no head covers yet if
      its frame is whole. */
  function Visible(s: State): seq<Entry> {
    s.entries + if FrameComplete(s.pending) then [s.pending.entry] else []
  }

  lemma LogReads(c: Suite, key: Bytes, s: State)
    requires LogInv(c, key, s)
    ensures ReadLog(c, key, s.log, |s.log|).entries == Visible(s)
  {
    hide Frame, NextFrame, ReadLog;
    if FrameComplete(s.pending) {
      var rs := s.records + [s.pending.sealed];
      CompleteTailIsARecord(c, key, s);
      Empty(EncodeLog(rs));
      ReadLogRoundTrip(c, key, rs, Visible(s), [], |s.log|);
    } else {
      IncompleteTailHoldsNoFrame(s);
      Empty(s.entries);
      ReadLogRoundTrip(c, key, s.records, s.entries, PendingBytes(s.pending), |s.log|);
    }
  }

  lemma VisibleRises(s: State)
    requires SeqInv(s)
    ensures Rising(Visible(s))
  {
  }

  /** Open, once the head has been judged against the first k records: refused with that verdict,
      or everything after those records goes. */
  lemma OpenCutsAfterCommitted(c: Suite, key: Bytes, own: Option<Bytes>, trusted: seq<Bytes>, log: Bytes,
                               file: HeadFile, k: nat)
    requires var read := ReadLog(c, key, log, |log|);
             && 0 < k == CommittedCount(file, |read.entries|)
             && read.frames == read.ends[|read.ends| - 1]
             && (k == |read.entries| || read.ends[k - 1] < |log|)
    ensures var read := ReadLog(c, key, log, |log|);
            var d := OpenDecision(c, key, own, trusted, log, file);
            match VerifyTreeHead(c, file, key, own, trusted, [], Leaves(c, read.entries)[..k])
            case Err(e) => d == Err(e)
            case Ok(_) =>
              && d.Ok? && d.value.entries == read.entries[..k] && d.value.log == log[..read.ends[k - 1]]
              && d.value.quarantined == (if read.ends[k - 1] < |log| then Some(log[read.ends[k - 1]..]) else None)
              && d.value.uncommitted == |read.entries| - k
  {
    hide ReadLog, VerifyTreeHead, Leaves;
  }

  /** The outcome of recovery that crash safety asks for. */
  ghost predicate Recovered(s: State, o: Opened) {
    && o.entries == s.entries
    && o.log == EncodeLog(s.records)
    && o.quarantined == (if PendingBytes(s.pending) == [] then None else Some(PendingBytes(s.pending)))
    && o.uncommitted == (if FrameComplete(s.pending) then 1 else 0)
  }

  lemma RecoverCommitted(c: Suite, key: Bytes, s: State, own: Option<Bytes>, trusted: seq<Bytes>)
    requires LogInv(c, key, s) && HeadInv(c, key, s) && |s.entries| > 0 && ReadsBack(c, key, s)
    ensures var d := OpenDecision(c, key, own, trusted, s.log, s.head);
            && (d.Ok? <==> SignerAllowed(s.head.head, own, trusted))
            && (d.Ok? ==> Recovered(s, d.value))
  {
    hide CheckTreeHead, Frame, ReadLog, OpenDecision, SignerAllowed, HeadInv, Holds, Leaves, EncodeLog;
    var n, t := |s.entries|, PendingBytes(s.pending);
    StoredHeadChecks(c, key, s, own, trusted, []);
    LeavesOfPrefix(c, ReadLog(c, key, s.log, |s.log|).entries, n);
    Halves(EncodeLog(s.records), t);
    OpenCutsAfterCommitted(c, key, own, trusted, s.log, s.head, n);
  }

  lemma RecoverEmpty(c: Suite, key: Bytes, s: State, own: Option<Bytes>, trusted: seq<Bytes>)
    requires LogInv(c, key, s) && HeadInv(c, key, s) && |s.entries| == 0 && ReadsBack(c, key, s)
    ensures var d := OpenDecision(c, key, own, trusted, s.log, s.head);
            if FrameComplete(s.pending) then d == Err(MissingTreeHead) else d.Ok? && Recovered(s, d.value)
  {
    hide CheckTreeHead, Frame, ReadLog;
    Empty(PendingBytes(s.pending));
  }

  /** When Open accepts what a crash left: always, except that a signed head needs an allowed
      signer, and a first record that never got its head is refused. */
  ghost predicate Recoverable(s: State, own: Option<Bytes>, trusted: seq<Bytes>) {
    if |s.entries| == 0 then !FrameComplete(s.pending)
    else s.head.Present? && SignerAllowed(s.head.head, own, trusted)
  }

  lemma Recovery(c: Suite, key: Bytes, s: State, own: Option<Bytes>, trusted: seq<Bytes>)
    requires LogInv(c, key, s) && HeadInv(c, key, s)
    ensures var d := OpenDecision(c, key, own, trusted, s.log, s.head);
            && (d.Ok? <==> Recoverable(s, own, trusted))
            && (d.Ok? ==> Recovered(s, d.value))
  {
    hide OpenDecision, Frame, ReadsBack, Recovered;
    if FrameComplete(s.pending) {
      ReadsBackComplete(c, key, s);
    } else {
      ReadsBackIncomplete(c, key, s);
    }
    if |s.entries| == 0 {
      RecoverEmpty(c, key, s, own, trusted);
    } else {
      RecoverCommitted(c, key, s, own, trusted);
    }
  }

  // ----- every step keeps the invariant

  lemma HeadsChainExtends(c: Suite, key: Bytes, entries: seq<Entry>, heads: seq<TreeHead>, signers: seq<Option<Signer>>,
                          e: Entry, h: TreeHead, signer: Option<Signer>)
    requires HeadsChain(c, key, entries, heads, signers) && |entries| + 1 < MAX_SIZE && GoodSigners(c, signer)
    requires h == NewHead(c, key, signer, Leaves(c, entries + [e]), HeadFileOf(heads))
    ensures HeadsChain(c, key, entries + [e], heads + [h], signers + [signer])
  {
    hide NewHead, Leaves, HeadFileOf;
    var es, hs, ss := entries + [e], heads + [h], signers + [signer];
    forall k | 0 <= k < |hs|
      ensures GoodSigners(c, ss[k]) && hs[k] == NewHead(c, key, ss[k], Leaves(c, es[..k + 1]), HeadFileOf(hs[..k]))
    {
      if k < |heads| {
        assert es[..k + 1] == entries[..k + 1] && hs[..k] == heads[..k];
      } else {
        assert es[..k + 1] == es && hs[..k] == heads;
      }
    }
  }

  lemma SigningStays(c: Suite, s: State, s': State, i: int)
    requires SigningInv(c, s) && s.entries <= s'.entries && 0 <= i < |s.signings|
    ensures Justified(c, s', s.signings[i])
  {
    var g := s.signings[i];
    PrefixOfPrefix(g.entries[..|g.entries| - 1], s.entries, s'.entries);
  }

  lemma BeginKeepsInv(c: Suite, key: Bytes, s: State, e: Entry, nonce: Bytes)
    requires Lawful(c) && Inv(c, key, s) && Enabled(c, key, s, Begin(e, nonce))
    ensures Inv(c, key, Apply(c, key, s, Begin(e, nonce)))
  {
    hide Frame, EncodeLog, HeadsChain;
    var s' := Apply(c, key, s, Begin(e, nonce));
    assert Frame(s'.pending.sealed)[..0] == [];
  }

  lemma WriteKeepsInv(c: Suite, key: Bytes, s: State, n: nat)
    requires Inv(c, key, s) && Enabled(c, key, s, Write(n))
    ensures Inv(c, key, Apply(c, key, s, Write(n)))
  {
    hide Frame, EncodeLog, HeadsChain, Unseal;
    var f, w := Frame(s.pending.sealed), s.pending.written;
    assert f[..w] + f[w..w + n] == f[..w + n];
    Assoc(EncodeLog(s.records), f[..w], f[w..w + n]);
  }

  lemma SignKeepsInv(c: Suite, key: Bytes, s: State)
    requires Inv(c, key, s) && Enabled(c, key, s, Sign)
    ensures Inv(c, key, Apply(c, key, s, Sign))
  {
    hide Frame, EncodeLog, HeadsChain, Unseal, NewHead;
    LeavesExtend(c, s.entries, s.pending.entry);
    Snoc(s.entries, s.pending.entry);
  }

  lemma CommitKeepsInv(c: Suite, key: Bytes, s: State)
    requires Inv(c, key, s) && Enabled(c, key, s, Commit)
    ensures Inv(c, key, Apply(c, key, s, Commit))
  {
    hide Frame, EncodeLog, HeadsChain, Unseal, NewHead, Leaves;
    var s' := Apply(c, key, s, Commit);
    CompleteTailIsARecord(c, key, s);
    Empty(EncodeLog(s'.records));
    HeadsChainExtends(c, key, s.entries, s.heads, s.signers, s.pending.entry, s.phase.next, s.signer);
    forall i | 0 <= i < |s'.signings|
      ensures Justified(c, s', s'.signings[i])
    {
      SigningStays(c, s, s', i);
    }
    PublishedExtends(s, s', s.pending.entry);
  }

  lemma PublishedExtends(s: State, s': State, e: Entry)
    requires PublishedInv(s) && Made(s, s.signer, s.entries + [e]) && s'.signings == s.signings && !s'.phase.Signed?
    requires s'.entries == s.entries + [e] && s'.signers == s.signers + [s.signer]
    ensures PublishedInv(s')
  {
    forall k | 0 <= k < |s'.signers|
      ensures Made(s', s'.signers[k], s'.entries[..k + 1])
    {
      if k < |s.signers| {
        TakeOfConcat(s.entries, [e], k + 1);
        assert Made(s, s.signers[k], s.entries[..k + 1]);
      } else {
        assert s'.entries[..k + 1] == s'.entries;
      }
    }
  }

  lemma ReopenKeepsInv(c: Suite, key: Bytes, s: State, signer: Option<Signer>, trusted: seq<Bytes>)
    requires Inv(c, key, s) && Enabled(c, key, s, Reopen(signer, trusted))
    ensures Inv(c, key, Apply(c, key, s, Reopen(signer, trusted)))
  {
    hide OpenDecision, HeadsChain, Frame, Leaves, Unseal;
    Recovery(c, key, s, OwnKey(signer), trusted);
    Empty(EncodeLog(s.records));
  }

  lemma StepKeepsInv(c: Suite, key: Bytes, s: State, l: Label)
    requires Lawful(c) && Inv(c, key, s) && Enabled(c, key, s, l)
    ensures Inv(c, key, Apply(c, key, s, l))
  {
    match l
    case Begin(e, nonce) => BeginKeepsInv(c, key, s, e, nonce);
    case Write(n) => WriteKeepsInv(c, key, s, n);
    case Sign => SignKeepsInv(c, key, s);
    case Commit => CommitKeepsInv(c, key, s);
    case Reopen(signer, trusted) => ReopenKeepsInv(c, key, s, signer, trusted);
    case _ => QuietStepKeepsInv(c, key, s, l);
  }

  lemma QuietStepKeepsInv(c: Suite, key: Bytes, s: State, l: Label)
    requires Inv(c, key, s) && Enabled(c, key, s, l) && (l.Refuse? || l.Crash? || l.HalfReopen?)
    ensures Inv(c, key, Apply(c, key, s, l))
  {
    hide OpenDecision, HeadsChain, EncodeLog, Frame, Unseal, NewHead;
  }

  lemma {:induction false} InvHolds(c: Suite, key: Bytes, tr: seq<State>, ls: seq<Label>, i: nat)
    requires Run(c, key, tr, ls) && i < |tr|
    ensures Inv(c, key, tr[i])
  {
    hide Inv, Apply, Enabled;
    if i == 0 {
      InitInv(c, key);
    } else {
      InvHolds(c, key, tr, ls, i - 1);
      StepKeepsInv(c, key, tr[i - 1], ls[i - 1]);
    }
  }

  lemma InitInv(c: Suite, key: Bytes)
    ensures Inv(c, key, INIT)
  {
  }

  /** No committed entry, published head or signature is ever lost or changed. */
  ghost predicate Extends(s: State, s': State) {
    s.entries <= s'.entries && s.records <= s'.records && s.heads <= s'.heads && s.signings <= s'.signings
  }

  lemma {:induction false} HistoryGrows(c: Suite, key: Bytes, tr: seq<State>, ls: seq<Label>, i: nat, j: nat)
    requires Run(c, key, tr, ls) && i <= j < |tr|
    ensures Extends(tr[i], tr[j])
    decreases j
  {
    hide Apply, Enabled;
    if i < j {
      HistoryGrows(c, key, tr, ls, i, j - 1);
      StepExtends(c, key, tr[j - 1], ls[j - 1]);
      PrefixOfPrefix(tr[i].entries, tr[j - 1].entries, tr[j].entries);
      PrefixOfPrefix(tr[i].records, tr[j - 1].records, tr[j].records);
      PrefixOfPrefix(tr[i].heads, tr[j - 1].heads, tr[j].heads);
      PrefixOfPrefix(tr[i].signings, tr[j - 1].signings, tr[j].signings);
    }
  }

  lemma StepExtends(c: Suite, key: Bytes, s: State, l: Label)
    requires Enabled(c, key, s, l)
    ensures Extends(s, Apply(c, key, s, l))
  {
    hide OpenDecision, NewHead, Leaf, Leaves;
  }
}
