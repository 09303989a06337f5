/** Self-verifying exports of the log (internal/store/export.go). */
module Export {
  import opened Bytes
  import opened Records
  import opened Framing
  import opened Sequences
  import opened Store
  import opened Protocol
  import opened StoreSafety
  import Merkle

  const EXPORT_FORMAT := "witness-export/1"

  datatype Filter = Filter(since: Option<int>, until: Option<int>, sources: seq<string>)

  datatype Document = Document(format: string, head: TreeHead, leafHashes: seq<Bytes>, entries: seq<Entry>,
                               filter: Filter)

  datatype ExportError =
    | HeadUnreadable | TooFewRecords | RootDisagrees
    | UnknownFormat | NoPins | LeafCountMismatch | MalformedLeaf | HeadRootMismatch | BadHeadSignature
    | EntryOutsideLog | EntryAltered | PriorLonger | PriorRewritten | BadPriorSignature

  predicate Match(f: Filter, e: Entry) {
    && (f.since.None? || f.since.value <= e.ts)
    && (f.until.None? || e.ts < f.until.value)
    && (|f.sources| == 0 || e.source in f.sources)
  }

  function Selected(f: Filter, es: seq<Entry>): (r: seq<Entry>)
    ensures forall e :: e in r <==> e in es && Match(f, e)
  {
    if |es| == 0 then []
    else
      var m := |es| - 1;
      assert es == es[..m] + [es[m]];
      Selected(f, es[..m]) + if Match(f, es[m]) then [es[m]] else []
  }

  /** The positions at pick sel out of es: rising, and exactly where f matches. */
  ghost predicate Picks(f: Filter, es: seq<Entry>, sel: seq<Entry>, at: seq<nat>) {
    && |at| == |sel|
    && (forall j :: 0 <= j < |at| ==> at[j] < |es| && sel[j] == es[at[j]])
    && (forall j, k :: 0 <= j < k < |at| ==> at[j] < at[k])
    && (forall i :: 0 <= i < |es| ==> (Match(f, es[i]) <==> i in at))
  }

  lemma PicksOneMore(f: Filter, es: seq<Entry>, sel: seq<Entry>, at: seq<nat>, e: Entry)
    requires Picks(f, es, sel, at)
    ensures if Match(f, e) then Picks(f, es + [e], sel + [e], at + [|es|]) else Picks(f, es + [e], sel, at)
  {
    hide Match;
    assert |es| !in at;
  }

  /** A filter keeps the matching entries in their order, each once. */
  lemma {:induction false} SelectedInOrder(f: Filter, es: seq<Entry>) returns (at: seq<nat>)
    ensures Picks(f, es, Selected(f, es), at)
    decreases |es|
  {
    at := [];
    if |es| > 0 {
      hide Match, Picks;
      var m := |es| - 1;
      at := SelectedInOrder(f, es[..m]);
      PicksOneMore(f, es[..m], Selected(f, es[..m]), at, es[m]);
      LastSplit(es);
      if Match(f, es[m]) {
        at := at + [m];
      } else {
        Empty(Selected(f, es[..m]));
      }
    }
  }

  /** Time windows are half open: exports of [a, b) and [b, c) share nothing and together show what an
      export of [a, c) shows. */
  lemma AdjacentWindowsPartition(a: int, b: int, c: int, sources: seq<string>, e: Entry)
    requires a <= b <= c
    ensures var first, second := Filter(Some(a), Some(b), sources), Filter(Some(b), Some(c), sources);
            && !(Match(first, e) && Match(second, e))
            && (Match(first, e) || Match(second, e) <==> Match(Filter(Some(a), Some(c), sources), e))
  {
  }

  /** An export for some sources shows exactly the entries of those sources, over all times. */
  lemma SourcesShown(sources: seq<string>, es: seq<Entry>, e: Entry)
    ensures var shown := Selected(Filter(None, None, sources), es);
            if |sources| == 0 then e in shown <==> e in es
            else e in shown <==> e in es && exists i :: 0 <= i < |sources| && sources[i] == e.source
  {
  }

  const NO_HEAD := TreeHead(0, [], [], [], [], [])

  datatype ExportRound = Exported(doc: Document) | Broken(error: ExportError) | Again(error: ExportError)

  /** One attempt: the head file, and the log bytes read after it. */
  function ExportOnce(c: Suite, key: Bytes, f: Filter, head: HeadFile, view: Bytes): ExportRound {
    match head
    case Missing => Exported(Document(EXPORT_FORMAT, NO_HEAD, [], [], f))
    case Corrupt => Broken(HeadUnreadable)
    case Present(h) =>
      var all := ReadLog(c, key, view, |view|).entries;
      if |all| < h.size then Again(TooFewRecords)
      else
        var es := all[..h.size];
        if RootOf(c, es) != h.root then Again(RootDisagrees)
        else Exported(Document(EXPORT_FORMAT, h, Leaves(c, es), Selected(f, es), f))
  }

  function ExportAttempts(c: Suite, key: Bytes, f: Filter, rounds: seq<Observation>): Result<Document, ExportError>
    requires |rounds| > 0
  {
    match ExportOnce(c, key, f, rounds[0].head, rounds[0].view)
    case Exported(doc) => Ok(doc)
    case Broken(e) => Err(e)
    case Again(e) => if |rounds| == 1 then Err(e) else ExportAttempts(c, key, f, rounds[1..])
  }

  /** An attempt whose head and log do not agree yet is followed by another, and no other attempt is. */
  lemma ExportRetriedIff(c: Suite, key: Bytes, f: Filter, rounds: seq<Observation>)
    requires |rounds| > 0
    ensures var o := rounds[0];
            var all := ReadLog(c, key, o.view, |o.view|).entries;
            var agree := !o.head.Present?
                         || (o.head.head.size <= |all| && RootOf(c, all[..o.head.head.size]) == o.head.head.root);
            if agree then ExportAttempts(c, key, f, rounds) == ExportAttempts(c, key, f, [o])
            else if |rounds| > 1 then ExportAttempts(c, key, f, rounds) == ExportAttempts(c, key, f, rounds[1..])
            else ExportAttempts(c, key, f, rounds).Err?
  {
    hide ReadLog, RootOf, Leaves;
  }

  const MAX_ATTEMPTS := 20

  /** ExportDir's retry loop, given what each attempt observed. */
  method ExportDir(c: Suite, key: Bytes, f: Filter, rounds: seq<Observation>) returns (r: Result<Document, ExportError>)
    requires |rounds| == MAX_ATTEMPTS
    ensures r == ExportAttempts(c, key, f, rounds)
  {
    hide ExportOnce;
    r := Err(TooFewRecords);
    for i := 0 to |rounds|
      invariant i < |rounds| ==> ExportAttempts(c, key, f, rounds) == ExportAttempts(c, key, f, rounds[i..])
      invariant i == |rounds| ==> r == ExportAttempts(c, key, f, rounds)
    {
      DropDrop(rounds, i, 1);
      var once := ExportRoundAt(c, key, f, rounds[i].head, rounds[i].view);
      match once {
        case Exported(doc) => return Ok(doc);
        case Broken(e) => return Err(e);
        case Again(e) => r := Err(e);
      }
    }
  }

  /** The body of one attempt, with the loop that collects leaf hashes and matching entries. */
  method ExportRoundAt(c: Suite, key: Bytes, f: Filter, head: HeadFile, view: Bytes) returns (r: ExportRound)
    ensures r == ExportOnce(c, key, f, head, view)
  {
    if head.Missing? {
      return Exported(Document(EXPORT_FORMAT, NO_HEAD, [], [], f));
    }
    if head.Corrupt? {
      return Broken(HeadUnreadable);
    }
    var h := head.head;
    var read := Scan(c, key, view, |view|);
    if |read.entries| < h.size {
      return Again(TooFewRecords);
    }
    var es := read.entries[..h.size];
    var leaves := LeafLoop(c, es);
    if Merkle.Root(c.hash, leaves) != h.root {
      return Again(RootDisagrees);
    }
    var shown := SelectLoop(f, es);
    return Exported(Document(EXPORT_FORMAT, h, leaves, shown, f));
  }

  method SelectLoop(f: Filter, es: seq<Entry>) returns (shown: seq<Entry>)
    ensures shown == Selected(f, es)
  {
    shown := [];
    for j := 0 to |es|
      invariant shown == Selected(f, es[..j])
    {
      assert es[..j + 1][..j] == es[..j];
      if Match(f, es[j]) {
        shown := shown + [es[j]];
      }
    }
    assert es[..|es|] == es;
  }

  // ----- verification

  /** verifyHeadSignature: an empty log needs none; any other head needs a pinned signature. */
  predicate HeadSigned(c: Suite, h: TreeHead, root: Digest, pins: seq<Bytes>) {
    h.size == 0
    || (|h.sig| == SIGNATURE_SIZE && |h.signerKey| == PUBLIC_KEY_SIZE && h.signerKey in pins
        && c.verify(h.signerKey, SigInput(h.size, root), h.sig))
  }

  predicate WellFormedLeaves(x: Document) { forall i :: 0 <= i < |x.leafHashes| ==> |x.leafHashes[i]| == 32 }

  function LeavesOf(x: Document): (l: seq<Digest>)
    requires WellFormedLeaves(x)
    ensures l == x.leafHashes
  {
    x.leafHashes
  }

  predicate EntryBound(c: Suite, leaves: seq<Digest>, e: Entry) {
    1 <= e.seqNo <= |leaves| && Leaf(c, e) == leaves[e.seqNo - 1]
  }

  predicate PriorBound(c: Suite, leaves: seq<Digest>, p: TreeHead, pins: seq<Bytes>) {
    && p.size <= |leaves|
    && Merkle.Root(c.hash, leaves[..p.size]) == p.root
    && HeadSigned(c, p, Merkle.Root(c.hash, leaves[..p.size]), pins)
  }

  /** What an accepted export establishes, said at once. */
  ghost predicate Accepted(c: Suite, x: Document, pins: seq<Bytes>, priors: seq<TreeHead>) {
    && x.format == EXPORT_FORMAT && |pins| > 0
    && |x.leafHashes| == x.head.size && WellFormedLeaves(x)
    && var leaves := LeavesOf(x);
       var root := Merkle.Root(c.hash, leaves);
       && (x.head.size == 0 || root == x.head.root)
       && HeadSigned(c, x.head, root, pins)
       && (forall i :: 0 <= i < |x.entries| ==> EntryBound(c, leaves, x.entries[i]))
       && (forall i :: 0 <= i < |priors| ==> PriorBound(c, leaves, priors[i], pins))
  }

  datatype Verified = Verified(size: nat, root: Bytes, entriesSeen: nat, priorsOk: nat)

  /** The check loops stop at the first failure; they accept exactly the accepted exports. */
  method VerifyExport(c: Suite, x: Document, pins: seq<Bytes>, priors: seq<TreeHead>)
    returns (r: Result<Verified, ExportError>)
    ensures r.Ok? <==> Accepted(c, x, pins, priors)
    ensures r.Ok? ==> r.value == Verified(x.head.size, x.head.root, |x.entries|, |priors|)
  {
    hide Leaf, SigInput, HeadSigned, Merkle.Root;
    if x.format != EXPORT_FORMAT {
      return Err(UnknownFormat);
    }
    if |pins| == 0 {
      return Err(NoPins);
    }
    if |x.leafHashes| != x.head.size {
      return Err(LeafCountMismatch);
    }
    for i := 0 to |x.leafHashes|
      invariant forall j :: 0 <= j < i ==> |x.leafHashes[j]| == 32
    {
      if |x.leafHashes[i]| != 32 {
        return Err(MalformedLeaf);
      }
    }
    var leaves := LeavesOf(x);
    var root := Merkle.Root(c.hash, leaves);
    if x.head.size != 0 && root != x.head.root {
      return Err(HeadRootMismatch);
    }
    if !HeadSigned(c, x.head, root, pins) {
      return Err(BadHeadSignature);
    }
    for i := 0 to |x.entries|
      invariant forall j :: 0 <= j < i ==> EntryBound(c, leaves, x.entries[j])
    {
      var e := x.entries[i];
      if e.seqNo == 0 || e.seqNo > x.head.size {
        assert !EntryBound(c, leaves, x.entries[i]);
        return Err(EntryOutsideLog);
      }
      if Leaf(c, e) != leaves[e.seqNo - 1] {
        assert !EntryBound(c, leaves, x.entries[i]);
        return Err(EntryAltered);
      }
    }
    for i := 0 to |priors|
      invariant forall j :: 0 <= j < i ==> PriorBound(c, leaves, priors[j], pins)
    {
      var p := priors[i];
      if p.size > x.head.size {
        assert !PriorBound(c, leaves, priors[i], pins);
        return Err(PriorLonger);
      }
      var prefix := Merkle.Root(c.hash, leaves[..p.size]);
      if prefix != p.root {
        assert !PriorBound(c, leaves, priors[i], pins);
        return Err(PriorRewritten);
      }
      if !HeadSigned(c, p, prefix, pins) {
        assert !PriorBound(c, leaves, priors[i], pins);
        return Err(BadPriorSignature);
      }
    }
    return Ok(Verified(x.head.size, x.head.root, |x.entries|, |priors|));
  }

  // ----- completeness

  /** priors are heads published up to this state, each signed by a pinned key. */
  ghost predicate PriorsOf(s: State, priors: seq<TreeHead>, pins: seq<Bytes>) {
    forall i :: 0 <= i < |priors| ==> priors[i] in s.heads && PinAllowed(priors[i], pins)
  }

  lemma PublishedHeadSigned(c: Suite, key: Bytes, s: State, k: nat, pins: seq<Bytes>)
    requires HeadInv(c, key, s) && k < |s.heads| && PinAllowed(s.heads[k], pins) && |pins| > 0
    ensures PriorBound(c, Leaves(c, s.entries), s.heads[k], pins)
    ensures HeadSigned(c, s.heads[k], RootOf(c, s.entries[..k + 1]), pins)
  {
    hide SigInput, Leaves, Merkle.Root;
    LeavesOfPrefix(c, s.entries, k + 1);
    HeadAt(c, key, s.entries, s.heads, s.signers, k);
    assert CheckTreeHead(c, s.heads[k], key, None, [], pins, Leaves(c, s.entries[..k + 1])).Ok?;
  }

  /** Entry m stands where its number says, or passes for the entry that does because their
      encodings collide. */
  ghost predicate Placed(c: Suite, es: seq<Entry>, m: nat)
    requires m < |es|
  {
    || es[m].seqNo == m + 1
    || (1 <= es[m].seqNo <= |es| && EncodingsCollide(c, es[m], es[es[m].seqNo - 1]))
  }

  ghost predicate EncodingsCollide(c: Suite, e: Entry, e': Entry) {
    Collision(c.hash, {Merkle.LeafInput(c.encode(e))}, {Merkle.LeafInput(c.encode(e'))})
  }

  /** Every entry the filter selects is in its place. */
  ghost predicate ShownArePlaced(c: Suite, f: Filter, es: seq<Entry>) {
    forall m :: 0 <= m < |es| && Match(f, es[m]) ==> Placed(c, es, m)
  }

  /** An export taken at any point of any run, beside the running writer, with the signer's pin and
      any earlier pinned heads as priors, under any filter: it is accepted if and only if every
      entry it shows is in its place, that is, if no number is missing up to the last one shown. */
  lemma HonestExportAccepted(c: Suite, key: Bytes, tr: seq<State>, ls: seq<Label>, i: nat, o: Observation, f: Filter,
                             pins: seq<Bytes>, priors: seq<TreeHead>)
    requires Run(c, key, tr, ls) && Observed(tr, i, o) && tr[i].head.Present?
    requires |pins| > 0 && PinAllowed(tr[i].head.head, pins) && PriorsOf(tr[i], priors, pins)
    ensures var x := ExportOnce(c, key, f, o.head, o.view);
            && x.Exported? && x.doc.entries == Selected(f, tr[i].entries) && x.doc.filter == f
            && x.doc.head == tr[i].head.head && x.doc.leafHashes == Leaves(c, tr[i].entries)
            && (Accepted(c, x.doc, pins, priors) <==> ShownArePlaced(c, f, tr[i].entries))
    ensures Numbered(tr[i].entries) ==> ShownArePlaced(c, f, tr[i].entries)
  {
    hide EncodeLog, Frame, Apply, Enabled, LogInv, HeadInv, SeqInv, Accepted, ExportOnce, Selected;
    InvHolds(c, key, tr, ls, i);
    ViewStartsWithCommitted(c, key, tr, ls, i, o);
    var s := tr[i];
    ExportOfKnown(c, key, s, f, o);
    AcceptedIffPlaced(c, key, s, f, pins, priors);
  }

  lemma AcceptedIffPlaced(c: Suite, key: Bytes, s: State, f: Filter, pins: seq<Bytes>, priors: seq<TreeHead>)
    requires Lawful(c) && HeadInv(c, key, s) && SeqInv(s) && s.head.Present?
    requires |pins| > 0 && PinAllowed(s.head.head, pins) && PriorsOf(s, priors, pins)
    ensures Accepted(c, ExportAt(c, s, f), pins, priors) <==> ShownArePlaced(c, f, s.entries)
  {
    hide HeadInv, SeqInv, PinAllowed, Accepted, Placed, EntryBound, Match, Leaves;
    AcceptedButEntries(c, key, s, f, pins, priors);
    var x, es := ExportAt(c, s, f), s.entries;
    assert x.entries == Selected(f, es);
    forall m | 0 <= m < |es|
      ensures EntryBound(c, Leaves(c, es), es[m]) <==> Placed(c, es, m)
    {
      BoundIffPlaced(c, s, m);
    }
    if ShownArePlaced(c, f, es) {
      forall i | 0 <= i < |x.entries|
        ensures EntryBound(c, Leaves(c, es), x.entries[i])
      {
        assert x.entries[i] in Selected(f, es);
        var m :| 0 <= m < |es| && es[m] == x.entries[i];
      }
    } else {
      var m :| 0 <= m < |es| && Match(f, es[m]) && !Placed(c, es, m);
      assert es[m] in es && es[m] in Selected(f, es);
      var i :| 0 <= i < |x.entries| && x.entries[i] == es[m];
    }
  }

  lemma BoundIffPlaced(c: Suite, s: State, m: nat)
    requires Lawful(c) && SeqInv(s) && m < |s.entries|
    ensures EntryBound(c, Leaves(c, s.entries), s.entries[m]) <==> Placed(c, s.entries, m)
  {
    var es := s.entries;
    var e := es[m];
    if 1 <= e.seqNo <= |es| && e.seqNo != m + 1 {
      SameLeafIffCollide(c, e, es[e.seqNo - 1]);
      assert e != es[e.seqNo - 1];
    }
  }

  /** Different entries have the same leaf exactly if their encodings collide. */
  lemma SameLeafIffCollide(c: Suite, e: Entry, e': Entry)
    requires Lawful(c)
    ensures e != e' ==> (Leaf(c, e) == Leaf(c, e') <==> EncodingsCollide(c, e, e'))
  {
    var a, b := Merkle.LeafInput(c.encode(e)), Merkle.LeafInput(c.encode(e'));
    assert c.decode(c.encode(e)) == Some(e) && c.decode(c.encode(e')) == Some(e');
    assert a[1..] == c.encode(e) && b[1..] == c.encode(e');
    assert a in {a} && b in {b};
  }

  /** Before the first head an export is empty and accepted. */
  lemma EmptyExportAccepted(c: Suite, key: Bytes, f: Filter, view: Bytes, pins: seq<Bytes>)
    requires |pins| > 0
    ensures var x := ExportOnce(c, key, f, Missing, view);
            && x.Exported? && x.doc.entries == [] && x.doc.leafHashes == [] && x.doc.filter == f
            && Accepted(c, x.doc, pins, [])
  {
  }

  ghost function ExportAt(c: Suite, s: State, f: Filter): Document
    requires s.head.Present?
  {
    Document(EXPORT_FORMAT, s.head.head, Leaves(c, s.entries), Selected(f, s.entries), f)
  }

  lemma ExportOfKnown(c: Suite, key: Bytes, s: State, f: Filter, o: Observation)
    requires LogInv(c, key, s) && HeadInv(c, key, s) && s.head.Present? && o.head == s.head
    requires EncodeLog(s.records) <= o.view
    ensures ExportOnce(c, key, f, o.head, o.view) == Exported(ExportAt(c, s, f))
  {
    hide EncodeLog, Frame, ReadLog, Leaves, CheckTreeHead, Selected, HeadsChain;
    var base, n := EncodeLog(s.records), |s.entries|;
    Cut(o.view, |base|);
    assert o.view[..|base|] == base;
    ReadLogOfKnownPrefix(c, key, s.records, s.entries, o.view[|base|..], |o.view|);
    HeadedStateHasEntries(c, key, s);
    StoredHeadChecks(c, key, s, None, [], []);
    assert ReadLog(c, key, o.view, |o.view|).entries[..n] == s.entries;
  }

  /** Everything VerifyExport checks except the shown entries holds of an honest export. */
  lemma AcceptedButEntries(c: Suite, key: Bytes, s: State, f: Filter, pins: seq<Bytes>, priors: seq<TreeHead>)
    requires HeadInv(c, key, s) && s.head.Present?
    requires |pins| > 0 && PinAllowed(s.head.head, pins) && PriorsOf(s, priors, pins)
    ensures var x := ExportAt(c, s, f);
            Accepted(c, x, pins, priors)
            <==> forall i :: 0 <= i < |x.entries| ==> EntryBound(c, Leaves(c, s.entries), x.entries[i])
  {
    hide PriorBound, HeadSigned, PinAllowed, Leaf, Leaves, HeadsChain, CheckTreeHead, EntryBound, Selected;
    HeadedStateHasEntries(c, key, s);
    StoredHeadChecks(c, key, s, None, [], []);
    var m := |s.heads| - 1;
    assert |s.heads| == |s.entries| by { HeadCount(c, key, s); }
    assert s.entries[..m + 1] == s.entries;
    PublishedHeadSigned(c, key, s, m, pins);
    forall i | 0 <= i < |priors|
      ensures PriorBound(c, Leaves(c, s.entries), priors[i], pins)
    {
      var k :| 0 <= k < |s.heads| && s.heads[k] == priors[i];
      PublishedHeadSigned(c, key, s, k, pins);
    }
  }

  lemma HeadCount(c: Suite, key: Bytes, s: State)
    requires HeadInv(c, key, s)
    ensures |s.heads| == |s.entries|
  {
  }

  const EVERYTHING := Filter(None, None, [])

  lemma {:induction false} EverythingIsSelected(es: seq<Entry>)
    ensures Selected(EVERYTHING, es) == es
    decreases |es|
  {
    if |es| > 0 {
      EverythingIsSelected(es[..|es| - 1]);
      LastSplit(es);
    }
  }

  /** A full export of a run's log is accepted exactly when the log is numbered without a gap: one
      Append that failed to marshal uses up a number and every later full export is refused. */
  lemma FullExportAcceptedIffNumbered(c: Suite, key: Bytes, tr: seq<State>, ls: seq<Label>, i: nat, pins: seq<Bytes>)
    requires Run(c, key, tr, ls) && i < |tr| && tr[i].head.Present?
    requires |pins| > 0 && PinAllowed(tr[i].head.head, pins)
    ensures Accepted(c, ExportAt(c, tr[i], EVERYTHING), pins, []) <==> Numbered(tr[i].entries)
  {
    hide Apply, Enabled, LogInv, HeadInv, Accepted, ExportAt, Numbered, PinAllowed;
    InvHolds(c, key, tr, ls, i);
    FullExportOf(c, key, tr[i], pins);
  }

  lemma FullExportOf(c: Suite, key: Bytes, s: State, pins: seq<Bytes>)
    requires Lawful(c) && HeadInv(c, key, s) && SeqInv(s) && s.head.Present?
    requires |pins| > 0 && PinAllowed(s.head.head, pins)
    ensures Accepted(c, ExportAt(c, s, EVERYTHING), pins, []) <==> Numbered(s.entries)
  {
    hide HeadInv, SeqInv, PinAllowed, Accepted, EncodingsCollide, ExportAt;
    AcceptedIffPlaced(c, key, s, EVERYTHING, pins, []);
    if !Numbered(s.entries) {
      HeadedStateHasEntries(c, key, s);
      GapLeavesLastOutside(s);
      assert !Placed(c, s.entries, |s.entries| - 1);
    }
  }

  lemma GapLeavesLastOutside(s: State)
    requires SeqInv(s) && |s.entries| > 0 && !Numbered(s.entries)
    ensures s.entries[|s.entries| - 1].seqNo > |s.entries|
  {
    if s.entries[|s.entries| - 1].seqNo <= |s.entries| {
      RisingAndBoundedIsNumbered(s.entries, |s.entries|);
    }
  }

  lemma {:induction false} RisingAndBoundedIsNumbered(es: seq<Entry>, n: nat)
    requires |es| == n
    requires forall i, j :: 0 <= i < j < n ==> es[i].seqNo < es[j].seqNo
    requires forall i :: 0 <= i < n ==> 0 < es[i].seqNo
    requires n > 0 ==> es[n - 1].seqNo <= n
    ensures Numbered(es)
    decreases n
  {
    if n > 0 {
      if n > 1 {
        assert es[n - 2].seqNo < es[n - 1].seqNo;
      }
      RisingAndBoundedIsNumbered(es[..n - 1], n - 1);
      if n > 1 {
        assert es[..n - 1][n - 2].seqNo == n - 1;
      }
    }
  }

  // ----- soundness

  /** Two accepted exports that share a prior head agree on the leaves it covers, or nodes hashed
      for the two prefixes collide. */
  lemma SharedPriorBinds(c: Suite, x: Document, y: Document, pins: seq<Bytes>, priors: seq<TreeHead>,
                         priors': seq<TreeHead>, p: TreeHead)
    requires Accepted(c, x, pins, priors) && Accepted(c, y, pins, priors') && p in priors && p in priors'
    ensures p.size <= |LeavesOf(x)| && p.size <= |LeavesOf(y)|
    ensures var a, b := LeavesOf(x)[..p.size], LeavesOf(y)[..p.size];
            a == b || Collision(c.hash, Merkle.NodeInputs(c.hash, a), Merkle.NodeInputs(c.hash, b))
  {
    hide HeadSigned, EntryBound, Merkle.Root, Merkle.NodeInputs;
    var i :| 0 <= i < |priors| && priors[i] == p;
    var j :| 0 <= j < |priors'| && priors'[j] == p;
    assert PriorBound(c, LeavesOf(x), priors[i], pins) && PriorBound(c, LeavesOf(y), priors'[j], pins);
    Merkle.RootBindsLeaves(c.hash, LeavesOf(x)[..p.size], LeavesOf(y)[..p.size]);
  }

  /** Entries shown with the same number by two exports that agree on that leaf are one entry, or
      their encodings collide. */
  lemma ShownEntriesAgree(c: Suite, x: Document, y: Document, pins: seq<Bytes>, priors: seq<TreeHead>,
                          priors': seq<TreeHead>, e: Entry, e': Entry)
    requires Lawful(c) && Accepted(c, x, pins, priors) && Accepted(c, y, pins, priors')
    requires e in x.entries && e' in y.entries && e.seqNo == e'.seqNo
    ensures 1 <= e.seqNo <= |LeavesOf(x)| && e.seqNo <= |LeavesOf(y)|
    ensures LeavesOf(x)[e.seqNo - 1] == LeavesOf(y)[e.seqNo - 1] ==> e == e' || EncodingsCollide(c, e, e')
  {
    hide HeadSigned, PriorBound, Merkle.Root, Leaf, EncodingsCollide;
    var i :| 0 <= i < |x.entries| && x.entries[i] == e;
    var j :| 0 <= j < |y.entries| && y.entries[j] == e';
    assert EntryBound(c, LeavesOf(x), x.entries[i]) && EntryBound(c, LeavesOf(y), y.entries[j]);
    SameLeafIffCollide(c, e, e');
  }

  /** No head of this export, its own or one it is compared with, is a forgery. */
  ghost predicate NoHeadForged(c: Suite, s: State, x: Document, pins: seq<Bytes>, priors: seq<TreeHead>) {
    && NotForged(c, s, pins, Present(x.head))
    && forall i :: 0 <= i < |priors| ==> NotForged(c, s, pins, Present(priors[i]))
  }

  /** These leaves are the leaves of entries a pinned key signed for in the run, and every entry shown for
      one of them is the entry signed for there, or the two encodings collide; or nodes hashed for the two
      trees collide. */
  ghost predicate SignedFor(c: Suite, s: State, leaves: seq<Digest>, shown: seq<Entry>, pins: seq<Bytes>) {
    exists g :: && g in s.signings && g.pub in pins && |g.entries| == |leaves|
                && ((leaves == Leaves(c, g.entries) && ShownAsSigned(c, shown, g.entries))
                    || Collision(c.hash, Merkle.NodeInputs(c.hash, leaves),
                                 Merkle.NodeInputs(c.hash, Leaves(c, g.entries))))
  }

  ghost predicate ShownAsSigned(c: Suite, shown: seq<Entry>, signed: seq<Entry>) {
    forall i :: 0 <= i < |shown| && 1 <= shown[i].seqNo <= |signed| ==>
      shown[i] == signed[shown[i].seqNo - 1] || EncodingsCollide(c, shown[i], signed[shown[i].seqNo - 1])
  }

  /** The leaves and entries of an accepted non-empty export are those a pinned key signed for in the run,
      and so are the first of them that any non-empty prior covers. */
  lemma AcceptedExportIsSigned(c: Suite, key: Bytes, tr: seq<State>, ls: seq<Label>, x: Document, pins: seq<Bytes>,
                               priors: seq<TreeHead>)
    requires Run(c, key, tr, ls) && Accepted(c, x, pins, priors)
    requires NoHeadForged(c, tr[|ls|], x, pins, priors)
    ensures forall i :: 0 <= i < |x.entries| ==> 1 <= x.entries[i].seqNo <= |LeavesOf(x)|
    ensures x.head.size > 0 ==> SignedFor(c, tr[|ls|], LeavesOf(x), x.entries, pins)
    ensures forall i :: 0 <= i < |priors| && priors[i].size > 0 ==>
              SignedFor(c, tr[|ls|], LeavesOf(x)[..priors[i].size], x.entries, pins)
  {
    hide Enabled, Apply, SignedFor, Merkle.Root, NotForged, HeadSigned, Leaf;
    var s, leaves := tr[|ls|], LeavesOf(x);
    assert forall i :: 0 <= i < |x.entries| ==> EntryBound(c, leaves, x.entries[i]);
    if x.head.size > 0 {
      SignedHeadCovers(c, s, x.head, leaves, x.entries, pins);
    }
    forall i | 0 <= i < |priors| && priors[i].size > 0
      ensures SignedFor(c, s, leaves[..priors[i].size], x.entries, pins)
    {
      assert PriorBound(c, leaves, priors[i], pins);
      SignedHeadCovers(c, s, priors[i], leaves[..priors[i].size], x.entries, pins);
    }
  }

  lemma SignedHeadCovers(c: Suite, s: State, h: TreeHead, leaves: seq<Digest>, shown: seq<Entry>, pins: seq<Bytes>)
    requires Lawful(c) && 0 < h.size == |leaves| && h.root == Merkle.Root(c.hash, leaves)
    requires HeadSigned(c, h, Merkle.Root(c.hash, leaves), pins) && NotForged(c, s, pins, Present(h))
    requires forall i :: 0 <= i < |shown| && 1 <= shown[i].seqNo <= |leaves| ==>
               Leaf(c, shown[i]) == leaves[shown[i].seqNo - 1]
    ensures SignedFor(c, s, leaves, shown, pins)
  {
    hide Merkle.Root, Merkle.NodeInputs, SigInput, Leaf, EncodingsCollide, Lawful;
    var root := Merkle.Root(c.hash, leaves);
    var g :| g in s.signings && g.pub == h.signerKey && |g.entries| < MAX_SIZE
             && SigInput(h.size, root) == SigInput(|g.entries|, RootOf(c, g.entries));
    SigInputInjective(h.size, root, |g.entries|, RootOf(c, g.entries));
    Merkle.RootBindsLeaves(c.hash, leaves, Leaves(c, g.entries));
    if leaves == Leaves(c, g.entries) {
      forall i | 0 <= i < |shown| && 1 <= shown[i].seqNo <= |leaves|
        ensures var e := g.entries[shown[i].seqNo - 1]; shown[i] == e || EncodingsCollide(c, shown[i], e)
      {
        SameLeafIffCollide(c, shown[i], g.entries[shown[i].seqNo - 1]);
      }
    }
  }

  /** Every honest export meets that premise. */
  lemma HonestExportIsNotForged(c: Suite, key: Bytes, tr: seq<State>, ls: seq<Label>, i: nat, f: Filter,
                                pins: seq<Bytes>, priors: seq<TreeHead>)
    requires Run(c, key, tr, ls) && i < |tr| && tr[i].head.Present? && PriorsOf(tr[i], priors, pins)
    ensures NoHeadForged(c, tr[|ls|], ExportAt(c, tr[i], f), pins, priors)
  {
    hide Enabled, Apply, NotForged, PinAllowed, Selected;
    HeadFileIsNotForged(c, key, tr, ls, i, pins);
    forall j | 0 <= j < |priors|
      ensures NotForged(c, tr[|ls|], pins, Present(priors[j]))
    {
      assert priors[j] in tr[i].heads;
      var k :| 0 <= k < |tr[i].heads| && tr[i].heads[k] == priors[j];
      PublishedIsNotForged(c, key, tr, ls, i, k, pins);
    }
  }

  /** The head of an export taken before the first record can never serve as a prior: its root is
      absent, while the root of no leaves is 32 zero bytes. */
  lemma EmptyHeadIsNoPrior(c: Suite, x: Document, pins: seq<Bytes>, priors: seq<TreeHead>)
    requires NO_HEAD in priors
    ensures !Accepted(c, x, pins, priors)
  {
    var i :| 0 <= i < |priors| && priors[i] == NO_HEAD;
    if WellFormedLeaves(x) {
      NoHeadUnbound(c, LeavesOf(x), pins);
    }
  }

  lemma NoHeadUnbound(c: Suite, leaves: seq<Digest>, pins: seq<Bytes>)
    ensures !PriorBound(c, leaves, NO_HEAD, pins)
  {
    assert |NO_HEAD.root| == 0;
  }
}
