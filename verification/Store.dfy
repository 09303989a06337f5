/** Tree heads and the three ways the store touches its directory: Append, Open with crash
    recovery, and the read-only open (internal/store/store.go). */
module Store {
  import opened Bytes
  import opened Records
  import opened Framing
  import opened Sequences
  import Merkle

  /** tree-head.json. Hex fields are given by the bytes they spell, [] for an absent field; text
      that is not hex counts as bytes of a length no check accepts. */
  datatype TreeHead = TreeHead(size: uint64, root: Bytes, prevRoot: Bytes, mac: Bytes, sig: Bytes, signerKey: Bytes)

  datatype HeadFile = Missing | Corrupt | Present(head: TreeHead)

  datatype StoreError =
    | MissingTreeHead | HeadUnparseable | HeadNotSigned | UnexpectedSigner
    | MalformedRoot | RootMismatch | SizeMismatch | MalformedMac | MacFailed
    | MalformedSignature | MalformedSignerKey | BadSignature
    | ReadOnly | MarshalFailed | IndexOutOfRange

  const MAX_SIZE := 0x1_0000_0000_0000_0000

  function SigInput(size: nat, root: Digest): Bytes { BigEndian(size, 8) + root }

  /** The 40 signed bytes: the size, most significant byte first, then the root. */
  lemma SigInputLayout(n: uint64, r: Digest)
    ensures var b := SigInput(n, r); |b| == 40 && FromBigEndian(b[..8]) == n && b[8..] == r
  {
    Widths();
    BigEndianRoundTrip(n, 8);
    Halves(BigEndian(n, 8), r);
  }

  /** The 40 signed bytes name one size and one root. */
  lemma SigInputInjective(n: uint64, r: Digest, n': uint64, r': Digest)
    requires SigInput(n, r) == SigInput(n', r')
    ensures n == n' && r == r'
  {
    Widths();
    BigEndianRoundTrip(n, 8);
    BigEndianRoundTrip(n', 8);
    Halves(BigEndian(n, 8), r);
    Halves(BigEndian(n', 8), r');
  }

  function Mac(c: Suite, key: Bytes, size: nat, root: Digest): Digest { c.mac(key, SigInput(size, root)) }

  predicate KeyAccepted(pub: Bytes, own: Bytes, trusted: seq<Bytes>) { pub == own || pub in trusted }

  /** own is the key of the store's signer, if it has one. */
  function CheckTreeHead(c: Suite, head: TreeHead, key: Bytes, own: Option<Bytes>, trusted: seq<Bytes>,
                         pinned: seq<Bytes>, leaves: seq<Digest>): Result<(), StoreError>
  {
    var root := Merkle.Root(c.hash, leaves);
    if |head.root| != 32 then Err(MalformedRoot)
    else if root != head.root then Err(RootMismatch)
    else if head.size != |leaves| then Err(SizeMismatch)
    else if |head.mac| != 32 then Err(MalformedMac)
    else if Mac(c, key, |leaves|, root) != head.mac then Err(MacFailed)
    else if head.sig == [] then (if |pinned| > 0 then Err(HeadNotSigned) else Ok(()))
    else CheckSignature(c, head, own, trusted, pinned, SigInput(|leaves|, root))
  }

  function CheckSignature(c: Suite, head: TreeHead, own: Option<Bytes>, trusted: seq<Bytes>, pinned: seq<Bytes>,
                          message: Bytes): Result<(), StoreError>
  {
    if |head.sig| != SIGNATURE_SIZE then Err(MalformedSignature)
    else if |head.signerKey| != PUBLIC_KEY_SIZE then Err(MalformedSignerKey)
    else if |pinned| > 0 && !KeyAccepted(head.signerKey, [], pinned) then Err(UnexpectedSigner)
    else if own.Some? && !KeyAccepted(head.signerKey, own.value, trusted) then Err(UnexpectedSigner)
    else if !c.verify(head.signerKey, message, head.sig) then Err(BadSignature)
    else Ok(())
  }

  function VerifyTreeHead(c: Suite, file: HeadFile, key: Bytes, own: Option<Bytes>, trusted: seq<Bytes>,
                          pinned: seq<Bytes>, leaves: seq<Digest>): Result<(), StoreError>
  {
    match file
    case Missing =>
      if |leaves| > 0 then Err(MissingTreeHead)
      else if |pinned| > 0 then Err(HeadNotSigned)
      else Ok(())
    case Corrupt => Err(HeadUnparseable)
    case Present(head) => CheckTreeHead(c, head, key, own, trusted, pinned, leaves)
  }

  /** The head writeTreeHead puts in place of the stored one. */
  function NewHead(c: Suite, key: Bytes, signer: Option<Signer>, leaves: seq<Digest>, stored: HeadFile): TreeHead
    requires |leaves| < MAX_SIZE
  {
    var root := Merkle.Root(c.hash, leaves);
    var prevRoot := if stored.Present? then stored.head.root else [];
    var mac := Mac(c, key, |leaves|, root);
    match signer
    case None => TreeHead(|leaves|, root, prevRoot, mac, [], [])
    case Some(s) => TreeHead(|leaves|, root, prevRoot, mac, s.sign(SigInput(|leaves|, root)), s.pub)
  }

  ghost predicate GoodSigners(c: Suite, signer: Option<Signer>) { signer.Some? ==> GoodSigner(c, signer.value) }

  /** The signer rule of a store opened with key own: unsigned heads pass, others need a known key. */
  predicate SignerAllowed(head: TreeHead, own: Option<Bytes>, trusted: seq<Bytes>) {
    head.sig == [] || own.None? || KeyAccepted(head.signerKey, own.value, trusted)
  }

  predicate PinAllowed(head: TreeHead, pinned: seq<Bytes>) {
    |pinned| == 0 || (head.sig != [] && head.signerKey in pinned)
  }

  /** A head the store itself wrote passes every later check against the records it was written
      for, exactly when its signer is allowed. */
  lemma NewHeadChecks(c: Suite, key: Bytes, signer: Option<Signer>, leaves: seq<Digest>, stored: HeadFile,
                      own: Option<Bytes>, trusted: seq<Bytes>, pinned: seq<Bytes>)
    requires |leaves| < MAX_SIZE && GoodSigners(c, signer)
    ensures var head := NewHead(c, key, signer, leaves, stored);
            CheckTreeHead(c, head, key, own, trusted, pinned, leaves).Ok?
            <==> SignerAllowed(head, own, trusted) && PinAllowed(head, pinned)
  {
    hide SigInput;
    var head := NewHead(c, key, signer, leaves, stored);
    if signer.Some? {
      var m := SigInput(|leaves|, Merkle.Root(c.hash, leaves));
      assert |signer.value.sign(m)| == SIGNATURE_SIZE && c.verify(signer.value.pub, m, signer.value.sign(m));
    }
  }

  // ----- opening with recovery

  /** The result of Open: the records kept, the bytes left in the log, and the bytes moved to the
      quarantine file, if any. */
  datatype Opened = Opened(entries: seq<Entry>, log: Bytes, quarantined: Option<Bytes>, uncommitted: nat,
                           unsignedHead: bool)

  /** How many records the stored head is checked against: all, or all but one when the head
      covers exactly one record less. */
  function CommittedCount(file: HeadFile, n: nat): (k: nat)
    ensures k <= n
  {
    if n > 0 && file.Present? && file.head.size >= 1 && file.head.size + 1 == n then file.head.size else n
  }

  function OpenDecision(c: Suite, key: Bytes, own: Option<Bytes>, trusted: seq<Bytes>, log: Bytes, file: HeadFile)
    : (r: Result<Opened, StoreError>)
    ensures r.Ok? && r.value.quarantined.Some? ==> log == r.value.log + r.value.quarantined.value
    ensures r.Ok? && r.value.quarantined.None? ==> log == r.value.log
  {
    var read := ReadLog(c, key, log, |log|);
    var n := |read.entries|;
    var leaves := Leaves(c, read.entries);
    var committed := CommittedCount(file, n);
    var check := if n == 0 then Ok(()) else VerifyTreeHead(c, file, key, own, trusted, [], leaves[..committed]);
    if check.Err? then Err(check.error)
    else
      var cut := if committed > 0 then read.ends[committed - 1] else 0;
      var lastGood := if n > 0 then read.ends[n - 1] else cut;
      var unsigned := own.Some? && file.Present? && file.head.sig == [];
      if |log| > cut && read.frames == lastGood then
        Cut(log, cut);
        Ok(Opened(read.entries[..committed], log[..cut], Some(log[cut..]), n - committed, unsigned && committed > 0))
      else
        var recheck := if committed < n then VerifyTreeHead(c, file, key, own, trusted, [], leaves) else Ok(());
        if recheck.Err? then Err(recheck.error)
        else Ok(Opened(read.entries, log, None, 0, unsigned && n > 0))
  }

  function OwnKey(signer: Option<Signer>): Option<Bytes> {
    if signer.None? then None else Some(signer.value.pub)
  }

  // ----- the read-only open

  /** One round of readCommitted: the head file, the bytes and stat size of the log read after it,
      and the head file read once more when the first read found none. */
  datatype Observation = Observation(head: HeadFile, view: Bytes, size: nat, again: HeadFile)

  datatype CommittedLog = CommittedLog(entries: seq<Entry>, leaves: seq<Digest>, uncoveredRecords: int,
                                       uncoveredBytes: int)

  datatype Round = Done(log: CommittedLog) | Fail(error: StoreError) | Retry(error: StoreError)

  function ReadRound(c: Suite, key: Bytes, pinned: seq<Bytes>, o: Observation): Round {
    var read := ReadLog(c, key, o.view, o.size);
    match o.head
    case Corrupt => Fail(HeadUnparseable)
    case Missing =>
      if |read.entries| > 0 then Retry(MissingTreeHead)
      else
        var check := VerifyTreeHead(c, o.again, key, None, [], pinned, []);
        if check.Err? then Fail(check.error) else Done(CommittedLog([], [], 0, o.size))
    case Present(head) =>
      if |read.entries| < head.size then Retry(SizeMismatch)
      else
        var entries := read.entries[..head.size];
        var leaves := Leaves(c, entries);
        var check := CheckTreeHead(c, head, key, None, [], pinned, leaves);
        if check.Err? then Fail(check.error)
        else
          var cut := if head.size > 0 then read.ends[head.size - 1] else 0;
          Done(CommittedLog(entries, leaves, |read.ends| - |entries|, o.size - cut))
  }

  /** The first round that decides, or the last round's reason for retrying. */
  function Decide(c: Suite, key: Bytes, pinned: seq<Bytes>, rounds: seq<Observation>): Result<CommittedLog, StoreError>
    requires |rounds| > 0
  {
    match ReadRound(c, key, pinned, rounds[0])
    case Done(log) => Ok(log)
    case Fail(e) => Err(e)
    case Retry(e) => if |rounds| == 1 then Err(e) else Decide(c, key, pinned, rounds[1..])
  }

  /** The round came too early: records without a head yet, or fewer records than the head covers. */
  predicate TooEarly(c: Suite, key: Bytes, o: Observation) {
    var n := |ReadLog(c, key, o.view, o.size).entries|;
    match o.head
    case Missing => n > 0
    case Corrupt => false
    case Present(head) => n < head.size
  }

  /** A round that came too early is always followed by another try, and no other is. */
  lemma RetriedIffTooEarly(c: Suite, key: Bytes, pinned: seq<Bytes>, rounds: seq<Observation>)
    requires |rounds| > 0
    ensures if !TooEarly(c, key, rounds[0]) then Decide(c, key, pinned, rounds) == Decide(c, key, pinned, [rounds[0]])
            else if |rounds| > 1 then Decide(c, key, pinned, rounds) == Decide(c, key, pinned, rounds[1..])
            else Decide(c, key, pinned, rounds).Err?
  {
    hide ReadLog, CheckTreeHead, VerifyTreeHead, Leaves;
  }

  const READ_ONLY_ATTEMPTS := 5

  /** The retry loop. It touches no file: it is given what each round observed. */
  method ReadCommitted(c: Suite, key: Bytes, pinned: seq<Bytes>, rounds: seq<Observation>)
    returns (r: Result<CommittedLog, StoreError>)
    requires |rounds| == READ_ONLY_ATTEMPTS
    ensures r == Decide(c, key, pinned, rounds)
  {
    hide ReadRound;
    r := Err(MissingTreeHead);
    var i := 0;
    while i < |rounds|
      invariant 0 <= i <= |rounds|
      invariant i < |rounds| ==> Decide(c, key, pinned, rounds) == Decide(c, key, pinned, rounds[i..])
      invariant i == |rounds| ==> r == Decide(c, key, pinned, rounds)
    {
      DropDrop(rounds, i, 1);
      var read := Scan(c, key, rounds[i].view, rounds[i].size);
      var round := JudgeRound(c, key, pinned, rounds[i], read);
      match round {
        case Done(log) => return Ok(log);
        case Fail(e) => return Err(e);
        case Retry(e) => r := Err(e);
      }
      i := i + 1;
    }
  }

  /** The body of one round, after the head and the log have been read. */
  method JudgeRound(c: Suite, key: Bytes, pinned: seq<Bytes>, o: Observation, read: LogRead) returns (round: Round)
    requires read == ReadLog(c, key, o.view, o.size)
    ensures round == ReadRound(c, key, pinned, o)
  {
    hide CheckTreeHead;
    if o.head.Corrupt? {
      return Fail(HeadUnparseable);
    }
    if o.head.Missing? {
      if |read.entries| > 0 {
        return Retry(MissingTreeHead);
      }
      var check := VerifyTreeHead(c, o.again, key, None, [], pinned, []);
      return if check.Err? then Fail(check.error) else Done(CommittedLog([], [], 0, o.size));
    }
    var head := o.head.head;
    if |read.entries| < head.size {
      return Retry(SizeMismatch);
    }
    var entries := read.entries[..head.size];
    var leaves := LeafLoop(c, entries);
    var check := CheckTreeHead(c, head, key, None, [], pinned, leaves);
    if check.Err? {
      return Fail(check.error);
    }
    var cut := 0;
    if |entries| > 0 {
      cut := read.ends[|entries| - 1];
    }
    return Done(CommittedLog(entries, leaves, |read.ends| - |entries|, o.size - cut));
  }

  method LeafLoop(c: Suite, entries: seq<Entry>) returns (leaves: seq<Digest>)
    ensures leaves == Leaves(c, entries)
  {
    leaves := [];
    for i := 0 to |entries|
      invariant leaves == Leaves(c, entries[..i])
    {
      Snoc(entries[..i], entries[i]);
      assert entries[..i + 1] == entries[..i] + [entries[i]];
      leaves := leaves + [Leaf(c, entries[i])];
      LeavesExtend(c, entries[..i], entries[i]);
    }
    assert entries[..|entries|] == entries;
  }

  /** The proof for one entry among the first n readable entries of the log. */
  function ProofFrom(c: Suite, key: Bytes, n: nat, view: Bytes, index: nat): Result<(Merkle.Proof, Entry), StoreError> {
    var all := ReadLog(c, key, view, |view|).entries;
    var entries := if |all| > n then all[..n] else all;
    if index >= |entries| then Err(IndexOutOfRange)
    else
      match Merkle.Prove(c.hash, Leaves(c, entries), index)
      case Ok(proof) => Ok((proof, entries[index]))
      case Err(_) => Err(IndexOutOfRange)
  }

  // ----- the store object and its directory

  /** The primary directory: the log, the head file, and the crash tails moved aside so far. */
  class Directory {
    var log: Bytes
    var head: HeadFile
    var quarantined: seq<Bytes>

    constructor ()
      ensures log == [] && head == Missing && quarantined == []
    {
      log, head, quarantined := [], Missing, [];
    }
  }

  function LastOf(entries: seq<Entry>): Option<Entry> {
    if |entries| == 0 then None else Some(entries[|entries| - 1])
  }

  function SeqOf(entries: seq<Entry>): nat { if |entries| == 0 then 0 else entries[|entries| - 1].seqNo }

  /** What Append is given as data: nothing, a value with its JSON, or one that has none. */
  datatype Payload = NoData | Json(bytes: Bytes) | Unmarshallable

  class LogStore {
    const dir: Directory
    const c: Suite
    const key: Bytes
    const signer: Option<Signer>
    const trusted: seq<Bytes>
    const readOnly: bool
    const recovered: Option<Bytes>
    const unsignedHead: bool
    const uncovered: (int, int) // records and bytes after those a read-only store holds
    var leaves: seq<Digest>
    var seqNo: nat
    var last: Option<Entry>

    constructor (dir: Directory, c: Suite, key: Bytes, signer: Option<Signer>, trusted: seq<Bytes>, readOnly: bool,
                 entries: seq<Entry>, recovered: Option<Bytes>, unsignedHead: bool, uncovered: (int, int))
      ensures this.uncovered == uncovered
      ensures this.dir == dir && this.c == c && this.key == key && this.signer == signer && this.trusted == trusted
      ensures this.readOnly == readOnly && this.recovered == recovered && this.unsignedHead == unsignedHead
      ensures leaves == Leaves(c, entries)
      ensures last == LastOf(entries) && seqNo == SeqOf(entries)
    {
      this.dir, this.c, this.key, this.signer, this.trusted := dir, c, key, signer, trusted;
      this.readOnly, this.recovered, this.unsignedHead, this.uncovered := readOnly, recovered, unsignedHead, uncovered;
      leaves := Leaves(c, entries);
      last, seqNo := LastOf(entries), SeqOf(entries);
    }

    /** Open: rebuild the tree, check the head, and move a crash tail aside. A refused directory
        is left exactly as found; the head file is never touched. */
    static method Open(dir: Directory, c: Suite, key: Bytes, signer: Option<Signer>, trusted: seq<Bytes>)
      returns (r: Result<LogStore, StoreError>)
      modifies dir
      ensures dir.head == old(dir.head)
      ensures var d := OpenDecision(c, key, OwnKey(signer), trusted, old(dir.log), old(dir.head));
              match r
              case Err(e) => d == Err(e) && dir.log == old(dir.log) && dir.quarantined == old(dir.quarantined)
              case Ok(s) =>
                && d.Ok? && fresh(s) && s.dir == dir && s.c == c && s.key == key && s.signer == signer
                && s.trusted == trusted
                && !s.readOnly && s.uncovered == (0, 0) && s.recovered == d.value.quarantined
                && s.unsignedHead == d.value.unsignedHead
                && dir.log == d.value.log
                && dir.quarantined == old(dir.quarantined) + (if s.recovered.Some? then [s.recovered.value] else [])
                && s.leaves == Leaves(c, d.value.entries)
                && s.last == LastOf(d.value.entries) && s.seqNo == SeqOf(d.value.entries)
    {
      hide CheckTreeHead, VerifyTreeHead, ReadLog, CommittedCount, Leaves;
      var own := OwnKey(signer);
      var read := Scan(c, key, dir.log, |dir.log|);
      var entries := read.entries;
      var leaves := LeafLoop(c, entries);
      var committed := CommittedCount(dir.head, |leaves|);
      if |leaves| > 0 {
        var check := VerifyTreeHead(c, dir.head, key, own, trusted, [], leaves[..committed]);
        if check.Err? {
          return Err(check.error);
        }
      }
      var cut := if committed > 0 then read.ends[committed - 1] else 0;
      var lastGood := if |read.ends| > 0 then read.ends[|read.ends| - 1] else cut;
      var recovered: Option<Bytes> := None;
      if |dir.log| > cut && read.frames == lastGood {
        // Copy the tail to its own file first, then truncate.
        recovered := Some(dir.log[cut..]);
        dir.quarantined := dir.quarantined + [dir.log[cut..]];
        dir.log := dir.log[..cut];
        entries := entries[..committed];
      } else if committed < |leaves| {
        var check := VerifyTreeHead(c, dir.head, key, own, trusted, [], leaves);
        if check.Err? {
          return Err(check.error);
        }
      }
      var unsigned := signer.Some? && |entries| > 0 && dir.head.Present? && dir.head.head.sig == [];
      var s := new LogStore(dir, c, key, signer, trusted, false, entries, recovered, unsigned, (0, 0));
      r := Ok(s);
    }

    /** OpenPinned: a store that only reads, holding the entries its head covered. */
    static method OpenPinned(dir: Directory, c: Suite, key: Bytes, pinned: seq<Bytes>, rounds: seq<Observation>)
      returns (r: Result<LogStore, StoreError>)
      requires |rounds| == READ_ONLY_ATTEMPTS
      ensures match Decide(c, key, pinned, rounds)
              case Err(e) => r == Err(e)
              case Ok(log) =>
                && r.Ok? && fresh(r.value) && r.value.readOnly && r.value.dir == dir && r.value.c == c
                && r.value.key == key
                && r.value.leaves == Leaves(c, log.entries)
                && r.value.last == LastOf(log.entries) && r.value.seqNo == SeqOf(log.entries)
                && r.value.uncovered == (log.uncoveredRecords, log.uncoveredBytes)
    {
      hide Decide, Leaves;
      var v := ReadCommitted(c, key, pinned, rounds);
      if v.Err? {
        return Err(v.error);
      }
      var s := new LogStore(dir, c, key, None, [], true, v.value.entries, None, false,
                            (v.value.uncoveredRecords, v.value.uncoveredBytes));
      r := Ok(s);
    }

    /** Append: one frame, then one head over everything including it. A value that cannot be
        marshalled uses up a sequence number and changes nothing else. */
    method Append(level: string, event: string, source: string, data: Payload, now: int, nonce: Bytes)
      returns (r: Result<(), StoreError>)
      requires |leaves| + 1 < MAX_SIZE
      modifies this, dir
      ensures readOnly ==>
                && r == Err(ReadOnly) && unchanged(this) && unchanged(dir)
      ensures !readOnly && data.Unmarshallable? ==>
                && r == Err(MarshalFailed) && seqNo == old(seqNo) + 1
                && leaves == old(leaves) && last == old(last) && unchanged(dir)
      ensures !readOnly && !data.Unmarshallable? ==>
                var e := Entry(old(seqNo) + 1, now, level, event, source, if data.Json? then data.bytes else []);
                && r == Ok(())
                && seqNo == e.seqNo && last == Some(e) && leaves == old(leaves) + [Leaf(c, e)]
                && dir.log == old(dir.log) + Frame(c.seal(nonce, key, c.encode(e)))
                && dir.head == Present(NewHead(c, key, signer, leaves, old(dir.head)))
                && dir.quarantined == old(dir.quarantined)
    {
      hide Frame;
      if readOnly {
        return Err(ReadOnly);
      }
      seqNo := seqNo + 1;
      if data.Unmarshallable? {
        return Err(MarshalFailed);
      }
      var e := Entry(seqNo, now, level, event, source, if data.Json? then data.bytes else []);
      var sealed := c.seal(nonce, key, c.encode(e));
      dir.log := dir.log + Frame(sealed);
      leaves := leaves + [Leaf(c, e)];
      last := Some(e);
      dir.head := Present(NewHead(c, key, signer, leaves, dir.head));
      r := Ok(());
    }

    /** InclusionProof: prove an entry against the records this store holds, reading the log again
        (view is what that read sees) and ignoring records appended since. */
    method InclusionProof(view: Bytes, index: nat) returns (r: Result<(Merkle.Proof, Entry), StoreError>)
      ensures r == ProofFrom(c, key, |leaves|, view, index)
    {
      hide Merkle.Prove;
      var read := Scan(c, key, view, |view|);
      var entries := read.entries;
      if |entries| > |leaves| {
        entries := entries[..|leaves|];
      }
      if index >= |entries| {
        return Err(IndexOutOfRange);
      }
      var hashes := LeafLoop(c, entries);
      var proof := Merkle.Prove(c.hash, hashes, index);
      r := if proof.Ok? then Ok((proof.value, entries[index])) else Err(IndexOutOfRange);
    }

    /** RootAt: the root a log of just the first size entries has, and so the root of any head that
        passes its check against them; refused exactly beyond the end of the log. */
    method RootAt(size: uint64) returns (r: Result<Digest, StoreError>)
      ensures if size > |leaves| then r == Err(SizeMismatch) else r.Ok?
      ensures forall es: seq<Entry> :: |es| == size && Leaves(c, es) <= leaves ==> r == Ok(RootOf(c, es))
      ensures forall h: TreeHead, k: Bytes, own, trusted, pinned ::
                h.size == size <= |leaves| && CheckTreeHead(c, h, k, own, trusted, pinned, leaves[..size]).Ok? ==>
                  r.Ok? && r.value == h.root
    {
      hide Leaves, Merkle.Root, CheckSignature, Mac;
      assert forall es: seq<Entry> :: |es| == size && Leaves(c, es) <= leaves ==> Leaves(c, es) == leaves[..size];
      r := if size > |leaves| then Err(SizeMismatch) else Ok(Merkle.Root(c.hash, leaves[..size]));
    }
  }
}
