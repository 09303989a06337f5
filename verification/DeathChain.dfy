/** Death records over whole histories: the writer and the verifier agree, and verified records
    tile the log. */
module DeathChain {
  import opened Bytes
  import opened Sequences
  import opened Death

  /** One death: the name its record gets, the machine, the log size stat gave, and what the file
      held while it was hashed. */
  datatype Firing = Firing(name: string, machine: string, size: nat, content: Bytes)

  /** An append-only log, one writer, names that rise. */
  ghost predicate AppendOnly(hs: seq<Firing>) {
    && (forall k :: 0 <= k < |hs| ==> hs[k].size <= |hs[k].content| && hs[k].name != "" && '/' !in hs[k].name)
    && (forall i, j :: 0 <= i < j < |hs| ==>
          Less(hs[i].name, hs[j].name) && hs[i].size <= hs[j].size && hs[i].content <= hs[j].content)
  }

  /** Nothing goes wrong and the deadline is not reached. */
  function Quiet(): Faults { Faults(false, 1, {}, Fine, Fine, Fine) }

  function Fired(c: Codec, dir: seq<File>, h: Firing): Record {
    FireRecord(c, dir, h.content, Some(h.size), h.machine, Quiet())
  }

  /** The directory after these deaths. */
  function Build(c: Codec, hs: seq<Firing>): (dir: seq<File>)
    ensures |dir| == |hs|
  {
    if |hs| == 0 then []
    else
      var m := |hs| - 1;
      var before := Build(c, hs[..m]);
      before + [File(hs[m].name, c.encode(Fired(c, before, hs[m])))]
  }

  ghost function RecordAt(c: Codec, hs: seq<Firing>, k: nat): Record
    requires k < |hs|
  {
    Fired(c, Build(c, hs[..k]), hs[k])
  }

  lemma {:induction false} BuildAt(c: Codec, hs: seq<Firing>, k: nat)
    requires k <= |hs|
    ensures Build(c, hs)[..k] == Build(c, hs[..k])
    ensures k < |hs| ==> Build(c, hs)[k] == File(hs[k].name, c.encode(RecordAt(c, hs, k)))
    decreases |hs|
  {
    hide FireRecord, Fired;
    if |hs| == k {
      assert hs[..k] == hs && Build(c, hs)[..k] == Build(c, hs);
    } else {
      var m := |hs| - 1;
      var before := Build(c, hs[..m]);
      TakeTake(hs, k, m);
      BuildAt(c, hs[..m], k);
      assert Build(c, hs)[..k] == before[..k];
    }
  }

  lemma LookupFinds(dir: seq<File>, k: nat)
    requires k < |dir| && forall i, j :: 0 <= i < j < |dir| ==> Less(dir[i].name, dir[j].name)
    ensures Lookup(dir, dir[k].name) == Some(dir[k])
    decreases |dir|
  {
    if k > 0 {
      LessIrreflexive(dir[0].name);
      assert dir[0].name != dir[k].name;
      LookupFinds(dir[1..], k - 1);
    }
  }

  /** The range hash of bytes the log already held does not change as it grows. */
  lemma RangeStable(c: Codec, log: Bytes, log': Bytes, start: nat, size: nat)
    requires start + size <= |log| && log <= log'
    ensures HashRange(c, log, start, size, Fine) == HashRange(c, log', start, size, Fine)
    ensures HashRange(c, log, start, size, Fine).status == Complete
  {
    assert log[start..start + size] == log'[start..start + size];
  }

  /** The bytes a record's tail digest is about. */
  function TailOfLog(log: Bytes, length: nat): Bytes
    requires length <= |log|
  {
    log[TailStart(length)..length]
  }

  /** The tail of a log is its last mebibyte, or all of it. */
  lemma TailIsLastMebibyte(log: Bytes, length: nat)
    requires length <= |log|
    ensures |TailOfLog(log, length)| == if length <= 1_048_576 then length else 1_048_576
    ensures log[..length] == log[..length - |TailOfLog(log, length)|] + TailOfLog(log, length)
  {
  }

  /** What every record that loads promises its readers: a finished hash has its digest and an unfinished one has
      none, whichever digest it would be; a segment lies inside the log it was taken from and names the record
      before it; only a segment has segment fields; a tail digest is there exactly if the tail was hashed. */
  lemma LoadedRecordsAreWhole(c: Codec, file: File, unreadable: set<string>)
    requires Load(c, file, unreadable).Some?
    ensures var s := Load(c, file, unreadable).value;
            var r := s.record;
            && file.name !in unreadable && c.decode(file.data) == Some(r)
            && s.ref.name == file.name && s.ref.sha == c.sha(file.data)
            && (r.format == V1 || r.format == V2) && r.logBytes >= -1
            && (r.logHash.status == Complete ==> r.logBytes >= 0 && |Anchor(r)| == 32)
            && (r.format == V2 ==>
                  && (r.logHash.status == Complete ==> |RangeSha(r)| == 32)
                  && (r.logHash.status != Complete ==> r.logHash.sha == r.segmentSha == r.chainSha == [])
                  && (r.mode == Segment ==> r.prev.Some? && 0 <= r.segmentStart <= r.logBytes)
                  && (r.mode != Segment ==> r.segmentStart == 0 && r.segmentSha == r.chainSha == [])
                  && (r.mode == NoMode ==> r.logBytes == -1)
                  && (r.tailSha != [] <==> r.tailHash.status == Complete)
                  && (r.tailSha != [] ==> |r.tailSha| == 32 && r.tailHash.sha == r.tailSha))
  {
  }

  /** A link that holds goes back: to a file of the same directory with an earlier name, by its exact bytes. */
  lemma LinksGoBack(c: Codec, dir: seq<File>, current: string, ref: Reference, unreadable: set<string>)
    requires LinkOk(c, dir, current, ref, unreadable)
    ensures ref.name != current && ('/' !in ref.name || ref.name == "/") && Less(ref.name, current)
    ensures exists k :: && 0 <= k < |dir| && dir[k].name == ref.name && c.sha(dir[k].data) == ref.sha
                        && Load(c, dir[k], unreadable).Some?
  {
    hide Less, Loadable;
    var f := Lookup(dir, ref.name).value;
    assert f in dir;
    if ref.name == current {
      LessIrreflexive(current);
    }
  }

  // ----- what one record says, whatever goes wrong

  /** The i-th newest file has the i-th skipped name and does not load. */
  ghost predicate IsSkipped(c: Codec, dir: seq<File>, f: Faults, skipped: seq<string>, i: nat) {
    && i < |skipped| <= |dir|
    && skipped[i] == dir[|dir| - 1 - i].name && Load(c, dir[|dir| - 1 - i], f.unreadable).None?
  }

  /** How the backwards search ends: the names it skipped are those of the newest files, newest first, none of
      which loads; what it found is the file before them; otherwise it has seen everything or run out of time. */
  ghost predicate SearchedBack(c: Codec, dir: seq<File>, f: Faults, h: History) {
    && |h.skipped| <= |dir|
    && (forall i :: 0 <= i < |h.skipped| ==> IsSkipped(c, dir, f, h.skipped, i))
    && (h.prev.Some? ==>
          !h.deadline && |h.skipped| < |dir| && Load(c, dir[|dir| - 1 - |h.skipped|], f.unreadable) == h.prev)
    && (h.prev.None? ==> if h.deadline then |h.skipped| == f.patience < |dir| else |h.skipped| == |dir|)
  }

  lemma {:induction false} NewestFinds(c: Codec, dir: seq<File>, f: Faults, n: nat, patience: nat,
                                       skipped: seq<string>)
    requires n + |skipped| == |dir| && patience + |skipped| == f.patience
    requires forall i :: 0 <= i < |skipped| ==> IsSkipped(c, dir, f, skipped, i)
    ensures SearchedBack(c, dir, f, Newest(c, dir, n, patience, f.unreadable, skipped))
    decreases n
  {
    hide Load;
    if n > 0 && patience > 0 && Load(c, dir[n - 1], f.unreadable).None? {
      var more := skipped + [dir[n - 1].name];
      forall i: nat | i < |more|
        ensures IsSkipped(c, dir, f, more, i)
      {
        if i < |skipped| {
          assert IsSkipped(c, dir, f, skipped, i);
        }
      }
      NewestFinds(c, dir, f, n - 1, patience - 1, more);
    }
  }

  lemma RecentIsNewest(c: Codec, dir: seq<File>, f: Faults)
    requires !f.listing
    ensures SearchedBack(c, dir, f, Recent(c, dir, f))
  {
    hide Load;
    NewestFinds(c, dir, f, |dir|, f.patience, []);
  }

  /** Whatever fails, what a record says about the log is true: a digest stands for exactly the bytes it names,
      and there is one exactly if that range could be read. */
  lemma FiredRecordIsTrue(c: Codec, dir: seq<File>, log: Bytes, stat: Option<nat>, machine: string, f: Faults)
    ensures var r, h := FireRecord(c, dir, log, stat, machine, f), Recent(c, dir, f);
            && r.format == V2 && r.machineId == machine
            && match stat
               case None => r.logBytes == -1 && r.logHash == Hash(Error, []) && r.tailSha == [] && r.mode == Full
               case Some(size) =>
                 && r.logBytes == size && r.skipped == h.skipped
                 && r.prev == (if h.prev.None? then None else Some(h.prev.value.ref))
                 && r.tailSha == (if f.tail == Fine && size <= |log| then c.sha(TailOfLog(log, size)) else [])
                 && (r.logHash.status == Complete <==> f.body == Fine && size <= |log|)
                 && (r.logHash.status == Complete && r.mode == Full ==> r.logHash.sha == c.sha(log[..size]))
                 && (r.mode == Segment ==> h.prev.Some? && 0 <= r.segmentStart == h.prev.value.record.logBytes <= size)
                 && (r.logHash.status == Complete && r.mode == Segment ==>
                       && r.segmentSha == c.sha(log[r.segmentStart..size])
                       && r.chainSha == ChainDigest(c, Anchor(h.prev.value.record), r.segmentSha, size))
  {
    hide Recent, LinkOk, ChainDigest, Choose, Compose;
    if stat.Some? {
      var size := stat.value;
      var h := Recent(c, dir, f);
      SegmentFitsLog(c, dir, log, size, machine, h, f);
      ComposedIsTrue(c, log, size, machine, h, Choose(c, dir, log, size, machine, h, f), f);
    }
  }

  /** A range can be hashed exactly if the log reaches that far and reading works. */
  lemma RangeReads(c: Codec, log: Bytes, start: nat, size: nat, fault: Fault)
    requires start <= |log|
    ensures HashRange(c, log, start, size, fault).status == Complete <==> fault == Fine && start + size <= |log|
    ensures HashRange(c, log, start, size, fault).status == Complete ==>
              HashRange(c, log, start, size, fault).sha == c.sha(log[start..start + size])
  {
    if size == 0 {
      assert log[start..start + size] == [];
    }
  }

  lemma ComposedIsTrue(c: Codec, log: Bytes, size: nat, machine: string, h: History, ch: Choice, f: Faults)
    requires ch.mode == Full || ch.mode == Segment
    requires ch.mode == Segment ==>
               h.prev.Some? && 0 <= h.prev.value.record.logBytes <= size && h.prev.value.record.logBytes <= |log|
    ensures var r := Compose(c, log, size, machine, h, ch, f);
            && r.format == V2 && r.machineId == machine && r.logBytes == size && r.skipped == h.skipped
            && r.prev == (if h.prev.None? then None else Some(h.prev.value.ref)) && r.mode == ch.mode
            && r.tailSha == (if f.tail == Fine && size <= |log| then c.sha(TailOfLog(log, size)) else [])
            && (r.logHash.status == Complete <==> f.body == Fine && size <= |log|)
            && (r.logHash.status == Complete && r.mode == Full ==> r.logHash.sha == c.sha(log[..size]))
            && (r.mode == Segment ==> r.segmentStart == h.prev.value.record.logBytes)
            && (r.logHash.status == Complete && r.mode == Segment ==>
                  && r.segmentSha == c.sha(log[r.segmentStart..size])
                  && r.chainSha == ChainDigest(c, Anchor(h.prev.value.record), r.segmentSha, size))
  {
    hide HashRange, ChainDigest, TailOf;
    GuardReads(c, log, size, f.tail);
    if ch.mode == Segment {
      var start := h.prev.value.record.logBytes;
      RangeReads(c, log, start, size - start, f.body);
    } else {
      RangeReads(c, log, 0, size, f.body);
      assert size <= |log| ==> log[0..size] == log[..size];
    }
  }

  lemma SegmentFitsLog(c: Codec, dir: seq<File>, log: Bytes, size: nat, machine: string, h: History, f: Faults)
    requires h.prev.Some? ==> Loadable(h.prev.value.record)
    ensures var ch := Choose(c, dir, log, size, machine, h, f);
            && (ch.mode == Full || ch.mode == Segment)
            && (ch.mode == Segment ==> h.prev.Some? && 0 <= h.prev.value.record.logBytes <= size)
            && (ch.mode == Segment ==> h.prev.value.record.logBytes <= |log|)
  {
    hide LinkOk, HashRange;
    if h.prev.Some? && h.prev.value.record.logBytes >= 0 {
      GuardReads(c, log, h.prev.value.record.logBytes, f.guard);
    }
  }

  /** The previous record can be compared with this log: it is the newest and whole, of this machine and format,
      its own link holds, and the bytes its tail digest is about can be read. */
  ghost predicate Comparable(c: Codec, dir: seq<File>, log: Bytes, size: nat, machine: string, f: Faults) {
    var h := Recent(c, dir, f);
    && h.prev.Some? && h.skipped == []
    && var p := h.prev.value.record;
       && p.logHash.status == Complete && 0 <= p.logBytes <= size && p.machineId == machine
       && p.format == V2 && ValidDigest(p.tailSha)
       && (p.prev.Some? ==> LinkOk(c, dir, h.prev.value.ref.name, p.prev.value, f.unreadable))
       && f.guard == Fine && p.logBytes <= |log|
  }

  /** Exactly when the warnings are given: log_shrank if and only if less is left than was captured; and for
      a record that can be compared, prefix_changed if and only if the digest of the captured tail differs in
      this log, segment mode if and only if it does not. */
  lemma WarningsAreExact(c: Codec, dir: seq<File>, log: Bytes, size: nat, machine: string, f: Faults)
    ensures var r, h := FireRecord(c, dir, log, Some(size), machine, f), Recent(c, dir, f);
            && (r.logShrank <==> h.prev.Some? && size < h.prev.value.record.logBytes)
            && (Comparable(c, dir, log, size, machine, f) ==>
                  var same := c.sha(TailOfLog(log, h.prev.value.record.logBytes)) == h.prev.value.record.tailSha;
                  r.prefixChanged == !same && r.mode == if same then Segment else Full)
            && (!Comparable(c, dir, log, size, machine, f) ==> !r.prefixChanged && r.mode == Full)
  {
    hide Recent, LinkOk, Choose, FireRecord;
    RecordsItsChoice(c, dir, log, size, machine, f);
    ChoiceIsExact(c, dir, log, size, machine, f);
  }

  /** The record says what was chosen. */
  lemma RecordsItsChoice(c: Codec, dir: seq<File>, log: Bytes, size: nat, machine: string, f: Faults)
    ensures var r, ch := FireRecord(c, dir, log, Some(size), machine, f),
                         Choose(c, dir, log, size, machine, Recent(c, dir, f), f);
            && r.mode == ch.mode && r.reason == ch.reason && r.skipped == Recent(c, dir, f).skipped
            && r.prefixChanged == ch.prefixChanged && r.logShrank == ch.logShrank
  {
    hide Recent, LinkOk, ChainDigest, HashRange, Choose;
    ChoiceIsComposable(c, dir, log, size, machine, Recent(c, dir, f), f);
  }

  lemma ChoiceIsExact(c: Codec, dir: seq<File>, log: Bytes, size: nat, machine: string, f: Faults)
    ensures var h := Recent(c, dir, f);
            var ch := Choose(c, dir, log, size, machine, h, f);
            && (ch.logShrank <==> h.prev.Some? && size < h.prev.value.record.logBytes)
            && (Comparable(c, dir, log, size, machine, f) ==>
                  var same := c.sha(TailOfLog(log, h.prev.value.record.logBytes)) == h.prev.value.record.tailSha;
                  ch.prefixChanged == !same && ch.mode == if same then Segment else Full)
            && (!Comparable(c, dir, log, size, machine, f) ==> !ch.prefixChanged && ch.mode == Full)
  {
    hide Recent, LinkOk, HashRange;
    var h := Recent(c, dir, f);
    if h.prev.Some? && h.prev.value.record.logBytes >= 0 {
      GuardReads(c, log, h.prev.value.record.logBytes, f.guard);
    }
  }

  /** A tail can be hashed exactly if the log still reaches that far and reading works. */
  lemma GuardReads(c: Codec, log: Bytes, n: nat, fault: Fault)
    ensures TailOf(c, log, n, fault).status == Complete <==> fault == Fine && n <= |log|
    ensures TailOf(c, log, n, fault).status == Complete ==> TailOf(c, log, n, fault).sha == c.sha(TailOfLog(log, n))
  {
    if n == 0 {
      assert TailOfLog(log, n) == [];
    }
  }

  /** So for a record that captured the first n bytes of captured: it is never said that they changed while they
      are still there; a changed tail is always reported; and segment mode means the tail is in place. The last
      two up to a collision of the two tails. */
  lemma WarningsAreTrue(c: Codec, dir: seq<File>, log: Bytes, size: nat, machine: string, f: Faults, captured: Bytes)
    requires Recent(c, dir, f).prev.Some?
    requires var p := Recent(c, dir, f).prev.value.record;
             0 < p.logBytes <= |captured| && p.tailSha == TailOf(c, captured, p.logBytes, Fine).sha
    ensures var r, n := FireRecord(c, dir, log, Some(size), machine, f), Recent(c, dir, f).prev.value.record.logBytes;
            && (r.logShrank <==> size < n)
            && (r.prefixChanged ==> !(captured[..n] <= log))
            && (r.mode == Segment ==>
                  && n <= |log| && n <= size
                  && (TailOfLog(log, n) == TailOfLog(captured, n)
                      || Collision(c.sha, {TailOfLog(log, n)}, {TailOfLog(captured, n)})))
            && (Comparable(c, dir, log, size, machine, f) && TailOfLog(log, n) != TailOfLog(captured, n) ==>
                  r.prefixChanged || Collision(c.sha, {TailOfLog(log, n)}, {TailOfLog(captured, n)}))
  {
    hide Recent, LinkOk, ChainDigest, Loadable, LoadableV2, FireRecord;
    var n := Recent(c, dir, f).prev.value.record.logBytes;
    WarningsAreExact(c, dir, log, size, machine, f);
    RangeStable(c, captured, captured, TailStart(n), n - TailStart(n));
    if captured[..n] <= log {
      assert log[TailStart(n)..n] == captured[TailStart(n)..n];
    }
    if n <= |log| && TailOfLog(log, n) != TailOfLog(captured, n) {
      assert TailOfLog(log, n) in {TailOfLog(log, n)} && TailOfLog(captured, n) in {TailOfLog(captured, n)};
    }
  }

  /** The reason a record gives for hashing the whole log is true, and only a segment gives none. */
  lemma ReasonsAreTrue(c: Codec, dir: seq<File>, log: Bytes, size: nat, machine: string, f: Faults)
    ensures var r, h := FireRecord(c, dir, log, Some(size), machine, f), Recent(c, dir, f);
            match r.reason
            case NoReason => r.mode == Segment
            case NoPrevious => dir == [] && !f.listing
            case HistoryUnreadable => f.listing
            case HistoryDeadline => f.patience == 0 && |dir| > 0
            case SkippedInvalid => r.skipped != []
            case ShrunkLog => r.logShrank
            case PreviousUnfinished => h.prev.Some? && h.prev.value.record.logHash.status != Complete
            case MachineChanged => h.prev.Some? && h.prev.value.record.machineId != machine
            case NoTail => h.prev.Some?
                           && (h.prev.value.record.format == V1 || !ValidDigest(h.prev.value.record.tailSha))
            case LinkInvalid => h.prev.Some? && h.prev.value.record.prev.Some?
                                && !LinkOk(c, dir, h.prev.value.ref.name, h.prev.value.record.prev.value, f.unreadable)
            case TailUnavailable => h.prev.Some? && (f.guard != Fine || |log| < h.prev.value.record.logBytes)
            case TailDiffers => r.prefixChanged
    ensures var r := FireRecord(c, dir, log, Some(size), machine, f);
            (r.mode == Segment ==> r.reason == NoReason) && (r.prefixChanged ==> r.reason == TailDiffers)
  {
    hide LinkOk, Newest, Load, FireRecord, HashRange;
    RecordsItsChoice(c, dir, log, size, machine, f);
    if !f.listing {
      RecentIsNewest(c, dir, f);
    }
    var h := Recent(c, dir, f);
    if h.prev.Some? && h.prev.value.record.logBytes >= 0 {
      GuardReads(c, log, h.prev.value.record.logBytes, f.guard);
    }
  }

  predicate Continues(hs: seq<Firing>, k: nat)
    requires k < |hs|
  {
    k > 0 && hs[k - 1].machine == hs[k].machine
  }

  ghost function RefTo(c: Codec, hs: seq<Firing>, k: nat): Reference
    requires k < |hs|
  {
    Reference(hs[k].name, c.sha(c.encode(RecordAt(c, hs, k))))
  }

  /** What record k of an append-only history says. */
  ghost predicate AsExpected(c: Codec, hs: seq<Firing>, k: nat, r: Record)
    requires k < |hs| && hs[k].size <= |hs[k].content|
  {
    var h := hs[k];
    && r.format == V2 && r.machineId == h.machine && r.logBytes == h.size
    && r.logHash.status == Complete && r.tailHash.status == Complete
    && !r.prefixChanged && !r.logShrank && r.skipped == []
    && r.tailSha == TailOf(c, h.content, h.size, Fine).sha && ValidDigest(r.tailSha)
    && r.prev == (if k == 0 then None else Some(RefTo(c, hs, k - 1)))
    && (if Continues(hs, k) && hs[k - 1].size <= h.size then
          && r.mode == Segment && r.segmentStart == hs[k - 1].size
          && r.segmentSha == HashRange(c, h.content, r.segmentStart, h.size - r.segmentStart, Fine).sha
          && r.chainSha == ChainDigest(c, Anchor(RecordAt(c, hs, k - 1)), r.segmentSha, h.size)
        else
          r.mode == Full && r.logHash.sha == HashRange(c, h.content, 0, h.size, Fine).sha)
  }

  /** A link to an earlier record of the history holds in any directory that begins with it. */
  lemma LinkHolds(c: Codec, hs: seq<Firing>, dir: seq<File>, k: nat, current: string)
    requires Death.Lawful(c) && AppendOnly(hs) && k < |hs| && dir == Build(c, hs) && Less(hs[k].name, current)
    ensures LinkOk(c, dir, current, RefTo(c, hs, k), {})
  {
    hide FireRecord, Load, Less, Build;
    forall i | 0 <= i < |dir|
      ensures dir[i].name == hs[i].name
    {
      BuildAt(c, hs, i);
    }
    BuildAt(c, hs, k);
    LookupFinds(dir, k);
    var h := hs[k];
    FiredRecordsLoad(c, Build(c, hs[..k]), h.content, Some(h.size), h.machine, Quiet(), h.name);
  }

  lemma NewestIsLast(c: Codec, hs: seq<Firing>, k: nat)
    requires Death.Lawful(c) && AppendOnly(hs) && 0 < k <= |hs|
    ensures var s := Saved(RecordAt(c, hs, k - 1), RefTo(c, hs, k - 1));
            && Load(c, Build(c, hs[..k])[k - 1], {}) == Some(s)
            && Recent(c, Build(c, hs[..k]), Quiet()) == History(Some(s), [], false)
  {
    hide FireRecord, Load, Build;
    var h := hs[k - 1];
    BuildAt(c, hs[..k], k - 1);
    TakeTake(hs, k - 1, k);
    FiredRecordsLoad(c, Build(c, hs[..k - 1]), h.content, Some(h.size), h.machine, Quiet(), h.name);
  }

  /** After an expected record the next one continues it, unless the machine changed. */
  lemma NextChoice(c: Codec, hs: seq<Firing>, k: nat)
    requires Death.Lawful(c) && AppendOnly(hs) && 0 < k < |hs|
    requires AsExpected(c, hs, k - 1, RecordAt(c, hs, k - 1))
    ensures var dir := Build(c, hs[..k]);
            var h := Recent(c, dir, Quiet());
            var ch := Choose(c, dir, hs[k].content, hs[k].size, hs[k].machine, h, Quiet());
            && ch.mode == (if Continues(hs, k) then Segment else Full)
            && !ch.prefixChanged && !ch.logShrank
  {
    hide FireRecord, Load, Build, LinkOk, HashRange, Recent, ChainDigest, Less;
    NewestIsLast(c, hs, k);
    var p := RecordAt(c, hs, k - 1);
    if k >= 2 {
      var prefix := hs[..k];
      PrefixRefs(c, hs, k, k - 2);
      LinkHolds(c, prefix, Build(c, prefix), k - 2, hs[k - 1].name);
    }
    RangeStable(c, hs[k - 1].content, hs[k].content, TailStart(hs[k - 1].size),
                hs[k - 1].size - TailStart(hs[k - 1].size));
  }

  lemma PrefixRefs(c: Codec, hs: seq<Firing>, n: nat, k: nat)
    requires k < n <= |hs|
    ensures RefTo(c, hs[..n], k) == RefTo(c, hs, k)
  {
    hide FireRecord, Build;
    TakeTake(hs, k, n);
  }

  lemma {:induction false} RecordsAreExpected(c: Codec, hs: seq<Firing>, k: nat)
    requires Death.Lawful(c) && AppendOnly(hs) && k < |hs|
    ensures AsExpected(c, hs, k, RecordAt(c, hs, k))
    decreases k
  {
    hide Load, Build, Choose, Less, Recent, Compose, AsExpected;
    var h, dir := hs[k], Build(c, hs[..k]);
    if k > 0 {
      RecordsAreExpected(c, hs, k - 1);
      ExpectedSize(c, hs, k - 1);
      NewestIsLast(c, hs, k);
      NextChoice(c, hs, k);
    } else {
      FirstIsFull(c, h);
      assert hs[..0] == [];
    }
    ComposedAsExpected(c, hs, k, Choose(c, dir, h.content, h.size, h.machine, Recent(c, dir, Quiet()), Quiet()));
  }

  /** The record composed for death k when the newest record before it is record k - 1. */
  lemma ComposedAsExpected(c: Codec, hs: seq<Firing>, k: nat, ch: Choice)
    requires AppendOnly(hs) && k < |hs| && ch.mode == (if Continues(hs, k) then Segment else Full)
    requires !ch.prefixChanged && !ch.logShrank
    requires k > 0 ==> RecordAt(c, hs, k - 1).logBytes == hs[k - 1].size
    ensures var p := if k == 0 then None else Some(Saved(RecordAt(c, hs, k - 1), RefTo(c, hs, k - 1)));
            AsExpected(c, hs, k,
                       Compose(c, hs[k].content, hs[k].size, hs[k].machine, History(p, [], false), ch, Quiet()))
  {
    hide HashRange, ChainDigest, Less, RecordAt, Build;
    var h := hs[k];
    RangeStable(c, h.content, h.content, 0, h.size);
    RangeStable(c, h.content, h.content, TailStart(h.size), h.size - TailStart(h.size));
    if k > 0 {
      RangeStable(c, h.content, h.content, hs[k - 1].size, h.size - hs[k - 1].size);
    }
  }

  lemma ExpectedSize(c: Codec, hs: seq<Firing>, k: nat)
    requires k < |hs|
    ensures RecordAt(c, hs, k).logBytes == hs[k].size
  {
    hide Recent, Choose, HashRange, ChainDigest;
  }

  lemma FirstIsFull(c: Codec, h: Firing)
    ensures Recent(c, [], Quiet()) == History(None, [], false)
    ensures var ch := Choose(c, [], h.content, h.size, h.machine, History(None, [], false), Quiet());
            ch.mode == Full && !ch.prefixChanged && !ch.logShrank
    ensures Build(c, []) == []
  {
  }

  // ----- the verifier accepts what the writer wrote

  lemma PreviousIs(c: Codec, hs: seq<Firing>, k: nat)
    requires Death.Lawful(c) && AppendOnly(hs) && 0 < k <= |hs|
    ensures Previous(c, Build(c, hs), k) == Some(Saved(RecordAt(c, hs, k - 1), RefTo(c, hs, k - 1)))
  {
    hide FireRecord, Load, Build, RefTo, RecordAt;
    NewestIsLast(c, hs, k);
    BuildAt(c, hs, k);
    assert Build(c, hs)[k - 1] == Build(c, hs)[..k][k - 1];
  }

  /** For every append-only history: each record after the first is a segment exactly while the
      machine stays the same, and Verify accepts the whole directory, without the log and with any
      later state of it. */
  lemma WriterAndVerifierAgree(c: Codec, hs: seq<Firing>, k: nat, log: Option<Bytes>)
    requires Death.Lawful(c) && AppendOnly(hs) && k < |hs|
    requires log.Some? ==> hs[k].content <= log.value
    ensures RecordAt(c, hs, k).mode == Segment <==> Continues(hs, k)
    ensures FileOk(c, Build(c, hs), k, log)
  {
    hide FireRecord, Load, Build, LinkOk, HashRange, ChainDigest, Less, Previous, RangesMatch;
    RecordsAreExpected(c, hs, k);
    var r, dir := RecordAt(c, hs, k), Build(c, hs);
    LoadsAt(c, hs, k);
    if k > 0 {
      PreviousIs(c, hs, k);
      RecordsAreExpected(c, hs, k - 1);
      LinkHolds(c, hs, dir, k - 1, hs[k].name);
    } else {
      NoneBeforeFirst(c, dir);
    }
    if log.Some? {
      ExpectedRangesMatch(c, hs, k, r, log.value);
    }
  }

  lemma NoneBeforeFirst(c: Codec, dir: seq<File>)
    ensures Previous(c, dir, 0) == None
  {
  }

  lemma LoadsAt(c: Codec, hs: seq<Firing>, k: nat)
    requires Death.Lawful(c) && AppendOnly(hs) && k < |hs|
    ensures Load(c, Build(c, hs)[k], {}) == Some(Saved(RecordAt(c, hs, k), RefTo(c, hs, k)))
  {
    hide FireRecord, Load, Build;
    BuildAt(c, hs, k);
    var h := hs[k];
    FiredRecordsLoad(c, Build(c, hs[..k]), h.content, Some(h.size), h.machine, Quiet(), h.name);
  }

  lemma ExpectedRangesMatch(c: Codec, hs: seq<Firing>, k: nat, r: Record, log: Bytes)
    requires AppendOnly(hs) && k < |hs| && AsExpected(c, hs, k, r) && hs[k].content <= log
    ensures r.logBytes >= 0 && RangesMatch(c, r, log)
  {
    hide FireRecord, Build, HashRange, ChainDigest, Less, RefTo;
    var h := hs[k];
    var start := if Continues(hs, k) then hs[k - 1].size else 0;
    RangeStable(c, h.content, log, start, h.size - start);
    RangeStable(c, h.content, log, TailStart(h.size), h.size - TailStart(h.size));
  }

  // ----- verified records tile the log

  /** Verify found nothing wrong, and every record is of the current format. */
  ghost predicate Verified(c: Codec, dir: seq<File>, log: Bytes) {
    forall k :: 0 <= k < |dir| ==> FileOk(c, dir, k, Some(log)) && At(c, dir, k).format == V2
  }

  /** Record k, given that it loads. */
  ghost function At(c: Codec, dir: seq<File>, k: nat): Record
    requires k < |dir|
  {
    var s := Load(c, dir[k], {});
    if s.Some? then s.value.record
    else Record(OtherFormat, "", -1, Hash(Error, []), NoMode, 0, [], [], [], Hash(Error, []), None, [], NoReason,
                false, false)
  }

  /** The nearest record at or before k whose range starts at byte 0. */
  ghost function AnchorAt(c: Codec, dir: seq<File>, k: nat): (a: nat)
    requires k < |dir|
    ensures a <= k
    ensures a == 0 || At(c, dir, a).mode != Segment
    ensures forall j :: a < j <= k ==> At(c, dir, j).mode == Segment
  {
    if k == 0 || At(c, dir, k).mode != Segment then k else AnchorAt(c, dir, k - 1)
  }

  /** What acceptance says of one record: its range and its tail are in the log as it says, and a segment starts
      where the record before it ended, on the same machine, with the chain digest over both. */
  lemma VerifiedLink(c: Codec, dir: seq<File>, log: Bytes, k: nat)
    requires Verified(c, dir, log) && k < |dir|
    ensures var r := At(c, dir, k);
            && 0 <= RangeStart(r) <= r.logBytes
            && HashRange(c, log, RangeStart(r), r.logBytes - RangeStart(r), Fine) == Hash(Complete, RangeSha(r))
            && TailOf(c, log, r.logBytes, Fine) == Hash(Complete, r.tailSha)
            && (r.mode == Segment ==>
                  && k > 0 && r.machineId == At(c, dir, k - 1).machineId && RangeStart(r) == At(c, dir, k - 1).logBytes
                  && r.chainSha == ChainDigest(c, Anchor(At(c, dir, k - 1)), r.segmentSha, r.logBytes))
            && (r.mode != Segment ==> RangeStart(r) == 0)
  {
    hide LinkOk, HashRange, ChainDigest, Load;
    assert FileOk(c, dir, k, Some(log));
    if k > 0 {
      assert FileOk(c, dir, k - 1, Some(log));
    }
  }

  /** The byte ranges that records a..k vouch for. */
  ghost function Ranges(c: Codec, dir: seq<File>, a: nat, k: nat): (rs: seq<(int, int)>)
    requires a <= k < |dir|
    ensures |rs| == k - a + 1
    ensures forall i :: 0 <= i < |rs| ==> rs[i] == (RangeStart(At(c, dir, a + i)), At(c, dir, a + i).logBytes)
  {
    seq(k - a + 1, i requires 0 <= i < k - a + 1 => (RangeStart(At(c, dir, a + i)), At(c, dir, a + i).logBytes))
  }

  predicate InRange(r: (int, int), p: int) { r.0 <= p < r.1 }

  ghost predicate Covered(rs: seq<(int, int)>, p: int) { exists j :: 0 <= j < |rs| && InRange(rs[j], p) }

  /** Each range starts where the one before it ends, the first at 0. */
  ghost predicate Chained(rs: seq<(int, int)>) {
    && |rs| > 0 && rs[0].0 == 0 <= rs[0].1
    && forall i :: 0 < i < |rs| ==> rs[i].0 == rs[i - 1].1 <= rs[i].1
  }

  /** The bytes below n, and no others, lie in exactly one of the ranges. */
  ghost predicate Tile(rs: seq<(int, int)>, n: int) {
    && (forall p :: Covered(rs, p) <==> 0 <= p < n)
    && (forall p, i, j :: 0 <= i < |rs| && 0 <= j < |rs| && InRange(rs[i], p) && InRange(rs[j], p) ==> i == j)
  }

  lemma {:induction false} EndsRise(rs: seq<(int, int)>, i: nat, j: nat)
    requires Chained(rs) && i <= j < |rs|
    ensures 0 <= rs[i].1 <= rs[j].1 && 0 <= rs[i].0 <= rs[j].0 <= rs[j].1
    ensures i < j ==> rs[i].1 <= rs[j].0
    decreases j
  {
    if i < j {
      EndsRise(rs, i, j - 1);
    } else if j > 0 {
      EndsRise(rs, j - 1, j - 1);
    }
  }

  lemma {:induction false} FindRange(rs: seq<(int, int)>, k: nat, p: int)
    requires Chained(rs) && k < |rs| && 0 <= p < rs[k].1
    ensures Covered(rs, p)
    decreases k
  {
    if p < rs[k].0 {
      FindRange(rs, k - 1, p);
    } else {
      assert InRange(rs[k], p);
    }
  }

  lemma ChainedRangesTile(rs: seq<(int, int)>)
    requires Chained(rs)
    ensures Tile(rs, rs[|rs| - 1].1)
  {
    var m := |rs| - 1;
    forall p
      ensures Covered(rs, p) <==> 0 <= p < rs[m].1
    {
      if Covered(rs, p) {
        var j :| 0 <= j < |rs| && InRange(rs[j], p);
        EndsRise(rs, j, m);
      } else if 0 <= p < rs[m].1 {
        FindRange(rs, m, p);
      }
    }
    forall p, i, j | 0 <= i < |rs| && 0 <= j < |rs| && InRange(rs[i], p) && InRange(rs[j], p)
      ensures i == j
    {
      if i < j {
        EndsRise(rs, i, j);
      } else if j < i {
        EndsRise(rs, j, i);
      }
    }
  }

  /** From its nearest anchor, verified records tile the log up to record k's captured length:
      each range starts where the last ended, and every byte is vouched for once. */
  lemma VerifiedRecordsTile(c: Codec, dir: seq<File>, log: Bytes, k: nat)
    requires Verified(c, dir, log) && k < |dir|
    ensures var rs := Ranges(c, dir, AnchorAt(c, dir, k), k);
            Chained(rs) && Tile(rs, At(c, dir, k).logBytes)
  {
    hide FileOk, HashRange, TailOf, Verified, Tile, At, Ranges, AnchorAt, RangeStart;
    var a := AnchorAt(c, dir, k);
    var rs := Ranges(c, dir, a, k);
    RangesChain(c, dir, log, k);
    ChainedRangesTile(rs);
    assert rs[k - a] == (RangeStart(At(c, dir, a + (k - a))), At(c, dir, a + (k - a)).logBytes);
  }

  lemma RangesChain(c: Codec, dir: seq<File>, log: Bytes, k: nat)
    requires Verified(c, dir, log) && k < |dir|
    ensures Chained(Ranges(c, dir, AnchorAt(c, dir, k), k))
  {
    hide FileOk, HashRange, TailOf, Verified, At, Ranges, AnchorAt, RangeStart;
    var a := AnchorAt(c, dir, k);
    var rs := Ranges(c, dir, a, k);
    VerifiedLink(c, dir, log, a);
    assert rs[0] == (RangeStart(At(c, dir, a + 0)), At(c, dir, a + 0).logBytes);
    forall i | 0 < i < |rs|
      ensures rs[i].0 == rs[i - 1].1 <= rs[i].1
    {
      VerifiedLink(c, dir, log, a + i);
      assert rs[i - 1] == (RangeStart(At(c, dir, a + (i - 1))), At(c, dir, a + (i - 1)).logBytes);
    }
  }

  /** The bytes of a log that record k's digest is about. */
  ghost function RangeOf(c: Codec, dir: seq<File>, k: nat, log: Bytes): Bytes
    requires k < |dir|
  {
    var r := At(c, dir, k);
    if 0 <= RangeStart(r) <= r.logBytes <= |log| then log[RangeStart(r)..r.logBytes] else []
  }

  /** The log is at least as long as what a verified record captured, and its range hashes to the
      recorded digest. */
  lemma VerifiedRange(c: Codec, dir: seq<File>, log: Bytes, k: nat)
    requires Verified(c, dir, log) && k < |dir|
    ensures 0 <= At(c, dir, k).logBytes <= |log|
    ensures c.sha(RangeOf(c, dir, k, log)) == RangeSha(At(c, dir, k))
  {
    hide FileOk, Load, Verified;
    VerifiedLink(c, dir, log, k);
    var r := At(c, dir, k);
    if r.logBytes > 0 {
      assert r.logBytes - TailStart(r.logBytes) > 0;
    }
    if RangeStart(r) == r.logBytes {
      assert log[RangeStart(r)..r.logBytes] == [];
    }
  }

  /** Two logs accepted against the same records agree on every captured prefix, or one record's
      digest is shared by two different ranges of bytes. */
  lemma {:induction false} VerifiedLogsAgree(c: Codec, dir: seq<File>, log: Bytes, log': Bytes, k: nat)
    requires Verified(c, dir, log) && Verified(c, dir, log') && k < |dir|
    ensures 0 <= At(c, dir, k).logBytes <= |log| && At(c, dir, k).logBytes <= |log'|
    ensures log[..At(c, dir, k).logBytes] == log'[..At(c, dir, k).logBytes]
            || exists j :: 0 <= j <= k && RangeOf(c, dir, j, log) != RangeOf(c, dir, j, log')
                           && c.sha(RangeOf(c, dir, j, log)) == c.sha(RangeOf(c, dir, j, log'))
    decreases k
  {
    hide FileOk, Load, HashRange, TailOf, Verified, At, ChainDigest, RangeSha, Anchor;
    VerifiedRange(c, dir, log, k);
    VerifiedRange(c, dir, log', k);
    VerifiedLink(c, dir, log, k);
    var r := At(c, dir, k);
    var start, end := RangeStart(r), r.logBytes;
    if RangeOf(c, dir, k, log) == RangeOf(c, dir, k, log') {
      if r.mode == Segment {
        VerifiedLogsAgree(c, dir, log, log', k - 1);
      }
      if log[..start] == log'[..start] {
        SamePrefix(log, log', start, end);
      }
    }
  }

  lemma SamePrefix(log: Bytes, log': Bytes, start: nat, end: nat)
    requires start <= end <= |log| && end <= |log'|
    requires log[..start] == log'[..start] && log[start..end] == log'[start..end]
    ensures log[..end] == log'[..end]
  {
    Extend(log, 0, start, end);
    Extend(log', 0, start, end);
  }

  // ----- verified records bind their history

  /** Records in order, of the current format, that Verify accepts without the log. */
  ghost predicate LinkedRecords(c: Codec, dir: seq<File>) {
    && (forall i, j :: 0 <= i < j < |dir| ==> Less(dir[i].name, dir[j].name))
    && forall k :: 0 <= k < |dir| ==> FileOk(c, dir, k, None) && At(c, dir, k).format == V2
  }

  /** Each record pins the name and the exact bytes of the one before it. */
  lemma LinkPins(c: Codec, dir: seq<File>, k: nat)
    requires LinkedRecords(c, dir) && k < |dir|
    ensures At(c, dir, k).prev == if k == 0 then None else Some(Reference(dir[k - 1].name, c.sha(dir[k - 1].data)))
  {
    hide Load, Less, SegmentIssueFree;
    assert FileOk(c, dir, k, None);
    if k > 0 {
      assert FileOk(c, dir, k - 1, None);
      LookupFinds(dir, k - 1);
    }
  }

  ghost function Contents(dir: seq<File>): set<Bytes> { set f | f in dir :: f.data }

  /** Two accepted directories that hold the same record agree on everything before it: the same
      files, in the same places, with the same bytes; or two record files collide. */
  lemma {:induction false} RecordBindsHistory(c: Codec, dir: seq<File>, dir': seq<File>, i: nat, j: nat)
    requires LinkedRecords(c, dir) && LinkedRecords(c, dir') && i < |dir| && j < |dir'| && dir[i] == dir'[j]
    ensures (i == j && dir[..i + 1] == dir'[..j + 1]) || Collision(c.sha, Contents(dir), Contents(dir'))
    decreases i
  {
    hide LinkedRecords, Load, FileOk;
    LinkPins(c, dir, i);
    LinkPins(c, dir', j);
    assert At(c, dir, i) == At(c, dir', j);
    if i > 0 {
      var f, g := dir[i - 1], dir'[j - 1];
      assert f.data in Contents(dir) && g.data in Contents(dir');
      if f.data == g.data {
        RecordBindsHistory(c, dir, dir', i - 1, j - 1);
        LastSplit(dir[..i + 1]);
        LastSplit(dir'[..j + 1]);
        TakeTake(dir, i, i + 1);
        TakeTake(dir', j, j + 1);
      }
    } else {
      assert dir[..1] == [dir[0]] && dir'[..1] == [dir'[0]];
    }
  }

  lemma ChainInputInjective(p: Digest, s: Digest, n: uint64, p': Digest, s': Digest, n': uint64)
    requires (p + s) + BigEndian(n, 8) == (p' + s') + BigEndian(n', 8)
    ensures p == p' && s == s' && n == n'
  {
    hide BigEndian, FromBigEndian;
    Widths();
    BigEndianRoundTrip(n, 8);
    BigEndianRoundTrip(n', 8);
    Halves(p + s, BigEndian(n, 8));
    Halves(p' + s', BigEndian(n', 8));
    Halves(p, s);
    Halves(p', s');
  }

  /** A chain digest binds the anchor it extends, the segment and the length, or its inputs collide. */
  lemma ChainDigestBinds(c: Codec, p: Digest, s: Digest, n: uint64, p': Digest, s': Digest, n': uint64)
    requires ChainDigest(c, p, s, n) == ChainDigest(c, p', s', n')
    ensures (p == p' && s == s' && n == n')
            || Collision(c.sha, {(p + s) + BigEndian(n, 8)}, {(p' + s') + BigEndian(n', 8)})
  {
    hide BigEndian;
    var x, y := (p + s) + BigEndian(n, 8), (p' + s') + BigEndian(n', 8);
    if x == y {
      ChainInputInjective(p, s, n, p', s', n');
    } else {
      assert x in {x} && y in {y};
    }
  }
}
