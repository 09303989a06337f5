/** Death records: the incremental hash writer and the offline verifier (internal/death). */
module Death {
  import opened Bytes

  // ----- records

  /** Digest text is given by the bytes it spells: [] is an absent field, and text that is not the
      canonical hex of 32 bytes counts as bytes of another length. */
  predicate ValidDigest(t: Bytes) { |t| == 32 }

  datatype Status = Complete | Incomplete | Error | UnknownStatus

  datatype Hash = Hash(status: Status, sha: Bytes)

  datatype Format = V1 | V2 | OtherFormat

  datatype Mode = Full | Segment | NoMode

  datatype Reference = Reference(name: string, sha: Bytes)

  datatype Reason =
    | NoReason | NoPrevious | HistoryUnreadable | HistoryDeadline | SkippedInvalid | ShrunkLog | PreviousUnfinished
    | MachineChanged | NoTail | LinkInvalid | TailUnavailable | TailDiffers

  datatype Record = Record(
    format: Format, machineId: string, logBytes: int, logHash: Hash,
    mode: Mode, segmentStart: int, segmentSha: Bytes, chainSha: Bytes, tailSha: Bytes, tailHash: Hash,
    prev: Option<Reference>, skipped: seq<string>, reason: Reason, prefixChanged: bool, logShrank: bool)

  /** SHA-256 and the JSON encoding of a record. */
  datatype Codec = Codec(sha: HashFn, encode: Record -> Bytes, decode: Bytes -> Option<Record>)

  ghost predicate Lawful(c: Codec) { forall r :: c.decode(c.encode(r)) == Some(r) }

  datatype File = File(name: string, data: Bytes)

  datatype Saved = Saved(record: Record, ref: Reference)

  function Anchor(r: Record): Bytes { if r.format == V2 && r.mode == Segment then r.chainSha else r.logHash.sha }

  /** The rules loadRecord applies to a parsed record. */
  predicate Loadable(r: Record) {
    && (r.format == V1 || r.format == V2)
    && r.logBytes >= -1
    && r.logHash.status != UnknownStatus
    && (r.logHash.status == Complete ==> r.logBytes >= 0 && ValidDigest(Anchor(r)))
    && (r.format == V2 ==> LoadableV2(r))
  }

  predicate LoadableV2(r: Record) {
    && (r.mode == NoMode ==> r.logBytes < 0)
    && (if r.mode == Segment then
          && r.prev.Some? && 0 <= r.segmentStart <= r.logBytes
          && (r.logHash.status == Complete ==>
                ValidDigest(r.segmentSha) && ValidDigest(r.chainSha) && r.logHash.sha == [])
        else
          && r.segmentSha == [] && r.chainSha == [] && r.segmentStart == 0
          && (r.logHash.status == Complete ==> ValidDigest(r.logHash.sha)))
    && (r.tailSha != [] ==> r.tailHash.status == Complete && ValidDigest(r.tailSha) && r.tailHash.sha == r.tailSha)
    && (r.tailHash.status == Complete ==> ValidDigest(r.tailSha))
    && (r.logHash.status != Complete ==> r.logHash.sha == [] && r.segmentSha == [] && r.chainSha == [])
  }

  /** unreadable: names whose file cannot be read at this moment. */
  function Load(c: Codec, f: File, unreadable: set<string>): (s: Option<Saved>)
    ensures s.Some? ==> Loadable(s.value.record) && s.value.ref == Reference(f.name, c.sha(f.data))
  {
    if f.name in unreadable then None
    else
      match c.decode(f.data)
      case None => None
      case Some(r) => if Loadable(r) then Some(Saved(r, Reference(f.name, c.sha(f.data)))) else None
  }

  function ChainDigest(c: Codec, previous: Bytes, segment: Bytes, length: nat): Digest {
    c.sha(previous + segment + BigEndian(length, 8))
  }

  const TAIL_BYTES := 0x10_0000 // 1 MiB

  function TailStart(length: nat): (start: nat)
    ensures start <= length
  {
    if length > TAIL_BYTES then length - TAIL_BYTES else 0
  }

  // ----- hashing a range of the log

  datatype Fault = Fine | Deadline | IoError

  /** hashRange: the digest of exactly the requested bytes, or none at all. */
  function HashRange(c: Codec, log: Bytes, start: nat, size: nat, fault: Fault): (h: Hash)
    ensures h.status == Complete ==> ValidDigest(h.sha)
    ensures h.status != Complete ==> h.sha == [] && h.status != UnknownStatus
  {
    if fault == Deadline then Hash(Incomplete, [])
    else if fault == IoError then Hash(Error, [])
    else if size == 0 then Hash(Complete, c.sha([]))
    else if start + size > |log| then Hash(Error, [])
    else Hash(Complete, c.sha(log[start..start + size]))
  }

  /** What one read from the stream returns: up to n bytes, the rest and the end, or a failure; or
      the context is found cancelled before it. */
  datatype Read = Chunk(n: nat) | Last | Failed | Cancelled

  predicate Undisturbed(script: seq<Read>) {
    |script| > 0 && script[|script| - 1] == Last && forall i :: 0 <= i < |script| - 1 ==> script[i].Chunk?
  }

  /** streamHash: however the stream is cut into reads, a digest is returned only for all of src,
      and only if src is as long as asked; an undisturbed read of enough bytes always gives one. */
  method StreamHash(c: Codec, src: Bytes, size: int, script: seq<Read>) returns (r: Result<Digest, Status>)
    ensures r.Ok? ==> r.value == c.sha(src) && (size >= 0 ==> |src| == size)
    ensures r.Err? ==> r.error == Incomplete || r.error == Error
    ensures Undisturbed(script) ==> if size < 0 || |src| == size then r.Ok? else r == Err(Error)
  {
    var absorbed: Bytes := [];
    for i := 0 to |script|
      invariant absorbed <= src
      invariant forall j :: 0 <= j < i ==> script[j].Chunk?
    {
      match script[i]
      case Cancelled => return Err(Incomplete);
      case Failed => return Err(Error);
      case Chunk(n) =>
        // A read never returns more than is left.
        var take := if n <= |src| - |absorbed| then n else |src| - |absorbed|;
        absorbed := absorbed + src[|absorbed|..|absorbed| + take];
      case Last =>
        absorbed := absorbed + src[|absorbed|..];
        assert absorbed == src;
        if size >= 0 && |absorbed| != size {
          return Err(Error);
        }
        return Ok(c.sha(absorbed));
    }
    return Err(Incomplete);
  }

  /** hashRange over streamHash: complete means the digest of exactly log[start..start + size]. */
  method RangeHash(c: Codec, log: Bytes, start: nat, size: nat, script: seq<Read>) returns (h: Hash)
    ensures h.status == Complete ==> h == HashRange(c, log, start, size, Fine)
    ensures h.status != Complete ==> h.sha == []
    ensures Undisturbed(script) ==> h == HashRange(c, log, start, size, Fine)
  {
    var from := if start <= |log| then start else |log|;
    var to := if from + size <= |log| then from + size else |log|;
    var sum := StreamHash(c, log[from..to], size, script);
    h := match sum case Ok(d) => Hash(Complete, d) case Err(e) => Hash(e, []);
  }

  // ----- links

  /** Lexicographic order of file names. */
  predicate Less(a: string, b: string)
    decreases |a|
  {
    if |b| == 0 then false
    else if |a| == 0 then true
    else if a[0] != b[0] then a[0] < b[0]
    else Less(a[1..], b[1..])
  }

  lemma {:induction false} LessIrreflexive(a: string)
    ensures !Less(a, a)
    decreases |a|
  {
    if |a| > 0 {
      LessIrreflexive(a[1..]);
    }
  }

  /** filepath.Base leaves the name as it is. */
  predicate IsBaseName(name: string) { name == "/" || (name != "" && '/' !in name) }

  function Lookup(dir: seq<File>, name: string): (f: Option<File>)
    ensures f.Some? ==> f.value in dir && f.value.name == name
  {
    if |dir| == 0 then None else if dir[0].name == name then Some(dir[0]) else Lookup(dir[1..], name)
  }

  predicate LinkOk(c: Codec, dir: seq<File>, current: string, ref: Reference, unreadable: set<string>) {
    && IsBaseName(ref.name) && Less(ref.name, current) && ValidDigest(ref.sha)
    && var f := Lookup(dir, ref.name);
       && f.Some? && Load(c, f.value, unreadable).Some?
       && Load(c, f.value, unreadable).value.ref.sha == ref.sha
  }

  // ----- the writer

  /** Everything outside the writer's control during one call: listing the directory failed, how
      many records it can look at before the deadline, which files cannot be read, and the fate of
      the three range hashes. */
  datatype Faults = Faults(listing: bool, patience: nat, unreadable: set<string>, guard: Fault, tail: Fault,
                           body: Fault)

  datatype History = History(prev: Option<Saved>, skipped: seq<string>, deadline: bool)

  /** The newest loadable record among the first n files, looking backwards. */
  function Newest(c: Codec, dir: seq<File>, n: nat, patience: nat, unreadable: set<string>,
                  skipped: seq<string>): (h: History)
    requires n <= |dir|
    ensures h.prev.Some? ==> Loadable(h.prev.value.record)
  {
    if n == 0 then History(None, skipped, false)
    else if patience == 0 then History(None, skipped, true)
    else
      match Load(c, dir[n - 1], unreadable)
      case Some(s) => History(Some(s), skipped, false)
      case None => Newest(c, dir, n - 1, patience - 1, unreadable, skipped + [dir[n - 1].name])
  }

  datatype Choice = Choice(mode: Mode, reason: Reason, prefixChanged: bool, logShrank: bool)

  /** Whether the new record can extend the previous one, and if not, why not. */
  function Choose(c: Codec, dir: seq<File>, log: Bytes, size: nat, machine: string, h: History, f: Faults): Choice
    requires h.prev.Some? ==> Loadable(h.prev.value.record)
  {
    match h.prev
    case None =>
      var reason := if |h.skipped| > 0 then SkippedInvalid else if h.deadline then HistoryDeadline
                    else if f.listing then HistoryUnreadable else NoPrevious;
      Choice(Full, reason, false, false)
    case Some(p) =>
      var r := p.record;
      var shrank := r.logBytes >= 0 && size < r.logBytes;
      if |h.skipped| > 0 then Choice(Full, SkippedInvalid, false, shrank)
      else if shrank then Choice(Full, ShrunkLog, false, true)
      else if r.logHash.status != Complete then Choice(Full, PreviousUnfinished, false, false)
      else if r.machineId != machine then Choice(Full, MachineChanged, false, false)
      else if r.format == V1 || !ValidDigest(r.tailSha) then Choice(Full, NoTail, false, false)
      else if r.prev.Some? && !LinkOk(c, dir, p.ref.name, r.prev.value, f.unreadable) then
        Choice(Full, LinkInvalid, false, false)
      else
        var guard := TailOf(c, log, r.logBytes, f.guard);
        if guard.status != Complete then Choice(Full, TailUnavailable, false, false)
        else if guard.sha != r.tailSha then Choice(Full, TailDiffers, true, false)
        else Choice(Segment, NoReason, false, false)
  }

  function TailOf(c: Codec, log: Bytes, length: nat, fault: Fault): (h: Hash)
    ensures h.status == Complete ==> ValidDigest(h.sha)
    ensures h.status != Complete ==> h.sha == [] && h.status != UnknownStatus
  {
    HashRange(c, log, TailStart(length), length - TailStart(length), fault)
  }

  /** The record for a log of the given size: segment mode hashes only what the previous record
      does not cover and chains on its anchor; every other case hashes the whole log. */
  function Compose(c: Codec, log: Bytes, size: nat, machine: string, h: History, ch: Choice, f: Faults): Record
    requires ch.mode == Full || ch.mode == Segment
    requires ch.mode == Segment ==> h.prev.Some? && 0 <= h.prev.value.record.logBytes <= size
  {
    var tail := TailOf(c, log, size, f.tail);
    var ref := if h.prev.None? then None else Some(h.prev.value.ref);
    if ch.mode == Segment then
      var prev := h.prev.value.record;
      var body := HashRange(c, log, prev.logBytes, size - prev.logBytes, f.body);
      var chain := if body.status == Complete then ChainDigest(c, Anchor(prev), body.sha, size) else [];
      Record(V2, machine, size, Hash(body.status, []), Segment, prev.logBytes, body.sha, chain, tail.sha, tail,
             ref, h.skipped, ch.reason, ch.prefixChanged, ch.logShrank)
    else
      Record(V2, machine, size, HashRange(c, log, 0, size, f.body), Full, 0, [], [], tail.sha, tail,
             ref, h.skipped, ch.reason, ch.prefixChanged, ch.logShrank)
  }

  function Recent(c: Codec, dir: seq<File>, f: Faults): (h: History)
    ensures h.prev.Some? ==> Loadable(h.prev.value.record)
  {
    if f.listing then History(None, [], false) else Newest(c, dir, |dir|, f.patience, f.unreadable, [])
  }

  lemma ChoiceIsComposable(c: Codec, dir: seq<File>, log: Bytes, size: nat, machine: string, h: History, f: Faults)
    requires h.prev.Some? ==> Loadable(h.prev.value.record)
    ensures var ch := Choose(c, dir, log, size, machine, h, f);
            && (ch.mode == Full || ch.mode == Segment)
            && (ch.mode == Segment ==> h.prev.Some? && 0 <= h.prev.value.record.logBytes <= size)
  {
    hide LinkOk, HashRange;
  }

  /** fire and hashLog: log is what the file holds while it is hashed, stat the size taken first. */
  function FireRecord(c: Codec, dir: seq<File>, log: Bytes, stat: Option<nat>, machine: string, f: Faults): Record {
    match stat
    case None =>
      Record(V2, machine, -1, Hash(Error, []), Full, 0, [], [], [], Hash(Error, []), None, [], NoReason, false, false)
    case Some(size) =>
      var h := Recent(c, dir, f);
      ChoiceIsComposable(c, dir, log, size, machine, h, f);
      Compose(c, log, size, machine, h, Choose(c, dir, log, size, machine, h, f), f)
  }

  /** The writer as it runs: the record is filled in field by field, after a backwards search. */
  method Fire(c: Codec, dir: seq<File>, log: Bytes, stat: Option<nat>, machine: string, f: Faults) returns (r: Record)
    ensures r == FireRecord(c, dir, log, stat, machine, f)
  {
    hide LinkOk, HashRange, Load, ChainDigest;
    r := Record(V2, machine, -1, Hash(Error, []), Full, 0, [], [], [], Hash(Error, []), None, [], NoReason, false,
                false);
    if stat.None? {
      return;
    }
    var size := stat.value;
    r := r.(logBytes := size, reason := if f.listing then HistoryUnreadable else NoPrevious);
    var prev, skipped, deadline := SearchBack(c, dir, f);
    ghost var h := History(prev, skipped, deadline);
    r := r.(skipped := skipped, prev := if prev.None? then None else Some(prev.value.ref));
    if deadline {
      r := r.(reason := HistoryDeadline);
    }
    var ch := Choose(c, dir, log, size, machine, History(prev, skipped, deadline), f);
    ChoiceIsComposable(c, dir, log, size, machine, h, f);
    r := r.(mode := ch.mode, reason := ch.reason, prefixChanged := ch.prefixChanged, logShrank := ch.logShrank);
    var tail := TailOf(c, log, size, f.tail);
    r := r.(tailHash := tail, tailSha := tail.sha);
    if ch.mode == Segment {
      r := r.(segmentStart := prev.value.record.logBytes);
      var body := HashRange(c, log, r.segmentStart, size - r.segmentStart, f.body);
      r := r.(logHash := Hash(body.status, []));
      if body.status == Complete {
        r := r.(segmentSha := body.sha, chainSha := ChainDigest(c, Anchor(prev.value.record), body.sha, size));
      }
    } else {
      r := r.(logHash := HashRange(c, log, 0, size, f.body));
    }
  }

  method SearchBack(c: Codec, dir: seq<File>, f: Faults)
    returns (prev: Option<Saved>, skipped: seq<string>, deadline: bool)
    ensures History(prev, skipped, deadline) == Recent(c, dir, f)
  {
    hide Load;
    prev, skipped, deadline := None, [], false;
    if f.listing {
      return;
    }
    var i, patience := |dir|, f.patience;
    while i > 0
      invariant 0 <= i <= |dir| && 0 <= patience
      invariant prev == None && !deadline
      invariant Recent(c, dir, f) == Newest(c, dir, i, patience, f.unreadable, skipped)
    {
      if patience == 0 {
        deadline := true;
        return;
      }
      var s := Load(c, dir[i - 1], f.unreadable);
      if s.Some? {
        prev := s;
        return;
      }
      skipped := skipped + [dir[i - 1].name];
      i, patience := i - 1, patience - 1;
    }
  }

  /** Whatever goes wrong while a record is made, what is written loads: segment bounds in range,
      digests only on finished hashes, a tail hash only with its digest. */
  lemma FiredRecordsLoad(c: Codec, dir: seq<File>, log: Bytes, stat: Option<nat>, machine: string, f: Faults,
                         name: string)
    requires Lawful(c)
    ensures var r := FireRecord(c, dir, log, stat, machine, f);
            && Loadable(r)
            && Load(c, File(name, c.encode(r)), {}) == Some(Saved(r, Reference(name, c.sha(c.encode(r)))))
  {
    if stat.Some? {
      hide LinkOk, HashRange, Load;
      var h := Recent(c, dir, f);
      ChoiceIsComposable(c, dir, log, stat.value, machine, h, f);
      ComposedIsLoadable(c, log, stat.value, machine, h, Choose(c, dir, log, stat.value, machine, h, f), f);
    }
    EncodedLoads(c, FireRecord(c, dir, log, stat, machine, f), name);
  }

  lemma EncodedLoads(c: Codec, r: Record, name: string)
    requires Lawful(c) && Loadable(r)
    ensures Load(c, File(name, c.encode(r)), {}) == Some(Saved(r, Reference(name, c.sha(c.encode(r)))))
  {
    hide Loadable;
    assert c.decode(c.encode(r)) == Some(r);
  }

  lemma ComposedIsLoadable(c: Codec, log: Bytes, size: nat, machine: string, h: History, ch: Choice, f: Faults)
    requires ch.mode == Full || ch.mode == Segment
    requires ch.mode == Segment ==> h.prev.Some? && 0 <= h.prev.value.record.logBytes <= size
    ensures Loadable(Compose(c, log, size, machine, h, ch, f))
  {
    hide HashRange, ChainDigest;
  }

  // ----- the verifier

  /** The newest loadable record before position k. */
  function Previous(c: Codec, dir: seq<File>, k: nat): Option<Saved>
    requires k <= |dir|
  {
    if k == 0 then None
    else
      match Load(c, dir[k - 1], {})
      case Some(s) => Some(s)
      case None => Previous(c, dir, k - 1)
  }

  function RangeStart(r: Record): int { if r.mode == Segment then r.segmentStart else 0 }

  function RangeSha(r: Record): Bytes { if r.mode == Segment then r.segmentSha else r.logHash.sha }

  predicate LinkIssueFree(c: Codec, dir: seq<File>, name: string, r: Record, previous: Option<Saved>) {
    match r.prev
    case None => previous.None?
    case Some(ref) => LinkOk(c, dir, name, ref, {}) && previous.Some? && ref.name == previous.value.ref.name
  }

  predicate SegmentIssueFree(c: Codec, r: Record, previous: Option<Saved>)
    requires Loadable(r)
  {
    && previous.Some? && r.prev.Some?
    && var p := previous.value.record;
       && r.segmentStart == p.logBytes && r.logBytes >= r.segmentStart
       && p.logHash.status == Complete && p.format == V2 && ValidDigest(p.tailSha)
       && p.machineId == r.machineId
       && (r.logHash.status == Complete ==> ChainDigest(c, Anchor(p), r.segmentSha, r.logBytes) == r.chainSha)
  }

  predicate RangesMatch(c: Codec, r: Record, log: Bytes)
    requires r.logBytes >= 0
  {
    && 0 <= RangeStart(r) <= r.logBytes
    && (r.logHash.status == Complete ==>
          HashRange(c, log, RangeStart(r), r.logBytes - RangeStart(r), Fine) == Hash(Complete, RangeSha(r)))
    && (r.format == V2 && ValidDigest(r.tailSha) ==> TailOf(c, log, r.logBytes, Fine) == Hash(Complete, r.tailSha))
  }

  /** A loaded record draws no complaint from Verify. */
  predicate IssueFree(c: Codec, dir: seq<File>, s: Saved, previous: Option<Saved>, log: Option<Bytes>)
    requires Loadable(s.record)
  {
    var r := s.record;
    && (r.format == V2 ==>
          && LinkIssueFree(c, dir, s.ref.name, r, previous)
          && (r.mode == Segment ==> SegmentIssueFree(c, r, previous))
          && ValidDigest(r.tailSha))
    && r.logHash.status == Complete
    && (log.Some? && r.logBytes >= 0 ==> RangesMatch(c, r, log.value))
  }

  ghost predicate FileOk(c: Codec, dir: seq<File>, k: nat, log: Option<Bytes>)
    requires k < |dir|
  {
    && Load(c, dir[k], {}).Some?
    && IssueFree(c, dir, Load(c, dir[k], {}).value, Previous(c, dir, k), log)
  }

  /** Verify's loop, counting issues: none are found exactly when every file is in order. */
  method Verify(c: Codec, dir: seq<File>, log: Option<Bytes>) returns (issues: nat, ok: bool)
    ensures issues == 0 <==> forall k :: 0 <= k < |dir| ==> FileOk(c, dir, k, log)
    ensures ok <==> |dir| > 0 && issues == 0
  {
    issues := 0;
    if |dir| == 0 {
      return 0, false;
    }
    var previous: Option<Saved> := None;
    assert previous == Previous(c, dir, 0);
    hide FileOk, Previous;
    for k := 0 to |dir|
      invariant previous == Previous(c, dir, k)
      invariant issues == 0 <==> forall j :: 0 <= j < k ==> FileOk(c, dir, j, log)
    {
      var found;
      found, previous := CheckFile(c, dir, k, previous, log);
      issues := issues + found;
    }
    ok := issues == 0;
  }

  /** One pass of the loop: the complaints about file k, and the record later files follow on. */
  method CheckFile(c: Codec, dir: seq<File>, k: nat, previous: Option<Saved>, log: Option<Bytes>)
    returns (found: nat, next: Option<Saved>)
    requires k < |dir| && previous == Previous(c, dir, k)
    ensures found == 0 <==> FileOk(c, dir, k, log)
    ensures next == Previous(c, dir, k + 1)
  {
    hide IssueFree, Loadable;
    var s := Load(c, dir[k], {});
    if s.None? {
      return 1, previous;
    }
    found := CountIssues(c, dir, s.value, previous, log);
    next := s;
  }

  /** One record's complaints, counted one by one. */
  method CountIssues(c: Codec, dir: seq<File>, s: Saved, previous: Option<Saved>, log: Option<Bytes>) returns (n: nat)
    requires Loadable(s.record)
    ensures n == 0 <==> IssueFree(c, dir, s, previous, log)
  {
    hide LinkOk, HashRange, ChainDigest;
    n := 0;
    var r := s.record;
    if r.format == V2 {
      if r.prev.Some? {
        if !LinkOk(c, dir, s.ref.name, r.prev.value, {}) { n := n + 1; }
        if previous.None? || r.prev.value.name != previous.value.ref.name { n := n + 1; }
      } else if previous.Some? {
        n := n + 1;
      }
      if r.mode == Segment {
        if previous.None? || r.prev.None? {
          n := n + 1;
        } else {
          var p := previous.value.record;
          if r.segmentStart != p.logBytes || r.logBytes < r.segmentStart { n := n + 1; }
          if p.logHash.status != Complete || p.format != V2 || !ValidDigest(p.tailSha) { n := n + 1; }
          if p.machineId != r.machineId { n := n + 1; }
          if r.logHash.status == Complete && ChainDigest(c, Anchor(p), r.segmentSha, r.logBytes) != r.chainSha {
            n := n + 1;
          }
        }
      }
      if !ValidDigest(r.tailSha) { n := n + 1; }
    }
    if r.logHash.status != Complete { n := n + 1; }
    if log.Some? && r.logBytes >= 0 {
      var start, want := RangeStart(r), RangeSha(r);
      if start < 0 || start > r.logBytes {
        n := n + 1;
      } else if r.logHash.status == Complete {
        if HashRange(c, log.value, start, r.logBytes - start, Fine) != Hash(Complete, want) { n := n + 1; }
      }
      if r.format == V2 && ValidDigest(r.tailSha) {
        if TailOf(c, log.value, r.logBytes, Fine) != Hash(Complete, r.tailSha) { n := n + 1; }
      }
    }
  }
}
