/** Peer liveness by signed heartbeats (internal/gossip/heartbeat.go). */
module Gossip {
  import opened Bytes
  import opened Sequences

  // ----- packets

  const MAGIC := 0x5749_5453 // "WITS"
  const SIGNATURE_SIZE := 64

  const ZEROS_64: Bytes := ZEROS_16 + ZEROS_16 + ZEROS_16 + ZEROS_16

  /** What copy leaves in a zeroed 64-byte field. */
  function SigField(sig: Bytes): (b: Bytes)
    ensures |b| == SIGNATURE_SIZE
    ensures |sig| == SIGNATURE_SIZE ==> b == sig
  {
    (sig + ZEROS_64)[..SIGNATURE_SIZE]
  }

  function Encode(payload: Bytes, sig: Bytes): (b: Bytes)
    ensures |b| == 8 + |payload| + SIGNATURE_SIZE
  {
    BigEndian(MAGIC, 4) + (BigEndian(|payload|, 4) + (payload + SigField(sig)))
  }

  datatype PacketError = TooShort | BadMagic | LengthMismatch

  function Decode(data: Bytes): Result<(Bytes, Bytes), PacketError> {
    if |data| < 8 + SIGNATURE_SIZE then Err(TooShort)
    else if FromBigEndian(data[0..4]) != MAGIC then Err(BadMagic)
    else
      var n := FromBigEndian(data[4..8]);
      if 8 + n + SIGNATURE_SIZE != |data| then Err(LengthMismatch)
      else Ok((data[8..8 + n], data[8 + n..]))
  }

  /** The source's copy: as much of src as fits behind at. */
  method CopyInto(buf: array<byte>, at: nat, src: Bytes)
    requires at <= buf.Length
    modifies buf
    ensures forall j :: 0 <= j < |src| && at + j < buf.Length ==> buf[at + j] == src[j]
    ensures forall j :: 0 <= j < buf.Length && (j < at || at + |src| <= j) ==> buf[j] == old(buf[j])
  {
    var n := if |src| <= buf.Length - at then |src| else buf.Length - at;
    for i := 0 to n
      invariant forall j :: 0 <= j < i ==> buf[at + j] == src[j]
      invariant forall j :: 0 <= j < at || at + i <= j < buf.Length ==> buf[j] == old(buf[j])
    {
      buf[at + i] := src[i];
    }
  }

  /** Four fields, byte by byte, are their concatenation. */
  lemma FourFields(b: Bytes, m: Bytes, l: Bytes, p: Bytes, s: Bytes)
    requires |b| == |m| + |l| + |p| + |s|
    requires forall j :: 0 <= j < |m| ==> b[j] == m[j]
    requires forall j :: 0 <= j < |l| ==> b[|m| + j] == l[j]
    requires forall j :: 0 <= j < |p| ==> b[|m| + |l| + j] == p[j]
    requires forall j :: 0 <= j < |s| ==> b[|m| + |l| + |p| + j] == s[j]
    ensures b == m + (l + (p + s))
  {
    assert b[..|m|] == m;
    assert b[|m|..|m| + |l|] == l;
    assert b[|m| + |l|..|m| + |l| + |p|] == p;
    assert b[|m| + |l| + |p|..] == s;
    ExtendToEnd(b, |m| + |l|, |m| + |l| + |p|);
    ExtendToEnd(b, |m|, |m| + |l|);
    Cut(b, |m|);
  }

  /** A signature copied into a zeroed field. */
  lemma SignatureField(b: Bytes, at: nat, sig: Bytes)
    requires |b| == at + SIGNATURE_SIZE
    requires forall j :: 0 <= j < |sig| && at + j < |b| ==> b[at + j] == sig[j]
    requires forall j :: 0 <= j < |b| && at + |sig| <= j ==> b[j] == 0
    ensures forall j :: 0 <= j < SIGNATURE_SIZE ==> b[at + j] == SigField(sig)[j]
  {
    forall j | 0 <= j < SIGNATURE_SIZE
      ensures b[at + j] == SigField(sig)[j]
    {
      if j >= |sig| {
        assert SigField(sig)[j] == ZEROS_64[j - |sig|] == 0;
      }
    }
  }

  /** encodePacket: a zeroed buffer, filled field by field. */
  method EncodePacket(payload: Bytes, sig: Bytes) returns (buf: array<byte>)
    ensures fresh(buf) && buf[..] == Encode(payload, sig)
  {
    hide BigEndian;
    var n := |payload|;
    buf := new byte[8 + n + SIGNATURE_SIZE](_ => 0);
    CopyInto(buf, 0, BigEndian(MAGIC, 4));
    CopyInto(buf, 4, BigEndian(n, 4));
    CopyInto(buf, 8, payload);
    CopyInto(buf, 8 + n, sig);
    SignatureField(buf[..], 8 + n, sig);
    FourFields(buf[..], BigEndian(MAGIC, 4), BigEndian(n, 4), payload, SigField(sig));
  }

  lemma SplitFour(m: Bytes, l: Bytes, p: Bytes, s: Bytes)
    ensures var d := m + (l + (p + s));
            && d[0..|m|] == m && d[|m|..|m| + |l|] == l
            && d[|m| + |l|..|m| + |l| + |p|] == p && d[|m| + |l| + |p|..] == s
  {
    var d := m + (l + (p + s));
    Halves(m, l + (p + s));
    Halves(l, p + s);
    Halves(p, s);
    DropSlice(d, |m|, 0, |l|);
    DropDrop(d, |m|, |l|);
    DropSlice(d, |m| + |l|, 0, |p|);
    DropDrop(d, |m| + |l|, |p|);
  }

  lemma FieldsOf(payload: Bytes, sig: Bytes)
    ensures var d := Encode(payload, sig);
            && d[0..4] == BigEndian(MAGIC, 4) && d[4..8] == BigEndian(|payload|, 4)
            && d[8..8 + |payload|] == payload && d[8 + |payload|..] == SigField(sig)
  {
    hide BigEndian, SigField;
    SplitFour(BigEndian(MAGIC, 4), BigEndian(|payload|, 4), payload, SigField(sig));
  }

  /** The packet on the wire: "WITS", the payload's length, the payload, and 64 bytes of signature. */
  lemma PacketLayout(payload: Bytes, sig: Bytes)
    requires |payload| < 0x1_0000_0000 && |sig| == 64
    ensures var d := Encode(payload, sig);
            && |d| == 72 + |payload| && d[0..4] == [0x57, 0x49, 0x54, 0x53] && FromBigEndian(d[4..8]) == |payload|
            && d[8..8 + |payload|] == payload && d[8 + |payload|..] == sig
  {
    FieldsOf(payload, sig);
    assert BigEndian(0x5749_5453, 2) == [0x54, 0x53];
    assert BigEndian(0x5749, 2) == [0x57, 0x49];
    assert BigEndian(0x5749_5453, 3) == BigEndian(0x5749_54, 2) + [0x53];
    Widths();
    BigEndianRoundTrip(|payload|, 4);
  }

  /** Decoding undoes encoding exactly for 64-byte signatures and payloads whose length fits 32 bits. */
  lemma DecodeUndoesEncodeIff(payload: Bytes, sig: Bytes)
    ensures Decode(Encode(payload, sig)) == Ok((payload, sig)) <==> |sig| == SIGNATURE_SIZE && |payload| < 0x1_0000_0000
  {
    hide BigEndian, FromBigEndian, SigField, Encode;
    Widths();
    FieldsOf(payload, sig);
    BigEndianRoundTrip(MAGIC, 4);
    if |payload| < 0x1_0000_0000 {
      BigEndianRoundTrip(|payload|, 4);
    } else {
      FromBigEndianRoundTrip(BigEndian(|payload|, 4));
    }
  }

  /** Encoding undoes decoding on every packet that decodes. */
  lemma EncodeUndoesDecode(data: Bytes)
    requires Decode(data).Ok?
    ensures var (payload, sig) := Decode(data).value; Encode(payload, sig) == data
  {
    hide BigEndian, FromBigEndian;
    var (payload, sig) := Decode(data).value;
    var n := |payload|;
    FromBigEndianRoundTrip(data[0..4]);
    FromBigEndianRoundTrip(data[4..8]);
    ExtendToEnd(data, 8, 8 + n);
    ExtendToEnd(data, 4, 8);
    ExtendToEnd(data, 0, 4);
    assert data[0..] == data;
  }

  // ----- peers

  datatype Status = Alive | Silent | PresumedCompromised

  datatype Peer = Peer(lastSeen: int, lastSeq: nat, status: Status)

  type Peers = map<string, Peer>

  datatype Header = Header(peerId: string, seqNo: nat)

  /** The library parts: the JSON header, the hex of a peer id, Ed25519. */
  datatype Wire = Wire(header: Bytes -> Option<Header>, keyOf: string -> Option<Bytes>,
                       verify: (Bytes, Bytes, Bytes) -> bool)

  /** The checks handlePacket makes before it touches a peer: the sender and number of an authentic
      packet from a known peer. */
  function Authentic(w: Wire, peers: Peers, data: Bytes): Option<Header> {
    match Decode(data)
    case Err(_) => None
    case Ok((payload, sig)) =>
      match w.header(payload)
      case None => None
      case Some(h) =>
        if h.peerId == "" then None
        else
          var key := w.keyOf(h.peerId);
          if key.None? || |key.value| != 32 || h.peerId !in peers || !w.verify(key.value, payload, sig) then None
          else Some(h)
  }

  /** An authentic packet with a number above the last one. */
  predicate Fresh(w: Wire, peers: Peers, data: Bytes, id: string) {
    var h := Authentic(w, peers, data);
    h.Some? && h.value.peerId == id && id in peers && h.value.seqNo > peers[id].lastSeq
  }

  function Received(w: Wire, peers: Peers, data: Bytes, now: int): Peers {
    var h := Authentic(w, peers, data);
    if h.Some? && Fresh(w, peers, data, h.value.peerId) then
      peers[h.value.peerId := Peer(now, h.value.seqNo, Alive)]
    else peers
  }

  datatype Config = Config(interval: int, missed: int, death: int)

  /** Whole intervals since the peer was last seen, cut toward zero. */
  function Missed(cfg: Config, p: Peer, now: int): int
    requires cfg.interval > 0
  {
    if now >= p.lastSeen then (now - p.lastSeen) / cfg.interval else -((p.lastSeen - now) / cfg.interval)
  }

  predicate GoesDead(cfg: Config, p: Peer, now: int)
    requires cfg.interval > 0
  {
    Missed(cfg, p, now) >= cfg.death && p.status != PresumedCompromised
  }

  predicate GoesSilent(cfg: Config, p: Peer, now: int)
    requires cfg.interval > 0
  {
    !GoesDead(cfg, p, now) && Missed(cfg, p, now) >= cfg.missed && p.status == Alive
  }

  function CheckPeer(cfg: Config, p: Peer, now: int): Peer
    requires cfg.interval > 0
  {
    if GoesDead(cfg, p, now) then p.(status := PresumedCompromised)
    else if GoesSilent(cfg, p, now) then p.(status := Silent)
    else p
  }

  function CheckAll(cfg: Config, peers: Peers, now: int): Peers
    requires cfg.interval > 0
  {
    map id | id in peers :: CheckPeer(cfg, peers[id], now)
  }

  class Node {
    var peers: Peers
    const cfg: Config
    const w: Wire

    constructor (cfg: Config, w: Wire, ids: set<string>, now: int)
      ensures this.cfg == cfg && this.w == w && peers == map id | id in ids :: Peer(now, 0, Alive)
    {
      this.cfg, this.w := cfg, w;
      peers := map id | id in ids :: Peer(now, 0, Alive);
    }

    method HandlePacket(data: Bytes, now: int)
      modifies this`peers
      ensures peers == Received(w, old(peers), data, now)
    {
      hide Decode;
      var h := Authentic(w, peers, data);
      if h.None? {
        return;
      }
      var id := h.value.peerId;
      if h.value.seqNo <= peers[id].lastSeq {
        return;
      }
      peers := peers[id := Peer(now, h.value.seqNo, Alive)];
    }

    /** checkPeers: every peer once, in no particular order; silent and dead name the peers whose
        callbacks are then made. */
    method CheckPeers(now: int) returns (silent: seq<string>, dead: seq<string>)
      requires cfg.interval > 0
      modifies this`peers
      ensures peers == CheckAll(cfg, old(peers), now)
      ensures Distinct(silent)
      ensures forall id :: id in silent <==> id in old(peers) && GoesSilent(cfg, old(peers)[id], now)
      ensures Distinct(dead)
      ensures forall id :: id in dead <==> id in old(peers) && GoesDead(cfg, old(peers)[id], now)
    {
      hide GoesDead, GoesSilent, Missed;
      silent, dead := [], [];
      var todo := peers.Keys;
      ghost var start := peers;
      while todo != {}
        invariant todo <= start.Keys == peers.Keys
        invariant forall id :: id in start ==>
                  peers[id] == if id in todo then start[id] else CheckPeer(cfg, start[id], now)
        invariant Distinct(silent)
        invariant forall id :: id in silent <==> id in start && id !in todo && GoesSilent(cfg, start[id], now)
        invariant Distinct(dead)
        invariant forall id :: id in dead <==> id in start && id !in todo && GoesDead(cfg, start[id], now)
        decreases |todo|
      {
        var id :| id in todo;
        var p := peers[id];
        NotBoth(cfg, p, now);
        if GoesDead(cfg, p, now) {
          dead := dead + [id];
        } else if GoesSilent(cfg, p, now) {
          silent := silent + [id];
        }
        peers := peers[id := CheckPeer(cfg, p, now)];
        todo := todo - {id};
      }
    }
  }

  ghost predicate Distinct(s: seq<string>) { forall i, j :: 0 <= i < j < |s| ==> s[i] != s[j] }

  lemma NotBoth(cfg: Config, p: Peer, now: int)
    requires cfg.interval > 0
    ensures !(GoesDead(cfg, p, now) && GoesSilent(cfg, p, now))
  {
  }

  // ----- runs

  datatype Event = Packet(data: Bytes, at: int) | Tick(at: int)

  /** The times of checks never go back. Nothing is asked of the times of packets: a check reads the clock
      before it takes the lock, so it may be older than a packet handled before it. */
  ghost predicate Run(cfg: Config, w: Wire, ids: set<string>, t0: int, tr: seq<Peers>, es: seq<Event>) {
    && cfg.interval > 0 && |tr| == |es| + 1
    && tr[0] == (map id | id in ids :: Peer(t0, 0, Alive))
    && (forall i :: 0 <= i < |es| && es[i].Tick? ==> t0 <= es[i].at)
    && (forall i, j :: 0 <= i < j < |es| && es[i].Tick? && es[j].Tick? ==> es[i].at <= es[j].at)
    && forall i :: 0 <= i < |es| ==>
         tr[i + 1] == match es[i]
                      case Packet(data, at) => Received(w, tr[i], data, at)
                      case Tick(at) => CheckAll(cfg, tr[i], at)
  }

  /** Step i accepts a packet of this peer. */
  ghost predicate AcceptedAt(w: Wire, tr: seq<Peers>, es: seq<Event>, i: nat, id: string)
    requires i < |es| && i < |tr|
  {
    es[i].Packet? && Fresh(w, tr[i], es[i].data, id)
  }

  /** What the elapsed intervals dictate. */
  function Dictated(cfg: Config, p: Peer, now: int): Status
    requires cfg.interval > 0
  {
    if Missed(cfg, p, now) >= cfg.death then PresumedCompromised
    else if Missed(cfg, p, now) >= cfg.missed then Silent
    else Alive
  }

  lemma MissedGrows(cfg: Config, p: Peer, now: int, later: int)
    requires cfg.interval > 0 && now <= later
    ensures Missed(cfg, p, now) <= Missed(cfg, p, later)
  {
    if p.lastSeen <= now {
      DivGrows(now - p.lastSeen, later - p.lastSeen, cfg.interval);
    } else if later < p.lastSeen {
      DivGrows(p.lastSeen - later, p.lastSeen - now, cfg.interval);
    }
  }

  lemma DivGrows(a: nat, b: nat, d: nat)
    requires a <= b && d > 0
    ensures a / d <= b / d
  {
    if a / d > b / d {
      MulLess(b / d, a / d, d);
    }
  }

  lemma {:induction false} MulLess(x: nat, y: nat, d: nat)
    requires x < y
    ensures x * d + d <= y * d
    decreases y - x
  {
    assert (y - 1) * d + d == y * d;
    if x + 1 < y {
      MulLess(x, y - 1, d);
    }
  }

  /** The status is never worse than the time since lastSeen has already dictated. */
  ghost predicate Earned(cfg: Config, p: Peer, now: int)
    requires cfg.interval > 0
  {
    && (p.status == PresumedCompromised ==> Missed(cfg, p, now) >= cfg.death)
    && (p.status == Silent ==> Missed(cfg, p, now) >= cfg.missed)
  }

  /** After a check the status is exactly the dictated one, for every setting of the thresholds. */
  lemma CheckGivesDictated(cfg: Config, p: Peer, now: int)
    requires cfg.interval > 0 && Earned(cfg, p, now)
    ensures CheckPeer(cfg, p, now).status == Dictated(cfg, p, now)
    ensures Earned(cfg, CheckPeer(cfg, p, now), now)
  {
    hide Missed;
    assert Missed(cfg, CheckPeer(cfg, p, now), now) == Missed(cfg, p, now)
        by { SameLastSeen(cfg, p, CheckPeer(cfg, p, now), now); }
  }

  lemma SameLastSeen(cfg: Config, p: Peer, q: Peer, now: int)
    requires cfg.interval > 0 && p.lastSeen == q.lastSeen
    ensures Missed(cfg, p, now) == Missed(cfg, q, now)
  {
  }

  lemma EarnedLater(cfg: Config, p: Peer, now: int, later: int)
    requires cfg.interval > 0 && Earned(cfg, p, now) && now <= later
    ensures Earned(cfg, p, later)
  {
    hide Missed;
    MissedGrows(cfg, p, now, later);
  }

  /** The time of the latest check before step i. */
  ghost function TimeAt(t0: int, es: seq<Event>, i: nat): int
    requires i <= |es|
  {
    if i == 0 then t0 else if es[i - 1].Tick? then es[i - 1].at else TimeAt(t0, es, i - 1)
  }

  lemma {:induction false} TimeRises(cfg: Config, w: Wire, ids: set<string>, t0: int, tr: seq<Peers>, es: seq<Event>,
                                     i: nat, j: nat)
    requires Run(cfg, w, ids, t0, tr, es) && i <= j < |es| && es[j].Tick?
    ensures TimeAt(t0, es, i) <= es[j].at
    decreases i
  {
    hide Authentic, Missed;
    if i > 0 && !es[i - 1].Tick? {
      TimeRises(cfg, w, ids, t0, tr, es, i - 1, j);
    }
  }

  /** No unknown peer ever enters, and every status is earned, at every point of every run. */
  lemma {:induction false} RunInv(cfg: Config, w: Wire, ids: set<string>, t0: int, tr: seq<Peers>, es: seq<Event>,
                                  i: nat)
    requires Run(cfg, w, ids, t0, tr, es) && i < |tr|
    ensures tr[i].Keys == ids
    ensures forall id :: id in tr[i] ==> Earned(cfg, tr[i][id], TimeAt(t0, es, i))
    decreases i
  {
    hide Authentic, Earned, Missed;
    if i == 0 {
      forall id | id in tr[0]
        ensures Earned(cfg, tr[0][id], t0)
      {
        NewPeerEarned(cfg, t0, tr[0][id]);
      }
    } else {
      RunInv(cfg, w, ids, t0, tr, es, i - 1);
      var before, now := TimeAt(t0, es, i - 1), TimeAt(t0, es, i);
      forall id | id in tr[i]
        ensures Earned(cfg, tr[i][id], now)
      {
        var p := tr[i - 1][id];
        if es[i - 1].Tick? {
          TimeRises(cfg, w, ids, t0, tr, es, i - 1, i - 1);
          EarnedLater(cfg, p, before, now);
          CheckGivesDictated(cfg, p, now);
        } else {
          NewPeerEarned(cfg, now, tr[i][id]);
        }
      }
    }
  }

  lemma NewPeerEarned(cfg: Config, now: int, p: Peer)
    requires cfg.interval > 0
    ensures p.status == Alive ==> Earned(cfg, p, now)
  {
  }

  /** After each check of a run, every peer's status is exactly what the elapsed intervals dictate. */
  lemma StatusIsDictatedAfterEachCheck(cfg: Config, w: Wire, ids: set<string>, t0: int, tr: seq<Peers>,
                                       es: seq<Event>, i: nat, id: string)
    requires Run(cfg, w, ids, t0, tr, es) && i < |es| && es[i].Tick? && id in ids
    ensures id in tr[i + 1]
    ensures tr[i + 1][id].status == Dictated(cfg, tr[i + 1][id], es[i].at)
  {
    hide Authentic, Earned, Missed;
    RunInv(cfg, w, ids, t0, tr, es, i);
    RunInv(cfg, w, ids, t0, tr, es, i + 1);
    var p := tr[i][id];
    TimeRises(cfg, w, ids, t0, tr, es, i, i);
    EarnedLater(cfg, p, TimeAt(t0, es, i), es[i].at);
    CheckGivesDictated(cfg, p, es[i].at);
    SameLastSeen(cfg, p, tr[i + 1][id], es[i].at);
  }

  /** Nothing but a fresh packet of that peer moves its number, and it only rises. */
  lemma {:induction false} NumbersRise(cfg: Config, w: Wire, ids: set<string>, t0: int, tr: seq<Peers>,
                                       es: seq<Event>, i: nat, j: nat, id: string)
    requires Run(cfg, w, ids, t0, tr, es) && i <= j < |tr| && id in ids
    ensures id in tr[i] && id in tr[j] && tr[i][id].lastSeq <= tr[j][id].lastSeq
    decreases j
  {
    hide Authentic, Earned, Missed;
    RunInv(cfg, w, ids, t0, tr, es, i);
    RunInv(cfg, w, ids, t0, tr, es, j);
    if i < j {
      NumbersRise(cfg, w, ids, t0, tr, es, i, j - 1, id);
    }
  }

  /** A peer's number or last-seen time changes only by a packet that decodes and carries a valid
      signature of that peer's own key. */
  lemma OnlySignedPacketsCount(cfg: Config, w: Wire, ids: set<string>, t0: int, tr: seq<Peers>, es: seq<Event>,
                               i: nat, id: string)
    requires Run(cfg, w, ids, t0, tr, es) && i < |es| && id in ids
    ensures id in tr[i] && id in tr[i + 1]
    ensures tr[i + 1][id].lastSeq != tr[i][id].lastSeq || tr[i + 1][id].lastSeen != tr[i][id].lastSeen ==>
              && es[i].Packet? && Decode(es[i].data).Ok?
              && var (payload, sig) := Decode(es[i].data).value;
              && w.keyOf(id).Some? && |w.keyOf(id).value| == 32 && w.verify(w.keyOf(id).value, payload, sig)
              && w.header(payload) == Some(Header(id, tr[i + 1][id].lastSeq))
  {
    hide Decode, Missed, Earned;
    RunInv(cfg, w, ids, t0, tr, es, i);
    RunInv(cfg, w, ids, t0, tr, es, i + 1);
  }

  /** The numbers of accepted packets of one peer strictly increase: no packet is accepted twice. */
  lemma AcceptedNumbersIncrease(cfg: Config, w: Wire, ids: set<string>, t0: int, tr: seq<Peers>, es: seq<Event>,
                                i: nat, j: nat, id: string)
    requires Run(cfg, w, ids, t0, tr, es) && i < j < |es|
    requires AcceptedAt(w, tr, es, i, id) && AcceptedAt(w, tr, es, j, id)
    ensures Authentic(w, tr[i], es[i].data).value.seqNo < Authentic(w, tr[j], es[j].data).value.seqNo
  {
    hide Authentic, Missed;
    RunInv(cfg, w, ids, t0, tr, es, i);
    NumbersRise(cfg, w, ids, t0, tr, es, i + 1, j, id);
  }

  // ----- what it means to be seen

  /** What a packet says, from its bytes alone: it decodes, names this peer, and carries a signature that verifies
      under this peer's key. */
  predicate FromPeer(w: Wire, data: Bytes, id: string) {
    && Decode(data).Ok? && id != "" && w.keyOf(id).Some? && |w.keyOf(id).value| == 32
    && var (payload, sig) := Decode(data).value;
       && w.header(payload).Some? && w.header(payload).value.peerId == id
       && w.verify(w.keyOf(id).value, payload, sig)
  }

  function NumberOf(w: Wire, data: Bytes, id: string): nat
    requires FromPeer(w, data, id)
  {
    w.header(Decode(data).value.0).value.seqNo
  }

  lemma FreshIffFromPeer(w: Wire, peers: Peers, data: Bytes, id: string)
    ensures Fresh(w, peers, data, id) <==>
            id in peers && FromPeer(w, data, id) && NumberOf(w, data, id) > peers[id].lastSeq
    ensures Fresh(w, peers, data, id) ==> Authentic(w, peers, data) == Some(Header(id, NumberOf(w, data, id)))
  {
    hide Decode;
  }

  /** When the last packet of this peer was accepted before step i, t0 if none was. */
  ghost function SeenAt(w: Wire, t0: int, tr: seq<Peers>, es: seq<Event>, i: nat, id: string): int
    requires i <= |es| <= |tr|
  {
    if i == 0 then t0
    else if AcceptedAt(w, tr, es, i - 1, id) then es[i - 1].at
    else SeenAt(w, t0, tr, es, i - 1, id)
  }

  /** The number of that packet, 0 if there was none. */
  ghost function NumberAt(w: Wire, tr: seq<Peers>, es: seq<Event>, i: nat, id: string): nat
    requires i <= |es| <= |tr|
  {
    if i == 0 then 0
    else if AcceptedAt(w, tr, es, i - 1, id) then
      FreshIffFromPeer(w, tr[i - 1], es[i - 1].data, id);
      NumberOf(w, es[i - 1].data, id)
    else NumberAt(w, tr, es, i - 1, id)
  }

  /** An accepted packet counts as being seen, and nothing else does: in every run a peer's last-seen time and
      number are those of its last accepted packet. */
  lemma {:induction false} SeenIsLastAccepted(cfg: Config, w: Wire, ids: set<string>, t0: int, tr: seq<Peers>,
                                              es: seq<Event>, i: nat, id: string)
    requires Run(cfg, w, ids, t0, tr, es) && i < |tr| && id in ids
    ensures id in tr[i]
    ensures tr[i][id].lastSeen == SeenAt(w, t0, tr, es, i, id) && tr[i][id].lastSeq == NumberAt(w, tr, es, i, id)
    decreases i
  {
    hide Authentic, Missed, FromPeer, NumberOf;
    RunInv(cfg, w, ids, t0, tr, es, i);
    if i > 0 {
      SeenIsLastAccepted(cfg, w, ids, t0, tr, es, i - 1, id);
      if es[i - 1].Packet? {
        FreshIffFromPeer(w, tr[i - 1], es[i - 1].data, id);
      }
    }
  }

  /** Earlier accepted numbers are at most this one, which is one of them if it is not 0. */
  lemma {:induction false} NumberAtIsHighest(cfg: Config, w: Wire, ids: set<string>, t0: int, tr: seq<Peers>,
                                             es: seq<Event>, i: nat, id: string)
    requires Run(cfg, w, ids, t0, tr, es) && i < |tr| && id in ids
    ensures forall k: nat :: k < i && AcceptedAt(w, tr, es, k, id) ==>
              FromPeer(w, es[k].data, id) && NumberOf(w, es[k].data, id) <= NumberAt(w, tr, es, i, id)
    ensures NumberAt(w, tr, es, i, id) == 0
            || exists k: nat :: k < i && AcceptedAt(w, tr, es, k, id) && FromPeer(w, es[k].data, id)
                                && NumberOf(w, es[k].data, id) == NumberAt(w, tr, es, i, id)
    decreases i
  {
    hide Authentic, Missed, FromPeer, NumberOf;
    if i > 0 {
      NumberAtIsHighest(cfg, w, ids, t0, tr, es, i - 1, id);
      SeenIsLastAccepted(cfg, w, ids, t0, tr, es, i - 1, id);
      if es[i - 1].Packet? {
        FreshIffFromPeer(w, tr[i - 1], es[i - 1].data, id);
      }
    }
  }

  /** Exactly which packets are accepted: those of a known peer that verify under its key and carry a number
      above 0 and above every number accepted from it before. */
  lemma AcceptedIffNewFromPeer(cfg: Config, w: Wire, ids: set<string>, t0: int, tr: seq<Peers>, es: seq<Event>,
                               i: nat, id: string)
    requires Run(cfg, w, ids, t0, tr, es) && i < |es|
    ensures AcceptedAt(w, tr, es, i, id) <==>
            && es[i].Packet? && id in ids && FromPeer(w, es[i].data, id) && NumberOf(w, es[i].data, id) > 0
            && forall k: nat :: k < i && AcceptedAt(w, tr, es, k, id) ==>
                 FromPeer(w, es[k].data, id) && NumberOf(w, es[k].data, id) < NumberOf(w, es[i].data, id)
  {
    hide Authentic, Missed, FromPeer, NumberOf;
    RunInv(cfg, w, ids, t0, tr, es, i);
    if es[i].Packet? && id in ids {
      FreshIffFromPeer(w, tr[i], es[i].data, id);
      SeenIsLastAccepted(cfg, w, ids, t0, tr, es, i, id);
      NumberAtIsHighest(cfg, w, ids, t0, tr, es, i, id);
    }
  }

  /** k whole intervals have passed exactly if the clock says so. */
  lemma MissedAtLeast(cfg: Config, p: Peer, now: int, k: nat)
    requires cfg.interval > 0 && k > 0
    ensures Missed(cfg, p, now) >= k <==> now >= p.lastSeen + k * cfg.interval
  {
    var i := cfg.interval;
    assert k * i >= i by { MulLess(0, k, i); }
    if now >= p.lastSeen {
      var d := now - p.lastSeen;
      var q := d / i;
      assert d == q * i + d % i;
      if q < k {
        MulLess(q, k, i);
      } else if k < q {
        MulLess(k, q, i);
      }
    } else {
      assert (p.lastSeen - now) / i >= 0;
    }
  }

  /** After each check: presumed compromised if death intervals have passed since its last accepted packet, silent
      if missed have, alive otherwise. */
  lemma StatusFollowsTheClock(cfg: Config, w: Wire, ids: set<string>, t0: int, tr: seq<Peers>, es: seq<Event>, i: nat,
                              id: string)
    requires Run(cfg, w, ids, t0, tr, es) && i < |es| && es[i].Tick? && id in ids && 0 < cfg.missed <= cfg.death
    ensures id in tr[i + 1]
    ensures var seen := SeenAt(w, t0, tr, es, i, id);
            tr[i + 1][id].status
            == if es[i].at >= seen + cfg.death * cfg.interval then PresumedCompromised
               else if es[i].at >= seen + cfg.missed * cfg.interval then Silent
               else Alive
  {
    hide Authentic, Missed, FromPeer, NumberOf;
    StatusIsDictatedAfterEachCheck(cfg, w, ids, t0, tr, es, i, id);
    SeenIsLastAccepted(cfg, w, ids, t0, tr, es, i + 1, id);
    MissedAtLeast(cfg, tr[i + 1][id], es[i].at, cfg.death);
    MissedAtLeast(cfg, tr[i + 1][id], es[i].at, cfg.missed);
  }

  /** A peer that was heard from less than missed intervals before every check is alive throughout and never
      reported. */
  lemma {:induction false} LivePeerIsNeverReported(cfg: Config, w: Wire, ids: set<string>, t0: int, tr: seq<Peers>,
                                                   es: seq<Event>, i: nat, id: string)
    requires Run(cfg, w, ids, t0, tr, es) && i < |tr| && id in ids && 0 < cfg.missed <= cfg.death
    requires forall j :: 0 <= j < |es| && es[j].Tick? ==>
               es[j].at < SeenAt(w, t0, tr, es, j, id) + cfg.missed * cfg.interval
    ensures id in tr[i] && tr[i][id].status == Alive
    ensures i < |es| && es[i].Tick? ==>
              !GoesSilent(cfg, tr[i][id], es[i].at) && !GoesDead(cfg, tr[i][id], es[i].at)
    decreases i
  {
    hide Authentic, Missed, FromPeer, NumberOf, Fresh;
    RunInv(cfg, w, ids, t0, tr, es, i);
    if i > 0 {
      LivePeerIsNeverReported(cfg, w, ids, t0, tr, es, i - 1, id);
    }
    if i < |es| && es[i].Tick? {
      SeenIsLastAccepted(cfg, w, ids, t0, tr, es, i, id);
      MissedAtLeast(cfg, tr[i][id], es[i].at, cfg.missed);
    }
  }

  /** Without an accepted packet a peer's status never gets better. */
  predicate NoBetter(s: Status, t: Status) { s == t || s == Alive || t == PresumedCompromised }

  lemma {:induction false} StatusOnlyWorsens(cfg: Config, w: Wire, ids: set<string>, t0: int, tr: seq<Peers>,
                                             es: seq<Event>, i: nat, j: nat, id: string)
    requires Run(cfg, w, ids, t0, tr, es) && i <= j < |tr| && id in ids
    requires forall k :: i <= k < j ==> !AcceptedAt(w, tr, es, k, id)
    ensures id in tr[i] && id in tr[j] && NoBetter(tr[i][id].status, tr[j][id].status)
    decreases j
  {
    hide Authentic, Missed, Earned;
    RunInv(cfg, w, ids, t0, tr, es, i);
    RunInv(cfg, w, ids, t0, tr, es, j);
    if i < j {
      StatusOnlyWorsens(cfg, w, ids, t0, tr, es, i, j - 1, id);
      assert !AcceptedAt(w, tr, es, j - 1, id);
    }
  }

  /** onSilent, and likewise onDeath, fires at most once between two accepted packets of a peer. */
  lemma CallbacksFireOnce(cfg: Config, w: Wire, ids: set<string>, t0: int, tr: seq<Peers>, es: seq<Event>, i: nat,
                          j: nat, id: string)
    requires Run(cfg, w, ids, t0, tr, es) && i < j < |es| && es[i].Tick? && es[j].Tick? && id in ids
    requires id in tr[i] && id in tr[j]
    requires (GoesSilent(cfg, tr[i][id], es[i].at) && GoesSilent(cfg, tr[j][id], es[j].at))
             || (GoesDead(cfg, tr[i][id], es[i].at) && GoesDead(cfg, tr[j][id], es[j].at))
    ensures exists k :: i < k < j && AcceptedAt(w, tr, es, k, id)
  {
    hide Authentic, Missed, Earned, Fresh;
    RunInv(cfg, w, ids, t0, tr, es, i + 1);
    assert tr[i + 1][id] == CheckPeer(cfg, tr[i][id], es[i].at);
    if forall k :: i + 1 <= k < j ==> !AcceptedAt(w, tr, es, k, id) {
      StatusOnlyWorsens(cfg, w, ids, t0, tr, es, i + 1, j, id);
      assert false;
    }
  }
}
