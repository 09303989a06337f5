/** The byte layout of witness.log: records sealed by AES-GCM, each behind a 4-byte big-endian
    length (Append's frame and readLog). */
module Framing {
  import opened Bytes
  import opened Records
  import opened Sequences

  const MAX_FRAME := 0x400_0000 // 64 MiB

  predicate Fits(sealed: Bytes) { 1 <= |sealed| <= MAX_FRAME }

  /** The length is cut to 32 bits, as the source's conversion does. */
  function Frame(sealed: Bytes): (b: Bytes)
    ensures |b| == 4 + |sealed|
  {
    BigEndian(|sealed|, 4) + sealed
  }

  function EncodeLog(rs: seq<Bytes>): Bytes {
    if |rs| == 0 then [] else EncodeLog(rs[..|rs| - 1]) + Frame(rs[|rs| - 1])
  }

  ghost predicate AllFit(rs: seq<Bytes>) { forall i :: 0 <= i < |rs| ==> Fits(rs[i]) }

  /** Length of the sealed record of a complete frame at the front of b. */
  function NextFrame(b: Bytes): (n: Option<nat>)
    ensures n.Some? ==> 1 <= n.value <= MAX_FRAME && 4 + n.value <= |b|
  {
    if |b| < 4 then None
    else
      var n := FromBigEndian(b[..4]);
      if n == 0 || n > MAX_FRAME || 4 + n > |b| then None else Some(n)
  }

  /** All complete frames from the front of b, up to the first place where none starts. */
  function SplitFrames(b: Bytes): (rs: seq<Bytes>)
    decreases |b|
  {
    match NextFrame(b)
    case None => []
    case Some(n) => [b[4..4 + n]] + SplitFrames(b[4 + n..])
  }

  lemma NextOfFrame(s: Bytes, t: Bytes)
    requires Fits(s)
    ensures NextFrame(Frame(s) + t) == Some(|s|)
    ensures (Frame(s) + t)[4..4 + |s|] == s && (Frame(s) + t)[4 + |s|..] == t
  {
    Widths();
    BigEndianRoundTrip(|s|, 4);
    Assoc(BigEndian(|s|, 4), s, t);
    Halves(BigEndian(|s|, 4), s + t);
    Halves(Frame(s), t);
    DropSlice(Frame(s) + t, 4, 0, |s|);
    Halves(s, t);
  }

  lemma {:induction false} SplitInvertsEncode(rs: seq<Bytes>, t: Bytes)
    requires AllFit(rs)
    ensures SplitFrames(EncodeLog(rs) + t) == rs + SplitFrames(t)
    decreases |rs|
  {
    hide Frame, NextFrame;
    if |rs| == 0 {
      assert EncodeLog(rs) + t == t;
    } else {
      var front, s := rs[..|rs| - 1], rs[|rs| - 1];
      var tail := Frame(s) + t;
      Assoc(EncodeLog(front), Frame(s), t);
      SplitInvertsEncode(front, tail);
      NextOfFrame(s, t);
      Assoc(front, [s], SplitFrames(t));
      LastSplit(rs);
    }
  }

  lemma {:induction false} EncodeConcat(a: seq<Bytes>, b: seq<Bytes>)
    ensures EncodeLog(a + b) == EncodeLog(a) + EncodeLog(b)
    decreases |b|
  {
    hide Frame, NextFrame;
    if |b| == 0 {
      assert a + b == a;
    } else {
      var m := |b| - 1;
      ConcatTake(a, b, |a| + m);
      EncodeConcat(a, b[..m]);
      Assoc(EncodeLog(a), EncodeLog(b[..m]), Frame(b[m]));
    }
  }

  lemma EncodeOne(s: Bytes)
    ensures EncodeLog([s]) == Frame(s)
  {
    assert [s][..0] == [];
    Empty(Frame(s));
  }

  lemma FrontFrame(b: Bytes)
    requires NextFrame(b).Some?
    ensures var n := NextFrame(b).value; Frame(b[4..4 + n]) == b[..4 + n]
  {
    var n := NextFrame(b).value;
    FromBigEndianRoundTrip(b[..4]);
    Cut(b[..4 + n], 4);
  }

  /** Every byte string is a run of frames and a tail that starts no frame. */
  lemma {:induction false} EncodeInvertsSplit(b: Bytes)
    ensures AllFit(SplitFrames(b))
    ensures EncodeLog(SplitFrames(b)) <= b
    ensures NextFrame(b[|EncodeLog(SplitFrames(b))|..]) == None
    decreases |b|
  {
    hide Frame, NextFrame;
    if NextFrame(b).Some? {
      var n := NextFrame(b).value;
      var s, rest := b[4..4 + n], b[4 + n..];
      EncodeInvertsSplit(rest);
      EncodeConcat([s], SplitFrames(rest));
      EncodeOne(s);
      FrontFrame(b);
      var k := |EncodeLog(SplitFrames(rest))|;
      Cut(b, 4 + n);
      DropDrop(b, 4 + n, k);
    }
  }

  /** It is one in no other way. */
  lemma FramesAreUnique(b: Bytes, rs: seq<Bytes>, t: Bytes)
    requires AllFit(rs) && NextFrame(t) == None && b == EncodeLog(rs) + t
    ensures rs == SplitFrames(b) && t == b[|EncodeLog(SplitFrames(b))|..]
  {
    hide NextFrame, EncodeLog;
    SplitInvertsEncode(rs, t);
    Empty(rs);
    Halves(EncodeLog(rs), t);
  }

  /** Bytes a torn write can leave: a strict prefix of one frame. */
  ghost predicate Torn(t: Bytes) {
    exists s: Bytes, k: nat :: Fits(s) && k < 4 + |s| && t == Frame(s)[..k]
  }

  lemma TornHoldsNoFrame(t: Bytes)
    requires Torn(t)
    ensures NextFrame(t) == None
  {
    var s: Bytes, k: nat :| Fits(s) && k < 4 + |s| && t == Frame(s)[..k];
    if k >= 4 {
      Widths();
      BigEndianRoundTrip(|s|, 4);
      assert t[..4] == BigEndian(|s|, 4);
    }
  }

  // ----- reading the log

  /** What readLog reports: readable entries, the offset just past each, the offset just past the
      last complete frame, and the file size. */
  datatype LogRead = LogRead(entries: seq<Entry>, ends: seq<nat>, frames: nat, size: nat)

  function Unseal(c: Suite, key: Bytes, sealed: Bytes): Option<Entry> {
    match c.open(sealed, key)
    case None => None
    case Some(plain) => c.decode(plain)
  }

  function Readable(c: Suite, key: Bytes, rs: seq<Bytes>): seq<Entry> {
    if |rs| == 0 then []
    else
      var before := Readable(c, key, rs[..|rs| - 1]);
      match Unseal(c, key, rs[|rs| - 1])
      case None => before
      case Some(e) => before + [e]
  }

  function Ends(c: Suite, key: Bytes, rs: seq<Bytes>): (ends: seq<nat>)
    ensures |ends| == |Readable(c, key, rs)|
    ensures forall i :: 0 <= i < |ends| ==> ends[i] <= |EncodeLog(rs)|
  {
    if |rs| == 0 then []
    else
      var before := Ends(c, key, rs[..|rs| - 1]);
      if Unseal(c, key, rs[|rs| - 1]) == None then before else before + [|EncodeLog(rs)|]
  }

  /** The positions at are exactly those of the records that unseal, in order, and es and ends hold the
      entry of each and the offset just past it. */
  ghost predicate FindsAll(c: Suite, key: Bytes, rs: seq<Bytes>, es: seq<Entry>, ends: seq<nat>, at: seq<nat>) {
    && |at| == |es| == |ends|
    && (forall j, k :: 0 <= j < k < |at| ==> at[j] < at[k])
    && (forall j :: 0 <= j < |at| ==>
          at[j] < |rs| && Unseal(c, key, rs[at[j]]) == Some(es[j]) && ends[j] == |EncodeLog(rs[..at[j] + 1])|)
    && (forall i :: 0 <= i < |rs| ==> (Unseal(c, key, rs[i]).Some? <==> i in at))
  }

  lemma FindsOneMore(c: Suite, key: Bytes, rs: seq<Bytes>, s: Bytes, es: seq<Entry>, ends: seq<nat>, at: seq<nat>)
    requires FindsAll(c, key, rs, es, ends, at)
    ensures match Unseal(c, key, s)
            case None => FindsAll(c, key, rs + [s], es, ends, at)
            case Some(e) => FindsAll(c, key, rs + [s], es + [e], ends + [|EncodeLog(rs + [s])|], at + [|rs|])
  {
    hide Unseal, EncodeLog;
    assert |rs| !in at;
    var more := rs + [s];
    assert forall k :: 0 <= k <= |rs| ==> more[..k] == rs[..k];
    assert more[..|rs| + 1] == more;
  }

  /** Reading hides nothing: every whole frame that unseals is found, whatever unreadable frames lie before
      or after it. */
  lemma {:induction false} ReadsEveryReadable(c: Suite, key: Bytes, rs: seq<Bytes>) returns (at: seq<nat>)
    ensures FindsAll(c, key, rs, Readable(c, key, rs), Ends(c, key, rs), at)
    decreases |rs|
  {
    at := [];
    if |rs| > 0 {
      hide Unseal, EncodeLog, FindsAll;
      var m := |rs| - 1;
      at := ReadsEveryReadable(c, key, rs[..m]);
      FindsOneMore(c, key, rs[..m], rs[m], Readable(c, key, rs[..m]), Ends(c, key, rs[..m]), at);
      LastSplit(rs);
      if Unseal(c, key, rs[m]).Some? {
        at := at + [m];
      }
    }
  }

  function ReadLog(c: Suite, key: Bytes, view: Bytes, size: nat): (r: LogRead)
    ensures |r.entries| == |r.ends|
    ensures forall i :: 0 <= i < |r.ends| ==> r.ends[i] <= r.frames <= |view|
  {
    EncodeInvertsSplit(view);
    var rs := SplitFrames(view);
    LogRead(Readable(c, key, rs), Ends(c, key, rs), |EncodeLog(rs)|, size)
  }

  lemma ScanStep(view: Bytes, off: nat, done: seq<Bytes>)
    requires off <= |view| && NextFrame(view[off..]).Some?
    requires SplitFrames(view) == done + SplitFrames(view[off..])
    ensures var n := NextFrame(view[off..]).value;
            SplitFrames(view) == (done + [view[off + 4..off + 4 + n]]) + SplitFrames(view[off + 4 + n..])
  {
    hide Frame, NextFrame;
    var n := NextFrame(view[off..]).value;
    DropSlice(view, off, 4, 4 + n);
    DropDrop(view, off, 4 + n);
    Assoc(done, [view[off + 4..off + 4 + n]], SplitFrames(view[off + 4 + n..]));
  }

  /** The read loop over the bytes it sees (view) and the size stat reported beforehand. */
  method Scan(c: Suite, key: Bytes, view: Bytes, size: nat) returns (r: LogRead)
    ensures r == ReadLog(c, key, view, size)
  {
    hide Frame, NextFrame;
    var entries: seq<Entry>, ends: seq<nat>, off := [], [], 0;
    ghost var done: seq<Bytes> := [];
    while NextFrame(view[off..]).Some?
      invariant 0 <= off <= |view|
      invariant off == |EncodeLog(done)|
      invariant SplitFrames(view) == done + SplitFrames(view[off..])
      invariant entries == Readable(c, key, done) && ends == Ends(c, key, done)
      decreases |view| - off
    {
      var n := NextFrame(view[off..]).value;
      var sealed := view[off + 4..off + 4 + n];
      ghost var next := done + [sealed];
      ScanStep(view, off, done);
      Snoc(done, sealed);
      off := off + 4 + n;
      var e := Unseal(c, key, sealed);
      if e.Some? {
        entries := entries + [e.value];
        ends := ends + [off];
      }
      done := next;
    }
    Empty(done);
    r := LogRead(entries, ends, off, size);
  }

  /** rs is a log of readable records holding exactly es. */
  ghost predicate Holds(c: Suite, key: Bytes, rs: seq<Bytes>, es: seq<Entry>) {
    && |rs| == |es|
    && AllFit(rs)
    && forall i :: 0 <= i < |rs| ==> Unseal(c, key, rs[i]) == Some(es[i])
  }

  lemma {:induction false} HeldRecordsAreReadable(c: Suite, key: Bytes, rs: seq<Bytes>, es: seq<Entry>)
    requires Holds(c, key, rs, es)
    ensures Readable(c, key, rs) == es
    decreases |rs|
  {
    hide Frame, NextFrame, EncodeLog, Unseal;
    if |rs| > 0 {
      var m := |rs| - 1;
      HeldRecordsAreReadable(c, key, rs[..m], es[..m]);
      LastSplit(es);
    }
  }

  lemma {:induction false} HeldRecordsEnd(c: Suite, key: Bytes, rs: seq<Bytes>, es: seq<Entry>, i: nat)
    requires Holds(c, key, rs, es) && i < |es|
    ensures |Ends(c, key, rs)| == |es| && Ends(c, key, rs)[i] == |EncodeLog(rs[..i + 1])|
    decreases |rs|
  {
    hide Frame, NextFrame, EncodeLog, Unseal, Readable;
    var m := |rs| - 1;
    HeldRecordsAreReadable(c, key, rs, es);
    HeldRecordsAreReadable(c, key, rs[..m], es[..m]);
    if i < m {
      HeldRecordsEnd(c, key, rs[..m], es[..m], i);
      TakeTake(rs, i + 1, m);
    } else {
      assert rs[..i + 1] == rs;
    }
  }

  lemma HeldRecordsAreRead(c: Suite, key: Bytes, rs: seq<Bytes>, es: seq<Entry>)
    requires Holds(c, key, rs, es)
    ensures Readable(c, key, rs) == es
    ensures forall i :: 0 <= i < |es| ==> Ends(c, key, rs)[i] == |EncodeLog(rs[..i + 1])|
  {
    hide EncodeLog, Readable, Ends, Unseal, Fits;
    HeldRecordsAreReadable(c, key, rs, es);
    forall i | 0 <= i < |es|
      ensures Ends(c, key, rs)[i] == |EncodeLog(rs[..i + 1])|
    {
      HeldRecordsEnd(c, key, rs, es, i);
    }
  }

  /** What readers see beyond the records a log is known to hold never disturbs those records. */
  lemma {:induction false} ReadableExtends(c: Suite, key: Bytes, a: seq<Bytes>, b: seq<Bytes>)
    ensures Readable(c, key, a) <= Readable(c, key, a + b)
    decreases |b|
  {
    hide Frame, NextFrame, EncodeLog, Unseal;
    if |b| == 0 {
      Empty(a);
    } else {
      var m := |b| - 1;
      ReadableExtends(c, key, a, b[..m]);
      ConcatTake(a, b, |a| + m);
      assert Readable(c, key, a + b[..m]) <= Readable(c, key, a + b);
    }
  }

  lemma {:induction false} EndsExtend(c: Suite, key: Bytes, a: seq<Bytes>, b: seq<Bytes>)
    ensures Ends(c, key, a) <= Ends(c, key, a + b)
    decreases |b|
  {
    hide Frame, NextFrame, EncodeLog, Unseal, Readable;
    if |b| == 0 {
      Empty(a);
    } else {
      var m := |b| - 1;
      EndsExtend(c, key, a, b[..m]);
      ConcatTake(a, b, |a| + m);
      assert Ends(c, key, a + b[..m]) <= Ends(c, key, a + b);
    }
  }

  /** Reading any bytes that begin with a known log returns that log's entries first, each with
      its true end offset. */
  lemma ReadLogOfKnownPrefix(c: Suite, key: Bytes, rs: seq<Bytes>, es: seq<Entry>, t: Bytes, size: nat)
    requires Holds(c, key, rs, es)
    ensures var r := ReadLog(c, key, EncodeLog(rs) + t, size);
            && es <= r.entries
            && (|es| > 0 ==> r.ends[|es| - 1] == |EncodeLog(rs)|)
            && r.size == size
  {
    hide Frame, NextFrame;
    SplitInvertsEncode(rs, t);
    HeldRecordsAreRead(c, key, rs, es);
    ReadableExtends(c, key, rs, SplitFrames(t));
    EndsExtend(c, key, rs, SplitFrames(t));
    if |es| > 0 {
      assert rs[..|rs|] == rs;
      var ends := Ends(c, key, rs);
      assert ends[|es| - 1] == Ends(c, key, rs + SplitFrames(t))[|es| - 1];
    }
  }

  /** A log followed by a tail that starts no frame reads back exactly. */
  lemma ReadLogRoundTrip(c: Suite, key: Bytes, rs: seq<Bytes>, es: seq<Entry>, t: Bytes, size: nat)
    requires Holds(c, key, rs, es) && NextFrame(t) == None
    ensures var r := ReadLog(c, key, EncodeLog(rs) + t, size);
            && r.entries == es && |r.ends| == |es|
            && (forall i :: 0 <= i < |es| ==> r.ends[i] == |EncodeLog(rs[..i + 1])|)
            && r.frames == |EncodeLog(rs)|
            && r.size == size
  {
    hide Frame, NextFrame;
    SplitInvertsEncode(rs, t);
    Empty(rs);
    HeldRecordsAreRead(c, key, rs, es);
  }
}
