/** A suite and a signer that meet everything assumed of them, so that the theorems are about something:
    records sealed in the clear, entries encoded field by field in unary. */
module Instance {
  import opened Bytes
  import opened Records
  import opened Framing
  import opened Sequences
  import opened Scenarios

  function Unary(n: nat): (b: Bytes)
    ensures |b| == n + 1
  {
    if n == 0 then [0] else [1] + Unary(n - 1)
  }

  function Cat(ns: seq<nat>): Bytes { if |ns| == 0 then [] else Unary(ns[0]) + Cat(ns[1..]) }

  /** A list of numbers, its length first. */
  function Code(ns: seq<nat>): Bytes { Unary(|ns|) + Cat(ns) }

  lemma {:induction false} UnaryCuts(n: nat, m: nat, t: Bytes, u: Bytes)
    requires Unary(n) + t == Unary(m) + u
    ensures n == m && t == u
    decreases n
  {
    assert (Unary(n) + t)[0] == Unary(n)[0] && (Unary(m) + u)[0] == Unary(m)[0];
    Halves(Unary(n), t);
    Halves(Unary(m), u);
    if n > 0 && m > 0 {
      ConcatDrop(Unary(n), t, 1);
      ConcatDrop(Unary(m), u, 1);
      assert Unary(n)[1..] == Unary(n - 1) && Unary(m)[1..] == Unary(m - 1);
      UnaryCuts(n - 1, m - 1, t, u);
    }
  }

  lemma {:induction false} CatCuts(ns: seq<nat>, ms: seq<nat>, t: Bytes, u: Bytes)
    requires |ns| == |ms| && Cat(ns) + t == Cat(ms) + u
    ensures ns == ms && t == u
    decreases |ns|
  {
    hide Unary;
    if |ns| == 0 {
      Empty(t);
      Empty(u);
    } else {
      Assoc(Unary(ns[0]), Cat(ns[1..]), t);
      Assoc(Unary(ms[0]), Cat(ms[1..]), u);
      UnaryCuts(ns[0], ms[0], Cat(ns[1..]) + t, Cat(ms[1..]) + u);
      CatCuts(ns[1..], ms[1..], t, u);
      ConsSlice(ns, 0, |ns|);
      ConsSlice(ms, 0, |ms|);
    }
  }

  lemma CodeCuts(ns: seq<nat>, ms: seq<nat>, t: Bytes, u: Bytes)
    requires Code(ns) + t == Code(ms) + u
    ensures ns == ms && t == u
  {
    hide Unary, Cat;
    Assoc(Unary(|ns|), Cat(ns), t);
    Assoc(Unary(|ms|), Cat(ms), u);
    UnaryCuts(|ns|, |ms|, Cat(ns) + t, Cat(ms) + u);
    CatCuts(ns, ms, t, u);
  }

  function Chars(s: string): (ns: seq<nat>)
    ensures |ns| == |s| && forall i :: 0 <= i < |s| ==> ns[i] == s[i] as int
  {
    seq(|s|, i requires 0 <= i < |s| => s[i] as int)
  }

  lemma CharsInjective(s: string, t: string)
    requires Chars(s) == Chars(t)
    ensures s == t
  {
    assert forall i :: 0 <= i < |s| ==> Chars(s)[i] == Chars(t)[i];
  }

  function Numbers(e: Entry): seq<nat> { [e.seqNo, if e.ts < 0 then 0 else e.ts, if e.ts < 0 then -e.ts else 0] }

  function EncodeEntry(e: Entry): Bytes {
    Code(Numbers(e)) + (Code(Chars(e.level)) + (Code(Chars(e.event)) + (Code(Chars(e.source)) + (Code(e.data) + []))))
  }

  lemma EncodeEntryInjective(e: Entry, e': Entry)
    requires EncodeEntry(e) == EncodeEntry(e')
    ensures e == e'
  {
    hide Code, Chars;
    var (d, d') := (Code(e.data) + [], Code(e'.data) + []);
    var (s, s') := (Code(Chars(e.source)) + d, Code(Chars(e'.source)) + d');
    var (v, v') := (Code(Chars(e.event)) + s, Code(Chars(e'.event)) + s');
    CodeCuts(Numbers(e), Numbers(e'), Code(Chars(e.level)) + v, Code(Chars(e'.level)) + v');
    CodeCuts(Chars(e.level), Chars(e'.level), v, v');
    CodeCuts(Chars(e.event), Chars(e'.event), s, s');
    CodeCuts(Chars(e.source), Chars(e'.source), d, d');
    CodeCuts(e.data, e'.data, [], []);
    CharsInjective(e.level, e'.level);
    CharsInjective(e.event, e'.event);
    CharsInjective(e.source, e'.source);
    assert Numbers(e)[0] == e.seqNo && Numbers(e')[0] == e'.seqNo;
    assert e.ts == Numbers(e)[1] as int - Numbers(e)[2] as int == e'.ts;
  }

  ghost function DecodeEntry(b: Bytes): Option<Entry> {
    if exists e :: EncodeEntry(e) == b then
      var e :| EncodeEntry(e) == b;
      Some(e)
    else None
  }

  ghost function PlainSuite(): Suite {
    Suite(hash := (b: Bytes) => ZERO_DIGEST,
          mac := (k: Bytes, b: Bytes) => ZERO_DIGEST,
          seal := (nonce: Bytes, k: Bytes, p: Bytes) => [0] + p,
          open := (b: Bytes, k: Bytes) => if |b| == 0 then None else Some(b[1..]),
          verify := (k: Bytes, m: Bytes, sig: Bytes) => true,
          encode := (e: Entry) => EncodeEntry(e),
          decode := (b: Bytes) => DecodeEntry(b))
  }

  function Plain(n: nat, ts: nat): Entry { Entry(n, ts, "", "", "", []) }

  /** Everything the scenarios ask for is met: by this suite, a signer, and small records. */
  lemma AssumptionsCanBeMet(key: Bytes, nonce: Bytes)
    returns (c: Suite, signer: Signer, e1: Entry, e: Entry, e2: Entry, e3: Entry)
    ensures Lawful(c) && GoodSigner(c, signer)
    ensures e1.seqNo == 1 && e.seqNo == 2 && e2.seqNo == 2 && e3.seqNo == 3 && e != e2
    ensures Fits(Sealed(c, key, e1, nonce)) && Fits(Sealed(c, key, e, nonce))
    ensures Fits(Sealed(c, key, e2, nonce)) && Fits(Sealed(c, key, e3, nonce))
  {
    c := PlainSuite();
    signer := Signer(ZERO_DIGEST, (m: Bytes) => ZERO_DIGEST + ZERO_DIGEST);
    e1, e, e2, e3 := Plain(1, 0), Plain(2, 0), Plain(2, 1), Plain(3, 0);
    PlainSuiteIsLawful();
    SmallRecordFits(e1, key, nonce);
    SmallRecordFits(e, key, nonce);
    SmallRecordFits(e2, key, nonce);
    SmallRecordFits(e3, key, nonce);
  }

  lemma PlainSuiteIsLawful()
    ensures Lawful(PlainSuite())
  {
    hide EncodeEntry;
    var c := PlainSuite();
    forall e: Entry
      ensures c.decode(c.encode(e)) == Some(e)
    {
      var d := DecodeEntry(EncodeEntry(e)).value;
      EncodeEntryInjective(d, e);
    }
    forall nonce: Bytes, key: Bytes, p: Bytes
      ensures c.open(c.seal(nonce, key, p), key) == Some(p)
    {
      Halves<byte>([0], p);
    }
  }

  lemma SmallRecordFits(e: Entry, key: Bytes, nonce: Bytes)
    requires e.seqNo <= 3 && 0 <= e.ts <= 1 && e.level == e.event == e.source == "" && e.data == []
    ensures Fits(Sealed(PlainSuite(), key, e, nonce))
  {
    assert Code([]) == Unary(0) + Cat([]);
    assert Chars("") == [];
    var ns := Numbers(e);
    assert |Cat(ns)| == |Unary(ns[0])| + |Unary(ns[1])| + |Unary(ns[2])| by {
      assert ns[1..][0] == ns[1] && ns[1..][1..] == [ns[2]] && [ns[2]][1..] == [];
      assert Cat([ns[2]]) == Unary(ns[2]) + Cat([]);
    }
  }
}
