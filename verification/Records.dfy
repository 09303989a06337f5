/** Log records and the primitives the store is built on (internal/store, internal/encrypt). */
module Records {
  import opened Bytes
  import Merkle

  datatype Entry = Entry(seqNo: nat, ts: int, level: string, event: string, source: string, data: Bytes)

  /** Everything the store takes from libraries: BLAKE3 plain and keyed, AES-GCM, Ed25519
      verification, and the JSON encoding of an entry. */
  datatype Suite = Suite(
    hash: HashFn,
    mac: (Bytes, Bytes) -> Digest,
    seal: (Bytes, Bytes, Bytes) -> Bytes,
    open: (Bytes, Bytes) -> Option<Bytes>,
    verify: (Bytes, Bytes, Bytes) -> bool,
    encode: Entry -> Bytes,
    decode: Bytes -> Option<Entry>)

  /** Decryption undoes encryption under the same key, and decoding undoes encoding. */
  ghost predicate Lawful(c: Suite) {
    && (forall nonce, key, p :: c.open(c.seal(nonce, key, p), key) == Some(p))
    && (forall e :: c.decode(c.encode(e)) == Some(e))
  }

  /** A signing key. */
  datatype Signer = Signer(pub: Bytes, sign: Bytes -> Bytes)

  const PUBLIC_KEY_SIZE := 32
  const SIGNATURE_SIZE := 64

  ghost predicate GoodSigner(c: Suite, s: Signer) {
    && |s.pub| == PUBLIC_KEY_SIZE
    && forall m :: |s.sign(m)| == SIGNATURE_SIZE && c.verify(s.pub, m, s.sign(m))
  }

  function Encoded(c: Suite, es: seq<Entry>): (r: seq<Bytes>)
    ensures |r| == |es|
  {
    seq(|es|, i requires 0 <= i < |es| => c.encode(es[i]))
  }

  function Leaf(c: Suite, e: Entry): Digest { Merkle.HashLeaf(c.hash, c.encode(e)) }

  function Leaves(c: Suite, es: seq<Entry>): (r: seq<Digest>)
    ensures |r| == |es|
    ensures forall i :: 0 <= i < |es| ==> r[i] == Leaf(c, es[i])
  {
    seq(|es|, i requires 0 <= i < |es| => Leaf(c, es[i]))
  }

  function RootOf(c: Suite, es: seq<Entry>): Digest { Merkle.Root(c.hash, Leaves(c, es)) }

  /** The strings hashed for the root of these entries. */
  ghost function Hashed(c: Suite, es: seq<Entry>): set<Bytes> {
    Merkle.TreeInputs(c.hash, Encoded(c, es))
  }

  lemma LeavesExtend(c: Suite, es: seq<Entry>, e: Entry)
    ensures Leaves(c, es + [e]) == Leaves(c, es) + [Leaf(c, e)]
  {
  }

  lemma LeavesOfPrefix(c: Suite, es: seq<Entry>, n: nat)
    requires n <= |es|
    ensures Leaves(c, es)[..n] == Leaves(c, es[..n])
  {
  }

  /** A root binds the entries themselves, whatever their number. */
  lemma RootBindsEntries(c: Suite, a: seq<Entry>, b: seq<Entry>)
    requires Lawful(c) && |a| > 0 && |b| > 0 && RootOf(c, a) == RootOf(c, b)
    ensures a == b || Collision(c.hash, Hashed(c, a), Hashed(c, b))
  {
    assert Leaves(c, a) == Merkle.LeafHashes(c.hash, Encoded(c, a));
    assert Leaves(c, b) == Merkle.LeafHashes(c.hash, Encoded(c, b));
    Merkle.RootBindsRecords(c.hash, Encoded(c, a), Encoded(c, b));
    if Encoded(c, a) == Encoded(c, b) {
      forall i | 0 <= i < |a|
        ensures a[i] == b[i]
      {
        assert c.encode(a[i]) == Encoded(c, a)[i] == Encoded(c, b)[i] == c.encode(b[i]);
      }
    }
  }

  /** Sequence numbers are positive and rise strictly. */
  ghost predicate Rising(es: seq<Entry>) {
    && (forall i :: 0 <= i < |es| ==> es[i].seqNo > 0)
    && forall i, j :: 0 <= i < j < |es| ==> es[i].seqNo < es[j].seqNo
  }
}
