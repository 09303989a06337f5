/** The RFC 6962 tree over 32-byte leaf hashes (internal/merkle). */
module Merkle {
  import opened Bytes

  const LEAF_PREFIX: byte := 0
  const NODE_PREFIX: byte := 1

  function LeafInput(data: Bytes): Bytes { [LEAF_PREFIX] + data }

  function NodeInput(left: Digest, right: Digest): Bytes { [NODE_PREFIX] + left + right }

  function HashLeaf(h: HashFn, data: Bytes): Digest { h(LeafInput(data)) }

  function HashNode(h: HashFn, left: Digest, right: Digest): Digest { h(NodeInput(left, right)) }

  lemma NodeInputInjective(l: Digest, r: Digest, l': Digest, r': Digest)
    requires NodeInput(l, r) == NodeInput(l', r')
    ensures l == l' && r == r'
  {
    assert NodeInput(l, r)[1..33] == l && NodeInput(l, r)[33..] == r;
    assert NodeInput(l', r')[1..33] == l' && NodeInput(l', r')[33..] == r';
  }

  // ----- the split point

  function Pow2(k: nat): (p: nat)
    ensures p > 0
  {
    if k == 0 then 1 else 2 * Pow2(k - 1)
  }

  ghost predicate IsPow2(n: nat) { exists k: nat :: n == Pow2(k) }

  lemma {:induction false} Pow2Ordered(a: nat, b: nat)
    ensures a < b ==> Pow2(a + 1) <= Pow2(b)
    ensures a <= b <==> Pow2(a) <= Pow2(b)
    decreases a + b
  {
    if a > 0 && b > 0 {
      Pow2Ordered(a - 1, b - 1);
    }
  }

  function Split(n: nat): (k: nat)
    requires n >= 2
    ensures 0 < k < n <= 2 * k
  {
    if n == 2 then 1 else 2 * Split((n + 1) / 2)
  }

  lemma {:induction false} SplitIsPow2(n: nat)
    requires n >= 2
    ensures IsPow2(Split(n))
  {
    if n == 2 {
      assert 1 == Pow2(0);
    } else {
      SplitIsPow2((n + 1) / 2);
      var b: nat :| Split((n + 1) / 2) == Pow2(b);
      assert Split(n) == Pow2(b + 1);
    }
  }

  /** Split is the largest power of two strictly below n, and nothing else is. */
  lemma SplitIsLargestPow2Below(n: nat, k: nat)
    requires n >= 2
    ensures k == Split(n) <==> IsPow2(k) && k < n && forall q: nat :: IsPow2(q) && q < n ==> q <= k
  {
    SplitIsPow2(n);
    var b: nat :| Split(n) == Pow2(b);
    forall q: nat | IsPow2(q) && q < n
      ensures q <= Split(n)
    {
      var a: nat :| q == Pow2(a);
      if b < a {
        Pow2Ordered(b, a);
      } else {
        Pow2Ordered(a, b);
      }
    }
  }

  /** The doubling loop: 0 for a tree of at most one leaf, the split point otherwise. */
  method SplitPoint(n: nat) returns (k: nat)
    ensures n <= 1 ==> k == 0
    ensures n >= 2 ==> IsPow2(k) && k < n <= 2 * k
    ensures n >= 2 ==> k == Split(n)
  {
    k := 1;
    ghost var b: nat := 0;
    while k < n
      invariant k == Pow2(b)
      invariant b > 0 ==> Pow2(b - 1) < n
      decreases n - k
    {
      k := k * 2;
      b := b + 1;
    }
    k := k / 2;
    if n >= 2 {
      assert k == Pow2(b - 1);
      forall q: nat | IsPow2(q) && q < n
        ensures q <= k
      {
        var a: nat :| q == Pow2(a);
        Pow2Ordered(b, a);
        Pow2Ordered(a, b - 1);
      }
      SplitIsLargestPow2Below(n, k);
    }
  }

  const TWO_62 := 0x4000_0000_0000_0000

  /** k <<= 1 on a 64-bit integer. */
  function Shifted(k: int): int {
    var u := (2 * k) % (4 * TWO_62);
    if u >= 2 * TWO_62 then u - 4 * TWO_62 else u
  }

  /** The loop variable after j passes. */
  function AfterPasses(j: nat): int { if j == 0 then 1 else Shifted(AfterPasses(j - 1)) }

  lemma FivePowers(j: nat)
    ensures Pow2(j + 5) == 32 * Pow2(j)
  {
    assert Pow2(j + 1) == 2 * Pow2(j);
    assert Pow2(j + 2) == 4 * Pow2(j);
    assert Pow2(j + 3) == 8 * Pow2(j);
    assert Pow2(j + 4) == 16 * Pow2(j);
  }

  lemma TenPowers(j: nat)
    ensures Pow2(j + 10) == 1024 * Pow2(j)
  {
    hide Pow2;
    FivePowers(j);
    FivePowers(j + 5);
  }

  lemma Pow2Of62()
    ensures Pow2(62) == TWO_62
  {
    assert Pow2(2) == 4;
    hide Pow2;
    TenPowers(2);
    TenPowers(12);
    TenPowers(22);
    TenPowers(32);
    TenPowers(42);
    TenPowers(52);
  }

  lemma ShiftDoubles(k: int)
    ensures 0 <= k < TWO_62 ==> Shifted(k) == 2 * k
    ensures Shifted(TWO_62) == -2 * TWO_62 && Shifted(-2 * TWO_62) == 0
  {
  }

  lemma {:induction false} PassesDouble(j: nat)
    ensures if j <= 62 then AfterPasses(j) == Pow2(j) <= TWO_62
            else AfterPasses(j) == if j == 63 then -2 * TWO_62 else 0
    decreases j
  {
    Pow2Of62();
    Pow2Ordered(j, 62);
    if j > 0 {
      PassesDouble(j - 1);
      Pow2Ordered(j - 1, 62);
      Pow2Ordered(62, j - 1);
      ShiftDoubles(AfterPasses(j - 1));
      hide Shifted;
      assert AfterPasses(j) == Shifted(AfterPasses(j - 1));
    }
  }

  /** On 64-bit integers the loop comes to an end exactly for n up to 2^62, and until then its variable is
      the power of two that the unbounded loop has; beyond, it overflows to 0 and never reaches n. */
  lemma SplitLoopEndsIff(n: int)
    requires -2 * TWO_62 <= n < 2 * TWO_62
    ensures (exists j: nat :: AfterPasses(j) >= n) <==> n <= TWO_62
    ensures forall j: nat :: j <= 62 ==> AfterPasses(j) == Pow2(j)
  {
    hide Pow2, AfterPasses;
    forall j: nat
      ensures AfterPasses(j) <= TWO_62 && (j <= 62 ==> AfterPasses(j) == Pow2(j))
    {
      PassesDouble(j);
    }
    Pow2Of62();
    assert AfterPasses(62) == TWO_62;
  }

  // ----- the root

  function Root(h: HashFn, leaves: seq<Digest>): Digest {
    if |leaves| == 0 then ZERO_DIGEST
    else if |leaves| == 1 then leaves[0]
    else
      var k := Split(|leaves|);
      HashNode(h, Root(h, leaves[..k]), Root(h, leaves[k..]))
  }

  /** The tree of section 2.1 of RFC 6962, byte for byte, on the smallest logs: leaves behind a 0 byte, nodes
      behind a 1 byte with the left child first. The root of no leaves is 32 zero bytes here. */
  lemma SmallRoots(h: HashFn, data: Bytes, a: Digest, b: Digest, c: Digest)
    ensures Root(h, []) == ZEROS_16 + ZEROS_16
    ensures HashLeaf(h, data) == h([0] + data) && Root(h, [a]) == a
    ensures Root(h, [a, b]) == h([1] + a + b)
    ensures Root(h, [a, b, c]) == h([1] + h([1] + a + b) + c)
  {
    var t := [a, b, c];
    assert [a, b][..1] == [a] && [a, b][1..] == [b];
    assert Split(3) == 2 && t[..2] == [a, b] && t[2..] == [c];
  }

  /** The strings hashed while computing Root. */
  ghost function NodeInputs(h: HashFn, leaves: seq<Digest>): set<Bytes> {
    if |leaves| < 2 then {}
    else
      var k := Split(|leaves|);
      {NodeInput(Root(h, leaves[..k]), Root(h, leaves[k..]))}
      + NodeInputs(h, leaves[..k]) + NodeInputs(h, leaves[k..])
  }

  /** Equal roots of equally long leaf lists: equal lists, or a collision between the two trees. */
  lemma {:induction false} RootBindsLeaves(h: HashFn, a: seq<Digest>, b: seq<Digest>)
    requires |a| == |b| && Root(h, a) == Root(h, b)
    ensures a == b || Collision(h, NodeInputs(h, a), NodeInputs(h, b))
    decreases |a|
  {
    hide Split, NodeInput;
    if |a| >= 2 {
      var k := Split(|a|);
      var x := NodeInput(Root(h, a[..k]), Root(h, a[k..]));
      var y := NodeInput(Root(h, b[..k]), Root(h, b[k..]));
      assert x in NodeInputs(h, a) && y in NodeInputs(h, b);
      if x == y {
        NodeInputInjective(Root(h, a[..k]), Root(h, a[k..]), Root(h, b[..k]), Root(h, b[k..]));
        RootBindsLeaves(h, a[..k], b[..k]);
        RootBindsLeaves(h, a[k..], b[k..]);
        NodeInputsOfParts(h, a);
        NodeInputsOfParts(h, b);
        if a[..k] == b[..k] && a[k..] == b[k..] {
          assert a == a[..k] + a[k..] && b == b[..k] + b[k..];
        } else if a[..k] != b[..k] {
          CollisionMonotone(h, NodeInputs(h, a[..k]), NodeInputs(h, b[..k]), NodeInputs(h, a), NodeInputs(h, b));
        } else {
          CollisionMonotone(h, NodeInputs(h, a[k..]), NodeInputs(h, b[k..]), NodeInputs(h, a), NodeInputs(h, b));
        }
      }
    }
  }

  function LeafHashes(h: HashFn, data: seq<Bytes>): (l: seq<Digest>)
    ensures |l| == |data|
  {
    seq(|data|, i requires 0 <= i < |data| => HashLeaf(h, data[i]))
  }

  ghost function LeafInputs(data: seq<Bytes>): set<Bytes> {
    set d | d in data :: LeafInput(d)
  }

  /** Every string hashed while computing the root of a log of records, leaves included. */
  ghost function TreeInputs(h: HashFn, data: seq<Bytes>): set<Bytes> {
    LeafInputs(data) + NodeInputs(h, LeafHashes(h, data))
  }

  lemma LeafHashesOfSlice(h: HashFn, data: seq<Bytes>, i: nat, j: nat)
    requires i <= j <= |data|
    ensures LeafHashes(h, data)[i..j] == LeafHashes(h, data[i..j])
  {
  }

  lemma NodeInputsOfParts(h: HashFn, leaves: seq<Digest>)
    requires |leaves| >= 2
    ensures var k := Split(|leaves|);
            NodeInputs(h, leaves[..k]) <= NodeInputs(h, leaves) && NodeInputs(h, leaves[k..]) <= NodeInputs(h, leaves)
  {
  }

  lemma LeafInputsOfSlice(data: seq<Bytes>, i: nat, j: nat)
    requires i <= j <= |data|
    ensures LeafInputs(data[i..j]) <= LeafInputs(data)
  {
    forall d | d in data[i..j]
      ensures d in data
    {
    }
  }

  lemma TreeInputsOfParts(h: HashFn, data: seq<Bytes>, k: nat)
    requires |data| >= 2 && k == Split(|data|)
    ensures LeafHashes(h, data)[..k] == LeafHashes(h, data[..k])
    ensures LeafHashes(h, data)[k..] == LeafHashes(h, data[k..])
    ensures TreeInputs(h, data[..k]) <= TreeInputs(h, data)
    ensures TreeInputs(h, data[k..]) <= TreeInputs(h, data)
  {
    hide LeafHashes, NodeInputs, LeafInputs, Split;
    LeafHashesOfSlice(h, data, 0, k);
    LeafHashesOfSlice(h, data, k, |data|);
    assert data[..k] == data[0..k] && data[k..] == data[k..|data|];
    NodeInputsOfParts(h, LeafHashes(h, data));
    LeafInputsOfSlice(data, 0, k);
    LeafInputsOfSlice(data, k, |data|);
  }

  /** The root of a non-empty log binds the whole record sequence and its length: the leaf and
      node prefixes keep a record from standing in for a subtree. */
  lemma {:induction false} RootBindsRecords(h: HashFn, a: seq<Bytes>, b: seq<Bytes>)
    requires |a| > 0 && |b| > 0
    requires Root(h, LeafHashes(h, a)) == Root(h, LeafHashes(h, b))
    ensures a == b || Collision(h, TreeInputs(h, a), TreeInputs(h, b))
    decreases |a| + |b|
  {
    hide Split, TreeInputs, NodeInput, LeafHashes;
    var la, lb := LeafHashes(h, a), LeafHashes(h, b);
    var x := TopInput(h, a);
    var y := TopInput(h, b);
    if x == y {
      assert x[0] == y[0];
      if |a| == 1 {
        assert LeafInput(a[0])[1..] == a[0] && LeafInput(b[0])[1..] == b[0];
        assert a == [a[0]] && b == [b[0]];
      } else {
        var k, m := Split(|a|), Split(|b|);
        NodeInputInjective(Root(h, la[..k]), Root(h, la[k..]), Root(h, lb[..m]), Root(h, lb[m..]));
        TreeInputsOfParts(h, a, k);
        TreeInputsOfParts(h, b, m);
        RootBindsRecords(h, a[..k], b[..m]);
        RootBindsRecords(h, a[k..], b[m..]);
        if a[..k] == b[..m] && a[k..] == b[m..] {
          assert a == a[..k] + a[k..] && b == b[..m] + b[m..];
        } else if a[..k] != b[..m] {
          CollisionMonotone(h, TreeInputs(h, a[..k]), TreeInputs(h, b[..m]), TreeInputs(h, a), TreeInputs(h, b));
        } else {
          CollisionMonotone(h, TreeInputs(h, a[k..]), TreeInputs(h, b[m..]), TreeInputs(h, a), TreeInputs(h, b));
        }
      }
    }
  }

  /** The last string hashed for the root of a non-empty log. */
  ghost function TopInput(h: HashFn, data: seq<Bytes>): (x: Bytes)
    requires |data| > 0
    ensures x in TreeInputs(h, data) && h(x) == Root(h, LeafHashes(h, data)) && |x| > 0
    ensures x[0] == if |data| == 1 then LEAF_PREFIX else NODE_PREFIX
  {
    if |data| == 1 then LeafInput(data[0])
    else
      var l := LeafHashes(h, data);
      var k := Split(|data|);
      NodeInput(Root(h, l[..k]), Root(h, l[k..]))
  }

  // ----- inclusion proofs

  datatype Proof = Proof(index: nat, size: nat, path: seq<Digest>)

  datatype ProofError = IndexOutOfRange | EmptyProof | RootMismatch | PathTooShort

  function AuditPath(h: HashFn, leaves: seq<Digest>, index: nat): seq<Digest>
    requires index < |leaves|
    decreases |leaves|
  {
    if |leaves| == 1 then []
    else
      var k := Split(|leaves|);
      if index < k then AuditPath(h, leaves[..k], index) + [Root(h, leaves[k..])]
      else AuditPath(h, leaves[k..], index - k) + [Root(h, leaves[..k])]
  }

  /** None is the run-time panic of indexing an exhausted path. */
  function Recompute(h: HashFn, leaf: Digest, index: nat, size: nat, path: seq<Digest>): Option<Digest>
    requires index < size
    decreases size
  {
    if size == 1 then Some(leaf)
    else if |path| == 0 then None
    else
      var k := Split(size);
      var outer, inner := path[|path| - 1], path[..|path| - 1];
      if index < k then
        match Recompute(h, leaf, index, k, inner)
        case None => None
        case Some(left) => Some(HashNode(h, left, outer))
      else
        match Recompute(h, leaf, index - k, size - k, inner)
        case None => None
        case Some(right) => Some(HashNode(h, outer, right))
  }

  function Prove(h: HashFn, leaves: seq<Digest>, index: nat): Result<Proof, ProofError> {
    if index >= |leaves| then Err(IndexOutOfRange)
    else Ok(Proof(index, |leaves|, AuditPath(h, leaves, index)))
  }

  function Verify(h: HashFn, root: Digest, leaf: Digest, p: Proof): Result<(), ProofError> {
    if p.size == 0 then Err(EmptyProof)
    else if p.index >= p.size then Err(IndexOutOfRange)
    else
      match Recompute(h, leaf, p.index, p.size, p.path)
      case None => Err(PathTooShort)
      case Some(r) => if r == root then Ok(()) else Err(RootMismatch)
  }

  lemma {:induction false} AuditPathRecomputes(h: HashFn, leaves: seq<Digest>, index: nat)
    requires index < |leaves|
    ensures Recompute(h, leaves[index], index, |leaves|, AuditPath(h, leaves, index)) == Some(Root(h, leaves))
    decreases |leaves|
  {
    if |leaves| == 1 {
      AuditPathOfOne(h, leaves);
    } else {
      hide Split, HashNode, Recompute, Root, AuditPath;
      var k := Split(|leaves|);
      var left, right := leaves[..k], leaves[k..];
      RootSplits(h, leaves);
      AuditPathSplits(h, leaves, index);
      if index < k {
        AuditPathRecomputes(h, left, index);
        RecomputeLast(h, left[index], index, |leaves|, AuditPath(h, left, index), Root(h, right));
      } else {
        AuditPathRecomputes(h, right, index - k);
        RecomputeLast(h, right[index - k], index, |leaves|, AuditPath(h, right, index - k), Root(h, left));
      }
    }
  }

  lemma AuditPathOfOne(h: HashFn, leaves: seq<Digest>)
    requires |leaves| == 1
    ensures Recompute(h, leaves[0], 0, 1, AuditPath(h, leaves, 0)) == Some(Root(h, leaves))
  {
  }

  lemma AuditPathSplits(h: HashFn, leaves: seq<Digest>, index: nat)
    requires index < |leaves| && |leaves| > 1
    ensures var k := Split(|leaves|);
            AuditPath(h, leaves, index)
            == if index < k then AuditPath(h, leaves[..k], index) + [Root(h, leaves[k..])]
               else AuditPath(h, leaves[k..], index - k) + [Root(h, leaves[..k])]
  {
  }

  lemma RootSplits(h: HashFn, leaves: seq<Digest>)
    requires |leaves| > 1
    ensures var k := Split(|leaves|); Root(h, leaves) == HashNode(h, Root(h, leaves[..k]), Root(h, leaves[k..]))
  {
  }

  /** The last element of a path is used at the top. */
  lemma RecomputeLast(h: HashFn, leaf: Digest, index: nat, size: nat, inner: seq<Digest>, outer: Digest)
    requires index < size && size > 1
    ensures var k := Split(size);
            var sub := if index < k then Recompute(h, leaf, index, k, inner)
                       else Recompute(h, leaf, index - k, size - k, inner);
            sub.Some? ==>
              Recompute(h, leaf, index, size, inner + [outer])
              == Some(if index < k then HashNode(h, sub.value, outer) else HashNode(h, outer, sub.value))
  {
    hide Split, HashNode;
    assert (inner + [outer])[..|inner|] == inner;
  }

  /** Levels between the leaf and the root, read off the shape of the tree alone. */
  ghost function Depth(index: nat, size: nat): nat
    requires index < size
    decreases size
  {
    if size == 1 then 0
    else if index < Split(size) then 1 + Depth(index, Split(size))
    else 1 + Depth(index - Split(size), size - Split(size))
  }

  lemma {:induction false} AuditPathLength(h: HashFn, leaves: seq<Digest>, index: nat)
    requires index < |leaves|
    ensures |AuditPath(h, leaves, index)| == Depth(index, |leaves|)
    decreases |leaves|
  {
    if |leaves| > 1 {
      var k := Split(|leaves|);
      if index < k {
        AuditPathLength(h, leaves[..k], index);
      } else {
        AuditPathLength(h, leaves[k..], index - k);
      }
    }
  }

  lemma HalvesFit(size: nat, b: nat)
    requires 2 <= size <= Pow2(b)
    ensures b > 0 && Split(size) <= Pow2(b - 1)
  {
    SplitIsPow2(size);
    var a: nat :| Split(size) == Pow2(a);
    Pow2Ordered(b, a);
    Pow2Ordered(a, b - 1);
  }

  lemma {:induction false} DepthBound(index: nat, size: nat, b: nat)
    requires index < size <= Pow2(b)
    ensures Depth(index, size) <= b
    decreases size
  {
    if size > 1 {
      HalvesFit(size, b);
      var k := Split(size);
      if index < k {
        DepthBound(index, k, b - 1);
      } else {
        DepthBound(index - k, size - k, b - 1);
      }
    }
  }

  lemma DepthIsLogarithmic(index: nat, size: nat)
    requires index < size
    ensures Depth(index, size) >= 1 ==> Pow2(Depth(index, size) - 1) < size
  {
    var p := Depth(index, size);
    if p >= 1 && size <= Pow2(p - 1) {
      DepthBound(index, size, p - 1);
    }
  }

  /** Prove succeeds exactly on the indices of the tree, and its proof verifies and is short. */
  lemma ProofsAreComplete(h: HashFn, leaves: seq<Digest>, index: nat)
    ensures Prove(h, leaves, index).Ok? <==> index < |leaves|
    ensures index < |leaves| ==>
              var p := Prove(h, leaves, index).value;
              && Verify(h, Root(h, leaves), leaves[index], p) == Ok(())
              && p.index == index && p.size == |leaves|
              && (|p.path| >= 1 ==> Pow2(|p.path| - 1) < |leaves|)
  {
    hide AuditPath, Recompute, Root, Depth, Pow2;
    if index < |leaves| {
      AuditPathRecomputes(h, leaves, index);
      AuditPathLength(h, leaves, index);
      DepthIsLogarithmic(index, |leaves|);
    }
  }

  /** The strings hashed while recomputing a root from a proof. */
  ghost function PathInputs(h: HashFn, leaf: Digest, index: nat, size: nat, path: seq<Digest>): set<Bytes>
    requires index < size
    decreases size
  {
    if size == 1 || |path| == 0 then {}
    else
      var k := Split(size);
      var outer, inner := path[|path| - 1], path[..|path| - 1];
      var i, m := if index < k then index else index - k, if index < k then k else size - k;
      var below := PathInputs(h, leaf, i, m, inner);
      var sub := Recompute(h, leaf, i, m, inner);
      if sub == None then below
      else if index < k then below + {NodeInput(sub.value, outer)}
      else below + {NodeInput(outer, sub.value)}
  }

  lemma {:induction false} RecomputeBindsLeaf(h: HashFn, leaves: seq<Digest>, leaf: Digest, index: nat,
                                              path: seq<Digest>)
    requires index < |leaves|
    requires Recompute(h, leaf, index, |leaves|, path) == Some(Root(h, leaves))
    ensures leaf == leaves[index] || Collision(h, PathInputs(h, leaf, index, |leaves|, path), NodeInputs(h, leaves))
    decreases |leaves|
  {
    if |leaves| > 1 {
      var k := Split(|leaves|);
      var outer, inner := path[|path| - 1], path[..|path| - 1];
      var part := if index < k then leaves[..k] else leaves[k..];
      var i := if index < k then index else index - k;
      var sub := Recompute(h, leaf, i, |part|, inner).value;
      var (l, r) := if index < k then (sub, outer) else (outer, sub);
      var y := NodeInput(Root(h, leaves[..k]), Root(h, leaves[k..]));
      assert NodeInput(l, r) in PathInputs(h, leaf, index, |leaves|, path) && y in NodeInputs(h, leaves);
      if NodeInput(l, r) == y {
        NodeInputInjective(l, r, Root(h, leaves[..k]), Root(h, leaves[k..]));
        RecomputeBindsLeaf(h, part, leaf, i, inner);
        if leaf != part[i] {
          CollisionMonotone(h, PathInputs(h, leaf, i, |part|, inner), NodeInputs(h, part),
                            PathInputs(h, leaf, index, |leaves|, path), NodeInputs(h, leaves));
        }
      }
    }
  }

  /** A proof whose size is the tree's and that verifies against its root shows the leaf at its
      index, or exposes a collision. */
  lemma ProofsAreSound(h: HashFn, leaves: seq<Digest>, leaf: Digest, p: Proof)
    requires p.size == |leaves|
    requires Verify(h, Root(h, leaves), leaf, p).Ok?
    ensures p.index < |leaves|
    ensures leaf == leaves[p.index] || Collision(h, PathInputs(h, leaf, p.index, p.size, p.path), NodeInputs(h, leaves))
  {
    RecomputeBindsLeaf(h, leaves, leaf, p.index, p.path);
  }

  // ----- what a proof of any size shows

  /** The turns from the root to leaf index of a tree of this size, true for right. */
  function Route(index: nat, size: nat): seq<bool>
    requires index < size
    decreases size
  {
    if size == 1 then []
    else if index < Split(size) then [false] + Route(index, Split(size))
    else [true] + Route(index - Split(size), size - Split(size))
  }

  /** Two leaves of one tree have different routes. */
  lemma {:induction false} RouteInjective(i: nat, j: nat, size: nat)
    requires i < size && j < size && Route(i, size) == Route(j, size)
    ensures i == j
    decreases size
  {
    hide Route, Split;
    RouteTail(i, size);
    RouteTail(j, size);
    if size > 1 {
      var k := Split(size);
      if i < k {
        RouteInjective(i, j, k);
      } else {
        RouteInjective(i - k, j - k, size - k);
      }
    }
  }

  /** The first turn, and the rest, which is the route through the half it leads to. */
  lemma RouteTail(index: nat, size: nat)
    requires index < size
    ensures var r := Route(index, size);
            if size == 1 then r == []
            else
              var k := Split(size);
              && |r| > 0 && r[0] == (index >= k)
              && r[1..] == if index < k then Route(index, k) else Route(index - k, size - k)
  {
  }

  /** Of index and size, recomputing a root uses the route alone. */
  lemma {:induction false} RecomputeFollowsRoute(h: HashFn, leaf: Digest, i: nat, n: nat, j: nat, m: nat,
                                                 path: seq<Digest>)
    requires i < n && j < m && Route(i, n) == Route(j, m)
    ensures Recompute(h, leaf, i, n, path) == Recompute(h, leaf, j, m, path)
    decreases n
  {
    hide Route, Split, HashNode;
    RouteTail(i, n);
    RouteTail(j, m);
    if n > 1 && |path| > 0 {
      var k, l, inner := Split(n), Split(m), path[..|path| - 1];
      if i < k {
        RecomputeFollowsRoute(h, leaf, i, k, j, l, inner);
      } else {
        RecomputeFollowsRoute(h, leaf, i - k, n - k, j - l, m - l, inner);
      }
    }
  }

  /** The record is the one at the end of this route in the tree over data. */
  ghost predicate AtRoute(data: seq<Bytes>, record: Bytes, route: seq<bool>) {
    exists m: nat :: m < |data| && Route(m, |data|) == route && data[m] == record
  }

  /** AtRoute of one half is AtRoute of the whole, one turn further down. */
  lemma AtRouteInHalf(data: seq<Bytes>, record: Bytes, index: nat, size: nat)
    requires |data| >= 2 && index < size && size > 1
    requires var k, l := Split(|data|), Split(size);
             if index < l then AtRoute(data[..k], record, Route(index, l))
             else AtRoute(data[k..], record, Route(index - l, size - l))
    ensures AtRoute(data, record, Route(index, size))
  {
    hide Split, Route;
    var n, k, l := |data|, Split(|data|), Split(size);
    var start, end := if index < l then 0 else k, if index < l then k else n;
    var m: nat :| m < end - start && data[start + m] == record
                  && Route(m, end - start) == if index < l then Route(index, l) else Route(index - l, size - l);
    RouteTail(start + m, n);
    RouteTail(index, size);
    SameTurns(Route(start + m, n), Route(index, size));
  }

  lemma SameTurns(r: seq<bool>, r': seq<bool>)
    requires |r| > 0 && |r'| > 0 && r[0] == r'[0] && r[1..] == r'[1..]
    ensures r == r'
  {
    assert r == [r[0]] + r[1..] && r' == [r'[0]] + r'[1..];
  }

  /** The strings hashed while a proof for a record is checked, the record's own leaf included. */
  ghost function ProofInputs(h: HashFn, record: Bytes, p: Proof): set<Bytes>
    requires p.index < p.size
  {
    {LeafInput(record)} + PathInputs(h, HashLeaf(h, record), p.index, p.size, p.path)
  }

  /** Whatever size it claims, a verifying proof for a record shows the record at the end of its
      route in the real tree, or strings hashed for the proof and for the tree collide. */
  lemma {:induction false} ProofShowsRoute(h: HashFn, data: seq<Bytes>, record: Bytes, p: Proof)
    requires |data| > 0 && Verify(h, Root(h, LeafHashes(h, data)), HashLeaf(h, record), p).Ok?
    ensures p.index < p.size
    ensures AtRoute(data, record, Route(p.index, p.size))
            || Collision(h, ProofInputs(h, record, p), TreeInputs(h, data))
    decreases |data|
  {
    var top := TopInput(h, data);
    var x := if p.size == 1 then LeafInput(record) else LastInput(h, record, p);
    assert x in ProofInputs(h, record, p) && h(x) == h(top);
    if x == top {
      if |data| == 1 {
        assert LeafInput(record)[1..] == record && LeafInput(data[0])[1..] == data[0];
        assert Route(0, |data|) == Route(p.index, p.size);
      } else {
        ProofShowsRouteBelow(h, data, record, p);
      }
    }
  }

  /** The last string hashed while a proof of more than one leaf is checked. */
  ghost function LastInput(h: HashFn, record: Bytes, p: Proof): (x: Bytes)
    requires p.index < p.size && p.size > 1
    requires Recompute(h, HashLeaf(h, record), p.index, p.size, p.path).Some?
    ensures x in ProofInputs(h, record, p) && |x| > 0 && x[0] == NODE_PREFIX
    ensures Recompute(h, HashLeaf(h, record), p.index, p.size, p.path) == Some(h(x))
  {
    var q, outer := Below(p), p.path[|p.path| - 1];
    var sub := Recompute(h, HashLeaf(h, record), q.index, q.size, q.path).value;
    if p.index < Split(p.size) then NodeInput(sub, outer) else NodeInput(outer, sub)
  }

  /** The proof without its outermost step. */
  function Below(p: Proof): Proof
    requires p.index < p.size && p.size > 1 && |p.path| > 0
  {
    var k, inner := Split(p.size), p.path[..|p.path| - 1];
    if p.index < k then Proof(p.index, k, inner) else Proof(p.index - k, p.size - k, inner)
  }

  lemma ProofInputsBelow(h: HashFn, record: Bytes, p: Proof)
    requires p.index < p.size && p.size > 1 && |p.path| > 0
    ensures ProofInputs(h, record, Below(p)) <= ProofInputs(h, record, p)
  {
    hide Split, Recompute, LeafInput, NodeInput;
  }

  /** If the last strings hashed are the same, the inner proof gives the root of the half it leads to. */
  lemma SameTopSameHalf(h: HashFn, leaf: Digest, p: Proof, left: Digest, right: Digest)
    requires p.index < p.size && p.size > 1 && |p.path| > 0
    requires var sub, outer := Recompute(h, leaf, Below(p).index, Below(p).size, Below(p).path), p.path[|p.path| - 1];
             sub.Some? && NodeInput(left, right)
                          == if p.index < Split(p.size) then NodeInput(sub.value, outer)
                             else NodeInput(outer, sub.value)
    ensures Verify(h, if p.index < Split(p.size) then left else right, leaf, Below(p)).Ok?
  {
    hide Split, NodeInput, Recompute;
    var sub, outer := Recompute(h, leaf, Below(p).index, Below(p).size, Below(p).path).value, p.path[|p.path| - 1];
    if p.index < Split(p.size) {
      NodeInputInjective(left, right, sub, outer);
    } else {
      NodeInputInjective(left, right, outer, sub);
    }
  }

  lemma {:induction false} ProofShowsRouteBelow(h: HashFn, data: seq<Bytes>, record: Bytes, p: Proof)
    requires |data| >= 2 && p.index < p.size && p.size > 1
    requires Recompute(h, HashLeaf(h, record), p.index, p.size, p.path).Some?
    requires LastInput(h, record, p) == TopInput(h, data)
    ensures AtRoute(data, record, Route(p.index, p.size))
            || Collision(h, ProofInputs(h, record, p), TreeInputs(h, data))
    decreases |data|, 0
  {
    hide Split, Route, ProofInputs, TreeInputs, LeafHashes, Root, HashLeaf, Verify, AtRoute, NodeInput;
    var k, q, leaves := Split(|data|), Below(p), LeafHashes(h, data);
    TreeInputsOfParts(h, data, k);
    ProofInputsBelow(h, record, p);
    SameTopSameHalf(h, HashLeaf(h, record), p, Root(h, leaves[..k]), Root(h, leaves[k..]));
    var half := if p.index < Split(p.size) then data[..k] else data[k..];
    ProofShowsRoute(h, half, record, q);
    if AtRoute(half, record, Route(q.index, q.size)) {
      AtRouteInHalf(data, record, p.index, p.size);
    } else {
      CollisionMonotone(h, ProofInputs(h, record, q), TreeInputs(h, half),
                        ProofInputs(h, record, p), TreeInputs(h, data));
    }
  }

  /** The honest path of leaf m also verifies under every index and size with the route of leaf m. */
  lemma RouteVerifies(h: HashFn, leaves: seq<Digest>, m: nat, index: nat, size: nat)
    requires m < |leaves| && index < size && Route(index, size) == Route(m, |leaves|)
    ensures Verify(h, Root(h, leaves), leaves[m], Proof(index, size, AuditPath(h, leaves, m))).Ok?
  {
    AuditPathRecomputes(h, leaves, m);
    RecomputeFollowsRoute(h, leaves[m], m, |leaves|, index, size, AuditPath(h, leaves, m));
  }

  /** A proof that claims this index and size verifies for the record against the tree over data. */
  ghost predicate Passes(h: HashFn, data: seq<Bytes>, record: Bytes, p: Proof, index: nat, size: nat) {
    p.index == index && p.size == size && Verify(h, Root(h, LeafHashes(h, data)), HashLeaf(h, record), p).Ok?
  }

  /** The route of (index, size) ends at a leaf other than index in a tree of n leaves. */
  ghost predicate Misleads(index: nat, size: nat, n: nat)
    requires index < size
  {
    exists m: nat :: m < n && m != index && Route(m, n) == Route(index, size)
  }

  /** Exactly when index and size bind the position in a tree over distinct records, up to collisions:
      proofs that claim them can show a record other than the one at index if and only if their route
      ends at another leaf; they show the one at index if and only if it ends there. */
  lemma PositionBoundIffNotMisled(h: HashFn, data: seq<Bytes>, index: nat, size: nat)
    requires index < size && index < |data|
    requires forall i, j :: 0 <= i < j < |data| ==> data[i] != data[j]
    ensures Misleads(index, size, |data|) ==>
              exists record, p :: record != data[index] && Passes(h, data, record, p, index, size)
    ensures forall record, p :: record != data[index] && Passes(h, data, record, p, index, size) ==>
              Misleads(index, size, |data|) || Collision(h, ProofInputs(h, record, p), TreeInputs(h, data))
    ensures Route(index, size) == Route(index, |data|) ==>
              !Misleads(index, size, |data|) && exists p :: Passes(h, data, data[index], p, index, size)
    ensures forall p :: Passes(h, data, data[index], p, index, size) ==>
              Route(index, size) == Route(index, |data|)
              || Collision(h, ProofInputs(h, data[index], p), TreeInputs(h, data))
  {
    hide Verify, Route, ProofInputs, TreeInputs, Root;
    var n, leaves := |data|, LeafHashes(h, data);
    forall m: nat | m < n && Route(m, n) == Route(index, size)
      ensures Passes(h, data, data[m], Proof(index, size, AuditPath(h, leaves, m)), index, size)
    {
      RouteVerifies(h, leaves, m, index, size);
    }
    if Route(index, size) == Route(index, n) && Misleads(index, size, n) {
      var m: nat :| m < n && m != index && Route(m, n) == Route(index, size);
      RouteInjective(m, index, n);
    }
    forall record, p | Passes(h, data, record, p, index, size)
      ensures AtRoute(data, record, Route(index, size)) || Collision(h, ProofInputs(h, record, p), TreeInputs(h, data))
    {
      ProofShowsRoute(h, data, record, p);
    }
  }

  /** Without the size the position is not bound: the last leaf of every three-leaf tree also
      verifies as leaf 1 of a tree of size 2. */
  lemma SizeMustMatch(h: HashFn, a: Digest, b: Digest, c: Digest)
    ensures Verify(h, Root(h, [a, b, c]), c, Proof(1, 2, [HashNode(h, a, b)])).Ok?
    ensures Verify(h, Root(h, [a, b, c]), c, Prove(h, [a, b, c], 2).value).Ok?
  {
    var t := [a, b, c];
    assert Split(3) == 2 && Route(2, 3) == [true] + Route(0, 1) == Route(1, 2);
    assert t[..2] == [a, b] && t[2..] == [c] && [a, b][..1] == [a] && [a, b][1..] == [b];
    assert AuditPath(h, [c], 0) + [Root(h, [a, b])] == [HashNode(h, a, b)];
    RouteVerifies(h, t, 2, 1, 2);
    ProofsAreComplete(h, t, 2);
  }

  /** Verify panics exactly on paths shorter than the leaf's depth, and only the last Depth
      elements count: surplus elements in front never change the verdict. */
  lemma {:induction false} RecomputeUsesExactlyDepth(h: HashFn, leaf: Digest, index: nat, size: nat, path: seq<Digest>)
    requires index < size
    ensures Recompute(h, leaf, index, size, path) == None <==> |path| < Depth(index, size)
    ensures |path| >= Depth(index, size) ==>
              Recompute(h, leaf, index, size, path)
              == Recompute(h, leaf, index, size, path[|path| - Depth(index, size)..])
    decreases size
  {
    hide Split, HashNode;
    if size > 1 && |path| > 0 {
      var k := Split(size);
      var i, m := if index < k then index else index - k, if index < k then k else size - k;
      var inner := path[..|path| - 1];
      RecomputeUsesExactlyDepth(h, leaf, i, m, inner);
      var d := Depth(index, size);
      assert d == 1 + Depth(i, m);
      if |path| >= d {
        var used := path[|path| - d..];
        assert used[|used| - 1] == path[|path| - 1];
        assert used[..|used| - 1] == inner[|inner| - Depth(i, m)..];
      }
    }
  }
}
