/** witness audit: a mirror's tree head compared with the local log (cmd/witness/audit.go). */
module Audit {
  import opened Bytes
  import opened Records
  import opened Store
  import opened Protocol
  import opened StoreSafety
  import Merkle

  datatype Verdict =
    | Agree | Behind(lag: nat)              // exit 0
    | MirrorAhead | RootDiffers | Rewritten // exit 1: investigate for tampering
    | Stalled(lag: nat)                     // exit 2

  predicate Failed(v: Verdict) { v.MirrorAhead? || v.RootDiffers? || v.Rewritten? }

  /** leaves is the local log as the read-only open returned it; maxLag 0 turns the lag limit off. */
  function Compare(c: Suite, leaves: seq<Digest>, remote: TreeHead, maxLag: nat): Verdict {
    if remote.size > |leaves| then MirrorAhead
    else if remote.size == |leaves| then
      (if Merkle.Root(c.hash, leaves) != remote.root then RootDiffers else Agree)
    else if Merkle.Root(c.hash, leaves[..remote.size]) != remote.root then Rewritten
    else
      var lag := |leaves| - remote.size;
      if maxLag > 0 && lag > maxLag then Stalled(lag) else Behind(lag)
  }

  /** For every head the witness ever published, whenever it reached the mirror: the audit calls it
      tampering exactly when that head is longer than the local snapshot, that is, when it was
      published after the snapshot was taken. It never does for an earlier head. */
  lemma HonestMirrorFailsIffAhead(c: Suite, key: Bytes, tr: seq<State>, ls: seq<Label>, i: nat, j: nat, k: nat,
                                  maxLag: nat)
    requires Run(c, key, tr, ls) && i < |tr| && j < |tr| && k < |tr[j].heads|
    ensures var v := Compare(c, Leaves(c, tr[i].entries), tr[j].heads[k], maxLag);
            && (Failed(v) <==> |tr[i].entries| < k + 1)
            && (j <= i ==> !Failed(v))
            && v == (if k + 1 > |tr[i].entries| then MirrorAhead
                     else if k + 1 == |tr[i].entries| then Agree
                     else if maxLag > 0 && |tr[i].entries| - (k + 1) > maxLag then Stalled(|tr[i].entries| - (k + 1))
                     else Behind(|tr[i].entries| - (k + 1)))
  {
    hide Run, Merkle.Root, Leaves;
    var h, leaves := tr[j].heads[k], Leaves(c, tr[i].entries);
    var late := if i < j then j else i;
    PublishedHeadsStayPrefixes(c, key, tr, ls, j, late, k);
    if j <= i {
      PublishedHeadsStayPrefixes(c, key, tr, ls, j, i, k);
    }
    SnapshotIsPrefix(c, key, tr, ls, i, late);
    if k + 1 <= |tr[i].entries| {
      LeavesOfPrefix(c, tr[late].entries, k + 1);
      LeavesOfPrefix(c, tr[i].entries, k + 1);
      assert tr[late].entries[..k + 1] == tr[i].entries[..k + 1];
      assert leaves[..|leaves|] == leaves;
    }
  }

  /** A mirror whose root is not the root of the local records it claims to cover is never passed, whatever
      lag is tolerated, and the verdict says whether it is as long as the local log. */
  lemma OtherRootIsNamed(c: Suite, entries: seq<Entry>, remote: TreeHead, maxLag: nat)
    requires remote.size <= |entries| && remote.root != RootOf(c, entries[..remote.size])
    ensures Compare(c, Leaves(c, entries), remote, maxLag)
            == if remote.size == |entries| then RootDiffers else Rewritten
  {
    hide Merkle.Root;
    LeavesOfPrefix(c, entries, remote.size);
    assert Leaves(c, entries)[..|entries|] == Leaves(c, entries);
  }

  lemma SnapshotIsPrefix(c: Suite, key: Bytes, tr: seq<State>, ls: seq<Label>, i: nat, j: nat)
    requires Run(c, key, tr, ls) && i <= j < |tr|
    ensures tr[i].entries <= tr[j].entries
  {
    hide Run;
    HistoryGrows(c, key, tr, ls, i, j);
  }

  /** An audit that does not fail shows that the local log extends the mirror's: whatever non-empty
      entries the mirror's size and root stand for are the local log's first ones, or strings
      hashed for the two trees collide. */
  lemma PassingAuditMeansExtension(c: Suite, entries: seq<Entry>, mirrored: seq<Entry>, remote: TreeHead, maxLag: nat)
    requires Lawful(c) && !Failed(Compare(c, Leaves(c, entries), remote, maxLag))
    requires |mirrored| == remote.size > 0 && remote.root == RootOf(c, mirrored)
    ensures remote.size <= |entries|
    ensures mirrored == entries[..remote.size]
            || Collision(c.hash, Hashed(c, mirrored), Hashed(c, entries[..remote.size]))
  {
    hide Hashed, Merkle.Root;
    var n := remote.size;
    LeavesOfPrefix(c, entries, n);
    assert Leaves(c, entries)[..|entries|] == Leaves(c, entries);
    RootBindsEntries(c, mirrored, entries[..n]);
  }
}
