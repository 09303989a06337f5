/** Operator approvals of known drift (internal/accept): an event-sourced set and its index. */
module Accept {
  import opened Bytes
  import opened Sequences

  // ----- changes and the keys that pin them

  datatype Change = Change(kind: string, path: string, process: string, oldValue: string, newValue: string)

  const FILE_CHANGED := "file_changed"
  const MODE_CHANGED := "file_mode_changed"
  const FILE_REMOVED := "file_removed"
  const NEW_PROCESS := "new_process"

  const NUL := "\0"

  /** itemKey: what an approval pins for one change, or None for a malformed change. */
  function ItemKey(c: Change): Option<string> {
    if c.kind == FILE_CHANGED || c.kind == MODE_CHANGED then
      (if c.path == "" || c.newValue == "" then None else Some(c.kind + (NUL + (c.path + (NUL + c.newValue)))))
    else if c.kind == FILE_REMOVED then
      (if c.path == "" then None else Some(c.kind + (NUL + c.path)))
    else if c.kind == NEW_PROCESS then
      (if c.process == "" then None else Some(c.kind + (NUL + c.process)))
    else None
  }

  /** What the approval of a change is meant to cover: the exact observed values. */
  datatype Pin =
    | FilePin(kind: string, path: string, value: string)
    | RemovedPin(path: string)
    | ProcessPin(name: string)

  function PinOf(c: Change): Pin
    requires ItemKey(c).Some?
  {
    if c.kind == FILE_REMOVED then RemovedPin(c.path)
    else if c.kind == NEW_PROCESS then ProcessPin(c.process)
    else FilePin(c.kind, c.path, c.newValue)
  }

  /** The path has a NUL after its first character, or the value one before its last. */
  predicate Splittable(c: Change) {
    && (c.kind == FILE_CHANGED || c.kind == MODE_CHANGED)
    && ((exists i :: 0 < i < |c.path| && c.path[i] == '\0')
        || (exists i :: 0 <= i < |c.newValue| - 1 && c.newValue[i] == '\0'))
  }

  /** How many characters come before the first NUL. */
  function BeforeNul(s: string): nat { if |s| == 0 || s[0] == '\0' then 0 else 1 + BeforeNul(s[1..]) }

  lemma {:induction false} FirstNulIsAfter(a: string, x: string)
    requires '\0' !in a
    ensures BeforeNul(a + (NUL + x)) == |a|
    decreases |a|
  {
    if |a| > 0 {
      FirstNulIsAfter(a[1..], x);
      ConcatDrop(a, NUL + x, 1);
    } else {
      Empty(NUL + x);
    }
  }

  lemma CutAtNul(a: string, x: string, b: string, y: string)
    requires '\0' !in a && '\0' !in b && a + (NUL + x) == b + (NUL + y)
    ensures a == b && x == y
  {
    FirstNulIsAfter(a, x);
    FirstNulIsAfter(b, y);
    Halves(a, NUL + x);
    Halves(b, NUL + y);
    Halves(NUL, x);
    Halves(NUL, y);
  }

  lemma KindsHoldNoNul()
    ensures '\0' !in FILE_CHANGED && '\0' !in MODE_CHANGED && '\0' !in FILE_REMOVED && '\0' !in NEW_PROCESS
  {
  }

  /** The part of a key after its kind. */
  function Body(c: Change): string
    requires ItemKey(c).Some?
  {
    if c.kind == FILE_REMOVED then c.path else if c.kind == NEW_PROCESS then c.process else c.path + (NUL + c.newValue)
  }

  lemma SameKeySameKind(c: Change, d: Change)
    requires ItemKey(c).Some? && ItemKey(d) == ItemKey(c)
    ensures c.kind == d.kind && Body(c) == Body(d)
  {
    KindsHoldNoNul();
    assert ItemKey(c).value == c.kind + (NUL + Body(c)) && ItemKey(d).value == d.kind + (NUL + Body(d));
    CutAtNul(c.kind, Body(c), d.kind, Body(d));
  }

  lemma SameBodySamePin(c: Change, d: Change)
    requires ItemKey(c).Some? && ItemKey(d).Some? && c.kind == d.kind && Body(c) == Body(d)
    requires c.kind == FILE_CHANGED || c.kind == MODE_CHANGED
    ensures Splittable(c) || PinOf(c) == PinOf(d)
  {
    var s := c.path + (NUL + c.newValue);
    var t := d.path + (NUL + d.newValue);
    var p, q := |c.path|, |d.path|;
    assert s == t && t[q] == '\0';
    if q < p {
      assert s[q] == c.path[q];
    } else if p < q {
      assert s[q] == c.newValue[q - p - 1];
    } else {
      assert s[..p] == c.path && t[..p] == d.path && s[p + 1..] == c.newValue && t[p + 1..] == d.newValue;
    }
  }

  lemma MoveNulLeft(path: string, value: string, i: nat)
    requires i < |path| && path[i] == '\0'
    ensures path[..i] + (NUL + (path[i + 1..] + (NUL + value))) == path + (NUL + value)
  {
    assert path == path[..i] + (NUL + path[i + 1..]);
    Assoc(path[..i], NUL + path[i + 1..], NUL + value);
    Assoc(NUL, path[i + 1..], NUL + value);
  }

  lemma MoveNulRight(path: string, value: string, i: nat)
    requires i < |value| && value[i] == '\0'
    ensures (path + (NUL + value[..i])) + (NUL + value[i + 1..]) == path + (NUL + value)
  {
    assert value == value[..i] + (NUL + value[i + 1..]);
    Assoc(path, NUL + value[..i], NUL + value[i + 1..]);
    Assoc(NUL, value[..i], NUL + value[i + 1..]);
  }

  /** Another change with the same key as a splittable one. */
  lemma SplittableIsAmbiguous(c: Change) returns (d: Change)
    requires ItemKey(c).Some? && Splittable(c)
    ensures ItemKey(d) == ItemKey(c) && PinOf(d) != PinOf(c)
  {
    if i :| 0 < i < |c.path| && c.path[i] == '\0' {
      d := c.(path := c.path[..i], newValue := c.path[i + 1..] + (NUL + c.newValue));
      MoveNulLeft(c.path, c.newValue, i);
      assert |d.path| != |c.path|;
    } else {
      var i :| 0 <= i < |c.newValue| - 1 && c.newValue[i] == '\0';
      d := c.(path := c.path + (NUL + c.newValue[..i]), newValue := c.newValue[i + 1..]);
      MoveNulRight(c.path, c.newValue, i);
      assert |d.path| != |c.path|;
    }
  }

  /** A key stands for one pinned value exactly unless the change is splittable. */
  lemma KeyIsExactIffNotSplittable(c: Change)
    requires ItemKey(c).Some?
    ensures (forall d :: ItemKey(d) == ItemKey(c) ==> PinOf(d) == PinOf(c)) <==> !Splittable(c)
  {
    if Splittable(c) {
      var d := SplittableIsAmbiguous(c);
    } else {
      forall d | ItemKey(d) == ItemKey(c)
        ensures PinOf(d) == PinOf(c)
      {
        SameKeySameKind(c, d);
        if c.kind == FILE_CHANGED || c.kind == MODE_CHANGED {
          SameBodySamePin(c, d);
        }
      }
    }
  }

  // ----- requests

  const KIND_ACCEPT := "accept"
  const KIND_REVOKE := "revoke"

  /** signer and sig are the bytes their hex spells, [] when absent. */
  datatype Request = Request(
    version: int, kind: string, id: string, machineId: string, created: string, reason: string,
    changes: seq<Change>, revokes: string, signer: Bytes, sig: Bytes)

  datatype RequestError =
    | BadShape | OtherMachine | NotSigned | BadSignerKey | BadSignature | OwnKey | UntrustedSigner | AlreadyApplied
    | NoSuchApproval

  /** Ed25519 verification and the JSON a request's signature covers. */
  datatype Scheme = Scheme(verify: (Bytes, Bytes, Bytes) -> bool, encode: Request -> Bytes)

  function Payload(x: Scheme, r: Request): Bytes { x.encode(r.(sig := [])) }

  /** The signature covers the whole request but for itself: with an encoding that tells requests apart, one
      payload stands for one request. */
  lemma PayloadCoversAll(x: Scheme, r: Request, r': Request)
    requires forall a, b :: x.encode(a) == x.encode(b) ==> a == b
    ensures Payload(x, r) == Payload(x, r') <==> r == r'.(sig := r.sig)
  {
    assert Payload(x, r) == Payload(x, r') ==> r.(sig := []) == r'.(sig := []);
    assert r.(sig := []) == r'.(sig := []) ==> r == r'.(sig := r.sig);
  }

  predicate WellShaped(r: Request) {
    && r.version == 1 && r.id != "" && r.machineId != "" && r.reason != ""
    && (r.kind == KIND_ACCEPT || r.kind == KIND_REVOKE)
    && (r.kind == KIND_ACCEPT ==>
          |r.changes| > 0 && r.revokes == "" && forall i :: 0 <= i < |r.changes| ==> ItemKey(r.changes[i]).Some?)
    && (r.kind == KIND_REVOKE ==> r.revokes != "" && |r.changes| == 0)
  }

  /** check's loop over the changes. */
  method Check(r: Request) returns (ok: bool)
    ensures ok <==> WellShaped(r)
  {
    hide ItemKey;
    if r.version != 1 || r.id == "" || r.machineId == "" || r.reason == "" {
      return false;
    }
    if r.kind == KIND_ACCEPT {
      if |r.changes| == 0 {
        return false;
      }
      for i := 0 to |r.changes|
        invariant forall j :: 0 <= j < i ==> ItemKey(r.changes[j]).Some?
      {
        if ItemKey(r.changes[i]).None? {
          return false;
        }
      }
      return r.revokes == "";
    }
    return r.kind == KIND_REVOKE && r.revokes != "" && |r.changes| == 0;
  }

  function VerifySig(x: Scheme, r: Request): Result<(), RequestError> {
    if r.sig == [] then Err(NotSigned)
    else if |r.signer| != 32 then Err(BadSignerKey)
    else if !x.verify(r.signer, Payload(x, r), r.sig) then Err(BadSignature)
    else Ok(())
  }

  /** Sign: record the public key, then sign the payload; the result passes VerifySig. */
  method Sign(x: Scheme, r: Request, pub: Bytes, sign: Bytes -> Bytes) returns (s: Request)
    requires |pub| == 32 && forall m :: sign(m) != [] && x.verify(pub, m, sign(m))
    ensures VerifySig(x, s) == Ok(()) && s == r.(signer := pub, sig := s.sig)
  {
    s := r.(signer := pub);
    var p := Payload(x, s);
    s := s.(sig := sign(p));
    assert Payload(x, s) == p;
  }

  datatype Operator = Operator(pub: Bytes, tag: string)

  datatype Policy = Policy(machineId: string, operators: seq<Operator>, own: Option<Bytes>, allowOwn: bool,
                           anySigner: bool)

  function LabelOf(ops: seq<Operator>, pub: Bytes): Option<string> {
    if |ops| == 0 then None else if ops[0].pub == pub then Some(ops[0].tag) else LabelOf(ops[1..], pub)
  }

  function SignerLabel(p: Policy, r: Request): Result<string, RequestError> {
    if |r.signer| != 32 then Err(BadSignerKey)
    else if p.own == Some(r.signer) then (if p.allowOwn then Ok("witness-key(dev)") else Err(OwnKey))
    else
      match LabelOf(p.operators, r.signer)
      case Some(tag) => Ok(tag)
      case None => if p.anySigner then Ok("(not in operators.txt)") else Err(UntrustedSigner)
  }

  // ----- the set

  datatype Approval = Approval(id: string, signedBy: Bytes, tag: string, reason: string, created: string,
                               changes: seq<Change>)

  datatype Approvals = Approvals(active: map<string, Approval>, items: set<string>, seen: set<string>)

  /** k is pinned by some change of some active approval. */
  ghost predicate Pinned(active: map<string, Approval>, k: string) {
    exists id, i :: id in active && 0 <= i < |active[id].changes| && ItemKey(active[id].changes[i]) == Some(k)
  }

  ghost function Index(active: map<string, Approval>): (items: set<string>)
    ensures forall k :: k in items <==> Pinned(active, k)
  {
    var items := set id, i | id in active && 0 <= i < |active[id].changes| && ItemKey(active[id].changes[i]).Some?
                   :: ItemKey(active[id].changes[i]).value;
    items
  }

  const EMPTY_SET := Approvals(map[], {}, {})

  function Judge(x: Scheme, a: Approvals, r: Request, p: Policy): Result<string, RequestError> {
    if !WellShaped(r) then Err(BadShape)
    else if r.machineId != p.machineId then Err(OtherMachine)
    else
      match VerifySig(x, r)
      case Err(e) => Err(e)
      case Ok(_) =>
        match SignerLabel(p, r)
        case Err(e) => Err(e)
        case Ok(tag) =>
          if r.id in a.seen then Err(AlreadyApplied)
          else if r.kind == KIND_REVOKE && r.revokes !in a.active then Err(NoSuchApproval)
          else Ok(tag)
  }

  ghost function After(x: Scheme, a: Approvals, r: Request, p: Policy): Approvals {
    match Judge(x, a, r, p)
    case Err(_) => a
    case Ok(tag) =>
      var active := if r.kind == KIND_REVOKE then a.active - {r.revokes}
                    else a.active[r.id := Approval(r.id, r.signer, tag, r.reason, r.created, r.changes)];
      Approvals(active, Index(active), a.seen + {r.id})
  }

  /** Set: the maps the daemon keeps. */
  class ApprovalSet {
    var active: map<string, Approval>
    var items: set<string>
    var seen: set<string>

    ghost function Contents(): Approvals
      reads this
    {
      Approvals(active, items, seen)
    }

    constructor ()
      ensures Contents() == EMPTY_SET
    {
      active, items, seen := map[], {}, {};
    }

    /** rebuild: the index, from scratch. */
    method Rebuild()
      modifies this`items
      ensures items == Index(active)
    {
      items := {};
      var ids := active.Keys;
      while ids != {}
        invariant ids <= active.Keys
        invariant items == Index(map id | id in active && id !in ids :: active[id])
        decreases |ids|
      {
        hide ItemKey, Index;
        var id :| id in ids;
        ghost var done := map j | j in active && j !in ids :: active[j];
        var keys := KeysOf(active[id].changes);
        items := items + keys;
        ids := ids - {id};
        IndexGrows(done, id, active[id], keys);
        assert done[id := active[id]] == map j | j in active && j !in ids :: active[j];
      }
      assert (map id | id in active && id !in ids :: active[id]) == active;
    }

    /** Apply: check, then change the maps; a refused request changes nothing. */
    method Apply(x: Scheme, r: Request, p: Policy) returns (res: Result<string, RequestError>)
      modifies this
      ensures res == Judge(x, old(Contents()), r, p)
      ensures Contents() == After(x, old(Contents()), r, p)
    {
      hide ItemKey, Index, WellShaped;
      var shaped := Check(r);
      if !shaped {
        return Err(BadShape);
      }
      if r.machineId != p.machineId {
        return Err(OtherMachine);
      }
      var sig := VerifySig(x, r);
      if sig.Err? {
        return Err(sig.error);
      }
      var tag := SignerLabel(p, r);
      if tag.Err? {
        return Err(tag.error);
      }
      if r.id in seen {
        return Err(AlreadyApplied);
      }
      if r.kind == KIND_REVOKE {
        if r.revokes !in active {
          return Err(NoSuchApproval);
        }
        active := active - {r.revokes};
      } else {
        active := active[r.id := Approval(r.id, r.signer, tag.value, r.reason, r.created, r.changes)];
      }
      seen := seen + {r.id};
      Rebuild();
      return Ok(tag.value);
    }

    /** Filter: the changes no approval covers, in order, and how many one does. */
    method Filter(changes: seq<Change>) returns (unapproved: seq<Change>, approved: nat)
      ensures unapproved == Uncovered(items, changes)
      ensures approved + |unapproved| == |changes|
    {
      hide ItemKey;
      unapproved, approved := [], 0;
      for i := 0 to |changes|
        invariant unapproved == Uncovered(items, changes[..i]) && approved + |unapproved| == i
      {
        TakeTake(changes, i, i + 1);
        var k := ItemKey(changes[i]);
        if k.Some? && k.value in items {
          approved := approved + 1;
        } else {
          unapproved := unapproved + [changes[i]];
        }
      }
      assert changes[..|changes|] == changes;
    }
  }

  method KeysOf(changes: seq<Change>) returns (keys: set<string>)
    ensures forall k :: k in keys <==> exists i :: 0 <= i < |changes| && ItemKey(changes[i]) == Some(k)
  {
    hide ItemKey;
    keys := {};
    for i := 0 to |changes|
      invariant forall k :: k in keys <==> exists j :: 0 <= j < i && ItemKey(changes[j]) == Some(k)
    {
      var k := ItemKey(changes[i]);
      if k.Some? {
        keys := keys + {k.value};
      }
    }
  }

  lemma IndexGrows(done: map<string, Approval>, id: string, a: Approval, keys: set<string>)
    requires id !in done
    requires forall k :: k in keys <==> exists i :: 0 <= i < |a.changes| && ItemKey(a.changes[i]) == Some(k)
    ensures Index(done) + keys == Index(done[id := a])
  {
    hide ItemKey, Index;
    var more := done[id := a];
    forall k
      ensures Pinned(more, k) <==> Pinned(done, k) || k in keys
    {
      if Pinned(done, k) {
        var j, i :| j in done && 0 <= i < |done[j].changes| && ItemKey(done[j].changes[i]) == Some(k);
        assert j in more && more[j] == done[j];
      } else if k in keys {
        var i :| 0 <= i < |a.changes| && ItemKey(a.changes[i]) == Some(k);
        assert id in more && more[id] == a;
      }
      if Pinned(more, k) {
        var j, i :| j in more && 0 <= i < |more[j].changes| && ItemKey(more[j].changes[i]) == Some(k);
        if j == id {
          assert k in keys;
        } else {
          assert j in done && done[j] == more[j];
        }
      }
    }
  }

  predicate Hidden(items: set<string>, c: Change) { ItemKey(c).Some? && ItemKey(c).value in items }

  function Uncovered(items: set<string>, changes: seq<Change>): seq<Change> {
    if |changes| == 0 then []
    else
      var m := |changes| - 1;
      Uncovered(items, changes[..m]) + if Hidden(items, changes[m]) then [] else [changes[m]]
  }

  // ----- the index and its definition

  /** The states a sequence of requests leads through, under changing policies. */
  datatype Ask = Ask(request: Request, policy: Policy)

  ghost function Reached(x: Scheme, asks: seq<Ask>): Approvals {
    if |asks| == 0 then EMPTY_SET
    else After(x, Reached(x, asks[..|asks| - 1]), asks[|asks| - 1].request, asks[|asks| - 1].policy)
  }

  ghost predicate Consistent(a: Approvals) {
    && a.items == Index(a.active)
    && a.active.Keys <= a.seen
    && forall id :: id in a.active ==>
         a.active[id].id == id && forall i :: 0 <= i < |a.active[id].changes| ==> ItemKey(a.active[id].changes[i]).Some?
  }

  /** In every reachable state the index is what its definition says, and every active approval has
      been seen. */
  lemma {:induction false} ReachedIsConsistent(x: Scheme, asks: seq<Ask>)
    ensures Consistent(Reached(x, asks))
    decreases |asks|
  {
    hide ItemKey, VerifySig, SignerLabel;
    if |asks| > 0 {
      ReachedIsConsistent(x, asks[..|asks| - 1]);
    }
  }

  /** The key may approve under this policy. The witness's own key does not count unless the policy says so. */
  ghost predicate MayApprove(p: Policy, pub: Bytes) {
    if p.own == Some(pub) then p.allowOwn
    else p.anySigner || exists i :: 0 <= i < |p.operators| && p.operators[i].pub == pub
  }

  /** The label a key is trusted under: that of its first line in the operators file, if it has one. */
  ghost predicate Labels(p: Policy, pub: Bytes, tag: string) {
    if p.own == Some(pub) then tag == "witness-key(dev)"
    else if exists i :: 0 <= i < |p.operators| && p.operators[i].pub == pub then
      exists i :: && 0 <= i < |p.operators| && p.operators[i].pub == pub && tag == p.operators[i].tag
                  && forall j :: 0 <= j < i ==> p.operators[j].pub != pub
    else tag == "(not in operators.txt)"
  }

  lemma {:induction false} LabelIsFirst(ops: seq<Operator>, pub: Bytes)
    ensures LabelOf(ops, pub).Some? <==> exists i :: 0 <= i < |ops| && ops[i].pub == pub
    ensures LabelOf(ops, pub).Some? ==>
              exists i :: && 0 <= i < |ops| && ops[i].pub == pub && LabelOf(ops, pub) == Some(ops[i].tag)
                          && forall j :: 0 <= j < i ==> ops[j].pub != pub
    decreases |ops|
  {
    if |ops| > 0 && ops[0].pub != pub {
      var rest := ops[1..];
      LabelIsFirst(rest, pub);
      assert forall i :: 0 < i < |ops| ==> ops[i] == rest[i - 1];
      if LabelOf(rest, pub).Some? {
        var i :| && 0 <= i < |rest| && rest[i].pub == pub && LabelOf(rest, pub) == Some(rest[i].tag)
                 && forall j :: 0 <= j < i ==> rest[j].pub != pub;
        assert ops[i + 1] == rest[i];
        assert forall j :: 0 <= j < i + 1 ==> ops[j].pub != pub;
      }
    }
  }

  lemma LabelIffMayApprove(p: Policy, r: Request)
    requires |r.signer| == 32
    ensures SignerLabel(p, r).Ok? <==> MayApprove(p, r.signer)
    ensures SignerLabel(p, r).Ok? ==> Labels(p, r.signer, SignerLabel(p, r).value)
  {
    hide LabelOf;
    LabelIsFirst(p.operators, r.signer);
  }

  /** Exactly which requests are applied: well shaped, for this machine, signed by a key that may approve, never
      applied before, and, to revoke, naming an active approval. The answer is the key's label. */
  lemma JudgeAcceptsIff(x: Scheme, a: Approvals, r: Request, p: Policy)
    ensures Judge(x, a, r, p).Ok? <==>
            && r.version == 1 && r.id != "" && r.machineId == p.machineId != "" && r.reason != ""
            && ((r.kind == "accept" && |r.changes| > 0 && r.revokes == ""
                 && forall i :: 0 <= i < |r.changes| ==> ItemKey(r.changes[i]).Some?)
                || (r.kind == "revoke" && r.changes == [] && r.revokes != "" && r.revokes in a.active))
            && r.sig != [] && |r.signer| == 32 && x.verify(r.signer, Payload(x, r), r.sig)
            && MayApprove(p, r.signer) && r.id !in a.seen
    ensures Judge(x, a, r, p).Ok? ==> Labels(p, r.signer, Judge(x, a, r, p).value)
  {
    hide ItemKey, Labels, MayApprove, LabelOf;
    if |r.signer| == 32 {
      LabelIffMayApprove(p, r);
    }
  }

  /** The ask that an approval goes back to: an accept request for this machine, with a reason and changes, and a
      signature that verifies under a key the policy lets approve. */
  ghost predicate Vouches(x: Scheme, ask: Ask, a: Approval) {
    var r, p := ask.request, ask.policy;
    && r.kind == KIND_ACCEPT && r.id == a.id && r.changes == a.changes && r.signer == a.signedBy
    && r.reason == a.reason && r.created == a.created && a.reason != "" && |a.changes| > 0
    && r.machineId == p.machineId && |r.signer| == 32 && x.verify(r.signer, Payload(x, r), r.sig)
    && MayApprove(p, r.signer) && Labels(p, r.signer, a.tag)
  }

  lemma AcceptedIsVouched(x: Scheme, a: Approvals, ask: Ask)
    requires Judge(x, a, ask.request, ask.policy).Ok? && ask.request.kind == KIND_ACCEPT
    ensures ask.request.id in After(x, a, ask.request, ask.policy).active
    ensures Vouches(x, ask, After(x, a, ask.request, ask.policy).active[ask.request.id])
  {
    hide Index, MayApprove, Labels, Judge;
    JudgeAcceptsIff(x, a, ask.request, ask.policy);
  }

  /** Every active approval of every reachable state goes back to a request that was vouched for when
      it was made. */
  lemma {:induction false} ActiveApprovalsAreVouched(x: Scheme, asks: seq<Ask>, id: string) returns (k: nat)
    requires id in Reached(x, asks).active
    ensures k < |asks| && Vouches(x, asks[k], Reached(x, asks).active[id])
    decreases |asks|
  {
    hide Judge, Index, Vouches;
    var m := |asks| - 1;
    var before, ask := Reached(x, asks[..m]), asks[m];
    if Judge(x, before, ask.request, ask.policy).Ok? && ask.request.kind == KIND_ACCEPT && ask.request.id == id {
      AcceptedIsVouched(x, before, ask);
      k := m;
    } else {
      if Judge(x, before, ask.request, ask.policy).Ok? {
        AcceptsAreShaped(x, before, ask.request, ask.policy);
      }
      k := ActiveApprovalsAreVouched(x, asks[..m], id);
    }
  }

  lemma AcceptsAreShaped(x: Scheme, a: Approvals, r: Request, p: Policy)
    requires Judge(x, a, r, p).Ok?
    ensures r.kind == KIND_ACCEPT || r.kind == KIND_REVOKE
  {
  }

  /** Once a request id has been used and its approval is gone, no further request brings it back. */
  lemma {:induction false} RevokedStaysRevoked(x: Scheme, asks: seq<Ask>, n: nat, id: string)
    requires n <= |asks| && id in Reached(x, asks[..n]).seen && id !in Reached(x, asks[..n]).active
    ensures id in Reached(x, asks).seen && id !in Reached(x, asks).active
    decreases |asks|
  {
    hide ItemKey, VerifySig, SignerLabel, WellShaped, Index;
    if n < |asks| {
      var m := |asks| - 1;
      TakeTake(asks, n, m);
      RevokedStaysRevoked(x, asks[..m], n, id);
    } else {
      assert asks[..n] == asks;
    }
  }

  /** Ask k was applied. */
  ghost predicate Applied(x: Scheme, asks: seq<Ask>, k: nat)
    requires k < |asks|
  {
    Judge(x, Reached(x, asks[..k]), asks[k].request, asks[k].policy).Ok?
  }

  ghost predicate Accepts(x: Scheme, asks: seq<Ask>, k: nat, id: string)
    requires k < |asks|
  {
    Applied(x, asks, k) && asks[k].request.kind == KIND_ACCEPT && asks[k].request.id == id
  }

  ghost predicate Revokes(x: Scheme, asks: seq<Ask>, k: nat, id: string)
    requires k < |asks|
  {
    Applied(x, asks, k) && asks[k].request.kind == KIND_REVOKE && asks[k].request.revokes == id
  }

  /** Ask k accepted id and none since has revoked it. */
  ghost predicate StandsSince(x: Scheme, asks: seq<Ask>, k: nat, id: string) {
    k < |asks| && Accepts(x, asks, k, id) && forall j :: k < j < |asks| ==> !Revokes(x, asks, j, id)
  }

  /** An approval is active if and only if a request that carried its id was accepted and no later accepted
      request revoked it. */
  lemma {:induction false} ActiveIffAcceptedAndNotRevoked(x: Scheme, asks: seq<Ask>, id: string)
    ensures id in Reached(x, asks).active <==> exists k :: StandsSince(x, asks, k, id)
    decreases |asks|
  {
    if |asks| > 0 {
      hide Judge, Index, Reached, StandsSince;
      var m := |asks| - 1;
      var front := asks[..m];
      ActiveIffAcceptedAndNotRevoked(x, front, id);
      LastAskActs(x, asks, id);
      StandsOneMore(x, asks, id);
    } else {
      assert forall k :: !StandsSince(x, asks, k, id);
    }
  }

  /** The last ask adds what it accepts, removes what it revokes, and leaves every other approval alone. */
  lemma LastAskActs(x: Scheme, asks: seq<Ask>, id: string)
    requires |asks| > 0
    ensures var m := |asks| - 1;
            id in Reached(x, asks).active <==>
            Accepts(x, asks, m, id) || (id in Reached(x, asks[..m]).active && !Revokes(x, asks, m, id))
  {
    hide Judge, Index;
    var m := |asks| - 1;
    var before, ask := Reached(x, asks[..m]), asks[m];
    if Judge(x, before, ask.request, ask.policy).Ok? {
      AcceptsAreShaped(x, before, ask.request, ask.policy);
    }
  }

  lemma StandsOneMore(x: Scheme, asks: seq<Ask>, id: string)
    requires |asks| > 0
    ensures var m := |asks| - 1;
            (exists k :: StandsSince(x, asks, k, id)) <==>
            Accepts(x, asks, m, id) || ((exists k :: StandsSince(x, asks[..m], k, id)) && !Revokes(x, asks, m, id))
  {
    hide Judge, Reached;
    var m := |asks| - 1;
    var front := asks[..m];
    forall k: nat | k < m
      ensures Accepts(x, front, k, id) <==> Accepts(x, asks, k, id)
      ensures Revokes(x, front, k, id) <==> Revokes(x, asks, k, id)
    {
      TakeTake(asks, k, m);
    }
    if k: nat :| StandsSince(x, front, k, id) && !Revokes(x, asks, m, id) {
      assert StandsSince(x, asks, k, id);
    }
    if Accepts(x, asks, m, id) {
      assert StandsSince(x, asks, m, id);
    }
    if k: nat :| StandsSince(x, asks, k, id) && k < m {
      assert StandsSince(x, front, k, id);
    }
  }

  /** An accepted revoke takes effect: what it names is no longer active, and a change stays hidden if and only if
      another active approval pins its key. */
  lemma RevokeShowsAgain(x: Scheme, asks: seq<Ask>, id: string, c: Change)
    requires |asks| > 0 && Revokes(x, asks, |asks| - 1, id)
    ensures var before, after := Reached(x, asks[..|asks| - 1]), Reached(x, asks);
            && id in before.active && id !in after.active
            && (Hidden(after.items, c) <==>
                exists other, i :: && other in before.active && other != id
                                   && 0 <= i < |before.active[other].changes|
                                   && ItemKey(before.active[other].changes[i]).Some?
                                   && ItemKey(before.active[other].changes[i]) == ItemKey(c))
  {
    hide ItemKey, Judge, Index;
    var m := |asks| - 1;
    var before, after := Reached(x, asks[..m]), Reached(x, asks);
    JudgeAcceptsIff(x, before, asks[m].request, asks[m].policy);
    ReachedIsConsistent(x, asks);
    assert after.active == before.active - {id};
    if other, i :| other in before.active && other != id && 0 <= i < |before.active[other].changes|
                   && ItemKey(before.active[other].changes[i]).Some?
                   && ItemKey(before.active[other].changes[i]) == ItemKey(c) {
      assert other in after.active && after.active[other] == before.active[other];
      assert Pinned(after.active, ItemKey(c).value);
    }
    if Hidden(after.items, c) {
      var other, i :| other in after.active && 0 <= i < |after.active[other].changes|
                      && ItemKey(after.active[other].changes[i]) == Some(ItemKey(c).value);
    }
  }

  /** Filter hides a change exactly when an active approval pins that very value, for every change
      whose key is exact. */
  lemma HiddenIffPinned(x: Scheme, asks: seq<Ask>, c: Change)
    requires ItemKey(c).Some? && !Splittable(c)
    ensures var a := Reached(x, asks);
            Hidden(a.items, c)
            <==> exists id, i :: && id in a.active && 0 <= i < |a.active[id].changes|
                                 && ItemKey(a.active[id].changes[i]).Some?
                                 && PinOf(a.active[id].changes[i]) == PinOf(c)
  {
    hide Splittable, Reached, Index;
    ReachedIsConsistent(x, asks);
    KeyIsExactIffNotSplittable(c);
    var a := Reached(x, asks);
    if Hidden(a.items, c) {
      var id, i :| id in a.active && 0 <= i < |a.active[id].changes| && ItemKey(a.active[id].changes[i]) == ItemKey(c);
    }
    if id, i :| id in a.active && 0 <= i < |a.active[id].changes| && ItemKey(a.active[id].changes[i]).Some?
                && PinOf(a.active[id].changes[i]) == PinOf(c) {
      SamePinSameKey(a.active[id].changes[i], c);
      assert Pinned(a.active, ItemKey(c).value);
    }
  }

  lemma SamePinSameKey(c: Change, d: Change)
    requires ItemKey(c).Some? && ItemKey(d).Some? && PinOf(c) == PinOf(d)
    ensures ItemKey(c) == ItemKey(d)
  {
  }

  /** The positions at pick kept out of changes: rising, and exactly where nothing is hidden. */
  ghost predicate Keeps(items: set<string>, changes: seq<Change>, kept: seq<Change>, at: seq<nat>) {
    && |at| == |kept|
    && (forall j :: 0 <= j < |at| ==> at[j] < |changes| && kept[j] == changes[at[j]])
    && (forall j, k :: 0 <= j < k < |at| ==> at[j] < at[k])
    && (forall i :: 0 <= i < |changes| ==> (!Hidden(items, changes[i]) <==> i in at))
  }

  lemma KeepsOneMore(items: set<string>, changes: seq<Change>, kept: seq<Change>, at: seq<nat>, c: Change)
    requires Keeps(items, changes, kept, at)
    ensures if Hidden(items, c) then Keeps(items, changes + [c], kept, at)
            else Keeps(items, changes + [c], kept + [c], at + [|changes|])
  {
    hide Hidden;
    assert |changes| !in at;
  }

  /** Filter partitions: what it returns is exactly the uncovered changes, in their order. */
  lemma {:induction false} UncoveredIsSubsequence(items: set<string>, changes: seq<Change>) returns (at: seq<nat>)
    ensures Keeps(items, changes, Uncovered(items, changes), at)
    decreases |changes|
  {
    at := [];
    if |changes| > 0 {
      hide Hidden, Keeps;
      var m := |changes| - 1;
      at := UncoveredIsSubsequence(items, changes[..m]);
      KeepsOneMore(items, changes[..m], Uncovered(items, changes[..m]), at, changes[m]);
      LastSplit(changes);
      if !Hidden(items, changes[m]) {
        at := at + [m];
      }
    }
  }

  // ----- replay

  const SOURCE := "operator"
  const EVENT_ACCEPTED := "drift_accepted"
  const EVENT_REVOKED := "drift_accept_revoked"
  const EVENT_REJECTED := "drift_accept_rejected"

  datatype LogEntry = LogEntry(source: string, event: string, data: Bytes)

  /** The JSON of an entry's data: what is written for an applied and for a refused request, and what
      reading finds, None if it does not parse or names no request. */
  datatype DataCodec = DataCodec(applied: (Request, string) -> Bytes, refused: (Request, RequestError) -> Bytes,
                                 read: Bytes -> Option<Request>)

  ghost predicate Faithful(d: DataCodec) { forall r, tag :: d.read(d.applied(r, tag)) == Some(r) }

  function EntryFor(d: DataCodec, r: Request, tag: string): LogEntry {
    LogEntry(SOURCE, if r.kind == KIND_REVOKE then EVENT_REVOKED else EVENT_ACCEPTED, d.applied(r, tag))
  }

  predicate Records(e: LogEntry) { e.source == SOURCE && (e.event == EVENT_ACCEPTED || e.event == EVENT_REVOKED) }

  datatype Replayed = Replayed(approvals: Approvals, skipped: nat)

  /** One entry of the log: others are passed over, one that names no request or does not pass is
      skipped and counted. */
  ghost function ReplayStep(x: Scheme, d: DataCodec, before: Replayed, e: LogEntry, p: Policy): Replayed {
    if !Records(e) then before
    else
      match d.read(e.data)
      case None => Replayed(before.approvals, before.skipped + 1)
      case Some(r) =>
        Replayed(After(x, before.approvals, r, p),
                 before.skipped + if Judge(x, before.approvals, r, p).Ok? then 0 else 1)
  }

  ghost function ReplayOf(x: Scheme, d: DataCodec, log: seq<LogEntry>, p: Policy): Replayed {
    if |log| == 0 then Replayed(EMPTY_SET, 0)
    else ReplayStep(x, d, ReplayOf(x, d, log[..|log| - 1], p), log[|log| - 1], p)
  }

  lemma ReplayExtends(x: Scheme, d: DataCodec, log: seq<LogEntry>, e: LogEntry, p: Policy)
    ensures ReplayOf(x, d, log + [e], p) == ReplayStep(x, d, ReplayOf(x, d, log, p), e, p)
  {
    hide ReplayStep;
    Snoc(log, e);
  }

  /** Replay's loop over the log. */
  method Replay(x: Scheme, d: DataCodec, log: seq<LogEntry>, p: Policy) returns (s: ApprovalSet, skipped: nat)
    ensures fresh(s) && Replayed(s.Contents(), skipped) == ReplayOf(x, d, log, p)
  {
    hide Judge, After;
    s := new ApprovalSet();
    skipped := 0;
    for i := 0 to |log|
      invariant fresh(s) && Replayed(s.Contents(), skipped) == ReplayOf(x, d, log[..i], p)
    {
      TakeTake(log, i, i + 1);
      var e := log[i];
      if !Records(e) {
        continue;
      }
      var r := d.read(e.data);
      if r.None? {
        skipped := skipped + 1;
        continue;
      }
      var res := s.Apply(x, r.value, p);
      if res.Err? {
        skipped := skipped + 1;
      }
    }
    assert log[..|log|] == log;
  }

  /** What reaches the daemon: a request, or anything else that gets logged meanwhile. */
  datatype Input = Asked(request: Request) | Logged(entry: LogEntry)

  /** The live set and the log the daemon writes beside it. */
  datatype Daemon = Daemon(approvals: Approvals, log: seq<LogEntry>)

  ghost function Live(x: Scheme, d: DataCodec, inputs: seq<Input>, p: Policy): Daemon {
    if |inputs| == 0 then Daemon(EMPTY_SET, [])
    else
      var before := Live(x, d, inputs[..|inputs| - 1], p);
      match inputs[|inputs| - 1]
      case Logged(e) => Daemon(before.approvals, before.log + [e])
      case Asked(r) =>
        match Judge(x, before.approvals, r, p)
        case Ok(tag) => Daemon(After(x, before.approvals, r, p), before.log + [EntryFor(d, r, tag)])
        case Err(e) => Daemon(before.approvals, before.log + [LogEntry(SOURCE, EVENT_REJECTED, d.refused(r, e))])
  }

  /** For any stream of requests, refused ones included, mixed with any other entries, replaying the
      log under the same policy rebuilds the live set and skips nothing. */
  lemma {:induction false} ReplayRebuildsLiveSet(x: Scheme, d: DataCodec, inputs: seq<Input>, p: Policy)
    requires Faithful(d)
    requires forall i :: 0 <= i < |inputs| && inputs[i].Logged? ==> !Records(inputs[i].entry)
    ensures ReplayOf(x, d, Live(x, d, inputs, p).log, p) == Replayed(Live(x, d, inputs, p).approvals, 0)
    decreases |inputs|
  {
    hide Judge, After, ReplayOf;
    if |inputs| > 0 {
      var m := |inputs| - 1;
      ReplayRebuildsLiveSet(x, d, inputs[..m], p);
      var before := Live(x, d, inputs[..m], p);
      match inputs[m]
      case Logged(e) => ReplayExtends(x, d, before.log, e, p);
      case Asked(r) =>
        match Judge(x, before.approvals, r, p)
        case Ok(tag) =>
          assert d.read(d.applied(r, tag)) == Some(r);
          ReplayExtends(x, d, before.log, EntryFor(d, r, tag), p);
        case Err(e) => ReplayExtends(x, d, before.log, LogEntry(SOURCE, EVENT_REJECTED, d.refused(r, e)), p);
    } else {
      NothingToReplay(x, d, p);
    }
  }

  lemma NothingToReplay(x: Scheme, d: DataCodec, p: Policy)
    ensures ReplayOf(x, d, [], p) == Replayed(EMPTY_SET, 0)
  {
  }

  /** The requests that the recorded entries of a log name, in order. */
  function Named(d: DataCodec, log: seq<LogEntry>, p: Policy): seq<Ask> {
    if |log| == 0 then []
    else
      var before, e := Named(d, log[..|log| - 1], p), log[|log| - 1];
      if Records(e) && d.read(e.data).Some? then before + [Ask(d.read(e.data).value, p)] else before
  }

  ghost function AppliedCount(x: Scheme, asks: seq<Ask>): nat {
    if |asks| == 0 then 0
    else AppliedCount(x, asks[..|asks| - 1]) + if Applied(x, asks, |asks| - 1) then 1 else 0
  }

  function RecordCount(log: seq<LogEntry>): nat {
    if |log| == 0 then 0 else RecordCount(log[..|log| - 1]) + if Records(log[|log| - 1]) then 1 else 0
  }

  /** Replay of any log at all: the set is the one the named requests lead to, and every recorded entry is either
      applied or counted as skipped. */
  lemma {:induction false} ReplayCountsEverySkip(x: Scheme, d: DataCodec, log: seq<LogEntry>, p: Policy)
    ensures var r, asks := ReplayOf(x, d, log, p), Named(d, log, p);
            r.approvals == Reached(x, asks) && r.skipped + AppliedCount(x, asks) == RecordCount(log)
    decreases |log|
  {
    if |log| > 0 {
      hide Judge, After, Records, Reached, AppliedCount;
      var m := |log| - 1;
      ReplayCountsEverySkip(x, d, log[..m], p);
      var asks, e := Named(d, log[..m], p), log[m];
      if Records(e) && d.read(e.data).Some? {
        OneMoreAsk(x, asks, Ask(d.read(e.data).value, p));
      }
    }
  }

  lemma OneMoreAsk(x: Scheme, asks: seq<Ask>, ask: Ask)
    ensures Reached(x, asks + [ask]) == After(x, Reached(x, asks), ask.request, ask.policy)
    ensures AppliedCount(x, asks + [ask])
            == AppliedCount(x, asks) + if Judge(x, Reached(x, asks), ask.request, ask.policy).Ok? then 1 else 0
  {
    hide After, Judge;
    Snoc(asks, ask);
  }
}
