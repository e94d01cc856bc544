// What an approval is good for, over runs whose high-risk doors are the ones
// the source has (crates/core/src/mcp.rs:143-286): their capability is one of
// three literals and their fingerprint is computed, never passed in. The general
// gate takes both from its caller; crates/mcp/src/lib.rs:430-435 sends the
// capabilities of the other doors past it.
module McpApprovals {
  import opened Wrappers
  import opened McpFingerprint
  import opened McpPolicy
  import opened McpRuns

  // The action a batch door takes for these threads.
  ghost predicate BatchDoor(digest: string -> string, a: Action, ids: seq<Text>) {
    && a.HighRisk?
    && AcceptableBatch(a.capability, a.owner, ids)
    && a.target.None? && a.targetCount == |ids|
    && a.fingerprint == BatchFingerprint(digest, a.capability, a.owner, ids)
  }

  // The action the folder door takes for this folder.
  ghost predicate FolderDoor(digest: string -> string, a: Action, folder: Text) {
    && a.HighRisk?
    && a.capability == DELETE_FOLDER
    && AcceptableFolder(a.owner, folder)
    && a.target == Some(folder) && a.targetCount == 1
    && a.fingerprint == FolderFingerprint(digest, a.owner, folder)
  }

  ghost predicate RealDoors(digest: string -> string, es: seq<Event>) {
    forall e | e in es && e.action.HighRisk? ::
      (exists ids :: BatchDoor(digest, e.action, ids)) || (exists folder :: FolderDoor(digest, e.action, folder))
  }

  // The general gate is not asked for what has a door of its own.
  ghost predicate Routed(es: seq<Event>) {
    forall e | e in es && e.action.Authorize? ::
      e.action.capability !in {BULK_DELETE, BULK_PERMANENT_DELETE, DELETE_FOLDER, SEND_DRAFT}
  }

  ghost predicate SameBatch(digest: string -> string, a: Action, ids: seq<Text>, b: Action, asked: seq<Text>)
    requires a.HighRisk?
  {
    && BatchDoor(digest, b, asked)
    && b.capability == a.capability && b.owner == a.owner
    && SameTargets(asked, ids) && |asked| == |ids|
  }

  // Two high-risk doors with one key have asked about the same thing.
  lemma OneKeyOneBatch(digest: string -> string, a: Action, ids: seq<Text>, b: Action) returns (asked: seq<Text>)
    requires CollisionFree(digest)
    requires BatchDoor(digest, a, ids) && DoorKey(a) == DoorKey(b) && b.HighRisk?
    requires (exists ids :: BatchDoor(digest, b, ids)) || (exists folder :: FolderDoor(digest, b, folder))
    ensures SameBatch(digest, a, ids, b, asked)
  {
    hide AcceptableFolder, BatchFingerprint, FolderFingerprint;
    asked :| BatchDoor(digest, b, asked);
    BatchFingerprintBinding(digest, b.capability, b.owner, asked, a.capability, a.owner, ids);
    Ordering.SameMembersSameMultiset(asked, ids);
    assert |multiset(asked)| == |asked| && |multiset(ids)| == |ids|;
  }

  // The row a high-risk door leaves shows what it was asked about.
  lemma HighRiskRowShows(s: Db, es: seq<Event>, j: nat, id: nat)
    requires Valid(s) && j < |es| && es[j].action.HighRisk? && AskedAt(s, es, j, id)
    ensures var a, r := es[j].action, After(s, es, j + 1).requests[id];
            r.account == Some(a.owner) && r.target == a.target && r.targetCount == a.targetCount
  {
    hide Gate, Birth;
    RunKeepsValid(s, es, j);
    var a := es[j].action;
    BirthThrough(After(s, es, j), es[j].now, DoorKey(a).value, Some(a.owner), a.target, a.targetCount, a.effectOk, id);
  }

  // An approval that a batch spends was asked for by that very batch -- the same
  // capability, account and set of threads, and as many as its dialog showed --
  // exactly when it was not asked for through the general gate.
  lemma BatchAskedIff(digest: string -> string, s: Db, es: seq<Event>, i: nat, ids: seq<Text>)
    returns (id: nat, j: nat, k: nat)
    requires CollisionFree(digest) && RealDoors(digest, es)
    requires Fresh(s) && i < |es| && Result(s, es, i).Ahead?
    requires BatchDoor(digest, es[i].action, ids) && !Granted(After(s, es, i), DoorKey(es[i].action).value)
    ensures j < k < i && AskedAt(s, es, j, id) && DecidedAt(s, es, k, id, AllowOnce) && SpentAt(s, es, i, id)
    ensures (exists asked :: SameBatch(digest, es[i].action, ids, es[j].action, asked)) <==> !es[j].action.Authorize?
    ensures es[j].action.Authorize? ==> es[j].action.capability == es[i].action.capability
    ensures !es[j].action.Authorize? ==>
              var r := After(s, es, j + 1).requests[id];
              r.account == Some(es[i].action.owner) && r.target.None? && r.targetCount == |ids|
  {
    hide Step, Valid, Birth;
    FreshValid(s);
    id, j, k := OneShot(s, es, i);
    AskingDoor(s, es, j, id);
    if es[j].action.HighRisk? {
      assert es[j] in es;
      var asked := OneKeyOneBatch(digest, es[i].action, ids, es[j].action);
      HighRiskRowShows(s, es, j, id);
    }
  }

  // Only a door asks.
  lemma AskingDoor(s: Db, es: seq<Event>, j: nat, id: nat)
    requires j < |es| && AskedAt(s, es, j, id)
    ensures es[j].action.Authorize? || es[j].action.SendDraft? || es[j].action.HighRisk?
  {
  }

  // The batch that goes ahead on an approval is the batch the approval was asked
  // for, in every run of the doors as they are called.
  lemma ApprovedBatchIsTheAskedBatch(digest: string -> string, s: Db, es: seq<Event>, i: nat, ids: seq<Text>)
    returns (id: nat, j: nat, k: nat, asked: seq<Text>)
    requires CollisionFree(digest) && RealDoors(digest, es) && Routed(es)
    requires Fresh(s) && i < |es| && Result(s, es, i).Ahead?
    requires BatchDoor(digest, es[i].action, ids) && !Granted(After(s, es, i), DoorKey(es[i].action).value)
    ensures j < k < i && AskedAt(s, es, j, id) && DecidedAt(s, es, k, id, AllowOnce) && SpentAt(s, es, i, id)
    ensures SameBatch(digest, es[i].action, ids, es[j].action, asked)
    ensures var r := After(s, es, j + 1).requests[id];
            r.account == Some(es[i].action.owner) && r.target.None? && r.targetCount == |ids|
  {
    hide Step, Valid, Birth;
    id, j, k := BatchAskedIff(digest, s, es, i, ids);
    assert es[j] in es;
    asked :| SameBatch(digest, es[i].action, ids, es[j].action, asked);
  }

  // So is the folder, under the same condition.
  lemma ApprovedFolderIsTheAskedFolder(digest: string -> string, s: Db, es: seq<Event>, i: nat, folder: Text)
    returns (id: nat, j: nat, k: nat)
    requires CollisionFree(digest) && RealDoors(digest, es)
    requires Fresh(s) && i < |es| && Result(s, es, i).Ahead?
    requires FolderDoor(digest, es[i].action, folder) && !Granted(After(s, es, i), DoorKey(es[i].action).value)
    ensures j < k < i && AskedAt(s, es, j, id) && DecidedAt(s, es, k, id, AllowOnce) && SpentAt(s, es, i, id)
    ensures FolderDoor(digest, es[j].action, folder) && es[j].action.owner == es[i].action.owner <==>
              !es[j].action.Authorize?
    ensures Routed(es) ==> !es[j].action.Authorize?
    ensures !es[j].action.Authorize? ==>
              var r := After(s, es, j + 1).requests[id];
              r.account == Some(es[i].action.owner) && r.target == Some(folder) && r.targetCount == 1
  {
    hide Step, Valid, Birth;
    FreshValid(s);
    id, j, k := OneShot(s, es, i);
    AskingDoor(s, es, j, id);
    assert es[j] in es;
    if es[j].action.HighRisk? {
      OneKeyOneFolder(digest, es[i].action, folder, es[j].action);
      HighRiskRowShows(s, es, j, id);
    }
  }

  lemma OneKeyOneFolder(digest: string -> string, a: Action, folder: Text, b: Action)
    requires CollisionFree(digest)
    requires FolderDoor(digest, a, folder) && DoorKey(a) == DoorKey(b) && b.HighRisk?
    requires (exists ids :: BatchDoor(digest, b, ids)) || (exists folder :: FolderDoor(digest, b, folder))
    ensures FolderDoor(digest, b, folder) && b.owner == a.owner
  {
    hide AcceptableBatch, BatchFingerprint, ValidIdentifier, FolderPreimage;
    assert BULK_DELETE != DELETE_FOLDER && BULK_PERMANENT_DELETE != DELETE_FOLDER;
    assert forall ids :: !BatchDoor(digest, b, ids) by {
      hide FolderFingerprint;
      forall ids
        ensures !BatchDoor(digest, b, ids)
      {
        NotBothDoors(digest, a, folder, b, ids);
      }
    }
    var other :| FolderDoor(digest, b, other);
    var p, q := FolderPreimage(a.owner, folder), FolderPreimage(b.owner, other);
    StampSplits(DELETE_FOLDER, digest(p), DELETE_FOLDER, digest(q));
    FolderPreimageBinding(a.owner, folder, b.owner, other);
  }

  lemma NotBothDoors(digest: string -> string, a: Action, folder: Text, b: Action, ids: seq<Text>)
    requires FolderDoor(digest, a, folder) && DoorKey(a) == DoorKey(b)
    ensures !BatchDoor(digest, b, ids)
  {
    hide BatchFingerprint, FolderFingerprint, ValidIdentifier;
    assert DELETE_FOLDER[0] != BULK_DELETE[0] && DELETE_FOLDER[0] != BULK_PERMANENT_DELETE[0];
  }

  // And so is the draft, at the revision the dialog was about.
  lemma ApprovedSendIsTheAskedSend(digest: string -> string, s: Db, es: seq<Event>, i: nat)
    returns (id: nat, j: nat, k: nat)
    requires RealDoors(digest, es)
    requires Fresh(s) && i < |es| && es[i].action.SendDraft? && Result(s, es, i).Ahead?
    requires DoorKey(es[i].action).Some? ==> !Granted(After(s, es, i), DoorKey(es[i].action).value)
    ensures j < k < i && AskedAt(s, es, j, id) && DecidedAt(s, es, k, id, AllowOnce) && SpentAt(s, es, i, id)
    ensures (var a, b := es[i].action, es[j].action;
             b.SendDraft? && b.client == a.client && b.draft == a.draft && b.revision == a.revision)
            <==> !es[j].action.Authorize?
    ensures Routed(es) ==> !es[j].action.Authorize?
  {
    hide Step, Valid, Birth;
    FreshValid(s);
    RunKeepsValid(s, es, i);
    AheadReason(After(s, es, i), es[i]);
    id, j, k := OneShot(s, es, i);
    AskingDoor(s, es, j, id);
    assert es[j] in es;
    var a, b := es[i].action, es[j].action;
    if b.SendDraft? {
      SendFingerprintInjective(a.draft, a.revision.value, b.draft, b.revision.value);
    }
    if b.HighRisk? {
      NotASend(digest, b);
    }
  }

  lemma NotASend(digest: string -> string, a: Action)
    requires a.HighRisk?
    requires (exists ids :: BatchDoor(digest, a, ids)) || (exists folder :: FolderDoor(digest, a, folder))
    ensures a.capability != SEND_DRAFT
  {
    assert SEND_DRAFT[0] == 's' && BULK_DELETE[0] == BULK_PERMANENT_DELETE[0] == 'b' && DELETE_FOLDER[0] == 'd';
  }
}
