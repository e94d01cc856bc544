// The doors of crates/core/src/mcp.rs over their tables. Each of the three gate
// implementations is written out as the source has it and proved to take the one
// step McpPolicy.Step defines for it. A method that returns without assigning a
// field has dropped its transaction.
module McpCore {
  import opened Wrappers
  import opened McpFingerprint
  import opened McpPolicy
  import Ordering

  datatype Answer = Allowed | NeedsConfirmation(id: nat, expiresAt: int) | DeniedAnswer | ErrorAnswer

  function Told(out: Outcome): Answer {
    match out
    case Ahead(_) => Allowed
    case Ask(id, expiresAt) => NeedsConfirmation(id, expiresAt)
    case Failed => ErrorAnswer
    case _ => DeniedAnswer
  }

  datatype Decision = Proceed | MustAsk(id: nat, expiresAt: int) | No | GateError

  class Core {
    const digest: string -> string
    var switchOn: bool
    var clients: map<Text, Client>
    var grants: map<(Text, Text), Grant>
    var requests: Requests
    var nextId: nat
    var accounts: set<Text>

    function Tables(): Db
      reads this
    {
      Db(switchOn, clients, grants, requests, nextId, accounts)
    }

    constructor (digest: string -> string)
      ensures Tables() == Db(false, map[], map[], map[], 1, {}) && Fresh(Tables()) && Valid(Tables())
      ensures this.digest == digest
    {
      this.digest := digest;
      switchOn, clients, grants, requests, nextId, accounts := false, map[], map[], map[], 1, {};
    }

    method AuthorizeMcpAction(now: int, client: Text, ceiling: Level, capability: Text, required: Level,
                              needsConfirmation: bool, account: Option<Text>, target: Option<Text>, fingerprint: Text)
      returns (r: Answer)
      requires Valid(Tables())
      modifies this
      ensures Valid(Tables())
      ensures var a := Authorize(client, ceiling, capability, required, needsConfirmation, account, target,
                                 fingerprint);
              var (after, out) := Step(old(Tables()), now, a);
              Tables() == after && r == Told(out)
    {
      hide Latest, ValidIdentifier, Expiry, OneBlockingRowPerKey, SendStep, HighRiskStep;
      StepKeepsValid(Tables(), now, Authorize(client, ceiling, capability, required, needsConfirmation, account,
                                              target, fingerprint));
      if !ValidIdentifier(client, MAX_CLIENT_ID_BYTES)
         || !ValidIdentifier(capability, MAX_CAPABILITY_BYTES)
         || !ValidIdentifier(fingerprint, MAX_FINGERPRINT_BYTES)
         || (target.Some? && !ValidIdentifier(target.value, MAX_TARGET_ID_BYTES))
      {
        return DeniedAnswer;
      }
      if needsConfirmation && target.None? {
        return DeniedAnswer;
      }
      if !switchOn || client !in clients {
        return DeniedAnswer;
      }
      var policy := clients[client];
      if policy.enabled == 0 || Rank(ceiling) < Rank(required) || Rank(policy.level) < Rank(required) {
        return DeniedAnswer;
      }
      if (client, capability) in grants {
        match grants[(client, capability)] {
          case Refuse => return DeniedAnswer;
          case Allow => return Allowed;
        }
      }
      if !needsConfirmation {
        return Allowed;
      }
      var tx := Sweep(requests, now);
      var existing := Latest(tx, nextId, Key(client, capability, fingerprint));
      if existing.Some? {
        var id, row := existing.value, tx[existing.value];
        if row.status == AllowedOnce && row.expiresAt > now {
          tx := Mark(tx, id, Consumed, now);
          requests := tx;
          return Allowed;
        }
        if row.status == Pending && row.expiresAt > now {
          requests := tx;
          return NeedsConfirmation(id, row.expiresAt);
        }
        return DeniedAnswer;
      }
      var expiresAt := Expiry(now);
      if account.Some? && account.value !in accounts {
        return ErrorAnswer;
      }
      var id := nextId;
      tx := tx[id := Request(Key(client, capability, fingerprint), account, target, 1, Pending, now, expiresAt, None)];
      requests, nextId := tx, id + 1;
      return NeedsConfirmation(id, expiresAt);
    }

    // `revision` is the draft's current revision, None for an unknown draft;
    // `effectOk` says whether freezing and queueing the draft succeeds.
    method QueueMcpDraftSend(now: int, client: Text, ceiling: Level, account: Text, draft: Text, revision: Option<int>,
                             effectOk: bool)
      returns (r: Answer)
      requires Valid(Tables())
      modifies this
      ensures Valid(Tables())
      ensures var (after, out) := Step(old(Tables()), now,
                                       SendDraft(client, ceiling, account, draft, revision, effectOk));
              Tables() == after && r == Told(out)
    {
      hide Valid, Sweep, Mark, Latest, ValidIdentifier, SendFingerprint, AuthorizeStep, HighRiskStep;
      StepKeepsValid(Tables(), now, SendDraft(client, ceiling, account, draft, revision, effectOk));
      if !ValidIdentifier(client, MAX_CLIENT_ID_BYTES) || !ValidIdentifier(draft, MAX_TARGET_ID_BYTES) {
        return DeniedAnswer;
      }
      if !switchOn || Rank(ceiling) < Rank(Send) || client !in clients {
        return DeniedAnswer;
      }
      var policy := clients[client];
      if policy.enabled != 1 || Rank(policy.level) < Rank(Send) {
        return DeniedAnswer;
      }
      if revision.None? {
        return ErrorAnswer;
      }
      var fingerprint := SendFingerprint(draft, revision.value);
      if (client, SEND_DRAFT) in grants {
        match grants[(client, SEND_DRAFT)] {
          case Refuse => return DeniedAnswer;
          case Allow => return if effectOk then Allowed else ErrorAnswer;
        }
      }
      var tx := Sweep(requests, now);
      var existing := Latest(tx, nextId, Key(client, SEND_DRAFT, fingerprint));
      if existing.Some? {
        var id, row := existing.value, tx[existing.value];
        if row.status == AllowedOnce && row.expiresAt > now {
          tx := Mark(tx, id, Consumed, now);
          if !effectOk {
            return ErrorAnswer;
          }
          requests := tx;
          return Allowed;
        }
        if row.status == Pending && row.expiresAt > now {
          requests := tx;
          return NeedsConfirmation(id, row.expiresAt);
        }
        return DeniedAnswer;
      }
      var expiresAt := Expiry(now);
      if account !in accounts {
        return ErrorAnswer;
      }
      var id := nextId;
      tx := tx[id := Request(Key(client, SEND_DRAFT, fingerprint), Some(account), Some(draft), 1, Pending, now,
                             expiresAt, None)];
      requests, nextId := tx, id + 1;
      return NeedsConfirmation(id, expiresAt);
    }

    // high_risk_gate works on the caller's transaction and never commits: the
    // rows it leaves are handed back for the caller to commit or drop.
    method HighRiskGate(now: int, client: Text, ceiling: Level, capability: Text, account: Text, target: Option<Text>,
                        targetCount: nat, fingerprint: Text)
      returns (decision: Decision, tx: Requests, next: nat)
      requires Valid(Tables()) && ValidIdentifier(client, MAX_CLIENT_ID_BYTES)
      ensures forall effectOk ::
                var a := HighRisk(client, ceiling, capability, account, target, targetCount, fingerprint, effectOk);
                var (after, out) := Step(Tables(), now, a);
                match decision
                case No => after == Tables() && out == Turned
                case GateError => after == Tables() && out == Failed
                case MustAsk(id, expiresAt) =>
                  after == Tables().(requests := tx, nextId := next) && out == Ask(id, expiresAt)
                case Proceed =>
                  if effectOk then after == Tables().(requests := tx, nextId := next) && out.Ahead?
                  else after == Tables() && out == Failed
    {
      tx, next := requests, nextId;
      if !switchOn || Rank(ceiling) < Rank(Full) || client !in clients {
        return No, tx, next;
      }
      var policy := clients[client];
      if policy.enabled != 1 || Rank(policy.level) < Rank(Full) {
        return No, tx, next;
      }
      if account !in accounts {
        return GateError, tx, next;
      }
      if (client, capability) in grants {
        match grants[(client, capability)] {
          case Refuse => return No, tx, next;
          case Allow => return Proceed, tx, next;
        }
      }
      tx := Sweep(tx, now);
      var existing := Latest(tx, next, Key(client, capability, fingerprint));
      if existing.Some? {
        var id, row := existing.value, tx[existing.value];
        if row.status == AllowedOnce && row.expiresAt > now {
          tx := Mark(tx, id, Consumed, now);
          return Proceed, tx, next;
        }
        if row.status == Pending && row.expiresAt > now {
          return MustAsk(id, row.expiresAt), tx, next;
        }
        return No, tx, next;
      }
      var id, expiresAt := next, Expiry(now);
      tx := tx[id := Request(Key(client, capability, fingerprint), Some(account), target, targetCount, Pending, now,
                             expiresAt, None)];
      return MustAsk(id, expiresAt), tx, id + 1;
    }

    // Commits what a gate left, or drops it, as its decision and the effect say.
    method Conclude(decision: Decision, tx: Requests, next: nat, effectOk: bool) returns (r: Answer)
      modifies this`requests, this`nextId
      ensures var commit := decision.MustAsk? || (decision.Proceed? && effectOk);
              && requests == (if commit then tx else old(requests))
              && nextId == (if commit then next else old(nextId))
      ensures r == match decision
                   case No => DeniedAnswer
                   case GateError => ErrorAnswer
                   case MustAsk(id, expiresAt) => NeedsConfirmation(id, expiresAt)
                   case Proceed => if effectOk then Allowed else ErrorAnswer
    {
      match decision {
        case No => r := DeniedAnswer;
        case GateError => r := ErrorAnswer;
        case MustAsk(id, expiresAt) =>
          requests, nextId := tx, next;
          r := NeedsConfirmation(id, expiresAt);
        case Proceed =>
          if effectOk {
            requests, nextId := tx, next;
            r := Allowed;
          } else {
            r := ErrorAnswer;
          }
      }
    }

    // Bulk Trash and bulk permanent delete, told apart by `capability`.
    method QueueMcpHighRiskBatch(now: int, client: Text, ceiling: Level, capability: Text, account: Text,
                                 threadIds: seq<Text>, effectOk: bool)
      returns (r: Answer)
      requires Valid(Tables()) && BatchCapability(capability)
      modifies this
      ensures Valid(Tables())
      ensures !ValidIdentifier(client, MAX_CLIENT_ID_BYTES) ==> Tables() == old(Tables()) && r == DeniedAnswer
      ensures ValidIdentifier(client, MAX_CLIENT_ID_BYTES) && !AcceptableBatch(capability, account, threadIds) ==>
                Tables() == old(Tables()) && r == ErrorAnswer
      ensures ValidIdentifier(client, MAX_CLIENT_ID_BYTES) && AcceptableBatch(capability, account, threadIds) ==>
                var fingerprint := BatchFingerprint(digest, capability, account, threadIds);
                var a := HighRisk(client, ceiling, capability, account, None, |threadIds|, fingerprint, effectOk);
                var (after, out) := Step(old(Tables()), now, a);
                Tables() == after && r == Told(out)
    {
      hide Valid, ValidIdentifier, Gate, AcceptableBatch, BatchFingerprint;
      if !ValidIdentifier(client, MAX_CLIENT_ID_BYTES) {
        return DeniedAnswer;
      }
      var bound := ComputeBatchFingerprint(digest, capability, account, threadIds);
      if bound.None? {
        return ErrorAnswer;
      }
      var (fingerprint, count) := bound.value;
      StepKeepsValid(Tables(), now, HighRisk(client, ceiling, capability, account, None, count, fingerprint, effectOk));
      var decision, tx, next := HighRiskGate(now, client, ceiling, capability, account, None, count, fingerprint);
      r := Conclude(decision, tx, next, effectOk);
    }

    method QueueMcpDeleteFolder(now: int, client: Text, ceiling: Level, account: Text, folder: Text, effectOk: bool)
      returns (r: Answer)
      requires Valid(Tables())
      modifies this
      ensures Valid(Tables())
      ensures !ValidIdentifier(client, MAX_CLIENT_ID_BYTES) ==> Tables() == old(Tables()) && r == DeniedAnswer
      ensures ValidIdentifier(client, MAX_CLIENT_ID_BYTES) && !AcceptableFolder(account, folder) ==>
                Tables() == old(Tables()) && r == ErrorAnswer
      ensures ValidIdentifier(client, MAX_CLIENT_ID_BYTES) && AcceptableFolder(account, folder) ==>
                var fingerprint := FolderFingerprint(digest, account, folder);
                var a := HighRisk(client, ceiling, DELETE_FOLDER, account, Some(folder), 1, fingerprint, effectOk);
                var (after, out) := Step(old(Tables()), now, a);
                Tables() == after && r == Told(out)
    {
      hide Valid, ValidIdentifier, Gate, AcceptableFolder, FolderFingerprint;
      if !ValidIdentifier(client, MAX_CLIENT_ID_BYTES) {
        return DeniedAnswer;
      }
      var bound := ComputeFolderFingerprint(digest, account, folder);
      if bound.None? {
        return ErrorAnswer;
      }
      StepKeepsValid(Tables(), now, HighRisk(client, ceiling, DELETE_FOLDER, account, Some(folder), 1, bound.value,
                                             effectOk));
      var decision, tx, next := HighRiskGate(now, client, ceiling, DELETE_FOLDER, account, Some(folder), 1,
                                             bound.value);
      r := Conclude(decision, tx, next, effectOk);
    }

    method ResolveMcpConfirmation(now: int, id: nat, choice: Choice) returns (updated: bool)
      requires Valid(Tables())
      modifies this
      ensures Valid(Tables())
      ensures (Tables(), Flag(updated)) == Step(old(Tables()), now, Resolve(id, choice))
    {
      StepKeepsValid(Tables(), now, Resolve(id, choice));
      if !switchOn || id !in requests || requests[id].status != Pending {
        return false;
      }
      var row := requests[id];
      if row.expiresAt <= now {
        requests := Mark(requests, id, Expired, now);
        return false;
      }
      if choice == AlwaysAllow {
        grants := grants[(row.key.client, row.key.capability) := Allow];
      }
      requests := Mark(requests, id, Verdict(choice), now);
      return true;
    }

    method RevokeMcpClient(now: int, client: Text) returns (done: bool)
      requires Valid(Tables())
      modifies this
      ensures Valid(Tables())
      ensures (Tables(), Flag(done)) == Step(old(Tables()), now, Revoke(client))
    {
      StepKeepsValid(Tables(), now, Revoke(client));
      if !ValidIdentifier(client, MAX_CLIENT_ID_BYTES) || client !in clients || clients[client].enabled != 1 {
        return false;
      }
      clients := clients[client := clients[client].(enabled := 0)];
      grants := WithoutGrants(grants, client);
      requests := Retire(requests, client, Revoked, now);
      return true;
    }

    method ReenableMcpClient(now: int, client: Text) returns (done: bool)
      requires Valid(Tables())
      modifies this
      ensures Valid(Tables())
      ensures (Tables(), Flag(done)) == Step(old(Tables()), now, Reenable(client))
    {
      StepKeepsValid(Tables(), now, Reenable(client));
      if client != STDIO || !switchOn || client !in clients || clients[client].enabled != 0 {
        return false;
      }
      clients := clients[client := Client(1, Draft)];
      grants := WithoutGrants(grants, client);
      return true;
    }

    method SetMcpClientPermissionLevel(now: int, client: Text, level: Level) returns (changed: bool)
      requires Valid(Tables())
      modifies this
      ensures Valid(Tables())
      ensures (Tables(), Flag(changed)) == Step(old(Tables()), now, SetLevel(client, level))
    {
      StepKeepsValid(Tables(), now, SetLevel(client, level));
      if client != STDIO || client !in clients || clients[client].enabled != 1 {
        return false;
      }
      if clients[client].level == level {
        return false;
      }
      clients := clients[client := clients[client].(level := level)];
      grants := WithoutGrants(grants, client);
      requests := Retire(requests, client, Invalidated, now);
      return true;
    }

    method SetMcpEnabled(now: int, on: bool)
      requires Valid(Tables())
      modifies this
      ensures Valid(Tables())
      ensures Tables() == Step(old(Tables()), now, SetSwitch(on)).0
    {
      StepKeepsValid(Tables(), now, SetSwitch(on));
      switchOn := on;
      if on && STDIO !in clients {
        clients := clients[STDIO := Client(1, Draft)];
      }
    }

    // The expiry sweep, then the oldest pending requests, at most twenty.
    method ListPendingMcpConfirmations(now: int, limit: nat) returns (ids: seq<nat>)
      requires Valid(Tables())
      modifies this
      ensures Valid(Tables())
      ensures Tables() == Step(old(Tables()), now, ListPending).0
      ensures !switchOn ==> ids == []
      ensures switchOn ==> ShowsOldest(requests, now, limit, ids)
    {
      StepKeepsValid(Tables(), now, ListPending);
      if !switchOn {
        return [];
      }
      requests := Sweep(requests, now);
      ids := SelectPending(requests, nextId, now, limit);
    }
  }

  method SelectPending(requests: Requests, bound: nat, now: int, limit: nat) returns (ids: seq<nat>)
    requires forall id | id in requests :: id < bound
    ensures ShowsOldest(requests, now, limit, ids)
  {
    var rows: seq<nat> := [];
    for id := 0 to bound
      invariant forall x: nat :: x in rows <==> x < id && Listable(requests, x, now)
      invariant Ordering.Distinct(rows)
    {
      if Listable(requests, id, now) {
        rows := rows + [id];
      }
    }
    ids := FirstOf(Ordering.Sort(rows, Older(requests)), Clamp(limit));
    SortedInOrder(requests, now, rows);
    FrontShowsOldest(requests, now, limit, Ordering.Sort(rows, Older(requests)));
  }

  function FirstOf(rows: seq<nat>, n: nat): seq<nat> {
    if |rows| < n then rows else rows[..n]
  }

  // A request that waits for a decision and has time left.
  ghost predicate Waits(requests: Requests, id: nat, now: int) {
    id in requests && requests[id].status == Pending && now < requests[id].expiresAt
  }

  // Asked earlier, or at the same moment and recorded earlier.
  ghost predicate AskedBefore(requests: Requests, i: nat, j: nat) {
    && i in requests && j in requests
    && (requests[i].createdAt < requests[j].createdAt || (requests[i].createdAt == requests[j].createdAt && i < j))
  }

  // The waiting requests in the order they were asked, as many as the caller wants, but
  // at least one and at most twenty; whichever is left out was asked after all of them.
  ghost predicate ShowsOldest(requests: Requests, now: int, limit: nat, ids: seq<nat>) {
    && (forall k | 0 <= k < |ids| :: Waits(requests, ids[k], now))
    && (forall j, k | 0 <= j < k < |ids| :: AskedBefore(requests, ids[j], ids[k]))
    && |ids| <= (if limit == 0 then 1 else if limit <= 20 then limit else 20)
    && (forall id: nat | Waits(requests, id, now) && id !in ids ::
          && |ids| == (if limit == 0 then 1 else if limit <= 20 then limit else 20)
          && forall k | 0 <= k < |ids| :: AskedBefore(requests, ids[k], id))
  }

  // All of them, in that order.
  ghost predicate AllInOrder(requests: Requests, now: int, all: seq<nat>) {
    && (forall id: nat | Waits(requests, id, now) :: id in all)
    && (forall k | 0 <= k < |all| :: Waits(requests, all[k], now))
    && (forall j, k | 0 <= j < k < |all| :: AskedBefore(requests, all[j], all[k]))
  }

  lemma SortedInOrder(requests: Requests, now: int, rows: seq<nat>)
    requires Ordering.Distinct(rows) && forall x: nat :: x in rows <==> Listable(requests, x, now)
    ensures AllInOrder(requests, now, Ordering.Sort(rows, Older(requests)))
  {
    var all := Ordering.Sort(rows, Older(requests));
    OlderTotal(requests);
    Ordering.SortSorts(rows, Older(requests));
    Ordering.SortMembers(rows, Older(requests));
    Ordering.DistinctByMultiset(rows, all);
    hide Ordering.Sort, Ordering.TotalPreorder, Ordering.TotalOrder;
    ListedInOrder(requests, now, all);
  }

  lemma ListedInOrder(requests: Requests, now: int, all: seq<nat>)
    requires Ordering.Sorted(all, Older(requests)) && Ordering.Distinct(all)
    requires forall id: nat :: id in all <==> Listable(requests, id, now)
    ensures AllInOrder(requests, now, all)
  {
    assert forall k | 0 <= k < |all| :: all[k] in all;
  }

  lemma FrontShowsOldest(requests: Requests, now: int, limit: nat, all: seq<nat>)
    requires AllInOrder(requests, now, all)
    ensures ShowsOldest(requests, now, limit, FirstOf(all, Clamp(limit)))
  {
    hide Waits, AskedBefore;
    var ids := FirstOf(all, Clamp(limit));
    forall id: nat | Waits(requests, id, now) && id !in ids
      ensures |ids| == Clamp(limit) && forall k | 0 <= k < |ids| :: AskedBefore(requests, ids[k], id)
    {
      assert id in all;
      var n :| 0 <= n < |all| && all[n] == id;
      assert n >= |ids|;
    }
  }

  function Clamp(limit: nat): nat {
    if limit < 1 then 1 else if limit > 20 then 20 else limit
  }

  predicate Listable(requests: Requests, id: nat, now: int) {
    id in requests && requests[id].status == Pending && requests[id].expiresAt > now
  }

  // ORDER BY created_at ASC, id ASC.
  function Older(requests: Requests): (nat, nat) -> bool {
    (i: nat, j: nat) =>
      var a := if i in requests then requests[i].createdAt else 0;
      var b := if j in requests then requests[j].createdAt else 0;
      a < b || (a == b && i <= j)
  }

  lemma OlderTotal(requests: Requests)
    ensures Ordering.TotalOrder(Older(requests))
  {
  }
}
