// The policy and confirmation protocol of crates/core/src/mcp.rs as a state
// machine. A committed transaction is one step; a returned error or a refusal
// drops the transaction, so the step leaves the tables as they were.
module McpPolicy {
  import opened Wrappers
  import opened McpFingerprint

  type Text = string

  datatype Level = Read | Draft | Send | Full

  function Rank(level: Level): nat {
    match level
    case Read => 0
    case Draft => 1
    case Send => 2
    case Full => 3
  }

  datatype Choice = Deny | AllowOnce | AlwaysAllow

  datatype Status = Pending | AllowedOnce | Denied | AllowedAlways | Expired | Revoked | Invalidated | Consumed

  datatype Grant = Allow | Refuse

  datatype Client = Client(enabled: int, level: Level)

  // What a request is matched by: never the arguments, only this.
  datatype Key = Key(client: Text, capability: Text, fingerprint: Text)

  datatype Request = Request(
    key: Key,
    account: Option<Text>,
    target: Option<Text>,
    targetCount: nat,
    status: Status,
    createdAt: int,
    expiresAt: int,
    resolvedAt: Option<int>)

  type Requests = map<nat, Request>

  // The tables this file reads and writes. `nextId` is the AUTOINCREMENT counter.
  datatype Db = Db(
    switchOn: bool,
    clients: map<Text, Client>,
    grants: map<(Text, Text), Grant>,
    requests: Requests,
    nextId: nat,
    accounts: set<Text>)

  datatype Action =
    | Authorize(client: Text, ceiling: Level, capability: Text, required: Level, needsConfirmation: bool,
                account: Option<Text>, target: Option<Text>, fingerprint: Text)
    | SendDraft(client: Text, ceiling: Level, sender: Text, draft: Text, revision: Option<int>, effectOk: bool)
    | HighRisk(client: Text, ceiling: Level, capability: Text, owner: Text, target: Option<Text>,
               targetCount: nat, fingerprint: Text, effectOk: bool)
    | Resolve(id: nat, choice: Choice)
    | ListPending
    | Revoke(client: Text)
    | Reenable(client: Text)
    | SetLevel(client: Text, level: Level)
    | SetSwitch(on: bool)
    | AddAccount(added: Text)
    | RemoveAccount(removed: Text)

  // Why an action went ahead.
  datatype Reason = LevelAlone | ByGrant | ByRequest(id: nat)

  datatype Outcome =
    | Ahead(reason: Reason)
    | Ask(id: nat, expiresAt: int)
    | Turned            // the caller is told "denied"
    | Failed            // the caller gets an error
    | Flag(changed: bool)
    | Done

  const TTL_SECS := 120
  const I64_MAX := 0x7fff_ffff_ffff_ffff
  const STDIO := "stdio"

  function Expiry(now: int): int {
    if now + TTL_SECS > I64_MAX then I64_MAX else now + TTL_SECS
  }

  // ---- statements on the request table ----

  predicate Live(status: Status) {
    status == Pending || status == AllowedOnce
  }

  predicate Blocking(status: Status) {
    Live(status) || status == Denied
  }

  function Close(row: Request, status: Status, now: int): Request {
    row.(status := status, resolvedAt := Some(now))
  }

  predicate Overdue(row: Request, now: int) {
    row.status == Pending && row.expiresAt <= now
  }

  function Sweep(requests: Requests, now: int): Requests {
    map id | id in requests :: if Overdue(requests[id], now) then Close(requests[id], Expired, now) else requests[id]
  }

  function Mark(requests: Requests, id: nat, status: Status, now: int): Requests
    requires id in requests
  {
    requests[id := Close(requests[id], status, now)]
  }

  function Retire(requests: Requests, client: Text, status: Status, now: int): Requests {
    map id | id in requests ::
      if requests[id].key.client == client && Live(requests[id].status)
      then Close(requests[id], status, now) else requests[id]
  }

  predicate Matches(requests: Requests, id: nat, key: Key) {
    id in requests && requests[id].key == key && Blocking(requests[id].status)
  }

  // ORDER BY id DESC LIMIT 1 among the rows below `bound`.
  function Latest(requests: Requests, bound: nat, key: Key): (r: Option<nat>)
    ensures r.Some? ==> r.value < bound && Matches(requests, r.value, key)
    ensures r.Some? ==> forall id | r.value < id < bound :: !Matches(requests, id, key)
    ensures r.None? ==> forall id | 0 <= id < bound :: !Matches(requests, id, key)
  {
    if bound == 0 then None
    else if Matches(requests, bound - 1, key) then Some(bound - 1)
    else Latest(requests, bound - 1, key)
  }

  // ---- the gate the three doors share ----

  // The caller's and the stored level both reach `required` and the client is on.
  predicate Entitled(db: Db, client: Text, ceiling: Level, required: Level) {
    && db.switchOn
    && client in db.clients
    && db.clients[client].enabled == 1
    && Rank(ceiling) >= Rank(required)
    && Rank(db.clients[client].level) >= Rank(required)
  }

  function Gate(db: Db, now: int, key: Key, account: Option<Text>, target: Option<Text>, count: nat,
                effectOk: bool): (Db, Outcome) {
    var grant := (key.client, key.capability);
    if grant in db.grants && db.grants[grant] == Refuse then (db, Turned)
    else if grant in db.grants then (db, if effectOk then Ahead(ByGrant) else Failed)
    else
      var swept := Sweep(db.requests, now);
      match Latest(swept, db.nextId, key)
      case Some(id) =>
        if swept[id].status == AllowedOnce && swept[id].expiresAt > now then
          if effectOk then (db.(requests := Mark(swept, id, Consumed, now)), Ahead(ByRequest(id))) else (db, Failed)
        else if swept[id].status == Pending && swept[id].expiresAt > now then
          (db.(requests := swept), Ask(id, swept[id].expiresAt))
        else (db, Turned)
      case None =>
        if account.Some? && account.value !in db.accounts then (db, Failed)
        else
          var row := Request(key, account, target, count, Pending, now, Expiry(now), None);
          (db.(requests := swept[db.nextId := row], nextId := db.nextId + 1), Ask(db.nextId, row.expiresAt))
  }

  // The key a door action asks about, when it gets as far as asking.
  function DoorKey(a: Action): Option<Key> {
    match a
    case Authorize(client, _, capability, _, _, _, _, fingerprint) => Some(Key(client, capability, fingerprint))
    case SendDraft(client, _, _, draft, Some(revision), _) =>
      Some(Key(client, SEND_DRAFT, SendFingerprint(draft, revision)))
    case HighRisk(client, _, capability, _, _, _, fingerprint, _) => Some(Key(client, capability, fingerprint))
    case _ => None
  }

  predicate WellFormedAuthorize(client: Text, capability: Text, needsConfirmation: bool, target: Option<Text>,
                                fingerprint: Text) {
    && ValidIdentifier(client, MAX_CLIENT_ID_BYTES)
    && ValidIdentifier(capability, MAX_CAPABILITY_BYTES)
    && ValidIdentifier(fingerprint, MAX_FINGERPRINT_BYTES)
    && (target.Some? ==> ValidIdentifier(target.value, MAX_TARGET_ID_BYTES))
    && (needsConfirmation ==> target.Some?)
  }

  function AuthorizeStep(db: Db, now: int, a: Action): (Db, Outcome)
    requires a.Authorize?
  {
    if !WellFormedAuthorize(a.client, a.capability, a.needsConfirmation, a.target, a.fingerprint)
       || !Entitled(db, a.client, a.ceiling, a.required) then (db, Turned)
    else if a.needsConfirmation then
      Gate(db, now, Key(a.client, a.capability, a.fingerprint), a.account, a.target, 1, true)
    else
      var grant := (a.client, a.capability);
      if grant !in db.grants then (db, Ahead(LevelAlone))
      else if db.grants[grant] == Refuse then (db, Turned)
      else (db, Ahead(ByGrant))
  }

  function SendStep(db: Db, now: int, a: Action): (Db, Outcome)
    requires a.SendDraft?
  {
    if !ValidIdentifier(a.client, MAX_CLIENT_ID_BYTES) || !ValidIdentifier(a.draft, MAX_TARGET_ID_BYTES)
       || !Entitled(db, a.client, a.ceiling, Send) then (db, Turned)
    else if a.revision.None? then (db, Failed)
    else
      Gate(db, now, Key(a.client, SEND_DRAFT, SendFingerprint(a.draft, a.revision.value)),
           Some(a.sender), Some(a.draft), 1, a.effectOk)
  }

  function HighRiskStep(db: Db, now: int, a: Action): (Db, Outcome)
    requires a.HighRisk?
  {
    if !ValidIdentifier(a.client, MAX_CLIENT_ID_BYTES) || !Entitled(db, a.client, a.ceiling, Full) then (db, Turned)
    else if a.owner !in db.accounts then (db, Failed)
    else Gate(db, now, Key(a.client, a.capability, a.fingerprint), Some(a.owner), a.target, a.targetCount, a.effectOk)
  }

  function Verdict(choice: Choice): Status {
    match choice
    case Deny => Denied
    case AllowOnce => AllowedOnce
    case AlwaysAllow => AllowedAlways
  }

  function ResolveStep(db: Db, now: int, id: nat, choice: Choice): (Db, Outcome) {
    if !db.switchOn || id !in db.requests || db.requests[id].status != Pending then (db, Flag(false))
    else if db.requests[id].expiresAt <= now then (db.(requests := Mark(db.requests, id, Expired, now)), Flag(false))
    else
      var key := db.requests[id].key;
      var grants := if choice == AlwaysAllow then db.grants[(key.client, key.capability) := Allow] else db.grants;
      (db.(grants := grants, requests := Mark(db.requests, id, Verdict(choice), now)), Flag(true))
  }

  function WithoutGrants(grants: map<(Text, Text), Grant>, client: Text): map<(Text, Text), Grant> {
    map g | g in grants && g.0 != client :: grants[g]
  }

  function RevokeStep(db: Db, now: int, client: Text): (Db, Outcome) {
    if !ValidIdentifier(client, MAX_CLIENT_ID_BYTES) || client !in db.clients || db.clients[client].enabled != 1
    then (db, Flag(false))
    else
      (db.(clients := db.clients[client := db.clients[client].(enabled := 0)],
           grants := WithoutGrants(db.grants, client),
           requests := Retire(db.requests, client, Revoked, now)), Flag(true))
  }

  function ReenableStep(db: Db, client: Text): (Db, Outcome) {
    if client != STDIO || !db.switchOn || client !in db.clients || db.clients[client].enabled != 0
    then (db, Flag(false))
    else
      (db.(clients := db.clients[client := Client(1, Draft)], grants := WithoutGrants(db.grants, client)), Flag(true))
  }

  function SetLevelStep(db: Db, now: int, client: Text, level: Level): (Db, Outcome) {
    if client != STDIO || client !in db.clients || db.clients[client].enabled != 1 || db.clients[client].level == level
    then (db, Flag(false))
    else
      (db.(clients := db.clients[client := db.clients[client].(level := level)],
           grants := WithoutGrants(db.grants, client),
           requests := Retire(db.requests, client, Invalidated, now)), Flag(true))
  }

  function SetSwitchStep(db: Db, on: bool): (Db, Outcome) {
    var clients := if on && STDIO !in db.clients then db.clients[STDIO := Client(1, Draft)] else db.clients;
    (db.(switchOn := on, clients := clients), Done)
  }

  // ON DELETE CASCADE from accounts to requests.
  function RemoveAccountStep(db: Db, account: Text): (Db, Outcome) {
    var kept := map id | id in db.requests && db.requests[id].account != Some(account) :: db.requests[id];
    (db.(accounts := db.accounts - {account}, requests := kept), Done)
  }

  function Step(db: Db, now: int, a: Action): (Db, Outcome) {
    match a
    case Authorize(_, _, _, _, _, _, _, _) => AuthorizeStep(db, now, a)
    case SendDraft(_, _, _, _, _, _) => SendStep(db, now, a)
    case HighRisk(_, _, _, _, _, _, _, _) => HighRiskStep(db, now, a)
    case Resolve(id, choice) => ResolveStep(db, now, id, choice)
    case ListPending => (if db.switchOn then db.(requests := Sweep(db.requests, now)) else db, Done)
    case Revoke(client) => RevokeStep(db, now, client)
    case Reenable(client) => ReenableStep(db, client)
    case SetLevel(client, level) => SetLevelStep(db, now, client, level)
    case SetSwitch(on) => SetSwitchStep(db, on)
    case AddAccount(account) => (db.(accounts := db.accounts + {account}), Done)
    case RemoveAccount(account) => RemoveAccountStep(db, account)
  }

  // ---- what every reachable state satisfies ----

  ghost predicate Enabled(db: Db, client: Text) {
    client in db.clients && db.clients[client].enabled == 1
  }

  ghost predicate Valid(db: Db) {
    && (forall id | id in db.requests :: id < db.nextId)
    && (forall c | c in db.clients :: db.clients[c].enabled == 0 || db.clients[c].enabled == 1)
    && (forall g | g in db.grants :: Enabled(db, g.0))
    && (forall id | id in db.requests && Live(db.requests[id].status) :: Enabled(db, db.requests[id].key.client))
    && OneBlockingRowPerKey(db.requests)
  }

  ghost predicate OneBlockingRowPerKey(requests: Requests) {
    forall i, j | i in requests && j in requests
                  && Blocking(requests[i].status) && Blocking(requests[j].status)
                  && requests[i].key == requests[j].key :: i == j
  }

  ghost predicate Fresh(db: Db) {
    db.clients == map[] && db.grants == map[] && db.requests == map[]
  }

  lemma FreshValid(db: Db)
    requires Fresh(db)
    ensures Valid(db)
  {
  }

  // No row appears, changes key, or returns to a status it had left.
  ghost predicate Narrows(old_: Requests, new_: Requests) {
    && new_.Keys <= old_.Keys
    && forall id | id in new_ ::
         && new_[id].key == old_[id].key
         && (Blocking(new_[id].status) ==> Blocking(old_[id].status))
         && (Live(new_[id].status) ==> Live(old_[id].status))
  }

  lemma NarrowingKeepsValid(db: Db, requests: Requests)
    requires Valid(db) && Narrows(db.requests, requests)
    ensures Valid(db.(requests := requests))
  {
  }

  lemma InsertKeepsValid(db: Db, row: Request)
    requires Valid(db) && Enabled(db, row.key.client)
    requires forall id | id in db.requests :: !Matches(db.requests, id, row.key)
    ensures Valid(db.(requests := db.requests[db.nextId := row], nextId := db.nextId + 1))
  {
    var requests := db.requests[db.nextId := row];
    forall i, j | i in requests && j in requests
                  && Blocking(requests[i].status) && Blocking(requests[j].status)
                  && requests[i].key == requests[j].key
      ensures i == j
    {
      assert i in db.requests ==> i != db.nextId && !Matches(db.requests, i, row.key);
      assert j in db.requests ==> j != db.nextId && !Matches(db.requests, j, row.key);
    }
  }

  lemma SweepKeepsValid(db: Db, now: int)
    requires Valid(db)
    ensures Valid(db.(requests := Sweep(db.requests, now)))
  {
    NarrowingKeepsValid(db, Sweep(db.requests, now));
  }

  lemma MarkKeepsValid(db: Db, id: nat, status: Status, now: int)
    requires Valid(db) && id in db.requests
    requires Blocking(status) ==> db.requests[id].status == Pending
    requires status != Pending
    ensures Valid(db.(requests := Mark(db.requests, id, status, now)))
  {
    NarrowingKeepsValid(db, Mark(db.requests, id, status, now));
  }

  lemma GateKeepsValid(db: Db, now: int, key: Key, account: Option<Text>, target: Option<Text>, count: nat,
                       effectOk: bool)
    requires Valid(db) && Enabled(db, key.client)
    ensures Valid(Gate(db, now, key, account, target, count, effectOk).0)
  {
    var mid := db.(requests := Sweep(db.requests, now));
    SweepKeepsValid(db, now);
    match Latest(mid.requests, db.nextId, key)
    case Some(id) => MarkKeepsValid(mid, id, Consumed, now);
    case None => InsertKeepsValid(mid, Request(key, account, target, count, Pending, now, Expiry(now), None));
  }

  lemma PolicyBoundaryKeepsValid(db: Db, client: Text, settings: Client, status: Status, now: int)
    requires Valid(db) && client in db.clients
    requires settings.enabled == 0 || settings.enabled == 1
    requires !Blocking(status)
    ensures Valid(db.(clients := db.clients[client := settings],
                      grants := WithoutGrants(db.grants, client),
                      requests := Retire(db.requests, client, status, now)))
  {
    var mid := db.(requests := Retire(db.requests, client, status, now));
    NarrowingKeepsValid(db, mid.requests);
    assert forall id | id in mid.requests && Live(mid.requests[id].status) :: mid.requests[id].key.client != client;
    ClientIsFree(mid, client, settings);
  }

  // A client with no live request may change in any way, losing its grants.
  lemma ClientIsFree(db: Db, client: Text, settings: Client)
    requires Valid(db)
    requires settings.enabled == 0 || settings.enabled == 1
    requires forall id | id in db.requests && Live(db.requests[id].status) :: db.requests[id].key.client != client
    ensures Valid(db.(clients := db.clients[client := settings], grants := WithoutGrants(db.grants, client)))
  {
    hide OneBlockingRowPerKey;
  }

  // With no live request to retire, retiring is the identity.
  lemma NothingToRetire(db: Db, client: Text, status: Status, now: int)
    requires Valid(db) && !Enabled(db, client)
    ensures Retire(db.requests, client, status, now) == db.requests
  {
  }

  lemma ResolveKeepsValid(db: Db, now: int, id: nat, choice: Choice)
    requires Valid(db)
    ensures Valid(ResolveStep(db, now, id, choice).0)
  {
    if id in db.requests && db.requests[id].status == Pending {
      MarkKeepsValid(db, id, Expired, now);
      MarkKeepsValid(db, id, Verdict(choice), now);
    }
  }

  // A disabled client has no grant and no live request, in every reachable state.
  lemma StepKeepsValid(db: Db, now: int, a: Action)
    requires Valid(db)
    ensures Valid(Step(db, now, a).0)
  {
    hide Gate;
    match a
    case Authorize(client, ceiling, capability, required, needs, account, target, fingerprint) =>
      if Entitled(db, client, ceiling, required) {
        GateKeepsValid(db, now, Key(client, capability, fingerprint), account, target, 1, true);
      }
    case SendDraft(client, ceiling, sender, draft, revision, effectOk) =>
      if Entitled(db, client, ceiling, Send) && revision.Some? {
        GateKeepsValid(db, now, Key(client, SEND_DRAFT, SendFingerprint(draft, revision.value)), Some(sender),
                       Some(draft), 1, effectOk);
      }
    case HighRisk(client, ceiling, capability, owner, target, count, fingerprint, effectOk) =>
      if Entitled(db, client, ceiling, Full) {
        GateKeepsValid(db, now, Key(client, capability, fingerprint), Some(owner), target, count, effectOk);
      }
    case Resolve(id, choice) => ResolveKeepsValid(db, now, id, choice);
    case ListPending => SweepKeepsValid(db, now);
    case Revoke(client) =>
      if client in db.clients {
        PolicyBoundaryKeepsValid(db, client, db.clients[client].(enabled := 0), Revoked, now);
      }
    case Reenable(client) =>
      if client in db.clients && db.clients[client].enabled == 0 {
        NothingToRetire(db, client, Revoked, now);
        PolicyBoundaryKeepsValid(db, client, Client(1, Draft), Revoked, now);
      }
    case SetLevel(client, level) =>
      if client in db.clients && db.clients[client].enabled == 1 {
        PolicyBoundaryKeepsValid(db, client, db.clients[client].(level := level), Invalidated, now);
      }
    case SetSwitch(on) =>
    case AddAccount(account) =>
    case RemoveAccount(account) => NarrowingKeepsValid(db, RemoveAccountStep(db, account).0.requests);
  }
}
