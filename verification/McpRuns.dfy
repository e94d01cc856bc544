// Runs of the confirmation protocol: any interleaving of the three doors with
// the window's decisions and the policy changes, at any clock readings.
module McpRuns {
  import opened Wrappers
  import opened McpPolicy

  datatype Event = Event(now: int, action: Action)

  function After(s: Db, es: seq<Event>, i: nat): Db
    requires i <= |es|
  {
    if i == 0 then s else Step(After(s, es, i - 1), es[i - 1].now, es[i - 1].action).0
  }

  function Result(s: Db, es: seq<Event>, i: nat): Outcome
    requires i < |es|
  {
    Step(After(s, es, i), es[i].now, es[i].action).1
  }

  predicate NeedsConfirmation(a: Action) {
    (a.Authorize? && a.needsConfirmation) || a.SendDraft? || a.HighRisk?
  }

  predicate Granted(db: Db, key: Key) {
    (key.client, key.capability) in db.grants
  }

  // ---- one step, seen from one row ----

  // Everything a step may do to a row that was there.
  ghost predicate RowChange(e: Event, out: Outcome, id: nat, r: Request, r': Request) {
    || (r' == r && out != Ahead(ByRequest(id)))
    || (out == Ahead(ByRequest(id)) && Spends(e, r) && r' == Close(r, Consumed, e.now))
    || (out != Ahead(ByRequest(id)) && Overdue(r, e.now) && r' == Close(r, Expired, e.now))
    || (out == Flag(true) && e.action.Resolve? && e.action.id == id && r.status == Pending && e.now < r.expiresAt
        && r' == Close(r, Verdict(e.action.choice), e.now))
    || (out == Flag(true) && e.action == Revoke(r.key.client) && Live(r.status) && r' == Close(r, Revoked, e.now))
    || (out == Flag(true) && e.action.SetLevel? && e.action.client == r.key.client && Live(r.status)
        && r' == Close(r, Invalidated, e.now))
  }

  ghost predicate Spends(e: Event, r: Request) {
    && r.status == AllowedOnce && e.now < r.expiresAt
    && NeedsConfirmation(e.action) && DoorKey(e.action) == Some(r.key)
  }

  lemma GateRow(db: Db, now: int, key: Key, account: Option<Text>, target: Option<Text>, count: nat, effectOk: bool,
                id: nat)
    requires id in db.requests && id < db.nextId
    ensures var (db', out) := Gate(db, now, key, account, target, count, effectOk);
            && id in db'.requests
            && var r, r' := db.requests[id], db'.requests[id];
               || (r' == r && out != Ahead(ByRequest(id)))
               || (Overdue(r, now) && r' == Close(r, Expired, now) && out != Ahead(ByRequest(id)))
               || (out == Ahead(ByRequest(id)) && r.status == AllowedOnce && now < r.expiresAt && r.key == key
                   && r' == Close(r, Consumed, now))
  {
  }

  // A row leaves only with its account, and otherwise changes only as RowChange says.
  lemma RowStep(db: Db, e: Event, id: nat)
    requires Valid(db) && id in db.requests
    ensures var (db', out) := Step(db, e.now, e.action);
            if id in db'.requests then RowChange(e, out, id, db.requests[id], db'.requests[id])
            else e.action.RemoveAccount? && db.requests[id].account == Some(e.action.removed)
  {
    hide Gate;
    match e.action
    case Authorize(client, _, capability, _, _, account, target, fingerprint) =>
      GateRow(db, e.now, Key(client, capability, fingerprint), account, target, 1, true, id);
    case SendDraft(client, _, sender, draft, revision, effectOk) =>
      if revision.Some? {
        GateRow(db, e.now, DoorKey(e.action).value, Some(sender), Some(draft), 1, effectOk, id);
      }
    case HighRisk(client, _, capability, owner, target, count, fingerprint, effectOk) =>
      GateRow(db, e.now, Key(client, capability, fingerprint), Some(owner), target, count, effectOk, id);
    case _ =>
  }

  // A row appears only as the pending request its door reports, under a fresh id,
  // when no row of that key is pending, approved or denied.
  ghost predicate Birth(db: Db, e: Event, id: nat, r: Request) {
    && id == db.nextId
    && NeedsConfirmation(e.action) && DoorKey(e.action) == Some(r.key)
    && r.status == Pending && r.createdAt == e.now && r.expiresAt == Expiry(e.now)
    && Step(db, e.now, e.action).1 == Ask(id, r.expiresAt)
    && (forall i | i in db.requests && db.requests[i].key == r.key ::
          Blocking(db.requests[i].status) ==> Overdue(db.requests[i], e.now))
  }

  lemma GateBirth(db: Db, now: int, key: Key, account: Option<Text>, target: Option<Text>, count: nat, effectOk: bool,
                  id: nat)
    requires Valid(db) && id !in db.requests
    requires id in Gate(db, now, key, account, target, count, effectOk).0.requests
    ensures var (db', out) := Gate(db, now, key, account, target, count, effectOk);
            && id == db.nextId
            && db'.requests[id] == Request(key, account, target, count, Pending, now, Expiry(now), None)
            && out == Ask(id, Expiry(now))
            && (forall i | i in db.requests && db.requests[i].key == key ::
                  Blocking(db.requests[i].status) ==> Overdue(db.requests[i], now))
  {
    var swept := Sweep(db.requests, now);
    forall i | i in db.requests && db.requests[i].key == key && Blocking(db.requests[i].status)
      ensures Overdue(db.requests[i], now)
    {
      assert !Matches(swept, i, key);
    }
  }

  lemma GateCounter(db: Db, now: int, key: Key, account: Option<Text>, target: Option<Text>, count: nat, effectOk: bool)
    ensures db.nextId <= Gate(db, now, key, account, target, count, effectOk).0.nextId
  {
  }

  lemma RowBirth(db: Db, e: Event, id: nat)
    requires Valid(db) && id !in db.requests
    ensures var db' := Step(db, e.now, e.action).0;
            && db.nextId <= db'.nextId
            && (id in db'.requests ==> Birth(db, e, id, db'.requests[id]))
  {
    hide Gate;
    var db' := Step(db, e.now, e.action).0;
    match e.action
    case Authorize(client, _, capability, _, _, account, target, fingerprint) =>
      BirthThrough(db, e.now, Key(client, capability, fingerprint), account, target, 1, true, id);
    case SendDraft(client, _, sender, draft, revision, effectOk) =>
      if revision.Some? {
        BirthThrough(db, e.now, DoorKey(e.action).value, Some(sender), Some(draft), 1, effectOk, id);
      }
    case HighRisk(client, _, capability, owner, target, count, fingerprint, effectOk) =>
      BirthThrough(db, e.now, Key(client, capability, fingerprint), Some(owner), target, count, effectOk, id);
    case _ =>
  }

  lemma BirthThrough(db: Db, now: int, key: Key, account: Option<Text>, target: Option<Text>, count: nat,
                     effectOk: bool, id: nat)
    requires Valid(db) && id !in db.requests
    ensures var (db', out) := Gate(db, now, key, account, target, count, effectOk);
            && db.nextId <= db'.nextId
            && (id in db'.requests ==>
                  && id == db.nextId
                  && db'.requests[id] == Request(key, account, target, count, Pending, now, Expiry(now), None)
                  && out == Ask(id, Expiry(now))
                  && (forall i | i in db.requests && db.requests[i].key == key ::
                        Blocking(db.requests[i].status) ==> Overdue(db.requests[i], now)))
  {
    hide Gate;
    GateCounter(db, now, key, account, target, count, effectOk);
    if id in Gate(db, now, key, account, target, count, effectOk).0.requests {
      GateBirth(db, now, key, account, target, count, effectOk, id);
    }
  }

  // A grant appears only by an Always-allow of a request that was pending.
  lemma GrantBirth(db: Db, e: Event, grant: (Text, Text))
    requires Valid(db) && grant !in db.grants
    ensures grant in Step(db, e.now, e.action).0.grants ==>
              && e.action.Resolve? && e.action.choice == AlwaysAllow && e.action.id in db.requests
              && var r := db.requests[e.action.id];
                 && r.status == Pending && e.now < r.expiresAt && (r.key.client, r.key.capability) == grant
                 && e.action.id in Step(db, e.now, e.action).0.requests
                 && Step(db, e.now, e.action).0.requests[e.action.id].status == AllowedAlways
  {
  }

  // ---- refusals and errors ----

  // A refusal or an error leaves every table as it was: nothing is consumed,
  // nothing is asked, nothing expires.
  lemma RefusalChangesNothing(db: Db, now: int, a: Action)
    requires Step(db, now, a).1 in {Turned, Failed}
    ensures Step(db, now, a).0 == db
  {
  }

  // The checks in front of the gate, and success of the effect behind it.
  ghost predicate Admitted(db: Db, a: Action)
    requires NeedsConfirmation(a)
  {
    match a
    case Authorize(client, ceiling, capability, required, needs, account, target, fingerprint) =>
      WellFormedAuthorize(client, capability, needs, target, fingerprint) && Entitled(db, client, ceiling, required)
    case SendDraft(client, ceiling, sender, draft, revision, effectOk) =>
      && McpFingerprint.ValidIdentifier(client, McpFingerprint.MAX_CLIENT_ID_BYTES)
      && McpFingerprint.ValidIdentifier(draft, McpFingerprint.MAX_TARGET_ID_BYTES)
      && Entitled(db, client, ceiling, Send) && revision.Some? && effectOk
    case HighRisk(client, ceiling, capability, owner, target, count, fingerprint, effectOk) =>
      && McpFingerprint.ValidIdentifier(client, McpFingerprint.MAX_CLIENT_ID_BYTES)
      && Entitled(db, client, ceiling, Full) && owner in db.accounts && effectOk
    case _ => false
  }

  // Without a grant, an action that needs confirmation goes ahead exactly when
  // its checks pass, its effect succeeds and an unexpired one-time approval of
  // its own key exists.
  lemma AheadIffApproved(db: Db, now: int, a: Action)
    requires Valid(db) && NeedsConfirmation(a)
    requires DoorKey(a).Some? && !Granted(db, DoorKey(a).value)
    ensures Step(db, now, a).1.Ahead? <==>
              Admitted(db, a) && (exists id | id in db.requests :: Spends(Event(now, a), db.requests[id]))
  {
    var key := DoorKey(a).value;
    var swept := Sweep(db.requests, now);
    if id :| id in db.requests && Spends(Event(now, a), db.requests[id]) {
      BlockerIsLatest(db, now, id, key);
    }
  }

  // The one row of a key that blocks, and does not lapse in the sweep, is the row
  // the gate looks up.
  lemma BlockerIsLatest(db: Db, now: int, id: nat, key: Key)
    requires Valid(db) && Matches(db.requests, id, key) && !Overdue(db.requests[id], now)
    ensures Latest(Sweep(db.requests, now), db.nextId, key) == Some(id)
  {
    var swept := Sweep(db.requests, now);
    assert Matches(swept, id, key);
    var latest := Latest(swept, db.nextId, key);
    assert latest.Some?;
    assert OneBlockingRowPerKey(db.requests);
  }

  // An approval that lapsed unspent answers every door of its key.
  lemma LapsedApprovalRefuses(db: Db, now: int, a: Action, id: nat)
    requires Valid(db) && NeedsConfirmation(a)
    requires id in db.requests && db.requests[id].status == AllowedOnce && db.requests[id].expiresAt <= now
    requires DoorKey(a) == Some(db.requests[id].key)
    ensures Step(db, now, a).1 in {Turned, Failed, Ahead(ByGrant)}
  {
    BlockerIsLatest(db, now, id, db.requests[id].key);
  }

  // ---- whole runs ----

  lemma {:induction false} RunKeepsValid(s: Db, es: seq<Event>, i: nat)
    requires Valid(s) && i <= |es|
    ensures Valid(After(s, es, i))
  {
    hide Step, Valid;
    if i > 0 {
      RunKeepsValid(s, es, i - 1);
      StepKeepsValid(After(s, es, i - 1), es[i - 1].now, es[i - 1].action);
    }
  }

  // In every state of every run a disabled client has no grant and no live request.
  lemma DisabledHasNothing(s: Db, es: seq<Event>, i: nat, client: Text)
    requires Valid(s) && i <= |es|
    requires !Enabled(After(s, es, i), client)
    ensures forall g | g in After(s, es, i).grants :: g.0 != client
    ensures forall id | id in After(s, es, i).requests && Live(After(s, es, i).requests[id].status) ::
              After(s, es, i).requests[id].key.client != client
  {
    RunKeepsValid(s, es, i);
  }

  // How far a status can get.
  predicate Reaches(from: Status, to: Status) {
    || from == to
    || from == Pending
    || (from == AllowedOnce && to in {Consumed, Revoked, Invalidated})
  }

  predicate SameRequest(r: Request, r': Request) {
    && r'.key == r.key && r'.account == r.account && r'.target == r.target && r'.targetCount == r.targetCount
    && r'.createdAt == r.createdAt && r'.expiresAt == r.expiresAt
  }

  // Statuses only move forward, everything else about a request is fixed, and a
  // request that is gone never comes back.
  lemma {:induction false} LifeCycle(s: Db, es: seq<Event>, i: nat, j: nat, id: nat)
    requires Valid(s) && i <= j <= |es|
    requires id in After(s, es, i).requests
    ensures id in After(s, es, j).requests ==>
              var r, r' := After(s, es, i).requests[id], After(s, es, j).requests[id];
              SameRequest(r, r') && Reaches(r.status, r'.status)
    ensures id < After(s, es, j).nextId
    ensures id !in After(s, es, j).requests ==> forall j' | j <= j' <= |es| :: id !in After(s, es, j').requests
  {
    hide Step;
    RunKeepsValid(s, es, i);
    if i < j {
      var mid := After(s, es, j - 1);
      LifeCycle(s, es, i, j - 1, id);
      RunKeepsValid(s, es, j - 1);
      if id in mid.requests {
        RowStep(mid, es[j - 1], id);
        NextIdGrows(mid, es[j - 1]);
      } else {
        RowBirth(mid, es[j - 1], id);
      }
    }
    if id !in After(s, es, j).requests {
      forall j' | j <= j' <= |es|
        ensures id !in After(s, es, j').requests
      {
        GoneStaysGone(s, es, j, j', id);
      }
    }
  }

  lemma {:induction false} GoneStaysGone(s: Db, es: seq<Event>, i: nat, j: nat, id: nat)
    requires Valid(s) && i <= j <= |es|
    requires id !in After(s, es, i).requests && id < After(s, es, i).nextId
    ensures id !in After(s, es, j).requests && id < After(s, es, j).nextId
  {
    hide Step, Valid;
    if i < j {
      GoneStaysGone(s, es, i, j - 1, id);
      RunKeepsValid(s, es, j - 1);
      RowBirth(After(s, es, j - 1), es[j - 1], id);
    }
  }

  lemma NextIdGrows(db: Db, e: Event)
    requires Valid(db)
    ensures db.nextId <= Step(db, e.now, e.action).0.nextId
  {
  }

  // ---- every approval is asked for, given, and spent once ----

  // No grant and no live request of this client.
  ghost predicate Clean(db: Db, client: Text) {
    && (forall g | g in db.grants :: g.0 != client)
    && (forall id | id in db.requests && db.requests[id].key.client == client :: !Live(db.requests[id].status))
  }

  // Event j asks: row `id` appears, pending, for the key of that event's door.
  ghost predicate AskedAt(s: Db, es: seq<Event>, j: nat, id: nat)
    requires j < |es|
  {
    && id !in After(s, es, j).requests
    && id in After(s, es, j + 1).requests
    && Birth(After(s, es, j), es[j], id, After(s, es, j + 1).requests[id])
  }

  // Event k decides: the pending, unexpired row takes the verdict of `choice`.
  ghost predicate DecidedAt(s: Db, es: seq<Event>, k: nat, id: nat, choice: Choice)
    requires k < |es|
  {
    && es[k].action == Resolve(id, choice)
    && id in After(s, es, k).requests
    && After(s, es, k).requests[id].status == Pending
    && es[k].now < After(s, es, k).requests[id].expiresAt
    && id in After(s, es, k + 1).requests
    && After(s, es, k + 1).requests[id].status == Verdict(choice)
  }

  // Event i spends: the approved, unexpired row becomes consumed.
  ghost predicate SpentAt(s: Db, es: seq<Event>, i: nat, id: nat)
    requires i < |es|
  {
    && id in After(s, es, i).requests
    && Spends(es[i], After(s, es, i).requests[id])
    && id in After(s, es, i + 1).requests
    && After(s, es, i + 1).requests[id].status == Consumed
  }

  // A live row was live before the step, or is born in it.
  lemma LiveRowStep(db: Db, e: Event, id: nat)
    requires Valid(db) && id in Step(db, e.now, e.action).0.requests
    requires Live(Step(db, e.now, e.action).0.requests[id].status)
    ensures var r' := Step(db, e.now, e.action).0.requests[id];
            if id in db.requests then Live(db.requests[id].status) && SameRequest(db.requests[id], r')
            else Birth(db, e, id, r')
  {
    if id in db.requests {
      RowStep(db, e, id);
    } else {
      RowBirth(db, e, id);
    }
  }

  // A live row of a client that was clean at b was asked for after b.
  lemma {:induction false} AskedSince(s: Db, es: seq<Event>, b: nat, i: nat, id: nat) returns (j: nat)
    requires Valid(s) && b <= i <= |es|
    requires id in After(s, es, i).requests && Live(After(s, es, i).requests[id].status)
    requires Clean(After(s, es, b), After(s, es, i).requests[id].key.client)
    ensures b <= j < i && AskedAt(s, es, j, id)
    ensures SameRequest(After(s, es, j + 1).requests[id], After(s, es, i).requests[id])
  {
    hide Step, Valid, Birth;
    assert b < i;
    var before := After(s, es, i - 1);
    RunKeepsValid(s, es, i - 1);
    LiveRowStep(before, es[i - 1], id);
    if id in before.requests {
      j := AskedSince(s, es, b, i - 1, id);
    } else {
      j := i - 1;
    }
  }

  // An approved row of a client that was clean at b was approved after b.
  lemma {:induction false} ApprovedSince(s: Db, es: seq<Event>, b: nat, i: nat, id: nat) returns (k: nat)
    requires Valid(s) && b <= i <= |es|
    requires id in After(s, es, i).requests && After(s, es, i).requests[id].status == AllowedOnce
    requires Clean(After(s, es, b), After(s, es, i).requests[id].key.client)
    ensures b <= k < i && DecidedAt(s, es, k, id, AllowOnce)
    ensures SameRequest(After(s, es, k).requests[id], After(s, es, i).requests[id])
  {
    hide Step, Valid, Birth;
    assert b < i;
    var before := After(s, es, i - 1);
    RunKeepsValid(s, es, i - 1);
    BecomesApproved(before, es[i - 1], id);
    if before.requests[id].status == AllowedOnce {
      k := ApprovedSince(s, es, b, i - 1, id);
    } else {
      k := i - 1;
    }
  }

  // An approved row was approved already or is approved by this very step.
  lemma BecomesApproved(db: Db, e: Event, id: nat)
    requires Valid(db) && id in Step(db, e.now, e.action).0.requests
    requires Step(db, e.now, e.action).0.requests[id].status == AllowedOnce
    ensures id in db.requests && SameRequest(db.requests[id], Step(db, e.now, e.action).0.requests[id])
    ensures db.requests[id].status != AllowedOnce ==>
              && e.action == Resolve(id, AllowOnce) && db.requests[id].status == Pending
              && e.now < db.requests[id].expiresAt
  {
    if id in db.requests {
      RowStep(db, e, id);
    } else {
      RowBirth(db, e, id);
    }
  }

  // A grant of a client that was clean at b was given after b.
  lemma {:induction false} GrantedSince(s: Db, es: seq<Event>, b: nat, i: nat, grant: (Text, Text))
    returns (k: nat, id: nat)
    requires Valid(s) && b <= i <= |es|
    requires grant in After(s, es, i).grants && Clean(After(s, es, b), grant.0)
    ensures b <= k < i && DecidedAt(s, es, k, id, AlwaysAllow)
    ensures var key := After(s, es, k).requests[id].key; (key.client, key.capability) == grant
  {
    hide Step, Valid, Birth;
    assert b < i;
    var before := After(s, es, i - 1);
    RunKeepsValid(s, es, i - 1);
    if grant in before.grants {
      k, id := GrantedSince(s, es, b, i - 1, grant);
    } else {
      GrantBirth(before, es[i - 1], grant);
      k, id := i - 1, es[i - 1].action.id;
    }
  }

  // The client acting through a door.
  function Caller(a: Action): Text
    requires NeedsConfirmation(a)
  {
    match a
    case Authorize(client, _, _, _, _, _, _, _) => client
    case SendDraft(client, _, _, _, _, _) => client
    case HighRisk(client, _, _, _, _, _, _, _) => client
    case _ => ""
  }

  // What a confirmed action rests on, all of it between b and i: a request j for
  // the same client and capability, then a decision k on it. For a one-time
  // approval the request was for the very same key and is spent by event i.
  ghost predicate Justified(s: Db, es: seq<Event>, b: nat, i: nat, id: nat, j: nat, k: nat)
    requires i < |es| && NeedsConfirmation(es[i].action)
  {
    && b <= j < k < i
    && AskedAt(s, es, j, id)
    && After(s, es, j + 1).requests[id].key.client == Caller(es[i].action)
    && (match Result(s, es, i)
        case Ahead(ByRequest(spent)) =>
          && spent == id
          && DoorKey(es[i].action) == DoorKey(es[j].action)
          && DecidedAt(s, es, k, id, AllowOnce)
          && SpentAt(s, es, i, id)
        case Ahead(ByGrant) =>
          && DoorKey(es[i].action).Some?
          && DoorKey(es[i].action).value.capability == After(s, es, j + 1).requests[id].key.capability
          && DecidedAt(s, es, k, id, AlwaysAllow)
        case _ => false)
  }

  // Every action that needs confirmation and goes ahead rests on a request and a
  // decision made since its client was last clean.
  lemma ConfirmedActionJustified(s: Db, es: seq<Event>, b: nat, i: nat) returns (id: nat, j: nat, k: nat)
    requires Valid(s) && b <= i < |es|
    requires NeedsConfirmation(es[i].action) && Result(s, es, i).Ahead?
    requires Clean(After(s, es, b), Caller(es[i].action))
    ensures Justified(s, es, b, i, id, j, k)
  {
    hide Step, Valid;
    var db := After(s, es, i);
    RunKeepsValid(s, es, i);
    AheadReason(db, es[i]);
    var key := DoorKey(es[i].action).value;
    match Result(s, es, i).reason
    case ByGrant =>
      k, id := GrantedSince(s, es, b, i, (key.client, key.capability));
      j := AskedSince(s, es, b, k, id);
    case ByRequest(spent) =>
      id := spent;
      RowStep(db, es[i], id);
      k := ApprovedSince(s, es, b, i, id);
      j := AskedSince(s, es, b, k, id);
  }

  lemma AheadReason(db: Db, e: Event)
    requires Valid(db) && NeedsConfirmation(e.action) && Step(db, e.now, e.action).1.Ahead?
    ensures DoorKey(e.action).Some? && DoorKey(e.action).value.client == Caller(e.action)
    ensures match Step(db, e.now, e.action).1.reason
            case LevelAlone => false
            case ByGrant => Granted(db, DoorKey(e.action).value)
            case ByRequest(id) =>
              && !Granted(db, DoorKey(e.action).value)
              && id in db.requests && Spends(e, db.requests[id])
              && id in Step(db, e.now, e.action).0.requests
              && Step(db, e.now, e.action).0.requests[id].status == Consumed
  {
  }

  // From an empty request table, each action that needs confirmation and goes
  // ahead without a grant spends a request that was asked for, approved once while
  // unexpired, and unexpired still when spent.
  lemma OneShot(s: Db, es: seq<Event>, i: nat) returns (id: nat, j: nat, k: nat)
    requires Fresh(s) && i < |es|
    requires NeedsConfirmation(es[i].action) && Result(s, es, i).Ahead?
    requires DoorKey(es[i].action).Some? && !Granted(After(s, es, i), DoorKey(es[i].action).value)
    ensures Result(s, es, i) == Ahead(ByRequest(id))
    ensures j < k < i
    ensures AskedAt(s, es, j, id) && DoorKey(es[j].action) == DoorKey(es[i].action)
    ensures DecidedAt(s, es, k, id, AllowOnce)
    ensures SpentAt(s, es, i, id)
  {
    hide Step, Valid, Birth;
    FreshValid(s);
    RunKeepsValid(s, es, i);
    AheadReason(After(s, es, i), es[i]);
    id, j, k := ConfirmedActionJustified(s, es, 0, i);
  }

  // The request an action spends was approved before the step and is consumed by it.
  lemma SpendingRow(db: Db, e: Event, id: nat)
    requires Valid(db) && Step(db, e.now, e.action).1 == Ahead(ByRequest(id))
    ensures id in db.requests && db.requests[id].status == AllowedOnce
    ensures id in Step(db, e.now, e.action).0.requests
    ensures Step(db, e.now, e.action).0.requests[id].status == Consumed
  {
  }

  lemma SpentStaysSpent(s: Db, es: seq<Event>, i: nat, i': nat, id: nat)
    requires Valid(s) && i < i' < |es| && Result(s, es, i) == Ahead(ByRequest(id))
    ensures id in After(s, es, i').requests ==> After(s, es, i').requests[id].status == Consumed
  {
    hide Step, Valid;
    RunKeepsValid(s, es, i);
    SpendingRow(After(s, es, i), es[i], id);
    LifeCycle(s, es, i + 1, i', id);
  }

  // No request is spent twice.
  lemma OneShotInjective(s: Db, es: seq<Event>, i: nat, i': nat, id: nat)
    requires Valid(s) && i < |es| && i' < |es|
    requires Result(s, es, i) == Ahead(ByRequest(id)) && Result(s, es, i') == Ahead(ByRequest(id))
    ensures i == i'
  {
    hide Step, Valid;
    var first, last := if i < i' then i else i', if i < i' then i' else i;
    RunKeepsValid(s, es, last);
    SpendingRow(After(s, es, last), es[last], id);
    if first < last {
      SpentStaysSpent(s, es, first, last, id);
    }
  }

  // A row becomes consumed only by an action that goes ahead on it.
  lemma ConsumedOnlyBySpending(s: Db, es: seq<Event>, i: nat, id: nat)
    requires Valid(s) && i < |es|
    requires id in After(s, es, i).requests && id in After(s, es, i + 1).requests
    requires After(s, es, i).requests[id].status != Consumed
    ensures After(s, es, i + 1).requests[id].status == Consumed <==> Result(s, es, i) == Ahead(ByRequest(id))
  {
    hide Step, Valid;
    RunKeepsValid(s, es, i);
    RowStep(After(s, es, i), es[i], id);
  }

  // ---- policy boundaries ----

  // A revoke, a real level change or a re-enable that took effect.
  ghost predicate Boundary(s: Db, es: seq<Event>, b: nat, client: Text)
    requires b < |es|
  {
    && Result(s, es, b) == Flag(true)
    && (match es[b].action
        case Revoke(c) => c == client
        case Reenable(c) => c == client
        case SetLevel(c, _) => c == client
        case _ => false)
  }

  lemma BoundaryCleans(s: Db, es: seq<Event>, b: nat, client: Text)
    requires Valid(s) && b < |es| && Boundary(s, es, b, client)
    ensures Clean(After(s, es, b + 1), client)
  {
    RunKeepsValid(s, es, b);
  }

  // No confirmed action after a boundary rests on a request or a decision made before it.
  lemma NothingSurvivesBoundary(s: Db, es: seq<Event>, b: nat, i: nat) returns (id: nat, j: nat, k: nat)
    requires Valid(s) && b < i < |es|
    requires NeedsConfirmation(es[i].action) && Result(s, es, i).Ahead?
    requires Boundary(s, es, b, Caller(es[i].action))
    ensures Justified(s, es, b + 1, i, id, j, k)
  {
    hide Step, Valid;
    BoundaryCleans(s, es, b, Caller(es[i].action));
    id, j, k := ConfirmedActionJustified(s, es, b + 1, i);
  }

  // ---- a row leaves only with its account ----

  ghost predicate AccountStays(es: seq<Event>, i: nat, j: nat, account: Option<Text>)
    requires i <= j <= |es|
  {
    forall k | i <= k < j :: es[k].action.RemoveAccount? ==> account != Some(es[k].action.removed)
  }

  lemma AccountStaysShorter(es: seq<Event>, i: nat, j: nat, account: Option<Text>)
    requires i < j <= |es|
    ensures AccountStays(es, i, j, account) <==>
              && AccountStays(es, i, j - 1, account)
              && (es[j - 1].action.RemoveAccount? ==> account != Some(es[j - 1].action.removed))
  {
  }

  // A row is there at j exactly when its account was not removed since i.
  lemma {:induction false} RowStaysIff(s: Db, es: seq<Event>, i: nat, j: nat, id: nat)
    requires Valid(s) && i <= j <= |es|
    requires id in After(s, es, i).requests
    ensures id in After(s, es, j).requests <==> AccountStays(es, i, j, After(s, es, i).requests[id].account)
  {
    hide Step, Valid;
    if i < j {
      var mid, e := After(s, es, j - 1), es[j - 1];
      RowStaysIff(s, es, i, j - 1, id);
      LifeCycle(s, es, i, j - 1, id);
      RunKeepsValid(s, es, j - 1);
      AccountStaysShorter(es, i, j, After(s, es, i).requests[id].account);
      if id in mid.requests {
        RowStep(mid, e, id);
        RemovalDropsRow(mid, e, id);
      } else {
        RowBirth(mid, e, id);
      }
    }
  }

  lemma RemovalDropsRow(db: Db, e: Event, id: nat)
    requires id in db.requests
    ensures e.action.RemoveAccount? && db.requests[id].account == Some(e.action.removed) ==>
              id !in Step(db, e.now, e.action).0.requests
  {
  }

  // ---- a denial lasts as long as its account ----

  // A denied row is still there and still denied exactly when the account it names
  // was not removed since. As long as it is there, no request of its key is ever
  // recorded again, and the key's doors only refuse or fail unless a grant lets them
  // pass.
  lemma DeniedForever(s: Db, es: seq<Event>, i: nat, j: nat, id: nat)
    requires Valid(s) && i <= j <= |es|
    requires id in After(s, es, i).requests && After(s, es, i).requests[id].status == Denied
    ensures id in After(s, es, j).requests && After(s, es, j).requests[id].status == Denied <==>
              AccountStays(es, i, j, After(s, es, i).requests[id].account)
    ensures id in After(s, es, j).requests ==>
              forall n | n in After(s, es, j).requests
                         && After(s, es, j).requests[n].key == After(s, es, i).requests[id].key ::
                n in After(s, es, i).requests
    ensures id in After(s, es, j).requests && j < |es| && NeedsConfirmation(es[j].action)
            && DoorKey(es[j].action) == Some(After(s, es, i).requests[id].key) ==>
              Result(s, es, j) in {Turned, Failed, Ahead(ByGrant)}
  {
    hide Step, Valid;
    RowStaysIff(s, es, i, j, id);
    LifeCycle(s, es, i, j, id);
    if AccountStays(es, i, j, After(s, es, i).requests[id].account) {
      DenialHolds(s, es, i, j, id);
    }
  }

  lemma {:induction false} DenialHolds(s: Db, es: seq<Event>, i: nat, j: nat, id: nat)
    requires Valid(s) && i <= j <= |es|
    requires id in After(s, es, i).requests && After(s, es, i).requests[id].status == Denied
    requires AccountStays(es, i, j, After(s, es, i).requests[id].account)
    ensures id in After(s, es, j).requests
    ensures SameRequest(After(s, es, i).requests[id], After(s, es, j).requests[id])
    ensures After(s, es, j).requests[id].status == Denied
    ensures forall n | n in After(s, es, j).requests
                       && After(s, es, j).requests[n].key == After(s, es, i).requests[id].key ::
              n in After(s, es, i).requests
    ensures j < |es| && NeedsConfirmation(es[j].action)
            && DoorKey(es[j].action) == Some(After(s, es, i).requests[id].key) ==>
              Result(s, es, j) in {Turned, Failed, Ahead(ByGrant)}
  {
    hide Step, Valid;
    RunKeepsValid(s, es, j);
    if i < j {
      DenialHolds(s, es, i, j - 1, id);
      var mid, e := After(s, es, j - 1), es[j - 1];
      RunKeepsValid(s, es, j - 1);
      RowStep(mid, e, id);
      forall n | n in After(s, es, j).requests && After(s, es, j).requests[n].key == mid.requests[id].key
        ensures n in mid.requests
      {
        DeniedBlocksBirth(mid, e, id, n);
      }
      forall n | n in mid.requests && n in After(s, es, j).requests
        ensures After(s, es, j).requests[n].key == mid.requests[n].key
      {
        RowStep(mid, e, n);
      }
    }
    if j < |es| && NeedsConfirmation(es[j].action) && DoorKey(es[j].action) == Some(After(s, es, i).requests[id].key) {
      DeniedKeyRefused(After(s, es, j), es[j], id);
    }
  }

  lemma DeniedBlocksBirth(db: Db, e: Event, id: nat, n: nat)
    requires Valid(db) && id in db.requests && db.requests[id].status == Denied
    requires n in Step(db, e.now, e.action).0.requests
    ensures Step(db, e.now, e.action).0.requests[n].key == db.requests[id].key ==> n in db.requests
  {
    if n !in db.requests {
      RowBirth(db, e, n);
    }
  }

  lemma DeniedKeyRefused(db: Db, e: Event, id: nat)
    requires Valid(db) && NeedsConfirmation(e.action)
    requires id in db.requests && db.requests[id].status == Denied && DoorKey(e.action) == Some(db.requests[id].key)
    ensures Step(db, e.now, e.action).1 in {Turned, Failed, Ahead(ByGrant)}
  {
    BlockerIsLatest(db, e.now, id, db.requests[id].key);
  }

  // ---- an approval that lapsed ----

  // Nothing retires the client's live rows between i and j.
  ghost predicate NoBoundary(s: Db, es: seq<Event>, i: nat, j: nat, client: Text)
    requires i <= j <= |es|
  {
    forall k | i <= k < j && Result(s, es, k) == Flag(true) ::
      es[k].action != Revoke(client) && !(es[k].action.SetLevel? && es[k].action.client == client)
  }

  // No clock reading of the events from i on, up to and including j, is before `time`.
  ghost predicate Past(es: seq<Event>, i: nat, j: nat, time: int) {
    forall k | i <= k <= j && k < |es| :: time <= es[k].now
  }

  // Once an approval has lapsed unspent, its row keeps standing exactly until the
  // client is revoked or changes level, or the account is removed; and until then
  // every door of its key refuses, fails, or goes by a grant.
  lemma LapsedApprovalLocksKey(s: Db, es: seq<Event>, i: nat, j: nat, id: nat)
    requires Valid(s) && i <= j <= |es|
    requires id in After(s, es, i).requests && After(s, es, i).requests[id].status == AllowedOnce
    requires Past(es, i, j, After(s, es, i).requests[id].expiresAt)
    ensures var r := After(s, es, i).requests[id];
            id in After(s, es, j).requests && After(s, es, j).requests[id] == r <==>
              AccountStays(es, i, j, r.account) && NoBoundary(s, es, i, j, r.key.client)
    ensures var r := After(s, es, i).requests[id];
            && AccountStays(es, i, j, r.account) && NoBoundary(s, es, i, j, r.key.client)
            && j < |es| && NeedsConfirmation(es[j].action) && DoorKey(es[j].action) == Some(r.key) ==>
              Result(s, es, j) in {Turned, Failed, Ahead(ByGrant)}
  {
    hide Step, Valid;
    LapsedRowStaysIff(s, es, i, j, id);
    RunKeepsValid(s, es, j);
    var r := After(s, es, i).requests[id];
    if id in After(s, es, j).requests && After(s, es, j).requests[id] == r
       && j < |es| && NeedsConfirmation(es[j].action) && DoorKey(es[j].action) == Some(r.key)
    {
      LapsedApprovalRefuses(After(s, es, j), es[j].now, es[j].action, id);
    }
  }

  lemma {:induction false} LapsedRowStaysIff(s: Db, es: seq<Event>, i: nat, j: nat, id: nat)
    requires Valid(s) && i <= j <= |es|
    requires id in After(s, es, i).requests && After(s, es, i).requests[id].status == AllowedOnce
    requires Past(es, i, j, After(s, es, i).requests[id].expiresAt)
    ensures var r := After(s, es, i).requests[id];
            id in After(s, es, j).requests && After(s, es, j).requests[id] == r <==>
              AccountStays(es, i, j, r.account) && NoBoundary(s, es, i, j, r.key.client)
  {
    hide Step, Valid, AccountStays, NoBoundary;
    AtOnce(s, es, i, After(s, es, i).requests[id]);
    if i < j {
      var mid, e, r := After(s, es, j - 1), es[j - 1], After(s, es, i).requests[id];
      LapsedRowStaysIff(s, es, i, j - 1, id);
      RunKeepsValid(s, es, j - 1);
      LifeCycle(s, es, i, j - 1, id);
      AccountStaysShorter(es, i, j, r.account);
      NoBoundaryShorter(s, es, i, j, r.key.client);
      if id in mid.requests {
        RowStep(mid, e, id);
        if mid.requests[id] == r {
          LapsedRowStep(mid, e, id);
        }
      } else {
        RowBirth(mid, e, id);
      }
    }
  }

  lemma AtOnce(s: Db, es: seq<Event>, i: nat, r: Request)
    requires i <= |es|
    ensures AccountStays(es, i, i, r.account) && NoBoundary(s, es, i, i, r.key.client)
  {
  }

  lemma NoBoundaryShorter(s: Db, es: seq<Event>, i: nat, j: nat, client: Text)
    requires i < j <= |es|
    ensures NoBoundary(s, es, i, j, client) <==>
              && NoBoundary(s, es, i, j - 1, client)
              && (Result(s, es, j - 1) == Flag(true) ==>
                    es[j - 1].action != Revoke(client)
                    && !(es[j - 1].action.SetLevel? && es[j - 1].action.client == client))
  {
  }

  // One step on a lapsed, unspent approval.
  lemma LapsedRowStep(db: Db, e: Event, id: nat)
    requires Valid(db) && id in db.requests && db.requests[id].status == AllowedOnce
    requires db.requests[id].expiresAt <= e.now
    ensures var (db', out) := Step(db, e.now, e.action);
            var r := db.requests[id];
            id in db'.requests && db'.requests[id] == r <==>
              && (e.action.RemoveAccount? ==> r.account != Some(e.action.removed))
              && (out == Flag(true) ==> e.action != Revoke(r.key.client)
                                        && !(e.action.SetLevel? && e.action.client == r.key.client))
  {
    RowStep(db, e, id);
  }
}
