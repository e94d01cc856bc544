// Whom the doors turn away, and what they answer otherwise, told from the tables,
// the clock and the four levels by name (crates/core/src/mcp.rs:328-641, 1019-1155).
module McpLevels {
  import opened Wrappers
  import opened McpFingerprint
  import opened McpPolicy
  import opened McpRuns

  // The levels that reach `required`.
  function Sufficient(required: Level): set<Level> {
    match required
    case Read => {Read, Draft, Send, Full}
    case Draft => {Draft, Send, Full}
    case Send => {Send, Full}
    case Full => {Full}
  }

  // The switch is on, the client is enabled, and both its levels are sufficient.
  ghost predicate Eligible(db: Db, client: Text, ceiling: Level, required: Level) {
    && db.switchOn
    && client in db.clients && db.clients[client].enabled == 1
    && ceiling in Sufficient(required) && db.clients[client].level in Sufficient(required)
  }

  lemma EligibleIff(db: Db, client: Text, ceiling: Level, required: Level)
    ensures Entitled(db, client, ceiling, required) <==> Eligible(db, client, ceiling, required)
  {
  }

  ghost predicate Has(db: Db, key: Key, grant: Grant) {
    (key.client, key.capability) in db.grants && db.grants[(key.client, key.capability)] == grant
  }

  ghost predicate Standing(db: Db, id: nat, key: Key, status: Status) {
    id in db.requests && db.requests[id].key == key && db.requests[id].status == status
  }

  // A request of this key was approved once and has time left.
  ghost predicate Approved(db: Db, now: int, key: Key, id: nat) {
    Standing(db, id, key, AllowedOnce) && now < db.requests[id].expiresAt
  }

  // A request of this key is waiting and has time left.
  ghost predicate Waiting(db: Db, now: int, key: Key, id: nat) {
    Standing(db, id, key, Pending) && now < db.requests[id].expiresAt
  }

  // A request of this key was denied, or approved and not used in time.
  ghost predicate Spoilt(db: Db, now: int, key: Key, id: nat) {
    Standing(db, id, key, Denied) || (Standing(db, id, key, AllowedOnce) && db.requests[id].expiresAt <= now)
  }

  // A request that answers for the key.
  ghost predicate Decided(db: Db, now: int, key: Key, id: nat) {
    Approved(db, now, key, id) || Waiting(db, now, key, id) || Spoilt(db, now, key, id)
  }

  // A refusal stored for the key: a deny grant, or no grant and a spoilt request.
  ghost predicate Barred(db: Db, now: int, key: Key) {
    Has(db, key, Refuse) || (!Has(db, key, Allow) && exists id: nat :: Spoilt(db, now, key, id))
  }

  // What a gate answers: a grant decides; else the one request of the key that stands
  // does; else a new request is recorded, if the account it is about exists.
  ghost predicate Answers(db: Db, now: int, key: Key, account: Option<Text>, effectOk: bool, out: Outcome) {
    && (Has(db, key, Allow) ==> out == if effectOk then Ahead(ByGrant) else Failed)
    && (Barred(db, now, key) ==> out == Turned)
    && (!Granted(db, key) ==>
          && (forall id: nat | Approved(db, now, key, id) :: out == if effectOk then Ahead(ByRequest(id)) else Failed)
          && (forall id: nat | Waiting(db, now, key, id) :: out == Ask(id, db.requests[id].expiresAt))
          && ((forall id: nat :: !Decided(db, now, key, id)) ==>
                out == if account.Some? && account.value !in db.accounts then Failed
                       else Ask(db.nextId, if now + 120 > 9_223_372_036_854_775_807 then 9_223_372_036_854_775_807
                                           else now + 120)))
  }

  lemma GateAnswers(db: Db, now: int, key: Key, account: Option<Text>, target: Option<Text>, count: nat, effectOk: bool)
    requires Valid(db)
    ensures Answers(db, now, key, account, effectOk, Gate(db, now, key, account, target, count, effectOk).1)
  {
    hide Valid, Latest;
    StandingIsFound(db, now, key);
  }

  // The row the gate looks up is the one that stands, if one does.
  lemma StandingIsFound(db: Db, now: int, key: Key)
    requires Valid(db)
    ensures forall id: nat | Approved(db, now, key, id) || Waiting(db, now, key, id) || Spoilt(db, now, key, id) ::
              Latest(Sweep(db.requests, now), db.nextId, key) == Some(id)
    ensures var found := Latest(Sweep(db.requests, now), db.nextId, key);
            found.Some? ==> Decided(db, now, key, found.value)
  {
    var swept := Sweep(db.requests, now);
    forall id: nat | Decided(db, now, key, id)
      ensures Latest(swept, db.nextId, key) == Some(id)
    {
      BlockerIsLatest(db, now, id, key);
    }
    if Latest(swept, db.nextId, key).Some? {
      var id := Latest(swept, db.nextId, key).value;
      assert Matches(swept, id, key);
    }
  }

  // Only a Full client at a Full ceiling reaches what cannot be undone, and such a
  // client is turned away only by a stored refusal.
  lemma HighRiskTurnedIff(db: Db, now: int, a: Action)
    requires Valid(db) && a.HighRisk?
    ensures var key, out := Key(a.client, a.capability, a.fingerprint), Step(db, now, a).1;
            && (out == Turned <==>
                  || !ValidIdentifier(a.client, 128)
                  || !db.switchOn || a.client !in db.clients || db.clients[a.client].enabled != 1
                  || a.ceiling != Full || db.clients[a.client].level != Full
                  || (a.owner in db.accounts && Barred(db, now, key)))
            && (out != Turned && a.owner !in db.accounts ==> out == Failed)
            && (out != Turned && a.owner in db.accounts ==> Answers(db, now, key, Some(a.owner), a.effectOk, out))
  {
    hide Gate;
    EligibleIff(db, a.client, a.ceiling, Full);
    var key := Key(a.client, a.capability, a.fingerprint);
    GateAnswers(db, now, key, Some(a.owner), a.target, a.targetCount, a.effectOk);
    OnlyBarredIsTurned(db, now, key, Some(a.owner), a.effectOk, Step(db, now, a).1);
  }

  // A gate turns away only what a stored refusal bars.
  lemma OnlyBarredIsTurned(db: Db, now: int, key: Key, account: Option<Text>, effectOk: bool, out: Outcome)
    ensures Answers(db, now, key, account, effectOk, out) && out == Turned ==> Barred(db, now, key)
  {
    assert Granted(db, key) ==> Has(db, key, Allow) || Has(db, key, Refuse);
  }

  // A Send or Full client at a Send or Full ceiling may ask to send.
  lemma SendTurnedIff(db: Db, now: int, a: Action)
    requires Valid(db) && a.SendDraft?
    ensures var out := Step(db, now, a).1;
            && (out == Turned <==>
                  || !ValidIdentifier(a.client, 128) || !ValidIdentifier(a.draft, 256)
                  || !db.switchOn || a.client !in db.clients || db.clients[a.client].enabled != 1
                  || a.ceiling !in {Send, Full} || db.clients[a.client].level !in {Send, Full}
                  || (a.revision.Some? && Barred(db, now, DoorKey(a).value)))
            && (out != Turned && a.revision.None? ==> out == Failed)
            && (out != Turned && a.revision.Some? ==>
                  Answers(db, now, DoorKey(a).value, Some(a.sender), a.effectOk, out))
  {
    hide Gate, SendFingerprint;
    EligibleIff(db, a.client, a.ceiling, Send);
    if a.revision.Some? {
      GateAnswers(db, now, DoorKey(a).value, Some(a.sender), Some(a.draft), 1, a.effectOk);
      OnlyBarredIsTurned(db, now, DoorKey(a).value, Some(a.sender), a.effectOk, Step(db, now, a).1);
    }
  }

  // The general gate goes by the level its caller requires, one level at a time.
  lemma AuthorizeTurnedIff(db: Db, now: int, a: Action)
    requires Valid(db) && a.Authorize?
    ensures var key, out := Key(a.client, a.capability, a.fingerprint), Step(db, now, a).1;
            && (out == Turned <==>
                  || !ValidIdentifier(a.client, 128) || !ValidIdentifier(a.capability, 128)
                  || !ValidIdentifier(a.fingerprint, 384)
                  || (a.target.Some? && !ValidIdentifier(a.target.value, 256))
                  || (a.needsConfirmation && a.target.None?)
                  || !Eligible(db, a.client, a.ceiling, a.required)
                  || (if a.needsConfirmation then Barred(db, now, key) else Has(db, key, Refuse)))
            && (out != Turned && a.needsConfirmation ==> Answers(db, now, key, a.account, true, out))
            && (out != Turned && !a.needsConfirmation ==>
                  out == Ahead(if Has(db, key, Allow) then ByGrant else LevelAlone))
  {
    hide Gate;
    EligibleIff(db, a.client, a.ceiling, a.required);
    if a.needsConfirmation {
      GateAnswers(db, now, Key(a.client, a.capability, a.fingerprint), a.account, a.target, 1, true);
      OnlyBarredIsTurned(db, now, Key(a.client, a.capability, a.fingerprint), a.account, true, Step(db, now, a).1);
    }
  }

  // Only the stdio profile, while the switch is on, starts again after a revoke, and
  // it starts over: at Draft, without grants.
  lemma ReenabledStartsOver(db: Db, now: int, client: Text)
    requires Valid(db)
    ensures var (after, out) := Step(db, now, Reenable(client));
            && (out == Flag(true) <==>
                  client == "stdio" && db.switchOn && client in db.clients && db.clients[client].enabled == 0)
            && (out == Flag(true) ==> after == db.(clients := db.clients[client := Client(1, Draft)]))
            && (out != Flag(true) ==> out == Flag(false) && after == db)
  {
    if client in db.clients && db.clients[client].enabled == 0 {
      assert WithoutGrants(db.grants, client) == db.grants;
    }
  }
}
