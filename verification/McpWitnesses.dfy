// Runs, from an empty request table, that show where the conditions of McpRuns
// and McpApprovals fail: an approval lent by the general gate, a denial forgotten
// with its account, and an approval that lapses and locks its key.
module McpWitnesses {
  import opened Wrappers
  import opened McpFingerprint
  import opened McpPolicy
  import opened McpRuns
  import opened McpApprovals

  // The switch goes on, the stdio profile gets the full level, an account is added.
  const OPENING := [Event(0, SetSwitch(true)), Event(0, SetLevel(STDIO, Full)), Event(0, AddAccount("acc"))]

  function Ready(s: Db): Db {
    s.(switchOn := true, clients := map[STDIO := Client(1, Full)], accounts := s.accounts + {"acc"})
  }

  // The tables when the one request ever recorded is `row`.
  function Holding(s: Db, row: Request): Db {
    Ready(s).(requests := map[s.nextId := row], nextId := s.nextId + 1)
  }

  // What the general gate is asked, at any clock reading, in these runs.
  function Asking(capability: Text, account: Option<Text>, target: Text, fingerprint: Text): Action {
    Authorize(STDIO, Full, capability, Full, true, account, Some(target), fingerprint)
  }

  function AskedRow(capability: Text, account: Option<Text>, target: Text, fingerprint: Text): Request {
    Request(Key(STDIO, capability, fingerprint), account, Some(target), 1, Pending, 0, 120, None)
  }

  ghost predicate Sayable(capability: Text, account: Option<Text>, target: Text, fingerprint: Text) {
    && ValidIdentifier(capability, MAX_CAPABILITY_BYTES)
    && ValidIdentifier(target, MAX_TARGET_ID_BYTES)
    && ValidIdentifier(fingerprint, MAX_FINGERPRINT_BYTES)
    && (account == None || account == Some("acc"))
  }

  lemma Opens(s: Db, rest: seq<Event>)
    requires Fresh(s)
    ensures After(s, OPENING + rest, 3) == Ready(s)
  {
    hide AuthorizeStep, HighRiskStep, SendStep, ResolveStep, RevokeStep;
    var es := OPENING + rest;
    assert After(s, es, 1) == s.(switchOn := true, clients := map[STDIO := Client(1, Draft)]);
    assert WithoutGrants(map[], STDIO) == map[];
    assert Retire(map[], STDIO, Invalidated, 0) == map[];
    assert After(s, es, 2) == s.(switchOn := true, clients := map[STDIO := Client(1, Full)]);
  }

  lemma Asks(s: Db, rest: seq<Event>, capability: Text, account: Option<Text>, target: Text, fingerprint: Text)
    requires Fresh(s) && Sayable(capability, account, target, fingerprint)
    requires rest != [] && rest[0] == Event(0, Asking(capability, account, target, fingerprint))
    ensures Result(s, OPENING + rest, 3) == Ask(s.nextId, 120)
    ensures After(s, OPENING + rest, 4) == Holding(s, AskedRow(capability, account, target, fingerprint))
  {
    hide HighRiskStep, SendStep, ResolveStep, RevokeStep, SetLevelStep;
    var es, db := OPENING + rest, Ready(s);
    Opens(s, rest);
    assert es[3] == rest[0];
    assert After(s, es, 4) == Step(After(s, es, 3), 0, es[3].action).0;
    assert Sweep(db.requests, 0) == map[];
    assert Latest(db.requests, db.nextId, Key(STDIO, capability, fingerprint)) == None;
  }

  lemma Decides(s: Db, rest: seq<Event>, capability: Text, account: Option<Text>, target: Text, fingerprint: Text,
                choice: Choice)
    requires Fresh(s) && Sayable(capability, account, target, fingerprint)
    requires |rest| > 1 && rest[0] == Event(0, Asking(capability, account, target, fingerprint))
    requires rest[1] == Event(1, Resolve(s.nextId, choice)) && choice != AlwaysAllow
    ensures After(s, OPENING + rest, 5)
            == Holding(s, Close(AskedRow(capability, account, target, fingerprint), Verdict(choice), 1))
  {
    hide HighRiskStep, SendStep, AuthorizeStep, RevokeStep, SetLevelStep;
    var es := OPENING + rest;
    Asks(s, rest, capability, account, target, fingerprint);
    assert es[4] == rest[1];
    assert After(s, es, 5) == Step(After(s, es, 4), 1, es[4].action).0;
  }

  // ---- the general gate lends its approval to a batch ----

  // What a rendered digest looks like.
  ghost predicate Hexadecimal(digest: string -> string) {
    forall x :: |digest(x)| == 64 && forall c | c in digest(x) :: '0' <= c <= '9' || 'a' <= c <= 'f'
  }

  lemma BatchFingerprintFits(digest: string -> string, account: Text, ids: seq<Text>)
    requires Hexadecimal(digest)
    ensures ValidIdentifier(BatchFingerprint(digest, BULK_DELETE, account, ids), MAX_FINGERPRINT_BYTES)
  {
    var hex := digest(BatchPreimage(BULK_DELETE, account, Ordering.Sort(ids, Ordering.TextLe)));
    var value := BatchFingerprint(digest, BULK_DELETE, account, ids);
    assert value == Stamp(BULK_DELETE, hex) && |value| == 79;
    forall i | 0 <= i < |value|
      ensures ' ' <= value[i] <= 'z' && value[i] != '\U{7F}'
    {
      assert i >= 15 ==> value[i] == hex[i - 15] && hex[i - 15] in hex;
    }
  }

  // A request about some target and no account goes through the general gate, is
  // approved, and is spent by the batch whose fingerprint its caller passed.
  function LentApproval(s: Db, target: Text, fingerprint: Text, count: nat): seq<Event> {
    OPENING + [Event(0, Asking(BULK_DELETE, None, target, fingerprint)),
               Event(1, Resolve(s.nextId, AllowOnce)),
               Event(2, HighRisk(STDIO, Full, BULK_DELETE, "acc", None, count, fingerprint, true))]
  }

  lemma GeneralGateLendsApproval(digest: string -> string, s: Db, target: Text, ids: seq<Text>)
    requires Hexadecimal(digest) && Fresh(s)
    requires ValidIdentifier(target, MAX_TARGET_ID_BYTES) && AcceptableBatch(BULK_DELETE, "acc", ids)
    ensures var es := LentApproval(s, target, BatchFingerprint(digest, BULK_DELETE, "acc", ids), |ids|);
            && RealDoors(digest, es) && BatchDoor(digest, es[5].action, ids)
            && Result(s, es, 3) == Ask(s.nextId, 120)
            && s.nextId in After(s, es, 4).requests
            && (var r := After(s, es, 4).requests[s.nextId]; r.account == None && r.target == Some(target))
            && Result(s, es, 5) == Ahead(ByRequest(s.nextId))
  {
    hide BatchFingerprint, AcceptableBatch, Step, ValidIdentifier;
    var fingerprint := BatchFingerprint(digest, BULK_DELETE, "acc", ids);
    BatchFingerprintFits(digest, "acc", ids);
    LiteralsAreValid();
    var es := LentApproval(s, target, fingerprint, |ids|);
    Asks(s, es[3..], BULK_DELETE, None, target, fingerprint);
    assert OPENING + es[3..] == es;
    assert BatchDoor(digest, es[5].action, ids);
    LentApprovalSpends(s, target, fingerprint, |ids|);
  }

  lemma LiteralsAreValid()
    ensures ValidIdentifier(BULK_DELETE, MAX_CAPABILITY_BYTES)
    ensures ValidIdentifier(STDIO, MAX_CLIENT_ID_BYTES)
  {
  }

  lemma LentApprovalSpends(s: Db, target: Text, fingerprint: Text, count: nat)
    requires Fresh(s) && Sayable(BULK_DELETE, None, target, fingerprint)
    ensures Result(s, LentApproval(s, target, fingerprint, count), 5) == Ahead(ByRequest(s.nextId))
  {
    hide AuthorizeStep, SendStep, RevokeStep, SetLevelStep, ResolveStep;
    var es, n := LentApproval(s, target, fingerprint, count), s.nextId;
    assert OPENING + es[3..] == es;
    Decides(s, es[3..], BULK_DELETE, None, target, fingerprint, AllowOnce);
    var given := After(s, es, 5);
    assert Sweep(given.requests, 2) == given.requests;
    assert Latest(given.requests, n + 1, Key(STDIO, BULK_DELETE, fingerprint)) == Some(n);
  }

  // ---- a denial goes with its account ----

  // From any tables with a denied request about an account: remove the account,
  // add it again, ask again, and the window is asked again.
  lemma RemovedAccountForgetsDenial(db: Db, t: int, u: int, e: Event, id: nat)
    requires Valid(db) && id in db.requests && db.requests[id].status == Denied && db.requests[id].account.Some?
    requires NeedsConfirmation(e.action) && DoorKey(e.action) == Some(db.requests[id].key)
    requires Admitted(db, e.action) && !Granted(db, db.requests[id].key)
    requires e.action.Authorize? ==> e.action.account in {None, db.requests[id].account}
    requires e.action.SendDraft? ==> Some(e.action.sender) == db.requests[id].account
    ensures var account := db.requests[id].account.value;
            var es := [Event(t, RemoveAccount(account)), Event(u, AddAccount(account)), e];
            Result(db, es, 2) == Ask(db.nextId, Expiry(e.now))
  {
    var account, key := db.requests[id].account.value, db.requests[id].key;
    var es := [Event(t, RemoveAccount(account)), Event(u, AddAccount(account)), e];
    var bare := RemoveAccountStep(db, account).0;
    var again := bare.(accounts := bare.accounts + {account});
    assert After(db, es, 2) == again by {
      assert After(db, es, 1) == bare;
    }
    NothingBlocks(db, again, e.now, id);
    AsksAfresh(db, again, e);
  }

  lemma NothingBlocks(db: Db, again: Db, now: int, id: nat)
    requires Valid(db) && id in db.requests && db.requests[id].status == Denied
    requires again.requests.Keys <= db.requests.Keys - {id} && again.nextId == db.nextId
    requires forall n | n in again.requests :: again.requests[n] == db.requests[n]
    ensures Latest(Sweep(again.requests, now), again.nextId, db.requests[id].key) == None
  {
    assert OneBlockingRowPerKey(db.requests);
    assert Blocking(db.requests[id].status);
    var key, swept := db.requests[id].key, Sweep(again.requests, now);
    forall n: nat
      ensures !Matches(swept, n, key)
    {
    }
  }

  lemma AsksAfresh(db: Db, again: Db, e: Event)
    requires NeedsConfirmation(e.action) && DoorKey(e.action).Some? && Admitted(db, e.action)
    requires again == db.(accounts := again.accounts, requests := again.requests)
    requires !Granted(db, DoorKey(e.action).value)
    requires e.action.Authorize? && e.action.account.Some? ==> e.action.account.value in again.accounts
    requires e.action.SendDraft? ==> e.action.sender in again.accounts
    requires e.action.HighRisk? ==> e.action.owner in again.accounts
    requires Latest(Sweep(again.requests, e.now), again.nextId, DoorKey(e.action).value) == None
    ensures Step(again, e.now, e.action).1 == Ask(db.nextId, Expiry(e.now))
  {
  }

  // The same from an empty request table: ask, deny, remove, add, ask.
  function ForgottenDenial(s: Db, capability: Text, target: Text, fingerprint: Text): seq<Event> {
    var ask := Asking(capability, Some("acc"), target, fingerprint);
    OPENING + [Event(0, ask), Event(1, Resolve(s.nextId, Deny)),
               Event(2, RemoveAccount("acc")), Event(2, AddAccount("acc")), Event(3, ask)]
  }

  lemma DenialIsForgotten(s: Db, capability: Text, target: Text, fingerprint: Text)
    requires Fresh(s) && Sayable(capability, Some("acc"), target, fingerprint)
    ensures var es := ForgottenDenial(s, capability, target, fingerprint);
            && DecidedAt(s, es, 4, s.nextId, Deny)
            && DoorKey(es[7].action) == DoorKey(es[3].action)
            && Result(s, es, 7) == Ask(s.nextId + 1, 123)
  {
    hide Step, Gate, ValidIdentifier, Valid;
    var es := ForgottenDenial(s, capability, target, fingerprint);
    var rest := es[3..];
    assert OPENING + rest == es;
    Asks(s, rest, capability, Some("acc"), target, fingerprint);
    Decides(s, rest, capability, Some("acc"), target, fingerprint, Deny);
    FreshValid(s);
    RunKeepsValid(s, es, 5);
    LiteralsAreValid();
    RemovedAccountForgetsDenial(After(s, es, 5), 2, 2, es[7], s.nextId);
    LaterRun(s, es, 5, 2);
    assert es[5..] == [Event(2, RemoveAccount("acc")), Event(2, AddAccount("acc")), es[7]];
  }

  // A run can be read from any of its states.
  lemma {:induction false} LaterRun(s: Db, es: seq<Event>, i: nat, n: nat)
    requires i + n <= |es|
    ensures After(s, es, i + n) == After(After(s, es, i), es[i..], n)
  {
    hide Step;
    if n > 0 {
      LaterRun(s, es, i, n - 1);
      assert es[i..][n - 1] == es[i + n - 1];
    }
  }

  // ---- an approval lapses and locks its key ----

  function LapsedApproval(s: Db, capability: Text, target: Text, fingerprint: Text, later: int): seq<Event> {
    var ask := Asking(capability, None, target, fingerprint);
    OPENING + [Event(0, ask), Event(1, Resolve(s.nextId, AllowOnce)), Event(later, ask)]
  }

  // Asked at 0 and approved at 1, the request is still there, approved and unspent,
  // when its client comes back too late, at any reading from 120 on, and is refused.
  lemma ApprovalLapses(s: Db, capability: Text, target: Text, fingerprint: Text, later: int)
    requires Fresh(s) && Sayable(capability, None, target, fingerprint) && 120 <= later
    ensures var es := LapsedApproval(s, capability, target, fingerprint, later);
            && s.nextId in After(s, es, 5).requests
            && After(s, es, 5).requests[s.nextId].status == AllowedOnce
            && Past(es, 5, 6, After(s, es, 5).requests[s.nextId].expiresAt)
            && DoorKey(es[5].action) == Some(After(s, es, 5).requests[s.nextId].key)
            && Result(s, es, 5) in {Turned, Failed}
            && After(s, es, 6) == After(s, es, 5)
  {
    hide Step, Gate, ValidIdentifier, Valid;
    var es := LapsedApproval(s, capability, target, fingerprint, later);
    assert OPENING + es[3..] == es;
    Decides(s, es[3..], capability, None, target, fingerprint, AllowOnce);
    FreshValid(s);
    RunKeepsValid(s, es, 5);
    LapsedApprovalRefuses(After(s, es, 5), later, es[5].action, s.nextId);
    NoGrantNoPass(After(s, es, 5), es[5]);
    RefusalChangesNothing(After(s, es, 5), later, es[5].action);
  }

  lemma NoGrantNoPass(db: Db, e: Event)
    requires Valid(db) && NeedsConfirmation(e.action) && db.grants == map[]
    ensures Step(db, e.now, e.action).1 != Ahead(ByGrant)
  {
  }
}
