// Which rows a LIST takes over (crates/core/src/remote.rs:147-253), told from the
// account, name and remote id of the rows alone: the rows without a remote id are
// given to the unknown mailboxes of their name in turn, deleted or not.
module FolderAdoption {
  import opened Wrappers
  import opened FolderSync
  import opened FolderLinks

  // The rows of this name that no server mailbox has, in row order.
  function Waiting(fs: seq<Folder>, account: Text, title: Text): (rows: seq<nat>)
    ensures forall k | 0 <= k < |rows| ::
              rows[k] < |fs| && fs[rows[k]].account == account && fs[rows[k]].name == title
              && fs[rows[k]].remoteId == None
    ensures forall j, k | 0 <= j < k < |rows| :: rows[j] < rows[k]
    ensures forall i: nat | i < |fs| && fs[i].account == account && fs[i].name == title && fs[i].remoteId == None ::
              i in rows
  {
    if fs == [] then []
    else
      var n := |fs| - 1;
      assert fs == fs[..n] + [fs[n]];
      Waiting(fs[..n], account, title)
      + if fs[n].account == account && fs[n].name == title && fs[n].remoteId == None then [n] else []
  }

  ghost predicate OnNoRow(fs: seq<Folder>, account: Text, remoteId: Text) {
    forall f | f in fs :: !(f.account == account && f.remoteId == Some(remoteId))
  }

  // The mailboxes of this name that no row has, in LIST order.
  ghost function Unknown(fs: seq<Folder>, account: Text, ds: seq<Discovered>, title: Text): seq<Discovered> {
    if ds == [] then []
    else
      var d := ds[|ds| - 1];
      Unknown(fs, account, ds[..|ds| - 1], title)
      + if d.title == title && OnNoRow(fs, account, d.remoteId) then [d] else []
  }

  lemma OnNoRowIff(fs: seq<Folder>, account: Text, remoteId: Text)
    ensures OnNoRow(fs, account, remoteId) <==> FindRemote(fs, account, remoteId).None?
  {
  }

  // The plan gives the k-th waiting row of a name to the k-th unknown mailbox of that
  // name, and adds a row for each that is left over.
  ghost predicate InTurn(fs: seq<Folder>, account: Text, ds: seq<Discovered>, p: Plan, title: Text) {
    Given(Waiting(fs, account, title), Unknown(fs, account, ds, title), p)
  }

  ghost predicate Given(rows: seq<nat>, news: seq<Discovered>, p: Plan) {
    && (forall k | 0 <= k < |rows| :: rows[k] in p.adopted <==> k < |news|)
    && (forall k | 0 <= k < |rows| && k < |news| :: rows[k] in p.adopted && p.adopted[rows[k]] == news[k])
    && (forall k | |rows| <= k < |news| :: news[k] in p.added)
  }

  lemma NextIsGiven(rows: seq<nat>, news: seq<Discovered>, p: Plan, d: Discovered)
    requires Given(rows, news, p) && forall j, k | 0 <= j < k < |rows| :: rows[j] < rows[k]
    ensures Given(rows, news + [d],
                  if |news| < |rows| then p.(adopted := p.adopted[rows[|news|] := d])
                  else p.(added := p.added + [d]))
  {
  }

  lemma OthersStay(rows: seq<nat>, news: seq<Discovered>, p: Plan, i: nat, d: Discovered)
    requires Given(rows, news, p)
    ensures i !in rows ==> Given(rows, news, p.(adopted := p.adopted[i := d]))
    ensures Given(rows, news, p.(added := p.added + [d]))
  {
  }

  // Every row added is for a mailbox that is left over.
  ghost predicate LeftOver(fs: seq<Folder>, account: Text, ds: seq<Discovered>, d: Discovered) {
    var rows, news := Waiting(fs, account, d.title), Unknown(fs, account, ds, d.title);
    exists k | |rows| <= k < |news| :: news[k] == d
  }

  lemma FreeIff(fs: seq<Folder>, account: Text, p: Plan, title: Text, news: seq<Discovered>, i: nat)
    requires Given(Waiting(fs, account, title), news, p) && i < |fs|
    ensures FreeAt(fs, account, title, p.adopted.Keys, i) <==>
              exists k | |news| <= k < |Waiting(fs, account, title)| :: Waiting(fs, account, title)[k] == i
  {
    var rows := Waiting(fs, account, title);
    if FreeAt(fs, account, title, p.adopted.Keys, i) {
      assert i in rows;
      var k :| 0 <= k < |rows| && rows[k] == i;
      assert k >= |news|;
    }
  }

  lemma NextIsFree(fs: seq<Folder>, account: Text, p: Plan, title: Text, news: seq<Discovered>)
    requires Given(Waiting(fs, account, title), news, p)
    ensures FreePlaceholder(fs, account, title, p.adopted.Keys, 0)
            == if |news| < |Waiting(fs, account, title)| then Some(Waiting(fs, account, title)[|news|]) else None
  {
    hide Given, FreeAt, FreePlaceholder;
    var rows, free := Waiting(fs, account, title), FreePlaceholder(fs, account, title, p.adopted.Keys, 0);
    hide Waiting;
    if free.Some? {
      InRange(fs, account, title, p.adopted.Keys, free.value);
      FreeIff(fs, account, p, title, news, free.value);
    }
    if |news| < |rows| {
      FreeIff(fs, account, p, title, news, rows[|news|]);
    }
  }

  lemma InRange(fs: seq<Folder>, account: Text, title: Text, taken: set<nat>, i: nat)
    requires FreeAt(fs, account, title, taken, i)
    ensures i < |fs|
  {
  }

  // Rows wait under one name each.
  lemma OneName(fs: seq<Folder>, account: Text, title: Text, other: Text, k: nat)
    requires title != other && k < |Waiting(fs, account, title)|
    ensures Waiting(fs, account, title)[k] !in Waiting(fs, account, other)
  {
  }

  lemma {:induction false} PlanInTurn(fs: seq<Folder>, account: Text, ds: seq<Discovered>, title: Text)
    ensures InTurn(fs, account, ds, PlanOf(fs, account, ds), title)
    decreases |ds|
  {
    hide FreePlaceholder, Waiting;
    if ds != [] {
      var n := |ds| - 1;
      var d := ds[n];
      PlanInTurn(fs, account, ds[..n], title);
      PlanInTurn(fs, account, ds[..n], d.title);
      StepInTurn(fs, account, ds[..n], d, PlanOf(fs, account, ds[..n]), title);
    }
  }

  lemma StepInTurn(fs: seq<Folder>, account: Text, ds: seq<Discovered>, d: Discovered, p: Plan, title: Text)
    requires InTurn(fs, account, ds, p, title) && InTurn(fs, account, ds, p, d.title)
    ensures Given(Waiting(fs, account, title),
                  Unknown(fs, account, ds, title)
                  + (if d.title == title && OnNoRow(fs, account, d.remoteId) then [d] else []),
                  PlanStep(fs, account, p, d))
  {
    var rows, news := Waiting(fs, account, d.title), Unknown(fs, account, ds, d.title);
    NextIsFree(fs, account, p, d.title, news);
    OnNoRowIff(fs, account, d.remoteId);
    hide FreePlaceholder, Waiting, Unknown, OnNoRow, Given;
    if OnNoRow(fs, account, d.remoteId) {
      if title == d.title {
        NextIsGiven(rows, news, p, d);
      } else {
        if |news| < |rows| {
          OneName(fs, account, d.title, title, |news|);
        }
        OthersStay(Waiting(fs, account, title), Unknown(fs, account, ds, title), p,
                   if |news| < |rows| then rows[|news|] else 0, d);
        assert Unknown(fs, account, ds, title) + [] == Unknown(fs, account, ds, title);
      }
    } else {
      assert Unknown(fs, account, ds, title) + [] == Unknown(fs, account, ds, title);
    }
  }

  lemma {:induction false} AddedAreLeftOver(fs: seq<Folder>, account: Text, ds: seq<Discovered>, d: Discovered)
    requires d in PlanOf(fs, account, ds).added
    ensures LeftOver(fs, account, ds, d)
    decreases |ds|
  {
    hide FreePlaceholder, Waiting;
    var n := |ds| - 1;
    var p := PlanOf(fs, account, ds[..n]);
    PlanInTurn(fs, account, ds[..n], ds[n].title);
    NextIsFree(fs, account, p, ds[n].title, Unknown(fs, account, ds[..n], ds[n].title));
    OnNoRowIff(fs, account, ds[n].remoteId);
    var news := Unknown(fs, account, ds, d.title);
    if d in p.added {
      AddedAreLeftOver(fs, account, ds[..n], d);
      var before := Unknown(fs, account, ds[..n], d.title);
      var k :| |Waiting(fs, account, d.title)| <= k < |before| && before[k] == d;
      assert news[k] == d;
    } else {
      assert d == ds[n] && news[|news| - 1] == d;
    }
  }

  // The k-th unknown mailbox of a name: the k-th waiting row of that name takes it,
  // keeping its id, or if there is none a new row does.
  lemma UnknownTakesWaiting(db: Db, account: Text, ds: seq<Discovered>, title: Text, k: nat) returns (i: nat)
    requires Keyed(db.folders) && Distinct(ds) && k < |Unknown(db.folders, account, ds, title)|
    ensures var after, rows := Synced(db, account, ds).folders, Waiting(db.folders, account, title);
            var d := Unknown(db.folders, account, ds, title)[k];
            && i < |after| && after[i].account == account && after[i].remoteId == Some(d.remoteId)
            && (if k < |rows| then i == rows[k] && after[i].id == db.folders[i].id else i >= |db.folders|)
  {
    hide SyncAll, LinkAll, Synced, PlanOf, Waiting, Unknown;
    var rows, news := Waiting(db.folders, account, title), Unknown(db.folders, account, ds, title);
    var p := PlanOf(db.folders, account, ds);
    PlanInTurn(db.folders, account, ds, title);
    SyncFollowsPlan(db, account, ds);
    SyncKeepsRows(db, account, ds);
    if k < |rows| {
      i := rows[k];
    } else {
      assert news[k] in p.added;
      var m :| 0 <= m < |p.added| && p.added[m] == news[k];
      i := |db.folders| + m;
    }
  }

  // A row is added only for an unknown mailbox that found no waiting row left.
  lemma AddedOnlyWithoutWaiting(db: Db, account: Text, ds: seq<Discovered>, i: nat) returns (title: Text, k: nat)
    requires Keyed(db.folders) && Distinct(ds) && |db.folders| <= i < |Synced(db, account, ds).folders|
    ensures |Waiting(db.folders, account, title)| <= k < |Unknown(db.folders, account, ds, title)|
    ensures Synced(db, account, ds).folders[i].remoteId
            == Some(Unknown(db.folders, account, ds, title)[k].remoteId)
  {
    hide SyncAll, LinkAll, Synced, PlanOf, Waiting, Unknown;
    var p := PlanOf(db.folders, account, ds);
    SyncFollowsPlan(db, account, ds);
    var d := p.added[i - |db.folders|];
    AddedAreLeftOver(db.folders, account, ds, d);
    title := d.title;
    var news := Unknown(db.folders, account, ds, title);
    k :| |Waiting(db.folders, account, title)| <= k < |news| && news[k] == d;
  }

  // So the table grows exactly when some name has more unknown mailboxes than rows
  // waiting for them.
  lemma TableGrowsIff(db: Db, account: Text, ds: seq<Discovered>)
    requires Keyed(db.folders) && Distinct(ds)
    ensures |Synced(db, account, ds).folders| >= |db.folders|
    ensures |Synced(db, account, ds).folders| > |db.folders| <==>
              exists title: Text :: |Unknown(db.folders, account, ds, title)| > |Waiting(db.folders, account, title)|
  {
    hide SyncAll, LinkAll, Synced, Waiting, Unknown;
    SyncKeepsRows(db, account, ds);
    if |Synced(db, account, ds).folders| > |db.folders| {
      var title, k := AddedOnlyWithoutWaiting(db, account, ds, |db.folders|);
    }
    if title: Text :| |Unknown(db.folders, account, ds, title)| > |Waiting(db.folders, account, title)| {
      var i := UnknownTakesWaiting(db, account, ds, title, |Waiting(db.folders, account, title)|);
    }
  }
}
