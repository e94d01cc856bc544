// The tree that a sync makes of the folders (crates/core/src/remote.rs): which
// rows a LIST will adopt and add, where every link will go, and when the links
// stay acyclic -- all told from the table and the LIST before the call.
module FolderLinks {
  import opened Wrappers
  import opened FolderSync

  // ---- which rows the first pass adopts and adds ----

  // Rows of placeholders to the mailboxes that adopt them, and the mailboxes added.
  datatype Plan = Plan(adopted: map<nat, Discovered>, added: seq<Discovered>)

  predicate FreeAt(fs: seq<Folder>, account: Text, title: Text, taken: set<nat>, i: nat) {
    i < |fs| && IsPlaceholder(fs[i], account, title) && i !in taken
  }

  // The first placeholder of this name that is not taken, from row i on.
  function FreePlaceholder(fs: seq<Folder>, account: Text, title: Text, taken: set<nat>, i: nat): (r: Option<nat>)
    requires i <= |fs|
    ensures r.Some? ==> i <= r.value && FreeAt(fs, account, title, taken, r.value)
                        && forall k | i <= k < r.value :: !FreeAt(fs, account, title, taken, k)
    ensures r.None? ==> forall k | i <= k < |fs| :: !FreeAt(fs, account, title, taken, k)
    decreases |fs| - i
  {
    if i == |fs| then None
    else if FreeAt(fs, account, title, taken, i) then Some(i)
    else FreePlaceholder(fs, account, title, taken, i + 1)
  }

  function PlanStep(fs: seq<Folder>, account: Text, p: Plan, d: Discovered): Plan {
    if FindRemote(fs, account, d.remoteId).Some? then p
    else
      match FreePlaceholder(fs, account, d.title, p.adopted.Keys, 0)
      case Some(i) => p.(adopted := p.adopted[i := d])
      case None => p.(added := p.added + [d])
  }

  function PlanOf(fs: seq<Folder>, account: Text, ds: seq<Discovered>): Plan {
    if ds == [] then Plan(map[], [])
    else PlanStep(fs, account, PlanOf(fs, account, ds[..|ds| - 1]), ds[|ds| - 1])
  }

  // The remote id that row i of this account will have.
  function NameAt(fs: seq<Folder>, account: Text, p: Plan, i: nat): Option<Text> {
    if i < |fs| then
      if fs[i].account != account then None
      else if i in p.adopted then Some(p.adopted[i].remoteId)
      else fs[i].remoteId
    else if i - |fs| < |p.added| then Some(p.added[i - |fs|].remoteId)
    else None
  }

  ghost predicate PlanFits(fs: seq<Folder>, account: Text, ds: seq<Discovered>, p: Plan) {
    && (forall i | i in p.adopted ::
          i < |fs| && p.adopted[i] in ds && IsPlaceholder(fs[i], account, p.adopted[i].title))
    && (forall d | d in p.added :: d in ds)
  }

  // The rows of `gs` are those of `fs`, named as planned; what is no server row yet
  // is as it was.
  ghost predicate Follows(fs: seq<Folder>, account: Text, p: Plan, gs: seq<Folder>) {
    && |gs| == |fs| + |p.added|
    && (forall i | 0 <= i < |gs| && gs[i].account == account :: gs[i].remoteId == NameAt(fs, account, p, i))
    && (forall i | |fs| <= i < |gs| :: gs[i].account == account)
    && (forall i | 0 <= i < |fs| :: gs[i].account == fs[i].account)
    && (forall i | 0 <= i < |fs| && gs[i].remoteId.None? :: gs[i] == fs[i])
    && (forall i | 0 <= i < |fs| && fs[i].account != account :: gs[i] == fs[i])
  }

  lemma {:induction false} PlanFollowed(db: Db, account: Text, ds: seq<Discovered>)
    requires Distinct(ds)
    ensures PlanFits(db.folders, account, ds, PlanOf(db.folders, account, ds))
    ensures Follows(db.folders, account, PlanOf(db.folders, account, ds), SyncAll(db, account, ds).folders)
  {
    hide SyncOne, PlanStep, Follows, PlanFits;
    if ds == [] {
      NothingPlanned(db.folders, account);
    } else {
      var n := |ds| - 1;
      var p, before := PlanOf(db.folders, account, ds[..n]), SyncAll(db, account, ds[..n]);
      PlanFollowed(db, account, ds[..n]);
      assert forall d | d in ds[..n] :: d in ds && d.remoteId != ds[n].remoteId;
      SameRemote(db.folders, account, ds[..n], p, before.folders, ds[n].remoteId);
      SamePlaceholder(db.folders, account, p, before.folders, ds[n].title);
      StepFits(db.folders, account, ds[..n], p, ds[n]);
      assert ds[..n] + [ds[n]] == ds;
      StepFollows(db.folders, account, ds[..n], p, before, ds[n]);
    }
  }

  lemma NothingPlanned(fs: seq<Folder>, account: Text)
    ensures PlanFits(fs, account, [], Plan(map[], [])) && Follows(fs, account, Plan(map[], []), fs)
  {
  }

  lemma StepFits(fs: seq<Folder>, account: Text, ds: seq<Discovered>, p: Plan, d: Discovered)
    requires PlanFits(fs, account, ds, p)
    ensures PlanFits(fs, account, ds + [d], PlanStep(fs, account, p, d))
  {
  }

  lemma SameRemote(fs: seq<Folder>, account: Text, ds: seq<Discovered>, p: Plan, gs: seq<Folder>, remoteId: Text)
    requires PlanFits(fs, account, ds, p) && Follows(fs, account, p, gs)
    requires forall d | d in ds :: d.remoteId != remoteId
    ensures FindRemote(gs, account, remoteId) == FindRemote(fs, account, remoteId)
  {
    forall i | 0 <= i < |gs|
      ensures IsRemote(gs[i], account, remoteId) <==> i < |fs| && IsRemote(fs[i], account, remoteId)
    {
      if i >= |fs| {
        assert p.added[i - |fs|] in ds;
      }
    }
  }

  lemma SamePlaceholder(fs: seq<Folder>, account: Text, p: Plan, gs: seq<Folder>, title: Text)
    requires Follows(fs, account, p, gs)
    ensures FindPlaceholder(gs, account, title) == FreePlaceholder(fs, account, title, p.adopted.Keys, 0)
  {
    forall i: nat | i < |gs|
      ensures IsPlaceholder(gs[i], account, title) <==> FreeAt(fs, account, title, p.adopted.Keys, i)
    {
    }
  }

  lemma StepFollows(fs: seq<Folder>, account: Text, ds: seq<Discovered>, p: Plan, before: Db, d: Discovered)
    requires PlanFits(fs, account, ds, p) && Follows(fs, account, p, before.folders)
    requires FindRemote(before.folders, account, d.remoteId) == FindRemote(fs, account, d.remoteId)
    requires FindPlaceholder(before.folders, account, d.title)
             == FreePlaceholder(fs, account, d.title, p.adopted.Keys, 0)
    ensures Follows(fs, account, PlanStep(fs, account, p, d), SyncOne(before, account, d).folders)
  {
    hide Follows, UniqueId, NameAt;
    var gs := before.folders;
    match FindRemote(gs, account, d.remoteId)
    case Some(i) =>
      var f := gs[i];
      RenamedFollows(fs, account, p, gs, i, f.(name := d.title, kind := d.kind, delimiter := d.delimiter,
                                                 deletedAt := DeletedAfter(before, account, f)));
    case None =>
      match FindPlaceholder(gs, account, d.title)
      case Some(i) =>
        AdoptionFollows(fs, account, p, gs, i, d, gs[i].(remoteId := Some(d.remoteId), kind := d.kind,
                                                         delimiter := d.delimiter, deletedAt := None));
      case None =>
        AdditionFollows(fs, account, p, gs, d, UniqueId(Ids(gs), account, d.remoteId));
  }

  lemma RenamedFollows(fs: seq<Folder>, account: Text, p: Plan, gs: seq<Folder>, i: nat, g: Folder)
    requires Follows(fs, account, p, gs) && i < |gs| && gs[i].account == account && gs[i].remoteId.Some?
    requires g.account == account && g.remoteId == gs[i].remoteId
    ensures Follows(fs, account, p, gs[i := g])
  {
  }

  lemma AdoptionFollows(fs: seq<Folder>, account: Text, p: Plan, gs: seq<Folder>, i: nat, d: Discovered, g: Folder)
    requires Follows(fs, account, p, gs) && i < |fs| && gs[i].account == account
    requires g.account == account && g.remoteId == Some(d.remoteId)
    ensures i < |gs| && Follows(fs, account, p.(adopted := p.adopted[i := d]), gs[i := g])
  {
  }

  lemma AdditionFollows(fs: seq<Folder>, account: Text, p: Plan, gs: seq<Folder>, d: Discovered, id: Text)
    requires Follows(fs, account, p, gs)
    ensures Follows(fs, account, p.(added := p.added + [d]),
                    gs + [Folder(id, account, Some(d.remoteId), d.title, d.kind, d.delimiter, None, None)])
  {
  }

  // The whole call names the rows as planned.
  lemma SyncFollowsPlan(db: Db, account: Text, ds: seq<Discovered>)
    requires Keyed(db.folders) && Distinct(ds)
    ensures var p := PlanOf(db.folders, account, ds);
            PlanFits(db.folders, account, ds, p) && Follows(db.folders, account, p, Synced(db, account, ds).folders)
  {
    hide SyncAll, LinkAll, PlanOf, PlanFits, NameAt;
    var first, after := SyncAll(db, account, ds).folders, Synced(db, account, ds).folders;
    PlanFollowed(db, account, ds);
    LinkAllKeeps(first, account, ds);
    SyncKeepsRows(db, account, ds);
    forall i: nat | i < |db.folders| && after[i].remoteId.None?
      ensures after[i] == db.folders[i]
    {
      SyncSparesTheRest(db, account, ds, i);
    }
  }

  // The row planned for a listed mailbox is the row that shows it.
  lemma PlannedRowShows(db: Db, account: Text, ds: seq<Discovered>, d: Discovered, i: nat)
    requires Keyed(db.folders) && Distinct(ds) && d in ds
    ensures NameAt(db.folders, account, PlanOf(db.folders, account, ds), i) == Some(d.remoteId) <==>
              Shows(Synced(db, account, ds), i, account, d)
  {
    hide SyncAll, LinkAll, Synced, PlanOf;
    SyncFollowsPlan(db, account, ds);
    var row := SyncListsEachMailboxOnce(db, account, ds, d);
  }

  // A mailbox ends where the server lists it, top level included, exactly when its
  // parent is known or its row had no parent to keep. All of this can be told before
  // the call: i is the row planned for it.
  lemma PlacedAsListedIff(db: Db, account: Text, ds: seq<Discovered>, d: Discovered, i: nat)
    requires Keyed(db.folders) && Distinct(ds) && d in ds
    requires NameAt(db.folders, account, PlanOf(db.folders, account, ds), i) == Some(d.remoteId)
    ensures var after := Synced(db, account, ds).folders;
            i < |after| && IsRemote(after[i], account, d.remoteId)
            && (after[i].parent == ParentId(after, account, d)
                <==> || ParentKnown(db.folders, account, ds, d)
                     || i >= |db.folders| || db.folders[i].parent.None?)
  {
    hide SyncAll, LinkAll, Synced, PlanOf, NameAt, ParentId;
    PlannedRowShows(db, account, ds, d, i);
    ParentFoundIff(db, account, ds, d);
    SyncLinksParents(db, account, ds, d, i);
  }

  // ---- links ----

  ghost predicate Link(fs: seq<Folder>, i: nat, j: nat) {
    i < |fs| && j < |fs| && fs[i].parent == Some(fs[j].id)
  }

  // Every link goes from a row to one of lower rank.
  ghost predicate Ranked(fs: seq<Folder>, ranks: seq<nat>) {
    |ranks| == |fs| && forall i: nat, j: nat | Link(fs, i, j) :: ranks[j] < ranks[i]
  }

  ghost predicate Acyclic(fs: seq<Folder>) {
    exists ranks: seq<nat> :: Ranked(fs, ranks)
  }

  // A walk up the parents, row by row.
  ghost predicate Climb(fs: seq<Folder>, rows: seq<nat>) {
    forall k | 0 <= k < |rows| - 1 :: Link(fs, rows[k], rows[k + 1])
  }

  lemma {:induction false} ClimbLowersRank(fs: seq<Folder>, ranks: seq<nat>, rows: seq<nat>)
    requires Ranked(fs, ranks) && Climb(fs, rows) && |rows| >= 2
    ensures Link(fs, rows[0], rows[1]) && rows[|rows| - 1] < |fs| && ranks[rows[|rows| - 1]] < ranks[rows[0]]
  {
    assert Link(fs, rows[0], rows[1]);
    for k := 1 to |rows| - 1
      invariant rows[k] < |fs| && ranks[rows[k]] < ranks[rows[0]]
    {
      assert Link(fs, rows[k], rows[k + 1]);
    }
  }

  // A walk that comes back to its start is what acyclic rules out.
  lemma CycleIsNotAcyclic(fs: seq<Folder>, rows: seq<nat>)
    requires Climb(fs, rows) && |rows| >= 2 && rows[0] == rows[|rows| - 1]
    ensures !Acyclic(fs)
  {
    if Acyclic(fs) {
      var ranks :| Ranked(fs, ranks);
      ClimbLowersRank(fs, ranks, rows);
    }
  }

  // Every parent exists and links stay in one account: what the schema and the
  // second pass see to.
  ghost predicate Rooted(fs: seq<Folder>) {
    && (forall i: nat | i < |fs| && fs[i].parent.Some? :: exists j: nat :: Link(fs, i, j))
    && (forall i: nat, j: nat | Link(fs, i, j) :: fs[i].account == fs[j].account)
  }

  // Besides, a server row hangs under a server row with a shorter name. A sync can
  // leave that state, and so does a parent that is renamed while its children keep
  // their names.
  ghost predicate Tidy(fs: seq<Folder>, account: Text) {
    Rooted(fs) && forall i: nat, j: nat | Link(fs, i, j) :: Descends(fs, account, i, j)
  }

  ghost predicate Descends(fs: seq<Folder>, account: Text, i: nat, j: nat)
    requires i < |fs| && j < |fs|
  {
    fs[i].account == account && fs[i].remoteId.Some? ==>
      fs[j].remoteId.Some? && |fs[j].remoteId.value| < |fs[i].remoteId.value|
  }

  // Parent names are proper prefixes.
  ghost predicate Nested(ds: seq<Discovered>) {
    forall d | d in ds && d.parentRemoteId.Some? :: d.parentRemoteId.value < d.remoteId
  }

  // ---- acyclic means that no walk comes back ----

  ghost function ParentRow(fs: seq<Folder>, i: nat): (r: Option<nat>)
    ensures if r.Some? then Link(fs, i, r.value) else forall j: nat :: !Link(fs, i, j)
  {
    if j: nat :| Link(fs, i, j) then Some(j) else None
  }

  // The walk up from row i, at most n links long.
  ghost function Up(fs: seq<Folder>, i: nat, n: nat): (rows: seq<nat>)
    requires i < |fs|
    ensures 1 <= |rows| <= n + 1 && rows[0] == i && forall k | 0 <= k < |rows| :: rows[k] < |fs|
    decreases n
  {
    if n == 0 || ParentRow(fs, i).None? then [i] else [i] + Up(fs, ParentRow(fs, i).value, n - 1)
  }

  lemma {:induction false} UpClimbs(fs: seq<Folder>, i: nat, n: nat)
    requires i < |fs|
    ensures Climb(fs, Up(fs, i, n))
    decreases n
  {
    if n > 0 && ParentRow(fs, i).Some? {
      var more := Up(fs, ParentRow(fs, i).value, n - 1);
      UpClimbs(fs, ParentRow(fs, i).value, n - 1);
      forall k | 0 <= k < |more|
        ensures Link(fs, ([i] + more)[k], ([i] + more)[k + 1])
      {
        if k > 0 {
          assert Link(fs, more[k - 1], more[k]);
        }
      }
    }
  }

  // A walk that ended before its bound is the same under any larger bound.
  lemma {:induction false} UpEnds(fs: seq<Folder>, i: nat, n: nat)
    requires i < |fs| && |Up(fs, i, n)| <= n
    ensures Up(fs, i, n + 1) == Up(fs, i, n)
    decreases n
  {
    if ParentRow(fs, i).Some? {
      UpEnds(fs, ParentRow(fs, i).value, n - 1);
    }
  }

  // Pigeonhole.
  lemma {:induction false} RowsRepeat(rows: seq<nat>, among: set<nat>)
    requires |rows| > |among| && forall k | 0 <= k < |rows| :: rows[k] in among
    ensures exists a: nat, b: nat :: a < b < |rows| && rows[a] == rows[b]
  {
    var n := |rows| - 1;
    if a :| 0 <= a < n && rows[a] == rows[n] {
      assert a < n < |rows|;
    } else {
      RowsRepeat(rows[..n], among - {rows[n]});
      var a: nat, b: nat :| a < b < n && rows[..n][a] == rows[..n][b];
      assert a < b < |rows| && rows[a] == rows[b];
    }
  }

  ghost function Below(n: nat): (s: set<nat>)
    ensures |s| == n && forall k: nat :: k in s <==> k < n
  {
    if n == 0 then {} else Below(n - 1) + {n - 1}
  }

  ghost predicate Cycle(fs: seq<Folder>, rows: seq<nat>) {
    Climb(fs, rows) && |rows| >= 2 && rows[0] == rows[|rows| - 1]
  }

  lemma LongWalkHasACycle(fs: seq<Folder>, rows: seq<nat>)
    requires Climb(fs, rows) && |rows| > |fs| && forall k | 0 <= k < |rows| :: rows[k] < |fs|
    ensures exists cycle: seq<nat> :: Cycle(fs, cycle)
  {
    RowsRepeat(rows, Below(|fs|));
    var a: nat, b: nat :| a < b < |rows| && rows[a] == rows[b];
    var cycle := rows[a..b + 1];
    forall k | 0 <= k < |cycle| - 1
      ensures Link(fs, cycle[k], cycle[k + 1])
    {
      assert Link(fs, rows[a + k], rows[a + k + 1]);
    }
    assert Cycle(fs, cycle);
  }

  lemma NoCycleIsAcyclic(fs: seq<Folder>)
    requires Keyed(fs)
    requires !exists rows: seq<nat> :: Cycle(fs, rows)
    ensures Acyclic(fs)
  {
    var n := |fs|;
    forall i: nat | i < n
      ensures |Up(fs, i, n)| <= n
    {
      UpClimbs(fs, i, n);
      if |Up(fs, i, n)| > n {
        LongWalkHasACycle(fs, Up(fs, i, n));
      }
    }
    var ranks := seq(n, i requires 0 <= i < n => |Up(fs, i, n)|);
    forall i: nat, j: nat | Link(fs, i, j)
      ensures ranks[j] < ranks[i]
    {
      assert ParentRow(fs, i) == Some(j);
      assert Up(fs, i, n) == [i] + Up(fs, j, n - 1);
      UpEnds(fs, j, n - 1);
    }
    assert Ranked(fs, ranks);
  }

  // ---- where every link will go ----

  // The LIST puts row i under the row of d's parent.
  ghost predicate Placed(fs: seq<Folder>, account: Text, ds: seq<Discovered>, d: Discovered, i: nat) {
    && d in ds && NameAt(fs, account, PlanOf(fs, account, ds), i) == Some(d.remoteId)
    && ParentKnown(fs, account, ds, d)
  }

  ghost predicate WillLink(fs: seq<Folder>, account: Text, ds: seq<Discovered>, i: nat, j: nat) {
    if exists d :: Placed(fs, account, ds, d, i) then
      exists d :: Placed(fs, account, ds, d, i)
                  && NameAt(fs, account, PlanOf(fs, account, ds), j) == d.parentRemoteId
    else Link(fs, i, j)
  }

  ghost predicate WillClimb(fs: seq<Folder>, account: Text, ds: seq<Discovered>, rows: seq<nat>) {
    forall k | 0 <= k < |rows| - 1 :: WillLink(fs, account, ds, rows[k], rows[k + 1])
  }

  lemma KeptLinkWasThere(db: Db, account: Text, ds: seq<Discovered>, i: nat, j: nat)
    requires Keyed(db.folders) && Rooted(db.folders) && i < |db.folders|
    requires Link(Synced(db, account, ds).folders, i, j)
    requires Synced(db, account, ds).folders[i].parent == db.folders[i].parent
    ensures Link(db.folders, i, j)
  {
    SyncKeepsRows(db, account, ds);
    var k: nat :| Link(db.folders, i, k);
    assert Synced(db, account, ds).folders[k].id == Synced(db, account, ds).folders[j].id;
  }

  // The link of a row whose parent is known.
  lemma PlacedLink(db: Db, account: Text, ds: seq<Discovered>, d: Discovered, i: nat, j: nat)
    requires Keyed(db.folders) && Distinct(ds) && Placed(db.folders, account, ds, d, i)
    ensures Link(Synced(db, account, ds).folders, i, j) <==>
              NameAt(db.folders, account, PlanOf(db.folders, account, ds), j) == d.parentRemoteId
  {
    hide SyncAll, LinkAll, Synced, PlanOf;
    var after := Synced(db, account, ds).folders;
    SyncFollowsPlan(db, account, ds);
    SyncKeepsRows(db, account, ds);
    PlannedRowShows(db, account, ds, d, i);
    ParentFoundIff(db, account, ds, d);
    SyncLinksParents(db, account, ds, d, i);
    var row := FindRemote(after, account, d.parentRemoteId.value).value;
    if NameAt(db.folders, account, PlanOf(db.folders, account, ds), j) == d.parentRemoteId {
      FindsTheRow(after, account, d.parentRemoteId.value, j);
    }
  }

  // The parent of any other row is the one it had.
  lemma OtherParentKept(db: Db, account: Text, ds: seq<Discovered>, i: nat)
    requires Keyed(db.folders) && Distinct(ds) && !(exists d :: Placed(db.folders, account, ds, d, i))
    requires i < |Synced(db, account, ds).folders|
    ensures Synced(db, account, ds).folders[i].parent == if i < |db.folders| then db.folders[i].parent else None
  {
    hide SyncAll, LinkAll, Synced, PlanOf, NameAt;
    var after := Synced(db, account, ds).folders;
    if d :| d in ds && IsRemote(after[i], account, d.remoteId) {
      var row := SyncListsEachMailboxOnce(db, account, ds, d);
      PlannedRowShows(db, account, ds, d, i);
      assert !Placed(db.folders, account, ds, d, i);
      ParentFoundIff(db, account, ds, d);
      SyncLinksParents(db, account, ds, d, i);
    } else {
      SyncSparesTheRest(db, account, ds, i);
    }
  }

  // Every link after the call, told from the table and the LIST before it.
  lemma LinksAsPlanned(db: Db, account: Text, ds: seq<Discovered>, i: nat, j: nat)
    requires Keyed(db.folders) && Distinct(ds) && Rooted(db.folders)
    ensures Link(Synced(db, account, ds).folders, i, j) <==> WillLink(db.folders, account, ds, i, j)
  {
    hide SyncAll, LinkAll, Synced, PlanOf, NameAt, Placed;
    var after := Synced(db, account, ds).folders;
    if d :| Placed(db.folders, account, ds, d, i) {
      forall e | Placed(db.folders, account, ds, e, i)
        ensures Link(after, i, j) <==>
                NameAt(db.folders, account, PlanOf(db.folders, account, ds), j) == e.parentRemoteId
      {
        PlacedLink(db, account, ds, e, i, j);
      }
    } else {
      SyncKeepsRows(db, account, ds);
      if i < |after| {
        OtherParentKept(db, account, ds, i);
      }
      if Link(after, i, j) {
        KeptLinkWasThere(db, account, ds, i, j);
      }
    }
  }

  // The schema's part of the order is kept by every sync.
  lemma SyncKeepsRooted(db: Db, account: Text, ds: seq<Discovered>)
    requires Keyed(db.folders) && Distinct(ds) && Rooted(db.folders)
    ensures Rooted(Synced(db, account, ds).folders)
  {
    hide SyncAll, LinkAll, Synced, PlanOf, NameAt;
    var after := Synced(db, account, ds).folders;
    forall i: nat | i < |after| && after[i].parent.Some?
      ensures exists j: nat :: Link(after, i, j)
    {
      ParentExists(db, account, ds, i);
    }
    forall i: nat, j: nat | Link(after, i, j)
      ensures after[i].account == after[j].account
    {
      LinkInOneAccount(db, account, ds, i, j);
    }
  }

  lemma ParentExists(db: Db, account: Text, ds: seq<Discovered>, i: nat)
    requires Keyed(db.folders) && Distinct(ds) && Rooted(db.folders)
    requires i < |Synced(db, account, ds).folders| && Synced(db, account, ds).folders[i].parent.Some?
    ensures exists j: nat :: Link(Synced(db, account, ds).folders, i, j)
  {
    hide SyncAll, LinkAll;
    var after := Synced(db, account, ds).folders;
    SyncKeepsRows(db, account, ds);
    if d :| d in ds && IsRemote(after[i], account, d.remoteId) {
      var row := SyncListsEachMailboxOnce(db, account, ds, d);
      SyncLinksParents(db, account, ds, d, i);
      if ParentId(after, account, d).Some? {
        assert Link(after, i, FindRemote(after, account, d.parentRemoteId.value).value);
      } else {
        var j: nat :| Link(db.folders, i, j);
        assert Link(after, i, j);
      }
    } else {
      SyncSparesTheRest(db, account, ds, i);
      var j: nat :| Link(db.folders, i, j);
      assert Link(after, i, j);
    }
  }

  lemma LinkInOneAccount(db: Db, account: Text, ds: seq<Discovered>, i: nat, j: nat)
    requires Keyed(db.folders) && Distinct(ds) && Rooted(db.folders)
    requires Link(Synced(db, account, ds).folders, i, j)
    ensures Synced(db, account, ds).folders[i].account == Synced(db, account, ds).folders[j].account
  {
    hide SyncAll, LinkAll, Synced, PlanOf;
    SyncFollowsPlan(db, account, ds);
    SyncKeepsRows(db, account, ds);
    if d :| Placed(db.folders, account, ds, d, i) {
      PlacedLink(db, account, ds, d, i, j);
      PlannedRowShows(db, account, ds, d, i);
    } else {
      OtherParentKept(db, account, ds, i);
      KeptLinkWasThere(db, account, ds, i, j);
    }
  }

  // ---- links that nothing puts in order ----

  ghost predicate Shorter(name: Option<Text>, than: Option<Text>) {
    name.Some? && than.Some? && |name.value| < |than.value|
  }

  // Row i will be a server row that the LIST does not place, and keeps a link to a row
  // that will have no shorter name.
  ghost predicate Loose(fs: seq<Folder>, account: Text, ds: seq<Discovered>, i: nat) {
    var p := PlanOf(fs, account, ds);
    && NameAt(fs, account, p, i).Some?
    && (forall d :: !Placed(fs, account, ds, d, i))
    && exists j: nat :: Link(fs, i, j) && !Shorter(NameAt(fs, account, p, j), NameAt(fs, account, p, i))
  }

  // Any other link descends; that of anything but a server row of this account was
  // there before.
  lemma OtherLinkDescends(db: Db, account: Text, ds: seq<Discovered>, i: nat, j: nat)
    requires Keyed(db.folders) && Distinct(ds) && Nested(ds) && Rooted(db.folders)
    requires Link(Synced(db, account, ds).folders, i, j) && !Loose(db.folders, account, ds, i)
    ensures Descends(Synced(db, account, ds).folders, account, i, j)
    ensures Synced(db, account, ds).folders[i].account == Synced(db, account, ds).folders[j].account
    ensures (var f := Synced(db, account, ds).folders[i]; f.account != account || f.remoteId.None?) ==>
              Link(db.folders, i, j)
  {
    hide SyncAll, LinkAll, Synced, PlanOf;
    LinkInOneAccount(db, account, ds, i, j);
    SyncFollowsPlan(db, account, ds);
    if d :| Placed(db.folders, account, ds, d, i) {
      PlacedLink(db, account, ds, d, i, j);
      PlannedRowShows(db, account, ds, d, i);
    } else {
      OtherParentKept(db, account, ds, i);
      KeptLinkWasThere(db, account, ds, i, j);
    }
  }

  // A loose row keeps its link, and that link does not descend.
  lemma LooseLink(db: Db, account: Text, ds: seq<Discovered>, i: nat) returns (j: nat)
    requires Keyed(db.folders) && Distinct(ds) && Rooted(db.folders) && Loose(db.folders, account, ds, i)
    ensures Link(Synced(db, account, ds).folders, i, j) && !Descends(Synced(db, account, ds).folders, account, i, j)
  {
    hide SyncAll, LinkAll, Synced, PlanOf;
    var p := PlanOf(db.folders, account, ds);
    SyncFollowsPlan(db, account, ds);
    SyncKeepsRows(db, account, ds);
    OtherParentKept(db, account, ds, i);
    j :| Link(db.folders, i, j) && !Shorter(NameAt(db.folders, account, p, j), NameAt(db.folders, account, p, i));
  }

  // Whatever the folders were before, a sync leaves them tidy exactly when no row is
  // loose.
  lemma SyncIsTidyIff(db: Db, account: Text, ds: seq<Discovered>)
    requires Keyed(db.folders) && Distinct(ds) && Nested(ds) && Rooted(db.folders)
    ensures Tidy(Synced(db, account, ds).folders, account) <==> forall i: nat :: !Loose(db.folders, account, ds, i)
  {
    hide SyncAll, LinkAll, Synced, PlanOf, NameAt, Loose, Descends, Rooted;
    var after := Synced(db, account, ds).folders;
    SyncKeepsRooted(db, account, ds);
    if i: nat :| Loose(db.folders, account, ds, i) {
      var j := LooseLink(db, account, ds, i);
    } else {
      forall i: nat, j: nat | Link(after, i, j)
        ensures Descends(after, account, i, j)
      {
        OtherLinkDescends(db, account, ds, i, j);
      }
    }
  }

  // In tidy folders a row comes loose only by adoption for a mailbox whose parent is
  // neither listed nor a row already, keeping the parent it had.
  lemma LooseFromTidyIsAdopted(db: Db, account: Text, ds: seq<Discovered>, i: nat)
    requires Keyed(db.folders) && Distinct(ds) && Tidy(db.folders, account) && Loose(db.folders, account, ds, i)
    ensures var p := PlanOf(db.folders, account, ds);
            i in p.adopted && i < |db.folders| && db.folders[i].parent.Some?
            && !ParentKnown(db.folders, account, ds, p.adopted[i])
  {
    hide PlanOf;
    var p := PlanOf(db.folders, account, ds);
    PlanFollowed(db, account, ds);
    var j: nat :| Link(db.folders, i, j)
                  && !Shorter(NameAt(db.folders, account, p, j), NameAt(db.folders, account, p, i));
    assert Descends(db.folders, account, i, j);
    if i in p.adopted {
      assert !Placed(db.folders, account, ds, p.adopted[i], i);
    }
  }

  function LongestName(fs: seq<Folder>): (n: nat)
    ensures forall f | f in fs && f.remoteId.Some? :: |f.remoteId.value| <= n
  {
    if fs == [] then 0
    else
      var rest := LongestName(fs[1..]);
      if fs[0].remoteId.Some? && |fs[0].remoteId.value| > rest then |fs[0].remoteId.value| else rest
  }

  // Server rows below placeholders, each by the length of its name.
  function NewRank(fs: seq<Folder>, account: Text, ranks: seq<nat>, i: nat): nat
    requires i < |fs|
  {
    var was := if i < |ranks| then ranks[i] else 0;
    if fs[i].account != account then was
    else if fs[i].remoteId.Some? then |fs[i].remoteId.value|
    else LongestName(fs) + 1 + was
  }

  lemma NewRankLowers(db: Db, account: Text, ds: seq<Discovered>, ranks: seq<nat>, i: nat, j: nat)
    requires Keyed(db.folders) && Ranked(db.folders, ranks)
    requires var after := Synced(db, account, ds).folders;
             && Link(after, i, j) && Descends(after, account, i, j) && after[i].account == after[j].account
             && (after[i].account != account || after[i].remoteId.None? ==> Link(db.folders, i, j))
    ensures var after := Synced(db, account, ds).folders;
            NewRank(after, account, ranks, j) < NewRank(after, account, ranks, i)
  {
    hide SyncAll, LinkAll, Synced;
    var after := Synced(db, account, ds).folders;
    assert after[i] in after && after[j] in after;
    if after[i].account != account || after[i].remoteId.None? {
      assert ranks[j] < ranks[i];
    }
  }

  // Some loose row is above itself in the links to come.
  ghost predicate LooseRowClimbsBack(fs: seq<Folder>, account: Text, ds: seq<Discovered>) {
    exists rows: seq<nat> ::
      && |rows| >= 2 && rows[0] == rows[|rows| - 1]
      && Loose(fs, account, ds, rows[0]) && WillClimb(fs, account, ds, rows)
  }

  // A cycle passes through a loose row.
  lemma CycleHasALooseRow(db: Db, account: Text, ds: seq<Discovered>, rows: seq<nat>) returns (k: nat)
    requires Keyed(db.folders) && Distinct(ds) && Nested(ds) && Rooted(db.folders) && Acyclic(db.folders)
    requires Cycle(Synced(db, account, ds).folders, rows)
    ensures k < |rows| - 1 && Loose(db.folders, account, ds, rows[k])
  {
    hide SyncAll, LinkAll, Synced, Loose, Descends, NewRank, Link, Rooted;
    var after := Synced(db, account, ds).folders;
    var ranks :| Ranked(db.folders, ranks);
    k := 0;
    assert Link(after, rows[0], rows[1]);
    InBounds(after, rows[0], rows[1]);
    var start := NewRank(after, account, ranks, rows[0]);
    while k < |rows| - 1 && !Loose(db.folders, account, ds, rows[k])
      invariant k <= |rows| - 1
      invariant rows[k] < |after|
      invariant if k == 0 then NewRank(after, account, ranks, rows[k]) == start
                else NewRank(after, account, ranks, rows[k]) < start
    {
      assert Link(after, rows[k], rows[k + 1]);
      InBounds(after, rows[k], rows[k + 1]);
      OtherLinkDescends(db, account, ds, rows[k], rows[k + 1]);
      NewRankLowers(db, account, ds, ranks, rows[k], rows[k + 1]);
      k := k + 1;
    }
  }

  lemma InBounds(fs: seq<Folder>, i: nat, j: nat)
    requires Link(fs, i, j)
    ensures i < |fs| && j < |fs|
  {
  }

  // A cycle may start at any of its rows.
  lemma Rotated(fs: seq<Folder>, rows: seq<nat>, k: nat) returns (turned: seq<nat>)
    requires Cycle(fs, rows) && k < |rows| - 1
    ensures Cycle(fs, turned) && turned[0] == rows[k]
  {
    hide Link;
    turned := rows[k..] + rows[1..k + 1];
    forall n | 0 <= n < |turned| - 1
      ensures Link(fs, turned[n], turned[n + 1])
    {
      var at := if k + n < |rows| - 1 then k + n else k + n - (|rows| - 1);
      assert Link(fs, rows[at], rows[at + 1]);
    }
  }

  // When parent names are proper prefixes, a sync of acyclic folders closes a cycle
  // exactly when a loose row climbs back to itself.
  lemma SyncStaysAcyclicIff(db: Db, account: Text, ds: seq<Discovered>)
    requires Keyed(db.folders) && Distinct(ds) && Nested(ds)
    requires Rooted(db.folders) && Acyclic(db.folders)
    ensures Acyclic(Synced(db, account, ds).folders) <==> !LooseRowClimbsBack(db.folders, account, ds)
  {
    hide SyncAll, LinkAll, Synced, Loose, Link, WillLink, Keyed, Acyclic, Rooted;
    var after := Synced(db, account, ds).folders;
    SyncKeepsRows(db, account, ds);
    forall rows: seq<nat>
      ensures Climb(after, rows) <==> WillClimb(db.folders, account, ds, rows)
    {
      ClimbsAsPlanned(db, account, ds, rows);
    }
    assert forall rows: seq<nat> :: Cycle(after, rows) <==>
             WillClimb(db.folders, account, ds, rows) && |rows| >= 2 && rows[0] == rows[|rows| - 1];
    if rows: seq<nat> :| Cycle(after, rows) {
      CycleIsNotAcyclic(after, rows);
      var k := CycleHasALooseRow(db, account, ds, rows);
      var turned := Rotated(after, rows, k);
      assert WillClimb(db.folders, account, ds, turned);
    } else {
      NoCycleIsAcyclic(after);
    }
  }

  lemma ClimbsAsPlanned(db: Db, account: Text, ds: seq<Discovered>, rows: seq<nat>)
    requires Keyed(db.folders) && Distinct(ds) && Rooted(db.folders)
    ensures Climb(Synced(db, account, ds).folders, rows) <==> WillClimb(db.folders, account, ds, rows)
  {
    hide SyncAll, LinkAll, Synced, Link, WillLink, Rooted;
    var after := Synced(db, account, ds).folders;
    forall k | 0 <= k < |rows| - 1
      ensures Link(after, rows[k], rows[k + 1]) <==> WillLink(db.folders, account, ds, rows[k], rows[k + 1])
    {
      LinksAsPlanned(db, account, ds, rows[k], rows[k + 1]);
    }
  }

  // So a sync that leaves no row loose closes no cycle.
  lemma SyncKeepsAcyclic(db: Db, account: Text, ds: seq<Discovered>)
    requires Keyed(db.folders) && Distinct(ds) && Nested(ds) && Rooted(db.folders) && Acyclic(db.folders)
    requires forall i: nat :: !Loose(db.folders, account, ds, i)
    ensures Acyclic(Synced(db, account, ds).folders) && Tidy(Synced(db, account, ds).folders, account)
  {
    hide Loose, Acyclic, Synced, Tidy;
    SyncStaysAcyclicIff(db, account, ds);
    SyncIsTidyIff(db, account, ds);
  }

  // ---- one sync after another ----

  ghost function SyncedAll(db: Db, account: Text, lists: seq<seq<Discovered>>, n: nat): Db
    requires n <= |lists|
  {
    if n == 0 then db else Synced(SyncedAll(db, account, lists, n - 1), account, lists[n - 1])
  }

  lemma {:induction false} SyncsKeepRooted(db: Db, account: Text, lists: seq<seq<Discovered>>, n: nat)
    requires Keyed(db.folders) && Rooted(db.folders) && n <= |lists|
    requires forall ds | ds in lists :: Distinct(ds)
    ensures Keyed(SyncedAll(db, account, lists, n).folders) && Rooted(SyncedAll(db, account, lists, n).folders)
  {
    hide Synced, Keyed, Rooted, Distinct;
    if n > 0 {
      SyncsKeepRooted(db, account, lists, n - 1);
      SyncKeepsRows(SyncedAll(db, account, lists, n - 1), account, lists[n - 1]);
      SyncKeepsRooted(SyncedAll(db, account, lists, n - 1), account, lists[n - 1]);
    }
  }

  ghost predicate AcyclicThroughout(db: Db, account: Text, lists: seq<seq<Discovered>>, n: nat)
    requires n <= |lists|
  {
    forall k: nat | k <= n :: Acyclic(SyncedAll(db, account, lists, k).folders)
  }

  ghost predicate NoneClimbsBack(db: Db, account: Text, lists: seq<seq<Discovered>>, n: nat)
    requires n <= |lists|
  {
    forall k: nat | k < n :: !LooseRowClimbsBack(SyncedAll(db, account, lists, k).folders, account, lists[k])
  }

  // Over any number of syncs the folders stay acyclic throughout exactly when at none
  // of them a loose row climbs back to itself.
  lemma {:induction false} SyncsStayAcyclicIff(db: Db, account: Text, lists: seq<seq<Discovered>>, n: nat)
    requires Keyed(db.folders) && Rooted(db.folders) && Acyclic(db.folders) && n <= |lists|
    requires forall ds | ds in lists :: Distinct(ds) && Nested(ds)
    ensures AcyclicThroughout(db, account, lists, n) <==> NoneClimbsBack(db, account, lists, n)
  {
    hide Synced, Keyed, Rooted, Acyclic, Distinct, Nested, LooseRowClimbsBack;
    if n > 0 {
      var before := SyncedAll(db, account, lists, n - 1);
      SyncsStayAcyclicIff(db, account, lists, n - 1);
      SyncsKeepRooted(db, account, lists, n - 1);
      assert AcyclicThroughout(db, account, lists, n) <==>
               AcyclicThroughout(db, account, lists, n - 1) && Acyclic(SyncedAll(db, account, lists, n).folders);
      assert NoneClimbsBack(db, account, lists, n) <==>
               NoneClimbsBack(db, account, lists, n - 1)
               && !LooseRowClimbsBack(before.folders, account, lists[n - 1]);
      if Acyclic(before.folders) {
        SyncStaysAcyclicIff(before, account, lists[n - 1]);
      } else {
        assert !AcyclicThroughout(db, account, lists, n - 1);
      }
    } else {
      assert SyncedAll(db, account, lists, 0) == db;
    }
  }

  // ---- syncs that close a cycle ----

  // A deleted folder's row keeps its parent. Listed again at top level it is adopted
  // with that parent, and here the parent is then linked under it.
  lemma StaleParentClosesACycle() returns (db: Db, account: Text, ds: seq<Discovered>)
    ensures Keyed(db.folders) && Distinct(ds) && Nested(ds) && Acyclic(db.folders) && Tidy(db.folders, account)
    ensures !Acyclic(Synced(db, account, ds).folders)
  {
    account := "me";
    var child := Folder("me:x-b", "me", Some("X/B"), "B", "custom", Some('/'), None, None);
    var tomb := Folder("me:x-b-x", "me", None, "X", "custom", Some('/'), Some("me:x-b"), Some(7));
    db := Db([child, tomb], {}, {});
    var x := Discovered("X", "custom", "X", None, Some('/'));
    var xb := Discovered("X/B", "custom", "B", Some("X"), Some('/'));
    ds := [x, xb];
    assert "me:x-b" != "me:x-b-x" by {
      assert |"me:x-b"| != |"me:x-b-x"|;
    }
    UnderTheFirst(db.folders);
    assert |"X"| < |"X/B"| && "X" <= "X/B";
    StaleParentRun(db, account, x, xb);
    var after := Synced(db, account, ds).folders;
    EachUnderTheOther(after);
  }

  lemma StaleParentRun(db: Db, account: Text, x: Discovered, xb: Discovered)
    requires |db.folders| == 2 && x.parentRemoteId.None? && xb.parentRemoteId == Some(x.remoteId)
    requires IsRemote(db.folders[0], account, xb.remoteId) && xb.remoteId != x.remoteId
    requires IsPlaceholder(db.folders[1], account, x.title)
    ensures var after := Synced(db, account, [x, xb]).folders;
            |after| == 2 && after[0].id == db.folders[0].id && after[1].id == db.folders[1].id
            && after[0].parent == Some(db.folders[1].id) && after[1].parent == db.folders[1].parent
  {
    var ds := [x, xb];
    assert ds[..1] == [x] && [x][..0] == [];
    var one := SyncOne(db, account, x);
    assert SyncAll(db, account, [x]) == one;
    assert FindRemote(one.folders, account, x.remoteId) == Some(1);
    var two := SyncOne(one, account, xb);
    assert SyncAll(db, account, ds) == two;
    assert FindRemote(two.folders, account, x.remoteId) == Some(1);
    assert LinkAll(two.folders, account, [x]) == LinkOne(two.folders, account, x) == two.folders;
  }

  // The two can be two calls apart. The first LIST names the deleted folder alone: it is
  // adopted with its stale parent, no cycle yet. The second adopts nothing and adds
  // nothing, and links that parent under it.
  lemma TwoSyncsCloseACycle() returns (db: Db, account: Text, first: seq<Discovered>, second: seq<Discovered>)
    ensures Keyed(db.folders) && Tidy(db.folders, account) && Acyclic(db.folders)
    ensures Distinct(first) && Nested(first) && Distinct(second) && Nested(second)
    ensures var mid := Synced(db, account, first);
            && Acyclic(mid.folders) && !Tidy(mid.folders, account)
            && PlanOf(mid.folders, account, second) == Plan(map[], [])
            && !Acyclic(Synced(mid, account, second).folders)
  {
    account := "me";
    var parent := Folder("me:b-c", "me", Some("B/C"), "C", "custom", Some('/'), None, None);
    var tomb := Folder("me:b-c-b", "me", None, "B", "custom", Some('/'), Some("me:b-c"), Some(7));
    db := Db([parent, tomb], {}, {});
    var b := Discovered("B", "custom", "B", None, Some('/'));
    var bc := Discovered("B/C", "custom", "C", Some("B"), Some('/'));
    first, second := [b], [b, bc];
    assert |"me:b-c"| != |"me:b-c-b"| && |"B"| < |"B/C"| && "B" <= "B/C";
    UnderTheFirst(db.folders);
    var mid := Synced(db, account, first);
    AdoptsAlone(db, account, b);
    hide Synced, Acyclic, SyncOne, LinkOne;
    assert mid.folders == [parent, tomb.(remoteId := Some("B"), deletedAt := None)];
    UnderTheFirst(mid.folders);
    assert !Descends(mid.folders, account, 1, 0);
    LinksUnder(mid, account, b, bc);
    var after := Synced(mid, account, second).folders;
    EachUnderTheOther(after);
  }

  lemma EachUnderTheOther(fs: seq<Folder>)
    requires |fs| == 2 && fs[0].id != fs[1].id
    requires fs[0].parent == Some(fs[1].id) && fs[1].parent == Some(fs[0].id)
    ensures !Acyclic(fs)
  {
    assert Link(fs, 0, 1) && Link(fs, 1, 0);
    CycleIsNotAcyclic(fs, [0, 1, 0]);
  }

  // Two rows, the second under the first.
  lemma UnderTheFirst(fs: seq<Folder>)
    requires |fs| == 2 && fs[0].id != fs[1].id && fs[0].parent.None? && fs[1].parent == Some(fs[0].id)
    requires fs[0].account == fs[1].account
    ensures Link(fs, 1, 0) && Rooted(fs) && Acyclic(fs)
    ensures forall i: nat, j: nat | Link(fs, i, j) :: i == 1 && j == 0
  {
    assert Link(fs, 1, 0) && Ranked(fs, [0, 1]);
  }

  lemma AdoptsAlone(db: Db, account: Text, b: Discovered)
    requires |db.folders| == 2 && b.parentRemoteId.None? && FindRemote(db.folders, account, b.remoteId).None?
    requires !IsPlaceholder(db.folders[0], account, b.title) && IsPlaceholder(db.folders[1], account, b.title)
    ensures Synced(db, account, [b]).folders
            == [db.folders[0], db.folders[1].(remoteId := Some(b.remoteId), kind := b.kind, delimiter := b.delimiter,
                                              deletedAt := None)]
  {
    assert [b][..0] == [];
    var one := SyncOne(db, account, b);
    assert SyncAll(db, account, [b]) == one;
    assert LinkAll(one.folders, account, [b]) == LinkOne(one.folders, account, b) == one.folders;
  }

  lemma LinksUnder(db: Db, account: Text, b: Discovered, bc: Discovered)
    requires |db.folders| == 2 && b.parentRemoteId.None? && bc.parentRemoteId == Some(b.remoteId)
    requires bc.remoteId != b.remoteId
    requires IsRemote(db.folders[0], account, bc.remoteId) && IsRemote(db.folders[1], account, b.remoteId)
    ensures PlanOf(db.folders, account, [b, bc]) == Plan(map[], [])
    ensures var after := Synced(db, account, [b, bc]).folders;
            |after| == 2 && after[0].id == db.folders[0].id && after[1].id == db.folders[1].id
            && after[0].parent == Some(db.folders[1].id) && after[1].parent == db.folders[1].parent
  {
    var ds := [b, bc];
    assert ds[..1] == [b] && [b][..0] == [];
    assert FindRemote(db.folders, account, b.remoteId) == Some(1);
    assert PlanOf(db.folders, account, [b]) == Plan(map[], []);
    var one := SyncOne(db, account, b);
    assert SyncAll(db, account, [b]) == one;
    var two := SyncOne(one, account, bc);
    assert SyncAll(db, account, ds) == two;
    assert FindRemote(two.folders, account, b.remoteId) == Some(1);
    assert LinkAll(two.folders, account, [b]) == LinkOne(two.folders, account, b) == two.folders;
  }
}
