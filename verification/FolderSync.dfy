// Merging a server's LIST into the local folders (crates/core/src/remote.rs). The
// table is the sequence of its rows in row order; a query that expects one row
// takes the first. Sibling names are assumed not to clash in the schema's index.
module FolderSync {
  import opened Characters
  import opened Wrappers
  import Decimal

  type Text = string

  datatype Folder = Folder(
    id: Text, account: Text, remoteId: Option<Text>, name: Text, kind: Text, delimiter: Option<char>,
    parent: Option<Text>, deletedAt: Option<int>)

  datatype Discovered = Discovered(
    remoteId: Text, kind: Text, title: Text, parentRemoteId: Option<Text>, delimiter: Option<char>)

  // `syncing` are the (account, folder) keys of sync_state, `deleting` those of an
  // unfinished delete_folder operation.
  datatype Db = Db(folders: seq<Folder>, syncing: set<(Text, Text)>, deleting: set<(Text, Text)>)

  // ---- queries ----

  predicate IsRemote(f: Folder, account: Text, remoteId: Text) {
    f.account == account && f.remoteId == Some(remoteId)
  }

  predicate IsPlaceholder(f: Folder, account: Text, title: Text) {
    f.account == account && f.name == title && f.remoteId.None?
  }

  function FindRemote(fs: seq<Folder>, account: Text, remoteId: Text): (r: Option<nat>)
    ensures r.Some? ==> r.value < |fs| && IsRemote(fs[r.value], account, remoteId)
                        && forall i | 0 <= i < r.value :: !IsRemote(fs[i], account, remoteId)
    ensures r.None? ==> forall i | 0 <= i < |fs| :: !IsRemote(fs[i], account, remoteId)
  {
    if fs == [] then None
    else if IsRemote(fs[0], account, remoteId) then Some(0)
    else
      match FindRemote(fs[1..], account, remoteId)
      case None =>
        assert forall i | 1 <= i < |fs| :: fs[i] == fs[1..][i - 1];
        None
      case Some(i) =>
        assert forall k | 1 <= k < |fs| :: fs[k] == fs[1..][k - 1];
        Some(i + 1)
  }

  function FindPlaceholder(fs: seq<Folder>, account: Text, title: Text): (r: Option<nat>)
    ensures r.Some? ==> r.value < |fs| && IsPlaceholder(fs[r.value], account, title)
                        && forall i | 0 <= i < r.value :: !IsPlaceholder(fs[i], account, title)
    ensures r.None? ==> forall i | 0 <= i < |fs| :: !IsPlaceholder(fs[i], account, title)
  {
    if fs == [] then None
    else if IsPlaceholder(fs[0], account, title) then Some(0)
    else
      match FindPlaceholder(fs[1..], account, title)
      case None =>
        assert forall i | 1 <= i < |fs| :: fs[i] == fs[1..][i - 1];
        None
      case Some(i) =>
        assert forall k | 1 <= k < |fs| :: fs[k] == fs[1..][k - 1];
        Some(i + 1)
  }

  function Ids(fs: seq<Folder>): set<Text> {
    set f | f in fs :: f.id
  }

  // ---- a free id ----

  // The maximal runs of ASCII letters and digits, in lower case.
  function Words(s: Text): seq<Text> {
    if s == "" then []
    else
      var n := |s| - 1;
      var before := Words(s[..n]);
      if !IsAlphanumeric(s[n]) then before
      else if n > 0 && IsAlphanumeric(s[n - 1]) && before != [] then
        before[..|before| - 1] + [before[|before| - 1] + [Lower(s[n])]]
      else before + [[Lower(s[n])]]
  }

  function Joined(words: seq<Text>): Text {
    if words == [] then ""
    else if |words| == 1 then words[0]
    else Joined(words[..|words| - 1]) + "-" + words[|words| - 1]
  }

  function Slug(remoteId: Text): Text {
    if Words(remoteId) == [] then "folder" else Joined(Words(remoteId))
  }

  // remote_id_slug
  method RemoteIdSlug(remoteId: Text) returns (out: Text)
    ensures out == Slug(remoteId)
  {
    hide Words, Joined, Lower;
    NoWords();
    assert remoteId[..0] == "";
    out := "";
    var pendingDash := false;
    for i := 0 to |remoteId|
      invariant WordsNonempty(Words(remoteId[..i]))
      invariant pendingDash ==> Words(remoteId[..i]) != []
      invariant out == Joined(Words(remoteId[..i])) + if pendingDash then "-" else ""
      invariant Words(remoteId[..i]) != [] ==> (pendingDash <==> !IsAlphanumeric(remoteId[i - 1]))
    {
      var c := remoteId[i];
      JoinedNonempty(Words(remoteId[..i]));
      if IsAlphanumeric(c) {
        WordsGrow(remoteId, i);
        out := out + [Lower(c)];
        pendingDash := false;
      } else {
        WordsStay(remoteId, i);
        if out != "" && !pendingDash {
          out := out + "-";
          pendingDash := true;
        }
      }
    }
    assert remoteId[..|remoteId|] == remoteId;
    JoinedNonempty(Words(remoteId));
    while out != "" && out[|out| - 1] == '-'
      invariant out == Joined(Words(remoteId)) + if pendingDash then "-" else ""
      decreases |out|
    {
      JoinedEndsWell(Words(remoteId));
      out := out[..|out| - 1];
      pendingDash := false;
    }
    if out == "" {
      out := "folder";
    }
  }

  ghost predicate WordsNonempty(words: seq<Text>) {
    forall i | 0 <= i < |words| :: words[i] != "" && forall k | 0 <= k < |words[i]| :: words[i][k] != '-'
  }

  lemma JoinedNonempty(words: seq<Text>)
    requires WordsNonempty(words)
    ensures Joined(words) == "" <==> words == []
  {
  }

  lemma JoinedEndsWell(words: seq<Text>)
    requires WordsNonempty(words) && words != []
    ensures Joined(words) != "" && Joined(words)[|Joined(words)| - 1] != '-'
  {
    var last := words[|words| - 1];
    if |words| > 1 {
      assert Joined(words)[|Joined(words)| - 1] == last[|last| - 1];
    }
  }

  lemma WordsGrow(s: Text, i: nat)
    requires i < |s| && IsAlphanumeric(s[i]) && WordsNonempty(Words(s[..i]))
    ensures WordsNonempty(Words(s[..i + 1])) && Words(s[..i + 1]) != []
    ensures var before := Words(s[..i]);
            Joined(Words(s[..i + 1])) ==
            if before != [] && !(i > 0 && IsAlphanumeric(s[i - 1])) then Joined(before) + "-" + [Lower(s[i])]
            else Joined(before) + [Lower(s[i])]
  {
    var t := s[..i + 1];
    var before := Words(s[..i]);
    var letter := Lower(s[i]);
    assert t[..i] == s[..i] && t[i] == s[i] && (i > 0 ==> t[i - 1] == s[i - 1]);
    if i > 0 && IsAlphanumeric(s[i - 1]) && before != [] {
      LastWordGrows(before, letter);
    } else {
      NextWord(before, letter);
    }
  }

  lemma WordsStay(s: Text, i: nat)
    requires i < |s| && !IsAlphanumeric(s[i])
    ensures Words(s[..i + 1]) == Words(s[..i])
  {
    assert s[..i + 1][..i] == s[..i];
  }

  lemma NoWords()
    ensures Words("") == [] && Joined([]) == ""
  {
  }

  lemma LastWordGrows(words: seq<Text>, letter: char)
    requires WordsNonempty(words) && words != [] && letter != '-'
    ensures var n := |words| - 1;
            var grown := words[..n] + [words[n] + [letter]];
            WordsNonempty(grown) && Joined(grown) == Joined(words) + [letter]
  {
    var n := |words| - 1;
    var grown := words[..n] + [words[n] + [letter]];
    assert grown[..n] == words[..n];
    if n > 0 {
      assert Joined(words[..n]) + "-" + (words[n] + [letter]) == Joined(words[..n]) + "-" + words[n] + [letter];
    }
  }

  lemma NextWord(words: seq<Text>, letter: char)
    requires WordsNonempty(words) && letter != '-'
    ensures var more := words + [[letter]];
            WordsNonempty(more)
            && Joined(more) == if words == [] then [letter] else Joined(words) + "-" + [letter]
  {
    assert (words + [[letter]])[..|words|] == words;
  }

  function Candidate(base: Text, n: nat): Text {
    if n == 0 then base else base + "-" + Decimal.Digits(n + 1)
  }

  lemma CandidatesDiffer(base: Text, m: nat, n: nat)
    requires Candidate(base, m) == Candidate(base, n)
    ensures m == n
  {
    if m > 0 {
      assert Candidate(base, m)[|base| + 1..] == Decimal.Digits(m + 1);
      Decimal.ValueOfDigits(m + 1);
    }
    if n > 0 {
      assert Candidate(base, n)[|base| + 1..] == Decimal.Digits(n + 1);
      Decimal.ValueOfDigits(n + 1);
    }
  }

  // Pigeonhole: no more candidates can be taken than there are ids.
  lemma {:induction false} TakenBound(ids: set<Text>, base: Text, n: nat)
    requires forall k | 0 <= k < n :: Candidate(base, k) in ids
    ensures n <= |ids|
  {
    if n > 0 {
      var last := Candidate(base, n - 1);
      forall k | 0 <= k < n - 1
        ensures Candidate(base, k) in ids - {last}
      {
        if Candidate(base, k) == last {
          CandidatesDiffer(base, k, n - 1);
        }
      }
      TakenBound(ids - {last}, base, n - 1);
    }
  }

  // The first candidate from the n-th on that is free.
  ghost function FirstFree(ids: set<Text>, base: Text, n: nat): (r: Text)
    requires forall k | 0 <= k < n :: Candidate(base, k) in ids
    ensures r !in ids
    decreases |ids| - n
  {
    TakenBound(ids, base, n);
    if Candidate(base, n) !in ids then Candidate(base, n)
    else
      TakenBound(ids, base, n + 1);
      FirstFree(ids, base, n + 1)
  }

  ghost function UniqueId(ids: set<Text>, account: Text, remoteId: Text): (r: Text)
    ensures r !in ids
  {
    FirstFree(ids, account + ":" + Slug(remoteId), 0)
  }

  // unique_folder_id: the search always ends, on an id no row has.
  method UniqueFolderId(ids: set<Text>, account: Text, remoteId: Text) returns (candidate: Text)
    ensures candidate == UniqueId(ids, account, remoteId)
    ensures candidate !in ids
  {
    var slug := RemoteIdSlug(remoteId);
    var base := account + ":" + slug;
    candidate := base;
    var suffix := 2;
    while candidate in ids
      invariant suffix >= 2 && candidate == Candidate(base, suffix - 2)
      invariant forall k | 0 <= k < suffix - 2 :: Candidate(base, k) in ids
      invariant FirstFree(ids, base, 0) == FirstFree(ids, base, suffix - 2)
      decreases |ids| + 2 - suffix
    {
      TakenBound(ids, base, suffix - 1);
      candidate := base + "-" + Decimal.Digits(suffix);
      suffix := suffix + 1;
    }
  }

  // ---- one pass over the LIST, and the second ----

  function DeletedAfter(db: Db, account: Text, f: Folder): Option<int> {
    if (account, f.id) in db.deleting then f.deletedAt else None
  }

  ghost function SyncOne(db: Db, account: Text, d: Discovered): Db {
    match FindRemote(db.folders, account, d.remoteId)
    case Some(i) =>
      var f := db.folders[i];
      db.(folders := db.folders[i := f.(name := d.title, kind := d.kind, delimiter := d.delimiter,
                                       deletedAt := DeletedAfter(db, account, f))])
    case None =>
      match FindPlaceholder(db.folders, account, d.title)
      case Some(i) =>
        var f := db.folders[i];
        db.(folders := db.folders[i := f.(remoteId := Some(d.remoteId), kind := d.kind, delimiter := d.delimiter,
                                         deletedAt := None)],
            syncing := db.syncing - {(account, f.id)})
      case None =>
        var id := UniqueId(Ids(db.folders), account, d.remoteId);
        db.(folders := db.folders +
                       [Folder(id, account, Some(d.remoteId), d.title, d.kind, d.delimiter, None, None)])
  }

  ghost function SyncAll(db: Db, account: Text, ds: seq<Discovered>): Db {
    if ds == [] then db
    else SyncOne(SyncAll(db, account, ds[..|ds| - 1]), account, ds[|ds| - 1])
  }

  // The id a mailbox's parent name resolves to, if it does.
  function ParentId(fs: seq<Folder>, account: Text, d: Discovered): Option<Text> {
    if d.parentRemoteId.None? then None
    else
      match FindRemote(fs, account, d.parentRemoteId.value)
      case None => None
      case Some(j) => Some(fs[j].id)
  }

  function LinkOne(fs: seq<Folder>, account: Text, d: Discovered): seq<Folder> {
    match ParentId(fs, account, d)
    case None => fs
    case Some(parentId) =>
      match FindRemote(fs, account, d.remoteId)
      case None => fs
      case Some(i) => fs[i := fs[i].(parent := Some(parentId))]
  }

  function LinkAll(fs: seq<Folder>, account: Text, ds: seq<Discovered>): seq<Folder> {
    if ds == [] then fs
    else LinkOne(LinkAll(fs, account, ds[..|ds| - 1]), account, ds[|ds| - 1])
  }

  ghost function Synced(db: Db, account: Text, ds: seq<Discovered>): Db {
    var first := SyncAll(db, account, ds);
    first.(folders := LinkAll(first.folders, account, ds))
  }

  class Folders {
    var accounts: set<Text>
    var folders: seq<Folder>
    var syncing: set<(Text, Text)>
    const deleting: set<(Text, Text)>

    constructor (accounts: set<Text>, folders: seq<Folder>, syncing: set<(Text, Text)>,
                 deleting: set<(Text, Text)>)
      ensures this.accounts == accounts && Contents() == Db(folders, syncing, deleting)
    {
      this.accounts, this.folders, this.syncing, this.deleting := accounts, folders, syncing, deleting;
    }

    ghost function Contents(): Db
      reads this
    {
      Db(folders, syncing, deleting)
    }

    // sync_folders
    method SyncFolders(account: Text, discovered: seq<Discovered>) returns (known: bool)
      modifies `folders, `syncing
      ensures known <==> account in accounts
      ensures !known ==> Contents() == old(Contents())
      ensures known ==> Contents() == Synced(old(Contents()), account, discovered)
    {
      hide SyncOne, LinkOne;
      known := account in accounts;
      if !known {
        return;
      }
      for n := 0 to |discovered|
        invariant Contents() == SyncAll(old(Contents()), account, discovered[..n])
      {
        assert discovered[..n + 1][..n] == discovered[..n];
        SyncOneFolder(account, discovered[n]);
      }
      assert discovered[..|discovered|] == discovered;
      ghost var first := Contents();
      for n := 0 to |discovered|
        invariant Contents() == first.(folders := LinkAll(first.folders, account, discovered[..n]))
      {
        assert discovered[..n + 1][..n] == discovered[..n];
        LinkParent(account, discovered[n]);
      }
    }

    // sync_one_folder
    method SyncOneFolder(account: Text, d: Discovered)
      modifies `folders, `syncing
      ensures Contents() == SyncOne(old(Contents()), account, d)
    {
      var byRemoteId := FindRemote(folders, account, d.remoteId);
      if byRemoteId.Some? {
        var i := byRemoteId.value;
        folders := folders[i := folders[i].(name := d.title, kind := d.kind, delimiter := d.delimiter)];
        if folders[i].deletedAt.Some? && (account, folders[i].id) !in deleting {
          folders := folders[i := folders[i].(deletedAt := None)];
        }
        return;
      }
      var placeholder := FindPlaceholder(folders, account, d.title);
      if placeholder.Some? {
        var i := placeholder.value;
        folders := folders[i := folders[i].(remoteId := Some(d.remoteId), kind := d.kind, delimiter := d.delimiter,
                                            deletedAt := None)];
        syncing := syncing - {(account, folders[i].id)};
        return;
      }
      var id := UniqueFolderId(Ids(folders), account, d.remoteId);
      folders := folders + [Folder(id, account, Some(d.remoteId), d.title, d.kind, d.delimiter, None, None)];
    }

    // link_parent
    method LinkParent(account: Text, d: Discovered)
      modifies `folders
      ensures folders == LinkOne(old(folders), account, d)
    {
      if d.parentRemoteId.None? {
        return;
      }
      var parent := FindRemote(folders, account, d.parentRemoteId.value);
      if parent.None? {
        return;
      }
      var parentId := folders[parent.value].id;
      var row := FindRemote(folders, account, d.remoteId);
      if row.Some? {
        folders := folders[row.value := folders[row.value].(parent := Some(parentId))];
      }
    }
  }

  // ---- what a sync keeps ----

  // The schema's two keys: the id, and the remote id within an account.
  ghost predicate Keyed(fs: seq<Folder>) {
    forall i, j | 0 <= i < |fs| && 0 <= j < |fs| ::
      (|| fs[i].id == fs[j].id
       || (fs[i].account == fs[j].account && fs[i].remoteId.Some? && fs[i].remoteId == fs[j].remoteId))
      ==> i == j
  }

  // Rows stay where they are, keep their id, their account and any remote id, rows of
  // other accounts keep everything, and a row whose deletion is under way stays hidden.
  ghost predicate Keeps(db: Db, after: Db, account: Text) {
    var fs, gs := db.folders, after.folders;
    after.deleting == db.deleting &&
    |fs| <= |gs| && forall i | 0 <= i < |fs| ::
      gs[i].id == fs[i].id && gs[i].account == fs[i].account
      && (fs[i].remoteId.Some? ==> gs[i].remoteId == fs[i].remoteId)
      && (fs[i].account != account ==> gs[i] == fs[i])
      && (fs[i].remoteId.Some? && (account, fs[i].id) in db.deleting ==> gs[i].deletedAt == fs[i].deletedAt)
  }

  ghost predicate Distinct(ds: seq<Discovered>) {
    forall i, j | 0 <= i < j < |ds| :: ds[i].remoteId != ds[j].remoteId
  }

  // Row i shows the mailbox as the server lists it; only an unfinished deletion
  // may keep it hidden.
  ghost predicate Shows(db: Db, i: nat, account: Text, d: Discovered) {
    i < |db.folders|
    && var f := db.folders[i];
       IsRemote(f, account, d.remoteId) && f.name == d.title && f.kind == d.kind && f.delimiter == d.delimiter
       && (f.deletedAt.None? || (account, f.id) in db.deleting)
  }

  ghost predicate Listed(db: Db, account: Text, d: Discovered) {
    exists i: nat :: Shows(db, i, account, d)
  }

  lemma FindsTheRow(fs: seq<Folder>, account: Text, remoteId: Text, i: nat)
    requires Keyed(fs) && i < |fs| && IsRemote(fs[i], account, remoteId)
    ensures FindRemote(fs, account, remoteId) == Some(i)
  {
  }

  lemma SyncOneKeyed(db: Db, account: Text, d: Discovered)
    requires Keyed(db.folders)
    ensures Keyed(SyncOne(db, account, d).folders)
  {
    hide UniqueId;
    var id := UniqueId(Ids(db.folders), account, d.remoteId);
    forall i | 0 <= i < |db.folders|
      ensures db.folders[i].id != id
    {
      assert db.folders[i].id in Ids(db.folders);
    }
  }

  lemma SyncOneKeeps(db: Db, account: Text, d: Discovered)
    requires Keyed(db.folders)
    ensures var after := SyncOne(db, account, d);
            Keyed(after.folders) && Keeps(db, after, account) && Listed(after, account, d)
            && (forall i | 0 <= i < |db.folders| :: after.folders[i].parent == db.folders[i].parent)
            && (forall i | |db.folders| <= i < |after.folders| ::
                  after.folders[i].parent.None? && after.folders[i].remoteId.Some?)
  {
    hide UniqueId, Keyed;
    SyncOneKeyed(db, account, d);
    var found := FindRemote(db.folders, account, d.remoteId);
    var placeholder := FindPlaceholder(db.folders, account, d.title);
    var row := if found.Some? then found.value else if placeholder.Some? then placeholder.value else |db.folders|;
    assert Shows(SyncOne(db, account, d), row, account, d);
  }

  // A row of another mailbox is left alone.
  lemma SyncOneSpares(db: Db, account: Text, d: Discovered, e: Discovered)
    requires Keyed(db.folders) && Listed(db, account, e) && e.remoteId != d.remoteId
    ensures Listed(SyncOne(db, account, d), account, e)
  {
    var i: nat :| Shows(db, i, account, e);
    assert Shows(SyncOne(db, account, d), i, account, e);
  }

  lemma {:induction false} SyncAllKeeps(db: Db, account: Text, ds: seq<Discovered>)
    requires Keyed(db.folders)
    ensures var after := SyncAll(db, account, ds);
            Keyed(after.folders) && Keeps(db, after, account)
            && (forall i | 0 <= i < |db.folders| :: after.folders[i].parent == db.folders[i].parent)
            && (forall i | |db.folders| <= i < |after.folders| ::
                  after.folders[i].parent.None? && after.folders[i].remoteId.Some?)
  {
    hide SyncOne;
    if ds != [] {
      SyncAllKeeps(db, account, ds[..|ds| - 1]);
      SyncOneKeeps(SyncAll(db, account, ds[..|ds| - 1]), account, ds[|ds| - 1]);
    }
  }

  lemma {:induction false} SyncAllLists(db: Db, account: Text, ds: seq<Discovered>)
    requires Keyed(db.folders) && Distinct(ds)
    ensures forall d | d in ds :: Listed(SyncAll(db, account, ds), account, d)
  {
    hide SyncOne, Listed;
    if ds != [] {
      var n := |ds| - 1;
      var before := SyncAll(db, account, ds[..n]);
      SyncAllKeeps(db, account, ds[..n]);
      SyncAllLists(db, account, ds[..n]);
      SyncOneKeeps(before, account, ds[n]);
      forall d | d in ds
        ensures Listed(SyncAll(db, account, ds), account, d)
      {
        if d != ds[n] {
          assert d in ds[..n];
          SyncOneSpares(before, account, ds[n], d);
        }
      }
    }
  }

  // ---- the second pass writes parents and nothing else ----

  ghost predicate SameButParents(fs: seq<Folder>, gs: seq<Folder>) {
    |fs| == |gs| && forall i | 0 <= i < |fs| :: gs[i] == fs[i].(parent := gs[i].parent)
  }

  lemma SameRows(fs: seq<Folder>, gs: seq<Folder>, account: Text, remoteId: Text)
    requires SameButParents(fs, gs)
    ensures FindRemote(gs, account, remoteId) == FindRemote(fs, account, remoteId)
  {
  }

  // Row i is the one the LIST names as d, and d's parent can be found.
  ghost predicate Relinked(fs: seq<Folder>, account: Text, ds: seq<Discovered>, i: nat) {
    exists d | d in ds :: FindRemote(fs, account, d.remoteId) == Some(i) && ParentId(fs, account, d).Some?
  }

  lemma SameParentId(fs: seq<Folder>, gs: seq<Folder>, account: Text, d: Discovered)
    requires SameButParents(fs, gs)
    ensures ParentId(gs, account, d) == ParentId(fs, account, d)
  {
    if d.parentRemoteId.Some? {
      SameRows(fs, gs, account, d.parentRemoteId.value);
    }
  }

  lemma {:induction false} LinkAllKeeps(fs: seq<Folder>, account: Text, ds: seq<Discovered>)
    ensures SameButParents(fs, LinkAll(fs, account, ds))
  {
    hide FindRemote, ParentId;
    if ds != [] {
      LinkAllKeeps(fs, account, ds[..|ds| - 1]);
    }
  }

  lemma {:induction false} LinkAllSpares(fs: seq<Folder>, account: Text, ds: seq<Discovered>, i: nat)
    requires i < |fs| && !Relinked(fs, account, ds, i)
    ensures SameButParents(fs, LinkAll(fs, account, ds)) && LinkAll(fs, account, ds)[i] == fs[i]
  {
    hide FindRemote, ParentId;
    LinkAllKeeps(fs, account, ds);
    if ds != [] {
      var n := |ds| - 1;
      var gs := LinkAll(fs, account, ds[..n]);
      LinkAllKeeps(fs, account, ds[..n]);
      LinkAllSpares(fs, account, ds[..n], i);
      SameParentId(fs, gs, account, ds[n]);
      SameRows(fs, gs, account, ds[n].remoteId);
      assert ds[n] in ds;
    }
  }

  lemma {:induction false} LinkAllLinks(fs: seq<Folder>, account: Text, ds: seq<Discovered>, d: Discovered, i: nat)
    requires Distinct(ds) && d in ds && FindRemote(fs, account, d.remoteId) == Some(i)
    requires ParentId(fs, account, d).Some?
    ensures SameButParents(fs, LinkAll(fs, account, ds))
    ensures i < |fs| && LinkAll(fs, account, ds)[i].parent == ParentId(fs, account, d)
  {
    hide FindRemote, ParentId;
    var n := |ds| - 1;
    var gs := LinkAll(fs, account, ds[..n]);
    LinkAllKeeps(fs, account, ds);
    LinkAllKeeps(fs, account, ds[..n]);
    SameParentId(fs, gs, account, ds[n]);
    SameRows(fs, gs, account, ds[n].remoteId);
    if d != ds[n] {
      assert d in ds[..n];
      LinkAllLinks(fs, account, ds[..n], d, i);
      assert d.remoteId != ds[n].remoteId;
    }
  }

  // ---- the theorems ----

  // Nothing is lost, renumbered or moved to another account, whatever is listed.
  lemma SyncKeepsRows(db: Db, account: Text, ds: seq<Discovered>)
    requires Keyed(db.folders)
    ensures var after := Synced(db, account, ds);
            Keyed(after.folders) && Keeps(db, after, account)
  {
    SyncAllKeeps(db, account, ds);
    var first := SyncAll(db, account, ds);
    LinkAllKeeps(first.folders, account, ds);
    forall i: nat | i < |first.folders| && first.folders[i].account != account
      ensures LinkAll(first.folders, account, ds)[i] == first.folders[i]
    {
      LinkAllSpares(first.folders, account, ds, i);
    }
  }

  // Every listed mailbox has exactly one row, and that row shows it as listed.
  lemma SyncListsEachMailboxOnce(db: Db, account: Text, ds: seq<Discovered>, d: Discovered) returns (i: nat)
    requires Keyed(db.folders) && Distinct(ds) && d in ds
    ensures var after := Synced(db, account, ds);
            Shows(after, i, account, d)
            && forall j | 0 <= j < |after.folders| && IsRemote(after.folders[j], account, d.remoteId) :: j == i
  {
    SyncKeepsRows(db, account, ds);
    SyncAllLists(db, account, ds);
    var first := SyncAll(db, account, ds);
    SyncAllKeeps(db, account, ds);
    LinkAllKeeps(first.folders, account, ds);
    i :| Shows(first, i, account, d);
    FindsTheRow(Synced(db, account, ds).folders, account, d.remoteId, i);
  }

  lemma {:induction false} SyncAllSpares(db: Db, account: Text, ds: seq<Discovered>, i: nat)
    requires i < |SyncAll(db, account, ds).folders|
    requires forall d | d in ds :: !IsRemote(SyncAll(db, account, ds).folders[i], account, d.remoteId)
    ensures i < |db.folders| && SyncAll(db, account, ds).folders[i] == db.folders[i]
  {
    if ds != [] {
      var n := |ds| - 1;
      var before := SyncAll(db, account, ds[..n]);
      var after := SyncOne(before, account, ds[n]);
      assert ds[n] in ds;
      assert i < |before.folders| && after.folders[i] == before.folders[i];
      SyncAllSpares(db, account, ds[..n], i);
    }
  }

  // Any row that shows no listed mailbox was there before and is exactly as it was:
  // a vanished mailbox keeps its row, and no other row is ever added.
  lemma SyncSparesTheRest(db: Db, account: Text, ds: seq<Discovered>, i: nat)
    requires Keyed(db.folders) && i < |Synced(db, account, ds).folders|
    requires forall d | d in ds :: !IsRemote(Synced(db, account, ds).folders[i], account, d.remoteId)
    ensures i < |db.folders| && Synced(db, account, ds).folders[i] == db.folders[i]
  {
    var first := SyncAll(db, account, ds);
    LinkAllKeeps(first.folders, account, ds);
    assert forall d | d in ds :: FindRemote(first.folders, account, d.remoteId) != Some(i);
    LinkAllSpares(first.folders, account, ds, i);
    SyncAllSpares(db, account, ds, i);
  }

  // Row i was a placeholder and has become a server folder.
  ghost predicate Adopted(db: Db, after: Db, i: nat) {
    i < |db.folders| && i < |after.folders| && db.folders[i].remoteId.None? && after.folders[i].remoteId.Some?
  }

  ghost predicate Forgotten(db: Db, after: Db, account: Text, key: (Text, Text)) {
    exists i: nat :: Adopted(db, after, i) && key == (account, db.folders[i].id)
  }

  lemma {:induction false} SyncAllDropsState(db: Db, account: Text, ds: seq<Discovered>, key: (Text, Text))
    requires Keyed(db.folders)
    ensures var after := SyncAll(db, account, ds);
            key in after.syncing <==> key in db.syncing && !Forgotten(db, after, account, key)
  {
    if ds != [] {
      var n := |ds| - 1;
      var before := SyncAll(db, account, ds[..n]);
      SyncAllDropsState(db, account, ds[..n], key);
      SyncAllKeeps(db, account, ds[..n]);
      StepDropsState(db, before, account, ds[n], key);
    }
  }

  lemma StepDropsState(db: Db, before: Db, account: Text, d: Discovered, key: (Text, Text))
    requires Keyed(before.folders) && Keeps(db, before, account)
    requires forall i | |db.folders| <= i < |before.folders| :: before.folders[i].remoteId.Some?
    requires key in before.syncing <==> key in db.syncing && !Forgotten(db, before, account, key)
    ensures var after := SyncOne(before, account, d);
            key in after.syncing <==> key in db.syncing && !Forgotten(db, after, account, key)
  {
    hide UniqueId;
    var after := SyncOne(before, account, d);
    var placeholder := FindPlaceholder(before.folders, account, d.title);
    if FindRemote(before.folders, account, d.remoteId).None? && placeholder.Some? {
      var p := placeholder.value;
      assert Adopted(db, after, p);
      assert forall i: nat :: Adopted(db, after, i) <==> Adopted(db, before, i) || i == p;
    } else {
      assert forall i: nat :: Adopted(db, after, i) <==> Adopted(db, before, i);
    }
  }

  // Sync state is dropped for the adopted placeholders and for nothing else.
  lemma AdoptionDropsSyncState(db: Db, account: Text, ds: seq<Discovered>, key: (Text, Text))
    requires Keyed(db.folders)
    ensures var after := Synced(db, account, ds);
            key in after.syncing <==> key in db.syncing && !Forgotten(db, after, account, key)
  {
    var first := SyncAll(db, account, ds);
    SyncAllDropsState(db, account, ds, key);
    LinkAllKeeps(first.folders, account, ds);
    assert forall i: nat :: Adopted(db, first, i) <==> Adopted(db, Synced(db, account, ds), i);
  }

  // Where a listed mailbox's row ends up: under the row of its parent wherever that
  // sits in the LIST, and otherwise wherever the row was before.
  lemma SyncLinksParents(db: Db, account: Text, ds: seq<Discovered>, d: Discovered, i: nat)
    requires Keyed(db.folders) && Distinct(ds) && d in ds && Shows(Synced(db, account, ds), i, account, d)
    ensures var after := Synced(db, account, ds).folders;
            var wanted := ParentId(after, account, d);
            after[i].parent == if wanted.Some? then wanted
                               else if i < |db.folders| then db.folders[i].parent else None
  {
    var first := SyncAll(db, account, ds);
    SyncAllKeeps(db, account, ds);
    LinkAllKeeps(first.folders, account, ds);
    SameParentId(first.folders, LinkAll(first.folders, account, ds), account, d);
    FindsTheRow(first.folders, account, d.remoteId, i);
    if ParentId(first.folders, account, d).Some? {
      LinkAllLinks(first.folders, account, ds, d, i);
    } else {
      forall e | e in ds && FindRemote(first.folders, account, e.remoteId) == Some(i)
        ensures ParentId(first.folders, account, e).None?
      {
        assert e.remoteId == d.remoteId;
      }
      LinkAllSpares(first.folders, account, ds, i);
    }
  }

  // The LIST names this mailbox's parent, or a row of the account already does.
  ghost predicate ParentKnown(fs: seq<Folder>, account: Text, ds: seq<Discovered>, d: Discovered) {
    && d.parentRemoteId.Some?
    && ((exists e :: e in ds && Some(e.remoteId) == d.parentRemoteId)
        || FindRemote(fs, account, d.parentRemoteId.value).Some?)
  }

  // Whether a parent is found can be told before the call.
  lemma ParentFoundIff(db: Db, account: Text, ds: seq<Discovered>, d: Discovered)
    requires Keyed(db.folders) && Distinct(ds)
    ensures ParentId(Synced(db, account, ds).folders, account, d).Some? <==> ParentKnown(db.folders, account, ds, d)
  {
    hide SyncAll, LinkAll, Synced;
    if d.parentRemoteId.Some? {
      var name, after := d.parentRemoteId.value, Synced(db, account, ds).folders;
      SyncKeepsRows(db, account, ds);
      if e :| e in ds && e.remoteId == name {
        var row := SyncListsEachMailboxOnce(db, account, ds, e);
      } else {
        var found := FindRemote(after, account, name);
        if found.Some? {
          SyncSparesTheRest(db, account, ds, found.value);
        }
      }
    }
  }

  // ---- syncing the same LIST again changes nothing ----

  lemma {:induction false} SyncAllSettled(db: Db, account: Text, ds: seq<Discovered>)
    requires Keyed(db.folders) && forall d | d in ds :: Listed(db, account, d)
    ensures SyncAll(db, account, ds) == db
  {
    if ds != [] {
      var n := |ds| - 1;
      SyncAllSettled(db, account, ds[..n]);
      assert ds[n] in ds;
      var i: nat :| Shows(db, i, account, ds[n]);
      FindsTheRow(db.folders, account, ds[n].remoteId, i);
      assert db.folders[i := db.folders[i]] == db.folders;
    }
  }

  lemma {:induction false} LinkAllSettled(fs: seq<Folder>, account: Text, ds: seq<Discovered>)
    requires forall d | d in ds && ParentId(fs, account, d).Some? && FindRemote(fs, account, d.remoteId).Some? ::
               fs[FindRemote(fs, account, d.remoteId).value].parent == ParentId(fs, account, d)
    ensures LinkAll(fs, account, ds) == fs
  {
    if ds != [] {
      var n := |ds| - 1;
      LinkAllSettled(fs, account, ds[..n]);
      assert ds[n] in ds;
      var row := FindRemote(fs, account, ds[n].remoteId);
      if row.Some? {
        assert fs[row.value := fs[row.value]] == fs;
      }
    }
  }

  lemma SyncIdempotent(db: Db, account: Text, ds: seq<Discovered>)
    requires Keyed(db.folders) && Distinct(ds)
    ensures Synced(Synced(db, account, ds), account, ds) == Synced(db, account, ds)
  {
    hide SyncAll, LinkAll;
    var after := Synced(db, account, ds);
    SyncKeepsRows(db, account, ds);
    forall d | d in ds
      ensures Listed(after, account, d)
      ensures FindRemote(after.folders, account, d.remoteId).Some?
      ensures ParentId(after.folders, account, d).Some? ==>
                after.folders[FindRemote(after.folders, account, d.remoteId).value].parent
                == ParentId(after.folders, account, d)
    {
      var i := SyncListsEachMailboxOnce(db, account, ds, d);
      FindsTheRow(after.folders, account, d.remoteId, i);
      SyncLinksParents(db, account, ds, d, i);
    }
    SyncAllSettled(after, account, ds);
    LinkAllSettled(after.folders, account, ds);
  }
}
