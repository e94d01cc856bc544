// The settings table and the handles that share it (crates/core/src/settings.rs), and
// the writer that batches patches (crates/app/src/settings_writer.rs).
module SettingsStore {
  import opened Wrappers
  import opened SettingsCodec
  import Decimal
  import Ordering

  datatype Key =
    | MarkRead | ConfirmDelete | Theme | Density | UiScalePercent | NotifyMail | NotifySound
    | MutedNotificationAccounts | BlockPixels | BlockRemote | AllowedImageDomains | ConfirmLinks | PreferPlain
    | ReduceMotion | DefaultAccount | DefaultFolder | LastAccount | LastUnified | CacheLimitBytes
    | AttachmentCacheLimitBytes | McpEnabled | LaunchOnStartup | SidebarWidth | ListWidth

  datatype Kind =
    | Flag
    | Choice(names: seq<string>)
    | Scale
    | CacheLimit
    | Width(usual: int, least: int, most: int)
    | Owner
    | Place
    | Muted
    | Domains

  datatype Value =
    On(on: bool) | Named(name: string) | Number(n: int) | Id(id: Option<string>) | Names(ids: seq<string>)

  const TWO_GIB := 2_147_483_648
  const TWO31 := 2_147_483_648
  const TWO64 := 18_446_744_073_709_551_616
  const SETTINGS_AUTOSAVE_MS := 750

  function KindOf(key: Key): Kind {
    match key
    case MarkRead => Choice(["immediate", "delay", "manual"])
    case Theme => Choice(["light", "dark", "system"])
    case Density => Choice(["comfortable", "compact"])
    case UiScalePercent => Scale
    case MutedNotificationAccounts => Muted
    case AllowedImageDomains => Domains
    case DefaultAccount => Owner
    case LastAccount => Owner
    case DefaultFolder => Place
    case CacheLimitBytes => CacheLimit
    case AttachmentCacheLimitBytes => CacheLimit
    case SidebarWidth => Width(300, 200, 640)
    case ListWidth => Width(440, 360, 900)
    case _ => Flag
  }

  // A value of the field's type.
  predicate Fits(kind: Kind, v: Value) {
    match kind
    case Flag => v.On?
    case Choice(names) => v.Named? && v.name in names
    case Scale => v.Number? && 0 <= v.n < 256
    case CacheLimit => v.Number? && 0 <= v.n < TWO64
    case Width(_, _, _) => v.Number? && -TWO31 <= v.n < TWO31
    case Owner => v.Id?
    case Place => v.Id? && v.id.Some?
    case Muted => v.Names?
    case Domains => v.Names?
  }

  function Default(key: Key): Value {
    match key
    case MarkRead => Named("immediate")
    case Theme => Named("light")
    case Density => Named("comfortable")
    case UiScalePercent => Number(100)
    case NotifySound => On(false)
    case PreferPlain => On(false)
    case ReduceMotion => On(false)
    case LastUnified => On(false)
    case McpEnabled => On(false)
    case LaunchOnStartup => On(false)
    case MutedNotificationAccounts => Names([])
    case AllowedImageDomains => Names([])
    case DefaultAccount => Id(None)
    case LastAccount => Id(None)
    case DefaultFolder => Id(Some("inbox"))
    case CacheLimitBytes => Number(TWO_GIB)
    case AttachmentCacheLimitBytes => Number(TWO_GIB)
    case SidebarWidth => Number(300)
    case ListWidth => Number(440)
    case _ => On(true)
  }

  function Between(n: int, least: int, most: int): int {
    if n < least then least else if n > most then most else n
  }

  // One field of Settings::clamp.
  function Clamp(kind: Kind, v: Value): (r: Value)
    requires Fits(kind, v)
  {
    match kind
    case Scale => Number(Between(v.n, 100, 200))
    case CacheLimit => if v.n == 0 then Number(TWO_GIB) else v
    case Width(usual, least, most) => Number(Between(if v.n == 0 then usual else v.n, least, most))
    case Place => if v.id == Some("") then Id(Some("inbox")) else v
    case Domains => Names(NormalizedDomains(v.ids))
    case _ => v
  }

  // One row of pairs_of.
  function Encode(kind: Kind, v: Value): string
    requires Fits(kind, v)
  {
    match kind
    case Flag => if v.on then "true" else "false"
    case Choice(_) => v.name
    case Scale => Decimal.Render(v.n)
    case CacheLimit => Decimal.Render(v.n)
    case Width(_, _, _) => Decimal.Render(v.n)
    case Owner => if v.id.None? then "" else v.id.value
    case Place => v.id.value
    case Muted => Join(v.ids)
    case Domains => Join(v.ids)
  }

  function NumberOr(was: Value, n: Option<int>): Value {
    if n.None? then was else Number(n.value)
  }

  // One arm of apply_key: what cannot be read leaves the old value.
  function Apply(kind: Kind, was: Value, text: string): (r: Value)
    requires Fits(kind, was)
    ensures Fits(kind, r)
  {
    match kind
    case Flag =>
      if text == "true" || text == "1" then On(true)
      else if text == "false" || text == "0" then On(false)
      else was
    case Choice(names) => if text in names then Named(text) else was
    case Scale => NumberOr(was, ParseInt(text, 0, 255))
    case CacheLimit => NumberOr(was, ParseInt(text, 0, TWO64 - 1))
    case Width(_, _, _) => NumberOr(was, ParseInt(text, -TWO31, TWO31 - 1))
    case Owner => if text == "" then Id(None) else Id(Some(text))
    case Place => if text == "" then was else Id(Some(text))
    case Muted => Names(NonEmpty(Lines(text)))
    case Domains => Names(Lines(text))
  }

  // What a value must be like to survive its own row.
  predicate Lasting(kind: Kind, v: Value)
    requires Fits(kind, v)
  {
    match kind
    case Owner => v.id != Some("")
    case Muted => forall i: nat | i < |v.ids| :: Survives(v.ids, i)
    case _ => true
  }

  ghost predicate Sane(kind: Kind) {
    kind.Width? ==> -TWO31 <= kind.least <= kind.most < TWO31 && kind.least <= kind.usual <= kind.most && kind.least > 0
  }

  lemma KindsAreSane(key: Key)
    ensures Sane(KindOf(key)) && Fits(KindOf(key), Default(key))
  {
  }

  // Clamping twice is clamping once, and keeps the type.
  lemma ClampIdempotent(kind: Kind, v: Value)
    requires Sane(kind) && Fits(kind, v)
    ensures Fits(kind, Clamp(kind, v)) && Clamp(kind, Clamp(kind, v)) == Clamp(kind, v)
  {
    hide NormalizedDomains;
    if kind.Domains? {
      NormalizedIsFixed(v.ids);
    }
  }

  // A clamped value reads back from its row, whatever was there, exactly when it is
  // lasting: no empty account id, and no muted id that a line break cuts.
  lemma ReadsBackIff(kind: Kind, was: Value, v: Value)
    requires Sane(kind) && Fits(kind, was) && Fits(kind, v) && Clamp(kind, v) == v
    ensures Apply(kind, was, Encode(kind, v)) == v <==> Lasting(kind, v)
  {
    hide NormalizedDomains, Lines, NonEmpty, Join, Survives, ParseInt, Decimal.Render;
    match kind
    case Scale => NumberReadsBack(v.n, 0, 255);
    case CacheLimit => NumberReadsBack(v.n, 0, TWO64 - 1);
    case Width(_, _, _) => NumberReadsBack(v.n, -TWO31, TWO31 - 1);
    case Muted => NamesReadBackIff(v.ids);
    case Domains =>
      NormalizedIsFixed(v.ids);
      HostsReadBack(v.ids);
    case _ =>
  }

  // ---- a handle and the table ----

  type Settings = map<Key, Value>

  // Rows under names that are no key of this version are neither read nor written.
  type Table = map<Key, string>

  ghost predicate Typed(s: Settings) {
    forall k: Key :: k in s && Fits(KindOf(k), s[k])
  }

  ghost predicate Clamped(s: Settings) {
    Typed(s) && forall k: Key :: Clamp(KindOf(k), s[k]) == s[k]
  }

  ghost predicate AllLasting(s: Settings)
    requires Typed(s)
  {
    forall k: Key :: Lasting(KindOf(k), s[k])
  }

  function Defaults(): (s: Settings)
    ensures Typed(s) && forall k: Key :: s[k] == Default(k)
  {
    map k: Key | true :: Default(k)
  }

  function ClampAll(s: Settings): (r: Settings)
    requires Typed(s)
    ensures Clamped(r)
  {
    assert forall k: Key :: Sane(KindOf(k));
    var r := map k: Key | true :: Clamp(KindOf(k), s[k]);
    assert forall k: Key :: Fits(KindOf(k), r[k]) && Clamp(KindOf(k), r[k]) == r[k] by { ClampedAll(s, r); }
    r
  }

  lemma ClampedAll(s: Settings, r: Settings)
    requires Typed(s) && forall k: Key :: k in r && r[k] == Clamp(KindOf(k), s[k])
    ensures forall k: Key :: Fits(KindOf(k), r[k]) && Clamp(KindOf(k), r[k]) == r[k]
  {
    hide Clamp, Fits;
    forall k: Key
      ensures Fits(KindOf(k), r[k]) && Clamp(KindOf(k), r[k]) == r[k]
    {
      KindsAreSane(k);
      ClampIdempotent(KindOf(k), s[k]);
    }
  }

  // What a handle reads out of the table.
  function Read(table: Table, k: Key): (v: Value)
    ensures Fits(KindOf(k), v)
  {
    if k in table then Apply(KindOf(k), Default(k), table[k]) else Default(k)
  }

  function Loaded(table: Table): (s: Settings)
    ensures Clamped(s)
  {
    ClampAll(map k: Key | true :: Read(table, k))
  }

  function PairsOf(s: Settings): (pairs: Table)
    requires Typed(s)
  {
    map k: Key | true :: Encode(KindOf(k), s[k])
  }

  // changed_pairs: the keys that drifted from what the table is believed to hold.
  function ChangedPairs(pairs: Table, persisted: Table): Table {
    map k: Key | k in pairs && (k !in persisted || persisted[k] != pairs[k]) :: pairs[k]
  }

  // The rows of a table, in whatever order the query gives them.
  ghost predicate RowsOf(rows: seq<(Key, string)>, table: Table) {
    && (forall i, j | 0 <= i < j < |rows| :: rows[i].0 != rows[j].0)
    && (forall k: Key :: k in table <==> exists i :: 0 <= i < |rows| && rows[i].0 == k)
    && (forall i | 0 <= i < |rows| :: rows[i].0 in table && table[rows[i].0] == rows[i].1)
  }

  class SettingsTable {
    var rows: Table

    constructor (rows: Table)
      ensures this.rows == rows
    {
      this.rows := rows;
    }
  }

  class Store {
    var settings: Settings
    var dirtySince: Option<nat>
    var persisted: Table

    ghost predicate Valid()
      reads this
    {
      Clamped(settings)
    }

    // load
    constructor Load(rows: seq<(Key, string)>, ghost table: Table)
      requires RowsOf(rows, table)
      ensures Valid() && settings == Loaded(table) && dirtySince == None && persisted == PairsOf(Loaded(table))
    {
      var read := ApplyRows(rows, table);
      settings := ClampAll(read);
      dirtySince := None;
      persisted := PairsOf(ClampAll(read));
    }

    // Its loop over the rows.
    static method ApplyRows(rows: seq<(Key, string)>, ghost table: Table) returns (read: Settings)
      requires RowsOf(rows, table)
      ensures Typed(read) && read == map k: Key | true :: Read(table, k)
    {
      hide Apply, Fits, Default;
      read := Defaults();
      for i := 0 to |rows|
        invariant Typed(read)
        invariant forall k: Key :: k in read && read[k] ==
                    if exists j :: 0 <= j < i && rows[j].0 == k then Read(table, k) else Default(k)
      {
        var key, value := rows[i].0, rows[i].1;
        read := read[key := Apply(KindOf(key), read[key], value)];
      }
    }

    // patch; `next` is what the closure makes of the settings
    method Patch(now: nat, next: Settings)
      requires Valid() && Typed(next)
      modifies `settings, `dirtySince
      ensures Valid() && settings == ClampAll(next)
      ensures dirtySince == if old(dirtySince).None? then Some(now) else old(dirtySince)
    {
      settings := ClampAll(next);
      if dirtySince.None? {
        dirtySince := Some(now);
      }
    }

    // flush; `commits` is whether the transaction goes through
    method Flush(table: SettingsTable, commits: bool) returns (ok: bool)
      requires Valid()
      modifies `dirtySince, `persisted, table
      ensures Valid()
      ensures var changed := ChangedPairs(PairsOf(settings), old(persisted));
              ok <==> changed == map[] || commits
      ensures if ok then
                table.rows == old(table.rows) + ChangedPairs(PairsOf(settings), old(persisted))
                && dirtySince == None
                && ChangedPairs(PairsOf(settings), persisted) == map[]
              else table.rows == old(table.rows) && dirtySince == old(dirtySince) && persisted == old(persisted)
    {
      hide Encode, Fits, Clamp;
      var pairs := PairsOf(settings);
      var changed := ChangedPairs(pairs, persisted);
      if changed == map[] {
        dirtySince := None;
        return true;
      }
      if !commits {
        return false;
      }
      table.rows := table.rows + changed;
      persisted := pairs;
      dirtySince := None;
      assert ChangedPairs(pairs, pairs) == map[];
      return true;
    }

    // maybe_flush
    method MaybeFlush(table: SettingsTable, now: nat, commits: bool) returns (ok: bool, wrote: bool)
      requires Valid()
      modifies `dirtySince, `persisted, table
      ensures Valid()
      ensures old(dirtySince).None? || now < old(dirtySince).value + 750 ==>
                ok && !wrote && table.rows == old(table.rows)
                && dirtySince == old(dirtySince) && persisted == old(persisted)
      ensures old(dirtySince).Some? && now >= old(dirtySince).value + 750 ==>
                ok == wrote
                && if ok then table.rows == old(table.rows) + ChangedPairs(PairsOf(settings), old(persisted))
                              && dirtySince == None
                   else table.rows == old(table.rows) && dirtySince == old(dirtySince) && persisted == old(persisted)
    {
      if dirtySince.None? {
        return true, false;
      }
      var since := dirtySince.value;
      var waited := if now > since then now - since else 0;
      if waited < SETTINGS_AUTOSAVE_MS {
        return true, false;
      }
      ok := Flush(table, commits);
      wrote := ok;
    }
  }

  // ---- the writer ----

  // Settings after a batch of patches, each clamped before the next.
  ghost function PatchAll(s: Settings, batch: seq<Settings -> Settings>): (r: Settings)
    requires Clamped(s) && Patches(batch)
    ensures Clamped(r)
  {
    if batch == [] then s else ClampAll(batch[|batch| - 1](PatchAll(s, batch[..|batch| - 1])))
  }

  // A patch cannot leave the types of the fields.
  ghost predicate Patches(batch: seq<Settings -> Settings>) {
    forall i, s | 0 <= i < |batch| && Typed(s) :: Typed(batch[i](s))
  }

  const FLUSH_ATTEMPTS := 3

  // apply_to: every patch in order, then one flush, tried again a bounded number of
  // times. `commits[n]` is whether the transaction of attempt n goes through.
  method ApplyTo(store: Store, table: SettingsTable, now: nat, batch: seq<Settings -> Settings>, commits: seq<bool>)
    returns (ok: bool)
    requires store.Valid() && Patches(batch) && |commits| == 3
    modifies store, table
    ensures store.Valid() && store.settings == PatchAll(old(store.settings), batch)
    ensures var changed := ChangedPairs(PairsOf(store.settings), old(store.persisted));
            && (ok <==> changed == map[] || true in commits)
            && (ok ==> table.rows == old(table.rows) + changed && store.dirtySince == None)
            && (!ok ==> table.rows == old(table.rows) && store.persisted == old(store.persisted)
                        && (batch != [] ==> store.dirtySince.Some?))
  {
    hide PairsOf, ChangedPairs, ClampAll, Typed;
    for i := 0 to |batch|
      invariant store.Valid() && store.settings == PatchAll(old(store.settings), batch[..i])
      invariant table.rows == old(table.rows) && store.persisted == old(store.persisted)
      invariant i > 0 ==> store.dirtySince.Some?
    {
      assert batch[..i + 1][..i] == batch[..i];
      store.Patch(now, batch[i](store.settings));
    }
    assert batch[..|batch|] == batch;
    ok := false;
    for attempt := 0 to FLUSH_ATTEMPTS
      invariant store.Valid() && store.settings == PatchAll(old(store.settings), batch)
      invariant table.rows == old(table.rows) && store.persisted == old(store.persisted)
      invariant batch != [] ==> store.dirtySince.Some?
      invariant !ok && true !in commits[..attempt]
      invariant attempt > 0 ==> ChangedPairs(PairsOf(store.settings), old(store.persisted)) != map[]
    {
      ok := store.Flush(table, commits[attempt]);
      if ok {
        return;
      }
    }
    assert commits[..|commits|] == commits;
  }

  // ---- the theorems ----

  lemma LoadedValue(table: Table, k: Key)
    ensures Loaded(table)[k] == Clamp(KindOf(k), Read(table, k))
  {
    hide Clamp, Read;
  }

  // What one key of a flush comes to: the handle's value if it drifted, and otherwise
  // what the table already said.
  lemma FlushedValue(s: Settings, persisted: Table, table: Table, k: Key)
    requires Clamped(s) && Lasting(KindOf(k), s[k])
    ensures var changed := ChangedPairs(PairsOf(s), persisted);
            Loaded(table + changed)[k] == if k in changed then s[k] else Loaded(table)[k]
  {
    hide Clamp, Apply, Encode, Fits, Lasting, Loaded;
    var changed := ChangedPairs(PairsOf(s), persisted);
    LoadedValue(table + changed, k);
    LoadedValue(table, k);
    KindsAreSane(k);
    ReadsBackIff(KindOf(k), Default(k), s[k]);
  }

  // Two lasting values with one encoding are one value.
  lemma EncodingIsInjective(k: Key, v: Value, w: Value)
    requires Fits(KindOf(k), v) && Clamp(KindOf(k), v) == v && Lasting(KindOf(k), v)
    requires Fits(KindOf(k), w) && Clamp(KindOf(k), w) == w && Lasting(KindOf(k), w)
    requires Encode(KindOf(k), v) == Encode(KindOf(k), w)
    ensures v == w
  {
    hide Clamp, Apply, Encode, Fits, Lasting;
    KindsAreSane(k);
    ReadsBackIff(KindOf(k), Default(k), v);
    ReadsBackIff(KindOf(k), Default(k), w);
  }

  // The handle knows what the table holds: so it does when loaded, and after a flush
  // nobody else got between.
  ghost predicate Knows(persisted: Table, table: Table) {
    persisted == PairsOf(Loaded(table)) && AllLasting(Loaded(table))
  }

  // After a sole writer's flush the table loads as its settings, whatever drifted, and
  // the handle knows it.
  lemma FlushLoads(s: Settings, persisted: Table, table: Table)
    requires Clamped(s) && AllLasting(s) && Knows(persisted, table)
    ensures var after := table + ChangedPairs(PairsOf(s), persisted);
            Loaded(after) == s && Knows(PairsOf(s), after)
  {
    hide Clamp, Encode, Fits, Lasting, Loaded;
    var changed := ChangedPairs(PairsOf(s), persisted);
    var after := table + changed;
    forall k: Key
      ensures Loaded(after)[k] == s[k]
    {
      FlushedValue(s, persisted, table, k);
      if k !in changed {
        EncodingIsInjective(k, s[k], Loaded(table)[k]);
      }
    }
  }

  lemma LostValue(s: Settings, persisted: Table, table: Table, k: Key)
    requires Clamped(s) && Knows(persisted, table) && !Lasting(KindOf(k), s[k])
    ensures Loaded(table + ChangedPairs(PairsOf(s), persisted))[k] != s[k]
  {
    hide Apply, Encode, Fits, Survives, Loaded, NormalizedDomains;
    var changed := ChangedPairs(PairsOf(s), persisted);
    LoadedValue(table + changed, k);
    LoadedValue(table, k);
    KindsAreSane(k);
    ReadsBackIff(KindOf(k), Default(k), s[k]);
    assert k in changed || Lasting(KindOf(k), Loaded(table)[k]);
  }

  // The table a sole writer leaves loads as its settings exactly when no id in them is
  // empty or broken by a line ending.
  lemma FlushLoadsIff(s: Settings, persisted: Table, table: Table)
    requires Clamped(s) && Knows(persisted, table)
    ensures Loaded(table + ChangedPairs(PairsOf(s), persisted)) == s <==> AllLasting(s)
  {
    hide Clamp, Encode, Fits, Lasting, Loaded, Knows;
    if AllLasting(s) {
      FlushLoads(s, persisted, table);
    } else {
      var k: Key :| !Lasting(KindOf(k), s[k]);
      LostValue(s, persisted, table, k);
    }
  }

  // Settings::clamp leaves what it has clamped alone.
  lemma ClampAllIdempotent(s: Settings)
    requires Typed(s)
    ensures ClampAll(ClampAll(s)) == ClampAll(s)
  {
    hide Clamp, Fits;
  }

  lemma TwoFlushedValues(a: Settings, b: Settings, persisted: Table, table: Table, k: Key)
    requires Clamped(a) && Clamped(b) && Lasting(KindOf(k), a[k]) && Lasting(KindOf(k), b[k])
    requires k in ChangedPairs(PairsOf(a), persisted) ==> k !in ChangedPairs(PairsOf(b), persisted)
    ensures var fromA, fromB := ChangedPairs(PairsOf(a), persisted), ChangedPairs(PairsOf(b), persisted);
            Loaded(table + fromA + fromB)[k] ==
            if k in fromA then a[k] else if k in fromB then b[k] else Loaded(table)[k]
  {
    hide Clamp, Fits, Lasting, Loaded, PairsOf, ChangedPairs;
    var fromA := ChangedPairs(PairsOf(a), persisted);
    FlushedValue(a, persisted, table, k);
    FlushedValue(b, persisted, table + fromA, k);
  }

  // Two handles loaded from one table that changed different keys: either order of
  // flushing leaves the same table, and it loads with both changes.
  lemma DisjointFlushesCommute(a: Settings, b: Settings, persisted: Table, table: Table)
    requires Clamped(a) && Clamped(b) && AllLasting(a) && AllLasting(b)
    requires ChangedPairs(PairsOf(a), persisted).Keys !! ChangedPairs(PairsOf(b), persisted).Keys
    ensures var fromA, fromB := ChangedPairs(PairsOf(a), persisted), ChangedPairs(PairsOf(b), persisted);
            && table + fromA + fromB == table + fromB + fromA
            && forall k: Key ::
                 Loaded(table + fromA + fromB)[k] ==
                 if k in fromA then a[k] else if k in fromB then b[k] else Loaded(table)[k]
  {
    hide Clamp, Fits, Lasting, Loaded, PairsOf, ChangedPairs;
    var fromA, fromB := ChangedPairs(PairsOf(a), persisted), ChangedPairs(PairsOf(b), persisted);
    assert table + fromA + fromB == table + fromB + fromA;
    forall k: Key
      ensures Loaded(table + fromA + fromB)[k] ==
              if k in fromA then a[k] else if k in fromB then b[k] else Loaded(table)[k]
    {
      TwoFlushedValues(a, b, persisted, table, k);
    }
  }

  // The table after a flush behind every patch.
  ghost function FlushEach(s: Settings, persisted: Table, table: Table, batch: seq<Settings -> Settings>): Table
    requires Clamped(s) && Patches(batch)
  {
    if batch == [] then table
    else
      var before := batch[..|batch| - 1];
      FlushEach(s, persisted, table, before)
      + ChangedPairs(PairsOf(PatchAll(s, batch)), if before == [] then persisted else PairsOf(PatchAll(s, before)))
  }

  ghost predicate LastingThroughout(s: Settings, batch: seq<Settings -> Settings>)
    requires Clamped(s) && Patches(batch)
  {
    forall n | 0 <= n <= |batch| :: AllLasting(PatchAll(s, batch[..n]))
  }

  lemma {:induction false} FlushEachLoads(s: Settings, persisted: Table, table: Table, batch: seq<Settings -> Settings>)
    requires Clamped(s) && Patches(batch) && batch != []
    requires Knows(persisted, table) && LastingThroughout(s, batch)
    ensures Loaded(FlushEach(s, persisted, table, batch)) == PatchAll(s, batch)
    ensures Knows(PairsOf(PatchAll(s, batch)), FlushEach(s, persisted, table, batch))
  {
    hide Clamp, Encode, Fits, Lasting, Loaded, Knows, AllLasting, PairsOf, ChangedPairs, ClampAll;
    var n := |batch| - 1;
    var before := batch[..n];
    assert batch[..|batch|] == batch;
    assert AllLasting(PatchAll(s, batch));
    if n > 0 {
      assert forall m | 0 <= m <= n :: before[..m] == batch[..m];
      FlushEachLoads(s, persisted, table, before);
      FlushLoads(PatchAll(s, batch), PairsOf(PatchAll(s, before)), FlushEach(s, persisted, table, before));
    } else {
      assert before == [];
      FlushLoads(PatchAll(s, batch), persisted, table);
    }
  }

  // A batch with one flush loads the same as a flush after each of its patches.
  lemma OneFlushLoadsTheSame(s: Settings, persisted: Table, table: Table, batch: seq<Settings -> Settings>)
    requires Clamped(s) && Patches(batch) && batch != []
    requires Knows(persisted, table) && LastingThroughout(s, batch)
    ensures Loaded(table + ChangedPairs(PairsOf(PatchAll(s, batch)), persisted))
            == Loaded(FlushEach(s, persisted, table, batch))
  {
    hide Clamp, Encode, Fits, Lasting, Loaded, Knows, PairsOf, ChangedPairs;
    assert batch[..|batch|] == batch;
    FlushEachLoads(s, persisted, table, batch);
    FlushLoads(PatchAll(s, batch), persisted, table);
  }
}