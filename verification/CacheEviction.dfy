// The budget sweeps over cached bodies and attachments (crates/core/src/body.rs).
// A table is the sequence of its rows.
module CacheEviction {
  import opened Wrappers
  import opened Ordering

  const BODY_KEEP_AFTER_READ_SECS := 2 * 24 * 60 * 60
  const I64_MIN := -0x8000_0000_0000_0000

  // ---- the sweep over rows already in eviction order ----

  datatype Entry = Entry(id: string, path: string, size: nat)

  function Total(entries: seq<Entry>): nat {
    if entries == [] then 0 else Total(entries[..|entries| - 1]) + entries[|entries| - 1].size
  }

  predicate Kept(e: Entry, keep: Option<string>) {
    keep == Some(e.id)
  }

  // The entries without the exempt one, in order.
  function Skip(entries: seq<Entry>, keep: Option<string>): seq<Entry> {
    if entries == [] then []
    else
      var n := |entries| - 1;
      Skip(entries[..n], keep) + if Kept(entries[n], keep) then [] else [entries[n]]
  }

  // The victims are an initial segment of the order without the exempt entry:
  // the shortest one that brings the total within the limit, or all of it.
  ghost predicate ShortestSegment(entries: seq<Entry>, total: nat, limit: nat, keep: Option<string>,
                                  victims: seq<Entry>) {
    && victims <= Skip(entries, keep)
    && (total - Total(victims) <= limit || victims == Skip(entries, keep))
    && StillOver(total, limit, victims)
  }

  // Every proper initial part leaves the total over the limit.
  ghost predicate StillOver(total: nat, limit: nat, victims: seq<Entry>) {
    forall k | 0 <= k < |victims| :: total - Total(victims[..k]) > limit
  }

  lemma StillOverByOne(total: nat, limit: nat, victims: seq<Entry>, e: Entry)
    requires StillOver(total, limit, victims) && total - Total(victims) > limit
    ensures StillOver(total, limit, victims + [e])
    ensures Total(victims + [e]) == Total(victims) + e.size
  {
    var all := victims + [e];
    assert all[..|victims|] == victims;
    assert forall k | 0 <= k < |victims| :: all[..k] == victims[..k];
  }

  // The files left when those of the victims are unlinked, `stuck` ones excepted.
  function Unlinked(files: set<string>, victims: seq<Entry>, stuck: set<string>): (left: set<string>)
    ensures left <= files
    ensures forall p | p in files :: p in left <==> p in stuck || forall e | e in victims :: e.path != p
  {
    if victims == [] then files
    else
      var n := |victims| - 1;
      assert victims == victims[..n] + [victims[n]];
      Unlinked(files, victims[..n], stuck) - ({victims[n].path} - stuck)
  }

  lemma {:induction false} SkipTotal(entries: seq<Entry>, keep: Option<string>)
    ensures Total(Skip(entries, keep)) <= Total(entries)
  {
    if entries != [] {
      var n := |entries| - 1;
      SkipTotal(entries[..n], keep);
      var s := Skip(entries, keep);
      if !Kept(entries[n], keep) {
        assert s[..|s| - 1] == Skip(entries[..n], keep);
      } else {
        assert s == Skip(entries[..n], keep);
      }
    }
  }

  lemma {:induction false} TotalOfPrefix(entries: seq<Entry>, k: nat)
    requires k <= |entries|
    ensures Total(entries[..k]) <= Total(entries)
    decreases |entries| - k
  {
    if k < |entries| {
      TotalOfPrefix(entries, k + 1);
      assert entries[..k + 1][..k] == entries[..k];
    } else {
      assert entries[..k] == entries;
    }
  }

  lemma {:induction false} SkipOfPrefix(entries: seq<Entry>, keep: Option<string>, k: nat)
    requires k <= |entries|
    ensures Skip(entries[..k], keep) <= Skip(entries, keep)
    decreases |entries| - k
  {
    if k < |entries| {
      SkipOfPrefix(entries, keep, k + 1);
      assert entries[..k + 1][..k] == entries[..k];
    } else {
      assert entries[..k] == entries;
    }
  }

  // The loop of both sweeps: `stuck` are the files that cannot be removed.
  method Sweep(entries: seq<Entry>, occupied: nat, limit: nat, keep: Option<string>, files: set<string>,
               stuck: set<string>)
    returns (victims: seq<Entry>, left: set<string>)
    requires occupied == Total(entries)
    ensures ShortestSegment(entries, occupied, limit, keep, victims)
    ensures left == Unlinked(files, victims, stuck)
  {
    hide Unlinked, StillOver, Total, Skip, Kept, ShortestSegment;
    var total := occupied;
    victims, left := [], files;
    NothingYet(entries, occupied, limit, keep, files, stuck);
    for i := 0 to |entries|
      invariant victims == Skip(entries[..i], keep)
      invariant total == occupied - Total(victims)
      invariant StillOver(occupied, limit, victims)
      invariant left == Unlinked(files, victims, stuck)
    {
      if total <= limit {
        SegmentFound(entries, occupied, limit, keep, victims, i);
        return;
      }
      SkipNext(entries, keep, i);
      if !Kept(entries[i], keep) {
        StillOverByOne(occupied, limit, victims, entries[i]);
        if entries[i].path !in stuck {
          left := left - {entries[i].path};
        }
        victims := victims + [entries[i]];
        SkipOfPrefix(entries, keep, i + 1);
        SegmentTotal(entries, keep, victims);
        total := if total < entries[i].size then 0 else total - entries[i].size;
      }
    }
    SegmentFound(entries, occupied, limit, keep, victims, |entries|);
  }

  lemma NothingYet(entries: seq<Entry>, total: nat, limit: nat, keep: Option<string>, files: set<string>,
                   stuck: set<string>)
    ensures StillOver(total, limit, []) && Unlinked(files, [], stuck) == files
    ensures Total([]) == 0 && Skip(entries[..0], keep) == []
  {
    assert entries[..0] == [];
  }

  lemma SkipNext(entries: seq<Entry>, keep: Option<string>, i: nat)
    requires i < |entries|
    ensures Skip(entries[..i + 1], keep)
            == if Kept(entries[i], keep) then Skip(entries[..i], keep) else Skip(entries[..i], keep) + [entries[i]]
  {
    assert entries[..i + 1][..i] == entries[..i];
  }

  lemma SegmentFound(entries: seq<Entry>, total: nat, limit: nat, keep: Option<string>, victims: seq<Entry>, i: nat)
    requires i <= |entries| && victims == Skip(entries[..i], keep) && StillOver(total, limit, victims)
    requires i < |entries| ==> total - Total(victims) <= limit
    ensures ShortestSegment(entries, total, limit, keep, victims)
  {
    hide StillOver, Total, Skip;
    SkipOfPrefix(entries, keep, i);
    assert entries[..|entries|] == entries;
  }

  lemma SegmentTotal(entries: seq<Entry>, keep: Option<string>, victims: seq<Entry>)
    requires victims <= Skip(entries, keep)
    ensures Total(victims) <= Total(entries)
  {
    SkipTotal(entries, keep);
    TotalOfPrefix(Skip(entries, keep), |victims|);
    assert Skip(entries, keep)[..|victims|] == victims;
  }

  // ---- the cached rows of a table, in eviction order ----

  // A row of `messages` (recorded = body_bytes, no declared size) or of
  // `attachments` (recorded = cache_bytes, declared = size_bytes, date = the mail's).
  datatype Row = Row(id: string, path: Option<string>, recorded: Option<int>, declared: Option<int>,
                     date: Option<int>, readAt: Option<int>)

  type Table = seq<Row>

  // `messages` has no declared sizes: its bytes are body_bytes alone.
  ghost predicate Undeclared(table: Table) {
    forall i | 0 <= i < |table| :: table[i].declared.None?
  }

  datatype Policy = Bodies(cutoff: int) | Attachments

  ghost predicate Valid(table: Table) {
    && (forall i, j | 0 <= i < j < |table| :: table[i].id != table[j].id)
    && (forall i | 0 <= i < |table| :: (table[i].recorded.Some? ==> table[i].recorded.value >= 0)
                                       && (table[i].declared.Some? ==> table[i].declared.value >= 0))
  }

  function Size(row: Row): nat {
    var n := match row.recorded case Some(r) => r case None => (match row.declared case Some(d) => d case None => 0);
    if n < 0 then 0 else n
  }

  // SUM over the rows that have a file.
  function CountedBytes(table: Table): nat {
    if table == [] then 0
    else
      var n := |table| - 1;
      CountedBytes(table[..n]) + if table[n].path.Some? then Size(table[n]) else 0
  }

  function Cached(table: Table): (r: seq<Row>)
    ensures forall x :: x in r <==> x in table && x.path.Some?
  {
    if table == [] then []
    else
      assert table == [table[0]] + table[1..];
      (if table[0].path.Some? then [table[0]] else []) + Cached(table[1..])
  }

  predicate Protected(row: Row, cutoff: int) {
    row.readAt.Some? && row.readAt.value > cutoff
  }

  // ASC with NULL first.
  predicate DateBefore(a: Option<int>, b: Option<int>) {
    b.Some? && (a.None? || a.value < b.value)
  }

  predicate Before(policy: Policy, a: Row, b: Row) {
    if policy.Bodies? && Protected(a, policy.cutoff) != Protected(b, policy.cutoff) then !Protected(a, policy.cutoff)
    else if a.date != b.date then DateBefore(a.date, b.date)
    else TextLe(a.id, b.id)
  }

  function EvictionOrder(policy: Policy, table: Table): (r: seq<Row>)
    ensures forall x :: x in r <==> x in table && x.path.Some?
  {
    var le := (a: Row, b: Row) => Before(policy, a, b);
    SortMembers(Cached(table), le);
    Sort(Cached(table), le)
  }

  lemma BeforeIsPreorder(policy: Policy)
    ensures TotalPreorder((a: Row, b: Row) => Before(policy, a, b))
  {
    forall a: Row, b: Row
      ensures Before(policy, a, b) || Before(policy, b, a)
    {
      TextLeTotal(a.id, b.id);
    }
    forall a: Row, b: Row, c: Row | Before(policy, a, b) && Before(policy, b, c)
      ensures Before(policy, a, c)
    {
      if TextLe(a.id, b.id) && TextLe(b.id, c.id) {
        TextLeTransitive(a.id, b.id, c.id);
      }
    }
  }

  function EntryOf(row: Row): Entry
    requires row.path.Some?
  {
    Entry(row.id, row.path.value, Size(row))
  }

  function Entries(rows: seq<Row>): (r: seq<Entry>)
    requires forall i | 0 <= i < |rows| :: rows[i].path.Some?
    ensures |r| == |rows|
  {
    seq(|rows|, i requires 0 <= i < |rows| => EntryOf(rows[i]))
  }

  // What the sweep goes through.
  function Queue(policy: Policy, table: Table): seq<Entry> {
    Entries(EvictionOrder(policy, table))
  }

  // ---- totals do not depend on the order ----

  lemma {:induction false} TotalFront(entries: seq<Entry>)
    requires entries != []
    ensures Total(entries) == entries[0].size + Total(entries[1..])
  {
    var n := |entries| - 1;
    if n > 0 {
      TotalFront(entries[..n]);
      assert entries[1..][..n - 1] == entries[..n][1..];
    } else {
      assert entries[..0] == [] && entries[1..] == [];
    }
  }

  ghost function SizeSum(rows: seq<Row>): nat {
    if rows == [] then 0 else Size(rows[0]) + SizeSum(rows[1..])
  }

  lemma {:induction false} SizeSumIsTotal(rows: seq<Row>)
    requires forall i | 0 <= i < |rows| :: rows[i].path.Some?
    ensures Total(Entries(rows)) == SizeSum(rows)
  {
    if rows != [] {
      TotalFront(Entries(rows));
      assert Entries(rows)[1..] == Entries(rows[1..]);
      SizeSumIsTotal(rows[1..]);
    }
  }

  lemma {:induction false} InsertSum(x: Row, rows: seq<Row>, le: (Row, Row) -> bool)
    ensures SizeSum(Insert(x, rows, le)) == Size(x) + SizeSum(rows)
  {
    if rows == [] {
    } else if le(x, rows[0]) {
      assert ([x] + rows)[1..] == rows;
    } else {
      InsertSum(x, rows[1..], le);
      var r := Insert(x, rows, le);
      assert r[1..] == Insert(x, rows[1..], le);
    }
  }

  lemma {:induction false} SortSum(rows: seq<Row>, le: (Row, Row) -> bool)
    ensures SizeSum(Sort(rows, le)) == SizeSum(rows)
  {
    if rows != [] {
      SortSum(rows[1..], le);
      InsertSum(rows[0], Sort(rows[1..], le), le);
    }
  }

  lemma {:induction false} CountedFront(table: Table)
    requires table != []
    ensures CountedBytes(table) == (if table[0].path.Some? then Size(table[0]) else 0) + CountedBytes(table[1..])
  {
    var n := |table| - 1;
    if n > 0 {
      CountedFront(table[..n]);
      assert table[1..][..n - 1] == table[..n][1..];
    } else {
      assert table[..0] == [] && table[1..] == [];
    }
  }

  lemma {:induction false} CountedIsSizeSum(table: Table)
    ensures CountedBytes(table) == SizeSum(Cached(table))
  {
    if table != [] {
      CountedFront(table);
      CountedIsSizeSum(table[1..]);
      if table[0].path.Some? {
        assert Cached(table)[1..] == Cached(table[1..]);
      } else {
        assert Cached(table) == Cached(table[1..]);
      }
    }
  }

  lemma OrderFacts(policy: Policy, table: Table)
    ensures Sorted(EvictionOrder(policy, table), (a, b) => Before(policy, a, b))
    ensures Total(Queue(policy, table)) == CountedBytes(table)
  {
    var le := (a: Row, b: Row) => Before(policy, a, b);
    BeforeIsPreorder(policy);
    SortSorts(Cached(table), le);
    SizeSumIsTotal(EvictionOrder(policy, table));
    SortSum(Cached(table), le);
    CountedIsSizeSum(table);
  }

  // ---- victims are rows of the table, each once ----

  ghost predicate DistinctIds(entries: seq<Entry>) {
    forall i, j | 0 <= i < j < |entries| :: entries[i].id != entries[j].id
  }

  lemma {:induction false} CachedDistinct(table: Table)
    requires Distinct(table)
    ensures Distinct(Cached(table))
  {
    if table != [] {
      CachedDistinct(table[1..]);
      assert table[0] !in table[1..];
      assert table[0] !in Cached(table[1..]);
    }
  }

  lemma OrderDistinct(policy: Policy, table: Table)
    requires Valid(table)
    ensures DistinctIds(Queue(policy, table))
  {
    CachedDistinct(table);
    var order := EvictionOrder(policy, table);
    DistinctByMultiset(Cached(table), order);
    forall i, j | 0 <= i < j < |order|
      ensures order[i].id != order[j].id
    {
      assert order[i] in table && order[j] in table && order[i] != order[j];
    }
  }

  // The entry of some row of the table that has a file.
  ghost predicate Names(table: Table, v: Entry) {
    exists row | row in table :: row.path.Some? && EntryOf(row) == v
  }

  lemma QueueMembers(policy: Policy, table: Table)
    ensures forall v | v in Queue(policy, table) :: Names(table, v)
    ensures forall row | row in table && row.path.Some? :: EntryOf(row) in Queue(policy, table)
  {
    var order, queue := EvictionOrder(policy, table), Queue(policy, table);
    forall v | v in queue
      ensures Names(table, v)
    {
      var i :| 0 <= i < |queue| && queue[i] == v;
      assert order[i] in table;
    }
    forall row | row in table && row.path.Some?
      ensures EntryOf(row) in queue
    {
      var i :| 0 <= i < |order| && order[i] == row;
      assert queue[i] == EntryOf(row);
    }
  }

  lemma {:induction false} SkipMembers(entries: seq<Entry>, keep: Option<string>)
    ensures forall e :: e in Skip(entries, keep) <==> e in entries && !Kept(e, keep)
  {
    hide Kept;
    if entries != [] {
      var n := |entries| - 1;
      SkipMembers(entries[..n], keep);
      assert entries == entries[..n] + [entries[n]];
    }
  }

  lemma {:induction false} SkipFacts(entries: seq<Entry>, keep: Option<string>)
    ensures forall e :: e in Skip(entries, keep) <==> e in entries && !Kept(e, keep)
    ensures DistinctIds(entries) ==> DistinctIds(Skip(entries, keep))
  {
    hide Kept;
    SkipMembers(entries, keep);
    if entries != [] {
      var n := |entries| - 1;
      SkipFacts(entries[..n], keep);
      if DistinctIds(entries) {
        assert forall e | e in entries[..n] :: e.id != entries[n].id;
      }
    }
  }

  // An initial part of the skipped order is what is skipped from an initial part of the order.
  lemma {:induction false} SegmentOfOrder(entries: seq<Entry>, keep: Option<string>, victims: seq<Entry>)
    returns (n: nat)
    requires victims <= Skip(entries, keep)
    ensures n <= |entries| && victims == Skip(entries[..n], keep)
  {
    var last := |entries| - 1;
    if victims == Skip(entries, keep) {
      n := |entries|;
      assert entries[..n] == entries;
    } else {
      assert victims <= Skip(entries[..last], keep);
      n := SegmentOfOrder(entries[..last], keep, victims);
      assert entries[..last][..n] == entries[..n];
    }
  }

  // ---- what clearing the victims' pointers does to the sum ----

  function ClearRow(row: Row, ids: set<string>): Row {
    if row.id in ids then row.(path := None, recorded := None) else row
  }

  function Cleared(table: Table, ids: set<string>): (r: Table)
    ensures |r| == |table|
    ensures forall i | 0 <= i < |table| :: r[i] == ClearRow(table[i], ids)
  {
    if table == [] then [] else Cleared(table[..|table| - 1], ids) + [ClearRow(table[|table| - 1], ids)]
  }

  function IdsOf(entries: seq<Entry>): set<string> {
    set e | e in entries :: e.id
  }

  ghost function CountedIn(table: Table, ids: set<string>): nat {
    if table == [] then 0
    else
      var n := |table| - 1;
      CountedIn(table[..n], ids) + if table[n].path.Some? && table[n].id in ids then Size(table[n]) else 0
  }

  lemma {:induction false} ClearedCounts(table: Table, ids: set<string>)
    ensures CountedBytes(Cleared(table, ids)) + CountedIn(table, ids) == CountedBytes(table)
  {
    if table != [] {
      var n := |table| - 1;
      ClearedCounts(table[..n], ids);
      assert Cleared(table, ids)[..n] == Cleared(table[..n], ids);
    }
  }

  lemma {:induction false} CountedInNone(table: Table, ids: set<string>, x: string)
    requires forall i | 0 <= i < |table| :: table[i].id != x
    ensures CountedIn(table, ids + {x}) == CountedIn(table, ids)
  {
    if table != [] {
      CountedInNone(table[..|table| - 1], ids, x);
    }
  }

  lemma {:induction false} CountedInOne(table: Table, ids: set<string>, row: Row)
    requires Valid(table) && row in table && row.path.Some? && row.id !in ids
    ensures CountedIn(table, ids + {row.id}) == CountedIn(table, ids) + Size(row)
  {
    var n := |table| - 1;
    assert table == table[..n] + [table[n]];
    if table[n] == row {
      CountedInNone(table[..n], ids, row.id);
    } else {
      CountedInOne(table[..n], ids, row);
      assert table[n].id != row.id;
    }
  }

  lemma {:induction false} CountedInVictims(table: Table, victims: seq<Entry>)
    requires Valid(table) && DistinctIds(victims)
    requires forall v | v in victims :: Names(table, v)
    ensures CountedIn(table, IdsOf(victims)) == Total(victims)
  {
    if victims == [] {
      CountedInNothing(table);
      assert IdsOf(victims) == {};
    } else {
      var n := |victims| - 1;
      var v := victims[n];
      assert victims == victims[..n] + [v];
      CountedInVictims(table, victims[..n]);
      assert IdsOf(victims) == IdsOf(victims[..n]) + {v.id};
      assert Names(table, v);
      var row :| row in table && row.path.Some? && EntryOf(row) == v;
      CountedInOne(table, IdsOf(victims[..n]), row);
    }
  }

  lemma {:induction false} CountedInNothing(table: Table)
    ensures CountedIn(table, {}) == 0
  {
    if table != [] {
      CountedInNothing(table[..|table| - 1]);
    }
  }

  // ---- the sweep of a table ----

  // The table afterwards: exactly the victims lost their pointers, and they are
  // the shortest segment of the eviction order that reaches the limit.
  ghost predicate Swept(policy: Policy, before: Table, after: Table, limit: nat, keep: Option<string>,
                        victims: seq<Entry>) {
    && ShortestSegment(Queue(policy, before), CountedBytes(before), limit, keep, victims)
    && after == Cleared(before, IdsOf(victims))
  }

  lemma VictimsAreRows(policy: Policy, before: Table, after: Table, limit: nat, keep: Option<string>,
                       victims: seq<Entry>)
    requires Valid(before) && Swept(policy, before, after, limit, keep, victims)
    ensures DistinctIds(victims)
    ensures forall v | v in victims :: !Kept(v, keep) && Names(before, v)
  {
    hide Queue, StillOver, Names;
    OrderDistinct(policy, before);
    QueueMembers(policy, before);
    SkipFacts(Queue(policy, before), keep);
    assert forall v | v in victims :: v in Skip(Queue(policy, before), keep);
  }

  // After a sweep the counted bytes fit the limit, or only the exempt row has a file.
  lemma SweepFitsLimit(policy: Policy, before: Table, after: Table, limit: nat, keep: Option<string>,
                       victims: seq<Entry>)
    requires Valid(before) && Swept(policy, before, after, limit, keep, victims)
    ensures CountedBytes(after) == CountedBytes(before) - Total(victims)
    ensures CountedBytes(after) <= limit || OnlyKept(after, keep)
  {
    hide Queue, StillOver, Names, CountedBytes;
    VictimsAreRows(policy, before, after, limit, keep, victims);
    CountedInVictims(before, victims);
    ClearedCounts(before, IdsOf(victims));
    if CountedBytes(after) > limit {
      AllButKeptWent(policy, before, keep, victims);
    }
  }

  ghost predicate OnlyKept(table: Table, keep: Option<string>) {
    forall i | 0 <= i < |table| && table[i].path.Some? :: keep == Some(table[i].id)
  }

  lemma AllButKeptWent(policy: Policy, before: Table, keep: Option<string>, victims: seq<Entry>)
    requires victims == Skip(Queue(policy, before), keep)
    ensures OnlyKept(Cleared(before, IdsOf(victims)), keep)
  {
    hide Queue;
    SkipFacts(Queue(policy, before), keep);
    QueueMembers(policy, before);
    forall i | 0 <= i < |before| && before[i].path.Some? && keep != Some(before[i].id)
      ensures before[i].id in IdsOf(victims)
    {
      assert before[i] in before;
      assert EntryOf(before[i]) in victims;
    }
  }

  // No row is spared while a later one goes: whatever comes before a victim in the
  // order, and is not exempt, is a victim too.
  lemma EarlierGoesFirst(policy: Policy, before: Table, after: Table, limit: nat, keep: Option<string>,
                         victims: seq<Entry>, spared: Row, gone: Row)
    requires Valid(before) && Swept(policy, before, after, limit, keep, victims)
    requires spared in before && gone in before && spared.path.Some? && gone.path.Some?
    requires Before(policy, spared, gone) && spared.id != gone.id && keep != Some(spared.id)
    requires EntryOf(gone) in victims
    ensures EntryOf(spared) in victims
  {
    hide StillOver;
    var order, queue := EvictionOrder(policy, before), Queue(policy, before);
    var q, g := InOrder(policy, before, spared, gone);
    assert queue[q] == EntryOf(spared) && queue[g] == EntryOf(gone);
    OrderDistinct(policy, before);
    EarlierInSegment(queue, keep, victims, q, g);
  }

  lemma EarlierInSegment(queue: seq<Entry>, keep: Option<string>, victims: seq<Entry>, q: nat, g: nat)
    requires DistinctIds(queue) && victims <= Skip(queue, keep)
    requires q < g < |queue| && queue[g] in victims && !Kept(queue[q], keep)
    ensures queue[q] in victims
  {
    var n := SegmentOfOrder(queue, keep, victims);
    SkipFacts(queue[..n], keep);
    var k :| 0 <= k < n && queue[..n][k] == queue[g];
    assert k == g;
    assert queue[..n][q] == queue[q];
  }

  lemma InOrder(policy: Policy, table: Table, first: Row, second: Row) returns (q: nat, g: nat)
    requires first in table && second in table && first.path.Some? && second.path.Some?
    requires Before(policy, first, second) && first.id != second.id
    ensures q < g < |EvictionOrder(policy, table)|
    ensures EvictionOrder(policy, table)[q] == first && EvictionOrder(policy, table)[g] == second
  {
    var order := EvictionOrder(policy, table);
    OrderFacts(policy, table);
    hide EvictionOrder, Queue;
    q :| 0 <= q < |order| && order[q] == first;
    g :| 0 <= g < |order| && order[g] == second;
    TextLeTotal(first.id, second.id);
  }

  // A recently read body goes only after every body that was not.
  lemma ProtectedGoLast(cutoff: int, before: Table, after: Table, limit: nat, keep: Option<string>,
                        victims: seq<Entry>, gone: Row, unread: Row)
    requires Valid(before) && Swept(Bodies(cutoff), before, after, limit, keep, victims)
    requires gone in before && gone.path.Some? && Protected(gone, cutoff) && EntryOf(gone) in victims
    requires unread in before && unread.path.Some? && !Protected(unread, cutoff) && keep != Some(unread.id)
    ensures EntryOf(unread) in victims
  {
    EarlierGoesFirst(Bodies(cutoff), before, after, limit, keep, victims, unread, gone);
  }

  // Read less than two days before `now`, as far as the clock reaches.
  predicate ReadLately(row: Row, now: int) {
    && row.readAt.Some?
    && row.readAt.value > (if now - 172_800 < -9_223_372_036_854_775_808 then -9_223_372_036_854_775_808
                           else now - 172_800)
  }

  // Mail without a date, then older mail, then mail of the same date by id.
  predicate OlderMail(a: Row, b: Row) {
    match (a.date, b.date)
    case (None, Some(_)) => true
    case (Some(_), None) => false
    case (None, None) => a.id != b.id && TextLe(a.id, b.id)
    case (Some(m), Some(n)) => m < n || (m == n && a.id != b.id && TextLe(a.id, b.id))
  }

  lemma OlderIsBefore(now: int, gone: Row, other: Row)
    ensures ReadLately(gone, now) && !ReadLately(other, now) ==> Before(Bodies(Cutoff(now)), other, gone)
    ensures ReadLately(gone, now) == ReadLately(other, now) && OlderMail(other, gone) ==>
              Before(Bodies(Cutoff(now)), other, gone)
    ensures OlderMail(other, gone) ==> Before(Attachments, other, gone)
  {
  }

  lemma OneRowAnId(table: Table, a: Row, b: Row)
    requires Valid(table) && a in table && b in table && a.id == b.id
    ensures a == b
  {
  }

  // A body read lately goes only after every body that was not; among bodies alike in
  // this, one goes only after those of older mail.
  lemma OlderBodiesGoFirst(now: int, before: Table, after: Table, limit: nat, keep: Option<string>,
                           victims: seq<Entry>, gone: Row, other: Row)
    requires Valid(before) && Swept(Bodies(Cutoff(now)), before, after, limit, keep, victims)
    requires gone in before && gone.path.Some? && EntryOf(gone) in victims
    requires other in before && other.path.Some? && keep != Some(other.id)
    requires || (ReadLately(gone, now) && !ReadLately(other, now))
             || (ReadLately(gone, now) == ReadLately(other, now) && OlderMail(other, gone))
    ensures EntryOf(other) in victims
  {
    hide Swept, Before, ReadLately, OlderMail, Cutoff, Valid;
    OlderIsBefore(now, gone, other);
    if other.id != gone.id {
      EarlierGoesFirst(Bodies(Cutoff(now)), before, after, limit, keep, victims, other, gone);
    } else {
      OneRowAnId(before, gone, other);
    }
  }

  // An attachment goes only after every attachment of older mail.
  lemma OlderAttachmentsGoFirst(before: Table, after: Table, limit: nat, keep: Option<string>,
                                victims: seq<Entry>, gone: Row, other: Row)
    requires Valid(before) && Swept(Attachments, before, after, limit, keep, victims)
    requires gone in before && gone.path.Some? && EntryOf(gone) in victims
    requires other in before && other.path.Some? && keep != Some(other.id) && OlderMail(other, gone)
    ensures EntryOf(other) in victims
  {
    hide Swept, Before, OlderMail, Valid;
    OlderIsBefore(0, gone, other);
    if other.id != gone.id {
      EarlierGoesFirst(Attachments, before, after, limit, keep, victims, other, gone);
    } else {
      OneRowAnId(before, gone, other);
    }
  }

  function Measured(table: Table): int {
    if table == [] then 0
    else
      var row := table[|table| - 1];
      Measured(table[..|table| - 1]) + (if row.path.Some? && row.recorded.Some? then row.recorded.value else 0)
  }

  function DeclaredOnly(table: Table): int {
    if table == [] then 0
    else
      var row := table[|table| - 1];
      DeclaredOnly(table[..|table| - 1])
      + (if row.path.Some? && row.recorded.None? && row.declared.Some? then row.declared.value else 0)
  }

  // What a sweep counts: what was measured, and what was declared where nothing was.
  lemma {:induction false} CountedIsMeasuredAndDeclared(table: Table)
    requires Valid(table)
    ensures CountedBytes(table) == Measured(table) + DeclaredOnly(table)
  {
    if table != [] {
      CountedIsMeasuredAndDeclared(table[..|table| - 1]);
    }
  }

  method EnforceLimit(policy: Policy, table: Table, limit: nat, keep: Option<string>, files: set<string>,
                      stuck: set<string>)
    returns (after: Table, left: set<string>, evicted: nat, ghost victims: seq<Entry>)
    requires Valid(table)
    ensures Valid(after) && Swept(policy, table, after, limit, keep, victims)
    ensures left == Unlinked(files, victims, stuck)
    ensures evicted == |victims|
  {
    hide Queue, StillOver, CountedBytes, Cleared, Valid, IdsOf, EvictionOrder;
    var total := CountedBytes(table);
    OrderFacts(policy, table);
    if total <= limit {
      NothingToSweep(policy, table, limit, keep, files, stuck);
      return table, files, 0, [];
    }
    var gone;
    gone, left := Sweep(Queue(policy, table), total, limit, keep, files, stuck);
    after := ClearVictims(table, gone);
    ClearedValid(table, IdsOf(gone));
    evicted := |gone|;
    victims := gone;
  }

  lemma ClearedValid(table: Table, ids: set<string>)
    requires Valid(table)
    ensures Valid(Cleared(table, ids))
  {
  }

  lemma ClearedUndeclared(table: Table, ids: set<string>)
    requires Undeclared(table)
    ensures Undeclared(Cleared(table, ids))
  {
  }

  lemma NothingToSweep(policy: Policy, table: Table, limit: nat, keep: Option<string>, files: set<string>,
                       stuck: set<string>)
    requires CountedBytes(table) <= limit
    ensures Swept(policy, table, table, limit, keep, [])
    ensures Unlinked(files, [], stuck) == files
  {
    assert Cleared(table, IdsOf([])) == table;
    assert [] <= Skip(Queue(policy, table), keep);
  }

  // The UPDATEs of the sweep's transaction.
  method ClearVictims(table: Table, gone: seq<Entry>) returns (after: Table)
    ensures after == Cleared(table, IdsOf(gone))
  {
    hide Cleared;
    after := table;
    assert Cleared(table, IdsOf(gone[..0])) == table;
    for i := 0 to |gone|
      invariant after == Cleared(table, IdsOf(gone[..i]))
    {
      assert gone[..i + 1] == gone[..i] + [gone[i]];
      assert IdsOf(gone[..i + 1]) == IdsOf(gone[..i]) + {gone[i].id};
      after := Cleared(after, {gone[i].id});
      assert after == Cleared(table, IdsOf(gone[..i + 1]));
    }
    assert gone[..|gone|] == gone;
  }

  // ---- the two caches of a profile ----

  class CacheTables {
    var messages: Table
    var attachments: Table
    var bodyFiles: set<string>
    var attachmentFiles: set<string>
    const stuck: set<string>   // paths whose removal fails, which the sweeps ignore

    ghost predicate Consistent()
      reads this
    {
      Valid(messages) && Undeclared(messages) && Valid(attachments)
    }

    constructor (messages: Table, attachments: Table, bodyFiles: set<string>, attachmentFiles: set<string>,
                 stuck: set<string>)
      requires Valid(messages) && Undeclared(messages) && Valid(attachments)
      ensures Consistent()
      ensures this.messages == messages && this.attachments == attachments && this.stuck == stuck
      ensures this.bodyFiles == bodyFiles && this.attachmentFiles == attachmentFiles
    {
      this.messages, this.attachments := messages, attachments;
      this.bodyFiles, this.attachmentFiles, this.stuck := bodyFiles, attachmentFiles, stuck;
    }

    method EnforceBodyCacheLimitKeeping(now: int, limit: nat, keep: Option<string>)
      returns (evicted: nat, ghost victims: seq<Entry>)
      requires Consistent()
      modifies this`messages, this`bodyFiles
      ensures Consistent()
      ensures Swept(Bodies(Cutoff(now)), old(messages), messages, limit, keep, victims)
      ensures bodyFiles == Unlinked(old(bodyFiles), victims, stuck)
      ensures evicted == |victims|
      ensures CountedBytes(messages) <= limit
              || OnlyKept(messages, keep)
    {
      hide CountedBytes, OnlyKept, Unlinked, Cleared, ShortestSegment, Undeclared;
      ghost var before := messages;
      messages, bodyFiles, evicted, victims :=
          EnforceLimit(Bodies(Cutoff(now)), messages, limit, keep, bodyFiles, stuck);
      ClearedUndeclared(before, IdsOf(victims));
      SweepFitsLimit(Bodies(Cutoff(now)), before, messages, limit, keep, victims);
    }

    method EnforceAttachmentCacheLimitKeeping(limit: nat, keep: Option<string>)
      returns (evicted: nat, ghost victims: seq<Entry>)
      requires Consistent()
      modifies this`attachments, this`attachmentFiles
      ensures Consistent()
      ensures Swept(Attachments, old(attachments), attachments, limit, keep, victims)
      ensures attachmentFiles == Unlinked(old(attachmentFiles), victims, stuck)
      ensures evicted == |victims|
      ensures CountedBytes(attachments) <= limit
              || OnlyKept(attachments, keep)
    {
      hide Swept, CountedBytes, OnlyKept, Unlinked;
      ghost var before := attachments;
      attachments, attachmentFiles, evicted, victims :=
          EnforceLimit(Attachments, attachments, limit, keep, attachmentFiles, stuck);
      SweepFitsLimit(Attachments, before, attachments, limit, keep, victims);
    }
  }

  // now.saturating_sub(BODY_KEEP_AFTER_READ_SECS)
  function Cutoff(now: int): int {
    if now - BODY_KEEP_AFTER_READ_SECS < I64_MIN then I64_MIN else now - BODY_KEEP_AFTER_READ_SECS
  }
}
