// Cursor pages of the thread list and the date headers between them
// (crates/core/src/fake.rs, crates/core/src/model.rs).
module Paging {
  import opened Wrappers
  import Ordering
  import CivilDate

  // `rest` is everything the list carries along without looking at it.
  datatype Thread = Thread(id: string, date: int, rest: string)

  datatype Cursor = Cursor(date: int, id: string)

  datatype Page = Page(threads: seq<Thread>, next: Option<Cursor>, prev: Option<Cursor>, total: nat)

  // ThreadCursor::of
  function Of(t: Thread): Cursor {
    Cursor(t.date, t.id)
  }

  // ---- the order of the list: newest first, then id, largest first ----

  predicate Ahead(a: Cursor, b: Cursor) {
    a.date > b.date || (a.date == b.date && a.id != b.id && Ordering.TextLe(b.id, a.id))
  }

  // older_than_cursor
  predicate OlderThanCursor(t: Thread, c: Cursor) {
    t.date < c.date || (t.date == c.date && !Ordering.TextLe(c.id, t.id))
  }

  predicate NoLaterThan(a: Thread, b: Thread) {
    a.date > b.date || (a.date == b.date && Ordering.TextLe(b.id, a.id))
  }

  lemma AheadIsStrict(a: Cursor, b: Cursor, c: Cursor)
    ensures a == b || Ahead(a, b) || Ahead(b, a)
    ensures !(Ahead(a, b) && Ahead(b, a)) && !Ahead(a, a)
    ensures Ahead(a, b) && Ahead(b, c) ==> Ahead(a, c)
  {
    Ordering.TextLeTotal(a.id, b.id);
    Ordering.TextLeTotal(a.id, c.id);
    if Ordering.TextLe(c.id, b.id) && Ordering.TextLe(b.id, a.id) {
      Ordering.TextLeTransitive(c.id, b.id, a.id);
      Ordering.TextLeTotal(b.id, c.id);
    }
  }

  lemma OlderIsBehind(t: Thread, c: Cursor)
    ensures OlderThanCursor(t, c) <==> Ahead(c, Of(t))
  {
    Ordering.TextLeTotal(t.id, c.id);
  }

  lemma ListOrderIsTotal()
    ensures Ordering.TotalPreorder(NoLaterThan)
  {
    Ordering.TextOrderTotal();
  }

  ghost predicate Descending(ts: seq<Thread>) {
    forall i, j | 0 <= i < j < |ts| :: Ahead(Of(ts[i]), Of(ts[j]))
  }

  ghost predicate DistinctIds(ts: seq<Thread>) {
    forall i, j | 0 <= i < j < |ts| :: ts[i].id != ts[j].id
  }

  // ---- the whole list ----

  function Kept(ts: seq<Thread>, listed: Thread -> bool): (r: seq<Thread>)
    ensures forall t :: t in r <==> t in ts && listed(t)
  {
    if ts == [] then []
    else Kept(ts[..|ts| - 1], listed) + if listed(ts[|ts| - 1]) then [ts[|ts| - 1]] else []
  }

  // list_threads
  function FullList(ts: seq<Thread>, listed: Thread -> bool): seq<Thread> {
    Ordering.Sort(Kept(ts, listed), NoLaterThan)
  }

  lemma {:induction false} KeptDistinct(ts: seq<Thread>, listed: Thread -> bool)
    requires DistinctIds(ts)
    ensures DistinctIds(Kept(ts, listed))
  {
    if ts != [] {
      var n := |ts| - 1;
      KeptDistinct(ts[..n], listed);
      var before := Kept(ts[..n], listed);
      forall i | 0 <= i < |before|
        ensures before[i].id != ts[n].id
      {
        assert before[i] in ts[..n];
      }
    }
  }

  // The list has exactly the listed threads, in strict order.
  lemma FullListIsDescending(ts: seq<Thread>, listed: Thread -> bool)
    requires DistinctIds(ts)
    ensures Descending(FullList(ts, listed))
    ensures forall t :: t in FullList(ts, listed) <==> t in ts && listed(t)
  {
    var kept := Kept(ts, listed);
    var list := FullList(ts, listed);
    KeptDistinct(ts, listed);
    ListOrderIsTotal();
    Ordering.SortSorts(kept, NoLaterThan);
    Ordering.SortMembers(kept, NoLaterThan);
    Ordering.DistinctByMultiset(kept, list);
    forall i, j | 0 <= i < j < |list|
      ensures Ahead(Of(list[i]), Of(list[j]))
    {
      assert NoLaterThan(list[i], list[j]);
      assert list[i] in kept && list[j] in kept && list[i] != list[j];
    }
  }

  // ---- a page ----

  // What a page is asked for: the rows behind a cursor, those ahead of one, or all.
  ghost function Behind(list: seq<Thread>, c: Cursor): seq<Thread> {
    Kept(list, t => Ahead(c, Of(t)))
  }

  ghost function InFront(list: seq<Thread>, c: Cursor): seq<Thread> {
    Kept(list, t => Ahead(Of(t), c))
  }

  function First(ts: seq<Thread>, n: nat): seq<Thread> {
    if |ts| <= n then ts else ts[..n]
  }

  function Last(ts: seq<Thread>, n: nat): seq<Thread> {
    if |ts| <= n then ts else ts[|ts| - n..]
  }

  ghost function Rows(list: seq<Thread>, after: Option<Cursor>, before: Option<Cursor>, limit: nat): seq<Thread> {
    if after.Some? then First(Behind(list, after.value), limit)
    else if before.Some? then Last(InFront(list, before.value), limit)
    else First(list, limit)
  }

  // A cursor to the last row if the list goes on.
  ghost function NextOf(list: seq<Thread>, rows: seq<Thread>): Option<Cursor> {
    if rows == [] || list == [] || rows[|rows| - 1] == list[|list| - 1] then None
    else Some(Of(rows[|rows| - 1]))
  }

  // A cursor to the first row if the list begins before it.
  ghost function PrevOf(list: seq<Thread>, rows: seq<Thread>): Option<Cursor> {
    if rows == [] || list == [] || rows[0] == list[0] then None else Some(Of(rows[0]))
  }

  ghost predicate IsPage(page: Page, list: seq<Thread>, rows: seq<Thread>) {
    page == Page(rows, NextOf(list, rows), PrevOf(list, rows), |list|)
  }

  lemma KeptLast(list: seq<Thread>, keep: Thread -> bool)
    requires list != []
    ensures var n := |list| - 1;
            Kept(list, keep) == Kept(list[..n], keep) + if keep(list[n]) then [list[n]] else []
  {
  }

  lemma {:induction false} KeptTail(list: seq<Thread>, keep: Thread -> bool, k: nat)
    requires k <= |list|
    requires forall i | 0 <= i < |list| :: keep(list[i]) <==> i >= k
    ensures Kept(list, keep) == list[k..]
  {
    hide Kept;
    if |list| > k {
      var n := |list| - 1;
      var front := list[..n];
      assert forall i | 0 <= i < n :: front[i] == list[i];
      KeptTail(front, keep, k);
      TailGrows(list, k);
      KeptLast(list, keep);
    } else {
      KeptNone(list, keep);
    }
  }

  lemma TailGrows(list: seq<Thread>, k: nat)
    requires k < |list|
    ensures list[k..] == list[..|list| - 1][k..] + [list[|list| - 1]]
  {
  }

  lemma {:induction false} KeptNone(list: seq<Thread>, keep: Thread -> bool)
    requires forall i | 0 <= i < |list| :: !keep(list[i])
    ensures Kept(list, keep) == []
  {
    if list != [] {
      KeptNone(list[..|list| - 1], keep);
    }
  }

  lemma {:induction false} KeptHead(list: seq<Thread>, keep: Thread -> bool, k: nat)
    requires k <= |list|
    requires forall i | 0 <= i < |list| :: keep(list[i]) <==> i < k
    ensures Kept(list, keep) == list[..k]
  {
    hide Kept;
    if list == [] {
      KeptNone(list, keep);
    } else {
      var n := |list| - 1;
      var front := list[..n];
      assert forall i | 0 <= i < n :: front[i] == list[i];
      KeptHead(front, keep, if k > n then n else k);
      KeptLast(list, keep);
      if k > n {
        assert list[..k] == front[..n] + [list[n]];
      } else {
        assert front[..k] == list[..k];
      }
    }
  }

  lemma BehindIsTail(list: seq<Thread>, c: Cursor, k: nat)
    requires Descending(list) && k <= |list|
    requires forall i | 0 <= i < k :: !Ahead(c, Of(list[i]))
    requires k < |list| ==> Ahead(c, Of(list[k]))
    ensures Behind(list, c) == list[k..]
  {
    hide Ahead, Ordering.TextLe;
    forall i | k < i < |list|
      ensures Ahead(c, Of(list[i]))
    {
      AheadIsStrict(c, Of(list[k]), Of(list[i]));
    }
    KeptTail(list, t => Ahead(c, Of(t)), k);
  }

  lemma InFrontIsHead(list: seq<Thread>, c: Cursor, k: nat)
    requires Descending(list) && k <= |list|
    requires forall i | 0 <= i < k :: Ahead(Of(list[i]), c)
    requires k < |list| ==> !Ahead(Of(list[k]), c)
    ensures InFront(list, c) == list[..k]
  {
    hide Ahead, Ordering.TextLe;
    forall i | k < i < |list|
      ensures !Ahead(Of(list[i]), c)
    {
      AheadIsStrict(Of(list[k]), Of(list[i]), c);
    }
    KeptHead(list, t => Ahead(Of(t), c), k);
  }

  // The start of a page after `cur`: past its row, or at the first older one.
  method StartAfter(list: seq<Thread>, cur: Cursor) returns (i: nat)
    ensures i <= |list|
    ensures Descending(list) ==> Behind(list, cur) == list[i..]
  {
    hide Ordering.TextLe;
    i := 0;
    while i < |list|
      invariant i <= |list| && forall j | 0 <= j < i :: !Ahead(cur, Of(list[j]))
    {
      AheadIsStrict(cur, Of(list[i]), cur);
      OlderIsBehind(list[i], cur);
      if list[i].date == cur.date && list[i].id == cur.id {
        i := i + 1;
        break;
      }
      if OlderThanCursor(list[i], cur) {
        break;
      }
      i := i + 1;
    }
    if Descending(list) {
      BehindIsTail(list, cur, i);
    }
  }

  // The end of a page before `cur`: at its row, or else at the first older one.
  method EndBefore(list: seq<Thread>, cur: Cursor) returns (end: nat)
    ensures end <= |list|
    ensures Descending(list) ==> InFront(list, cur) == list[..end]
  {
    hide Ordering.TextLe, Ahead, OlderThanCursor;
    end := 0;
    while end < |list| && !(list[end].date == cur.date && list[end].id == cur.id)
      invariant end <= |list|
      invariant forall j | 0 <= j < end :: Of(list[j]) != cur
    {
      end := end + 1;
    }
    if end == |list| {
      end := 0;
      while end < |list| && !OlderThanCursor(list[end], cur)
        invariant end <= |list|
        invariant forall j | 0 <= j < end :: !OlderThanCursor(list[j], cur)
      {
        end := end + 1;
      }
    }
    if Descending(list) {
      forall j | 0 <= j < end
        ensures Ahead(Of(list[j]), cur)
      {
        AheadIsStrict(Of(list[j]), cur, cur);
        OlderIsBehind(list[j], cur);
        if end < |list| {
          AheadIsStrict(Of(list[j]), Of(list[end]), cur);
        }
      }
      if end < |list| {
        AheadIsStrict(Of(list[end]), cur, cur);
        OlderIsBehind(list[end], cur);
      }
      InFrontIsHead(list, cur, end);
    }
  }

  // list_threads, and the sorted index of list_page
  method ListThreads(ts: seq<Thread>, listed: Thread -> bool) returns (list: seq<Thread>)
    ensures list == FullList(ts, listed)
  {
    list := [];
    for i := 0 to |ts|
      invariant list == Kept(ts[..i], listed)
    {
      assert ts[..i + 1][..i] == ts[..i];
      if listed(ts[i]) {
        list := list + [ts[i]];
      }
    }
    assert ts[..|ts|] == ts;
    list := Ordering.Sort(list, NoLaterThan);
  }

  // list_page
  method ListPage(ts: seq<Thread>, listed: Thread -> bool, after: Option<Cursor>, before: Option<Cursor>, limit: nat)
    returns (page: Page)
    ensures var list := FullList(ts, listed);
            DistinctIds(ts) ==> IsPage(page, list, Rows(list, after, before, limit))
  {
    hide FullList, Behind, InFront;
    var list := ListThreads(ts, listed);
    var total := |list|;
    var start, end := 0, 0;
    if after.Some? {
      start := StartAfter(list, after.value);
      end := if start + limit < total then start + limit else total;
    } else if before.Some? {
      end := EndBefore(list, before.value);
      start := if end > limit then end - limit else 0;
    } else {
      end := if limit < total then limit else total;
    }
    var threads := list[start..end];
    var next := if end < total && threads != [] then Some(Of(threads[|threads| - 1])) else None;
    var prev := if start > 0 && threads != [] then Some(Of(threads[0])) else None;
    page := Page(threads, next, prev, total);
    if DistinctIds(ts) {
      FullListIsDescending(ts, listed);
      SliceIsPage(list, page, start, end);
    }
  }

  lemma SliceIsPage(list: seq<Thread>, page: Page, start: nat, end: nat)
    requires Descending(list) && start <= end <= |list| && page.threads == list[start..end] && page.total == |list|
    requires page.next == if end < |list| && start < end then Some(Of(list[end - 1])) else None
    requires page.prev == if start > 0 && start < end then Some(Of(list[start])) else None
    ensures IsPage(page, list, list[start..end])
  {
    hide Ahead;
    if start < end {
      AheadIsStrict(Of(list[end - 1]), Of(list[|list| - 1]), Of(list[|list| - 1]));
      AheadIsStrict(Of(list[start]), Of(list[0]), Of(list[0]));
    }
  }

  // ---- following the cursors ----

  // Everything a walk from `after` has in front of it.
  ghost function Remaining(list: seq<Thread>, after: Option<Cursor>): seq<Thread> {
    if after.None? then list else Behind(list, after.value)
  }

  // The threads seen by following `next`, each page taken from the list as it is by
  // then, for as many pages as there are lists.
  ghost function Walk(lists: seq<seq<Thread>>, after: Option<Cursor>, limit: nat): seq<Thread> {
    if lists == [] then []
    else
      var rows := Rows(lists[0], after, None, limit);
      var next := NextOf(lists[0], rows);
      rows + if next.Some? then Walk(lists[1..], next, limit) else []
  }

  // The walk came to a page without a `next`.
  ghost predicate Stops(lists: seq<seq<Thread>>, after: Option<Cursor>, limit: nat) {
    lists != []
    && var next := NextOf(lists[0], Rows(lists[0], after, None, limit));
       next.None? || Stops(lists[1..], next, limit)
  }

  ghost predicate Follows(after: Option<Cursor>, t: Thread) {
    after.Some? ==> Ahead(after.value, Of(t))
  }

  lemma RowsAreAFront(list: seq<Thread>, after: Option<Cursor>, limit: nat) returns (k: nat)
    requires Descending(list)
    ensures k <= |list| && Remaining(list, after) == list[k..]
    ensures Rows(list, after, None, limit) == First(list[k..], limit)
    ensures forall i | 0 <= i < |list| :: Follows(after, list[i]) <==> i >= k
  {
    hide Behind, Ahead;
    k := 0;
    if after.Some? {
      while k < |list| && !Ahead(after.value, Of(list[k]))
        invariant k <= |list| && forall i | 0 <= i < k :: !Ahead(after.value, Of(list[i]))
      {
        k := k + 1;
      }
      BehindIsTail(list, after.value, k);
      forall i | k < i < |list|
        ensures Ahead(after.value, Of(list[i]))
      {
        AheadIsStrict(after.value, Of(list[k]), Of(list[i]));
      }
    }
    assert list[0..] == list;
  }

  // Which cursor a walk goes on with.
  lemma NextIs(list: seq<Thread>, after: Option<Cursor>, limit: nat, k: nat)
    requires Descending(list) && limit >= 1 && k <= |list|
    requires Rows(list, after, None, limit) == First(list[k..], limit)
    ensures NextOf(list, Rows(list, after, None, limit))
            == if |list| - k > limit then Some(Of(list[k + limit - 1])) else None
  {
    hide Ahead, Rows;
    if |list| - k > limit {
      AheadIsStrict(Of(list[k + limit - 1]), Of(list[|list| - 1]), Of(list[|list| - 1]));
    }
  }

  // Behind the last row of a page is what the page left.
  lemma BehindLast(list: seq<Thread>, k: nat)
    requires Descending(list) && 0 < k <= |list|
    ensures Behind(list, Of(list[k - 1])) == list[k..]
  {
    hide Ahead, Behind;
    var last := Of(list[k - 1]);
    forall i | 0 <= i < k
      ensures !Ahead(last, Of(list[i]))
    {
      AheadIsStrict(Of(list[i]), last, last);
    }
    BehindIsTail(list, last, k);
  }

  // Whatever happens to the mailbox between the pages, the whole walk is in strict
  // order, so that no thread is seen twice at one date.
  lemma {:induction false} WalkKeepsOrder(lists: seq<seq<Thread>>, after: Option<Cursor>, limit: nat)
    requires forall list | list in lists :: Descending(list)
    ensures Descending(Walk(lists, after, limit))
    ensures forall t | t in Walk(lists, after, limit) :: Follows(after, t)
  {
    hide Ahead, Remaining, Rows;
    if lists != [] {
      var rows := Rows(lists[0], after, None, limit);
      var next := NextOf(lists[0], rows);
      var k := RowsAreAFront(lists[0], after, limit);
      assert forall i | 0 <= i < |rows| :: rows[i] == lists[0][k + i];
      assert Descending(rows) && rows + [] == rows;
      if next.Some? {
        WalkKeepsOrder(lists[1..], next, limit);
        var more := Walk(lists[1..], next, limit);
        forall i, j | 0 <= i < |rows| && 0 <= j < |more|
          ensures Ahead(Of(rows[i]), Of(more[j]))
        {
          assert more[j] in more;
          assert Ahead(next.value, Of(more[j]));
          if i < |rows| - 1 {
            assert Ahead(Of(rows[i]), next.value);
            AheadIsStrict(Of(rows[i]), next.value, Of(more[j]));
          }
        }
        forall t | t in more
          ensures Follows(after, t)
        {
          if after.Some? {
            AheadIsStrict(after.value, next.value, Of(t));
          }
        }
      }
    }
  }

  // A row of this date and id is listed, whatever else about it changed.
  ghost predicate Listed(list: seq<Thread>, c: Cursor) {
    exists t :: t in list && Of(t) == c
  }

  // A walk that stops has seen every thread that was listed throughout at one date.
  lemma {:induction false} WalkMissesNothing(lists: seq<seq<Thread>>, after: Option<Cursor>, limit: nat, c: Cursor)
    requires forall list | list in lists :: Descending(list) && Listed(list, c)
    requires limit >= 1 && Stops(lists, after, limit) && (after.Some? ==> Ahead(after.value, c))
    ensures Listed(Walk(lists, after, limit), c)
  {
    hide Ahead, Remaining, Rows, NextOf;
    var list := lists[0];
    var rows := Rows(list, after, None, limit);
    var next := NextOf(list, rows);
    var k := RowsAreAFront(list, after, limit);
    NextIs(list, after, limit, k);
    assert Listed(list, c);
    var t :| t in list && Of(t) == c;
    var i :| 0 <= i < |list| && list[i] == t;
    assert i >= k;
    if i < k + |rows| {
      assert rows[i - k] == t;
      assert t in Walk(lists, after, limit);
    } else {
      assert Ahead(Of(list[k + limit - 1]), Of(list[i]));
      WalkMissesNothing(lists[1..], next, limit, c);
      var seen :| seen in Walk(lists[1..], next, limit) && Of(seen) == c;
      assert seen in Walk(lists, after, limit);
    }
  }

  // ---- whether a thread is seen twice ----

  ghost predicate OneDateAnId(ts: seq<Thread>) {
    forall t, u | t in ts && u in ts && t.id == u.id :: t.date == u.date
  }

  // A walk shows no thread twice exactly when it shows each thread at one date.
  lemma WalkNeverRepeatsIff(lists: seq<seq<Thread>>, after: Option<Cursor>, limit: nat)
    requires forall list | list in lists :: Descending(list)
    ensures DistinctIds(Walk(lists, after, limit)) <==> OneDateAnId(Walk(lists, after, limit))
  {
    WalkKeepsOrder(lists, after, limit);
    var walk := Walk(lists, after, limit);
    if DistinctIds(walk) {
      forall t, u | t in walk && u in walk && t.id == u.id
        ensures t.date == u.date
      {
        var i :| 0 <= i < |walk| && walk[i] == t;
        var j :| 0 <= j < |walk| && walk[j] == u;
        assert i == j;
      }
    }
    if OneDateAnId(walk) {
      forall i, j | 0 <= i < j < |walk|
        ensures walk[i].id != walk[j].id
      {
        assert walk[i] in walk && walk[j] in walk;
        assert Ahead(Of(walk[i]), Of(walk[j]));
      }
    }
  }

  lemma {:induction false} WalkShowsListedRows(lists: seq<seq<Thread>>, after: Option<Cursor>, limit: nat, t: Thread)
    requires forall list | list in lists :: Descending(list)
    requires t in Walk(lists, after, limit)
    ensures exists list :: list in lists && t in list
  {
    hide Remaining, Rows, NextOf, Descending;
    var rows := Rows(lists[0], after, None, limit);
    var next := NextOf(lists[0], rows);
    if t in rows {
      var k := RowsAreAFront(lists[0], after, limit);
      assert lists[0] in lists && t in lists[0];
    } else {
      WalkShowsListedRows(lists[1..], next, limit, t);
      var list :| list in lists[1..] && t in list;
      assert list in lists;
    }
  }

  // While no thread changes its date, none is shown twice, whatever comes, goes or
  // changes otherwise between the pages.
  lemma UndatedChangesRepeatNothing(lists: seq<seq<Thread>>, after: Option<Cursor>, limit: nat)
    requires forall list | list in lists :: Descending(list)
    requires forall x, y, t, u | x in lists && y in lists && t in x && u in y && t.id == u.id :: t.date == u.date
    ensures DistinctIds(Walk(lists, after, limit))
  {
    var walk := Walk(lists, after, limit);
    forall t, u | t in walk && u in walk && t.id == u.id
      ensures t.date == u.date
    {
      WalkShowsListedRows(lists, after, limit, t);
      WalkShowsListedRows(lists, after, limit, u);
    }
    WalkNeverRepeatsIff(lists, after, limit);
  }

  // A thread shown on the first page that then moves behind that page, and stays
  // listed there, is shown again by every walk that runs to its end.
  lemma MovedBackIsShownAgain(lists: seq<seq<Thread>>, after: Option<Cursor>, limit: nat, t: Thread, c: Cursor)
    requires forall list | list in lists :: Descending(list)
    requires limit >= 1 && Stops(lists, after, limit)
    requires var rows := Rows(lists[0], after, None, limit);
             var next := NextOf(lists[0], rows);
             t in rows && next.Some? && c.id == t.id && Ahead(next.value, c)
    requires forall list | list in lists[1..] :: Listed(list, c)
    ensures !DistinctIds(Walk(lists, after, limit))
  {
    hide Ahead, Rows, NextOf;
    var rows := Rows(lists[0], after, None, limit);
    var next := NextOf(lists[0], rows);
    WalkMissesNothing(lists[1..], next, limit, c);
    var more := Walk(lists[1..], next, limit);
    var again :| again in more && Of(again) == c;
    var walk := Walk(lists, after, limit);
    var i :| 0 <= i < |rows| && rows[i] == t;
    var j :| 0 <= j < |more| && more[j] == again;
    assert walk[i].id == walk[|rows| + j].id;
  }

  // It happens: one thread a page, and `a` falls behind `b` once it has been shown.
  function Redated(): seq<seq<Thread>> {
    var b, late := Thread("b", 8, ""), Thread("a", 5, "");
    [[Thread("a", 10, ""), b], [b, late], [b, late]]
  }

  lemma RedatedThreadIsShownTwice()
    ensures forall list | list in Redated() :: Descending(list) && DistinctIds(list)
    ensures Stops(Redated(), None, 1)
    ensures Walk(Redated(), None, 1) == [Thread("a", 10, ""), Thread("b", 8, ""), Thread("a", 5, "")]
  {
    hide Walk, Stops, Rows, NextOf, Behind;
    var a, b, late := Thread("a", 10, ""), Thread("b", 8, ""), Thread("a", 5, "");
    var lists := Redated();
    RedatedDescends(a, b);
    RedatedDescends(b, late);
    assert lists[0] == [a, b] && lists[1..][0] == [b, late] && lists[1..][1..] == [[b, late]];
    WalkStep(lists, None, a, Some(Of(a)));
    BehindIsTail([b, late], Of(a), 0);
    WalkStep(lists[1..], Some(Of(a)), b, Some(Of(b)));
    BehindIsTail([b, late], Of(b), 1);
    WalkStep(lists[1..][1..], Some(Of(b)), late, None);
    assert [a] + ([b] + ([late] + [])) == [a, b, late];
  }

  lemma RedatedDescends(t: Thread, u: Thread)
    requires t.date > u.date && t.id != u.id
    ensures Descending([t, u]) && DistinctIds([t, u])
  {
  }

  // One page of one row.
  lemma WalkStep(lists: seq<seq<Thread>>, after: Option<Cursor>, row: Thread, next: Option<Cursor>)
    requires lists != [] && Remaining(lists[0], after) != [] && Remaining(lists[0], after)[0] == row
    requires lists[0] != [] && Descending(lists[0])
    requires next == if lists[0][|lists[0]| - 1] == row then None else Some(Of(row))
    ensures Walk(lists, after, 1) == [row] + if next.Some? then Walk(lists[1..], next, 1) else []
    ensures Stops(lists, after, 1) <==> next.None? || Stops(lists[1..], next, 1)
  {
    var k := RowsAreAFront(lists[0], after, 1);
    assert Rows(lists[0], after, None, 1) == [row];
  }

  // Over a list that stands still, the walk is the list: it stops within one page a
  // thread, having seen each thread behind its start once, in order.
  lemma {:induction false} WalkIsTheList(lists: seq<seq<Thread>>, list: seq<Thread>, after: Option<Cursor>, limit: nat)
    requires Descending(list) && limit >= 1
    requires forall i | 0 <= i < |lists| :: lists[i] == list
    requires |lists| > |Remaining(list, after)|
    ensures Stops(lists, after, limit) && Walk(lists, after, limit) == Remaining(list, after)
  {
    hide Ahead, Rows, Behind, NextOf;
    var k := RowsAreAFront(list, after, limit);
    NextIs(list, after, limit, k);
    if |list| - k > limit {
      BehindLast(list, k + limit);
      WalkIsTheList(lists[1..], list, Some(Of(list[k + limit - 1])), limit);
      assert list[k..][..limit] + list[k + limit..] == list[k..];
    } else {
      assert list[k..] + [] == list[k..];
    }
  }

  // ---- date headers ----

  datatype ListRow = Header(group: CivilDate.Group) | Row(thread: Thread)

  function GroupOf(t: Thread, now: int): CivilDate.Group {
    CivilDate.GroupLabel(t.date, now)
  }

  // The label in force after `ts`.
  function Carried(ts: seq<Thread>, now: int, last: Option<CivilDate.Group>): Option<CivilDate.Group> {
    if ts == [] then last else Some(GroupOf(ts[|ts| - 1], now))
  }

  function Stamped(ts: seq<Thread>, now: int, last: Option<CivilDate.Group>): seq<ListRow> {
    if ts == [] then []
    else
      var n := |ts| - 1;
      var group := GroupOf(ts[n], now);
      Stamped(ts[..n], now, last)
      + (if Carried(ts[..n], now, last) != Some(group) then [Header(group)] else []) + [Row(ts[n])]
  }

  // stamp_headers
  method StampHeaders(threads: seq<Thread>, now: int, carried: Option<CivilDate.Group>)
    returns (rows: seq<ListRow>, last: Option<CivilDate.Group>)
    ensures rows == Stamped(threads, now, carried) && last == Carried(threads, now, carried)
  {
    rows, last := [], carried;
    for i := 0 to |threads|
      invariant rows == Stamped(threads[..i], now, carried) && last == Carried(threads[..i], now, carried)
    {
      assert threads[..i + 1][..i] == threads[..i];
      var group := CivilDate.GroupLabel(threads[i].date, now);
      if last != Some(group) {
        rows := rows + [Header(group)];
        last := Some(group);
      }
      rows := rows + [Row(threads[i])];
    }
    assert threads[..|threads|] == threads;
  }

  // Stamping page by page with the carried label is stamping the whole.
  lemma {:induction false} StampedInPages(a: seq<Thread>, b: seq<Thread>, now: int, last: Option<CivilDate.Group>)
    ensures Stamped(a + b, now, last) == Stamped(a, now, last) + Stamped(b, now, Carried(a, now, last))
    ensures Carried(a + b, now, last) == Carried(b, now, Carried(a, now, last))
  {
    hide GroupOf;
    if b == [] {
      assert a + b == a;
    } else {
      var n := |b| - 1;
      assert (a + b)[..|a + b| - 1] == a + b[..n];
      StampedInPages(a, b[..n], now, last);
    }
  }

  // list_rows
  ghost function ListRows(list: seq<Thread>, now: int): seq<ListRow> {
    Stamped(list, now, None)
  }

  ghost function WalkRows(lists: seq<seq<Thread>>, after: Option<Cursor>, limit: nat, now: int,
                          last: Option<CivilDate.Group>): seq<ListRow>
  {
    if lists == [] then []
    else
      var rows := Rows(lists[0], after, None, limit);
      var next := NextOf(lists[0], rows);
      Stamped(rows, now, last)
      + if next.Some? then WalkRows(lists[1..], next, limit, now, Carried(rows, now, last)) else []
  }

  lemma {:induction false} WalkRowsAreStamped(lists: seq<seq<Thread>>, after: Option<Cursor>, limit: nat, now: int,
                                              last: Option<CivilDate.Group>)
    ensures WalkRows(lists, after, limit, now, last) == Stamped(Walk(lists, after, limit), now, last)
  {
    assert Stamped([], now, last) == [];
    hide Rows, Stamped, Carried;
    if lists != [] {
      var rows := Rows(lists[0], after, None, limit);
      var next := NextOf(lists[0], rows);
      if next.Some? {
        WalkRowsAreStamped(lists[1..], next, limit, now, Carried(rows, now, last));
        StampedInPages(rows, Walk(lists[1..], next, limit), now, last);
      } else {
        assert rows + [] == rows;
      }
    }
  }

  // The rows built page by page are those of list_rows.
  lemma PagedRowsAreListRows(lists: seq<seq<Thread>>, list: seq<Thread>, limit: nat, now: int)
    requires Descending(list) && limit >= 1
    requires |lists| > |list| && forall i | 0 <= i < |lists| :: lists[i] == list
    ensures WalkRows(lists, None, limit, now, None) == ListRows(list, now)
  {
    hide Walk, WalkRows, Stamped;
    WalkIsTheList(lists, list, None, limit);
    WalkRowsAreStamped(lists, None, limit, now, None);
  }

  function Depth(group: CivilDate.Group): nat {
    match group
    case Today => 0
    case Yesterday => 1
    case ThisWeek => 2
    case Older => 3
  }

  lemma OlderIsDeeper(a: Thread, b: Thread, now: int)
    requires a.date >= b.date
    ensures Depth(GroupOf(a, now)) <= Depth(GroupOf(b, now))
  {
    assert a.date / 86_400 >= b.date / 86_400;
  }

  // Headers go down in age, so that none stands twice.
  ghost predicate HeadersDescend(rows: seq<ListRow>) {
    forall i, j | 0 <= i < j < |rows| && rows[i].Header? && rows[j].Header? ::
      Depth(rows[i].group) < Depth(rows[j].group)
  }

  // Row i stands under the header of its own group.
  ghost predicate StandsUnder(rows: seq<ListRow>, i: nat, now: int)
    requires i < |rows| && rows[i].Row?
  {
    exists h: nat | h < i ::
      rows[h] == Header(GroupOf(rows[i].thread, now)) && forall k | h < k <= i :: rows[k].Row?
  }

  // Rows in this shape, the last of them `prev`'s.
  ghost predicate Neat(rows: seq<ListRow>, prev: Option<Thread>, now: int) {
    && HeadersDescend(rows)
    && (forall i: nat | i < |rows| && rows[i].Row? :: StandsUnder(rows, i, now))
    && if prev.Some? then rows != [] && rows[|rows| - 1] == Row(prev.value) else rows == []
  }

  // The rows that one more thread adds.
  function NextRows(prev: Option<Thread>, t: Thread, now: int): seq<ListRow> {
    if prev.Some? && GroupOf(prev.value, now) == GroupOf(t, now) then [Row(t)] else [Header(GroupOf(t, now)), Row(t)]
  }

  lemma NextHeaderDescends(rows: seq<ListRow>, prev: Option<Thread>, t: Thread, now: int)
    requires Neat(rows, prev, now)
    requires prev.Some? ==> Depth(GroupOf(prev.value, now)) <= Depth(GroupOf(t, now))
    ensures HeadersDescend(rows + NextRows(prev, t, now))
  {
    DepthInjective(GroupOf(t, now));
    hide GroupOf, Depth;
    if prev.Some? {
      var m := |rows| - 1;
      assert StandsUnder(rows, m, now);
      var h: nat :| h < m && rows[h] == Header(GroupOf(prev.value, now)) && forall k | h < k <= m :: rows[k].Row?;
      assert forall i | 0 <= i < |rows| && rows[i].Header? :: Depth(rows[i].group) <= Depth(GroupOf(prev.value, now));
    }
  }

  lemma NextRowStandsUnder(rows: seq<ListRow>, prev: Option<Thread>, t: Thread, now: int)
    requires Neat(rows, prev, now)
    ensures var more := rows + NextRows(prev, t, now);
            StandsUnder(more, |more| - 1, now)
  {
    hide GroupOf;
    var more := rows + NextRows(prev, t, now);
    if prev.Some? && GroupOf(prev.value, now) == GroupOf(t, now) {
      var m := |rows| - 1;
      assert StandsUnder(rows, m, now);
      var h: nat :| h < m && rows[h] == Header(GroupOf(prev.value, now)) && forall k | h < k <= m :: rows[k].Row?;
      assert more[h] == Header(GroupOf(t, now));
    } else {
      assert more[|rows|] == Header(GroupOf(t, now));
    }
  }

  // In a list in order, each date header stands at most once, and every thread stands
  // under the header of its own group.
  lemma {:induction false} HeadersStandOnce(list: seq<Thread>, now: int)
    requires Descending(list)
    ensures Neat(ListRows(list, now), if list == [] then None else Some(list[|list| - 1]), now)
  {
    hide GroupOf, Depth, HeadersDescend, StandsUnder;
    if list == [] {
      assert HeadersDescend([]) by { NoHeaders(); }
    } else {
      var n := |list| - 1;
      HeadersStandOnce(list[..n], now);
      var prev := if n == 0 then None else Some(list[n - 1]);
      if n > 0 {
        assert Ahead(Of(list[n - 1]), Of(list[n]));
        OlderIsDeeper(list[n - 1], list[n], now);
      }
      var before := ListRows(list[..n], now);
      NextHeaderDescends(before, prev, list[n], now);
      NextRowStandsUnder(before, prev, list[n], now);
      var more := NextRows(prev, list[n], now);
      assert ListRows(list, now) == before + more;
      forall i: nat | i < |before| && before[i].Row?
        ensures StandsUnder(before + more, i, now)
      {
        StandsUnderLonger(before, more, i, now);
      }
    }
  }

  lemma NoHeaders()
    ensures HeadersDescend([])
  {
  }

  lemma StandsUnderLonger(before: seq<ListRow>, extra: seq<ListRow>, i: nat, now: int)
    requires i < |before| && before[i].Row? && StandsUnder(before, i, now)
    ensures StandsUnder(before + extra, i, now)
  {
    hide GroupOf;
    var rows := before + extra;
    var h: nat :| h < i && before[h] == Header(GroupOf(before[i].thread, now))
                  && forall k | h < k <= i :: before[k].Row?;
    assert rows[h] == before[h];
  }

  lemma DepthInjective(group: CivilDate.Group)
    ensures forall other :: Depth(other) == Depth(group) ==> other == group
  {
  }
}
