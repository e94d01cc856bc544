// What one step of the body cache can do to one row, one file and one handle, and
// what it answers (crates/core/src/body.rs:350-497, 676-753); and an eviction carried
// through.
module BodySteps {
  import opened Wrappers
  import opened BodyCrash

  // No row, or whether its pointer is set.
  function RowOf(rows: map<Id, bool>, id: Id): Option<bool> {
    if id in rows then Some(rows[id]) else None
  }

  function FileOf(files: map<Id, Bytes>, id: Id): Option<Bytes> {
    if id in files then Some(files[id]) else None
  }

  // A row comes and goes as a row, its pointer unset; the pointer is set by the commit
  // of a store, and unset by that of an eviction or by a lookup that misses the file.
  lemma RowChangesOnlySo(w: World, e: Event, id: Id)
    requires Enabled(w, e)
    ensures var was, now := RowOf(w.pointers, id), RowOf(Step(w, e).0.pointers, id);
            now == match e
                   case AddRow(x) => if x == id then Some(false) else was
                   case DropRow(x) => if x == id then None else was
                   case CommitPointer(h) => if w.ops[h].id == id && was.Some? then Some(true) else was
                   case CommitEvict(h) => if id in w.ops[h].victims && was.Some? then Some(false) else was
                   case ReadFile(h, healFails) =>
                     if w.ops[h].id == id && id !in w.files && !healFails && was.Some? then Some(false) else was
                   case Crash(_, _, lost) =>
                     if lost == 0 then was else RowOf(w.earlier[|w.earlier| - lost], id)
                   case _ => was
  {
  }

  // A file comes by a rename, as what the sibling holds, and goes by an unlink that
  // succeeds.
  lemma FileChangesOnlySo(w: World, e: Event, id: Id)
    requires Enabled(w, e)
    ensures var was, now := FileOf(w.files, id), FileOf(Step(w, e).0.files, id);
            now == match e
                   case Rename(h) => if w.ops[h].id == id then Some(w.partial[id]) else was
                   case Unlink(h) => if w.ops[h].victims[w.ops[h].unlinked] == id then None else was
                   case Crash(files, _, _) => FileOf(files, id)
                   case _ => was
  {
  }

  // A crash may lose any of the last commits, and those alone.
  lemma HistoryGrowsByCommits(w: World, e: Event)
    requires Enabled(w, e)
    ensures var now := Step(w, e).0;
            now.earlier ==
            match e
            case Crash(_, _, lost) => w.earlier[..|w.earlier| - lost]
            case CommitPointer(_) => w.earlier + [w.pointers]
            case CommitEvict(_) => w.earlier + [w.pointers]
            case AddRow(_) => w.earlier + [w.pointers]
            case DropRow(_) => w.earlier + [w.pointers]
            case ReadFile(h, healFails) =>
              if w.ops[h].id in w.files || healFails then w.earlier else w.earlier + [w.pointers]
            case _ => w.earlier
  {
  }

  // A handle's next state; `None` is idle. No step moves another handle, but a crash
  // ends them all.
  lemma HandleMovesOnlySo(w: World, e: Event, h: nat)
    requires Enabled(w, e)
    ensures var was := if h in w.ops then Some(w.ops[h]) else None;
            var now := if h in Step(w, e).0.ops then Some(Step(w, e).0.ops[h]) else None;
            now == match e
                   case StartStore(g, id, contents) =>
                     if g == h && id in w.pointers then Some(Opening(id, contents)) else was
                   case OpenSibling(g) => if g == h then Some(Writing(w.ops[h].id, w.ops[h].contents, 0)) else was
                   case WriteMore(g, upTo) =>
                     if g == h then Some(Writing(w.ops[h].id, w.ops[h].contents, upTo)) else was
                   case Rename(g) => if g == h then Some(Renamed(w.ops[h].id, w.ops[h].contents)) else was
                   case CommitPointer(g) => if g == h then None else was
                   case StartEvict(g, victims) => if g == h then Some(Evicting(victims, 0)) else was
                   case Unlink(g) =>
                     if g == h then Some(Evicting(w.ops[h].victims, w.ops[h].unlinked + 1)) else was
                   case UnlinkFails(g) =>
                     if g == h then Some(Evicting(w.ops[h].victims, w.ops[h].unlinked + 1)) else was
                   case CommitEvict(g) => if g == h then None else was
                   case StartLookup(g, id) => if g == h && Points(w.pointers, id) then Some(Reading(id)) else was
                   case ReadFile(g, _) => if g == h then None else was
                   case Abort(g) => if g == h then None else was
                   case Crash(_, _, _) => None
                   case AddRow(_) => was
                   case DropRow(_) => was
  {
  }

  // What the caller is told. An unknown message is told apart from one without a
  // cached body, and a missing file counts as no cached body.
  lemma AnswersAre(w: World, e: Event)
    requires Enabled(w, e)
    ensures Step(w, e).1 ==
            match e
            case StartStore(_, id, _) => if id in w.pointers then Nothing else MessageNotFound
            case CommitPointer(h) => if w.ops[h].id in w.pointers then Nothing else MessageNotFound
            case StartLookup(_, id) =>
              (match RowOf(w.pointers, id)
               case None => MessageNotFound
               case Some(false) => NotCached
               case Some(true) => Nothing)
            case ReadFile(h, _) =>
              (match FileOf(w.files, w.ops[h].id)
               case None => NotCached
               case Some(contents) => Cached(contents))
            case Abort(_) => Failed
            case _ => Nothing
  {
  }

  // ---- an eviction carried through ----

  ghost function EvictSteps(h: nat, victims: seq<Id>): seq<Event> {
    [StartEvict(h, victims)] + seq(|victims|, i => Unlink(h)) + [CommitEvict(h)]
  }

  // After some of the unlinks: those files are gone, and nothing else has changed.
  ghost predicate PartWay(w: World, now: World, h: nat, victims: seq<Id>, n: nat)
    requires n <= |victims|
  {
    && now.pointers == w.pointers && h in now.ops && now.ops[h] == Evicting(victims, n)
    && (forall id :: FileOf(now.files, id) == if id in victims[..n] then None else FileOf(w.files, id))
  }

  lemma UnlinkGoesOn(w: World, now: World, h: nat, victims: seq<Id>, n: nat)
    requires n < |victims| && PartWay(w, now, h, victims, n)
    ensures Enabled(now, Unlink(h)) && PartWay(w, Step(now, Unlink(h)).0, h, victims, n + 1)
  {
    var next := Step(now, Unlink(h)).0;
    assert victims[..n + 1] == victims[..n] + [victims[n]];
    forall id
      ensures FileOf(next.files, id) == if id in victims[..n + 1] then None else FileOf(w.files, id)
    {
      FileChangesOnlySo(now, Unlink(h), id);
    }
  }

  lemma EvictionStarts(w: World, h: nat, victims: seq<Id>)
    requires h !in w.ops
    ensures Enabled(w, StartEvict(h, victims)) && PartWay(w, Step(w, StartEvict(h, victims)).0, h, victims, 0)
  {
  }

  lemma OneMore(w: World, es: seq<Event>, i: nat)
    requires i < |es|
    ensures After(w, es, i + 1) == Step(After(w, es, i), es[i]).0 && After(w, es, 0) == w
  {
    hide Step;
  }

  lemma {:induction false} EvictionGoesOn(w: World, h: nat, victims: seq<Id>, n: nat)
    requires h !in w.ops && n <= |victims|
    ensures var es := EvictSteps(h, victims);
            && PartWay(w, After(w, es, n + 1), h, victims, n)
            && forall i | 0 <= i <= n :: Enabled(After(w, es, i), es[i])
  {
    var es := EvictSteps(h, victims);
    hide Step, PartWay, Enabled, After;
    OneMore(w, es, n);
    if n == 0 {
      EvictionStarts(w, h, victims);
    } else {
      EvictionGoesOn(w, h, victims, n - 1);
      UnlinkGoesOn(w, After(w, es, n), h, victims, n - 1);
    }
  }

  lemma EvictionEnds(w: World, last: World, h: nat, victims: seq<Id>, id: Id)
    requires PartWay(w, last, h, victims, |victims|)
    ensures var after := Step(last, CommitEvict(h)).0;
            && Enabled(last, CommitEvict(h))
            && FileOf(after.files, id) == (if id in victims then None else FileOf(w.files, id))
            && RowOf(after.pointers, id)
               == (if id in victims && id in w.pointers then Some(false) else RowOf(w.pointers, id))
  {
    assert victims[..|victims|] == victims;
    RowChangesOnlySo(last, CommitEvict(h), id);
    FileChangesOnlySo(last, CommitEvict(h), id);
  }

  // Its victims end without file and pointer, every other body as it was.
  lemma EvictionEvicts(w: World, h: nat, victims: seq<Id>, id: Id)
    requires h !in w.ops
    ensures var es := EvictSteps(h, victims);
            var after := After(w, es, |es|);
            && Run(w, es)
            && FileOf(after.files, id) == (if id in victims then None else FileOf(w.files, id))
            && RowOf(after.pointers, id)
               == (if id in victims && id in w.pointers then Some(false) else RowOf(w.pointers, id))
  {
    var es, n := EvictSteps(h, victims), |victims|;
    hide Step, PartWay, Enabled, After;
    EvictionGoesOn(w, h, victims, n);
    EvictionEnds(w, After(w, es, n + 1), h, victims, id);
    OneMore(w, es, n + 1);
  }
}
