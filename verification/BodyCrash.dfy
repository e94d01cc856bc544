// Cached bodies between the disk and the database (crates/core/src/body.rs), one
// step per file opened, write, rename, unlink and commit, with several handles at
// work, any of which may fail, and a crash allowed between any two steps. Cache
// paths are taken to be distinct, so files are named by the message id; `partial`
// is the `.tmp` sibling.
module BodyCrash {
  import opened Wrappers

  type Id = string
  type Bytes = seq<int>

  datatype Op =
    | Opening(id: Id, contents: Bytes)              // the row was seen, the sibling is not open yet
    | Writing(id: Id, contents: Bytes, done: nat)   // the sibling holds this many bytes
    | Renamed(id: Id, contents: Bytes)              // the file is in place, the pointer is not
    | Evicting(victims: seq<Id>, unlinked: nat)
    | Reading(id: Id)                               // the pointer was read, the file was not

  datatype World = World(
    files: map<Id, Bytes>,
    partial: map<Id, Bytes>,
    pointers: map<Id, bool>,          // one row per message: is body_path set
    earlier: seq<map<Id, bool>>,      // what it was before each of the commits since
    ops: map<nat, Op>,                // what each handle is in the middle of
    given: set<(Id, Bytes)>,          // every (id, contents) store_body was called with
    renamed: set<(Id, Bytes)>)        // every version that was ever put in place

  datatype Event =
    | StartStore(h: nat, id: Id, contents: Bytes)
    | OpenSibling(h: nat)             // creates the sibling, or empties it
    | WriteMore(h: nat, upTo: nat)
    | Rename(h: nat)
    | CommitPointer(h: nat)
    | StartEvict(h: nat, victims: seq<Id>)
    | Unlink(h: nat)
    | UnlinkFails(h: nat)             // the error is dropped, the sweep goes on
    | CommitEvict(h: nat)
    | StartLookup(h: nat, id: Id)
    | ReadFile(h: nat, healFails: bool)
    | Abort(h: nat)                   // an open, write, rename, commit or read returns its error
    | Crash(files: map<Id, Bytes>, partial: map<Id, Bytes>, lost: nat)   // with the last `lost` commits
    | AddRow(id: Id)
    | DropRow(id: Id)

  datatype Answer = Nothing | MessageNotFound | Failed | NotCached | Cached(contents: Bytes)

  // A crash may undo any rename or unlink the disk had not made durable: each file
  // is then absent or some version that was once in place. The siblings may hold anything.
  // The database is whole but may have lost its last commits: its log is synced at
  // checkpoints only.
  ghost predicate CrashImage(w: World, files: map<Id, Bytes>) {
    forall id | id in files :: (id, files[id]) in w.renamed
  }

  // When a step can be taken at all. Only StartStore carries a condition of the
  // callers': no other handle is writing the same body.
  ghost predicate Enabled(w: World, e: Event) {
    match e
    case StartStore(h, id, contents) => h !in w.ops && !BeingWritten(w, id)
    case OpenSibling(h) => h in w.ops && w.ops[h].Opening?
    case WriteMore(h, upTo) => h in w.ops && w.ops[h].Writing? && w.ops[h].done <= upTo <= |w.ops[h].contents|
    case Rename(h) =>
      h in w.ops && w.ops[h].Writing? && w.ops[h].done == |w.ops[h].contents| && w.ops[h].id in w.partial
    case CommitPointer(h) => h in w.ops && w.ops[h].Renamed?
    case StartEvict(h, victims) => h !in w.ops
    case Unlink(h) => h in w.ops && w.ops[h].Evicting? && w.ops[h].unlinked < |w.ops[h].victims|
    case UnlinkFails(h) => h in w.ops && w.ops[h].Evicting? && w.ops[h].unlinked < |w.ops[h].victims|
    case CommitEvict(h) => h in w.ops && w.ops[h].Evicting? && w.ops[h].unlinked == |w.ops[h].victims|
    case StartLookup(h, id) => h !in w.ops
    case ReadFile(h, _) => h in w.ops && w.ops[h].Reading?
    case Abort(h) => h in w.ops
    case Crash(files, _, lost) => CrashImage(w, files) && lost <= |w.earlier|
    case AddRow(id) => id !in w.pointers
    case DropRow(id) => true
  }

  ghost predicate BeingWritten(w: World, id: Id) {
    exists h | h in w.ops :: AtSibling(w.ops[h]) && w.ops[h].id == id
  }

  // This handle has a sibling open, or is about to open it.
  predicate AtSibling(op: Op) {
    op.Opening? || op.Writing?
  }

  function SetPointer(pointers: map<Id, bool>, id: Id, value: bool): map<Id, bool> {
    if id in pointers then pointers[id := value] else pointers
  }

  function ClearPointers(pointers: map<Id, bool>, victims: seq<Id>): map<Id, bool> {
    map id | id in pointers :: if id in victims then false else pointers[id]
  }

  function Commit(w: World, pointers: map<Id, bool>): World {
    w.(pointers := pointers, earlier := w.earlier + [w.pointers])
  }

  // The rows as they were `lost` commits ago.
  function RowsBefore(w: World, lost: nat): map<Id, bool> {
    if 0 < lost <= |w.earlier| then w.earlier[|w.earlier| - lost] else w.pointers
  }

  ghost function Step(w: World, e: Event): (World, Answer) {
    match e
    case StartStore(h, id, contents) =>
      if id !in w.pointers then (w, MessageNotFound)
      else
        (w.(ops := w.ops[h := Opening(id, contents)], given := w.given + {(id, contents)}), Nothing)
    case OpenSibling(h) =>
      if h in w.ops && w.ops[h].Opening? then
        var op := w.ops[h];
        (w.(ops := w.ops[h := Writing(op.id, op.contents, 0)], partial := w.partial[op.id := []]), Nothing)
      else (w, Nothing)
    case WriteMore(h, upTo) =>
      if h in w.ops && w.ops[h].Writing? && upTo <= |w.ops[h].contents| then
        var op := w.ops[h];
        (w.(ops := w.ops[h := op.(done := upTo)], partial := w.partial[op.id := op.contents[..upTo]]), Nothing)
      else (w, Nothing)
    case Rename(h) =>
      if h in w.ops && w.ops[h].Writing? && w.ops[h].id in w.partial then
        var op := w.ops[h];
        var inPlace := w.partial[op.id];
        (w.(ops := w.ops[h := Renamed(op.id, op.contents)], files := w.files[op.id := inPlace],
            partial := w.partial - {op.id}, renamed := w.renamed + {(op.id, inPlace)}), Nothing)
      else (w, Nothing)
    case CommitPointer(h) =>
      if h in w.ops && w.ops[h].Renamed? then
        var id := w.ops[h].id;
        (Commit(w, SetPointer(w.pointers, id, true)).(ops := w.ops - {h}),
         if id in w.pointers then Nothing else MessageNotFound)
      else (w, Nothing)
    case StartEvict(h, victims) => (w.(ops := w.ops[h := Evicting(victims, 0)]), Nothing)
    case Unlink(h) =>
      if h in w.ops && w.ops[h].Evicting? && w.ops[h].unlinked < |w.ops[h].victims| then
        var op := w.ops[h];
        (w.(ops := w.ops[h := op.(unlinked := op.unlinked + 1)], files := w.files - {op.victims[op.unlinked]}),
         Nothing)
      else (w, Nothing)
    case UnlinkFails(h) =>
      if h in w.ops && w.ops[h].Evicting? && w.ops[h].unlinked < |w.ops[h].victims| then
        (w.(ops := w.ops[h := w.ops[h].(unlinked := w.ops[h].unlinked + 1)]), Nothing)
      else (w, Nothing)
    case CommitEvict(h) =>
      if h in w.ops && w.ops[h].Evicting? then
        (Commit(w, ClearPointers(w.pointers, w.ops[h].victims)).(ops := w.ops - {h}), Nothing)
      else (w, Nothing)
    case StartLookup(h, id) =>
      if id !in w.pointers then (w, MessageNotFound)
      else if !w.pointers[id] then (w, NotCached)
      else (w.(ops := w.ops[h := Reading(id)]), Nothing)
    case ReadFile(h, healFails) =>
      if h in w.ops && w.ops[h].Reading? then
        var id := w.ops[h].id;
        if id in w.files then (w.(ops := w.ops - {h}), Cached(w.files[id]))
        else if healFails then (w.(ops := w.ops - {h}), NotCached)
        else (Commit(w, SetPointer(w.pointers, id, false)).(ops := w.ops - {h}), NotCached)
      else (w, Nothing)
    case Abort(h) => (w.(ops := w.ops - {h}), Failed)
    case Crash(files, partial, lost) =>
      (w.(files := files, partial := partial, ops := map[], pointers := RowsBefore(w, lost),
          earlier := if lost <= |w.earlier| then w.earlier[..|w.earlier| - lost] else w.earlier), Nothing)
    case AddRow(id) => (Commit(w, w.pointers[id := false]), Nothing)
    case DropRow(id) => (Commit(w, w.pointers - {id}), Nothing)
  }

  // ---- the invariant ----

  // Files are complete versions; a body being written has exactly its own bytes in
  // the sibling, and nobody else writes there.
  ghost predicate Sound(w: World) {
    && w.renamed <= w.given
    && (forall id | id in w.files :: (id, w.files[id]) in w.renamed)
    && (forall h | h in w.ops && w.ops[h].Opening? :: (w.ops[h].id, w.ops[h].contents) in w.given)
    && (forall h | h in w.ops && w.ops[h].Writing? ::
          && (w.ops[h].id, w.ops[h].contents) in w.given
          && w.ops[h].done <= |w.ops[h].contents|
          && w.ops[h].id in w.partial
          && w.partial[w.ops[h].id] == w.ops[h].contents[..w.ops[h].done])
    && (forall g, h | g in w.ops && h in w.ops && AtSibling(w.ops[g]) && AtSibling(w.ops[h])
                      && w.ops[g].id == w.ops[h].id :: g == h)
  }

  ghost predicate Fresh(w: World) {
    w.files == map[] && w.ops == map[] && w.earlier == [] && w.given == {} && w.renamed == {}
  }

  lemma StepKeepsSound(w: World, e: Event)
    requires Sound(w) && Enabled(w, e)
    ensures Sound(Step(w, e).0)
  {
    if e.StartStore? || e.OpenSibling? || e.WriteMore? {
      WritingKeepsSound(w, e);
    } else if e.Rename? {
      RenamingKeepsSound(w, e.h);
    } else {
      OtherStepsKeepSound(w, e);
    }
  }

  lemma WritingKeepsSound(w: World, e: Event)
    requires Sound(w) && Enabled(w, e) && (e.StartStore? || e.OpenSibling? || e.WriteMore?)
    ensures Sound(Step(w, e).0)
  {
  }

  lemma RenamingKeepsSound(w: World, h: nat)
    requires Sound(w) && Enabled(w, Rename(h))
    ensures Sound(Step(w, Rename(h)).0)
  {
    var op := w.ops[h];
    assert op.contents[..|op.contents|] == op.contents;
  }

  lemma OtherStepsKeepSound(w: World, e: Event)
    requires Sound(w) && Enabled(w, e) && !e.StartStore? && !e.OpenSibling? && !e.WriteMore? && !e.Rename?
    ensures Sound(Step(w, e).0)
  {
    if e.Crash? {
      hide CrashImage;
      CrashKeepsSound(w, e);
    } else {
      hide Sound;
      OnlyLess(w, e);
      LessIsSound(w, Step(w, e).0);
    }
  }

  lemma CrashKeepsSound(w: World, e: Event)
    requires Sound(w) && Enabled(w, e) && e.Crash?
    ensures Sound(Step(w, e).0)
  {
  }

  lemma OnlyLess(w: World, e: Event)
    requires !e.StartStore? && !e.OpenSibling? && !e.WriteMore? && !e.Rename? && !e.Crash?
    ensures var w' := Step(w, e).0;
            && w'.given == w.given && w'.renamed == w.renamed && w'.partial == w.partial
            && (forall id | id in w'.files :: id in w.files && w'.files[id] == w.files[id])
            && (forall h | h in w'.ops && AtSibling(w'.ops[h]) :: h in w.ops && w.ops[h] == w'.ops[h])
  {
  }

  // With fewer files and fewer writers, and nothing else for the writers changed.
  lemma LessIsSound(w: World, w': World)
    requires Sound(w)
    requires w'.given == w.given && w'.renamed == w.renamed && w'.partial == w.partial
    requires forall id | id in w'.files :: id in w.files && w'.files[id] == w.files[id]
    requires forall h | h in w'.ops && AtSibling(w'.ops[h]) :: h in w.ops && w.ops[h] == w'.ops[h]
    ensures Sound(w')
  {
  }

  // ---- runs ----

  ghost function After(w: World, es: seq<Event>, i: nat): World
    requires i <= |es|
  {
    if i == 0 then w else Step(After(w, es, i - 1), es[i - 1]).0
  }

  ghost predicate Run(w: World, es: seq<Event>) {
    forall i | 0 <= i < |es| :: Enabled(After(w, es, i), es[i])
  }

  lemma RunAt(w: World, es: seq<Event>, i: nat)
    requires Run(w, es) && i < |es|
    ensures Enabled(After(w, es, i), es[i]) && After(w, es, i + 1) == Step(After(w, es, i), es[i]).0
  {
    hide Enabled, Step;
  }

  lemma {:induction false} RunKeepsSound(w: World, es: seq<Event>, i: nat)
    requires Sound(w) && Run(w, es) && i <= |es|
    ensures Sound(After(w, es, i))
  {
    if i > 0 {
      RunKeepsSound(w, es, i - 1);
      StepKeepsSound(After(w, es, i - 1), es[i - 1]);
    }
  }

  lemma {:induction false} GivenWasStored(w: World, es: seq<Event>, i: nat, id: Id, contents: Bytes) returns (j: nat)
    requires i <= |es| && (id, contents) in After(w, es, i).given && (id, contents) !in w.given
    ensures j < i && es[j].StartStore? && es[j].id == id && es[j].contents == contents
  {
    hide Step;
    GivenStep(After(w, es, i - 1), es[i - 1], id, contents);
    if (id, contents) in After(w, es, i - 1).given {
      j := GivenWasStored(w, es, i - 1, id, contents);
    } else {
      j := i - 1;
    }
  }

  lemma GivenStep(w: World, e: Event, id: Id, contents: Bytes)
    ensures (id, contents) in Step(w, e).0.given ==>
              (id, contents) in w.given || (e.StartStore? && e.id == id && e.contents == contents)
  {
  }

  // Whatever crashed, overlapped or was evicted: a lookup that answers `Cached`
  // answers with the complete contents some earlier store_body was given for that
  // very message.
  lemma LookupReturnsStoredContents(w: World, es: seq<Event>, i: nat) returns (j: nat)
    requires Fresh(w) && Run(w, es)
    requires i < |es| && es[i].ReadFile? && Step(After(w, es, i), es[i]).1.Cached?
    ensures j < i && es[j].StartStore?
    ensures es[i].h in After(w, es, i).ops && After(w, es, i).ops[es[i].h] == Reading(es[j].id)
    ensures Step(After(w, es, i), es[i]).1 == Cached(es[j].contents)
  {
    var now := After(w, es, i);
    RunKeepsSound(w, es, i);
    assert Enabled(now, es[i]);
    var id := now.ops[es[i].h].id;
    j := GivenWasStored(w, es, i, id, now.files[id]);
  }

  // ---- when a pointer has no file ----

  predicate Points(pointers: map<Id, bool>, id: Id) {
    id in pointers && pointers[id]
  }

  // The database -- as it is or as a crash may leave it --, a store about to commit or
  // a lookup on its way counts on the file.
  ghost predicate CountedOn(w: World, id: Id) {
    || Points(w.pointers, id)
    || (exists k | 0 <= k < |w.earlier| :: Points(w.earlier[k], id))
    || (exists h | h in w.ops :: w.ops[h] == Reading(id) || Commits(w.ops[h], id))
  }

  predicate Commits(op: Op, id: Id) {
    op.Renamed? && op.id == id
  }

  // This step takes the file away: a crash that loses it, or an eviction.
  ghost predicate Loses(w: World, e: Event, id: Id) {
    && id in w.files
    && ((e.Crash? && id !in e.files)
        || (e.Unlink? && e.h in w.ops && w.ops[e.h].Evicting? && w.ops[e.h].unlinked < |w.ops[e.h].victims|
            && w.ops[e.h].victims[w.ops[e.h].unlinked] == id))
  }

  // Only a file in place comes to be counted on.
  lemma CountingBegins(w: World, e: Event, id: Id)
    requires CountedOn(Step(w, e).0, id)
    ensures CountedOn(w, id) || id in Step(w, e).0.files
  {
    var w' := Step(w, e).0;
    RowsCome(w, e, id);
    OpsCome(w, e, id);
  }

  lemma OpsCome(w: World, e: Event, id: Id)
    ensures var w' := Step(w, e).0;
            forall h | h in w'.ops && (w'.ops[h] == Reading(id) || Commits(w'.ops[h], id)) ::
              (h in w.ops && w.ops[h] == w'.ops[h]) || Points(w.pointers, id) || id in w'.files
  {
  }

  lemma RowsCome(w: World, e: Event, id: Id)
    ensures var w' := Step(w, e).0;
            Points(w'.pointers, id) || (exists k | 0 <= k < |w'.earlier| :: Points(w'.earlier[k], id)) ==>
              CountedOn(w, id)
  {
    var w' := Step(w, e).0;
    if k: int :| 0 <= k < |w'.earlier| && Points(w'.earlier[k], id) {
      assert k < |w.earlier| ==> w'.earlier[k] == w.earlier[k];
    }
    if e.Crash? && 0 < e.lost <= |w.earlier| && Points(w'.pointers, id) {
      assert Points(w.earlier[|w.earlier| - e.lost], id);
    }
  }

  lemma {:induction false} CountedOnWasThere(w: World, es: seq<Event>, i: nat, id: Id) returns (k: nat)
    requires i <= |es| && (CountedOn(w, id) ==> id in w.files) && CountedOn(After(w, es, i), id)
    ensures k <= i && id in After(w, es, k).files
  {
    hide Step, CountedOn;
    if i == 0 {
      k := 0;
    } else {
      CountingBegins(After(w, es, i - 1), es[i - 1], id);
      if CountedOn(After(w, es, i - 1), id) {
        k := CountedOnWasThere(w, es, i - 1, id);
      } else {
        k := i;
      }
    }
  }

  lemma FileStep(w: World, e: Event, id: Id)
    requires id in w.files && id !in Step(w, e).0.files
    ensures Loses(w, e, id)
  {
  }

  // A file that was in place and is not was taken by a crash or an eviction.
  lemma {:induction false} FileLostSince(w: World, es: seq<Event>, k: nat, i: nat, id: Id) returns (j: nat)
    requires k <= i <= |es| && id in After(w, es, k).files && id !in After(w, es, i).files
    ensures k <= j < i && Loses(After(w, es, j), es[j], id)
    ensures forall n | j < n <= i :: id !in After(w, es, n).files
  {
    hide Step, Loses;
    assert k < i;
    if id in After(w, es, i - 1).files {
      FileStep(After(w, es, i - 1), es[i - 1], id);
      j := i - 1;
    } else {
      j := FileLostSince(w, es, k, i - 1, id);
    }
  }

  // A file that is counted on is missing only since a crash or an eviction took it.
  lemma MissedSince(w: World, es: seq<Event>, i: nat, id: Id) returns (j: nat)
    requires i <= |es| && (CountedOn(w, id) ==> id in w.files)
    requires CountedOn(After(w, es, i), id) && id !in After(w, es, i).files
    ensures j < i && Loses(After(w, es, j), es[j], id)
    ensures forall k | j < k <= i :: id !in After(w, es, k).files
  {
    hide CountedOn;
    var k := CountedOnWasThere(w, es, i, id);
    j := FileLostSince(w, es, k, i, id);
  }

  ghost predicate NothingCached(w: World) {
    forall id | id in w.pointers :: !w.pointers[id]
  }

  // Over every run a lookup that reads the file answers Cached exactly when the file
  // is in place; otherwise it answers like a body never fetched, and then a crash or
  // an eviction took the file, and nothing has put it back since.
  lemma ReadMissesOnlyAfterLoss(w: World, es: seq<Event>, i: nat, id: Id) returns (j: nat)
    requires Fresh(w) && NothingCached(w) && Run(w, es)
    requires i < |es| && es[i].ReadFile?
    requires es[i].h in After(w, es, i).ops && After(w, es, i).ops[es[i].h] == Reading(id)
    ensures Step(After(w, es, i), es[i]).1.Cached? <==> id in After(w, es, i).files
    ensures !Step(After(w, es, i), es[i]).1.Cached? ==>
              && Step(After(w, es, i), es[i]).1 == NotCached
              && j < i && Loses(After(w, es, j), es[j], id)
              && forall k | j < k <= i :: id !in After(w, es, k).files
  {
    j := 0;
    if id !in After(w, es, i).files {
      j := MissedSince(w, es, i, id);
    }
  }

  // ---- a store that is kept away from is read back exactly ----

  ghost function StoreSteps(h: nat, id: Id, contents: Bytes): seq<Event> {
    [StartStore(h, id, contents), OpenSibling(h), WriteMore(h, |contents|), Rename(h), CommitPointer(h)]
  }

  // Nothing stops a store while no other handle is at the sibling of its body.
  lemma StoreLeavesBodyInPlace(w: World, h: nat, id: Id, contents: Bytes)
    requires Sound(w) && id in w.pointers && h !in w.ops && !BeingWritten(w, id)
    ensures Run(w, StoreSteps(h, id, contents))
    ensures var w' := After(w, StoreSteps(h, id, contents), 5);
            id in w'.files && w'.files[id] == contents && id in w'.pointers && w'.pointers[id]
  {
    var es := StoreSteps(h, id, contents);
    var w1 := Step(w, es[0]).0;
    var w2 := Step(w1, es[1]).0;
    var w3 := Step(w2, es[2]).0;
    var w4 := Step(w3, es[3]).0;
    AfterFour(w, es, w1, w2, w3, w4);
    assert contents[..|contents|] == contents;
    assert w1.ops[h] == Opening(id, contents);
    assert w2.ops[h] == Writing(id, contents, 0);
    assert w3.ops[h] == Writing(id, contents, |contents|) && w3.partial[id] == contents;
    assert w4.ops[h] == Renamed(id, contents) && w4.files[id] == contents;
    assert After(w, es, 5) == Step(w4, es[4]).0;
    forall i | 0 <= i < |es|
      ensures Enabled(After(w, es, i), es[i])
    {
      assert i == 0 || i == 1 || i == 2 || i == 3 || i == 4;
    }
  }

  lemma AfterFour(w: World, es: seq<Event>, w1: World, w2: World, w3: World, w4: World)
    requires |es| >= 4
    requires w1 == Step(w, es[0]).0 && w2 == Step(w1, es[1]).0 && w3 == Step(w2, es[2]).0 && w4 == Step(w3, es[3]).0
    ensures After(w, es, 0) == w && After(w, es, 1) == w1 && After(w, es, 2) == w2
    ensures After(w, es, 3) == w3 && After(w, es, 4) == w4
  {
    hide Step;
    assert After(w, es, 1) == w1;
    assert After(w, es, 2) == w2;
    assert After(w, es, 3) == w3;
  }

  // This step leaves the file of `id` alone.
  ghost predicate SparesFile(w: World, e: Event, id: Id) {
    match e
    case Rename(h) => h in w.ops && w.ops[h].Writing? ==> w.ops[h].id != id
    case Unlink(h) =>
      h in w.ops && w.ops[h].Evicting? && w.ops[h].unlinked < |w.ops[h].victims| ==>
        w.ops[h].victims[w.ops[h].unlinked] != id
    case Crash(files, _, _) => id in files && id in w.files && files[id] == w.files[id]
    case _ => true
  }

  // This step leaves the file and the pointer of `id` alone.
  ghost predicate Spares(w: World, e: Event, id: Id) {
    && SparesFile(w, e, id)
    && match e
       case CommitEvict(h) => h in w.ops && w.ops[h].Evicting? ==> id !in w.ops[h].victims
       case Crash(_, _, lost) => Points(RowsBefore(w, lost), id)
       case AddRow(added) => added != id
       case DropRow(dropped) => dropped != id
       case _ => true
  }

  lemma SparedBodyStays(w: World, e: Event, id: Id)
    requires id in w.files && Points(w.pointers, id) && Spares(w, e, id)
    ensures var w' := Step(w, e).0;
            id in w'.files && w'.files[id] == w.files[id] && Points(w'.pointers, id)
  {
  }

  lemma {:induction false} SparedBodyStaysOverRun(w: World, es: seq<Event>, i: nat, j: nat, id: Id)
    requires i <= j <= |es|
    requires id in After(w, es, i).files && Points(After(w, es, i).pointers, id)
    requires forall k | i <= k < j :: Spares(After(w, es, k), es[k], id)
    ensures id in After(w, es, j).files && After(w, es, j).files[id] == After(w, es, i).files[id]
    ensures Points(After(w, es, j).pointers, id)
  {
    hide Step, Spares, Points;
    if i < j {
      SparedBodyStaysOverRun(w, es, i, j - 1, id);
      SparedBodyStays(After(w, es, j - 1), es[j - 1], id);
    }
  }

  // The store of h is under way, and nothing of it is lost.
  ghost predicate UnderWay(w: World, h: nat, id: Id, contents: Bytes) {
    && h in w.ops && id in w.pointers
    && match w.ops[h]
       case Opening(x, c) => x == id && c == contents
       case Writing(x, c, _) => x == id && c == contents
       case Renamed(x, c) => x == id && c == contents && id in w.files && w.files[id] == contents
       case _ => false
  }

  // This step neither ends h's store of `id` nor, once its file is in place, takes or
  // replaces the file; the row stays.
  ghost predicate KeepsAway(w: World, e: Event, h: nat, id: Id) {
    match e
    case Rename(g) => g == h || SparesFile(w, e, id)
    case Unlink(_) => SparesFile(w, e, id)
    case CommitPointer(g) => g != h
    case Abort(g) => g != h
    case Crash(_, _, _) => false
    case DropRow(dropped) => dropped != id
    case _ => true
  }

  lemma StoreGoesOn(w: World, e: Event, h: nat, id: Id, contents: Bytes)
    requires Sound(w) && Enabled(w, e) && UnderWay(w, h, id, contents) && KeepsAway(w, e, h, id)
    ensures UnderWay(Step(w, e).0, h, id, contents)
  {
    if e == Rename(h) {
      assert contents[..|contents|] == contents;
    }
  }

  lemma StoreEnds(w: World, h: nat, id: Id, contents: Bytes)
    requires UnderWay(w, h, id, contents) && Enabled(w, CommitPointer(h))
    ensures var w' := Step(w, CommitPointer(h)).0;
            id in w'.files && w'.files[id] == contents && Points(w'.pointers, id)
  {
  }

  lemma StoreBegins(w: World, h: nat, id: Id, contents: Bytes)
    requires id in w.pointers
    ensures UnderWay(Step(w, StartStore(h, id, contents)).0, h, id, contents)
  {
  }

  lemma {:induction false} StoreStaysUnderWay(w: World, es: seq<Event>, a: nat, i: nat, h: nat, id: Id, contents: Bytes)
    requires Sound(w) && Run(w, es) && a < i <= |es|
    requires es[a] == StartStore(h, id, contents) && id in After(w, es, a).pointers
    requires forall k | a < k < i :: KeepsAway(After(w, es, k), es[k], h, id)
    ensures UnderWay(After(w, es, i), h, id, contents)
  {
    hide Step, Sound, UnderWay, KeepsAway, Enabled;
    if i == a + 1 {
      StoreBegins(After(w, es, a), h, id, contents);
    } else {
      StoreStaysUnderWay(w, es, a, i - 1, h, id, contents);
      RunKeepsSound(w, es, i - 1);
      StoreGoesOn(After(w, es, i - 1), es[i - 1], h, id, contents);
    }
  }

  // In any run: a store begun at a and committed at c, other handles' steps between
  // that keep away from it, steps after it that spare the body, then a lookup at t --
  // which answers with the stored bytes.
  lemma StoreThenLookup(w: World, es: seq<Event>, a: nat, c: nat, t: nat, h: nat, id: Id, contents: Bytes)
    requires Sound(w) && Run(w, es) && a < c < t < |es|
    requires es[a] == StartStore(h, id, contents) && id in After(w, es, a).pointers
    requires forall k | a < k < c :: KeepsAway(After(w, es, k), es[k], h, id)
    requires es[c] == CommitPointer(h)
    requires forall k | c < k < t :: Spares(After(w, es, k), es[k], id)
    requires es[t].ReadFile? && es[t].h in After(w, es, t).ops && After(w, es, t).ops[es[t].h] == Reading(id)
    ensures Step(After(w, es, t), es[t]).1 == Cached(contents)
  {
    hide Sound, Step, UnderWay, KeepsAway, Enabled, Spares, Points, Run, After;
    StoreStaysUnderWay(w, es, a, c, h, id, contents);
    RunAt(w, es, c);
    StoreEnds(After(w, es, c), h, id, contents);
    SparedBodyStaysOverRun(w, es, c + 1, t, id);
    ReadsTheFile(After(w, es, t), es[t], id);
  }

  lemma ReadsTheFile(w: World, e: Event, id: Id)
    requires e.ReadFile? && e.h in w.ops && w.ops[e.h] == Reading(id) && id in w.files
    ensures Step(w, e).1 == Cached(w.files[id])
  {
  }

  // ---- the callers' condition is exact ----

  // A second writer that empties the sibling between the first one's last write and
  // its rename, a commit, and a lookup.
  ghost function Clash(g: nat, h: nat, id: Id, size: nat): seq<Event> {
    [WriteMore(g, size), OpenSibling(h), Rename(g), CommitPointer(g), StartLookup(g, id), ReadFile(g, false)]
  }

  // Two handles at the sibling of one body: every one of these steps can be taken,
  // and the reader is given an empty body.
  lemma TwoWritersClash(w: World, g: nat, h: nat, id: Id)
    requires g in w.ops && w.ops[g].Writing? && w.ops[g].id == id && w.ops[g].done <= |w.ops[g].contents|
    requires h in w.ops && w.ops[h].Opening? && w.ops[h].id == id && id in w.pointers
    ensures var es := Clash(g, h, id, |w.ops[g].contents|);
            Run(w, es) && Step(After(w, es, 5), es[5]).1 == Cached([])
            && g in After(w, es, 5).ops && After(w, es, 5).ops[g] == Reading(id)
            && After(w, es, 5).given == w.given
  {
    var contents := w.ops[g].contents;
    var es := Clash(g, h, id, |contents|);
    var w2 := ClashEmpties(w, g, h, id);
    var w1 := Step(w, es[0]).0;
    var w5 := ClashPublishes(w2, g, id, contents);
    var w3 := Step(w2, es[2]).0;
    var w4 := Step(w3, es[3]).0;
    hide Step, Enabled;
    AfterFour(w, es, w1, w2, w3, w4);
    assert After(w, es, 5) == w5;
    ClashEnabled(w, es, w1, w2, w3, w4);
  }

  lemma ClashEmpties(w: World, g: nat, h: nat, id: Id) returns (w2: World)
    requires g in w.ops && w.ops[g].Writing? && w.ops[g].id == id && w.ops[g].done <= |w.ops[g].contents|
    requires h in w.ops && w.ops[h].Opening? && w.ops[h].id == id && id in w.pointers
    ensures var contents := w.ops[g].contents;
            var w1 := Step(w, WriteMore(g, |contents|)).0;
            && w2 == Step(w1, OpenSibling(h)).0
            && Enabled(w, WriteMore(g, |contents|)) && Enabled(w1, OpenSibling(h))
            && g in w2.ops && w2.ops[g] == Writing(id, contents, |contents|)
            && id in w2.partial && w2.partial[id] == [] && id in w2.pointers && w2.given == w.given
  {
    var w1 := Step(w, WriteMore(g, |w.ops[g].contents|)).0;
    w2 := Step(w1, OpenSibling(h)).0;
  }

  lemma ClashPublishes(w2: World, g: nat, id: Id, contents: Bytes) returns (w5: World)
    requires g in w2.ops && w2.ops[g] == Writing(id, contents, |contents|)
    requires id in w2.partial && w2.partial[id] == [] && id in w2.pointers
    ensures var w3 := Step(w2, Rename(g)).0;
            var w4 := Step(w3, CommitPointer(g)).0;
            && w5 == Step(w4, StartLookup(g, id)).0
            && Enabled(w2, Rename(g)) && Enabled(w3, CommitPointer(g)) && Enabled(w4, StartLookup(g, id))
            && Enabled(w5, ReadFile(g, false)) && Step(w5, ReadFile(g, false)).1 == Cached([])
            && g in w5.ops && w5.ops[g] == Reading(id) && w5.given == w2.given
  {
    var w3 := Step(w2, Rename(g)).0;
    var w4 := Step(w3, CommitPointer(g)).0;
    assert w3.ops[g] == Renamed(id, contents) && w3.files[id] == [];
    assert w4.files[id] == [] && w4.pointers[id] && g !in w4.ops;
    w5 := Step(w4, StartLookup(g, id)).0;
  }

  lemma ClashEnabled(w: World, es: seq<Event>, w1: World, w2: World, w3: World, w4: World)
    requires |es| == 6
    requires After(w, es, 1) == w1 && After(w, es, 2) == w2 && After(w, es, 3) == w3 && After(w, es, 4) == w4
    requires Enabled(w, es[0]) && Enabled(w1, es[1]) && Enabled(w2, es[2]) && Enabled(w3, es[3]) && Enabled(w4, es[4])
    requires Enabled(After(w, es, 5), es[5])
    ensures Run(w, es)
  {
    hide Step, Enabled;
    forall i | 0 <= i < |es|
      ensures Enabled(After(w, es, i), es[i])
    {
      assert i == 0 || i == 1 || i == 2 || i == 3 || i == 4 || i == 5;
    }
  }

  // A lookup that answers with bytes answers with bytes the message was given.
  ghost predicate ReadsWhatWasGiven(w: World, e: Event) {
    e.ReadFile? && e.h in w.ops && w.ops[e.h].Reading? && Step(w, e).1.Cached? ==>
      (w.ops[e.h].id, Step(w, e).1.contents) in w.given
  }

  // However the run goes on after this step, lookups read what was given.
  ghost predicate Harmless(w: World, e: Event) {
    forall es: seq<Event>, i: nat | i < |es| && Run(Step(w, e).0, es) ::
      ReadsWhatWasGiven(After(Step(w, e).0, es, i), es[i])
  }

  lemma {:induction false} RunPrefix(w: World, e: Event, es: seq<Event>, i: nat)
    requires i <= |es|
    ensures After(w, [e] + es, i + 1) == After(Step(w, e).0, es, i)
  {
    hide Step;
    if i == 0 {
      assert After(w, [e] + es, 1) == Step(After(w, [e] + es, 0), e).0;
    } else {
      RunPrefix(w, e, es, i - 1);
      assert ([e] + es)[i] == es[i - 1];
    }
  }

  lemma RunGrows(w: World, e: Event, es: seq<Event>)
    requires Enabled(w, e) && Run(Step(w, e).0, es)
    ensures Run(w, [e] + es)
  {
    hide Step, Enabled;
    forall i | 0 <= i < |es| + 1
      ensures Enabled(After(w, [e] + es, i), ([e] + es)[i])
    {
      if i > 0 {
        RunPrefix(w, e, es, i - 1);
        assert Enabled(After(Step(w, e).0, es, i - 1), es[i - 1]);
      }
    }
  }

  // A store begun while no handle is at the sibling of its body does no harm.
  lemma GuardedStoreIsHarmless(w: World, h: nat, id: Id, contents: Bytes)
    requires Sound(w) && h !in w.ops && !BeingWritten(w, id)
    ensures Harmless(w, StartStore(h, id, contents))
  {
    hide Step, Sound, Run;
    var next := Step(w, StartStore(h, id, contents)).0;
    StepKeepsSound(w, StartStore(h, id, contents));
    forall es: seq<Event>, i: nat | i < |es| && Run(next, es)
      ensures ReadsWhatWasGiven(After(next, es, i), es[i])
    {
      RunKeepsSound(next, es, i);
      SoundReads(After(next, es, i), es[i]);
    }
  }

  lemma SoundReads(w: World, e: Event)
    requires Sound(w)
    ensures ReadsWhatWasGiven(w, e)
  {
  }

  // A store of some bytes begun while another handle is at the sibling can be
  // followed by steps, all of them allowed, that end in an empty body being read.
  lemma UnguardedStoreHarms(w: World, h: nat, id: Id, contents: Bytes) returns (es: seq<Event>)
    requires Sound(w) && id in w.pointers && h !in w.ops && BeingWritten(w, id)
    ensures var next := Step(w, StartStore(h, id, contents)).0;
            && Run(next, es) && |es| > 0 && es[|es| - 1].ReadFile?
            && var last := After(next, es, |es| - 1);
               && es[|es| - 1].h in last.ops && last.ops[es[|es| - 1].h] == Reading(id)
               && Step(last, es[|es| - 1]).1 == Cached([])
               && last.given == w.given + {(id, contents)}
  {
    var g :| g in w.ops && AtSibling(w.ops[g]) && w.ops[g].id == id;
    var next := Step(w, StartStore(h, id, contents)).0;
    var op := w.ops[g];
    assert g != h && next.ops[g] == op && next.ops[h] == Opening(id, contents);
    var tail := Clash(g, h, id, |op.contents|);
    if op.Writing? {
      TwoWritersClash(next, g, h, id);
      es := tail;
    } else {
      var begun := Step(next, OpenSibling(g)).0;
      TwoWritersClash(begun, g, h, id);
      es := [OpenSibling(g)] + tail;
      RunGrows(next, OpenSibling(g), tail);
      RunPrefix(next, OpenSibling(g), tail, 5);
    }
  }

  // So the condition is exact: a store of some bytes is harmless exactly when no
  // other handle is at the sibling of that body.
  lemma ConcurrentStoresOfOneBody(w: World, h: nat, id: Id, contents: Bytes)
    requires Sound(w) && id in w.pointers && h !in w.ops && contents != [] && (id, []) !in w.given
    ensures Harmless(w, StartStore(h, id, contents)) <==> !BeingWritten(w, id)
  {
    hide Step, Sound, Run;
    if BeingWritten(w, id) {
      var es := UnguardedStoreHarms(w, h, id, contents);
      var next := Step(w, StartStore(h, id, contents)).0;
      assert !ReadsWhatWasGiven(After(next, es, |es| - 1), es[|es| - 1]);
    } else {
      GuardedStoreIsHarmless(w, h, id, contents);
    }
  }

  // Such worlds are reached: a handle that has begun to store a body.
  lemma OneWriterIsReached(id: Id, contents: Bytes)
    ensures var w := World(map[], map[], map[id := false], [], map[], {}, {});
            var w' := After(w, [StartStore(1, id, contents)], 1);
            Fresh(w) && Run(w, [StartStore(1, id, contents)]) && Sound(w') && BeingWritten(w', id)
  {
    var w := World(map[], map[], map[id := false], [], map[], {}, {});
    var es := [StartStore(1, id, contents)];
    var w' := After(w, es, 1);
    assert w' == Step(After(w, es, 0), es[0]).0;
    assert AtSibling(w'.ops[1]);
    assert After(w, es, 0) == w;
  }
}
