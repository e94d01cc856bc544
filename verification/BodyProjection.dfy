// What caching a body writes beside the file: the message's pointer and preview,
// its attachment rows, and the two columns of its thread that repeat message data
// (crates/core/src/body.rs). The MIME parser and the previewer are parameters.
module BodyProjection {
  import opened Wrappers
  import opened Ordering
  import Characters
  import Decimal

  type Id = string
  type Bytes = seq<int>

  datatype Message = Message(
    account: Id, thread: Id, date: int, snippet: string, hasAttachment: bool,
    bodyPath: Option<string>, bodyBytes: Option<int>)

  datatype Thread = Thread(account: Id, snippet: string, hasAttachment: bool)

  // One part as the parser describes it.
  datatype Part = Part(name: Option<string>, mime: string, size: nat, contentId: Option<string>,
                       section: Option<string>, encoding: string)

  // The row id is built from the message id and the ordinal.
  datatype AttachmentKey = AttachmentKey(message: Id, ordinal: nat)

  datatype Attachment = Attachment(
    account: Id, filename: string, part: Part, cachePath: Option<string>, cacheBytes: Option<int>)

  datatype Tables = Tables(
    messages: map<Id, Message>,
    threads: map<Id, Thread>,
    attachments: map<AttachmentKey, Attachment>)

  // ---- the projections ----

  predicate InThread(m: Message, account: Id, thread: Id) {
    m.account == account && m.thread == thread
  }

  // ORDER BY date DESC, id DESC LIMIT 1 within one thread of one account.
  ghost predicate IsLatest(messages: map<Id, Message>, account: Id, thread: Id, id: Id) {
    && id in messages && InThread(messages[id], account, thread)
    && forall other | other in messages && InThread(messages[other], account, thread) ::
         messages[other].date < messages[id].date || (messages[other].date == messages[id].date && TextLe(other, id))
  }

  ghost predicate SnippetsAgree(t: Tables) {
    forall thread, id | thread in t.threads && IsLatest(t.messages, t.threads[thread].account, thread, id) ::
      t.threads[thread].snippet == t.messages[id].snippet
  }

  ghost predicate AnyAttachment(messages: map<Id, Message>, account: Id, thread: Id) {
    exists id | id in messages :: InThread(messages[id], account, thread) && messages[id].hasAttachment
  }

  // A thread has one latest message at most.
  lemma LatestUnique(messages: map<Id, Message>, account: Id, thread: Id, a: Id, b: Id)
    requires IsLatest(messages, account, thread, a) && IsLatest(messages, account, thread, b)
    ensures a == b
  {
    TextLeTotal(a, b);
  }

  // ---- writing a preview ----

  // A message row changed only in columns the order of a thread does not look at.
  ghost predicate SamePlaces(before: map<Id, Message>, after: map<Id, Message>) {
    && after.Keys == before.Keys
    && forall id | id in before ::
         && after[id].account == before[id].account && after[id].thread == before[id].thread
         && after[id].date == before[id].date
  }

  lemma SamePlacesSameLatest(before: map<Id, Message>, after: map<Id, Message>, account: Id, thread: Id, id: Id)
    requires SamePlaces(before, after)
    ensures IsLatest(after, account, thread, id) <==> IsLatest(before, account, thread, id)
  {
  }

  // UPDATE_LATEST_THREAD_SNIPPET_SQL for the thread of message `id`.
  ghost function ProjectSnippet(t: Tables, account: Id, thread: Id, id: Id, snippet: string): Tables {
    if thread in t.threads && t.threads[thread].account == account && IsLatest(t.messages, account, thread, id)
    then t.(threads := t.threads[thread := t.threads[thread].(snippet := snippet)])
    else t
  }

  // Only the message's own thread may change: its flag, and its snippet exactly when
  // the message is the latest there.
  ghost predicate TakesPreview(before: map<Id, Thread>, after: map<Id, Thread>, messages: map<Id, Message>, id: Id)
    requires id in messages
  {
    && after.Keys == before.Keys
    && forall th | th in before ::
         var m := messages[id];
         if th != m.thread || before[th].account != m.account then after[th] == before[th]
         else
           && after[th].account == before[th].account
           && after[th].snippet == if IsLatest(messages, m.account, th, id) then m.snippet else before[th].snippet
  }

  lemma ProjectionTakesPreview(before: map<Id, Thread>, mid: Tables, id: Id)
    requires id in mid.messages && mid.threads.Keys == before.Keys
    requires var m := mid.messages[id];
             forall th | th in before ::
               && mid.threads[th] == before[th].(hasAttachment := mid.threads[th].hasAttachment)
               && (th != m.thread || before[th].account != m.account ==> mid.threads[th] == before[th])
    ensures var m := mid.messages[id];
            TakesPreview(before, ProjectSnippet(mid, m.account, m.thread, id, m.snippet).threads, mid.messages, id)
  {
    hide IsLatest;
  }

  // A new preview on one message, carried to its thread when it is the latest
  // there, keeps every thread in agreement with its latest message.
  lemma PreviewKeepsAgreement(before: Tables, mid: Tables, id: Id, snippet: string)
    requires SnippetsAgree(before)
    requires id in before.messages && id in mid.messages && SamePlaces(before.messages, mid.messages)
    requires mid.messages[id].snippet == snippet
    requires forall other | other in before.messages && other != id ::
             mid.messages[other].snippet == before.messages[other].snippet
    requires mid.threads.Keys == before.threads.Keys
    requires forall th | th in before.threads :: mid.threads[th].account == before.threads[th].account
                                                 && mid.threads[th].snippet == before.threads[th].snippet
    ensures SnippetsAgree(ProjectSnippet(mid, mid.messages[id].account, mid.messages[id].thread, id, snippet))
  {
    var m := mid.messages[id];
    var after := ProjectSnippet(mid, m.account, m.thread, id, snippet);
    forall thread, latest | thread in after.threads
           && IsLatest(after.messages, after.threads[thread].account, thread, latest)
      ensures after.threads[thread].snippet == after.messages[latest].snippet
    {
      SamePlacesSameLatest(before.messages, mid.messages, after.threads[thread].account, thread, latest);
      if latest == id {
        assert thread == m.thread && after.threads[thread].account == m.account;
      } else if thread == m.thread && IsLatest(mid.messages, m.account, m.thread, id)
                && after.threads[thread].account == m.account {
        LatestUnique(mid.messages, m.account, m.thread, id, latest);
      }
    }
  }

  // ---- attachment rows ----

  function RowId(key: AttachmentKey): string {
    "attachment:" + key.message + ":" + Decimal.Digits(key.ordinal)
  }

  // The text is as good as the pair, even for message ids with colons in them.
  lemma RowIdInjective(a: AttachmentKey, b: AttachmentKey)
    ensures RowId(a) == RowId(b) <==> a == b
  {
    if RowId(a) == RowId(b) {
      Decimal.LastColon("attachment:", a.message, Decimal.Digits(a.ordinal), b.message, Decimal.Digits(b.ordinal));
      Decimal.ValueOfDigits(a.ordinal);
      Decimal.ValueOfDigits(b.ordinal);
    }
  }

  // Nothing is left of it by str::trim; names are sequences of scalar values.
  predicate Blank(name: string) {
    forall i | 0 <= i < |name| :: Characters.IsWhitespace(name[i])
  }

  function Filename(part: Part, ordinal: nat, numbered: nat -> string): string {
    if part.name.Some? && !Blank(part.name.value) then part.name.value else numbered(ordinal + 1)
  }

  // The row of one part; what was downloaded under the same key stays known.
  function RowOf(part: Part, key: AttachmentKey, account: Id, old_: map<AttachmentKey, Attachment>,
                 numbered: nat -> string): Attachment {
    var known := key in old_;
    Attachment(account, Filename(part, key.ordinal, numbered), part,
               if known then old_[key].cachePath else None,
               if known then old_[key].cacheBytes else None)
  }

  // The attachment table once the rows of `message` are those of `parts`.
  ghost predicate Records(before: map<AttachmentKey, Attachment>, after: map<AttachmentKey, Attachment>,
                          message: Id, account: Id,
                          parts: seq<Part>, numbered: nat -> string) {
    && (forall key: AttachmentKey | key.message != message :: key in after <==> key in before)
    && (forall key: AttachmentKey | key.message != message && key in before :: after[key] == before[key])
    && (forall n: nat :: AttachmentKey(message, n) in after <==> n < |parts|)
    && (forall n: nat | n < |parts| ::
          after[AttachmentKey(message, n)] == RowOf(parts[n], AttachmentKey(message, n), account, before, numbered))
  }

  // A part keeps the name it came with unless that is blank; then it is numbered, from
  // one.
  lemma NamesAre(before: map<AttachmentKey, Attachment>, after: map<AttachmentKey, Attachment>, message: Id,
                 account: Id, parts: seq<Part>, numbered: nat -> string, n: nat)
    requires Records(before, after, message, account, parts, numbered) && n < |parts|
    ensures var row := after[AttachmentKey(message, n)];
            && row.account == account && row.part == parts[n]
            && row.filename ==
               match parts[n].name
               case None => numbered(n + 1)
               case Some(name) =>
                 if exists c | c in name :: !Characters.IsWhitespace(c) then name else numbered(n + 1)
  {
  }

  // Storing again what is stored changes no attachment row at all: every
  // downloaded file stays known.
  lemma ReRecordingChangesNothing(first: map<AttachmentKey, Attachment>, rows: map<AttachmentKey, Attachment>,
                                  again: map<AttachmentKey, Attachment>, message: Id, account: Id,
                                  parts: seq<Part>, numbered: nat -> string)
    requires Records(first, rows, message, account, parts, numbered)
    requires Records(rows, again, message, account, parts, numbered)
    ensures again == rows
  {
    forall key
      ensures key in again <==> key in rows
      ensures key in rows ==> again[key] == rows[key]
    {
      if key.message == message {
        assert key == AttachmentKey(message, key.ordinal);
      }
    }
  }

  // Two versions of a body: a part that keeps its ordinal keeps its file.
  lemma PointersSurvive(before: map<AttachmentKey, Attachment>, after: map<AttachmentKey, Attachment>,
                        message: Id, account: Id,
                        parts: seq<Part>, numbered: nat -> string, key: AttachmentKey)
    requires Records(before, after, message, account, parts, numbered)
    requires key in before && key in after
    ensures after[key].cachePath == before[key].cachePath && after[key].cacheBytes == before[key].cacheBytes
  {
    if key.message == message {
      assert key == AttachmentKey(message, key.ordinal);
    }
  }

  lemma RowOfThatKey(part: Part, key: AttachmentKey, owner: Id, a: map<AttachmentKey, Attachment>,
                     b: map<AttachmentKey, Attachment>, numbered: nat -> string)
    requires (key in a <==> key in b) && (key in a ==> a[key] == b[key])
    ensures RowOf(part, key, owner, a, numbered) == RowOf(part, key, owner, b, numbered)
  {
  }

  // ---- the writing side ----

  class Profile {
    var messages: map<Id, Message>
    var threads: map<Id, Thread>
    var attachments: map<AttachmentKey, Attachment>
    var repairs: seq<Id>              // snippet_repairs, in primary-key order
    var files: map<string, Bytes>     // the body cache on disk
    const parse: Bytes -> seq<Part>
    const preview: Bytes -> string
    const numbered: nat -> string     // "Attachment {n}"

    ghost function Rows(): Tables
      reads this
    {
      Tables(messages, threads, attachments)
    }

    constructor (parse: Bytes -> seq<Part>, preview: Bytes -> string, numbered: nat -> string)
      ensures messages == map[] && threads == map[] && attachments == map[] && repairs == [] && files == map[]
      ensures SnippetsAgree(Rows())
      ensures this.parse == parse && this.preview == preview && this.numbered == numbered
    {
      this.parse, this.preview, this.numbered := parse, preview, numbered;
      messages, threads, attachments, repairs, files := map[], map[], map[], [], map[];
    }

    // The rows of one message, written anew from its parts.
    method RewriteAttachments(id: Id, owner: Id, parts: seq<Part>)
      modifies this`attachments
      ensures Records(old(attachments), attachments, id, owner, parts, numbered)
    {
      hide RowOf;
      ghost var before := attachments;
      var cached := map key | key in attachments && key.message == id :: attachments[key];
      attachments := map key | key in attachments && key.message != id :: attachments[key];
      for index := 0 to |parts|
        invariant forall key: AttachmentKey | key.message != id :: key in attachments <==> key in before
        invariant forall key: AttachmentKey | key.message != id && key in before :: attachments[key] == before[key]
        invariant forall n: nat :: AttachmentKey(id, n) in attachments <==> n < index
        invariant forall n: nat | n < index ::
                    attachments[AttachmentKey(id, n)] == RowOf(parts[n], AttachmentKey(id, n), owner, before, numbered)
        invariant forall n: nat | index <= n :: AttachmentKey(id, n) in cached <==> AttachmentKey(id, n) in before
        invariant forall n: nat | index <= n && AttachmentKey(id, n) in before ::
                    cached[AttachmentKey(id, n)] == before[AttachmentKey(id, n)]
      {
        var key := AttachmentKey(id, index);
        RowOfThatKey(parts[index], key, owner, cached, before, numbered);
        attachments := attachments[key := RowOf(parts[index], key, owner, cached, numbered)];
        cached := cached - {key};
      }
    }

    // UPDATE_THREAD_HAS_ATTACHMENT_SQL
    method UpdateThreadHasAttachment(account: Id, thread: Id)
      modifies this`threads
      ensures threads.Keys == old(threads).Keys
      ensures thread in threads && threads[thread].account == account ==>
                (threads[thread].hasAttachment <==> AnyAttachment(messages, account, thread))
      ensures forall th | th in threads ::
                threads[th] == old(threads)[th].(hasAttachment := threads[th].hasAttachment)
                && (th != thread || threads[th].account != account ==> threads[th] == old(threads)[th])
    {
      if thread in threads && threads[thread].account == account {
        var any := exists m | m in messages :: InThread(messages[m], account, thread) && messages[m].hasAttachment;
        threads := threads[thread := threads[thread].(hasAttachment := any)];
      }
    }

    // record_attachment_metadata
    method RecordAttachmentMetadata(id: Id, account: Id, thread: Id, contents: Bytes)
      requires id in messages
      modifies this`messages, this`threads, this`attachments
      ensures id in messages
              && Records(old(attachments), attachments, id, messages[id].account, parse(contents), numbered)
      ensures messages == old(messages)[id := old(messages)[id].(hasAttachment := parse(contents) != [])]
      ensures thread in threads && threads[thread].account == account ==>
                (threads[thread].hasAttachment <==> AnyAttachment(messages, account, thread))
      ensures threads.Keys == old(threads).Keys
      ensures forall th | th in threads ::
                threads[th] == old(threads)[th].(hasAttachment := threads[th].hasAttachment)
                && (th != thread || threads[th].account != account ==> threads[th] == old(threads)[th])
    {
      hide Records, AnyAttachment;
      var parts := parse(contents);
      RewriteAttachments(id, messages[id].account, parts);
      messages := messages[id := messages[id].(hasAttachment := parts != [])];
      UpdateThreadHasAttachment(account, thread);
    }

    // The latest message of a thread, for the UPDATE's sub-select.
    method FindLatest(account: Id, thread: Id) returns (latest: Option<Id>)
      ensures latest.Some? ==> IsLatest(messages, account, thread, latest.value)
      ensures latest.None? ==> forall id :: !IsLatest(messages, account, thread, id)
    {
      var left := messages.Keys;
      latest := None;
      ghost var seen: set<Id> := {};
      while left != {}
        invariant seen + left == messages.Keys
        invariant latest.None? ==> forall id | id in seen :: !InThread(messages[id], account, thread)
        invariant latest.Some? ==>
                    && latest.value in seen && InThread(messages[latest.value], account, thread)
                    && forall other | other in seen && InThread(messages[other], account, thread) ::
                         Later(messages, latest.value, other)
        decreases left
      {
        var id :| id in left;
        left, seen := left - {id}, seen + {id};
        if InThread(messages[id], account, thread) {
          TextLeTotal(id, id);
          if latest.None? || Later(messages, id, latest.value) {
            LaterChains(messages, account, thread, seen - {id}, id, latest);
            latest := Some(id);
          } else {
            TextLeTotal(id, latest.value);
          }
        }
      }
    }

    method UpdateLatestThreadSnippet(account: Id, thread: Id, id: Id, snippet: string)
      modifies this`threads
      ensures Rows() == ProjectSnippet(old(Rows()), account, thread, id, snippet)
    {
      var latest := FindLatest(account, thread);
      if latest.Some? && IsLatest(messages, account, thread, id) {
        LatestUnique(messages, account, thread, id, latest.value);
      }
      if latest == Some(id) && thread in threads && threads[thread].account == account {
        threads := threads[thread := threads[thread].(snippet := snippet)];
      }
    }

    // store_cached_body_metadata: one transaction. False is MessageNotFound.
    method StoreCachedBodyMetadata(id: Id, path: string, size: nat, contents: Bytes) returns (ok: bool)
      requires SnippetsAgree(Rows())
      modifies this`messages, this`threads, this`attachments
      ensures SnippetsAgree(Rows())
      ensures ok <==> id in old(messages)
      ensures !ok ==> Rows() == old(Rows())
      ensures ok ==> messages == old(messages)[id := old(messages)[id].(
                       bodyPath := Some(path), bodyBytes := Some(size), snippet := preview(contents),
                       hasAttachment := parse(contents) != [])]
      ensures ok ==> Records(old(attachments), attachments, id, messages[id].account, parse(contents), numbered)
      ensures ok && messages[id].thread in threads && threads[messages[id].thread].account == messages[id].account ==>
                (threads[messages[id].thread].hasAttachment <==>
                 AnyAttachment(messages, messages[id].account, messages[id].thread))
      ensures threads.Keys == old(threads).Keys
      ensures ok ==> TakesPreview(old(threads), threads, messages, id)
    {
      hide Records, AnyAttachment, SnippetsAgree, IsLatest, TakesPreview;
      if id !in messages {
        return false;
      }
      ghost var before := Rows();
      var account, thread, snippet := messages[id].account, messages[id].thread, preview(contents);
      messages := messages[id := messages[id].(bodyPath := Some(path), bodyBytes := Some(size), snippet := snippet)];
      RecordAttachmentMetadata(id, account, thread, contents);
      ghost var mid := Rows();
      PreviewKeepsAgreement(before, mid, id, snippet);
      UpdateLatestThreadSnippet(account, thread, id, snippet);
      ProjectionTakesPreview(before.threads, mid, id);
      return true;
    }

    // One queued row of repair_snippet_batch and its transaction.
    method RepairOne(id: Id) returns (repaired: bool)
      requires SnippetsAgree(Rows())
      requires repairs != [] && repairs[0] == id
      modifies this`messages, this`threads, this`repairs
      ensures SnippetsAgree(Rows())
      ensures repairs == old(repairs)[1..]
      ensures messages == Repaired(old(messages), files, preview, id)
      ensures repaired <==> Differs(old(messages), files, preview, id)
      ensures ThreadsFollow(old(Rows()), Rows(), files, preview, [id])
    {
      hide IsLatest, SnippetsAgree, ThreadsFollow;
      ghost var before := Rows();
      repaired := false;
      NothingFollows(before, files, preview);
      if id in messages && messages[id].bodyPath.Some? && messages[id].bodyPath.value in files {
        var snippet := preview(files[messages[id].bodyPath.value]);
        if snippet != messages[id].snippet {
          messages := messages[id := messages[id].(snippet := snippet)];
          ghost var mid := Rows();
          PreviewKeepsAgreement(before, mid, id, snippet);
          UpdateLatestThreadSnippet(messages[id].account, messages[id].thread, id, snippet);
          ThreadFollows(before, mid, files, preview, id);
          repaired := true;
        }
      }
      repairs := repairs[1..];
    }

    // repair_snippet_batch. An empty batch reports nothing remaining.
    method RepairSnippetBatch(limit: nat) returns (repaired: nat, remaining: nat)
      requires SnippetsAgree(Rows())
      modifies this`messages, this`threads, this`repairs
      ensures SnippetsAgree(Rows())
      ensures var n := if |old(repairs)| < limit then |old(repairs)| else limit;
              && repairs == old(repairs)[n..]
              && messages == RepairedAll(old(messages), files, preview, old(repairs)[..n])
              && repaired == |Stale(old(messages), files, preview, old(repairs)[..n])|
              && ThreadsFollow(old(Rows()), Rows(), files, preview, old(repairs)[..n])
              && remaining == if n == 0 then 0 else |repairs|
    {
      hide SnippetsAgree, ThreadsFollow, Differs, Repaired;
      var n := if |repairs| < limit then |repairs| else limit;
      var ids := repairs[..n];
      ghost var before := Rows();
      NothingFollows(before, files, preview);
      if ids == [] {
        return 0, 0;
      }
      repaired := 0;
      ghost var queue, start := repairs, messages;
      for i := 0 to n
        invariant SnippetsAgree(Rows())
        invariant repairs == queue[i..]
        invariant messages == RepairedAll(start, files, preview, ids[..i])
        invariant repaired == |Stale(start, files, preview, ids[..i])|
        invariant ThreadsFollow(before, Rows(), files, preview, ids[..i])
      {
        assert ids[..i + 1][..i] == ids[..i] && ids[..i + 1] == ids[..i] + [ids[i]];
        ghost var mid := Rows();
        OneMoreStale(start, files, preview, ids[..i], ids[i]);
        var changed := RepairOne(ids[i]);
        FollowOn(before, mid, Rows(), files, preview, ids[..i], [ids[i]]);
        if changed {
          repaired := repaired + 1;
        }
      }
      assert ids[..n] == ids;
      remaining := |repairs|;
    }

    // The worker's repeated batches: the queue empties, and nothing else is needed
    // for every queued preview to be what its cached body gives.
    method DrainRepairs(limit: nat)
      requires SnippetsAgree(Rows()) && limit > 0
      modifies this`messages, this`threads, this`repairs
      ensures SnippetsAgree(Rows())
      ensures repairs == []
      ensures messages == RepairedAll(old(messages), files, preview, old(repairs))
      ensures ThreadsFollow(old(Rows()), Rows(), files, preview, old(repairs))
    {
      hide SnippetsAgree, ThreadsFollow, Stale;
      ghost var before := Rows();
      ghost var start, queue, done := messages, repairs, 0;
      NothingFollows(before, files, preview);
      while repairs != []
        invariant SnippetsAgree(Rows())
        invariant done <= |queue| && repairs == queue[done..]
        invariant messages == RepairedAll(start, files, preview, queue[..done])
        invariant ThreadsFollow(before, Rows(), files, preview, queue[..done])
        decreases |repairs|
      {
        ghost var n := if |repairs| < limit then |repairs| else limit;
        assert repairs[..n] == queue[done..done + n] && repairs[n..] == queue[done + n..];
        assert queue[..done] + queue[done..done + n] == queue[..done + n];
        RepairedConcat(start, files, preview, queue[..done], queue[done..done + n]);
        ghost var mid := Rows();
        var _, _ := RepairSnippetBatch(limit);
        FollowOn(before, mid, Rows(), files, preview, queue[..done], queue[done..done + n]);
        done := done + n;
      }
      assert queue[..done] == queue;
    }
  }

  // A message whose cached body can be read takes the preview of that body.
  function Repaired(messages: map<Id, Message>, files: map<string, Bytes>, preview: Bytes -> string,
                    id: Id): map<Id, Message> {
    if id in messages && messages[id].bodyPath.Some? && messages[id].bodyPath.value in files
    then messages[id := messages[id].(snippet := preview(files[messages[id].bodyPath.value]))]
    else messages
  }

  function RepairedAll(messages: map<Id, Message>, files: map<string, Bytes>, preview: Bytes -> string,
                       ids: seq<Id>): map<Id, Message> {
    if ids == [] then messages
    else Repaired(RepairedAll(messages, files, preview, ids[..|ids| - 1]), files, preview, ids[|ids| - 1])
  }

  // The message's body can be read and gives another preview than the one stored.
  predicate Differs(messages: map<Id, Message>, files: map<string, Bytes>, preview: Bytes -> string, id: Id) {
    && id in messages && messages[id].bodyPath.Some? && messages[id].bodyPath.value in files
    && preview(files[messages[id].bodyPath.value]) != messages[id].snippet
  }

  ghost function Stale(messages: map<Id, Message>, files: map<string, Bytes>, preview: Bytes -> string,
                       ids: seq<Id>): set<Id> {
    set id | id in ids && Differs(messages, files, preview, id)
  }

  // Repairing these messages changes no thread but its snippet, and that only to the
  // new preview of its latest message, when that is one of them and differed.
  ghost predicate ThreadsFollow(before: Tables, after: Tables, files: map<string, Bytes>, preview: Bytes -> string,
                                ids: seq<Id>) {
    && after.attachments == before.attachments
    && after.threads.Keys == before.threads.Keys
    && forall th | th in before.threads ::
         var was, now := before.threads[th], after.threads[th];
         && now == was.(snippet := now.snippet)
         && (now.snippet != was.snippet ==>
               exists id | id in ids && Differs(before.messages, files, preview, id) ::
                 && IsLatest(before.messages, was.account, th, id)
                 && now.snippet == preview(files[before.messages[id].bodyPath.value]))
  }

  lemma NothingFollows(t: Tables, files: map<string, Bytes>, preview: Bytes -> string)
    ensures ThreadsFollow(t, t, files, preview, []) && forall id :: ThreadsFollow(t, t, files, preview, [id])
    ensures Stale(t.messages, files, preview, []) == {}
  {
  }

  lemma ThreadFollows(before: Tables, mid: Tables, files: map<string, Bytes>, preview: Bytes -> string, id: Id)
    requires Differs(before.messages, files, preview, id)
    requires mid == before.(messages := Repaired(before.messages, files, preview, id))
    ensures var m := mid.messages[id];
            ThreadsFollow(before, ProjectSnippet(mid, m.account, m.thread, id, m.snippet), files, preview, [id])
  {
    var m := mid.messages[id];
    SamePlacesSameLatest(before.messages, mid.messages, m.account, m.thread, id);
    hide IsLatest;
    assert id in [id];
  }

  // A message once repaired differs no more; one not handled is as it was.
  lemma DiffersOn(messages: map<Id, Message>, files: map<string, Bytes>, preview: Bytes -> string, ids: seq<Id>,
                  id: Id)
    ensures Differs(RepairedAll(messages, files, preview, ids), files, preview, id) <==>
              Differs(messages, files, preview, id) && id !in ids
    ensures SamePlaces(messages, RepairedAll(messages, files, preview, ids))
    ensures id in messages ==> RepairedAll(messages, files, preview, ids).Keys == messages.Keys
                               && RepairedAll(messages, files, preview, ids)[id].bodyPath == messages[id].bodyPath
  {
    DrainedPreviews(messages, files, preview, ids);
  }

  lemma OneMoreStale(messages: map<Id, Message>, files: map<string, Bytes>, preview: Bytes -> string, ids: seq<Id>,
                     id: Id)
    ensures |Stale(messages, files, preview, ids + [id])|
            == |Stale(messages, files, preview, ids)|
               + if Differs(RepairedAll(messages, files, preview, ids), files, preview, id) then 1 else 0
  {
    DiffersOn(messages, files, preview, ids, id);
    var old_, new_ := Stale(messages, files, preview, ids), Stale(messages, files, preview, ids + [id]);
    assert new_ == if Differs(messages, files, preview, id) then old_ + {id} else old_;
    if id in ids {
      assert new_ == old_;
    }
  }

  lemma FollowOn(a: Tables, b: Tables, c: Tables, files: map<string, Bytes>, preview: Bytes -> string, first: seq<Id>,
                 rest: seq<Id>)
    requires b.messages == RepairedAll(a.messages, files, preview, first)
    requires ThreadsFollow(a, b, files, preview, first) && ThreadsFollow(b, c, files, preview, rest)
    ensures ThreadsFollow(a, c, files, preview, first + rest)
  {
    forall th | th in a.threads && c.threads[th].snippet != a.threads[th].snippet
      ensures exists id | id in first + rest && Differs(a.messages, files, preview, id) ::
                && IsLatest(a.messages, a.threads[th].account, th, id)
                && c.threads[th].snippet == preview(files[a.messages[id].bodyPath.value])
    {
      if c.threads[th].snippet != b.threads[th].snippet {
        var id :| id in rest && Differs(b.messages, files, preview, id)
                  && IsLatest(b.messages, b.threads[th].account, th, id)
                  && c.threads[th].snippet == preview(files[b.messages[id].bodyPath.value]);
        DiffersOn(a.messages, files, preview, first, id);
        SamePlacesSameLatest(a.messages, b.messages, a.threads[th].account, th, id);
        assert id in first + rest;
      } else {
        var id :| id in first && Differs(a.messages, files, preview, id)
                  && IsLatest(a.messages, a.threads[th].account, th, id)
                  && b.threads[th].snippet == preview(files[a.messages[id].bodyPath.value]);
        assert id in first + rest;
      }
    }
  }

  lemma {:induction false} RepairedConcat(messages: map<Id, Message>, files: map<string, Bytes>,
                                          preview: Bytes -> string, a: seq<Id>, b: seq<Id>)
    ensures RepairedAll(messages, files, preview, a + b)
            == RepairedAll(RepairedAll(messages, files, preview, a), files, preview, b)
  {
    if b == [] {
      assert a + b == a;
    } else {
      var n := |b| - 1;
      assert (a + b)[..|a + b| - 1] == a + b[..n];
      RepairedConcat(messages, files, preview, a, b[..n]);
    }
  }

  // What draining comes to: every queued message with a readable body shows the
  // preview of that body, and every other message is as it was.
  lemma {:induction false} DrainedPreviews(messages: map<Id, Message>, files: map<string, Bytes>,
                                           preview: Bytes -> string, ids: seq<Id>)
    ensures RepairedAll(messages, files, preview, ids).Keys == messages.Keys
    ensures forall id | id in messages ::
              RepairedAll(messages, files, preview, ids)[id] ==
              if id in ids then Repaired(messages, files, preview, id)[id] else messages[id]
  {
    if ids != [] {
      var n := |ids| - 1;
      DrainedPreviews(messages, files, preview, ids[..n]);
      assert ids == ids[..n] + [ids[n]];
    }
  }

  predicate Later(messages: map<Id, Message>, a: Id, b: Id)
    requires a in messages && b in messages
  {
    messages[b].date < messages[a].date || (messages[b].date == messages[a].date && TextLe(b, a))
  }

  lemma LaterChains(messages: map<Id, Message>, account: Id, thread: Id, seen: set<Id>, id: Id, latest: Option<Id>)
    requires seen <= messages.Keys && id in messages
    requires latest.Some? ==> latest.value in messages && Later(messages, id, latest.value)
    requires latest.Some? ==> forall other | other in seen && InThread(messages[other], account, thread) ::
                                Later(messages, latest.value, other)
    requires latest.None? ==> forall other | other in seen :: !InThread(messages[other], account, thread)
    ensures forall other | other in seen && InThread(messages[other], account, thread) :: Later(messages, id, other)
  {
    forall other | other in seen && InThread(messages[other], account, thread)
      ensures Later(messages, id, other)
    {
      if messages[other].date == messages[id].date {
        TextLeTransitive(other, latest.value, id);
      }
    }
  }
}
