// The frozen list of messages a permanent delete will expunge: how it is written
// (crates/core/src/store.rs) and read back (crates/core/src/locator.rs).
module FrozenTargets {
  import opened Wrappers
  import Decimal

  datatype Target = Target(folder: string, uid: nat)

  const TARGETS := "\"targets\":["
  const FOLDER := "\"folder\":\""
  const UID := "\"uid\":"
  const TWO32 := 0x1_0000_0000

  // ---- str::find ----

  ghost predicate OccursAt(s: string, pattern: string, i: nat) {
    i + |pattern| <= |s| && s[i..i + |pattern|] == pattern
  }

  function Find(s: string, pattern: string): (r: Option<nat>)
    requires pattern != ""
    ensures r.Some? ==> OccursAt(s, pattern, r.value) && forall j | 0 <= j < r.value :: !OccursAt(s, pattern, j)
    ensures r.None? ==> forall j: nat :: !OccursAt(s, pattern, j)
  {
    if |s| < |pattern| then None
    else if s[..|pattern|] == pattern then Some(0)
    else
      assert forall j: nat | j > 0 :: OccursAt(s, pattern, j) ==> OccursAt(s[1..], pattern, j - 1) by {
        OccursInTail(s, pattern);
      }
      match Find(s[1..], pattern)
      case None => None
      case Some(i) =>
        assert OccursAt(s, pattern, i + 1) by { assert s[1..][i..i + |pattern|] == s[i + 1..i + 1 + |pattern|]; }
        Some(i + 1)
  }

  lemma OccursInTail(s: string, pattern: string)
    requires s != ""
    ensures forall j: nat | j > 0 :: OccursAt(s, pattern, j) ==> OccursAt(s[1..], pattern, j - 1)
  {
    forall j: nat | j > 0 && OccursAt(s, pattern, j)
      ensures OccursAt(s[1..], pattern, j - 1)
    {
      assert s[1..][j - 1..j - 1 + |pattern|] == s[j..j + |pattern|];
    }
  }

  // ---- reading ----

  datatype Quoted = Quoted(text: string, used: nat)

  // The text up to the closing quote, a backslash keeping whatever follows it.
  function ReadQuoted(s: string): (r: Option<Quoted>)
    ensures r.Some? ==> r.value.used <= |s|
  {
    if s == "" then None
    else if s[0] == '"' then Some(Quoted("", 1))
    else if s[0] == '\\' && |s| < 2 then None
    else
      var width := if s[0] == '\\' then 2 else 1;
      match ReadQuoted(s[width..])
      case None => None
      case Some(q) => Some(Quoted([s[width - 1]] + q.text, width + q.used))
  }

  function LeadingDigits(s: string): (r: string)
    ensures Decimal.AllDigits(r) && r <= s
    ensures |r| < |s| ==> !Decimal.IsDigit(s[|r|])
  {
    if s == "" || !Decimal.IsDigit(s[0]) then "" else [s[0]] + LeadingDigits(s[1..])
  }

  // parse::<u32>() on digits only
  function ParseU32(digits: string): Option<nat>
    requires Decimal.AllDigits(digits)
  {
    if digits == "" || Decimal.Value(digits) >= TWO32 then None else Some(Decimal.Value(digits))
  }

  // One entry from the front of `rest`, and what is left after its digits.
  function ReadEntry(rest: string): (r: Option<(Target, string)>)
    ensures r.Some? ==> |r.value.1| < |rest|
  {
    match Find(rest, FOLDER)
    case None => None
    case Some(at) =>
      var value := rest[at + |FOLDER|..];
      match ReadQuoted(value)
      case None => None
      case Some(q) =>
        var after := value[q.used..];
        match Find(after, UID)
        case None => None
        case Some(u) =>
          var tail := after[u + |UID|..];
          var digits := LeadingDigits(tail);
          match ParseU32(digits)
          case None => None
          case Some(uid) => if q.text == "" then None else Some((Target(q.text, uid), tail[|digits|..]))
  }

  function Scan(rest: string): seq<Target>
    decreases |rest|
  {
    match ReadEntry(rest)
    case None => []
    case Some(e) => [e.0] + Scan(e.1)
  }

  function Targets(payload: string): seq<Target> {
    match Find(payload, TARGETS)
    case None => []
    case Some(i) => Scan(payload[i + |TARGETS|..])
  }

  // permanent_delete_targets
  method PermanentDeleteTargets(payload: string) returns (out: seq<Target>)
    ensures out == Targets(payload)
  {
    hide ReadEntry;
    out := [];
    var start := Find(payload, TARGETS);
    if start.None? {
      return;
    }
    var rest := payload[start.value + |TARGETS|..];
    ghost var all := Scan(rest);
    while true
      invariant out + Scan(rest) == all
      decreases |rest|
    {
      var entry := TakeEntry(rest);
      if entry.None? {
        return;
      }
      assert (out + [entry.value.0]) + Scan(entry.value.1) == out + ([entry.value.0] + Scan(entry.value.1));
      out := out + [entry.value.0];
      rest := entry.value.1;
    }
  }

  // One round of its loop.
  method TakeEntry(text: string) returns (entry: Option<(Target, string)>)
    ensures entry == ReadEntry(text)
  {
    hide ReadQuoted, LeadingDigits, ParseU32, Find;
    var rest := text;
    var at := Find(rest, FOLDER);
    if at.None? {
      return None;
    }
    var valueAt := at.value + |FOLDER|;
    var folder, used := TakeQuoted(rest[valueAt..]);
    if used == 0 {
      return None;
    }
    rest := rest[valueAt..][used..];
    var uidAt := Find(rest, UID);
    if uidAt.None? {
      return None;
    }
    var digits := TakeDigits(rest[uidAt.value + |UID|..]);
    rest := rest[uidAt.value + |UID|..][|digits|..];
    var uid := ParseU32(digits);
    if uid.None? || folder == "" {
      return None;
    }
    return Some((Target(folder, uid.value), rest));
  }

  // What a name read so far makes of the rest of it.
  function Behind(text: string, used: nat, r: Option<Quoted>): Option<Quoted> {
    if r.None? then None else Some(Quoted(text + r.value.text, used + r.value.used))
  }

  // The innermost loop, over the characters of a name; `used` is 0 when it never closes.
  method TakeQuoted(s: string) returns (folder: string, used: nat)
    ensures used == 0 <==> ReadQuoted(s).None?
    ensures used > 0 ==> ReadQuoted(s) == Some(Quoted(folder, used))
  {
    folder, used := "", 0;
    var i := 0;
    assert s[0..] == s;
    assert ReadQuoted(s).Some? ==> "" + ReadQuoted(s).value.text == ReadQuoted(s).value.text;
    while i < |s|
      invariant i <= |s| && used == 0
      invariant ReadQuoted(s) == Behind(folder, i, ReadQuoted(s[i..]))
    {
      var c := s[i];
      var t := s[i..];
      if c == '\\' {
        if i + 1 == |s| {
          return;
        }
        assert t[2..] == s[i + 2..];
        BehindMore(folder, i, s[i + 1], 2, ReadQuoted(s[i + 2..]));
        folder := folder + [s[i + 1]];
        i := i + 2;
      } else if c == '"' {
        assert folder + "" == folder;
        used := i + 1;
        return;
      } else {
        assert t[1..] == s[i + 1..];
        BehindMore(folder, i, c, 1, ReadQuoted(s[i + 1..]));
        folder := folder + [c];
        i := i + 1;
      }
    }
    assert s[|s|..] == "";
  }

  lemma BehindMore(text: string, used: nat, c: char, width: nat, r: Option<Quoted>)
    ensures Behind(text, used, Behind([c], width, r)) == Behind(text + [c], used + width, r)
  {
    if r.Some? {
      assert text + ([c] + r.value.text) == (text + [c]) + r.value.text;
    }
  }

  lemma LeadingDigitsIs(s: string, n: nat)
    requires n <= |s| && Decimal.AllDigits(s[..n]) && (n < |s| ==> !Decimal.IsDigit(s[n]))
    ensures LeadingDigits(s) == s[..n]
  {
    hide LeadingDigits;
    var r := LeadingDigits(s);
    assert forall k | 0 <= k < n :: s[..n][k] == s[k];
    assert forall k | 0 <= k < |r| :: r[k] == s[k];
  }

  method TakeDigits(s: string) returns (digits: string)
    ensures digits == LeadingDigits(s)
  {
    hide LeadingDigits;
    digits := "";
    var i := 0;
    while i < |s| && Decimal.IsDigit(s[i])
      invariant i <= |s| && digits == s[..i] && Decimal.AllDigits(digits)
    {
      digits := digits + [s[i]];
      i := i + 1;
    }
    LeadingDigitsIs(s, i);
  }

  // ---- writing ----

  function Replaced(s: string, c: char, with: string): string {
    if s == "" then "" else (if s[0] == c then with else [s[0]]) + Replaced(s[1..], c, with)
  }

  // json_escape: two passes.
  function JsonEscape(s: string): string {
    Replaced(Replaced(s, '\\', "\\\\"), '"', "\\\"")
  }

  function EscapeOne(c: char): string {
    if c == '\\' || c == '"' then ['\\', c] else [c]
  }

  // What the passes come to, character by character.
  function Escape(s: string): string {
    if s == "" then ""
    else EscapeOne(s[0]) + Escape(s[1..])
  }

  lemma {:induction false} ReplacedConcat(a: string, b: string, c: char, with: string)
    ensures Replaced(a + b, c, with) == Replaced(a, c, with) + Replaced(b, c, with)
  {
    if a == "" {
      assert a + b == b;
    } else {
      assert (a + b)[1..] == a[1..] + b;
      ReplacedConcat(a[1..], b, c, with);
    }
  }

  lemma {:induction false} EscapeIsJsonEscape(s: string)
    ensures JsonEscape(s) == Escape(s)
  {
    if s != "" {
      EscapeIsJsonEscape(s[1..]);
      var first := if s[0] == '\\' then "\\\\" else [s[0]];
      ReplacedConcat(first, Replaced(s[1..], '\\', "\\\\"), '"', "\\\"");
      assert first[1..] == if s[0] == '\\' then "\\" else "";
      assert "\\"[1..] == "";
    }
  }

  // The rows of the thread: the folder's server name and the message's UID.
  datatype Row = Row(remoteId: Option<string>, uid: Option<int>)

  function TargetOf(row: Row): Option<Target> {
    if row.remoteId.Some? && row.remoteId.value != "" && row.uid.Some? && row.uid.value >= 0
    then Some(Target(row.remoteId.value, row.uid.value))
    else None
  }

  // The rows that have a confirmed mailbox and UID.
  function Confirmed(rows: seq<Row>): (ts: seq<Target>)
    ensures forall t | t in ts :: t.folder != ""
  {
    if rows == [] then []
    else (if TargetOf(rows[0]).Some? then [TargetOf(rows[0]).value] else []) + Confirmed(rows[1..])
  }

  // An entry up to the end of its digits.
  function Item(t: Target): string {
    "{" + FOLDER + JsonEscape(t.folder) + "\"," + UID + Decimal.Digits(t.uid)
  }

  function Entries(ts: seq<Target>): seq<string> {
    seq(|ts|, i requires 0 <= i < |ts| => Item(ts[i]) + "}")
  }

  function Join(parts: seq<string>): string {
    if parts == [] then ""
    else if |parts| == 1 then parts[0]
    else parts[0] + "," + Join(parts[1..])
  }

  // permanent_delete_payload
  function Payload(rows: seq<Row>): string {
    "{" + TARGETS + Join(Entries(Confirmed(rows))) + "]}"
  }

  // The same text, cut after the digits of each entry.
  function Listing(ts: seq<Target>, lead: string, end: string): string {
    if ts == [] then end else lead + Item(ts[0]) + Listing(ts[1..], "},", "}]}")
  }

  lemma {:induction false} JoinIsListing(ts: seq<Target>)
    requires ts != []
    ensures Join(Entries(ts)) + "]}" == Item(ts[0]) + Listing(ts[1..], "},", "}]}")
  {
    hide Item;
    var parts := Entries(ts);
    if |ts| == 1 {
      assert Item(ts[0]) + "}" + "]}" == Item(ts[0]) + "}]}";
    } else {
      assert parts[1..] == Entries(ts[1..]);
      JoinIsListing(ts[1..]);
      var more := Listing(ts[1..][1..], "},", "}]}");
      assert Item(ts[0]) + "}" + "," + (Item(ts[1..][0]) + more) == Item(ts[0]) + ("}," + Item(ts[1..][0]) + more);
      assert Join(parts) + "]}" == parts[0] + "," + (Join(parts[1..]) + "]}");
    }
  }

  lemma PayloadIsListing(rows: seq<Row>)
    ensures Payload(rows) == "{" + TARGETS + Listing(Confirmed(rows), "", "]}")
  {
    var ts := Confirmed(rows);
    if ts != [] {
      JoinIsListing(ts);
      assert "" + Item(ts[0]) == Item(ts[0]);
      assert "{" + TARGETS + Join(Entries(ts)) + "]}" == "{" + TARGETS + (Join(Entries(ts)) + "]}");
    } else {
      assert "{" + TARGETS + "" + "]}" == "{" + TARGETS + "]}";
    }
  }

  // ---- reading one entry, whole or cut ----

  lemma FindsFirst(s: string, pattern: string, i: nat)
    requires pattern != "" && OccursAt(s, pattern, i) && forall j | 0 <= j < i :: s[j] != pattern[0]
    ensures Find(s, pattern) == Some(i)
  {
    hide Find;
    assert forall j: nat | OccursAt(s, pattern, j) :: s[j] == s[j..j + |pattern|][0];
  }

  lemma FindsNone(s: string, pattern: string)
    requires pattern != "" && forall j: nat | j + |pattern| <= |s| :: s[j] != pattern[0]
    ensures Find(s, pattern) == None
  {
    hide Find;
    assert forall j: nat | OccursAt(s, pattern, j) :: s[j] == s[j..j + |pattern|][0];
  }

  lemma ReadsOne(c: char, z: string)
    ensures ReadQuoted(EscapeOne(c) + z) == Behind([c], |EscapeOne(c)|, ReadQuoted(z))
  {
    var s := EscapeOne(c) + z;
    assert s[|EscapeOne(c)|..] == z && s[|EscapeOne(c)| - 1] == c;
  }

  lemma {:induction false} EscapeReadsBack(text: string, z: string)
    ensures ReadQuoted(Escape(text) + "\"" + z) == Some(Quoted(text, |Escape(text)| + 1))
  {
    hide EscapeOne, ReadQuoted;
    if text == "" {
      ReadsQuote(z);
      assert Escape(text) + "\"" + z == "\"" + z;
    } else {
      EscapeReadsBack(text[1..], z);
      var rest := Escape(text[1..]) + "\"" + z;
      ReadsOne(text[0], rest);
      assert Escape(text) + "\"" + z == EscapeOne(text[0]) + rest;
      assert text == [text[0]] + text[1..];
    }
  }

  lemma ReadsQuote(z: string)
    ensures ReadQuoted("\"" + z) == Some(Quoted("", 1))
  {
  }

  // A name whose closing quote is cut off is not read at all.
  lemma {:induction false} CutNameIsNotRead(text: string, k: nat)
    requires k <= |Escape(text)|
    ensures ReadQuoted(Escape(text)[..k]) == None
  {
    var s := Escape(text)[..k];
    if text != "" && k > 0 {
      var width := if text[0] == '\\' || text[0] == '"' then 2 else 1;
      if width <= k {
        CutNameIsNotRead(text[1..], k - width);
        assert s[width..] == Escape(text[1..])[..k - width];
      }
    }
  }

  // What may stand between the digits of one entry and the next.
  predicate Lead(lead: string) {
    lead == "" || lead == "},"
  }

  ghost predicate EndsDigits(y: string) {
    y != "" ==> !Decimal.IsDigit(y[0])
  }

  // The entry is found by its own markers, whatever its name contains.
  lemma ReadsItem(lead: string, folder: string, digits: string, y: string)
    requires Lead(lead) && folder != "" && Decimal.AllDigits(digits) && EndsDigits(y)
    ensures var s := lead + "{" + FOLDER + (Escape(folder) + "\"" + ("," + UID + (digits + y)));
            ReadEntry(s) == if ParseU32(digits).None? then None
                            else Some((Target(folder, ParseU32(digits).value), y))
  {
    hide Find, Escape, ReadQuoted, ParseU32, LeadingDigits;
    var tail := digits + y;
    var after := "," + UID + tail;
    var value := Escape(folder) + "\"" + after;
    var s := lead + "{" + FOLDER + value;
    var at := |lead| + 1;
    assert s[at..at + |FOLDER|] == FOLDER;
    FindsFirst(s, FOLDER, at);
    assert s[at + |FOLDER|..] == value;
    EscapeReadsBack(folder, after);
    assert value[|Escape(folder)| + 1..] == after;
    assert after[1..1 + |UID|] == UID;
    FindsFirst(after, UID, 1);
    assert after[1 + |UID|..] == tail;
    assert tail[..|digits|] == digits;
    LeadingDigitsIs(tail, |digits|);
    assert tail[|digits|..] == y;
  }

  lemma CutBeforeName(lead: string, k: nat)
    requires Lead(lead) && k < |lead| + 1 + |FOLDER|
    ensures ReadEntry((lead + "{" + FOLDER)[..k]) == None
  {
    FindsNone((lead + "{" + FOLDER)[..k], FOLDER);
  }

  lemma CutInName(lead: string, folder: string, j: nat)
    requires Lead(lead) && j <= |Escape(folder)|
    ensures ReadEntry(lead + "{" + FOLDER + Escape(folder)[..j]) == None
  {
    hide Find, Escape, ReadQuoted;
    var s := lead + "{" + FOLDER + Escape(folder)[..j];
    var at := |lead| + 1;
    assert s[at..at + |FOLDER|] == FOLDER;
    FindsFirst(s, FOLDER, at);
    assert s[at + |FOLDER|..] == Escape(folder)[..j];
    CutNameIsNotRead(folder, j);
  }

  lemma CutBeforeDigits(lead: string, folder: string, j: nat)
    requires Lead(lead) && j < 1 + |UID|
    ensures ReadEntry(lead + "{" + FOLDER + (Escape(folder) + "\"" + ("," + UID)[..j])) == None
  {
    hide Find, Escape, ReadQuoted;
    var after := ("," + UID)[..j];
    var value := Escape(folder) + "\"" + after;
    var s := lead + "{" + FOLDER + value;
    var at := |lead| + 1;
    assert s[at..at + |FOLDER|] == FOLDER;
    FindsFirst(s, FOLDER, at);
    assert s[at + |FOLDER|..] == value;
    EscapeReadsBack(folder, after);
    assert value[|Escape(folder)| + 1..] == after;
    FindsNone(after, UID);
  }

  // Where the digits of an entry start and end.
  function DigitsAt(lead: string, t: Target): nat {
    |lead| + 1 + |FOLDER| + |Escape(t.folder)| + 2 + |UID|
  }

  lemma ItemText(lead: string, t: Target, z: string)
    ensures lead + Item(t) + z
            == lead + "{" + FOLDER + (Escape(t.folder) + "\"" + ("," + UID + (Decimal.Digits(t.uid) + z)))
    ensures |lead + Item(t)| == DigitsAt(lead, t) + |Decimal.Digits(t.uid)|
  {
    hide Escape, JsonEscape, Decimal.Digits;
    EscapeIsJsonEscape(t.folder);
  }

  lemma CutBeforeUid(lead: string, t: Target, z: string, k: nat)
    requires Lead(lead) && t.folder != "" && k < DigitsAt(lead, t) && k <= |lead + Item(t) + z|
    ensures ReadEntry((lead + Item(t) + z)[..k]) == None
  {
    hide Escape, ReadEntry, Decimal.Digits, Item;
    ItemText(lead, t, z);
    var e := Escape(t.folder);
    var head := lead + "{" + FOLDER;
    var s := lead + Item(t) + z;
    if k < |head| {
      CutBeforeName(lead, k);
      assert s[..k] == head[..k];
    } else if k <= |head| + |e| {
      CutInName(lead, t.folder, k - |head|);
      assert s[..k] == head + e[..k - |head|];
    } else {
      var j := k - |head| - |e| - 1;
      CutBeforeDigits(lead, t.folder, j);
      assert s[..k] == head + (e + "\"" + ("," + UID)[..j]);
    }
  }

  // A listing cut after k characters, read up to its first entry.
  lemma ReadsCutItem(lead: string, t: Target, z: string, k: nat)
    requires Lead(lead) && t.folder != "" && EndsDigits(z)
    requires k <= |lead + Item(t) + z|
    ensures var start := DigitsAt(lead, t);
            var digits := Decimal.Digits(t.uid);
            |lead + Item(t)| == start + |digits|
            && ReadEntry((lead + Item(t) + z)[..k]) ==
               if k <= start then None
               else if k < start + |digits| then
                 if ParseU32(digits[..k - start]).None? then None
                 else Some((Target(t.folder, ParseU32(digits[..k - start]).value), ""))
               else if t.uid >= TWO32 then None
               else Some((t, z[..k - start - |digits|]))
  {
    hide Escape, ReadEntry, Decimal.Digits, Decimal.Value, Item, DigitsAt;
    ItemText(lead, t, z);
    var start := DigitsAt(lead, t);
    var digits := Decimal.Digits(t.uid);
    if k < start {
      CutBeforeUid(lead, t, z, k);
    } else {
      var d := if k < start + |digits| then digits[..k - start] else digits;
      var y := if k < start + |digits| then "" else z[..k - start - |digits|];
      CutText(lead, t, z, k, d, y);
      ReadsItem(lead, t.folder, d, y);
      Decimal.ValueOfDigits(t.uid);
    }
  }

  lemma CutText(lead: string, t: Target, z: string, k: nat, d: string, y: string)
    requires DigitsAt(lead, t) <= k <= |lead + Item(t) + z|
    requires var m := k - DigitsAt(lead, t);
             var digits := Decimal.Digits(t.uid);
             |lead + Item(t)| == DigitsAt(lead, t) + |digits|
             && (if m < |digits| then d == digits[..m] && y == "" else d == digits && y == z[..m - |digits|])
    ensures (lead + Item(t) + z)[..k]
            == lead + "{" + FOLDER + (Escape(t.folder) + "\"" + ("," + UID + (d + y)))
  {
    hide Escape, Decimal.Digits, Item;
    ItemText(lead, t, z);
  }

  // ---- reading the whole listing, whole or cut ----

  // What a listing of `ts` that is cut after k characters says.
  ghost function Cut(ts: seq<Target>, lead: string, k: int): seq<Target> {
    if ts == [] then []
    else
      var t := ts[0];
      var digits := Decimal.Digits(t.uid);
      var start := DigitsAt(lead, t);
      if k <= start then []
      else if k < start + |digits| then
        if ParseU32(digits[..k - start]).None? then []
        else [Target(t.folder, ParseU32(digits[..k - start]).value)]
      else if t.uid >= TWO32 then []
      else [t] + Cut(ts[1..], "},", k - start - |digits|)
  }

  lemma NoEntry(rest: string)
    requires |rest| < |FOLDER|
    ensures Scan(rest) == []
  {
  }

  lemma {:induction false} ScanCut(ts: seq<Target>, lead: string, end: string, k: nat)
    requires Lead(lead) && |end| <= 3 && forall t | t in ts :: t.folder != ""
    requires k <= |Listing(ts, lead, end)|
    ensures Scan(Listing(ts, lead, end)[..k]) == Cut(ts, lead, k)
  {
    hide ReadEntry, Item, DigitsAt, ParseU32, Decimal.Digits;
    if ts == [] {
      NoEntry(end[..k]);
    } else {
      var z := Listing(ts[1..], "},", "}]}");
      var m := k - |lead + Item(ts[0])|;
      ReadsCutItem(lead, ts[0], z, k);
      NoEntry("");
      if m >= 0 {
        ScanCut(ts[1..], "},", "}]}", m);
      }
    }
  }

  // The entries before the first UID that does not fit u32.
  function BeforeOversized(ts: seq<Target>): seq<Target> {
    if ts == [] || ts[0].uid >= TWO32 then [] else [ts[0]] + BeforeOversized(ts[1..])
  }

  lemma {:induction false} CutWhole(ts: seq<Target>, lead: string, end: string)
    requires Lead(lead) && forall t | t in ts :: t.folder != ""
    ensures Cut(ts, lead, |Listing(ts, lead, end)|) == BeforeOversized(ts)
  {
    hide DigitsAt, Item, Decimal.Digits, ParseU32;
    if ts != [] {
      var z := Listing(ts[1..], "},", "}]}");
      ItemText(lead, ts[0], z);
      assert |Listing(ts, lead, end)| == |lead + Item(ts[0])| + |z|;
      CutWhole(ts[1..], "},", "}]}");
    }
  }

  lemma TargetsOfCut(rows: seq<Row>, k: nat)
    requires k <= |Payload(rows)|
    ensures Targets(Payload(rows)[..k]) == Cut(Confirmed(rows), "", k - 1 - |TARGETS|)
  {
    hide Scan, Find, Payload, Listing;
    PayloadIsListing(rows);
    var listing := Listing(Confirmed(rows), "", "]}");
    var s := Payload(rows)[..k];
    if k < 1 + |TARGETS| {
      assert s == ("{" + TARGETS)[..k];
      FindsNone(s, TARGETS);
    } else {
      var n := k - 1 - |TARGETS|;
      assert s == "{" + TARGETS + listing[..n];
      assert s[1..1 + |TARGETS|] == TARGETS;
      FindsFirst(s, TARGETS, 1);
      assert s[1 + |TARGETS|..] == listing[..n];
      ScanCut(Confirmed(rows), "", "]}", n);
    }
  }

  // ---- the text itself ----

  lemma NothingPayload()
    ensures Payload([]) == "{\"targets\":[]}"
  {
  }

  // One entry, as JSON.
  lemma OnePayload(folder: string, uid: nat)
    requires folder != ""
    ensures Payload([Row(Some(folder), Some(uid))])
            == "{\"targets\":[{\"folder\":\"" + JsonEscape(folder) + "\",\"uid\":" + Decimal.Digits(uid) + "}]}"
  {
    hide JsonEscape, Decimal.Digits;
    var rows := [Row(Some(folder), Some(uid))];
    assert rows[1..] == [];
    assert Confirmed(rows) == [Target(folder, uid)];
    assert Entries(Confirmed(rows)) == [Item(Target(folder, uid)) + "}"];
  }

  // Every row with a mailbox and a UID is frozen, and no other.
  lemma {:induction false} FrozenIff(rows: seq<Row>, t: Target)
    ensures t in Confirmed(rows) <==>
              t.folder != "" && Row(Some(t.folder), Some(t.uid)) in rows
  {
    if rows != [] {
      FrozenIff(rows[1..], t);
      assert rows == [rows[0]] + rows[1..];
      assert Confirmed(rows) == (if TargetOf(rows[0]).Some? then [TargetOf(rows[0]).value] else [])
                                + Confirmed(rows[1..]);
    }
  }

  // ---- the theorems ----

  // The frozen list reads back as written, up to the first UID that is not a u32.
  lemma PayloadReadsBack(rows: seq<Row>)
    ensures Targets(Payload(rows)) == BeforeOversized(Confirmed(rows))
    ensures Targets(Payload(rows)) == Confirmed(rows) <==> forall t | t in Confirmed(rows) :: t.uid <= 4_294_967_295
  {
    hide Payload, Targets, Listing;
    var p := Payload(rows);
    var ts := Confirmed(rows);
    assert p[..|p|] == p;
    TargetsOfCut(rows, |p|);
    PayloadIsListing(rows);
    CutWhole(ts, "", "]}");
    WholeIff(ts);
  }

  lemma {:induction false} WholeIff(ts: seq<Target>)
    ensures BeforeOversized(ts) == ts <==> forall t | t in ts :: t.uid < TWO32
  {
    if ts != [] {
      WholeIff(ts[1..]);
      assert ts == [ts[0]] + ts[1..];
      if ts[0].uid < TWO32 {
        assert BeforeOversized(ts)[1..] == BeforeOversized(ts[1..]);
      }
    }
  }

  // The number `cut` is what a non-empty part of the front of the digits of `uid` denotes.
  ghost predicate FrontOf(cut: nat, uid: nat) {
    exists m: nat :: 0 < m <= |Decimal.Digits(uid)| && cut == Decimal.Value(Decimal.Digits(uid)[..m])
  }

  // Out of a truncated payload come no more entries than were written, in their
  // folders, with their UIDs, save that the last UID may have lost digits.
  lemma {:induction false} CutKeeps(ts: seq<Target>, lead: string, k: int)
    ensures var out := Cut(ts, lead, k);
            && |out| <= |ts|
            && (forall i | 0 <= i < |out| :: out[i].folder == ts[i].folder)
            && (forall i | 0 <= i < |out| - 1 :: out[i].uid == ts[i].uid)
            && (out != [] ==> FrontOf(out[|out| - 1].uid, ts[|out| - 1].uid) && out[|out| - 1].uid <= ts[|out| - 1].uid)
  {
    hide DigitsAt, Decimal.Digits, Decimal.Value;
    if ts != [] {
      var t := ts[0];
      var digits := Decimal.Digits(t.uid);
      var start := DigitsAt(lead, t);
      Decimal.ValueOfDigits(t.uid);
      if start < k < start + |digits| {
        Decimal.PrefixValue(digits, k - start);
      } else if start < k && t.uid < TWO32 {
        assert digits[..|digits|] == digits;
        CutKeeps(ts[1..], "},", k - start - |digits|);
      }
    }
  }

  lemma TruncatedKeeps(rows: seq<Row>, k: nat)
    requires k <= |Payload(rows)|
    ensures var out := Targets(Payload(rows)[..k]);
            var ts := Confirmed(rows);
            && |out| <= |ts|
            && (forall i | 0 <= i < |out| :: out[i].folder == ts[i].folder)
            && (forall i | 0 <= i < |out| - 1 :: out[i].uid == ts[i].uid)
            && (out != [] ==> FrontOf(out[|out| - 1].uid, ts[|out| - 1].uid) && out[|out| - 1].uid <= ts[|out| - 1].uid)
  {
    hide Targets, Payload, Cut, FrontOf;
    TargetsOfCut(rows, k);
    CutKeeps(Confirmed(rows), "", k - 1 - |TARGETS|);
  }

  // What a cut between two digits of an entry that is reached leaves of that entry,
  // when what is left of them is still a u32.
  ghost function CutEntry(ts: seq<Target>, lead: string, k: int): Option<Target> {
    if ts == [] then None
    else
      var digits := Decimal.Digits(ts[0].uid);
      var m := k - DigitsAt(lead, ts[0]);
      if 0 < m < |digits| then
        if Decimal.Value(digits[..m]) < TWO32 then Some(Target(ts[0].folder, Decimal.Value(digits[..m]))) else None
      else if m >= |digits| && ts[0].uid < TWO32 then CutEntry(ts[1..], "},", m - |digits|)
      else None
  }

  lemma LostDigits(uid: nat, m: nat)
    requires 0 < m < |Decimal.Digits(uid)|
    ensures Decimal.Value(Decimal.Digits(uid)[..m]) < uid
  {
    var digits := Decimal.Digits(uid);
    var front := digits[..|digits| - 1];
    assert uid >= 10 && front == Decimal.Digits(uid / 10);
    Decimal.ValueOfDigits(uid / 10);
    Decimal.PrefixValue(front, m);
    assert front[..m] == digits[..m];
  }

  // A cut listing reads as a front of the list, or as one with its last entry cut.
  lemma {:induction false} CutReads(ts: seq<Target>, lead: string, k: int)
    ensures var out := Cut(ts, lead, k);
            |out| <= |ts|
            && match CutEntry(ts, lead, k)
               case None => out == ts[..|out|]
               case Some(t) =>
                 |out| > 0 && out == ts[..|out| - 1] + [t]
                 && t.folder == ts[|out| - 1].folder && t.uid < ts[|out| - 1].uid
  {
    hide DigitsAt, Decimal.Digits, Decimal.Value;
    if ts != [] {
      var digits := Decimal.Digits(ts[0].uid);
      var m := k - DigitsAt(lead, ts[0]);
      if 0 < m < |digits| {
        LostDigits(ts[0].uid, m);
      } else if m >= |digits| && ts[0].uid < TWO32 {
        CutReads(ts[1..], "},", m - |digits|);
        var rest := Cut(ts[1..], "},", m - |digits|);
        hide Cut, CutEntry;
        FrontGrows(ts, |rest|);
      }
    }
  }

  lemma FrontGrows(ts: seq<Target>, n: nat)
    requires 0 < |ts| && n < |ts|
    ensures ts[..n + 1] == [ts[0]] + ts[1..][..n]
    ensures n > 0 ==> ts[..n] == [ts[0]] + ts[1..][..n - 1]
    ensures n > 0 ==> ts[n] == ts[1..][n - 1]
  {
  }

  // A truncated payload reads as a front of the frozen list exactly when the cut does
  // not fall inside a UID.
  lemma TruncatedIsAFrontIff(rows: seq<Row>, k: nat)
    requires k <= |Payload(rows)|
    ensures var out := Targets(Payload(rows)[..k]);
            |out| <= |Confirmed(rows)|
            && (out == Confirmed(rows)[..|out|] <==> CutEntry(Confirmed(rows), "", k - 1 - |TARGETS|).None?)
  {
    hide Targets, Payload, Cut, CutEntry;
    TargetsOfCut(rows, k);
    CutReads(Confirmed(rows), "", k - 1 - |TARGETS|);
  }

  // It names only messages that were frozen exactly when, besides, a cut UID happens
  // to be that of another frozen message of the same folder.
  lemma TruncatedNamesFrozenIff(rows: seq<Row>, k: nat)
    requires k <= |Payload(rows)|
    ensures (forall t | t in Targets(Payload(rows)[..k]) :: t in Confirmed(rows)) <==>
              match CutEntry(Confirmed(rows), "", k - 1 - |TARGETS|)
              case None => true
              case Some(t) => t in Confirmed(rows)
  {
    hide Targets, Payload, Cut, CutEntry;
    TargetsOfCut(rows, k);
    CutReads(Confirmed(rows), "", k - 1 - |TARGETS|);
    var out, ts := Targets(Payload(rows)[..k]), Confirmed(rows);
    match CutEntry(ts, "", k - 1 - |TARGETS|)
    case None => assert forall t | t in out :: t in ts;
    case Some(t) =>
      assert t in out;
      assert forall u | u in out :: u in ts[..|out| - 1] || u == t;
  }

  // INBOX, UID 12, cut after the 1: another message is named.
  lemma CutUidNamesAnother() returns (rows: seq<Row>, k: nat)
    ensures k <= |Payload(rows)| && Confirmed(rows) == [Target("INBOX", 12)]
    ensures Targets(Payload(rows)[..k]) == [Target("INBOX", 1)]
  {
    rows := [Row(Some("INBOX"), Some(12))];
    var t := Target("INBOX", 12);
    assert rows[1..] == [];
    assert Confirmed(rows) == [t];
    hide Escape, DigitsAt, Payload, Targets, Confirmed, Cut, Item;
    k := 1 + |TARGETS| + DigitsAt("", t) + 1;
    TwelveCut();
    PayloadIsListing(rows);
    ItemText("", t, "}]}");
    hide Decimal.Digits, Decimal.Value;
    TargetsOfCut(rows, k);
    CutAfterOne(t);
  }

  lemma TwelveCut()
    ensures Decimal.Digits(12) == "12" && ParseU32(Decimal.Digits(12)[..1]) == Some(1)
  {
    assert "12"[..1] == "1" && "1"[..0] == "";
    assert Decimal.Value("1") == 1;
  }

  lemma CutAfterOne(t: Target)
    requires t.uid == 12
    ensures Cut([t], "", DigitsAt("", t) + 1) == [Target(t.folder, 1)]
  {
    TwelveCut();
    hide DigitsAt, Decimal.Digits, ParseU32;
  }
}
