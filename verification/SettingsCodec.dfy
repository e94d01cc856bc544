// How each setting is written to its row, read back and clamped
// (crates/core/src/settings.rs, crates/core/src/mailbox.rs).
module SettingsCodec {
  import opened Characters
  import opened Wrappers
  import Decimal
  import Ordering

  // ---- lists of names, one a line ----

  function Join(ids: seq<string>): string {
    if ids == [] then ""
    else if |ids| == 1 then ids[0]
    else ids[0] + "\n" + Join(ids[1..])
  }

  // The first line feed, or the end.
  function LineEnd(s: string): (n: nat)
    ensures n <= |s| && '\n' !in s[..n] && (n < |s| ==> s[n] == '\n')
  {
    if s == "" || s[0] == '\n' then 0
    else
      var n := LineEnd(s[1..]);
      assert s[..n + 1] == [s[0]] + s[1..][..n];
      1 + n
  }

  function DropReturn(line: string): string {
    if line != "" && line[|line| - 1] == '\r' then line[..|line| - 1] else line
  }

  // str::lines: a carriage return before a line feed belongs to the line's end.
  function Lines(s: string): seq<string> {
    if s == "" then []
    else
      var n := LineEnd(s);
      if n == |s| then [s] else [DropReturn(s[..n])] + Lines(s[n + 1..])
  }

  function NonEmpty(lines: seq<string>): (r: seq<string>)
    ensures |r| <= |lines|
    ensures forall line :: line in r <==> line in lines && line != ""
  {
    if lines == [] then []
    else (if lines[0] == "" then [] else [lines[0]]) + NonEmpty(lines[1..])
  }

  lemma {:induction false} LinesAreLines(s: string)
    ensures forall line | line in Lines(s) :: '\n' !in line
  {
    if s != "" {
      var n := LineEnd(s);
      if n < |s| {
        LinesAreLines(s[n + 1..]);
      } else {
        assert s[..n] == s;
      }
    }
  }

  lemma LineEndIs(a: string, z: string)
    requires '\n' !in a
    ensures LineEnd(a + "\n" + z) == |a|
  {
    hide LineEnd;
    var s := a + "\n" + z;
    var n := LineEnd(s);
    assert s[|a|] == '\n' && forall i | 0 <= i < |a| :: s[i] == a[i];
    assert forall i | 0 <= i < n :: s[..n][i] == s[i];
  }

  lemma LinesOfTwo(a: string, z: string)
    requires '\n' !in a
    ensures Lines(a + "\n" + z) == [DropReturn(a)] + Lines(z)
  {
    LineEndIs(a, z);
    hide LineEnd;
    assert (a + "\n" + z)[..|a|] == a && (a + "\n" + z)[|a| + 1..] == z;
  }

  lemma LinesOfOne(a: string)
    requires '\n' !in a
    ensures Lines(a) == if a == "" then [] else [a]
  {
  }

  // What a list of line-free names reads back as: the returns at the end of all lines
  // but the last are lost.
  lemma LinesOfJoin(ids: seq<string>)
    requires ids != [] && forall id | id in ids :: '\n' !in id
    ensures Lines(Join(ids)) ==
            if |ids| > 1 then [DropReturn(ids[0])] + Lines(Join(ids[1..]))
            else if ids[0] == "" then [] else [ids[0]]
  {
    hide Lines, DropReturn;
    assert ids[0] in ids;
    if |ids| > 1 {
      LinesOfTwo(ids[0], Join(ids[1..]));
    } else {
      LinesOfOne(ids[0]);
    }
  }

  // A name that survives on its own line.
  predicate Survives(ids: seq<string>, i: nat)
    requires i < |ids|
  {
    ids[i] != "" && '\n' !in ids[i] && (i < |ids| - 1 ==> DropReturn(ids[i]) == ids[i])
  }

  lemma {:induction false} FewerLines(ids: seq<string>)
    requires forall id | id in ids :: '\n' !in id
    ensures |Lines(Join(ids))| <= |ids|
  {
    if ids != [] {
      LinesOfJoin(ids);
      FewerLines(ids[1..]);
    }
  }

  lemma FirstLineKeptIff(a: string, ids: seq<string>, more: seq<string>)
    requires a != "" && |more| <= |ids|
    ensures NonEmpty([DropReturn(a)] + more) == [a] + ids <==> DropReturn(a) == a && NonEmpty(more) == ids
  {
    var all := [DropReturn(a)] + more;
    assert all[1..] == more;
    if DropReturn(a) != "" {
      assert NonEmpty(all) == [DropReturn(a)] + NonEmpty(more);
      assert ([a] + ids)[1..] == ids && ([DropReturn(a)] + NonEmpty(more))[1..] == NonEmpty(more);
      assert ([a] + ids)[0] == a && ([DropReturn(a)] + NonEmpty(more))[0] == DropReturn(a);
    } else {
      assert NonEmpty(all) == NonEmpty(more);
    }
  }

  lemma {:induction false} LineFreeNamesReadBackIff(ids: seq<string>)
    requires forall id | id in ids :: '\n' !in id && id != ""
    ensures NonEmpty(Lines(Join(ids))) == ids <==> forall i: nat | i < |ids| :: Survives(ids, i)
  {
    hide LineEnd, Lines, NonEmpty, DropReturn, Join;
    if ids == [] {
      NothingReadsBack();
    } else {
      assert ids[0] in ids && forall id | id in ids[1..] :: id in ids;
      assert ids == [ids[0]] + ids[1..];
      LinesOfJoin(ids);
      if |ids| > 1 {
        LineFreeNamesReadBackIff(ids[1..]);
        FewerLines(ids[1..]);
        FirstLineKeptIff(ids[0], ids[1..], Lines(Join(ids[1..])));
        assert Survives(ids, 0) <==> DropReturn(ids[0]) == ids[0];
        SurviveFromTail(ids);
      } else {
        assert Survives(ids, 0);
      }
    }
  }

  lemma SurviveFromTail(ids: seq<string>)
    requires |ids| > 1
    ensures (forall i: nat | i < |ids| :: Survives(ids, i))
            <==> Survives(ids, 0) && forall i: nat | i < |ids[1..]| :: Survives(ids[1..], i)
  {
    hide DropReturn;
    if Survives(ids, 0) && forall i: nat | i < |ids[1..]| :: Survives(ids[1..], i) {
      forall i: nat | i < |ids|
        ensures Survives(ids, i)
      {
        if i > 0 {
          assert Survives(ids[1..], i - 1);
        }
      }
    }
    if forall i: nat | i < |ids| :: Survives(ids, i) {
      forall i: nat | i < |ids[1..]|
        ensures Survives(ids[1..], i)
      {
        assert Survives(ids, i + 1);
      }
    }
  }

  lemma NothingReadsBack()
    ensures NonEmpty(Lines(Join([]))) == []
  {
  }

  // The muted accounts read back exactly when every id is non-empty, has no line feed,
  // and does not end in a carriage return that a line feed would follow.
  lemma NamesReadBackIff(ids: seq<string>)
    ensures NonEmpty(Lines(Join(ids))) == ids <==> forall i: nat | i < |ids| :: Survives(ids, i)
  {
    var r := NonEmpty(Lines(Join(ids)));
    if forall id | id in ids :: '\n' !in id && id != "" {
      LineFreeNamesReadBackIff(ids);
    } else {
      var id :| id in ids && ('\n' in id || id == "");
      LinesAreLines(Join(ids));
      assert id !in r;
      var i :| 0 <= i < |ids| && ids[i] == id;
      assert !Survives(ids, i);
    }
  }

  // ---- image domains ----

  function Trim(s: string): string {
    if s != "" && IsWhitespace(s[0]) then Trim(s[1..])
    else if s != "" && IsWhitespace(s[|s| - 1]) then Trim(s[..|s| - 1])
    else s
  }

  predicate HostChar(c: char) {
    IsAlphanumeric(c) || c == '.' || c == '-'
  }

  predicate IsHost(host: string) {
    && 0 < |host| <= 253
    && host[0] != '.' && host[|host| - 1] != '.'
    && (forall i | 0 <= i < |host| - 1 :: !(host[i] == '.' && host[i + 1] == '.'))
    && (forall c | c in host :: HostChar(c))
  }

  // normalize_image_domain
  function NormalizeImageDomain(raw: string): Option<string> {
    var host := Lowered(Trim(raw));
    if IsHost(host) then Some(host) else None
  }

  lemma NormalDomainIsFixed(raw: string)
    requires NormalizeImageDomain(raw).Some?
    ensures var host := NormalizeImageDomain(raw).value;
            NormalizeImageDomain(host) == Some(host) && host != "" && '\n' !in host && '\r' !in host
  {
    var host := NormalizeImageDomain(raw).value;
    assert HostChar(host[0]) && HostChar(host[|host| - 1]);
    assert Trim(host) == host;
    assert forall i | 0 <= i < |host| :: Lower(host[i]) == host[i];
    assert Lowered(host) == host;
    assert !HostChar('\n') && !HostChar('\r');
  }

  // A domain name: letters, digits, dashes, and dots that stand singly and inside.
  ghost predicate DomainName(s: string) {
    && 1 <= |s| <= 253
    && (forall c | c in s :: 'a' <= c <= 'z' || 'A' <= c <= 'Z' || '0' <= c <= '9' || c in {'-', '.'})
    && (forall i | 0 <= i < |s| && s[i] == '.' :: 0 < i < |s| - 1 && s[i + 1] != '.')
  }

  ghost predicate Blank(s: string) {
    forall c | c in s :: IsWhitespace(c)
  }

  ghost predicate Bare(s: string) {
    s != "" ==> !IsWhitespace(s[0]) && !IsWhitespace(s[|s| - 1])
  }

  // What stands between the white space is the host, in lower case, if it names a
  // domain.
  lemma HostIff(before: string, s: string, after: string)
    requires Blank(before) && Blank(after) && Bare(s)
    ensures NormalizeImageDomain(before + s + after) == if DomainName(s) then Some(Lowered(s)) else None
  {
    TrimmedAre(before, s, after);
    var host := Lowered(s);
    if DomainName(s) {
      forall i | 0 <= i < |host| - 1
        ensures !(host[i] == '.' && host[i + 1] == '.')
      {
        assert s[i] in s && s[i + 1] in s;
      }
      assert s[0] != '.' && s[|s| - 1] != '.';
      assert forall c | c in s :: HostChar(Lower(c));
      assert forall i | 0 <= i < |s| :: s[i] in s && host[i] == Lower(s[i]);
    } else if IsHost(host) {
      forall c | c in s
        ensures HostChar(c)
      {
        var i :| 0 <= i < |s| && s[i] == c;
        assert host[i] in host;
      }
      assert forall i | 0 <= i < |s| && s[i] == '.' :: host[i] == '.';
      assert false;
    }
  }

  lemma {:induction false} TrimmedAre(before: string, s: string, after: string)
    requires Blank(before) && Blank(after) && Bare(s)
    ensures Trim(before + s + after) == s
    decreases |before| + |after|
  {
    var all := before + s + after;
    if before != "" {
      assert before[0] in before && all[1..] == before[1..] + s + after;
      TrimmedAre(before[1..], s, after);
    } else if after != "" {
      var n := |after| - 1;
      assert after[n] in after && all[..|all| - 1] == before + s + after[..n];
      assert all[|all| - 1] == after[n];
      if IsWhitespace(all[0]) {
        assert s == "" && all == after;
        assert after == "" + s + after && after[1..] == after[1..] + s + "";
        TrimmedAre("", s, after[1..]);
        assert "" + s + after[1..] == all[1..];
      } else {
        TrimmedAre(before, s, after[..n]);
      }
    } else {
      assert all == s;
    }
  }

  // Every text is one between white space.
  lemma {:induction false} WhiteSpaceAround(raw: string) returns (before: string, s: string, after: string)
    ensures raw == before + s + after && Blank(before) && Blank(after) && Bare(s)
  {
    before, s, after := "", raw, "";
    if raw != "" && IsWhitespace(raw[0]) {
      before, s, after := WhiteSpaceAround(raw[1..]);
      before := [raw[0]] + before;
    } else if raw != "" && IsWhitespace(raw[|raw| - 1]) {
      before, s, after := WhiteSpaceAround(raw[..|raw| - 1]);
      after := after + [raw[|raw| - 1]];
    }
  }

  const MAX_DOMAINS := 500

  // The hosts kept, in the order they are met: each once, and no more than fit.
  function FirstHosts(raw: seq<string>): (r: seq<string>)
    ensures |r| <= MAX_DOMAINS
  {
    if raw == [] then []
    else
      var before := FirstHosts(raw[..|raw| - 1]);
      var host := NormalizeImageDomain(raw[|raw| - 1]);
      if |before| == MAX_DOMAINS || host.None? || host.value in before then before else before + [host.value]
  }

  function NormalizedDomains(raw: seq<string>): seq<string> {
    Ordering.Sort(FirstHosts(raw), Ordering.TextLe)
  }

  // normalize_allowed_image_domains
  method NormalizeAllowedImageDomains(raw: seq<string>) returns (out: seq<string>)
    ensures out == NormalizedDomains(raw)
  {
    hide NormalizeImageDomain;
    var seen: set<string> := {};
    out := [];
    var i := 0;
    while i < |raw|
      invariant i <= |raw| && out == FirstHosts(raw[..i])
      invariant |out| < MAX_DOMAINS && forall host :: host in seen <==> host in out
    {
      assert raw[..i + 1][..i] == raw[..i];
      var domain := NormalizeImageDomain(raw[i]);
      i := i + 1;
      if domain.None? || domain.value in seen {
        continue;
      }
      seen := seen + {domain.value};
      out := out + [domain.value];
      if |out| == MAX_DOMAINS {
        FullStaysFull(raw, i);
        break;
      }
    }
    assert raw[..|raw|] == raw;
    out := Ordering.Sort(out, Ordering.TextLe);
  }

  lemma {:induction false} FullStaysFull(raw: seq<string>, i: nat)
    requires i <= |raw| && |FirstHosts(raw[..i])| == MAX_DOMAINS
    ensures FirstHosts(raw) == FirstHosts(raw[..i])
  {
    if i == |raw| {
      assert raw[..i] == raw;
    } else {
      var front := raw[..|raw| - 1];
      assert front[..i] == raw[..i];
      FullStaysFull(front, i);
    }
  }

  ghost predicate NormalHosts(hosts: seq<string>) {
    Ordering.Distinct(hosts) && |hosts| <= 500
    && forall host | host in hosts :: NormalizeImageDomain(host) == Some(host)
  }

  lemma {:induction false} FirstHostsAreNormal(raw: seq<string>)
    ensures NormalHosts(FirstHosts(raw))
  {
    hide NormalizeImageDomain;
    if raw != [] {
      FirstHostsAreNormal(raw[..|raw| - 1]);
      if NormalizeImageDomain(raw[|raw| - 1]).Some? {
        NormalDomainIsFixed(raw[|raw| - 1]);
      }
    }
  }

  lemma {:induction false} NormalHostsAreKept(hosts: seq<string>)
    requires NormalHosts(hosts)
    ensures FirstHosts(hosts) == hosts
  {
    hide NormalizeImageDomain;
    if hosts != [] {
      var n := |hosts| - 1;
      NormalHostsAreKept(hosts[..n]);
      assert hosts[n] in hosts;
      assert hosts == hosts[..n] + [hosts[n]];
      assert hosts[n] !in hosts[..n];
    }
  }

  // No host is dropped unless the list is full, and none is made up.
  lemma {:induction false} HostsAreKept(raw: seq<string>, host: string)
    ensures host in FirstHosts(raw) ==> exists r :: r in raw && NormalizeImageDomain(r) == Some(host)
    ensures (exists r :: r in raw && NormalizeImageDomain(r) == Some(host)) && |FirstHosts(raw)| < 500
            ==> host in FirstHosts(raw)
  {
    hide NormalizeImageDomain;
    if raw != [] {
      var n := |raw| - 1;
      HostsAreKept(raw[..n], host);
      assert raw[n] in raw && forall r :: r in raw <==> r in raw[..n] || r == raw[n];
    }
  }

  // Normalising is a clamp: its results are normal hosts in order, and are left alone.
  lemma NormalizedIsFixed(raw: seq<string>)
    ensures NormalHosts(NormalizedDomains(raw)) && Ordering.Sorted(NormalizedDomains(raw), Ordering.TextLe)
    ensures NormalizedDomains(NormalizedDomains(raw)) == NormalizedDomains(raw)
  {
    hide NormalizeImageDomain;
    var hosts, out := FirstHosts(raw), NormalizedDomains(raw);
    FirstHostsAreNormal(raw);
    Ordering.TextOrderTotal();
    Ordering.SortSorts(hosts, Ordering.TextLe);
    Ordering.SortMembers(hosts, Ordering.TextLe);
    Ordering.DistinctByMultiset(hosts, out);
    NormalHostsAreKept(out);
    Ordering.SortSorts(out, Ordering.TextLe);
    Ordering.SortedUnique(NormalizedDomains(out), out, Ordering.TextLe);
  }

  lemma {:induction false} HostsReadBack(hosts: seq<string>)
    requires NormalHosts(hosts)
    ensures Lines(Join(hosts)) == hosts
  {
    hide NormalizeImageDomain;
    forall host | host in hosts
      ensures host != "" && '\n' !in host && '\r' !in host
    {
      NormalDomainIsFixed(host);
    }
    if hosts != [] {
      assert hosts[0] in hosts && hosts == [hosts[0]] + hosts[1..];
      assert hosts[0][|hosts[0]| - 1] in hosts[0];
      LinesOfJoin(hosts);
      HostsReadBack(hosts[1..]);
    }
  }

  // ---- numbers ----

  // parse::<T>() of an integer type that holds lo..=hi.
  function ParseInt(text: string, lo: int, hi: int): Option<int> {
    var negative := text != "" && text[0] == '-' && lo < 0;
    var digits := if text != "" && (text[0] == '+' || negative) then text[1..] else text;
    if digits == "" || !Decimal.AllDigits(digits) then None
    else
      var magnitude: int := Decimal.Value(digits);
      var n := if negative then -magnitude else magnitude;
      if lo <= n <= hi then Some(n) else None
  }

  lemma DigitsReadBack(n: nat, lo: int, hi: int)
    requires lo <= n <= hi
    ensures ParseInt(Decimal.Digits(n), lo, hi) == Some(n)
  {
    var digits := Decimal.Digits(n);
    assert Decimal.IsDigit(digits[0]);
    Decimal.ValueOfDigits(n);
    hide Decimal.Digits, Decimal.Value;
  }

  lemma MinusReadsBack(digits: string, lo: int, hi: int)
    requires digits != "" && Decimal.AllDigits(digits) && lo <= -Magnitude(digits) <= hi && lo < 0
    ensures ParseInt("-" + digits, lo, hi) == Some(-Magnitude(digits))
  {
    assert ("-" + digits)[1..] == digits;
    hide Decimal.Value;
  }

  function Magnitude(digits: string): int
    requires Decimal.AllDigits(digits)
  {
    Decimal.Value(digits)
  }

  lemma NumberReadsBack(n: int, lo: int, hi: int)
    requires lo <= n <= hi
    ensures ParseInt(Decimal.Render(n), lo, hi) == Some(n)
  {
    hide ParseInt, Decimal.Digits, Decimal.Value;
    if n < 0 {
      Decimal.ValueOfDigits(-n);
      MinusReadsBack(Decimal.Digits(-n), lo, hi);
    } else {
      DigitsReadBack(n, lo, hi);
    }
  }
}
