// Links in a plain-text body: the markup the reading pane's label is given
// (crates/app/src/html_view.rs). Text is a sequence of Unicode scalar values, and
// which of them count as alphanumeric is a parameter.
module Linkifier {
  import opened Characters
  import opened Wrappers

  // ---- characters ----

  // char::is_control
  predicate IsControl(c: char) {
    c <= '\U{001F}' || '\U{007F}' <= c <= '\U{009F}'
  }

  // What ends a link: whitespace, controls and quoting characters.
  predicate Stops(c: char) {
    IsWhitespace(c) || IsControl(c)
    || c == '<' || c == '>' || c == '"' || c == '\'' || c == '\U{00AB}' || c == '\U{00BB}'
  }

  predicate SentenceEnd(c: char) {
    c == '.' || c == ',' || c == ';' || c == ':' || c == '!' || c == '?' || c == '\U{2026}'
  }

  predicate Closing(c: char) {
    c == ')' || c == ']' || c == '}'
  }

  function Opening(c: char): char {
    if c == ')' then '(' else if c == ']' then '[' else '{'
  }

  function Count(s: string, c: char): nat {
    if s == "" then 0 else Count(s[..|s| - 1], c) + if s[|s| - 1] == c then 1 else 0
  }

  // The first place a character stands, or None.
  function FindChar(s: string, c: char): (r: Option<nat>)
    ensures r.Some? ==> r.value < |s| && s[r.value] == c && c !in s[..r.value]
    ensures r.None? ==> c !in s
  {
    if s == "" then None
    else if s[0] == c then Some(0)
    else
      match FindChar(s[1..], c)
      case None =>
        assert s == [s[0]] + s[1..];
        None
      case Some(i) =>
        assert s[..i + 1] == [s[0]] + s[1..][..i];
        Some(i + 1)
  }

  // ---- link_decision ----

  datatype LinkDecision = Refuse | Open | Confirm

  function SchemeOf(uri: string): string {
    match FindChar(uri, ':')
    case None => ""
    case Some(i) => Lowered(uri[..i])
  }

  function Decide(uri: string, confirmHttp: bool): LinkDecision {
    var scheme := SchemeOf(uri);
    if scheme == "http" || scheme == "https" then if confirmHttp then Confirm else Open
    else if scheme == "mailto" then Confirm
    else Refuse
  }

  // ---- link_span ----

  predicate StartsWith(s: string, scheme: string) {
    |scheme| <= |s| && Lowered(s[..|scheme|]) == scheme
  }

  function KnownScheme(rest: string): (r: Option<string>)
    ensures r.Some? ==> r.value in {"https://", "http://", "mailto:"} && StartsWith(rest, r.value)
  {
    if StartsWith(rest, "https://") then Some("https://")
    else if StartsWith(rest, "http://") then Some("http://")
    else if StartsWith(rest, "mailto:") then Some("mailto:")
    else None
  }

  // A span whose last character does not belong to the link.
  predicate Trims(span: string)
    requires span != ""
  {
    var last := span[|span| - 1];
    SentenceEnd(last) || (Closing(last) && Count(span, Opening(last)) < Count(span, last))
  }

  // Before the first character that ends a link.
  function RunLength(rest: string): (n: nat)
    ensures n <= |rest| && (forall i | 0 <= i < n :: !Stops(rest[i])) && (n < |rest| ==> Stops(rest[n]))
  {
    if rest == "" || Stops(rest[0]) then 0 else 1 + RunLength(rest[1..])
  }

  // The longest front of `span` that has nothing left to trim.
  function Trimmed(span: string): (n: nat)
    ensures n <= |span|
    ensures n > 0 ==> !Trims(span[..n])
    ensures forall m | n < m <= |span| :: Trims(span[..m])
  {
    if span == "" then 0
    else if !Trims(span) then
      assert span[..|span|] == span;
      |span|
    else
      var n := |span| - 1;
      assert span[..|span|] == span;
      assert forall m | 0 <= m <= n :: span[..n][..m] == span[..m];
      Trimmed(span[..n])
  }

  // How far a link at the start of `rest` runs.
  function LinkSpan(rest: string): (r: Option<nat>)
    ensures r.Some? ==> 0 < r.value <= |rest|
  {
    match KnownScheme(rest)
    case None => None
    case Some(scheme) =>
      var n := Trimmed(rest[..RunLength(rest)]);
      if n <= |scheme| then None else Some(n)
  }

  // link_span
  method FindLinkSpan(rest: string) returns (r: Option<nat>)
    ensures r == LinkSpan(rest)
  {
    hide Trims, Stops, RunLength, Trimmed;
    var scheme := KnownScheme(rest);
    if scheme.None? {
      return None;
    }
    var end := |rest|;
    for offset := 0 to |rest|
      invariant end == |rest| && forall i | 0 <= i < offset :: !Stops(rest[i])
    {
      if Stops(rest[offset]) {
        end := offset;
        break;
      }
    }
    RunLengthIs(rest, end);
    var span := rest[..end];
    while true
      invariant span <= rest[..end]
      invariant forall m | |span| < m <= end :: Trims(rest[..end][..m])
      decreases |span|
    {
      if span == "" {
        TrimmedIs(rest[..end], 0);
        return None;
      }
      var last := span[|span| - 1];
      assert rest[..end][..|span|] == span;
      var trims := CanTrim(span);
      if !trims {
        break;
      }
      span := span[..|span| - 1];
    }
    assert rest[..end][..|span|] == span;
    TrimmedIs(rest[..end], |span|);
    if |span| <= |scheme.value| {
      return None;
    }
    return Some(|span|);
  }

  // One round of its trimming loop.
  method CanTrim(span: string) returns (trims: bool)
    requires span != ""
    ensures trims == Trims(span)
  {
    var last := span[|span| - 1];
    if SentenceEnd(last) {
      trims := true;
    } else if Closing(last) {
      var open := if last == ')' then '(' else if last == ']' then '[' else '{';
      trims := !(Count(span, open) >= Count(span, last));
    } else {
      trims := false;
    }
  }

  lemma RunLengthIs(rest: string, n: nat)
    requires n <= |rest| && (forall i | 0 <= i < n :: !Stops(rest[i])) && (n < |rest| ==> Stops(rest[n]))
    ensures RunLength(rest) == n
  {
    hide Stops, RunLength;
    assert !(RunLength(rest) < n);
  }

  lemma TrimmedIs(span: string, n: nat)
    requires n <= |span| && (n > 0 ==> !Trims(span[..n])) && forall m | n < m <= |span| :: Trims(span[..m])
    ensures Trimmed(span) == n
  {
    hide Trims, Trimmed;
    assert !(Trimmed(span) < n) && !(n < Trimmed(span));
  }

  // What makes a text a link.
  ghost predicate IsLink(uri: string) {
    && uri != "" && (forall c | c in uri :: !Stops(c))
    && Decide(uri, true) == Confirm && Decide(uri, false) != Refuse
    && !SentenceEnd(uri[|uri| - 1])
  }

  lemma SchemeSplits(uri: string, scheme: string)
    requires scheme in {"https", "http", "mailto"} && |scheme| < |uri|
    requires Lowered(uri[..|scheme| + 1]) == scheme + ":"
    ensures SchemeOf(uri) == scheme
  {
    var front := uri[..|scheme| + 1];
    assert Lowered(front)[|scheme|] == ':';
    assert forall i | 0 <= i < |scheme| :: Lowered(front)[i] == scheme[i] && Lower(uri[i]) == scheme[i];
    assert uri[|scheme|] == ':';
    assert forall i | 0 <= i < |scheme| :: uri[i] != ':';
    assert FindChar(uri, ':') == Some(|scheme|);
    assert Lowered(uri[..|scheme|]) == scheme;
  }

  // Every span found is a link that will not be refused: in bounds, not empty, and
  // free of whitespace, controls and quoting characters.
  lemma SpanIsLink(rest: string)
    requires LinkSpan(rest).Some?
    ensures LinkSpan(rest).value <= |rest| && IsLink(rest[..LinkSpan(rest).value])
  {
    var n := LinkSpan(rest).value;
    var uri := rest[..n];
    var scheme := KnownScheme(rest).value;
    var run := rest[..RunLength(rest)];
    assert run[..n] == uri;
    var name := if scheme == "https://" then "https" else if scheme == "http://" then "http" else "mailto";
    assert scheme[..|name| + 1] == name + ":";
    assert uri[..|name| + 1] == rest[..|scheme|][..|name| + 1];
    assert Lowered(uri[..|name| + 1]) == Lowered(rest[..|scheme|])[..|name| + 1];
    SchemeSplits(uri, name);
  }

  // ---- escaping ----

  // The controls GLib writes as numbers: not tab, line feed, return, or next line.
  predicate Numbered(c: char) {
    '\U{0001}' <= c <= '\U{0008}' || '\U{000B}' <= c <= '\U{000C}' || '\U{000E}' <= c <= '\U{001F}'
    || '\U{007F}' <= c <= '\U{0084}' || '\U{0086}' <= c <= '\U{009F}'
  }

  function HexDigit(d: nat): char
    requires d < 16
  {
    if d < 10 then '0' + d as char else 'a' + (d - 10) as char
  }

  function Hex(n: nat): string
    requires n < 256
  {
    if n < 16 then [HexDigit(n)] else [HexDigit(n / 16), HexDigit(n % 16)]
  }

  function EscapeChar(c: char): string {
    if c == '&' then "&amp;"
    else if c == '<' then "&lt;"
    else if c == '>' then "&gt;"
    else if c == '\'' then "&#39;"
    else if c == '"' then "&quot;"
    else if Numbered(c) then "&#x" + Hex(c as nat) + ";"
    else [c]
  }

  // escape_markup
  function Escape(text: string): string {
    if text == "" then "" else EscapeChar(text[0]) + Escape(text[1..])
  }

  function Entity(name: string): Option<char> {
    if name == "amp" then Some('&')
    else if name == "lt" then Some('<')
    else if name == "gt" then Some('>')
    else if name == "#39" then Some('\'')
    else if name == "quot" then Some('"')
    else if |name| == 3 && name[..2] == "#x" && Characters.HexDigit(name[2]).Some? then
      Some(Characters.HexDigit(name[2]).value as char)
    else if |name| == 4 && name[..2] == "#x" && Characters.HexDigit(name[2]).Some?
        && Characters.HexDigit(name[3]).Some? then
      Some((16 * Characters.HexDigit(name[2]).value + Characters.HexDigit(name[3]).value) as char)
    else None
  }

  // Character data as a markup parser reads it: every entity decoded, and none of the
  // markup's own characters bare.
  function Unescape(s: string): Option<string> {
    if s == "" then Some("")
    else if s[0] == '&' then
      match FindChar(s[1..], ';')
      case None => None
      case Some(i) =>
        var c, rest := Entity(s[1..][..i]), Unescape(s[1..][i + 1..]);
        if c.None? || rest.None? then None else Some([c.value] + rest.value)
    else if s[0] == '<' || s[0] == '>' || s[0] == '"' || s[0] == '\'' then None
    else
      var rest := Unescape(s[1..]);
      if rest.None? then None else Some([s[0]] + rest.value)
  }

  lemma FindsChar(a: string, c: char, b: string)
    requires c !in a
    ensures FindChar(a + [c] + b, c) == Some(|a|)
  {
    hide FindChar;
    var s := a + [c] + b;
    assert s[|a|] == c;
    assert forall i | 0 <= i < |a| :: s[i] == a[i];
    var r := FindChar(s, c);
    assert r.Some?;
    assert forall i | 0 <= i < r.value :: s[..r.value][i] == s[i];
  }

  lemma HexReadsBack(n: nat)
    requires n < 256
    ensures Entity("#x" + Hex(n)) == Some(n as char)
    ensures forall c | c in Hex(n) :: '0' <= c <= '9' || 'a' <= c <= 'f'
  {
    var name := "#x" + Hex(n);
    assert name[..2] == "#x";
    assert name[0] == '#' && name[1] == 'x' && forall i | 0 <= i < |Hex(n)| :: name[i + 2] == Hex(n)[i];
    assert "amp"[0] == 'a' && "lt"[0] == 'l' && "gt"[0] == 'g' && "quot"[0] == 'q' && "#39"[1] == '3';
  }

  // An entity is an ampersand, a name and a semicolon, and gives its character back.
  lemma EscapeCharReadsBack(c: char, z: string)
    requires EscapeChar(c) != [c]
    ensures var e := EscapeChar(c);
            e[0] == '&' && FindChar((e + z)[1..], ';') == Some(|e| - 2)
            && Entity((e + z)[1..][..|e| - 2]) == Some(c) && (e + z)[1..][|e| - 1..] == z
  {
    var e := EscapeChar(c);
    var name := e[1..|e| - 1];
    assert ';' !in name && Entity(name) == Some(c) && e == "&" + name + ";" by {
      EntityName(c);
    }
    assert (e + z)[1..] == name + [';'] + z;
    FindsChar(name, ';', z);
    assert (name + [';'] + z)[..|name|] == name;
  }

  lemma EntityName(c: char)
    requires EscapeChar(c) != [c]
    ensures var e := EscapeChar(c);
            |e| >= 2 && var name := e[1..|e| - 1];
            ';' !in name && Entity(name) == Some(c) && e == "&" + name + ";"
  {
    var e := EscapeChar(c);
    if c == '&' {
      assert e[1..|e| - 1] == "amp";
    } else if c == '<' {
      assert e[1..|e| - 1] == "lt";
    } else if c == '>' {
      assert e[1..|e| - 1] == "gt";
    } else if c == '\'' {
      assert e[1..|e| - 1] == "#39";
    } else if c == '"' {
      assert e[1..|e| - 1] == "quot";
    } else {
      HexReadsBack(c as nat);
      assert e[1..|e| - 1] == "#x" + Hex(c as nat);
    }
  }

  lemma {:induction false} EscapeReadsBack(text: string)
    ensures Unescape(Escape(text)) == Some(text)
  {
    hide EscapeChar, Entity, FindChar;
    if text != "" {
      var c, rest := text[0], Escape(text[1..]);
      EscapeReadsBack(text[1..]);
      assert text == [c] + text[1..];
      if EscapeChar(c) == [c] {
        BareChars(c);
        assert ([c] + rest)[1..] == rest;
      } else {
        EscapeCharReadsBack(c, rest);
      }
    }
  }

  lemma BareChars(c: char)
    requires EscapeChar(c) == [c]
    ensures c != '&' && c != '<' && c != '>' && c != '"' && c != '\''
  {
    assert |"&amp;"| == 5 && |"&lt;"| == 4 && |"&gt;"| == 4 && |"&quot;"| == 6 && |"&#39;"| == 5;
  }

  lemma {:induction false} EscapeConcat(a: string, b: string)
    ensures Escape(a + b) == Escape(a) + Escape(b)
  {
    hide EscapeChar;
    if a == "" {
      assert a + b == b;
    } else {
      assert (a + b)[1..] == a[1..] + b;
      EscapeConcat(a[1..], b);
    }
  }

  lemma {:induction false} EscapeIsQuiet(text: string)
    ensures '<' !in Escape(text) && '"' !in Escape(text) && '>' !in Escape(text)
  {
    if text != "" {
      EscapeIsQuiet(text[1..]);
      if EscapeChar(text[0]) != [text[0]] {
        hide EscapeChar;
        EscapedIsQuiet(text[0]);
      }
    }
  }

  lemma EscapedIsQuiet(c: char)
    ensures '<' !in EscapeChar(c) && '"' !in EscapeChar(c) && '>' !in EscapeChar(c)
  {
    if Numbered(c) {
      HexReadsBack(c as nat);
      hide Hex, Entity;
    }
  }

  // ---- the body in pieces ----

  datatype Link = Link(uri: string, after: string)

  // Text with links in it: what comes before the first, and what follows each.
  datatype Linked = Linked(lead: string, links: seq<Link>)

  const OPENING := "<a href=\""
  const CLOSING := "</a>"

  // Not glued to the end of a word.
  predicate AtBoundary(prev: Option<char>, alnum: char -> bool) {
    prev.None? || !alnum(prev.value)
  }

  // The link that starts here, if one does.
  function LinkAt(rest: string, prev: Option<char>, alnum: char -> bool): (r: Option<nat>)
    ensures r.Some? ==> 0 < r.value <= |rest|
  {
    if AtBoundary(prev, alnum) then
      match LinkSpan(rest)
      case None => None
      case Some(n) => if Decide(rest[..n], true) == Refuse then None else Some(n)
    else None
  }

  // Links are taken from the left, and nothing inside a link starts another.
  function Links(rest: string, prev: Option<char>, alnum: char -> bool): Linked
    decreases |rest|
  {
    if rest == "" then Linked("", [])
    else
      match LinkAt(rest, prev, alnum)
      case Some(n) =>
        var more := Links(rest[n..], Some(rest[n - 1]), alnum);
        Linked("", [Link(rest[..n], more.lead)] + more.links)
      case None =>
        var more := Links(rest[1..], Some(rest[0]), alnum);
        Linked([rest[0]] + more.lead, more.links)
  }

  function AnchorText(uri: string): string {
    OPENING + Escape(uri) + "\">" + Escape(uri) + CLOSING
  }

  function RenderLinks(links: seq<Link>): string {
    if links == [] then ""
    else AnchorText(links[0].uri) + Escape(links[0].after) + RenderLinks(links[1..])
  }

  function Render(body: Linked): string {
    Escape(body.lead) + RenderLinks(body.links)
  }

  // plain_body_markup
  method PlainBodyMarkup(text: string, alnum: char -> bool) returns (out: string)
    ensures out == Render(Links(text, None, alnum))
  {
    hide LinkSpan, Escape, Render, Links, Decide, AnchorText, AtBoundary;
    out := "";
    var cursor, idx := 0, 0;
    var prev: Option<char> := None;
    ghost var all := Render(Links(text, None, alnum));
    assert text[0..] == text && text[0..0] == "";
    EscapeNothing();
    assert "" + "" + all == all;
    while idx < |text|
      invariant cursor <= idx <= |text|
      invariant out + Escape(text[cursor..idx]) + Render(Links(text[idx..], prev, alnum)) == all
    {
      var rest := text[idx..];
      var link := TakeLink(rest, prev, alnum);
      if link.Some? {
        var len := link.value;
        LinkRenders(rest, prev, alnum, len);
        assert rest[len..] == text[idx + len..];
        ghost var tail := Render(Links(rest[len..], Some(rest[len - 1]), alnum));
        LinkGoesOut(out, Escape(text[cursor..idx]), AnchorText(rest[..len]), tail, all);
        out := out + Escape(text[cursor..idx]);
        out := PushAnchor(out, rest[..len]);
        idx := idx + len;
        cursor := idx;
        prev := Some(rest[len - 1]);
        assert text[cursor..idx] == "";
        continue;
      }
      CharRenders(rest, prev, alnum);
      assert rest[1..] == text[idx + 1..];
      assert text[cursor..idx + 1] == text[cursor..idx] + [rest[0]];
      CharWaits(out, text[cursor..idx], rest[0], Render(Links(rest[1..], Some(rest[0]), alnum)), all);
      idx := idx + 1;
      prev := Some(rest[0]);
    }
    assert text[|text|..] == "" && text[cursor..idx] == text[cursor..];
    NothingRenders(prev, alnum);
    out := out + Escape(text[cursor..]);
  }

  // The test of its loop.
  method TakeLink(rest: string, prev: Option<char>, alnum: char -> bool) returns (link: Option<nat>)
    ensures link == LinkAt(rest, prev, alnum)
  {
    hide LinkSpan, Decide;
    var atBoundary := prev.None? || !alnum(prev.value);
    if atBoundary {
      var span := FindLinkSpan(rest);
      if span.Some? && Decide(rest[..span.value], true) != Refuse {
        return span;
      }
    }
    return None;
  }

  method PushAnchor(before: string, uri: string) returns (out: string)
    ensures out == before + AnchorText(uri)
  {
    hide Escape;
    out := before + OPENING;
    out := out + Escape(uri);
    out := out + "\">";
    out := out + Escape(uri);
    out := out + CLOSING;
  }

  lemma LinkGoesOut(out: string, pending: string, anchor: string, tail: string, all: string)
    requires out + pending + (anchor + tail) == all
    ensures out + pending + anchor + "" + tail == all
  {
    Regroup(out + pending, anchor, tail);
    assert out + pending + anchor + "" == out + pending + anchor;
  }

  lemma CharWaits(out: string, pending: string, c: char, tail: string, all: string)
    requires out + Escape(pending) + (Escape([c]) + tail) == all
    ensures out + Escape(pending + [c]) + tail == all
  {
    hide Escape;
    EscapeConcat(pending, [c]);
    Regroup(out + Escape(pending), Escape([c]), tail);
    Regroup(out, Escape(pending), Escape([c]));
  }

  lemma Regroup(a: string, b: string, c: string)
    ensures a + b + c == a + (b + c)
  {
  }

  lemma EscapeNothing()
    ensures Escape("") == ""
  {
  }

  lemma NothingRenders(prev: Option<char>, alnum: char -> bool)
    ensures Render(Links("", prev, alnum)) == ""
  {
  }

  lemma LinkRenders(rest: string, prev: Option<char>, alnum: char -> bool, n: nat)
    requires rest != "" && LinkAt(rest, prev, alnum) == Some(n)
    ensures Render(Links(rest, prev, alnum))
            == AnchorText(rest[..n]) + Render(Links(rest[n..], Some(rest[n - 1]), alnum))
  {
    hide LinkAt, Escape, AnchorText;
    EscapeNothing();
    var more := Links(rest[n..], Some(rest[n - 1]), alnum);
    var links := [Link(rest[..n], more.lead)] + more.links;
    assert links[1..] == more.links;
    assert "" + RenderLinks(links) == RenderLinks(links);
    Regroup(AnchorText(rest[..n]), Escape(more.lead), RenderLinks(more.links));
  }

  lemma CharRenders(rest: string, prev: Option<char>, alnum: char -> bool)
    requires rest != "" && LinkAt(rest, prev, alnum).None?
    ensures Render(Links(rest, prev, alnum))
            == Escape([rest[0]]) + Render(Links(rest[1..], Some(rest[0]), alnum))
  {
    hide LinkAt, Escape, RenderLinks;
    var more := Links(rest[1..], Some(rest[0]), alnum);
    EscapeConcat([rest[0]], more.lead);
    Regroup(Escape([rest[0]]), Escape(more.lead), RenderLinks(more.links));
  }

  // ---- reading the markup ----

  // An anchor as it stands in the markup, and the text after it.
  datatype Anchor = Anchor(href: string, visible: string, after: string)

  datatype Doc = Doc(lead: string, anchors: seq<Anchor>)

  // Where the next tag starts.
  function TagAt(s: string): (n: nat)
    ensures n <= |s|
  {
    match FindChar(s, '<')
    case None => |s|
    case Some(i) => i
  }

  // Character data up to `end`, and what follows it.
  function ReadUpTo(s: string, n: nat): Option<(string, string)>
    requires n <= |s|
  {
    var text := Unescape(s[..n]);
    if text.None? then None else Some((text.value, s[n..]))
  }

  function DropPrefix(s: string, prefix: string): (r: Option<string>)
    ensures r.Some? ==> |r.value| == |s| - |prefix|
  {
    if prefix <= s then Some(s[|prefix|..]) else None
  }

  function ReadHref(s: string): (r: Option<(string, string)>)
    ensures r.Some? ==> |r.value.1| < |s|
  {
    var body := DropPrefix(s, OPENING);
    if body.None? then None
    else
      match FindChar(body.value, '"')
      case None => None
      case Some(i) =>
        var href := ReadUpTo(body.value, i);
        if href.None? then None
        else
          var inner := DropPrefix(href.value.1, "\">");
          if inner.None? then None else Some((href.value.0, inner.value))
  }

  // One anchor, with no tag inside it, then text up to the next tag.
  function ReadAnchor(s: string): (r: Option<(Anchor, string)>)
    ensures r.Some? ==> |r.value.1| < |s|
  {
    var href := ReadHref(s);
    if href.None? then None
    else
      var visible := ReadUpTo(href.value.1, TagAt(href.value.1));
      if visible.None? then None
      else
        var tail := DropPrefix(visible.value.1, CLOSING);
        if tail.None? then None
        else
          var after := ReadUpTo(tail.value, TagAt(tail.value));
          if after.None? then None
          else Some((Anchor(href.value.0, visible.value.0, after.value.0), after.value.1))
  }

  function ReadAnchors(s: string): Option<seq<Anchor>>
    decreases |s|
  {
    if s == "" then Some([])
    else
      match ReadAnchor(s)
      case None => None
      case Some(r) =>
        var more := ReadAnchors(r.1);
        if more.None? then None else Some([r.0] + more.value)
  }

  // Text and anchors, nothing else, and no anchor inside another.
  function ReadMarkup(s: string): Option<Doc> {
    var n := TagAt(s);
    var lead, anchors := Unescape(s[..n]), ReadAnchors(s[n..]);
    if lead.None? || anchors.None? then None else Some(Doc(lead.value, anchors.value))
  }

  // What the reader sees: the markup with its anchors dropped.
  function VisibleText(anchors: seq<Anchor>): string {
    if anchors == [] then "" else anchors[0].visible + anchors[0].after + VisibleText(anchors[1..])
  }

  function DocText(doc: Doc): string {
    doc.lead + VisibleText(doc.anchors)
  }

  function AnchorsOf(links: seq<Link>): seq<Anchor> {
    seq(|links|, i requires 0 <= i < |links| => Anchor(links[i].uri, links[i].uri, links[i].after))
  }

  ghost predicate StartsTag(z: string) {
    z != "" ==> z[0] == '<'
  }

  lemma TextThenTag(text: string, z: string)
    requires '<' !in text && StartsTag(z)
    ensures TagAt(text + z) == |text|
  {
    if z == "" {
      assert text + z == text;
    } else {
      assert z == ['<'] + z[1..];
      FindsChar(text, '<', z[1..]);
      assert text + z == text + ['<'] + z[1..];
    }
  }

  lemma ReadsText(text: string, z: string)
    requires StartsTag(z)
    ensures TagAt(Escape(text) + z) == |Escape(text)|
    ensures ReadUpTo(Escape(text) + z, |Escape(text)|) == Some((text, z))
  {
    hide Escape, Unescape, TagAt;
    EscapeIsQuiet(text);
    EscapeReadsBack(text);
    TextThenTag(Escape(text), z);
    assert (Escape(text) + z)[..|Escape(text)|] == Escape(text);
    assert (Escape(text) + z)[|Escape(text)|..] == z;
  }

  lemma DropsPrefix(prefix: string, z: string)
    ensures DropPrefix(prefix + z, prefix) == Some(z)
  {
  }

  lemma ReadsHref(uri: string, z: string)
    ensures ReadHref(OPENING + (Escape(uri) + ("\">" + z))) == Some((uri, z))
  {
    hide FindChar, Escape, Unescape;
    EscapeIsQuiet(uri);
    EscapeReadsBack(uri);
    var e := Escape(uri);
    var body := e + ("\">" + z);
    DropsPrefix(OPENING, body);
    assert body == e + ['"'] + (">" + z);
    FindsChar(e, '"', ">" + z);
    assert body[..|e|] == e && body[|e|..] == "\">" + z;
    DropsPrefix("\">", z);
  }

  lemma ReadsAnchor(uri: string, after: string, z: string)
    requires StartsTag(z)
    ensures ReadAnchor(AnchorText(uri) + Escape(after) + z) == Some((Anchor(uri, uri, after), z))
  {
    hide Escape, TagAt, ReadHref, ReadUpTo, DropPrefix;
    var tail := Escape(after) + z;
    var inner := Escape(uri) + (CLOSING + tail);
    assert AnchorText(uri) + Escape(after) + z == OPENING + (Escape(uri) + ("\">" + inner));
    ReadsHref(uri, inner);
    ReadsText(uri, CLOSING + tail);
    DropsPrefix(CLOSING, tail);
    ReadsText(after, z);
  }

  lemma {:induction false} ReadsLinks(links: seq<Link>)
    ensures StartsTag(RenderLinks(links)) && ReadAnchors(RenderLinks(links)) == Some(AnchorsOf(links))
  {
    hide ReadAnchor, Escape;
    if links == [] {
      assert AnchorsOf(links) == [];
    } else {
      ReadsLinks(links[1..]);
      var s, z := RenderLinks(links), RenderLinks(links[1..]);
      ReadsAnchor(links[0].uri, links[0].after, z);
      assert s != "" && s[0] == '<';
      assert AnchorsOf(links) == [Anchor(links[0].uri, links[0].uri, links[0].after)] + AnchorsOf(links[1..]);
    }
  }

  lemma {:induction false} LinksAreLinks(rest: string, prev: Option<char>, alnum: char -> bool)
    ensures forall link | link in Links(rest, prev, alnum).links :: IsLink(link.uri)
    decreases |rest|
  {
    hide IsLink, LinkSpan;
    if rest != "" {
      match LinkAt(rest, prev, alnum)
      case Some(n) =>
        LinksAreLinks(rest[n..], Some(rest[n - 1]), alnum);
        SpanIsLink(rest);
      case None =>
        LinksAreLinks(rest[1..], Some(rest[0]), alnum);
    }
  }

  lemma {:induction false} LinksKeepText(rest: string, prev: Option<char>, alnum: char -> bool)
    ensures var body := Links(rest, prev, alnum);
            body.lead + VisibleText(AnchorsOf(body.links)) == rest
    decreases |rest|
  {
    hide LinkAt;
    if rest != "" {
      match LinkAt(rest, prev, alnum)
      case Some(n) =>
        LinksKeepText(rest[n..], Some(rest[n - 1]), alnum);
        LinkComesFirst(rest[..n], Links(rest[n..], Some(rest[n - 1]), alnum));
        assert rest == rest[..n] + rest[n..];
      case None =>
        LinksKeepText(rest[1..], Some(rest[0]), alnum);
        var more := Links(rest[1..], Some(rest[0]), alnum);
        Regroup([rest[0]], more.lead, VisibleText(AnchorsOf(more.links)));
        assert rest == [rest[0]] + rest[1..];
    }
  }

  lemma LinkComesFirst(uri: string, more: Linked)
    ensures "" + VisibleText(AnchorsOf([Link(uri, more.lead)] + more.links))
            == uri + (more.lead + VisibleText(AnchorsOf(more.links)))
  {
    var anchors := AnchorsOf([Link(uri, more.lead)] + more.links);
    assert anchors[1..] == AnchorsOf(more.links);
    Regroup(uri, more.lead, VisibleText(AnchorsOf(more.links)));
  }

  // The markup reads as text and anchors that never nest; dropping the anchors gives
  // the text back exactly, and each anchor shows the very link it opens.
  lemma MarkupReadsBack(text: string, alnum: char -> bool)
    ensures var doc := ReadMarkup(Render(Links(text, None, alnum)));
            && doc.Some? && DocText(doc.value) == text
            && (forall a | a in doc.value.anchors :: a.href == a.visible && IsLink(a.href))
  {
    hide Escape, Unescape, ReadAnchors, IsLink, TagAt, Links;
    var body := Links(text, None, alnum);
    var lead, tags := Escape(body.lead), RenderLinks(body.links);
    ReadsLinks(body.links);
    EscapeIsQuiet(body.lead);
    EscapeReadsBack(body.lead);
    TextThenTag(lead, tags);
    assert (lead + tags)[..|lead|] == lead && (lead + tags)[|lead|..] == tags;
    LinksKeepText(text, None, alnum);
    LinksAreLinks(text, None, alnum);
  }

  // The character in front of link i.
  function CharBefore(body: Linked, prev: Option<char>, i: nat): Option<char>
    requires i < |body.links|
  {
    var text := if i == 0 then body.lead else body.links[i - 1].uri + body.links[i - 1].after;
    if text == "" then prev else Some(text[|text| - 1])
  }

  ghost predicate Separate(body: Linked, prev: Option<char>, alnum: char -> bool, i: nat)
    requires i < |body.links|
  {
    body.links[i].uri != "" && AtBoundary(CharBefore(body, prev, i), alnum)
  }

  // No link is glued to the end of a word, not even to the end of another link.
  lemma {:induction false} LinksStartOutsideWords(rest: string, prev: Option<char>, alnum: char -> bool, i: nat)
    requires i < |Links(rest, prev, alnum).links|
    ensures Separate(Links(rest, prev, alnum), prev, alnum, i)
    decreases |rest|
  {
    hide LinkAt, Separate;
    match LinkAt(rest, prev, alnum)
    case Some(n) =>
      var more := Links(rest[n..], Some(rest[n - 1]), alnum);
      if i == 0 {
        FirstIsSeparate(rest, prev, alnum, n, more);
      } else {
        NoneIsEmpty(rest[n..], Some(rest[n - 1]), alnum);
        LinksStartOutsideWords(rest[n..], Some(rest[n - 1]), alnum, i - 1);
        SeparateAfterLink(rest[..n], more, prev, alnum, i);
      }
    case None =>
      NoneIsEmpty(rest[1..], Some(rest[0]), alnum);
      LinksStartOutsideWords(rest[1..], Some(rest[0]), alnum, i);
      SeparateAfterChar(rest[0], Links(rest[1..], Some(rest[0]), alnum), prev, alnum, i);
  }

  lemma NoneIsEmpty(rest: string, prev: Option<char>, alnum: char -> bool)
    ensures forall k | 0 <= k < |Links(rest, prev, alnum).links| :: Links(rest, prev, alnum).links[k].uri != ""
  {
    hide Links;
    LinksAreLinks(rest, prev, alnum);
    assert forall k | 0 <= k < |Links(rest, prev, alnum).links| ::
        Links(rest, prev, alnum).links[k] in Links(rest, prev, alnum).links;
  }

  lemma FirstIsSeparate(rest: string, prev: Option<char>, alnum: char -> bool, n: nat, more: Linked)
    requires LinkAt(rest, prev, alnum) == Some(n)
    ensures Separate(Linked("", [Link(rest[..n], more.lead)] + more.links), prev, alnum, 0)
  {
    hide LinkSpan, Decide;
  }

  lemma SeparateAfterLink(uri: string, more: Linked, prev: Option<char>, alnum: char -> bool, i: nat)
    requires forall k | 0 <= k < |more.links| :: more.links[k].uri != ""
    requires uri != "" && 0 < i <= |more.links| && Separate(more, Some(uri[|uri| - 1]), alnum, i - 1)
    ensures Separate(Linked("", [Link(uri, more.lead)] + more.links), prev, alnum, i)
  {
    hide AtBoundary;
    var body := Linked("", [Link(uri, more.lead)] + more.links);
    assert body.links[i] == more.links[i - 1];
    if i > 1 {
      assert body.links[i - 1] == more.links[i - 2];
      assert more.links[i - 2].uri + more.links[i - 2].after != "";
    }
  }

  lemma SeparateAfterChar(c: char, more: Linked, prev: Option<char>, alnum: char -> bool, i: nat)
    requires forall k | 0 <= k < |more.links| :: more.links[k].uri != ""
    requires i < |more.links| && Separate(more, Some(c), alnum, i)
    ensures Separate(Linked([c] + more.lead, more.links), prev, alnum, i)
  {
    hide AtBoundary;
    if i > 0 {
      assert more.links[i - 1].uri + more.links[i - 1].after != "";
    }
  }

  // A link start outside the links already taken is never passed over.
  lemma {:induction false} NoLinkIsMissed(rest: string, prev: Option<char>, alnum: char -> bool, k: nat)
    requires k < |Links(rest, prev, alnum).lead|
    ensures k < |rest| && LinkAt(rest[k..], if k == 0 then prev else Some(rest[k - 1]), alnum).None?
    decreases k
  {
    hide LinkAt;
    assert rest[0..] == rest;
    if k > 0 {
      NoLinkIsMissed(rest[1..], Some(rest[0]), alnum, k - 1);
      assert rest[1..][k - 1..] == rest[k..];
    }
  }
}
