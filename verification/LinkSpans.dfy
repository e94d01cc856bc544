// Links, letter by letter (crates/app/src/html_view.rs:427-573): which texts are
// links and how far each runs, what is decided about an address, and the markup
// that comes of it.
module LinkSpans {
  import opened Characters
  import opened Wrappers
  import opened Linkifier

  // Unicode white space, the controls, and what quotes.
  predicate Breaks(c: char) {
    || IsWhitespace(c) || 0 <= c as int <= 31 || 127 <= c as int <= 159
    || c in {'<', '>', '"', '\'', '\U{AB}', '\U{BB}'}
  }

  // One more closing bracket of a kind than opening ones.
  ghost predicate Unbalanced(span: string, open: char, close: char) {
    span != "" && span[|span| - 1] == close && multiset(span)[open] < multiset(span)[close]
  }

  // A sentence goes on, or a bracket closes, behind the link and not in it.
  ghost predicate Overruns(span: string) {
    || (span != "" && span[|span| - 1] in {'.', ',', ';', ':', '!', '?', '\U{2026}'})
    || Unbalanced(span, '(', ')') || Unbalanced(span, '[', ']') || Unbalanced(span, '{', '}')
  }

  // The text begins with this in any case of its letters.
  predicate BeginsWith(rest: string, scheme: string) {
    |scheme| <= |rest| && forall i | 0 <= i < |scheme| :: Lower(rest[i]) == scheme[i]
  }

  // The scheme a text begins with, if it is one of the three.
  ghost predicate HasScheme(rest: string, n: nat) {
    || (n == 8 && BeginsWith(rest, "https://"))
    || (n == 7 && BeginsWith(rest, "http://"))
    || (n == 7 && BeginsWith(rest, "mailto:"))
  }

  // The first n characters are a link: more than a scheme, unbroken, not overrunning,
  // and every longer front is broken or overruns.
  ghost predicate IsSpan(rest: string, n: nat) {
    && n <= |rest|
    && (exists m: nat | m < n :: HasScheme(rest, m))
    && (forall i | 0 <= i < n :: !Breaks(rest[i]))
    && !Overruns(rest[..n])
    && (forall m | n < m <= |rest| :: Overruns(rest[..m]) || exists i | 0 <= i < m :: Breaks(rest[i]))
  }

  lemma StopsIsBreaks(c: char)
    ensures Stops(c) <==> Breaks(c)
  {
  }

  lemma {:induction false} CountIsMultiset(s: string, c: char)
    ensures Count(s, c) == multiset(s)[c]
  {
    if s != "" {
      var n := |s| - 1;
      CountIsMultiset(s[..n], c);
      assert s == s[..n] + [s[n]];
    }
  }

  lemma TrimsIsOverruns(span: string)
    requires span != ""
    ensures Trims(span) <==> Overruns(span)
  {
    hide Count;
    forall c
      ensures Count(span, c) == multiset(span)[c]
    {
      CountIsMultiset(span, c);
    }
  }

  lemma SchemeIs(rest: string)
    ensures match KnownScheme(rest)
            case Some(scheme) => HasScheme(rest, |scheme|) && (forall m: nat :: HasScheme(rest, m) ==> m == |scheme|)
            case None => forall m: nat :: !HasScheme(rest, m)
  {
    StartsWithIs(rest, "https://");
    StartsWithIs(rest, "http://");
    StartsWithIs(rest, "mailto:");
    hide StartsWith, BeginsWith;
    OneScheme(rest);
  }

  lemma StartsWithIs(rest: string, scheme: string)
    ensures StartsWith(rest, scheme) <==> BeginsWith(rest, scheme)
  {
    if |scheme| <= |rest| {
      assert forall i | 0 <= i < |scheme| :: Lowered(rest[..|scheme|])[i] == Lower(rest[i]);
    }
  }

  lemma OneScheme(rest: string)
    ensures BeginsWith(rest, "https://") ==> !BeginsWith(rest, "http://") && !BeginsWith(rest, "mailto:")
  {
    assert "https://"[4] == 's' && "http://"[4] == ':' && "https://"[0] == 'h' && "mailto:"[0] == 'm';
  }

  // Exactly these fronts are found, at every place of every text.
  lemma LinkSpanIff(rest: string, n: nat)
    ensures LinkSpan(rest) == Some(n) <==> IsSpan(rest, n)
  {
    hide KnownScheme, HasScheme, Stops, Breaks, Trims, Overruns, RunLength, Trimmed;
    SchemeIs(rest);
    forall c
      ensures Stops(c) <==> Breaks(c)
    {
      StopsIsBreaks(c);
    }
    var run := RunLength(rest);
    forall m: nat | 0 < m <= |rest|
      ensures Trims(rest[..m]) <==> Overruns(rest[..m])
    {
      TrimsIsOverruns(rest[..m]);
    }
    LongestFront(rest, run, n);
  }

  // What trimming keeps of the run is the longest front that does not overrun.
  lemma LongestFront(rest: string, run: nat, n: nat)
    requires run == RunLength(rest)
    requires forall c :: Stops(c) <==> Breaks(c)
    requires forall m: nat | 0 < m <= |rest| :: Trims(rest[..m]) <==> Overruns(rest[..m])
    ensures 0 < n ==>
              (n == Trimmed(rest[..run]) <==>
               && n <= |rest| && (forall i | 0 <= i < n :: !Breaks(rest[i])) && !Overruns(rest[..n])
               && (forall m | n < m <= |rest| :: Overruns(rest[..m]) || exists i | 0 <= i < m :: Breaks(rest[i])))
  {
    hide Stops, Breaks, Trims, Overruns, RunLength, Trimmed;
    var span := rest[..run];
    assert forall m: nat | m <= run :: span[..m] == rest[..m];
    var t := Trimmed(span);
    if 0 < n <= |rest| && (forall i | 0 <= i < n :: !Breaks(rest[i])) {
      assert n <= run;
    }
    if run < |rest| {
      assert Breaks(rest[run]);
    }
    forall m | t < m <= |rest|
      ensures Overruns(rest[..m]) || exists i | 0 <= i < m :: Breaks(rest[i])
    {
      if m <= run {
        assert Trims(span[..m]);
      }
    }
  }

  // ---- what is decided about an address ----

  // Web addresses open, or ask first if so set; mail asks; nothing else opens.
  lemma DecisionIs(head: string, tail: string, confirmHttp: bool)
    requires ':' !in head
    ensures Decide(head + ":" + tail, confirmHttp) ==
            if Lowered(head) == "http" || Lowered(head) == "https" then (if confirmHttp then Confirm else Open)
            else if Lowered(head) == "mailto" then Confirm
            else Refuse
  {
    var uri := head + [':'] + tail;
    FindsChar(head, ':', tail);
    assert uri[..|head|] == head;
    assert head + ":" + tail == uri;
  }

  lemma NoSchemeIsRefused(uri: string, confirmHttp: bool)
    requires ':' !in uri
    ensures Decide(uri, confirmHttp) == Refuse
  {
  }

  // ---- the markup ----

  // A text that is one link: an anchor to it, showing it.
  lemma OneLinkRenders(uri: string, alnum: char -> bool)
    requires IsSpan(uri, |uri|)
    ensures Render(Links(uri, None, alnum)) == "<a href=\"" + Escape(uri) + "\">" + Escape(uri) + "</a>"
  {
    hide IsSpan, LinkSpan, IsLink, Links, Render, AnchorText, Decide, Escape;
    LinkSpanIff(uri, |uri|);
    SpanOpens(uri);
    OneLink(uri, alnum);
    OneAnchor(uri);
  }

  lemma SpanOpens(uri: string)
    requires LinkSpan(uri) == Some(|uri|)
    ensures uri != "" && Decide(uri, true) != Refuse
  {
    hide LinkSpan, Decide;
    SpanIsLink(uri);
    assert uri[..|uri|] == uri;
  }

  lemma OneAnchor(uri: string)
    ensures Render(Linked("", [Link(uri, "")])) == "<a href=\"" + Escape(uri) + "\">" + Escape(uri) + "</a>"
  {
    EscapeNothing();
    hide Escape;
    var link := Link(uri, "");
    assert RenderLinks([link]) == AnchorText(uri) + "" + RenderLinks([link][1..]);
    assert RenderLinks([link][1..]) == "";
    assert AnchorText(uri) + "" + "" == AnchorText(uri);
    assert "" + AnchorText(uri) == AnchorText(uri);
  }

  lemma OneLink(uri: string, alnum: char -> bool)
    requires uri != "" && LinkSpan(uri) == Some(|uri|) && Decide(uri, true) != Refuse
    ensures Links(uri, None, alnum) == Linked("", [Link(uri, "")])
  {
    hide LinkSpan, Decide;
    assert uri[..|uri|] == uri && uri[|uri|..] == "";
  }

  // What the label's markup must not hold bare is named; the controls that it cannot
  // hold at all are numbered; any other character stands for itself.
  lemma EscapedIs(c: char)
    ensures EscapeChar(c) ==
            match c
            case '&' => "&amp;"
            case '<' => "&lt;"
            case '>' => "&gt;"
            case '\'' => "&#39;"
            case '"' => "&quot;"
            case _ =>
              if (1 <= c as int <= 31 && c !in {'\t', '\n', '\r'}) || (127 <= c as int <= 159 && c as int != 133)
              then "&#x" + Hex(c as nat) + ";" else [c]
  {
  }
}
