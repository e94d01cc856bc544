// The scanner that reduces sanitized HTML to a preview's text
// (crates/core/src/preview.rs), one Unicode scalar value at a time.
module Preview {
  import opened Characters
  import opened Wrappers
  import Decimal
  import Linkifier

  // ---- decode_entity ----

  predicate AllHex(s: string) {
    forall i | 0 <= i < |s| :: HexDigit(s[i]).Some?
  }

  function HexValue(s: string): nat
    requires AllHex(s)
  {
    if s == "" then 0 else HexValue(s[..|s| - 1]) * 16 + HexDigit(s[|s| - 1]).value
  }

  predicate IsScalar(n: nat) {
    n < 0xD800 || 0xE000 <= n < 0x11_0000
  }

  // The code point a numeric reference names, without its `&#`. A number too large for
  // u32 is not a scalar value either.
  function CodePoint(digits: string): Option<nat> {
    if digits != "" && (digits[0] == 'x' || digits[0] == 'X') then
      if |digits| > 1 && AllHex(digits[1..]) then Some(HexValue(digits[1..])) else None
    else if digits != "" && Decimal.AllDigits(digits) then Some(Decimal.Value(digits))
    else None
  }

  function DecodeEntity(entity: string): string {
    if entity == "&nbsp" then " "
    else if entity == "&amp" then "&"
    else if entity == "&lt" then "<"
    else if entity == "&gt" then ">"
    else if entity == "&quot" then "\""
    else if entity == "&apos" || entity == "&#39" || entity == "&#x27" || entity == "&#X27" then "'"
    else if "&#" <= entity then
      var code := CodePoint(entity[2..]);
      if code.Some? && IsScalar(code.value) then [code.value as char] else entity
    else entity
  }

  // ---- html_to_text ----

  datatype State = State(text: string, inTag: bool, entity: string)

  const MAX_ENTITY := 16

  predicate EntityChar(c: char) {
    IsAlphanumeric(c) || c == '#'
  }

  function Step(s: State, ch: char): State {
    if s.inTag then
      if ch == '>' then s.(inTag := false, text := s.text + " ") else s
    else if s.entity != "" then
      if ch == ';' then s.(text := s.text + DecodeEntity(s.entity), entity := "")
      else if |s.entity| < MAX_ENTITY && EntityChar(ch) then s.(entity := s.entity + [ch])
      else Fresh(s.(text := s.text + s.entity, entity := ""), ch)
    else Fresh(s, ch)
  }

  // A character outside tags and entities.
  function Fresh(s: State, ch: char): State {
    if ch == '&' then s.(entity := "&")
    else if ch == '<' then s.(inTag := true, text := s.text + " ")
    else s.(text := s.text + [ch])
  }

  function Run(s: State, html: string): State {
    if html == "" then s else Step(Run(s, html[..|html| - 1]), html[|html| - 1])
  }

  const START := State("", false, "")

  function Text(html: string): string {
    var s := Run(START, html);
    s.text + s.entity
  }

  method HtmlToText(html: string) returns (text: string)
    ensures text == Text(html)
  {
    hide DecodeEntity;
    text := "";
    var inTag, entity := false, "";
    for i := 0 to |html|
      invariant State(text, inTag, entity) == Run(START, html[..i])
    {
      assert html[..i + 1][..i] == html[..i];
      var ch := html[i];
      if inTag {
        if ch == '>' {
          inTag := false;
          text := text + " ";
        }
        continue;
      }
      if entity != "" {
        if ch == ';' {
          text := text + DecodeEntity(entity);
          entity := "";
        } else if |entity| < MAX_ENTITY && (IsAlphanumeric(ch) || ch == '#') {
          entity := entity + [ch];
        } else {
          text := text + entity;
          entity := "";
          if ch == '<' {
            inTag := true;
            text := text + " ";
          } else if ch == '&' {
            entity := "&";
          } else {
            text := text + [ch];
          }
        }
        continue;
      }
      if ch == '&' {
        entity := "&";
      } else if ch == '<' {
        inTag := true;
        text := text + " ";
      } else {
        text := text + [ch];
      }
    }
    assert html[..|html|] == html;
    if entity != "" {
      text := text + entity;
    } else {
      assert text + entity == text;
    }
  }

  lemma {:induction false} RunConcat(s: State, a: string, b: string)
    ensures Run(s, a + b) == Run(Run(s, a), b)
  {
    hide Step;
    if b == "" {
      assert a + b == a;
    } else {
      assert (a + b)[..|a + b| - 1] == a + b[..|b| - 1];
      RunConcat(s, a, b[..|b| - 1]);
    }
  }

  // ---- well-formed input ----

  datatype Piece = Plain(c: char) | Ref(name: string) | Tag(body: string)

  predicate WellFormed(p: Piece) {
    match p
    case Plain(c) => c != '&' && c != '<'
    case Ref(name) => |name| < MAX_ENTITY && forall c | c in name :: EntityChar(c)
    case Tag(body) => '>' !in body
  }

  function Written(p: Piece): string {
    match p
    case Plain(c) => [c]
    case Ref(name) => "&" + name + ";"
    case Tag(body) => "<" + body + ">"
  }

  // A tag is two spaces, whatever is in it, and a reference the text it stands for.
  function Meaning(p: Piece): string {
    match p
    case Plain(c) => [c]
    case Ref(name) => DecodeEntity("&" + name)
    case Tag(body) => "  "
  }

  function WrittenAll(ps: seq<Piece>): string {
    if ps == [] then "" else WrittenAll(ps[..|ps| - 1]) + Written(ps[|ps| - 1])
  }

  function MeaningAll(ps: seq<Piece>): string {
    if ps == [] then "" else MeaningAll(ps[..|ps| - 1]) + Meaning(ps[|ps| - 1])
  }

  lemma {:induction false} InsideTag(text: string, body: string)
    requires '>' !in body
    ensures Run(State(text, true, ""), body) == State(text, true, "")
  {
    if body != "" {
      InsideTag(text, body[..|body| - 1]);
      assert body[|body| - 1] in body;
    }
  }

  lemma {:induction false} InsideEntity(text: string, name: string)
    requires |name| < MAX_ENTITY && forall c | c in name :: EntityChar(c)
    ensures Run(State(text, false, "&"), name) == State(text, false, "&" + name)
  {
    if name == "" {
      assert "&" + name == "&";
    } else {
      var front := name[..|name| - 1];
      assert name[|name| - 1] in name && forall c | c in front :: c in name;
      InsideEntity(text, front);
      assert ("&" + front) + [name[|name| - 1]] == "&" + name;
    }
  }

  lemma PieceReads(text: string, p: Piece)
    requires WellFormed(p)
    ensures Run(State(text, false, ""), Written(p)) == State(text + Meaning(p), false, "")
  {
    hide DecodeEntity;
    var s := State(text, false, "");
    match p
    case Plain(c) =>
      OneStep(s, c);
    case Ref(name) =>
      OneStep(s, '&');
      RunConcat(s, "&", name + ";");
      RunConcat(State(text, false, "&"), name, ";");
      InsideEntity(text, name);
      OneStep(State(text, false, "&" + name), ';');
      assert "&" + name + ";" == "&" + (name + ";");
    case Tag(body) =>
      OneStep(s, '<');
      RunConcat(s, "<", body + ">");
      RunConcat(State(text + " ", true, ""), body, ">");
      InsideTag(text + " ", body);
      OneStep(State(text + " ", true, ""), '>');
      assert "<" + body + ">" == "<" + (body + ">");
      assert text + " " + " " == text + "  ";
  }

  lemma OneStep(s: State, c: char)
    ensures Run(s, [c]) == Step(s, c)
  {
    assert [c][..0] == "";
  }

  lemma {:induction false} PiecesRead(ps: seq<Piece>)
    requires forall p | p in ps :: WellFormed(p)
    ensures Run(START, WrittenAll(ps)) == State(MeaningAll(ps), false, "")
  {
    hide Step, Written, Meaning, WellFormed;
    if ps != [] {
      var n := |ps| - 1;
      assert ps[n] in ps && forall p | p in ps[..n] :: p in ps;
      PiecesRead(ps[..n]);
      RunConcat(START, WrittenAll(ps[..n]), Written(ps[n]));
      PieceReads(MeaningAll(ps[..n]), ps[n]);
    }
  }

  // Text, references and tags read as the text, what the references stand for, and
  // nothing of what is inside the tags.
  lemma WellFormedReads(ps: seq<Piece>)
    requires forall p | p in ps :: WellFormed(p)
    ensures Text(WrittenAll(ps)) == MeaningAll(ps)
  {
    PiecesRead(ps);
    assert MeaningAll(ps) + "" == MeaningAll(ps);
  }

  // Two inputs that differ only inside their tags read the same.
  ghost predicate SameOutsideTags(p: Piece, q: Piece) {
    p == q || (p.Tag? && q.Tag?)
  }

  lemma {:induction false} TagsAreIgnored(ps: seq<Piece>, qs: seq<Piece>)
    requires (forall p | p in ps :: WellFormed(p)) && (forall q | q in qs :: WellFormed(q))
    requires |ps| == |qs| && forall i | 0 <= i < |ps| :: SameOutsideTags(ps[i], qs[i])
    ensures Text(WrittenAll(ps)) == Text(WrittenAll(qs))
  {
    hide WellFormed;
    WellFormedReads(ps);
    WellFormedReads(qs);
    SameMeaning(ps, qs);
  }

  lemma {:induction false} SameMeaning(ps: seq<Piece>, qs: seq<Piece>)
    requires |ps| == |qs| && forall i | 0 <= i < |ps| :: SameOutsideTags(ps[i], qs[i])
    ensures MeaningAll(ps) == MeaningAll(qs)
  {
    if ps != [] {
      SameMeaning(ps[..|ps| - 1], qs[..|qs| - 1]);
    }
  }

  // ---- references ----

  // The named spelling of an apostrophe agrees with the numeric rule.
  lemma NumericReference(entity: string, n: nat)
    requires "&#" <= entity && CodePoint(entity[2..]) == Some(n) && IsScalar(n)
    ensures DecodeEntity(entity) == [n as char]
  {
    NotNamed(entity);
    ApostropheIs39();
    hide CodePoint;
    assert "&#39"[2..] == "39" && "&#x27"[2..] == "x27" && "&#X27"[2..] == "X27";
  }

  lemma ApostropheIs39()
    ensures CodePoint("39") == Some(39) && CodePoint("x27") == Some(39) && CodePoint("X27") == Some(39)
  {
    assert "39"[..1] == "3" && "3"[..0] == "";
    assert Decimal.Value("3") == 3 && Decimal.Value("39") == 39;
    assert "x27"[1..] == "27" && "X27"[1..] == "27";
    assert "27"[..1] == "2" && "2"[..0] == "";
    assert HexValue("2") == 2 && HexValue("27") == 39;
  }

  // Every decimal spelling of a scalar value stands for it.
  lemma DecimalReference(digits: string)
    requires digits != "" && Decimal.AllDigits(digits) && IsScalar(Decimal.Value(digits))
    ensures DecodeEntity("&#" + digits) == [Decimal.Value(digits) as char]
  {
    hide DecodeEntity;
    assert ("&#" + digits)[2..] == digits && Decimal.IsDigit(digits[0]);
    NumericReference("&#" + digits, Decimal.Value(digits));
  }

  // So does every hexadecimal one, in either case.
  lemma HexReference(x: char, digits: string)
    requires x == 'x' || x == 'X'
    requires digits != "" && AllHex(digits) && IsScalar(HexValue(digits))
    ensures DecodeEntity("&#" + ([x] + digits)) == [HexValue(digits) as char]
  {
    hide DecodeEntity;
    assert ("&#" + ([x] + digits))[2..] == [x] + digits && ([x] + digits)[1..] == digits;
    NumericReference("&#" + ([x] + digits), HexValue(digits));
  }

  lemma NotNamed(entity: string)
    requires "&#" <= entity
    ensures entity !in {"&nbsp", "&amp", "&lt", "&gt", "&quot", "&apos"}
  {
    assert entity[1] == '#';
    assert "&nbsp"[1] == 'n' && "&amp"[1] == 'a' && "&lt"[1] == 'l' && "&gt"[1] == 'g' && "&quot"[1] == 'q'
        && "&apos"[1] == 'a';
  }

  // A reference that stands for nothing is kept, but without its semicolon.
  lemma UnknownReferenceLosesSemicolon(name: string)
    requires WellFormed(Ref(name)) && DecodeEntity("&" + name) == "&" + name
    ensures Text("&" + name + ";") == "&" + name
  {
    var ps := [Ref(name)];
    assert ps[..0] == [];
    assert WrittenAll(ps) == "" + ("&" + name + ";") == "&" + name + ";";
    assert MeaningAll(ps) == "" + ("&" + name) == "&" + name;
    WellFormedReads(ps);
  }

  // ---- the references by name ----

  lemma NamedReferences()
    ensures DecodeEntity("&nbsp") == " " && DecodeEntity("&amp") == "&" && DecodeEntity("&lt") == "<"
    ensures DecodeEntity("&gt") == ">" && DecodeEntity("&quot") == "\"" && DecodeEntity("&apos") == "'"
    ensures DecodeEntity("&#39") == "'" && DecodeEntity("&#x27") == "'" && DecodeEntity("&#X27") == "'"
  {
  }

  // Any other reference that is not a number is kept as it is.
  lemma OtherNamesAreKept(name: string)
    requires name !in {"nbsp", "amp", "lt", "gt", "quot", "apos"} && !("#" <= name)
    ensures DecodeEntity("&" + name) == "&" + name
  {
    var entity := "&" + name;
    assert entity[1..] == name;
    assert forall other: string :: entity == "&" + other ==> other == entity[1..];
    assert "&nbsp" == "&" + "nbsp" && "&amp" == "&" + "amp" && "&lt" == "&" + "lt";
    assert "&gt" == "&" + "gt" && "&quot" == "&" + "quot" && "&apos" == "&" + "apos";
    assert "&#39"[1] == '#' && "&#x27"[1] == '#' && "&#X27"[1] == '#';
    assert "&#" <= entity ==> "#" <= name;
  }

  // So is a number sign without digits, and a number that is no scalar value.
  lemma NumbersAreKeptIff(digits: string)
    requires digits != "" && Decimal.AllDigits(digits) && digits != "39"
    ensures DecodeEntity("&#" + digits) == "&#" + digits <==>
              Decimal.Value(digits) > 0x10_ffff || 0xd800 <= Decimal.Value(digits) <= 0xdfff
  {
    var entity := "&#" + digits;
    assert entity[2..] == digits && Decimal.IsDigit(digits[0]) && entity[1] == '#';
    assert |entity| >= 3;
    assert "&#39"[2..] == "39" && "&#x27"[2] == 'x' && "&#X27"[2] == 'X';
    hide Decimal.Value;
  }

  lemma BareNumberSignsAreKept()
    ensures DecodeEntity("&#") == "&#" && DecodeEntity("&#x") == "&#x" && DecodeEntity("&#X") == "&#X"
  {
    assert "&#"[2..] == "" && "&#x"[2..] == "x" && "&#X"[2..] == "X";
  }

  // A reference is read as far as sixteen characters, its ampersand included.
  lemma LongReferenceIsText(name: string)
    requires |name| >= 16 && forall c | c in name :: EntityChar(c)
    ensures Run(START, "&" + name) == State("&" + name, false, "")
  {
    TextFrom(name, |name|);
    assert name[..|name|] == name;
  }

  lemma OneMore(name: string, n: nat)
    requires 0 < n <= |name|
    ensures Run(START, "&" + name[..n]) == Step(Run(START, "&" + name[..n - 1]), name[n - 1])
  {
    hide Step;
    var html := "&" + name[..n];
    assert html[..|html| - 1] == "&" + name[..n - 1];
  }

  // The sixteenth character behind the ampersand is too much.
  lemma LongStep(read: string, ch: char)
    requires read != "" && EntityChar(ch)
    ensures Step(State("", false, read), ch) ==
            if |read| < 16 then State("", false, read + [ch]) else State(read + [ch], false, "")
    ensures Step(State(read, false, ""), ch) == State(read + [ch], false, "")
  {
    hide DecodeEntity;
    assert "" + read == read;
  }

  lemma {:induction false} TextFrom(name: string, n: nat)
    requires 16 <= n <= |name| && forall c | c in name :: EntityChar(c)
    ensures Run(START, "&" + name[..n]) == State("&" + name[..n], false, "")
  {
    hide Run, Step, EntityChar;
    if n == 16 {
      ReadSoFar(name, 15);
    } else {
      TextFrom(name, n - 1);
    }
    OneMore(name, n);
    assert name[n - 1] in name;
    LongStep("&" + name[..n - 1], name[n - 1]);
    assert ("&" + name[..n - 1]) + [name[n - 1]] == "&" + name[..n];
  }

  lemma {:induction false} ReadSoFar(name: string, n: nat)
    requires n <= |name| && n <= 15 && forall c | c in name :: EntityChar(c)
    ensures Run(START, "&" + name[..n]) == State("", false, "&" + name[..n])
  {
    hide Step, EntityChar, Run;
    if n == 0 {
      assert "&" + name[..0] == "&";
      OneAmpersand();
    } else {
      ReadSoFar(name, n - 1);
      OneMore(name, n);
      assert name[n - 1] in name;
      LongStep("&" + name[..n - 1], name[n - 1]);
      assert ("&" + name[..n - 1]) + [name[n - 1]] == "&" + name[..n];
    }
  }

  lemma OneAmpersand()
    ensures Run(START, "&") == State("", false, "&")
  {
    hide DecodeEntity;
    assert "&"[..0] == "";
  }

  // ---- bare ampersands ----

  lemma BareStep(s: State, ch: char)
    requires !s.inTag && ch != '<' && ch != ';'
    ensures !Step(s, ch).inTag && Step(s, ch).text + Step(s, ch).entity == s.text + s.entity + [ch]
  {
    hide DecodeEntity, EntityChar;
  }

  // Without a tag or a semicolon nothing is a reference, and the text comes through
  // exactly as it is, ampersands and all.
  lemma {:induction false} BareTextIsKept(html: string)
    requires '<' !in html && ';' !in html
    ensures Text(html) == html && !Run(START, html).inTag
  {
    hide Step;
    if html != "" {
      var front, ch := html[..|html| - 1], html[|html| - 1];
      assert html == front + [ch] && ch in html && forall c | c in front :: c in html;
      BareTextIsKept(front);
      BareStep(Run(START, front), ch);
    }
  }

  // ---- the label's escaping ----

  // The escaping the reading pane uses is undone.
  lemma {:induction false} EscapedTextComesBack(text: string)
    ensures exists ps: seq<Piece> ::
              && (forall p | p in ps :: WellFormed(p))
              && WrittenAll(ps) == Linkifier.Escape(text) && MeaningAll(ps) == text
    ensures Text(Linkifier.Escape(text)) == text
  {
    EscapedPieces(text);
    var ps: seq<Piece> :| (forall p | p in ps :: WellFormed(p)) && WrittenAll(ps) == Linkifier.Escape(text)
                          && MeaningAll(ps) == text;
    WellFormedReads(ps);
  }

  lemma {:induction false} EscapedPieces(text: string)
    ensures exists ps: seq<Piece> ::
              && (forall p | p in ps :: WellFormed(p))
              && WrittenAll(ps) == Linkifier.Escape(text) && MeaningAll(ps) == text
  {
    hide WellFormed, Written, Meaning, Linkifier.EscapeChar;
    if text == "" {
      assert WrittenAll([]) == "" && MeaningAll([]) == "";
    } else {
      var n := |text| - 1;
      var front, c := text[..n], text[n];
      EscapedPieces(front);
      var ps: seq<Piece> :| (forall p | p in ps :: WellFormed(p)) && WrittenAll(ps) == Linkifier.Escape(front)
                            && MeaningAll(ps) == front;
      var p := EscapedPiece(c);
      var all := ps + [p];
      assert all[..|all| - 1] == ps;
      assert text == front + [c];
      Linkifier.EscapeConcat(front, [c]);
      assert [c][1..] == "" && Linkifier.EscapeChar(c) + "" == Linkifier.EscapeChar(c);
      assert Linkifier.Escape([c]) == Linkifier.EscapeChar(c);
      assert WrittenAll(all) == Linkifier.Escape(text) && MeaningAll(all) == text;
    }
  }

  lemma EscapedPiece(c: char) returns (p: Piece)
    ensures WellFormed(p) && Written(p) == Linkifier.EscapeChar(c) && Meaning(p) == [c]
  {
    if Linkifier.EscapeChar(c) == [c] {
      Linkifier.BareChars(c);
      p := Plain(c);
    } else {
      Linkifier.EntityName(c);
      var e := Linkifier.EscapeChar(c);
      p := Ref(e[1..|e| - 1]);
      NameDecodes(c, e[1..|e| - 1]);
    }
  }

  lemma NameDecodes(c: char, name: string)
    requires Linkifier.EscapeChar(c) != [c] && Linkifier.EscapeChar(c) == "&" + name + ";"
    ensures WellFormed(Ref(name)) && DecodeEntity("&" + name) == [c]
  {
    if Linkifier.Numbered(c) {
      var digits := Linkifier.Hex(c as nat);
      assert name == ("&" + name + ";")[1..|name| + 1] == "#x" + digits;
      HexDigitsRead(c as nat);
      assert "&" + name == "&#" + (['x'] + digits);
      HexReference('x', digits);
    } else {
      NamedDecodes(c, name);
    }
  }

  lemma NamedDecodes(c: char, name: string)
    requires c == '&' || c == '<' || c == '>' || c == '\'' || c == '"'
    requires Linkifier.EscapeChar(c) == "&" + name + ";"
    ensures WellFormed(Ref(name)) && DecodeEntity("&" + name) == [c]
  {
    assert name == ("&" + name + ";")[1..|name| + 1];
    assert "&" + name == ("&" + name + ";")[..|name| + 1];
    match c
    case '&' => assert "&amp;"[..4] == "&amp";
    case '<' => assert "&lt;"[..3] == "&lt";
    case '>' => assert "&gt;"[..3] == "&gt";
    case '\'' => assert "&#39;"[..4] == "&#39";
    case '"' => assert "&quot;"[..5] == "&quot";
  }

  lemma HexDigitsRead(n: nat)
    requires n < 256
    ensures var digits := Linkifier.Hex(n);
            0 < |digits| <= 2 && AllHex(digits) && HexValue(digits) == n && forall c | c in digits :: EntityChar(c)
  {
    var digits := Linkifier.Hex(n);
    assert digits[..1][..0] == "";
    if n >= 16 {
      assert digits[..1] == [digits[0]];
      assert HexValue([digits[0]]) == n / 16;
    }
  }
}