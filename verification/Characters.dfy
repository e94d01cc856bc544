// The character classes of Rust's `char` and `str` that several files need.
module Characters {
  import opened Wrappers

  // char::is_whitespace
  predicate IsWhitespace(c: char) {
    '\U{0009}' <= c <= '\U{000D}' || c == ' ' || c == '\U{0085}' || c == '\U{00A0}' || c == '\U{1680}'
    || '\U{2000}' <= c <= '\U{200A}' || c == '\U{2028}' || c == '\U{2029}' || c == '\U{202F}' || c == '\U{205F}'
    || c == '\U{3000}'
  }

  // char::is_ascii_alphanumeric
  predicate IsAlphanumeric(c: char) {
    'a' <= c <= 'z' || 'A' <= c <= 'Z' || '0' <= c <= '9'
  }

  // char::to_ascii_lowercase
  function Lower(c: char): char {
    if 'A' <= c <= 'Z' then c - 'A' + 'a' else c
  }

  // str::to_ascii_lowercase
  function Lowered(s: string): (r: string)
    ensures |r| == |s| && forall i | 0 <= i < |s| :: r[i] == Lower(s[i])
  {
    seq(|s|, i requires 0 <= i < |s| => Lower(s[i]))
  }

  // A hexadecimal digit of either case.
  function HexDigit(c: char): Option<nat> {
    if '0' <= c <= '9' then Some((c - '0') as nat)
    else if 'a' <= c <= 'f' then Some((c - 'a') as nat + 10)
    else if 'A' <= c <= 'F' then Some((c - 'A') as nat + 10)
    else None
  }

  // The white space of Unicode, code point by code point.
  lemma WhitespaceIs(c: char)
    ensures IsWhitespace(c) <==>
            c as int in {9, 10, 11, 12, 13, 32, 133, 160, 5760, 8192, 8193, 8194, 8195, 8196, 8197, 8198, 8199, 8200,
                         8201, 8202, 8232, 8233, 8239, 8287, 12288}
  {
  }

  // The capital and the small letter in one place are each other's case, and only
  // capitals have another.
  lemma LowerIs(c: char, i: nat)
    requires i < 26
    ensures Lower("ABCDEFGHIJKLMNOPQRSTUVWXYZ"[i]) == "abcdefghijklmnopqrstuvwxyz"[i]
    ensures !(65 <= c as int <= 90) ==> Lower(c) == c
  {
  }

  lemma AlphanumericIs(c: char)
    ensures IsAlphanumeric(c) <==> 48 <= c as int <= 57 || 65 <= c as int <= 90 || 97 <= c as int <= 122
  {
  }

  // A hexadecimal digit stands for its place among the sixteen.
  lemma HexDigitIs(c: char, v: nat)
    ensures HexDigit(c) == Some(v) <==> v < 16 && ("0123456789abcdef"[v] == c || "0123456789ABCDEF"[v] == c)
  {
  }
}
