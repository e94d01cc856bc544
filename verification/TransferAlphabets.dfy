// The alphabets of the transfer encodings, written out: table 1 of section 4 of
// RFC 4648, and the hexadecimal digits of section 6.7 of RFC 2045
// (crates/attachments/src/lib.rs:168-260).
module TransferAlphabets {
  import opened Wrappers
  import opened TransferCodec

  // A to Z, a to z, 0 to 9, plus and slash.
  predicate IsSymbol(byte: Byte) {
    || byte == 0x41 || byte == 0x42 || byte == 0x43 || byte == 0x44 || byte == 0x45 || byte == 0x46 || byte == 0x47
    || byte == 0x48 || byte == 0x49 || byte == 0x4A || byte == 0x4B || byte == 0x4C || byte == 0x4D || byte == 0x4E
    || byte == 0x4F || byte == 0x50 || byte == 0x51 || byte == 0x52 || byte == 0x53 || byte == 0x54 || byte == 0x55
    || byte == 0x56 || byte == 0x57 || byte == 0x58 || byte == 0x59 || byte == 0x5A || byte == 0x61 || byte == 0x62
    || byte == 0x63 || byte == 0x64 || byte == 0x65 || byte == 0x66 || byte == 0x67 || byte == 0x68 || byte == 0x69
    || byte == 0x6A || byte == 0x6B || byte == 0x6C || byte == 0x6D || byte == 0x6E || byte == 0x6F || byte == 0x70
    || byte == 0x71 || byte == 0x72 || byte == 0x73 || byte == 0x74 || byte == 0x75 || byte == 0x76 || byte == 0x77
    || byte == 0x78 || byte == 0x79 || byte == 0x7A || byte == 0x30 || byte == 0x31 || byte == 0x32 || byte == 0x33
    || byte == 0x34 || byte == 0x35 || byte == 0x36 || byte == 0x37 || byte == 0x38 || byte == 0x39 || byte == 0x2B
    || byte == 0x2F
  }

  // In the order of the table.
  lemma SextetsAre(k: Byte)
    ensures k < 26 ==> SextetOf(0x41 + k) == Some(k)
    ensures k < 26 ==> SextetOf(0x61 + k) == Some(26 + k)
    ensures k < 10 ==> SextetOf(0x30 + k) == Some(52 + k)
    ensures SextetOf(0x2B) == Some(62) && SextetOf(0x2F) == Some(63)
  {
  }

  lemma OnlySymbolsHaveSextets(byte: Byte)
    ensures SextetOf(byte).Some? <==> IsSymbol(byte)
  {
  }

  // 0 to 9, A to F and a to f.
  lemma HexDigitsAre(byte: Byte)
    ensures HexValue(byte).Some? <==>
              || byte in {0x30, 0x31, 0x32, 0x33, 0x34, 0x35, 0x36, 0x37, 0x38, 0x39}
              || byte in {0x41, 0x42, 0x43, 0x44, 0x45, 0x46} || byte in {0x61, 0x62, 0x63, 0x64, 0x65, 0x66}
  {
  }

  // What is left of a text when every byte outside the alphabet is dropped.
  function Symbols(text: Bytes): Bytes {
    if text == [] then []
    else (if IsSymbol(text[0]) then [text[0]] else []) + Symbols(text[1..])
  }

  lemma {:induction false} SextetsOfSymbols(text: Bytes)
    ensures Sextets(Symbols(text)) == Sextets(text)
  {
    hide IsSymbol;
    if text != [] {
      SextetsOfSymbols(text[1..]);
      OnlySymbolsHaveSextets(text[0]);
      if IsSymbol(text[0]) {
        assert Symbols(text)[0] == text[0] && Symbols(text)[1..] == Symbols(text[1..]);
      } else {
        assert Symbols(text) == Symbols(text[1..]);
      }
    }
  }

  // Whatever else is mixed into an encoding -- line breaks, blanks, other padding --
  // it comes back as the data encoded.
  lemma Base64ReadsPastTheRest(data: Bytes, text: Bytes)
    requires Symbols(text) == Symbols(Encode(data))
    ensures RunBase64(EMPTY, text).1 == data
  {
    hide IsSymbol;
    Base64MachineDecodes(text);
    Base64MachineDecodes(Encode(data));
    SextetsOfSymbols(text);
    SextetsOfSymbols(Encode(data));
    EncodingDecodes(data);
  }

  // The test vectors of section 10 of RFC 4648.
  lemma Vectors()
    ensures Encode([0x66]) == [0x5A, 0x67, 0x3D, 0x3D]
    ensures Encode([0x66, 0x6F]) == [0x5A, 0x6D, 0x38, 0x3D]
    ensures Encode([0x66, 0x6F, 0x6F]) == [0x5A, 0x6D, 0x39, 0x76]
  {
    assert Encode([]) == [];
  }

  // A carriage return and a line feed break a line; an escape is an equals sign and
  // two digits; an equals sign before a line end joins the lines.
  lemma BreaksAndEscapes(rest: Bytes)
    ensures WithoutBreaks([0x0D, 0x0A] + rest) == WithoutBreaks(rest)
    ensures DecodeQuoted([0x3D, 0x33, 0x44] + rest) == [0x3D] + DecodeQuoted(rest)
    ensures DecodeQuoted([0x3D, 0x0D, 0x0A] + rest) == DecodeQuoted(rest)
    ensures DecodeQuoted([0x3D, 0x0A] + rest) == DecodeQuoted(rest)
  {
    assert ([0x0D, 0x0A] + rest)[1..] == [0x0A] + rest && ([0x0A] + rest)[1..] == rest;
    assert ([0x3D, 0x33, 0x44] + rest)[3..] == rest && ([0x3D, 0x0D, 0x0A] + rest)[3..] == rest;
    assert ([0x3D, 0x0A] + rest)[2..] == rest;
  }
}
