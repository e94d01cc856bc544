// The byte-at-a-time machines of crates/attachments/src/lib.rs and what they
// decode: base64 over a 32-bit register that drops its high bits, and
// quoted-printable with its half-read escapes.
module TransferCodec {
  import opened Wrappers

  type Byte = bv8
  type Bytes = seq<Byte>

  const CR: Byte := 0x0D
  const LF: Byte := 0x0A
  const EQUALS: Byte := 0x3D

  // ---- base64: the register ----

  datatype Register = Register(acc: bv32, bits: nat)

  const EMPTY := Register(0, 0)

  function SextetOf(byte: Byte): (r: Option<Byte>)
    ensures r.Some? ==> r.value < 64
  {
    if 0x41 <= byte <= 0x5A then Some(byte - 0x41)
    else if 0x61 <= byte <= 0x7A then Some(byte - 0x61 + 26)
    else if 0x30 <= byte <= 0x39 then Some(byte - 0x30 + 52)
    else if byte == 0x2B then Some(62)
    else if byte == 0x2F then Some(63)
    else None
  }

  function Low8(x: bv32): Byte {
    (x & 0xFF) as Byte
  }

  function Shift(acc: bv32, value: Byte): bv32 {
    (acc << 6) | (value as bv32)
  }

  // The eight bits above the lowest `bits`.
  function Top(acc: bv32, bits: nat): Byte
    requires bits < 8
  {
    Low8(acc >> bits)
  }

  function Absorb(r: Register, value: Byte): (Register, Bytes)
    requires r.bits < 8
  {
    var acc := Shift(r.acc, value);
    if r.bits + 6 >= 8 then (Register(acc, r.bits - 2), [Top(acc, r.bits - 2)])
    else (Register(acc, r.bits + 6), [])
  }

  function PushBase64(r: Register, byte: Byte): (s: (Register, Bytes))
    requires r.bits < 8
    ensures s.0.bits < 8
  {
    match SextetOf(byte)
    case None => (r, [])
    case Some(value) => Absorb(r, value)
  }

  // ---- base64: what the text means ----

  function Sextets(text: Bytes): (r: Bytes)
    ensures forall i | 0 <= i < |r| :: r[i] < 64
  {
    if text == [] then []
    else
      match SextetOf(text[0])
      case None => Sextets(text[1..])
      case Some(value) => [value] + Sextets(text[1..])
  }

  // The three octets of four sextets, most significant bits first.
  function First(a: Byte, b: Byte): Byte {
    (a << 2) | (b >> 4)
  }

  function Second(b: Byte, c: Byte): Byte {
    (b << 4) | (c >> 2)
  }

  function Third(c: Byte, d: Byte): Byte {
    (c << 6) | d
  }

  // A tail shorter than four sextets gives the octets that are complete.
  function Octets(v: Bytes): Bytes {
    if |v| < 2 then []
    else if |v| == 2 then [First(v[0], v[1])]
    else if |v| == 3 then [First(v[0], v[1]), Second(v[1], v[2])]
    else [First(v[0], v[1]), Second(v[1], v[2]), Third(v[2], v[3])] + Octets(v[4..])
  }

  function DecodeBase64(text: Bytes): Bytes {
    Octets(Sextets(text))
  }

  // Running the register over a text, from the front.
  function RunBase64(r: Register, text: Bytes): (Register, Bytes)
    requires r.bits < 8
    decreases |text|
  {
    if text == [] then (r, [])
    else
      var (s, out) := PushBase64(r, text[0]);
      var (t, rest) := RunBase64(s, text[1..]);
      (t, out + rest)
  }

  function RunSextets(r: Register, v: Bytes): (Register, Bytes)
    requires r.bits < 8
    decreases |v|
  {
    if v == [] then (r, [])
    else
      var (s, out) := Absorb(r, v[0]);
      var (t, rest) := RunSextets(s, v[1..]);
      (t, out + rest)
  }

  lemma {:induction false} RunIgnoresOtherBytes(r: Register, text: Bytes)
    requires r.bits < 8
    ensures RunBase64(r, text) == RunSextets(r, Sextets(text))
    decreases |text|
  {
    if text != [] {
      var (s, out) := PushBase64(r, text[0]);
      RunIgnoresOtherBytes(s, text[1..]);
      match SextetOf(text[0])
      case None => assert out + RunBase64(s, text[1..]).1 == RunBase64(s, text[1..]).1;
      case Some(value) => assert Sextets(text)[1..] == Sextets(text[1..]);
    }
  }

  // Whatever the register still holds from earlier groups, it never shows.
  lemma AbsorbFirst(acc: bv32, a: Byte)
    ensures Absorb(Register(acc, 0), a) == (Register(Shift(acc, a), 6), [])
  {
  }

  lemma AbsorbSecond(acc: bv32, a: Byte, b: Byte)
    requires a < 64 && b < 64
    ensures Absorb(Register(Shift(acc, a), 6), b) == (Register(Shift(Shift(acc, a), b), 4), [First(a, b)])
  {
  }

  lemma AbsorbThird(acc: bv32, b: Byte, c: Byte)
    requires b < 64 && c < 64
    ensures Absorb(Register(Shift(acc, b), 4), c) == (Register(Shift(Shift(acc, b), c), 2), [Second(b, c)])
  {
  }

  lemma AbsorbFourth(acc: bv32, c: Byte, d: Byte)
    requires c < 64 && d < 64
    ensures Absorb(Register(Shift(acc, c), 2), d) == (Register(Shift(Shift(acc, c), d), 0), [Third(c, d)])
  {
  }

  // What is still to come when two, respectively three, sextets of a group are in.
  function AfterTwo(b: Byte, v: Bytes): Bytes {
    if v == [] then [] else [Second(b, v[0])] + AfterThree(v[0], v[1..])
  }

  function AfterThree(c: Byte, v: Bytes): Bytes {
    if v == [] then [] else [Third(c, v[0])] + Octets(v[1..])
  }

  lemma OctetsByTwo(v: Bytes)
    requires |v| >= 2
    ensures Octets(v) == [First(v[0], v[1])] + AfterTwo(v[1], v[2..])
  {
    hide First, Second, Third, Octets, AfterTwo, AfterThree;
    OctetsUnfold(v);
    if |v| == 2 {
      NothingAfterTwo(v[1]);
      assert v[2..] == [];
    } else if |v| == 3 {
      OctetsAfterTwo(v);
      NothingAfterThree(v[2]);
      assert v[3..] == [];
    } else {
      OctetsAfterTwo(v);
      OctetsAfterThree(v);
      OneByOne(First(v[0], v[1]), Second(v[1], v[2]), Third(v[2], v[3]), Octets(v[4..]));
    }
  }

  lemma OneByOne(a: Byte, b: Byte, c: Byte, rest: Bytes)
    ensures [a] + ([b] + ([c] + rest)) == [a, b, c] + rest
  {
  }

  lemma OctetsUnfold(v: Bytes)
    requires |v| >= 2
    ensures |v| == 2 ==> Octets(v) == [First(v[0], v[1])]
    ensures |v| == 3 ==> Octets(v) == [First(v[0], v[1]), Second(v[1], v[2])]
    ensures |v| >= 4 ==> Octets(v) == [First(v[0], v[1]), Second(v[1], v[2]), Third(v[2], v[3])] + Octets(v[4..])
  {
    hide First, Second, Third;
  }

  lemma NothingAfterTwo(b: Byte)
    ensures AfterTwo(b, []) == []
  {
  }

  lemma NothingAfterThree(c: Byte)
    ensures AfterThree(c, []) == []
  {
  }

  lemma OctetsAfterTwo(v: Bytes)
    requires |v| >= 3
    ensures AfterTwo(v[1], v[2..]) == [Second(v[1], v[2])] + AfterThree(v[2], v[3..])
  {
    hide First, Second, Third, AfterThree;
    assert v[2..][1..] == v[3..];
  }

  lemma OctetsAfterThree(v: Bytes)
    requires |v| >= 4
    ensures AfterThree(v[2], v[3..]) == [Third(v[2], v[3])] + Octets(v[4..])
  {
    hide First, Second, Third, Octets;
    assert v[3..][1..] == v[4..];
  }

  // At a group boundary the register decodes what follows, whatever it holds.
  lemma {:induction false} RegisterDecodes(acc: bv32, v: Bytes)
    requires forall i | 0 <= i < |v| :: v[i] < 64
    ensures RunSextets(Register(acc, 0), v).1 == Octets(v)
    decreases |v|
  {
    hide Absorb, Shift, First, Second, Third;
    if |v| >= 1 {
      AbsorbFirst(acc, v[0]);
      assert RunSextets(Register(acc, 0), v).1 == RunSextets(Register(Shift(acc, v[0]), 6), v[1..]).1;
      if |v| >= 2 {
        AbsorbSecond(acc, v[0], v[1]);
        assert v[1..][1..] == v[2..];
        RegisterDecodesAfterTwo(Shift(acc, v[0]), v[1], v[2..]);
        OctetsByTwo(v);
      }
    }
  }

  lemma {:induction false} RegisterDecodesAfterTwo(acc: bv32, b: Byte, v: Bytes)
    requires b < 64 && forall i | 0 <= i < |v| :: v[i] < 64
    ensures RunSextets(Register(Shift(acc, b), 4), v).1 == AfterTwo(b, v)
    decreases |v|
  {
    hide Absorb, Shift, First, Second, Third;
    if v != [] {
      AbsorbThird(acc, b, v[0]);
      RegisterDecodesAfterThree(Shift(acc, b), v[0], v[1..]);
    }
  }

  lemma {:induction false} RegisterDecodesAfterThree(acc: bv32, c: Byte, v: Bytes)
    requires c < 64 && forall i | 0 <= i < |v| :: v[i] < 64
    ensures RunSextets(Register(Shift(acc, c), 2), v).1 == AfterThree(c, v)
    decreases |v|
  {
    hide Absorb, Shift, First, Second, Third;
    if v != [] {
      AbsorbFourth(acc, c, v[0]);
      RegisterDecodes(Shift(Shift(acc, c), v[0]), v[1..]);
    }
  }

  // The machine, started empty, decodes every text whatsoever.
  lemma Base64MachineDecodes(text: Bytes)
    ensures RunBase64(EMPTY, text).1 == DecodeBase64(text)
  {
    RunIgnoresOtherBytes(EMPTY, text);
    RegisterDecodes(0, Sextets(text));
  }

  // ---- base64: section 4 of RFC 4648, line breaks as in section 6.8 of RFC 2045 ----

  function Symbol(v: Byte): (c: Byte)
    requires v < 64
    ensures SextetOf(c) == Some(v)
  {
    if v < 26 then 0x41 + v
    else if v < 52 then 0x61 + (v - 26)
    else if v < 62 then 0x30 + (v - 52)
    else if v == 62 then 0x2B
    else 0x2F
  }

  // The four sextets of three octets.
  function Sextet1(x: Byte): (v: Byte)
    ensures v < 64
  {
    x >> 2
  }

  function Sextet2(x: Byte, y: Byte): (v: Byte)
    ensures v < 64
  {
    ((x << 4) & 0x3F) | (y >> 4)
  }

  function Sextet3(y: Byte, z: Byte): (v: Byte)
    ensures v < 64
  {
    ((y << 2) & 0x3F) | (z >> 6)
  }

  function Sextet4(z: Byte): (v: Byte)
    ensures v < 64
  {
    z & 0x3F
  }

  function Encode(data: Bytes): Bytes {
    if data == [] then []
    else if |data| == 1 then [Symbol(Sextet1(data[0])), Symbol(Sextet2(data[0], 0)), EQUALS, EQUALS]
    else if |data| == 2 then
      [Symbol(Sextet1(data[0])), Symbol(Sextet2(data[0], data[1])), Symbol(Sextet3(data[1], 0)), EQUALS]
    else
      [Symbol(Sextet1(data[0])), Symbol(Sextet2(data[0], data[1])),
       Symbol(Sextet3(data[1], data[2])), Symbol(Sextet4(data[2]))] + Encode(data[3..])
  }

  function WithoutBreaks(text: Bytes): Bytes {
    if text == [] then []
    else if text[0] == CR || text[0] == LF then WithoutBreaks(text[1..])
    else [text[0]] + WithoutBreaks(text[1..])
  }

  lemma {:induction false} BreaksDoNotMatter(text: Bytes)
    ensures Sextets(WithoutBreaks(text)) == Sextets(text)
  {
    if text != [] {
      BreaksDoNotMatter(text[1..]);
      if text[0] != CR && text[0] != LF {
        assert WithoutBreaks(text)[1..] == WithoutBreaks(text[1..]);
      }
    }
  }

  lemma {:induction false} SextetsConcat(a: Bytes, b: Bytes)
    ensures Sextets(a + b) == Sextets(a) + Sextets(b)
  {
    if a == [] {
      assert a + b == b;
    } else {
      assert (a + b)[1..] == a[1..] + b;
      SextetsConcat(a[1..], b);
    }
  }

  lemma GroupRoundTrip(x: Byte, y: Byte, z: Byte)
    ensures First(Sextet1(x), Sextet2(x, y)) == x
    ensures Second(Sextet2(x, y), Sextet3(y, z)) == y
    ensures Third(Sextet3(y, z), Sextet4(z)) == z
  {
  }

  lemma SextetsOfSymbols(v: Bytes)
    requires forall i | 0 <= i < |v| :: v[i] < 64
    ensures |v| >= 1 ==> Sextets([Symbol(v[0])]) == [v[0]]
    ensures |v| == 2 ==> Sextets([Symbol(v[0]), Symbol(v[1])]) == v
  {
    hide Symbol;
    if |v| >= 1 {
      assert Sextets([Symbol(v[0])]) == [v[0]] + Sextets([]);
    }
    if |v| == 2 {
      SextetsConcat([Symbol(v[0])], [Symbol(v[1])]);
      assert Sextets([Symbol(v[1])]) == [v[1]] + Sextets([]);
    }
  }

  lemma PaddingIsSilent()
    ensures Sextets([EQUALS]) == [] && Sextets([EQUALS, EQUALS]) == []
  {
    assert [EQUALS, EQUALS][1..] == [EQUALS];
  }

  lemma OneOctetGroup(x: Byte)
    ensures DecodeBase64(Encode([x])) == [x]
  {
    hide Sextets, Symbol, First, Sextet1, Sextet2;
    GroupRoundTrip(x, 0, 0);
    var head := [Symbol(Sextet1(x)), Symbol(Sextet2(x, 0))];
    assert Encode([x]) == head + [EQUALS, EQUALS];
    SextetsConcat(head, [EQUALS, EQUALS]);
    SextetsOfSymbols([Sextet1(x), Sextet2(x, 0)]);
    PaddingIsSilent();
  }

  lemma TwoOctetGroup(x: Byte, y: Byte)
    ensures DecodeBase64(Encode([x, y])) == [x, y]
  {
    hide Sextets, Symbol, First, Second, Sextet1, Sextet2, Sextet3;
    GroupRoundTrip(x, y, 0);
    var head, tail := [Symbol(Sextet1(x)), Symbol(Sextet2(x, y))], [Symbol(Sextet3(y, 0))];
    assert Encode([x, y]) == head + tail + [EQUALS];
    SextetsConcat(head + tail, [EQUALS]);
    SextetsConcat(head, tail);
    SextetsOfSymbols([Sextet1(x), Sextet2(x, y)]);
    SextetsOfSymbols([Sextet3(y, 0)]);
    PaddingIsSilent();
  }

  lemma ThreeOctetSextets(x: Byte, y: Byte, z: Byte)
    ensures Sextets(Encode([x, y, z])) == [Sextet1(x), Sextet2(x, y), Sextet3(y, z), Sextet4(z)]
  {
    hide Sextets, Symbol, Sextet1, Sextet2, Sextet3, Sextet4;
    var head, tail := [Symbol(Sextet1(x)), Symbol(Sextet2(x, y))], [Symbol(Sextet3(y, z)), Symbol(Sextet4(z))];
    assert [x, y, z][3..] == [];
    assert Encode([x, y, z]) == head + tail;
    SextetsConcat(head, tail);
    SextetsOfSymbols([Sextet1(x), Sextet2(x, y)]);
    SextetsOfSymbols([Sextet3(y, z), Sextet4(z)]);
  }

  lemma ThreeOctetGroup(x: Byte, y: Byte, z: Byte, rest: Bytes)
    ensures Encode([x, y, z] + rest) == Encode([x, y, z]) + Encode(rest)
    ensures |Sextets(Encode([x, y, z]))| == 4
    ensures DecodeBase64(Encode([x, y, z])) == [x, y, z]
  {
    ThreeOctetSextets(x, y, z);
    hide Sextets, Symbol, First, Second, Third, Sextet1, Sextet2, Sextet3, Sextet4;
    assert ([x, y, z] + rest)[3..] == rest && [x, y, z][3..] == [];
    GroupRoundTrip(x, y, z);
    OctetsOfFour([Sextet1(x), Sextet2(x, y), Sextet3(y, z), Sextet4(z)]);
  }

  lemma OctetsOfFour(v: Bytes)
    requires |v| == 4
    ensures Octets(v) == [First(v[0], v[1]), Second(v[1], v[2]), Third(v[2], v[3])]
  {
    hide First, Second, Third;
    assert v[4..] == [] && Octets(v[4..]) == [];
  }

  lemma OctetsOfGroup(group: Bytes, rest: Bytes)
    requires |group| == 4
    ensures Octets(group + rest) == Octets(group) + Octets(rest)
  {
    assert (group + rest)[4..] == rest && group[4..] == [];
  }

  lemma {:induction false} EncodingDecodes(data: Bytes)
    ensures DecodeBase64(Encode(data)) == data
  {
    hide Encode, Octets, Sextets;
    if data == [] {
      EmptyEncoding();
    } else if |data| == 1 {
      OneOctetGroup(data[0]);
      assert data == [data[0]];
    } else if |data| == 2 {
      TwoOctetGroup(data[0], data[1]);
      assert data == [data[0], data[1]];
    } else {
      var head, rest := [data[0], data[1], data[2]], data[3..];
      assert data == head + rest;
      ThreeOctetGroup(data[0], data[1], data[2], rest);
      SextetsConcat(Encode(head), Encode(rest));
      OctetsOfGroup(Sextets(Encode(head)), Sextets(Encode(rest)));
      EncodingDecodes(rest);
    }
  }

  lemma EmptyEncoding()
    ensures DecodeBase64(Encode([])) == []
  {
  }

  // Every encoding, its lines broken anywhere, comes back as the data encoded.
  lemma Base64RoundTrip(data: Bytes, text: Bytes)
    requires WithoutBreaks(text) == Encode(data)
    ensures RunBase64(EMPTY, text).1 == data
  {
    Base64MachineDecodes(text);
    BreaksDoNotMatter(text);
    EncodingDecodes(data);
  }

  // ---- quoted-printable: the machine ----

  datatype Escape = Normal | Equals | EqualsCr | EqualsHex(value: Byte, raw: Byte)

  function HexValue(byte: Byte): (r: Option<Byte>)
    ensures r.Some? ==> r.value < 16
  {
    if 0x30 <= byte <= 0x39 then Some(byte - 0x30)
    else if 0x61 <= byte <= 0x66 then Some(byte - 0x61 + 10)
    else if 0x41 <= byte <= 0x46 then Some(byte - 0x41 + 10)
    else None
  }

  // An abandoned escape gives its byte back and reads the current one afresh.
  function PushQuoted(state: Escape, byte: Byte): (Escape, Bytes)
    decreases state != Normal
  {
    match state
    case Normal => if byte == EQUALS then (Equals, []) else (Normal, [byte])
    case Equals =>
      if byte == LF then (Normal, [])
      else if byte == CR then (EqualsCr, [])
      else if HexValue(byte).Some? then (EqualsHex(HexValue(byte).value, byte), [])
      else (Normal, [byte])
    case EqualsCr =>
      if byte == LF then (Normal, [])
      else
        var (next, out) := PushQuoted(Normal, byte);
        (next, [CR] + out)
    case EqualsHex(value, raw) =>
      if HexValue(byte).Some? then (Normal, [(value << 4) | HexValue(byte).value])
      else
        var (next, out) := PushQuoted(Normal, byte);
        (next, [raw] + out)
  }

  function FinishQuoted(state: Escape): Bytes {
    match state
    case EqualsCr => [CR]
    case EqualsHex(_, raw) => [raw]
    case _ => []
  }

  function RunQuoted(state: Escape, text: Bytes): (Escape, Bytes)
    decreases |text|
  {
    if text == [] then (state, [])
    else
      var (next, out) := PushQuoted(state, text[0]);
      var (last, rest) := RunQuoted(next, text[1..]);
      (last, out + rest)
  }

  // ---- quoted-printable: what the text means, read with lookahead ----

  function DecodeQuoted(text: Bytes): Bytes {
    if text == [] then []
    else if text[0] != EQUALS then [text[0]] + DecodeQuoted(text[1..])
    else if |text| == 1 then []
    else if text[1] == LF then DecodeQuoted(text[2..])
    else if text[1] == CR then
      if |text| == 2 then [CR]
      else if text[2] == LF then DecodeQuoted(text[3..])
      else [CR] + DecodeQuoted(text[2..])
    else if HexValue(text[1]).Some? && |text| > 2 && HexValue(text[2]).Some? then
      [(HexValue(text[1]).value << 4) | HexValue(text[2]).value] + DecodeQuoted(text[3..])
    else [text[1]] + DecodeQuoted(text[2..])
  }

  // All that the machine writes for a text, its last unfinished escape included.
  function Complete(state: Escape, text: Bytes): Bytes {
    RunQuoted(state, text).1 + FinishQuoted(RunQuoted(state, text).0)
  }

  lemma CompleteByOne(state: Escape, text: Bytes)
    ensures text == [] ==> Complete(state, text) == FinishQuoted(state)
    ensures text != [] ==>
              Complete(state, text) == PushQuoted(state, text[0]).1 + Complete(PushQuoted(state, text[0]).0, text[1..])
  {
  }

  // An escape that its next byte does not continue gives up its own byte; the
  // rest is read as if it stood alone.
  lemma EscapeAbandoned(state: Escape, text: Bytes)
    requires text != []
    requires (state == EqualsCr && text[0] != LF) || (state.EqualsHex? && HexValue(text[0]).None?)
    ensures Complete(state, text) == FinishQuoted(state) + Complete(Normal, text)
  {
    hide Complete, RunQuoted;
    CompleteByOne(state, text);
    CompleteByOne(Normal, text);
  }

  lemma {:induction false} QuotedMachineDecodes(text: Bytes)
    ensures Complete(Normal, text) == DecodeQuoted(text)
    decreases |text|, 1
  {
    hide Complete, RunQuoted;
    CompleteByOne(Normal, text);
    if text != [] {
      var t1 := text[1..];
      if text[0] != EQUALS {
        QuotedMachineDecodes(t1);
      } else {
        CompleteByOne(Equals, t1);
        if |text| > 1 {
          var t2 := text[2..];
          assert t1[1..] == t2;
          EscapeDecodes(text, PushQuoted(Equals, text[1]).0);
        }
      }
    }
  }

  // An equals sign and one more byte are read; `next` is where that leaves the machine.
  lemma {:induction false} EscapeDecodes(text: Bytes, next: Escape)
    requires |text| >= 2 && text[0] == EQUALS && next == PushQuoted(Equals, text[1]).0
    ensures PushQuoted(Equals, text[1]).1 + Complete(next, text[2..]) == DecodeQuoted(text)
    decreases |text|, 0
  {
    hide Complete, RunQuoted;
    var t2 := text[2..];
    CompleteByOne(next, t2);
    if next == Normal || t2 == [] {
      QuotedMachineDecodes(t2);
    } else {
      assert t2[1..] == text[3..];
      if (next == EqualsCr && t2[0] != LF) || (next.EqualsHex? && HexValue(t2[0]).None?) {
        EscapeAbandoned(next, t2);
        QuotedMachineDecodes(t2);
      } else {
        QuotedMachineDecodes(text[3..]);
      }
    }
  }

  // ---- quoted-printable: section 6.7 of RFC 2045 ----

  // What an encoder may write: a byte as itself, a byte as two hexadecimal
  // digits of either case, or a soft line break.
  datatype Token = Literal(byte: Byte) | Hex(byte: Byte, upper1: bool, upper2: bool) | SoftBreak

  predicate Writable(ts: seq<Token>) {
    forall i | 0 <= i < |ts| && ts[i].Literal? :: ts[i].byte != EQUALS
  }

  function HexDigit(v: Byte, upper: bool): (c: Byte)
    requires v < 16
    ensures HexValue(c) == Some(v) && c != LF && c != CR
  {
    if v < 10 then 0x30 + v else if upper then 0x41 + (v - 10) else 0x61 + (v - 10)
  }

  function WriteToken(t: Token): Bytes {
    match t
    case Literal(byte) => [byte]
    case Hex(byte, upper1, upper2) => [EQUALS, HexDigit(byte >> 4, upper1), HexDigit(byte & 0x0F, upper2)]
    case SoftBreak => [EQUALS, CR, LF]
  }

  function TokenMeaning(t: Token): Bytes {
    if t.SoftBreak? then [] else [t.byte]
  }

  function Write(ts: seq<Token>): Bytes {
    if ts == [] then [] else WriteToken(ts[0]) + Write(ts[1..])
  }

  function Meaning(ts: seq<Token>): Bytes {
    if ts == [] then [] else TokenMeaning(ts[0]) + Meaning(ts[1..])
  }

  lemma {:induction false} WritingDecodes(ts: seq<Token>)
    requires Writable(ts)
    ensures DecodeQuoted(Write(ts)) == Meaning(ts)
  {
    if ts != [] {
      WritingDecodes(ts[1..]);
      var text, rest := Write(ts), Write(ts[1..]);
      match ts[0]
      case Literal(byte) => assert text[1..] == rest;
      case SoftBreak => assert text[3..] == rest;
      case Hex(byte, upper1, upper2) =>
        assert text[3..] == rest;
    }
  }

  // The machine inverts every such text, however escapes and soft breaks were chosen.
  lemma QuotedRoundTrip(ts: seq<Token>)
    requires Writable(ts)
    ensures Complete(Normal, Write(ts)) == Meaning(ts)
  {
    QuotedMachineDecodes(Write(ts));
    WritingDecodes(ts);
  }
}
