// CRC-32 of a report (crates/core/src/diagnostics.rs), bit for bit on a 32-bit register.
module Crc32 {
  type Byte = bv8

  const POLYNOMIAL: bv32 := 0xedb8_8320
  const ALL_ONES: bv32 := 0xffff_ffff

  // One of the eight steps a byte takes.
  function Step(crc: bv32): bv32 {
    if crc & 1 == 1 then (crc >> 1) ^ POLYNOMIAL else crc >> 1
  }

  // The top bit tells whether the polynomial was added.
  function Unstep(crc: bv32): bv32 {
    if crc & 0x8000_0000 == 0 then crc << 1 else ((crc ^ POLYNOMIAL) << 1) | 1
  }

  // Names for register arithmetic, so that a proof can do without its bits.
  function Xor(a: bv32, b: bv32): bv32 {
    a ^ b
  }

  function Wide(b: Byte): bv32 {
    b as bv32
  }

  function Half(x: bv32): bv32 {
    x >> 1
  }

  function DropByte(x: bv32): bv32 {
    x >> 8
  }

  predicate Even(x: bv32) {
    x & 1 == 0
  }

  function Steps(crc: bv32, n: nat): bv32 {
    if n == 0 then crc else Step(Steps(crc, n - 1))
  }

  function Feed(crc: bv32, data: seq<Byte>): bv32 {
    if data == [] then crc else Steps(Xor(Feed(crc, data[..|data| - 1]), Wide(data[|data| - 1])), 8)
  }

  function Crc(data: seq<Byte>): bv32 {
    Xor(Feed(ALL_ONES, data), ALL_ONES)
  }

  // The branch-free form: the low bit, negated, is the mask.
  lemma MaskIsChoice(crc: bv32)
    ensures (crc >> 1) ^ (POLYNOMIAL & (0 - (crc & 1))) == Step(crc)
  {
    assert crc & 1 == 0 || crc & 1 == 1;
  }

  lemma NotIsXor(crc: bv32)
    ensures !crc == Xor(crc, ALL_ONES)
  {
  }

  // crc32
  method ComputeCrc32(data: seq<Byte>) returns (checksum: bv32)
    ensures checksum == Crc(data)
  {
    hide Step, Xor, Wide;
    var crc: bv32 := ALL_ONES;
    for i := 0 to |data|
      invariant crc == Feed(ALL_ONES, data[..i])
    {
      assert data[..i + 1][..i] == data[..i];
      crc := AddByte(crc, data[i]);
    }
    assert data[..|data|] == data;
    NotIsXor(crc);
    checksum := !crc;
  }

  // The body of its loop.
  method AddByte(before: bv32, byte: Byte) returns (crc: bv32)
    ensures crc == Steps(Xor(before, Wide(byte)), 8)
  {
    hide Step;
    crc := before ^ (byte as bv32);
    ghost var start := crc;
    for k := 0 to 8
      invariant crc == Steps(start, k)
    {
      MaskIsChoice(crc);
      crc := (crc >> 1) ^ (POLYNOMIAL & (0 - (crc & 1)));
    }
  }

  // ---- the step is a bijection, and linear ----

  lemma LowUnstep(crc: bv32)
    requires crc & 0x8000_0000 == 0
    ensures Step(crc << 1) == crc
  {
  }

  lemma HighUnstep(crc: bv32)
    requires crc & 0x8000_0000 != 0
    ensures Step(((crc ^ POLYNOMIAL) << 1) | 1) == crc
  {
  }

  lemma LowBit(crc: bv32)
    ensures crc & 1 == 0 || crc & 1 == 1
  {
  }

  lemma StepIsABijection(crc: bv32)
    ensures Unstep(Step(crc)) == crc && Step(Unstep(crc)) == crc
  {
    LowBit(crc);
    if crc & 0x8000_0000 == 0 {
      LowUnstep(crc);
    } else {
      HighUnstep(crc);
    }
  }

  predicate Odd(x: bv32) {
    x & 1 == 1
  }

  lemma StepIs(crc: bv32)
    ensures Step(crc) == if Odd(crc) then Xor(Half(crc), POLYNOMIAL) else Half(crc)
  {
  }

  lemma HalfOfXor(a: bv32, b: bv32)
    ensures Half(Xor(a, b)) == Xor(Half(a), Half(b))
  {
  }

  lemma LowBitOfXor(a: bv32, b: bv32)
    ensures (a ^ b) & 1 == (a & 1) ^ (b & 1)
  {
  }

  // The polynomial is added for a sum exactly when it is for one of the two.
  lemma OddXor(a: bv32, b: bv32)
    ensures Odd(Xor(a, b)) <==> Odd(a) != Odd(b)
  {
    LowBitOfXor(a, b);
    LowBit(a);
    LowBit(b);
  }

  lemma XorSelf(p: bv32)
    ensures Xor(p, p) == 0
  {
  }

  lemma AddedOnce(x: bv32, y: bv32, p: bv32)
    ensures Xor(Xor(x, p), y) == Xor(Xor(x, y), p) && Xor(x, Xor(y, p)) == Xor(Xor(x, y), p)
  {
    hide Xor;
    XorAssociates(x, p, y);
    XorCommutes(p, y);
    XorAssociates(x, y, p);
  }

  lemma AddedTwice(x: bv32, y: bv32, p: bv32)
    ensures Xor(Xor(x, p), Xor(y, p)) == Xor(x, y)
  {
    hide Xor;
    AddedOnce(x, Xor(y, p), p);
    AddedOnce(x, y, p);
    XorAssociates(Xor(x, y), p, p);
    XorSelf(p);
    XorZero(Xor(x, y));
  }

  lemma StepLinear(a: bv32, b: bv32)
    ensures Step(Xor(a, b)) == Xor(Step(a), Step(b))
  {
    hide Step, Xor, Half, Odd;
    StepIs(a);
    StepIs(b);
    StepIs(Xor(a, b));
    OddXor(a, b);
    HalfOfXor(a, b);
    AddedTwice(Half(a), Half(b), POLYNOMIAL);
    AddedOnce(Half(a), Half(b), POLYNOMIAL);
  }

  lemma XorAssociates(a: bv32, b: bv32, c: bv32)
    ensures Xor(Xor(a, b), c) == Xor(a, Xor(b, c))
  {
  }

  lemma XorCommutes(a: bv32, b: bv32)
    ensures Xor(a, b) == Xor(b, a)
  {
  }

  lemma XorZero(a: bv32)
    ensures Xor(a, 0) == a
  {
  }

  lemma XorCancels(a: bv32, b: bv32, c: bv32)
    ensures Xor(a, c) == Xor(b, c) <==> a == b
  {
  }

  lemma {:induction false} StepsInjective(a: bv32, b: bv32, n: nat)
    requires Steps(a, n) == Steps(b, n)
    ensures a == b
  {
    hide Step, Unstep;
    if n > 0 {
      StepIsABijection(Steps(a, n - 1));
      StepIsABijection(Steps(b, n - 1));
      StepsInjective(a, b, n - 1);
    }
  }

  lemma {:induction false} StepsLinear(a: bv32, b: bv32, n: nat)
    ensures Steps(Xor(a, b), n) == Xor(Steps(a, n), Steps(b, n))
  {
    hide Step, Xor;
    if n > 0 {
      StepsLinear(a, b, n - 1);
      StepLinear(Steps(a, n - 1), Steps(b, n - 1));
    }
  }

  lemma {:induction false} StepsCompose(crc: bv32, m: nat, n: nat)
    ensures Steps(crc, m + n) == Steps(Steps(crc, m), n)
  {
    hide Step;
    if n > 0 {
      StepsCompose(crc, m, n - 1);
    }
  }

  // ---- feeding ----

  lemma {:induction false} FeedConcat(crc: bv32, a: seq<Byte>, b: seq<Byte>)
    ensures Feed(crc, a + b) == Feed(Feed(crc, a), b)
  {
    hide Steps, Xor, Wide;
    if b == [] {
      assert a + b == a;
    } else {
      assert (a + b)[..|a + b| - 1] == a + b[..|b| - 1];
      FeedConcat(crc, a, b[..|b| - 1]);
    }
  }

  lemma {:induction false} FeedInjective(a: bv32, b: bv32, data: seq<Byte>)
    requires Feed(a, data) == Feed(b, data)
    ensures a == b
  {
    hide Steps, Xor, Wide;
    if data != [] {
      var before := data[..|data| - 1];
      var byte := Wide(data[|data| - 1]);
      StepsInjective(Xor(Feed(a, before), byte), Xor(Feed(b, before), byte), 8);
      XorCancels(Feed(a, before), Feed(b, before), byte);
      FeedInjective(a, b, before);
    }
  }

  // ---- up to four bytes are one word ----

  // m bytes up.
  function Raised(x: bv32, m: nat): bv32
    requires m < 4
  {
    match m
    case 0 => x
    case 1 => x << 8
    case 2 => x << 16
    case 3 => x << 24
  }

  function Place(b: Byte, m: nat): bv32
    requires m < 4
  {
    Raised(Wide(b), m)
  }

  // Little-endian.
  function Word(bytes: seq<Byte>): bv32
    requires |bytes| <= 4
  {
    if bytes == [] then 0
    else Xor(Word(bytes[..|bytes| - 1]), Place(bytes[|bytes| - 1], |bytes| - 1))
  }

  lemma StepShifts(x: bv32)
    requires Even(x)
    ensures Step(x) == Half(x)
  {
  }

  lemma EightSteps(x: bv32)
    ensures Steps(x, 8) == Step(Step(Step(Step(Step(Step(Step(Step(x))))))))
  {
    hide Step;
    assert Steps(x, 8) == Step(Steps(x, 7));
    assert Steps(x, 7) == Step(Steps(x, 6));
    assert Steps(x, 6) == Step(Steps(x, 5));
    assert Steps(x, 5) == Step(Steps(x, 4));
    assert Steps(x, 4) == Step(Steps(x, 3));
    assert Steps(x, 3) == Step(Steps(x, 2));
    assert Steps(x, 2) == Step(Steps(x, 1));
  }

  predicate Aligned(x: bv32) {
    x & 0xff == 0
  }

  // x halved k times.
  function Halved(x: bv32, k: nat): bv32 {
    if k == 0 then x else Half(Halved(x, k - 1))
  }

  lemma HalvesAreEven(x: bv32)
    requires Aligned(x)
    ensures Even(x) && Even(Halved(x, 1)) && Even(Halved(x, 2)) && Even(Halved(x, 3))
    ensures Even(Halved(x, 4)) && Even(Halved(x, 5)) && Even(Halved(x, 6)) && Even(Halved(x, 7))
    ensures Halved(x, 8) == DropByte(x)
  {
    assert Halved(x, 1) == x >> 1;
    assert Halved(x, 2) == x >> 2;
    assert Halved(x, 3) == x >> 3;
    assert Halved(x, 4) == x >> 4;
    assert Halved(x, 5) == x >> 5;
    assert Halved(x, 6) == x >> 6;
    assert Halved(x, 7) == x >> 7;
  }

  lemma EightShifts(x: bv32)
    requires Aligned(x)
    ensures Steps(x, 8) == DropByte(x)
  {
    hide Step, Half, Even, DropByte, Aligned;
    HalvesAreEven(x);
    for k := 0 to 8
      invariant Steps(x, k) == Halved(x, k)
    {
      assert Even(Halved(x, k));
      StepShifts(Halved(x, k));
    }
  }

  // A placed byte comes down to the bottom of the register unchanged.
  lemma {:induction false} PlaceComesDown(b: Byte, m: nat)
    requires m < 4
    ensures Steps(Place(b, m), 8 * m) == Wide(b)
  {
    hide Step, Wide, DropByte, Aligned;
    if m > 0 {
      PlaceComesDown(b, m - 1);
      PlaceIsAligned(b, m);
      hide Place;
      EightShifts(Place(b, m));
      StepsCompose(Place(b, m), 8, 8 * (m - 1));
    }
  }

  lemma PlaceIsAligned(b: Byte, m: nat)
    requires 0 < m < 4
    ensures Aligned(Place(b, m)) && DropByte(Place(b, m)) == Place(b, m - 1)
  {
    WideIsSmall(b);
    hide Wide;
  }

  lemma {:induction false} FeedWord(crc: bv32, bytes: seq<Byte>)
    requires |bytes| <= 4
    ensures Feed(crc, bytes) == Steps(Xor(crc, Word(bytes)), 8 * |bytes|)
  {
    hide Step, Place, Xor, Wide;
    if bytes == [] {
      XorZero(crc);
    } else {
      var m := |bytes| - 1;
      var before := Xor(crc, Word(bytes[..m]));
      FeedWord(crc, bytes[..m]);
      PlaceComesDown(bytes[m], m);
      StepsLinear(before, Place(bytes[m], m), 8 * m);
      StepsCompose(Xor(before, Place(bytes[m], m)), 8 * m, 8);
      XorAssociates(crc, Word(bytes[..m]), Place(bytes[m], m));
    }
  }

  // ---- reading a word back ----

  function UpperBits(x: bv32): bv32 {
    x & 0xffff_0000
  }

  // Nothing above the first m bytes.
  predicate Narrow(w: bv32, m: nat)
    requires m <= 4
  {
    match m
    case 0 => w == 0
    case 1 => w & 0xffff_ff00 == 0
    case 2 => UpperBits(w) == 0
    case 3 => w & 0xff00_0000 == 0
    case 4 => true
  }

  predicate OneByte(x: bv32) {
    x & 0xffff_ff00 == 0
  }

  lemma WideIsSmall(b: Byte)
    ensures OneByte(Wide(b))
  {
  }

  lemma WideInjective(b: Byte, c: Byte)
    requires Wide(b) == Wide(c)
    ensures b == c
  {
  }

  lemma Grows0(w: bv32, b: bv32)
    requires Narrow(w, 0) && OneByte(b)
    ensures Narrow(Xor(w, Raised(b, 0)), 1)
  {
  }

  lemma Grows1(w: bv32, b: bv32)
    requires Narrow(w, 1) && OneByte(b)
    ensures Narrow(Xor(w, Raised(b, 1)), 2)
  {
  }

  lemma Grows2(w: bv32, b: bv32)
    requires Narrow(w, 2) && OneByte(b)
    ensures Narrow(Xor(w, Raised(b, 2)), 3)
  {
  }

  lemma Grows3(w: bv32, b: bv32)
    requires Narrow(w, 3) && OneByte(b)
    ensures Narrow(Xor(w, Raised(b, 3)), 4)
  {
  }

  lemma NarrowGrows(w: bv32, b: Byte, m: nat)
    requires m < 4 && Narrow(w, m)
    ensures Narrow(Xor(w, Place(b, m)), m + 1)
  {
    hide Narrow, OneByte, Xor, Raised, Wide;
    WideIsSmall(b);
    match m
    case 0 => Grows0(w, Wide(b));
    case 1 => Grows1(w, Wide(b));
    case 2 => Grows2(w, Wide(b));
    case 3 => Grows3(w, Wide(b));
  }

  // What a word ^ Place(b, m) was made of.
  function LowPart(x: bv32, m: nat): bv32
    requires m < 4
  {
    match m
    case 0 => 0
    case 1 => x & 0xff
    case 2 => x & 0xffff
    case 3 => x & 0xff_ffff
  }

  function TopByte(x: bv32, m: nat): bv32
    requires m < 4
  {
    match m
    case 0 => x
    case 1 => x >> 8
    case 2 => x >> 16
    case 3 => x >> 24
  }

  lemma Recovers0(w: bv32, b: bv32)
    requires Narrow(w, 0) && OneByte(b)
    ensures LowPart(Xor(w, Raised(b, 0)), 0) == w && TopByte(Xor(w, Raised(b, 0)), 0) == b
  {
  }

  lemma Recovers1(w: bv32, b: bv32)
    requires Narrow(w, 1) && OneByte(b)
    ensures LowPart(Xor(w, Raised(b, 1)), 1) == w && TopByte(Xor(w, Raised(b, 1)), 1) == b
  {
  }

  function LowHalf(x: bv32): bv32 {
    x & 0xffff
  }

  function HighHalf(x: bv32): bv32 {
    x >> 16
  }

  lemma HalvesOfXor(x: bv32, y: bv32)
    ensures LowHalf(Xor(x, y)) == Xor(LowHalf(x), LowHalf(y)) && HighHalf(Xor(x, y)) == Xor(HighHalf(x), HighHalf(y))
  {
  }

  lemma HalvesMakeWhole(w: bv32)
    ensures Xor(UpperBits(w), LowHalf(w)) == w && HighHalf(w) == HighHalf(UpperBits(w)) && HighHalf(0) == 0
  {
  }

  lemma NarrowHasNoUpper(w: bv32)
    requires Narrow(w, 2)
    ensures UpperBits(w) == 0
  {
    hide UpperBits;
  }

  lemma HalvesOfNarrow(w: bv32)
    requires Narrow(w, 2)
    ensures LowHalf(w) == w && HighHalf(w) == 0
  {
    hide UpperBits, LowHalf, HighHalf, Narrow, Xor;
    NarrowHasNoUpper(w);
    HalvesMakeWhole(w);
    XorCommutes(0, LowHalf(w));
    XorZero(LowHalf(w));
  }

  lemma HalvesOfRaised(b: bv32)
    requires OneByte(b)
    ensures LowHalf(Raised(b, 2)) == 0 && HighHalf(Raised(b, 2)) == b
  {
  }

  lemma Recovers2(w: bv32, b: bv32)
    requires Narrow(w, 2) && OneByte(b)
    ensures LowPart(Xor(w, Raised(b, 2)), 2) == w && TopByte(Xor(w, Raised(b, 2)), 2) == b
  {
    hide Xor, Raised, LowPart, TopByte, LowHalf, HighHalf, Narrow, OneByte;
    HalvesOfXor(w, Raised(b, 2));
    HalvesOfNarrow(w);
    HalvesOfRaised(b);
    PartsAreHalves(Xor(w, Raised(b, 2)));
    XorZero(w);
    XorCommutes(0, b);
    XorZero(b);
  }

  lemma PartsAreHalves(x: bv32)
    ensures LowPart(x, 2) == LowHalf(x) && TopByte(x, 2) == HighHalf(x)
  {
  }

  lemma Recovers3(w: bv32, b: bv32)
    requires Narrow(w, 3) && OneByte(b)
    ensures LowPart(Xor(w, Raised(b, 3)), 3) == w && TopByte(Xor(w, Raised(b, 3)), 3) == b
  {
  }

  lemma PlacesRecover(w: bv32, b: Byte, m: nat)
    requires m < 4 && Narrow(w, m)
    ensures LowPart(Xor(w, Place(b, m)), m) == w && TopByte(Xor(w, Place(b, m)), m) == Wide(b)
  {
    hide Narrow, OneByte, Xor, Raised, Wide, LowPart, TopByte;
    WideIsSmall(b);
    match m
    case 0 => Recovers0(w, Wide(b));
    case 1 => Recovers1(w, Wide(b));
    case 2 => Recovers2(w, Wide(b));
    case 3 => Recovers3(w, Wide(b));
  }

  lemma PlacesSeparate(w: bv32, b: Byte, v: bv32, c: Byte, m: nat)
    requires m < 4 && Narrow(w, m) && Narrow(v, m) && Xor(w, Place(b, m)) == Xor(v, Place(c, m))
    ensures w == v && b == c
  {
    hide Narrow, Xor, Place, Wide, LowPart, TopByte;
    PlacesRecover(w, b, m);
    PlacesRecover(v, c, m);
    WideInjective(b, c);
  }

  lemma {:induction false} WordIsNarrow(bytes: seq<Byte>)
    requires |bytes| <= 4
    ensures Narrow(Word(bytes), |bytes|)
  {
    hide Xor, Place;
    if bytes != [] {
      var m := |bytes| - 1;
      WordIsNarrow(bytes[..m]);
      hide Narrow;
      NarrowGrows(Word(bytes[..m]), bytes[m], m);
    }
  }

  lemma {:induction false} WordInjective(a: seq<Byte>, b: seq<Byte>)
    requires |a| == |b| <= 4 && Word(a) == Word(b)
    ensures a == b
  {
    hide Xor, Place, Narrow;
    if a != [] {
      var m := |a| - 1;
      WordIsNarrow(a[..m]);
      WordIsNarrow(b[..m]);
      PlacesSeparate(Word(a[..m]), a[m], Word(b[..m]), b[m], m);
      WordInjective(a[..m], b[..m]);
      assert a == a[..m] + [a[m]] && b == b[..m] + [b[m]];
    }
  }

  // ---- the theorems ----

  // Equal-length inputs that differ, and only within four consecutive bytes, always
  // have different checksums.
  lemma WindowChangesCrc(prefix: seq<Byte>, a: seq<Byte>, b: seq<Byte>, suffix: seq<Byte>)
    requires |a| == |b| <= 4
    ensures Crc(prefix + a + suffix) == Crc(prefix + b + suffix) <==> a == b
  {
    hide Xor, Steps, Word, Feed;
    var start := Feed(ALL_ONES, prefix);
    FeedConcat(ALL_ONES, prefix, a);
    FeedConcat(ALL_ONES, prefix, b);
    FeedConcat(ALL_ONES, prefix + a, suffix);
    FeedConcat(ALL_ONES, prefix + b, suffix);
    if Crc(prefix + a + suffix) == Crc(prefix + b + suffix) {
      XorCancels(Feed(Feed(start, a), suffix), Feed(Feed(start, b), suffix), ALL_ONES);
      FeedInjective(Feed(start, a), Feed(start, b), suffix);
      FeedWord(start, a);
      FeedWord(start, b);
      StepsInjective(Xor(start, Word(a)), Xor(start, Word(b)), 8 * |a|);
      XorCommutes(start, Word(a));
      XorCommutes(start, Word(b));
      XorCancels(Word(a), Word(b), start);
      WordInjective(a, b);
    }
  }

  // Data with four bytes appended has the fixed residue exactly when the four bytes
  // are its own checksum, low byte first.
  lemma ResidueIff(data: seq<Byte>, tail: seq<Byte>)
    requires |tail| == 4
    ensures Feed(ALL_ONES, data + tail) == Steps(ALL_ONES, 32) <==> Word(tail) == Crc(data)
  {
    hide Xor, Steps, Word, Feed;
    var before := Feed(ALL_ONES, data);
    FeedConcat(ALL_ONES, data, tail);
    FeedWord(before, tail);
    if Steps(Xor(before, Word(tail)), 32) == Steps(ALL_ONES, 32) {
      StepsInjective(Xor(before, Word(tail)), ALL_ONES, 32);
    }
    XorSwaps(before, Word(tail), ALL_ONES);
  }

  lemma XorTwice(a: bv32, b: bv32)
    ensures Xor(a, Xor(a, b)) == b
  {
  }

  lemma XorSwaps(a: bv32, b: bv32, c: bv32)
    ensures Xor(a, b) == c <==> b == Xor(a, c)
  {
    XorTwice(a, b);
    XorTwice(a, c);
    hide Xor;
  }

  function XorAll(a: seq<Byte>, b: seq<Byte>): (r: seq<Byte>)
    requires |a| == |b|
    ensures |r| == |a|
  {
    seq(|a|, i requires 0 <= i < |a| => a[i] ^ b[i])
  }

  lemma WideXor(a: Byte, b: Byte)
    ensures Wide(a ^ b) == Xor(Wide(a), Wide(b))
  {
  }

  lemma XorRegroups(a: bv32, b: bv32, c: bv32, d: bv32)
    ensures Xor(Xor(a, b), Xor(c, d)) == Xor(Xor(a, c), Xor(b, d))
  {
    XorAssociates(a, b, Xor(c, d));
    XorAssociates(b, c, d);
    XorCommutes(b, c);
    XorAssociates(c, b, d);
    XorAssociates(a, c, Xor(b, d));
  }

  lemma {:induction false} FeedLinear(x: bv32, a: seq<Byte>, y: bv32, b: seq<Byte>)
    requires |a| == |b|
    ensures Feed(Xor(x, y), XorAll(a, b)) == Xor(Feed(x, a), Feed(y, b))
  {
    hide Xor, Steps, Wide;
    if a != [] {
      var n := |a| - 1;
      FeedLinear(x, a[..n], y, b[..n]);
      assert XorAll(a, b)[..n] == XorAll(a[..n], b[..n]);
      WideXor(a[n], b[n]);
      XorRegroups(Feed(x, a[..n]), Feed(y, b[..n]), Wide(a[n]), Wide(b[n]));
      StepsLinear(Xor(Feed(x, a[..n]), Wide(a[n])), Xor(Feed(y, b[..n]), Wide(b[n])), 8);
    }
  }

  // Checksums are affine: three inputs of one length and their sum cancel out.
  lemma CrcAffine(a: seq<Byte>, b: seq<Byte>, c: seq<Byte>)
    requires |a| == |b| == |c|
    ensures Crc(XorAll(XorAll(a, b), c)) == Xor(Xor(Crc(a), Crc(b)), Crc(c))
  {
    hide Xor, Feed;
    FeedLinear(ALL_ONES, a, ALL_ONES, b);
    FeedLinear(Xor(ALL_ONES, ALL_ONES), XorAll(a, b), ALL_ONES, c);
    ThreeOnes();
    var x, y, z := Feed(ALL_ONES, a), Feed(ALL_ONES, b), Feed(ALL_ONES, c);
    XorRegroups(x, ALL_ONES, y, ALL_ONES);
    XorRegroups(Xor(x, y), Xor(ALL_ONES, ALL_ONES), z, ALL_ONES);
  }

  lemma ThreeOnes()
    ensures Xor(Xor(ALL_ONES, ALL_ONES), ALL_ONES) == ALL_ONES
  {
  }

  // The polynomial, the bit order and both inversions: the checksum of the letter a.
  lemma CheckValue()
    ensures Crc([0x61]) == 0xe8b7be43
  {
    var x: bv32 := 0xffffff9e;
    assert Xor(ALL_ONES, Wide(0x61)) == x;
    assert Step(0xffffff9e) == 0x7fffffcf;
    assert Step(0x7fffffcf) == 0xd2477cc7;
    assert Step(0xd2477cc7) == 0x849b3d43;
    assert Step(0x849b3d43) == 0xaff51d81;
    assert Step(0xaff51d81) == 0xba420de0;
    assert Step(0xba420de0) == 0x5d2106f0;
    assert Step(0x5d2106f0) == 0x2e908378;
    assert Step(0x2e908378) == 0x174841bc;
    EightSteps(x);
    var data: seq<Byte> := [0x61];
    assert data[..0] == [];
    assert Feed(ALL_ONES, data) == Steps(x, 8);
    assert Xor(0x174841bc, ALL_ONES) == 0xe8b7be43;
  }
}
