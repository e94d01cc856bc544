// The one-file archive of the diagnostics export (crates/core/src/diagnostics.rs),
// against a reader of the format: sections 4.3.7, 4.3.12 and 4.3.16 of PKWARE APPNOTE.
module StoredZip {
  import opened Wrappers
  import Crc32

  type Byte = Crc32.Byte

  const TWO16 := 0x1_0000
  const TWO32 := 0x1_0000_0000
  const LOCAL_SIGNATURE := 0x0403_4b50
  const CENTRAL_SIGNATURE := 0x0201_4b50
  const END_SIGNATURE := 0x0605_4b50

  // ---- little-endian numbers ----

  // `n as Byte`, counted up so that its value can be read off by induction.
  function ByteOf(n: nat): Byte
    requires n < 256
  {
    if n == 0 then 0 else ByteOf(n - 1) + 1
  }

  function Low(n: nat): Byte {
    ByteOf(n % 256)
  }

  function U16(n: nat): (r: seq<Byte>)
    ensures |r| == 2
  {
    [Low(n), Low(n / 256)]
  }

  function U32(n: nat): (r: seq<Byte>)
    ensures |r| == 4
  {
    [Low(n), Low(n / 256), Low(n / 0x1_0000), Low(n / 0x100_0000)]
  }

  function Number(b: Byte): nat {
    b as int
  }

  function GetU16(file: seq<Byte>, at: nat): nat
    requires at + 2 <= |file|
  {
    Number(file[at]) + 256 * Number(file[at + 1])
  }

  function GetU32(file: seq<Byte>, at: nat): nat
    requires at + 4 <= |file|
  {
    GetU16(file, at) + 0x1_0000 * GetU16(file, at + 2)
  }

  lemma {:induction false} ByteNumber(n: nat)
    requires n < 256
    ensures Number(ByteOf(n)) == n
  {
    if n > 0 {
      ByteNumber(n - 1);
    } else {
      assert Number(0) == 0;
    }
  }

  lemma LowNumber(n: nat)
    ensures Number(Low(n)) == n % 256
  {
    hide Number, ByteOf;
    ByteNumber(n % 256);
  }

  lemma FourDigits(n: nat)
    requires n < TWO32
    ensures n % 256 + 256 * ((n / 256) % 256)
            + 0x1_0000 * ((n / 0x1_0000) % 256 + 256 * ((n / 0x100_0000) % 256)) == n
  {
    var h := n / 0x1_0000;
    assert n / 0x100_0000 == h / 256;
    var l := n % 0x1_0000;
    assert l % 256 == n % 256;
    assert (n / 256) % 256 == (l / 256) % 256;
  }

  lemma ReadsU16(file: seq<Byte>, at: nat, n: nat)
    requires at + 2 <= |file| && file[at..at + 2] == U16(n) && n < TWO16
    ensures GetU16(file, at) == n
  {
    hide Low, Number;
    assert file[at..at + 2][0] == file[at] && file[at..at + 2][1] == file[at + 1];
    LowNumber(n);
    LowNumber(n / 256);
  }

  lemma ReadsU32(file: seq<Byte>, at: nat, n: nat)
    requires at + 4 <= |file| && file[at..at + 4] == U32(n) && n < TWO32
    ensures GetU32(file, at) == n
  {
    hide Low, Number;
    var s := file[at..at + 4];
    assert s[0] == file[at] && s[1] == file[at + 1] && s[2] == file[at + 2] && s[3] == file[at + 3];
    LowNumber(n);
    LowNumber(n / 256);
    LowNumber(n / 0x1_0000);
    LowNumber(n / 0x100_0000);
    FourDigits(n);
  }

  // ---- the archive ----

  function LocalHeader(crc: nat, dataLen: nat, nameLen: nat): (r: seq<Byte>)
    ensures |r| == 30
  {
    U32(LOCAL_SIGNATURE) + U16(20) + U16(0) + U16(0) + U16(0) + U16(0)
    + U32(crc) + U32(dataLen) + U32(dataLen) + U16(nameLen) + U16(0)
  }

  function CentralHeader(crc: nat, dataLen: nat, nameLen: nat): (r: seq<Byte>)
    ensures |r| == 46
  {
    CentralFront(crc, dataLen) + CentralBack(nameLen)
  }

  function CentralFront(crc: nat, dataLen: nat): (r: seq<Byte>)
    ensures |r| == 28
  {
    U32(CENTRAL_SIGNATURE) + U16(20) + U16(20) + U16(0) + U16(0) + U16(0) + U16(0)
    + U32(crc) + U32(dataLen) + U32(dataLen)
  }

  function CentralBack(nameLen: nat): (r: seq<Byte>)
    ensures |r| == 18
  {
    U16(nameLen) + U16(0) + U16(0) + U16(0) + U16(0) + U32(0) + U32(0)
  }

  function EndRecord(size: nat, offset: nat): (r: seq<Byte>)
    ensures |r| == 22
  {
    U32(END_SIGNATURE) + U16(0) + U16(0) + U16(1) + U16(1) + U32(size) + U32(offset) + U16(0)
  }

  // Where the central directory is said to start: a u32 sum.
  function StatedOffset(nameLen: nat, dataLen: nat): nat {
    (30 + nameLen + dataLen) % TWO32
  }

  // The file around `data`, with the checksum as given.
  function Framed(name: seq<Byte>, data: seq<Byte>, crc: nat): seq<Byte> {
    LocalHeader(crc, |data|, |name|) + name + data
    + CentralHeader(crc, |data|, |name|) + name
    + EndRecord(46 + |name|, StatedOffset(|name|, |data|))
  }

  function Checksum(data: seq<Byte>): (r: nat)
    ensures r < TWO32
  {
    Crc32.Crc(data) as int
  }

  function Archive(name: seq<Byte>, data: seq<Byte>): seq<Byte> {
    Framed(name, data, Checksum(data))
  }

  class ZipFile {
    var bytes: seq<Byte>

    constructor ()
      ensures bytes == []
    {
      bytes := [];
    }

    method WriteU16(value: nat)
      modifies this
      ensures bytes == old(bytes) + U16(value)
    {
      bytes := bytes + U16(value);
    }

    method WriteU32(value: nat)
      modifies this
      ensures bytes == old(bytes) + U32(value)
    {
      bytes := bytes + U32(value);
    }

    method WriteAll(text: seq<Byte>)
      modifies this
      ensures bytes == old(bytes) + text
    {
      bytes := bytes + text;
    }

    method WriteLocalHeader(crc: nat, dataLen: nat, nameLen: nat)
      modifies this
      ensures bytes == old(bytes) + LocalHeader(crc, dataLen, nameLen)
    {
      hide U16, U32;
      ghost var before := bytes;
      WriteU32(LOCAL_SIGNATURE);
      WriteU16(20);
      WriteU16(0);
      WriteU16(0);
      WriteU16(0);
      WriteU16(0);
      WriteU32(crc);
      WriteU32(dataLen);
      WriteU32(dataLen);
      WriteU16(nameLen);
      WriteU16(0);
      assert bytes == before + LocalHeader(crc, dataLen, nameLen);
    }

    method WriteCentralHeader(crc: nat, dataLen: nat, nameLen: nat)
      modifies this
      ensures bytes == old(bytes) + CentralHeader(crc, dataLen, nameLen)
    {
      hide U16, U32;
      WriteCentralFront(crc, dataLen);
      ghost var front := bytes;
      WriteU16(nameLen);
      WriteU16(0);
      WriteU16(0);
      WriteU16(0);
      WriteU16(0);
      WriteU32(0);
      WriteU32(0);
      assert bytes == front + CentralBack(nameLen);
    }

    method WriteCentralFront(crc: nat, dataLen: nat)
      modifies this
      ensures bytes == old(bytes) + CentralFront(crc, dataLen)
    {
      hide U16, U32;
      ghost var before := bytes;
      WriteU32(CENTRAL_SIGNATURE);
      WriteU16(20);
      WriteU16(20);
      WriteU16(0);
      WriteU16(0);
      WriteU16(0);
      WriteU16(0);
      WriteU32(crc);
      WriteU32(dataLen);
      WriteU32(dataLen);
      assert bytes == before + CentralFront(crc, dataLen);
    }

    method WriteEndRecord(size: nat, offset: nat)
      modifies this
      ensures bytes == old(bytes) + EndRecord(size, offset)
    {
      hide U16, U32;
      ghost var before := bytes;
      WriteU32(END_SIGNATURE);
      WriteU16(0);
      WriteU16(0);
      WriteU16(1);
      WriteU16(1);
      WriteU32(size);
      WriteU32(offset);
      WriteU16(0);
      assert bytes == before + EndRecord(size, offset);
    }

    // write_single_file_zip. A long name or report is refused before the file is
    // created, which empties it.
    method WriteSingleFileZip(name: seq<Byte>, data: seq<Byte>) returns (ok: bool)
      modifies this
      ensures ok <==> |name| < TWO16 && |data| < TWO32
      ensures bytes == if ok then Archive(name, data) else old(bytes)
    {
      hide LocalHeader, CentralHeader, EndRecord;
      ok := |name| < TWO16 && |data| < TWO32;
      if !ok {
        return;
      }
      var checksum := Crc32.ComputeCrc32(data);
      var crc := checksum as int;
      bytes := [];
      WriteLocalHeader(crc, |data|, |name|);
      WriteAll(name);
      WriteAll(data);
      var centralOffset := (30 + |name| + |data|) % TWO32;
      WriteCentralHeader(crc, |data|, |name|);
      WriteAll(name);
      var centralSize := 46 + |name|;
      WriteEndRecord(centralSize, centralOffset);
    }
  }

  // ---- a reader of the format ----

  datatype Entry = Entry(name: seq<Byte>, data: seq<Byte>)

  datatype Central = Central(name: seq<Byte>, crc: nat, size: nat, localOffset: nat)

  // Each of the three headers begins with PK and its own two bytes.
  lemma SignaturesAre()
    ensures GetU32([0x50, 0x4B, 0x03, 0x04], 0) == LOCAL_SIGNATURE
    ensures GetU32([0x50, 0x4B, 0x01, 0x02], 0) == CENTRAL_SIGNATURE
    ensures GetU32([0x50, 0x4B, 0x05, 0x06], 0) == END_SIGNATURE
  {
    assert Number(0x50) == 0x50 && Number(0x4B) == 0x4B && Number(1) == 1 && Number(2) == 2;
    assert Number(3) == 3 && Number(4) == 4 && Number(5) == 5 && Number(6) == 6;
    hide Number;
  }

  // The last 22 bytes: one disk, one entry, no comment, and a directory of `size`
  // bytes that ends where they begin.
  function ReadEnd(file: seq<Byte>): (r: Option<nat>)
    ensures r.Some? ==> r.value + 46 <= |file|
  {
    if |file| < 22 then None
    else
      var e := |file| - 22;
      var size, offset := GetU32(file, e + 12), GetU32(file, e + 16);
      if && GetU32(file, e) == END_SIGNATURE
         && GetU16(file, e + 4) == 0 && GetU16(file, e + 6) == 0
         && GetU16(file, e + 8) == 1 && GetU16(file, e + 10) == 1
         && GetU16(file, e + 20) == 0
         && size >= 46 && offset + size == e
      then Some(offset) else None
  }

  // The one directory entry at `c`: stored, not encrypted, no extra field or comment.
  function ReadCentral(file: seq<Byte>, c: nat): Option<Central>
    requires c + 46 <= |file|
  {
    var nameLen := GetU16(file, c + 28);
    if && GetU32(file, c) == CENTRAL_SIGNATURE
       && GetU16(file, c + 8) == 0 && GetU16(file, c + 10) == 0
       && GetU16(file, c + 30) == 0 && GetU16(file, c + 32) == 0 && GetU16(file, c + 34) == 0
       && GetU32(file, c + 20) == GetU32(file, c + 24)
       && c + 46 + nameLen + 22 == |file|
    then Some(Central(file[c + 46..c + 46 + nameLen], GetU32(file, c + 16), GetU32(file, c + 20), GetU32(file, c + 42)))
    else None
  }

  // The file behind a directory entry, if its own header agrees and its checksum holds.
  function ReadLocal(file: seq<Byte>, entry: Central): Option<Entry> {
    var l := entry.localOffset;
    if l + 30 + |entry.name| + entry.size > |file| then None
    else
      var start := l + 30 + |entry.name|;
      if && GetU32(file, l) == LOCAL_SIGNATURE
         && GetU16(file, l + 6) == 0 && GetU16(file, l + 8) == 0
         && GetU32(file, l + 14) == entry.crc
         && GetU32(file, l + 18) == entry.size && GetU32(file, l + 22) == entry.size
         && GetU16(file, l + 26) == |entry.name| && GetU16(file, l + 28) == 0
         && file[l + 30..start] == entry.name
         && Checksum(file[start..start + entry.size]) == entry.crc
      then Some(Entry(entry.name, file[start..start + entry.size])) else None
  }

  function Parse(file: seq<Byte>): Option<Entry> {
    match ReadEnd(file)
    case None => None
    case Some(c) =>
      match ReadCentral(file, c)
      case None => None
      case Some(entry) => ReadLocal(file, entry)
  }

  // ---- reading back what was written ----

  // The piece of a file that starts at `at`.
  ghost predicate Holds(file: seq<Byte>, at: nat, piece: seq<Byte>) {
    at + |piece| <= |file| && file[at..at + |piece|] == piece
  }

  lemma HoldsWithin(file: seq<Byte>, at: nat, piece: seq<Byte>, k: nat, part: seq<Byte>)
    requires Holds(file, at, piece) && Holds(piece, k, part)
    ensures Holds(file, at + k, part)
  {
    forall i | 0 <= i < |part|
      ensures file[at + k + i] == part[i]
    {
      assert file[at..at + |piece|][k + i] == piece[k + i];
      assert piece[k..k + |part|][i] == part[i];
    }
    assert file[at + k..at + k + |part|] == part;
  }

  lemma PieceU16(file: seq<Byte>, at: nat, piece: seq<Byte>, k: nat, n: nat)
    requires Holds(file, at, piece) && Holds(piece, k, U16(n)) && n < TWO16
    ensures at + k + 2 <= |file| && GetU16(file, at + k) == n
  {
    hide U16, GetU16;
    HoldsWithin(file, at, piece, k, U16(n));
    ReadsU16(file, at + k, n);
  }

  lemma PieceU32(file: seq<Byte>, at: nat, piece: seq<Byte>, k: nat, n: nat)
    requires Holds(file, at, piece) && Holds(piece, k, U32(n)) && n < TWO32
    ensures at + k + 4 <= |file| && GetU32(file, at + k) == n
  {
    hide U32, GetU32;
    HoldsWithin(file, at, piece, k, U32(n));
    ReadsU32(file, at + k, n);
  }

  lemma LocalFields(file: seq<Byte>, at: nat, crc: nat, dataLen: nat, nameLen: nat)
    requires Holds(file, at, LocalHeader(crc, dataLen, nameLen))
    requires crc < TWO32 && dataLen < TWO32 && nameLen < TWO16
    ensures at + 30 <= |file|
    ensures GetU32(file, at) == LOCAL_SIGNATURE && GetU16(file, at + 6) == 0 && GetU16(file, at + 8) == 0
    ensures GetU32(file, at + 14) == crc && GetU32(file, at + 18) == dataLen && GetU32(file, at + 22) == dataLen
    ensures GetU16(file, at + 26) == nameLen && GetU16(file, at + 28) == 0
  {
    hide U16, U32, GetU16, GetU32;
    var h := LocalHeader(crc, dataLen, nameLen);
    PieceU32(file, at, h, 0, LOCAL_SIGNATURE);
    PieceU16(file, at, h, 6, 0);
    PieceU16(file, at, h, 8, 0);
    PieceU32(file, at, h, 14, crc);
    PieceU32(file, at, h, 18, dataLen);
    PieceU32(file, at, h, 22, dataLen);
    PieceU16(file, at, h, 26, nameLen);
    PieceU16(file, at, h, 28, 0);
  }

  lemma EndFields(file: seq<Byte>, at: nat, size: nat, offset: nat)
    requires Holds(file, at, EndRecord(size, offset)) && size < TWO32 && offset < TWO32
    ensures at + 22 <= |file|
    ensures GetU32(file, at) == END_SIGNATURE
    ensures GetU16(file, at + 4) == 0 && GetU16(file, at + 6) == 0
    ensures GetU16(file, at + 8) == 1 && GetU16(file, at + 10) == 1 && GetU16(file, at + 20) == 0
    ensures GetU32(file, at + 12) == size && GetU32(file, at + 16) == offset
  {
    hide U16, U32, GetU16, GetU32;
    var h := EndRecord(size, offset);
    PieceU32(file, at, h, 0, END_SIGNATURE);
    PieceU16(file, at, h, 4, 0);
    PieceU16(file, at, h, 6, 0);
    PieceU16(file, at, h, 8, 1);
    PieceU16(file, at, h, 10, 1);
    PieceU16(file, at, h, 20, 0);
    PieceU32(file, at, h, 12, size);
    PieceU32(file, at, h, 16, offset);
  }

  lemma CentralFields(file: seq<Byte>, at: nat, crc: nat, dataLen: nat, nameLen: nat)
    requires Holds(file, at, CentralHeader(crc, dataLen, nameLen))
    requires crc < TWO32 && dataLen < TWO32 && nameLen < TWO16
    ensures at + 46 <= |file|
    ensures GetU32(file, at) == CENTRAL_SIGNATURE && GetU16(file, at + 8) == 0 && GetU16(file, at + 10) == 0
    ensures GetU32(file, at + 16) == crc && GetU32(file, at + 20) == dataLen && GetU32(file, at + 24) == dataLen
    ensures GetU16(file, at + 28) == nameLen && GetU16(file, at + 30) == 0 && GetU16(file, at + 32) == 0
    ensures GetU16(file, at + 34) == 0 && GetU32(file, at + 42) == 0
  {
    hide U16, U32, GetU16, GetU32;
    var h := CentralHeader(crc, dataLen, nameLen);
    var front, back := CentralFront(crc, dataLen), CentralBack(nameLen);
    assert Holds(file, at, front) by { HoldsWithin(file, at, h, 0, front); }
    assert Holds(file, at + 28, back) by { HoldsWithin(file, at, h, 28, back); }
    hide CentralHeader;
    PieceU32(file, at, front, 0, CENTRAL_SIGNATURE);
    PieceU16(file, at, front, 8, 0);
    PieceU16(file, at, front, 10, 0);
    PieceU32(file, at, front, 16, crc);
    PieceU32(file, at, front, 20, dataLen);
    PieceU32(file, at, front, 24, dataLen);
    PieceU16(file, at + 28, back, 0, nameLen);
    PieceU16(file, at + 28, back, 2, 0);
    PieceU16(file, at + 28, back, 4, 0);
    PieceU16(file, at + 28, back, 6, 0);
    PieceU32(file, at + 28, back, 14, 0);
  }

  // Where everything sits in the file.
  lemma FramedPieces(name: seq<Byte>, data: seq<Byte>, crc: nat)
    ensures var file := Framed(name, data, crc);
            var c := 30 + |name| + |data|;
            && |file| == c + 46 + |name| + 22
            && Holds(file, 0, LocalHeader(crc, |data|, |name|))
            && Holds(file, 30, name)
            && Holds(file, 30 + |name|, data)
            && Holds(file, c, CentralHeader(crc, |data|, |name|))
            && Holds(file, c + 46, name)
            && Holds(file, c + 46 + |name|, EndRecord(46 + |name|, StatedOffset(|name|, |data|)))
  {
    hide LocalHeader, CentralHeader, EndRecord;
  }

  // The parts, read back from where the reader looks for them.
  lemma FramedParses(name: seq<Byte>, data: seq<Byte>, crc: nat)
    requires |name| < TWO16 && crc < TWO32 && 30 + |name| + |data| < TWO32
    ensures Parse(Framed(name, data, crc)) == if Checksum(data) == crc then Some(Entry(name, data)) else None
  {
    hide LocalHeader, CentralHeader, EndRecord, Framed, Checksum, GetU16, GetU32;
    var file := Framed(name, data, crc);
    var c := 30 + |name| + |data|;
    FramedPieces(name, data, crc);
    EndFields(file, c + 46 + |name|, 46 + |name|, StatedOffset(|name|, |data|));
    CentralFields(file, c, crc, |data|, |name|);
    LocalFields(file, 0, crc, |data|, |name|);
    assert ReadEnd(file) == Some(c);
    assert ReadCentral(file, c) == Some(Central(name, crc, |data|, 0));
  }

  // The directory is where the end record says, as a sum of u32 values, exactly when
  // the headers and the report fit in 32 bits.
  lemma OffsetIsTrueIff(name: seq<Byte>, data: seq<Byte>)
    requires |name| < TWO16 && |data| < TWO32
    ensures Holds(Archive(name, data), 30 + |name| + |data|, CentralHeader(Checksum(data), |data|, |name|))
    ensures GetU32(Archive(name, data), |Archive(name, data)| - 6) == 30 + |name| + |data|
            <==> 30 + |name| + |data| < TWO32
  {
    hide LocalHeader, CentralHeader, EndRecord, Framed, Checksum, GetU16, GetU32;
    FramedPieces(name, data, Checksum(data));
    EndFields(Archive(name, data), 30 + |name| + |data| + 46 + |name|, 46 + |name|, StatedOffset(|name|, |data|));
  }

  // Every name and report that is accepted parses back to exactly that name and
  // report when headers and report fit in 32 bits, and is refused when they do not.
  lemma ArchiveRoundTrip(name: seq<Byte>, data: seq<Byte>)
    requires |name| < TWO16 && |data| < TWO32
    ensures Parse(Archive(name, data)) == if 30 + |name| + |data| < TWO32 then Some(Entry(name, data)) else None
  {
    if 30 + |name| + |data| < TWO32 {
      FramedParses(name, data, Checksum(data));
    } else {
      OverlongIsRefused(name, data);
    }
  }

  // The reader looks for the directory where the end record says.
  lemma OverlongIsRefused(name: seq<Byte>, data: seq<Byte>)
    requires |name| < TWO16 && |data| < TWO32 <= 30 + |name| + |data|
    ensures Parse(Archive(name, data)) == None
  {
    hide LocalHeader, CentralHeader, EndRecord, Framed, Checksum, GetU16, GetU32, ReadCentral, ReadLocal;
    var file, c := Archive(name, data), 30 + |name| + |data|;
    FramedPieces(name, data, Checksum(data));
    EndFields(file, c + 46 + |name|, 46 + |name|, StatedOffset(|name|, |data|));
    assert ReadEnd(file) == None;
  }

  // Damage within four consecutive bytes of the stored report never reads as a report.
  lemma DamageIsRefused(name: seq<Byte>, prefix: seq<Byte>, a: seq<Byte>, b: seq<Byte>, suffix: seq<Byte>)
    requires |name| < TWO16 && 30 + |name| + |prefix + a + suffix| < TWO32
    requires |a| == |b| <= 4
    ensures Parse(Framed(name, prefix + b + suffix, Checksum(prefix + a + suffix)))
            == if a == b then Some(Entry(name, prefix + a + suffix)) else None
  {
    hide Framed, Parse;
    FramedParses(name, prefix + b + suffix, Checksum(prefix + a + suffix));
    Crc32.WindowChangesCrc(prefix, a, b, suffix);
    ChecksumIsCrc(prefix + a + suffix, prefix + b + suffix);
  }

  lemma ChecksumIsCrc(a: seq<Byte>, b: seq<Byte>)
    ensures Checksum(a) == Checksum(b) <==> Crc32.Crc(a) == Crc32.Crc(b)
  {
    assert (Checksum(a) as bv32) == Crc32.Crc(a) && (Checksum(b) as bv32) == Crc32.Crc(b);
  }
}
