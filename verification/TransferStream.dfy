// Decoding a stream with fixed buffers and a size limit
// (crates/attachments/src/lib.rs), proved to be the decoding of the whole input.
module TransferStream {
  import opened Wrappers
  import opened TransferCodec

  const STREAM_CHUNK := 65536
  const U64_MAX := 0xFFFF_FFFF_FFFF_FFFF

  datatype Encoding = Base64 | QuotedPrintable | Identity

  // Both machines side by side, as decode_bounded keeps them.
  datatype Machine = Machine(register: Register, escape: Escape)

  const START := Machine(EMPTY, Normal)

  ghost predicate Ready(m: Machine) {
    m.register.bits < 8
  }

  function Advance(encoding: Encoding, m: Machine, byte: Byte): (r: (Machine, Bytes))
    requires Ready(m)
    ensures Ready(r.0)
  {
    match encoding
    case Base64 => var (register, out) := PushBase64(m.register, byte); (m.(register := register), out)
    case QuotedPrintable => var (escape, out) := PushQuoted(m.escape, byte); (m.(escape := escape), out)
    case Identity => (m, [byte])
  }

  // The machine over everything read so far.
  function Consumed(encoding: Encoding, text: Bytes): (r: (Machine, Bytes))
    ensures Ready(r.0)
  {
    if text == [] then (START, [])
    else
      var (m, out) := Consumed(encoding, text[..|text| - 1]);
      var (next, more) := Advance(encoding, m, text[|text| - 1]);
      (next, out + more)
  }

  // The decoding of a whole input.
  function Decoding(encoding: Encoding, text: Bytes): Bytes {
    match encoding
    case Base64 => DecodeBase64(text)
    case QuotedPrintable => DecodeQuoted(text)
    case Identity => text
  }

  // ---- one byte at a time is the whole input ----

  lemma {:induction false} RunBase64Snoc(r: Register, text: Bytes, byte: Byte)
    requires r.bits < 8
    ensures RunBase64(r, text).0.bits < 8
    ensures RunBase64(r, text + [byte]) ==
            var (s, out) := RunBase64(r, text);
            var (t, more) := PushBase64(s, byte);
            (t, out + more)
    decreases |text|
  {
    hide PushBase64;
    if text == [] {
      assert text + [byte] == [byte];
      assert [byte][1..] == [];
      var out := PushBase64(r, byte).1;
      assert out + [] == out && [] + out == out;
    } else {
      var (s, out) := PushBase64(r, text[0]);
      RunBase64Snoc(s, text[1..], byte);
      assert (text + [byte])[1..] == text[1..] + [byte];
      var (t, rest) := RunBase64(s, text[1..]);
      assert out + (rest + PushBase64(t, byte).1) == (out + rest) + PushBase64(t, byte).1;
    }
  }

  lemma {:induction false} RunQuotedSnoc(state: Escape, text: Bytes, byte: Byte)
    ensures RunQuoted(state, text + [byte]) ==
            var (s, out) := RunQuoted(state, text);
            var (t, more) := PushQuoted(s, byte);
            (t, out + more)
    decreases |text|
  {
    hide PushQuoted;
    if text == [] {
      assert text + [byte] == [byte];
      assert [byte][1..] == [];
      var out := PushQuoted(state, byte).1;
      assert out + [] == out && [] + out == out;
    } else {
      var (s, out) := PushQuoted(state, text[0]);
      RunQuotedSnoc(s, text[1..], byte);
      assert (text + [byte])[1..] == text[1..] + [byte];
      var (t, rest) := RunQuoted(s, text[1..]);
      assert out + (rest + PushQuoted(t, byte).1) == (out + rest) + PushQuoted(t, byte).1;
    }
  }

  lemma {:induction false} ConsumedIsRun(encoding: Encoding, text: Bytes)
    ensures encoding == Base64 ==>
              Consumed(encoding, text) == (Machine(RunBase64(EMPTY, text).0, Normal), RunBase64(EMPTY, text).1)
    ensures encoding == QuotedPrintable ==>
              Consumed(encoding, text) == (Machine(EMPTY, RunQuoted(Normal, text).0), RunQuoted(Normal, text).1)
    ensures encoding == Identity ==> Consumed(encoding, text) == (START, text)
  {
    hide PushBase64, PushQuoted;
    if text != [] {
      var n := |text| - 1;
      ConsumedIsRun(encoding, text[..n]);
      assert text == text[..n] + [text[n]];
      RunBase64Snoc(EMPTY, text[..n], text[n]);
      RunQuotedSnoc(Normal, text[..n], text[n]);
    }
  }

  // What the machines wrote, plus what finish adds, is the decoding.
  lemma ConsumedDecodes(encoding: Encoding, text: Bytes)
    ensures Consumed(encoding, text).1 + FinishQuoted(Consumed(encoding, text).0.escape) == Decoding(encoding, text)
  {
    ConsumedIsRun(encoding, text);
    match encoding
    case Base64 => Base64MachineDecodes(text);
    case QuotedPrintable => QuotedMachineDecodes(text);
    case Identity =>
  }

  // What was written for part of the input is a prefix of what the whole gives.
  lemma {:induction false} ConsumedGrows(encoding: Encoding, text: Bytes, k: nat)
    requires k <= |text|
    ensures Consumed(encoding, text[..k]).1 <= Consumed(encoding, text).1
    decreases |text| - k
  {
    hide Advance;
    if k < |text| {
      ConsumedGrows(encoding, text, k + 1);
      assert text[..k + 1][..k] == text[..k];
    } else {
      assert text[..k] == text;
    }
  }

  lemma PartIsPrefix(encoding: Encoding, text: Bytes, k: nat)
    requires k <= |text|
    ensures Consumed(encoding, text[..k]).1 <= Decoding(encoding, text)
    ensures k < |text| ==>
              Consumed(encoding, text[..k]).1 + Advance(encoding, Consumed(encoding, text[..k]).0, text[k]).1
              <= Decoding(encoding, text)
  {
    hide Advance;
    ConsumedDecodes(encoding, text);
    ConsumedGrows(encoding, text, k);
    if k < |text| {
      ConsumedGrows(encoding, text, k + 1);
      assert text[..k + 1][..k] == text[..k];
    }
  }

  // ---- the two ends ----

  function Flatten(chunks: seq<Bytes>): Bytes {
    if chunks == [] then [] else chunks[0] + Flatten(chunks[1..])
  }

  // A reader: what its successive reads return, and whether an error or the end follows.
  class Source {
    var chunks: seq<Bytes>
    const breaks: bool

    ghost predicate Valid()
      reads this
    {
      forall i | 0 <= i < |chunks| :: 0 < |chunks[i]| <= STREAM_CHUNK
    }

    constructor (chunks: seq<Bytes>, breaks: bool)
      requires forall i | 0 <= i < |chunks| :: 0 < |chunks[i]| <= STREAM_CHUNK
      ensures Valid() && this.chunks == chunks && this.breaks == breaks
    {
      this.chunks := chunks;
      this.breaks := breaks;
    }

    // None is an error; an empty read is the end.
    method Read() returns (r: Option<Bytes>)
      requires Valid()
      modifies this
      ensures Valid()
      ensures old(chunks) == [] ==> chunks == [] && r == if breaks then None else Some([])
      ensures old(chunks) != [] ==> r == Some(old(chunks)[0]) && chunks == old(chunks)[1..]
    {
      if chunks == [] {
        return if breaks then None else Some([]);
      }
      r := Some(chunks[0]);
      chunks := chunks[1..];
    }
  }

  // A writer that takes at most `room` bytes in all (None: any number), keeps what
  // fitted of a write that failed, and whose final flush may fail as well.
  class Sink {
    var written: Bytes
    const room: Option<nat>
    const flushes: bool

    ghost predicate Takes(n: nat) {
      room.Some? ==> n <= room.value
    }

    constructor (room: Option<nat>, flushes: bool)
      ensures written == [] && this.room == room && this.flushes == flushes
    {
      written := [];
      this.room, this.flushes := room, flushes;
    }

    method WriteAll(bytes: Bytes) returns (ok: bool)
      requires Takes(|written|)
      modifies this
      ensures Takes(|written|)
      ensures ok <==> Takes(|old(written)| + |bytes|)
      ensures ok ==> written == old(written) + bytes
      ensures old(written) <= written <= old(written) + bytes
      ensures !ok ==> room == Some(|written|)
    {
      if room.Some? && |written| + |bytes| > room.value {
        written := written + bytes[..room.value - |written|];
        return false;
      }
      written := written + bytes;
      return true;
    }

    method Flush() returns (ok: bool)
      ensures ok == flushes
    {
      return flushes;
    }
  }

  // ---- decode_bounded's output side: pending, total, the limit, the destination ----

  class Output {
    const sink: Sink
    const limit: Option<nat>
    var pending: Bytes
    var total: nat
    ghost const base: Bytes    // what the destination held before
    ghost var produced: Bytes  // every byte accepted so far

    ghost predicate Valid()
      reads this, sink
    {
      |pending| < STREAM_CHUNK && Balanced()
    }

    // What left for the destination and what is pending are the accepted bytes.
    ghost predicate Balanced()
      reads this, sink
    {
      && base <= sink.written
      && sink.written + pending == base + produced
      && total == |produced|
      && WithinLimit(total)
      && sink.Takes(|sink.written|)
      && |pending| <= STREAM_CHUNK
    }

    // After a failure: an initial part of the accepted bytes is in the destination.
    ghost predicate Stopped()
      reads this, sink
    {
      && base <= sink.written <= base + produced
      && WithinLimit(|produced|)
      && |pending| <= STREAM_CHUNK
    }

    ghost predicate WithinLimit(n: nat) {
      n <= 18_446_744_073_709_551_615 && (limit.Some? ==> n <= limit.value)
    }

    // `n` bytes in all pass both the limit and the destination.
    ghost predicate Fits(n: nat) {
      WithinLimit(n) && sink.Takes(|base| + n)
    }

    constructor (sink: Sink, limit: Option<nat>)
      requires sink.Takes(|sink.written|)
      ensures Valid() && produced == [] && base == sink.written
      ensures this.sink == sink && this.limit == limit
    {
      this.sink := sink;
      this.limit := limit;
      pending, total := [], 0;
      base := sink.written;
      produced := [];
    }

    method FlushPending() returns (ok: bool)
      requires Balanced()
      modifies this`pending, sink
      ensures ok ==> Valid() && pending == [] && sink.written == base + produced
      ensures !ok ==> !Fits(total) && Stopped()
    {
      if pending != [] {
        ok := sink.WriteAll(pending);
        if !ok {
          return false;
        }
        pending := [];
      }
      return true;
    }

    method PushDecoded(byte: Byte) returns (ok: bool)
      requires Valid()
      modifies this, sink
      ensures ok ==> Valid() && produced == old(produced) + [byte]
      ensures !ok ==> Stopped() && produced <= old(produced) + [byte] && !Fits(|old(produced)| + 1)
    {
      if total == U64_MAX {
        return false;
      }
      total := total + 1;
      if limit.Some? && total > limit.value {
        return false;
      }
      assert sink.written + (pending + [byte]) == base + (produced + [byte]) by {
        assert sink.written + (pending + [byte]) == (sink.written + pending) + [byte];
        assert base + (produced + [byte]) == (base + produced) + [byte];
      }
      pending := pending + [byte];
      produced := produced + [byte];
      if |pending| == STREAM_CHUNK {
        ok := FlushPending();
        return ok;
      }
      return true;
    }
  }

  // ---- the two decoders as objects ----

  class Base64State {
    var acc: bv32
    var bits: nat

    function Now(): Register
      reads this
    {
      Register(acc, bits)
    }

    constructor ()
      ensures Now() == EMPTY
    {
      acc, bits := 0, 0;
    }

    method Push(byte: Byte) returns (decoded: Option<Byte>)
      requires bits < 8
      modifies this
      ensures bits < 8
      ensures (Now(), if decoded.Some? then [decoded.value] else []) == PushBase64(old(Now()), byte)
    {
      var sextet := SextetOf(byte);
      if sextet.None? {
        return None;
      }
      hide Shift, Top;
      acc := Shift(acc, sextet.value);
      bits := bits + 6;
      if bits >= 8 {
        bits := bits - 8;
        return Some(Top(acc, bits));
      }
      return None;
    }
  }

  lemma GiveBack(a: Bytes, b: Bytes, c: Bytes)
    ensures (a + b) + c == a + (b + c)
  {
  }

  class QuotedPrintableState {
    var state: Escape

    constructor ()
      ensures state == Normal
    {
      state := Normal;
    }

    // Bytes go straight to the output; a failure stops in the middle.
    method Push(byte: Byte, output: Output) returns (ok: bool)
      requires output.Valid()
      modifies this, output, output.sink
      ensures ok ==> output.Valid()
                     && state == PushQuoted(old(state), byte).0
                     && output.produced == old(output.produced) + PushQuoted(old(state), byte).1
      ensures !ok ==> && output.Stopped()
                      && output.produced <= old(output.produced) + PushQuoted(old(state), byte).1
                      && !output.Fits(|old(output.produced) + PushQuoted(old(state), byte).1|)
      decreases state != Normal
    {
      hide Output.Balanced, Output.Stopped;
      var previous := state;
      state := Normal;
      assert output.produced + [] == output.produced;
      match previous {
        case Normal =>
          if byte == EQUALS {
            state := Equals;
            return true;
          }
          ok := output.PushDecoded(byte);
        case Equals =>
          if byte == LF {
            return true;
          }
          if byte == CR {
            state := EqualsCr;
            return true;
          }
          var digit := HexValue(byte);
          if digit.Some? {
            state := EqualsHex(digit.value, byte);
            return true;
          }
          ok := output.PushDecoded(byte);
        case EqualsCr =>
          if byte == LF {
            return true;
          }
          ok := output.PushDecoded(CR);
          if ok {
            GiveBack(old(output.produced), [CR], PushQuoted(Normal, byte).1);
            ok := Push(byte, output);
          }
        case EqualsHex(value, raw) =>
          var low := HexValue(byte);
          if low.Some? {
            ok := output.PushDecoded((value << 4) | low.value);
            return ok;
          }
          ok := output.PushDecoded(raw);
          if ok {
            GiveBack(old(output.produced), [raw], PushQuoted(Normal, byte).1);
            ok := Push(byte, output);
          }
      }
    }

    method Finish(output: Output) returns (ok: bool)
      requires output.Valid()
      modifies this, output, output.sink
      ensures state == Normal
      ensures ok ==> output.Valid() && output.produced == old(output.produced) + FinishQuoted(old(state))
      ensures !ok ==> && output.Stopped()
                      && output.produced <= old(output.produced) + FinishQuoted(old(state))
                      && !output.Fits(|old(output.produced) + FinishQuoted(old(state))|)
    {
      var previous := state;
      state := Normal;
      ok := true;
      match previous {
        case EqualsCr => ok := output.PushDecoded(CR);
        case EqualsHex(_, raw) => ok := output.PushDecoded(raw);
        case _ =>
      }
    }
  }

  // ---- the whole ----

  // From what the destination held before and holds after: success is the whole
  // decoding written out; failure is an initial part of it, never past the limit.
  ghost predicate Delivered(out: Bytes, limit: Option<nat>, before: Bytes, after: Bytes, r: Option<nat>) {
    match r
    case Some(n) => n == |out| && after == before + out
    case None => before <= after <= before + out && Passes(limit, |after| - |before|)
  }

  ghost predicate Passes(limit: Option<nat>, n: int) {
    n <= 18_446_744_073_709_551_615 && (limit.Some? ==> n <= limit.value)
  }

  // One byte to the decoder of this encoding.
  method FeedByte(encoding: Encoding, byte: Byte, base64: Base64State, quoted: QuotedPrintableState, output: Output)
    returns (ok: bool)
    requires encoding != Identity && output.Valid() && base64.bits < 8
    modifies base64, quoted, output, output.sink
    ensures base64.bits < 8
    ensures var (m, more) := Advance(encoding, Machine(old(base64.Now()), old(quoted.state)), byte);
            var all := old(output.produced) + more;
            if ok then output.Valid() && Machine(base64.Now(), quoted.state) == m && output.produced == all
            else output.Stopped() && output.produced <= all && !output.Fits(|all|)
  {
    hide Output.Balanced, Output.Stopped, PushQuoted, PushBase64;
    match encoding {
      case Base64 =>
        var decoded := base64.Push(byte);
        if decoded.Some? {
          ok := output.PushDecoded(decoded.value);
        } else {
          assert output.produced + [] == output.produced;
          ok := true;
        }
      case QuotedPrintable =>
        ok := quoted.Push(byte, output);
    }
  }

  // One more byte of `text`, seen through Consumed.
  lemma ConsumedByOne(encoding: Encoding, text: Bytes, k: nat)
    requires k < |text|
    ensures Consumed(encoding, text[..k + 1]) ==
            var (m, out) := Consumed(encoding, text[..k]);
            var (next, more) := Advance(encoding, m, text[k]);
            (next, out + more)
    ensures Consumed(encoding, text[..k + 1]).1 <= Decoding(encoding, text)
  {
    hide Advance;
    assert text[..k + 1][..k] == text[..k];
    ConsumedDecodes(encoding, text);
    ConsumedGrows(encoding, text, k + 1);
  }

  // The byte loop of decode_bounded over one read, `from` bytes of the input being done.
  method FeedChunk(encoding: Encoding, chunk: Bytes, base64: Base64State, quoted: QuotedPrintableState, output: Output,
                   ghost input: Bytes, ghost from: nat)
    returns (ok: bool)
    requires encoding != Identity && output.Valid() && base64.bits < 8
    requires from + |chunk| <= |input| && chunk == input[from..from + |chunk|]
    requires (Machine(base64.Now(), quoted.state), output.produced) == Consumed(encoding, input[..from])
    modifies base64, quoted, output, output.sink
    ensures ok ==> && output.Valid() && base64.bits < 8
                   && (Machine(base64.Now(), quoted.state), output.produced)
                      == Consumed(encoding, input[..from + |chunk|])
    ensures !ok ==> && output.Stopped()
                    && output.produced <= Decoding(encoding, input)
                    && !output.Fits(|Decoding(encoding, input)|)
  {
    hide Output.Balanced, Output.Stopped, Advance, Consumed, Decoding;
    for i := 0 to |chunk|
      invariant output.Valid() && base64.bits < 8
      invariant (Machine(base64.Now(), quoted.state), output.produced) == Consumed(encoding, input[..from + i])
    {
      ConsumedByOne(encoding, input, from + i);
      ok := FeedByte(encoding, chunk[i], base64, quoted, output);
      if !ok {
        return false;
      }
    }
    return true;
  }

  // The read loop of decode_bounded.
  method Feed(source: Source, encoding: Encoding, base64: Base64State, quoted: QuotedPrintableState, output: Output)
    returns (ok: bool)
    requires source.Valid() && encoding != Identity && output.Valid() && base64.bits < 8
    requires Machine(base64.Now(), quoted.state) == START && output.produced == []
    modifies source, base64, quoted, output, output.sink
    ensures var input := Flatten(old(source.chunks));
            if ok then
              && output.Valid() && !source.breaks
              && (Machine(base64.Now(), quoted.state), output.produced) == Consumed(encoding, input)
            else
              && output.Stopped()
              && output.produced <= Decoding(encoding, input)
              && (source.breaks || !output.Fits(|Decoding(encoding, input)|))
  {
    hide Output.Balanced, Output.Stopped, Advance, Decoding;
    ghost var input := Flatten(source.chunks);
    ghost var done: nat := 0;
    while true
      invariant source.Valid() && done <= |input| && input[done..] == Flatten(source.chunks)
      invariant output.Valid() && base64.bits < 8
      invariant (Machine(base64.Now(), quoted.state), output.produced) == Consumed(encoding, input[..done])
      decreases |source.chunks|
    {
      ghost var rest := Flatten(source.chunks);
      var chunk := source.Read();
      if chunk.None? {
        PartIsPrefix(encoding, input, done);
        StoppedWhenValid(output);
        return false;
      }
      if chunk.value == [] {
        assert input[..done] == input;
        return true;
      }
      assert rest == chunk.value + Flatten(source.chunks);
      SliceOfRest(input, done, chunk.value, Flatten(source.chunks));
      ok := FeedChunk(encoding, chunk.value, base64, quoted, output, input, done);
      if !ok {
        return false;
      }
      done := done + |chunk.value|;
    }
  }

  lemma SliceOfRest(input: Bytes, done: nat, chunk: Bytes, rest: Bytes)
    requires done <= |input| && input[done..] == chunk + rest
    ensures done + |chunk| <= |input|
    ensures chunk == input[done..done + |chunk|] && input[done + |chunk|..] == rest
  {
    assert |input[done..]| == |chunk| + |rest|;
    assert input[done..done + |chunk|] == input[done..][..|chunk|];
    assert input[done + |chunk|..] == input[done..][|chunk|..];
  }

  lemma StoppedWhenValid(output: Output)
    requires output.Valid()
    ensures output.Stopped()
  {
  }

  method DecodeBounded(source: Source, sink: Sink, encoding: Encoding, limit: Option<nat>) returns (r: Option<nat>)
    requires source.Valid() && sink.Takes(|sink.written|)
    modifies source, sink
    ensures Delivered(Decoding(encoding, Flatten(old(source.chunks))), limit, old(sink.written), sink.written, r)
    ensures r.Some? <==>
              var n := |Decoding(encoding, Flatten(old(source.chunks)))|;
              !source.breaks && Passes(limit, n) && sink.Takes(|old(sink.written)| + n) && sink.flushes
  {
    if encoding == Identity {
      r := CopyBounded(source, sink, limit);
      return;
    }
    hide Decoding, Output.Balanced;
    var output := new Output(sink, limit);
    var ok := DecodeThrough(source, encoding, output);
    if ok {
      ok := sink.Flush();
    }
    return if ok then Some(output.total) else None;
  }

  // decode_bounded between setting up its output side and its last flush.
  method DecodeThrough(source: Source, encoding: Encoding, output: Output) returns (ok: bool)
    requires source.Valid() && encoding != Identity && output.Valid() && output.produced == []
    modifies source, output, output.sink
    ensures var out := Decoding(encoding, Flatten(old(source.chunks)));
            if ok then
              && output.Valid() && !source.breaks
              && output.produced == out && output.sink.written == output.base + out
            else
              && output.Stopped() && output.produced <= out
              && (source.breaks || !output.Fits(|out|))
  {
    hide Output.Balanced, Output.Stopped, Advance, Consumed, Decoding, FinishQuoted;
    var base64 := new Base64State();
    var quoted := new QuotedPrintableState();
    ConsumedDecodes(encoding, Flatten(source.chunks));
    ok := Feed(source, encoding, base64, quoted, output);
    if ok {
      ok := quoted.Finish(output);
      if ok {
        BalancedWhenValid(output);
        ok := output.FlushPending();
      }
    }
  }

  lemma BalancedWhenValid(output: Output)
    requires output.Valid()
    ensures output.Balanced() && output.total == |output.produced|
  {
  }

  lemma FrontGrows(base: Bytes, input: Bytes, done: nat, chunk: Bytes, was: Bytes)
    requires done + |chunk| <= |input| && chunk == input[done..done + |chunk|] && was == base + input[..done]
    ensures was + chunk == base + input[..done + |chunk|]
  {
    assert input[..done + |chunk|] == input[..done] + chunk;
  }

  // Whole reads are copied; a read that would pass the limit is not written at all.
  method CopyBounded(source: Source, sink: Sink, limit: Option<nat>) returns (r: Option<nat>)
    requires source.Valid() && sink.Takes(|sink.written|)
    modifies source, sink
    ensures Delivered(Flatten(old(source.chunks)), limit, old(sink.written), sink.written, r)
    ensures r.Some? <==>
              var n := |Flatten(old(source.chunks))|;
              !source.breaks && Passes(limit, n) && sink.Takes(|old(sink.written)| + n) && sink.flushes
  {
    ghost var input, base := Flatten(source.chunks), sink.written;
    var total: nat := 0;
    while true
      invariant source.Valid() && total <= |input| && input[total..] == Flatten(source.chunks)
      invariant sink.written == base + input[..total] && sink.Takes(|sink.written|)
      invariant Passes(limit, total)
      decreases |source.chunks|
    {
      ghost var rest, was, from := Flatten(source.chunks), sink.written, total;
      var chunk := source.Read();
      if chunk.None? {
        return None;
      }
      if chunk.value == [] {
        break;
      }
      assert rest == chunk.value + Flatten(source.chunks);
      SliceOfRest(input, total, chunk.value, Flatten(source.chunks));
      if total + |chunk.value| > U64_MAX {
        return None;
      }
      total := total + |chunk.value|;
      if limit.Some? && total > limit.value {
        return None;
      }
      var ok := sink.WriteAll(chunk.value);
      FrontGrows(base, input, from, chunk.value, was);
      if !ok {
        return None;
      }
    }
    assert input[..total] == input;
    var flushed := sink.Flush();
    return if flushed then Some(total) else None;
  }
}
