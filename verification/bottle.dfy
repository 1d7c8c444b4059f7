/**
 * The bottle multiplexer (src/bottle.ts). A bottle is a cap (type and
 * header), then any number of sub-streams, each introduced by a marker byte:
 * 0x40 for a raw stream, written framed, and 0x80 for a nested bottle,
 * written whole. A single 0xc0 closes the bottle. Reading is driven by the
 * markers, and every sub-stream is read to its end before the next marker.
 *
 * The cap's own encoding (src/bottle_cap.ts) is not part of this model: a
 * `CapCodec` stands for it, an encoder and a decoder given as parameters.
 */
module Bottles {
  import opened Common
  import opened Framing
  import Header

  const STREAM_RAW: byte := 0x40
  const STREAM_BOTTLE: byte := 0x80
  const STREAM_END: byte := 0xc0

  /** The kind of a bottle, as its cap records it; only signed bottles matter to this model. */
  datatype BottleType = SIGNED | OtherType(code: nat)

  datatype Cap = Cap(btype: BottleType, header: seq<Header.Field>)

  /**
   * The cap's encoder and decoder. The decoder reads a cap from the front of
   * the bytes it is given and says how many it consumed.
   */
  datatype CapCodec = CapCodec(write: Cap -> seq<byte>, read: seq<byte> -> Result<(Cap, nat)>)

  /** A decoder never claims more bytes than it was given. */
  ghost predicate ReadsWithin(codec: CapCodec) {
    forall s {:trigger codec.read(s)} :: codec.read(s).Ok? ==> codec.read(s).value.1 <= |s|
  }

  /** The decoder reads back exactly what the encoder wrote, whatever follows. */
  ghost predicate RoundTrips(codec: CapCodec) {
    forall cap, rest {:trigger codec.read(codec.write(cap) + rest)} :: codec.read(codec.write(cap) + rest).Ok?
      && codec.read(codec.write(cap) + rest).value.0 == cap
      && codec.read(codec.write(cap) + rest).value.1 == |codec.write(cap)|
  }

  /** A bottle as a value: its cap, then its sub-streams in order. */
  datatype BottleValue = BottleValue(cap: Cap, streams: seq<SubStream>)

  /** A sub-stream: a raw stream of chunks, or a nested bottle. */
  datatype SubStream = Raw(chunks: seq<seq<byte>>) | Nested(bottle: BottleValue)

  /** Every raw chunk, at every depth, has a length the framing can write. */
  ghost predicate WellFormed(b: BottleValue)
    decreases b
  {
    forall i :: 0 <= i < |b.streams| ==> StreamWellFormed(b.streams[i])
  }

  ghost predicate StreamWellFormed(s: SubStream)
    decreases s
  {
    match s
    case Raw(chunks) => AllEncodable(chunks)
    case Nested(b) => WellFormed(b)
  }

  ghost predicate AllWellFormed(ss: seq<SubStream>) {
    forall i :: 0 <= i < |ss| ==> StreamWellFormed(ss[i])
  }

  // ---------------------------------------------------------------------
  // write

  /** `write`: the cap, each sub-stream after its marker, then the end marker. */
  function WriteBottle(codec: CapCodec, b: BottleValue): seq<byte>
    requires WellFormed(b)
    decreases b, 2
  {
    codec.write(b.cap) + WriteStreams(codec, b.streams) + [STREAM_END]
  }

  function WriteStreams(codec: CapCodec, ss: seq<SubStream>): seq<byte>
    requires AllWellFormed(ss)
    decreases ss, 1
  {
    if ss == [] then [] else WriteStream(codec, ss[0]) + WriteStreams(codec, ss[1..])
  }

  /** One sub-stream: 0x40 and its frames, or 0x80 and the nested bottle. */
  function WriteStream(codec: CapCodec, s: SubStream): seq<byte>
    requires StreamWellFormed(s)
    decreases s, 0
  {
    match s
    case Raw(chunks) => [STREAM_RAW] + Framing.Framing(chunks)
    case Nested(b) => [STREAM_BOTTLE] + WriteBottle(codec, b)
  }

  // ---------------------------------------------------------------------
  // read

  /**
   * `read` on the bytes `s` from the reader's position on, where `base`
   * bytes were read before them: the bottle and how many bytes it took.
   * Every sub-stream is read to its end before the next marker; the first
   * failure anywhere is the result.
   */
  function ReadBottle(codec: CapCodec, s: seq<byte>, base: nat): (r: Result<(BottleValue, nat)>)
    requires ReadsWithin(codec)
    ensures r.Ok? ==> r.value.1 <= |s|
    decreases |s|, 2
  {
    match codec.read(s)
    case Err(e) => Err(e)
    case Ok(cap) => WithCap(cap.0, ReadStreams(codec, s[cap.1..], base + cap.1), cap.1)
  }

  /** The marker loop: sub-streams up to and including the end marker. */
  function ReadStreams(codec: CapCodec, s: seq<byte>, base: nat): (r: Result<(seq<SubStream>, nat)>)
    requires ReadsWithin(codec)
    ensures r.Ok? ==> 0 < r.value.1 <= |s|
    decreases |s|, 1
  {
    match ReadSubStream(codec, s, base)
    case Err(e) => Err(e)
    case Ok(one) =>
      if one.0.None? then Ok(([], one.1))
      else Then([one.0.value], ReadStreams(codec, s[one.1..], base + one.1), one.1)
  }

  /**
   * One pass of the marker loop: a marker and the sub-stream it introduces,
   * read to its end, or `None` for the end marker; with the bytes consumed.
   */
  function ReadSubStream(codec: CapCodec, s: seq<byte>, base: nat): (r: Result<(Option<SubStream>, nat)>)
    requires ReadsWithin(codec)
    ensures r.Ok? ==> 0 < r.value.1 <= |s|
    decreases |s|, 0
  {
    if |s| == 0 then Err(TruncatedBottle)
    else if s[0] == STREAM_RAW then
      var u := Unframe(s[1..]);
      if u.failure.Some? then Err(u.failure.value)
      else Ok((Some(Raw(u.chunks)), 1 + u.used))
    else if s[0] == STREAM_BOTTLE then
      match ReadBottle(codec, s[1..], base + 1)
      case Err(e) => Err(e)
      case Ok(inner) => Ok((Some(Nested(inner.0)), 1 + inner.1))
    else if s[0] == STREAM_END then Ok((None, 1))
    else Err(StrayByte(s[0], base + 1))
  }

  // ---------------------------------------------------------------------
  // Round trip

  /** What reading gives back: the same tree, with the empty chunks that `framed` drops left out. */
  function Normalized(b: BottleValue): (r: BottleValue)
    ensures r.cap == b.cap && |r.streams| == |b.streams|
    decreases b, 2
  {
    BottleValue(b.cap, NormalizedStreams(b.streams))
  }

  function NormalizedStreams(ss: seq<SubStream>): (r: seq<SubStream>)
    ensures |r| == |ss|
    decreases ss, 1
  {
    if ss == [] then [] else [NormalizedStream(ss[0])] + NormalizedStreams(ss[1..])
  }

  function NormalizedStream(s: SubStream): (r: SubStream)
    ensures r.Raw? == s.Raw?
    decreases s, 0
  {
    match s
    case Raw(chunks) => Raw(NonEmpty(chunks))
    case Nested(b) => Nested(Normalized(b))
  }

  /** Normalizing sub-streams normalizes each one in its place. */
  lemma {:induction false} NormalizedStreamsAt(ss: seq<SubStream>, i: nat)
    requires i < |ss|
    ensures NormalizedStreams(ss)[i] == NormalizedStream(ss[i])
    decreases i
  {
    if i > 0 {
      NormalizedStreamsAt(ss[1..], i - 1);
    }
  }

  /** The sub-streams `done` were read from the first `skip` bytes; then whatever `r` gives. */
  function Then(done: seq<SubStream>, r: Result<(seq<SubStream>, nat)>, skip: nat): (t: Result<(seq<SubStream>, nat)>)
    ensures t.Ok? == r.Ok?
    ensures t.Err? ==> t.error == r.error
  {
    match r
    case Ok(v) => Ok((done + v.0, skip + v.1))
    case Err(e) => Err(e)
  }

  /** A cap read from the first `skip` bytes, then the sub-streams `r` gives. */
  function WithCap(cap: Cap, r: Result<(seq<SubStream>, nat)>, skip: nat): (t: Result<(BottleValue, nat)>)
    ensures t.Ok? == r.Ok?
    ensures t.Err? ==> t.error == r.error
  {
    match r
    case Ok(v) => Ok((BottleValue(cap, v.0), skip + v.1))
    case Err(e) => Err(e)
  }

  /**
   * Reading what `write` wrote gives the bottle back, consuming exactly the
   * written bytes and nothing that follows them.
   */
  lemma {:induction false} ReadWrite(codec: CapCodec, b: BottleValue, rest: seq<byte>, base: nat)
    requires ReadsWithin(codec) && RoundTrips(codec) && WellFormed(b)
    ensures ReadBottle(codec, WriteBottle(codec, b) + rest, base) == Ok((Normalized(b), |WriteBottle(codec, b)|))
    decreases b, 2
  {
    var w := codec.write(b.cap);
    var u := WriteStreams(codec, b.streams) + ([STREAM_END] + rest);
    WriteBottleSplit(codec, b, rest);
    CapRoundTrip(codec, b.cap, u);
    ReadBottleCap(codec, w, u, base, b.cap);
    ReadWriteStreams(codec, b.streams, rest, base + |w|);
  }

  /** The written cap, seen apart from the sub-streams after it. */
  lemma {:induction false} WriteBottleSplit(codec: CapCodec, b: BottleValue, rest: seq<byte>)
    requires WellFormed(b)
    ensures AllWellFormed(b.streams)
    ensures WriteBottle(codec, b) + rest == codec.write(b.cap) + (WriteStreams(codec, b.streams) + ([STREAM_END] + rest))
    ensures |WriteBottle(codec, b)| == |codec.write(b.cap)| + |WriteStreams(codec, b.streams)| + 1
  {
    var w := codec.write(b.cap);
    var ws := WriteStreams(codec, b.streams);
    AppendAssoc(w, ws, [STREAM_END]);
    AppendAssoc(w + ws, [STREAM_END], rest);
    AppendAssoc(w, ws, [STREAM_END] + rest);
  }

  /** The cap decoder reads back a written cap, whatever follows it. */
  lemma {:induction false} CapRoundTrip(codec: CapCodec, cap: Cap, rest: seq<byte>)
    requires RoundTrips(codec)
    ensures codec.read(codec.write(cap) + rest) == Ok((cap, |codec.write(cap)|))
  {
    var r := codec.read(codec.write(cap) + rest);
    assert r.Ok? && r.value.0 == cap && r.value.1 == |codec.write(cap)|;
  }

  /** `read` on a cap read from `w`: the marker loop then runs on `u`. */
  lemma {:induction false} ReadBottleCap(codec: CapCodec, w: seq<byte>, u: seq<byte>, base: nat, cap: Cap)
    requires ReadsWithin(codec)
    requires codec.read(w + u) == Ok((cap, |w|))
    ensures ReadBottle(codec, w + u, base) == WithCap(cap, ReadStreams(codec, u, base + |w|), |w|)
  {
    assert (w + u)[|w|..] == u;
  }

  /**
   * The marker loop reads back written sub-streams one by one and stops at
   * the end marker after them, consuming it and nothing more.
   */
  lemma {:induction false} ReadWriteStreams(codec: CapCodec, ss: seq<SubStream>, rest: seq<byte>, base: nat)
    requires ReadsWithin(codec) && RoundTrips(codec) && AllWellFormed(ss)
    ensures ReadStreams(codec, WriteStreams(codec, ss) + ([STREAM_END] + rest), base)
            == Ok((NormalizedStreams(ss), |WriteStreams(codec, ss)| + 1))
    decreases ss, 2
  {
    if ss == [] {
      assert WriteStreams(codec, ss) + ([STREAM_END] + rest) == [STREAM_END] + rest;
      ReadStreamsEnd(codec, [STREAM_END] + rest, base);
    } else {
      ReadWriteStreamsCons(codec, ss, rest, base);
    }
  }

  /** The first written sub-stream is read back, then the loop goes on with the others. */
  lemma {:induction false} ReadWriteStreamsCons(codec: CapCodec, ss: seq<SubStream>, rest: seq<byte>, base: nat)
    requires ReadsWithin(codec) && RoundTrips(codec) && AllWellFormed(ss) && ss != []
    ensures ReadStreams(codec, WriteStreams(codec, ss) + ([STREAM_END] + rest), base)
            == Ok((NormalizedStreams(ss), |WriteStreams(codec, ss)| + 1))
    decreases ss, 1
  {
    var first := HeadPass(codec, ss, [STREAM_END] + rest, base);
    var u := WriteStreams(codec, ss[1..]) + ([STREAM_END] + rest);
    ReadWriteStreams(codec, ss[1..], rest, base + |first|);
    ReadStreamsCons(codec, WriteStreams(codec, ss) + ([STREAM_END] + rest), first, u, base,
      NormalizedStream(ss[0]), NormalizedStreams(ss[1..]), NormalizedStreams(ss),
      |WriteStreams(codec, ss[1..])| + 1, |WriteStreams(codec, ss)| + 1);
  }

  /**
   * After written sub-streams, a failure of the marker loop is the failure
   * of the whole loop.
   */
  lemma {:induction false} ReadStreamsFail(codec: CapCodec, ss: seq<SubStream>, t: seq<byte>, base: nat, pos: nat, e: Error)
    requires ReadsWithin(codec) && RoundTrips(codec) && AllWellFormed(ss)
    requires pos == base + |WriteStreams(codec, ss)| && ReadStreams(codec, t, pos) == Err(e)
    ensures ReadStreams(codec, WriteStreams(codec, ss) + t, base) == Err(e)
    decreases ss, 1
  {
    if ss == [] {
      assert WriteStreams(codec, ss) + t == t;
    } else {
      var first := HeadPass(codec, ss, t, base);
      var u := WriteStreams(codec, ss[1..]) + t;
      assert ReadStreams(codec, u, base + |first|) == Err(e) by {
        ReadStreamsFail(codec, ss[1..], t, base + |first|, pos, e);
      }
      ReadStreamsFailCons(codec, first, u, base, NormalizedStream(ss[0]), e);
    }
  }

  /**
   * The bytes of the first written sub-stream, `first`, are read back by one
   * pass of the marker loop, whatever the other sub-streams and `t` after them.
   */
  lemma {:induction false} HeadPass(codec: CapCodec, ss: seq<SubStream>, t: seq<byte>, base: nat) returns (first: seq<byte>)
    requires ReadsWithin(codec) && RoundTrips(codec) && AllWellFormed(ss) && ss != []
    ensures AllWellFormed(ss[1..])
    ensures WriteStreams(codec, ss) + t == first + (WriteStreams(codec, ss[1..]) + t)
    ensures |WriteStreams(codec, ss)| == |first| + |WriteStreams(codec, ss[1..])|
    ensures NormalizedStreams(ss) == [NormalizedStream(ss[0])] + NormalizedStreams(ss[1..])
    ensures ReadSubStream(codec, first + (WriteStreams(codec, ss[1..]) + t), base) == Ok((Some(NormalizedStream(ss[0])), |first|))
    decreases ss, 0
  {
    first := WriteStream(codec, ss[0]);
    WriteStreamsSplit(codec, ss, t);
    ReadWriteStream(codec, ss[0], WriteStreams(codec, ss[1..]) + t, base);
  }

  /** A pass of the marker loop that reads a sub-stream from `first`, then a failing pass: the loop fails the same way. */
  lemma {:induction false} ReadStreamsFailCons(codec: CapCodec, first: seq<byte>, t: seq<byte>, base: nat, x: SubStream, e: Error)
    requires ReadsWithin(codec)
    requires ReadSubStream(codec, first + t, base) == Ok((Some(x), |first|))
    requires ReadStreams(codec, t, base + |first|) == Err(e)
    ensures ReadStreams(codec, first + t, base) == Err(e)
  {
    assert (first + t)[|first|..] == t;
  }

  /** The first written sub-stream, seen apart from the rest. */
  lemma {:induction false} WriteStreamsSplit(codec: CapCodec, ss: seq<SubStream>, t: seq<byte>)
    requires AllWellFormed(ss) && ss != []
    ensures StreamWellFormed(ss[0]) && AllWellFormed(ss[1..])
    ensures WriteStreams(codec, ss) + t == WriteStream(codec, ss[0]) + (WriteStreams(codec, ss[1..]) + t)
    ensures |WriteStreams(codec, ss)| == |WriteStream(codec, ss[0])| + |WriteStreams(codec, ss[1..])|
    ensures NormalizedStreams(ss) == [NormalizedStream(ss[0])] + NormalizedStreams(ss[1..])
  {
    AppendAssoc(WriteStream(codec, ss[0]), WriteStreams(codec, ss[1..]), t);
  }

  /** One written sub-stream, whatever follows it, is read back by one pass of the marker loop. */
  lemma {:induction false} ReadWriteStream(codec: CapCodec, x: SubStream, t: seq<byte>, base: nat)
    requires ReadsWithin(codec) && RoundTrips(codec) && StreamWellFormed(x)
    ensures ReadSubStream(codec, WriteStream(codec, x) + t, base)
            == Ok((Some(NormalizedStream(x)), |WriteStream(codec, x)|))
    decreases x, 0
  {
    match x
    case Raw(chunks) =>
      MarkerSplit(STREAM_RAW, Framing.Framing(chunks), t);
      UnframeFraming(chunks, t);
    case Nested(b) =>
      MarkerSplit(STREAM_BOTTLE, WriteBottle(codec, b), t);
      ReadWrite(codec, b, t, base + 1);
  }

  /** A pass of the marker loop that reads a sub-stream from `first`, then the passes after it. */
  lemma {:induction false} ReadStreamsCons(codec: CapCodec, s: seq<byte>, first: seq<byte>, t: seq<byte>, base: nat,
                                           x: SubStream, tail: seq<SubStream>, all: seq<SubStream>, n: nat, total: nat)
    requires ReadsWithin(codec) && s == first + t && all == [x] + tail && total == |first| + n
    requires ReadSubStream(codec, first + t, base) == Ok((Some(x), |first|))
    requires ReadStreams(codec, t, base + |first|) == Ok((tail, n))
    ensures ReadStreams(codec, s, base) == Ok((all, total))
  {
    assert (first + t)[|first|..] == t;
  }

  /** The end marker ends the loop, and only it is consumed. */
  lemma {:induction false} ReadStreamsEnd(codec: CapCodec, s: seq<byte>, base: nat)
    requires ReadsWithin(codec) && |s| > 0 && s[0] == STREAM_END
    ensures ReadStreams(codec, s, base) == Ok(([], 1))
  {
  }

  // ---------------------------------------------------------------------
  // Errors

  /** A bottle that stops after a sub-stream, before its end marker, is a truncated bottle. */
  lemma {:induction false} ReadTruncated(codec: CapCodec, cap: Cap, ss: seq<SubStream>, base: nat)
    requires ReadsWithin(codec) && RoundTrips(codec) && AllWellFormed(ss)
    ensures ReadBottle(codec, codec.write(cap) + WriteStreams(codec, ss), base) == Err(TruncatedBottle)
  {
    var w := codec.write(cap);
    var u := WriteStreams(codec, ss);
    assert u + [] == u;
    CapRoundTrip(codec, cap, u);
    ReadBottleCap(codec, w, u, base, cap);
    ReadStreamsFail(codec, ss, [], base + |w|, base + |w| + |u|, TruncatedBottle);
  }

  /**
   * A byte that is none of the three markers, where a marker is due, is a
   * stray byte; the position reported is the one just after it.
   */
  lemma {:induction false} ReadStray(codec: CapCodec, cap: Cap, ss: seq<SubStream>, m: byte, rest: seq<byte>, base: nat)
    requires ReadsWithin(codec) && RoundTrips(codec) && AllWellFormed(ss)
    requires m != STREAM_RAW && m != STREAM_BOTTLE && m != STREAM_END
    ensures ReadBottle(codec, codec.write(cap) + (WriteStreams(codec, ss) + ([m] + rest)), base)
            == Err(StrayByte(m, base + |codec.write(cap)| + |WriteStreams(codec, ss)| + 1))
  {
    var w := codec.write(cap);
    var u := WriteStreams(codec, ss) + ([m] + rest);
    CapRoundTrip(codec, cap, u);
    ReadBottleCap(codec, w, u, base, cap);
    ReadStreamsFail(codec, ss, [m] + rest, base + |w|, base + |w| + |WriteStreams(codec, ss)|, StrayByte(m, base + |w| + |WriteStreams(codec, ss)| + 1));
  }

  /** A raw sub-stream cut short anywhere inside its frames fails as a truncated stream. */
  lemma {:induction false} ReadCutRaw(codec: CapCodec, chunks: seq<seq<byte>>, k: nat, base: nat)
    requires ReadsWithin(codec) && AllEncodable(chunks) && k < |Framing.Framing(chunks)|
    ensures ReadSubStream(codec, [STREAM_RAW] + Framing.Framing(chunks)[..k], base) == Err(TruncatedStream)
  {
    var s := [STREAM_RAW] + Framing.Framing(chunks)[..k];
    assert s[1..] == Framing.Framing(chunks)[..k];
    UnframeCut(chunks, k);
  }

  /** A marker byte, then `x`, then `t`. */
  lemma {:induction false} MarkerSplit(m: byte, x: seq<byte>, t: seq<byte>)
    ensures var s := [m] + x + t;
      |s| > 0 && s[0] == m && s[1..] == x + t && s[1 + |x|..] == t && |s| - |t| == 1 + |x|
  {
    var s := [m] + x + t;
    assert s[1..] == x + t;
    assert s[1 + |x|..] == t;
  }

  // ---------------------------------------------------------------------
  // The reader, step by step

  /**
   * What a reading method produced agrees with the reading function: the
   * same value, with the reader moved on by the bytes the function
   * consumed, or the same error.
   */
  ghost predicate Agrees<T>(expected: Result<(T, nat)>, res: Result<T>, consumed: nat) {
    match expected
    case Ok(v) => res == Ok(v.0) && consumed == v.1
    case Err(e) => res == Err(e)
  }

  /**
   * `read`'s marker loop run for one pass: the marker, then the raw stream
   * or the nested bottle it introduces, each read to its end. `None` is the
   * end marker.
   */
  method ReadSubStreamFrom(codec: CapCodec, r: Reader) returns (res: Result<Option<SubStream>>)
    requires ReadsWithin(codec) && r.Valid()
    modifies r`pos
    ensures r.Valid() && old(r.pos) <= r.pos
    ensures Agrees(ReadSubStream(codec, r.data[old(r.pos)..], old(r.pos)), res, r.pos - old(r.pos))
    decreases |r.data| - r.pos, 0
  {
    ghost var start := r.pos;
    var marker := r.Read(1);
    if |marker| < 1 {
      return Err(TruncatedBottle);
    }
    assert r.data[start..][1..] == r.data[start + 1..];
    if marker[0] == STREAM_RAW {
      var chunks, failure := Unframed(r);
      if failure.Some? {
        return Err(failure.value);
      }
      return Ok(Some(Raw(chunks)));
    } else if marker[0] == STREAM_BOTTLE {
      var inner := ReadValue(codec, r);
      if inner.Err? {
        return Err(inner.error);
      }
      return Ok(Some(Nested(inner.value)));
    } else if marker[0] == STREAM_END {
      return Ok(None);
    } else {
      return Err(StrayByte(marker[0], r.pos));
    }
  }

  /**
   * `read`: the cap, then sub-streams until the end marker. The source
   * hands the sub-streams out lazily; here they are read in full, in the
   * same order and with the same failures.
   */
  method ReadValue(codec: CapCodec, r: Reader) returns (res: Result<BottleValue>)
    requires ReadsWithin(codec) && r.Valid()
    modifies r`pos
    ensures r.Valid() && old(r.pos) <= r.pos
    ensures Agrees(ReadBottle(codec, r.data[old(r.pos)..], old(r.pos)), res, r.pos - old(r.pos))
    decreases |r.data| - r.pos, 2
  {
    ghost var start := r.pos;
    var cap := codec.read(r.data[r.pos..]);
    if cap.Err? {
      return Err(cap.error);
    }
    var skipped := r.Read(cap.value.1);
    BottleFromStreams(codec, r.data, start, cap.value.0, cap.value.1);
    ghost var body := r.pos;
    var streams := ReadStreamsFrom(codec, r);
    if streams.Err? {
      AgreesErr(ReadStreams(codec, r.data[body..], body), streams, r.pos - body);
      return Err(streams.error);
    }
    AgreesOk(ReadStreams(codec, r.data[body..], body), streams, r.pos - body);
    return Ok(BottleValue(cap.value.0, streams.value));
  }

  /** `read`'s marker loop: sub-streams, each read to its end, until the end marker. */
  method ReadStreamsFrom(codec: CapCodec, r: Reader) returns (res: Result<seq<SubStream>>)
    requires ReadsWithin(codec) && r.Valid()
    modifies r`pos
    ensures r.Valid() && old(r.pos) <= r.pos
    ensures Agrees(ReadStreams(codec, r.data[old(r.pos)..], old(r.pos)), res, r.pos - old(r.pos))
    decreases |r.data| - r.pos, 1
  {
    ghost var start := r.pos;
    var streams: seq<SubStream> := [];
    ThenNothing(ReadStreams(codec, r.data[start..], start));
    while true
      invariant r.Valid() && start <= r.pos
      invariant ReadStreams(codec, r.data[start..], start)
                == Then(streams, ReadStreams(codec, r.data[r.pos..], r.pos), r.pos - start)
      decreases |r.data| - r.pos
    {
      ghost var here := r.pos;
      var one := ReadSubStreamFrom(codec, r);
      ghost var next := r.pos;
      if one.Err? {
        AgreesErr(ReadSubStream(codec, r.data[here..], here), one, next - here);
        LoopFail(codec, r.data, start, here, streams, one.error);
        return Err(one.error);
      }
      AgreesOk(ReadSubStream(codec, r.data[here..], here), one, next - here);
      if one.value.None? {
        LoopEnd(codec, r.data, start, here, next, streams);
        return Ok(streams);
      }
      LoopStep(codec, r.data, start, here, next, streams, one.value.value);
      streams := streams + [one.value.value];
    }
  }

  lemma {:induction false} AgreesOk<T>(expected: Result<(T, nat)>, res: Result<T>, consumed: nat)
    requires Agrees(expected, res, consumed) && res.Ok?
    ensures expected == Ok((res.value, consumed))
  {
  }

  lemma {:induction false} AgreesErr<T>(expected: Result<(T, nat)>, res: Result<T>, consumed: nat)
    requires Agrees(expected, res, consumed) && res.Err?
    ensures expected == Err(res.error)
  {
  }

  /** `read` starts with the cap; the marker loop runs on the bytes after it. */
  lemma {:induction false} BottleFromStreams(codec: CapCodec, data: seq<byte>, start: nat, cap: Cap, k: nat)
    requires ReadsWithin(codec) && start <= |data|
    requires codec.read(data[start..]) == Ok((cap, k))
    ensures start + k <= |data|
    ensures ReadBottle(codec, data[start..], start) == WithCap(cap, ReadStreams(codec, data[start + k..], start + k), k)
  {
    assert data[start..][k..] == data[start + k..];
  }

  /** One more sub-stream read by the loop, which goes on at `next`. */
  lemma {:induction false} LoopStep(codec: CapCodec, data: seq<byte>, body: nat, here: nat, next: nat, done: seq<SubStream>, x: SubStream)
    requires ReadsWithin(codec) && body <= here <= next <= |data|
    requires ReadSubStream(codec, data[here..], here) == Ok((Some(x), next - here))
    requires ReadStreams(codec, data[body..], body) == Then(done, ReadStreams(codec, data[here..], here), here - body)
    ensures ReadStreams(codec, data[body..], body) == Then(done + [x], ReadStreams(codec, data[next..], next), next - body)
  {
    assert ReadStreams(codec, data[here..], here) == Then([x], ReadStreams(codec, data[next..], next), next - here) by {
      SliceOfSlice(data, here, next);
      OnePass(codec, data[here..], data[next..], here, next, x, next - here);
    }
    ThenThen(done, [x], ReadStreams(codec, data[next..], next), next - here, here - body, next - body);
  }

  /** A pass of the marker loop that read `x` from the first `k` bytes of `s`: the loop goes on with `t`, the rest. */
  lemma {:induction false} OnePass(codec: CapCodec, s: seq<byte>, t: seq<byte>, base: nat, next: nat, x: SubStream, k: nat)
    requires ReadsWithin(codec) && k <= |s| && s[k..] == t && next == base + k
    requires ReadSubStream(codec, s, base) == Ok((Some(x), k))
    ensures ReadStreams(codec, s, base) == Then([x], ReadStreams(codec, t, next), k)
  {
  }

  lemma {:induction false} SliceOfSlice(data: seq<byte>, a: nat, b: nat)
    requires a <= b <= |data|
    ensures data[a..][b - a..] == data[b..]
  {
  }

  /** The loop stopped by the end marker, just before `next`. */
  lemma {:induction false} LoopEnd(codec: CapCodec, data: seq<byte>, body: nat, here: nat, next: nat, done: seq<SubStream>)
    requires ReadsWithin(codec) && body <= here <= next <= |data|
    requires ReadSubStream(codec, data[here..], here) == Ok((None, (next - here) as nat))
    requires ReadStreams(codec, data[body..], body) == Then(done, ReadStreams(codec, data[here..], here), here - body)
    ensures ReadStreams(codec, data[body..], body) == Ok((done, next - body))
  {
    assert done + [] == done;
  }

  /** The loop stopped by a failing pass. */
  lemma {:induction false} LoopFail(codec: CapCodec, data: seq<byte>, body: nat, here: nat, done: seq<SubStream>, e: Error)
    requires ReadsWithin(codec) && body <= here <= |data|
    requires ReadSubStream(codec, data[here..], here) == Err(e)
    requires ReadStreams(codec, data[body..], body) == Then(done, ReadStreams(codec, data[here..], here), here - body)
    ensures ReadStreams(codec, data[body..], body) == Err(e)
  {
  }

  lemma {:induction false} ThenNothing(r: Result<(seq<SubStream>, nat)>)
    ensures Then([], r, 0) == r
  {
    if r.Ok? {
      assert [] + r.value.0 == r.value.0;
    }
  }

  /** Reading `first` and then `second` is reading both together. */
  lemma {:induction false} ThenThen(first: seq<SubStream>, second: seq<SubStream>, r: Result<(seq<SubStream>, nat)>, m: nat, n: nat, total: nat)
    requires total == n + m
    ensures Then(first, Then(second, r, m), n) == Then(first + second, r, total)
  {
    if r.Ok? {
      AppendAssoc(first, second, r.value.0);
    }
  }

  // ---------------------------------------------------------------------
  // The writer, step by step

  /**
   * `write`: the cap, then for each sub-stream its marker followed by its
   * frames or by the nested bottle's own `write`, then the end marker. The
   * buffers yielded are modelled by their concatenation.
   */
  method WriteValue(codec: CapCodec, b: BottleValue) returns (out: seq<byte>)
    requires WellFormed(b)
    ensures out == WriteBottle(codec, b)
    decreases b
  {
    out := codec.write(b.cap);
    var i := 0;
    while i < |b.streams|
      invariant 0 <= i <= |b.streams|
      invariant out + WriteStreams(codec, b.streams[i..]) == codec.write(b.cap) + WriteStreams(codec, b.streams)
    {
      var piece;
      match b.streams[i] {
        case Nested(inner) =>
          var written := WriteValue(codec, inner);
          piece := [STREAM_BOTTLE] + written;
        case Raw(chunks) =>
          var frames := Framed(chunks);
          piece := [STREAM_RAW] + frames;
      }
      WriteStep(codec, out, b.streams, i, piece);
      out := out + piece;
      i := i + 1;
    }
    assert b.streams[i..] == [];
    assert out + [] == out;
    out := out + [STREAM_END];
  }

  /** One pass of write's loop: the sub-stream `i` moves from what is left to what is written. */
  lemma {:induction false} WriteStep(codec: CapCodec, out: seq<byte>, ss: seq<SubStream>, i: nat, piece: seq<byte>)
    requires AllWellFormed(ss) && i < |ss| && piece == WriteStream(codec, ss[i])
    ensures AllWellFormed(ss[i..]) && AllWellFormed(ss[i + 1..])
    ensures (out + piece) + WriteStreams(codec, ss[i + 1..]) == out + WriteStreams(codec, ss[i..])
  {
    assert ss[i..][1..] == ss[i + 1..];
    AppendAssoc(out, piece, WriteStreams(codec, ss[i + 1..]));
  }

  // ---------------------------------------------------------------------
  // The Bottle object

  /**
   * A bottle being read or written: its cap, the sub-streams not yet taken,
   * and how many have been taken with `nextStream`. `all` is every
   * sub-stream the bottle was made with and `taken` those handed out so far.
   */
  class Bottle {
    const cap: Cap
    var streams: seq<SubStream>
    var streamCount: nat
    ghost const all: seq<SubStream>
    ghost var taken: seq<SubStream>

    /** The streams handed out and those still to come are the bottle's own, in order. */
    ghost predicate Valid()
      reads this
    {
      streamCount == |taken| && taken + streams <= all
    }

    constructor (cap: Cap, streams: seq<SubStream>)
      ensures Valid()
      ensures this.cap == cap && this.streams == streams && all == streams
      ensures streamCount == 0 && taken == []
    {
      this.cap := cap;
      this.streams := streams;
      streamCount := 0;
      all := streams;
      taken := [];
    }

    /** `nextStream`: the next sub-stream, counted, or `None` once there are no more. */
    method NextStream() returns (s: Option<SubStream>)
      requires Valid()
      modifies this
      ensures Valid()
      ensures old(streams) == [] ==> s == None && streams == [] && streamCount == old(streamCount) && taken == old(taken)
      ensures old(streams) != [] ==>
        s == Some(old(streams)[0]) && streams == old(streams)[1..]
        && streamCount == old(streamCount) + 1 && taken == old(taken) + [old(streams)[0]]
    {
      if streams == [] {
        return None;
      }
      s := Some(streams[0]);
      assert taken + streams == (taken + [streams[0]]) + streams[1..];
      taken := taken + [streams[0]];
      streams := streams[1..];
      streamCount := streamCount + 1;
    }

    /** `nextDataStream`: the next sub-stream, which must be a raw stream. */
    method NextDataStream() returns (res: Result<seq<seq<byte>>>)
      requires Valid()
      modifies this
      ensures Valid()
      ensures old(streams) == [] ==> res == Err(ReachedEnd) && streams == [] && streamCount == old(streamCount)
      ensures old(streams) != [] ==> streams == old(streams)[1..] && streamCount == old(streamCount) + 1
      ensures old(streams) != [] && old(streams)[0].Nested? ==> res == Err(GotBottle)
      ensures old(streams) != [] && old(streams)[0].Raw? ==> res == Ok(old(streams)[0].chunks)
    {
      var s := NextStream();
      match s
      case None => return Err(ReachedEnd);
      case Some(Nested(_)) => return Err(GotBottle);
      case Some(Raw(chunks)) => return Ok(chunks);
    }

    /** `nextBottle`: the next sub-stream, which must be a nested bottle, as a bottle of its own. */
    method NextBottle() returns (res: Result<Bottle>)
      requires Valid()
      modifies this
      ensures Valid()
      ensures old(streams) == [] ==> res == Err(ReachedEnd) && streams == [] && streamCount == old(streamCount)
      ensures old(streams) != [] ==> streams == old(streams)[1..] && streamCount == old(streamCount) + 1
      ensures old(streams) != [] && old(streams)[0].Raw? ==> res == Err(GotStream)
      ensures old(streams) != [] && old(streams)[0].Nested? ==>
        res.Ok? && fresh(res.value) && res.value.Valid()
        && res.value.cap == old(streams)[0].bottle.cap && res.value.streams == old(streams)[0].bottle.streams
        && res.value.streamCount == 0
    {
      var s := NextStream();
      match s
      case None => return Err(ReachedEnd);
      case Some(Raw(_)) => return Err(GotStream);
      case Some(Nested(b)) =>
        var inner := new Bottle(b.cap, b.streams);
        return Ok(inner);
    }

    /** `done`: takes one more sub-stream, and there must be none left. */
    method Done() returns (res: Result<()>)
      requires Valid()
      modifies this
      ensures Valid()
      ensures old(streams) == [] <==> res.Ok?
      ensures res.Err? ==> res.error == ExpectedEnd && streams == old(streams)[1..] && streamCount == old(streamCount) + 1
      ensures res.Ok? ==> streams == [] && streamCount == old(streamCount)
    {
      var s := NextStream();
      if s.Some? {
        return Err(ExpectedEnd);
      }
      return Ok(());
    }

    /**
     * `write`: the cap and every sub-stream not yet taken, then the end
     * marker. Writing drains the sub-streams without counting them.
     */
    method Write(codec: CapCodec) returns (out: seq<byte>)
      requires Valid() && WellFormed(BottleValue(cap, streams))
      modifies this
      ensures Valid()
      ensures out == WriteBottle(codec, BottleValue(cap, old(streams)))
      ensures streams == [] && streamCount == old(streamCount) && taken == old(taken)
    {
      out := WriteValue(codec, BottleValue(cap, streams));
      assert taken + [] <= taken + streams;
      streams := [];
    }

    /**
     * `read`: a bottle from the reader, with every sub-stream read to its
     * end, none taken yet; or the first failure.
     */
    static method Read(codec: CapCodec, r: Reader) returns (res: Result<Bottle>)
      requires ReadsWithin(codec) && r.Valid()
      modifies r`pos
      ensures r.Valid() && old(r.pos) <= r.pos
      ensures ReadBottle(codec, r.data[old(r.pos)..], old(r.pos)).Err? ==>
        res == Err(ReadBottle(codec, r.data[old(r.pos)..], old(r.pos)).error)
      ensures ReadBottle(codec, r.data[old(r.pos)..], old(r.pos)).Ok? ==>
        var v := ReadBottle(codec, r.data[old(r.pos)..], old(r.pos)).value;
        res.Ok? && fresh(res.value) && res.value.Valid()
        && res.value.cap == v.0.cap && res.value.streams == v.0.streams && res.value.streamCount == 0
        && r.pos == old(r.pos) + v.1
    {
      ghost var start := r.pos;
      var value := ReadValue(codec, r);
      if value.Err? {
        AgreesErr(ReadBottle(codec, r.data[start..], start), value, r.pos - start);
        return Err(value.error);
      }
      AgreesOk(ReadBottle(codec, r.data[start..], start), value, r.pos - start);
      var b := new Bottle(value.value.cap, value.value.streams);
      return Ok(b);
    }
  }
}
