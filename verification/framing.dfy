/**
 * Stream framing (src/framed.ts): a sequence of chunks becomes a sequence of
 * frames, each a self-delimiting length prefix followed by the chunk's bytes,
 * closed by a single zero byte. `unframed` pulls frames back off a shared
 * reader and stops right after the terminator, so whatever follows is left
 * for the next reader.
 *
 * The length prefix comes from src/zint.ts, which is not part of this model;
 * its layouts are those the framing tests fix (see README):
 *   00xxxxxx                      lengths 0..63 in one byte
 *   111xxxxx                      a power of two 2^(x + 7) in one byte
 *   10xxxxxx yyyyyyyy             x + 64 * y, two bytes
 *   110xxxxx yyyyyyyy zzzzzzzz    x + 32 * y + 8192 * z, three bytes
 */
module Framing {
  import opened Common

  const END_OF_STREAM: byte := 0

  // ---------------------------------------------------------------------
  // Powers of two

  function Pow2(e: nat): (r: nat)
    ensures r >= 1
  {
    if e == 0 then 1 else 2 * Pow2(e - 1)
  }

  lemma Pow2Table()
    ensures Pow2(6) == 64 && Pow2(7) == 128 && Pow2(8) == 256 && Pow2(10) == 1024
    ensures Pow2(11) == 2048 && Pow2(14) == 16384 && Pow2(15) == 32768
    ensures Pow2(16) == 65536 && Pow2(17) == 131072 && Pow2(18) == 0x4_0000
    ensures Pow2(21) == 0x20_0000 && Pow2(22) == 0x40_0000
  {
    assert Pow2(1) == 2;
    assert Pow2(2) == 4;
    assert Pow2(3) == 8;
    assert Pow2(4) == 16;
    assert Pow2(5) == 32;
    assert Pow2(6) == 64;
    assert Pow2(7) == 128;
    assert Pow2(8) == 256;
    assert Pow2(9) == 512;
    assert Pow2(10) == 1024;
    assert Pow2(11) == 2048;
    assert Pow2(12) == 4096;
    assert Pow2(13) == 8192;
    assert Pow2(14) == 16384;
    assert Pow2(15) == 32768;
    assert Pow2(16) == 65536;
    assert Pow2(17) == 131072;
    assert Pow2(18) == 262144;
    assert Pow2(19) == 524288;
    assert Pow2(20) == 1048576;
    assert Pow2(21) == 2097152;
  }

  lemma {:induction false} Pow2Monotonic(a: nat, b: nat)
    requires a <= b
    ensures Pow2(a) <= Pow2(b)
    decreases b
  {
    if a < b {
      Pow2Monotonic(a, b - 1);
    }
  }

  /** How many times `n` can be halved before it reaches 1: the exponent of the highest power of two in it. */
  function Halvings(n: nat): nat {
    if n <= 1 then 0 else 1 + Halvings(n / 2)
  }

  /** 2^e <= n < 2^(e+1) exactly when n halves e times. */
  lemma {:induction false} HalvingsBetween(n: nat, e: nat)
    requires Pow2(e) <= n < 2 * Pow2(e)
    ensures Halvings(n) == e
  {
    if e > 0 {
      HalvingsBetween(n / 2, e - 1);
    }
  }

  predicate IsPowerOfTwo(n: nat) {
    Pow2(Halvings(n)) == n
  }

  /** The powers of two are exactly the numbers 2^e. */
  lemma PowerOfTwoExponent(e: nat)
    ensures IsPowerOfTwo(Pow2(e)) && Halvings(Pow2(e)) == e
  {
    HalvingsBetween(Pow2(e), e);
  }

  /** A number strictly between two neighbouring powers of two is not one. */
  lemma NotPowerOfTwo(n: nat, e: nat)
    requires Pow2(e) < n < 2 * Pow2(e)
    ensures !IsPowerOfTwo(n)
  {
    HalvingsBetween(n, e);
  }

  // ---------------------------------------------------------------------
  // The length prefix

  /** The lengths whose prefix layout is fixed: the small ones and 128..2^21. */
  predicate Encodable(n: nat) {
    n < 64 || 128 <= n <= 0x20_0000
  }

  /** `encodeLength`: a power of two in one byte is preferred over the general layouts. */
  function EncodeLength(n: nat): (r: seq<byte>)
    requires Encodable(n)
    ensures 1 <= |r| <= 3
    ensures LengthLength(r[0]) == Some(|r|)
  {
    if n < 64 then [n]
    else if IsPowerOfTwo(n) then
      PowerRange(n);
      [0xe0 + Halvings(n) - 7]
    else
      LargeBound(n);
      if n < 16384 then [0x80 + n % 64, n / 64]
      else [0xc0 + n % 32, (n / 32) % 256, n / 8192]
  }

  /** The first byte of a prefix says how long the prefix is: the prefix delimits itself. */
  lemma EncodedLead(n: nat)
    requires Encodable(n)
    ensures LengthLength(EncodeLength(n)[0]) == Some(|EncodeLength(n)|)
  {
    if n >= 64 && IsPowerOfTwo(n) {
      PowerRange(n);
    }
  }

  /** 2^21, the largest length with a fixed layout, is a power of two. */
  lemma LargeBound(n: nat)
    requires n <= 0x20_0000 && !IsPowerOfTwo(n)
    ensures n < 0x20_0000
  {
    Pow2Table();
    PowerOfTwoExponent(21);
  }

  /** The exponents of the powers of two from 2^7 to 2^21. */
  lemma PowerRange(n: nat)
    requires 128 <= n <= 0x20_0000 && IsPowerOfTwo(n)
    ensures 7 <= Halvings(n) <= 21
  {
    var e := Halvings(n);
    Pow2Table();
    if e < 7 {
      Pow2Monotonic(e, 6);
    } else if e > 21 {
      Pow2Monotonic(22, e);
    }
  }

  /** `lengthLength`: how many bytes a prefix takes, from its first byte; 01xxxxxx is no prefix. */
  function LengthLength(lead: byte): Option<nat> {
    if lead < 0x40 then Some(1)
    else if lead < 0x80 then None
    else if lead < 0xc0 then Some(2)
    else if lead < 0xe0 then Some(3)
    else Some(1)
  }

  /**
   * `decodeLength`: the length whose prefix opens `s`. The low bits of the
   * lead byte are written as the lead minus its class tag (0x80 for the
   * 10xxxxxx class, 0xc0 for 110xxxxx), which is the same value.
   */
  function DecodeLength(s: seq<byte>): nat
    requires |s| > 0 && LengthLength(s[0]).Some? && LengthLength(s[0]).value <= |s|
  {
    var lead := s[0];
    if lead < 0x40 then lead
    else if lead >= 0xe0 then Pow2(lead - 0xe0 + 7)
    else if lead < 0xc0 then lead - 0x80 + s[1] * 64
    else lead - 0xc0 + s[1] * 32 + s[2] * 8192
  }

  /** The three parts of a large length put back together. */
  lemma LargeSplit(n: nat)
    ensures n % 32 + (n / 32) % 256 * 32 + n / 8192 * 8192 == n
  {
    var q := n / 32;
    assert q / 256 == n / 8192;
    assert q == q % 256 + q / 256 * 256;
  }

  /** A prefix decodes to the length it was written for, whatever follows it. */
  lemma DecodeEncodeLength(n: nat, rest: seq<byte>)
    requires Encodable(n)
    ensures var s := EncodeLength(n) + rest;
      LengthLength(s[0]) == Some(|EncodeLength(n)|) && DecodeLength(s) == n
  {
    if n < 64 {
      assert (EncodeLength(n) + rest)[0] == n;
    } else if IsPowerOfTwo(n) {
      DecodePower(n, rest);
    } else if n < 16384 {
      DecodeTwoBytes(n, rest);
    } else {
      DecodeThreeBytes(n, rest);
    }
  }

  lemma DecodePower(n: nat, rest: seq<byte>)
    requires 128 <= n <= 0x20_0000 && IsPowerOfTwo(n)
    ensures var s := EncodeLength(n) + rest;
      LengthLength(s[0]) == Some(|EncodeLength(n)|) && DecodeLength(s) == n
  {
    PowerRange(n);
    assert (EncodeLength(n) + rest)[0] == 0xe0 + Halvings(n) - 7;
  }

  lemma DecodeTwoBytes(n: nat, rest: seq<byte>)
    requires 64 <= n < 16384 && Encodable(n) && !IsPowerOfTwo(n)
    ensures var s := EncodeLength(n) + rest;
      LengthLength(s[0]) == Some(|EncodeLength(n)|) && DecodeLength(s) == n
  {
    var s := EncodeLength(n) + rest;
    assert s[0] == 0x80 + n % 64 && s[1] == n / 64;
  }

  lemma DecodeThreeBytes(n: nat, rest: seq<byte>)
    requires 16384 <= n && Encodable(n) && !IsPowerOfTwo(n)
    ensures var s := EncodeLength(n) + rest;
      LengthLength(s[0]) == Some(|EncodeLength(n)|) && DecodeLength(s) == n
  {
    var s := EncodeLength(n) + rest;
    LargeBound(n);
    assert s[0] == 0xc0 + n % 32 && s[1] == (n / 32) % 256 && s[2] == n / 8192;
    LargeSplit(n);
  }

  /** What `readLength` gives: the length, or why there is none, and how many bytes it consumed. */
  datatype LengthRead = LengthRead(length: Result<nat>, used: nat)

  /**
   * `readLength` on the bytes `s` from the reader's position on: one byte,
   * then as many more as that byte says; running out of input at either
   * read is a truncation. A short read consumes everything that is left.
   */
  function ReadLength(s: seq<byte>): (r: LengthRead)
    ensures r.used <= |s|
    ensures r.length.Ok? ==> 0 < r.used
    ensures r.length == Err(TruncatedStream) ==> r.used == |s|
  {
    if |s| == 0 then LengthRead(Err(TruncatedStream), 0)
    else match LengthLength(s[0])
      case None => LengthRead(Err(UnknownLengthPrefix(s[0])), 1)
      case Some(k) =>
        if k > |s| then LengthRead(Err(TruncatedStream), |s|)
        else LengthRead(Ok(DecodeLength(s)), k)
  }

  /** A prefix is read back as its length, and exactly its bytes are consumed. */
  lemma ReadEncodedLength(n: nat, rest: seq<byte>)
    requires Encodable(n)
    ensures ReadLength(EncodeLength(n) + rest) == LengthRead(Ok(n), |EncodeLength(n)|)
  {
    DecodeEncodeLength(n, rest);
  }

  /** A prefix cut short by the end of the input reads as a truncation. */
  lemma ReadCutLength(n: nat, s: seq<byte>)
    requires Encodable(n)
    requires |s| < |EncodeLength(n)| && s == EncodeLength(n)[..|s|]
    ensures ReadLength(s) == LengthRead(Err(TruncatedStream), |s|)
  {
    if |s| > 0 {
      assert s[0] == EncodeLength(n)[0];
    }
  }

  /** Lengths below 64 are their own prefix: 3 is `03`, 12 is `0c`. */
  lemma SmallLayouts()
    ensures EncodeLength(3) == [3] && EncodeLength(12) == [0x0c]
    ensures forall n: nat :: n < 64 ==> EncodeLength(n) == [n]
  {
  }

  /** Powers of two take one byte: 128 is `e0`, 1024 is `e3`, 2^18 is `eb`, 2^21 is `ee`. */
  lemma PowerLayouts()
    ensures EncodeLength(128) == [0xe0] && EncodeLength(1024) == [0xe3]
    ensures EncodeLength(0x4_0000) == [0xeb] && EncodeLength(0x20_0000) == [0xee]
  {
    Pow2Table();
    PowerOfTwoExponent(7);
    PowerOfTwoExponent(10);
    PowerOfTwoExponent(18);
    PowerOfTwoExponent(21);
  }

  /** Other lengths below 16384 take two bytes: 129 is `81 02`, 1234 is `92 13`. */
  lemma TwoByteLayouts()
    ensures EncodeLength(129) == [0x81, 0x02] && EncodeLength(1234) == [0x92, 0x13]
  {
    Pow2Table();
    NotPowerOfTwo(129, 7);
    NotPowerOfTwo(1234, 10);
  }

  /** Larger ones take three: 16385 is `c1 00 02`, 123456 is `c0 12 0f`. */
  lemma ThreeByteLayouts()
    ensures EncodeLength(16385) == [0xc1, 0x00, 0x02] && EncodeLength(123456) == [0xc0, 0x12, 0x0f]
  {
    Pow2Table();
    NotPowerOfTwo(16385, 14);
    NotPowerOfTwo(123456, 16);
  }

  // ---------------------------------------------------------------------
  // framed

  ghost predicate AllEncodable(chunks: seq<seq<byte>>) {
    forall i :: 0 <= i < |chunks| ==> Encodable(|chunks[i]|)
  }

  /** What `framed` emits for one chunk: nothing for an empty one, else its length and its bytes. */
  function Frame(chunk: seq<byte>): (r: seq<byte>)
    requires Encodable(|chunk|)
  {
    if |chunk| == 0 then [] else EncodeLength(|chunk|) + chunk
  }

  function FramedBody(chunks: seq<seq<byte>>): seq<byte>
    requires AllEncodable(chunks)
  {
    if chunks == [] then [] else Frame(chunks[0]) + FramedBody(chunks[1..])
  }

  /** The bytes `framed` emits for `chunks`: every frame, then the terminator. */
  function Framing(chunks: seq<seq<byte>>): seq<byte>
    requires AllEncodable(chunks)
  {
    FramedBody(chunks) + [END_OF_STREAM]
  }

  /**
   * `framed`: for each chunk in turn, unless it is empty, its length and then
   * the chunk itself; finally the terminator. The buffers it yields are
   * modelled by their concatenation, which is what a reader of the stream
   * sees.
   */
  method Framed(chunks: seq<seq<byte>>) returns (out: seq<byte>)
    requires AllEncodable(chunks)
    ensures out == Framing(chunks)
  {
    out := [];
    var i := 0;
    while i < |chunks|
      invariant 0 <= i <= |chunks|
      invariant AllEncodable(chunks[i..])
      invariant out + FramedBody(chunks[i..]) == FramedBody(chunks)
    {
      var data := chunks[i];
      FramedStep(out, chunks, i);
      EmitFrame(out, data);
      if |data| > 0 {
        out := out + EncodeLength(|data|) + data;
      }
      i := i + 1;
    }
    assert chunks[i..] == [];
    assert out + [] == out;
    out := out + [END_OF_STREAM];
  }

  /** One pass of framed's loop: the frame of chunk `i` moves from what is left to what is emitted. */
  lemma FramedStep(out: seq<byte>, chunks: seq<seq<byte>>, i: nat)
    requires AllEncodable(chunks) && i < |chunks|
    ensures Encodable(|chunks[i]|) && AllEncodable(chunks[i + 1..])
    ensures out + FramedBody(chunks[i..]) == (out + Frame(chunks[i])) + FramedBody(chunks[i + 1..])
  {
    assert chunks[i..][1..] == chunks[i + 1..];
    AppendAssoc(out, Frame(chunks[i]), FramedBody(chunks[i + 1..]));
  }

  /** Emitting a frame is emitting its prefix and then its chunk. */
  lemma EmitFrame(out: seq<byte>, chunk: seq<byte>)
    requires Encodable(|chunk|)
    ensures |chunk| == 0 ==> out + Frame(chunk) == out
    ensures |chunk| > 0 ==> out + Frame(chunk) == out + EncodeLength(|chunk|) + chunk
  {
    if |chunk| > 0 {
      AppendAssoc(out, EncodeLength(|chunk|), chunk);
    }
  }

  /** `framed([01 02 03])` is `03 01 02 03 00`. */
  lemma SmallFrame()
    ensures AllEncodable([[1, 2, 3]])
    ensures Framing([[1, 2, 3]]) == [3, 1, 2, 3, 0]
  {
    assert Frame([1, 2, 3]) == [3, 1, 2, 3];
  }

  /** `framed` of "he", an empty buffer and "llo" is `02 68 65 03 6c 6c 6f 00`. */
  lemma EmptyChunkSkipped()
    ensures AllEncodable([[0x68, 0x65], [], [0x6c, 0x6c, 0x6f]])
    ensures Framing([[0x68, 0x65], [], [0x6c, 0x6c, 0x6f]]) == [2, 0x68, 0x65, 3, 0x6c, 0x6c, 0x6f, 0]
  {
    var chunks: seq<seq<byte>> := [[0x68, 0x65], [], [0x6c, 0x6c, 0x6f]];
    assert chunks[1..] == [[], [0x6c, 0x6c, 0x6f]];
    assert chunks[1..][1..] == [[0x6c, 0x6c, 0x6f]];
    assert FramedBody(chunks[1..][1..]) == [3, 0x6c, 0x6c, 0x6f];
  }

  // ---------------------------------------------------------------------
  // unframed

  /**
   * What `unframed` does with the bytes `s` from the reader's position on:
   * the chunks it yields, the error it throws after them if any, and how
   * many bytes it consumed.
   */
  datatype Unframing = Unframing(chunks: seq<seq<byte>>, failure: Option<Error>, used: nat)

  /**
   * `unframed`: read a length; 0 ends the stream; otherwise read that many
   * bytes and yield them. Running out of input anywhere is a truncation.
   */
  function Unframe(s: seq<byte>): (r: Unframing)
    ensures r.used <= |s|
    ensures r.failure == Some(TruncatedStream) ==> r.used == |s|
    decreases |s|
  {
    var read := ReadLength(s);
    if read.length.Err? then Unframing([], Some(read.length.error), read.used)
    else if read.length.value == 0 then Unframing([], None, read.used)
    else if read.used + read.length.value > |s| then Unframing([], Some(TruncatedStream), |s|)
    else
      var q := read.used + read.length.value;
      var rest := Unframe(s[q..]);
      Unframing([s[read.used..q]] + rest.chunks, rest.failure, q + rest.used)
  }

  /** The chunks `written` were yielded from the first `skip` bytes; then `u` from the rest. */
  function After(written: seq<seq<byte>>, u: Unframing, skip: nat): Unframing {
    Unframing(written + u.chunks, u.failure, skip + u.used)
  }

  /** Yielding `first` and then `second` is yielding both together. */
  lemma AfterAfter(first: seq<seq<byte>>, second: seq<seq<byte>>, u: Unframing, m: nat, n: nat)
    ensures After(first, After(second, u, m), n) == After(first + second, u, n + m)
  {
    AppendAssoc(first, second, u.chunks);
  }

  /** `readLength`, on the reader. */
  method ReadLengthFrom(r: Reader) returns (length: Result<nat>)
    requires r.Valid()
    modifies r`pos
    ensures r.Valid() && old(r.pos) <= r.pos
    ensures ReadLength(r.data[old(r.pos)..]) == LengthRead(length, r.pos - old(r.pos))
  {
    ghost var start := r.pos;
    ghost var s := r.data[r.pos..];
    var byte := r.Read(1);
    if |byte| < 1 {
      return Err(TruncatedStream);
    }
    assert byte[0] == s[0];
    var needed := LengthLength(byte[0]);
    if needed.None? {
      return Err(UnknownLengthPrefix(byte[0]));
    }
    if needed.value - 1 == 0 {
      return Ok(DecodeLength(byte));
    }
    var rest := r.Read(needed.value - 1);
    if |rest| < needed.value - 1 {
      return Err(TruncatedStream);
    }
    var prefix := byte + rest;
    assert byte == r.data[start..start + 1] && rest == r.data[start + 1..start + needed.value];
    assert r.data[start..start + needed.value] == r.data[start..start + 1] + r.data[start + 1..start + needed.value];
    assert prefix == s[..needed.value];
    return Ok(DecodeLength(prefix));
  }

  /** One pass of `unframed`'s loop: a frame to yield, or the end of the stream, cleanly or with an error. */
  datatype FrameStep = Yield(chunk: seq<byte>) | Stop(failure: Option<Error>)

  /** The body of `unframed`'s loop: read a length and then, unless it ends the stream, that many bytes. */
  method NextFrame(r: Reader) returns (step: FrameStep)
    requires r.Valid()
    modifies r`pos
    ensures r.Valid() && old(r.pos) <= r.pos
    ensures step.Stop? ==> Unframe(r.data[old(r.pos)..]) == Unframing([], step.failure, r.pos - old(r.pos))
    ensures step.Yield? ==>
      && old(r.pos) < r.pos
      && Unframe(r.data[old(r.pos)..]) == After([step.chunk], Unframe(r.data[r.pos..]), r.pos - old(r.pos))
  {
    ghost var here := r.pos;
    var length := ReadLengthFrom(r);
    UnframeEnds(r.data[here..]);
    if length.Err? {
      return Stop(Some(length.error));
    }
    if length.value == 0 {
      return Stop(None);
    }
    var data := r.Read(length.value);
    if |data| < length.value {
      return Stop(Some(TruncatedStream));
    }
    ghost var k := r.pos - length.value - here;
    assert data == r.data[here + k..r.pos];
    UnframeNext(r.data, here, k, length.value);
    return Yield(data);
  }

  /** `unframed`: the frames from the reader's position, up to and including the terminator. */
  method Unframed(r: Reader) returns (yielded: seq<seq<byte>>, failure: Option<Error>)
    requires r.Valid()
    modifies r`pos
    ensures r.Valid() && old(r.pos) <= r.pos
    ensures Unframe(r.data[old(r.pos)..]) == Unframing(yielded, failure, r.pos - old(r.pos))
  {
    ghost var start := r.pos;
    yielded := [];
    while true
      invariant r.Valid() && start <= r.pos
      invariant Unframe(r.data[start..]) == After(yielded, Unframe(r.data[r.pos..]), r.pos - start)
      decreases |r.data| - r.pos
    {
      ghost var here := r.pos;
      var step := NextFrame(r);
      if step.Stop? {
        AfterNothing(yielded, step.failure, r.pos - here, here - start);
        return yielded, step.failure;
      }
      AfterAfter(yielded, [step.chunk], Unframe(r.data[r.pos..]), r.pos - here, here - start);
      yielded := yielded + [step.chunk];
    }
  }

  /** The three ways unframing stops right at the start of `s`: an unreadable length, the terminator, a short frame. */
  lemma UnframeEnds(s: seq<byte>)
    ensures var read := ReadLength(s);
      read.length.Err? ==> Unframe(s) == Unframing([], Some(read.length.error), read.used)
    ensures var read := ReadLength(s);
      read.length == Ok(0) ==> Unframe(s) == Unframing([], None, read.used)
    ensures var read := ReadLength(s);
      read.length.Ok? && read.length.value > 0 && read.used + read.length.value > |s| ==>
      Unframe(s) == Unframing([], Some(TruncatedStream), |s|)
  {
  }

  /** Nothing more after `written`: they are everything unframing yields. */
  lemma AfterNothing(written: seq<seq<byte>>, failure: Option<Error>, m: nat, n: nat)
    ensures After(written, Unframing([], failure, m), n) == Unframing(written, failure, n + m)
  {
    assert written + [] == written;
  }

  /** A frame of `len` bytes after a `k`-byte prefix at `a`: unframing yields it and goes on after it. */
  lemma UnframeNext(data: seq<byte>, a: nat, k: nat, len: nat)
    requires a + k + len <= |data| && len > 0
    requires ReadLength(data[a..]) == LengthRead(Ok(len), k)
    ensures Unframe(data[a..]) == After([data[a + k..a + k + len]], Unframe(data[a + k + len..]), k + len)
  {
    assert data[a..][k + len..] == data[a + k + len..];
    assert data[a..][k..k + len] == data[a + k..a + k + len];
  }

  // ---------------------------------------------------------------------
  // Round trip

  /**
   * Unframing what `framed` wrote yields the non-empty chunks, in order,
   * stops cleanly, and consumes exactly the framed bytes, whatever follows.
   */
  lemma {:induction false} UnframeFraming(chunks: seq<seq<byte>>, rest: seq<byte>)
    requires AllEncodable(chunks)
    ensures Unframe(Framing(chunks) + rest) == Unframing(NonEmpty(chunks), None, |Framing(chunks)|)
    decreases |chunks|
  {
    if chunks == [] {
      assert Framing(chunks) + rest == [END_OF_STREAM] + rest;
    } else {
      var c, tail := chunks[0], chunks[1..];
      if |c| == 0 {
        FramingSkip(chunks);
        UnframeFraming(tail, rest);
      } else {
        FramingCons(chunks);
        AppendAssoc(Frame(c), Framing(tail), rest);
        UnframeFrame(c, Framing(tail) + rest);
        UnframeFraming(tail, rest);
        assert NonEmpty(chunks) == [c] + NonEmpty(tail);
      }
    }
  }

  /** The first chunk's frame, then the frames of the rest. */
  lemma FramingCons(chunks: seq<seq<byte>>)
    requires AllEncodable(chunks) && chunks != []
    ensures Encodable(|chunks[0]|) && AllEncodable(chunks[1..])
    ensures Framing(chunks) == Frame(chunks[0]) + Framing(chunks[1..])
  {
    AppendAssoc(Frame(chunks[0]), FramedBody(chunks[1..]), [END_OF_STREAM]);
  }

  /** An empty first chunk leaves no trace: not in the framing, not among the chunks read back. */
  lemma FramingSkip(chunks: seq<seq<byte>>)
    requires AllEncodable(chunks) && chunks != [] && |chunks[0]| == 0
    ensures AllEncodable(chunks[1..])
    ensures Framing(chunks) == Framing(chunks[1..])
    ensures NonEmpty(chunks) == NonEmpty(chunks[1..])
  {
    assert FramedBody(chunks) == [] + FramedBody(chunks[1..]);
  }

  /** The frame of a non-empty chunk `c`, then `t`: unframing yields `c` and goes on with `t`. */
  lemma UnframeFrame(c: seq<byte>, t: seq<byte>)
    requires Encodable(|c|) && |c| > 0
    ensures Unframe(Frame(c) + t) == After([c], Unframe(t), |Frame(c)|)
  {
    var e := EncodeLength(|c|);
    var s := Frame(c) + t;
    AppendAssoc(e, c, t);
    ReadEncodedLength(|c|, c + t);
    assert s[|e|..|e| + |c|] == c;
    assert s[|e| + |c|..] == t;
  }

  /**
   * Input that ends anywhere inside what `framed` wrote, before its
   * terminator, is a truncated stream, and all of it is consumed.
   */
  lemma {:induction false} UnframeCut(chunks: seq<seq<byte>>, k: nat)
    requires AllEncodable(chunks) && k < |Framing(chunks)|
    ensures Unframe(Framing(chunks)[..k]).failure == Some(TruncatedStream)
    ensures Unframe(Framing(chunks)[..k]).used == k
    decreases |chunks|
  {
    if chunks != [] {
      var c, tail := chunks[0], chunks[1..];
      if |c| == 0 {
        FramingSkip(chunks);
        UnframeCut(tail, k);
      } else {
        FramingCons(chunks);
        var e := EncodeLength(|c|);
        AppendAssoc(e, c, Framing(tail));
        var s := Framing(chunks)[..k];
        if k < |e| {
          assert s == e[..k];
          ReadCutLength(|c|, s);
        } else if k < |e| + |c| {
          assert s == e + (c + Framing(tail))[..k - |e|];
          ReadEncodedLength(|c|, (c + Framing(tail))[..k - |e|]);
        } else {
          var k' := k - |Frame(c)|;
          assert s == Frame(c) + Framing(tail)[..k'];
          UnframeFrame(c, Framing(tail)[..k']);
          UnframeCut(tail, k');
        }
      }
    }
  }
}
