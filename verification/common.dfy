/**
 * Shared vocabulary of the bottle model: bytes, optional values, the
 * library's error conditions, and the forward-only byte cursor that every
 * decoder pulls from.
 */
module Common {

  /** One octet of the wire format. */
  type byte = x: int | 0 <= x < 256

  datatype Option<T> = None | Some(value: T) {
    function GetOr(default: T): T {
      match this
      case Some(v) => v
      case None => default
    }
  }

  /**
   * Every error the core can raise. The source throws `Error` objects with a
   * message; each constructor here stands for one of those messages.
   */
  datatype Error =
    | Negative                        // addInt: "can't be negative"
    | HeaderTooLarge(size: nat)       // packInto: "Header too large"
    | BufferTooSmall                  // packInto: "Buffer isn't big enough"
    | IdOutOfRange(id: int)           // packInto: "Header ID out of range"
    | StringTooLong(length: nat)      // packInto: the length byte cannot hold it
    | TruncatedHeader                 // unpack: "Truncated header"
    | UnknownFieldType(code: nat)     // unpack: a type nibble with no Lengths entry
    | TruncatedStream                 // unframed: "Truncated stream"
    | UnknownLengthPrefix(lead: byte) // unframed: a length byte of the 01xxxxxx class
    | TruncatedBottle                 // read: "Truncated bottle"
    | StrayByte(marker: byte, position: nat) // read: "Stray byte 0x.. at position .."
    | ReachedEnd                      // nextDataStream/nextBottle: "Expected stream, reached end"
    | GotBottle                       // nextDataStream: "Expected stream, got nested bottle"
    | GotStream                       // nextBottle: "Expected nested bottle, got stream"
    | ExpectedEnd                     // done: "Expected end of bottle"
    | CapError(reason: string)        // any failure reported by the cap codec
    | NotSigned                       // readSignedBottle: "Not a signed bottle"
    | UnsupportedHash(hashMethod: nat) // a hash method with no digest algorithm

  datatype Result<T> = Ok(value: T) | Err(error: Error) {
    predicate IsFailure() {
      Err?
    }

    function PropagateFailure<U>(): Result<U>
      requires Err?
    {
      Err(error)
    }

    function Extract(): T
      requires Ok?
    {
      value
    }
  }

  /** The concatenation of a sequence of chunks, as `Buffer.concat` gives it. */
  function Concat(chunks: seq<seq<byte>>): seq<byte>
  {
    if chunks == [] then [] else chunks[0] + Concat(chunks[1..])
  }

  lemma {:induction false} ConcatAppend(chunks: seq<seq<byte>>, c: seq<byte>)
    ensures Concat(chunks + [c]) == Concat(chunks) + c
  {
    if chunks == [] {
      assert chunks + [c] == [c];
    } else {
      assert (chunks + [c])[1..] == chunks[1..] + [c];
      ConcatAppend(chunks[1..], c);
    }
  }

  /** The non-empty chunks of `chunks`, in order. */
  function NonEmpty(chunks: seq<seq<byte>>): (r: seq<seq<byte>>)
    ensures forall i :: 0 <= i < |r| ==> |r[i]| > 0
    ensures |r| <= |chunks|
  {
    if chunks == [] then []
    else if |chunks[0]| == 0 then NonEmpty(chunks[1..])
    else [chunks[0]] + NonEmpty(chunks[1..])
  }

  /** Dropping empty chunks does not change the bytes they carry. */
  lemma {:induction false} ConcatNonEmpty(chunks: seq<seq<byte>>)
    ensures Concat(NonEmpty(chunks)) == Concat(chunks)
  {
    if chunks != [] {
      var tail := NonEmpty(chunks[1..]);
      ConcatNonEmpty(chunks[1..]);
      assert Concat(chunks) == chunks[0] + Concat(chunks[1..]);
      if |chunks[0]| > 0 {
        var r := [chunks[0]] + tail;
        assert NonEmpty(chunks) == r;
        assert r[0] == chunks[0] && r[1..] == tail;
      } else {
        assert NonEmpty(chunks) == tail;
        assert chunks[0] + Concat(chunks[1..]) == Concat(chunks[1..]);
      }
    }
  }

  /** Splitting a slice that is known to be `x + y` into its two parts. */
  lemma SplitSlice(data: seq<byte>, a: nat, x: seq<byte>, y: seq<byte>)
    requires a + |x| + |y| <= |data|
    requires data[a..a + |x| + |y|] == x + y
    ensures data[a..a + |x|] == x
    ensures data[a + |x|..a + |x| + |y|] == y
  {
    var whole := data[a..a + |x| + |y|];
    assert data[a..a + |x|] == whole[..|x|];
    assert data[a + |x|..a + |x| + |y|] == whole[|x|..];
    assert (x + y)[..|x|] == x && (x + y)[|x|..] == y;
  }

  /** The bytes from `a` on, known to be `x + y`, split into their two parts. */
  lemma SplitSuffix(data: seq<byte>, a: nat, x: seq<byte>, y: seq<byte>)
    requires a <= |data| && data[a..] == x + y
    ensures a + |x| <= |data|
    ensures data[a..a + |x|] == x
    ensures data[a + |x|..] == y
  {
    var whole := data[a..];
    assert data[a..a + |x|] == whole[..|x|];
    assert data[a + |x|..] == whole[|x|..];
    assert (x + y)[..|x|] == x && (x + y)[|x|..] == y;
  }

  /** The bytes from `a` on are those up to `b` followed by those from `b` on. */
  lemma JoinSuffix(data: seq<byte>, a: nat, b: nat)
    requires a <= b <= |data|
    ensures data[a..] == data[a..b] + data[b..]
  {
  }

  lemma AppendAssoc<T>(x: seq<T>, y: seq<T>, z: seq<T>)
    ensures (x + y) + z == x + (y + z)
  {
  }

  /** The first `k` elements of `x + y`, when `x` is at least that long. */
  lemma CutInside(data: seq<byte>, pos: nat, x: seq<byte>, y: seq<byte>)
    requires pos <= |data| && |data| - pos <= |x| + |y| && |data| - pos < |x|
    requires data[pos..] == (x + y)[..|data| - pos]
    ensures data[pos..] == x[..|data| - pos]
  {
    assert (x + y)[..|data| - pos] == x[..|data| - pos];
  }

  /** The bytes from `pos` on, a prefix of `x + y` that covers `x`, split into `x` and a prefix of `y`. */
  lemma CutParts(data: seq<byte>, pos: nat, x: seq<byte>, y: seq<byte>)
    requires pos <= |data| && |x| <= |data| - pos <= |x| + |y|
    requires data[pos..] == (x + y)[..|data| - pos]
    ensures data[pos..pos + |x|] == x
    ensures data[pos + |x|..] == y[..|data| - pos - |x|]
  {
    var cut := |data| - pos;
    assert data[pos..pos + |x|] == data[pos..][..|x|];
    assert data[pos + |x|..] == data[pos..][|x|..];
    assert (x + y)[..cut][..|x|] == x;
    assert (x + y)[..cut][|x|..] == y[..cut - |x|];
  }

  /**
   * The pull-based byte source (`Readable` / `ByteReader`): a fixed input and
   * a read position that only moves forward. `pos` is the source's
   * `bytesRead`.
   */
  class Reader {
    const data: seq<byte>
    var pos: nat

    ghost predicate Valid()
      reads this
    {
      pos <= |data|
    }

    constructor (input: seq<byte>)
      ensures Valid() && data == input && pos == 0
    {
      data := input;
      pos := 0;
    }

    /** `read(n)`: up to `n` bytes, fewer only at the end of the input. */
    method Read(n: nat) returns (bs: seq<byte>)
      requires Valid()
      modifies this`pos
      ensures Valid()
      ensures old(pos) + n <= |data| ==> bs == data[old(pos)..old(pos) + n]
      ensures old(pos) + n > |data| ==> bs == data[old(pos)..]
      ensures pos == old(pos) + |bs|
    {
      if pos + n <= |data| {
        bs := data[pos..pos + n];
      } else {
        bs := data[pos..];
      }
      pos := pos + |bs|;
    }
  }
}
