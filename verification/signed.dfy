/**
 * Signed bottles (src/signed_bottle.ts). A signed bottle wraps the bytes of
 * another bottle: its cap is of type SIGNED and names the hash method (and,
 * when the digest is signed, who signed it); its first sub-stream is the
 * wrapped bytes, passed through unchanged while they are hashed, and its
 * second holds the digest, or the signer's signature of the digest.
 *
 * The hash function, the signer and the verifier are parameters: this model
 * says what is done with their results, not how they compute them.
 */
module Signed {
  import opened Common
  import opened Bottles
  import Header
  import Framing

  /** The only hash method the library knows. */
  const SHA256: nat := 0

  /** Header field ids: the hash method (an integer) and the signer's name (a string) share id 0. */
  const INT_HASH_TYPE: int := 0
  const STRING_SIGNED_BY: int := 0

  /** SHA-256, as a function from the bytes hashed to the digest. */
  type Hasher = seq<byte> -> seq<byte>

  /** What a verifier makes of a signed digest: the digest it recovers, or a failure. */
  datatype Verification = Recovered(digest: seq<byte>) | Failed(message: string)

  type Signer = seq<byte> -> seq<byte>
  type Verifier = (seq<byte>, seq<byte>) -> Verification

  datatype SignOptions = SignOptions(hash: Option<nat>, signedBy: Option<seq<byte>>, signer: Option<Signer>)

  datatype SignedStatus = OK | BAD_HASH | UNVERIFIED

  /** The outcome of checking a signed bottle; `signedBy` is the name from the header, if any. */
  datatype Verified = Verified(status: SignedStatus, signedBy: Option<seq<byte>>, reason: Option<string>)

  /**
   * What reading a signed bottle gives: the hash method, the wrapped bottle,
   * and the outcome of the check, which can itself fail when the digest
   * stream is missing or is not a raw stream.
   */
  datatype VerifiedBottle = VerifiedBottle(hashMethod: nat, bottle: Bottle, verified: Result<Verified>)

  /** A name counts only when it is a non-empty string, as JavaScript's truthiness has it. */
  predicate Named(signedBy: Option<seq<byte>>) {
    signedBy.Some? && |signedBy.value| > 0
  }

  // ---------------------------------------------------------------------
  // computeHash

  /**
   * `computeHash`: every chunk passes through unchanged and in order while
   * the hasher is fed; the digest is that of all the bytes, taken once the
   * input is exhausted.
   */
  method ComputeHash(chunks: seq<seq<byte>>, hash: Hasher) returns (passed: seq<seq<byte>>, digest: seq<byte>)
    ensures passed == chunks
    ensures digest == hash(Concat(chunks))
  {
    var fed: seq<byte> := [];
    passed := [];
    var i := 0;
    while i < |chunks|
      invariant 0 <= i <= |chunks|
      invariant passed == chunks[..i]
      invariant fed == Concat(chunks[..i])
    {
      ConcatAppend(chunks[..i], chunks[i]);
      assert chunks[..i + 1] == chunks[..i] + [chunks[i]];
      fed := fed + chunks[i];
      passed := passed + [chunks[i]];
      i := i + 1;
    }
    assert chunks[..i] == chunks;
    digest := hash(fed);
  }

  // ---------------------------------------------------------------------
  // writeSignedBottle

  /** The hash method the options ask for, SHA-256 when they name none. */
  function MethodOf(options: SignOptions): nat {
    options.hash.GetOr(SHA256)
  }

  /** The header fields `writeSignedBottle` builds. */
  function SignedFields(options: SignOptions): (fields: seq<Header.Field>)
    ensures Header.AllStored(fields)
  {
    [Header.IntField(INT_HASH_TYPE, MethodOf(options))]
      + (if Named(options.signedBy) then [Header.Field(Header.STRING, STRING_SIGNED_BY, None, None, options.signedBy.value)] else [])
  }

  /** The digest as it goes into the second sub-stream: signed when there is a signer. */
  function SignedDigest(options: SignOptions, digest: seq<byte>): seq<byte> {
    if options.signer.Some? then options.signer.value(digest) else digest
  }

  /** The two sub-streams of a signed bottle: the wrapped bytes, then the (signed) digest as one chunk. */
  function SignedStreams(options: SignOptions, chunks: seq<seq<byte>>, hash: Hasher): (ss: seq<SubStream>)
    ensures |ss| == 2 && ss[0] == Raw(chunks) && ss[1].Raw?
    ensures |ss[1].chunks| == 1 && Concat(ss[1].chunks) == SignedDigest(options, hash(Concat(chunks)))
  {
    var signed := SignedDigest(options, hash(Concat(chunks)));
    assert |[signed][1..]| == 0;
    [Raw(chunks), Raw([signed])]
  }

  /**
   * `writeSignedBottle`: a SIGNED cap whose header holds the hash method and,
   * when given, the signer's name, and the two sub-streams. A hash method
   * other than SHA-256 has no digest algorithm and fails.
   */
  method WriteSignedBottle(chunks: seq<seq<byte>>, options: SignOptions, hash: Hasher) returns (res: Result<Bottle>)
    ensures MethodOf(options) != SHA256 ==> res == Err(UnsupportedHash(MethodOf(options)))
    ensures MethodOf(options) == SHA256 ==>
      res.Ok? && fresh(res.value) && res.value.Valid()
      && res.value.cap == Cap(SIGNED, SignedFields(options))
      && res.value.streams == SignedStreams(options, chunks, hash)
      && res.value.streamCount == 0
  {
    var hashMethod := options.hash.GetOr(SHA256);
    var header := new Header.Header();
    var added := header.AddInt(INT_HASH_TYPE, hashMethod);
    if options.signedBy.Some? && |options.signedBy.value| > 0 {
      header.AddString(STRING_SIGNED_BY, options.signedBy.value);
    }
    var cap := Cap(SIGNED, header.fields);
    if hashMethod != SHA256 {
      return Err(UnsupportedHash(hashMethod));
    }
    var stream, digest := ComputeHash(chunks, hash);
    var signedDigest := if options.signer.Some? then options.signer.value(digest) else digest;
    var b := new Bottle(cap, [Raw(stream), Raw([signedDigest])]);
    return Ok(b);
  }

  /** The header a signed bottle is written with gives back the method and the signer's name. */
  lemma {:induction false} SignedFieldsRead(options: SignOptions)
    ensures Header.GetInt(SignedFields(options), INT_HASH_TYPE) == Some(MethodOf(options))
    ensures Named(options.signedBy) ==> Header.GetString(SignedFields(options), STRING_SIGNED_BY) == options.signedBy
    ensures !Named(options.signedBy) ==> Header.GetString(SignedFields(options), STRING_SIGNED_BY) == None
  {
    var fields := SignedFields(options);
    assert Header.IsIntOf(fields[0], INT_HASH_TYPE);
    assert !Header.IsStringOf(fields[0], STRING_SIGNED_BY);
    if Named(options.signedBy) {
      assert Header.IsStringOf(fields[1], STRING_SIGNED_BY);
    }
  }

  // ---------------------------------------------------------------------
  // readSignedBottle

  /** Lower-case hexadecimal, as `Buffer.toString("hex")` writes it. */
  function Hex(bs: seq<byte>): (r: string)
    ensures |r| == 2 * |bs|
  {
    if bs == [] then "" else [HexDigit(bs[0] / 16), HexDigit(bs[0] % 16)] + Hex(bs[1..])
  }

  function HexDigit(n: nat): char
    requires n < 16
  {
    "0123456789abcdef"[n]
  }

  /** The digest comparison: OK when they agree, else BAD_HASH with both digests in the reason. */
  function Compare(expected: seq<byte>, got: seq<byte>, signedBy: Option<seq<byte>>): Verified {
    if expected != got then Verified(BAD_HASH, signedBy, Some("expected " + Hex(expected) + ", got " + Hex(got)))
    else Verified(OK, signedBy, None)
  }

  /**
   * The `verified` decision: a named signer needs a verifier that recovers
   * the digest from the signed one; what is recovered (or the second
   * sub-stream itself, when nobody signed) must equal the recomputed digest.
   */
  function Decide(digest: seq<byte>, signedDigest: seq<byte>, signedBy: Option<seq<byte>>, verifier: Option<Verifier>): (v: Verified)
    ensures v.signedBy == signedBy
    ensures !Named(signedBy) ==> (v.status == OK <==> signedDigest == digest) && v.status != UNVERIFIED
    ensures Named(signedBy) && verifier.None? ==> v == Verified(UNVERIFIED, signedBy, Some("no verifier"))
    ensures Named(signedBy) && verifier.Some? ==>
      (v.status == OK <==> verifier.value(signedDigest, signedBy.value) == Recovered(digest))
    ensures Named(signedBy) && verifier.Some? && verifier.value(signedDigest, signedBy.value).Failed? ==>
      v == Verified(UNVERIFIED, signedBy, Some(verifier.value(signedDigest, signedBy.value).message))
    ensures Named(signedBy) && verifier.Some? && verifier.value(signedDigest, signedBy.value).Recovered?
            && verifier.value(signedDigest, signedBy.value).digest != digest ==>
      v == Verified(BAD_HASH, signedBy,
                    Some("expected " + Hex(digest) + ", got " + Hex(verifier.value(signedDigest, signedBy.value).digest)))
    ensures !Named(signedBy) && signedDigest != digest ==>
      v == Verified(BAD_HASH, signedBy, Some("expected " + Hex(digest) + ", got " + Hex(signedDigest)))
    ensures v.status == OK ==> v.reason == None
    ensures v.status == BAD_HASH ==> v.reason.Some?
  {
    if Named(signedBy) then
      if verifier.None? then Verified(UNVERIFIED, signedBy, Some("no verifier"))
      else match verifier.value(signedDigest, signedBy.value)
        case Failed(message) => Verified(UNVERIFIED, signedBy, Some(message))
        case Recovered(d) => Compare(digest, d, signedBy)
    else Compare(digest, signedDigest, signedBy)
  }

  /** The check of the digest stream, which must come next and be raw. */
  function CheckDigest(digest: seq<byte>, rest: seq<SubStream>, signedBy: Option<seq<byte>>, verifier: Option<Verifier>): Result<Verified> {
    if rest == [] then Err(ReachedEnd)
    else if rest[0].Nested? then Err(GotBottle)
    else Ok(Decide(digest, Concat(rest[0].chunks), signedBy, verifier))
  }

  /** What `readSignedBottle` yields, with the wrapped bottle as a value. */
  datatype SignedRead = SignedRead(hashMethod: nat, inner: BottleValue, verified: Result<Verified>)

  /**
   * `readSignedBottle` on a bottle with cap `cap` and sub-streams `streams`:
   * the cap must be SIGNED; the first sub-stream must be raw; its bytes are
   * read as a bottle of their own and hashed; then the digest stream is
   * checked.
   */
  function ReadSigned(codec: CapCodec, cap: Cap, streams: seq<SubStream>, hash: Hasher, verifier: Option<Verifier>): (r: Result<SignedRead>)
    requires ReadsWithin(codec)
    ensures cap.btype != SIGNED ==> r == Err(NotSigned)
    ensures r.Ok? ==> |streams| > 0 && streams[0].Raw? && r.value.hashMethod == SHA256
  {
    if cap.btype != SIGNED then Err(NotSigned)
    else
      var hashMethod := Header.GetInt(cap.header, INT_HASH_TYPE).GetOr(SHA256);
      var signedBy := Header.GetString(cap.header, STRING_SIGNED_BY);
      if streams == [] then Err(ReachedEnd)
      else if streams[0].Nested? then Err(GotBottle)
      else if hashMethod != SHA256 then Err(UnsupportedHash(hashMethod))
      else
        var bytes := Concat(streams[0].chunks);
        match ReadBottle(codec, bytes, 0)
        case Err(e) => Err(e)
        case Ok(inner) => Ok(SignedRead(hashMethod, inner.0, CheckDigest(hash(bytes), streams[1..], signedBy, verifier)))
  }

  /**
   * `readSignedBottle`: takes the wrapped stream with `nextDataStream`,
   * hashes it as it is read back as a bottle, then takes the digest stream
   * with `nextDataStream` and decides. The source checks lazily, once the
   * wrapped bottle has been read; here it is done at once.
   */
  method ReadSignedBottle(codec: CapCodec, b: Bottle, hash: Hasher, verifier: Option<Verifier>) returns (res: Result<VerifiedBottle>)
    requires ReadsWithin(codec) && b.Valid()
    modifies b
    ensures b.Valid()
    ensures ReadSigned(codec, b.cap, old(b.streams), hash, verifier).Err? ==>
      res == Err(ReadSigned(codec, b.cap, old(b.streams), hash, verifier).error)
    ensures ReadSigned(codec, b.cap, old(b.streams), hash, verifier).Ok? ==>
      var expected := ReadSigned(codec, b.cap, old(b.streams), hash, verifier).value;
      && res.Ok? && res.value.hashMethod == expected.hashMethod && res.value.verified == expected.verified
      && fresh(res.value.bottle) && res.value.bottle.Valid()
      && res.value.bottle.cap == expected.inner.cap && res.value.bottle.streams == expected.inner.streams
      && res.value.bottle.streamCount == 0
      && b.streams == old(b.streams)[if |old(b.streams)| < 2 then |old(b.streams)| else 2..]
  {
    if b.cap.btype != SIGNED {
      return Err(NotSigned);
    }
    var hashMethod := Header.GetInt(b.cap.header, INT_HASH_TYPE).GetOr(SHA256);
    var signedBy := Header.GetString(b.cap.header, STRING_SIGNED_BY);
    ghost var streams := b.streams;
    var stream := b.NextDataStream();
    if stream.Err? {
      return Err(stream.error);
    }
    if hashMethod != SHA256 {
      return Err(UnsupportedHash(hashMethod));
    }
    var passed, digest := ComputeHash(stream.value, hash);
    var reader := new Reader(Concat(passed));
    var inner := Bottle.Read(codec, reader);
    if inner.Err? {
      return Err(inner.error);
    }
    var verified;
    var signed := b.NextDataStream();
    if signed.Err? {
      verified := Err(signed.error);
    } else {
      verified := Ok(Decide(digest, Concat(signed.value), signedBy, verifier));
    }
    return Ok(VerifiedBottle(hashMethod, inner.value, verified));
  }

  // ---------------------------------------------------------------------
  // Properties

  /**
   * A signed bottle wrapping the bytes of a written bottle reads back as
   * that bottle and checks OK, when nobody signed it or when the verifier
   * recovers what the signer signed.
   */
  lemma {:induction false} SignedRoundTrip(codec: CapCodec, inner: BottleValue, chunks: seq<seq<byte>>, options: SignOptions,
                                           hash: Hasher, verifier: Option<Verifier>)
    requires ReadsWithin(codec) && RoundTrips(codec) && WellFormed(inner)
    requires Concat(chunks) == WriteBottle(codec, inner)
    requires MethodOf(options) == SHA256
    requires !Named(options.signedBy) ==> options.signer.None?
    requires Named(options.signedBy) ==>
      options.signer.Some? && verifier.Some?
      && verifier.value(options.signer.value(hash(Concat(chunks))), options.signedBy.value) == Recovered(hash(Concat(chunks)))
    ensures ReadSigned(codec, Cap(SIGNED, SignedFields(options)), SignedStreams(options, chunks, hash), hash, verifier)
            == Ok(SignedRead(SHA256, Normalized(inner),
                             Ok(Verified(OK, if Named(options.signedBy) then options.signedBy else None, None))))
  {
    SignedFieldsRead(options);
    assert WriteBottle(codec, inner) + [] == WriteBottle(codec, inner);
    ReadWrite(codec, inner, [], 0);
    var ss := SignedStreams(options, chunks, hash);
    var d := hash(Concat(chunks));
    assert Concat(ss[1].chunks) == SignedDigest(options, d) by {
      assert Concat([SignedDigest(options, d)][1..]) == [];
    }
  }

  /**
   * The round trip through the bytes: a signed bottle, written with `write`
   * and read back with `read`, is consumed exactly, and the wrapped bottle
   * and the digest it gives back check OK. Reading drops empty chunks from
   * both sub-streams, which leaves the bytes they carry unchanged.
   */
  lemma {:induction false} SignedBottleRoundTrip(codec: CapCodec, inner: BottleValue, chunks: seq<seq<byte>>, options: SignOptions,
                                                 hash: Hasher, verifier: Option<Verifier>)
    requires ReadsWithin(codec) && RoundTrips(codec) && WellFormed(inner)
    requires Concat(chunks) == WriteBottle(codec, inner)
    requires Framing.AllEncodable(chunks) && Framing.Encodable(|SignedDigest(options, hash(Concat(chunks)))|)
    requires MethodOf(options) == SHA256
    requires !Named(options.signedBy) ==> options.signer.None?
    requires Named(options.signedBy) ==>
      options.signer.Some? && verifier.Some?
      && verifier.value(options.signer.value(hash(Concat(chunks))), options.signedBy.value) == Recovered(hash(Concat(chunks)))
    ensures var outer := BottleValue(Cap(SIGNED, SignedFields(options)), SignedStreams(options, chunks, hash));
      WellFormed(outer)
      && (var read := ReadBottle(codec, WriteBottle(codec, outer), 0);
          read.Ok? && read.value.1 == |WriteBottle(codec, outer)|
          && ReadSigned(codec, read.value.0.cap, read.value.0.streams, hash, verifier)
             == Ok(SignedRead(SHA256, Normalized(inner),
                              Ok(Verified(OK, if Named(options.signedBy) then options.signedBy else None, None)))))
  {
    var digest := hash(Concat(chunks));
    var signed := SignedDigest(options, digest);
    var ss := SignedStreams(options, chunks, hash);
    var outer := BottleValue(Cap(SIGNED, SignedFields(options)), ss);
    assert Framing.AllEncodable([signed]) by {
      assert [signed][0] == signed;
    }
    assert WellFormed(outer) by {
      forall i | 0 <= i < |ss| ensures StreamWellFormed(ss[i]) {
        assert ss[i] == Raw(chunks) || ss[i] == Raw([signed]);
      }
    }
    assert WriteBottle(codec, outer) + [] == WriteBottle(codec, outer);
    ReadWrite(codec, outer, [], 0);
    var back := Normalized(outer).streams;
    assert back[0] == NormalizedStream(ss[0]) == Raw(NonEmpty(chunks));
    assert NormalizedStreams(ss[1..]) == [NormalizedStream(ss[1])] + NormalizedStreams(ss[1..][1..]);
    assert back[1] == NormalizedStream(ss[1]) == Raw(NonEmpty([signed]));
    ConcatNonEmpty(chunks);
    ConcatNonEmpty([signed]);
    assert Concat(back[1].chunks) == signed;
    assert WriteBottle(codec, inner) + [] == WriteBottle(codec, inner);
    ReadWrite(codec, inner, [], 0);
    SignedFieldsRead(options);
    assert back[1..] == [back[1]];
  }

  /**
   * Every outcome of reading a signed bottle whose wrapped bytes read as a
   * bottle: the method is SHA-256, stated or by default; the wrapped bottle
   * is what those bytes read as; and the check is "reached end" without a
   * second sub-stream, "got nested bottle" when it is a bottle, and
   * otherwise the decision on the hash of the wrapped bytes against it.
   */
  lemma {:induction false} ReadSignedOk(codec: CapCodec, cap: Cap, streams: seq<SubStream>, hash: Hasher, verifier: Option<Verifier>,
                                       inner: BottleValue, n: nat)
    requires ReadsWithin(codec) && cap.btype == SIGNED
    requires Header.GetInt(cap.header, INT_HASH_TYPE) == None || Header.GetInt(cap.header, INT_HASH_TYPE) == Some(SHA256)
    requires |streams| > 0 && streams[0].Raw?
    requires ReadBottle(codec, Concat(streams[0].chunks), 0) == Ok((inner, n))
    ensures var r := ReadSigned(codec, cap, streams, hash, verifier);
      r.Ok? && r.value.hashMethod == SHA256 && r.value.inner == inner
      && (|streams| == 1 ==> r.value.verified == Err(ReachedEnd))
      && (|streams| > 1 && streams[1].Nested? ==> r.value.verified == Err(GotBottle))
      && (|streams| > 1 && streams[1].Raw? ==>
            r.value.verified == Ok(Decide(hash(Concat(streams[0].chunks)), Concat(streams[1].chunks),
                                          Header.GetString(cap.header, STRING_SIGNED_BY), verifier)))
  {
    if |streams| > 1 {
      assert streams[1..][0] == streams[1];
    }
  }

  /** The ways reading a signed bottle fails before any check is made. */
  lemma ReadSignedFails(codec: CapCodec, cap: Cap, streams: seq<SubStream>, hash: Hasher, verifier: Option<Verifier>)
    requires ReadsWithin(codec) && cap.btype == SIGNED
    ensures var r := ReadSigned(codec, cap, streams, hash, verifier);
      var hashMethod := Header.GetInt(cap.header, INT_HASH_TYPE).GetOr(SHA256);
      && (streams == [] ==> r == Err(ReachedEnd))
      && (streams != [] && streams[0].Nested? ==> r == Err(GotBottle))
      && (streams != [] && streams[0].Raw? && hashMethod != SHA256 ==> r == Err(UnsupportedHash(hashMethod)))
      && (streams != [] && streams[0].Raw? && hashMethod == SHA256 && ReadBottle(codec, Concat(streams[0].chunks), 0).Err? ==>
            r == Err(ReadBottle(codec, Concat(streams[0].chunks), 0).error))
  {
  }

  /** Without a signer's name, a digest stream that does not hold the digest of the wrapped bytes is BAD_HASH. */
  lemma {:induction false} TamperedDigest(codec: CapCodec, fields: seq<Header.Field>, wrapped: seq<seq<byte>>, sent: seq<seq<byte>>,
                                          hash: Hasher, verifier: Option<Verifier>)
    requires ReadsWithin(codec)
    requires Header.GetInt(fields, INT_HASH_TYPE).GetOr(SHA256) == SHA256
    requires !Named(Header.GetString(fields, STRING_SIGNED_BY))
    requires ReadBottle(codec, Concat(wrapped), 0).Ok?
    requires Concat(sent) != hash(Concat(wrapped))
    ensures var r := ReadSigned(codec, Cap(SIGNED, fields), [Raw(wrapped), Raw(sent)], hash, verifier);
      r.Ok? && r.value.verified.Ok? && r.value.verified.value.status == BAD_HASH
      && r.value.verified.value.reason
         == Some("expected " + Hex(hash(Concat(wrapped))) + ", got " + Hex(Concat(sent)))
  {
    assert [Raw(wrapped), Raw(sent)][1..] == [Raw(sent)];
  }

  /** A named signer with no verifier to check the signature is UNVERIFIED, whatever the digests. */
  lemma {:induction false} NoVerifier(codec: CapCodec, fields: seq<Header.Field>, wrapped: seq<seq<byte>>, sent: seq<seq<byte>>, hash: Hasher)
    requires ReadsWithin(codec)
    requires Header.GetInt(fields, INT_HASH_TYPE).GetOr(SHA256) == SHA256
    requires Named(Header.GetString(fields, STRING_SIGNED_BY))
    requires ReadBottle(codec, Concat(wrapped), 0).Ok?
    ensures var r := ReadSigned(codec, Cap(SIGNED, fields), [Raw(wrapped), Raw(sent)], hash, None);
      r.Ok? && r.value.verified
               == Ok(Verified(UNVERIFIED, Header.GetString(fields, STRING_SIGNED_BY), Some("no verifier")))
  {
    assert [Raw(wrapped), Raw(sent)][1..] == [Raw(sent)];
  }
}
