/**
 * The header codec (src/header.ts): an ordered list of typed fields with a
 * compact byte layout. Each field is one descriptor byte, type in the high
 * nybble and id in the low nybble, followed by a payload whose width is given
 * by the `Lengths` table. The whole header must fit in 1023 bytes.
 */
module Header {
  import opened Common

  const MAX_HEADER_BYTES: nat := 1023
  const MASK_32: nat := 0xffff_ffff

  datatype FieldType = U8 | U16 | U32 | U64 | FLAG | STRING {
    /** The numeric type code that goes in the descriptor's high nybble. */
    function Code(): nat {
      match this
      case U8 => 0
      case U16 => 1
      case U32 => 2
      case U64 => 3
      case FLAG => 8
      case STRING => 9
    }

    /** The `Lengths` table: the fixed payload width after the descriptor. */
    function Length(): nat {
      match this
      case U8 => 1
      case U16 => 2
      case U32 => 4
      case U64 => 8
      case FLAG => 0
      case STRING => 1
    }

    /** The integer types, codes U8..U64. */
    predicate IsInt() {
      U8? || U16? || U32? || U64?
    }
  }

  /** The field type whose code is `code`, if there is one. */
  function TypeOfCode(code: nat): (r: Option<FieldType>)
    ensures r.Some? ==> r.value.Code() == code
    ensures forall t: FieldType :: t.Code() == code ==> r == Some(t)
  {
    if code == 0 then Some(U8)
    else if code == 1 then Some(U16)
    else if code == 2 then Some(U32)
    else if code == 3 then Some(U64)
    else if code == 8 then Some(FLAG)
    else if code == 9 then Some(STRING)
    else None
  }

  /**
   * A field as the source stores it: its type, its id, and the optional
   * `int`, `bigint` and raw string slots of the `Field` class. A string is
   * kept as its raw bytes.
   */
  datatype Field = Field(ftype: FieldType, id: int, intValue: Option<nat>, bigValue: Option<nat>, rawStr: seq<byte>)

  // ---------------------------------------------------------------------
  // Little-endian integers

  function Pow256(width: nat): (r: nat)
    ensures r >= 1
  {
    if width == 0 then 1 else 256 * Pow256(width - 1)
  }

  lemma Pow256Values()
    ensures Pow256(1) == 256 && Pow256(2) == 65536 && Pow256(4) == 0x1_0000_0000
  {
  }

  /** `v` as `width` little-endian bytes (the low `width` bytes of `v`). */
  function LittleEndian(v: nat, width: nat): (r: seq<byte>)
    ensures |r| == width
  {
    if width == 0 then [] else [v % 256] + LittleEndian(v / 256, width - 1)
  }

  /** `readUInt8` / `readUInt16LE` / `readUInt32LE`: the `width` bytes at `at`, little-endian. */
  function ReadUIntLE(data: seq<byte>, at: nat, width: nat): nat
    requires at + width <= |data|
    decreases width
  {
    if width == 0 then 0 else data[at] + 256 * ReadUIntLE(data, at + 1, width - 1)
  }

  lemma {:induction false} ReadUIntLEBound(data: seq<byte>, at: nat, width: nat)
    requires at + width <= |data|
    ensures ReadUIntLE(data, at, width) < Pow256(width)
    decreases width
  {
    if width > 0 {
      ReadUIntLEBound(data, at + 1, width - 1);
      var rest := ReadUIntLE(data, at + 1, width - 1);
      assert rest + 1 <= Pow256(width - 1);
      assert 256 * (rest + 1) <= 256 * Pow256(width - 1);
    }
  }

  /** Bytes read as a number and written back as `width` bytes are the same bytes. */
  lemma {:induction false} ReadUIntLERoundTrip(data: seq<byte>, at: nat, width: nat)
    requires at + width <= |data|
    ensures LittleEndian(ReadUIntLE(data, at, width), width) == data[at..at + width]
    decreases width
  {
    if width > 0 {
      ReadUIntLERoundTrip(data, at + 1, width - 1);
      var v := ReadUIntLE(data, at, width);
      assert v % 256 == data[at] && v / 256 == ReadUIntLE(data, at + 1, width - 1);
      assert data[at..at + width] == [data[at]] + data[at + 1..at + width];
    }
  }

  /** A number below 256^width written as `width` bytes reads back as itself. */
  lemma {:induction false} ReadLittleEndian(data: seq<byte>, at: nat, v: nat, width: nat)
    requires at + width <= |data| && data[at..at + width] == LittleEndian(v, width)
    requires v < Pow256(width)
    ensures ReadUIntLE(data, at, width) == v
    decreases width
  {
    if width > 0 {
      assert data[at] == data[at..at + width][0];
      assert data[at + 1..at + width] == data[at..at + width][1..];
      ReadLittleEndian(data, at + 1, v / 256, width - 1);
    }
  }

  // ---------------------------------------------------------------------
  // Fields as the add methods and unpack create them

  /**
   * The shape every field of a header has: integers up to U32 hold an `int`
   * that fits their width; a U64 holds either an `int` (from addInt) or a
   * `bigint` (from addBigInt and unpack); flags carry nothing; only strings
   * carry bytes.
   */
  predicate Stored(f: Field) {
    match f.ftype
    case FLAG => f.intValue.None? && f.bigValue.None? && f.rawStr == []
    case STRING => f.intValue.None? && f.bigValue.None?
    case U64 => f.rawStr == [] && f.intValue.Some? != f.bigValue.Some?
    case _ =>
      f.rawStr == [] && f.bigValue.None? && f.intValue.Some? && f.intValue.value < Pow256(f.ftype.Length())
  }

  /** The field addInt appends for a non-negative value: the narrowest integer type. */
  function IntField(id: int, n: nat): (f: Field)
    ensures f.ftype.IsInt() && f.id == id
    ensures f.intValue == Some(n) && f.bigValue == None && f.rawStr == []
    ensures Stored(f)
    ensures forall t: FieldType :: t.IsInt() && t.Code() < f.ftype.Code() ==> n >= Pow256(t.Length())
  {
    Pow256Values();
    if n < 256 then Field(U8, id, Some(n), None, [])
    else if n < 65536 then Field(U16, id, Some(n), None, [])
    else if n < 0x1_0000_0000 then Field(U32, id, Some(n), None, [])
    else Field(U64, id, Some(n), None, [])
  }

  ghost predicate AllStored(fields: seq<Field>) {
    forall i :: 0 <= i < |fields| ==> Stored(fields[i])
  }

  // ---------------------------------------------------------------------
  // Lookups: the first field that matches, as `Array.find` gives it

  /** The index of the first field satisfying `p`, or |fields| when there is none. */
  function FindFirst(fields: seq<Field>, p: Field -> bool): (k: nat)
    ensures k <= |fields|
    ensures k < |fields| ==> p(fields[k])
    ensures forall j :: 0 <= j < k ==> !p(fields[j])
  {
    if fields == [] then 0
    else if p(fields[0]) then 0
    else 1 + FindFirst(fields[1..], p)
  }

  predicate IsFlag(f: Field, id: int) {
    f.ftype == FLAG && f.id == id
  }

  predicate IsIntOf(f: Field, id: int) {
    f.ftype.IsInt() && f.id == id
  }

  predicate IsStringOf(f: Field, id: int) {
    f.ftype == STRING && f.id == id
  }

  /** The number a field carries: its `int` if set, else its `bigint`. */
  function NumberOf(f: Field): Option<nat> {
    if f.intValue.Some? then f.intValue else f.bigValue
  }

  function GetFlag(fields: seq<Field>, id: int): (found: bool)
    ensures found <==> exists i :: 0 <= i < |fields| && IsFlag(fields[i], id)
  {
    FindFirst(fields, f => IsFlag(f, id)) < |fields|
  }

  function GetInt(fields: seq<Field>, id: int): (r: Option<nat>)
    ensures (forall i :: 0 <= i < |fields| ==> !IsIntOf(fields[i], id)) ==> r == None
    ensures forall k :: 0 <= k < |fields| && IsIntOf(fields[k], id) && (forall j :: 0 <= j < k ==> !IsIntOf(fields[j], id))
                        ==> r == NumberOf(fields[k])
  {
    var k := FindFirst(fields, f => IsIntOf(f, id));
    if k < |fields| then NumberOf(fields[k]) else None
  }

  function GetString(fields: seq<Field>, id: int): (r: Option<seq<byte>>)
    ensures (forall i :: 0 <= i < |fields| ==> !IsStringOf(fields[i], id)) ==> r == None
    ensures forall k :: 0 <= k < |fields| && IsStringOf(fields[k], id) && (forall j :: 0 <= j < k ==> !IsStringOf(fields[j], id))
                        ==> r == Some(fields[k].rawStr)
  {
    var k := FindFirst(fields, f => IsStringOf(f, id));
    if k < |fields| then Some(fields[k].rawStr) else None
  }

  /**
   * `getBigInt`: the same lookup as `getInt`, giving the `int` if it is set
   * and the `bigint` otherwise; with unbounded numbers the two agree.
   */
  function GetBigInt(fields: seq<Field>, id: int): (r: Option<nat>)
    ensures r == GetInt(fields, id)
  {
    var k := FindFirst(fields, f => IsIntOf(f, id));
    if k == |fields| then None
    else if fields[k].intValue.Some? then fields[k].intValue
    else fields[k].bigValue
  }

  // ---------------------------------------------------------------------
  // Size accounting

  function FieldSize(f: Field): nat {
    1 + f.ftype.Length() + |f.rawStr|
  }

  /** `byteLength`: the sum of the field sizes. */
  function ByteLength(fields: seq<Field>): nat {
    if fields == [] then 0 else FieldSize(fields[0]) + ByteLength(fields[1..])
  }

  // ---------------------------------------------------------------------
  // Packing

  /** What packInto reports for one field, in the order it checks. */
  function FieldError(f: Field): Option<Error> {
    if f.id > 15 || f.id < 0 then Some(IdOutOfRange(f.id))
    else if f.ftype == STRING && |f.rawStr| > 255 then Some(StringTooLong(|f.rawStr|))
    else None
  }

  predicate Packable(f: Field) {
    Stored(f) && FieldError(f).None?
  }

  /** The index of the first field packInto rejects, or |fields|. */
  function FirstBad(fields: seq<Field>): (k: nat)
    ensures k <= |fields|
    ensures k < |fields| ==> FieldError(fields[k]).Some?
    ensures forall j :: 0 <= j < k ==> FieldError(fields[j]).None?
  {
    if fields == [] then 0
    else if FieldError(fields[0]).Some? then 0
    else 1 + FirstBad(fields[1..])
  }

  /** `(type & 15) << 4 | id` */
  function Descriptor(f: Field): byte
    requires 0 <= f.id <= 15
  {
    f.ftype.Code() * 16 + f.id
  }

  /** `f.int || 0` */
  function IntOrZero(f: Field): nat {
    f.intValue.GetOr(0)
  }

  /** The low and high 32-bit halves of a U64's `bigint`, or 0 without one. */
  function Low32(f: Field): nat {
    if f.bigValue.Some? then f.bigValue.value % 0x1_0000_0000 else 0
  }

  function High32(f: Field): nat {
    if f.bigValue.Some? then (f.bigValue.value / 0x1_0000_0000) % 0x1_0000_0000 else 0
  }

  function EncodePayload(f: Field): (r: seq<byte>)
    requires Packable(f)
    ensures |r| == f.ftype.Length() + |f.rawStr|
  {
    match f.ftype
    case FLAG => []
    case U8 => LittleEndian(IntOrZero(f), 1)
    case U16 => LittleEndian(IntOrZero(f), 2)
    case U32 => LittleEndian(IntOrZero(f), 4)
    case U64 => LittleEndian(Low32(f), 4) + LittleEndian(High32(f), 4)
    case STRING => [|f.rawStr|] + f.rawStr
  }

  function EncodeField(f: Field): (r: seq<byte>)
    requires Packable(f)
    ensures |r| == FieldSize(f)
  {
    [Descriptor(f)] + EncodePayload(f)
  }

  ghost predicate AllPackable(fields: seq<Field>) {
    forall i :: 0 <= i < |fields| ==> Packable(fields[i])
  }

  /** The bytes packInto writes for a header whose fields all pass its checks. */
  function EncodeFields(fields: seq<Field>): (r: seq<byte>)
    requires AllPackable(fields)
    ensures |r| == ByteLength(fields)
  {
    if fields == [] then [] else EncodeField(fields[0]) + EncodeFields(fields[1..])
  }

  /**
   * What packInto has written when it throws at field `f`: the descriptor
   * byte has already gone out when the string length overflows its byte.
   */
  function PartialWrite(f: Field): seq<byte>
  {
    if 0 <= f.id <= 15 then [Descriptor(f)] else []
  }

  /** The buffer `s` with `bs` written at `at`, everything else as it was. */
  function Splice(s: seq<byte>, at: nat, bs: seq<byte>): (r: seq<byte>)
    requires at + |bs| <= |s|
    ensures |r| == |s|
  {
    s[..at] + bs + s[at + |bs|..]
  }

  lemma SpliceTwice(s: seq<byte>, at: nat, x: seq<byte>, y: seq<byte>)
    requires at + |x| + |y| <= |s|
    ensures Splice(Splice(s, at, x), at + |x|, y) == Splice(s, at, x + y)
  {
    var t := Splice(s, at, x);
    assert t[..at + |x|] == s[..at] + x;
    assert t[at + |x| + |y|..] == s[at + |x| + |y|..];
  }

  // ---------------------------------------------------------------------
  // Unpacking

  /** The field of type `t` whose payload starts at `at`: the reads of unpack's `switch`. */
  function DecodeField(t: FieldType, id: nat, data: seq<byte>, at: nat): Field
    requires at + t.Length() <= |data|
    requires t == STRING ==> at + 1 + data[at] <= |data|
  {
    match t
    case FLAG => Field(FLAG, id, None, None, [])
    case U8 => Field(U8, id, Some(data[at]), None, [])
    case U16 => Field(U16, id, Some(ReadUIntLE(data, at, 2)), None, [])
    case U32 => Field(U32, id, Some(ReadUIntLE(data, at, 4)), None, [])
    case U64 =>
      var lo, hi := ReadUIntLE(data, at, 4), ReadUIntLE(data, at + 4, 4);
      Field(U64, id, None, Some(lo + hi * 0x1_0000_0000), [])
    case STRING => Field(STRING, id, None, None, data[at + 1..at + 1 + data[at]])
  }

  /** The field whose descriptor is at `i`, or why it cannot be read. */
  function DecodeHead(data: seq<byte>, i: nat): (r: Result<Field>)
    requires i < |data|
    ensures r.Ok? ==> i + FieldSize(r.value) <= |data|
  {
    var code, id := data[i] / 16, data[i] % 16;
    match TypeOfCode(code)
    case None => Err(UnknownFieldType(code))
    case Some(t) =>
      if i + 1 + t.Length() > |data| then Err(TruncatedHeader)
      else if t == STRING && i + 2 + data[i + 1] > |data| then Err(TruncatedHeader)
      else Ok(DecodeField(t, id, data, i + 1))
  }

  /** The fields from the descriptor at `i` to the end of `data`. */
  function DecodeFrom(data: seq<byte>, i: nat): Result<seq<Field>>
    requires i <= |data|
    decreases |data| - i
  {
    if i == |data| then Ok([])
    else
      var f :- DecodeHead(data, i);
      var rest :- DecodeFrom(data, i + FieldSize(f));
      Ok([f] + rest)
  }

  /** `Header.unpack`: the fields encoded in `data`, or the reason it is malformed. */
  function Decode(data: seq<byte>): Result<seq<Field>> {
    DecodeFrom(data, 0)
  }

  function Prepend(fields: seq<Field>, r: Result<seq<Field>>): Result<seq<Field>> {
    match r
    case Ok(rest) => Ok(fields + rest)
    case Err(e) => Err(e)
  }

  lemma PrependNil(r: Result<seq<Field>>)
    ensures Prepend([], r) == r
  {
    if r.Ok? {
      assert [] + r.value == r.value;
    }
  }

  lemma PrependAssoc(fields: seq<Field>, f: Field, r: Result<seq<Field>>)
    ensures Prepend(fields, Prepend([f], r)) == Prepend(fields + [f], r)
  {
    if r.Ok? {
      assert fields + ([f] + r.value) == fields + [f] + r.value;
    }
  }

  /**
   * `Header.unpack`: walks the buffer with a running index, pushing one field
   * per descriptor.
   */
  method Unpack(data: seq<byte>) returns (r: Result<seq<Field>>)
    ensures r == Decode(data)
  {
    var fields: seq<Field> := [];
    var i := 0;
    PrependNil(Decode(data));
    while i < |data|
      invariant 0 <= i <= |data|
      invariant Decode(data) == Prepend(fields, DecodeFrom(data, i))
      decreases |data| - i
    {
      var next := ReadField(data, i);
      if next.Err? {
        return Err(next.error);
      }
      var f := next.value;
      PrependAssoc(fields, f, DecodeFrom(data, i + FieldSize(f)));
      fields := fields + [f];
      i := i + FieldSize(f);
    }
    assert fields + [] == fields;
    return Ok(fields);
  }

  /** One pass of unpack's loop: the descriptor at `i`, its checks, then its payload. */
  method ReadField(data: seq<byte>, i: nat) returns (r: Result<Field>)
    requires i < |data|
    ensures r == DecodeHead(data, i)
  {
    var code, id := data[i] / 16, data[i] % 16;
    var t := TypeOfCode(code);
    if t.None? {
      return Err(UnknownFieldType(code));
    }
    var length := t.value.Length();
    if i + 1 + length > |data| {
      return Err(TruncatedHeader);
    }
    if t.value == STRING && i + 2 + data[i + 1] > |data| {
      return Err(TruncatedHeader);
    }
    var f := ReadPayload(data, i + 1, t.value, id);
    return Ok(f);
  }

  /** The `switch` of unpack: the field of type `t` whose payload starts at `at`. */
  method ReadPayload(data: seq<byte>, at: nat, t: FieldType, id: nat) returns (f: Field)
    requires at + t.Length() <= |data|
    requires t == STRING ==> at + 1 + data[at] <= |data|
    ensures f == DecodeField(t, id, data, at)
  {
    f := Field(t, id, None, None, []);
    match t {
      case FLAG =>
      case U8 =>
        f := f.(intValue := Some(data[at]));
      case U16 =>
        f := f.(intValue := Some(ReadUIntLE(data, at, 2)));
      case U32 =>
        f := f.(intValue := Some(ReadUIntLE(data, at, 4)));
      case U64 =>
        var lo := ReadUIntLE(data, at, 4);
        var hi := ReadUIntLE(data, at + 4, 4);
        f := f.(bigValue := Some(lo + hi * 0x1_0000_0000));
      case STRING =>
        var strlen := data[at];
        f := f.(rawStr := data[at + 1..at + 1 + strlen]);
    }
  }

  // ---------------------------------------------------------------------
  // Round trip

  /**
   * The fields that survive pack and unpack unchanged: ids in 0..15, strings
   * of at most 255 bytes, and a U64 that carries its value as a `bigint`
   * below 2^64.
   */
  predicate Canonical(f: Field) {
    && Packable(f)
    && (f.ftype == U64 ==> f.intValue.None? && f.bigValue.Some? && f.bigValue.value < 0x1_0000_0000 * 0x1_0000_0000)
  }

  ghost predicate AllCanonical(fields: seq<Field>) {
    forall i :: 0 <= i < |fields| ==> Canonical(fields[i])
  }

  /** Two 32-bit words put together as unpack does, and taken apart as packInto does. */
  lemma Join64Split(lo: nat, hi: nat)
    requires lo < 0x1_0000_0000 && hi < 0x1_0000_0000
    ensures lo + hi * 0x1_0000_0000 < 0x1_0000_0000 * 0x1_0000_0000
    ensures (lo + hi * 0x1_0000_0000) % 0x1_0000_0000 == lo
    ensures (lo + hi * 0x1_0000_0000) / 0x1_0000_0000 % 0x1_0000_0000 == hi
  {
    assert hi * 0x1_0000_0000 <= (0x1_0000_0000 - 1) * 0x1_0000_0000;
  }

  lemma U64Split(b: nat)
    requires b < 0x1_0000_0000 * 0x1_0000_0000
    ensures b / 0x1_0000_0000 < 0x1_0000_0000
    ensures b % 0x1_0000_0000 + (b / 0x1_0000_0000 % 0x1_0000_0000) * 0x1_0000_0000 == b
  {
  }

  /** The U64 case of DecodeEncodeField: the two words written read back as the value. */
  lemma EncodedU64Decodes(f: Field, data: seq<byte>, at: nat)
    requires Canonical(f) && f.ftype == U64
    requires at + 8 <= |data| && data[at..at + 8] == EncodePayload(f)
    ensures ReadUIntLE(data, at, 4) + ReadUIntLE(data, at + 4, 4) * 0x1_0000_0000 == f.bigValue.value
  {
    Pow256Values();
    U64Split(f.bigValue.value);
    SplitSlice(data, at, LittleEndian(Low32(f), 4), LittleEndian(High32(f), 4));
    ReadLittleEndian(data, at, Low32(f), 4);
    ReadLittleEndian(data, at + 4, High32(f), 4);
  }

  /** A canonical field packed at `i` is the field unpack reads at `i`. */
  lemma DecodeEncodeField(f: Field, data: seq<byte>, i: nat)
    requires Canonical(f)
    requires i + FieldSize(f) <= |data| && data[i..i + FieldSize(f)] == EncodeField(f)
    ensures DecodeHead(data, i) == Ok(f)
  {
    SplitSlice(data, i, [Descriptor(f)], EncodePayload(f));
    assert data[i] == data[i..i + 1][0];
    DescriptorDecodes(f, data[i]);
    EncodedPayloadDecodes(f, data, i + 1);
  }

  /** The descriptor byte names the field's type and id. */
  lemma DescriptorDecodes(f: Field, d: byte)
    requires 0 <= f.id <= 15 && d == Descriptor(f)
    ensures TypeOfCode(d / 16) == Some(f.ftype) && d % 16 == f.id
  {
  }

  /** A canonical field's payload, packed at `at`, is read back as that field. */
  lemma EncodedPayloadDecodes(f: Field, data: seq<byte>, at: nat)
    requires Canonical(f)
    requires at + |EncodePayload(f)| <= |data| && data[at..at + |EncodePayload(f)|] == EncodePayload(f)
    ensures at + f.ftype.Length() <= |data|
    ensures f.ftype == STRING ==> at + 1 + data[at] <= |data|
    ensures DecodeField(f.ftype, f.id, data, at) == f
  {
    Pow256Values();
    match f.ftype {
      case FLAG =>
      case U8 =>
        assert data[at] == data[at..at + 1][0];
      case U16 =>
        ReadLittleEndian(data, at, IntOrZero(f), 2);
      case U32 =>
        ReadLittleEndian(data, at, IntOrZero(f), 4);
      case U64 =>
        EncodedU64Decodes(f, data, at);
      case STRING =>
        SplitSlice(data, at, [|f.rawStr|], f.rawStr);
        assert data[at] == data[at..at + 1][0];
    }
  }

  /** Unpacking from `i` the packed bytes of `fields` gives back `fields`. */
  lemma {:induction false} DecodeEncodedFrom(data: seq<byte>, i: nat, fields: seq<Field>)
    requires AllCanonical(fields)
    requires i <= |data| && data[i..] == EncodeFields(fields)
    ensures DecodeFrom(data, i) == Ok(fields)
    decreases |fields|
  {
    if fields != [] {
      var f, rest := fields[0], fields[1..];
      CanonicalUncons(fields);
      var j := i + |EncodeField(f)|;
      assert j == i + FieldSize(f);
      SplitSuffix(data, i, EncodeField(f), EncodeFields(rest));
      DecodeEncodeField(f, data, i);
      DecodeEncodedFrom(data, j, rest);
      DecodeFromCons(data, i, j, f, rest);
    }
  }

  /** The first field of a canonical list, and the rest. */
  lemma CanonicalUncons(fields: seq<Field>)
    requires AllCanonical(fields) && fields != []
    ensures Canonical(fields[0]) && AllCanonical(fields[1..]) && AllPackable(fields)
    ensures EncodeFields(fields) == EncodeField(fields[0]) + EncodeFields(fields[1..])
    ensures fields == [fields[0]] + fields[1..]
  {
  }

  /** The field at `i`, then what unpacks after it, is what unpacks from `i`. */
  lemma DecodeFromCons(data: seq<byte>, i: nat, j: nat, f: Field, rest: seq<Field>)
    requires i < |data| && DecodeHead(data, i) == Ok(f)
    requires j == i + FieldSize(f) <= |data| && DecodeFrom(data, j) == Ok(rest)
    ensures DecodeFrom(data, i) == Ok([f] + rest)
  {
  }

  /** unpack(pack(h)) gives back the fields of h, in order. */
  lemma PackUnpack(fields: seq<Field>)
    requires AllCanonical(fields)
    ensures Decode(EncodeFields(fields)) == Ok(fields)
  {
    var data := EncodeFields(fields);
    assert data[0..] == data;
    DecodeEncodedFrom(data, 0, fields);
  }

  /** The packed bytes of the first `j` fields are the first bytes of the packed header. */
  lemma {:induction false} EncodeFieldsPrefix(fields: seq<Field>, j: nat)
    requires AllPackable(fields) && j <= |fields|
    ensures AllPackable(fields[..j])
    ensures ByteLength(fields[..j]) <= ByteLength(fields)
    ensures EncodeFields(fields)[..ByteLength(fields[..j])] == EncodeFields(fields[..j])
    decreases j
  {
    if j == 0 {
      assert fields[..j] == [];
    } else {
      var f, rest := fields[0], fields[1..];
      assert AllPackable(rest) by {
        forall i | 0 <= i < |rest| ensures Packable(rest[i]) {
          assert rest[i] == fields[i + 1];
        }
      }
      EncodeFieldsPrefix(rest, j - 1);
      var head := fields[..j];
      assert head[0] == f && head[1..] == rest[..j - 1];
      var a, b := EncodeField(f), EncodeFields(rest);
      assert EncodeFields(fields) == a + b;
      assert EncodeFields(head) == a + EncodeFields(rest[..j - 1]);
      assert (a + b)[..|a| + ByteLength(rest[..j - 1])] == a + b[..ByteLength(rest[..j - 1])];
    }
  }

  /** A packed field cut short after its descriptor byte is a truncated header. */
  lemma HeadCut(f: Field, data: seq<byte>, i: nat)
    requires Canonical(f)
    requires i < |data| && |data| - i < FieldSize(f)
    requires data[i..] == EncodeField(f)[..|data| - i]
    ensures DecodeHead(data, i) == Err(TruncatedHeader)
  {
    assert data[i] == data[i..][0] == EncodeField(f)[0] == Descriptor(f);
    DescriptorDecodes(f, data[i]);
    if f.ftype == STRING && i + 2 <= |data| {
      assert data[i + 1] == data[i..][1] == EncodeField(f)[1] == |f.rawStr|;
    }
  }

  /**
   * `t` is the packing of `fields` cut short strictly inside one of them:
   * whole fields, then a non-empty proper prefix of the next one.
   */
  ghost predicate CutOf(fields: seq<Field>, t: seq<byte>)
    decreases |fields|
  {
    && fields != [] && Packable(fields[0])
    && (|| (0 < |t| < FieldSize(fields[0]) && t == EncodeField(fields[0])[..|t|])
        || (FieldSize(fields[0]) < |t| && t[..FieldSize(fields[0])] == EncodeField(fields[0])
            && CutOf(fields[1..], t[FieldSize(fields[0])..])))
  }

  /** The size of the first `j` fields: the first field's, then the size of the next `j - 1`. */
  lemma ByteLengthCons(fields: seq<Field>, j: nat)
    requires 0 < j <= |fields|
    ensures ByteLength(fields[..j]) == FieldSize(fields[0]) + ByteLength(fields[1..][..j - 1])
  {
    assert fields[..j][0] == fields[0] && fields[..j][1..] == fields[1..][..j - 1];
  }

  /** Packed fields cut between the start and the end of field `j` are such a cut. */
  lemma {:induction false} CutOfEncoded(fields: seq<Field>, j: nat, t: seq<byte>)
    requires AllCanonical(fields) && j < |fields|
    requires ByteLength(fields[..j]) < |t| < ByteLength(fields[..j + 1])
    requires |t| <= |EncodeFields(fields)| && t == EncodeFields(fields)[..|t|]
    ensures CutOf(fields, t)
    decreases j
  {
    var f := fields[0];
    CanonicalUncons(fields);
    var x, y := EncodeField(f), EncodeFields(fields[1..]);
    assert |x| == FieldSize(f);
    ByteLengthCons(fields, j + 1);
    if j == 0 {
      assert fields[..j] == [] && fields[1..][..j] == [];
      assert t == x[..|t|];
    } else {
      ByteLengthCons(fields, j);
      assert t[0..] == t;
      CutParts(t, 0, x, y);
      assert t[..|x|] == x;
      CutOfEncoded(fields[1..], j - 1, t[|x|..]);
    }
  }

  /** Unpacking from `i` packed fields cut short inside one of them stops with "Truncated header". */
  lemma {:induction false} DecodeCutFrom(data: seq<byte>, i: nat, fields: seq<Field>)
    requires AllCanonical(fields) && i <= |data| && CutOf(fields, data[i..])
    ensures DecodeFrom(data, i) == Err(TruncatedHeader)
    decreases |fields|
  {
    var f := fields[0];
    if |data| - i < FieldSize(f) {
      HeadCut(f, data, i);
      DecodeFromFails(data, i, TruncatedHeader);
    } else {
      var next := i + FieldSize(f);
      assert DecodeHead(data, i) == Ok(f) by {
        assert data[i..i + FieldSize(f)] == data[i..][..FieldSize(f)];
        DecodeEncodeField(f, data, i);
      }
      assert DecodeFrom(data, next) == Err(TruncatedHeader) by {
        CanonicalUncons(fields);
        assert data[next..] == data[i..][FieldSize(f)..];
        DecodeCutFrom(data, next, fields[1..]);
      }
      DecodeFromFailsLater(data, i, f, next, TruncatedHeader);
    }
  }

  /** A field that cannot be read stops unpack with its error. */
  lemma DecodeFromFails(data: seq<byte>, i: nat, e: Error)
    requires i < |data| && DecodeHead(data, i) == Err(e)
    ensures DecodeFrom(data, i) == Err(e)
  {
  }

  /** A failure after a field that reads is the failure of unpack. */
  lemma DecodeFromFailsLater(data: seq<byte>, i: nat, f: Field, next: nat, e: Error)
    requires i < |data| && DecodeHead(data, i) == Ok(f)
    requires next == i + FieldSize(f) <= |data| && DecodeFrom(data, next) == Err(e)
    ensures DecodeFrom(data, i) == Err(e)
  {
  }

  /**
   * A packed header cut short inside one of its fields does not unpack: it
   * fails with "Truncated header", whether the cut falls in a fixed-width
   * payload, in a string's length byte or in the string itself.
   */
  lemma HeaderCut(fields: seq<Field>, j: nat, k: nat)
    requires AllCanonical(fields) && j < |fields|
    requires ByteLength(fields[..j]) < k < ByteLength(fields[..j + 1])
    ensures k < |EncodeFields(fields)| && Decode(EncodeFields(fields)[..k]) == Err(TruncatedHeader)
  {
    EncodeFieldsPrefix(fields, j + 1);
    var data := EncodeFields(fields)[..k];
    CutOfEncoded(fields, j, data);
    assert data[0..] == data;
    DecodeCutFrom(data, 0, fields);
  }

  /** A packed header cut between two fields unpacks, without complaint, to the fields before the cut. */
  lemma HeaderCutAtField(fields: seq<Field>, j: nat)
    requires AllCanonical(fields) && j <= |fields|
    ensures ByteLength(fields[..j]) <= |EncodeFields(fields)|
    ensures Decode(EncodeFields(fields)[..ByteLength(fields[..j])]) == Ok(fields[..j])
  {
    EncodeFieldsPrefix(fields, j);
    assert AllCanonical(fields[..j]) by {
      forall i | 0 <= i < j ensures Canonical(fields[..j][i]) {
        assert fields[..j][i] == fields[i];
      }
    }
    PackUnpack(fields[..j]);
  }

  /** A field read by unpack is canonical and its payload packs back to the bytes it was read from. */
  lemma DecodedFieldEncodes(t: FieldType, id: nat, data: seq<byte>, at: nat)
    requires id < 16
    requires at + t.Length() <= |data|
    requires t == STRING ==> at + 1 + data[at] <= |data|
    ensures var f := DecodeField(t, id, data, at);
            && Canonical(f)
            && at + FieldSize(f) - 1 <= |data|
            && EncodePayload(f) == data[at..at + FieldSize(f) - 1]
  {
    match t {
      case FLAG =>
      case U8 => DecodedUIntEncodes(t, id, data, at);
      case U16 => DecodedUIntEncodes(t, id, data, at);
      case U32 => DecodedUIntEncodes(t, id, data, at);
      case U64 => DecodedU64Encodes(id, data, at);
      case STRING => DecodedStringEncodes(id, data, at);
    }
  }

  /** The U8, U16 and U32 cases of DecodedFieldEncodes. */
  lemma DecodedUIntEncodes(t: FieldType, id: nat, data: seq<byte>, at: nat)
    requires t == U8 || t == U16 || t == U32
    requires id < 16 && at + t.Length() <= |data|
    ensures var f := DecodeField(t, id, data, at);
            && Canonical(f)
            && EncodePayload(f) == data[at..at + t.Length()]
  {
    var w := t.Length();
    var v := ReadUIntLE(data, at, w);
    ReadUIntLEBound(data, at, w);
    ReadUIntLERoundTrip(data, at, w);
    if t == U8 {
      assert v == data[at];
    }
    var f := DecodeField(t, id, data, at);
    assert f == Field(t, id, Some(v), None, []);
    assert EncodePayload(f) == LittleEndian(v, w);
  }

  /** The STRING case of DecodedFieldEncodes: the length byte, then the bytes it counts. */
  lemma DecodedStringEncodes(id: nat, data: seq<byte>, at: nat)
    requires id < 16 && at + 1 <= |data| && at + 1 + data[at] <= |data|
    ensures var f := DecodeField(STRING, id, data, at);
            && Canonical(f)
            && EncodePayload(f) == data[at..at + 1 + data[at]]
  {
    assert data[at..at + 1 + data[at]] == [data[at]] + data[at + 1..at + 1 + data[at]];
  }

  /** The U64 case of DecodedFieldEncodes: the two words read back as the two words written. */
  lemma DecodedU64Encodes(id: nat, data: seq<byte>, at: nat)
    requires id < 16 && at + 8 <= |data|
    ensures var f := DecodeField(U64, id, data, at);
            && Canonical(f)
            && EncodePayload(f) == data[at..at + 8]
  {
    var f := DecodeField(U64, id, data, at);
    var lo, hi := ReadUIntLE(data, at, 4), ReadUIntLE(data, at + 4, 4);
    Pow256Values();
    ReadUIntLEBound(data, at, 4);
    ReadUIntLEBound(data, at + 4, 4);
    Join64Split(lo, hi);
    assert Low32(f) == lo && High32(f) == hi;
    ReadUIntLERoundTrip(data, at, 4);
    ReadUIntLERoundTrip(data, at + 4, 4);
    assert data[at..at + 8] == data[at..at + 4] + data[at + 4..at + 8];
  }

  /** The field unpack reads at `i` packs back to the bytes it was read from. */
  lemma HeadEncodes(data: seq<byte>, i: nat)
    requires i < |data| && DecodeHead(data, i).Ok?
    ensures var f := DecodeHead(data, i).value;
            Canonical(f) && EncodeField(f) == data[i..i + FieldSize(f)]
  {
    var t := TypeOfCode(data[i] / 16).value;
    DecodedFieldEncodes(t, data[i] % 16, data, i + 1);
    var f := DecodeHead(data, i).value;
    assert data[i..i + FieldSize(f)] == [data[i]] + data[i + 1..i + FieldSize(f)];
  }

  /** What unpack reads from `i` on packs back to the bytes from `i` on. */
  lemma {:induction false} EncodeDecodedFrom(data: seq<byte>, i: nat, fields: seq<Field>)
    requires i <= |data| && DecodeFrom(data, i) == Ok(fields)
    ensures AllCanonical(fields)
    ensures EncodeFields(fields) == data[i..]
    decreases |data| - i
  {
    if i < |data| {
      DecodeFromStep(data, i);
      var f := DecodeHead(data, i).value;
      var j := i + FieldSize(f);
      var rest := DecodeFrom(data, j).value;
      HeadEncodes(data, i);
      EncodeDecodedFrom(data, j, rest);
      EncodeFieldsCons(f, rest);
      JoinSuffix(data, i, j);
    }
  }

  /** Unpacking from `i` succeeds only as the field at `i`, then what unpacks from the end of that field. */
  lemma DecodeFromStep(data: seq<byte>, i: nat)
    requires i < |data| && DecodeFrom(data, i).Ok?
    ensures DecodeHead(data, i).Ok?
    ensures var j := i + FieldSize(DecodeHead(data, i).value);
            && j <= |data|
            && DecodeFrom(data, j).Ok?
            && DecodeFrom(data, i).value == [DecodeHead(data, i).value] + DecodeFrom(data, j).value
  {
  }

  lemma EncodeFieldsCons(f: Field, rest: seq<Field>)
    requires Canonical(f) && AllCanonical(rest)
    ensures AllCanonical([f] + rest) && AllPackable([f] + rest)
    ensures EncodeFields([f] + rest) == EncodeField(f) + EncodeFields(rest)
  {
    assert ([f] + rest)[1..] == rest;
  }

  /** pack(unpack(b)) gives back the bytes b: unpack accepts only canonical encodings. */
  lemma UnpackPack(data: seq<byte>)
    requires Decode(data).Ok?
    ensures AllCanonical(Decode(data).value)
    ensures EncodeFields(Decode(data).value) == data
  {
    EncodeDecodedFrom(data, 0, Decode(data).value);
    assert data[0..] == data;
  }

  /** The quirk of addInt above 2^32: the value sits in `int`, which the U64 branch of packInto never reads. */
  lemma LargeAddIntPacksAsZero(id: int, n: nat)
    requires 0 <= id <= 15 && n >= 0x1_0000_0000
    ensures IntField(id, n) == Field(U64, id, Some(n), None, [])
    ensures var bytes := EncodeField(IntField(id, n));
            && |bytes| == 9 && bytes[0] == 0x30 + id
            && (forall k :: 1 <= k < 9 ==> bytes[k] == 0)
            && Decode(bytes) == Ok([Field(U64, id, None, Some(0), [])])
  {
    Pow256Values();
    var f := Field(U64, id, Some(n), None, []);
    assert Low32(f) == 0 && High32(f) == 0;
    var zeros := LittleEndian(0, 4);
    LittleEndianOfZero(4);
    var bytes := EncodeField(f);
    assert bytes == [0x30 + id] + zeros + zeros;
    assert bytes[1..5] == zeros && bytes[5..9] == zeros;
    ReadLittleEndian(bytes, 1, 0, 4);
    ReadLittleEndian(bytes, 5, 0, 4);
    var g := Field(U64, id, None, Some(0), []);
    assert DecodeHead(bytes, 0) == Ok(g);
    assert DecodeFrom(bytes, 9) == Ok([]);
    assert [g] + [] == [g];
  }

  lemma {:induction false} LittleEndianOfZero(width: nat)
    ensures forall k :: 0 <= k < width ==> LittleEndian(0, width)[k] == 0
  {
    if width > 0 {
      LittleEndianOfZero(width - 1);
    }
  }

  /** `new Header().addInt(0, 150)` packs to `00 96`, and unpacks to a U8 of 150. */
  lemma AddInt150()
    ensures EncodeField(IntField(0, 150)) == [0x00, 0x96]
    ensures Decode([0x00, 0x96]) == Ok([IntField(0, 150)])
    ensures GetInt([IntField(0, 150)], 0) == Some(150)
  {
    var bytes: seq<byte> := [0x00, 0x96];
    assert DecodeHead(bytes, 0) == Ok(IntField(0, 150));
    assert DecodeFrom(bytes, 2) == Ok([]);
    assert [IntField(0, 150)] + [] == [IntField(0, 150)];
  }

  // ---------------------------------------------------------------------
  // The mutable header

  class Header {
    var fields: seq<Field>

    ghost predicate Valid()
      reads this
    {
      AllStored(fields)
    }

    constructor ()
      ensures Valid() && fields == []
    {
      fields := [];
    }

    method AddFlag(id: int)
      requires Valid()
      modifies this
      ensures Valid()
      ensures fields == old(fields) + [Field(FLAG, id, None, None, [])]
    {
      fields := fields + [Field(FLAG, id, None, None, [])];
    }

    method AddInt(id: int, n: int) returns (r: Result<()>)
      requires Valid()
      modifies this
      ensures Valid()
      ensures n < 0 ==> r == Err(Negative) && fields == old(fields)
      ensures n >= 0 ==> r == Ok(()) && fields == old(fields) + [IntField(id, n)]
    {
      if n < 0 {
        return Err(Negative);
      }
      Pow256Values();
      if n < 256 {
        fields := fields + [Field(U8, id, Some(n), None, [])];
      } else if n < 65536 {
        fields := fields + [Field(U16, id, Some(n), None, [])];
      } else if n < 0x1_0000_0000 {
        fields := fields + [Field(U32, id, Some(n), None, [])];
      } else {
        fields := fields + [Field(U64, id, Some(n), None, [])];
      }
      r := Ok(());
    }

    method AddBigInt(id: int, n: int) returns (r: Result<()>)
      requires Valid()
      modifies this
      ensures Valid()
      ensures n < 0 ==> r == Err(Negative) && fields == old(fields)
      ensures 0 <= n <= MASK_32 ==> r == Ok(()) && fields == old(fields) + [IntField(id, n)]
      ensures n > MASK_32 ==> r == Ok(()) && fields == old(fields) + [Field(U64, id, None, Some(n), [])]
    {
      if n <= MASK_32 {
        r := AddInt(id, n);
        return;
      }
      fields := fields + [Field(U64, id, None, Some(n), [])];
      r := Ok(());
    }

    method AddString(id: int, s: seq<byte>)
      requires Valid()
      modifies this
      ensures Valid()
      ensures fields == old(fields) + [Field(STRING, id, None, None, s)]
    {
      fields := fields + [Field(STRING, id, None, None, s)];
    }

    /**
     * `packInto`: checks the total size and the room in the buffer, then
     * writes the fields one after another from `offset`, failing at the first
     * field whose id is out of range or whose string does not fit its length
     * byte. What was written before the failure stays written.
     */
    method PackInto(buffer: array<byte>, offset: nat) returns (r: Result<()>)
      requires Valid()
      modifies buffer
      ensures ByteLength(fields) > MAX_HEADER_BYTES ==>
                r == Err(HeaderTooLarge(ByteLength(fields))) && buffer[..] == old(buffer[..])
      ensures ByteLength(fields) <= MAX_HEADER_BYTES && buffer.Length < offset + ByteLength(fields) ==>
                r == Err(BufferTooSmall) && buffer[..] == old(buffer[..])
      ensures ByteLength(fields) <= MAX_HEADER_BYTES && offset + ByteLength(fields) <= buffer.Length
              && FirstBad(fields) == |fields| ==>
                && AllPackable(fields)
                && r == Ok(())
                && buffer[..] == Splice(old(buffer[..]), offset, EncodeFields(fields))
      ensures ByteLength(fields) <= MAX_HEADER_BYTES && offset + ByteLength(fields) <= buffer.Length
              && FirstBad(fields) < |fields| ==>
                var k := FirstBad(fields);
                && AllPackable(fields[..k])
                && offset + |EncodeFields(fields[..k]) + PartialWrite(fields[k])| <= buffer.Length
                && r == Err(FieldError(fields[k]).value)
                && buffer[..] == Splice(old(buffer[..]), offset, EncodeFields(fields[..k]) + PartialWrite(fields[k]))
    {
      var bufferLen := ByteLength(fields);
      if bufferLen > MAX_HEADER_BYTES {
        return Err(HeaderTooLarge(bufferLen));
      }
      if buffer.Length < offset + bufferLen {
        return Err(BufferTooSmall);
      }
      r := PackFields(buffer, offset, fields);
      if FirstBad(fields) == |fields| {
        PackedAllGood(fields);
      } else {
        PackedFirstBad(fields);
      }
    }

    /** `pack`: a buffer of exactly `byteLength` bytes, packed from offset 0. */
    method Pack() returns (r: Result<seq<byte>>)
      requires Valid()
      ensures ByteLength(fields) > MAX_HEADER_BYTES ==> r == Err(HeaderTooLarge(ByteLength(fields)))
      ensures ByteLength(fields) <= MAX_HEADER_BYTES && FirstBad(fields) < |fields| ==>
                r == Err(FieldError(fields[FirstBad(fields)]).value)
      ensures ByteLength(fields) <= MAX_HEADER_BYTES && FirstBad(fields) == |fields| ==>
                && AllPackable(fields)
                && r == Ok(EncodeFields(fields))
                && |r.value| == ByteLength(fields)
    {
      var buffer := new byte[ByteLength(fields)];
      ghost var before := buffer[..];
      var res := PackInto(buffer, 0);
      if res.Err? {
        return Err(res.error);
      }
      assert Splice(before, 0, EncodeFields(fields)) == EncodeFields(fields);
      return Ok(buffer[..]);
    }
  }

  lemma SpliceOne(s: seq<byte>, offset: nat, done: seq<byte>, b: byte)
    requires offset + |done| < |s|
    ensures Splice(s, offset, done)[offset + |done| := b] == Splice(s, offset, done + [b])
  {
  }

  lemma SpliceFirst(s: seq<byte>, at: nat, b: byte)
    requires at < |s|
    ensures s[at := b] == Splice(s, at, [b])
  {
    assert s[at := b] == s[..at] + [b] + s[at + 1..];
  }

  /**
   * What packInto's loop writes from `offset`: each field in turn, up to and
   * including the descriptor of the first field it rejects.
   */
  function PackedBytes(fields: seq<Field>): (r: seq<byte>)
    requires AllStored(fields)
    ensures |r| <= ByteLength(fields)
  {
    if fields == [] then []
    else if FieldError(fields[0]).Some? then PartialWrite(fields[0])
    else EncodeField(fields[0]) + PackedBytes(fields[1..])
  }

  /** What packInto's loop reports: the error of the first field it rejects. */
  function PackedResult(fields: seq<Field>): Result<()>
  {
    if fields == [] then Ok(())
    else if FieldError(fields[0]).Some? then Err(FieldError(fields[0]).value)
    else PackedResult(fields[1..])
  }

  /** With no rejected field, the loop writes every field's encoding and succeeds. */
  lemma {:induction false} PackedAllGood(fields: seq<Field>)
    requires AllStored(fields) && FirstBad(fields) == |fields|
    ensures AllPackable(fields)
    ensures PackedResult(fields) == Ok(())
    ensures PackedBytes(fields) == EncodeFields(fields)
  {
    if fields != [] {
      PackedCons(fields);
      PackedAllGood(fields[1..]);
      PackableCons(fields[0], fields[1..]);
      assert [fields[0]] + fields[1..] == fields;
    }
  }

  /**
   * With a rejected field at k, the loop writes the fields before it, then
   * that field's partial write, and reports that field's error.
   */
  lemma {:induction false} PackedFirstBad(fields: seq<Field>)
    requires AllStored(fields) && FirstBad(fields) < |fields|
    ensures AllPackable(fields[..FirstBad(fields)])
    ensures PackedResult(fields) == Err(FieldError(fields[FirstBad(fields)]).value)
    ensures PackedBytes(fields) == EncodeFields(fields[..FirstBad(fields)]) + PartialWrite(fields[FirstBad(fields)])
  {
    var k := FirstBad(fields);
    if FieldError(fields[0]).None? {
      var f, tail := fields[0], fields[1..];
      PackedCons(fields);
      PackedFirstBad(tail);
      PrefixCons(fields, k);
      PackableCons(f, tail[..k - 1]);
      AppendAssoc(EncodeField(f), EncodeFields(tail[..k - 1]), PartialWrite(fields[k]));
    } else {
      assert fields[..0] == [];
    }
  }

  /** A field that passes packInto's checks, seen from the front of the list. */
  lemma PackedCons(fields: seq<Field>)
    requires AllStored(fields) && fields != [] && FieldError(fields[0]).None?
    ensures Packable(fields[0]) && AllStored(fields[1..])
    ensures FirstBad(fields) == 1 + FirstBad(fields[1..])
    ensures PackedBytes(fields) == EncodeField(fields[0]) + PackedBytes(fields[1..])
    ensures PackedResult(fields) == PackedResult(fields[1..])
  {
  }

  lemma PrefixCons(fields: seq<Field>, k: nat)
    requires 0 < k < |fields|
    ensures fields[1..][k - 1] == fields[k]
    ensures fields[..k] == [fields[0]] + fields[1..][..k - 1]
  {
  }

  lemma PackableCons(f: Field, rest: seq<Field>)
    requires Packable(f) && AllPackable(rest)
    ensures AllPackable([f] + rest)
    ensures EncodeFields([f] + rest) == EncodeField(f) + EncodeFields(rest)
  {
    assert ([f] + rest)[1..] == rest;
  }

  /** packInto's loop: the fields one after another from `offset`, stopping at the first that fails. */
  method PackFields(buffer: array<byte>, offset: nat, fields: seq<Field>) returns (r: Result<()>)
    requires AllStored(fields)
    requires offset + ByteLength(fields) <= buffer.Length
    modifies buffer
    ensures r == PackedResult(fields)
    ensures buffer[..] == Splice(old(buffer[..]), offset, PackedBytes(fields))
  {
    ghost var before := buffer[..];
    ghost var written: seq<byte> := [];
    var n := offset;
    var i := 0;
    assert fields[0..] == fields;
    while i < |fields|
      invariant 0 <= i <= |fields|
      invariant AllStored(fields[i..])
      invariant PackedBytes(fields) == written + PackedBytes(fields[i..])
      invariant PackedResult(fields) == PackedResult(fields[i..])
      invariant n == offset + |written| && n + ByteLength(fields[i..]) == offset + ByteLength(fields)
      invariant buffer[..] == Splice(before, offset, written)
    {
      PackedStep(fields, i);
      var err := PackNext(buffer, n, fields[i], before, offset, written);
      if err.Some? {
        return Err(err.value);
      }
      AppendAssoc(written, EncodeField(fields[i]), PackedBytes(fields[i + 1..]));
      written := written + EncodeField(fields[i]);
      n := n + FieldSize(fields[i]);
      i := i + 1;
    }
    assert written + [] == written;
    r := Ok(());
  }

  /** One pass of packInto's loop, seen from everything written since `offset`. */
  method PackNext(buffer: array<byte>, n: nat, f: Field, ghost before: seq<byte>, ghost offset: nat, ghost written: seq<byte>)
      returns (err: Option<Error>)
    requires Stored(f) && n == offset + |written|
    requires n + FieldSize(f) <= buffer.Length == |before|
    requires buffer[..] == Splice(before, offset, written)
    modifies buffer
    ensures err == FieldError(f)
    ensures err.Some? ==> buffer[..] == Splice(before, offset, written + PartialWrite(f))
    ensures err.None? ==> buffer[..] == Splice(before, offset, written + EncodeField(f))
  {
    err := PackField(buffer, n, f);
    if err.Some? {
      SpliceTwice(before, offset, written, PartialWrite(f));
    } else {
      SpliceTwice(before, offset, written, EncodeField(f));
    }
  }

  /** One pass of packInto's loop, seen from the field at `i`. */
  lemma PackedStep(fields: seq<Field>, i: nat)
    requires i < |fields| && AllStored(fields[i..])
    ensures AllStored(fields[i + 1..])
    ensures ByteLength(fields[i..]) == FieldSize(fields[i]) + ByteLength(fields[i + 1..])
    ensures FieldError(fields[i]).Some? ==>
              && PackedBytes(fields[i..]) == PartialWrite(fields[i])
              && PackedResult(fields[i..]) == Err(FieldError(fields[i]).value)
    ensures FieldError(fields[i]).None? ==>
              && PackedBytes(fields[i..]) == EncodeField(fields[i]) + PackedBytes(fields[i + 1..])
              && PackedResult(fields[i..]) == PackedResult(fields[i + 1..])
  {
    assert fields[i..][0] == fields[i];
    assert fields[i..][1..] == fields[i + 1..];
  }

  /**
   * The body of packInto's loop for one field: the id check, the descriptor,
   * then the payload by type. Fails, after the descriptor, when a string is
   * longer than its length byte can say.
   */
  method PackField(buffer: array<byte>, at: nat, f: Field) returns (err: Option<Error>)
    requires Stored(f)
    requires at + FieldSize(f) <= buffer.Length
    modifies buffer
    ensures err == FieldError(f)
    ensures err.Some? ==> buffer[..] == Splice(old(buffer[..]), at, PartialWrite(f))
    ensures err.None? ==> buffer[..] == Splice(old(buffer[..]), at, EncodeField(f))
  {
    if f.id > 15 || f.id < 0 {
      assert Splice(buffer[..], at, []) == buffer[..];
      return Some(IdOutOfRange(f.id));
    }
    buffer[at] := Descriptor(f);
    assert buffer[..] == old(buffer[..])[at := Descriptor(f)];
    SpliceFirst(old(buffer[..]), at, Descriptor(f));
    if f.ftype == STRING && |f.rawStr| > 255 {
      return Some(StringTooLong(|f.rawStr|));
    }
    PackPayload(buffer, at + 1, f);
    SpliceTwice(old(buffer[..]), at, [Descriptor(f)], EncodePayload(f));
    return None;
  }

  /** The payload half of packInto's loop body, by field type. */
  method PackPayload(buffer: array<byte>, at: nat, f: Field)
    requires Packable(f)
    requires at + |EncodePayload(f)| <= buffer.Length
    modifies buffer
    ensures buffer[..] == Splice(old(buffer[..]), at, EncodePayload(f))
  {
    match f.ftype {
      case FLAG =>
        assert Splice(buffer[..], at, []) == buffer[..];
      case U8 =>
        WriteUIntLE(buffer, at, IntOrZero(f), 1);
      case U16 =>
        WriteUIntLE(buffer, at, IntOrZero(f), 2);
      case U32 =>
        WriteUIntLE(buffer, at, IntOrZero(f), 4);
      case U64 =>
        WriteTwo(buffer, at, LittleEndian(Low32(f), 4), LittleEndian(High32(f), 4), Low32(f), High32(f));
      case STRING =>
        WriteString(buffer, at, f.rawStr);
    }
  }

  /** The U64 case: the low word, then the high word, four little-endian bytes each. */
  method WriteTwo(buffer: array<byte>, at: nat, lo: seq<byte>, hi: seq<byte>, low: nat, high: nat)
    requires lo == LittleEndian(low, 4) && hi == LittleEndian(high, 4)
    requires at + 8 <= buffer.Length
    modifies buffer
    ensures buffer[..] == Splice(old(buffer[..]), at, lo + hi)
  {
    WriteUIntLE(buffer, at, low, 4);
    WriteUIntLE(buffer, at + 4, high, 4);
    SpliceTwice(old(buffer[..]), at, lo, hi);
  }

  /** The STRING case: the length byte, then the bytes of the string. */
  method WriteString(buffer: array<byte>, at: nat, str: seq<byte>)
    requires |str| <= 255
    requires at + 1 + |str| <= buffer.Length
    modifies buffer
    ensures buffer[..] == Splice(old(buffer[..]), at, [|str|] + str)
  {
    WriteUIntLE(buffer, at, |str|, 1);
    assert LittleEndian(|str|, 1) == [|str|];
    WriteBytes(buffer, at + 1, str);
    SpliceTwice(old(buffer[..]), at, [|str|], str);
  }

  /** `writeUInt8` / `writeUInt16LE` / `writeUInt32LE`: `width` little-endian bytes of `v` at `at`. */
  method WriteUIntLE(buffer: array<byte>, at: nat, v: nat, width: nat)
    requires at + width <= buffer.Length
    modifies buffer
    ensures buffer[..] == Splice(old(buffer[..]), at, LittleEndian(v, width))
  {
    ghost var all := LittleEndian(v, width);
    var k := 0;
    var rest := v;
    while k < width
      invariant 0 <= k <= width
      invariant all[k..] == LittleEndian(rest, width - k)
      invariant buffer[..] == Splice(old(buffer[..]), at, all[..k])
    {
      assert all[k] == rest % 256;
      buffer[at + k] := rest % 256;
      SpliceOne(old(buffer[..]), at, all[..k], rest % 256);
      assert all[..k] + [all[k]] == all[..k + 1];
      assert all[k + 1..] == all[k..][1..];
      rest := rest / 256;
      k := k + 1;
    }
    assert all[..k] == all;
  }

  /** `Buffer.copy`: the bytes `bs` at `at`. */
  method WriteBytes(buffer: array<byte>, at: nat, bs: seq<byte>)
    requires at + |bs| <= buffer.Length
    modifies buffer
    ensures buffer[..] == Splice(old(buffer[..]), at, bs)
  {
    var k := 0;
    while k < |bs|
      invariant 0 <= k <= |bs|
      invariant buffer[..] == Splice(old(buffer[..]), at, bs[..k])
    {
      buffer[at + k] := bs[k];
      SpliceOne(old(buffer[..]), at, bs[..k], bs[k]);
      assert bs[..k] + [bs[k]] == bs[..k + 1];
      k := k + 1;
    }
    assert bs[..k] == bs;
  }
}
