/**
 * The Avro wire envelope of encoder.go: a 5-byte prefix (a zero magic byte, then the
 * schema id as a big-endian unsigned 32-bit value) followed by the Avro binary payload.
 *
 * The goavro codec, json.Marshal and the application's JSON decoder are foreign code:
 * they appear here as function values carried by the compiled schema (Codec), by the
 * Subject, or passed in by the caller.
 */
module Envelope {
  import opened Wrappers

  newtype byte = x: int | 0 <= x < 0x100

  const Two32: int := 0x1_0000_0000

  /** goavro's in-memory ("native") Avro value. */
  type Native(!new)

  /** The application's domain value (Go's interface{}). */
  type DomainValue(!new)

  datatype Error =
    | MalformedEnvelope          // fewer than 5 bytes
    | UnknownSchemaId(id: int)   // the envelope's id is not in the registry's idMap
    | MissingDecoder(id: int)    // the resolved subject has no JSON decoder
    | Foreign(msg: string)       // an error returned by a collaborator, passed on as is

  /** The application-supplied decoder from Avro JSON text to a domain value. */
  type JsonDecoder = seq<byte> -> Result<DomainValue, Error>

  /** A compiled goavro codec: its four conversions (the unread remainder goavro also returns is dropped). */
  datatype Codec = Codec(
    nativeFromTextual: seq<byte> -> Result<Native, Error>,
    binaryFromNative: (seq<byte>, Native) -> Result<seq<byte>, Error>,
    nativeFromBinary: seq<byte> -> Result<Native, Error>,
    textualFromNative: Native -> Result<seq<byte>, Error>)

  /** goavro.NewCodec: compiling schema text, which may fail. */
  type Compiler = string -> Result<Codec, Error>

  /** A registered schema version; jsonDecoder is None where Go holds a nil function. */
  datatype Subject = Subject(schema: string, subject: string, version: int, id: int, jsonDecoder: Option<JsonDecoder>)

  /** An Encoder is a subject with its compiled codec; its registry pointer is the idMap passed to Decode. */
  datatype Encoder = Encoder(subject: Subject, codec: Codec)

  // ----- 32-bit big-endian framing -----

  /** Go's uint32(id) conversion: keeps the low 32 bits of the two's-complement value. */
  function Uint32(id: int): (u: int)
    ensures 0 <= u < Two32
    ensures 0 <= id < Two32 ==> u == id
    ensures (id - u) % Two32 == 0
  {
    id % Two32
  }

  /** The four bytes binary.BigEndian.PutUint32 writes for u, most significant first. */
  function BigEndian(u: int): seq<byte>
    requires 0 <= u < Two32
  {
    [(u / 0x100_0000) as byte, (u / 0x1_0000 % 0x100) as byte, (u / 0x100 % 0x100) as byte, (u % 0x100) as byte]
  }

  /** binary.BigEndian.Uint32: the value of four bytes read most significant first. */
  function ReadUint32(b: seq<byte>): (u: int)
    requires |b| == 4
    ensures 0 <= u < Two32
  {
    b[0] as int * 0x100_0000 + b[1] as int * 0x1_0000 + b[2] as int * 0x100 + b[3] as int
  }

  /** Reading back what PutUint32 wrote gives the value written. */
  lemma {:induction false} BigEndianRoundTrip(u: int)
    requires 0 <= u < Two32
    ensures |BigEndian(u)| == 4 && ReadUint32(BigEndian(u)) == u
  {
    var b := BigEndian(u);
    var q3, r3 := u / 0x100, u % 0x100;
    var q2, r2 := q3 / 0x100, q3 % 0x100;
    var q1, r1 := q2 / 0x100, q2 % 0x100;
    assert u / 0x1_0000 == q2;
    assert u / 0x100_0000 == q1;
    assert b[0] as int == q1 && b[1] as int == r1 && b[2] as int == r2 && b[3] as int == r3;
    assert u == q3 * 0x100 + r3 && q3 == q2 * 0x100 + r2 && q2 == q1 * 0x100 + r1;
  }

  /** Writing what Uint32 read gives the same four bytes: the framing is a bijection on 4 bytes. */
  lemma {:induction false} ReadUint32RoundTrip(b: seq<byte>)
    requires |b| == 4
    ensures BigEndian(ReadUint32(b)) == b
  {
    var u := ReadUint32(b);
    var low := b[1] as int * 0x1_0000 + b[2] as int * 0x100 + b[3] as int;
    assert u == b[0] as int * 0x100_0000 + low && 0 <= low < 0x100_0000;
    assert u / 0x100_0000 == b[0] as int;
    var mid := b[2] as int * 0x100 + b[3] as int;
    assert u == (b[0] as int * 0x100 + b[1] as int) * 0x1_0000 + mid && 0 <= mid < 0x1_0000;
    assert u / 0x1_0000 == b[0] as int * 0x100 + b[1] as int;
    assert u == (b[0] as int * 0x1_0000 + b[1] as int * 0x100 + b[2] as int) * 0x100 + b[3] as int;
    assert u / 0x100 == b[0] as int * 0x1_0000 + b[1] as int * 0x100 + b[2] as int;
    assert BigEndian(u)[0] == b[0] && BigEndian(u)[1] == b[1] && BigEndian(u)[2] == b[2] && BigEndian(u)[3] == b[3];
  }

  /** The 5-byte prefix encodePrefix builds for an id: a zero magic byte, then bytes that decode to uint32(id). */
  function Prefix(id: int): (p: seq<byte>)
    ensures |p| == 5 && p[0] == 0
    ensures DecodePrefix(p) == Uint32(id)
  {
    BigEndianRoundTrip(Uint32(id));
    [0] + BigEndian(Uint32(id))
  }

  /** binary.BigEndian.PutUint32(b[off:], u): writes four bytes at off and leaves the rest of b alone. */
  method PutUint32(b: array<byte>, off: nat, u: int)
    requires off + 4 <= b.Length && 0 <= u < Two32
    modifies b
    ensures b[..] == old(b[..off]) + BigEndian(u) + old(b[off + 4..])
  {
    b[off] := (u / 0x100_0000) as byte;
    b[off + 1] := (u / 0x1_0000 % 0x100) as byte;
    b[off + 2] := (u / 0x100 % 0x100) as byte;
    b[off + 3] := (u % 0x100) as byte;
    assert b[..] == old(b[..off]) + BigEndian(u) + old(b[off + 4..]);
  }

  /** encodePrefix: a fresh zeroed 5-byte buffer with the truncated id written big-endian at offset 1. */
  method EncodePrefix(id: int) returns (b: array<byte>)
    ensures fresh(b) && b.Length == 5 && b[0] == 0
    ensures b[..] == Prefix(id)
    ensures DecodePrefix(b[..]) == Uint32(id)
  {
    b := new byte[5](_ => 0);
    PutUint32(b, 1, Uint32(id));
    PrefixRoundTrip(id, []);
  }

  /** decodePrefix: the big-endian unsigned value of bytes 1..4. */
  function DecodePrefix(b: seq<byte>): (id: int)
    requires |b| >= 5
    ensures 0 <= id < Two32
  {
    ReadUint32(b[1..5])
  }

  /** The id read from a prefix is the truncated id it was built from, whatever payload follows. */
  lemma {:induction false} PrefixRoundTrip(id: int, payload: seq<byte>)
    ensures |Prefix(id)| == 5 && Prefix(id)[0] == 0
    ensures DecodePrefix(Prefix(id) + payload) == Uint32(id)
    ensures 0 <= id < Two32 ==> DecodePrefix(Prefix(id) + payload) == id
  {
    BigEndianRoundTrip(Uint32(id));
    assert (Prefix(id) + payload)[1..5] == BigEndian(Uint32(id));
  }

  /** decodePrefix reads bytes 1..4 only: the magic byte and the payload do not matter. */
  lemma DecodePrefixReadsIdBytesOnly(b1: seq<byte>, b2: seq<byte>)
    requires |b1| >= 5 && |b2| >= 5
    ensures b1[1..5] == b2[1..5] <==> DecodePrefix(b1) == DecodePrefix(b2)
  {
    if DecodePrefix(b1) == DecodePrefix(b2) {
      ReadUint32RoundTrip(b1[1..5]);
      ReadUint32RoundTrip(b2[1..5]);
    }
  }

  // ----- the Encoder -----

  /** NewEncoder: compiles the subject's schema text; a compile error is returned and no encoder is built. */
  function NewEncoder(compile: Compiler, s: Subject): (r: Result<Encoder, Error>)
    ensures r.Success? <==> compile(s.schema).Success?
    ensures r.Success? ==> r.value.subject == s && r.value.codec == compile(s.schema).value
    ensures r.Failure? ==> r.error == compile(s.schema).error
  {
    match compile(s.schema)
    case Failure(err) => Failure(err)
    case Success(codec) => Success(Encoder(s, codec))
  }

  /** Schema: the raw schema text of the encoder's subject. */
  function Schema(e: Encoder): string
  {
    e.subject.schema
  }

  /** The schema text survives compilation unchanged. */
  lemma SchemaOfNewEncoder(compile: Compiler, s: Subject)
    requires compile(s.schema).Success?
    ensures NewEncoder(compile, s).Success? && Schema(NewEncoder(compile, s).value) == s.schema
  {
  }

  /** The one assumption made of goavro's BinaryFromNative: it appends to the buffer it is given. */
  ghost predicate AppendsToPrefix(c: Codec)
  {
    forall p: seq<byte>, n: Native :: c.binaryFromNative(p, n).Success? ==> p <= c.binaryFromNative(p, n).value
  }

  /** A byte string whose first five bytes are a prefix carrying (the truncation of) id. */
  ghost predicate IsEnvelope(m: seq<byte>, id: int)
  {
    |m| >= 5 && m[0] == 0 && m[..5] == Prefix(id) && DecodePrefix(m) == Uint32(id)
  }

  /**
   * Encode: marshal the value to JSON, convert JSON to native under this schema, and let the
   * codec write the binary form after the prefix built from the encoder's own subject id.
   */
  method Encode(e: Encoder, marshal: DomainValue -> Result<seq<byte>, Error>, data: DomainValue)
    returns (r: Result<seq<byte>, Error>)
    ensures marshal(data).Failure? ==> r == Failure(marshal(data).error)
    ensures marshal(data).Success? && e.codec.nativeFromTextual(marshal(data).value).Failure? ==>
              r == Failure(e.codec.nativeFromTextual(marshal(data).value).error)
    ensures marshal(data).Success? && e.codec.nativeFromTextual(marshal(data).value).Success? ==>
              r == e.codec.binaryFromNative(Prefix(e.subject.id), e.codec.nativeFromTextual(marshal(data).value).value)
    ensures r.Success? && AppendsToPrefix(e.codec) ==> IsEnvelope(r.value, e.subject.id)
  {
    var byt := marshal(data);
    if byt.Failure? {
      return Failure(byt.error);
    }
    var native := e.codec.nativeFromTextual(byt.value);
    if native.Failure? {
      return Failure(native.error);
    }
    var magic := EncodePrefix(e.subject.id);
    r := e.codec.binaryFromNative(magic[..], native.value);
    if r.Success? && AppendsToPrefix(e.codec) {
      var m := r.value;
      assert magic[..] <= m;
      assert m[..5] == Prefix(e.subject.id);
      PrefixRoundTrip(e.subject.id, m[5..]);
      assert m == Prefix(e.subject.id) + m[5..];
    }
  }

  /** The payload half of Decode: binary to native to JSON text under e's codec, then e's JSON decoder. */
  function DecodePayload(e: Encoder, id: int, payload: seq<byte>): (r: Result<DomainValue, Error>)
    ensures r.Success? ==> e.codec.nativeFromBinary(payload).Success? && e.subject.jsonDecoder.Some?
  {
    match e.codec.nativeFromBinary(payload)
    case Failure(err) => Failure(err)
    case Success(native) =>
      match e.codec.textualFromNative(native)
      case Failure(err) => Failure(err)
      case Success(text) =>
        if e.subject.jsonDecoder.None? then Failure(MissingDecoder(id))
        else e.subject.jsonDecoder.value(text)
  }

  /**
   * Decode: rejects input shorter than 5 bytes, resolves the id in bytes 1..4 through the registry-wide
   * idMap (never the receiver's own subject, which Decode does not read), and decodes bytes 5.. with the
   * resolved encoder.
   */
  function Decode(idMap: map<int, Encoder>, data: seq<byte>): (r: Result<DomainValue, Error>)
    ensures r.Success? ==>
              && |data| >= 5 && DecodePrefix(data) in idMap
              && idMap[DecodePrefix(data)].subject.jsonDecoder.Some?
  {
    if |data| < 5 then Failure(MalformedEnvelope)
    else
      var schemaId := DecodePrefix(data);
      if schemaId !in idMap then Failure(UnknownSchemaId(schemaId))
      else DecodePayload(idMap[schemaId], schemaId, data[5..])
  }

  /** Short input fails as malformed whatever its content and whatever the registry holds. */
  lemma DecodeShortInput(idMap: map<int, Encoder>, data: seq<byte>)
    requires |data| < 5
    ensures Decode(idMap, data) == Failure(MalformedEnvelope)
    ensures forall other: map<int, Encoder> :: Decode(other, data) == Decode(idMap, data)
  {
  }

  /**
   * A well-formed envelope is resolved by the id it carries: an absent id is an UnknownSchemaId error,
   * a present one hands exactly the bytes after the prefix to that id's encoder.
   */
  lemma {:induction false} DecodeEnvelope(idMap: map<int, Encoder>, id: int, payload: seq<byte>)
    requires 0 <= id < Two32
    ensures id !in idMap ==> Decode(idMap, Prefix(id) + payload) == Failure(UnknownSchemaId(id))
    ensures id in idMap ==> Decode(idMap, Prefix(id) + payload) == DecodePayload(idMap[id], id, payload)
  {
    PrefixRoundTrip(id, payload);
    assert (Prefix(id) + payload)[5..] == payload;
  }

  /** Decode looks at one idMap entry only: two registries that agree on it decode alike. */
  lemma DecodeReadsOneEntry(m1: map<int, Encoder>, m2: map<int, Encoder>, data: seq<byte>)
    requires |data| >= 5
    requires DecodePrefix(data) in m1 <==> DecodePrefix(data) in m2
    requires DecodePrefix(data) in m1 ==> m1[DecodePrefix(data)] == m2[DecodePrefix(data)]
    ensures Decode(m1, data) == Decode(m2, data)
  {
  }

  /**
   * The decoder check comes last: a subject without a decoder still reports the conversion errors,
   * and fails with MissingDecoder only once both conversions have succeeded.
   */
  lemma MissingDecoderCheckedLast(e: Encoder, id: int, payload: seq<byte>)
    requires e.subject.jsonDecoder.None?
    ensures e.codec.nativeFromBinary(payload).Failure? ==>
              DecodePayload(e, id, payload) == Failure(e.codec.nativeFromBinary(payload).error)
    ensures e.codec.nativeFromBinary(payload).Success? ==>
              var text := e.codec.textualFromNative(e.codec.nativeFromBinary(payload).value);
              DecodePayload(e, id, payload) == (if text.Failure? then Failure(text.error) else Failure(MissingDecoder(id)))
  {
  }

  /**
   * For a subject with a decoder, the conversion errors are passed on as is, in order, and otherwise
   * the result is the subject's decoder applied to the JSON text the codec produced.
   */
  lemma DecoderAppliedLast(e: Encoder, id: int, payload: seq<byte>)
    requires e.subject.jsonDecoder.Some?
    ensures e.codec.nativeFromBinary(payload).Failure? ==>
              DecodePayload(e, id, payload) == Failure(e.codec.nativeFromBinary(payload).error)
    ensures e.codec.nativeFromBinary(payload).Success? ==>
              var text := e.codec.textualFromNative(e.codec.nativeFromBinary(payload).value);
              DecodePayload(e, id, payload) == (if text.Failure? then Failure(text.error)
                                                else e.subject.jsonDecoder.value(text.value))
  {
  }

  /**
   * Decode on any buffer of five or more bytes: the id in bytes 1..4 is resolved, the bytes after them
   * are the payload, and the magic byte is never checked.
   */
  lemma {:induction false} DecodeAnyBuffer(idMap: map<int, Encoder>, data: seq<byte>)
    requires |data| >= 5
    ensures DecodePrefix(data) !in idMap ==> Decode(idMap, data) == Failure(UnknownSchemaId(DecodePrefix(data)))
    ensures DecodePrefix(data) in idMap ==>
              Decode(idMap, data) == DecodePayload(idMap[DecodePrefix(data)], DecodePrefix(data), data[5..])
    ensures Decode(idMap, data) == Decode(idMap, [0] + data[1..])
  {
    var zeroed := [0] + data[1..];
    assert zeroed[1..5] == data[1..5] && zeroed[5..] == data[5..];
    DecodePrefixReadsIdBytesOnly(data, zeroed);
  }

  /**
   * Framing in both directions: what Encode produces (under AppendsToPrefix) is decoded by the very
   * encoder registered under the subject's id, and is handed the bytes the codec wrote after the prefix.
   */
  lemma {:induction false} DecodeOfEncoded(idMap: map<int, Encoder>, e: Encoder, m: seq<byte>)
    requires 0 <= e.subject.id < Two32 && e.subject.id in idMap && idMap[e.subject.id] == e
    requires IsEnvelope(m, e.subject.id)
    ensures Decode(idMap, m) == DecodePayload(e, e.subject.id, m[5..])
  {
    assert m == Prefix(e.subject.id) + m[5..];
    DecodeEnvelope(idMap, e.subject.id, m[5..]);
  }
}
