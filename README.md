# Avro schema-registry client: envelope, schema cache and change-log sync

A Dafny model of the sequential core of a Go client library for an Avro schema registry
(package `schema_registry`):

- **Envelope** (`envelope.dfy`, from `encoder.go`): the wire format. It is a 5-byte prefix, then the Avro binary
  payload. Byte 0 is `0x00`. Bytes 1..4 hold the schema id as a big-endian `uint32`. `encodePrefix` fills a fresh
  array in place. `decodePrefix`, `Decode` and `Schema` are pure reads. `Encode` builds its prefix from the
  encoder's own subject id. `Decode` resolves the id found in the data through the registry-wide `idMap`.
- **SchemaRegistry** (`registry.dfy`, from `registry.go`): the `Registry` class. Its two fields are
  `schemas: subject → version → Encoder` and `idMap: id → Encoder`. `Register` handles the selectors
  `VersionLatest = -1` and `VersionAll = -2`. `WithSchema` and `WithLatestSchema` are the lookups, and
  `Version.String` renders a version. Each mutating method is proved against a value-level function
  (`RegisterSpec`), and the lemmas are stated about that function.
- **Sync** (`sync.dfy`, from `sync.go`): the `BackgroundSync` class. `apply` gives the filter-then-insert
  rule for one change-log record. Its `previous` closure collects versions, sorts them and scans them.
  `startConsumer`'s event loop becomes a loop over a finite sequence of events.
- **Collections** (`collections.dfy`): a set helper, the `Ascending` predicate and `SortInts`, which stands in for `sort.Ints`.
- **Wrappers** (`wrappers.dfy`): `Option` and `Result`.

Foreign code is passed in as function values and never defined:
- the goavro codec is `Codec` (four conversions) plus `Compiler`, which stands for `goavro.NewCodec` and can fail;
- the HTTP registry client is `Client` (`versions`, `getLatestSchema`, `getSchemaBySubject`), and each call
  returns a result or an error;
- `json.Marshal` is the `marshal` argument of `Encode`;
- `json.Unmarshal` of change-log records is `Json`;
- the application's decoder is `JsonDecoder`.

A Go panic is modelled as `Lookup.Aborted`. A nil `*Encoder` result is `Lookup.Nil`. A nil decoder is `None`.

Five behaviours of the code that a reader might not expect; the model follows the code:
- `Register` of a pair that is already present only logs a warning, then fetches again and overwrites
  (`ReRegisterOverwrites`, `RegisterTwice`).
- Entries are filed under the *requested* version argument, not under the fetched `Version`. So a `Latest`
  registration is filed under key `-1`, and `WithLatestSchema` can then return nil
  (`LatestOnlyRegistrationLooksUpNil`).
- `previous` borrows the decoder of the *smallest* registered version when that version is below the new
  one. It does not pick the nearest lower version (`PreviousIsNotNearest`).
- Explicit lookups abort (Go panics) on a miss. They do not return an error.
- `Decode` never checks that byte 0 is `0x00`: it reads the id from bytes 1..4 and the payload from byte 5 on,
  whatever the first byte holds (`DecodeAnyBuffer`).

## Model

| member | source | states |
|---|---|---|
| Envelope.Uint32 | encoder.go:96 | `uint32(id)` keeps the value of an id in `[0, 2^32)` and otherwise reduces it modulo `2^32` into that range |
| Envelope.ReadUint32 | encoder.go:101 | `binary.BigEndian.Uint32` of four bytes is always below `2^32` |
| Envelope.BigEndianRoundTrip | encoder.go:96-101 | reading back the four bytes `PutUint32` writes gives the value written |
| Envelope.ReadUint32RoundTrip | encoder.go:101 | writing the value read from four bytes gives those same bytes, so 4-byte framing is a bijection |
| Envelope.PutUint32 | encoder.go:96 | writing into `byt[1:]` sets bytes 1..4 to the big-endian value and leaves the rest of the buffer unchanged |
| Envelope.Prefix | encoder.go:94-97 | the prefix has 5 bytes, a zero magic byte, and its id bytes decode to `uint32(id)` |
| Envelope.EncodePrefix | encoder.go:94-98 | a fresh 5-byte array whose byte 0 is 0, equal to `Prefix(id)`, and whose decoded id is `uint32(id)` |
| Envelope.PrefixRoundTrip | encoder.go:94-102 | the prefix is 5 bytes with a zero magic byte; `decodePrefix` of a prefix plus any payload gives `uint32(id)`, which is `id` itself for `0 <= id < 2^32` |
| Envelope.DecodePrefix | encoder.go:100-102 | `decodePrefix` of a buffer of five or more bytes always yields an unsigned 32-bit value |
| Envelope.DecodePrefixReadsIdBytesOnly | encoder.go:100-102 | two buffers decode to the same id iff their bytes 1..4 agree, so byte 0 and bytes past 4 never matter |
| Envelope.NewEncoder | encoder.go:24-37 | succeeds iff the schema compiles; on success it holds the given subject and the compiled codec, on failure it returns the compile error |
| Envelope.SchemaOfNewEncoder | encoder.go:104-106 | `Schema()` of a compiled encoder is its subject's schema text, unchanged |
| Envelope.Encode | encoder.go:39-57 | a marshal error or a `NativeFromTextual` error is returned as is; otherwise the result is `BinaryFromNative` on the prefix of the encoder's own `subject.Id`; when the codec appends to the prefix it is given, every successful result is an envelope carrying that id |
| Envelope.DecodePayload | encoder.go:72-91 | the payload half of `Decode` succeeds only when `NativeFromBinary` succeeded and the resolved subject has a decoder |
| Envelope.DecoderAppliedLast | encoder.go:72-91 | for a subject with a decoder, a `NativeFromBinary` error and then a `TextualFromNative` error are returned as is; otherwise the result is the subject's `JsonDecoder` applied to the JSON text |
| Envelope.Decode | encoder.go:59-92 | `Decode` succeeds only for input of at least 5 bytes whose id is in `idMap` and whose resolved subject has a decoder |
| Envelope.DecodeShortInput | encoder.go:60-63 | input shorter than 5 bytes fails as malformed, whatever its content and whatever `idMap` holds |
| Envelope.DecodeAnyBuffer | encoder.go:59-72 | on any input of 5 or more bytes, an absent id in bytes 1..4 is an `UnknownSchemaId` error and a present one hands bytes 5.. to its encoder; replacing byte 0 by zero never changes the result |
| Envelope.DecodeEnvelope | encoder.go:65-72 | `Decode` of an envelope with id `i`: an `UnknownSchemaId(i)` error when `i` is absent from `idMap`; otherwise exactly the bytes after the prefix go to the encoder filed under `i` |
| Envelope.DecodeReadsOneEntry | encoder.go:65-70 | `Decode` depends on the registry only through the `idMap` entry of the id in the data |
| Envelope.MissingDecoderCheckedLast | encoder.go:72-91 | for a subject without decoder, `NativeFromBinary` and `TextualFromNative` errors are still reported first, and `MissingDecoder` comes only after both succeed |
| Envelope.DecodeOfEncoded | encoder.go:54-72 | an envelope `Encode` produced for a subject registered under its id decodes with that same encoder, on exactly the bytes after the prefix |
| SchemaRegistry.VersionString | registry.go:15-26 | -1 renders as "Latest", -2 as "All", and every other version as decimal text that reads back as that version |
| SchemaRegistry.IntText | registry.go:25 | `fmt.Sprint` of an int is non-empty and starts with a minus sign exactly when the int is negative |
| SchemaRegistry.IntTextRoundTrip | registry.go:25 | the decimal text `fmt.Sprint` gives for an int reads back as that int |
| SchemaRegistry.VersionStringInjective | registry.go:15-26 | distinct versions, sentinels included, render as distinct strings |
| SchemaRegistry.MaxVersion | registry.go:195-200 | the running maximum from 0: at least 0, at least every entry's `subject.Version`, and either 0 or one of them |
| SchemaRegistry.MaxVersionUnique | registry.go:195-200 | those three facts determine the maximum, whatever order the map is iterated in |
| SchemaRegistry.RegisterOne | registry.go:118-157 | one concrete or Latest registration never touches another subject, adds no subject but this one and drops no id; without an error the fetch succeeded, and the requested pair and the fetched id are both filed |
| SchemaRegistry.RegisterEach | registry.go:110-115 | registering a list of versions in order, stopping at the first error, never touches another subject, adds no subject but this one and drops no id |
| SchemaRegistry.RegisterSpec | registry.go:98-158 | `Register` on values for every selector: no other subject changes, no subject other than this one appears, and no id is dropped |
| SchemaRegistry.Registry.constructor | registry.go:86-93 | a new registry has empty `schemas` and `idMap` and satisfies the id-keyed invariant |
| SchemaRegistry.Registry.Register | registry.go:98-158 | the new maps and the returned error are those of `RegisterSpec`: `All` registers each listed version through Register itself; Latest or a concrete version fetches, compiles and files the encoder |
| SchemaRegistry.Registry.WithSchema | registry.go:175-185 | returns the encoder filed under (subject, version) when there is one and aborts otherwise |
| SchemaRegistry.Registry.WithLatestSchema | registry.go:187-203 | aborts for an unknown subject; otherwise returns the entry keyed by the maximum `subject.Version` counted from 0, or nil when no entry has that key |
| SchemaRegistry.RegisterFetchError | registry.go:118-133 | a `GetLatestSchema` or `GetSchemaBySubject` error is returned unchanged, with both maps untouched |
| SchemaRegistry.RegisterAllVersionsError | registry.go:105-109 | a `Versions` error for `All` is returned with both maps unchanged |
| SchemaRegistry.RegisterCompileError | registry.go:143-150 | a compile error is returned with `idMap` unchanged; at most an empty inner map for the subject has been created, and no encoder is stored |
| SchemaRegistry.RegisterSuccess | registry.go:135-153 | success files the new encoder under the requested version argument and under the fetched id. The encoder carries the fetched schema, subject, version and id and the caller's decoder. Other subjects are unchanged and only the subject is added to the keys |
| SchemaRegistry.ReRegisterOverwrites | registry.go:99-103 | registering a pair already present does not short-circuit: the fresh encoder replaces the old one |
| SchemaRegistry.RegisterTwice | registry.go:98-158 | when the client answers the same both times, a second successful registration of a pair leaves what the first left |
| SchemaRegistry.RegisterEachKeepsFiled | registry.go:110-114 | registering further versions of a subject with decoder `d` keeps every entry already filed with `d` |
| SchemaRegistry.RegisterAllFilesEveryVersion | registry.go:105-116 | an error-free `All` registration files every listed version of the subject, each with the caller's decoder, and the id fetched for each listed version is a key of `idMap` |
| SchemaRegistry.RegisterEachStopsAtFirstError | registry.go:110-114 | an `All` registration that fails registered the versions before the failing one in order without error, and the failing version's registration is its last step |
| SchemaRegistry.RegisterOneKeepsIdKeyed | registry.go:152-153 | a single registration keeps every `idMap` entry filed under its own subject id |
| SchemaRegistry.RegisterEachKeepsIdKeyed | registry.go:110-114 | registering a list of versions keeps the id-keyed invariant |
| SchemaRegistry.RegisterKeepsIdKeyed | registry.go:98-158 | every `Register` call, whatever the selector, keeps the id-keyed invariant |
| SchemaRegistry.LatestOnlyRegistrationLooksUpNil | registry.go:187-202 | a subject registered only through Latest, at positive version `n`, is filed under key -1 alone; the latest lookup then seeks key `n`, which is absent |
| Collections.SortInts | sync.go:148 | `sort.Ints` stand-in: an ascending permutation of its input |
| Sync.CollectVersions | sync.go:143-146 | one element per entry: a ghost list of keys gives every key exactly once, and element `i` is the `subject.Version` of the entry under key `i`; so the elements are exactly the entries' versions, with their multiplicities |
| Sync.MinVersion | sync.go:148-154 | the smallest `subject.Version` of a non-empty map: no larger than any entry's and equal to one of them |
| Sync.PreviousOf | sync.go:142-157 | what `previous` returns: a found entry is filed under a key below `v`; when no entry has a version below `v` it returns nil |
| Sync.SortedHeadIsMinVersion | sync.go:148-154 | after sorting, the slice is empty iff there are no entries; otherwise its first element is the smallest version |
| Sync.Previous | sync.go:142-157 | the sort-then-scan returns the entry filed under the smallest version when that version is below `v`, and nil otherwise |
| Sync.PreviousIsSmallestBelow | sync.go:148-156 | a non-nil `previous` result is filed under a key below `v` that equals the smallest `subject.Version`; when every version is at least `v` the result is nil |
| Sync.PreviousIsNotNearest | sync.go:148-154 | with versions 1 and 2 present, a new version 3 borrows from version 1, not from version 2 |
| Sync.PreviousFindsLowerVersion | sync.go:148-154 | for entries filed under their own versions, if any version is below `v` then `previous` finds an entry, and its version is at most that one |
| Sync.BackgroundSync.constructor | sync.go:45-50 | a sync bound to the given registry starts unsynced |
| Sync.ApplyRecord | sync.go:108-193 | the filter chain then the insert: `apply` never starts tracking a subject and never drops an id |
| Sync.Consume | sync.go:72-82 | the event loop on values: the set of tracked subjects is unchanged and a set `synced` stays set |
| Sync.BackgroundSync.Apply | sync.go:108-193 | the registry's maps after `apply` are those given by `ApplyRecord` of the record and the old maps; a compiling schema is required only of a record that reaches `NewEncoder` |
| Sync.BackgroundSync.StartConsumer | sync.go:72-82 | applies each record in order and sets `synced` at a partition end; the final maps and flag are `Consume` of the events |
| Sync.ApplyFiltersBeforeCompiling | sync.go:113-166 | a record that fails any filter before `NewEncoder` changes nothing, whether or not its schema text compiles |
| Sync.ApplyIgnoresConfigRecord | sync.go:128-130 | a parsed CONFIG record whose empty schema text does not compile changes nothing |
| Sync.ApplyIgnoresEmpty | sync.go:113-115 | an empty key or an empty value changes nothing |
| Sync.ApplyIgnoresIrrelevant | sync.go:117-137 | a parse failure, a non-`SCHEMA` key, an empty subject or an untracked subject changes nothing |
| Sync.ApplyIgnoresPresentVersion | sync.go:139 | a version already present for the subject changes nothing |
| Sync.ApplyNeedsDecodingPredecessor | sync.go:161-166 | when `previous` finds nothing, or finds a subject with a nil decoder, the maps are unchanged |
| Sync.ApplyDropsVersionWithoutPredecessor | sync.go:150-161 | a new version of a tracked subject with no registered version below it changes nothing |
| Sync.ApplyInserts | sync.go:168-182 | a record passing every filter, with a schema that compiles, files a new encoder under (subject, version) and under its id. The encoder has the record's subject, version, schema and id, the borrowed decoder and the compiled codec. No other subject, version or id entry changes |
| Sync.ApplyIdempotent | sync.go:139-182 | applying the same record twice leaves what applying it once left; the second application never reaches `NewEncoder` |
| Sync.ApplyExtends | sync.go:137-182 | `apply` never starts tracking a subject and never reassigns an existing (subject, version) entry |
| Sync.ApplyKeepsIdKeyed | sync.go:168-182 | `apply` keeps every `idMap` entry filed under its own subject id |
| Sync.ApplyMakesIdDecodable | sync.go:168-182 | once `apply` has changed the cache, an envelope carrying the record's id decodes with the new schema's codec and the borrowed decoder |
| Sync.ConsumeSetsSynced | sync.go:73-81 | after the loop, `synced` is true iff it already was or a PartitionEnd was among the events |
| Sync.ConsumeExtends | sync.go:73-77 | the loop only adds versions to subjects already tracked and keeps every existing entry |
| Sync.ConsumeKeepsIdKeyed | sync.go:73-77 | the loop keeps the id-keyed invariant |
| Sync.ConsumeWithoutRecords | sync.go:73-81 | events with no records leave the maps unchanged |

## Left out

- Concurrency is not modelled: the `RWMutex` in `WithSchema`/`WithLatestSchema`, the goroutine of `start`
  and the `synced` channel. The model is sequential, and `Register` and `apply` take no lock anyway. The
  channel has capacity 1, so in Go a third partition end would block the consumer loop. The model lets
  every partition end through.
- Output only: all logger calls, the duplicate-registration warning, `print` and its table. None of them
  changes state.
- Transport wiring: `NewRegistry`'s options and `schemaregistry.NewClient(url)`, `Registry.Sync`,
  `newSync`, the sarama/k-stream consumer and `start` (registry.go:160-173, sync.go:35-70). The registry's
  constructor takes an already built client. The consumer's channel is a finite sequence of events.
- Foreign libraries: the goavro codec, `json.Marshal`/`json.Unmarshal` and the HTTP client. They are
  function values that are taken as given. The client is modelled as answering a repeated call the same way.
- Integer widths: Go's `int` is 32 or 64 bits wide depending on the platform. Ids and versions are unbounded
  integers here. Only the `uint32` truncation of the prefix is modelled, which matches a 64-bit platform. On a
  32-bit platform `int(binary.BigEndian.Uint32(...))` (encoder.go:101) turns ids of `2^31` and above into
  negative values. That wrap is not modelled.
- Error text: Go's error messages are modelled as error kinds (`MalformedEnvelope`, `UnknownSchemaId`,
  `MissingDecoder`) or as collaborator errors passed on unchanged.
- Nil-pointer panics that would follow a nil `*Encoder` (after `WithLatestSchema` returns nil, or after an
  entry whose key differs from its `subject.Version`) are not modelled. The nil result itself is.
- `deleted` in change-log values is parsed and ignored, as in the code.
- generic_encoder.go (another package, a superseded snapshot whose `Encode` panics), example/main.go
  (bootstrap) and the commented-out `GenericEncoder` are not part of this model.
- Envelope.Encode: the envelope shape of its result rests on the stated hypothesis `AppendsToPrefix`
  (goavro's BinaryFromNative appends to the buffer it is given). That hypothesis is not derived.
- SchemaRegistry.Registry.Register: for `All`, it requires that the client not list `-2` among the
  subject's versions. Otherwise the Go recursion would not terminate.
- Sync.BackgroundSync.Apply: it requires a compiling schema only of a record that passes every filter and
  reaches `NewEncoder` (sync.go:168). In that case Go ignores the compile error (sync.go:176-177) and files a
  nil `*Encoder` under the version and the id. The model's maps hold no nil entries, so that one case is
  not modelled. Records that are filtered out are never compiled, and nothing is required of them.
- Sync.BackgroundSync.StartConsumer: it requires the same of each record, in the state the loop has reached
  when that record arrives (`RecordsCompile`).
- Envelope.Schema: it has no contract of its own. Its only content is that it returns the subject's schema
  text, which `SchemaOfNewEncoder` states.
