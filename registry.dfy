/**
 * The schema cache of registry.go: subject -> (version -> Encoder) and id -> Encoder, filled by
 * Register from a schema-registry client. The HTTP client is an oracle of three functions; the
 * codec compiler is the Compiler of the Envelope module.
 */
module SchemaRegistry {
  import opened Wrappers
  import opened Envelope
  import opened Collections

  // ----- Version selectors and their text -----

  const VersionLatest: int := -1
  const VersionAll: int := -2

  function DigitChar(d: int): char
    requires 0 <= d < 10
  {
    "0123456789"[d]
  }

  predicate IsDigit(c: char)
  {
    '0' <= c <= '9'
  }

  /** fmt.Sprint of a non-negative int: decimal digits, no leading zeros. */
  function NatText(n: nat): (s: string)
    ensures |s| > 0 && forall i :: 0 <= i < |s| ==> IsDigit(s[i])
    decreases n
  {
    if n < 10 then [DigitChar(n)] else NatText(n / 10) + [DigitChar(n % 10)]
  }

  /** fmt.Sprint of an int: a minus sign before the digits of a negative value. */
  function IntText(n: int): (s: string)
    ensures |s| > 0
    ensures s[0] == '-' <==> n < 0
  {
    if n < 0 then "-" + NatText(-n) else NatText(n)
  }

  /** Reading decimal text back, the reference for what fmt.Sprint renders. */
  function NatValue(s: string): int
  {
    if s == [] then 0 else NatValue(s[..|s| - 1]) * 10 + (s[|s| - 1] as int - '0' as int)
  }

  function IntValue(s: string): int
  {
    if |s| > 0 && s[0] == '-' then -NatValue(s[1..]) else NatValue(s)
  }

  lemma {:induction false} NatTextRoundTrip(n: nat)
    ensures NatValue(NatText(n)) == n
    decreases n
  {
    if n >= 10 {
      NatTextRoundTrip(n / 10);
      var s := NatText(n);
      assert s[..|s| - 1] == NatText(n / 10);
    }
  }

  /** Version.String: the two sentinels by name, every other version as its decimal text. */
  function VersionString(v: int): (s: string)
    ensures v == VersionLatest ==> s == "Latest"
    ensures v == VersionAll ==> s == "All"
    ensures v != VersionLatest && v != VersionAll ==> IntValue(s) == v && s == IntText(v)
  {
    if v == VersionLatest then "Latest"
    else if v == VersionAll then "All"
    else (IntTextRoundTrip(v); IntText(v))
  }

  /** The decimal text of any int reads back as that int. */
  lemma {:induction false} IntTextRoundTrip(n: int)
    ensures IntValue(IntText(n)) == n
  {
    NatTextRoundTrip(if n < 0 then -n else n);
    if n < 0 {
      assert IntText(n)[1..] == NatText(-n);
    } else {
      assert NatText(n)[0] != '-';
    }
  }

  /** Distinct versions, sentinels included, are rendered as distinct strings. */
  lemma {:induction false} VersionStringInjective(a: int, b: int)
    requires VersionString(a) == VersionString(b)
    ensures a == b
  {
    if a != VersionLatest && a != VersionAll && b != VersionLatest && b != VersionAll {
      IntTextRoundTrip(a);
      IntTextRoundTrip(b);
    }
  }

  // ----- the registry client and the cache -----

  /** What the registry client returns for one schema version. */
  datatype ClientSchema = ClientSchema(schema: string, subject: string, version: int, id: int)

  /** schemaregistry.Client: each call returns a result or a transport error. */
  datatype Client = Client(
    versions: string -> Result<seq<int>, Error>,
    getLatestSchema: string -> Result<ClientSchema, Error>,
    getSchemaBySubject: (string, int) -> Result<ClientSchema, Error>)

  /** The registry's two maps as one value. */
  datatype Cache = Cache(schemas: map<string, map<int, Encoder>>, idMap: map<int, Encoder>)

  /** The state after Register and the error it returned (None for Go's nil error). */
  datatype Outcome = Outcome(cache: Cache, err: Option<Error>)

  /** The result of a lookup: Aborted where Go panics, Nil where it returns a nil *Encoder. */
  datatype Lookup = Aborted | Nil | Found(encoder: Encoder)

  /** The cache invariant Register and the sync step keep: every idMap entry is filed under its own id. */
  ghost predicate IdKeyed(c: Cache)
  {
    forall id :: id in c.idMap ==> c.idMap[id].subject.id == id
  }

  /** The client never lists the All sentinel among a subject's versions (the recursion would not stop). */
  predicate ListsConcreteVersions(client: Client, subject: string)
  {
    client.versions(subject).Success? ==> VersionAll !in client.versions(subject).value
  }

  /** The encoder Register builds for a fetched schema and the caller's decoder. */
  function SubjectOf(cs: ClientSchema, decoder: Option<JsonDecoder>): Subject
  {
    Subject(cs.schema, cs.subject, cs.version, cs.id, decoder)
  }

  /** The client call Register makes for a concrete version or Latest. */
  function Fetch(client: Client, subject: string, version: int): Result<ClientSchema, Error>
  {
    if version == VersionLatest then client.getLatestSchema(subject)
    else client.getSchemaBySubject(subject, version)
  }

  /**
   * Register for one concrete or Latest version, on values: the state and error it leaves. Other
   * subjects are untouched, no id is ever dropped, and without an error the requested pair and the
   * fetched id are both filed.
   */
  function RegisterOne(client: Client, compile: Compiler, c: Cache, subject: string, version: int,
                       decoder: Option<JsonDecoder>): (r: Outcome)
    requires version != VersionAll
    ensures r.cache.schemas.Keys <= c.schemas.Keys + {subject}
    ensures forall s :: s in c.schemas && s != subject ==> s in r.cache.schemas && r.cache.schemas[s] == c.schemas[s]
    ensures r.cache.idMap.Keys >= c.idMap.Keys
    ensures r.err.None? ==>
              && Fetch(client, subject, version).Success?
              && subject in r.cache.schemas && version in r.cache.schemas[subject]
              && Fetch(client, subject, version).value.id in r.cache.idMap
  {
    match Fetch(client, subject, version)
    case Failure(err) => Outcome(c, Some(err))
    case Success(cs) =>
      var schemas := if subject in c.schemas then c.schemas else c.schemas[subject := map[]];
      match NewEncoder(compile, SubjectOf(cs, decoder))
      case Failure(err) => Outcome(Cache(schemas, c.idMap), Some(err))
      case Success(e) => Outcome(Cache(schemas[subject := schemas[subject][version := e]], c.idMap[cs.id := e]), None)
  }

  /** Register for each version of a list in order, stopping at the first error; other subjects are untouched. */
  function RegisterEach(client: Client, compile: Compiler, c: Cache, subject: string, vs: seq<int>,
                        decoder: Option<JsonDecoder>): (r: Outcome)
    requires VersionAll !in vs
    ensures r.cache.schemas.Keys <= c.schemas.Keys + {subject}
    ensures forall s :: s in c.schemas && s != subject ==> s in r.cache.schemas && r.cache.schemas[s] == c.schemas[s]
    ensures r.cache.idMap.Keys >= c.idMap.Keys
    decreases |vs|
  {
    if vs == [] then Outcome(c, None)
    else
      var o := RegisterOne(client, compile, c, subject, vs[0], decoder);
      if o.err.Some? then o else RegisterEach(client, compile, o.cache, subject, vs[1..], decoder)
  }

  /** Register on values, for every selector: whatever happens, no other subject changes and no id is dropped. */
  function RegisterSpec(client: Client, compile: Compiler, c: Cache, subject: string, version: int,
                        decoder: Option<JsonDecoder>): (r: Outcome)
    requires version == VersionAll ==> ListsConcreteVersions(client, subject)
    ensures r.cache.schemas.Keys <= c.schemas.Keys + {subject}
    ensures forall s :: s in c.schemas && s != subject ==> s in r.cache.schemas && r.cache.schemas[s] == c.schemas[s]
    ensures r.cache.idMap.Keys >= c.idMap.Keys
  {
    if version == VersionAll then
      match client.versions(subject)
      case Failure(err) => Outcome(c, Some(err))
      case Success(vs) => RegisterEach(client, compile, c, subject, vs, decoder)
    else RegisterOne(client, compile, c, subject, version, decoder)
  }

  /** The largest subject.Version among the entries under keys, starting from 0 as WithLatestSchema's v does. */
  ghost function MaxOver(vs: map<int, Encoder>, keys: set<int>): (m: int)
    requires keys <= vs.Keys
    ensures m >= 0
    ensures forall k :: k in keys ==> vs[k].subject.version <= m
    ensures m == 0 || exists k :: k in keys && vs[k].subject.version == m
    decreases |keys|
  {
    if keys == {} then 0
    else
      NonEmptyHasElement(keys);
      var k :| k in keys;
      var rest := MaxOver(vs, keys - {k});
      if vs[k].subject.version > rest then vs[k].subject.version else rest
  }

  /** The largest subject.Version of a subject's entries, or 0. */
  ghost function MaxVersion(vs: map<int, Encoder>): (m: int)
    ensures m >= 0
    ensures forall k :: k in vs ==> vs[k].subject.version <= m
    ensures m == 0 || exists k :: k in vs && vs[k].subject.version == m
  {
    MaxOver(vs, vs.Keys)
  }

  /** What WithLatestSchema's loop establishes determines MaxVersion. */
  lemma MaxVersionUnique(vs: map<int, Encoder>, m: int)
    requires m >= 0
    requires forall k :: k in vs ==> vs[k].subject.version <= m
    requires m == 0 || exists k :: k in vs && vs[k].subject.version == m
    ensures m == MaxVersion(vs)
  {
    var top := MaxVersion(vs);
    if top != 0 {
      var k :| k in vs && vs[k].subject.version == top;
    }
  }

  class Registry {
    var schemas: map<string, map<int, Encoder>>
    var idMap: map<int, Encoder>
    const client: Client
    const compile: Compiler

    ghost function State(): Cache
      reads this
    {
      Cache(schemas, idMap)
    }

    /** NewRegistry: both maps start empty (the client is given, not built from a URL). */
    constructor (client: Client, compile: Compiler)
      ensures schemas == map[] && idMap == map[]
      ensures this.client == client && this.compile == compile
      ensures IdKeyed(State())
    {
      schemas := map[];
      idMap := map[];
      this.client := client;
      this.compile := compile;
    }

    /**
     * Register: All registers every listed version in order through Register itself; a concrete
     * version or Latest fetches the schema, compiles it and files the encoder under the requested
     * version argument and under the fetched id. An already registered pair is only logged about.
     */
    method Register(subject: string, version: int, decoder: Option<JsonDecoder>) returns (err: Option<Error>)
      requires version == VersionAll ==> ListsConcreteVersions(client, subject)
      modifies this
      ensures Outcome(State(), err) == RegisterSpec(client, compile, old(State()), subject, version, decoder)
      decreases if version == VersionAll then 1 else 0
    {
      if version == VersionAll {
        var versions := client.versions(subject);
        if versions.Failure? {
          return Some(versions.error);
        }
        var vs := versions.value;
        var i := 0;
        while i < |vs|
          invariant 0 <= i <= |vs|
          invariant RegisterEach(client, compile, old(State()), subject, vs, decoder)
                 == RegisterEach(client, compile, State(), subject, vs[i..], decoder)
        {
          assert vs[i..][1..] == vs[i + 1..];
          err := Register(subject, vs[i], decoder);
          if err.Some? {
            return;
          }
          i := i + 1;
        }
        return None;
      }

      var fetched;
      if version == VersionLatest {
        fetched := client.getLatestSchema(subject);
      } else {
        fetched := client.getSchemaBySubject(subject, version);
      }
      if fetched.Failure? {
        return Some(fetched.error);
      }
      var clientSub := fetched.value;
      var s := SubjectOf(clientSub, decoder);

      if subject !in schemas {
        schemas := schemas[subject := map[]];
      }

      var e := NewEncoder(compile, s);
      if e.Failure? {
        return Some(e.error);
      }

      schemas := schemas[subject := schemas[subject][version := e.value]];
      idMap := idMap[clientSub.id := e.value];
      return None;
    }

    /** WithSchema: the encoder filed under the pair, or an abort when there is none. */
    function WithSchema(subject: string, version: int): (r: Lookup)
      reads this
      ensures r != Nil
      ensures r.Found? <==> subject in schemas && version in schemas[subject]
      ensures r.Found? ==> r.encoder == schemas[subject][version]
    {
      if subject in schemas && version in schemas[subject] then Found(schemas[subject][version]) else Aborted
    }

    /**
     * WithLatestSchema: aborts for an unknown subject; otherwise looks up the entry keyed by the
     * largest subject.Version (from 0), which is Nil when no entry is keyed by that number.
     */
    method WithLatestSchema(subject: string) returns (r: Lookup)
      ensures subject !in schemas ==> r == Aborted
      ensures subject in schemas ==>
                var m := MaxVersion(schemas[subject]);
                r == if m in schemas[subject] then Found(schemas[subject][m]) else Nil
    {
      if subject !in schemas {
        return Aborted;
      }
      var versions := schemas[subject];
      var v := 0;
      var todo := versions.Keys;
      while todo != {}
        invariant todo <= versions.Keys
        invariant v >= 0
        invariant forall k :: k in versions && k !in todo ==> versions[k].subject.version <= v
        invariant v == 0 || exists k :: k in versions && k !in todo && versions[k].subject.version == v
        decreases |todo|
      {
        NonEmptyHasElement(todo);
        var k :| k in todo;
        if versions[k].subject.version > v {
          v := versions[k].subject.version;
        }
        todo := todo - {k};
      }
      MaxVersionUnique(versions, v);
      r := if v in versions then Found(versions[v]) else Nil;
    }
  }

  // ----- properties of Register -----

  /** A client fetch error is returned unchanged, before either map is touched. */
  lemma RegisterFetchError(client: Client, compile: Compiler, c: Cache, subject: string, version: int,
                           decoder: Option<JsonDecoder>)
    requires version != VersionAll
    requires Fetch(client, subject, version).Failure?
    ensures RegisterSpec(client, compile, c, subject, version, decoder)
         == Outcome(c, Some(Fetch(client, subject, version).error))
  {
  }

  /** A Versions error for All is returned with both maps unchanged. */
  lemma RegisterAllVersionsError(client: Client, compile: Compiler, c: Cache, subject: string,
                                 decoder: Option<JsonDecoder>)
    requires client.versions(subject).Failure?
    ensures RegisterSpec(client, compile, c, subject, VersionAll, decoder) == Outcome(c, Some(client.versions(subject).error))
  {
  }

  /** A compile failure leaves idMap alone and at most adds an empty inner map for the subject. */
  lemma RegisterCompileError(client: Client, compile: Compiler, c: Cache, subject: string, version: int,
                             decoder: Option<JsonDecoder>, cs: ClientSchema)
    requires version != VersionAll
    requires Fetch(client, subject, version) == Success(cs)
    requires compile(cs.schema).Failure?
    ensures var o := RegisterSpec(client, compile, c, subject, version, decoder);
            o.err == Some(compile(cs.schema).error) && o.cache.idMap == c.idMap &&
            o.cache.schemas == if subject in c.schemas then c.schemas else c.schemas[subject := map[]]
  {
  }

  /**
   * A successful concrete or Latest registration files the new encoder, carrying the caller's
   * decoder, under the REQUESTED version argument and under the fetched id, whatever was there
   * before; every other entry is unchanged.
   */
  lemma RegisterSuccess(client: Client, compile: Compiler, c: Cache, subject: string, version: int,
                        decoder: Option<JsonDecoder>, cs: ClientSchema)
    requires version != VersionAll
    requires Fetch(client, subject, version) == Success(cs)
    requires compile(cs.schema).Success?
    ensures var o := RegisterSpec(client, compile, c, subject, version, decoder);
            var e := Encoder(SubjectOf(cs, decoder), compile(cs.schema).value);
            && o.err == None
            && subject in o.cache.schemas && o.cache.schemas[subject] == (if subject in c.schemas then c.schemas[subject] else map[])[version := e]
            && o.cache.idMap == c.idMap[cs.id := e]
            && e.subject.jsonDecoder == decoder
            && (forall s :: s in c.schemas && s != subject ==> s in o.cache.schemas && o.cache.schemas[s] == c.schemas[s])
            && o.cache.schemas.Keys == c.schemas.Keys + {subject}
  {
  }

  /**
   * Registering a pair that is already present is not short-circuited: it fetches again and the
   * freshly built encoder replaces the old one.
   */
  lemma ReRegisterOverwrites(client: Client, compile: Compiler, c: Cache, subject: string, version: int,
                             decoder: Option<JsonDecoder>, cs: ClientSchema)
    requires version != VersionAll
    requires subject in c.schemas && version in c.schemas[subject]
    requires Fetch(client, subject, version) == Success(cs)
    requires compile(cs.schema).Success?
    requires c.schemas[subject][version].subject != SubjectOf(cs, decoder)
    ensures var o := RegisterSpec(client, compile, c, subject, version, decoder);
            o.cache.schemas[subject][version] != c.schemas[subject][version] &&
            o.cache.schemas[subject][version].subject == SubjectOf(cs, decoder)
  {
  }

  /** With the oracle answering the same way, registering a pair twice leaves what registering it once left. */
  lemma RegisterTwice(client: Client, compile: Compiler, c: Cache, subject: string, version: int,
                      decoder: Option<JsonDecoder>)
    requires version != VersionAll
    requires RegisterSpec(client, compile, c, subject, version, decoder).err == None
    ensures var once := RegisterSpec(client, compile, c, subject, version, decoder);
            RegisterSpec(client, compile, once.cache, subject, version, decoder) == once
  {
    var once := RegisterSpec(client, compile, c, subject, version, decoder);
    var cs := Fetch(client, subject, version).value;
    var e := Encoder(SubjectOf(cs, decoder), compile(cs.schema).value);
    var twice := RegisterSpec(client, compile, once.cache, subject, version, decoder);
    assert once.cache.schemas[subject][version] == e;
    assert twice.cache.schemas[subject] == once.cache.schemas[subject];
    assert twice.cache.schemas == once.cache.schemas;
    assert twice.cache.idMap == once.cache.idMap;
  }

  /** An entry of the subject filed under version k carries decoder d. */
  ghost predicate FiledWith(c: Cache, subject: string, k: int, d: Option<JsonDecoder>)
  {
    subject in c.schemas && k in c.schemas[subject] && c.schemas[subject][k].subject.jsonDecoder == d
  }

  /** Registering more versions of a subject with decoder d keeps the entries already filed with d. */
  lemma {:induction false} RegisterEachKeepsFiled(client: Client, compile: Compiler, c: Cache, subject: string,
                                                  vs: seq<int>, decoder: Option<JsonDecoder>, k: int)
    requires VersionAll !in vs
    requires FiledWith(c, subject, k, decoder)
    ensures FiledWith(RegisterEach(client, compile, c, subject, vs, decoder).cache, subject, k, decoder)
    decreases |vs|
  {
    if vs != [] {
      var o := RegisterOne(client, compile, c, subject, vs[0], decoder);
      assert FiledWith(o.cache, subject, k, decoder);
      if o.err.None? {
        RegisterEachKeepsFiled(client, compile, o.cache, subject, vs[1..], decoder, k);
      }
    }
  }

  /**
   * Register with All, when it returns no error, has filed every listed version of the subject,
   * all with the caller's decoder, and the id fetched for every listed version is a key of idMap.
   */
  lemma {:induction false} RegisterAllFilesEveryVersion(client: Client, compile: Compiler, c: Cache, subject: string,
                                                        vs: seq<int>, decoder: Option<JsonDecoder>)
    requires VersionAll !in vs
    requires RegisterEach(client, compile, c, subject, vs, decoder).err == None
    ensures forall i :: 0 <= i < |vs| ==> FiledWith(RegisterEach(client, compile, c, subject, vs, decoder).cache, subject, vs[i], decoder)
    ensures forall i :: 0 <= i < |vs| ==>
              Fetch(client, subject, vs[i]).Success? &&
              Fetch(client, subject, vs[i]).value.id in RegisterEach(client, compile, c, subject, vs, decoder).cache.idMap
    decreases |vs|
  {
    if vs != [] {
      var o := RegisterOne(client, compile, c, subject, vs[0], decoder);
      var last := RegisterEach(client, compile, c, subject, vs, decoder).cache;
      RegisterAllFilesEveryVersion(client, compile, o.cache, subject, vs[1..], decoder);
      RegisterEachKeepsFiled(client, compile, o.cache, subject, vs[1..], decoder, vs[0]);
      assert Fetch(client, subject, vs[0]).value.id in o.cache.idMap;
      forall i | 1 <= i < |vs|
        ensures FiledWith(last, subject, vs[i], decoder)
        ensures Fetch(client, subject, vs[i]).Success? && Fetch(client, subject, vs[i]).value.id in last.idMap
      {
        assert vs[i] == vs[1..][i - 1];
      }
    }
  }

  /**
   * Register with All stops at the first error and returns it: the versions before it were all
   * registered without error, in list order, and the failing version's registration is the last step.
   */
  lemma {:induction false} RegisterEachStopsAtFirstError(client: Client, compile: Compiler, c: Cache, subject: string,
                                                         vs: seq<int>, decoder: Option<JsonDecoder>)
    requires VersionAll !in vs
    requires RegisterEach(client, compile, c, subject, vs, decoder).err.Some?
    ensures exists i :: 0 <= i < |vs| &&
              var before := RegisterEach(client, compile, c, subject, vs[..i], decoder);
              before.err == None &&
              RegisterOne(client, compile, before.cache, subject, vs[i], decoder) == RegisterEach(client, compile, c, subject, vs, decoder)
    decreases |vs|
  {
    var o := RegisterOne(client, compile, c, subject, vs[0], decoder);
    if o.err.Some? {
      assert vs[..0] == [];
      var before := RegisterEach(client, compile, c, subject, vs[..0], decoder);
      assert before.err == None && RegisterOne(client, compile, before.cache, subject, vs[0], decoder) == o;
    } else {
      var rest := vs[1..];
      RegisterEachStopsAtFirstError(client, compile, o.cache, subject, rest, decoder);
      var j :| 0 <= j < |rest| &&
              var before := RegisterEach(client, compile, o.cache, subject, rest[..j], decoder);
              before.err == None &&
              RegisterOne(client, compile, before.cache, subject, rest[j], decoder) == RegisterEach(client, compile, o.cache, subject, rest, decoder);
      assert vs[..j + 1][1..] == rest[..j];
      assert vs[..j + 1][0] == vs[0];
      assert rest[j] == vs[j + 1];
    }
  }

  /** Every registration files encoders under their own ids, so the IdKeyed invariant survives Register. */
  lemma RegisterOneKeepsIdKeyed(client: Client, compile: Compiler, c: Cache, subject: string, version: int,
                                decoder: Option<JsonDecoder>)
    requires version != VersionAll
    requires IdKeyed(c)
    ensures IdKeyed(RegisterOne(client, compile, c, subject, version, decoder).cache)
  {
  }

  lemma {:induction false} RegisterKeepsIdKeyed(client: Client, compile: Compiler, c: Cache, subject: string, version: int,
                                                decoder: Option<JsonDecoder>)
    requires version == VersionAll ==> ListsConcreteVersions(client, subject)
    requires IdKeyed(c)
    ensures IdKeyed(RegisterSpec(client, compile, c, subject, version, decoder).cache)
  {
    if version == VersionAll {
      if client.versions(subject).Success? {
        RegisterEachKeepsIdKeyed(client, compile, c, subject, client.versions(subject).value, decoder);
      }
    } else {
      RegisterOneKeepsIdKeyed(client, compile, c, subject, version, decoder);
    }
  }

  lemma {:induction false} RegisterEachKeepsIdKeyed(client: Client, compile: Compiler, c: Cache, subject: string,
                                                    vs: seq<int>, decoder: Option<JsonDecoder>)
    requires VersionAll !in vs
    requires IdKeyed(c)
    ensures IdKeyed(RegisterEach(client, compile, c, subject, vs, decoder).cache)
    decreases |vs|
  {
    if vs != [] {
      RegisterOneKeepsIdKeyed(client, compile, c, subject, vs[0], decoder);
      var o := RegisterOne(client, compile, c, subject, vs[0], decoder);
      if o.err.None? {
        RegisterEachKeepsIdKeyed(client, compile, o.cache, subject, vs[1..], decoder);
      }
    }
  }

  /**
   * Because Latest is filed under the key -1 while WithLatestSchema looks up the key equal to the
   * largest subject.Version, a subject registered only through Latest (at a positive version) has
   * no entry under that key: WithLatestSchema then returns nil.
   */
  lemma {:induction false} LatestOnlyRegistrationLooksUpNil(client: Client, compile: Compiler, subject: string,
                                                            decoder: Option<JsonDecoder>)
    requires client.getLatestSchema(subject).Success? && client.getLatestSchema(subject).value.version > 0
    requires compile(client.getLatestSchema(subject).value.schema).Success?
    ensures var o := RegisterSpec(client, compile, Cache(map[], map[]), subject, VersionLatest, decoder);
            var vs := o.cache.schemas[subject];
            vs.Keys == {VersionLatest} && MaxVersion(vs) == client.getLatestSchema(subject).value.version &&
            MaxVersion(vs) !in vs
  {
    var o := RegisterSpec(client, compile, Cache(map[], map[]), subject, VersionLatest, decoder);
    var vs := o.cache.schemas[subject];
    var cs := client.getLatestSchema(subject).value;
    assert vs == map[VersionLatest := Encoder(SubjectOf(cs, decoder), compile(cs.schema).value)];
    assert vs[VersionLatest].subject.version == cs.version;
    MaxVersionUnique(vs, cs.version);
  }
}
