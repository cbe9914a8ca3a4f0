/**
 * The background sync of sync.go: records of the registry's compacted change-log are applied to
 * the cache one at a time. Only new versions of subjects the application registered are added,
 * borrowing the JSON decoder of an earlier version. json.Unmarshal is an oracle (Json) and the
 * consumer's event channel is a finite sequence of events.
 */
module Sync {
  import opened Wrappers
  import opened Envelope
  import opened Collections
  import opened SchemaRegistry

  /** A change-log key: {subject, keytype, version}. */
  datatype Key = Key(subject: string, keytype: string, version: int)

  /** A change-log value: {subject, version, id, schema, deleted}; deleted is parsed and never used. */
  datatype Value = Value(subject: string, version: int, id: int, schema: string, deleted: bool)

  /** json.Unmarshal into a key and into a value; None is an unmarshal error. */
  datatype Json = Json(key: seq<byte> -> Option<Key>, value: seq<byte> -> Option<Value>)

  /** What the partition consumer delivers: a record, the end-of-partition marker, or anything else. */
  datatype Event = Record(key: seq<byte>, value: seq<byte>) | PartitionEnd | Other

  /** The sync's observable state: the registry's maps and the synced flag. */
  datatype SyncState = SyncState(cache: Cache, synced: bool)

  // ----- previous -----

  /** The smallest subject.Version among the entries under keys. */
  ghost function MinOver(vs: map<int, Encoder>, keys: set<int>): (m: int)
    requires keys != {} && keys <= vs.Keys
    ensures forall k :: k in keys ==> m <= vs[k].subject.version
    ensures exists k :: k in keys && vs[k].subject.version == m
    decreases |keys|
  {
    NonEmptyHasElement(keys);
    var k :| k in keys;
    if keys == {k} then vs[k].subject.version
    else
      var rest := MinOver(vs, keys - {k});
      if vs[k].subject.version < rest then vs[k].subject.version else rest
  }

  /** The smallest subject.Version of a non-empty map of encoders. */
  ghost function MinVersion(vs: map<int, Encoder>): (m: int)
    requires vs.Keys != {}
    ensures forall k :: k in vs ==> m <= vs[k].subject.version
    ensures exists k :: k in vs && vs[k].subject.version == m
  {
    MinOver(vs, vs.Keys)
  }

  lemma MinVersionUnique(vs: map<int, Encoder>, m: int)
    requires vs.Keys != {}
    requires forall k :: k in vs ==> m <= vs[k].subject.version
    requires exists k :: k in vs && vs[k].subject.version == m
    ensures m == MinVersion(vs)
  {
    var k :| k in vs && vs[k].subject.version == m;
    var j :| j in vs && vs[j].subject.version == MinVersion(vs);
  }

  /**
   * What previous returns: the versions sorted ascending are scanned for the FIRST one below v,
   * which is the smallest version when it is below v; that version is then looked up as a key.
   */
  ghost function PreviousOf(v: int, encoders: map<int, Encoder>): (r: Option<Encoder>)
    ensures r.Some? ==> exists k :: k in encoders && k < v && r.value == encoders[k]
    ensures (forall k :: k in encoders ==> encoders[k].subject.version >= v) ==> r.None?
  {
    if encoders.Keys == {} then None
    else
      var m := MinVersion(encoders);
      if m < v && m in encoders then Some(encoders[m]) else None
  }

  /**
   * previous's first loop: one version per entry, in the map's iteration order. The ghost keys
   * record that order: every key exactly once, and versions[i] is the version of the entry keys[i].
   */
  method CollectVersions(encoders: map<int, Encoder>) returns (versions: seq<int>, ghost keys: seq<int>)
    ensures |keys| == |versions| == |encoders|
    ensures forall i, j :: 0 <= i < j < |keys| ==> keys[i] != keys[j]
    ensures forall k :: k in encoders <==> k in keys
    ensures forall i :: 0 <= i < |keys| ==> keys[i] in encoders && versions[i] == encoders[keys[i]].subject.version
    ensures forall x :: x in versions <==> exists k :: k in encoders && encoders[k].subject.version == x
  {
    versions, keys := [], [];
    var todo := encoders.Keys;
    while todo != {}
      invariant todo <= encoders.Keys
      invariant |keys| == |versions| && |versions| + |todo| == |encoders|
      invariant forall i, j :: 0 <= i < j < |keys| ==> keys[i] != keys[j]
      invariant forall k :: k in encoders ==> (k in keys <==> k !in todo)
      invariant forall i :: 0 <= i < |keys| ==> keys[i] in encoders && versions[i] == encoders[keys[i]].subject.version
      invariant forall x :: x in versions <==> exists k :: k in encoders && k !in todo && encoders[k].subject.version == x
      decreases |todo|
    {
      NonEmptyHasElement(todo);
      var k :| k in todo;
      versions, keys := versions + [encoders[k].subject.version], keys + [k];
      todo := todo - {k};
    }
  }

  /** After sort.Ints, the first version is the smallest entry's version, and there is one iff there are entries. */
  lemma SortedHeadIsMinVersion(encoders: map<int, Encoder>, versions: seq<int>, sorted: seq<int>)
    requires forall x :: x in versions <==> exists k :: k in encoders && encoders[k].subject.version == x
    requires |versions| == |encoders|
    requires Ascending(sorted) && multiset(sorted) == multiset(versions)
    ensures sorted == [] <==> encoders.Keys == {}
    ensures sorted != [] ==> encoders.Keys != {} && sorted[0] == MinVersion(encoders)
  {
    if sorted != [] {
      assert sorted[0] in multiset(versions);
      assert sorted[0] in versions;
      var k :| k in encoders && encoders[k].subject.version == sorted[0];
      forall j | j in encoders ensures sorted[0] <= encoders[j].subject.version {
        var x := encoders[j].subject.version;
        assert exists k :: k in encoders && encoders[k].subject.version == x;
        assert x in versions;
        assert x in multiset(versions);
        assert x in sorted;
      }
      MinVersionUnique(encoders, sorted[0]);
    }
    assert |sorted| == |multiset(sorted)| == |multiset(versions)| == |versions|;
    assert |encoders.Keys| == |encoders|;
  }

  /** previous: collect the entries' versions, sort them, return the entry of the first one below v. */
  method Previous(v: int, encoders: map<int, Encoder>) returns (prv: Option<Encoder>)
    ensures prv == PreviousOf(v, encoders)
  {
    var versions;
    ghost var keys;
    versions, keys := CollectVersions(encoders);
    var sorted := SortInts(versions);
    SortedHeadIsMinVersion(encoders, versions, sorted);

    for i := 0 to |sorted|
      invariant forall j :: 0 <= j < i ==> sorted[j] >= v
    {
      var ver := sorted[i];
      if ver < v {
        assert sorted[0] <= ver;
        if ver in encoders {
          return Some(encoders[ver]);
        }
        return None;
      }
    }
    return None;
  }

  // ----- apply -----

  /**
   * The record passes every filter of apply and reaches NewEncoder (sync.go:168): non-empty, parsed,
   * a SCHEMA key, a non-empty tracked subject, a new version, and a predecessor with a decoder.
   */
  ghost predicate Inserts(json: Json, c: Cache, keyBytes: seq<byte>, valueBytes: seq<byte>)
  {
    && |keyBytes| >= 1 && |valueBytes| >= 1
    && json.key(keyBytes).Some? && json.value(valueBytes).Some?
    && json.key(keyBytes).value.keytype == "SCHEMA"
    && var v := json.value(valueBytes).value;
       && v.subject != "" && v.subject in c.schemas && v.version !in c.schemas[v.subject]
       && PreviousOf(v.version, c.schemas[v.subject]).Some?
       && PreviousOf(v.version, c.schemas[v.subject]).value.subject.jsonDecoder.Some?
  }

  /** The compile error apply ignores (sync.go:176-177) does not happen for a record that reaches NewEncoder. */
  ghost predicate CompilesIfInserted(compile: Compiler, json: Json, c: Cache, keyBytes: seq<byte>, valueBytes: seq<byte>)
  {
    Inserts(json, c, keyBytes, valueBytes) ==> compile(json.value(valueBytes).value.schema).Success?
  }

  /** The encoder apply builds for a new version, carrying the borrowed decoder. */
  function Borrowing(compile: Compiler, v: Value, decoder: Option<JsonDecoder>): Encoder
    requires compile(v.schema).Success?
  {
    Encoder(Subject(v.schema, v.subject, v.version, v.id, decoder), compile(v.schema).value)
  }

  /** apply on values: the cache after one change-log record. It never tracks a new subject nor drops an id. */
  ghost function ApplyRecord(compile: Compiler, json: Json, c: Cache, keyBytes: seq<byte>, valueBytes: seq<byte>): (r: Cache)
    requires CompilesIfInserted(compile, json, c, keyBytes, valueBytes)
    ensures r.schemas.Keys == c.schemas.Keys
    ensures r.idMap.Keys >= c.idMap.Keys
  {
    if |keyBytes| < 1 || |valueBytes| < 1 then c
    else if json.key(keyBytes).None? || json.value(valueBytes).None? then c
    else
      var key, value := json.key(keyBytes).value, json.value(valueBytes).value;
      if key.keytype != "SCHEMA" || value.subject == "" then c
      else if value.subject !in c.schemas then c
      else if value.version in c.schemas[value.subject] then c
      else
        match PreviousOf(value.version, c.schemas[value.subject])
        case None => c
        case Some(prv) =>
          if prv.subject.jsonDecoder.None? then c
          else
            var e := Borrowing(compile, value, prv.subject.jsonDecoder);
            Cache(c.schemas[value.subject := c.schemas[value.subject][value.version := e]], c.idMap[value.id := e])
  }

  /** Along the loop, every record that reaches NewEncoder in the state it meets compiles. */
  ghost predicate RecordsCompile(compile: Compiler, json: Json, st: SyncState, events: seq<Event>)
    decreases |events|
  {
    events != [] ==>
      && (events[0].Record? ==> CompilesIfInserted(compile, json, st.cache, events[0].key, events[0].value))
      && RecordsCompile(compile, json, Step(compile, json, st, events[0]), events[1..])
  }

  /** One event of startConsumer's loop. */
  ghost function Step(compile: Compiler, json: Json, st: SyncState, ev: Event): SyncState
    requires ev.Record? ==> CompilesIfInserted(compile, json, st.cache, ev.key, ev.value)
  {
    match ev
    case Record(k, v) => SyncState(ApplyRecord(compile, json, st.cache, k, v), st.synced)
    case PartitionEnd => SyncState(st.cache, true)
    case Other => st
  }

  /** startConsumer's loop over a finite sequence of events: the set of tracked subjects stays, synced stays set. */
  ghost function Consume(compile: Compiler, json: Json, st: SyncState, events: seq<Event>): (r: SyncState)
    requires RecordsCompile(compile, json, st, events)
    ensures r.cache.schemas.Keys == st.cache.schemas.Keys
    ensures st.synced ==> r.synced
    decreases |events|
  {
    if events == [] then st
    else Consume(compile, json, Step(compile, json, st, events[0]), events[1..])
  }

  class BackgroundSync {
    const registry: Registry
    var synced: bool

    /** newSync without the consumer: a sync bound to a registry, not yet synced. */
    constructor (registry: Registry)
      ensures this.registry == registry && !synced
    {
      this.registry := registry;
      synced := false;
    }

    /** apply: the filter-then-insert rule for one record of the change-log. */
    method Apply(json: Json, keyBytes: seq<byte>, valueBytes: seq<byte>)
      requires CompilesIfInserted(registry.compile, json, registry.State(), keyBytes, valueBytes)
      modifies registry
      ensures registry.State() == ApplyRecord(registry.compile, json, old(registry.State()), keyBytes, valueBytes)
    {
      // empty keys and values are ignored
      if |keyBytes| < 1 || |valueBytes| < 1 {
        return;
      }
      var key := json.key(keyBytes);
      if key.None? {
        return;
      }
      var value := json.value(valueBytes);
      if value.None? {
        return;
      }
      var k, v := key.value, value.value;
      if k.keytype != "SCHEMA" {
        return;
      }
      if v.subject == "" {
        return;
      }
      if v.subject in registry.schemas {
        var encoder := registry.schemas[v.subject];
        if v.version !in encoder {
          var prv := Previous(v.version, encoder);
          if prv.Some? {
            if prv.value.subject.jsonDecoder.None? {
              return;
            }
            var e := NewEncoder(registry.compile, Subject(v.schema, v.subject, v.version, v.id, prv.value.subject.jsonDecoder));
            encoder := encoder[v.version := e.value];
            registry.schemas := registry.schemas[v.subject := encoder];
            registry.idMap := registry.idMap[v.id := e.value];
          }
        }
      }
    }

    /** startConsumer: records are applied in order; the partition end sets synced. */
    method StartConsumer(json: Json, events: seq<Event>)
      requires RecordsCompile(registry.compile, json, SyncState(registry.State(), synced), events)
      modifies this, registry
      ensures SyncState(registry.State(), synced)
           == Consume(registry.compile, json, SyncState(old(registry.State()), old(synced)), events)
    {
      var i := 0;
      while i < |events|
        invariant 0 <= i <= |events|
        invariant RecordsCompile(registry.compile, json, SyncState(registry.State(), synced), events[i..])
        invariant Consume(registry.compile, json, SyncState(old(registry.State()), old(synced)), events)
               == Consume(registry.compile, json, SyncState(registry.State(), synced), events[i..])
      {
        assert events[i..][0] == events[i] && events[i..][1..] == events[i + 1..];
        match events[i] {
          case Record(key, value) =>
            Apply(json, key, value);
          case PartitionEnd =>
            synced := true;
          case Other =>
        }
        i := i + 1;
      }
    }
  }

  // ----- properties of previous -----

  /**
   * previous finds an entry exactly when the smallest version is below v, and the entry it finds
   * has a version below v and no larger than any other entry's.
   */
  lemma PreviousIsSmallestBelow(v: int, encoders: map<int, Encoder>)
    ensures PreviousOf(v, encoders).Some? ==>
              exists m :: m in encoders && m < v && PreviousOf(v, encoders) == Some(encoders[m]) &&
                (exists k :: k in encoders && encoders[k].subject.version == m) &&
                forall k :: k in encoders ==> m <= encoders[k].subject.version
    ensures (forall k :: k in encoders ==> encoders[k].subject.version >= v) ==> PreviousOf(v, encoders) == None
  {
    if encoders.Keys != {} {
      var m := MinVersion(encoders);
      var k :| k in encoders && encoders[k].subject.version == m;
    }
  }

  /** Entries filed under their own subject.Version. */
  ghost predicate KeyedByVersion(encoders: map<int, Encoder>)
  {
    forall k :: k in encoders ==> encoders[k].subject.version == k
  }

  /**
   * When entries are filed under their versions, previous returns the entry of the smallest version,
   * not the nearest one below v: with versions 1 and 2 present, a new version 3 borrows from 1.
   */
  lemma PreviousIsNotNearest(e1: Encoder, e2: Encoder)
    requires e1.subject.version == 1 && e2.subject.version == 2
    ensures PreviousOf(3, map[1 := e1, 2 := e2]) == Some(e1)
  {
    var m := map[1 := e1, 2 := e2];
    assert m[1].subject.version == 1;
    MinVersionUnique(m, 1);
  }

  /** For entries filed under their versions, previous finds one whenever some version is below v. */
  lemma PreviousFindsLowerVersion(v: int, encoders: map<int, Encoder>, k: int)
    requires KeyedByVersion(encoders)
    requires k in encoders && k < v
    ensures PreviousOf(v, encoders).Some?
    ensures PreviousOf(v, encoders).value.subject.version <= k
  {
    var m := MinVersion(encoders);
    var j :| j in encoders && encoders[j].subject.version == m;
    assert m == j;
  }

  // ----- properties of apply -----

  /**
   * A record that does not reach NewEncoder changes nothing, whatever its schema text and whether or
   * not it compiles: apply compiles only after every filter has passed.
   */
  lemma ApplyFiltersBeforeCompiling(compile: Compiler, json: Json, c: Cache, keyBytes: seq<byte>, valueBytes: seq<byte>)
    requires !Inserts(json, c, keyBytes, valueBytes)
    ensures ApplyRecord(compile, json, c, keyBytes, valueBytes) == c
  {
  }

  /** A CONFIG record that parses, with an empty schema text that does not compile, changes nothing. */
  lemma ApplyIgnoresConfigRecord(compile: Compiler, json: Json, c: Cache, keyBytes: seq<byte>, valueBytes: seq<byte>)
    requires json.key(keyBytes).Some? && json.key(keyBytes).value.keytype == "CONFIG"
    requires json.value(valueBytes).Some? && json.value(valueBytes).value.schema == ""
    requires compile("").Failure?
    ensures ApplyRecord(compile, json, c, keyBytes, valueBytes) == c
  {
  }

  /** Empty keys or values (tombstones) change nothing. */
  lemma ApplyIgnoresEmpty(compile: Compiler, json: Json, c: Cache, keyBytes: seq<byte>, valueBytes: seq<byte>)
    requires |keyBytes| < 1 || |valueBytes| < 1
    ensures ApplyRecord(compile, json, c, keyBytes, valueBytes) == c
  {
  }

  /** Unparsable records, non-SCHEMA keys, empty subjects and untracked subjects change nothing. */
  lemma ApplyIgnoresIrrelevant(compile: Compiler, json: Json, c: Cache, keyBytes: seq<byte>, valueBytes: seq<byte>)
    requires || json.key(keyBytes).None? || json.value(valueBytes).None?
             || json.key(keyBytes).value.keytype != "SCHEMA"
             || json.value(valueBytes).value.subject == ""
             || json.value(valueBytes).value.subject !in c.schemas
    ensures ApplyRecord(compile, json, c, keyBytes, valueBytes) == c
  {
  }

  /** A version already present changes nothing, whatever its record says. */
  lemma ApplyIgnoresPresentVersion(compile: Compiler, json: Json, c: Cache, keyBytes: seq<byte>, valueBytes: seq<byte>)
    requires json.value(valueBytes).Some?
    requires var v := json.value(valueBytes).value; v.subject in c.schemas && v.version in c.schemas[v.subject]
    ensures ApplyRecord(compile, json, c, keyBytes, valueBytes) == c
  {
  }

  /** Without an entry below the new version, or when that entry has no decoder, nothing changes. */
  lemma ApplyNeedsDecodingPredecessor(compile: Compiler, json: Json, c: Cache, keyBytes: seq<byte>, valueBytes: seq<byte>)
    requires json.value(valueBytes).Some? && json.value(valueBytes).value.subject in c.schemas
    requires var v := json.value(valueBytes).value;
             var p := PreviousOf(v.version, c.schemas[v.subject]);
             p.None? || p.value.subject.jsonDecoder.None?
    ensures ApplyRecord(compile, json, c, keyBytes, valueBytes) == c
  {
  }

  /** A new version of a tracked subject with no version below it in the cache is dropped. */
  lemma ApplyDropsVersionWithoutPredecessor(compile: Compiler, json: Json, c: Cache, keyBytes: seq<byte>, valueBytes: seq<byte>)
    requires json.value(valueBytes).Some? && json.value(valueBytes).value.subject in c.schemas
    requires var v := json.value(valueBytes).value;
             forall k :: k in c.schemas[v.subject] ==> c.schemas[v.subject][k].subject.version >= v.version
    ensures ApplyRecord(compile, json, c, keyBytes, valueBytes) == c
  {
    var v := json.value(valueBytes).value;
    PreviousIsSmallestBelow(v.version, c.schemas[v.subject]);
  }

  /**
   * A record passing every filter, whose schema compiles, files under its subject and version and
   * under its id a new encoder with the record's subject, version, schema and id and the borrowed
   * decoder; no other subject, version or id changes.
   */
  lemma ApplyInserts(compile: Compiler, json: Json, c: Cache, keyBytes: seq<byte>, valueBytes: seq<byte>)
    requires |keyBytes| >= 1 && |valueBytes| >= 1
    requires json.key(keyBytes).Some? && json.value(valueBytes).Some?
    requires json.key(keyBytes).value.keytype == "SCHEMA"
    requires var v := json.value(valueBytes).value;
             && v.subject != "" && v.subject in c.schemas && v.version !in c.schemas[v.subject]
             && PreviousOf(v.version, c.schemas[v.subject]).Some?
             && PreviousOf(v.version, c.schemas[v.subject]).value.subject.jsonDecoder.Some?
             && compile(v.schema).Success?
    ensures var v := json.value(valueBytes).value;
            var d := PreviousOf(v.version, c.schemas[v.subject]).value.subject.jsonDecoder;
            var c' := ApplyRecord(compile, json, c, keyBytes, valueBytes);
            var e := c'.idMap[v.id];
            && v.id in c'.idMap
            && e.subject == Subject(v.schema, v.subject, v.version, v.id, d)
            && e.codec == compile(v.schema).value
            && c'.schemas.Keys == c.schemas.Keys
            && c'.schemas[v.subject] == c.schemas[v.subject][v.version := e]
            && (forall s :: s in c.schemas && s != v.subject ==> c'.schemas[s] == c.schemas[s])
            && (forall id :: id in c.idMap && id != v.id ==> id in c'.idMap && c'.idMap[id] == c.idMap[id])
            && c'.idMap.Keys == c.idMap.Keys + {v.id}
  {
  }

  /** Applying the same record twice leaves what applying it once left. */
  lemma ApplyIdempotent(compile: Compiler, json: Json, c: Cache, keyBytes: seq<byte>, valueBytes: seq<byte>)
    requires CompilesIfInserted(compile, json, c, keyBytes, valueBytes)
    ensures var once := ApplyRecord(compile, json, c, keyBytes, valueBytes);
            CompilesIfInserted(compile, json, once, keyBytes, valueBytes) &&
            ApplyRecord(compile, json, once, keyBytes, valueBytes) == once
  {
  }

  /** c2 keeps every subject and every (subject, version) entry of c1 and tracks no other subject. */
  ghost predicate Extends(c1: Cache, c2: Cache)
  {
    && c2.schemas.Keys == c1.schemas.Keys
    && forall s, v :: s in c1.schemas && v in c1.schemas[s] ==> v in c2.schemas[s] && c2.schemas[s][v] == c1.schemas[s][v]
  }

  /** apply only adds versions: it never starts tracking a subject nor reassigns an existing pair. */
  lemma ApplyExtends(compile: Compiler, json: Json, c: Cache, keyBytes: seq<byte>, valueBytes: seq<byte>)
    requires CompilesIfInserted(compile, json, c, keyBytes, valueBytes)
    ensures Extends(c, ApplyRecord(compile, json, c, keyBytes, valueBytes))
  {
  }

  /** apply files the new encoder under its own id, keeping the IdKeyed invariant. */
  lemma ApplyKeepsIdKeyed(compile: Compiler, json: Json, c: Cache, keyBytes: seq<byte>, valueBytes: seq<byte>)
    requires CompilesIfInserted(compile, json, c, keyBytes, valueBytes)
    requires IdKeyed(c)
    ensures IdKeyed(ApplyRecord(compile, json, c, keyBytes, valueBytes))
  {
  }

  /**
   * Once apply has installed a version, an envelope carrying its id decodes with the new encoder:
   * the new schema's codec and the decoder borrowed from the earlier version.
   */
  lemma {:induction false} ApplyMakesIdDecodable(compile: Compiler, json: Json, c: Cache, keyBytes: seq<byte>,
                                                 valueBytes: seq<byte>, payload: seq<byte>)
    requires CompilesIfInserted(compile, json, c, keyBytes, valueBytes)
    requires json.value(valueBytes).Some? && 0 <= json.value(valueBytes).value.id < Two32
    requires var c' := ApplyRecord(compile, json, c, keyBytes, valueBytes); c' != c
    ensures var v := json.value(valueBytes).value;
            var c' := ApplyRecord(compile, json, c, keyBytes, valueBytes);
            var d := PreviousOf(v.version, c.schemas[v.subject]).value.subject.jsonDecoder;
            Decode(c'.idMap, Prefix(v.id) + payload) == DecodePayload(Borrowing(compile, v, d), v.id, payload)
  {
    var v := json.value(valueBytes).value;
    var c' := ApplyRecord(compile, json, c, keyBytes, valueBytes);
    var d := PreviousOf(v.version, c.schemas[v.subject]).value.subject.jsonDecoder;
    assert c'.idMap[v.id] == Borrowing(compile, v, d);
    DecodeEnvelope(c'.idMap, v.id, payload);
  }

  // ----- properties of the event loop -----

  /** synced ends up true exactly when it already was or a PartitionEnd was among the events. */
  lemma {:induction false} ConsumeSetsSynced(compile: Compiler, json: Json, st: SyncState, events: seq<Event>)
    requires RecordsCompile(compile, json, st, events)
    ensures Consume(compile, json, st, events).synced <==> st.synced || PartitionEnd in events
    decreases |events|
  {
    if events != [] {
      assert events == [events[0]] + events[1..];
      ConsumeSetsSynced(compile, json, Step(compile, json, st, events[0]), events[1..]);
    }
  }

  /** The loop only ever adds versions to tracked subjects, as each apply does. */
  lemma {:induction false} ConsumeExtends(compile: Compiler, json: Json, st: SyncState, events: seq<Event>)
    requires RecordsCompile(compile, json, st, events)
    ensures Extends(st.cache, Consume(compile, json, st, events).cache)
    decreases |events|
  {
    if events != [] {
      var next := Step(compile, json, st, events[0]);
      if events[0].Record? {
        ApplyExtends(compile, json, st.cache, events[0].key, events[0].value);
      }
      ConsumeExtends(compile, json, next, events[1..]);
      var last := Consume(compile, json, next, events[1..]).cache;
      assert Extends(st.cache, next.cache);
      assert Extends(next.cache, last);
      forall s, v | s in st.cache.schemas && v in st.cache.schemas[s]
        ensures v in last.schemas[s] && last.schemas[s][v] == st.cache.schemas[s][v]
      {
        assert v in next.cache.schemas[s];
      }
    }
  }

  /** The loop keeps every idMap entry filed under its own id. */
  lemma {:induction false} ConsumeKeepsIdKeyed(compile: Compiler, json: Json, st: SyncState, events: seq<Event>)
    requires RecordsCompile(compile, json, st, events)
    requires IdKeyed(st.cache)
    ensures IdKeyed(Consume(compile, json, st, events).cache)
    decreases |events|
  {
    if events != [] {
      if events[0].Record? {
        ApplyKeepsIdKeyed(compile, json, st.cache, events[0].key, events[0].value);
      }
      ConsumeKeepsIdKeyed(compile, json, Step(compile, json, st, events[0]), events[1..]);
    }
  }

  /** A sequence with no records leaves the cache as it was; only synced can change. */
  lemma {:induction false} ConsumeWithoutRecords(compile: Compiler, json: Json, st: SyncState, events: seq<Event>)
    requires forall i :: 0 <= i < |events| ==> !events[i].Record?
    ensures RecordsCompile(compile, json, st, events)
    ensures Consume(compile, json, st, events).cache == st.cache
    decreases |events|
  {
    if events != [] {
      ConsumeWithoutRecords(compile, json, Step(compile, json, st, events[0]), events[1..]);
    }
  }
}
