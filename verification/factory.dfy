/**
 * The resolver's object factory: open a URN through the object cache,
 * constructing the object on a miss from the stream factory (symbolic
 * streams), the content-hash indirection (byte-range maps), or the handler
 * registered for the subject's type or, failing that, its URN scheme.
 */
module Factory {
  import opened Wrappers
  import opened Rdf
  import opened Aff4Object
  import opened FactStore
  import OC = ObjectCache

  /** Capacity of the object cache every resolver starts with. */
  const ResolverCacheSize: nat := 10

  /** URNs with this prefix name content by its hash and are opened through their data stream. */
  const HashUrnPrefix: string := "aff4:sha512"

  /** The resolver state the factory reads and changes: the fact store and the object cache. */
  datatype Resolver = Resolver(db: Stores, cache: OC.Cache)

  ghost predicate ResolverOk(r: Resolver) {
    StoresOk(r.db) && OC.Valid(r.cache)
  }

  datatype FactoryError =
    | CannotCreate(urn: string)         // no handler for any type of the URN, nor for its scheme
    | NoDataStream(urn: string)         // a hash URN without a data-stream fact
    | GetMissingArgument(urn: string)   // the fact-store lookup is called with too few arguments

  function NewResolver(): (r: Resolver)
    ensures ResolverOk(r)
    ensures r.cache.maxItems == ResolverCacheSize
    ensures r.cache.inUse == map[] && r.cache.lruMap == map[] && r.cache.lru == [] && r.cache.log == []
    ensures r.db == EmptyStores()
    ensures forall t :: !HasTriple(r.db.persistent, t) && !HasTriple(r.db.transient, t)
  {
    Resolver(EmptyStores(), OC.NewCache(ResolverCacheSize))
  }

  /** Handler lookup by the subject's type values, tried in order. */
  function FirstRegistered(registry: map<string, Handler>, types: seq<string>): (r: Option<Handler>)
    ensures r.None? <==> forall i :: 0 <= i < |types| ==> types[i] !in registry
    ensures r.Some? ==> exists i :: FirstRegisteredAt(registry, types, i) && r.value == registry[types[i]]
  {
    if types == [] then None
    else if types[0] in registry then
      assert FirstRegisteredAt(registry, types, 0);
      Some(registry[types[0]])
    else
      var rest := FirstRegistered(registry, types[1..]);
      if rest.Some? then
        var i :| FirstRegisteredAt(registry, types[1..], i) && rest.value == registry[types[1..][i]];
        assert FirstRegisteredAt(registry, types, i + 1);
        rest
      else
        assert forall i :: 0 <= i < |types| ==> types[i] !in registry by {
          forall i | 0 <= i < |types| ensures types[i] !in registry {
            if i > 0 { assert types[i] == types[1..][i - 1]; }
          }
        }
        None
  }

  /** `types[i]` is registered and no earlier type is. */
  predicate FirstRegisteredAt(registry: map<string, Handler>, types: seq<string>, i: int) {
    && 0 <= i < |types|
    && types[i] in registry
    && forall j :: 0 <= j < i ==> types[j] !in registry
  }

  /**
   * The dispatch: the handler of the first registered type wins; the
   * scheme's handler is used only when none of the types is registered.
   */
  function SelectHandler(registry: map<string, Handler>, types: seq<string>, scheme: string): (r: Option<Handler>)
    ensures r.None? <==> (forall i :: 0 <= i < |types| ==> types[i] !in registry) && scheme !in registry
    ensures forall i :: FirstRegisteredAt(registry, types, i) ==> r == Some(registry[types[i]])
    ensures (forall i :: 0 <= i < |types| ==> types[i] !in registry) && scheme in registry ==> r == Some(registry[scheme])
  {
    var byType := FirstRegistered(registry, types);
    if byType.Some? then
      assert forall i :: FirstRegisteredAt(registry, types, i) ==> byType == Some(registry[types[i]]) by {
        forall i | FirstRegisteredAt(registry, types, i) ensures byType == Some(registry[types[i]]) {
          var k :| FirstRegisteredAt(registry, types, k) && byType.value == registry[types[k]];
        }
      }
      byType
    else if scheme in registry then Some(registry[scheme])
    else None
  }

  /** Type values appended after a registered one never change the choice. */
  lemma {:induction false} LaterTypesIrrelevant(registry: map<string, Handler>, types: seq<string>, more: seq<string>)
    requires exists i :: 0 <= i < |types| && types[i] in registry
    ensures FirstRegistered(registry, types + more) == FirstRegistered(registry, types)
  {
    if types[0] in registry {
      assert (types + more)[0] == types[0];
    } else {
      assert (types + more)[1..] == types[1..] + more;
      var i :| 0 <= i < |types| && types[i] in registry;
      assert i > 0;
      assert types[1..][i - 1] in registry;
      LaterTypesIrrelevant(registry, types[1..], more);
    }
  }

  /** The canonical strings of a list of values, in order. */
  function SerializeAll(vs: seq<Value>): (r: seq<string>)
    ensures |r| == |vs|
    ensures forall i :: 0 <= i < |vs| ==> r[i] == Serialize(vs[i])
  {
    if vs == [] then [] else [Serialize(vs[0])] + SerializeAll(vs[1..])
  }

  /** The subject's type values from both stores (transient first), as registry keys. */
  function TypeNames(db: Stores, lex: Lexicon, urn: string): seq<string> {
    SerializeAll(FetchedValues(Get(db, AnyGraph, urn, lex.typeAttr)))
  }

  /** The values of the data-stream attribute of a hash URN, from both stores (transient first). */
  function DataStreams(db: Stores, lex: Lexicon, urn: string): seq<Value> {
    FetchedValues(Get(db, AnyGraph, urn, lex.dataStream))
  }

  /** The cache with `obj`, which it did not hold, newly in use by one holder; nothing else differs. */
  function Pinned(c: OC.Cache, obj: Obj): OC.Cache {
    c.(inUse := c.inUse[obj.urn := OC.Entry(obj, 1)])
  }

  /** Registers a freshly built object as in use with one holder. */
  function Admit(r: Resolver, obj: Obj): (res: (Resolver, Obj))
    requires ResolverOk(r) && obj.urn !in r.cache.inUse && obj.urn !in r.cache.lruMap
    ensures res.1 == obj && res.0.db == r.db
    ensures res.0.cache == Pinned(r.cache, obj)
    ensures ResolverOk(res.0)
  {
    (r.(cache := OC.Put(r.cache, obj, true).value), obj)
  }

  /**
   * Opens `urn`: a cached object is handed out again with one more holder;
   * otherwise a symbolic stream, a hash URN's byte-range map (itself looked
   * up in the cache first) or a handler-built object is constructed and
   * cached as in use. `symbolic` says whether the stream factory recognises
   * `urn`; `scheme` is the URN's scheme. The fact store, the idle part of
   * the cache and the flush log are never changed by an open.
   */
  function FactoryOpen(r: Resolver, lex: Lexicon, registry: map<string, Handler>, urn: string, symbolic: bool, scheme: string)
    : (res: Result<(Resolver, Obj), FactoryError>)
    requires ResolverOk(r)
    ensures res.Success? ==>
      && ResolverOk(res.value.0)
      && res.value.0.db == r.db
      && res.value.0.cache.maxItems == r.cache.maxItems
      && res.value.0.cache.log == r.cache.log
      && res.value.1.urn in res.value.0.cache.inUse
      && res.value.0.cache.inUse[res.value.1.urn].obj == res.value.1
      && OC.UseCount(res.value.0.cache, res.value.1.urn) == OC.UseCount(r.cache, res.value.1.urn) + 1
    ensures res.Failure? ==> res.error.urn == urn
    // a cached object is returned as it is, the cache changing as a lookup changes it
    ensures urn in r.cache.inUse ==> res.Success? && res.value.1 == r.cache.inUse[urn].obj
    ensures urn in r.cache.lruMap ==> res.Success? && res.value.1 == r.cache.lruMap[urn].obj
    ensures urn in r.cache.inUse || urn in r.cache.lruMap ==> res.Success? && res.value.0.cache == OC.Get(r.cache, urn).0
    // on a miss the three construction paths
    ensures urn !in r.cache.inUse && urn !in r.cache.lruMap && symbolic ==>
      && res.Success? && res.value.1 == Obj(urn, SymbolicStream, false)
      && res.value.0.cache == Pinned(r.cache, res.value.1)
    ensures urn !in r.cache.inUse && urn !in r.cache.lruMap && !symbolic && HashUrnPrefix <= urn ==>
      && (res.Failure? <==> DataStreams(r.db, lex, urn) == [])
      && (res.Failure? ==> res.error == NoDataStream(urn))
      && (res.Success? ==> OpenedTarget(r.cache, Serialize(DataStreams(r.db, lex, urn)[0]), res.value.0.cache, res.value.1))
    ensures urn !in r.cache.inUse && urn !in r.cache.lruMap && !symbolic && !(HashUrnPrefix <= urn) ==>
      && (res.Failure? <==> SelectHandler(registry, TypeNames(r.db, lex, urn), scheme).None?)
      && (res.Failure? ==> res.error == CannotCreate(urn))
      && (res.Success? ==>
            && res.value.1 == Obj(urn, Typed(SelectHandler(registry, TypeNames(r.db, lex, urn), scheme).value), false)
            && res.value.0.cache == Pinned(r.cache, res.value.1))
  {
    var (c1, hit) := OC.Get(r.cache, urn);
    if hit.Some? then Success((r.(cache := c1), hit.value))
    else if symbolic then Success(Admit(r, Obj(urn, SymbolicStream, false)))
    else if HashUrnPrefix <= urn then
      var targets := DataStreams(r.db, lex, urn);
      if targets == [] then Failure(NoDataStream(urn))
      else
        var target := Serialize(targets[0]);
        var (c2, hit2) := OC.Get(r.cache, target);
        if hit2.Some? then Success((r.(cache := c2), hit2.value))
        else Success(Admit(r, Obj(target, ByteRangeMap, false)))
    else
      match SelectHandler(registry, TypeNames(r.db, lex, urn), scheme)
      case None => Failure(CannotCreate(urn))
      case Some(h) => Success(Admit(r, Obj(urn, Typed(h), false)))
  }

  /**
   * How a hash URN's target `t` is opened: a cached target is handed out as
   * it is, the cache changing as a lookup of `t` changes it; otherwise a new
   * byte-range map of `t` is cached as in use.
   */
  ghost predicate OpenedTarget(c: OC.Cache, t: string, c': OC.Cache, obj: Obj)
    requires OC.Valid(c)
  {
    if t in c.inUse || t in c.lruMap then
      && obj == (if t in c.inUse then c.inUse[t].obj else c.lruMap[t].obj)
      && c' == OC.Get(c, t).0
    else
      obj == Obj(t, ByteRangeMap, false) && c' == Pinned(c, obj)
  }

  /**
   * Opening the same URN again hands out the very same object with one
   * more holder, whichever path built it the first time.
   */
  lemma OpenTwiceSameObject(r: Resolver, lex: Lexicon, registry: map<string, Handler>, urn: string, symbolic: bool, scheme: string)
    requires ResolverOk(r)
    requires FactoryOpen(r, lex, registry, urn, symbolic, scheme).Success?
    ensures var (r1, o) := FactoryOpen(r, lex, registry, urn, symbolic, scheme).value;
      && FactoryOpen(r1, lex, registry, urn, symbolic, scheme).Success?
      && FactoryOpen(r1, lex, registry, urn, symbolic, scheme).value.1 == o
      && OC.UseCount(FactoryOpen(r1, lex, registry, urn, symbolic, scheme).value.0.cache, o.urn) == OC.UseCount(r1.cache, o.urn) + 1
  {
    var (r1, o) := FactoryOpen(r, lex, registry, urn, symbolic, scheme).value;
    if urn !in r.cache.inUse && urn !in r.cache.lruMap && !symbolic && HashUrnPrefix <= urn {
      assert o.urn in r1.cache.inUse;
      assert (urn !in r1.cache.inUse && urn !in r1.cache.lruMap) || urn == o.urn;
    }
  }

  /**
   * The factory as written: on an uncached, non-symbolic hash URN it calls
   * the fact-store lookup without a graph argument, which fails before any
   * object is built. Every other path is the same as FactoryOpen.
   */
  function FactoryOpenAsWritten(r: Resolver, lex: Lexicon, registry: map<string, Handler>, urn: string, symbolic: bool, scheme: string)
    : (res: Result<(Resolver, Obj), FactoryError>)
    requires ResolverOk(r)
    ensures urn !in r.cache.inUse && urn !in r.cache.lruMap && !symbolic && HashUrnPrefix <= urn ==>
      res == Failure(GetMissingArgument(urn))
    ensures !(urn !in r.cache.inUse && urn !in r.cache.lruMap && !symbolic && HashUrnPrefix <= urn) ==>
      res == FactoryOpen(r, lex, registry, urn, symbolic, scheme)
  {
    var (_, hit) := OC.Get(r.cache, urn);
    if hit.None? && !symbolic && HashUrnPrefix <= urn then Failure(GetMissingArgument(urn))
    else FactoryOpen(r, lex, registry, urn, symbolic, scheme)
  }

  /**
   * A fresh resolver whose volume records one data stream, `aff4://stream`,
   * for the hash URN `aff4:sha512:00`.
   */
  function HashUrnResolver(lex: Lexicon): (r: Resolver)
    ensures ResolverOk(r) && r.cache.inUse == map[] && r.cache.lruMap == map[]
    ensures DataStreams(r.db, lex, "aff4:sha512:00") == [Urn("aff4://stream")]
  {
    var e := EmptyStores();
    var db := Add(e, NamedGraph("aff4://volume"), "aff4:sha512:00", lex.dataStream, Urn("aff4://stream"));
    assert DataStreams(db, lex, "aff4:sha512:00") == [Urn("aff4://stream")] by {
      assert Lookup(db.persistent, "aff4:sha512:00", lex.dataStream) == Some(One(Urn("aff4://stream"))) by {
        assert Lookup(e.persistent, "aff4:sha512:00", lex.dataStream) == None;
      }
      assert Lookup(db.transient, "aff4:sha512:00", lex.dataStream) == None;
    }
    Resolver(db, OC.NewCache(ResolverCacheSize))
  }

  /**
   * A hash URN with a recorded data stream: the factory as written fails
   * to open it, while the corrected factory builds the byte-range map of
   * the stream it names.
   */
  lemma HashUrnCounterexample(lex: Lexicon)
    ensures FactoryOpenAsWritten(HashUrnResolver(lex), lex, map[], "aff4:sha512:00", false, "aff4")
      == Failure(GetMissingArgument("aff4:sha512:00"))
    ensures FactoryOpen(HashUrnResolver(lex), lex, map[], "aff4:sha512:00", false, "aff4").Success?
    ensures FactoryOpen(HashUrnResolver(lex), lex, map[], "aff4:sha512:00", false, "aff4").value.1
      == Obj("aff4://stream", ByteRangeMap, false)
  {
    assert HashUrnPrefix <= "aff4:sha512:00";
    OpenHashIntoEmptyCache(HashUrnResolver(lex), lex, "aff4:sha512:00", Urn("aff4://stream"));
  }

  /** With nothing cached, a hash URN opens as a new byte-range map of its first data stream. */
  lemma OpenHashIntoEmptyCache(r: Resolver, lex: Lexicon, urn: string, stream: Value)
    requires ResolverOk(r) && r.cache.inUse == map[] && r.cache.lruMap == map[]
    requires HashUrnPrefix <= urn && DataStreams(r.db, lex, urn) == [stream]
    ensures FactoryOpen(r, lex, map[], urn, false, "aff4").Success?
    ensures FactoryOpen(r, lex, map[], urn, false, "aff4").value.1 == Obj(Serialize(stream), ByteRangeMap, false)
  {
  }
}
