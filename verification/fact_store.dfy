/**
 * The resolver's fact store: two insertion-ordered stores (persistent and
 * transient), each mapping a subject URN to an insertion-ordered map from
 * attribute URN to a slot that holds one value or a list of values.
 *
 * Subjects and attributes are taken in their canonical serialized form;
 * the URN normalisation of pyaff4 is the identity here.
 */
module FactStore {
  import opened Wrappers
  import opened Seqs
  import opened Rdf
  import OD = OrderedDict

  /** An attribute slot: a single value, or a list once a second distinct value arrived. */
  datatype Slot = One(v: Value) | Many(vs: seq<Value>)

  /** The values of a slot, a single value counting as a one-element list. */
  function ValuesOf(s: Slot): seq<Value> {
    match s
    case One(v) => [v]
    case Many(vs) => vs
  }

  /** A list slot only arises from two distinct values and never holds a value twice. */
  ghost predicate SlotOk(s: Slot) {
    s.Many? ==> |s.vs| >= 2 && NoDups(s.vs)
  }

  type Attrs = OD.ODict<Slot>
  type Store = OD.ODict<Attrs>

  ghost predicate StoreOk(st: Store) {
    && OD.Valid(st)
    && (forall s :: s in st.m ==> OD.Valid(st.m[s]))
    && (forall s, a :: s in st.m && a in st.m[s].m ==> SlotOk(st.m[s].m[a]))
  }

  /** A (subject, attribute, value) fact. */
  datatype Triple = Triple(subject: string, attr: string, value: Value)

  /** The slot for (`s`, `a`), if any. */
  function Lookup(st: Store, s: string, a: string): Option<Slot> {
    if s in st.m && a in st.m[s].m then Some(st.m[s].m[a]) else None
  }

  /** The store records value `v` for attribute `a` of subject `s`. */
  predicate HasFact(st: Store, s: string, a: string, v: Value) {
    s in st.m && a in st.m[s].m && v in ValuesOf(st.m[s].m[a])
  }

  predicate HasTriple(st: Store, t: Triple) {
    HasFact(st, t.subject, t.attr, t.value)
  }

  /**
   * Adds `v` to a slot: an empty slot becomes the scalar `v`; an equal scalar
   * stays; a distinct scalar becomes the list [previous, v]; a list gains `v` at
   * its end unless it already holds it.
   */
  function AddValue(prev: Option<Slot>, v: Value): (r: Slot)
    ensures prev.None? ==> r == One(v)
    ensures prev == Some(One(v)) ==> r == One(v)
    ensures prev.Some? && prev.value.One? && prev.value.v != v ==> r == Many([prev.value.v, v])
    ensures prev.Some? ==> ValuesOf(r) == ValuesOf(prev.value) + (if v in ValuesOf(prev.value) then [] else [v])
    ensures prev.None? || SlotOk(prev.value) ==> SlotOk(r)
  {
    match prev
    case None => One(v)
    case Some(One(o)) => if v == o then One(o) else Many([o, v])
    case Some(Many(vs)) =>
      if v in vs then Many(vs)
      else
        assert NoDups(vs) ==> NoDups(vs + [v]) by {
          if NoDups(vs) {
            forall i, j | 0 <= i < j < |vs + [v]| ensures (vs + [v])[i] != (vs + [v])[j] {
              if j == |vs| { assert (vs + [v])[i] == vs[i]; }
            }
          }
        }
        Many(vs + [v])
  }

  /** Adding a value twice is the same as adding it once. */
  lemma AddValueIdempotent(prev: Option<Slot>, v: Value)
    ensures AddValue(Some(AddValue(prev, v)), v) == AddValue(prev, v)
  {
  }

  /**
   * The insertion order a write of (`s`, `a`) keeps: a new subject joins the
   * end of the subject order, a new attribute the end of its subject's
   * attribute order, existing keys keep their places, and the attribute
   * maps of all other subjects are untouched.
   */
  ghost predicate KeyOrderAfterWrite(st: Store, r: Store, s: string, a: string) {
    && r.keys == (if s in st.m then st.keys else st.keys + [s])
    && s in r.m
    && r.m[s].keys == (if s in st.m then (if a in st.m[s].m then st.m[s].keys else st.m[s].keys + [a]) else [a])
    && forall s' :: s' in st.m && s' != s ==> s' in r.m && r.m[s'] == st.m[s']
  }

  /** Replaces the slot for (`s`, `a`), creating the subject (last) or the attribute (last) when new. */
  function PutSlot(st: Store, s: string, a: string, slot: Slot): (r: Store)
    requires StoreOk(st) && SlotOk(slot)
    ensures StoreOk(r)
    ensures Lookup(r, s, a) == Some(slot)
    ensures forall s', a' :: (s', a') != (s, a) ==> Lookup(r, s', a') == Lookup(st, s', a')
    ensures KeyOrderAfterWrite(st, r, s, a)
  {
    var attrs := if s in st.m then st.m[s] else OD.Empty();
    var attrs' := OD.Put(attrs, a, slot);
    assert forall a' :: a' in attrs'.m ==> SlotOk(attrs'.m[a']);
    var r := OD.Put(st, s, attrs');
    assert StoreOk(r) by { StoreOkAfterPut(st, s, attrs'); }
    r
  }

  /** Storing a well-formed attribute map under a subject keeps the store well formed. */
  lemma StoreOkAfterPut(st: Store, s: string, attrs: Attrs)
    requires StoreOk(st) && OD.Valid(attrs)
    requires forall a :: a in attrs.m ==> SlotOk(attrs.m[a])
    ensures StoreOk(OD.Put(st, s, attrs))
  {
  }

  /**
   * Add on one store: accumulates `v` into the slot for (`s`, `a`) without
   * duplicates and leaves every other slot alone.
   */
  function AddFact(st: Store, s: string, a: string, v: Value): (r: Store)
    requires StoreOk(st)
    ensures StoreOk(r)
    ensures Lookup(r, s, a) == Some(AddValue(Lookup(st, s, a), v))
    ensures forall s', a' :: (s', a') != (s, a) ==> Lookup(r, s', a') == Lookup(st, s', a')
    ensures forall t :: HasTriple(r, t) <==> HasTriple(st, t) || t == Triple(s, a, v)
    ensures KeyOrderAfterWrite(st, r, s, a)
  {
    var prev := Lookup(st, s, a);
    var slot := AddValue(prev, v);
    var r := PutSlot(st, s, a, slot);
    assert forall t :: HasTriple(r, t) <==> HasTriple(st, t) || t == Triple(s, a, v) by {
      assert forall x :: x in ValuesOf(slot) <==> (prev.Some? && x in ValuesOf(prev.value)) || x == v;
      TriplesAfterPut(st, r, s, a, slot);
    }
    r
  }

  /** The facts of a store in which only the slot for (`s`, `a`) was replaced by `slot`. */
  lemma TriplesAfterPut(st: Store, r: Store, s: string, a: string, slot: Slot)
    requires Lookup(r, s, a) == Some(slot)
    requires forall s', a' :: (s', a') != (s, a) ==> Lookup(r, s', a') == Lookup(st, s', a')
    ensures forall t :: HasTriple(r, t) <==>
      || (HasTriple(st, t) && (t.subject != s || t.attr != a))
      || (t.subject == s && t.attr == a && t.value in ValuesOf(slot))
  {
    forall t ensures HasTriple(r, t) <==>
      || (HasTriple(st, t) && (t.subject != s || t.attr != a))
      || (t.subject == s && t.attr == a && t.value in ValuesOf(slot))
    {
      if t.subject != s || t.attr != a {
        assert Lookup(r, t.subject, t.attr) == Lookup(st, t.subject, t.attr);
      }
    }
  }

  /** Set on one store: the slot for (`s`, `a`) becomes the single value `v`; no other slot changes. */
  function SetFact(st: Store, s: string, a: string, v: Value): (r: Store)
    requires StoreOk(st)
    ensures StoreOk(r)
    ensures Lookup(r, s, a) == Some(One(v))
    ensures forall s', a' :: (s', a') != (s, a) ==> Lookup(r, s', a') == Lookup(st, s', a')
    ensures KeyOrderAfterWrite(st, r, s, a)
  {
    PutSlot(st, s, a, One(v))
  }

  /**
   * The graph selector: the any-graph token (or no graph), the transient
   * graph, or a named graph (a volume URN), which means the persistent store.
   */
  datatype Graph = AnyGraph | TransientGraph | NamedGraph(name: string)

  datatype Stores = Stores(persistent: Store, transient: Store)

  ghost predicate StoresOk(db: Stores) {
    StoreOk(db.persistent) && StoreOk(db.transient)
  }

  function EmptyStores(): (db: Stores)
    ensures StoresOk(db)
    ensures db.persistent == OD.Empty() && db.transient == OD.Empty()
    ensures db.persistent.m == map[] && db.transient.m == map[]
    ensures forall t :: !HasTriple(db.persistent, t) && !HasTriple(db.transient, t)
  {
    Stores(OD.Empty(), OD.Empty())
  }

  /** The store a write with selector `g` goes to: the transient one only for the transient graph. */
  function WriteStore(db: Stores, g: Graph): Store {
    if g.TransientGraph? then db.transient else db.persistent
  }

  /** Reads with `g` see the persistent store unless `g` is the transient graph. */
  predicate ReadsPersistent(g: Graph) {
    !g.TransientGraph?
  }

  /** Reads with `g` see the transient store for the transient graph and for the any-graph. */
  predicate ReadsTransient(g: Graph) {
    !g.NamedGraph?
  }

  /**
   * Add: accumulates into the transient store for the transient graph and
   * into the persistent store for any other selector (the any-graph too);
   * the other store is untouched.
   */
  function Add(db: Stores, g: Graph, s: string, a: string, v: Value): (r: Stores)
    requires StoresOk(db)
    ensures StoresOk(r)
    ensures g.TransientGraph? ==> r.persistent == db.persistent
    ensures !g.TransientGraph? ==> r.transient == db.transient
    ensures Lookup(WriteStore(r, g), s, a) == Some(AddValue(Lookup(WriteStore(db, g), s, a), v))
    ensures forall s', a' :: (s', a') != (s, a) ==> Lookup(WriteStore(r, g), s', a') == Lookup(WriteStore(db, g), s', a')
    ensures forall t :: HasTriple(WriteStore(r, g), t) <==> HasTriple(WriteStore(db, g), t) || t == Triple(s, a, v)
    ensures KeyOrderAfterWrite(WriteStore(db, g), WriteStore(r, g), s, a)
  {
    if g.TransientGraph? then db.(transient := AddFact(db.transient, s, a, v))
    else db.(persistent := AddFact(db.persistent, s, a, v))
  }

  /** Set: overwrites the slot with the single value, in the store `g` writes to. */
  function Set(db: Stores, g: Graph, s: string, a: string, v: Value): (r: Stores)
    requires StoresOk(db)
    ensures StoresOk(r)
    ensures g.TransientGraph? ==> r.persistent == db.persistent
    ensures !g.TransientGraph? ==> r.transient == db.transient
    ensures Lookup(WriteStore(r, g), s, a) == Some(One(v))
    ensures forall s', a' :: (s', a') != (s, a) ==> Lookup(WriteStore(r, g), s', a') == Lookup(WriteStore(db, g), s', a')
    ensures KeyOrderAfterWrite(WriteStore(db, g), WriteStore(r, g), s, a)
  {
    if g.TransientGraph? then db.(transient := SetFact(db.transient, s, a, v))
    else db.(persistent := SetFact(db.persistent, s, a, v))
  }

  /**
   * What Get hands back: one store's slot, or for the any-graph both slots,
   * which pyaff4 merges with a list helper that is not part of this model.
   */
  datatype Fetched = Single(slot: Option<Slot>) | Merged(transient: Option<Slot>, persistent: Option<Slot>)

  function Get(db: Stores, g: Graph, s: string, a: string): (r: Fetched)
    ensures g.AnyGraph? <==> r.Merged?
    ensures r.Single? ==> r.slot == Lookup(if g.TransientGraph? then db.transient else db.persistent, s, a)
    ensures r.Merged? ==> r.transient == Lookup(db.transient, s, a) && r.persistent == Lookup(db.persistent, s, a)
  {
    match g
    case AnyGraph => Merged(Lookup(db.transient, s, a), Lookup(db.persistent, s, a))
    case TransientGraph => Single(Lookup(db.transient, s, a))
    case NamedGraph(_) => Single(Lookup(db.persistent, s, a))
  }

  /** The values a Get result carries (an absent slot carries none). */
  function FetchedValues(f: Fetched): seq<Value> {
    match f
    case Single(None) => []
    case Single(Some(sl)) => ValuesOf(sl)
    case Merged(t, p) =>
      (if t.Some? then ValuesOf(t.value) else []) + (if p.Some? then ValuesOf(p.value) else [])
  }

  /** After Add with any selector, Get with the same selector sees the value among the slot's values. */
  lemma AddThenGet(db: Stores, g: Graph, s: string, a: string, v: Value)
    requires StoresOk(db)
    ensures v in FetchedValues(Get(Add(db, g, s, a, v), g, s, a))
  {
    var prev := Lookup(WriteStore(db, g), s, a);
    assert v in ValuesOf(AddValue(prev, v));
  }

  /**
   * After Set through one graph, Get through the same graph sees exactly
   * the new scalar; after Set through the any-graph, the persistent slot
   * holds it and the transient slot is what it was.
   */
  lemma SetThenGet(db: Stores, g: Graph, s: string, a: string, v: Value)
    requires StoresOk(db)
    ensures !g.AnyGraph? ==> Get(Set(db, g, s, a, v), g, s, a) == Single(Some(One(v)))
    ensures g.AnyGraph? ==> Get(Set(db, g, s, a, v), g, s, a) == Merged(Lookup(db.transient, s, a), Some(One(v)))
  {
  }

  /**
   * Adding the same value twice leaves the store as adding it once: a
   * repeated fact never turns a scalar into a list holding a duplicate.
   */
  lemma AddTwiceIsAddOnce(db: Stores, g: Graph, s: string, a: string, v: Value)
    requires StoresOk(db)
    ensures Get(Add(Add(db, g, s, a, v), g, s, a, v), g, s, a) == Get(Add(db, g, s, a, v), g, s, a)
  {
    AddValueIdempotent(Lookup(WriteStore(db, g), s, a), v);
  }

  /**
   * Writes through the transient graph are invisible to reads through a
   * named graph and vice versa.
   */
  lemma WritesIsolated(db: Stores, s: string, a: string, v: Value, name: string, s': string, a': string)
    requires StoresOk(db)
    ensures Get(Add(db, TransientGraph, s, a, v), NamedGraph(name), s', a') == Get(db, NamedGraph(name), s', a')
    ensures Get(Set(db, TransientGraph, s, a, v), NamedGraph(name), s', a') == Get(db, NamedGraph(name), s', a')
    ensures Get(Add(db, NamedGraph(name), s, a, v), TransientGraph, s', a') == Get(db, TransientGraph, s', a')
    ensures Get(Set(db, NamedGraph(name), s, a, v), TransientGraph, s', a') == Get(db, TransientGraph, s', a')
  {
    OtherStoreUntouched(db, TransientGraph, s, a, v);
    OtherStoreUntouched(db, NamedGraph(name), s, a, v);
  }

  /** Add and Set leave alone the store their selector does not write. */
  lemma OtherStoreUntouched(db: Stores, g: Graph, s: string, a: string, v: Value)
    requires StoresOk(db) && !g.AnyGraph?
    ensures g.TransientGraph? ==> Add(db, g, s, a, v).persistent == db.persistent && Set(db, g, s, a, v).persistent == db.persistent
    ensures g.NamedGraph? ==> Add(db, g, s, a, v).transient == db.transient && Set(db, g, s, a, v).transient == db.transient
  {
  }

  // ---------------------------------------------------------------------
  // Scans. Each query walks the selected store(s) in insertion order; the
  // any-graph walks the persistent store and then the transient one.
  // ---------------------------------------------------------------------

  /** The triples (`s`, `p`, v) for each v of `vs`, in order. */
  function Tag(s: string, p: string, vs: seq<Value>): (r: seq<Triple>)
    ensures forall t :: t in r <==> t.subject == s && t.attr == p && t.value in vs
  {
    if vs == [] then [] else [Triple(s, p, vs[0])] + Tag(s, p, vs[1..])
  }

  /** Every value of predicate `p` of the subjects `keys`, as triples, in order. */
  function PredicateScan(st: Store, keys: seq<string>, p: string): (r: seq<Triple>)
    ensures forall t :: t in r <==> t.subject in keys && t.attr == p && HasTriple(st, t)
  {
    if keys == [] then []
    else
      var s := keys[0];
      (if s in st.m && p in st.m[s].m then Tag(s, p, ValuesOf(st.m[s].m[p])) else [])
        + PredicateScan(st, keys[1..], p)
  }

  /** QueryPredicate: every (subject, `p`, value) fact in the selected store(s). */
  function QueryPredicate(db: Stores, g: Graph, p: string): (r: seq<Triple>)
    requires StoresOk(db)
    ensures forall t :: t in r <==>
      && t.attr == p
      && ((ReadsPersistent(g) && HasTriple(db.persistent, t)) || (ReadsTransient(g) && HasTriple(db.transient, t)))
  {
    match g
    case AnyGraph => PredicateScan(db.persistent, db.persistent.keys, p) + PredicateScan(db.transient, db.transient.keys, p)
    case TransientGraph => PredicateScan(db.transient, db.transient.keys, p)
    case NamedGraph(_) => PredicateScan(db.persistent, db.persistent.keys, p)
  }

  /** The subjects among `keys`, in order, that hold value `o` for predicate `p`. */
  function PredicateObjectScan(st: Store, keys: seq<string>, p: string, o: Value): (r: seq<string>)
    ensures forall s :: s in r <==> s in keys && HasFact(st, s, p, o)
  {
    if keys == [] then []
    else
      var s := keys[0];
      (if s in st.m && p in st.m[s].m && o in ValuesOf(st.m[s].m[p]) then [s] else [])
        + PredicateObjectScan(st, keys[1..], p, o)
  }

  /** QueryPredicateObject: the subjects holding value `o` for `p` (scalar or list member). */
  function QueryPredicateObject(db: Stores, g: Graph, p: string, o: Value): (r: seq<string>)
    requires StoresOk(db)
    ensures forall s :: s in r <==>
      (ReadsPersistent(g) && HasFact(db.persistent, s, p, o)) || (ReadsTransient(g) && HasFact(db.transient, s, p, o))
  {
    match g
    case AnyGraph => PredicateObjectScan(db.persistent, db.persistent.keys, p, o) + PredicateObjectScan(db.transient, db.transient.keys, p, o)
    case TransientGraph => PredicateObjectScan(db.transient, db.transient.keys, p, o)
    case NamedGraph(_) => PredicateObjectScan(db.persistent, db.persistent.keys, p, o)
  }

  /** The values of predicate `p` of every key among `keys` equal to `s`, in order. */
  function SubjectScan(st: Store, keys: seq<string>, s: string, p: string): (r: seq<Value>)
    ensures forall v :: v in r <==> s in keys && HasFact(st, s, p, v)
  {
    if keys == [] then []
    else
      (if keys[0] == s && s in st.m && p in st.m[s].m then ValuesOf(st.m[s].m[p]) else [])
        + SubjectScan(st, keys[1..], s, p)
  }

  /** The values of the slot for (`s`, `p`), none when it is absent. */
  function SlotValues(st: Store, s: string, p: string): seq<Value> {
    match Lookup(st, s, p)
    case None => []
    case Some(sl) => ValuesOf(sl)
  }

  /** Since the subjects are distinct, scanning for one subject finds exactly its slot. */
  lemma {:induction false} SubjectScanIsLookup(st: Store, keys: seq<string>, s: string, p: string)
    requires NoDups(keys)
    requires forall k :: k in keys ==> k in st.m
    ensures SubjectScan(st, keys, s, p) == if s in keys then SlotValues(st, s, p) else []
  {
    if keys != [] {
      assert NoDups(keys[1..]) by {
        forall i, j | 0 <= i < j < |keys[1..]| ensures keys[1..][i] != keys[1..][j] {
          assert keys[1..][i] == keys[i + 1] && keys[1..][j] == keys[j + 1];
        }
      }
      SubjectScanIsLookup(st, keys[1..], s, p);
      if keys[0] == s {
        assert s !in keys[1..] by {
          forall i | 1 <= i < |keys| ensures keys[i] != s { }
        }
      } else {
        assert s in keys <==> s in keys[1..] by {
          assert keys == [keys[0]] + keys[1..];
        }
      }
    }
  }

  /** QuerySubjectPredicate: every value of (`s`, `p`) in the selected store(s). */
  function QuerySubjectPredicate(db: Stores, g: Graph, s: string, p: string): (r: seq<Value>)
    requires StoresOk(db)
    ensures forall v :: v in r <==>
      (ReadsPersistent(g) && HasFact(db.persistent, s, p, v)) || (ReadsTransient(g) && HasFact(db.transient, s, p, v))
  {
    match g
    case AnyGraph => SubjectScan(db.persistent, db.persistent.keys, s, p) + SubjectScan(db.transient, db.transient.keys, s, p)
    case TransientGraph => SubjectScan(db.transient, db.transient.keys, s, p)
    case NamedGraph(_) => SubjectScan(db.persistent, db.persistent.keys, s, p)
  }

  /**
   * QuerySubjectPredicate agrees with Get: on one graph it yields exactly the
   * slot's values in order (a scalar as a one-element list); on the
   * any-graph the persistent values come before the transient ones.
   */
  lemma QuerySubjectPredicateAgreesWithGet(db: Stores, g: Graph, s: string, p: string)
    requires StoresOk(db)
    ensures !g.AnyGraph? ==> QuerySubjectPredicate(db, g, s, p) == FetchedValues(Get(db, g, s, p))
    ensures g.AnyGraph? ==> QuerySubjectPredicate(db, g, s, p) == SlotValues(db.persistent, s, p) + SlotValues(db.transient, s, p)
  {
    SubjectScanIsLookup(db.persistent, db.persistent.keys, s, p);
    SubjectScanIsLookup(db.transient, db.transient.keys, s, p);
  }

  /** The subjects among `keys`, in order, that start with `prefix`. */
  function PrefixScan(st: Store, keys: seq<string>, prefix: string): (r: seq<string>)
    ensures forall s :: s in r <==> s in keys && prefix <= s
  {
    if keys == [] then []
    else (if prefix <= keys[0] then [keys[0]] else []) + PrefixScan(st, keys[1..], prefix)
  }

  /** SelectSubjectsByPrefix: every subject of the selected store(s) whose URN starts with `prefix`. */
  function SelectSubjectsByPrefix(db: Stores, g: Graph, prefix: string): (r: seq<string>)
    requires StoresOk(db)
    ensures forall s :: s in r <==>
      && prefix <= s
      && ((ReadsPersistent(g) && s in db.persistent.m) || (ReadsTransient(g) && s in db.transient.m))
  {
    match g
    case AnyGraph => PrefixScan(db.persistent, db.persistent.keys, prefix) + PrefixScan(db.transient, db.transient.keys, prefix)
    case TransientGraph => PrefixScan(db.transient, db.transient.keys, prefix)
    case NamedGraph(_) => PrefixScan(db.persistent, db.persistent.keys, prefix)
  }

  /**
   * QueryPredicatesBySubject: the (attribute, slot) pairs of subject `s`,
   * in insertion order. Only the transient graph reads the transient
   * store; the any-graph reads the persistent one alone.
   */
  function QueryPredicatesBySubject(db: Stores, g: Graph, s: string): (r: seq<(string, Slot)>)
    requires StoresOk(db)
    ensures var st := if g.TransientGraph? then db.transient else db.persistent;
      && (forall a, sl :: (a, sl) in r <==> Lookup(st, s, a) == Some(sl))
      && (s in st.m ==> |r| == |st.m[s].keys| && forall i :: 0 <= i < |r| ==> r[i].0 == st.m[s].keys[i])
      && (s !in st.m ==> r == [])
  {
    var st := if g.TransientGraph? then db.transient else db.persistent;
    if s !in st.m then []
    else
      var attrs := st.m[s];
      var r := seq(|attrs.keys|, i requires 0 <= i < |attrs.keys| => (attrs.keys[i], attrs.m[attrs.keys[i]]));
      assert forall a, sl :: (a, sl) in r <==> Lookup(st, s, a) == Some(sl) by {
        forall a, sl ensures (a, sl) in r <==> Lookup(st, s, a) == Some(sl) {
          if Lookup(st, s, a) == Some(sl) {
            var i :| 0 <= i < |attrs.keys| && attrs.keys[i] == a;
            assert r[i] == (a, sl);
          }
        }
      }
      r
  }

  /** The any-graph reads both stores, persistent first, for the four scanning queries. */
  lemma AnyGraphIsPersistentThenTransient(db: Stores, name: string, p: string, o: Value, s: string, prefix: string)
    requires StoresOk(db)
    ensures QueryPredicate(db, AnyGraph, p) == QueryPredicate(db, NamedGraph(name), p) + QueryPredicate(db, TransientGraph, p)
    ensures QueryPredicateObject(db, AnyGraph, p, o) == QueryPredicateObject(db, NamedGraph(name), p, o) + QueryPredicateObject(db, TransientGraph, p, o)
    ensures QuerySubjectPredicate(db, AnyGraph, s, p) == QuerySubjectPredicate(db, NamedGraph(name), s, p) + QuerySubjectPredicate(db, TransientGraph, s, p)
    ensures SelectSubjectsByPrefix(db, AnyGraph, prefix) == SelectSubjectsByPrefix(db, NamedGraph(name), prefix) + SelectSubjectsByPrefix(db, TransientGraph, prefix)
    ensures QueryPredicatesBySubject(db, AnyGraph, s) == QueryPredicatesBySubject(db, NamedGraph(name), s)
  {
  }
}
