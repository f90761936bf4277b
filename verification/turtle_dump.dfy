/**
 * Which facts of the persistent store the resolver writes out as Turtle,
 * and what loading those facts back into a volume graph yields. The
 * Turtle syntax itself is not modelled: a dump is the set of triples it
 * would carry, and a load adds each triple to the volume's graph.
 */
module TurtleDump {
  import opened Rdf
  import opened FactStore

  /** Values of the storage-location attribute must use this scheme to be written out. */
  const Aff4Scheme: string := "aff4://"

  /** Subjects with this prefix are hash-named map entries, dumped even without a type. */
  const HashPrefix: string := "aff4:sha512:"

  /**
   * Facts that the container format implies on its own and that a dump
   * therefore leaves out: a type naming a zip volume or zip segment, and a
   * storage location that is not an AFF4 URN or that is a prefix of the
   * subject (the subject lives inside it). No other attribute is ever
   * suppressed.
   */
  function ShouldIgnore(lex: Lexicon, subject: string, attr: string, v: Value): (r: bool)
    ensures attr != lex.typeAttr && attr != lex.stored ==> !r
    ensures attr == lex.typeAttr ==> (r <==> v in {Urn(lex.zipType), Urn(lex.zipSegmentType)})
    ensures attr == lex.stored && attr != lex.typeAttr ==>
      (r <==> !(Aff4Scheme <= Serialize(v)) || Serialize(v) <= subject)
    ensures attr == lex.stored && attr != lex.typeAttr && Serialize(v) == subject ==> r
  {
    if attr == lex.typeAttr then
      v == Urn(lex.zipSegmentType) || v == Urn(lex.zipType)
    else if attr == lex.stored then
      !(Aff4Scheme <= Serialize(v)) || Serialize(v) <= subject
    else
      false
  }

  /**
   * Only typed objects and hash-named entries are dumped. In a well-formed
   * store a subject is typed exactly when it records some type value.
   */
  function Dumpable(lex: Lexicon, st: Store, s: string): (r: bool)
    ensures r ==> s in st.m
    ensures s in st.m && HashPrefix <= s ==> r
    ensures StoreOk(st) ==>
      (r <==> s in st.m && ((exists v :: HasFact(st, s, lex.typeAttr, v)) || HashPrefix <= s))
  {
    assert StoreOk(st) && s in st.m ==>
      (lex.typeAttr in st.m[s].m <==> exists v :: HasFact(st, s, lex.typeAttr, v)) by {
      if StoreOk(st) && s in st.m {
        AttrPresentIffValue(st, s, lex.typeAttr);
      }
    }
    s in st.m && (lex.typeAttr in st.m[s].m || HashPrefix <= s)
  }

  /** Volatile attributes are dumped only in verbose mode; all others always are. */
  function AttrDumped(lex: Lexicon, verbose: bool, a: string): (r: bool)
    ensures verbose ==> r
    ensures !verbose ==> (r <==> !(lex.volatileNamespace <= a))
  {
    verbose || !(lex.volatileNamespace <= a)
  }

  /** The independent description of a dump: the facts that pass all three filters. */
  predicate Emitted(lex: Lexicon, st: Store, verbose: bool, t: Triple) {
    && HasTriple(st, t)
    && Dumpable(lex, st, t.subject)
    && AttrDumped(lex, verbose, t.attr)
    && !ShouldIgnore(lex, t.subject, t.attr, t.value)
  }

  /** The values of `vs` that survive the ignore rule, as triples of (`s`, `a`). */
  function KeptValues(lex: Lexicon, s: string, a: string, vs: seq<Value>): (r: seq<Triple>)
    ensures forall t :: t in r <==>
      t.subject == s && t.attr == a && t.value in vs && !ShouldIgnore(lex, s, a, t.value)
  {
    if vs == [] then []
    else
      (if ShouldIgnore(lex, s, a, vs[0]) then [] else [Triple(s, a, vs[0])])
        + KeptValues(lex, s, a, vs[1..])
  }

  /** The kept triples of the attributes `keys` of subject `s`, in attribute order. */
  function AttrScan(lex: Lexicon, attrs: Attrs, s: string, keys: seq<string>, verbose: bool): (r: seq<Triple>)
    ensures forall t :: t in r <==>
      && t.subject == s && t.attr in keys && t.attr in attrs.m
      && AttrDumped(lex, verbose, t.attr)
      && t.value in ValuesOf(attrs.m[t.attr])
      && !ShouldIgnore(lex, s, t.attr, t.value)
  {
    if keys == [] then []
    else
      var a := keys[0];
      (if a in attrs.m && AttrDumped(lex, verbose, a) then KeptValues(lex, s, a, ValuesOf(attrs.m[a])) else [])
        + AttrScan(lex, attrs, s, keys[1..], verbose)
  }

  /** The kept triples of the dumpable subjects among `keys`, in subject order. */
  function SubjectDump(lex: Lexicon, st: Store, keys: seq<string>, verbose: bool): (r: seq<Triple>)
    requires StoreOk(st)
    ensures forall t :: t in r <==> t.subject in keys && Emitted(lex, st, verbose, t)
  {
    if keys == [] then []
    else
      var s := keys[0];
      (if Dumpable(lex, st, s) then AttrScan(lex, st.m[s], s, st.m[s].keys, verbose) else [])
        + SubjectDump(lex, st, keys[1..], verbose)
  }

  /**
   * The triples a dump of the persistent store carries: exactly the
   * emitted facts. The volume named by the caller plays no part in which
   * facts are chosen.
   */
  function DumpTriples(lex: Lexicon, db: Stores, verbose: bool): (r: seq<Triple>)
    requires StoresOk(db)
    ensures forall t :: t in r <==> Emitted(lex, db.persistent, verbose, t)
  {
    SubjectDump(lex, db.persistent, db.persistent.keys, verbose)
  }

  /** Loading: every triple is added to the volume's graph, in order. */
  function LoadTriples(db: Stores, volume: string, ts: seq<Triple>): (r: Stores)
    requires StoresOk(db)
    ensures StoresOk(r)
    ensures r.transient == db.transient
    ensures forall t :: HasTriple(r.persistent, t) <==> HasTriple(db.persistent, t) || t in ts
    decreases |ts|
  {
    if ts == [] then db
    else
      var db' := Add(db, NamedGraph(volume), ts[0].subject, ts[0].attr, ts[0].value);
      LoadTriples(db', volume, ts[1..])
  }

  /** A dump never carries a type fact naming a zip volume or a zip segment. */
  lemma DumpOmitsContainerFacts(lex: Lexicon, db: Stores, verbose: bool, s: string)
    requires StoresOk(db)
    ensures Triple(s, lex.typeAttr, Urn(lex.zipType)) !in DumpTriples(lex, db, verbose)
    ensures Triple(s, lex.typeAttr, Urn(lex.zipSegmentType)) !in DumpTriples(lex, db, verbose)
  {
  }

  /**
   * A recorded type value of a dumped subject is written out exactly when
   * it names neither a zip volume nor a zip segment.
   */
  lemma TypeDumpedIff(lex: Lexicon, db: Stores, verbose: bool, s: string, v: Value)
    requires StoresOk(db)
    requires HasFact(db.persistent, s, lex.typeAttr, v) && AttrDumped(lex, verbose, lex.typeAttr)
    ensures Triple(s, lex.typeAttr, v) in DumpTriples(lex, db, verbose) <==>
      v != Urn(lex.zipType) && v != Urn(lex.zipSegmentType)
  {
  }

  /**
   * A recorded storage location of a dumped subject is written out exactly
   * when it is an AFF4 URN that is not a prefix of the subject.
   */
  lemma StoredDumpedIff(lex: Lexicon, db: Stores, verbose: bool, s: string, v: Value)
    requires StoresOk(db)
    requires lex.stored != lex.typeAttr
    requires HasFact(db.persistent, s, lex.stored, v) && Dumpable(lex, db.persistent, s) && AttrDumped(lex, verbose, lex.stored)
    ensures Triple(s, lex.stored, v) in DumpTriples(lex, db, verbose) <==>
      Aff4Scheme <= Serialize(v) && !(Serialize(v) <= s)
  {
  }

  /** Facts of any other attribute of a dumped subject are never suppressed. */
  lemma OtherAttrsAlwaysDumped(lex: Lexicon, db: Stores, verbose: bool, s: string, a: string, v: Value)
    requires StoresOk(db)
    requires a != lex.typeAttr && a != lex.stored
    requires HasFact(db.persistent, s, a, v) && Dumpable(lex, db.persistent, s) && AttrDumped(lex, verbose, a)
    ensures Triple(s, a, v) in DumpTriples(lex, db, verbose)
  {
  }

  /** A subject with neither a type nor a hash name contributes nothing to the dump. */
  lemma UntypedSubjectsSkipped(lex: Lexicon, db: Stores, verbose: bool, s: string)
    requires StoresOk(db)
    requires s in db.persistent.m && lex.typeAttr !in db.persistent.m[s].m && !(HashPrefix <= s)
    ensures forall t :: t in DumpTriples(lex, db, verbose) ==> t.subject != s
  {
  }

  /** Verbose mode only adds volatile facts: the plain dump is contained in the verbose one. */
  lemma PlainDumpWithinVerbose(lex: Lexicon, db: Stores)
    requires StoresOk(db)
    ensures forall t :: t in DumpTriples(lex, db, false) ==> t in DumpTriples(lex, db, true)
    ensures forall t :: t in DumpTriples(lex, db, true) && !(lex.volatileNamespace <= t.attr) ==> t in DumpTriples(lex, db, false)
  {
  }

  /**
   * Loading a dump into a fresh resolver under volume `volume` recreates
   * precisely the emitted facts, in the persistent store.
   */
  lemma DumpThenLoad(lex: Lexicon, db: Stores, verbose: bool, volume: string)
    requires StoresOk(db)
    ensures var loaded := LoadTriples(EmptyStores(), volume, DumpTriples(lex, db, verbose));
      && (forall t :: HasTriple(loaded.persistent, t) <==> Emitted(lex, db.persistent, verbose, t))
      && (forall t :: !HasTriple(loaded.transient, t))
  {
  }

  /** In a well-formed store an attribute is present exactly when it holds some value. */
  lemma AttrPresentIffValue(st: Store, s: string, a: string)
    requires StoreOk(st)
    requires s in st.m
    ensures a in st.m[s].m <==> exists v :: HasFact(st, s, a, v)
  {
    if a in st.m[s].m {
      var slot := st.m[s].m[a];
      assert SlotOk(slot);
      assert HasFact(st, s, a, ValuesOf(slot)[0]);
    }
  }

  /**
   * A store holding exactly the emitted facts of `st0` dumps again exactly
   * those whose subject is hash-named or still has a dumped type value.
   */
  lemma RedumpOfEmitted(lex: Lexicon, st0: Store, st: Store, verbose: bool, t: Triple)
    requires StoreOk(st)
    requires forall x :: HasTriple(st, x) <==> Emitted(lex, st0, verbose, x)
    ensures Emitted(lex, st, verbose, t) <==>
      && Emitted(lex, st0, verbose, t)
      && (HashPrefix <= t.subject || exists v :: Emitted(lex, st0, verbose, Triple(t.subject, lex.typeAttr, v)))
  {
    if HasTriple(st, t) {
      AttrPresentIffValue(st, t.subject, lex.typeAttr);
      assert (exists v :: HasFact(st, t.subject, lex.typeAttr, v)) <==>
        (exists v :: Emitted(lex, st0, verbose, Triple(t.subject, lex.typeAttr, v))) by {
        forall v ensures HasFact(st, t.subject, lex.typeAttr, v) <==> Emitted(lex, st0, verbose, Triple(t.subject, lex.typeAttr, v)) {
          assert HasTriple(st, Triple(t.subject, lex.typeAttr, v)) <==> HasFact(st, t.subject, lex.typeAttr, v);
        }
      }
    }
  }

  /**
   * Dumping the reloaded store again keeps an emitted fact exactly when
   * its subject is hash-named or still has a dumped type value: a subject
   * whose only types are container types loses all its facts on the
   * second round, because its type attribute was not written out.
   */
  lemma RedumpAfterLoad(lex: Lexicon, db: Stores, verbose: bool, volume: string, t: Triple)
    requires StoresOk(db)
    ensures var loaded := LoadTriples(EmptyStores(), volume, DumpTriples(lex, db, verbose));
      Emitted(lex, loaded.persistent, verbose, t) <==>
        && Emitted(lex, db.persistent, verbose, t)
        && (HashPrefix <= t.subject || exists v :: Emitted(lex, db.persistent, verbose, Triple(t.subject, lex.typeAttr, v)))
  {
    var loaded := LoadTriples(EmptyStores(), volume, DumpTriples(lex, db, verbose));
    RedumpOfEmitted(lex, db.persistent, loaded.persistent, verbose, t);
  }
}
