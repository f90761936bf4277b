# pyaff4 resolver core in Dafny

A functional model of the in-memory resolver of pyaff4 (`pyaff4/data_store.py`),
the component every AFF4 volume, stream and map goes through to record facts
and to open objects. The model covers three pieces:

- **The object cache** (`AFF4ObjectCache`), module `ObjectCache` in
  `object_cache.dfy`. It is a reference-counted LRU cache. In-use objects are
  pinned by a use count. Idle objects sit in a ring, modelled as a sequence of
  URNs with the most recent first. Trimming evicts from the oldest end and
  flushes what it evicts. Cache `Flush` repeats flush passes until no idle
  object is dirty, then closes every idle object. Flush and Close calls are
  recorded in an event log, so that contracts can say which objects were
  flushed or closed, and in which order.
- **The fact store** (`MemoryDataStore`), modules `OrderedDict` and
  `FactStore`. It has two insertion-ordered stores, persistent and transient.
  Each maps a subject to an insertion-ordered map from attribute to a slot,
  and a slot holds one value or a list of values. `Add`, `Set` and `Get`
  choose a store through the graph selector: the any-graph (or no graph), the
  transient graph, or a named volume graph. The five queries scan the chosen
  store or stores.
- **The decision rules.** Module `TurtleDump` covers `_should_ignore` and the
  choice of triples in `_DumpToTurtle`, plus the facts a load of those triples
  recreates. Module `Factory` covers the dispatch of `AFF4FactoryOpen`: a
  cache hit, a symbolic stream, a content-hash URN, or the handler registered
  for the subject's type or URN scheme.

Supporting modules:

- `Wrappers` defines `Option` and `Result`. The cache's `CHECK`s on its
  callers (`Put`, `Return`, `Remove`, `Flush`) and the factory's `raise`s are
  a `Failure` with a named error. The other `CHECK`s are not failures of the
  model, because they cannot fail in it. Lines 571 and 594 check that a value
  is an `RDFValue`, which every `Value` is by its type. Line 72 checks that a
  ring entry is not already linked, which the cache invariant `Valid`
  guarantees for every entry that is appended.
- `Seqs` holds sequence facts.
- `Rdf` defines typed values and the lexicon terms.
- `Aff4Object` defines an abstract cached object: its URN, how it was built,
  and a dirty bit.

The lexicon module of pyaff4 is not part of this model. The vocabulary terms the
resolver compares against are fields of a `Lexicon` value that every rule
takes as a parameter. The literal prefixes written in `data_store.py` itself
are constants of the model: `aff4://`, `aff4:sha512:` in the dump, and
`aff4:sha512` in the factory.

Three behaviours of the code are easy to misread, and the model follows the
code in each:

- `_Trim(0)` trims to the cache's capacity, not to nothing. Line 97 computes
  the limit as `size or max_items`, so a size of 0 falls back to the capacity.
- A write with the any-graph selector goes to the persistent store and is not
  rejected. Lines 573-576 pick the transient store only for the transient
  graph.
- `QueryPredicatesBySubject` with the any-graph reads only the persistent
  store. Lines 713-716 pick the transient store only for the transient graph.

## Model

| member | source | states |
|---|---|---|
| ObjectCache.NewCache | pyaff4/data_store.py:89-94 | a new cache has both maps and the ring empty, keeps its capacity, and satisfies the cache discipline |
| ObjectCache.EvictOldest | pyaff4/data_store.py:99-106 | one eviction removes the oldest ring entry from the ring and the idle map, and logs a Flush of exactly that object |
| ObjectCache.Trim | pyaff4/data_store.py:96-106 | trimming keeps the discipline, never touches in-use entries, and leaves min(idle count, limit) idle entries, where a size of 0 means the capacity |
| ObjectCache.TrimKeepsMostRecent | pyaff4/data_store.py:96-106 | the surviving ring is a prefix of the old one, so the most recently used entries stay, and the idle map only loses entries |
| ObjectCache.TrimFlushesEvicted | pyaff4/data_store.py:98-106 | the log gains one Flush per evicted entry, oldest first, and nothing else |
| ObjectCache.TrimZeroKeepsCapacity | pyaff4/data_store.py:97 | `_Trim(0)` on a non-empty cache keeps min(idle count, capacity) entries, which is more than zero |
| ObjectCache.MakeIdle | pyaff4/data_store.py:122-125 | an entry that becomes idle goes to the most recent end of the ring with count 0, then trimming restores the capacity bound and flushes the evicted tail; `Return` does the same at lines 157-161 |
| ObjectCache.Put | pyaff4/data_store.py:108-125 | fails exactly when the URN is in use or idle, with the matching error; in-use puts add count 1 and change nothing else; idle puts join the most recent end, only the overflow beyond the capacity is evicted (the ring keeps min(old size + 1, capacity) entries), and every surviving entry keeps its object and count |
| ObjectCache.Get | pyaff4/data_store.py:127-145 | an in-use hit gains a holder; an idle hit leaves the ring and the idle map and becomes in use with count 1; a miss returns nothing and leaves the cache unchanged |
| ObjectCache.Return | pyaff4/data_store.py:147-161 | fails unless the returned object's URN is in use; otherwise the use count drops by one and the entry holds the returned object as its holder left it (dirty or not); at zero the entry becomes idle at the most recent end, only the overflow beyond the capacity is evicted, and every other idle entry keeps its object and count |
| ObjectCache.Remove | pyaff4/data_store.py:163-179 | takes the URN out of whichever map holds it and logs a Flush, never a Close; fails when neither map holds it |
| ObjectCache.DirtyIn | pyaff4/data_store.py:204-208 | one flush pass finds exactly the dirty idle objects, in ring order, and finds none when all are clean |
| ObjectCache.FlushPass | pyaff4/data_store.py:204-208 | a flush pass cleans every idle object, changes nothing but dirty bits, and flushes exactly the dirty ones |
| ObjectCache.Sweep | pyaff4/data_store.py:202-212 | repeated passes end with every idle object clean, keep the same idle keys and entries except for their dirty bits, and flush each dirty object once |
| ObjectCache.Flush | pyaff4/data_store.py:191-222 | fails exactly when an object is in use; otherwise flushes the dirty objects, closes every idle object oldest first, and empties the idle map and the ring |
| ObjectCache.ApplyPreserves | pyaff4/data_store.py:108-222 | every cache operation that succeeds keeps each URN in at most one map, every in-use count positive, and the idle part within capacity |
| ObjectCache.RunPreserves | pyaff4/data_store.py:108-222 | any sequence of cache operations that raises no CHECK keeps the discipline and the capacity bound |
| ObjectCache.ReturnWithRoom | pyaff4/data_store.py:147-161 | when the ring has room, the last Return evicts and flushes nothing: the object becomes the newest idle entry under its returned state and the other entries stay |
| ObjectCache.GetThenReturnInUse | pyaff4/data_store.py:127-161 | Get then Return of the unchanged object on an in-use URN gives back the very same cache |
| ObjectCache.GetThenReturnIdle | pyaff4/data_store.py:127-161 | Get then Return of the unchanged object on an idle URN keeps the same entries and log, and moves the URN to the most recent end of the ring |
| ObjectCache.GetThenReturnRestoresCount | pyaff4/data_store.py:127-161 | Get followed by Return restores the URN's use count |
| ObjectCache.CapacityOneEvictsOlder | pyaff4/data_store.py:108-125 | with capacity 1, putting a and then b idle evicts and flushes a and leaves only b |
| ObjectCache.FlushNeedsReturn | pyaff4/data_store.py:147-222 | cache Flush refuses while an object is pinned and succeeds once that object is returned |
| ObjectCache.ReturnedDirtyIsFlushed | pyaff4/data_store.py:147-222 | changes made while an object is held reach the cache through Return: an object returned dirty by its only holder is flushed and then closed by the next Flush, a clean one only closed |
| OrderedDict.Put | pyaff4/data_store.py:578-580 | assigning a key of an ordered dict keeps an existing key in place and appends a new one, with the map updated at that key only |
| FactStore.AddValue | pyaff4/data_store.py:578-589 | the first value becomes a scalar; an equal scalar stays; a distinct one makes [old, new]; a list gains the value at its end only when it lacks it; list slots never hold duplicates |
| FactStore.AddValueIdempotent | pyaff4/data_store.py:582-589 | adding the same value twice equals adding it once |
| FactStore.AddFact | pyaff4/data_store.py:578-589 | Add on one store changes only the target slot, and the store's facts become the old facts plus the new one; a new subject or attribute is appended last, existing keys keep their places, and other subjects are untouched |
| FactStore.SetFact | pyaff4/data_store.py:601 | Set on one store makes the target slot the single value and changes no other slot; a new subject or attribute is appended last, existing keys keep their places, and other subjects are untouched |
| FactStore.EmptyStores | pyaff4/data_store.py:230-231 | a new resolver starts with two empty stores, which list no subject and therefore hold no fact |
| FactStore.Add | pyaff4/data_store.py:568-589 | Add writes the transient store only for the transient graph and the persistent store otherwise; the other store is untouched, and in the written store a new subject or attribute is appended last while existing keys keep their places |
| FactStore.Set | pyaff4/data_store.py:591-601 | Set overwrites the slot in the store the selector names, leaving the other store and the other slots alone; a new subject or attribute is appended last while existing keys keep their places |
| FactStore.Get | pyaff4/data_store.py:603-615 | Get reads the transient slot for the transient graph, the persistent slot for a named graph, and both slots for the any-graph |
| FactStore.AddThenGet | pyaff4/data_store.py:568-615 | after Add, Get with the same selector sees the added value |
| FactStore.SetThenGet | pyaff4/data_store.py:591-615 | after Set, Get on the same graph returns exactly the new scalar |
| FactStore.AddTwiceIsAddOnce | pyaff4/data_store.py:582-589 | re-adding an equal value leaves the slot as it was |
| FactStore.WritesIsolated | pyaff4/data_store.py:573-576 | writes through the transient graph are invisible through a named graph, and the other way round |
| FactStore.PredicateScan | pyaff4/data_store.py:646-653 | the scan yields exactly the facts with the given predicate among the scanned subjects |
| FactStore.QueryPredicate | pyaff4/data_store.py:634-653 | yields exactly the facts with the predicate in the selected stores, counting a scalar as a one-element list |
| FactStore.PredicateObjectScan | pyaff4/data_store.py:665-673 | the scan yields exactly the scanned subjects holding the object for the predicate |
| FactStore.QueryPredicateObject | pyaff4/data_store.py:656-673 | yields exactly the subjects of the selected stores that hold the object for the predicate, as a scalar or a list member |
| FactStore.SubjectScan | pyaff4/data_store.py:685-694 | the scan yields exactly the values of (subject, predicate) when the subject is among the scanned keys |
| FactStore.SubjectScanIsLookup | pyaff4/data_store.py:685-694 | because subjects are distinct, scanning for one subject gives exactly its slot's values, in order |
| FactStore.QuerySubjectPredicate | pyaff4/data_store.py:675-694 | yields exactly the values of (subject, predicate) in the selected stores |
| FactStore.QuerySubjectPredicateAgreesWithGet | pyaff4/data_store.py:675-694 | on one graph the query yields exactly Get's values in order; on the any-graph the persistent values come before the transient ones |
| FactStore.PrefixScan | pyaff4/data_store.py:706-708 | the scan yields exactly the scanned subjects that start with the prefix |
| FactStore.SelectSubjectsByPrefix | pyaff4/data_store.py:696-708 | yields exactly the subjects of the selected stores that start with the prefix |
| FactStore.QueryPredicatesBySubject | pyaff4/data_store.py:710-719 | yields the subject's (attribute, slot) pairs in insertion order, from the transient store only for the transient graph and from the persistent store otherwise |
| FactStore.AnyGraphIsPersistentThenTransient | pyaff4/data_store.py:638-644 | for the four scanning queries the any-graph result is the persistent result followed by the transient one |
| TurtleDump.ShouldIgnore | pyaff4/data_store.py:277-291 | a type value is ignored exactly when it names a zip volume or zip segment; a storage location exactly when it is not an `aff4://` URN or is a prefix of the subject (so a location equal to the subject is always ignored); no other attribute is ever ignored |
| TurtleDump.Dumpable | pyaff4/data_store.py:418-423 | in a well-formed store a subject is dumped exactly when it records some type value or has an `aff4:sha512:` name; a hash-named subject always is |
| TurtleDump.AttrDumped | pyaff4/data_store.py:431-433 | in verbose mode every attribute is dumped; otherwise exactly those outside the volatile namespace |
| TurtleDump.KeptValues | pyaff4/data_store.py:435-441 | of an attribute's values, exactly those that `_should_ignore` does not flag are emitted |
| TurtleDump.AttrScan | pyaff4/data_store.py:425-441 | of a subject's attributes, only non-volatile ones (or all in verbose mode) contribute, each with its kept values |
| TurtleDump.SubjectDump | pyaff4/data_store.py:416-441 | among the scanned subjects, exactly the emitted facts appear |
| TurtleDump.DumpTriples | pyaff4/data_store.py:407-449 | the dump carries exactly the persistent facts of typed or `aff4:sha512:` subjects that pass the verbosity and ignore rules |
| TurtleDump.DumpOmitsContainerFacts | pyaff4/data_store.py:279-283 | a type fact naming a zip volume or zip segment is never dumped |
| TurtleDump.TypeDumpedIff | pyaff4/data_store.py:279-283 | a recorded type of a dumped subject is written out exactly when it names neither a zip volume nor a zip segment |
| TurtleDump.StoredDumpedIff | pyaff4/data_store.py:285-289 | a recorded storage location is written out exactly when it starts with `aff4://` and is not a prefix of the subject |
| TurtleDump.OtherAttrsAlwaysDumped | pyaff4/data_store.py:277-291 | facts of every other attribute of a dumped subject are never suppressed |
| TurtleDump.UntypedSubjectsSkipped | pyaff4/data_store.py:418-423 | a subject with no type attribute and no `aff4:sha512:` name contributes nothing to the dump |
| TurtleDump.PlainDumpWithinVerbose | pyaff4/data_store.py:431-433 | the plain dump is the verbose dump without its volatile-namespace facts |
| TurtleDump.LoadTriples | pyaff4/data_store.py:461-477 | loading adds every triple to the volume's graph, so the persistent facts become the old ones plus the loaded ones, and the transient store is untouched |
| TurtleDump.DumpThenLoad | pyaff4/data_store.py:407-477 | loading a dump into a fresh resolver recreates exactly the emitted facts |
| TurtleDump.AttrPresentIffValue | pyaff4/data_store.py:578-589 | in a well-formed store an attribute is present exactly when it holds some value |
| TurtleDump.RedumpOfEmitted | pyaff4/data_store.py:416-441 | a store holding exactly the emitted facts dumps again only those whose subject is hash-named or still has a dumped type |
| TurtleDump.RedumpAfterLoad | pyaff4/data_store.py:407-477 | after dump and load, a second dump loses the facts of subjects whose only types are zip container types, and keeps the rest |
| Factory.NewResolver | pyaff4/data_store.py:228-232 | a new resolver has two empty stores with no subjects, and an empty object cache of capacity 10 with an empty log |
| Factory.FirstRegistered | pyaff4/data_store.py:511-515 | the handler chosen by type is the handler of the first registered type value, and there is none only when no type value is registered |
| Factory.SelectHandler | pyaff4/data_store.py:505-525 | the first registered type wins; the scheme's handler is used only when no type is registered; there is no handler exactly when neither is registered |
| Factory.LaterTypesIrrelevant | pyaff4/data_store.py:512-515 | type values after a registered one never change the chosen handler |
| Factory.Admit | pyaff4/data_store.py:530-535 | a newly built object is cached in use with one holder; the fact store, the rest of the in-use map, the idle map, the ring and the log are unchanged |
| Factory.FactoryOpen | pyaff4/data_store.py:485-535 | a cached object is handed out again, the cache changing exactly as a cache lookup changes it; on a miss a symbolic stream or a handler-built object is newly cached in use with nothing else changed; a hash URN opens its first data stream's target, handing out the cached target object (as a lookup would) or caching a new byte-range map; the open fails exactly when a hash URN has no data stream or no handler applies; the fact store and the log never change |
| Factory.OpenTwiceSameObject | pyaff4/data_store.py:489-493 | opening the same URN twice yields the same object, with one more holder |
| Factory.FactoryOpenAsWritten | pyaff4/data_store.py:497-498 | as written, every uncached, non-symbolic `aff4:sha512` URN fails at the data-stream lookup; other URNs behave as in FactoryOpen |
| Factory.HashUrnCounterexample | pyaff4/data_store.py:497-503 | for a hash URN with a recorded data stream, the written factory fails while the corrected one opens the byte-range map |

## Left out

- The chunked Turtle append protocol of `DumpToTurtle`, `loadMetadata`, and the Turtle parsing and serialisation of `LoadFromTurtle` and `_DumpToTurtle` are out of scope. They are container-member I/O and third-party RDF syntax. A dump is modelled as the triples it carries, and a load as the triples it adds.
- The conversions of values to and from RDF terms, the `rdfvalue` type map, and the URN normalisation and `SmartStr`/`SmartUnicode` conversions are modelled as the identity. Subjects and attributes are their canonical strings. Value equality is structural, and a type value equals a lexicon term when it is the URN of that term.
- `utils.asList`, used by `Get` with the any-graph, is not modelled. `Get` returns both slots. Where the factory needs a list, it reads the transient values followed by the persistent ones, in the order of `asList`'s arguments.
- The stream factory, the handler registry, and the object constructors are inputs. Whether a URN is symbolic is a boolean parameter. The registry is a map from type or scheme strings to handler names. The URN's scheme is a string parameter, because URN parsing lives in `rdfvalue`, which this model does not cover.
- `Prepare`, `LoadFromURN`, and the effects of an object's own `Flush` and `Close` are left out. A flush clears the object's dirty bit and is logged; a close is logged. The model does not capture flushes that dirty other objects or put new objects into the cache. So in `Sweep` the pass after the first flushing pass finds nothing, and the loop ends.
- `QuerySubject` is not modelled because it fails as written, and the failure is inside `data_store.py`. Line 630 iterates over the store's `iteritems`, so each `subject` is a (key, value) pair, and line 631 passes that pair to `subject_regex.match`, which accepts only strings.
- `DeleteSubject` is not modelled. Line 256 pops by an `rdfvalue.URN` object while the store's keys are serialized strings, so whether anything is removed depends on how `rdfvalue` compares a URN with a string, and `rdfvalue` is not part of this model.
- `HDTAssistedDataStore`, the `Dump` printing, the resolver's `Flush` callbacks, and the resolver's `CacheGet`/`CachePut`/`Return`/`Close` thin wrappers (lines 259-275) are out of scope. The HDT store depends on an external library and is switched off. `Dump` and `Flush` only print or forward. Of the wrappers, `CacheGet` turns a cache miss into `aff4.NoneObject("Not present")` instead of `None`, `CachePut` puts the object in use and returns it, and `Return` and `Close` forward to the cache's `Return` and `Remove` modelled above.
- `volume_file_map` of the cache is never read by the cache's operations, so it is not modelled.
- ObjectCache.Return: the entry takes the returned object as its own, so it takes the state of the last `Return`. In pyaff4 the entry keeps the object it already holds, which is the same Python object every holder received from `Get`. With several holders, a change (a dirty bit) returned earlier by one holder is lost in the model when another holder returns a clean copy later, while pyaff4 keeps it and flushes it at lines 206-209. A different object with the same URN is not told apart either.
- The model assumes that plain Python dicts keep insertion order, which holds from Python 3.7 on. pyaff4 also runs on Python 2, whose dicts iterate in arbitrary order. Two orders depend on it. `Flush` closes idle objects oldest first because line 215 iterates `lru_map`, a plain dict created at line 92. `QueryPredicatesBySubject` lists a subject's attributes in insertion order, but `Set` creates a new subject's attribute map as a plain dict at line 601. Where dicts are unordered, both orders are unspecified.
- ObjectCache.Sweep: the source repeats passes while any pass found dirty objects. The model's contract states the end result (every idle object clean, each dirty object flushed once), which is what that loop reaches when flushing an object does not dirty another.

## Findings

| source | as written | input that shows it | evidently intended | confidence | as-written member | corrected member |
|---|---|---|---|---|---|---|
| pyaff4/data_store.py:498 | `self.Get(urn, dataStream)` passes two arguments to `Get(graph, subject, attribute)`, so the call raises before any object is built | any uncached, non-symbolic URN starting with `aff4:sha512`, e.g. `aff4:sha512:00` with a recorded data stream `aff4://stream` | look the data stream up in every graph, as the type lookup at line 505 does, and open the byte-range map of the stream it names (the first value) | high that the call fails; medium on the intended graph; not executed | Factory.FactoryOpenAsWritten | Factory.FactoryOpen |
