/**
 * The reference-counted LRU object cache.
 *
 * An entry is either in use (pinned by at least one caller, never evicted)
 * or idle (use count 0, kept on a ring ordered from most to least recently
 * idled, and bounded by `maxItems`). The intrusive ring of pyaff4's cache is
 * the sequence `lru`, read from the sentinel forwards: `lru[0]` is the most
 * recently idled key and `lru[|lru| - 1]` is the one eviction takes.
 *
 * The hooks the cache calls on objects (Flush, Close) are recorded in an
 * event log so that contracts can say which objects were flushed or closed,
 * how often and in what order.
 */
module ObjectCache {
  import opened Wrappers
  import opened Seqs
  import opened Aff4Object

  /** A cache entry: the object it owns and how many callers hold it. */
  datatype Entry = Entry(obj: Obj, useCount: nat)

  /** A hook the cache called on the object cached under `urn`. */
  datatype Event = Flushed(urn: string) | Closed(urn: string)

  /** The contract violations the cache reports instead of proceeding. */
  datatype CacheError =
    | PutWhileInUse(key: string)
    | PutWhileCached(key: string)
    | ReturnedNotInUse(key: string)
    | RemovedNeverCached(key: string)
    | FlushedWhileInUse

  datatype Cache = Cache(
    maxItems: nat,
    inUse: map<string, Entry>,
    lruMap: map<string, Entry>,
    lru: seq<string>,
    log: seq<Event>
  )

  /**
   * The cache discipline: the ring lists exactly the idle keys, once each;
   * a key is in at most one of the two maps; in-use entries are pinned by a
   * positive count and idle ones have count 0; every entry is filed under
   * its object's URN.
   */
  ghost predicate Valid(c: Cache) {
    && NoDups(c.lru)
    && (forall k :: k in c.lruMap <==> k in c.lru)
    && (forall k :: k in c.inUse ==> k !in c.lruMap)
    && (forall k :: k in c.inUse ==> c.inUse[k].useCount >= 1 && c.inUse[k].obj.urn == k)
    && (forall k :: k in c.lruMap ==> c.lruMap[k].useCount == 0 && c.lruMap[k].obj.urn == k)
  }

  /** The idle part never exceeds the capacity the cache was built with. */
  ghost predicate Bounded(c: Cache) {
    |c.lruMap| <= c.maxItems
  }

  function NewCache(maxItems: nat): (c: Cache)
    ensures Valid(c) && Bounded(c)
    ensures c.maxItems == maxItems && c.inUse == map[] && c.lruMap == map[] && c.lru == [] && c.log == []
  {
    Cache(maxItems, map[], map[], [], [])
  }

  /** How many callers currently hold `key` (0 when idle or absent). */
  function UseCount(c: Cache, key: string): nat {
    if key in c.inUse then c.inUse[key].useCount else 0
  }

  function Min(a: nat, b: nat): nat {
    if a <= b then a else b
  }

  /** The events of flushing each key of `keys` in turn. */
  function Flushes(keys: seq<string>): (r: seq<Event>)
    ensures |r| == |keys|
    ensures forall i :: 0 <= i < |keys| ==> r[i] == Flushed(keys[i])
  {
    if keys == [] then [] else [Flushed(keys[0])] + Flushes(keys[1..])
  }

  /** The events of closing each key of `keys` in turn. */
  function Closes(keys: seq<string>): (r: seq<Event>)
    ensures |r| == |keys|
    ensures forall i :: 0 <= i < |keys| ==> r[i] == Closed(keys[i])
  {
    if keys == [] then [] else [Closed(keys[0])] + Closes(keys[1..])
  }

  /** A stretch of the ring read from its least recent end. */
  function OldestFirst(s: seq<string>): (r: seq<string>)
    ensures |r| == |s|
    ensures forall i :: 0 <= i < |s| ==> r[i] == s[|s| - 1 - i]
  {
    if s == [] then [] else [s[|s| - 1]] + OldestFirst(s[..|s| - 1])
  }

  /** The map and the ring of a valid cache have the same size. */
  lemma LruSize(c: Cache)
    requires Valid(c)
    ensures |c.lruMap| == |c.lru|
  {
    assert c.lruMap.Keys == set k | k in c.lru;
    DistinctCard(c.lru);
  }

  /** Evicting the last key of `s[n..]` first, then the rest oldest first, flushes `s[n..]` oldest first. */
  lemma EvictStep(s: seq<string>, n: nat)
    requires n < |s|
    ensures Flushes(OldestFirst(s[n..])) == [Flushed(s[|s| - 1])] + Flushes(OldestFirst(s[..|s| - 1][n..]))
  {
    var t := s[n..];
    assert t[..|t| - 1] == s[..|s| - 1][n..];
    assert OldestFirst(t) == [s[|s| - 1]] + OldestFirst(s[..|s| - 1][n..]);
    assert ([s[|s| - 1]] + OldestFirst(s[..|s| - 1][n..]))[1..] == OldestFirst(s[..|s| - 1][n..]);
  }

  /** Evicting the ring's tail and then trimming the rest logs the evicted stretch oldest first. */
  lemma EvictLog(c: Cache, log': seq<Event>, n: nat)
    requires n < |c.lru|
    requires log' == EvictOldest(c).log + Flushes(OldestFirst(EvictOldest(c).lru[n..]))
    ensures log' == c.log + Flushes(OldestFirst(c.lru[n..]))
  {
    EvictStep(c.lru, n);
  }

  lemma PrefixOfPrefix(a: seq<string>, b: seq<string>, p: seq<string>)
    requires |b| <= |a| && b == a[..|b|]
    requires |p| <= |b| && p == b[..|p|]
    ensures p == a[..|p|]
  {
  }

  /** `size or max_items`: a missing or zero size falls back to the capacity. */
  function TrimLimit(maxItems: nat, size: nat): nat {
    if size == 0 then maxItems else size
  }

  /** Evicts the least recently idled entry (the ring's tail) and flushes its object. */
  function EvictOldest(c: Cache): (r: Cache)
    requires |c.lru| > 0
    ensures Valid(c) ==> Valid(r)
    ensures r.maxItems == c.maxItems && r.inUse == c.inUse
    ensures r.lru == c.lru[..|c.lru| - 1]
    ensures r.lruMap == c.lruMap - {c.lru[|c.lru| - 1]}
    ensures r.log == c.log + [Flushed(c.lru[|c.lru| - 1])]
  {
    var last := |c.lru| - 1;
    var oldest := c.lru[last];
    var r := c.(lruMap := c.lruMap - {oldest}, lru := c.lru[..last], log := c.log + [Flushed(oldest)]);
    assert Valid(c) ==> Valid(r) by {
      if Valid(c) {
        assert oldest !in c.lru[..last] by {
          forall i | 0 <= i < last ensures c.lru[..last][i] != oldest { assert c.lru[..last][i] == c.lru[i]; }
        }
        assert c.lru == c.lru[..last] + [oldest];
      }
    }
    r
  }

  /**
   * Evicts least recently idled entries until at most the limit remain idle.
   * In-use entries are pinned: the in-use map is untouched. In a valid cache
   * the ring and the idle map have the same size (LruSize), so the test on
   * the ring is the test on the idle map.
   */
  function Trim(c: Cache, size: nat): (r: Cache)
    ensures Valid(c) ==> Valid(r)
    ensures r.maxItems == c.maxItems && r.inUse == c.inUse
    ensures |r.lru| == Min(|c.lru|, TrimLimit(c.maxItems, size))
    decreases |c.lru|
  {
    if |c.lru| <= TrimLimit(c.maxItems, size) then c
    else Trim(EvictOldest(c), size)
  }

  /** Trimming keeps the most recently idled entries, unchanged, and drops the rest. */
  lemma {:induction false} TrimKeepsMostRecent(c: Cache, size: nat)
    ensures Trim(c, size).lru == c.lru[..|Trim(c, size).lru|]
    ensures forall k :: k in Trim(c, size).lruMap ==> k in c.lruMap && Trim(c, size).lruMap[k] == c.lruMap[k]
    decreases |c.lru|
  {
    if |c.lru| > TrimLimit(c.maxItems, size) {
      var e := EvictOldest(c);
      TrimKeepsMostRecent(e, size);
      PrefixOfPrefix(c.lru, e.lru, Trim(e, size).lru);
    }
  }

  /** Each evicted object is flushed exactly once, least recently idled first. */
  lemma {:induction false} TrimFlushesEvicted(c: Cache, size: nat)
    ensures Trim(c, size).log == c.log + Flushes(OldestFirst(c.lru[|Trim(c, size).lru|..]))
    decreases |c.lru|
  {
    if |c.lru| > TrimLimit(c.maxItems, size) {
      var e := EvictOldest(c);
      var t := Trim(e, size);
      assert Trim(c, size) == t;
      assert t.log == e.log + Flushes(OldestFirst(e.lru[|t.lru|..])) by {
        TrimFlushesEvicted(e, size);
      }
      EvictLog(c, t.log, |t.lru|);
    } else {
      assert c.lru[|c.lru|..] == [];
    }
  }

  /** Links an entry that is in neither map at the most recent end of the ring. */
  function PushIdle(c: Cache, obj: Obj): (r: Cache)
    requires Valid(c) && obj.urn !in c.inUse && obj.urn !in c.lruMap
    ensures Valid(r)
    ensures r == c.(lruMap := c.lruMap[obj.urn := Entry(obj, 0)], lru := [obj.urn] + c.lru)
  {
    NoDupsCons(obj.urn, c.lru);
    c.(lruMap := c.lruMap[obj.urn := Entry(obj, 0)], lru := [obj.urn] + c.lru)
  }

  lemma HeadSurvives(s: seq<string>, p: seq<string>)
    requires |s| > 0 && 0 < |p| <= |s| && p == s[..|p|]
    ensures s[0] in p
  {
    assert p[0] == s[0];
  }

  /**
   * Files an entry that is in neither map as idle: it joins the most recent
   * end of the ring at count 0 and the cache is trimmed to its capacity.
   */
  function MakeIdle(c: Cache, obj: Obj): (r: Cache)
    requires Valid(c) && obj.urn !in c.inUse && obj.urn !in c.lruMap
    ensures Valid(r)
    ensures r.maxItems == c.maxItems && r.inUse == c.inUse
    ensures |r.lruMap| <= c.maxItems
    ensures |r.lru| == Min(|c.lru| + 1, c.maxItems)
    ensures r.lru == ([obj.urn] + c.lru)[..|r.lru|]
    ensures forall k :: k in r.lruMap ==> k == obj.urn || (k in c.lruMap && r.lruMap[k] == c.lruMap[k])
    ensures c.maxItems > 0 ==> obj.urn in r.lruMap && r.lruMap[obj.urn] == Entry(obj, 0)
    ensures r.log == c.log + Flushes(OldestFirst(([obj.urn] + c.lru)[|r.lru|..]))
  {
    TrimmedPush(c, obj);
    Trim(PushIdle(c, obj), 0)
  }

  /** The facts MakeIdle promises, about the trimmed ring it builds. */
  lemma TrimmedPush(c: Cache, obj: Obj)
    requires Valid(c) && obj.urn !in c.inUse && obj.urn !in c.lruMap
    ensures var t := Trim(PushIdle(c, obj), 0);
      && |t.lruMap| <= c.maxItems
      && t.lru == ([obj.urn] + c.lru)[..|t.lru|]
      && (forall k :: k in t.lruMap ==> k == obj.urn || (k in c.lruMap && t.lruMap[k] == c.lruMap[k]))
      && (c.maxItems > 0 ==> obj.urn in t.lruMap && t.lruMap[obj.urn] == Entry(obj, 0))
      && t.log == c.log + Flushes(OldestFirst(([obj.urn] + c.lru)[|t.lru|..]))
  {
    var idle := PushIdle(c, obj);
    var t := Trim(idle, 0);
    assert |t.lruMap| <= c.maxItems by {
      LruSize(t);
    }
    TrimKeepsMostRecent(idle, 0);
    assert t.log == c.log + Flushes(OldestFirst(idle.lru[|t.lru|..])) by {
      TrimFlushesEvicted(idle, 0);
    }
    assert c.maxItems > 0 ==> obj.urn in t.lru by {
      if c.maxItems > 0 {
        HeadSurvives(idle.lru, t.lru);
      }
    }
  }

  /**
   * Registers a new object under its URN. Fails if the URN is already in use
   * or idle. In-use objects start with count 1; idle ones join the most
   * recent end of the ring, after which the cache is trimmed to capacity.
   */
  function Put(c: Cache, obj: Obj, inUseState: bool): (r: Result<Cache, CacheError>)
    requires Valid(c)
    ensures r.Failure? <==> obj.urn in c.inUse || obj.urn in c.lruMap
    ensures r.Failure? ==> r.error == (if obj.urn in c.inUse then PutWhileInUse(obj.urn) else PutWhileCached(obj.urn))
    ensures r.Success? ==> Valid(r.value) && r.value.maxItems == c.maxItems
    ensures r.Success? && inUseState ==>
      && r.value.inUse == c.inUse[obj.urn := Entry(obj, 1)]
      && r.value.lruMap == c.lruMap && r.value.lru == c.lru && r.value.log == c.log
    ensures r.Success? && !inUseState ==>
      && r.value.inUse == c.inUse
      && |r.value.lruMap| <= c.maxItems
      && |r.value.lru| == Min(|c.lru| + 1, c.maxItems)
      && r.value.lru == ([obj.urn] + c.lru)[..|r.value.lru|]
      && (forall k :: k in r.value.lruMap ==> k == obj.urn || (k in c.lruMap && r.value.lruMap[k] == c.lruMap[k]))
      && (c.maxItems > 0 ==> obj.urn in r.value.lruMap && r.value.lruMap[obj.urn] == Entry(obj, 0))
      && r.value.log == c.log + Flushes(OldestFirst(([obj.urn] + c.lru)[|r.value.lru|..]))
  {
    var key := obj.urn;
    if key in c.inUse then Failure(PutWhileInUse(key))
    else if key in c.lruMap then Failure(PutWhileCached(key))
    else if inUseState then Success(c.(inUse := c.inUse[key := Entry(obj, 1)]))
    else Success(MakeIdle(c, obj))
  }

  /**
   * Looks a URN up. An in-use hit gains one holder; an idle hit leaves the
   * ring and becomes in use with count 1; a miss changes nothing.
   */
  function Get(c: Cache, key: string): (r: (Cache, Option<Obj>))
    requires Valid(c)
    ensures Valid(r.0) && r.0.maxItems == c.maxItems && r.0.log == c.log
    ensures r.1.Some? <==> key in c.inUse || key in c.lruMap
    ensures r.1.Some? ==> r.1.value.urn == key && key in r.0.inUse && r.0.inUse[key].obj == r.1.value
    ensures key in c.inUse ==>
      && r.1 == Some(c.inUse[key].obj)
      && r.0.inUse == c.inUse[key := Entry(c.inUse[key].obj, c.inUse[key].useCount + 1)]
      && r.0.lruMap == c.lruMap && r.0.lru == c.lru
    ensures key in c.lruMap ==>
      && r.1 == Some(c.lruMap[key].obj)
      && r.0.inUse == c.inUse[key := Entry(c.lruMap[key].obj, 1)]
      && r.0.lruMap == c.lruMap - {key} && r.0.lru == Without(c.lru, key)
    ensures key !in c.inUse && key !in c.lruMap ==> r.0 == c
  {
    if key in c.inUse then
      var e := c.inUse[key];
      (c.(inUse := c.inUse[key := Entry(e.obj, e.useCount + 1)]), Some(e.obj))
    else if key in c.lruMap then
      var e := c.lruMap[key];
      (c.(inUse := c.inUse[key := Entry(e.obj, 1)], lruMap := c.lruMap - {key}, lru := Without(c.lru, key)), Some(e.obj))
    else
      (c, None)
  }

  /**
   * Gives back one hold on an in-use object; fails unless its URN is in
   * use. The object handed back is the live object its holders share, so
   * the entry keeps it as returned (dirty or not). When the last holder
   * returns it, the entry becomes idle at the most recent end of the ring
   * and the cache is trimmed to capacity.
   */
  function Return(c: Cache, obj: Obj): (r: Result<Cache, CacheError>)
    requires Valid(c)
    ensures r.Failure? <==> obj.urn !in c.inUse
    ensures r.Failure? ==> r.error == ReturnedNotInUse(obj.urn)
    ensures r.Success? ==> Valid(r.value) && r.value.maxItems == c.maxItems
    ensures r.Success? ==> UseCount(r.value, obj.urn) == UseCount(c, obj.urn) - 1
    ensures r.Success? && c.inUse[obj.urn].useCount > 1 ==>
      && r.value.inUse == c.inUse[obj.urn := Entry(obj, c.inUse[obj.urn].useCount - 1)]
      && r.value.lruMap == c.lruMap && r.value.lru == c.lru && r.value.log == c.log
    ensures r.Success? && c.inUse[obj.urn].useCount == 1 ==>
      && r.value.inUse == c.inUse - {obj.urn}
      && |r.value.lruMap| <= c.maxItems
      && |r.value.lru| == Min(|c.lru| + 1, c.maxItems)
      && r.value.lru == ([obj.urn] + c.lru)[..|r.value.lru|]
      && (forall k :: k in r.value.lruMap ==> k == obj.urn || (k in c.lruMap && r.value.lruMap[k] == c.lruMap[k]))
      && (c.maxItems > 0 ==> obj.urn in r.value.lruMap && r.value.lruMap[obj.urn] == Entry(obj, 0))
      && r.value.log == c.log + Flushes(OldestFirst(([obj.urn] + c.lru)[|r.value.lru|..]))
  {
    var key := obj.urn;
    if key !in c.inUse || c.inUse[key].useCount == 0 then Failure(ReturnedNotInUse(key))
    else
      var e := c.inUse[key];
      if e.useCount > 1 then
        Success(c.(inUse := c.inUse[key := Entry(obj, e.useCount - 1)]))
      else
        Success(MakeIdle(c.(inUse := c.inUse - {key}), obj))
  }

  /**
   * Takes a URN out of whichever map holds it and flushes (but does not
   * close) its object; fails if the URN is in neither map.
   */
  function Remove(c: Cache, key: string): (r: Result<Cache, CacheError>)
    requires Valid(c)
    ensures r.Failure? <==> key !in c.inUse && key !in c.lruMap
    ensures r.Failure? ==> r.error == RemovedNeverCached(key)
    ensures r.Success? ==>
      && Valid(r.value) && r.value.maxItems == c.maxItems
      && key !in r.value.inUse && key !in r.value.lruMap
      && r.value.inUse == c.inUse - {key} && r.value.lruMap == c.lruMap - {key}
      && r.value.lru == Without(c.lru, key)
      && r.value.log == c.log + [Flushed(key)]
  {
    if key in c.lruMap then
      DropIdleValid(c, key);
      Success(c.(lruMap := c.lruMap - {key}, lru := Without(c.lru, key), log := c.log + [Flushed(key)]))
    else if key in c.inUse then
      DropInUseValid(c, key);
      Success(c.(inUse := c.inUse - {key}, log := c.log + [Flushed(key)]))
    else
      Failure(RemovedNeverCached(key))
  }

  lemma DropIdleValid(c: Cache, key: string)
    requires Valid(c) && key in c.lruMap
    ensures key !in c.inUse && c.inUse - {key} == c.inUse
    ensures Valid(c.(lruMap := c.lruMap - {key}, lru := Without(c.lru, key), log := c.log + [Flushed(key)]))
  {
  }

  lemma DropInUseValid(c: Cache, key: string)
    requires Valid(c) && key in c.inUse
    ensures key !in c.lruMap && c.lruMap - {key} == c.lruMap
    ensures Without(c.lru, key) == c.lru
    ensures Valid(c.(inUse := c.inUse - {key}, log := c.log + [Flushed(key)]))
  {
  }

  /** The keys among `keys`, in order, whose idle object is dirty. */
  function DirtyIn(m: map<string, Entry>, keys: seq<string>): (r: seq<string>)
    ensures forall k :: k in r ==> k in keys && k in m && m[k].obj.dirty
    ensures forall k :: k in keys && k in m && m[k].obj.dirty ==> k in r
    ensures r == [] <==> forall k :: k in keys && k in m ==> !m[k].obj.dirty
  {
    if keys == [] then []
    else (if keys[0] in m && m[keys[0]].obj.dirty then [keys[0]] else []) + DirtyIn(m, keys[1..])
  }

  /** `DirtyIn` only looks at the dirty bits of the keys it is given. */
  lemma {:induction false} DirtyInFrame(m1: map<string, Entry>, m2: map<string, Entry>, keys: seq<string>)
    requires forall k :: k in keys ==> (k in m1 <==> k in m2)
    requires forall k :: k in keys && k in m1 ==> m1[k].obj.dirty == m2[k].obj.dirty
    ensures DirtyIn(m1, keys) == DirtyIn(m2, keys)
  {
    if keys != [] {
      DirtyInFrame(m1, m2, keys[1..]);
    }
  }

  /** `m2` differs from `m1` at most in the dirty bits of the objects. */
  ghost predicate OnlyDirtyBitsChanged(m1: map<string, Entry>, m2: map<string, Entry>) {
    && m1.Keys == m2.Keys
    && forall k :: k in m1 ==> m2[k] == m1[k].(obj := m1[k].obj.(dirty := m2[k].obj.dirty))
  }

  /** Cleaning idle objects keeps the cache discipline. */
  lemma ValidAfterCleaning(c: Cache, m: map<string, Entry>)
    requires Valid(c) && OnlyDirtyBitsChanged(c.lruMap, m)
    ensures Valid(c.(lruMap := m))
  {
  }

  /**
   * One sweep over the idle entries `keys` in ring order: each dirty object
   * is flushed once and becomes clean. Returns the new idle map and the keys
   * flushed, in order; the sweep found a dirty object iff that list is not empty.
   */
  function FlushPass(m: map<string, Entry>, keys: seq<string>): (r: (map<string, Entry>, seq<string>))
    requires NoDups(keys)
    requires forall k :: k in keys ==> k in m
    ensures OnlyDirtyBitsChanged(m, r.0)
    ensures forall k :: k in keys ==> !r.0[k].obj.dirty
    ensures forall k :: k in m && k !in keys ==> r.0[k] == m[k]
    ensures r.1 == DirtyIn(m, keys)
    decreases |keys|
  {
    if keys == [] then (m, [])
    else
      var k := keys[0];
      var e := m[k];
      var m1 := if e.obj.dirty then m[k := Entry(e.obj.(dirty := false), e.useCount)] else m;
      assert k !in keys[1..] by {
        forall i | 1 <= i < |keys| ensures keys[i] != k { }
      }
      assert NoDups(keys[1..]) by {
        forall i, j | 0 <= i < j < |keys[1..]| ensures keys[1..][i] != keys[1..][j] {
          assert keys[1..][i] == keys[i + 1] && keys[1..][j] == keys[j + 1];
        }
      }
      DirtyInFrame(m, m1, keys[1..]);
      var r := FlushPass(m1, keys[1..]);
      (r.0, (if e.obj.dirty then [k] else []) + r.1)
  }

  /** No dirty idle object remains. */
  ghost predicate AllIdleClean(c: Cache) {
    forall k :: k in c.lruMap ==> !c.lruMap[k].obj.dirty
  }

  /**
   * Repeats flush passes over the ring until a pass finds no dirty object.
   * Every originally dirty idle object is flushed exactly once, in ring order.
   */
  function Sweep(c: Cache): (r: Cache)
    requires Valid(c)
    ensures Valid(r) && AllIdleClean(r)
    ensures r.maxItems == c.maxItems && r.inUse == c.inUse && r.lru == c.lru
    ensures r.lruMap.Keys == c.lruMap.Keys && OnlyDirtyBitsChanged(c.lruMap, r.lruMap)
    ensures r.log == c.log + Flushes(DirtyIn(c.lruMap, c.lru))
    decreases |DirtyIn(c.lruMap, c.lru)|
  {
    var (m1, flushed) := FlushPass(c.lruMap, c.lru);
    ValidAfterCleaning(c, m1);
    var c1 := c.(lruMap := m1, log := c.log + Flushes(flushed));
    if flushed == [] then
      c1
    else
      assert DirtyIn(c1.lruMap, c1.lru) == [];
      var r := Sweep(c1);
      DirtyBitsChain(c.lruMap, m1, r.lruMap);
      r
  }

  /** Two rounds that each change only dirty bits together change only dirty bits. */
  lemma DirtyBitsChain(m1: map<string, Entry>, m2: map<string, Entry>, m3: map<string, Entry>)
    requires OnlyDirtyBitsChanged(m1, m2) && OnlyDirtyBitsChanged(m2, m3)
    ensures OnlyDirtyBitsChanged(m1, m3)
  {
  }

  /**
   * Fails while any object is in use. Otherwise flushes dirty idle objects
   * until all are clean, then closes every idle object and empties the ring.
   * Objects are closed in the order they were filed into the idle map, which
   * is the ring read from its least recent end (pyaff4 iterates the idle map,
   * a plain dict, which keeps insertion order from Python 3.7 on).
   */
  function Flush(c: Cache): (r: Result<Cache, CacheError>)
    requires Valid(c)
    ensures r.Failure? <==> |c.inUse| > 0
    ensures r.Failure? ==> r.error == FlushedWhileInUse
    ensures r.Success? ==>
      && Valid(r.value) && Bounded(r.value) && r.value.maxItems == c.maxItems
      && r.value.inUse == map[] && r.value.lruMap == map[] && r.value.lru == []
      && r.value.log == c.log + Flushes(DirtyIn(c.lruMap, c.lru)) + Closes(OldestFirst(c.lru))
  {
    if |c.inUse| > 0 then Failure(FlushedWhileInUse)
    else
      var swept := Sweep(c);
      assert c.inUse == map[];
      Success(swept.(lruMap := map[], lru := [], log := swept.log + Closes(OldestFirst(swept.lru))))
  }

  /** One call on the cache, as a caller of the resolver issues it. */
  datatype Op = PutOp(obj: Obj, inUseState: bool) | GetOp(key: string) | ReturnOp(obj: Obj) | RemoveOp(key: string) | FlushOp

  function Apply(c: Cache, op: Op): (r: Result<Cache, CacheError>)
    requires Valid(c)
  {
    match op
    case PutOp(obj, s) => Put(c, obj, s)
    case GetOp(k) => Success(Get(c, k).0)
    case ReturnOp(o) => Return(c, o)
    case RemoveOp(k) => Remove(c, k)
    case FlushOp => Flush(c)
  }

  /** Every operation keeps the cache discipline and the capacity bound. */
  lemma ApplyPreserves(c: Cache, op: Op)
    requires Valid(c) && Bounded(c)
    ensures Apply(c, op).Success? ==> Valid(Apply(c, op).value) && Bounded(Apply(c, op).value)
  {
    match op
    case GetOp(k) =>
      var r := Get(c, k).0;
      LruSize(c);
      LruSize(r);
    case RemoveOp(k) =>
      if Remove(c, k).Success? {
        LruSize(c);
        LruSize(Remove(c, k).value);
      }
    case _ =>
  }

  /** Runs operations in order, stopping at the first contract violation. */
  function Run(c: Cache, ops: seq<Op>): (r: Result<Cache, CacheError>)
    requires Valid(c)
    decreases |ops|
  {
    if ops == [] then Success(c)
    else
      ApplyPreservesValid(c, ops[0]);
      match Apply(c, ops[0])
      case Failure(e) => Failure(e)
      case Success(c1) => Run(c1, ops[1..])
  }

  lemma ApplyPreservesValid(c: Cache, op: Op)
    requires Valid(c)
    ensures Apply(c, op).Success? ==> Valid(Apply(c, op).value)
  {
  }

  /**
   * From a fresh cache, any sequence of operations that raises no contract
   * violation ends in a state where every key is in at most one map, every
   * in-use entry has a positive count and the idle part is within capacity.
   */
  lemma {:induction false} RunPreserves(c: Cache, ops: seq<Op>)
    requires Valid(c) && Bounded(c)
    ensures Run(c, ops).Success? ==> Valid(Run(c, ops).value) && Bounded(Run(c, ops).value)
    decreases |ops|
  {
    if ops != [] {
      ApplyPreserves(c, ops[0]);
      if Apply(c, ops[0]).Success? {
        RunPreserves(Apply(c, ops[0]).value, ops[1..]);
      }
    }
  }

  /** A Get on an in-use URN followed by a Return of the unchanged object restores the cache exactly. */
  lemma GetThenReturnInUse(c: Cache, key: string)
    requires Valid(c) && key in c.inUse
    ensures Return(Get(c, key).0, Get(c, key).1.value) == Success(c)
  {
    var g := Get(c, key).0;
    assert g.inUse[key].useCount > 1;
    assert g.inUse[key := Entry(c.inUse[key].obj, c.inUse[key].useCount)] == c.inUse;
  }

  /**
   * When the ring has room, the last Return of an object evicts nothing:
   * the object becomes the most recent idle entry, under its returned state,
   * and every other entry stays as it was.
   */
  lemma ReturnWithRoom(c: Cache, obj: Obj)
    requires Valid(c) && obj.urn in c.inUse && c.inUse[obj.urn].useCount == 1
    requires |c.lru| < c.maxItems
    ensures Return(c, obj).Success?
    ensures var r := Return(c, obj).value;
      && r.inUse == c.inUse - {obj.urn} && r.log == c.log
      && r.lru == [obj.urn] + c.lru
      && r.lruMap == c.lruMap[obj.urn := Entry(obj, 0)]
  {
    var r := Return(c, obj).value;
    assert r.lru == [obj.urn] + c.lru;
    assert r.log == c.log by {
      assert ([obj.urn] + c.lru)[|r.lru|..] == [];
    }
    var m := c.lruMap[obj.urn := Entry(obj, 0)];
    assert r.lruMap.Keys == m.Keys by {
      forall k ensures k in r.lruMap <==> k in m {
        assert k in r.lruMap <==> k in r.lru;
        assert k in c.lruMap <==> k in c.lru;
      }
    }
    SameMap(r.lruMap, m);
  }

  /**
   * A Get on an idle URN followed by a Return of the unchanged object leaves
   * the same entries, evicts nothing and flushes nothing; the URN moves to
   * the most recent end of the ring.
   */
  lemma GetThenReturnIdle(c: Cache, key: string)
    requires Valid(c) && Bounded(c) && key in c.lruMap
    ensures Return(Get(c, key).0, Get(c, key).1.value).Success?
    ensures var r := Return(Get(c, key).0, Get(c, key).1.value).value;
      && r.inUse == c.inUse && r.lruMap == c.lruMap && r.log == c.log
      && r.lru == [key] + Without(c.lru, key)
  {
    var g := Get(c, key).0;
    var e := c.lruMap[key];
    assert |g.lru| < g.maxItems by {
      LruSize(c);
    }
    ReturnWithRoom(g, e.obj);
    UndoGet(c.inUse, c.lruMap, key, e);
  }

  /** Taking an idle entry into use and filing it back idle gives back both maps. */
  lemma UndoGet(inUse: map<string, Entry>, lruMap: map<string, Entry>, key: string, e: Entry)
    requires key !in inUse && key in lruMap && lruMap[key] == e && e.useCount == 0
    ensures inUse[key := Entry(e.obj, 1)] - {key} == inUse
    ensures (lruMap - {key})[key := Entry(e.obj, 0)] == lruMap
  {
  }

  lemma SameMap(m1: map<string, Entry>, m2: map<string, Entry>)
    requires m1.Keys == m2.Keys
    requires forall k :: k in m1 ==> m1[k] == m2[k]
    ensures m1 == m2
  {
  }

  /** Consequently a Get followed by a Return gives back the use count the URN had. */
  lemma GetThenReturnRestoresCount(c: Cache, key: string)
    requires Valid(c) && Bounded(c) && (key in c.inUse || key in c.lruMap)
    ensures Return(Get(c, key).0, Get(c, key).1.value).Success?
    ensures UseCount(Return(Get(c, key).0, Get(c, key).1.value).value, key) == UseCount(c, key)
  {
    if key in c.inUse {
      GetThenReturnInUse(c, key);
    } else {
      GetThenReturnIdle(c, key);
    }
  }

  /** Trimming to size 0 trims to the capacity, not to nothing. */
  lemma TrimZeroKeepsCapacity(c: Cache)
    requires Valid(c) && c.maxItems > 0 && |c.lru| > 0
    ensures |Trim(c, 0).lru| == Min(|c.lru|, c.maxItems) > 0
  {
  }

  /**
   * Capacity 1: putting `a` then `b` idle evicts `a` (the older one), flushes
   * it, and leaves only `b` idle.
   */
  lemma CapacityOneEvictsOlder(a: Obj, b: Obj)
    requires a.urn != b.urn
    ensures Put(NewCache(1), a, false).Success?
    ensures Put(Put(NewCache(1), a, false).value, b, false).Success?
    ensures var c := Put(Put(NewCache(1), a, false).value, b, false).value;
      c.lruMap.Keys == {b.urn} && c.lru == [b.urn] && c.log == [Flushed(a.urn)]
  {
    var c1 := Put(NewCache(1), a, false).value;
    LruSize(c1);
    assert c1.lru == [a.urn];
    var c2 := Put(c1, b, false).value;
    LruSize(c2);
    assert ([b.urn] + c1.lru)[1..] == [a.urn];
    assert c2.lru == [b.urn];
  }

  /** Flush refuses while an object is pinned and succeeds once it is returned. */
  lemma FlushNeedsReturn(c: Cache, key: string)
    requires Valid(c) && key in c.inUse && c.inUse.Keys == {key} && c.inUse[key].useCount == 1
    ensures Flush(c) == Failure(FlushedWhileInUse)
    ensures Return(c, c.inUse[key].obj).Success? && Flush(Return(c, c.inUse[key].obj).value).Success?
  {
    var r := Return(c, c.inUse[key].obj).value;
    assert r.inUse == map[];
  }

  /**
   * A holder's changes reach the cache through Return: when the only holder
   * gives its object back marked dirty, the next Flush writes it out before
   * closing it; a clean object is only closed.
   */
  lemma ReturnedDirtyIsFlushed(c: Cache, obj: Obj)
    requires Valid(c) && c.maxItems > 0 && c.lruMap == map[]
    requires c.inUse.Keys == {obj.urn} && c.inUse[obj.urn].useCount == 1
    ensures Return(c, obj).Success? && Flush(Return(c, obj).value).Success?
    ensures Flush(Return(c, obj).value).value.log ==
      c.log + (if obj.dirty then [Flushed(obj.urn)] else []) + [Closed(obj.urn)]
  {
    assert c.lru == [] by {
      LruSize(c);
    }
    ReturnWithRoom(c, obj);
    var r := Return(c, obj).value;
    assert r.inUse == map[];
    FlushSingle(r, obj);
  }

  /** Flushing a cache whose only entry is one idle object. */
  lemma FlushSingle(c: Cache, obj: Obj)
    requires Valid(c) && c.inUse == map[]
    requires c.lru == [obj.urn] && c.lruMap == map[][obj.urn := Entry(obj, 0)]
    ensures Flush(c).Success?
    ensures Flush(c).value.log == c.log + (if obj.dirty then [Flushed(obj.urn)] else []) + [Closed(obj.urn)]
  {
    assert DirtyIn(c.lruMap, c.lru) == (if obj.dirty then [obj.urn] else []) by {
      assert DirtyIn(c.lruMap, c.lru[1..]) == [];
    }
  }
}
