/**
 * ShardMap: the table dataset -> shard id -> shard that a server keeps of
 * the shards it holds, its lookups, the version rule that decides which copy
 * of a shard to keep, and its reconciliation with the persisted shard store.
 */
module ShardMap {
  import opened Wrappers

  /** A shard as the table holds it: its id, its version, and whether its reader is a raw flamdex reader. */
  datatype Shard = Shard(id: string, version: int, isRaw: bool)

  /** A shard directory found on disk: the shard it would load. */
  datatype ShardDir = ShardDir(id: string, version: int, isRaw: bool)

  /** Shard.isNewerThan: a later version, and anything is newer than no shard. */
  predicate ShardIsNewerThan(s: Shard, other: Option<Shard>) {
    other.None? || s.version > other.value.version
  }

  /** ShardDir.isNewerThan, by the same rule. */
  predicate DirIsNewerThan(d: ShardDir, other: Option<Shard>) {
    other.None? || d.version > other.value.version
  }

  type Table = map<string, map<string, Shard>>

  /** getShard: none when the dataset is absent or has no shard of that id. */
  function Lookup(t: Table, dataset: string, shardId: string): (r: Option<Shard>)
    ensures r.Some? <==> dataset in t && shardId in t[dataset]
    ensures r.Some? ==> r.value == t[dataset][shardId]
  {
    if dataset in t then
      if shardId in t[dataset] then Some(t[dataset][shardId]) else None
    else None
  }

  /** putShard: enter `s` under its own id, creating the dataset's inner map if needed. */
  function Put(t: Table, dataset: string, s: Shard): (t': Table)
    ensures t'.Keys == t.Keys + {dataset}
    ensures dataset !in t ==> t'[dataset] == map[s.id := s]
  {
    var inner := if dataset in t then t[dataset] else map[];
    t[dataset := inner[s.id := s]]
  }

  /** After putShard(d, s), getShard(d, s.id) is s, and every other entry is as it was. */
  lemma LookupAfterPut(t: Table, dataset: string, s: Shard, d: string, id: string)
    ensures Lookup(Put(t, dataset, s), d, id) ==
      if d == dataset && id == s.id then Some(s) else Lookup(t, d, id)
  {
  }

  /** Each inner map holds every shard under its own id. */
  ghost predicate WellKeyed(t: Table) {
    forall d, id :: d in t && id in t[d] ==> t[d][id].id == id
  }

  lemma PutWellKeyed(t: Table, dataset: string, s: Shard)
    requires WellKeyed(t)
    ensures WellKeyed(Put(t, dataset, s))
  {
  }

  // ----- the persisted form -----

  datatype StoreKey = StoreKey(dataset: string, shardId: string)

  /** What the store records of a shard (its directory name, document count and field lists are not modelled). */
  datatype StoreValue = StoreValue(version: int)

  function ValueOf(s: Shard): StoreValue {
    StoreValue(s.version)
  }

  /** The (dataset, shard id, shard) triples that `map` hands to its handler, one per entry. */
  function Elements(t: Table): (es: set<(string, string, Shard)>)
    ensures forall d, id, s :: (d, id, s) in es <==> Lookup(t, d, id) == Some(s)
  {
    set d, id | d in t && id in t[d] :: (d, id, t[d][id])
  }

  /** The store keys of the table's entries. */
  ghost function KeysOf(t: Table): set<StoreKey> {
    set d, id | d in t && id in t[d] :: StoreKey(d, id)
  }

  /**
   * The store after saveTo: every entry of the table whose key the store
   * lacks is added (unless its put fails); nothing present is overwritten.
   */
  ghost function Saved(t: Table, store: map<StoreKey, StoreValue>, putFails: set<StoreKey>): (s: map<StoreKey, StoreValue>)
    ensures forall k :: k in store ==> k in s && s[k] == store[k]
    ensures forall k :: k in s && k !in store ==>
      k !in putFails && Lookup(t, k.dataset, k.shardId).Some? &&
      s[k] == ValueOf(Lookup(t, k.dataset, k.shardId).value)
    ensures forall k :: k in KeysOf(t) && k !in putFails ==> k in s
  {
    map k | k in store.Keys + KeysOf(t) && (k in store || k !in putFails) ::
      if k in store then store[k] else ValueOf(t[k.dataset][k.shardId])
  }

  /** The store after prune: exactly the keys with no shard in the table are gone (unless their delete fails). */
  ghost function Pruned(t: Table, store: map<StoreKey, StoreValue>, deleteFails: set<StoreKey>): (s: map<StoreKey, StoreValue>)
    ensures forall k :: k in s <==> k in store && (Lookup(t, k.dataset, k.shardId).Some? || k in deleteFails)
    ensures forall k :: k in s ==> s[k] == store[k]
  {
    map k | k in store && (Lookup(t, k.dataset, k.shardId).Some? || k in deleteFails) :: store[k]
  }

  ghost function KeysOfElements(es: set<(string, string, Shard)>): set<StoreKey> {
    set e | e in es :: StoreKey(e.0, e.1)
  }

  /** Entries of one table have distinct keys, so taking one entry out of a set of them takes out exactly its key. */
  lemma RemoveElement(t: Table, es: set<(string, string, Shard)>, e: (string, string, Shard))
    requires es <= Elements(t) && e in es
    ensures KeysOfElements(es - {e}) == KeysOfElements(es) - {StoreKey(e.0, e.1)}
  {
    forall x | x in es - {e} ensures StoreKey(x.0, x.1) != StoreKey(e.0, e.1) {
    }
  }

  /** Membership in and values of Saved, one key at a time. */
  lemma SavedAt(t: Table, store: map<StoreKey, StoreValue>, fails: set<StoreKey>, j: StoreKey)
    ensures j in Saved(t, store, fails) <==>
      j in store || (j.dataset in t && j.shardId in t[j.dataset] && j !in fails)
    ensures j in Saved(t, store, fails) ==>
      Saved(t, store, fails)[j] == if j in store then store[j] else ValueOf(t[j.dataset][j.shardId])
  {
    if j.dataset in t && j.shardId in t[j.dataset] {
      assert j == StoreKey(j.dataset, j.shardId);
      assert j in KeysOf(t);
    }
  }

  /** One step of saveTo: handling the entry for key k, which is still pending. */
  lemma SaveStep(t: Table, store: map<StoreKey, StoreValue>, fails: set<StoreKey>, pending: set<StoreKey>, k: StoreKey, s: Shard)
    requires k in pending && Lookup(t, k.dataset, k.shardId) == Some(s)
    ensures var cur := Saved(t, store, fails + pending);
      var next := Saved(t, store, fails + (pending - {k}));
      (k in cur <==> k in store) &&
      next == if k in cur || k in fails then cur else cur[k := ValueOf(s)]
  {
    var cur := Saved(t, store, fails + pending);
    var next := Saved(t, store, fails + (pending - {k}));
    var want := if k in cur || k in fails then cur else cur[k := ValueOf(s)];
    forall j ensures (j in next <==> j in want) && (j in next ==> next[j] == want[j]) {
      SavedAt(t, store, fails + pending, j);
      SavedAt(t, store, fails + (pending - {k}), j);
    }
    assert next.Keys == want.Keys;
    SavedAt(t, store, fails + pending, k);
  }

  /** With no failed store operation, sync leaves the store holding exactly the table's keys, old records kept. */
  lemma SyncMirrorsTable(t: Table, store: map<StoreKey, StoreValue>)
    ensures Pruned(t, Saved(t, store, {}), {}).Keys == KeysOf(t)
    ensures forall k :: k in store && k in KeysOf(t) ==> Pruned(t, Saved(t, store, {}), {})[k] == store[k]
  {
    var s := Pruned(t, Saved(t, store, {}), {});
    forall k | k in s ensures k in KeysOf(t) {
      assert Lookup(t, k.dataset, k.shardId).Some?;
      assert StoreKey(k.dataset, k.shardId) == k;
    }
    forall k | k in KeysOf(t) ensures k in s {
      var d, id :| d in t && id in t[d] && k == StoreKey(d, id);
      assert Lookup(t, k.dataset, k.shardId).Some?;
    }
  }

  /** The key-value store a shard map is persisted to; a failed put or delete is an input. */
  class ShardStore {
    var entries: map<StoreKey, StoreValue>

    constructor (entries: map<StoreKey, StoreValue>)
      ensures this.entries == entries
    {
      this.entries := entries;
    }

    method ContainsKey(k: StoreKey) returns (b: bool)
      ensures b <==> k in entries
    {
      b := k in entries;
    }

    /** put; `fails` stands for an IOException, after which the entry is not written. */
    method Put(k: StoreKey, v: StoreValue, fails: bool)
      modifies this
      ensures entries == if fails then old(entries) else old(entries)[k := v]
    {
      if !fails {
        entries := entries[k := v];
      }
    }

    /** delete; `fails` stands for an IOException, after which the entry stays. */
    method Delete(k: StoreKey, fails: bool)
      modifies this
      ensures entries == if fails then old(entries) else old(entries) - {k}
    {
      if !fails {
        entries := entries - {k};
      }
    }
  }

  // ----- track -----

  /** Which shard track enters for (dataset, id), if any. */
  datatype Decision =
    | Load(shard: Shard)
    | LoadFailed
    | KeepCurrent(shard: Shard)
    | KeepReference(shard: Shard)

  /**
   * track: load the directory if it is newer than both the reference copy
   * and the current copy; otherwise keep the current copy if it is newer
   * than the reference, else the reference copy. The last branch never sees
   * a missing reference shard, since a directory is always newer than none.
   */
  function Decide(reference: Option<Shard>, current: Option<Shard>, dir: ShardDir, loadFails: bool): (d: Decision)
    ensures d.Load? <==> DirIsNewerThan(dir, reference) && DirIsNewerThan(dir, current) && !loadFails
    ensures d.LoadFailed? <==> DirIsNewerThan(dir, reference) && DirIsNewerThan(dir, current) && loadFails
    ensures d.KeepCurrent? <==>
      !(DirIsNewerThan(dir, reference) && DirIsNewerThan(dir, current)) &&
      current.Some? && ShardIsNewerThan(current.value, reference)
    ensures d.Load? ==> d.shard == Shard(dir.id, dir.version, dir.isRaw)
    ensures d.KeepCurrent? ==> Some(d.shard) == current
    ensures d.KeepReference? ==> Some(d.shard) == reference
  {
    if DirIsNewerThan(dir, reference) && DirIsNewerThan(dir, current) then
      if loadFails then LoadFailed else Load(Shard(dir.id, dir.version, dir.isRaw))
    else if current.Some? && ShardIsNewerThan(current.value, reference) then
      KeepCurrent(current.value)
    else
      KeepReference(reference.value)
  }

  /** Unless loading fails, track keeps the newest of the directory, the current copy and the reference copy. */
  lemma TrackKeepsNewest(reference: Option<Shard>, current: Option<Shard>, dir: ShardDir, loadFails: bool)
    requires !Decide(reference, current, dir, loadFails).LoadFailed?
    ensures var s := Decide(reference, current, dir, loadFails).shard;
      && s.version >= dir.version
      && (reference.Some? ==> s.version >= reference.value.version)
      && (current.Some? ==> s.version >= current.value.version)
  {
  }

  /** The partial-read results of getFlamdexReaders. */
  datatype ReaderRef = CachedReaderRef(shard: Shard) | RawCachedReaderRef(shard: Shard)

  datatype FlamdexReaderMap = FlamdexReaderMap(readers: map<string, ReaderRef>, allFlamdexReaders: bool)

  datatype LookupError = NoSuchDataset(dataset: string) | NoSuchShard(shardId: string, dataset: string)

  class ShardMap {
    var table: Table

    ghost predicate Valid()
      reads this
    {
      WellKeyed(table)
    }

    /** The empty map (the reader source, memory and cache it is built with are not modelled). */
    constructor ()
      ensures Valid() && table == map[]
    {
      table := map[];
    }

    /** getShard. */
    function GetShard(dataset: string, shardId: string): (r: Option<Shard>)
      reads this
      ensures r == Lookup(table, dataset, shardId)
    {
      if dataset in table then
        var idToShard := table[dataset];
        if shardId in idToShard then Some(idToShard[shardId]) else None
      else None
    }

    /** putShard: replaces a shard of the same id, creating the dataset's inner map if needed. */
    method PutShard(dataset: string, s: Shard)
      requires Valid()
      modifies this
      ensures Valid()
      ensures table == Put(old(table), dataset, s)
    {
      var idToShard: map<string, Shard>;
      if dataset in table {
        idToShard := table[dataset];
      } else {
        idToShard := map[];
        table := table[dataset := idToShard];
      }
      idToShard := idToShard[s.id := s];
      table := table[dataset := idToShard];
      PutWellKeyed(old(table), dataset, s);
    }

    /** getShardCounts: each dataset with the number of its shards, and nothing else. */
    method GetShardCounts() returns (counts: map<string, nat>)
      ensures counts.Keys == table.Keys
      ensures forall d :: d in counts ==> counts[d] == |table[d]|
    {
      counts := map[];
      var todo := table.Keys;
      while todo != {}
        invariant todo <= table.Keys
        invariant counts.Keys == table.Keys - todo
        invariant forall d :: d in counts ==> counts[d] == |table[d]|
        decreases todo
      {
        var d :| d in todo;
        counts := counts[d := |table[d]|];
        todo := todo - {d};
      }
    }

    /**
     * getFlamdexReaders: fails on a missing dataset, or on the first
     * requested id the dataset lacks; otherwise a reader for every requested
     * id, raw exactly for raw shards, and allFlamdexReaders unless one is raw.
     */
    method GetFlamdexReaders(dataset: string, requested: seq<string>) returns (r: Result<FlamdexReaderMap, LookupError>)
      ensures dataset !in table ==> r == Failure(NoSuchDataset(dataset))
      ensures r.Success? <==> dataset in table && forall i :: 0 <= i < |requested| ==> requested[i] in table[dataset]
      ensures dataset in table && r.Failure? ==>
        exists j :: 0 <= j < |requested| && r == Failure(NoSuchShard(requested[j], dataset)) &&
          requested[j] !in table[dataset] &&
          forall i :: 0 <= i < j ==> requested[i] in table[dataset]
      ensures r.Success? ==>
        && (forall id :: id in r.value.readers <==> id in requested)
        && (forall id :: id in r.value.readers ==>
              r.value.readers[id].shard == table[dataset][id] &&
              (r.value.readers[id].RawCachedReaderRef? <==> table[dataset][id].isRaw))
        && (r.value.allFlamdexReaders <==> forall id :: id in requested ==> !table[dataset][id].isRaw)
    {
      if dataset !in table {
        return Failure(NoSuchDataset(dataset));
      }
      var idToShard := table[dataset];
      var readers: map<string, ReaderRef> := map[];
      var all := true;
      var i := 0;
      while i < |requested|
        invariant 0 <= i <= |requested|
        invariant forall j :: 0 <= j < i ==> requested[j] in idToShard
        invariant forall id :: id in readers <==> id in requested[..i]
        invariant forall id :: id in readers ==>
          readers[id].shard == idToShard[id] && (readers[id].RawCachedReaderRef? <==> idToShard[id].isRaw)
        invariant all <==> forall id :: id in requested[..i] ==> !idToShard[id].isRaw
      {
        var request := requested[i];
        if request !in idToShard {
          return Failure(NoSuchShard(request, dataset));
        }
        var shard := idToShard[request];
        var reader: ReaderRef;
        if shard.isRaw {
          reader := RawCachedReaderRef(shard);
          all := false;
        } else {
          reader := CachedReaderRef(shard);
        }
        readers := readers[request := reader];
        assert requested[..i + 1] == requested[..i] + [request];
        i := i + 1;
      }
      assert requested[..i] == requested;
      r := Success(FlamdexReaderMap(readers, all));
    }

    /**
     * track: enter for (dataset, dir.id) the shard that Decide picks,
     * comparing the directory with the reference map's copy and this map's
     * copy. Returns whether the directory was loaded. A failed load enters
     * nothing.
     */
    method Track(reference: ShardMap, dataset: string, dir: ShardDir, loadFails: bool) returns (loaded: bool)
      requires Valid() && reference.Valid()
      modifies this
      ensures Valid()
      ensures
        var d := Decide(Lookup(old(reference.table), dataset, dir.id), Lookup(old(table), dataset, dir.id), dir, loadFails);
        && loaded == d.Load?
        && table == (if d.LoadFailed? then old(table) else Put(old(table), dataset, d.shard))
        && (!d.LoadFailed? ==> Lookup(table, dataset, dir.id) == Some(d.shard))
    {
      var referenceShard := reference.GetShard(dataset, dir.id);
      var currentShard := GetShard(dataset, dir.id);
      if DirIsNewerThan(dir, referenceShard) && DirIsNewerThan(dir, currentShard) {
        if loadFails {
          return false;
        }
        PutShard(dataset, Shard(dir.id, dir.version, dir.isRaw));
        return true;
      } else if currentShard.Some? && ShardIsNewerThan(currentShard.value, referenceShard) {
        PutShard(dataset, currentShard.value);
        LookupAfterPut(old(table), dataset, currentShard.value, dataset, dir.id);
      } else {
        PutShard(dataset, referenceShard.value);
        LookupAfterPut(old(table), dataset, referenceShard.value, dataset, dir.id);
      }
      return false;
    }

    /** saveTo: record every entry the store lacks; existing records are left alone. */
    method SaveTo(store: ShardStore, putFails: set<StoreKey>)
      modifies store
      ensures store.entries == Saved(table, old(store.entries), putFails)
    {
      var todo := Elements(table);
      while todo != {}
        invariant todo <= Elements(table)
        invariant store.entries == Saved(table, old(store.entries), putFails + KeysOfElements(todo))
        decreases todo
      {
        var e :| e in todo;
        var (dataset, shardId, shard) := e;
        var key := StoreKey(dataset, shardId);
        var present := store.ContainsKey(key);
        SaveStep(table, old(store.entries), putFails, KeysOfElements(todo), key, shard);
        if !present {
          store.Put(key, ValueOf(shard), key in putFails);
        }
        RemoveElement(table, todo, e);
        todo := todo - {e};
      }
    }

    /** prune: delete every store record whose (dataset, shard id) has no shard in the map. */
    method Prune(store: ShardStore, deleteFails: set<StoreKey>)
      modifies store
      ensures store.entries == Pruned(table, old(store.entries), deleteFails)
    {
      var todo := store.entries.Keys;
      while todo != {}
        invariant todo <= old(store.entries).Keys
        invariant store.entries == Pruned(table, old(store.entries), deleteFails + todo)
        decreases todo
      {
        var key :| key in todo;
        var shard := GetShard(key.dataset, key.shardId);
        if shard.None? {
          store.Delete(key, key in deleteFails);
        }
        todo := todo - {key};
      }
    }

    /** sync, without the store's own flush: saveTo, then prune. */
    method Sync(store: ShardStore, putFails: set<StoreKey>, deleteFails: set<StoreKey>)
      modifies store
      ensures store.entries == Pruned(table, Saved(table, old(store.entries), putFails), deleteFails)
    {
      SaveTo(store, putFails);
      Prune(store, deleteFails);
    }
  }
}
