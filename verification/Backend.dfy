/**
 * The cache storage backend: documents of value and metadata in the index, and an eviction
 * cache that bounds how many of them there are.
 */
module Backend {
  import opened Base
  import opened WalCodec
  import opened Files
  import opened Store
  import opened Wal
  import opened Manager
  import opened Allocation
  import opened Index
  import Lfu
  import Payload

  datatype Code =
    | Done | Miss | AlreadyExists | TooLarge | StorageFull | StorageError | BadArgument | Corrupted | Unavailable

  function ToCode(s: Status): (c: Code)
    ensures (c == Done <==> s == Ok) && (c == Miss <==> s == NotFound) && (c == BadArgument <==> s == InvalidArgument)
    ensures (c == StorageFull <==> s == Status.Full || s == NoSpace) && (c == StorageError <==> s == IOError)
    ensures c == Corrupted <==> s == Corruption
  {
    match s
    case Ok => Done
    case NotFound => Miss
    case Full => StorageFull
    case NoSpace => StorageFull
    case IOError => StorageError
    case InvalidArgument => BadArgument
    case Corruption => Corrupted
  }

  datatype Answer = Answer(code: Code, value: Bytes, meta: Bytes)

  datatype Request =
    | PutRequest(key: Bytes, value: Bytes, meta: Bytes, overwrite: bool, now: int)
    | GetRequest(key: Bytes, now: int)
    | DeleteRequest(key: Bytes)

  type Document = (Bytes, Bytes)

  /** The documents a map of payloads stands for. */
  ghost function Documents(v: map<Key, Value>): map<Key, Document> {
    map k | k in v && Payload.Decode(v[k]).Some? :: Payload.Decode(v[k]).value
  }

  ghost predicate AllDecode(v: map<Key, Value>) {
    forall k :: k in v ==> Payload.Decode(v[k]).Some?
  }

  lemma DocumentStored(v: map<Key, Value>, key: Key, value: Bytes, meta: Bytes, size: nat)
    requires AllDecode(v) && Payload.Fits(value, meta, size)
    ensures var v' := v[key := Payload.Encode(value, meta, size)];
            AllDecode(v') && Documents(v') == Documents(v)[key := (value, meta)]
  {
    hide Payload.Decode, Payload.Encode;
    Payload.DecodeEncode(value, meta, size);
    var v' := v[key := Payload.Encode(value, meta, size)];
    var a, b := Documents(v'), Documents(v)[key := (value, meta)];
    assert a.Keys == b.Keys;
    assert forall k :: k in a ==> a[k] == b[k];
  }

  lemma DocumentDropped(v: map<Key, Value>, key: Key)
    requires AllDecode(v)
    ensures AllDecode(v - {key}) && Documents(v - {key}) == Documents(v) - {key}
  {
    hide Payload.Decode;
  }

  ghost predicate AllSized(keys: set<Key>, n: nat) {
    forall k :: k in keys ==> |k| == n
  }

  /** What a backend holds: the documents, the keys in its cache with their orders, and its segments. */
  datatype Held =
    Held(docs: map<Key, Document>, cached: Lfu.Residents<Key, bool>, classes: Classes, mems: Mems)

  /** Storage has no room for one more document, or two filled segments come first. */
  ghost predicate Tight(c: Classes, mems: Mems) {
    !SomeRoom(c, mems) || TwoFilled(c, mems)
  }

  /** Full storage has its reason in the segments, and with one appending segment it is a lack of room. */
  ghost predicate FullOnlyWhen(c: Classes, mems: Mems, code: Code) {
    (code == StorageFull ==> Tight(c, mems)) &&
    (OneAppending(c, mems) ==> (code == StorageFull ==> NoRoom(c, mems)) && (code == Done ==> !NoRoom(c, mems)))
  }

  class Backend {
    const ix: Index
    const cache: Lfu.Cache<Key, bool>

    constructor (ix: Index, cache: Lfu.Cache<Key, bool>)
      ensures this.ix == ix && this.cache == cache
    {
      this.ix, this.cache := ix, cache;
    }

    ghost predicate Valid()
      reads this, ix, ix.mgr, ix.mgr.segments.Values, ix.wal, ix.disk, cache
    {
      ix.Valid() && cache.Valid() && AllDecode(ix.ViewNow()) &&
      Payload.HEADER < ix.valueSize < TWO_32 &&
      AllSized(cache.Contents().Keys, ix.disk.files.keySize)
    }

    ghost function Stored(): map<Key, Document>
      reads this, ix, ix.disk
    {
      Documents(ix.ViewNow())
    }

    /** Cache and index hold the same keys. */
    ghost predicate Same()
      requires Valid()
      reads this, ix, ix.mgr, ix.mgr.segments.Values, ix.wal, ix.disk, cache
    {
      cache.Contents().Keys == ix.table.Keys
    }

    ghost function HeldNow(): Held
      requires Valid()
      reads this, ix, ix.mgr, ix.mgr.segments.Values, ix.wal, ix.disk, cache
    {
      Held(Stored(), cache.Now(), ix.mgr.Classification(), ix.mgr.MemsNow())
    }

    /**
     * What one request does.  The documents, the cache and the segments before it determine
     * that, up to the requests to storage that failed on the way, of which `trouble` tells.
     * Only an eviction takes a document the request did not name: exactly when a new key meets
     * a full cache, a least used one.
     */
    ghost predicate Served(b: Held, req: Request, r: Answer, trouble: bool, a: Held, keySize: nat)
      requires 0.0 <= cache.ratio <= 1.0
    {
      (r.code in {StorageError, Corrupted} ==> trouble) &&
      (OneAppending(b.classes, b.mems) ==> OneAppending(a.classes, a.mems)) &&
      match req
      case PutRequest(key, value, meta, overwrite, now) =>
        PutCode(b.docs, key, |value| + |meta|, overwrite, r.code, keySize) &&
        FullOnlyWhen(b.classes, b.mems, r.code) &&
        (if r.code != Done then a.docs == b.docs && a.cached == b.cached
         else exists victim, failed ::
             Admits(b, key, (value, meta), now, victim, failed, a) && (failed ==> trouble))
      case GetRequest(key, now) =>
        a.docs == b.docs && (r.code == BadArgument <==> |key| != keySize) &&
        (r.code == Miss <==> |key| == keySize && key !in b.docs) &&
        (r.code == Done ==> key in b.docs && (r.value, r.meta) == b.docs[key]) &&
        r.code in {Done, BadArgument, Miss, StorageError, Corrupted} &&
        a.cached == if r.code == Done && key in b.cached.contents then Lfu.Accessed(b.cached, key, now) else b.cached
      case DeleteRequest(key) =>
        (r.code == BadArgument <==> |key| != keySize) &&
        (r.code == Miss <==> |key| == keySize && key !in b.docs) &&
        r.code in {Done, BadArgument, Miss, StorageError} &&
        a.docs == (if r.code == Done then b.docs - {key} else b.docs) &&
        a.cached == if r.code == Done && key in b.cached.contents then Lfu.Left(b.cached, key) else b.cached
    }

    /** The answers a put may get; only storage trouble leaves a choice. */
    ghost predicate PutCode(docs: map<Key, Document>, key: Bytes, size: nat, overwrite: bool, c: Code, keySize: nat) {
      (c == BadArgument <==> |key| != keySize) && (c == AlreadyExists ==> !overwrite && key in docs) &&
      (|key| == keySize && !overwrite && key in docs ==> c in {AlreadyExists, StorageError, Corrupted}) &&
      (|key| == keySize && (overwrite || key !in docs) ==>
         (c == TooLarge <==> size > ix.valueSize - Payload.HEADER) && c in {Done, TooLarge, StorageFull, StorageError})
    }

    /** A document that fits is stored when there is room and storage causes no trouble. */
    lemma FittingPutIsDone(b: Held, req: Request, r: Answer, a: Held, keySize: nat)
      requires 0.0 <= cache.ratio <= 1.0 && Served(b, req, r, false, a, keySize)
      requires req.PutRequest? && |req.key| == keySize && (req.overwrite || req.key !in b.docs)
      requires |req.value| + |req.meta| <= ix.valueSize - Payload.HEADER
      ensures !Tight(b.classes, b.mems) ==> r.code == Done
      ensures OneAppending(b.classes, b.mems) ==> (r.code == Done <==> !NoRoom(b.classes, b.mems))
      ensures r.code == Done && (req.key in b.cached.contents || |b.cached.contents| < cache.capacity) ==>
                a.docs == b.docs[req.key := (req.value, req.meta)]
    {
      hide Tight, NoRoom, OneAppending, Lfu.Admitted;
      if r.code == Done {
        var victim, failed :| Admits(b, req.key, (req.value, req.meta), req.now, victim, failed, a);
        assert b.docs[req.key := (req.value, req.meta)] - {} == b.docs[req.key := (req.value, req.meta)];
      }
    }

    /** A finished put: the document is stored, its key is admitted, and the victim leaves unless storage fails. */
    ghost predicate Admits(b: Held, key: Key, d: Document, now: int, victim: Option<Key>, failed: bool, a: Held)
      requires 0.0 <= cache.ratio <= 1.0
    {
      a.docs == b.docs[key := d] - Gone(victim, failed) && (failed ==> victim.Some?) &&
      (victim.Some? <==> key !in b.cached.contents && |b.cached.contents| == cache.capacity) &&
      (victim.Some? ==> victim.value in b.cached.contents && victim.value != key) &&
      Lfu.Admitted(b.cached, cache.tick, cache.ratio, now, key, true, victim, a.cached)
    }

    lemma SameIsBounded()
      requires Valid() && Same()
      ensures |ix.table| <= cache.capacity
    {
      cache.SizeIsUsed();
      assert |ix.table| == |ix.table.Keys| && |cache.Contents()| == |cache.Contents().Keys|;
    }

    /** Writes the index entry alone. */
    method PutDocument(key: Key, value: Bytes, meta: Bytes) returns (c: Code)
      requires Valid() && |key| == ix.disk.files.keySize
      modifies ix`table, ix.mgr, ix.mgr.segments.Values, ix.wal, ix.disk
      ensures Valid() && ix.disk.files.keySize == old(ix.disk.files).keySize && ix.mgr.segments == old(ix.mgr.segments)
      ensures c == TooLarge <==> |value| + |meta| > ix.valueSize - Payload.HEADER
      ensures c == Done ==>
                Stored() == old(Stored())[key := (value, meta)] && ix.table.Keys == old(ix.table).Keys + {key}
      ensures c != Done ==> Stored() == old(Stored()) && ix.table == old(ix.table)
      ensures c == Done || c == TooLarge || c == StorageFull || c == StorageError
      ensures FullOnlyWhen(old(ix.mgr.Classification()), old(ix.mgr.MemsNow()), c)
      ensures old(OneAppending(ix.mgr.Classification(), ix.mgr.MemsNow())) ==>
                OneAppending(ix.mgr.Classification(), ix.mgr.MemsNow())
      ensures old(ix.disk.faulted) || c == StorageError ==> ix.disk.faulted
    {
      hide Index.Valid, Index.Synced, Index.Triggers, View, Payload.Encode, AllDecode, AllSized, Documents, AllAtomic,
           ConservedBut, OneAppending, NoRoom, SomeRoom, TwoFilled, SegmentManager.MemsNow, Lfu.Cache.Valid,
           Lfu.Cache.Contents, Lfu.Cache.Now, Lfu.Admitted;
      var payload := new Byte[ix.valueSize];
      var fits := Payload.EncodeInto(value, meta, payload);
      if !fits {
        return TooLarge;
      }
      DocumentStored(ix.ViewNow(), key, value, meta, ix.valueSize);
      ViewKeys(ix.table, ix.disk.files);
      var s := ix.Put(key, payload[..]);
      ViewKeys(ix.table, ix.disk.files);
      c := ToCode(s);
    }

    /** The eviction callback: the key leaves the index too, unless storage fails. */
    method OnEvict(key: Key) returns (s: Status)
      requires Valid() && |key| == ix.disk.files.keySize
      modifies ix`table, ix.mgr.segments.Values, ix.wal, ix.disk
      ensures Valid() && ix.disk.files.keySize == old(ix.disk.files).keySize
      ensures s == Ok || s == NotFound || s == IOError
      ensures s == NotFound <==> key !in old(ix.table)
      ensures s == NotFound ==> Stored() == old(Stored())
      ensures s != IOError ==> Stored() == old(Stored()) - {key} && ix.table.Keys == old(ix.table).Keys - {key}
      ensures s == IOError ==> Stored() == old(Stored()) && ix.table == old(ix.table)
      ensures OneAppending(ix.mgr.Classification(), old(ix.mgr.MemsNow())) ==>
                OneAppending(ix.mgr.Classification(), ix.mgr.MemsNow())
      ensures old(ix.disk.faulted) || s == IOError ==> ix.disk.faulted
    {
      hide Index.Valid, Index.Synced, View, Payload.Decode, AllDecode, Documents, OneAppending,
           SegmentManager.MemsNow, Lfu.Cache.Valid, Lfu.Cache.Contents, Lfu.Cache.Now, Lfu.Admitted;
      DocumentDropped(ix.ViewNow(), key);
      ViewKeys(ix.table, ix.disk.files);
      s := ix.Delete(key);
      ViewKeys(ix.table, ix.disk.files);
      assert s == NotFound ==> ix.ViewNow() - {key} == ix.ViewNow();
      assert s == NotFound ==> ix.table.Keys - {key} == ix.table.Keys;
    }

    /** Enters a key into the cache alone. */
    method Touch(key: Key, now: int, a: Lfu.Allow) returns (evicted: Option<Key>)
      requires Valid() && |key| == ix.disk.files.keySize
      requires Lfu.InsertAllowed(a) && (key in cache.Contents() ==> Lfu.UpdateAllowed(a))
      modifies cache
      ensures Valid()
      ensures evicted.Some? <==> key !in old(cache.Contents()) && |old(cache.Contents())| == cache.capacity
      ensures evicted.Some? ==>
                evicted.value in old(cache.Contents()) && evicted.value != key &&
                |evicted.value| == ix.disk.files.keySize
      ensures cache.Contents().Keys == old(cache.Contents()).Keys + {key} - Gone(evicted, false)
      ensures Lfu.Admitted(old(cache.Now()), cache.tick, cache.ratio, now, key, true, evicted, cache.Now())
    {
      hide Index.Valid, Index.ViewNow, View, AllDecode, AllSized, Lfu.Evicts, Lfu.Cache.Valid, Lfu.Cache.Contents,
           Lfu.Cache.Now, Lfu.Admitted;
      ghost var before := cache.Contents().Keys;
      var ok, out := cache.Insert(key, true, now, a);
      evicted := if out.Some? then Some(out.value.0) else None;
      StillSized(before, key, evicted, ix.disk.files.keySize);
    }

    /** Enters a key into the cache; a key that has to go for it leaves the index as well. */
    method Admit(key: Key, now: int) returns (ghost victim: Option<Key>, ghost failed: bool)
      requires Valid() && |key| == ix.disk.files.keySize
      modifies ix`table, ix.mgr.segments.Values, ix.wal, ix.disk, cache
      ensures Valid() && ix.disk.files.keySize == old(ix.disk.files).keySize
      // Nothing is evicted while there is room or the key was resident.
      ensures victim.Some? <==> key !in old(cache.Contents()) && |old(cache.Contents())| == cache.capacity
      ensures victim.Some? ==> victim.value in old(cache.Contents()) && victim.value != key
      ensures Stored() == old(Stored()) - Gone(victim, failed) &&
              ix.table.Keys == old(ix.table).Keys - Gone(victim, failed)
      ensures cache.Contents().Keys == old(cache.Contents()).Keys + {key} - Gone(victim, false)
      ensures Lfu.Admitted(old(cache.Now()), cache.tick, cache.ratio, now, key, true, victim, cache.Now())
      ensures failed ==> victim.Some?
      ensures OneAppending(ix.mgr.Classification(), old(ix.mgr.MemsNow())) ==>
                OneAppending(ix.mgr.Classification(), ix.mgr.MemsNow())
      ensures old(ix.disk.faulted) || failed ==> ix.disk.faulted
    {
      hide Index.Valid, Index.ViewNow, View, AllDecode, AllSized, Documents, OneAppending, SegmentManager.MemsNow,
           Lfu.Cache.Valid, Lfu.Cache.Contents, Lfu.Cache.Now, Lfu.Admitted;
      var evicted := Touch(key, now, Lfu.InsertOrUpdate);
      victim, failed := evicted, false;
      if evicted.Some? {
        var s := OnEvict(evicted.value);
        failed := s == IOError;
      }
      if evicted.None? || failed {
        assert Stored() - {} == Stored();
        assert ix.table.Keys - {} == ix.table.Keys;
      }
    }

    /** Writes the entry and admits its key to the cache. */
    method StoreDocument(key: Key, value: Bytes, meta: Bytes, now: int)
        returns (c: Code, ghost victim: Option<Key>, ghost failed: bool)
      requires Valid() && |key| == ix.disk.files.keySize
      modifies ix`table, ix.mgr, ix.mgr.segments.Values, ix.wal, ix.disk, cache
      ensures Valid() && ix.disk.files.keySize == old(ix.disk.files).keySize && ix.mgr.segments == old(ix.mgr.segments)
      ensures c == TooLarge <==> |value| + |meta| > ix.valueSize - Payload.HEADER
      ensures c == Done || c == TooLarge || c == StorageFull || c == StorageError
      ensures c == Done ==> Stored() == old(Stored())[key := (value, meta)] - Gone(victim, failed)
      ensures c == Done ==>
                (victim.Some? <==> key !in old(cache.Contents()) && |old(cache.Contents())| == cache.capacity)
      ensures victim.Some? ==> victim.value in old(cache.Contents()) && victim.value != key
      ensures c == Done ==>
                Lfu.Admitted(old(cache.Now()), cache.tick, cache.ratio, now, key, true, victim, cache.Now())
      ensures c != Done ==> cache.Now() == old(cache.Now())
      ensures c != Done ==> Stored() == old(Stored()) && victim.None? && !failed
      ensures failed ==> victim.Some?
      ensures FullOnlyWhen(old(ix.mgr.Classification()), old(ix.mgr.MemsNow()), c)
      ensures old(OneAppending(ix.mgr.Classification(), ix.mgr.MemsNow())) ==>
                OneAppending(ix.mgr.Classification(), ix.mgr.MemsNow())
      ensures old(Same()) ==> (Same() <==> !failed)
      ensures old(ix.disk.faulted) || failed || c == StorageError ==> ix.disk.faulted
    {
      hide Index.Valid, Index.ViewNow, View, AllDecode, Documents, OneAppending, FullOnlyWhen, SegmentManager.MemsNow,
           Lfu.Cache.Valid, Lfu.Cache.Contents, Lfu.Cache.Now, Lfu.Admitted;
      victim, failed := None, false;
      ghost var keys, resident := ix.table.Keys, cache.Contents().Keys;
      c := PutDocument(key, value, meta);
      if c != Done {
        return;
      }
      victim, failed := Admit(key, now);
      AdmittedKeys(keys, resident, key, victim, failed);
    }

    method Put(key: Bytes, value: Bytes, meta: Bytes, overwrite: bool, now: int)
        returns (c: Code, ghost victim: Option<Key>, ghost failed: bool)
      requires Valid()
      modifies ix`table, ix.mgr, ix.mgr.segments.Values, ix.wal, ix.disk, cache
      ensures Valid() && ix.disk.files.keySize == old(ix.disk.files).keySize && ix.mgr.segments == old(ix.mgr.segments)
      ensures PutCode(old(Stored()), key, |value| + |meta|, overwrite, c, ix.disk.files.keySize)
      ensures failed ==> victim.Some?
      ensures c == Done ==> Stored() == old(Stored())[key := (value, meta)] - Gone(victim, failed)
      ensures c == Done ==>
                (victim.Some? <==> key !in old(cache.Contents()) && |old(cache.Contents())| == cache.capacity)
      ensures victim.Some? ==> victim.value in old(cache.Contents()) && victim.value != key
      ensures c == Done ==>
                Lfu.Admitted(old(cache.Now()), cache.tick, cache.ratio, now, key, true, victim, cache.Now())
      ensures c != Done ==> cache.Now() == old(cache.Now())
      ensures c != Done ==> Stored() == old(Stored()) && victim.None? && !failed
      // Cache and index drift apart exactly when an eviction could not be carried out.
      ensures FullOnlyWhen(old(ix.mgr.Classification()), old(ix.mgr.MemsNow()), c)
      ensures old(OneAppending(ix.mgr.Classification(), ix.mgr.MemsNow())) ==>
                OneAppending(ix.mgr.Classification(), ix.mgr.MemsNow())
      ensures old(Same()) ==> (Same() <==> !failed)
      ensures old(ix.disk.faulted) || failed || c == StorageError || c == Corrupted ==> ix.disk.faulted
    {
      hide Index.Valid, View, AllDecode, Documents, OneAppending, NoRoom, Tight, SegmentManager.MemsNow,
           Lfu.Cache.Valid, Lfu.Cache.Contents, Lfu.Cache.Now, Lfu.Admitted;
      StoredKeys();
      victim, failed := None, false;
      if |key| != ix.disk.files.keySize {
        return BadArgument, None, false;
      }
      if !overwrite {
        var s, probe := ix.Get(key, ix.valueSize);
        if s == Ok {
          return AlreadyExists, None, false;
        }
        if s != NotFound {
          return ToCode(s), None, false;
        }
      }
      c, victim, failed := StoreDocument(key, value, meta, now);
    }

    method Get(key: Bytes, now: int) returns (c: Code, value: Bytes, meta: Bytes)
      requires Valid()
      modifies ix.disk`faulted, cache
      ensures Valid() && cache.Contents().Keys == old(cache.Contents()).Keys && Stored() == old(Stored())
      ensures c == BadArgument <==> |key| != ix.disk.files.keySize
      ensures c == Miss <==> |key| == ix.disk.files.keySize && key !in Stored()
      ensures c == Done || c == BadArgument || c == Miss || c == StorageError || c == Corrupted
      ensures c == Done ==> (value, meta) == Stored()[key]
      ensures cache.Now() ==
                if c == Done && key in old(cache.Contents()) then Lfu.Accessed(old(cache.Now()), key, now)
                else old(cache.Now())
      ensures ix.mgr.MemsNow() == old(ix.mgr.MemsNow()) && ix.mgr.Classification() == old(ix.mgr.Classification())
      ensures old(ix.disk.faulted) || c == StorageError || c == Corrupted ==> ix.disk.faulted
      ensures old(Same()) ==> Same()
    {
      hide Index.Valid, View, Payload.Decode, Lfu.Cache.Valid, Lfu.Cache.Contents, Lfu.Cache.Now, Lfu.Promoted,
           Lfu.Reranked, AllSized, SegmentManager.MemsNow;
      CachedNow();
      value, meta := [], [];
      if |key| != ix.disk.files.keySize {
        return BadArgument, [], [];
      }
      ViewKeys(ix.table, ix.disk.files);
      var s, payload := ix.Get(key, ix.valueSize);
      if s != Ok {
        return ToCode(s), [], [];
      }
      var d := Payload.Decode(payload);
      if d.None? {
        return Corrupted, [], [];
      }
      value, meta := d.value.0, d.value.1;
      var _ := cache.Find(key, false, now);
      CachedNow();
      assert cache.Contents().Keys == old(cache.Contents()).Keys;
      c := Done;
    }

    method Delete(key: Bytes) returns (c: Code)
      requires Valid()
      modifies ix`table, ix.mgr.segments.Values, ix.wal, ix.disk, cache
      ensures Valid() && ix.disk.files.keySize == old(ix.disk.files).keySize
      ensures c == BadArgument <==> |key| != ix.disk.files.keySize
      ensures c == Miss <==> |key| == ix.disk.files.keySize && key !in old(ix.table)
      ensures c == Done || c == BadArgument || c == Miss || c == StorageError
      ensures c == Done ==> Stored() == old(Stored()) - {key}
      ensures cache.Now() ==
                if c == Done && key in old(cache.Contents()) then Lfu.Left(old(cache.Now()), key) else old(cache.Now())
      ensures OneAppending(ix.mgr.Classification(), old(ix.mgr.MemsNow())) ==>
                OneAppending(ix.mgr.Classification(), ix.mgr.MemsNow())
      ensures c != Done ==> Stored() == old(Stored())
      ensures old(Same()) ==> Same()
      ensures old(ix.disk.faulted) || c == StorageError ==> ix.disk.faulted
    {
      hide Index.Valid, View, AllDecode, Documents, Lfu.Cache.Valid, Lfu.Cache.Contents, Lfu.Cache.Now, Lfu.Dropped,
           AllSized, OneAppending, SegmentManager.MemsNow;
      CachedNow();
      ghost var keys := cache.Contents().Keys;
      if |key| != ix.disk.files.keySize {
        return BadArgument;
      }
      var s := OnEvict(key);
      if s != Ok {
        return ToCode(s);
      }
      var _ := cache.Erase(key);
      CachedNow();
      FewerSized(keys, cache.Contents().Keys, ix.disk.files.keySize);
      c := Done;
    }

    /** Fills a fresh cache with the keys a restart recovered, when they fit; each counts one use. */
    method Rebuild(now: int)
      requires Valid() && cache.Contents() == map[] && |ix.table| <= cache.capacity
      modifies cache
      ensures Valid() && Same() && cache.Contents() == UsedOnce(ix.table.Keys, now)
    {
      hide Index.Valid, Index.ViewNow, View, AllDecode, Lfu.Cache.Valid, Lfu.Cache.Contents, Lfu.Cache.Now,
           Lfu.Admitted, AllSized, UsedOnce;
      ghost var keys := ix.table.Keys;
      TableIsSized(keys);
      var todo := ix.table.Keys;
      while todo != {}
        invariant Valid() && todo <= keys && cache.Contents() == UsedOnce(keys - todo, now)
        decreases todo
      {
        var key :| key in todo;
        RoomFor(cache.Contents().Keys, keys, todo, key, ix.disk.files.keySize);
        Reenter(key, now);
        todo := todo - {key};
      }
    }

    method Reenter(key: Key, now: int)
      requires Valid() && |key| == ix.disk.files.keySize && key !in cache.Contents()
      requires |cache.Contents()| < cache.capacity && cache.Contents() == UsedOnce(cache.Contents().Keys, now)
      modifies cache
      ensures Valid() && cache.Contents() == UsedOnce(old(cache.Contents()).Keys + {key}, now)
    {
      hide Index.Valid, Index.ViewNow, View, AllDecode, Lfu.Cache.Valid, Lfu.Cache.Contents, Lfu.Cache.Now,
           Lfu.Admitted, AllSized, UsedOnce;
      RatioIsFraction();
      CachedNow();
      ghost var b := cache.Now();
      var _ := Touch(key, now, Lfu.Insert);
      CachedNow();
      FreshlyUsed(b, cache.tick, cache.ratio, now, key, cache.Now());
    }

    lemma TableIsSized(keys: set<Key>)
      requires Valid() && keys == ix.table.Keys
      ensures AllSized(keys, ix.disk.files.keySize)
    {
      hide View, AllDecode, Lfu.Cache.Valid, Lfu.Cache.Contents, SegmentManager.Valid, SegmentManager.MemsNow, LogClean;
    }

    /**
     * A run of requests, each at its own time.  `states` are what is held before each request
     * and at the end.
     */
    method Serve(reqs: seq<Request>)
        returns (answers: seq<Answer>, ghost states: seq<Held>, ghost troubles: seq<bool>)
      requires Valid()
      modifies ix`table, ix.mgr, ix.mgr.segments.Values, ix.wal, ix.disk, cache
      ensures Valid() && |answers| == |troubles| == |reqs| && |states| == |reqs| + 1
      ensures states[0] == old(HeldNow()) && states[|reqs|] == HeldNow() && 0.0 <= cache.ratio <= 1.0
      ensures forall i :: 0 <= i < |reqs| ==>
                Served(states[i], reqs[i], answers[i], troubles[i], states[i + 1], ix.disk.files.keySize)
      ensures ix.disk.faulted <==> old(ix.disk.faulted) || exists i :: 0 <= i < |reqs| && troubles[i]
      ensures old(Same()) && (forall i :: 0 <= i < |reqs| ==> !troubles[i]) ==> Same() && |ix.table| <= cache.capacity
    {
      hide Index.Valid, Index.ViewNow, View, AllDecode, AllSized, Documents, Lfu.Cache.Valid, Lfu.Cache.Contents,
           Lfu.Cache.Now, Lfu.Admitted, Served;
      RatioIsFraction();
      answers, states, troubles := [], [HeldNow()], [];
      var n := 0;
      while n < |reqs|
        invariant 0 <= n <= |reqs| && |answers| == |troubles| == n && |states| == n + 1
        invariant Valid() && ix.mgr.segments == old(ix.mgr.segments)
        invariant ix.disk.files.keySize == old(ix.disk.files).keySize
        invariant states[0] == old(HeldNow()) && states[n] == HeldNow()
        invariant forall i :: 0 <= i < n ==>
                    Served(states[i], reqs[i], answers[i], troubles[i], states[i + 1], ix.disk.files.keySize)
        invariant ix.disk.faulted <==> old(ix.disk.faulted) || exists i :: 0 <= i < n && troubles[i]
        invariant old(Same()) && (forall i :: 0 <= i < n ==> !troubles[i]) ==> Same()
      {
        ghost var trouble, before := false, troubles;
        var answer;
        answer, trouble := Respond(reqs[n]);
        answers, states, troubles := answers + [answer], states + [HeldNow()], troubles + [trouble];
        assert forall i :: 0 <= i < n ==> troubles[i] == before[i];
        assert troubles[n] == trouble;
        n := n + 1;
      }
      if Same() {
        SameIsBounded();
      }
    }

    /** One request; what failed in it adds to what had failed before. */
    method Respond(req: Request) returns (r: Answer, ghost trouble: bool)
      requires Valid()
      modifies ix`table, ix.mgr, ix.mgr.segments.Values, ix.wal, ix.disk, cache
      ensures Valid() && ix.mgr.segments == old(ix.mgr.segments)
      ensures ix.disk.files.keySize == old(ix.disk.files).keySize
      ensures 0.0 <= cache.ratio <= 1.0 && Served(old(HeldNow()), req, r, trouble, HeldNow(), ix.disk.files.keySize)
      ensures ix.disk.faulted == (old(ix.disk.faulted) || trouble)
      ensures old(Same()) && !trouble ==> Same()
    {
      hide Index.Valid, Index.ViewNow, View, AllDecode, AllSized, Lfu.Cache.Valid, Lfu.Cache.Contents,
           Lfu.Cache.Now, Lfu.Admitted, Documents, Served;
      ghost var b := HeldNow();
      SetFaulted(false);
      r := Handle(req);
      trouble := ix.disk.faulted;
      SetFaulted(old(ix.disk.faulted) || trouble);
    }

    ghost method SetFaulted(faulted: bool)
      requires Valid()
      modifies ix.disk`faulted
      ensures Valid() && ix.disk.faulted == faulted && HeldNow() == old(HeldNow()) && Same() == old(Same())
    {
      hide AllDecode, AllSized, View, Inv, LogClean, SegmentManager.Valid, SegmentManager.MemsNow, Documents,
           Lfu.Cache.Valid, Lfu.Cache.Contents, Lfu.Cache.Now;
      ix.disk.faulted := faulted;
    }

    /** One request, from a state in which nothing has failed yet. */
    method Handle(req: Request) returns (r: Answer)
      requires Valid() && !ix.disk.faulted
      modifies ix`table, ix.mgr, ix.mgr.segments.Values, ix.wal, ix.disk, cache
      ensures Valid() && ix.mgr.segments == old(ix.mgr.segments)
      ensures ix.disk.files.keySize == old(ix.disk.files).keySize
      ensures 0.0 <= cache.ratio <= 1.0
      ensures Served(old(HeldNow()), req, r, ix.disk.faulted, HeldNow(), ix.disk.files.keySize)
      ensures old(Same()) && !ix.disk.faulted ==> Same()
    {
      hide Index.Valid, Index.ViewNow, View, AllDecode, AllSized, Lfu.Cache.Valid, Lfu.Cache.Contents,
           Lfu.Cache.Now, Lfu.Admitted, Documents, PutCode, FullOnlyWhen, OneAppending, SegmentManager.MemsNow,
           Lfu.Accessed, Lfu.Left;
      StoredKeys();
      RatioIsFraction();
      CachedNow();
      ghost var b := HeldNow();
      match req {
        case PutRequest(key, value, meta, overwrite, now) =>
          var c, victim, failed := Put(key, value, meta, overwrite, now);
          r := Answer(c, [], []);
          assert c == Done ==> Admits(b, key, (value, meta), now, victim, failed, HeldNow());
        case GetRequest(key, now) =>
          var c, value, meta := Get(key, now);
          r := Answer(c, value, meta);
        case DeleteRequest(key) =>
          var c := Delete(key);
          r := Answer(c, [], []);
      }
    }

    lemma CachedNow()
      requires cache.Valid()
      ensures cache.Now().contents == cache.Contents()
    {
      hide Lfu.Cache.Contents, Lfu.Cache.Valid;
    }

    lemma RatioIsFraction()
      requires Valid()
      ensures 0.0 <= cache.ratio <= 1.0
    {
      hide Index.Valid, AllDecode, AllSized;
    }

    lemma StoredKeys()
      requires Valid()
      ensures Stored().Keys == ix.table.Keys
    {
      hide Index.Valid, View, Payload.Decode, Lfu.Cache.Valid, Lfu.Cache.Contents, AllSized;
      ViewKeys(ix.table, ix.disk.files);
    }
  }

  ghost function UsedOnce(keys: set<Key>, now: int): (m: map<Key, Lfu.Element<Key, bool>>)
    ensures m.Keys == keys && (keys == {} ==> m == map[])
  {
    map k | k in keys :: Lfu.Element(k, 1, now, true)
  }

  lemma FreshlyUsed(b: Lfu.Residents<Key, bool>, tick: nat, ratio: real, now: int, key: Key,
                    a: Lfu.Residents<Key, bool>)
    requires 0.0 <= ratio <= 1.0 && key !in b.contents && b.contents == UsedOnce(b.contents.Keys, now)
    requires Lfu.Admitted(b, tick, ratio, now, key, true, None, a)
    ensures a.contents == UsedOnce(b.contents.Keys + {key}, now)
  {
    hide Lfu.Placed;
  }

  /** The keys an eviction takes out of the index. */
  ghost function Gone(victim: Option<Key>, failed: bool): set<Key> {
    if victim.Some? && !failed then {victim.value} else {}
  }

  lemma StillSized(keys: set<Key>, key: Key, victim: Option<Key>, n: nat)
    requires AllSized(keys, n) && |key| == n && (victim.Some? ==> victim.value in keys)
    ensures AllSized(keys + {key} - Gone(victim, false), n) && (victim.Some? ==> |victim.value| == n)
  {
  }

  lemma FewerSized(keys: set<Key>, fewer: set<Key>, n: nat)
    requires AllSized(keys, n) && fewer <= keys
    ensures AllSized(fewer, n)
  {
  }

  lemma RoomFor(resident: set<Key>, keys: set<Key>, todo: set<Key>, key: Key, n: nat)
    requires todo <= keys && resident == keys - todo && key in todo && AllSized(keys, n)
    ensures key !in resident && |resident| < |keys| && |key| == n
    ensures resident + {key} == keys - (todo - {key})
  {
    assert keys == resident + todo && resident !! todo;
    assert |todo| == |todo - {key}| + 1;
  }

  lemma AdmittedKeys(keys: set<Key>, resident: set<Key>, key: Key, victim: Option<Key>, failed: bool)
    requires victim.Some? ==> victim.value in resident && victim.value != key
    requires failed ==> victim.Some?
    ensures keys == resident ==>
              (resident + {key} - Gone(victim, false) == keys + {key} - Gone(victim, failed) <==> !failed)
  {
    if failed {
      assert victim.value in resident + {key} && victim.value !in resident + {key} - Gone(victim, false);
    }
  }

  lemma ViewKeys(t: Table, f: Files)
    ensures View(t, f).Keys == t.Keys
  {
  }
}
