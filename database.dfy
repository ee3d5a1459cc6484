/** `Database`: collections of JSON documents held in memory and mirrored in a
    storage, one file per document under the key `collection/id`. */
module Databases {
  import opened Wrappers
  import opened Bytes
  import opened Dicts
  import opened Strings
  import opened Json
  import opened Storages
  import Artifacts

  type Collection = Dict<string, Json>
  type Data = Dict<string, Collection>

  datatype DbError =
    | AssertionFailed(message: string)
    | StorageFailed(error: StorageError)
    | DecodeFailed(key: string)
      /** `collection, id = key.split(os.sep)[-2:]` on a path of fewer than two components. */
    | UnpackFailed(path: string)

  /** Distinct collection names, and distinct ids within every collection. */
  ghost predicate WellKeyed(data: Data)
  {
    UniqueKeys(data) && forall x :: x in data ==> UniqueKeys(x.1)
  }

  /** The document held under `collection` and `id`, whatever its truthiness. */
  function Entry(data: Data, collection: string, id: string): Option<Json>
  {
    match Get(data, collection)
    case None => None
    case Some(docs) => Get(docs, id)
  }

  /** The storage key of a document. */
  function KeyOf(collection: string, id: string): string
  {
    collection + "/" + id
  }

  /** A storage key read back as collection and id: the collection is the text
      before the first '/', the id everything after it. */
  function SplitKey(key: string): Option<(string, string)>
  {
    match IndexOf(key, '/')
    case None => None
    case Some(i) => Some((key[..i], key[i + 1..]))
  }

  /** `SplitKey` inverts `KeyOf` exactly on collection names without '/'. */
  lemma SplitKeySpec(key: string, collection: string, id: string)
    ensures SplitKey(key) == Some((collection, id)) <==> key == KeyOf(collection, id) && '/' !in collection
  {
    if key == KeyOf(collection, id) && '/' !in collection {
      assert key[..|collection|] == collection;
      assert key[|collection|] == '/';
      assert key[|collection| + 1..] == id;
    }
    if SplitKey(key) == Some((collection, id)) {
      var i := IndexOf(key, '/').value;
      assert key == key[..i] + "/" + key[i + 1..];
    }
  }

  /** The collections after `set(collection, id, entry)`: a missing or empty
      collection starts afresh, then the entry is stored under `id`. */
  function WithEntry(data: Data, collection: string, id: string, entry: Json): Data
  {
    var docs := match Get(data, collection) case None => [] case Some(d) => d;
    Set(data, collection, Set(docs, id, entry))
  }

  /** After a store, the entry is found under its collection and id and every
      other document is as it was. */
  lemma WithEntrySpec(data: Data, collection: string, id: string, entry: Json)
    requires WellKeyed(data)
    ensures WellKeyed(WithEntry(data, collection, id, entry))
    ensures Entry(WithEntry(data, collection, id, entry), collection, id) == Some(entry)
    ensures forall c, i :: (c, i) != (collection, id) ==>
      Entry(WithEntry(data, collection, id, entry), c, i) == Entry(data, c, i)
  {
    var docs := match Get(data, collection) case None => [] case Some(d) => d;
    if Get(data, collection).Some? {
      var i := Find(data, collection).value;
      assert data[i] in data;
    }
    var docs' := Set(docs, id, entry);
    SetSpec(docs, id, entry);
    SetSpec(data, collection, docs');
    SetItems(data, collection, docs');
    var after := WithEntry(data, collection, id, entry);
    assert Get(after, collection) == Some(docs');
    forall c, i | (c, i) != (collection, id)
      ensures Entry(after, c, i) == Entry(data, c, i)
    {
      WithEntryOther(data, collection, id, entry, c, i);
    }
  }

  lemma WithEntryOther(data: Data, collection: string, id: string, entry: Json, c: string, i: string)
    requires WellKeyed(data) && (c, i) != (collection, id)
    ensures Entry(WithEntry(data, collection, id, entry), c, i) == Entry(data, c, i)
  {
    var docs := match Get(data, collection) case None => [] case Some(d) => d;
    if Get(data, collection).Some? {
      var p := Find(data, collection).value;
      assert data[p] in data;
    }
    var docs' := Set(docs, id, entry);
    SetSpec(data, collection, docs');
    if c == collection {
      SetSpec(docs, id, entry);
      assert Get(docs', i) == Get(docs, i);
    }
  }

  /** The collections after `delete(collection, id)`: nothing changes for a
      missing or empty collection, and only a truthy document is removed. */
  function WithoutEntry(data: Data, collection: string, id: string): Data
  {
    match Get(data, collection)
    case None => data
    case Some(docs) =>
      if |docs| == 0 then data
      else match Get(docs, id)
        case None => data
        case Some(doc) => if Truthy(doc) then Set(data, collection, Remove(docs, id)) else data
  }

  /** A delete removes the document exactly when it is truthy; an empty object
      stays. Every other document is as it was. */
  lemma WithoutEntrySpec(data: Data, collection: string, id: string)
    requires WellKeyed(data)
    ensures WellKeyed(WithoutEntry(data, collection, id))
    ensures Entry(WithoutEntry(data, collection, id), collection, id) ==
      match Entry(data, collection, id)
      case Some(doc) => if Truthy(doc) then None else Some(doc)
      case None => None
    ensures forall c, i :: (c, i) != (collection, id) ==>
      Entry(WithoutEntry(data, collection, id), c, i) == Entry(data, c, i)
  {
    match Get(data, collection)
    case None =>
    case Some(docs) =>
      var i := Find(data, collection).value;
      assert data[i] in data;
      if |docs| > 0 && Get(docs, id).Some? && Truthy(Get(docs, id).value) {
        var docs' := Remove(docs, id);
        assert UniqueKeys(docs);
        RemoveSpec(docs, id);
        var after := Set(data, collection, docs');
        assert after == WithoutEntry(data, collection, id);
        SetSpec(data, collection, docs');
        SetItems(data, collection, docs');
        assert Get(after, collection) == Some(docs');
        forall c, i | (c, i) != (collection, id)
          ensures Entry(after, c, i) == Entry(data, c, i)
        {
          if c != collection {
            SetOtherEntry(data, collection, docs', c, i);
          }
        }
      }
  }

  /** Replacing one collection leaves the documents of every other collection alone. */
  lemma SetOtherEntry(data: Data, collection: string, docs: Collection, c: string, i: string)
    requires UniqueKeys(data) && c != collection
    ensures Entry(Set(data, collection, docs), c, i) == Entry(data, c, i)
  {
    SetSpec(data, collection, docs);
  }

  /** The writes `_persist` makes, in order: one file per document of every
      non-empty collection. */
  function Writes(data: Data, codec: Codec): seq<(string, seq<byte>)>
  {
    if |data| == 0 then [] else DocumentWrites(data[0].0, data[0].1, codec) + Writes(data[1..], codec)
  }

  /** The writes from collection `i` on: its own, then those of the collections after it. */
  lemma WritesAt(data: Data, codec: Codec, i: nat)
    requires i < |data|
    ensures Writes(data[i..], codec) == DocumentWrites(data[i].0, data[i].1, codec) + Writes(data[i + 1..], codec)
    ensures |data[i].1| == 0 ==> Writes(data[i..], codec) == Writes(data[i + 1..], codec)
  {
    assert data[i..][1..] == data[i + 1..];
    if |data[i].1| == 0 {
      assert DocumentWrites(data[i].0, data[i].1, codec) == [];
      assert [] + Writes(data[i + 1..], codec) == Writes(data[i + 1..], codec);
    }
  }

  function DocumentWrites(collection: string, docs: Collection, codec: Codec): (w: seq<(string, seq<byte>)>)
    ensures |w| == |docs|
    ensures forall j :: 0 <= j < |docs| ==> w[j] == (KeyOf(collection, docs[j].0), codec.dumps(docs[j].1))
  {
    seq(|docs|, j requires 0 <= j < |docs| => (KeyOf(collection, docs[j].0), codec.dumps(docs[j].1)))
  }

  /** The storage after saving `writes` one after another, or the error of the
      first save that fails. */
  function SaveAll(files: map<string, seq<byte>>, dirs: set<string>, base: string, writes: seq<(string, seq<byte>)>)
    : Result<(map<string, seq<byte>>, set<string>), StorageError>
    decreases |writes|
  {
    if |writes| == 0 then Success((files, dirs))
    else
      var (key, bytes) := writes[0];
      match SaveOutcome(files, dirs, base, key)
      case Fail(e) => Failure(e)
      case Pass => SaveAll(files[key := bytes], dirs + Parents(key), base, writes[1..])
  }

  /** A listed file whose key names a document no longer held, so `_persist`
      removes it. */
  predicate Stale(data: Data, key: string)
  {
    match SplitKey(key)
    case None => false
    case Some((c, id)) => Entry(data, c, id).None?
  }

  /** The files left once every listed stale file has been removed. */
  function Pruned(files: map<string, seq<byte>>, data: Data): map<string, seq<byte>>
  {
    map k | k in files && !(!Hidden(k) && Stale(data, k)) :: files[k]
  }

  lemma DropPrefix(p: string, k: string)
    ensures (p + k)[|p|..] == k
  {
  }

  lemma SuffixStep<T>(s: seq<T>, rest: seq<T>, j: nat)
    requires j < |s|
    ensures (s[j..] + rest)[0] == s[j] && (s[j..] + rest)[1..] == s[j + 1..] + rest
  {
  }

  lemma TakeOneMore<T>(s: seq<T>, i: nat)
    requires i < |s|
    ensures s[..i + 1] == s[..i] + [s[i]]
  {
  }

  /** The files left once the stale files among `seen` have been removed. */
  function PrunedBy(files: map<string, seq<byte>>, data: Data, seen: seq<string>): map<string, seq<byte>>
  {
    map k | k in files && !(k in seen && Stale(data, k)) :: files[k]
  }

  /** One more listed key removes its file exactly when it is stale. */
  lemma PrunedByStep(files: map<string, seq<byte>>, data: Data, seen: seq<string>, key: string)
    ensures PrunedBy(files, data, seen + [key]) ==
      if Stale(data, key) then PrunedBy(files, data, seen) - {key} else PrunedBy(files, data, seen)
  {
    var a := PrunedBy(files, data, seen + [key]);
    var b := if Stale(data, key) then PrunedBy(files, data, seen) - {key} else PrunedBy(files, data, seen);
    assert forall k :: k in seen + [key] <==> k in seen || k == key;
    assert forall k :: k in a <==> k in b;
  }

  /** Once every visible file has been seen, exactly the stale visible files are gone. */
  lemma PrunedByListed(files: map<string, seq<byte>>, data: Data, keys: seq<string>)
    requires forall k :: k in keys <==> k in files && !Hidden(k)
    ensures PrunedBy(files, data, keys) == Pruned(files, data)
  {
    assert forall k :: k in PrunedBy(files, data, keys) <==> k in Pruned(files, data);
  }

  /** What `_persist` leaves behind: either the writes and deletions all took
      place, or the first save that failed is reported. */
  ghost predicate PersistedFrom(
    files0: map<string, seq<byte>>, dirs0: set<string>, base: string, data: Data, codec: Codec,
    r: Outcome<DbError>, files: map<string, seq<byte>>, dirs: set<string>)
  {
    match SaveAll(files0, dirs0, base, Writes(data, codec))
    case Failure(e) => r == Fail(StorageFailed(e))
    case Success((f, d)) => r == Pass && files == Pruned(f, data) && dirs == d
  }

  /** What `_persist` as written leaves: the saves of `SaveAll`, then the
      removal loop over the listing `keys` of the saved files. */
  ghost predicate PersistedAsWritten(
    files0: map<string, seq<byte>>, dirs0: set<string>, base: string, data: Data, codec: Codec,
    keys: seq<string>, r: Outcome<DbError>, files: map<string, seq<byte>>, dirs: set<string>)
  {
    match SaveAll(files0, dirs0, base, Writes(data, codec))
    case Failure(e) => r == Fail(StorageFailed(e))
    case Success((f, d)) =>
      Listing(f, keys) && dirs == d && (files, r) == PrunedAsWritten(f, d, base, data, ListingPaths(base, keys))
  }

  /** A document `_load` reads: a visible file whose key splits into a
      collection and an id. */
  predicate Document(files: map<string, seq<byte>>, collection: string, id: string)
  {
    '/' !in collection && KeyOf(collection, id) in files && !Hidden(KeyOf(collection, id))
  }

  /** The collections `_load` builds from the files: exactly the documents of
      the storage, each decoded. */
  ghost predicate LoadedFrom(data: Data, files: map<string, seq<byte>>, codec: Codec)
  {
    && WellKeyed(data)
    && (forall c, id :: Entry(data, c, id) ==
          if Document(files, c, id) then codec.loads(files[KeyOf(c, id)]) else None)
    && (forall k :: k in files && !Hidden(k) && SplitKey(k).Some? ==> codec.loads(files[k]).Some?)
  }

  class Database {
    const storage: LocalStorage
    const codec: Codec
    var data: Data

    ghost predicate Valid()
      reads this, storage
    {
      storage.Valid() && WellKeyed(data)
    }

    /** A database with no collections, before anything is loaded. */
    constructor Empty(storage: LocalStorage, codec: Codec)
      requires storage.Valid()
      ensures Valid()
      ensures this.storage == storage && this.codec == codec && data == []
    {
      this.storage := storage;
      this.codec := codec;
      data := [];
    }

    /** `Database(storage)`: the collections are loaded from the storage. */
    static method Open(storage: LocalStorage, codec: Codec) returns (db: Database, r: Outcome<DbError>)
      requires storage.Valid()
      ensures fresh(db) && db.storage == storage && db.codec == codec
      ensures r.Pass? ==> db.Valid() && LoadedFrom(db.data, storage.files, codec)
      ensures r.Fail? ==> exists k :: k in storage.files && !Hidden(k) && SplitKey(k).Some? && codec.loads(storage.files[k]).None?
      ensures r.Fail? ==> db.Valid() && PartlyLoadedFrom(db.data, storage.files, codec)
    {
      db := new Database.Empty(storage, codec);
      r := db.Load();
    }

    /** `get(collection, id)`: the falsy-collection test changes nothing, since
        an empty collection holds no document. */
    function Get(collection: string, id: string): (r: Option<Json>)
      reads this
      ensures r == Entry(data, collection, id)
    {
      match Dicts.Get(data, collection)
      case None => None
      case Some(docs) => if |docs| == 0 then None else Dicts.Get(docs, id)
    }

    /** `list(collection)`: the id and document of every item of the collection,
        in the collection's insertion order. */
    function List(collection: string): (r: seq<(string, Json)>)
      reads this
      ensures Dicts.Get(data, collection).None? ==> r == []
      ensures Dicts.Get(data, collection).Some? ==> r == Dicts.Get(data, collection).value
      ensures WellKeyed(data) ==> forall j :: 0 <= j < |r| ==> Entry(data, collection, r[j].0) == Some(r[j].1)
      ensures forall id :: Entry(data, collection, id).Some? ==> (id, Entry(data, collection, id).value) in r
    {
      match Dicts.Get(data, collection)
      case None => []
      case Some(docs) =>
        assert WellKeyed(data) ==> UniqueKeys(docs) by {
          if WellKeyed(data) {
            var i := Find(data, collection).value;
            assert data[i] in data;
          }
        }
        assert WellKeyed(data) ==> forall j :: 0 <= j < |docs| ==> Dicts.Get(docs, docs[j].0) == Some(docs[j].1) by {
          if WellKeyed(data) {
            forall j | 0 <= j < |docs| {
              GetItem(docs, j);
            }
          }
        }
        if |docs| == 0 then [] else docs
    }

    /** `set(collection, id, entry)`: only an object may be stored; the entry
        is kept in memory and then everything is persisted. */
    method Set(collection: string, id: string, entry: Json) returns (r: Result<Json, DbError>)
      requires Valid()
      modifies this, storage
      ensures Valid()
      ensures !entry.JObj? ==>
        r == Failure(AssertionFailed("Data must be a dictionary")) && data == old(data) && unchanged(storage)
      ensures entry.JObj? ==> data == WithEntry(old(data), collection, id, entry)
      ensures entry.JObj? ==> r.Success? ==> r.value == entry
      ensures entry.JObj? ==>
        PersistedFrom(old(storage.files), old(storage.dirs), storage.basePath, data, codec,
          if r.Success? then Pass else Fail(r.error), storage.files, storage.dirs)
    {
      if !entry.JObj? {
        return Failure(AssertionFailed("Data must be a dictionary"));
      }
      WithEntrySpec(data, collection, id, entry);
      data := WithEntry(data, collection, id, entry);
      var o := Persist();
      if o.Fail? {
        return Failure(o.error);
      }
      return Success(entry);
    }

    /** `delete(collection, id)`: nothing happens for a missing or empty
        collection; otherwise a truthy document is dropped and everything is
        persisted. */
    method Delete(collection: string, id: string) returns (r: Outcome<DbError>)
      requires Valid()
      modifies this, storage
      ensures Valid()
      ensures data == WithoutEntry(old(data), collection, id)
      ensures (match Dicts.Get(old(data), collection) case None => true case Some(docs) => |docs| == 0) ==>
        r == Pass && unchanged(storage)
      ensures (match Dicts.Get(old(data), collection) case None => false case Some(docs) => |docs| > 0) ==>
        PersistedFrom(old(storage.files), old(storage.dirs), storage.basePath, data, codec, r, storage.files, storage.dirs)
    {
      var docs := Dicts.Get(data, collection);
      if docs.None? || |docs.value| == 0 {
        return Pass;
      }
      WithoutEntrySpec(data, collection, id);
      data := WithoutEntry(data, collection, id);
      r := Persist();
    }

    /** `refresh()`: the collections are read again from the storage. */
    method Refresh() returns (r: Outcome<DbError>)
      requires storage.Valid()
      modifies this
      ensures r.Pass? ==> Valid() && LoadedFrom(data, storage.files, codec)
      ensures r.Fail? ==> exists k :: k in storage.files && !Hidden(k) && SplitKey(k).Some? && codec.loads(storage.files[k]).None?
      ensures r.Fail? ==> WellKeyed(data) && PartlyLoadedFrom(data, storage.files, codec)
    {
      r := Load();
    }

    /** `_persist()`: every document of a non-empty collection is saved under
        its key, then every listed file whose document is no longer held is
        removed. */
    method Persist() returns (r: Outcome<DbError>)
      requires Valid()
      modifies storage
      ensures Valid()
      ensures PersistedFrom(old(storage.files), old(storage.dirs), storage.basePath, data, codec, r, storage.files, storage.dirs)
    {
      var saved := SaveDocuments();
      if saved.Fail? {
        return Fail(StorageFailed(saved.error));
      }
      RemoveStale();
      return Pass;
    }

    /** The saving half of `_persist`, collection by collection. */
    method SaveDocuments() returns (r: Outcome<StorageError>)
      requires Valid()
      modifies storage
      ensures Valid()
      ensures SavedAs(SaveAll(old(storage.files), old(storage.dirs), storage.basePath, Writes(data, codec)),
                      r, storage.files, storage.dirs)
    {
      ghost var total := SaveAll(storage.files, storage.dirs, storage.basePath, Writes(data, codec));
      for i := 0 to |data|
        invariant storage.Valid()
        invariant total == SaveAll(storage.files, storage.dirs, storage.basePath, Writes(data[i..], codec))
      {
        var (collection, docs) := data[i];
        WritesAt(data, codec, i);
        if |docs| == 0 {
          continue;
        }
        r := SaveCollection(collection, docs, total, Writes(data[i + 1..], codec));
        if r.Fail? {
          return;
        }
      }
      return Pass;
    }

    /** The saves of one collection's documents, in order, before the saves `rest`. */
    method SaveCollection(collection: string, docs: Collection,
                          ghost total: Result<(map<string, seq<byte>>, set<string>), StorageError>,
                          ghost rest: seq<(string, seq<byte>)>) returns (r: Outcome<StorageError>)
      requires storage.Valid()
      requires total == SaveAll(storage.files, storage.dirs, storage.basePath, DocumentWrites(collection, docs, codec) + rest)
      modifies storage
      ensures storage.Valid()
      ensures r.Fail? ==> total == Failure(r.error)
      ensures r.Pass? ==> total == SaveAll(storage.files, storage.dirs, storage.basePath, rest)
    {
      ghost var all := DocumentWrites(collection, docs, codec);
      assert all[0..] + rest == all + rest;
      for j := 0 to |docs|
        invariant storage.Valid()
        invariant total == SaveAll(storage.files, storage.dirs, storage.basePath, all[j..] + rest)
      {
        var (id, item) := docs[j];
        SuffixStep(all, rest, j);
        assert all[j] == (KeyOf(collection, id), codec.dumps(item));
        r := storage.Save(codec.dumps(item), KeyOf(collection, id));
        if r.Fail? {
          return;
        }
      }
      assert all[|docs|..] + rest == rest;
      return Pass;
    }

    /** The deleting half of `_persist`: every listed file whose document is no
        longer held is removed. */
    method RemoveStale()
      requires storage.Valid()
      modifies storage
      ensures storage.Valid()
      ensures storage.files == Pruned(old(storage.files), data) && storage.dirs == old(storage.dirs)
    {
      ghost var f := storage.files;
      var listed, keys := storage.List("");
      assert forall k :: k in keys <==> k in f && !Hidden(k) by {
        assert forall k :: k in storage.ListedKeys("") <==> k in f && !Hidden(k);
      }
      var paths := listed.value;
      var root := JoinPath(storage.basePath, "");
      for i := 0 to |paths|
        invariant storage.Valid() && storage.dirs == old(storage.dirs)
        invariant storage.files == PrunedBy(f, data, keys[..i])
      {
        JoinRoot(storage.basePath, keys[i]);
        assert paths[i] == root + keys[i];
        var key := paths[i][|root|..];
        assert key == keys[i] by {
          DropPrefix(root, keys[i]);
        }
        TakeOneMore(keys, i);
        PrunedByStep(f, data, keys[..i], key);
        if Stale(data, key) {
          assert key !in keys[..i];
          var deleted := storage.Delete(key);
        }
      }
      assert keys[..|paths|] == keys;
      PrunedByListed(f, data, keys);
    }

    /** `_load()`: the collections are rebuilt from the listed files, each key
        split into collection and id and each file decoded. */
    method Load() returns (r: Outcome<DbError>)
      requires storage.Valid()
      modifies this
      ensures r.Pass? ==> Valid() && LoadedFrom(data, storage.files, codec)
      ensures r.Fail? ==> exists k :: k in storage.files && !Hidden(k) && SplitKey(k).Some? && codec.loads(storage.files[k]).None?
      ensures r.Fail? ==> WellKeyed(data) && PartlyLoadedFrom(data, storage.files, codec)
    {
      var built: Data := [];
      var listed, keys := storage.List("");
      var paths := listed.value;
      var root := JoinPath(storage.basePath, "");
      ghost var files := storage.files;
      assert forall k :: k in keys <==> k in files && !Hidden(k);
      for i := 0 to |paths|
        invariant LoadedKeys(built, files, codec, keys[..i])
      {
        var key := paths[i][|root|..];
        assert key == keys[i] by {
          JoinRoot(storage.basePath, keys[i]);
          assert paths[i] == root + keys[i];
          DropPrefix(root, keys[i]);
        }
        LoadNext(built, files, codec, keys, i);
        match SplitKey(key)
        case None =>
        case Some((c, id)) =>
          var doc := codec.loads(storage.Load(key).value);
          assert doc == codec.loads(files[keys[i]]);
          if doc.None? {
            assert key in keys;
            assert key in files && !Hidden(key) && SplitKey(key).Some? && codec.loads(files[key]).None?;
            LoadedSome(built, files, codec, keys, i);
            data := built;
            return Fail(DecodeFailed(key));
          }
          built := WithEntry(built, c, id, doc.value);
      }
      assert keys[..|paths|] == keys;
      LoadedAll(built, files, codec, keys);
      data := built;
      return Pass;
    }

    // ----- `_persist`, `_load` and their callers as written -----

    /** `Database(storage)` as written: the collections are loaded by `LoadAsWritten`. */
    static method OpenAsWritten(storage: LocalStorage, codec: Codec)
      returns (db: Database, r: Outcome<DbError>, ghost keys: seq<string>)
      requires storage.Valid()
      ensures fresh(db) && db.storage == storage && db.codec == codec && db.Valid()
      ensures Listing(storage.files, keys)
      ensures (db.data, r) == LoadedAsWritten(storage.files, storage.dirs, storage.basePath, codec, [], ListingPaths(storage.basePath, keys))
    {
      db := new Database.Empty(storage, codec);
      r, keys := db.LoadAsWritten();
    }

    /** `set(collection, id, entry)` as written: as `Set`, persisted by `PersistAsWritten`. */
    method SetAsWritten(collection: string, id: string, entry: Json) returns (r: Result<Json, DbError>, ghost keys: seq<string>)
      requires Valid()
      modifies this, storage
      ensures Valid()
      ensures !entry.JObj? ==>
        r == Failure(AssertionFailed("Data must be a dictionary")) && data == old(data) && unchanged(storage)
      ensures entry.JObj? ==> data == WithEntry(old(data), collection, id, entry)
      ensures entry.JObj? ==> r.Success? ==> r.value == entry
      ensures entry.JObj? ==>
        PersistedAsWritten(old(storage.files), old(storage.dirs), storage.basePath, data, codec, keys,
          if r.Success? then Pass else Fail(r.error), storage.files, storage.dirs)
    {
      keys := [];
      if !entry.JObj? {
        return Failure(AssertionFailed("Data must be a dictionary")), keys;
      }
      WithEntrySpec(data, collection, id, entry);
      data := WithEntry(data, collection, id, entry);
      var o;
      o, keys := PersistAsWritten();
      if o.Fail? {
        return Failure(o.error), keys;
      }
      return Success(entry), keys;
    }

    /** `delete(collection, id)` as written: as `Delete`, persisted by `PersistAsWritten`. */
    method DeleteAsWritten(collection: string, id: string) returns (r: Outcome<DbError>, ghost keys: seq<string>)
      requires Valid()
      modifies this, storage
      ensures Valid()
      ensures data == WithoutEntry(old(data), collection, id)
      ensures (match Dicts.Get(old(data), collection) case None => true case Some(docs) => |docs| == 0) ==>
        r == Pass && unchanged(storage)
      ensures (match Dicts.Get(old(data), collection) case None => false case Some(docs) => |docs| > 0) ==>
        PersistedAsWritten(old(storage.files), old(storage.dirs), storage.basePath, data, codec, keys, r, storage.files, storage.dirs)
    {
      keys := [];
      var docs := Dicts.Get(data, collection);
      if docs.None? || |docs.value| == 0 {
        return Pass, keys;
      }
      WithoutEntrySpec(data, collection, id);
      data := WithoutEntry(data, collection, id);
      r, keys := PersistAsWritten();
    }

    /** `refresh()` as written: the collections are read again by `LoadAsWritten`. */
    method RefreshAsWritten() returns (r: Outcome<DbError>, ghost keys: seq<string>)
      requires storage.Valid()
      modifies this
      ensures Valid()
      ensures Listing(storage.files, keys)
      ensures (data, r) == LoadedAsWritten(storage.files, storage.dirs, storage.basePath, codec, [], ListingPaths(storage.basePath, keys))
    {
      r, keys := LoadAsWritten();
    }

    /** `_persist()` as written: the documents are saved as in `Persist`, then
        `RemoveStaleAsWritten` runs. */
    method PersistAsWritten() returns (r: Outcome<DbError>, ghost keys: seq<string>)
      requires Valid()
      modifies storage
      ensures Valid()
      ensures PersistedAsWritten(old(storage.files), old(storage.dirs), storage.basePath, data, codec, keys, r, storage.files, storage.dirs)
    {
      keys := [];
      var saved := SaveDocuments();
      if saved.Fail? {
        return Fail(StorageFailed(saved.error)), keys;
      }
      r, keys := RemoveStaleAsWritten();
    }

    /** The deleting half of `_persist` as written: each listed path is unpacked
        into its last two components, and the file they name is deleted when
        `self._data.get(collection, id)` is falsy. */
    method RemoveStaleAsWritten() returns (r: Outcome<DbError>, ghost keys: seq<string>)
      requires storage.Valid()
      modifies storage
      ensures storage.Valid() && storage.dirs == old(storage.dirs)
      ensures Listing(old(storage.files), keys)
      ensures (storage.files, r) ==
        PrunedAsWritten(old(storage.files), old(storage.dirs), storage.basePath, data, ListingPaths(storage.basePath, keys))
    {
      var listed;
      listed, keys := storage.List("");
      assert Listing(storage.files, keys) by {
        assert forall k :: k in storage.ListedKeys("") <==> k in storage.files && !Hidden(k);
      }
      var paths := listed.value;
      assert paths == ListingPaths(storage.basePath, keys);
      ghost var total := PrunedAsWritten(storage.files, storage.dirs, storage.basePath, data, paths);
      for i := 0 to |paths|
        invariant storage.Valid() && storage.dirs == old(storage.dirs)
        invariant total == PrunedAsWritten(storage.files, storage.dirs, storage.basePath, data, paths[i..])
      {
        DropOne(paths, i);
        var parts := LastTwo(paths[i]);
        if parts.None? {
          return Fail(UnpackFailed(paths[i])), keys;
        }
        var (c, id) := parts.value;
        if DeletedAsWritten(data, c, id) {
          var deleted := storage.Delete(KeyOf(c, id));
          if deleted.Fail? {
            return Fail(StorageFailed(deleted.error)), keys;
          }
        }
      }
      assert paths[|paths|..] == [];
      r := Pass;
    }

    /** `_load()` as written: each listed path is unpacked into its last two
        components, and the file they name is loaded, decoded and stored under
        them; a failed unpack, load or decode raises, leaving what was built. */
    method LoadAsWritten() returns (r: Outcome<DbError>, ghost keys: seq<string>)
      requires storage.Valid()
      modifies this
      ensures Valid()
      ensures Listing(storage.files, keys)
      ensures (data, r) ==
        LoadedAsWritten(storage.files, storage.dirs, storage.basePath, codec, [], ListingPaths(storage.basePath, keys))
    {
      var listed;
      listed, keys := storage.List("");
      assert Listing(storage.files, keys) by {
        assert forall k :: k in storage.ListedKeys("") <==> k in storage.files && !Hidden(k);
      }
      var paths := listed.value;
      assert paths == ListingPaths(storage.basePath, keys);
      ghost var total := LoadedAsWritten(storage.files, storage.dirs, storage.basePath, codec, [], paths);
      var built: Data := [];
      for i := 0 to |paths|
        invariant WellKeyed(built)
        invariant total == LoadedAsWritten(storage.files, storage.dirs, storage.basePath, codec, built, paths[i..])
      {
        DropOne(paths, i);
        var parts := LastTwo(paths[i]);
        if parts.None? {
          data := built;
          return Fail(UnpackFailed(paths[i])), keys;
        }
        var (c, id) := parts.value;
        var file := storage.Load(KeyOf(c, id));
        if file.Failure? {
          data := built;
          return Fail(StorageFailed(file.error)), keys;
        }
        var doc := codec.loads(file.value);
        if doc.None? {
          data := built;
          return Fail(DecodeFailed(KeyOf(c, id))), keys;
        }
        WithEntrySpec(built, c, id, doc.value);
        built := WithEntry(built, c, id, doc.value);
      }
      assert paths[|paths|..] == [];
      data := built;
      r := Pass;
    }
  }

  /** What `_load` has built after reading the files `seen`. */
  ghost predicate LoadedKeys(data: Data, files: map<string, seq<byte>>, codec: Codec, seen: seq<string>)
  {
    && (forall k :: k in seen ==> k in files)
    && WellKeyed(data)
    && (forall c, id :: Entry(data, c, id) ==
          (if '/' !in c && KeyOf(c, id) in seen then codec.loads(files[KeyOf(c, id)]) else None))
    && (forall k :: k in seen && SplitKey(k).Some? ==> codec.loads(files[k]).Some?)
  }

  /** The collections a failed `_load` leaves: only documents of the storage,
      each decoded; those read before the failing file. */
  ghost predicate PartlyLoadedFrom(data: Data, files: map<string, seq<byte>>, codec: Codec)
  {
    forall c, id :: Entry(data, c, id).Some? ==>
      Document(files, c, id) && Entry(data, c, id) == codec.loads(files[KeyOf(c, id)])
  }

  /** What `_load` has built from some of the listed files is part of what it
      would build from all of them. */
  lemma LoadedSome(data: Data, files: map<string, seq<byte>>, codec: Codec, keys: seq<string>, i: nat)
    requires i <= |keys| && LoadedKeys(data, files, codec, keys[..i])
    requires forall k :: k in keys <==> k in files && !Hidden(k)
    ensures WellKeyed(data) && PartlyLoadedFrom(data, files, codec)
  {
    forall c, id | Entry(data, c, id).Some?
      ensures Document(files, c, id)
    {
      assert KeyOf(c, id) in keys[..i];
    }
  }

  /** Once every visible file has been read, `_load` has built exactly `LoadedFrom`. */
  lemma LoadedAll(data: Data, files: map<string, seq<byte>>, codec: Codec, keys: seq<string>)
    requires LoadedKeys(data, files, codec, keys)
    requires forall k :: k in keys <==> k in files && !Hidden(k)
    ensures LoadedFrom(data, files, codec)
  {
  }

  /** Reading the next listed file extends what `_load` has built by that file. */
  lemma LoadNext(data: Data, files: map<string, seq<byte>>, codec: Codec, keys: seq<string>, i: nat)
    requires i < |keys| && Distinct(keys) && keys[i] in files
    requires LoadedKeys(data, files, codec, keys[..i])
    ensures SplitKey(keys[i]).None? ==> LoadedKeys(data, files, codec, keys[..i + 1])
    ensures SplitKey(keys[i]).Some? && codec.loads(files[keys[i]]).Some? ==>
      LoadedKeys(WithEntry(data, SplitKey(keys[i]).value.0, SplitKey(keys[i]).value.1,
        codec.loads(files[keys[i]]).value), files, codec, keys[..i + 1])
  {
    TakeOneMore(keys, i);
    var key := keys[i];
    assert key !in keys[..i];
    if SplitKey(key).None? {
      LoadSkip(data, files, codec, keys[..i], key);
    } else if codec.loads(files[key]).Some? {
      LoadAdd(data, files, codec, keys[..i], key, codec.loads(files[key]).value);
    }
  }

  /** A key without '/' names no document. */
  lemma LoadSkip(data: Data, files: map<string, seq<byte>>, codec: Codec, seen: seq<string>, key: string)
    requires LoadedKeys(data, files, codec, seen) && key in files && SplitKey(key).None?
    ensures LoadedKeys(data, files, codec, seen + [key])
  {
    forall c, id | '/' !in c
      ensures KeyOf(c, id) != key
    {
      SplitKeySpec(key, c, id);
    }
  }

  /** Reading a document stores it under the collection and id its key names. */
  lemma LoadAdd(data: Data, files: map<string, seq<byte>>, codec: Codec, seen: seq<string>, key: string, doc: Json)
    requires LoadedKeys(data, files, codec, seen) && key in files && key !in seen
    requires SplitKey(key).Some? && codec.loads(files[key]) == Some(doc)
    ensures LoadedKeys(WithEntry(data, SplitKey(key).value.0, SplitKey(key).value.1, doc), files, codec, seen + [key])
  {
    var (c, id) := SplitKey(key).value;
    SplitKeySpec(key, c, id);
    WithEntrySpec(data, c, id, doc);
    forall c', id' | (c', id') != (c, id) && '/' !in c'
      ensures KeyOf(c', id') != key
    {
      SplitKeySpec(key, c', id');
    }
  }

  /** The outcome a run of saves reports, and the storage it leaves when it succeeds. */
  ghost predicate SavedAs(saved: Result<(map<string, seq<byte>>, set<string>), StorageError>,
                          r: Outcome<StorageError>, files: map<string, seq<byte>>, dirs: set<string>)
  {
    match saved
    case Failure(e) => r == Fail(e)
    case Success((f, d)) => r == Pass && files == f && dirs == d
  }

  /** Keys whose collection part has no '/' and whose documents all sit in
      visible files: the collections a reload can give back. */
  ghost predicate Reloadable(data: Data)
  {
    forall x :: x in data ==> '/' !in x.0 && forall y :: y in x.1 ==> !Hidden(KeyOf(x.0, y.0))
  }

  /** The codec gives back every document the collections hold. */
  ghost predicate HeldRoundTrips(codec: Codec, data: Data)
  {
    forall c, id :: Entry(data, c, id).Some? ==> RoundTripsOn(codec, Entry(data, c, id).value)
  }

  /** Persisting and then loading gives back every document held in memory,
      and no other. */
  lemma PersistLoadRoundTrip(
    data: Data, codec: Codec, files0: map<string, seq<byte>>, dirs0: set<string>, base: string,
    files: map<string, seq<byte>>, dirs: set<string>, loaded: Data)
    requires WellKeyed(data) && Reloadable(data) && HeldRoundTrips(codec, data)
    requires PersistedFrom(files0, dirs0, base, data, codec, Pass, files, dirs)
    requires LoadedFrom(loaded, files, codec)
    ensures forall c, id :: Entry(loaded, c, id) == Entry(data, c, id)
  {
    var writes := Writes(data, codec);
    var saved := SaveAll(files0, dirs0, base, writes).value.0;
    WritesDistinct(data, codec);
    SaveAllDistinct(files0, dirs0, base, writes);
    forall c, id
      ensures Entry(loaded, c, id) == Entry(data, c, id)
    {
      SplitKeySpec(KeyOf(c, id), c, id);
      match Entry(data, c, id)
      case Some(e) =>
        var x := data[Find(data, c).value];
        assert x in data;
        var y := x.1[Find(x.1, id).value];
        assert y in x.1;
        WritesContain(data, codec, c, id);
        var p :| 0 <= p < |writes| && writes[p] == (KeyOf(c, id), codec.dumps(e));
        assert saved[KeyOf(c, id)] == codec.dumps(e);
        assert !Stale(data, KeyOf(c, id));
        assert Document(files, c, id);
      case None =>
        assert '/' !in c ==> Stale(data, KeyOf(c, id));
        assert !Document(files, c, id);
    }
  }

  /** A save leaves alone every key it does not write. */
  lemma {:induction false} SaveAllKeeps(
    files: map<string, seq<byte>>, dirs: set<string>, base: string, writes: seq<(string, seq<byte>)>, k: string)
    requires SaveAll(files, dirs, base, writes).Success?
    requires forall q :: 0 <= q < |writes| ==> writes[q].0 != k
    ensures var f := SaveAll(files, dirs, base, writes).value.0;
      (k in f <==> k in files) && (k in files ==> f[k] == files[k])
    decreases |writes|
  {
    if |writes| > 0 {
      var (key, bytes) := writes[0];
      assert forall q :: 0 <= q < |writes[1..]| ==> writes[1..][q] == writes[q + 1];
      SaveAllKeeps(files[key := bytes], dirs + Parents(key), base, writes[1..], k);
    }
  }

  predicate DistinctKeys(writes: seq<(string, seq<byte>)>)
  {
    forall p, q :: 0 <= p < q < |writes| ==> writes[p].0 != writes[q].0
  }

  /** Saves to distinct keys leave each written key holding what was written to it. */
  lemma {:induction false} SaveAllDistinct(
    files: map<string, seq<byte>>, dirs: set<string>, base: string, writes: seq<(string, seq<byte>)>)
    requires SaveAll(files, dirs, base, writes).Success? && DistinctKeys(writes)
    ensures var f := SaveAll(files, dirs, base, writes).value.0;
      forall p :: 0 <= p < |writes| ==> writes[p].0 in f && f[writes[p].0] == writes[p].1
    decreases |writes|
  {
    if |writes| > 0 {
      var (key, bytes) := writes[0];
      var rest := writes[1..];
      assert forall q :: 0 <= q < |rest| ==> rest[q] == writes[q + 1];
      SaveAllDistinct(files[key := bytes], dirs + Parents(key), base, rest);
      SaveAllKeeps(files[key := bytes], dirs + Parents(key), base, rest, key);
    }
  }

  /** Every write names a document of a collection of `data`. */
  lemma {:induction false} WritesCollections(data: Data, codec: Codec)
    requires Reloadable(data)
    ensures forall p :: 0 <= p < |Writes(data, codec)| ==>
      SplitKey(Writes(data, codec)[p].0).Some? && SplitKey(Writes(data, codec)[p].0).value.0 in Keys(data)
  {
    if |data| > 0 {
      var (c, docs) := data[0];
      assert data[0] in data;
      var head := DocumentWrites(c, docs, codec);
      var tail := Writes(data[1..], codec);
      assert forall x :: x in data[1..] ==> x in data;
      WritesCollections(data[1..], codec);
      var w: seq<(string, seq<byte>)> := head + tail;
      forall p | 0 <= p < |w|
        ensures SplitKey(w[p].0).Some? && SplitKey(w[p].0).value.0 in Keys(data)
      {
        if p < |head| {
          SplitKeySpec(head[p].0, c, docs[p].0);
          assert Keys(data)[0] == c;
        } else {
          var k := SplitKey(tail[p - |head|].0).value.0;
          var i :| 0 <= i < |data[1..]| && Keys(data[1..])[i] == k;
          assert Keys(data)[i + 1] == k;
        }
      }
    }
  }

  /** No key is written twice. */
  lemma {:induction false} WritesDistinct(data: Data, codec: Codec)
    requires WellKeyed(data) && Reloadable(data)
    ensures DistinctKeys(Writes(data, codec))
  {
    if |data| > 0 {
      var (c, docs) := data[0];
      assert data[0] in data;
      assert forall x :: x in data[1..] ==> x in data;
      WritesDistinct(data[1..], codec);
      WritesCollections(data[1..], codec);
      DocumentWritesSplit(c, docs, codec);
      HeadKeyFresh(data);
      AppendDistinct(DocumentWrites(c, docs, codec), Writes(data[1..], codec), c, Keys(data[1..]));
    }
  }

  /** The first collection's name is not among the names that follow it. */
  lemma HeadKeyFresh(data: Data)
    requires |data| > 0 && UniqueKeys(data)
    ensures data[0].0 !in Keys(data[1..])
  {
    assert forall i :: 0 <= i < |data[1..]| ==> Keys(data[1..])[i] == data[i + 1].0;
  }

  /** Writes to one collection followed by writes to other collections touch distinct keys. */
  lemma AppendDistinct(head: seq<(string, seq<byte>)>, tail: seq<(string, seq<byte>)>, c: string, others: seq<string>)
    requires DistinctKeys(head) && DistinctKeys(tail) && c !in others
    requires forall p :: 0 <= p < |head| ==> SplitKey(head[p].0).Some? && SplitKey(head[p].0).value.0 == c
    requires forall q :: 0 <= q < |tail| ==> SplitKey(tail[q].0).Some? && SplitKey(tail[q].0).value.0 in others
    ensures DistinctKeys(head + tail)
  {
    var w := head + tail;
    forall p, q | 0 <= p < q < |w|
      ensures w[p].0 != w[q].0
    {
      if q < |head| {
        assert w[p] == head[p] && w[q] == head[q];
      } else if p < |head| {
        assert w[p] == head[p] && w[q] == tail[q - |head|];
      } else {
        assert w[p] == tail[p - |head|] && w[q] == tail[q - |head|];
      }
    }
  }

  /** The keys one collection writes name that collection and its distinct ids. */
  lemma DocumentWritesSplit(c: string, docs: Collection, codec: Codec)
    requires '/' !in c && UniqueKeys(docs)
    ensures forall p :: 0 <= p < |docs| ==> SplitKey(DocumentWrites(c, docs, codec)[p].0) == Some((c, docs[p].0))
    ensures DistinctKeys(DocumentWrites(c, docs, codec))
  {
    var w := DocumentWrites(c, docs, codec);
    forall p | 0 <= p < |docs|
      ensures SplitKey(w[p].0) == Some((c, docs[p].0))
    {
      SplitKeySpec(w[p].0, c, docs[p].0);
    }
  }

  /** Every document held is written, with its serialised form. */
  lemma {:induction false} WritesContain(data: Data, codec: Codec, c: string, id: string)
    requires WellKeyed(data) && Entry(data, c, id).Some?
    ensures (KeyOf(c, id), codec.dumps(Entry(data, c, id).value)) in Writes(data, codec)
  {
    var (c0, docs) := data[0];
    var head := DocumentWrites(c0, docs, codec);
    if c0 == c {
      assert data[0] in data;
      var j := Find(docs, id).value;
      assert head[j] == (KeyOf(c, id), codec.dumps(Entry(data, c, id).value));
    } else {
      assert forall x :: x in data[1..] ==> x in data;
      assert Get(data, c) == Get(data[1..], c);
      WritesContain(data[1..], codec, c, id);
    }
  }

  /** `_persist`'s deletion test as written, `not self._data.get(collection, id)`:
      for a missing collection the truthiness of the default `id` decides, and for a
      present one that of the whole collection, never that of the document. */
  predicate DeletedAsWritten(data: Data, collection: string, id: string)
  {
    match Get(data, collection)
    case None => id == ""
    case Some(docs) => |docs| == 0
  }

  /** The test as written never removes a document still held... */
  lemma DeletedAsWrittenKeepsHeld(data: Data, collection: string, id: string)
    requires DeletedAsWritten(data, collection, id)
    ensures Entry(data, collection, id) == None
  {
  }

  /** ...but it keeps the file of a deleted document while its collection has
      another one, so a reload brings the document back. */
  lemma StaleFileKeptAsWritten()
    ensures var data: Data := [("c", [("j", JObj([]))])];
      && Entry(data, "c", "i") == None
      && !DeletedAsWritten(data, "c", "i")
      && Stale(data, KeyOf("c", "i"))
  {
    var data: Data := [("c", [("j", JObj([]))])];
    SplitKeySpec(KeyOf("c", "i"), "c", "i");
  }

  /** `key.split(os.sep)[-2:]` as written: the last two components of a listed
      path, unpacked into collection and id. */
  function LastTwo(path: string): Option<(string, string)>
  {
    var parts := Split(path, '/');
    if |parts| < 2 then None else Some((parts[|parts| - 2], parts[|parts| - 1]))
  }

  /** The last two components of a path ending in two '/'-free pieces. */
  lemma LastTwoOf(prefix: string, a: string, b: string)
    requires '/' !in a && '/' !in b
    ensures LastTwo(prefix + "/" + a + "/" + b) == Some((a, b))
  {
    var x := prefix + "/" + a;
    assert prefix + "/" + a + "/" + b == x + ['/'] + b;
    SplitAppend(x, b, '/');
    NoSeparatorSplit(b, '/');
    SplitAppend(prefix, a, '/');
    NoSeparatorSplit(a, '/');
  }

  /** An artifact id with a '/' is read back as written under the wrong
      collection and id, so the file `_load` then asks for does not exist; the
      first-'/' split reads it back exactly. */
  lemma SlashInIdAsWritten(base: string)
    ensures var key := KeyOf("artifacts", Artifacts.IdOf("???", Artifacts.DefaultVersion));
      && LastTwo(ListedPath(base, "", key)) == Some(("Pz8", ":1.0.0"))
      && KeyOf("Pz8", ":1.0.0") != key
      && SplitKey(key) == Some(("artifacts", Artifacts.IdOf("???", Artifacts.DefaultVersion)))
  {
    Artifacts.SlashInId();
    var c, a, b := "artifacts", "Pz8", ":1.0.0";
    var key := KeyOf(c, a + "/" + b);
    assert Artifacts.IdOf("???", Artifacts.DefaultVersion) == a + "/" + b;
    assert key == c + "/" + a + "/" + b;
    assert '/' !in c && '/' !in a && '/' !in b by {
      assert forall i :: 0 <= i < |c| ==> c[i] != '/';
      assert forall i :: 0 <= i < |a| ==> a[i] != '/';
      assert forall i :: 0 <= i < |b| ==> b[i] != '/';
    }
    var root := JoinPath(base, "");
    JoinRoot(base, key);
    LastTwoOf(root + c, a, b);
    assert ListedPath(base, "", key) == (root + c) + "/" + a + "/" + b;
    assert |KeyOf(a, b)| < |key|;
    SplitKeySpec(key, c, a + "/" + b);
  }

  // ----- The removal loop of `_persist` and `_load`, as written -----

  /** `keys` lists every visible file once, in some order: the files `list("")` reports. */
  ghost predicate Listing(files: map<string, seq<byte>>, keys: seq<string>)
  {
    Distinct(keys) && forall k :: k in keys <==> k in files && !Hidden(k)
  }

  /** The paths `list("")` reports for the files `keys`, in that order. */
  function ListingPaths(base: string, keys: seq<string>): (paths: seq<string>)
    ensures |paths| == |keys|
    ensures forall j :: 0 <= j < |keys| ==> paths[j] == ListedPath(base, "", keys[j])
  {
    seq(|keys|, j requires 0 <= j < |keys| => ListedPath(base, "", keys[j]))
  }

  /** The listed path of the file `collection/id` unpacks, as written, into that
      collection and id when neither holds a '/'. */
  lemma ListedLastTwo(base: string, collection: string, id: string)
    requires '/' !in collection && '/' !in id
    ensures LastTwo(ListedPath(base, "", KeyOf(collection, id))) == Some((collection, id))
  {
    var root := JoinPath(base, "");
    JoinRoot(base, KeyOf(collection, id));
    var dir := root[..|root| - 1];
    assert root == dir + "/";
    assert ListedPath(base, "", KeyOf(collection, id)) == dir + "/" + collection + "/" + id;
    LastTwoOf(dir, collection, id);
  }

  /** `_persist`'s removal loop as written, over the listed `paths`: each path is
      unpacked into its last two components, and the file `collection/id` they
      name is deleted when `self._data.get(collection, id)` is falsy. A path of
      one component fails to unpack and the delete of a missing file raises;
      either ends the loop. The files left, and the outcome. */
  function PrunedAsWritten(files: map<string, seq<byte>>, dirs: set<string>, base: string, data: Data, paths: seq<string>)
    : (map<string, seq<byte>>, Outcome<DbError>)
    decreases |paths|
  {
    if |paths| == 0 then (files, Pass)
    else match LastTwo(paths[0])
      case None => (files, Fail(UnpackFailed(paths[0])))
      case Some((c, id)) =>
        if !DeletedAsWritten(data, c, id) then PrunedAsWritten(files, dirs, base, data, paths[1..])
        else if KeyOf(c, id) in files then PrunedAsWritten(files - {KeyOf(c, id)}, dirs, base, data, paths[1..])
        else (files, Fail(StorageFailed(FileError(dirs, base, KeyOf(c, id)))))
  }

  /** The removal loop as written never deletes the file of a document whose
      collection still holds a document: it deletes `collection/id` only for a
      missing or empty collection, and unpacked components hold no '/'. */
  lemma {:induction false} PrunedAsWrittenKeeps(
    files: map<string, seq<byte>>, dirs: set<string>, base: string, data: Data, paths: seq<string>,
    collection: string, id: string)
    requires '/' !in collection && KeyOf(collection, id) in files
    requires Get(data, collection).Some? && |Get(data, collection).value| > 0
    ensures var f := PrunedAsWritten(files, dirs, base, data, paths).0;
      KeyOf(collection, id) in f && f[KeyOf(collection, id)] == files[KeyOf(collection, id)]
    decreases |paths|
  {
    if |paths| > 0 && LastTwo(paths[0]).Some? {
      var (c, i) := LastTwo(paths[0]).value;
      if DeletedAsWritten(data, c, i) && KeyOf(c, i) in files {
        SplitKeySpec(KeyOf(c, i), c, i);
        SplitKeySpec(KeyOf(c, i), collection, id);
        PrunedAsWrittenKeeps(files - {KeyOf(c, i)}, dirs, base, data, paths[1..], collection, id);
      } else {
        PrunedAsWrittenKeeps(files, dirs, base, data, paths[1..], collection, id);
      }
    }
  }

  /** `_load()` as written, from the collections `built` on, over the listed
      `paths`: each path is unpacked into its last two components, and the file
      `collection/id` they name is loaded, decoded and stored under them. A
      failed unpack, load or decode ends the loop. The collections built, and
      the outcome. */
  function LoadedAsWritten(files: map<string, seq<byte>>, dirs: set<string>, base: string, codec: Codec,
                           built: Data, paths: seq<string>): (Data, Outcome<DbError>)
    decreases |paths|
  {
    if |paths| == 0 then (built, Pass)
    else match LastTwo(paths[0])
      case None => (built, Fail(UnpackFailed(paths[0])))
      case Some((c, id)) =>
        if KeyOf(c, id) !in files then (built, Fail(StorageFailed(FileError(dirs, base, KeyOf(c, id)))))
        else match codec.loads(files[KeyOf(c, id)])
          case None => (built, Fail(DecodeFailed(KeyOf(c, id))))
          case Some(doc) => LoadedAsWritten(files, dirs, base, codec, WithEntry(built, c, id, doc), paths[1..])
  }

  /** As written, a successful `_load` holds under (c, id) the decoded file `c/id`
      once some listed path unpacks into (c, id), and otherwise what it started with. */
  lemma {:induction false} LoadedAsWrittenEntry(
    files: map<string, seq<byte>>, dirs: set<string>, base: string, codec: Codec,
    built: Data, paths: seq<string>, collection: string, id: string)
    requires WellKeyed(built)
    requires LoadedAsWritten(files, dirs, base, codec, built, paths).1.Pass?
    ensures WellKeyed(LoadedAsWritten(files, dirs, base, codec, built, paths).0)
    ensures (exists j :: 0 <= j < |paths| && LastTwo(paths[j]) == Some((collection, id))) ==>
      && KeyOf(collection, id) in files
      && Entry(LoadedAsWritten(files, dirs, base, codec, built, paths).0, collection, id) ==
           codec.loads(files[KeyOf(collection, id)])
    ensures (forall j :: 0 <= j < |paths| ==> LastTwo(paths[j]) != Some((collection, id))) ==>
      Entry(LoadedAsWritten(files, dirs, base, codec, built, paths).0, collection, id) == Entry(built, collection, id)
    decreases |paths|
  {
    if |paths| > 0 {
      var (c, i) := LastTwo(paths[0]).value;
      var doc := codec.loads(files[KeyOf(c, i)]).value;
      var next := WithEntry(built, c, i, doc);
      WithEntrySpec(built, c, i, doc);
      var rest := paths[1..];
      LoadedAsWrittenEntry(files, dirs, base, codec, next, rest, collection, id);
      assert forall j :: 0 <= j < |rest| ==> rest[j] == paths[j + 1];
      if exists j :: 0 <= j < |rest| && LastTwo(rest[j]) == Some((collection, id)) {
        var j :| 0 <= j < |rest| && LastTwo(rest[j]) == Some((collection, id));
        assert LastTwo(paths[j + 1]) == Some((collection, id));
      } else if (c, i) == (collection, id) {
        assert Entry(next, collection, id) == codec.loads(files[KeyOf(collection, id)]);
      } else {
        forall j | 0 <= j < |paths|
          ensures LastTwo(paths[j]) != Some((collection, id))
        {
          if j > 0 {
            assert paths[j] == rest[j - 1];
          }
        }
      }
    }
  }

  /** As written, `_load` fails once a listed path unpacks into a collection and
      id whose file does not exist. */
  lemma {:induction false} LoadedAsWrittenFails(
    files: map<string, seq<byte>>, dirs: set<string>, base: string, codec: Codec,
    built: Data, paths: seq<string>, j: nat)
    requires j < |paths| && LastTwo(paths[j]).Some?
    requires KeyOf(LastTwo(paths[j]).value.0, LastTwo(paths[j]).value.1) !in files
    ensures LoadedAsWritten(files, dirs, base, codec, built, paths).1.Fail?
    decreases |paths|
  {
    if j > 0 && LastTwo(paths[0]).Some? {
      var (c, i) := LastTwo(paths[0]).value;
      if KeyOf(c, i) in files && codec.loads(files[KeyOf(c, i)]).Some? {
        assert paths[1..][j - 1] == paths[j];
        LoadedAsWrittenFails(files, dirs, base, codec, WithEntry(built, c, i, codec.loads(files[KeyOf(c, i)]).value),
                             paths[1..], j - 1);
      }
    }
  }

  /** As written, a listed document whose id holds a '/' makes `_load` fail unless
      a file happens to sit at the key its last two components name: the asset
      path "???" gives the key `artifacts/Pz8/:1.0.0`, and `Pz8/:1.0.0` is then
      loaded. A reload, and so every later `Database(storage)`, raises. */
  lemma SlashInIdLoadFails(
    files: map<string, seq<byte>>, dirs: set<string>, base: string, codec: Codec, keys: seq<string>,
    collection: string, a: string, b: string)
    requires Listing(files, keys)
    requires KeyOf(collection, a + "/" + b) in files && !Hidden(KeyOf(collection, a + "/" + b))
    requires '/' !in a && '/' !in b && KeyOf(a, b) !in files
    ensures LoadedAsWritten(files, dirs, base, codec, [], ListingPaths(base, keys)).1.Fail?
  {
    var key := KeyOf(collection, a + "/" + b);
    var j :| 0 <= j < |keys| && keys[j] == key;
    var paths := ListingPaths(base, keys);
    var root := JoinPath(base, "");
    JoinRoot(base, key);
    assert paths[j] == (root + collection) + "/" + a + "/" + b;
    LastTwoOf(root + collection, a, b);
    LoadedAsWrittenFails(files, dirs, base, codec, [], paths, j);
  }

  /** As written, a visible file directly under the storage's base makes `_load`
      fail unless some collection holds a file of the same name: its listed path
      unpacks into the base directory's last component and the file's name. */
  lemma TopLevelFileLoadFails(
    files: map<string, seq<byte>>, dirs: set<string>, base: string, codec: Codec, keys: seq<string>, key: string)
    requires Listing(files, keys) && key in files && !Hidden(key) && '/' !in key
    requires forall c :: KeyOf(c, key) !in files
    ensures LoadedAsWritten(files, dirs, base, codec, [], ListingPaths(base, keys)).1.Fail?
  {
    var j :| 0 <= j < |keys| && keys[j] == key;
    var paths := ListingPaths(base, keys);
    var root := JoinPath(base, "");
    JoinRoot(base, key);
    var dir := root[..|root| - 1];
    assert root == dir + "/";
    assert paths[j] == dir + ['/'] + key;
    SplitAppend(dir, key, '/');
    NoSeparatorSplit(key, '/');
    assert LastTwo(paths[j]).Some? && LastTwo(paths[j]).value.1 == key;
    LoadedAsWrittenFails(files, dirs, base, codec, [], paths, j);
  }

  /** Saving the documents of `data` writes no file for a document it does not hold. */
  lemma {:induction false} WritesAvoid(data: Data, codec: Codec, collection: string, id: string)
    requires WellKeyed(data) && Reloadable(data) && '/' !in collection && Entry(data, collection, id).None?
    ensures forall p :: 0 <= p < |Writes(data, codec)| ==> Writes(data, codec)[p].0 != KeyOf(collection, id)
  {
    if |data| > 0 {
      var (c, docs) := data[0];
      assert data[0] in data;
      var head := DocumentWrites(c, docs, codec);
      var tail := Writes(data[1..], codec);
      assert forall x :: x in data[1..] ==> x in data;
      HeadKeyFresh(data);
      if c == collection {
        assert Find(data[1..], collection).None?;
      } else {
        assert Get(data, collection) == Get(data[1..], collection);
      }
      WritesAvoid(data[1..], codec, collection, id);
      forall p | 0 <= p < |head|
        ensures head[p].0 != KeyOf(collection, id)
      {
        SplitKeySpec(head[p].0, c, docs[p].0);
        SplitKeySpec(head[p].0, collection, id);
        if c == collection {
          GetItem(docs, p);
        }
      }
      assert Writes(data, codec) == head + tail;
    }
  }

  /** A delete keeps the collections reloadable. */
  lemma WithoutEntryReloadable(data: Data, collection: string, id: string)
    requires Reloadable(data)
    ensures Reloadable(WithoutEntry(data, collection, id))
  {
    match Get(data, collection)
    case None =>
    case Some(docs) =>
      var x := data[Find(data, collection).value];
      assert x in data && x == (collection, docs);
      SetItems(data, collection, Remove(docs, id));
      RemoveItems(docs, id);
  }

  /** The document `delete(c, id)` removes while its collection still holds
      another comes back on the next `refresh`, as written: `_persist` leaves its
      file in place, and `_load`, when it succeeds, decodes that file under
      (c, id) again. */
  lemma DeletedComesBack(
    data: Data, codec: Codec, collection: string, id: string, other: string,
    base: string, files0: map<string, seq<byte>>, dirs0: set<string>,
    saved: map<string, seq<byte>>, dirs: set<string>, listed: seq<string>,
    files: map<string, seq<byte>>, relisted: seq<string>, loaded: Data)
    requires WellKeyed(data) && Reloadable(data) && '/' !in id
    requires Entry(data, collection, id).Some? && Truthy(Entry(data, collection, id).value)
    requires RoundTripsOn(codec, Entry(data, collection, id).value)
    requires other != id && Entry(data, collection, other).Some?
    requires KeyOf(collection, id) in files0 && files0[KeyOf(collection, id)] == codec.dumps(Entry(data, collection, id).value)
    requires SaveAll(files0, dirs0, base, Writes(WithoutEntry(data, collection, id), codec)) == Success((saved, dirs))
    requires Listing(saved, listed)
    requires files == PrunedAsWritten(saved, dirs, base, WithoutEntry(data, collection, id), ListingPaths(base, listed)).0
    requires Listing(files, relisted)
    requires LoadedAsWritten(files, dirs, base, codec, [], ListingPaths(base, relisted)) == (loaded, Pass)
    ensures Entry(WithoutEntry(data, collection, id), collection, id) == None
    ensures Entry(loaded, collection, id) == Entry(data, collection, id)
  {
    var after := WithoutEntry(data, collection, id);
    var key := KeyOf(collection, id);
    WithoutEntrySpec(data, collection, id);
    var x := data[Find(data, collection).value];
    assert x in data;
    var y := x.1[Find(x.1, id).value];
    assert y in x.1;
    assert '/' !in collection && !Hidden(key);
    assert Entry(after, collection, other).Some?;
    WithoutEntryReloadable(data, collection, id);
    WritesAvoid(after, codec, collection, id);
    SaveAllKeeps(files0, dirs0, base, Writes(after, codec), key);
    PrunedAsWrittenKeeps(saved, dirs, base, after, ListingPaths(base, listed), collection, id);
    assert key in relisted;
    var j :| 0 <= j < |relisted| && relisted[j] == key;
    ListedLastTwo(base, collection, id);
    assert LastTwo(ListingPaths(base, relisted)[j]) == Some((collection, id));
    LoadedAsWrittenEntry(files, dirs, base, codec, [], ListingPaths(base, relisted), collection, id);
  }

  lemma DropOne<T>(s: seq<T>, i: nat)
    requires i < |s|
    ensures s[i..][0] == s[i] && s[i..][1..] == s[i + 1..]
  {
  }
}
