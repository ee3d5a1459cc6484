/** `ArtifactRegistry`: artifact bytes kept in one storage under their asset
    path, and their other fields kept as entries of the database collection
    "artifacts" under their id. */
module Registries {
  import opened Wrappers
  import opened Bytes
  import opened Dicts
  import opened Json
  import opened Storages
  import opened Databases
  import opened Artifacts

  const ArtifactsCollection := "artifacts"

  datatype RegistryError =
    | NoEntry(id: string)
    | NotAnObject
    | MissingField(field: string)
    | InvalidField(field: string)
    | BlobFailed(storageError: StorageError)
    | DatabaseFailed(dbError: DbError)

  /** The entry `register` stores: every field of the artifact but its bytes. */
  function EntryOf(a: ArtifactValue): Json
  {
    JObj([
      ("name", JStr(a.name)),
      ("version", JStr(a.version)),
      ("asset_path", JStr(a.assetPath)),
      ("tags", JArr(seq(|a.tags|, i requires 0 <= i < |a.tags| => JStr(a.tags[i])))),
      ("metadata", JObj(seq(|a.metadata|, i requires 0 <= i < |a.metadata| => (a.metadata[i].0, JStr(a.metadata[i].1))))),
      ("type", JStr(a.artifactType))])
  }

  /** `data[name]`: a missing key raises `KeyError`. */
  function Field(fields: seq<(string, Json)>, name: string): Result<Json, RegistryError>
  {
    match Dicts.Get(fields, name)
    case None => Failure(MissingField(name))
    case Some(j) => Success(j)
  }

  /** The first item named `name` is the one `Field` gives. */
  lemma FieldAt(fields: seq<(string, Json)>, i: nat, name: string)
    requires i < |fields| && fields[i].0 == name
    requires forall j :: 0 <= j < i ==> fields[j].0 != name
    ensures Field(fields, name) == Success(fields[i].1)
  {
    var p := Find(fields, name);
    assert p.Some?;
  }

  function Text(j: Json, name: string): Result<string, RegistryError>
  {
    if j.JStr? then Success(j.s) else Failure(InvalidField(name))
  }

  function Texts(j: Json, name: string): Result<seq<string>, RegistryError>
  {
    if j.JArr? && forall i :: 0 <= i < |j.items| ==> j.items[i].JStr?
    then Success(seq(|j.items|, i requires 0 <= i < |j.items| => j.items[i].s))
    else Failure(InvalidField(name))
  }

  function TextDict(j: Json, name: string): Result<Dict<string, string>, RegistryError>
  {
    if j.JObj? && forall i :: 0 <= i < |j.fields| ==> j.fields[i].1.JStr?
    then Success(seq(|j.fields|, i requires 0 <= i < |j.fields| => (j.fields[i].0, j.fields[i].1.s)))
    else Failure(InvalidField(name))
  }

  /** The `Artifact(...)` call: every field must have its declared type. */
  function Validated(name: Json, version: Json, path: string, tags: Json, metadata: Json, data: seq<byte>, ty: Json)
    : Result<ArtifactValue, RegistryError>
  {
    var n :- Text(name, "name");
    var v :- Text(version, "version");
    var t :- Texts(tags, "tags");
    var m :- TextDict(metadata, "metadata");
    var a :- Text(ty, "type");
    Success(ArtifactValue(a, n, data, v, path, m, t))
  }

  /** The field names of an entry, in the order `register` writes them. */
  const EntryNames: seq<string> := ["name", "version", "asset_path", "tags", "metadata", "type"]

  lemma EntryNamesDistinct()
    ensures forall i, j :: 0 <= i < j < |EntryNames| ==> EntryNames[i] != EntryNames[j]
  {
    var k := EntryNames;
    assert |k[0]| == 4 && |k[1]| == 7 && |k[2]| == 10 && |k[3]| == 4 && |k[4]| == 8 && |k[5]| == 4;
    assert k[0][0] != k[3][0] && k[0][0] != k[5][0] && k[3][1] != k[5][1];
  }

  lemma EntryNamesOf(v: ArtifactValue)
    ensures |EntryOf(v).fields| == |EntryNames|
    ensures forall i :: 0 <= i < |EntryNames| ==> EntryOf(v).fields[i].0 == EntryNames[i]
  {
  }

  /** Each named field of an entry written by `register`. */
  lemma EntryFields(v: ArtifactValue)
    ensures var fs := EntryOf(v).fields;
      && Field(fs, "name") == Success(JStr(v.name))
      && Field(fs, "version") == Success(JStr(v.version))
      && Field(fs, "asset_path") == Success(JStr(v.assetPath))
      && Field(fs, "tags") == Success(fs[3].1)
      && Field(fs, "metadata") == Success(fs[4].1)
      && Field(fs, "type") == Success(JStr(v.artifactType))
  {
    var fs := EntryOf(v).fields;
    EntryNamesDistinct();
    EntryNamesOf(v);
    FieldAt(fs, 0, "name");
    FieldAt(fs, 1, "version");
    FieldAt(fs, 2, "asset_path");
    FieldAt(fs, 3, "tags");
    FieldAt(fs, 4, "metadata");
    FieldAt(fs, 5, "type");
  }

  /** The fields of an entry written by `register` pass the `Artifact(...)` checks
      and give the artifact back, with the bytes `data`. */
  lemma ValidatedOf(v: ArtifactValue, data: seq<byte>)
    ensures var fs := EntryOf(v).fields;
      Validated(fs[0].1, fs[1].1, v.assetPath, fs[3].1, fs[4].1, data, fs[5].1) == Success(v.(data := data))
  {
    var fs := EntryOf(v).fields;
    var items := fs[3].1.items;
    assert forall i :: 0 <= i < |items| ==> items[i] == JStr(v.tags[i]);
    assert seq(|items|, i requires 0 <= i < |items| => items[i].s) == v.tags;
    var pairs := fs[4].1.fields;
    assert forall i :: 0 <= i < |pairs| ==> pairs[i] == (v.metadata[i].0, JStr(v.metadata[i].1));
    assert seq(|pairs|, i requires 0 <= i < |pairs| => (pairs[i].0, pairs[i].1.s)) == v.metadata;
  }

  /** The artifacts among `vs` that `list(artifact_type)` keeps. */
  function Matching(vs: seq<ArtifactValue>, artifactType: Option<string>): (r: seq<ArtifactValue>)
    ensures forall x :: x in r <==> x in vs && (artifactType.None? || x.artifactType == artifactType.value)
  {
    if |vs| == 0 then []
    else
      var rest := Matching(vs[..|vs| - 1], artifactType);
      var last := vs[|vs| - 1];
      assert vs == vs[..|vs| - 1] + [last];
      if artifactType.None? || last.artifactType == artifactType.value then rest + [last] else rest
  }

  class ArtifactRegistry {
    const database: Database
    const objects: LocalStorage

    ghost predicate Valid()
      reads this, database, database.storage, objects
    {
      database.Valid() && objects.Valid() && objects != database.storage
    }

    constructor (database: Database, objects: LocalStorage)
      requires database.Valid() && objects.Valid() && objects != database.storage
      ensures Valid() && this.database == database && this.objects == objects
    {
      this.database := database;
      this.objects := objects;
    }

    /** An artifact rebuilt from its entry, with the bytes its asset path holds. */
    function FromEntry(entry: Json): Result<ArtifactValue, RegistryError>
      reads this, objects
    {
      if !entry.JObj? then Failure(NotAnObject)
      else
        var fs := entry.fields;
        var name :- Field(fs, "name");
        var version :- Field(fs, "version");
        var path :- Field(fs, "asset_path");
        var tags :- Field(fs, "tags");
        var metadata :- Field(fs, "metadata");
        var p :- Text(path, "asset_path");
        var data :- match objects.Load(p) case Failure(e) => Failure(BlobFailed(e)) case Success(d) => Success(d);
        var ty :- Field(fs, "type");
        Validated(name, version, p, tags, metadata, data, ty)
    }

    /** The artifact an entry written by `register` stands for: its fields,
        with the bytes now stored at its asset path. */
    lemma FromEntryOf(v: ArtifactValue)
      ensures v.assetPath in objects.files ==> FromEntry(EntryOf(v)) == Success(v.(data := objects.files[v.assetPath]))
      ensures v.assetPath !in objects.files ==> FromEntry(EntryOf(v)).Failure? && FromEntry(EntryOf(v)).error.BlobFailed?
    {
      EntryFields(v);
      if v.assetPath in objects.files {
        ValidatedOf(v, objects.files[v.assetPath]);
      }
    }

    /** Blobs are keyed by asset path alone: two entries with the same path,
        of different versions say, read back the same bytes. */
    lemma SharedBlob(v: ArtifactValue, w: ArtifactValue)
      requires v.assetPath == w.assetPath && v.assetPath in objects.files
      ensures FromEntry(EntryOf(v)).Success? && FromEntry(EntryOf(w)).Success?
      ensures FromEntry(EntryOf(v)).value.data == FromEntry(EntryOf(w)).value.data
    {
      FromEntryOf(v);
      FromEntryOf(w);
    }

    /** `get(artifact_id)`: an unknown id fails, since the missing entry is then subscripted. */
    function Get(id: string): (r: Result<ArtifactValue, RegistryError>)
      reads this, database, objects
      ensures Entry(database.data, ArtifactsCollection, id).None? ==> r == Failure(NoEntry(id))
      ensures forall v: ArtifactValue :: Entry(database.data, ArtifactsCollection, id) == Some(EntryOf(v)) && v.assetPath in objects.files ==>
        r == Success(v.(data := objects.files[v.assetPath]))
    {
      assert forall v: ArtifactValue :: v.assetPath in objects.files ==> FromEntry(EntryOf(v)) == Success(v.(data := objects.files[v.assetPath])) by {
        forall v: ArtifactValue | v.assetPath in objects.files {
          FromEntryOf(v);
        }
      }
      match database.Get(ArtifactsCollection, id)
      case None => Failure(NoEntry(id))
      case Some(entry) => FromEntry(entry)
    }

    /** What `list(artifact_type)` returns for the listed entries: in order,
        each entry whose type matches (every entry when no type is given)
        rebuilt as an artifact, or the first error. */
    function Listed(entries: seq<(string, Json)>, artifactType: Option<string>): Result<seq<ArtifactValue>, RegistryError>
      reads this, objects
    {
      if |entries| == 0 then Success([])
      else
        var done :- Listed(entries[..|entries| - 1], artifactType);
        ListedStep(done, entries[|entries| - 1].1, artifactType)
    }

    /** One entry of the listing: skipped when its type does not match, else
        rebuilt and appended to the artifacts `done` so far. */
    function ListedStep(done: seq<ArtifactValue>, entry: Json, artifactType: Option<string>): Result<seq<ArtifactValue>, RegistryError>
      reads this, objects
    {
      if artifactType.None? then
        var a :- FromEntry(entry);
        Success(done + [a])
      else if !entry.JObj? then Failure(NotAnObject)
      else
        var ty :- Field(entry.fields, "type");
        if ty != JStr(artifactType.value) then Success(done)
        else
          var a :- FromEntry(entry);
          Success(done + [a])
    }

    /** The listing of one more entry is one more step of the listing. */
    lemma ListedSnoc(entries: seq<(string, Json)>, i: nat, artifactType: Option<string>)
      requires i < |entries| && Listed(entries[..i], artifactType).Success?
      ensures Listed(entries[..i + 1], artifactType) ==
        ListedStep(Listed(entries[..i], artifactType).value, entries[i].1, artifactType)
    {
      assert entries[..i + 1][..i] == entries[..i];
    }

    /** Over entries written by `register` whose bytes are all stored, the
        listing is exactly the artifacts of the requested type, in entry order. */
    lemma {:induction false} ListedRegistered(entries: seq<(string, Json)>, vs: seq<ArtifactValue>, artifactType: Option<string>)
      requires |entries| == |vs|
      requires forall i :: 0 <= i < |vs| ==>
        entries[i].1 == EntryOf(vs[i]) && vs[i].assetPath in objects.files && vs[i].data == objects.files[vs[i].assetPath]
      ensures Listed(entries, artifactType) == Success(Matching(vs, artifactType))
    {
      if |vs| > 0 {
        var n := |vs| - 1;
        var es, ws := entries[..n], vs[..n];
        forall i | 0 <= i < n
          ensures es[i].1 == EntryOf(ws[i]) && ws[i].assetPath in objects.files && ws[i].data == objects.files[ws[i].assetPath]
        {
          assert es[i] == entries[i] && ws[i] == vs[i];
        }
        ListedRegistered(es, ws, artifactType);
        var v := vs[n];
        assert entries[n].1 == EntryOf(v) && v.assetPath in objects.files && v.data == objects.files[v.assetPath];
        ListedLast(entries, Matching(ws, artifactType), v, artifactType);
      }
    }

    /** The last entry, written by `register`, is kept exactly when its type matches. */
    lemma ListedLast(entries: seq<(string, Json)>, done: seq<ArtifactValue>, v: ArtifactValue, artifactType: Option<string>)
      requires |entries| > 0 && entries[|entries| - 1].1 == EntryOf(v)
      requires Listed(entries[..|entries| - 1], artifactType) == Success(done)
      requires v.assetPath in objects.files && v.data == objects.files[v.assetPath]
      ensures Listed(entries, artifactType) ==
        Success(if artifactType.None? || v.artifactType == artifactType.value then done + [v] else done)
    {
      FromEntryOf(v);
      assert v.(data := objects.files[v.assetPath]) == v;
      EntryFields(v);
      if artifactType.Some? && v.artifactType != artifactType.value {
        assert JStr(v.artifactType) != JStr(artifactType.value);
      }
    }

    /** Once an entry fails, the listing fails with its error. */
    lemma {:induction false} ListedFailure(entries: seq<(string, Json)>, artifactType: Option<string>, n: nat)
      requires n <= |entries| && Listed(entries[..n], artifactType).Failure?
      ensures Listed(entries, artifactType) == Listed(entries[..n], artifactType)
    {
      if n < |entries| {
        var p := entries[..|entries| - 1];
        assert p[..n] == entries[..n];
        ListedFailure(p, artifactType, n);
      } else {
        assert entries[..n] == entries;
      }
    }

    /** `list(artifact_type)`. */
    method List(artifactType: Option<string>) returns (r: Result<seq<ArtifactValue>, RegistryError>)
      requires Valid()
      ensures r == Listed(database.List(ArtifactsCollection), artifactType)
    {
      var entries := database.List(ArtifactsCollection);
      var artifacts: seq<ArtifactValue> := [];
      for i := 0 to |entries|
        invariant Listed(entries[..i], artifactType) == Success(artifacts)
      {
        ListedSnoc(entries, i, artifactType);
        var (_, entry) := entries[i];
        if artifactType.Some? {
          if !entry.JObj? {
            ListedFailure(entries, artifactType, i + 1);
            return Failure(NotAnObject);
          }
          var ty := Field(entry.fields, "type");
          if ty.Failure? {
            ListedFailure(entries, artifactType, i + 1);
            return Failure(ty.error);
          }
          if ty.value != JStr(artifactType.value) {
            continue;
          }
        }
        var a := FromEntry(entry);
        if a.Failure? {
          ListedFailure(entries, artifactType, i + 1);
          return Failure(a.error);
        }
        artifacts := artifacts + [a.value];
      }
      assert entries[..|entries|] == entries;
      return Success(artifacts);
    }

    /** `register(artifact)`: the bytes go to the asset path, then the entry to
        the database under the artifact's id; afterwards `get` of that id
        gives the artifact back. */
    method Register(a: Artifact) returns (r: Outcome<RegistryError>)
      requires Valid()
      modifies objects, database, database.storage
      ensures Valid()
      ensures var v := a.Value();
        var saved := SaveOutcome(old(objects.files), old(objects.dirs), objects.basePath, v.assetPath);
        saved.Fail? ==> r == Fail(BlobFailed(saved.error))
      ensures SaveOutcome(old(objects.files), old(objects.dirs), objects.basePath, a.assetPath).Fail? ==>
        objects.files == old(objects.files) && objects.dirs == old(objects.dirs) && unchanged(database) && unchanged(database.storage)
      ensures var v := a.Value();
        var saved := SaveOutcome(old(objects.files), old(objects.dirs), objects.basePath, v.assetPath);
        && (saved.Pass? ==>
              && objects.files == old(objects.files)[v.assetPath := v.data]
              && database.data == WithEntry(old(database.data), ArtifactsCollection, IdOf(v.assetPath, v.version), EntryOf(v))
              && (r.Pass? || r.error.DatabaseFailed?))
      ensures var v := a.Value();
        var saved := SaveOutcome(old(objects.files), old(objects.dirs), objects.basePath, v.assetPath);
        saved.Pass? ==>
          && (r.Pass? <==> SaveAll(old(database.storage.files), old(database.storage.dirs), database.storage.basePath,
                                   Writes(database.data, database.codec)).Success?)
          && PersistedFrom(old(database.storage.files), old(database.storage.dirs), database.storage.basePath,
               database.data, database.codec, if r.Pass? then Pass else Fail(r.error.dbError),
               database.storage.files, database.storage.dirs)
      ensures r.Pass? ==> Get(IdOf(a.assetPath, a.version)) == Success(a.Value())
    {
      var v := a.Value();
      var saved := objects.Save(v.data, v.assetPath);
      if saved.Fail? {
        return Fail(BlobFailed(saved.error));
      }
      var id := IdOf(v.assetPath, v.version);
      WithEntrySpec(database.data, ArtifactsCollection, id, EntryOf(v));
      var stored := database.Set(ArtifactsCollection, id, EntryOf(v));
      if stored.Failure? {
        return Fail(DatabaseFailed(stored.error));
      }
      FromEntryOf(v);
      return Pass;
    }

    /** An entry that rebuilds is an object with fields, whose asset path is a
        stored file. */
    lemma FromEntryPath(entry: Json)
      requires FromEntry(entry).Success?
      ensures entry.JObj? && |entry.fields| > 0
      ensures Field(entry.fields, "asset_path").Success?
      ensures Text(Field(entry.fields, "asset_path").value, "asset_path") == Success(FromEntry(entry).value.assetPath)
      ensures FromEntry(entry).value.assetPath in objects.files
    {
      var fs := entry.fields;
      var path := Field(fs, "asset_path");
      var p := Text(path.value, "asset_path");
      assert objects.Load(p.value).Success?;
    }

    /** `data["asset_path"]` of an entry, which must be an object holding a string there. */
    function AssetPathOf(entry: Json): Result<string, RegistryError>
    {
      if !entry.JObj? then Failure(NotAnObject)
      else
        var path :- Field(entry.fields, "asset_path");
        Text(path, "asset_path")
    }

    /** `delete(artifact_id)`: an unknown id fails; otherwise the bytes at the
        entry's asset path and then the entry are removed. */
    method Delete(id: string) returns (r: Outcome<RegistryError>)
      requires Valid()
      modifies objects, database, database.storage
      ensures Valid()
      ensures old(Entry(database.data, ArtifactsCollection, id)).None? ==>
        && r == Fail(NoEntry(id))
        && objects.files == old(objects.files) && database.data == old(database.data)
      ensures old(Get(id)).Success? ==>
        && objects.files == old(objects.files) - {old(Get(id)).value.assetPath}
        && database.data == WithoutEntry(old(database.data), ArtifactsCollection, id)
        && (r.Pass? || r.error.DatabaseFailed?)
      ensures old(Get(id)).Success? ==> Get(id) == Failure(NoEntry(id))
      ensures var e := old(Entry(database.data, ArtifactsCollection, id));
        e.Some? && AssetPathOf(e.value).Failure? ==>
          && r == Fail(AssetPathOf(e.value).error)
          && objects.files == old(objects.files) && database.data == old(database.data) && unchanged(database.storage)
      ensures var e := old(Entry(database.data, ArtifactsCollection, id));
        e.Some? && AssetPathOf(e.value).Success? && AssetPathOf(e.value).value !in old(objects.files) ==>
          && r == Fail(BlobFailed(FileError(old(objects.dirs), objects.basePath, AssetPathOf(e.value).value)))
          && objects.files == old(objects.files) && database.data == old(database.data) && unchanged(database.storage)
      ensures var e := old(Entry(database.data, ArtifactsCollection, id));
        e.Some? && AssetPathOf(e.value).Success? && AssetPathOf(e.value).value in old(objects.files) ==>
          && objects.files == old(objects.files) - {AssetPathOf(e.value).value}
          && database.data == WithoutEntry(old(database.data), ArtifactsCollection, id)
          && (r.Pass? <==> SaveAll(old(database.storage.files), old(database.storage.dirs), database.storage.basePath,
                                   Writes(database.data, database.codec)).Success?)
          && (r.Pass? || r.error.DatabaseFailed?)
          && PersistedFrom(old(database.storage.files), old(database.storage.dirs), database.storage.basePath,
               database.data, database.codec, if r.Pass? then Pass else Fail(r.error.dbError),
               database.storage.files, database.storage.dirs)
    {
      ghost var before := Get(id);
      var found := database.Get(ArtifactsCollection, id);
      if found.None? {
        return Fail(NoEntry(id));
      }
      var entry := found.value;
      var p := AssetPathOf(entry);
      if p.Failure? {
        return Fail(p.error);
      }
      if before.Success? {
        FromEntryPath(entry);
      }
      var removed := objects.Delete(p.value);
      if removed.Fail? {
        return Fail(BlobFailed(removed.error));
      }
      WithoutEntrySpec(database.data, ArtifactsCollection, id);
      ghost var gone := WithoutEntry(database.data, ArtifactsCollection, id);
      if before.Success? {
        assert Truthy(entry);
        assert Entry(database.data, ArtifactsCollection, id) == Some(entry);
        assert Entry(gone, ArtifactsCollection, id).None?;
      }
      var dropped := database.Delete(ArtifactsCollection, id);
      assert database.data == gone;
      if dropped.Fail? {
        return Fail(DatabaseFailed(dropped.error));
      }
      return Pass;
    }
  }
}
