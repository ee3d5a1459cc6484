/** `LocalStorage`: bytes kept in the files of a directory tree, addressed by
    '/'-separated keys relative to a base directory. The tree is an in-memory
    map of files and a set of directories. */
module Storages {
  import opened Wrappers
  import opened Bytes

  /** `NotFoundError`, and the operating-system errors the file calls can raise. */
  datatype StorageError =
    | NotFound(path: string)
    | IsADirectory(path: string)
    | NotADirectory(path: string)
      /** `os.makedirs` asked to create the directory a key sits in, where a file stands. */
    | FileExists(path: string)

  /** The directories a file at `key` lives in: the base directory ("") and
      every prefix of `key` that ends just before a '/'. */
  function Parents(key: string): set<string>
  {
    {""} + set i | 0 <= i < |key| && key[i] == '/' :: key[..i]
  }

  /** `os.path.join(base, key)` for a relative key. */
  function JoinPath(base: string, key: string): string
  {
    if |base| > 0 && base[|base| - 1] == '/' then base + key else base + "/" + key
  }

  /** `os.path.join(base, "")` ends in '/', so joining a key to it appends the key. */
  lemma JoinRoot(base: string, key: string)
    ensures |JoinPath(base, "")| > 0 && JoinPath(base, "")[|JoinPath(base, "")| - 1] == '/'
    ensures JoinPath(JoinPath(base, ""), key) == JoinPath(base, "") + key
  {
  }

  /** `key` lies strictly below the directory `prefix` ("" is the base directory). */
  predicate Under(prefix: string, key: string)
  {
    prefix == "" || (|key| > |prefix| + 1 && key[..|prefix|] == prefix && key[|prefix|] == '/')
  }

  /** The part of `key` below `prefix`. */
  function Rel(prefix: string, key: string): string
    requires Under(prefix, key)
  {
    if prefix == "" then key else key[|prefix| + 1..]
  }

  /** Some component of the relative path starts with '.', so a glob wildcard does not match it. */
  predicate Hidden(rel: string)
  {
    (|rel| > 0 && rel[0] == '.') || exists i :: 0 <= i < |rel| - 1 && rel[i] == '/' && rel[i + 1] == '.'
  }

  /** The path `glob(join(base, prefix) + "/**/*")` reports for the file `key`:
      the listed directory joined with the key's part below it. */
  function ListedPath(base: string, prefix: string, key: string): string
    requires Under(prefix, key)
  {
    JoinPath(JoinPath(base, prefix), Rel(prefix, key))
  }

  /** The error `load` or `delete` raises for a key that is not a file. */
  function FileError(dirs: set<string>, base: string, key: string): StorageError
  {
    if key in dirs then IsADirectory(JoinPath(base, key)) else NotFound(JoinPath(base, key))
  }

  predicate Distinct<T(==)>(s: seq<T>)
  {
    forall i, j :: 0 <= i < j < |s| ==> s[i] != s[j]
  }

  lemma DistinctSnoc<T>(s: seq<T>, x: T)
    requires Distinct(s) && x !in s
    ensures Distinct(s + [x])
  {
  }

  /** A consistent tree: the base directory exists, no name is both a file and a
      directory, and the parents of every file and directory are directories. */
  ghost predicate Tree(files: map<string, seq<byte>>, dirs: set<string>)
  {
    && "" in dirs
    && (forall k :: k in files ==> k !in dirs && Parents(k) <= dirs)
    && (forall d :: d in dirs ==> Parents(d) <= dirs)
  }

  class LocalStorage {
    const basePath: string
    var files: map<string, seq<byte>>
    var dirs: set<string>

    ghost predicate Valid()
      reads this
    {
      Tree(files, dirs)
    }

    /** A storage over a base directory holding `existing` files in `existingDirs`
        directories; the base directory is created if it is missing. */
    constructor (basePath: string, existing: map<string, seq<byte>>, existingDirs: set<string>)
      requires Tree(existing, existingDirs + {""})
      ensures Valid()
      ensures this.basePath == basePath && files == existing && dirs == existingDirs + {""}
    {
      this.basePath := basePath;
      files := existing;
      dirs := existingDirs + {""};
    }

    predicate Exists(key: string)
      reads this
    {
      key in files || key in dirs
    }

    /** `save(data, key)`: writes the file, creating its directories. */
    method Save(data: seq<byte>, key: string) returns (r: Outcome<StorageError>)
      requires Valid()
      modifies this
      ensures Valid()
      ensures r == SaveOutcome(old(files), old(dirs), basePath, key)
      ensures r.Pass? ==> files == old(files)[key := data] && dirs == old(dirs) + Parents(key)
      ensures r.Fail? ==> files == old(files) && dirs == old(dirs)
    {
      if key in dirs {
        return Fail(IsADirectory(JoinPath(basePath, key)));
      }
      if key !in files && exists p :: p in files && DirectlyIn(key, p) {
        return Fail(FileExists(JoinPath(basePath, key)));
      }
      if key !in files && exists p :: p in Parents(key) && p in files {
        return Fail(NotADirectory(JoinPath(basePath, key)));
      }
      SavePreservesTree(files, dirs, basePath, key, data);
      files := files[key := data];
      dirs := dirs + Parents(key);
      return Pass;
    }

    /** `load(key)`. */
    function Load(key: string): (r: Result<seq<byte>, StorageError>)
      reads this
      ensures r.Success? <==> key in files
      ensures r.Success? ==> r.value == files[key]
      ensures r.Failure? ==> r.error == FileError(dirs, basePath, key)
    {
      if key in files then Success(files[key]) else Failure(FileError(dirs, basePath, key))
    }

    /** `delete(key)`: removes one file. */
    method Delete(key: string) returns (r: Outcome<StorageError>)
      requires Valid()
      modifies this
      ensures Valid()
      ensures r.Pass? <==> key in old(files)
      ensures r.Fail? ==> r.error == FileError(old(dirs), basePath, key)
      ensures r.Pass? ==> files == old(files) - {key}
      ensures dirs == old(dirs) && (r.Fail? ==> files == old(files))
    {
      if !Exists(key) {
        return Fail(NotFound(JoinPath(basePath, key)));
      }
      if key in dirs {
        return Fail(IsADirectory(JoinPath(basePath, key)));
      }
      files := files - {key};
      return Pass;
    }

    /** The files `list(prefix)` reports: every file below `prefix` reached without
        passing a hidden component. */
    function ListedKeys(prefix: string): set<string>
      reads this
    {
      set k | k in files && Under(prefix, k) && !Hidden(Rel(prefix, k))
    }

    /** `paths` reports the files `keys` below `prefix`, one for one. */
    ghost predicate ListedAs(prefix: string, paths: seq<string>, keys: seq<string>)
    {
      |paths| == |keys| && forall i :: 0 <= i < |keys| ==> Under(prefix, keys[i]) && paths[i] == ListedPath(basePath, prefix, keys[i])
    }

    lemma ListedAsSnoc(prefix: string, paths: seq<string>, keys: seq<string>, k: string)
      requires ListedAs(prefix, paths, keys) && Under(prefix, k)
      ensures ListedAs(prefix, paths + [ListedPath(basePath, prefix, k)], keys + [k])
    {
    }

    /** `list(prefix)`: the paths of the listed files, in no particular order,
        each exactly once. */
    method List(prefix: string) returns (r: Result<seq<string>, StorageError>, ghost keys: seq<string>)
      requires Valid()
      ensures r.Failure? <==> !Exists(prefix)
      ensures r.Failure? ==> r.error == NotFound(JoinPath(basePath, prefix))
      ensures r.Success? ==>
        && |keys| == |r.value|
        && Distinct(keys)
        && (forall k :: k in keys <==> k in ListedKeys(prefix))
        && (forall i :: 0 <= i < |keys| ==> Under(prefix, keys[i]) && r.value[i] == ListedPath(basePath, prefix, keys[i]))
    {
      if !Exists(prefix) {
        return Failure(NotFound(JoinPath(basePath, prefix))), [];
      }
      var paths: seq<string> := [];
      keys := [];
      var rest := ListedKeys(prefix);
      while rest != {}
        invariant rest <= ListedKeys(prefix)
        invariant forall k :: k in keys <==> k in ListedKeys(prefix) && k !in rest
        invariant Distinct(keys) && ListedAs(prefix, paths, keys)
        decreases |rest|
      {
        var k :| k in rest;
        ListedAsSnoc(prefix, paths, keys, k);
        DistinctSnoc(keys, k);
        paths := paths + [ListedPath(basePath, prefix, k)];
        keys := keys + [k];
        rest := rest - {k};
      }
      return Success(paths), keys;
    }
  }

  /** `p` is everything before the last '/' of `key`: the directory
      `os.path.dirname` gives for the file at `key`. */
  predicate DirectlyIn(key: string, p: string)
  {
    |p| < |key| && key[..|p|] == p && key[|p|] == '/' && '/' !in key[|p| + 1..]
  }

  /** What `save` does to a given tree: it fails on a directory; when a file
      stands where the key's own directory is needed, `os.makedirs` finds it
      existing; when a file stands higher up, creating the directory below it
      fails because it is not a directory. */
  function SaveOutcome(files: map<string, seq<byte>>, dirs: set<string>, base: string, key: string): Outcome<StorageError>
  {
    if key in dirs then Fail(IsADirectory(JoinPath(base, key)))
    else if key !in files && exists p :: p in files && DirectlyIn(key, p) then Fail(FileExists(JoinPath(base, key)))
    else if key !in files && exists p :: p in Parents(key) && p in files then Fail(NotADirectory(JoinPath(base, key)))
    else Pass
  }

  /** A key directly in a file fails with `FileExists`, and one further below
      with `NotADirectory`: "a/b" and "a/b/c" over the file "a". */
  lemma SaveBelowFile(files: map<string, seq<byte>>, dirs: set<string>, base: string)
    requires "a" in files && "a/b" !in files && "a/b/c" !in files && "a/b" !in dirs && "a/b/c" !in dirs
    requires forall p :: p in files ==> p == "a" || '/' in p
    ensures SaveOutcome(files, dirs, base, "a/b") == Fail(FileExists(JoinPath(base, "a/b")))
    ensures SaveOutcome(files, dirs, base, "a/b/c") == Fail(NotADirectory(JoinPath(base, "a/b/c")))
  {
    assert DirectlyIn("a/b", "a");
    assert "a" in Parents("a/b/c") by {
      assert "a/b/c"[1] == '/' && "a/b/c"[..1] == "a";
    }
    forall p | p in files
      ensures !DirectlyIn("a/b/c", p)
    {
      if |p| == 3 {
        assert "a/b/c"[..3] == "a/b";
      }
    }
  }

  /** The parents of a key's parents are among its parents. */
  lemma ParentsOfParents(key: string, p: string)
    requires p in Parents(key)
    ensures Parents(p) <= Parents(key)
  {
    forall q | q in Parents(p)
      ensures q in Parents(key)
    {
      if q != "" {
        var j :| 0 <= j < |p| && p[j] == '/' && q == p[..j];
        var i :| 0 <= i < |key| && key[i] == '/' && p == key[..i];
        assert key[j] == '/';
        assert q == key[..j];
      }
    }
  }

  lemma ParentsClosed(key: string, dirs: set<string>)
    requires forall d :: d in dirs ==> Parents(d) <= dirs
    ensures forall d :: d in dirs + Parents(key) ==> Parents(d) <= dirs + Parents(key)
  {
    forall d | d in dirs + Parents(key)
      ensures Parents(d) <= dirs + Parents(key)
    {
      if d in Parents(key) {
        ParentsOfParents(key, d);
      }
    }
  }

  /** A successful save keeps the tree consistent. */
  lemma SavePreservesTree(files: map<string, seq<byte>>, dirs: set<string>, base: string, key: string, data: seq<byte>)
    requires Tree(files, dirs) && SaveOutcome(files, dirs, base, key).Pass?
    ensures Tree(files[key := data], dirs + Parents(key))
  {
    ParentsClosed(key, dirs);
  }
}
