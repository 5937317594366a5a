/** The in-memory file system used in the browser: one table from path to
    file text, updated in place by the save and delete operations and read
    by the existence test, the loaders and the directory listing. */
module WebFileSystem {
  import opened Basics

  /** The prefix `listFilesInDir` matches: the directory path with a
      trailing '/' added unless it already ends in one. */
  function DirPrefix(dirPath: string): (r: string)
    ensures |r| > 0 && r[|r| - 1] == '/'
    ensures dirPath <= r && |r| <= |dirPath| + 1
  {
    if |dirPath| > 0 && dirPath[|dirPath| - 1] == '/' then dirPath else dirPath + "/"
  }

  /** Normalising twice is normalising once. */
  lemma DirPrefixIdempotent(dirPath: string)
    ensures DirPrefix(DirPrefix(dirPath)) == DirPrefix(dirPath)
  {
  }

  /** A directory named with or without its trailing '/' lists the same
      files, as long as the name did not already end in '/'. */
  lemma TrailingSlashIgnored(dirPath: string)
    requires |dirPath| == 0 || dirPath[|dirPath| - 1] != '/'
    ensures DirPrefix(dirPath + "/") == DirPrefix(dirPath)
  {
    assert (dirPath + "/")[|dirPath|] == '/';
  }

  /** With a name that already ends in '/', one more '/' changes the prefix:
      "a/" lists "a/x" and "a//" does not. */
  lemma DoubledSlashDiffers()
    ensures DirPrefix("a/") == "a/" && DirPrefix("a//") == "a//"
    ensures "a/" <= "a/x" && !("a//" <= "a/x")
  {
    assert "a/x"[2] != "a//"[2];
  }

  /** The `filter` callback of `listFilesInDir`. */
  function StartsWith(prefix: string): string -> bool {
    (f: string) => prefix <= f
  }

  /** The callback `deleteFile`'s removal amounts to on the key order. */
  function IsNot(path: string): string -> bool {
    (f: string) => f != path
  }

  predicate Distinct(s: seq<string>) {
    forall i, j :: 0 <= i < j < |s| ==> s[i] != s[j]
  }

  /** Filtering a list without repetitions keeps it without repetitions. */
  lemma {:induction false} FilterDistinct(s: seq<string>, p: string -> bool)
    requires Distinct(s)
    ensures Distinct(Filter(s, p))
  {
    if s != [] {
      var tail := s[1..];
      assert Distinct(tail);
      FilterDistinct(tail, p);
      var f := Filter(tail, p);
      if p(s[0]) {
        assert Filter(s, p) == [s[0]] + f;
        forall j | 0 < j < |[s[0]] + f| ensures ([s[0]] + f)[0] != ([s[0]] + f)[j] {
          assert f[j - 1] in tail;
        }
      } else {
        assert Filter(s, p) == f;
      }
    }
  }

  /** The key order lists each stored path once. */
  ghost predicate Consistent(files: map<string, string>, keys: seq<string>) {
    && Distinct(keys)
    && (forall path :: path in files <==> path in keys)
  }

  /** A call that either returned a value or threw a TypeError. */
  datatype Call<T> = Returns(value: T) | Throws

  /** The key whose assignment on a plain object goes to the prototype
      setter: a string value is ignored and no own key is created. */
  const ProtoKey: string := "__proto__"

  /** The key whose own property, once stored, hides the method that
      `fileExists` calls on the table. */
  const HasOwnKey: string := "hasOwnProperty"

  /** The module-level `files` object: `files` holds its own keys. `keys`
      is the order `Object.keys` reports: insertion order of the paths. */
  class FileTable {
    var files: map<string, string>
    var keys: seq<string>

    /** `keys` lists each stored path once, and no save ever creates the
        own key `__proto__`. */
    ghost predicate Valid()
      reads this
    {
      Consistent(files, keys) && ProtoKey !in files
    }

    constructor()
      ensures files == map[] && keys == []
      ensures Valid()
    {
      files := map[];
      keys := [];
    }

    /** A stored text under the key `hasOwnProperty` hides the inherited
        method, so `files.hasOwnProperty(...)` calls a string. */
    predicate Shadowed()
      reads this
    {
      HasOwnKey in files
    }

    /** `fileExists`: whether the path is an own key of the table; throws
        while the method is hidden. */
    function FileExists(path: string): (r: Call<bool>)
      reads this
      ensures r.Throws? <==> Shadowed()
      ensures r.Returns? ==> (r.value <==> path in files)
    {
      if Shadowed() then Throws else Returns(path in files)
    }

    /** `loadMarkdown`: the stored text, or null for an absent path. */
    function LoadMarkdown(path: string): (r: Call<Option<string>>)
      reads this
      ensures r.Throws? <==> FileExists(path).Throws?
      ensures r.Returns? ==> (r.value.None? <==> !FileExists(path).value)
      ensures r.Returns? && r.value.Some? ==> r.value.value == files[path]
    {
      match FileExists(path)
      case Throws => Throws
      case Returns(exists_) => Returns(if exists_ then Some(files[path]) else None)
    }

    /** `loadJSON`: null for an absent path, otherwise the stored text,
        whose parsing is not modelled. */
    function LoadJSON(path: string): (r: Call<Option<string>>)
      reads this
      ensures r.Throws? <==> FileExists(path).Throws?
      ensures r.Returns? ==> (r.value.None? <==> !FileExists(path).value)
      ensures r.Returns? && r.value.Some? ==> r.value.value == files[path]
    {
      match FileExists(path)
      case Throws => Throws
      case Returns(exists_) => if !exists_ then Returns(None) else Returns(Some(files[path]))
    }

    /** `files[path] = text`, shared by both savers: store the text under the
        path, replacing any previous content, with a new path added at the
        end of the key order; under `__proto__` nothing is stored. */
    method Store(path: string, text: string)
      requires Valid()
      modifies this
      ensures files == if path == ProtoKey then old(files) else old(files)[path := text]
      ensures keys == if path == ProtoKey || path in old(files) then old(keys) else old(keys) + [path]
      ensures Valid()
      ensures Shadowed() <==> old(Shadowed()) || path == HasOwnKey
      ensures !Shadowed() ==> LoadMarkdown(path) == Returns(if path == ProtoKey then None else Some(text))
      ensures path != HasOwnKey ==> forall q :: q != path ==> LoadMarkdown(q) == old(LoadMarkdown(q))
      ensures path == HasOwnKey ==> forall q :: LoadMarkdown(q).Throws?
    {
      if path == ProtoKey {
        return;
      }
      if path !in files {
        keys := keys + [path];
      }
      files := files[path := text];
    }

    /** `saveMarkdown`: the text is stored as given. */
    method SaveMarkdown(path: string, markdown: string)
      requires Valid()
      modifies this
      ensures files == if path == ProtoKey then old(files) else old(files)[path := markdown]
      ensures keys == if path == ProtoKey || path in old(files) then old(keys) else old(keys) + [path]
      ensures Valid()
      ensures !Shadowed() ==> LoadMarkdown(path) == Returns(if path == ProtoKey then None else Some(markdown))
      ensures path != HasOwnKey ==> forall q :: q != path ==> LoadMarkdown(q) == old(LoadMarkdown(q))
      ensures path == HasOwnKey ==> forall q :: LoadMarkdown(q).Throws?
    {
      Store(path, markdown);
    }

    /** `saveJSON`, with the serialised text given: the value is stored as
        an opaque string. */
    method SaveJSON(path: string, data: string)
      requires Valid()
      modifies this
      ensures files == if path == ProtoKey then old(files) else old(files)[path := data]
      ensures keys == if path == ProtoKey || path in old(files) then old(keys) else old(keys) + [path]
      ensures Valid()
      ensures !Shadowed() ==> LoadJSON(path) == Returns(if path == ProtoKey then None else Some(data))
      ensures path != HasOwnKey ==> forall q :: q != path ==> LoadJSON(q) == old(LoadJSON(q))
      ensures path == HasOwnKey ==> forall q :: LoadJSON(q).Throws?
    {
      Store(path, data);
    }

    /** `deleteFile`: remove the path if present; nothing else changes,
        except that deleting `hasOwnProperty` makes the loads work again. */
    method DeleteFile(path: string)
      requires Valid()
      modifies this
      ensures files == old(files) - {path}
      ensures keys == Filter(old(keys), IsNot(path))
      ensures Valid()
      ensures Shadowed() <==> old(Shadowed()) && path != HasOwnKey
      ensures !Shadowed() ==> FileExists(path) == Returns(false) && LoadMarkdown(path) == Returns(None)
      ensures path != HasOwnKey ==> forall q :: q != path ==> LoadMarkdown(q) == old(LoadMarkdown(q))
    {
      DeleteKeepsConsistent(files, keys, path);
      files := files - {path};
      keys := Filter(keys, IsNot(path));
    }

    /** `listFilesInDir`: the stored paths under the directory, in key
        order, including those in nested directories. It reads the keys
        only, so a hidden `hasOwnProperty` does not affect it. */
    function ListFilesInDir(dirPath: string): (r: seq<string>)
      requires Valid()
      reads this
      ensures forall f :: f in r <==> f in files && DirPrefix(dirPath) <= f
      ensures Distinct(r)
    {
      FilterDistinct(keys, StartsWith(DirPrefix(dirPath)));
      Filter(keys, StartsWith(DirPrefix(dirPath)))
    }

    /** Files in nested directories are listed with their ancestors: a
        stored path anywhere below the directory is listed, and so is every
        file the listing of a subdirectory reports. */
    lemma NestedFilesListed(dirPath: string, rest: string)
      requires Valid() && DirPrefix(dirPath) + rest in files
      ensures DirPrefix(dirPath) + rest in ListFilesInDir(dirPath)
      ensures forall f :: f in ListFilesInDir(DirPrefix(dirPath) + rest) ==> f in ListFilesInDir(dirPath)
    {
      forall f | f in ListFilesInDir(DirPrefix(dirPath) + rest)
        ensures DirPrefix(dirPath) <= f
      {
        assert DirPrefix(dirPath) <= DirPrefix(dirPath) + rest <= DirPrefix(DirPrefix(dirPath) + rest) <= f;
      }
    }
  }

  /** Removing a path from the table and from the key order keeps the two
      in step; removing an absent path leaves the key order as it is. */
  lemma DeleteKeepsConsistent(files: map<string, string>, keys: seq<string>, path: string)
    requires Consistent(files, keys)
    ensures Consistent(files - {path}, Filter(keys, IsNot(path)))
    ensures path !in files ==> Filter(keys, IsNot(path)) == keys
  {
    FilterAll(keys, IsNot(path));
    FilterDistinct(keys, IsNot(path));
    var f := Filter(keys, IsNot(path));
    forall q | q in keys && q != path ensures q in f {
      var k :| 0 <= k < |keys| && keys[k] == q;
    }
  }

  /** A filter that every element passes keeps the list as it is. */
  lemma {:induction false} FilterAll(s: seq<string>, p: string -> bool)
    ensures (forall k :: 0 <= k < |s| ==> p(s[k])) ==> Filter(s, p) == s
  {
    if s != [] {
      FilterAll(s[1..], p);
    }
  }
}
