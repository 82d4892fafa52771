/** The filesystem key-value persistence backend: logical `/`-separated
    keys are stored as files under a root directory, and a value is
    committed by writing a sibling temporary file and renaming it over the
    final file. The directory tree is a map from paths to file contents;
    directory enumeration (`glob`), UTF-8 conversion of paths and directory
    creation are oracles. Paths follow Unix conventions. */
module FilesystemKvStorage {
  import opened Wrappers
  import opened Strings

  const TEMPORARY_OBJECT_SUFFIX: string := ".tmp"

  /** A path as the sequence of its components. An absolute path starts with
      an empty component, so that joining the components with `/` renders
      it (`["", "data", "x"]` is `/data/x`). */
  type Path = seq<string>

  /** The path as a string, `Path::to_str` when it is Unicode. */
  function PathStr(p: Path): string
  {
    Join(p, '/')
  }

  /** The `std::io::ErrorKind`s the model distinguishes; `OtherIo` stands for
      every failure the model does not derive from the directory tree. */
  datatype IoErrorKind = NotFound | IsADirectory | NotADirectory | InvalidData | OtherIo

  datatype Error = PathIsNotUtf8 | Pattern | Io(kind: IoErrorKind)

  /** The files of the directory tree and their contents; directories are
      implied by the paths of the files. */
  datatype Disk = Disk(files: map<Path, Bytes>)

  /** `FilesystemKVStorage`: the root directory and the glob that lists
      every entry below it. */
  datatype Storage = Storage(rootPath: Path, rootGlobPattern: string)

  // ---------------------------------------------------------------------------
  // Construction
  // ---------------------------------------------------------------------------

  // The root with `\` turned into `/`, followed by the any-depth wildcard
  // and the any-name wildcard.
  function RootGlobPattern(root: Path): string
  {
    Replace(PathStr(root), '\\', '/') + "/**/*"
  }

  /** `FilesystemKVStorage::new`. `rootIsUtf8` is whether `to_str` succeeds
      on the root, `isValidGlob` stands for `GlobPattern::new`, and
      `createsRoot` for the outcome of `ensure_directory(root)`. */
  function New(root: Path, rootIsUtf8: bool, isValidGlob: string -> bool, createsRoot: bool): (r: Result<Storage, Error>)
    ensures !rootIsUtf8 ==> r == Failure(PathIsNotUtf8)
    ensures r.Success? <==> rootIsUtf8 && isValidGlob(RootGlobPattern(root)) && createsRoot
    ensures rootIsUtf8 && !isValidGlob(RootGlobPattern(root)) ==> r == Failure(Pattern)
    ensures rootIsUtf8 && isValidGlob(RootGlobPattern(root)) && !createsRoot ==> r == Failure(Io(OtherIo))
    ensures r.Success? ==>
              && r.value.rootPath == root
              && EndsWith(r.value.rootGlobPattern, "/**/*")
              && '\\' !in r.value.rootGlobPattern
              && ('\\' !in PathStr(root) ==> r.value.rootGlobPattern == PathStr(root) + "/**/*")
  {
    if !rootIsUtf8 then Failure(PathIsNotUtf8)
    else
      var pattern := RootGlobPattern(root);
      if !isValidGlob(pattern) then Failure(Pattern)
      else if !createsRoot then Failure(Io(OtherIo))
      else
        EndsWithAppended(Replace(PathStr(root), '\\', '/'), "/**/*");
        var r := Success(Storage(root, pattern));
        if '\\' !in PathStr(root) then ReplaceAbsent(PathStr(root), '\\', '/'); r else r
  }

  // ---------------------------------------------------------------------------
  // Keys and paths
  // ---------------------------------------------------------------------------

  /** The non-empty parts, in order. */
  function NonEmpty(parts: seq<string>): (r: seq<string>)
    ensures forall i :: 0 <= i < |r| ==> r[i] != ""
    ensures forall x :: x in r <==> x in parts && x != ""
    ensures |r| <= |parts|
  {
    if |parts| == 0 then []
    else
      assert forall x :: x in parts <==> x == parts[0] || x in parts[1..];
      (if parts[0] == "" then [] else [parts[0]]) + NonEmpty(parts[1..])
  }

  lemma {:induction false} NonEmptyConcat(a: seq<string>, b: seq<string>)
    ensures NonEmpty(a + b) == NonEmpty(a) + NonEmpty(b)
  {
    if |a| > 0 {
      assert (a + b)[1..] == a[1..] + b;
      NonEmptyConcat(a[1..], b);
    } else {
      assert a + b == b;
    }
  }

  lemma {:induction false} NonEmptyIdentity(parts: seq<string>)
    requires forall i :: 0 <= i < |parts| ==> parts[i] != ""
    ensures NonEmpty(parts) == parts
  {
    if |parts| > 0 {
      NonEmptyIdentity(parts[1..]);
    }
  }

  /** The components of a key: its non-empty `/`-separated parts. */
  function KeyComponents(key: string): (cs: seq<string>)
    ensures forall i :: 0 <= i < |cs| ==> cs[i] != "" && '/' !in cs[i]
  {
    var parts := Split(key, '/');
    var cs := NonEmpty(parts);
    assert forall i :: 0 <= i < |cs| ==> cs[i] in parts;
    cs
  }

  /** `key_to_path`: the root joined with each non-empty component of the key. */
  function KeyToPath(root: Path, key: string): Path
  {
    root + KeyComponents(key)
  }

  /** The key with empty components removed: what a key looks like when it is
      listed back. */
  function CanonicalKey(key: string): string
  {
    Join(KeyComponents(key), '/')
  }

  /** The path of a key is the root followed by the key's non-empty
      components, which contain no separator. */
  lemma KeyToPathIsBelowRoot(root: Path, key: string)
    ensures |KeyToPath(root, key)| == |root| + |KeyComponents(key)|
    ensures KeyToPath(root, key)[..|root|] == root
    ensures forall i :: |root| <= i < |KeyToPath(root, key)| ==>
              KeyToPath(root, key)[i] != "" && '/' !in KeyToPath(root, key)[i]
  {
    var p := KeyToPath(root, key);
    assert p[..|root|] == root;
    forall i | |root| <= i < |p|
      ensures p[i] != "" && '/' !in p[i]
    {
      assert p[i] == KeyComponents(key)[i - |root|];
    }
  }

  /** A slash splits a key into the components of either side. */
  lemma KeyComponentsAround(a: string, b: string)
    ensures KeyComponents(a + "/" + b) == KeyComponents(a) + KeyComponents(b)
  {
    assert a + "/" + b == a + ['/'] + b;
    SplitAround(a, b, '/');
    NonEmptyConcat(Split(a, '/'), Split(b, '/'));
  }

  lemma EmptyKeyHasNoComponents()
    ensures KeyComponents("") == []
  {
    assert Split("", '/') == [""];
  }

  /** Leading, trailing and doubled slashes do not change the path of a key. */
  lemma KeyToPathIgnoresExtraSlashes(root: Path, a: string, b: string)
    ensures KeyToPath(root, "/" + a) == KeyToPath(root, a)
    ensures KeyToPath(root, a + "/") == KeyToPath(root, a)
    ensures KeyToPath(root, a + "//" + b) == KeyToPath(root, a + "/" + b)
  {
    EmptyKeyHasNoComponents();
    KeyComponentsAround("", a);
    assert "" + "/" + a == "/" + a;
    KeyComponentsAround(a, "");
    assert a + "/" + "" == a + "/";
    KeyComponentsAround(a, "/" + b);
    assert a + "/" + ("/" + b) == a + "//" + b;
    KeyComponentsAround("", b);
    assert "" + "/" + b == "/" + b;
    KeyComponentsAround(a, b);
  }

  /** The components of a canonical key are those of the key itself. */
  lemma CanonicalKeyComponents(key: string)
    ensures KeyComponents(CanonicalKey(key)) == KeyComponents(key)
  {
    var cs := KeyComponents(key);
    if |cs| == 0 {
      assert Split("", '/') == [""];
    } else {
      SplitJoin(cs, '/');
      NonEmptyIdentity(cs);
    }
  }

  /** Two keys name the same file exactly when their canonical forms agree. */
  lemma SamePathIffSameCanonicalKey(root: Path, k1: string, k2: string)
    ensures KeyToPath(root, k1) == KeyToPath(root, k2) <==> CanonicalKey(k1) == CanonicalKey(k2)
  {
    CanonicalKeyComponents(k1);
    CanonicalKeyComponents(k2);
    if KeyToPath(root, k1) == KeyToPath(root, k2) {
      assert KeyComponents(k1) == KeyToPath(root, k1)[|root|..];
      assert KeyComponents(k2) == KeyToPath(root, k2)[|root|..];
    }
  }

  // ---------------------------------------------------------------------------
  // Temporary file names
  // ---------------------------------------------------------------------------

  /** The position of the last `c` in `s`. */
  function LastIndexOf(s: string, c: char): (r: Option<nat>)
    ensures r.Some? ==> r.value < |s| && s[r.value] == c && c !in s[r.value + 1..]
    ensures r.None? ==> c !in s
  {
    if |s| == 0 then None
    else if s[|s| - 1] == c then Some(|s| - 1)
    else
      var r := LastIndexOf(s[..|s| - 1], c);
      assert s == s[..|s| - 1] + [s[|s| - 1]];
      if r.Some? then
        assert s[r.value + 1..] == s[..|s| - 1][r.value + 1..] + [s[|s| - 1]];
        r
      else r
  }

  /** Rust's file stem and extension of a file name: split at the last dot,
      unless that dot is the first character or the name is `..`. */
  function StemAndExtension(name: string): (string, Option<string>)
  {
    if name == ".." then (name, None)
    else
      match LastIndexOf(name, '.')
      case None => (name, None)
      case Some(i) => if i == 0 then (name, None) else (name[..i], Some(name[i + 1..]))
  }

  /** Rust's `Path::file_name`: none for an empty path, for the root, and for
      a path ending in `..`. */
  function FileName(p: Path): Option<string>
  {
    if |p| == 0 || p[|p| - 1] == "" || p[|p| - 1] == ".." then None else Some(p[|p| - 1])
  }

  /** The name `with_extension` gives a file when the temporary extension is
      the old extension followed by `.tmp`, or `.tmp` when there is none. */
  function TempFileName(name: string): string
  {
    var (stem, extension) := StemAndExtension(name);
    var newExtension := match extension
      case Some(e) => e + TEMPORARY_OBJECT_SUFFIX
      case None => TEMPORARY_OBJECT_SUFFIX;
    stem + "." + newExtension
  }

  /** A name with an extension `e` gets `.tmp` appended; a name without one
      gets `..tmp` appended, because `.tmp` is itself used as the new
      extension. Either way the name ends in `.tmp` and differs from the
      original. */
  lemma TempFileNameShape(name: string)
    ensures StemAndExtension(name).1.Some? ==> TempFileName(name) == name + ".tmp"
    ensures StemAndExtension(name).1.None? ==> TempFileName(name) == name + "..tmp"
    ensures EndsWith(TempFileName(name), TEMPORARY_OBJECT_SUFFIX)
    ensures TempFileName(name) != name
  {
    var (stem, extension) := StemAndExtension(name);
    if extension.Some? {
      var i := LastIndexOf(name, '.').value;
      assert name == name[..i] + "." + name[i + 1..];
      assert TempFileName(name) == name[..i] + "." + (name[i + 1..] + ".tmp");
      EndsWithAppended(name, ".tmp");
    } else {
      EndsWithAppended(name + ".", ".tmp");
      assert name + "..tmp" == (name + ".") + ".tmp";
    }
    assert |TempFileName(name)| > |name|;
  }

  /** The temporary path `put_value` derives with `with_extension`. */
  function TempPath(finalPath: Path): (tmp: Path)
    ensures FileName(finalPath).None? ==> tmp == finalPath
    ensures FileName(finalPath).Some? ==>
              && |tmp| == |finalPath|
              && tmp[..|tmp| - 1] == finalPath[..|finalPath| - 1]
              && EndsWith(tmp[|tmp| - 1], TEMPORARY_OBJECT_SUFFIX)
              && IsTemporary(tmp)
              && tmp != finalPath
  {
    match FileName(finalPath)
    case None => finalPath
    case Some(name) =>
      var tmp := finalPath[..|finalPath| - 1] + [TempFileName(name)];
      TempFileNameShape(name);
      JoinEndsWithLast(tmp, '/');
      EndsWithTransitive(PathStr(tmp), tmp[|tmp| - 1], TEMPORARY_OBJECT_SUFFIX);
      assert tmp[|tmp| - 1] != finalPath[|finalPath| - 1];
      tmp
  }

  /** The test `list_keys` uses to recognise temporary files. */
  predicate IsTemporary(p: Path)
  {
    EndsWith(PathStr(p), TEMPORARY_OBJECT_SUFFIX)
  }

  /** The empty key names the root itself. When the root has a file name,
      the temporary file of a `put` on the empty key is a sibling of the
      root, outside it. */
  lemma EmptyKeyTempFileIsOutsideRoot(root: Path)
    requires FileName(root).Some?
    ensures KeyToPath(root, "") == root
    ensures !IsUnder(root, TempPath(KeyToPath(root, "")))
    ensures TempPath(KeyToPath(root, ""))[..|root| - 1] == root[..|root| - 1]
  {
    EmptyKeyHasNoComponents();
    assert KeyToPath(root, "") == root;
  }

  // ---------------------------------------------------------------------------
  // get_value, remove_key
  // ---------------------------------------------------------------------------

  /** `p` names a directory: the root, which `new` creates, or a proper
      ancestor of a stored file. */
  predicate IsDirectory(st: Storage, disk: Disk, p: Path)
  {
    p == st.rootPath || exists f :: f in disk.files && |p| < |f| && f[..|p|] == p
  }

  /** A proper ancestor of `p` is a stored file, so resolving `p` fails
      before its last component is reached. */
  predicate BelowFile(disk: Disk, p: Path)
  {
    exists i :: 0 <= i < |p| && p[..i] in disk.files
  }

  /** The error of reading or removing a path that holds no file. */
  function LookupError(st: Storage, disk: Disk, p: Path): IoErrorKind
  {
    if BelowFile(disk, p) then NotADirectory
    else if IsDirectory(st, disk, p) then IsADirectory
    else NotFound
  }

  /** `get_value`: the contents of the key's file. */
  function GetValue(st: Storage, disk: Disk, key: string): (r: Result<Bytes, Error>)
    ensures r.Success? <==> KeyToPath(st.rootPath, key) in disk.files
    ensures r.Success? ==> r.value == disk.files[KeyToPath(st.rootPath, key)]
    ensures r.Failure? ==> r.error.Io?
    // a path through a file fails during resolution
    ensures r.Failure? ==> (r.error.kind == NotADirectory <==> BelowFile(disk, KeyToPath(st.rootPath, key)))
    ensures r.Failure? ==>
              (r.error.kind == IsADirectory <==>
                 !BelowFile(disk, KeyToPath(st.rootPath, key)) && IsDirectory(st, disk, KeyToPath(st.rootPath, key)))
    ensures r.Failure? ==>
              (r.error.kind == NotFound <==>
                 !BelowFile(disk, KeyToPath(st.rootPath, key)) && !IsDirectory(st, disk, KeyToPath(st.rootPath, key)))
  {
    var path := KeyToPath(st.rootPath, key);
    if path in disk.files then Success(disk.files[path]) else Failure(Io(LookupError(st, disk, path)))
  }

  /** `remove_key`: deletes the key's file, failing when there is none. */
  function RemoveKey(st: Storage, disk: Disk, key: string): (r: (Result<(), Error>, Disk))
    ensures r.0.Success? <==> KeyToPath(st.rootPath, key) in disk.files
    // removing fails exactly as reading the key does, and changes nothing
    ensures r.0.Failure? ==> GetValue(st, disk, key).Failure? && r.0.error == GetValue(st, disk, key).error && r.1 == disk
    ensures GetValue(st, r.1, key).Failure?
    ensures forall p :: p != KeyToPath(st.rootPath, key) ==>
              (p in r.1.files <==> p in disk.files) && (p in r.1.files ==> r.1.files[p] == disk.files[p])
  {
    var path := KeyToPath(st.rootPath, key);
    if path in disk.files then (Success(()), Disk(disk.files - {path}))
    else (Failure(Io(LookupError(st, disk, path))), disk)
  }

  /** The empty key names the root itself, a directory, so reading or
      removing it fails with `IsADirectory`. */
  lemma EmptyKeyIsTheRootDirectory(st: Storage, disk: Disk)
    requires st.rootPath !in disk.files && !BelowFile(disk, st.rootPath)
    ensures GetValue(st, disk, "") == Failure(Io(IsADirectory))
    ensures RemoveKey(st, disk, "") == (Failure(Io(IsADirectory)), disk)
  {
    EmptyKeyHasNoComponents();
    assert KeyToPath(st.rootPath, "") == st.rootPath;
  }

  /** A key whose components begin those of a stored key names a directory
      once the stored file exists: reading it fails with `IsADirectory`. */
  lemma {:induction false} ParentKeyIsADirectory(st: Storage, disk: Disk, parent: string, key: string)
    requires KeyToPath(st.rootPath, key) in disk.files
    requires |KeyComponents(parent)| < |KeyComponents(key)|
    requires KeyComponents(key)[..|KeyComponents(parent)|] == KeyComponents(parent)
    requires KeyToPath(st.rootPath, parent) !in disk.files
    requires !BelowFile(disk, KeyToPath(st.rootPath, parent))
    ensures GetValue(st, disk, parent) == Failure(Io(IsADirectory))
  {
    var p := KeyToPath(st.rootPath, parent);
    var f := KeyToPath(st.rootPath, key);
    assert f[..|p|] == p;
    assert IsDirectory(st, disk, p);
  }

  // ---------------------------------------------------------------------------
  // put_value: write the temporary file, then rename it
  // ---------------------------------------------------------------------------

  /** How far `put_value` gets before it stops, through an I/O error or
      because the process dies. */
  datatype PutProgress =
    | ParentNotCreated          // `ensure_directory(parent)` failed
    | TempNotCreated            // `File::create(temp)` failed
    | TempWritten(written: nat) // the temporary file holds the first `written` bytes
    | NotRenamed                // the whole value is in the temporary file, the rename did not happen
    | Renamed                   // the rename committed the value

  predicate ValidProgress(progress: PutProgress, value: Bytes)
  {
    progress.TempWritten? ==> progress.written <= |value|
  }

  /** The directory tree when a `put` of `value` on `finalPath` stops at
      `progress`: the bytes go to the temporary file, and only the rename
      reaches the final path. */
  function PutDisk(disk: Disk, finalPath: Path, value: Bytes, progress: PutProgress): (r: Disk)
    requires ValidProgress(progress, value)
    // before the rename the final file is as it was
    ensures FileName(finalPath).Some? && progress != Renamed ==>
              (finalPath in r.files <==> finalPath in disk.files) &&
              (finalPath in r.files ==> r.files[finalPath] == disk.files[finalPath])
    // the temporary file holds a prefix of the value while it is written
    ensures progress.TempWritten? || progress == NotRenamed ==>
              TempPath(finalPath) in r.files && r.files[TempPath(finalPath)] <= value
    // the rename moves the complete value and leaves no temporary file behind
    ensures progress == Renamed ==>
              finalPath in r.files && r.files[finalPath] == value &&
              (FileName(finalPath).Some? ==> TempPath(finalPath) !in r.files)
  {
    var tmp := TempPath(finalPath);
    match progress
    case ParentNotCreated => disk
    case TempNotCreated => disk
    case TempWritten(n) => Disk(disk.files[tmp := value[..n]])
    case NotRenamed => Disk(disk.files[tmp := value])
    case Renamed => Disk((disk.files - {tmp})[finalPath := value])
  }

  /** `put_value` followed by waiting for its future: the outcome and the
      directory tree it leaves behind. */
  function PutValue(st: Storage, disk: Disk, key: string, value: Bytes, progress: PutProgress): (r: (Result<(), Error>, Disk))
    requires ValidProgress(progress, value)
    ensures r.0.Success? <==> progress == Renamed
    ensures r.0.Failure? ==> r.0.error == Io(OtherIo)
    // a failure to create the parent directory writes nothing
    ensures progress == ParentNotCreated ==> r.1 == disk
    // the value reaches the key after a successful put
    ensures progress == Renamed ==> GetValue(st, r.1, key) == Success(value)
    // the final file holds the old complete value, or none, or the new complete value
    ensures FileName(KeyToPath(st.rootPath, key)).Some? ==>
              var f := KeyToPath(st.rootPath, key);
              || (f in r.1.files && r.1.files[f] == value)
              || (f in disk.files && f in r.1.files && r.1.files[f] == disk.files[f])
              || (f !in disk.files && f !in r.1.files)
    // only the final and the temporary file are touched
    ensures forall p :: p != KeyToPath(st.rootPath, key) && p != TempPath(KeyToPath(st.rootPath, key)) ==>
              (p in r.1.files <==> p in disk.files) && (p in r.1.files ==> r.1.files[p] == disk.files[p])
  {
    var finalPath := KeyToPath(st.rootPath, key);
    var after := PutDisk(disk, finalPath, value, progress);
    if progress == Renamed then (Success(()), after) else (Failure(Io(OtherIo)), after)
  }

  /** After a successful `put(key, value)`, reading the key returns `value`
      across any `put` or `remove` of a key naming another file, as long as
      the key's own file does not look temporary (otherwise another key's
      temporary file can be this key's file). */
  lemma ValueSurvivesOtherWrites(st: Storage, disk: Disk, key: string, value: Bytes,
                                 other: string, otherValue: Bytes, progress: PutProgress)
    requires ValidProgress(progress, otherValue)
    requires KeyToPath(st.rootPath, other) != KeyToPath(st.rootPath, key)
    requires !IsTemporary(KeyToPath(st.rootPath, key))
    ensures var afterPut := PutValue(st, disk, key, value, Renamed).1;
            && GetValue(st, PutValue(st, afterPut, other, otherValue, progress).1, key) == Success(value)
            && GetValue(st, RemoveKey(st, afterPut, other).1, key) == Success(value)
  {
    var otherPath := KeyToPath(st.rootPath, other);
    assert FileName(otherPath).Some? ==> IsTemporary(TempPath(otherPath));
  }

  // ---------------------------------------------------------------------------
  // list_keys
  // ---------------------------------------------------------------------------

  /** `strip_prefix(root)` succeeds. */
  predicate IsUnder(root: Path, p: Path)
  {
    |root| <= |p| && p[..|root|] == root
  }

  /** An entry the listing loop keeps up to the `strip_prefix` step: a
      regular file with a Unicode path not ending in `.tmp`. */
  predicate KeptEntry(disk: Disk, isUtf8: Path -> bool, e: Path)
  {
    e in disk.files && isUtf8(e) && !IsTemporary(e)
  }

  /** The entries whose keys `list_keys` reports, in glob order; fails when
      a kept entry is not below the root. */
  function ListedEntries(root: Path, disk: Disk, entries: seq<Path>, isUtf8: Path -> bool): (r: Result<seq<Path>, Error>)
    ensures r.Failure? <==> exists e :: e in entries && KeptEntry(disk, isUtf8, e) && !IsUnder(root, e)
    ensures r.Failure? ==> r.error == Io(InvalidData)
    ensures r.Success? ==> forall e :: e in r.value <==>
              e in entries && KeptEntry(disk, isUtf8, e) && IsUnder(root, e) && isUtf8(e[|root|..])
  {
    if |entries| == 0 then Success([])
    else
      var e := entries[0];
      assert forall x :: x in entries <==> x == e || x in entries[1..];
      if !KeptEntry(disk, isUtf8, e) then ListedEntries(root, disk, entries[1..], isUtf8)
      else if !IsUnder(root, e) then Failure(Io(InvalidData))
      else
        var rest := ListedEntries(root, disk, entries[1..], isUtf8);
        if rest.Failure? then rest
        else if isUtf8(e[|root|..]) then Success([e] + rest.value)
        else rest
  }

  /** The key `list_keys` reports for an entry: the relative path with `\`
      turned into `/`. */
  function EntryKey(root: Path, e: Path): string
    requires IsUnder(root, e)
  {
    Replace(PathStr(e[|root|..]), '\\', '/')
  }

  /** `list_keys`. `listing` is the result of `glob` on the root pattern
      (`None` when the pattern is rejected). */
  function ListKeys(st: Storage, disk: Disk, listing: Option<seq<Path>>, isUtf8: Path -> bool): (r: Result<seq<string>, Error>)
    ensures listing.None? ==> r == Failure(Pattern)
    ensures listing.Some? ==> (r.Success? <==> ListedEntries(st.rootPath, disk, listing.value, isUtf8).Success?)
    ensures r.Success? ==>
              var listed := ListedEntries(st.rootPath, disk, listing.value, isUtf8).value;
              |r.value| == |listed| &&
              forall i :: 0 <= i < |listed| ==> IsUnder(st.rootPath, listed[i]) && r.value[i] == EntryKey(st.rootPath, listed[i])
  {
    match listing
    case None => Failure(Pattern)
    case Some(entries) =>
      match ListedEntries(st.rootPath, disk, entries, isUtf8)
      case Failure(e) => Failure(e)
      case Success(listed) =>
        Success(seq(|listed|, i requires 0 <= i < |listed| => EntryKey(st.rootPath, listed[i])))
  }

  /** `listing` is what `glob` reports for the root pattern of an
      unambiguous root: every file below the root, and nothing elsewhere. */
  predicate FaithfulListing(root: Path, disk: Disk, listing: seq<Path>)
  {
    && (forall p :: p in disk.files && IsUnder(root, p) ==> p in listing)
    && (forall e :: e in listing ==> IsUnder(root, e))
  }

  // ---------------------------------------------------------------------------
  // Properties of the protocol
  // ---------------------------------------------------------------------------

  /** At every point where a `put` can stop, the temporary file is never
      listed, and a listed entry is never a temporary one. */
  lemma TemporaryFileNeverListed(st: Storage, disk: Disk, key: string, value: Bytes, progress: PutProgress,
                                 entries: seq<Path>, isUtf8: Path -> bool)
    requires ValidProgress(progress, value)
    requires FileName(KeyToPath(st.rootPath, key)).Some?
    ensures var after := PutValue(st, disk, key, value, progress).1;
            var listed := ListedEntries(st.rootPath, after, entries, isUtf8);
            listed.Success? ==>
              && TempPath(KeyToPath(st.rootPath, key)) !in listed.value
              && forall e :: e in listed.value ==> !IsTemporary(e)
  {
  }

  /** A key whose file name ends in `.tmp` is stored, and readable, but
      never listed. */
  lemma TemporaryLookingKeyNeverListed(st: Storage, disk: Disk, key: string, entries: seq<Path>, isUtf8: Path -> bool)
    requires |KeyComponents(key)| > 0
    requires EndsWith(KeyComponents(key)[|KeyComponents(key)| - 1], TEMPORARY_OBJECT_SUFFIX)
    ensures var listed := ListedEntries(st.rootPath, disk, entries, isUtf8);
            listed.Success? ==> KeyToPath(st.rootPath, key) !in listed.value
  {
    var p := KeyToPath(st.rootPath, key);
    JoinEndsWithLast(p, '/');
    EndsWithTransitive(PathStr(p), p[|p| - 1], TEMPORARY_OBJECT_SUFFIX);
  }

  lemma JoinWithoutChar(parts: seq<string>, sep: char, c: char)
    requires c != sep
    requires forall i :: 0 <= i < |parts| ==> c !in parts[i]
    ensures c !in Join(parts, sep)
  {
    if |parts| > 1 {
      JoinWithoutChar(parts[1..], sep, c);
    }
  }

  /** After a successful `put(key, value)`, a complete listing reports the
      key in canonical form, provided the key has a component, contains no
      `\`, and its file name does not end in `.tmp`. */
  lemma {:induction false} PutThenListKeys(st: Storage, disk: Disk, key: string, value: Bytes, listing: seq<Path>, isUtf8: Path -> bool)
    requires |KeyComponents(key)| > 0
    requires '\\' !in key
    requires !IsTemporary(KeyToPath(st.rootPath, key))
    requires isUtf8(KeyToPath(st.rootPath, key)) && isUtf8(KeyComponents(key))
    requires FaithfulListing(st.rootPath, PutValue(st, disk, key, value, Renamed).1, listing)
    ensures var keys := ListKeys(st, PutValue(st, disk, key, value, Renamed).1, Some(listing), isUtf8);
            keys.Success? && CanonicalKey(key) in keys.value
  {
    var root := st.rootPath;
    var after := PutValue(st, disk, key, value, Renamed).1;
    var f := KeyToPath(root, key);
    assert f in after.files;
    var listed := ListedEntries(root, after, listing, isUtf8);
    assert listed.Success?;
    KeyToPathIsBelowRoot(root, key);
    assert f in listed.value;
    var i :| 0 <= i < |listed.value| && listed.value[i] == f;
    var keys := ListKeys(st, after, Some(listing), isUtf8);
    assert f[|root|..] == KeyComponents(key);
    var cs := KeyComponents(key);
    assert forall j :: 0 <= j < |cs| ==> '\\' !in cs[j] by {
      forall j | 0 <= j < |cs|
        ensures '\\' !in cs[j]
      {
        var parts := Split(key, '/');
        assert cs[j] in parts;
        var m :| 0 <= m < |parts| && parts[m] == cs[j];
        JoinContainsPart(parts, '/', m);
      }
    }
    JoinWithoutChar(cs, '/', '\\');
    ReplaceAbsent(CanonicalKey(key), '\\', '/');
    assert keys.value[i] == CanonicalKey(key);
  }

  /** Every character of a piece occurs in the joined string. */
  lemma {:induction false} JoinContainsPart(parts: seq<string>, sep: char, m: int)
    requires 0 <= m < |parts|
    ensures forall c :: c in parts[m] ==> c in Join(parts, sep)
  {
    if |parts| > 1 && m > 0 {
      JoinContainsPart(parts[1..], sep, m - 1);
    }
  }

  // ---------------------------------------------------------------------------
  // Listing without separator rewriting
  // ---------------------------------------------------------------------------

  /** The directory tree a Unix filesystem can hold below the root: every
      component is a non-empty name without `/`. */
  predicate UnixTree(root: Path, disk: Disk)
  {
    forall p, i :: p in disk.files && IsUnder(root, p) && |root| <= i < |p| ==> p[i] != "" && '/' !in p[i]
  }

  // A file `r/a\b` below the root `r`.
  const ExampleRoot: Path := ["r"]
  const BackslashEntry: Path := ["r", "a\\b"]

  const ExampleDisk: Disk := Disk(map[BackslashEntry := [1]])
  const ExampleStorage: Storage := Storage(ExampleRoot, "r/**/*")

  function AllUtf8(p: Path): bool { true }

  lemma BackslashEntryListed()
    ensures ListedEntries(ExampleRoot, ExampleDisk, [BackslashEntry], AllUtf8) == Success([BackslashEntry])
  {
    assert PathStr(BackslashEntry) == "r/a\\b";
    assert !IsTemporary(BackslashEntry);
    assert KeptEntry(ExampleDisk, AllUtf8, BackslashEntry);
    assert IsUnder(ExampleRoot, BackslashEntry);
    assert ListedEntries(ExampleRoot, ExampleDisk, [BackslashEntry][1..], AllUtf8) == Success([]);
    assert [BackslashEntry] + [] == [BackslashEntry];
  }

  lemma BackslashEntryKey()
    ensures EntryKey(ExampleRoot, BackslashEntry) == "a/b"
  {
    assert BackslashEntry[|ExampleRoot|..] == ["a\\b"];
    assert Replace("a\\b", '\\', '/') == "a/b";
  }

  lemma SlashKeyPath()
    ensures KeyToPath(ExampleRoot, "a/b") == ["r", "a", "b"]
  {
    KeyComponentsAround("a", "b");
    assert "a" + "/" + "b" == "a/b";
    SplitWithoutSeparator("a", '/');
    SplitWithoutSeparator("b", '/');
  }

  /** A `\` in a file name is listed as `/`, so the listed key names a
      different file: `r/a\b` lists as `a/b`, whose path is `r/a/b`. */
  lemma BackslashNameListsAsAnotherKey()
    ensures ListKeys(ExampleStorage, ExampleDisk, Some([BackslashEntry]), AllUtf8) == Success(["a/b"])
    ensures GetValue(ExampleStorage, ExampleDisk, "a/b") == Failure(Io(NotFound))
  {
    BackslashEntryListed();
    BackslashEntryKey();
    SlashKeyPath();
    assert ExampleStorage.rootPath == ExampleRoot;
    var keys := ListKeys(ExampleStorage, ExampleDisk, Some([BackslashEntry]), AllUtf8);
    assert keys.Success? && |keys.value| == 1 && keys.value[0] == "a/b";
    assert keys.value == ["a/b"];
    assert ["r", "a", "b"] != BackslashEntry;
    assert !BelowFile(ExampleDisk, ["r", "a", "b"]) by {
      assert ["r", "a", "b"][..0] == [] && ["r", "a", "b"][..1] == ["r"] && ["r", "a", "b"][..2] == ["r", "a"];
      assert ExampleDisk.files.Keys == {BackslashEntry};
    }
    assert !IsDirectory(ExampleStorage, ExampleDisk, ["r", "a", "b"]) by {
      assert ExampleDisk.files.Keys == {BackslashEntry};
    }
  }

  /** The key of an entry as its relative path, unchanged. */
  function UnixEntryKey(root: Path, e: Path): string
    requires IsUnder(root, e)
  {
    PathStr(e[|root|..])
  }

  /** `list_keys` without the `\` rewriting: the relative path is the key. */
  function ListKeysUnix(st: Storage, disk: Disk, listing: Option<seq<Path>>, isUtf8: Path -> bool): (r: Result<seq<string>, Error>)
    ensures listing.None? ==> r == Failure(Pattern)
    ensures listing.Some? ==> (r.Success? <==> ListedEntries(st.rootPath, disk, listing.value, isUtf8).Success?)
    ensures r.Success? ==>
              var listed := ListedEntries(st.rootPath, disk, listing.value, isUtf8).value;
              |r.value| == |listed| &&
              forall i :: 0 <= i < |listed| ==> IsUnder(st.rootPath, listed[i]) && r.value[i] == UnixEntryKey(st.rootPath, listed[i])
  {
    match listing
    case None => Failure(Pattern)
    case Some(entries) =>
      match ListedEntries(st.rootPath, disk, entries, isUtf8)
      case Failure(e) => Failure(e)
      case Success(listed) =>
        Success(seq(|listed|, i requires 0 <= i < |listed| => UnixEntryKey(st.rootPath, listed[i])))
  }

  /** The key of a relative path with well-formed components leads back to
      the same path. */
  lemma UnixEntryKeyLeadsBack(root: Path, e: Path)
    requires IsUnder(root, e)
    requires forall i :: |root| <= i < |e| ==> e[i] != "" && '/' !in e[i]
    ensures KeyToPath(root, UnixEntryKey(root, e)) == e
  {
    var rel := e[|root|..];
    assert forall i :: 0 <= i < |rel| ==> rel[i] == e[|root| + i];
    if |rel| == 0 {
      EmptyKeyHasNoComponents();
    } else {
      SplitJoin(rel, '/');
      NonEmptyIdentity(rel);
    }
    assert e == root + rel;
  }

  /** Every key the corrected listing reports reads back the contents of
      the file it was listed for. */
  lemma ListedKeysReadBack(st: Storage, disk: Disk, listing: seq<Path>, isUtf8: Path -> bool)
    requires UnixTree(st.rootPath, disk)
    ensures var keys := ListKeysUnix(st, disk, Some(listing), isUtf8);
            keys.Success? ==>
              var listed := ListedEntries(st.rootPath, disk, listing, isUtf8).value;
              forall i :: 0 <= i < |keys.value| ==> GetValue(st, disk, keys.value[i]) == Success(disk.files[listed[i]])
  {
    var keys := ListKeysUnix(st, disk, Some(listing), isUtf8);
    if keys.Success? {
      var listed := ListedEntries(st.rootPath, disk, listing, isUtf8).value;
      forall i | 0 <= i < |keys.value|
        ensures GetValue(st, disk, keys.value[i]) == Success(disk.files[listed[i]])
      {
        assert listed[i] in listed;
        UnixEntryKeyLeadsBack(st.rootPath, listed[i]);
      }
    }
  }

  /** The corrected listing agrees with `list_keys` wherever no file name
      below the root contains `\`. */
  lemma ListingsAgreeWithoutBackslash(st: Storage, disk: Disk, listing: Option<seq<Path>>, isUtf8: Path -> bool)
    requires forall p, i :: p in disk.files && IsUnder(st.rootPath, p) && |st.rootPath| <= i < |p| ==> '\\' !in p[i]
    ensures ListKeysUnix(st, disk, listing, isUtf8) == ListKeys(st, disk, listing, isUtf8)
  {
    if listing.Some? {
      var listed := ListedEntries(st.rootPath, disk, listing.value, isUtf8);
      if listed.Success? {
        var a := ListKeysUnix(st, disk, listing, isUtf8).value;
        var b := ListKeys(st, disk, listing, isUtf8).value;
        forall i | 0 <= i < |listed.value|
          ensures a[i] == b[i]
        {
          var e := listed.value[i];
          assert e in listed.value;
          var rel := e[|st.rootPath|..];
          assert forall j :: 0 <= j < |rel| ==> rel[j] == e[|st.rootPath| + j];
          JoinWithoutChar(rel, '/', '\\');
          ReplaceAbsent(PathStr(rel), '\\', '/');
        }
        assert a == b;
      }
    }
  }
}
