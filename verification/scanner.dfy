/** The filesystem scanner: given the table of objects the engine already
    tracks, it computes the batch of `Read`, `Update` and `Delete` actions
    that bring the engine up to date with the filesystem. The filesystem,
    the `glob` crate, UTF-8 conversion of paths and the metadata comparison
    are oracles; paths are modelled as on Unix. */
module FilesystemScanner {
  import opened Wrappers

  /** A Unix path: its OS string, an arbitrary byte sequence. */
  datatype Path = Path(bytes: Bytes)

  /** The key of an object in the cache: its path, encoded as bytes. */
  type ObjectKey = Bytes

  /** `path_from_bytes` on Unix. */
  function PathFromBytes(b: Bytes): Path
  {
    Path(b)
  }

  /** `path_to_bytes` on Unix. */
  function PathToBytes(p: Path): Bytes
  {
    p.bytes
  }

  /** On Unix object keys and paths convert into each other without loss. */
  lemma PathBytesRoundTrip(b: Bytes, p: Path)
    ensures PathToBytes(PathFromBytes(b)) == b
    ensures PathFromBytes(PathToBytes(p)) == p
  {
  }

  /** What `std::fs::metadata` reports for an existing path. */
  datatype FsMetadata = FsMetadata(isFile: bool, size: nat, modified: int)

  /** `FileLikeMetadata::from_fs_meta(path, metadata)`. */
  datatype FileLikeMetadata = FileLikeMetadata(path: Path, fsMetadata: FsMetadata)

  datatype IoErrorKind = NotFound | OtherIoError

  datatype ReadError = Io(kind: IoErrorKind) | GlobPattern

  datatype QueuedAction =
    | Read(key: ObjectKey, metadata: FileLikeMetadata)
    | Update(key: ObjectKey, metadata: FileLikeMetadata)
    | Delete(key: ObjectKey)

  /** The filesystem as `std::fs::metadata` sees it during one scan: the
      paths that resolve, and the paths whose lookup fails with an error
      other than NotFound (permissions, I/O). */
  datatype Filesystem = Filesystem(nodes: map<Path, FsMetadata>, failing: set<Path>)

  /** `std::fs::metadata(path)`. */
  function Stat(fs: Filesystem, p: Path): Result<FsMetadata, IoErrorKind>
  {
    if p in fs.failing then Failure(OtherIoError)
    else if p in fs.nodes then Success(fs.nodes[p])
    else Failure(NotFound)
  }

  /** `Path::is_file`: false whenever the lookup fails. */
  predicate IsFile(fs: Filesystem, p: Path)
  {
    Stat(fs, p).Success? && Stat(fs, p).value.isFile
  }

  /** The current metadata of an object whose lookup succeeds. */
  function CurrentMetadata(fs: Filesystem, p: Path): FileLikeMetadata
    requires Stat(fs, p).Success?
  {
    FileLikeMetadata(p, Stat(fs, p).value)
  }

  /** Everything the scanner consults besides the cache. */
  datatype Oracles = Oracles(
    fs: Filesystem,
    /** `glob::glob(pattern)` followed by `flatten()`: `None` when the
        pattern is rejected; entries the crate could not read are already
        dropped. */
    glob: string -> Option<seq<Path>>,
    /** `Path::to_str`: `None` for a path that is not valid Unicode. */
    toStr: Path -> Option<string>,
    /** `FileLikeMetadata::is_changed(stored, actual)`. */
    isChanged: (FileLikeMetadata, FileLikeMetadata) -> bool)

  /** `FilesystemScanner`: the root glob and the object-name pattern used
      below every directory the root glob matches. */
  datatype Scanner = Scanner(pattern: string, objectPattern: string)

  /** `FilesystemScanner::new`: fails only when the root glob is rejected. */
  function NewScanner(path: string, objectPattern: string, isValidGlob: string -> bool): (r: Result<Scanner, ReadError>)
    ensures r.Success? <==> isValidGlob(path)
    ensures r.Failure? ==> r.error == GlobPattern
    ensures r.Success? ==> r.value.pattern == path && r.value.objectPattern == objectPattern
  {
    if isValidGlob(path) then Success(Scanner(path, objectPattern)) else Failure(GlobPattern)
  }

  /** `CachedObjectStorage`: the last accepted metadata of every tracked
      object, and the order in which `get_iter` visits the entries. */
  datatype CachedObjectStorage = CachedObjectStorage(
    entries: map<ObjectKey, FileLikeMetadata>,
    iterationOrder: seq<ObjectKey>)
  {
    /** The iteration visits every entry exactly once. */
    predicate Valid()
    {
      && (forall i, j :: 0 <= i < j < |iterationOrder| ==> iterationOrder[i] != iterationOrder[j])
      && (forall k :: k in entries ==> k in iterationOrder)
      && (forall k :: k in iterationOrder ==> k in entries)
    }

    predicate ContainsObject(key: ObjectKey)
    {
      key in entries
    }
  }

  predicate Distinct<T(==)>(s: seq<T>)
  {
    forall i, j :: 0 <= i < j < |s| ==> s[i] != s[j]
  }

  /** No two actions of the batch concern the same object. */
  predicate AtMostOneActionPerKey(actions: seq<QueuedAction>)
  {
    forall i, j :: 0 <= i < j < |actions| ==> actions[i].key != actions[j].key
  }

  // ---------------------------------------------------------------------------
  // Point lookup
  // ---------------------------------------------------------------------------

  /** `object_metadata`: `Ok(None)` exactly when the object is not found,
      an error for any other failed lookup, the current metadata otherwise. */
  function ObjectMetadata(o: Oracles, key: ObjectKey): (r: Result<Option<FileLikeMetadata>, ReadError>)
    ensures r == Success(None) <==> PathFromBytes(key) !in o.fs.nodes && PathFromBytes(key) !in o.fs.failing
    ensures r.Failure? <==> PathFromBytes(key) in o.fs.failing
    ensures r.Failure? ==> r.error == Io(OtherIoError)
    ensures r.Success? && r.value.Some? ==>
              PathFromBytes(key) in o.fs.nodes &&
              r.value.value == FileLikeMetadata(PathFromBytes(key), o.fs.nodes[PathFromBytes(key)])
  {
    var path := PathFromBytes(key);
    match Stat(o.fs, path)
    case Success(m) => Success(Some(FileLikeMetadata(path, m)))
    case Failure(kind) => if kind == NotFound then Success(None) else Failure(Io(kind))
  }

  /** `has_pending_actions`: the whole diff is recomputed on every call, so
      nothing is ever left over. */
  function HasPendingActions(s: Scanner): (pending: bool)
    ensures !pending
  {
    false
  }

  // ---------------------------------------------------------------------------
  // Deletion and replacement pass
  // ---------------------------------------------------------------------------

  /** `new_deletion_and_replacement_actions`, over the cache entries in
      iteration order `order`. */
  function DeletionAndReplacementActions(
    o: Oracles,
    entries: map<ObjectKey, FileLikeMetadata>,
    order: seq<ObjectKey>): (r: seq<QueuedAction>)
    requires forall k :: k in order ==> k in entries
    requires Distinct(order)
    ensures forall a :: a in r ==> !a.Read? && a.key in order
    // NotFound gives Delete
    ensures forall k :: Delete(k) in r <==> k in order && Stat(o.fs, PathFromBytes(k)) == Failure(NotFound)
    // a successful lookup gives Update exactly when the metadata changed
    ensures forall a :: a in r && a.Update? ==>
              && Stat(o.fs, PathFromBytes(a.key)).Success?
              && a.metadata == CurrentMetadata(o.fs, PathFromBytes(a.key))
              && o.isChanged(entries[a.key], a.metadata)
    ensures forall k :: k in order && Stat(o.fs, PathFromBytes(k)).Success? &&
                        o.isChanged(entries[k], CurrentMetadata(o.fs, PathFromBytes(k))) ==>
              Update(k, CurrentMetadata(o.fs, PathFromBytes(k))) in r
    // any other lookup error is dropped, not reported
    ensures forall a :: a in r ==> PathFromBytes(a.key) !in o.fs.failing
    ensures AtMostOneActionPerKey(r)
  {
    if |order| == 0 then []
    else
      var key := order[0];
      var rest := DeletionAndReplacementActions(o, entries, order[1..]);
      assert forall k :: k in order <==> k == key || k in order[1..];
      var path := PathFromBytes(key);
      match Stat(o.fs, path)
      case Failure(kind) =>
        if kind == NotFound then [Delete(key)] + rest else rest
      case Success(m) =>
        var actual := FileLikeMetadata(path, m);
        if o.isChanged(entries[key], actual) then [Update(key, actual)] + rest else rest
  }

  // ---------------------------------------------------------------------------
  // Candidate enumeration
  // ---------------------------------------------------------------------------

  // `format!("{path}/**/{object_pattern}")`
  function FolderScanPattern(dir: string, objectPattern: string): string
  {
    dir + "/**/" + objectPattern
  }

  /** The files among `ps`, in order. */
  function FilesOnly(fs: Filesystem, ps: seq<Path>): (r: seq<Path>)
    ensures forall p :: p in r <==> p in ps && IsFile(fs, p)
  {
    if |ps| == 0 then []
    else
      assert forall p :: p in ps <==> p == ps[0] || p in ps[1..];
      (if IsFile(fs, ps[0]) then [ps[0]] else []) + FilesOnly(fs, ps[1..])
  }

  /** The directory expansion of a root-glob match `e` is attempted: it is not
      a file and its path is Unicode. */
  predicate Expanded(o: Oracles, e: Path)
  {
    !IsFile(o.fs, e) && o.toStr(e).Some?
  }

  /** The glob result for the directory expansion of `e`. */
  function Expansion(o: Oracles, objectPattern: string, e: Path): Option<seq<Path>>
    requires Expanded(o, e)
  {
    o.glob(FolderScanPattern(o.toStr(e).value, objectPattern))
  }

  /** Some expansion of a root-glob match is a rejected pattern. */
  predicate SomeExpansionRejected(o: Oracles, objectPattern: string, entries: seq<Path>)
  {
    exists e :: e in entries && Expanded(o, e) && Expansion(o, objectPattern, e).None?
  }

  /** `p` is a candidate: a file matched by the root glob, or a file found
      by expanding a non-file, Unicode root-glob match. Non-Unicode non-file
      matches contribute nothing. */
  predicate IsCandidate(o: Oracles, objectPattern: string, entries: seq<Path>, p: Path)
  {
    || (p in entries && IsFile(o.fs, p))
    || (IsFile(o.fs, p) &&
        exists e :: e in entries && Expanded(o, e) &&
          var n := Expansion(o, objectPattern, e); n.Some? && p in n.value)
  }

  /** The loop of `get_matching_file_paths` over the root-glob matches. */
  function ExpandEntries(o: Oracles, objectPattern: string, entries: seq<Path>): (r: Result<seq<Path>, ReadError>)
    ensures r.Failure? <==> SomeExpansionRejected(o, objectPattern, entries)
    ensures r.Failure? ==> r.error == GlobPattern
    ensures r.Success? ==> forall p :: p in r.value <==> IsCandidate(o, objectPattern, entries, p)
  {
    if |entries| == 0 then Success([])
    else
      var e := entries[0];
      assert forall x :: x in entries <==> x == e || x in entries[1..];
      var rest := ExpandEntries(o, objectPattern, entries[1..]);
      if IsFile(o.fs, e) then
        if rest.Failure? then rest else Success([e] + rest.value)
      else if o.toStr(e).None? then
        rest
      else
        match Expansion(o, objectPattern, e)
        case None => Failure(GlobPattern)
        case Some(nested) =>
          if rest.Failure? then rest else Success(FilesOnly(o.fs, nested) + rest.value)
  }

  /** `get_matching_file_paths`. */
  function GetMatchingFilePaths(o: Oracles, s: Scanner): (r: Result<seq<Path>, ReadError>)
    ensures r.Failure? <==>
              o.glob(s.pattern).None? || SomeExpansionRejected(o, s.objectPattern, o.glob(s.pattern).value)
    ensures r.Failure? ==> r.error == GlobPattern
    ensures r.Success? ==> forall p :: p in r.value ==> IsFile(o.fs, p)
    ensures r.Success? ==> forall p :: p in r.value <==> IsCandidate(o, s.objectPattern, o.glob(s.pattern).value, p)
  {
    match o.glob(s.pattern)
    case None => Failure(GlobPattern)
    case Some(entries) => ExpandEntries(o, s.objectPattern, entries)
  }

  // ---------------------------------------------------------------------------
  // Insertion pass
  // ---------------------------------------------------------------------------

  /** The loop of `new_insertion_actions` over the candidate paths. */
  function InsertionActions(o: Oracles, cache: CachedObjectStorage, candidates: seq<Path>): (r: seq<QueuedAction>)
    ensures forall a :: a in r ==> a.Read? && !cache.ContainsObject(a.key)
    ensures forall a :: a in r ==>
              && PathFromBytes(a.key) in candidates
              && Stat(o.fs, PathFromBytes(a.key)).Success?
              && a.metadata == CurrentMetadata(o.fs, PathFromBytes(a.key))
    ensures forall c :: c in candidates && !cache.ContainsObject(PathToBytes(c)) && Stat(o.fs, c).Success? ==>
              Read(PathToBytes(c), CurrentMetadata(o.fs, c)) in r
    ensures |r| <= |candidates|
    ensures Distinct(candidates) ==> AtMostOneActionPerKey(r)
  {
    if |candidates| == 0 then []
    else
      var entry := candidates[0];
      assert forall c :: c in candidates <==> c == entry || c in candidates[1..];
      var rest := InsertionActions(o, cache, candidates[1..]);
      var key := PathToBytes(entry);
      if cache.ContainsObject(key) then rest
      else
        match Stat(o.fs, entry)
        case Failure(_) => rest
        case Success(m) => [Read(key, FileLikeMetadata(entry, m))] + rest
  }

  // ---------------------------------------------------------------------------
  // One scan cycle
  // ---------------------------------------------------------------------------

  /** `next_scanner_actions`. */
  function NextScannerActions(o: Oracles, s: Scanner, deletionsEnabled: bool, cache: CachedObjectStorage): (r: Result<seq<QueuedAction>, ReadError>)
    requires cache.Valid()
    // the call fails only when a glob pattern is rejected
    ensures r.Failure? <==> GetMatchingFilePaths(o, s).Failure?
    ensures r.Failure? ==> r.error == GlobPattern
    ensures r.Success? && !deletionsEnabled ==> forall a :: a in r.value ==> a.Read?
    // every Delete/Update precedes every Read
    ensures r.Success? ==> forall i, j :: 0 <= i < j < |r.value| && r.value[i].Read? ==> r.value[j].Read?
    // Delete/Update concern tracked objects, Read untracked ones
    ensures r.Success? ==> forall a :: a in r.value ==> (a.Read? <==> !cache.ContainsObject(a.key))
    ensures r.Success? ==> forall a, b :: a in r.value && b in r.value && a.Read? && !b.Read? ==> a.key != b.key
    ensures r.Success? && deletionsEnabled ==>
              forall k :: Delete(k) in r.value <==> cache.ContainsObject(k) && Stat(o.fs, PathFromBytes(k)) == Failure(NotFound)
    ensures r.Success? ==>
              forall a :: a in r.value && a.Read? ==>
                IsCandidate(o, s.objectPattern, o.glob(s.pattern).value, PathFromBytes(a.key)) &&
                a.metadata == CurrentMetadata(o.fs, PathFromBytes(a.key))
    // every untracked candidate that can be looked up is read
    ensures r.Success? ==>
              forall c :: IsCandidate(o, s.objectPattern, o.glob(s.pattern).value, c) &&
                          !cache.ContainsObject(PathToBytes(c)) && Stat(o.fs, c).Success? ==>
                Read(PathToBytes(c), CurrentMetadata(o.fs, c)) in r.value
    // an Update is only for a tracked object that changed, with its current metadata
    ensures r.Success? ==>
              forall a :: a in r.value && a.Update? ==>
                && deletionsEnabled
                && a.key in cache.entries
                && Stat(o.fs, PathFromBytes(a.key)).Success?
                && a.metadata == CurrentMetadata(o.fs, PathFromBytes(a.key))
                && o.isChanged(cache.entries[a.key], a.metadata)
    // a tracked object gets at most one action
    ensures r.Success? ==> forall i, j :: 0 <= i < j < |r.value| && !r.value[i].Read? ==> r.value[i].key != r.value[j].key
    // a key is read twice only when enumeration repeats its path
    ensures r.Success? && Distinct(GetMatchingFilePaths(o, s).value) ==> AtMostOneActionPerKey(r.value)
    // every tracked object whose metadata changed is updated
    ensures r.Success? && deletionsEnabled ==>
              forall k :: k in cache.entries && Stat(o.fs, PathFromBytes(k)).Success? &&
                          o.isChanged(cache.entries[k], CurrentMetadata(o.fs, PathFromBytes(k))) ==>
                Update(k, CurrentMetadata(o.fs, PathFromBytes(k))) in r.value
  {
    var removals := if deletionsEnabled then DeletionAndReplacementActions(o, cache.entries, cache.iterationOrder) else [];
    match GetMatchingFilePaths(o, s)
    case Failure(e) => Failure(e)
    case Success(candidates) =>
      var insertions := InsertionActions(o, cache, candidates);
      var all := removals + insertions;
      assert forall a :: a in all <==> a in removals || a in insertions;
      assert forall k :: k in cache.entries ==> k in cache.iterationOrder;
      assert forall a :: a in removals ==> cache.ContainsObject(a.key);
      assert Distinct(candidates) ==> AtMostOneActionPerKey(all) by {
        if Distinct(candidates) {
          TrackedThenUntrackedActions(cache, removals, insertions);
        }
      }
      Success(all)
  }

  // ---------------------------------------------------------------------------
  // Applying a batch to the cache
  // ---------------------------------------------------------------------------

  /** The engine's bookkeeping after it accepts an action: `Read` and
      `Update` record the metadata, `Delete` forgets the object. */
  function ApplyAction(entries: map<ObjectKey, FileLikeMetadata>, a: QueuedAction): map<ObjectKey, FileLikeMetadata>
  {
    match a
    case Read(k, m) => entries[k := m]
    case Update(k, m) => entries[k := m]
    case Delete(k) => entries - {k}
  }

  /** The cache entries after the engine accepts a whole batch, in order. */
  function ApplyActions(entries: map<ObjectKey, FileLikeMetadata>, actions: seq<QueuedAction>): map<ObjectKey, FileLikeMetadata>
    decreases |actions|
  {
    if |actions| == 0 then entries else ApplyActions(ApplyAction(entries, actions[0]), actions[1..])
  }

  /** Actions on the same object agree, so the order of the batch does not
      matter. */
  predicate Consistent(actions: seq<QueuedAction>)
  {
    forall i, j :: 0 <= i < |actions| && 0 <= j < |actions| && actions[i].key == actions[j].key ==> actions[i] == actions[j]
  }

  /** The effect of a consistent batch on one object: untouched objects keep
      their entry, a deleted one disappears, a read or updated one gets the
      metadata of its action. */
  lemma {:induction false} ApplyConsistentActions(entries: map<ObjectKey, FileLikeMetadata>, actions: seq<QueuedAction>, k: ObjectKey)
    requires Consistent(actions)
    ensures (forall a :: a in actions ==> a.key != k) ==>
              (k in ApplyActions(entries, actions) <==> k in entries) &&
              (k in entries ==> ApplyActions(entries, actions)[k] == entries[k])
    ensures forall a :: a in actions && a.key == k && a.Delete? ==> k !in ApplyActions(entries, actions)
    ensures forall a :: a in actions && a.key == k && !a.Delete? ==>
              k in ApplyActions(entries, actions) && ApplyActions(entries, actions)[k] == a.metadata
    decreases |actions|
  {
    if |actions| > 0 {
      var rest := actions[1..];
      assert Consistent(rest) by {
        forall i, j | 0 <= i < |rest| && 0 <= j < |rest| && rest[i].key == rest[j].key
          ensures rest[i] == rest[j]
        {
          assert rest[i] == actions[i + 1] && rest[j] == actions[j + 1];
        }
      }
      ApplyConsistentActions(ApplyAction(entries, actions[0]), rest, k);
      forall a | a in actions && a.key == k
        ensures a == actions[0] || a in rest
        ensures actions[0].key == k ==> a == actions[0]
      {
        var i :| 0 <= i < |actions| && actions[i] == a;
        if i > 0 {
          assert rest[i - 1] == a;
        }
      }
      if actions[0].key == k {
        forall a | a in rest && a.key == k
          ensures a == actions[0]
        {
          var i :| 0 <= i < |rest| && rest[i] == a;
          assert actions[i + 1] == a;
        }
      }
    }
  }

  /** The deletion pass is empty when no tracked object is missing
      and none that can be looked up has changed. */
  lemma {:induction false} NoDeletionActions(o: Oracles, entries: map<ObjectKey, FileLikeMetadata>, order: seq<ObjectKey>)
    requires forall k :: k in order ==> k in entries
    requires Distinct(order)
    requires forall k :: k in order ==>
               && Stat(o.fs, PathFromBytes(k)) != Failure(NotFound)
               && (Stat(o.fs, PathFromBytes(k)).Success? ==>
                     !o.isChanged(entries[k], CurrentMetadata(o.fs, PathFromBytes(k))))
    ensures DeletionAndReplacementActions(o, entries, order) == []
  {
    if |order| > 0 {
      assert order[0] in order;
      NoDeletionActions(o, entries, order[1..]);
    }
  }

  /** The insertion pass is empty when every candidate that can be looked
      up is already tracked. */
  lemma {:induction false} NoInsertionActions(o: Oracles, cache: CachedObjectStorage, candidates: seq<Path>)
    requires forall c :: c in candidates && Stat(o.fs, c).Success? ==> cache.ContainsObject(PathToBytes(c))
    ensures InsertionActions(o, cache, candidates) == []
  {
    if |candidates| > 0 {
      assert candidates[0] in candidates;
      NoInsertionActions(o, cache, candidates[1..]);
    }
  }

  lemma ConsistentAppend(x: seq<QueuedAction>, y: seq<QueuedAction>)
    requires Consistent(x) && Consistent(y)
    requires forall a, b :: a in x && b in y ==> a.key != b.key
    ensures Consistent(x + y)
  {
    var z := x + y;
    forall i, j | 0 <= i < |z| && 0 <= j < |z| && z[i].key == z[j].key
      ensures z[i] == z[j]
    {
      assert i < |x| ==> z[i] == x[i] && z[i] in x;
      assert i >= |x| ==> z[i] == y[i - |x|] && z[i] in y;
      assert j < |x| ==> z[j] == x[j] && z[j] in x;
      assert j >= |x| ==> z[j] == y[j - |x|] && z[j] in y;
    }
  }

  /** A successful batch is consistent: a tracked object gets at most one
      action, and every `Read` of an untracked object carries its current
      metadata. */
  lemma ScanIsConsistent(o: Oracles, s: Scanner, deletionsEnabled: bool, cache: CachedObjectStorage)
    requires cache.Valid()
    requires NextScannerActions(o, s, deletionsEnabled, cache).Success?
    ensures Consistent(NextScannerActions(o, s, deletionsEnabled, cache).value)
  {
    var removals := if deletionsEnabled then DeletionAndReplacementActions(o, cache.entries, cache.iterationOrder) else [];
    var insertions := InsertionActions(o, cache, GetMatchingFilePaths(o, s).value);
    assert AtMostOneActionPerKey(removals);
    assert Consistent(insertions) by {
      forall i, j | 0 <= i < |insertions| && 0 <= j < |insertions| && insertions[i].key == insertions[j].key
        ensures insertions[i] == insertions[j]
      {
        assert insertions[i] in insertions && insertions[j] in insertions;
      }
    }
    assert forall a :: a in removals ==> a.key in cache.entries;
    ConsistentAppend(removals, insertions);
  }

  /** After applying a scan with deletions enabled, every candidate that
      can be looked up is tracked. */
  lemma ScanTracksLookedUpCandidates(o: Oracles, s: Scanner, cache: CachedObjectStorage, next: CachedObjectStorage)
    requires cache.Valid()
    requires NextScannerActions(o, s, true, cache).Success?
    requires next.entries == ApplyActions(cache.entries, NextScannerActions(o, s, true, cache).value)
    ensures forall c :: c in GetMatchingFilePaths(o, s).value && Stat(o.fs, c).Success? ==>
              PathToBytes(c) in next.entries
  {
    var first := NextScannerActions(o, s, true, cache).value;
    ScanIsConsistent(o, s, true, cache);
    var candidates := GetMatchingFilePaths(o, s).value;
    var insertions := InsertionActions(o, cache, candidates);
    assert first == DeletionAndReplacementActions(o, cache.entries, cache.iterationOrder) + insertions;
    forall c | c in candidates && Stat(o.fs, c).Success?
      ensures PathToBytes(c) in next.entries
    {
      var k := PathToBytes(c);
      ApplyConsistentActions(cache.entries, first, k);
      assert k !in cache.entries ==> Read(k, CurrentMetadata(o.fs, c)) in insertions;
    }
  }

  /** After applying a scan with deletions enabled, no tracked object is
      missing, and a tracked object that can be looked up is recorded with
      metadata `is_changed` accepts. */
  lemma ScanRecordsCurrentMetadata(o: Oracles, s: Scanner, cache: CachedObjectStorage, next: CachedObjectStorage)
    requires cache.Valid()
    requires forall m :: !o.isChanged(m, m)
    requires NextScannerActions(o, s, true, cache).Success?
    requires next.entries == ApplyActions(cache.entries, NextScannerActions(o, s, true, cache).value)
    ensures forall k :: k in next.entries ==>
              && Stat(o.fs, PathFromBytes(k)) != Failure(NotFound)
              && (Stat(o.fs, PathFromBytes(k)).Success? ==>
                    !o.isChanged(next.entries[k], CurrentMetadata(o.fs, PathFromBytes(k))))
  {
    var first := NextScannerActions(o, s, true, cache).value;
    ScanIsConsistent(o, s, true, cache);
    var candidates := GetMatchingFilePaths(o, s).value;
    var removals := DeletionAndReplacementActions(o, cache.entries, cache.iterationOrder);
    var insertions := InsertionActions(o, cache, candidates);
    assert first == removals + insertions;
    assert forall a :: a in first <==> a in removals || a in insertions;
    forall k | k in next.entries
      ensures Stat(o.fs, PathFromBytes(k)) != Failure(NotFound)
      ensures Stat(o.fs, PathFromBytes(k)).Success? ==>
                !o.isChanged(next.entries[k], CurrentMetadata(o.fs, PathFromBytes(k)))
    {
      ApplyConsistentActions(cache.entries, first, k);
      assert k in cache.entries ==> k in cache.iterationOrder;
    }
  }

  /** Once the engine has applied a batch computed with deletions enabled,
      scanning the same filesystem again finds nothing to do, provided
      `is_changed` never reports a change between equal metadata. */
  lemma ScanConverges(o: Oracles, s: Scanner, cache: CachedObjectStorage, next: CachedObjectStorage)
    requires cache.Valid() && next.Valid()
    requires forall m :: !o.isChanged(m, m)
    requires NextScannerActions(o, s, true, cache).Success?
    requires next.entries == ApplyActions(cache.entries, NextScannerActions(o, s, true, cache).value)
    ensures NextScannerActions(o, s, true, next) == Success([])
  {
    ScanTracksLookedUpCandidates(o, s, cache, next);
    ScanRecordsCurrentMetadata(o, s, cache, next);
    var candidates := GetMatchingFilePaths(o, s).value;
    var removals := DeletionAndReplacementActions(o, next.entries, next.iterationOrder);
    var insertions := InsertionActions(o, next, candidates);
    NoDeletionActions(o, next.entries, next.iterationOrder);
    NoInsertionActions(o, next, candidates);
    assert removals == [];
    assert insertions == [];
    assert NextScannerActions(o, s, true, next) == Success(removals + insertions);
    assert removals + insertions == [];
  }

  // ---------------------------------------------------------------------------
  // Repeated candidates
  // ---------------------------------------------------------------------------

  // The root glob `data/**/*` matches both the directory `data/d` and the
  // file `data/d/f` inside it; expanding `data/d` with `data/d/**/*` finds
  // `data/d/f` again, and one call emits two `Read` actions for the same
  // object.

  const ExampleRoot := Path([100, 97, 116, 97])                      // "data"
  const ExampleDir := Path([100, 97, 116, 97, 47, 100])              // "data/d"
  const ExampleFile := Path([100, 97, 116, 97, 47, 100, 47, 102])    // "data/d/f"
  const ExampleFileMetadata := FsMetadata(true, 3, 0)
  const ExampleFs := Filesystem(map[ExampleRoot := FsMetadata(false, 0, 0),
                                    ExampleDir := FsMetadata(false, 0, 0),
                                    ExampleFile := ExampleFileMetadata], {})
  const ExampleScanner := Scanner("data/**/*", "*")

  function ExampleGlob(pattern: string): Option<seq<Path>>
  {
    if pattern == "data/**/*" then Some([ExampleDir, ExampleFile])
    else if pattern == "data/d/**/*" then Some([ExampleFile])
    else Some([])
  }

  function ExampleToStr(p: Path): Option<string>
  {
    if p == ExampleRoot then Some("data")
    else if p == ExampleDir then Some("data/d")
    else if p == ExampleFile then Some("data/d/f")
    else None
  }

  function ExampleIsChanged(stored: FileLikeMetadata, actual: FileLikeMetadata): bool
  {
    stored != actual
  }

  function ExampleOracles(): Oracles
  {
    Oracles(ExampleFs, ExampleGlob, ExampleToStr, ExampleIsChanged)
  }

  lemma RepeatedCandidateGivesTwoReads()
    ensures
      var r := NextScannerActions(ExampleOracles(), ExampleScanner, true, CachedObjectStorage(map[], []));
      var read := Read(ExampleFile.bytes, FileLikeMetadata(ExampleFile, ExampleFileMetadata));
      && r == Success([read, read])
      && !AtMostOneActionPerKey(r.value)
  {
    var o := ExampleOracles();
    var dir, file := ExampleDir, ExampleFile;
    assert FolderScanPattern("data/d", "*") == "data/d/**/*";
    assert !IsFile(o.fs, dir) && IsFile(o.fs, file);
    assert Expanded(o, dir);
    assert Expansion(o, "*", dir) == Some([file]);
    assert [dir, file][1..] == [file];
    assert [file][1..] == [];
    assert ExpandEntries(o, "*", []) == Success([]);
    assert [file] + [] == [file];
    assert ExpandEntries(o, "*", [file]) == Success([file]);
    assert FilesOnly(o.fs, [file]) == [file];
    assert [file] + [file] == [file, file];
    assert ExpandEntries(o, "*", [dir, file]) == Success([file, file]);
    assert GetMatchingFilePaths(o, ExampleScanner) == Success([file, file]);
    var empty := CachedObjectStorage(map[], []);
    assert DeletionAndReplacementActions(o, map[], []) == [];
    var read := Read(file.bytes, FileLikeMetadata(file, ExampleFileMetadata));
    assert [file, file][1..] == [file];
    assert InsertionActions(o, empty, []) == [];
    assert InsertionActions(o, empty, [file]) == [read];
    assert InsertionActions(o, empty, [file, file]) == [read, read];
    assert [] + [read, read] == [read, read];
    var r := NextScannerActions(o, ExampleScanner, true, empty);
    assert r == Success([read, read]);
    assert r.value[0].key == r.value[1].key;
  }

  /** The paths of `ps` with later repetitions dropped. */
  function WithoutRepetitions(ps: seq<Path>): (r: seq<Path>)
    ensures Distinct(r)
    ensures forall p :: p in r <==> p in ps
  {
    if |ps| == 0 then []
    else
      var init := WithoutRepetitions(ps[..|ps| - 1]);
      var last := ps[|ps| - 1];
      assert forall p :: p in ps <==> p in ps[..|ps| - 1] || p == last;
      if last in init then init else init + [last]
  }

  /** `next_scanner_actions` with repeated candidate paths dropped before
      the insertion pass: the same actions, each object at most once. */
  function NextScannerActionsWithoutRepetitions(o: Oracles, s: Scanner, deletionsEnabled: bool, cache: CachedObjectStorage): (r: Result<seq<QueuedAction>, ReadError>)
    requires cache.Valid()
    ensures r.Success? <==> NextScannerActions(o, s, deletionsEnabled, cache).Success?
    ensures r.Success? ==> AtMostOneActionPerKey(r.value)
    ensures r.Success? ==> forall a :: a in r.value <==> a in NextScannerActions(o, s, deletionsEnabled, cache).value
  {
    var removals := if deletionsEnabled then DeletionAndReplacementActions(o, cache.entries, cache.iterationOrder) else [];
    match GetMatchingFilePaths(o, s)
    case Failure(e) => Failure(e)
    case Success(candidates) =>
      var unique := WithoutRepetitions(candidates);
      var insertions := InsertionActions(o, cache, unique);
      InsertionActionsDependOnlyOnCandidateSet(o, cache, unique, candidates);
      TrackedThenUntrackedActions(cache, removals, insertions);
      var all := removals + insertions;
      assert forall a :: a in all <==> a in removals || a in insertions;
      Success(all)
  }

  /** The insertion pass produces the same set of actions for two candidate
      lists with the same elements. */
  lemma InsertionActionsDependOnlyOnCandidateSet(o: Oracles, cache: CachedObjectStorage, c1: seq<Path>, c2: seq<Path>)
    requires forall p :: p in c1 <==> p in c2
    ensures forall a :: a in InsertionActions(o, cache, c1) <==> a in InsertionActions(o, cache, c2)
  {
    var r1 := InsertionActions(o, cache, c1);
    var r2 := InsertionActions(o, cache, c2);
    forall a | a in r1 || a in r2
      ensures a in r1 && a in r2
    {
      var c := PathFromBytes(a.key);
      assert a == Read(PathToBytes(c), CurrentMetadata(o.fs, c));
    }
  }

  /** A batch of distinct actions on tracked objects followed by a batch of
      distinct actions on untracked objects touches every object at most once. */
  lemma TrackedThenUntrackedActions(cache: CachedObjectStorage, tracked: seq<QueuedAction>, untracked: seq<QueuedAction>)
    requires AtMostOneActionPerKey(tracked) && AtMostOneActionPerKey(untracked)
    requires forall a :: a in tracked ==> cache.ContainsObject(a.key)
    requires forall a :: a in untracked ==> !cache.ContainsObject(a.key)
    ensures AtMostOneActionPerKey(tracked + untracked)
  {
    var all := tracked + untracked;
    forall i, j | 0 <= i < j < |all|
      ensures all[i].key != all[j].key
    {
      if i < |tracked| && j >= |tracked| {
        assert all[i] in tracked && all[j] in untracked;
      } else if i >= |tracked| {
        assert all[i] == untracked[i - |tracked|] && all[j] == untracked[j - |tracked|];
      }
    }
  }
}
