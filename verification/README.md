# Pathway change detection and filesystem persistence, in Dafny

This project models three sequential pieces of the Pathway engine and proves properties of them.

- **The filesystem scanner** (module `FilesystemScanner`, `scanner.dfy`). It computes one batch of change actions. It compares the objects the engine already tracks (`CachedObjectStorage`) with what `stat` and `glob` report now. The batch holds `Delete` for tracked objects that are gone and `Update` for tracked objects whose metadata changed. It holds `Read` for files matched by the root glob, or found below a matched directory, that are not tracked yet.
- **The filesystem key-value backend** (module `FilesystemKvStorage`, `kv_storage.dfy`). It stores `/`-separated keys as files under a root directory. A value is committed by writing a sibling temporary file (`.tmp`) and renaming it over the final file. `list_keys` reports every regular file below the root except temporary ones, and skips entries whose path is not UTF-8.
- **Telemetry configuration helpers** (module `Telemetry`, `telemetry.dfy`). They cover:
  - `deduplicate`;
  - `root_trace_id`, which reads the trace id of a W3C Trace Context `traceparent` value;
  - the `Config::create` decision table;
  - the server lists and service namespace chosen by `Config::create_enabled`;
  - the `FILETIME` conversion `filetime_to_seconds`.

Shared definitions live in `wrappers.dfy` (`Option`, `Result`, bytes) and `strings.dfy`. The latter holds Rust's `str::split` and its inverse join, character replacement, suffix tests, and the code-point order on strings that `sorted()` uses.

The operating system and libraries enter as data or oracles:
- the filesystem is a map from paths to metadata, or from paths to contents;
- `glob` is a function from a pattern to an optional list of matches;
- `Path::to_str` is a function saying whether a path is Unicode;
- `FileLikeMetadata::is_changed` is an uninterpreted predicate;
- license entitlements are a predicate;
- environment variables and fresh UUIDs are inputs.

`put_value` is modelled by the point at which it stops (`PutProgress`): before creating the parent directory, before creating the temporary file, after writing part of the value, before the rename, or after it. The last point is the successful end; each earlier point is an I/O error or a crash.

The engine's side of the scanner protocol is modelled as `ApplyActions`: `Read` and `Update` record the metadata, `Delete` forgets the object. `ScanConverges` proves that once a batch has been applied, a second scan of an unchanged filesystem finds nothing to do.

## Model

| member | source | states |
|---|---|---|
| FilesystemScanner.PathBytesRoundTrip | src/connectors/scanner/filesystem.rs:18-25 | On Unix, converting an object key to a path and back gives the same bytes, and the same holds for a path converted to a key and back. |
| FilesystemScanner.NewScanner | src/connectors/scanner/filesystem.rs:99-105 | Construction fails exactly when the root glob is rejected, and the error is then a pattern error. Otherwise the scanner keeps the glob and the object pattern. |
| FilesystemScanner.ObjectMetadata | src/connectors/scanner/filesystem.rs:52-67 | The lookup returns `Ok(None)` exactly when the path is not found. It returns an I/O error exactly when the lookup fails for another reason. Otherwise it returns the path's current metadata. |
| FilesystemScanner.HasPendingActions | src/connectors/scanner/filesystem.rs:89-91 | The filesystem scanner never reports pending actions. |
| FilesystemScanner.DeletionAndReplacementActions | src/connectors/scanner/filesystem.rs:107-130 | The deletion pass emits no `Read`. A tracked key gets `Delete` exactly when its path is not found. Every `Update` carries the current metadata of a path whose lookup succeeded and whose metadata `is_changed` reports as changed. Every changed object gets its `Update`. Objects whose lookup fails for another reason get no action and no error. Each key gets at most one action. |
| FilesystemScanner.NoDeletionActions | src/connectors/scanner/filesystem.rs:107-130 | The deletion pass is empty when no tracked object is missing and no object that can be looked up has changed. |
| FilesystemScanner.ExpandEntries | src/connectors/scanner/filesystem.rs:155-178 | The candidate loop fails exactly when the expansion pattern of some non-file, Unicode match is rejected. On success, a path is in the result exactly when it is a file matched directly, or a file found by expanding a non-file Unicode match. Non-Unicode non-file matches contribute nothing. |
| FilesystemScanner.GetMatchingFilePaths | src/connectors/scanner/filesystem.rs:151-181 | Enumeration fails only when the root glob or an expansion pattern is rejected. On success every result is a file, and the results are exactly the candidates. |
| FilesystemScanner.InsertionActions | src/connectors/scanner/filesystem.rs:132-149 | The insertion pass emits only `Read` of untracked keys. Each `Read` names a candidate whose lookup succeeded and carries its current metadata. Every untracked candidate whose lookup succeeds is read, and candidates whose lookup fails are skipped. Distinct candidates give at most one action per key. |
| FilesystemScanner.NoInsertionActions | src/connectors/scanner/filesystem.rs:132-149 | The insertion pass is empty when every candidate that can be looked up is already tracked. |
| FilesystemScanner.NextScannerActions | src/connectors/scanner/filesystem.rs:74-87 | A scan fails exactly when enumeration fails, and the error is a pattern error. With deletions disabled, the batch holds only `Read`. Every `Delete`/`Update` precedes every `Read`. `Read` is exactly the action on untracked keys, so no key gets both a `Read` and a `Delete`/`Update`. With deletions enabled, `Delete(k)` appears exactly for tracked keys whose path is not found, and every tracked object whose lookup succeeds and whose metadata `is_changed` reports as changed gets an `Update` with its current metadata; every `Update` is of that kind. A tracked object gets at most one action. Each `Read` is a candidate with its current metadata, and every untracked candidate whose lookup succeeds is read. When enumeration yields no path twice, each key gets at most one action. |
| FilesystemScanner.ScanIsConsistent | src/connectors/scanner/filesystem.rs:74-149 | Two actions of one successful batch that concern the same object are equal, so the order in which the engine applies them does not matter. |
| FilesystemScanner.ScanTracksLookedUpCandidates | src/connectors/scanner/filesystem.rs:74-149 | After a batch computed with deletions enabled is applied, every candidate whose lookup succeeds is tracked. |
| FilesystemScanner.ScanRecordsCurrentMetadata | src/connectors/scanner/filesystem.rs:74-149 | After a batch computed with deletions enabled is applied, no tracked object is missing from the filesystem. A tracked object whose lookup succeeds is recorded with metadata that `is_changed` does not report as changed, provided `is_changed` never reports a change between equal metadata. |
| FilesystemScanner.ScanConverges | src/connectors/scanner/filesystem.rs:74-149 | Apply a batch computed with deletions enabled to the cache, then rescan the same filesystem. The rescan returns an empty batch, provided `is_changed` never reports a change between equal metadata. So no change is left undetected and no tracked object is read again. |
| FilesystemScanner.RepeatedCandidateGivesTwoReads | src/connectors/scanner/filesystem.rs:154-178 | Counterexample as written: the root glob `data/**/*` matches both the directory `data/d` and the file `data/d/f`, expanding `data/d` finds `data/d/f` again, and one scan emits two `Read` actions for that file. |
| FilesystemScanner.NextScannerActionsWithoutRepetitions | src/connectors/scanner/filesystem.rs:151-181 | Corrected scan that drops repeated candidates. It succeeds exactly when the original does and emits the same set of actions, but touches each object at most once. |
| FilesystemKvStorage.New | src/persistence/backends/file.rs:28-39 | Construction fails with `PathIsNotUtf8` for a non-Unicode root. Otherwise it fails with a pattern error when the glob is rejected, or with an I/O error when the root cannot be created, in that order. On success the glob is the root with `/` separators followed by `/**/*`. |
| FilesystemKvStorage.KeyToPathIsBelowRoot | src/persistence/backends/file.rs:64-74 | The path of a key is the root followed by the key's components, in order. Each component is non-empty and contains no `/`. |
| FilesystemKvStorage.KeyToPathIgnoresExtraSlashes | src/persistence/backends/file.rs:64-74 | Leading, trailing and doubled slashes do not change the path of a key. |
| FilesystemKvStorage.CanonicalKeyComponents | src/persistence/backends/file.rs:64-74 | A key and its canonical form, its non-empty components joined by `/`, have the same components. |
| FilesystemKvStorage.SamePathIffSameCanonicalKey | src/persistence/backends/file.rs:64-74 | Two keys map to the same path if and only if their canonical forms are equal. |
| FilesystemKvStorage.TempFileNameShape | src/persistence/backends/file.rs:124-129 | The temporary name is the file name plus `.tmp` when the file has an extension, and the file name plus `..tmp` when it has none. It always ends in `.tmp` and differs from the file name. |
| FilesystemKvStorage.EmptyKeyTempFileIsOutsideRoot | src/persistence/backends/file.rs:64-129 | The empty key's path is the root. When the root has a file name, the temporary path of a put on the empty key is a sibling of the root, outside it. |
| FilesystemKvStorage.TempPath | src/persistence/backends/file.rs:124-129 | When the final path has a file name, the temporary path is a sibling of it (same parent, same depth), differs from it, and is recognised as temporary by `list_keys`. Otherwise `with_extension` leaves the path unchanged. |
| FilesystemKvStorage.GetValue | src/persistence/backends/file.rs:107-119 | Reading a key succeeds exactly when its file exists and returns its contents. Otherwise it fails with an I/O error: `NotADirectory` exactly when a proper ancestor of the path is a file, else `IsADirectory` exactly when the path is the root or an ancestor of a stored file, else `NotFound`. |
| FilesystemKvStorage.RemoveKey | src/persistence/backends/file.rs:162-174 | Removal succeeds exactly when the key's file exists. Otherwise it changes nothing and fails with the same error as reading the key. Afterwards the key cannot be read, and every other path is unchanged. |
| FilesystemKvStorage.EmptyKeyIsTheRootDirectory | src/persistence/backends/file.rs:64-174 | The empty key names the root directory, so reading or removing it fails with `IsADirectory` and changes nothing. |
| FilesystemKvStorage.ParentKeyIsADirectory | src/persistence/backends/file.rs:64-119 | A key whose components begin those of a stored key names a directory, so reading it fails with `IsADirectory`. |
| FilesystemKvStorage.PutDisk | src/persistence/backends/file.rs:41-61 | The value is written only to the temporary file, which holds a prefix of it until the rename. The final file keeps its old state until the rename. After the rename it holds the complete value and no temporary file remains. |
| FilesystemKvStorage.PutValue | src/persistence/backends/file.rs:121-160 | A put succeeds exactly when the rename happens, and then the key reads back the value. A failure to create the parent directory writes nothing. Wherever it stops, the final file is either the old file, still absent, or the complete new value. No path other than the final and temporary ones changes. |
| FilesystemKvStorage.ValueSurvivesOtherWrites | src/persistence/backends/file.rs:107-174 | After a successful put, the key reads back its value across any put, wherever it stops, or remove of a key naming another file. This holds as long as the key's own path does not end in `.tmp`, which could make it another key's temporary file. |
| FilesystemKvStorage.ListedEntries | src/persistence/backends/file.rs:78-105 | Listing fails with InvalidData exactly when a kept entry lies outside the root. A kept entry is a regular file with a Unicode path not ending in `.tmp`. On success the listed entries are exactly the kept entries below the root whose relative path is Unicode. |
| FilesystemKvStorage.ListKeys | src/persistence/backends/file.rs:78-105 | `list_keys` fails with a pattern error when the glob is rejected, and otherwise exactly when the entry filter fails. On success it reports one key per listed entry, in glob order: the relative path with `\` turned into `/`. |
| FilesystemKvStorage.TemporaryFileNeverListed | src/persistence/backends/file.rs:82-99 | Wherever a put stops, its temporary file is never among the listed entries, and no listed entry is temporary. |
| FilesystemKvStorage.TemporaryLookingKeyNeverListed | src/persistence/backends/file.rs:85-87 | A key whose last component ends in `.tmp` can be stored and read but is never listed. |
| FilesystemKvStorage.PutThenListKeys | src/persistence/backends/file.rs:64-105 | After a successful put of a key with at least one component, no `\`, a final path not ending in `.tmp`, and a UTF-8 path and relative path, a complete listing contains the key's canonical form. |
| FilesystemKvStorage.BackslashNameListsAsAnotherKey | src/persistence/backends/file.rs:94-97 | Counterexample as written: a file named `a\b` below the root is listed as key `a/b`, and reading `a/b` fails with NotFound. |
| FilesystemKvStorage.ListKeysUnix | src/persistence/backends/file.rs:78-105 | Corrected listing that uses the relative path unchanged as the key. It fails exactly when `list_keys` fails, with one key per listed entry. |
| FilesystemKvStorage.ListedKeysReadBack | src/persistence/backends/file.rs:78-119 | On a Unix tree (non-empty components without `/`), every key the corrected listing reports reads back the contents of the file it was listed for. |
| FilesystemKvStorage.ListingsAgreeWithoutBackslash | src/persistence/backends/file.rs:94-97 | When no file name below the root contains `\`, the corrected listing and `list_keys` report the same keys. |
| Telemetry.Deduplicate | src/engine/telemetry.rs:238-240 | The result is strictly increasing, so sorted and duplicate-free. Its elements are exactly the `Some` values of the input, and it is no longer than the input. |
| Telemetry.DeduplicateDependsOnlyOnValues | src/engine/telemetry.rs:238-240 | Two inputs with the same `Some` values deduplicate to the same list, whatever their order or repetitions. |
| Telemetry.DeduplicatePair | src/engine/telemetry.rs:337-339 | Deduplicating the telemetry and monitoring servers gives at most two entries. Equal servers collapse to one, and two absent servers give the empty list. |
| Telemetry.RootTraceId | src/engine/telemetry.rs:225-236 | No traceparent gives no trace id. A traceparent without `-` panics. Otherwise the result is the piece that follows the first `-` and runs to the next `-` or the end. |
| Telemetry.RootTraceIdOfTraceparent | src/engine/telemetry.rs:225-236 | For a traceparent laid out as version, trace-id, parent-id and flags (section 3.2 of the W3C Trace Context recommendation), the root trace id is the trace-id field. |
| Telemetry.CreateEnabled | src/engine/telemetry.rs:314-349 | The call fails exactly when an environment variable fails to parse, the instance id variable first. The service name and version are the crate's name and version. The logging servers are the monitoring server alone. The tracing servers equal the metrics servers and are the sorted, distinct telemetry and monitoring servers (at most two). The instance id is the variable's value or a fresh UUID. An unset namespace is `local-dev` when the instance id ends in `local-dev`, and `external-<uuid>` otherwise. |
| Telemetry.Create | src/engine/telemetry.rs:267-349 | A missing `monitoring` entitlement fails first whenever a monitoring server is given. Past it, with a server to report to, an explicit interval without `monitoring-internal` fails with that entitlement; past both, a licensed config fails with `InvalidEnvVar` naming the first variable that does not parse. No other error is produced. No monitoring server without required telemetry gives `Disabled`. `NoLicenseKey` is never enabled. The config is enabled exactly when the license has a key, there is a server to report to, and the needed entitlements and environment variables are present; an explicit interval needs `monitoring-internal`. An enabled config carries the given interval or 60 s, the Pathway telemetry server exactly when telemetry is required, and the run id. |
| Telemetry.FiletimeTicks | src/engine/telemetry.rs:64 | Shifting the high half left by 32 bits and or-ing in the low half equals `high * 2^32 + low`. |
| Telemetry.FiletimeToSeconds | src/engine/telemetry.rs:62-66 | The result is non-negative, so the `as i64` cast never wraps. It is the whole number of seconds in the 100-nanosecond tick count: `r * 10^7 <= ticks < (r + 1) * 10^7`. |

## Left out

- Windows path conversion (`path_from_bytes`/`path_to_bytes` with lossy UTF-8, and the tokio branches of the backend): the model follows the Unix code paths only.
- `read_object` and `short_description` of the scanner: plain file reads and formatting, outside the diff.
- The `glob` crate, `std::fs` and `FileLikeMetadata::is_changed` are oracles. Entries that `flatten()` drops because they could not be read never reach the model.
- `CachedObjectStorage` internals are not part of this model. The cache is its entries plus an iteration order that visits each entry once. `ApplyActions` models the engine's bookkeeping, whose code is not part of this source.
- The deletion pass drops lookup errors other than NotFound: the object gets no action and the scan does not fail.
- The scan sees one unchanging filesystem: enumeration's `is_file` and the insertion pass's `metadata` read the same snapshot. A file that vanishes between the two (the skip at src/connectors/scanner/filesystem.rs:142-143) is not modelled in a full scan: every candidate of `NextScannerActions` is a file of the snapshot, so its lookup succeeds. Only `InsertionActions` applied to arbitrary candidates reaches the skip.
- Logging: the `error!` line for a skipped non-Unicode directory (src/connectors/scanner/filesystem.rs:164-167) and the `warn!` line for a skipped non-UTF-8 entry in `list_keys` (src/persistence/backends/file.rs:101) have no counterpart; only the skipping is modelled.
- Threads and futures in `put_value`: a put runs to the point where it stops. Concurrent writers to one key are out of scope.
- Durability after power loss: `sync_all` is commented out in `write_file`, so the model covers process crashes, not OS crashes.
- Path resolution by the operating system. `.` and `..` components of keys are ordinary names in the model, and Rust's dropping of `.` components in `Path::components` is not modelled. `FileName` treats a final `..` as having no file name.
- FilesystemKvStorage.GetValue: only failures that follow from the directory tree are modelled (`NotFound`, `IsADirectory`, `NotADirectory`, the kinds Linux reports). Permission errors and other I/O failures of `std::fs::read` are not. The directories are the root and the ancestors of stored files, so empty directories left behind by an interrupted put are not modelled.
- FilesystemKvStorage.RemoveKey: the same limits as for reading; `remove_file` failing for any other reason is not modelled.
- `path_prefix_len` of the backend is never read and is left out.
- PutValue: when a key's path has no file name, `with_extension` returns the final path itself. This happens for a key ending in `..`, and for the empty key when the root has no file name (`/`, or a root ending in `..`). The atomicity promise is stated only for paths with a file name. The empty key's path is the root itself, so for a root such as `/data/store` its temporary file is the root's sibling `/data/store..tmp`, outside the root (`EmptyKeyTempFileIsOutsideRoot`).
- `with_extension(".tmp")` puts a dot before `.tmp`, so a name without an extension becomes `<name>..tmp`. `TempFileNameShape` states this.
- Telemetry: OpenTelemetry providers and exporters, the telemetry thread, `TelemetryGuard`, the `sysinfo`/`getrusage` metric callbacks, and reading the environment are left out. Environment values, UUIDs and the crate name/version are inputs. A license is its no-key flag, its telemetry-required flag, an entitlement predicate and its shortcut.
- Telemetry.Create: the periodic reader interval is held in whole seconds (a `u64` in the code); `Duration` itself is not modelled.
- Telemetry.RootTraceId: the panic of `expect` is a `Failure` value carrying the panic message; unwinding is not modelled.

## Findings

| source | as written | input that shows it | evidently intended | confidence | as-written member | corrected member |
|---|---|---|---|---|---|---|
| src/connectors/scanner/filesystem.rs:154-178 | Candidates from the root glob and from directory expansion are concatenated without removing repetitions. | Root glob `data/**/*` on a tree holding directory `data/d` and file `data/d/f`: `data/d/f` is matched directly and again by expanding `data/d` with `data/d/**/*`, so one scan emits `Read(data/d/f)` twice. | Each object is read at most once per scan. | medium, not executed | FilesystemScanner.RepeatedCandidateGivesTwoReads | FilesystemScanner.NextScannerActionsWithoutRepetitions |
| src/persistence/backends/file.rs:94-97 | Every `\` in the relative path is replaced by `/` on all platforms, although on Unix `\` is an ordinary file-name character. | A file `a\b` below the root is listed as key `a/b`; `get_value("a/b")` reads `<root>/a/b` and fails with NotFound. | Listed keys read back the files they were listed for. | medium, not executed | FilesystemKvStorage.BackslashNameListsAsAnotherKey | FilesystemKvStorage.ListKeysUnix |
