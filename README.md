# keratin: a Dafny model of the record store and its collection layer

keratin is an embedded document store. It keeps every record in its own
file, `<data_path>/<key>.bson`, and the file holds the BSON document
`{"data": value}`. This project models two parts of it and proves what they promise:

- The storage engine, `LocalFsStorage` (src/storage.rs). It has five operations:
  - `find_in_storage`
  - `write_record`
  - `remove_entry`
  - `truncate_all`
  - `cache_entries`
- The `Collection` of src/lib.rs. The model covers these members of it:
  - the constructor `configure`, which starts with an empty cache
  - key derivation, `gen_key`: the collection prefix followed by the lower-case hex of an MD5 digest
  - the cache of file texts, `cached_docs`
  - the cache refresh, `cache_entries`
  - the existence test, `exists`

Modules, one per component:

- `Wrappers`: `Option` and `Result`.
- `Errors`: the crate's error enumeration (src/errors.rs).
- `FileSystem`: the data directory. `DataDir` is a class whose `files` field maps each file name to the file's bytes. The module also holds `Stem`, which is `Path::file_stem` written out, and `IsListing`. A `listing` is one enumeration of the directory, the order in which `read_dir` yields the files. That order is unspecified, so every scanning operation takes the listing as a parameter.
- `Bson`: the record codec. It covers the document (`Get`, `Insert`) and the envelope. It also holds `Codec`, the value that carries the foreign conversions: bson's serde conversions `to_bson`/`from_bson`, and bson's `Document::to_writer`/`Document::from_reader`. `Lawful` is the round trip the model assumes of these libraries: a value serde accepts comes back from its BSON value, and a document with one field per key comes back from its bytes. serde and bson do not promise this for every type. The lemmas that need it take it as a hypothesis.
- `Storage`: `RecordFile` and the specification functions `FirstWithStem` and `StemMap`. The class `LocalFsStorage` has one method per engine operation.
- `Hex`: the `{:x}` formatting of a digest, `LowerHex`. `ParseHex` is its inverse.
- `Keratin`: the `Config` and the `Collection` class. The class has six fields: `mainPath`, `config`, `dataDir` (the directory `data_path()` names), `cachedDocs`, and the two externals it uses, `md5` (the MD5 function) and `utf8` (UTF-8 decoding).

Every `unwrap`/`expect` on decoding, and the one on `to_bson`, panics in the source. In the model each one is a precondition. For example, `FindInStorage` requires that a present record file decodes. `CacheEntries` requires that every file decodes, and `WriteRecord` requires that serde accepts the value. Failures of the file operations themselves are not modelled (see Left out).

Three behaviours of the code that the model keeps as written:
- `find_in_storage` and `cache_entries` panic on a file that is not a record: not a document, no "data" field, or a value of the wrong shape. The model therefore requires well-formed files.
- `remove_entry` does not build the record's file name. It scans the listing and deletes the first file whose stem equals the key, so a `<key>.json` listed before `<key>.bson` is the one deleted (`RemoveFindsRecordFile`).
- `cached_docs` maps whole file names, extension included, to the raw text of the files. As a result `exists(pk)` tests the argument itself, not `gen_key(pk)` (`Keratin.Collection.Exists`).

A consequence of `Path::file_stem` that the model makes explicit: a record written under the empty key is the hidden file `.bson`. Its stem is `.bson`, not the empty key (`StemOfRecordFile`). Keys made by `gen_key` are never empty.

## Model

| member | source | states |
|---|---|---|
| FileSystem.Stem | src/storage.rs:55 | the stem is a prefix of the file name: the whole name exactly when the name is ".." or has no '.' after its first character, otherwise the part before the last '.' |
| Bson.Get | src/storage.rs:35 | `Document::get` finds a value exactly when the document has a field with that key, and the value is one stored under that key |
| Bson.Insert | src/storage.rs:86 | `Document::insert` makes the key map to the new value, leaves every other key's value alone, and grows the document only for a new key |
| Bson.Envelope | src/storage.rs:85-86 | the envelope `write_record` builds has exactly one field, "data", holding the value |
| Bson.EncodeRecord | src/storage.rs:85-89 | the bytes written for a value read back, under the codec's round-trip promise, as the one-field document {"data": to_bson(value)} |
| Bson.WellFormedRecord | src/storage.rs:33-36 | the condition under which the three decoding `unwrap`/`expect` calls do not panic; every file `write_record` produces meets it |
| Bson.DecodeRecord | src/storage.rs:57-60 | the value a record file's "data" field decodes to; for a file `write_record` wrote it is the value written |
| Bson.RecordRoundTrip | src/storage.rs:84-94 | the bytes `write_record` writes for a value are a well-formed record, and reading them decodes to that same value |
| Bson.DecodeReadsOnlyData | src/storage.rs:33-36 | readers decode a document from its "data" field alone, whatever other fields it has |
| Storage.RecordFile | src/storage.rs:92 | the record file name is the key followed by five more characters (".bson") |
| Storage.RecordFileInjective | src/storage.rs:92 | distinct keys have distinct record files |
| Storage.StemOfRecordFile | src/storage.rs:72-74 | the stem of `<key>.bson` equals the key if and only if the key is not empty |
| Storage.FirstWithStem | src/storage.rs:70-79 | finds the first listed file whose stem is the key, and no earlier file has that stem; it finds none exactly when no listed file has that stem |
| Storage.StemMap | src/storage.rs:49-67 | the keys of the cache map are exactly the stems of the listed files |
| Storage.StemMapKeys | src/storage.rs:49-67 | over a full listing, the keys of the cache map are the stems of all files in the directory |
| Storage.StemMapAt | src/storage.rs:63 | a stem maps to the decoded record of the last listed file with that stem (later inserts overwrite earlier ones) |
| Storage.LocalFsStorage.FindInStorage | src/storage.rs:30-41 | returns None exactly when `<key>.bson` is absent; otherwise returns the value the file's "data" field decodes to |
| Storage.LocalFsStorage.TruncateAll | src/storage.rs:43-47 | afterwards the directory holds no files |
| Storage.LocalFsStorage.CacheEntries | src/storage.rs:49-67 | returns the stem-to-value map built in listing order, whose keys are the stems of all files; the directory is untouched and the prefix unused |
| Storage.LocalFsStorage.RemoveEntry | src/storage.rs:69-82 | Ok exactly when some file's stem is the key, and then only the first such listed file is deleted; otherwise Err(EntryNotFound) and the directory is unchanged |
| Storage.LocalFsStorage.WriteRecord | src/storage.rs:84-94 | `<key>.bson` now holds the envelope of the value, whatever it held before; no other file changes |
| Storage.RemoveFindsRecordFile | src/storage.rs:69-82 | `remove_entry` finds a record stored under a non-empty key, and deletes that record's file when no other file shares its stem |
| Storage.CacheAgreesWithFind | src/storage.rs:49-67 | when `<key>.bson` is the only file with stem `key`, `cache_entries` maps `key` to the value `find_in_storage(key)` reads |
| Storage.WriteThenFind | src/storage.rs:30-37 | `write_record(key, v)` followed by `find_in_storage(key)` returns Some(v) |
| Hex.DigitValue | src/lib.rs:28 | a character has a digit value exactly when it is in 0-9a-f, and that value is below 16 |
| Hex.HexDigit | src/lib.rs:28 | each nibble prints as a lower-case hex digit that reads back as the nibble |
| Hex.LowerHex | src/lib.rs:28 | `{:x}` of n bytes is 2n characters, all in 0-9a-f |
| Hex.LowerHexAt | src/lib.rs:28 | byte i is printed at positions 2i and 2i+1, high nibble first |
| Hex.ParseHex | src/lib.rs:28 | a successful parse yields half as many bytes as characters |
| Hex.ParseLowerHex | src/lib.rs:28 | parsing the printed form gives back the bytes |
| Hex.LowerHexInjective | src/lib.rs:28 | distinct byte strings print differently |
| Keratin.Texts | src/lib.rs:109-116 | the text map has one entry per file, and each entry is that file's decoded content |
| Keratin.Refresh | src/lib.rs:106-118 | after the refresh, the cache's keys are its old keys plus every listed file name |
| Keratin.RefreshOverwrites | src/lib.rs:115-116 | every listed file name maps to its file's text, and every other cached entry keeps its old text |
| Keratin.RefreshIsUpdate | src/lib.rs:106-118 | a refresh over a full listing yields the old cache overwritten by the directory's texts, whatever the listing order |
| Keratin.RefreshNeverEvicts | src/lib.rs:115-116 | a refresh never removes a cached name, and an entry whose file is gone keeps its old text |
| Keratin.RefreshIdempotent | src/lib.rs:106-118 | refreshing twice from an unchanged directory is the same as refreshing once |
| Keratin.Collection.Configure | src/lib.rs:87-104 | the new collection has the given configuration and directory, and an empty `cached_docs` |
| Keratin.Collection.GenKey | src/lib.rs:25-29 | the key is the collection prefix followed by 32 lower-case hex digits, and those digits read back as the MD5 digest of `pk` |
| Keratin.Collection.GenKeyDistinct | src/lib.rs:25-29 | caller keys whose digests differ get different internal keys |
| Keratin.Collection.CacheEntries | src/lib.rs:106-118 | `cached_docs` becomes its old value overwritten by each file name mapped to that file's text; nothing is evicted |
| Keratin.Collection.Exists | src/lib.rs:31-37 | refreshes the cache, then returns true exactly when `pk` itself was already cached or is a file name in the directory |

## Left out

- The `StorageEngine<T>` trait (src/storage.rs:14-24): traits are not modelled. Its single implementation, `LocalFsStorage`, is modelled directly.
- MD5 (RFC 1321) is supplied to the model as the function `md5`, and UTF-8 decoding as `utf8`. The bson crate's conversions are supplied as a `Codec`. Their algorithms are foreign code. The round trip assumed of them is the hypothesis `Lawful`, not a proved fact.
- The failures of opening, reading, creating, writing and removing a file panic in `truncate_all`, `cache_entries`, `remove_entry` and `write_record`. The model's directory operations never fail, so these panics are not modelled. Decoding failures and values serde refuses are modelled, as preconditions. File names are strings, so a non-UTF-8 name (a panic at `to_str().unwrap()`) cannot occur in the model. The directory holds only files, so a subdirectory cannot occur either. `truncate_all` and both `cache_entries` panic on a subdirectory. `remove_entry` skips one unless it is the first entry whose stem is the key, and that case panics at `remove_file(..).unwrap()`.
- Storage.LocalFsStorage.FindInStorage: a record file that exists but cannot be opened, for example for lack of read permission, gives None in the source. The model has no unreadable files, so it returns the decoded value.
- Storage.LocalFsStorage.FindInStorage: returns None for any key containing '/', because the model compares the raw `<key>.bson` with the names of the files in the data directory. The source opens the path `<dp>/<key>.bson` wherever it leads. Some such keys lead back into the data directory, for example "./k", "/k" (the path becomes `<dp>//k.bson`) and "../<dir>/k", and for them the source reads `k.bson`. Others lead outside it, for example "../other/k" or a key reaching into a subdirectory, and for them the source decodes whatever record file exists there.
- Storage.LocalFsStorage.WriteRecord: requires that `<key>.bson` is a plain file name, with no '/' and no NUL. The source also accepts keys whose path resolves into the data directory, such as "./k", and writes `k.bson`. A '/' key that reaches an existing subdirectory writes there, and the model has no subdirectories.
- Storage.LocalFsStorage.WriteRecord: `doc.to_writer(..).unwrap()` is taken as never failing. `Codec.writeDoc` is total, so the panic a failed serialization of the envelope would cause is not modelled.
- Storage.LocalFsStorage.WriteRecord: the system's file-name length limit is not modelled. The source panics on an over-long name; the model writes it.
- Concurrent access by other threads or processes is not modelled. Every operation sees one snapshot of `files`.
- Configuration: parsing keratin.toml, the `".default."` substitutions and the `option_env!` lookup (src/config/mod.rs). The `Config` is an input. `coll_prefix()` and `data_path()` are not defined in the configuration code, so they are inputs too.
- The `configure` constructor takes the parent directory of the configuration path, the data directory and the externals as parameters. `DirBuilder` creation of the data directory and `Path::parent`/`to_str` are not modelled.
- `insert`, `delete`, `modify` and `new` of src/lib.rs:39-69 are stubs with no effect, or `unimplemented!()`. They have no behaviour to model.
- The generic `Collection<T>` API of tests/core.rs (`get`, `insert`, `modify`, `delete`, `truncate` over a storage engine) is not part of this model. Its source is not among the modelled files.
