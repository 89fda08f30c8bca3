/**
  The storage engine (src/storage.rs): `LocalFsStorage` keeps one file per
  record, named `<key>.bson`, in the data directory. It has no state of its
  own; every operation reads or changes the directory it is given.
 */
module Storage {
  import opened Wrappers
  import opened Errors
  import opened FileSystem
  import opened Bson

  /** The name of the file that holds the record stored under `key`. */
  function RecordFile(key: string): (name: string)
    ensures |name| == |key| + 5 && name[..|key|] == key
  {
    key + ".bson"
  }

  lemma RecordFileInjective(k1: string, k2: string)
    ensures RecordFile(k1) == RecordFile(k2) ==> k1 == k2
  {
  }

  /**
    The stem of a record file is its key, except for the empty key: ".bson"
    is a hidden file whose stem is the whole name.
   */
  lemma StemOfRecordFile(key: string)
    ensures Stem(RecordFile(key)) == key <==> key != ""
  {
    // LastIndexOf walks back over "nosb" to the '.' at |key|
    assert (key + ".bson")[..|key| + 4] == key + ".bso";
    assert (key + ".bso")[..|key| + 3] == key + ".bs";
    assert (key + ".bs")[..|key| + 2] == key + ".b";
    assert (key + ".b")[..|key| + 1] == key + ".";
    assert LastIndexOf(key + ".", '.') == Some(|key|);
    assert LastIndexOf(RecordFile(key), '.') == Some(|key|);
  }

  /** The position of the first listed file whose stem is `key`: the file `remove_entry` deletes. */
  function FirstWithStem(listing: seq<string>, key: string): (r: Option<nat>)
    ensures r.None? <==> forall j :: 0 <= j < |listing| ==> Stem(listing[j]) != key
    ensures r.Some? ==> r.value < |listing| && Stem(listing[r.value]) == key
    ensures r.Some? ==> forall j :: 0 <= j < r.value ==> Stem(listing[j]) != key
  {
    if listing == [] then None
    else if Stem(listing[0]) == key then Some(0)
    else match FirstWithStem(listing[1..], key)
      case None => None
      case Some(i) => Some(i + 1)
  }

  /**
    The map `cache_entries` builds from the files listed, in listing order:
    each file's stem to the value its record decodes to, a later file
    overwriting an earlier one with the same stem.
   */
  function StemMap<T(!new), B(!new)>(codec: Codec<T, B>, files: map<string, Bytes>, listing: seq<string>): (m: map<string, T>)
    requires forall n :: n in listing ==> n in files && WellFormedRecord(codec, files[n])
    ensures m.Keys == set n | n in listing :: Stem(n)
  {
    if listing == [] then map[]
    else
      var last := listing[|listing| - 1];
      StemMap(codec, files, listing[..|listing| - 1])[Stem(last) := DecodeRecord(codec, files[last])]
  }

  lemma StemMapStep<T(!new), B(!new)>(codec: Codec<T, B>, files: map<string, Bytes>, listing: seq<string>, i: nat)
    requires forall n :: n in listing ==> n in files && WellFormedRecord(codec, files[n])
    requires i < |listing|
    ensures StemMap(codec, files, listing[..i + 1])
         == StemMap(codec, files, listing[..i])[Stem(listing[i]) := DecodeRecord(codec, files[listing[i]])]
  {
    assert listing[..i + 1][..i] == listing[..i];
  }

  /** Over a whole listing, the keys of the map are the stems of the directory's files. */
  lemma StemMapKeys<T(!new), B(!new)>(codec: Codec<T, B>, files: map<string, Bytes>, listing: seq<string>)
    requires IsListing(listing, files)
    requires forall n :: n in files ==> WellFormedRecord(codec, files[n])
    ensures StemMap(codec, files, listing).Keys == set n | n in files :: Stem(n)
  {
  }

  /** The entry of a stem is the record of the last listed file with that stem. */
  lemma {:induction false} StemMapAt<T(!new), B(!new)>(codec: Codec<T, B>, files: map<string, Bytes>, listing: seq<string>, i: nat)
    requires forall n :: n in listing ==> n in files && WellFormedRecord(codec, files[n])
    requires i < |listing|
    requires forall j :: i < j < |listing| ==> Stem(listing[j]) != Stem(listing[i])
    ensures Stem(listing[i]) in StemMap(codec, files, listing)
    ensures StemMap(codec, files, listing)[Stem(listing[i])] == DecodeRecord(codec, files[listing[i]])
  {
    if i < |listing| - 1 {
      var init := listing[..|listing| - 1];
      assert init[i] == listing[i];
      StemMapAt(codec, files, init, i);
    }
  }

  /**
    `LocalFsStorage`, the file-system implementation of `StorageEngine<T>`,
    for the value type `T` whose serde conversions to BSON values `B` are
    `codec`.
   */
  class LocalFsStorage<T(!new), B(!new)> {
    const codec: Codec<T, B>

    constructor (codec: Codec<T, B>)
      ensures this.codec == codec
    {
      this.codec := codec;
    }

    /**
      `find_in_storage`: None when `<key>.bson` cannot be opened, otherwise
      the value its "data" field decodes to. A file that does not decode panics.
     */
    method FindInStorage(dir: DataDir, key: string) returns (r: Option<T>)
      requires dir.Valid()
      requires RecordFile(key) in dir.files ==> WellFormedRecord(codec, dir.files[RecordFile(key)])
      ensures r.None? <==> RecordFile(key) !in dir.files
      ensures r.Some? ==> r.value == DecodeRecord(codec, dir.files[RecordFile(key)])
    {
      var path := RecordFile(key);
      if path in dir.files {
        var inter := codec.readDoc(dir.files[path]).value;
        var e := Get(inter, DataField).value;
        r := Some(codec.fromBson(e).value);
      } else {
        r := None;
      }
    }

    /** `truncate_all`: deletes every file the listing names. */
    method TruncateAll(dir: DataDir, listing: seq<string>)
      requires dir.Valid() && IsListing(listing, dir.files)
      modifies dir
      ensures dir.Valid() && dir.files == map[]
    {
      var i := 0;
      while i < |listing|
        invariant 0 <= i <= |listing|
        invariant dir.files.Keys <= old(dir.files.Keys)
        invariant forall n :: n in old(dir.files) ==> (n in dir.files <==> n !in listing[..i])
        invariant forall n :: n in dir.files ==> dir.files[n] == old(dir.files)[n]
      {
        assert listing[..i + 1] == listing[..i] + [listing[i]];
        dir.files := dir.files - {listing[i]};
        i := i + 1;
      }
      assert listing[..i] == listing;
    }

    /**
      `cache_entries`: the map from the stem of every file to the value its
      record decodes to. The directory is not changed and `collPrefix` is not
      used. A file that does not decode panics.
     */
    method CacheEntries(dir: DataDir, listing: seq<string>, collPrefix: string) returns (hm: map<string, T>)
      requires IsListing(listing, dir.files)
      requires forall n :: n in dir.files ==> WellFormedRecord(codec, dir.files[n])
      ensures hm == StemMap(codec, dir.files, listing)
      ensures hm.Keys == set n | n in dir.files :: Stem(n)
    {
      hm := map[];
      var i := 0;
      while i < |listing|
        invariant 0 <= i <= |listing|
        invariant hm == StemMap(codec, dir.files, listing[..i])
      {
        var fp := listing[i];
        var key := Stem(fp);
        var doc := codec.readDoc(dir.files[fp]).value;
        var upd := Get(doc, DataField).value;
        var value := codec.fromBson(upd).value;
        StemMapStep(codec, dir.files, listing, i);
        hm := hm[key := value];
        i := i + 1;
      }
      assert listing[..i] == listing;
      StemMapKeys(codec, dir.files, listing);
    }

    /**
      `remove_entry`: deletes the first listed file whose stem is `givenKey`
      and stops there; `EntryNotFound`, with nothing deleted, when there is none.
     */
    method RemoveEntry(dir: DataDir, listing: seq<string>, givenKey: string) returns (r: Result<(), Errors>)
      requires dir.Valid() && IsListing(listing, dir.files)
      modifies dir
      ensures dir.Valid()
      ensures r.Ok? <==> exists n :: n in old(dir.files) && Stem(n) == givenKey
      ensures match FirstWithStem(listing, givenKey)
        case Some(i) => r == Ok(()) && dir.files == old(dir.files) - {listing[i]}
        case None => r == Err(EntryNotFound) && dir.files == old(dir.files)
    {
      var i := 0;
      while i < |listing|
        invariant 0 <= i <= |listing|
        invariant forall j :: 0 <= j < i ==> Stem(listing[j]) != givenKey
        invariant dir.files == old(dir.files)
      {
        var fp := listing[i];
        var key := Stem(fp);
        if key == givenKey {
          dir.files := dir.files - {fp};
          FirstWithStemIs(listing, givenKey, i);
          return Ok(());
        }
        i := i + 1;
      }
      return Err(EntryNotFound);
    }

    /** `write_record`: (re)creates `<key>.bson` holding the envelope of `entry`; no other file changes. */
    method WriteRecord(dir: DataDir, entry: T, key: string)
      requires dir.Valid()
      requires codec.toBson(entry).Some?
      requires IsFileName(RecordFile(key))
      modifies dir
      ensures dir.Valid()
      ensures dir.files == old(dir.files)[RecordFile(key) := EncodeRecord(codec, entry)]
    {
      var doc := Envelope(codec.toBson(entry).value);
      var s := codec.writeDoc(doc);
      dir.files := dir.files[RecordFile(key) := s];
    }
  }

  lemma FirstWithStemIs(listing: seq<string>, key: string, i: nat)
    requires i < |listing| && Stem(listing[i]) == key
    requires forall j :: 0 <= j < i ==> Stem(listing[j]) != key
    ensures FirstWithStem(listing, key) == Some(i)
  {
  }

  /**
    `remove_entry` finds a record `write_record` stored under a non-empty
    key, and the file it deletes is that record's file when no other file
    shares its stem (a "<key>.json" beside "<key>.bson" could be listed first).
   */
  lemma {:induction false} RemoveFindsRecordFile(files: map<string, Bytes>, listing: seq<string>, key: string)
    requires IsListing(listing, files)
    requires key != "" && RecordFile(key) in files
    ensures FirstWithStem(listing, key).Some?
    ensures (forall n :: n in files && n != RecordFile(key) ==> Stem(n) != key)
        ==> listing[FirstWithStem(listing, key).value] == RecordFile(key)
  {
    StemOfRecordFile(key);
    var i :| 0 <= i < |listing| && listing[i] == RecordFile(key);
    assert Stem(listing[i]) == key;
  }

  /**
    When `<key>.bson` is the only file with stem `key`, `cache_entries` maps
    `key` to the value `find_in_storage(key)` returns.
   */
  lemma {:induction false} CacheAgreesWithFind<T(!new), B(!new)>(codec: Codec<T, B>, files: map<string, Bytes>, listing: seq<string>, key: string)
    requires IsListing(listing, files)
    requires forall n :: n in files ==> WellFormedRecord(codec, files[n])
    requires key != "" && RecordFile(key) in files
    requires forall n :: n in files && n != RecordFile(key) ==> Stem(n) != key
    ensures key in StemMap(codec, files, listing)
    ensures StemMap(codec, files, listing)[key] == DecodeRecord(codec, files[RecordFile(key)])
  {
    StemOfRecordFile(key);
    var i :| 0 <= i < |listing| && listing[i] == RecordFile(key);
    forall j | i < j < |listing|
      ensures Stem(listing[j]) != Stem(listing[i])
    {
      assert listing[j] != listing[i];
    }
    StemMapAt(codec, files, listing, i);
  }

  /** `write_record` followed by `find_in_storage` on the same key returns the value written. */
  method WriteThenFind<T(!new), B(!new)>(store: LocalFsStorage<T, B>, dir: DataDir, entry: T, key: string) returns (r: Option<T>)
    requires Lawful(store.codec)
    requires dir.Valid()
    requires store.codec.toBson(entry).Some?
    requires IsFileName(RecordFile(key))
    modifies dir
    ensures dir.Valid()
    ensures dir.files == old(dir.files)[RecordFile(key) := EncodeRecord(store.codec, entry)]
    ensures r == Some(entry)
  {
    store.WriteRecord(dir, entry, key);
    RecordRoundTrip(store.codec, entry);
    r := store.FindInStorage(dir, key);
  }
}
