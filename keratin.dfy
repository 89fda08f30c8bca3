/**
  The collection layer (src/lib.rs): a `Collection` derives internal keys
  from caller keys and keeps `cached_docs`, a map from the file names of the
  data directory to the text of those files, refreshed from the directory.
 */
module Keratin {
  import opened Wrappers
  import opened FileSystem
  import opened Hex

  /**
    The configuration read from keratin.toml. `collPrefix` is the value of
    `coll_prefix()`, which the collection puts in front of every key.
   */
  datatype Config = Config(
    project: string,
    collName: string,
    configFilePath: string,
    primaryKey: string,
    collPrefix: string)

  /** Every file reads as text (`read_to_string(..).unwrap()` panics otherwise). */
  ghost predicate AllText(utf8: Bytes -> Option<string>, files: map<string, Bytes>)
  {
    forall n :: n in files ==> utf8(files[n]).Some?
  }

  /** The text of every file of the directory, by file name. */
  function Texts(utf8: Bytes -> Option<string>, files: map<string, Bytes>): (m: map<string, string>)
    requires AllText(utf8, files)
    ensures m.Keys == files.Keys
    ensures forall n :: n in m ==> utf8(files[n]) == Some(m[n])
  {
    map n | n in files :: utf8(files[n]).value
  }

  /**
    The cache after `cache_entries` inserts the listed files into `cache` in
    listing order: each file name, extension included, to the file's text.
   */
  function Refresh(utf8: Bytes -> Option<string>, cache: map<string, string>, files: map<string, Bytes>, listing: seq<string>): (c: map<string, string>)
    requires forall n :: n in listing ==> n in files && utf8(files[n]).Some?
    ensures c.Keys == cache.Keys + set n | n in listing
  {
    if listing == [] then cache
    else
      var last := listing[|listing| - 1];
      Refresh(utf8, cache, files, listing[..|listing| - 1])[last := utf8(files[last]).value]
  }

  lemma RefreshStep(utf8: Bytes -> Option<string>, cache: map<string, string>, files: map<string, Bytes>, listing: seq<string>, i: nat)
    requires forall n :: n in listing ==> n in files && utf8(files[n]).Some?
    requires i < |listing|
    ensures Refresh(utf8, cache, files, listing[..i + 1])
         == Refresh(utf8, cache, files, listing[..i])[listing[i] := utf8(files[listing[i]]).value]
  {
    assert listing[..i + 1][..i] == listing[..i];
  }

  /**
    Listed names are distinct, so the order does not matter: the refreshed
    cache is the old one overwritten by the text of every listed file.
   */
  lemma {:induction false} RefreshOverwrites(utf8: Bytes -> Option<string>, cache: map<string, string>, files: map<string, Bytes>, listing: seq<string>)
    requires forall n :: n in listing ==> n in files && utf8(files[n]).Some?
    requires forall i, j :: 0 <= i < j < |listing| ==> listing[i] != listing[j]
    ensures forall n :: n in listing ==> Refresh(utf8, cache, files, listing)[n] == utf8(files[n]).value
    ensures forall k :: k in cache && k !in listing ==> Refresh(utf8, cache, files, listing)[k] == cache[k]
  {
    if listing != [] {
      var init := listing[..|listing| - 1];
      RefreshOverwrites(utf8, cache, files, init);
      assert forall n :: n in listing ==> n in init || n == listing[|listing| - 1];
    }
  }

  /** After a refresh over a full listing, the cache is the old cache updated with the directory's texts. */
  lemma RefreshIsUpdate(utf8: Bytes -> Option<string>, cache: map<string, string>, files: map<string, Bytes>, listing: seq<string>)
    requires IsListing(listing, files) && AllText(utf8, files)
    ensures Refresh(utf8, cache, files, listing) == cache + Texts(utf8, files)
  {
    RefreshOverwrites(utf8, cache, files, listing);
  }

  /**
    A refresh only inserts or overwrites: every cached name stays cached, and
    the entry of a file that is no longer in the directory keeps its old text.
   */
  lemma RefreshNeverEvicts(utf8: Bytes -> Option<string>, cache: map<string, string>, files: map<string, Bytes>, listing: seq<string>)
    requires IsListing(listing, files) && AllText(utf8, files)
    ensures cache.Keys <= Refresh(utf8, cache, files, listing).Keys
    ensures forall k :: k in cache && k !in files ==> Refresh(utf8, cache, files, listing)[k] == cache[k]
  {
    RefreshIsUpdate(utf8, cache, files, listing);
  }

  /** Refreshing twice from an unchanged directory is refreshing once. */
  lemma RefreshIdempotent(utf8: Bytes -> Option<string>, cache: map<string, string>, files: map<string, Bytes>, listing: seq<string>)
    requires IsListing(listing, files) && AllText(utf8, files)
    ensures var once := Refresh(utf8, cache, files, listing);
            Refresh(utf8, once, files, listing) == once
  {
    var once := Refresh(utf8, cache, files, listing);
    RefreshIsUpdate(utf8, cache, files, listing);
    RefreshIsUpdate(utf8, once, files, listing);
    assert once + Texts(utf8, files) == once;
  }

  /** `Collection`: the collection API of the crate. */
  class Collection {
    var mainPath: string
    const config: Config
    /** The directory `config.data_path()` names. */
    const dataDir: DataDir
    /** `md5::compute`, the MD5 digest of a string's bytes. */
    const md5: string -> Digest
    /** UTF-8 decoding as `read_to_string` does it; None for bytes that are not UTF-8. */
    const utf8: Bytes -> Option<string>
    var cachedDocs: map<string, string>

    /**
      `configure`: a collection over the given configuration and data
      directory, with nothing cached. `mainPath` is the directory that holds
      the configuration file.
     */
    constructor Configure(config: Config, mainPath: string, dataDir: DataDir,
                          md5: string -> Digest, utf8: Bytes -> Option<string>)
      ensures this.config == config && this.mainPath == mainPath && this.dataDir == dataDir
      ensures this.md5 == md5 && this.utf8 == utf8
      ensures cachedDocs == map[]
    {
      this.mainPath := mainPath;
      this.config := config;
      this.dataDir := dataDir;
      this.md5 := md5;
      this.utf8 := utf8;
      this.cachedDocs := map[];
    }

    /**
      `gen_key`: the collection prefix followed by the 32 lower-case hex
      digits of the MD5 digest of `pk`, which read back as that digest.
     */
    function GenKey(pk: string): (key: string)
      ensures |key| == |config.collPrefix| + 32
      ensures key[..|config.collPrefix|] == config.collPrefix
      ensures forall i :: |config.collPrefix| <= i < |key| ==> IsLowerHexDigit(key[i])
      ensures ParseHex(key[|config.collPrefix|..]) == Some(md5(pk))
    {
      var suffix := LowerHex(md5(pk));
      ParseLowerHex(md5(pk));
      assert (config.collPrefix + suffix)[|config.collPrefix|..] == suffix;
      config.collPrefix + suffix
    }

    /** Keys of caller keys with different digests differ. */
    lemma GenKeyDistinct(pk1: string, pk2: string)
      ensures md5(pk1) != md5(pk2) ==> GenKey(pk1) != GenKey(pk2)
    {
    }

    /**
      `cache_entries`: inserts the text of every file of the directory under
      its file name; nothing is removed from the cache.
     */
    method CacheEntries(listing: seq<string>)
      requires IsListing(listing, dataDir.files) && AllText(utf8, dataDir.files)
      modifies this`cachedDocs
      ensures cachedDocs == Refresh(utf8, old(cachedDocs), dataDir.files, listing)
      ensures cachedDocs == old(cachedDocs) + Texts(utf8, dataDir.files)
    {
      var i := 0;
      while i < |listing|
        invariant 0 <= i <= |listing|
        invariant cachedDocs == Refresh(utf8, old(cachedDocs), dataDir.files, listing[..i])
      {
        var fp := listing[i];
        var s := utf8(dataDir.files[fp]).value;
        RefreshStep(utf8, old(cachedDocs), dataDir.files, listing, i);
        cachedDocs := cachedDocs[fp := s];
        i := i + 1;
      }
      assert listing[..i] == listing;
      RefreshIsUpdate(utf8, old(cachedDocs), dataDir.files, listing);
    }

    /**
      `exists`: refreshes the cache, then tells whether `pk` itself (a file
      name, not a derived key) is cached.
     */
    method Exists(pk: string, listing: seq<string>) returns (b: bool)
      requires IsListing(listing, dataDir.files) && AllText(utf8, dataDir.files)
      modifies this`cachedDocs
      ensures cachedDocs == old(cachedDocs) + Texts(utf8, dataDir.files)
      ensures b <==> pk in old(cachedDocs) || pk in dataDir.files
    {
      CacheEntries(listing);
      b := pk in cachedDocs;
    }
  }
}
