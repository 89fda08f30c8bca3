/**
  The part of the file system the store works on: one data directory holding
  regular files, each a name and its bytes, and the name arithmetic of
  `std::path` that the store relies on (`file_name`, `file_stem`).
 */
module FileSystem {
  import opened Wrappers

  newtype byte = b: int | 0 <= b < 256

  type Bytes = seq<byte>

  /** A name that `File::create(<dir>/<name>)` turns into a file directly inside the directory. */
  predicate IsFileName(name: string)
  {
    name != "" && name != "." && name != ".." && '/' !in name && '\0' !in name
  }

  /** The position of the last occurrence of `c` in `s`, if any. */
  function LastIndexOf(s: string, c: char): (r: Option<nat>)
    ensures r.None? <==> c !in s
    ensures r.Some? ==> r.value < |s| && s[r.value] == c
    ensures r.Some? ==> forall j :: r.value < j < |s| ==> s[j] != c
  {
    if s == [] then None
    else if s[|s| - 1] == c then Some(|s| - 1)
    else LastIndexOf(s[..|s| - 1], c)
  }

  /**
    `Path::file_stem` of a file name: everything before the last '.', unless
    the name has no '.', its only '.' is the leading one, or the name is "..",
    in which case the whole name.
   */
  function Stem(name: string): (stem: string)
    ensures |stem| <= |name| && stem == name[..|stem|]
    ensures stem == name || (|stem| > 0 && name[|stem|] == '.' && '.' !in name[|stem| + 1..])
    ensures stem == name <==> (name == ".." || forall j :: 0 < j < |name| ==> name[j] != '.')
  {
    if name == ".." then name
    else match LastIndexOf(name, '.')
      case None => name
      case Some(i) => if i == 0 then name else name[..i]
  }

  /** `listing` is one enumeration of the directory, as `read_dir` yields it: every file exactly once, in some order. */
  ghost predicate IsListing(listing: seq<string>, files: map<string, Bytes>)
  {
    && (forall i, j :: 0 <= i < j < |listing| ==> listing[i] != listing[j])
    && (forall n :: n in listing <==> n in files)
  }

  /** The data directory of a collection, the only state the store has. */
  class DataDir {
    var files: map<string, Bytes>

    ghost predicate Valid()
      reads this
    {
      forall n :: n in files ==> IsFileName(n)
    }

    constructor (files: map<string, Bytes>)
      requires forall n :: n in files ==> IsFileName(n)
      ensures Valid() && this.files == files
    {
      this.files := files;
    }
  }
}
