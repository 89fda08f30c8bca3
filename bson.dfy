/**
  The record codec: a BSON document, the `{"data": value}` envelope that every
  record file holds, and the bson crate calls the store makes, taken
  as a codec value because they are foreign code.
 */
module Bson {
  import opened Wrappers
  import opened FileSystem

  /** A BSON document: fields in insertion order. */
  type Document<B> = seq<(string, B)>

  /** What every real BSON document satisfies: at most one field per key. */
  predicate DistinctKeys<B>(doc: Document<B>)
  {
    forall i, j :: 0 <= i < j < |doc| ==> doc[i].0 != doc[j].0
  }

  predicate HasKey<B>(doc: Document<B>, key: string)
  {
    exists i :: 0 <= i < |doc| && doc[i].0 == key
  }

  /** `Document::get`: the value stored under `key`. */
  function Get<B>(doc: Document<B>, key: string): (r: Option<B>)
    ensures r.None? <==> !HasKey(doc, key)
    ensures r.Some? ==> exists i :: 0 <= i < |doc| && doc[i] == (key, r.value)
  {
    if doc == [] then None
    else if doc[0].0 == key then Some(doc[0].1)
    else Get(doc[1..], key)
  }

  /** `Document::insert`: gives an existing key its new value, otherwise appends; field order is not relied on. */
  function Insert<B>(doc: Document<B>, key: string, value: B): (r: Document<B>)
    ensures Get(r, key) == Some(value)
    ensures forall k :: k != key ==> Get(r, k) == Get(doc, k)
    ensures |r| == if HasKey(doc, key) then |doc| else |doc| + 1
  {
    if doc == [] then [(key, value)]
    else if doc[0].0 == key then [(key, value)] + doc[1..]
    else [doc[0]] + Insert(doc[1..], key, value)
  }

  /**
    The bson crate's conversions, for a value type `T` and a BSON value type
    `B`: its serde conversions `to_bson` (None where the value cannot be
    serialized) and `from_bson` (None where the
    BSON value does not have the shape of `T`), `Document::to_writer` and
    `Document::from_reader` (None where the bytes are not a document).
   */
  datatype Codec<!T, !B> = Codec(
    toBson: T -> Option<B>,
    fromBson: B -> Option<T>,
    writeDoc: Document<B> -> Bytes,
    readDoc: Bytes -> Option<Document<B>>)

  /**
    The round trip the model assumes of the bson crate's conversions: a value
    serde accepts comes back from its BSON value, and a document (one field
    per key) comes back from its bytes.
   */
  ghost predicate Lawful<T(!new), B(!new)>(codec: Codec<T, B>)
  {
    && (forall v :: codec.toBson(v).Some? ==> codec.fromBson(codec.toBson(v).value) == Some(v))
    && (forall doc :: DistinctKeys(doc) ==> codec.readDoc(codec.writeDoc(doc)) == Some(doc))
  }

  /** The field every record file stores its value under. */
  const DataField := "data"

  /** The envelope `write_record` builds: a new document with the one field "data". */
  function Envelope<B>(data: B): (doc: Document<B>)
    ensures doc == [(DataField, data)]
  {
    Insert([], DataField, data)
  }

  /** The bytes of the file that holds `entry`; `to_bson(..).unwrap()` panics on a value serde refuses. */
  function EncodeRecord<T(!new), B(!new)>(codec: Codec<T, B>, entry: T): (bytes: Bytes)
    requires codec.toBson(entry).Some?
    ensures Lawful(codec) ==> codec.readDoc(bytes) == Some([(DataField, codec.toBson(entry).value)])
  {
    codec.writeDoc(Envelope(codec.toBson(entry).value))
  }

  /**
    Bytes that the readers decode without panicking: a document
    (`from_reader(..).expect`), with a "data" field (`get("data").unwrap()`)
    whose value has the shape of `T` (`from_bson(..).unwrap()`).
   */
  predicate WellFormedRecord<T(!new), B(!new)>(codec: Codec<T, B>, bytes: Bytes): (ok: bool)
    ensures Lawful(codec) ==>
      forall v {:trigger EncodeRecord(codec, v)} :: codec.toBson(v).Some? && bytes == EncodeRecord(codec, v) ==> ok
  {
    && codec.readDoc(bytes).Some?
    && Get(codec.readDoc(bytes).value, DataField).Some?
    && codec.fromBson(Get(codec.readDoc(bytes).value, DataField).value).Some?
  }

  /** The value a record file holds, read from its "data" field alone. */
  function DecodeRecord<T(!new), B(!new)>(codec: Codec<T, B>, bytes: Bytes): (r: T)
    requires WellFormedRecord(codec, bytes)
    ensures Lawful(codec) ==>
      forall v {:trigger EncodeRecord(codec, v)} :: codec.toBson(v).Some? && bytes == EncodeRecord(codec, v) ==> r == v
  {
    codec.fromBson(Get(codec.readDoc(bytes).value, DataField).value).value
  }

  /** Writing a record and reading it back gives the value written. */
  lemma RecordRoundTrip<T(!new), B(!new)>(codec: Codec<T, B>, entry: T)
    requires Lawful(codec)
    requires codec.toBson(entry).Some?
    ensures WellFormedRecord(codec, EncodeRecord(codec, entry))
    ensures DecodeRecord(codec, EncodeRecord(codec, entry)) == entry
  {
  }

  /**
    Readers look at the "data" field only: a document with any other fields
    beside it decodes to the value of its "data" field.
   */
  lemma DecodeReadsOnlyData<T(!new), B(!new)>(codec: Codec<T, B>, doc: Document<B>, v: T)
    requires Lawful(codec)
    requires DistinctKeys(doc)
    requires Get(doc, DataField).Some? && codec.fromBson(Get(doc, DataField).value) == Some(v)
    ensures WellFormedRecord(codec, codec.writeDoc(doc))
    ensures DecodeRecord(codec, codec.writeDoc(doc)) == v
  {
  }
}
