/**
 * The sidecar metadata record of Google Photos Takeout and its decoding from
 * JSON, as the derived deserializer of `PhotoMetadata` performs it: camelCase
 * keys, optional fields that may be absent or `null`, unknown keys ignored,
 * and the positional (array) form that derived deserializers also accept.
 */
module Model {
  import opened Wrappers

  /** A parsed JSON document. Objects are maps, so a key occurs at most once. */
  datatype Json =
    | JNull
    | JBool(b: bool)
    | JNumber(n: int)
    | JString(s: string)
    | JArray(items: seq<Json>)
    | JObject(fields: map<string, Json>)

  datatype GoogleTimestamp = GoogleTimestamp(timestamp: string)

  datatype PhotoMetadata = PhotoMetadata(
    photoTakenTime: Option<GoogleTimestamp>,
    creationTime: Option<GoogleTimestamp>)

  const TimestampKey := "timestamp"
  const PhotoTakenTimeKey := "photoTakenTime"
  const CreationTimeKey := "creationTime"

  /** `GoogleTimestamp`: a required string field `timestamp`, or a one-element array holding it. */
  function DecodeTimestamp(j: Json): Option<GoogleTimestamp> {
    match j
    case JObject(fields) =>
      if TimestampKey in fields && fields[TimestampKey].JString? then
        Some(GoogleTimestamp(fields[TimestampKey].s))
      else
        None
    case JArray(items) =>
      if |items| == 1 && items[0].JString? then Some(GoogleTimestamp(items[0].s)) else None
    case _ => None
  }

  /** `Option<GoogleTimestamp>`: `null` is `None`; anything else must decode as a timestamp. */
  function DecodeOptionalTimestamp(j: Json): Option<Option<GoogleTimestamp>> {
    if j.JNull? then
      Some(None)
    else
      match DecodeTimestamp(j)
      case Some(t) => Some(Some(t))
      case None => None
  }

  /** An optional struct field: an absent key decodes as `None`. */
  function DecodeField(fields: map<string, Json>, key: string): Option<Option<GoogleTimestamp>> {
    if key in fields then DecodeOptionalTimestamp(fields[key]) else Some(None)
  }

  /** `PhotoMetadata`: an object with camelCase keys, or a two-element array in field order. */
  function DecodeMetadata(j: Json): Option<PhotoMetadata> {
    match j
    case JObject(fields) =>
      var taken := DecodeField(fields, PhotoTakenTimeKey);
      var created := DecodeField(fields, CreationTimeKey);
      if taken.Some? && created.Some? then Some(PhotoMetadata(taken.value, created.value)) else None
    case JArray(items) =>
      if |items| == 2 then
        var taken := DecodeOptionalTimestamp(items[0]);
        var created := DecodeOptionalTimestamp(items[1]);
        if taken.Some? && created.Some? then Some(PhotoMetadata(taken.value, created.value)) else None
      else
        None
    case _ => None
  }

  function EncodeTimestamp(t: GoogleTimestamp): Json {
    JObject(map[TimestampKey := JString(t.timestamp)])
  }

  /** The canonical JSON of a record: absent fields are written as `null`. */
  function EncodeMetadata(m: PhotoMetadata): Json {
    JObject(map[
      PhotoTakenTimeKey := EncodeOptional(m.photoTakenTime),
      CreationTimeKey := EncodeOptional(m.creationTime)])
  }

  function EncodeOptional(t: Option<GoogleTimestamp>): Json {
    match t
    case None => JNull
    case Some(g) => EncodeTimestamp(g)
  }

  /** The JSON that Takeout writes: a key only for the fields that are present. */
  function EncodeMetadataSparse(m: PhotoMetadata): Json {
    var f := if m.photoTakenTime.Some? then map[PhotoTakenTimeKey := EncodeTimestamp(m.photoTakenTime.value)] else map[];
    var g := if m.creationTime.Some? then f[CreationTimeKey := EncodeTimestamp(m.creationTime.value)] else f;
    JObject(g)
  }

  lemma DecodeTimestampRoundTrip(t: GoogleTimestamp)
    ensures DecodeTimestamp(EncodeTimestamp(t)) == Some(t)
    ensures DecodeOptionalTimestamp(EncodeOptional(Some(t))) == Some(Some(t))
    ensures DecodeOptionalTimestamp(EncodeOptional(None)) == Some(None)
  {
  }

  /** Decoding inverts both encodings. */
  lemma DecodeMetadataRoundTrip(m: PhotoMetadata)
    ensures DecodeMetadata(EncodeMetadata(m)) == Some(m)
    ensures DecodeMetadata(EncodeMetadataSparse(m)) == Some(m)
  {
    DecodeTimestampRoundTrip(GoogleTimestamp(""));
    if m.photoTakenTime.Some? {
      DecodeTimestampRoundTrip(m.photoTakenTime.value);
    }
    if m.creationTime.Some? {
      DecodeTimestampRoundTrip(m.creationTime.value);
    }
    assert PhotoTakenTimeKey != CreationTimeKey;
  }

  /** A record decodes from an object exactly when each known key that is present holds null or a timestamp. */
  lemma DecodeObjectSpec(fields: map<string, Json>)
    ensures DecodeMetadata(JObject(fields)).Some? <==>
      (PhotoTakenTimeKey in fields ==> DecodeOptionalTimestamp(fields[PhotoTakenTimeKey]).Some?) &&
      (CreationTimeKey in fields ==> DecodeOptionalTimestamp(fields[CreationTimeKey]).Some?)
    ensures DecodeMetadata(JObject(fields)).Some? ==>
      (DecodeMetadata(JObject(fields)).value.photoTakenTime.Some? <==>
        PhotoTakenTimeKey in fields && !fields[PhotoTakenTimeKey].JNull?)
    ensures DecodeMetadata(JObject(fields)).Some? ==>
      (DecodeMetadata(JObject(fields)).value.creationTime.Some? <==>
        CreationTimeKey in fields && !fields[CreationTimeKey].JNull?)
  {
  }

  /** Keys other than the two camelCase field names do not affect decoding. */
  lemma DecodeIgnoresOtherKeys(fields: map<string, Json>, key: string, v: Json)
    requires key != PhotoTakenTimeKey && key != CreationTimeKey
    ensures DecodeMetadata(JObject(fields[key := v])) == DecodeMetadata(JObject(fields))
  {
    assert DecodeField(fields[key := v], PhotoTakenTimeKey) == DecodeField(fields, PhotoTakenTimeKey);
    assert DecodeField(fields[key := v], CreationTimeKey) == DecodeField(fields, CreationTimeKey);
  }

  /** Keys other than `timestamp` inside a timestamp object do not affect decoding. */
  lemma DecodeTimestampIgnoresOtherKeys(fields: map<string, Json>, key: string, v: Json)
    requires key != TimestampKey
    ensures DecodeTimestamp(JObject(fields[key := v])) == DecodeTimestamp(JObject(fields))
  {
  }

  /** The snake_case spelling is not recognised: such a document decodes with both fields absent. */
  lemma SnakeCaseKeysIgnored(t: GoogleTimestamp)
    ensures DecodeMetadata(JObject(map["photo_taken_time" := EncodeTimestamp(t)]))
         == Some(PhotoMetadata(None, None))
  {
    DecodeIgnoresOtherKeys(map[], "photo_taken_time", EncodeTimestamp(t));
  }

  /** A timestamp that is a JSON number, or a missing `timestamp`, makes the whole document fail. */
  lemma TimestampMustBeString(n: int)
    ensures DecodeMetadata(JObject(map[PhotoTakenTimeKey := JObject(map[TimestampKey := JNumber(n)])])) == None
    ensures DecodeMetadata(JObject(map[CreationTimeKey := JObject(map[])])) == None
  {
  }

  /** Only an object or an array of exactly two elements can be a record. */
  lemma DecodeMetadataShape(j: Json)
    ensures DecodeMetadata(j).Some? ==> j.JObject? || (j.JArray? && |j.items| == 2)
    ensures DecodeMetadata(JArray([JNull])) == None
    ensures DecodeMetadata(JArray([JNull, JNull, JNull])) == None
    ensures DecodeMetadata(JArray([JNull, JNull])) == Some(PhotoMetadata(None, None))
  {
  }
}
