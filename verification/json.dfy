/**
 JSON documents as `encoding/json` sees them when it decodes into Go's generic
 containers, and the two shapes `readManifest` (recommend/imageHandler.go:231-271)
 decodes into: a list of `map[string]interface{}` for the manifest and a single
 `map[string]interface{}` for the image config.

 Byte-level JSON syntax is not modelled: a document is its parsed value. An
 object is a map from member names to values (for a repeated member name the
 decoder keeps the last value, which a map represents directly).
 */
module JsonValues {
  import opened Results

  datatype Json =
    | JNull
    | JBool(b: bool)
    | JNumber(text: string)
    | JString(str: string)
    | JArray(items: seq<Json>)
    | JObject(members: map<string, Json>)

  /** A Go `map[string]interface{}` after decoding: nil (decoded from JSON
      null) or the object's members. Reading a key of a nil map finds nothing. */
  datatype GoMap = NilMap | GoMapOf(members: map<string, Json>)

  predicate Has(m: GoMap, key: string) {
    m.GoMapOf? && key in m.members
  }

  /** Decoding into `[]map[string]interface{}`: null gives the empty list, an
      array gives one map per element (null elements give nil maps), and any
      other shape is a decoding error. */
  function DecodeMapList(path: string, j: Json): (r: Result<seq<GoMap>>)
    ensures r.Success? <==> j.JNull? || (j.JArray? && forall i :: 0 <= i < |j.items| ==> DecodesToMap(j.items[i]))
    ensures r.Success? && j.JArray? ==>
      |r.value| == |j.items| && (forall i :: 0 <= i < |j.items| ==> r.value[i] == MapOf(j.items[i]))
    ensures r.Success? && j.JNull? ==> r.value == []
    ensures r.Failure? ==> r.error == NotRecordList(path)
  {
    match j
    case JNull => Success([])
    case JArray(items) =>
      if forall i :: 0 <= i < |items| ==> DecodesToMap(items[i]) then Success(MapsOf(items))
      else Failure(NotRecordList(path))
    case _ => Failure(NotRecordList(path))
  }

  predicate DecodesToMap(j: Json) {
    j.JNull? || j.JObject?
  }

  function MapOf(j: Json): GoMap {
    if j.JObject? then GoMapOf(j.members) else NilMap
  }

  function MapsOf(items: seq<Json>): (r: seq<GoMap>)
    ensures |r| == |items|
    ensures forall i :: 0 <= i < |items| ==> r[i] == MapOf(items[i])
  {
    seq(|items|, i requires 0 <= i < |items| => MapOf(items[i]))
  }

  /** Decoding into `map[string]interface{}`: null gives a nil map, an object
      gives its members, any other shape is a decoding error. */
  function DecodeMap(path: string, j: Json): (r: Result<GoMap>)
    ensures r.Success? <==> DecodesToMap(j)
    ensures r.Success? ==> r.value == MapOf(j)
    ensures r.Failure? ==> r.error == NotRecord(path)
  {
    if DecodesToMap(j) then Success(MapOf(j)) else Failure(NotRecord(path))
  }

  /** `m[key].(string)`: a missing key, a nil map or a value of another type
      makes the type assertion panic. */
  function StringField(m: GoMap, key: string): (r: Result<string>)
    ensures r.Success? <==> Has(m, key) && m.members[key].JString?
    ensures r.Success? ==> m.members[key] == JString(r.value)
    ensures r.Failure? ==> r.error == FieldMismatch(key)
  {
    if Has(m, key) && m.members[key].JString? then Success(m.members[key].str)
    else Failure(FieldMismatch(key))
  }

  /** The JSON strings of a list of Go strings. */
  function JStrings(ss: seq<string>): (r: seq<Json>)
    ensures |r| == |ss|
    ensures forall i :: 0 <= i < |ss| ==> r[i] == JString(ss[i])
  {
    seq(|ss|, i requires 0 <= i < |ss| => JString(ss[i]))
  }

  /** `.(string)` on every element of a decoded array, appending in order;
      the first element of another type panics. */
  function Strings(key: string, items: seq<Json>): (r: Result<seq<string>>)
    ensures r.Success? <==> forall i :: 0 <= i < |items| ==> items[i].JString?
    ensures r.Success? ==> items == JStrings(r.value)
    ensures r.Failure? ==> r.error == FieldMismatch(key)
  {
    if items == [] then Success([])
    else if !items[0].JString? then Failure(FieldMismatch(key))
    else
      var rest := Strings(key, items[1..]);
      if rest.Failure? then rest
      else
        assert items == [items[0]] + items[1..];
        Success([items[0].str] + rest.value)
  }

  /** `m[key].([]interface{})` followed by `.(string)` on each element. */
  function StringsField(m: GoMap, key: string): (r: Result<seq<string>>)
    ensures r.Success? <==>
      Has(m, key) && m.members[key].JArray? && (forall i :: 0 <= i < |m.members[key].items| ==> m.members[key].items[i].JString?)
    ensures r.Success? ==> m.members[key] == JArray(JStrings(r.value))
    ensures r.Failure? ==> r.error == FieldMismatch(key)
  {
    if Has(m, key) && m.members[key].JArray? then Strings(key, m.members[key].items)
    else Failure(FieldMismatch(key))
  }

  /** Reading back the JSON strings of a list gives the list. */
  lemma StringsRoundTrip(key: string, ss: seq<string>)
    ensures Strings(key, JStrings(ss)) == Success(ss)
  {
    var r := Strings(key, JStrings(ss));
    assert r.Success?;
    assert JStrings(r.value) == JStrings(ss);
    forall i | 0 <= i < |ss|
      ensures r.value[i] == ss[i]
    {
      assert JStrings(r.value)[i] == JStrings(ss)[i];
    }
    assert r.value == ss;
  }

  // ---------------------------------------------------------------------------
  // The decoders against the encoder: what `json.Marshal` writes for Go's
  // generic containers is read back unchanged, and every accepted document is
  // such an encoding.

  /** `json.Marshal` of a `map[string]interface{}`: null for a nil map, an
      object holding the members otherwise. */
  function EncodeMap(m: GoMap): Json {
    if m.NilMap? then JNull else JObject(m.members)
  }

  /** `json.Marshal` of a non-nil `[]map[string]interface{}`. */
  function EncodeMapList(ms: seq<GoMap>): Json {
    JArray(seq(|ms|, i requires 0 <= i < |ms| => EncodeMap(ms[i])))
  }

  /** Decoding into a map reads back exactly what was encoded, and every
      document it accepts is the encoding of the map it yields. */
  lemma DecodeMapInverse(path: string, m: GoMap, j: Json)
    ensures DecodeMap(path, EncodeMap(m)) == Success(m)
    ensures DecodeMap(path, j).Success? ==> EncodeMap(DecodeMap(path, j).value) == j
  {
  }

  /** Decoding into a list of maps reads back every encoded list, element by
      element and in order; every document it accepts is null (no records) or
      the encoding of the list it yields. */
  lemma DecodeMapListInverse(path: string, ms: seq<GoMap>, j: Json)
    ensures DecodeMapList(path, EncodeMapList(ms)) == Success(ms)
    ensures DecodeMapList(path, j).Success? ==>
      (j == JNull && DecodeMapList(path, j).value == []) || j == EncodeMapList(DecodeMapList(path, j).value)
  {
    var e := EncodeMapList(ms);
    forall i | 0 <= i < |ms|
      ensures DecodesToMap(e.items[i]) && MapOf(e.items[i]) == ms[i]
    {
      assert e.items[i] == EncodeMap(ms[i]);
    }
    assert DecodeMapList(path, e).value == ms;
    var r := DecodeMapList(path, j);
    if r.Success? && j.JArray? {
      var back := EncodeMapList(r.value);
      forall i | 0 <= i < |j.items|
        ensures back.items[i] == j.items[i]
      {
        assert r.value[i] == MapOf(j.items[i]);
      }
      assert back.items == j.items;
    }
  }

  /** A string stored under a key is what the type assertion on that key
      yields, whatever else the map holds. */
  lemma StringFieldRoundTrip(members: map<string, Json>, key: string, s: string)
    ensures StringField(GoMapOf(members[key := JString(s)]), key) == Success(s)
  {
  }

  /** The type assertion on a key looks at that key only: storing under
      another key does not change its outcome, and a successful read stores
      back to the same map. */
  lemma StringFieldFrame(members: map<string, Json>, key: string, other: string, v: Json)
    requires other != key
    ensures StringField(GoMapOf(members[other := v]), key) == StringField(GoMapOf(members), key)
    ensures StringField(GoMapOf(members), key).Success? ==>
      members[key := JString(StringField(GoMapOf(members), key).value)] == members
  {
  }
}
