/** The part of `json.dumps(obj, default=..., sort_keys=True)` the exporters
    rely on: which Python values it writes natively, when it falls back to the
    `default` hook, and the order in which it writes a dict's keys. The output
    is kept as a tree (`Json`) whose objects list their members in the order
    they are written; whitespace and escaping are not modelled. */
module JsonOutput {
  import opened Wrappers
  import opened TextOrder
  import opened DateTime

  /** A value stored in a dict built by a `to_dict()` method. */
  datatype Value =
    | Null
    | Bool(b: bool)
    | Int(i: int)
    | Str(s: string)
    | Time(t: DateTime)
    | Opaque(typeName: string)   // any other object the encoder cannot write

  /** A flat dict from field name to value. */
  type Dict = map<string, Value>

  datatype Json =
    | JNull
    | JBool(b: bool)
    | JInt(i: int)
    | JString(s: string)
    | JArray(items: seq<Json>)
    | JObject(members: seq<Member>)

  datatype Member = Member(key: string, value: Json)

  /** The `TypeError` raised for an object that cannot be serialised. */
  datatype EncodeError = TypeError(typeName: string)

  /** Python's type name of a value, as the `TypeError` message reports it. */
  function TypeName(v: Value): string
  {
    match v
    case Null => "NoneType"
    case Bool(_) => "bool"
    case Int(_) => "int"
    case Str(_) => "str"
    case Time(_) => "datetime"
    case Opaque(n) => n
  }

  /** The `default` hook json.dumps uses when the caller gives none: it always raises. */
  function NoDefault(v: Value): Result<Json, EncodeError>
  {
    Failure(TypeError(TypeName(v)))
  }

  /** The values `json.dumps` writes without calling the `default` hook. */
  predicate Native(v: Value)
  {
    v.Null? || v.Bool? || v.Int? || v.Str?
  }

  /** Without a hook, a flat dict is written exactly when all its values are native. */
  lemma EncodeDictNoDefault(d: Dict)
    ensures EncodeDict(d, NoDefault).Success? <==> forall f | f in d :: Native(d[f])
  {
    EncodeMapSucceeds(d, v => EncodeValue(v, NoDefault));
  }

  /** Encodes one value: `None`, booleans, integers and strings natively, anything
      else through the `default` hook. */
  function EncodeValue(v: Value, default: Value -> Result<Json, EncodeError>): Result<Json, EncodeError>
  {
    match v
    case Null => Success(JNull)
    case Bool(b) => Success(JBool(b))
    case Int(i) => Success(JInt(i))
    case Str(s) => Success(JString(s))
    case _ => default(v)
  }

  function MemberKeys(ms: seq<Member>): (ks: seq<string>)
    ensures |ks| == |ms|
    ensures forall i | 0 <= i < |ms| :: ks[i] == ms[i].key
  {
    seq(|ms|, i requires 0 <= i < |ms| => ms[i].key)
  }

  /** Every object, at every depth, lists its keys in strictly increasing order. */
  predicate KeysSorted(j: Json)
  {
    match j
    case JArray(items) => forall i | 0 <= i < |items| :: KeysSorted(items[i])
    case JObject(ms) =>
      && StrictlyIncreasing(MemberKeys(ms))
      && forall i | 0 <= i < |ms| :: KeysSorted(ms[i].value)
    case _ => true
  }

  /** Writes the entries of `m` under `keys`, in that order, stopping at the
      first value that cannot be encoded. */
  function EncodeEntries<X>(keys: seq<string>, m: map<string, X>,
                            enc: X -> Result<Json, EncodeError>): (r: Result<seq<Member>, EncodeError>)
    requires forall k | k in keys :: k in m
    ensures r.Success? ==> MemberKeys(r.value) == keys
    ensures r.Success? ==> forall i | 0 <= i < |keys| :: enc(m[keys[i]]) == Success(r.value[i].value)
    ensures r.Failure? ==> exists i | 0 <= i < |keys| ::
              && enc(m[keys[i]]) == Failure(r.error)
              && forall h | 0 <= h < i :: enc(m[keys[h]]).Success?
    ensures r.Success? <==> forall i | 0 <= i < |keys| :: enc(m[keys[i]]).Success?
  {
    if keys == [] then Success([])
    else
      match enc(m[keys[0]])
      case Failure(e) => Failure(e)
      case Success(j) =>
        match EncodeEntries(keys[1..], m, enc)
        case Failure(e) =>
          Failure(e)
        case Success(rest) =>
          var ms := [Member(keys[0], j)] + rest;
          assert MemberKeys(ms) == keys;
          Success(ms)
  }

  /** Writes a dict as an object with its keys sorted. */
  function EncodeMap<X>(m: map<string, X>, enc: X -> Result<Json, EncodeError>): (r: Result<Json, EncodeError>)
    ensures r.Success? ==> r.value.JObject? && MemberKeys(r.value.members) == SortedKeys(m.Keys)
    ensures r.Success? ==> forall i | 0 <= i < |r.value.members| ::
              r.value.members[i].key in m && enc(m[r.value.members[i].key]) == Success(r.value.members[i].value)
  {
    var keys := SortedKeys(m.Keys);
    match EncodeEntries(keys, m, enc)
    case Failure(e) => Failure(e)
    case Success(ms) =>
      assert forall i | 0 <= i < |ms| :: ms[i].key in m && enc(m[ms[i].key]) == Success(ms[i].value) by {
        forall i | 0 <= i < |ms|
          ensures ms[i].key in m && enc(m[ms[i].key]) == Success(ms[i].value)
        {
          assert MemberKeys(ms)[i] == ms[i].key == keys[i];
        }
      }
      Success(JObject(ms))
  }

  /** A dict is written exactly when every one of its values can be. */
  lemma EncodeMapSucceeds<X>(m: map<string, X>, enc: X -> Result<Json, EncodeError>)
    ensures EncodeMap(m, enc).Success? <==> forall k | k in m :: enc(m[k]).Success?
  {
    var keys := SortedKeys(m.Keys);
    assert EncodeMap(m, enc).Success? <==> EncodeEntries(keys, m, enc).Success?;
    EveryKey(keys, m, enc);
  }

  lemma EveryKey<X>(keys: seq<string>, m: map<string, X>, enc: X -> Result<Json, EncodeError>)
    requires forall k :: k in keys <==> k in m
    ensures (forall i | 0 <= i < |keys| :: enc(m[keys[i]]).Success?) <==> (forall k | k in m :: enc(m[k]).Success?)
  {
    if forall i | 0 <= i < |keys| :: enc(m[keys[i]]).Success? {
      forall k | k in m
        ensures enc(m[k]).Success?
      {
        var i :| 0 <= i < |keys| && keys[i] == k;
      }
    }
  }

  function EncodeDict(d: Dict, default: Value -> Result<Json, EncodeError>): Result<Json, EncodeError>
  {
    EncodeMap(d, v => EncodeValue(v, default))
  }

  /** Writes a list element by element, stopping at the first failure. */
  function EncodeList<X>(xs: seq<X>, enc: X -> Result<Json, EncodeError>): (r: Result<Json, EncodeError>)
    ensures r.Success? ==> r.value.JArray? && |r.value.items| == |xs|
    ensures r.Success? ==> forall i | 0 <= i < |xs| :: enc(xs[i]) == Success(r.value.items[i])
    ensures r.Success? <==> forall i | 0 <= i < |xs| :: enc(xs[i]).Success?
  {
    if xs == [] then Success(JArray([]))
    else
      match enc(xs[0])
      case Failure(e) => Failure(e)
      case Success(j) =>
        match EncodeList(xs[1..], enc)
        case Failure(e) => Failure(e)
        case Success(rest) => Success(JArray([j] + rest.items))
  }

  /** The value stored under `key` in an encoded object. */
  function Field(j: Json, key: string): (r: Option<Json>)
    ensures r.Some? ==> j.JObject? && exists i | 0 <= i < |j.members| :: j.members[i] == Member(key, r.value)
    ensures r.None? ==> !j.JObject? || forall i | 0 <= i < |j.members| :: j.members[i].key != key
  {
    if !j.JObject? then None else FieldIn(j.members, key)
  }

  function FieldIn(ms: seq<Member>, key: string): (r: Option<Json>)
    ensures r.Some? ==> exists i | 0 <= i < |ms| :: ms[i] == Member(key, r.value)
    ensures r.None? ==> forall i | 0 <= i < |ms| :: ms[i].key != key
  {
    if ms == [] then None
    else if ms[0].key == key then Some(ms[0].value)
    else
      var r := FieldIn(ms[1..], key);
      assert forall i | 0 <= i < |ms| - 1 :: ms[1..][i] == ms[i + 1];
      r
  }

  lemma {:induction false} FieldInAt(ms: seq<Member>, i: int)
    requires 0 <= i < |ms|
    requires forall h | 0 <= h < i :: ms[h].key != ms[i].key
    ensures FieldIn(ms, ms[i].key) == Some(ms[i].value)
  {
    if i > 0 {
      FieldInAt(ms[1..], i - 1);
    }
  }

  /** In an object whose keys are strictly increasing, looking up a member's
      key finds that member's value. */
  lemma FieldInIncreasing(ms: seq<Member>, i: int)
    requires StrictlyIncreasing(MemberKeys(ms))
    requires 0 <= i < |ms|
    ensures FieldIn(ms, ms[i].key) == Some(ms[i].value)
  {
    IncreasingDistinct(MemberKeys(ms), i);
    KeysDistinct(ms, i);
    FieldInAt(ms, i);
  }

  lemma KeysDistinct(ms: seq<Member>, i: int)
    requires 0 <= i < |ms|
    requires forall h | 0 <= h < i :: MemberKeys(ms)[h] != MemberKeys(ms)[i]
    ensures forall h | 0 <= h < i :: ms[h].key != ms[i].key
  {
    var ks := MemberKeys(ms);
    forall h | 0 <= h < i
      ensures ms[h].key != ms[i].key
    {
      assert ks[h] == ms[h].key && ks[i] == ms[i].key;
    }
  }

  /** Looking a key up in an encoded map finds exactly the map's keys, each
      with its own encoded value. */
  lemma EncodeMapReadBack<X>(m: map<string, X>, enc: X -> Result<Json, EncodeError>)
    requires EncodeMap(m, enc).Success?
    ensures forall k :: Field(EncodeMap(m, enc).value, k).Some? <==> k in m
    ensures forall k | k in m :: enc(m[k]) == Success(Field(EncodeMap(m, enc).value, k).value)
  {
    forall k
      ensures Field(EncodeMap(m, enc).value, k).Some? <==> k in m
      ensures k in m ==> enc(m[k]) == Success(Field(EncodeMap(m, enc).value, k).value)
    {
      EncodeMapReadBackAt(m, enc, k);
    }
  }

  lemma EncodeMapReadBackAt<X>(m: map<string, X>, enc: X -> Result<Json, EncodeError>, k: string)
    requires EncodeMap(m, enc).Success?
    ensures Field(EncodeMap(m, enc).value, k).Some? <==> k in m
    ensures k in m ==> enc(m[k]) == Success(Field(EncodeMap(m, enc).value, k).value)
  {
    if k in m {
      EncodeMapHasKey(m, enc, k);
    }
    if Field(EncodeMap(m, enc).value, k).Some? {
      EncodeMapFieldValue(m, enc, k);
    }
  }

  lemma EncodeMapHasKey<X>(m: map<string, X>, enc: X -> Result<Json, EncodeError>, k: string)
    requires EncodeMap(m, enc).Success? && k in m
    ensures exists i | 0 <= i < |EncodeMap(m, enc).value.members| :: EncodeMap(m, enc).value.members[i].key == k
  {
    var ms := EncodeMap(m, enc).value.members;
    var keys := SortedKeys(m.Keys);
    assert MemberKeys(ms) == keys;
    var i :| 0 <= i < |keys| && keys[i] == k;
    assert ms[i].key == MemberKeys(ms)[i];
  }

  lemma EncodeMapFieldValue<X>(m: map<string, X>, enc: X -> Result<Json, EncodeError>, k: string)
    requires EncodeMap(m, enc).Success? && Field(EncodeMap(m, enc).value, k).Some?
    ensures k in m && enc(m[k]) == Success(Field(EncodeMap(m, enc).value, k).value)
  {
    var u := EncodeMap(m, enc).value;
    var ms := u.members;
    var i :| 0 <= i < |ms| && ms[i] == Member(k, Field(u, k).value);
    assert ms[i].key == k;
  }

  /** A `default` hook keeps keys sorted when whatever it returns does. */
  ghost predicate SortedHook(default: Value -> Result<Json, EncodeError>)
  {
    forall v :: default(v).Success? ==> KeysSorted(default(v).value)
  }

  lemma EncodeValueSorted(v: Value, default: Value -> Result<Json, EncodeError>)
    requires SortedHook(default)
    ensures EncodeValue(v, default).Success? ==> KeysSorted(EncodeValue(v, default).value)
  {
  }

  /** An encoded map has sorted keys if each encoded value has. */
  lemma EncodeMapSorted<X>(m: map<string, X>, enc: X -> Result<Json, EncodeError>)
    requires forall k | k in m :: enc(m[k]).Success? ==> KeysSorted(enc(m[k]).value)
    ensures EncodeMap(m, enc).Success? ==> KeysSorted(EncodeMap(m, enc).value)
  {
    var r := EncodeMap(m, enc);
    if r.Success? {
      var ms := r.value.members;
      forall i | 0 <= i < |ms|
        ensures KeysSorted(ms[i].value)
      {
        var k := ms[i].key;
        assert MemberKeys(ms)[i] == k;
        assert k in SortedKeys(m.Keys);
      }
    }
  }

  lemma EncodeListSorted<X>(xs: seq<X>, enc: X -> Result<Json, EncodeError>)
    requires forall i | 0 <= i < |xs| :: enc(xs[i]).Success? ==> KeysSorted(enc(xs[i]).value)
    ensures EncodeList(xs, enc).Success? ==> KeysSorted(EncodeList(xs, enc).value)
  {
  }

  lemma EncodeDictSorted(d: Dict, default: Value -> Result<Json, EncodeError>)
    requires SortedHook(default)
    ensures EncodeDict(d, default).Success? ==> KeysSorted(EncodeDict(d, default).value)
  {
    forall k | k in d
      ensures EncodeValue(d[k], default).Success? ==> KeysSorted(EncodeValue(d[k], default).value)
    {
      EncodeValueSorted(d[k], default);
    }
    EncodeMapSorted(d, v => EncodeValue(v, default));
  }
}
