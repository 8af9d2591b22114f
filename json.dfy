/**
  JSON-like values as the pipeline's Lambda handlers see them: an event is an
  object (a map from keys to values). JavaScript `undefined` is modelled as an
  absent key, which is what JSON serialisation of a handler's result makes of it.
  Numbers are integers; floating point is not modelled.
*/
module Json {
  import opened Wrappers

  datatype Value =
    | Null
    | Bool(b: bool)
    | Num(n: int)
    | Str(s: string)
    | Arr(items: seq<Value>)
    | Obj(fields: map<string, Value>)

  type Record = map<string, Value>

  /** JavaScript truthiness of a present value (`null`, `false`, `0` and `""` are falsy). */
  predicate Truthy(v: Value) {
    match v
    case Null => false
    case Bool(b) => b
    case Num(n) => n != 0
    case Str(s) => s != ""
    case Arr(_) => true
    case Obj(_) => true
  }

  /** Exactly `null`, `false`, `0` and `""` are falsy; empty arrays and objects are truthy. */
  lemma FalsyValues(v: Value)
    ensures !Truthy(v) <==> v in {Null, Bool(false), Num(0), Str("")}
    ensures Truthy(Arr([])) && Truthy(Obj(map[]))
  {
  }

  /** Truthiness of `event[key]`; a missing key reads as `undefined`, which is falsy. */
  predicate TruthyField(r: Record, key: string) {
    key in r && Truthy(r[key])
  }

  /**
    Reading property `key` of a value: `Err` where JavaScript throws a TypeError
    (reading a property of `undefined` or `null`), `Ok(None)` where it yields
    `undefined`, `Ok(Some(v))` where it yields `v`. Only the key `days` is
    read in the pipeline; no built-in prototype defines it, so every value but
    an object that owns it yields `undefined`. Keys such as `length`, array
    indices or inherited method names would give other answers and are not
    modelled.
  */
  function Property(v: Option<Value>, key: string): (r: Result<Option<Value>>)
    requires key == "days"
    ensures r.Err? <==> v.None? || v == Some(Null)
    ensures r.Ok? && r.value.Some? <==> v.Some? && v.value.Obj? && key in v.value.fields
    ensures r.Ok? && r.value.Some? ==> r.value.value == v.value.fields[key]
  {
    match v
    case None => Err("Cannot read properties of undefined (reading '" + key + "')")
    case Some(Null) => Err("Cannot read properties of null (reading '" + key + "')")
    case Some(Obj(fields)) => Ok(if key in fields then Some(fields[key]) else None)
    case Some(_) => Ok(None)
  }

  /** `event[key]` as an optional value. */
  function Field(r: Record, key: string): Option<Value> {
    if key in r then Some(r[key]) else None
  }

  /** Adds the entry `key: v` when `v` is defined; an `undefined` entry is dropped. */
  function WithOptional(r: Record, key: string, v: Option<Value>): (w: Record)
    ensures w.Keys <= r.Keys + {key}
    ensures key !in r ==> Field(w, key) == v
    ensures forall k :: k != key ==> Field(w, k) == Field(r, k)
  {
    if v.Some? then r[key := v.value] else r
  }
}
