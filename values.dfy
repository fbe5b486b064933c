/** The JavaScript values the utilities take apart: a JSON-like tagged union
    with the primitives, plain objects (own enumerable properties in key order),
    arrays and functions. */
module Values {

  import opened Results
  import opened Strings

  datatype Value =
    | Undefined
    | Null
    | Bool(b: bool)
    | Num(n: int)
    | Str(s: string)
      /** A plain object: its own enumerable properties in `Object.keys` order. */
    | Obj(entries: seq<(string, Value)>)
    | Arr(items: seq<Value>)
      /** A function; `text` is its source text, what `String(f)` gives. */
    | Func(text: string)

  /** `typeof v === "object"`: plain objects, arrays and, notoriously, null. */
  predicate IsTypeofObject(v: Value) {
    v.Null? || v.Obj? || v.Arr?
  }

  /** Underscore's `_.isObject(v)`: functions and non-null objects. */
  predicate IsObjectLike(v: Value) {
    v.Obj? || v.Arr? || v.Func?
  }

  /** A value whose `Object.keys` the model enumerates: a plain object or an array. */
  predicate HasEntries(v: Value) {
    v.Obj? || v.Arr?
  }

  /** The number of keys `Object.keys(v)` gives. */
  function EntryCount(v: Value): nat
    requires HasEntries(v)
  {
    if v.Obj? then |v.entries| else |v.items|
  }

  /** `Object.keys(v)[i]`: the i-th own key; for an array the decimal index. */
  function EntryKey(v: Value, i: nat): string
    requires HasEntries(v) && i < EntryCount(v)
  {
    if v.Obj? then v.entries[i].0 else NatToString(i)
  }

  /** The value stored under the i-th own key. */
  function EntryValue(v: Value, i: nat): Value
    requires HasEntries(v) && i < EntryCount(v)
  {
    if v.Obj? then v.entries[i].1 else v.items[i]
  }

  /** The value of the first property called `key`, or undefined. */
  function Field(entries: seq<(string, Value)>, key: string): Value
    decreases |entries|
  {
    if entries == [] then Undefined
    else if entries[0].0 == key then entries[0].1
    else Field(entries[1..], key)
  }

  /** JavaScript gives every object distinct own keys. */
  predicate DistinctKeys(entries: seq<(string, Value)>) {
    forall i, j :: 0 <= i < j < |entries| ==> entries[i].0 != entries[j].0
  }

  /** `v[key]` on an object-like value. Arrays answer their canonical index
      strings and `length`; functions answer nothing the model knows of. */
  function Get(v: Value, key: string): Value
    requires IsObjectLike(v)
  {
    match v
    case Obj(entries) => Field(entries, key)
    case Arr(items) =>
      var index := ParseIndex(key);
      if key == "length" then Num(|items|)
      else if index.Some? && index.value < |items| then items[index.value]
      else Undefined
    case Func(_) => Undefined
  }

  /** What JavaScript throws when a property of undefined or null is read. */
  datatype TypeError = CannotReadProperty

  /** `v[key]` for any value. Reading a property of undefined or null throws;
      a string answers `length` and its canonical indices with one-character
      strings; booleans and numbers answer nothing the model knows of. */
  function Member(v: Value, key: string): (r: Result<Value, TypeError>)
    ensures r.Err? <==> v.Undefined? || v.Null?
    ensures IsObjectLike(v) ==> r == Ok(Get(v, key))
  {
    match v
    case Undefined => Err(CannotReadProperty)
    case Null => Err(CannotReadProperty)
    case Str(s) =>
      var index := ParseIndex(key);
      if key == "length" then Ok(Num(|s|))
      else if index.Some? && index.value < |s| then Ok(Str([s[index.value]]))
      else Ok(Undefined)
    case Bool(_) => Ok(Undefined)
    case Num(_) => Ok(Undefined)
    case _ => Ok(Get(v, key))
  }

  /** `String(v)` for a value that `typeof` does not call an object. */
  function ToJsString(v: Value): string
    requires !IsTypeofObject(v)
  {
    match v
    case Undefined => "undefined"
    case Bool(b) => if b then "true" else "false"
    case Num(n) => IntToString(n)
    case Str(s) => s
    case Func(text) => text
    case _ => ""
  }

  lemma {:induction false} FieldAt(entries: seq<(string, Value)>, i: nat)
    requires i < |entries| && DistinctKeys(entries)
    ensures Field(entries, entries[i].0) == entries[i].1
    decreases i
  {
    if i > 0 {
      assert entries[0].0 != entries[i].0;
      assert entries[1..][i - 1] == entries[i];
      FieldAt(entries[1..], i - 1);
    }
  }

  /** Reading `v[Object.keys(v)[i]]` yields the i-th own entry's value. */
  lemma GetEntry(v: Value, i: nat)
    requires HasEntries(v) && i < EntryCount(v)
    requires v.Obj? ==> DistinctKeys(v.entries)
    ensures Get(v, EntryKey(v, i)) == EntryValue(v, i)
  {
    if v.Obj? {
      FieldAt(v.entries, i);
    } else {
      ParseIndexOfNatToString(i);
      assert NatToString(i)[0] != 'l';
    }
  }
}
