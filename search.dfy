/** Searching a collection of objects for the first one whose property holds
    a given value: `getKeyByPropertyValue` (an index, or -1) and
    `getObjectByPropertyValue` (the element itself, or undefined). */
module Search {

  import opened Results
  import opened Strings
  import opened Values

  /** `element[property] === value`, or the TypeError that reading the
      property throws. Strict equality is structural equality here. */
  function Probe(element: Value, property: string, value: Value): (r: Result<bool, TypeError>)
    ensures r.Err? <==> element.Undefined? || element.Null?
  {
    var seen :- Member(element, property);
    Ok(seen == value)
  }

  /** The scan both searches perform, from position `from` on: the first
      position that matches, -1 when none does, or the error that stops it. */
  function ScanFrom(data: seq<Value>, property: string, value: Value, from: nat): (r: Result<int, TypeError>)
    requires from <= |data|
    ensures r.Ok? ==> r.value == -1 || from <= r.value < |data|
    decreases |data| - from
  {
    if from == |data| then Ok(-1)
    else
      var hit :- Probe(data[from], property, value);
      if hit then Ok(from) else ScanFrom(data, property, value, from + 1)
  }

  /** The position of the first element of `data` whose `property` is `value`. */
  function FirstMatch(data: seq<Value>, property: string, value: Value): (r: Result<int, TypeError>)
    ensures r.Ok? ==> -1 <= r.value < |data|
  {
    ScanFrom(data, property, value, 0)
  }

  /** The elements positioned `from` up to `to` are all read without error and
      none matches. */
  predicate NoneMatch(data: seq<Value>, property: string, value: Value, from: nat, to: nat)
    requires from <= to <= |data|
  {
    forall j :: from <= j < to ==> Probe(data[j], property, value) == Ok(false)
  }

  /** Skipping an element that is read and does not match. */
  lemma NoneMatchStep(data: seq<Value>, property: string, value: Value, from: nat, to: nat)
    requires from < to <= |data| && Probe(data[from], property, value) == Ok(false)
    ensures NoneMatch(data, property, value, from, to) == NoneMatch(data, property, value, from + 1, to)
  {
  }

  /** The scan from `from` answers -1 exactly when nothing from there on
      matches and every element there is read. */
  lemma {:induction false} ScanFromNotFound(data: seq<Value>, property: string, value: Value, from: nat)
    requires from <= |data|
    ensures ScanFrom(data, property, value, from) == Ok(-1) <==> NoneMatch(data, property, value, from, |data|)
    decreases |data| - from
  {
    if from < |data| {
      ScanFromNotFound(data, property, value, from + 1);
      if Probe(data[from], property, value) == Ok(false) {
        NoneMatchStep(data, property, value, from, |data|);
      }
    }
  }

  /** The scan from `from` answers position `k` exactly when `k` matches and
      nothing from `from` up to `k` does. */
  lemma {:induction false} ScanFromFound(data: seq<Value>, property: string, value: Value, from: nat, k: nat)
    requires from <= k < |data|
    ensures ScanFrom(data, property, value, from) == Ok(k) <==>
      Probe(data[k], property, value) == Ok(true) && NoneMatch(data, property, value, from, k)
    decreases k - from
  {
    if from < k {
      ScanFromFound(data, property, value, from + 1, k);
      if Probe(data[from], property, value) == Ok(false) {
        NoneMatchStep(data, property, value, from, k);
      }
    }
  }

  /** The scan from `from` throws exactly when some element from there on
      cannot be read and nothing before it matches. */
  lemma {:induction false} ScanFromThrows(data: seq<Value>, property: string, value: Value, from: nat)
    requires from <= |data|
    ensures ScanFrom(data, property, value, from).Err? <==>
      exists k :: from <= k < |data| && Probe(data[k], property, value).Err? && NoneMatch(data, property, value, from, k)
    decreases |data| - from
  {
    if from < |data| {
      ScanFromThrows(data, property, value, from + 1);
      var here := Probe(data[from], property, value);
      if here == Ok(false) {
        forall k | from + 1 <= k <= |data|
          ensures NoneMatch(data, property, value, from, k) == NoneMatch(data, property, value, from + 1, k)
        {
          NoneMatchStep(data, property, value, from, k);
        }
      } else {
        assert NoneMatch(data, property, value, from, from);
        forall k | from < k < |data|
          ensures !NoneMatch(data, property, value, from, k)
        {
          assert Probe(data[from], property, value) != Ok(false);
        }
      }
    }
  }

  /** `getKeyByPropertyValue` answers -1 exactly when every element is read
      and none matches. */
  lemma NotFoundMeansNoMatch(data: seq<Value>, property: string, value: Value)
    ensures FirstMatch(data, property, value) == Ok(-1) <==> NoneMatch(data, property, value, 0, |data|)
  {
    ScanFromNotFound(data, property, value, 0);
  }

  /** An index it answers is in range, matches, and no earlier element matches. */
  lemma FoundIsFirstMatch(data: seq<Value>, property: string, value: Value, k: int)
    requires FirstMatch(data, property, value) == Ok(k) && k != -1
    ensures 0 <= k < |data|
    ensures Probe(data[k], property, value) == Ok(true)
    ensures NoneMatch(data, property, value, 0, k)
  {
    ScanFromFound(data, property, value, 0, k);
  }

  /** The search throws exactly when some element before any match is
      undefined or null. */
  lemma ThrowsOnUnreadableElement(data: seq<Value>, property: string, value: Value)
    ensures FirstMatch(data, property, value).Err? <==>
      exists k :: 0 <= k < |data| && (data[k].Undefined? || data[k].Null?) && NoneMatch(data, property, value, 0, k)
  {
    ScanFromThrows(data, property, value, 0);
  }

  /** A concrete instance: the second of three records is the first whose
      `id` is 2. */
  lemma FindsSecondRecord()
    ensures FirstMatch([Obj([("id", Num(1))]), Obj([("id", Num(2))]), Obj([("id", Num(2))])], "id", Num(2)) == Ok(1)
  {
  }

  /** `getKeyByPropertyValue(data, property, value)` over an array walked by
      index up to its length. */
  method GetKeyByPropertyValue(data: seq<Value>, property: string, value: Value) returns (r: Result<int, TypeError>)
    ensures r == FirstMatch(data, property, value)
  {
    var x := 0;
    while x < |data|
      invariant x <= |data|
      invariant ScanFrom(data, property, value, x) == FirstMatch(data, property, value)
    {
      var seen := Member(data[x], property);
      if seen.Err? {
        return Err(seen.error);
      }
      if seen.value == value {
        return Ok(x);
      }
      x := x + 1;
    }
    return Ok(-1);
  }

  /** The own enumerable properties `for…in` visits, in order: the entries of
      an object, the items of an array, the characters of a string; nothing
      for the other primitives, undefined and null. */
  function Elements(data: Value): (r: seq<Value>)
    ensures HasEntries(data) ==> |r| == EntryCount(data) && forall i :: 0 <= i < |r| ==> r[i] == EntryValue(data, i)
    ensures data.Str? ==> |r| == |data.s|
  {
    match data
    case Obj(entries) => seq(|entries|, i requires 0 <= i < |entries| => entries[i].1)
    case Arr(items) => items
    case Str(s) => seq(|s|, i requires 0 <= i < |s| => Str([s[i]]))
    case _ => []
  }

  /** What `for…in` with `hasOwnProperty` leads the loop body to read: the i-th
      element is `data[prop]` for the i-th own key `prop` (`Object.keys`
      order for objects, canonical indices for arrays and strings). */
  lemma ElementsAreOwnReads(data: Value)
    ensures HasEntries(data) ==> |Elements(data)| == EntryCount(data)
    ensures HasEntries(data) && (data.Obj? ==> DistinctKeys(data.entries)) ==>
      forall i :: 0 <= i < |Elements(data)| ==> Elements(data)[i] == Get(data, EntryKey(data, i))
    ensures data.Str? ==> |Elements(data)| == |data.s|
    ensures data.Str? ==>
      forall i: nat :: i < |Elements(data)| ==> Member(data, NatToString(i)) == Ok(Elements(data)[i])
    ensures !(HasEntries(data) || data.Str?) ==> Elements(data) == []
  {
    if HasEntries(data) && (data.Obj? ==> DistinctKeys(data.entries)) {
      forall i | 0 <= i < |Elements(data)|
        ensures Elements(data)[i] == Get(data, EntryKey(data, i))
      {
        GetEntry(data, i);
      }
    }
    if data.Str? {
      forall i: nat | i < |Elements(data)|
        ensures Member(data, NatToString(i)) == Ok(Elements(data)[i])
      {
        ParseIndexOfNatToString(i);
        assert NatToString(i)[0] != 'l';
      }
    }
  }

  /** The element at the first match, None when the scan finds nothing. */
  function MatchingElement(data: Value, property: string, value: Value): Result<Option<Value>, TypeError> {
    var k :- FirstMatch(Elements(data), property, value);
    Ok(if k == -1 then None else Some(Elements(data)[k]))
  }

  /** On an array, `getObjectByPropertyValue` gives the element at the index
      `getKeyByPropertyValue` gives, or nothing when that index is -1. */
  lemma ObjectIsElementAtKey(items: seq<Value>, property: string, value: Value)
    ensures FirstMatch(items, property, value).Err? <==> MatchingElement(Arr(items), property, value).Err?
    ensures FirstMatch(items, property, value) == Ok(-1) <==> MatchingElement(Arr(items), property, value) == Ok(None)
    ensures forall k :: 0 <= k < |items| && FirstMatch(items, property, value) == Ok(k) ==>
      MatchingElement(Arr(items), property, value) == Ok(Some(items[k]))
  {
  }

  /** An element it answers has `property` equal to `value`. */
  lemma MatchingElementMatches(data: Value, property: string, value: Value, e: Value)
    requires MatchingElement(data, property, value) == Ok(Some(e))
    ensures Member(e, property) == Ok(value)
  {
    var k := FirstMatch(Elements(data), property, value).value;
    FoundIsFirstMatch(Elements(data), property, value, k);
  }

  /** `getObjectByPropertyValue(data, property, value)`: `for…in` over the own
      properties of `data`, answering the first element that matches. */
  method GetObjectByPropertyValue(data: Value, property: string, value: Value) returns (r: Result<Option<Value>, TypeError>)
    ensures r == MatchingElement(data, property, value)
  {
    var elements := Elements(data);
    for i := 0 to |elements|
      invariant ScanFrom(elements, property, value, i) == FirstMatch(elements, property, value)
    {
      var seen := Member(elements[i], property);
      if seen.Err? {
        return Err(seen.error);
      }
      if seen.value == value {
        return Ok(Some(elements[i]));
      }
    }
    return Ok(None);
  }
}
