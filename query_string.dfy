/** `jsonToQueryString(jsonObject, prefix)`: serialise a nested object as a URL
    query string. Each own key is named `key`, or `prefix[key]` under a
    non-empty prefix; a value `typeof` calls an object is serialised
    recursively under that name, and any other value gives the pair
    `encodeURIComponent(name)=encodeURIComponent(value)`. The pieces are joined
    with `&`. An empty prefix counts as no prefix (it is falsy), and a null
    value makes `Object.keys(null)` throw. */
module QueryString {

  import opened Results
  import opened Strings
  import opened Values
  import opened Uri

  /** The TypeError `Object.keys(null)` throws. */
  datatype Error = NullHasNoKeys

  /** The serialiser is written for any component encoder; the source's is
      `encodeURIComponent`. The shape of the output does not depend on it. */
  type Encoder = string -> string

  /** The name a key gets under a prefix; `""`, like `undefined`, is no prefix. */
  function KeyName(prefix: string, key: string): string {
    if prefix != "" then prefix + "[" + key + "]" else key
  }

  /** The fragment of a value that `typeof` does not call an object. */
  function LeafPair(enc: Encoder, name: string, v: Value): string
    requires !IsTypeofObject(v)
  {
    enc(name) + "=" + enc(ToJsString(v))
  }

  /** What the source returns (or throws) for a value `typeof` calls an object. */
  function QueryString(v: Value, prefix: string): Result<string, Error>
    requires IsTypeofObject(v)
  {
    Serialise(EncodeURIComponent, v, prefix)
  }

  function Serialise(enc: Encoder, v: Value, prefix: string): Result<string, Error>
    requires IsTypeofObject(v)
    decreases v, 1
  {
    if v.Null? then Err(NullHasNoKeys)
    else
      var fs :- Fragments(enc, v, prefix, EntryCount(v));
      Ok(Join(fs, "&"))
  }

  /** The pieces pushed for the first `n` own keys of `v`. */
  function Fragments(enc: Encoder, v: Value, prefix: string, n: nat): Result<seq<string>, Error>
    requires HasEntries(v) && n <= EntryCount(v)
    decreases v, 0, n
  {
    if n == 0 then Ok([])
    else
      var fs :- Fragments(enc, v, prefix, n - 1);
      var f :- Fragment(enc, v, prefix, n - 1);
      Ok(fs + [f])
  }

  /** The piece pushed for the i-th own key of `v`. The source reads
      `jsonObject[keys[i]]`; the model takes the i-th entry's value, which is
      that read because own keys are distinct (`Values.GetEntry`). */
  function Fragment(enc: Encoder, v: Value, prefix: string, i: nat): Result<string, Error>
    requires HasEntries(v) && i < EntryCount(v)
    decreases v, 0, 0
  {
    var name := KeyName(prefix, EntryKey(v, i));
    var child := EntryValue(v, i);
    if IsTypeofObject(child) then Serialise(enc, child, name) else Ok(LeafPair(enc, name, child))
  }

  lemma {:induction false} FragmentsErr(enc: Encoder, v: Value, prefix: string, n: nat, m: nat)
    requires HasEntries(v) && n <= m <= EntryCount(v)
    requires Fragments(enc, v, prefix, n).Err?
    ensures Fragments(enc, v, prefix, m) == Fragments(enc, v, prefix, n)
    decreases m
  {
    if m > n {
      FragmentsErr(enc, v, prefix, n, m - 1);
    }
  }

  /** The source's loop: push one piece per own key, recursing into objects,
      then join the pieces with `&`. */
  method JsonToQueryString(jsonObject: Value, prefix: string) returns (r: Result<string, Error>)
    requires IsTypeofObject(jsonObject)
    ensures r == QueryString(jsonObject, prefix)
    decreases jsonObject
  {
    if jsonObject.Null? {
      return Err(NullHasNoKeys);
    }
    var str: seq<string> := [];
    var keyCount := EntryCount(jsonObject);
    for i := 0 to keyCount
      invariant Fragments(EncodeURIComponent, jsonObject, prefix, i) == Ok(str)
    {
      var jsonKey := KeyName(prefix, EntryKey(jsonObject, i));
      var jsonValue := EntryValue(jsonObject, i);
      var piece: string;
      if IsTypeofObject(jsonValue) {
        var nested := JsonToQueryString(jsonValue, jsonKey);
        if nested.Err? {
          FragmentThrows(EncodeURIComponent, jsonObject, prefix, i, str, nested.error);
          return Err(nested.error);
        }
        piece := nested.value;
      } else {
        piece := EncodeURIComponent(jsonKey) + "=" + EncodeURIComponent(ToJsString(jsonValue));
      }
      FragmentsExtend(EncodeURIComponent, jsonObject, prefix, i, str, piece);
      str := str + [piece];
    }
    r := Ok(Join(str, "&"));
  }

  /** One more piece pushed: the pieces of the first `i + 1` keys. */
  lemma FragmentsExtend(enc: Encoder, v: Value, prefix: string, i: nat, str: seq<string>, piece: string)
    requires HasEntries(v) && i < EntryCount(v)
    requires Fragments(enc, v, prefix, i) == Ok(str) && Fragment(enc, v, prefix, i) == Ok(piece)
    ensures Fragments(enc, v, prefix, i + 1) == Ok(str + [piece])
  {
    FragmentsStep(enc, v, prefix, i + 1);
  }

  /** A piece that throws makes the whole call throw the same error. */
  lemma FragmentThrows(enc: Encoder, v: Value, prefix: string, i: nat, str: seq<string>, e: Error)
    requires HasEntries(v) && i < EntryCount(v)
    requires Fragments(enc, v, prefix, i) == Ok(str) && Fragment(enc, v, prefix, i) == Err(e)
    ensures Serialise(enc, v, prefix) == Err(e)
  {
    FragmentsStep(enc, v, prefix, i + 1);
    FragmentsErr(enc, v, prefix, i + 1, EntryCount(v));
  }

  // A reference reading of the serialiser: the flat list of leaves met in a
  // depth-first walk over the keys.

  /** A leaf of the walk: a name with the text of its value, or the empty
      piece an empty nested object leaves behind. */
  datatype Leaf = Pair(name: string, text: string) | Gap

  function Render(enc: Encoder, l: Leaf): string {
    match l
    case Pair(name, text) => enc(name) + "=" + enc(text)
    case Gap => ""
  }

  function RenderAll(enc: Encoder, ls: seq<Leaf>): (r: seq<string>)
    ensures |r| == |ls|
    decreases |ls|
  {
    if ls == [] then [] else [Render(enc, ls[0])] + RenderAll(enc, ls[1..])
  }

  lemma {:induction false} RenderAllAt(enc: Encoder, ls: seq<Leaf>, i: nat)
    requires i < |ls|
    ensures RenderAll(enc, ls)[i] == Render(enc, ls[i])
    decreases i
  {
    if i > 0 {
      RenderAllAt(enc, ls[1..], i - 1);
    }
  }

  lemma {:induction false} RenderAllAppend(enc: Encoder, a: seq<Leaf>, b: seq<Leaf>)
    ensures RenderAll(enc, a + b) == RenderAll(enc, a) + RenderAll(enc, b)
    decreases |a|
  {
    if a == [] {
      assert a + b == b;
    } else {
      assert (a + b)[0] == a[0] && (a + b)[1..] == a[1..] + b;
      RenderAllAppend(enc, a[1..], b);
    }
  }

  /** The leaves under `v`, in key order, each named by its full bracket path;
      a nested object without keys contributes one `Gap`. */
  function Leaves(v: Value, prefix: string): Result<seq<Leaf>, Error>
    requires IsTypeofObject(v)
    decreases v, 1
  {
    if v.Null? then Err(NullHasNoKeys) else EntryLeaves(v, prefix, EntryCount(v))
  }

  function EntryLeaves(v: Value, prefix: string, n: nat): Result<seq<Leaf>, Error>
    requires HasEntries(v) && n <= EntryCount(v)
    decreases v, 0, n
  {
    if n == 0 then Ok([])
    else
      var ls :- EntryLeaves(v, prefix, n - 1);
      var l :- LeavesOfEntry(v, prefix, n - 1);
      Ok(ls + l)
  }

  function LeavesOfEntry(v: Value, prefix: string, i: nat): Result<seq<Leaf>, Error>
    requires HasEntries(v) && i < EntryCount(v)
    decreases v, 0, 0
  {
    var name := KeyName(prefix, EntryKey(v, i));
    var child := EntryValue(v, i);
    if IsTypeofObject(child) then
      var sub :- Leaves(child, name);
      Ok(if sub == [] then [Gap] else sub)
    else Ok([Pair(name, ToJsString(child))])
  }

  /** The output is the rendered leaves joined by `&`, whatever the encoder:
      every name is encoded once, at its leaf, and the call fails exactly when
      the walk meets a null. */
  lemma {:induction false} SerialiseIsJoinedLeaves(enc: Encoder, v: Value, prefix: string)
    requires IsTypeofObject(v)
    ensures Serialise(enc, v, prefix).Ok? == Leaves(v, prefix).Ok?
    ensures Serialise(enc, v, prefix).Ok? ==>
      Serialise(enc, v, prefix).value == Join(RenderAll(enc, Leaves(v, prefix).value), "&")
    decreases v, 1
  {
    if !v.Null? {
      FragmentsAreJoinedLeaves(enc, v, prefix, EntryCount(v));
    }
  }

  lemma {:induction false} FragmentsAreJoinedLeaves(enc: Encoder, v: Value, prefix: string, n: nat)
    requires HasEntries(v) && n <= EntryCount(v)
    ensures Fragments(enc, v, prefix, n).Ok? == EntryLeaves(v, prefix, n).Ok?
    ensures Fragments(enc, v, prefix, n).Ok? ==>
      |Fragments(enc, v, prefix, n).value| == n &&
      (EntryLeaves(v, prefix, n).value == [] <==> n == 0) &&
      Join(Fragments(enc, v, prefix, n).value, "&") == Join(RenderAll(enc, EntryLeaves(v, prefix, n).value), "&")
    decreases v, 0, n
  {
    if n > 0 {
      FragmentsAreJoinedLeaves(enc, v, prefix, n - 1);
      FragmentIsJoinedLeaves(enc, v, prefix, n - 1);
      FragmentsStep(enc, v, prefix, n);
      EntryLeavesStep(v, prefix, n);
      FragmentsCombine(enc, n,
        Fragments(enc, v, prefix, n - 1), Fragment(enc, v, prefix, n - 1), Fragments(enc, v, prefix, n),
        EntryLeaves(v, prefix, n - 1), LeavesOfEntry(v, prefix, n - 1), EntryLeaves(v, prefix, n));
    }
  }

  /** One step of `FragmentsAreJoinedLeaves`, stated on the results alone. */
  lemma FragmentsCombine(enc: Encoder, n: nat,
                         before: Result<seq<string>, Error>, piece: Result<string, Error>, after: Result<seq<string>, Error>,
                         leavesBefore: Result<seq<Leaf>, Error>, leavesHere: Result<seq<Leaf>, Error>, leavesAfter: Result<seq<Leaf>, Error>)
    requires n > 0
    requires before.Ok? == leavesBefore.Ok?
    requires before.Ok? ==>
      |before.value| == n - 1 &&
      (leavesBefore.value == [] <==> n - 1 == 0) &&
      Join(before.value, "&") == Join(RenderAll(enc, leavesBefore.value), "&")
    requires piece.Ok? == leavesHere.Ok?
    requires piece.Ok? ==> leavesHere.value != [] && piece.value == Join(RenderAll(enc, leavesHere.value), "&")
    requires after.Ok? == (before.Ok? && piece.Ok?)
    requires after.Ok? ==> after.value == before.value + [piece.value]
    requires leavesAfter.Ok? == (leavesBefore.Ok? && leavesHere.Ok?)
    requires leavesAfter.Ok? ==> leavesAfter.value == leavesBefore.value + leavesHere.value
    ensures after.Ok? == leavesAfter.Ok?
    ensures after.Ok? ==>
      |after.value| == n &&
      (leavesAfter.value == [] <==> n == 0) &&
      Join(after.value, "&") == Join(RenderAll(enc, leavesAfter.value), "&")
  {
    if after.Ok? {
      JoinStep(enc, before.value, piece.value, leavesBefore.value, leavesHere.value);
    }
  }

  lemma FragmentsStep(enc: Encoder, v: Value, prefix: string, n: nat)
    requires HasEntries(v) && 0 < n <= EntryCount(v)
    ensures Fragments(enc, v, prefix, n).Ok? ==
      (Fragments(enc, v, prefix, n - 1).Ok? && Fragment(enc, v, prefix, n - 1).Ok?)
    ensures Fragments(enc, v, prefix, n).Ok? ==>
      Fragments(enc, v, prefix, n).value ==
      Fragments(enc, v, prefix, n - 1).value + [Fragment(enc, v, prefix, n - 1).value]
  {
  }

  lemma EntryLeavesStep(v: Value, prefix: string, n: nat)
    requires HasEntries(v) && 0 < n <= EntryCount(v)
    ensures EntryLeaves(v, prefix, n).Ok? ==
      (EntryLeaves(v, prefix, n - 1).Ok? && LeavesOfEntry(v, prefix, n - 1).Ok?)
    ensures EntryLeaves(v, prefix, n).Ok? ==>
      EntryLeaves(v, prefix, n).value ==
      EntryLeaves(v, prefix, n - 1).value + LeavesOfEntry(v, prefix, n - 1).value
  {
  }

  lemma JoinStep(enc: Encoder, fs: seq<string>, f: string, ls: seq<Leaf>, l: seq<Leaf>)
    requires (fs == []) == (ls == []) && l != []
    requires Join(fs, "&") == Join(RenderAll(enc, ls), "&")
    requires f == Join(RenderAll(enc, l), "&")
    ensures Join(fs + [f], "&") == Join(RenderAll(enc, ls + l), "&")
  {
    RenderAllAppend(enc, ls, l);
    if fs == [] {
      assert fs + [f] == [f];
      assert ls + l == l;
    } else {
      JoinAppend(fs, [f], "&");
      JoinAppend(RenderAll(enc, ls), RenderAll(enc, l), "&");
    }
  }

  lemma {:induction false} FragmentIsJoinedLeaves(enc: Encoder, v: Value, prefix: string, i: nat)
    requires HasEntries(v) && i < EntryCount(v)
    ensures Fragment(enc, v, prefix, i).Ok? == LeavesOfEntry(v, prefix, i).Ok?
    ensures Fragment(enc, v, prefix, i).Ok? ==>
      LeavesOfEntry(v, prefix, i).value != [] &&
      Fragment(enc, v, prefix, i).value == Join(RenderAll(enc, LeavesOfEntry(v, prefix, i).value), "&")
    decreases v, 0, 0
  {
    var name := KeyName(prefix, EntryKey(v, i));
    var child := EntryValue(v, i);
    if IsTypeofObject(child) {
      SerialiseIsJoinedLeaves(enc, child, name);
    }
  }

  /** For the source's encoder: the query string is its leaves, each as
      `encodeURIComponent(name)=encodeURIComponent(value)`, joined by `&`. */
  lemma QueryStringIsJoinedLeaves(v: Value, prefix: string)
    requires IsTypeofObject(v)
    ensures QueryString(v, prefix).Ok? == Leaves(v, prefix).Ok?
    ensures QueryString(v, prefix).Ok? ==>
      QueryString(v, prefix).value == Join(RenderAll(EncodeURIComponent, Leaves(v, prefix).value), "&")
  {
    SerialiseIsJoinedLeaves(EncodeURIComponent, v, prefix);
  }

  /** No rendered leaf holds `&`, because encoding escapes it. */
  lemma RenderHasNoAmpersand(l: Leaf)
    ensures '&' !in Render(EncodeURIComponent, l)
  {
    if l.Pair? {
      EncodedHasNoDelimiters(l.name);
      EncodedHasNoDelimiters(l.text);
      AbsentFromPair('&', EncodeURIComponent(l.name), EncodeURIComponent(l.text));
    }
  }

  lemma AbsentFromPair(c: char, a: string, b: string)
    requires c !in a && c !in b && c != '='
    ensures c !in a + "=" + b
  {
    var r := a + "=" + b;
    forall k | 0 <= k < |r|
      ensures r[k] != c
    {
      if k < |a| {
        assert r[k] == a[k];
      } else if k > |a| {
        assert r[k] == b[k - |a| - 1];
      }
    }
  }

  /** Splitting a non-empty query string on `&` gives back its leaves one by
      one: the separator never occurs inside a piece. */
  lemma QueryStringSplitsIntoLeaves(v: Value, prefix: string)
    requires IsTypeofObject(v)
    requires Leaves(v, prefix).Ok? && Leaves(v, prefix).value != []
    ensures QueryString(v, prefix).Ok?
    ensures Split(QueryString(v, prefix).value, '&') == RenderAll(EncodeURIComponent, Leaves(v, prefix).value)
  {
    QueryStringIsJoinedLeaves(v, prefix);
    var ls := Leaves(v, prefix).value;
    var pieces := RenderAll(EncodeURIComponent, ls);
    forall i | 0 <= i < |ls|
      ensures '&' !in pieces[i]
    {
      RenderAllAt(EncodeURIComponent, ls, i);
      RenderHasNoAmpersand(ls[i]);
    }
    SplitJoin(pieces, '&');
  }

  /** A rendered pair splits on `=` into the encoded name and the encoded value. */
  lemma PairSplitsAtEquals(name: string, text: string)
    ensures Split(Render(EncodeURIComponent, Pair(name, text)), '=') ==
      [EncodeURIComponent(name), EncodeURIComponent(text)]
  {
    var a, b := EncodeURIComponent(name), EncodeURIComponent(text);
    EncodedHasNoDelimiters(name);
    EncodedHasNoDelimiters(text);
    assert Render(EncodeURIComponent, Pair(name, text)) == a + "=" + b;
    SplitCons(a, b, '=');
    SplitJoin([b], '=');
  }

  /** Names nest: under a non-empty prefix, every leaf name starts with `prefix[`. */
  predicate NamedUnder(ls: seq<Leaf>, start: string) {
    forall i :: 0 <= i < |ls| && ls[i].Pair? ==> start <= ls[i].name
  }

  lemma {:induction false} LeavesNamedUnderPrefix(v: Value, prefix: string)
    requires IsTypeofObject(v) && prefix != ""
    requires Leaves(v, prefix).Ok?
    ensures NamedUnder(Leaves(v, prefix).value, prefix + "[")
    decreases v, 1
  {
    EntryLeavesNamedUnderPrefix(v, prefix, EntryCount(v));
  }

  lemma {:induction false} EntryLeavesNamedUnderPrefix(v: Value, prefix: string, n: nat)
    requires HasEntries(v) && n <= EntryCount(v) && prefix != ""
    requires EntryLeaves(v, prefix, n).Ok?
    ensures NamedUnder(EntryLeaves(v, prefix, n).value, prefix + "[")
    decreases v, 0, n
  {
    if n > 0 {
      EntryLeavesNamedUnderPrefix(v, prefix, n - 1);
      EntryLeafNamedUnderPrefix(v, prefix, n - 1);
      EntryLeavesStep(v, prefix, n);
      NamedUnderAppend(EntryLeaves(v, prefix, n - 1).value, LeavesOfEntry(v, prefix, n - 1).value, prefix + "[");
    }
  }

  lemma NamedUnderAppend(ls: seq<Leaf>, l: seq<Leaf>, start: string)
    requires NamedUnder(ls, start) && NamedUnder(l, start)
    ensures NamedUnder(ls + l, start)
  {
    var all := ls + l;
    forall i | 0 <= i < |all| && all[i].Pair?
      ensures start <= all[i].name
    {
      if i >= |ls| {
        assert all[i] == l[i - |ls|];
      }
    }
  }

  lemma {:induction false} EntryLeafNamedUnderPrefix(v: Value, prefix: string, i: nat)
    requires HasEntries(v) && i < EntryCount(v) && prefix != ""
    requires LeavesOfEntry(v, prefix, i).Ok?
    ensures NamedUnder(LeavesOfEntry(v, prefix, i).value, prefix + "[")
    decreases v, 0, 0
  {
    var name := KeyName(prefix, EntryKey(v, i));
    var child := EntryValue(v, i);
    var start := prefix + "[";
    assert name == start + (EntryKey(v, i) + "]");
    assert start <= name;
    if IsTypeofObject(child) {
      LeavesNamedUnderPrefix(child, name);
      var sub := Leaves(child, name).value;
      forall j | 0 <= j < |sub| && sub[j].Pair?
        ensures start <= sub[j].name
      {
        assert name + "[" <= sub[j].name;
        assert sub[j].name[..|start|] == start;
      }
    }
  }

  /** The error case: a null value under any own key makes the call throw. */
  lemma NullValueThrows(enc: Encoder, v: Value, prefix: string, i: nat)
    requires HasEntries(v) && i < EntryCount(v) && EntryValue(v, i) == Null
    ensures Serialise(enc, v, prefix).Err?
  {
    assert Fragment(enc, v, prefix, i).Err?;
    assert Fragments(enc, v, prefix, i + 1).Err?;
    FragmentsErr(enc, v, prefix, i + 1, EntryCount(v));
  }

  /** Some null is met by the walk: the value itself, or an own value of an
      object or array, at any depth. */
  predicate HasNull(v: Value)
    decreases v
  {
    match v
    case Null => true
    case Obj(entries) => exists i :: 0 <= i < |entries| && HasNull(entries[i].1)
    case Arr(items) => exists i :: 0 <= i < |items| && HasNull(items[i])
    case _ => false
  }

  /** The walk fails exactly when it meets a null. */
  lemma {:induction false} LeavesFailOnNull(v: Value, prefix: string)
    requires IsTypeofObject(v)
    ensures Leaves(v, prefix).Err? <==> HasNull(v)
    decreases v, 1
  {
    if !v.Null? {
      EntryLeavesFailOnNull(v, prefix, EntryCount(v));
      if v.Obj? {
        assert forall i :: 0 <= i < |v.entries| ==> EntryValue(v, i) == v.entries[i].1;
      } else {
        assert forall i :: 0 <= i < |v.items| ==> EntryValue(v, i) == v.items[i];
      }
    }
  }

  lemma {:induction false} EntryLeavesFailOnNull(v: Value, prefix: string, n: nat)
    requires HasEntries(v) && n <= EntryCount(v)
    ensures EntryLeaves(v, prefix, n).Err? <==> exists i :: 0 <= i < n && HasNull(EntryValue(v, i))
    decreases v, 0, n
  {
    if n > 0 {
      EntryLeavesFailOnNull(v, prefix, n - 1);
      EntryLeafFailsOnNull(v, prefix, n - 1);
      EntryLeavesStep(v, prefix, n);
      if HasNull(EntryValue(v, n - 1)) {
        assert EntryLeaves(v, prefix, n).Err?;
      } else {
        assert forall i :: 0 <= i < n && HasNull(EntryValue(v, i)) ==> i < n - 1;
      }
    }
  }

  lemma {:induction false} EntryLeafFailsOnNull(v: Value, prefix: string, i: nat)
    requires HasEntries(v) && i < EntryCount(v)
    ensures LeavesOfEntry(v, prefix, i).Err? <==> HasNull(EntryValue(v, i))
    decreases v, 0, 0
  {
    var child := EntryValue(v, i);
    if IsTypeofObject(child) {
      LeavesFailOnNull(child, KeyName(prefix, EntryKey(v, i)));
    }
  }

  /** The call throws exactly when a null occurs anywhere inside the value,
      and succeeds whenever none does. */
  lemma ThrowsExactlyOnNull(enc: Encoder, v: Value, prefix: string)
    requires IsTypeofObject(v)
    ensures Serialise(enc, v, prefix).Err? <==> HasNull(v)
  {
    SerialiseIsJoinedLeaves(enc, v, prefix);
    LeavesFailOnNull(v, prefix);
  }

  /** A flat object of leaf values gives one `name=value` piece per key, in key
      order; the query string is these pieces joined by `&`. */
  lemma {:induction false} FlatObject(enc: Encoder, entries: seq<(string, Value)>, prefix: string, n: nat)
    requires n <= |entries|
    requires forall i :: 0 <= i < n ==> !IsTypeofObject(entries[i].1)
    ensures Fragments(enc, Obj(entries), prefix, n).Ok?
    ensures |Fragments(enc, Obj(entries), prefix, n).value| == n
    ensures forall i :: 0 <= i < n ==>
      Fragments(enc, Obj(entries), prefix, n).value[i] == LeafPair(enc, KeyName(prefix, entries[i].0), entries[i].1)
    decreases n
  {
    if n > 0 {
      FlatObject(enc, entries, prefix, n - 1);
      var v := Obj(entries);
      var piece := LeafPair(enc, KeyName(prefix, entries[n - 1].0), entries[n - 1].1);
      assert !IsTypeofObject(EntryValue(v, n - 1));
      assert Fragment(enc, v, prefix, n - 1) == Ok(piece);
      var before := Fragments(enc, v, prefix, n - 1).value;
      assert Fragments(enc, v, prefix, n) == Ok(before + [piece]);
      forall i | 0 <= i < n
        ensures (before + [piece])[i] == LeafPair(enc, KeyName(prefix, entries[i].0), entries[i].1)
      {
        if i < n - 1 {
          assert (before + [piece])[i] == before[i];
        }
      }
    }
  }

  /** `jsonToQueryString({})` is the empty string. */
  lemma EmptyObjectGivesEmptyString(prefix: string)
    ensures QueryString(Obj([]), prefix) == Ok("")
  {
  }

  /** An object with one own key serialises to that key's piece. */
  lemma OneKey(enc: Encoder, v: Value, prefix: string, f: string)
    requires HasEntries(v) && EntryCount(v) == 1 && Fragment(enc, v, prefix, 0) == Ok(f)
    ensures Serialise(enc, v, prefix) == Ok(f)
  {
    assert Fragments(enc, v, prefix, 0) == Ok([]);
    FragmentsStep(enc, v, prefix, 1);
    assert Fragments(enc, v, prefix, 1).value == [f];
  }

  /** An object with two own keys serialises to their pieces around `&`. */
  lemma TwoKeys(enc: Encoder, v: Value, prefix: string, f0: string, f1: string)
    requires HasEntries(v) && EntryCount(v) == 2
    requires Fragment(enc, v, prefix, 0) == Ok(f0) && Fragment(enc, v, prefix, 1) == Ok(f1)
    ensures Serialise(enc, v, prefix) == Ok(f0 + "&" + f1)
  {
    assert Fragments(enc, v, prefix, 0) == Ok([]);
    FragmentsStep(enc, v, prefix, 1);
    assert Fragments(enc, v, prefix, 1).value == [f0];
    FragmentsStep(enc, v, prefix, 2);
    assert Fragments(enc, v, prefix, 2).value == [f0, f1];
    assert [f0, f1][1..] == [f1];
    assert Join([f0, f1], "&") == f0 + "&" + Join([f1], "&");
  }

  /** Under any encoder, `{a: 1, b: 2}` gives its two pairs around `&`. */
  lemma FlatPairsShape(enc: Encoder)
    ensures Serialise(enc, Obj([("a", Num(1)), ("b", Num(2))]), "") ==
      Ok(enc("a") + "=" + enc("1") + "&" + (enc("b") + "=" + enc("2")))
  {
    assert NatToString(1) == "1" && NatToString(2) == "2";
    var v := Obj([("a", Num(1)), ("b", Num(2))]);
    assert EntryKey(v, 0) == "a" && EntryValue(v, 0) == Num(1);
    assert EntryKey(v, 1) == "b" && EntryValue(v, 1) == Num(2);
    TwoKeys(enc, v, "", enc("a") + "=" + enc("1"), enc("b") + "=" + enc("2"));
  }

  /** `jsonToQueryString({a: 1, b: 2})` is `"a=1&b=2"`. */
  lemma FlatPairsExample()
    ensures QueryString(Obj([("a", Num(1)), ("b", Num(2))]), "") == Ok("a=1&b=2")
  {
    FlatPairsShape(EncodeURIComponent);
    EncodeUnreserved("a");
    EncodeUnreserved("b");
    EncodeUnreserved("1");
    EncodeUnreserved("2");
    assert "a" + "=" + "1" + "&" + ("b" + "=" + "2") == "a=1&b=2";
  }

  /** Under any encoder, `{a: {b: 1}}` gives the single pair named `a[b]`. */
  lemma NestedKeyShape(enc: Encoder)
    ensures Serialise(enc, Obj([("a", Obj([("b", Num(1))]))]), "") == Ok(enc("a[b]") + "=" + enc("1"))
  {
    assert NatToString(1) == "1";
    var inner := Obj([("b", Num(1))]);
    assert KeyName("a", EntryKey(inner, 0)) == "a[b]";
    assert Fragment(enc, inner, "a", 0) == Ok(enc("a[b]") + "=" + enc("1"));
    OneKey(enc, inner, "a", enc("a[b]") + "=" + enc("1"));
    var v := Obj([("a", inner)]);
    assert EntryKey(v, 0) == "a" && EntryValue(v, 0) == inner;
    OneKey(enc, v, "", enc("a[b]") + "=" + enc("1"));
  }

  /** `jsonToQueryString({a: {b: 1}})` is `"a%5Bb%5D=1"`: the nested name
      `a[b]` is encoded as a whole. */
  lemma NestedKeyExample()
    ensures QueryString(Obj([("a", Obj([("b", Num(1))]))]), "") == Ok("a%5Bb%5D=1")
  {
    NestedKeyShape(EncodeURIComponent);
    EncodeNestedName();
    EncodeUnreserved("1");
    assert "a%5Bb%5D" + "=" + "1" == "a%5Bb%5D=1";
  }

  /** Under any encoder, `{a: {}, b: 1}` gives an empty piece, then `b`'s pair. */
  lemma EmptyNestedObjectShape(enc: Encoder)
    ensures Serialise(enc, Obj([("a", Obj([])), ("b", Num(1))]), "") == Ok("" + "&" + (enc("b") + "=" + enc("1")))
  {
    assert NatToString(1) == "1";
    var v := Obj([("a", Obj([])), ("b", Num(1))]);
    assert EntryKey(v, 0) == "a" && EntryValue(v, 0) == Obj([]);
    assert EntryKey(v, 1) == "b" && EntryValue(v, 1) == Num(1);
    assert Fragment(enc, v, "", 0) == Ok("");
    TwoKeys(enc, v, "", "", enc("b") + "=" + enc("1"));
  }

  /** `jsonToQueryString({a: {}, b: 1})` is `"&b=1"`: the empty nested
      object leaves an empty piece behind. */
  lemma EmptyNestedObjectExample()
    ensures QueryString(Obj([("a", Obj([])), ("b", Num(1))]), "") == Ok("&b=1")
  {
    EmptyNestedObjectShape(EncodeURIComponent);
    EncodeUnreserved("b");
    EncodeUnreserved("1");
    assert "" + "&" + ("b" + "=" + "1") == "&b=1";
  }

  /** `jsonToQueryString({a: null})` throws. */
  lemma NullMemberExample()
    ensures QueryString(Obj([("a", Null)]), "").Err?
  {
    NullValueThrows(EncodeURIComponent, Obj([("a", Null)]), "", 0);
  }
}
