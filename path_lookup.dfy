/** `stringJsonParser`: reading a dotted property path such as `"a.b.c"` out
    of a value without throwing when some step along it is missing. */
module PathLookup {

  import opened Results
  import opened Strings
  import opened Values

  /** One step along the path: `_.isObject(v) ? v[segment] : undefined`. */
  function Step(v: Value, segment: string): (r: Value)
    ensures !IsObjectLike(v) ==> r == Undefined
    ensures IsObjectLike(v) ==> Member(v, segment) == Ok(r)
  {
    if IsObjectLike(v) then Get(v, segment) else Undefined
  }

  /** The value reached by taking each segment in turn. */
  function Resolve(v: Value, segments: seq<string>): Value
    decreases |segments|
  {
    if segments == [] then v else Resolve(Step(v, segments[0]), segments[1..])
  }

  /** What `stringJsonParser(stringPath, object)` answers: an empty object for
      the empty path, otherwise the value the `.`-separated segments reach. */
  function Lookup(stringPath: string, root: Value): Value {
    if |stringPath| > 0 then Resolve(root, Split(stringPath, '.')) else Obj([])
  }

  method StringJsonParser(stringPath: string, root: Value) returns (returnValue: Value)
    ensures returnValue == Lookup(stringPath, root)
  {
    returnValue := Obj([]);
    if |stringPath| > 0 {
      returnValue := root;
      var parts := Split(stringPath, '.');
      for x := 0 to |parts|
        invariant Resolve(returnValue, parts[x..]) == Resolve(root, parts)
      {
        assert parts[x..][1..] == parts[x + 1..];
        returnValue := if IsObjectLike(returnValue) then Get(returnValue, parts[x]) else Undefined;
      }
      assert parts[|parts|..] == [];
    }
  }

  /** Walking a path in two pieces is walking the first, then the second. */
  lemma {:induction false} ResolveAppend(v: Value, first: seq<string>, second: seq<string>)
    ensures Resolve(v, first + second) == Resolve(Resolve(v, first), second)
    decreases |first|
  {
    if first == [] {
      assert first + second == second;
    } else {
      assert (first + second)[1..] == first[1..] + second;
      ResolveAppend(Step(v, first[0]), first[1..], second);
    }
  }

  /** Once a step reaches something that is not an object (undefined among
      them), every further step gives undefined: the lookup never throws. */
  lemma {:induction false} MissingIsSticky(v: Value, segments: seq<string>)
    requires !IsObjectLike(v) && segments != []
    ensures Resolve(v, segments) == Undefined
    decreases |segments|
  {
    if |segments| > 1 {
      MissingIsSticky(Undefined, segments[1..]);
    }
  }

  /** The empty path answers a fresh empty object, whatever is searched. */
  lemma EmptyPathGivesEmptyObject(root: Value)
    ensures Lookup("", root) == Obj([])
  {
  }

  /** A path without a dot is a single property read. */
  lemma SingleSegment(segment: string, root: Value)
    requires segment != [] && '.' !in segment
    ensures Lookup(segment, root) == Step(root, segment)
  {
    SplitJoin([segment], '.');
    assert Join([segment], ".") == segment;
    assert Split(segment, '.') == [segment];
    assert Resolve(root, [segment]) == Resolve(Step(root, segment), []);
  }

  /** `"w.rest"` is `rest` looked up in `root[w]`. */
  lemma DottedPath(w: string, rest: string, root: Value)
    requires '.' !in w && rest != []
    ensures Lookup(w + "." + rest, root) == Lookup(rest, Step(root, w))
  {
    SplitCons(w, rest, '.');
    assert w + "." + rest == w + ['.'] + rest;
  }

  /** The value nested under `keys`, one single-property object per key. */
  function Nest(keys: seq<string>, leaf: Value): Value
    decreases |keys|
  {
    if keys == [] then leaf else Obj([(keys[0], Nest(keys[1..], leaf))])
  }

  /** Looking up `keys` joined by dots in the value nested under them finds
      the leaf again. */
  lemma NestedLookup(keys: seq<string>, leaf: Value)
    requires keys != [] && Join(keys, ".") != ""
    requires forall i :: 0 <= i < |keys| ==> '.' !in keys[i]
    ensures Lookup(Join(keys, "."), Nest(keys, leaf)) == leaf
  {
    SplitJoin(keys, '.');
    ResolveNest(keys, leaf);
  }

  lemma {:induction false} ResolveNest(keys: seq<string>, leaf: Value)
    ensures Resolve(Nest(keys, leaf), keys) == leaf
    decreases |keys|
  {
    if keys != [] {
      ResolveNest(keys[1..], leaf);
    }
  }

  /** `stringJsonParser("a.b", {a: {b: 5}})` is 5. */
  lemma FindsNestedNumber()
    ensures Lookup("a.b", Obj([("a", Obj([("b", Num(5))]))])) == Num(5)
  {
    DottedPath("a", "b", Obj([("a", Obj([("b", Num(5))]))]));
    SingleSegment("b", Obj([("b", Num(5))]));
  }

  /** `stringJsonParser("a.x.y", {a: {b: 5}})` is undefined instead of a
      TypeError. */
  lemma MissingStepGivesUndefined()
    ensures Lookup("a.x.y", Obj([("a", Obj([("b", Num(5))]))])) == Undefined
  {
    var root, inner := Obj([("a", Obj([("b", Num(5))]))]), Obj([("b", Num(5))]);
    assert Step(root, "a") == inner;
    assert Step(inner, "x") == Undefined;
    DottedPath("a", "x.y", root);
    DottedPath("x", "y", inner);
    SingleSegment("y", Undefined);
  }

  /** `stringJsonParser("a.x", {a: {b: 5}})` is undefined. */
  lemma MissingLastStepGivesUndefined()
    ensures Lookup("a.x", Obj([("a", Obj([("b", Num(5))]))])) == Undefined
  {
    DottedPath("a", "x", Obj([("a", Obj([("b", Num(5))]))]));
    SingleSegment("x", Obj([("b", Num(5))]));
  }
}
