# utilities.js in Dafny

A model of the helper namespace `window.utilities` of ryanzec/utilities. It has
five modelled helpers:

- `jsonToQueryString` turns a nested object into a URL query string. It uses
  bracketed names and `encodeURIComponent`.
- `getKeyByPropertyValue` searches an array of objects by index for the first
  element whose property holds a value.
- `getObjectByPropertyValue` does the same search by `for…in` and returns the
  element itself.
- `stringJsonParser` reads a dotted path such as `"a.b.c"` without throwing on
  missing steps.
- `escapeHtml` replaces the six markup characters by their references from
  `htmlEntityMap`.

The modules:

- `Values` holds the JavaScript values the helpers take apart. These are
  undefined, null, booleans, integers, strings, plain objects (their own
  enumerable entries in `Object.keys` order), arrays and functions. The module
  also defines property reads: `v[key]`, including the TypeError that reading a
  property of undefined or null throws.
- `Strings` holds decimal rendering of numbers, `Array.prototype.join` and
  `String.prototype.split` on one character.
- `Uri` holds `encodeURIComponent`, the algorithm of section 15.1.3.4 of
  ECMA-262 (5.1 edition). Characters outside the component's unreserved set are
  written as `%XY` escapes of their UTF-8 octets.
- `QueryString` holds `jsonToQueryString`. It is a method with the source's
  loop, proved equal to a recursive serialiser. The serialiser is proved equal
  to a reference reading: the leaves of a depth-first walk, rendered as
  `name=value` and joined by `&`.
- `Search` holds `getKeyByPropertyValue` and `getObjectByPropertyValue`. Both
  are methods with the source's loops and early returns, proved equal to one
  scan. The scan is characterised without recursion: first match, no match, or
  the first unreadable element.
- `PathLookup` holds `stringJsonParser`, a method with the source's loop proved
  equal to a fold over the `.`-separated segments.
- `Html` holds `escapeHtml`, as the source writes it and as it is evidently
  meant, with its inverse.

Thrown exceptions are modelled as `Err` results:
- `Object.keys(null)` in `jsonToQueryString`;
- reading a property of undefined or null in the two searches;
- the unbound name in `escapeHtml`.

Three of the helpers throw on their inputs: `jsonToQueryString` on a null
anywhere inside its object, and both searches on an undefined or null element
met before a match. `escapeHtml` as written throws a ReferenceError when no
global `string` exists.

## Model

| member | source | states |
|---|---|---|
| `QueryString.JsonToQueryString` | utilities.js:27-42 | The loop over the own keys, with its recursive calls, computes exactly the serialiser's result, or throws exactly when it does. |
| `QueryString.SerialiseIsJoinedLeaves` | utilities.js:27-42 | For every encoder, the call succeeds exactly when the walk meets no null. The output is then the walk's leaves rendered as `enc(name)=enc(value)` and joined by `&`. An empty nested object leaves one empty piece behind. |
| `QueryString.QueryStringIsJoinedLeaves` | utilities.js:27-42 | The same with the source's own encoder, `encodeURIComponent`. |
| `QueryString.QueryStringSplitsIntoLeaves` | utilities.js:41 | Splitting a non-empty result on `&` gives back the rendered leaves one by one, because `&` never occurs inside a piece. |
| `QueryString.PairSplitsAtEquals` | utilities.js:38 | A rendered pair splits on `=` into exactly the encoded name and the encoded value. |
| `QueryString.LeavesNamedUnderPrefix` | utilities.js:33 | Under a non-empty prefix, every leaf name starts with `prefix[`, down to any depth of nesting. |
| `QueryString.ThrowsExactlyOnNull` | utilities.js:29-36 | For every encoder, the call throws exactly when a null occurs anywhere inside the value, at any depth. It succeeds whenever there is none. |
| `QueryString.LeavesFailOnNull` | utilities.js:29-36 | The reference walk fails exactly when it meets a null, by a structural search independent of the serialiser. |
| `QueryString.NullValueThrows` | utilities.js:29-36 | A null value under any own key makes the whole call throw, because `typeof null` is `"object"` and `Object.keys(null)` throws. |
| `QueryString.FlatObject` | utilities.js:32-39 | An object with no nested objects gives one piece per key, in key order. Piece `i` is `enc(name_i)=enc(String(value_i))`, with the prefix applied to the name. |
| `QueryString.FragmentsErr` | utilities.js:36-38 | Once a piece throws, the rest of the loop is never reached and the call throws the same error. |
| `QueryString.EmptyObjectGivesEmptyString` | utilities.js:41 | `jsonToQueryString({})` is `""`, whatever the prefix. |
| `QueryString.FlatPairsExample` | utilities.js:27-42 | `jsonToQueryString({a: 1, b: 2})` is `"a=1&b=2"`. |
| `QueryString.NestedKeyExample` | utilities.js:33-37 | `jsonToQueryString({a: {b: 1}})` is `"a%5Bb%5D=1"`. |
| `QueryString.EmptyNestedObjectExample` | utilities.js:36-41 | `jsonToQueryString({a: {}, b: 1})` is `"&b=1"`: the stray separator of an empty nested object. |
| `QueryString.NullMemberExample` | utilities.js:29-36 | `jsonToQueryString({a: null})` throws. |
| `Uri.OctetsOfEncode` | utilities.js:38 | Decoding the `%XY` escapes of `encodeURIComponent(s)` gives exactly the UTF-8 octets of `s`. |
| `Uri.Utf8StringInjective` | utilities.js:38 | Distinct strings have distinct UTF-8 octets: the lead octet fixes each character's length, and the octets spell out its scalar value. |
| `Uri.EncodeInjective` | utilities.js:38 | The encoding loses nothing: strings with the same encoding are equal. |
| `Uri.EncodedHasNoDelimiters` | utilities.js:38 | An encoded component holds none of `&`, `=`, `[`, `]`. |
| `Uri.EncodeAppend` | utilities.js:38 | Encoding distributes over concatenation. |
| `Uri.EncodeUnreserved` | utilities.js:38 | A string of unreserved characters is its own encoding. |
| `Uri.EncodeBrackets` | utilities.js:33-38 | The brackets of a nested name encode as `%5B` and `%5D`. |
| `Uri.EncodeNestedName` | utilities.js:33-38 | The bracketed name `a[b]` encodes as `a%5Bb%5D`. |
| `Uri.EncodeURIComponent` | utilities.js:38 | The encoding is never shorter than its input. |
| `Values.GetEntry` | utilities.js:34 | Reading `v[Object.keys(v)[i]]` gives the i-th own value, for objects and for arrays alike. |
| `Values.Member` | utilities.js:58 | Reading a property throws exactly on undefined and null. On objects it is the object's own lookup. |
| `Strings.JoinSplit` | utilities.js:101 | Joining the pieces of a split with the separator gives the string back. |
| `Strings.SplitJoin` | utilities.js:101 | Splitting the join of pieces that contain no separator gives the pieces back. |
| `Search.GetKeyByPropertyValue` | utilities.js:76-84 | The index loop with its early returns answers exactly the scan's result: first matching index, -1, or the TypeError of an unreadable element. |
| `Search.NotFoundMeansNoMatch` | utilities.js:83 | The answer is -1 exactly when every element is read and none has the property equal to the value. |
| `Search.FoundIsFirstMatch` | utilities.js:77-81 | Any other answer is an index in range whose element matches, and no earlier element matches. |
| `Search.ThrowsOnUnreadableElement` | utilities.js:78 | The search throws exactly when an undefined or null element comes before any match. |
| `Search.FindsSecondRecord` | utilities.js:76-84 | Among records with `id` 1, 2, 2 the search for 2 answers 1. |
| `Search.GetObjectByPropertyValue` | utilities.js:55-63 | The `for…in` loop with its early return answers exactly the element at the first match, nothing when there is none, or the TypeError. |
| `Search.ElementsAreOwnReads` | utilities.js:56-58 | The elements the `for…in` loop tests are `data[prop]` for each own key `prop` in turn: one per key of an object or an array, one per index of a string, none for other values. |
| `Search.ObjectIsElementAtKey` | utilities.js:55-84 | On an array, `getObjectByPropertyValue` gives `data[getKeyByPropertyValue(...)]` when that index is not -1. It gives nothing when it is -1, and throws exactly when the index search throws. |
| `Search.MatchingElementMatches` | utilities.js:58-59 | An element it returns has the property equal to the value. |
| `PathLookup.StringJsonParser` | utilities.js:95-109 | The loop answers exactly the lookup: `{}` for the empty path, otherwise the fold of the steps over the `.`-separated segments. |
| `PathLookup.Step` | utilities.js:104 | On anything `_.isObject` accepts, a step is the JavaScript read `v[segment]`, which does not throw there. On anything it rejects, the step gives undefined instead of reading. |
| `PathLookup.ResolveAppend` | utilities.js:103-105 | Walking a path in two parts is walking the first part, then the second from where it ended. |
| `PathLookup.MissingIsSticky` | utilities.js:104 | Once a step reaches a non-object, undefined among them, every further step gives undefined, so the lookup never throws. |
| `PathLookup.EmptyPathGivesEmptyObject` | utilities.js:96-98 | The empty path answers an empty object, not the root. |
| `PathLookup.SingleSegment` | utilities.js:101-105 | A non-empty path without a dot is a single property read. |
| `PathLookup.DottedPath` | utilities.js:101-105 | `w.rest` is `rest` looked up in `root[w]`. |
| `PathLookup.NestedLookup` | utilities.js:95-109 | A value nested under keys without dots is found again by the keys joined with dots. |
| `PathLookup.FindsNestedNumber` | utilities.js:95-109 | `stringJsonParser("a.b", {a: {b: 5}})` is 5. |
| `PathLookup.MissingLastStepGivesUndefined` | utilities.js:95-109 | `stringJsonParser("a.x", {a: {b: 5}})` is undefined. |
| `PathLookup.MissingStepGivesUndefined` | utilities.js:95-109 | `stringJsonParser("a.x.y", {a: {b: 5}})` is undefined, not a TypeError. |
| `Html.EscapeChar` | utilities.js:7-14 | Exactly the six characters `& < > " ' /` have a table entry. Each entry starts with `&`, ends with `;` and holds none of the markup characters. Every other character stays as it is. |
| `Html.EscapeHtml` | utilities.js:111-115 | The escaped text is never shorter than its input. |
| `Html.EscapeConcat` | utilities.js:112 | Escaping distributes over concatenation: it works one character at a time and never rescans what it inserted. |
| `Html.EscapeUnchanged` | utilities.js:112 | Text without any of the six characters comes back unchanged. |
| `Html.EscapedHasNoMarkup` | utilities.js:112 | Escaped text holds none of `<`, `>`, `"`, `'`, `/`. |
| `Html.EscapeLengthens` | utilities.js:7-14 | Text holding a special character grows by at least three characters. |
| `Html.UnescapeEscape` | utilities.js:111-115 | Decoding the six references undoes escaping. |
| `Html.EscapesTag` | utilities.js:111-115 | `"<b>"` escapes to `"&lt;b&gt;"`. |
| `Html.AsWrittenIgnoresArgument` | utilities.js:111-112 | As written, the answer is the same whatever argument is passed. |
| `Html.AsWrittenMissesTag` | utilities.js:111-115 | As written, `escapeHtml("<b>")` throws, or answers `""` under a global `string` of `""`, where `"&lt;b&gt;"` is meant. |

## Left out

- The `window.utilities` wrapper that publishes the functions on the browser's global object is not modelled.
- JavaScript numbers are modelled as integers. Fractions, NaN, infinities and their string forms are not modelled, and `===` is structural equality on the model's values. Two distinct objects with equal contents therefore match where JavaScript would compare identities.
- Inherited and non-enumerable properties are not modelled. Function properties such as `name` and `length` read as undefined, and booleans and numbers answer no property.
- `Object.keys` puts integer-like keys of plain objects first in ascending order; the model takes an object's entries in the order given.
- Sparse arrays and arrays with extra named properties are not modelled.
- `getKeyByPropertyValue` is modelled on arrays only; its `data.length` on other values is not modelled. `getObjectByPropertyValue` is modelled on any value.
- `jsonToQueryString` is modelled on values `typeof` calls an object. A missing prefix (`undefined`) is represented by `""`, which the source treats the same because both are falsy.
- Cyclic objects, on which `jsonToQueryString` recurses without end, cannot be built from the model's values.
- `encodeURIComponent` throws a URIError on lone surrogates. Dafny's characters are Unicode scalar values, so no such input exists in the model.
- `escapeHtml` is modelled on strings; the conversion `String(x)` of other values is not modelled.
- `_.isObject` is taken as "function or non-null object"; Underscore's code is not part of this model.
- QueryString.NullValueThrows: states only that the call throws. It does not name which TypeError.
- Values.Member: a string's `length` and its indices count Unicode scalar values, not UTF-16 code units. Dafny's characters are scalar values, so a character outside the Basic Multilingual Plane counts once where JavaScript counts two surrogate halves.
- Search.Elements: `for…in` over a string visits one index per Unicode scalar value, not one per UTF-16 code unit, for the same reason.
- An object value may list the same key twice, which JavaScript objects cannot. Reads of the i-th key's value take the i-th entry; `Values.GetEntry` shows this is `v[Object.keys(v)[i]]` whenever the keys are distinct.

## Findings

| source | as written | input that shows it | evidently intended | confidence | as-written member | corrected member |
|---|---|---|---|---|---|---|
| utilities.js:111-112 | `escapeHtml` declares no parameter and escapes the variable `string`, which nothing in the file defines. It throws a ReferenceError, or escapes an unrelated global, and never reads its argument. | `escapeHtml("<b>")` throws when no global `string` exists, and answers `""` when a global `string` is `""`. | `escapeHtml(string)` escapes its argument: `"<b>"` becomes `"&lt;b&gt;"`, and decoding the result gives the argument back. | not executed | `Html.AsWrittenMissesTag` | `Html.EscapeHtml` |
