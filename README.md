# ember-deparam in Dafny

A model of `deparam(params, coerce)`, the query-string decoder of the
ember-deparam add-on, with proofs of what it does. `deparam` turns a query
string such as `a[]=4&a[]=5&b[x][]=7&b[y]=8` into a nested structure of
mappings, arrays and scalars. It works in five steps:

- **Pair splitting.** Every `+` becomes a space, the text is split on `&`,
  and each pair is split on every `=`. The key and the value are then
  percent-decoded.
- **Key-path resolution.** The key is split on `][`. A bracket-balance test
  decides whether the key is a path of segments (`a[b][]` gives `a`, `b`,
  ``) or one flat name.
- **Optional coercion.** When `coerce` is on, the value is coerced. The text
  `undefined` gives `undefined` by a test of its own. `true`, `false` and
  `null` come from a fixed three-entry table. An integer becomes a number when
  it survives the numeric round trip.
- **Insertion.**
  - A path is walked from the root. Each intermediate segment reuses a truthy
    entry or creates a fresh container. The container is an array when the
    next segment is empty or numeric, and a mapping otherwise.
  - A flat key stores a scalar. Its second value turns it into `[old, new]`,
    and later values are appended.
- **Value-less pairs.** A pair that does not split on `=` into exactly two
  parts sets its key to `''`, or to `undefined` when coercing. The key is the
  decoded text before the first `=`, used as one flat name even when it holds
  brackets.

Modules, one per file:

| file | module | what it holds |
|---|---|---|
| wrappers.dfy | `Wrappers` | `Option` and `Result` |
| strings.dfy | `Strings` | `split`, the `+`-to-space rewrite, and their lemmas |
| numbers.dfy | `Numbers` | unary `+` on integer text, Number-to-string, the array-index rule |
| values.dfy | `Values` | scalars, the two host exceptions, coercion |
| keypaths.dfy | `KeyPaths` | key-path resolution |
| tree.dfy | `Tree` | the result tree, deep insertion, flat insertion, tree invariants |
| deparam.dfy | `Deparam` | one pair's step, the fold over the pairs, and the `deparam` loop as a method |
| properties.dfy | `Properties` | what the decoder promises over whole query strings |
| examples.dfy | `Examples` | the repository's test cases, derived from the model |

`decodeURIComponent` is a parameter `decode: string -> Option<string>`, where
`None` is the `URIError` it throws. Properties about whole query strings
assume only `Plain(decode)`: text without a `%` escape decodes to itself.

A result is `Ok(node)`, or `Err(e)` for an exception that escapes `deparam`.
Three behaviours of the code are worth stating plainly:

- **The decoder can throw.** The module is strict-mode code. A bracketed pair
  whose walk meets a truthy scalar before its last segment assigns a property
  on a primitive, and that throws a `TypeError`. It happens at the first
  segment (`a=1&a[b]=2`; see `Properties.ScalarThenBracket`) and below it
  (`a[b]=1&a[b][c]=2`; see `Properties.DeeperScalarThenBracket`). A malformed
  percent escape throws `URIError`.
- **Falsy entries are replaced.** The walk reuses an existing entry only when
  it is truthy (deparam.js:59; the comment at deparam.js:51-52 speaks of an
  undefined level). So an existing `''`, `false`, `null`, `undefined` or `0`
  is replaced by a fresh container (`a&a[b]=2`; see
  `Properties.FalsyThenBracket`).
- **Value-less means "not exactly one `=`".** A pair is split on every `=`, so
  any pair without exactly two parts is value-less. Its key is the decoded
  first part: `a=b=c` sets `a` to `''`.

A named segment that is not an index, used on an array (`a[]=1&a[x]=2`), is
stored as a named property of the array (`Arr.props`), as JavaScript does.
Such properties are not elements: they do not count towards the length.

## Model

| member | source | states |
|---|---|---|
| Strings.SpacePlus | addon/utils/deparam.js:6 | the result has the input's length; each `+` becomes a space and every other character is kept |
| Strings.JoinSplit | addon/utils/deparam.js:6 | joining the pieces of `split(sep)` with `sep` gives back the input: splitting loses nothing |
| Strings.SplitCount | addon/utils/deparam.js:6 | splitting on one character gives one more piece than the character's occurrences |
| Strings.SplitPiecesAvoidSep | addon/utils/deparam.js:6 | no piece of a split on a character contains that character |
| Strings.SplitJoin | addon/utils/deparam.js:6 | pieces that the separator cannot begin in, once joined, split back into themselves |
| Deparam.Pairs | addon/utils/deparam.js:6 | the pairs join back with `&` to the query string after the `+` rewrite; there is one pair per `&` plus one; no pair holds `&` or `+` |
| Properties.PairsOfJoin | addon/utils/deparam.js:6 | pairs free of `&` and `+`, joined with `&`, are exactly the pairs the decoder processes |
| Properties.SplitPair | addon/utils/deparam.js:8 | `key=value` with no `=` in either part splits into exactly `[key, value]` |
| KeyPaths.KeyPath | addon/utils/deparam.js:13-29 | there is at least one segment; the key is bracketed exactly when there are two or more; an unbracketed key is its own single segment |
| KeyPaths.SplitRender | addon/utils/deparam.js:13 | the `][`-pieces of `a[b]…[z]` are `a[b`, the middle segments, and `z]` |
| KeyPaths.KeyPathRender | addon/utils/deparam.js:13-29 | for any path of two or more bracket-free segments, resolving the key `p0[p1]…[pn]` gives back exactly that path |
| KeyPaths.FlatWithoutOpen | addon/utils/deparam.js:16-29 | a key without `[` is one flat segment |
| KeyPaths.FlatWithoutClose | addon/utils/deparam.js:16-29 | a key without `]` is one flat segment, so `a[b` stays the name `a[b` |
| Numbers.ShowNat | addon/utils/deparam.js:40 | the exact decimal text of a natural number is a digit string, with a leading `0` only for zero, whose value is the number |
| Numbers.ShowInt | addon/utils/deparam.js:40 | read back as an exact integer, the decimal text of an integer gives that integer |
| Numbers.ShowNatOfDigits | addon/utils/deparam.js:40 | a digit string without a leading zero, or `0` itself, is Number-to-string of its own value |
| Numbers.RoundTripIffCanonical | addon/utils/deparam.js:40 | with exact integers, reading `s` as a number and printing it back gives `s` exactly when `s` is a canonical decimal integer: no leading zero and no `-0` |
| Numbers.ArrayIndex | addon/utils/deparam.js:57-61 | a segment names an array index exactly when it is the canonical decimal of an integer from 0 to 2^32 - 2; the index is that integer |
| Values.Coerce | addon/utils/deparam.js:35-43 | `undefined` gives undefined; table entries give their values; a number is stored only when its text round-trips and it is at most 2^53 in magnitude; anything else stays the same string, and exactly those inputs stay strings |
| Values.CoerceShowInt | addon/utils/deparam.js:40-41 | every integer of magnitude at most 2^53, written in decimal, is coerced to itself |
| Values.LongDigitsStayStrings | addon/utils/deparam.js:40 | a digit string of 17 or more digits without a leading zero is above 2^53 and stays a string |
| Values.CoerceSmallNumber | tests/unit/utils/deparam-test.js:21 | `1234` is coerced to the number 1234 |
| Values.CoerceLargeNumber | tests/unit/utils/deparam-test.js:22 | `999999999999999999` stays a string |
| Tree.Put | addon/utils/deparam.js:59-61 | after the assignment the slot holds the new node and every other slot is unchanged; an index at or past an array's length extends the length to the index plus one |
| Tree.SlotOf | addon/utils/deparam.js:57 | on a mapping a segment names the field of that name, the empty one the field `undefined`; on an array the empty segment names `Index(length)`, which on a well-formed array is still free, a non-empty segment names an index exactly when it is a canonical array index (the index it spells), and otherwise a named property |
| Tree.InsertDeep | addon/utils/deparam.js:55-64 | the walk keeps the root's kind and changes only the first segment's slot, which ends up present; a truthy scalar under the first segment of a longer path throws `TypeError`; a missing or falsy entry there is replaced by an array exactly when the next segment is empty or numeric, and by a mapping otherwise; `TypeError` is the only failure and needs two or more segments |
| Tree.InsertDeepFails | addon/utils/deparam.js:55-64 | a deep insertion fails exactly when the walk meets a truthy scalar before the last segment, at any depth |
| Tree.EmptySegmentAppends | addon/utils/deparam.js:57-63 | an empty first segment on a well-formed array writes at index `length`, which was free; the length grows by one, and no other slot and no named property changes |
| Tree.IndexSegmentWrites | addon/utils/deparam.js:57-63 | a canonical index as the first segment on an array writes at that index: the length becomes the larger of the old length and index + 1, and no other slot and no named property changes |
| Tree.InsertDeepOnlyAlong | addon/utils/deparam.js:55-64 | a deep insertion rewrites only the slots along its path: at every level every other slot keeps its entry, the walk continues into the container that was there (or a fresh one), an array's length grows only as the assignment demands, and the last slot holds the value |
| Tree.ReadBack | addon/utils/deparam.js:55-64 | after a deep insertion, following the same path reads the value back |
| Tree.InsertDeepPreserves | addon/utils/deparam.js:55-64 | a deep insertion never turns a container into the other kind at any depth, removes no entry and shortens no array |
| Tree.InsertDeepWellFormed | addon/utils/deparam.js:55-64 | a deep insertion keeps every array's indices below its length |
| Tree.InsertDeepAllStrings | addon/utils/deparam.js:55-64 | a deep insertion of a string into a tree of strings leaves a tree of strings |
| Tree.ArrayOf | addon/utils/deparam.js:74 | the array literal has the elements at their indices, in order, and their number as its length |
| Tree.PushArrayOf | addon/utils/deparam.js:69 | `push` onto an array of elements gives the array of the elements followed by the new one |
| Tree.InsertFlat | addon/utils/deparam.js:67-79 | a new key stores the scalar; an existing array gets the scalar appended, keeping its earlier slots; an existing non-array value becomes `[old, new]`; no other key changes |
| Tree.InsertFlatInvariants | addon/utils/deparam.js:67-79 | flat insertion keeps arrays well formed, and stores only strings when given a string |
| Properties.InsertFlatFresh | addon/utils/deparam.js:76-78 | a flat key met for the first time is stored as it is |
| Deparam.Step | addon/utils/deparam.js:8-85 | a pair never removes a root key; a `URIError` is thrown exactly when decoding the key fails or, for a two-part pair, decoding the value fails; a `TypeError` comes only from a two-part pair whose decoded key is bracketed |
| Properties.ValuedStep | addon/utils/deparam.js:8-80 | `key=value` of literal text inserts the value, coerced or not, along the deep path when the key is bracketed and under the flat key otherwise |
| Properties.ValuedFlatStep | addon/utils/deparam.js:65-80 | `key=value` with an unbracketed key goes to flat insertion |
| Properties.ValuedDeepStep | addon/utils/deparam.js:45-64 | `p0[p1]…=value` goes to the deep walk along exactly that path; its `TypeError` escapes |
| Properties.RenderLiteral | addon/utils/deparam.js:13-29 | the key written for literal segments is literal |
| Properties.ValuelessStep | addon/utils/deparam.js:82-85 | a pair without exactly one `=` sets its decoded key (the text before the first `=`, brackets included, as one flat name) to `''` (undefined when coercing), overwriting any earlier value; an empty key changes nothing |
| Properties.BracketedStep | addon/utils/deparam.js:45-64 | a bracketed pair keeps the shape of the tree, rewrites only the slots along the key's path, and the stored value reads back along that path |
| Deparam.Deparam | addon/utils/deparam.js:3-89 | the loop over the pairs returns exactly the left-to-right fold of the steps, stopping at the first exception |
| Deparam.URIErrorEscapes | addon/utils/deparam.js:7-33 | once the pairs before it succeed, a pair whose key or value does not decode makes the whole call throw `URIError` |
| Deparam.FailureStops | addon/utils/deparam.js:7-86 | once a prefix of the pairs throws, the whole call throws the same exception |
| Properties.FoldAppend | addon/utils/deparam.js:7 | folding one more pair is one more step on the result so far |
| Properties.EmptyQuery | addon/utils/deparam.js:4-7 | the empty query string gives the empty mapping |
| Properties.SinglePair | addon/utils/deparam.js:76-78 | a query of one plain pair gives a mapping with exactly that entry |
| Properties.TwoPairs | addon/utils/deparam.js:6-7 | a query of two pairs is the second step applied to the result of the first |
| Properties.FlatTwice | addon/utils/deparam.js:71-75 | a flat key given twice holds `[first, second]` |
| Properties.FlatSecond | addon/utils/deparam.js:71-75 | the second value for a flat key holding a scalar makes the two-element array |
| Properties.FlatPush | addon/utils/deparam.js:67-69 | a further value for a flat key holding an array is appended |
| Properties.FlatRepeat | addon/utils/deparam.js:67-79 | a new flat key given values v1, …, vn (n >= 2) holds the array [v1, …, vn], in order, and no other key changes |
| Properties.RepeatedFlatKey | addon/utils/deparam.js:67-79 | the query `k=v1&…&k=vn` (n >= 2) gives exactly `{k: [v1, …, vn]}` |
| Properties.StepInvariants | addon/utils/deparam.js:8-85 | each pair keeps all arrays well formed, and without coercion stores only strings |
| Properties.FoldInvariants | addon/utils/deparam.js:7-86 | the fold keeps all arrays well formed, and without coercion stores only strings |
| Properties.ParseInvariants | addon/utils/deparam.js:3-89 | every result has well-formed arrays, and without coercion every scalar in it is a string |
| Properties.TruthySecond | addon/utils/deparam.js:59-61 | `a[b]=v` where `a` holds a truthy scalar throws `TypeError` |
| Properties.StepTypeError | addon/utils/deparam.js:45-64 | a valued pair with a bracketed key throws `TypeError` exactly when its walk is blocked by a truthy scalar before the last segment |
| Properties.DeeperTruthy | addon/utils/deparam.js:56-63 | a pair `a[b][c]=v` throws `TypeError` when `b` below `a` holds a truthy scalar |
| Properties.DeeperScalarThenBracket | addon/utils/deparam.js:56-63 | `a[b]=x&a[b][c]=y`, where the stored `x` is truthy, throws `TypeError` one level below the root |
| Properties.ScalarThenBracket | addon/utils/deparam.js:59-61 | `a=x&a[b]=y`, where the stored `x` is truthy, throws `TypeError` |
| Properties.DeepFresh | addon/utils/deparam.js:59 | walking `[a, b]`, where `a` is missing or falsy and `b` is not numeric, puts the mapping `{b: v}` under `a` |
| Properties.ValuelessFirst | addon/utils/deparam.js:82-84 | a first pair that is a plain key without `=` stores `''` (undefined when coercing) |
| Properties.FalsySecond | addon/utils/deparam.js:59 | `a[b]=v` over a falsy scalar under `a` replaces the scalar with `{b: v}` |
| Properties.FalsyThenBracket | addon/utils/deparam.js:55-85 | `a&a[b]=v` gives `{a: {b: v}}`: the falsy value stored first is replaced |
| Properties.SingleBracketPair | addon/utils/deparam.js:55-64 | the query `a[b]=v`, with `b` not numeric, gives `{a: {b: v}}` |
| Properties.DeepPush | addon/utils/deparam.js:57-63 | walking `[key, ""]` appends the value to the array under `key`, or starts one when `key` is missing |
| Properties.PushStep | addon/utils/deparam.js:57-63 | a pair `key[]=v` pushes the value onto the array under `key` |
| Properties.PushFirst | addon/utils/deparam.js:57-63 | the first `key[]=v` for a missing key makes the one-element array |
| Properties.PushNext | addon/utils/deparam.js:57-63 | a further `key[]=v` appends to the array built so far |
| Properties.PushRepeat | addon/utils/deparam.js:55-64 | `key[]=v1&…&key[]=vn` on a new key builds [v1, …, vn], in order, and no other key changes |
| Properties.PushKey | addon/utils/deparam.js:55-64 | the query `k[]=v1&…&k[]=vn` gives exactly `{k: [v1, …, vn]}` |
| Properties.MapOfContents | tests/unit/utils/deparam-test.js:81-85 | the reference mapping of a flat object has every entry's key, and with distinct keys each one holds its value |
| Properties.MapOfOnly | tests/unit/utils/deparam-test.js:81-85 | the reference mapping has no key that no entry has |
| Properties.FlatFold | addon/utils/deparam.js:67-79 | the pairs of a flat object with distinct plain keys fold into its reference mapping |
| Properties.FlatRoundTrip | tests/unit/utils/deparam-test.js:81-85 | a flat object of strings with distinct plain keys, serialized as `k1=v1&…&kn=vn` and decoded without coercion, comes back as exactly its entries |
| Properties.RenderPush | addon/utils/deparam.js:13-29 | `b[x][]` is the key written for the path `[b, x, ""]` |
| Properties.FreshPush | addon/utils/deparam.js:55-64 | walking `[b, x, ""]` with `b` missing and `x` not numeric puts `{x: [v]}` under `b` |
| Properties.DeepAdd | addon/utils/deparam.js:55-64 | walking `[b, y]` where `b` holds a mapping adds `y` to that same mapping and keeps its other entries |
| Properties.MixedPushes | addon/utils/deparam.js:55-64 | `a[]=r0&a[]=r1` gives `{a: [r0, r1]}` |
| Properties.MixedThird | addon/utils/deparam.js:55-64 | `b[x][]=r` on a root without `b` adds `b: {x: [r]}` and keeps the other keys |
| Properties.MixedFourth | addon/utils/deparam.js:55-64 | `b[y]=r` where `b` holds a mapping adds `y` to it and keeps everything else |
| Properties.MixedPairs | addon/utils/deparam.js:6 | the query `a[]=r0&a[]=r1&b[x][]=r2&b[y]=r3` splits into its four pairs |
| Properties.MixedFold | addon/utils/deparam.js:7-86 | the four pairs fold into `{a: [r0, r1], b: {x: [r2], y: r3}}` |
| Properties.DeepIndexFresh | addon/utils/deparam.js:56-63 | the walk along `[d, k, e]`, where `d` holds an array of n elements and `k` spells index n, appends a fresh mapping holding `e` |
| Properties.PushThenIndex | addon/utils/deparam.js:56-63 | `d[]=r0&d[]=r1&d[2][e]=r2` gives exactly `{d: [r0, r1, {e: r2}]}`: the index segment lands inside the array the pushes built |
| Properties.MixedQuery | tests/unit/utils/deparam-test.js:49-50 | `a[]=r0&a[]=r1&b[x][]=r2&b[y]=r3` gives exactly `{a: [r0, r1], b: {x: [r2], y: r3}}`: the mapping made for `x` is reused for `y` with `x` kept |
| Properties.NestedFirst | addon/utils/deparam.js:55-64 | the first `k[j]=v`, with `j` not numeric, creates `{k: {j: v}}` |
| Properties.NestedNext | addon/utils/deparam.js:55-64 | a later `k[j]=v` adds `j` to the mapping under `k`, keeping its other entries |
| Properties.NestedFold | addon/utils/deparam.js:7-86 | the pairs `k[j]=v` of a mapping's entries fold into that mapping under `k` |
| Properties.NestedRoundTrip | tests/unit/utils/deparam-test.js:81-85 | a mapping of strings below one key, serialized as `k[j1]=v1&…&k[jn]=vn` and decoded without coercion, comes back as exactly that mapping under `k` |
| Examples.ReservedNameFlat | tests/unit/utils/deparam-test.js:44 | `hasOwnProperty=sillystring` stores `sillystring` under `hasOwnProperty` |
| Examples.ReservedNameNested | tests/unit/utils/deparam-test.js:45 | `prop[hasOwnProperty]=sillystring` gives `{prop: {hasOwnProperty: "sillystring"}}` |
| Examples.CoerceTrue | tests/unit/utils/deparam-test.js:18 | `prop=true` gives the boolean with coercion and the string without |
| Examples.CoerceSmall | tests/unit/utils/deparam-test.js:21 | `prop=1234` with coercion gives the number 1234 |
| Examples.CoerceLarge | tests/unit/utils/deparam-test.js:22 | `prop=999999999999999999` with coercion stays a string |
| Examples.EmptyBrackets | tests/unit/utils/deparam-test.js:10 | `prop[]=one&prop[]=two` gives the array `["one", "two"]` |
| Examples.RepeatedKey | tests/unit/utils/deparam-test.js:56-57 | `a=1&a=2&a=3` gives `{a: ["1", "2", "3"]}` |
| Examples.ScalarThenBracketExample | addon/utils/deparam.js:59-61 | `a=1&a[b]=2` throws `TypeError` |
| Examples.FalsyThenBracketExample | addon/utils/deparam.js:55-85 | `a&a[b]=2` gives `{a: {b: "2"}}` |
| Examples.NestedPrefix | tests/unit/utils/deparam-test.js:49-50 | `a[]=4&a[]=5&b[x][]=7&b[y]=8`, the leading pairs of the 1.4-style example, gives `{a: ["4", "5"], b: {x: ["7"], y: "8"}}` |
| Examples.ComplexArray | tests/unit/utils/deparam-test.js:69 | `d[]=3&d[]=4&d[2][e]=5`, the array part of the `complex` object, gives `{d: ["3", "4", {e: "5"}]}` |
| Examples.SimpleObject | tests/unit/utils/deparam-test.js:68 | `user[email]=tester&user[password]=tester123` gives the `simple` object back |

## Left out

- Percent-decoding: `decodeURIComponent` is a parameter of the model. Its `URIError` is modelled as a failing decode, but its decoding rules are not.
- Numbers.ShowNat: is exact decimal printing. The source prints a double, so above 2^53 its text can differ from the digits read (`999999999999999999` prints as `1000000000000000000`); that rounding is not modelled here.
- Numbers.ShowInt: reads back exactly for every integer. In the source, unary `+` rounds to a double, so text of an integer above 2^53 need not give that integer back; `Values.Coerce` applies the 2^53 bound that keeps the model faithful.
- Numbers.RoundTripIffCanonical: states the exact-integer round trip. In the source, a canonical integer above 2^53 such as `999999999999999999` fails `(+s + '') === s` and stays a string, which `Values.CoerceLargeNumber` states.
- Numbers.ToNumber: models unary `+` only on an optional `-` followed by decimal digits. Decimals, exponents, `Infinity`, hexadecimal and surrounding white space are floating-point behaviour and are not modelled; all of them stay strings under coercion here.
- Values.Coerce: never stores a float. It stores an integer only up to 2^53 in magnitude, so a longer integer whose double prints back identically (such as 2^54 = `18014398509481984`) is not coerced here, though it is in the source. Within that range the round trip is exact.
- Values.LongDigitsStayStrings: states the model's 2^53 bound. In the source, a 17-digit integer such as `18014398509481984` does survive the round trip and becomes a number.
- Tree.Fresh: the lookahead `isNaN(next)` is modelled as "not an optionally signed digit string". JavaScript's `isNaN` is also false for ` `, `1.5`, `0x1` and `Infinity`, which make arrays in the source and mappings here.
- Tree.SlotOf: an empty segment on a mapping names the key `undefined` (its `length` is undefined), unless the mapping has its own `length` entry, which is not modelled. A `length` segment on an array is stored here as a named property; in the source it assigns the array's length, which throws a `RangeError` for a value that is not a valid length (`a[]=1&a[length]=x`) and empties the array for `''` (`a[]=1&a[length]=`). An array grown to 2^32 - 1 elements is not modelled either.
- Tree.InsertDeep: reads only entries the decoder wrote. The source reads inherited members too, so a path through `toString` or `__proto__` would walk into the shared prototype objects. That behaviour is not modelled.
- Values.CoerceTable: holds the three own entries of the source's table. Inherited members such as `toString` or `__proto__`, which the source's lookup would also find and return (a function, or the object prototype), are left out.
- Tree.InsertFlat: the key `__proto__` is stored as an own entry here. In the source, `obj['__proto__'] = val` calls the prototype setter: a string is ignored, so `__proto__=x` gives `{}`, and with coercion `__proto__=null` changes the result's prototype. The value-less branch (`Deparam.Step`) has the same gap.
- Key order: the result's mappings are Dafny maps, which have no order. The source's objects keep their keys in insertion order (with integer-like keys first); that order is not modelled.
- Tree.InsertDeep: the in-place walk of the `current` pointer is modelled as a recursive rebuild of the tree value. The result has no shared sub-objects, so aliasing is not modelled.
- Deparam.Deparam: the result is a value. The source's object identity, and the mutation of the root object inside the `forEach` callback, are represented by the loop's map variable.
- The test harness is not part of this model: QUnit, Ember's `typeOf` and jQuery's `$.param`. The serializer used by the round-trip tests is replaced by the `k=v&…` form in `Properties.FlatRoundTrip` and the `k[j]=v&…` form in `Properties.NestedRoundTrip`, with plain brackets where `$.param` writes `%5B` and `%5D`.
- Properties.FlatRoundTrip: covers flat objects of strings only. Objects one level deep are covered by `Properties.NestedRoundTrip` (one key) and `Examples.NestedPrefix`. Objects with several nested keys, arrays of objects (the `complex` fixture as a whole; its array part is `Examples.ComplexArray`) and round trips with coercion (the coerced pre-1.4 example) are not proved.
- Properties.NestedRoundTrip: covers one mapping of strings below one key, and its first inner key must not look numeric. Several outer keys, deeper nesting and arrays are not covered.
- Examples.NestedPrefix: proves the first four pairs of the 1.4-style example, not the whole thirteen-pair string.
- Examples.RepeatedKey: proves only the first three pairs (`a=1&a=2&a=3`) of the pre-1.4 example at tests/unit/utils/deparam-test.js:56-57. The remaining eight pairs (`b`, `c`, `d`) are not proved.
