/**
 * What the decoder promises, stated about the whole fold of a query string
 * and proved from the model.
 */
module Properties {
  import opened Wrappers
  import opened Strings
  import opened Numbers
  import opened Values
  import opened KeyPaths
  import opened Tree
  import opened Deparam

  /** Text the decoder passes through unchanged and that holds no `=`. */
  predicate Literal(s: string)
  {
    '=' !in s && '%' !in s
  }

  /** The pairs `key=raw` for each raw value, in order. */
  function FlatPairs(key: string, raws: seq<string>): (pairs: seq<string>)
    ensures |pairs| == |raws|
    ensures forall i :: 0 <= i < |raws| ==> pairs[i] == key + "=" + raws[i]
  {
    if raws == [] then [] else FlatPairs(key, raws[..|raws| - 1]) + [key + "=" + raws[|raws| - 1]]
  }

  /** The scalars stored for the raw values, in order. */
  function Scalars(raws: seq<string>, coerce: bool): (xs: seq<Node>)
    ensures |xs| == |raws|
    ensures forall i :: 0 <= i < |raws| ==> xs[i] == Leaf(Scalar(raws[i], coerce))
  {
    if raws == [] then [] else Scalars(raws[..|raws| - 1], coerce) + [Leaf(Scalar(raws[|raws| - 1], coerce))]
  }

  // ----- One pair -----

  /** A pair `key=value` with a flat key goes to the flat-key insertion. */
  lemma ValuedFlatStep(root: map<string, Node>, key: string, raw: string, coerce: bool, decode: Decoder)
    requires Plain(decode) && Literal(key) && Literal(raw) && !IsBracketed(key)
    ensures Step(root, key + "=" + raw, coerce, decode) == Ok(InsertFlat(root, key, Scalar(raw, coerce)))
  {
    SplitPair(key, raw);
  }

  /** A pair `a[b]…=value` written for a path goes to the deep walk along that path. */
  lemma ValuedDeepStep(root: map<string, Node>, path: seq<string>, raw: string, coerce: bool, decode: Decoder)
    requires Plain(decode) && |path| >= 2 && Literal(raw)
    requires forall i :: 0 <= i < |path| ==> NoBrackets(path[i]) && Literal(path[i])
    ensures Step(root, Render(path) + "=" + raw, coerce, decode) ==
              match InsertDeep(Obj(root), path, Scalar(raw, coerce))
              case Ok(n) => Ok(n.fields)
              case Err(e) => Err(e)
  {
    var key := Render(path);
    RenderLiteral(path);
    KeyPathRender(path);
    ValuedStep(root, key, raw, coerce, decode);
  }

  /** The key written for a path of literal segments is literal. */
  lemma RenderLiteral(path: seq<string>)
    requires |path| >= 2
    requires forall i :: 0 <= i < |path| ==> Literal(path[i])
    ensures Literal(Render(path))
  {
    JoinAvoids(path[1..], "][", '=');
    JoinAvoids(path[1..], "][", '%');
  }

  /** A pair `key=value` of literal text: the value, coerced or not, is
      inserted along the key's path. */
  lemma ValuedStep(root: map<string, Node>, key: string, raw: string, coerce: bool, decode: Decoder)
    requires Plain(decode) && Literal(key) && Literal(raw)
    ensures Step(root, key + "=" + raw, coerce, decode) ==
              var val := Scalar(raw, coerce);
              if |KeyPath(key)| > 1 then
                match InsertDeep(Obj(root), KeyPath(key), val)
                case Ok(n) => Ok(n.fields)
                case Err(e) => Err(e)
              else Ok(InsertFlat(root, key, val))
  {
    SplitPair(key, raw);
  }

  /** `key=raw` splits into its key and its value. */
  lemma SplitPair(key: string, raw: string)
    requires Literal(key) && Literal(raw)
    ensures Split(key + "=" + raw, "=") == [key, raw]
  {
    SplitAfter(key, "=", raw);
    SplitNone(raw, [], "=");
    assert raw + [] == raw;
  }

  /** A pair that does not split into exactly two parts on `=` (no `=`, or
      several) is value-less: its whole decoded key, brackets and all, is set
      to '' (undefined when coercing), overwriting any earlier value; an empty
      key is ignored. */
  lemma ValuelessStep(root: map<string, Node>, pair: string, coerce: bool, decode: Decoder)
    requires Count(pair, '=') != 1
    requires decode(Split(pair, "=")[0]).Some?
    ensures var key := decode(Split(pair, "=")[0]).value;
            Step(root, pair, coerce, decode) ==
              Ok(if key == "" then root else root[key := Leaf(if coerce then Undefined else Str(""))])
  {
    SplitCount(pair, '=');
  }

  /** A bracketed pair keeps the shape of the tree, rewrites only the slots
      along its key's path, and the value can be read back along that path. */
  lemma BracketedStep(root: map<string, Node>, pair: string, coerce: bool, decode: Decoder)
    requires |Split(pair, "=")| == 2
    requires decode(Split(pair, "=")[0]).Some? && decode(Split(pair, "=")[1]).Some?
    requires IsBracketed(decode(Split(pair, "=")[0]).value)
    requires Step(root, pair, coerce, decode).Ok?
    ensures Preserves(Obj(root), Obj(Step(root, pair, coerce, decode).value))
    ensures OnlyAlong(Obj(root), Obj(Step(root, pair, coerce, decode).value), KeyPath(decode(Split(pair, "=")[0]).value),
                      Scalar(decode(Split(pair, "=")[1]).value, coerce))
    ensures ReadPath(Obj(Step(root, pair, coerce, decode).value), KeyPath(decode(Split(pair, "=")[0]).value))
              == Some(Leaf(Scalar(decode(Split(pair, "=")[1]).value, coerce)))
  {
    var key := decode(Split(pair, "=")[0]).value;
    var val := Scalar(decode(Split(pair, "=")[1]).value, coerce);
    var n := InsertDeep(Obj(root), KeyPath(key), val);
    assert n.Ok? && Obj(n.value.fields) == n.value;
    InsertDeepPreserves(Obj(root), KeyPath(key), val);
    InsertDeepOnlyAlong(Obj(root), KeyPath(key), val);
    ReadBack(Obj(root), KeyPath(key), val);
  }

  /** A valued bracketed pair throws `TypeError` exactly when the walk along
      its key's path meets a truthy scalar before the last segment. */
  lemma StepTypeError(root: map<string, Node>, pair: string, coerce: bool, decode: Decoder)
    requires |Split(pair, "=")| == 2
    requires decode(Split(pair, "=")[0]).Some? && decode(Split(pair, "=")[1]).Some?
    requires IsBracketed(decode(Split(pair, "=")[0]).value)
    ensures (Step(root, pair, coerce, decode) == Err(TypeError)) <==>
            Blocked(Obj(root), KeyPath(decode(Split(pair, "=")[0]).value))
  {
    var key := decode(Split(pair, "=")[0]).value;
    var val := Scalar(decode(Split(pair, "=")[1]).value, coerce);
    InsertDeepFails(Obj(root), KeyPath(key), val);
  }

  // ----- The whole fold -----

  /** The empty query string gives the empty root mapping. */
  lemma EmptyQuery(coerce: bool, decode: Decoder)
    requires decode("") == Some("")
    ensures Parse("", coerce, decode) == Ok(Obj(map[]))
  {
    assert Pairs("") == [""];
    assert Split("", "=") == [""];
    assert [""][..0] == [];
  }

  /** Pairs without `&` or `+`, joined with `&`, are split back into themselves. */
  lemma PairsOfJoin(pairs: seq<string>)
    requires |pairs| >= 1
    requires forall i :: 0 <= i < |pairs| ==> '&' !in pairs[i] && '+' !in pairs[i]
    ensures Pairs(Join(pairs, "&")) == pairs
  {
    JoinAvoids(pairs, "&", '+');
    SpacePlusNone(Join(pairs, "&"));
    var last := pairs[|pairs| - 1];
    SplitNone(last, [], "&");
    assert last + [] == last;
    SplitJoin(pairs, "&");
  }

  /** A flat key seen twice holds `[first, second]`. */
  lemma FlatTwice(root: map<string, Node>, key: string, raw0: string, raw1: string, coerce: bool, decode: Decoder)
    requires Plain(decode) && Literal(key) && !IsBracketed(key) && key !in root && Literal(raw0) && Literal(raw1)
    ensures FoldFrom(root, [key + "=" + raw0, key + "=" + raw1], coerce, decode)
              == Ok(root[key := ArrayOf([Leaf(Scalar(raw0, coerce)), Leaf(Scalar(raw1, coerce))])])
  {
    var p0, p1 := key + "=" + raw0, key + "=" + raw1;
    var v0, v1 := Scalar(raw0, coerce), Scalar(raw1, coerce);
    var first := root[key := Leaf(v0)];
    ValuedFlatStep(root, key, raw0, coerce, decode);
    assert InsertFlat(root, key, v0) == first;
    FoldAppend(root, [], p0, coerce, decode);
    assert [] + [p0] == [p0];
    FoldAppend(root, [p0], p1, coerce, decode);
    assert [p0] + [p1] == [p0, p1];
    FlatSecond(root, key, v0, raw1, coerce, decode);
  }

  /** The second value for a flat key that holds a scalar makes a two-element array. */
  lemma FlatSecond(root: map<string, Node>, key: string, v0: Value, raw1: string, coerce: bool, decode: Decoder)
    requires Plain(decode) && Literal(key) && !IsBracketed(key) && Literal(raw1)
    ensures Step(root[key := Leaf(v0)], key + "=" + raw1, coerce, decode)
              == Ok(root[key := ArrayOf([Leaf(v0), Leaf(Scalar(raw1, coerce))])])
  {
    var first := root[key := Leaf(v0)];
    var v1 := Scalar(raw1, coerce);
    ValuedFlatStep(first, key, raw1, coerce, decode);
    assert InsertFlat(first, key, v1) == first[key := ArrayOf([Leaf(v0), Leaf(v1)])];
    assert first[key := ArrayOf([Leaf(v0), Leaf(v1)])] == root[key := ArrayOf([Leaf(v0), Leaf(v1)])];
  }

  /** A further value for a flat key that holds an array is pushed onto it. */
  lemma FlatPush(root: map<string, Node>, key: string, xs: seq<Node>, raw: string, coerce: bool, decode: Decoder)
    requires Plain(decode) && Literal(key) && !IsBracketed(key) && Literal(raw)
    ensures Step(root[key := ArrayOf(xs)], key + "=" + raw, coerce, decode)
              == Ok(root[key := ArrayOf(xs + [Leaf(Scalar(raw, coerce))])])
  {
    var m := root[key := ArrayOf(xs)];
    var v := Scalar(raw, coerce);
    ValuedFlatStep(m, key, raw, coerce, decode);
    assert m[key].Arr? && m[key].length == |xs|;
    assert InsertFlat(m, key, v) == m[key := Put(ArrayOf(xs), Index(|xs|), Leaf(v))];
    PushArrayOf(xs, Leaf(v));
    assert m[key := ArrayOf(xs + [Leaf(v)])] == root[key := ArrayOf(xs + [Leaf(v)])];
  }

  /** A flat key repeated with values v1, …, vn (n >= 2) on a key not yet
      present becomes the array [v1, …, vn], in order; the other keys are
      untouched. */
  lemma {:induction false} FlatRepeat(root: map<string, Node>, key: string, raws: seq<string>, coerce: bool, decode: Decoder)
    requires Plain(decode) && Literal(key) && !IsBracketed(key) && key !in root
    requires |raws| >= 2 && forall i :: 0 <= i < |raws| ==> Literal(raws[i])
    ensures FoldFrom(root, FlatPairs(key, raws), coerce, decode) == Ok(root[key := ArrayOf(Scalars(raws, coerce))])
    decreases |raws|
  {
    var n := |raws|;
    var pairs := FlatPairs(key, raws);
    if n == 2 {
      var two := [Leaf(Scalar(raws[0], coerce)), Leaf(Scalar(raws[1], coerce))];
      assert Scalars(raws, coerce) == two;
      assert pairs == [key + "=" + raws[0], key + "=" + raws[1]];
      FlatTwice(root, key, raws[0], raws[1], coerce, decode);
    } else {
      var before := raws[..n - 1];
      var xs := Scalars(before, coerce);
      assert pairs[..n - 1] == FlatPairs(key, before);
      FlatRepeat(root, key, before, coerce, decode);
      assert FoldFrom(root, pairs[..n - 1], coerce, decode) == Ok(root[key := ArrayOf(xs)]);
      assert pairs[n - 1] == key + "=" + raws[n - 1];
      assert FoldFrom(root, pairs, coerce, decode) == Step(root[key := ArrayOf(xs)], pairs[n - 1], coerce, decode);
      FlatPush(root, key, xs, raws[n - 1], coerce, decode);
      assert xs + [Leaf(Scalar(raws[n - 1], coerce))] == Scalars(raws, coerce);
    }
  }

  /** A query string that repeats one plain key with values v1, …, vn
      (n >= 2) gives a root mapping whose only entry is the array [v1, …, vn]. */
  lemma RepeatedFlatKey(key: string, raws: seq<string>, coerce: bool, decode: Decoder)
    requires Plain(decode) && Literal(key) && !IsBracketed(key) && '&' !in key && '+' !in key
    requires |raws| >= 2 && forall i :: 0 <= i < |raws| ==> Literal(raws[i]) && '&' !in raws[i] && '+' !in raws[i]
    ensures Parse(Join(FlatPairs(key, raws), "&"), coerce, decode) == Ok(Obj(map[key := ArrayOf(Scalars(raws, coerce))]))
  {
    var pairs := FlatPairs(key, raws);
    assert forall i :: 0 <= i < |pairs| ==> pairs[i] == key + "=" + raws[i];
    PairsOfJoin(pairs);
    FlatRepeat(map[], key, raws, coerce, decode);
  }

  /** Folding one more pair is one more step. */
  lemma FoldAppend(root: map<string, Node>, pairs: seq<string>, pair: string, coerce: bool, decode: Decoder)
    ensures FoldFrom(root, pairs + [pair], coerce, decode) ==
              match FoldFrom(root, pairs, coerce, decode)
              case Err(e) => Err(e)
              case Ok(m) => Step(m, pair, coerce, decode)
  {
    assert (pairs + [pair])[..|pairs|] == pairs;
  }

  /** A query string of one plain `key=value` pair gives a root mapping with
      that one entry. */
  lemma SinglePair(key: string, raw: string, coerce: bool, decode: Decoder)
    requires Plain(decode) && Literal(key) && Literal(raw) && !IsBracketed(key)
    requires '&' !in key && '+' !in key && '&' !in raw && '+' !in raw
    ensures Parse(key + "=" + raw, coerce, decode) == Ok(Obj(map[key := Leaf(Scalar(raw, coerce))]))
  {
    var pair := key + "=" + raw;
    var v := Scalar(raw, coerce);
    assert Join([pair], "&") == pair;
    PairsOfJoin([pair]);
    assert Pairs(pair) == [pair];
    ValuedFlatStep(map[], key, raw, coerce, decode);
    assert InsertFlat(map[], key, v) == map[key := Leaf(v)];
    FoldAppend(map[], [], pair, coerce, decode);
    assert [] + [pair] == [pair];
    assert FoldFrom(map[], [pair], coerce, decode) == Ok(map[key := Leaf(v)]);
  }

  /** The root mapping as a tree. */
  predicate Invariants(root: map<string, Node>, coerce: bool)
  {
    WellFormed(Obj(root)) && (!coerce ==> AllStrings(Obj(root)))
  }

  /** Each pair keeps arrays well formed, and without coercion stores only strings. */
  lemma StepInvariants(root: map<string, Node>, pair: string, coerce: bool, decode: Decoder)
    requires Invariants(root, coerce)
    ensures Step(root, pair, coerce, decode).Ok? ==> Invariants(Step(root, pair, coerce, decode).value, coerce)
  {
    var param := Split(pair, "=");
    if decode(param[0]).Some? && |param| == 2 && decode(param[1]).Some? {
      var key := decode(param[0]).value;
      var val := Scalar(decode(param[1]).value, coerce);
      var path := KeyPath(key);
      if |path| > 1 {
        InsertDeepWellFormed(Obj(root), path, val);
        if !coerce {
          InsertDeepAllStrings(Obj(root), path, val);
        }
      } else {
        InsertFlatInvariants(root, key, val);
      }
    }
  }

  lemma {:induction false} FoldInvariants(pairs: seq<string>, coerce: bool, decode: Decoder)
    ensures FoldFrom(map[], pairs, coerce, decode).Ok? ==> Invariants(FoldFrom(map[], pairs, coerce, decode).value, coerce)
    decreases |pairs|
  {
    if pairs != [] {
      FoldInvariants(pairs[..|pairs| - 1], coerce, decode);
      var prefix := FoldFrom(map[], pairs[..|pairs| - 1], coerce, decode);
      if prefix.Ok? {
        StepInvariants(prefix.value, pairs[|pairs| - 1], coerce, decode);
      }
    }
  }

  /** Every array in a result has its indices below its length, and without
      coercion every leaf is a string. */
  lemma ParseInvariants(params: string, coerce: bool, decode: Decoder)
    requires Parse(params, coerce, decode).Ok?
    ensures WellFormed(Parse(params, coerce, decode).value)
    ensures !coerce ==> AllStrings(Parse(params, coerce, decode).value)
  {
    FoldInvariants(Pairs(params), coerce, decode);
  }

  // ----- Flat and bracketed pairs on the same key -----

  /** A query string of two pairs is the second step applied after the first. */
  lemma TwoPairs(p0: string, p1: string, coerce: bool, decode: Decoder)
    requires '&' !in p0 && '+' !in p0 && '&' !in p1 && '+' !in p1
    ensures Parse(p0 + "&" + p1, coerce, decode) ==
              match Step(map[], p0, coerce, decode)
              case Err(e) => Err(e)
              case Ok(m) =>
                match Step(m, p1, coerce, decode)
                case Err(e) => Err(e)
                case Ok(m') => Ok(Obj(m'))
  {
    var pairs := [p0, p1];
    assert pairs[1..] == [p1];
    assert Join(pairs, "&") == p0 + "&" + p1;
    PairsOfJoin(pairs);
    FoldAppend(map[], [], p0, coerce, decode);
    assert [] + [p0] == [p0];
    FoldAppend(map[], [p0], p1, coerce, decode);
    assert [p0] + [p1] == pairs;
  }

  /** `a[b]…=v` for the two-segment path `[a, b]`. */
  lemma RenderTwo(a: string, b: string, raw: string)
    ensures Render([a, b]) + "=" + raw == a + "[" + b + "]=" + raw
  {
    assert [a, b][1..] == [b];
    assert Join([b], "][") == b;
  }

  /** The bracketed pair `a[b]=raw` holds no `&` or `+` when its parts hold none. */
  lemma BracketPair(x: string, a: string, b: string, raw: string)
    requires '&' !in a && '+' !in a && '&' !in b && '+' !in b && '&' !in raw && '+' !in raw
    ensures var p := Render([a, b]) + "=" + raw;
            x + "&" + p == x + "&" + a + "[" + b + "]=" + raw && '&' !in p && '+' !in p
  {
    RenderTwo(a, b, raw);
  }

  /** The path `[a, b]` meets the deep step's requirements on its segments. */
  lemma PathTwo(a: string, b: string)
    requires NoBrackets(a) && Literal(a) && NoBrackets(b) && Literal(b)
    ensures forall i :: 0 <= i < |[a, b]| ==> NoBrackets([a, b][i]) && Literal([a, b][i])
  {
  }

  /** A truthy value stored under a plain key, followed by a bracketed pair
      below that key, throws: the deep walk would assign a property on a
      primitive. */
  lemma ScalarThenBracket(a: string, b: string, r0: string, r1: string, coerce: bool, decode: Decoder)
    requires Plain(decode)
    requires a != "" && Literal(a) && NoBrackets(a) && '&' !in a && '+' !in a
    requires Literal(b) && NoBrackets(b) && '&' !in b && '+' !in b
    requires Literal(r0) && '&' !in r0 && '+' !in r0 && Values.Truthy(Scalar(r0, coerce))
    requires Literal(r1) && '&' !in r1 && '+' !in r1
    ensures Parse(a + "=" + r0 + "&" + a + "[" + b + "]=" + r1, coerce, decode) == Err(TypeError)
  {
    var p0 := a + "=" + r0;
    var p1 := Render([a, b]) + "=" + r1;
    BracketPair(p0, a, b, r1);
    assert '&' !in p0 && '+' !in p0;
    TwoPairs(p0, p1, coerce, decode);
    FlatWithoutOpen(a);
    ValuedFlatStep(map[], a, r0, coerce, decode);
    var m := map[a := Leaf(Scalar(r0, coerce))];
    InsertFlatFresh(map[], a, Scalar(r0, coerce));
    assert map[][a := Leaf(Scalar(r0, coerce))] == m;
    TruthySecond(m, a, b, r1, coerce, decode);
  }

  /** `a[b]=raw` over a truthy scalar under `a` throws. */
  lemma TruthySecond(m: map<string, Node>, a: string, b: string, r1: string, coerce: bool, decode: Decoder)
    requires Plain(decode) && a != "" && Literal(a) && NoBrackets(a) && Literal(b) && NoBrackets(b) && Literal(r1)
    requires a in m && m[a].Leaf? && Values.Truthy(m[a].v)
    ensures Step(m, Render([a, b]) + "=" + r1, coerce, decode) == Err(TypeError)
  {
    PathTwo(a, b);
    ValuedDeepStep(m, [a, b], r1, coerce, decode);
    assert SlotOf(Obj(m), a) == Field(a);
  }

  /** The deep walk along `[a, b]`, where `a` is missing or holds a falsy
      scalar, puts a fresh mapping holding `b` under `a`. */
  lemma DeepFresh(root: map<string, Node>, a: string, b: string, v: Value)
    requires a != "" && b != "" && !LooksNumeric(b)
    requires a !in root || (root[a].Leaf? && !Values.Truthy(root[a].v))
    ensures InsertDeep(Obj(root), [a, b], v) == Ok(Obj(root[a := Obj(map[b := Leaf(v)])]))
  {
    assert SlotOf(Obj(root), a) == Field(a);
    assert SlotOf(Obj(map[]), b) == Field(b);
    assert [a, b][1..] == [b];
    assert InsertDeep(Obj(map[]), [b], v) == Ok(Obj(map[b := Leaf(v)]));
    assert Fresh(b) == Obj(map[]);
    assert Put(Obj(root), Field(a), Obj(map[b := Leaf(v)])) == Obj(root[a := Obj(map[b := Leaf(v)])]);
  }

  /** A first pair that is a plain key without `=` stores '' (undefined when coercing). */
  lemma ValuelessFirst(a: string, coerce: bool, decode: Decoder)
    requires Plain(decode) && a != "" && Literal(a)
    ensures Step(map[], a, coerce, decode) == Ok(map[a := Leaf(if coerce then Undefined else Str(""))])
  {
    SplitNone(a, [], "=");
    assert a + [] == a;
    SplitCount(a, '=');
    ValuelessStep(map[], a, coerce, decode);
  }

  /** `a[b]=raw` after a falsy scalar under `a`: the scalar is replaced by a mapping. */
  lemma FalsySecond(x: Value, a: string, b: string, r1: string, coerce: bool, decode: Decoder)
    requires Plain(decode) && !Values.Truthy(x)
    requires a != "" && Literal(a) && NoBrackets(a)
    requires b != "" && !LooksNumeric(b) && Literal(b) && NoBrackets(b)
    requires Literal(r1)
    ensures Step(map[a := Leaf(x)], Render([a, b]) + "=" + r1, coerce, decode) == Ok(map[a := Obj(map[b := Leaf(Scalar(r1, coerce))])])
  {
    var m := map[a := Leaf(x)];
    var v := Scalar(r1, coerce);
    PathTwo(a, b);
    ValuedDeepStep(m, [a, b], r1, coerce, decode);
    DeepFresh(m, a, b, v);
    Overwrite(a, Leaf(x), Obj(map[b := Leaf(v)]));
  }

  lemma Overwrite(a: string, x: Node, y: Node)
    ensures map[a := x][a := y] == map[a := y]
  {
  }

  /** A value-less plain key stores a falsy value ('' or undefined), so a
      bracketed pair below that key replaces it with a fresh mapping. */
  lemma FalsyThenBracket(a: string, b: string, r1: string, coerce: bool, decode: Decoder)
    requires Plain(decode)
    requires a != "" && Literal(a) && NoBrackets(a) && '&' !in a && '+' !in a
    requires b != "" && !LooksNumeric(b) && Literal(b) && NoBrackets(b) && '&' !in b && '+' !in b
    requires Literal(r1) && '&' !in r1 && '+' !in r1
    ensures Parse(a + "&" + a + "[" + b + "]=" + r1, coerce, decode)
              == Ok(Obj(map[a := Obj(map[b := Leaf(Scalar(r1, coerce))])]))
  {
    var p1 := Render([a, b]) + "=" + r1;
    BracketPair(a, a, b, r1);
    TwoPairs(a, p1, coerce, decode);
    ValuelessFirst(a, coerce, decode);
    FalsySecond(if coerce then Undefined else Str(""), a, b, r1, coerce, decode);
  }

  /** A query string of one pair `a[b]=v`, with `b` not numeric, gives a
      mapping under `a` holding `v` under `b`. */
  lemma SingleBracketPair(a: string, b: string, raw: string, coerce: bool, decode: Decoder)
    requires Plain(decode)
    requires a != "" && Literal(a) && NoBrackets(a) && '&' !in a && '+' !in a
    requires b != "" && !LooksNumeric(b) && Literal(b) && NoBrackets(b) && '&' !in b && '+' !in b
    requires Literal(raw) && '&' !in raw && '+' !in raw
    ensures Parse(a + "[" + b + "]=" + raw, coerce, decode) == Ok(Obj(map[a := Obj(map[b := Leaf(Scalar(raw, coerce))])]))
  {
    var p := Render([a, b]) + "=" + raw;
    RenderTwo(a, b, raw);
    BracketPair("", a, b, raw);
    assert Join([p], "&") == p;
    PairsOfJoin([p]);
    FoldAppend(map[], [], p, coerce, decode);
    assert [] + [p] == [p];
    PathTwo(a, b);
    ValuedDeepStep(map[], [a, b], raw, coerce, decode);
    DeepFresh(map[], a, b, Scalar(raw, coerce));
  }

  // ----- Array push with `[]` -----

  /** The deep walk along `[key, ""]` appends to the array under `key`, or
      starts one when `key` is missing. */
  lemma DeepPush(root: map<string, Node>, key: string, xs: seq<Node>, v: Value)
    requires key != ""
    requires (key !in root && xs == []) || (key in root && root[key] == ArrayOf(xs))
    ensures InsertDeep(Obj(root), [key, ""], v) == Ok(Obj(root[key := ArrayOf(xs + [Leaf(v)])]))
  {
    var child := ArrayOf(xs);
    assert SlotOf(Obj(root), key) == Field(key);
    assert key !in root ==> Fresh("") == child;
    assert [key, ""][1..] == [""];
    assert SlotOf(child, "") == Index(|xs|);
    PushArrayOf(xs, Leaf(v));
    assert InsertDeep(child, [""], v) == Ok(ArrayOf(xs + [Leaf(v)]));
  }

  /** One `key[]=raw` pair pushes the value onto the array under `key`. */
  lemma PushStep(root: map<string, Node>, key: string, xs: seq<Node>, raw: string, coerce: bool, decode: Decoder)
    requires Plain(decode) && key != "" && Literal(key) && NoBrackets(key) && Literal(raw)
    requires (key !in root && xs == []) || (key in root && root[key] == ArrayOf(xs))
    ensures Step(root, key + "[]=" + raw, coerce, decode) == Ok(root[key := ArrayOf(xs + [Leaf(Scalar(raw, coerce))])])
  {
    RenderTwo(key, "", raw);
    assert key + "[" + "" + "]=" + raw == key + "[]=" + raw;
    PathTwo(key, "");
    ValuedDeepStep(root, [key, ""], raw, coerce, decode);
    DeepPush(root, key, xs, Scalar(raw, coerce));
  }

  /** A first `key[]=raw` pair for a missing key starts a one-element array. */
  lemma PushFirst(root: map<string, Node>, key: string, raw: string, coerce: bool, decode: Decoder)
    requires Plain(decode) && key != "" && Literal(key) && NoBrackets(key) && key !in root && Literal(raw)
    ensures FoldFrom(root, [key + "[]=" + raw], coerce, decode) == Ok(root[key := ArrayOf([Leaf(Scalar(raw, coerce))])])
  {
    var p := key + "[]=" + raw;
    FoldAppend(root, [], p, coerce, decode);
    assert [] + [p] == [p];
    PushStep(root, key, [], raw, coerce, decode);
    assert [] + [Leaf(Scalar(raw, coerce))] == [Leaf(Scalar(raw, coerce))];
  }

  /** A further `key[]=raw` pair pushes onto the array built so far. */
  lemma PushNext(root: map<string, Node>, key: string, xs: seq<Node>, raw: string, coerce: bool, decode: Decoder)
    requires Plain(decode) && key != "" && Literal(key) && NoBrackets(key) && Literal(raw)
    ensures Step(root[key := ArrayOf(xs)], key + "[]=" + raw, coerce, decode)
              == Ok(root[key := ArrayOf(xs + [Leaf(Scalar(raw, coerce))])])
  {
    var m := root[key := ArrayOf(xs)];
    var ys := xs + [Leaf(Scalar(raw, coerce))];
    PushStep(m, key, xs, raw, coerce, decode);
    assert m[key := ArrayOf(ys)] == root[key := ArrayOf(ys)];
  }

  /** `key[]=v1&…&key[]=vn` on a key not yet present builds the array
      [v1, …, vn], in order; the other keys are untouched. */
  lemma {:induction false} PushRepeat(root: map<string, Node>, key: string, raws: seq<string>, coerce: bool, decode: Decoder)
    requires Plain(decode) && key != "" && Literal(key) && NoBrackets(key) && key !in root
    requires |raws| >= 1 && forall i :: 0 <= i < |raws| ==> Literal(raws[i])
    ensures FoldFrom(root, FlatPairs(key + "[]", raws), coerce, decode) == Ok(root[key := ArrayOf(Scalars(raws, coerce))])
    decreases |raws|
  {
    var n := |raws|;
    var pairs := FlatPairs(key + "[]", raws);
    assert forall r: string :: key + "[]" + "=" + r == key + "[]=" + r;
    if n == 1 {
      assert pairs == [key + "[]=" + raws[0]];
      assert Scalars(raws, coerce) == [Leaf(Scalar(raws[0], coerce))];
      PushFirst(root, key, raws[0], coerce, decode);
    } else {
      var before := raws[..n - 1];
      var xs := Scalars(before, coerce);
      assert pairs[..n - 1] == FlatPairs(key + "[]", before);
      PushRepeat(root, key, before, coerce, decode);
      assert FoldFrom(root, pairs[..n - 1], coerce, decode) == Ok(root[key := ArrayOf(xs)]);
      assert pairs[n - 1] == key + "[]=" + raws[n - 1];
      assert FoldFrom(root, pairs, coerce, decode) == Step(root[key := ArrayOf(xs)], pairs[n - 1], coerce, decode);
      PushNext(root, key, xs, raws[n - 1], coerce, decode);
      assert xs + [Leaf(Scalar(raws[n - 1], coerce))] == Scalars(raws, coerce);
    }
  }

  /** A query string of `key[]=v` pairs gives a root mapping whose only entry
      is the array of the values, in order. */
  lemma PushKey(key: string, raws: seq<string>, coerce: bool, decode: Decoder)
    requires Plain(decode) && key != "" && Literal(key) && NoBrackets(key) && '&' !in key && '+' !in key
    requires |raws| >= 1 && forall i :: 0 <= i < |raws| ==> Literal(raws[i]) && '&' !in raws[i] && '+' !in raws[i]
    ensures Parse(Join(FlatPairs(key + "[]", raws), "&"), coerce, decode) == Ok(Obj(map[key := ArrayOf(Scalars(raws, coerce))]))
  {
    var pairs := FlatPairs(key + "[]", raws);
    assert forall r: string :: key + "[]" + "=" + r == key + "[]=" + r;
    assert forall i :: 0 <= i < |pairs| ==> pairs[i] == key + "[]=" + raws[i];
    PairsOfJoin(pairs);
    PushRepeat(map[], key, raws, coerce, decode);
  }

  // ----- Arrays and mappings below one query string -----

  /** `b[x][]` is the key written for the path `[b, x, ""]`. */
  lemma RenderPush(b: string, x: string)
    ensures Render([b, x, ""]) == b + "[" + x + "][]"
  {
    assert [b, x, ""][1..] == [x, ""];
    assert [x, ""][1..] == [""];
    assert Join([x, ""], "][") == x + "][" + "";
  }

  /** The walk along `[b, x, ""]` where `b` is missing, with `x` not numeric,
      puts under `b` a mapping holding a one-element array under `x`. */
  lemma FreshPush(root: map<string, Node>, b: string, x: string, v: Value)
    requires b != "" && b !in root && x != "" && !LooksNumeric(x)
    ensures InsertDeep(Obj(root), [b, x, ""], v) == Ok(Obj(root[b := Obj(map[x := ArrayOf([Leaf(v)])])]))
  {
    assert SlotOf(Obj(root), b) == Field(b);
    assert Fresh(x) == Obj(map[]);
    assert [b, x, ""][1..] == [x, ""];
    DeepPush(map[], x, [], v);
    assert [] + [Leaf(v)] == [Leaf(v)];
  }

  /** The walk along `[b, y]` where `b` holds a mapping adds `y` to that
      mapping and keeps its other entries. */
  lemma DeepAdd(root: map<string, Node>, b: string, inner: map<string, Node>, y: string, v: Value)
    requires b != "" && b in root && root[b] == Obj(inner) && y != ""
    ensures InsertDeep(Obj(root), [b, y], v) == Ok(Obj(root[b := Obj(inner[y := Leaf(v)])]))
  {
    assert SlotOf(Obj(root), b) == Field(b);
    assert SlotOf(Obj(inner), y) == Field(y);
    assert [b, y][1..] == [y];
  }

  /** The requirements a segment of the mixed query meets. */
  predicate Segment(s: string)
  {
    s != "" && Literal(s) && NoBrackets(s) && '&' !in s && '+' !in s
  }

  /** The requirements a value of the mixed query meets. */
  predicate RawValue(s: string)
  {
    Literal(s) && '&' !in s && '+' !in s
  }

  /** `a[]=r0&a[]=r1` gives the two-element array under `a`. */
  lemma MixedPushes(a: string, r0: string, r1: string, coerce: bool, decode: Decoder)
    requires Plain(decode) && Segment(a) && RawValue(r0) && RawValue(r1)
    ensures FoldFrom(map[], [a + "[]=" + r0, a + "[]=" + r1], coerce, decode)
              == Ok(map[a := ArrayOf([Leaf(Scalar(r0, coerce)), Leaf(Scalar(r1, coerce))])])
  {
    var p0, p1 := a + "[]=" + r0, a + "[]=" + r1;
    var x0 := Leaf(Scalar(r0, coerce));
    PushFirst(map[], a, r0, coerce, decode);
    FoldAppend(map[], [p0], p1, coerce, decode);
    assert [p0] + [p1] == [p0, p1];
    PushNext(map[], a, [x0], r1, coerce, decode);
    assert [x0] + [Leaf(Scalar(r1, coerce))] == [x0, Leaf(Scalar(r1, coerce))];
    assert map[][a := ArrayOf([x0])] == map[a := ArrayOf([x0])];
  }

  /** `b[x][]=r2` on a root without `b`. */
  lemma MixedThird(m: map<string, Node>, b: string, x: string, r2: string, coerce: bool, decode: Decoder)
    requires Plain(decode) && Segment(b) && b !in m && Segment(x) && !LooksNumeric(x) && RawValue(r2)
    ensures Step(m, Render([b, x, ""]) + "=" + r2, coerce, decode)
              == Ok(m[b := Obj(map[x := ArrayOf([Leaf(Scalar(r2, coerce))])])])
  {
    var path := [b, x, ""];
    assert forall i :: 0 <= i < |path| ==> NoBrackets(path[i]) && Literal(path[i]);
    ValuedDeepStep(m, path, r2, coerce, decode);
    FreshPush(m, b, x, Scalar(r2, coerce));
  }

  /** `b[y]=r3` on a root whose `b` holds a mapping. */
  lemma MixedFourth(m: map<string, Node>, b: string, inner: map<string, Node>, y: string, r3: string, coerce: bool, decode: Decoder)
    requires Plain(decode) && Segment(b) && b in m && m[b] == Obj(inner) && Segment(y) && RawValue(r3)
    ensures Step(m, Render([b, y]) + "=" + r3, coerce, decode)
              == Ok(m[b := Obj(inner[y := Leaf(Scalar(r3, coerce))])])
  {
    PathTwo(b, y);
    ValuedDeepStep(m, [b, y], r3, coerce, decode);
    DeepAdd(m, b, inner, y, Scalar(r3, coerce));
  }

  /** `a[b][c]` is the key written for the path `[a, b, c]`. */
  lemma RenderThree(a: string, b: string, c: string)
    ensures Render([a, b, c]) == a + "[" + b + "][" + c + "]"
  {
    assert [a, b, c][1..] == [b, c];
    assert [b, c][1..] == [c];
    assert Join([b, c], "][") == b + "][" + c;
  }

  /** `a[b][c]=r1` where `b` below `a` holds a truthy scalar throws: the walk
      meets the scalar one level down. */
  lemma DeeperTruthy(a: string, b: string, c: string, x: Value, r1: string, coerce: bool, decode: Decoder)
    requires Plain(decode) && Segment(a) && Segment(b) && Segment(c) && RawValue(r1) && Values.Truthy(x)
    ensures Step(map[a := Obj(map[b := Leaf(x)])], Render([a, b, c]) + "=" + r1, coerce, decode) == Err(TypeError)
  {
    var m := map[a := Obj(map[b := Leaf(x)])];
    var path := [a, b, c];
    assert forall i :: 0 <= i < |path| ==> NoBrackets(path[i]) && Literal(path[i]);
    ValuedDeepStep(m, path, r1, coerce, decode);
    assert SlotOf(Obj(m), a) == Field(a);
    assert SlotOf(Obj(map[b := Leaf(x)]), b) == Field(b);
    assert path[1..] == [b, c];
    assert Blocked(Obj(map[b := Leaf(x)]), [b, c]);
    assert Blocked(Obj(m), path);
    InsertDeepFails(Obj(m), path, Scalar(r1, coerce));
  }

  /** `a[b]=r0&a[b][c]=r1`, where the stored `r0` is truthy, throws
      `TypeError`: the failure happens below the first segment. */
  lemma DeeperScalarThenBracket(a: string, b: string, c: string, r0: string, r1: string, coerce: bool, decode: Decoder)
    requires Plain(decode) && Segment(a) && Segment(b) && !LooksNumeric(b) && Segment(c)
    requires RawValue(r0) && RawValue(r1) && Values.Truthy(Scalar(r0, coerce))
    ensures Parse(a + "[" + b + "]=" + r0 + "&" + a + "[" + b + "][" + c + "]=" + r1, coerce, decode) == Err(TypeError)
  {
    var p0 := Render([a, b]) + "=" + r0;
    var p1 := Render([a, b, c]) + "=" + r1;
    RenderTwo(a, b, r0);
    RenderThree(a, b, c);
    assert a + "[" + b + "][" + c + "]" + "=" + r1 == a + "[" + b + "][" + c + "]=" + r1;
    assert p0 + "&" + p1 == a + "[" + b + "]=" + r0 + "&" + a + "[" + b + "][" + c + "]=" + r1;
    TwoPairs(p0, p1, coerce, decode);
    PathTwo(a, b);
    ValuedDeepStep(map[], [a, b], r0, coerce, decode);
    DeepFresh(map[], a, b, Scalar(r0, coerce));
    assert map[][a := Obj(map[b := Leaf(Scalar(r0, coerce))])] == map[a := Obj(map[b := Leaf(Scalar(r0, coerce))])];
    DeeperTruthy(a, b, c, Scalar(r0, coerce), r1, coerce, decode);
  }

  /** The walk along `[d, k, e]`, where `d` holds an array of `|xs|` elements
      and `k` is the canonical text of `|xs|`, appends a fresh mapping holding
      `e` to that array. */
  lemma DeepIndexFresh(root: map<string, Node>, d: string, xs: seq<Node>, k: string, e: string, v: Value)
    requires d != "" && d in root && root[d] == ArrayOf(xs) && ArrayIndex(k) == Some(|xs|)
    requires e != "" && !LooksNumeric(e)
    ensures InsertDeep(Obj(root), [d, k, e], v) == Ok(Obj(root[d := ArrayOf(xs + [Obj(map[e := Leaf(v)])])]))
  {
    var arr := ArrayOf(xs);
    assert SlotOf(Obj(root), d) == Field(d);
    assert [d, k, e][1..] == [k, e];
    assert k != "";
    assert SlotOf(arr, k) == Index(|xs|);
    assert Get(arr, Index(|xs|)) == None;
    assert Fresh(e) == Obj(map[]);
    assert [k, e][1..] == [e];
    assert InsertDeep(Obj(map[]), [e], v) == Ok(Obj(map[e := Leaf(v)]));
    PushArrayOf(xs, Obj(map[e := Leaf(v)]));
    assert InsertDeep(arr, [k, e], v) == Ok(ArrayOf(xs + [Obj(map[e := Leaf(v)])]));
  }

  /** The pairs of `d[]=r0&d[]=r1&d[2][e]=r2`. */
  lemma PushIndexPairs(d: string, e: string, r0: string, r1: string, r2: string)
    requires Segment(d) && Segment(e) && RawValue(r0) && RawValue(r1) && RawValue(r2)
    ensures Pairs(d + "[]=" + r0 + "&" + d + "[]=" + r1 + "&" + d + "[2][" + e + "]=" + r2)
            == [d + "[]=" + r0, d + "[]=" + r1, Render([d, "2", e]) + "=" + r2]
  {
    var p0, p1 := d + "[]=" + r0, d + "[]=" + r1;
    var p2 := Render([d, "2", e]) + "=" + r2;
    RenderThree(d, "2", e);
    assert p2 == d + "[2][" + e + "]=" + r2;
    var pairs := [p0, p1, p2];
    assert pairs[1..] == [p1, p2];
    assert [p1, p2][1..] == [p2];
    assert Join([p1, p2], "&") == p1 + "&" + p2;
    assert Join(pairs, "&") == p0 + "&" + (p1 + "&" + p2);
    assert p0 + "&" + (p1 + "&" + p2) == d + "[]=" + r0 + "&" + d + "[]=" + r1 + "&" + d + "[2][" + e + "]=" + r2;
    PairsOfJoin(pairs);
  }

  /** `2` names array index 2. */
  lemma IndexTwo()
    ensures ArrayIndex("2") == Some(2)
  {
    assert ShowInt(2) == "2";
  }

  /** `d[2][e]=r2` on a root whose `d` holds an array of two elements. */
  lemma IndexThird(d: string, xs: seq<Node>, e: string, r2: string, coerce: bool, decode: Decoder)
    requires Plain(decode) && Segment(d) && Segment(e) && !LooksNumeric(e) && RawValue(r2) && |xs| == 2
    ensures Step(map[d := ArrayOf(xs)], Render([d, "2", e]) + "=" + r2, coerce, decode)
            == Ok(map[d := ArrayOf(xs + [Obj(map[e := Leaf(Scalar(r2, coerce))])])])
  {
    var m2 := map[d := ArrayOf(xs)];
    var y := ArrayOf(xs + [Obj(map[e := Leaf(Scalar(r2, coerce))])]);
    var path := [d, "2", e];
    assert forall i :: 0 <= i < |path| ==> NoBrackets(path[i]) && Literal(path[i]);
    ValuedDeepStep(m2, path, r2, coerce, decode);
    IndexTwo();
    DeepIndexFresh(m2, d, xs, "2", e, Scalar(r2, coerce));
    Overwrite(d, ArrayOf(xs), y);
  }

  /** The fold of the pairs of `d[]=r0&d[]=r1&d[2][e]=r2`. */
  lemma PushIndexFold(d: string, e: string, r0: string, r1: string, r2: string, coerce: bool, decode: Decoder)
    requires Plain(decode) && Segment(d) && Segment(e) && !LooksNumeric(e)
    requires RawValue(r0) && RawValue(r1) && RawValue(r2)
    ensures FoldFrom(map[], [d + "[]=" + r0, d + "[]=" + r1, Render([d, "2", e]) + "=" + r2], coerce, decode)
            == Ok(map[d := ArrayOf([Leaf(Scalar(r0, coerce)), Leaf(Scalar(r1, coerce)),
                                    Obj(map[e := Leaf(Scalar(r2, coerce))])])])
  {
    var p0, p1 := d + "[]=" + r0, d + "[]=" + r1;
    var p2 := Render([d, "2", e]) + "=" + r2;
    var xs := [Leaf(Scalar(r0, coerce)), Leaf(Scalar(r1, coerce))];
    var y := Obj(map[e := Leaf(Scalar(r2, coerce))]);
    MixedPushes(d, r0, r1, coerce, decode);
    FoldAppend(map[], [p0, p1], p2, coerce, decode);
    assert [p0, p1] + [p2] == [p0, p1, p2];
    IndexThird(d, xs, e, r2, coerce, decode);
    assert xs + [y] == [Leaf(Scalar(r0, coerce)), Leaf(Scalar(r1, coerce)), y];
  }

  /** `d[]=r0&d[]=r1&d[2][e]=r2`: the index `2` names the next element of the
      array built by the pushes, so a mapping holding `e` is appended there. */
  lemma PushThenIndex(d: string, e: string, r0: string, r1: string, r2: string, coerce: bool, decode: Decoder)
    requires Plain(decode) && Segment(d) && Segment(e) && !LooksNumeric(e)
    requires RawValue(r0) && RawValue(r1) && RawValue(r2)
    ensures Parse(d + "[]=" + r0 + "&" + d + "[]=" + r1 + "&" + d + "[2][" + e + "]=" + r2, coerce, decode)
            == Ok(Obj(map[d := ArrayOf([Leaf(Scalar(r0, coerce)), Leaf(Scalar(r1, coerce)),
                                        Obj(map[e := Leaf(Scalar(r2, coerce))])])]))
  {
    PushIndexPairs(d, e, r0, r1, r2);
    PushIndexFold(d, e, r0, r1, r2, coerce, decode);
  }

  /** The four pairs of the mixed query, joined. */
  lemma FourJoin(p0: string, p1: string, p2: string, p3: string)
    ensures Join([p0, p1, p2, p3], "&") == p0 + "&" + p1 + "&" + p2 + "&" + p3
  {
    assert [p0, p1, p2, p3][1..] == [p1, p2, p3];
    assert [p1, p2, p3][1..] == [p2, p3];
    assert [p2, p3][1..] == [p3];
    assert Join([p2, p3], "&") == p2 + "&" + p3;
    assert Join([p1, p2, p3], "&") == p1 + "&" + (p2 + "&" + p3);
    assert Join([p0, p1, p2, p3], "&") == p0 + "&" + (p1 + "&" + (p2 + "&" + p3));
  }

  /** The mixed query is its four pairs joined with `&`. */
  lemma MixedText(a: string, b: string, x: string, y: string, r0: string, r1: string, r2: string, r3: string)
    ensures a + "[]=" + r0 + "&" + a + "[]=" + r1 + "&" + b + "[" + x + "][]=" + r2 + "&" + b + "[" + y + "]=" + r3
         == (a + "[]=" + r0) + "&" + (a + "[]=" + r1) + "&" + (Render([b, x, ""]) + "=" + r2) + "&" + (Render([b, y]) + "=" + r3)
  {
    RenderPush(b, x);
    RenderTwo(b, y, r3);
    assert Render([b, x, ""]) + "=" + r2 == b + "[" + x + "][]=" + r2;
  }

  /** The pairs of the mixed query. */
  lemma MixedPairs(a: string, b: string, x: string, y: string, r0: string, r1: string, r2: string, r3: string)
    requires Segment(a) && Segment(b) && Segment(x) && Segment(y)
    requires RawValue(r0) && RawValue(r1) && RawValue(r2) && RawValue(r3)
    ensures Pairs(a + "[]=" + r0 + "&" + a + "[]=" + r1 + "&" + b + "[" + x + "][]=" + r2 + "&" + b + "[" + y + "]=" + r3)
            == [a + "[]=" + r0, a + "[]=" + r1, Render([b, x, ""]) + "=" + r2, Render([b, y]) + "=" + r3]
  {
    var p0, p1 := a + "[]=" + r0, a + "[]=" + r1;
    var p2, p3 := Render([b, x, ""]) + "=" + r2, Render([b, y]) + "=" + r3;
    MixedText(a, b, x, y, r0, r1, r2, r3);
    FourJoin(p0, p1, p2, p3);
    PairsOfJoin([p0, p1, p2, p3]);
  }

  /** The fold of the mixed query's pairs. */
  lemma MixedFold(a: string, b: string, x: string, y: string, r0: string, r1: string, r2: string, r3: string,
                  coerce: bool, decode: Decoder)
    requires Plain(decode) && Segment(a) && Segment(b) && Segment(x) && Segment(y) && a != b
    requires !LooksNumeric(x) && RawValue(r0) && RawValue(r1) && RawValue(r2) && RawValue(r3)
    ensures FoldFrom(map[], [a + "[]=" + r0, a + "[]=" + r1, Render([b, x, ""]) + "=" + r2, Render([b, y]) + "=" + r3],
                     coerce, decode)
            == Ok(map[a := ArrayOf([Leaf(Scalar(r0, coerce)), Leaf(Scalar(r1, coerce))])]
                  [b := Obj(map[x := ArrayOf([Leaf(Scalar(r2, coerce))])][y := Leaf(Scalar(r3, coerce))])])
  {
    var p0, p1 := a + "[]=" + r0, a + "[]=" + r1;
    var p2, p3 := Render([b, x, ""]) + "=" + r2, Render([b, y]) + "=" + r3;
    var m2 := map[a := ArrayOf([Leaf(Scalar(r0, coerce)), Leaf(Scalar(r1, coerce))])];
    MixedPushes(a, r0, r1, coerce, decode);
    FoldAppend(map[], [p0, p1], p2, coerce, decode);
    assert [p0, p1] + [p2] == [p0, p1, p2];
    var inner := map[x := ArrayOf([Leaf(Scalar(r2, coerce))])];
    MixedThird(m2, b, x, r2, coerce, decode);
    var m3 := m2[b := Obj(inner)];
    FoldAppend(map[], [p0, p1, p2], p3, coerce, decode);
    assert [p0, p1, p2] + [p3] == [p0, p1, p2, p3];
    MixedFourth(m3, b, inner, y, r3, coerce, decode);
    OverwriteIn(m2, b, Obj(inner), Obj(inner[y := Leaf(Scalar(r3, coerce))]));
  }

  /** `a[]=r0&a[]=r1&b[x][]=r2&b[y]=r3`: pushes build an array under `a`; under
      `b` a mapping is created for `x` and then reused, unchanged but for the
      new entry, for `y`. */
  lemma MixedQuery(a: string, b: string, x: string, y: string, r0: string, r1: string, r2: string, r3: string,
                   coerce: bool, decode: Decoder)
    requires Plain(decode) && Segment(a) && Segment(b) && Segment(x) && Segment(y) && a != b && x != y
    requires !LooksNumeric(x) && RawValue(r0) && RawValue(r1) && RawValue(r2) && RawValue(r3)
    ensures Parse(a + "[]=" + r0 + "&" + a + "[]=" + r1 + "&" + b + "[" + x + "][]=" + r2 + "&" + b + "[" + y + "]=" + r3,
                  coerce, decode)
            == Ok(Obj(map[a := ArrayOf([Leaf(Scalar(r0, coerce)), Leaf(Scalar(r1, coerce))]),
                          b := Obj(map[x := ArrayOf([Leaf(Scalar(r2, coerce))]), y := Leaf(Scalar(r3, coerce))])]))
  {
    MixedPairs(a, b, x, y, r0, r1, r2, r3);
    MixedFold(a, b, x, y, r0, r1, r2, r3, coerce, decode);
  }

  lemma OverwriteIn(m: map<string, Node>, k: string, x: Node, y: Node)
    ensures m[k := x][k := y] == m[k := y]
  {
  }

  // ----- Round trip of a flat object -----

  /** The pairs `key=value` of a flat object's entries, in order. */
  function FlatQuery(entries: seq<(string, string)>): (pairs: seq<string>)
    ensures |pairs| == |entries|
    ensures forall i :: 0 <= i < |entries| ==> pairs[i] == entries[i].0 + "=" + entries[i].1
  {
    if entries == [] then []
    else
      var e := entries[|entries| - 1];
      FlatQuery(entries[..|entries| - 1]) + [e.0 + "=" + e.1]
  }

  predicate DistinctKeys(entries: seq<(string, string)>)
  {
    forall i, j :: 0 <= i < j < |entries| ==> entries[i].0 != entries[j].0
  }

  /** The mapping holding each entry's value, as a string, under its key;
      a later entry for a key replaces an earlier one. */
  function MapOf(entries: seq<(string, string)>): map<string, Node>
  {
    if entries == [] then map[]
    else
      var e := entries[|entries| - 1];
      MapOf(entries[..|entries| - 1])[e.0 := Leaf(Str(e.1))]
  }

  /** Every entry's key is in `MapOf(entries)`, and with distinct keys each
      one holds its entry's value. */
  lemma {:induction false} MapOfContents(entries: seq<(string, string)>)
    ensures forall i :: 0 <= i < |entries| ==> entries[i].0 in MapOf(entries)
    ensures DistinctKeys(entries) ==> forall i :: 0 <= i < |entries| ==> MapOf(entries)[entries[i].0] == Leaf(Str(entries[i].1))
    decreases |entries|
  {
    if entries != [] {
      var n := |entries|;
      var prior := entries[..n - 1];
      assert forall i :: 0 <= i < n - 1 ==> prior[i] == entries[i];
      MapOfContents(prior);
    }
  }

  /** A key that no entry has is not in `MapOf(entries)`. */
  lemma {:induction false} MapOfOnly(entries: seq<(string, string)>, k: string)
    requires forall i :: 0 <= i < |entries| ==> entries[i].0 != k
    ensures k !in MapOf(entries)
    decreases |entries|
  {
    if entries != [] {
      var n := |entries|;
      var prior := entries[..n - 1];
      assert forall i :: 0 <= i < n - 1 ==> prior[i] == entries[i];
      MapOfOnly(prior, k);
    }
  }

  /** A flat key met for the first time is stored as it is. */
  lemma InsertFlatFresh(root: map<string, Node>, key: string, v: Value)
    requires key !in root
    ensures InsertFlat(root, key, v) == root[key := Leaf(v)]
  {
  }

  /** With distinct keys, the last key is not among the earlier ones. */
  lemma LastKeyFresh(entries: seq<(string, string)>)
    requires |entries| >= 1 && DistinctKeys(entries)
    ensures entries[|entries| - 1].0 !in MapOf(entries[..|entries| - 1])
  {
    var n := |entries|;
    var prior := entries[..n - 1];
    assert forall i :: 0 <= i < n - 1 ==> prior[i] == entries[i];
    MapOfOnly(prior, entries[n - 1].0);
  }

  /** The conditions of a flat round trip hold of every prefix. */
  predicate FlatEntries(entries: seq<(string, string)>)
  {
    && DistinctKeys(entries)
    && forall i :: 0 <= i < |entries| ==> Literal(entries[i].0) && '[' !in entries[i].0 && Literal(entries[i].1)
  }

  lemma FlatPrefix(entries: seq<(string, string)>)
    requires |entries| >= 1 && FlatEntries(entries)
    ensures FlatEntries(entries[..|entries| - 1])
  {
    var prior := entries[..|entries| - 1];
    assert forall i :: 0 <= i < |prior| ==> prior[i] == entries[i];
  }

  lemma {:induction false} FlatFold(entries: seq<(string, string)>, decode: Decoder)
    requires Plain(decode) && FlatEntries(entries)
    ensures FoldFrom(map[], FlatQuery(entries), false, decode) == Ok(MapOf(entries))
    decreases |entries|
  {
    if entries != [] {
      var n := |entries|;
      var e := entries[n - 1];
      var prior := entries[..n - 1];
      var pairs := FlatQuery(entries);
      assert pairs == FlatQuery(prior) + [e.0 + "=" + e.1];
      FoldAppend(map[], FlatQuery(prior), e.0 + "=" + e.1, false, decode);
      FlatPrefix(entries);
      FlatFold(prior, decode);
      FlatFoldStep(entries, decode);
    }
  }

  /** The last entry's pair adds that entry to the mapping of the earlier ones. */
  lemma FlatFoldStep(entries: seq<(string, string)>, decode: Decoder)
    requires Plain(decode) && |entries| >= 1 && DistinctKeys(entries)
    requires var e := entries[|entries| - 1]; Literal(e.0) && '[' !in e.0 && Literal(e.1)
    ensures var e := entries[|entries| - 1];
            Step(MapOf(entries[..|entries| - 1]), e.0 + "=" + e.1, false, decode) == Ok(MapOf(entries))
  {
    var e := entries[|entries| - 1];
    var m := MapOf(entries[..|entries| - 1]);
    LastKeyFresh(entries);
    FlatWithoutOpen(e.0);
    ValuedFlatStep(m, e.0, e.1, false, decode);
    InsertFlatFresh(m, e.0, Str(e.1));
  }

  /** Round trip: a non-empty flat object of strings with distinct plain keys,
      written as `k1=v1&…&kn=vn` and decoded without coercion, gives back
      exactly its entries. */
  lemma FlatRoundTrip(entries: seq<(string, string)>, decode: Decoder)
    requires Plain(decode) && |entries| >= 1 && DistinctKeys(entries)
    requires forall i :: 0 <= i < |entries| ==>
               Literal(entries[i].0) && '[' !in entries[i].0 && '&' !in entries[i].0 && '+' !in entries[i].0
               && Literal(entries[i].1) && '&' !in entries[i].1 && '+' !in entries[i].1
    ensures Parse(Join(FlatQuery(entries), "&"), false, decode) == Ok(Obj(MapOf(entries)))
  {
    var pairs := FlatQuery(entries);
    forall i | 0 <= i < |pairs| ensures '&' !in pairs[i] && '+' !in pairs[i] {
      PairAvoids(entries[i].0, entries[i].1);
    }
    PairsOfJoin(pairs);
    FlatFold(entries, decode);
  }

  lemma PairAvoids(key: string, raw: string)
    requires '&' !in key && '+' !in key && '&' !in raw && '+' !in raw
    ensures '&' !in key + "=" + raw && '+' !in key + "=" + raw
  {
  }

  // ----- Round trip of a mapping below one key -----

  /** The entries of a mapping below the key `k`, keyed `k[j]`. */
  function Nest(k: string, entries: seq<(string, string)>): (r: seq<(string, string)>)
    ensures |r| == |entries|
    ensures forall i :: 0 <= i < |entries| ==> r[i] == (k + "[" + entries[i].0 + "]", entries[i].1)
  {
    if entries == [] then []
    else
      var e := entries[|entries| - 1];
      Nest(k, entries[..|entries| - 1]) + [(k + "[" + e.0 + "]", e.1)]
  }

  /** The conditions of a nested round trip, which hold of every prefix. */
  predicate NestedEntries(entries: seq<(string, string)>)
  {
    forall i :: 0 <= i < |entries| ==> Segment(entries[i].0) && RawValue(entries[i].1)
  }

  lemma NestedEntriesPrefix(entries: seq<(string, string)>)
    requires |entries| >= 1 && NestedEntries(entries)
    ensures NestedEntries(entries[..|entries| - 1])
  {
    var prior := entries[..|entries| - 1];
    assert forall i :: 0 <= i < |prior| ==> prior[i] == entries[i];
  }

  /** The pair `k[j]=v` is the pair written for the path `[k, j]`. */
  lemma NestedPair(k: string, j: string, v: string)
    ensures k + "[" + j + "]" + "=" + v == Render([k, j]) + "=" + v
  {
    RenderTwo(k, j, v);
  }

  /** The pairs of the first `n - 1` entries are a prefix of the pairs of all of them. */
  lemma NestedQueryLast(k: string, entries: seq<(string, string)>)
    requires |entries| >= 1
    ensures var e := entries[|entries| - 1];
            FlatQuery(Nest(k, entries)) == FlatQuery(Nest(k, entries[..|entries| - 1])) + [k + "[" + e.0 + "]" + "=" + e.1]
  {
    var n := |entries|;
    var prior := entries[..n - 1];
    var s := Nest(k, entries);
    assert s[..n - 1] == Nest(k, prior) by {
      assert forall i :: 0 <= i < n - 1 ==> prior[i] == entries[i];
    }
  }

  /** The first entry's pair creates the mapping under `k`. */
  lemma NestedFirst(k: string, j: string, v: string, decode: Decoder)
    requires Plain(decode) && Segment(k) && Segment(j) && !LooksNumeric(j) && RawValue(v)
    ensures Step(map[], k + "[" + j + "]" + "=" + v, false, decode) == Ok(map[k := Obj(map[j := Leaf(Str(v))])])
  {
    NestedPair(k, j, v);
    PathTwo(k, j);
    ValuedDeepStep(map[], [k, j], v, false, decode);
    DeepFresh(map[], k, j, Str(v));
    assert map[][k := Obj(map[j := Leaf(Str(v))])] == map[k := Obj(map[j := Leaf(Str(v))])];
  }

  /** A later entry's pair adds its entry to the mapping under `k`. */
  lemma NestedNext(k: string, inner: map<string, Node>, j: string, v: string, decode: Decoder)
    requires Plain(decode) && Segment(k) && Segment(j) && RawValue(v)
    ensures Step(map[k := Obj(inner)], k + "[" + j + "]" + "=" + v, false, decode)
            == Ok(map[k := Obj(inner[j := Leaf(Str(v))])])
  {
    NestedPair(k, j, v);
    MixedFourth(map[k := Obj(inner)], k, inner, j, v, false, decode);
    Overwrite(k, Obj(inner), Obj(inner[j := Leaf(Str(v))]));
  }

  /** The pairs `k[j]=v` of a mapping's entries fold into that mapping under `k`. */
  lemma {:induction false} NestedFold(k: string, entries: seq<(string, string)>, decode: Decoder)
    requires Plain(decode) && Segment(k) && |entries| >= 1 && NestedEntries(entries) && !LooksNumeric(entries[0].0)
    ensures FoldFrom(map[], FlatQuery(Nest(k, entries)), false, decode) == Ok(map[k := Obj(MapOf(entries))])
    decreases |entries|
  {
    var n := |entries|;
    var e := entries[n - 1];
    var prior := entries[..n - 1];
    var pair := k + "[" + e.0 + "]" + "=" + e.1;
    NestedQueryLast(k, entries);
    FoldAppend(map[], FlatQuery(Nest(k, prior)), pair, false, decode);
    if n == 1 {
      assert prior == [];
      assert FlatQuery(Nest(k, prior)) == [];
      NestedFirst(k, e.0, e.1, decode);
      assert MapOf(entries) == map[][e.0 := Leaf(Str(e.1))];
      assert map[][e.0 := Leaf(Str(e.1))] == map[e.0 := Leaf(Str(e.1))];
    } else {
      NestedEntriesPrefix(entries);
      assert prior[0] == entries[0];
      NestedFold(k, prior, decode);
      NestedNext(k, MapOf(prior), e.0, e.1, decode);
    }
  }

  /** Round trip: a non-empty mapping of strings below the key `k`, written as
      `k[j1]=v1&…&k[jn]=vn` and decoded without coercion, gives back the
      mapping under `k`, a later entry replacing an earlier one with the
      same key. The first key must not look numeric, or the walk would
      create an array. */
  lemma NestedRoundTrip(k: string, entries: seq<(string, string)>, decode: Decoder)
    requires Plain(decode) && Segment(k) && |entries| >= 1 && NestedEntries(entries) && !LooksNumeric(entries[0].0)
    ensures Parse(Join(FlatQuery(Nest(k, entries)), "&"), false, decode) == Ok(Obj(map[k := Obj(MapOf(entries))]))
  {
    var pairs := FlatQuery(Nest(k, entries));
    forall i | 0 <= i < |pairs| ensures '&' !in pairs[i] && '+' !in pairs[i] {
      assert pairs[i] == k + "[" + entries[i].0 + "]" + "=" + entries[i].1;
    }
    PairsOfJoin(pairs);
    NestedFold(k, entries, decode);
  }
}
