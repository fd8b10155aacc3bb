/**
 * The decoder's documented examples, derived from the model with a decoder
 * that leaves text without `%` escapes unchanged. Each example names the
 * keys and values of its query string as parameters fixed by its
 * precondition, so the query string itself is built from its pieces.
 */
module Examples {
  import opened Wrappers
  import opened Strings
  import opened Numbers
  import opened Values
  import opened KeyPaths
  import opened Tree
  import opened Deparam
  import opened Properties

  /** Letters and digits only: text the decoder passes through unchanged
      and that no separator splits. */
  predicate Word(s: string)
  {
    forall i :: 0 <= i < |s| ==> 'a' <= s[i] <= 'z' || 'A' <= s[i] <= 'Z' || '0' <= s[i] <= '9'
  }

  lemma WordIsPlain(s: string)
    requires Word(s)
    ensures Literal(s) && NoBrackets(s) && '&' !in s && '+' !in s
  {
  }

  /** `hasOwnProperty=sillystring`: a key named like an inherited method is an
      ordinary own key (`__proto__`, an accessor, would not be). */
  lemma ReservedNameFlat(decode: Decoder, key: string, raw: string)
    requires Plain(decode) && key == "hasOwnProperty" && raw == "sillystring"
    ensures Parse(key + "=" + raw, false, decode) == Ok(Obj(map[key := Leaf(Str(raw))]))
  {
    assert Word(key) && Word(raw);
    WordIsPlain(key);
    WordIsPlain(raw);
    FlatWithoutOpen(key);
    SinglePair(key, raw, false, decode);
  }

  /** `prop=true`: with coercion the boolean, without it the string. */
  lemma CoerceTrue(decode: Decoder, key: string, raw: string)
    requires Plain(decode) && key == "prop" && raw == "true"
    ensures Parse(key + "=" + raw, true, decode) == Ok(Obj(map[key := Leaf(Bool(true))]))
    ensures Parse(key + "=" + raw, false, decode) == Ok(Obj(map[key := Leaf(Str(raw))]))
  {
    assert Word(key) && Word(raw);
    WordIsPlain(key);
    WordIsPlain(raw);
    FlatWithoutOpen(key);
    SinglePair(key, raw, true, decode);
    SinglePair(key, raw, false, decode);
  }

  /** `prop=1234` is coerced to a number. */
  lemma CoerceSmall(decode: Decoder, key: string, raw: string)
    requires Plain(decode) && key == "prop" && raw == "1234"
    ensures Parse(key + "=" + raw, true, decode) == Ok(Obj(map[key := Leaf(Num(1234))]))
  {
    assert Word(key) && Word(raw);
    WordIsPlain(key);
    WordIsPlain(raw);
    FlatWithoutOpen(key);
    SinglePair(key, raw, true, decode);
    CoerceSmallNumber();
  }

  /** `prop=999999999999999999` does not survive the numeric round trip and stays a string. */
  lemma CoerceLarge(decode: Decoder, key: string, raw: string)
    requires Plain(decode) && key == "prop" && raw == "999999999999999999"
    ensures Parse(key + "=" + raw, true, decode) == Ok(Obj(map[key := Leaf(Str(raw))]))
  {
    assert Word(key) && Word(raw);
    WordIsPlain(key);
    WordIsPlain(raw);
    FlatWithoutOpen(key);
    SinglePair(key, raw, true, decode);
    CoerceLargeNumber();
  }

  /** `a=1&a=2&a=3`: a repeated plain key collects its values in an array, in order. */
  lemma RepeatedKey(decode: Decoder, key: string, r0: string, r1: string, r2: string)
    requires Plain(decode) && key == "a" && r0 == "1" && r1 == "2" && r2 == "3"
    ensures Parse(key + "=" + r0 + "&" + key + "=" + r1 + "&" + key + "=" + r2, false, decode)
              == Ok(Obj(map[key := ArrayOf([Leaf(Str(r0)), Leaf(Str(r1)), Leaf(Str(r2))])]))
  {
    assert Word(key) && Word(r0) && Word(r1) && Word(r2);
    WordIsPlain(key);
    WordIsPlain(r0);
    WordIsPlain(r1);
    WordIsPlain(r2);
    var raws := [r0, r1, r2];
    assert forall i :: 0 <= i < |raws| ==> Literal(raws[i]) && '&' !in raws[i] && '+' !in raws[i];
    ThreePairs(key, r0, r1, r2);
    ThreeStrings(r0, r1, r2);
    FlatWithoutOpen(key);
    RepeatedFlatKey(key, raws, false, decode);
  }

  lemma ThreeStrings(r0: string, r1: string, r2: string)
    ensures Scalars([r0, r1, r2], false) == [Leaf(Str(r0)), Leaf(Str(r1)), Leaf(Str(r2))]
  {
  }

  /** The text of three pairs on one key. */
  lemma ThreePairs(key: string, r0: string, r1: string, r2: string)
    ensures Join(FlatPairs(key, [r0, r1, r2]), "&") == key + "=" + r0 + "&" + key + "=" + r1 + "&" + key + "=" + r2
  {
    var p0, p1, p2 := key + "=" + r0, key + "=" + r1, key + "=" + r2;
    var pairs := FlatPairs(key, [r0, r1, r2]);
    assert pairs == [p0, p1, p2];
    assert pairs[1..] == [p1, p2] && pairs[1..][1..] == [p2];
    assert Join([p2], "&") == p2;
    assert Join([p1, p2], "&") == p1 + "&" + p2;
    assert Join(pairs, "&") == p0 + "&" + Join([p1, p2], "&");
  }

  /** `a=1&a[b]=2`: descending into the string already stored under `a` throws. */
  lemma ScalarThenBracketExample(decode: Decoder, a: string, b: string, r0: string, r1: string)
    requires Plain(decode) && a == "a" && b == "b" && r0 == "1" && r1 == "2"
    ensures Parse(a + "=" + r0 + "&" + a + "[" + b + "]=" + r1, false, decode) == Err(TypeError)
  {
    assert Word(a) && Word(b) && Word(r0) && Word(r1);
    WordIsPlain(a);
    WordIsPlain(b);
    WordIsPlain(r0);
    WordIsPlain(r1);
    ScalarThenBracket(a, b, r0, r1, false, decode);
  }

  /** `a&a[b]=2`: the '' stored for the value-less `a` is replaced by a mapping. */
  lemma FalsyThenBracketExample(decode: Decoder, a: string, b: string, r1: string)
    requires Plain(decode) && a == "a" && b == "b" && r1 == "2"
    ensures Parse(a + "&" + a + "[" + b + "]=" + r1, false, decode)
              == Ok(Obj(map[a := Obj(map[b := Leaf(Str(r1))])]))
  {
    assert Word(a) && Word(b) && Word(r1);
    WordIsPlain(a);
    WordIsPlain(b);
    WordIsPlain(r1);
    assert ToNumber(b) == None;
    FalsyThenBracket(a, b, r1, false, decode);
  }

  /** `prop[hasOwnProperty]=sillystring`: an inherited method's name as a segment is an ordinary own key. */
  lemma ReservedNameNested(decode: Decoder, a: string, b: string, raw: string)
    requires Plain(decode) && a == "prop" && b == "hasOwnProperty" && raw == "sillystring"
    ensures Parse(a + "[" + b + "]=" + raw, false, decode) == Ok(Obj(map[a := Obj(map[b := Leaf(Str(raw))])]))
  {
    assert Word(a) && Word(b) && Word(raw);
    WordIsPlain(a);
    WordIsPlain(b);
    WordIsPlain(raw);
    assert ToNumber(b) == None;
    SingleBracketPair(a, b, raw, false, decode);
  }

  /** `prop[]=one&prop[]=two`: empty brackets push onto an array. */
  lemma EmptyBrackets(decode: Decoder, key: string, r0: string, r1: string)
    requires Plain(decode) && key == "prop" && r0 == "one" && r1 == "two"
    ensures Parse(key + "[]=" + r0 + "&" + key + "[]=" + r1, false, decode)
              == Ok(Obj(map[key := ArrayOf([Leaf(Str(r0)), Leaf(Str(r1))])]))
  {
    assert Word(key) && Word(r0) && Word(r1);
    WordIsPlain(key);
    WordIsPlain(r0);
    WordIsPlain(r1);
    var raws := [r0, r1];
    assert forall i :: 0 <= i < |raws| ==> Literal(raws[i]) && '&' !in raws[i] && '+' !in raws[i];
    TwoPushPairs(key, r0, r1);
    assert Scalars(raws, false) == [Leaf(Str(r0)), Leaf(Str(r1))];
    PushKey(key, raws, false, decode);
  }

  /** The text of two `[]` pairs on one key. */
  lemma TwoPushPairs(key: string, r0: string, r1: string)
    ensures Join(FlatPairs(key + "[]", [r0, r1]), "&") == key + "[]=" + r0 + "&" + key + "[]=" + r1
  {
    var pairs := FlatPairs(key + "[]", [r0, r1]);
    assert key + "[]" + "=" + r0 == key + "[]=" + r0 && key + "[]" + "=" + r1 == key + "[]=" + r1;
    assert pairs == [key + "[]=" + r0, key + "[]=" + r1];
    assert pairs[1..] == [key + "[]=" + r1];
  }

  /** `a[]=4&a[]=5&b[x][]=7&b[y]=8`, the leading pairs of the 1.4-style
      example: `{a: ["4", "5"], b: {x: ["7"], y: "8"}}`. */
  lemma NestedPrefix(decode: Decoder, a: string, b: string, x: string, y: string,
                     r0: string, r1: string, r2: string, r3: string)
    requires Plain(decode) && a == "a" && b == "b" && x == "x" && y == "y"
    requires r0 == "4" && r1 == "5" && r2 == "7" && r3 == "8"
    ensures Parse(a + "[]=" + r0 + "&" + a + "[]=" + r1 + "&" + b + "[" + x + "][]=" + r2 + "&" + b + "[" + y + "]=" + r3,
                  false, decode)
            == Ok(Obj(map[a := ArrayOf([Leaf(Str(r0)), Leaf(Str(r1))]),
                          b := Obj(map[x := ArrayOf([Leaf(Str(r2))]), y := Leaf(Str(r3))])]))
  {
    assert Word(a) && Word(b) && Word(x) && Word(y) && Word(r0) && Word(r1) && Word(r2) && Word(r3);
    WordIsPlain(a);
    WordIsPlain(b);
    WordIsPlain(x);
    WordIsPlain(y);
    WordIsPlain(r0);
    WordIsPlain(r1);
    WordIsPlain(r2);
    WordIsPlain(r3);
    assert ToNumber(x) == None;
    MixedQuery(a, b, x, y, r0, r1, r2, r3, false, decode);
  }

  /** The array part of the `complex` object of the round-trip test,
      `d[]=3&d[]=4&d[2][e]=5`, written with plain brackets: the index `2`
      lands inside the array, as its third element. */
  lemma ComplexArray(decode: Decoder, d: string, e: string, r0: string, r1: string, r2: string)
    requires Plain(decode) && d == "d" && e == "e" && r0 == "3" && r1 == "4" && r2 == "5"
    ensures Parse(d + "[]=" + r0 + "&" + d + "[]=" + r1 + "&" + d + "[2][" + e + "]=" + r2, false, decode)
            == Ok(Obj(map[d := ArrayOf([Leaf(Str(r0)), Leaf(Str(r1)), Obj(map[e := Leaf(Str(r2))])])]))
  {
    assert Word(d) && Word(e) && Word(r0) && Word(r1) && Word(r2);
    WordIsPlain(d);
    WordIsPlain(e);
    WordIsPlain(r0);
    WordIsPlain(r1);
    WordIsPlain(r2);
    assert ToNumber(e) == None;
    PushThenIndex(d, e, r0, r1, r2, false, decode);
  }

  /** The `simple` object of the round-trip test, written with plain
      brackets: `user[email]=tester&user[password]=tester123`. */
  lemma SimpleObject(decode: Decoder, k: string, j0: string, v0: string, j1: string, v1: string)
    requires Plain(decode) && k == "user" && j0 == "email" && v0 == "tester" && j1 == "password" && v1 == "tester123"
    ensures Parse(k + "[" + j0 + "]=" + v0 + "&" + k + "[" + j1 + "]=" + v1, false, decode)
            == Ok(Obj(map[k := Obj(map[j0 := Leaf(Str(v0)), j1 := Leaf(Str(v1))])]))
  {
    assert Word(k) && Word(j0) && Word(v0) && Word(j1) && Word(v1);
    WordIsPlain(k);
    WordIsPlain(j0);
    WordIsPlain(v0);
    WordIsPlain(j1);
    WordIsPlain(v1);
    assert ToNumber(j0) == None;
    TwoNested(decode, k, j0, v0, j1, v1);
  }

  lemma TwoNested(decode: Decoder, k: string, j0: string, v0: string, j1: string, v1: string)
    requires Plain(decode) && Segment(k) && Segment(j0) && !LooksNumeric(j0) && Segment(j1)
    requires RawValue(v0) && RawValue(v1)
    ensures Parse(k + "[" + j0 + "]=" + v0 + "&" + k + "[" + j1 + "]=" + v1, false, decode)
            == Ok(Obj(map[k := Obj(map[j0 := Leaf(Str(v0)), j1 := Leaf(Str(v1))])]))
  {
    var entries := [(j0, v0), (j1, v1)];
    assert NestedEntries(entries);
    TwoNestedPairs(k, j0, v0, j1, v1);
    NestedRoundTrip(k, entries, decode);
    assert entries[..1] == [(j0, v0)];
    assert [(j0, v0)][..0] == [];
    assert MapOf([(j0, v0)]) == map[][j0 := Leaf(Str(v0))];
    assert MapOf(entries) == MapOf([(j0, v0)])[j1 := Leaf(Str(v1))];
  }

  /** The text of two entries below one key. */
  lemma TwoNestedPairs(k: string, j0: string, v0: string, j1: string, v1: string)
    ensures Join(FlatQuery(Nest(k, [(j0, v0), (j1, v1)])), "&") == k + "[" + j0 + "]=" + v0 + "&" + k + "[" + j1 + "]=" + v1
  {
    var p0, p1 := k + "[" + j0 + "]" + "=" + v0, k + "[" + j1 + "]" + "=" + v1;
    var pairs := FlatQuery(Nest(k, [(j0, v0), (j1, v1)]));
    assert pairs == [p0, p1];
    assert pairs[1..] == [p1];
    assert p0 == k + "[" + j0 + "]=" + v0 && p1 == k + "[" + j1 + "]=" + v1;
  }
}
