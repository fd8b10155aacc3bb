/**
 * The scalars the decoder stores, the host exceptions that can escape
 * from it, and the optional coercion of a decoded value string.
 */
module Values {
  import opened Wrappers
  import opened Numbers

  /** A leaf of the result: a string, or with coercion on a boolean, null,
      undefined or a number. */
  datatype Value = Str(s: string) | Bool(b: bool) | Null | Undefined | Num(n: int)

  /** The host exceptions the model lets escape from the decoder: a
      malformed percent escape, and a property assignment onto a primitive in
      strict mode. (An invalid array `length` assignment, which throws a
      RangeError, is not modelled.) */
  datatype Error = URIError | TypeError

  /** The fixed coercion table (COERCE_TYPES, own entries only). */
  const CoerceTable: map<string, Value> := map["true" := Bool(true), "false" := Bool(false), "null" := Null]

  /** The value stored for the decoded string `s` when coercion is on. */
  function Coerce(s: string): (v: Value)
    ensures s == "undefined" ==> v == Undefined
    ensures s in CoerceTable ==> v == CoerceTable[s]
    ensures v.Num? ==> ShowInt(v.n) == s && Exact(v.n)
    ensures v.Str? ==> v.s == s
    ensures v.Str? <==> s != "undefined" && s !in CoerceTable && !(Canonical(s) && Exact(ToNumber(s).value))
  {
    RoundTripIffCanonical(s);
    if s == "undefined" then Undefined
    else if s in CoerceTable then CoerceTable[s]
    else match ToNumber(s)
      case Some(n) => if Exact(n) && ShowInt(n) == s then Num(n) else Str(s)
      case None => Str(s)
  }

  /** The value stored for the decoded string `raw`. */
  function Scalar(raw: string, coerce: bool): (v: Value)
    ensures !coerce ==> v == Str(raw)
  {
    if coerce then Coerce(raw) else Str(raw)
  }

  /** JavaScript truthiness of a scalar. */
  predicate Truthy(v: Value)
  {
    match v
    case Str(s) => s != ""
    case Bool(b) => b
    case Null => false
    case Undefined => false
    case Num(n) => n != 0
  }

  /** Every integer of magnitude at most 2^53, written in decimal, is coerced to itself. */
  lemma CoerceShowInt(n: int)
    requires Exact(n)
    ensures Coerce(ShowInt(n)) == Num(n)
  {
    var s := ShowInt(n);
    assert s[0] == '-' || IsDigit(s[0]) by {
      if n >= 0 { assert IsDigits(ShowNat(n)); }
    }
    assert s != "undefined" && s !in CoerceTable by {
      assert "undefined"[0] == 'u' && "true"[0] == 't' && "false"[0] == 'f' && "null"[0] == 'n';
    }
  }

  /** A digit string of 17 or more digits without a leading zero exceeds 2^53:
      converting it to a number and back loses digits, so it stays a string. */
  lemma LongDigitsStayStrings(s: string)
    requires IsDigits(s) && s[0] != '0' && |s| >= 17
    ensures Coerce(s) == Str(s)
  {
    DigitsValueLower(s);
    Pow10Mono(16, |s| - 1);
    assert Pow10(4) == 10000;
    assert Pow10(8) == 10000 * Pow10(4) by { Pow10Add(4, 4); }
    assert Pow10(16) == 100000000 * Pow10(8) by { Pow10Add(8, 8); }
    assert s != "undefined" && s !in CoerceTable by {
      assert "undefined"[0] == 'u' && "true"[0] == 't' && "false"[0] == 'f' && "null"[0] == 'n';
    }
  }

  /** `1234` is coerced to the number 1234. */
  lemma CoerceSmallNumber()
    ensures Coerce("1234") == Num(1234)
  {
    CoerceShowInt(1234);
    assert ShowInt(1234) == "1234";
  }

  /** `999999999999999999` stays a string. */
  lemma CoerceLargeNumber()
    ensures Coerce("999999999999999999") == Str("999999999999999999")
  {
    LongDigitsStayStrings("999999999999999999");
  }
}
