/**
 * The part of the host's number handling that the decoder relies on:
 * unary `+` on a string (restricted to optionally signed decimal digit
 * strings), Number-to-string for integers, and the array-index rule for
 * property keys.
 */
module Numbers {
  import opened Wrappers

  /** 2^53: every integer of at most this magnitude is a double and prints back as its own digits. */
  const MaxExact: int := 9007199254740992

  /** 2^32 - 2: the largest array index. */
  const MaxIndex: nat := 4294967294

  /** `n` is a double that prints back as its own decimal digits. */
  predicate Exact(n: int)
  {
    -MaxExact <= n <= MaxExact
  }

  predicate IsDigit(c: char)
  {
    '0' <= c <= '9'
  }

  predicate AllDigits(s: string)
  {
    forall i :: 0 <= i < |s| ==> IsDigit(s[i])
  }

  predicate IsDigits(s: string)
  {
    |s| > 0 && AllDigits(s)
  }

  function DigitsValue(s: string): nat
    requires AllDigits(s)
    decreases |s|
  {
    if s == [] then 0 else DigitsValue(s[..|s| - 1]) * 10 + (s[|s| - 1] as int - '0' as int)
  }

  /** Decimal digits of `n`, without leading zeros. */
  function ShowNat(n: nat): (r: string)
    ensures IsDigits(r) && DigitsValue(r) == n
    ensures (r[0] == '0') == (n == 0)
  {
    if n < 10 then [('0' as int + n) as char]
    else
      var r := ShowNat(n / 10) + [('0' as int + n % 10) as char];
      assert r[..|r| - 1] == ShowNat(n / 10);
      r
  }

  /** Number-to-string for an integer. */
  function ShowInt(n: int): (r: string)
    ensures ToNumber(r) == Some(n)
  {
    if n < 0 then
      var r := "-" + ShowNat(-n);
      assert r[1..] == ShowNat(-n);
      r
    else ShowNat(n)
  }

  /** Unary `+` on a string, for the strings the model gives a number:
      an optional minus sign followed by at least one decimal digit. */
  function ToNumber(s: string): Option<int>
  {
    if |s| > 1 && s[0] == '-' && AllDigits(s[1..]) then Some(0 - DigitsValue(s[1..]))
    else if IsDigits(s) then Some(DigitsValue(s))
    else None
  }

  /** The lookahead's `!isNaN(seg)` for a non-empty segment. */
  predicate LooksNumeric(s: string)
  {
    ToNumber(s).Some?
  }

  /** A decimal integer as Number-to-string writes it: no leading zero, no `-0`. */
  predicate Canonical(s: string)
  {
    || s == "0"
    || (IsDigits(s) && s[0] != '0')
    || (|s| > 1 && s[0] == '-' && IsDigits(s[1..]) && s[1] != '0')
  }

  /** A digit string that does not start with 0 is at least 10^(length-1). */
  lemma {:induction false} DigitsValueLower(s: string)
    requires IsDigits(s) && s[0] != '0'
    ensures DigitsValue(s) >= Pow10(|s| - 1)
    decreases |s|
  {
    if |s| > 1 {
      var p := s[..|s| - 1];
      assert p[0] == s[0];
      DigitsValueLower(p);
    }
  }

  function Pow10(k: nat): (r: nat)
    ensures r >= 1
  {
    if k == 0 then 1 else 10 * Pow10(k - 1)
  }

  lemma {:induction false} Pow10Mono(a: nat, b: nat)
    requires a <= b
    ensures Pow10(a) <= Pow10(b)
    decreases b
  {
    if a < b {
      Pow10Mono(a, b - 1);
    }
  }

  lemma {:induction false} Pow10Add(a: nat, b: nat)
    ensures Pow10(a + b) == Pow10(a) * Pow10(b)
    decreases a
  {
    if a > 0 {
      Pow10Add(a - 1, b);
    }
  }

  /** Printing the value of a digit string without leading zeros gives the string back. */
  lemma {:induction false} ShowNatOfDigits(s: string)
    requires IsDigits(s) && (s[0] != '0' || s == "0")
    ensures ShowNat(DigitsValue(s)) == s
    decreases |s|
  {
    if |s| > 1 {
      var p := s[..|s| - 1];
      assert p[0] == s[0];
      ShowNatOfDigits(p);
      DigitsValueLower(p);
      var d := s[|s| - 1] as int - '0' as int;
      var n := DigitsValue(s);
      assert n == DigitsValue(p) * 10 + d;
      assert n / 10 == DigitsValue(p) && n % 10 == d;
      assert s == p + [s[|s| - 1]];
    }
  }

  /** The round trip `(+s + '') === s` succeeds exactly on canonical decimal integers. */
  lemma RoundTripIffCanonical(s: string)
    ensures (ToNumber(s).Some? && ShowInt(ToNumber(s).value) == s) <==> Canonical(s)
  {
    if Canonical(s) {
      if s == "0" {
        assert s[..0] == [];
        assert DigitsValue(s) == 0;
        assert ShowInt(0) == "0";
      } else if IsDigits(s) && s[0] != '0' {
        ShowNatOfDigits(s);
        assert ToNumber(s) == Some(DigitsValue(s));
      } else {
        var d := s[1..];
        ShowNatOfDigits(d);
        DigitsValueLower(d);
        assert ToNumber(s) == Some(0 - DigitsValue(d));
        assert s == "-" + d;
        assert ShowInt(0 - DigitsValue(d)) == "-" + ShowNat(DigitsValue(d));
      }
      assert ToNumber(s).Some? && ShowInt(ToNumber(s).value) == s;
    }
    if ToNumber(s).Some? && ShowInt(ToNumber(s).value) == s {
      var n := ToNumber(s).value;
      if n < 0 {
        assert s[1..] == ShowNat(-n);
        assert s[1] == ShowNat(-n)[0];
      } else if n == 0 {
        assert s == ShowNat(0) == "0";
      } else {
        assert s == ShowNat(n);
      }
      assert Canonical(s);
    }
  }

  /** The index a property key denotes on an array, when it is one: the
      canonical decimal of an integer from 0 to 2^32 - 2. */
  function ArrayIndex(s: string): (r: Option<nat>)
    ensures r.Some? ==> r.value <= MaxIndex && ShowInt(r.value) == s
    ensures forall k: nat :: k <= MaxIndex && ShowInt(k) == s ==> r == Some(k)
  {
    match ToNumber(s)
    case Some(n) => if 0 <= n <= MaxIndex && ShowInt(n) == s then Some(n) else None
    case None => None
  }
}
