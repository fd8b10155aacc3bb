/**
 * The decoder: `deparam(params, coerce)` folds the `&`-separated pairs of a
 * query string, left to right, into a root mapping.
 *
 * Percent-decoding is the host's decodeURIComponent and is a parameter here:
 * `decode(s)` is `None` where the host throws a URIError, which escapes from
 * the decoder unchanged.
 */
module Deparam {
  import opened Wrappers
  import opened Strings
  import opened Values
  import opened KeyPaths
  import opened Tree

  type Decoder = string -> Option<string>

  /** The decoder leaves text without a `%` escape as it is, as decodeURIComponent does. */
  ghost predicate Plain(decode: Decoder)
  {
    forall s :: '%' !in s ==> decode(s) == Some(s)
  }

  /** The pairs of the query string: every `+` becomes a space, then the text
      is split on `&`. */
  function Pairs(params: string): (pairs: seq<string>)
    ensures |pairs| >= 1
    ensures Join(pairs, "&") == SpacePlus(params)
    ensures |pairs| == Count(SpacePlus(params), '&') + 1
    ensures forall p :: p in pairs ==> '&' !in p && '+' !in p
  {
    var text := SpacePlus(params);
    JoinSplit(text, "&");
    SplitCount(text, '&');
    SplitPiecesAvoidSep(text, '&');
    SplitPiecesFrom(text, "&");
    Split(text, "&")
  }

  /** One pair, folded into the root: the body of the loop over the pairs. */
  function Step(root: map<string, Node>, pair: string, coerce: bool, decode: Decoder): (r: Result<map<string, Node>, Error>)
    ensures r.Ok? ==> root.Keys <= r.value.Keys
    ensures r.Err? && r.error == URIError ==>
              decode(Split(pair, "=")[0]).None? || (|Split(pair, "=")| == 2 && decode(Split(pair, "=")[1]).None?)
    ensures decode(Split(pair, "=")[0]).None? ==> r == Err(URIError)
    ensures |Split(pair, "=")| == 2 && decode(Split(pair, "=")[1]).None? ==> r == Err(URIError)
    ensures r == Err(TypeError) ==>
              |Split(pair, "=")| == 2 && decode(Split(pair, "=")[0]).Some? && IsBracketed(decode(Split(pair, "=")[0]).value)
  {
    var param := Split(pair, "=");
    match decode(param[0])
    case None => Err(URIError)
    case Some(key) =>
      if |param| == 2 then
        match decode(param[1])
        case None => Err(URIError)
        case Some(raw) =>
          var val := Scalar(raw, coerce);
          var path := KeyPath(key);
          if |path| > 1 then
            match InsertDeep(Obj(root), path, val)
            case Err(e) => Err(e)
            case Ok(n) =>
              assert forall k :: k in root ==> Get(n, Field(k)).Some?;
              Ok(n.fields)
          else Ok(InsertFlat(root, key, val))
      else if key != "" then Ok(root[key := Leaf(if coerce then Undefined else Str(""))])
      else Ok(root)
  }

  /** The pairs folded into `root`, left to right; the first failure ends the fold. */
  function FoldFrom(root: map<string, Node>, pairs: seq<string>, coerce: bool, decode: Decoder): Result<map<string, Node>, Error>
    decreases |pairs|
  {
    if pairs == [] then Ok(root)
    else match FoldFrom(root, pairs[..|pairs| - 1], coerce, decode)
      case Err(e) => Err(e)
      case Ok(m) => Step(m, pairs[|pairs| - 1], coerce, decode)
  }

  /** What the decoder returns, or the exception it throws. */
  function Parse(params: string, coerce: bool, decode: Decoder): Result<Node, Error>
  {
    match FoldFrom(map[], Pairs(params), coerce, decode)
    case Ok(m) => Ok(Obj(m))
    case Err(e) => Err(e)
  }

  /** `deparam(params, coerce)`: the root mapping is updated pair by pair. */
  method Deparam(params: string, coerce: bool, decode: Decoder) returns (r: Result<Node, Error>)
    ensures r == Parse(params, coerce, decode)
  {
    var pairs := Pairs(params);
    var obj: map<string, Node> := map[];
    var i := 0;
    while i < |pairs|
      invariant 0 <= i <= |pairs|
      invariant FoldFrom(map[], pairs[..i], coerce, decode) == Ok(obj)
    {
      assert pairs[..i + 1][..i] == pairs[..i];
      var next := Step(obj, pairs[i], coerce, decode);
      if next.Err? {
        FailureStops(map[], pairs, i + 1, coerce, decode);
        return Err(next.error);
      }
      obj := next.value;
      i := i + 1;
    }
    assert pairs[..i] == pairs;
    return Ok(Obj(obj));
  }

  /** Once a prefix of the pairs fails, the whole fold fails the same way. */
  lemma {:induction false} FailureStops(root: map<string, Node>, pairs: seq<string>, j: nat, coerce: bool, decode: Decoder)
    requires j <= |pairs|
    requires FoldFrom(root, pairs[..j], coerce, decode).Err?
    ensures FoldFrom(root, pairs, coerce, decode) == FoldFrom(root, pairs[..j], coerce, decode)
    decreases |pairs| - j
  {
    if j < |pairs| {
      assert pairs[..|pairs| - 1][..j] == pairs[..j];
      FailureStops(root, pairs[..|pairs| - 1], j, coerce, decode);
    } else {
      assert pairs[..j] == pairs;
    }
  }

  /** A pair whose key, or whose value in a two-part pair, fails to decode
      makes the whole call throw URIError once the pairs before it succeed. */
  lemma URIErrorEscapes(params: string, j: nat, coerce: bool, decode: Decoder)
    requires j < |Pairs(params)|
    requires FoldFrom(map[], Pairs(params)[..j], coerce, decode).Ok?
    requires var param := Split(Pairs(params)[j], "=");
             decode(param[0]).None? || (|param| == 2 && decode(param[1]).None?)
    ensures Parse(params, coerce, decode) == Err(URIError)
  {
    var pairs := Pairs(params);
    assert pairs[..j + 1][..j] == pairs[..j];
    FailureStops(map[], pairs, j + 1, coerce, decode);
  }
}
