/**
 * The string routines the decoder borrows from its host: splitting on a
 * separator, joining back, and the global replacement of `+` by a space.
 */
module Strings {

  /** The pieces of `s` between the non-overlapping occurrences of `sep`,
      found left to right (String.prototype.split with a string separator). */
  function Split(s: string, sep: string): (r: seq<string>)
    requires sep != []
    ensures |r| >= 1
    decreases |s|
  {
    if |s| < |sep| then [s]
    else if s[..|sep|] == sep then [[]] + Split(s[|sep|..], sep)
    else
      var rest := Split(s[1..], sep);
      [[s[0]] + rest[0]] + rest[1..]
  }

  /** The pieces put back together with `sep` between neighbours. */
  function Join(parts: seq<string>, sep: string): string
    requires |parts| >= 1
  {
    if |parts| == 1 then parts[0] else parts[0] + sep + Join(parts[1..], sep)
  }

  /** Every `+` of `s` replaced by a space (`s.replace(/\+/g, ' ')`). */
  function SpacePlus(s: string): (r: string)
    ensures |r| == |s|
    ensures forall i :: 0 <= i < |s| ==> r[i] == (if s[i] == '+' then ' ' else s[i])
  {
    if s == [] then [] else [if s[0] == '+' then ' ' else s[0]] + SpacePlus(s[1..])
  }

  /** Number of occurrences of `c` in `s`. */
  function Count(s: string, c: char): nat
  {
    if s == [] then 0 else (if s[0] == c then 1 else 0) + Count(s[1..], c)
  }

  predicate EndsWith(s: string, c: char)
  {
    |s| > 0 && s[|s| - 1] == c
  }

  /** Splitting and joining with the same separator gives back the input. */
  lemma {:induction false} JoinSplit(s: string, sep: string)
    requires sep != []
    ensures Join(Split(s, sep), sep) == s
    decreases |s|
  {
    var parts := Split(s, sep);
    if |s| < |sep| {
    } else if s[..|sep|] == sep {
      var tail := s[|sep|..];
      JoinSplit(tail, sep);
      assert parts[1..] == Split(tail, sep);
      assert Join(parts, sep) == [] + sep + Join(Split(tail, sep), sep);
      assert s == sep + tail;
    } else {
      JoinSplit(s[1..], sep);
      var rest := Split(s[1..], sep);
      assert parts[0] == [s[0]] + rest[0];
      assert s == [s[0]] + s[1..];
      if |rest| > 1 {
        assert parts[1..] == rest[1..];
        assert Join(parts, sep) == parts[0] + sep + Join(rest[1..], sep);
        assert Join(rest, sep) == rest[0] + sep + Join(rest[1..], sep);
      } else {
        assert parts == [[s[0]] + rest[0]];
      }
    }
  }

  /** No piece of a split on one character contains that character. */
  lemma {:induction false} SplitPiecesAvoidSep(s: string, c: char)
    ensures forall p :: p in Split(s, [c]) ==> c !in p
    decreases |s|
  {
    if |s| < 1 {
    } else if s[..1] == [c] {
      SplitPiecesAvoidSep(s[1..], c);
    } else {
      SplitPiecesAvoidSep(s[1..], c);
      var rest := Split(s[1..], [c]);
      assert rest[0] in rest;
      forall p | p in Split(s, [c]) ensures c !in p {
        if p != [s[0]] + rest[0] {
          assert p in rest[1..];
        }
      }
    }
  }

  /** A split on one character has one piece more than there are occurrences of it. */
  lemma {:induction false} SplitCount(s: string, c: char)
    ensures |Split(s, [c])| == Count(s, c) + 1
    decreases |s|
  {
    if s != [] {
      SplitCount(s[1..], c);
      assert s[..1] == [s[0]];
    }
  }

  /** A string in which the separator cannot begin is a single piece. */
  lemma {:induction false} SplitNone(a: string, t: string, sep: string)
    requires sep != [] && sep[0] !in a && |t| < |sep|
    ensures Split(a + t, sep) == [a + t]
    decreases |a|
  {
    if a != [] && |a + t| >= |sep| {
      assert (a + t)[0] == a[0];
      assert (a + t)[..|sep|] != sep;
      assert (a + t)[1..] == a[1..] + t;
      SplitNone(a[1..], t, sep);
      assert [a[0]] + (a[1..] + t) == a + t;
    }
  }

  /** A piece in which the separator cannot begin, followed by the separator,
      is split off as the first piece. */
  lemma {:induction false} SplitAfter(a: string, sep: string, b: string)
    requires sep != [] && sep[0] !in a
    ensures Split(a + sep + b, sep) == [a] + Split(b, sep)
    decreases |a|
  {
    var s := a + sep + b;
    if a == [] {
      assert s == sep + b;
      assert s[..|sep|] == sep && s[|sep|..] == b;
    } else {
      assert s[0] == a[0];
      assert s[..|sep|] != sep;
      assert s[1..] == a[1..] + sep + b;
      SplitAfter(a[1..], sep, b);
      assert [a[0]] + a[1..] == a;
    }
  }

  /** Joining pieces that the separator cannot begin in, and splitting again,
      gives back the pieces; the last piece only has to split to itself. */
  lemma {:induction false} SplitJoin(parts: seq<string>, sep: string)
    requires sep != [] && |parts| >= 1
    requires forall i :: 0 <= i < |parts| - 1 ==> sep[0] !in parts[i]
    requires Split(parts[|parts| - 1], sep) == [parts[|parts| - 1]]
    ensures Split(Join(parts, sep), sep) == parts
    decreases |parts|
  {
    if |parts| > 1 {
      SplitJoin(parts[1..], sep);
      SplitAfter(parts[0], sep, Join(parts[1..], sep));
    }
  }

  /** A character that occurs splits the string into at least two pieces. */
  lemma {:induction false} SplitPresent(s: string, c: char)
    requires c in s
    ensures |Split(s, [c])| >= 2
    decreases |s|
  {
    SplitCount(s, c);
    CountPresent(s, c);
  }

  lemma {:induction false} CountPresent(s: string, c: char)
    requires c in s
    ensures Count(s, c) > 0
    decreases |s|
  {
    if s[0] != c {
      assert c in s[1..];
      CountPresent(s[1..], c);
    }
  }

  /** Putting text before a join is putting it before the first piece. */
  lemma JoinPrefix(parts: seq<string>, sep: string, h: string)
    requires |parts| >= 1
    ensures h + Join(parts, sep) == Join([h + parts[0]] + parts[1..], sep)
  {
    if |parts| > 1 {
      assert ([h + parts[0]] + parts[1..])[1..] == parts[1..];
    }
  }

  /** Putting text after a join is putting it after the last piece. */
  lemma {:induction false} JoinSuffix(parts: seq<string>, sep: string, t: string)
    requires |parts| >= 1
    ensures Join(parts, sep) + t == Join(parts[..|parts| - 1] + [parts[|parts| - 1] + t], sep)
    decreases |parts|
  {
    if |parts| > 1 {
      JoinSuffix(parts[1..], sep, t);
      var q := parts[..|parts| - 1] + [parts[|parts| - 1] + t];
      assert q[0] == parts[0];
      assert q[1..] == parts[1..][..|parts| - 2] + [parts[|parts| - 1] + t];
    }
  }

  /** The first piece of a split is a prefix of the input. */
  lemma FirstPieceIsPrefix(s: string, sep: string)
    requires sep != []
    ensures Split(s, sep)[0] <= s
  {
    var parts := Split(s, sep);
    JoinSplit(s, sep);
    if |parts| > 1 {
      var rest := sep + Join(parts[1..], sep);
      assert Join(parts, sep) == parts[0] + rest;
      assert s == parts[0] + rest;
      assert s[..|parts[0]|] == parts[0];
    }
  }

  /** Every character of every piece comes from the input. */
  lemma {:induction false} SplitPiecesFrom(s: string, sep: string)
    requires sep != []
    ensures forall p, c :: p in Split(s, sep) && c in p ==> c in s
    decreases |s|
  {
    if |s| < |sep| {
    } else if s[..|sep|] == sep {
      SplitPiecesFrom(s[|sep|..], sep);
    } else {
      SplitPiecesFrom(s[1..], sep);
      var rest := Split(s[1..], sep);
      assert rest[0] in rest;
      forall p, c | p in Split(s, sep) && c in p ensures c in s {
        if p == [s[0]] + rest[0] {
          if c != s[0] {
            assert c in rest[0];
          }
        } else {
          assert p in rest[1..];
        }
      }
    }
  }

  /** A character found in no piece and not in the separator is not in the join. */
  lemma {:induction false} JoinAvoids(parts: seq<string>, sep: string, c: char)
    requires |parts| >= 1 && c !in sep
    requires forall i :: 0 <= i < |parts| ==> c !in parts[i]
    ensures c !in Join(parts, sep)
    decreases |parts|
  {
    if |parts| > 1 {
      JoinAvoids(parts[1..], sep, c);
    }
  }

  /** Without a `+` there is nothing to replace. */
  lemma SpacePlusNone(s: string)
    requires '+' !in s
    ensures SpacePlus(s) == s
  {
  }
}
