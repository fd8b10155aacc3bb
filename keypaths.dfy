/**
 * Key-path resolution: how a decoded key becomes either one flat name or a
 * list of path segments (`a[b][]` gives `a`, `b`, ``).
 */
module KeyPaths {
  import opened Strings

  /** The bracket-balance test: the first `][`-piece of the key contains `[`
      and the last one ends with `]`. */
  predicate IsBracketed(key: string)
  {
    var parts := Split(key, "][");
    '[' in parts[0] && EndsWith(parts[|parts| - 1], ']')
  }

  /** The segments of a bracketed key, or the whole key as its only segment. */
  function KeyPath(key: string): (path: seq<string>)
    ensures |path| >= 1
    ensures IsBracketed(key) <==> |path| > 1
    ensures !IsBracketed(key) ==> path == [key]
  {
    var parts := Split(key, "][");
    if '[' in parts[0] && EndsWith(parts[|parts| - 1], ']') then
      var last := parts[|parts| - 1];
      var trimmed := parts[..|parts| - 1] + [last[..|last| - 1]];
      assert '[' in trimmed[0] by {
        if |parts| == 1 {
          var i :| 0 <= i < |last| && last[i] == '[';
          assert last[..|last| - 1][i] == '[';
        }
      }
      SplitPresent(trimmed[0], '[');
      Split(trimmed[0], "[") + trimmed[1..]
    else [key]
  }

  /** The key written for a path: `a[b][c]` for `a`, `b`, `c`. */
  function Render(path: seq<string>): string
    requires |path| >= 2
  {
    path[0] + "[" + Join(path[1..], "][") + "]"
  }

  predicate NoBrackets(s: string)
  {
    '[' !in s && ']' !in s
  }

  /** The `][`-pieces of the key written for a path: the first two segments
      joined by `[`, the other segments, and `]` after the last. */
  function RenderPieces(path: seq<string>): (parts: seq<string>)
    requires |path| >= 2
    ensures |parts| == |path| - 1
  {
    var q := [path[0] + "[" + path[1]] + path[2..];
    q[..|q| - 1] + [q[|q| - 1] + "]"]
  }

  lemma SplitRender(path: seq<string>)
    requires |path| >= 2
    requires forall i :: 0 <= i < |path| ==> NoBrackets(path[i])
    ensures Split(Render(path), "][") == RenderPieces(path)
  {
    var q := [path[0] + "[" + path[1]] + path[2..];
    var parts := RenderPieces(path);
    JoinPrefix(path[1..], "][", path[0] + "[");
    assert [path[0] + "[" + path[1..][0]] + path[1..][1..] == q;
    JoinSuffix(q, "][", "]");
    assert Render(path) == Join(parts, "][");
    assert forall i :: 0 <= i < |q| ==> ']' !in q[i] by {
      assert ']' !in path[0] + "[" + path[1];
      forall i | 1 <= i < |q| ensures ']' !in q[i] {
        assert q[i] == path[i + 1];
      }
    }
    assert forall i :: 0 <= i < |parts| - 1 ==> parts[i] == q[i];
    SplitNone(q[|q| - 1], "]", "][");
    SplitJoin(parts, "][");
  }

  /** A path of at least two bracket-free segments is recovered from the key written for it. */
  lemma KeyPathRender(path: seq<string>)
    requires |path| >= 2
    requires forall i :: 0 <= i < |path| ==> NoBrackets(path[i])
    ensures KeyPath(Render(path)) == path
  {
    var head := path[0] + "[" + path[1];
    var q := [head] + path[2..];
    var parts := RenderPieces(path);
    SplitRender(path);
    assert head[|path[0]|] == '[';
    assert '[' in parts[0] by {
      if |q| == 1 {
        assert parts[0] == head + "]";
        assert parts[0][|path[0]|] == '[';
      } else {
        assert parts[0] == head;
      }
    }
    var last := parts[|parts| - 1];
    assert last == q[|q| - 1] + "]";
    assert EndsWith(last, ']');
    assert last[..|last| - 1] == q[|q| - 1];
    assert parts[..|parts| - 1] + [last[..|last| - 1]] == q;
    SplitAfter(path[0], "[", path[1]);
    SplitNone(path[1], [], "[");
    assert path[1] + [] == path[1];
    assert Split(head, "[") == [path[0], path[1]];
    assert [path[0], path[1]] + q[1..] == path;
  }

  /** A key without `[` is a single flat segment. */
  lemma FlatWithoutOpen(key: string)
    requires '[' !in key
    ensures KeyPath(key) == [key]
  {
    FirstPieceIsPrefix(key, "][");
  }

  /** A key without `]` is a single flat segment: `a[b` stays the name `a[b`. */
  lemma FlatWithoutClose(key: string)
    requires ']' !in key
    ensures KeyPath(key) == [key]
  {
    SplitNone(key, [], "][");
    assert key + [] == key;
  }
}
