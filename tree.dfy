/**
 * The result tree and the two ways a valued pair is inserted into it: the
 * deep walk for bracketed paths and the flat promotion for plain keys.
 */
module Tree {
  import opened Wrappers
  import opened Numbers
  import opened Values

  /** A node of the result. An array keeps its index entries (a missing index
      is a hole), its length, and the named non-index properties that a named
      segment puts on it. Only entries written by the decoder exist: there are
      no inherited members. */
  datatype Node =
    | Leaf(v: Value)
    | Arr(items: map<nat, Node>, length: nat, props: map<string, Node>)
    | Obj(fields: map<string, Node>)

  /** Where a property key lands on a container: a mapping field, an array
      index, or a named property of an array. */
  datatype Slot = Field(name: string) | Index(i: nat) | Prop(name: string)

  predicate Fits(n: Node, s: Slot)
  {
    (n.Obj? && s.Field?) || (n.Arr? && !s.Field?)
  }

  /** JavaScript truthiness: containers are truthy, scalars by their value. */
  predicate Truthy(n: Node)
  {
    n.Leaf? ==> Values.Truthy(n.v)
  }

  /** The own entry at a slot, if any. */
  function Get(n: Node, s: Slot): Option<Node>
  {
    match s
    case Field(k) => if n.Obj? && k in n.fields then Some(n.fields[k]) else None
    case Index(i) => if n.Arr? && i in n.items then Some(n.items[i]) else None
    case Prop(k) => if n.Arr? && k in n.props then Some(n.props[k]) else None
  }

  /** Assignment to a slot; an index at or past the length extends the array. */
  function Put(n: Node, s: Slot, c: Node): (r: Node)
    requires Fits(n, s)
    ensures Get(r, s) == Some(c)
    ensures forall t :: t != s ==> Get(r, t) == Get(n, t)
    ensures r.Obj? == n.Obj? && r.Arr? == n.Arr?
    ensures r.Arr? ==> r.length == if s.Index? && s.i >= n.length then s.i + 1 else n.length
  {
    match s
    case Field(k) => Obj(n.fields[k := c])
    case Index(i) => Arr(n.items[i := c], if i >= n.length then i + 1 else n.length, n.props)
    case Prop(k) => Arr(n.items, n.length, n.props[k := c])
  }

  /** The slot a path segment names on a container. The empty segment is the
      container's length: the next index of an array, and on a mapping the
      key "undefined". On an array a canonical index names an index and any
      other text a named property. */
  function SlotOf(n: Node, seg: string): (s: Slot)
    requires !n.Leaf?
    ensures Fits(n, s)
    ensures n.Obj? ==> s == Field(if seg == "" then "undefined" else seg)
    ensures n.Arr? && seg == "" ==> s == Index(n.length)
    ensures WellFormed(n) && n.Arr? && seg == "" ==> Get(n, s) == None
    ensures n.Arr? && seg != "" ==> (s.Index? <==> ArrayIndex(seg).Some?)
    ensures n.Arr? && seg != "" && s.Index? ==> s.i <= MaxIndex && ShowInt(s.i) == seg
    ensures n.Arr? && seg != "" && !s.Index? ==> s == Prop(seg)
  {
    match n
    case Obj(_) => Field(if seg == "" then "undefined" else seg)
    case Arr(_, len, _) =>
      if seg == "" then Index(len)
      else match ArrayIndex(seg)
        case Some(i) => Index(i)
        case None => Prop(seg)
  }

  /** The container created for a missing or falsy intermediate slot, chosen
      by the next segment: an array when it is empty or numeric. */
  function Fresh(next: string): (r: Node)
    ensures r.Arr? <==> next == "" || LooksNumeric(next)
    ensures !r.Leaf? && WellFormed(r) && AllStrings(r)
  {
    if next == "" || LooksNumeric(next) then Arr(map[], 0, map[]) else Obj(map[])
  }

  /** The deep walk for a bracketed path: every segment but the last descends,
      reusing a truthy entry and otherwise creating a fresh container; the
      last segment's slot is overwritten with the value. Descending into a
      truthy scalar assigns onto a primitive, which throws a TypeError. */
  function InsertDeep(n: Node, path: seq<string>, v: Value): (r: Result<Node, Error>)
    requires !n.Leaf? && |path| >= 1
    ensures r.Ok? ==> r.value.Obj? == n.Obj? && r.value.Arr? == n.Arr?
    ensures r.Err? ==> r.error == TypeError && |path| > 1
    ensures r.Ok? ==> forall t :: t != SlotOf(n, path[0]) ==> Get(r.value, t) == Get(n, t)
    ensures r.Ok? ==> Get(r.value, SlotOf(n, path[0])).Some?
    ensures (|path| > 1 && Get(n, SlotOf(n, path[0])).Some? && Get(n, SlotOf(n, path[0])).value.Leaf?
             && Truthy(Get(n, SlotOf(n, path[0])).value)) ==> r == Err(TypeError)
    ensures r.Ok? && |path| > 1 && !(Get(n, SlotOf(n, path[0])).Some? && Truthy(Get(n, SlotOf(n, path[0])).value)) ==>
              (Get(r.value, SlotOf(n, path[0])).value.Arr? <==> path[1] == "" || LooksNumeric(path[1]))
    decreases |path|
  {
    var slot := SlotOf(n, path[0]);
    if |path| == 1 then Ok(Put(n, slot, Leaf(v)))
    else
      var prior := Get(n, slot);
      var child := if prior.Some? && Truthy(prior.value) then prior.value else Fresh(path[1]);
      if child.Leaf? then Err(TypeError)
      else match InsertDeep(child, path[1..], v)
        case Err(e) => Err(e)
        case Ok(c) => Ok(Put(n, slot, c))
  }

  /** The elements of a fresh array, in order. */
  function ArrayOf(xs: seq<Node>): (r: Node)
    ensures r.Arr? && r.length == |xs| && r.props == map[]
    ensures forall i: nat :: Get(r, Index(i)) == if i < |xs| then Some(xs[i]) else None
  {
    Arr(map i: nat | i < |xs| :: xs[i], |xs|, map[])
  }

  /** The flat-key insertion into the root mapping: a first value is stored as
      it is, a second turns the entry into `[old, new]`, and any later one is
      pushed onto that array. */
  function InsertFlat(root: map<string, Node>, key: string, v: Value): (r: map<string, Node>)
    ensures r.Keys == root.Keys + {key}
    ensures forall k :: k in root && k != key ==> r[k] == root[k]
    ensures key !in root ==> r[key] == Leaf(v)
    ensures key in root ==> r[key].Arr? && r[key].length == (if root[key].Arr? then root[key].length else 1) + 1
    ensures key in root ==> Get(r[key], Index(r[key].length - 1)) == Some(Leaf(v))
    ensures key in root && root[key].Arr? ==>
              forall t :: t != Index(root[key].length) ==> Get(r[key], t) == Get(root[key], t)
    ensures key in root && !root[key].Arr? ==> r[key] == ArrayOf([root[key], Leaf(v)])
  {
    if key in root && root[key].Arr? then
      root[key := Put(root[key], Index(root[key].length), Leaf(v))]
    else if key in root then
      root[key := ArrayOf([root[key], Leaf(v)])]
    else
      root[key := Leaf(v)]
  }

  /** Pushing onto an array of elements appends to them. */
  lemma PushArrayOf(xs: seq<Node>, x: Node)
    ensures Put(ArrayOf(xs), Index(|xs|), x) == ArrayOf(xs + [x])
  {
    var a := Put(ArrayOf(xs), Index(|xs|), x);
    var b := ArrayOf(xs + [x]);
    assert a.items == b.items by {
      forall i: nat ensures Get(a, Index(i)) == Get(b, Index(i)) {
        if i != |xs| {
          assert Get(a, Index(i)) == Get(ArrayOf(xs), Index(i));
        }
      }
    }
  }

  // ----- Reading a path back -----

  /** The slot a reader follows for a segment: as the walk names it, except
      that the empty segment on an array names its last element. */
  function ReadSlot(n: Node, seg: string): Option<Slot>
    requires !n.Leaf?
  {
    if n.Arr? && seg == "" then (if n.length == 0 then None else Some(Index(n.length - 1)))
    else Some(SlotOf(n, seg))
  }

  /** The node reached by following a path from `n`, if every step exists. */
  function ReadPath(n: Node, path: seq<string>): Option<Node>
    decreases |path|
  {
    if path == [] then Some(n)
    else if n.Leaf? then None
    else match ReadSlot(n, path[0])
      case None => None
      case Some(s) =>
        match Get(n, s)
        case None => None
        case Some(c) => ReadPath(c, path[1..])
  }

  /** After a deep insertion, following the same path reads the value back. */
  lemma {:induction false} ReadBack(n: Node, path: seq<string>, v: Value)
    requires !n.Leaf? && |path| >= 1
    requires InsertDeep(n, path, v).Ok?
    ensures ReadPath(InsertDeep(n, path, v).value, path) == Some(Leaf(v))
    decreases |path|
  {
    var r := InsertDeep(n, path, v).value;
    var slot := SlotOf(n, path[0]);
    assert ReadSlot(r, path[0]) == Some(slot);
    if |path| > 1 {
      var prior := Get(n, slot);
      var child := if prior.Some? && Truthy(prior.value) then prior.value else Fresh(path[1]);
      ReadBack(child, path[1..], v);
    }
  }

  // ----- Invariants of the tree -----

  /** Every array's indices are below its length. */
  predicate WellFormed(n: Node)
    decreases n
  {
    match n
    case Leaf(_) => true
    case Obj(f) => forall k :: k in f ==> WellFormed(f[k])
    case Arr(items, len, props) =>
      && (forall i :: i in items ==> i < len && WellFormed(items[i]))
      && (forall k :: k in props ==> WellFormed(props[k]))
  }

  /** Every scalar of the tree is a string. */
  predicate AllStrings(n: Node)
    decreases n
  {
    match n
    case Leaf(v) => v.Str?
    case Obj(f) => forall k :: k in f ==> AllStrings(f[k])
    case Arr(items, _, props) =>
      && (forall i :: i in items ==> AllStrings(items[i]))
      && (forall k :: k in props ==> AllStrings(props[k]))
  }

  /** `b` keeps the shape of `a`: no container of `a` is turned into a
      container of the other kind; it is at most overwritten by a scalar. No
      entry disappears and no array gets shorter. */
  predicate Preserves(a: Node, b: Node)
    decreases a
  {
    match a
    case Leaf(_) => true
    case Obj(f) =>
      b.Obj? && forall k :: k in f ==> k in b.fields && (b.fields[k].Leaf? || Preserves(f[k], b.fields[k]))
    case Arr(items, len, props) =>
      && b.Arr? && len <= b.length
      && (forall i :: i in items ==> i in b.items && (b.items[i].Leaf? || Preserves(items[i], b.items[i])))
      && (forall k :: k in props ==> k in b.props && (b.props[k].Leaf? || Preserves(props[k], b.props[k])))
  }

  lemma GetWellFormed(n: Node, s: Slot)
    requires WellFormed(n) && Get(n, s).Some?
    ensures WellFormed(Get(n, s).value)
  {
  }

  lemma PutWellFormed(n: Node, s: Slot, c: Node)
    requires Fits(n, s) && WellFormed(n) && WellFormed(c)
    ensures WellFormed(Put(n, s, c))
  {
  }

  lemma GetAllStrings(n: Node, s: Slot)
    requires AllStrings(n) && Get(n, s).Some?
    ensures AllStrings(Get(n, s).value)
  {
  }

  lemma PutAllStrings(n: Node, s: Slot, c: Node)
    requires Fits(n, s) && AllStrings(n) && AllStrings(c)
    ensures AllStrings(Put(n, s, c))
  {
  }

  lemma ArrayOfInvariants(xs: seq<Node>)
    ensures (forall i :: 0 <= i < |xs| ==> WellFormed(xs[i])) ==> WellFormed(ArrayOf(xs))
    ensures (forall i :: 0 <= i < |xs| ==> AllStrings(xs[i])) ==> AllStrings(ArrayOf(xs))
  {
    var a := ArrayOf(xs);
    assert forall i :: i in a.items ==> i < |xs| && a.items[i] == xs[i];
  }

  /** Flat insertion keeps arrays well formed, and stores only strings when
      given one. */
  lemma InsertFlatInvariants(root: map<string, Node>, key: string, v: Value)
    requires WellFormed(Obj(root))
    ensures WellFormed(Obj(InsertFlat(root, key, v)))
    ensures AllStrings(Obj(root)) && v.Str? ==> AllStrings(Obj(InsertFlat(root, key, v)))
  {
    var r := InsertFlat(root, key, v);
    if key in root {
      var prior := root[key];
      assert WellFormed(prior);
      assert AllStrings(Obj(root)) ==> AllStrings(prior);
      if prior.Arr? {
        PutWellFormed(prior, Index(prior.length), Leaf(v));
        if AllStrings(Obj(root)) && v.Str? {
          PutAllStrings(prior, Index(prior.length), Leaf(v));
        }
      } else {
        ArrayOfInvariants([prior, Leaf(v)]);
      }
    }
  }

  /** Deep insertion keeps arrays well formed. */
  lemma {:induction false} InsertDeepWellFormed(n: Node, path: seq<string>, v: Value)
    requires !n.Leaf? && |path| >= 1 && WellFormed(n)
    ensures InsertDeep(n, path, v).Ok? ==> WellFormed(InsertDeep(n, path, v).value)
    decreases |path|
  {
    var slot := SlotOf(n, path[0]);
    if |path| == 1 {
      PutWellFormed(n, slot, Leaf(v));
    } else {
      var prior := Get(n, slot);
      var child := if prior.Some? && Truthy(prior.value) then prior.value else Fresh(path[1]);
      if prior.Some? {
        GetWellFormed(n, slot);
      }
      if !child.Leaf? {
        InsertDeepWellFormed(child, path[1..], v);
        if InsertDeep(child, path[1..], v).Ok? {
          PutWellFormed(n, slot, InsertDeep(child, path[1..], v).value);
        }
      }
    }
  }

  /** Deep insertion of a string into an all-string tree keeps it all-string. */
  lemma {:induction false} InsertDeepAllStrings(n: Node, path: seq<string>, v: Value)
    requires !n.Leaf? && |path| >= 1 && AllStrings(n) && v.Str?
    ensures InsertDeep(n, path, v).Ok? ==> AllStrings(InsertDeep(n, path, v).value)
    decreases |path|
  {
    var slot := SlotOf(n, path[0]);
    if |path| == 1 {
      PutAllStrings(n, slot, Leaf(v));
    } else {
      var prior := Get(n, slot);
      var child := if prior.Some? && Truthy(prior.value) then prior.value else Fresh(path[1]);
      if prior.Some? {
        GetAllStrings(n, slot);
      }
      if !child.Leaf? {
        InsertDeepAllStrings(child, path[1..], v);
        if InsertDeep(child, path[1..], v).Ok? {
          PutAllStrings(n, slot, InsertDeep(child, path[1..], v).value);
        }
      }
    }
  }

  /** Every node keeps its own shape. */
  lemma {:induction false} PreservesRefl(a: Node)
    ensures Preserves(a, a)
    decreases a
  {
    match a
    case Leaf(_) =>
    case Obj(f) =>
      forall k | k in f ensures Preserves(f[k], f[k]) {
        PreservesRefl(f[k]);
      }
    case Arr(items, _, props) =>
      forall i | i in items ensures Preserves(items[i], items[i]) {
        PreservesRefl(items[i]);
      }
      forall k | k in props ensures Preserves(props[k], props[k]) {
        PreservesRefl(props[k]);
      }
  }

  /** Assigning to a slot keeps the shape when the new entry keeps the prior one's. */
  lemma PutPreserves(n: Node, s: Slot, c: Node)
    requires Fits(n, s)
    requires Get(n, s).Some? ==> c.Leaf? || Preserves(Get(n, s).value, c)
    ensures Preserves(n, Put(n, s, c))
  {
    var r := Put(n, s, c);
    match n
    case Obj(f) =>
      forall k | k in f ensures k in r.fields && (r.fields[k].Leaf? || Preserves(f[k], r.fields[k])) {
        if Field(k) != s {
          assert Get(r, Field(k)) == Get(n, Field(k));
          PreservesRefl(f[k]);
        }
      }
    case Arr(items, _, props) =>
      forall i | i in items ensures i in r.items && (r.items[i].Leaf? || Preserves(items[i], r.items[i])) {
        if Index(i) != s {
          assert Get(r, Index(i)) == Get(n, Index(i));
          PreservesRefl(items[i]);
        }
      }
      forall k | k in props ensures k in r.props && (r.props[k].Leaf? || Preserves(props[k], r.props[k])) {
        if Prop(k) != s {
          assert Get(r, Prop(k)) == Get(n, Prop(k));
          PreservesRefl(props[k]);
        }
      }
  }

  /** A deep insertion never reshapes a container: a mapping stays a mapping
      and an array an array, at every depth; only the last segment's slot may
      be overwritten by the value. */
  lemma {:induction false} InsertDeepPreserves(n: Node, path: seq<string>, v: Value)
    requires !n.Leaf? && |path| >= 1
    requires InsertDeep(n, path, v).Ok?
    ensures Preserves(n, InsertDeep(n, path, v).value)
    decreases |path|
  {
    var slot := SlotOf(n, path[0]);
    if |path| == 1 {
      PutPreserves(n, slot, Leaf(v));
    } else {
      var prior := Get(n, slot);
      var child := if prior.Some? && Truthy(prior.value) then prior.value else Fresh(path[1]);
      var c := InsertDeep(child, path[1..], v).value;
      InsertDeepPreserves(child, path[1..], v);
      PutPreserves(n, slot, c);
    }
  }

  /** The container a walk continues into below a slot that held `prior`:
      the container already there, or a fresh one chosen by the next segment. */
  function Below(prior: Option<Node>, next: string): Node
  {
    if prior.Some? && !prior.value.Leaf? then prior.value else Fresh(next)
  }

  /** `b` is `a` with only the slots along `path` rewritten. At every level
      every other slot keeps its entry and an array's length grows only as
      the assignment demands; the walk continues into the container that was
      there (or a fresh one); the last slot holds the value. */
  ghost predicate OnlyAlong(a: Node, b: Node, path: seq<string>, v: Value)
    requires !a.Leaf? && |path| >= 1
    decreases |path|
  {
    var s := SlotOf(a, path[0]);
    && b.Obj? == a.Obj? && b.Arr? == a.Arr?
    && (b.Arr? ==> b.length == if s.Index? && s.i >= a.length then s.i + 1 else a.length)
    && (forall t :: t != s ==> Get(b, t) == Get(a, t))
    && Get(b, s).Some?
    && if |path| == 1 then Get(b, s).value == Leaf(v)
       else OnlyAlong(Below(Get(a, s), path[1]), Get(b, s).value, path[1..], v)
  }

  /** A deep insertion rewrites only the slots along its path: every entry off
      the path, at any depth, is kept as it was. */
  lemma {:induction false} InsertDeepOnlyAlong(n: Node, path: seq<string>, v: Value)
    requires !n.Leaf? && |path| >= 1
    requires InsertDeep(n, path, v).Ok?
    ensures OnlyAlong(n, InsertDeep(n, path, v).value, path, v)
    decreases |path|
  {
    if |path| > 1 {
      var slot := SlotOf(n, path[0]);
      var prior := Get(n, slot);
      var child := if prior.Some? && Truthy(prior.value) then prior.value else Fresh(path[1]);
      assert child == Below(prior, path[1]);
      InsertDeepOnlyAlong(child, path[1..], v);
    }
  }

  /** The walk along `path` meets a truthy scalar before the last segment:
      the place where the source assigns a property on a primitive. */
  predicate Blocked(n: Node, path: seq<string>)
    requires !n.Leaf? && |path| >= 1
    decreases |path|
  {
    && |path| > 1
    && var prior := Get(n, SlotOf(n, path[0]));
       (prior.Some? && prior.value.Leaf? && Truthy(prior.value)) || Blocked(Below(prior, path[1]), path[1..])
  }

  /** A deep insertion throws exactly when its walk meets a truthy scalar
      before the last segment, at any depth; otherwise it succeeds. */
  lemma {:induction false} InsertDeepFails(n: Node, path: seq<string>, v: Value)
    requires !n.Leaf? && |path| >= 1
    ensures InsertDeep(n, path, v).Err? <==> Blocked(n, path)
    decreases |path|
  {
    if |path| > 1 {
      var slot := SlotOf(n, path[0]);
      var prior := Get(n, slot);
      var child := if prior.Some? && Truthy(prior.value) then prior.value else Fresh(path[1]);
      if !(prior.Some? && prior.value.Leaf? && Truthy(prior.value)) {
        assert child == Below(prior, path[1]);
        InsertDeepFails(child, path[1..], v);
      }
    }
  }

  /** On a well-formed array an empty first segment writes at the current
      length, a slot that was free, and grows the array by one; every other
      slot is kept. */
  lemma EmptySegmentAppends(n: Node, path: seq<string>, v: Value)
    requires n.Arr? && WellFormed(n) && |path| >= 1 && path[0] == ""
    requires InsertDeep(n, path, v).Ok?
    ensures var r := InsertDeep(n, path, v).value;
            && Get(n, Index(n.length)) == None
            && r.Arr? && r.length == n.length + 1 && r.props == n.props
            && (forall t :: t != Index(n.length) ==> Get(r, t) == Get(n, t))
            && (|path| == 1 ==> Get(r, Index(n.length)) == Some(Leaf(v)))
            && (|path| > 1 ==> Get(r, Index(n.length)) == Some(InsertDeep(Fresh(path[1]), path[1..], v).value))
  {
    assert SlotOf(n, path[0]) == Index(n.length);
    if |path| > 1 {
      assert Get(n, Index(n.length)) == None;
    }
  }

  /** A canonical index as the first segment on an array writes at that
      index: the length grows to cover it, and no other slot and no named
      property changes. */
  lemma IndexSegmentWrites(n: Node, path: seq<string>, v: Value, i: nat)
    requires n.Arr? && |path| >= 1 && ArrayIndex(path[0]) == Some(i)
    requires InsertDeep(n, path, v).Ok?
    ensures var r := InsertDeep(n, path, v).value;
            && r.Arr? && r.length == (if i < n.length then n.length else i + 1) && r.props == n.props
            && (forall t :: t != Index(i) ==> Get(r, t) == Get(n, t))
            && (|path| == 1 ==> Get(r, Index(i)) == Some(Leaf(v)))
            && (|path| > 1 ==> Get(r, Index(i)) == Some(InsertDeep(Below(Get(n, Index(i)), path[1]), path[1..], v).value))
  {
    assert path[0] != "";
    assert SlotOf(n, path[0]) == Index(i);
  }
}
