/**
 * The token tree that scripts/generate-tokens.js builds, and `setDeep`, which
 * writes a value into it at the path given by a list of keys.
 *
 * The generator only ever stores strings and plain objects in the tree, so a
 * node is one of those two. `setDeep` runs in JavaScript's sloppy mode: once its
 * cursor reaches a non-empty string it holds a primitive, every write onto that
 * primitive is silently dropped, and the cursor moves on to the primitive's
 * property (a character, the `length`, or `undefined`). Reading or writing a
 * property of `undefined` throws a TypeError, which is the `None` outcome here.
 */
module PathBuilder {
  import opened Wrappers

  /** A JavaScript value as it occurs in a generated token tree. */
  datatype Tree = Str(s: string) | Obj(fields: map<string, Tree>)

  /** JavaScript truthiness: the empty string is the only falsy tree value. */
  predicate Truthy(t: Tree) {
    t.Obj? || t.s != ""
  }

  /** The node reached by following `path` from `t`, if there is one. */
  function Lookup(t: Tree, path: seq<string>): Option<Tree>
  {
    if |path| == 0 then Some(t)
    else if t.Obj? && path[0] in t.fields then Lookup(t.fields[path[0]], path[1..])
    else None
  }

  /** What `current[part] || {}` evaluates to while `setDeep` descends. */
  function ChildOrFresh(fields: map<string, Tree>, part: string): Tree
  {
    if part in fields && Truthy(fields[part]) then fields[part] else Obj(map[])
  }

  // ---------------------------------------------------------------- primitives

  /** A value the cursor of `setDeep` can hold once it has left the tree. */
  datatype Primitive = PStr(s: string) | PNum(n: nat) | Undefined

  predicate IsDigit(c: char) {
    '0' <= c <= '9'
  }

  /** A key that names an index of a string: a natural number in decimal,
      without leading zeros. */
  predicate IsIndexKey(key: string) {
    && |key| > 0
    && (forall k :: 0 <= k < |key| ==> IsDigit(key[k]))
    && (key[0] == '0' ==> |key| == 1)
  }

  /** The number a string of decimal digits denotes. */
  function DecimalValue(key: string): nat
    requires forall k :: 0 <= k < |key| ==> IsDigit(key[k])
    decreases |key|
  {
    if |key| == 0 then 0
    else
      assert IsDigit(key[|key| - 1]);
      DecimalValue(key[..|key| - 1]) * 10 + (key[|key| - 1] as int - '0' as int)
  }

  /** `p[key]` for a primitive: a string has its characters under index keys and
      its `length`; every other property reads as `undefined`. */
  function Property(p: Primitive, key: string): Primitive
  {
    match p
    case PStr(s) =>
      if key == "length" then PNum(|s|)
      else if IsIndexKey(key) && DecimalValue(key) < |s| then PStr([s[DecimalValue(key)]])
      else Undefined
    case PNum(_) => Undefined
    case Undefined => Undefined
  }

  /** The remaining steps of `setDeep` on a primitive cursor finish without a
      TypeError: every step reads a property of the cursor, which fails on
      `undefined`; a write onto the primitive is dropped; and before the last
      key the cursor moves on to the property read. */
  predicate Completes(p: Primitive, parts: seq<string>)
    decreases |parts|
  {
    |parts| == 0 || (!p.Undefined? && (|parts| == 1 || Completes(Property(p, parts[0]), parts[1..])))
  }

  // ---------------------------------------------------------------- setDeep

  /** The effect of `setDeep(node, parts, value)` on `node`, by recursion on the
      path: the new tree, or `None` when the call throws a TypeError. */
  function SetPath(node: Tree, parts: seq<string>, value: Tree): (r: Option<Tree>)
    ensures r.Some? ==> r.value.Obj? == node.Obj?
    decreases |parts|
  {
    if |parts| == 0 then Some(node)
    else if node.Str? then (if Completes(PStr(node.s), parts) then Some(node) else None)
    else if |parts| == 1 then Some(Obj(node.fields[parts[0] := value]))
    else
      match SetPath(ChildOrFresh(node.fields, parts[0]), parts[1..], value)
      case None => None
      case Some(child) => Some(Obj(node.fields[parts[0] := child]))
  }

  // ---------------------------------------------------------------- the loop

  /** An object whose member `key` is the hole the cursor went down through. */
  datatype Frame = Frame(fields: map<string, Tree>, key: string)

  /** Fills the innermost hole of `context` with `t` and closes the frames outwards;
      `context[0]` is the root object. */
  function Plug(context: seq<Frame>, t: Tree): Tree
    decreases |context|
  {
    if |context| == 0 then t
    else
      var f := context[|context| - 1];
      Plug(context[..|context| - 1], Obj(f.fields[f.key := t]))
  }

  /** `Plug` on an outcome; a thrown error stays thrown. */
  function PlugResult(context: seq<Frame>, r: Option<Tree>): Option<Tree>
  {
    match r
    case None => None
    case Some(t) => Some(Plug(context, t))
  }

  /** `setDeep(obj, pathParts, value)`: the loop walks a cursor down the path,
      reusing a truthy member and creating `{}` in place of a missing or falsy one,
      and assigns `value` at the last key. The frames left behind record the
      objects above the cursor, which share its updates in the source. Once the
      cursor holds a primitive, the tree no longer changes. */
  method SetDeep(obj: Tree, pathParts: seq<string>, value: Tree) returns (result: Option<Tree>)
    ensures result == SetPath(obj, pathParts, value)
  {
    var context: seq<Frame> := [];
    var current := obj;
    var detached: Option<Primitive> := None;
    var i := 0;
    while i < |pathParts|
      invariant 0 <= i <= |pathParts|
      invariant detached.None? ==>
        PlugResult(context, SetPath(current, pathParts[i..], value)) == SetPath(obj, pathParts, value)
      invariant detached.Some? ==>
        PlugResult(context, if Completes(detached.value, pathParts[i..]) then Some(current) else None)
          == SetPath(obj, pathParts, value)
    {
      var part := pathParts[i];
      if detached.None? && current.Str? {
        // the cursor holds a string: from here on it walks a primitive
        detached := Some(PStr(current.s));
      }
      if detached.Some? {
        if detached.value.Undefined? {
          // reading or writing a property of `undefined` throws a TypeError
          return None;
        }
        if i < |pathParts| - 1 {
          // the write onto the primitive is dropped; the cursor reads its property
          detached := Some(Property(detached.value, part));
        }
      } else if i == |pathParts| - 1 {
        current := Obj(current.fields[part := value]);
      } else {
        var child := ChildOrFresh(current.fields, part);
        context := context + [Frame(current.fields, part)];
        current := child;
      }
      i := i + 1;
    }
    result := PlugResult(context, Some(current));
  }

  // ---------------------------------------------------------------- properties

  /** `setDeep` can reach the end of `parts`: the root is an object and the path
      never runs through a non-empty string (a missing or empty member is
      replaced by a fresh object, below which everything is reachable). */
  predicate Reaches(node: Tree, parts: seq<string>)
    decreases |parts|
  {
    |parts| == 0 ||
    (node.Obj? &&
      (|parts| == 1 || Reaches(ChildOrFresh(node.fields, parts[0]), parts[1..])))
  }

  /** Below a fresh object every path is reachable. */
  lemma {:induction false} FreshReaches(parts: seq<string>)
    ensures Reaches(Obj(map[]), parts)
    decreases |parts|
  {
    if |parts| > 1 {
      FreshReaches(parts[1..]);
    }
  }

  /** `Reaches` in terms of the tree alone: no proper prefix of the path leads to
      a non-empty string. */
  lemma {:induction false} ReachesIff(node: Tree, parts: seq<string>)
    requires |parts| >= 1
    ensures Reaches(node, parts) <==>
      node.Obj? && forall k :: 1 <= k < |parts| ==> !NonEmptyStringAt(node, parts[..k])
    decreases |parts|
  {
    if node.Obj? && |parts| > 1 {
      var child := ChildOrFresh(node.fields, parts[0]);
      if parts[0] in node.fields && Truthy(node.fields[parts[0]]) {
        if child.Obj? {
          if |parts| > 2 {
            ReachesIff(child, parts[1..]);
          }
          forall k | 1 <= k < |parts|
            ensures NonEmptyStringAt(node, parts[..k]) <==> (k > 1 && NonEmptyStringAt(child, parts[1..][..k - 1]))
          {
            assert parts[..k][0] == parts[0];
            assert parts[..k][1..] == parts[1..][..k - 1];
            assert Lookup(node, parts[..k]) == Lookup(child, parts[1..][..k - 1]);
          }
          if |parts| > 2 {
            assert (forall k :: 1 <= k < |parts| - 1 ==> !NonEmptyStringAt(child, parts[1..][..k])) <==>
                   (forall k :: 1 <= k < |parts| ==> !NonEmptyStringAt(node, parts[..k])) by {
              forall k | 1 <= k < |parts| - 1
                ensures NonEmptyStringAt(child, parts[1..][..k]) == NonEmptyStringAt(node, parts[..k + 1])
              {
                assert parts[..k + 1][1..] == parts[1..][..k];
              }
            }
          }
        } else {
          assert parts[..1][0] == parts[0] && parts[..1][1..] == [];
          assert NonEmptyStringAt(node, parts[..1]);
        }
      } else {
        FreshReaches(parts[1..]);
        forall k | 1 <= k < |parts| ensures !NonEmptyStringAt(node, parts[..k]) {
          assert parts[..k][0] == parts[0] && |parts[..k][1..]| == k - 1;
          if parts[0] in node.fields {
            assert Lookup(node, parts[..k]) == Lookup(node.fields[parts[0]], parts[..k][1..]);
          }
        }
      }
    }
  }

  predicate NonEmptyStringAt(node: Tree, path: seq<string>) {
    var found := Lookup(node, path);
    found.Some? && found.value.Str? && found.value.s != ""
  }

  /** After `setDeep` reaches the end of the path, the value stored there is
      exactly `value`, and everything below it is `value`'s own content. */
  lemma {:induction false} SetPathPlaces(node: Tree, parts: seq<string>, value: Tree, below: seq<string>)
    requires |parts| >= 1 && Reaches(node, parts)
    ensures SetPath(node, parts, value).Some?
    ensures Lookup(SetPath(node, parts, value).value, parts + below) == Lookup(value, below)
    decreases |parts|
  {
    assert (parts + below)[0] == parts[0];
    assert (parts + below)[1..] == parts[1..] + below;
    if |parts| > 1 {
      SetPathPlaces(ChildOrFresh(node.fields, parts[0]), parts[1..], value, below);
    }
  }

  /** When the path runs through a non-empty string, the call either throws or
      changes nothing. */
  lemma {:induction false} SetPathBlocked(node: Tree, parts: seq<string>, value: Tree)
    requires !Reaches(node, parts)
    ensures SetPath(node, parts, value).Some? ==> SetPath(node, parts, value).value == node
    decreases |parts|
  {
    if node.Obj? {
      var child := ChildOrFresh(node.fields, parts[0]);
      SetPathBlocked(child, parts[1..], value);
      assert parts[0] in node.fields && node.fields[parts[0]] == child by {
        if !(parts[0] in node.fields && Truthy(node.fields[parts[0]])) {
          FreshReaches(parts[1..]);
        }
      }
      assert node.fields[parts[0] := child] == node.fields;
    }
  }

  /** When the first `k` keys lead to a non-empty string `s`, the call leaves the
      tree as it was if the primitive walk over the remaining keys completes, and
      throws otherwise. */
  lemma {:induction false} SetPathAtString(node: Tree, parts: seq<string>, value: Tree, k: nat)
    requires 1 <= k < |parts| && NonEmptyStringAt(node, parts[..k])
    ensures SetPath(node, parts, value) ==
      if Completes(PStr(Lookup(node, parts[..k]).value.s), parts[k..]) then Some(node) else None
    decreases k
  {
    var child := node.fields[parts[0]];
    assert parts[..k][0] == parts[0] && parts[..k][1..] == parts[1..][..k - 1];
    assert Lookup(node, parts[..k]) == Lookup(child, parts[1..][..k - 1]);
    assert child == ChildOrFresh(node.fields, parts[0]);
    assert node.fields[parts[0] := child] == node.fields;
    if k > 1 {
      SetPathAtString(child, parts[1..], value, k - 1);
      assert parts[1..][k - 1..] == parts[k..];
    }
  }

  /** A string reached with one key left swallows the write: the tree is unchanged. */
  lemma StringBeforeLastKey(node: Tree, parts: seq<string>, value: Tree)
    requires |parts| >= 2 && NonEmptyStringAt(node, parts[..|parts| - 1])
    ensures SetPath(node, parts, value) == Some(node)
  {
    SetPathAtString(node, parts, value, |parts| - 1);
  }

  /** A string reached with two or more keys left throws when the next key is
      neither an index of the string nor `length`: the cursor becomes
      `undefined`, and the following step reads or writes a property of it. */
  lemma ThrowsBelowString(node: Tree, parts: seq<string>, value: Tree, k: nat)
    requires 1 <= k && k + 2 <= |parts| && NonEmptyStringAt(node, parts[..k])
    requires Property(PStr(Lookup(node, parts[..k]).value.s), parts[k]) == Undefined
    ensures SetPath(node, parts, value) == None
  {
    SetPathAtString(node, parts, value, k);
  }

  /** `q` leaves `p` at some position both have. */
  predicate Diverges(p: seq<string>, q: seq<string>)
    decreases |p|
  {
    |p| > 0 && |q| > 0 && (p[0] != q[0] || Diverges(p[1..], q[1..]))
  }

  /** Everything off the path is untouched: siblings along the way survive. */
  lemma {:induction false} SetPathFrame(node: Tree, parts: seq<string>, value: Tree, q: seq<string>)
    requires Diverges(parts, q)
    ensures SetPath(node, parts, value).Some? ==> Lookup(SetPath(node, parts, value).value, q) == Lookup(node, q)
    decreases |parts|
  {
    if node.Obj? {
      if parts[0] == q[0] && |parts| > 1 {
        var child := ChildOrFresh(node.fields, parts[0]);
        SetPathFrame(child, parts[1..], value, q[1..]);
        if !(parts[0] in node.fields && Truthy(node.fields[parts[0]])) {
          FreshMissesDivergent(parts[1..], value, q[1..]);
          // the replaced member was absent or the empty string: nothing lies below it
        }
      }
    }
  }

  /** Writing into a fresh object creates nothing a divergent path could reach. */
  lemma {:induction false} FreshMissesDivergent(parts: seq<string>, value: Tree, q: seq<string>)
    requires Diverges(parts, q)
    ensures SetPath(Obj(map[]), parts, value).Some? ==> Lookup(SetPath(Obj(map[]), parts, value).value, q) == None
    decreases |parts|
  {
    if parts[0] == q[0] && |parts| > 1 {
      FreshMissesDivergent(parts[1..], value, q[1..]);
    }
  }

  /** The later of two writes to the same path wins, and the containers the first
      one created are the ones the second would have created. */
  lemma {:induction false} SetPathOverwrite(node: Tree, parts: seq<string>, v1: Tree, v2: Tree)
    requires SetPath(node, parts, v1).Some?
    ensures SetPath(SetPath(node, parts, v1).value, parts, v2) == SetPath(node, parts, v2)
    decreases |parts|
  {
    if |parts| > 1 && node.Obj? {
      var child := ChildOrFresh(node.fields, parts[0]);
      var mid := SetPath(node, parts, v1).value;
      var newChild := SetPath(child, parts[1..], v1).value;
      SetPathOverwrite(child, parts[1..], v1, v2);
      assert ChildOrFresh(mid.fields, parts[0]) == newChild;
      var again := SetPath(child, parts[1..], v2);
      if again.Some? {
        assert mid.fields[parts[0] := again.value] == node.fields[parts[0] := again.value];
      }
    } else if |parts| == 1 && node.Obj? {
      assert node.fields[parts[0] := v1][parts[0] := v2] == node.fields[parts[0] := v2];
    }
  }

  /** `setDeep` is idempotent for the same path and value. */
  lemma SetPathIdempotent(node: Tree, parts: seq<string>, value: Tree)
    requires SetPath(node, parts, value).Some?
    ensures SetPath(SetPath(node, parts, value).value, parts, value) == SetPath(node, parts, value)
  {
    SetPathOverwrite(node, parts, value, value);
  }

  /** A shorter name written after a longer one replaces the whole container. */
  lemma ContainerThenLeaf(root: map<string, Tree>, a: string, b: string, leaf: Tree, inner: Tree)
    ensures SetPath(Obj(root), [a, b], inner).Some?
    ensures SetPath(SetPath(Obj(root), [a, b], inner).value, [a], leaf) == Some(Obj(root[a := leaf]))
  {
    var child := ChildOrFresh(root, a);
    assert [a, b][1..] == [b];
    var newChild := SetPath(child, [b], inner).value;
    assert SetPath(Obj(root), [a, b], inner) == Some(Obj(root[a := newChild]));
    assert root[a := newChild][a := leaf] == root[a := leaf];
  }

  /** A longer name written after a shorter one lands inside the earlier leaf
      object, which keeps its own members. */
  lemma LeafThenChild(root: map<string, Tree>, a: string, b: string, leaf: map<string, Tree>, inner: Tree)
    ensures SetPath(Obj(root), [a], Obj(leaf)) == Some(Obj(root[a := Obj(leaf)]))
    ensures SetPath(Obj(root[a := Obj(leaf)]), [a, b], inner) == Some(Obj(root[a := Obj(leaf[b := inner])]))
  {
    assert [a, b][1..] == [b];
    var r := root[a := Obj(leaf)];
    assert ChildOrFresh(r, a) == Obj(leaf);
    assert SetPath(Obj(leaf), [b], inner) == Some(Obj(leaf[b := inner]));
    assert SetPath(Obj(r), [a, b], inner) == Some(Obj(r[a := Obj(leaf[b := inner])]));
    assert r[a := Obj(leaf[b := inner])] == root[a := Obj(leaf[b := inner])];
  }
}
