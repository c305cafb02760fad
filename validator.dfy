/**
 * scripts/validate-tokens.js: walks a parsed `tokens.json`, counts the token
 * leaves, checks three fields of each, and passes iff there is at least one
 * leaf and no error.
 *
 * Objects are maps, so the order in which `Object.keys` visits the members of an
 * object is not modelled: the errors of a whole tree are specified as a multiset,
 * and the errors of one leaf as an exact sequence.
 */
module Validator {
  import opened Text
  import PathBuilder
  import Extractor

  /** A value produced by `JSON.parse`. */
  datatype Json =
    | Null
    | Bool(b: bool)
    | Num(n: int)
    | Str(s: string)
    | Arr(items: seq<Json>)
    | Obj(fields: map<string, Json>)

  /** `ALLOWED_TYPES`. */
  const AllowedTypes: set<string> := {
    "color", "spacing", "typography", "radius", "border", "elevation",
    "motion", "opacity", "breakpoint", "semantic", "unknown"
  }

  /** `isLeaf`: a non-null, non-array object with own keys `value`, `type` and
      `originalVariable`; other keys may be present as well. */
  predicate IsLeaf(node: Json) {
    node.Obj? && "value" in node.fields && "type" in node.fields && "originalVariable" in node.fields
  }

  /** One entry of the error list; `path` is the leaf's keys joined by `.`. */
  datatype ValidationError =
    | InvalidValue(path: string)
    | InvalidType(found: Json, path: string)
    | InvalidOriginalVariable(path: string)

  /** The position of each check within `validateLeaf`. */
  function Rank(e: ValidationError): nat {
    match e
    case InvalidValue(_) => 0
    case InvalidType(_, _) => 1
    case InvalidOriginalVariable(_) => 2
  }

  predicate ValueOk(v: Json) {
    v.Str? && |v.s| > 0
  }

  predicate TypeOk(t: Json) {
    t.Str? && t.s in AllowedTypes
  }

  predicate OriginalVariableOk(o: Json) {
    o.Str? && StartsWith(o.s, "--")
  }

  /** A leaf whose three checked fields are all acceptable. */
  predicate LeafOk(node: Json)
    requires IsLeaf(node)
  {
    ValueOk(node.fields["value"]) && TypeOk(node.fields["type"]) &&
    OriginalVariableOk(node.fields["originalVariable"])
  }

  /** What `validateLeaf` appends for the leaf at `path`: one error per failing
      check, in the order value, type, originalVariable. */
  function LeafErrors(node: Json, path: seq<string>): (r: seq<ValidationError>)
    requires IsLeaf(node)
    ensures |r| <= 3
    ensures forall i, j :: 0 <= i < j < |r| ==> Rank(r[i]) < Rank(r[j])
    ensures forall e :: e in r ==> e.path == Join(path, '.')
    ensures InvalidValue(Join(path, '.')) in r <==> !ValueOk(node.fields["value"])
    ensures InvalidType(node.fields["type"], Join(path, '.')) in r <==> !TypeOk(node.fields["type"])
    ensures forall e :: e in r && e.InvalidType? ==> e.found == node.fields["type"]
    ensures InvalidOriginalVariable(Join(path, '.')) in r <==> !OriginalVariableOk(node.fields["originalVariable"])
    ensures r == [] <==> LeafOk(node)
  {
    var p := Join(path, '.');
    var f := node.fields;
    (if ValueOk(f["value"]) then [] else [InvalidValue(p)]) +
    (if TypeOk(f["type"]) then [] else [InvalidType(f["type"], p)]) +
    (if OriginalVariableOk(f["originalVariable"]) then [] else [InvalidOriginalVariable(p)])
  }

  /** The object key under which `Object.keys` lists array index `i`. */
  function IndexKey(i: nat): string
    decreases i
  {
    if i < 10 then [('0' as int + i) as char]
    else IndexKey(i / 10) + [('0' as int + i % 10) as char]
  }

  // ---------------------------------------------------------------- specification

  /** What a traversal adds: leaves counted and errors collected. */
  datatype Tally = Tally(leaves: nat, errors: multiset<ValidationError>)

  const Zero := Tally(0, multiset{})

  function Plus(a: Tally, b: Tally): Tally {
    Tally(a.leaves + b.leaves, a.errors + b.errors)
  }

  /** At most three errors per leaf counted, hence none without a leaf. */
  predicate Bounded(t: Tally) {
    |t.errors| <= 3 * t.leaves
  }

  /** What `traverse(node, path, errors, stats)` adds to `stats.leaves` and to
      `errors`: a leaf contributes itself and is not descended into; objects and
      arrays contribute their members; other values contribute nothing. */
  ghost function TreeTally(node: Json, path: seq<string>): (t: Tally)
    ensures Bounded(t)
    decreases node, 1
  {
    if IsLeaf(node) then Tally(1, multiset(LeafErrors(node, path)))
    else
      match node
      case Obj(fields) => SumKeys(FieldTallies(node, path), fields.Keys)
      case Arr(items) => SumSeq(ItemTallies(node, path))
      case _ => Zero
  }

  /** The tally of each member of object `node`. */
  ghost function FieldTallies(node: Json, path: seq<string>): (m: map<string, Tally>)
    requires node.Obj?
    ensures m.Keys == node.fields.Keys
    ensures forall k :: k in m ==> Bounded(m[k])
    decreases node, 0
  {
    map k | k in node.fields :: TreeTally(node.fields[k], path + [k])
  }

  /** The tally of each item of array `node`, visited under its index key. */
  ghost function ItemTallies(node: Json, path: seq<string>): (ts: seq<Tally>)
    requires node.Arr?
    ensures |ts| == |node.items|
    ensures forall i :: 0 <= i < |ts| ==> Bounded(ts[i])
    decreases node, 0
  {
    seq(|node.items|, i requires 0 <= i < |node.items| => TreeTally(node.items[i], path + [IndexKey(i)]))
  }

  /** The tallies under the keys `ks`, added up in some order. */
  ghost function SumKeys(m: map<string, Tally>, ks: set<string>): (t: Tally)
    requires ks <= m.Keys
    ensures (forall k :: k in ks ==> Bounded(m[k])) ==> Bounded(t)
    decreases ks
  {
    if ks == {} then Zero
    else
      var k :| k in ks;
      Plus(m[k], SumKeys(m, ks - {k}))
  }

  /** The tallies in sequence order. */
  function SumSeq(ts: seq<Tally>): (t: Tally)
    ensures (forall i :: 0 <= i < |ts| ==> Bounded(ts[i])) ==> Bounded(t)
  {
    if |ts| == 0 then Zero else Plus(SumSeq(ts[..|ts| - 1]), ts[|ts| - 1])
  }

  /** The members of an object may be visited in any order. */
  lemma {:induction false} SumKeysSplit(m: map<string, Tally>, ks: set<string>, k: string)
    requires ks <= m.Keys && k in ks
    ensures SumKeys(m, ks) == Plus(m[k], SumKeys(m, ks - {k}))
    decreases ks
  {
    var j :| j in ks && SumKeys(m, ks) == Plus(m[j], SumKeys(m, ks - {j}));
    if j != k {
      SumKeysSplit(m, ks - {j}, k);
      SumKeysSplit(m, ks - {k}, j);
      assert ks - {j} - {k} == ks - {k} - {j};
      var rest := SumKeys(m, ks - {j} - {k});
      assert SumKeys(m, ks) == Plus(m[j], Plus(m[k], rest));
      assert SumKeys(m, ks - {k}) == Plus(m[j], rest);
      assert m[j].errors + (m[k].errors + rest.errors) == m[k].errors + (m[j].errors + rest.errors);
    }
  }

  // ---------------------------------------------------------------- the walk

  /** The mutable state `traverse` threads through the recursion: the `errors`
      array and the `stats.leaves` counter. */
  class Validation {
    var errors: seq<ValidationError>
    var leaves: nat

    constructor ()
      ensures errors == [] && leaves == 0
    {
      errors := [];
      leaves := 0;
    }

    /** `validateLeaf(node, pathStr, errors)`. */
    method ValidateLeaf(node: Json, path: seq<string>)
      requires IsLeaf(node)
      modifies this
      ensures errors == old(errors) + LeafErrors(node, path)
      ensures leaves == old(leaves)
    {
      var pathStr := Join(path, '.');
      var f := node.fields;
      if !ValueOk(f["value"]) {
        errors := errors + [InvalidValue(pathStr)];
      }
      if !TypeOk(f["type"]) {
        errors := errors + [InvalidType(f["type"], pathStr)];
      }
      if !OriginalVariableOk(f["originalVariable"]) {
        errors := errors + [InvalidOriginalVariable(pathStr)];
      }
    }

    /** `traverse(node, path, errors, stats)`: appends the errors of the subtree
        and adds its leaves to the counter. */
    method Traverse(node: Json, path: seq<string>)
      modifies this
      ensures leaves == old(leaves) + TreeTally(node, path).leaves
      ensures |old(errors)| <= |errors| && errors[..|old(errors)|] == old(errors)
      ensures multiset(errors[|old(errors)|..]) == TreeTally(node, path).errors
      decreases node, 1
    {
      if IsLeaf(node) {
        leaves := leaves + 1;
        ValidateLeaf(node, path);
        assert errors[|old(errors)|..] == LeafErrors(node, path);
        return;
      }
      match node {
        case Obj(_) => TraverseFields(node, path);
        case Arr(_) => TraverseItems(node, path);
        case _ =>
      }
    }

    /** The `for (const key of Object.keys(obj))` loop of `traverse` on an object
        that is not a leaf, visiting the keys in some order. */
    method TraverseFields(node: Json, path: seq<string>)
      requires node.Obj? && !IsLeaf(node)
      modifies this
      ensures leaves == old(leaves) + TreeTally(node, path).leaves
      ensures |old(errors)| <= |errors| && errors[..|old(errors)|] == old(errors)
      ensures multiset(errors[|old(errors)|..]) == TreeTally(node, path).errors
      decreases node, 0
    {
      ghost var m := FieldTallies(node, path);
      var rest := node.fields.Keys;
      while rest != {}
        invariant rest <= node.fields.Keys
        invariant |old(errors)| <= |errors| && errors[..|old(errors)|] == old(errors)
        invariant leaves + SumKeys(m, rest).leaves == old(leaves) + SumKeys(m, node.fields.Keys).leaves
        invariant multiset(errors[|old(errors)|..]) + SumKeys(m, rest).errors == SumKeys(m, node.fields.Keys).errors
        decreases rest
      {
        var key :| key in rest;
        SumKeysSplit(m, rest, key);
        ghost var before := errors;
        Traverse(node.fields[key], path + [key]);
        Extends(old(errors), before, errors);
        rest := rest - {key};
      }
      assert TreeTally(node, path) == SumKeys(m, node.fields.Keys);
    }

    /** The same loop on an array: `Object.keys` lists the indices in order,
        as decimal strings. */
    method TraverseItems(node: Json, path: seq<string>)
      requires node.Arr?
      modifies this
      ensures leaves == old(leaves) + TreeTally(node, path).leaves
      ensures |old(errors)| <= |errors| && errors[..|old(errors)|] == old(errors)
      ensures multiset(errors[|old(errors)|..]) == TreeTally(node, path).errors
      decreases node, 0
    {
      ghost var ts := ItemTallies(node, path);
      for i := 0 to |node.items|
        invariant |old(errors)| <= |errors| && errors[..|old(errors)|] == old(errors)
        invariant leaves == old(leaves) + SumSeq(ts[..i]).leaves
        invariant multiset(errors[|old(errors)|..]) == SumSeq(ts[..i]).errors
      {
        ghost var before := errors;
        Traverse(node.items[i], path + [IndexKey(i)]);
        assert ts[i] == TreeTally(node.items[i], path + [IndexKey(i)]);
        ItemStep(old(errors), before, errors, ts, i);
      }
      assert ts[..|node.items|] == ts;
      assert TreeTally(node, path) == SumSeq(ts);
    }
  }

  /** One item of the array loop: the errors after `base` and the sum of the
      tallies grow by the item's tally. */
  lemma ItemStep(base: seq<ValidationError>, mid: seq<ValidationError>, last: seq<ValidationError>, ts: seq<Tally>, i: nat)
    requires i < |ts|
    requires |base| <= |mid| && mid[..|base|] == base && multiset(mid[|base|..]) == SumSeq(ts[..i]).errors
    requires |mid| <= |last| && last[..|mid|] == mid && multiset(last[|mid|..]) == ts[i].errors
    ensures |base| <= |last| && last[..|base|] == base
    ensures multiset(last[|base|..]) == SumSeq(ts[..i + 1]).errors
    ensures SumSeq(ts[..i + 1]).leaves == SumSeq(ts[..i]).leaves + ts[i].leaves
  {
    Extends(base, mid, last);
    assert ts[..i + 1][..i] == ts[..i];
    assert SumSeq(ts[..i + 1]) == Plus(SumSeq(ts[..i]), ts[i]);
  }

  /** Appending to a list that extends `base` keeps extending it, and the part
      after `base` grows by what was appended. */
  lemma Extends(base: seq<ValidationError>, mid: seq<ValidationError>, last: seq<ValidationError>)
    requires |base| <= |mid| && mid[..|base|] == base
    requires |mid| <= |last| && last[..|mid|] == mid
    ensures |base| <= |last| && last[..|base|] == base
    ensures multiset(last[|base|..]) == multiset(mid[|base|..]) + multiset(last[|mid|..])
  {
    assert last[|base|..] == mid[|base|..] + last[|mid|..];
  }

  // ---------------------------------------------------------------- the verdict

  /** `tokens.json` as `main` finds it. */
  datatype TokensFile = Missing | Unparseable | Parsed(json: Json)

  /** How `main` ends: exit status 0 only for `Valid`. */
  datatype Verdict =
    | NotFound
    | ParseFailure
    | NoLeaves
    | Invalid(errors: seq<ValidationError>)
    | Valid(leaves: nat)

  /** `main` without the console: no leaves fails first, then any error fails,
      otherwise the file validates with its leaf count. */
  method ValidateTokens(file: TokensFile) returns (verdict: Verdict)
    ensures file.Missing? ==> verdict == NotFound
    ensures file.Unparseable? ==> verdict == ParseFailure
    ensures file.Parsed? ==>
      var t := TreeTally(file.json, []);
      && (verdict == NoLeaves <==> t.leaves == 0)
      && (verdict.Invalid? <==> t.leaves > 0 && t.errors != multiset{})
      && (verdict.Invalid? ==> multiset(verdict.errors) == t.errors)
      && (verdict.Valid? <==> t.leaves > 0 && AllLeavesValid(file.json))
      && (verdict.Valid? ==> verdict.leaves == t.leaves)
  {
    match file {
      case Missing => return NotFound;
      case Unparseable => return ParseFailure;
      case Parsed(json) =>
        var v := new Validation();
        v.Traverse(json, []);
        assert v.errors[..0] == [] && v.errors[0..] == v.errors;
        NoErrorsIff(json, []);
        if v.leaves == 0 {
          verdict := NoLeaves;
        } else if |v.errors| > 0 {
          verdict := Invalid(v.errors);
        } else {
          verdict := Valid(v.leaves);
        }
    }
  }

  // ---------------------------------------------------------------- properties

  /** Reference definition: every leaf `traverse` reaches passes all three checks. */
  ghost predicate AllLeavesValid(node: Json)
    decreases node
  {
    if IsLeaf(node) then LeafOk(node)
    else
      match node
      case Obj(fields) => forall k :: k in fields ==> AllLeavesValid(fields[k])
      case Arr(items) => forall i :: 0 <= i < |items| ==> AllLeavesValid(items[i])
      case _ => true
  }

  /** The traversal collects no error iff every leaf it reaches is valid. */
  lemma {:induction false} NoErrorsIff(node: Json, path: seq<string>)
    ensures TreeTally(node, path).errors == multiset{} <==> AllLeavesValid(node)
    decreases node
  {
    if !IsLeaf(node) {
      match node
      case Obj(fields) =>
        var m := FieldTallies(node, path);
        forall k | k in fields
          ensures m[k].errors == multiset{} <==> AllLeavesValid(fields[k])
        {
          NoErrorsIff(fields[k], path + [k]);
        }
        SumKeysNoErrors(m, fields.Keys);
      case Arr(items) =>
        var ts := ItemTallies(node, path);
        forall i | 0 <= i < |items|
          ensures ts[i].errors == multiset{} <==> AllLeavesValid(items[i])
        {
          NoErrorsIff(items[i], path + [IndexKey(i)]);
        }
        SumSeqNoErrors(ts);
      case _ =>
    }
  }

  lemma {:induction false} SumKeysNoErrors(m: map<string, Tally>, ks: set<string>)
    requires ks <= m.Keys
    ensures SumKeys(m, ks).errors == multiset{} <==> forall k :: k in ks ==> m[k].errors == multiset{}
    decreases ks
  {
    if ks != {} {
      var k :| k in ks;
      SumKeysSplit(m, ks, k);
      SumKeysNoErrors(m, ks - {k});
    }
  }

  lemma {:induction false} SumSeqNoErrors(ts: seq<Tally>)
    ensures SumSeq(ts).errors == multiset{} <==> forall i :: 0 <= i < |ts| ==> ts[i].errors == multiset{}
  {
    if |ts| > 0 {
      SumSeqNoErrors(ts[..|ts| - 1]);
    }
  }

  /** Members attached to a leaf are never visited: adding one changes nothing. */
  lemma LeafChildrenIgnored(fields: map<string, Json>, k: string, child: Json, path: seq<string>)
    requires IsLeaf(Obj(fields)) && k != "value" && k != "type" && k != "originalVariable"
    ensures TreeTally(Obj(fields[k := child]), path) == TreeTally(Obj(fields), path)
  {
    assert LeafErrors(Obj(fields[k := child]), path) == LeafErrors(Obj(fields), path);
  }

  // ---------------------------------------------------------------- generated leaves

  /** A generated token tree as parsed back from `tokens.json`. */
  function ToJson(t: PathBuilder.Tree): Json
    decreases t
  {
    match t
    case Str(s) => Str(s)
    case Obj(fields) => Obj(map k | k in fields :: ToJson(fields[k]))
  }

  /** A leaf written by the generator is a leaf for the validator, and its only
      possible error is an empty value (from a declaration such as `--a: ;`). */
  lemma GeneratedLeafErrors(d: Extractor.Declaration, path: seq<string>)
    ensures IsLeaf(ToJson(Extractor.TokenLeaf(d)))
    ensures LeafErrors(ToJson(Extractor.TokenLeaf(d)), path) ==
            if d.value == "" then [InvalidValue(Join(path, '.'))] else []
  {
    var leaf := Extractor.TokenLeaf(d);
    var node := ToJson(leaf);
    assert leaf.fields["value"] == PathBuilder.Str(d.value);
    assert leaf.fields["type"] == PathBuilder.Str("color");
    assert leaf.fields["originalVariable"] == PathBuilder.Str("--" + d.name);
    assert node == Obj(map k | k in leaf.fields :: ToJson(leaf.fields[k]));
    assert node.fields["value"] == Str(d.value);
    assert node.fields["type"] == Str("color");
    assert node.fields["originalVariable"] == Str("--" + d.name);
    assert StartsWith("--" + d.name, "--");
  }
}
