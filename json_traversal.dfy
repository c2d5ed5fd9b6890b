/** The JSON leaf walker of `src/utils/json-traversal.ts`.

    `extractStrings` flattens a JSON value into its string leaves, each with
    the path of keys that leads to it; `reconstructJson` deep-clones a value
    and writes replacement strings back at those paths.

    A JSON value is a tagged datatype. An object is a sequence of keys with a
    parallel sequence of values, in the object's enumeration order; an array
    is addressed, as in JavaScript, by the decimal strings "0", "1", ... */
module JsonTraversal {
  import opened Wrappers
  import opened JsText

  datatype Json =
    | Null
    | Bool(b: bool)
    | Num(n: real)
    | Str(s: string)
    | Arr(items: seq<Json>)
    | Obj(keys: seq<string>, values: seq<Json>)

  /** `StringNode` of the source: where a string leaf is and what it holds. */
  datatype StringNode = StringNode(path: seq<string>, value: string)

  /** JavaScript arrays hold at most 2^32 - 1 elements, so an array index is
      a canonical decimal of at most 2^32 - 2. */
  const MaxArrayLength: nat := 4294967295

  predicate Distinct(ks: seq<string>)
  {
    forall i, j :: 0 <= i < j < |ks| ==> ks[i] != ks[j]
  }

  /** What every JSON value the program handles satisfies: an object pairs
      each key with one value, has no key twice and lists its keys in
      enumeration order; arrays fit JavaScript. */
  predicate WellFormed(v: Json)
  {
    match v
    case Arr(items) =>
      && |items| <= MaxArrayLength
      && forall i :: 0 <= i < |items| ==> WellFormed(items[i])
    case Obj(keys, values) =>
      && |keys| == |values|
      && Distinct(keys)
      && EnumerationOrdered(keys)
      && forall i :: 0 <= i < |values| ==> WellFormed(values[i])
    case _ => true
  }

  /** The keys `extractStrings` appends to the path for each child. */
  function Keys(v: Json): seq<string>
  {
    match v
    case Arr(items) => IndexKeys(|items|)
    case Obj(keys, _) => keys
    case _ => []
  }

  function Children(v: Json): seq<Json>
  {
    match v
    case Arr(items) => items
    case Obj(_, values) => values
    case _ => []
  }

  predicate IsArrayIndex(k: string)
  {
    IsIndexKey(k) && DigitsValue(k) < MaxArrayLength
  }

  /** JavaScript's own-property order (OrdinaryOwnPropertyKeys): the keys
      that are array indices come first, in ascending numeric order; the
      other keys follow in the order they were added. */
  predicate EnumerationOrdered(keys: seq<string>)
  {
    forall i, j :: 0 <= i < j < |keys| && IsArrayIndex(keys[j]) ==>
      IsArrayIndex(keys[i]) && DigitsValue(keys[i]) < DigitsValue(keys[j])
  }

  /** Where a new array-index key of value `n` enters an object's keys:
      after the leading index keys below `n`, before everything else. */
  function IndexSlot(keys: seq<string>, n: nat): (p: nat)
    ensures p <= |keys|
    ensures forall j :: 0 <= j < p ==> IsArrayIndex(keys[j]) && DigitsValue(keys[j]) < n
    ensures p < |keys| ==> !IsArrayIndex(keys[p]) || DigitsValue(keys[p]) >= n
  {
    if keys == [] || !IsArrayIndex(keys[0]) || DigitsValue(keys[0]) >= n then 0
    else 1 + IndexSlot(keys[1..], n)
  }

  /** Two array indices with the same value are the same key. */
  lemma ArrayIndexInjective(a: string, b: string)
    requires IsArrayIndex(a) && IsArrayIndex(b)
    ensures DigitsValue(a) == DigitsValue(b) ==> a == b
  {
  }

  /** A new index key inserted at its slot keeps the keys distinct and in
      enumeration order. */
  lemma InsertIndexKey(keys: seq<string>, key: string)
    requires Distinct(keys) && EnumerationOrdered(keys) && IsArrayIndex(key) && key !in keys
    ensures var p := IndexSlot(keys, DigitsValue(key));
            var ks := keys[..p] + [key] + keys[p..];
            Distinct(ks) && EnumerationOrdered(ks)
  {
    var p := IndexSlot(keys, DigitsValue(key));
    InsertedKeys(keys, key, p);
    InsertOrdered(keys, key, p);
  }

  /** Where each old key sits after `key` enters at `p`. */
  lemma InsertedKeys(keys: seq<string>, key: string, p: nat)
    requires p <= |keys| && key !in keys && Distinct(keys)
    ensures var ks := keys[..p] + [key] + keys[p..];
            && |ks| == |keys| + 1 && ks[p] == key
            && (forall i :: 0 <= i < p ==> ks[i] == keys[i])
            && (forall i :: p < i < |ks| ==> ks[i] == keys[i - 1])
            && Distinct(ks)
  {
    var ks := keys[..p] + [key] + keys[p..];
    assert forall i :: 0 <= i < p ==> ks[i] == keys[i];
    assert forall i :: p < i < |ks| ==> ks[i] == keys[i - 1];
    forall i, j | 0 <= i < j < |ks| ensures ks[i] != ks[j] {
      if i == p { assert ks[j] in keys; } else if j == p { assert ks[i] in keys; }
    }
  }

  lemma InsertOrdered(keys: seq<string>, key: string, p: nat)
    requires EnumerationOrdered(keys) && IsArrayIndex(key) && key !in keys
    requires p == IndexSlot(keys, DigitsValue(key))
    requires var ks := keys[..p] + [key] + keys[p..];
             && |ks| == |keys| + 1 && ks[p] == key
             && (forall i :: 0 <= i < p ==> ks[i] == keys[i])
             && (forall i :: p < i < |ks| ==> ks[i] == keys[i - 1])
    ensures EnumerationOrdered(keys[..p] + [key] + keys[p..])
  {
    var n := DigitsValue(key);
    var ks := keys[..p] + [key] + keys[p..];
    if p < |keys| && IsArrayIndex(keys[p]) {
      assert keys[p] in keys;
      ArrayIndexInjective(keys[p], key);
    }
    forall i, j | 0 <= i < j < |ks| && IsArrayIndex(ks[j])
      ensures IsArrayIndex(ks[i]) && DigitsValue(ks[i]) < DigitsValue(ks[j])
    {
      if j < p {
        assert ks[i] == keys[i] && ks[j] == keys[j];
      } else if j == p {
        assert ks[i] == keys[i];
      } else if i < p {
        assert ks[i] == keys[i] && ks[j] == keys[j - 1];
      } else if i == p {
        assert ks[j] == keys[j - 1];
        if p < j - 1 {
          assert IsArrayIndex(keys[p]) && DigitsValue(keys[p]) < DigitsValue(keys[j - 1]);
        }
      } else {
        assert ks[i] == keys[i - 1] && ks[j] == keys[j - 1];
      }
    }
  }

  /** First position of `k` in `ks`. */
  function IndexOf(ks: seq<string>, k: string): (r: Option<nat>)
    ensures r.Some? ==> r.value < |ks| && ks[r.value] == k
    ensures r.Some? ==> forall j :: 0 <= j < r.value ==> ks[j] != k
    ensures r.None? ==> k !in ks
  {
    if ks == [] then None
    else if ks[0] == k then Some(0)
    else match IndexOf(ks[1..], k)
      case None => None
      case Some(i) => Some(i + 1)
  }

  /** Which child `current[key]` reads, if any: an own key of an object, or a
      canonical index below an array's length. */
  function ChildIndex(v: Json, key: string): (r: Option<nat>)
    ensures r.Some? ==> r.value < |Children(v)|
  {
    match v
    case Arr(items) =>
      if IsArrayIndex(key) && DigitsValue(key) < |items| then Some(DigitsValue(key)) else None
    case Obj(keys, values) =>
      (match IndexOf(keys, key)
       case Some(i) => if i < |values| then Some(i) else None
       case None => None)
    case _ => None
  }

  /** The value a path of keys leads to, if it resolves. */
  function Get(v: Json, q: seq<string>): Option<Json>
    decreases |q|
  {
    if q == [] then Some(v)
    else match ChildIndex(v, q[0])
      case None => None
      case Some(i) => Get(Children(v)[i], q[1..])
  }

  // ---------------------------------------------------------------------
  // extractStrings (src/utils/json-traversal.ts:9-27)
  // ---------------------------------------------------------------------

  /** The string leaves of `v`, depth first, children in enumeration order,
      each path extending `path`. Numbers, booleans and null give nothing. */
  function ExtractStrings(v: Json, path: seq<string>): (r: seq<StringNode>)
    requires WellFormed(v)
    ensures forall n :: n in r ==> |n.path| >= |path| && n.path[..|path|] == path
    ensures !v.Str? ==> forall n :: n in r ==> |n.path| > |path|
    decreases v, 1
  {
    match v
    case Str(s) => [StringNode(path, s)]
    case Arr(items) => ExtractChildren(IndexKeys(|items|), items, path, 0)
    case Obj(keys, values) => ExtractChildren(keys, values, path, 0)
    case _ => []
  }

  /** The loop of lines 15-17 / 19-23, from child `from` on: each node of
      child j lies under `path + [keys[j]]`. */
  function ExtractChildren(keys: seq<string>, children: seq<Json>, path: seq<string>, from: nat)
    : (r: seq<StringNode>)
    requires |keys| == |children| && from <= |children|
    requires forall i :: 0 <= i < |children| ==> WellFormed(children[i])
    ensures forall n :: n in r ==>
      && |n.path| > |path| && n.path[..|path|] == path
      && exists j :: from <= j < |keys| && n.path[|path|] == keys[j]
    decreases children, 0, |children| - from
  {
    if from == |children| then []
    else
      var head := ExtractStrings(children[from], path + [keys[from]]);
      assert forall n :: n in head ==> n.path[|path|] == keys[from] by {
        forall n | n in head ensures n.path[|path|] == keys[from] {
          assert n.path[..|path| + 1] == path + [keys[from]];
          assert n.path[|path|] == n.path[..|path| + 1][|path|];
        }
      }
      head + ExtractChildren(keys, children, path, from + 1)
  }

  lemma ExtractContainer(v: Json, path: seq<string>)
    requires WellFormed(v) && (v.Arr? || v.Obj?)
    ensures ExtractStrings(v, path) == ExtractChildren(Keys(v), Children(v), path, 0)
  {
  }

  lemma ChildrenWellFormed(v: Json)
    requires WellFormed(v)
    ensures |Keys(v)| == |Children(v)| && Distinct(Keys(v))
    ensures forall i :: 0 <= i < |Children(v)| ==> WellFormed(Children(v)[i])
  {
    if v.Arr? { IndexKeysDistinct(|v.items|); }
  }

  /** Reading child j back through its own key finds child j, and a key that
      resolves is the key the walker used for that child. */
  lemma ChildIndexOfKey(v: Json, j: nat)
    requires WellFormed(v) && j < |Children(v)|
    ensures ChildIndex(v, Keys(v)[j]) == Some(j)
  {
    if v.Arr? {
      IndexKeyOf(j);
    } else {
      var r := IndexOf(v.keys, v.keys[j]);
      assert r.Some?;
    }
  }

  lemma ChildIndexKey(v: Json, k: string)
    requires WellFormed(v) && ChildIndex(v, k).Some?
    ensures Keys(v)[ChildIndex(v, k).value] == k
  {
  }

  /** Node n of a child list comes from exactly the child named by its
      path's next key. */
  lemma {:induction false} ExtractChildrenFrom(keys: seq<string>, children: seq<Json>, path: seq<string>, from: nat, n: StringNode)
    requires |keys| == |children| && from <= |children|
    requires forall i :: 0 <= i < |children| ==> WellFormed(children[i])
    requires n in ExtractChildren(keys, children, path, from)
    ensures exists j :: from <= j < |children| && n in ExtractStrings(children[j], path + [keys[j]])
    decreases |children| - from
  {
    var head := ExtractStrings(children[from], path + [keys[from]]);
    if n !in head {
      ExtractChildrenFrom(keys, children, path, from + 1, n);
    }
  }

  lemma {:induction false} ExtractChildrenHas(keys: seq<string>, children: seq<Json>, path: seq<string>, from: nat, j: nat, n: StringNode)
    requires |keys| == |children| && from <= j < |children|
    requires forall i :: 0 <= i < |children| ==> WellFormed(children[i])
    requires n in ExtractStrings(children[j], path + [keys[j]])
    ensures n in ExtractChildren(keys, children, path, from)
    decreases j - from
  {
    if j > from {
      ExtractChildrenHas(keys, children, path, from + 1, j, n);
    }
  }

  /** Soundness of the walk: every node names a string leaf of `v` and
      carries that leaf's text. */
  lemma {:induction false} ExtractedNodesResolve(v: Json, path: seq<string>, n: StringNode)
    requires WellFormed(v) && n in ExtractStrings(v, path)
    ensures Get(v, n.path[|path|..]) == Some(Str(n.value))
    decreases v
  {
    if v.Arr? || v.Obj? {
      ExtractContainer(v, path);
      ChildrenWellFormed(v);
      var keys, children := Keys(v), Children(v);
      ExtractChildrenFrom(keys, children, path, 0, n);
      var j :| 0 <= j < |children| && n in ExtractStrings(children[j], path + [keys[j]]);
      ExtractedNodesResolve(children[j], path + [keys[j]], n);
      ChildIndexOfKey(v, j);
      var q := n.path[|path|..];
      assert n.path[..|path| + 1] == path + [keys[j]];
      assert q[0] == keys[j] by { assert q[0] == n.path[..|path| + 1][|path|]; }
      assert q[1..] == n.path[|path| + 1..];
    }
  }

  /** Completeness of the walk: every string leaf of `v` is reported once
      its path resolves, with its full path and its text. */
  lemma {:induction false} EveryLeafExtracted(v: Json, path: seq<string>, q: seq<string>, s: string)
    requires WellFormed(v) && Get(v, q) == Some(Str(s))
    ensures StringNode(path + q, s) in ExtractStrings(v, path)
    decreases |q|
  {
    if q == [] {
      assert path + q == path;
    } else {
      var i := ChildIndex(v, q[0]).value;
      ChildrenWellFormed(v);
      EveryLeafExtracted(Children(v)[i], path + [q[0]], q[1..], s);
      LeafInChild(v, path, q, s, i);
    }
  }

  /** A node the walk reports for child i, whose key is the path's next
      key, is reported for the container too. */
  lemma LeafInChild(v: Json, path: seq<string>, q: seq<string>, s: string, i: nat)
    requires WellFormed(v) && |q| > 0 && ChildIndex(v, q[0]) == Some(i)
    requires StringNode(path + [q[0]] + q[1..], s) in ExtractStrings(Children(v)[i], path + [q[0]])
    ensures StringNode(path + q, s) in ExtractStrings(v, path)
  {
    ChildrenWellFormed(v);
    ChildIndexKey(v, q[0]);
    var n := StringNode(path + q, s);
    assert path + [q[0]] + q[1..] == path + q;
    assert n in ExtractStrings(Children(v)[i], path + [Keys(v)[i]]);
    ExtractChildrenHas(Keys(v), Children(v), path, 0, i, n);
    ExtractContainer(v, path);
  }

  predicate UniquePaths(ns: seq<StringNode>)
  {
    forall i, j :: 0 <= i < j < |ns| ==> ns[i].path != ns[j].path
  }

  lemma {:induction false} ExtractChildrenUnique(keys: seq<string>, children: seq<Json>, path: seq<string>, from: nat)
    requires |keys| == |children| && from <= |children| && Distinct(keys)
    requires forall i :: 0 <= i < |children| ==> WellFormed(children[i])
    ensures UniquePaths(ExtractChildren(keys, children, path, from))
    decreases children, 0, |children| - from
  {
    if from < |children| {
      var head := ExtractStrings(children[from], path + [keys[from]]);
      var tail := ExtractChildren(keys, children, path, from + 1);
      ExtractPathsUnique(children[from], path + [keys[from]]);
      ExtractChildrenUnique(keys, children, path, from + 1);
      forall a, b | 0 <= a < |head| && 0 <= b < |tail| ensures head[a].path != tail[b].path {
        assert head[a] in head && tail[b] in tail;
        assert head[a].path[..|path| + 1] == path + [keys[from]];
        assert head[a].path[|path|] == keys[from] by {
          assert head[a].path[|path|] == head[a].path[..|path| + 1][|path|];
        }
      }
      var r := head + tail;
      forall a, b | 0 <= a < b < |r| ensures r[a].path != r[b].path {
        if b < |head| {
        } else if a >= |head| {
          assert r[a] == tail[a - |head|] && r[b] == tail[b - |head|];
        } else {
          assert r[a] == head[a] && r[b] == tail[b - |head|];
        }
      }
    }
  }

  /** No two extracted nodes share a path (keys of an object are distinct,
      array index strings are distinct). */
  lemma {:induction false} ExtractPathsUnique(v: Json, path: seq<string>)
    requires WellFormed(v)
    ensures UniquePaths(ExtractStrings(v, path))
    decreases v, 1
  {
    ChildrenWellFormed(v);
    match v
    case Arr(items) => ExtractChildrenUnique(IndexKeys(|items|), items, path, 0);
    case Obj(keys, values) => ExtractChildrenUnique(keys, values, path, 0);
    case _ =>
  }

  /** Flattening of a list of node lists, first to last. */
  function Concat(parts: seq<seq<StringNode>>): seq<StringNode>
  {
    if parts == [] then [] else parts[0] + Concat(parts[1..])
  }

  /** The walk of each child from `from` on, each under its own key. */
  function ChildWalks(keys: seq<string>, children: seq<Json>, path: seq<string>, from: nat): (ws: seq<seq<StringNode>>)
    requires |keys| == |children| && from <= |children|
    requires forall i :: 0 <= i < |children| ==> WellFormed(children[i])
    ensures |ws| == |children| - from
  {
    seq(|children| - from, i requires 0 <= i < |children| - from =>
          ExtractStrings(children[from + i], path + [keys[from + i]]))
  }

  /** The walk of children `from..` is the walk of each child in turn. */
  lemma {:induction false} ExtractChildrenConcat(keys: seq<string>, children: seq<Json>, path: seq<string>, from: nat)
    requires |keys| == |children| && from <= |children|
    requires forall i :: 0 <= i < |children| ==> WellFormed(children[i])
    ensures ExtractChildren(keys, children, path, from) == Concat(ChildWalks(keys, children, path, from))
    decreases |children| - from
  {
    var parts := ChildWalks(keys, children, path, from);
    if from < |children| {
      ExtractChildrenConcat(keys, children, path, from + 1);
      var rest := ChildWalks(keys, children, path, from + 1);
      forall j | 0 <= j < |rest| ensures parts[1..][j] == rest[j] {
        assert from + (j + 1) == from + 1 + j;
      }
      assert parts[1..] == rest;
      assert Concat(parts) == parts[0] + Concat(rest);
    } else {
      assert parts == [];
    }
  }

  /** Array elements are walked in index order, element i under the decimal
      string of i; object entries in enumeration order, each under its key. */
  lemma ExtractContainerOrder(v: Json, path: seq<string>)
    requires WellFormed(v)
    ensures v.Arr? ==>
              ExtractStrings(v, path)
              == Concat(seq(|v.items|, i requires 0 <= i < |v.items| => ExtractStrings(v.items[i], path + [NatToString(i)])))
    ensures v.Obj? ==>
              ExtractStrings(v, path)
              == Concat(seq(|v.values|, i requires 0 <= i < |v.values| => ExtractStrings(v.values[i], path + [v.keys[i]])))
  {
    match v
    case Arr(items) =>
      ExtractChildrenConcat(IndexKeys(|items|), items, path, 0);
      assert ChildWalks(IndexKeys(|items|), items, path, 0)
          == seq(|items|, i requires 0 <= i < |items| => ExtractStrings(items[i], path + [NatToString(i)]));
    case Obj(keys, values) =>
      ExtractChildrenConcat(keys, values, path, 0);
      assert ChildWalks(keys, values, path, 0)
          == seq(|values|, i requires 0 <= i < |values| => ExtractStrings(values[i], path + [keys[i]]));
    case _ =>
  }

  /** A string is one node at the current path; numbers, booleans and null
      give none. */
  lemma ExtractLeaves(v: Json, path: seq<string>)
    requires WellFormed(v) && !(v.Arr? || v.Obj?)
    ensures v.Str? ==> ExtractStrings(v, path) == [StringNode(path, v.s)]
    ensures !v.Str? ==> ExtractStrings(v, path) == []
  {
  }

  // ---------------------------------------------------------------------
  // reconstructJson (src/utils/json-traversal.ts:32-44)
  // ---------------------------------------------------------------------

  function Nulls(n: nat): (r: seq<Json>)
    ensures |r| == n && forall i :: 0 <= i < n ==> r[i] == Null
  {
    seq(n, _ => Null)
  }

  /** `current[key] = s` on a cloned value (line 40), under ES module strict
      mode. An object overwrites an own key or gains a new one: an array-index
      key at its ascending place among the leading index keys, any other key
      at the end (what `JSON.stringify` then shows); an array stores at a
      canonical index, growing with holes that JSON prints as null, and keeps
      any other key as a property JSON does not show; a primitive throws. */
  function Assign(v: Json, key: string, s: string): Result<Json>
  {
    match v
    case Obj(keys, values) =>
      (match IndexOf(keys, key)
       case Some(i) =>
         if i < |values| then Ok(Obj(keys, values[i := Str(s)]))
         else Failure("object without a value for key '" + key + "'")
       case None =>
         if !IsArrayIndex(key) then Ok(Obj(keys + [key], values + [Str(s)]))
         else
           var p := IndexSlot(keys, DigitsValue(key));
           if p <= |values| then Ok(Obj(keys[..p] + [key] + keys[p..], values[..p] + [Str(s)] + values[p..]))
           else Failure("object without a value for key '" + keys[p - 1] + "'"))
    case Arr(items) =>
      if !IsArrayIndex(key) then Ok(v)
      else if DigitsValue(key) < |items| then Ok(Arr(items[DigitsValue(key) := Str(s)]))
      else Ok(Arr(items + Nulls(DigitsValue(key) - |items|) + [Str(s)]))
    case Null => Failure("Cannot set properties of null (setting '" + key + "')")
    case Bool(_) => Failure("Cannot create property '" + key + "' on boolean")
    case Num(_) => Failure("Cannot create property '" + key + "' on number")
    case Str(_) => Failure("Cannot create property '" + key + "' on string")
  }

  function WithChild(v: Json, i: nat, c: Json): (r: Json)
    requires i < |Children(v)|
    ensures Keys(r) == Keys(v) && Children(r) == Children(v)[i := c]
  {
    match v
    case Arr(items) => Arr(items[i := c])
    case Obj(keys, values) => Obj(keys, values[i := c])
  }

  /** Lines 36-40 for a non-empty path: follow all keys but the last with the
      `current` cursor, then assign at the last. A key the cursor cannot
      follow reads `undefined`, and the next access throws. The in-place
      write through the cursor is the rebuilt value along the path. */
  function SetAt(v: Json, q: seq<string>, s: string): Result<Json>
    requires |q| > 0
    decreases |q|
  {
    if |q| == 1 then Assign(v, q[0], s)
    else match ChildIndex(v, q[0])
      case None =>
        if v.Null? then Failure("Cannot read properties of null (reading '" + q[0] + "')")
        else Failure("Cannot set properties of undefined (path '" + q[0] + "' does not resolve)")
      case Some(i) =>
        (match SetAt(Children(v)[i], q[1..], s)
         case Failure(e) => Failure(e)
         case Ok(c) => Ok(WithChild(v, i, c)))
  }

  /** One iteration of the outer loop (lines 35-41). With an empty path the
      loop of line 37 does not run and line 40 writes key `undefined` on the
      root itself. */
  function ReconstructStep(v: Json, node: StringNode): Result<Json>
  {
    if node.path == [] then Assign(v, "undefined", node.value)
    else SetAt(v, node.path, node.value)
  }

  /** The outcome of writing `nodes` in order into a clone of `v`; the first
      write that throws ends the whole call. */
  function Reconstructed(v: Json, nodes: seq<StringNode>): Result<Json>
  {
    if nodes == [] then Ok(v)
    else match Reconstructed(v, nodes[..|nodes| - 1])
      case Failure(e) => Failure(e)
      case Ok(w) => ReconstructStep(w, nodes[|nodes| - 1])
  }

  /** A write that throws ends the call: later nodes are never written. */
  lemma {:induction false} ReconstructFailureSticks(v: Json, nodes: seq<StringNode>, k: nat, e: string)
    requires k <= |nodes| && Reconstructed(v, nodes[..k]) == Failure(e)
    ensures Reconstructed(v, nodes) == Failure(e)
    decreases |nodes| - k
  {
    if k < |nodes| {
      assert nodes[..k + 1][..k] == nodes[..k];
      ReconstructFailureSticks(v, nodes, k + 1, e);
    } else {
      assert nodes[..k] == nodes;
    }
  }

  /** `reconstructJson`: the clone of line 33 is a copy of the value, the
      loop of lines 35-41 writes the nodes one after another. The original
      is a value and is left as it was. */
  method ReconstructJson(originalObj: Json, translatedNodes: seq<StringNode>) returns (r: Result<Json>)
    ensures r == Reconstructed(originalObj, translatedNodes)
  {
    var newObj := originalObj;
    var k := 0;
    while k < |translatedNodes|
      invariant 0 <= k <= |translatedNodes|
      invariant Reconstructed(originalObj, translatedNodes[..k]) == Ok(newObj)
    {
      ReconstructedSnoc(originalObj, translatedNodes, k);
      var step := ReconstructStep(newObj, translatedNodes[k]);
      if step.Failure? {
        ReconstructFailureSticks(originalObj, translatedNodes, k + 1, step.error);
        return Failure(step.error);
      }
      newObj := step.value;
      k := k + 1;
    }
    assert translatedNodes[..k] == translatedNodes;
    r := Ok(newObj);
  }

  // ---------------------------------------------------------------------
  // What reconstruction does to the leaves
  // ---------------------------------------------------------------------

  /** The value with every string emptied: what a translation must keep. */
  function Shape(v: Json): Json
  {
    match v
    case Str(_) => Str("")
    case Arr(items) => Arr(seq(|items|, i requires 0 <= i < |items| => Shape(items[i])))
    case Obj(keys, values) => Obj(keys, seq(|values|, i requires 0 <= i < |values| => Shape(values[i])))
    case _ => v
  }

  /** The nodes with the one at path `p` given the text `s`. */
  function Relabel(ns: seq<StringNode>, p: seq<string>, s: string): (r: seq<StringNode>)
    ensures |r| == |ns|
    ensures forall i :: 0 <= i < |ns| ==> r[i].path == ns[i].path
  {
    seq(|ns|, i requires 0 <= i < |ns| => if ns[i].path == p then StringNode(p, s) else ns[i])
  }

  lemma RelabelConcat(a: seq<StringNode>, b: seq<StringNode>, p: seq<string>, s: string)
    ensures Relabel(a + b, p, s) == Relabel(a, p, s) + Relabel(b, p, s)
  {
  }

  lemma RelabelMissing(a: seq<StringNode>, p: seq<string>, s: string)
    requires forall n :: n in a ==> n.path != p
    ensures Relabel(a, p, s) == a
  {
    forall i | 0 <= i < |a| ensures Relabel(a, p, s)[i] == a[i] {
      assert a[i] in a;
    }
  }

  /** Replacing child i of a list whose nodes under that child are relabelled
      relabels the whole list: no other child has a node at that path. */
  lemma {:induction false} ExtractChildrenReplace(keys: seq<string>, children: seq<Json>, path: seq<string>, from: nat,
                                                  i: nat, c': Json, p: seq<string>, s: string)
    requires |keys| == |children| && from <= |children| && i < |children| && Distinct(keys)
    requires forall j :: 0 <= j < |children| ==> WellFormed(children[j])
    requires WellFormed(c')
    requires |p| > |path| && p[..|path|] == path && p[|path|] == keys[i]
    requires ExtractStrings(c', path + [keys[i]]) == Relabel(ExtractStrings(children[i], path + [keys[i]]), p, s)
    ensures ExtractChildren(keys, children[i := c'], path, from) == Relabel(ExtractChildren(keys, children, path, from), p, s)
    decreases |children| - from
  {
    var children' := children[i := c'];
    if from < |children| {
      ExtractChildrenReplace(keys, children, path, from + 1, i, c', p, s);
      var head := ExtractStrings(children[from], path + [keys[from]]);
      var tail := ExtractChildren(keys, children, path, from + 1);
      RelabelConcat(head, tail, p, s);
      var head' := ExtractStrings(children'[from], path + [keys[from]]);
      assert ExtractChildren(keys, children', path, from) == head' + ExtractChildren(keys, children', path, from + 1);
      if from != i {
        assert children'[from] == children[from];
        ChildNodesMissPath(children[from], path, keys[from], p, s);
      }
      assert head' == Relabel(head, p, s);
    }
  }

  /** A child under another key has no node at path `p`. */
  lemma ChildNodesMissPath(c: Json, path: seq<string>, key: string, p: seq<string>, s: string)
    requires WellFormed(c) && |p| > |path| && p[|path|] != key
    ensures Relabel(ExtractStrings(c, path + [key]), p, s) == ExtractStrings(c, path + [key])
  {
    var head := ExtractStrings(c, path + [key]);
    forall n | n in head ensures n.path != p {
      assert n.path[..|path| + 1] == path + [key];
      assert n.path[|path|] == n.path[..|path| + 1][|path|];
    }
    RelabelMissing(head, p, s);
  }

  lemma WithSameChild(v: Json, i: nat)
    requires i < |Children(v)|
    ensures WithChild(v, i, Children(v)[i]) == v
  {
    match v
    case Arr(items) => assert items[i := items[i]] == items;
    case Obj(keys, values) => assert values[i := values[i]] == values;
  }

  /** Replacing a child by a well-formed one keeps the container well
      formed and its keys. */
  lemma WithChildWellFormed(v: Json, i: nat, c': Json)
    requires WellFormed(v) && i < |Children(v)| && WellFormed(c')
    ensures WellFormed(WithChild(v, i, c'))
    ensures Keys(WithChild(v, i, c')) == Keys(v) && Children(WithChild(v, i, c')) == Children(v)[i := c']
  {
    ChildrenWellFormed(v);
  }

  /** Replacing a child by one of the same shape keeps the shape. */
  lemma WithChildShape(v: Json, i: nat, c': Json)
    requires i < |Children(v)| && Shape(c') == Shape(Children(v)[i])
    ensures Shape(WithChild(v, i, c')) == Shape(v)
  {
    var w := WithChild(v, i, c');
    match v
    case Arr(items) =>
      assert Shape(w).items == Shape(v).items;
    case Obj(keys, values) =>
      assert Shape(w).values == Shape(v).values;
  }

  /** Replacing child i by one whose nodes are those of child i with the
      node at `p` relabelled relabels the container's nodes the same way. */
  lemma WithChildExtract(v: Json, i: nat, c': Json, path: seq<string>, p: seq<string>, s: string)
    requires WellFormed(v) && i < |Children(v)| && WellFormed(c')
    requires |p| > |path| && p[..|path|] == path && p[|path|] == Keys(v)[i]
    requires ExtractStrings(c', path + [Keys(v)[i]]) == Relabel(ExtractStrings(Children(v)[i], path + [Keys(v)[i]]), p, s)
    ensures WellFormed(WithChild(v, i, c'))
    ensures ExtractStrings(WithChild(v, i, c'), path) == Relabel(ExtractStrings(v, path), p, s)
  {
    var w := WithChild(v, i, c');
    WithChildWellFormed(v, i, c');
    ChildrenWellFormed(v);
    ExtractChildrenReplace(Keys(v), Children(v), path, 0, i, c', p, s);
    ExtractContainer(v, path);
    ExtractContainer(w, path);
  }

  /** Writing text `s` at a path that names a string leaf succeeds, keeps
      the value well formed and its shape, and makes the leaf hold `s`. */
  lemma {:induction false} SetAtLeafShape(v: Json, q: seq<string>, s: string)
    requires WellFormed(v) && |q| > 0 && Get(v, q).Some? && Get(v, q).value.Str?
    ensures SetAt(v, q, s).Ok?
    ensures WellFormed(SetAt(v, q, s).value)
    ensures Shape(SetAt(v, q, s).value) == Shape(v)
    ensures Get(SetAt(v, q, s).value, q) == Some(Str(s))
    decreases |q|
  {
    var i := ChildIndex(v, q[0]).value;
    ChildrenWellFormed(v);
    ChildIndexKey(v, q[0]);
    var c := Children(v)[i];
    var c' := Str(s);
    if |q| > 1 {
      SetAtLeafShape(c, q[1..], s);
      c' := SetAt(c, q[1..], s).value;
    }
    SetAtStep(v, q, s);
    WithChildWellFormed(v, i, c');
    WithChildShape(v, i, c');
    GetThroughChild(WithChild(v, i, c'), q, i);
  }

  /** The same write changes exactly the node at that path in the
      extraction, and no other node. */
  lemma {:induction false} SetAtLeaf(v: Json, q: seq<string>, s: string, path: seq<string>)
    requires WellFormed(v) && |q| > 0 && Get(v, q).Some? && Get(v, q).value.Str?
    ensures SetAt(v, q, s).Ok? && WellFormed(SetAt(v, q, s).value)
    ensures ExtractStrings(SetAt(v, q, s).value, path) == Relabel(ExtractStrings(v, path), path + q, s)
    decreases |q|
  {
    var i := ChildIndex(v, q[0]).value;
    ChildrenWellFormed(v);
    ChildIndexKey(v, q[0]);
    var c := Children(v)[i];
    var c' := Str(s);
    PathStep(path, q);
    if |q| == 1 {
      LeafRelabel(c, path + [q[0]], s);
    } else {
      SetAtLeaf(c, q[1..], s, path + [q[0]]);
      c' := SetAt(c, q[1..], s).value;
    }
    SetAtStep(v, q, s);
    WithChildExtract(v, i, c', path, path + q, s);
  }

  lemma PathStep(path: seq<string>, q: seq<string>)
    requires |q| > 0
    ensures path + [q[0]] + q[1..] == path + q && (path + q)[..|path|] == path
    ensures |q| == 1 ==> path + [q[0]] == path + q
  {
  }

  lemma LeafRelabel(c: Json, p: seq<string>, s: string)
    requires c.Str?
    ensures ExtractStrings(Str(s), p) == Relabel(ExtractStrings(c, p), p, s)
  {
  }

  /** `SetAt` along a key that resolves rebuilds child i. */
  lemma SetAtStep(v: Json, q: seq<string>, s: string)
    requires WellFormed(v) && |q| > 0 && ChildIndex(v, q[0]).Some?
    requires |q| > 1 ==> SetAt(Children(v)[ChildIndex(v, q[0]).value], q[1..], s).Ok?
    ensures var i := ChildIndex(v, q[0]).value;
      SetAt(v, q, s) == Ok(WithChild(v, i, if |q| == 1 then Str(s) else SetAt(Children(v)[i], q[1..], s).value))
  {
    var i := ChildIndex(v, q[0]).value;
    if |q| == 1 && v.Obj? {
      assert IndexOf(v.keys, q[0]) == Some(i);
    }
  }

  lemma GetThroughChild(w: Json, q: seq<string>, i: nat)
    requires WellFormed(w) && |q| > 0 && i < |Children(w)| && Keys(w)[i] == q[0]
    ensures Get(w, q) == Get(Children(w)[i], q[1..])
  {
    ChildIndexOfKey(w, i);
  }

  /** Writing at a string leaf the text it already holds changes nothing. */
  lemma {:induction false} SetAtSame(v: Json, q: seq<string>, s: string)
    requires WellFormed(v) && |q| > 0 && Get(v, q) == Some(Str(s))
    ensures SetAt(v, q, s) == Ok(v)
    decreases |q|
  {
    var i := ChildIndex(v, q[0]).value;
    ChildrenWellFormed(v);
    var c := Children(v)[i];
    if |q| == 1 {
      if v.Obj? {
        assert IndexOf(v.keys, q[0]) == Some(i);
      }
      assert SetAt(v, q, s) == Ok(WithChild(v, i, Str(s)));
    } else {
      SetAtSame(c, q[1..], s);
    }
    WithSameChild(v, i);
  }

  /** Round trip: writing back the nodes `extractStrings` produced, unchanged,
      rebuilds the value, whenever the root is not itself a string. */
  lemma ReconstructIdentity(v: Json)
    requires WellFormed(v) && !v.Str?
    ensures Reconstructed(v, ExtractStrings(v, [])) == Ok(v)
  {
    var nodes := ExtractStrings(v, []);
    var k := 0;
    while k < |nodes|
      invariant 0 <= k <= |nodes|
      invariant Reconstructed(v, nodes[..k]) == Ok(v)
    {
      ReconstructedSnoc(v, nodes, k);
      WriteBackSame(v, nodes[k]);
      k := k + 1;
    }
    assert nodes[..k] == nodes;
  }

  /** Writing back a node of the extraction unchanged leaves the value as
      it was. */
  lemma WriteBackSame(v: Json, n: StringNode)
    requires WellFormed(v) && !v.Str? && n in ExtractStrings(v, [])
    ensures ReconstructStep(v, n) == Ok(v)
  {
    ExtractedNodesResolve(v, [], n);
    assert n.path[0..] == n.path;
    SetAtSame(v, n.path, n.value);
  }

  /** A root that is a string yields the single node with the empty path,
      and writing it back throws: line 40 assigns a property on a string. */
  lemma RootStringNotReplaced(s: string, t: string)
    ensures ExtractStrings(Str(s), []) == [StringNode([], s)]
    ensures Reconstructed(Str(s), [StringNode([], t)]).Failure?
  {
    assert [StringNode([], t)][..0] == [];
  }

  predicate SamePaths(a: seq<StringNode>, b: seq<StringNode>)
  {
    |a| == |b| && forall i :: 0 <= i < |a| ==> a[i].path == b[i].path
  }

  /** In a list without repeated paths, relabelling the path of node k
      changes node k alone. */
  lemma RelabelAt(m: seq<StringNode>, k: nat, s: string)
    requires UniquePaths(m) && k < |m|
    ensures Relabel(m, m[k].path, s) == m[k := StringNode(m[k].path, s)]
  {
  }

  /** Writing new texts at the extracted paths: the result has the shape of
      the input (every non-string leaf, key and array length kept) and its
      extraction is exactly the written nodes, so node i's leaf holds node
      i's new text and every other leaf is untouched. */
  lemma ReconstructTranslated(v: Json, translated: seq<StringNode>)
    requires WellFormed(v) && !v.Str?
    requires SamePaths(translated, ExtractStrings(v, []))
    ensures Reconstructed(v, translated).Ok?
    ensures WellFormed(Reconstructed(v, translated).value)
    ensures Shape(Reconstructed(v, translated).value) == Shape(v)
    ensures ExtractStrings(Reconstructed(v, translated).value, []) == translated
  {
    ReconstructTranslatedPrefix(v, translated, |translated|);
    assert translated[..|translated|] == translated;
    assert ExtractStrings(v, [])[|translated|..] == [];
  }

  /** After the first k translated nodes are written, the extraction shows
      those k new texts followed by the old rest. */
  lemma {:induction false} ReconstructTranslatedPrefix(v: Json, translated: seq<StringNode>, k: nat)
    requires WellFormed(v) && !v.Str?
    requires SamePaths(translated, ExtractStrings(v, [])) && k <= |translated|
    ensures Reconstructed(v, translated[..k]).Ok?
    ensures WellFormed(Reconstructed(v, translated[..k]).value)
    ensures Shape(Reconstructed(v, translated[..k]).value) == Shape(v)
    ensures ExtractStrings(Reconstructed(v, translated[..k]).value, []) == translated[..k] + ExtractStrings(v, [])[k..]
    decreases k
  {
    var nodes := ExtractStrings(v, []);
    if k == 0 {
      assert translated[..0] == [];
    } else {
      var j := k - 1;
      ReconstructTranslatedPrefix(v, translated, j);
      var w := Reconstructed(v, translated[..j]).value;
      var m := ExtractStrings(w, []);
      var n := translated[j];
      assert m[j] == nodes[j] && nodes[j] in nodes;
      WriteTranslatedNode(w, m, j, n);
      ReconstructedSnoc(v, translated, j);
      SpliceStep(translated, nodes, j);
    }
  }

  lemma SpliceStep<T>(a: seq<T>, b: seq<T>, j: nat)
    requires |a| == |b| && j < |a|
    ensures (a[..j] + b[j..])[j := a[j]] == a[..j + 1] + b[j + 1..]
  {
  }

  lemma ReconstructedSnoc(v: Json, ns: seq<StringNode>, j: nat)
    requires j < |ns| && Reconstructed(v, ns[..j]).Ok?
    ensures Reconstructed(v, ns[..j + 1]) == ReconstructStep(Reconstructed(v, ns[..j]).value, ns[j])
  {
    assert ns[..j + 1][..j] == ns[..j];
  }

  /** One write of the translated loop: node j of the current extraction
      takes the new text and nothing else changes. */
  lemma WriteTranslatedNode(w: Json, m: seq<StringNode>, j: nat, n: StringNode)
    requires WellFormed(w) && m == ExtractStrings(w, []) && j < |m|
    requires n.path == m[j].path && |n.path| > 0
    ensures ReconstructStep(w, n).Ok?
    ensures WellFormed(ReconstructStep(w, n).value)
    ensures Shape(ReconstructStep(w, n).value) == Shape(w)
    ensures ExtractStrings(ReconstructStep(w, n).value, []) == m[j := n]
  {
    var p := n.path;
    assert m[j] in m;
    ExtractedNodesResolve(w, [], m[j]);
    assert p[0..] == p;
    SetAtLeafShape(w, p, n.value);
    SetAtLeaf(w, p, n.value, []);
    ExtractPathsUnique(w, []);
    RelabelAt(m, j, n.value);
    assert [] + p == p;
  }

  /** When two writes hit the same path, the later one wins. */
  lemma {:induction false} SetAtTwice(v: Json, q: seq<string>, s1: string, s2: string)
    requires WellFormed(v) && |q| > 0 && SetAt(v, q, s1).Ok?
    ensures SetAt(SetAt(v, q, s1).value, q, s2) == SetAt(v, q, s2)
    decreases |q|
  {
    var w := SetAt(v, q, s1).value;
    if |q| == 1 {
      SetAtTwiceLeaf(v, q, s1, s2);
    } else {
      var i := ChildIndex(v, q[0]).value;
      ChildrenWellFormed(v);
      var c := Children(v)[i];
      SetAtTwice(c, q[1..], s1, s2);
      SetAtTwiceStep(v, q, s1, s2, i);
    }
  }

  /** The later write wins in the container once it wins in child i. */
  lemma SetAtTwiceStep(v: Json, q: seq<string>, s1: string, s2: string, i: nat)
    requires WellFormed(v) && |q| > 1 && ChildIndex(v, q[0]) == Some(i)
    requires SetAt(Children(v)[i], q[1..], s1).Ok?
    requires SetAt(SetAt(Children(v)[i], q[1..], s1).value, q[1..], s2) == SetAt(Children(v)[i], q[1..], s2)
    ensures SetAt(v, q, s1).Ok?
    ensures SetAt(SetAt(v, q, s1).value, q, s2) == SetAt(v, q, s2)
  {
    var c1 := SetAt(Children(v)[i], q[1..], s1).value;
    var w := SetAt(v, q, s1).value;
    assert w == WithChild(v, i, c1);
    assert ChildIndex(w, q[0]) == Some(i) by {
      if v.Obj? { assert w.keys == v.keys && |w.values| == |v.values|; }
    }
    assert Children(w)[i] == c1;
    match SetAt(Children(v)[i], q[1..], s2)
    case Failure(e) =>
    case Ok(c2) =>
      assert WithChild(w, i, c2) == WithChild(v, i, c2);
  }

  lemma SetAtTwiceLeaf(v: Json, q: seq<string>, s1: string, s2: string)
    requires WellFormed(v) && |q| == 1 && SetAt(v, q, s1).Ok?
    ensures SetAt(SetAt(v, q, s1).value, q, s2) == SetAt(v, q, s2)
  {
    var w := SetAt(v, q, s1).value;
    assert SetAt(w, q, s2) == Assign(w, q[0], s2);
    assert SetAt(v, q, s2) == Assign(v, q[0], s2);
    match v
    case Obj(keys, values) =>
      if IndexOf(keys, q[0]).Some? {
        AssignTwiceOwnKey(v, q[0], s1, s2);
      } else if IsArrayIndex(q[0]) {
        AssignTwiceNewIndex(v, q[0], s1, s2);
      } else {
        AssignTwiceNewKey(v, q[0], s1, s2);
      }
    case Arr(items) =>
      AssignTwiceArr(v, q[0], s1, s2);
    case _ =>
  }

  lemma AssignTwiceOwnKey(v: Json, key: string, s1: string, s2: string)
    requires WellFormed(v) && v.Obj? && IndexOf(v.keys, key).Some?
    ensures Assign(v, key, s1).Ok? && Assign(Assign(v, key, s1).value, key, s2) == Assign(v, key, s2)
  {
    var i := IndexOf(v.keys, key).value;
    var w := Assign(v, key, s1).value;
    assert w == Obj(v.keys, v.values[i := Str(s1)]);
    assert v.values[i := Str(s1)][i := Str(s2)] == v.values[i := Str(s2)];
  }

  lemma AssignTwiceNewKey(v: Json, key: string, s1: string, s2: string)
    requires WellFormed(v) && v.Obj? && IndexOf(v.keys, key).None? && !IsArrayIndex(key)
    ensures Assign(v, key, s1).Ok? && Assign(Assign(v, key, s1).value, key, s2) == Assign(v, key, s2)
  {
    var keys, values := v.keys, v.values;
    assert IndexOf(keys + [key], key) == Some(|keys|) by {
      var r := IndexOf(keys + [key], key);
      assert (keys + [key])[|keys|] == key;
      assert r.Some?;
      assert r.value == |keys|;
    }
    assert Assign(v, key, s1).value == Obj(keys + [key], values + [Str(s1)]);
    assert (values + [Str(s1)])[|values| := Str(s2)] == values + [Str(s2)];
  }

  lemma AssignTwiceNewIndex(v: Json, key: string, s1: string, s2: string)
    requires WellFormed(v) && v.Obj? && IndexOf(v.keys, key).None? && IsArrayIndex(key)
    ensures Assign(v, key, s1).Ok? && Assign(Assign(v, key, s1).value, key, s2) == Assign(v, key, s2)
  {
    var keys, values := v.keys, v.values;
    var p := IndexSlot(keys, DigitsValue(key));
    var ks := keys[..p] + [key] + keys[p..];
    assert IndexOf(ks, key) == Some(p) by {
      var r := IndexOf(ks, key);
      assert ks[p] == key;
      assert forall j :: 0 <= j < p ==> ks[j] == keys[j] && keys[j] in keys;
      assert r.Some?;
    }
    assert Assign(v, key, s1).value == Obj(ks, values[..p] + [Str(s1)] + values[p..]);
    assert (values[..p] + [Str(s1)] + values[p..])[p := Str(s2)] == values[..p] + [Str(s2)] + values[p..];
  }

  lemma AssignTwiceArr(v: Json, key: string, s1: string, s2: string)
    requires WellFormed(v) && v.Arr?
    ensures Assign(v, key, s1).Ok? && Assign(Assign(v, key, s1).value, key, s2) == Assign(v, key, s2)
  {
    var items := v.items;
    if !IsArrayIndex(key) {
    } else if DigitsValue(key) < |items| {
      var d := DigitsValue(key);
      assert items[d := Str(s1)][d := Str(s2)] == items[d := Str(s2)];
    } else {
      var d := DigitsValue(key);
      var pad := Nulls(d - |items|);
      assert Assign(v, key, s1).value == Arr(items + pad + [Str(s1)]);
      assert (items + pad + [Str(s1)])[d := Str(s2)] == items + pad + [Str(s2)];
    }
  }

  /** Adding or overwriting a key keeps an object well formed. */
  lemma AssignObjWellFormed(v: Json, key: string, s: string)
    requires WellFormed(v) && v.Obj? && Assign(v, key, s).Ok?
    ensures WellFormed(Assign(v, key, s).value)
  {
    if IndexOf(v.keys, key).Some? {
    } else if IsArrayIndex(key) {
      InsertIndexWellFormed(v, key, s);
    } else {
      AppendKeyWellFormed(v, key, s);
    }
  }

  lemma AppendKeyWellFormed(v: Json, key: string, s: string)
    requires WellFormed(v) && v.Obj? && IndexOf(v.keys, key).None? && !IsArrayIndex(key)
    ensures Assign(v, key, s) == Ok(Obj(v.keys + [key], v.values + [Str(s)]))
    ensures WellFormed(Assign(v, key, s).value)
  {
    var keys, values := v.keys, v.values;
    var ks := keys + [key];
    assert forall j :: 0 <= j < |keys| ==> ks[j] == keys[j];
    assert Distinct(ks);
    assert EnumerationOrdered(ks);
    var vs := values + [Str(s)];
    assert forall j :: 0 <= j < |values| ==> vs[j] == values[j];
  }

  lemma InsertIndexWellFormed(v: Json, key: string, s: string)
    requires WellFormed(v) && v.Obj? && IndexOf(v.keys, key).None? && IsArrayIndex(key)
    ensures WellFormed(Assign(v, key, s).value)
  {
    var keys, values := v.keys, v.values;
    var p := IndexSlot(keys, DigitsValue(key));
    InsertIndexKey(keys, key);
    var vs := values[..p] + [Str(s)] + values[p..];
    assert forall j :: 0 <= j < |vs| ==> WellFormed(vs[j]) by {
      forall j | 0 <= j < |vs| ensures WellFormed(vs[j]) {
        if j < p { assert vs[j] == values[j]; }
        else if j > p { assert vs[j] == values[j - 1]; }
      }
    }
    assert Assign(v, key, s).value == Obj(keys[..p] + [key] + keys[p..], vs);
  }

  /** Writes keep a value well formed. */
  lemma {:induction false} SetAtWellFormed(v: Json, q: seq<string>, s: string)
    requires WellFormed(v) && |q| > 0 && SetAt(v, q, s).Ok?
    ensures WellFormed(SetAt(v, q, s).value)
    decreases |q|
  {
    if |q| == 1 {
      match v
      case Obj(keys, values) =>
        AssignObjWellFormed(v, q[0], s);
      case Arr(items) =>
        if IsArrayIndex(q[0]) && DigitsValue(q[0]) >= |items| {
          var r := items + Nulls(DigitsValue(q[0]) - |items|) + [Str(s)];
          assert forall j :: 0 <= j < |r| ==> WellFormed(r[j]) by {
            forall j | 0 <= j < |r| ensures WellFormed(r[j]) {
              if j < |items| { assert r[j] == items[j]; }
            }
          }
        }
      case _ =>
    } else {
      var i := ChildIndex(v, q[0]).value;
      ChildrenWellFormed(v);
      SetAtWellFormed(Children(v)[i], q[1..], s);
    }
  }

  /** Of two adjacent nodes with the same path, the later one decides the
      leaf, even when the first write added the key. */
  lemma ReconstructOverwrite(v: Json, n1: StringNode, n2: StringNode)
    requires WellFormed(v) && n1.path == n2.path && |n1.path| > 0
    requires ReconstructStep(v, n1).Ok?
    ensures Reconstructed(v, [n1, n2]) == Reconstructed(v, [n2])
  {
    assert [n1, n2][..1] == [n1] && [n1][..0] == [] && [n2][..0] == [];
    SetAtTwice(v, n1.path, n1.value, n2.value);
  }

  // ---------------------------------------------------------------------
  // Later writes win across the whole node list
  // ---------------------------------------------------------------------

  /** `p` names a string leaf of `v`. */
  predicate IsStringLeaf(v: Json, p: seq<string>)
  {
    |p| > 0 && Get(v, p).Some? && Get(v, p).value.Str?
  }

  /** Writes keep a value well formed: every write that does not throw,
      at the root's `undefined` key included. */
  lemma {:induction false} ReconstructedWellFormed(v: Json, nodes: seq<StringNode>)
    requires WellFormed(v) && Reconstructed(v, nodes).Ok?
    ensures WellFormed(Reconstructed(v, nodes).value)
    decreases |nodes|
  {
    if nodes != [] {
      var init := nodes[..|nodes| - 1];
      var n := nodes[|nodes| - 1];
      ReconstructedWellFormed(v, init);
      var w := Reconstructed(v, init).value;
      if n.path == [] {
        if w.Obj? { AssignObjWellFormed(w, "undefined", n.value); }
      } else {
        SetAtWellFormed(w, n.path, n.value);
      }
    }
  }

  /** Writing a list in two parts: the second part is written into the
      result of the first. */
  lemma {:induction false} ReconstructedAppend(v: Json, a: seq<StringNode>, rest: seq<StringNode>)
    requires Reconstructed(v, a).Ok?
    ensures Reconstructed(v, a + rest) == Reconstructed(Reconstructed(v, a).value, rest)
    decreases |rest|
  {
    if rest == [] {
      assert a + rest == a;
    } else {
      var init := rest[..|rest| - 1];
      ReconstructedAppend(v, a, init);
      assert (a + rest)[..|a + rest| - 1] == a + init;
      assert (a + rest)[|a + rest| - 1] == rest[|rest| - 1];
    }
  }

  /** Reading child `k` of a container whose child `i` was replaced. */
  lemma WithChildIndex(v: Json, i: nat, c: Json, k: string)
    requires i < |Children(v)|
    ensures ChildIndex(WithChild(v, i, c), k) == ChildIndex(v, k)
  {
  }

  lemma WithChildSwap(v: Json, i: nat, j: nat, a: Json, b: Json)
    requires i != j && i < |Children(v)| && j < |Children(v)|
    ensures WithChild(WithChild(v, i, a), j, b) == WithChild(WithChild(v, j, b), i, a)
  {
    match v
    case Arr(items) => assert items[i := a][j := b] == items[j := b][i := a];
    case Obj(keys, values) => assert values[i := a][j := b] == values[j := b][i := a];
  }

  lemma WithChildTwice(v: Json, i: nat, a: Json, b: Json)
    requires i < |Children(v)|
    ensures WithChild(WithChild(v, i, a), i, b) == WithChild(v, i, b)
  {
    match v
    case Arr(items) => assert items[i := a][i := b] == items[i := b];
    case Obj(keys, values) => assert values[i := a][i := b] == values[i := b];
  }

  /** Two different leaf paths through the same child continue below it:
      neither leaf is that child itself. */
  lemma LeafPathsDiverge(v: Json, p1: seq<string>, p2: seq<string>)
    requires WellFormed(v) && IsStringLeaf(v, p1) && IsStringLeaf(v, p2) && p1 != p2
    ensures ChildIndex(v, p1[0]) == ChildIndex(v, p2[0]) ==> |p1| > 1 && |p2| > 1 && p1[1..] != p2[1..]
  {
    if ChildIndex(v, p1[0]) == ChildIndex(v, p2[0]) {
      var i := ChildIndex(v, p1[0]).value;
      ChildIndexKey(v, p1[0]);
      ChildIndexKey(v, p2[0]);
      assert p1 == [p1[0]] + p1[1..] && p2 == [p2[0]] + p2[1..];
      GetThroughChild(v, p1, i);
      GetThroughChild(v, p2, i);
      var c := Children(v)[i];
      NoPathBelowString(c, p1[1..]);
      NoPathBelowString(c, p2[1..]);
    }
  }

  lemma NoPathBelowString(c: Json, q: seq<string>)
    ensures c.Str? && |q| > 0 ==> Get(c, q).None?
  {
  }

  /** A write at a leaf leaves every string leaf a string leaf. */
  lemma SetAtKeepsLeaf(w: Json, q: seq<string>, s: string, p: seq<string>)
    requires WellFormed(w) && IsStringLeaf(w, q) && IsStringLeaf(w, p)
    ensures SetAt(w, q, s).Ok? && IsStringLeaf(SetAt(w, q, s).value, p)
  {
    var x := Get(w, p).value.s;
    EveryLeafExtracted(w, [], p, x);
    assert [] + p == p && [] + q == q;
    var e := ExtractStrings(w, []);
    var k :| 0 <= k < |e| && e[k] == StringNode(p, x);
    SetAtLeaf(w, q, s, []);
    var w' := SetAt(w, q, s).value;
    var e' := ExtractStrings(w', []);
    assert e'[k].path == p && e'[k] in e';
    ExtractedNodesResolve(w', [], e'[k]);
    assert p[0..] == p;
  }

  lemma SetAtKeepsLeaves(w: Json, m: StringNode, b: seq<StringNode>)
    requires WellFormed(w) && IsStringLeaf(w, m.path)
    requires forall k :: 0 <= k < |b| ==> IsStringLeaf(w, b[k].path)
    ensures SetAt(w, m.path, m.value).Ok?
    ensures forall k :: 0 <= k < |b| ==> IsStringLeaf(SetAt(w, m.path, m.value).value, b[k].path)
  {
    SetAtLeafShape(w, m.path, m.value);
    forall k | 0 <= k < |b| ensures IsStringLeaf(SetAt(w, m.path, m.value).value, b[k].path) {
      SetAtKeepsLeaf(w, m.path, m.value, b[k].path);
    }
  }

  /** Writes at two different string leaves commute. */
  lemma {:induction false} SetAtCommute(v: Json, p1: seq<string>, s1: string, p2: seq<string>, s2: string)
    requires WellFormed(v) && IsStringLeaf(v, p1) && IsStringLeaf(v, p2) && p1 != p2
    ensures SetAt(v, p1, s1).Ok? && SetAt(v, p2, s2).Ok?
    ensures SetAt(SetAt(v, p1, s1).value, p2, s2).Ok?
    ensures SetAt(SetAt(v, p1, s1).value, p2, s2) == SetAt(SetAt(v, p2, s2).value, p1, s1)
    decreases |p1|
  {
    SetAtLeafShape(v, p1, s1);
    SetAtLeafShape(v, p2, s2);
    LeafPathsDiverge(v, p1, p2);
    ChildrenWellFormed(v);
    var i1 := ChildIndex(v, p1[0]).value;
    var i2 := ChildIndex(v, p2[0]).value;
    ChildIndexKey(v, p1[0]);
    ChildIndexKey(v, p2[0]);
    var c1, c2 := Children(v)[i1], Children(v)[i2];
    GetThroughChild(v, p1, i1);
    GetThroughChild(v, p2, i2);
    var d1 := Str(s1);
    if |p1| > 1 {
      SetAtLeafShape(c1, p1[1..], s1);
      d1 := SetAt(c1, p1[1..], s1).value;
    }
    var d2 := Str(s2);
    if |p2| > 1 {
      SetAtLeafShape(c2, p2[1..], s2);
      d2 := SetAt(c2, p2[1..], s2).value;
    }
    SetAtStep(v, p1, s1);
    SetAtStep(v, p2, s2);
    var w1, w2 := WithChild(v, i1, d1), WithChild(v, i2, d2);
    WithChildWellFormed(v, i1, d1);
    WithChildWellFormed(v, i2, d2);
    WithChildIndex(v, i1, d1, p2[0]);
    WithChildIndex(v, i2, d2, p1[0]);
    if i1 != i2 {
      SetAtStep(w1, p2, s2);
      SetAtStep(w2, p1, s1);
      WithChildSwap(v, i1, i2, d1, d2);
    } else {
      SetAtCommute(c1, p1[1..], s1, p2[1..], s2);
      SetAtStep(w1, p2, s2);
      SetAtStep(w2, p1, s1);
      WithChildTwice(v, i1, d1, SetAt(d1, p2[1..], s2).value);
      WithChildTwice(v, i1, d2, SetAt(d2, p1[1..], s1).value);
    }
  }

  /** Writing `n` first and then the rest is writing the rest into the
      value `n` produced. */
  lemma ReconstructFront(w: Json, n: StringNode, r: seq<StringNode>, last: StringNode)
    requires ReconstructStep(w, n).Ok?
    ensures Reconstructed(w, [n] + r + [last]) == Reconstructed(ReconstructStep(w, n).value, r + [last])
  {
    assert [n][..0] == [];
    assert [n] + r + [last] == [n] + (r + [last]);
    ReconstructedAppend(w, [n], r + [last]);
  }

  /** Later wins, from a value whose leaves all the writes before the last
      one hit: the first of two writes at one leaf path, followed by other
      leaf writes, may as well be dropped. */
  lemma {:induction false} LaterWinsAtLeaves(w: Json, n1: StringNode, b: seq<StringNode>, n2: StringNode)
    requires WellFormed(w) && n1.path == n2.path && IsStringLeaf(w, n1.path)
    requires forall k :: 0 <= k < |b| ==> IsStringLeaf(w, b[k].path)
    ensures Reconstructed(w, [n1] + b + [n2]) == Reconstructed(w, b + [n2])
    decreases |b|, 2
  {
    LeafWriteFirst(w, n1, b, n2);
    if b == [] {
      LaterWinsAdjacent(w, n1, n2);
    } else {
      LaterWinsStep(w, n1, b, n2);
    }
  }

  /** A first write at a string leaf succeeds; the rest is written into its
      result. */
  lemma LeafWriteFirst(w: Json, n1: StringNode, b: seq<StringNode>, n2: StringNode)
    requires WellFormed(w) && IsStringLeaf(w, n1.path)
    ensures SetAt(w, n1.path, n1.value).Ok?
    ensures Reconstructed(w, [n1] + b + [n2]) == Reconstructed(SetAt(w, n1.path, n1.value).value, b + [n2])
  {
    SetAtLeafShape(w, n1.path, n1.value);
    ReconstructFront(w, n1, b, n2);
  }

  lemma LaterWinsAdjacent(w: Json, n1: StringNode, n2: StringNode)
    requires WellFormed(w) && n1.path == n2.path && IsStringLeaf(w, n1.path)
    ensures SetAt(w, n1.path, n1.value).Ok?
    ensures Reconstructed(SetAt(w, n1.path, n1.value).value, [] + [n2]) == Reconstructed(w, [] + [n2])
  {
    SetAtLeafShape(w, n1.path, n1.value);
    assert [n2][..0] == [] && [] + [n2] == [n2];
    SetAtTwice(w, n1.path, n1.value, n2.value);
  }

  /** After the first write, the next write `b[0]` either overwrites it or
      commutes with it. */
  lemma {:induction false} LaterWinsStep(w: Json, n1: StringNode, b: seq<StringNode>, n2: StringNode)
    requires WellFormed(w) && n1.path == n2.path && IsStringLeaf(w, n1.path) && b != []
    requires forall k :: 0 <= k < |b| ==> IsStringLeaf(w, b[k].path)
    ensures SetAt(w, n1.path, n1.value).Ok?
    ensures Reconstructed(SetAt(w, n1.path, n1.value).value, b + [n2]) == Reconstructed(w, b + [n2])
    decreases |b|, 1
  {
    var p := n1.path;
    SetAtLeafShape(w, p, n1.value);
    var w1 := SetAt(w, p, n1.value).value;
    var m, b' := b[0], b[1..];
    assert b == [m] + b';
    assert IsStringLeaf(w, m.path);
    SetAtLeafShape(w, m.path, m.value);
    ReconstructFront(w, m, b', n2);
    if m.path == p {
      SetAtTwice(w, p, n1.value, m.value);
      ReconstructFront(w1, m, b', n2);
    } else {
      SetAtCommute(w, p, n1.value, m.path, m.value);
      ReconstructFront(w1, m, b', n2);
      forall k | 0 <= k < |b'| ensures IsStringLeaf(w, b'[k].path) {
        assert b'[k] == b[k + 1];
      }
      LaterWinsAfterLeafWrite(w, m, n1, b', n2);
    }
  }

  /** The induction step of `LaterWinsAtLeaves` past a write `m` at another
      leaf, which the first write commutes with. */
  lemma {:induction false} LaterWinsAfterLeafWrite(w: Json, m: StringNode, n1: StringNode, b': seq<StringNode>, n2: StringNode)
    requires WellFormed(w) && n1.path == n2.path && IsStringLeaf(w, n1.path) && IsStringLeaf(w, m.path)
    requires forall k :: 0 <= k < |b'| ==> IsStringLeaf(w, b'[k].path)
    ensures SetAt(w, m.path, m.value).Ok?
    ensures var wm := SetAt(w, m.path, m.value).value;
            SetAt(wm, n1.path, n1.value).Ok? &&
            Reconstructed(SetAt(wm, n1.path, n1.value).value, b' + [n2]) == Reconstructed(wm, b' + [n2])
    decreases |b'| + 1, 0
  {
    SetAtLeafShape(w, m.path, m.value);
    var wm := SetAt(w, m.path, m.value).value;
    SetAtKeepsLeaf(w, m.path, m.value, n1.path);
    SetAtKeepsLeaves(w, m, b');
    SetAtLeafShape(wm, n1.path, n1.value);
    ReconstructFront(wm, n1, b', n2);
    LaterWinsAtLeaves(wm, n1, b', n2);
  }

  /** Of two nodes with the same path, the later decides: the earlier write
      can be dropped, whatever was written before, as long as it and every
      write between the two hit string leaves of the value at that point. */
  lemma ReconstructLaterWins(v: Json, a: seq<StringNode>, n1: StringNode, b: seq<StringNode>, n2: StringNode)
    requires WellFormed(v) && Reconstructed(v, a).Ok? && n1.path == n2.path
    requires IsStringLeaf(Reconstructed(v, a).value, n1.path)
    requires forall k :: 0 <= k < |b| ==> IsStringLeaf(Reconstructed(v, a).value, b[k].path)
    ensures Reconstructed(v, a + [n1] + b + [n2]) == Reconstructed(v, a + b + [n2])
  {
    ReconstructedAfter(v, a, n1, b, n2);
    LaterWinsAfter(v, a, n1, b, n2);
  }

  /** Both lists of `ReconstructLaterWins` start with `a`. */
  lemma ReconstructedAfter(v: Json, a: seq<StringNode>, n1: StringNode, b: seq<StringNode>, n2: StringNode)
    requires Reconstructed(v, a).Ok?
    ensures Reconstructed(v, a + [n1] + b + [n2]) == Reconstructed(Reconstructed(v, a).value, [n1] + b + [n2])
    ensures Reconstructed(v, a + b + [n2]) == Reconstructed(Reconstructed(v, a).value, b + [n2])
  {
    assert a + [n1] + b + [n2] == a + ([n1] + b + [n2]);
    ReconstructedAppend(v, a, [n1] + b + [n2]);
    assert a + b + [n2] == a + (b + [n2]);
    ReconstructedAppend(v, a, b + [n2]);
  }

  lemma LaterWinsAfter(v: Json, a: seq<StringNode>, n1: StringNode, b: seq<StringNode>, n2: StringNode)
    requires WellFormed(v) && Reconstructed(v, a).Ok? && n1.path == n2.path
    requires IsStringLeaf(Reconstructed(v, a).value, n1.path)
    requires forall k :: 0 <= k < |b| ==> IsStringLeaf(Reconstructed(v, a).value, b[k].path)
    ensures var w := Reconstructed(v, a).value;
            Reconstructed(w, [n1] + b + [n2]) == Reconstructed(w, b + [n2])
  {
    ReconstructedWellFormed(v, a);
    LaterWinsAtLeaves(Reconstructed(v, a).value, n1, b, n2);
  }

  /** A new array-index key takes its numeric place among the leading index
      keys, before the keys added earlier. */
  lemma IndexKeyEntersInOrder()
    ensures Reconstructed(Obj(["a"], [Obj(["b"], [Str("y")])]), [StringNode(["a", "5"], "x")])
            == Ok(Obj(["a"], [Obj(["5", "b"], [Str("x"), Str("y")])]))
  {
    var inner := Obj(["b"], [Str("y")]);
    var v := Obj(["a"], [inner]);
    var node := StringNode(["a", "5"], "x");
    assert "5"[..0] == [] && DigitsValue("5") == 5 && NatToString(5) == "5";
    assert IsArrayIndex("5") && !IsArrayIndex("b");
    assert IndexOf(["b"], "5") == None && IndexSlot(["b"], 5) == 0;
    var ks: seq<string>, vs: seq<Json> := ["b"], [Str("y")];
    assert ks[..0] + ["5"] + ks[0..] == ["5", "b"];
    assert vs[..0] + [Str("x")] + vs[0..] == [Str("x"), Str("y")];
    assert Assign(inner, "5", "x") == Ok(Obj(["5", "b"], [Str("x"), Str("y")]));
    assert ChildIndex(v, "a") == Some(0);
    assert node.path[1..] == ["5"];
    assert SetAt(inner, ["5"], "x") == Assign(inner, "5", "x");
    assert [inner][0 := Obj(["5", "b"], [Str("x"), Str("y")])] == [Obj(["5", "b"], [Str("x"), Str("y")])];
    assert SetAt(v, node.path, "x") == Ok(Obj(["a"], [Obj(["5", "b"], [Str("x"), Str("y")])]));
    assert [node][..0] == [];
  }
}
