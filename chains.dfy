/** The parent chain of a FileSet, as values.

    A FileSet built by `filter` keeps a reference to the set it was filtered from, and
    `add`, `remove` and `rename` on it repeat themselves on that parent, and so on up
    to the root (hana/core.py:142-159). Seen as values, a set and its ancestors are a
    sequence of maps `ms`: `ms[0]` is the set's own map and `ms[i + 1]` is the map of
    the parent of the set that owns `ms[i]`. This module gives the effect of each
    operation on such a chain and proves what the propagation guarantees: a view stays
    a sub-map of its parent, and changes made through a view reach the root. */
module Chains {
  import opened Errors

  type Chain<V> = seq<map<string, V>>

  /** Every key of `a` is in `b` and maps to the identical value. */
  ghost predicate SubMap<V>(a: map<string, V>, b: map<string, V>) {
    forall k :: k in a ==> k in b && b[k] == a[k]
  }

  /** Each set of the chain is a sub-map of its parent. */
  ghost predicate Nested<V>(ms: Chain<V>) {
    forall i :: 0 <= i < |ms| - 1 ==> SubMap(ms[i], ms[i + 1])
  }

  /** The root's map: the last one of the chain. */
  function Top<V>(ms: Chain<V>): map<string, V>
    requires |ms| > 0
  {
    ms[|ms| - 1]
  }

  lemma {:induction false} NestedTail<V>(ms: Chain<V>)
    requires |ms| > 0 && Nested(ms)
    ensures Nested(ms[1..])
  {
    forall i | 0 <= i < |ms[1..]| - 1 ensures SubMap(ms[1..][i], ms[1..][i + 1]) {
      assert ms[1..][i] == ms[i + 1] && ms[1..][i + 1] == ms[i + 2];
    }
  }

  lemma {:induction false} NestedCons<V>(m: map<string, V>, ms: Chain<V>)
    requires Nested(ms)
    requires |ms| > 0 ==> SubMap(m, ms[0])
    ensures Nested([m] + ms)
  {
    var r := [m] + ms;
    forall i | 0 <= i < |r| - 1 ensures SubMap(r[i], r[i + 1]) {
      if i > 0 { assert r[i] == ms[i - 1] && r[i + 1] == ms[i]; }
    }
  }

  /** In a nested chain every map is a sub-map of every later one, in particular of the root. */
  lemma {:induction false} NestedReachesTop<V>(ms: Chain<V>, i: int)
    requires Nested(ms) && 0 <= i < |ms|
    ensures SubMap(ms[i], Top(ms))
    decreases |ms| - i
  {
    if i < |ms| - 1 {
      NestedReachesTop(ms, i + 1);
    }
  }

  // ----- add -----

  /** `add(k, v)` with propagation to every ancestor. */
  function AddThrough<V>(ms: Chain<V>, k: string, v: V): (r: Chain<V>)
    ensures |r| == |ms|
    ensures forall i :: 0 <= i < |ms| ==> r[i] == ms[i][k := v]
  {
    if ms == [] then [] else [ms[0][k := v]] + AddThrough(ms[1..], k, v)
  }

  lemma AddThroughCons<V>(m: map<string, V>, ms: Chain<V>, k: string, v: V)
    ensures AddThrough([m] + ms, k, v) == [m[k := v]] + AddThrough(ms, k, v)
  {
    assert ([m] + ms)[1..] == ms;
  }

  /** Adding through a view keeps every set a sub-map of its parent. */
  lemma AddKeepsNested<V>(ms: Chain<V>, k: string, v: V)
    requires Nested(ms)
    ensures Nested(AddThrough(ms, k, v))
  {
    var r := AddThrough(ms, k, v);
    forall i | 0 <= i < |r| - 1 ensures SubMap(r[i], r[i + 1]) {
      assert SubMap(ms[i], ms[i + 1]);
    }
  }

  /** The size of a single map grows by one exactly when the key was new. */
  lemma AddSize<V>(m: map<string, V>, k: string, v: V)
    ensures |m[k := v]| == if k in m then |m| else |m| + 1
  {
    if k in m {
      assert m[k := v].Keys == m.Keys;
    } else {
      assert m[k := v].Keys == m.Keys + {k};
    }
  }

  /** `add` exactly as hana/core.py:142-146 writes it: the test `if self._parent:` calls
      `FileSet.__len__`, so propagation stops below a parent that is still empty. */
  function AddThroughAsWritten<V>(ms: Chain<V>, k: string, v: V): (r: Chain<V>)
    ensures |r| == |ms|
    ensures |ms| > 0 ==> r[0] == ms[0][k := v]
    ensures forall i :: 0 <= i < |ms| ==> r[i] == ms[i] || r[i] == ms[i][k := v]
    ensures |ms| > 1 && |ms[1]| == 0 ==> r[1..] == ms[1..]
  {
    if ms == [] then []
    else if |ms| > 1 && |ms[1]| > 0 then [ms[0][k := v]] + AddThroughAsWritten(ms[1..], k, v)
    else [ms[0][k := v]] + ms[1..]
  }

  /** As written, a file added through a view of an empty set never reaches that set,
      and the view stops being a sub-map of its parent. */
  lemma AsWrittenAddIsLost<V>(k: string, v: V)
    ensures var empty: map<string, V> := map[];
            var r := AddThroughAsWritten([empty, empty], k, v);
            Nested([empty, empty]) && k in r[0] && k !in r[1] && !Nested(r)
  {
    var empty: map<string, V> := map[];
    var r := AddThroughAsWritten([empty, empty], k, v);
    assert r == [empty[k := v], empty];
    assert !SubMap(r[0], r[1]);
  }

  /** The code as written agrees with the intended propagation whenever every ancestor
      is non-empty. */
  lemma {:induction false} AsWrittenAddAgreesBelowNonEmptyParents<V>(ms: Chain<V>, k: string, v: V)
    requires forall i :: 1 <= i < |ms| ==> |ms[i]| > 0
    ensures AddThroughAsWritten(ms, k, v) == AddThrough(ms, k, v)
  {
    if |ms| > 1 {
      forall i | 1 <= i < |ms[1..]| ensures |ms[1..][i]| > 0 {
        assert ms[1..][i] == ms[i + 1];
      }
      AsWrittenAddAgreesBelowNonEmptyParents(ms[1..], k, v);
    }
  }

  // ----- remove -----

  /** `remove(k)` with propagation: each level pops the key, raising KeyError at the
      first level that lacks it; the levels below it have already been changed. */
  function RemoveThrough<V>(ms: Chain<V>, k: string): (r: (Chain<V>, Outcome))
    ensures |r.0| == |ms|
    ensures r.1 == Pass <==> forall i :: 0 <= i < |ms| ==> k in ms[i]
    ensures r.1 == Pass || r.1 == Fail(KeyError)
    ensures forall i :: 0 <= i < |ms| ==> r.0[i] == ms[i] || r.0[i] == ms[i] - {k}
    ensures r.1 == Pass ==> forall i :: 0 <= i < |ms| ==> r.0[i] == ms[i] - {k}
  {
    if ms == [] then ([], Pass)
    else if k !in ms[0] then (ms, Fail(KeyError))
    else
      var (rest, o) := RemoveThrough(ms[1..], k);
      ([ms[0] - {k}] + rest, o)
  }

  /** On a nested chain, `remove` fails exactly when the view lacks the key, and then
      changes nothing; otherwise the key is gone from every level and nothing else changed. */
  lemma {:induction false} RemoveNested<V>(ms: Chain<V>, k: string)
    requires |ms| > 0 && Nested(ms)
    ensures RemoveThrough(ms, k).1 == if k in ms[0] then Pass else Fail(KeyError)
    ensures k !in ms[0] ==> RemoveThrough(ms, k).0 == ms
    ensures k in ms[0] ==> forall i :: 0 <= i < |ms| ==> RemoveThrough(ms, k).0[i] == ms[i] - {k}
    ensures Nested(RemoveThrough(ms, k).0)
  {
    if k in ms[0] {
      var r := RemoveThrough(ms, k);
      if |ms| > 1 {
        NestedTail(ms);
        assert SubMap(ms[0], ms[1]);
        RemoveNested(ms[1..], k);
        var rest := RemoveThrough(ms[1..], k).0;
        assert r.0 == [ms[0] - {k}] + rest;
        forall i | 0 <= i < |ms| ensures r.0[i] == ms[i] - {k} {
          if i > 0 { assert r.0[i] == rest[i - 1] && ms[1..][i - 1] == ms[i]; }
        }
        assert SubMap(ms[0] - {k}, rest[0]);
        NestedCons(ms[0] - {k}, rest);
      } else {
        assert r.0 == [ms[0] - {k}];
        NestedCons(ms[0] - {k}, []);
      }
    }
  }

  /** `remove` as written: the parent is not called when it is empty. */
  function RemoveThroughAsWritten<V>(ms: Chain<V>, k: string): (r: (Chain<V>, Outcome))
    ensures |r.0| == |ms|
    ensures r.1 == Pass || r.1 == Fail(KeyError)
    ensures forall i :: 0 <= i < |ms| ==> r.0[i] == ms[i] || r.0[i] == ms[i] - {k}
    ensures |ms| > 0 && r.1 == Pass ==> k in ms[0]
    ensures |ms| > 1 && |ms[1]| == 0 ==> (r.1 == Pass <==> k in ms[0]) && r.0[1..] == ms[1..]
  {
    if ms == [] then ([], Pass)
    else if k !in ms[0] then (ms, Fail(KeyError))
    else if |ms| > 1 && |ms[1]| > 0 then
      var (rest, o) := RemoveThroughAsWritten(ms[1..], k);
      ([ms[0] - {k}] + rest, o)
    else ([ms[0] - {k}] + ms[1..], Pass)
  }

  /** On a nested chain the parent of a level that holds the key holds it too, so is
      never empty, and the code as written behaves as intended. */
  lemma {:induction false} AsWrittenRemoveAgreesWhenNested<V>(ms: Chain<V>, k: string)
    requires Nested(ms)
    ensures RemoveThroughAsWritten(ms, k) == RemoveThrough(ms, k)
  {
    if |ms| > 1 && k in ms[0] {
      assert SubMap(ms[0], ms[1]);
      assert ms[1] != map[] by { assert k in ms[1]; }
      NestedTail(ms);
      AsWrittenRemoveAgreesWhenNested(ms[1..], k);
    }
  }

  // ----- rename -----

  /** `rename(a, b)` with propagation: each level moves its own entry for `a` to `b`,
      overwriting `b`, and raises KeyError at the first level that lacks `a`. */
  function RenameThrough<V>(ms: Chain<V>, a: string, b: string): (r: (Chain<V>, Outcome))
    ensures |r.0| == |ms|
    ensures r.1 == Pass <==> forall i :: 0 <= i < |ms| ==> a in ms[i]
    ensures r.1 == Pass || r.1 == Fail(KeyError)
    ensures forall i :: 0 <= i < |ms| ==>
              r.0[i] == ms[i] || (a in ms[i] && r.0[i] == (ms[i] - {a})[b := ms[i][a]])
  {
    if ms == [] then ([], Pass)
    else if a !in ms[0] then (ms, Fail(KeyError))
    else
      var (rest, o) := RenameThrough(ms[1..], a, b);
      ([(ms[0] - {a})[b := ms[0][a]]] + rest, o)
  }

  /** On a nested chain, `rename` fails exactly when the view lacks `a`, and then
      changes nothing; otherwise every level maps `b` to the file the view had at `a`
      and no longer holds `a` (unless `a == b`). */
  lemma {:induction false} RenameNested<V>(ms: Chain<V>, a: string, b: string)
    requires |ms| > 0 && Nested(ms)
    ensures RenameThrough(ms, a, b).1 == if a in ms[0] then Pass else Fail(KeyError)
    ensures a !in ms[0] ==> RenameThrough(ms, a, b).0 == ms
    ensures a in ms[0] ==> forall i :: 0 <= i < |ms| ==>
              RenameThrough(ms, a, b).0[i] == (ms[i] - {a})[b := ms[0][a]]
    ensures Nested(RenameThrough(ms, a, b).0)
  {
    if a in ms[0] {
      var f := ms[0][a];
      var r := RenameThrough(ms, a, b);
      if |ms| > 1 {
        NestedTail(ms);
        assert SubMap(ms[0], ms[1]);
        assert a in ms[1] && ms[1][a] == f;
        RenameNested(ms[1..], a, b);
        var rest := RenameThrough(ms[1..], a, b).0;
        assert r.0 == [(ms[0] - {a})[b := f]] + rest;
        forall i | 0 <= i < |ms| ensures r.0[i] == (ms[i] - {a})[b := f] {
          if i > 0 { assert r.0[i] == rest[i - 1] && ms[1..][i - 1] == ms[i]; }
        }
        assert rest[0] == (ms[1] - {a})[b := f];
        NestedCons((ms[0] - {a})[b := f], rest);
      } else {
        assert r.0 == [(ms[0] - {a})[b := f]];
        NestedCons((ms[0] - {a})[b := f], []);
      }
    }
  }

  /** Renaming a key onto itself leaves the map as it was. */
  lemma RenameOntoItself<V>(m: map<string, V>, a: string)
    requires a in m
    ensures (m - {a})[a := m[a]] == m
  {
  }

  /** `rename` as written: the parent is not called when it is empty. */
  function RenameThroughAsWritten<V>(ms: Chain<V>, a: string, b: string): (r: (Chain<V>, Outcome))
    ensures |r.0| == |ms|
    ensures r.1 == Pass || r.1 == Fail(KeyError)
    ensures forall i :: 0 <= i < |ms| ==>
              r.0[i] == ms[i] || (a in ms[i] && r.0[i] == (ms[i] - {a})[b := ms[i][a]])
    ensures |ms| > 0 && r.1 == Pass ==> a in ms[0]
    ensures |ms| > 1 && |ms[1]| == 0 ==> (r.1 == Pass <==> a in ms[0]) && r.0[1..] == ms[1..]
  {
    if ms == [] then ([], Pass)
    else if a !in ms[0] then (ms, Fail(KeyError))
    else if |ms| > 1 && |ms[1]| > 0 then
      var (rest, o) := RenameThroughAsWritten(ms[1..], a, b);
      ([(ms[0] - {a})[b := ms[0][a]]] + rest, o)
    else ([(ms[0] - {a})[b := ms[0][a]]] + ms[1..], Pass)
  }

  lemma {:induction false} AsWrittenRenameAgreesWhenNested<V>(ms: Chain<V>, a: string, b: string)
    requires Nested(ms)
    ensures RenameThroughAsWritten(ms, a, b) == RenameThrough(ms, a, b)
  {
    if |ms| > 1 && a in ms[0] {
      assert SubMap(ms[0], ms[1]);
      assert ms[1] != map[] by { assert a in ms[1]; }
      NestedTail(ms);
      AsWrittenRenameAgreesWhenNested(ms[1..], a, b);
    }
  }

  /** Below an empty parent, which only the add as written leaves behind, `remove` and
      `rename` as written skip the parent and return normally, while the propagation
      the model uses reaches the parent and raises KeyError there. */
  lemma AsWrittenRemoveAndRenameBelowEmptyParent<V>(k: string, b: string, v: V)
    ensures var empty: map<string, V> := map[];
            var ms := [empty[k := v], empty];
            && RemoveThroughAsWritten(ms, k) == ([empty, empty], Pass)
            && RemoveThrough(ms, k).1 == Fail(KeyError)
            && RenameThroughAsWritten(ms, k, b) == ([empty[b := v], empty], Pass)
            && RenameThrough(ms, k, b).1 == Fail(KeyError)
  {
    var empty: map<string, V> := map[];
    var ms := [empty[k := v], empty];
    assert ms[1..] == [empty] && |ms[1]| == 0;
    assert ms[0] - {k} == empty && ms[0][k] == v;
    assert [ms[0] - {k}] + ms[1..] == [empty, empty];
    assert [(ms[0] - {k})[b := v]] + ms[1..] == [empty[b := v], empty];
    assert RemoveThrough([empty], k) == ([empty], Fail(KeyError));
    assert RenameThrough([empty], k, b) == ([empty], Fail(KeyError));
  }

  // ----- filter -----

  /** The entries of `m` whose names the matcher accepts. */
  function Select<V>(m: map<string, V>, matches: string -> bool): (r: map<string, V>)
    ensures SubMap(r, m)
    ensures forall k :: k in r <==> k in m && matches(k)
  {
    map k | k in m && matches(k) :: m[k]
  }

  /** Every level of the chain with the entries of `p` written over it. */
  function OverlayThrough<V>(ms: Chain<V>, p: map<string, V>): (r: Chain<V>)
    ensures |r| == |ms|
    ensures forall i :: 0 <= i < |ms| ==> r[i] == ms[i] + p
  {
    if ms == [] then [] else [ms[0] + p] + OverlayThrough(ms[1..], p)
  }

  lemma OverlayOfEmpty<V>(ms: Chain<V>)
    ensures OverlayThrough(ms, map[]) == ms
  {
    var r := OverlayThrough(ms, map[]);
    forall i | 0 <= i < |ms| ensures r[i] == ms[i] {
      assert ms[i] + map[] == ms[i];
    }
  }

  lemma OverlayOfSubMap<V>(m: map<string, V>, p: map<string, V>)
    requires SubMap(p, m)
    ensures m + p == m
  {
  }

  lemma AddAfterOverlay<V>(ms: Chain<V>, p: map<string, V>, k: string, v: V)
    ensures AddThrough(OverlayThrough(ms, p), k, v) == OverlayThrough(ms, p[k := v])
  {
    var l, r := AddThrough(OverlayThrough(ms, p), k, v), OverlayThrough(ms, p[k := v]);
    forall i | 0 <= i < |ms| ensures l[i] == r[i] {
      UpdateAfterUnion(ms[i], p, k, v);
    }
  }

  lemma UpdateAfterUnion<V>(m: map<string, V>, p: map<string, V>, k: string, v: V)
    ensures (m + p)[k := v] == m + p[k := v]
  {
    assert (m + p)[k := v].Keys == (m + p[k := v]).Keys;
  }

  /** Writing a sub-map of the view back over a nested chain changes nothing: this is
      why building a filtered view leaves its ancestors as they were. */
  lemma OverlayOfSubMapIsIdentity<V>(ms: Chain<V>, p: map<string, V>)
    requires |ms| > 0 && Nested(ms) && SubMap(p, ms[0])
    ensures OverlayThrough(ms, p) == ms
  {
    var r := OverlayThrough(ms, p);
    forall i | 0 <= i < |ms| ensures r[i] == ms[i] {
      SubMapTransitive(ms, i);
      SubMapThrough(p, ms[0], ms[i]);
      OverlayOfSubMap(ms[i], p);
    }
  }

  lemma SubMapThrough<V>(a: map<string, V>, b: map<string, V>, c: map<string, V>)
    requires SubMap(a, b) && SubMap(b, c)
    ensures SubMap(a, c)
  {
  }

  lemma {:induction false} SubMapTransitive<V>(ms: Chain<V>, i: int)
    requires Nested(ms) && 0 <= i < |ms|
    ensures SubMap(ms[0], ms[i])
  {
    if i > 0 {
      SubMapTransitive(ms, i - 1);
      assert SubMap(ms[i - 1], ms[i]);
    }
  }

  // ----- scripts of operations, as a plugin performs them on its view -----

  datatype Op<V> =
    | AddOp(key: string, file: V)
    | RemoveOp(key: string)
    | RenameOp(oldName: string, newName: string)

  function ApplyOp<V>(ms: Chain<V>, op: Op<V>): (r: (Chain<V>, Outcome))
    ensures |r.0| == |ms|
    ensures r.1 == Pass || r.1 == Fail(KeyError)
    ensures op.AddOp? ==> r.1 == Pass
  {
    match op
    case AddOp(k, v) => (AddThrough(ms, k, v), Pass)
    case RemoveOp(k) => RemoveThrough(ms, k)
    case RenameOp(a, b) => RenameThrough(ms, a, b)
  }

  /** Runs the operations in order; the first one that raises stops the script. */
  function ApplyOps<V>(ms: Chain<V>, ops: seq<Op<V>>): (r: (Chain<V>, Outcome))
    ensures |r.0| == |ms|
    ensures r.1 == Pass || r.1 == Fail(KeyError)
    ensures (forall i :: 0 <= i < |ops| ==> ops[i].AddOp?) ==> r.1 == Pass
    decreases |ops|
  {
    if ops == [] then (ms, Pass)
    else
      var (ms', o) := ApplyOp(ms, ops[0]);
      if o.Fail? then (ms', o) else ApplyOps(ms', ops[1..])
  }

  /** An operation that succeeds through a view of a nested chain keeps the chain nested
      and does to the root exactly what it would do applied to the root directly. */
  lemma ApplyOpReachesTop<V>(ms: Chain<V>, op: Op<V>)
    requires |ms| > 0 && Nested(ms)
    requires ApplyOp(ms, op).1 == Pass
    ensures Nested(ApplyOp(ms, op).0)
    ensures ApplyOp([Top(ms)], op) == ([Top(ApplyOp(ms, op).0)], Pass)
  {
    var t := Top(ms);
    match op
    case AddOp(k, v) =>
      AddKeepsNested(ms, k, v);
      assert AddThrough([t], k, v) == [t[k := v]];
    case RemoveOp(k) =>
      RemoveNested(ms, k);
      NestedReachesTop(ms, 0);
      RemoveNested([t], k);
      assert RemoveThrough([t], k).0 == [t - {k}];
    case RenameOp(a, b) =>
      RenameNested(ms, a, b);
      NestedReachesTop(ms, 0);
      RenameNested([t], a, b);
      assert RenameThrough([t], a, b).0 == [(t - {a})[b := t[a]]];
  }

  /** A script that runs to completion through a view of a nested chain leaves the chain
      nested and leaves the root as if the script had been run on the root itself. */
  lemma {:induction false} ApplyOpsReachesTop<V>(ms: Chain<V>, ops: seq<Op<V>>)
    requires |ms| > 0 && Nested(ms)
    requires ApplyOps(ms, ops).1 == Pass
    ensures Nested(ApplyOps(ms, ops).0)
    ensures ApplyOps([Top(ms)], ops) == ([Top(ApplyOps(ms, ops).0)], Pass)
    decreases |ops|
  {
    if ops != [] {
      var (ms', o) := ApplyOp(ms, ops[0]);
      assert o == Pass;
      ApplyOpReachesTop(ms, ops[0]);
      ApplyOpsReachesTop(ms', ops[1..]);
    }
  }
}
