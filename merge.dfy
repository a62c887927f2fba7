/**
  The partial update of a PUT request, `merge_dicts(old_dict, new_dict)`. The
  result is described key by key over the union of both dicts. A key found only
  in the old dict keeps its value and its position. A key found only in the new
  dict is appended, in the new dict's order. A key found in both takes the
  combination MergeValue. The method MergeDicts is the loop the handler runs,
  and it is proved to compute that description.
 */
module DictMerge {
  import opened Values

  /** What a key found in both dicts ends up holding. Two lists are concatenated
      (`extend`), two dicts are merged recursively, anything else is overwritten
      by the new value. */
  function MergeValue(o: Value, n: Value): Value
    decreases o, 1
  {
    if o.Arr? && n.Arr? then Arr(o.items + n.items)
    else if o.Obj? && n.Obj? then Obj(Merge(o.fields, n.fields))
    else n
  }

  /** The merged dict: the old entries, updated where the new dict has the key, then the
      new dict's fresh keys. */
  function Merge(od: seq<Field>, nd: seq<Field>): seq<Field>
    decreases od, 3
  {
    MergedOld(od, nd) + Added(od, nd)
  }

  /** The old dict's entries in their order, each combined with the new value where there is one. */
  function MergedOld(od: seq<Field>, nd: seq<Field>): seq<Field>
    decreases od, 2
  {
    if od == [] then []
    else
      var f := od[0];
      var v := if f.key in Keys(nd) then MergeValue(f.val, Get(nd, f.key)) else f.val;
      [Field(f.key, v)] + MergedOld(od[1..], nd)
  }

  /** The new dict's entries whose key the old dict does not have, in their order. */
  function Added(od: seq<Field>, nd: seq<Field>): seq<Field>
  {
    if nd == [] then []
    else if nd[0].key in Keys(od) then Added(od, nd[1..])
    else [nd[0]] + Added(od, nd[1..])
  }

  /** What `old_dict[key]` becomes when the loop reaches `key: value`. */
  function Entry(od: seq<Field>, k: string, v: Value): Value
  {
    if k in Keys(od) then MergeValue(Get(od, k), v) else v
  }

  /** `merge_dicts`: walks the new dict's items in order and writes each one into the old dict. */
  method MergeDicts(od: seq<Field>, nd: seq<Field>) returns (r: seq<Field>)
    requires WF(Obj(od)) && WF(Obj(nd))
    ensures r == Merge(od, nd)
    decreases od
  {
    r := od;
    var i := 0;
    MergeEmptyNew(od);
    while i < |nd|
      invariant 0 <= i <= |nd|
      invariant r == Merge(od, nd[..i])
    {
      var key, value := nd[i].key, nd[i].val;
      NoDupPrefix(nd, i);
      MergeKeys(od, nd[..i]);
      if key in Keys(r) {
        assert key in Keys(od);
        MergeGet(od, nd[..i], key);
        var j := Find(od, key);
        GetFind(od, key);
        var cur := od[j].val;
        assert Get(r, key) == cur;
        if cur.Arr? && value.Arr? {
          r := Put(r, key, Arr(cur.items + value.items));
        } else if cur.Obj? && value.Obj? {
          GetWF(od, key);
          var sub := MergeDicts(cur.fields, value.fields);
          r := Put(r, key, Obj(sub));
        } else {
          r := Put(r, key, value);
        }
      } else {
        r := Put(r, key, value);
      }
      MergeStep(od, nd[..i], nd[i]);
      assert nd[..i + 1] == nd[..i] + [nd[i]];
      i := i + 1;
    }
    assert nd[..i] == nd;
  }

  /** In a dict with distinct keys, the key of entry `i` does not occur before it. */
  lemma {:induction false} NoDupPrefix(fs: seq<Field>, i: nat)
    requires NoDup(fs) && i < |fs|
    ensures fs[i].key !in Keys(fs[..i])
  {
    if i > 0 {
      NoDupPrefix(fs[1..], i - 1);
      assert fs[..i] == [fs[0]] + fs[1..][..i - 1];
      assert fs[1..][i - 1] == fs[i];
      KeysIndex(fs[1..], fs[i].key);
      KeysAppend([fs[0]], fs[1..][..i - 1]);
    }
  }

  lemma {:induction false} MergedOldKeys(od: seq<Field>, nd: seq<Field>)
    ensures |MergedOld(od, nd)| == |od|
    ensures forall i :: 0 <= i < |od| ==> MergedOld(od, nd)[i].key == od[i].key
    ensures Keys(MergedOld(od, nd)) == Keys(od)
  {
    if od != [] {
      MergedOldKeys(od[1..], nd);
      var m := MergedOld(od, nd);
      assert m[1..] == MergedOld(od[1..], nd);
    }
  }

  lemma {:induction false} AddedKeys(od: seq<Field>, nd: seq<Field>)
    ensures Keys(Added(od, nd)) == Keys(nd) - Keys(od)
  {
    if nd != [] {
      AddedKeys(od, nd[1..]);
      if nd[0].key !in Keys(od) {
        KeysAppend([nd[0]], Added(od, nd[1..]));
      }
    }
  }

  /** `Get` on two dicts written one after the other finds the first one's entry first. */
  lemma {:induction false} GetAppend(a: seq<Field>, b: seq<Field>, k: string)
    requires k in Keys(a) || k in Keys(b)
    ensures k in Keys(a + b)
    ensures Get(a + b, k) == if k in Keys(a) then Get(a, k) else Get(b, k)
  {
    KeysAppend(a, b);
    if a == [] {
      assert a + b == b;
    } else {
      assert (a + b)[0] == a[0];
      assert (a + b)[1..] == a[1..] + b;
      if a[0].key != k {
        GetAppend(a[1..], b, k);
      }
    }
  }

  /** Assigning a key found in the first of two dicts written one after the other. */
  lemma {:induction false} PutAppendLeft(a: seq<Field>, b: seq<Field>, k: string, v: Value)
    requires k in Keys(a)
    ensures Put(a + b, k, v) == Put(a, k, v) + b
  {
    var ab := a + b;
    assert ab[0] == a[0];
    assert ab[1..] == a[1..] + b;
    if a[0].key != k {
      PutAppendLeft(a[1..], b, k, v);
      assert Put(ab, k, v) == [a[0]] + Put(a[1..] + b, k, v);
    } else {
      assert Put(ab, k, v) == [Field(k, v)] + (a[1..] + b);
    }
  }

  /** Assigning a key neither of two dicts has appends it after both. */
  lemma {:induction false} PutAppendFresh(a: seq<Field>, b: seq<Field>, k: string, v: Value)
    requires k !in Keys(a) && k !in Keys(b)
    ensures Put(a + b, k, v) == a + b + [Field(k, v)]
  {
    KeysAppend(a, b);
  }

  /** Adding an entry for a key that no old entry has leaves the old entries as they were. */
  lemma {:induction false} MergedOldFresh(od: seq<Field>, p: seq<Field>, f: Field)
    requires f.key !in Keys(od) && f.key !in Keys(p)
    ensures MergedOld(od, p + [f]) == MergedOld(od, p)
  {
    if od != [] {
      MergedOldFresh(od[1..], p, f);
      var k := od[0].key;
      KeysAppend(p, [f]);
      if k in Keys(p) {
        GetAppend(p, [f], k);
      }
    }
  }

  /** Adding an entry for the key of an old entry combines that entry and nothing else. */
  lemma {:induction false} MergedOldShared(od: seq<Field>, p: seq<Field>, f: Field)
    requires NoDup(od) && f.key in Keys(od) && f.key !in Keys(p)
    ensures f.key in Keys(MergedOld(od, p))
    ensures MergedOld(od, p + [f]) == Put(MergedOld(od, p), f.key, MergeValue(Get(od, f.key), f.val))
  {
    MergedOldKeys(od, p);
    KeysAppend(p, [f]);
    var k := od[0].key;
    if k == f.key {
      GetAppend(p, [f], k);
      MergedOldFresh(od[1..], p, f);
    } else {
      MergedOldShared(od[1..], p, f);
      if k in Keys(p) {
        GetAppend(p, [f], k);
      }
    }
  }

  /** Each round of the loop: merging one more entry of the new dict assigns its Entry. */
  lemma MergeStep(od: seq<Field>, p: seq<Field>, f: Field)
    requires NoDup(od) && f.key !in Keys(p)
    ensures Merge(od, p + [f]) == Put(Merge(od, p), f.key, Entry(od, f.key, f.val))
  {
    var a, b := MergedOld(od, p), Added(od, p);
    MergedOldKeys(od, p);
    AddedKeys(od, p);
    if f.key in Keys(od) {
      MergedOldShared(od, p, f);
      assert Added(od, p + [f]) == b by { AddedSnoc(od, p, f); }
      PutAppendLeft(a, b, f.key, Entry(od, f.key, f.val));
    } else {
      MergedOldFresh(od, p, f);
      assert Added(od, p + [f]) == b + [f] by { AddedSnoc(od, p, f); }
      PutAppendFresh(a, b, f.key, f.val);
    }
  }

  lemma {:induction false} AddedSnoc(od: seq<Field>, p: seq<Field>, f: Field)
    ensures Added(od, p + [f]) == if f.key in Keys(od) then Added(od, p) else Added(od, p) + [f]
  {
    if p == [] {
      assert p + [f] == [f];
      assert [f][1..] == [];
    } else {
      assert (p + [f])[0] == p[0];
      assert (p + [f])[1..] == p[1..] + [f];
      AddedSnoc(od, p[1..], f);
    }
  }

  /** The merge has every key of either dict and no other. */
  lemma MergeKeys(od: seq<Field>, nd: seq<Field>)
    ensures Keys(Merge(od, nd)) == Keys(od) + Keys(nd)
  {
    MergedOldKeys(od, nd);
    AddedKeys(od, nd);
    KeysAppend(MergedOld(od, nd), Added(od, nd));
  }

  lemma {:induction false} GetMergedOld(od: seq<Field>, nd: seq<Field>, k: string)
    requires k in Keys(od)
    ensures k in Keys(MergedOld(od, nd))
    ensures Get(MergedOld(od, nd), k) == if k in Keys(nd) then MergeValue(Get(od, k), Get(nd, k)) else Get(od, k)
  {
    MergedOldKeys(od, nd);
    if od[0].key != k {
      GetMergedOld(od[1..], nd, k);
    }
  }

  lemma {:induction false} GetAdded(od: seq<Field>, nd: seq<Field>, k: string)
    requires k in Keys(nd) && k !in Keys(od)
    ensures k in Keys(Added(od, nd))
    ensures Get(Added(od, nd), k) == Get(nd, k)
  {
    AddedKeys(od, nd);
    if nd[0].key != k {
      GetAdded(od, nd[1..], k);
    }
  }

  /** A key only the old dict has is kept unchanged, a key only the new dict has is added as
      it is, and a key both have holds MergeValue of the two values. */
  lemma MergeGet(od: seq<Field>, nd: seq<Field>, k: string)
    requires k in Keys(od) || k in Keys(nd)
    ensures k in Keys(Merge(od, nd))
    ensures Get(Merge(od, nd), k) ==
      if k in Keys(od) && k in Keys(nd) then MergeValue(Get(od, k), Get(nd, k))
      else if k in Keys(od) then Get(od, k)
      else Get(nd, k)
  {
    var a, b := MergedOld(od, nd), Added(od, nd);
    MergedOldKeys(od, nd);
    AddedKeys(od, nd);
    if k in Keys(od) {
      GetMergedOld(od, nd, k);
    } else {
      GetAdded(od, nd, k);
    }
    GetAppend(a, b, k);
  }

  /** The old dict's keys stay where they were, at the front, in their order. */
  lemma MergeKeepsOrder(od: seq<Field>, nd: seq<Field>)
    ensures |Merge(od, nd)| >= |od|
    ensures forall i :: 0 <= i < |od| ==> Merge(od, nd)[i].key == od[i].key
  {
    MergedOldKeys(od, nd);
  }

  lemma {:induction false} MergedOldEmpty(od: seq<Field>)
    ensures MergedOld(od, []) == od
  {
    if od != [] {
      MergedOldEmpty(od[1..]);
    }
  }

  /** `merge(old, {})` is `old`. */
  lemma MergeEmptyNew(od: seq<Field>)
    ensures Merge(od, []) == od
  {
    MergedOldEmpty(od);
  }

  lemma {:induction false} AddedToEmpty(nd: seq<Field>)
    ensures Added([], nd) == nd
  {
    if nd != [] {
      AddedToEmpty(nd[1..]);
    }
  }

  /** `merge({}, new)` is `new`. */
  lemma MergeEmptyOld(nd: seq<Field>)
    ensures Merge([], nd) == nd
  {
    AddedToEmpty(nd);
  }

  /** Two lists under the same key are appended, with no deduplication:
      `merge({a: [1, 2]}, {a: [3]}) == {a: [1, 2, 3]}`. */
  lemma MergeListsAppend()
    ensures Merge([Field("a", Arr([Int(1), Int(2)]))], [Field("a", Arr([Int(3)]))])
         == [Field("a", Arr([Int(1), Int(2), Int(3)]))]
  {
    assert [Int(1), Int(2)] + [Int(3)] == [Int(1), Int(2), Int(3)];
  }

  /** Two dicts under the same key are merged: `merge({a: {x: 1}}, {a: {y: 2}}) == {a: {x: 1, y: 2}}`. */
  lemma MergeNested()
    ensures Merge([Field("a", Obj([Field("x", Int(1))]))], [Field("a", Obj([Field("y", Int(2))]))])
         == [Field("a", Obj([Field("x", Int(1)), Field("y", Int(2))]))]
  {
    var inner := Merge([Field("x", Int(1))], [Field("y", Int(2))]);
    assert MergedOld([Field("x", Int(1))], [Field("y", Int(2))]) == [Field("x", Int(1))];
    assert Added([Field("x", Int(1))], [Field("y", Int(2))]) == [Field("y", Int(2))];
    assert inner == [Field("x", Int(1)), Field("y", Int(2))];
  }

  /** Merging well-formed dicts gives a well-formed dict. */
  lemma {:induction false} MergeWF(od: seq<Field>, nd: seq<Field>)
    requires WF(Obj(od)) && WF(Obj(nd))
    ensures WF(Obj(Merge(od, nd)))
    decreases od, 3
  {
    MergedOldWF(od, nd);
    AddedWF(od, nd);
    MergedOldKeys(od, nd);
    AddedKeys(od, nd);
    NoDupAppend(MergedOld(od, nd), Added(od, nd));
    var m := Merge(od, nd);
    forall i | 0 <= i < |m| ensures WF(m[i].val) {
      if i >= |MergedOld(od, nd)| {
        assert m[i] == Added(od, nd)[i - |MergedOld(od, nd)|];
      }
    }
  }

  lemma {:induction false} MergeValueWF(o: Value, n: Value)
    requires WF(o) && WF(n)
    ensures WF(MergeValue(o, n))
    decreases o, 1
  {
    if o.Arr? && n.Arr? {
      var xs := o.items + n.items;
      forall i | 0 <= i < |xs| ensures WF(xs[i]) {
        if i >= |o.items| { assert xs[i] == n.items[i - |o.items|]; }
      }
    } else if o.Obj? && n.Obj? {
      MergeWF(o.fields, n.fields);
    }
  }

  lemma {:induction false} MergedOldWF(od: seq<Field>, nd: seq<Field>)
    requires WF(Obj(od)) && WF(Obj(nd))
    ensures NoDup(MergedOld(od, nd))
    ensures forall i :: 0 <= i < |MergedOld(od, nd)| ==> WF(MergedOld(od, nd)[i].val)
    decreases od, 2
  {
    if od != [] {
      var f := od[0];
      assert WF(Obj(od[1..])) by {
        forall i | 0 <= i < |od[1..]| ensures WF(od[1..][i].val) {
          assert od[1..][i] == od[i + 1];
        }
      }
      MergedOldWF(od[1..], nd);
      MergedOldKeys(od[1..], nd);
      assert WF(f.val) by { assert f == od[0]; }
      if f.key in Keys(nd) {
        GetWF(nd, f.key);
        MergeValueWF(f.val, Get(nd, f.key));
      }
      var m := MergedOld(od, nd);
      assert m[1..] == MergedOld(od[1..], nd);
    }
  }

  lemma {:induction false} AddedWF(od: seq<Field>, nd: seq<Field>)
    requires WF(Obj(nd))
    ensures NoDup(Added(od, nd))
    ensures forall i :: 0 <= i < |Added(od, nd)| ==> WF(Added(od, nd)[i].val)
  {
    if nd != [] {
      assert WF(Obj(nd[1..])) by {
        forall i | 0 <= i < |nd[1..]| ensures WF(nd[1..][i].val) {
          assert nd[1..][i] == nd[i + 1];
        }
      }
      AddedWF(od, nd[1..]);
      AddedKeys(od, nd[1..]);
      if nd[0].key !in Keys(od) {
        var m := Added(od, nd);
        assert m[1..] == Added(od, nd[1..]);
        assert WF(m[0].val) by { assert m[0] == nd[0]; }
      }
    }
  }

  /** Two dicts with distinct keys and no key in common, written one after the other. */
  lemma {:induction false} NoDupAppend(a: seq<Field>, b: seq<Field>)
    requires NoDup(a) && NoDup(b) && Keys(a) * Keys(b) == {}
    ensures NoDup(a + b)
  {
    if a == [] {
      assert a + b == b;
    } else {
      assert (a + b)[1..] == a[1..] + b;
      NoDupAppend(a[1..], b);
      KeysAppend(a[1..], b);
    }
  }
}
