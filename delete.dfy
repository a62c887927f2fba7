/**
  The nested delete of a DELETE request with two or more path segments,
  `traverse_and_delete(obj, elements)`.

  The source changes the document in place as it descends. Each call returns
  something, and the parent ignores it: only the in-place change reaches the
  parent, and only the outermost call's return value reaches the handler. A
  call's result is therefore modelled as a pair: the node as the call left it
  in place (`after`), and what the call returned (`ret`). The parent splices
  `after` back into itself. Falsy entries are filtered out of a node only in
  the copy the call returns, so the filtering has effect at the root alone.
 */
module Delete {
  import opened Wrappers
  import opened Values
  import opened PyText
  import opened Resolver
  import opened Digits

  /** What a call returns: a value, None, or the `(jsonify(...), 400)` tuple of an invalid path. */
  datatype Ret = Returned(v: Value) | ReturnedNone | ReturnedError

  /** A call either raises an exception or returns, having left its node as `after`. */
  datatype Step = Raised | Done(after: Value, ret: Ret)

  /** `[item for item in obj if item]`. */
  function FilterItems(items: seq<Value>): (r: seq<Value>)
    ensures forall x :: multiset(r)[x] == if Truthy(x) then multiset(items)[x] else 0
    ensures forall i :: 0 <= i < |r| ==> Truthy(r[i])
  {
    if items == [] then []
    else
      var rest := FilterItems(items[1..]);
      assert items == [items[0]] + items[1..];
      if Truthy(items[0]) then
        var r := [items[0]] + rest;
        assert r[1..] == rest;
        r
      else rest
  }

  /** `{k: v for k, v in obj.items() if v}`. */
  function FilterFields(fs: seq<Field>): (r: seq<Field>)
    ensures Keys(r) <= Keys(fs)
    ensures forall i :: 0 <= i < |r| ==> Truthy(r[i].val)
  {
    if fs == [] then []
    else
      var rest := FilterFields(fs[1..]);
      if Truthy(fs[0].val) then
        var r := [fs[0]] + rest;
        assert r[1..] == rest;
        r
      else rest
  }

  /** The tail of every call: filter a list or a dict, and return None for an empty one. */
  function Prune(v: Value): (r: Ret)
    ensures !r.ReturnedError?
    ensures r.Returned? && (r.v.Arr? || r.v.Obj?) ==> Truthy(r.v)
  {
    match v
    case Arr(items) => var ys := FilterItems(items); if ys == [] then ReturnedNone else Returned(Arr(ys))
    case Obj(fs) => var gs := FilterFields(fs); if gs == [] then ReturnedNone else Returned(Obj(gs))
    case _ => Returned(v)
  }

  /** A call that has changed its node returns the pruned node. */
  function Finish(after: Value): Step
  {
    Done(after, Prune(after))
  }

  /** `list.remove(x)`: drops the first element equal to `x`. */
  function RemoveFirst(items: seq<Value>, x: Value): (r: seq<Value>)
    ensures x !in items ==> r == items
  {
    if items == [] then []
    else if items[0] == x then items[1..]
    else [items[0]] + RemoveFirst(items[1..], x)
  }

  /** `list.pop(i)`: None where Python raises IndexError. A negative index counts from the end. */
  function PopAt(items: seq<Value>, i: int): (r: Option<seq<Value>>)
    ensures r.Some? <==> -|items| <= i < |items|
    ensures r.Some? ==> |r.value| == |items| - 1
  {
    if -|items| <= i < |items| then
      var j := if i < 0 then i + |items| else i;
      Some(items[..j] + items[j + 1..])
    else None
  }

  /** Whether `list.pop` can take `i` at all: its index is a C `Py_ssize_t`, 64 bits wide on
      a 64-bit build, and an int outside that range raises OverflowError before any bounds
      check. */
  predicate FitsSsize(i: int)
  {
    -0x8000_0000_0000_0000 <= i < 0x8000_0000_0000_0000
  }

  /** How deleting the last path segment from a list ends: the list without the element, the
      invalid-path error (ValueError or IndexError, both caught), or an OverflowError that
      nothing catches. */
  datatype ListDelete = Removed(ys: seq<Value>) | Invalid | Overflowed

  /** Deleting the last path segment from a list: an element equal to the segment as a str
      if there is one, else the element at the segment read as an int. */
  function DeleteFromList(items: seq<Value>, seg: string): (r: ListDelete)
    ensures Str(seg) in items ==> r == Removed(RemoveFirst(items, Str(seg)))
    ensures Str(seg) !in items ==>
      (r.Removed? <==> PyInt(seg).Some? && FitsSsize(PyInt(seg).value) && -|items| <= PyInt(seg).value < |items|)
    ensures r.Overflowed? <==> Str(seg) !in items && PyInt(seg).Some? && !FitsSsize(PyInt(seg).value)
  {
    if Str(seg) in items then Removed(RemoveFirst(items, Str(seg)))
    else
      match PyInt(seg)
      case None => Invalid
      case Some(i) =>
        if !FitsSsize(i) then Overflowed
        else
          match PopAt(items, i)
          case None => Invalid
          case Some(ys) => Removed(ys)
  }

  /** `traverse_and_delete(obj, elements)`. */
  function Traverse(obj: Value, elems: seq<string>): (r: Step)
    ensures r.Done? && |elems| >= 2 ==> r.ret == Prune(r.after)
    ensures r.Done? && r.ret.ReturnedError? ==> |elems| == 1 && obj.Arr? && r.after == obj
    decreases elems
  {
    if elems == [] then Done(obj, Returned(obj))
    else
      var seg := elems[0];
      if HasField(obj, seg) then
        if |elems| == 1 then Finish(Obj(Remove(obj.fields, seg)))
        else
          match Traverse(Get(obj.fields, seg), elems[1..])
          case Raised => Raised
          case Done(child, _) => Finish(Obj(Put(obj.fields, seg, child)))
      else if obj.Arr? then
        if |elems| == 1 then
          match DeleteFromList(obj.items, seg)
          case Invalid => Done(obj, ReturnedError)
          case Overflowed => Raised
          case Removed(ys) => Finish(Arr(ys))
        else Raised
      else Finish(obj)
  }

  // ---------------------------------------------------------------------------------------
  // An independent description: walk to the parent of the last segment, change that node,
  // and write it back along the path.

  /** Where walking the segments of `p` through dicts ends: at a node, at a list (indexing a
      list with a str raises TypeError), or nowhere (a missing key or a scalar). */
  datatype Where = Reached(w: Value) | HitList | Stopped

  function Locate(v: Value, p: seq<string>): Where
    decreases p
  {
    if p == [] then Reached(v)
    else if HasField(v, p[0]) then Locate(Get(v.fields, p[0]), p[1..])
    else if v.Arr? then HitList
    else Stopped
  }

  /** `v` with the node at the end of `p` replaced by `x`; `v` itself where `p` leads nowhere. */
  function UpdateAt(v: Value, p: seq<string>, x: Value): Value
    decreases p
  {
    if p == [] then x
    else if HasField(v, p[0]) then Obj(Put(v.fields, p[0], UpdateAt(Get(v.fields, p[0]), p[1..], x)))
    else v
  }

  /** What deleting `seg` does to the node it is deleted from. */
  function LeafAfter(w: Value, seg: string): Value
  {
    if HasField(w, seg) then Obj(Remove(w.fields, seg))
    else if w.Arr? then
      match DeleteFromList(w.items, seg)
      case Removed(ys) => Arr(ys)
      case _ => w
    else w
  }

  /** Whether deleting `seg` from the node raises: only a list index `pop` cannot take. */
  predicate LeafRaises(w: Value, seg: string)
  {
    w.Arr? && DeleteFromList(w.items, seg).Overflowed?
  }

  /** The nested delete, described without its recursion. The call raises exactly when the walk
      to the last segment's parent meets a list, or reaches a list whose `pop` cannot take the
      last segment as an index. Otherwise the document is changed at that
      parent only, and not at all when the walk ends at a missing key or a scalar. With two or
      more segments, what the handler gets back is the changed document with only its own top
      level pruned. */
  lemma {:induction false} TraverseSpec(v: Value, q: seq<string>)
    requires |q| >= 1
    ensures Traverse(v, q).Raised? <==> (Locate(v, q[..|q| - 1]).HitList?
      || (Locate(v, q[..|q| - 1]).Reached? && LeafRaises(Locate(v, q[..|q| - 1]).w, q[|q| - 1])))
    ensures Traverse(v, q).Done? ==> (Traverse(v, q).after ==
      match Locate(v, q[..|q| - 1])
      case Reached(w) => UpdateAt(v, q[..|q| - 1], LeafAfter(w, q[|q| - 1]))
      case _ => v)
    decreases q
  {
    var p := q[..|q| - 1];
    if |q| >= 2 {
      var p' := q[1..][..|q[1..]| - 1];
      assert p[0] == q[0] && p[1..] == p' && q[1..][|q[1..]| - 1] == q[|q| - 1];
      if HasField(v, q[0]) {
        TraverseSpec(Get(v.fields, q[0]), q[1..]);
        if Locate(v, p).Stopped? {
          PutSame(v.fields, q[0]);
        }
      }
    }
  }

  /** A walk reaches a node exactly when the read path lookup finds it. */
  lemma {:induction false} LocateResolve(v: Value, p: seq<string>)
    ensures Locate(v, p).Reached? <==> Resolve(v, p).Some?
    ensures Locate(v, p).Reached? ==> Locate(v, p).w == Resolve(v, p).value
    decreases p
  {
    if p != [] && HasField(v, p[0]) {
      LocateResolve(Get(v.fields, p[0]), p[1..]);
    }
  }

  /** Writing a node back along a path that reaches it changes nothing. */
  lemma {:induction false} UpdateAtSame(v: Value, p: seq<string>)
    requires Locate(v, p).Reached?
    ensures UpdateAt(v, p, Locate(v, p).w) == v
    decreases p
  {
    if p != [] {
      UpdateAtSame(Get(v.fields, p[0]), p[1..]);
      PutSame(v.fields, p[0]);
    }
  }

  /** After writing `x` at the end of a path, reading that path gives `x`. */
  lemma {:induction false} ResolveUpdateAt(v: Value, p: seq<string>, x: Value)
    requires Locate(v, p).Reached?
    ensures Resolve(UpdateAt(v, p, x), p) == Some(x)
    decreases p
  {
    if p != [] {
      var fs := v.fields;
      ResolveUpdateAt(Get(fs, p[0]), p[1..], x);
      PutGet(fs, p[0], UpdateAt(Get(fs, p[0]), p[1..], x), p[0]);
    }
  }

  /** In a dict with distinct keys, filtering keeps a key exactly when its value is truthy,
      with that value. */
  lemma {:induction false} FilterFieldsGet(fs: seq<Field>, k: string)
    requires NoDup(fs) && k in Keys(fs)
    ensures k in Keys(FilterFields(fs)) <==> Truthy(Get(fs, k))
    ensures k in Keys(FilterFields(fs)) ==> Get(FilterFields(fs), k) == Get(fs, k)
  {
    if fs[0].key != k {
      FilterFieldsGet(fs[1..], k);
    }
  }

  /** A nonempty sequence is its front followed by its last element. */
  lemma LastSplit<T>(q: seq<T>)
    requires q != []
    ensures q == q[..|q| - 1] + [q[|q| - 1]]
  {
  }

  /** Deleting a key of a dict reached by the path removes it: reading the whole path afterwards
      finds nothing, in the document left in place and in the pruned one the handler stores. */
  lemma DeletedKeyGone(v: Value, q: seq<string>)
    requires WF(v) && |q| >= 2
    requires Locate(v, q[..|q| - 1]).Reached? && HasField(Locate(v, q[..|q| - 1]).w, q[|q| - 1])
    ensures Traverse(v, q).Done?
    ensures Resolve(Traverse(v, q).after, q) == None
    ensures Traverse(v, q).ret.Returned? ==> Resolve(Traverse(v, q).ret.v, q) == None
  {
    var p, seg := q[..|q| - 1], q[|q| - 1];
    var w := Locate(v, p).w;
    TraverseSpec(v, q);
    var after := Traverse(v, q).after;
    var x := Obj(Remove(w.fields, seg));
    assert after == UpdateAt(v, p, x);
    ResolveUpdateAt(v, p, x);
    LastSplit(q);
    ResolveAppend(after, p, [seg]);
    assert Resolve(after, q) == None;
    assert after.Obj? && HasField(v, q[0]);
    PutNoDup(v.fields, q[0], UpdateAt(Get(v.fields, q[0]), p[1..], x));
    if HasField(after, q[0]) {
      FilterFieldsGet(after.fields, q[0]);
    }
  }

  // ---------------------------------------------------------------------------------------
  // Well-formedness: deleting never gives a dict a duplicate key.

  lemma {:induction false} FilterFieldsWF(fs: seq<Field>)
    requires WF(Obj(fs))
    ensures WF(Obj(FilterFields(fs)))
  {
    if fs != [] {
      assert WF(Obj(fs[1..])) by {
        forall i | 0 <= i < |fs[1..]| ensures WF(fs[1..][i].val) {
          assert fs[1..][i] == fs[i + 1];
        }
      }
      FilterFieldsWF(fs[1..]);
      var r := FilterFields(fs);
      if Truthy(fs[0].val) {
        assert r[1..] == FilterFields(fs[1..]);
        assert WF(r[0].val) by { assert r[0] == fs[0]; }
      }
    }
  }

  lemma PruneWF(v: Value)
    requires WF(v) && Prune(v).Returned?
    ensures WF(Prune(v).v)
  {
    match v
    case Arr(items) =>
      var ys := FilterItems(items);
      forall i | 0 <= i < |ys| ensures WF(ys[i]) {
        assert ys[i] in multiset(ys);
        assert ys[i] in multiset(items);
      }
    case Obj(fs) => FilterFieldsWF(fs);
    case _ =>
  }

  lemma {:induction false} RemoveFirstWF(items: seq<Value>, x: Value)
    requires forall i :: 0 <= i < |items| ==> WF(items[i])
    ensures forall i :: 0 <= i < |RemoveFirst(items, x)| ==> WF(RemoveFirst(items, x)[i])
  {
    if items != [] && items[0] != x {
      RemoveFirstWF(items[1..], x);
      var r := RemoveFirst(items, x);
      assert r[1..] == RemoveFirst(items[1..], x);
    }
  }

  lemma DeleteFromListWF(items: seq<Value>, seg: string)
    requires forall i :: 0 <= i < |items| ==> WF(items[i])
    ensures DeleteFromList(items, seg).Removed? ==>
      forall i :: 0 <= i < |DeleteFromList(items, seg).ys| ==> WF(DeleteFromList(items, seg).ys[i])
  {
    if Str(seg) in items {
      RemoveFirstWF(items, Str(seg));
    } else if DeleteFromList(items, seg).Removed? {
      var n := PyInt(seg).value;
      var j := if n < 0 then n + |items| else n;
      var ys := items[..j] + items[j + 1..];
      forall i | 0 <= i < |ys| ensures WF(ys[i]) {
        if i >= j { assert ys[i] == items[i + 1]; }
      }
    }
  }

  /** The nested delete of a well-formed document leaves and returns well-formed values. */
  lemma {:induction false} TraverseWF(obj: Value, elems: seq<string>)
    requires WF(obj)
    ensures Traverse(obj, elems).Done? ==> WF(Traverse(obj, elems).after)
    ensures Traverse(obj, elems).Done? && Traverse(obj, elems).ret.Returned? ==> WF(Traverse(obj, elems).ret.v)
    decreases elems
  {
    var r := Traverse(obj, elems);
    if elems != [] && r.Done? {
      var seg := elems[0];
      if HasField(obj, seg) {
        if |elems| == 1 {
          RemoveWF(obj.fields, seg);
        } else {
          GetWF(obj.fields, seg);
          TraverseWF(Get(obj.fields, seg), elems[1..]);
          PutWF(obj.fields, seg, Traverse(Get(obj.fields, seg), elems[1..]).after);
        }
      } else if obj.Arr? && |elems| == 1 {
        DeleteFromListWF(obj.items, seg);
      }
      if r.ret.Returned? && r.ret != Returned(obj) {
        PruneWF(r.after);
      }
    }
  }

  // ---------------------------------------------------------------------------------------
  // Laws of the pieces.

  /** Pruning what a pruned node returned changes nothing more. */
  lemma PruneIdempotent(v: Value)
    requires Prune(v).Returned?
    ensures Prune(Prune(v).v) == Prune(v)
  {
    match v
    case Arr(items) => FilterItemsAllTruthy(FilterItems(items));
    case Obj(fs) => FilterFieldsAllTruthy(FilterFields(fs));
    case _ =>
  }

  lemma {:induction false} FilterItemsAllTruthy(items: seq<Value>)
    requires forall i :: 0 <= i < |items| ==> Truthy(items[i])
    ensures FilterItems(items) == items
  {
    if items != [] {
      FilterItemsAllTruthy(items[1..]);
    }
  }

  lemma {:induction false} FilterFieldsAllTruthy(fs: seq<Field>)
    requires forall i :: 0 <= i < |fs| ==> Truthy(fs[i].val)
    ensures FilterFields(fs) == fs
  {
    if fs != [] {
      FilterFieldsAllTruthy(fs[1..]);
    }
  }

  /** A list or dict prunes to None exactly when every one of its entries is falsy. */
  lemma PruneNone(v: Value)
    ensures Prune(v).ReturnedNone? <==>
      (v.Arr? && forall i :: 0 <= i < |v.items| ==> !Truthy(v.items[i]))
      || (v.Obj? && forall i :: 0 <= i < |v.fields| ==> !Truthy(v.fields[i].val))
  {
    match v
    case Arr(items) =>
      if FilterItems(items) == [] {
        forall i | 0 <= i < |items| ensures !Truthy(items[i]) {
          assert items[i] in multiset(items);
        }
      } else {
        var x := FilterItems(items)[0];
        assert x in multiset(FilterItems(items));
        assert x in items;
      }
    case Obj(fs) => FilterFieldsEmpty(fs);
    case _ =>
  }

  lemma {:induction false} FilterFieldsEmpty(fs: seq<Field>)
    ensures FilterFields(fs) == [] <==> forall i :: 0 <= i < |fs| ==> !Truthy(fs[i].val)
  {
    if fs != [] {
      FilterFieldsEmpty(fs[1..]);
      if forall i :: 0 <= i < |fs[1..]| ==> !Truthy(fs[1..][i].val) {
        forall i | 1 <= i < |fs| ensures !Truthy(fs[i].val) {
          assert fs[i] == fs[1..][i - 1];
        }
      }
    }
  }

  /** `remove` drops exactly one occurrence of an element that is there. */
  lemma {:induction false} RemoveFirstCount(items: seq<Value>, x: Value)
    requires x in items
    ensures multiset(RemoveFirst(items, x)) == multiset(items) - multiset{x}
  {
    assert items == [items[0]] + items[1..];
    if items[0] != x {
      RemoveFirstCount(items[1..], x);
    }
  }

  /** Where `remove` finds `x`: its first occurrence. */
  function IndexOf(items: seq<Value>, x: Value): (i: nat)
    requires x in items
    ensures i < |items| && items[i] == x && x !in items[..i]
  {
    if items[0] == x then 0
    else
      var i := 1 + IndexOf(items[1..], x);
      assert items[..i] == [items[0]] + items[1..][..i - 1];
      i
  }

  /** ... and it is the first occurrence: everything before and after it stays in place. */
  lemma {:induction false} RemoveFirstSplit(items: seq<Value>, x: Value)
    requires x in items
    ensures RemoveFirst(items, x) == items[..IndexOf(items, x)] + items[IndexOf(items, x) + 1..]
  {
    if items[0] != x {
      RemoveFirstSplit(items[1..], x);
      var i := IndexOf(items[1..], x);
      assert items[..i + 1] == [items[0]] + items[1..][..i];
      assert items[i + 1 + 1..] == items[1..][i + 1..];
    }
  }

  /** `pop(-k)` is `pop(len - k)`, and `pop(-1)` drops the last element. */
  lemma PopNegative(items: seq<Value>, i: int)
    requires 0 <= i < |items|
    ensures PopAt(items, i - |items|) == PopAt(items, i)
    ensures PopAt(items, -1) == Some(items[..|items| - 1])
  {
    var j := |items| - 1;
    assert items[j + 1..] == [];
    assert items[..j] + items[j + 1..] == items[..j];
  }

  // ---------------------------------------------------------------------------------------
  // Examples.

  /** One level of the descent through a dict, for the examples below. */
  lemma DictStep(fs: seq<Field>, seg: string, rest: seq<string>, child: Value, ret: Ret, fs': seq<Field>)
    requires seg in Keys(fs) && rest != []
    requires Traverse(Get(fs, seg), rest) == Done(child, ret)
    requires Put(fs, seg, child) == fs'
    ensures Traverse(Obj(fs), [seg] + rest) == Finish(Obj(fs'))
  {
    assert ([seg] + rest)[1..] == rest;
  }

  /** The last segment deleted from a list, for the examples below. */
  lemma ListLeaf(items: seq<Value>, seg: string, ys: seq<Value>)
    requires DeleteFromList(items, seg) == Removed(ys)
    ensures Traverse(Arr(items), [seg]) == Finish(Arr(ys))
  {
  }

  /** Deleting `a/b/c` from `{a: {b: {c: 1}}}` leaves `{a: {b: {}}}`: the emptied dict under `b`
      is filtered out only in a returned copy, which the caller ignores. */
  lemma DeleteNestedKeepsEmpty()
    ensures Traverse(Obj([Field("a", Obj([Field("b", Obj([Field("c", Int(1))]))]))]), ["a", "b", "c"])
         == Finish(Obj([Field("a", Obj([Field("b", Obj([]))]))]))
  {
    var leaf := [Field("c", Int(1))];
    assert Traverse(Obj(leaf), ["c"]) == Finish(Obj([])) by {
      assert Remove(leaf, "c") == [];
    }
    var mid := [Field("b", Obj(leaf))];
    DictStep(mid, "b", ["c"], Obj([]), Prune(Obj([])), [Field("b", Obj([]))]);
    assert ["b"] + ["c"] == ["b", "c"];
    var top := [Field("a", Obj(mid))];
    DictStep(top, "a", ["b", "c"], Obj([Field("b", Obj([]))]), Prune(Obj([Field("b", Obj([]))])), [Field("a", Obj([Field("b", Obj([]))]))]);
    assert ["a"] + ["b", "c"] == ["a", "b", "c"];
  }

  /** Deleting `x/6` from `{x: [5, 6, 7]}` changes nothing: no element equals the str "6", and
      `pop(6)` is out of range. */
  lemma DeleteListSegmentIsNotAnInt()
    ensures Traverse(Obj([Field("x", Arr([Int(5), Int(6), Int(7)]))]), ["x", "6"])
         == Finish(Obj([Field("x", Arr([Int(5), Int(6), Int(7)]))]))
  {
    var xs := [Int(5), Int(6), Int(7)];
    DigitSegment('6');
    assert "6" == ['6'];
    assert Traverse(Arr(xs), ["6"]) == Done(Arr(xs), ReturnedError);
    DictStep([Field("x", Arr(xs))], "x", ["6"], Arr(xs), ReturnedError, [Field("x", Arr(xs))]);
    assert ["x"] + ["6"] == ["x", "6"];
  }

  /** A segment of one digit reads as that digit, for the examples below. */
  lemma DigitSegment(c: char)
    requires '0' <= c <= '9'
    ensures PyInt([c]) == Some(c as int - '0' as int)
  {
    ReadsDigits([c], [c], false);
  }

  /** The index fallback of a list delete, for the examples below. */
  lemma ListPop(items: seq<Value>, seg: string, i: nat)
    requires Str(seg) !in items && PyInt(seg) == Some(i as int) && i < |items| && FitsSsize(i)
    ensures DeleteFromList(items, seg) == Removed(items[..i] + items[i + 1..])
  {
  }

  /** Deleting `x/1` from `{x: [5, 6, 7]}` pops index 1, leaving `{x: [5, 7]}`. */
  lemma DeleteListIndex()
    ensures Traverse(Obj([Field("x", Arr([Int(5), Int(6), Int(7)]))]), ["x", "1"])
         == Finish(Obj([Field("x", Arr([Int(5), Int(7)]))]))
  {
    var xs := [Int(5), Int(6), Int(7)];
    var ys := [Int(5), Int(7)];
    DigitSegment('1');
    assert "1" == ['1'];
    ListPop(xs, "1", 1);
    assert xs[..1] + xs[2..] == ys;
    ListLeaf(xs, "1", ys);
    DictStep([Field("x", Arr(xs))], "x", ["1"], Arr(ys), Prune(Arr(ys)), [Field("x", Arr(ys))]);
    assert ["x"] + ["1"] == ["x", "1"];
  }

  /** Deleting `x/b` from `{x: ["a", "b"]}` removes the element equal to "b". */
  lemma DeleteListValue()
    ensures Traverse(Obj([Field("x", Arr([Str("a"), Str("b")]))]), ["x", "b"])
         == Finish(Obj([Field("x", Arr([Str("a")]))]))
  {
    var xs := [Str("a"), Str("b")];
    assert DeleteFromList(xs, "b") == Removed([Str("a")]) by {
      assert RemoveFirst(xs, Str("b")) == [Str("a")] by { assert xs[1..] == [Str("b")]; }
    }
    ListLeaf(xs, "b", [Str("a")]);
    DictStep([Field("x", Arr(xs))], "x", ["b"], Arr([Str("a")]), Prune(Arr([Str("a")])), [Field("x", Arr([Str("a")]))]);
    assert ["x"] + ["b"] == ["x", "b"];
  }

  /** Deleting `x/0` from `{x: ["a", "b"]}` falls back to index 0, as no element equals "0". */
  lemma DeleteListIndexFallback()
    ensures Traverse(Obj([Field("x", Arr([Str("a"), Str("b")]))]), ["x", "0"])
         == Finish(Obj([Field("x", Arr([Str("b")]))]))
  {
    var xs := [Str("a"), Str("b")];
    DigitSegment('0');
    assert "0" == ['0'];
    ListPop(xs, "0", 0);
    assert xs[..0] + xs[1..] == [Str("b")];
    ListLeaf(xs, "0", [Str("b")]);
    DictStep([Field("x", Arr(xs))], "x", ["0"], Arr([Str("b")]), Prune(Arr([Str("b")])), [Field("x", Arr([Str("b")]))]);
    assert ["x"] + ["0"] == ["x", "0"];
  }

  /** Deleting `a/<n>` from `{a: [1], b: 0}` for an int `n` that `pop` cannot take raises
      OverflowError, so nothing is written (where an index merely out of range would leave the
      list alone and rewrite the pruned document, dropping `b`). */
  lemma DeleteHugeIndexRaises(n: int)
    requires !FitsSsize(n)
    ensures Traverse(Obj([Field("a", Arr([Int(1)])), Field("b", Int(0))]), ["a", IntText(n)]) == Raised
  {
    PyIntText(n);
    assert DeleteFromList([Int(1)], IntText(n)) == Overflowed;
    assert ["a", IntText(n)][1..] == [IntText(n)];
  }

  /** Descending through a list raises: `obj["0"]` on a list is a TypeError. */
  lemma DeleteThroughListRaises()
    ensures Traverse(Obj([Field("x", Arr([Obj([Field("y", Int(1))])]))]), ["x", "0", "y"]) == Raised
  {
    assert ["x", "0", "y"][1..] == ["0", "y"];
  }
}
