/** Optional results, used wherever the source may come back with nothing. */
module Wrappers {
  datatype Option<+T> = None | Some(value: T)
}

/**
  The values a stored document decodes to: what Python's json module produces
  (integers only). A Python dict is an association list in insertion order, so
  that assigning to an existing key keeps its position and a new key goes to
  the end, as in Python.
 */
module Values {
  import opened Wrappers

  datatype Value =
    | Null
    | Bool(b: bool)
    | Int(i: int)
    | Str(s: string)
    | Arr(items: seq<Value>)
    | Obj(fields: seq<Field>)

  datatype Field = Field(key: string, val: Value)

  /** Python truthiness: "", 0, False, None, {} and [] are falsy. */
  predicate Truthy(v: Value)
  {
    match v
    case Null => false
    case Bool(b) => b
    case Int(i) => i != 0
    case Str(s) => s != ""
    case Arr(items) => items != []
    case Obj(fields) => fields != []
  }

  /** The key set of a dict. */
  function Keys(fs: seq<Field>): set<string>
  {
    if fs == [] then {} else {fs[0].key} + Keys(fs[1..])
  }

  lemma {:induction false} KeysIndex(fs: seq<Field>, k: string)
    ensures k in Keys(fs) <==> exists i :: 0 <= i < |fs| && fs[i].key == k
  {
    if fs != [] {
      KeysIndex(fs[1..], k);
      if k in Keys(fs[1..]) {
        var i :| 0 <= i < |fs[1..]| && fs[1..][i].key == k;
        assert fs[i + 1].key == k;
      }
      forall i | 0 <= i < |fs| && fs[i].key == k
        ensures k in Keys(fs)
      {
        if i > 0 { assert fs[1..][i - 1].key == k; }
      }
    }
  }

  /** The keys of two dicts written one after the other. */
  lemma {:induction false} KeysAppend(a: seq<Field>, b: seq<Field>)
    ensures Keys(a + b) == Keys(a) + Keys(b)
  {
    if a == [] {
      assert a + b == b;
    } else {
      KeysAppend(a[1..], b);
      assert (a + b)[0] == a[0];
      assert (a + b)[1..] == a[1..] + b;
    }
  }

  /** Position of the entry a lookup `d[k]` finds. */
  function Find(fs: seq<Field>, k: string): (i: nat)
    requires k in Keys(fs)
    ensures i < |fs| && fs[i].key == k
    ensures forall j :: 0 <= j < i ==> fs[j].key != k
  {
    if fs[0].key == k then 0 else 1 + Find(fs[1..], k)
  }

  /** `d[k]` for a key that is present: the first entry with that key. */
  function Get(fs: seq<Field>, k: string): Value
    requires k in Keys(fs)
  {
    if fs[0].key == k then fs[0].val else Get(fs[1..], k)
  }

  lemma {:induction false} GetFind(fs: seq<Field>, k: string)
    requires k in Keys(fs)
    ensures Get(fs, k) == fs[Find(fs, k)].val
  {
    if fs[0].key != k {
      GetFind(fs[1..], k);
    }
  }

  /** `d[k] = v`: replaces the value at an existing key in place, otherwise appends. */
  function Put(fs: seq<Field>, k: string, v: Value): (r: seq<Field>)
    ensures Keys(r) == Keys(fs) + {k}
    ensures k !in Keys(fs) ==> r == fs + [Field(k, v)]
    ensures k in Keys(fs) ==> |r| == |fs|
  {
    if fs == [] then [Field(k, v)]
    else if fs[0].key == k then [Field(k, v)] + fs[1..]
    else
      var r := [fs[0]] + Put(fs[1..], k, v);
      assert r[1..] == Put(fs[1..], k, v);
      r
  }

  /** After `d[k] = v`, `d[k]` is `v` and every other key reads as before. */
  lemma {:induction false} PutGet(fs: seq<Field>, k: string, v: Value, k': string)
    requires k' == k || k' in Keys(fs)
    ensures Get(Put(fs, k, v), k') == if k' == k then v else Get(fs, k')
  {
    if fs != [] && fs[0].key != k && fs[0].key != k' {
      PutGet(fs[1..], k, v, k');
    }
  }

  /** `del d[k]`. */
  function Remove(fs: seq<Field>, k: string): (r: seq<Field>)
    ensures Keys(r) == Keys(fs) - {k}
    ensures forall k' :: k' in Keys(r) ==> Get(r, k') == Get(fs, k')
    ensures |r| <= |fs|
  {
    if fs == [] then []
    else if fs[0].key == k then Remove(fs[1..], k)
    else
      var r := [fs[0]] + Remove(fs[1..], k);
      assert r[1..] == Remove(fs[1..], k);
      r
  }

  /** No key occurs twice, as in every Python dict. */
  predicate NoDup(fs: seq<Field>)
  {
    fs == [] || (fs[0].key !in Keys(fs[1..]) && NoDup(fs[1..]))
  }

  /** Every dict inside the value has distinct keys. */
  predicate WF(v: Value)
  {
    match v
    case Arr(items) => forall i :: 0 <= i < |items| ==> WF(items[i])
    case Obj(fs) => NoDup(fs) && forall i :: 0 <= i < |fs| ==> WF(fs[i].val)
    case _ => true
  }

  lemma {:induction false} PutNoDup(fs: seq<Field>, k: string, v: Value)
    requires NoDup(fs)
    ensures NoDup(Put(fs, k, v))
  {
    if fs != [] && fs[0].key != k {
      PutNoDup(fs[1..], k, v);
    }
  }

  lemma {:induction false} RemoveNoDup(fs: seq<Field>, k: string)
    requires NoDup(fs)
    ensures NoDup(Remove(fs, k))
  {
    if fs != [] {
      RemoveNoDup(fs[1..], k);
    }
  }

  /** Assigning a key the value it already has changes nothing. */
  lemma {:induction false} PutSame(fs: seq<Field>, k: string)
    requires k in Keys(fs)
    ensures Put(fs, k, Get(fs, k)) == fs
  {
    if fs[0].key != k {
      PutSame(fs[1..], k);
      assert Get(fs, k) == Get(fs[1..], k);
    }
  }

  /** The value stored at a key of a well-formed dict is well formed. */
  lemma GetWF(fs: seq<Field>, k: string)
    requires WF(Obj(fs)) && k in Keys(fs)
    ensures WF(Get(fs, k))
  {
  }

  lemma {:induction false} PutWF(fs: seq<Field>, k: string, v: Value)
    requires WF(Obj(fs)) && WF(v)
    ensures WF(Obj(Put(fs, k, v)))
  {
    PutNoDup(fs, k, v);
    var r := Put(fs, k, v);
    forall i | 0 <= i < |r| ensures WF(r[i].val) {
      PutValues(fs, k, v, i);
    }
  }

  lemma {:induction false} PutValues(fs: seq<Field>, k: string, v: Value, i: nat)
    requires i < |Put(fs, k, v)|
    ensures Put(fs, k, v)[i].val == v || exists j :: 0 <= j < |fs| && Put(fs, k, v)[i] == fs[j]
  {
    if fs != [] && fs[0].key != k && i > 0 {
      PutValues(fs[1..], k, v, i - 1);
      var r := Put(fs[1..], k, v);
      if r[i - 1].val != v {
        var j :| 0 <= j < |fs[1..]| && r[i - 1] == fs[1..][j];
        assert Put(fs, k, v)[i] == fs[j + 1];
      }
    } else if fs != [] && fs[0].key == k && i > 0 {
      assert Put(fs, k, v)[i] == fs[i];
    }
  }

  lemma {:induction false} RemoveValues(fs: seq<Field>, k: string, i: nat)
    requires i < |Remove(fs, k)|
    ensures exists j :: 0 <= j < |fs| && Remove(fs, k)[i] == fs[j]
  {
    if fs[0].key == k {
      RemoveValues(fs[1..], k, i);
      var j :| 0 <= j < |fs[1..]| && Remove(fs[1..], k)[i] == fs[1..][j];
      assert Remove(fs, k)[i] == fs[j + 1];
    } else if i > 0 {
      RemoveValues(fs[1..], k, i - 1);
      var j :| 0 <= j < |fs[1..]| && Remove(fs[1..], k)[i - 1] == fs[1..][j];
      assert Remove(fs, k)[i] == fs[j + 1];
    }
  }

  lemma RemoveWF(fs: seq<Field>, k: string)
    requires WF(Obj(fs))
    ensures WF(Obj(Remove(fs, k)))
  {
    RemoveNoDup(fs, k);
    var r := Remove(fs, k);
    forall i | 0 <= i < |r| ensures WF(r[i].val) {
      RemoveValues(fs, k, i);
    }
  }

  /** `t in s` for two strs: `t` occurs in `s` as a substring. */
  predicate IsSubstring(t: string, s: string)
    decreases |s|
  {
    t <= s || (s != [] && IsSubstring(t, s[1..]))
  }

  /** `t` occurs in `s` starting at position `i`. */
  predicate OccursAt(t: string, s: string, i: int)
  {
    0 <= i <= |s| - |t| && s[i..i + |t|] == t
  }

  /** The substring test finds `t` exactly when it occurs at some position of `s`. */
  lemma {:induction false} SubstringAt(t: string, s: string)
    ensures IsSubstring(t, s) <==> exists i :: OccursAt(t, s, i)
    decreases |s|
  {
    if t <= s {
      assert OccursAt(t, s, 0);
    } else if s == [] {
      assert forall i :: !OccursAt(t, s, i);
    } else {
      SubstringAt(t, s[1..]);
      assert !OccursAt(t, s, 0);
      forall i | 0 <= i ensures OccursAt(t, s[1..], i) <==> OccursAt(t, s, i + 1) {
        OccursShift(t, s, i);
      }
      if exists i :: OccursAt(t, s, i) {
        var i :| OccursAt(t, s, i);
        assert OccursAt(t, s[1..], i - 1);
      }
    }
  }

  lemma OccursShift(t: string, s: string, i: int)
    requires s != [] && 0 <= i
    ensures OccursAt(t, s[1..], i) <==> OccursAt(t, s, i + 1)
  {
    if 0 <= i <= |s| - 1 - |t| {
      assert s[1..][i..i + |t|] == s[i + 1..i + 1 + |t|];
    }
  }

  /** Python's `item in container` for a str `item`: membership of a key in a dict, equality
      with an element of a list, substring of a str; None where Python raises TypeError
      (an int, bool or None container). */
  function Contains(container: Value, item: string): (r: Option<bool>)
    ensures r.None? <==> container.Null? || container.Bool? || container.Int?
    ensures container.Obj? ==> r == Some(item in Keys(container.fields))
    ensures container.Arr? ==> r == Some(Str(item) in container.items)
    ensures container.Obj? ==>
      r == Some(exists i :: 0 <= i < |container.fields| && container.fields[i].key == item)
    ensures container.Arr? ==>
      r == Some(exists i :: 0 <= i < |container.items| && container.items[i] == Str(item))
    ensures container.Str? ==> r == Some(exists i :: OccursAt(item, container.s, i))
  {
    match container
    case Obj(fs) => KeysIndex(fs, item); Some(item in Keys(fs))
    case Arr(items) => Some(Str(item) in items)
    case Str(s) => SubstringAt(item, s); Some(IsSubstring(item, s))
    case _ => None
  }
}
