/**
  The path lookup of a GET request: each segment of the path indexes the
  current value, `value = value[part]`. A missing dict key (KeyError) and
  indexing anything that is not a dict with a str (TypeError) both end the
  lookup with nothing.
 */
module Resolver {
  import opened Wrappers
  import opened Values

  /** Whether `v[k]` succeeds for a str `k`. */
  predicate HasField(v: Value, k: string)
  {
    v.Obj? && k in Keys(v.fields)
  }

  /** The value at the end of the path, or None if some step fails. */
  function Resolve(v: Value, parts: seq<string>): Option<Value>
    decreases parts
  {
    if parts == [] then Some(v)
    else if HasField(v, parts[0]) then Resolve(Get(v.fields, parts[0]), parts[1..])
    else None
  }

  /** The loop `for part in parts: value = value[part]`, leaving it at the first failure. */
  method ResolvePath(v: Value, parts: seq<string>) returns (r: Option<Value>)
    ensures r == Resolve(v, parts)
  {
    var value := v;
    var i := 0;
    while i < |parts|
      invariant 0 <= i <= |parts|
      invariant Resolve(v, parts) == Resolve(value, parts[i..])
    {
      assert parts[i..][1..] == parts[i + 1..];
      if !HasField(value, parts[i]) {
        return None;
      }
      value := Get(value.fields, parts[i]);
      i := i + 1;
    }
    return Some(value);
  }

  /** Looking up `p + q` is looking up `p`, then `q` from there. */
  lemma {:induction false} ResolveAppend(v: Value, p: seq<string>, q: seq<string>)
    ensures Resolve(v, p + q) == match Resolve(v, p) case None => None case Some(w) => Resolve(w, q)
    decreases p
  {
    if p == [] {
      assert p + q == q;
    } else {
      assert (p + q)[0] == p[0];
      assert (p + q)[1..] == p[1..] + q;
      if HasField(v, p[0]) {
        ResolveAppend(Get(v.fields, p[0]), p[1..], q);
      }
    }
  }

  /** A lookup fails exactly when, at some segment, the value reached so far is not a dict
      holding that segment as a key. */
  lemma {:induction false} ResolveFails(v: Value, parts: seq<string>)
    ensures Resolve(v, parts).None? <==>
      exists i :: 0 <= i < |parts| && Resolve(v, parts[..i]).Some? && !HasField(Resolve(v, parts[..i]).value, parts[i])
    decreases parts
  {
    if parts != [] {
      assert parts[..0] == [];
      if HasField(v, parts[0]) {
        var w := Get(v.fields, parts[0]);
        ResolveFails(w, parts[1..]);
        forall i | 1 <= i <= |parts|
          ensures Resolve(v, parts[..i]) == Resolve(w, parts[1..][..i - 1])
        {
          assert parts[..i][0] == parts[0];
          assert parts[..i][1..] == parts[1..][..i - 1];
        }
        if Resolve(v, parts).None? {
          var j :| 0 <= j < |parts[1..]| && Resolve(w, parts[1..][..j]).Some?
            && !HasField(Resolve(w, parts[1..][..j]).value, parts[1..][j]);
          assert Resolve(v, parts[..j + 1]) == Resolve(w, parts[1..][..j]);
        } else {
          forall i | 0 <= i < |parts| && Resolve(v, parts[..i]).Some?
            ensures HasField(Resolve(v, parts[..i]).value, parts[i])
          {
            if i > 0 {
              assert Resolve(v, parts[..i]) == Resolve(w, parts[1..][..i - 1]);
              assert parts[1..][i - 1] == parts[i];
            }
          }
        }
      }
    }
  }

  /** Every value a lookup reaches inside a well-formed document is well formed. */
  lemma {:induction false} ResolveWF(v: Value, parts: seq<string>)
    requires WF(v) && Resolve(v, parts).Some?
    ensures WF(Resolve(v, parts).value)
    decreases parts
  {
    if parts != [] {
      GetWF(v.fields, parts[0]);
      ResolveWF(Get(v.fields, parts[0]), parts[1..]);
    }
  }
}
