/**
  The route handlers' work on the store: one raw string per key, read,
  decoded, changed and written back. The request body arrives as the decoded
  JSON value, a request path as its text. An uncaught Python exception (a 500
  response) is the outcome Crash; every other outcome is a status with a JSON
  body.
 */
module Handlers {
  import opened Wrappers
  import opened Values
  import opened JsonText
  import opened JsonParse
  import opened JsonLaws
  import opened Codec
  import opened Digits
  import opened PyText
  import opened Resolver
  import opened DictMerge
  import opened Delete

  datatype Outcome = Reply(status: int, body: Value) | Crash

  /** `{'error': msg}`. */
  function Error(msg: string): Value
  {
    Obj([Field("error", Str(msg))])
  }

  /** `{key: value}`. */
  function Single(key: string, value: Value): Value
  {
    Obj([Field(key, value)])
  }

  /** `if not request.json or 'key' not in request.json or 'value' not in request.json`, where
      it evaluates to True without raising. */
  predicate InvalidInput(body: Value)
  {
    !Truthy(body) || Contains(body, "key") == Some(false)
    || (Contains(body, "key") == Some(true) && Contains(body, "value") == Some(false))
  }

  /** A POST body the handler stores: a dict with a str "key" and a "value". */
  predicate Storable(body: Value)
  {
    body.Obj? && "key" in Keys(body.fields) && "value" in Keys(body.fields)
    && Get(body.fields, "key").Str?
  }

  /** What the PUT handler writes for the stored document `ov` and the body's value `nv`, or
      None where it raises. An int, bool or None is written as it is. Otherwise the value's
      text is read back as JSON: text that is not JSON is written as it is; JSON other than a
      dict reaches `.items()` and raises; an empty dict leaves the document as it was, written
      as JSON; a non-empty dict is merged into a stored dict; and merging into anything else
      raises the TypeError the handler catches, so the text is written as it is. */
  function UpdateText(ov: Value, nv: Value): Option<string>
    requires WF(ov)
  {
    if nv.Int? || nv.Bool? || nv.Null? then Some(Encode(nv))
    else
      var text := Encode(nv);
      match Parse(text)
      case None => Some(text)
      case Some(pv) =>
        if !pv.Obj? then None
        else if pv.fields == [] then Some(Dumps(ov))
        else if ov.Obj? then Some(Dumps(Obj(Merge(ov.fields, pv.fields))))
        else Some(text)
  }

  /** What a DELETE with a path does to a document: raise, answer 404, delete the key (with the
      value the response shows), or write a new text (with the value the response shows). */
  datatype Deletion = Crashed | Missing | Erase(shown: Value) | Write(text: string, shown: Value)

  /** `delete_from_db` from the point where the path is non-empty. One segment is a plain
      `del value[item]` with no pruning; two or more go through traverse_and_delete, and a
      returned None (or a None document) deletes the key. */
  function PathDelete(v: Value, path: string): Deletion
  {
    var parts := Split(path, '/');
    if |parts| == 1 then
      match Contains(v, path)
      case None => Crashed
      case Some(present) =>
        if !present then Missing
        else if !v.Obj? then Crashed
        else
          var fs := Remove(v.fields, path);
          if fs == [] then Erase(Obj(fs)) else Write(Dumps(Obj(fs)), Obj(fs))
    else
      match Traverse(v, parts)
      case Raised => Crashed
      case Done(_, ret) =>
        match ret
        case ReturnedError => Crashed
        case ReturnedNone => Erase(Null)
        case Returned(x) => if x.Null? then Erase(Null) else Write(Dumps(x), x)
  }

  class Database {
    /** `replit.db`: the raw string stored under each key. */
    var db: map<string, string>

    constructor ()
      ensures db == map[]
    {
      db := map[];
    }

    /** `home`: the number of keys, as text that `int()` reads back. */
    function Home(): (r: string)
      reads this
      ensures PyInt(r) == Some(|db.Keys|)
    {
      PyIntText(|db.Keys|);
      IntText(|db.Keys|)
    }

    /** `get_all_data`: every key with its decoded document. */
    method GetAllData() returns (data: map<string, Value>)
      ensures data.Keys == db.Keys
      ensures forall k :: k in db ==> data[k] == Decode(db[k])
    {
      data := map[];
      var rest := db.Keys;
      while rest != {}
        invariant rest <= db.Keys
        invariant data.Keys == db.Keys - rest
        invariant forall k :: k in data ==> data[k] == Decode(db[k])
        decreases |rest|
      {
        var k :| k in rest;
        data := data[k := Decode(db[k])];
        rest := rest - {k};
      }
    }

    /** `get_db_keys`: every key once. */
    method GetDbKeys() returns (keys: seq<string>)
      ensures forall k :: k in keys <==> k in db
      ensures forall i, j :: 0 <= i < j < |keys| ==> keys[i] != keys[j]
    {
      keys := [];
      var rest := db.Keys;
      while rest != {}
        invariant rest <= db.Keys
        invariant forall k :: k in keys <==> k in db && k !in rest
        invariant forall i, j :: 0 <= i < j < |keys| ==> keys[i] != keys[j]
        decreases |rest|
      {
        var k :| k in rest;
        keys := keys + [k];
        rest := rest - {k};
      }
    }

    /** `get_db_prefix`: every key that starts with `prefix`, once. */
    method GetDbPrefix(prefix: string) returns (keys: seq<string>)
      ensures forall k :: k in keys <==> k in db && prefix <= k
      ensures forall i, j :: 0 <= i < j < |keys| ==> keys[i] != keys[j]
    {
      keys := [];
      var rest := db.Keys;
      while rest != {}
        invariant rest <= db.Keys
        invariant forall k :: k in keys <==> k in db && k !in rest && prefix <= k
        invariant forall i, j :: 0 <= i < j < |keys| ==> keys[i] != keys[j]
        decreases |rest|
      {
        var k :| k in rest;
        if prefix <= k {
          keys := keys + [k];
        }
        rest := rest - {k};
      }
    }

    /** `f`: deletes every key and answers `{}`. */
    method MassDelete() returns (out: Outcome)
      modifies this
      ensures db == map[]
      ensures out == Reply(200, Obj([]))
    {
      var rest := db.Keys;
      while rest != {}
        invariant db.Keys == rest
        decreases |rest|
      {
        var k :| k in rest;
        db := db - {k};
        rest := rest - {k};
      }
      out := Reply(200, Obj([]));
    }

    /** `get_db_key`: the document, or the part of it the path names. */
    method GetDbKey(key: string, path: string) returns (out: Outcome)
      ensures key !in db ==> out == Reply(404, Error("Key not found"))
      ensures key in db && path == "" ==> out == Reply(200, Decode(db[key]))
      ensures key in db && path != "" ==>
        out == match Resolve(Decode(db[key]), Split(path, '/'))
               case Some(w) => Reply(200, w)
               case None => Reply(400, Error("Invalid value specified"))
    {
      if key !in db {
        return Reply(404, Error("Key not found"));
      }
      var value := Decode(db[key]);
      if path != "" {
        var r := ResolvePath(value, Split(path, '/'));
        if r.None? {
          return Reply(400, Error("Invalid value specified"));
        }
        return Reply(200, r.value);
      }
      return Reply(200, value);
    }

    /** `add_to_db`: stores the body's value under the body's key. The write happens before
        the value is read back, so an int, bool or None value is stored and then raises. */
    method AddToDb(body: Value) returns (out: Outcome)
      requires WF(body)
      modifies this
      ensures !Storable(body) ==> db == old(db)
      ensures !Storable(body) ==> out == if InvalidInput(body) then Reply(400, Error("Invalid input")) else Crash
      ensures Storable(body) ==>
        var key, value := Get(body.fields, "key").s, Get(body.fields, "value");
        db == old(db)[key := Encode(value)]
        && out == if value.Int? || value.Bool? || value.Null? then Crash
                  else Reply(201, Single(key, Decode(Encode(value))))
      ensures Storable(body) && (Get(body.fields, "value").Arr? || Get(body.fields, "value").Obj?) ==>
        out == Reply(201, Single(Get(body.fields, "key").s, Get(body.fields, "value")))
    {
      if !Truthy(body) {
        return Reply(400, Error("Invalid input"));
      }
      var hasKey := Contains(body, "key");
      if hasKey.None? {
        return Crash;
      }
      if !hasKey.value {
        return Reply(400, Error("Invalid input"));
      }
      var hasValue := Contains(body, "value");
      if !hasValue.value {
        return Reply(400, Error("Invalid input"));
      }
      if !body.Obj? {
        return Crash;
      }
      var k := Get(body.fields, "key");
      if !k.Str? {
        return Crash;
      }
      var value := Get(body.fields, "value");
      var stored := Encode(value);
      db := db[k.s := stored];
      if value.Int? || value.Bool? || value.Null? {
        return Crash;
      }
      GetWF(body.fields, "value");
      if value.Arr? || value.Obj? {
        DecodeEncode(value);
      }
      return Reply(201, Single(k.s, Decode(stored)));
    }

    /** `update_db`: merges the body's value into the stored document. */
    method UpdateDb(key: string, body: Value) returns (out: Outcome)
      requires WF(body)
      modifies this
      ensures key !in old(db) ==> db == old(db) && out == Reply(404, Error("Key not found"))
      ensures key in old(db) && !body.Obj? ==> db == old(db) && out == Crash
      ensures key in old(db) && body.Obj? ==>
        var nv := if "value" in Keys(body.fields) then Get(body.fields, "value") else Obj([]);
        match UpdateText(Decode(old(db)[key]), nv)
        case None => db == old(db) && out == Crash
        case Some(s) => db == old(db)[key := s] && out == Reply(200, Single(key, Single("value", Decode(s))))
    {
      if key !in db {
        return Reply(404, Error("Key not found"));
      }
      var oldValue := Decode(db[key]);
      if !body.Obj? {
        return Crash;
      }
      var nv := if "value" in Keys(body.fields) then Get(body.fields, "value") else Obj([]);
      if "value" in Keys(body.fields) {
        GetWF(body.fields, "value");
      }
      var stored: string;
      if nv.Int? || nv.Bool? || nv.Null? {
        stored := Encode(nv);
        DecodeEncode(nv);
        db := db[key := stored];
        return Reply(200, Single(key, Single("value", nv)));
      }
      var text := Encode(nv);
      var parsed := Parse(text);
      if parsed.None? {
        stored := text;
      } else {
        var pv := parsed.value;
        ParseWF(text);
        if !pv.Obj? {
          return Crash;
        }
        if pv.fields == [] {
          stored := Dumps(oldValue);
        } else if oldValue.Obj? {
          var merged := MergeDicts(oldValue.fields, pv.fields);
          stored := Dumps(Obj(merged));
        } else {
          stored := text;
        }
      }
      db := db[key := stored];
      return Reply(200, Single(key, Single("value", Decode(stored))));
    }

    /** `delete_from_db`: an empty path deletes the key; otherwise see PathDelete. */
    method DeleteFromDb(key: string, path: string) returns (out: Outcome)
      modifies this
      ensures key !in old(db) ==> db == old(db) && out == Reply(404, Error("Key not found"))
      ensures key in old(db) && path == "" ==>
        db == old(db) - {key} && out == Reply(200, Single(key, Decode(old(db)[key])))
      ensures key in old(db) && path != "" ==>
        match PathDelete(Decode(old(db)[key]), path)
        case Crashed => db == old(db) && out == Crash
        case Missing => db == old(db) && out == Reply(404, Error("Key not found"))
        case Erase(x) => db == old(db) - {key} && out == Reply(200, Single(key, x))
        case Write(s, x) => db == old(db)[key := s] && out == Reply(200, Single(key, x))
    {
      if key !in db {
        return Reply(404, Error("Key not found"));
      }
      var value := Decode(db[key]);
      if path == "" {
        db := db - {key};
        return Reply(200, Single(key, value));
      }
      var parts := Split(path, '/');
      if |parts| == 1 {
        var present := Contains(value, path);
        if present.None? {
          return Crash;
        }
        if !present.value {
          return Reply(404, Error("Key not found"));
        }
        if !value.Obj? {
          return Crash;
        }
        var fs := Remove(value.fields, path);
        if fs == [] {
          db := db - {key};
        } else {
          db := db[key := Dumps(Obj(fs))];
        }
        return Reply(200, Single(key, Obj(fs)));
      }
      var step := Traverse(value, parts);
      if step.Raised? || step.ret.ReturnedError? {
        return Crash;
      }
      var result := if step.ret.Returned? then step.ret.v else Null;
      if result.Null? {
        db := db - {key};
      } else {
        db := db[key := Dumps(result)];
      }
      return Reply(200, Single(key, result));
    }
  }

  // ---------------------------------------------------------------------------------------
  // What a PUT stores.

  /** A non-empty dict merged into a stored dict: the stored text reads back as the merge. */
  lemma UpdateMerges(ov: Value, nv: Value)
    requires WF(ov) && WF(nv) && ov.Obj? && nv.Obj? && nv.fields != []
    ensures UpdateText(ov, nv) == Some(Dumps(Obj(Merge(ov.fields, nv.fields))))
    ensures Decode(UpdateText(ov, nv).value) == Obj(Merge(ov.fields, nv.fields))
  {
    ParseDumps(nv);
    MergeWF(ov.fields, nv.fields);
    DecodeEncode(Obj(Merge(ov.fields, nv.fields)));
  }

  /** A body without "value" (or with an empty dict) leaves the document as it reads. */
  lemma UpdateWithEmptyDict(ov: Value)
    requires WF(ov)
    ensures UpdateText(ov, Obj([])) == Some(Dumps(ov))
    ensures Decode(Dumps(ov)) == ov
  {
    ParseDumps(Obj([]));
    ParseDumps(ov);
  }

  /** A list value always raises: its JSON text reads back as a list, which has no `.items()`. */
  lemma UpdateWithListRaises(ov: Value, nv: Value)
    requires WF(ov) && WF(nv) && nv.Arr?
    ensures UpdateText(ov, nv) == None
  {
    ParseDumps(nv);
  }

  /** An int, bool or None value replaces the document, and reads back as itself. */
  lemma UpdateWithScalar(ov: Value, nv: Value)
    requires WF(ov) && (nv.Int? || nv.Bool? || nv.Null?)
    ensures UpdateText(ov, nv).Some? && Decode(UpdateText(ov, nv).value) == nv
  {
    DecodeEncode(nv);
  }

  /** A non-empty dict sent for a document that is not a dict replaces it. */
  lemma UpdateNonDictDocument(ov: Value, nv: Value)
    requires WF(ov) && WF(nv) && !ov.Obj? && nv.Obj? && nv.fields != []
    ensures UpdateText(ov, nv).Some? && Decode(UpdateText(ov, nv).value) == nv
  {
    ParseDumps(nv);
  }

  // ---------------------------------------------------------------------------------------
  // What a DELETE with a path stores.

  /** A segment with no '/' in it is a path of one segment. */
  lemma SplitOne(seg: string)
    requires NoSep(seg, '/')
    ensures Split(seg, '/') == [seg]
  {
    SplitJoin([seg], '/');
  }

  /** One segment naming a field of a dict removes exactly that field and prunes nothing; the
      key is deleted when no field is left, and otherwise the text written reads back as the
      dict without that field. */
  lemma DeleteOneField(v: Value, seg: string)
    requires WF(v) && v.Obj? && NoSep(seg, '/') && seg in Keys(v.fields)
    ensures PathDelete(v, seg).Erase? || PathDelete(v, seg).Write?
    ensures PathDelete(v, seg).shown.Obj?
    ensures Keys(PathDelete(v, seg).shown.fields) == Keys(v.fields) - {seg}
    ensures forall k :: k in Keys(PathDelete(v, seg).shown.fields) ==>
      Get(PathDelete(v, seg).shown.fields, k) == Get(v.fields, k)
    ensures PathDelete(v, seg).Erase? <==> Remove(v.fields, seg) == []
    ensures PathDelete(v, seg).Write? ==> Decode(PathDelete(v, seg).text) == PathDelete(v, seg).shown
  {
    SplitOne(seg);
    RemoveWF(v.fields, seg);
    DecodeEncode(Obj(Remove(v.fields, seg)));
  }

  /** One segment that is not a field of a dict answers 404 (and the store is left alone). */
  lemma DeleteOneFieldMissing(v: Value, seg: string)
    requires v.Obj? && NoSep(seg, '/') && seg !in Keys(v.fields)
    ensures PathDelete(v, seg) == Missing
  {
    SplitOne(seg);
  }

  /** With two or more segments, the text written reads back as the value the response shows,
      which is the document after the nested delete with its top level pruned. */
  lemma DeleteNestedWrites(v: Value, path: string)
    requires WF(v) && |Split(path, '/')| >= 2 && PathDelete(v, path).Write?
    ensures Traverse(v, Split(path, '/')).Done?
    ensures Prune(Traverse(v, Split(path, '/')).after) == Returned(PathDelete(v, path).shown)
    ensures Decode(PathDelete(v, path).text) == PathDelete(v, path).shown
  {
    var q := Split(path, '/');
    TraverseWF(v, q);
    var step := Traverse(v, q);
    assert step.Done? && step.ret.Returned? && step.ret.v == PathDelete(v, path).shown;
    ParseDumps(step.ret.v);
  }

  /** After a nested delete of a dict's key, reading the same path answers 400: what is stored
      no longer has it. */
  lemma DeletedPathUnreadable(v: Value, path: string)
    requires WF(v) && |Split(path, '/')| >= 2
    requires var q := Split(path, '/');
      Locate(v, q[..|q| - 1]).Reached? && HasField(Locate(v, q[..|q| - 1]).w, q[|q| - 1])
    ensures PathDelete(v, path).Erase? || PathDelete(v, path).Write?
    ensures PathDelete(v, path).Write? ==> Resolve(Decode(PathDelete(v, path).text), Split(path, '/')) == None
  {
    var q := Split(path, '/');
    DeletedKeyGone(v, q);
    if PathDelete(v, path).Write? {
      DeleteNestedWrites(v, path);
    }
  }

  /** The text of an int never contains '/'. */
  lemma IntTextNoSlash(n: int)
    ensures NoSep(IntText(n), '/')
  {
    var m: nat := if n < 0 then -n else n;
    var t := IntText(n);
    forall i | 0 <= i < |t| ensures t[i] != '/' {
      if n < 0 && i > 0 {
        assert t[i] == NatText(m)[i - 1];
      }
    }
  }

  /** `DELETE /db/k/a/<n>` on `{a: [1], b: 0}`, for an int `n` too wide for `list.pop`, raises
      and leaves the store alone, where an index only out of range would write `{"a": [1]}`. */
  lemma DeleteHugeIndexCrashes(n: int)
    requires !FitsSsize(n)
    ensures PathDelete(Obj([Field("a", Arr([Int(1)])), Field("b", Int(0))]), "a/" + IntText(n)) == Crashed
  {
    IntTextNoSlash(n);
    SplitJoin(["a", IntText(n)], '/');
    assert Join(["a", IntText(n)], '/') == "a/" + IntText(n) by {
      assert ["a", IntText(n)][1..] == [IntText(n)];
    }
    DeleteHugeIndexRaises(n);
  }

  /** A two-segment path splits at its '/'. */
  lemma SplitTwo(a: string, b: string)
    requires NoSep(a, '/') && NoSep(b, '/')
    ensures Split(a + "/" + b, '/') == [a, b]
  {
    SplitJoin([a, b], '/');
    assert Join([a, b], '/') == a + "/" + b by {
      assert [a, b][1..] == [b];
    }
  }

  /** `DELETE /db/k/a/b` on `{a: 0}`: the path stops at the scalar 0 without an error, but the
      top level then filters to `{}`, so the whole key is deleted. */
  lemma DeleteMissingPathErasesDocument()
    ensures PathDelete(Obj([Field("a", Int(0))]), "a/b") == Erase(Null)
  {
    SplitTwo("a", "b");
    assert "a" + "/" + "b" == "a/b";
    assert ["a", "b"][1..] == ["b"];
    assert Traverse(Int(0), ["b"]) == Finish(Int(0));
    assert FilterFields([Field("a", Int(0))]) == [];
  }

  /** `DELETE /db/k/a/5` on `{a: []}`: `pop(5)` raises IndexError and its error return is
      ignored, but the top level then filters to `{}`, so the whole key is deleted. */
  lemma DeleteOutOfRangeErasesDocument()
    ensures PathDelete(Obj([Field("a", Arr([]))]), "a/5") == Erase(Null)
  {
    SplitTwo("a", "5");
    assert "a" + "/" + "5" == "a/5";
    assert ["a", "5"][1..] == ["5"];
    DigitSegment('5');
    assert "5" == ['5'];
    assert DeleteFromList([], "5") == Invalid;
    assert Traverse(Arr([]), ["5"]) == Done(Arr([]), ReturnedError);
    assert FilterFields([Field("a", Arr([]))]) == [];
  }

  /** `DELETE /db/k/a/b/c` on `{a: {b: {c: 1}}}` writes `{"a": {"b": {}}}`. */
  lemma DeleteNestedExample()
    ensures PathDelete(Obj([Field("a", Obj([Field("b", Obj([Field("c", Int(1))]))]))]), "a/b/c")
         == Write(Dumps(Obj([Field("a", Obj([Field("b", Obj([]))]))])), Obj([Field("a", Obj([Field("b", Obj([]))]))]))
  {
    SplitJoin(["a", "b", "c"], '/');
    assert Join(["a", "b", "c"], '/') == "a/b/c" by {
      assert ["a", "b", "c"][1..] == ["b", "c"] && ["b", "c"][1..] == ["c"];
    }
    DeleteNestedKeepsEmpty();
  }
}
