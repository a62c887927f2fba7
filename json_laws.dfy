/** What the JSON text format promises: `json.loads(json.dumps(v)) == v`. */
module JsonLaws {
  import opened Wrappers
  import opened Values
  import opened Digits
  import opened JsonText
  import opened JsonParse

  /** Moving the head of a nonempty sequence onto the end of the one before it. */
  lemma SplitFirst<T>(acc: seq<T>, s: seq<T>)
    requires s != []
    ensures acc + [s[0]] + s[1..] == acc + s
    ensures |s| == 1 ==> acc + [s[0]] == acc + s
  {
    if |s| == 1 {
      assert s == [s[0]];
    }
  }

  lemma Enclose(open: string, x: string, close: string, rest: string)
    ensures open + x + close + rest == open + (x + close + rest)
  {
  }

  lemma DropOpen(c: char, x: string)
    ensures [c] + x != [] && ([c] + x)[0] == c && ([c] + x)[1..] == x
  {
  }

  lemma EmptyPrefix<T>(s: seq<T>)
    ensures [] + s == s
  {
  }

  /** What a serialised value can start with. */
  predicate StartsValue(c: char)
  {
    c == 'n' || c == 't' || c == 'f' || c == '-' || IsDigit(c) || c == '"' || c == '[' || c == '{'
  }

  lemma DumpsStart(v: Value)
    ensures Dumps(v) != [] && StartsValue(Dumps(v)[0])
  {
    match v
    case Int(i) =>
      if i >= 0 { assert IsDigit(NatText(i)[0]); }
    case _ =>
  }

  lemma DumpItemsStart(items: seq<Value>)
    requires items != []
    ensures DumpItems(items) != [] && DumpItems(items)[0] == Dumps(items[0])[0]
  {
    DumpsStart(items[0]);
  }

  lemma {:induction false} DigitRunExact(ds: string, rest: string)
    requires AllDigits(ds)
    requires rest == [] || !IsDigit(rest[0])
    ensures DigitRun(ds + rest) == ds
  {
    if ds != [] {
      DigitRunExact(ds[1..], rest);
      assert (ds + rest)[1..] == ds[1..] + rest;
    } else {
      assert ds + rest == rest;
    }
  }

  /** The digits of a non-negative int followed by a non-digit, as ParseNumber reads them. */
  lemma NatTextReads(m: nat, rest: string)
    requires rest == [] || !IsDigit(rest[0])
    ensures var ds := NatText(m); var t := ds + rest;
      t != [] && t[0] != '-' &&
      (m == 0 ==> t[0] == '0' && t[1..] == rest) &&
      (m > 0 ==> '1' <= t[0] <= '9' && DigitRun(t) == ds && t[|ds|..] == rest && DigitsValue(ds) == m)
  {
    var ds := NatText(m);
    NatTextLeading(m);
    NatTextValue(m);
    if m > 0 {
      DigitRunExact(ds, rest);
    }
  }

  lemma NumberRoundTrip(n: int, rest: string)
    requires rest == [] || !IsDigit(rest[0])
    ensures ParseNumber(IntText(n) + rest) == Some((Int(n), rest))
  {
    if n < 0 {
      var m: nat := -n;
      assert IntText(n) + rest == "-" + (NatText(m) + rest);
      NegativeRoundTrip(m, rest);
    } else {
      NatRoundTrip(n, rest);
    }
  }

  lemma NatRoundTrip(m: nat, rest: string)
    requires rest == [] || !IsDigit(rest[0])
    ensures ParseNumber(NatText(m) + rest) == Some((Int(m), rest))
  {
    NatTextReads(m, rest);
    UnsignedNumber(NatText(m) + rest, NatText(m), m, rest);
  }

  lemma NegativeRoundTrip(m: nat, rest: string)
    requires rest == [] || !IsDigit(rest[0])
    ensures ParseNumber("-" + (NatText(m) + rest)) == Some((Int(-(m as int)), rest))
  {
    NatTextReads(m, rest);
    SignedNumber(NatText(m) + rest, NatText(m), m, rest);
  }

  lemma UnsignedNumber(t: string, ds: string, m: nat, rest: string)
    requires t != [] && t[0] != '-'
    requires m == 0 ==> t[0] == '0' && t[1..] == rest
    requires m > 0 ==> '1' <= t[0] <= '9' && DigitRun(t) == ds && t[|ds|..] == rest && DigitsValue(ds) == m
    ensures ParseNumber(t) == Some((Int(m), rest))
  {
  }

  lemma SignedNumber(t: string, ds: string, m: nat, rest: string)
    requires t != [] && t[0] != '-'
    requires m == 0 ==> t[0] == '0' && t[1..] == rest
    requires m > 0 ==> '1' <= t[0] <= '9' && DigitRun(t) == ds && t[|ds|..] == rest && DigitsValue(ds) == m
    ensures ParseNumber("-" + t) == Some((Int(-(m as int)), rest))
  {
    DropOpen('-', t);
  }

  lemma Hex4RoundTrip(n: nat, rest: string)
    requires n < 0x1_0000
    ensures ParseHex4(HexText(n, 4) + rest) == Some(n)
  {
    var hs := HexText(n, 4);
    assert (hs + rest)[..4] == hs;
    HexTextValue(n, 4);
  }

  /** The text after a backslash that EscapeChar writes is read back as the character. */
  lemma EscapeRoundTrip(c: char, rest: string)
    requires !(' ' <= c <= '~') || c == '"' || c == '\\'
    ensures EscapeChar(c)[0] == '\\'
    ensures ParseEscape(EscapeChar(c)[1..] + rest) == Some((c, rest))
  {
    if c == '"' || c == '\\' || c == '\n' || c == '\r' || c == '\t' || c == Backspace || c == FormFeed {
      NamedEscapeRoundTrip(c, rest);
    } else if c as int < 0x1_0000 {
      assert EscapeChar(c) == "\\u" + HexText(c as int, 4);
      assert EscapeChar(c)[1..] == "u" + HexText(c as int, 4);
      UnicodeEscapeRoundTrip(c, rest);
    } else {
      var n := c as int - 0x1_0000;
      assert EscapeChar(c) == "\\u" + HexText(0xD800 + n / 0x400, 4) + "\\u" + HexText(0xDC00 + n % 0x400, 4);
      assert EscapeChar(c)[1..] == "u" + HexText(0xD800 + n / 0x400, 4) + "\\u" + HexText(0xDC00 + n % 0x400, 4);
      PairEscapeRoundTrip(c, rest);
    }
  }

  lemma NamedEscapeRoundTrip(c: char, rest: string)
    requires c == '"' || c == '\\' || c == '\n' || c == '\r' || c == '\t' || c == Backspace || c == FormFeed
    ensures EscapeChar(c)[0] == '\\'
    ensures ParseEscape(EscapeChar(c)[1..] + rest) == Some((c, rest))
  {
    var e := EscapeChar(c);
    assert |e| == 2;
    assert (e[1..] + rest)[1..] == rest;
  }

  lemma UnicodeEscapeRoundTrip(c: char, rest: string)
    requires c as int < 0x1_0000
    ensures ParseEscape(("u" + HexText(c as int, 4)) + rest) == Some((c, rest))
  {
    var h := HexText(c as int, 4);
    var s := ("u" + h) + rest;
    assert s[1..] == h + rest;
    Hex4RoundTrip(c as int, rest);
    assert s[5..] == rest;
  }

  lemma PairEscapeRoundTrip(c: char, rest: string)
    requires c as int >= 0x1_0000
    ensures var n := c as int - 0x1_0000;
      ParseEscape(("u" + HexText(0xD800 + n / 0x400, 4) + "\\u" + HexText(0xDC00 + n % 0x400, 4)) + rest) == Some((c, rest))
  {
    var n := c as int - 0x1_0000;
    var h, l := 0xD800 + n / 0x400, 0xDC00 + n % 0x400;
    SurrogateSplit(n);
    SurrogatePair(h, l, rest);
  }

  /** A code point above U+FFFF splits into a high and a low surrogate that join back to it. */
  lemma SurrogateSplit(n: int)
    requires 0 <= n < 0x10_0000
    ensures 0xD800 <= 0xD800 + n / 0x400 < 0xDC00
    ensures 0xDC00 <= 0xDC00 + n % 0x400 < 0xE000
    ensures (0xD800 + n / 0x400 - 0xD800) * 0x400 + (0xDC00 + n % 0x400 - 0xDC00) == n
  {
  }

  /** A surrogate pair escape, after its backslash, is read as the character it stands for. */
  lemma SurrogatePair(h: nat, l: nat, rest: string)
    requires 0xD800 <= h < 0xDC00 && 0xDC00 <= l < 0xE000
    requires 0x1_0000 + (h - 0xD800) * 0x400 + (l - 0xDC00) < 0x11_0000
    ensures ParseEscape(("u" + HexText(h, 4) + "\\u" + HexText(l, 4)) + rest)
      == Some(((0x1_0000 + (h - 0xD800) * 0x400 + (l - 0xDC00)) as char, rest))
  {
    var hi, lo := HexText(h, 4), HexText(l, 4);
    var s := ("u" + hi + "\\u" + lo) + rest;
    assert s[1..] == hi + ("\\u" + lo + rest);
    Hex4RoundTrip(h, "\\u" + lo + rest);
    assert s[7..] == lo + rest;
    Hex4RoundTrip(l, rest);
    assert s[11..] == rest;
    PairEscapeStep(s, h, l, rest);
  }

  /** The branch of ParseEscape that reads a surrogate pair. */
  lemma PairEscapeStep(s: string, h: nat, l: nat, rest: string)
    requires |s| >= 11 && s[0] == 'u' && s[5] == '\\' && s[6] == 'u' && s[11..] == rest
    requires ParseHex4(s[1..]) == Some(h) && ParseHex4(s[7..]) == Some(l)
    requires 0xD800 <= h < 0xDC00 && 0xDC00 <= l < 0xE000
    requires 0x1_0000 + (h - 0xD800) * 0x400 + (l - 0xDC00) < 0x11_0000
    ensures ParseEscape(s) == Some(((0x1_0000 + (h - 0xD800) * 0x400 + (l - 0xDC00)) as char, rest))
  {
  }

  lemma EscapeCharRoundTrip(c: char, s: string, s': string, rest: string)
    requires ParseString(s) == Some((s', rest))
    ensures ParseString(EscapeChar(c) + s) == Some(([c] + s', rest))
  {
    var x := EscapeChar(c) + s;
    if ' ' <= c <= '~' && c != '"' && c != '\\' {
      assert EscapeChar(c) == [c];
      assert x[1..] == s;
    } else {
      EscapeRoundTrip(c, s);
      assert x[1..] == EscapeChar(c)[1..] + s;
    }
  }

  lemma {:induction false} StringRoundTrip(s: string, rest: string)
    ensures ParseString(Escape(s) + "\"" + rest) == Some((s, rest))
  {
    if s == [] {
      assert Escape(s) + "\"" + rest == "\"" + rest;
    } else {
      StringRoundTrip(s[1..], rest);
      var tail := Escape(s[1..]) + "\"" + rest;
      assert Escape(s) + "\"" + rest == EscapeChar(s[0]) + tail;
      EscapeCharRoundTrip(s[0], tail, s[1..], rest);
      assert [s[0]] + s[1..] == s;
    }
  }

  lemma SkipWsNone(s: string)
    requires s != [] && !IsWs(s[0])
    ensures SkipWs(s) == s
  {
  }

  /** Serialising a well-formed value and parsing it back gives the value and leaves what follows. */
  lemma {:induction false} ValueRoundTrip(v: Value, rest: string)
    requires WF(v)
    requires rest == [] || !IsDigit(rest[0])
    ensures ParseValue(Dumps(v) + rest) == Some((v, rest))
    decreases v, 2
  {
    match v
    case Null => LiteralRoundTrip(v, rest);
    case Bool(_) => LiteralRoundTrip(v, rest);
    case Int(i) => IntRoundTrip(i, rest);
    case Str(t) => StrRoundTrip(t, rest);
    case Arr(items) => ArrRoundTrip(items, rest);
    case Obj(fs) => ObjRoundTrip(fs, rest);
  }

  lemma LiteralRoundTrip(v: Value, rest: string)
    requires v.Null? || v.Bool?
    ensures ParseValue(Dumps(v) + rest) == Some((v, rest))
  {
    var s := Dumps(v) + rest;
    if v.Null? {
      assert "null" <= s && s[4..] == rest;
    } else if v.b {
      assert "true" <= s && s[4..] == rest;
    } else {
      assert "false" <= s && s[5..] == rest;
    }
  }

  lemma IntRoundTrip(i: int, rest: string)
    requires rest == [] || !IsDigit(rest[0])
    ensures ParseValue(Dumps(Int(i)) + rest) == Some((Int(i), rest))
  {
    NumberRoundTrip(i, rest);
    DumpsStart(Int(i));
    NumberDispatch(Dumps(Int(i)) + rest);
  }

  /** Text starting with a sign or a digit is read as a number. */
  lemma NumberDispatch(s: string)
    requires s != [] && (s[0] == '-' || IsDigit(s[0]))
    ensures ParseValue(s) == ParseNumber(s)
  {
  }

  lemma StrRoundTrip(t: string, rest: string)
    ensures ParseValue(Dumps(Str(t)) + rest) == Some((Str(t), rest))
  {
    var body := Escape(t) + "\"" + rest;
    QuoteText(Escape(t), rest);
    DropQuote(body);
    StringRoundTrip(t, rest);
    StringDispatch("\"" + body);
  }

  lemma QuoteText(e: string, rest: string)
    ensures "\"" + e + "\"" + rest == "\"" + (e + "\"" + rest)
  {
  }

  /** Text starting with a quote is read as a string literal. */
  lemma StringDispatch(s: string)
    requires s != [] && s[0] == '"'
    ensures ParseValue(s) == match ParseString(s[1..]) case None => None case Some((t, rest)) => Some((Str(t), rest))
  {
  }

  lemma {:induction false} ArrRoundTrip(items: seq<Value>, rest: string)
    requires WF(Arr(items))
    ensures ParseValue(Dumps(Arr(items)) + rest) == Some((Arr(items), rest))
    decreases Arr(items), 1
  {
    var s := Dumps(Arr(items)) + rest;
    if items == [] {
      assert s[1..] == "]" + rest;
    } else {
      var inner := DumpItems(items) + "]" + rest;
      Enclose("[", DumpItems(items), "]", rest);
      DumpItemsStart(items);
      DumpsStart(items[0]);
      ItemsRoundTrip(items, [], rest);
      EmptyPrefix(items);
      OpenArray(inner);
    }
  }

  lemma {:induction false} ObjRoundTrip(fs: seq<Field>, rest: string)
    requires WF(Obj(fs))
    ensures ParseValue(Dumps(Obj(fs)) + rest) == Some((Obj(fs), rest))
    decreases Obj(fs), 1
  {
    if fs == [] {
      EmptyObjRoundTrip(rest);
    } else {
      var inner := DumpFields(fs) + "}" + rest;
      Enclose("{", DumpFields(fs), "}", rest);
      assert Keys([]) == {};
      MembersRoundTrip(fs, [], rest);
      EmptyPrefix(fs);
      DumpFieldsStart(fs, rest);
      OpenObject(inner);
    }
  }

  lemma EmptyObjRoundTrip(rest: string)
    ensures ParseValue(Dumps(Obj([])) + rest) == Some((Obj([]), rest))
  {
    assert DumpFields([]) == "";
    assert Dumps(Obj([])) == "{}";
    var s := "{}" + rest;
    assert s[0] == '{' && s[1..] == "}" + rest;
    SkipWsNone("}" + rest);
    assert ("}" + rest)[1..] == rest;
  }

  lemma OpenArray(inner: string)
    requires inner != [] && StartsValue(inner[0])
    ensures ParseValue("[" + inner) == ParseItems(inner, [])
  {
    var s := "[" + inner;
    assert s[1..] == inner;
    SkipWsNone(inner);
  }

  lemma OpenObject(inner: string)
    requires inner != [] && inner[0] == '"'
    ensures ParseValue("{" + inner) == ParseMembers(inner, [])
  {
    var s := "{" + inner;
    assert s[1..] == inner;
    SkipWsNone(inner);
  }

  /** One element of an array has been read; what ParseItems does next. */
  lemma ItemsStep(s: string, acc: seq<Value>, v: Value, after: string)
    requires ParseValue(s) == Some((v, after))
    requires after != [] && !IsWs(after[0])
    ensures after[0] == ']' ==> ParseItems(s, acc) == Some((Arr(acc + [v]), after[1..]))
    ensures after[0] == ',' ==> ParseItems(s, acc) == ParseItems(SkipWs(after[1..]), acc + [v])
  {
    SkipWsNone(after);
  }

  /** One member of an object has been read; what ParseMembers does next. */
  lemma MembersStep(s: string, acc: seq<Field>, k: string, t: string, v: Value, after: string)
    requires s != [] && s[0] == '"'
    requires ParseString(s[1..]) == Some((k, t))
    requires SkipWs(t) == t && t != [] && t[0] == ':'
    requires ParseValue(SkipWs(t[1..])) == Some((v, after))
    requires SkipWs(after) == after && after != [] && (after[0] == '}' || after[0] == ',')
    ensures ParseMembers(s, acc) ==
      if after[0] == '}' then Some((Obj(Put(acc, k, v)), after[1..]))
      else ParseMembers(SkipWs(after[1..]), Put(acc, k, v))
  {
  }

  /** The text after a separator ", " or ": " once its space is skipped. */
  lemma AfterSeparator(more: string)
    requires more != [] && StartsValue(more[0])
    ensures (", " + more)[1..] == " " + more
    ensures (": " + more)[1..] == " " + more
    ensures SkipWs(" " + more) == more
  {
    assert (" " + more)[1..] == more;
    SkipWsNone(more);
  }

  /** String identities over opaque pieces, used to split an array's text at its first element. */
  lemma LastItemShape(d: string, rest: string)
    ensures d + "]" + rest == d + ("]" + rest)
  {
  }

  lemma ItemShape(d: string, tail: string, rest: string)
    ensures d + ", " + tail + "]" + rest == d + (", " + (tail + "]" + rest))
  {
  }

  lemma {:induction false} ItemsRoundTrip(items: seq<Value>, acc: seq<Value>, rest: string)
    requires items != []
    requires forall i :: 0 <= i < |items| ==> WF(items[i])
    ensures ParseItems(DumpItems(items) + "]" + rest, acc) == Some((Arr(acc + items), rest))
    decreases items, 1
  {
    if |items| == 1 {
      LastItemRoundTrip(items[0], acc, rest);
      assert [items[0]] == items;
    } else {
      NextItemRoundTrip(items, acc, rest);
    }
  }

  lemma LastItemRoundTrip(v: Value, acc: seq<Value>, rest: string)
    requires WF(v)
    ensures ParseItems(DumpItems([v]) + "]" + rest, acc) == Some((Arr(acc + [v]), rest))
    decreases v, 3
  {
    var d := Dumps(v);
    var after := "]" + rest;
    LastItemShape(d, rest);
    ValueRoundTrip(v, after);
    SkipWsNone(after);
    ItemsStep(d + after, acc, v, after);
    assert after[1..] == rest;
  }

  lemma {:induction false} NextItemRoundTrip(items: seq<Value>, acc: seq<Value>, rest: string)
    requires |items| >= 2
    requires forall i :: 0 <= i < |items| ==> WF(items[i])
    ensures ParseItems(DumpItems(items) + "]" + rest, acc) == Some((Arr(acc + items), rest))
    decreases items, 0
  {
    var d := Dumps(items[0]);
    var tail := DumpItems(items[1..]);
    var more := tail + "]" + rest;
    var after := ", " + more;
    ItemShape(d, tail, rest);
    ValueRoundTrip(items[0], after);
    ItemsStep(d + after, acc, items[0], after);
    DumpItemsStart(items[1..]);
    DumpsStart(items[1..][0]);
    AfterSeparator(more);
    ItemsRoundTrip(items[1..], acc + [items[0]], rest);
    SplitFirst(acc, items);
  }

  /** String identities over opaque pieces, used to split a dict's text at its first member. */
  lemma LastFieldShape(e: string, d: string, rest: string)
    ensures ("\"" + e + "\"") + ": " + d + "}" + rest == "\"" + (e + "\"" + (": " + (d + ("}" + rest))))
  {
  }

  lemma FieldShape(e: string, d: string, tail: string, rest: string)
    ensures ("\"" + e + "\"") + ": " + d + ", " + tail + "}" + rest
         == "\"" + (e + "\"" + (": " + (d + (", " + (tail + "}" + rest)))))
  {
  }

  lemma DropQuote(x: string)
    ensures ("\"" + x) != [] && ("\"" + x)[0] == '"' && ("\"" + x)[1..] == x
  {
  }

  /** The text of a dict's members followed by the closing brace, split at its first member. */
  lemma FieldsText(fs: seq<Field>, rest: string)
    requires fs != []
    ensures var after := if |fs| == 1 then "}" + rest else ", " + (DumpFields(fs[1..]) + "}" + rest);
      DumpFields(fs) + "}" + rest == "\"" + (Escape(fs[0].key) + "\"" + (": " + (Dumps(fs[0].val) + after)))
  {
    if |fs| == 1 {
      LastFieldShape(Escape(fs[0].key), Dumps(fs[0].val), rest);
    } else {
      FieldShape(Escape(fs[0].key), Dumps(fs[0].val), DumpFields(fs[1..]), rest);
    }
  }

  lemma DumpFieldsStart(fs: seq<Field>, rest: string)
    requires fs != []
    ensures var s := DumpFields(fs) + "}" + rest; s != [] && s[0] == '"'
  {
    FieldsText(fs, rest);
  }

  /** What follows a dict's first member in its text: the closing brace or the next member. */
  ghost function MemberEnd(fs: seq<Field>, rest: string): string
    requires fs != []
  {
    if |fs| == 1 then "}" + rest else ", " + (DumpFields(fs[1..]) + "}" + rest)
  }

  /** Reading the first member of a dict's text. */
  lemma FirstMember(fs: seq<Field>, acc: seq<Field>, rest: string)
    requires fs != [] && WF(fs[0].val) && fs[0].key !in Keys(acc)
    ensures ParseMembers(DumpFields(fs) + "}" + rest, acc) ==
      if |fs| == 1 then Some((Obj(acc + [fs[0]]), rest))
      else ParseMembers(DumpFields(fs[1..]) + "}" + rest, acc + [fs[0]])
    decreases fs[0].val, 3
  {
    ValueRoundTrip(fs[0].val, MemberEnd(fs, rest));
    MemberRead(fs, acc, rest);
  }

  lemma MemberRead(fs: seq<Field>, acc: seq<Field>, rest: string)
    requires fs != [] && fs[0].key !in Keys(acc)
    requires ParseValue(Dumps(fs[0].val) + MemberEnd(fs, rest)) == Some((fs[0].val, MemberEnd(fs, rest)))
    ensures ParseMembers(DumpFields(fs) + "}" + rest, acc) ==
      if |fs| == 1 then Some((Obj(acc + [fs[0]]), rest))
      else ParseMembers(DumpFields(fs[1..]) + "}" + rest, acc + [fs[0]])
  {
    var f := fs[0];
    var d := Dumps(f.val);
    var more := DumpFields(fs[1..]) + "}" + rest;
    var after := MemberEnd(fs, rest);
    var t := ": " + (d + after);
    var s := DumpFields(fs) + "}" + rest;
    FieldsText(fs, rest);
    DropQuote(Escape(f.key) + "\"" + t);
    StringRoundTrip(f.key, t);
    DumpsStart(f.val);
    AfterSeparator(d + after);
    SkipWsNone(t);
    SkipWsNone(after);
    MembersStep(s, acc, f.key, t, f.val, after);
    if |fs| == 1 {
      assert after[1..] == rest;
    } else {
      DumpFieldsStart(fs[1..], rest);
      AfterSeparator(more);
    }
  }

  /** The bookkeeping for moving a dict's first member into the accumulator. */
  lemma MembersShift(fs: seq<Field>, acc: seq<Field>)
    requires fs != []
    requires NoDup(fs) && forall i :: 0 <= i < |fs| ==> WF(fs[i].val)
    requires Keys(acc) !! Keys(fs)
    ensures WF(fs[0].val) && fs[0].key !in Keys(acc)
    ensures NoDup(fs[1..]) && forall i :: 0 <= i < |fs[1..]| ==> WF(fs[1..][i].val)
    ensures Keys(acc + [fs[0]]) !! Keys(fs[1..])
  {
    ShiftKeys(fs, acc);
    forall i | 0 <= i < |fs[1..]| ensures WF(fs[1..][i].val) {
      assert fs[1..][i] == fs[i + 1];
    }
  }

  lemma ShiftKeys(fs: seq<Field>, acc: seq<Field>)
    requires fs != []
    requires NoDup(fs)
    requires Keys(acc) !! Keys(fs)
    ensures fs[0].key !in Keys(acc)
    ensures Keys(acc + [fs[0]]) !! Keys(fs[1..])
  {
    KeysAppend(acc, [fs[0]]);
    assert Keys([fs[0]]) == {fs[0].key};
    assert fs[0].key in Keys(fs);
  }

  lemma {:induction false} MembersRoundTrip(fs: seq<Field>, acc: seq<Field>, rest: string)
    requires fs != []
    requires NoDup(fs) && forall i :: 0 <= i < |fs| ==> WF(fs[i].val)
    requires Keys(acc) !! Keys(fs)
    ensures ParseMembers(DumpFields(fs) + "}" + rest, acc) == Some((Obj(acc + fs), rest))
    decreases fs
  {
    MembersShift(fs, acc);
    FirstMember(fs, acc, rest);
    assert Put(acc, fs[0].key, fs[0].val) == acc + [fs[0]];
    SplitFirst(acc, fs);
    if |fs| > 1 {
      MembersRoundTrip(fs[1..], acc + [fs[0]], rest);
    }
  }

  /** `json.loads(json.dumps(v)) == v` for every value whose dicts have distinct keys. */
  lemma ParseDumps(v: Value)
    requires WF(v)
    ensures Parse(Dumps(v)) == Some(v)
  {
    DumpsStart(v);
    SkipWsNone(Dumps(v));
    ValueRoundTrip(v, []);
    assert Dumps(v) + [] == Dumps(v);
  }

  /** Whatever json.loads returns has distinct keys in every dict. */
  lemma ParseWF(s: string)
    ensures Parse(s).Some? ==> WF(Parse(s).value)
  {
    ValueWF(SkipWs(s));
  }

  lemma {:induction false} ValueWF(s: string)
    ensures ParseValue(s).Some? ==> WF(ParseValue(s).value.0)
    decreases |s|, 1
  {
    if s != [] && s[0] == '[' {
      var t := SkipWs(s[1..]);
      if !(t != [] && t[0] == ']') {
        ItemsWF(t, []);
      }
    } else if s != [] && s[0] == '{' {
      var t := SkipWs(s[1..]);
      if !(t != [] && t[0] == '}') {
        MembersWF(t, []);
      }
    }
  }

  lemma {:induction false} ItemsWF(s: string, acc: seq<Value>)
    requires forall i :: 0 <= i < |acc| ==> WF(acc[i])
    ensures ParseItems(s, acc).Some? ==> WF(ParseItems(s, acc).value.0)
    decreases |s|, 2
  {
    ValueWF(s);
    match ParseValue(s)
    case None =>
    case Some((v, rest)) =>
      var acc' := acc + [v];
      assert forall i :: 0 <= i < |acc'| ==> WF(acc'[i]) by {
        forall i | 0 <= i < |acc'| ensures WF(acc'[i]) {
          if i < |acc| { assert acc'[i] == acc[i]; }
        }
      }
      var t := SkipWs(rest);
      if t != [] && t[0] == ',' {
        ItemsWF(SkipWs(t[1..]), acc');
      }
  }

  lemma {:induction false} MembersWF(s: string, acc: seq<Field>)
    requires WF(Obj(acc))
    ensures ParseMembers(s, acc).Some? ==> WF(ParseMembers(s, acc).value.0)
    decreases |s|, 2
  {
    if s != [] && s[0] == '"' {
      match ParseString(s[1..])
      case None =>
      case Some((k, rest)) =>
        var t := SkipWs(rest);
        if t != [] && t[0] == ':' {
          var u := SkipWs(t[1..]);
          ValueWF(u);
          match ParseValue(u)
          case None =>
          case Some((v, rest')) =>
            PutWF(acc, k, v);
            var w := SkipWs(rest');
            if w != [] && w[0] == ',' {
              MembersWF(SkipWs(w[1..]), Put(acc, k, v));
            }
        }
    }
  }
}
