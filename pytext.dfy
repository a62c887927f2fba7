/**
  The Python string operations the request paths go through: `str.split` with
  a one-character separator, and `int()` applied to a path segment.
 */
module PyText {
  import opened Wrappers
  import opened Digits

  predicate NoSep(s: string, sep: char) { forall i :: 0 <= i < |s| ==> s[i] != sep }

  /** `s.split(sep)`: never empty; "" splits to [""], and a trailing separator gives a trailing "". */
  function Split(s: string, sep: char): (parts: seq<string>)
    ensures |parts| >= 1
    ensures forall i :: 0 <= i < |parts| ==> NoSep(parts[i], sep)
  {
    if s == [] then [""]
    else if s[0] == sep then [""] + Split(s[1..], sep)
    else
      var rest := Split(s[1..], sep);
      [[s[0]] + rest[0]] + rest[1..]
  }

  /** `sep.join(parts)`. */
  function Join(parts: seq<string>, sep: char): string
    requires |parts| >= 1
  {
    if |parts| == 1 then parts[0] else parts[0] + [sep] + Join(parts[1..], sep)
  }

  /** Splitting loses nothing: joining the pieces gives the text back. */
  lemma {:induction false} JoinSplit(s: string, sep: char)
    ensures Join(Split(s, sep), sep) == s
  {
    if s != [] {
      JoinSplit(s[1..], sep);
      var rest := Split(s[1..], sep);
      if s[0] == sep {
        assert Split(s, sep)[1..] == rest;
      } else {
        var parts := Split(s, sep);
        assert parts[1..] == rest[1..];
        if |rest| > 1 {
          assert rest[1..] == rest[1..][..];
          assert Join(rest, sep) == rest[0] + [sep] + Join(rest[1..], sep);
        }
      }
    }
  }

  /** And joining pieces free of the separator, then splitting, gives the pieces back. */
  lemma {:induction false} SplitJoin(parts: seq<string>, sep: char)
    requires |parts| >= 1
    requires forall i :: 0 <= i < |parts| ==> NoSep(parts[i], sep)
    ensures Split(Join(parts, sep), sep) == parts
    decreases |parts|, |parts[0]|
  {
    var p := parts[0];
    if p == [] {
      if |parts| > 1 {
        SplitJoin(parts[1..], sep);
        assert Join(parts, sep) == [sep] + Join(parts[1..], sep);
        assert ([sep] + Join(parts[1..], sep))[1..] == Join(parts[1..], sep);
        assert parts == [""] + parts[1..];
      }
    } else {
      var shorter := [p[1..]] + parts[1..];
      forall i | 0 <= i < |shorter| ensures NoSep(shorter[i], sep) {
        if i > 0 { assert shorter[i] == parts[i]; }
      }
      SplitJoin(shorter, sep);
      var j := Join(parts, sep);
      assert Join(shorter, sep) == j[1..] by {
        if |parts| > 1 {
          assert shorter[1..] == parts[1..];
        }
      }
      assert j != [] && j[0] == p[0] && p[0] != sep;
      assert [p[0]] + p[1..] == p;
      assert Split(j, sep) == [p] + parts[1..];
      assert [p] + parts[1..] == parts;
    }
  }

  /** What `int()` strips from both ends of its text: the ASCII whitespace of C's `isspace`
      (tab, newline, vertical tab, form feed, carriage return, space) and the non-ASCII
      characters for which `str.isspace()` holds, which `int()` first turns into spaces. The
      ASCII separators U+001C to U+001F satisfy `str.isspace()` but are not stripped. */
  predicate IsSpace(c: char)
  {
    var n := c as int;
    (9 <= n <= 13) || n == 32 || n == 0x85 || n == 0xA0 || n == 0x1680
    || (0x2000 <= n <= 0x200A) || n == 0x2028 || n == 0x2029 || n == 0x202F
    || n == 0x205F || n == 0x3000
  }

  function StripLeft(s: string): (r: string)
    ensures r == [] || !IsSpace(r[0])
    ensures |r| <= |s|
  {
    if s != [] && IsSpace(s[0]) then StripLeft(s[1..]) else s
  }

  function StripRight(s: string): (r: string)
    ensures r == [] || !IsSpace(r[|r| - 1])
    ensures |r| <= |s|
  {
    if s != [] && IsSpace(s[|s| - 1]) then StripRight(s[..|s| - 1]) else s
  }

  /** Digits with single underscores between them, as `int()` accepts in base 10. */
  predicate Grouped(b: string)
  {
    b != [] && IsDigit(b[0]) && GroupedTail(b[1..])
  }

  predicate GroupedTail(r: string)
  {
    r == [] || (IsDigit(r[0]) && GroupedTail(r[1..]))
    || (r[0] == '_' && |r| >= 2 && IsDigit(r[1]) && GroupedTail(r[2..]))
  }

  /** The digits of a grouped numeral, underscores removed. */
  function Ungroup(b: string): string
  {
    if b == [] then [] else if b[0] == '_' then Ungroup(b[1..]) else [b[0]] + Ungroup(b[1..])
  }

  lemma {:induction false} GroupedDigits(r: string)
    requires GroupedTail(r)
    ensures AllDigits(Ungroup(r))
  {
    if r != [] {
      if IsDigit(r[0]) && GroupedTail(r[1..]) {
        GroupedDigits(r[1..]);
      } else {
        GroupedDigits(r[2..]);
        assert Ungroup(r) == Ungroup(r[1..]);
        assert Ungroup(r[1..]) == [r[1]] + Ungroup(r[2..]);
      }
    }
  }

  /** `int(s)` for a str: None where Python raises ValueError. Leading zeros are allowed. */
  function PyInt(s: string): Option<int>
  {
    SignedNumeral(StripRight(StripLeft(s)))
  }

  /** An optional sign and a grouped numeral, the whitespace already stripped. */
  function SignedNumeral(t: string): Option<int>
  {
    var neg := t != [] && t[0] == '-';
    var body := if t != [] && (t[0] == '-' || t[0] == '+') then t[1..] else t;
    if Grouped(body) then
      GroupedDigits(body[1..]);
      var n: int := DigitsValue([body[0]] + Ungroup(body[1..]));
      Some(if neg then -n else n)
    else None
  }

  lemma {:induction false} DigitsGrouped(ds: string)
    requires AllDigits(ds)
    ensures GroupedTail(ds) && Ungroup(ds) == ds
  {
    if ds != [] {
      DigitsGrouped(ds[1..]);
    }
  }

  lemma NoStrip(t: string)
    requires t != [] && !IsSpace(t[0]) && !IsSpace(t[|t| - 1])
    ensures StripRight(StripLeft(t)) == t
  {
  }

  /** A signed or unsigned run of digits, as PyInt reads it. */
  lemma ReadsDigits(t: string, ds: string, neg: bool)
    requires AllDigits(ds) && ds != []
    requires t == if neg then "-" + ds else ds
    ensures PyInt(t) == Some(if neg then -(DigitsValue(ds) as int) else DigitsValue(ds))
  {
    assert t[|t| - 1] == ds[|ds| - 1];
    NoStrip(t);
    ReadsNumeral(t, ds, neg);
  }

  lemma ReadsNumeral(t: string, ds: string, neg: bool)
    requires AllDigits(ds) && ds != []
    requires t == if neg then "-" + ds else ds
    ensures SignedNumeral(t) == Some(if neg then -(DigitsValue(ds) as int) else DigitsValue(ds))
  {
    DigitsGrouped(ds[1..]);
    assert [ds[0]] + ds[1..] == ds;
    if neg {
      assert t[1..] == ds;
    }
  }

  /** `int(str(n)) == n`: the text Python writes for an int reads back as that int. */
  lemma PyIntText(n: int)
    ensures PyInt(IntText(n)) == Some(n)
  {
    var m: nat := if n < 0 then -n else n;
    NatTextValue(m);
    ReadsDigits(IntText(n), NatText(m), n < 0);
  }

  /** What `int()` makes of some segments: surrounding whitespace, a sign, leading zeros and
      single underscores are accepted; letters, empty text and doubled underscores are not. */
  lemma PyIntSpacedNegative()
    ensures PyInt(" -7 ") == Some(-7)
  {
    assert StripLeft(" -7 ") == "-7 " by { assert " -7 "[1..] == "-7 "; }
    assert StripRight("-7 ") == "-7" by { assert "-7 "[..2] == "-7"; }
    assert "-7"[1..] == "7";
    assert Ungroup("7") == "7" by { assert "7"[1..] == []; }
  }

  lemma PyIntPlus()
    ensures PyInt("+3") == Some(3)
  {
    assert "+3"[1..] == "3";
    assert Ungroup("3") == "3" by { assert "3"[1..] == []; }
  }

  lemma PyIntLeadingZeros()
    ensures PyInt("007") == Some(7)
  {
    ReadsDigits("007", "007", false);
    assert DigitsValue("007") == 7 by { assert "007"[..2] == "00"; assert "00"[..1] == "0"; }
  }

  lemma PyIntUnderscore()
    ensures PyInt("1_000") == Some(1000)
  {
    assert "1_000"[1..] == "_000";
    UnderscoreThousands();
    GroupedReads("1_000");
    assert ['1'] + "000" == "1000";
    Thousand();
  }

  lemma Thousand()
    ensures DigitsValue("1000") == 1000
  {
    assert "1000"[..3] == "100";
    assert "100"[..2] == "10";
    assert "10"[..1] == "1";
  }

  /** An unsigned grouped numeral reads as its digits. */
  lemma GroupedReads(t: string)
    requires Grouped(t) && !IsSpace(t[|t| - 1])
    ensures GroupedTail(t[1..]) && AllDigits(Ungroup(t[1..]))
    ensures PyInt(t) == Some(DigitsValue([t[0]] + Ungroup(t[1..])) as int)
  {
    NoStrip(t);
    GroupedDigits(t[1..]);
  }

  lemma UnderscoreThousands()
    ensures GroupedTail("_000") && Ungroup("_000") == "000"
  {
    assert "_000"[2..] == "00";
    DigitsGrouped("00");
    assert "_000"[1..] == "000";
    DigitsGrouped("000");
  }

  /** A file separator (U+001C) is not stripped, so `int("\x1c7")` raises ValueError. */
  lemma PyIntSeparatorNotStripped()
    ensures PyInt([28 as char, '7']) == None
  {
    assert !IsSpace(28 as char);
    assert StripRight(StripLeft([28 as char, '7'])) == [28 as char, '7'];
  }

  lemma PyIntRejects()
    ensures PyInt("") == None
    ensures PyInt("x") == None
    ensures PyInt("1__0") == None
    ensures PyInt("_1") == None
  {
    assert "1__0"[1..] == "__0";
    assert !GroupedTail("__0") by { assert "__0"[1] == '_'; }
  }
}
