/** Decimal and hexadecimal digit strings, shared by the JSON text format and Python's int(). */
module Digits {

  predicate IsDigit(c: char) { '0' <= c <= '9' }

  predicate AllDigits(s: string) { forall i :: 0 <= i < |s| ==> IsDigit(s[i]) }

  function DigitChar(d: nat): (c: char)
    requires d < 10
    ensures IsDigit(c) && DigitValue(c) == d
  {
    ('0' as int + d) as char
  }

  function DigitValue(c: char): nat
    requires IsDigit(c)
  {
    c as int - '0' as int
  }

  /** The number a string of decimal digits denotes (most significant first). */
  function DigitsValue(ds: string): nat
    requires AllDigits(ds)
  {
    if ds == [] then 0 else DigitsValue(ds[..|ds| - 1]) * 10 + DigitValue(ds[|ds| - 1])
  }

  /** Python's str() of a non-negative int: no leading zeros. */
  function NatText(n: nat): (s: string)
    ensures s != [] && AllDigits(s)
  {
    if n < 10 then [DigitChar(n)] else NatText(n / 10) + [DigitChar(n % 10)]
  }

  /** Python's str() of an int. */
  function IntText(n: int): string
  {
    if n < 0 then "-" + NatText(-n) else NatText(n)
  }

  lemma {:induction false} NatTextValue(n: nat)
    ensures DigitsValue(NatText(n)) == n
  {
    if n >= 10 {
      NatTextValue(n / 10);
      var s := NatText(n);
      assert s[..|s| - 1] == NatText(n / 10);
    }
  }

  /** Only zero is written with a leading zero. */
  lemma {:induction false} NatTextLeading(n: nat)
    ensures n == 0 ==> NatText(n) == "0"
    ensures n > 0 ==> '1' <= NatText(n)[0] <= '9'
  {
    if n >= 10 {
      NatTextLeading(n / 10);
    }
  }

  predicate IsHex(c: char) { '0' <= c <= '9' || 'a' <= c <= 'f' || 'A' <= c <= 'F' }

  predicate AllHex(s: string) { forall i :: 0 <= i < |s| ==> IsHex(s[i]) }

  function HexValue(c: char): nat
    requires IsHex(c)
  {
    if '0' <= c <= '9' then c as int - '0' as int
    else if 'a' <= c <= 'f' then c as int - 'a' as int + 10
    else c as int - 'A' as int + 10
  }

  /** Lower-case hex digit, as Python's format '{0:04x}' writes it. */
  function HexChar(d: nat): (c: char)
    requires d < 16
    ensures IsHex(c) && HexValue(c) == d
  {
    if d < 10 then ('0' as int + d) as char else ('a' as int + d - 10) as char
  }

  function HexDigitsValue(hs: string): nat
    requires AllHex(hs)
  {
    if hs == [] then 0 else HexDigitsValue(hs[..|hs| - 1]) * 16 + HexValue(hs[|hs| - 1])
  }

  function Pow16(w: nat): nat
  {
    if w == 0 then 1 else 16 * Pow16(w - 1)
  }

  /** `n` in exactly `w` lower-case hex digits, zero-padded. */
  function HexText(n: nat, w: nat): (s: string)
    requires n < Pow16(w)
    ensures |s| == w && AllHex(s)
  {
    if w == 0 then [] else HexText(n / 16, w - 1) + [HexChar(n % 16)]
  }

  lemma {:induction false} HexTextValue(n: nat, w: nat)
    requires n < Pow16(w)
    ensures HexDigitsValue(HexText(n, w)) == n
  {
    if w > 0 {
      HexTextValue(n / 16, w - 1);
      var s := HexText(n, w);
      assert s[..|s| - 1] == HexText(n / 16, w - 1);
    }
  }
}

/**
  The text `json.dumps` writes with its default settings: separators ", " and
  ": ", and `ensure_ascii`, so that every character outside ' '..'~' is
  written as a \u escape (a surrogate pair above U+FFFF).
 */
module JsonText {
  import opened Values
  import opened Digits

  const Backspace: char := 8 as char
  const FormFeed: char := 12 as char

  /** A character as it appears inside a JSON string literal. */
  function EscapeChar(c: char): string
  {
    if c == '"' then "\\\""
    else if c == '\\' then "\\\\"
    else if c == '\n' then "\\n"
    else if c == '\r' then "\\r"
    else if c == '\t' then "\\t"
    else if c == Backspace then "\\b"
    else if c == FormFeed then "\\f"
    else if ' ' <= c <= '~' then [c]
    else if c as int < 0x1_0000 then "\\u" + HexText(c as int, 4)
    else
      var n := c as int - 0x1_0000;
      "\\u" + HexText(0xD800 + n / 0x400, 4) + "\\u" + HexText(0xDC00 + n % 0x400, 4)
  }

  function Escape(s: string): string
  {
    if s == [] then [] else EscapeChar(s[0]) + Escape(s[1..])
  }

  function Quote(s: string): string
  {
    "\"" + Escape(s) + "\""
  }

  /** `json.dumps(v)`. */
  function Dumps(v: Value): string
  {
    match v
    case Null => "null"
    case Bool(b) => if b then "true" else "false"
    case Int(i) => IntText(i)
    case Str(s) => Quote(s)
    case Arr(items) => "[" + DumpItems(items) + "]"
    case Obj(fs) => "{" + DumpFields(fs) + "}"
  }

  function DumpItems(items: seq<Value>): string
  {
    if items == [] then ""
    else if |items| == 1 then Dumps(items[0])
    else Dumps(items[0]) + ", " + DumpItems(items[1..])
  }

  function DumpFields(fs: seq<Field>): string
  {
    if fs == [] then ""
    else if |fs| == 1 then Quote(fs[0].key) + ": " + Dumps(fs[0].val)
    else Quote(fs[0].key) + ": " + Dumps(fs[0].val) + ", " + DumpFields(fs[1..])
  }
}
