/**
  `json.loads` on integers-only JSON: the grammar Python's scanner accepts,
  with whitespace " \t\n\r" around tokens, duplicate keys resolved as
  `dict(pairs)` does (first position, last value), and strict strings (no raw
  control characters). Each parser takes the text still to be read and returns
  the value with the text after it.
 */
module JsonParse {
  import opened Wrappers
  import opened Values
  import opened Digits
  import opened JsonText

  predicate IsWs(c: char) { c == ' ' || c == '\t' || c == '\n' || c == '\r' }

  function SkipWs(s: string): (r: string)
    ensures |r| <= |s|
    ensures r == [] || !IsWs(r[0])
  {
    if s != [] && IsWs(s[0]) then SkipWs(s[1..]) else s
  }

  /** Four hex digits of a \u escape. */
  function ParseHex4(s: string): (r: Option<nat>)
    ensures r.Some? ==> |s| >= 4 && r.value < 0x1_0000
  {
    if |s| >= 4 && AllHex(s[..4]) then
      HexBound(s[..4]);
      Some(HexDigitsValue(s[..4]))
    else None
  }

  lemma {:induction false} HexBound(hs: string)
    requires AllHex(hs)
    ensures HexDigitsValue(hs) < Pow16(|hs|)
  {
    if hs != [] {
      HexBound(hs[..|hs| - 1]);
    }
  }

  /** The character after a backslash inside a string, and the text after the escape. */
  function ParseEscape(s: string): (r: Option<(char, string)>)
    ensures r.Some? ==> |r.value.1| < |s|
  {
    if s == [] then None
    else if s[0] == '"' then Some(('"', s[1..]))
    else if s[0] == '\\' then Some(('\\', s[1..]))
    else if s[0] == '/' then Some(('/', s[1..]))
    else if s[0] == 'b' then Some((Backspace, s[1..]))
    else if s[0] == 'f' then Some((FormFeed, s[1..]))
    else if s[0] == 'n' then Some(('\n', s[1..]))
    else if s[0] == 'r' then Some(('\r', s[1..]))
    else if s[0] == 't' then Some(('\t', s[1..]))
    else if s[0] == 'u' then
      match ParseHex4(s[1..])
      case None => None
      case Some(h) =>
        if 0xD800 <= h < 0xDC00 then
          if |s| >= 7 && s[5] == '\\' && s[6] == 'u' then
            match ParseHex4(s[7..])
            case Some(l) =>
              if 0xDC00 <= l < 0xE000
              then Some(((0x1_0000 + (h - 0xD800) * 0x400 + (l - 0xDC00)) as char, s[11..]))
              else None
            case None => None
          else None
        else if 0xDC00 <= h < 0xE000 then None
        else Some((h as char, s[5..]))
    else None
  }

  /** The contents of a string literal whose opening quote has been read. */
  function ParseString(s: string): (r: Option<(string, string)>)
    ensures r.Some? ==> |r.value.0| + |r.value.1| < |s|
  {
    if s == [] then None
    else if s[0] == '"' then Some(([], s[1..]))
    else if s[0] == '\\' then
      match ParseEscape(s[1..])
      case None => None
      case Some((c, rest)) =>
        match ParseString(rest)
        case None => None
        case Some((t, rest')) => Some(([c] + t, rest'))
    else if s[0] < ' ' then None
    else
      match ParseString(s[1..])
      case None => None
      case Some((t, rest)) => Some(([s[0]] + t, rest))
  }

  /** The maximal run of decimal digits at the start of `s`. */
  function DigitRun(s: string): (ds: string)
    ensures AllDigits(ds) && |ds| <= |s|
  {
    if s != [] && IsDigit(s[0]) then [s[0]] + DigitRun(s[1..]) else []
  }

  /** `-?(0|[1-9][0-9]*)`; a fraction or exponent after it is not accepted. */
  function ParseNumber(s: string): (r: Option<(Value, string)>)
    ensures r.Some? ==> |r.value.1| < |s| && r.value.0.Int?
  {
    var neg := s != [] && s[0] == '-';
    var t := if neg then s[1..] else s;
    if t == [] then None
    else if t[0] == '0' then Some((Int(0), t[1..]))
    else if '1' <= t[0] <= '9' then
      var ds := DigitRun(t);
      var n: int := DigitsValue(ds);
      Some((Int(if neg then -n else n), t[|ds|..]))
    else None
  }

  function ParseValue(s: string): (r: Option<(Value, string)>)
    ensures r.Some? ==> |r.value.1| < |s|
    ensures r.Some? && r.value.0.Str? ==> |r.value.0.s| < |s|
    decreases |s|, 1
  {
    if s == [] then None
    else if s[0] == '"' then
      match ParseString(s[1..])
      case None => None
      case Some((t, rest)) => Some((Str(t), rest))
    else if s[0] == '[' then
      var t := SkipWs(s[1..]);
      if t != [] && t[0] == ']' then Some((Arr([]), t[1..])) else ParseItems(t, [])
    else if s[0] == '{' then
      var t := SkipWs(s[1..]);
      if t != [] && t[0] == '}' then Some((Obj([]), t[1..])) else ParseMembers(t, [])
    else if s[0] == 'n' then if "null" <= s then Some((Null, s[4..])) else None
    else if s[0] == 't' then if "true" <= s then Some((Bool(true), s[4..])) else None
    else if s[0] == 'f' then if "false" <= s then Some((Bool(false), s[5..])) else None
    else ParseNumber(s)
  }

  /** Array elements after `acc`, up to and including the closing bracket. */
  function ParseItems(s: string, acc: seq<Value>): (r: Option<(Value, string)>)
    ensures r.Some? ==> |r.value.1| < |s| && r.value.0.Arr?
    decreases |s|, 2
  {
    match ParseValue(s)
    case None => None
    case Some((v, rest)) =>
      var t := SkipWs(rest);
      if t != [] && t[0] == ']' then Some((Arr(acc + [v]), t[1..]))
      else if t != [] && t[0] == ',' then ParseItems(SkipWs(t[1..]), acc + [v])
      else None
  }

  /** Object members after `acc`, up to and including the closing brace. */
  function ParseMembers(s: string, acc: seq<Field>): (r: Option<(Value, string)>)
    ensures r.Some? ==> |r.value.1| < |s| && r.value.0.Obj?
    decreases |s|, 2
  {
    if s == [] || s[0] != '"' then None
    else
      match ParseString(s[1..])
      case None => None
      case Some((k, rest)) =>
        var t := SkipWs(rest);
        if t == [] || t[0] != ':' then None
        else
          match ParseValue(SkipWs(t[1..]))
          case None => None
          case Some((v, rest')) =>
            var u := SkipWs(rest');
            if u != [] && u[0] == '}' then Some((Obj(Put(acc, k, v)), u[1..]))
            else if u != [] && u[0] == ',' then ParseMembers(SkipWs(u[1..]), Put(acc, k, v))
            else None
  }

  /** `json.loads(s)`: None where Python raises JSONDecodeError. */
  function Parse(s: string): Option<Value>
  {
    match ParseValue(SkipWs(s))
    case None => None
    case Some((v, rest)) => if SkipWs(rest) == [] then Some(v) else None
  }
}
