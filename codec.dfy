/**
  How the handlers turn stored text into a document and back. Reading is
  `json.loads` with a fallback: text that is not JSON stays the raw string.
  Writing stores a dict or a list as its JSON text and a str as it is.
 */
module Codec {
  import opened Wrappers
  import opened Values
  import opened Digits
  import opened JsonText
  import opened JsonParse
  import opened JsonLaws

  /** `try: value = json.loads(raw) except JSONDecodeError: value = raw`, on the text that
      `Parse` covers. Every dict it produces has distinct keys. */
  function Decode(raw: string): (v: Value)
    ensures WF(v)
    ensures v.Str? && v.s != raw ==> Parse(raw) == Some(v)
  {
    ParseWF(raw);
    match Parse(raw)
    case Some(w) => w
    case None => Str(raw)
  }

  /** The text the handlers store for a value: `json.dumps` for a dict or list, the str
      itself for a str; an int, bool or None is stored as the JSON text of it. */
  function Encode(v: Value): string
  {
    match v
    case Str(s) => s
    case _ => Dumps(v)
  }

  /** A dict, list, int, bool or None written by the handlers reads back as itself. */
  lemma DecodeEncode(v: Value)
    requires WF(v) && !v.Str?
    ensures Decode(Encode(v)) == v
  {
    ParseDumps(v);
  }

  /** A parsed str is always shorter than the text it came from. */
  lemma ParseStrShorter(raw: string)
    requires Parse(raw).Some? && Parse(raw).value.Str?
    ensures |Parse(raw).value.s| < |raw|
  {
  }

  /** A str written as it is reads back as itself exactly when it is not JSON text. */
  lemma DecodeEncodeStr(s: string)
    ensures Decode(Encode(Str(s))) == Str(s) <==> Parse(s) == None
  {
    if Parse(s).Some? && Parse(s).value.Str? {
      ParseStrShorter(s);
    }
  }

  /** The JSON text of a str, unlike the str itself, always reads back as that str. */
  lemma DecodeDumpsStr(s: string)
    ensures Decode(Dumps(Str(s))) == Str(s)
  {
    ParseDumps(Str(s));
  }

  /** A str that looks like a number is stored as it is and comes back as a number. */
  lemma StrLooksLikeInt()
    ensures Decode(Encode(Str("123"))) == Int(123)
  {
    assert NatText(123) == "123" by {
      assert NatText(12) == "12" by { assert NatText(1) == "1"; }
    }
    ParseDumps(Int(123));
  }
}
