/**
 The structured value a record carries once its line parsed as JSON (serde_json's
 `Value`), its compact text form (`Value::to_string`) and the length Rust's
 `str::len` gives to a string: the number of bytes of its UTF-8 encoding.
 */
module Json {

  /** A JSON value (serde_json's `Value`). An object keeps its members in the object's own order. */
  datatype Value =
    | Null
    | Bool(b: bool)
    | Number(n: int)
    | String(s: string)
    | Array(items: seq<Value>)
    | Object(members: seq<Member>)

  /** One top-level member of an object: its key and its value. */
  datatype Member = Member(key: string, value: Value)

  /** The compact rendering serde_json produces: no spaces, members as `"key":value`. */
  function Render(v: Value): (r: string)
    ensures |r| > 0
  {
    match v
    case Null => "null"
    case Bool(b) => if b then "true" else "false"
    case Number(n) => Decimal(n)
    case String(s) => Quote(s)
    case Array(items) =>
      "[" + Join(seq(|items|, i requires 0 <= i < |items| => Render(items[i]))) + "]"
    case Object(members) =>
      "{" + Join(seq(|members|, i requires 0 <= i < |members| =>
                       Quote(members[i].key) + ":" + Render(members[i].value))) + "}"
  }

  /** The parts separated by commas. */
  function Join(parts: seq<string>): string {
    if parts == [] then ""
    else if |parts| == 1 then parts[0]
    else parts[0] + "," + Join(parts[1..])
  }

  /** A string literal: the text between double quotes, escaped. */
  function Quote(s: string): (r: string)
    ensures |r| >= 2
  {
    "\"" + Escape(s) + "\""
  }

  function Escape(s: string): string {
    if s == [] then "" else EscapeChar(s[0]) + Escape(s[1..])
  }

  /** serde_json escapes the quote, the backslash and the control characters below U+0020. */
  function EscapeChar(c: char): string {
    var code := c as int;
    if c == '"' then "\\\""
    else if c == '\\' then "\\\\"
    else if code == 0x08 then "\\b"
    else if code == 0x0C then "\\f"
    else if c == '\n' then "\\n"
    else if c == '\r' then "\\r"
    else if c == '\t' then "\\t"
    else if code < 0x20 then "\\u00" + [HexDigit(code / 16), HexDigit(code % 16)]
    else [c]
  }

  function HexDigit(d: nat): char
    requires d < 16
  {
    "0123456789abcdef"[d]
  }

  /** An integer in decimal, with a leading minus sign when negative. */
  function Decimal(n: int): (r: string)
    ensures |r| > 0
  {
    if n < 0 then "-" + Digits(-n) else Digits(n)
  }

  function Digits(n: nat): (r: string)
    ensures |r| > 0
  {
    if n < 10 then ["0123456789"[n]] else Digits(n / 10) + ["0123456789"[n % 10]]
  }

  /** The length of the UTF-8 encoding of `s`, which is what `str::len` returns. */
  function ByteLen(s: string): (r: nat)
    ensures |s| <= r <= 4 * |s|
  {
    if s == [] then 0 else Utf8Width(s[0]) + ByteLen(s[1..])
  }

  /** The number of bytes UTF-8 uses for one scalar value. */
  function Utf8Width(c: char): (r: nat)
    ensures 1 <= r <= 4
  {
    var code := c as int;
    if code < 0x80 then 1
    else if code < 0x800 then 2
    else if code < 0x1_0000 then 3
    else 4
  }
}
