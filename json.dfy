/** Parsed JSON data as JavaScript sees it after `JSON.parse`, with the parts
    of `typeof`, `String(...)` and `JSON.stringify` the extension uses. */
module Json {
  import opened Text

  /** A parsed JSON value. An object keeps its keys in enumeration order; a
      number carries the text JavaScript renders it as (floating point is not
      modelled). */
  datatype Value =
    | Null
    | Bool(b: bool)
    | Num(lexeme: string)
    | Str(s: string)
    | Arr(items: seq<Value>)
    | Obj(members: seq<Member>)

  datatype Member = Member(key: string, value: Value)

  /** `typeof v === 'object' && v !== null`: an array or an object. */
  predicate IsContainer(v: Value) {
    v.Arr? || v.Obj?
  }

  /** `typeof v`. */
  function TypeOf(v: Value): string {
    match v
    case Null => "object"
    case Bool(_) => "boolean"
    case Num(_) => "number"
    case Str(_) => "string"
    case Arr(_) => "object"
    case Obj(_) => "object"
  }

  /** `String(v)` for a value that is not an array or an object. */
  function ToJsString(v: Value): string
    requires !IsContainer(v)
  {
    match v
    case Null => "null"
    case Bool(b) => if b then "true" else "false"
    case Num(lexeme) => lexeme
    case Str(s) => s
  }

  const HexDigits := "0123456789abcdef"

  /** One character of a string as JSON.stringify writes it. */
  function EscapeChar(c: char): string {
    if c == '"' then "\\\""
    else if c == '\\' then "\\\\"
    else if c == '\U{8}' then "\\b"
    else if c == '\U{C}' then "\\f"
    else if c == '\n' then "\\n"
    else if c == '\r' then "\\r"
    else if c == '\t' then "\\t"
    else if c < ' ' then "\\u00" + [HexDigits[c as int / 16], HexDigits[c as int % 16]]
    else [c]
  }

  function EscapeAll(s: string): string {
    if s == [] then [] else EscapeAll(s[..|s| - 1]) + EscapeChar(s[|s| - 1])
  }

  /** A string as a JSON string literal. */
  function Quote(s: string): (r: string)
    ensures |r| >= 2 && r[0] == '"' && r[|r| - 1] == '"'
  {
    "\"" + EscapeAll(s) + "\""
  }

  /** `parts.join(sep)`, for any number of parts. */
  function JoinWith(parts: seq<string>, sep: string): string {
    if parts == [] then ""
    else if |parts| == 1 then parts[0]
    else parts[0] + sep + JoinWith(parts[1..], sep)
  }

  /** The serialisation of `JSON.stringify(v, null, gap)` at nesting `indent`. */
  function Serialize(v: Value, gap: string, indent: string): string
    decreases v
  {
    match v
    case Null => "null"
    case Bool(b) => if b then "true" else "false"
    case Num(lexeme) => lexeme
    case Str(s) => Quote(s)
    case Arr(items) =>
      if items == [] then "[]"
      else
        var inner := indent + gap;
        var parts := seq(|items|, i requires 0 <= i < |items| => Serialize(items[i], gap, inner));
        if gap == "" then "[" + JoinWith(parts, ",") + "]"
        else "[\n" + inner + JoinWith(parts, ",\n" + inner) + "\n" + indent + "]"
    case Obj(members) =>
      if members == [] then "{}"
      else
        var inner := indent + gap;
        var colon := if gap == "" then ":" else ": ";
        var parts := seq(|members|, i requires 0 <= i < |members| =>
          Quote(members[i].key) + colon + Serialize(members[i].value, gap, inner));
        if gap == "" then "{" + JoinWith(parts, ",") + "}"
        else "{\n" + inner + JoinWith(parts, ",\n" + inner) + "\n" + indent + "}"
  }

  /** `JSON.stringify(v)`. */
  function Stringify(v: Value): string {
    Serialize(v, "", "")
  }

  /** `JSON.stringify(v, null, 2)`. */
  function StringifyPretty(v: Value): string {
    Serialize(v, "  ", "")
  }
}
