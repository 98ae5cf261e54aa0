/** The hover provider: over a data path in an EJS directive it shows the
    indexed value as a JSON code block and the file and line that define it. */
module EjsHover {
  import opened Wrappers
  import opened Text
  import opened Json
  import opened JsonIndexing
  import opened EjsParser
  import opened PathLookup

  /** The hover's markdown: a code block of `code` in `language`, then the
      plain text `footer`. */
  datatype Hover = Hover(code: string, language: string, footer: string)

  /** `formatValue`: a string in double quotes as it is, with no escaping; an
      array, an object or null as `JSON.stringify(value, null, 2)`; anything
      else as `String(value)`. */
  function FormatValue(v: Value): string {
    if v.Str? then "\"" + v.s + "\""
    else if TypeOf(v) == "object" then StringifyPretty(v)
    else ToJsString(v)
  }

  /** `fsPath.split('/').pop()`: the text after the last slash. */
  function FileName(fsPath: string): string {
    var parts := Split(fsPath, '/');
    parts[|parts| - 1]
  }

  /** The line under the code block, with the line counted from one. */
  function Footer(location: JsonLocation): string {
    "\n\nDefined in: " + FileName(location.uri) + ":" + NatToString(location.line + 1)
  }

  /** `provideHover` on the document `content`. */
  function HoverAt(indexer: JsonIndexer, content: string, pos: Position): Option<Hover>
    requires indexer.Valid() && pos.line < |Lines(content)|
    reads indexer
  {
    match PathAtPosition(content, pos)
    case None => None
    case Some(info) =>
      match Resolve(indexer, info.path, info.prefix)
      case None => None
      case Some(location) => Some(Hover(FormatValue(location.value), "json", Footer(location)))
  }

  /** The file name is the slash-free tail of the path that follows its last
      slash, or the whole path when it has none. */
  lemma FileNameSpec(fsPath: string)
    ensures var f := FileName(fsPath);
      '/' !in f && EndsWith(fsPath, f) && (|f| == |fsPath| || fsPath[|fsPath| - |f| - 1] == '/')
  {
    SplitLast(fsPath, '/');
  }

  /** A hover appears exactly when the cursor is on a directive whose path
      resolves in the index. */
  lemma HoverNone(indexer: JsonIndexer, content: string, pos: Position)
    requires indexer.Valid() && pos.line < |Lines(content)|
    ensures HoverAt(indexer, content, pos).None? <==>
      PathAtPosition(content, pos).None? ||
      Resolve(indexer, PathAtPosition(content, pos).value.path, PathAtPosition(content, pos).value.prefix).None?
  {
  }

  /** A hover shows the formatted value of the resolved entry as JSON and
      names the entry's file and one-based line. */
  lemma HoverFound(indexer: JsonIndexer, content: string, pos: Position)
    requires indexer.Valid() && pos.line < |Lines(content)| && HoverAt(indexer, content, pos).Some?
    ensures var info := PathAtPosition(content, pos).value;
      var location := Resolve(indexer, info.path, info.prefix).value;
      var h := HoverAt(indexer, content, pos).value;
      location in indexer.index.entries.Values &&
      h.code == FormatValue(location.value) && h.language == "json" &&
      StartsWith(h.footer, "\n\nDefined in: " + FileName(location.uri) + ":") &&
      EndsWith(h.footer, NatToString(location.line + 1))
  {
    var info := PathAtPosition(content, pos).value;
    ResolveSpec(indexer, info.path, info.prefix);
  }

  /** Everything but a string is shown as `JSON.stringify(value, null, 2)`
      shows it: `String` of a number, a boolean or null agrees with JSON. */
  lemma FormatNonString(v: Value)
    requires !v.Str?
    ensures FormatValue(v) == StringifyPretty(v)
  {
  }

  /** A string with no character JSON escapes is shown exactly as JSON. */
  lemma FormatPlainString(s: string)
    requires forall i :: 0 <= i < |s| ==> s[i] >= ' ' && s[i] != '"' && s[i] != '\\'
    ensures FormatValue(Str(s)) == StringifyPretty(Str(s))
  {
    EscapeAllPlain(s);
  }

  lemma {:induction false} EscapeAllPlain(s: string)
    requires forall i :: 0 <= i < |s| ==> s[i] >= ' ' && s[i] != '"' && s[i] != '\\'
    ensures EscapeAll(s) == s
    decreases |s|
  {
    if s != [] {
      EscapeAllPlain(s[..|s| - 1]);
      assert s == s[..|s| - 1] + [s[|s| - 1]];
    }
  }

  /** A string holding a double quote is shown without the escape JSON
      would write, so the code block is not valid JSON. */
  lemma FormatQuoteUnescaped()
    ensures FormatValue(Str("a\"b")) == "\"a\"b\""
    ensures StringifyPretty(Str("a\"b")) == "\"a\\\"b\""
  {
    assert "a\"b"[..2] == "a\"" && "a\""[..1] == "a" && "a"[..0] == [];
  }
}
