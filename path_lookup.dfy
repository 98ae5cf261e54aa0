/** The index lookup shared by the hover and the go-to-definition providers:
    a directive's path is looked up as written and, when that misses and the
    directive names a namespace prefix, once more with `prefix.` taken out. */
module PathLookup {
  import opened Wrappers
  import opened Text
  import opened JsonIndexing
  import opened EjsParser

  /** The truthiness test `prefix` applies to an optional string. */
  predicate HasPrefix(prefix: Option<string>) {
    prefix.Some? && prefix.value != ""
  }

  /** `getLocation(path)`, then `getLocation(path.replace(prefix + '.', ''))`
      when the first lookup misses and there is a prefix. */
  function Resolve(indexer: JsonIndexer, path: string, prefix: Option<string>): Option<JsonLocation>
    requires indexer.Valid()
    reads indexer
  {
    var location := indexer.GetLocation(path);
    if location.None? && HasPrefix(prefix) then indexer.GetLocation(ReplaceFirst(path, prefix.value + ".", ""))
    else location
  }

  /** `replace` with a string pattern that the text starts with removes that
      leading occurrence. */
  lemma ReplaceLeading(s: string, p: string)
    requires StartsWith(s, p)
    ensures ReplaceFirst(s, p, "") == s[|p|..]
  {
    IndexOfSpec(s, p, 0);
    assert OccursAt(s, p, 0);
  }

  /** An entry is found exactly when the path, or with a prefix the path
      without its first `prefix.`, is indexed; the path as written wins. */
  lemma ResolveSpec(indexer: JsonIndexer, path: string, prefix: Option<string>)
    requires indexer.Valid()
    ensures var r := Resolve(indexer, path, prefix);
      var stripped := if HasPrefix(prefix) then ReplaceFirst(path, prefix.value + ".", "") else path;
      (r.Some? <==> path in indexer.GetAllPaths() || (HasPrefix(prefix) && stripped in indexer.GetAllPaths())) &&
      (path in indexer.GetAllPaths() ==> r == Some(indexer.index.entries[path])) &&
      (path !in indexer.GetAllPaths() && r.Some? ==> r == Some(indexer.index.entries[stripped]))
  {
  }

  /** For a captured directive path: when it is not indexed as written and it
      starts with one of the known namespaces, the lookup falls back to the
      rest of the path after that namespace and its dot. */
  lemma ResolveParsed(indexer: JsonIndexer, captured: string)
    requires indexer.Valid()
    ensures var info := ParsePath(captured);
      Resolve(indexer, info.path, info.prefix) ==
        if captured in indexer.GetAllPaths() then indexer.GetLocation(captured)
        else if info.prefix.Some? then indexer.GetLocation(captured[|info.prefix.value| + 1..])
        else None
  {
    ParsePathSpec(captured);
    var info := ParsePath(captured);
    if info.prefix.Some? {
      var p := info.prefix.value;
      var i :| 0 <= i < |KnownPrefixes| && p == KnownPrefixes[i] && StartsWith(captured, p + ".");
      assert p != "";
      ReplaceLeading(captured, p + ".");
    }
  }

  /** The directive under the cursor carries the path it captured and the
      prefix that path was parsed with. */
  lemma InfoParsed(content: string, pos: Position)
    requires pos.line < |Lines(content)| && PathAtPosition(content, pos).Some?
    ensures var info := PathAtPosition(content, pos).value;
      info.prefix == ParsePath(info.path).prefix
  {
  }
}
