/** The go-to-definition provider: from a data path in an EJS directive to the
    place in a JSON file where its key is declared. */
module EjsDefinition {
  import opened Wrappers
  import opened Text
  import opened JsonIndexing
  import opened EjsParser
  import opened PathLookup
  import EjsHover

  /** `new vscode.Location(uri, new vscode.Position(line, column))`. */
  datatype Location = Location(uri: string, position: Position)

  /** `provideDefinition` on the document `content`. */
  function DefinitionAt(indexer: JsonIndexer, content: string, pos: Position): Option<Location>
    requires indexer.Valid() && pos.line < |Lines(content)|
    reads indexer
  {
    match PathAtPosition(content, pos)
    case None => None
    case Some(info) =>
      match Resolve(indexer, info.path, info.prefix)
      case None => None
      case Some(location) => Some(Location(location.uri, Position(location.line, location.column)))
  }

  /** A definition is found exactly when the cursor is on a directive whose
      path resolves in the index, and it is the file, line and column the
      index recorded for that entry. */
  lemma DefinitionSpec(indexer: JsonIndexer, content: string, pos: Position)
    requires indexer.Valid() && pos.line < |Lines(content)|
    ensures var r := DefinitionAt(indexer, content, pos);
      var info := PathAtPosition(content, pos);
      (r.None? <==> info.None? || Resolve(indexer, info.value.path, info.value.prefix).None?) &&
      (r.Some? ==>
        exists location :: location in indexer.index.entries.Values &&
          Resolve(indexer, info.value.path, info.value.prefix) == Some(location) &&
          r.value.uri == location.uri && r.value.position.line == location.line &&
          r.value.position.character == location.column)
  {
    var info := PathAtPosition(content, pos);
    if info.Some? {
      ResolveSpec(indexer, info.value.path, info.value.prefix);
    }
  }

  /** Hover and go-to-definition answer for the same positions, and both
      point at the same entry's file and line. */
  lemma DefinitionMatchesHover(indexer: JsonIndexer, content: string, pos: Position)
    requires indexer.Valid() && pos.line < |Lines(content)|
    ensures DefinitionAt(indexer, content, pos).Some? <==> EjsHover.HoverAt(indexer, content, pos).Some?
    ensures DefinitionAt(indexer, content, pos).Some? ==>
      var d := DefinitionAt(indexer, content, pos).value;
      EjsHover.HoverAt(indexer, content, pos).value.footer ==
        "\n\nDefined in: " + EjsHover.FileName(d.uri) + ":" + NatToString(d.position.line + 1)
  {
  }
}
