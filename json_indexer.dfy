/** The JSON indexer: it walks a parsed locale file, finds where each key is
    declared in the file's text, and records every dotted path with its
    position in a path table. */
module JsonIndexing {
  import opened Wrappers
  import opened Text
  import opened Json
  import opened Regexes
  import opened PathTable

  /** What the key search reports: the position of the declaration and the
      line on which the declared value ends. */
  datatype KeyLocation = KeyLocation(line: nat, column: nat, endLine: nat)

  /** A stored entry. The string `uri` stands both for the document's URI,
      which go-to-definition returns, and for its file-system path, which
      the hover splits at `/`. */
  datatype JsonLocation = JsonLocation(uri: string, line: nat, column: nat, value: Value, endLine: nat)

  /** One write to the path table, with the key whose declaration located it. */
  datatype Write = Write(path: string, key: string, loc: JsonLocation)

  /** A recorded key declaration: its offset and `positionAt` of it. */
  datatype Found = Found(index: nat, line: nat, column: nat)

  function FoundAt(s: string, k: nat): Found
    requires k <= |s|
  {
    Found(k, LineOf(s, k), ColumnOf(s, k))
  }

  /** The path of `key` under `prefix`: the empty prefix is falsy in JavaScript. */
  function ChildPath(prefix: string, key: string): string {
    if prefix == [] then key else prefix + "." + key
  }

  /** `path` lies under `prefix`: at the top level every path does. */
  predicate Under(prefix: string, path: string) {
    prefix == [] || (|prefix| < |path| && path[..|prefix| + 1] == prefix + ".")
  }

  // The bracket scan after a container-valued key.

  predicate IsOpener(c: char) { c == '{' || c == '[' }
  predicate IsCloser(c: char) { c == '}' || c == ']' }

  /** The scan from offset `i` with `count` brackets open and `open` telling
      whether an opening bracket has been seen: the offset of the first
      closing bracket that brings the count back to zero after an opening
      bracket, if there is one. */
  function BracketClose(s: string, i: nat, count: int, open: bool): (r: Option<nat>)
    requires i <= |s|
    ensures r.Some? ==> i <= r.value < |s|
    decreases |s| - i
  {
    if i == |s| then None
    else if IsOpener(s[i]) then BracketClose(s, i + 1, count + 1, true)
    else if IsCloser(s[i]) then
      if open && count - 1 == 0 then Some(i) else BracketClose(s, i + 1, count - 1, open)
    else BracketClose(s, i + 1, count, open)
  }

  /** Opening brackets minus closing brackets in `s[i..j]`. */
  function Depth(s: string, i: nat, j: nat): int
    requires i <= j <= |s|
    decreases j - i
  {
    if i == j then 0
    else (if IsOpener(s[i]) then 1 else if IsCloser(s[i]) then -1 else 0) + Depth(s, i + 1, j)
  }

  /** `s[i..j]` holds an opening bracket. */
  predicate OpenerIn(s: string, i: nat, j: nat)
    requires i <= j <= |s|
    decreases j - i
  {
    i < j && (IsOpener(s[i]) || OpenerIn(s, i + 1, j))
  }

  /** The closing bracket at `j` ends the value scanned from `i`: an opening
      bracket came first and the count is back at zero. */
  predicate ClosesValue(s: string, i: nat, count: int, open: bool, j: nat) {
    i <= j < |s| && IsCloser(s[j]) && (open || OpenerIn(s, i, j)) && count + Depth(s, i, j + 1) == 0
  }

  /** The scan finds exactly the first offset at which the value closes. */
  lemma {:induction false} BracketCloseSpec(s: string, i: nat, count: int, open: bool)
    requires i <= |s|
    ensures match BracketClose(s, i, count, open)
      case Some(j) => ClosesValue(s, i, count, open, j) &&
        forall k :: i <= k < j ==> !ClosesValue(s, i, count, open, k)
      case None => forall k :: i <= k < |s| ==> !ClosesValue(s, i, count, open, k)
    decreases |s| - i
  {
    if i < |s| {
      var count' := if IsOpener(s[i]) then count + 1 else if IsCloser(s[i]) then count - 1 else count;
      var open' := open || IsOpener(s[i]);
      forall k | i < k < |s|
        ensures ClosesValue(s, i, count, open, k) <==> ClosesValue(s, i + 1, count', open', k)
      {
        assert Depth(s, i, k + 1) == count' - count + Depth(s, i + 1, k + 1);
        assert OpenerIn(s, i, k) <==> IsOpener(s[i]) || OpenerIn(s, i + 1, k);
      }
      assert Depth(s, i, i + 1) == count' - count by {
        assert Depth(s, i + 1, i + 1) == 0;
      }
      assert !OpenerIn(s, i, i) && !OpenerIn(s, i + 1, i + 1);
      if !(IsCloser(s[i]) && open && count - 1 == 0) {
        BracketCloseSpec(s, i + 1, count', open');
      }
    }
  }

  /** The line on which the value of a container-valued key ends, scanning
      from the key's offset `from`; the key's own line when no bracket closes it. */
  function ScanEndLine(s: string, from: nat, line: nat): nat
    requires from <= |s|
  {
    match BracketClose(s, from, 0, false)
    case None => line
    case Some(j) => LineOf(s, j)
  }

  /** The declarations of `key` the `exec` loop collects from offset `from` on. */
  function Declarations(key: string, s: string, from: nat): seq<Found>
    requires from <= |s|
    decreases |s| - from
  {
    match Exec(KeyDecl(key), s, from)
    case None => []
    case Some(m) => [FoundAt(s, m.index)] + Declarations(key, s, m.end)
  }

  lemma DeclarationsStep(key: string, s: string, from: nat)
    requires from <= |s| && Exec(KeyDecl(key), s, from).Some?
    ensures var m := Exec(KeyDecl(key), s, from).value;
      Declarations(key, s, from) == [FoundAt(s, m.index)] + Declarations(key, s, m.end)
  {
  }

  /** The first declaration collected is the leftmost match in the text. */
  lemma DeclarationsFirst(key: string, s: string)
    ensures Declarations(key, s, 0) == [] <==> Exec(KeyDecl(key), s, 0).None?
    ensures Declarations(key, s, 0) != [] ==>
      Declarations(key, s, 0)[0] == FoundAt(s, Exec(KeyDecl(key), s, 0).value.index)
  {
  }

  /** The location the key search reports for `key` holding `value`: the
      first declaration of the key anywhere in the text, whatever its path. */
  function KeyLocationOf(key: string, value: Value, content: string): Option<KeyLocation> {
    match Exec(KeyDecl(key), content, 0)
    case None => None
    case Some(m) =>
      var line := LineOf(content, m.index);
      var endLine := if IsContainer(value) then ScanEndLine(content, m.index, line) else line;
      Some(KeyLocation(line, ColumnOf(content, m.index), endLine))
  }

  /** A key is located exactly when its declaration occurs in the text; the
      position is that of its first declaration, and the value ends on or
      after the line it starts on (on it, for a value that is not a container). */
  lemma KeyLocationSpec(key: string, value: Value, content: string)
    ensures KeyLocationOf(key, value, content).Some? <==> exists p :: 0 <= p <= |content| && MatchAt(KeyDecl(key), content, p).Some?
    ensures match KeyLocationOf(key, value, content)
      case None => true
      case Some(l) =>
        var m := Exec(KeyDecl(key), content, 0).value;
        (forall q :: 0 <= q < m.index ==> MatchAt(KeyDecl(key), content, q).None?) &&
        l.line == LineOf(content, m.index) && l.column == ColumnOf(content, m.index) &&
        l.line <= l.endLine && (!IsContainer(value) ==> l.endLine == l.line)
  {
    ExecSpec(KeyDecl(key), content, 0);
    match Exec(KeyDecl(key), content, 0)
    case None =>
    case Some(m) =>
      if IsContainer(value) {
        match BracketClose(content, m.index, 0, false)
        case None =>
        case Some(j) => LineOfMonotone(content, m.index, j);
      }
  }

  /** The number of keys `for (const key in obj)` enumerates. */
  function Count(obj: Value): nat
    requires IsContainer(obj)
  {
    if obj.Obj? then |obj.members| else |obj.items|
  }

  /** The entry of `key` at `path`: none when its declaration is not found. */
  function Entry(uri: string, content: string, path: string, key: string, value: Value): seq<Write> {
    match KeyLocationOf(key, value, content)
    case None => []
    case Some(l) => [Write(path, key, JsonLocation(uri, l.line, l.column, value, l.endLine))]
  }

  /** The writes the walk over `obj` under `prefix` performs, in order: for
      each key, its own entry when its declaration is found, then the walk
      over its value when that is an object (not an array). An array's keys
      are its indices in decimal. */
  function IndexOps(uri: string, content: string, obj: Value, prefix: string): seq<Write>
    decreases obj, 2
  {
    if IsContainer(obj) then MemberOps(uri, content, obj, prefix, 0) else []
  }

  function MemberOps(uri: string, content: string, obj: Value, prefix: string, i: nat): seq<Write>
    requires IsContainer(obj) && i <= Count(obj)
    decreases obj, 1, Count(obj) - i
  {
    if i == Count(obj) then []
    else MemberWrites(uri, content, obj, prefix, i) + MemberOps(uri, content, obj, prefix, i + 1)
  }

  /** The writes for the `i`th key of `obj`: its own entry, then the walk
      over its value when that is an object (not an array). */
  function MemberWrites(uri: string, content: string, obj: Value, prefix: string, i: nat): seq<Write>
    requires IsContainer(obj) && i < Count(obj)
    decreases obj, 0
  {
    var key := if obj.Obj? then obj.members[i].key else NatToString(i);
    var value := if obj.Obj? then obj.members[i].value else obj.items[i];
    var path := ChildPath(prefix, key);
    var nested := if value.Obj? then IndexOps(uri, content, value, path) else [];
    Entry(uri, content, path, key, value) + nested
  }

  /** The walk descends only into values that are objects (not arrays, not
      null), and it does so whether or not the key's own declaration was
      found; a key whose declaration is missing gets no entry of its own. */
  lemma WalkScope(uri: string, content: string, obj: Value, prefix: string, i: nat)
    requires IsContainer(obj) && i < Count(obj)
    ensures var key := if obj.Obj? then obj.members[i].key else NatToString(i);
      var value := if obj.Obj? then obj.members[i].value else obj.items[i];
      var ws := MemberWrites(uri, content, obj, prefix, i);
      var nested := IndexOps(uri, content, value, ChildPath(prefix, key));
      (!value.Obj? ==> |ws| <= 1) &&
      (value.Obj? ==> |nested| <= |ws| && ws[|ws| - |nested|..] == nested) &&
      (KeyLocationOf(key, value, content).None? ==> ws == if value.Obj? then nested else [])
  {
  }

  /** The (path, entry) pairs of a series of writes. */
  function Pairs(ws: seq<Write>): (ps: seq<(string, JsonLocation)>)
    ensures |ps| == |ws|
    ensures forall i :: 0 <= i < |ws| ==> ps[i] == (ws[i].path, ws[i].loc)
  {
    seq(|ws|, i requires 0 <= i < |ws| => (ws[i].path, ws[i].loc))
  }

  lemma PairsAppend(a: seq<Write>, b: seq<Write>)
    ensures Pairs(a + b) == Pairs(a) + Pairs(b)
  {
  }

  /** A key's own entry is one write when its declaration is found, none otherwise. */
  lemma EntryWrite(t: Table<JsonLocation>, uri: string, content: string, path: string, key: string, value: Value)
    ensures PutAll(t, Pairs(Entry(uri, content, path, key, value))) == match KeyLocationOf(key, value, content)
      case None => t
      case Some(l) => Put(t, path, JsonLocation(uri, l.line, l.column, value, l.endLine))
  {
    var ws := Pairs(Entry(uri, content, path, key, value));
    if ws != [] {
      assert ws[1..] == [];
    }
  }

  /** Performing one key's writes and then the rest is performing them all. */
  lemma WalkStep(t: Table<JsonLocation>, mine: seq<Write>, rest: seq<Write>)
    ensures PutAll(t, Pairs(mine + rest)) == PutAll(PutAll(t, Pairs(mine)), Pairs(rest))
  {
    PairsAppend(mine, rest);
    PutAllAppend(t, Pairs(mine), Pairs(rest));
  }

  // What every write of the walk records.

  /** `w` was located by the first declaration of its own key, which is the
      last segment of its path, and its path lies under `prefix`. */
  predicate Located(uri: string, content: string, prefix: string, w: Write) {
    w.loc.uri == uri && Under(prefix, w.path) && EndsWith(w.path, w.key) &&
    KeyLocationOf(w.key, w.loc.value, content) == Some(KeyLocation(w.loc.line, w.loc.column, w.loc.endLine))
  }

  lemma ChildPathSpec(prefix: string, key: string)
    ensures Under(prefix, ChildPath(prefix, key)) && EndsWith(ChildPath(prefix, key), key)
  {
    var path := ChildPath(prefix, key);
    if prefix != [] {
      assert path[..|prefix| + 1] == prefix + ".";
    }
    assert path[|path| - |key|..] == key;
  }

  /** A path under a child of `prefix` lies under `prefix`. */
  lemma UnderChild(prefix: string, key: string, path: string)
    requires Under(ChildPath(prefix, key), path)
    ensures Under(prefix, path)
  {
    var child := ChildPath(prefix, key);
    if prefix != [] {
      assert child[..|prefix| + 1] == prefix + ".";
      assert path[..|prefix| + 1] == path[..|child| + 1][..|prefix| + 1];
    }
  }

  lemma {:induction false} IndexOpsLocated(uri: string, content: string, obj: Value, prefix: string)
    ensures forall w :: w in IndexOps(uri, content, obj, prefix) ==> Located(uri, content, prefix, w)
    decreases obj, 2
  {
    if IsContainer(obj) {
      MemberOpsLocated(uri, content, obj, prefix, 0);
    }
  }

  lemma {:induction false} MemberOpsLocated(uri: string, content: string, obj: Value, prefix: string, i: nat)
    requires IsContainer(obj) && i <= Count(obj)
    ensures forall w :: w in MemberOps(uri, content, obj, prefix, i) ==> Located(uri, content, prefix, w)
    decreases obj, 1, Count(obj) - i
  {
    if i < Count(obj) {
      MemberWritesLocated(uri, content, obj, prefix, i);
      MemberOpsLocated(uri, content, obj, prefix, i + 1);
    }
  }

  lemma {:induction false} MemberWritesLocated(uri: string, content: string, obj: Value, prefix: string, i: nat)
    requires IsContainer(obj) && i < Count(obj)
    ensures forall w :: w in MemberWrites(uri, content, obj, prefix, i) ==> Located(uri, content, prefix, w)
    decreases obj, 0
  {
    var key := if obj.Obj? then obj.members[i].key else NatToString(i);
    var value := if obj.Obj? then obj.members[i].value else obj.items[i];
    var path := ChildPath(prefix, key);
    EntryLocated(uri, content, prefix, key, value);
    if value.Obj? {
      IndexOpsLocated(uri, content, value, path);
      NestedLocated(uri, content, prefix, key, IndexOps(uri, content, value, path));
    }
  }

  lemma EntryLocated(uri: string, content: string, prefix: string, key: string, value: Value)
    ensures forall w :: w in Entry(uri, content, ChildPath(prefix, key), key, value) ==> Located(uri, content, prefix, w)
  {
    ChildPathSpec(prefix, key);
  }

  lemma NestedLocated(uri: string, content: string, prefix: string, key: string, ws: seq<Write>)
    requires forall w :: w in ws ==> Located(uri, content, ChildPath(prefix, key), w)
    ensures forall w :: w in ws ==> Located(uri, content, prefix, w)
  {
    forall w | w in ws
      ensures Under(prefix, w.path)
    {
      UnderChild(prefix, key, w.path);
    }
  }

  /** Every write of the walk carries the document's URI, lies under the
      prefix, and has the position of the first declaration of its last key
      segment, ending on or after the line it starts on. */
  lemma WalkLocated(uri: string, content: string, obj: Value, prefix: string, w: Write)
    requires w in IndexOps(uri, content, obj, prefix)
    ensures w.loc.uri == uri && Under(prefix, w.path) && EndsWith(w.path, w.key)
    ensures Exec(KeyDecl(w.key), content, 0).Some?
    ensures var m := Exec(KeyDecl(w.key), content, 0).value;
      w.loc.line == LineOf(content, m.index) && w.loc.column == ColumnOf(content, m.index)
    ensures w.loc.line <= w.loc.endLine
  {
    IndexOpsLocated(uri, content, obj, prefix);
    KeyLocationSpec(w.key, w.loc.value, content);
  }

  /** Two writes for the same key name get the same position, whatever
      their paths: the search does not look at where in the tree the key is. */
  lemma SameKeySamePosition(uri: string, content: string, obj: Value, prefix: string, w1: Write, w2: Write)
    requires w1 in IndexOps(uri, content, obj, prefix) && w2 in IndexOps(uri, content, obj, prefix)
    requires w1.key == w2.key
    ensures w1.loc.line == w2.loc.line && w1.loc.column == w2.loc.column
  {
    WalkLocated(uri, content, obj, prefix, w1);
    WalkLocated(uri, content, obj, prefix, w2);
  }

  /** After the walk, a path holds what it held before or the entry of some
      write of the walk to that path (the last one, by `GetPutAll`). */
  lemma StoredByWalk(t: Table<JsonLocation>, uri: string, content: string, obj: Value, prefix: string, p: string)
    ensures var t' := PutAll(t, Pairs(IndexOps(uri, content, obj, prefix)));
      Get(t', p) == Get(t, p) ||
      exists w :: w in IndexOps(uri, content, obj, prefix) && w.path == p && Get(t', p) == Some(w.loc)
  {
    var ws := IndexOps(uri, content, obj, prefix);
    GetPutAll(t, Pairs(ws), p);
    var last := LastWrite(Pairs(ws), p);
    if last.Some? {
      var i :| 0 <= i < |ws| && Pairs(ws)[i] == (p, last.value);
      assert ws[i] in ws;
    }
  }

  class JsonIndexer {
    /** The path table. */
    var index: Table<JsonLocation>

    ghost predicate Valid()
      reads this
    {
      PathTable.Valid(index)
    }

    constructor()
      ensures Valid() && index == Empty()
    {
      index := Empty();
    }

    /** Indexes one file whose text is `content`; `parsed` is what
        `JSON.parse` makes of it, `None` when it throws. A file that does not
        parse leaves the table as it was. */
    method BuildIndex(uri: string, content: string, parsed: Option<Value>)
      requires Valid()
      modifies this
      ensures Valid()
      ensures index == match parsed
        case None => old(index)
        case Some(json) => PutAll(old(index), Pairs(IndexOps(uri, content, json, "")))
    {
      if parsed.Some? {
        IndexObject(uri, parsed.value, "", content);
      }
    }

    method IndexObject(uri: string, obj: Value, prefix: string, content: string)
      requires Valid()
      modifies this
      ensures Valid()
      ensures index == PutAll(old(index), Pairs(IndexOps(uri, content, obj, prefix)))
      decreases obj, 1
    {
      if !IsContainer(obj) {
        return;
      }
      var n := Count(obj);
      for i := 0 to n
        invariant Valid()
        invariant PutAll(index, Pairs(MemberOps(uri, content, obj, prefix, i))) ==
                  PutAll(old(index), Pairs(IndexOps(uri, content, obj, prefix)))
      {
        ghost var before := index;
        IndexMember(uri, obj, prefix, content, i);
        WalkStep(before, MemberWrites(uri, content, obj, prefix, i), MemberOps(uri, content, obj, prefix, i + 1));
      }
    }

    /** One turn of the walk: the `i`th key of `obj` gets its entry when its
        declaration is found, then its value is walked when it is an object. */
    method IndexMember(uri: string, obj: Value, prefix: string, content: string, i: nat)
      requires Valid() && IsContainer(obj) && i < Count(obj)
      modifies this
      ensures Valid()
      ensures index == PutAll(old(index), Pairs(MemberWrites(uri, content, obj, prefix, i)))
      decreases obj, 0
    {
      var key := if obj.Obj? then obj.members[i].key else NatToString(i);
      var value := if obj.Obj? then obj.members[i].value else obj.items[i];
      var fullKey := ChildPath(prefix, key);
      var location := FindKeyLocation(key, value, content);
      if location.Some? {
        Set(fullKey, JsonLocation(uri, location.value.line, location.value.column, value, location.value.endLine));
      }
      EntryWrite(old(index), uri, content, fullKey, key, value);
      ghost var middle := index;
      if value.Obj? {
        IndexObject(uri, value, fullKey, content);
      }
      ghost var nested := if value.Obj? then IndexOps(uri, content, value, fullKey) else [];
      assert index == PutAll(middle, Pairs(nested));
      PairsAppend(Entry(uri, content, fullKey, key, value), nested);
      PutAllAppend(old(index), Pairs(Entry(uri, content, fullKey, key, value)), Pairs(nested));
    }

    /** `index.set(path, loc)`. */
    method Set(path: string, loc: JsonLocation)
      requires Valid()
      modifies this
      ensures Valid() && index == Put(old(index), path, loc)
    {
      PutValid(index, path, loc);
      index := Put(index, path, loc);
    }

    /** The key search: every declaration of `key` in the text, then the first
        of them, and for a container value the bracket scan from it. */
    method FindKeyLocation(key: string, value: Value, content: string) returns (r: Option<KeyLocation>)
      ensures r == KeyLocationOf(key, value, content)
    {
      var found := CollectDeclarations(key, content);
      DeclarationsFirst(key, content);
      if |found| == 0 {
        return None;
      }
      var first := found[0];
      var endLine := first.line;
      if IsContainer(value) {
        endLine := ScanEnd(content, first.index, first.line);
      } else {
        endLine := first.line;
      }
      r := Some(KeyLocation(first.line, first.column, endLine));
    }

    /** The `exec` loop of the key search, recording the position of each
        declaration of `key`. */
    method CollectDeclarations(key: string, content: string) returns (found: seq<Found>)
      ensures found == Declarations(key, content, 0)
    {
      var pattern := KeyDecl(key);
      found := [];
      var from := 0;
      var m := Exec(pattern, content, from);
      assert found + Declarations(key, content, from) == Declarations(key, content, 0);
      while m.Some?
        invariant from <= |content| && m == Exec(pattern, content, from)
        invariant found + Declarations(key, content, from) == Declarations(key, content, 0)
        decreases |content| - from
      {
        DeclarationsStep(key, content, from);
        assert found + Declarations(key, content, from) == (found + [FoundAt(content, m.value.index)]) + Declarations(key, content, m.value.end);
        found := found + [FoundAt(content, m.value.index)];
        from := m.value.end;
        m := Exec(pattern, content, from);
      }
    }

    /** The bracket scan of the key search from offset `from` of a key
        declared on `line`. The scan stops after 100 lines only in
        appearance: `endLine` changes only when the scan ends, so the result
        is that of the unbounded scan. */
    method ScanEnd(content: string, from: nat, line: nat) returns (endLine: nat)
      requires from <= |content|
      ensures endLine == ScanEndLine(content, from, line)
    {
      endLine := line;
      var braceCount: int := 0;
      var inValue := false;
      var i := from;
      while i < |content| && endLine - line < 100
        invariant from <= i <= |content|
        invariant endLine == line
        invariant BracketClose(content, i, braceCount, inValue) == BracketClose(content, from, 0, false)
        decreases |content| - i
      {
        var c := content[i];
        if IsOpener(c) {
          braceCount := braceCount + 1;
          inValue := true;
        } else if IsCloser(c) {
          braceCount := braceCount - 1;
          if inValue && braceCount == 0 {
            endLine := LineOf(content, i);
            break;
          }
        }
        i := i + 1;
      }
    }

    /** `getLocation(path)`: the entry stored for a listed path, nothing for
        any other. */
    function GetLocation(path: string): (r: Option<JsonLocation>)
      requires Valid()
      reads this
      ensures r.Some? <==> path in GetAllPaths()
      ensures r.Some? ==> path in index.entries && r.value == index.entries[path]
    {
      Get(index, path)
    }

    /** `getAllPaths()`: every stored path once, in order of first insertion. */
    function GetAllPaths(): (paths: seq<string>)
      requires Valid()
      reads this
      ensures forall i, j :: 0 <= i < j < |paths| ==> paths[i] != paths[j]
      ensures forall p :: p in paths <==> p in index.entries
    {
      index.keys
    }

    /** `clear()`: the table empties. */
    method Clear()
      requires Valid()
      modifies this
      ensures Valid() && index == Empty() && GetAllPaths() == []
    {
      index := Empty();
    }
  }
}
