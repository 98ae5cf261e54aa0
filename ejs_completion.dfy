/** The completion provider: finds the directive being typed around the
    cursor, takes the path typed so far, and proposes the top-level keys or
    the immediate children of the indexed paths that fit it. */
module EjsCompletion {
  import opened Wrappers
  import opened Text
  import opened Json
  import opened Regexes
  import opened JsonIndexing
  import opened EjsParser

  /** The two typing patterns, in the order they are tried. */
  const CompletionPatterns: seq<Pattern> := [OpenCall, OpenBare]

  // getEjsContext

  /** `match[2] || match[1] || ''`: the argument typed so far, or the
      function letter when the argument is empty; a missing or empty group
      counts as false. */
  function CaptureText(s: string, m: RegexMatch): string
    requires WellPlaced(s, m)
  {
    var arg := if |m.groups| >= 2 then SpanText(s, m.groups[1]) else "";
    var first := if |m.groups| >= 1 then SpanText(s, m.groups[0]) else "";
    if arg != "" then arg else first
  }

  /** `captured.substring(0, n).trim()`. */
  function TypedPrefix(captured: string, n: int): string {
    Trim(Substring(captured, 0, n))
  }

  /** The partial path of the match `m` with the cursor at `c`: the capture
      cut at the cursor, measured from where the capture is found searching
      from the match start, then trimmed. */
  function PartialText(s: string, c: int, m: RegexMatch): string
    requires WellPlaced(s, m)
  {
    var captured := CaptureText(s, m);
    TypedPrefix(captured, c - IndexOf(s, captured, m.index))
  }

  /** `getEjsContext`: the partial path of the first match holding the
      cursor, trying the unclosed call pattern first; `None` for `null`. */
  function EjsContext(s: string, c: int): Option<string> {
    match MatchHolding(CompletionPatterns, s, c)
    case None => None
    case Some((_, m)) => Some(PartialText(s, c, m))
  }

  method GetEjsContext(lineText: string, cursorPos: int) returns (r: Option<string>)
    ensures r == EjsContext(lineText, cursorPos)
  {
    for k := 0 to |CompletionPatterns|
      invariant FirstFound(Holding(CompletionPatterns, lineText, cursorPos), k) ==
                FirstFound(Holding(CompletionPatterns, lineText, cursorPos), 0)
    {
      var pattern := CompletionPatterns[k];
      var from := 0;
      var m := Exec(pattern, lineText, from);
      while m.Some?
        invariant from <= |lineText| && m == Exec(pattern, lineText, from)
        invariant Containing(pattern, lineText, from, cursorPos) == Containing(pattern, lineText, 0, cursorPos)
        decreases |lineText| - from
      {
        var matchStart := m.value.index;
        var matchEnd := m.value.end;
        if cursorPos >= matchStart && cursorPos <= matchEnd {
          MatchHoldingAt(CompletionPatterns, lineText, cursorPos, k, m.value);
          var captured := CaptureText(lineText, m.value);
          var pathStart := IndexOf(lineText, captured, matchStart);
          var partialPath := TypedPrefix(captured, cursorPos - pathStart);
          return Some(partialPath);
        }
        from := m.value.end;
        m := Exec(pattern, lineText, from);
      }
    }
    return None;
  }

  /** A context is found exactly when some match of one of the two typing
      patterns holds the cursor. */
  lemma EjsContextNone(s: string, c: int)
    ensures EjsContext(s, c).None? <==>
      NoneHolds(AllMatches(OpenCall, s, 0), c) && NoneHolds(AllMatches(OpenBare, s, 0), c)
  {
    var found := Holding(CompletionPatterns, s, c);
    FirstFoundSpec(found, 0);
    assert found[0] == Containing(OpenCall, s, 0, c);
    assert found[1] == Containing(OpenBare, s, 0, c);
    ContainingSpec(OpenCall, s, 0, c);
    ContainingSpec(OpenBare, s, 0, c);
  }

  /** The context comes from the first match holding the cursor of the first
      typing pattern that has one. */
  lemma EjsContextFound(s: string, c: int)
    requires EjsContext(s, c).Some?
    ensures var found := Holding(CompletionPatterns, s, c);
      FirstFound(found, 0).Some? &&
      var (j, m) := FirstFound(found, 0).value;
      (forall i :: 0 <= i < j ==> Containing(CompletionPatterns[i], s, 0, c).None?) &&
      Containing(CompletionPatterns[j], s, 0, c) == Some(m) &&
      m.index <= c <= m.end &&
      EjsContext(s, c) == Some(PartialText(s, c, m))
  {
    FirstFoundSpec(Holding(CompletionPatterns, s, c), 0);
  }

  /** In an unclosed call the capture is the argument typed so far, which
      holds no `)`; with nothing typed after `(` it is the function letter. */
  lemma OpenCallCapture(s: string, p: nat)
    requires p <= |s| && MatchOpenCall(s, p).Some?
    ensures var m := MatchOpenCall(s, p).value;
      WellPlaced(s, m) && |m.groups| == 2 &&
      var arg := SpanText(s, m.groups[1]);
      ')' !in arg && m.groups[1].end == m.end &&
      (arg != "" ==> CaptureText(s, m) == arg) &&
      (arg == "" ==> CaptureText(s, m) in {"s", "o"})
  {
    OpenCallPlaced(s, p);
    var m := MatchOpenCall(s, p).value;
    RunEndSpec(s, m.groups[1].start, {')'});
    var letter := m.groups[0].start;
    assert SpanText(s, m.groups[0]) == [s[letter]];
  }

  /** In an unclosed output directive the capture is the text after the
      white space, up to the first `}` or `%`. */
  lemma OpenBareCapture(s: string, p: nat)
    requires p <= |s| && MatchOpenBare(s, p).Some?
    ensures var m := MatchOpenBare(s, p).value;
      WellPlaced(s, m) && |m.groups| == 1 &&
      var arg := SpanText(s, m.groups[0]);
      CaptureText(s, m) == arg && '}' !in arg && '%' !in arg &&
      (m.groups[0].end < |s| ==> s[m.groups[0].end] in {'}', '%'})
  {
    OpenBarePlaced(s, p);
    var m := MatchOpenBare(s, p).value;
    RunEndSpec(s, m.groups[0].start, {'}', '%'});
  }

  /** The typed part of a capture, cut `n` characters in and trimmed, is a
      piece of it that neither starts nor ends with white space; cut at or
      beyond its end it is the whole capture, trimmed. */
  lemma TypedPrefixSpec(captured: string, n: int)
    ensures var r := TypedPrefix(captured, n);
      (r == [] || (!IsSpace(r[0]) && !IsSpace(r[|r| - 1]))) &&
      (exists a :: OccursAt(captured, r, a)) &&
      (n >= |captured| ==> r == Trim(captured))
  {
    var cut := Substring(captured, 0, n);
    TrimSpec(cut);
    var a := TrimStart(cut);
    var r := Trim(cut);
    assert cut == captured[..|cut|];
    assert captured[a..a + |r|] == r;
    assert OccursAt(captured, r, a);
    if n >= |captured| {
      assert cut == captured;
    }
  }

  /** The partial path is a trimmed piece of the capture: it neither starts
      nor ends with white space, and with the cursor at or after the end of
      the capture it is the whole capture, trimmed. */
  lemma PartialTextSpec(s: string, c: int, m: RegexMatch)
    requires WellPlaced(s, m)
    ensures var captured := CaptureText(s, m);
      var r := PartialText(s, c, m);
      (r == [] || (!IsSpace(r[0]) && !IsSpace(r[|r| - 1]))) &&
      (exists a :: OccursAt(captured, r, a)) &&
      (c >= IndexOf(s, captured, m.index) + |captured| ==> r == Trim(captured))
  {
    var captured := CaptureText(s, m);
    TypedPrefixSpec(captured, c - IndexOf(s, captured, m.index));
  }

  // getMatchingPaths and getChildProperties

  /** A completion item: label, inserted text, detail line, documentation
      and sort key. */
  datatype Candidate = Candidate(displayText: string, insertText: string, detail: string, documentation: Option<string>, sortText: string)

  /** `path.split('.')[0]`. */
  function FirstSegment(path: string): string {
    Split(path, '.')[0]
  }

  /** The first segment is the text before the first dot. */
  lemma FirstSegmentSpec(path: string)
    ensures var f := FirstSegment(path);
      '.' !in f && StartsWith(path, f) && (|f| == |path| || path[|f|] == '.')
  {
    SplitFirst(path, '.');
  }

  /** The first segment is the only dot-free prefix followed by a dot or the end. */
  lemma FirstSegmentOf(path: string, f: string)
    requires '.' !in f && StartsWith(path, f) && (|f| == |path| || path[|f|] == '.')
    ensures FirstSegment(path) == f
  {
    FirstSegmentSpec(path);
  }

  /** `key.toLowerCase().startsWith(typed.toLowerCase())`. */
  predicate Typed(key: string, typed: string) {
    StartsWith(ToLower(key), ToLower(typed))
  }

  /** No element occurs twice. */
  predicate Distinct(keys: seq<string>) {
    forall i, j :: 0 <= i < j < |keys| ==> keys[i] != keys[j]
  }

  /** `set.add(k)` on a `Set` kept in insertion order. */
  function Insert(keys: seq<string>, k: string): seq<string> {
    if k in keys then keys else keys + [k]
  }

  /** The distinct first segments of `paths` that fit `typed`, in order of
      first appearance: what the `forEach` over the paths adds to the set. */
  function TopLevelKeys(paths: seq<string>, typed: string): seq<string>
    decreases |paths|
  {
    if paths == [] then []
    else
      var keys := TopLevelKeys(paths[..|paths| - 1], typed);
      var firstPart := FirstSegment(paths[|paths| - 1]);
      if Typed(firstPart, typed) then Insert(keys, firstPart) else keys
  }

  /** Each key once, and exactly the first segments that fit `typed`. */
  lemma {:induction false} TopLevelKeysSpec(paths: seq<string>, typed: string)
    ensures Distinct(TopLevelKeys(paths, typed))
    ensures forall k :: k in TopLevelKeys(paths, typed) <==>
      exists i :: 0 <= i < |paths| && FirstSegment(paths[i]) == k && Typed(k, typed)
    decreases |paths|
  {
    if paths != [] {
      var init := paths[..|paths| - 1];
      TopLevelKeysSpec(init, typed);
      forall k | k in TopLevelKeys(paths, typed)
        ensures exists i :: 0 <= i < |paths| && FirstSegment(paths[i]) == k && Typed(k, typed)
      {
        if k in TopLevelKeys(init, typed) {
          var i :| 0 <= i < |init| && FirstSegment(init[i]) == k && Typed(k, typed);
          assert paths[i] == init[i];
        }
      }
      forall k, i | 0 <= i < |paths| && FirstSegment(paths[i]) == k && Typed(k, typed)
        ensures k in TopLevelKeys(paths, typed)
      {
        if i < |init| {
          assert init[i] == paths[i];
        }
      }
    }
  }

  /** The next segment of `path` after `parent + "."`, when it lies under `parent`. */
  function ChildSegment(path: string, parent: string): string
    requires StartsWith(path, parent + ".")
  {
    FirstSegment(path[|parent| + 1..])
  }

  /** The distinct next segments of the paths under `parent`, in order of
      first appearance. */
  function ChildKeys(paths: seq<string>, parent: string): seq<string>
    decreases |paths|
  {
    if paths == [] then []
    else
      var keys := ChildKeys(paths[..|paths| - 1], parent);
      var path := paths[|paths| - 1];
      if StartsWith(path, parent + ".") then Insert(keys, ChildSegment(path, parent)) else keys
  }

  /** Each child once, and exactly the segments that follow `parent + "."`
      in some path. */
  lemma {:induction false} ChildKeysSpec(paths: seq<string>, parent: string)
    ensures Distinct(ChildKeys(paths, parent))
    ensures forall k :: k in ChildKeys(paths, parent) <==>
      exists i :: 0 <= i < |paths| && StartsWith(paths[i], parent + ".") && ChildSegment(paths[i], parent) == k
    decreases |paths|
  {
    if paths != [] {
      var init := paths[..|paths| - 1];
      ChildKeysSpec(init, parent);
      forall k | k in ChildKeys(paths, parent)
        ensures exists i :: 0 <= i < |paths| && StartsWith(paths[i], parent + ".") && ChildSegment(paths[i], parent) == k
      {
        if k in ChildKeys(init, parent) {
          var i :| 0 <= i < |init| && StartsWith(init[i], parent + ".") && ChildSegment(init[i], parent) == k;
          assert paths[i] == init[i];
        }
      }
      forall k, i | 0 <= i < |paths| && StartsWith(paths[i], parent + ".") && ChildSegment(paths[i], parent) == k
        ensures k in ChildKeys(paths, parent)
      {
        if i < |init| {
          assert init[i] == paths[i];
        }
      }
    }
  }

  /** A child is a whole segment: the path continues with `parent.child`
      followed by a dot or by nothing. */
  lemma ChildSegmentSpec(path: string, parent: string)
    requires StartsWith(path, parent + ".")
    ensures var k := ChildSegment(path, parent);
      var n := |parent| + 1 + |k|;
      '.' !in k && n <= |path| && path[..n] == parent + "." + k && (n == |path| || path[n] == '.')
  {
    var rest := path[|parent| + 1..];
    FirstSegmentSpec(rest);
    var k := ChildSegment(path, parent);
    assert path[..|parent| + 1] == parent + ".";
    assert path[|parent| + 1..|parent| + 1 + |k|] == k;
    assert path[..|parent| + 1 + |k|] == path[..|parent| + 1] + path[|parent| + 1..|parent| + 1 + |k|];
  }

  /** The `forEach` of `getMatchingPaths` over the paths, collecting the
      first segments that fit `typed` in a set. */
  method CollectTopLevel(allPaths: seq<string>, typed: string) returns (keys: seq<string>)
    ensures keys == TopLevelKeys(allPaths, typed)
  {
    keys := [];
    for i := 0 to |allPaths|
      invariant keys == TopLevelKeys(allPaths[..i], typed)
    {
      var firstPart := FirstSegment(allPaths[i]);
      if Typed(firstPart, typed) && firstPart !in keys {
        keys := keys + [firstPart];
      }
      assert allPaths[..i + 1][..i] == allPaths[..i];
    }
    assert allPaths[..|allPaths|] == allPaths;
  }

  /** The `forEach` of `getChildProperties` over the paths, collecting the
      next segment of each path under `parentPath` in a set. */
  method CollectChildren(allPaths: seq<string>, parentPath: string) returns (children: seq<string>)
    ensures children == ChildKeys(allPaths, parentPath)
  {
    children := [];
    var parentPrefix := parentPath + ".";
    for i := 0 to |allPaths|
      invariant children == ChildKeys(allPaths[..i], parentPath)
    {
      var path := allPaths[i];
      if StartsWith(path, parentPrefix) {
        var remainder := path[|parentPrefix|..];
        var nextSegment := FirstSegment(remainder);
        if nextSegment !in children {
          children := children + [nextSegment];
        }
      }
      assert allPaths[..i + 1][..i] == allPaths[..i];
    }
    assert allPaths[..|allPaths|] == allPaths;
  }

  function TopLevelCandidate(key: string): Candidate {
    Candidate(key, key, "Top-level key", None, "0_" + key)
  }

  function TopLevelCandidates(keys: seq<string>): seq<Candidate> {
    seq(|keys|, i requires 0 <= i < |keys| => TopLevelCandidate(keys[i]))
  }

  /** `formatValueForDocs`: an array or object pretty-printed and cut to 200
      characters plus `...`; anything else through `String`. */
  function FormatValueForDocs(value: Value): (r: string)
    ensures IsContainer(value) ==> |r| <= 203
    ensures IsContainer(value) && |StringifyPretty(value)| <= 200 ==> r == StringifyPretty(value)
    ensures IsContainer(value) && |StringifyPretty(value)| > 200 ==>
      |r| == 203 && r[..200] == StringifyPretty(value)[..200] && r[200..] == "..."
    ensures !IsContainer(value) ==> r == ToJsString(value)
  {
    if IsContainer(value) then
      var preview := StringifyPretty(value);
      if |preview| > 200 then preview[..200] + "..." else preview
    else ToJsString(value)
  }

  /** The detail line of a child: `Property` when its path is not indexed,
      `Array` or `Object` for a container, and otherwise its type and JSON
      text (`object: null` for null). */
  function Detail(location: Option<JsonLocation>): (r: string)
    ensures r == "Property" <==> location.None?
    ensures r == "Array" <==> location.Some? && location.value.value.Arr?
    ensures r == "Object" <==> location.Some? && location.value.value.Obj?
    ensures location.Some? && !IsContainer(location.value.value) ==>
      StartsWith(r, TypeOf(location.value.value) + ": ") && EndsWith(r, Stringify(location.value.value))
  {
    match location
    case None => "Property"
    case Some(l) =>
      if IsContainer(l.value) then (if l.value.Arr? then "Array" else "Object")
      else
        var r := TypeOf(l.value) + ": " + Stringify(l.value);
        assert r[|TypeOf(l.value)|] == ':';
        r
  }

  /** The documentation of a child: the preview of a container, nothing otherwise. */
  function Documentation(location: Option<JsonLocation>): Option<string> {
    match location
    case Some(l) => if IsContainer(l.value) then Some(FormatValueForDocs(l.value)) else None
    case None => None
  }

  function ChildCandidate(location: Option<JsonLocation>, child: string): Candidate {
    Candidate(child, child, Detail(location), Documentation(location), "1_" + child)
  }

  /** The candidates of `children`, each described by the entry of
      `parentPath.child`. */
  function ChildCandidates(indexer: JsonIndexer, parentPath: string, children: seq<string>): seq<Candidate>
    requires indexer.Valid()
    reads indexer
    decreases |children|
  {
    if children == [] then []
    else
      var first := ChildCandidate(indexer.GetLocation(parentPath + "." + children[0]), children[0]);
      [first] + ChildCandidates(indexer, parentPath, children[1..])
  }

  /** `getChildProperties`. */
  function ChildProperties(indexer: JsonIndexer, allPaths: seq<string>, parentPath: string): seq<Candidate>
    requires indexer.Valid()
    reads indexer
  {
    ChildCandidates(indexer, parentPath, ChildKeys(allPaths, parentPath))
  }

  method GetChildProperties(indexer: JsonIndexer, allPaths: seq<string>, parentPath: string) returns (r: seq<Candidate>)
    requires indexer.Valid()
    ensures r == ChildProperties(indexer, allPaths, parentPath)
  {
    var children := CollectChildren(allPaths, parentPath);
    r := ChildCandidates(indexer, parentPath, children);
  }

  /** The candidates whose label fits `typed`, in order. */
  function FilterTyped(cs: seq<Candidate>, typed: string): seq<Candidate>
    decreases |cs|
  {
    if cs == [] then []
    else (if Typed(cs[0].displayText, typed) then [cs[0]] else []) + FilterTyped(cs[1..], typed)
  }

  /** `getMatchingPaths`. */
  function MatchingPaths(indexer: JsonIndexer, allPaths: seq<string>, partialPath: string): seq<Candidate>
    requires indexer.Valid()
    reads indexer
  {
    if partialPath == "" then TopLevelCandidates(TopLevelKeys(allPaths, ""))
    else if EndsWith(partialPath, ".") then ChildProperties(indexer, allPaths, partialPath[..|partialPath| - 1])
    else
      var lastDotIndex := LastIndexOf(partialPath, ".");
      if lastDotIndex == -1 then TopLevelCandidates(TopLevelKeys(allPaths, partialPath))
      else (
        var parentPath := Substring(partialPath, 0, lastDotIndex);
        var currentSegment := Substring(partialPath, lastDotIndex + 1, |partialPath|);
        FilterTyped(ChildProperties(indexer, allPaths, parentPath), currentSegment))
  }

  method GetMatchingPaths(indexer: JsonIndexer, allPaths: seq<string>, partialPath: string) returns (r: seq<Candidate>)
    requires indexer.Valid()
    ensures r == MatchingPaths(indexer, allPaths, partialPath)
  {
    if partialPath == "" {
      var topLevelKeys := CollectTopLevel(allPaths, "");
      return TopLevelCandidates(topLevelKeys);
    }
    if EndsWith(partialPath, ".") {
      var parentPath := partialPath[..|partialPath| - 1];
      r := GetChildProperties(indexer, allPaths, parentPath);
      return;
    }
    var lastDotIndex := LastIndexOf(partialPath, ".");
    if lastDotIndex == -1 {
      var topLevelKeys := CollectTopLevel(allPaths, partialPath);
      return TopLevelCandidates(topLevelKeys);
    }
    var parentPath := Substring(partialPath, 0, lastDotIndex);
    var currentSegment := Substring(partialPath, lastDotIndex + 1, |partialPath|);
    var children := GetChildProperties(indexer, allPaths, parentPath);
    r := FilterTyped(children, currentSegment);
  }

  // What the candidates are, case by case.

  /** The labels of the candidates, in order. */
  function Labels(cs: seq<Candidate>): seq<string> {
    seq(|cs|, i requires 0 <= i < |cs| => cs[i].displayText)
  }

  /** Top-level candidates carry their key as label and inserted text, the
      detail `Top-level key` and the sort key `0_key`. */
  lemma TopLevelCandidatesSpec(keys: seq<string>)
    ensures Labels(TopLevelCandidates(keys)) == keys
    ensures forall c :: c in TopLevelCandidates(keys) ==>
      c.insertText == c.displayText && c.detail == "Top-level key" &&
      c.documentation.None? && c.sortText == "0_" + c.displayText
  {
  }

  /** The `i`th child candidate is that of the `i`th child. */
  lemma {:induction false} ChildCandidatesAt(indexer: JsonIndexer, parentPath: string, children: seq<string>)
    requires indexer.Valid()
    ensures var all := ChildCandidates(indexer, parentPath, children);
      |all| == |children| &&
      forall i :: 0 <= i < |children| ==>
        all[i] == ChildCandidate(indexer.GetLocation(parentPath + "." + children[i]), children[i])
    decreases |children|
  {
    if children != [] {
      ChildCandidatesAt(indexer, parentPath, children[1..]);
    }
  }

  /** Child candidates carry the child as label and inserted text, the sort
      key `1_child`, and the detail and documentation of the entry of
      `parentPath.child`. */
  lemma ChildCandidatesSpec(indexer: JsonIndexer, parentPath: string, children: seq<string>)
    requires indexer.Valid()
    ensures Labels(ChildCandidates(indexer, parentPath, children)) == children
    ensures forall c :: c in ChildCandidates(indexer, parentPath, children) ==>
      c == ChildCandidate(indexer.GetLocation(parentPath + "." + c.displayText), c.displayText)
  {
    ChildCandidatesAt(indexer, parentPath, children);
  }

  /** Filtering keeps the candidates whose label fits, in order. */
  lemma {:induction false} FilterTypedSpec(cs: seq<Candidate>, typed: string)
    ensures forall c :: c in FilterTyped(cs, typed) <==> c in cs && Typed(c.displayText, typed)
    decreases |cs|
  {
    if cs != [] {
      FilterTypedSpec(cs[1..], typed);
      assert cs == [cs[0]] + cs[1..];
    }
  }

  /** A candidate's label is among the labels. */
  lemma LabelListed(cs: seq<Candidate>, c: Candidate)
    requires c in cs
    ensures c.displayText in Labels(cs)
  {
    var i :| 0 <= i < |cs| && cs[i] == c;
    assert Labels(cs)[i] == c.displayText;
  }

  /** Filtering candidates with distinct labels leaves distinct labels. */
  lemma {:induction false} FilterTypedDistinct(cs: seq<Candidate>, typed: string)
    requires Distinct(Labels(cs))
    ensures Distinct(Labels(FilterTyped(cs, typed)))
    decreases |cs|
  {
    if cs != [] {
      var tail := cs[1..];
      assert Labels(tail) == Labels(cs)[1..];
      FilterTypedDistinct(tail, typed);
      var rest := FilterTyped(tail, typed);
      if Typed(cs[0].displayText, typed) {
        var x := cs[0].displayText;
        forall i | 0 <= i < |tail|
          ensures Labels(tail)[i] != x
        {
          assert Labels(cs)[i + 1] == Labels(tail)[i] && Labels(cs)[0] == x;
        }
        FilterTypedSpec(tail, typed);
        if x in Labels(rest) {
          var i :| 0 <= i < |rest| && Labels(rest)[i] == x;
          LabelListed(tail, rest[i]);
        }
        assert Labels(FilterTyped(cs, typed)) == [x] + Labels(rest);
      } else {
        assert FilterTyped(cs, typed) == rest;
      }
    }
  }

  /** `typed` fits every key when it is empty. */
  lemma TypedEmpty(key: string)
    ensures Typed(key, "")
  {
  }

  /** With nothing typed, the candidates are the distinct first segments of
      all the paths, as top-level keys. */
  lemma MatchingEmpty(indexer: JsonIndexer, allPaths: seq<string>)
    requires indexer.Valid()
    ensures var r := MatchingPaths(indexer, allPaths, "");
      Distinct(Labels(r)) &&
      (forall k :: k in Labels(r) <==> exists i :: 0 <= i < |allPaths| && FirstSegment(allPaths[i]) == k) &&
      forall c :: c in r ==> c == TopLevelCandidate(c.displayText)
  {
    var keys := TopLevelKeys(allPaths, "");
    TopLevelKeysSpec(allPaths, "");
    TopLevelCandidatesSpec(keys);
    forall k
      ensures (exists i :: 0 <= i < |allPaths| && FirstSegment(allPaths[i]) == k) ==>
        exists i :: 0 <= i < |allPaths| && FirstSegment(allPaths[i]) == k && Typed(k, "")
    {
      TypedEmpty(k);
    }
  }

  /** Typing a segment without a dot offers the distinct first segments that
      start with it, ignoring case, as top-level keys. */
  lemma MatchingNoDot(indexer: JsonIndexer, allPaths: seq<string>, partialPath: string)
    requires indexer.Valid() && partialPath != "" && '.' !in partialPath
    ensures var r := MatchingPaths(indexer, allPaths, partialPath);
      Distinct(Labels(r)) &&
      (forall k :: k in Labels(r) <==>
        exists i :: 0 <= i < |allPaths| && FirstSegment(allPaths[i]) == k && Typed(k, partialPath)) &&
      forall c :: c in r ==> c == TopLevelCandidate(c.displayText)
  {
    LastIndexOfSpec(partialPath, ".");
    var d := LastIndexOf(partialPath, ".");
    if d != -1 {
      OccursAtChar(partialPath, '.', d);
    }
    assert partialPath[|partialPath| - 1] != '.';
    assert !EndsWith(partialPath, ".");
    TopLevelKeysSpec(allPaths, partialPath);
    TopLevelCandidatesSpec(TopLevelKeys(allPaths, partialPath));
  }

  /** The candidates of `getChildProperties`: one per distinct child of
      `parentPath`, described by the entry of `parentPath.child`. */
  lemma ChildPropertiesSpec(indexer: JsonIndexer, allPaths: seq<string>, parentPath: string)
    requires indexer.Valid()
    ensures var r := ChildProperties(indexer, allPaths, parentPath);
      Labels(r) == ChildKeys(allPaths, parentPath) && Distinct(Labels(r)) &&
      (forall k :: k in Labels(r) <==>
        exists i :: 0 <= i < |allPaths| && StartsWith(allPaths[i], parentPath + ".") && ChildSegment(allPaths[i], parentPath) == k) &&
      forall c :: c in r ==> c == ChildCandidate(indexer.GetLocation(parentPath + "." + c.displayText), c.displayText)
  {
    ChildKeysSpec(allPaths, parentPath);
    ChildCandidatesSpec(indexer, parentPath, ChildKeys(allPaths, parentPath));
  }

  /** A path typed up to a dot offers the children of what precedes the dot. */
  lemma MatchingTrailingDot(indexer: JsonIndexer, allPaths: seq<string>, partialPath: string)
    requires indexer.Valid() && partialPath != "" && partialPath[|partialPath| - 1] == '.'
    ensures MatchingPaths(indexer, allPaths, partialPath) ==
      ChildProperties(indexer, allPaths, partialPath[..|partialPath| - 1])
  {
    assert EndsWith(partialPath, ".");
  }

  /** A path typed past its last dot offers the children of what precedes
      that dot whose name starts with what follows it, ignoring case. */
  lemma MatchingInnerDot(indexer: JsonIndexer, allPaths: seq<string>, partialPath: string, d: nat)
    requires indexer.Valid() && d < |partialPath| - 1 && partialPath[d] == '.'
    requires forall i :: d < i < |partialPath| ==> partialPath[i] != '.'
    ensures var r := MatchingPaths(indexer, allPaths, partialPath);
      var parentPath, segment := partialPath[..d], partialPath[d + 1..];
      Distinct(Labels(r)) &&
      (forall k :: k in Labels(r) <==> k in ChildKeys(allPaths, parentPath) && Typed(k, segment)) &&
      forall c :: c in r ==> c == ChildCandidate(indexer.GetLocation(parentPath + "." + c.displayText), c.displayText)
  {
    var parentPath, segment := partialPath[..d], partialPath[d + 1..];
    LastIndexOfSpec(partialPath, ".");
    OccursAtChar(partialPath, '.', d);
    var last := LastIndexOf(partialPath, ".");
    if last != d {
      OccursAtChar(partialPath, '.', last);
    }
    assert last == d;
    assert !EndsWith(partialPath, ".");
    assert Substring(partialPath, 0, last) == parentPath;
    assert Substring(partialPath, last + 1, |partialPath|) == segment;
    var cs := ChildProperties(indexer, allPaths, parentPath);
    ChildPropertiesSpec(indexer, allPaths, parentPath);
    FilterTypedSpec(cs, segment);
    FilterTypedDistinct(cs, segment);
    var r := FilterTyped(cs, segment);
    assert r == MatchingPaths(indexer, allPaths, partialPath);
    forall k
      ensures k in Labels(r) <==> k in ChildKeys(allPaths, parentPath) && Typed(k, segment)
    {
      if k in Labels(r) {
        var i :| 0 <= i < |r| && Labels(r)[i] == k;
        LabelListed(cs, r[i]);
      }
      if k in ChildKeys(allPaths, parentPath) && Typed(k, segment) {
        var i :| 0 <= i < |cs| && Labels(cs)[i] == k;
        assert cs[i] in r;
        LabelListed(r, cs[i]);
      }
    }
  }

  /** The example of the paths `a.b.c`, `a.b.d`, `a.e`: the children of `a`
      are `b` (once) and `e`, in that order. */
  lemma ChildKeysExample()
    ensures ChildKeys(["a.b.c", "a.b.d", "a.e"], "a") == ["b", "e"]
  {
    var paths := ["a.b.c", "a.b.d", "a.e"];
    FirstSegmentOf("b.c", "b");
    FirstSegmentOf("b.d", "b");
    FirstSegmentOf("e", "e");
    assert paths[..2][..1] == ["a.b.c"] && paths[..2] == ["a.b.c", "a.b.d"] && paths[..1][..0] == [];
    assert ChildKeys(["a.b.c"], "a") == ["b"];
    assert ChildKeys(paths[..2], "a") == ["b"];
  }

  /** With the paths `a.b.c`, `a.b.d`, `a.e`, typing `a.` offers `b` and `e`. */
  lemma MatchingExampleDot(indexer: JsonIndexer)
    requires indexer.Valid()
    ensures Labels(MatchingPaths(indexer, ["a.b.c", "a.b.d", "a.e"], "a.")) == ["b", "e"]
  {
    ChildKeysExample();
    ChildPropertiesSpec(indexer, ["a.b.c", "a.b.d", "a.e"], "a");
    MatchingTrailingDot(indexer, ["a.b.c", "a.b.d", "a.e"], "a.");
    assert "a."[..1] == "a";
  }

  /** With the same paths, typing `a.b` offers `b` alone, once. */
  lemma MatchingExampleSegment(indexer: JsonIndexer)
    requires indexer.Valid()
    ensures var l := Labels(MatchingPaths(indexer, ["a.b.c", "a.b.d", "a.e"], "a.b"));
      Distinct(l) && forall k :: k in l <==> k == "b"
  {
    ChildKeysExample();
    MatchingInnerDot(indexer, ["a.b.c", "a.b.d", "a.e"], "a.b", 1);
    assert "a.b"[..1] == "a" && "a.b"[2..] == "b";
    TypedExample();
  }

  lemma TypedExample()
    ensures Typed("b", "b") && !Typed("e", "b")
  {
    assert ToLower("b")[0] == 'b' && ToLower("e")[0] == 'e';
  }

  /** Children come in the order the paths first mention them, not sorted. */
  lemma ChildKeysUnsorted()
    ensures ChildKeys(["a.z", "a.b"], "a") == ["z", "b"]
  {
    FirstSegmentOf("z", "z");
    FirstSegmentOf("b", "b");
    assert ["a.z", "a.b"][..1] == ["a.z"] && ["a.z"][..0] == [];
    assert ChildKeys(["a.z"], "a") == ["z"];
  }

  /** `k` is a segment of one of the paths: its first segment, or the
      segment that follows some parent path and a dot. */
  ghost predicate SegmentOf(allPaths: seq<string>, k: string) {
    exists i :: 0 <= i < |allPaths| &&
      (FirstSegment(allPaths[i]) == k ||
       exists parent :: StartsWith(allPaths[i], parent + ".") && ChildSegment(allPaths[i], parent) == k)
  }

  /** Whatever is typed, every candidate offered is a segment of one of the
      paths: completion never invents a name. */
  lemma MatchingFromPaths(indexer: JsonIndexer, allPaths: seq<string>, partialPath: string)
    requires indexer.Valid()
    ensures forall k :: k in Labels(MatchingPaths(indexer, allPaths, partialPath)) ==> SegmentOf(allPaths, k)
  {
    var n := |partialPath|;
    if partialPath == "" {
      MatchingEmpty(indexer, allPaths);
    } else if partialPath[n - 1] == '.' {
      MatchingTrailingDot(indexer, allPaths, partialPath);
      ChildPropertiesSpec(indexer, allPaths, partialPath[..n - 1]);
    } else if '.' !in partialPath {
      MatchingNoDot(indexer, allPaths, partialPath);
    } else {
      var j :| 0 <= j < n && partialPath[j] == '.';
      LastIndexOfSpec(partialPath, ".");
      var d := LastIndexOf(partialPath, ".");
      OccursAtChar(partialPath, '.', j);
      OccursAtChar(partialPath, '.', d);
      forall i | d < i < n
        ensures partialPath[i] != '.'
      {
        OccursAtChar(partialPath, '.', i);
      }
      MatchingInnerDot(indexer, allPaths, partialPath, d);
      ChildKeysSpec(allPaths, partialPath[..d]);
    }
  }

  /** `provideCompletionItems` on the document `content`: the candidates for
      the path typed so far, or nothing outside a directive being typed. */
  function CompletionsAt(indexer: JsonIndexer, content: string, pos: Position): Option<seq<Candidate>>
    requires indexer.Valid() && pos.line < |Lines(content)|
    reads indexer
  {
    match EjsContext(LineAt(content, pos.line), pos.character)
    case None => None
    case Some(partialPath) => Some(MatchingPaths(indexer, indexer.GetAllPaths(), partialPath))
  }

  /** Completion answers exactly inside a directive being typed, and offers
      only segments of indexed paths. */
  lemma CompletionsSpec(indexer: JsonIndexer, content: string, pos: Position)
    requires indexer.Valid() && pos.line < |Lines(content)|
    ensures var r := CompletionsAt(indexer, content, pos);
      (r.None? <==> EjsContext(LineAt(content, pos.line), pos.character).None?) &&
      (r.Some? ==> forall k :: k in Labels(r.value) ==> SegmentOf(indexer.GetAllPaths(), k))
  {
    var partialPath := EjsContext(LineAt(content, pos.line), pos.character);
    if partialPath.Some? {
      MatchingFromPaths(indexer, indexer.GetAllPaths(), partialPath.value);
    }
  }
}
