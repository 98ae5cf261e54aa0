/** The directive parser: finds the quoted template directives
    `"{{%- s(a.b) %}}"`, `"{{%- o(a.b) %}}"` and `"{{%= a.b %}}"` in a line,
    picks the one under the cursor, and splits a namespace prefix off its path. */
module EjsParser {
  import opened Wrappers
  import opened Text
  import opened Regexes

  /** An editor position: 0-based line and character. */
  datatype Position = Position(line: nat, character: nat)

  datatype Range = Range(start: Position, end: Position)

  /** A directive's path and the namespace prefix it starts with, if any. */
  datatype PathInfo = PathInfo(path: string, prefix: Option<string>)

  /** The directive under the cursor: its path and prefix, the span of the
      whole directive, its text, and the path up to the segment under the cursor. */
  datatype EjsInfo = EjsInfo(path: string, prefix: Option<string>, range: Range, fullMatch: string, partialPath: string)

  /** The three directive patterns, in the order they are tried. */
  const DirectivePatterns: seq<Pattern> := [CallDirective, BareDirective, StringDirective]

  /** The namespace prefixes, in the order they are tried. */
  const KnownPrefixes: seq<string> := ["CONST", "ENV", "EVENT", "CONFIG", "PAGE"]

  predicate IsDirective(pat: Pattern) {
    pat.CallDirective? || pat.BareDirective? || pat.StringDirective?
  }

  // Prefixes and partial paths.

  function PrefixFrom(captured: string, k: nat): Option<string>
    requires k <= |KnownPrefixes|
    decreases |KnownPrefixes| - k
  {
    if k == |KnownPrefixes| then None
    else if StartsWith(captured, KnownPrefixes[k] + ".") then Some(KnownPrefixes[k])
    else PrefixFrom(captured, k + 1)
  }

  /** `parsePath`: the path is the capture itself; the prefix is the first
      known prefix that the capture starts with, followed by a dot. */
  function ParsePath(captured: string): PathInfo {
    PathInfo(captured, PrefixFrom(captured, 0))
  }

  lemma {:induction false} PrefixFromSpec(captured: string, k: nat)
    requires k <= |KnownPrefixes|
    ensures match PrefixFrom(captured, k)
      case Some(p) => exists i :: (k <= i < |KnownPrefixes| && p == KnownPrefixes[i] &&
        StartsWith(captured, p + ".") &&
        forall j :: k <= j < i ==> !StartsWith(captured, KnownPrefixes[j] + "."))
      case None => forall j :: k <= j < |KnownPrefixes| ==> !StartsWith(captured, KnownPrefixes[j] + ".")
    decreases |KnownPrefixes| - k
  {
    if k < |KnownPrefixes| && !StartsWith(captured, KnownPrefixes[k] + ".") {
      PrefixFromSpec(captured, k + 1);
    }
  }

  /** The path is never altered; the prefix is set exactly when the capture
      starts with a known prefix and a dot, and it is the first such prefix. */
  lemma ParsePathSpec(captured: string)
    ensures ParsePath(captured).path == captured
    ensures match ParsePath(captured).prefix
      case Some(p) => exists i :: (0 <= i < |KnownPrefixes| && p == KnownPrefixes[i] &&
        StartsWith(captured, p + ".") &&
        forall j :: 0 <= j < i ==> !StartsWith(captured, KnownPrefixes[j] + "."))
      case None => forall j :: 0 <= j < |KnownPrefixes| ==> !StartsWith(captured, KnownPrefixes[j] + ".")
  {
    PrefixFromSpec(captured, 0);
  }

  /** `getPartialPathAtOffset`: the path cut at the first dot at or after
      the offset; the whole path when there is none or the offset lies
      outside the path. */
  function PartialPathAtOffset(fullPath: string, cursorOffset: int): string {
    if cursorOffset < 0 || cursorOffset > |fullPath| then fullPath
    else
      var nextDot := IndexOf(fullPath, ".", cursorOffset);
      if nextDot == -1 then fullPath else Substring(fullPath, 0, nextDot)
  }

  /** The partial path is a prefix of the path. With the offset in range it
      reaches at least the offset, holds no dot from the offset on, and is
      either the whole path or followed by a dot in it. */
  lemma PartialPathSpec(fullPath: string, cursorOffset: int)
    ensures var r := PartialPathAtOffset(fullPath, cursorOffset);
      StartsWith(fullPath, r) &&
      (cursorOffset < 0 || cursorOffset > |fullPath| ==> r == fullPath) &&
      (0 <= cursorOffset <= |fullPath| ==>
        cursorOffset <= |r| &&
        (forall i :: cursorOffset <= i < |r| ==> r[i] != '.') &&
        (r == fullPath || (|r| < |fullPath| && fullPath[|r|] == '.')))
  {
    var r := PartialPathAtOffset(fullPath, cursorOffset);
    if 0 <= cursorOffset <= |fullPath| {
      var nextDot := IndexOf(fullPath, ".", cursorOffset);
      IndexOfSpec(fullPath, ".", cursorOffset);
      forall i | cursorOffset <= i < |fullPath| && (nextDot == -1 || i < nextDot)
        ensures fullPath[i] != '.'
      {
        OccursAtChar(fullPath, '.', i);
      }
      if nextDot != -1 {
        OccursAtChar(fullPath, '.', nextDot);
      }
    }
  }

  /** The documented example: offset 15 lies in `heroWrapper`. */
  lemma PartialPathExample()
    ensures PartialPathAtOffset("Hero.default.heroWrapper.liveTag.visible", 15) == "Hero.default.heroWrapper"
  {
    var path := "Hero.default.heroWrapper.liveTag.visible";
    assert OccursAt(path, ".", 24);
    forall j | 15 <= j < 24
      ensures !OccursAt(path, ".", j)
    {
      OccursAtChar(path, '.', j);
    }
    IndexOfSpec(path, ".", 15);
    assert IndexOf(path, ".", 15) == 24;
  }

  // The captured path of a directive match.

  /** The group of a match of a directive pattern, trimmed. */
  function Captured(s: string, m: RegexMatch): string
    requires WellPlaced(s, m) && 1 <= |m.groups|
  {
    Trim(SpanText(s, m.groups[0]))
  }

  /** The trimmed capture occurs in the line, inside the match, so the search
      for it from the match start finds it there or earlier in the match. */
  lemma CapturedFound(s: string, m: RegexMatch)
    requires WellPlaced(s, m) && 1 <= |m.groups|
    ensures var k := IndexOf(s, Captured(s, m), m.index);
      m.index <= k <= m.groups[0].start + TrimStart(SpanText(s, m.groups[0]))
  {
    var g := SpanText(s, m.groups[0]);
    TrimSpec(g);
    var at := m.groups[0].start + TrimStart(g);
    var c := Captured(s, m);
    IndexOfSpec(s, c, m.index);
    assert c == g[TrimStart(g)..TrimEnd(g)];
    assert at + |c| <= m.groups[0].end;
    assert forall i :: 0 <= i < |c| ==> c[i] == g[TrimStart(g) + i] == s[at + i];
    assert s[at..at + |c|] == c;
    assert OccursAt(s, c, at);
  }

  // extractAllEjsPaths

  /** The paths the `exec` loop of `pat` collects from offset `from` on. */
  function Paths(pat: Pattern, s: string, from: nat): seq<string>
    requires IsDirective(pat) && from <= |s|
    decreases |s| - from
  {
    match Exec(pat, s, from)
    case None => []
    case Some(m) => [Captured(s, m)] + Paths(pat, s, m.end)
  }

  /** The captures of the matches `ms`, in order. */
  function Captures(s: string, ms: seq<RegexMatch>): seq<string>
    requires forall i :: 0 <= i < |ms| ==> WellPlaced(s, ms[i]) && 1 <= |ms[i].groups|
  {
    if ms == [] then [] else [Captured(s, ms[0])] + Captures(s, ms[1..])
  }

  /** The loop collects the capture of every match it sees, in order. */
  lemma {:induction false} PathsSpec(pat: Pattern, s: string, from: nat)
    requires IsDirective(pat) && from <= |s|
    ensures Paths(pat, s, from) == Captures(s, AllMatches(pat, s, from))
    decreases |s| - from
  {
    match Exec(pat, s, from)
    case None =>
    case Some(m) =>
      PathsSpec(pat, s, m.end);
      AllMatchesStep(pat, s, from);
      var rest := AllMatches(pat, s, m.end);
      assert ([m] + rest)[0] == m && ([m] + rest)[1..] == rest;
  }

  /** `extractAllEjsPaths`: the paths of all matches of the first pattern,
      then of the second, then of the third, duplicates kept. */
  function ExtractPaths(text: string): seq<string> {
    PathsBefore(text, |DirectivePatterns|)
  }

  /** The paths come pattern by pattern, in the order the patterns are tried. */
  lemma ExtractPathsOrder(text: string)
    ensures ExtractPaths(text) == Paths(CallDirective, text, 0) + Paths(BareDirective, text, 0) + Paths(StringDirective, text, 0)
  {
    assert PathsBefore(text, 1) == Paths(CallDirective, text, 0);
    assert PathsBefore(text, 2) == PathsBefore(text, 1) + Paths(BareDirective, text, 0);
  }

  method ExtractAllEjsPaths(text: string) returns (paths: seq<string>)
    ensures paths == ExtractPaths(text)
  {
    paths := [];
    for k := 0 to |DirectivePatterns|
      invariant paths == PathsBefore(text, k)
    {
      var found := PatternPaths(DirectivePatterns[k], text);
      PathsBeforeStep(text, k, found);
      paths := paths + found;
    }
  }

  /** A string directive, which the call pattern matches too. */
  const SampleDirective: string := "\"{{%- s(x) %}}\""

  /** A call pattern that matches the sample where it starts finds its path,
      and nothing after it. */
  lemma SampleCall(dash: bool, letters: set<char>)
    requires letters == {'s', 'o'} || letters == {'s'}
    requires MatchCall(SampleDirective, 0, dash, letters).Some?
    ensures MatchCall(SampleDirective, 0, dash, letters) == Some(RegexMatch(0, 15, [Span(8, 9)]))
    ensures MatchCall(SampleDirective, 15, dash, letters).None?
    ensures Captured(SampleDirective, RegexMatch(0, 15, [Span(8, 9)])) == "x"
  {
    var s := SampleDirective;
    var b, c, e, fin := CallSound(s, 0, dash, letters);
    assert c == 6 && e == 9 && fin == 11;
    if MatchCall(s, 15, dash, letters).Some? {
      var _, _, _, _ := CallSound(s, 15, dash, letters);
      assert false;
    }
    assert SpanText(s, Span(8, 9)) == "x";
  }

  lemma SampleCallPaths()
    ensures Paths(CallDirective, SampleDirective, 0) == ["x"]
  {
    CallComplete(SampleDirective, 0, false, {'s', 'o'}, 5, 6, 9, 11);
    SampleCall(false, {'s', 'o'});
  }

  lemma SampleStringPaths()
    ensures Paths(StringDirective, SampleDirective, 0) == ["x"]
  {
    CallComplete(SampleDirective, 0, true, {'s'}, 5, 6, 9, 11);
    SampleCall(true, {'s'});
  }

  /** The output pattern needs `"{{%=`, which the sample never has. */
  lemma SampleBarePaths()
    ensures Paths(BareDirective, SampleDirective, 0) == []
  {
    var s := SampleDirective;
    ExecSpec(BareDirective, s, 0);
    var r := Exec(BareDirective, s, 0);
    if r.Some? {
      var _, _, _ := BareSound(s, r.value.index);
      assert false;
    }
  }

  /** `"{{%- s(x) %}}"` is also a call directive, so its path is extracted
      twice: once by the first pattern, once by the third. */
  lemma ExtractTwiceExample()
    ensures ExtractPaths(SampleDirective) == ["x", "x"]
  {
    SampleCallPaths();
    SampleStringPaths();
    SampleBarePaths();
    ExtractPathsOrder(SampleDirective);
  }

  /** The `exec` loop of one pattern in `extractAllEjsPaths`. */
  method PatternPaths(pattern: Pattern, text: string) returns (paths: seq<string>)
    requires IsDirective(pattern)
    ensures paths == Paths(pattern, text, 0)
  {
    paths := [];
    ghost var all := Paths(pattern, text, 0);
    var from := 0;
    var m := Exec(pattern, text, from);
    while m.Some?
      invariant from <= |text| && m == Exec(pattern, text, from)
      invariant paths + Paths(pattern, text, from) == all
      decreases |text| - from
    {
      var captured := Captured(text, m.value);
      var pathInfo := ParsePath(captured);
      PathsStep(pattern, text, from, paths);
      paths := paths + [pathInfo.path];
      from := m.value.end;
      m := Exec(pattern, text, from);
    }
  }

  /** One turn of the `exec` loop of `pat` appends the capture of its match. */
  lemma PathsStep(pat: Pattern, s: string, from: nat, done: seq<string>)
    requires IsDirective(pat) && from <= |s| && Exec(pat, s, from).Some?
    ensures var m := Exec(pat, s, from).value;
      done + Paths(pat, s, from) == (done + [ParsePath(Captured(s, m)).path]) + Paths(pat, s, m.end)
  {
  }

  /** The paths the first `k` patterns contribute. */
  function PathsBefore(text: string, k: nat): seq<string>
    requires k <= |DirectivePatterns|
  {
    if k == 0 then [] else PathsBefore(text, k - 1) + Paths(DirectivePatterns[k - 1], text, 0)
  }

  lemma PathsBeforeStep(text: string, k: nat, found: seq<string>)
    requires k < |DirectivePatterns| && found == Paths(DirectivePatterns[k], text, 0)
    ensures PathsBefore(text, k + 1) == PathsBefore(text, k) + found
  {
  }

  // getEjsPathAtPosition

  /** The match span `[index, end]` holds the cursor, both ends included. */
  predicate Holds(m: RegexMatch, c: int) {
    m.index <= c <= m.end
  }

  /** The first match of the `exec` loop of `pat` from `from` on that holds the cursor. */
  function Containing(pat: Pattern, s: string, from: nat, c: int): (r: Option<RegexMatch>)
    requires from <= |s|
    ensures r.Some? ==> WellPlaced(s, r.value) && |r.value.groups| == GroupCount(pat) && Holds(r.value, c)
    decreases |s| - from
  {
    match Exec(pat, s, from)
    case None => None
    case Some(m) => if Holds(m, c) then Some(m) else Containing(pat, s, m.end, c)
  }

  /** No match of `ms` holds the cursor. */
  predicate NoneHolds(ms: seq<RegexMatch>, c: int) {
    forall i :: 0 <= i < |ms| ==> !Holds(ms[i], c)
  }

  /** `r` is the match of `ms` that holds the cursor and starts before every
      other such match, or `None` when no match of `ms` holds it. */
  predicate FirstHolding(ms: seq<RegexMatch>, c: int, r: Option<RegexMatch>) {
    match r
    case None => NoneHolds(ms, c)
    case Some(m) => (m in ms && Holds(m, c) &&
      forall i :: 0 <= i < |ms| && ms[i].index < m.index ==> !Holds(ms[i], c))
  }

  /** Checking the first match and then the rest finds the first match holding the cursor. */
  lemma FirstHoldingCons(m: RegexMatch, rest: seq<RegexMatch>, c: int, r: Option<RegexMatch>)
    requires forall i :: 0 <= i < |rest| ==> m.index < rest[i].index
    requires !Holds(m, c) ==> FirstHolding(rest, c, r)
    ensures FirstHolding([m] + rest, c, if Holds(m, c) then Some(m) else r)
  {
    var ms := [m] + rest;
    assert forall i :: 0 < i < |ms| ==> ms[i] == rest[i - 1];
  }

  /** The match found is the first match of the loop that holds the cursor. */
  lemma {:induction false} ContainingSpec(pat: Pattern, s: string, from: nat, c: int)
    requires from <= |s|
    ensures FirstHolding(AllMatches(pat, s, from), c, Containing(pat, s, from, c))
    decreases |s| - from
  {
    match Exec(pat, s, from)
    case None =>
    case Some(m) =>
      AllMatchesStep(pat, s, from);
      ContainingSpec(pat, s, m.end, c);
      FirstHoldingCons(m, AllMatches(pat, s, m.end), c, Containing(pat, s, m.end, c));
  }

  /** For each pattern of `pats`, the first match of its `exec` loop that
      holds the cursor. */
  function Holding(pats: seq<Pattern>, s: string, c: int): seq<Option<RegexMatch>> {
    seq(|pats|, i requires 0 <= i < |pats| => Containing(pats[i], s, 0, c))
  }

  /** The first entry of `found` from the `k`th on that holds a match, with its index. */
  function FirstFound(found: seq<Option<RegexMatch>>, k: nat): (r: Option<(nat, RegexMatch)>)
    requires k <= |found|
    ensures r.Some? ==> k <= r.value.0 < |found| && found[r.value.0] == Some(r.value.1)
    decreases |found| - k
  {
    if k == |found| then None
    else if found[k].Some? then Some((k, found[k].value))
    else FirstFound(found, k + 1)
  }

  /** The entries before the one found hold nothing; when none is found, no
      entry from the `k`th on holds anything. */
  lemma {:induction false} FirstFoundSpec(found: seq<Option<RegexMatch>>, k: nat)
    requires k <= |found|
    ensures match FirstFound(found, k)
      case Some((i, _)) => forall j :: k <= j < i ==> found[j].None?
      case None => forall j :: k <= j < |found| ==> found[j].None?
    decreases |found| - k
  {
    if k < |found| && found[k].None? {
      FirstFoundSpec(found, k + 1);
    }
  }

  /** The first match holding the cursor, trying the patterns of `pats` in
      order, with the pattern that matched it. */
  function MatchHolding(pats: seq<Pattern>, s: string, c: int): (r: Option<(Pattern, RegexMatch)>)
    ensures r.Some? ==> r.value.0 in pats && WellPlaced(s, r.value.1)
    ensures r.Some? ==> |r.value.1.groups| == GroupCount(r.value.0) && Holds(r.value.1, c)
  {
    match FirstFound(Holding(pats, s, c), 0)
    case None => None
    case Some((i, m)) => Some((pats[i], m))
  }

  /** The loops stop at a match holding the cursor: when the patterns before
      the `k`th have none, that match is the one found. */
  lemma MatchHoldingAt(pats: seq<Pattern>, s: string, c: int, k: nat, m: RegexMatch)
    requires k < |pats| && Containing(pats[k], s, 0, c) == Some(m)
    requires FirstFound(Holding(pats, s, c), k) == FirstFound(Holding(pats, s, c), 0)
    ensures MatchHolding(pats, s, c) == Some((pats[k], m))
  {
    assert Holding(pats, s, c)[k] == Some(m);
  }

  /** What the lookup reports for the match `m` on line `line`. */
  function InfoAt(line: nat, s: string, c: nat, m: RegexMatch): EjsInfo
    requires WellPlaced(s, m) && 1 <= |m.groups|
  {
    var captured := Captured(s, m);
    var pathInfo := ParsePath(captured);
    var pathStart := IndexOf(s, captured, m.index);
    EjsInfo(pathInfo.path, pathInfo.prefix,
      Range(Position(line, m.index), Position(line, m.end)),
      s[m.index..m.end], PartialPathAtOffset(pathInfo.path, c - pathStart))
  }

  /** `getEjsPathAtPosition` on the document `content`. */
  function PathAtPosition(content: string, pos: Position): Option<EjsInfo>
    requires pos.line < |Lines(content)|
  {
    var s := LineAt(content, pos.line);
    match MatchHolding(DirectivePatterns, s, pos.character)
    case None => None
    case Some((_, m)) => Some(InfoAt(pos.line, s, pos.character, m))
  }

  method GetEjsPathAtPosition(content: string, pos: Position) returns (r: Option<EjsInfo>)
    requires pos.line < |Lines(content)|
    ensures r == PathAtPosition(content, pos)
  {
    var lineText := LineAt(content, pos.line);
    var c := pos.character;
    for k := 0 to |DirectivePatterns|
      invariant FirstFound(Holding(DirectivePatterns, lineText, c), k) == FirstFound(Holding(DirectivePatterns, lineText, c), 0)
    {
      var pattern := DirectivePatterns[k];
      var from := 0;
      var m := Exec(pattern, lineText, from);
      while m.Some?
        invariant from <= |lineText| && m == Exec(pattern, lineText, from)
        invariant Containing(pattern, lineText, from, c) == Containing(pattern, lineText, 0, c)
        decreases |lineText| - from
      {
        var matchStart := m.value.index;
        var matchEnd := m.value.end;
        if c >= matchStart && c <= matchEnd {
          MatchHoldingAt(DirectivePatterns, lineText, c, k, m.value);
          var captured := Captured(lineText, m.value);
          var pathInfo := ParsePath(captured);
          var pathStartInMatch := IndexOf(lineText, captured, matchStart);
          var cursorOffsetInPath := c - pathStartInMatch;
          var partialPath := PartialPathAtOffset(pathInfo.path, cursorOffsetInPath);
          return Some(EjsInfo(pathInfo.path, pathInfo.prefix,
            Range(Position(pos.line, matchStart), Position(pos.line, matchEnd)),
            lineText[matchStart..matchEnd], partialPath));
        }
        from := m.value.end;
        m := Exec(pattern, lineText, from);
      }
    }
    return None;
  }

  /** The lookup finds nothing exactly when no match of any pattern on the
      cursor's line holds the cursor. */
  lemma PathAtPositionNone(content: string, pos: Position)
    requires pos.line < |Lines(content)|
    ensures var s := LineAt(content, pos.line);
      PathAtPosition(content, pos).None? <==>
        NoneHolds(AllMatches(CallDirective, s, 0), pos.character) &&
        NoneHolds(AllMatches(BareDirective, s, 0), pos.character) &&
        NoneHolds(AllMatches(StringDirective, s, 0), pos.character)
  {
    var s := LineAt(content, pos.line);
    var c := pos.character;
    var found := Holding(DirectivePatterns, s, c);
    FirstFoundSpec(found, 0);
    assert found[0] == Containing(CallDirective, s, 0, c);
    assert found[1] == Containing(BareDirective, s, 0, c);
    assert found[2] == Containing(StringDirective, s, 0, c);
    ContainingSpec(CallDirective, s, 0, c);
    ContainingSpec(BareDirective, s, 0, c);
    ContainingSpec(StringDirective, s, 0, c);
  }

  /** A directive found spans a match on the cursor's line that holds the
      cursor; it is the first such match of the first pattern that has one,
      its text is the match and its path the trimmed capture. */
  lemma PathAtPositionFound(content: string, pos: Position)
    requires pos.line < |Lines(content)| && PathAtPosition(content, pos).Some?
    ensures var s := LineAt(content, pos.line);
      var info := PathAtPosition(content, pos).value;
      var found := Holding(DirectivePatterns, s, pos.character);
      FirstFound(found, 0).Some? &&
      var (j, m) := FirstFound(found, 0).value;
      (forall i :: 0 <= i < j ==> Containing(DirectivePatterns[i], s, 0, pos.character).None?) &&
      Containing(DirectivePatterns[j], s, 0, pos.character) == Some(m) &&
      info.range == Range(Position(pos.line, m.index), Position(pos.line, m.end)) &&
      m.index <= pos.character <= m.end <= |s| &&
      info.fullMatch == s[m.index..m.end] &&
      info.path == Captured(s, m)
  {
    FirstFoundSpec(Holding(DirectivePatterns, LineAt(content, pos.line), pos.character), 0);
  }

  /** The partial path of a directive found is measured from where the path
      is found again in the line, searching from the match start, which lies
      inside the match. With the cursor's offset `d` from there outside the
      path it is the whole path; otherwise it is the prefix of the path that
      ends at the first dot at or after `d`, or the whole path when no dot
      follows. */
  lemma PathAtPositionPartial(content: string, pos: Position)
    requires pos.line < |Lines(content)| && PathAtPosition(content, pos).Some?
    ensures var s := LineAt(content, pos.line);
      var info := PathAtPosition(content, pos).value;
      FirstFound(Holding(DirectivePatterns, s, pos.character), 0).Some? &&
      var m := FirstFound(Holding(DirectivePatterns, s, pos.character), 0).value.1;
      var k := IndexOf(s, info.path, m.index);
      var d := pos.character - k;
      m.index <= k <= m.end &&
      StartsWith(info.path, info.partialPath) &&
      (d < 0 || d > |info.path| ==> info.partialPath == info.path) &&
      (0 <= d <= |info.path| ==>
        d <= |info.partialPath| &&
        (forall i :: d <= i < |info.partialPath| ==> info.partialPath[i] != '.') &&
        (info.partialPath == info.path || info.path[|info.partialPath|] == '.'))
  {
    var s := LineAt(content, pos.line);
    var m := FirstFound(Holding(DirectivePatterns, s, pos.character), 0).value.1;
    InfoAtPartial(pos.line, s, pos.character, m);
  }

  /** The same, stated of the match `m` itself. */
  lemma InfoAtPartial(line: nat, s: string, c: nat, m: RegexMatch)
    requires WellPlaced(s, m) && 1 <= |m.groups|
    ensures var info := InfoAt(line, s, c, m);
      var k := IndexOf(s, info.path, m.index);
      var d := c - k;
      m.index <= k <= m.end &&
      StartsWith(info.path, info.partialPath) &&
      (d < 0 || d > |info.path| ==> info.partialPath == info.path) &&
      (0 <= d <= |info.path| ==>
        d <= |info.partialPath| &&
        (forall i :: d <= i < |info.partialPath| ==> info.partialPath[i] != '.') &&
        (info.partialPath == info.path || info.path[|info.partialPath|] == '.'))
  {
    var captured := Captured(s, m);
    CapturedFound(s, m);
    TrimSpec(SpanText(s, m.groups[0]));
    ParsePathSpec(captured);
    PartialPathSpec(captured, c - IndexOf(s, captured, m.index));
  }
}
