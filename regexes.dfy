/** The extension's fixed regular expressions, each written out as the
    matcher that JavaScript's backtracking engine amounts to for it, and the
    `g`-flag `exec` loop: leftmost match at or after `lastIndex`, then resume
    at the end of that match. */
module Regexes {
  import opened Wrappers
  import opened Text

  datatype Pattern =
      /** A JSON key declaration: `"`, the key, `"`, white space, `:`. */
    | KeyDecl(key: string)
      /** Quoted call directive: `"{{%`, an optional `-`, white space, `s` or
          `o`, `(`, group 1 = a non-empty run free of `)`, `)`, white space, `%}}"`. */
    | CallDirective
      /** Quoted output directive: `"{{%=`, white space, group 1 = the
          shortest non-empty run free of `}` after which white space and
          `%}}"` follow. */
    | BareDirective
      /** Quoted string directive: as CallDirective with the `-` required and
          only `s` allowed. */
    | StringDirective
      /** Unclosed call while typing: `{{%`, an optional `-`, white space,
          group 1 = `s` or `o`, `(`, group 2 = the run free of `)` (maybe empty). */
    | OpenCall
      /** Unclosed output while typing: `{{%=`, white space, group 1 = the
          run free of `}` and `%` (maybe empty). */
    | OpenBare

  /** A piece `s[start..end]` of the subject. */
  datatype Span = Span(start: nat, end: nat)

  /** The result of `exec` on a subject `s`: `match.index`, the end of
      `match[0]` (its text is `s[index..end]`) and the spans of the groups
      `match[1..]`. */
  datatype RegexMatch = RegexMatch(index: nat, end: nat, groups: seq<Span>)

  /** The text of a span of `s`. */
  function SpanText(s: string, g: Span): string
    requires g.start <= g.end <= |s|
  {
    s[g.start..g.end]
  }

  /** `m` is a non-empty match in `s`, and its groups lie inside it. */
  predicate WellPlaced(s: string, m: RegexMatch) {
    && m.index < m.end <= |s|
    && forall i :: 0 <= i < |m.groups| ==> m.index <= m.groups[i].start <= m.groups[i].end <= m.end
  }

  /** The end of the run of characters outside `stops` that starts at `i`. */
  function RunEnd(s: string, i: nat, stops: set<char>): (j: nat)
    requires i <= |s|
    ensures i <= j <= |s|
    decreases |s| - i
  {
    if i == |s| || s[i] in stops then i else RunEnd(s, i + 1, stops)
  }

  /** RunEnd stops at the first character in `stops`. */
  lemma {:induction false} RunEndSpec(s: string, i: nat, stops: set<char>)
    requires i <= |s|
    ensures forall k :: i <= k < RunEnd(s, i, stops) ==> s[k] !in stops
    ensures RunEnd(s, i, stops) < |s| ==> s[RunEnd(s, i, stops)] in stops
    decreases |s| - i
  {
    if i < |s| && s[i] !in stops {
      RunEndSpec(s, i + 1, stops);
    }
  }

  /** `{{%` starts at `k`. */
  predicate OpenAt(s: string, k: int) {
    0 <= k && k + 3 <= |s| && s[k] == '{' && s[k + 1] == '{' && s[k + 2] == '%'
  }

  /** `"{{%` starts at `k`. */
  predicate QuotedOpenAt(s: string, k: int) {
    0 <= k < |s| && s[k] == '"' && OpenAt(s, k + 1)
  }

  /** `%}}"` starts at `k`. */
  predicate QuotedCloseAt(s: string, k: int) {
    0 <= k && k + 4 <= |s| && s[k] == '%' && s[k + 1] == '}' && s[k + 2] == '}' && s[k + 3] == '"'
  }

  /** `"{{%=` starts at `k`. */
  predicate BareOpenAt(s: string, k: int) {
    QuotedOpenAt(s, k) && k + 4 < |s| && s[k + 4] == '='
  }

  /** `%}}"`, possibly after white space, starts at `k`. */
  predicate ClosesAt(s: string, k: nat)
    requires k <= |s|
  {
    QuotedCloseAt(s, SkipSpace(s, k))
  }

  function MatchKeyDecl(s: string, key: string, p: nat): (r: Option<RegexMatch>)
    requires p <= |s|
    ensures r.Some? ==> r.value.index == p < r.value.end <= |s|
  {
    var quoted := "\"" + key + "\"";
    if !OccursAt(s, quoted, p) then None
    else
      var c := SkipSpace(s, p + |quoted|);
      if c < |s| && s[c] == ':' then Some(RegexMatch(p, c + 1, [])) else None
  }

  /** The opening of a quoted call directive at `p`, up to and including `(`:
      the position right after it. `dash` says whether the `-` is required. */
  function CallOpening(s: string, p: nat, dash: bool, letters: set<char>): (g: Option<nat>)
    requires p <= |s|
    ensures g.Some? ==> p + 6 <= g.value <= |s| && QuotedOpenAt(s, p)
  {
    if !QuotedOpenAt(s, p) then None
    else
      var a := p + 4;
      var hasDash := a < |s| && s[a] == '-';
      if dash && !hasDash then None
      else
        var c := SkipSpace(s, if hasDash then a + 1 else a);
        if c + 1 < |s| && s[c] in letters && s[c + 1] == '(' then Some(c + 2) else None
  }

  /** The rest of a quoted call directive from its argument at `g`: the end
      of the argument and the end of the directive. */
  function CallClosing(s: string, g: nat): (r: Option<(nat, nat)>)
    requires g <= |s|
    ensures r.Some? ==> g < r.value.0 < r.value.1 <= |s|
  {
    var e := RunEnd(s, g, {')'});
    if e == g || e == |s| then None
    else
      var f := SkipSpace(s, e + 1);
      if QuotedCloseAt(s, f) then Some((e, f + 4)) else None
  }

  /** The two quoted call forms. */
  function MatchCall(s: string, p: nat, dash: bool, letters: set<char>): (r: Option<RegexMatch>)
    requires p <= |s|
    ensures r.Some? ==> r.value.index == p < r.value.end <= |s|
  {
    match CallOpening(s, p, dash, letters)
    case None => None
    case Some(g) =>
      match CallClosing(s, g)
      case None => None
      case Some((e, z)) => Some(RegexMatch(p, z, [Span(g, e)]))
  }

  /** The lazy group of the output directive, started at `w` and tried with
      end `k`, `k + 1`, ...: the first end after which the directive closes,
      unless a `}` comes first. */
  function LazyEnd(s: string, w: nat, k: nat): (r: Option<nat>)
    requires w < k
    ensures r.Some? ==> k <= r.value <= |s| && SkipSpace(s, r.value) + 4 <= |s|
    decreases |s| + 1 - k
  {
    if k > |s| then None
    else if s[k - 1] == '}' then None
    else if ClosesAt(s, k) then Some(k)
    else LazyEnd(s, w, k + 1)
  }

  /** The lazy group ends where the directive closes, and holds no `}`. */
  lemma {:induction false} LazyEndSpec(s: string, w: nat, k: nat)
    requires w < k
    ensures LazyEnd(s, w, k).Some? ==> ClosesAt(s, LazyEnd(s, w, k).value)
    ensures LazyEnd(s, w, k).Some? ==> forall i :: k - 1 <= i < LazyEnd(s, w, k).value ==> s[i] != '}'
    decreases |s| + 1 - k
  {
    if k <= |s| && s[k - 1] != '}' && !ClosesAt(s, k) {
      LazyEndSpec(s, w, k + 1);
    }
  }

  function MatchBare(s: string, p: nat): (r: Option<RegexMatch>)
    requires p <= |s|
    ensures r.Some? ==> r.value.index == p < r.value.end <= |s|
  {
    if !BareOpenAt(s, p) then None
    else
      var q := p + 5;
      var w := SkipSpace(s, q);
      match LazyEnd(s, w, w + 1)
      case Some(e) =>
        var f := SkipSpace(s, e);
        Some(RegexMatch(p, f + 4, [Span(w, e)]))
      case None =>
        // Backtracking hands the last leading white-space character to the group.
        if w > q && QuotedCloseAt(s, w)
        then Some(RegexMatch(p, w + 4, [Span(w - 1, w)]))
        else None
  }

  function MatchOpenCall(s: string, p: nat): (r: Option<RegexMatch>)
    requires p <= |s|
    ensures r.Some? ==> r.value.index == p < r.value.end <= |s|
  {
    if !OpenAt(s, p) then None
    else
      var a := p + 3;
      var c := SkipSpace(s, if a < |s| && s[a] == '-' then a + 1 else a);
      if !(c + 1 < |s| && s[c] in {'s', 'o'} && s[c + 1] == '(') then None
      else
        var g := c + 2;
        var e := RunEnd(s, g, {')'});
        Some(RegexMatch(p, e, [Span(c, c + 1), Span(g, e)]))
  }

  function MatchOpenBare(s: string, p: nat): (r: Option<RegexMatch>)
    requires p <= |s|
    ensures r.Some? ==> r.value.index == p < r.value.end <= |s|
  {
    if !(OpenAt(s, p) && p + 3 < |s| && s[p + 3] == '=') then None
    else
      var w := SkipSpace(s, p + 4);
      var e := RunEnd(s, w, {'}', '%'});
      Some(RegexMatch(p, e, [Span(w, e)]))
  }

  /** The match of `pat` that starts exactly at `p`, if any. */
  function MatchAt(pat: Pattern, s: string, p: nat): (r: Option<RegexMatch>)
    requires p <= |s|
    ensures r.Some? ==> r.value.index == p < r.value.end <= |s|
  {
    match pat
    case KeyDecl(key) => MatchKeyDecl(s, key, p)
    case CallDirective => MatchCall(s, p, false, {'s', 'o'})
    case BareDirective => MatchBare(s, p)
    case StringDirective => MatchCall(s, p, true, {'s'})
    case OpenCall => MatchOpenCall(s, p)
    case OpenBare => MatchOpenBare(s, p)
  }

  /** `pattern.exec(s)` with `lastIndex == from`: the leftmost match starting
      at or after `from` (ExecSpec). */
  function Exec(pat: Pattern, s: string, from: nat): (r: Option<RegexMatch>)
    requires from <= |s|
    ensures r.Some? ==> from <= r.value.index && WellPlaced(s, r.value) && |r.value.groups| == GroupCount(pat)
    decreases |s| - from
  {
    var m := MatchAt(pat, s, from);
    if m.Some? then MatchPlaced(pat, s, from); m
    else if from == |s| then None
    else Exec(pat, s, from + 1)
  }

  /** `exec` finds a match exactly when there is one at or after `from`, and
      then the leftmost one. */
  lemma {:induction false} ExecSpec(pat: Pattern, s: string, from: nat)
    requires from <= |s|
    ensures var r := Exec(pat, s, from);
      (r.Some? ==> MatchAt(pat, s, r.value.index) == r) &&
      (r.Some? ==> forall q :: from <= q < r.value.index ==> MatchAt(pat, s, q).None?) &&
      (r.None? ==> forall q :: from <= q <= |s| ==> MatchAt(pat, s, q).None?)
    decreases |s| - from
  {
    if MatchAt(pat, s, from).None? && from < |s| {
      ExecSpec(pat, s, from + 1);
    }
  }

  /** Every match a `g`-flag `exec` loop sees when it starts with
      `lastIndex == from`: each is the leftmost match at or after the end of
      the one before, so they are in order and do not overlap. */
  function AllMatches(pat: Pattern, s: string, from: nat): (ms: seq<RegexMatch>)
    requires from <= |s|
    ensures forall i :: 0 <= i < |ms| ==>
      from <= ms[i].index && WellPlaced(s, ms[i]) && |ms[i].groups| == GroupCount(pat)
    ensures forall i :: 0 < i < |ms| ==> ms[i - 1].end <= ms[i].index
    ensures ms == [] <==> Exec(pat, s, from).None?
    ensures ms != [] ==> Exec(pat, s, from) == Some(ms[0])
    decreases |s| - from
  {
    match Exec(pat, s, from)
    case None => []
    case Some(m) =>
      var rest := AllMatches(pat, s, m.end);
      assert forall i :: 0 < i < |rest| + 1 ==> ([m] + rest)[i] == rest[i - 1];
      [m] + rest
  }

  /** One turn of the `exec` loop: the first match, then the matches from its end. */
  lemma AllMatchesStep(pat: Pattern, s: string, from: nat)
    requires from <= |s| && Exec(pat, s, from).Some?
    ensures AllMatches(pat, s, from) == [Exec(pat, s, from).value] + AllMatches(pat, s, Exec(pat, s, from).value.end)
  {
  }

  /** Each match the loop sees is what the pattern matches where it starts. */
  lemma {:induction false} AllMatchesSpec(pat: Pattern, s: string, from: nat)
    requires from <= |s|
    ensures var ms := AllMatches(pat, s, from);
      forall i :: 0 <= i < |ms| ==> MatchAt(pat, s, ms[i].index) == Some(ms[i])
    decreases |s| - from
  {
    match Exec(pat, s, from)
    case None =>
    case Some(m) =>
      ExecSpec(pat, s, from);
      AllMatchesSpec(pat, s, m.end);
      AllMatchesStep(pat, s, from);
  }

  // Every match is a piece of the subject, and its groups are pieces of the match.

  lemma KeyDeclPlaced(s: string, key: string, p: nat)
    requires p <= |s| && MatchKeyDecl(s, key, p).Some?
    ensures WellPlaced(s, MatchKeyDecl(s, key, p).value)
  {
  }

  lemma CallPlaced(s: string, p: nat, dash: bool, letters: set<char>)
    requires p <= |s| && MatchCall(s, p, dash, letters).Some?
    ensures WellPlaced(s, MatchCall(s, p, dash, letters).value)
  {
  }

  lemma BarePlaced(s: string, p: nat)
    requires p <= |s| && MatchBare(s, p).Some?
    ensures WellPlaced(s, MatchBare(s, p).value)
  {
  }

  lemma OpenCallPlaced(s: string, p: nat)
    requires p <= |s| && MatchOpenCall(s, p).Some?
    ensures WellPlaced(s, MatchOpenCall(s, p).value)
  {
  }

  lemma OpenBarePlaced(s: string, p: nat)
    requires p <= |s| && MatchOpenBare(s, p).Some?
    ensures WellPlaced(s, MatchOpenBare(s, p).value)
  {
  }

  /** The number of capture groups of each pattern. */
  function GroupCount(pat: Pattern): nat {
    match pat
    case KeyDecl(_) => 0
    case OpenCall => 2
    case _ => 1
  }

  /** Whatever `pat` matches at `p` is a piece of `s` starting at `p`, with
      one span per capture group of the pattern. */
  lemma MatchPlaced(pat: Pattern, s: string, p: nat)
    requires p <= |s| && MatchAt(pat, s, p).Some?
    ensures WellPlaced(s, MatchAt(pat, s, p).value)
    ensures |MatchAt(pat, s, p).value.groups| == GroupCount(pat)
  {
    match pat
    case KeyDecl(key) => KeyDeclPlaced(s, key, p);
    case CallDirective => CallPlaced(s, p, false, {'s', 'o'});
    case BareDirective => BarePlaced(s, p);
    case StringDirective => CallPlaced(s, p, true, {'s'});
    case OpenCall => OpenCallPlaced(s, p);
    case OpenBare => OpenBarePlaced(s, p);
  }

  // What each quoted pattern recognises, stated by the positions where its
  // pieces begin and end.

  /** No `c` in `s[i..j]`. */
  predicate Free(s: string, i: nat, j: nat, c: char)
    requires i <= j <= |s|
  {
    forall k :: i <= k < j ==> s[k] != c
  }

  /** A quoted call directive starts at `p`: `"{{%`, the `-` when `b == p + 5`
      (required when `dash`), white space up to the function letter at `c`,
      `(`, the argument `s[c + 2..e]` (non-empty, free of `)`), `)`, white
      space up to `fin`, and `%}}"` at `fin`. */
  predicate CallShape(s: string, p: nat, dash: bool, letters: set<char>, b: nat, c: nat, e: nat, fin: nat) {
    && QuotedOpenAt(s, p)
    && (b == p + 4 || (b == p + 5 && p + 4 < |s| && s[p + 4] == '-'))
    && (dash ==> b == p + 5)
    && b <= c && c + 2 < e < fin && fin + 4 <= |s|
    && SpaceBetween(s, b, c) && s[c] in letters && s[c + 1] == '('
    && Free(s, c + 2, e, ')') && s[e] == ')'
    && SpaceBetween(s, e + 1, fin) && QuotedCloseAt(s, fin)
  }

  /** A quoted output directive starts at `p`: `"{{%=`, white space up to `w`,
      the argument `s[w..e]` (non-empty, free of `}`), white space up to `f`,
      and `%}}"` at `f`. */
  predicate BareShape(s: string, p: nat, w: nat, e: nat, f: nat) {
    && BareOpenAt(s, p) && p + 5 <= w < e <= f && f + 4 <= |s|
    && SpaceBetween(s, p + 5, w) && Free(s, w, e, '}')
    && SpaceBetween(s, e, f) && QuotedCloseAt(s, f)
  }

  /** SkipSpace stops at the first character that is not white space. */
  lemma {:induction false} SkipSpaceTo(s: string, i: nat, j: nat)
    requires i <= j <= |s| && SpaceBetween(s, i, j) && (j == |s| || !IsSpace(s[j]))
    ensures SkipSpace(s, i) == j
    decreases j - i
  {
    if i < j {
      SkipSpaceTo(s, i + 1, j);
    }
  }

  /** RunEnd stops at the first character in `stops`. */
  lemma {:induction false} RunEndTo(s: string, i: nat, j: nat, stops: set<char>)
    requires i <= j <= |s| && (forall k :: i <= k < j ==> s[k] !in stops)
    requires j == |s| || s[j] in stops
    ensures RunEnd(s, i, stops) == j
    decreases j - i
  {
    if i < j {
      RunEndTo(s, i + 1, j, stops);
    }
  }

  /** Between `w + 1` and the end of an argument that holds no `}` and does
      not end in white space, the directive never closes: a closing `%}}"`
      would need a `}` inside the argument or right after it. */
  lemma {:induction false} LazyEndOver(s: string, w: nat, k: nat, e: nat)
    requires w < k <= e < |s| && !IsSpace(s[e - 1])
    requires forall i :: w <= i < e ==> s[i] != '}'
    requires ClosesAt(s, e)
    ensures LazyEnd(s, w, k) == Some(e)
    decreases e - k
  {
    if k < e {
      var j := SkipSpace(s, k);
      SkipSpaceSpec(s, k);
      assert j < e;
      SkipSpaceSpec(s, e);
      assert s[e] != '}';
      assert !ClosesAt(s, k);
      LazyEndOver(s, w, k + 1, e);
    }
  }

  /** Whatever a quoted call pattern matches is a quoted call directive, and
      the group captures its argument. */
  lemma CallSound(s: string, p: nat, dash: bool, letters: set<char>) returns (b: nat, c: nat, e: nat, fin: nat)
    requires p <= |s| && MatchCall(s, p, dash, letters).Some?
    ensures CallShape(s, p, dash, letters, b, c, e, fin)
    ensures MatchCall(s, p, dash, letters) == Some(RegexMatch(p, fin + 4, [Span(c + 2, e)]))
  {
    var a := p + 4;
    b := if a < |s| && s[a] == '-' then a + 1 else a;
    c := SkipSpace(s, b);
    e := RunEnd(s, c + 2, {')'});
    fin := SkipSpace(s, e + 1);
    CallShapeFrom(s, p, dash, letters, b, c, e, fin);
  }

  lemma CallShapeFrom(s: string, p: nat, dash: bool, letters: set<char>, b: nat, c: nat, e: nat, fin: nat)
    requires QuotedOpenAt(s, p) && (b == p + 4 || (b == p + 5 && p + 4 < |s| && s[p + 4] == '-'))
    requires (dash ==> b == p + 5) && b <= |s| && c == SkipSpace(s, b)
    requires c + 1 < |s| && s[c] in letters && s[c + 1] == '('
    requires e == RunEnd(s, c + 2, {')'}) && c + 2 < e < |s|
    requires fin == SkipSpace(s, e + 1) && QuotedCloseAt(s, fin)
    ensures CallShape(s, p, dash, letters, b, c, e, fin)
  {
    SkipSpaceSpec(s, b);
    RunEndSpec(s, c + 2, {')'});
    SkipSpaceSpec(s, e + 1);
  }

  lemma CallOpeningTo(s: string, p: nat, dash: bool, letters: set<char>, b: nat, c: nat, e: nat, fin: nat)
    requires '-' !in letters && forall ch :: ch in letters ==> !IsSpace(ch)
    requires CallShape(s, p, dash, letters, b, c, e, fin)
    ensures CallOpening(s, p, dash, letters) == Some(c + 2)
  {
    var a := p + 4;
    assert (a < |s| && s[a] == '-') <==> b == a + 1 by {
      if b == a && a < c {
        assert IsSpace(s[a]);
      }
    }
    SkipSpaceTo(s, b, c);
  }

  lemma CallClosingTo(s: string, p: nat, dash: bool, letters: set<char>, b: nat, c: nat, e: nat, fin: nat)
    requires CallShape(s, p, dash, letters, b, c, e, fin)
    ensures CallClosing(s, c + 2) == Some((e, fin + 4))
  {
    RunEndTo(s, c + 2, e, {')'});
    SkipSpaceTo(s, e + 1, fin);
  }

  /** Any quoted call directive is matched where it starts, and the group
      captures its argument. */
  lemma CallComplete(s: string, p: nat, dash: bool, letters: set<char>, b: nat, c: nat, e: nat, fin: nat)
    requires '-' !in letters && forall ch :: ch in letters ==> !IsSpace(ch)
    requires CallShape(s, p, dash, letters, b, c, e, fin)
    ensures MatchCall(s, p, dash, letters) == Some(RegexMatch(p, fin + 4, [Span(c + 2, e)]))
  {
    CallOpeningTo(s, p, dash, letters, b, c, e, fin);
    CallClosingTo(s, p, dash, letters, b, c, e, fin);
  }

  /** Whatever the quoted string-directive pattern matches, the quoted call
      pattern matches too, with the same span and capture. */
  lemma StringIsCall(s: string, p: nat)
    requires p <= |s| && MatchCall(s, p, true, {'s'}).Some?
    ensures MatchCall(s, p, false, {'s', 'o'}) == MatchCall(s, p, true, {'s'})
  {
    var b, c, e, fin := CallSound(s, p, true, {'s'});
    CallComplete(s, p, false, {'s', 'o'}, b, c, e, fin);
  }

  lemma BareShapeLazy(s: string, p: nat, w: nat, e: nat, f: nat)
    requires p <= |s| && BareOpenAt(s, p) && w == SkipSpace(s, p + 5)
    requires LazyEnd(s, w, w + 1) == Some(e) && f == SkipSpace(s, e)
    ensures BareShape(s, p, w, e, f)
  {
    SkipSpaceSpec(s, p + 5);
    LazyEndSpec(s, w, w + 1);
    SkipSpaceSpec(s, e);
  }

  lemma BareShapeFallback(s: string, p: nat, w: nat)
    requires p <= |s| && BareOpenAt(s, p) && w == SkipSpace(s, p + 5)
    requires w > p + 5 && QuotedCloseAt(s, w)
    ensures BareShape(s, p, w - 1, w, w)
  {
    SkipSpaceSpec(s, p + 5);
    assert IsSpace(s[w - 1]);
  }

  /** Whatever the quoted output pattern matches is a quoted output directive,
      and the group captures its argument. */
  lemma BareSound(s: string, p: nat) returns (w: nat, e: nat, f: nat)
    requires p <= |s| && MatchBare(s, p).Some?
    ensures BareShape(s, p, w, e, f)
    ensures MatchBare(s, p) == Some(RegexMatch(p, f + 4, [Span(w, e)]))
  {
    var w0 := SkipSpace(s, p + 5);
    if LazyEnd(s, w0, w0 + 1).Some? {
      w, e := w0, LazyEnd(s, w0, w0 + 1).value;
      f := SkipSpace(s, e);
      BareShapeLazy(s, p, w, e, f);
    } else {
      w, e, f := w0 - 1, w0, w0;
      BareShapeFallback(s, p, w0);
    }
  }

  /** Any quoted output directive whose argument neither starts nor ends
      with white space is matched where it starts, and the group captures
      exactly the argument. */
  lemma BareComplete(s: string, p: nat, w: nat, e: nat, f: nat)
    requires BareShape(s, p, w, e, f)
    requires !IsSpace(s[w]) && !IsSpace(s[e - 1])
    ensures MatchBare(s, p) == Some(RegexMatch(p, f + 4, [Span(w, e)]))
  {
    SkipSpaceTo(s, p + 5, w);
    SkipSpaceTo(s, e, f);
    LazyEndOver(s, w, w + 1, e);
  }
}
