/** The JavaScript string operations the extension relies on, written out with
    the clamping and "not found" conventions of the ECMAScript built-ins, and
    the position arithmetic of an editor document (lines end at '\n'). */
module Text {

  /** The white space of JavaScript: what `\s` matches in a regular expression
      and what `String.prototype.trim` removes (WhiteSpace and LineTerminator). */
  predicate IsSpace(c: char) {
    || c == ' ' || c == '\t' || c == '\n' || c == '\r' || c == '\U{B}' || c == '\U{C}'
    || c == '\U{A0}' || c == '\U{1680}' || ('\U{2000}' <= c <= '\U{200A}')
    || c == '\U{2028}' || c == '\U{2029}' || c == '\U{202F}' || c == '\U{205F}'
    || c == '\U{3000}' || c == '\U{FEFF}'
  }

  predicate AllSpace(s: string) {
    forall i {:trigger IsSpace(s[i])} :: 0 <= i < |s| ==> IsSpace(s[i])
  }

  /** Every character of `s[a..b]` is white space. */
  predicate SpaceBetween(s: string, a: nat, b: nat)
    requires a <= b <= |s|
  {
    forall i {:trigger IsSpace(s[i])} :: a <= i < b ==> IsSpace(s[i])
  }

  /** The end of the run of white space that starts at `i`. */
  function SkipSpace(s: string, i: nat): (j: nat)
    requires i <= |s|
    ensures i <= j <= |s|
    decreases |s| - i
  {
    if i == |s| || !IsSpace(s[i]) then i else SkipSpace(s, i + 1)
  }

  /** SkipSpace stops at the first character that is not white space. */
  lemma {:induction false} SkipSpaceSpec(s: string, i: nat)
    requires i <= |s|
    ensures SpaceBetween(s, i, SkipSpace(s, i))
    ensures SkipSpace(s, i) < |s| ==> !IsSpace(s[SkipSpace(s, i)])
    decreases |s| - i
  {
    if i < |s| && IsSpace(s[i]) {
      SkipSpaceSpec(s, i + 1);
    }
  }

  /** The start of the run of white space that ends at `j`, not going below `lo`. */
  function SkipSpaceBack(s: string, lo: nat, j: nat): (k: nat)
    requires lo <= j <= |s|
    ensures lo <= k <= j
    decreases j
  {
    if j == lo || !IsSpace(s[j - 1]) then j else SkipSpaceBack(s, lo, j - 1)
  }

  /** SkipSpaceBack stops after the last character that is not white space. */
  lemma {:induction false} SkipSpaceBackSpec(s: string, lo: nat, j: nat)
    requires lo <= j <= |s|
    ensures SpaceBetween(s, SkipSpaceBack(s, lo, j), j)
    ensures SkipSpaceBack(s, lo, j) > lo ==> !IsSpace(s[SkipSpaceBack(s, lo, j) - 1])
    decreases j
  {
    if j > lo && IsSpace(s[j - 1]) {
      SkipSpaceBackSpec(s, lo, j - 1);
    }
  }

  /** Where `Trim(s)` starts within `s`. */
  function TrimStart(s: string): (a: nat)
    ensures a <= |s|
  {
    SkipSpace(s, 0)
  }

  /** Where `Trim(s)` ends within `s`. */
  function TrimEnd(s: string): (b: nat)
    ensures TrimStart(s) <= b <= |s|
  {
    SkipSpaceBack(s, TrimStart(s), |s|)
  }

  /** `String.prototype.trim`. */
  function Trim(s: string): (r: string)
    ensures |r| <= |s|
  {
    s[TrimStart(s)..TrimEnd(s)]
  }

  /** Trim drops the white space at both ends and nothing else: what it
      returns is the middle of `s`, everything around it is white space, and
      it neither starts nor ends with white space. */
  lemma TrimSpec(s: string)
    ensures var a, b := TrimStart(s), TrimEnd(s);
      && Trim(s) == s[a..b]
      && SpaceBetween(s, 0, a) && SpaceBetween(s, b, |s|)
      && (Trim(s) == [] || (!IsSpace(Trim(s)[0]) && !IsSpace(Trim(s)[|Trim(s)| - 1])))
  {
    SkipSpaceSpec(s, 0);
    SkipSpaceBackSpec(s, TrimStart(s), |s|);
  }

  /** `sub` occurs in `s` starting at index `k`. */
  predicate OccursAt(s: string, sub: string, k: int) {
    0 <= k && k + |sub| <= |s| && s[k..k + |sub|] == sub
  }

  /** ECMAScript's clamping of a position argument into [0, len]. */
  function Clamp(n: int, len: nat): (r: nat)
    ensures r <= len
    ensures 0 <= n <= len ==> r == n
  {
    if n < 0 then 0 else if n > len then len else n
  }

  function IndexFrom(s: string, sub: string, k: nat): (r: int)
    requires k <= |s|
    ensures r == -1 || (k <= r && r + |sub| <= |s|)
    decreases |s| - k
  {
    if k + |sub| > |s| then -1
    else if s[k..k + |sub|] == sub then k
    else if k == |s| then -1
    else IndexFrom(s, sub, k + 1)
  }

  lemma {:induction false} IndexFromSpec(s: string, sub: string, k: nat)
    requires k <= |s|
    ensures var r := IndexFrom(s, sub, k);
      (r == -1 || OccursAt(s, sub, r)) &&
      forall j :: k <= j && (r == -1 || j < r) ==> !OccursAt(s, sub, j)
    decreases |s| - k
  {
    if k + |sub| <= |s| && s[k..k + |sub|] != sub && k < |s| {
      IndexFromSpec(s, sub, k + 1);
    }
  }

  /** `s.indexOf(sub, from)`: the first occurrence of `sub` at or after the
      clamped `from`, or -1 (IndexOfSpec). */
  function IndexOf(s: string, sub: string, from: int): (r: int)
    ensures r == -1 || (Clamp(from, |s|) <= r && r + |sub| <= |s|)
  {
    IndexFrom(s, sub, Clamp(from, |s|))
  }

  /** `indexOf` finds an occurrence, and none comes before it from `from` on. */
  lemma IndexOfSpec(s: string, sub: string, from: int)
    ensures var r := IndexOf(s, sub, from);
      (r == -1 || OccursAt(s, sub, r)) &&
      forall j :: Clamp(from, |s|) <= j && (r == -1 || j < r) ==> !OccursAt(s, sub, j)
  {
    IndexFromSpec(s, sub, Clamp(from, |s|));
  }

  function LastIndexBelow(s: string, sub: string, k: int): (r: int)
    requires k <= |s|
    ensures r == -1 || 0 <= r <= k
    decreases k + 1
  {
    if k < 0 then -1
    else if OccursAt(s, sub, k) then k
    else LastIndexBelow(s, sub, k - 1)
  }

  lemma {:induction false} LastIndexBelowSpec(s: string, sub: string, k: int)
    requires k <= |s|
    ensures var r := LastIndexBelow(s, sub, k);
      (r == -1 || OccursAt(s, sub, r)) && forall j :: r < j <= k ==> !OccursAt(s, sub, j)
    decreases k + 1
  {
    if k >= 0 && !OccursAt(s, sub, k) {
      LastIndexBelowSpec(s, sub, k - 1);
    }
  }

  /** `s.lastIndexOf(sub)`: the last occurrence of `sub`, or -1 (LastIndexOfSpec). */
  function LastIndexOf(s: string, sub: string): (r: int)
    ensures -1 <= r <= |s|
  {
    LastIndexBelow(s, sub, |s|)
  }

  /** `lastIndexOf` finds an occurrence, and none comes after it. */
  lemma LastIndexOfSpec(s: string, sub: string)
    ensures var r := LastIndexOf(s, sub);
      (r == -1 || OccursAt(s, sub, r)) && forall j :: r < j ==> !OccursAt(s, sub, j)
  {
    LastIndexBelowSpec(s, sub, |s|);
    assert forall j :: j > |s| ==> !OccursAt(s, sub, j);
  }

  lemma OccursAtChar(s: string, c: char, k: int)
    ensures OccursAt(s, [c], k) <==> 0 <= k < |s| && s[k] == c
  {
    if 0 <= k < |s| {
      assert s[k..k + 1] == [s[k]];
    }
  }

  /** `s.substring(a, b)`: both ends clamped into [0, |s|], swapped if reversed. */
  function Substring(s: string, a: int, b: int): (r: string)
    ensures var x, y := Clamp(a, |s|), Clamp(b, |s|);
      if x <= y then |r| == y - x && r == s[x..y] else |r| == x - y && r == s[y..x]
  {
    var x, y := Clamp(a, |s|), Clamp(b, |s|);
    if x <= y then s[x..y] else s[y..x]
  }

  function StartsWith(s: string, prefix: string): bool {
    |prefix| <= |s| && s[..|prefix|] == prefix
  }

  function EndsWith(s: string, suffix: string): bool {
    |suffix| <= |s| && s[|s| - |suffix|..] == suffix
  }

  /** `s.replace(pattern, replacement)` with a string pattern and a replacement
      holding no `$` pattern: only the first occurrence is replaced. */
  function ReplaceFirst(s: string, pattern: string, replacement: string): (r: string)
  {
    var k := IndexOf(s, pattern, 0);
    if k < 0 then s else s[..k] + replacement + s[k + |pattern|..]
  }

  /** `s.split(sep)` for a one-character separator: the pieces between
      consecutive separators, with an empty piece at either end when `s`
      starts or ends with `sep`. */
  function Split(s: string, sep: char): (parts: seq<string>)
    ensures |parts| >= 1
    decreases |s|
  {
    if s == [] then [[]]
    else
      var rest := Split(s[1..], sep);
      if s[0] == sep then [[]] + rest else [[s[0]] + rest[0]] + rest[1..]
  }

  /** No piece holds the separator, and joining the pieces restores `s`. */
  lemma {:induction false} SplitSpec(s: string, sep: char)
    ensures forall i :: 0 <= i < |Split(s, sep)| ==> sep !in Split(s, sep)[i]
    ensures Join(Split(s, sep), sep) == s
    decreases |s|
  {
    if s != [] {
      var rest := Split(s[1..], sep);
      SplitSpec(s[1..], sep);
      if s[0] == sep {
        assert Split(s, sep)[1..] == rest;
      } else {
        var parts := Split(s, sep);
        if |rest| == 1 {
          assert parts == [[s[0]] + rest[0]];
        } else {
          assert parts[1..] == rest[1..];
          assert Join(rest, sep) == rest[0] + [sep] + Join(rest[1..], sep);
        }
      }
    }
  }

  /** The first piece of a split is the text before the first separator. */
  lemma SplitFirst(s: string, sep: char)
    ensures var f := Split(s, sep)[0];
      sep !in f && StartsWith(s, f) && (|f| == |s| || s[|f|] == sep)
  {
    SplitSpec(s, sep);
    var parts := Split(s, sep);
    if |parts| > 1 {
      assert s == parts[0] + [sep] + Join(parts[1..], sep);
      assert s[..|parts[0]|] == parts[0];
    }
  }

  /** Joining puts a separator before the last part. */
  lemma {:induction false} JoinLast(parts: seq<string>, sep: char)
    requires |parts| >= 2
    ensures Join(parts, sep) == Join(parts[..|parts| - 1], sep) + [sep] + parts[|parts| - 1]
    decreases |parts|
  {
    if |parts| > 2 {
      JoinLast(parts[1..], sep);
      assert parts[..|parts| - 1][1..] == parts[1..][..|parts| - 2];
    }
  }

  /** The last piece of a split is the text after the last separator. */
  lemma SplitLast(s: string, sep: char)
    ensures var l := Split(s, sep)[|Split(s, sep)| - 1];
      sep !in l && EndsWith(s, l) && (|l| == |s| || s[|s| - |l| - 1] == sep)
  {
    SplitSpec(s, sep);
    var parts := Split(s, sep);
    if |parts| >= 2 {
      JoinLast(parts, sep);
    }
  }

  /** `parts.join(sep)`. */
  function Join(parts: seq<string>, sep: char): string
    requires |parts| >= 1
  {
    if |parts| == 1 then parts[0] else parts[0] + [sep] + Join(parts[1..], sep)
  }

  /** `s.toLowerCase()` restricted to the ASCII letters. */
  function LowerChar(c: char): char {
    if 'A' <= c <= 'Z' then (c as int + 32) as char else c
  }

  function ToLower(s: string): (r: string)
    ensures |r| == |s|
    ensures forall i :: 0 <= i < |s| ==> r[i] == LowerChar(s[i])
  {
    seq(|s|, i requires 0 <= i < |s| => LowerChar(s[i]))
  }

  /** The decimal rendering JavaScript gives a non-negative integer. */
  function NatToString(n: nat): (r: string)
    ensures |r| >= 1 && (r[0] == '0' <==> n == 0)
    ensures forall i :: 0 <= i < |r| ==> '0' <= r[i] <= '9'
  {
    if n < 10 then ["0123456789"[n]]
    else NatToString(n / 10) + ["0123456789"[n % 10]]
  }

  // Document positions. Lines are separated by '\n'; line and column numbers
  // start at 0, as in an editor's Position.

  function CountNewlines(s: string): (n: nat)
    ensures n <= |s|
  {
    if s == [] then 0
    else CountNewlines(s[..|s| - 1]) + (if s[|s| - 1] == '\n' then 1 else 0)
  }

  /** The line of `positionAt(offset)`: how many line breaks precede `offset`. */
  function LineOf(s: string, offset: nat): nat
    requires offset <= |s|
  {
    CountNewlines(s[..offset])
  }

  /** The offset at which the line holding `offset` begins. */
  function LineStart(s: string, offset: nat): (k: nat)
    requires offset <= |s|
    ensures k <= offset
    ensures forall j :: k <= j < offset ==> s[j] != '\n'
    ensures k > 0 ==> s[k - 1] == '\n'
    decreases offset
  {
    if offset == 0 || s[offset - 1] == '\n' then offset else LineStart(s, offset - 1)
  }

  /** The character of `positionAt(offset)`: the distance from the start of its line. */
  function ColumnOf(s: string, offset: nat): nat
    requires offset <= |s|
  {
    offset - LineStart(s, offset)
  }

  /** The lines of a document, without their line breaks. */
  function Lines(s: string): (lines: seq<string>)
    ensures |lines| >= 1
  {
    Split(s, '\n')
  }

  /** `document.lineAt(line).text`. */
  function LineAt(s: string, line: nat): string
    requires line < |Lines(s)|
  {
    Lines(s)[line]
  }

  lemma {:induction false} CountNewlinesAppend(a: string, b: string)
    ensures CountNewlines(a + b) == CountNewlines(a) + CountNewlines(b)
    decreases |b|
  {
    if b == [] {
      assert a + b == a;
    } else {
      var b' := b[..|b| - 1];
      assert (a + b)[..|a + b| - 1] == a + b';
      CountNewlinesAppend(a, b');
    }
  }

  /** Line numbers never decrease as the offset grows. */
  lemma LineOfMonotone(s: string, i: nat, j: nat)
    requires i <= j <= |s|
    ensures LineOf(s, i) <= LineOf(s, j)
  {
    assert s[..j] == s[..i] + s[i..j];
    CountNewlinesAppend(s[..i], s[i..j]);
  }
}
