/**
 * String operations shared by the routes: the ECMAScript whitespace class,
 * `trim`, the two global regex replacements that make up `oneLine`
 * (`/\r?\n/g` and `/\s+/g`, each by a single space), `Array.prototype.join`,
 * `includes` and ASCII lower-casing.
 */
module Text {

  /** ECMAScript `\s`: WhiteSpace and LineTerminator.  `String.prototype.trim`
      removes exactly the same characters. */
  predicate IsSpace(c: char) {
    || c == '\t' || c == '\n' || c == '\U{000B}' || c == '\U{000C}' || c == '\r'
    || c == ' ' || c == '\U{00A0}' || c == '\U{1680}'
    || ('\U{2000}' <= c <= '\U{200A}')
    || c == '\U{2028}' || c == '\U{2029}' || c == '\U{202F}' || c == '\U{205F}'
    || c == '\U{3000}' || c == '\U{FEFF}'
  }

  /** The characters `.` does not match in a regex without the `s` flag. */
  predicate IsLineTerminator(c: char) {
    c == '\n' || c == '\r' || c == '\U{2028}' || c == '\U{2029}'
  }

  predicate AllSpace(s: string) {
    forall i :: 0 <= i < |s| ==> IsSpace(s[i])
  }

  predicate NoSpace(s: string) {
    forall i :: 0 <= i < |s| ==> !IsSpace(s[i])
  }

  /** No CR and no LF. */
  predicate NoLineBreaks(s: string) {
    '\n' !in s && '\r' !in s
  }

  /** Every whitespace character is a plain space. */
  predicate SpacesAreBlank(s: string) {
    forall i {:trigger IsSpace(s[i])} :: 0 <= i < |s| && IsSpace(s[i]) ==> s[i] == ' '
  }

  predicate NoAdjacentSpaces(s: string) {
    forall i {:trigger IsSpace(s[i])} :: 0 <= i < |s| - 1 && IsSpace(s[i]) ==> !IsSpace(s[i + 1])
  }

  predicate Trimmed(s: string) {
    s == "" || (!IsSpace(s[0]) && !IsSpace(s[|s| - 1]))
  }

  /** The shape `oneLine` gives: no line breaks, no whitespace but single
      spaces between other characters. */
  predicate IsOneLine(s: string) {
    SpacesAreBlank(s) && NoAdjacentSpaces(s) && Trimmed(s)
  }

  predicate StartsWith(s: string, p: string) {
    |p| <= |s| && s[..|p|] == p
  }

  predicate EndsWith(s: string, q: string) {
    |q| <= |s| && s[|s| - |q|..] == q
  }

  /** `t` occurs in `s` at index `i`. */
  predicate OccursAt(s: string, t: string, i: int) {
    0 <= i <= |s| - |t| && s[i..i + |t|] == t
  }

  /** `s.includes(t)`. */
  predicate Contains(s: string, t: string) {
    exists i :: 0 <= i <= |s| - |t| && OccursAt(s, t, i)
  }

  /** `s.trimStart()`; also the run `\s+` consumes after its first character. */
  function TrimStart(s: string): (r: string)
    ensures |r| <= |s|
    ensures r == "" || !IsSpace(r[0])
  {
    if s != "" && IsSpace(s[0]) then TrimStart(s[1..]) else s
  }

  /** `s.trimEnd()`. */
  function TrimEnd(s: string): (r: string)
    ensures |r| <= |s|
    ensures r == "" || !IsSpace(r[|r| - 1])
    ensures r != "" ==> r[0] == s[0]
  {
    if s != "" && IsSpace(s[|s| - 1]) then TrimEnd(s[..|s| - 1]) else s
  }

  /** `s.trim()`. */
  function Trim(s: string): (r: string)
    ensures Trimmed(r) && |r| <= |s|
  {
    TrimEnd(TrimStart(s))
  }

  /** `s.replace(/\r?\n/g, ' ')`. */
  function ReplaceLineBreaks(s: string): (r: string)
    decreases |s|
  {
    if s == "" then ""
    else
      StepText(s) + ReplaceLineBreaks(s[StepAt(s)..])
  }

  /** What the scan writes for the step at the start of `s`. */
  function StepText(s: string): (r: string)
    requires s != ""
  {
    if StepAt(s) == 1 && s[0] != '\n' then [s[0]] else " "
  }

  /** How many characters the scan of `/\r?\n/g` consumes at the start of a
      non-empty `s`: a CR LF pair, a lone LF, or one other character. */
  function StepAt(s: string): (n: nat)
    requires s != ""
    ensures 1 <= n <= |s|
  {
    if |s| >= 2 && s[0] == '\r' && s[1] == '\n' then 2 else 1
  }

  /** `s.replace(/\s+/g, ' ')`: a left-to-right scan in which a whitespace
      character gives a space when it opens a run and nothing when it
      continues one. */
  function CollapseSpaces(s: string): (r: string)
  {
    CollapseFrom(s, false)
  }

  /** The scan of `s` when `inRun` says whether the character before `s` was
      whitespace. */
  function CollapseFrom(s: string, inRun: bool): (r: string)
    ensures |r| <= |s|
    decreases |s|
  {
    if s == "" then ""
    else
      (if !IsSpace(s[0]) then [s[0]] else if inRun then "" else " ")
      + CollapseFrom(s[1..], IsSpace(s[0]))
  }

  /** Whether the scan is inside a whitespace run once it has read `s`. */
  function RunAfter(s: string, inRun: bool): (r: bool)
    ensures s != "" ==> (r <==> IsSpace(s[|s| - 1]))
  {
    if s == "" then inRun else IsSpace(s[|s| - 1])
  }

  /** The string part of both routes' `oneLine`:
      `s.replace(/\r?\n/g, ' ').replace(/\s+/g, ' ').trim()`. */
  function Normalize(s: string): (r: string)
    ensures IsOneLine(r)
  {
    var c := CollapseSpaces(ReplaceLineBreaks(s));
    CollapseSpacesShape(ReplaceLineBreaks(s));
    TrimKeepsSpacing(c);
    Trim(c)
  }

  /** The non-whitespace characters of `s`, in order: what `oneLine` and
      `trim` keep of a text. */
  function Words(s: string): (r: string)
    ensures |r| <= |s|
  {
    if s == "" then "" else (if IsSpace(s[0]) then "" else [s[0]]) + Words(s[1..])
  }

  lemma {:induction false} WordsAppend(a: string, b: string)
    ensures Words(a + b) == Words(a) + Words(b)
    decreases |a|
  {
    if a != "" {
      assert (a + b)[0] == a[0] && (a + b)[1..] == a[1..] + b;
      WordsAppend(a[1..], b);
    } else {
      assert a + b == b;
    }
  }

  /** One step of the line-break scan keeps the characters that are not
      whitespace. */
  lemma StepKeepsWords(s: string)
    requires s != ""
    ensures Words(StepText(s)) == Words(s[..StepAt(s)])
  {
    var n := StepAt(s);
    if n == 2 {
      assert s[..2] == [s[0]] + [s[1]];
      WordsAppend([s[0]], [s[1]]);
    } else {
      assert s[..1] == [s[0]];
    }
  }

  /** The line-break scan keeps the characters that are not whitespace. */
  lemma {:induction false} ReplaceKeepsWords(s: string)
    ensures Words(ReplaceLineBreaks(s)) == Words(s)
    decreases |s|
  {
    if s != "" {
      var n := StepAt(s);
      ReplaceKeepsWords(s[n..]);
      WordsAppend(StepText(s), ReplaceLineBreaks(s[n..]));
      WordsAppend(s[..n], s[n..]);
      assert s == s[..n] + s[n..];
      StepKeepsWords(s);
    }
  }

  /** The whitespace scan keeps the characters that are not whitespace. */
  lemma {:induction false} CollapseKeepsWords(s: string, inRun: bool)
    ensures Words(CollapseFrom(s, inRun)) == Words(s)
    decreases |s|
  {
    if s != "" {
      var head := if !IsSpace(s[0]) then [s[0]] else if inRun then "" else " ";
      CollapseKeepsWords(s[1..], IsSpace(s[0]));
      WordsAppend(head, CollapseFrom(s[1..], IsSpace(s[0])));
    }
  }

  /** `trimStart`, `trimEnd` and `trim` remove only whitespace: the other
      characters all stay, in order. */
  lemma {:induction false} TrimStartKeepsWords(s: string)
    ensures Words(TrimStart(s)) == Words(s)
    decreases |s|
  {
    if s != "" && IsSpace(s[0]) {
      TrimStartKeepsWords(s[1..]);
    }
  }

  lemma {:induction false} TrimEndKeepsWords(s: string)
    ensures Words(TrimEnd(s)) == Words(s)
    decreases |s|
  {
    if s != "" && IsSpace(s[|s| - 1]) {
      TrimEndKeepsWords(s[..|s| - 1]);
      WordsAppend(s[..|s| - 1], [s[|s| - 1]]);
      assert s == s[..|s| - 1] + [s[|s| - 1]];
    }
  }

  lemma TrimKeepsWords(s: string)
    ensures Words(Trim(s)) == Words(s)
  {
    TrimStartKeepsWords(s);
    TrimEndKeepsWords(TrimStart(s));
  }

  /** `oneLine` keeps every character that is not whitespace, in order: it
      changes only the spacing. */
  lemma NormalizeKeepsWords(s: string)
    ensures Words(Normalize(s)) == Words(s)
  {
    ReplaceKeepsWords(s);
    CollapseKeepsWords(ReplaceLineBreaks(s), false);
    TrimKeepsWords(CollapseSpaces(ReplaceLineBreaks(s)));
  }

  /** `xs.join(sep)`. */
  function Join(sep: string, xs: seq<string>): (r: string)
    ensures |xs| == 1 ==> r == xs[0]
    ensures xs == [] ==> r == ""
  {
    if |xs| == 0 then ""
    else if |xs| == 1 then xs[0]
    else xs[0] + sep + Join(sep, xs[1..])
  }

  /** `xs.filter(Boolean)` on strings: the non-empty ones, in order. */
  function NonEmpty(xs: seq<string>): (r: seq<string>)
    ensures |r| <= |xs|
    ensures forall i :: 0 <= i < |r| ==> r[i] != ""
  {
    if xs == [] then []
    else (if xs[0] == "" then [] else [xs[0]]) + NonEmpty(xs[1..])
  }

  lemma NonEmptyCons(x: string, xs: seq<string>)
    ensures NonEmpty([x] + xs) == (if x == "" then [] else [x]) + NonEmpty(xs)
  {
    assert ([x] + xs)[1..] == xs;
  }

  /** Filtering commutes with concatenation, so the order is kept. */
  lemma {:induction false} NonEmptyAppend(xs: seq<string>, ys: seq<string>)
    ensures NonEmpty(xs + ys) == NonEmpty(xs) + NonEmpty(ys)
    decreases |xs|
  {
    if xs == [] {
      assert xs + ys == ys;
    } else {
      assert (xs + ys)[1..] == xs[1..] + ys;
      assert (xs + ys)[0] == xs[0];
      NonEmptyAppend(xs[1..], ys);
    }
  }

  lemma {:induction false} NonEmptyKeeps(xs: seq<string>)
    requires forall i :: 0 <= i < |xs| ==> xs[i] != ""
    ensures NonEmpty(xs) == xs
    decreases |xs|
  {
    if xs != [] {
      NonEmptyKeeps(xs[1..]);
    }
  }

  /** `s.indexOf(c)` where `c` occurs in `s`. */
  function IndexOf(s: string, c: char): (i: nat)
    requires c in s
    ensures i < |s| && s[i] == c && c !in s[..i]
  {
    if s[0] == c then 0
    else
      var j := IndexOf(s[1..], c);
      assert s[..j + 1] == [s[0]] + s[1..][..j];
      j + 1
  }

  /** The ASCII letters lower-cased, every other character kept. */
  function LowerChar(c: char): (r: char)
    ensures 'A' <= c <= 'Z' ==> 'a' <= r <= 'z' && r as int == c as int + 32
    ensures !('A' <= c <= 'Z') ==> r == c
  {
    if 'A' <= c <= 'Z' then (c as int + 32) as char else c
  }

  /** `s.toLowerCase()` over ASCII letters. */
  function Lower(s: string): (r: string)
    ensures |r| == |s|
    ensures forall i :: 0 <= i < |s| ==> r[i] == LowerChar(s[i])
  {
    seq(|s|, i requires 0 <= i < |s| => LowerChar(s[i]))
  }

  /** Equality up to ASCII case, as a regex with the `i` flag compares an
      ASCII pattern (no non-ASCII character folds onto an ASCII one there). */
  predicate EqualsIgnoringCase(s: string, t: string) {
    Lower(s) == Lower(t)
  }

  // ---------------------------------------------------------------- lemmas

  /** `/\s+/g` by a single space leaves only single plain spaces, and a scan
      that starts inside a run does not start with one. */
  lemma {:induction false} CollapseFromShape(s: string, inRun: bool)
    ensures var r := CollapseFrom(s, inRun);
      SpacesAreBlank(r) && NoAdjacentSpaces(r) && (inRun ==> r == "" || !IsSpace(r[0]))
    decreases |s|
  {
    if s != "" {
      var c := CollapseFrom(s[1..], IsSpace(s[0]));
      CollapseFromShape(s[1..], IsSpace(s[0]));
      var h := if !IsSpace(s[0]) then [s[0]] else if inRun then "" else " ";
      assert CollapseFrom(s, inRun) == h + c;
      forall i | 0 <= i < |h + c| - 1 && IsSpace((h + c)[i]) ensures !IsSpace((h + c)[i + 1]) {
        if i >= |h| { assert (h + c)[i] == c[i - |h|] && (h + c)[i + 1] == c[i + 1 - |h|]; }
      }
      forall i | 0 <= i < |h + c| && IsSpace((h + c)[i]) ensures (h + c)[i] == ' ' {
        if i >= |h| { assert (h + c)[i] == c[i - |h|]; }
      }
    }
  }

  lemma CollapseSpacesShape(s: string)
    ensures SpacesAreBlank(CollapseSpaces(s)) && NoAdjacentSpaces(CollapseSpaces(s))
  {
    CollapseFromShape(s, false);
  }

  /** Dropping the first or the last character keeps the spacing shape. */
  lemma DropKeepsSpacing(s: string)
    requires s != "" && SpacesAreBlank(s) && NoAdjacentSpaces(s)
    ensures SpacesAreBlank(s[1..]) && NoAdjacentSpaces(s[1..])
    ensures SpacesAreBlank(s[..|s| - 1]) && NoAdjacentSpaces(s[..|s| - 1])
  {
    var t := s[1..];
    forall i | 0 <= i < |t| - 1 && IsSpace(t[i]) ensures !IsSpace(t[i + 1]) {
      assert t[i] == s[i + 1] && t[i + 1] == s[i + 2];
    }
  }

  lemma {:induction false} TrimStartKeepsSpacing(c: string)
    requires SpacesAreBlank(c) && NoAdjacentSpaces(c)
    ensures SpacesAreBlank(TrimStart(c)) && NoAdjacentSpaces(TrimStart(c))
    decreases |c|
  {
    if c != "" && IsSpace(c[0]) {
      DropKeepsSpacing(c);
      TrimStartKeepsSpacing(c[1..]);
    }
  }

  lemma {:induction false} TrimEndKeepsSpacing(c: string)
    requires SpacesAreBlank(c) && NoAdjacentSpaces(c)
    ensures SpacesAreBlank(TrimEnd(c)) && NoAdjacentSpaces(TrimEnd(c))
    decreases |c|
  {
    if c != "" && IsSpace(c[|c| - 1]) {
      DropKeepsSpacing(c);
      TrimEndKeepsSpacing(c[..|c| - 1]);
    }
  }

  lemma TrimKeepsSpacing(c: string)
    requires SpacesAreBlank(c) && NoAdjacentSpaces(c)
    ensures SpacesAreBlank(Trim(c)) && NoAdjacentSpaces(Trim(c))
  {
    TrimStartKeepsSpacing(c);
    TrimEndKeepsSpacing(TrimStart(c));
  }

  /** A one-line string has no CR or LF. */
  lemma OneLineHasNoLineBreaks(s: string)
    requires IsOneLine(s)
    ensures NoLineBreaks(s)
  {
    forall i | 0 <= i < |s| ensures s[i] != '\n' && s[i] != '\r' {
      assert IsSpace(s[i]) ==> s[i] == ' ';
    }
  }

  lemma {:induction false} ReplaceLineBreaksFixes(s: string)
    requires forall i :: 0 <= i < |s| ==> s[i] != '\n'
    ensures ReplaceLineBreaks(s) == s
    decreases |s|
  {
    if s != "" {
      ReplaceLineBreaksFixes(s[1..]);
    }
  }

  lemma {:induction false} CollapseFromFixes(s: string, inRun: bool)
    requires SpacesAreBlank(s) && NoAdjacentSpaces(s)
    requires inRun ==> s == "" || !IsSpace(s[0])
    ensures CollapseFrom(s, inRun) == s
    decreases |s|
  {
    if s != "" {
      DropKeepsSpacing(s);
      CollapseFromFixes(s[1..], IsSpace(s[0]));
    }
  }

  lemma CollapseSpacesFixes(s: string)
    requires SpacesAreBlank(s) && NoAdjacentSpaces(s)
    ensures CollapseSpaces(s) == s
  {
    CollapseFromFixes(s, false);
  }

  lemma TrimFixes(s: string)
    requires Trimmed(s)
    ensures TrimStart(s) == s && TrimEnd(s) == s && Trim(s) == s
  {
  }

  /** `oneLine` leaves a one-line string as it is. */
  lemma NormalizeFixes(s: string)
    requires IsOneLine(s)
    ensures Normalize(s) == s
  {
    OneLineHasNoLineBreaks(s);
    ReplaceLineBreaksFixes(s);
    CollapseSpacesFixes(s);
    TrimFixes(s);
  }

  /** `oneLine` is idempotent. */
  lemma NormalizeIdempotent(s: string)
    ensures Normalize(Normalize(s)) == Normalize(s)
  {
    NormalizeFixes(Normalize(s));
  }

  lemma {:induction false} ReplaceLineBreaksAppend(a: string, b: string)
    requires NoCrLfJoin(a, b)
    ensures ReplaceLineBreaks(a + b) == ReplaceLineBreaks(a) + ReplaceLineBreaks(b)
    decreases |a|
  {
    if a == "" {
      assert a + b == b;
    } else {
      var n := StepAt(a);
      FirstStepOfAppend(a, b);
      ReplaceLineBreaksAppend(a[n..], b);
      var h, x, y := StepText(a), ReplaceLineBreaks(a[n..]), ReplaceLineBreaks(b);
      ReplaceLineBreaksUnfold(a);
      assert h + (x + y) == (h + x) + y;
    }
  }

  lemma ReplaceLineBreaksUnfold(a: string)
    requires a != ""
    ensures ReplaceLineBreaks(a) == StepText(a) + ReplaceLineBreaks(a[StepAt(a)..])
  {
  }

  /** No CR LF pair straddles the join of `a` and `b`. */
  predicate NoCrLfJoin(a: string, b: string) {
    a == "" || b == "" || a[|a| - 1] != '\r' || b[0] != '\n'
  }

  lemma FirstStepOfAppend(a: string, b: string)
    requires a != "" && NoCrLfJoin(a, b)
    ensures ReplaceLineBreaks(a + b) == StepText(a) + ReplaceLineBreaks(a[StepAt(a)..] + b)
    ensures NoCrLfJoin(a[StepAt(a)..], b)
  {
    StepAtAppend(a, b);
    ConcatDrop(a, b, StepAt(a));
    assert ReplaceLineBreaks(a + b) == StepText(a + b) + ReplaceLineBreaks((a + b)[StepAt(a + b)..]);
  }

  /** The scan takes the same step at the start of `a + b` as at the start
      of `a`, unless `a` is a lone CR and `b` opens with LF. */
  lemma StepAtAppend(a: string, b: string)
    requires a != ""
    requires b == "" || a[|a| - 1] != '\r' || b[0] != '\n'
    ensures StepAt(a + b) == StepAt(a) && StepText(a + b) == StepText(a)
    ensures StepAt(a) < |a| ==> a[StepAt(a)..][|a| - StepAt(a) - 1] == a[|a| - 1]
  {
    assert |a| == 1 && b != "" ==> (a + b)[1] == b[0];
  }

  lemma ConcatDrop(a: string, b: string, n: nat)
    requires n <= |a|
    ensures (a + b)[n..] == a[n..] + b
  {
  }

  /** The scan of `a + b` is the scan of `a` followed by the scan of `b` from
      where the first left off. */
  lemma {:induction false} CollapseFromAppend(a: string, b: string, inRun: bool)
    ensures CollapseFrom(a + b, inRun) == CollapseFrom(a, inRun) + CollapseFrom(b, RunAfter(a, inRun))
    decreases |a|
  {
    if a == "" {
      assert a + b == b;
    } else {
      ConcatDrop(a, b, 1);
      assert (a + b)[0] == a[0];
      CollapseFromAppend(a[1..], b, IsSpace(a[0]));
      assert RunAfter(a[1..], IsSpace(a[0])) == RunAfter(a, inRun) by {
        if |a| > 1 { assert a[1..][|a| - 2] == a[|a| - 1]; }
      }
    }
  }

  /** A scan of text that does not open with whitespace ignores whether it
      starts inside a run. */
  lemma CollapseFromWord(b: string)
    requires b == "" || !IsSpace(b[0])
    ensures CollapseFrom(b, true) == CollapseFrom(b, false)
  {
  }

  lemma CollapseSpacesAppend(a: string, b: string)
    requires a == "" || b == "" || !IsSpace(a[|a| - 1]) || !IsSpace(b[0])
    ensures CollapseSpaces(a + b) == CollapseSpaces(a) + CollapseSpaces(b)
  {
    CollapseFromAppend(a, b, false);
    if a != "" && IsSpace(a[|a| - 1]) {
      CollapseFromWord(b);
    }
  }

  lemma {:induction false} TrimStartIsSuffix(s: string)
    ensures TrimStart(s) == s[|s| - |TrimStart(s)|..]
    decreases |s|
  {
    if s != "" && IsSpace(s[0]) {
      TrimStartIsSuffix(s[1..]);
    }
  }

  lemma {:induction false} TrimEndIsPrefix(s: string)
    ensures TrimEnd(s) == s[..|TrimEnd(s)|]
    decreases |s|
  {
    if s != "" && IsSpace(s[|s| - 1]) {
      TrimEndIsPrefix(s[..|s| - 1]);
    }
  }

  lemma StartsWithHead(s: string, p: string)
    ensures StartsWith(s, p) && p != "" ==> s != "" && s[0] == p[0]
  {
    if StartsWith(s, p) && p != "" {
      assert s[..|p|][0] == s[0];
    }
  }

  lemma EndsWithLast(s: string, q: string)
    ensures EndsWith(s, q) && q != "" ==> s != "" && s[|s| - 1] == q[|q| - 1]
  {
    if EndsWith(s, q) && q != "" {
      assert s[|s| - |q|..][|q| - 1] == s[|s| - 1];
    }
  }

  /** `trim` keeps a contiguous piece of its input and removes only
      whitespace around it. */
  lemma TrimIsSlice(s: string)
    ensures exists a, b :: 0 <= a <= b <= |s| && Trim(s) == s[a..b] && AllSpace(s[..a]) && AllSpace(s[b..])
  {
    var p, q := TrimSplit(s);
    var a, b := |p|, |p| + |Trim(s)|;
    assert s[..a] == p && s[a..b] == Trim(s) && s[b..] == q;
  }

  /** What `trim` takes off each end is whitespace. */
  lemma {:induction false} TrimStartDropsSpace(s: string)
    ensures AllSpace(s[..|s| - |TrimStart(s)|])
    decreases |s|
  {
    if s != "" && IsSpace(s[0]) {
      TrimStartDropsSpace(s[1..]);
      assert TrimStart(s) == TrimStart(s[1..]);
      var k := |s| - |TrimStart(s)|;
      var p := s[1..][..k - 1];
      forall i | 0 <= i < k ensures IsSpace(s[..k][i]) {
        if i > 0 { assert s[..k][i] == p[i - 1]; }
      }
    }
  }

  lemma {:induction false} TrimEndDropsSpace(s: string)
    ensures AllSpace(s[|TrimEnd(s)|..])
    decreases |s|
  {
    TrimEndIsPrefix(s);
    if s != "" && IsSpace(s[|s| - 1]) {
      TrimEndDropsSpace(s[..|s| - 1]);
      TrimEndIsPrefix(s[..|s| - 1]);
      var k := |TrimEnd(s)|;
      assert s[k..] == s[..|s| - 1][k..] + [s[|s| - 1]];
    }
  }

  /** The answer is its trimmed text with whitespace on either side. */
  lemma TrimSplit(s: string) returns (p: string, q: string)
    ensures s == p + Trim(s) + q && AllSpace(p) && AllSpace(q)
  {
    var ts := TrimStart(s);
    TrimStartIsSuffix(s);
    TrimStartDropsSpace(s);
    p := s[..|s| - |ts|];
    assert s == p + ts;
    TrimEndIsPrefix(ts);
    TrimEndDropsSpace(ts);
    q := ts[|TrimEnd(ts)|..];
    assert ts == TrimEnd(ts) + q;
  }

  /** A string of whitespace trims to nothing. */
  lemma {:induction false} TrimAllSpace(s: string)
    requires AllSpace(s)
    ensures TrimStart(s) == "" && Trim(s) == ""
    decreases |s|
  {
    if s != "" {
      TrimAllSpace(s[1..]);
    }
  }

  lemma {:induction false} TrimStartAppend(u: string, v: string)
    ensures TrimStart(u + v) == if TrimStart(u) != "" then TrimStart(u) + v else TrimStart(v)
    decreases |u|
  {
    if u == "" {
      assert u + v == v;
    } else if IsSpace(u[0]) {
      ConcatDrop(u, v, 1);
      assert (u + v)[0] == u[0];
      TrimStartAppend(u[1..], v);
    } else {
      assert (u + v)[0] == u[0];
    }
  }

  lemma TrimStartFixes(b: string)
    requires b == "" || !IsSpace(b[0])
    ensures TrimStart(b) == b
  {
  }

  lemma NoSpaceFixes(p: string)
    requires NoSpace(p)
    ensures ReplaceLineBreaks(p) == p && CollapseSpaces(p) == p
  {
    ReplaceLineBreaksFixes(p);
    CollapseSpacesFixes(p);
  }

  /** `oneLine` leaves a string without whitespace as it is. */
  lemma NormalizeKeepsWord(p: string)
    requires NoSpace(p)
    ensures Normalize(p) == p
  {
    NoSpaceFixes(p);
    TrimFixes(p);
  }

  lemma ReplaceLineBreaksBetween(p: string, x: string, q: string)
    requires p != "" && q != "" && NoSpace(p) && NoSpace(q)
    ensures ReplaceLineBreaks(p + x + q) == p + ReplaceLineBreaks(x) + q
  {
    NoSpaceFixes(p);
    NoSpaceFixes(q);
    assert p + x + q == p + (x + q);
    assert !IsSpace(p[|p| - 1]) && !IsSpace(q[0]);
    ReplaceLineBreaksAppend(p, x + q);
    ReplaceLineBreaksAppend(x, q);
  }

  lemma CollapseSpacesBetween(p: string, y: string, q: string)
    requires p != "" && q != "" && NoSpace(p) && NoSpace(q)
    ensures CollapseSpaces(p + y + q) == p + CollapseSpaces(y) + q
  {
    NoSpaceFixes(p);
    NoSpaceFixes(q);
    assert p + y + q == p + (y + q);
    assert !IsSpace(p[|p| - 1]) && !IsSpace(q[0]);
    CollapseSpacesAppend(p, y + q);
    CollapseSpacesAppend(y, q);
  }

  /** `oneLine` keeps an opening and a closing tag that contain no whitespace
      and only reshapes what lies between them. */
  lemma NormalizeBetween(p: string, x: string, q: string)
    requires p != "" && q != "" && NoSpace(p) && NoSpace(q)
    ensures Normalize(p + x + q) == p + CollapseSpaces(ReplaceLineBreaks(x)) + q
  {
    var y := ReplaceLineBreaks(x);
    ReplaceLineBreaksBetween(p, x, q);
    CollapseSpacesBetween(p, y, q);
    var w := p + CollapseSpaces(y) + q;
    assert w[0] == p[0] && w[|w| - 1] == q[|q| - 1];
    TrimFixes(w);
  }

  /** A trailing line feed after a one-line string goes away under `oneLine`
      and under `trim`. */
  lemma DropsFinalBreak(w: string)
    requires w != "" && IsOneLine(w)
    ensures Trim(w + "\n") == w && Normalize(w + "\n") == w
  {
    var c := w + " ";
    OneLineHasNoLineBreaks(w);
    ReplaceLineBreaksAppend(w, "\n");
    ReplaceLineBreaksFixes(w);
    assert ReplaceLineBreaks("\n") == " ";
    CollapseSpacesAppend(w, " ");
    CollapseSpacesFixes(w);
    assert CollapseSpaces(" ") == " ";
    TrimFixes(w);
    TrimStartFixes(c);
    TrimStartFixes(w + "\n");
    assert c[..|c| - 1] == w;
    assert (w + "\n")[..|w + "\n"| - 1] == w;
  }

  /** Wrapping a one-line string in tags without whitespace keeps it one-line. */
  lemma WrapKeepsOneLine(p: string, t: string, q: string)
    requires p != "" && q != "" && NoSpace(p) && NoSpace(q) && IsOneLine(t)
    ensures IsOneLine(p + t + q)
  {
    NormalizeBetween(p, t, q);
    OneLineHasNoLineBreaks(t);
    ReplaceLineBreaksFixes(t);
    CollapseSpacesFixes(t);
  }

  /** Two one-line strings joined by a space give a one-line string. */
  lemma SpaceJoinKeepsOneLine(a: string, b: string)
    requires a != "" && b != "" && IsOneLine(a) && IsOneLine(b)
    ensures IsOneLine(a + " " + b)
  {
    var s := a + " " + b;
    forall i | 0 <= i < |s| - 1 && IsSpace(s[i]) ensures !IsSpace(s[i + 1]) {
      if i < |a| - 1 {
        assert s[i] == a[i] && s[i + 1] == a[i + 1];
      } else if i > |a| {
        assert s[i] == b[i - |a| - 1] && s[i + 1] == b[i - |a|];
      }
    }
    forall i | 0 <= i < |s| && IsSpace(s[i]) ensures s[i] == ' ' {
      if i < |a| {
        assert s[i] == a[i];
      } else if i > |a| {
        assert s[i] == b[i - |a| - 1];
      }
    }
  }

  lemma {:induction false} JoinAppend(sep: string, a: seq<string>, b: seq<string>)
    requires |a| > 0 && |b| > 0
    ensures Join(sep, a + b) == Join(sep, a) + sep + Join(sep, b)
    decreases |a|
  {
    if |a| == 1 {
      assert (a + b)[1..] == b;
    } else {
      assert (a + b)[1..] == a[1..] + b;
      JoinAppend(sep, a[1..], b);
    }
  }

  /** Joining a joined group in place of its members changes nothing. */
  lemma JoinFlatten(sep: string, xs: seq<string>, ys: seq<string>, zs: seq<string>)
    requires |ys| > 0
    ensures Join(sep, xs + [Join(sep, ys)] + zs) == Join(sep, xs + ys + zs)
  {
    var j := Join(sep, ys);
    if zs != [] {
      JoinAppend(sep, [j], zs);
      JoinAppend(sep, ys, zs);
    } else {
      assert [j] + zs == [j];
      assert ys + zs == ys;
    }
    assert Join(sep, [j] + zs) == Join(sep, ys + zs);
    assert xs + [j] + zs == xs + ([j] + zs);
    assert xs + ys + zs == xs + (ys + zs);
    if xs != [] {
      JoinAppend(sep, xs, [j] + zs);
      JoinAppend(sep, xs, ys + zs);
    } else {
      assert xs + ([j] + zs) == [j] + zs;
      assert xs + (ys + zs) == ys + zs;
    }
  }

  /** `includes` survives lower-casing both sides. */
  lemma ContainsLower(s: string, t: string)
    requires Contains(s, t)
    ensures Contains(Lower(s), Lower(t))
  {
    var i :| 0 <= i <= |s| - |t| && OccursAt(s, t, i);
    var ls := Lower(s);
    assert ls[i..i + |t|] == Lower(t) by {
      forall k | 0 <= k < |t| ensures ls[i..i + |t|][k] == Lower(t)[k] {
        assert s[i..i + |t|][k] == t[k];
      }
    }
    assert OccursAt(ls, Lower(t), i);
  }

  /** A string holding a character that `s` lacks is not contained in `s`. */
  lemma NotContainedByChar(s: string, t: string, k: nat)
    requires k < |t| && t[k] !in s
    ensures !Contains(s, t)
  {
    forall i | 0 <= i <= |s| - |t| ensures !OccursAt(s, t, i) {
      assert s[i..i + |t|][k] == s[i + k];
    }
  }

  /** `trimEnd` does not reach past a last character that is not whitespace. */
  lemma {:induction false} TrimEndAppend(a: string, x: string)
    requires a != "" && !IsSpace(a[|a| - 1])
    ensures TrimEnd(a + x) == a + TrimEnd(x)
    decreases |x|
  {
    var s := a + x;
    if x == "" {
      assert s == a;
    } else if IsSpace(x[|x| - 1]) {
      assert s[..|s| - 1] == a + x[..|x| - 1];
      TrimEndAppend(a, x[..|x| - 1]);
    } else {
      assert s[|s| - 1] == x[|x| - 1];
    }
  }

  /** A whitespace-free word followed by a one-line string is one line. */
  lemma PrefixKeepsOneLine(p: string, t: string)
    requires p != "" && NoSpace(p) && IsOneLine(t)
    ensures IsOneLine(p + t)
  {
    var s := p + t;
    forall i | 0 <= i < |s| && IsSpace(s[i]) ensures s[i] == ' ' {
      assert s[i] == t[i - |p|];
      assert IsSpace(t[i - |p|]);
    }
    forall i | 0 <= i < |s| - 1 && IsSpace(s[i]) ensures !IsSpace(s[i + 1]) {
      assert s[i] == t[i - |p|] && s[i + 1] == t[i + 1 - |p|];
      assert IsSpace(t[i - |p|]);
    }
    assert s[0] == p[0];
    if t != "" {
      assert s[|s| - 1] == t[|t| - 1];
    } else {
      assert s == p;
    }
  }

  /** `oneLine` of a one-line string followed by more text keeps the string
      as its start. */
  lemma NormalizeKeepsPrefix(a: string, x: string)
    requires a != "" && IsOneLine(a)
    ensures Normalize(a + x) == a + TrimEnd(CollapseSpaces(ReplaceLineBreaks(x)))
  {
    var y := CollapseSpaces(ReplaceLineBreaks(x));
    assert !IsSpace(a[0]) && !IsSpace(a[|a| - 1]);
    ReplaceLineBreaksAppend(a, x);
    OneLineHasNoLineBreaks(a);
    ReplaceLineBreaksFixes(a);
    CollapseSpacesAppend(a, ReplaceLineBreaks(x));
    CollapseSpacesFixes(a);
    assert (a + y)[0] == a[0];
    TrimStartFixes(a + y);
    TrimEndAppend(a, y);
  }

  /** The line-break scan writes only characters of its input and spaces. */
  lemma {:induction false} ReplaceLineBreaksNoNewChar(s: string, c: char)
    requires c !in s && c != ' '
    ensures c !in ReplaceLineBreaks(s)
    decreases |s|
  {
    if s != "" {
      assert c !in s[StepAt(s)..];
      ReplaceLineBreaksNoNewChar(s[StepAt(s)..], c);
    }
  }

  lemma {:induction false} CollapseFromNoNewChar(s: string, inRun: bool, c: char)
    requires c !in s && c != ' '
    ensures c !in CollapseFrom(s, inRun)
    decreases |s|
  {
    if s != "" {
      assert c !in s[1..];
      CollapseFromNoNewChar(s[1..], IsSpace(s[0]), c);
    }
  }

  /** `oneLine` brings in no character but the space. */
  lemma NormalizeNoNewChar(s: string, c: char)
    requires c !in s && c != ' '
    ensures c !in Normalize(s)
  {
    var y := CollapseSpaces(ReplaceLineBreaks(s));
    ReplaceLineBreaksNoNewChar(s, c);
    CollapseFromNoNewChar(ReplaceLineBreaks(s), false, c);
    TrimStartIsSuffix(y);
    TrimEndIsPrefix(TrimStart(y));
    assert c !in TrimStart(y);
  }

  /** Lower-casing brings in no character but lower-case letters. */
  lemma LowerNoNewChar(s: string, c: char)
    requires c !in s && !('a' <= c <= 'z')
    ensures c !in Lower(s)
  {
  }

  // ------------------------------------------- how `oneLine` treats a gap

  /** The line-break scan keeps a first character that is not whitespace. */
  lemma ReplaceLineBreaksFirst(b: string)
    requires b != "" && !IsSpace(b[0])
    ensures ReplaceLineBreaks(b) != "" && ReplaceLineBreaks(b)[0] == b[0]
  {
    assert StepAt(b) == 1 && StepText(b) == [b[0]];
  }

  /** The line-break scan keeps a last character that is not whitespace. */
  lemma ReplaceLineBreaksLast(a: string)
    requires a != "" && !IsSpace(a[|a| - 1])
    ensures var r := ReplaceLineBreaks(a); r != "" && r[|r| - 1] == a[|a| - 1]
  {
    var n := |a| - 1;
    assert a == a[..n] + [a[n]];
    ReplaceLineBreaksAppend(a[..n], [a[n]]);
    assert ReplaceLineBreaks([a[n]]) == StepText([a[n]]) + ReplaceLineBreaks([]);
  }

  /** The line-break scan turns whitespace into whitespace, and into at
      least one character when there is any. */
  lemma {:induction false} ReplaceLineBreaksAllSpace(w: string)
    requires AllSpace(w)
    ensures AllSpace(ReplaceLineBreaks(w)) && (w != "" ==> ReplaceLineBreaks(w) != "")
    decreases |w|
  {
    if w != "" {
      var n := StepAt(w);
      assert forall i :: 0 <= i < |w[n..]| ==> w[n..][i] == w[n + i];
      ReplaceLineBreaksAllSpace(w[n..]);
      var h, r := StepText(w), ReplaceLineBreaks(w[n..]);
      assert AllSpace(h);
      forall i | 0 <= i < |h + r| ensures IsSpace((h + r)[i]) {
        if i >= |h| { assert (h + r)[i] == r[i - |h|]; }
      }
    }
  }

  /** The line-break scan of a word, a whitespace gap and a word is the scan
      of each. */
  lemma ReplaceAroundGap(a: string, w: string, b: string)
    requires a != "" && !IsSpace(a[|a| - 1]) && b != "" && !IsSpace(b[0])
    ensures ReplaceLineBreaks(a + w + b) == ReplaceLineBreaks(a) + ReplaceLineBreaks(w) + ReplaceLineBreaks(b)
  {
    ReplaceLineBreaksAppend(a, w);
    assert (a + w)[|a + w| - 1] != '\r' || b[0] != '\n';
    ReplaceLineBreaksAppend(a + w, b);
  }

  /** A whitespace run that continues a run contributes nothing. */
  lemma {:induction false} CollapseFromAllSpace(w: string)
    requires AllSpace(w)
    ensures CollapseFrom(w, true) == ""
    decreases |w|
  {
    if w != "" {
      assert forall i :: 0 <= i < |w[1..]| ==> w[1..][i] == w[i + 1];
      CollapseFromAllSpace(w[1..]);
    }
  }

  /** A whitespace run on its own collapses to one blank. */
  lemma CollapseSpacesAllSpace(w: string)
    requires w != "" && AllSpace(w)
    ensures CollapseSpaces(w) == " "
  {
    assert forall i :: 0 <= i < |w[1..]| ==> w[1..][i] == w[i + 1];
    CollapseFromAllSpace(w[1..]);
  }

  lemma CollapseSpacesFirst(b: string)
    requires b != "" && !IsSpace(b[0])
    ensures CollapseSpaces(b) != "" && CollapseSpaces(b)[0] == b[0]
  {
  }

  lemma CollapseSpacesLast(a: string)
    requires a != "" && !IsSpace(a[|a| - 1])
    ensures var r := CollapseSpaces(a); r != "" && r[|r| - 1] == a[|a| - 1]
  {
    var n := |a| - 1;
    assert a == a[..n] + [a[n]];
    CollapseFromAppend(a[..n], [a[n]], false);
    assert CollapseFrom([a[n]], RunAfter(a[..n], false)) == [a[n]] + CollapseFrom([], false);
  }

  /** The collapse of a word, a whitespace gap and a word puts exactly one
      blank between the collapsed words. */
  lemma CollapseAroundGap(x: string, w: string, y: string)
    requires x != "" && !IsSpace(x[|x| - 1]) && w != "" && AllSpace(w) && y != "" && !IsSpace(y[0])
    ensures CollapseSpaces(x + w + y) == CollapseSpaces(x) + " " + CollapseSpaces(y)
  {
    CollapseSpacesAppend(x, w);
    assert (x + w)[|x + w| - 1] == w[|w| - 1];
    CollapseSpacesAppend(x + w, y);
    CollapseSpacesAllSpace(w);
  }

  /** `trimStart` stops before a last character that is not whitespace. */
  lemma {:induction false} TrimStartKeepsLast(x: string)
    requires x != "" && !IsSpace(x[|x| - 1])
    ensures var r := TrimStart(x); r != "" && r[|r| - 1] == x[|x| - 1]
    decreases |x|
  {
    if IsSpace(x[0]) {
      TrimStartKeepsLast(x[1..]);
    }
  }

  /** `trimEnd` does not reach back past a first character that is not
      whitespace. */
  lemma {:induction false} TrimEndAppendWord(u: string, y: string)
    requires y != "" && !IsSpace(y[0])
    ensures TrimEnd(u + y) == u + TrimEnd(y)
    decreases |y|
  {
    var s := u + y;
    if IsSpace(y[|y| - 1]) {
      assert s[..|s| - 1] == u + y[..|y| - 1];
      TrimEndAppendWord(u, y[..|y| - 1]);
    } else {
      assert s[|s| - 1] == y[|y| - 1];
    }
  }

  /** Trimming keeps a blank that sits between two words. */
  lemma TrimAroundBlank(x: string, y: string)
    requires x != "" && !IsSpace(x[|x| - 1]) && y != "" && !IsSpace(y[0])
    ensures Trim(x + " " + y) == Trim(x) + " " + Trim(y)
  {
    var u := TrimStart(x);
    TrimStartKeepsLast(x);
    assert x + " " + y == x + (" " + y);
    TrimStartAppend(x, " " + y);
    assert u + (" " + y) == (u + " ") + y;
    TrimEndAppendWord(u + " ", y);
    TrimStartFixes(y);
  }

  /** `oneLine` turns the whitespace between two words, whatever it holds,
      into exactly one blank. */
  lemma NormalizeGap(a: string, w: string, b: string)
    requires a != "" && !IsSpace(a[|a| - 1]) && w != "" && AllSpace(w) && b != "" && !IsSpace(b[0])
    ensures Normalize(a + w + b) == Normalize(a) + " " + Normalize(b)
  {
    var x, y := ReplaceLineBreaks(a), ReplaceLineBreaks(b);
    ReplaceAroundGap(a, w, b);
    ReplaceLineBreaksLast(a);
    ReplaceLineBreaksAllSpace(w);
    ReplaceLineBreaksFirst(b);
    CollapseAroundGap(x, ReplaceLineBreaks(w), y);
    CollapseSpacesLast(x);
    CollapseSpacesFirst(y);
    TrimAroundBlank(CollapseSpaces(x), CollapseSpaces(y));
  }

  /** `oneLine` drops whitespace in front of a word. */
  lemma NormalizeDropsLeadingSpace(w: string, b: string)
    requires AllSpace(w) && b != "" && !IsSpace(b[0])
    ensures Normalize(w + b) == Normalize(b)
  {
    var y := ReplaceLineBreaks(b);
    ReplaceLineBreaksAppend(w, b);
    ReplaceLineBreaksAllSpace(w);
    ReplaceLineBreaksFirst(b);
    var v := ReplaceLineBreaks(w);
    CollapseSpacesAppend(v, y);
    CollapseSpacesFirst(y);
    var c := CollapseSpaces(y);
    if w != "" {
      CollapseSpacesAllSpace(v);
      assert (" " + c)[1..] == c;
    } else {
      assert v + y == y;
    }
  }

  /** `oneLine` drops whitespace after a word. */
  lemma NormalizeDropsTrailingSpace(a: string, w: string)
    requires a != "" && !IsSpace(a[|a| - 1]) && AllSpace(w)
    ensures Normalize(a + w) == Normalize(a)
  {
    var x := ReplaceLineBreaks(a);
    ReplaceLineBreaksAppend(a, w);
    ReplaceLineBreaksLast(a);
    ReplaceLineBreaksAllSpace(w);
    var v := ReplaceLineBreaks(w);
    CollapseSpacesAppend(x, v);
    CollapseSpacesLast(x);
    var c := CollapseSpaces(x);
    if w != "" {
      CollapseSpacesAllSpace(v);
      TrimDropsFinalBlank(c);
    } else {
      assert x + v == x;
    }
  }

  /** Trimming drops a blank after a word. */
  lemma TrimDropsFinalBlank(c: string)
    requires c != "" && !IsSpace(c[|c| - 1])
    ensures Trim(c + " ") == Trim(c)
  {
    var u := TrimStart(c);
    TrimStartKeepsLast(c);
    TrimStartAppend(c, " ");
    assert (u + " ")[..|u + " "| - 1] == u;
  }
}
