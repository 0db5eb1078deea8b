/**
 * The chunk splitter of the main route (routes/main.js:16-18): the model's
 * answer is trimmed, split at every run of line feeds (each optionally
 * preceded by a carriage return), every piece is trimmed, the empty ones
 * are dropped, and each chunk has its whitespace runs made single spaces.
 */
module MainChunks {
  import opened Text

  /** The number of line feeds `s` starts with. */
  function NewlineRun(s: string): (n: nat)
    ensures n <= |s|
    ensures forall k :: 0 <= k < n ==> s[k] == '\n'
    ensures n < |s| ==> s[n] != '\n'
    decreases |s|
  {
    if s != "" && s[0] == '\n' then 1 + NewlineRun(s[1..]) else 0
  }

  /** The length of the match of `/\r?\n+/` at the start of `s`, 0 where
      no match starts there. */
  function BreakAt(s: string): (n: nat)
    ensures n <= |s|
    ensures n > 0 <==> (s != "" && s[0] == '\n') || (|s| >= 2 && s[0] == '\r' && s[1] == '\n')
  {
    if s != "" && s[0] == '\n' then NewlineRun(s)
    else if |s| >= 2 && s[0] == '\r' && s[1] == '\n' then 1 + NewlineRun(s[1..])
    else 0
  }

  /** `s.split(/\r?\n+/)`, `cur` being the piece read so far: the scan cuts
      at the leftmost match and goes on after it. */
  function SplitAcc(s: string, cur: string): (r: seq<string>)
    decreases |s|
  {
    if s == "" then [cur]
    else
      var n := BreakAt(s);
      if n > 0 then [cur] + SplitAcc(s[n..], "")
      else SplitAcc(s[1..], cur + [s[0]])
  }

  /** The lines of `s` as written: the pieces between single line feeds. */
  function LinesAcc(s: string, cur: string): (r: seq<string>)
    decreases |s|
  {
    if s == "" then [cur]
    else if s[0] == '\n' then [cur] + LinesAcc(s[1..], "")
    else LinesAcc(s[1..], cur + [s[0]])
  }

  function Lines(s: string): (r: seq<string>) {
    LinesAcc(s, "")
  }

  /** `.map(s => s.trim()).filter(Boolean)`. */
  function Keep(xs: seq<string>): (r: seq<string>)
    ensures |r| <= |xs|
    ensures forall i :: 0 <= i < |r| ==> r[i] != "" && Trimmed(r[i])
  {
    if xs == [] then []
    else (if Trim(xs[0]) == "" then [] else [Trim(xs[0])]) + Keep(xs[1..])
  }

  /** `line.replace(/\s+/g, ' ').trim()`. */
  function Clean(line: string): (r: string)
    ensures IsOneLine(r)
  {
    CollapseSpacesShape(line);
    TrimKeepsSpacing(CollapseSpaces(line));
    Trim(CollapseSpaces(line))
  }

  /** `chunks` for the model's answer `content`. */
  function Chunks(content: string): (r: seq<string>)
    ensures |r| <= |content| + 1
    ensures forall i :: 0 <= i < |r| ==> r[i] != "" && IsOneLine(r[i])
  {
    var pieces := SplitAcc(Trim(content), "");
    SplitAccCount(Trim(content), "");
    var lines := Keep(pieces);
    CleanKeepsNonEmpty(lines);
    seq(|lines|, i requires 0 <= i < |lines| => Clean(lines[i]))
  }

  // ---------------------------------------------------------------- lemmas

  lemma {:induction false} SplitAccCount(s: string, cur: string)
    ensures |SplitAcc(s, cur)| <= |s| + 1
    decreases |s|
  {
    if s != "" {
      var n := BreakAt(s);
      if n > 0 {
        SplitAccCount(s[n..], "");
      } else {
        SplitAccCount(s[1..], cur + [s[0]]);
      }
    }
  }

  /** `trimEnd` keeps a first character that is not whitespace. */
  lemma {:induction false} TrimEndKeepsHead(s: string)
    requires s != "" && !IsSpace(s[0])
    ensures TrimEnd(s) != ""
    decreases |s|
  {
    if IsSpace(s[|s| - 1]) {
      assert |s| > 1;
      TrimEndKeepsHead(s[..|s| - 1]);
    }
  }

  /** A trimmed non-empty line gives a non-empty chunk. */
  lemma CleanNonEmpty(line: string)
    requires line != "" && Trimmed(line)
    ensures Clean(line) != ""
  {
    var c := CollapseSpaces(line);
    assert c[0] == line[0];
    TrimStartFixes(c);
    TrimEndKeepsHead(c);
  }

  lemma CleanKeepsNonEmpty(lines: seq<string>)
    requires forall i :: 0 <= i < |lines| ==> lines[i] != "" && Trimmed(lines[i])
    ensures forall i :: 0 <= i < |lines| ==> Clean(lines[i]) != ""
  {
    forall i | 0 <= i < |lines| ensures Clean(lines[i]) != "" {
      CleanNonEmpty(lines[i]);
    }
  }

  /** Filtering the trimmed pieces commutes with concatenation. */
  lemma {:induction false} KeepAppend(a: seq<string>, b: seq<string>)
    ensures Keep(a + b) == Keep(a) + Keep(b)
    decreases |a|
  {
    if a == [] {
      assert a + b == b;
    } else {
      assert (a + b)[0] == a[0] && (a + b)[1..] == a[1..] + b;
      KeepAppend(a[1..], b);
    }
  }

  lemma KeepCons(x: string, xs: seq<string>)
    ensures Keep([x] + xs) == (if Trim(x) == "" then [] else [Trim(x)]) + Keep(xs)
  {
    assert ([x] + xs)[1..] == xs;
  }

  /** Whitespace in front of the piece being read does not change what is
      kept. */
  lemma TrimIgnoresLeadingSpace(p: string, c: string)
    requires AllSpace(p)
    ensures Trim(p + c) == Trim(c)
  {
    TrimAllSpace(p);
    TrimStartAppend(p, c);
  }

  /** Whitespace at the end of the piece being read does not change what is
      kept. */
  lemma TrimIgnoresTrailingSpace(c: string, x: char)
    requires IsSpace(x)
    ensures Trim(c + [x]) == Trim(c)
  {
    TrimStartAppend(c, [x]);
    var t := TrimStart(c);
    if t != "" {
      assert (t + [x])[..|t + [x]| - 1] == t;
    } else {
      assert [x][1..] == "";
    }
  }

  lemma {:induction false} LinesIgnoreLeadingSpace(s: string, p: string, c: string)
    requires AllSpace(p)
    ensures Keep(LinesAcc(s, p + c)) == Keep(LinesAcc(s, c))
    decreases |s|
  {
    TrimIgnoresLeadingSpace(p, c);
    if s == "" {
    } else if s[0] == '\n' {
      KeepCons(p + c, LinesAcc(s[1..], ""));
      KeepCons(c, LinesAcc(s[1..], ""));
    } else {
      assert p + c + [s[0]] == p + (c + [s[0]]);
      LinesIgnoreLeadingSpace(s[1..], p, c + [s[0]]);
    }
  }

  /** Leading whitespace of the answer, line feeds included, only adds
      blank lines. */
  lemma {:induction false} LinesSkipSpace(p: string, t: string, c: string)
    requires AllSpace(p) && AllSpace(c)
    ensures Keep(LinesAcc(p + t, c)) == Keep(LinesAcc(t, ""))
    decreases |p|
  {
    if p == "" {
      assert p + t == t;
      assert c + "" == c;
      LinesIgnoreLeadingSpace(t, c, "");
    } else {
      assert (p + t)[0] == p[0] && (p + t)[1..] == p[1..] + t;
      assert AllSpace(p[1..]);
      if p[0] == '\n' {
        TrimAllSpace(c);
        KeepCons(c, LinesAcc(p[1..] + t, ""));
        LinesSkipSpace(p[1..], t, "");
      } else {
        assert AllSpace(c + [p[0]]);
        LinesSkipSpace(p[1..], t, c + [p[0]]);
      }
    }
  }

  /** Trailing whitespace of the answer only adds blank lines. */
  lemma {:induction false} LinesEndInSpace(s: string, c: string)
    requires AllSpace(s)
    ensures Keep(LinesAcc(s, c)) == Keep([c])
    decreases |s|
  {
    if s != "" {
      assert AllSpace(s[1..]);
      if s[0] == '\n' {
        KeepCons(c, LinesAcc(s[1..], ""));
        KeepCons(c, []);
        assert s[1..] == s[1..] + "";
        LinesSkipSpace(s[1..], "", "");
        TrimAllSpace("");
      } else {
        LinesEndInSpace(s[1..], c + [s[0]]);
        TrimIgnoresTrailingSpace(c, s[0]);
        KeepCons(c + [s[0]], []);
        KeepCons(c, []);
      }
    }
  }

  lemma {:induction false} LinesDropTrailingSpace(t: string, s: string, c: string)
    requires AllSpace(s)
    ensures Keep(LinesAcc(t + s, c)) == Keep(LinesAcc(t, c))
    decreases |t|
  {
    if t == "" {
      assert t + s == s;
      LinesEndInSpace(s, c);
    } else {
      assert (t + s)[0] == t[0] && (t + s)[1..] == t[1..] + s;
      if t[0] == '\n' {
        KeepCons(c, LinesAcc(t[1..] + s, ""));
        KeepCons(c, LinesAcc(t[1..], ""));
        LinesDropTrailingSpace(t[1..], s, "");
      } else {
        LinesDropTrailingSpace(t[1..], s, c + [t[0]]);
      }
    }
  }

  /** Trimming the answer first changes no line that is kept. */
  lemma LinesOfTrimmed(s: string)
    ensures Keep(Lines(Trim(s))) == Keep(Lines(s))
  {
    var p, q := TrimSplit(s);
    assert p + Trim(s) + q == p + (Trim(s) + q);
    TrimAllSpace("");
    LinesSkipSpace(p, Trim(s) + q, "");
    LinesDropTrailingSpace(Trim(s), q, "");
  }

  /** A run of line feeds adds only blank lines. */
  lemma {:induction false} LinesSkipNewlines(s: string, n: nat)
    requires n <= |s| && forall k :: 0 <= k < n ==> s[k] == '\n'
    ensures Keep(LinesAcc(s, "")) == Keep(LinesAcc(s[n..], ""))
    decreases n
  {
    if n > 0 {
      TrimAllSpace("");
      KeepCons("", LinesAcc(s[1..], ""));
      LinesSkipNewlines(s[1..], n - 1);
      assert s[1..][n - 1..] == s[n..];
    }
  }

  /** Splitting at runs of `\r?\n` keeps the same lines as splitting at
      every line feed, once the pieces are trimmed and the blank ones
      dropped. */
  lemma {:induction false} SplitKeepsLines(s: string, cur: string)
    ensures Keep(SplitAcc(s, cur)) == Keep(LinesAcc(s, cur))
    decreases |s|
  {
    if s != "" {
      var n := BreakAt(s);
      if n > 0 {
        KeepCons(cur, SplitAcc(s[n..], ""));
        SplitKeepsLines(s[n..], "");
        if s[0] == '\n' {
          KeepCons(cur, LinesAcc(s[1..], ""));
          var m := NewlineRun(s);
          LinesSkipNewlines(s[1..], m - 1);
          assert s[1..][m - 1..] == s[n..];
        } else {
          assert s[1] == '\n';
          assert s[1..][0] == '\n';
          TrimIgnoresTrailingSpace(cur, '\r');
          KeepCons(cur + "\r", LinesAcc(s[2..], ""));
          KeepCons(cur, LinesAcc(s[2..], ""));
          var m := NewlineRun(s[1..]);
          LinesSkipNewlines(s[2..], m - 1);
          assert s[1..][1..] == s[2..];
          assert s[2..][m - 1..] == s[n..];
        }
      } else {
        SplitKeepsLines(s[1..], cur + [s[0]]);
      }
    }
  }

  /** The chunks are the answer's lines, in their order, with the blank ones
      dropped and each one cleaned: only a line feed ends a line. */
  lemma ChunksInOrder(content: string)
    ensures var lines := Keep(Lines(content));
      Chunks(content) == seq(|lines|, i requires 0 <= i < |lines| => Clean(lines[i]))
  {
    SplitKeepsLines(Trim(content), "");
    LinesOfTrimmed(content);
  }

  /** With no line feed the scan never cuts. */
  lemma {:induction false} SplitWithoutNewline(s: string, cur: string)
    requires '\n' !in s
    ensures SplitAcc(s, cur) == [cur + s]
    decreases |s|
  {
    if s == "" {
      assert cur + s == cur;
    } else {
      assert '\n' !in s[1..];
      assert cur + [s[0]] + s[1..] == cur + s;
      SplitWithoutNewline(s[1..], cur + [s[0]]);
    }
  }

  /** An answer without a line feed gives at most one chunk. */
  lemma SingleLine(content: string)
    requires '\n' !in content
    ensures Chunks(content) == if Trim(content) == "" then [] else [Clean(Trim(content))]
    ensures |Chunks(content)| <= 1
  {
    var t := Trim(content);
    TrimKeepsNoNewline(content);
    SplitWithoutNewline(t, "");
    assert "" + t == t;
    OnePiece(content);
  }

  lemma OnePiece(content: string)
    requires SplitAcc(Trim(content), "") == [Trim(content)]
    ensures Chunks(content) == if Trim(content) == "" then [] else [Clean(Trim(content))]
  {
    KeepCons(Trim(content), []);
    TrimFixes(Trim(content));
  }

  lemma TrimKeepsNoNewline(s: string)
    requires '\n' !in s
    ensures '\n' !in Trim(s)
  {
    var p, q := TrimSplit(s);
    forall k | 0 <= k < |Trim(s)| ensures Trim(s)[k] != '\n' {
      assert Trim(s)[k] == s[|p| + k];
    }
  }

  /** An answer that is empty or only whitespace gives no chunk. */
  lemma BlankAnswer(content: string)
    requires AllSpace(content)
    ensures Chunks(content) == []
  {
    TrimAllSpace(content);
  }

  /** A carriage return on its own is whitespace inside a chunk. */
  lemma LoneCarriageReturn(x: string, y: string)
    requires x != "" && y != "" && IsOneLine(x) && IsOneLine(y)
    ensures Chunks(x + "\r" + y) == [x + " " + y]
  {
    var s := x + "\r" + y;
    OneLineHasNoLineBreaks(x);
    OneLineHasNoLineBreaks(y);
    assert '\n' !in s;
    EndsKept(x, "\r", y);
    SingleLine(s);
    LoneCrCollapses(x, y);
    SpaceJoinKeepsOneLine(x, y);
    TrimFixes(x + " " + y);
  }

  lemma LoneCrCollapses(x: string, y: string)
    requires x != "" && y != "" && Trimmed(x) && Trimmed(y)
    requires SpacesAreBlank(x) && NoAdjacentSpaces(x) && SpacesAreBlank(y) && NoAdjacentSpaces(y)
    ensures CollapseSpaces(x + "\r" + y) == x + " " + y
  {
    assert x + "\r" + y == x + ("\r" + y);
    CollapseSpacesAppend(x, "\r" + y);
    CollapseSpacesFixes(x);
    CollapseSpacesFixes(y);
    assert ("\r" + y)[1..] == y;
    CollapseFromWord(y);
    assert CollapseSpaces("\r" + y) == " " + y;
    assert x + (" " + y) == x + " " + y;
  }

  /** Text that starts and ends with a non-space character trims to itself. */
  lemma EndsKept(x: string, m: string, y: string)
    requires x != "" && y != "" && Trimmed(x) && Trimmed(y)
    ensures Trim(x + m + y) == x + m + y
  {
    var s := x + m + y;
    assert s[0] == x[0] && s[|s| - 1] == y[|y| - 1];
    TrimFixes(s);
  }

  /** A CR LF pair ends a line as a line feed does. */
  lemma CrLfSplits(x: string, y: string)
    requires x != "" && y != "" && IsOneLine(x) && IsOneLine(y)
    ensures Chunks(x + "\r\n" + y) == [x, y]
  {
    OneLineHasNoLineBreaks(x);
    OneLineHasNoLineBreaks(y);
    EndsKept(x, "\r\n", y);
    CrLfPieces(x, y);
    KeepCons(x, [y]);
    KeepCons(y, []);
    TrimFixes(x);
    TrimFixes(y);
    OneLineClean(x);
    OneLineClean(y);
  }

  lemma CrLfPieces(x: string, y: string)
    requires '\n' !in x && '\r' !in x && '\n' !in y && y != ""
    ensures SplitAcc(x + "\r\n" + y, "") == [x, y]
  {
    var t := "\r\n" + y;
    assert x + "\r\n" + y == x + t;
    SplitPastWord(x, t, "");
    assert "" + x == x;
    assert t[1..][0] == '\n' && t[1..][1..] == y;
    assert NewlineRun(y) == 0;
    assert NewlineRun(t[1..]) == 1;
    assert BreakAt(t) == 2;
    assert t[2..] == y;
    SplitWithoutNewline(y, "");
    assert "" + y == y;
  }

  /** The scan reads a piece without line breaks into the current one. */
  lemma {:induction false} SplitPastWord(x: string, t: string, cur: string)
    requires '\n' !in x && '\r' !in x
    ensures SplitAcc(x + t, cur) == SplitAcc(t, cur + x)
    decreases |x|
  {
    if x == "" {
      assert x + t == t && cur + x == cur;
    } else {
      var s := x + t;
      assert s[0] == x[0] && s[1..] == x[1..] + t;
      assert '\n' !in x[1..] && '\r' !in x[1..];
      assert cur + [x[0]] + x[1..] == cur + x;
      SplitPastWord(x[1..], t, cur + [x[0]]);
    }
  }

  /** A chunk already in one-line form is its own cleaning. */
  lemma OneLineClean(x: string)
    requires IsOneLine(x)
    ensures Clean(x) == x
  {
    CollapseSpacesFixes(x);
    TrimFixes(x);
  }

  /** Each chunk is the route's `oneLine` of its line, as a line holds no
      line feed. */
  lemma CleanIsNormalize(line: string)
    requires '\n' !in line
    ensures Clean(line) == Normalize(line)
  {
    ReplaceLineBreaksFixes(line);
  }
}
