/**
 * The outro route (routes/outro.js) after the language model has answered:
 * the reply is trimmed, an `ssml`, `outro` or `data` field is taken from a
 * JSON-looking reply, the text is forced onto one line inside `<speak>`, the
 * sponsor line of the chosen book is spliced in after `<speak>` unless the
 * text already mentions it, and the result is put on one line again.
 */
module Outro {
  import opened Js
  import opened Text
  import opened Ssml

  /** The pause that follows the spliced sponsor line. */
  const Pause := " <break time=\"400ms\"/> "

  const SponsorIntro := "This episode was brought to you by "
  const SponsorMiddle := ", available at "

  /** `oneLine` of this route: `String(s || '')`, so every falsy value, 0 and
      false included, gives the empty string. */
  function OneLine(v: JsValue): (r: string)
    ensures !Truthy(v) ==> r == ""
    ensures v.Str? ==> r == Normalize(v.s)
    ensures IsOneLine(r)
  {
    Normalize(ToString(Or(v, Str(""))))
  }

  /** `/^<speak>.*<\/speak>$/`: as `.` stops at line terminators, no line
      terminator may stand between the tags. */
  predicate WrappedLine(s: string) {
    FullyWrapped(s) && forall k :: 7 <= k < |s| - 8 ==> !IsLineTerminator(s[k])
  }

  /** `mustWrapSpeak`. */
  function MustWrapSpeak(v: JsValue): (r: string)
    ensures IsOneLine(r) && WrappedLine(r)
    ensures WrappedLine(OneLine(v)) ==> r == OneLine(v)
    ensures !WrappedLine(OneLine(v)) ==> r == Open + OneLine(v) + Close
  {
    var s := OneLine(v);
    if WrappedLine(s) then s
    else
      WrapInSpeak(s);
      OneLineWrappedLine(Open + s + Close);
      Open + s + Close
  }

  /** The sponsor sentence: `This episode was brought to you by ${book.title},
      available at ${book.url}.` */
  function SponsorLine(title: JsValue, url: JsValue): (r: string) {
    SponsorIntro + ToString(title) + SponsorMiddle + ToString(url) + "."
  }

  /** `ssml.toLowerCase().includes(sponsorLine.toLowerCase())`. */
  predicate HasSponsor(ssml: string, line: string) {
    Contains(Lower(ssml), Lower(line))
  }

  /** The replacement text of `String.prototype.replace` when the replacement
      is a string (GetSubstitution of ECMAScript 2024, section 22.1.3.19.1)
      and the pattern has no capture groups: `$$` gives `$`, `$&` the match,
      `` $` `` the text before it, `$'` the text after it, and every other
      `$` stands for itself. */
  function Expand(t: string, matched: string, before: string, after: string): (r: string)
    decreases |t|
  {
    if t == "" then ""
    else if |t| >= 2 && t[0] == '$' && t[1] == '$' then "$" + Expand(t[2..], matched, before, after)
    else if |t| >= 2 && t[0] == '$' && t[1] == '&' then matched + Expand(t[2..], matched, before, after)
    else if |t| >= 2 && t[0] == '$' && t[1] == '`' then before + Expand(t[2..], matched, before, after)
    else if |t| >= 2 && t[0] == '$' && t[1] == '\'' then after + Expand(t[2..], matched, before, after)
    else [t[0]] + Expand(t[1..], matched, before, after)
  }

  /** `ssml.replace(/^<speak>/, `<speak>${sponsorLine} <break time="400ms"/> `)`
      as the code has it: the replacement goes through `Expand`. */
  function InsertAsWritten(ssml: string, line: string): (r: string)
    ensures !StartsWith(ssml, Open) ==> r == ssml
  {
    if StartsWith(ssml, Open) then Expand(Open + line + Pause, Open, "", ssml[7..]) + ssml[7..]
    else ssml
  }

  /** The splice the comment at routes/outro.js:70 describes: the sponsor line
      and the pause, verbatim, right after the opening tag. */
  function Insert(ssml: string, line: string): (r: string)
    ensures StartsWith(ssml, Open) ==> |r| == |line| + |Pause| + |ssml|
    ensures StartsWith(ssml, Open) ==>
      r[..7] == Open && OccursAt(r, line, 7) && r[7 + |line|..] == Pause + ssml[7..]
    ensures !StartsWith(ssml, Open) ==> r == ssml
  {
    if StartsWith(ssml, Open) then Open + line + Pause + ssml[7..] else ssml
  }

  /** Lines 68-75 as written. */
  function SponsorStepAsWritten(ssml: string, line: string): (r: string)
    ensures HasSponsor(ssml, line) ==> r == ssml
    ensures !HasSponsor(ssml, line) ==> r == InsertAsWritten(ssml, line)
  {
    if HasSponsor(ssml, line) then ssml else InsertAsWritten(ssml, line)
  }

  /** Lines 68-75 with the verbatim splice. */
  function SponsorStep(ssml: string, line: string): (r: string)
    ensures HasSponsor(ssml, line) ==> r == ssml
    ensures !HasSponsor(ssml, line) ==> r == Insert(ssml, line)
  {
    if HasSponsor(ssml, line) then ssml else Insert(ssml, line)
  }

  /** `(completion.choices?.[0]?.message?.content || '').trim()`: `None` where
      a truthy content that is not a string has no `trim` to call. */
  function Content(reply: JsValue): (r: Option<string>)
    ensures r.None? <==> !Or(reply, Str("")).Str?
    ensures r.Some? ==> Trimmed(r.value)
    ensures reply.Str? ==> r == Some(Trim(reply.s))
    ensures IsNullish(reply) ==> r == Some("")
  {
    match Or(reply, Str(""))
    case Str(s) => Some(Trim(s))
    case _ => None
  }

  /** `/^\s*{/`. */
  predicate LooksLikeJsonObject(content: string) {
    StartsWith(TrimStart(content), "{")
  }

  /** The first truthy value of `vs`, or `fallback`: a chain of `||`. */
  function FirstTruthy(vs: seq<JsValue>, fallback: JsValue): (r: JsValue)
  {
    if vs == [] then fallback
    else if Truthy(vs[0]) then vs[0]
    else FirstTruthy(vs[1..], fallback)
  }

  /** Lines 53-62: the text to wrap.  A reply that does not parse, parses to
      null, or has none of the three fields truthy falls back to the content. */
  function Extract(content: string, parse: Parser): (r: JsValue)
    ensures Truthy(r) || r == Str(content)
    ensures !LooksLikeJsonObject(content) ==> r == Str(content)
    ensures parse(content).None? ==> r == Str(content)
    ensures LooksLikeJsonObject(content) && parse(content).Some? && IsNullish(parse(content).value) ==> r == Str(content)
    ensures LooksLikeJsonObject(content) && parse(content).Some? && !IsNullish(parse(content).value) ==>
      var p := parse(content).value;
      r == FirstTruthy([Field(p, "ssml"), Field(p, "outro"), Field(p, "data")], Str(content))
  {
    var ssml :=
      if LooksLikeJsonObject(content) then
        match parse(content)
        case None => Str("")
        case Some(p) =>
          if IsNullish(p) then Str("")
          else Or(Or(Or(Field(p, "ssml"), Field(p, "outro")), Field(p, "data")), Str(""))
      else Str("");
    if LooksLikeJsonObject(content) && parse(content).Some? && !IsNullish(parse(content).value) then
      var p := parse(content).value;
      FirstTruthyOfThree(Field(p, "ssml"), Field(p, "outro"), Field(p, "data"), Str(content));
      if Truthy(ssml) then ssml else Str(content)
    else
      if Truthy(ssml) then ssml else Str(content)
  }

  /** What the handler answers: the finished document, or the error answer
      (status 500) when a step throws. */
  datatype Reply = Generated(ssml: string) | Failed

  /** The document the handler sends for the model's `reply` and the chosen
      `book`, as the code has it. */
  function OutroAsWritten(reply: JsValue, book: JsValue, parse: Parser): (r: Reply)
    ensures r.Failed? <==> IsNullish(book) || Content(reply).None?
    ensures r.Generated? ==> IsOneLine(r.ssml) && WrappedLine(r.ssml)
  {
    if IsNullish(book) then Failed
    else
      var line := SponsorLine(Field(book, "title"), Field(book, "url"));
      match Content(reply)
      case None => Failed
      case Some(content) =>
        var wrapped := MustWrapSpeak(Extract(content, parse));
        var spliced := SponsorStepAsWritten(wrapped, line);
        AsWrittenStaysWrapped(wrapped, line);
        NormalizeWrapped(spliced);
        OneLineWrappedLine(Normalize(spliced));
        Generated(OneLine(Str(spliced)))
  }

  /** The same with the verbatim splice. */
  function OutroSsml(reply: JsValue, book: JsValue, parse: Parser): (r: Reply)
    ensures r.Failed? <==> IsNullish(book) || Content(reply).None?
    ensures r.Generated? ==> IsOneLine(r.ssml) && WrappedLine(r.ssml)
  {
    if IsNullish(book) then Failed
    else
      var line := SponsorLine(Field(book, "title"), Field(book, "url"));
      match Content(reply)
      case None => Failed
      case Some(content) =>
        var wrapped := MustWrapSpeak(Extract(content, parse));
        var spliced := SponsorStep(wrapped, line);
        StaysWrapped(wrapped, line);
        NormalizeWrapped(spliced);
        OneLineWrappedLine(Normalize(spliced));
        Generated(OneLine(Str(spliced)))
  }

  /** The handler of routes/outro.js from the model's answer on, reassigning
      `content` and `ssml` stage by stage as the code does. */
  method GenerateOutro(reply: JsValue, book: JsValue, parse: Parser) returns (r: Reply)
    ensures r == OutroAsWritten(reply, book, parse)
    ensures r.Failed? <==> IsNullish(book) || Content(reply).None?
    ensures r.Generated? ==> IsOneLine(r.ssml) && WrappedLine(r.ssml)
  {
    if IsNullish(book) {
      return Failed;
    }
    var sponsorLine := SponsorLine(Field(book, "title"), Field(book, "url"));
    var raw := Or(reply, Str(""));
    if !raw.Str? {
      return Failed;
    }
    var content := Trim(raw.s);
    assert Content(reply) == Some(content);
    var ssml := Str("");
    if LooksLikeJsonObject(content) {
      var parsed := parse(content);
      if parsed.Some? && !IsNullish(parsed.value) {
        var p := parsed.value;
        ssml := Or(Or(Or(Field(p, "ssml"), Field(p, "outro")), Field(p, "data")), Str(""));
      }
    }
    if !Truthy(ssml) {
      ssml := Str(content);
    }
    assert ssml == Extract(content, parse);
    var s := MustWrapSpeak(ssml);
    if !HasSponsor(s, sponsorLine) {
      s := InsertAsWritten(s, sponsorLine);
    }
    s := OneLine(Str(s));
    return Generated(s);
  }

  // ---------------------------------------------------------------- lemmas

  /** On a one-line string the `.` of the wrapper test matches everything,
      so the test is the plain tag test. */
  lemma OneLineWrappedLine(s: string)
    requires IsOneLine(s)
    ensures WrappedLine(s) <==> FullyWrapped(s)
  {
    forall k | 7 <= k < |s| - 8 ensures !IsLineTerminator(s[k]) {
      assert IsSpace(s[k]) ==> s[k] == ' ';
    }
  }

  lemma OneLineIdempotent(v: JsValue)
    ensures OneLine(Str(OneLine(v))) == OneLine(v)
  {
    NormalizeFixes(OneLine(v));
  }

  /** A string already on one line and wrapped comes back unchanged. */
  lemma MustWrapSpeakKeeps(s: string)
    requires IsOneLine(s) && WrappedLine(s)
    ensures MustWrapSpeak(Str(s)) == s
  {
    NormalizeFixes(s);
  }

  lemma MustWrapSpeakIdempotent(v: JsValue)
    ensures MustWrapSpeak(Str(MustWrapSpeak(v))) == MustWrapSpeak(v)
  {
    MustWrapSpeakKeeps(MustWrapSpeak(v));
  }

  /** The sponsor line is the two fixed phrases around the title and the
      address, closed by a full stop. */
  lemma SponsorLineShape(title: JsValue, url: JsValue)
    ensures StartsWith(SponsorLine(title, url), SponsorIntro)
    ensures OccursAt(SponsorLine(title, url), ToString(title), |SponsorIntro|)
    ensures OccursAt(SponsorLine(title, url), SponsorMiddle, |SponsorIntro| + |ToString(title)|)
    ensures SponsorLine(title, url)[|SponsorIntro| + |ToString(title)| + |SponsorMiddle|..] == ToString(url) + "."
  {
    var t, u := ToString(title), ToString(url);
    PartsAt(SponsorIntro, t, SponsorMiddle, u + ".");
    assert SponsorLine(title, url) == SponsorIntro + t + SponsorMiddle + (u + ".");
  }

  lemma PartsAt(a: string, b: string, c: string, d: string)
    ensures StartsWith(a + b + c + d, a)
    ensures OccursAt(a + b + c + d, b, |a|)
    ensures OccursAt(a + b + c + d, c, |a| + |b|)
    ensures (a + b + c + d)[|a| + |b| + |c|..] == d
  {
    var s := a + b + c + d;
    assert s[..|a|] == a;
    assert s[|a|..|a| + |b|] == b;
    assert s[|a| + |b|..|a| + |b| + |c|] == c;
  }

  /** With the reply already trimmed, the JSON test is its first character. */
  lemma LooksLikeJsonObjectTrimmed(content: string)
    requires Trimmed(content)
    ensures LooksLikeJsonObject(content) <==> content != "" && content[0] == '{'
  {
    TrimStartFixes(content);
    StartsWithHead(content, "{");
    if content != "" && content[0] == '{' {
      assert content[..1] == "{";
    }
  }

  /** `FirstTruthy` of three values is the `||` chain of lines 57 and 62. */
  lemma FirstTruthyOfThree(a: JsValue, b: JsValue, c: JsValue, fallback: JsValue)
    ensures FirstTruthy([a, b, c], fallback) == (var s := Or(Or(Or(a, b), c), Str("")); if Truthy(s) then s else fallback)
  {
    assert [a, b, c][1..] == [b, c];
    assert [b, c][1..] == [c];
    assert [c][1..] == [];
    assert FirstTruthy([c], fallback) == if Truthy(c) then c else fallback;
    assert FirstTruthy([b, c], fallback) == if Truthy(b) then b else FirstTruthy([c], fallback);
  }

  /** The text of `Expand` is the template wherever it holds no `$`. */
  lemma {:induction false} ExpandPlain(t: string, matched: string, before: string, after: string)
    requires '$' !in t
    ensures Expand(t, matched, before, after) == t
    decreases |t|
  {
    if t != "" {
      assert '$' !in t[1..];
      ExpandPlain(t[1..], matched, before, after);
    }
  }

  lemma {:induction false} ExpandAppend(p: string, t: string, matched: string, before: string, after: string)
    requires '$' !in p
    ensures Expand(p + t, matched, before, after) == p + Expand(t, matched, before, after)
    decreases |p|
  {
    if p == "" {
      assert p + t == t;
    } else {
      assert (p + t)[0] == p[0] && (p + t)[1..] == p[1..] + t;
      assert '$' !in p[1..];
      ExpandAppend(p[1..], t, matched, before, after);
    }
  }

  /** `$&` in the template stands for the match. */
  lemma ExpandMatch(t: string, matched: string, before: string, after: string)
    ensures Expand("$&" + t, matched, before, after) == matched + Expand(t, matched, before, after)
  {
    assert ("$&" + t)[2..] == t;
  }

  /** With no `$` in the sponsor line the code does what its comment says. */
  lemma AsWrittenMatchesIntended(ssml: string, line: string)
    requires '$' !in line
    ensures InsertAsWritten(ssml, line) == Insert(ssml, line)
    ensures SponsorStepAsWritten(ssml, line) == SponsorStep(ssml, line)
  {
    if StartsWith(ssml, Open) {
      assert '$' !in Pause;
      assert '$' !in Open;
      assert '$' !in Open + line + Pause;
      ExpandPlain(Open + line + Pause, Open, "", ssml[7..]);
    }
  }

  /** A sponsor line without `$` is spliced in verbatim by the code as
      written, so the handler then sends the intended document. */
  lemma OutroAgreesWithoutDollar(reply: JsValue, book: JsValue, parse: Parser)
    requires !IsNullish(book) && '$' !in SponsorLine(Field(book, "title"), Field(book, "url"))
    ensures OutroAsWritten(reply, book, parse) == OutroSsml(reply, book, parse)
  {
    if Content(reply).Some? {
      var wrapped := MustWrapSpeak(Extract(Content(reply).value, parse));
      AsWrittenMatchesIntended(wrapped, SponsorLine(Field(book, "title"), Field(book, "url")));
    }
  }

  /** The splice keeps a wrapped document wrapped. */
  lemma StaysWrapped(ssml: string, line: string)
    requires FullyWrapped(ssml)
    ensures FullyWrapped(SponsorStep(ssml, line))
  {
    var inner := Inner(ssml);
    assert ssml[7..] == inner + Close;
    assert Open + line + Pause + (inner + Close) == Open + (line + Pause + inner) + Close;
    Wrapped(line + Pause + inner);
  }

  lemma AsWrittenStaysWrapped(ssml: string, line: string)
    requires FullyWrapped(ssml)
    ensures FullyWrapped(SponsorStepAsWritten(ssml, line))
  {
    var inner := Inner(ssml);
    var e := Expand(line + Pause, Open, "", ssml[7..]);
    assert '$' !in Open;
    ExpandAppend(Open, line + Pause, Open, "", ssml[7..]);
    assert Open + line + Pause == Open + (line + Pause);
    assert ssml[7..] == inner + Close;
    assert Open + e + (inner + Close) == Open + (e + inner) + Close;
    Wrapped(e + inner);
  }

  /** The splice puts the line into the document, so a second splice finds
      it: the sponsor line goes in at most once. */
  lemma SponsorStepOnce(ssml: string, line: string)
    requires StartsWith(ssml, Open)
    ensures HasSponsor(SponsorStep(ssml, line), line)
    ensures SponsorStep(SponsorStep(ssml, line), line) == SponsorStep(ssml, line)
  {
    if !HasSponsor(ssml, line) {
      var r := Insert(ssml, line);
      assert 0 <= 7 <= |r| - |line| && OccursAt(r, line, 7);
      ContainsLower(r, line);
    }
  }

  /** A sponsor line already in one-line form is in the final document,
      whatever the case of the letters the model used. */
  lemma OutroHasSponsor(reply: JsValue, book: JsValue, parse: Parser)
    requires !IsNullish(book) && IsOneLine(SponsorLine(Field(book, "title"), Field(book, "url")))
    requires OutroSsml(reply, book, parse).Generated?
    ensures HasSponsor(OutroSsml(reply, book, parse).ssml, SponsorLine(Field(book, "title"), Field(book, "url")))
  {
    var line := SponsorLine(Field(book, "title"), Field(book, "url"));
    var wrapped := MustWrapSpeak(Extract(Content(reply).value, parse));
    FinalHasSponsor(wrapped, line);
  }

  lemma FinalHasSponsor(wrapped: string, line: string)
    requires IsOneLine(wrapped) && FullyWrapped(wrapped) && IsOneLine(line)
    ensures HasSponsor(Normalize(SponsorStep(wrapped, line)), line)
  {
    if HasSponsor(wrapped, line) {
      NormalizeFixes(wrapped);
    } else {
      var a := Open + line;
      TagsHaveNoSpace();
      PrefixKeepsOneLine(Open, line);
      assert Open + line + Pause + wrapped[7..] == a + (Pause + wrapped[7..]);
      NormalizeKeepsPrefix(a, Pause + wrapped[7..]);
      var f := Normalize(SponsorStep(wrapped, line));
      assert f[7..7 + |line|] == a[7..] == line;
      assert 0 <= 7 <= |f| - |line| && OccursAt(f, line, 7);
      ContainsLower(f, line);
    }
  }

  /** The final `oneLine` leaves the document the splice built on one line. */
  lemma OutroIsFinal(reply: JsValue, book: JsValue, parse: Parser)
    requires OutroSsml(reply, book, parse).Generated?
    ensures MustWrapSpeak(Str(OutroSsml(reply, book, parse).ssml)) == OutroSsml(reply, book, parse).ssml
  {
    MustWrapSpeakKeeps(OutroSsml(reply, book, parse).ssml);
  }

  /** A `$&` in the sponsor line is replaced by `<speak>` as the code has
      it, so when the document had no `$` to begin with the final document
      cannot hold the sponsor line. */
  lemma DollarLosesSponsor(wrapped: string, p: string, q: string)
    requires FullyWrapped(wrapped) && '$' !in wrapped
    requires '$' !in p && '$' !in q
    ensures '$' !in Normalize(SponsorStepAsWritten(wrapped, p + "$&" + q))
    ensures !HasSponsor(Normalize(SponsorStepAsWritten(wrapped, p + "$&" + q)), p + "$&" + q)
  {
    var line := p + "$&" + q;
    var rest := wrapped[7..];
    assert '$' !in rest;
    assert (Lower(line))[|p|] == '$';
    NotContainedByChar(Lower(wrapped), Lower(line), |p|) by {
      LowerNoNewChar(wrapped, '$');
    }
    var e := Expand(q + Pause, Open, "", rest);
    assert '$' !in Open && '$' !in Pause;
    assert Open + line + Pause == (Open + p) + ("$&" + (q + Pause));
    ExpandAppend(Open + p, "$&" + (q + Pause), Open, "", rest);
    ExpandMatch(q + Pause, Open, "", rest);
    ExpandPlain(q + Pause, Open, "", rest);
    var s := SponsorStepAsWritten(wrapped, line);
    assert s == Open + p + (Open + (q + Pause)) + rest;
    assert '$' !in s;
    NormalizeNoNewChar(s, '$');
    var f := Normalize(s);
    LowerNoNewChar(f, '$');
    NotContainedByChar(Lower(f), Lower(line), |p|);
  }

  /** A book titled `$&` with an empty reply: the code sends a document
      without the sponsor line, where the verbatim splice puts it in. */
  lemma DollarTitle(parse: Parser, url: string)
    requires '$' !in url
    ensures var book := Obj(map["title" := Str("$&"), "url" := Str(url)]);
      var line := SponsorLine(Str("$&"), Str(url));
      && OutroAsWritten(Undefined, book, parse).Generated?
      && !HasSponsor(OutroAsWritten(Undefined, book, parse).ssml, line)
      && HasSponsor(SponsorStep(Open + Close, line), line)
  {
    var book := Obj(map["title" := Str("$&"), "url" := Str(url)]);
    assert Field(book, "title") == Str("$&") && Field(book, "url") == Str(url);
    EmptyReplyAsWritten(book, parse);
    DollarLine(url);
  }

  /** The sponsor line of a `$&` title is lost by the code's splice. */
  lemma DollarLine(url: string)
    requires '$' !in url
    ensures !HasSponsor(Normalize(SponsorStepAsWritten(Open + Close, SponsorLine(Str("$&"), Str(url)))), SponsorLine(Str("$&"), Str(url)))
    ensures HasSponsor(SponsorStep(Open + Close, SponsorLine(Str("$&"), Str(url))), SponsorLine(Str("$&"), Str(url)))
  {
    var line := SponsorLine(Str("$&"), Str(url));
    var p, q := SponsorIntro, SponsorMiddle + url + ".";
    Regroup(SponsorIntro, "$&", SponsorMiddle, url, ".");
    assert '$' !in p;
    assert '$' !in SponsorMiddle;
    assert '$' !in q;
    Wrapped("");
    assert Open + "" + Close == Open + Close;
    assert '$' !in Open + Close;
    DollarLosesSponsor(Open + Close, p, q);
    SponsorStepOnce(Open + Close, line);
  }

  lemma Regroup(a: string, b: string, c: string, d: string, e: string)
    ensures a + b + c + d + e == a + b + (c + d + e)
  {
  }

  /** With an empty reply the document before the splice is empty. */
  lemma EmptyReplyAsWritten(book: JsValue, parse: Parser)
    requires !IsNullish(book)
    ensures OutroAsWritten(Undefined, book, parse)
      == Generated(Normalize(SponsorStepAsWritten(Open + Close, SponsorLine(Field(book, "title"), Field(book, "url")))))
  {
    EmptyReplyWraps(parse);
  }

  /** An empty reply gives the empty document before the splice. */
  lemma EmptyReplyWraps(parse: Parser)
    ensures MustWrapSpeak(Extract("", parse)) == Open + Close
  {
    assert Extract("", parse) == Str("");
    assert Normalize("") == "";
    assert !FullyWrapped("");
  }
}
