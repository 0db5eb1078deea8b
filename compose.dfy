/**
 * The composer route (routes/compose.js): its helpers `oneLine`,
 * `stripSpeak`, `ensureSpeak`, `normaliseToArray` and `toPlain`, and the
 * body of `/ready-for-tts`, which merges the intro, main and outro sections
 * into one `<speak>` document and builds the text-to-speech request.
 */
module Compose {
  import opened Js
  import opened Text
  import opened Ssml

  /** The pause put between sections and between main chunks. */
  const Spacer := "<break time=\"700ms\"/>"
  const Sep := " " + Spacer + " "

  /** `String(s ?? '')`. */
  function TextOf(v: JsValue): (r: string)
    ensures IsNullish(v) ==> r == ""
    ensures v.Str? ==> r == v.s
  {
    ToString(Coalesce(v, Str("")))
  }

  /** `oneLine`: line breaks and whitespace runs become single spaces and
      the ends are trimmed; null and undefined give the empty string. */
  function OneLine(v: JsValue): (r: string)
    ensures IsNullish(v) ==> r == ""
    ensures v.Str? ==> r == Normalize(v.s)
    ensures IsOneLine(r)
  {
    Normalize(TextOf(v))
  }

  /** The literal `<speak>` opening, in any ASCII case, as `/^<speak>/i` finds it. */
  predicate HasOpenTag(s: string) {
    |s| >= 7 && EqualsIgnoringCase(s[..7], Open)
  }

  /** The literal `</speak>` closing, in any ASCII case, as `/<\/speak>$/i` finds it. */
  predicate HasCloseTag(s: string) {
    |s| >= 8 && EqualsIgnoringCase(s[|s| - 8..], Close)
  }

  /** `stripSpeak` on a string: the opening tag is removed first, then the
      closing tag from what is left. */
  function StripSpeakText(s: string): (r: string)
    ensures |r| <= |s|
    ensures !HasOpenTag(s) && !HasCloseTag(s) ==> r == s
  {
    var a := if HasOpenTag(s) then s[7..] else s;
    if HasCloseTag(a) then a[..|a| - 8] else a
  }

  /** `stripSpeak`. */
  function StripSpeak(v: JsValue): (r: string)
    ensures IsNullish(v) ==> r == ""
  {
    StripSpeakText(TextOf(v))
  }

  /** `ensureSpeak`. */
  function EnsureSpeak(v: JsValue): (r: string)
    ensures IsOneLine(r) && FullyWrapped(r)
    ensures FullyWrapped(OneLine(v)) ==> r == OneLine(v)
  {
    var t := OneLine(v);
    if FullyWrapped(t) then t
    else
      WrapInSpeak(t);
      Open + t + Close
  }

  /** `[` … `]` or `{` … `}` around a trimmed string. */
  predicate Bracketed(m: string) {
    (StartsWith(m, "[") && EndsWith(m, "]")) || (StartsWith(m, "{") && EndsWith(m, "}"))
  }

  /** `normaliseToArray`: a request field as a list of values. */
  function NormaliseToArray(val: JsValue, parse: Parser): (r: seq<JsValue>)
    ensures IsNullish(val) ==> r == []
    ensures val.Arr? ==> r == val.items
    ensures val.Str? && !Bracketed(Trim(val.s)) ==> r == [val]
    ensures val.Str? && parse(Trim(val.s)).None? ==> r == [val]
    ensures val.Str? && Bracketed(Trim(val.s)) && parse(Trim(val.s)).Some? ==>
      var p := parse(Trim(val.s)).value;
      r == if p.Arr? then p.items else [p]
    ensures !IsNullish(val) && !val.Arr? && !val.Str? ==> r == [val]
  {
    match val
    case Undefined => []
    case Null => []
    case Arr(items) => items
    case Str(s) =>
      var maybe := Trim(s);
      if Bracketed(maybe) then
        match parse(maybe)
        case Some(parsed) => if parsed.Arr? then parsed.items else [parsed]
        case None => [val]
      else [val]
    case _ => [val]
  }

  /** The per-fragment cleaning of the handler: a fully wrapped fragment
      loses its outer tags and keeps its inside exactly as written; any
      other fragment goes through `oneLine`. */
  function Clean(s: string): (r: string)
    ensures FullyWrapped(s) ==> r == s[7..|s| - 8]
    ensures !FullyWrapped(s) ==> r == Normalize(s) && IsOneLine(r)
  {
    if FullyWrapped(s) then
      StripWrapped(s);
      StripSpeakText(s)
    else OneLine(Str(s))
  }

  /** A fragment of two words on separate lines is cleaned to the two words
      with a single blank where the line break and its indentation were. */
  lemma CleanJoinsLines(a: string, w: string, b: string)
    requires a != "" && a[0] != '<' && NoSpace(a) && w != "" && AllSpace(w) && b != "" && NoSpace(b)
    ensures Clean(a + w + b) == a + " " + b
  {
    assert (a + w + b)[0] == a[0];
    SimpleNotWrapped(a + w + b);
    NormalizeGap(a, w, b);
    NormalizeKeepsWord(a);
    NormalizeKeepsWord(b);
  }

  /** A main fragment: `typeof x === 'string' ? x : String(x ?? '')`. */
  function MainFragment(x: JsValue): (r: string)
    ensures r == Clean(TextOf(x))
    ensures IsNullish(x) ==> r == ""
  {
    Clean(if x.Str? then x.s else TextOf(x))
  }

  /** An intro or outro fragment: `String(x)`, so null gives "null". */
  function SideFragment(x: JsValue): (r: string)
  {
    Clean(ToString(x))
  }

  /** The cleaned main fragments, in order. */
  function MainFragments(items: seq<JsValue>): (r: seq<string>)
    ensures |r| == |items|
    ensures forall i :: 0 <= i < |items| ==> r[i] == MainFragment(items[i])
  {
    seq(|items|, i requires 0 <= i < |items| => MainFragment(items[i]))
  }

  /** `contentChunks`: the cleaned main fragments with the empty ones dropped. */
  function ContentChunks(items: seq<JsValue>): (r: seq<string>)
    ensures forall i :: 0 <= i < |r| ==> r[i] != ""
    ensures |r| <= |items|
  {
    NonEmpty(MainFragments(items))
  }

  /** `introStr` / `outroStr`: the cleaned fragments joined by single spaces,
      empty ones included. */
  function SideText(items: seq<JsValue>): (r: string)
    ensures items == [] ==> r == ""
    ensures |items| == 1 ==> r == SideFragment(items[0])
  {
    Join(" ", seq(|items|, i requires 0 <= i < |items| => SideFragment(items[i])))
  }

  /** The merged inside of the document: the non-empty ones among the intro
      text, the joined main chunks and the outro text, in that order, joined
      by the spacer. */
  function MergedInner(introStr: string, chunks: seq<string>, outroStr: string): (r: string) {
    Join(Sep, NonEmpty([introStr, Join(Sep, chunks), outroStr]))
  }

  /** The `sections` array of the handler, built by conditional pushes. */
  method MergeSections(introStr: string, chunks: seq<string>, outroStr: string) returns (mergedInner: string)
    requires forall i :: 0 <= i < |chunks| ==> chunks[i] != ""
    ensures mergedInner == MergedInner(introStr, chunks, outroStr)
  {
    var sections: seq<string> := [];
    if introStr != "" {
      sections := sections + [introStr];
    }
    if |chunks| > 0 {
      sections := sections + [Join(Sep, chunks)];
    }
    if outroStr != "" {
      sections := sections + [outroStr];
    }
    var body := Join(Sep, chunks);
    JoinNonEmpty(Sep, chunks);
    assert [introStr, body, outroStr] == [introStr] + [body, outroStr];
    assert [body, outroStr] == [body] + [outroStr];
    assert [outroStr] == [outroStr] + [];
    NonEmptyCons(introStr, [body, outroStr]);
    NonEmptyCons(body, [outroStr]);
    NonEmptyCons(outroStr, []);
    assert sections == NonEmpty([introStr, body, outroStr]);
    mergedInner := Join(Sep, sections);
  }

  /** A complete `<break…>` tag opens `s`: `<break` and, later, a `>`. */
  predicate BreakTagAt(s: string) {
    StartsWith(s, "<break") && '>' in s[6..]
  }

  /** How much of `s` the tag `/<break[^>]*>/` takes: up to the first `>`
      after `<break`. */
  function BreakTagLength(s: string): (n: nat)
    requires BreakTagAt(s)
    ensures 7 <= n <= |s| && s[n - 1] == '>' && '>' !in s[6..n - 1]
  {
    var j := IndexOf(s[6..], '>');
    assert s[6..][..j] == s[6..6 + j];
    7 + j
  }

  /** `s.replace(/<break[^>]*>/g, ' ')`. */
  function ReplaceBreaks(s: string): (r: string)
    decreases |s|
  {
    if s == "" then ""
    else if BreakTagAt(s) then " " + ReplaceBreaks(s[BreakTagLength(s)..])
    else [s[0]] + ReplaceBreaks(s[1..])
  }

  /** No complete `<break…>` tag starts anywhere in `s`. */
  predicate NoCompleteBreak(s: string) {
    forall i :: 0 <= i < |s| ==> !BreakTagAt(s[i..])
  }

  /** `toPlain`: the transcript text of a document. */
  function ToPlain(ssml: string): (r: string)
    ensures Trimmed(r) && NoLineBreaks(r) && NoCompleteBreak(r)
  {
    var stripped := StripSpeakText(OneLine(Str(ssml)));
    var replaced := ReplaceBreaks(stripped);
    ToPlainShape(OneLine(Str(ssml)), stripped, replaced);
    Trim(replaced)
  }

  /** The `transcript` part of the response. */
  datatype Transcript = Transcript(plain: string, ssml: string)

  /** The request body prepared for the text-to-speech service. */
  datatype TtsBody = TtsBody(text: string, voice: JsValue, audioConfig: JsValue, r2Prefix: JsValue)

  datatype TtsMaker = TtsMaker(endpoint: string, body: TtsBody)

  datatype Response = Response(transcript: Transcript, ttsMaker: TtsMaker)

  /** What `/ready-for-tts` answers: the response, or status 400 with the
      error "Invalid input". */
  datatype Outcome = Ready(response: Response) | InvalidInput

  const Endpoint := "/tts/chunked"
  const DefaultVoiceName := "en-GB-Wavenet-B"
  const DefaultR2Prefix := "podcast"

  /** `{ audioEncoding: 'MP3', speakingRate: 1.0 }`. */
  const DefaultAudioConfig := Obj(map["audioEncoding" := Str("MP3"), "speakingRate" := Other("1", true)])

  /** `{ languageCode: 'en-GB', name }`. */
  function DefaultVoice(name: JsValue): (r: JsValue)
    ensures r.Obj? && r.fields.Keys == {"languageCode", "name"}
    ensures r.fields["languageCode"] == Str("en-GB") && r.fields["name"] == name
  {
    Obj(map["languageCode" := Str("en-GB"), "name" := name])
  }

  /** `typeof req.body === 'string' ? JSON.parse(req.body) : (req.body || {})`;
      `None` where `JSON.parse` throws. */
  function RequestBody(reqBody: JsValue, parse: Parser): (r: Option<JsValue>)
    ensures reqBody.Str? ==> r == parse(reqBody.s)
    ensures !reqBody.Str? ==> r.Some? && Truthy(r.value)
    ensures !reqBody.Str? && Truthy(reqBody) ==> r == Some(reqBody)
  {
    if reqBody.Str? then parse(reqBody.s) else Some(Or(reqBody, Obj(map[])))
  }

  /** The items the main section is made of: `mainChunks` when it gives a
      non-empty list, `main` otherwise. */
  function ContentItems(body: JsValue, parse: Parser): (r: seq<JsValue>)
    requires !IsNullish(body)
  {
    var main := NormaliseToArray(Field(body, "main"), parse);
    var mainChunks := NormaliseToArray(Field(body, "mainChunks"), parse);
    if |mainChunks| > 0 then mainChunks else main
  }

  /** `mergedInner` for a request body. */
  function Merged(body: JsValue, parse: Parser): (r: string)
    requires !IsNullish(body)
  {
    var introStr := SideText(NormaliseToArray(Field(body, "intro"), parse));
    var outroStr := SideText(NormaliseToArray(Field(body, "outro"), parse));
    MergedInner(introStr, ContentChunks(ContentItems(body, parse)), outroStr)
  }

  /** `body.name || body.voiceName || 'en-GB-Wavenet-B'`. */
  function VoiceName(body: JsValue): (r: JsValue)
    requires !IsNullish(body)
    ensures Truthy(r)
    ensures Truthy(Field(body, "name")) ==> r == Field(body, "name")
    ensures !Truthy(Field(body, "name")) && Truthy(Field(body, "voiceName")) ==> r == Field(body, "voiceName")
    ensures !Truthy(Field(body, "name")) && !Truthy(Field(body, "voiceName")) ==> r == Str(DefaultVoiceName)
  {
    Or(Or(Field(body, "name"), Field(body, "voiceName")), Str(DefaultVoiceName))
  }

  /** `body.voice || { languageCode: 'en-GB', name: voiceName }`. */
  function Voice(body: JsValue): (r: JsValue)
    requires !IsNullish(body)
    ensures Truthy(r)
    ensures Truthy(Field(body, "voice")) ==> r == Field(body, "voice")
    ensures !Truthy(Field(body, "voice")) ==> r == DefaultVoice(VoiceName(body))
  {
    Or(Field(body, "voice"), DefaultVoice(VoiceName(body)))
  }

  /** `body.audioConfig || { audioEncoding: 'MP3', speakingRate: 1.0 }`. */
  function AudioConfig(body: JsValue): (r: JsValue)
    requires !IsNullish(body)
    ensures Truthy(r)
    ensures Truthy(Field(body, "audioConfig")) ==> r == Field(body, "audioConfig")
    ensures !Truthy(Field(body, "audioConfig")) ==> r == DefaultAudioConfig
  {
    Or(Field(body, "audioConfig"), DefaultAudioConfig)
  }

  /** `body.r2Prefix || body.R2_PREFIX || 'podcast'`. */
  function R2Prefix(body: JsValue): (r: JsValue)
    requires !IsNullish(body)
    ensures Truthy(r)
    ensures Truthy(Field(body, "r2Prefix")) ==> r == Field(body, "r2Prefix")
    ensures !Truthy(Field(body, "r2Prefix")) && Truthy(Field(body, "R2_PREFIX")) ==> r == Field(body, "R2_PREFIX")
    ensures !Truthy(Field(body, "r2Prefix")) && !Truthy(Field(body, "R2_PREFIX")) ==> r == Str(DefaultR2Prefix)
  {
    Or(Or(Field(body, "r2Prefix"), Field(body, "R2_PREFIX")), Str(DefaultR2Prefix))
  }

  /** The response built for a request body. */
  function Respond(body: JsValue, parse: Parser): (r: Response)
    requires !IsNullish(body)
    ensures r.ttsMaker.endpoint == Endpoint
    ensures r.ttsMaker.body.text == r.transcript.ssml
    ensures IsOneLine(r.transcript.ssml) && FullyWrapped(r.transcript.ssml)
    ensures r.transcript.ssml == EnsureSpeak(Str(Merged(body, parse)))
    ensures r.transcript.plain == ToPlain(r.transcript.ssml)
    ensures r.ttsMaker.body.voice == Voice(body)
    ensures r.ttsMaker.body.audioConfig == AudioConfig(body)
    ensures r.ttsMaker.body.r2Prefix == R2Prefix(body)
  {
    var ssml := EnsureSpeak(Str(Merged(body, parse)));
    Response(
      Transcript(ToPlain(ssml), ssml),
      TtsMaker(Endpoint, TtsBody(ssml, Voice(body), AudioConfig(body), R2Prefix(body))))
  }

  /** The `/ready-for-tts` handler.  It fails only where `JSON.parse` throws
      on a string body or the body parses to null or undefined. */
  function ReadyForTts(reqBody: JsValue, parse: Parser): (r: Outcome)
    ensures r.InvalidInput? <==>
      RequestBody(reqBody, parse).None? || IsNullish(RequestBody(reqBody, parse).value)
    ensures r.Ready? ==> r.response == Respond(RequestBody(reqBody, parse).value, parse)
  {
    match RequestBody(reqBody, parse)
    case None => InvalidInput
    case Some(body) => if IsNullish(body) then InvalidInput else Ready(Respond(body, parse))
  }

  // ---------------------------------------------------------------- lemmas

  /** A fully wrapped string loses exactly its outer tags. */
  lemma StripWrapped(s: string)
    requires FullyWrapped(s)
    ensures StripSpeakText(s) == s[7..|s| - 8]
  {
    assert s[..7] == Open;
    var a := s[7..];
    assert a[|a| - 8..] == s[|s| - 8..] == Close;
    assert a[..|a| - 8] == s[7..|s| - 8];
  }

  /** `stripSpeak` undoes a wrapper written in any ASCII case. */
  lemma StripSpeakRoundTrip(p: string, t: string, q: string)
    requires |p| == 7 && EqualsIgnoringCase(p, Open)
    requires |q| == 8 && EqualsIgnoringCase(q, Close)
    ensures StripSpeakText(p + t + q) == t
  {
    var s := p + t + q;
    assert s[..7] == p;
    var a := s[7..];
    assert a == t + q;
    assert a[|a| - 8..] == q;
    assert a[..|a| - 8] == t;
  }

  /** `oneLine` is idempotent. */
  lemma OneLineIdempotent(v: JsValue)
    ensures OneLine(Str(OneLine(v))) == OneLine(v)
  {
    NormalizeIdempotent(TextOf(v));
  }

  /** `ensureSpeak` is idempotent. */
  lemma EnsureSpeakIdempotent(v: JsValue)
    ensures EnsureSpeak(Str(EnsureSpeak(v))) == EnsureSpeak(v)
  {
    var r := EnsureSpeak(v);
    NormalizeFixes(r);
  }

  /** When `ensureSpeak` adds the wrapper, stripping it gives back the
      `oneLine` text. */
  lemma EnsureSpeakStrips(v: JsValue)
    requires !FullyWrapped(OneLine(v))
    ensures StripSpeakText(EnsureSpeak(v)) == OneLine(v)
  {
    StripSpeakRoundTrip(Open, OneLine(v), Close);
  }

  /** Joining non-empty strings gives a non-empty string exactly when there
      is at least one. */
  lemma {:induction false} JoinNonEmpty(sep: string, xs: seq<string>)
    requires forall i :: 0 <= i < |xs| ==> xs[i] != ""
    ensures Join(sep, xs) != "" <==> |xs| > 0
    decreases |xs|
  {
    if |xs| > 1 {
      JoinNonEmpty(sep, xs[1..]);
    }
  }

  /** Every character of a `stripSpeak` result comes from its input. */
  lemma StripSpeakKeepsChars(s: string)
    ensures forall c :: c in StripSpeakText(s) ==> c in s
  {
    var a := if HasOpenTag(s) then s[7..] else s;
    assert forall c :: c in a ==> c in s;
    if HasCloseTag(a) {
      assert forall c :: c in a[..|a| - 8] ==> c in a;
    }
  }

  /** Every character of `ReplaceBreaks(s)` is a space or comes from `s`. */
  lemma {:induction false} ReplaceBreaksKeepsChars(s: string)
    ensures forall c :: c in ReplaceBreaks(s) ==> c == ' ' || c in s
    decreases |s|
  {
    if s != "" {
      if BreakTagAt(s) {
        var n := BreakTagLength(s);
        ReplaceBreaksKeepsChars(s[n..]);
        assert forall c :: c in s[n..] ==> c in s;
      } else {
        ReplaceBreaksKeepsChars(s[1..]);
        assert forall c :: c in s[1..] ==> c in s;
      }
    }
  }

  /** A prefix of the output without spaces was copied from the input. */
  lemma {:induction false} CopiedPrefix(t: string, w: string)
    requires ' ' !in w && StartsWith(ReplaceBreaks(t), w)
    ensures StartsWith(t, w) && ReplaceBreaks(t) == w + ReplaceBreaks(t[|w|..])
    decreases |w|
  {
    if w != "" {
      CopiedFirst(t, w);
      var u, v := t[1..], w[1..];
      CopiedPrefix(u, v);
      assert u[|v|..] == t[|w|..];
      assert w == [t[0]] + v;
      assert t[..|w|] == [t[0]] + u[..|v|];
      assert [t[0]] + (v + ReplaceBreaks(t[|w|..])) == w + ReplaceBreaks(t[|w|..]);
    }
  }

  /** The first character of a copied prefix. */
  lemma CopiedFirst(t: string, w: string)
    requires w != "" && ' ' !in w && StartsWith(ReplaceBreaks(t), w)
    ensures t != "" && t[0] == w[0] && ReplaceBreaks(t) == [t[0]] + ReplaceBreaks(t[1..])
    ensures ' ' !in w[1..] && StartsWith(ReplaceBreaks(t[1..]), w[1..])
  {
    var r := ReplaceBreaks(t);
    assert r[0] == w[0];
    assert t != "" && !BreakTagAt(t);
    assert r == [t[0]] + ReplaceBreaks(t[1..]);
    assert ReplaceBreaks(t[1..])[..|w| - 1] == r[1..|w|] == w[1..];
  }

  /** `/<break[^>]*>/g` leaves no complete break tag behind. */
  lemma {:induction false} ReplaceBreaksLeavesNoTag(s: string)
    ensures NoCompleteBreak(ReplaceBreaks(s))
    decreases |s|
  {
    if s != "" {
      var r := ReplaceBreaks(s);
      if BreakTagAt(s) {
        var rest := s[BreakTagLength(s)..];
        ReplaceBreaksLeavesNoTag(rest);
        forall i | 0 <= i < |r| ensures !BreakTagAt(r[i..]) {
          if i > 0 {
            assert r[i..] == ReplaceBreaks(rest)[i - 1..];
          } else {
            assert r[0] == ' ';
          }
        }
      } else {
        ReplaceBreaksLeavesNoTag(s[1..]);
        forall i | 0 <= i < |r| ensures !BreakTagAt(r[i..]) {
          if i > 0 {
            assert r[i..] == ReplaceBreaks(s[1..])[i - 1..];
          } else if BreakTagAt(r) {
            FirstTagCopied(s);
          }
        }
      }
    }
  }

  /** Where the scan copies the first character, no tag can start the
      output. */
  lemma FirstTagCopied(s: string)
    requires s != "" && !BreakTagAt(s)
    ensures !BreakTagAt(ReplaceBreaks(s))
  {
    var r := ReplaceBreaks(s);
    if BreakTagAt(r) {
      assert r == [s[0]] + ReplaceBreaks(s[1..]);
      assert s[0] == '<';
      assert StartsWith(ReplaceBreaks(s[1..]), "break") by {
        assert ReplaceBreaks(s[1..])[..5] == r[1..6];
      }
      CopiedPrefix(s[1..], "break");
      assert s[..6] == "<break" by {
        assert s[..6] == [s[0]] + s[1..][..5];
      }
      assert s[1..][5..] == s[6..];
      ReplaceBreaksKeepsChars(s[6..]);
      assert false;
    }
  }

  /** A piece of a string without complete break tags has none either. */
  lemma SliceKeepsNoCompleteBreak(s: string, a: nat, b: nat)
    requires a <= b <= |s| && NoCompleteBreak(s)
    ensures NoCompleteBreak(s[a..b])
  {
    var x := s[a..b];
    forall i | 0 <= i < |x| ensures !BreakTagAt(x[i..]) {
      assert !BreakTagAt(s[a + i..]);
      if StartsWith(x[i..], "<break") {
        assert x[i..][..6] == s[a + i..][..6];
        assert forall c :: c in x[i..][6..] ==> c in s[a + i..][6..];
      }
    }
  }

  lemma ToPlainShape(line: string, stripped: string, replaced: string)
    requires IsOneLine(line) && stripped == StripSpeakText(line) && replaced == ReplaceBreaks(stripped)
    ensures Trimmed(Trim(replaced)) && NoLineBreaks(Trim(replaced)) && NoCompleteBreak(Trim(replaced))
  {
    OneLineHasNoLineBreaks(line);
    StripSpeakKeepsChars(line);
    ReplaceBreaksKeepsChars(stripped);
    ReplaceBreaksLeavesNoTag(stripped);
    TrimIsSlice(replaced);
    var a, b :| 0 <= a <= b <= |replaced| && Trim(replaced) == replaced[a..b];
    SliceKeepsNoCompleteBreak(replaced, a, b);
    assert forall c :: c in replaced[a..b] ==> c in replaced;
  }

  /** The merged inside is the spacer-join of the non-empty ones among the
      intro text, each main chunk and the outro text, in that order: an empty
      section adds no spacer. */
  lemma MergedInnerFlat(introStr: string, chunks: seq<string>, outroStr: string)
    requires forall i :: 0 <= i < |chunks| ==> chunks[i] != ""
    ensures MergedInner(introStr, chunks, outroStr) == Join(Sep, NonEmpty([introStr] + chunks + [outroStr]))
  {
    JoinSectionsFlat(Sep, introStr, chunks, outroStr);
  }

  lemma JoinSectionsFlat(sep: string, x: string, ys: seq<string>, z: string)
    requires forall i :: 0 <= i < |ys| ==> ys[i] != ""
    ensures Join(sep, NonEmpty([x, Join(sep, ys), z])) == Join(sep, NonEmpty([x] + ys + [z]))
  {
    var j := Join(sep, ys);
    assert [x, j, z] == [x] + [j] + [z];
    NonEmptyAround(x, [j], z);
    NonEmptyAround(x, ys, z);
    JoinNonEmpty(sep, ys);
    if ys == [] {
      assert NonEmpty([j]) == [] == NonEmpty(ys);
    } else {
      NonEmptyKeeps(ys);
      NonEmptyKeeps([j]);
      JoinFlatten(sep, NonEmpty([x]), ys, NonEmpty([z]));
    }
  }

  lemma NonEmptyAround(x: string, ys: seq<string>, z: string)
    ensures NonEmpty([x] + ys + [z]) == NonEmpty([x]) + NonEmpty(ys) + NonEmpty([z])
  {
    NonEmptyAppend([x] + ys, [z]);
    NonEmptyAppend([x], ys);
  }

  /** `contentChunks` keeps the order of the items: it distributes over
      concatenation, and a single item gives its cleaned text unless that is
      empty. */
  lemma ContentChunksAppend(a: seq<JsValue>, b: seq<JsValue>)
    ensures ContentChunks(a + b) == ContentChunks(a) + ContentChunks(b)
  {
    var f, fa, fb := MainFragments(a + b), MainFragments(a), MainFragments(b);
    assert f == fa + fb by {
      forall i | 0 <= i < |f| ensures f[i] == (fa + fb)[i] {
        if i < |a| {
          assert (a + b)[i] == a[i];
        } else {
          assert (a + b)[i] == b[i - |a|];
        }
      }
    }
    NonEmptyAppend(MainFragments(a), MainFragments(b));
  }

  lemma ContentChunksSingle(x: JsValue)
    ensures ContentChunks([x]) == if MainFragment(x) == "" then [] else [MainFragment(x)]
  {
    assert MainFragments([x]) == [MainFragment(x)];
  }

  /** `normaliseToArray` gives the empty list only for null, undefined, an
      empty array, or a bracketed string that parses to an empty array. */
  lemma NormaliseToArrayEmpty(val: JsValue, parse: Parser)
    ensures NormaliseToArray(val, parse) == [] <==>
      || IsNullish(val)
      || val == Arr([])
      || (val.Str? && Bracketed(Trim(val.s)) && parse(Trim(val.s)) == Some(Arr([])))
  {
  }

  /** Once `mainChunks` gives a non-empty list, `main` is ignored. */
  lemma MainIgnoredWithChunks(fields: map<string, JsValue>, main: JsValue, parse: Parser)
    requires NormaliseToArray(Field(Obj(fields), "mainChunks"), parse) != []
    ensures Merged(Obj(fields), parse) == Merged(Obj(fields["main" := main]), parse)
  {
    var other := Obj(fields["main" := main]);
    assert Field(other, "mainChunks") == Field(Obj(fields), "mainChunks");
    assert Field(other, "intro") == Field(Obj(fields), "intro");
    assert Field(other, "outro") == Field(Obj(fields), "outro");
  }

  /** When `mainChunks` gives the empty list, it may as well be absent. */
  lemma ChunksIgnoredWhenEmpty(fields: map<string, JsValue>, parse: Parser)
    requires NormaliseToArray(Field(Obj(fields), "mainChunks"), parse) == []
    ensures Merged(Obj(fields), parse) == Merged(Obj(fields - {"mainChunks"}), parse)
  {
    var other := Obj(fields - {"mainChunks"});
    assert Field(other, "main") == Field(Obj(fields), "main");
    assert Field(other, "intro") == Field(Obj(fields), "intro");
    assert Field(other, "outro") == Field(Obj(fields), "outro");
  }

  // ------------------------------------------------------- worked examples

  /** With no sections the document is `<speak></speak>` and its transcript
      is empty. */
  lemma EmptyDocument()
    ensures Open + Close == "<speak></speak>"
    ensures EnsureSpeak(Str("")) == Open + Close
    ensures ToPlain(Open + Close) == ""
  {
    assert Open + "" + Close == Open + Close == "<speak></speak>";
    EnsureSpeakWraps("");
    ToPlainOfWrapped("");
  }

  lemma NoSectionsMerged(fields: map<string, JsValue>, parse: Parser)
    requires "intro" !in fields && "main" !in fields && "mainChunks" !in fields && "outro" !in fields
    ensures Merged(Obj(fields), parse) == ""
  {
    assert NonEmpty(["", "", ""]) == [];
  }

  /** A request without intro, main, mainChunks and outro is not an error:
      it gives the empty document and an empty transcript. */
  lemma EmptyRequest(fields: map<string, JsValue>, parse: Parser)
    requires "intro" !in fields && "main" !in fields && "mainChunks" !in fields && "outro" !in fields
    ensures Respond(Obj(fields), parse).transcript == Transcript("", Open + Close)
  {
    NoSectionsMerged(fields, parse);
    EmptyDocument();
  }

  /** A body that is not a string never makes the handler fail. */
  lemma NonStringBodyIsReady(reqBody: JsValue, parse: Parser)
    requires !reqBody.Str?
    ensures ReadyForTts(reqBody, parse).Ready?
  {
  }

  /** Without the optional fields every default applies. */
  lemma DefaultsWhenAbsent(fields: map<string, JsValue>)
    requires "name" !in fields && "voiceName" !in fields && "voice" !in fields
    requires "audioConfig" !in fields && "r2Prefix" !in fields && "R2_PREFIX" !in fields
    ensures Voice(Obj(fields)) == Obj(map["languageCode" := Str("en-GB"), "name" := Str("en-GB-Wavenet-B")])
    ensures AudioConfig(Obj(fields)) == Obj(map["audioEncoding" := Str("MP3"), "speakingRate" := Other("1", true)])
    ensures R2Prefix(Obj(fields)) == Str("podcast")
  {
  }

  /** An intro or outro element that is null is read as the text "null",
      while a null main element gives nothing. */
  lemma NullFragments()
    ensures SideFragment(Null) == SideFragment(Str("null"))
    ensures MainFragment(Null) == ""
  {
  }

  /** `ensureSpeak` wraps a one-line text that is not already wrapped. */
  lemma EnsureSpeakWraps(t: string)
    requires IsOneLine(t) && !FullyWrapped(t)
    ensures EnsureSpeak(Str(t)) == Open + t + Close
  {
    NormalizeFixes(t);
  }

  /** The transcript of a wrapped one-line document, which is every document
      `ensureSpeak` returns, is its inside with the break tags turned into
      spaces, trimmed. */
  lemma ToPlainOfWrapped(t: string)
    requires IsOneLine(Open + t + Close)
    ensures ToPlain(Open + t + Close) == Trim(ReplaceBreaks(t))
  {
    NormalizeFixes(Open + t + Close);
    StripSpeakRoundTrip(Open, t, Close);
  }

  /** The transcript the route sends is the inside of the document it sends,
      with the break tags turned into spaces, trimmed. */
  lemma ToPlainOfDocument(v: JsValue)
    ensures ToPlain(EnsureSpeak(v)) == Trim(ReplaceBreaks(Inner(EnsureSpeak(v))))
  {
    ToPlainOfWrapped(Inner(EnsureSpeak(v)));
  }

  /** Blanks just inside the tags do not reach the transcript. */
  lemma ToPlainSpacedWrapper()
    ensures ToPlain(Open + " a " + Close) == "a"
  {
    SpacedWrapperIsOneLine();
    ToPlainOfWrapped(" a ");
    ReplaceBreaksPlain(" a ");
    TrimSpacedWord();
  }

  lemma SpacedWrapperIsOneLine()
    ensures IsOneLine(Open + " a " + Close)
  {
    assert NoSpace(Open) && NoSpace("a") && NoSpace(Close);
    SpaceJoinKeepsOneLine(Open, "a");
    SpaceJoinKeepsOneLine(Open + " " + "a", Close);
    assert Open + " " + "a" + " " + Close == Open + " a " + Close;
  }

  lemma TrimSpacedWord()
    ensures Trim(" a ") == "a"
  {
    assert !IsSpace('a') && " a "[1..] == "a " && "a "[..1] == "a";
    assert TrimStart(" a ") == TrimStart("a ") == "a ";
    assert TrimEnd("a ") == TrimEnd("a") == "a";
  }

  /** Text as the scenarios below use it: one line, no `<`, and not opening
      with a bracket. */
  predicate SimpleText(s: string) {
    s != "" && IsOneLine(s) && '<' !in s && s[0] != '[' && s[0] != '{'
  }

  lemma SimpleNotWrapped(s: string)
    requires s != "" && s[0] != '<'
    ensures !FullyWrapped(s)
  {
    StartsWithHead(s, Open);
  }

  /** A string field whose trimmed text does not open with a bracket is a
      one-element list holding the string as written. */
  lemma StringField(s: string, parse: Parser)
    requires Trim(s) == "" || (Trim(s)[0] != '[' && Trim(s)[0] != '{')
    ensures NormaliseToArray(Str(s), parse) == [Str(s)]
  {
    StartsWithHead(Trim(s), "[");
    StartsWithHead(Trim(s), "{");
  }

  /** A simple text field is a one-element list and its fragment is itself. */
  lemma SimpleField(s: string, parse: Parser)
    requires SimpleText(s)
    ensures NormaliseToArray(Str(s), parse) == [Str(s)]
    ensures SideFragment(Str(s)) == s && MainFragment(Str(s)) == s
    ensures SideText([Str(s)]) == s
  {
    TrimFixes(s);
    StringField(s, parse);
    NormalizeFixes(s);
    SimpleNotWrapped(s);
    assert seq(1, k requires 0 <= k < 1 => SideFragment([Str(s)][k])) == [s];
  }

  /** An intro or outro given as a simple text is that text. */
  lemma SimpleSide(s: string, parse: Parser)
    requires SimpleText(s)
    ensures SideText(NormaliseToArray(Str(s), parse)) == s
  {
    SimpleField(s, parse);
  }

  /** A main entry given as a simple text is that text. */
  lemma SimpleMain(s: string)
    requires SimpleText(s)
    ensures MainFragment(Str(s)) == s
  {
    NormalizeFixes(s);
    SimpleNotWrapped(s);
  }

  lemma SpacerIsOneLine()
    ensures IsOneLine(Spacer) && '<' in Spacer
  {
    assert Spacer[0] == '<';
  }

  lemma SepJoinKeepsOneLine(x: string, y: string)
    requires x != "" && y != "" && IsOneLine(x) && IsOneLine(y)
    ensures IsOneLine(x + Sep + y)
  {
    SpacerIsOneLine();
    SpaceJoinKeepsOneLine(x, Spacer);
    SpaceJoinKeepsOneLine(x + " " + Spacer, y);
    assert x + Sep + y == x + " " + Spacer + " " + y;
  }

  /** The scan copies text without `<`. */
  lemma {:induction false} ReplaceBreaksCopies(a: string, b: string)
    requires '<' !in a
    ensures ReplaceBreaks(a + b) == a + ReplaceBreaks(b)
    decreases |a|
  {
    if a == "" {
      assert a + b == b;
    } else {
      ConcatDrop(a, b, 1);
      assert (a + b)[0] == a[0];
      StartsWithHead(a + b, "<break");
      ReplaceBreaksCopies(a[1..], b);
    }
  }

  /** The spacer is one complete break tag. */
  lemma ReplaceBreaksSpacer(b: string)
    ensures ReplaceBreaks(Spacer + b) == " " + ReplaceBreaks(b)
  {
    var s := Spacer + b;
    assert s[..6] == "<break";
    assert s[20] == '>' && s[6..][14] == '>';
    assert BreakTagAt(s);
    var n := BreakTagLength(s);
    assert forall k :: 6 <= k < 20 ==> s[k] != '>';
    assert n == 21;
    assert s[21..] == b;
  }

  /** Each spacer turns into three spaces in the transcript. */
  lemma ReplaceBreaksSep(x: string, y: string)
    requires '<' !in x
    ensures ReplaceBreaks(x + Sep + y) == x + "   " + ReplaceBreaks(y)
  {
    assert x + Sep + y == (x + " ") + (Spacer + (" " + y));
    ReplaceBreaksCopies(x + " ", Spacer + (" " + y));
    ReplaceBreaksSpacer(" " + y);
    ReplaceBreaksCopies(" ", y);
  }

  /** Intro `i`, main `[a, b]` and outro `o`, all simple texts: the document
      puts a spacer between each pair, and the transcript keeps three spaces
      where each spacer was. */
  lemma ThreeSections(fields: map<string, JsValue>, i: string, a: string, b: string, o: string, parse: Parser)
    requires SimpleText(i) && SimpleText(a) && SimpleText(b) && SimpleText(o)
    requires "intro" in fields && fields["intro"] == Str(i)
    requires "main" in fields && fields["main"] == Arr([Str(a), Str(b)])
    requires "mainChunks" !in fields
    requires "outro" in fields && fields["outro"] == Str(o)
    ensures Merged(Obj(fields), parse) == i + Sep + a + Sep + b + Sep + o
    ensures Respond(Obj(fields), parse).transcript == Transcript(
      i + "   " + a + "   " + b + "   " + o,
      Open + (i + Sep + a + Sep + b + Sep + o) + Close)
  {
    ThreeSectionsMerged(fields, i, a, b, o, parse);
    ThreeSectionsOneLine(i, a, b, o);
    ThreeSectionsPlain(i, a, b, o);
    TranscriptOfMerged(Obj(fields), parse, i + Sep + a + Sep + b + Sep + o, i + "   " + a + "   " + b + "   " + o);
  }

  /** The transcript of a request whose merged text is one line and not
      already wrapped. */
  lemma TranscriptOfMerged(body: JsValue, parse: Parser, m: string, plain: string)
    requires !IsNullish(body) && Merged(body, parse) == m
    requires IsOneLine(m) && !FullyWrapped(m) && Trim(ReplaceBreaks(m)) == plain
    ensures Respond(body, parse).transcript == Transcript(plain, Open + m + Close)
  {
    EnsureSpeakWraps(m);
    ToPlainOfWrapped(m);
  }

  lemma ThreeSectionsMerged(fields: map<string, JsValue>, i: string, a: string, b: string, o: string, parse: Parser)
    requires SimpleText(i) && SimpleText(a) && SimpleText(b) && SimpleText(o)
    requires "intro" in fields && fields["intro"] == Str(i)
    requires "main" in fields && fields["main"] == Arr([Str(a), Str(b)])
    requires "mainChunks" !in fields
    requires "outro" in fields && fields["outro"] == Str(o)
    ensures Merged(Obj(fields), parse) == i + Sep + a + Sep + b + Sep + o
  {
    SimpleSide(i, parse);
    SimpleSide(o, parse);
    SimpleMain(a);
    SimpleMain(b);
    TwoChunks(Str(a), Str(b));
    JoinSectionsFlat(Sep, i, [a, b], o);
    JoinFourNonEmpty(Sep, i, a, b, o);
  }

  lemma TwoChunks(x: JsValue, y: JsValue)
    requires MainFragment(x) != "" && MainFragment(y) != ""
    ensures ContentChunks([x, y]) == [MainFragment(x), MainFragment(y)]
  {
    assert [x, y] == [x] + [y];
    ContentChunksAppend([x], [y]);
    ContentChunksSingle(x);
    ContentChunksSingle(y);
  }

  lemma JoinFourNonEmpty(sep: string, i: string, a: string, b: string, o: string)
    requires i != "" && a != "" && b != "" && o != ""
    ensures Join(sep, NonEmpty([i] + [a, b] + [o])) == i + sep + a + sep + b + sep + o
  {
    assert [i] + [a, b] + [o] == [i, a, b, o];
    NonEmptyKeeps([i, a, b, o]);
    assert Join(sep, [o]) == o;
    assert Join(sep, [b, o]) == b + sep + o;
    assert Join(sep, [a, b, o]) == a + sep + (b + sep + o);
    assert Join(sep, [i, a, b, o]) == i + sep + (a + sep + (b + sep + o));
  }

  lemma ThreeSectionsOneLine(i: string, a: string, b: string, o: string)
    requires SimpleText(i) && SimpleText(a) && SimpleText(b) && SimpleText(o)
    ensures IsOneLine(i + Sep + a + Sep + b + Sep + o)
    ensures !FullyWrapped(i + Sep + a + Sep + b + Sep + o)
  {
    SepJoinKeepsOneLine(i, a);
    SepJoinKeepsOneLine(i + Sep + a, b);
    SepJoinKeepsOneLine(i + Sep + a + Sep + b, o);
    Ends(i, Sep + a + Sep + b + Sep, o);
    Regroup(i, Sep, a, b, o);
    SimpleNotWrapped(i + Sep + a + Sep + b + Sep + o);
  }

  lemma Ends(x: string, m: string, y: string)
    requires x != "" && y != ""
    ensures (x + m + y)[0] == x[0] && (x + m + y)[|x + m + y| - 1] == y[|y| - 1]
  {
  }

  lemma Regroup(i: string, s: string, a: string, b: string, o: string)
    ensures i + s + a + s + b + s + o == i + s + (a + s + (b + s + o))
    ensures i + s + a + s + b + s + o == i + (s + (a + s + b) + s) + o
    ensures i + s + a + s + b + s + o == i + (s + a + s + b + s) + o
  {
  }

  lemma ReplaceBreaksPlain(o: string)
    requires '<' !in o
    ensures ReplaceBreaks(o) == o
  {
    ReplaceBreaksCopies(o, "");
    assert o + "" == o;
  }

  lemma ThreeSectionsPlain(i: string, a: string, b: string, o: string)
    requires '<' !in i && '<' !in a && '<' !in b && '<' !in o
    requires i != "" && o != "" && Trimmed(i) && Trimmed(o)
    ensures Trim(ReplaceBreaks(i + Sep + a + Sep + b + Sep + o)) == i + "   " + a + "   " + b + "   " + o
  {
    ThreeSectionsBreaks(i, a, b, o);
    Regroup(i, "   ", a, b, o);
    PlainTrimmed(i, "   " + (a + "   " + b) + "   ", o);
  }

  lemma ThreeSectionsBreaks(i: string, a: string, b: string, o: string)
    requires '<' !in i && '<' !in a && '<' !in b && '<' !in o
    ensures ReplaceBreaks(i + Sep + a + Sep + b + Sep + o) == i + "   " + a + "   " + b + "   " + o
  {
    Regroup(i, Sep, a, b, o);
    ReplaceBreaksSep(i, a + Sep + (b + Sep + o));
    ReplaceBreaksSep(a, b + Sep + o);
    ReplaceBreaksSep(b, o);
    ReplaceBreaksPlain(o);
    Regroup(i, "   ", a, b, o);
  }

  lemma PlainTrimmed(x: string, m: string, y: string)
    requires x != "" && y != "" && Trimmed(x) && Trimmed(y)
    ensures Trim(x + m + y) == x + m + y
  {
    Ends(x, m, y);
    TrimFixes(x + m + y);
  }

  /** The first worked example of the handler: intro "Hello", main
      ["Story A", "Story B"] and outro "Bye". */
  lemma HelloStoriesBye(parse: Parser)
    ensures Respond(Obj(map["intro" := Str("Hello"), "main" := Arr([Str("Story A"), Str("Story B")]), "outro" := Str("Bye")]), parse).transcript
      == Transcript(
           "Hello" + "   " + "Story A" + "   " + "Story B" + "   " + "Bye",
           "<speak>" + ("Hello" + " <break time=\"700ms\"/> " + "Story A" + " <break time=\"700ms\"/> " + "Story B" + " <break time=\"700ms\"/> " + "Bye") + "</speak>")
  {
    var fields := map["intro" := Str("Hello"), "main" := Arr([Str("Story A"), Str("Story B")]), "outro" := Str("Bye")];
    HelloFields(fields);
    SimpleLiteral("Hello");
    SimpleLiteral("Story A");
    SimpleLiteral("Story B");
    SimpleLiteral("Bye");
    ThreeSections(fields, "Hello", "Story A", "Story B", "Bye", parse);
    SepText();
  }

  lemma SepText()
    ensures Sep == " <break time=\"700ms\"/> "
  {
  }

  lemma HelloFields(fields: map<string, JsValue>)
    requires fields == map["intro" := Str("Hello"), "main" := Arr([Str("Story A"), Str("Story B")]), "outro" := Str("Bye")]
    ensures "intro" in fields && fields["intro"] == Str("Hello")
    ensures "main" in fields && fields["main"] == Arr([Str("Story A"), Str("Story B")])
    ensures "mainChunks" !in fields
    ensures "outro" in fields && fields["outro"] == Str("Bye")
  {
  }

  lemma SimpleLiteral(s: string)
    requires s != "" && forall k :: 0 <= k < |s| ==> s[k] == ' ' || 'A' <= s[k] <= 'Z' || 'a' <= s[k] <= 'z'
    requires s[0] != ' ' && s[|s| - 1] != ' ' && forall k :: 0 <= k < |s| - 1 ==> s[k] == ' ' ==> s[k + 1] != ' '
    ensures SimpleText(s)
  {
  }

  /** The one section present comes out alone, without separators. */
  lemma LoneSection(sep: string, t: string)
    requires t != ""
    ensures Join(sep, NonEmpty(["", Join(sep, [t]), ""])) == t
  {
    assert Join(sep, [t]) == t;
    assert ["", t, ""] == [""] + ([t] + [""]);
    NonEmptyCons("", [t] + [""]);
    NonEmptyCons(t, [""]);
    NonEmptyCons("", []);
    assert [""] == [""] + [];
  }

  /** An intro and one chunk, without an outro, are joined by one separator. */
  lemma IntroAndChunk(sep: string, i: string, w: string)
    requires i != "" && w != ""
    ensures Join(sep, NonEmpty([i, Join(sep, [w]), ""])) == i + sep + w
  {
    assert Join(sep, [w]) == w;
    assert [i, w, ""] == [i] + ([w] + [""]);
    NonEmptyCons(i, [w] + [""]);
    NonEmptyCons(w, [""]);
    NonEmptyCons("", []);
    assert [""] == [""] + [];
    assert [i] + [w] == [i, w];
    assert Join(sep, [i, w]) == i + sep + Join(sep, [w]);
  }

  /** A document whose merged text is already wrapped and one-line is that text. */
  lemma SsmlOfWrappedMerged(body: JsValue, parse: Parser, m: string)
    requires !IsNullish(body) && Merged(body, parse) == m
    requires IsOneLine(m) && FullyWrapped(m)
    ensures Respond(body, parse).transcript.ssml == m
  {
    NormalizeFixes(m);
  }

  /** A fully wrapped main alone, with no intro or outro, gives back exactly
      that document: its tags are stripped and then put back once. */
  lemma SingleWrappedMain(fields: map<string, JsValue>, t: string, parse: Parser)
    requires "main" in fields && fields["main"] == Str(Open + t + Close)
    requires "intro" !in fields && "mainChunks" !in fields && "outro" !in fields
    requires t != "" && IsOneLine(t) && !FullyWrapped(t)
    ensures Merged(Obj(fields), parse) == t
    ensures Respond(Obj(fields), parse).transcript.ssml == Open + t + Close
  {
    SingleWrappedMerged(fields, t, parse);
    EnsureSpeakWraps(t);
  }

  lemma SingleWrappedMerged(fields: map<string, JsValue>, t: string, parse: Parser)
    requires "main" in fields && fields["main"] == Str(Open + t + Close)
    requires "intro" !in fields && "mainChunks" !in fields && "outro" !in fields
    requires t != "" && IsOneLine(t)
    ensures Merged(Obj(fields), parse) == t
  {
    WrappedFragment(t, parse);
    ContentChunksSingle(Str(Open + t + Close));
    LoneSection(Sep, t);
  }

  /** A main fragment that is exactly one wrapped line is kept as one
      fragment and unwrapped. */
  lemma WrappedFragment(t: string, parse: Parser)
    requires IsOneLine(t)
    ensures NormaliseToArray(Str(Open + t + Close), parse) == [Str(Open + t + Close)]
    ensures MainFragment(Str(Open + t + Close)) == t
  {
    var w := Open + t + Close;
    WrapInSpeak(t);
    StartsWithHead(w, Open);
    TrimFixes(w);
    StringField(w, parse);
    assert w[7..|w| - 8] == t;
  }

  /** The second worked example of the handler: main
      "<speak>Only this</speak>" alone. */
  lemma OnlyThis(parse: Parser)
    ensures Respond(Obj(map["main" := Str("<speak>Only this</speak>")]), parse).transcript.ssml == "<speak>Only this</speak>"
  {
    var fields := map["main" := Str("<speak>Only this</speak>")];
    OnlyThisText();
    OnlyThisFields(fields);
    SimpleLiteral("Only this");
    SimpleNotWrapped("Only this");
    SingleWrappedMain(fields, "Only this", parse);
  }

  lemma OnlyThisText()
    ensures "<speak>Only this</speak>" == Open + "Only this" + Close
  {
  }

  lemma OnlyThisFields(fields: map<string, JsValue>)
    requires fields == map["main" := Str("<speak>Only this</speak>")]
    ensures "main" in fields && fields["main"] == Str("<speak>Only this</speak>")
    ensures "intro" !in fields && "mainChunks" !in fields && "outro" !in fields
  {
  }

  /** A wrapped main followed by a line feed fails the wrapper test, so it
      goes through `oneLine` with its tags: alone it still gives one
      document, because the merged text is itself wrapped. */
  lemma WrappedMainWithBreak(fields: map<string, JsValue>, t: string, parse: Parser)
    requires "main" in fields && fields["main"] == Str(Open + t + Close + "\n")
    requires "intro" !in fields && "mainChunks" !in fields && "outro" !in fields
    requires IsOneLine(t)
    ensures Merged(Obj(fields), parse) == Open + t + Close
    ensures Respond(Obj(fields), parse).transcript.ssml == Open + t + Close
  {
    WrappedMainWithBreakMerged(fields, t, parse);
    WrapInSpeak(t);
    SsmlOfWrappedMerged(Obj(fields), parse, Open + t + Close);
  }

  lemma WrappedMainWithBreakMerged(fields: map<string, JsValue>, t: string, parse: Parser)
    requires "main" in fields && fields["main"] == Str(Open + t + Close + "\n")
    requires "intro" !in fields && "mainChunks" !in fields && "outro" !in fields
    requires IsOneLine(t)
    ensures Merged(Obj(fields), parse) == Open + t + Close
  {
    var w := Open + t + Close;
    WrappedWithBreakFragment(t, parse);
    ContentChunksSingle(Str(w + "\n"));
    LoneSection(Sep, w);
  }

  lemma WrappedWithBreakFragment(t: string, parse: Parser)
    requires IsOneLine(t)
    ensures NormaliseToArray(Str(Open + t + Close + "\n"), parse) == [Str(Open + t + Close + "\n")]
    ensures MainFragment(Str(Open + t + Close + "\n")) == Open + t + Close
  {
    var w := Open + t + Close;
    WrapInSpeak(t);
    StartsWithHead(w, Open);
    DropsFinalBreak(w);
    StringField(w + "\n", parse);
    EndsWithLast(w + "\n", Close);
  }

  /** With an intro before it, the same main keeps its own `<speak>` tags
      inside the outer wrapper: the document has a nested root. */
  lemma NestedWrapperSurvives(fields: map<string, JsValue>, i: string, t: string, parse: Parser)
    requires SimpleText(i) && IsOneLine(t)
    requires "intro" in fields && fields["intro"] == Str(i)
    requires "main" in fields && fields["main"] == Str(Open + t + Close + "\n")
    requires "mainChunks" !in fields && "outro" !in fields
    ensures Merged(Obj(fields), parse) == i + Sep + (Open + t + Close)
    ensures Respond(Obj(fields), parse).transcript.ssml == Open + (i + Sep + (Open + t + Close)) + Close
  {
    var w := Open + t + Close;
    NestedMerged(fields, i, t, parse);
    WrapInSpeak(t);
    SepJoinKeepsOneLine(i, w);
    Ends(i, Sep, w);
    SimpleNotWrapped(i + Sep + w);
    TranscriptOfMerged(Obj(fields), parse, i + Sep + w, Trim(ReplaceBreaks(i + Sep + w)));
  }

  lemma NestedMerged(fields: map<string, JsValue>, i: string, t: string, parse: Parser)
    requires SimpleText(i) && IsOneLine(t)
    requires "intro" in fields && fields["intro"] == Str(i)
    requires "main" in fields && fields["main"] == Str(Open + t + Close + "\n")
    requires "mainChunks" !in fields && "outro" !in fields
    ensures Merged(Obj(fields), parse) == i + Sep + (Open + t + Close)
  {
    var w := Open + t + Close;
    SimpleSide(i, parse);
    WrappedWithBreakFragment(t, parse);
    ContentChunksSingle(Str(w + "\n"));
    IntroAndChunk(Sep, i, w);
  }
}
