# SSML normalise-and-merge core of the podcast service

This project is a Dafny model of the part of the podcast service that turns
text fragments into one SSML document for text-to-speech, with proofs about it:

- **`/ready-for-tts` (the composer, `routes/compose.js`).** The request body's
  `intro`, `main` / `mainChunks` and `outro` fields are coerced into lists of
  fragments (an array is taken as it is, so a nested array becomes
  comma-joined text). Each fragment is brought onto one line, or has its
  `<speak>` wrapper removed. The sections are joined with a 700 ms break, and
  the result is wrapped in `<speak>` unless it already passes the wrapper
  test. The route answers with that
  document, a plain-text rendering of it and the request for the TTS maker,
  which falls back to default voice, audio and prefix settings.
- **The outro route (`routes/outro.js`).** From the language model's answer on,
  it takes an `ssml` / `outro` / `data` field out of a JSON-looking answer. It
  forces the text onto one line inside `<speak>`, and splices the chosen book's
  sponsor line in after `<speak>` unless it is already mentioned (ignoring
  case). Finally it puts the document on one line again.
- **The chunk splitter of the main route (`routes/main.js:16-18`).** The
  model's answer is cut at runs of line feeds. Blank lines are dropped, and each
  chunk's whitespace runs become single spaces.

Modules:

- `Js` (`js.dfy`): JavaScript values and `String(x)`, `||`, `??` and
  property reads.
- `Text` (`text.dfy`): the string operations both routes share:
  - the ECMAScript `\s` set, `trim`, `trimStart` and `trimEnd`;
  - the `replace(/\r?\n/g, ' ').replace(/\s+/g, ' ').trim()` chain that both
    `oneLine` helpers apply to strings (`Normalize`);
  - `join`, `filter(Boolean)`, ASCII `toLowerCase` and `includes`.
- `Ssml` (`ssml.dfy`): the `<speak>` wrapper.
- `Compose` (`compose.dfy`), `Outro` (`outro.dfy`) and `MainChunks`
  (`mainchunks.dfy`): the three route fragments.

The handlers are pure transformations of their inputs, so they are modelled as
functions. Two places are imperative in the source. The composer's conditional
pushes onto `sections` are the method `Compose.MergeSections`. The outro
handler's stage-by-stage reassignment of `content` and `ssml` is the method
`Outro.GenerateOutro`. Each method is proved equal to the function that
specifies it.

Inputs the code cannot compute are parameters:

- `JSON.parse` is a parameter `parse: string -> Option<JsValue>`, with `None`
  where it throws.
- The language model's answer (`reply`) and the randomly chosen book (`book`)
  are inputs of the outro model.

The model follows the code where one might expect otherwise:

- **A request with no sections at all is not an error.** The code answers with
  the document `<speak></speak>` and an empty transcript (`Compose.EmptyRequest`,
  `Compose.EmptyDocument`). Status 400 comes only from a string body that
  `JSON.parse` rejects, or one that parses to `null` (`Compose.ReadyForTts`).
- **A wrapped fragment that cannot be unwrapped can end up nested.** One
  example is a main fragment ending in a line break after `</speak>`. When
  another section is present, the document holds a `<speak>` inside the outer
  one (`Compose.NestedWrapperSurvives`). On its own, the fragment is put on one
  line, passes the wrapper test and is the whole document, with no nesting
  (`Compose.WrappedMainWithBreak`, `Compose.SingleWrappedMain`).
- **The plain text is not fully cleaned.** It only has the `<speak>` tags and
  the `<break …>` tags removed, and the spaces around a removed break are not
  collapsed. The plain rendering of three sections keeps three spaces between
  them (`Compose.ThreeSections`).
- **An object fragment's fields are not read.** Its text and markup fields are
  not looked at: `String(x)` turns it into `[object Object]`.

## Model

| member | source | states |
|---|---|---|
| Js.Or | routes/compose.js:59-62 | `a \|\| b` is the first operand when it is truthy and the second otherwise, and it is truthy iff either operand is |
| Js.Coalesce | routes/compose.js:6 | `a ?? b` is `b` exactly when `a` is null or undefined |
| Js.ToString | routes/compose.js:42 | `String(x)` of a string is the string itself |
| Js.Get | routes/compose.js:36-39 | reading a property fails exactly on null and undefined; on an object it gives the field, or undefined when the field is missing |
| Text.TrimStart | routes/compose.js:17 | the result is no longer than the input and does not start with whitespace |
| Text.TrimEnd | routes/compose.js:17 | the result is no longer than the input, does not end with whitespace, and keeps the first character; `Text.TrimEndKeepsWords` fixes its content |
| Text.Trim | routes/compose.js:17 | the result has no whitespace at either end; `Text.TrimSplit` and `Text.TrimKeepsWords` fix its content |
| Text.TrimIsSlice | routes/compose.js:17 | `trim` returns a contiguous slice of its input, and everything before and after that slice is whitespace |
| Text.TrimSplit | routes/compose.js:17 | the input is the whitespace `trim` removes in front, the trimmed text, and the whitespace it removes behind |
| Text.Words | routes/compose.js:6 | the characters of a text that are not whitespace, in order; never longer than the text |
| Text.WordsAppend | routes/compose.js:6 | the non-whitespace characters of a concatenation are those of each part, in order |
| Text.TrimStartKeepsWords | routes/compose.js:17 | `trimStart` keeps every non-whitespace character, in order |
| Text.TrimEndKeepsWords | routes/compose.js:17 | `trimEnd` keeps every non-whitespace character, in order |
| Text.TrimKeepsWords | routes/compose.js:17 | `trim` keeps every non-whitespace character, in order |
| Text.ReplaceLineBreaks | routes/compose.js:6 | `replace(/\r?\n/g, ' ')`: a CR LF pair or a lone LF becomes one blank, any other character is copied |
| Text.ReplaceKeepsWords | routes/compose.js:6 | the line-break replacement keeps every non-whitespace character, in order |
| Text.CollapseSpaces | routes/compose.js:6 | `replace(/\s+/g, ' ')`: each whitespace run becomes one blank |
| Text.CollapseKeepsWords | routes/compose.js:6 | the whitespace collapse keeps every non-whitespace character, in order |
| Text.NormalizeKeepsWords | routes/outro.js:7-12 | `oneLine` keeps the non-whitespace characters of the text, in order |
| Text.Join | routes/compose.js:52-55 | `join` of no parts is empty and of one part is that part |
| Text.TrimAllSpace | routes/compose.js:17 | a string of whitespace trims to the empty string |
| Text.Normalize | routes/compose.js:6 | the `oneLine` chain always gives one line: no line breaks, no whitespace but single blanks, no whitespace at either end; `Text.NormalizeKeepsWords`, `Text.NormalizeGap`, `Text.NormalizeDropsLeadingSpace` and `Text.NormalizeDropsTrailingSpace` fix its content |
| Text.NormalizeFixes | routes/outro.js:7-12 | a string already on one line is left unchanged |
| Text.NormalizeIdempotent | routes/outro.js:7-12 | applying the chain twice is the same as applying it once |
| Text.NormalizeGap | routes/compose.js:6 | any whitespace run between two words, line breaks included, becomes exactly one blank, and each side is normalised on its own |
| Text.NormalizeDropsLeadingSpace | routes/compose.js:6 | whitespace in front of the first word is dropped |
| Text.NormalizeDropsTrailingSpace | routes/compose.js:6 | whitespace after the last word is dropped |
| Text.ReplaceAroundGap | routes/compose.js:6 | `/\r?\n/g` works on a word, a gap and a word separately, since no CR LF pair straddles a word |
| Text.CollapseAroundGap | routes/compose.js:6 | `/\s+/g` leaves exactly one blank for the gap between two words |
| Text.TrimAroundBlank | routes/compose.js:17 | `trim` keeps a blank that sits between two words |
| Text.ReplaceLineBreaksFixes | routes/compose.js:6 | `replace(/\r?\n/g, ' ')` leaves a string without line breaks unchanged |
| Text.CollapseSpacesShape | routes/compose.js:6 | after `replace(/\s+/g, ' ')` every whitespace character is a blank and no two are adjacent |
| Text.CollapseSpacesFixes | routes/compose.js:6 | a string whose whitespace is already single blanks is unchanged by the collapse |
| Text.CollapseSpacesAppend | routes/compose.js:6 | the collapse of a concatenation is the concatenation of the collapses when the join is not inside a whitespace run |
| Text.NonEmpty | routes/compose.js:44 | `filter(Boolean)` keeps only non-empty strings and never lengthens the list |
| Text.NonEmptyAppend | routes/compose.js:44 | filtering distributes over concatenation |
| Text.JoinFlatten | routes/compose.js:52-55 | joining a sub-list that has already been joined with the same separator equals joining the flattened list |
| Text.ContainsLower | routes/outro.js:68 | a text that contains a line also contains it with case ignored |
| Ssml.FullyWrapped | routes/compose.js:10 | the test `/^<speak>[\s\S]*<\/speak>$/`: at least 15 characters, starting with `<speak>` and ending with `</speak>` |
| Ssml.Inner | routes/compose.js:10 | a fully wrapped document is `<speak>` + its inner text + `</speak>` |
| Ssml.WrapInSpeak | routes/compose.js:10 | wrapping a one-line text gives a one-line, fully wrapped document |
| Ssml.NormalizeWrapped | routes/outro.js:78 | normalising a wrapped document keeps both tags and normalises only the inside |
| Compose.TextOf | routes/compose.js:6 | `String(s ?? '')`: null and undefined give the empty text, and a string gives itself |
| Compose.OneLine | routes/compose.js:6 | the composer's `oneLine` gives one line; null and undefined give the empty text, and a string gives its normalised form, whose non-whitespace characters are the string's (`Text.NormalizeKeepsWords`) |
| Compose.OneLineIdempotent | routes/compose.js:6 | `oneLine` of `oneLine` is `oneLine` |
| Compose.StripSpeakText | routes/compose.js:7 | removing the tags never lengthens; text without a leading `<speak>` or a trailing `</speak>` (in any case) is unchanged |
| Compose.StripSpeak | routes/compose.js:7 | `stripSpeak` of null or undefined is the empty text |
| Compose.StripSpeakRoundTrip | routes/compose.js:7 | removing the tags from `<speak>` + t + `</speak>`, in any letter case, gives back t |
| Compose.StripWrapped | routes/compose.js:7 | on a fully wrapped document, `stripSpeak` gives exactly the inner text |
| Compose.StripSpeakKeepsChars | routes/compose.js:7 | `stripSpeak` introduces no character |
| Compose.EnsureSpeak | routes/compose.js:8-11 | the result is on one line and fully wrapped; a one-line text that is already wrapped is returned as is |
| Compose.EnsureSpeakIdempotent | routes/compose.js:8-11 | wrapping twice is wrapping once |
| Compose.EnsureSpeakStrips | routes/compose.js:7-11 | removing the tags that `ensureSpeak` added gives back the one-line text |
| Compose.EnsureSpeakWraps | routes/compose.js:8-11 | an unwrapped one-line text gets one pair of `<speak>` tags |
| Compose.NormaliseToArray | routes/compose.js:13-27 | in every case of the source: null or undefined gives [], an array gives its elements, a bracketed string that parses gives the parsed array or [parsed], an unbracketed or unparsable string gives [val], any other value gives [val] |
| Compose.NormaliseToArrayEmpty | routes/compose.js:13-27 | the list is empty exactly for null or undefined, the empty array, or a bracketed string that parses to the empty array |
| Compose.StringField | routes/compose.js:16-24 | a string whose trimmed text starts with neither bracket is a single literal fragment |
| Compose.Clean | routes/compose.js:43 | a fully wrapped fragment gives its inner text, and any other fragment gives `oneLine` of it |
| Compose.CleanJoinsLines | routes/compose.js:43 | two words on separate lines are cleaned to the two words with one blank between them |
| Compose.MainFragment | routes/compose.js:42-43 | a main fragment is cleaned from `String(x ?? '')`, so null gives the empty text |
| Compose.SideFragment | routes/compose.js:46-47 | an intro or outro item is cleaned from `String(x)` |
| Compose.SideText | routes/compose.js:46-47 | `introStr` / `outroStr`: the cleaned items joined by single spaces; no items give the empty text, and one item gives its fragment |
| Compose.ContentItems | routes/compose.js:41 | the main items are `mainChunks` when that list is non-empty, `main` otherwise |
| Compose.MainFragments | routes/compose.js:41-43 | the mapped list has one entry per item, in order |
| Compose.ContentChunks | routes/compose.js:41-44 | every content chunk is non-empty, and there are no more chunks than items |
| Compose.ContentChunksAppend | routes/compose.js:41-44 | the chunks of a concatenation are the concatenated chunks: order is kept |
| Compose.ContentChunksSingle | routes/compose.js:41-44 | one item gives its fragment, or nothing when the fragment is empty |
| Compose.NullFragments | routes/compose.js:42-47 | a null intro or outro item reads as the text "null", while a null main item is dropped |
| Compose.MergedInner | routes/compose.js:49-55 | the non-empty ones of the intro text, the joined chunks and the outro text, in that order, joined by the spacer |
| Compose.Merged | routes/compose.js:36-55 | `mergedInner` for a request body, from its coerced sections |
| Compose.MergeSections | routes/compose.js:49-55 | the conditional pushes and the join give the spacer-joined list of the non-empty sections |
| Compose.MergedInnerFlat | routes/compose.js:52-55 | the merged inside is the spacer-joined list of the intro, every chunk and the outro, with empty ones left out, so no spacer leads, trails or doubles |
| Compose.JoinSectionsFlat | routes/compose.js:52-55 | joining the joined chunks as one section is joining the chunks directly |
| Compose.JoinNonEmpty | routes/compose.js:51-53 | a join of non-empty parts is empty exactly when there are no parts |
| Compose.MainIgnoredWithChunks | routes/compose.js:41 | when `mainChunks` gives a non-empty list, `main` does not affect the document |
| Compose.ChunksIgnoredWhenEmpty | routes/compose.js:41 | when `mainChunks` gives an empty list, the document is the one built without it |
| Compose.BreakTagAt | routes/compose.js:29 | a complete match of `/<break[^>]*>/` starts here: `<break`, then a later `>` |
| Compose.NoCompleteBreak | routes/compose.js:29 | no match of `/<break[^>]*>/` starts anywhere in the text |
| Compose.ReplaceBreaks | routes/compose.js:29 | `replace(/<break[^>]*>/g, ' ')`: each leftmost complete tag becomes one blank, every other character is copied |
| Compose.BreakTagLength | routes/compose.js:29 | `/<break[^>]*>/` ends at the first `>` after `<break` |
| Compose.ReplaceBreaksLeavesNoTag | routes/compose.js:29 | after the replacement no complete `<break …>` tag is left |
| Compose.ReplaceBreaksKeepsChars | routes/compose.js:29 | the replacement adds only blanks |
| Compose.ReplaceBreaksCopies | routes/compose.js:29 | text without `<` is copied unchanged |
| Compose.ToPlain | routes/compose.js:29 | the plain text is trimmed, has no line break and holds no complete break tag |
| Compose.ToPlainOfWrapped | routes/compose.js:29 | whenever `<speak>` + t + `</speak>` is one line, as every document `ensureSpeak` returns is, its plain text is t with its break tags replaced by blanks, trimmed |
| Compose.ToPlainOfDocument | routes/compose.js:29 | for every document `ensureSpeak` returns, the plain text is the document's inside with break tags replaced by blanks, trimmed |
| Compose.ToPlainSpacedWrapper | routes/compose.js:29 | blanks just inside the tags, as in `<speak> a </speak>`, do not reach the plain text |
| Compose.RequestBody | routes/compose.js:34 | a string body is parsed; any other body is kept when truthy, and `{}` is used otherwise |
| Compose.VoiceName | routes/compose.js:59 | `name`, else `voiceName`, else `en-GB-Wavenet-B` |
| Compose.DefaultVoice | routes/compose.js:60 | the default voice object holds exactly `languageCode: 'en-GB'` and the given name |
| Compose.Voice | routes/compose.js:60 | the given `voice`, else `{ languageCode: 'en-GB', name: voiceName }` |
| Compose.AudioConfig | routes/compose.js:61 | the given `audioConfig`, else MP3 at rate 1 |
| Compose.R2Prefix | routes/compose.js:62 | `r2Prefix`, else `R2_PREFIX`, else `podcast` |
| Compose.DefaultsWhenAbsent | routes/compose.js:59-62 | a body without the settings gets exactly the three defaults |
| Compose.Respond | routes/compose.js:56-70 | the document is the one-line, fully wrapped `ensureSpeak` of the merged inside; the plain text is its `toPlain`; the TTS body text equals the document; the endpoint and settings are as given |
| Compose.ReadyForTts | routes/compose.js:33-75 | the route answers 400 exactly when the body does not parse or parses to null or undefined; otherwise the response is built from the parsed body |
| Compose.NonStringBodyIsReady | routes/compose.js:34 | a body that is not a string is never rejected |
| Compose.NoSectionsMerged | routes/compose.js:36-55 | a body without any section merges to the empty text |
| Compose.EmptyRequest | routes/compose.js:36-65 | such a body gives the document `<speak></speak>` with an empty plain text |
| Compose.EmptyDocument | routes/compose.js:8-11 | the empty text is wrapped to `<speak></speak>`, whose plain text is empty |
| Compose.ThreeSections | routes/compose.js:36-65 | an intro, two main strings and an outro of simple text merge into the four parts joined by the spacer, wrapped once; the plain text has three blanks between the parts |
| Compose.HelloStoriesBye | routes/compose.js:36-65 | the literal request with intro "Hello", main ["Story A", "Story B"] and outro "Bye" gives the expected document and plain text |
| Compose.SingleWrappedMain | routes/compose.js:41-56 | a lone main fragment `<speak>` t `</speak>` gives back that very document, unwrapped and wrapped again once |
| Compose.OnlyThis | routes/compose.js:41-56 | the main fragment `<speak>Only this</speak>` gives the document `<speak>Only this</speak>` |
| Compose.WrappedMainWithBreak | routes/compose.js:41-56 | a lone wrapped main fragment followed by a line break is put on one line and then kept as the document |
| Compose.NestedWrapperSurvives | routes/compose.js:41-56 | with an intro, that fragment keeps its own `<speak>` tags inside the outer ones |
| Outro.OneLine | routes/outro.js:7-12 | `String(s \|\| '')`: every falsy value gives the empty text, a string gives its normalised form, and the result is one line |
| Outro.OneLineIdempotent | routes/outro.js:7-12 | `oneLine` of `oneLine` is `oneLine` |
| Outro.OneLineWrappedLine | routes/outro.js:16 | on one-line text the test `/^<speak>.*<\/speak>$/` is the plain tag test |
| Outro.WrappedLine | routes/outro.js:16 | the test `/^<speak>.*<\/speak>$/`: wrapped, with no line terminator between the tags |
| Outro.MustWrapSpeak | routes/outro.js:14-18 | the result is one line and fully wrapped; it is the one-line text when that already passes the test, and that text wrapped otherwise |
| Outro.MustWrapSpeakKeeps | routes/outro.js:14-18 | a wrapped one-line document is returned as is |
| Outro.MustWrapSpeakIdempotent | routes/outro.js:14-18 | wrapping twice is wrapping once |
| Outro.SponsorLine | routes/outro.js:27 | the sponsor line built from `String` of the book's title and URL |
| Outro.SponsorLineShape | routes/outro.js:27 | the sponsor line is the fixed opening, the title, ", available at ", the URL and a full stop, in that order |
| Outro.Content | routes/outro.js:50 | a missing answer gives the empty text, a string gives its trim, and a truthy non-string fails |
| Outro.LooksLikeJsonObjectTrimmed | routes/outro.js:54 | on trimmed text `/^\s*{/` holds exactly when the text starts with `{` |
| Outro.FirstTruthyOfThree | routes/outro.js:57 | the `\|\|` chain with `''` at its end is the first truthy of the three fields, with the content used otherwise |
| Outro.Extract | routes/outro.js:50-62 | the text to wrap is the content unless the content looks like an object, parses, is not null and has a truthy `ssml`, `outro` or `data` field, in which case the first such field is used |
| Outro.HasSponsor | routes/outro.js:68 | the lower-cased document contains the lower-cased sponsor line |
| Outro.Expand | routes/outro.js:71-74 | the replacement string as `replace` expands it: `$$`, `$&`, `` $` `` and `$'` are substituted, every other character is copied |
| Outro.Insert | routes/outro.js:69-75 | the intended splice: `<speak>`, then the sponsor line verbatim, then the pause, then the rest of the document |
| Outro.SponsorStep | routes/outro.js:67-75 | the document is unchanged when it already mentions the sponsor line, and spliced otherwise |
| Outro.SponsorStepOnce | routes/outro.js:67-75 | after the step the sponsor line is mentioned, and a second step changes nothing |
| Outro.StaysWrapped | routes/outro.js:65-75 | the splice keeps the document fully wrapped |
| Outro.OutroSsml | routes/outro.js:27-78 | the handler fails exactly when the book is missing or the answer is a truthy non-string; otherwise the document is one line and fully wrapped |
| Outro.OutroHasSponsor | routes/outro.js:67-78 | with a one-line sponsor line, the document sent always mentions it |
| Outro.FinalHasSponsor | routes/outro.js:67-78 | splicing and then normalising leaves the sponsor line mentioned |
| Outro.OutroIsFinal | routes/outro.js:65-78 | the document sent is a fixed point of `mustWrapSpeak` |
| Outro.InsertAsWritten | routes/outro.js:71-74 | the splice as written changes nothing when the document does not start with `<speak>` |
| Outro.SponsorStepAsWritten | routes/outro.js:67-75 | as written: unchanged when the sponsor line is mentioned, spliced through the replacement patterns otherwise |
| Outro.AsWrittenStaysWrapped | routes/outro.js:65-75 | as written, the splice still keeps the document fully wrapped |
| Outro.ExpandPlain | routes/outro.js:71-74 | a replacement string without `$` is inserted verbatim |
| Outro.ExpandMatch | routes/outro.js:71-74 | `$&` in the replacement stands for the matched `<speak>` |
| Outro.AsWrittenMatchesIntended | routes/outro.js:71-74 | a sponsor line without `$` is spliced in exactly as intended |
| Outro.OutroAgreesWithoutDollar | routes/outro.js:27-78 | for such a sponsor line the handler as written sends the intended document |
| Outro.OutroAsWritten | routes/outro.js:27-78 | as written, the handler fails in the same cases and otherwise sends a one-line, fully wrapped document |
| Outro.GenerateOutro | routes/outro.js:27-80 | the handler's staged reassignments compute the as-written document and keep its failure cases and its one-line wrapped shape |
| Outro.DollarLosesSponsor | routes/outro.js:68-78 | a sponsor line holding `$&`, spliced into a document without `$`, leaves the sent document without any `$`, so the line is not mentioned |
| Outro.DollarTitle | routes/outro.js:27-78 | for a book titled `$&` and no answer, the code as written sends a document that does not mention the sponsor line, while the verbatim splice does mention it |
| MainChunks.NewlineRun | routes/main.js:17 | the run counted is made of line feeds and is followed by something else |
| MainChunks.BreakAt | routes/main.js:17 | a match of `/\r?\n+/` starts exactly at a line feed, or at a carriage return followed by one |
| MainChunks.SplitAcc | routes/main.js:17 | `split(/\r?\n+/)`: a leftmost scan that cuts at each maximal match and keeps the text between cuts |
| MainChunks.Lines | routes/main.js:17 | the reference the split is compared with: the pieces of the text between single line feeds |
| MainChunks.Keep | routes/main.js:17 | trimming and filtering keep only non-empty trimmed pieces |
| MainChunks.KeepAppend | routes/main.js:17 | the filter distributes over concatenation |
| MainChunks.Clean | routes/main.js:18 | every cleaned line is on one line |
| MainChunks.CleanIsNormalize | routes/main.js:18 | on a piece without a line feed the cleaning is the `oneLine` chain |
| MainChunks.Chunks | routes/main.js:16-18 | every chunk is non-empty and on one line, and there are at most one more chunks than characters |
| MainChunks.SplitKeepsLines | routes/main.js:17 | splitting at `\r?\n+` runs keeps the same trimmed, non-blank lines, in the same order, as cutting at every line feed |
| MainChunks.LinesOfTrimmed | routes/main.js:16-17 | trimming the answer first changes no line that is kept |
| MainChunks.ChunksInOrder | routes/main.js:16-18 | the chunks are the answer's non-blank lines, cut at line feeds, in order, each cleaned |
| MainChunks.SingleLine | routes/main.js:16-18 | an answer without a line feed gives its cleaned trim as the only chunk, or no chunk when it is blank |
| MainChunks.BlankAnswer | routes/main.js:16-18 | an empty or all-whitespace answer gives no chunk |
| MainChunks.LoneCarriageReturn | routes/main.js:17-18 | a carriage return without a line feed does not split, and becomes a blank |
| MainChunks.CrLfSplits | routes/main.js:17-18 | a CR LF pair between two one-line texts splits them into two chunks |

## Left out

- **Not modelled: the HTTP layer.** This is Express routing, status codes
  other than the two outcomes modelled, `res.json`, and the `/ready-for-tts/debug`
  route. They are transport around the modelled computation.
- **Not modelled: the outro route's own inputs.** The outro route reads
  `data/books.json` and picks a book with `Math.random`. The model takes the
  chosen book as an input instead, since file reads and randomness are outside
  the model.
- **Not modelled: the prompts.** The outro prompt text and the call to the
  language model are not modelled. The model's reply is an input.
- **Not modelled: the rest of the main route.** This covers the feed fetching,
  the prompt, and the response formatting around lines 16-18. The model takes
  `completion.choices[0].message.content` as a string. A missing choice or a
  non-string content throws in the source and is not modelled.
- **`JSON.parse` is abstract.** It is a parameter, so the model proves nothing
  about which texts parse. The text a number or boolean gives under `String(x)`
  is carried in the value (`Js.Other`) rather than computed, and objects are
  assumed to use the default `toString`.
- **Case folding is ASCII only.** `toLowerCase` and the `/i` flag of
  `stripSpeak` are modelled on A-Z; non-ASCII case mapping is not part of this
  model.
- **Strings are sequences of characters.** UTF-16 surrogate pairs are not
  modelled separately, since every pattern involved matches single code units.
- Outro.DollarTitle: the corrected half states only that the verbatim splice
  mentions the sponsor line before the final `oneLine`. `Outro.OutroHasSponsor`
  states the property after normalisation, for one-line sponsor lines. A literal
  title of `$&` makes the one-line side condition costly to prove.

## Findings

| source | as written | input that shows it | evidently intended | confidence | as-written member | corrected member |
|---|---|---|---|---|---|---|
| routes/outro.js:71-74 | the sponsor line is passed to `replace` inside a replacement *string*, so `$&`, `$$`, `` $` `` and `$'` in a book's title or URL are expanded as substitution patterns | a book titled `$&` (the `$&` becomes `<speak>`), with any URL free of `$` and an empty model answer: the document sent does not mention the sponsor line | the sponsor line is spliced in verbatim, as the comment on line 70 and the `includes` check on line 68 expect | not executed | Outro.DollarTitle | Outro.OutroHasSponsor |
