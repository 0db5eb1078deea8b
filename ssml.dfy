/**
 * The `<speak>` root element of an SSML document (section 3.1.1 of W3C
 * SSML 1.1) as both routes test for it and add it: the literal lower-case
 * tags, without attributes.
 */
module Ssml {
  import opened Text

  const Open := "<speak>"
  const Close := "</speak>"

  /** `/^<speak>[\s\S]*<\/speak>$/`: case-sensitive, anything in between. */
  predicate FullyWrapped(s: string) {
    |s| >= 15 && StartsWith(s, Open) && EndsWith(s, Close)
  }

  /** The inside of a fully wrapped string. */
  function Inner(s: string): (r: string)
    requires FullyWrapped(s)
    ensures s == Open + r + Close
  {
    assert s == s[..7] + s[7..|s| - 8] + s[|s| - 8..];
    s[7..|s| - 8]
  }

  /** The opening and closing tags hold no whitespace. */
  lemma TagsHaveNoSpace()
    ensures NoSpace(Open) && NoSpace(Close)
  {
  }

  /** Wrapping a one-line string gives a fully wrapped one-line string. */
  lemma WrapInSpeak(t: string)
    requires IsOneLine(t)
    ensures IsOneLine(Open + t + Close) && FullyWrapped(Open + t + Close)
  {
    TagsHaveNoSpace();
    WrapKeepsOneLine(Open, t, Close);
    var w := Open + t + Close;
    assert w[..7] == Open;
    assert w[|w| - 8..] == Close;
  }

  /** Any string between the two tags is fully wrapped. */
  lemma Wrapped(t: string)
    ensures FullyWrapped(Open + t + Close)
  {
    var w := Open + t + Close;
    assert w[..7] == Open;
    assert w[|w| - 8..] == Close;
  }

  /** `oneLine` keeps the tags of a fully wrapped string where they are. */
  lemma NormalizeWrapped(s: string)
    requires FullyWrapped(s)
    ensures FullyWrapped(Normalize(s))
    ensures Normalize(s) == Open + CollapseSpaces(ReplaceLineBreaks(Inner(s))) + Close
  {
    TagsHaveNoSpace();
    NormalizeBetween(Open, Inner(s), Close);
    Wrapped(CollapseSpaces(ReplaceLineBreaks(Inner(s))));
  }
}
