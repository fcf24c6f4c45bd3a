/**
 * The roast text: the flame prefix that every generated roast is made to
 * start with, and the choice between the generated text and the local
 * fallback.
 */
module Roast {
  import opened Wrappers

  /**
   * The prefix literal exactly as the extension's source text spells it: the
   * four characters U+00F0 U+0178 U+201D U+00A5, which are the UTF-8 bytes of
   * the fire emoji U+1F525 read back as Windows-1252.
   */
  const Flame: string := "\U{F0}\U{178}\U{201D}\U{A5}"

  predicate StartsWith(s: string, prefix: string) {
    |prefix| <= |s| && s[..|prefix|] == prefix
  }

  /** The normalisation applied to generated text: prefix it with the flame and a space unless it already starts with the flame. */
  function EnsureFlame(text: string): (r: string)
    ensures StartsWith(r, Flame)
    ensures StartsWith(text, Flame) ==> r == text
    ensures !StartsWith(text, Flame) ==> |r| == |Flame| + 1 + |text| && r[|Flame|] == ' ' && r[|Flame| + 1..] == text
  {
    if StartsWith(text, Flame) then text else Flame + " " + text
  }

  /** Normalising twice is normalising once, and normalised text is never changed again. */
  lemma EnsureFlameIdempotent(text: string)
    ensures EnsureFlame(EnsureFlame(text)) == EnsureFlame(text)
  {
  }

  /**
   * `generateRoast`: without a client, or when the remote call fails
   * (`reply == None`), the roast is the locally chosen `fallback`; otherwise it
   * is the reply, normalised. The remote call and the random choice of the
   * fallback are inputs.
   */
  function GenerateRoast(hasClient: bool, reply: Option<string>, fallback: string): (r: string)
    ensures r == fallback || StartsWith(r, Flame)
    ensures StartsWith(fallback, Flame) ==> StartsWith(r, Flame)
    ensures !hasClient || reply.None? ==> r == fallback
    ensures hasClient && reply.Some? ==> r == EnsureFlame(reply.value)
  {
    if !hasClient then fallback
    else match reply
      case None => fallback
      case Some(text) => EnsureFlame(text)
  }
}
