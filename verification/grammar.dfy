/** The pull-request title pattern of scripts/validate-pr-title.mjs, written
    component by component the way the regular expression is written:

      ^VIP-[0-9]{2}-[0-9]{4}: (W)( (W))*$   where   W = \d*[A-Z][a-zA-Z0-9]*|\d+[a-zA-Z0-9]*

    Nothing here is meant to be executed efficiently: these are the reference
    definitions the scanner and the outcome function are proved against.
 */
module TitleGrammar {

  /** `\d` and `[0-9]`: JavaScript's `\d` without the `u` flag is ASCII only. */
  predicate IsDigit(c: char) {
    '0' <= c <= '9'
  }

  /** `[A-Z]` */
  predicate IsUpper(c: char) {
    'A' <= c <= 'Z'
  }

  /** `[a-z]` */
  predicate IsLower(c: char) {
    'a' <= c <= 'z'
  }

  /** `[a-zA-Z0-9]` */
  predicate IsAlnum(c: char) {
    IsLower(c) || IsUpper(c) || IsDigit(c)
  }

  predicate AllDigits(s: string) {
    forall i :: 0 <= i < |s| ==> IsDigit(s[i])
  }

  predicate AllAlnum(s: string) {
    forall i :: 0 <= i < |s| ==> IsAlnum(s[i])
  }

  /** Width of the fixed part `VIP-[0-9]{2}-[0-9]{4}: `. */
  const HeaderWidth := 13

  /** `VIP-[0-9]{2}-[0-9]{4}: ` matched against exactly `h`. */
  predicate Header(h: string) {
    && |h| == HeaderWidth
    && h[..4] == "VIP-"
    && AllDigits(h[4..6])
    && h[6] == '-'
    && AllDigits(h[7..11])
    && h[11..] == ": "
  }

  /** First alternative `\d*[A-Z][a-zA-Z0-9]*`: some digits, one capital, then alphanumerics. */
  ghost predicate CapitalAlternative(w: string) {
    exists k :: 0 <= k < |w| && AllDigits(w[..k]) && IsUpper(w[k]) && AllAlnum(w[k + 1..])
  }

  /** Second alternative `\d+[a-zA-Z0-9]*`: at least one digit, then alphanumerics. */
  ghost predicate NumericAlternative(w: string) {
    exists k :: 0 < k <= |w| && AllDigits(w[..k]) && AllAlnum(w[k..])
  }

  /** The word group `(\d*[A-Z][a-zA-Z0-9]*|\d+[a-zA-Z0-9]*)`. */
  ghost predicate RegexWord(w: string) {
    CapitalAlternative(w) || NumericAlternative(w)
  }

  /** Words glued with one space each: the shape of `W( W)*` once the words are chosen. */
  function Join(ws: seq<string>): (b: string)
    requires |ws| > 0
    decreases |ws|
  {
    if |ws| == 1 then ws[0] else ws[0] + [' '] + Join(ws[1..])
  }

  ghost predicate IsWordList(ws: seq<string>) {
    |ws| > 0 && forall i :: 0 <= i < |ws| ==> RegexWord(ws[i])
  }

  /** `(W)( (W))*`: one word followed by zero or more space-prefixed words. */
  ghost predicate RegexBody(b: string) {
    exists ws :: IsWordList(ws) && Join(ws) == b
  }

  /** The whole anchored pattern. `^` and `$` make the match cover all of `s`;
      because the fixed part has width 13, the body is everything after it. */
  ghost predicate RegexTitle(s: string) {
    |s| >= HeaderWidth && Header(s[..HeaderWidth]) && RegexBody(s[HeaderWidth..])
  }

  /** `[ -~]`: visible ASCII, space through tilde. */
  predicate IsVisible(c: char) {
    ' ' <= c <= '~'
  }

  /** `^VIP-\d{2}-\d{4}: [ -~]+$`, the looser convention described for later
      versions of the repository; the script modelled here does not use it. */
  predicate PermissiveTitle(s: string) {
    && |s| > HeaderWidth
    && Header(s[..HeaderWidth])
    && forall i :: HeaderWidth <= i < |s| ==> IsVisible(s[i])
  }
}
