/** A hand-written recognizer for the title pattern: the fixed header is
    compared position by position, then the body is read left to right with a
    single flag recording whether the next character has to start a word.
 */
module TitleScanner {
  import opened TitleGrammar
  import opened TitleShape

  /** Compares the 13-character prefix against `VIP-dd-dddd: `. */
  method ScanHeader(s: string) returns (ok: bool)
    ensures ok <==> |s| >= HeaderWidth && Header(s[..HeaderWidth])
  {
    if |s| < HeaderWidth {
      return false;
    }
    HeaderPositions(s[..HeaderWidth]);
    ok := s[0] == 'V' && s[1] == 'I' && s[2] == 'P' && s[3] == '-'
      && IsDigit(s[4]) && IsDigit(s[5])
      && s[6] == '-'
      && IsDigit(s[7]) && IsDigit(s[8]) && IsDigit(s[9]) && IsDigit(s[10])
      && s[11] == ':' && s[12] == ' ';
  }

  /** Reads the body once. `expectWord` is set at the start and after every
      space; the next character must then be a digit or a capital. Elsewhere
      any alphanumeric character continues the word and a space ends it. The
      body is accepted when it does not end waiting for a word, which rules
      out the empty body and a trailing space. */
  method ScanBody(b: string) returns (ok: bool)
    ensures ok <==> RegexBody(b)
  {
    BodyEquivalence(b);
    var expectWord := true;
    var i := 0;
    while i < |b|
      invariant 0 <= i <= |b|
      invariant expectWord <==> (i == 0 || b[i - 1] == ' ')
      invariant i > 0 ==> WordStart(b[0])
      invariant forall j :: 0 <= j < i ==> BodyChar(b[j])
      invariant forall j :: 0 <= j < i - 1 && b[j] == ' ' ==> WordStart(b[j + 1])
    {
      var c := b[i];
      if expectWord {
        if !WordStart(c) {
          return false;
        }
        expectWord := false;
      } else if c == ' ' {
        expectWord := true;
      } else if !IsAlnum(c) {
        return false;
      }
      i := i + 1;
    }
    ok := !expectWord;
  }

  /** Decides the anchored pattern of scripts/validate-pr-title.mjs:16. */
  method Scan(s: string) returns (ok: bool)
    ensures ok <==> RegexTitle(s)
  {
    ok := ScanHeader(s);
    if ok {
      ok := ScanBody(s[HeaderWidth..]);
    }
  }
}
