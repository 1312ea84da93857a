/** Consequences of the anchored title pattern: the fixed prefix, the shape of
    the body, what the anchors `^` and `$` rule out, and how the pattern
    relates to the looser visible-ASCII convention.
 */
module TitleProperties {
  import opened TitleGrammar
  import opened TitleShape

  /** Character by character, what every accepted title looks like. */
  lemma AcceptedShape(s: string)
    requires RegexTitle(s)
    ensures |s| >= 14
    ensures s[..4] == "VIP-"
    ensures IsDigit(s[4]) && IsDigit(s[5])
    ensures s[6] == '-'
    ensures forall i :: 7 <= i < 11 ==> IsDigit(s[i])
    ensures s[11] == ':' && s[12] == ' '
    ensures WordStart(s[13])
    ensures forall i :: 13 <= i < |s| ==> BodyChar(s[i])
    ensures forall i :: 13 <= i < |s| && s[i] == ' ' ==> i + 1 < |s| && WordStart(s[i + 1])
    ensures forall i :: 13 <= i < |s| - 1 && s[i] == ' ' ==> s[i + 1] != ' '
    ensures s[|s| - 1] != ' '
  {
    TitleEquivalence(s);
    var b := s[HeaderWidth..];
    forall i | 13 <= i < |s|
      ensures BodyChar(s[i])
      ensures s[i] == ' ' ==> i + 1 < |s| && WordStart(s[i + 1])
    {
      assert b[i - 13] == s[i];
      if s[i] == ' ' {
        assert b[i - 13 + 1] == s[i + 1];
      }
    }
  }

  /** `^`: no text may precede the title. */
  lemma LeadingTextRejected(p: string, s: string)
    requires RegexTitle(s)
    requires |p| > 0
    ensures !RegexTitle(p + s)
  {
    AcceptedShape(s);
    var t := p + s;
    assert t[|p| + 11] == ':';
    if RegexTitle(t) {
      AcceptedShape(t);
    }
  }

  /** `$`: a single character may follow an accepted title only when it is
      alphanumeric and so lengthens the last word; a trailing space, or any
      character outside `[a-zA-Z0-9]`, makes the title invalid. */
  lemma TrailingCharacter(s: string, c: char)
    requires RegexTitle(s)
    ensures RegexTitle(s + [c]) <==> IsAlnum(c)
  {
    var t := s + [c];
    TitleEquivalence(s);
    TitleEquivalence(t);
    assert t[..HeaderWidth] == s[..HeaderWidth];
    assert t[HeaderWidth..] == s[HeaderWidth..] + [c];
    AppendChar(s[HeaderWidth..], c);
  }

  /** `( (W))*`: an accepted title followed by a space and more text is
      accepted exactly when that text is itself a body of words. */
  lemma TrailingWords(s: string, r: string)
    requires RegexTitle(s)
    ensures RegexTitle(s + [' '] + r) <==> RegexBody(r)
  {
    var t := s + [' '] + r;
    TitleEquivalence(s);
    TitleEquivalence(t);
    BodyEquivalence(r);
    assert t[..HeaderWidth] == s[..HeaderWidth];
    assert t[HeaderWidth..] == s[HeaderWidth..] + [' '] + r;
    SpaceConcat(s[HeaderWidth..], r);
  }

  /** A word of the body that begins with a lowercase letter rejects the title. */
  lemma LowercaseWordInTitle(s: string, i: nat)
    requires HeaderWidth <= i < |s|
    requires s[i - 1] == ' ' && IsLower(s[i])
    ensures !RegexTitle(s)
  {
    if RegexTitle(s) {
      AcceptedShape(s);
    }
  }

  /** Every title the script accepts is also accepted by the looser
      `^VIP-\d{2}-\d{4}: [ -~]+$` convention. */
  lemma StrictImpliesPermissive(s: string)
    requires RegexTitle(s)
    ensures PermissiveTitle(s)
  {
    AcceptedShape(s);
  }

  /** The converse fails: the looser convention accepts a title with a
      lowercase word that the script rejects. */
  lemma PermissiveIsLooser()
    ensures PermissiveTitle("VIP-24-0001: Fix login bug")
    ensures !RegexTitle("VIP-24-0001: Fix login bug")
  {
    var s := "VIP-24-0001: Fix login bug";
    assert HeaderChars(s[..HeaderWidth]);
    HeaderPositions(s[..HeaderWidth]);
    assert s[16] == ' ' && s[17] == 'l';
    LowercaseWordInTitle(s, 17);
  }
}
