/** A position-by-position description of the title body, the splitting of a
    body into its words, and the proof that both agree with the regular
    expression of scripts/validate-pr-title.mjs:16.
 */
module TitleShape {
  import opened TitleGrammar

  /** A character that may begin a word: a digit or a capital `A`-`Z`. */
  predicate WordStart(c: char) {
    IsDigit(c) || IsUpper(c)
  }

  /** `[a-zA-Z0-9 ]`, the only characters a body may contain. */
  predicate BodyChar(c: char) {
    IsAlnum(c) || c == ' '
  }

  /** The collapsed form of both word alternatives: a non-empty alphanumeric
      string whose first character is a digit or a capital. */
  predicate CapWord(w: string) {
    |w| > 0 && WordStart(w[0]) && AllAlnum(w)
  }

  /** The body checked one position at a time: it starts a word, holds only
      `[a-zA-Z0-9 ]`, and every space is followed by the start of a word (so
      there is no trailing, doubled or leading space). */
  predicate FlatBody(b: string) {
    && |b| > 0
    && WordStart(b[0])
    && (forall i :: 0 <= i < |b| ==> BodyChar(b[i]))
    && (forall i :: 0 <= i < |b| && b[i] == ' ' ==> i + 1 < |b| && WordStart(b[i + 1]))
  }

  /** The fixed part checked one position at a time. */
  predicate HeaderChars(h: string) {
    && |h| == HeaderWidth
    && h[0] == 'V' && h[1] == 'I' && h[2] == 'P' && h[3] == '-'
    && IsDigit(h[4]) && IsDigit(h[5])
    && h[6] == '-'
    && IsDigit(h[7]) && IsDigit(h[8]) && IsDigit(h[9]) && IsDigit(h[10])
    && h[11] == ':' && h[12] == ' '
  }

  /** The title with header and body checked position by position. */
  predicate FlatTitle(s: string) {
    |s| >= HeaderWidth && HeaderChars(s[..HeaderWidth]) && FlatBody(s[HeaderWidth..])
  }

  /** `VIP-[0-9]{2}-[0-9]{4}: ` read position by position. */
  lemma HeaderPositions(h: string)
    ensures Header(h) <==> HeaderChars(h)
  {
    if |h| == HeaderWidth {
      assert h[..4] == [h[0], h[1], h[2], h[3]];
      assert h[4..6] == [h[4], h[5]];
      assert h[7..11] == [h[7], h[8], h[9], h[10]];
      assert h[11..] == [h[11], h[12]];
    }
  }

  /** The two alternatives of the word group collapse to one: a word matches
      `\d*[A-Z][a-zA-Z0-9]*|\d+[a-zA-Z0-9]*` exactly when it is non-empty,
      alphanumeric, and begins with a digit or a capital. */
  lemma WordAlternatives(w: string)
    ensures RegexWord(w) <==> CapWord(w)
  {
    if CapitalAlternative(w) {
      var k :| 0 <= k < |w| && AllDigits(w[..k]) && IsUpper(w[k]) && AllAlnum(w[k + 1..]);
      if k > 0 {
        assert w[..k][0] == w[0];
      }
      forall i | 0 <= i < |w|
        ensures IsAlnum(w[i])
      {
        if i < k {
          assert w[..k][i] == w[i];
        } else if i > k {
          assert w[k + 1..][i - k - 1] == w[i];
        }
      }
    }
    if NumericAlternative(w) {
      var k :| 0 < k <= |w| && AllDigits(w[..k]) && AllAlnum(w[k..]);
      assert w[..k][0] == w[0];
      forall i | 0 <= i < |w|
        ensures IsAlnum(w[i])
      {
        if i < k {
          assert w[..k][i] == w[i];
        } else {
          assert w[k..][i - k] == w[i];
        }
      }
    }
    if CapWord(w) {
      assert AllAlnum(w[1..]) by {
        forall i | 0 <= i < |w| - 1
          ensures IsAlnum(w[1..][i])
        {
          assert w[1..][i] == w[i + 1];
        }
      }
      if IsUpper(w[0]) {
        assert AllDigits(w[..0]);
        assert CapitalAlternative(w);
      } else {
        assert AllDigits(w[..1]);
        assert NumericAlternative(w);
      }
    }
  }

  /** A word starting with a lowercase letter matches neither alternative. */
  lemma LowercaseWordRejected(w: string)
    requires |w| > 0 && IsLower(w[0])
    ensures !RegexWord(w)
  {
    WordAlternatives(w);
  }

  /** Without spaces, a body is a single word. */
  lemma SingleWord(w: string)
    requires ' ' !in w
    ensures FlatBody(w) <==> CapWord(w)
  {
    if FlatBody(w) {
      forall i | 0 <= i < |w|
        ensures IsAlnum(w[i])
      {
        assert w[i] in w;
      }
    }
  }

  /** Gluing two bodies with one space gives a body, and only bodies glue so. */
  lemma SpaceConcat(x: string, r: string)
    ensures FlatBody(x + [' '] + r) <==> FlatBody(x) && FlatBody(r)
  {
    var t := x + [' '] + r;
    var n := |x|;
    assert t[n] == ' ';
    assert forall i :: 0 <= i < n ==> t[i] == x[i];
    assert forall j :: 0 <= j < |r| ==> t[n + 1 + j] == r[j];
    if FlatBody(t) {
      assert n + 1 < |t|;
      assert t[0] != ' ';
      forall i | 0 <= i < n && x[i] == ' '
        ensures i + 1 < n && WordStart(x[i + 1])
      {
        assert t[i] == ' ';
        assert t[i + 1] != ' ';
      }
      forall j | 0 <= j < |r| && r[j] == ' '
        ensures j + 1 < |r| && WordStart(r[j + 1])
      {
        assert t[n + 1 + j] == ' ';
      }
      assert forall j :: 0 <= j < |r| ==> BodyChar(r[j]);
    }
    if FlatBody(x) && FlatBody(r) {
      forall i | 0 <= i < |t|
        ensures BodyChar(t[i])
        ensures t[i] == ' ' ==> i + 1 < |t| && WordStart(t[i + 1])
      {
        if i < n {
          if x[i] == ' ' {
            assert t[i + 1] == x[i + 1];
          }
        } else if i > n {
          var j := i - n - 1;
          assert t[i] == r[j];
          if r[j] == ' ' {
            assert t[i + 1] == r[j + 1];
          }
        } else {
          assert t[i + 1] == r[0];
        }
      }
    }
  }

  /** Appending one character to a body keeps it a body exactly when the
      character is alphanumeric (it extends the last word). */
  lemma AppendChar(b: string, c: char)
    requires FlatBody(b)
    ensures FlatBody(b + [c]) <==> IsAlnum(c)
  {
    var t := b + [c];
    var n := |b|;
    assert forall i :: 0 <= i < n ==> t[i] == b[i];
    assert t[n] == c;
    if IsAlnum(c) {
      assert b[n - 1] != ' ';
      forall i | 0 <= i < |t| && t[i] == ' '
        ensures i + 1 < |t| && WordStart(t[i + 1])
      {
        assert i < n - 1;
        assert t[i + 1] == b[i + 1];
      }
    }
  }

  /** Position of the first space of `b`. */
  function SpaceIndex(b: string): (k: nat)
    requires ' ' in b
    ensures k < |b| && b[k] == ' '
    ensures ' ' !in b[..k]
  {
    if b[0] == ' ' then 0
    else
      var k' := SpaceIndex(b[1..]);
      assert b[..k' + 1] == [b[0]] + b[1..][..k'];
      k' + 1
  }

  /** The words of a body: the maximal space-free pieces between single spaces. */
  function Split(b: string): (ws: seq<string>)
    ensures |ws| > 0
    ensures forall i :: 0 <= i < |ws| ==> ' ' !in ws[i]
    decreases |b|
  {
    if ' ' in b then
      var k := SpaceIndex(b);
      [b[..k]] + Split(b[k + 1..])
    else
      [b]
  }

  /** Splitting then joining gives back the body. */
  lemma {:induction false} JoinSplit(b: string)
    ensures Join(Split(b)) == b
    decreases |b|
  {
    if ' ' in b {
      var k := SpaceIndex(b);
      JoinSplit(b[k + 1..]);
      assert Split(b)[1..] == Split(b[k + 1..]);
      assert b[..k] + [' '] + b[k + 1..] == b;
    }
  }

  /** Joining space-free words then splitting gives back the words. */
  lemma {:induction false} SplitJoin(ws: seq<string>)
    requires |ws| > 0
    requires forall i :: 0 <= i < |ws| ==> ' ' !in ws[i]
    ensures Split(Join(ws)) == ws
    decreases |ws|
  {
    if |ws| > 1 {
      var b := Join(ws);
      var n := |ws[0]|;
      assert b == ws[0] + [' '] + Join(ws[1..]);
      assert b[n] == ' ';
      assert b[..n] == ws[0];
      var k := SpaceIndex(b);
      assert k == n;
      assert b[n + 1..] == Join(ws[1..]);
      SplitJoin(ws[1..]);
      assert ws == [ws[0]] + ws[1..];
    }
  }

  /** Every word of a body is a capitalised or numeric word. */
  lemma {:induction false} SplitWords(b: string)
    requires FlatBody(b)
    ensures forall i :: 0 <= i < |Split(b)| ==> CapWord(Split(b)[i])
    decreases |b|
  {
    if ' ' in b {
      var k := SpaceIndex(b);
      assert b == b[..k] + [' '] + b[k + 1..];
      SpaceConcat(b[..k], b[k + 1..]);
      SingleWord(b[..k]);
      SplitWords(b[k + 1..]);
    } else {
      SingleWord(b);
    }
  }

  /** Joining capitalised or numeric words gives a body. */
  lemma {:induction false} JoinWords(ws: seq<string>)
    requires |ws| > 0
    requires forall i :: 0 <= i < |ws| ==> CapWord(ws[i])
    ensures FlatBody(Join(ws))
    decreases |ws|
  {
    assert ' ' !in ws[0];
    SingleWord(ws[0]);
    if |ws| > 1 {
      JoinWords(ws[1..]);
      SpaceConcat(ws[0], Join(ws[1..]));
    }
  }

  /** `(W)( (W))*` holds of a body exactly when the position-by-position
      description does. */
  lemma BodyEquivalence(b: string)
    ensures RegexBody(b) <==> FlatBody(b)
  {
    if RegexBody(b) {
      var ws :| IsWordList(ws) && Join(ws) == b;
      forall i | 0 <= i < |ws|
        ensures CapWord(ws[i])
      {
        WordAlternatives(ws[i]);
      }
      JoinWords(ws);
    }
    if FlatBody(b) {
      var ws := Split(b);
      JoinSplit(b);
      SplitWords(b);
      forall i | 0 <= i < |ws|
        ensures RegexWord(ws[i])
      {
        WordAlternatives(ws[i]);
      }
      assert IsWordList(ws);
    }
  }

  /** The anchored pattern and the position-by-position title agree on every string. */
  lemma TitleEquivalence(s: string)
    ensures RegexTitle(s) <==> FlatTitle(s)
  {
    if |s| >= HeaderWidth {
      HeaderPositions(s[..HeaderWidth]);
      BodyEquivalence(s[HeaderWidth..]);
    }
  }
}
