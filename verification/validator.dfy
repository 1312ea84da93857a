/** The command of scripts/validate-pr-title.mjs: the title argument is checked
    for presence, then against the title pattern, and each path ends the
    process with a logged message and an exit code. Ending the process is
    modelled by returning the outcome, so every branch is final.
 */
module Validator {
  import opened TitleGrammar
  import opened TitleShape
  import TitleScanner
  import opened TitleProperties

  /** The first command-line argument, which may be missing. */
  datatype Option<+T> = None | Some(value: T)

  /** The levels of the console logger; the validator uses two of them. */
  datatype LogLevel = Debug | Info | Warn | Error | Success

  /** What one run reports: the level and text of its one log line and the
      code it exits with. */
  datatype Outcome = Outcome(level: LogLevel, message: string, exitCode: int)

  const MissingMessage := "no title provided"
  const ValidMessage := "title is valid!"

  function InvalidMessage(title: string): string {
    "title \"" + title + "\" is invalid"
  }

  /** JavaScript's `!title` for a string-or-undefined argument: only a
      missing argument and the empty string are falsy. */
  predicate Absent(arg: Option<string>) {
    arg.None? || arg.value == ""
  }

  /** The outcome of one run on argument `arg`. It depends on `arg` alone: no
      state enters or survives a run. */
  function Validate(arg: Option<string>): (r: Outcome)
    ensures r.exitCode == 0 || r.exitCode == 1
    ensures r.exitCode == 0 <==> !Absent(arg) && RegexTitle(arg.value)
    ensures r.level == Success <==> r.exitCode == 0
    ensures r.level == Error <==> r.exitCode == 1
    ensures Absent(arg) ==> r == Outcome(Error, MissingMessage, 1)
    ensures !Absent(arg) && !RegexTitle(arg.value) ==> r == Outcome(Error, InvalidMessage(arg.value), 1)
    ensures !Absent(arg) && RegexTitle(arg.value) ==> r == Outcome(Success, ValidMessage, 0)
  {
    if Absent(arg) then
      Outcome(Error, MissingMessage, 1)
    else
      TitleEquivalence(arg.value);
      if FlatTitle(arg.value) then Outcome(Success, ValidMessage, 0)
      else Outcome(Error, InvalidMessage(arg.value), 1)
  }

  /** The same run carried out with the hand-written scanner. */
  method Run(arg: Option<string>) returns (r: Outcome)
    ensures r == Validate(arg)
  {
    if arg.None? || arg.value == "" {
      return Outcome(Error, MissingMessage, 1);
    }
    var matches := TitleScanner.Scan(arg.value);
    if !matches {
      return Outcome(Error, InvalidMessage(arg.value), 1);
    }
    return Outcome(Success, ValidMessage, 0);
  }

  /** A missing argument and an empty one are both reported as missing. */
  lemma ScenarioMissing()
    ensures Validate(None) == Outcome(Error, "no title provided", 1)
    ensures Validate(Some("")) == Outcome(Error, "no title provided", 1)
  {
  }

  /** The shortest valid title: the header and a one-letter word. */
  lemma ScenarioMinimal()
    ensures Validate(Some("VIP-00-0000: A")) == Outcome(Success, "title is valid!", 0)
  {
    var s := "VIP-00-0000: A";
    assert HeaderChars(s[..HeaderWidth]);
    assert FlatBody(s[HeaderWidth..]);
    TitleEquivalence(s);
  }

  /** `login` starts with a lowercase letter, so the whole title is rejected. */
  lemma ScenarioLowercaseWord()
    ensures !RegexTitle("VIP-24-0001: Fix login bug")
    ensures Validate(Some("VIP-24-0001: Fix login bug"))
         == Outcome(Error, InvalidMessage("VIP-24-0001: Fix login bug"), 1)
  {
    var s := "VIP-24-0001: Fix login bug";
    assert s[16] == ' ' && s[17] == 'l';
    LowercaseWordInTitle(s, 17);
  }

  /** A one-digit year shifts the second hyphen into a digit position. */
  lemma ScenarioShortYear()
    ensures Validate(Some("VIP-1-2345: Foo")).exitCode == 1
  {
    var s := "VIP-1-2345: Foo";
    assert s[..HeaderWidth][5] == '-';
    TitleEquivalence(s);
  }

  /** The colon must be followed by a space. */
  lemma ScenarioNoSpace()
    ensures Validate(Some("VIP-12-2345:Foo")).exitCode == 1
  {
    var s := "VIP-12-2345:Foo";
    assert s[..HeaderWidth][12] == 'F';
    TitleEquivalence(s);
  }

  /** The header alone, without a word, is rejected. */
  lemma ScenarioEmptyBody()
    ensures Validate(Some("VIP-12-2345: ")).exitCode == 1
  {
    var s := "VIP-12-2345: ";
    assert |s[HeaderWidth..]| == 0;
    TitleEquivalence(s);
  }

  /** Without the `VIP-` prefix the title is rejected and quoted back. */
  lemma ScenarioNoPrefix()
    ensures Validate(Some("Fix login bug")) == Outcome(Error, "title \"Fix login bug\" is invalid", 1)
  {
    var s := "Fix login bug";
    assert !RegexTitle(s) by {
      assert s[..HeaderWidth][0] == 'F';
      TitleEquivalence(s);
    }
    assert InvalidMessage(s) == "title \"Fix login bug\" is invalid";
  }
}
