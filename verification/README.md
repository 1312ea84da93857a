# Pull-request title validator, modelled in Dafny

`scripts/validate-pr-title.mjs` is a command that checks one pull-request title
and reports the result through its exit code. It reads its first argument. A
missing or empty argument is an error: the command logs `no title provided` and
exits with 1. Otherwise it tests the title against the anchored pattern

    ^VIP-[0-9]{2}-[0-9]{4}: (\d*[A-Z][a-zA-Z0-9]*|\d+[a-zA-Z0-9]*)( (\d*[A-Z][a-zA-Z0-9]*|\d+[a-zA-Z0-9]*))*$

A title that fails the pattern is logged as `title "<title>" is invalid` at
error level and exits with 1. A title that matches is logged as
`title is valid!` at success level and exits with 0.

The model has five modules:

- `TitleGrammar` (`grammar.dfy`) writes the pattern piece by piece, in the same
  shape as the regular expression. It has the fixed 13-character header, the
  two word alternatives, and a body that is a non-empty list of words joined by
  single spaces. These are the reference definitions. Some of them use
  existential quantifiers and are not executable.
- `TitleShape` (`shape.dfy`) describes the same language one position at a
  time. It proves that the two word alternatives collapse to one rule: a word is
  a non-empty alphanumeric string that starts with a digit or a capital. It
  proves that the word-list body and the position-by-position body are the same
  language. It also splits a body into words, and proves that splitting and
  joining are inverses of each other.
- `TitleProperties` (`properties.dfy`) proves what accepted titles look like
  and what the anchors `^` and `$` rule out.
- `TitleScanner` (`scanner.dfy`) is a hand-written recognizer: a check of the
  header, then one left-to-right pass over the body with a single flag. It is
  proved to decide exactly the pattern.
- `Validator` (`validator.dfy`) is the command. `Validate` is the outcome as a
  pure function. `Run` produces the same outcome using the scanner.

The pattern in the script is the strict grammar of capitalised or numeric
words. A looser convention, `^VIP-\d{2}-\d{4}: [ -~]+$` (any visible ASCII
after the colon), is described for later versions of this validator. The model
follows the script as written. `TitleProperties.StrictImpliesPermissive` and
`TitleProperties.PermissiveIsLooser` show how the two relate. Under the script,
`VIP-24-0001: Fix login bug` is rejected because `login` starts with a
lowercase letter.

An accepted title can be followed by one more alphanumeric character and still
be accepted, because the character lengthens the last word
(`VIP-00-0000: A` becomes `VIP-00-0000: Ab`). So the anchor `$` does not rule
out every extension. `TitleProperties.TrailingCharacter` gives the exact rule.
`TitleProperties.TrailingWords` covers extensions that start with a space.

## Model

| member | source | states |
|---|---|---|
| `TitleShape.HeaderPositions` | scripts/validate-pr-title.mjs:16 | `VIP-[0-9]{2}-[0-9]{4}: ` holds of a string exactly when it is 13 characters long, reads `VIP-` at 0-3, has digits at 4-5, `-` at 6, digits at 7-10, and `: ` at 11-12 |
| `TitleShape.WordAlternatives` | scripts/validate-pr-title.mjs:16 | a word matches `\d*[A-Z][a-zA-Z0-9]*` or `\d+[a-zA-Z0-9]*` if and only if it is non-empty, alphanumeric, and starts with a digit or an uppercase `A`-`Z` |
| `TitleShape.LowercaseWordRejected` | scripts/validate-pr-title.mjs:16 | a word starting with a lowercase letter matches neither alternative |
| `TitleShape.SingleWord` | scripts/validate-pr-title.mjs:16 | a body with no space is valid exactly when it is one capitalised or numeric word |
| `TitleShape.SpaceConcat` | scripts/validate-pr-title.mjs:16 | two texts joined by one space form a valid body if and only if both are valid bodies |
| `TitleShape.AppendChar` | scripts/validate-pr-title.mjs:16 | appending one character to a valid body keeps it valid exactly when the character is alphanumeric |
| `TitleShape.Split` | scripts/validate-pr-title.mjs:16 | splitting a body gives at least one piece, and no piece contains a space |
| `TitleShape.JoinSplit` | scripts/validate-pr-title.mjs:16 | joining the pieces of any text with single spaces gives back the text |
| `TitleShape.SplitJoin` | scripts/validate-pr-title.mjs:16 | joining space-free words with single spaces, then splitting, gives back the same words |
| `TitleShape.SplitWords` | scripts/validate-pr-title.mjs:16 | every word of a valid body is non-empty, alphanumeric, and starts with a digit or a capital |
| `TitleShape.JoinWords` | scripts/validate-pr-title.mjs:16 | joining one or more capitalised or numeric words with single spaces gives a valid body |
| `TitleShape.BodyEquivalence` | scripts/validate-pr-title.mjs:16 | the group `(W)( (W))*` matches a text if and only if the text is non-empty, uses only `[a-zA-Z0-9 ]`, starts with a digit or capital, and has a digit or capital after every space |
| `TitleShape.TitleEquivalence` | scripts/validate-pr-title.mjs:16 | the anchored pattern and the position-by-position description accept the same strings |
| `TitleProperties.AcceptedShape` | scripts/validate-pr-title.mjs:16 | an accepted title has length at least 14 and has `VIP-`, two digits, `-`, four digits and `: ` at fixed positions. Its body starts with a digit or capital and uses only `[a-zA-Z0-9 ]`. It has no doubled space and no trailing space |
| `TitleProperties.LeadingTextRejected` | scripts/validate-pr-title.mjs:16 | `^`: putting any non-empty text in front of an accepted title makes it rejected |
| `TitleProperties.TrailingCharacter` | scripts/validate-pr-title.mjs:16 | `$`: an accepted title followed by one character is accepted if and only if the character is alphanumeric. A trailing space is rejected |
| `TitleProperties.TrailingWords` | scripts/validate-pr-title.mjs:16 | an accepted title followed by a space and a text is accepted if and only if the text is a valid body of words |
| `TitleProperties.LowercaseWordInTitle` | scripts/validate-pr-title.mjs:16 | a title is rejected if any word of its body starts with a lowercase letter |
| `TitleProperties.StrictImpliesPermissive` | scripts/validate-pr-title.mjs:16 | every accepted title also matches the looser `^VIP-\d{2}-\d{4}: [ -~]+$` |
| `TitleProperties.PermissiveIsLooser` | scripts/validate-pr-title.mjs:16 | `VIP-24-0001: Fix login bug` matches the looser pattern but not the script's pattern |
| `TitleScanner.ScanHeader` | scripts/validate-pr-title.mjs:16 | the header check returns true exactly when the first 13 characters exist and match `VIP-[0-9]{2}-[0-9]{4}: ` |
| `TitleScanner.ScanBody` | scripts/validate-pr-title.mjs:16 | the one-pass body scan returns true exactly when the text matches `(W)( (W))*` |
| `TitleScanner.Scan` | scripts/validate-pr-title.mjs:16 | the scanner returns true exactly when the title matches the anchored pattern |
| `Validator.Validate` | scripts/validate-pr-title.mjs:10-26 | the exit code is always 0 or 1. It is 0 exactly when the title is present, non-empty and matches the pattern. A missing or empty title gives ERROR `no title provided`, and the pattern is not consulted. A non-matching title gives ERROR `title "<title>" is invalid`. A match gives SUCCESS `title is valid!`. The result depends only on the argument |
| `Validator.Run` | scripts/validate-pr-title.mjs:4-27 | the command run with the hand-written scanner gives the same level, message and exit code as `Validate` for every argument |
| `Validator.ScenarioMissing` | scripts/validate-pr-title.mjs:10-14 | a missing argument and an empty one both give ERROR `no title provided` with exit code 1 |
| `Validator.ScenarioMinimal` | scripts/validate-pr-title.mjs:16-26 | `VIP-00-0000: A` gives SUCCESS `title is valid!` with exit code 0 |
| `Validator.ScenarioLowercaseWord` | scripts/validate-pr-title.mjs:16-21 | `VIP-24-0001: Fix login bug` gives ERROR `title "VIP-24-0001: Fix login bug" is invalid` with exit code 1 |
| `Validator.ScenarioShortYear` | scripts/validate-pr-title.mjs:16-21 | `VIP-1-2345: Foo` (one digit where two are required) exits with 1 |
| `Validator.ScenarioNoSpace` | scripts/validate-pr-title.mjs:16-21 | `VIP-12-2345:Foo` (no space after the colon) exits with 1 |
| `Validator.ScenarioEmptyBody` | scripts/validate-pr-title.mjs:16-21 | `VIP-12-2345: ` (no word after the header) exits with 1 |
| `Validator.ScenarioNoPrefix` | scripts/validate-pr-title.mjs:16-21 | `Fix login bug` gives ERROR `title "Fix login bug" is invalid` with exit code 1 |

## Left out

- Reading the argument (`process.argv.slice(2)[0]`) is left out. The argument is a parameter of type `Option<string>`, where `None` stands for a missing argument.
- `process.exit` is modelled as the returned exit code. It never returns, so every branch of `Validate` and `Run` ends the run.
- The console logger (`scripts/utils/createLogger.mjs`) is left out: its output and ANSI colour escapes are console I/O. The model keeps only the level and the message of the one line that is logged. Its five levels appear as `LogLevel`.
- The general JavaScript `RegExp` engine is left out. Only this one fixed pattern is modelled.
- JavaScript strings are UTF-16; here a title is a `seq<char>`. The pattern accepts only ASCII characters, so this does not change which titles are accepted.
- The colour-mode toggle (`static/js/colorMode.js`) is left out. It is browser code acting on local storage and the DOM, and it has no link to the validator.
