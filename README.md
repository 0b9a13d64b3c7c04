# gitlogparser in Dafny

A model of `GitLogParser`, the PHP class that turns the text printed by
`git log` (short, medium, full and fuller formats) into a list of commit
objects, with proofs of what it does.

The parser reads the log one line at a time. `matchLine` puts each line in
one of four categories, tried in a fixed order: commit start, attribute,
blank, text. The loop in `parseCommitLog` hands the line to that
category's handler:

- a commit line saves the current commit, if it has a hash, and starts a new
  one whose only property is `Hash`;
- an attribute line stores its value under its label, with every run of
  non-word characters in the label turned into one `_`;
- a text line becomes the `Title`, or later goes to the `Body`;
- a blank line adds a line break to a `Body` that already exists.

When the input ends, the last commit is saved the same way. `toArray`
returns the list.

The model has seven modules:

- `Text` (text.dfy) holds the character classes `\s` and `\w` and the
  `preg_replace` surgery: trimming and sanitising names.
- `CommitRecord` (record.dfy) holds `Record`, the property table of a PHP
  `stdClass` with its names in order of first assignment, and `Commit`,
  the mutable object the handlers change in place.
- `Classifier` (classifier.dfy) is `matchLine`. Each of the four regular
  expressions is written out literally, as the set of lines PCRE accepts.
  A lemma shows the computable `MatchLine` picks the first pattern that
  matches.
- `GitLog` (gitlog.dfy) holds:
  - the stream as its lines;
  - what each handler extracts from a line;
  - each handler as a function on records;
  - the loop as a fold;
  - the `GitLogParser` class, whose methods change `commits` and the
    current `Commit` in place and are proved equal to those functions.
- `LogProperties` (properties.dfy), `CommitMessage` (message.dfy) and
  `LineFormats` (formats.dfy) prove what the parser promises about a whole
  log, about a message, and about single lines.

The main result is `LogProperties.ParseLogStructure`. Any log splits into
a preamble (the lines before the first commit line) and commit blocks. The
parser returns the preamble's record only if an attribute line gave it a
`Hash`, followed by one record per block, in log order.

Behaviour of the code worth knowing (the model follows it):

- Whitespace between an attribute's label and its colon is not stripped.
  The pattern `(:.*$)|\s*$` only removes whitespace at the end of the line,
  so `Signed off : yes` is stored as `Signed_off_`
  (`LineFormats.SpaceBeforeColonKept`).
- Lines before the first commit line do produce a record when one of them
  is an attribute line labelled `Hash`. The initial object then has a
  `Hash` property and the retention test keeps it
  (`LogProperties.PreambleKeptOnlyWithHash`, `LogProperties.CommitCount`).
- `empty()` treats a body of `"0"` as empty. A first body line that reads
  `0` is replaced by a text line that directly follows it, instead of being
  followed by it (`CommitMessage.ZeroFirstBodyLineIsLost`).
- The loop `while ($line = fgets(...))` stops at a final line that reads
  `0` without a line feed (`LineFormats.FedReadLines`).
- git separates commits with a blank line, and that blank line adds a
  line break to the previous commit's body. Every body but the last one
  ends with a line break. The model keeps this, as the source does.

## Model

| member | source | states |
|---|---|---|
| Classifier.MatchLine | src/GitLogParser.php:106-119 | The category of a line; `Classifier.MatchLineFollowsPatterns` proves it is the one the four patterns pick in order |
| Classifier.MatchLineFollowsPatterns | src/GitLogParser.php:106-119 | On every line `fgets` can return, the category is that of the first of the four PCRE patterns (commit, attribute, blank, text) that accepts the line; the text pattern always accepts, so `matchLine` always returns a category |
| Classifier.CommitStartPatternIff | src/GitLogParser.php:107 | `/^commit .*$/` accepts a line exactly when it starts with `commit ` |
| Classifier.AttributePatternIff | src/GitLogParser.php:110 | `/^\S+.*:.*$/` accepts a line exactly when its first character is not whitespace and a colon follows it somewhere |
| Classifier.BlankPatternIff | src/GitLogParser.php:113 | `/^\s*$/` accepts a line exactly when every character is whitespace |
| Classifier.TextPatternAlways | src/GitLogParser.php:116-118 | `/^.*\w*.*$/` accepts every line, so the `default:` branch of the dispatch is never taken |
| Classifier.CommitStartWins | src/GitLogParser.php:106-111 | A commit line whose hash part holds a colon matches the attribute pattern too, and is still classified as a commit start |
| Classifier.IndentedLineIsMessage | src/GitLogParser.php:110-117 | A line that starts with whitespace, as git's indented message lines do, is never an attribute or a commit line: it is blank exactly when it is all whitespace, text otherwise |
| Text.TrimEndUnique | src/GitLogParser.php:179 | Trailing whitespace after a value that does not end in whitespace is exactly what `\s*$` removes |
| Text.TrimEnd | src/GitLogParser.php:179 | `\s*$` replaced by nothing leaves a prefix of the line that does not end in whitespace, and only whitespace was removed |
| Text.TrimStartUnique | src/GitLogParser.php:140 | Leading whitespace before a text that does not start with whitespace is exactly what `^\s+` removes |
| Text.TrimStart | src/GitLogParser.php:140 | `^\s+` replaced by nothing leaves a suffix that does not start with whitespace, and only whitespace was removed |
| Text.TrimUnique | src/GitLogParser.php:140 | Trimming gives back any text that neither starts nor ends with whitespace, whatever whitespace surrounds it |
| Text.TrimEmptyIffBlank | src/GitLogParser.php:140 | Trimming gives the empty string exactly on an all-whitespace line |
| Text.Trim | src/GitLogParser.php:140 | Leading `\s+` and trailing `\s*` replaced by nothing; `Text.TrimUnique` and `Text.TrimEmptyIffBlank` prove it removes exactly the surrounding whitespace |
| Text.Sanitize | src/GitLogParser.php:178 | `\W+` replaced by `_`; `Text.SanitizeShape`, `Text.SanitizeWord`, `Text.SanitizeRun` and `Text.SanitizeSplit` prove what it yields |
| Text.SanitizeShape | src/GitLogParser.php:178 | A sanitised name holds word characters only, is no longer than the label, and is empty only for an empty label |
| Text.SanitizeWord | src/GitLogParser.php:177-178 | A label made of word characters (leading digits included) is kept as it is |
| Text.SanitizeRun | src/GitLogParser.php:178 | A run of non-word characters of any length becomes a single underscore |
| Text.SanitizeSplit | src/GitLogParser.php:178 | Sanitising works piece by piece across a boundary next to a word character |
| LineFormats.SanitizeJoinsWords | src/GitLogParser.php:178 | Two words separated by a run of non-word characters come out joined by one underscore (`Merge-Request` gives `Merge_Request`) |
| GitLog.LineEnd | src/GitLogParser.php:78 | One `fgets` call reads up to and including the first line feed, or to the end of the stream |
| GitLog.ReadLines | src/GitLogParser.php:78 | The strings successive `fgets` calls return put the stream's text back together; each holds a line feed at most at its end, and every one but the last ends with one |
| GitLog.Fed | src/GitLogParser.php:78 | The loop body receives a prefix of the lines, all of them true for PHP, stopping at the first false one |
| LineFormats.FedUpToFalse | src/GitLogParser.php:78 | When only the last line can be false, the loop receives every line but a false last one |
| LineFormats.FedReadLines | src/GitLogParser.php:78 | Every line read from a stream reaches the loop, except a last line that reads `0` |
| GitLog.FirstColon | src/GitLogParser.php:178-179 | The position of the first colon: none before it, a colon at it (or the end of the line) |
| GitLog.HashOf | src/GitLogParser.php:192 | The hash a commit line gives; `LineFormats.CommitLineRoundTrip` proves it is the text after `commit ` without trailing whitespace |
| GitLog.AttributeName | src/GitLogParser.php:178 | The property name an attribute line gives; `LineFormats.AttributeLineParts` and `LineFormats.AttributeLineRoundTrip` prove it is the sanitised label |
| GitLog.AttributeValue | src/GitLogParser.php:179 | The value an attribute line gives; `LineFormats.AttributeLineRoundTrip` proves it is exactly the trimmed text after the first colon |
| GitLog.TextOf | src/GitLogParser.php:140 | The text of a text line; `LineFormats.MessageLineRoundTrip` proves it gives back an indented message line's text |
| GitLog.StartRecord | src/GitLogParser.php:191-192 | The new commit's only property is `Hash`, holding the hash taken from the line |
| GitLog.WithAttribute | src/GitLogParser.php:174-180 | The property named by the sanitised label holds the value afterwards; every other property is unchanged; a new name is added after the existing ones, and an existing one keeps its place |
| GitLog.WithText | src/GitLogParser.php:137-155 | The first text line becomes the title and the title never changes after that; later text becomes the body when there is no body or a PHP-empty one, and otherwise goes to the end of the body after a line break; nothing else changes; a new `Title` or `Body` is added after the existing properties |
| GitLog.WithBlank | src/GitLogParser.php:161-167 | A line break is added to a body that exists, and nothing happens when there is no body; the order of the properties does not change |
| GitLog.Apply | src/GitLogParser.php:81-95 | The handler a line other than a commit line goes to; `LogProperties.OnlyStartReplaces` and `LogProperties.AbsorbKeepsProperties` prove it keeps the saved list and removes no property |
| GitLog.Save | src/GitLogParser.php:125-130 | A commit is appended when it has a `Hash`; `GitLog.GitLogParser.SavePreviousCommit` and `LogProperties.SaveFront` state it |
| GitLog.Step | src/GitLogParser.php:81-95 | One turn of the loop on values; `GitLog.GitLogParser.DispatchLine` is proved to move the parser's state exactly so |
| GitLog.RunFrom | src/GitLogParser.php:78-96 | The loop on values; `LogProperties.RunFromAppend` and `GitLog.RunFromShift` prove how runs compose |
| GitLog.ParseLog | src/GitLogParser.php:74-99 | The records parsing a list of lines yields; `LogProperties.ParseLogStructure` proves their shape |
| GitLog.ParseStream | src/GitLogParser.php:43-99 | The records parsing a stream yields; `GitLog.GitLogParser.constructor` and `GitLog.GitLogParser.ToArray` are proved to give them |
| GitLog.SaveValues | src/GitLogParser.php:125-130 | Saving a commit object appends its table to the tables of the saved objects exactly when it has a hash |
| CommitRecord.Record.Set | src/GitLogParser.php:179 | Assigning a property sets it, leaves the others as they were, keeps an existing name in its place and puts a new one last |
| CommitRecord.SetTwice | src/GitLogParser.php:144-148 | Creating the body as `''` and then assigning it is the same as assigning it once |
| CommitRecord.Commit.constructor | src/GitLogParser.php:76 | `new \stdClass` has no property |
| CommitRecord.Commit.Set | src/GitLogParser.php:179 | Assigning a property of the object changes its table as `Record.Set` does |
| CommitRecord.ValuesAt | src/GitLogParser.php:128 | The list of tables has one entry per commit object, in list order |
| GitLog.GitLogParser.constructor | src/GitLogParser.php:43-50 | A parser built on a stream records that stream and holds commit objects whose tables are what parsing all the lines read from it gives |
| GitLog.GitLogParser.ToArray | src/GitLogParser.php:65-68 | `toArray` returns the commit objects themselves, and their tables are the records parsing the parser's stream yields |
| GitLog.GitLogParser.ParseCommitLog | src/GitLogParser.php:74-99 | After the loop and the final save, the commit list is the old one followed by what the fold of the handlers over the lines received gives |
| GitLog.GitLogParser.DispatchLine | src/GitLogParser.php:81-95 | One turn of the `switch`: the saved tables and the current table move as one step of the fold; the same object stays current unless the line is a commit line, and then the new one is fresh |
| GitLog.GitLogParser.SavePreviousCommit | src/GitLogParser.php:125-130 | The commit is appended exactly when it has a `Hash` |
| GitLog.GitLogParser.HandleCommitStartLine | src/GitLogParser.php:188-194 | The old commit is saved when it has a hash, and a new object holding only the hash becomes current |
| GitLog.GitLogParser.HandleAttributeLine | src/GitLogParser.php:174-180 | The object changes in place as `WithAttribute` says |
| GitLog.GitLogParser.HandleTextLine | src/GitLogParser.php:137-155 | The object changes in place as `WithText` says |
| GitLog.GitLogParser.HandleBlankLine | src/GitLogParser.php:161-167 | The object changes in place as `WithBlank` says |
| GitLog.FinishRun | src/GitLogParser.php:96-98 | The final save after the loop appends, behind the commits already held, exactly the records parsing the lines yields |
| LogProperties.RunFromAppend | src/GitLogParser.php:78-96 | Running the loop over two pieces of input in turn is running it over both at once |
| GitLog.RunFromShift | src/GitLogParser.php:78-96 | Commits saved before the loop stay in front of the ones the loop saves |
| LogProperties.OnlyStartReplaces | src/GitLogParser.php:81-93 | Only a commit line saves a commit and replaces the current one; any other line keeps the saved list and removes no property |
| LogProperties.RunWithoutStarts | src/GitLogParser.php:81-93 | Lines that are not commit lines leave the saved list alone and only change the current commit |
| LogProperties.AbsorbKeepsProperties | src/GitLogParser.php:137-180 | No handler ever removes a property |
| LogProperties.AbsorbHas | src/GitLogParser.php:137-180 | A property other than `Body` exists after some lines exactly when it existed before, an attribute line among them has its name, or (for `Title`) one of them is a text line |
| LogProperties.AbsorbKeepsValue | src/GitLogParser.php:137-180 | A property other than `Body` keeps its value through lines that contain no attribute line with its name |
| LogProperties.AttributeSticks | src/GitLogParser.php:174-180 | The value of an attribute line other than `Body` is what its property holds at the end, when no later line sets the same name |
| LogProperties.HeaderNames | src/GitLogParser.php:161-180 | Over attribute and blank lines, a well-formed object keeps its properties in order and gains each new attribute name at the end, once, at its first line |
| LogProperties.ParseLogValid | src/GitLogParser.php:137-194 | Every object the parser returns has a well-formed property table: distinct names, exactly the properties it holds |
| LogProperties.PreambleUnique | src/GitLogParser.php:76-96 | Any prefix without a commit line that ends at a commit line, or at the end of the log, is the preamble |
| LogProperties.Preamble | src/GitLogParser.php:76-96 | The lines before the first commit line are the longest prefix holding no commit line |
| LogProperties.Blocks | src/GitLogParser.php:78-96 | The log after its preamble, cut into commit blocks, one per commit line |
| LogProperties.BlocksSplit | src/GitLogParser.php:78-96 | The preamble and the blocks put the log back together, and the i-th block opens with the i-th commit line |
| LogProperties.BlockRecordHasHash | src/GitLogParser.php:188-194 | A commit block always yields a record with a hash |
| LogProperties.RunOverBlocks | src/GitLogParser.php:78-96 | At the end of the loop over a preamble and commit blocks, the saved commits are the preamble's record if hashed and every block's record but the last, and the last block's record is current |
| LogProperties.ParseLogOverBlocks | src/GitLogParser.php:74-99 | The parse of a preamble followed by commit blocks is the preamble's record if it has a hash, then each block's record in order |
| LogProperties.ParseLogStructure | src/GitLogParser.php:74-99 | The same for any log, cut into its own preamble and blocks |
| LogProperties.KeptRecordsHaveHash | src/GitLogParser.php:125-130 | Every record kept has a `Hash` |
| LogProperties.CommitCount | src/GitLogParser.php:74-99 | There is one record per commit line, plus one when an attribute line before the first commit line is labelled `Hash` |
| LogProperties.SaveFront | src/GitLogParser.php:125-130 | Saving into an empty list keeps a record in front exactly when it has a hash, and keeps every record of the list hashed |
| LogProperties.PreambleHash | src/GitLogParser.php:76-96 | The record of the lines before the first commit line has a hash exactly when one of its attribute lines is labelled `Hash` |
| LogProperties.PreambleKeptOnlyWithHash | src/GitLogParser.php:125-130 | The lines before the first commit line yield a record of their own only when they set a `Hash`; otherwise they are dropped |
| LogProperties.CommitHashes | src/GitLogParser.php:78-98 | With no attribute line labelled `Hash`, there is one record per commit line, and the i-th record carries the hash of the i-th commit line |
| LogProperties.LastCommitKept | src/GitLogParser.php:97-98 | The final save keeps the last commit: the last record is that of the last commit block |
| CommitMessage.BodyJoinsPieces | src/GitLogParser.php:143-166 | After the title, the body is the message's pieces joined by line breaks: the text of each text line, and an empty piece for each blank line after the first body text. It exists exactly when there is a piece, and the title and all other properties stay unchanged |
| CommitMessage.BodyStep | src/GitLogParser.php:143-166 | Each message line keeps the body equal to the pieces so far joined by line breaks, and keeps the title and all other properties |
| CommitMessage.TitleAndBody | src/GitLogParser.php:137-166 | On a commit with neither, the title line and the message lines after it set the title to the title line's text and the body to the joined pieces, and change no other property |
| CommitMessage.TitleIsFirstText | src/GitLogParser.php:143-153 | The title is the trimmed text of the first text line, whatever attribute, blank and text lines surround it, when no attribute line is labelled `Title` |
| CommitMessage.ZeroFirstBodyLineIsLost | src/GitLogParser.php:147-148 | A first body line reading `0` is replaced by a text line that directly follows it, so the body is not the two pieces joined |
| CommitMessage.NoBodyWithoutText | src/GitLogParser.php:143-146 | Without a text line or an attribute labelled `Body`, no body appears |
| CommitMessage.HeaderRecord | src/GitLogParser.php:174-194 | The attribute and blank lines after a commit line keep the hash, add every attribute, give each attribute the value of the last line that sets it, and create no title or body |
| CommitMessage.CommitBlockRecord | src/GitLogParser.php:9-18 | A commit as git prints it (commit line, attributes, title, message) yields its hash, every attribute with the value of the last line that sets it, its title and its body joined from the message lines; its properties are in the order hash, attributes by first line, title, body |
| CommitMessage.BlockNames | src/GitLogParser.php:137-194 | The object made from a commit block has its properties in the order hash, each attribute name once at its first line, title, then the body when the message has body text |
| CommitMessage.MessageNames | src/GitLogParser.php:137-166 | Message lines after the title keep the order of the properties and add `Body` at the end exactly when they create the body |
| LineFormats.CommitLineRoundTrip | src/GitLogParser.php:192 | `commit <hash>` followed by any whitespace is a commit line and gives back the hash |
| LineFormats.HashExample | src/GitLogParser.php:192 | `commit abc123` with its line feed gives the hash `abc123` |
| LineFormats.FirstColonAfterLabel | src/GitLogParser.php:178 | The first colon after a colon-free label is the one that ends it |
| LineFormats.AttributeLineKind | src/GitLogParser.php:110 | A line made of a colon-free label that starts with a non-space, then a colon, is an attribute line |
| LineFormats.AttributeLineParts | src/GitLogParser.php:178-179 | Its name is the sanitised label and its value the trimmed text after the colon |
| LineFormats.AttributeLineRoundTrip | src/GitLogParser.php:174-180 | `<label>: <value>` with any surrounding whitespace gives the sanitised label and exactly the value |
| LineFormats.SpaceBeforeColonKept | src/GitLogParser.php:178 | Whitespace between the label and the colon ends up as a trailing underscore of the name |
| LineFormats.MessageLineRoundTrip | src/GitLogParser.php:140 | An indented message line is a text line and gives back its text without indentation or line end |

## Left out

- The check that the constructor's argument is a file or stream resource,
  and the `InvalidArgumentException` it throws: the model takes the
  stream's content as a string, so there is no other kind of argument.
- `toJson` and `main.php`: JSON encoding and reading standard input are
  serialisation and I/O glue.
- Unicode: `\s` and `\w` are the ASCII classes. The model does not cover the
  extra characters the `/u` modifier admits, or `preg_match` failing on
  invalid UTF-8, which would send a line to the empty `default:` branch.
- A line that starts with a colon and has another colon later has an empty
  label. The model stores it under the empty name; PHP versions differ on
  whether such a property can be created.
- `PHP_EOL` is `"\n"`, as on the Unix hosts git runs on.
- Read errors of `fgets` and line-length limits: `fgets` is modelled as
  returning whole lines from the given text.
- LogProperties.CommitHashes: it requires that no attribute line is labelled
  `Hash`, since such a line overwrites the hash.
  `LogProperties.ParseLogStructure` and `LogProperties.CommitCount` hold
  without that condition.
- CommitMessage.BodyJoinsPieces: it requires that the first body piece is not
  `"0"`. `CommitMessage.ZeroFirstBodyLineIsLost` states what happens then.
- CommitMessage.BodyStep: it requires that the first body piece is neither
  empty nor `"0"` (a text line never gives an empty piece), since PHP's
  `empty()` drops such a body; `CommitMessage.ZeroFirstBodyLineIsLost`
  states what happens then.
- CommitMessage.TitleAndBody: it requires that the first body piece is not
  `"0"`, for the same reason as `CommitMessage.BodyStep`.
- CommitMessage.TitleIsFirstText: it requires that no attribute line is
  labelled `Title`, since such a line overwrites the title.
- CommitMessage.HeaderRecord: it requires that no attribute line is labelled
  `Hash`, `Title` or `Body`, because those would overwrite the hash or create
  the title or body.
- CommitMessage.CommitBlockRecord: it requires that no attribute line is labelled
  `Hash`, `Title` or `Body`, because those would overwrite the parser's own
  properties, and that the first body piece is not `"0"` (see
  `CommitMessage.ZeroFirstBodyLineIsLost`).
- CommitMessage.BlockNames: it has the same requirements as
  `CommitMessage.CommitBlockRecord`, for the same reasons.
- CommitMessage.MessageNames: it starts from an object with a title and no
  body, as the lines after a commit's title line find it.
