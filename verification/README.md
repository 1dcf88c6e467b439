# A verified model of gsr-helper's core algorithms

gsr-helper is a terminal interface for hosts that run GitHub Actions runners. Around the screens it
has a number of algorithms whose comments promise strong things: that a diff is shortest, that a
secret never reaches a log, that a half-finished update leaves every file whole, that a followed log
shows every line once, that editing a configuration file touches nothing else. This project models
those algorithms in Dafny and proves the promises, or the exact condition under which they hold.

`dafny verify dfyconfig.toml` checks everything. Each module stands for one source file:

| module | source file | what is modelled |
|---|---|---|
| Diff | internal/config/diff.go | the table of common lengths, the walk, rendering |
| Mask | internal/exec/mask/mask.go | masking of arguments by key and by value |
| Tree, Stage | internal/setup/tarball/stage.go | directory trees, and promoting a staged tree over an existing one |
| Journal | internal/logs/journal.go | following a unit's journal through its last 200 lines |
| Tail | internal/logs/tail.go | following a growing file |
| EnvFile | internal/config/envfile/envfile.go | environment files, edited without touching other bytes |
| DropIn | internal/config/dropin/dropin.go | systemd drop-in files |
| Utf8, Limit | internal/exec/command/limit | cutting UTF-8 text, and a buffer that keeps the end of a stream |
| Attach | internal/runner/attach.go | matching units and processes to runners |
| Table, Layout | internal/ui/organism/table | the list with sections, cursor, selection, filter and heights |
| Discovery | internal/ui/discovery | the discovery cycle |
| WorkScan | internal/ui/workscan/workscan.go | the disk usage scan |
| Columns | internal/ui/molecule/columns.go | dropping columns until they fit |
| Names | internal/setup/name/name.go | numbering new runners |

`Ints`, `Sequences` and `Strings` hold what several modules share: minimum and maximum, subsequences,
and the functions of Go's `strings` package (Index, Cut, Split, Join, TrimSuffix, Trim), all defined here.

Code that works step by step is a method with the loops of the source, proved equal to a function;
the properties are lemmas about that function. Objects that the source updates in place are classes.
Strings are sequences of characters, one per byte; UTF-8 is modelled on bytes.

What an operation computes is stated twice: by the function it is proved equal to, and by lemmas that
say what that function does in terms of its inputs alone, with the words, limits and characters of the
source written out.

Where a promise does not hold for every input, the project says when it does:

- A secret never shows in a masked text exactly when it neither starts nor ends with `*` and does not
  hold `***` (`Mask.NeverLeaksIff`). Full masking is idempotent with a secret exactly when, beyond
  that, a secret word such as `bearer` stands in front of the secret's first `=` or `:`, if it has one
  (`Mask.IdempotentIff`), and every list drawn from a pool of secrets is masked idempotently exactly when
  that holds of each of them (`Mask.PoolIdempotentIff`). The comment on `Args` names no such condition.
- Over 1000 lines a diff of two equal texts shows every line as removed and added
  (`Diff.NoChangesIffEqual`), and a diff is shortest only when the texts have no line in common
  (`Diff.MinimalIff`).
- Editing an environment file leaves the lines of other keys alone byte for byte when the file ends in a
  newline, over any session (`EnvFile.SessionKeepsLines`). When it does not, a session can turn the CRLF
  of a line that no edit named into LF, or the other way round: exactly when it appends a line behind one
  that an earlier removal made the last, and that ended differently from what the file uses by then
  (`EnvFile.IntactIff`, `EnvFile.CrlfLost`). The source promises that no unchanged line changes by a byte.
- What a session wrote reads back to the values in memory unless a line that decides a value ends in a
  carriage return followed by a mere LF (`EnvFile.SessionSurvivesIff`); so a file whose last line ends in
  a carriage return loses it when a key is appended (`EnvFile.SetSurvivesIff`).
- A followed file that is rewritten in place is read from its start only when it is found shorter than
  the offset; otherwise its first lines are never sent (`Tail.RewrittenIff`).
- New runner names collide when the numbering overflows 64 bits, or when the prefix is empty and an
  index is in use (`Names.FreshIffSafe`). The plan refuses an empty prefix and a start that wrapped, so
  that its duplicate check strikes exactly when the indices run over half way and nothing else is wrong
  (`Names.DuplicateIff`).
- The column choice can come out empty, or stop the program on an index out of range, when column
  identifiers repeat (`Columns.GoodIffUnique`); the comment promises a result for all columns.
- A poll of a followed journal loses lines exactly when more than 200 arrived since the one before, or
  the log repeats itself a few lines on over all that the windows show of the lines seen before
  (`Journal.EmitsAllIff`, and over whole runs `Journal.ExactlyOnce`).

## Model

| member | source | states |
|---|---|---|
| Diff.Lcs | internal/config/diff.go:104-120 | the table filled from the back holds at every (i, j) the greatest length of a common subsequence of the two suffixes |
| Diff.LcsLengthIsLongest | internal/config/diff.go:100-120 | the recurrence is the maximum over all common subsequences: none is longer, and one of that length exists |
| Diff.DiffLines | internal/config/diff.go:56-86 | the loops emit exactly the script whose properties the next rows state, with the fallback above 1000 lines on either side |
| Diff.ScriptReconstructs | internal/config/diff.go:56-98 | inputs of every size: dropping added lines and marks gives the old lines, dropping removed lines and marks the new ones; within the limit exactly table[0][0] lines stay unchanged |
| Diff.ScriptIsMinimal | internal/config/diff.go:56-86 | within the limit no marked script between the same two inputs has fewer added and removed lines |
| Diff.MinimalIff | internal/config/diff.go:56-98 | inputs of every size: the script has the fewest changes of all scripts if and only if both sides are within the limit or no line of the one is a line of the other |
| Diff.ScriptBalance | internal/config/diff.go:56-98 | what any script leaves unchanged is common to both sides, and twice its length plus the changes is the length of both sides |
| Diff.NoChangesIffEqual | internal/config/diff.go:56-59 | a script shows no change exactly when the inputs are equal and within the limit |
| Diff.RemovedBeforeAdded | internal/config/diff.go:65-98 | inputs of every size: an added line never stands right in front of a removed one, so that every changed passage shows the old lines first |
| Diff.ReplaceAll | internal/config/diff.go:89-98 | the fallback removes every old line, then adds every new one |
| Diff.SplitLines | internal/config/diff.go:43-53 | the lines of a text, carriage returns trimmed, the final newline not counted |
| Diff.LinesOfEnded | internal/config/diff.go:43-53 | a text whose lines each end in LF or CRLF has exactly these lines, for any lines and any mixture of line ends |
| Diff.LinesOfUnended | internal/config/diff.go:43-53 | the same without a newline behind the last line, as long as anything stands there |
| Diff.LinesOfRendered | internal/config/diff.go:31-53 | lines without carriage returns read back from their rendering |
| Diff.NewlineAtEnd | internal/config/diff.go:29-53 | a newline at the end of a text does not change its lines |
| Diff.NewlineMakesNoDiff | internal/config/diff.go:29-40 | on either side, texts that differ in that newline only make the same diff; between the two of them the diff shows no change, up to 1000 lines |
| Diff.DiffTexts | internal/config/diff.go:31-40 | the rendered diff of two texts |
| Diff.RenderAppend | internal/config/diff.go:35-38 | rendering adds each line with a newline behind it |
| Diff.DiffReadsBack | internal/config/edit/change.go:214-219 | for any two texts the rendered diff splits back into exactly the marked lines, and these give both texts' lines |
| Mask.ByKey | internal/exec/mask/mask.go:141-174 | the two passes over the array, the second skipping what the first hid, give each element its own masking and the one its predecessor calls for |
| Mask.ByValue | internal/exec/mask/mask.go:239-252 | in place, every secret of 8 characters or more is replaced in every element |
| Mask.Args | internal/exec/mask/mask.go:56-60 | masking by key, then by value |
| Mask.String | internal/exec/mask/mask.go:65-73 | each long enough secret is replaced in turn |
| Mask.BehindOption | internal/exec/mask/mask.go:150-173 | the element behind an option name: `***` when the name is secret, its own masking read as a header when it is a header option, and its own masking behind every other option and behind anything else |
| Mask.SecretOptionHides | internal/exec/mask/mask.go:56-170 | so behind every secret option the masked list holds `***`, whatever the secrets known |
| Mask.SecretKeyIff | internal/exec/mask/mask.go:33-98 | a name is secret if and only if it reads token, pat, jitconfig, password or secret behind any hyphens, or authorization, bearer, apikey, api-key or api_key stands in it, in any letter case |
| Mask.HeaderKeyIff | internal/exec/mask/mask.go:42-103 | a name announces a header line if and only if it reads h or header behind any hyphens, in any letter case |
| Mask.OptionIff | internal/exec/mask/mask.go:105-130 | an element is an option name if and only if it starts with a hyphen, holds something else, and holds only letters, digits, dots, underscores and hyphens; it counts as the same name with its hyphens |
| Mask.AssignmentIs | internal/exec/mask/mask.go:193-222 | `name=value` shows the name, and the value unless the name is secret; behind a header name the value is masked as a header line |
| Mask.HeaderIs | internal/exec/mask/mask.go:224-235 | `Name: value` shows `Name: ***` when the name is secret, else everything |
| Mask.SecretHeaderShown | internal/exec/mask/mask.go:201-205 | a secret header name in front of any equals sign hides all that follows |
| Mask.PlainElementIs | internal/exec/mask/mask.go:193-200 | an element with neither an equals sign nor a secret header name is shown as it is |
| Mask.ReplaceAtFirst | internal/exec/mask/mask.go:239-252 | the secret is replaced where it stands first, and what follows is treated in the same way |
| Mask.ShortIsIdle | internal/exec/mask/mask.go:65-70 | a secret of fewer than 8 characters masks nothing |
| Mask.ByKeyIdempotent | internal/exec/mask/mask.go:141-174 | masking by key twice is masking once, for every argument list, chained options and header options included |
| Mask.ElementStable | internal/exec/mask/mask.go:193-207 | masking one element twice is masking it once, over every way it may be cut at `=` and `:` |
| Mask.HeaderOfElementStable | internal/exec/mask/mask.go:213-235 | an element masked by itself and then as a header is left alone by a second masking |
| Mask.SecretValueInvisible | internal/exec/mask/mask.go:160-174 | the value after a secret option does not influence the masked list, other than by reading as an option name itself |
| Mask.ArgsIdempotent | internal/exec/mask/mask.go:54-60 | full masking twice is masking once, for every argument list and any number of harmless secrets, those with a star or a separator inside included |
| Mask.IdempotentIff | internal/exec/mask/mask.go:54-60 | for a secret of 8 characters or more: masking is idempotent over all argument lists if and only if no mark fits into the secret and, when it holds `=` or `:`, a secret word stands in front of the first of them |
| Mask.PoolIdempotentIff | internal/exec/mask/mask.go:54-60 | for any pool of secrets: masking is idempotent for every list drawn from it, in any number and order, if and only if each of them of 8 characters or more meets the condition of the row above |
| Mask.CutUpIsIdle | internal/exec/mask/mask.go:65-73 | a secret in which an earlier one stands that no mark fits into masks nothing any more, whatever else it is |
| Mask.CutUpDropped | internal/exec/mask/mask.go:54-60 | a list with such a secret is masked idempotently if and only if it is without it |
| Mask.SeparatorBreaks | internal/exec/mask/mask.go:193-252 | every secret with a separator and no secret word in front of it: an element for which a second masking hides more |
| Mask.LeakBreaks | internal/exec/mask/mask.go:239-252 | every other secret into which a mark fits: an element that a second masking changes |
| Mask.IdempotentCharacters | internal/exec/mask/mask.go:54-60 | over all secrets that avoid a set of characters, masking is idempotent if and only if the set holds `*`, `=` and `:` |
| Mask.CutReplaced | internal/exec/mask/mask.go:193-252 | cutting at a separator and replacing a secret commute, unless the first separator goes with a copy of the secret |
| Mask.NothingRecreated | internal/exec/mask/mask.go:239-252 | replacing one secret creates no text that was not there and into which no mark fits, and leaves no copy of such a secret |
| Mask.NoSecretSurvives | internal/exec/mask/mask.go:65-73 | among any secrets, in any order, overlapping or nested: no result contains one of 8 characters or more into which no mark fits |
| Mask.NoSecretInArgs | internal/exec/mask/mask.go:56-60 | the same for every element of a masked argument list |
| Mask.MarkBreaks | internal/exec/mask/mask.go:239-252 | every other secret: a text that still contains it once it is replaced |
| Mask.NeverLeaksIff | internal/exec/mask/mask.go:65-73 | a secret of 8 characters or more shows in no result, whatever the text and the other secrets, if and only if it does not start or end with `*` and does not hold `***` |
| Stage.MergeSees | internal/setup/tarball/stage.go:17-23 | the overlay path by path: what is staged wins, below a staged file nothing old stays, every other path survives |
| Stage.OverlaySees | internal/setup/tarball/stage.go:104-128 | the same for the final tree with kept names: at and below a kept name the destination is as it was |
| Stage.Area.Rename | internal/setup/tarball/stage.go:134-146 | rename moves the subtree at once and is recorded as one step, and is refused exactly when the kinds do not allow it |
| Stage.MayReplaceIff | internal/setup/tarball/stage.go:134-146 | a rename is allowed if and only if nothing stands there, or both sides are a directory or neither is, and nothing stands below |
| Stage.Area.Remove | internal/setup/tarball/stage.go:134-146 | one file, link or empty directory goes, as one recorded step |
| Stage.RemovalIs | internal/setup/tarball/stage.go:134-146 | a removal makes one path absent, with what is below, and no other changes |
| Stage.RenameIs | internal/setup/tarball/stage.go:134-146 | a rename puts a whole tree at one path, and no path elsewhere changes |
| Stage.Area.RemoveAll | internal/setup/tarball/stage.go:134-146 | recursive removal takes the subtree away by single recorded steps with none left out, and every state in between is the tree with a part of that subtree missing |
| Stage.Area.Move | internal/setup/tarball/stage.go:134-146 | one entry ends up in place and leaves the staging area, by single recorded steps with none left out; every state in between is old, new, or the old one partly removed or absent when the kind changes |
| Stage.Area.PromoteEntry | internal/setup/tarball/stage.go:109-127 | one turn of the loop merges or moves exactly one entry by single recorded steps, and every state in between is on the way of the whole merge |
| Stage.Area.Promote | internal/setup/tarball/stage.go:104-128 | the recursion ends with the destination equal to the overlay of the staged directory, kept names left out; the record goes on without a gap, one removal or rename after the other, and all of it is on the way |
| Stage.Area.SweepStaleStages | internal/setup/tarball/stage.go:74-92 | exactly the left-over staging areas go, and no recorded state in between touches anything else |
| Stage.Area.Extract | internal/setup/tarball/stage.go:33-53 | unpacking either fails and leaves the swept destination, or ends with the overlay; the record runs without a gap from the state before over the swept one to the last; the staging area is empty afterwards either way |
| Stage.MidwaySees | internal/setup/tarball/stage.go:17-23 | a directory on the way of a merge shows each path wholly old or wholly new, or absent where its kind or that of a directory above changes |
| Stage.EveryPathOldOrNew | internal/setup/tarball/stage.go:17-23 | the same for every state in the gapless record of a promotion, from its first state to the overlay |
| Stage.StoppedAnywhere | internal/setup/tarball/stage.go:33-53 | the same from the first sweep to the last rename, for every path outside left-over staging areas |
| Stage.KeptUntouched | internal/setup/tarball/safepath.go:70-74 | in every such state the subtree at or below a kept name is the one before |
| Stage.MidwayMerges | internal/setup/tarball/stage.go:17-23 | merging the same over any state on the way gives the tree the merge would have given |
| Stage.Resumed | internal/setup/tarball/stage.go:33-92 | an unpacking stopped in any recorded state, its staging area left behind, and started again with the same archive ends with the tree it would have ended with |
| Stage.ResumedAgain | internal/setup/tarball/stage.go:33-92 | the same however often it is stopped and started again |
| Stage.StagedFilesAllMoved | internal/setup/tarball/stage.go:104-128 | what stays in the staging area after a promotion is directories only, apart from kept names |
| Journal.EqualLines | internal/logs/journal.go:184-192 | two windows of the same length are compared line by line |
| Journal.ComputeOverlap | internal/logs/journal.go:165-182 | counting down finds the longest end of the previous window that starts the current one |
| Journal.Follow | internal/logs/journal.go:86-133 | the loop sends what the answers add and ends in failure at the third failure in a row |
| Journal.EmitsOnlyNew | internal/logs/journal.go:165-182 | for any log, repeated lines included, a poll sends a suffix of the truly new lines |
| Journal.EmitsAllWhileShort | internal/logs/journal.go:165-182 | while the log fits into one window a poll sends every new line, repeated or not |
| Journal.EmitsAllIff | internal/logs/journal.go:120-182 | for any log, repeated lines included: a poll sends every new line if and only if at most 200 are new and no repetition in the log makes a longer overlap than the true one |
| Journal.DistinctLossless | internal/logs/journal.go:120-182 | without repeated lines that is the case exactly when at most 200 lines are new |
| Journal.EmitsNew | internal/logs/journal.go:120-131 | without repeated lines a poll sends as many lines as are new, up to 200 |
| Journal.ExactlyOnce | internal/logs/journal.go:86-133 | whole runs over any log, with empty answers and fewer than three failures in a row anywhere: the log from the first window on is sent with each line once, in order, if and only if no poll loses a line in the sense above |
| Journal.DistinctGaps | internal/logs/journal.go:86-133 | over a log of distinct lines that holds exactly when no gap between two non-empty answers exceeds 200 lines |
| Journal.EndsIffImpatient | internal/logs/journal.go:96-113 | following ends by itself exactly when three requests in a row fail |
| Journal.RepeatedLinesAreLost | internal/logs/journal.go:165-173 | an instance: a full window of one repeated line hides every further copy |
| Tail.Reader.ReadSlice | internal/logs/tail.go:212-233 | the buffered reader gives bytes up to the newline, one full buffer, or what is left |
| Tail.Reader.ReadLine | internal/logs/tail.go:212-233 | for every buffer size: the first line's bytes are counted, and its text is the first 64 KiB without the line end |
| Tail.Emit | internal/logs/tail.go:175-210 | sends the texts of the complete lines from the offset on, reading a file that shrank from its start, and moves the offset past them |
| Tail.LinesAre | internal/logs/tail.go:182-210 | a file is cut behind every newline; what stands behind the last one is no line yet |
| Tail.TextIs | internal/logs/tail.go:212-233 | of a line its first 64 KiB are sent, without the line ends that stand at the end of them |
| Tail.SeekTail | internal/logs/tail.go:146-173 | following starts at 0 or just past a newline |
| Tail.StartOffsetIsEarliest | internal/logs/tail.go:150-173 | in a file longer than the initial part the start is the earliest line start past that part's beginning, or 0 when there is none |
| Tail.ShortFromStart | internal/logs/tail.go:155-158 | a file of at most 256 KiB is read from its start |
| Tail.OffsetAtLineStart | internal/logs/tail.go:182-210 | the offset stays at 0 or just past a newline, also when the file was truncated |
| Tail.PollInBetween | internal/logs/tail.go:182-210 | one more poll in between changes neither what is sent in all nor the offset |
| Tail.Reopen | internal/logs/tail.go:113-144 | a file created anew is read from where its end part starts, or from 0 when that is not found; when it cannot be opened the old one is read on |
| Tail.Follow | internal/logs/tail.go:59-111 | the loop over notifications, changes and replacements alike, sends what the next rows describe |
| Tail.ShortFileWhole | internal/logs/tail.go:59-158 | what is sent of a file that is that short at first begins with every complete line it holds |
| Tail.LongReplacementFromEnd | internal/logs/tail.go:121-173 | a longer one that takes its place is read from the earliest start of a line in its last 256 KiB, once that was looked for |
| Tail.ShortReplacementWhole | internal/logs/tail.go:113-158 | so does what is sent of a file that takes its place, and of one whose end part was not found |
| Tail.FollowedOnce | internal/logs/tail.go:59-210 | a whole run over any notifications, growth, truncation, rewriting in place and replacement alike: every complete line of each file from the offset at which reading it started is sent, in order, once, file after file |
| Tail.FilesGrow | internal/logs/tail.go:59-210 | cut into files in this way, whatever the notifications, each file only grows while it is read |
| Tail.RewrittenIff | internal/logs/tail.go:180-189 | of a file rewritten in place every complete line is sent whole if and only if it was found shorter than the offset, or the offset was 0, or it has no complete line |
| Tail.PollsDoNotMatter | internal/logs/tail.go:182-233 | however the growth of a file is cut into polls, what is sent is every complete line from the start offset, in order, once |
| EnvFile.File.Parse | internal/config/envfile/envfile.go:33-46 | the loop cuts the bytes into lines with their terminators and keys |
| EnvFile.ParsePrint | internal/config/envfile/envfile.go:78-87 | what was parsed prints back to every byte of the input, for every input |
| EnvFile.File.Bytes | internal/config/envfile/envfile.go:78-87 | printing concatenates texts and terminators |
| EnvFile.PrintParse | internal/config/envfile/envfile.go:34-87 | printing lines that parsing can give and parsing again gives the same lines |
| EnvFile.AssignmentIs | internal/config/envfile/envfile.go:61-101 | a line of the form key, equals sign, value, with blanks around the key and no `#` in front, has that key, that value and that indent |
| EnvFile.KeyShape | internal/config/envfile/envfile.go:61-76 | and every line that has a key is of this form |
| EnvFile.File.Get | internal/config/envfile/envfile.go:92-102 | the value in the key's first line |
| EnvFile.File.Keys | internal/config/envfile/envfile.go:104-120 | each key once, in order of first appearance |
| EnvFile.KeysAre | internal/config/envfile/envfile.go:104-120 | every key of a line is listed, once, in the order of their first lines |
| EnvFile.File.Set | internal/config/envfile/envfile.go:122-133 | the new lines, in place |
| EnvFile.File.AppendLine | internal/config/envfile/envfile.go:172-179 | a missing terminator is added with the file's own, then the line |
| EnvFile.FileEolIs | internal/config/envfile/envfile.go:181-190 | the terminator a file uses is that of its first line that has one, and LF when none has |
| EnvFile.File.Unset | internal/config/envfile/envfile.go:135-157 | every line of the key goes, the last line left keeps a missing terminator missing |
| EnvFile.GetAfterSet | internal/config/envfile/envfile.go:92-133 | the key set reads its value, every other key reads what it read |
| EnvFile.GetAfterUnset | internal/config/envfile/envfile.go:92-157 | the key unset reads nothing, every other key reads what it read |
| EnvFile.KeysAfterSet | internal/config/envfile/envfile.go:104-133 | a new key comes last, an existing one keeps its place |
| EnvFile.KeysAfterUnset | internal/config/envfile/envfile.go:104-157 | the key goes and the others keep their order |
| EnvFile.SetTouchesOneLine | internal/config/envfile/envfile.go:127-133 | the written bytes differ in the text of one line only, or by an appended line and the terminator before it |
| EnvFile.UnsetTouchesItsLines | internal/config/envfile/envfile.go:137-157 | the written bytes are those of the other lines, but for the terminator of the last one |
| EnvFile.OthersAfter | internal/config/envfile/envfile.go:127-179 | one edit changes nothing in the lines of other keys but the terminator of the last line of a file that ends without one, and when and to what |
| EnvFile.SessionKeepsTexts | internal/config/envfile/envfile.go:3-7 | over any session with any file, the lines of other keys, comments and blank lines included, keep their texts, keys and order |
| EnvFile.SessionKeepsLines | internal/config/envfile/envfile.go:3-20 | over any session with a file that is empty or ends in a newline they keep their terminators too |
| EnvFile.WrittenLinesStay | internal/config/envfile/envfile.go:3-87 | the same once the edited file is written and read again |
| EnvFile.IntactIff | internal/config/envfile/envfile.go:137-179 | for any file and session: those lines are intact, up to the terminator of either file's last line, if and only if no line was appended behind one of them that had become the last line and that ended differently from the file, or that one is last again |
| EnvFile.AlwaysIntactIff | internal/config/envfile/envfile.go:137-179 | they are intact after every edit of the session if and only if no edit appends a line in that way |
| EnvFile.CrlfLost | internal/config/envfile/envfile.go:137-179 | an instance: removing the last key and setting a new one turns the CRLF of a line that neither names into LF |
| EnvFile.ReadBack | internal/config/envfile/envfile.go:34-120 | reading the printed lines again gives the same values and keys as the lines in memory |
| EnvFile.ReadsLastWritten | internal/config/envfile/envfile.go:92-157 | after any sequence of edits each key reads its last written value |
| EnvFile.EditsSurvive | internal/config/envfile/envfile.go:34-190 | after any sequence of edits of a file that ends in a newline, or whose carriage returns all stand in CRLF, the written bytes read back to the values and keys in memory, each the last one written |
| EnvFile.SessionSurvivesIff | internal/config/envfile/envfile.go:34-190 | for any input and any session of such edits, the written bytes read back to the keys in memory, and to the values if and only if no line that decides one ends in a carriage return in front of an LF |
| EnvFile.ReadsOnlyPlain | internal/config/envfile/envfile.go:48-102 | no file reads back anything for a key that does not stand for itself, or a value with a newline |
| EnvFile.SetSurvivesIff | internal/config/envfile/envfile.go:127-190 | for any input at all, setting a key to any value on one line survives writing and reading if and only if the value does not end in a carriage return in front of an LF, and no line is appended behind a last line whose lone carriage return counts |
| DropIn.File.Parse | internal/config/dropin/dropin.go:62-84 | the loop over the lines keeps the directives of the service section |
| DropIn.ParsedText | internal/config/dropin/dropin.go:70-70 | a text is parsed as the lines between its newlines |
| DropIn.LineParsed | internal/config/dropin/dropin.go:66-82 | what one more line adds: its directive when the last section opened before it is that of services and it is neither blank nor a comment nor a section, else nothing |
| DropIn.InServiceIff | internal/config/dropin/dropin.go:75-76 | that section is found in any letter case of `[Service]`, and every other section ends it |
| DropIn.ContentIs | internal/config/dropin/dropin.go:71-71 | white space around a line does not count, a carriage return included |
| DropIn.DirectiveIs | internal/config/dropin/dropin.go:77-80 | a line with an equals sign sets what stands in front of the first to what stands behind it, both without the white space around them |
| DropIn.NoDirective | internal/config/dropin/dropin.go:77-80 | a line without one sets nothing |
| DropIn.RenderIs | internal/config/dropin/dropin.go:47-60 | a rendered file is the comment, the section, and a line for each directive |
| DropIn.RenderParseIff | internal/config/dropin/dropin.go:43-84 | rendering and parsing gives the same directives if and only if each of them is well formed |
| DropIn.ParseRenderParse | internal/config/dropin/dropin.go:43-84 | for every text, what was parsed survives rendering and parsing |
| DropIn.File.Get | internal/config/dropin/dropin.go:86-95 | the value of the key's first directive |
| DropIn.File.Set | internal/config/dropin/dropin.go:97-121 | the compaction in place gives the directives that the next rows describe |
| DropIn.File.CompactAfter | internal/config/dropin/dropin.go:110-120 | moving down what is kept, in place, leaves the other keys' directives in their order |
| DropIn.File.Unset | internal/config/dropin/dropin.go:123-136 | the directives of other keys, in their order |
| DropIn.OthersCount | internal/config/dropin/dropin.go:123-136 | exactly the directives of other keys stay, in their order and as often as they were there |
| DropIn.SetLeavesOne | internal/config/dropin/dropin.go:97-121 | exactly one directive of the key is left, at its first place or at the end, it reads back the value, and all others keep their order |
| DropIn.SetSurvives | internal/config/dropin/dropin.go:43-121 | an edited file reads back what was set once it is rendered and parsed |
| Utf8.BoundaryIffNoTail | internal/exec/command/limit/limit.go:62-70 | inside valid UTF-8 the character boundaries are exactly the bytes that continue nothing |
| Utf8.RuneEndsAtBoundary | internal/exec/command/limit/limit.go:50-58 | decoding the last character of a prefix succeeds exactly when the prefix ends at a boundary |
| Utf8.IsRuneIff | internal/exec/command/limit/limit.go:50-70 | the byte strings taken for one character are exactly the encodings of character numbers, by the table of RFC 3629 and without surrogates |
| Limit.DropPartialRuneAtEnd | internal/exec/command/limit/limit.go:50-58 | the loop drops bytes from the end until a character ends there |
| Limit.DropPartialRuneAtStart | internal/exec/command/limit/limit.go:62-70 | the loop drops bytes from the start until a character starts there |
| Limit.Tail | internal/exec/command/limit/limit.go:28-35 | text within the limit is unchanged, longer text is cut and marked |
| Limit.Head | internal/exec/command/limit/limit.go:39-46 | the same at the start |
| Limit.ShortUncut | internal/exec/command/limit/limit.go:30-43 | text of at most n bytes is left alone |
| Limit.TailCutsAtRune | internal/exec/command/limit/limit.go:28-58 | any longer bytes, valid or not: the longest beginning of at most n bytes that is empty or ends in a character is kept |
| Limit.HeadCutsAtRune | internal/exec/command/limit/limit.go:37-70 | the same at the front |
| Limit.MarksAre | internal/exec/command/limit/limit.go:24-26 | the marks, character by character |
| Limit.TailKeepsLongest | internal/exec/command/limit/limit.go:30-58 | of valid UTF-8 the longest prefix of whole characters within n bytes is kept, and the marked result is valid |
| Limit.HeadKeepsLongest | internal/exec/command/limit/limit.go:41-70 | of valid UTF-8 the longest suffix of whole characters within n bytes is kept, and the marked result is valid |
| Limit.Buffer.constructor | internal/exec/command/limit/buffer.go:12-12 | an empty buffer with room for exactly its limit |
| Limit.Buffer.DropFirst | internal/exec/command/limit/buffer.go:30-35 | what stands behind the first bytes is moved to the front, in place |
| Limit.Buffer.Append | internal/exec/command/limit/buffer.go:27-37 | bytes are added behind those held, for which there must be room within the limit |
| Limit.Buffer.Write | internal/exec/command/limit/buffer.go:23-39 | one write reports all its bytes as written and leaves the last bytes of old and new together, in room that never grows beyond the limit |
| Limit.Buffer.WriteAll | internal/exec/command/limit/buffer.go:14-39 | after any sequence of writes the buffer holds the last bytes of the whole stream |
| Limit.BufferHoldsEnd | internal/exec/command/limit/buffer.go:14-39 | however a stream is cut into writes, exactly its last bytes up to the limit are held |
| Limit.LastBytesAre | internal/exec/command/limit/buffer.go:14-39 | these are the end of the stream, and as much of it as the limit allows |
| Attach.IndexByDir | internal/runner/attach.go:27-31 | each directory leads to its last runner |
| Attach.IndexByUnitName | internal/runner/attach.go:75-104 | the index holds exactly the names that occur once, and every further runner of a name is warned about |
| Attach.NameWarningsAre | internal/runner/attach.go:79-97 | a runner is warned about if and only if an earlier one names the same unit, with the directory of the first that does |
| Attach.NamedOnce | internal/runner/attach.go:75-104 | a name counted once is named by exactly one runner, the one found |
| Attach.AttachListener | internal/runner/attach.go:108-114 | the listener is replaced only by one started later |
| Attach.LatestIsLatest | internal/runner/attach.go:106-114 | the listener kept is the first of those started last |
| Attach.AttachProcesses | internal/runner/attach.go:33-47 | each runner gets the listener and exactly the workers of its directory |
| Attach.BelongsToDir | internal/runner/attach.go:33-47 | with distinct directories a process belongs to a runner exactly when it runs in its directory |
| Attach.MatchingAre | internal/runner/attach.go:33-47 | of the processes seen exactly those of the kind that belong to the runner are taken, each as often as it was seen |
| Attach.MatchingInOrder | internal/runner/attach.go:33-47 | and in the order in which they were seen |
| Attach.ProcessesOf | internal/runner/attach.go:33-56 | with distinct directories a runner ends with exactly the worker processes of its directory, in the order of their numbers, and with the first of the listener processes there that were started last, none only when there is none |
| Attach.ManagedIs | internal/runner/managed_by.go:41-52 | run by systemd exactly with a unit; without one unknown to be anything when units could not be listed, by itself with a listener, not at all without |
| Attach.Finish | internal/runner/attach.go:52-58 | the workers are permuted into the order of their process numbers, and how the runner is kept running follows from its unit, its listener and whether units could be listed |
| Attach.AttachByName | internal/runner/attach.go:120-150 | first pass: units that do not exist are reported, units named by one runner go to it, both are marked as handled |
| Attach.AttachLeft | internal/runner/attach.go:161-178 | one unit left goes to its runner unless that one has a unit, which is returned |
| Attach.AttachByDir | internal/runner/attach.go:150-181 | second pass: what is left goes to the runner of its working directory unless that one has a unit |
| Attach.AttachUnits | internal/runner/attach.go:120-181 | both passes together: unit by unit what is attached, orphaned and reported |
| Attach.AttachAll | internal/runner/attach.go:24-60 | all four steps over the same runners: unit, listener, workers and how it is kept running for each, with orphans and warnings |
| Attach.UniqueNameWins | internal/runner/attach.go:120-181 | a unit that exists and is named by exactly one runner ends up there, whatever the working directories say |
| Attach.EveryUnitOnce | internal/runner/attach.go:120-181 | every unit lands in exactly one of attached, orphaned, not found, duplicate, state unknown |
| Attach.AttachedIff | internal/runner/attach.go:120-181 | a unit is attached exactly when it is named, or is the first left for a runner nobody sits at |
| Attach.UnitOf | internal/runner/attach.go:120-181 | in terms of runners and units alone: a runner gets the existing unit that it alone names, else the first of known state that no runner alone names and that works in its directory, else none |
| Attach.HeldUnitStays | internal/runner/attach.go:139-178 | a unit that a runner had before stays unless one takes the runner by its name |
| Attach.OrphansAreUnits | internal/runner/attach.go:147-164 | in these terms: orphans are exactly the units of known state that no runner alone names and in whose directory no runner is |
| Attach.OrphansInOrder | internal/runner/attach.go:147-164 | and they stay in the order of the units |
| Attach.ReportedMissing | internal/runner/attach.go:125-138 | exactly the units whose load state is not-found are reported as missing |
| Attach.ReportedAsDuplicate | internal/runner/attach.go:160-176 | a unit is reported as a duplicate if and only if another one is at its runner in the end, under the name of that one |
| Table.Model.SetFocus | internal/ui/organism/table/state.go:82-101 | focus and cursor are set, clamped, and both sections rebuilt |
| Table.Model.NormalizeFocus | internal/ui/organism/table/state.go:155-167 | the focus stays on a section with rows, or moves to the first that has any |
| Table.Model.CrossSection | internal/ui/organism/table/state.go:36-61 | the cursor crosses only from a section's edge, to the next section that has rows |
| Table.Model.GotoEdge | internal/ui/organism/table/state.go:67-79 | to the first row of the first section with rows, or the last row of the last one |
| Table.Model.FilterSection | internal/ui/organism/table/rows.go:132-149 | exactly the matching rows are shown, in their order |
| Table.Model.SetQuery | internal/ui/organism/table/rows.go:118-126 | a filter applied to every section, the cursor kept on its row |
| Table.Model.PruneChecked | internal/ui/organism/table/rows.go:58-81 | exactly the checked identifiers of rows that still exist stay |
| Table.Model.ToggleChecked | internal/ui/organism/table/rows.go:15-32 | the row under the cursor is checked or unchecked when it may be |
| Table.Model.CheckAll | internal/ui/organism/table/rows.go:38-52 | every shown row that may be checked is |
| Table.Model.SetItems | internal/ui/organism/table/api.go:40-51 | a section's rows are replaced, the selection pruned, the filter applied and the cursor restored |
| Table.Model.ClearSelection | internal/ui/organism/table/api.go:124-127 | nothing stays checked |
| Table.Model.Refresh | internal/ui/organism/table/rows.go:168-179 | rebuilding a section puts its cursor on a row whenever there is one |
| Table.StepKeeps | internal/ui/organism/table/state.go:82-167 | every operation keeps: cursors on rows, the filter applied, the focus on rows whenever there are any, only existing rows of selectable sections checked |
| Table.ReachableOk | internal/ui/organism/table/api.go:40-51 | the same after every sequence of operations from an empty list |
| Table.ReachableShows | internal/ui/organism/table/rows.go:118-149 | after every sequence of operations each section shows exactly those of the rows it was given last that match the last filter text, in their order; all of them for an empty text or where nothing can match |
| Table.FilterIs | internal/ui/organism/table/rows.go:132-149 | filtering keeps exactly the matching rows, each as often as it was there |
| Table.SelectionFollowsItems | internal/ui/organism/table/state.go:131-167 | replacing rows keeps the selected row while it is shown in the focused section, else selects row 0 there or of the first section with rows |
| Table.SelectionFollowsQuery | internal/ui/organism/table/section.go:96-113 | the same for a new filter |
| Table.CursorKeepsPlace | internal/ui/organism/table/state.go:131-167 | where rows have no identifiers the cursor keeps its place as far as there are rows |
| Table.SelectedAtPosition | internal/ui/organism/table/section.go:86-94 | whenever any row is shown, the selected row is the one at the cursor's position in the list of all shown rows |
| Table.MovesByOne | internal/ui/organism/table/state.go:36-61 | a move changes that position by exactly one, across sections and over empty ones, and stops at both ends |
| Table.EdgeIsEdge | internal/ui/organism/table/state.go:67-79 | going to an edge reaches the first or the last of all shown rows |
| Table.ToggleTwice | internal/ui/organism/table/rows.go:15-32 | toggling twice gives back the list as it was |
| Table.AllCheckedIff | internal/ui/organism/table/rows.go:34-52 | checking all adds exactly the rows shown in selectable sections and not disabled, and never a hidden row |
| Table.CheckingIs | internal/ui/organism/table/rows.go:15-52 | toggling flips exactly the row under the cursor when it may be checked, checking all adds exactly what may be, clearing takes all; nothing else of the list changes |
| Table.CheckedStays | internal/ui/organism/table/rows.go:58-81 | new rows take away exactly the checked identifiers that no selectable row has any more; filters and moves take none |
| Layout.Layout | internal/ui/organism/table/state.go:169-196 | the loop over the visible sections gives out the heights that the next rows describe |
| Layout.VisibleAre | internal/ui/organism/table/state.go:174-183 | exactly the sections with rows get a height |
| Layout.VisibleInOrder | internal/ui/organism/table/state.go:174-183 | and they stay in their order |
| Layout.LeastOfIs | internal/ui/organism/table/state.go:183-190 | the least heights together are two lines for each section and one for each title |
| Layout.AllocsFeasible | internal/ui/organism/table/state.go:174-196 | when the least heights fit, each section gets the lines for its title, its header and at least one and at most all of its rows, and together no more than there is |
| Layout.NoEarlierMore | internal/ui/organism/table/state.go:169-196 | no other such sharing gives an earlier section more |
| Layout.TooTight | internal/ui/organism/table/state.go:171-173 | when the least heights do not fit, every section gets exactly its least |
| Layout.FeasibleIff | internal/ui/organism/table/state.go:171-196 | the sharing is feasible exactly when the least heights fit |
| Discovery.Reconcile | internal/ui/discovery/reconcile.go:39-49 | an overtaken cycle changes nothing, a failed one keeps the list, a successful one replaces it, and only that one allows the start-up checks |
| Discovery.HeldIs | internal/ui/discovery/reconcile.go:21-49 | under every order of delivery: the newest cycle counts as taken in, the list is that of the last success nothing newer had overtaken, the error that of the last cycle not overtaken |
| Discovery.NeverBackwards | internal/ui/discovery/reconcile.go:24-26 | no delivery moves back the cycle taken in or the cycle whose list is held |
| Discovery.HeldIff | internal/ui/discovery/reconcile.go:39-49 | a delivery's list is held afterwards exactly when it succeeded and nothing delivered was newer, or the list was the same already |
| Discovery.State.Start | internal/ui/discovery/state.go:96-115 | a cycle starts, numbered one higher, unless one is running |
| Discovery.State.OnTick | internal/ui/discovery/state.go:88-94 | the next tick is booked whether or not a cycle starts |
| Discovery.State.Apply | internal/ui/discovery/state.go:117-134 | the count goes down even for an overtaken result, the rest is the reconciled outcome |
| Discovery.CountsDown | internal/ui/discovery/state.go:117-134 | any answers, overtaken or not, count as one cycle less in flight each, never below none, and do not touch the numbering |
| Discovery.StepKeeps | internal/ui/discovery/state.go:92-134 | every tick, refresh or answer keeps: cycles in flight counted exactly and at most one, cycles answered in order, the list that of the latest success, a tick booked |
| Discovery.EveryRunKeeps | internal/ui/discovery/state.go:92-134 | the same over every interleaving |
| Discovery.FromTheStart | internal/ui/discovery/state.go:92-134 | from the start: at most one command outstanding, and the cycle taken in never ahead of the cycle issued |
| Discovery.HoldsTheLatestSuccess | internal/ui/discovery/reconcile.go:28-49 | after every run the list held is that of the latest successful cycle, never of a failed one |
| Discovery.AnswersCount | internal/ui/discovery/state.go:96-134 | in every run no answer is overtaken, and a failed one leaves the list as it was |
| Discovery.NeverStops | internal/ui/discovery/state.go:88-115 | after every run a tick is booked, and it starts a cycle as soon as nothing is outstanding |
| WorkScan.State.Start | internal/ui/workscan/workscan.go:122-139 | no scan while one runs, and none without runners, which does not use up a number |
| WorkScan.State.StartOnce | internal/ui/workscan/workscan.go:144-158 | no scan once one was started |
| WorkScan.State.Apply | internal/ui/workscan/workscan.go:160-170 | a result of another cycle is ignored, the current one ends the scan |
| WorkScan.OnlyCurrentEnds | internal/ui/workscan/workscan.go:160-170 | while a scan runs, only an answer under its number ends it; any other changes nothing |
| WorkScan.StepKeeps | internal/ui/workscan/workscan.go:128-170 | every event keeps: busy exactly while one scan is outstanding, which is the current one; the usage held covers exactly the runners of the last scan answered |
| WorkScan.BusyIffOutstanding | internal/ui/workscan/workscan.go:128-170 | the same after every interleaving from the start |
| WorkScan.NeverSticks | internal/ui/workscan/workscan.go:128-170 | after every run, the outstanding answer ends the scan and the next refresh with runners starts another |
| WorkScan.OnceScansTheFirst | internal/ui/workscan/workscan.go:141-158 | without manual refreshes exactly one scan is ever started, for the first list of runners that is not empty |
| WorkScan.DiscoveredOnlyOnce | internal/ui/workscan/workscan.go:144-158 | with refreshes in between, a discovery starts a scan only while none was ever started |
| Columns.ColumnsFit | internal/ui/molecule/columns.go:75-85 | the total width is the columns' widths, the space in front and one space between two columns |
| Columns.FitsIff | internal/ui/molecule/columns.go:75-85 | columns fit when six characters in front, they themselves and one space between any two do |
| Columns.DropColumn | internal/ui/molecule/columns.go:88-96 | every column of the identifier goes |
| Columns.Choose | internal/ui/molecule/columns.go:41-69 | both loops give the choice that the next rows describe, or stop on an index out of range |
| Columns.RulesInOrder | internal/ui/molecule/columns.go:41-56 | for all columns: the choice is what the fewest rules leave, taken in order, that fits or is one column; when not even all rules suffice, the second loop goes on from what they leave |
| Columns.LeftOfCount | internal/ui/molecule/columns.go:88-96 | what rules leave are the columns of other identifiers, in their order and as often as they were there |
| Columns.RightmostFirst | internal/ui/molecule/columns.go:57-69 | without repeated identifiers that loop takes columns off the right, but for those to be kept, just as many as it takes |
| Columns.ChosenIs | internal/ui/molecule/columns.go:41-69 | both together: the whole choice over columns without repeated identifiers |
| Columns.ChosenMonotone | internal/ui/molecule/columns.go:41-69 | for all columns and rules a narrower width chooses a subsequence of what a wider one does |
| Columns.ChosenIsGood | internal/ui/molecule/columns.go:35-69 | with unique identifiers the choice is never empty, holds every column to keep, and if it does not fit it is one column or only columns to keep |
| Columns.GoodIffUnique | internal/ui/molecule/columns.go:35-69 | these promises hold for all rules and widths if and only if no identifier repeats; with columns of no negative width already over the widths that are not negative |
| Columns.RepeatedIdStops | internal/ui/molecule/columns.go:62-67 | four columns with a repeated identifier for which the index runs out of range |
| Names.NextIndex | internal/setup/name/name.go:23-44 | one more than the largest index in use, in 64-bit arithmetic |
| Names.IndexIs | internal/setup/name/name.go:30-41 | a name of the prefix, a hyphen and a number, zeros in front of it allowed, counts with that number while it fits 64 bits |
| Names.NoIndex | internal/setup/name/name.go:30-41 | no other name counts |
| Names.MaxIndexIsOne | internal/setup/name/name.go:28-43 | the largest index is one of those, or 0 |
| Names.Names | internal/setup/name/name.go:67-74 | the names from the start index on |
| Names.DigitsValue | internal/setup/name/name.go:32-36 | reading a printed number gives the number |
| Names.ItoaInjective | internal/setup/name/name.go:63-65 | different numbers print differently |
| Names.NoLeadingZero | internal/setup/name/name.go:63-65 | numbers are printed without leading zeros |
| Names.SafeIsFresh | internal/setup/name/name.go:23-74 | for all existing names, leading zeros, overlong digits and foreign prefixes included, new names are distinct and unused while the largest index plus the count fits and the prefix is not empty |
| Names.FreshIffSafe | internal/setup/name/name.go:23-74 | that condition is exact: given the largest index in use, numbering gives unused names for every list of names if and only if it holds |
| Names.PlanAdd | internal/setup/add.go:76-163 | given names or numbered ones: the plan is refused for count, start index, place, prefix, a leading hyphen or the first name that is refused, in this order; otherwise its names are distinct and unused |
| Names.GuardIs | internal/setup/add.go:113-163 | the request itself is refused if and only if it is not for one to fifty names, numbered ones do not start at one or above or have no prefix, the place is refused, or prefix, group, user or work directory has a hyphen in front |
| Names.PlannedIff | internal/setup/add.go:76-163 | a plan goes through if and only if nothing is wrong with what is asked for and every name is well formed, not in use and not planned twice |
| Names.DuplicateIff | internal/setup/add.go:76-92 | planning from the next free index, for any prefix, count and largest index: some names in use make it refused for a duplicate if and only if the indices run over the largest 64-bit number half way, the prefix leaves room for them, and nothing else is wrong |
| Names.CheckNames | internal/setup/add.go:85-92 | name by name against the existing ones and those planned before it |
| Names.RefusalIs | internal/setup/valid/valid.go:84-103 | which refusal a name gets when several would apply |
| Names.SafeCharIff | internal/setup/valid/valid.go:222-233 | the characters a name may hold |
| Names.NeverDuplicate | internal/setup/add.go:76-92 | planning from the next free index, whatever names are in use and whatever the prefix: never refused for a duplicate unless the indices run over the largest 64-bit number half way |
| Names.RunsOverStrikes | internal/setup/add.go:76-92 | when they do run over, for every well-formed prefix there are names in use that make it refused for a duplicate |

## Left out

- Real input and output: processes, systemctl, journalctl, HTTP, file notifications, timers. They are replaced by answers, contents, events and trees that the lemmas quantify over.
- Strings outside ASCII in case folding and white space; `Mask`, `EnvFile` and `DropIn` treat a string as its bytes.
- Mask.PoolIdempotentIff: exact over all lists drawn from a pool; of a single list with several secrets, one of them not harmless and not cut up by an earlier one, nothing more is said.
- The masking of whole command structures and audit records that call `Args` and `String`.
- Stage.Area.Rename: fails only because one side is a directory and the other is not; permissions, modes, read-only directories, full disks and the resolution of symbolic links are not modelled, and the staging area is a tree of its own instead of a randomly named directory inside the destination.
- Stage.Area.Extract: reading the archive is an outcome, the staged tree or a failure; size limits and entry names are not modelled.
- Journal.Follow: lines are compared as text; the classification by severity and cancellation while sending are not modelled.
- Tail.Follow: the contents of the open file are given per notification; growth while one poll reads, and read errors, are not modelled.
- EnvFile.SessionSurvivesIff: the edits covered have a key that is not empty, has no blank at either end, no `=` and no newline in it and no `#` in front, and a value without a newline; of other edits only that no file reads them back as they were meant (`EnvFile.ReadsOnlyPlain`).
- DropIn.RenderParseIff: of the header comment only its shape is modelled, one comment line.
- Attach.EveryUnitOnce: unit names are distinct and no runner has a unit yet, as the callers provide them; the sorting of the runners is not modelled.
- Table.SelectionFollowsItems: rows are identified as the section's function says; typing in the filter, widths, styling and drawing are not modelled.
- Layout.Layout: the heights are returned in the order of the visible sections instead of being set on each section's table.
- Discovery.Reconcile: a result is any value; what a discovery finds, and its time limit, are not modelled.
- WorkScan.StepKeeps: walking the directories is an answer with one entry per directory; each scan is answered once.
- Names.Names: a negative count is not modelled.
- Names.PlanAdd: the checks of URL, directory and labels are one yes or no; normalising them, and the steps planned for each name, are not part of this model.
- Doctor checks, the GitHub client, the application's own settings, key maps and rendering: decision tables or library wrappers that would add only easy members.
