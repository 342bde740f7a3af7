# hfm hosts-file core, modelled in Dafny

hfm is a small command-line hosts-file manager. This project models its core:

- **bin/core.js**
  - `lineFormatter`, which classifies one hosts-file line. It cuts the first comment with `#.*` and matches what is left against `^\s*?(.+?)\s+(.+?)\s*$`. A match becomes an `[ip, host]` record; otherwise a line starting with `#` is kept verbatim and anything else becomes `false`.
  - `fileDecoder`, which splits a file on `\r?\n`, classifies every line and drops the `false` results.
  - The pure parts of the `.hfmrc` configuration: the `HFM_CONFIG` defaults, the merge that `getRc` does, and the add-if-absent rule of `alias`.
- **bin/parser.js**
  - `splitLine`, which splits on an `eol` and keeps the lines that contain a non-`\s` character.
  - `isCommentLine` (`/^\s*#/`) and `formatLine`.
  - The demo inputs at the end of the file.

JavaScript regular-expression semantics are kept exactly:

- `\s` is the full ECMAScript class: WhiteSpace together with LineTerminator.
- `.` refuses the four line terminators: `\n`, `\r`, U+2028 and U+2029.

The record pattern has a declarative model. A match is a reading `Split(lead, ipLen, gap, hostLen)` of the subject. The engine reports the first valid reading in backtracking order:

- the lazy lead shortest first;
- then the lazy ip shortest first;
- then the greedy gap longest first;
- then the lazy host shortest first.

The hand-written matcher `RecordPattern.Exec` is proved to return exactly that reading, or nothing when there is no valid reading. Likewise, `LineSplit.SplitLines` is proved to be the only decomposition of a string into pieces and `\r?\n` separators in which a bare `\n` never follows a `\r`.

Modules:

- `Wrappers`: `Option`.
- `JsText`: the character classes and scanners.
- `RecordPattern`: the record regex.
- `LineSplit`: `split(/\r?\n/)`.
- `Core`: `lineFormatter` and `fileDecoder`.
- `Parser`: bin/parser.js.
- `Rc`: the configuration.
- `CoreExamples` and `ParserExamples`: worked inputs.

Empty and unparseable lines are dropped. Because the record pattern is lazy:

- ip may begin with a space (`" 127.0.0.1"`);
- a whitespace-only line of three or more characters, without line terminators, becomes a record of its first and last characters (`"   "` gives `[" ", " "]`, see `Core.BlankLineClassification`).

A bare carriage return inside a line also matters, because `.` refuses it:

- `#.*` stops at the carriage return, so a line starting with `#` can still produce a record: `"#x\rab c"` gives `["ab", "c"]`.
- A field can then contain `#`.

For this reason, the properties "a `#` line is a comment" and "no field holds `#`" are stated for lines without line terminators (see "Left out").

## Model

| member | source | states |
|---|---|---|
| Core.StripComment | bin/core.js:31-32 | without a `#` the line is unchanged; otherwise the span from the first `#` to the next line terminator (or the end) is cut out, and nothing else |
| Core.LineFormatter | bin/core.js:30-42 | a comment entry is the line verbatim and starts with `#`; a record has a non-empty ip and a non-empty host |
| Core.LineFormatterMatchesRegex | bin/core.js:33-41 | a record comes back iff the pattern matches the stripped line, and then carries the groups of the match the engine reports; a comment iff there is no match and the line starts with `#`; nothing iff neither |
| Core.StripCommentWithoutTerminators | bin/core.js:32 | on a line without line terminators the stripped text is a prefix with no `#`, and the line continues with `#` where it was cut |
| Core.StripCommentCutsAtFirstHash | bin/core.js:32 | on a line without line terminators, stripping gives exactly the text before the first `#` |
| Core.HashLineIsComment | bin/core.js:38-39 | a line without line terminators that starts with `#` is kept verbatim as a comment |
| Core.RecordIffInnerSpace | bin/core.js:32-37 | on a line without line terminators a record is produced iff the text before the first `#` has `\s` at some index from 1 to its length minus 2 |
| Core.RecordShape | bin/core.js:33-37 | the record fields: ip is the stripped text up to its first `\s` after index 0; host follows a `\s` run, is non-empty, and is the rest without trailing `\s` when the rest has a non-space, or else the single last character |
| Core.RecordFieldsHaveNoHash | bin/core.js:32-37 | on a line without line terminators neither field of a record holds `#` |
| Core.BlankLineClassification | bin/core.js:32-41 | a whitespace-only line without line terminators is dropped iff it has at most two characters; a longer one becomes a record of its first and last characters |
| Core.DecodeLines | bin/core.js:51 | mapping and filtering keeps at most one entry per line; every entry is a kept classification of one of the lines |
| Core.FileDecoder | bin/core.js:50-52 | at most one entry per piece of the split; comments start with `#` and hold no line feed; records have non-empty fields |
| Core.FilterMap | bin/core.js:51 | `map` followed by a truthiness `filter` keeps at most one output per input |
| Core.FilterMapFromInputs | bin/core.js:51 | every output is the classification of one of the inputs |
| Core.FilterMapKeeps | bin/core.js:51 | every input that classifies has its classification in the output |
| Core.FilterMapAppend | bin/core.js:51 | mapping and filtering distribute over concatenation, so document order is kept |
| Core.FilterMapCons | bin/core.js:51 | one input contributes its classification, or nothing when it is `false` |
| Core.FileDecoderKeepsClassified | bin/core.js:50-52 | every piece of the split that classifies has its entry in the decoded file |
| RecordPattern.MatchTail | bin/core.js:33 | a returned gap and host length make `\s+(.+?)\s*$` match the rest of the subject |
| RecordPattern.MatchTailIsFirst | bin/core.js:33 | the tail returned is the one the engine tries first among all valid tails, and none is returned only when no tail matches |
| RecordPattern.ScanIp | bin/core.js:33 | a returned ip end lies at or after the start point, is followed by a valid tail, and ip holds no line terminator |
| RecordPattern.ScanIpIsFirst | bin/core.js:33 | the lazy ip scan returns the shortest ip that has a valid tail and the first tail for it, or nothing when no ip from that point has one |
| RecordPattern.ScanLead | bin/core.js:33 | a returned reading is valid and its lead is at least the start point |
| RecordPattern.ScanLeadIsFirst | bin/core.js:33 | the lazy lead scan returns the valid reading tried before every other one with a lead at least the start point |
| RecordPattern.Exec | bin/core.js:33 | a returned reading is a match of the pattern |
| RecordPattern.ExecIsFirstMatch | bin/core.js:33 | Exec returns the first match in backtracking order, and nothing exactly when the pattern does not match |
| RecordPattern.Groups | bin/core.js:33-36 | both capture groups are non-empty |
| RecordPattern.MatchesIffInnerSpace | bin/core.js:33-34 | without line terminators the pattern matches iff the subject has `\s` at an index from 1 to its length minus 2 |
| RecordPattern.FirstMatchHasNoLead | bin/core.js:33 | without line terminators the lazy lead of the reported match is empty |
| RecordPattern.FirstMatchIpHasNoInnerSpace | bin/core.js:33 | without line terminators ip holds no `\s` after its first character |
| RecordPattern.FirstMatchHostEdges | bin/core.js:33 | a host of two or more characters begins and ends with a non-space |
| RecordPattern.FirstMatchSpaceOnlyHost | bin/core.js:33 | on a subject without line terminators, when only `\s` follows ip, host is the single last character |
| RecordPattern.FirstMatchHost | bin/core.js:33 | on a subject without line terminators, host begins and ends with a non-space unless only `\s` follows ip, in which case it is the single last character |
| RecordPattern.GroupsIpWithoutTerminators | bin/core.js:33-36 | without line terminators ip is a prefix of the subject, ends where a `\s` follows, and holds no `\s` after its first character |
| RecordPattern.GroupsHostWithoutTerminators | bin/core.js:33-36 | without line terminators host is framed by a `\s` run before it and only `\s` after it |
| RecordPattern.GroupsWithoutTerminators | bin/core.js:33-37 | the full shape of ip and host on a subject without line terminators |
| RecordPattern.GroupsOfSpacedRecord | bin/core.js:33-37 | a subject without line terminators of the form ip, `\s` run, host, trailing `\s` has exactly that ip and host as its groups |
| LineSplit.FirstBreak | bin/core.js:51 | the first separator: it ends at the first line feed and takes a preceding carriage return with it |
| LineSplit.SplitLines | bin/core.js:51 | at least one piece, and no piece holds a line feed |
| LineSplit.LineBreaks | bin/core.js:51 | one separator fewer than pieces, each `"\n"` or `"\r\n"` |
| LineSplit.SplitLinesRebuilds | bin/core.js:51 | the pieces interleaved with the separators give back the subject |
| LineSplit.SplitLinesPreferCrLf | bin/core.js:51 | a piece cut off by a bare `"\n"` never ends in `"\r"` |
| LineSplit.SplitLinesIsLineSplit | bin/core.js:51 | the split meets every rule of a `\r?\n` decomposition |
| LineSplit.FirstBreakOfLineSplit | bin/core.js:51 | in any decomposition meeting the rules, the first separator is the first one in the subject |
| LineSplit.LineSplitIsUnique | bin/core.js:51 | any decomposition meeting the rules is the one the split produces |
| Parser.FindFrom | bin/parser.js:14 | the first occurrence of the separator at or after a position, or nothing when there is none |
| Parser.SplitOn | bin/parser.js:14 | splitting on a non-empty string separator gives at least one piece |
| Parser.SplitOnPiecesHoldNoSeparator | bin/parser.js:14 | no piece of a string-separator split holds the separator |
| Parser.SplitOnRejoins | bin/parser.js:14 | joining the pieces with the separator gives back the subject |
| Parser.CharactersRejoin | bin/parser.js:14 | splitting on `""` gives single-character pieces that join back, with `""`, into the subject |
| Parser.KeepNonBlank | bin/parser.js:14 | every kept line holds a non-space; the kept lines are a subsequence of the input; every non-blank line is kept |
| Parser.KeepNonBlankAppend | bin/parser.js:14 | the filter distributes over concatenation, so order is kept |
| Parser.KeepNonBlankIsIdentity | bin/parser.js:14 | the filter leaves its input unchanged iff no line is blank |
| Parser.SplitLine | bin/parser.js:13-15 | every returned line holds a non-space, and the lines are an order-preserving subsequence of the pieces split on `eol` |
| Parser.DefaultSplitLineHasNoNewline | bin/parser.js:13-14 | with the default `eol` no returned line holds a line feed |
| Parser.IsCommentLine | bin/parser.js:22-24 | holds iff the character after the leading `\s` run is `#` |
| Parser.TrimStart | bin/parser.js:28 | the result is the line with a leading all-`\s` prefix removed, and does not begin with `\s` |
| Parser.FormatLine | bin/parser.js:26-31 | an object comes back iff the line is a comment line; it has type `comment` and a one-element list holding the line without its leading `\s`, which starts with `#` |
| ParserExamples.TestHostSplits | bin/parser.js:41-46 | the demo template literal splits into an empty line followed by its five lines |
| ParserExamples.DemoSplitLine | bin/parser.js:41-48 | `splitLine` on the demo drops the leading empty line and returns the other five in order |
| CoreExamples.StripDemo | bin/parser.js:49 | stripping `127.0.0.1 localhost # xxx` leaves `127.0.0.1 localhost ` |
| CoreExamples.PatternDemo | bin/parser.js:50 | the pattern on ` 127.0.0.1 localhost asdfasdf # asdf` gives ip ` 127.0.0.1` and host `localhost asdfasdf # asdf` |
| CoreExamples.BlankLineDropped | bin/core.js:30-41 | the empty line classifies as `false` |
| CoreExamples.HashLineKept | bin/core.js:38-39 | `# x` is kept as a comment |
| CoreExamples.IndentedCommentDropped | bin/core.js:32-41 | `  # note` classifies as `false` |
| CoreExamples.SpaceHost | bin/core.js:33-37 | `a  ` gives ip `a` and host a single space |
| CoreExamples.SpacesLineIsRecord | bin/core.js:33-37 | three spaces give the record `[" ", " "]` |
| CoreExamples.CarriageReturnStrip | bin/core.js:32 | stripping `#x\rab c` stops at the carriage return |
| CoreExamples.CarriageReturnPattern | bin/core.js:33 | the pattern skips a leading carriage return: `\rab c` gives `ab` and `c` |
| CoreExamples.CarriageReturnHashLine | bin/core.js:32-39 | the `#` line `#x\rab c` classifies as the record `["ab", "c"]` |
| CoreExamples.LocalhostRecord | bin/core.js:30-37 | `127.0.0.1 localhost` gives ip `127.0.0.1` and host `localhost` |
| CoreExamples.DecodeCrLfFile | bin/core.js:50-52 | a two-line CRLF file decodes to its comment and its record |
| Rc.GetRc | bin/core.js:69-79 | with no file the defaults are returned and written; otherwise every key of the file overrides `list: {}` and `custom: []`, and the file is left as it is |
| Rc.DefaultAliases | bin/core.js:17-27 | the defaults hold exactly the aliases Google and GoogleMirror with their URLs, and an empty `custom` |
| Rc.RereadIsStable | bin/core.js:69-79 | reading the configuration again after `getRc` gives the same configuration |
| Rc.Alias | bin/core.js:102-111 | reported as already added iff the list already has a truthy entry (own or inherited) for the name; otherwise the name maps to `{url}`, other aliases and other keys are unchanged, and no key is added except the name; with no addition the file is only what `getRc` left |
| Rc.AliasKeepsOtherAliases | bin/core.js:104-107 | after an addition, every other name is present exactly when it was present before |
| Rc.AliasTwiceReportsDuplicate | bin/core.js:102-111 | a second `alias` of the same name, with any url, reports a duplicate and writes nothing |
| Rc.AliasOfBuiltIn | bin/core.js:102-111 | `alias Google` with no file reports a duplicate and leaves the defaults written |
| Rc.AliasOfInheritedName | bin/core.js:105 | `toString` counts as present in an empty list |
| Rc.AliasOverwritesFalsyEntry | bin/core.js:105-107 | an entry holding a falsy value is overwritten |

## Left out

- Core.HashLineIsComment: requires a line without line terminators. With a bare carriage return, `"#x\rab c"` classifies as a record (`CoreExamples.CarriageReturnHashLine`).
- Core.RecordFieldsHaveNoHash: requires a line without line terminators. After a bare carriage return the comment cut stops, so a field can hold `#`.
- Core.RecordIffInnerSpace: requires a line without line terminators. Around a carriage return the lazy lead and ip can skip characters, so the index condition is only stated without them. `Core.LineFormatterMatchesRegex` covers every line.
- Core.RecordShape: requires a line without line terminators, for the same reason.
- Core.BlankLineClassification: requires a line without line terminators. `"  \r"` is whitespace only and has three characters, yet it is dropped: `.` refuses the carriage return, so no host can be found.
- Core.FileDecoder: entries are not claimed to be non-blank. A line of three or more whitespace characters becomes a record (`Core.BlankLineClassification`).
- File I/O is not modelled. The hosts-file content and the loaded configuration are parameters. A missing `.hfmrc` is `None`; the file after a call is a result.
- YAML is not modelled. `js-yaml` loading and dumping (with sorted keys) is taken to round-trip the simple values used here. A document that loads as a top-level scalar or array is not modelled, and neither is a YAML parse error.
- The `HOME`-relative config path, platform detection for `EOL` and `HOSTS_PATH`, and `getFile` reading the hosts file are not modelled: they are environment lookups and I/O.
- `list`, `show`, and the `console.log`/`console.error` calls and `chalk` colouring in `alias` are not modelled: they are console output only.
- `set`, `remove`, `search`, `use` and `unuse` only log their arguments.
- `parse` and `stringify` in bin/parser.js are empty.
- The `t` sample array sketches shapes that nothing implements.
- The `console.log` demo at bin/parser.js:51 splits with a capturing regex and is not modelled.
- bin/cli.js is not part of this model. It is command dispatch only.
- Rc.Alias: when `list` is not an object, the outcome is `ListNotObject` and the file is whatever `getRc` left. The JavaScript behaviour in that case depends on the value's prototype (property lookup on numbers and strings, a TypeError on `null`), and that is not modelled.
- Rc.Alias: the numeric value NaN is not modelled (numbers are integers), so its falsiness is absent from `Truthy`.
- RecordPattern.FirstMatchSpaceOnlyHost: requires a subject without line terminators. With `"a  \r"` only `\s` follows ip, but host is `" "`, not the last character, because `.` refuses the carriage return.
- RecordPattern.FirstMatchHost: requires a subject without line terminators, for the same reason (`"a  \r"` gives host `" "`).
- RecordPattern.GroupsOfSpacedRecord: requires a subject without line terminators. `"\rab c"` has the spaced shape with ip `"\rab"`, but the lazy lead skips the carriage return and the groups are `("ab", "c")` (`CoreExamples.CarriageReturnPattern`).
- Parser.Characters: gives one piece per Unicode scalar value. JavaScript's `split("")` cuts into UTF-16 code units, so an astral character such as U+1F600 gives two pieces there and one here.
- Parser.SplitLine: a custom `RegExp` `eol` is not modelled. The default `/\r?\n/` and string separators are.
- The `g` flag on `/\S/g` and `/^\s*#/g` has no effect in the model. Each regex literal evaluates to a fresh object, so `lastIndex` starts at 0 on every call.
- Strings are sequences of Unicode scalar values, while JavaScript strings are UTF-16 code units. The patterns here give the same answers under both readings, because none of their classes contains a surrogate. `split("")` is the exception (see `Parser.Characters` above).
