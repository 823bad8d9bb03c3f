# Tail trigger: line framer, duplicate filter and command builder

This project models the core of the n8n "Tail Trigger" node
(`nodes/Tail/Tail.node.ts`). When a workflow starts, the node builds a shell
command `tail -F -n N <directory><file>` and runs it with `sh -c`. It then
listens to the child's standard output. Each `data` event carries a chunk of
text. The handler splits the chunk on line feeds, drops blank pieces, and
emits every remaining line. When "Reject Duplicate Lines" is on, a line equal
to the line just before it is not emitted. The closure variable `previous`
remembers that line across events.

Layout, one module per file:

- `Wrappers.dfy`: the `Option` datatype.
- `Text.dfy`: the JavaScript string operations the handler uses. These are
  `trim()` (with the ECMAScript whitespace set), `split()` on one character
  with its partner `Join`, and the decimal rendering of an integer in a
  template string with its partner `ParseInt`.
- `Framing.dfy`: the pure part of the handler as functions. `ChunkLines`
  frames one chunk. `Emitted` and `LastLine` give the specification of the
  duplicate filter. `Squash` is an independent reference definition of run
  collapsing. The lemmas relate them.
- `TailTrigger.dfy`: the command builder and its parser partner. It also holds
  the class `DataHandler`, whose `previous` field stands for the closure
  variable; its methods `ProcessChunk` and `ForwardLines` run the handler's
  loop. `Trigger` is the setup that `trigger()` performs.

The dedup functions are generic over the line type. Only equality of lines
matters to them, and the comparison is exact: lines are not trimmed before it.

Each chunk is framed on its own: nothing is carried over from one `data`
event to the next except `previous`. A framer that reassembled lines would
turn the chunks `err` and `or` into the line `error`; this code frames them
as two lines, `err` and `or`, and `ChunkBoundaryInsideLine` states exactly
that. `ChunkLinesAtLineFeed`
shows that framing per chunk equals framing the concatenation when the
boundary falls on a line feed.

## Model

| member | source | states |
|---|---|---|
| Text.IsWhitespace | nodes/Tail/Tail.node.ts:90 | the code points `trim()` strips, ECMAScript's WhiteSpace and LineTerminator; no contract of its own, its meaning is fixed by `TrimStart`, `TrimEnd` and `TrimEmptyIffBlank` |
| Text.TrimStart | nodes/Tail/Tail.node.ts:90 | the result is a suffix of the line, what was cut off is all whitespace, and it does not start with whitespace |
| Text.TrimEnd | nodes/Tail/Tail.node.ts:90 | the result is a prefix of the line, what was cut off is all whitespace, and it does not end with whitespace |
| Text.Trim | nodes/Tail/Tail.node.ts:90 | `line.trim()` is no longer than the line and neither starts nor ends with whitespace |
| Text.TrimEmptyIffBlank | nodes/Tail/Tail.node.ts:90 | `line.trim() === ''` holds exactly when every character of the line is whitespace (both directions) |
| Text.JoinSplit | nodes/Tail/Tail.node.ts:89 | splitting on the separator loses nothing: re-joining the pieces with it restores the chunk |
| Text.SplitJoin | nodes/Tail/Tail.node.ts:89 | separator-free pieces joined and split again come back unchanged, so `Split` is the inverse of `Join` |
| Text.SplitCount | nodes/Tail/Tail.node.ts:89 | `split('\n')` gives one more piece than the chunk has line feeds (an empty chunk gives one empty piece) |
| Text.SplitAtSeparator | nodes/Tail/Tail.node.ts:89 | a separator cuts the string into the pieces of its left side followed by those of its right side |
| Text.Split | nodes/Tail/Tail.node.ts:89 | there is always at least one piece, and no piece contains the separator |
| Text.NatToString | nodes/Tail/Tail.node.ts:78 | the rendered count is a non-empty run of decimal digits, with a leading `0` only for zero |
| Text.IntToString | nodes/Tail/Tail.node.ts:78 | the `${nLines}` rendering is non-empty and made of decimal digits and `-` only; `IntToStringRoundTrip` shows it loses nothing |
| Text.IntToStringRoundTrip | nodes/Tail/Tail.node.ts:78 | parsing the rendered integer (minus sign for negatives) gives the integer back |
| Framing.NonBlank | nodes/Tail/Tail.node.ts:90 | the filter `line.trim() !== ''`; no contract of its own, its meaning is given by `NonBlankElements`, `NonBlankMembership`, `NonBlankKeepsCount`, `NonBlankIsSubsequence` and `NonBlankAllBlank` |
| Framing.ChunkLines | nodes/Tail/Tail.node.ts:87-90 | every framed line is non-blank and contains no line feed |
| Framing.NonBlankElements | nodes/Tail/Tail.node.ts:90 | every line the filter keeps is one of the split pieces and is not blank |
| Framing.NonBlankMembership | nodes/Tail/Tail.node.ts:90 | a line survives the blank filter exactly when it is one of the pieces and is not blank |
| Framing.NonBlankKeepsCount | nodes/Tail/Tail.node.ts:90 | each non-blank piece is kept as many times as it occurs |
| Framing.NonBlankIsSubsequence | nodes/Tail/Tail.node.ts:87-90 | the kept lines appear in the order of the pieces |
| Framing.NonBlankAppend | nodes/Tail/Tail.node.ts:90 | filtering distributes over concatenation of piece lists |
| Framing.NonBlankAllBlank | nodes/Tail/Tail.node.ts:90 | the filter keeps nothing exactly when every piece is blank |
| Framing.ChunkLinesEmptyIff | nodes/Tail/Tail.node.ts:87-90 | a chunk yields no line exactly when it is entirely whitespace |
| Framing.ChunkLinesAtLineFeed | nodes/Tail/Tail.node.ts:86-90 | framing two chunks separately equals framing their concatenation when the cut is a line feed |
| Framing.ChunkBoundaryInsideLine | nodes/Tail/Tail.node.ts:86-90 | a line cut inside by a chunk boundary is framed as two lines: chunks are not reassembled |
| Framing.Emitted | nodes/Tail/Tail.node.ts:92-97 | the lines the loop forwards from a given `previous`; no contract of its own, it is specified by `EmittedIsSquash`, `EmittedWithoutDeduplication`, `EmittedElements` and `EmittedIsSubsequence`, and `ForwardLines` is proved to compute it |
| Framing.Forward | nodes/Tail/Tail.node.ts:93-95 | one line is forwarded unless deduplication is on and it equals `previous`; no contract of its own, `EmittedSnoc` states its role in the loop |
| Framing.LastLine | nodes/Tail/Tail.node.ts:96 | `previous` after the loop; no contract of its own, `LastLineAppend` and `ForwardLines` state how it evolves |
| Framing.EmittedElements | nodes/Tail/Tail.node.ts:92-97 | every forwarded line is one of the framed lines, so it too is non-blank and contains no line feed |
| Framing.EmittedAppend | nodes/Tail/Tail.node.ts:85-97 | processing lines in two batches, with `previous` carried between them, equals processing them at once |
| Framing.EmittedSnoc | nodes/Tail/Tail.node.ts:92-97 | one more line is forwarded exactly by comparison with the line before it, and becomes `previous` |
| Framing.LastLineAppend | nodes/Tail/Tail.node.ts:96 | `previous` after two batches is the last line of the second, or of the first when the second is empty |
| Framing.EmittedWithoutDeduplication | nodes/Tail/Tail.node.ts:93-95 | with deduplication off every line is forwarded in order, consecutive duplicates included |
| Framing.EmittedIsSquash | nodes/Tail/Tail.node.ts:92-97 | with deduplication on, the output is the run-collapsed stream `[previous] + lines` minus its first element |
| Framing.EmittedNoAdjacentDuplicates | nodes/Tail/Tail.node.ts:92-97 | with deduplication on, no two forwarded lines in a row are equal and the first differs from `previous` |
| Framing.EmittedIsSubsequence | nodes/Tail/Tail.node.ts:92-97 | the forwarded lines are an order-preserving subsequence of the framed lines |
| Framing.EmittedRun | nodes/Tail/Tail.node.ts:92-97 | a run of k equal lines yields its first element once, or nothing when it repeats `previous` |
| Framing.RunEmitsAtMostOne | nodes/Tail/Tail.node.ts:92-97 | a run alone yields at most one line and leaves `previous` equal to the repeated line |
| Framing.SquashNoAdjacentDuplicates | nodes/Tail/Tail.node.ts:93 | the reference run collapse leaves no two equal neighbours |
| Framing.SquashIsSubsequence | nodes/Tail/Tail.node.ts:93 | the reference run collapse keeps the order of its input |
| Framing.SquashOfNoAdjacentDuplicates | nodes/Tail/Tail.node.ts:93 | the reference run collapse changes nothing once there are no runs (it is idempotent) |
| Framing.DeduplicationExample | nodes/Tail/Tail.node.ts:92-97 | "A","A","A","B" gives "A","B" with deduplication and all four lines without it |
| Framing.FirstLineEmitted | nodes/Tail/Tail.node.ts:85-93 | after the initial `previous = ""`, which is blank, the first non-blank line is always forwarded |
| Framing.StreamFacts | nodes/Tail/Tail.node.ts:85-97 | since start, the output is an ordered subsequence of the lines seen; it equals them without deduplication; it has no adjacent duplicates with deduplication; it begins with the first line seen; every line in it was seen and is non-blank |
| TailTrigger.SeedLineCount | nodes/Tail/Tail.node.ts:74 | the count is 0 exactly when the option is absent or 0, and otherwise it is the option's value |
| TailTrigger.Deduplicates | nodes/Tail/Tail.node.ts:75 | duplicates are rejected only when the option is present and true |
| TailTrigger.Command | nodes/Tail/Tail.node.ts:78 | the command starts with `tail -F -n ` and ends with `directory + file` |
| TailTrigger.CommandRoundTrip | nodes/Tail/Tail.node.ts:74-78 | parsing the command gives back exactly the seed-line count and the path `directory + file`, with no separator inserted |
| TailTrigger.CommandExample | nodes/Tail/Tail.node.ts:74-78 | the node's defaults give `tail -F -n 0 /home/user/file*.log`; directory `/var/log` with file `syslog` gives `/var/logsyslog` |
| TailTrigger.DataHandler.constructor | nodes/Tail/Tail.node.ts:85 | the handler starts with `previous` empty, nothing seen and nothing emitted |
| TailTrigger.DataHandler.ForwardLines | nodes/Tail/Tail.node.ts:92-97 | the loop emits `Emitted(old previous, lines)` and leaves `previous` as the last line, or unchanged for no lines |
| TailTrigger.DataHandler.ProcessChunk | nodes/Tail/Tail.node.ts:86-97 | one `data` event emits the filtered lines of the chunk, each non-blank and free of line feeds. `previous` becomes the chunk's last non-blank line, or stays as it was for an all-whitespace chunk. The whole history keeps order and has no adjacent duplicates under deduplication, also across chunks |
| TailTrigger.ExtendHistory | nodes/Tail/Tail.node.ts:85-97 | appending a chunk's lines to the history keeps the handler's invariant, including that every emitted line is non-blank and free of line feeds |
| TailTrigger.Trigger | nodes/Tail/Tail.node.ts:70-85 | setup yields the command for `sh -c` and a fresh handler with `previous = ""` and the deduplicate option |

## Left out

- Process handling is not modelled. That covers `spawn('sh', ['-c', command])`, piping stderr to the console, the `close` handler and `child.kill('SIGHUP')` (lines 81-83, 100-111). It is operating-system process management and event-loop plumbing.
- The stderr path is not modelled: `closeFunction()` followed by `emitError` (lines 104-107) is callback and concurrency behaviour. The code keeps no closed flag, so the model claims no idempotent stop and no at-most-once error delivery.
- The n8n glue is not modelled. That covers the `description` object, `getNodeParameter`, `console.log`, and `returnJsonArray`/`emit` (lines 11-66, 70-73, 79, 94). Each emit is modelled as appending the line to the handler's output sequence.
- Seed-line semantics and glob expansion are done by the external `tail` binary and the shell, not by this code. The model only builds the command string. It does not model shell quoting: spaces or metacharacters in the directory or file are read by the shell.
- `Buffer.toString()` is not modelled: decoding bytes to a string is out of scope, so a chunk is taken as a string.
- TailTrigger.SeedLineCount: models `nLines` as an optional integer. Falsy values other than absent and 0 (NaN, -0), fractional numbers, and values of other types reaching `as number` are not modelled.
- Text.IntToString: JavaScript renders integers of magnitude 1e21 and above in exponent notation; the model always renders plain decimal digits.
- Text.IsWhitespace: the set is fixed at ECMAScript's WhiteSpace and LineTerminator code points. It does not follow later changes to the Unicode space-separator category.
