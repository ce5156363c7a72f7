# Verified models of u-root tools

This project models eight small Go programs of u-root and one library package in Dafny and proves what they
promise. `dafny verify dfyconfig.toml` checks everything.

| file | models |
|---|---|
| `Cp.dfy` | the parallel file copy of cp: workers, the offset dispenser and the verdict channel, as a step system over every interleaving and every sequence of copies |
| `CpSound.dfy`, `CpTrust.dfy`, `CpErrors.dfy`, `CpEnds.dfy`, `CpFiles.dfy` | why a copy is right, when it can be trusted, when it fails, how long it takes, and what every run leaves in the files |
| `DdPipeline.dfy`, `DdCopy.dfy` | the reader and writer of dd with their buffer pool and ready queue, as a step system |
| `DdEnds.dfy`, `DdBuffers.dfy` | how long a dd run takes, when it returns, and what becomes of its buffers |
| `DdStream.dfy` | the buffers and the section reader of dd, as classes |
| `Tcz.dfy` | the dependency walk of tcz over files and a server |
| `RushParse.dfy`, `RushScan.dfy`, `RushWire.dfy` | tokens, commands and pipe wiring of the rush shell: a grammar on values, the scanner class that refines it, and the wiring |
| `RushHang.dfy`, `RushPrint.dfy`, `RushLine.dfy`, `RushItems.dfy` | the lines on which the shell's parser does not return, the command lists that lines can mean, lines without blanks in front of their commands, and words and redirections in any order |
| `Ed.dfy` | the line table, slices, replacement and substitution of ed |
| `CpioInode.dfy`, `CpioPaths.dfy`, `CpioRecords.dfy` | inode renumbering, the names of records, and the record layer of cpio |
| `Newc.dfy`, `NewcLayout.dfy`, `NewcDecode.dfy`, `NewcArchive.dfy` | the byte format of cpio records, where each byte stands, what any data decodes to, and whole archives |
| `Wc.dfy`, `WcWords.dfy` | the counts of wc and UTF-8, and what a word is |
| `Comm.dfy`, `CommFiles.dfy` | the merge of comm, and its reader and printer |
| `FieldLex.dfy`, `Field.dfy`, `FieldMeans.dfy` | lexer and parser of field lists, and what the lists mean |
| `Common.dfy` | bytes, options and concatenation |

Programs that change state step by step are classes and methods with loops; each such method is proved
against a function on values, and the laws are proved about those functions. Goroutines are step systems whose
steps are the receives, sends, reads and writes of the program; a law holds for every run. A Go panic, a loop
that never ends and a fatal exit are outcomes of their own.

## Findings

Some laws one would expect are false of the code. Each has a lemma at an input, where a small one exists, and the
exact condition.

* cp: after a failed copy a worker can stay behind, waiting for an offset. In a later copy it can take the
  offset of a block, and the later copy still succeeds without that block (`CpTrust.WrongCopyReachable`). A copy is
  right in every run if and only if the source is empty, or there is at least one worker and no worker of an earlier
  copy is waiting (`CpTrust.TrustExactly`). In terms of the results a caller saw: if and only if the source is empty,
  there is exactly one worker, or there are workers and no earlier copy failed (`CpTrust.TrustByResults`).
* dd: after a write error the copy can hang for ever, because the reader blocks on a full queue that nobody
  drains (`DdCopy.ChunksCauseDeadlock`). It can hang if and only if the input comes in at least depth + 2 chunks
  (`DdCopy.HangExactly`).
* ed: the end line of a slice is exclusive, except that the last line of the file is included when it is named as
  the end of a range of more than one line (`Ed.HalfOpenFails`, `Ed.HalfOpenExactly`). Lines need not be spliced as lines (`Ed.SpliceFails`); they are
  if and only if the text before and the text inserted end in a newline where it matters
  (`Ed.SpliceLinesExactly`).
* rush: the parser does not return from every line (`RushHang.LoneSignHangs`, `RushHang.OpenQuoteHangs`). A line that
  asks for no environment variable hangs if and only if the text, read with the escape rule, ends inside quotes or in
  a single pipe sign or ampersand that is its last character, before a newline outside quotes, a zero byte between
  words, a redirection without a target or a command that starts with a quoted newline ends the line
  (`RushHang.HangsExactly`). It panics if and only if a redirection without a target comes first. The lines that ask for a variable are told apart exactly; whether they hang depends on
  the file that is read then, and is left undecided. A blank in front of a line is not always invisible: it is if and
  only if the line does not start with its end or with a quoted newline (`RushLine.BlankInvisibleExactly`), and a line
  with a command whose name is a newline stops in front of it (`RushLine.TightRoundTrip`). A backslash protects nothing
  but another backslash (`RushLine.EscapeProtectsNothing`).
* cpio: a record with the trailer's name hides what is written after it (`CpioRecords.TrailerNameLoses`); an archive
  gives back all that was written if and only if there is none (`CpioRecords.ArchiveComplete`). A record is read back
  from its bytes if and only if the length of its name is 32-bit and its size, cut to 32 bits, is the length of its
  content (`Newc.DecodeEncode`), and an archive if and only if its members are such records
  (`NewcArchive.ArchiveRoundTrip`). Its 32-bit inode numbers keep different files apart if and only if there are at
  most 2^32 of them (`NewcArchive.KeptApartExactly`).
* comm: a file that ends in a newline yields an extra empty line, so that the stream of a sorted file need not be
  sorted (`CommFiles.SortedFileUnsortedStream`); it is if and only if the trimmed lines are sorted and none is above what
  follows the last newline (`CommFiles.StreamSortedExactly`). The rows printed for sorted files are right nevertheless
  (`CommFiles.SortedFiles`, `CommFiles.PrintedFiles`). A row does not always show its column (`CommFiles.TabGarbles`); it does if and
  only if the line does not end in a tab, and does not start with one unless it is in column 3
  (`CommFiles.UnmarkExactly`, `CommFiles.PrintedExactly`).
* field: the syntax that the source documents (cmds/field/field.go:115-122) lets one range follow another without a
  delimiter. The code needs one between any two of any number of ranges (`FieldMeans.MeansExactly`), and gives numbers
  that are too large, or that have digits beyond ASCII, a meaning instead of an error (`FieldMeans.AtoiExactly`,
  `FieldMeans.AtoiBeyond`).

## Model

| member | source | states |
|---|---|---|
| `CpTrust.TrustExactly` | cmds/cp/cp.go:145-271 | For every history and every start of a copy: all runs that return nil leave the destination equal to the source if and only if the source is empty, or there is a worker and no older worker waits on `offchan` |
| `CpTrust.TrustByResults` | cmds/cp/cp.go:145-271 | After any sequence of results that a caller has seen, every run of the next copy that returns nil is right if and only if the source is empty, there is one worker, or there are workers and no earlier copy failed |
| `CpTrust.StartWithResults` | cmds/cp/cp.go:145-271 | Every sequence of results that is possible happens, and each failure in it can have left a worker waiting |
| `CpTrust.NoWorkersNoFailure` | cmds/cp/cp.go:152-158 | Without workers no copy fails |
| `CpEnds.CopyEnds` | cmds/cp/cp.go:145-271 | After any history, a copy and the workers left over from earlier ones make at most 3 floor(N/8192) + 8 nwork + 1 steps and three for each such worker in every run; until the copy has returned it can make another step that is not an I/O error; when it has, it reports a failure if and only if one of its own reads or writes failed; copies that returned nil leave no worker |
| `CpEnds.ErrorFreeSucceeds` | cmds/cp/cp.go:145-271 | From every state that a copy reaches without a failing read or write of its own, steps without an error bring it to its end, and it returns nil |
| `CpErrors.FailsExactly` | cmds/cp/cp.go:229-255 | For every copy and every run, whatever other copies do: a failure that is returned comes from a read or write of that copy that failed, and a copy with such a failure does not return nil |
| `CpSound.CopiesRightUntilFailure` | cmds/cp/cp.go:145-271 | In every run from the initial state, a copy that returns nil is exact as long as all copies before it returned nil |
| `CpSound.CleanStartIsRight` | cmds/cp/cp.go:145-165 | From any state without a waiting older worker, every interleaving of the new copy that returns nil ends with destination equal to source |
| `CpSound.NilVerdictsMeanExact` | cmds/cp/cp.go:152-164 | In every sound state, nwork nil verdicts mean that every byte has been written and nothing else |
| `CpSound.CopyAccounting` | cmds/cp/cp.go:223-271 | Offsets are 0, 8192, 16384 and so on, every offset held was drawn and goes to one worker, write ranges do not overlap, at most floor(N/8192) + nwork are drawn, and exactly so many by a copy that returned nil |
| `CpFiles.NoWrongByte` | cmds/cp/cp.go:223-256 | In every run, whatever fails and whoever draws, every byte of every destination is that of its source at the same place or lies in a gap |
| `CpFiles.ClosedFilesStay` | cmds/cp/cp.go:134-164 | Once a later copy has begun, a destination and its result stay as they are in every run |
| `CpFiles.LingeringMoves` | cmds/cp/cp.go:223-256 | A worker left over from an earlier copy can always make a step of its own until it has exited |
| `CpSound.RunKeepsGood` | cmds/cp/cp.go:145-271 | The coverage, ownership and channel invariants of a copy hold after every run |
| `CpSound.EventKeepsSound` | cmds/cp/cp.go:223-271 | Every worker and dispenser event keeps each byte below the dispensed offset either written right or held by exactly one worker |
| `CpSound.EventKeepsLog` | cmds/cp/cp.go:229-253 | Every event keeps the write log disjoint and inside the source |
| `CpSound.EventKeepsDraws` | cmds/cp/cp.go:229-253 | Every event keeps the bound on the number of offsets drawn |
| `Cp.RunKeepsBase` | cmds/cp/cp.go:145-271 | Dispenser, verdict channel and destination size stay consistent in every run, clean or not, and no copy changes its file |
| `Cp.VerdictNeverBlocks` | cmds/cp/cp.go:147-158 | A worker that has a verdict can always send it, also when its copy has already returned |
| `Cp.NeverStuck` | cmds/cp/cp.go:145-271 | An unfinished copy always has an enabled step that is not an I/O error |
| `CpTrust.StaleWorkerLosesBlock` | cmds/cp/cp.go:223-271 | With a waiting older worker and a source that is not empty there is a run that returns nil with a shorter destination |
| `CpTrust.FailedCopyLeavesWorker` | cmds/cp/cp.go:152-158 | With two workers or more a failed copy can leave a worker waiting for an offset |
| `CpTrust.WrongCopyReachable` | cmds/cp/cp.go:145-271 | From the initial state, for every source that is not empty and two workers or more, a run makes the second copy succeed with a destination that is too short |
| `DdPipeline.RunKeepsInv` | cmds/dd/dd.go:157-229 | Ownership, control and data-flow invariants of reader, queue, pool and writer hold after every run |
| `DdCopy.OutputIsPrefix` | cmds/dd/dd.go:85-117 | In every reachable state the bytes written are a prefix of the sequential conversion of what is read, and the counter does not exceed them |
| `DdCopy.ReturnedCopy` | cmds/dd/dd.go:157-229 | When the copy returns and every write took its whole piece without an error, all of the expected output is written and counted, also what came before a read error, and the result tells how the input ended; after a bad write the result is an error, and a write error is reported only then; it is a read error if and only if the input ends with one and the reader has come that far |
| `DdCopy.WriteFailsExactly` | cmds/dd/dd.go:97-117 | In every run a write counts as failed if and only if it reported an error or took a length other than that of its piece |
| `DdCopy.BuffersOwnedOnce` | cmds/dd/dd.go:133-151 | In every reachable state no buffer is in two places, and at most depth + 2 are live |
| `DdBuffers.BuffersAccounted` | cmds/dd/dd.go:133-151 | In every reachable state every buffer that was ever made is in use, or was let go because the pool was full, it stayed empty or its write failed |
| `DdBuffers.QuitStopsReader` | cmds/dd/dd.go:184-190 | Once quit is closed the reader makes no buffer and at most the one read that it has a buffer for |
| `DdBuffers.DepthExactly` | cmds/dd/dd.go:158-163 | The depth is the number of input buffers that fit into one GiB, and 8192 when that is more |
| `DdCopy.ReaderDoneBeforeReturn` | cmds/dd/dd.go:217-229 | Once the copy has returned, the reader can only close the queue: it neither reads nor reports |
| `DdCopy.BytewiseExpected` | cmds/dd/dd.go:97-117 | For a conversion that works byte by byte the expected output does not depend on the chunk sizes |
| `DdCopy.StuckExactly` | cmds/dd/dd.go:157-229 | A reachable state has no step left if and only if all is finished, the input is silent, or the writer has failed and the reader is blocked on a full queue |
| `DdCopy.DeadlockNeedsChunks` | cmds/dd/dd.go:159-221 | A hang needs at least depth + 2 chunks |
| `DdCopy.ChunksCauseDeadlock` | cmds/dd/dd.go:159-221 | With at least depth + 2 chunks some run hangs |
| `DdCopy.HangExactly` | cmds/dd/dd.go:159-221 | Some run hangs if and only if the input has at least depth + 2 chunks |
| `DdEnds.RunsEnd` | cmds/dd/dd.go:157-229 | No run is longer than six steps for each read, one for each output piece, and seven more |
| `DdEnds.CopyReturns` | cmds/dd/dd.go:157-229 | With an input that ends and has fewer than depth + 2 chunks, every run that can go no further has returned |
| `DdStream.LimitSaturates` | cmds/dd/dd.go:245-251 | The wrapped 64-bit sum of base and length becomes their sum, or the largest int64 when that overflows |
| `DdStream.SectionReader.constructor` | cmds/dd/dd.go:245-251 | Nothing is read yet, for any 64-bit offset and length |
| `DdStream.SectionReader.Read` | cmds/dd/dd.go:254-281 | A read delivers the next bytes of the section and never any past the limit, for any chunking of the source; an error comes only at the end of the section or of the input, and unless the stream paused it is that of the stream if and only if skipping runs into it or something is left to ask the stream for |
| `DdStream.ChunkedBuffer.constructor` | cmds/dd/dd.go:75-82 | A new buffer of its own with an empty chunk |
| `DdStream.ChunkedBuffer.ReadFrom` | cmds/dd/dd.go:85-94 | The buffer holds exactly the next piece of the section; no data means an error, an error comes only at the end of the section or of the input, and an error of the stream is passed on |
| `DdStream.ChunkedBuffer.WriteTo` | cmds/dd/dd.go:97-117 | The sink always gets a prefix of the converted chunk, and all of it when there is no error; the count is what it got, or 0 after a short write |
| `DdStream.WritePieces` | cmds/dd/dd.go:97-117 | The loop over output pieces: whole on success, a prefix on failure, and with a sink that takes everything success if and only if the conversion keeps the length of each piece |
| `DdStream.ReadScript` | cmds/dd/dd.go:185-203 | Reading to the first error yields chunks that join to exactly the section of the input, and the last read tells the end of the section from an error of the stream inside it |
| `DdStream.CopySection` | cmds/dd/dd.go:157-281 | End to end, for any 64-bit offset and length: the section reader is opened on a stream and read to its end, these reads are the script of the pipeline, and every run over them that returns without a write error has written and counted the bytewise conversion of input[offset .. min(offset + n, length)), or of a beginning of it when the stream paused; the result is a read error exactly when the reads met one |
| `Tcz.Installer.InstallAll` | cmds/tcz/tcz.go:317-323 | For every finite dependency graph, cyclic or not, the walk ends, and the packages it marks are the least set that holds the requests and is closed under effective dependencies; it fails only at a package in that set that is nowhere to be had; apart from the dep files of marked packages every file is as before or the server's |
| `Tcz.Installer.InstallPackage` | cmds/tcz/tcz.go:170-224 | One package: everything marked is forced by it, the new marks are closed when it succeeds, and dep files of packages marked before stay as they are |
| `Tcz.Installer.InstallEntries` | cmds/tcz/tcz.go:195-214 | The loop over the dep file visits exactly the effective entries and rebuilds their list |
| `Tcz.Installer.WriteBack` | cmds/tcz/tcz.go:215-222 | Rewriting the dep file leaves the dependency graph unchanged |
| `Tcz.Installer.InstallRequest` | cmds/tcz/tcz.go:317-323 | One more request turns the least closed set of the requests so far into that of one more |
| `Tcz.Installer.Fetch` | cmds/tcz/tcz.go:123-166 | A file already there is kept; otherwise it is the server's copy; failure means neither has it |
| `Tcz.RewriteKeepsEffective` | cmds/tcz/tcz.go:195-222 | A rewritten dep file has the effective dependency list of the original |
| `Tcz.RenderRoundTrip` | cmds/tcz/tcz.go:195-206 | Any list of plain, not ignored names is the effective list of its own file |
| `Tcz.BlankLineEnds` | cmds/tcz/tcz.go:195-205 | The effective list of names one to a line is those that are not ignored, up to a blank line and whatever follows it or to the end of the file; the last line needs no newline |
| `Tcz.KeptExactly` | cmds/tcz/tcz.go:202-205 | A name is kept if and only if it is listed and not ignored |
| `Tcz.FiniteUniverse` | cmds/tcz/tcz.go:170-224 | For every state of files and server a finite set holds the requests and is closed, which bounds the recursion |
| `RushPrint.PrintParseRoundTrip` | cmds/rush/parse.go:71-245 | Every command list the parser can produce, written down, parses back to the same arguments, redirections, links and background marks with status end of line, whatever follows it |
| `RushPrint.ExpressibleExactly` | cmds/rush/parse.go:71-245 | A list of commands is the meaning of some line of bytes if and only if its arguments are pieces of text a word or quotes can hold, its redirections are of descriptors 0 and 1, and every command but the last is linked or in the background |
| `RushLine.BlankInvisibleExactly` | cmds/rush/parse.go:175-245 | A space or tab in front of any line changes neither its commands nor what is left of the input, if and only if the line does not start with its end or with a quoted newline |
| `RushLine.TightRoundTrip` | cmds/rush/parse.go:71-245 | Commands with names, written without blanks in front of them, parse back to the same list if no name is a newline; otherwise the parser stops in front of such a command |
| `RushLine.LastLineRoundTrip` | cmds/rush/parse.go:71-245 | The same for a line that the end of the input ends |
| `RushItems.LineMeans` | cmds/rush/parse.go:158-225 | A line of words and redirections in any order, with any blanks between them and behind the signs, is one command: its arguments are the words in their order, and each stream is redirected to the target of the last sign for it |
| `RushLine.EscapeProtectsNothing` | cmds/rush/parse.go:71-156 | A backslash in front of any character but another backslash changes no token, word or quoted text |
| `RushLine.EscapedBackslash` | cmds/rush/parse.go:71-156 | A doubled one is a backslash in words and in quotes |
| `RushPrint.TokArg` | cmds/rush/parse.go:109-152 | Every such argument, in quotes or as a word and with backslashes doubled, is read back as one token |
| `RushPrint.ParsePrinted` | cmds/rush/parse.go:174-225 | One printed command is read back whole and stops where the next begins |
| `RushParse.TokShortens` | cmds/rush/parse.go:81-156 | Every token except the end, a link or a background mark uses up input, and none gives back more than it took |
| `RushHang.HangsExactly` | cmds/rush/parse.go:81-245 | Read character by character with the escape rule, the text decides whether the parser returns, panics, never returns, or asks for an environment variable first, in which case nothing more is said; all four are if and only if |
| `RushHang.LoneSignHangs` | cmds/rush/parse.go:122-140 | A lone pipe sign or ampersand is parsed again and again |
| `RushHang.OpenQuoteHangs` | cmds/rush/parse.go:109-116 | A quote that only a newline follows is read for ever |
| `RushHang.DoublePipeReturns` | cmds/rush/parse.go:122-140 | A doubled pipe sign at the end does not hang |
| `RushHang.PipeAsTargetPanics` | cmds/rush/parse.go:159-172 | A pipe sign where a redirection needs its target panics and does not hang |
| `RushScan.Scanner.ReadOne` | cmds/rush/parse.go:59-69 | Reads one byte or the end mark |
| `RushScan.Scanner.Pushback` | cmds/rush/parse.go:52-57 | Undoes the last read |
| `RushScan.Scanner.ReadNext` | cmds/rush/parse.go:71-79 | Refines the escape rule of the grammar |
| `RushScan.Scanner.ReadToken` | cmds/rush/parse.go:81-156 | The byte reader with push back refines the token grammar on every input, with its panics and endless loops |
| `RushScan.Scanner.ReadArg` | cmds/rush/parse.go:159-172 | Refines the grammar of a redirection target |
| `RushScan.Scanner.ReadString` | cmds/rush/parse.go:174-225 | Refines the grammar of a command |
| `RushScan.Scanner.ReadCommands` | cmds/rush/parse.go:232-245 | Refines the grammar of a command list, and reports exactly the inputs on which the loop never ends |
| `RushWire.Check` | cmds/rush/parse.go:259-272 | No rule is broken if and only if every command has arguments and every pipe leads to a next command with neither end redirected; otherwise the rule that the first bad command breaks, in the order of the rules and in the sense of its message |
| `RushWire.GetCommand` | cmds/rush/parse.go:247-274 | One line gives a list if and only if it parses and is accepted |
| `RushWire.Wiring.Connect` | cmds/rush/rush.go:53-92 | One command: its three streams get their endpoints, the next one at most a pipe, the others stay |
| `RushWire.Wiring.Wire` | cmds/rush/rush.go:53-92 | An accepted list is wired without running past its end and without a taken pipe end; it fails only when a file cannot be opened; a stream next to a pipe link leads to that pipe, a redirected one to the file of its name, and any other to the shell's own stream of the same number |
| `RushWire.RulesExactly` | cmds/rush/parse.go:259-272 | The rules on pipes hold if and only if the wiring gives every redirection its file and every pipe a reader |
| `RushWire.PipesJoin` | cmds/rush/rush.go:53-92 | In a wired list the output of one command and the input of another are the same pipe if and only if they are neighbours with a pipe link, so every pipe has one writer and one reader |
| `Ed.MakeLines` | cmds/ed/text.go:28-58 | The flag-driven loop yields the lines of the text |
| `Ed.LinesAreText` | cmds/ed/text.go:28-58 | The lines join to the text, each but the last ends in its only newline |
| `Ed.TextIsUnique` | cmds/ed/text.go:28-58 | There is only one such list of lines |
| `Ed.StartsExactly` | cmds/ed/text.go:64-90 | The line table holds a position if and only if a line starts there |
| `Ed.StartsIncrease` | cmds/ed/text.go:64-90 | The line table strictly increases |
| `Ed.StartsOfLines` | cmds/ed/text.go:28-90 | The table entry of a line is the length of the lines before it, so table and lines agree |
| `Ed.LinesConcatExactly` | cmds/ed/text.go:28-58 | The lines of a concatenation are those of its parts if and only if one part is empty or the first ends a line |
| `Ed.TextFile.constructor` | cmds/ed/text.go:312-322 | A new editor is empty, clean and consistent |
| `Ed.TextFile.FixLines` | cmds/ed/text.go:64-90 | The loop restores the invariant that the table is the line starts of the data, and moves dot into the file |
| `Ed.TextFile.SliceX` | cmds/ed/text.go:101-128 | For every start and any end line the offsets are ordered, in bounds, and cut the text at line boundaries |
| `Ed.HalfOpenExactly` | cmds/ed/text.go:101-128 | For addressed ranges the text cut out is that of the lines up to but not including the end line if and only if this is not the last line closing a longer range |
| `Ed.HalfOpenFails` | cmds/ed/text.go:101-128 | In a text of two lines the range from 1 up to 2 cuts out both |
| `Ed.Cut` | cmds/ed/text.go:101-128 | Parts between line boundaries join to the text |
| `Ed.LinesOfPart` | cmds/ed/text.go:101-133 | The lines of a slice are the slice of the lines |
| `Ed.TextFile.Replace` | cmds/ed/text.go:135-156 | Only the addressed span changes, the table is right again, and dot is brought inside the text |
| `Ed.SpliceLinesExactly` | cmds/ed/text.go:135-156 | After a replacement the lines are old lines, inserted lines, old lines if and only if the text before and the inserted text end lines where more follows |
| `Ed.SpliceFails` | cmds/ed/text.go:135-156 | Text put behind an unterminated line makes no new line |
| `Ed.TextFile.Read` | cmds/ed/text.go:158-173 | Reading a file inserts it after the start line when the end line is not behind that point or the point is the end of the text; otherwise it replaces the lines in between; dot stays, unless the text ends before it |
| `Ed.TextFile.Write` | cmds/ed/text.go:175-184 | Writes exactly the addressed part, or fails if and only if the range is out of bounds |
| `Ed.TextFile.Sub` | cmds/ed/text.go:207-262 | Text outside the span is unchanged, the lines inside are substituted, the file becomes dirty if and only if something matched, and dot stays inside the text |
| `Ed.TextFile.ReplaceMatches` | cmds/ed/text.go:222-248 | The loop over the matches of one line computes its substitution and marks the file when there is a match |
| `Ed.TextFile.ReplaceLines` | cmds/ed/text.go:217-249 | The loop over lines substitutes each of them |
| `Ed.SubLineMeans` | cmds/ed/text.go:222-248 | For any list of matches that do not overlap: with g every match is replaced, without it the first only, and all text between matches stays |
| `Ed.NoMatchNoChange` | cmds/ed/text.go:207-262 | Without a match the text is unchanged |
| `CpioInode.NumberInjective` | pkg/cpio/fs_unix.go:152-187 | Two files have the same number if and only if they are the same (device, inode) pair |
| `CpioInode.NumberOrder` | pkg/cpio/fs_unix.go:152-187 | Numbers follow the order of first occurrence |
| `CpioInode.NumberDense` | pkg/cpio/fs_unix.go:152-187 | Every number below the count of different pairs is used |
| `CpioInode.Reproducible` | pkg/cpio/fs_unix.go:152-187 | Two runs whose pairs are equal in the same places get the same numbers and repeats |
| `CpioInode.WrappedNumbersInjective` | pkg/cpio/fs_unix.go:152-187 | With at most 2^64 different files the 64-bit numbers are different exactly for different files |
| `NewcArchive.KeptApartExactly` | pkg/cpio/newc/newc.go:39-54 | The inode numbers stored for renumbered files are different exactly for different files if and only if there are at most 2^32 different files |
| `NewcArchive.RenumberedIsNumbered` | pkg/cpio/fs_unix.go:173-187 | The records of a run of the renumberer carry the numbers of their files |
| `CpioInode.Renumberer.Inode` | pkg/cpio/fs_unix.go:173-187 | The map and the 64-bit counter give each file its number and no device, and `done` is true exactly for a repeat |
| `CpioInode.RenumberAll` | pkg/cpio/fs_unix.go:173-187 | A whole run gives every file the number of its pair |
| `CpioPaths.RelativeKeepsPath` | pkg/cpio/cpio.go:88-98 | An absolute name of plain parts is written with all of its parts, without the slash in front |
| `CpioPaths.DotChangesNothing` | pkg/cpio/cpio.go:88-98 | An empty part or a dot anywhere in an absolute name changes nothing |
| `CpioPaths.TwoDotsGoUp` | pkg/cpio/cpio.go:88-98 | Two dots in an absolute name remove the part before them |
| `CpioPaths.TwoDotsAtRoot` | pkg/cpio/cpio.go:88-98 | At the root they remove nothing |
| `CpioPaths.RelativeIsNotAbsolute` | pkg/cpio/cpio.go:88-98 | The name made relative to the root is never absolute, and making it relative again changes nothing |
| `CpioPaths.SameNameExactly` | pkg/cpio/cpio.go:88-103 | Two absolute names are taken for the same record if and only if they resolve to the same parts |
| `CpioRecords.DedupKeepsFirsts` | pkg/cpio/cpio.go:100-104 | What is written is, in order, the records at the first occurrences of their names |
| `CpioRecords.FirstsExactly` | pkg/cpio/cpio.go:100-104 | The places kept are exactly those of first occurrences, in increasing order |
| `CpioRecords.DedupNames` | pkg/cpio/cpio.go:100-104 | The written names are pairwise different and are all the names given |
| `CpioRecords.Writer.WriteRecord` | pkg/cpio/cpio.go:88-105 | The log stays the first occurrences of all records given, under relative names and otherwise unchanged |
| `CpioRecords.Writer.WriteTrailer` | pkg/cpio/cpio.go:118-120 | The trailer is one more record |
| `CpioRecords.Writer.Concat` | pkg/cpio/cpio.go:123-140 | Adds the transformed members of the other archive, and not its trailer |
| `CpioRecords.Reader.ReadRecord` | pkg/cpio/cpio.go:53-63 | The next record; the trailer and the end of the data are the end of the archive |
| `CpioRecords.Reader.ReadRecords` | pkg/cpio/cpio.go:65-77 | All records before the first trailer, or an error exactly when an unreadable entry comes first |
| `CpioRecords.MembersExactly` | pkg/cpio/cpio.go:53-77 | The members are the records in front of the first trailer or unreadable entry |
| `CpioRecords.ReadableExactly` | pkg/cpio/cpio.go:53-77 | An archive is readable if and only if a trailer stands in front of every unreadable entry |
| `CpioRecords.FinishedArchive` | pkg/cpio/cpio.go:53-140 | After any writes and a trailer, reading gives the first occurrences among what was given before a record with the trailer's name, and without such a record the trailer is last and single |
| `CpioRecords.ArchiveComplete` | pkg/cpio/cpio.go:53-140 | Reading gives the first occurrences of everything given if and only if no record had the trailer's name |
| `CpioRecords.TrailerNameLoses` | pkg/cpio/cpio.go:58-61 | After a first record with the trailer's name, whatever its content, reading gives nothing |
| `Newc.HexRoundTrip` | pkg/cpio/newc/newc.go:124-136 | Fixed-width hexadecimal numbers read back, for every width |
| `Newc.WordsRoundTrip` | pkg/cpio/newc/newc.go:39-70 | Header numbers read back as their 32-bit values |
| `Newc.NewcWriter.WritePad` | pkg/cpio/newc/newc.go:100-108 | Zero bytes up to the next multiple of four |
| `Newc.NewcWriter.WriteRecord` | pkg/cpio/newc/newc.go:112-167 | Appends the aligned encoding of the record at the current position; a record without a reader has size 0 and no content |
| `Newc.NewcReader.ReadRecord` | pkg/cpio/newc/newc.go:197-235 | Refines decoding at a position on every input: end of data, bad magic, bad digits, a name length of zero, or a record |
| `Newc.DecodeEncode` | pkg/cpio/newc/newc.go:112-235 | An encoded record at any position of any data decodes to what it stores, with the reader at the next record, if and only if the length of its name is 32-bit and its size cut to 32 bits is the length of its content |
| `NewcLayout.EncodeLayout` | pkg/cpio/newc/newc.go:24-167 | Every byte of a written record: the magic, each header number as upper-case digits at its place, a checksum of zero, the name with a zero byte, zero padding to a multiple of four, the content and its zero padding |
| `NewcDecode.DecodeExactly` | pkg/cpio/newc/newc.go:197-235 | For any data and position: malformed if and only if a whole header stands there without the magic or with a character that is no hexadecimal digit, the end if and only if the header or the name is cut off, a panic if and only if the name length is 0; otherwise a record with each number from its place, the name, and as much of the content as there is |
| `NewcDecode.CaseDoesNotMatter` | pkg/cpio/newc/newc.go:211-214 | Digits that differ only in case spell the same number |
| `NewcArchive.WriteAll` | pkg/cpio/cpio.go:108-115 | Writing records one by one with the format's writer lays them out |
| `NewcArchive.ReadArchive` | pkg/cpio/cpio.go:65-77 | Reading an archive from any bytes gives all records before the first trailer or the end, or fails exactly when a malformed record comes first |
| `NewcArchive.EntriesOfLayout` | pkg/cpio/newc/newc.go:112-235 | Of laid out records, the last of which fits, exactly these are found if and only if all of them fit |
| `NewcArchive.ArchiveRoundTrip` | pkg/cpio/cpio.go:53-140 | From records to bytes and back: after any writes and a trailer, the bytes of the archive read back as the stored form of the first occurrences before a record with the trailer's name, if and only if these fit |
| `Wc.InvalidCount` | cmds/wc/wc.go:67-84 | Counts the bytes that start no rune |
| `Wc.Count` | cmds/wc/wc.go:86-109 | For every file the counts taken line by line are those of one pass over the whole file, with as many lines as newlines; a read error gives no counts |
| `Wc.SplitAtNewline` | cmds/wc/wc.go:86-109 | Runes, broken runes and words of a file are the sums of those on both sides of any line break |
| `Wc.CleanExactly` | cmds/wc/wc.go:67-84 | A file has no broken rune if and only if it is a sequence of UTF-8 encodings of scalar values, and then the rune count is their number |
| `WcWords.WordsAreFields` | cmds/wc/wc.go:86-109 | However the decoded text is split into fields of runes that are not white space with white space between them, the word count of the file is the number of fields; every text can be split so |
| `WcWords.DecodedText` | cmds/wc/wc.go:86-109 | UTF-8 text decodes to its code points |
| `Wc.CountsInOrder` | cmds/wc/wc.go:86-109 | Broken runes are at most the runes, these at most the bytes, and these at most four times the runes |
| `CommFiles.Reader` | cmds/comm/comm.go:49-60 | Yields the trimmed lines of the file |
| `CommFiles.ReadsLines` | cmds/comm/comm.go:49-60 | Every file is read as its lines without carriage returns at their ends, and then what follows the last newline, which is an empty line when nothing does |
| `CommFiles.FileHasLines` | cmds/comm/comm.go:49-60 | Every file is such lines and what follows them |
| `Comm.Outer` | cmds/comm/comm.go:66-94 | The loop over two channels ends and emits the merge |
| `Comm.ColumnsSpellStreams` | cmds/comm/comm.go:66-94 | Columns 1 and 3 spell the first stream and columns 2 and 3 the second, for all streams |
| `CommFiles.StreamSortedExactly` | cmds/comm/comm.go:49-60 | The stream of a file is sorted if and only if its trimmed lines are and none is above what follows the last newline; after a final newline that means all of them are empty |
| `CommFiles.SortedFileUnsortedStream` | cmds/comm/comm.go:49-60 | The stream of a sorted file of two lines is not sorted |
| `CommFiles.VisibleColumns` | cmds/comm/comm.go:66-139 | For streams whose lines that are not empty are sorted, what shows is sorted, spells both streams, and holds each line in column 3 as often as both do |
| `CommFiles.SortedFiles` | cmds/comm/comm.go:49-94 | For two files whose trimmed lines are sorted, with or without a final newline: what shows is sorted, columns 1 and 3 spell the first file and 2 and 3 the second, and column 3 holds each line as often as both files do, empty lines apart |
| `Comm.EmptyLinesVanish` | cmds/comm/comm.go:66-139 | What shows is the merge of the lines that are not empty, for all streams |
| `CommFiles.Print` | cmds/comm/comm.go:120-141 | Prints the rows of the entries under the suppression flags |
| `CommFiles.RowsExactly` | cmds/comm/comm.go:120-141 | The rows are those of the visible entries whose column is not suppressed, in order, for all lines |
| `CommFiles.UnmarkExactly` | cmds/comm/comm.go:126-139 | A row shows its line and column if and only if the line does not end in a tab, and does not start with one unless it is in column 3 |
| `CommFiles.TabGarbles` | cmds/comm/comm.go:126-139 | A line of column 1 that starts with a tab is printed as the row of a line in column 2 |
| `CommFiles.PrintedExactly` | cmds/comm/comm.go:66-141 | The printed rows are those of the merge of the lines that are not empty; the merge can be read back from them if and only if no tab is in the way, and without flags it gives back both streams up to empty lines |
| `CommFiles.PrintedFiles` | cmds/comm/comm.go:49-141 | The rows printed for two sorted files are those of a sorted list of entries that holds each common line in column 3 as often as both files have it, or not at all when that column is suppressed |
| `FieldLex.Lexer.ScanToken` | cmds/field/field.go:252-311 | The rune by rune scanner with its start, position and width refines the token grammar |
| `FieldLex.ScanAdvances` | cmds/field/field.go:252-286 | A token is a piece of the input and is empty only at the end |
| `FieldLex.LexLossless` | cmds/field/field.go:252-286 | The texts of the tokens make up the input |
| `FieldLex.LexExactly` | cmds/field/field.go:252-286 | A string lexes to a token list if and only if the list is well formed, with no two numbers or spaces in a row, and its texts make up the string |
| `FieldLex.Lexer.Next` | cmds/field/field.go:246-250 | Gives the current token and moves one token on, failing only when a lexical error lies ahead |
| `Field.ParseNum` | cmds/field/field.go:183-204 | Refines the grammar of signed numbers |
| `Field.ParseField` | cmds/field/field.go:174-181 | Refines the grammar of fields, NF among them |
| `Field.ParseRange` | cmds/field/field.go:150-172 | Refines the grammar of ranges with open ends |
| `Field.ParseRanges` | cmds/field/field.go:125-148 | For every input string the lexing loop returns the ranges of the grammar, or fails exactly when the string has none |
| `FieldMeans.MeansExactly` | cmds/field/field.go:112-204 | A string means a list of ranges if and only if it consists of tokens and these are ranges of the forms n, n-, n-m, n-NF and NF with a comma, a bar or white space between them and white space in front |
| `FieldMeans.AtoiExactly` | cmds/field/field.go:189-203 | Digits mean the number they spell, cut at 2^63 - 1 |
| `FieldMeans.AtoiBeyond` | cmds/field/field.go:189-203 | Digits with one beyond ASCII among them mean 0, or 2^63 - 1 when those before it do not fit in 64 bits |
| `Field.PrintParse` | cmds/field/field.go:125-204 | Every list of ranges, with negative numbers, open ends and NF, written with any delimiters, parses back to itself |
| `Field.ExpressibleExactly` | cmds/field/field.go:125-204 | A list of ranges is the meaning of some string if and only if it is not empty and its numbers are at most 2^63 - 1 in size |

## Left out

- cp: directory walking, prompts, flags and file modes, and the overflow of 64-bit offsets beyond 2^63 bytes.
- dd: argument conversion, progress printing, seeking in named files, and a writer that reports fewer bytes written than it took without an error.
- tcz: HTTP, loop mounts, and failures to write a local file.
- rush: a line that asks for an environment variable is an outcome of the parser of its own, and what the file then makes of it is not modelled; globbing, execution and builtins.
- ed: the regular expression engine is a list of matches per line; the p option, printing and the command line.
- cpio: creating files, file modes, archive names, failures of the underlying writer, and a data source that reports the end together with the last bytes it delivers.
- wc: 64-bit overflow of the counts, flags and report.
- comm: usage and opening of files.
- field: the selection and printing of fields, regular expression splitting; the input is a string of runes, and the decimal digits beyond ASCII are a parameter.
- The other commands of the repository, among them network tools, mounts, device control and the Go build tools.
