# Smultron: a verified model

Smultron is a small single-core operating system: a kernel with a process table, an ELF
loader, a RAM file overlay, a text screen and a frame allocator, and a shell with pipelines
and a handful of stream programs. Everything in it works on bounded buffers that loops fill
in place. This project models those kernels in Dafny and proves them against unbounded
specifications.

Every imperative part has three layers. A specification function says what is computed,
without buffers or limits where the source has them. A method follows the source's own loops,
arrays and fields and is proved equal to that function, limits included. Lemmas prove what
the system promises about the function: round trips, invariants over every run, isolation,
conservation, and what its results are in terms that do not mention it: a grammar for lines,
stages, scripts and object files, and what files read as afterwards. All byte strings are sequences of a `Byte` newtype; text is ASCII.

| file | what it models |
|---|---|
| `Bytes.dfy`, `AsciiText.dfy` | bytes, bounded copies, splitting at a separator, C strings, white space |
| `ShellLexer.dfy` | the tokenizer, a recursive four-mode lexer, a printer it inverts |
| `ShellGrammar.dfy`, `Escapes.dfy` | the lines the shell reads, written as a grammar: which bytes may stand where, however they are quoted |
| `ShellEnv.dfy`, `ShellExpand.dfy`, `CommandLine.dfy` | environment table, child lookup of CWD, expansion, the way of a typed line to tokens |
| `Builtins.dfy` | `cd` and `export` |
| `ShellStages.dfy` | stage splitting, redirections, argument strings |
| `StreamIo.dfy`, `NestedIo.dfy` | redirected input and output of one exec call, and of exec calls inside others |
| `StreamPrograms.dfy` | `cat`, `tee` and `sed` on redirected input, `cat` with a file, and the exec call around them |
| `Pipeline.dfy` | what a pipeline does, on values |
| `Filters.dfy`, `LineEnds.dfy` | stages that can be put in between without effect, and what they do at the end of a line |
| `Machines.dfy`, `PipelineRunner.dfy` | which program an exec call starts; the pipeline loop over the real buffers |
| `Shell.dfy` | typed lines, one after the other, and their effects |
| `TypedLines.dfy` | what typing a line comes to: its tokens, where `cd` leads, what `export` sets, what `cat` shows |
| `Sed.dfy` | substitution and script syntax |
| `RamFiles.dfy`, `DirListing.dfy` | file overlay, directory listing and its decoder in `ls` |
| `ProcessTable.dfy`, `ElfLoader.dfy`, `ExecIsolation.dfy` | process records and slots, image check and load, nested execution |
| `ElfFormat.dfy` | the headers of an object file as the System V gABI lays them out (chapter 4, "ELF Header"; chapter 5, "Program Header") |
| `Screen.dfy`, `FrameAllocator.dfy` | scrolling text grid, boot frame allocator |

`dafny verify dfyconfig.toml` checks the whole project.

Results where the code falls short of what one might expect, each with its exact condition
and an input that shows it:

- With the pid counter at its end, finishing an inner process frees the slot of the outer
  one. `ProcessTable.FinishUndoesSpawn` gives the exact condition under which a finish undoes
  its spawn, `ProcessTable.UnsaturatedFinishUndoesSpawn` says that it holds in every table
  reached before the counter is at its end, and `ProcessTable.SaturatedFinishFreesOuter`
  gives a run that gets there and fails.
- `export CWD=` makes the shell index an empty directory at its last byte when the next
  relative redirection is resolved: `PipelineRunner.ResolvePathInto` says exactly when the
  index misses, `Shell.EmptyCwdCrashes` gives the two lines that do it.
- A sed script with a backslash delimiter never parses, whatever it holds
  (`Sed.BackslashNeverParses`): `Sed.ScriptRoundTrip` states for which scripts printing and
  parsing round-trip, and that all others are refused.
- The directory listing skips a name that does not fit but still takes a later shorter one
  (`DirListing.LongNameIsSkipped`, and `DirListing.ShippedRootListing` for the built-in
  files); it is complete exactly when everything fits (`DirListing.FittingIsComplete`).
- The kernel has one redirection state, and an exec call ends with it switched off for
  whoever made it. A caller keeps its redirection exactly when it had none
  (`NestedIo.ExecNested`), and a captured program that executes another one loses its
  captured output (`NestedIo.CaptureNeedsNoExec`, `NestedIo.RedirectedCallerLosesOutput`).
  This is a property of the kernel's interface: the only shipped program that executes others
  is the shell, which is started without redirection and cannot be started again.
- Single quotes do not stop the expansion of variables: `CommandLine.PrintedCommandExpands`
  says what a quoted word becomes, `CommandLine.PrintedCommandReadsExactly` which printed
  lines come back as they were.
- "| cat" at the end of a line with output shows what the line alone shows exactly when the
  writes of the last program pass a pipe whole (`LineEnds.AppendFilter`,
  `StreamIo.LateThenCapture`): they fit 4096 bytes, or some first writes fill these exactly
  and may change places with the others. `cat f | cat` on a file of at least 4096 bytes, of
  which the first and the 4096th are no line ends, shows the line end that cat adds before
  the file (`Shell.CatThroughCatReorders`).

The shell itself runs without redirection. Before its first exec call the kernel's redirection
state is still marked active, because the kernel starts the shell by an exec call; the
shell's methods ask only that neither input nor output is redirected (`StreamIo.IoState.Quiet`).

## Model

| member | source | states |
|---|---|---|
| ShellLexer.TokenizeCommand | userspace/apps/init/src/lib.rs:540-671 | for every line the bounded loop gives the verdict of the lexer with the two limits, the error that comes first included, and on success its tokens; token records and shared buffer are determined by these tokens. What the lexer makes of a line is ShellGrammar.LineReads |
| ShellLexer.AnswerMeansTokenize | userspace/apps/init/src/lib.rs:540-699 | on every line loop and reference agree on acceptance and error, and the stored slices read back as the tokens |
| ShellLexer.ShortLineFits | userspace/apps/init/src/lib.rs:230-246 | lines of at most 512 bytes, which is what the shell passes, are never too long |
| ShellLexer.LayoutDenotes | userspace/apps/init/src/lib.rs:697-699 | the consecutive word slices cut the words out of any buffer that starts with them, whatever is behind |
| ShellLexer.BlankBytes | userspace/apps/init/src/lib.rs:554-652 | the words of a line hold no more bytes than the line |
| ShellLexer.PrintedReads | userspace/apps/init/src/lib.rs:554-652 | lexing the printed form of any token list gives the list back, empty words and words with spaces, operators, backslashes and quotes included |
| ShellLexer.TokenizePrinted | userspace/apps/init/src/lib.rs:540-671 | the round trip with the limits: the list comes back exactly when it has at most 64 tokens and its words at most 512 bytes, and otherwise the limit that is passed first is reported |
| ShellLexer.BoundedPrintedReads | userspace/apps/init/src/lib.rs:540-699 | on a printed list the records and the buffer of the bounded tokenizer denote that list, exactly when both limits hold |
| ShellGrammar.LineReads | userspace/apps/init/src/lib.rs:554-671 | however the bytes of a line are quoted (bare, behind a backslash, in single or in double quotes with escapes, mixed inside one word), and wherever blanks and operators stand, directly next to words too, the lexer reads the tokens the line means, or the quote or backslash it breaks off in |
| ShellGrammar.EveryLine | userspace/apps/init/src/lib.rs:554-652 | every line is one of that grammar |
| ShellGrammar.LexMeans | userspace/apps/init/src/lib.rs:554-671 | so the grammar alone determines the answer of the lexer for every line |
| ShellGrammar.TokenizerMeans | userspace/apps/init/src/lib.rs:540-699 | records and buffer of the bounded tokenizer denote what a line of the grammar means, exactly when it is whole, of at most 64 tokens and with words of at most 512 bytes; otherwise the error says what is wrong |
| ShellLexer.PushChar | userspace/apps/init/src/lib.rs:673-680 | a byte is appended, or the buffer is full and unchanged |
| ShellLexer.PushToken | userspace/apps/init/src/lib.rs:682-695 | a record is appended, or the array is full and unchanged |
| ShellLexer.StoreSeparator | userspace/apps/init/src/lib.rs:591-641 | a blank or operator outside quotes closes the open word before it, and the loop stays in step with the lexer |
| ShellLexer.FinishLine | userspace/apps/init/src/lib.rs:654-670 | the three tests behind the loop give the verdict of the lexer at the end of the line |
| CommandLine.ParseLine | userspace/apps/init/src/lib.rs:224-257 | a typed line becomes the tokens of its trimmed, expanded, trimmed text cut at 512 bytes; the environment is unchanged |
| CommandLine.PrintedCommandReads | userspace/apps/init/src/lib.rs:224-257 | typing a printed token list in which no dollar has a name behind it yields exactly that list, whatever the variables hold |
| CommandLine.PrintedCommandReadsExactly | userspace/apps/init/src/lib.rs:224-257 | that condition is exact: with a reference in some word the list does not come back, already in the environment the shell starts with |
| CommandLine.PrintedCommandExpands | userspace/apps/init/src/lib.rs:173-257 | a printed list whose references stand for values without single quotes comes back with every reference in its words replaced, inside single quotes too, and blanks or operators in a value stay in the word |
| CommandLine.CommandClean | userspace/apps/init/src/lib.rs:224-257 | the words the shell reads hold no line end and no NUL when neither the line nor a value does |
| TypedLines.TypedLine | userspace/apps/init/src/lib.rs:224-257 | a typed line without references, with any white space around it, is read as the grammar means it, or refused for the reason the grammar gives |
| TypedLines.TypedWords | userspace/apps/init/src/lib.rs:224-257 | plain words with single spaces between them are read as they are typed, and so is a line that expands to them |
| AsciiText.TrimSpaces | userspace/apps/init/src/lib.rs:224-237 | trimming takes away the white space at both ends of a text and nothing else |
| Builtins.SetCwd | userspace/apps/init/src/lib.rs:726-766 | cd over its 128-byte buffer sets CWD to the trimmed argument behind the old directory, unless it is absolute, without a slash at the end |
| Builtins.RunBuiltin | userspace/apps/init/src/lib.rs:286-324 | cd and export change the environment as the specification says, and no other builtin changes it |
| Builtins.CdStaysAbsolute | userspace/apps/init/src/lib.rs:726-766 | from an absolute directory cd leads to an absolute one |
| TypedLines.CdLeads | userspace/apps/init/src/lib.rs:726-766 | cd d makes CWD the directory d, seen from the old one, without a slash at its end, exactly when that has at most 64 bytes, the size of a variable; otherwise CWD stays, and all other variables do |
| TypedLines.CdThenFile | userspace/apps/init/src/lib.rs:726-830 | behind cd d a relative name f means what d/f meant before |
| TypedLines.CdThenCat | userspace/apps/init/src/lib.rs:726-860 | cd d and then cat f show what cat d/f shows |
| TypedLines.ExportSets | userspace/apps/init/src/lib.rs:309-316 | behind export k=v the variable reads as v and all others as before, exactly when the sizes fit and the name is there or an entry is free; otherwise nothing changes |
| TypedLines.ExportThenUse | userspace/apps/init/src/lib.rs:173-257 | behind export k=v the line "cmd $k" is read as "cmd v" |
| TypedLines.EnvShows | userspace/apps/init/src/lib.rs:303-308 | env shows the variables in order, all of them exactly when their lines have at most 511 bytes |
| CommandLine.PrintedRefFree | userspace/apps/init/src/lib.rs:190-220 | printing neither makes nor hides a reference |
| ShellExpand.ExpandLine | userspace/apps/init/src/lib.rs:185-222 | the buffer holds exactly as much of the unbounded expansion as fits, for every capacity |
| ShellExpand.ExpandLoop | userspace/apps/init/src/lib.rs:190-220 | the single pass terminates and writes the expansion from left to right |
| ShellExpand.ScanName | userspace/apps/init/src/lib.rs:192-196 | the longest name behind a dollar is found |
| ShellExpand.ExpandIdentity | userspace/apps/init/src/lib.rs:213-219 | a line in which no dollar has a name behind it expands to itself |
| ShellExpand.ExpandIdentityExactly | userspace/apps/init/src/lib.rs:190-220 | only such lines expand to themselves whatever the variables hold |
| ShellExpand.ExpandReference | userspace/apps/init/src/lib.rs:191-212 | a reference becomes the value as it is, without expanding it again, and an unset name vanishes |
| ShellExpand.ExpandConcat | userspace/apps/init/src/lib.rs:185-222 | expansion distributes over concatenation unless a name runs over the seam |
| ShellEnv.EnvTable.SetEnv | userspace/apps/init/src/lib.rs:109-140 | the table after the call is the map update of the table before, with the same refusals |
| ShellEnv.EnvTable.GetEnv | userspace/apps/init/src/lib.rs:173-183 | the lookup answers the first entry of that name |
| ShellEnv.EnvTable.BuildEnvStr | userspace/apps/init/src/lib.rs:142-171 | the buffer holds the NAME=value lines cut before the first one that does not fit, then NULs |
| ShellEnv.EnvTextMeans | userspace/apps/init/src/lib.rs:142-171 | the text are as many NAME=value lines from the front as 511 bytes hold |
| ShellEnv.GetAfterSet | userspace/apps/init/src/lib.rs:109-183 | an accepted value is read back and every other variable keeps its value |
| ShellEnv.RunKeepsInv | userspace/apps/init/src/lib.rs:59-73 | over every run of assignments names stay unique, CWD stays in entry 0, and it holds the last accepted value |
| ShellEnv.ChildCwd | userspace/apps/cat/src/main.rs:12-20 | the child's loop finds the first CWD line of its environment, else "/" |
| ShellEnv.ChildFindsCwd | userspace/apps/cat/src/main.rs:12-20 | the child finds the value of entry 0 in the C string of the environment text, even when later variables are cut off |
| ShellEnv.ChildSeesShellCwd | userspace/apps/init/src/lib.rs:142-183 | over every run with newline- and NUL-free values the child sees the shell's current CWD |
| ShellStages.SplitStages | userspace/apps/init/src/lib.rs:332-355 | the recorded ranges are exactly the maximal pipe-free pieces, or the first limit or empty-stage error in reading order |
| ShellStages.SplitStagesHoldNoPipe | userspace/apps/init/src/lib.rs:489-492 | no stage holds a pipe and joining the stages with pipes gives the token list, so the pipe case of the stage parser is unreachable |
| Bytes.SplitJoin | userspace/apps/init/src/lib.rs:337-355 | joining separator-free pieces and splitting again gives the same pieces |
| ShellStages.ReadStage | userspace/apps/init/src/lib.rs:450-538 | a stage is accepted exactly when its words and files are well formed and fit, with that command, argument string and files |
| ShellStages.StageMeans | userspace/apps/init/src/lib.rs:450-538 | a stage is any sequence of words and of files behind < and >: the first word is the command, the others are its arguments, with at most 32 words, 191 bytes of arguments and one file of each kind, and none where it is not allowed |
| ShellStages.NotAStage | userspace/apps/init/src/lib.rs:463-503 | nothing else is a stage |
| ShellStages.CollectParts | userspace/apps/init/src/lib.rs:457-503 | the first loop sorts the tokens into words and at most one file for each permitted direction, and gives up only on stages that have no meaning |
| ShellStages.MoveRedirect | userspace/apps/init/src/lib.rs:463-503 | moving a redirection with its file past a word changes neither acceptance nor command, arguments or files |
| ShellStages.PartsConcat | userspace/apps/init/src/lib.rs:463-503 | the parts of a stage are the parts of its well-formed beginning followed by those of the rest |
| ShellStages.JoinWordTokens | userspace/apps/init/src/lib.rs:701-724 | the argument string exists exactly when all tokens are words and the join has at most 191 bytes |
| ShellStages.ArgsAppend | userspace/apps/init/src/lib.rs:709-720 | one word more adds a space and the word, but no space while everything before is empty |
| AsciiText.FieldsOfJoined | userspace/apps/tee/src/lib.rs:10-17 | space-free non-empty words joined by spaces split into the same words at white space |
| AsciiText.FieldsOfSpaced | userspace/apps/tee/src/lib.rs:10-17 | whatever white space stands before, between and behind non-empty words, the fields are these words |
| StreamIo.IoState.Begin | kernel/src/process.rs:174-188 | an exec call stages the first 4096 bytes of input and an empty capture |
| StreamIo.IoState.End | kernel/src/process.rs:192-208 | the capture is handed out as far as the caller's buffer goes and redirection is off |
| NestedIo.ExecNested | kernel/src/process.rs:167-209 | an exec call made under any redirection, around any inner run with exec calls of its own: the fixed buffers end up as on values, and the caller keeps its redirection exactly when it had none |
| NestedIo.ExecKeepsRedirection | kernel/src/process.rs:167-209 | the same on values: redirection survives an exec call exactly when there was none |
| NestedIo.Perform | kernel/src/process.rs:167-237 | any nesting of reads, writes and exec calls does to the redirection state what it does on values |
| NestedIo.CaptureNeedsNoExec | kernel/src/process.rs:192-208 | a captured program hands back the first 4096 bytes of its own writes exactly when it executes nothing or writes nothing, and otherwise nothing |
| NestedIo.RedirectedCallerLosesOutput | kernel/src/process.rs:192-208 | a failing run: of two captured bytes with an exec call between them none comes back and the second is on the console |
| StreamIo.IoState.TakeStdinByte | kernel/src/process.rs:211-222 | redirected input is taken byte by byte from the front; otherwise it is unavailable |
| StreamIo.IoState.Read | kernel/src/syscall.rs:50-79 | a redirected read returns the next bytes of the input, short only at its end, and removes exactly them |
| StreamIo.IoState.CaptureStdout | kernel/src/process.rs:224-237 | a write is captured as far as there is room, and is refused only by a full or absent capture |
| StreamIo.IoState.Write | kernel/src/syscall.rs:81-101 | a write goes to the capture or, whole, to the console |
| StreamIo.CaptureIsPrefix | kernel/src/process.rs:224-237 | however output is cut into writes, the capture is its first 4096 bytes |
| StreamIo.ConsoleOnlyWhenFull | kernel/src/syscall.rs:92-99 | output that fits the capture puts nothing on the console |
| StreamIo.LateIsShown | kernel/src/process.rs:224-237 | what reaches the console of a captured program are the writes made once the capture is full, and no others |
| StreamIo.LateThenCapture | kernel/src/process.rs:224-237 | those late bytes followed by the capture are the output exactly when the output fits 4096 bytes or some first writes fill them exactly and may change places with the others |
| StreamIo.LineEndComesFirst | kernel/src/process.rs:224-237 | 4096 bytes and then a line end are an output for which they are not |
| StreamIo.UncapturedIsShown | kernel/src/syscall.rs:92-99 | without a capture the console shows the whole output in order |
| StreamIo.ChunksConserve | userspace/apps/cat/src/lib.rs:7-14 | reading in chunks neither loses, repeats nor reorders bytes |
| StreamPrograms.Cat | userspace/apps/cat/src/lib.rs:6-15 | cat writes its whole input in chunks of 256 and leaves none |
| StreamPrograms.Tee | userspace/apps/tee/src/lib.rs:6-52 | tee writes its whole input in chunks of 256, then the first 4096 bytes to every file the library and kernel accept, reporting the others |
| StreamPrograms.TeeStream | userspace/apps/tee/src/lib.rs:19-41 | the chunk loop passes everything on and keeps the first 4096 bytes |
| StreamPrograms.SedStdin | userspace/apps/sed/src/lib.rs:50-76 | sed writes one substitution for every 4096 bytes of input |
| StreamPrograms.CatFile | userspace/apps/cat/src/lib.rs:19-90 | cat with a file shows its first 4096 bytes and adds a line end if there is none, or says why it cannot |
| StreamPrograms.LibWriteFile | userspace/libos/src/lib.rs:228-254 | a path of 128 bytes or more is refused before the kernel is asked |
| StreamPrograms.ExecWithIo | kernel/src/process.rs:167-209 | an exec call with or without input and capture, of cat, tee, sed or a given list of writes, refused ones included: status, files, console and the first 4096 bytes of the output cut to the caller's buffer |
| StreamPrograms.PerformEffects | kernel/src/syscall.rs:81-101 | any list of write and file-write calls goes through the capture and the file table as on values |
| StreamPrograms.TeeKeepsStream | userspace/apps/tee/src/lib.rs:6-52 | tee f, for f no built-in file and with room in the table, passes its input on and leaves f reading exactly that input |
| StreamPrograms.TeeWritesAll | userspace/apps/tee/src/lib.rs:6-52 | tee with up to sixteen files: the input is passed on, every file that is not reported then reads as its first 4096 bytes, every other file as before, and nothing is reported when all names are valid and have room |
| StreamPrograms.TeeFilesMean | userspace/apps/tee/src/lib.rs:43-51 | each of several files reads as the stream afterwards or is reported; all of them read as it when nothing is |
| StreamPrograms.ShownMeans | userspace/apps/cat/src/lib.rs:28-40 | cat shows the first 4096 bytes of a file of any length, and a line end behind them if there is none |
| TypedLines.CatShowsFile | userspace/apps/cat/src/lib.rs:19-90 | cat f in a session shows f, looked for in the working directory of the shell, which it finds in its environment, or says why it cannot |
| StreamPrograms.SedIsOneSubstitution | userspace/apps/sed/src/lib.rs:57-75 | a pipe is at most one read, so sed on it is one substitution |
| StreamPrograms.SedUndone | userspace/apps/sed/src/lib.rs:111-142 | s/p/x/g and then s/x/p/g returns the input, for a byte x it does not hold |
| PipelineRunner.DispatchCompoundTokens | userspace/apps/init/src/lib.rs:328-448 | the runner over its shared buffers, the kernel's redirection buffers and the file table has the outcome of the stages run one after the other on values: same files, console, last pipe and reason to stop |
| PipelineRunner.RunOneStage | userspace/apps/init/src/lib.rs:358-445 | one iteration: parse, input file, exec call, capture into the pipe or output file |
| PipelineRunner.ExecFromBinIo | userspace/apps/init/src/lib.rs:837-860 | the exec call runs through the redirection state: the first 4096 bytes of the program's writes are in the buffer, if one is given, what the capture lets through is on the console, and the files are those the program leaves |
| PipelineRunner.ResolvePathInto | userspace/apps/init/src/lib.rs:772-830 | the path in the 128-byte buffer is that of the specification, and the index of the last byte of CWD misses exactly for a relative path under an empty CWD |
| PipelineRunner.LoadInput | userspace/apps/init/src/lib.rs:378-402 | the input file of the first stage is in the pipe buffer, cut to it, or the stage stops with the buffer unchanged |
| PipelineRunner.StoreOutput | userspace/apps/init/src/lib.rs:427-441 | the file table afterwards is that of a write of the capture to the resolved path, or the stage stops with the same reason as on values. What the file then reads as is LineEnds.FileHoldsOutput |
| LineEnds.FileHoldsOutput | userspace/apps/init/src/lib.rs:427-441 | a line with an output file finishes exactly when the line itself does and the file can be written then; the file, if it is no built-in one, then reads as the first 4096 bytes of what the last program writes and every other file as the programs left it, and otherwise nothing is written |
| LineEnds.HandedOn | userspace/apps/init/src/lib.rs:424-426 | what a line hands on are the first 4096 bytes of what its last program writes |
| TypedLines.InputFromFile | userspace/apps/init/src/lib.rs:378-411 | cmd < f hands the program the first 4096 bytes of f, or no input when it is empty; a file that cannot be read stops the line with nothing changed, for the reason the source gives |
| TypedLines.CatShowsInput | userspace/apps/init/src/lib.rs:378-411 | cat < f shows the first 4096 bytes of f as they are |
| TypedLines.PipeFeedsNext | userspace/apps/init/src/lib.rs:404-426 | behind a pipe the program is handed the first 4096 bytes of what the one before it writes, or no input when that is nothing, and what it writes is on the console |
| TypedLines.BuiltinStopsLine | userspace/apps/init/src/lib.rs:371-374 | a pipeline stops in front of a builtin, with what the stages before it did |
| TypedLines.CommandIsInBin | userspace/apps/init/src/lib.rs:861-880 | a command without a slash in front is the program of that name in /bin, and when none is launched nothing changes |
| Machines.MachineHasFilters | userspace/apps/cat/src/lib.rs:4-15 | on every machine that launches them cat and tee copy redirected input, and tee and sed do what the pipeline theorems ask of them |
| Machines.InstalledLaunches | kernel/src/process.rs:239-271 | an exec call of the shell runs a program exactly when the process table and the loader enter it, and leaves nothing behind otherwise |
| Pipeline.ResolvePathMeans | userspace/apps/init/src/lib.rs:772-830 | a name is resolved to itself when it is absolute and into the working directory when it is relative, exactly when that has at most 128 bytes; a relative one under an empty directory crashes |
| Pipeline.RunConcat | userspace/apps/init/src/lib.rs:357-445 | a pipeline is its first stages followed by the others, unless the first ones stop it |
| Pipeline.InsertTransparent | userspace/apps/init/src/lib.rs:357-445 | stages that leave the reached state as it is can be put between any two stages without any effect |
| Filters.InsertStages | userspace/apps/init/src/lib.rs:328-448 | the same on the token list, for one stage or several, within the four-stage limit, errors included |
| Filters.InsertFilter | userspace/apps/init/src/lib.rs:328-448 | "cat" or file-less "tee" between any two parts of a line leaves the whole outcome unchanged when the part before it, if it gets that far, has some output |
| Filters.InsertSedPair | userspace/apps/init/src/lib.rs:328-448 | "sed s/p/x/g" and "sed s/x/p/g", with any printable delimiters, between two stages leave the whole outcome unchanged when the first has some output and x does not occur in it |
| Filters.TeeFileInside | userspace/apps/init/src/lib.rs:328-448 | "tee f" between two parts of a line: the second part runs on what the first one hands on, with f reading exactly that |
| Filters.FilterIsTransparent | userspace/apps/cat/src/lib.rs:6-15 | a middle stage cat or tee on a non-empty pipe leaves pipe, files and console as they are |
| Filters.TeeFileKeepsPipe | userspace/apps/tee/src/lib.rs:6-52 | tee f in the middle leaves pipe and console as they are and f reading exactly the pipe |
| Filters.SedPairIsTransparent | userspace/apps/sed/src/lib.rs:16-76 | two printed sed scripts that replace a pattern by an absent byte and back change nothing in a pipeline |
| Filters.PipeIsBounded | userspace/apps/init/src/lib.rs:422-425 | behind any stages the pipe holds at most 4096 bytes |
| LineEnds.AppendStages | userspace/apps/init/src/lib.rs:328-448 | stages that copy, behind any line without an output file, leave end, files and console the same exactly when the writes of the last program, if it is reached, pass a pipe whole |
| LineEnds.AppendFilter | userspace/apps/init/src/lib.rs:328-448 | the same for "cat" and file-less "tee" behind any line with some output |
| LineEnds.LineEndIsEarly | userspace/apps/init/src/lib.rs:413-442 | for a last program that writes 4096 bytes and then a line end, "cat" behind it shows the line end first |
| LineEnds.AppendSedPair | userspace/apps/init/src/lib.rs:328-448 | the same for "sed s/p/x/g" and "sed s/x/p/g" behind at most two stages, when x does not occur in what they get |
| LineEnds.TeeFileAtEnd | userspace/apps/init/src/lib.rs:328-448 | "tee f" behind any line shows what the line hands on and leaves f reading exactly that |
| LineEnds.ParseInto | userspace/apps/init/src/lib.rs:450-538 | an output file behind the tokens of a stage changes its output file and nothing else, and is refused exactly when the stage could not stand in the middle |
| LineEnds.IntoLine | userspace/apps/init/src/lib.rs:328-448 | an output file behind any line gets what the line would have handed on, with the same reasons to stop |
| LineEnds.RedirectThroughFilter | userspace/apps/init/src/lib.rs:328-448 | "> f" and "cat > f" one stage later, behind any line with some output, leave the same files and console and end the same way, for output of any length |
| LineEnds.RedirectThroughSedPair | userspace/apps/init/src/lib.rs:328-448 | the same for the pair of sed |
| Shell.RunShell | userspace/apps/init/src/lib.rs:59-73 | the main loop on any typed lines leaves environment, files and console as the lines run one after the other on values, up to "exit" |
| Shell.DispatchLine | userspace/apps/init/src/lib.rs:224-284 | a typed line has the effect of its expanded, tokenized text on environment, files and console: ignored, refused, a builtin, a pipeline or one command |
| Shell.DispatchTokens | userspace/apps/init/src/lib.rs:259-283 | a line with any operator runs as a pipeline, a line of words alone as one command with its arguments joined or refused |
| Shell.DispatchSimple | userspace/apps/init/src/lib.rs:286-324 | a builtin changes the environment or shows it, any other command is executed without redirection |
| Shell.SessionKeepsInv | userspace/apps/init/src/lib.rs:59-183 | over every session variable names stay unique with CWD in front, values stay free of line ends and NULs, and no path is in the file table twice or with a NUL |
| Shell.ChildSeesSessionCwd | userspace/apps/cat/src/main.rs:12-20 | after any typed lines a child finds the current CWD of the shell in its environment |
| TypedLines.NothingAfterExit | userspace/apps/init/src/lib.rs:59-73 | whatever is typed behind "exit" is not run |
| Shell.SimpleIsOneStage | userspace/apps/init/src/lib.rs:259-324 | a simple command that is no builtin does what it does as a pipeline of one stage |
| Shell.TypedLineRuns | userspace/apps/init/src/lib.rs:224-284 | typing the printed form of a token list without references runs exactly that list |
| Shell.TypedFilterInside | userspace/apps/init/src/lib.rs:224-448 | as long as what comes before has some output, typing a line with "cat" or "tee" inside its pipeline has the same effect as typing it without |
| Shell.TypedFilterAtEnd | userspace/apps/init/src/lib.rs:224-448 | behind a simple command or a pipeline with some output and no output file, typing "cat" or "tee" changes nothing exactly when the writes of the last program, if it is reached, pass a pipe whole |
| Shell.CatThroughCatReorders | userspace/apps/cat/src/lib.rs:28-40 | typed for a long file, "cat f" shows its first 4096 bytes and a line end, and with a second "cat" behind it the line end comes first |
| Shell.TypedRedirectThroughFilter | userspace/apps/init/src/lib.rs:224-448 | typing "> f", or "cat > f" one stage later, behind anything with output leaves the same files and console |
| Shell.EmptyCwdCrashes | userspace/apps/init/src/lib.rs:299-316 | typing "export CWD=" and then a command with a relative input file ends in the missed index |
| Sed.Substitute | userspace/apps/sed/src/lib.rs:111-142 | the buffer holds exactly as much of the unbounded leftmost replacement as fits, for every capacity, pattern and replacement |
| Sed.SubstituteLoop | userspace/apps/sed/src/lib.rs:118-141 | the loops, first match only or all, terminate and write the replacement from left to right |
| Sed.FirstMatch | userspace/apps/sed/src/lib.rs:121 | an occurrence of the pattern with no occurrence before it, or none at all |
| Sed.ReplaceRejoins | userspace/apps/sed/src/lib.rs:118-141 | every text is cut at the leftmost occurrences that do not overlap (none starts inside a piece, not even one that runs on into the next cut); the replacement of all occurrences joins the same pieces by the replacement, and without g only the first join is replaced |
| Sed.EmptyPattern | userspace/apps/sed/src/lib.rs:112-116 | an empty pattern replaces nothing |
| Sed.MarkRoundTrip | userspace/apps/sed/src/lib.rs:118-141 | replacing all occurrences by an absent byte and back gives the input, and the middle is not longer |
| Sed.MarkRoundTripBounded | userspace/apps/sed/src/lib.rs:111-142 | the same for buffers at least as long as the input |
| Sed.ParseDelimited | userspace/apps/sed/src/lib.rs:175-207 | the reader returns the unescaped text and the position behind its delimiter exactly when the text ends and fits |
| Sed.ReadScript | userspace/apps/sed/src/lib.rs:144-173 | the parser refuses or accepts as the unbounded grammar with its two limits does |
| Sed.BackslashNeverCloses | userspace/apps/sed/src/lib.rs:191-198 | no text ends behind a backslash delimiter |
| Sed.BackslashNeverParses | userspace/apps/sed/src/lib.rs:144-207 | no script with a backslash delimiter parses, whatever it holds |
| Sed.ScriptRoundTrip | userspace/apps/sed/src/lib.rs:144-207 | parsing a printed script gives it back exactly for delimiters other than NUL and backslash and texts of at most 128 bytes, and fails otherwise |
| Sed.ScriptSpellings | userspace/apps/sed/src/lib.rs:144-207 | the parser accepts exactly the spellings of a script, whichever bytes are escaped, and returns that script |
| RamFiles.FileSystem.WriteFileData | kernel/src/vfs.rs:117-148 | a write updates the entry of its path, else the first free one, with the data cut to 4096 bytes, and reports whether it could |
| RamFiles.FileSystem.ReadFileBytes | kernel/src/vfs.rs:93-115 | a read copies as much of the built-in or RAM file as the buffer takes, built-in files first |
| RamFiles.FileSystem.ReadStatic | kernel/src/vfs.rs:84-91 | the first built-in file of that path |
| RamFiles.ReadAfterWrite | kernel/src/vfs.rs:93-148 | a write is what the next read of its path returns, and reads of other paths stay |
| RamFiles.WriteRefines | kernel/src/vfs.rs:117-148 | a write refines a map of bounded capacity: a valid path is refused exactly when it is new and the map is full, and all other paths are unchanged |
| RamFiles.RunRefines | kernel/src/vfs.rs:117-148 | over every sequence of writes the table holds no path twice and equals the map |
| RamFiles.ReadAfterWrites | kernel/src/vfs.rs:84-115 | after any writes a built-in path reads its fixed bytes and any other path its last accepted data |
| DirListing.ListDir | kernel/src/vfs.rs:150-186 | the buffer holds the encoded names that fit, in order of first appearance over built-in and RAM files. Decoded, they are names in the directory asked for, each once, and a name of the directory is missing only when it does not fit into the rest of the buffer |
| DirListing.FittingIsListing | kernel/src/vfs.rs:150-228 | the same for the listing on values: c is listed only if some entry is dir/c or starts with dir/c/, with c slash-free and not empty, and is left out only when it does not fit |
| DirListing.ListsAllThatFit | kernel/src/vfs.rs:150-228 | every name of the directory is listed exactly when all of them together fit |
| DirListing.HasNameMeans | kernel/src/vfs.rs:84-115 | c names something in the directory exactly when a file there or below it can be read |
| DirListing.ShippedBinListing | kernel/src/vfs.rs:48-81 | /bin of the built-in files, listed into at least 29 bytes, reads as init, echo, env, ls, cat, tee and sed |
| DirListing.AppendPathComponent | kernel/src/vfs.rs:188-228 | a component that is new and fits is appended, everything else leaves the listing as it is |
| DirListing.IsListed | kernel/src/vfs.rs:204-217 | the scan over the encoded names finds exactly the names in it |
| DirListing.ComponentMeans | kernel/src/vfs.rs:195-202 | an entry contributes a name exactly when it is that file in the directory or lies in that subdirectory |
| DirListing.FittingIsClean | kernel/src/vfs.rs:150-228 | the names are non-empty, NUL-free, pairwise distinct components of entries under the prefix, and their encoding fits |
| DirListing.FittingIsComplete | kernel/src/vfs.rs:219-227 | all distinct components are listed in first-appearance order exactly when their encoding fits |
| DirListing.LongNameIsSkipped | kernel/src/vfs.rs:219-227 | a first name that does not fit is left out and a shorter one that all later entries share is listed all the same |
| DirListing.ShippedRootListing | kernel/src/vfs.rs:48-81 | the root of the built-in files listed into 4 to 9 bytes holds "bin" and not "hello.txt", which comes first |
| DirListing.WritesKeepNulFree | kernel/src/syscall.rs:260-284 | tables that writes of C-string paths produce hold no NUL in a path |
| DirListing.DistinctMeans | kernel/src/vfs.rs:204-219 | removing repetitions keeps every name, each once |
| DirListing.ReadListing | userspace/apps/ls/src/lib.rs:12-25 | the loop of ls finds the non-empty NUL-separated pieces |
| DirListing.DecodeEncoded | userspace/apps/ls/src/lib.rs:12-25 | ls reads back exactly the names the kernel encoded |
| DirListing.ListingRoundTrip | userspace/apps/ls/src/lib.rs:3-26 | what ls prints are components of the directory, all of them exactly when they fit |
| ProcessTable.ProcessManager.SpawnSlot | kernel/src/process.rs:57-83 | the table after a spawn, and the pid, are those of the specification |
| ProcessTable.ProcessManager.FinishProcess | kernel/src/process.rs:85-99 | the table after a finish is that of the specification, unknown pids included |
| ProcessTable.ReachableIsMatched | kernel/src/process.rs:48-100 | after any spawns and finishes running records and slots in use correspond one to one and all other records are blank |
| ProcessTable.RecordsSuffice | kernel/src/process.rs:62-71 | at most seven records run, so a spawn fails only for a missing or busy slot |
| ProcessTable.FinishUndoesSpawn | kernel/src/process.rs:57-99 | finishing the new process restores slots and records exactly when no earlier record carries its pid |
| ProcessTable.UnsaturatedPidsAreFresh | kernel/src/process.rs:73-74 | in every table that spawns and finishes can produce before the counter is at its end, running processes have distinct pids below it |
| ProcessTable.UnsaturatedFinishUndoesSpawn | kernel/src/process.rs:57-99 | until then every finish undoes its spawn |
| ProcessTable.SaturatedFinishFreesOuter | kernel/src/process.rs:73-74 | a run of spawns and finishes gets the counter to its end, and a finish then frees the outer process instead |
| ElfLoader.ValidateElfForSlot | kernel/src/elf_loader.rs:82-112 | the check over the header iterator returns the header or the first error in the source's order |
| ElfLoader.ValidateMeans | kernel/src/elf_loader.rs:82-187 | an image is accepted exactly when header, header table and every loadable segment are well formed and fit file and slot |
| ElfLoader.ProgramHeaderIter.Next | kernel/src/elf_loader.rs:231-256 | the iterator yields exactly phnum headers, in order and never stopping early. Which bytes their fields are is ElfFormat.EncodedSegment |
| ElfFormat.EncodedSegment | kernel/src/elf_loader.rs:239-255 | in a file whose table is the encoding of program headers, field by field as the gABI orders them, header k is read as the k-th of them |
| ElfFormat.EncodedFile | kernel/src/elf_loader.rs:140-170 | of a file that starts with an encoded file header the parser reads entry point and table, or refuses magic number, class, byte order or header size, in this order |
| ElfFormat.AcceptsLoadable | kernel/src/elf_loader.rs:82-112 | every file is accepted exactly when it is the encoding of a file header and of program headers whose loadable segments fit file and slot |
| ElfFormat.LoadedByte | kernel/src/elf_loader.rs:114-138 | the byte a load puts at an address is the one of the last encoded header whose segment holds it, from the file or zero, and zero when none does |
| ElfFormat.LEPlaces | kernel/src/elf_loader.rs:189-207 | in a little-endian number the first byte counts once and every further one 256 times the one before |
| ElfLoader.InTable | kernel/src/elf_loader.rs:239-246 | no field of a header in a table that fits lies outside the file |
| ElfLoader.LERoundTrip | kernel/src/elf_loader.rs:189-207 | a little-endian value determines its bytes, each at its place |
| ElfLoader.LoadSegments | kernel/src/elf_loader.rs:114-138 | memory after a load: the slot holds the image, all else is as before |
| ElfLoader.CopySegment | kernel/src/elf_loader.rs:124-134 | one segment writes its file bytes and zeros to the bytes it covers and to no other |
| ElfLoader.LastSegmentWins | kernel/src/elf_loader.rs:119-135 | each byte of the image is the one of the last loadable segment that covers it, zero when none does |
| ExecIsolation.ExecInternal | kernel/src/process.rs:239-283 | an exec call up to the jump: claimed slot, loaded memory and pid are those of the step of the run model, failures included. What that step loads is ExecIsolation.ExecLoads |
| ExecIsolation.ExecLoads | kernel/src/process.rs:239-271 | with a free slot and a loadable file every byte of the slot is then the one of the last segment that holds its address, from the file or zero, and zero where none does, and no other byte is touched, also when the call fails behind the load |
| ExecIsolation.ExecEnters | kernel/src/elf_loader.rs:26-53 | such a call enters the program exactly when it has an entry point and arguments and environment fit; otherwise stack, slots in use and records stay |
| ExecIsolation.ProgramReturned | kernel/src/process.rs:269-271 | the end of an exec call, when the program has returned, is the leaving step of the run model |
| ExecIsolation.ShellLaunches | kernel/src/process.rs:239-271 | with only the shell running an exec call enters a program exactly for a built-in file with a slot of its own that is valid for it and has an entry point |
| ExecIsolation.LoadChecked | kernel/src/elf_loader.rs:26-53 | an invalid image changes no byte; a valid one is loaded before entry, argument and environment limits are looked at |
| ExecIsolation.LoadTouchesOneSlot | kernel/src/elf_loader.rs:114-138 | loading one slot leaves the image of every other slot unchanged |
| ExecIsolation.RunKeepsInv | kernel/src/process.rs:239-271 | over every run whose pid counter has not come to its end, however long it is, the process table is determined by the stack of running processes, with distinct slots and pids |
| ExecIsolation.SlotsAreExclusive | kernel/src/process.rs:57-99 | in every state of every run the running processes hold distinct slots, exactly the ones in use, and at most seven are nested |
| ExecIsolation.AncestorIsUntouched | kernel/src/process.rs:239-271 | whatever is executed above a waiting process, no byte of its image changes and its record stays |
| ExecIsolation.WellNestedRestores | kernel/src/process.rs:57-99 | a well-nested run restores stack, slots in use and records exactly |
| ExecIsolation.RejectedExecChangesNothing | kernel/src/process.rs:239-271 | an exec that fails before loading, by an invalid image for example, changes no byte, slot or record |
| ExecIsolation.SlotsBelongToPrograms | kernel/src/process.rs:285-296 | each slot belongs to exactly one program path, and other paths have none |
| Screen.Writer.WriteByte | kernel/src/vga_buffer.rs:49-76 | one byte on the grid is one byte in the unbounded log of lines |
| Screen.Writer.NewLine | kernel/src/vga_buffer.rs:78-87 | scrolling starts a new line in the log |
| Screen.Writer.ClearRow | kernel/src/vga_buffer.rs:89-97 | one row becomes blank, all others stay |
| Screen.Writer.ClearScreen | kernel/src/vga_buffer.rs:125-131 | the cleared grid is the picture of the empty log |
| Screen.Writer.WriteString | kernel/src/vga_buffer.rs:99-106 | a text is written byte by byte with its unprintable bytes replaced |
| Screen.Writer.ClearAndWrite | kernel/src/vga_buffer.rs:125-135 | after clearing and any bytes the grid is the blank-padded last 25 lines of the log and the column the end of the current line, at most 80 |
| Screen.PutAllKeepsNarrow | kernel/src/vga_buffer.rs:63-66 | no line of the log exceeds 80 bytes |
| Screen.TextThenErase | kernel/src/vga_buffer.rs:52-74 | text that fits the line is appended to it and as many backspaces take it away again |
| Screen.TextIsRows | kernel/src/vga_buffer.rs:49-87 | a text without backspaces becomes its lines, each cut at column 80, behind what is there when it starts on an empty line |
| Screen.PrintableText | kernel/src/vga_buffer.rs:99-106 | printable text, written to a cleared screen, is its own lines cut at column 80 |
| FrameAllocator.BootInfoFrameAllocator.AllocateFrame | kernel/src/memory.rs:38-52 | walking regions and addresses the call finds the frame that the enumeration of usable frames holds at the counter, or none behind its end; for aligned regions that frame lies wholly inside a usable one |
| FrameAllocator.BootInfoFrameAllocator.AllocateMany | kernel/src/memory.rs:48-52 | consecutive calls return consecutive usable frames |
| FrameAllocator.UsableFramesMean | kernel/src/memory.rs:38-44 | the enumeration holds exactly the frames that lie wholly inside usable regions |
| FrameAllocator.UsableFramesDistinct | kernel/src/memory.rs:38-44 | for aligned, disjoint regions no frame is listed twice |
| FrameAllocator.RunHandsOutEachFrameOnce | kernel/src/memory.rs:47-53 | over every run frames are distinct and usable, a refusal is permanent, and it comes only after every usable frame was handed out |

## Left out

- Unredirected reads, the keyboard and the line editor of the shell: input comes from a redirection or not at all.
- The file mode of sed, and the echo and env programs: a copy through the calls modelled here.
- The wording of error messages, except those tee puts into its output; a stage that is refused is one outcome, whatever the reason.
- The texts of the builtins help and clear, and what the shell says to a refused line.
- UTF-8 and Unicode white space: all text is ASCII, so the conversions in the source are the identity.
- Memory between the kernel and a program: arguments and paths pass as C strings, cut at the first NUL.
- Page tables, the heap, the jump to the entry point, interrupts, serial port and volatile access to the screen.
- Programs as machine code: in a run the innermost process computes by storing bytes into its own slot; in a pipeline cat, and tee and sed on redirected input, are modelled byte by byte, and any other run (ls, echo, env, sed with files, input from the keyboard) is an arbitrary list of writes that may depend on path, arguments, environment, input and files.
- StreamIo.IoState.Read: needs redirected input; without it the source takes bytes from the serial port and the keyboard and waits for them.
- StreamPrograms.Cat: needs redirected input, for the same reason.
- StreamPrograms.Tee: needs redirected input, for the same reason.
- StreamPrograms.TeeStream: needs redirected input, for the same reason.
- StreamPrograms.SedStdin: needs redirected input, for the same reason.
- CommandLine.PrintedCommandExpands: needs single quotes to be absent from the values that are referred to, because such a quote would close the printed word.
- ExecIsolation.ExecInternal: ends at the jump into the program; ExecIsolation.ProgramReturned is what follows, and a run of events stands for what is between them.
- ExecIsolation.AncestorIsUntouched: needs a pid counter that is not at its end after the run, because a saturated one frees the wrong slot.
- FrameAllocator.BootInfoFrameAllocator.AllocateFrame: does not model the counter past the largest machine word, where the source overflows.
- DirListing.ListDir: needs NUL-free paths, because a path with a NUL would be cut in the encoding; every table that the system calls can produce has them (DirListing.WritesKeepNulFree). Directory paths beyond 126 bytes are cut as in the source.
- DirListing.AppendPathComponent: needs a NUL-free path, for the same reason.
