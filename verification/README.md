# Verified model of the repository's build and lint tooling

The repository's own logic lives in its scripts: the C++ linter `scripts/cpplint.py`, the
podspec-to-CMake translator `cmake/podspec_cmake.rb`, the lint driver `scripts/pod_lib_lint.rb`,
the Xcode project synchronizer `scripts/sync_project.rb`, the worker pool `scripts/lib/checker.py`
and the generator `scripts/binary_to_array.py`. This project models their algorithms in Dafny and
proves what they are for, over all inputs and all runs. `dafny verify dfyconfig.toml` checks it.

| file | models |
|---|---|
| `Text.dfy` | Python string operations and the small patterns used on one line |
| `Brackets.dfy` | the Dyck language over `()`, `[]`, `{}`, the one-stack machine that decides it, the mirror image of a text |
| `ExpressionMatcher.dfy`, `ReverseMatcher.dfy` | the forward and backward multi-line bracket matchers of cpplint and `_GetTextInside` |
| `LinePatterns.dfy` | the directive, `extern` and asm patterns of cpplint's nesting state, as scans and by their parts |
| `Nesting.dfy` | cpplint's nesting stack: preprocessor checkpoints and the brace loop |
| `IncludeOrder.dfy` | cpplint's include-order automaton |
| `CppStrings.dfy` | the quote-parity test that stands in for a lexer |
| `ConstructorArgs.dfy` | the split-then-merge argument parser |
| `Graph.dfy` | reachability along paths that avoid a set, and depth-first search with a shared set of seen nodes |
| `SubspecResolver.dfy` | the subspec worklist |
| `LocalDeps.dfy` | the recursive search for local podspecs |
| `GroupDiffer.dfy`, `GroupForest.dfy`, `TargetSync.dfy`, `ProjectSync.dfy` | the project synchronizer |
| `Pool.dfy`, `Sharding.dfy` | the worker pool as interleaved steps; splitting files over tasks |
| `CMakeWriter.dfy` | CMake commands, their writer, and a reader that undoes it |
| `ByteArray.dfy` | the hexadecimal array emitter and a reader that undoes it |

## Main results

* **Bracket matching.** From any `(`, `[` or `{`, `CloseExpression` answers exactly the position
  after the match in the Dyck language over the text that joins all lines, whatever `<`, `>`, `;`,
  `->` and `<<` stand in between, and fails exactly if there is no match. `ReverseCloseExpression`
  is its exact inverse, although it keeps other tentative entries and skips characters; what it
  skips is proved never to be a bracket. `_GetTextInside` finds the same end with a different stack.
* **Preprocessor.** From any state, any well-nested lines leave the checkpoints as they were and the
  nesting stack of running only the lines of their first branches; unfinished conditionals, and at
  the top level stray directives, are covered too. Every later branch starts from the stack saved at
  its `#if`. The result holds for any kind of stack entry and any effect of a line on the stack.
* **Worklist and search.** Both graph closures end on every finite graph, cycles included, and
  compute exactly the reachable names; the worklist relies on a positional invariant, the search on
  an argument about paths that avoid what was seen.
* **Synchronizer.** The group difference depends only on the set of group directories and the set of
  references. One run makes the members of every synchronized target exactly the wanted files and
  counts exactly the symmetric differences. A second run is idle exactly if the groups that the first
  one created list no further file; a run that counts 0 changes leaves the whole project as it is.
* **Pool.** In every interleaving the unfinished count is queued plus in-flight; once `join` has
  passed its wait every task has run once, and what `join` returns is the sum of all reports. `join`
  never gets stuck and every run is bounded.
* **Printers.** Readers of the CMake command grammar and of a C initializer list give back what was
  written, for all inputs of the stated form.

Some properties that the code or its documentation suggests are false. The code is kept as it is and
the exact condition is proved:

* `IsCppString` treats a backslash as an escape outside literals too and knows one spelling of a
  quoted quote. It agrees with the C++ lexer exactly if the double quotes that are misread and the
  `'"'` that are subtracted are together even in number; on lines without a backslash in code and
  with no other character literal than `'"'` it does.
* The argument parser cuts at top-level commas, and does not run off the list, exactly if at no comma
  and not at the end the text is over-closed, and the text ends closed.
* `shard` is documented to return one list for each core. It returns that many exactly if the last
  one would not be empty: `(tasks - 1) * ceil(n / tasks) < n`.
* `Pool.exit` is documented to exit with 1 if there were errors. A linter killed by a signal reports a
  negative count. The status is right in every run exactly if no task can report a negative count.

## Model

| member | source | states |
|---|---|---|
| `Brackets.RunDecidesBalanced` | scripts/cpplint.py:1521-1596 | the plain one-stack machine accepts exactly the Dyck language over the three bracket pairs, other characters ignored |
| `Brackets.FindMatchDecides` | scripts/cpplint.py:1599-1640 | the index at which the machine started at an opener first empties its stack is the one and only match, and there is none exactly if the machine fails or the text ends |
| `Brackets.MirrorMatches` | scripts/cpplint.py:1643-1755 | a pair matches in a text exactly if the mirrored pair matches in the mirrored text, so backward search is forward search on the mirror image |
| `ExpressionMatcher.PopTentative` | scripts/cpplint.py:1555-1558 | popping tentative entries keeps the erased stack and leaves a real bracket on top or nothing |
| `Text.OperatorMeaning` | scripts/cpplint.py:1547-1547 | the test for a trailing `operator` holds exactly if the text is of the form of the pattern: no word character before it, only blanks after it |
| `ExpressionMatcher.ScanCloser` | scripts/cpplint.py:1553-1570 | the branch for closing brackets simulates the plain machine: it pops the matching opener, ends the expression, or fails |
| `ExpressionMatcher.ScanOther` | scripts/cpplint.py:1539-1593 | the branches for `<`, `>`, `;` and other characters leave the erased stack alone |
| `ExpressionMatcher.ScanForward` | scripts/cpplint.py:1535-1593 | one round of the forward loop simulates one step of the plain machine on the stack without `<` entries |
| `ExpressionMatcher.FindEndOfExpressionInLine` | scripts/cpplint.py:1521-1596 | on or inside a real bracket, the report on a line is what the search for the match in the whole text finds there, fails on, or goes on from |
| `ExpressionMatcher.CloseExpression` | scripts/cpplint.py:1599-1640 | from `(`, `[` or `{` the answer is just past the only match in the joined lines; no answer exactly if there is no match; any other start but `<` gives no answer |
| `ReverseMatcher.ScanPlain` | scripts/cpplint.py:1664-1690 | characters that are not brackets leave the erased stack alone, and a character that is skipped over is not a bracket |
| `ReverseMatcher.ScanBackward` | scripts/cpplint.py:1658-1715 | one round of the backward loop simulates one step of the plain machine on the mirrored stack without `>` entries |
| `ReverseMatcher.FindStartOfExpressionInLine` | scripts/cpplint.py:1643-1717 | the report on a line read backwards is what the search in the mirrored text finds there, fails on, or goes on from |
| `ReverseMatcher.ReverseCloseExpression` | scripts/cpplint.py:1720-1755 | from `)`, `]` or `}` the answer is the only bracket that it matches in the joined lines; no answer exactly if there is none |
| `ReverseMatcher.CloseThenReverse` | scripts/cpplint.py:1599-1755 | closing an expression finds its only match, and reversing from the closing bracket ends on the bracket it started from |
| `ReverseMatcher.ReverseThenClose` | scripts/cpplint.py:1599-1755 | reversing from a closing bracket finds the only bracket it matches, and closing again ends just past the bracket it started from |
| `ReverseMatcher.ReverseUndoesClose` | scripts/cpplint.py:1599-1755 | whatever positions the two scans answer, by what each of them promises the backward answer is the position the forward scan started from |
| `ReverseMatcher.CloseUndoesReverse` | scripts/cpplint.py:1599-1755 | whatever positions the two scans answer, by what each of them promises the forward answer is just past the position the backward scan started from |
| `ExpressionMatcher.GetTextInside` | scripts/cpplint.py:4651-4681 | the text up to the only match of the opener before the start, by a stack of expected closers; None exactly if there is no match |
| `ExpressionMatcher.TextInsideAgreesWithClose` | scripts/cpplint.py:4651-4681 | on one line `_GetTextInside` and `CloseExpression` agree on whether there is an end and where, which is the only match |
| `CppStrings.IsCppStringIsLexer` | scripts/cpplint.py:1273-1287 | for every line, replace, count and parity give the verdict of a lexer in which a backslash escapes everywhere, turned around by every `'"'` that is subtracted |
| `CppStrings.IsCppStringWithoutSingleQuotes` | scripts/cpplint.py:1273-1287 | on a line without single quotes the parity is exactly the verdict of that lexer |
| `CppStrings.IsCppStringVersusCpp` | scripts/cpplint.py:1273-1287 | for every line, agreement with the C++ lexer of string and character literals holds exactly if the double quotes that only one of the two takes for a delimiter and the `'"'` that are subtracted are together even in number |
| `CppStrings.IsCppStringIsCpp` | scripts/cpplint.py:1273-1287 | on a line without single quotes and without a backslash outside literals the verdict is that of the C++ lexer |
| `CppStrings.IsCppStringOnTameLines` | scripts/cpplint.py:1273-1287 | the verdict is that of the C++ lexer on every line without a backslash outside literals in which a single quote outside string literals only occurs in `'"'` and nothing inside them reads as one |
| `CppStrings.IsCppStringMissesOpening` | scripts/cpplint.py:1273-1287 | a literal opened right after one backslash is missed |
| `CppStrings.IsCppStringKnowsQuoteChar` | scripts/cpplint.py:1286-1287 | the character literal of one double quote is no open string for either |
| `Text.CountMeaning` | scripts/cpplint.py:1287-1287 | counting goes from first occurrence to first occurrence |
| `Text.ReplaceMeaning` | scripts/cpplint.py:1286-1286 | replacing goes from first occurrence to first occurrence |
| `ConstructorArgs.CollapseArguments` | scripts/cpplint.py:2889-2904 | the loop computes the merge of the comma-separated pieces, which join to the text; they are the cut at exactly the commas outside every `<>` and `()` if and only if no comma or end is over-closed and the text ends closed; on text that is not over-closed the index error happens exactly if it does not end closed |
| `ConstructorArgs.NetIsCounts` | scripts/cpplint.py:2898-2899 | the balance that the loop tests is the difference of the two counts |
| `ConstructorArgs.TopLevelSplitIsUnique` | scripts/cpplint.py:2894-2904 | there is only one way to cut a text at its top-level commas |
| `ConstructorArgs.NestedCutsClosed` | scripts/cpplint.py:2894-2904 | text in which no prefix closes more than it opens meets the condition |
| `ConstructorArgs.OperatorCutsElsewhere` | scripts/cpplint.py:2894-2904 | a closed text with `>` and `<` used as operators around a comma fails the condition, and the loop runs off the list |
| `ConstructorArgs.OpenOperatorRunsOff` | scripts/cpplint.py:2897-2901 | an operator `<` that is never closed makes the loop run off the list |
| `Nesting.FirstBranchesDecide` | scripts/cpplint.py:2527-2581 | from every state and for every list of lines that closes only what it opens (from a state without checkpoints: for every list), the checkpoints at entry stay, there is one more for each open conditional, and the stack of the first-branch lines is the current stack or is kept in the checkpoint of the outermost conditional that left its first branch |
| `Nesting.ClosedConditionals` | scripts/cpplint.py:2527-2581 | when such lines leave no conditional open, the stack is that of running only their first-branch lines from the stack at entry, and the checkpoints are those at entry |
| `Nesting.LaterBranchRestarts` | scripts/cpplint.py:2551-2565 | an `#else` or `#elif` line starts from the stack before its `#if`, whatever the branches before it did |
| `Nesting.LaterBranchRuns` | scripts/cpplint.py:2551-2581 | inside a later branch, after any well-nested lines, the stack is that of running their first branches from the stack before the `#if` |
| `Nesting.NestingState.UpdatePreprocessor` | scripts/cpplint.py:2527-2581 | the fields change as the state machine says, for the directive that the line's text holds |
| `LinePatterns.DirectiveMeaning` | scripts/cpplint.py:2548-2567 | a line opens, continues or ends a conditional exactly if it is of the form of one of the three patterns: blanks, `#`, blanks, one of the keywords, and no word character after it |
| `Nesting.NestingState.UpdateAll` | scripts/cpplint.py:2584-2606 | processing consecutive lines from any state runs the machine; if they leave no conditional open, the checkpoints are as before and the stack is that of the first-branch lines |
| `Nesting.NestingState.ConsumeBraces` | scripts/cpplint.py:2709-2746 | the loop has the effect of its tokens in order |
| `Nesting.BraceOpensBlock` | scripts/cpplint.py:2717-2728 | with no head pending, `{` pushes one complete block of this line, external or assembly exactly if the text since the last token is of that pattern |
| `LinePatterns.ExternMeaning` | scripts/cpplint.py:2723-2723 | the `extern` test holds exactly if the text is of the form of the pattern |
| `LinePatterns.AsmMeaning` | scripts/cpplint.py:523-525 | the assembly test holds exactly if the text is of the form of `_MATCH_ASM` |
| `Nesting.BodyKeepsBelow` | scripts/cpplint.py:2709-2746 | text that closes no brace it did not open pushes and pops only its own blocks, with any `;` and `)` |
| `Nesting.HeadIsPopped` | scripts/cpplint.py:2709-2746 | a pending head, `{`, a brace-balanced body with any `;` and `)`, and `}`, on one line or over any number of lines, remove exactly the head |
| `Nesting.ForwardDeclarationIsPopped` | scripts/cpplint.py:2730-2741 | a `;` or `)` before any brace removes exactly the pending head |
| `IncludeOrder.SectionMeaning` | scripts/cpplint.py:831-861 | which section a history of includes leads to, said without the automaton |
| `IncludeOrder.SectionMonotone` | scripts/cpplint.py:711-717 | between resets the section never decreases |
| `IncludeOrder.FlaggedExactly` | scripts/cpplint.py:831-844 | a C system header is flagged exactly after a C++ system or trailing header, a C++ one exactly after a trailing header, others never |
| `IncludeOrder.MessageTexts` | scripts/cpplint.py:719-732 | what the message of a flagged header says, by the headers before it |
| `IncludeOrder.UnflaggedIsInOrder` | scripts/cpplint.py:810-861 | nothing is flagged exactly if the header types are a word of MINE* C* CPP* (MINE or OTHER)* |
| `IncludeOrder.IncludeState.CheckNextIncludeOrder` | scripts/cpplint.py:810-861 | the message, the section and the last header after one include |
| `IncludeOrder.IncludeState.ResetSection` | scripts/cpplint.py:753-769 | a reset begins a new history and changes the include list as the directive demands |
| `Graph.ExploreChild` | scripts/pod_lib_lint.rb:137-147 | a recursive search that shares the seen nodes completes its parent's search |
| `Graph.ExploredAll` | scripts/pod_lib_lint.rb:125-150 | a search that has followed the root's edges has found exactly what is reachable past the root while avoiding what was seen before |
| `LocalDeps.AllDeps` | scripts/pod_lib_lint.rb:107-120 | the root names of all dependencies, without repeats |
| `LocalDeps.RootName` | scripts/pod_lib_lint.rb:112-112 | the name up to its first slash |
| `LocalDeps.FindLocalDeps` | scripts/pod_lib_lint.rb:125-150 | without repeats exactly the local podspecs reachable along paths that avoid the names seen before and the root; the shared set grows by exactly those and the root |
| `SubspecResolver.Expand` | cmake/podspec_cmake.rb:464-474 | expanding the top of the worklist keeps the positional invariant, and expanding a finished name again pushes nothing |
| `SubspecResolver.ResolveSubspecDeps` | cmake/podspec_cmake.rb:460-477 | ends on every graph; returns, strictly ascending, exactly the names reachable from the requests within the root spec, or a reachable name that is no subspec |
| `SubspecResolver.LessMeaning` | cmake/podspec_cmake.rb:476-476 | the order of the result: a proper prefix comes first, else the first character that differs decides |
| `SubspecResolver.NeededIsLeast` | cmake/podspec_cmake.rb:450-459 | those names are in every set that contains the requests and is closed under same-root dependencies |
| `GroupDiffer.Differ.FindFsFiles` | scripts/sync_project.rb:769-785 | reads every directory below the given one that was not read before, and marks exactly the files listed there, even though other directories may be half read |
| `GroupDiffer.Differ.DiffProjectFiles` | scripts/sync_project.rb:750-767 | after a group, its subgroups and its files, the flags are exactly those of the directories read and references seen |
| `GroupDiffer.Differ.Diff` | scripts/sync_project.rb:739-745 | an entry is in the target exactly if some group refers to the path, and in the source exactly if it is listed below a group directory or is referred to and a file |
| `GroupDiffer.DiffCounts` | scripts/sync_project.rb:672-689 | additions, removals and the number of changes are those of the symmetric difference |
| `GroupDiffer.OrderDoesNotMatter` | scripts/sync_project.rb:693-717 | groups with the same directories and references give the same additions, removals and changes |
| `GroupForest.InsertAdds` | scripts/sync_project.rb:454-468 | adding a file to a group adds exactly its reference, loses no directory, and leaves no set of directories that created groups stay in |
| `GroupForest.InsertPlaces` | scripts/sync_project.rb:460-463 | the new reference comes last in the group that the names lead to, and every other group keeps its files |
| `GroupForest.RelativeMeaning` | scripts/sync_project.rb:459-477 | a group contains a path exactly if the relative path does not begin with `..`, and the names are its components without the last one |
| `GroupForest.RemoveRefRemoves` | scripts/sync_project.rb:487-492 | removing a reference removes it from every group and nothing else |
| `GroupForest.FindRoot` | scripts/sync_project.rb:473-482 | the first root group that contains the path, and none is found exactly if none contains it |
| `TargetSync.TargetDiff` | scripts/sync_project.rb:292-328 | in the source exactly if a project file matches the definition, in the target exactly if a phase holds it, with a reference to act on |
| `TargetSync.FindTargetMeaning` | scripts/sync_project.rb:375-382 | the first definition of that name, and none exactly if no definition has it |
| `TargetSync.PhaseMeaning` | scripts/sync_project.rb:518-530 | the phase of a file name by its suffix; names without a suffix are resources |
| `ProjectSync.WantedMeaning` | scripts/sync_project.rb:283-290 | what a definition claims: group references, not ignored, that match a source pattern and no exclude pattern, headers not counted |
| `TargetSync.SyncEntryEffect` | scripts/sync_project.rb:496-530 | on a tidy target an entry adds or removes exactly its own reference, and counts one exactly then |
| `ProjectSync.SyncTarget` | scripts/sync_project.rb:412-417 | the members become exactly the wanted files, the count is the size of the symmetric difference, headers are untouched |
| `ProjectSync.SyncTargets` | scripts/sync_project.rb:408-423 | all synchronized targets reach their goal, the others and all headers stay as they are, the counts add up, and a count of 0 means that nothing changed |
| `ProjectSync.Syncer.AddToProject` | scripts/sync_project.rb:454-482 | one new reference for each added path, in the group that its path leads to from the first root group that contains it, or a stop exactly if no root group contains one of them |
| `ProjectSync.Syncer.RemoveFromProject` | scripts/sync_project.rb:487-492 | exactly the given references leave the groups, the project and the phases of all targets, and the others stay in their groups |
| `ProjectSync.DropKeepsSynced` | scripts/sync_project.rb:396-427 | removing references after the targets were synchronized takes no member from a synchronized target, and from headers and other targets exactly the removed references |
| `ProjectSync.Syncer.Sync` | scripts/sync_project.rb:396-427 | named paths, project files, target members, headers, other targets and the number of changes after one run, with every new reference in its group; fails exactly if an added path is in no root group; a count of 0 means that groups, references and phases are as before |
| `ProjectSync.Resync` | scripts/sync_project.rb:396-427 | a second run returns 0 exactly if the groups created by the first list no further file, and then groups, references and all phases of all targets are as before |
| `ProjectSync.SyncTwice` | scripts/sync_project.rb:396-427 | the first run fails exactly if an added path is in no root group; if created groups get directories below the existing ones, or paths that are no directory, the second run returns 0, and the project is as the first run made it |
| `ProjectSync.InheritedIsCovered` | scripts/sync_project.rb:454-462 | groups that take the directory of the group they are created in meet that condition |
| `ProjectSync.ProgramCreatesCovered` | scripts/sync_project.rb:454-468 | the program, which creates groups without a path, meets that condition for every project |
| `Pool.InvStep` | scripts/lib/checker.py:64-111 | every step of every thread keeps the counts, the tasks and the reports in agreement |
| `Pool.JoinIsComplete` | scripts/lib/checker.py:95-111 | in every interleaving: unfinished is queued plus in-flight; past the wait every task has run as often as it was submitted; the value returned is the errors of all reports |
| `Pool.JoinNeverSticks` | scripts/lib/checker.py:95-111 | until `join` has returned some thread can make a step |
| `Pool.RunsAreBounded` | scripts/lib/checker.py:73-111 | every run has at most five steps for each submission, beyond the measure of its first state |
| `Pool.JoinReturns` | scripts/lib/checker.py:95-111 | from every reachable state after the call `join` can return, with the errors of all submitted tasks |
| `Pool.ExitStatusIsVerdict` | scripts/lib/checker.py:113-120 | in every interleaving of every list of submissions the exit status is 1 if some report is not clean and else 0, if and only if no task can report a negative count |
| `Pool.NegativeCountIsMissed` | scripts/lib/checker.py:113-120 | whatever task reports a negative count, there is a complete run that submits it and exits with 0 |
| `Pool.KilledLinterGoesUnnoticed` | scripts/lib/checker.py:113-120 | one negative count beside a clean report exits with 0, although a report is not clean |
| `Sharding.Chunks` | scripts/lib/checker.py:47-50 | the chunks join to the items, none is empty, all but the last are full |
| `Sharding.Shard` | scripts/lib/checker.py:35-44 | at most one list for each task, of equal size but for the last; as many as tasks exactly under the stated condition |
| `Sharding.FiveItemsOnFourCores` | scripts/lib/checker.py:35-44 | five items on four cores give three lists |
| `Sharding.Check` | scripts/check_lint.py:104-113 | every file of every kind is submitted exactly once, in order; the files of each kind in at most one list for each task, none empty, of equal size but for the last |
| `CMakeWriter.AddAllKeepsFirst` | cmake/podspec_cmake.rb:73-77 | adding keeps the arguments and appends exactly the first occurrences of the new ones |
| `CMakeWriter.CMakeCommand.AddArgs` | cmake/podspec_cmake.rb:66-78 | the arguments after a call, and that the command is skipped only if nothing was ever passed |
| `CMakeWriter.CMakeCommand.AddEach` | cmake/podspec_cmake.rb:66-78 | any sequence of calls is one call on the concatenation |
| `CMakeWriter.Writer.Write` | cmake/podspec_cmake.rb:488-508 | what one command appends, in one line below 80 characters or wrapped, with a blank line before a new name; nothing for a skipped command |
| `CMakeWriter.BodyLines` | cmake/podspec_cmake.rb:498-507 | the lines of one command: one if it has less than 80 characters with its line end, else one for the name, one for each argument, indented by two blanks, and one for the end |
| `CMakeWriter.ReadUndoesWrite` | cmake/podspec_cmake.rb:480-513 | reading the written text by the command-invocation grammar of cmake-language(7), which demands separation between arguments, gives back the commands in order, in both forms |
| `CMakeWriter.WriteCommands` | cmake/podspec_cmake.rb:411-413 | the file written for a list of commands reads back as those that are not skipped |
| `CMakeWriter.CommentIsSkipped` | cmake/podspec_cmake.rb:391-395 | a comment line that does not open a bracket comment, such as those of the header, does not change what is read |
| `ByteArray.EmitBytes` | scripts/binary_to_array.py:176-187 | the lines are those of rows of 12 bytes and a shorter, possibly empty last row |
| `ByteArray.RowsFit` | scripts/binary_to_array.py:70-72 | every row but the last holds 12 bytes, the last the remainder, and no line exceeds 73 characters |
| `ByteArray.ReadUndoesEmit` | scripts/binary_to_array.py:176-194 | reading the emitted text as an initializer list, in which commas must separate the values, gives the input and one zero byte |

## Left out

- CloseExpression: for a start at `<` only the bounds of the answer are stated; the code declares that case a heuristic.
- ReverseCloseExpression: for a start at `>` only the bounds of the answer are stated, for the same reason.
- FindLocalDeps: the order of the podspecs found is not stated, because callers only pass them on as a list of names.
- ResolveSubspecDeps: that the caller's list of requests is emptied in place is not modelled; the worklist is a local sequence.
- Sync: the exact result is stated for projects in which a removed path has one reference and the phases of synchronized targets hold each file that is not a header once, in the phase its extension selects; otherwise the code removes one of several entries in a run.
- Sync: root groups that lie inside one another are modelled as separate trees.
- Sync: Xcodeproj is modelled by the group forest, the set of references and the phase lists it returns; removing a reference is taken to drop its build files from every target, and the directory of a group created by name is a parameter.
- NestingState: the rest of `Update` (namespace and class heads, parenthesis counts, access checks) is an arbitrary effect of a line on the stack; the style messages are not modelled.
- JoinIsComplete: tasks that raise are not modelled; putting a result is one step with running the task, and draining one result is one step.
- Shard: the division is exact, not in floating point.
- ReadUndoesWrite: arguments are unquoted words that do not open a bracket argument, or quoted strings without quotes and escapes inside; others are written as they are and may read differently. The reader refuses bracket arguments, bracket comments, escapes and nested parentheses.
- Regular expressions other than those named in the files, `fnmatch`, file contents, option parsing, printed progress, xcconfig files and project sorting.
- The per-line style checks of cpplint, header generation in binary_to_array.py, the other scripts, and all Objective-C, Swift and C++ sources: one pattern for each check, plain text substitution, or declarations without bodies.
