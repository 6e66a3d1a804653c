# Notebook converter and teaching-notebook functions, in Dafny

This project models two parts of a repository of Python teaching notebooks.

The first part is the notebook converter script `convert_notebooks.py`:

- `get_exporter` maps a (from, to) pair of format labels to one of two exporters. Labels are compared after lower-casing; every other pair raises `ValueError`.
- `convert_notebook` handles one file. It derives the output path with `with_suffix(".py")`, skips the file when the output is strictly newer, then reads, resolves, exports and writes. Any exception is caught and logged.
- `convert_notebooks_in_directory` logs a warning and returns when the scan finds nothing, and otherwise logs the count.

The second part is the small functions the notebooks test with `assert`s:

- `add`, `say_hi_to` (both versions), `find_primes` and `shuffle_trials` from the functions notebook.
- `subtract`, `concatenate_lists`, `wait_keys` and `trial_sequence` from the automated-testing solutions.
- `record_data`, `wait_n_seconds`, `am_i_lucky` and `wait_key` from the mocking notebook.
- The frequency staircase of `change_pitch.py`.
- The sign/magnitude classifier and the counting loop of the flow-control notebook.

Layout:

- `wrappers.dfy` (`Wrappers`): `Option`, `Result`, `Min`, `Max`.
- `text.dfy` (`Text`): ASCII `lower()`/`upper()` and `str()` of a natural number, with its parser.
- `arithmetic.dfy` (`Arithmetic`): multiplication and remainder facts.
- `randomness.dfy` (`Randomness`): `random.shuffle` as an in-place arbitrary permutation.
- `converter.dfy` (`NotebookConverter`): the converter. The file system and the log are the fields of a `Host` object. `Host.ConvertNotebook` follows the script step by step with its early returns, and is proved equal to the pure decision function `ConvertSpec`. The properties are proved about `ConvertSpec`.
- `functions.dfy` (`Functions`), `automated_testing.dfy` (`AutomatedTesting`), `mocking.dfy` (`Mocking`), `change_pitch.dfy` (`ChangePitch`), `flow_control.dfy` (`FlowControl`): one module per notebook.

Opaque or external parts become parameters:

- Parsing a notebook (`nbformat.read`) and exporting it (`from_notebook_node`) are functions returning `None` on failure.
- The write is a `WriteFault` value: it succeeds, `open` fails, or it stops after some characters.
- Clock readings (`now`), scan results (`found`), the keys pressed and the numbers drawn are inputs.
- A `Mock` used as a spy is a `Spy` object that records its calls.

Two behaviours of the script that a reader might not expect are kept as written:

- **Partial writes.** The output is opened with mode `"w"` and written directly, with no temporary file. A write that fails part-way therefore leaves a truncated output behind, with a fresh mtime. `WriteFault.StopsAfter` models this: `ConvertSpec` then returns a `Failed` outcome together with a written file whose text is a prefix of the export.
- **Exporter pairing.** A script `from` label with a notebook `to` label selects `PythonExporter`, and the reverse pair selects `NotebookExporter` (convert_notebooks.py:16-24). The model keeps that pairing.

Path semantics follow Python 3.12 `pathlib`:

- The suffix starts at the last dot, provided that dot is neither the first nor the last character of the name.
- `with_suffix` raises `ValueError` on an empty name.

## Model

| member | source | states |
|---|---|---|
| NotebookConverter.GetExporter | convert_notebooks.py:14-27 | PythonExporter exactly when the lower-cased from label is a script alias and the to label a notebook alias; NotebookExporter exactly for the reverse pair; otherwise a failure carrying the literal, uninterpolated message |
| NotebookConverter.GetExporterIgnoresCase | convert_notebooks.py:16-22 | upper-casing both labels does not change the resolution |
| NotebookConverter.GetExporterDependsOnLowerCase | convert_notebooks.py:16-22 | two label pairs that lower-case alike resolve alike |
| NotebookConverter.AliasPairsResolve | convert_notebooks.py:16-24 | every script alias with every notebook alias resolves to PythonExporter, and the reverse pair to NotebookExporter |
| NotebookConverter.SameFormatRefused | convert_notebooks.py:25-26 | a pair of equal labels (py to py, ipynb to ipynb) is always refused with the ValueError message |
| NotebookConverter.WithPySuffix | convert_notebooks.py:38 | an empty name fails; otherwise the output is in the same directory, has suffix ".py" and keeps the stem, whatever the target format |
| NotebookConverter.ReplaceExtension | convert_notebooks.py:38 | "stem.ext" becomes "stem.py" in the same directory |
| NotebookConverter.OutputIsSourceIff | convert_notebooks.py:38 | the output path equals the source exactly when the source's suffix is already ".py" |
| NotebookConverter.ConvertSpec | convert_notebooks.py:37-59 | skipped iff the output exists and its mtime is strictly greater than the source's; a skip neither reads nor writes; the source is read iff the path is valid, the source exists and the file is not up to date; a write implies a read, a valid pair and an open that succeeded; converted iff the read happened, something was written and the write did not fault, with the resolved exporter's output as the written text; each failing step ends the run with its own error (EmptyName, SourceMissing, Unreadable, the ValueError, ExportFailed, WriteFailed) before the next step; only the exported text is ever written, in full or as a prefix; when every step succeeds the outcome is converted |
| NotebookConverter.InvalidPairNeverWrites | convert_notebooks.py:40-54 | with a refused pair nothing is written and the files are unchanged; an up-to-date file is still skipped; a stale readable file fails with the ValueError after the read |
| NotebookConverter.SecondRunSkips | convert_notebooks.py:40-45 | after a conversion at a time later than the source's mtime, converting again skips without changing any file, whatever formats, parser, exporter or write fault |
| NotebookConverter.SelfOverwriteNeverSkips | convert_notebooks.py:38-45 | a ".py" source is its own output, so after converting it the next call reads it again instead of skipping |
| NotebookConverter.RerunAfterDeletingOutput | convert_notebooks.py:40-54 | deleting the output and converting again gives the same outcome and writes the same text |
| NotebookConverter.Report | convert_notebooks.py:42-59 | the log line is an error line exactly for a failed outcome, naming the file and the exception |
| NotebookConverter.Host.ConvertNotebook | convert_notebooks.py:30-59 | the file system becomes the one ConvertSpec's run leaves, and exactly one log line, the run's report, is appended; nothing propagates |
| NotebookConverter.Host.ConvertNotebooksInDirectory | convert_notebooks.py:62-72 | files are unchanged; an empty scan appends the "No notebook files found in <dir>" warning and returns; otherwise "Found <n> notebook files" is logged |
| Text.ToLower | convert_notebooks.py:16-17 | lower() keeps the length and lower-cases each ASCII letter, leaving every other character unchanged |
| Text.LowerAfterUpper | convert_notebooks.py:16-22 | lower-casing after upper-casing is the same as lower-casing |
| Text.ToUpper | 05_functions/05_modularizing_an_experiment_with_functions.py:164-165 | upper() keeps the length and upper-cases each ASCII letter |
| Text.NatToString | 02_flow_control/02_flow_control.py:212 | str(n) of a natural number is a non-empty string of digits without a leading zero |
| Text.ParseNatToString | 02_flow_control/02_flow_control.py:212 | reading the digits of str(n) back gives n |
| Randomness.Shuffle | 05_functions/05_modularizing_an_experiment_with_functions.py:350 | random.shuffle rearranges the list in place and keeps its multiset of elements |
| Functions.Add | 05_functions/05_modularizing_an_experiment_with_functions.py:56-57 | the result minus either argument is the other argument |
| Functions.SayHiTo | 05_functions/05_modularizing_an_experiment_with_functions.py:162-167 | the result is "Hi ", then first, a space, last and "!", with "HI " and upper-cased names when shouting; its length is that of the names plus 5 |
| Functions.ShoutIsUpperCase | 05_functions/05_modularizing_an_experiment_with_functions.py:164-165 | the shouted greeting is the upper-cased polite greeting |
| Functions.SayHiToExamples | 05_functions/05_modularizing_an_experiment_with_functions.py:170-172 | the three asserted greetings, including "Hi Bob !" for the default last name |
| Functions.SayHiToPrinting | 05_functions/05_modularizing_an_experiment_with_functions.py:361-366 | as written: the greeting is always printed and the call returns None |
| Functions.DoPrintIsIgnored | 05_functions/05_modularizing_an_experiment_with_functions.py:363-366 | as written: do_print makes no difference, and the greeting is never returned |
| Functions.SayHiToPrintingFixed | 05_functions/05_modularizing_an_experiment_with_functions.py:361-366 | corrected: prints exactly when do_print and returns the greeting exactly when not |
| Functions.FindPrimes | 05_functions/05_modularizing_an_experiment_with_functions.py:317-326 | x is in the result iff start <= x < stop and no j in [2, int(x/2)) divides x; the result is strictly increasing |
| Functions.TrialDivisionVersusPrimality | 05_functions/05_modularizing_an_experiment_with_functions.py:321-325 | from 5 on the filter keeps exactly the primes; every number up to 4, negatives included, passes it |
| Functions.FindPrimesKeepsNonPrimes | 05_functions/05_modularizing_an_experiment_with_functions.py:317-326 | 0, 1 and 4 pass the filter and are not prime |
| Functions.FindPrimesFixed | 05_functions/05_modularizing_an_experiment_with_functions.py:317-326 | corrected: x is in the result iff start <= x < stop and x is prime; the result is strictly increasing |
| Functions.HalfBoundDecidesPrimality | 05_functions/05_modularizing_an_experiment_with_functions.py:321 | for i >= 2, trial division by 2..int(i/2) inclusive finds no divisor iff i is prime |
| Functions.HasAdjacentDuplicate | 05_functions/05_modularizing_an_experiment_with_functions.py:343-346 | found_duplicate is set iff some element equals its predecessor |
| Functions.ShuffleTrials | 05_functions/05_modularizing_an_experiment_with_functions.py:336-351 | the list keeps its elements; on return no two neighbours are equal; max_iter <= 0 always raises StopIteration and leaves the list unchanged; a list already without equal neighbours and max_iter >= 1 is returned unchanged; the ghost history of checks shows that the first check saw the input, every check but a successful last one found equal neighbours, every checked list is a permutation of the input, and StopIteration comes only after max(max_iter, 0) such failed checks |
| Functions.UniformListCannotBeSeparated | 05_functions/05_modularizing_an_experiment_with_functions.py:339-350 | no permutation of two or more copies of one condition is free of equal neighbours, so shuffle_trials can only raise on it |
| AutomatedTesting.Subtract | solutions/06_automated_testing/06_automated_testing_with_pytest_solutions.py:96-97 | the result plus b is a |
| AutomatedTesting.SubtractUndoesAdd | solutions/06_automated_testing/06_automated_testing_with_pytest_solutions.py:96-97 | subtracting b undoes adding b, and adding b undoes subtracting it |
| AutomatedTesting.SubtractExamples | solutions/06_automated_testing/06_automated_testing_with_pytest_solutions.py:102-103 | subtract(3, 5) is -2 and subtract(10, 7) is 3 |
| AutomatedTesting.ConcatenateLists | solutions/06_automated_testing/06_automated_testing_with_pytest_solutions.py:115-116 | the result has length len(a) + len(b), starts with a and ends with b |
| AutomatedTesting.WaitKeys | solutions/06_automated_testing/06_automated_testing_with_pytest_solutions.py:162-167 | timed calls give the first key event, or IndexError on an empty result; untimed calls give the result unchanged |
| AutomatedTesting.Repeat | solutions/06_automated_testing/06_automated_testing_with_pytest_solutions.py:194 | conditions * n_reps has length len(conditions) * max(n_reps, 0), and element k is conditions[k mod len(conditions)] |
| AutomatedTesting.RepeatCounts | solutions/06_automated_testing/06_automated_testing_with_pytest_solutions.py:194 | each condition occurs max(n_reps, 0) times as often as in conditions |
| AutomatedTesting.TrialSequence | solutions/06_automated_testing/06_automated_testing_with_pytest_solutions.py:193-197 | the length is len(conditions) * max(n_reps, 0); the trials are a permutation of conditions * n_reps; without shuffling they are exactly conditions * n_reps, so two such calls agree |
| Mocking.RecordData | 07_mocking/07_testing_with_mocks_and_patches.py:152-153 | save_fun is called exactly once, with "mydata1.txt" and [1, 2, 3] (the patched version at lines 289-290 makes the same call) |
| Mocking.SleepSchedule | 07_mocking/07_testing_with_mocks_and_patches.py:159-171 | the expected calls: 10 * n of them for n > 0, none otherwise, each of 100 ms |
| Mocking.WaitNSeconds | 07_mocking/07_testing_with_mocks_and_patches.py:167-171 | the sleep spy records exactly the expected schedule, one 100 ms call per 100 ms counted down (the same loop appears at lines 195-200 and 262-267) |
| Mocking.SleepScheduleTotal | 07_mocking/07_testing_with_mocks_and_patches.py:167-171 | the requested sleeps add up to n seconds for n >= 0, and to nothing otherwise |
| Mocking.AmILucky | 07_mocking/07_testing_with_mocks_and_patches.py:213-220 | the call wins iff the drawn number is 42, printing "You win!", and otherwise prints "You lose.`" |
| Mocking.DrawAndCheck | 07_mocking/07_testing_with_mocks_and_patches.py:213-215 | any number from 1 to 100000 may be drawn, and the call wins iff it is 42 |
| Mocking.PatchedDrawAlwaysWins | 07_mocking/07_testing_with_mocks_and_patches.py:213-220 | a draw patched to 42 always wins, and the printed message tells a win from a loss |
| Mocking.WaitKey | 07_mocking/07_testing_with_mocks_and_patches.py:304-306 | the first element of what waitKeys returned, or None standing for IndexError when it is empty |
| Mocking.WaitKeyIsTimedWaitKeys | 07_mocking/07_testing_with_mocks_and_patches.py:304-306 | wait_key agrees with the timed branch of wait_keys |
| ChangePitch.Delta | solutions/04_command_line_interfaces/change_pitch.py:21-24 | "up" raises the frequency by one step and any other key lowers it by one step |
| ChangePitch.NetStepsIsUpsMinusOthers | solutions/04_command_line_interfaces/change_pitch.py:17-24 | the net number of steps is the number of "up" presses minus the number of other presses |
| ChangePitch.UpsAndDownsCoverAll | solutions/04_command_line_interfaces/change_pitch.py:20 | when every key is "up" or "down", the two counts add up to the number of trials |
| ChangePitch.FreqAfterIsNetSteps | solutions/04_command_line_interfaces/change_pitch.py:15-24 | the frequency after n trials is the start plus step times the net number of steps |
| ChangePitch.FinalFrequency | solutions/04_command_line_interfaces/change_pitch.py:15-24 | with keys "up"/"down" only, the frequency after n trials is start + step * (#up - #down) |
| ChangePitch.Staircase | solutions/04_command_line_interfaces/change_pitch.py:15-24 | max(n_trials, 0) tones are played; the first is at the starting frequency; tone i uses the frequency from before trial i's update; the final frequency is the one after max(n_trials, 0) trials |
| FlowControl.Classify | 02_flow_control/02_flow_control.py:116-126 | "High positive number" iff x > 10, "Small positive number" iff 1 <= x <= 10, "Zero!" iff x = 0, "Large negative number" iff x < -10, "Small negative number" iff -10 <= x <= -1 |
| FlowControl.MessagesDistinct | 02_flow_control/02_flow_control.py:116-126 | the five branches print five different messages |
| FlowControl.ClassifyMonotone | 02_flow_control/02_flow_control.py:117-126 | a larger number never lands in a branch lower on the number line |
| FlowControl.ClassifyExamples | 02_flow_control/02_flow_control.py:116-126 | one value per branch, including the boundaries 10 and -10 |
| FlowControl.CountIterations | 02_flow_control/02_flow_control.py:206-212 | the loop ends with count = max(max_count, 1), or 0 when the loop condition is False, and prints "Ran <count> iterations" |
| FlowControl.CountReadBack | 02_flow_control/02_flow_control.py:212 | the count can be read back from the printed line |

## Left out

- Batch dispatch of `convert_notebooks_in_directory` (convert_notebooks.py:74-76): a thread pool, i.e. concurrency. As written it hands `executor.map` a single path and two strings as if they were iterables, so `map` raises TypeError (a `Path` is not iterable) right after "Found <n> notebook files" is logged: a non-empty scan converts nothing and the error propagates out of the function. Only the scan and logging branch is modelled, and `Host.ConvertNotebooksInDirectory` simply returns after the count is logged.
- Command-line parsing in `main` (convert_notebooks.py:79-99) and the argument parsing of `change_pitch.py`: library I/O.
- `nbformat.read` and the nbconvert exporters: opaque functions that may fail. The notebook format and the script delimiters are not modelled.
- The real file system, `rglob` and `stat`: files are a map from paths to (mtime, text), and the scan result is an input. Only an empty name is treated as a `with_suffix` error; other pathlib errors are not modelled.
- Log formatting, timestamps and levels beyond info/warning/error: the log is a sequence of records. The error line keeps the exception, not its `str()` text.
- Text.ToLower, Text.ToUpper, Functions.SayHiTo: case mapping is modelled on ASCII letters only. Python's Unicode mapping can change the length (`"ß".upper()` is `"SS"`), so SayHiTo's length clause holds only for names whose upper-casing keeps their length.
- Floating-point values: `find_primes` computes `int(i/2)` through a float, which the model takes as exact truncation. This differs only for integers beyond 2^53.
- Mocking.WaitNSeconds: modelled for integer n only. A fractional n (a float `ms`) is not modelled, and the 0.1 s argument is modelled as 100 ms.
- `estimate_pi`/`get_area_of_circle`, `login` (SHA-256) and the PsychoPy windows, sounds and stimuli: floating point, hashing and hardware.
- The probabilistic expectation that two shuffled trial sequences differ: randomness is modelled as arbitrary choice, so only what holds for every choice is stated.
- ShuffleTrials: the model promises no eventual success, since an arbitrary shuffle may keep producing equal neighbours. The only guaranteed outcomes are those in its contract.
- Configuration files, fixtures, the monkey-patching notebook and the remaining notebook cells: I/O, library round trips or prose only.

## Findings

| source | as written | input that shows it | evidently intended | confidence | as-written member | corrected member |
|---|---|---|---|---|---|---|
| 05_functions/05_modularizing_an_experiment_with_functions.py:361-366 | `if print:` tests the built-in function, which is always true, so the greeting is always printed and `None` is returned | `say_hi_to("Bob", do_print=False)` prints "Hi Bob !" and returns None | test `do_print`: print when asked, otherwise return the greeting | not executed | Functions.DoPrintIsIgnored | Functions.SayHiToPrintingFixed |
| 05_functions/05_modularizing_an_experiment_with_functions.py:317-326 | divisors are tried over `range(2, int(i/2))`, which excludes int(i/2), and numbers below 2 are never excluded | `find_primes(0, 5)` returns [0, 1, 2, 3, 4], keeping 0, 1 and 4 | keep exactly the primes: start at 2 and try divisors up to int(i/2) inclusive | not executed | Functions.FindPrimesKeepsNonPrimes | Functions.FindPrimesFixed |
