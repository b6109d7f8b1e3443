# install_env.py, modelled in Dafny

`install_env.py` sets up a Windows Python environment. It writes every step
to `logs/install_log.txt`. It creates `.venv` when that directory is missing
and upgrades pip. It installs the pinned CUDA 12.1 PyTorch stack unless
`pip show` finds all three of its packages. It then reconciles
`requirements.txt` against a `pip freeze` listing and installs, with one
combined `pip install`, every requirement whose bare name does not occur in
that listing.

The project has four modules:

- `Text` (text.dfy) models the Python string operations the script uses:
  - `str.strip`, with Python's whitespace set;
  - `str.lower`, ASCII letters only;
  - `str.startswith`, and `in` on strings;
  - `str.split(sep)` and `sep.join`;
  - `repr` of a list of strings, as an f-string prints it.
- `Seqs` (seqs.dfy) models filtering, the shape of a list comprehension.
- `Requirements` (requirements.dfy) models the pure core of
  `smart_install_requirements`:
  - the line filter;
  - the chained split that extracts a bare name;
  - the case-insensitive substring test;
  - the `to_install` loop;
  - the combined install command.
- `Installer` (installer.dfy) models the steps:
  - `log`, `run`, `ensure_venv`, `upgrade_pip`, `install_pytorch_stack`,
    `smart_install_requirements` and `main`;
  - each step is a method of the class `Session`, whose fields are the log
    file text, the commands issued through `run`, and whether `.venv`
    exists;
  - each method is proved to append exactly the commands and messages that
    a pure function of its inputs (an `Effect`) describes;
  - the lemmas about those functions state what a run does.

The script's quirks are kept as written, and lemmas state each of them:

- The "already installed" test is a substring test. `torch` counts as
  installed when only `torchvision` is listed (`ContainedNameNotQueued`).
- The `#` test is made on the raw line, so an indented comment becomes a
  requirement (`IndentedCommentKept`).
- An empty bare name always counts as installed (`EmptyNameNeverQueued`).
- `<=` and `!=` are not split off (`BareNameWithoutOperator`).
- Splitting `a>==1` gives `a>` (`OverlapKeepsOperatorChar`).

In two places a plain reading of "the text before the first version
operator" disagrees with the code. This model follows the code in both:

- The three splits run in a fixed order, `==` first. When a `>=` or `~=`
  overlaps an `==`, the name keeps the operator's first character.
  `BareNameIsTextBeforeOperator` proves that the two readings agree in
  every other case.
- "Comment lines" are lines whose first character is `#`. Leading spaces
  are not skipped.

Outside inputs are parameters of type `World`:

- `sys.executable`;
- the timestamp;
- whether `pip show` finds a package;
- the lines of `requirements.txt`;
- the text of `installed.txt`;
- the outcome of every command.

## Model

| member | source | states |
|---|---|---|
| Text.Strip | install_env.py:73 | `strip()` yields an empty string exactly when the input is all whitespace; otherwise the result starts and ends with a non-space |
| Text.TrimLeft | install_env.py:73 | the left strip drops a run of leading whitespace and stops at a non-space |
| Text.TrimRight | install_env.py:73 | the right strip drops a run of trailing whitespace and stops at a non-space |
| Text.StripSlice | install_env.py:73 | the stripped text is the slice of the line between two runs of whitespace |
| Text.TrimLeftIs | install_env.py:73 | the left strip is determined by the position of the first non-space |
| Text.TrimRightIs | install_env.py:73 | the right strip is determined by the position of the last non-space |
| Text.StripPadded | install_env.py:73 | surrounding whitespace is exactly what `strip()` removes: a padded core comes back whole |
| Text.StripInside | install_env.py:73 | the stripped text is a substring of the original |
| Text.StripFixedPoint | install_env.py:73 | a string is its own strip iff it is empty or neither end is whitespace |
| Text.StripIdempotent | install_env.py:80 | stripping twice equals stripping once |
| Text.Lower | install_env.py:81 | `lower()`, restricted to ASCII letters: same length, one character at a time |
| Text.LowerResult | install_env.py:81 | after `lower()` no capital A-Z is left; each capital becomes its lower-case letter, and every other character is unchanged |
| Text.LowerIdempotent | install_env.py:81 | lowering twice is lowering once |
| Text.LowerEqualIff | install_env.py:81 | two strings lower to the same text iff they agree letter by letter up to ASCII case |
| Text.LowerSlice | install_env.py:81 | lowering commutes with slicing |
| Text.LowerKeepsOccurrence | install_env.py:81 | an occurrence of a substring stays at the same index after lowering both strings |
| Text.Contains | install_env.py:81 | `needle in hay` holds iff the needle occurs at some index of the haystack |
| Text.ContainsTransitive | install_env.py:81 | a substring of a substring is a substring |
| Text.OccursShiftAt | install_env.py:81 | the occurrences in `s[1..]` are those in `s`, shifted by one |
| Text.Find | install_env.py:80 | yields the first index where the separator occurs, or None when it never occurs |
| Text.FindIs | install_env.py:80 | an occurrence with none before it is the one found |
| Text.Before | install_env.py:80 | the text before the first occurrence of the separator: a prefix free of it, ending where it occurs |
| Text.BeforeIs | install_env.py:80 | that prefix is unique |
| Text.OccursInPrefix | install_env.py:80 | an occurrence lies inside a prefix iff it ends within that prefix |
| Text.PrefixClear | install_env.py:80 | a prefix holds no occurrence when none begins early enough to fit in it |
| Text.StartsWith | install_env.py:73 | `line.startswith(p)`: the line begins with `p` |
| Text.Split | install_env.py:80 | `s.split(sep)`: the pieces between non-overlapping occurrences, left to right, at least one |
| Text.Join | install_env.py:86 | `sep.join(xs)` |
| Text.SplitHead | install_env.py:80 | `s.split(sep)[0]` is the text before the first occurrence of `sep` |
| Text.JoinSplit | install_env.py:80 | `sep.join(s.split(sep)) == s` |
| Text.JoinAppend | install_env.py:86 | joining a concatenation joins the two halves around one separator |
| Text.SplitJoin | install_env.py:86 | splitting a join on a one-character separator that no element holds gives back the elements |
| Text.EscapeChar | install_env.py:85 | how `repr` writes one character: backslash before the quote and `\`, `\t` `\n` `\r`, `\xhh` for the other controls up to U+00A0 |
| Text.ReprStr | install_env.py:85 | `repr` of a string: single quotes unless the text holds a single quote and no double quote |
| Text.ReprList | install_env.py:85 | `repr` of a list of strings, as the f-string prints `to_install` |
| Text.ReprListShort | install_env.py:85 | the empty list prints as `[]`, a one-element list as `[` + the element's repr + `]` |
| Text.ReprListSnoc | install_env.py:85 | appending an element replaces the closing `]` by `, ` + the element's repr + `]` |
| Text.UnescapeChar | install_env.py:85 | each character that `repr` escapes reads back as that character |
| Text.UnescapeEscape | install_env.py:85 | `repr`'s escaping loses nothing: the escaped body reads back as the original string |
| Text.ReprStrRoundTrip | install_env.py:85 | `repr(s)` is quoted on both sides with the quote Python picks, and its body reads back as `s` |
| Seqs.Filter | install_env.py:73 | a list comprehension's filter never lengthens the list |
| Seqs.FilterAppend | install_env.py:73 | filtering a concatenation concatenates the filtered parts |
| Seqs.FilterCount | install_env.py:73 | a kept element occurs as often as in the original; a dropped one never occurs |
| Seqs.FilterMembers | install_env.py:73 | an element is in the filtered list iff it is in the original and kept |
| Seqs.FilterIsSubsequence | install_env.py:73 | filtering keeps the order of what it keeps |
| Seqs.FilterNone | install_env.py:78-83 | when nothing is kept, the filter is empty |
| Requirements.IsKept | install_env.py:73 | a raw line is kept when its strip is non-empty and the raw line does not start with `#` |
| Requirements.ParseRequirements | install_env.py:73 | the comprehension: strip every kept line, in order |
| Requirements.ParseAppend | install_env.py:73 | requirements are read line by line, so concatenated files give concatenated requirements |
| Requirements.ParseOne | install_env.py:73 | one line gives its stripped text when it is kept, and nothing otherwise |
| Requirements.ParseMembers | install_env.py:73 | a string is a requirement iff it is the stripped text of a non-blank line that does not start with `#` |
| Requirements.ParseStripped | install_env.py:73 | every requirement is non-empty and already stripped |
| Requirements.IndentedCommentKept | install_env.py:73 | the `#` test is on the raw line: every line made of leading whitespace, `#` and any text becomes one requirement, its strip, starting with `#` |
| Requirements.CommentAndBlankLinesDropped | install_env.py:73 | any list of lines that each start with `#` or are blank or whitespace only gives no requirement |
| Requirements.SplitChain | install_env.py:80 | the three splits in a row, each keeping the text before its operator's first occurrence |
| Requirements.BareName | install_env.py:80 | the split chain, stripped |
| Requirements.BareNameIsSplitExpression | install_env.py:80 | the bare name is `req.split("==")[0].split(">=")[0].split("~=")[0].strip()` |
| Requirements.EarliestOperator | install_env.py:80 | finds the first index where `==`, `>=` or `~=` begins, or None when none occurs |
| Requirements.SplitChainIsPrefix | install_env.py:80 | the three splits keep exactly the prefix before the cut point |
| Requirements.ChainAtOperator | install_env.py:80 | the chain cuts at the first operator, or one character later when that operator overlaps an `==` |
| Requirements.ChainWithoutOperator | install_env.py:80 | with no operator, the splits cut nothing |
| Requirements.BareNameByEarliestOperator | install_env.py:80 | the bare name is the stripped text before the cut point |
| Requirements.BareNameIsTextBeforeOperator | install_env.py:80 | without an overlap, the bare name is the stripped text before the first version operator |
| Requirements.BareNameWithoutOperator | install_env.py:80 | with none of the three operators, the bare name is the whole requirement stripped; `<=` and `!=` are kept |
| Requirements.OverlapFacts | install_env.py:80 | in `name>==rest` the first operator is the `>=` and it overlaps an `==` |
| Requirements.OverlapKeepsOperatorChar | install_env.py:80 | `name>==rest` gives the bare name `name>`, not `name` |
| Requirements.BareNameInRequirement | install_env.py:80 | the bare name is a substring of its requirement |
| Requirements.NeedsInstall | install_env.py:81 | the lowered bare name is not a substring of the lowered listing |
| Requirements.EmptyNameNeverQueued | install_env.py:81-82 | a requirement whose bare name is empty is never queued |
| Requirements.ListedRequirementNotQueued | install_env.py:81-82 | a requirement whose whole text is in the listing, ignoring ASCII case, is never queued |
| Requirements.NeedsInstallAntitone | install_env.py:81-82 | a requirement queued against a listing is queued against every part of that listing |
| Requirements.ContainedNameNotQueued | install_env.py:81-82 | a requirement inside any listed name (`torch` inside `torchvision`) is never queued |
| Requirements.Missing | install_env.py:78-83 | the requirements whose name is missing, in order, duplicates kept |
| Requirements.MissingAppend | install_env.py:78-83 | the queue of a concatenation is the concatenation of the queues |
| Requirements.MissingCount | install_env.py:78-83 | a requirement is queued as often as it is listed when its name is missing, and never otherwise |
| Requirements.MissingMembers | install_env.py:78-83 | a requirement is queued iff it is listed and its name is missing |
| Requirements.MissingIsSubsequence | install_env.py:78-83 | the queue keeps the order of requirements.txt |
| Requirements.MissingNoneWhenAllListed | install_env.py:78-83 | once every requirement's text is in the listing, nothing is queued |
| Requirements.MissingSnoc | install_env.py:79-82 | one more loop iteration appends the requirement exactly when its name is missing |
| Requirements.SelectMissing | install_env.py:78-83 | the loop builds exactly the queue: the requirements whose bare name is missing, in order, duplicates kept |
| Requirements.InstallCommand | install_env.py:86 | pip, `install --upgrade --no-cache-dir`, then the queue joined by spaces |
| Requirements.CommandHead | install_env.py:86 | the command starts with `.venv\Scripts\pip.exe install --upgrade --no-cache-dir` |
| Requirements.CommandHeadWords | install_env.py:86 | the executable and the fixed flags hold no space |
| Requirements.InstallCommandWords | install_env.py:86 | split at spaces, the command is pip, the three flags, then every queued requirement in order |
| Installer.LogText | install_env.py:15 | what a run of `log` calls appends: each message and a newline |
| Installer.LogTextAppend | install_env.py:12-16 | logging two runs of messages appends their texts one after the other |
| Installer.LogTextOne | install_env.py:15 | one `log` call appends the message and a newline |
| Installer.LogTextIsJoin | install_env.py:15 | the log text is the messages joined by newlines, plus a final newline |
| Installer.LogTextLines | install_env.py:15 | when no message holds a newline, the log file read back line by line gives the messages |
| Installer.RunMessages | install_env.py:18-26 | the messages `run` logs: description, stripped stdout, stripped stderr, each only when non-empty |
| Installer.RunEffect | install_env.py:18-26 | `run` issues its one command and logs its messages |
| Installer.RunMessagesShape | install_env.py:19-25 | `run` logs at most three messages, none empty, in the order description, output, errors |
| Installer.NonEmptyLogText | install_env.py:19-25 | logging whichever of three messages are non-empty appends their lines in order |
| Installer.RunLogText | install_env.py:19-25 | what `run` appends to the log: the description line, then the stripped output line, then the stripped error line, each only when non-empty |
| Installer.RunAppended | install_env.py:18-26 | logging those three pieces and issuing the command appends the effect of `run` |
| Installer.AppendedLog | install_env.py:12-16 | one `log` call appends a one-message effect |
| Installer.AppendedThen | install_env.py:91-97 | running one step and then another appends their effects in sequence |
| Installer.VenvEffect | install_env.py:37-42 | `ensure_venv`: the skip line when `.venv` exists, otherwise the creation line and the `-m venv` run |
| Installer.VenvAfter | install_env.py:37-42 | `.venv` exists afterwards when it did before or creation exited with 0 |
| Installer.UpgradeEffect | install_env.py:44-46 | `upgrade_pip`: its line, then the self-upgrade run |
| Installer.TorchEffect | install_env.py:48-64 | `install_pytorch_stack`: the skip line when all three packages are shown, otherwise the install line and the pinned run |
| Installer.Queue | install_env.py:72-83 | the queue built from the parsed requirements and the listing |
| Installer.ReconcileEffect | install_env.py:66-89 | `smart_install_requirements`: the check line and the freeze run, then the queue line and the combined install run, or the up-to-date line |
| Installer.Header | install_env.py:92 | the timestamped header line |
| Installer.MainEffect | install_env.py:91-97 | `main`: header, the four steps in order, closing line |
| Installer.InstallEffect | install_env.py:91-97 | `main` against a given world and venv state |
| Installer.VenvCreatedOnlyWhenMissing | install_env.py:37-42 | the venv creation command is issued iff `.venv` is missing, and nothing else is issued |
| Installer.VenvSecondCallSkips | install_env.py:37-42 | once creation has succeeded, calling `ensure_venv` again issues nothing and logs only the skip line |
| Installer.TorchInstalledOnlyWhenMissing | install_env.py:48-64 | the pinned install is issued iff `pip show` misses one of torch, torchaudio, torchvision, and then it is issued once |
| Installer.TorchInstallPins | install_env.py:58-63 | the pinned install names the three CUDA 12.1 builds and ends with the CUDA 12.1 extra index |
| Installer.ReconcileCommands | install_env.py:70-89 | reconciling runs `pip freeze` first; it issues one combined install, the second command, iff the queue is non-empty |
| Installer.ReconcileInstallWords | install_env.py:84-87 | the combined install names exactly the queued requirements in order, after pip and its flags |
| Installer.ReconcileUpToDate | install_env.py:66-89 | with an empty queue, the log gets the check line, the messages of the freeze `run` and the up-to-date line, and nothing else |
| Installer.ReconcileTwiceQueuesNothing | install_env.py:78-83 | reconciling again queues nothing, once the new listing extends the old one and shows every queued name |
| Installer.MainShape | install_env.py:91-97 | `main` issues the commands of its four steps in order; it logs the header, the steps' messages and the closing line |
| Installer.InstallFramed | install_env.py:91-97 | a whole run logs the timestamped header first and the completion line last |
| Installer.InstallCommandsAre | install_env.py:93-96 | a whole run issues exactly the commands of its four steps, in step order |
| Installer.InstallCommandsOrder | install_env.py:91-97 | a whole run issues two to five commands and always upgrades pip before it freezes |
| Installer.SettledInstallOnlyRefreshes | install_env.py:91-97 | with the venv present, the stack found and every requirement listed, a run issues only the pip upgrade and the freeze |
| Installer.Session.constructor | install_env.py:8-10 | a session starts with the existing log text, no commands issued, and the given venv state |
| Installer.Session.Log | install_env.py:12-16 | `log` appends the message and a newline to the log file and changes nothing else |
| Installer.Session.LogIfNotEmpty | install_env.py:19-25 | a guarded `log` appends the message's line only when the message is non-empty |
| Installer.Session.Run | install_env.py:18-26 | `run` returns true iff the exit code is 0; it appends the command to the issued commands and the description, stripped stdout and stripped stderr lines to the log |
| Installer.Session.EnsureVenv | install_env.py:37-42 | `ensure_venv` appends the venv effect; afterwards `.venv` exists iff it already did or creation exited with 0 |
| Installer.Session.UpgradePip | install_env.py:44-46 | `upgrade_pip` logs its line and then runs the pip self-upgrade |
| Installer.Session.InstallPytorchStack | install_env.py:48-64 | `install_pytorch_stack` appends the effect chosen by the three `pip show` answers |
| Installer.Session.SmartInstallRequirements | install_env.py:66-89 | `smart_install_requirements` appends the reconcile effect, built from the parsed requirements and the queue the loop selects |
| Installer.Session.Install | install_env.py:91-97 | `main` appends, in order, the header, the four steps' effects and the closing line |

## Left out

- File-system and console I/O are left out:
  - the log file is a string field;
  - `os.makedirs` on the log directory is not modelled;
  - `print` is not modelled;
  - encoding errors are not modelled;
  - `open` raising an exception is not modelled, for example when
    `installed.txt` is missing after a failed freeze.
- `subprocess.run` is replaced by the `outcome` parameter. Shell
  interpretation is not modelled; in particular the `> installed.txt`
  redirection is not modelled. The freeze listing comes in separately as
  `World.listing`, so nothing ties it to the freeze command's outcome.
- `package_installed` (install_env.py:28-35): its `pip show` calls are
  answered by `World.shown`. They are not recorded among the issued
  commands, which hold only the commands passed to `run`.
- `datetime.now().strftime(...)` is the `timestamp` input, and
  `sys.executable` is the `executable` input.
- Text.Lower: only the ASCII letters A-Z are lowered. Python's Unicode case
  mapping is not modelled.
- Text.EscapeChar: `repr` is modelled for code points up to U+00A0. Python
  also escapes other non-printable characters (U+00AD, and `\uXXXX` /
  `\UXXXXXXXX` forms above U+00FF); the model writes those as they are.
- Installer.Session.EnsureVenv: after creation, `.venv` is taken to exist
  iff the venv command exited with 0. The real directory test is not
  repeated.
- Reading a file line by line, including universal-newline translation, is
  left out. `requirementLines` are the lines as Python yields them, with
  their line terminators.
- Requirements.InstallCommandWords: the word-by-word statement assumes no
  requirement holds a space. `InstallCommand` itself handles any text. The
  command runs through the Windows shell, which reads the `>` of a queued
  `pkg>=1.0` as output redirection; the model gives the command line as
  written, not what pip receives.
- Exceptions raised by `subprocess.run` are not modelled. In particular
  `package_installed` (install_env.py:30-34) runs `.venv\Scripts\pip.exe`
  without a shell and raises when that file is missing, for example after
  a failed venv creation; `main` then stops at `install_pytorch_stack`.
  The model carries on as if `pip show` had answered.
- Installer.InstallFramed: describes runs that raise no exception; a run
  that stops early logs no closing line.
- Installer.InstallCommandsOrder: describes runs that raise no exception;
  a run that stops at `install_pytorch_stack` never freezes.
- Installer.Session.Install: its effect is that of a run that raises no
  exception.
- diagnostic.py and test_pytorch_cuda.py are not part of this model.
