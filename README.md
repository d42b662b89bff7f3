# Guardrail host monitor — a verified model of its decision logic

Guardrail is a Windows host-monitoring agent written in Python. Several
monitors watch the machine and hand each event they see to a local language
model. They then show a popup or log the event when the model's answer
contains certain keywords:

- the service keys of the registry;
- the firewall profiles and Defender real-time protection;
- process creation and short-lived processes;
- keystrokes typed into console windows and into all other windows.

A secure shell asks the same model about each command before it runs it, and
lets the user block a command the model calls dangerous. A watchdog restarts
each monitor whenever it returns or raises. Two small scripts print a
directory tree.

This project models, in Dafny, the logic those components apply to what they
observe. All I/O is passed in as parameters: the registry, WMI, psutil,
PowerShell, the keyboard hook, the clipboard, the model call, `json.loads`,
SHA-256, dialogs and the clock. The model covers:

- the registry snapshot and diff;
- the firewall and Defender readings and their comparison;
- the key-event state machine both keyboard hooks run, each on its own buffer;
- the normalisation of the model's answer into a verdict dict;
- the shell's per-command decision and its loop;
- the process record, hash sentinel and lifetime rule;
- the watchdog's bookkeeping;
- both tree printers.

Modules:

- `Common`, `Text`, `Encoding`, `Json`: shared vocabulary. This covers Option, bytes, Python's
  `lower`/`strip`/`in`/`str(int)`/`join`, UTF-16LE and UTF-8, and the values `json.loads` produces.
- `RegistryMonitor`, `SettingsMonitor`, `ProcessMonitor`: the three system monitors.
- `Keys`: the key-event state machine. `CmdMonitor` and `KeystrokeMonitor` are its two hooks.
- `MistralAnalysis`: `analyze_text`. `SecureShell`: the shell.
- `WatchdogTimer`: the supervisor class.
- `FsTree`: the directory tree and name sort. `PrintDirectory` and `PrintSpecificFolder` are the two printers.

Where the code does something a reader may not expect, the model follows the code:

- `register` does not reject a duplicate name, although main.py:21 asks for unique names. Both entries
  get a thread, and `threads` keeps the later one.
- An OSError other than FileNotFoundError from `OpenKey` on one service key (monitor/registry_monitor.py:19)
  escapes `_hash_key_values` and ends the whole enumeration. That key and all keys after it are missing
  from the snapshot; they are not skipped one at a time. An OSError from `EnumValue` only ends the list
  of that key's values (monitor/registry_monitor.py:35-36).
- A service key that cannot be found is still recorded, with no values (`{}`).
- `stop` only clears the flag. Threads are neither joined nor removed.
- A process counts as short-lived when the watcher sees it gone less than five seconds after the
  *watcher* started, not after the process started.
- Every `check_lifetime` closure reads the loop's variables when it runs, not when it was made. See
  "## Findings".

## Model

| member | source | states |
|---|---|---|
| Text.Lower | monitor/registry_monitor.py:109 | same length; each character lowered on its own (ASCII) |
| Text.Strip | monitor/cmd_monitor.py:54 | result is a middle part of the input; everything cut off is whitespace; the result has no whitespace at either end |
| Text.StripEmptyIff | monitor/cmd_monitor.py:54-56 | stripping gives "" exactly when the input is all whitespace |
| Text.StripIdempotent | monitor/keystroke_monitor.py:32 | stripping twice is the same as stripping once |
| Text.Contains | monitor/registry_monitor.py:110 | the substring test holds iff the word occurs at some position |
| Text.MatchesAny | monitor/registry_monitor.py:110 | `any(k in lower for k in words)` holds iff some word occurs in the text |
| Text.KeywordAlertIgnoresCase | monitor/settings_monitor.py:80-81 | an answer and its lowered form alert alike |
| Text.KeywordAlertInContext | monitor/process_monitor.py:77-78 | text added before or after an alerting answer never withdraws the alert |
| Text.UpperCaseWordNeverMatches | monitor/registry_monitor.py:109-110 | a keyword with an upper-case letter can never match a lowered answer |
| Text.NatToStringRoundTrip | monitor/process_monitor.py:40 | the decimal rendering of a pid reads back as that pid |
| Text.IntToString | monitor/registry_monitor.py:31 | `str(n)` is non-empty and starts with '-' exactly for negative n |
| Text.JoinLength | monitor/process_monitor.py:35 | the length of `" ".join` is the parts' lengths plus one separator between each pair |
| Text.JoinContents | monitor/process_monitor.py:35 | part k sits in the joined text after every earlier part and one separator each, and a separator follows it unless it is the last |
| Encoding.Utf16LeRoundTrip | monitor/registry_monitor.py:26-27 | text encoded as UTF-16LE decodes back to the same text |
| Encoding.Utf8Ascii | monitor/registry_monitor.py:30-31 | ASCII text encodes as one byte per character, its code |
| RegistryMonitor.EncodeData | monitor/registry_monitor.py:26-31 | string data is hashed through an encoding that decodes back to the string; bytes are hashed as they are |
| RegistryMonitor.NumberDataIsDecimal | monitor/registry_monitor.py:30-31 | integer data is hashed as its ASCII decimal digits, which read back as the number |
| RegistryMonitor.TypeChangeInvisible | monitor/registry_monitor.py:26-32 | the text "A" and the bytes 41 00 hash alike, so retyping one as the other goes unreported |
| RegistryMonitor.HashKeyValues | monitor/registry_monitor.py:13-38 | a missing key gives {}; any other open failure escapes (None); otherwise every enumerated name maps to the hash of its last value's encoded data |
| RegistryMonitor.ServicePathInjective | monitor/registry_monitor.py:47 | different subkey names give different full paths |
| RegistryMonitor.FirstDenied | monitor/registry_monitor.py:43-51 | position of the first subkey whose read raises; every subkey before it reads |
| RegistryMonitor.SnapshotAllServices | monitor/registry_monitor.py:40-53 | one entry per subkey before the first failing one, under its full path, holding that key's hashes |
| RegistryMonitor.DiffValues | monitor/registry_monitor.py:71-85 | for one key: exactly the new, modified and deleted value names, each once |
| RegistryMonitor.DiffSnapshots | monitor/registry_monitor.py:71-93 | exactly the reported changes (value-level for keys in the new snapshot, key-level for keys in only one), each once |
| RegistryMonitor.NothingReportedIffEqual | monitor/registry_monitor.py:71-93 | no change is reported iff the two snapshots are equal maps of maps |
| RegistryMonitor.KeyLevelChanges | monitor/registry_monitor.py:72-77 | a vanished key gives one key deletion and no value deletions; a new key gives a key addition and one value addition per value |
| RegistryMonitor.Detail | monitor/registry_monitor.py:71-93 | every change text opens with its kind's wording (new, modified or deleted; value or key), names its key, and a value change also names its value |
| RegistryMonitor.DetailDeterminesKind | monitor/registry_monitor.py:75-92 | two changes with the same text are of the same kind |
| RegistryMonitor.SameLeadSameKind | monitor/registry_monitor.py:75-92 | no text opens with the wording of two different kinds of change |
| RegistryMonitor.ValueDetail | monitor/registry_monitor.py:75-84 | the value-change text opens with its lead wording and names both the value and the key |
| RegistryMonitor.RegistryPrompt | monitor/registry_monitor.py:101 | the question carries the change text intact after "REGISTRY_CHANGE: " |
| RegistryMonitor.FlagRegistryChange | monitor/registry_monitor.py:109-112 | flagged iff one of danger, disable, malicious, unauthorized occurs in the lowered answer |
| RegistryMonitor.RegistryWatch.constructor | monitor/registry_monitor.py:56 | the baseline is the first snapshot, nothing flagged |
| RegistryMonitor.RegistryWatch.Pass | monitor/registry_monitor.py:58-97 | a failed pass keeps baseline and flags; otherwise every change is flagged once and the new snapshot becomes the baseline |
| SettingsMonitor.FirewallReadingUnique | monitor/settings_monitor.py:18-31 | the firewall reading is a function of the decoded output |
| SettingsMonitor.LastIndexOf | monitor/settings_monitor.py:21-23 | for a profile name that occurs, the position of its last profile entry |
| SettingsMonitor.GetFirewallState | monitor/settings_monitor.py:18-31 | list: exactly its profile entries, the last of each name winning; single profile dict: one entry; anything else, a decoding failure or an unhashable name: {} |
| SettingsMonitor.DefenderRealtimeState | monitor/settings_monitor.py:43-48 | None unless the output decodes to a dict; otherwise on unless `DisableRealtimeMonitoring` is truthy, on when absent |
| SettingsMonitor.CompareFirewall | monitor/settings_monitor.py:58-62 | exactly the profiles present in both readings whose old value is not None and differs, each once |
| SettingsMonitor.CompareDefender | monitor/settings_monitor.py:64-66 | a change iff both readings exist and differ, carrying both |
| SettingsMonitor.Detail | monitor/settings_monitor.py:61-65 | a change text opens with the firewall or Defender wording, names the firewall profile, holds " changed from <old> to ", and ends with the new value |
| SettingsMonitor.ChangeText | monitor/settings_monitor.py:61-65 | the shared shape of both change texts: it opens with its wording, names its subject, holds " changed from <old> to ", and ends with the new value |
| SettingsMonitor.SettingsPrompt | monitor/settings_monitor.py:72 | the question carries the change text intact after "SETTINGS_CHANGE: " |
| SettingsMonitor.FlagSettingsChange | monitor/settings_monitor.py:80-83 | flagged iff one of danger, disabled, unauthorized, vulnerable occurs in the lowered answer |
| SettingsMonitor.SettingsWatch.constructor | monitor/settings_monitor.py:51-52 | the first readings become the baseline |
| SettingsMonitor.SettingsWatch.Tick | monitor/settings_monitor.py:55-68 | flags the firewall changes and then the Defender change; the new readings replace the baseline, {} and None included |
| Keys.Dispatch | monitor/cmd_monitor.py:52-70 | only enter submits and only backspace drops; ctrl+v appends the clipboard, or does nothing when reading it fails; every other one-character key appends itself; text comes from nowhere else; longer names do nothing |
| Keys.Apply | monitor/cmd_monitor.py:45-70 | only enter hands anything on: the stripped buffer, never empty or padded, and nothing iff the buffer is all whitespace, leaving the buffer empty; backspace keeps a prefix one shorter (none when empty); text is added at the end; other keys keep the buffer |
| Keys.NoSubmitNoCommand | monitor/keystroke_monitor.py:56-64 | without enter nothing is handed on, however much is typed or pasted |
| Keys.AppendsConcatenate | monitor/keystroke_monitor.py:58-64 | typed and pasted pieces accumulate in order |
| Keys.TypedThenEnter | monitor/cmd_monitor.py:52-70 | typing pieces and pressing enter hands on exactly their stripped concatenation (nothing if blank) and empties the buffer |
| Keys.SubmitAlone | monitor/cmd_monitor.py:52-57 | enter alone hands on the stripped buffer, or nothing when blank |
| Keys.RunSplit | monitor/cmd_monitor.py:45-72 | a run of key events splits at any point, the second part starting from the buffer the first leaves |
| Keys.RunWithSplit | monitor/cmd_monitor.py:45-72 | the same split holds whatever each key does to the buffer |
| Keys.BackspaceUndoesChar | monitor/cmd_monitor.py:58-60 | backspace undoes one typed character |
| CmdMonitor.RoutedCases | monitor/cmd_monitor.py:50-51 | key-ups and other windows never reach the buffer; key-downs in either console window always do |
| CmdMonitor.CmdHook.constructor | monitor/cmd_monitor.py:11 | the buffer starts empty |
| CmdMonitor.CmdHook.OnKey | monitor/cmd_monitor.py:45-72 | unrouted events change nothing; routed ones apply the dispatched key action, returning the command to analyse |
| CmdMonitor.EnterFlushes | monitor/cmd_monitor.py:52-57 | enter empties the buffer and hands on the stripped buffer iff it is not blank |
| CmdMonitor.PasteAppends | monitor/cmd_monitor.py:61-67 | ctrl+v appends the whole clipboard without flushing; a failed read changes nothing |
| CmdMonitor.BackspaceDrops | monitor/cmd_monitor.py:58-60 | backspace removes the last character, no-op on an empty buffer |
| CmdMonitor.CmdPrompt | monitor/cmd_monitor.py:23 | the prompt carries the command intact after "CMD: " |
| CmdMonitor.DialogText | monitor/cmd_monitor.py:34 | the dialog quotes the command and the answer verbatim at fixed offsets |
| CmdMonitor.AnalyzeAndPrompt | monitor/cmd_monitor.py:20-43 | AI failure iff the call raised; safe iff no keyword; blocked iff keyword and Cancel (2); allowed otherwise |
| CmdMonitor.ShoutedAnswerFlags | monitor/cmd_monitor.py:29-30 | an answer containing "DANGER" in capitals is flagged |
| KeystrokeMonitor.KeystrokeBuffer.constructor | monitor/keystroke_monitor.py:10 | the buffer starts empty |
| KeystrokeMonitor.KeystrokeBuffer.FlushBuffer | monitor/keystroke_monitor.py:29-34 | returns the stripped buffer and leaves it empty |
| KeystrokeMonitor.KeystrokeBuffer.HandleKey | monitor/keystroke_monitor.py:36-66 | key-ups and console-focused keys change nothing; others apply the dispatched action, returning the content to analyse |
| KeystrokeMonitor.InputPrompt | monitor/keystroke_monitor.py:22 | the prompt is the source, ": ", and the content intact |
| KeystrokeMonitor.InputAlert | monitor/keystroke_monitor.py:20-27 | popup iff the analyser answered and its lowered answer contains one of the five words |
| KeystrokeMonitor.TerminalReachesBothHooks | monitor/keystroke_monitor.py:42-43 | Windows Terminal key-downs reach both buffers |
| KeystrokeMonitor.EveryKeyDownIsRecorded | monitor/keystroke_monitor.py:39-43 | every key-down reaches at least one buffer; both exactly under Windows Terminal |
| MistralAnalysis.FullPrompt | ai/mistral_analysis.py:10-15 | the fixed preamble, "Command:\n", then the prompt intact |
| MistralAnalysis.FullPromptInjective | ai/mistral_analysis.py:10-15 | different prompts give different messages |
| MistralAnalysis.ReplyContent | ai/mistral_analysis.py:23 | the stripped content iff response and message are dicts and the content a string; missing parts default |
| MistralAnalysis.MissingContentIsEmpty | ai/mistral_analysis.py:23 | a missing message or content reads as "" |
| MistralAnalysis.SafeVerdict | ai/mistral_analysis.py:31-34 | the fallback dict holds exactly DANGEROUS False and the reason |
| MistralAnalysis.AnalyzeText | ai/mistral_analysis.py:8-48 | always a dict with both keys; the decoded verdict when well formed, else the invalid-format, malformed or AI-error verdict |
| MistralAnalysis.FailuresAreSafe | ai/mistral_analysis.py:26-48 | a verdict that is not "not dangerous" can only be the model's own decoded answer |
| MistralAnalysis.EmptyContentIsMalformed | ai/mistral_analysis.py:23-41 | a missing content gives the malformed verdict when the decoder rejects "" |
| SecureShell.IsDangerousByAi | secure_shell.py:6-25 | dict: dangerous iff DANGEROUS is exactly True, with its reason or the default; string: iff a phrase occurs in any case, with itself as reason; else safe with "" |
| SecureShell.TruthyFlagIsNotDanger | secure_shell.py:14-16 | a truthy DANGEROUS other than True counts as safe |
| SecureShell.Decide | secure_shell.py:51-83 | blank lines and Ctrl+C skip; exit/quit in any case exits; other lines run iff safe or allowed, else blocked, always stripped |
| SecureShell.BlockedUnlessOk | secure_shell.py:38-75 | a command judged dangerous runs on OK (1); Cancel (2) and a failed dialog (0) both block it |
| SecureShell.Steps | secure_shell.py:51-90 | one step per input |
| SecureShell.StepsAt | secure_shell.py:51-90 | the i-th step is the decision on the i-th input |
| SecureShell.OutcomeAt | secure_shell.py:51-90 | how one step extends the outcome from there on |
| SecureShell.HandleAt | secure_shell.py:51-83 | the iteration on the i-th input line takes the session's i-th step |
| SecureShell.SessionStep | secure_shell.py:51-90 | after one more input: exit ends the session with what was run so far, execute runs one more command, skip and block run nothing |
| SecureShell.ShellLoop | secure_shell.py:49-90 | the commands executed and the exit flag are those of the session over the inputs |
| SecureShell.CancelledNeverRuns | secure_shell.py:70-75 | a dangerous command the user cancels never runs |
| SecureShell.OutcomeRunsOnlyExecuted | secure_shell.py:70-83 | every command run comes from an execute step |
| SecureShell.SessionRunsOnlyApproved | secure_shell.py:51-90 | every command a session runs was decided Execute for some input |
| SecureShell.NothingAfterExit | secure_shell.py:56-59 | steps after an exit never run |
| SecureShell.StepsConcat | secure_shell.py:51-90 | decisions on concatenated inputs concatenate |
| SecureShell.SessionEndsAtExit | secure_shell.py:56-59 | inputs after the first exit line change nothing |
| SecureShell.FailsOpen | secure_shell.py:64-83 | when the model call raises, the command runs without a dialog |
| ProcessMonitor.Hexdigest | monitor/process_monitor.py:18 | two lowercase hex digits per byte |
| ProcessMonitor.HexdigestRoundTrip | monitor/process_monitor.py:18 | reading the hex digits back gives the digest |
| ProcessMonitor.HexdigestInjective | monitor/process_monitor.py:18 | different digests give different hex texts |
| ProcessMonitor.HexdigestIsNotSentinel | monitor/process_monitor.py:18-20 | a digest is never "N/A" |
| ProcessMonitor.Sha256Field | monitor/process_monitor.py:12-20 | "N/A" iff the file cannot be read; otherwise hex text that reads back as the file's digest |
| ProcessMonitor.ComputeSha256 | monitor/process_monitor.py:12-20 | "N/A" iff the file cannot be read; otherwise the digest of the whole file fed in 4096-byte chunks |
| ProcessMonitor.HashField | monitor/process_monitor.py:36-37 | the sentinel for an empty path; otherwise `_compute_sha256` of the file; so the sentinel iff the path is empty or unreadable |
| ProcessMonitor.ToAiPidInjective | monitor/process_monitor.py:40 | for one name, the description tells pids apart |
| ProcessMonitor.NewProcessEvent | monitor/process_monitor.py:26-48 | no record for a vanished or uninspectable process; otherwise its pid, its description, the lowered parent name ("" when the lookup raised), the joined command line, and the hash field of its executable |
| ProcessMonitor.Rebind | monitor/process_monitor.py:26-48 | every event rebinds `pid`, even for a vanished process; the other variables are rebound only for an inspected one |
| ProcessMonitor.CreationPrompt | monitor/process_monitor.py:76 | the creation question carries the description intact after "PROCESS_CREATION: " |
| ProcessMonitor.ShortLivedPrompt | monitor/process_monitor.py:57 | the short-lived question carries the parent name and the description intact at fixed offsets |
| ProcessMonitor.Classify | monitor/process_monitor.py:56-67 | AI failure iff the call raised; flagged iff the lowered answer holds a keyword |
| ProcessMonitor.MalwareFlagsOnlyShortLived | monitor/process_monitor.py:56-80 | "malware" flags a short-lived process but not a creation |
| ProcessMonitor.LifetimeOfMeaning | monitor/process_monitor.py:50-69 | still watching iff every poll saw it alive; else the duration is from the first poll seeing it gone, short-lived iff under 5 s, and the question uses what that poll read |
| ProcessMonitor.CheckLifetime | monitor/process_monitor.py:50-69 | the polling loop of a watcher bound to its own process returns the lifetime its own polls determine |
| ProcessMonitor.OwnWatcherReportsOwnProcess | monitor/process_monitor.py:50-57 | such a watcher reports short-lived only its own process, and only when seen gone within 5 s; a process alive at every poll is never reported |
| ProcessMonitor.LateBindingReportsLiveProcess | monitor/process_monitor.py:26-57 | as written, an event for a vanished process makes a running process's watcher report it short-lived with that process's parent and description |
| ProcessMonitor.Prompts | monitor/process_monitor.py:50-80 | the creation prompt always, the short-lived prompt only for a short-lived process, built from what the watcher read |
| ProcessMonitor.TwoSecondsVersusThirty | monitor/process_monitor.py:50-57 | gone after 2 s: two analyses; gone after 30 s: one |
| WatchdogTimer.LastIndexOfName | utils/watchdog_timer.py:30-33 | the last registered entry of a name, or -1 |
| WatchdogTimer.Watchdog.constructor | utils/watchdog_timer.py:5-9 | no monitors, no threads, not running |
| WatchdogTimer.Watchdog.Register | utils/watchdog_timer.py:11-12 | appends the entry, duplicates allowed, nothing else changes |
| WatchdogTimer.Watchdog.StartThread | utils/watchdog_timer.py:14-17 | a new thread, recorded under its name, replacing an earlier one |
| WatchdogTimer.Watchdog.Start | utils/watchdog_timer.py:30-33 | sets running; one thread per entry in order, each with no calls yet; the thread map is the one `StartedThreads` builds |
| WatchdogTimer.StartedThreadsLast | utils/watchdog_timer.py:30-33 | after starting, each registered name maps to the thread of its last entry, and every other name keeps its thread |
| WatchdogTimer.Watchdog.MonitorWrapper | utils/watchdog_timer.py:19-28 | while running, every call counts, returned or raised |
| WatchdogTimer.Watchdog.Stop | utils/watchdog_timer.py:35-37 | only clears the flag |
| FsTree.NameLeTotal | Print_directory.py:5 | name order is total |
| FsTree.NameLeTrans | Print_directory.py:5 | name order is transitive |
| FsTree.NameLeAntisymmetric | Print_directory.py:5 | name order is antisymmetric |
| FsTree.Insert | Print_directory.py:5 | inserting adds exactly one entry |
| FsTree.InsertSorted | Print_directory.py:5 | inserting into a sorted listing keeps it sorted |
| FsTree.SortByName | Print_directory.py:5 | `items.sort()`: sorted by name and a permutation of the listing |
| FsTree.SortedSameEntries | Print_directory.py:5 | sorting keeps exactly the listing's entries |
| FsTree.ListCountSorted | Print_directory.py:4-5 | sorting keeps the number of entries at every depth |
| FsTree.DriveLength | Print_directory.py:18 | `ntpath.splitdrive`'s drive: a UNC share runs to the second separator after the opening pair, or is the whole path; otherwise a drive letter and colon, or nothing |
| FsTree.Basename | Print_directory.py:18 | the longest separator-free end of the path after its drive: it reaches back to the last separator or to the drive |
| FsTree.ShareRootHasNoName | Print_directory.py:18 | the base name of `\\server\share` is "" |
| FsTree.DriveLetterKeepsName | Print_directory.py:18 | the base name of `D:\x` is "x" |
| FsTree.Header | Print_directory.py:18 | the base name followed by "/" |
| FsTree.Render | Print_directory.py:9-10 | a line is the prefix, a 4-character connector, then the name |
| PrintDirectory.TreeRaised | Print_directory.py:3-13 | the run raises iff some directory at some depth cannot be listed |
| PrintDirectory.TreeCount | Print_directory.py:3-13 | a full run prints one line per entry at every depth |
| PrintDirectory.TreeIndented | Print_directory.py:6-13 | every line carries the prefix; the first is the first name in order, with "└── " iff it is the only entry |
| PrintDirectory.ItemsRaised | Print_directory.py:6-13 | the loop over a listing raises iff some directory below one of its entries cannot be listed |
| PrintDirectory.ItemsCount | Print_directory.py:6-13 | the loop prints one line per entry at every depth |
| PrintDirectory.ItemsIndented | Print_directory.py:6-13 | every line of the loop carries the prefix; the first is the first entry |
| PrintDirectory.Siblings | Print_directory.py:6-10 | one row per entry at the given prefix, "last" only on the last |
| PrintDirectory.TreeLevel | Print_directory.py:4-10 | the lines at the directory's own indent are exactly its sorted entries, "└── " only on the last; a prefix of them when a subdirectory raises |
| PrintDirectory.ItemsLevel | Print_directory.py:6-13 | the loop's lines at its own indent are exactly one per entry in order |
| PrintDirectory.ItemsAreBlocks | Print_directory.py:6-13 | a loop that does not raise prints in pre-order, entry by entry: the entry's line ("└── " only on the last), then its whole subtree printed under the prefix plus "    " after the last entry and "│   " otherwise (nothing for a file), before the next entry |
| PrintDirectory.TreeAreBlocks | Print_directory.py:3-13 | a run that does not raise prints the sorted entries' blocks one after the other |
| PrintSpecificFolder.Visible | print_specific_folder.py:13 | keeps exactly the entries not starting with '.', no others |
| PrintSpecificFolder.PrintTree | print_specific_folder.py:6-13 | an unreadable directory prints nothing; otherwise at least one line per visible entry |
| PrintSpecificFolder.PrintItems | print_specific_folder.py:15-25 | each visible entry prints its own line first, "last" counted over the visible entries |
| PrintSpecificFolder.TreeVisible | print_specific_folder.py:13-19 | no hidden name is printed, at any depth |
| PrintSpecificFolder.TreeIndented | print_specific_folder.py:15-25 | every line carries the prefix it was printed under |
| PrintSpecificFolder.TreeFlat | print_specific_folder.py:21-25 | below the top level, a directory with no included folder prints its visible entries only, the last with "└── " |
| PrintSpecificFolder.BelowShown | print_specific_folder.py:21-25 | lines appear beneath an entry iff the loop opens it (a directory that is included or at the top) and it is readable with a visible entry; the first is that entry |
| PrintSpecificFolder.ItemsAreBlocks | print_specific_folder.py:15-25 | the loop prints, entry by entry in order, the entry's line ("└── " only on the last visible entry) followed directly by the lines beneath it, which `BelowShown` characterises |
| FsTree.FlatAt | print_specific_folder.py:15-25 | in lines printed block after block, the line of block k comes after every earlier block and its sub-lines follow it directly |
| PrintSpecificFolder.TreeAgrees | print_specific_folder.py:6-25 | on a tree with no unreadable directory, no hidden name and only included folders, both printers print the same lines |

## Left out

- FsTree.DriveLength: the `\\?\UNC\` long-path prefix, which `ntpath` skips before looking for the server name, is not modelled; such a path is treated as an ordinary UNC path. The rule modelled is that of Python 3.11 and later; older versions treat a UNC path without a share differently.
- All I/O is left out, and the values it returns are parameters. This covers WMI, psutil, winreg,
  win32api change notification, the keyboard hook, foreground-window lookup, the clipboard,
  subprocess/PowerShell, `ollama.chat`, `json.loads`, SHA-256, message boxes, `show_popup` and `log_event`.
  Popups and log lines are not modelled: each flagging decision is a boolean or verdict.
- Threads, locks, daemon threads and `time.sleep` are left out. Sleeps are no-ops. The watchdog's
  threads are modelled by their bookkeeping; how their calls interleave is not modelled.
- Wall-clock times are integer milliseconds, not floats.
- Text.Lower: only ASCII letters are lowered. Python's `str.lower()` also lowers non-ASCII letters.
- The keystroke hook deadlocks on enter. `handle_key` calls `flush_buffer` while it holds the
  non-reentrant lock (monitor/keystroke_monitor.py:47-49). KeystrokeMonitor.KeystrokeBuffer.HandleKey
  models the sequential effect the code evidently means.
- The keyword tests are modelled on strings. Every monitor calls `.lower()` on what `analyze_text`
  returns, which is a dict, so as written that call raises. The composed pipeline from
  `analyze_text` to a popup is not modelled.
- RegistryMonitor.RegistryWatch.Pass: as written, the `.lower()` at monitor/registry_monitor.py:109
  raises out of the diff at the first reported change. The `except` at monitor/registry_monitor.py:95-97
  then keeps the old baseline, so that first change is reported again on every pass and the changes
  after it never reach the keyword test. Pass models the answer as a string.
- SettingsMonitor.SettingsWatch.Tick: as written, the `.lower()` at monitor/settings_monitor.py:80 has no
  `try` around it, so the first reported change ends the monitor thread. The watchdog restarts it with a
  fresh baseline, and the remaining changes of that tick are dropped. Tick models the answer as a string.
- ProcessMonitor.Rebind: `Failed` stands for the first call on the process raising. A later call raising,
  after some of the loop's variables were already rebound, is not modelled. Nor is a rebinding between a
  watcher's `pid_exists` test (monitor/process_monitor.py:53) and its question (monitor/process_monitor.py:57):
  each poll reads one set of bindings.
- `shell_loop` never ends on end of input: `input()` raising EOFError is caught and the loop
  retries. SecureShell.ShellLoop runs over a finite list of inputs.
- SecureShell.Decide: an error raised inside one iteration, the `except Exception` path, is
  not modelled. `execute_command`'s own failure path is a log line only.
- The text of the block popup and of the failure popups is not modelled.
- The "ping" call after an analysis failure is not modelled: it is fire-and-forget.
- Python's `True == 1` (the same dict key) and JSON floats are not modelled.
- Dictionary iteration order is not modelled. The diff loops take keys in any order, so the
  contracts state which changes are reported, not their order.
- SettingsMonitor.Detail renders only scalar values. `str()` of a list or dict profile value is not modelled.
- The module-level script code of both tree printers, a hard-coded root path and `print` calls, is
  not modelled beyond the header line (FsTree.Header). Each printer returns its rows, and
  FsTree.Render gives the printed line.
- PrintDirectory: `os.path.isdir` is modelled by the node kind. Symbolic links and entries
  that change while the tree is walked are not modelled.
- mistral_client.py, mistral_request.py, main.py, utils/logger.py and utils/popups.py are not part of
  this model. They are one-shot HTTP scripts, wiring, logging and UI.

## Findings

| source | as written | input that shows it | evidently intended | confidence | as-written member | corrected member |
|---|---|---|---|---|---|---|
| monitor/process_monitor.py:50-57 | `check_lifetime` is a closure over `_monitor_loop`'s variables, so every watcher tests and reports the `pid`, `parent_name` and `to_ai` the loop bound last; `pid` is rebound at line 27 even for a process that has already vanished | a running process A is created, then an event arrives for a process B that exited at once: A's watcher tests B's pid, finds it gone, and asks a short-lived question with A's parent and description | each watcher tests and reports its own process | not executed | ProcessMonitor.SharedPolls, ProcessMonitor.LateBindingReportsLiveProcess | ProcessMonitor.CheckLifetime, ProcessMonitor.OwnWatcherReportsOwnProcess |
