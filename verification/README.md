# Network throughput monitor of tmux-statusline, in Dafny

This project models the network throughput monitor of tmux-statusline. That
is the `Network` object whose status-bar segment the daemon prints for tmux.
Each `Update` does four things:

- samples the cumulative byte counters of the host's interfaces, from
  `netstat -nbi` on Darwin or `/proc/net/dev` on Linux;
- divides the change since the previous sample by the elapsed time;
- scales each rate to b/s, KB/s, MB/s or GB/s, and cuts the printed number
  to four characters;
- renders the segment between the fixed powerline prefix and suffix, and
  keeps the current sample as the previous one.

Two copies of the class exist, and both are modelled as Dafny classes whose
methods follow the Python loops:

- `TmuxNetwork.Network` (modules/tmux_network.py) is the current copy. It
  counts only the configured interface, or every interface for "all". On
  Linux it switches the setting to "all" unless some raw line of
  /proc/net/dev equals the setting as a whole. Because `readlines` keeps
  the '\n' at the end of each line, a plain interface name always switches
  to "all" there (`Sampling.FallbackWhenLinesEndInNewline`). It names a
  Linux interface by the part of its first token before ':'.
- `LegacyStatusLine.Network` (statusline.py) is the older copy. It counts
  every interface its skip tests let through. On Linux it keys an interface
  by the whole first token.

Both copies mean to leave out the loopback interface. On Linux neither does,
because the kernel writes that interface as `lo:` (see "## Findings").

Each method is proved against a specification function:

- The sampling loops are proved against `Sampling.Sum`, a left fold of one
  loop step (`Sampling.Step`) over the classified lines.
- `GetRates` is proved against `Formatting.WithRates`, which applies
  `Rates.Rate` to both keys.
- `GetUnits` is proved against `Formatting.WithUnits`, which applies
  `Formatting.Humanize` to both keys.
- `GetStatusLine` is proved against `Formatting.Render`.

Lemmas then state what these functions guarantee. Examples:

- each interface is recorded, and its transmit bytes added, at most once;
- a line the skip tests catch changes nothing;
- the chosen unit is the largest one that fits;
- the segment's width is fixed apart from the two numbers shown.

A line whose transmit field fails still adds its receive bytes, so a later
line for the same interface can add them again.

The Python library behaviour the loops depend on is modelled in `PyText`:
`str.split()`, `str.split(c)`, substring `in` and `int()` on a token.

Three behaviours of the code are worth stating outright:

- **No zero rate on the first cycle.** The first cycle is measured against
  a zero sample taken at time 0, so its rate is not forced to 0
  (`Rates.FirstCycleRateNotForcedToZero`).
- **No clamping.** A clock that runs backwards gives a negative rate
  (`Rates.BackwardClockGivesNegativeRate`).
- **Magnitude text.** It is `str(x)[0:4]` with a final '.' replaced by a
  space. So a one-second 1024-byte delta shows "1.0" KB/s and an unchanged
  counter shows "0.0" b/s (`Formatting.OneSecondExample`). The integer 0,
  stored when no time has elapsed, shows "0".

## Model

| member | source | states |
|---|---|---|
| PyText.Words | modules/tmux_network.py:47 | `line.split()`: every token is non-empty and free of whitespace |
| PyText.WordsOfSpaceJoin | modules/tmux_network.py:47 | splitting whitespace-free tokens joined by spaces gives the same tokens back |
| PyText.Split | modules/tmux_network.py:46 | `split(c)` yields at least one part, and no part contains `c` |
| PyText.JoinSplit | modules/tmux_network.py:46 | joining the parts of `split(c)` with `c` restores the text |
| PyText.SplitJoin | modules/tmux_network.py:46 | `split(c)` recovers any non-empty list of `c`-free parts joined by `c` |
| PyText.FirstPiece | modules/tmux_network.py:75 | `split(':')[0]` is a prefix of the token, followed by ':' when it is shorter |
| PyText.ContainsIff | modules/tmux_network.py:50 | substring `in` holds exactly when the needle occurs at some index of the text |
| PyText.Take | modules/tmux_network.py:107 | `[0:4]` is a prefix of the text whose length is clamped to the text's length |
| PyText.ParseInt | modules/tmux_network.py:58-59 | `int(tok)` succeeds only on an optional sign followed by digits, and is negative only after '-' |
| PyText.ParseIntRejects | modules/tmux_network.py:58-59 | a token holding a character that is neither a digit nor a leading sign does not parse |
| PyText.ParseShowInt | modules/tmux_network.py:58-59 | `int` parses the decimal text of any integer back to that integer |
| Sampling.FilterOf | modules/tmux_network.py:53-54 | a line's interface is admitted exactly when it equals the setting or the setting is "all" |
| Sampling.CrashedIffBlank | modules/tmux_network.py:71-75 | the Linux loop raises at `data[0]` exactly when some line that is not skipped has no tokens |
| Sampling.CrashIsFinal | modules/tmux_network.py:75 | once the loop has raised, later lines change nothing |
| Sampling.SeenIsCompleted | modules/tmux_network.py:55-62 | `interfaces` holds exactly the admitted names of lines whose two byte fields both parsed |
| Sampling.SeenDistinctAndAdmitted | modules/tmux_network.py:53-62 | `interfaces` never holds a name twice, and holds only admitted names |
| Sampling.NamedCountsAtMostOne | modules/tmux_network.py:53-56 | with a named interface, at most one name is recorded as counted, and it is that interface's |
| Sampling.LineContribution | modules/tmux_network.py:55-62 | a line adds its receive bytes if its interface is admitted and not yet counted, and its transmit bytes only when both fields parse |
| Sampling.DuplicateAddsNothing | modules/tmux_network.py:55-56 | a second line for an interface already counted leaves the sums and the list unchanged |
| Sampling.PartialLineCountsReceive | modules/tmux_network.py:57-61 | when the transmit field fails to parse, the receive bytes are still added and the interface is not recorded |
| Sampling.LoopbackIgnored | modules/tmux_network.py:50 | a line the loopback test catches as written ('lo' within the Darwin name, or a bare 'lo' token on Linux) changes nothing |
| Sampling.LinuxHeaderIgnored | modules/tmux_network.py:73-74 | a line holding an 'Inter-' or 'face' token (the second header line of /proc/net/dev) changes nothing |
| Sampling.DarwinShortOrHeaderIgnored | modules/tmux_network.py:48-51 | a netstat line with fewer than 10 tokens, or the 'Name' header, changes nothing |
| Sampling.DarwinNeverCrashes | modules/tmux_network.py:46-62 | the Darwin loop never raises, since every index it uses has been checked |
| Sampling.LinuxInterface | modules/tmux_network.py:69-70 | the setting is kept exactly when it is "all" or equals one of the raw lines; otherwise it becomes "all" |
| Sampling.FallbackWhenLinesEndInNewline | modules/tmux_network.py:66-70 | since `readlines` keeps each '\n', a setting without '\n' always falls back to "all" |
| Sampling.LinuxNameBeforeColon | modules/tmux_network.py:75 | the current Linux name is the part of the first token before its first ':', and holds no ':' |
| Sampling.LegacyLinuxAgreesUpToColons | statusline.py:71-83 | under "all", the legacy and current Linux loops give the same sums and failure, and the current list of names is the legacy one stripped at ':', whenever stripping merges no two interfaces |
| Sampling.KernelHeaderLine | statusline.py:71-75 | the first header line (`Inter-|   Receive  |  Transmit`) is not skipped by the legacy loop: it becomes a row named `Inter-|`, and is a kernel line although not of the form `name:` |
| Sampling.KernelTableIsStripInjective | statusline.py:71-75 | on a table of kernel lines (the two header lines, and interface lines whose first token is `name:`, no interface being called `Inter-|`), stripping at ':' merges no two interfaces |
| Sampling.LinuxLoopbackCounted | modules/tmux_network.py:73 | as written, a line with the tokens of `LoLine` (first token `lo:`) passes the loopback test, and both Linux loops add its bytes and record it |
| Sampling.LoLineWords | modules/tmux_network.py:72 | the concrete line `LoLine` has those tokens |
| Sampling.IntendedLoopbackIgnored | modules/tmux_network.py:14-15 | corrected: a line whose first token names `lo` changes nothing, whatever the filter |
| Sampling.IntendedNeverCountsLoopback | modules/tmux_network.py:14-15 | corrected: no name recorded as counted strips to `lo` |
| Sampling.DropLoopback | modules/tmux_network.py:14-15 | the lines kept are exactly those of the table whose first token does not name `lo` |
| Sampling.IntendedIsDroppingLoopback | modules/tmux_network.py:71-85 | on every table, the correction gives the tally the code gives on that table with its loopback lines removed |
| Sampling.IntendedDiffersOnlyOnLoopback | modules/tmux_network.py:71-85 | corollary: the correction gives the same tally as the code on a table without a loopback line |
| Rates.Rate | modules/tmux_network.py:89-98 | the rate is the integer 0 exactly when no time elapsed; otherwise it is the float whose product with the elapsed time is the byte delta |
| Rates.RateSign | modules/tmux_network.py:91-96 | with time moving forward, the rate is non-negative (zero) exactly when the counter did not fall (did not change) |
| Rates.BackwardClockGivesNegativeRate | modules/tmux_network.py:91-96 | a clock that went backwards turns growing counters into a negative rate |
| Rates.FirstCycleRateNotForcedToZero | modules/tmux_network.py:27-31 | against the initial zero sample, non-zero counters read at a non-zero time give a non-zero rate |
| Formatting.Label | modules/tmux_network.py:104-115 | every unit label is four characters wide |
| Formatting.UnitFor | modules/tmux_network.py:105-115 | the chosen unit's divisor is at most the rate (or the unit is bytes), and the rate is below 1024 of it (or the unit is GB) |
| Formatting.UnitForIsLargestFitting | modules/tmux_network.py:105-115 | no larger unit than the chosen one also fits the rate |
| Formatting.UnitForMonotone | modules/tmux_network.py:105-115 | a larger rate never gets a smaller unit |
| Formatting.UnitBoundaries | modules/tmux_network.py:105-111 | the unit changes exactly at 1024, 1048576 and 1073741824 bytes per second |
| Formatting.ScaledRange | modules/tmux_network.py:107-113 | from 1024 upward, the scaled value is at least 1, and below 1024 unless the unit is GB |
| Formatting.Magnitude | modules/tmux_network.py:116-119 | the text is cut to at most four characters, does not end in '.', and agrees with the input except for a final '.' that became a space |
| Formatting.Humanize | modules/tmux_network.py:103-119 | the units are the label of the unit chosen for the rate, the magnitude is 1 to 4 characters without a final '.', and the integer 0 shows as "0" b/s |
| Formatting.HumanizeRate | modules/tmux_network.py:103-119 | the threshold ladder and the cut yield exactly the magnitude and units of `Humanize` |
| Formatting.OneSecondExample | modules/tmux_network.py:91-119 | 1024 bytes in one second show as "1.0" KB/s, and an unchanged counter shows as "0.0" b/s |
| Formatting.ZeroElapsedShowsZero | modules/tmux_network.py:94-98 | when no time elapsed, both directions show "0" b/s |
| Formatting.WithRates | modules/tmux_network.py:89-98 | every key receives a numeric (not yet text) rate, and the keys, icons and units are kept |
| Formatting.Humanized | modules/tmux_network.py:103-121 | an entry gets text of 1 to 4 characters and a four-character unit, and keeps its icon |
| Formatting.WithUnits | modules/tmux_network.py:100-121 | every key's rate becomes text with a four-character unit, and the icons and the set of keys are kept |
| Formatting.Render | modules/tmux_network.py:123-133 | the segment starts with the prefix and a space, and ends with the suffix |
| Formatting.RenderTwoGroups | modules/tmux_network.py:126-131 | the segment is the prefix, a space, the two key groups in dictionary order, then the suffix |
| Formatting.RenderedWidth | modules/tmux_network.py:126-131 | the segment's width is fixed except for the widths of the two magnitudes |
| TmuxNetwork.ReadCounters | modules/tmux_network.py:33-87 | only Linux can raise or change the setting; other platforms read zero sums and keep the old time |
| TmuxNetwork.Network.constructor | modules/tmux_network.py:21-31 | starts from zero samples and the initial rates, then performs one update whose outcome is stated in full |
| TmuxNetwork.Network.GetNetBytes | modules/tmux_network.py:33-87 | the new sums, time and setting are those of `ReadCounters`, and it fails exactly when that read raises |
| TmuxNetwork.Network.SumNetstat | modules/tmux_network.py:46-62 | the Darwin loop leaves the sums of `Sum` over the netstat lines under the setting's filter |
| TmuxNetwork.Network.SumProcNetDev | modules/tmux_network.py:71-85 | the Linux loop leaves the sums of `Sum` over the lines, and fails exactly when `Sum` records a raise |
| TmuxNetwork.Network.GetRates | modules/tmux_network.py:89-98 | `rates` becomes `WithRates` of the old rates from the previous to the current sample |
| TmuxNetwork.Network.GetUnits | modules/tmux_network.py:100-121 | `rates` becomes `WithUnits` of the old rates |
| TmuxNetwork.Network.GetStatusLine | modules/tmux_network.py:123-133 | the previous sample becomes the current one, and the status line is `Render` of the rates in key order |
| TmuxNetwork.Network.Update | modules/tmux_network.py:135-141 | it returns nothing and keeps the rates, the previous sample and the status line exactly when the read raises; otherwise it returns the rendered segment of one full cycle |
| LegacyStatusLine.ReadCounters | statusline.py:37-85 | only Linux can raise; other platforms read zero sums |
| LegacyStatusLine.SameAsAllInterfaces | statusline.py:37-85 | the legacy read gives the sums and failure of the current read with interface "all", and the current read stamps the time the legacy `GetNetBytes` stamps (`now` on Darwin and Linux, the old time elsewhere); the tallies are equal off Linux, and on Linux the names agree up to stripping at ':' whenever stripping merges no two interfaces |
| LegacyStatusLine.Network.constructor | statusline.py:29-35 | starts from zero samples and the initial rates, then performs one update whose outcome is stated in full |
| LegacyStatusLine.Network.GetNetBytes | statusline.py:37-85 | the new sums and time are those of `ReadCounters`, and it fails exactly when that read raises |
| LegacyStatusLine.Network.SumNetstat | statusline.py:50-64 | the Darwin loop leaves the sums of `Sum` over every interface of the netstat lines |
| LegacyStatusLine.Network.SumProcNetDev | statusline.py:71-83 | the Linux loop, keyed by whole first tokens, leaves the sums of `Sum` and fails exactly when `Sum` records a raise |
| LegacyStatusLine.Network.GetRates | statusline.py:87-96 | `rates` becomes `WithRates` of the old rates from the previous to the current sample |
| LegacyStatusLine.Network.GetUnits | statusline.py:98-119 | `rates` becomes `WithUnits` of the old rates |
| LegacyStatusLine.Network.GetStatusLine | statusline.py:121-131 | the previous sample becomes the current one, and the status line is `Render` of the rates in key order |
| LegacyStatusLine.Network.Update | statusline.py:133-139 | it returns nothing and keeps the rates, the previous sample and the status line exactly when the read raises; otherwise it returns the rendered segment of one full cycle |

## Findings

The classes model the code as written. The corrected layouts
`Sampling.IntendedLinux` and `Sampling.IntendedLegacyLinux` state the
intended behaviour, and the lemmas about them prove it.

| source | as written | input that shows it | evidently intended | confidence | as-written member | corrected member |
|---|---|---|---|---|---|---|
| modules/tmux_network.py:73 | `'lo' in data` compares whole tokens, but /proc/net/dev writes the loopback interface as `lo:`, so its line is not skipped and its bytes are summed | a line with tokens `lo: 100 1 0 0 0 0 0 0 200 1`: the tally becomes rx 100, tx 200, recorded name `lo` | the loopback interface is left out, as the class docstring says (lines 14-15, 36) | high, not executed | Sampling.LinuxLoopbackCounted | Sampling.IntendedLoopbackIgnored |
| statusline.py:73 | the same whole-token test in the legacy loop | the same line: rx 100, tx 200, recorded name `lo:` | the loopback interface is left out, as the class docstring says (lines 22-23, 40) | high, not executed | Sampling.LinuxLoopbackCounted | Sampling.IntendedNeverCountsLoopback |

## Left out

- The host is an input, not a call:
  - `os.uname()[0]` is the `osType` constructor parameter.
  - The output of `Popen(['netstat', '-nbi'])`, the lines returned by `readlines()` on /proc/net/dev, and `time()` are fields of `OsInput`, passed to each `Update`.
  - Process spawning, file opening and closing, and their failures are not modelled.
- `str(float)` is an abstract parameter `repr` that never returns empty text. Python 2.7 prints a float with `str` to 12 significant digits (the `%.12g` form, including exponent forms such as "1e-05"). That printing is not modelled, so magnitudes are proved about whatever `repr` prints.
- Floats are Dafny `real`. IEEE rounding, infinities and NaN are not modelled. The division by the elapsed time is exact.
- The order of the `rates` dictionary's keys is a parameter satisfying `IsKeyOrder`: either rx then tx, or tx then rx. Python 2 fixes it by hashing, which is not modelled.
- Strings are Dafny `seq<char>`, while Python 2 `str` holds bytes. The arrows and the powerline glyph are single characters here, so the widths in `RenderedWidth` count characters, not bytes.
- PyText.ParseInt: accepts an optional sign followed by digits, and nothing else. Python's `int()` also strips surrounding whitespace, but tokens from `split()` never hold any.
- An exception escaping `GetNetBytes` (a Linux line with no tokens) is the `None` result of `Update`. The partially updated current sums stay behind, as in Python. In the constructor the model keeps the object with no status line rather than propagating the error.
- GetUnits requires that no rate is text yet. `Update` always runs `GetRates` first, which establishes this, so the requirement only excludes a call order the class never uses.
- The socket listener, the lock file, signal handling, the JSON configuration file, and the `Load` and `Clock` segments (tmux_statusline.py, modules/tmux_load.py, modules/tmux_clock.py) are not part of this model. Only the configuration's `interface` entry is modelled, as a map.
- Concurrency is not modelled. The daemon calls `Update` from one thread.
