# PwnableHarness core, modelled in Dafny

PwnableHarness is a harness for capture-the-flag challenges. A challenge binary
calls `server_main`, which parses the command line. The harness then either runs
the challenge's connection handler directly or starts a forking socket server.
That server logs every connection and can ask clients for a password. It
scrubs the Docker-provided environment before running the handler. Beside the
harness the repository ships a resource-limit example challenge and a
build-time script. The script lists the Ubuntu releases that Docker images
should be built for.

This project models the sequential logic of four of those files:

- `core/pwnable_harness.c` (module `Harness`):
  - the `server_main` argv scanner, which updates the options record and the
    process-wide `skipListen` and `password` settings (class `Harness.Harness`);
  - the `show_usage` column padding;
  - the guard and mode choice of `serve_internal`;
  - the connection log line with its four-octet IP split;
  - `clean_env` over the environment (class `LibC.Environment`);
  - the password check, which uses `fgets` into a 100-byte array, cuts at the
    newline in place, and compares with `strcmp`.
- `pwnable_harness.c`, the older harness (module `LegacyHarness`):
  - its smaller argv scanner with the "Unkown argument" usage text;
  - the not-listening marker set with `setenv(..., 0)`;
  - the marker short-circuit of `serve`;
  - its connection log line (module `Net`).
- `examples/ResourceLimits/limit-me-harder.c` (module `ResourceLimits`):
  - `get_bytes_unit`;
  - the `format_byte_count` loop and its `snprintf` into an 11-byte buffer;
  - `flush_line` and `scanf("%d")` over a standard-input stream (class
    `ResourceLimits.Stdin`);
  - the retry loop of the 1..3 menu.
- `get_supported_ubuntu_versions.py` (module `UbuntuVersions`):
  - the series filter loop, `ubus.sort()` and the four print loops;
  - the records and the current time are parameters.

Shared pieces:

- `LibC` holds the C library behaviour the code relies on: decimal text,
  `atoi`, `strchr`, C strings, the unsigned short and unsigned int
  conversions, `snprintf` truncation and `getenv`/`setenv`/`unsetenv`.
- `ServerConfig` holds the `server_options` struct of `pwnable_harness.h`.
- `Wrappers` holds `Option`.

Strings are `seq<char>`, argv is `seq<string>` and the environment is a
`map<string, string>`. A NULL C string is `Option.None`. The handler function
pointer is a boolean that says whether one was given. C integer widths are
explicit: `UShort`, `UInt` and `SizeT` are subset types, and `ToUShort`,
`ToUInt` and `AsInt` are the wrap-around conversions. Dates are whole seconds,
and the day count is floor division.

Points about the release-list script that the model keeps as written:

- The script sorts `(version, name)` tuples, so releases with equal version
  strings are ordered by name.
- `print("\n")` ends every block with two blank lines, not one.
- A supported release with no release date is still dropped. The date test
  comes first.
- The two index blocks agree line by line (`BlocksAgree`). They are exact
  inverse maps only when versions and names are unique, which the script
  does not check.

## Model

| member | source | states |
|---|---|---|
| LibC.Dec | core/pwnable_harness.c:406-407 | `%u` text of a natural: non-empty, all digits, no leading zero |
| LibC.DecValue | core/pwnable_harness.c:406-407 | the digits of `Dec(n)` denote n |
| LibC.DecLength | core/pwnable_harness.c:485 | `Dec(n)` has at most k characters iff n < 10^k |
| LibC.DecInt | core/pwnable_harness.c:485 | `%d` text of an int starts with '-' iff the value is negative |
| LibC.DigitPrefix | core/pwnable_harness.c:557 | the longest run of leading digits that `atoi` reads |
| LibC.SkipSpace | core/pwnable_harness.c:557 | the leading white space `atoi` skips, nothing more |
| LibC.Atoi | core/pwnable_harness.c:557 | `atoi`: leading white space, an optional sign, then the digit prefix; properties in `AtoiDecInt` and `AtoiDecPrefix` |
| LibC.AtoiDecInt | core/pwnable_harness.c:557 | `atoi` reads back every `%d` text |
| LibC.AtoiDecPrefix | pwnable_harness.c:212 | `atoi` of a decimal followed by a non-digit is that number |
| LibC.ToUShort | core/pwnable_harness.c:557 | storing an int into an unsigned short keeps it modulo 65536, and in range unchanged |
| LibC.ToUInt | core/pwnable_harness.c:560 | storing an int into an unsigned keeps it modulo 2^32, and in range unchanged |
| LibC.AsInt | core/pwnable_harness.c:485 | the signed int that `%d` prints for an unsigned value; converting back yields the value |
| LibC.Strchr | core/pwnable_harness.c:437 | None iff the char is absent; otherwise the index of its first occurrence |
| LibC.StrchrAt | core/pwnable_harness.c:437 | `strchr` finds the char right after a prefix that lacks it |
| LibC.CString | core/pwnable_harness.c:443 | the string `strcmp` sees: the prefix before the first NUL |
| LibC.Repeat | core/pwnable_harness.c:512 | `%*s` of "" with width n: exactly n copies of the char |
| LibC.LeftPad | pwnable_harness.c:406-410 | `%3d`/`%05hu` padding: the text right-aligned in the width, with fill chars before it |
| LibC.Snprintf | examples/ResourceLimits/limit-me-harder.c:60 | the stored text is a prefix of the text: all of it when it fits, else exactly size-1 chars |
| LibC.Environment.constructor | core/pwnable_harness.c:266 | the environment starts with the given variables |
| LibC.Environment.Getenv | core/pwnable_harness.c:266 | NULL iff the variable is unset; otherwise its value |
| LibC.Environment.Setenv | pwnable_harness.c:426 | with overwrite = 0 an existing variable is kept, otherwise the value is stored |
| LibC.Environment.Unsetenv | core/pwnable_harness.c:241 | removes exactly that variable |
| Net.SplitIp | core/pwnable_harness.c:404-407 | the four octets `ip>>24`, `(ip>>16)&255`, `(ip>>8)&255`, `ip&255` are each at most 255 and recombine to ip |
| Net.SplitIpInjective | core/pwnable_harness.c:404-407 | different addresses give different octets |
| Net.DottedQuad | core/pwnable_harness.c:406-407 | the `%u.%u.%u.%u` text of the four octets; read back by `DottedQuadRoundTrip` |
| Net.ParseDottedQuad | core/pwnable_harness.c:406-407 | the reader of a dotted quad used to state the round trip: four dot-separated digit fields, else None |
| Net.SplitAtDotOf | core/pwnable_harness.c:406 | a digit field followed by '.' splits off at that dot |
| Net.ParseFields | core/pwnable_harness.c:406 | four dot-separated digit fields read back as their numbers |
| Net.DecimalsRoundTrip | core/pwnable_harness.c:406-407 | the `%u.%u.%u.%u` text of four numbers reads back as those numbers |
| Net.DottedQuadRoundTrip | core/pwnable_harness.c:406-407 | the logged dotted quad of an address reads back as its four octets |
| Net.DottedQuadField | pwnable_harness.c:339-340 | a line that ends in the dotted quad and ".\n" has that field at a computed offset, and it reads back as the octets |
| Net.ReceivedLine | pwnable_harness.c:339-340 | the `[%s] Received connection from %u.%u.%u.%u.\n` line; its shape in `ReceivedLineFields` |
| Net.ReceivedLineFields | pwnable_harness.c:339-340 | the connection line starts with '[', ends with ".\n", and its address field reads back as the octets |
| Harness.SetValue | core/pwnable_harness.c:553-573 | each value flag changes only its own setting; the port and alarm take `atoi` in their C widths; "-k _" clears the password |
| Harness.Scan | core/pwnable_harness.c:541-576 | the argv loop of `server_main` as a function of the arguments and the state; proved equal to the loop by `Harness.Harness.ScanArguments`, with its properties in the lemmas below |
| Harness.ScanStep | core/pwnable_harness.c:542-578 | proof helper that unfolds `Scan`: one step of the scan for each kind of argument: stop on help or unknown, clear skipListen, clear chrooted, or consume a value |
| Harness.ScanAppend | core/pwnable_harness.c:542-579 | the scan runs left to right: a finished prefix hands its state to the rest, and a stop ignores the rest |
| Harness.ValueFlagSets | core/pwnable_harness.c:553-573 | a value flag and its argument after a finished prefix apply `SetValue` |
| Harness.RepeatedFlagOverrides | core/pwnable_harness.c:553-573 | a value option given twice, under either spelling and with any scanned-through arguments between and any after, scans as if only the second were given |
| Harness.ScanThenSet | core/pwnable_harness.c:541-578 | setting an option, scanning a stretch through, then setting it again ends where the second setting alone would |
| Harness.SetValueOverrides | core/pwnable_harness.c:553-573 | two settings of one option leave only the second |
| Harness.SetValueCommutes | core/pwnable_harness.c:553-573 | settings of two different options can be made in either order |
| Harness.PasswordFlag | core/pwnable_harness.c:568-573 | "_" resets the password to none; any other value sets it |
| Harness.FlagValueNotInterpreted | core/pwnable_harness.c:553-554 | the argument after -u is taken as the user even when it reads "-h" |
| Harness.StopsAtHelpOrUnknown | core/pwnable_harness.c:543-546 | help or an unknown argument stops the scan in the state reached, and the rest is not looked at |
| Harness.MissingValueOnlyAtEnd | core/pwnable_harness.c:553-573 | a missing value arises only for a value flag in last position; a NULL value (not a crash) exactly for -u/-i/-e |
| Harness.Pad | core/pwnable_harness.c:485-504 | the pad is at least 1, and it fills the column exactly when the value is narrower |
| Harness.TimeLimitTextLength | core/pwnable_harness.c:485 | the `%d` text of the time limit is at most 11 chars |
| Harness.PortTextLength | core/pwnable_harness.c:490 | the `%hu` text of the port is at most 5 chars |
| Harness.FieldShape | core/pwnable_harness.c:512-523 | a measured column is lead, value, ">" and pad spaces, and it ends in a space |
| Harness.FixedColumnsAligned | core/pwnable_harness.c:508-525 | the literal -h, -l, --no-chroot, -i and -k columns are each 42 chars and end in a space |
| Harness.UsageColumns | core/pwnable_harness.c:484-531 | the nine option columns `show_usage` prints, with the current values as defaults; widths in `UsageAligned` |
| Harness.UsageText | core/pwnable_harness.c:484-531 | the usage lines: the optional unknown-argument error, the usage line, the options header and each column with its description |
| Harness.UsageAligned | core/pwnable_harness.c:484-531 | every usage column ends in a space before its description; all nine are 42 wide when user < 20 and progname < 17 chars |
| Harness.SelectMode | core/pwnable_harness.c:255-274 | fails iff both handler and exec_prog are NULL; else runs the handler iff marker set or skipListen, on socket 0 if skipListen or atoi(marker); else listens with the options |
| Harness.MainOutcomeOf | core/pwnable_harness.c:538-582 | what `server_main` does with the scan: usage for help or an unknown argument, the missing-value case, else the mode of `serve_internal`; proved of the method by `Harness.Harness.ServerMain` |
| Harness.HelpFails | core/pwnable_harness.c:543-546 | help or an unknown argument stops the scan in the state before it, prints usage and returns EXIT_FAILURE without serving |
| Harness.ScanKeepsUser | core/pwnable_harness.c:553-554 | a non-NULL user stays non-NULL except after a trailing -u, so the usage path (`strlen` of the user) is safe |
| Harness.NotListeningRunsHandler | core/pwnable_harness.c:267-274 | without --listen, a handler runs on socket 0 whatever the marker says |
| Harness.ScanKeepsSkipListen | core/pwnable_harness.c:547-548 | only -l/--listen changes skipListen |
| Harness.ServeMode | core/pwnable_harness.c:534-536 | `serve` is `serve_internal` with no injected library and no exec'd program: a NULL handler always stops with EXIT_FAILURE; a handler runs iff the marker is set or listening was skipped |
| Harness.Harness.constructor | core/pwnable_harness.c:65-68 | skipListen starts true and the password NULL |
| Harness.Harness.ServeInternal | core/pwnable_harness.c:246-275 | the mode chosen from the marker variable and the current skipListen |
| Harness.Harness.Serve | core/pwnable_harness.c:534-536 | `serve` picks `ServeMode` |
| Harness.Harness.ApplyValue | core/pwnable_harness.c:553-573 | the value-flag branch of the loop leaves the options, the two locals and the globals as `SetValue` says |
| Harness.Harness.ScanArguments | core/pwnable_harness.c:538-579 | the argv loop gives the scan result, and the globals hold its skipListen and password |
| Harness.Harness.ServerMain | core/pwnable_harness.c:538-582 | the outcome is usage, a missing value or the mode; the globals are those the scan left |
| Harness.ConnectionLog | core/pwnable_harness.c:405-407 | the `%u: [%s] Received connection from ...` log line; read back by `ConnectionLogPid` and `ConnectionLogPeer` |
| Harness.ConnectionLogPid | core/pwnable_harness.c:405-407 | the log line starts with the pid, which `atoi` reads back |
| Harness.ConnectionLogPeer | core/pwnable_harness.c:405-407 | the log line ends with the peer address and ".\n", and that field reads back as the four octets |
| Harness.CleanEnv | core/pwnable_harness.c:230-243 | exactly the five listed variables are removed; every other is left with its value |
| Harness.FgetsLength | core/pwnable_harness.c:430-431 | fgets stores at most size-1 chars, stopping after the first newline |
| Harness.Typed | core/pwnable_harness.c:437-443 | the text before the first newline or NUL |
| Harness.PasswordVerdict | core/pwnable_harness.c:426-450 | the password check as a function of the input; characterised by `ShortPasswordVerdict` and `FullBufferPasswordVerdict` |
| Harness.CorrectLineAccepted | core/pwnable_harness.c:430-447 | the password followed by a newline is accepted when it fits the buffer |
| Harness.TypedOf | core/pwnable_harness.c:437-440 | a line without newline or NUL, then a newline, NUL or nothing, is typed as that line |
| Harness.AcceptedStartsWithPassword | core/pwnable_harness.c:430-447 | accepted input starts with the password, and a password of 100 or more chars is never accepted |
| Harness.ShortPasswordVerdict | core/pwnable_harness.c:430-447 | a password under 99 chars is accepted iff the input starts with it and a newline, a NUL or the end of input follows |
| Harness.FullBufferPasswordVerdict | core/pwnable_harness.c:430-447 | a 99-char password fills the buffer: it is accepted iff the input starts with it, whatever follows on the line |
| Harness.Fgets | core/pwnable_harness.c:430-435 | the array holds the fgets prefix followed by NUL |
| Harness.CutAtNewline | core/pwnable_harness.c:437-440 | after the in-place cut, the array's string is the typed text |
| Harness.StrcmpZero | core/pwnable_harness.c:443 | `strcmp` is 0 iff the array's string equals the wanted text |
| Harness.CheckPassword | core/pwnable_harness.c:426-450 | missing input is rejected; otherwise the verdict is `PasswordVerdict`: the fgets prefix, cut at its first newline or NUL, must equal the password |
| Harness.TypedPrefix | core/pwnable_harness.c:437-440 | the typed text ends at the first newline or NUL |
| LegacyHarness.SetLegacyValue | pwnable_harness.c:390-398 | -u, -p and -a change only their own field; port and alarm take `atoi` in their C widths |
| LegacyHarness.LegacyScan | pwnable_harness.c:383-421 | the older argv loop as a function; proved equal to the loop by `LegacyHarness.LegacyScanArguments` |
| LegacyHarness.LegacyScanStep | pwnable_harness.c:383-421 | proof helper that unfolds `LegacyScan`: one step for each argument kind: listen, no-chroot, a value, a trailing -u storing NULL, a missing value, or anything else is unknown |
| LegacyHarness.LegacyScanAppend | pwnable_harness.c:383-422 | the scan runs left to right and stops at the first unknown argument |
| LegacyHarness.HelpIsUnknown | pwnable_harness.c:399-421 | -h and --help are unknown arguments |
| LegacyHarness.LegacyRepeatedFlagOverrides | pwnable_harness.c:390-398 | -u, -p or -a given twice, under either spelling and with any scanned-through arguments between and any after, scans as if only the second were given |
| LegacyHarness.LegacyScanThenSet | pwnable_harness.c:383-399 | setting an option, scanning a stretch through, then setting it again ends where the second setting alone would |
| LegacyHarness.SetLegacyValueOverrides | pwnable_harness.c:390-398 | two settings of one option leave only the second |
| LegacyHarness.SetLegacyValueCommutes | pwnable_harness.c:390-398 | settings of two different options can be made in either order |
| LegacyHarness.LegacyScanKeepsUser | pwnable_harness.c:390-392 | a non-NULL user stays non-NULL except after a trailing -u, so the usage path (`strlen` of the user) is safe |
| LegacyHarness.AlarmColumn | pwnable_harness.c:406 | `%3d>` of the time limit and the literal padding |
| LegacyHarness.PortColumn | pwnable_harness.c:410 | `%05hu>` of the port and the literal padding |
| LegacyHarness.UserColumn | pwnable_harness.c:412 | `%s>%*s` with width 13 - strlen(user), a negative width padding as its absolute value |
| LegacyHarness.LegacyUsageText | pwnable_harness.c:400-418 | the "Unkown argument" line, the usage line, the options header and the five option lines |
| LegacyHarness.LegacyUsageColumns | pwnable_harness.c:404-418 | listen, no-chroot and port columns are 35 wide; alarm is 35 below 1000 seconds; user is 35 wide iff its name has at most 13 chars |
| LegacyHarness.ServeMode | pwnable_harness.c:205-214 | the handler runs on atoi(marker) iff the marker is set; otherwise the server listens |
| LegacyHarness.MarkedEnv | pwnable_harness.c:425-427 | `setenv(marker, "0", 0)` when not listening: set only when absent |
| LegacyHarness.LegacyMain | pwnable_harness.c:380-430 | what the older `server_main` does with the scan, and the environment it leaves; proved of the method by `LegacyHarness.ServerMain` |
| LegacyHarness.NotListeningRunsHandler | pwnable_harness.c:424-429 | for a scan that ends (trailing -u included), without --listen the handler runs on atoi of the marker (0 unless one was set), and the marker is set to "0" only when absent |
| LegacyHarness.ListeningStartsServer | pwnable_harness.c:424-429 | with --listen and no marker, the server listens with the scanned options and the environment is unchanged |
| LegacyHarness.Serve | pwnable_harness.c:198-214 | `serve` picks `ServeMode` from the environment |
| LegacyHarness.LegacyScanArguments | pwnable_harness.c:380-422 | the argv loop gives the scan result |
| LegacyHarness.ServerMain | pwnable_harness.c:380-430 | the outcome and the new environment are those of `LegacyMain` |
| ResourceLimits.BytesUnit | examples/ResourceLimits/limit-me-harder.c:35-47 | "?iB" iff the index is outside 0..6; every unit name ends in 'B' |
| ResourceLimits.BytesUnitInjective | examples/ResourceLimits/limit-me-harder.c:35-47 | the seven known units have distinct names |
| ResourceLimits.UnitOf | examples/ResourceLimits/limit-me-harder.c:52-56 | how many times the loop divides by 1024; bounds in `UnitOfLeast` and `UnitOfBelow` |
| ResourceLimits.UnitOfLeast | examples/ResourceLimits/limit-me-harder.c:52-56 | the loop stops at the first unit where the count is at most 1024 |
| ResourceLimits.UnitOfBelow | examples/ResourceLimits/limit-me-harder.c:52-56 | a count of at most 1024·1024^k needs at most k divisions |
| ResourceLimits.SizeUnitKnown | examples/ResourceLimits/limit-me-harder.c:52-56 | for a 64-bit size_t the unit is at most 6, so "?iB" is never printed |
| ResourceLimits.Scale | examples/ResourceLimits/limit-me-harder.c:50-56 | the whole part, unit and last remainder the loop leaves; bounds in `ScaleBounds` |
| ResourceLimits.ScaleBounds | examples/ResourceLimits/limit-me-harder.c:50-56 | the final n is at most 1024 (at least 1 after a division), the original n lies between n·1024^unit and (n+1)·1024^unit, and the remainder is below 1024 |
| ResourceLimits.Hundredths | examples/ResourceLimits/limit-me-harder.c:60 | `d * 100 / 1024`: below 100 for a remainder below 1024, so `%02u` prints exactly two digits |
| ResourceLimits.ByteCountText | examples/ResourceLimits/limit-me-harder.c:60 | the `%zu.%02u%s` text of the scaled count; proved of the loop by `FormatByteCount` |
| ResourceLimits.ByteCountFits | examples/ResourceLimits/limit-me-harder.c:58-60 | the text is at most 10 chars, so the 11-byte `snprintf` never truncates |
| ResourceLimits.ByteCountInBytes | examples/ResourceLimits/limit-me-harder.c:52-60 | the strict test: the count stays in bytes exactly up to 1024, and then prints as its digits and ".00B" |
| ResourceLimits.FormatByteCount | examples/ResourceLimits/limit-me-harder.c:49-62 | the divide loop and `snprintf` print `ByteCountText(n)` |
| ResourceLimits.SkipLine | examples/ResourceLimits/limit-me-harder.c:14-21 | true iff the stream has a newline; it then consumes through the first one, and at EOF the rest is empty |
| ResourceLimits.SkipLineStep | examples/ResourceLimits/limit-me-harder.c:16-18 | proof helper that unfolds `SkipLine`: one `getchar` of the skip loop |
| ResourceLimits.SkipLineOf | examples/ResourceLimits/limit-me-harder.c:14-21 | a line and its newline are consumed, leaving the next line |
| ResourceLimits.ScanDigits | examples/ResourceLimits/limit-me-harder.c:140 | `%d` after the sign: matches iff a digit follows, and stops at the first non-digit |
| ResourceLimits.ScanDecimal | examples/ResourceLimits/limit-me-harder.c:140 | EOF iff only white space is left; any stop is at a non-digit |
| ResourceLimits.ScanDigitsOfDec | examples/ResourceLimits/limit-me-harder.c:140 | the digits of a number read back as that number, with its sign |
| ResourceLimits.ScanDecimalReadsDecInt | examples/ResourceLimits/limit-me-harder.c:140 | `scanf("%d")` reads back every `%d` text |
| ResourceLimits.Stdin.constructor | examples/ResourceLimits/limit-me-harder.c:140 | the stream holds the given input |
| ResourceLimits.Stdin.Getchar | examples/ResourceLimits/limit-me-harder.c:17 | EOF on empty input; otherwise the first char, which is consumed |
| ResourceLimits.Stdin.ScanfInt | examples/ResourceLimits/limit-me-harder.c:140 | the count and value of `ScanDecimal`, with its input consumed |
| ResourceLimits.Stdin.FlushLine | examples/ResourceLimits/limit-me-harder.c:14-21 | the result and the rest of the stream are those of `SkipLine` |
| ResourceLimits.MenuChoice | examples/ResourceLimits/limit-me-harder.c:140-149 | the loop exits only with a choice in 1..3 |
| ResourceLimits.ValidChoiceTaken | examples/ResourceLimits/limit-me-harder.c:140 | 1, 2 or 3 is taken at once |
| ResourceLimits.OutOfRangeSkipsLine | examples/ResourceLimits/limit-me-harder.c:140-148 | a number outside 1..3 costs one retry and its line |
| ResourceLimits.GarbageLineSkipped | examples/ResourceLimits/limit-me-harder.c:140-148 | a line that is not a number costs one retry and its line |
| ResourceLimits.BlankInputGivesUp | examples/ResourceLimits/limit-me-harder.c:141-143 | white space up to EOF exits with failure |
| ResourceLimits.ReadChoice | examples/ResourceLimits/limit-me-harder.c:139-149 | the loop computes `MenuChoice` of the input and leaves the rest of the stream unread |
| UbuntuVersions.DaysOld | get_supported_ubuntu_versions.py:34 | `timedelta.days`: the whole days, rounded down |
| UbuntuVersions.Keep | get_supported_ubuntu_versions.py:28-35 | the filter: dated, and supported or under 365·4 days old; stated by `KeepWindow` |
| UbuntuVersions.KeepWindow | get_supported_ubuntu_versions.py:28-36 | kept iff dated and either supported or younger than 1460·86400 seconds |
| UbuntuVersions.FutureReleaseKept | get_supported_ubuntu_versions.py:34-35 | a future release date is kept |
| UbuntuVersions.KeptPairs | get_supported_ubuntu_versions.py:26-36 | the `(version, name)` pairs of the kept series, in order; proved of the loop by `CollectRecent` |
| UbuntuVersions.KeptPairsAppend | get_supported_ubuntu_versions.py:26-36 | records contribute independently, in order |
| UbuntuVersions.KeptPairsSingle | get_supported_ubuntu_versions.py:35-36 | proof helper that unfolds `KeptPairs`: each record contributes one pair if kept, none otherwise |
| UbuntuVersions.KeptPairsMember | get_supported_ubuntu_versions.py:26-36 | a pair is collected iff some kept record carries it |
| UbuntuVersions.UndatedIgnored | get_supported_ubuntu_versions.py:28-32 | an undated series is never collected, even if supported |
| UbuntuVersions.SupportedKept | get_supported_ubuntu_versions.py:35-36 | a dated supported series is always collected |
| UbuntuVersions.CollectRecent | get_supported_ubuntu_versions.py:26-36 | the loop collects exactly the kept pairs, in record order |
| UbuntuVersions.StrLe | get_supported_ubuntu_versions.py:42 | Python `<=` on strings: code-point lexicographic order |
| UbuntuVersions.StrLeReflexive | get_supported_ubuntu_versions.py:42 | Python string order is reflexive |
| UbuntuVersions.StrLeTotal | get_supported_ubuntu_versions.py:42 | Python string order is total |
| UbuntuVersions.StrLeAntisymmetric | get_supported_ubuntu_versions.py:42 | Python string order is antisymmetric |
| UbuntuVersions.StrLeTransitive | get_supported_ubuntu_versions.py:42 | Python string order is transitive |
| UbuntuVersions.PairLe | get_supported_ubuntu_versions.py:42 | tuple order: by version, then by name |
| UbuntuVersions.PairLeTotal | get_supported_ubuntu_versions.py:42 | tuple order is total |
| UbuntuVersions.PairLeAntisymmetric | get_supported_ubuntu_versions.py:42 | tuple order is antisymmetric |
| UbuntuVersions.PairLeTransitive | get_supported_ubuntu_versions.py:42 | tuple order is transitive |
| UbuntuVersions.TextualVersionOrder | get_supported_ubuntu_versions.py:42 | "10.04" sorts before "9.10"; 18.04 < 20.04 < 22.04 |
| UbuntuVersions.InsertKeepsSorted | get_supported_ubuntu_versions.py:42 | inserting after all elements not above x keeps the order |
| UbuntuVersions.SortPairs | get_supported_ubuntu_versions.py:42 | the result ascends in tuple order and is a permutation of the input |
| UbuntuVersions.SortedUnique | get_supported_ubuntu_versions.py:42 | a collection has only one sorted arrangement |
| UbuntuVersions.EntriesSnoc | get_supported_ubuntu_versions.py:50-51 | proof helper that unfolds `Entries`: one more pair adds one more entry line |
| UbuntuVersions.PrintEntries | get_supported_ubuntu_versions.py:50-51 | one print loop emits one entry line per pair, in order |
| UbuntuVersions.Render | get_supported_ubuntu_versions.py:45-65 | the printed lines are the comment and the four blocks |
| UbuntuVersions.Generate | get_supported_ubuntu_versions.py:26-65 | the printed pairs are the kept ones, sorted, and the output is their document |
| UbuntuVersions.GenerateDeterministic | get_supported_ubuntu_versions.py:26-65 | the output text depends only on the records and the time |
| UbuntuVersions.ListLineRoundTrip | get_supported_ubuntu_versions.py:51 | a list entry reads back as its item |
| UbuntuVersions.SubscriptRoundTrip | get_supported_ubuntu_versions.py:60 | `key] := value` reads back when the key has no ']' |
| UbuntuVersions.IndexLineRoundTrip | get_supported_ubuntu_versions.py:60-64 | an indexed assignment reads back as its key and value |
| UbuntuVersions.Document | get_supported_ubuntu_versions.py:45-65 | the printed lines: the comment, then the four blocks with their headers and "\n" separators; layout in `DocumentLayout` |
| UbuntuVersions.Printed | get_supported_ubuntu_versions.py:45-65 | the text `print` writes: each argument followed by a newline; split by `PrintedAppend` |
| UbuntuVersions.DocumentLayout | get_supported_ubuntu_versions.py:45-65 | the line positions of the comment, the two headers, the 4n entries and the four separators |
| UbuntuVersions.BlocksAgree | get_supported_ubuntu_versions.py:49-65 | the i-th line of every block refers to the i-th pair, and alias-to-version is the swap of version-to-alias |
| UbuntuVersions.PrintedAppend | get_supported_ubuntu_versions.py:45-65 | the output of consecutive print calls is the output of the first group followed by that of the second |
| UbuntuVersions.EmptyDocument | get_supported_ubuntu_versions.py:45-65 | with no pairs: the comment, the two headers and the four blank separators only |
| UbuntuVersions.EntriesStart | get_supported_ubuntu_versions.py:49-65 | no entry line starts with '#' |
| UbuntuVersions.NoExceptionLine | get_supported_ubuntu_versions.py:17 | `exc` stays None, so no line starts with "# Exception" |

## Left out

- The socket server is not modelled: socket, bind, listen, accept, fork, exec, alarm, signals, `enter_chroot`, `drop_privileges`, `move_stdio` and `redirect_output`. Beyond "the calls succeeded" they hold no state to express. `Harness.Mode.Listen` and `LegacyHarness.LegacyMode.Listen` stand for "the server starts with these settings".
- The handler call, the exec'd program and the injected library are not modelled: the handler is opaque code. Its socket number is part of the mode.
- `setvbuf` on the handler path is not modelled. It changes buffering only.
- `ctime` and `getpid` are parameters of the connection log, and "now" is a parameter of the release filter. They are clocks and process state.
- The Launchpad login, the series listing, the temporary cache directory, its `atexit` cleanup and the `HOME` change are left out; the records are a parameter. All of it is network and file-system I/O.
- Standard output and standard error are not modelled as streams. Usage text is a sequence of lines; Python output is the sequence of `print` arguments, joined by `Printed`.
- Harness.SelectMode: a handler is required on the handler path. The C code calls a NULL handler when only `-e` was given and it is not listening. Harness.Harness.ServeInternal and Harness.Harness.ServerMain carry the same precondition. Harness.ServeMode and Harness.Harness.Serve need none: `serve` passes no program to exec, so a NULL handler always stops at the guard with EXIT_FAILURE.
- Harness.Scan: a `-p`, `-a` or `-k` in last position reads `argv[argc]`, a NULL that C passes to `atoi`/`strcmp`. The model reports this as the outcome `ArgumentMissing` (undefined behaviour in C). For `-u`, `-i` and `-e` the NULL is stored and the loop ends, and the model keeps that: the user becomes `None`.
- LegacyHarness.LegacyScan: a `-p` or `-a` in last position is reported as `ArgumentMissing`, for the same reason; a trailing `-u` stores the NULL user and the loop ends.
- Harness.MainOutcomeOf, Harness.Harness.ServerMain, LegacyHarness.LegacyMain and LegacyHarness.ServerMain require a non-NULL user on the usage path, because `show_usage` and the older usage `printf` take `strlen` of it. ScanKeepsUser and LegacyScanKeepsUser show that defaults with a user always meet this. A NULL user that reaches the server is passed on as `None` and its use there is not modelled.
- LegacyHarness.ServeMode: a NULL handler is not modelled. The older harness has no guard against it.
- LegacyHarness.Serve and LegacyHarness.ServerMain model only the handler and listen choices. In the listening case the server's own later `setenv` calls are out of scope with the server.
- LibC.Atoi does not model overflow of the C `int` (undefined behaviour). It returns the mathematical value of the digit prefix, and the port and alarm conversions then wrap that value.
- ResourceLimits.ScanDecimal does not model `%d` overflow (undefined behaviour). It also does not model whether a lone sign is pushed back on a matching failure: the menu flushes that line either way.
- Arguments are taken to be NUL-free, as C strings are. Argument comparisons are sequence equality.
- UbuntuVersions.SortPairs is an insertion sort on a `seq`, not Timsort in place. Only the result matters here, and `SortedUnique` shows that the result is unique.
- `busy_loop`, the `mmap` loop of `memory_leak` (and its `%u` size prompt) and `fork_bomb` are not modelled: they are deliberate resource abuse that does not terminate. `harness.c` only duplicates the IP split, and `stdio_unbuffer.c` and `pwnable_server.c` only set buffering and default options, so they are not modelled either.
- The macOS `_NSGetExecutablePath` program-name lookup is not modelled; the program name is a parameter.
