# OpenPasswordFilter: the password policy and the request handler

OpenPasswordFilter is a Windows service. A domain controller's password filter
calls it over a local TCP connection to decide whether a new password may be
set. This project models the two parts of the service that make that decision:

- **OPFRules** (`OPFService/OPFRules.cs`) covers two things.
  - Loading the optional `key=value` rules file into ten thresholds: minimum
    and maximum length, per-class minima, combined alpha and non-alpha minima,
    maximum consecutive repeats, and the inspection limit.
  - `CheckPassword`, which decides whether a password satisfies them. Without a
    rules file the service is permissive: any non-empty password passes.
- **NetworkService.handle** (`OPFService/NetworkService.cs`) serves one
  connection.
  - It reads a command line and, only for `test`, a password line.
  - It answers `false` at once when the rules refuse the password, and then
    returns without closing the client.
  - Otherwise it asks the dictionary of forbidden passwords and answers `false`
    if the dictionary holds the password, `true` if not. Then it closes the
    client.
  - Every exception is caught inside the handler.

The project has five modules:

| file | module | contents |
|---|---|---|
| `wrappers.dfy` | `Wrappers` | `Option` (a .NET `null` is `None`) and `Result` (a thrown exception is `Failure`) |
| `text.dfy` | `Text` | `String.Trim`, `String.Split(char)` and `Int32.Parse`, as far as the loader observes them; `Split` comes with its inverse `Join` and `Int32.Parse` with `FormatInt` (`Int32.ToString`) |
| `rules_config.dfy` | `RulesConfig` | the `Policy` thresholds and their defaults; the rules-file loader as a specification function `Load` and as the constructor's loop, `LoadRules` |
| `rules_check.dfy` | `RulesCheck` | the decision as the predicate `Accepts`; the source's scan as the methods `ScanWindow` and `CheckPassword`, proved equal to `Accepts`; its properties |
| `network.dfy` | `Network` | the client connection, the dictionary and the service as classes; `handle` as the method `NetworkService.Handle`, proved to perform the exchange the function `Exchange` describes; its properties |

Modelling choices:

- **Policy.** OPFRules assigns its thresholds only in its constructor, so the
  policy is the immutable value `Policy`. The constructor becomes a method that
  returns it, or the exception that aborted construction.
- **Rules file.** The file is `Option<seq<string>>`: `None` when it does not
  exist, otherwise its lines.
- **Character classification.** `Char.IsLetter`, `IsUpper`, `IsLower` and
  `IsDigit` are the oracle `CharInfo`. What they guarantee of each other is the
  predicate `WellFormed`. `Char.IsWhiteSpace` is the Unicode White_Space list.
- **Connection.** The socket is a `Connection`. It has a queue of incoming
  lines, in which a broken read raises an IOException and the end of the queue
  reads as `null`. It also has the lines flushed so far, a `closed` flag, and
  whether flushing fails.
- **The scan.** The `foreach` loop of `CheckPassword` is the method
  `ScanWindow`. Its two steps per character are the methods `Tally` (the class
  counters) and `NextRun` (the repeat counter). `CheckPassword` calls
  `ScanWindow` and keeps the source's early returns, so it still returns
  `false` at the first over-long run.
- **Dictionary.** The dictionary is a membership function, with a ghost log of
  the lookups made.

Quirks of the code that the model keeps:

- **Non-integer values.** A threshold whose value is not a 32-bit integer
  aborts construction. `Int32.Parse` runs in `GetIntVal`, outside the per-line
  `try`, so one bad value stops the whole load instead of skipping its line.
- **Split on every `=`.** A line is split on every `=`. The value is the text
  between the first and the second `=`, and anything after a second `=` is
  dropped.
- **Closing the client.** The early return after a refused password skips
  `client.Close()`, so that client is left open. Every other path closes it.

## Model

| member | source | states |
|---|---|---|
| Text.Trim | OPFService/OPFRules.cs:93 | `line.Trim()`: leading and trailing white space removed, never longer than the line; its shape is `Text.TrimShape` |
| Text.TrimStartShape | OPFService/OPFRules.cs:93 | Trim's first half removes exactly a leading run of white space and stops at the first other character |
| Text.TrimEndShape | OPFService/OPFRules.cs:93 | Trim's second half removes exactly a trailing run of white space and stops at the last other character |
| Text.TrimShape | OPFService/OPFRules.cs:93 | `line.Trim()` is a slice of the line: white space only outside it, neither end of it white space |
| Text.TrimSlice | OPFService/OPFRules.cs:93 | the trimmed line is the slice of the line starting after its leading white space, and only white space follows it |
| Text.TrimEnds | OPFService/OPFRules.cs:93 | the trimmed line neither starts nor ends with white space |
| Text.TrimKeepsInner | OPFService/OPFRules.cs:93 | a line trims to exactly the text from its first to its last non-white character |
| Text.TrimEmpty | OPFService/OPFRules.cs:93-94 | a line trims to the empty string, and is skipped, exactly when it is white space throughout |
| Text.TrimSubset | OPFService/OPFRules.cs:93 | trimming only removes characters |
| Text.Split | OPFService/OPFRules.cs:98 | `Split('=')` yields at least one piece |
| Text.SplitPieces | OPFService/OPFRules.cs:98 | the split yields exactly one piece when the line has no `=`, and no piece contains `=` |
| Text.SplitCons | OPFService/OPFRules.cs:98 | a line made of an `=`-free piece, `=`, and a rest splits into that piece followed by the pieces of the rest |
| Text.JoinSplit | OPFService/OPFRules.cs:98 | joining the pieces of a split with the separator gives the line back |
| Text.SplitJoin | OPFService/OPFRules.cs:98 | splitting a join of separator-free pieces gives the pieces back |
| Text.SplitFirstFields | OPFService/OPFRules.cs:98-99 | for `a=b` followed by nothing or by `=...`, piece 0 is `a` and piece 1 is `b`: text after a second `=` is dropped |
| Text.ParseInt32 | OPFService/OPFRules.cs:135 | a successful parse is a 32-bit value from a string that starts with a digit or a sign |
| Text.ParseShape | OPFService/OPFRules.cs:135 | a string the parse accepts is an optional sign and then one or more digits only, whose value is the result's magnitude; only `-` makes it negative, so `12x`, `1.5`, `+-1` or a lone sign throw |
| Text.ParseAccepts | OPFService/OPFRules.cs:135 | an optional `-` or `+` followed by digits whose signed value is a 32-bit integer parses to that value, zero padding, `+5` and `-0` included |
| Text.PaddedAndSignedValues | OPFService/OPFRules.cs:135 | the values `08` and `+3` load as 8 and 3 |
| Text.FormatParse | OPFService/OPFRules.cs:135 | a canonical decimal string (no `+`, no leading zero, no `-0`) that parses prints back to itself |
| Text.ParseFormat | OPFService/OPFRules.cs:135 | every 32-bit value printed in decimal parses back to itself |
| Text.ParseRejectsOverflow | OPFService/OPFRules.cs:135 | a decimal value outside the 32-bit range is refused, as the OverflowException |
| RulesConfig.ParseLine | OPFService/OPFRules.cs:93-109 | one line: blank or `#` is skipped, a line without `=` is the caught fault (and holds no `=` at all), otherwise an entry whose key and value are the trimmed first two `=`-pieces and so never contain `=` |
| RulesConfig.Collect | OPFService/OPFRules.cs:99 | the fold of the line contributions into `props`, a later entry overwriting an earlier one; its meaning is `CollectLastWins`, `CollectAbsent` and `CollectSkips` |
| RulesConfig.Props | OPFService/OPFRules.cs:89-110 | `props` after the whole file is read; `PropsStep` ties it to the read loop, `PropsLastWins`, `PropsAbsent` and `PropsSkipsLine` state its meaning |
| RulesConfig.Kinds | OPFService/OPFRules.cs:89-110 | the loader sees each line of the file once, in order, each through the same per-line parse |
| RulesConfig.GetIntVal | OPFService/OPFRules.cs:128-139 | an absent or empty key gives the default; a present one gives its 32-bit parse, or fails naming the key and value when the parse throws |
| RulesConfig.Thresholds | OPFService/OPFRules.cs:114-123 | the ten lookups, in the constructor's order, either all succeed and give a policy in file mode or the first failure stops construction |
| RulesConfig.Load | OPFService/OPFRules.cs:67-126 | a missing file gives the initial thresholds in permissive mode; a loaded policy is in file mode exactly when the file exists |
| RulesConfig.LoadRules | OPFService/OPFRules.cs:67-126 | the constructor's read loop and ten lookups produce exactly `Load` of the file |
| RulesConfig.PropsStep | OPFService/OPFRules.cs:89-110 | reading one more line changes the dictionary by that line's entry alone, and not at all for a skipped line |
| RulesConfig.KindsConcat | OPFService/OPFRules.cs:89-110 | the per-line parse of two files read one after the other is the parse of the first followed by that of the second |
| RulesConfig.EntryLine | OPFService/OPFRules.cs:93-99 | a line trimming to `key=value`, optionally followed by `=...`, records the trimmed key with the trimmed value |
| RulesConfig.LineWithoutEquals | OPFService/OPFRules.cs:98-109 | a line without `=` records nothing: the failed `vals[1]` is caught and the line skipped |
| RulesConfig.CollectLastWins | OPFService/OPFRules.cs:99 | in a run of line contributions, a key holds the value of its last entry |
| RulesConfig.CollectAbsent | OPFService/OPFRules.cs:99 | a key that no contribution defines is absent |
| RulesConfig.CollectSkips | OPFService/OPFRules.cs:94-109 | a contribution that is not an entry can be removed without changing the dictionary |
| RulesConfig.PropsLastWins | OPFService/OPFRules.cs:89-110 | with duplicate keys the last line defining a key wins |
| RulesConfig.PropsAbsent | OPFService/OPFRules.cs:89-110 | a key no line defines is not in the dictionary, so its threshold keeps its default |
| RulesConfig.PropsSkipsLine | OPFService/OPFRules.cs:89-110 | a blank, comment or `=`-less line anywhere in the file has no effect |
| RulesConfig.ThresholdsSucceed | OPFService/OPFRules.cs:114-123 | the lookups succeed exactly when every one of the ten lookups does |
| RulesConfig.ThresholdValues | OPFService/OPFRules.cs:114-123 | each loaded threshold is the result of its key's lookup with that key's default |
| RulesConfig.ThresholdsOfNothing | OPFService/OPFRules.cs:114-123 | an empty dictionary loads every default, in file mode |
| RulesConfig.DefaultKept | OPFService/OPFRules.cs:89-123 | a threshold whose key no line of the file defines keeps its default |
| RulesConfig.GetIntValFormatted | OPFService/OPFRules.cs:128-139 | a key whose value prints a 32-bit integer loads as that integer |
| RulesConfig.CombinedDefaultsFixed | OPFService/OPFRules.cs:46-58 | without `min.alpha` (`min.non-alpha`) in the file, `minAlpha` (`minNonAlpha`) loads as 2 whatever the component minima are set to |
| RulesConfig.MalformedLineSkipped | OPFService/OPFRules.cs:89-123 | a file holding only `min.length` loads every default, `minLength` 8 included, in file mode |
| RulesCheck.Classify | OPFService/OPFRules.cs:180-198 | the branch of the scan's `if` chain a character takes: a letter by its case, else a digit, else special; `ClassifyMeaning` states what each class is |
| RulesCheck.ClassifyMeaning | OPFService/OPFRules.cs:180-198 | under the runtime's guarantees each class the scan counts is exactly the characters its predicate selects; caseless letters count in none |
| RulesCheck.ClassesPartition | OPFService/OPFRules.cs:180-198 | every window character lands in exactly one class, so the class counts add up to the window length |
| RulesCheck.CountPositive | OPFService/OPFRules.cs:178-198 | a window holding a character of a class has a positive count for that class |
| RulesCheck.CountStep | OPFService/OPFRules.cs:178-198 | one more character adds one to its own class count and nothing to the others |
| RulesCheck.RunAtShape | OPFService/OPFRules.cs:203-210 | the run length ending at a position covers equal characters only and is preceded by a different one |
| RulesCheck.BlockRunAt | OPFService/OPFRules.cs:203-212 | a block of n equal characters makes the run ending at its last position at least n long |
| RulesCheck.RunAtBlock | OPFService/OPFRules.cs:203-212 | a run of at least n ending at a position is a block of n equal characters |
| RulesCheck.RunAtHasRun | OPFService/OPFRules.cs:203-218 | a run of at least n ending anywhere means the string holds n equal characters in a row |
| RulesCheck.ShortRunsNoRun | OPFService/OPFRules.cs:200-221 | when every run is shorter than n, no n equal characters stand in a row |
| RulesCheck.Tally | OPFService/OPFRules.cs:180-198 | one character adds one to the counter of its class, and nothing to the others or for a caseless letter |
| RulesCheck.NextRun | OPFService/OPFRules.cs:203-212 | after the step for the character at position `i + 1` of NUL-then-window, the counter is one less than the run of equal characters ending there (given it was so at `i`), and the flag is set exactly when it was already set or that run exceeds `maxRepeats` |
| RulesCheck.Accepts | OPFService/OPFRules.cs:141-256 | the decision: in permissive mode a non-null non-empty password, otherwise a non-null password within the length bounds whose window has no over-long run and meets every enabled minimum; `CheckPassword` is proved to return it |
| RulesCheck.Window | OPFService/OPFRules.cs:157-162 | the inspected text is a prefix of the password, of length `inspectionLimit` when the limit is positive and exceeded, otherwise the whole password |
| RulesCheck.ScanWindow | OPFService/OPFRules.cs:164-221 | the scan reports a repeat exactly when the window after the initial NUL has `maxRepeats + 1` equal characters in a row; otherwise its counters are the class counts of the window |
| RulesCheck.CheckPassword | OPFService/OPFRules.cs:141-256 | the method returns true exactly when `Accepts` holds |
| RulesCheck.PermissiveMode | OPFService/OPFRules.cs:143-147 | without a rules file a password passes exactly when it is non-null and non-empty, whatever the thresholds |
| RulesCheck.NullRejected | OPFService/OPFRules.cs:143-155 | a null password is refused in both modes |
| RulesCheck.LengthOnFullPassword | OPFService/OPFRules.cs:150-155 | a password whose full length breaks an enabled bound is refused, however short its window |
| RulesCheck.WindowDecides | OPFService/OPFRules.cs:157-162 | two passwords within the length bounds that agree on their first `inspectionLimit` characters get the same verdict |
| RulesCheck.BlockShrinks | OPFService/OPFRules.cs:212 | a block of n equal characters contains a block of every shorter length |
| RulesCheck.BlockShifts | OPFService/OPFRules.cs:174-212 | a block of the window is a block of the scanned sequence, one position later |
| RulesCheck.LongRunRejected | OPFService/OPFRules.cs:200-218 | `maxRepeats + 1` equal characters in a row anywhere in the window refuse the password |
| RulesCheck.ShortRunsPass | OPFService/OPFRules.cs:200-218 | with no such run and no leading NUL, the repeat check passes, runs of exactly `maxRepeats` included, and the verdict is the length and minimum checks |
| RulesCheck.LeadingNulsRejected | OPFService/OPFRules.cs:174-212 | a window opening with `maxRepeats` NUL characters is refused, because `prevCh` starts as NUL |
| RulesCheck.Monotonic | OPFService/OPFRules.cs:150-251 | lowering minima, or raising or switching off the maximum length or repeat bound, never turns an accepted password into a refused one |
| RulesCheck.NoEqualNeighbours | OPFService/OPFRules.cs:203-212 | a string with no two equal neighbours has no run longer than one |
| RulesCheck.SampleWellFormed | OPFService/OPFRules.cs:180-198 | the classifier of the worked examples meets the guarantees of `Char.IsLetter`, `IsUpper`, `IsLower` and `IsDigit` that `ClassifyMeaning` relies on |
| RulesCheck.DefaultsAcceptMixed | OPFService/OPFRules.cs:141-256 | with the defaults in file mode, `Abcdef1!` is accepted |
| RulesCheck.DefaultsRejectTriple | OPFService/OPFRules.cs:200-218 | with the defaults in file mode, `aaaBBB11!!` is refused for its run of three |
| RulesCheck.DoubledWithinLimit | OPFService/OPFRules.cs:200-218 | `Password1!`, whose longest run is two, passes the default repeat check |
| RulesCheck.DefaultsAcceptDoubled | OPFService/OPFRules.cs:141-256 | with the defaults in file mode, `Password1!` is accepted |
| Network.Exchange | OPFService/NetworkService.cs:58-92 | the effect of one `handle` call (input consumed, lookups, lines sent, client closed) for each path: fault, other command, refused password, accepted password; `Handle` is proved to produce it |
| Network.AfterRead | OPFService/NetworkService.cs:63-65 | each `ReadLine` consumes one line, or nothing once the peer has closed |
| Network.Connection.constructor | OPFService/NetworkService.cs:60-62 | a fresh connection has its input queue, no output, and is open |
| Network.Connection.ReadLine | OPFService/NetworkService.cs:63 | the next line, null once the peer has closed, or an IOException on a broken connection; only the input changes |
| Network.Connection.WriteLine | OPFService/NetworkService.cs:68-69 | the line is flushed to the peer, or the flush throws and nothing is delivered; only the output changes |
| Network.Connection.Close | OPFService/NetworkService.cs:91 | the client is closed and nothing else changes |
| Network.Dictionary.constructor | OPFService/NetworkService.cs:31 | the setup of the membership oracle that stands for the `OPFDictionary d` the service receives: the given membership and no lookups yet |
| Network.Dictionary.Contains | OPFService/NetworkService.cs:72 | the lookup answers membership and is logged once |
| Network.NetworkService.constructor | OPFService/NetworkService.cs:31-34 | the service holds the given dictionary and rules |
| Network.NetworkService.Handle | OPFService/NetworkService.cs:58-92 | the input consumed, the lines sent, the lookups made and whether the client ends closed are exactly those of `Exchange` |
| Network.OtherCommandsIgnored | OPFService/NetworkService.cs:63-81 | a command other than `test`, null included, reads no password line, sends nothing, looks nothing up, and the client is closed |
| Network.RefusedWithoutLookup | OPFService/NetworkService.cs:64-70 | a password the rules refuse gets the single reply `false` with no lookup; the client stays open unless the reply failed |
| Network.AcceptedLookedUpOnce | OPFService/NetworkService.cs:72-74 | a password the rules accept is looked up exactly once; the reply is `false` exactly when the dictionary holds it; the client is closed |
| Network.LookupsFollowRules | OPFService/NetworkService.cs:66-72 | at most one lookup is made, and only of a password the rules accept |
| Network.AtMostOneReply | OPFService/NetworkService.cs:63-81 | at most one line is sent, and it is `true` or `false` |
| Network.TrueExactlyWhen | OPFService/NetworkService.cs:63-81 | the reply is `true` exactly when the command is `test`, the rules accept the password, the dictionary does not hold it and the reply gets through |
| Network.NullPasswordRefused | OPFService/NetworkService.cs:65-70 | a peer closing right after `test` sends a null password and gets `false` with no lookup, in either mode |
| Network.OpenOnlyAfterFailFast | OPFService/NetworkService.cs:58-91 | the client stays open exactly when a refused password's `false` was delivered; every other path closes it |
| Network.CompliantUnknownAnsweredTrue | OPFService/NetworkService.cs:64-74 | with the defaults, `Abcdef1!`, absent from the dictionary, is answered `true` after one lookup |
| Network.TripleAnsweredFalse | OPFService/NetworkService.cs:64-70 | with the defaults, `aaaBBB11!!` is answered `false` with no lookup |
| Network.PermissiveEmptyAnsweredFalse | OPFService/NetworkService.cs:64-70 | without a rules file, the empty password is answered `false` with no lookup |
| Network.LeakedAnsweredFalse | OPFService/NetworkService.cs:72-74 | with the defaults, `Password1!`, held by the dictionary, is answered `false` after one lookup |
| Network.PingIgnored | OPFService/NetworkService.cs:75-81 | the command `ping` gets no reply and no lookup, leaves the next line unread, and the client is closed |

## Left out

- `NetworkService.main`: binding port 5995, the accept loop and the thread per connection. This is socket I/O and concurrency; `Handle` models one connection on its own.
- `Program.cs`: the Windows service lifecycle and the wiring of the objects.
- `OPFDictionary`: its loading and its data structure. `Dictionary` is only the membership function it answers with, and a lookup is taken not to throw.
- The EventLog and console logging, and the line counter `a` that only feeds the log messages.
- `File.Exists`, `StreamReader` and the line breaking of `ReadLine`. The rules file and the connection's input are given as lines.
- Constructing `NetworkStream`, `StreamReader` and `StreamWriter` over the socket. Faults there would be caught and would close the client like a read fault, but they are not modelled.
- Char.IsLetter, IsUpper, IsLower and IsDigit. These are the `CharInfo` oracle, and the Unicode tables behind them are not modelled. `Sample` is a small classifier used only in the worked examples.
- Int32.Parse: the model accepts an optional `+` or `-` and then ASCII digits in range. Culture-specific signs and trailing NUL characters, which .NET also accepts, are not modelled.
- `StartsWith("#")` uses a culture-sensitive comparison in .NET. It is modelled as the first character being `#`.
- Strings are sequences of Unicode scalar values, but .NET strings are UTF-16. A character outside the Basic Multilingual Plane counts twice in `Length`, and `Substring` and the scan see it as two surrogate halves. The model counts it once.
- The OPFRules object as a mutable class: its fields are written only during construction, so `Policy` is a value.
- `RulesCheck.ScanWindow` leaves its counters unstated when it reports a repeat. `CheckPassword` discards them then, as the source does.
