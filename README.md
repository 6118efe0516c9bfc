# zanproxy: a verified model of the ban pipeline

zanproxy follows log files. In each new line it looks for a
`Connect (v<version>): A.B.C.D` announcement, after an optional leading
timestamp token. It asks a reputation service for the IP's score. When the
score reaches the configured minimum, it adds the IP to a banlist file. A
record is appended only when no newline-terminated line of the file already
starts with the IP.

The model has four modules:

- `Text` (`text.dfy`) holds the shared vocabulary: an option type, the
  character classes of the two regular expressions, and maximal runs of a
  class.
- `Extract` (`extract.dfy`) is the event extractor. It is pure. The
  expressions `^[0-9:;\[\]]+ ` and
  `Connect \(v[0-9.]+\): ([0-9]+\.[0-9]+\.[0-9]+\.[0-9]+)` are written twice:
  - as hand-written matchers (`StampEnd`, `MatchAt`, `FirstMatch`,
    `FindConnect`, `ExtractIp`);
  - as ghost predicates that describe the text each expression matches
    (`IsStampToken`, `ConnectMatch`, `Leftmost`, `Captures`).

  The lemmas prove that the two agree, with leftmost-first search and a
  greedy last address group.
- `Banlist` (`banlist.dfy`) is `addBan`. The banlist file is the `contents`
  field of the class `Store`. `Store.AddBan` is a loop of
  `ReadString('\n')` calls that returns early on a prefix hit and otherwise
  appends the record. It is proved equal to the function `AddBanSpec`, and
  the properties of `addBan` are lemmas about that function.
- `Pipeline` (`pipeline.dfy`) is the loop of `parseTail`. `Step` is one pass
  of the loop body and `Run` is the fold of `Step` over a finite sequence of
  lines. `ParseTail` is the loop itself, with `continue` on every skip path,
  and is proved equal to `Run`.

Some behaviour comes from outside the program. It enters the model as
parameters:

- The reputation service is a function from the line's index and the IP to
  `LookupError` or `Score(s)`.
- The behaviour of the banlist file during one `addBan` is a `Fault`:
  - no fault;
  - the open fails;
  - the read with a given number fails with an error other than end of file;
  - the write fails after a given number of characters.

Scores and the minimum score are `real`; only their order is used.

The scan tests only newline-terminated lines (zanproxy.go:32-35).
`ReadString` returns end of file together with an unterminated last line,
and the loop stops without testing it. `UnterminatedTailIgnored` states
this, and `TornWriteRetried` and `TornWriteDuplicates` show what follows
from it after a write that fails partway.

## Model

| member | source | states |
|---|---|---|
| `Extract.StampEnd` | zanproxy.go:21 | when it finds an end, the line up to it is a non-empty run of `[0-9:;\[\]]` followed by one space |
| `Extract.StampEndComplete` | zanproxy.go:21 | every prefix the timestamp expression matches is the one found |
| `Extract.StampTokenUnique` | zanproxy.go:21 | a line has at most one timestamp-shaped prefix, because the space is not in the class |
| `Extract.StripTimestamp` | zanproxy.go:64-70 | the search text is a suffix of the line |
| `Extract.StripStamped` | zanproxy.go:64-67 | a line that starts with a timestamp token is searched from just after its space |
| `Extract.StripUnstamped` | zanproxy.go:68-70 | a line with no timestamp-shaped prefix is searched whole |
| `Extract.MatchAt` | zanproxy.go:22 | the connect expression tried at one offset; a capture it returns lies inside the line, and `MatchAtSound`, `MatchAtComplete` and `MatchAtIff` tie it to the declarative match |
| `Extract.MatchAtSound` | zanproxy.go:22 | what the matcher captures at an offset is capture group 1 of a real match there, with the last group greedy |
| `Extract.MatchAtComplete` | zanproxy.go:22 | every match of the connect expression at an offset is found by the matcher; a greedy one is captured exactly |
| `Extract.MatchAtIff` | zanproxy.go:22 | the matcher succeeds at an offset if and only if the connect expression matches there |
| `Extract.FirstMatch` | zanproxy.go:72 | the leftmost-first search of `FindStringSubmatch`; the offset it returns is at or after where it started, and `FirstMatchAt` says it is the first offset that matches |
| `Extract.FirstMatchAt` | zanproxy.go:72 | the search stops at the first offset where the matcher succeeds |
| `Extract.FindConnect` | zanproxy.go:72-76 | group 1 of the leftmost match, or none when `cGroups` is nil; `FindConnectNone`, `FindConnectLeftmost` and `FindConnectShape` state its properties |
| `Extract.FindConnectNone` | zanproxy.go:72-75 | no IP is found if and only if the connect expression matches nowhere in the search text |
| `Extract.FindConnectLeftmost` | zanproxy.go:72-76 | the IP found is exactly capture group 1 of the leftmost match, greedy in its last group, and conversely |
| `Extract.FindConnectShape` | zanproxy.go:76 | the IP found is a dotted quad |
| `Extract.QuadIsDottedQuad` | zanproxy.go:22 | any four non-empty digit strings joined by dots have the captured shape; there is no 0-255 check |
| `Extract.DottedQuadIsQuad` | zanproxy.go:22 | every string of the captured shape is four non-empty digit strings joined by dots |
| `Extract.FindConnectText` | zanproxy.go:22 | an announcement at the start of the text, followed by anything that does not begin with a digit, yields its address |
| `Extract.ExtractIp` | zanproxy.go:64-76 | the IP of one log line: the connect search on the line with its timestamp stripped; `ExtractWellFormed`, `ExtractIgnores` and `ExtractShape` state its properties |
| `Extract.ExtractWellFormed` | zanproxy.go:64-76 | `<timestamp> Connect (v<version>): A.B.C.D<noise>`, with or without the timestamp, yields exactly `A.B.C.D` when the noise does not begin with a digit |
| `Extract.ExtractIgnores` | zanproxy.go:64-75 | a line with no announcement anywhere yields no IP, whether or not it has a timestamp |
| `Extract.ExtractShape` | zanproxy.go:64-76 | an extracted IP is a dotted quad and is the greedy capture of the leftmost match in the text after the timestamp |
| `Banlist.BanMessageOneLine` | zanproxy.go:15 | the constant `BanMessage` is the source's message, and the fixed ban message holds no newline |
| `Banlist.Record` | zanproxy.go:48 | the line `<ip>:<message>` and a newline; `RecordLines` and `RecordInjective` state its properties |
| `Banlist.ReadString` | zanproxy.go:32 | a read returns the text from the current offset through the next newline, or end of file with the rest |
| `Banlist.ReadStringSpec` | zanproxy.go:32-35 | a line read ends with its newline and holds no other; end of file is reported if and only if no newline is left |
| `Banlist.LinesFrom` | zanproxy.go:30-45 | the lines successive `ReadString` calls return from a position until end of file; `LinesFromShape`, `LinesJoin` and `LinesPrefix` state its properties |
| `Banlist.Lines` | zanproxy.go:30-45 | the newline-terminated lines the scan reads from the start of the file; `LinesAppend` and `LinesPrefix` state how appending changes them |
| `Banlist.LinesJoin` | zanproxy.go:31-45 | the lines the scan reads, joined, are the file up to an unterminated tail without a newline; for a terminated file they are the whole file |
| `Banlist.LinesFromShape` | zanproxy.go:32 | every scanned line is non-empty, ends with its newline and holds no other |
| `Banlist.LinesAppend` | zanproxy.go:47-48 | appending to a terminated file keeps its lines in order and adds the lines of the appended text |
| `Banlist.FirstListed` | zanproxy.go:31-45 | the scan stops at the first line that starts with the IP, or after the last line when none does |
| `Banlist.ListedFirst` | zanproxy.go:41-44 | the scan stops early if and only if some terminated line starts with the IP |
| `Banlist.AddBanSpec` | zanproxy.go:24-55 | what one `addBan` does to the file and returns under each fault; `Store.AddBan` is proved equal to it, and `AddBanNoFault`, `AddBanAppends`, `AddBanGuard` and `AddBanIdempotent` state its properties |
| `Banlist.Store.AddBan` | zanproxy.go:24-55 | the new file and the returned status are those of `AddBanSpec`: open or read failure, early success on a prefix hit, or a possibly torn append of `ip:banMessage\n` |
| `Banlist.AddBanAppends` | zanproxy.go:47-51 | the file only ever grows at its end, by a prefix of the record, and by the whole record on success |
| `Banlist.AddBanNoFault` | zanproxy.go:31-48 | with no fault, the IP is reported as listed if and only if a terminated line starts with it, and the file is unchanged; otherwise the record is appended |
| `Banlist.AddBanGuard` | zanproxy.go:26-39 | anything is written only when no terminated line starts with the IP; a failing open or read changes nothing |
| `Banlist.LinesPrefix` | zanproxy.go:31-48 | text appended to a file never changes the lines already in it: they stay a prefix of the new lines |
| `Banlist.AddBanKeepsLines` | zanproxy.go:47-48 | the lines of any file survive any call unchanged and in order; only new lines follow them |
| `Banlist.AddBanKeepsListed` | zanproxy.go:41-48 | an IP listed in any file stays listed after any call, whatever fails |
| `Banlist.AddBanLists` | zanproxy.go:41-48 | after a successful call on a terminated file, the IP is listed and the file is still terminated |
| `Banlist.AddBanIdempotent` | zanproxy.go:41-48 | on a terminated file, a second call with the same IP reports it listed and writes nothing |
| `Banlist.AddBanOneEntry` | zanproxy.go:41-48 | on a terminated file where no line starts with the IP, one call leaves exactly one line that starts with it |
| `Banlist.RecordLines` | zanproxy.go:48 | the record of a newline-free IP is one terminated line that starts with the IP |
| `Banlist.PrefixFalsePositive` | zanproxy.go:41 | with only the record of `1.2.3.40` in the file, adding `1.2.3.4` reports it listed and writes nothing |
| `Banlist.PrefixListed` | zanproxy.go:41-43 | a one-line file whose line starts with a longer string that starts with the IP lists the IP |
| `Banlist.UnterminatedTailIgnored` | zanproxy.go:32-35 | an unterminated last line is never tested; the record is appended after it even when it starts with the IP |
| `Banlist.TornWriteRetried` | zanproxy.go:48-51 | after a torn write the next call does not see the partial record and appends the whole record right after it |
| `Pipeline.Qualifies` | zanproxy.go:86-89 | a score qualifies if and only if it is at least the minimum, so a score equal to the minimum qualifies |
| `Pipeline.Step` | zanproxy.go:63-95 | a line is ignored if and only if no IP is extracted. A lookup failure and a low score are reported. `addBan` is called if and only if the lookup succeeds with a score at least the minimum; otherwise the file is unchanged |
| `Pipeline.Run` | zanproxy.go:63-96 | one event per line, and the file only grows at its end over the whole run |
| `Pipeline.ParseTail` | zanproxy.go:57-97 | the loop leaves the file and returns the events of `Run` over the lines |
| `Pipeline.RunPrefix` | zanproxy.go:63 | lines are processed in order, so later lines never change what happened to earlier ones |
| `Pipeline.RunEvent` | zanproxy.go:63-95 | the event of line `i` is `Step` on the file the earlier lines left |
| `Pipeline.RunKeepsLines` | zanproxy.go:63-96 | the lines of any banlist survive a whole run unchanged and in order |
| `Pipeline.RunWithoutQualifying` | zanproxy.go:72-89 | when no line qualifies, the banlist is unchanged and no `addBan` happens |
| `Pipeline.RunBansIff` | zanproxy.go:79-91 | `addBan` is attempted for a line if and only if an IP is found, its lookup succeeds and its score is at least the minimum |
| `Pipeline.RunTerminated` | zanproxy.go:91-95 | without torn writes, a terminated banlist stays terminated over a run |
| `Pipeline.AddBanTerminated` | zanproxy.go:41-51 | one `addBan` whose write does not fail keeps a terminated banlist terminated |
| `Pipeline.ExtractedOneLine` | zanproxy.go:76 | an extracted IP holds no newline |
| `Pipeline.RunListsBanned` | zanproxy.go:91-95 | on a banlist that is empty or ends with a newline, and without torn writes, every IP whose `addBan` succeeded during the run is listed at the end |
| `Pipeline.AddBanCopies` | zanproxy.go:41-48 | on a banlist that is empty or ends with a newline, one `addBan` without a failing write never creates a second copy of any IP's record |
| `Pipeline.RunNoDuplicateRecord` | zanproxy.go:41-48 | on a banlist that is empty or ends with a newline, and without torn writes, a run never leaves two copies of one IP's record where there was at most one |
| `Pipeline.TornWriteCompletes` | zanproxy.go:31-51 | when the file holds the record of `x` followed by `rest`, a call for another IP starting with `x` that fails after one character, then a call for `rest`, leave exactly two copies of that record |
| `Pipeline.TornWriteDuplicates` | zanproxy.go:31-51 | starting from the record of `10.0.0.5`, a torn write of `10.0.0.50` followed by adding `0.0.0.5` leaves two copies of the record of `10.0.0.5` |
| `Pipeline.UnterminatedStartUnlisted` | zanproxy.go:31-48 | on a file whose only text is an unterminated line that does not start like the IP, a call with no fault reports the record added, yet no line starts with the IP |
| `Pipeline.AddedButUnlisted` | zanproxy.go:31-48 | on the file `x`, adding `1.2.3.4` reports the record added, yet the IP is not listed afterwards |
| `Pipeline.UnterminatedStartDuplicates` | zanproxy.go:31-48 | on the record of `10.0.0.5` followed by a stray `1`, adding `0.0.0.5` with no fault leaves two copies of the record of `10.0.0.5` |
| `Pipeline.RecordInjective` | zanproxy.go:48 | different IPs have different records |
| `Pipeline.ScenarioExtract` | zanproxy.go:64-76 | `12:34:56 Connect (v1.0): 10.0.0.5 extra` yields `10.0.0.5` |
| `Pipeline.ScenarioBanned` | zanproxy.go:79-91 | that line with score 0.9 and minimum 0.5 turns an empty banlist into the one record of `10.0.0.5` |
| `Pipeline.ScenarioBelowMin` | zanproxy.go:86-89 | the same line with score 0.2 leaves the banlist empty and reports the low score |

## Left out

- `main` (zanproxy.go:99-129): argument checking, configuration loading, `os.Exit` and `select {}`. This is process plumbing. The configuration loader is not part of this model.
- Following files (`tail.TailFile`, the `t.Lines` channel) is a foreign library. A log file's new lines are a finite sequence of strings.
- The goroutines and the per-goroutine `regexp.Copy()` calls are not modelled. The model has one sequential caller, so the race between pipelines that scan and then append concurrently is not modelled either.
- The reputation service is an arbitrary function of the line index and the IP. Its metadata result is dropped.
- Scores are reals, not `float64`. NaN is not modelled. In the source a NaN score is not `< MinScore`, so it would be banned.
- Log output and the `%f` formatting of scores are not modelled. The pipeline's events stand in for what is logged.
- The `score` parameter of `addBan` (zanproxy.go:24) is dropped. The source uses it only in the log messages at zanproxy.go:42 and zanproxy.go:53, so `Store.AddBan` has no score parameter.
- The open flags and permissions of the banlist file are not modelled. A failing open is the fault `OpenFails`. Only the outcome of a read or write failure is modelled, not its cause.
- Banlist.AddBanIdempotent: stated only for a file that is empty or ends with a newline, and for an IP without a newline. On any other file the source need not be idempotent, as `UnterminatedTailIgnored` shows.
- Pipeline.RunListsBanned: stated only for a banlist that is empty or ends with a newline at the start, and for runs without a failing write. On an unterminated start a successful call can leave the IP unlisted, as `AddedButUnlisted` shows.
- Pipeline.AddBanCopies: stated only for a banlist that is empty or ends with a newline, and a call whose write does not fail, for the reason `UnterminatedStartDuplicates` shows.
- Pipeline.RunNoDuplicateRecord: stated only for a banlist that is empty or ends with a newline at the start, and for runs without a failing write. The file outlives the process (zanproxy.go:25 opens an existing file), so an unterminated start is reachable; `UnterminatedStartDuplicates` shows one call with no fault then making a second copy. A torn write leaves a partial line that the next record is appended to, and `TornWriteDuplicates` shows a run of two calls that leaves two copies of one record that way.
- `addBan` never closes the banlist file it opens (zanproxy.go:25); the descriptor is released only when Go's garbage collector finalizes it. The model has no descriptors, and a later open that fails for lack of them is covered only as an arbitrary `OpenFails`.
- Go strings are byte sequences and the regular expressions match UTF-8; the model's strings are sequences of characters. The newline split, `HasPrefix` and the ASCII character classes agree with the byte-level behaviour on valid UTF-8; invalid UTF-8 is not modelled.
