# UCSVersion — a Dafny model of the command core

UCSVersion is a command-line tool that keeps a list of Cisco UCS Manager
domains (IP, username, encrypted password) in a YAML config file under the
key `ucs.systems`. It adds, updates, deletes and shows entries, and for
`run` it logs in to every domain, reads its firmware version and prints the
suggested release train and whether that release is deferred.

This project models the command path of `app/flags.go` and `app/app.go`:

- `Strings` — the parts of Go's `strings` package the core relies on:
  `Split` (always `Count + 1` parts), `Join`, and `TrimSpace` over Unicode
  white space.
- `Commands` — `ProcessCommandLineArguments`, which encodes the parsed
  sub-command as a `|`-delimited string, and the decision half of
  `processResponse`, which splits that string and picks an action. Indexing
  past the last field is Go's run-time panic and becomes `IndexOutOfRange`.
- `Records` — `UCSSystemInfo`, the stored map entries (`url`, `username`,
  `password`), and the list operations as functions: update by exact IP,
  delete with the source's splice-then-advance loop, probing and release
  evaluation against an oracle, and the report table's rows.
- `Transitions` — each command as a function on the pair (in-memory list,
  stored `ucs.systems` key), with the invariant that the stored trimmed
  IPs stay unique.
- `ConfigFile` — `filepath.Base` and the name/type split of `LoadConfig`.
- `App` — the `Application` class. Its `UCS` list is a `seq` field that the
  methods reassign, and the config store's key is a field too. Every loop of
  the source that changes the list or builds a result is a loop here. The
  show commands' printing loops are left out. Each method is proved to reach
  exactly the transition function's state.

Behaviour of the code that the proofs make explicit:

- `deleteUCS` removes a match and then advances past the element that slid
  into its place. After a removed match the next record is kept, whatever
  its IP (`DeletedSkipsNext`); for example `[r, r]` keeps `r`
  (`AdjacentMatchSurvives`).
- `checkUCSExists` compares trimmed IPs, while `deleteUCS` and `updateUCS`
  compare exactly. A stored IP with leading or trailing white space is
  reported present, yet deleting it removes nothing
  (`TrimmedMatchIsNotDeleted`).
- `saveConfig` writes the list back only when it is non-empty. Deleting the
  last stored record therefore leaves it in the store
  (`DeletingLastRecordKeepsItStored`).
- A `|` inside a flag value shifts the fields after it. One in the password
  cuts the password short (`PipeInPasswordIsCut`). One in the username makes
  the text after it the password, and the real password is dropped
  (`PipeInUsernameShifts`). Such a `|` only adds fields, so the
  encoded command line never makes `processResponse` panic
  (`EncodedNeverPanics`). A hand-written string with too few fields would
  panic (`ShortAddPanics`, `BareHeadPanics`).
- `addUCSSystem` checks for duplicates only when `ucs.systems` is set. The
  uniqueness of stored IPs therefore relies on the list being empty while
  nothing is stored (`Consistent`, `AddIgnoresUnsavedList`).

Addresses are meant to be unique, but the code enforces this only against
the stored list, after trimming. The model follows the code.

## Model

| member | source | states |
|---|---|---|
| Commands.ProcessCommandLineArguments | app/flags.go:35-51 | the encoded string is empty exactly when the sub-command is not one of the six the switch lists |
| Commands.Dispatch | app/flags.go:53-71 | a panic only when the string has fewer than three separators; add/update read four fields, delete/show two; a string without `\|` yields no action, run, show-all or a panic; a first field `RUN` runs, `SHOWALL` shows all, and any head other than the six command names does nothing |
| Commands.DispatchAdd | app/flags.go:59-60 | an `ADDUCS` string panics when fewer than three fields follow the head, and otherwise adds with the first three |
| Commands.DispatchUpdate | app/flags.go:61-62 | an `UPDATEUCS` string panics when fewer than three fields follow the head, and otherwise updates with the first three |
| Commands.DispatchDelete | app/flags.go:63-64 | a `DELETEUCS` string deletes the first field after the head, up to any further `\|` |
| Commands.DispatchShow | app/flags.go:65-66 | a `SHOWUCS` string shows the first field after the head, up to any further `\|` |
| Commands.DispatchRoundTrip | app/flags.go:35-71 | when no flag value contains `\|`, dispatching the encoded sub-command performs exactly the action its flags ask for |
| Commands.PipeInPasswordIsCut | app/flags.go:40 | a password containing `\|` reaches addUCSSystem cut at its first `\|` |
| Commands.PipeInUsernameShifts | app/flags.go:40 | a username containing `\|` reaches addUCSSystem cut at its `\|`, with the text after it as the password |
| Commands.SplitFourWithMiddlePipe | app/flags.go:55 | three fields whose middle one holds one `\|` split into four parts |
| Commands.BareHeadPanics | app/flags.go:59-66 | the bare strings `ADDUCS`, `UPDATEUCS`, `DELETEUCS` and `SHOWUCS` index past their only field |
| Commands.EncodedNeverPanics | app/flags.go:35-71 | whatever the flag values hold, processResponse never indexes past the fields of the encoded command line |
| Commands.ShortAddPanics | app/flags.go:59-60 | a hand-written add string with only an IP field indexes past the split fields |
| Strings.TrimSpace | app/flags.go:185 | the result has no leading or trailing white space and is no longer than the input |
| Strings.TrimSpaceOfPadded | app/flags.go:185 | trimming white-space padding returns the trimmed middle |
| Strings.Count | app/flags.go:55 | the count is zero exactly when the character is absent, and at most the length |
| Strings.CountConcat | app/flags.go:55 | separators in a concatenation add up |
| Strings.Split | app/flags.go:55 | at least one part, and no part contains the separator |
| Strings.SplitLength | app/flags.go:55 | Split returns one more part than there are separators |
| Strings.JoinOfSplit | app/flags.go:55 | joining the parts of a split with the separator gives back the string |
| Strings.SplitOfJoin | app/flags.go:55 | splitting the join of separator-free parts gives back the parts |
| Strings.SplitCons | app/flags.go:55 | a separator-free prefix followed by the separator becomes the first part |
| Strings.SplitNoSep | app/flags.go:55 | a string without the separator splits into itself alone |
| ConfigFile.Base | app/app.go:153 | "." for the empty path and "/" for a path of slashes only; otherwise the `/`-free tail of the path with its trailing slashes removed, starting at the path's start or just after a `/` |
| ConfigFile.DotSplit | app/app.go:153-154 | splitting on `.` gives two parts exactly when there is one `.`, and those parts rejoin to the name |
| ConfigFile.NameParts | app/app.go:153-157 | with exactly one `.` in the base name, the name and type are the two dot-free sides; otherwise both are empty |
| Records.ReadBack | app/app.go:106-118 | reading back the saved entries gives each record's IP, username and password, with the other fields zero |
| Records.WriteBack | app/flags.go:200-212 | entries holding exactly the three keys are reproduced by reading then saving |
| Records.AppendKeepsUnique | app/flags.go:73-76 | appending a record whose trimmed IP is absent keeps trimmed IPs unique |
| Records.UpdatedKeepsIps | app/flags.go:157-165 | update keeps the length and every IP, keeps uniqueness, and applying it twice equals once |
| Records.Deleted | app/flags.go:121-128 | deletion never lengthens the list and keeps only records that were there |
| Records.DeletedKeepsOthers | app/flags.go:121-128 | every record with a different IP survives, in order |
| Records.DeletedRemovesAllMatches | app/flags.go:121-128 | with no two matches adjacent, every match is removed |
| Records.DeletedSingleMatch | app/flags.go:121-128 | a single match at index k is removed and nothing else changes |
| Records.DeletedNoMatch | app/flags.go:121-128 | without a match the list is unchanged |
| Records.DeletedSkipsNext | app/flags.go:122-125 | when the first match is followed by some record `x`, `x` is kept whatever its IP, and deletion resumes after it |
| Records.AdjacentMatchSurvives | app/flags.go:122-125 | the two-record list `[r, r]` of matches keeps `r` |
| Records.DeletedKeepsUnique | app/flags.go:121-128 | deletion keeps the trimmed IPs unique |
| Records.ProbeThenEvaluate | app/app.go:29-72 | a record's status follows the login result; version and release data are set only for a reachable domain; IP, username and password are untouched |
| Records.ReportConcat | app/app.go:53-57 | the report of a concatenation is the concatenation of the reports |
| Records.ReportRows | app/app.go:53-57 | a row is reported exactly when some reachable record produces it |
| Transitions.SaveKeepsUnique | app/app.go:89-94 | saving a list with unique trimmed IPs keeps the store unique |
| Transitions.StepKeepsStoredUnique | app/flags.go:53-71 | every dispatched command keeps the store consistent and its trimmed IPs unique |
| Transitions.AddIgnoresUnsavedList | app/flags.go:180-192 | with nothing stored, a record listed only in memory is added a second time |
| Transitions.DeletingLastRecordKeepsItStored | app/app.go:91-94 | deleting the only stored record empties the list but leaves the store as it was |
| Transitions.TrimmedMatchIsNotDeleted | app/flags.go:108-128 | a stored IP with leading or trailing white space is found by the trimmed lookup but not removed by the exact deletion |
| App.Application.constructor | app/structs.go:8-16 | a new application holds its config path, debug flag and key, with an empty list and nothing stored |
| App.Application.Emits | app/app.go:178-196 | a message is logged exactly when it is not debug-only or debug is on |
| App.Application.LoadConfig | app/app.go:146-176 | the config name and type are NameParts of the path; the store holds what the file holds; the list is untouched |
| App.Application.AddUcs | app/flags.go:86-106 | succeeds exactly when IP, username and password are non-empty, then appends the record with the encrypted password; otherwise the list is unchanged |
| App.Application.UpdateUcs | app/flags.go:157-165 | the list becomes the exact-IP update with the encrypted password |
| App.Application.DeleteUcs | app/flags.go:121-128 | the list becomes Deleted of the old list, the splice-and-advance result |
| App.Application.ReadSystems | app/flags.go:200-212 | the list becomes the records read from the entries |
| App.Application.GetAllSystems | app/flags.go:194-198 | the list is reloaded from the store; the store is unchanged |
| App.Application.CheckUcsExists | app/flags.go:180-192 | false without reloading when nothing is stored; otherwise reloads and answers whether a stored trimmed IP equals the trimmed IP |
| App.Application.ProcessSystems | app/app.go:106-118 | returns one entry per record, in order, holding its url, username and password |
| App.Application.SaveConfig | app/app.go:89-104 | the store is overwritten with the list's entries exactly when the list is non-empty |
| App.Application.AddUcsSystem | app/flags.go:73-84 | runs the lookup; when the IP is not found and all three fields are non-empty, appends the record with the encrypted password and saves; otherwise only the lookup's reload happens |
| App.Application.UpdateUcsSystem | app/flags.go:167-178 | runs the lookup; when the IP is found, gives every record whose IP equals it exactly the new username and encrypted password, then saves |
| App.Application.DeleteUcsSystem | app/flags.go:108-119 | runs the lookup; when the IP is found, applies the splice-and-advance deletion by exact IP, then saves (a no-op on the store when the list ends up empty) |
| App.Application.ShowUcsSystem | app/flags.go:140-146 | performs the lookup's reload and nothing else |
| App.Application.ShowUcsSystems | app/flags.go:148-155 | reloads the list and changes nothing else |
| App.Application.ProcessVersions | app/app.go:61-73 | every record with status true gets the suggested train and deferred flag of its trimmed version; the others are unchanged |
| App.Application.OutputVersionSuggestions | app/app.go:50-59 | the rows are the report of the reachable records, in order |
| App.Application.RunAll | app/app.go:26-48 | reloads the list; each record's status becomes the login result with its decrypted password and, on success, its version is read; release data is then set for the reachable records; the rows returned are those of the reachable records; the store is unchanged |
| App.Application.ProcessResponse | app/flags.go:53-71 | the state follows the action chosen by the first field (run, add, update, delete, show one, show all, or nothing for any other head); it panics exactly when that action needs more fields than there are; consistency and stored uniqueness are kept |
| App.Application.Run | app/app.go:82-87 | the command line's action is performed and it never panics; with separator-free flags it is exactly the action the sub-command and its flags ask for |

## Left out

- Command-line parsing: the parsed sub-command name and the flag values are inputs. IP flags are their text form, and parsing and printing `net.IP` is not modelled.
- The config file itself: viper and YAML reading and writing, creating the file, and the file-exists check are not modelled. `LoadConfig` takes the stored `ucs.systems` value as a parameter, and `filepath.Dir`, `AddConfigPath` and the panic on a malformed file are not modelled.
- `EncryptPassword` and `DecryptPassword` are uninterpreted, deterministic functions with the fixed key folded in. No round trip between them is assumed.
- The UCS client is an oracle (`Remote`): `Login`'s success, `GetVersion`, `GetSuggestedReleaseTrain` and `GetIsDeferredRelease`. `Logout` and `GetWebData` have no modelled effect. The `cookie` and `name` fields are never written, as in the source.
- Logging is left out: logger construction, log-file hooks, message text and fields. Only the debug filter is kept, as `Emits`.
- Printing is left out: the banner, the "no systems" line and the table. The report is returned as rows instead.
- `showUCS` only prints, so `ShowUcsSystem` models its reload and not its output.
- `runtime.GOMAXPROCS` has no observable effect on this core.
- Strings are sequences of Unicode characters, not UTF-8 bytes, so invalid UTF-8 input is not modelled.
- Stored entries are string maps: `as.ToStringMapString`'s conversion of non-string values is not modelled. An unset key reads as an empty list, and `IsSet` means the key holds a list.
- Commands.Dispatch: its own contract states the field counts and the outcome for the heads `RUN`, `SHOWALL` and any unknown head. The field-reading heads followed by `|` are stated by `DispatchAdd`, `DispatchUpdate`, `DispatchDelete` and `DispatchShow`, and those heads alone by `BareHeadPanics`, and its meaning on encoded commands by `DispatchRoundTrip`, `PipeInPasswordIsCut` and `EncodedNeverPanics`. `ShortAddPanics` covers one string the encoder never builds.
- ConfigFile.Base: Unix paths only; the Windows separator `\` and volume names are not modelled.
- Strings.TrimSpace: its own contract states only that the result is trimmed and no longer. That the result is the middle of the input is `TrimSpaceOfPadded`.
