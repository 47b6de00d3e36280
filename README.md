# VSCMount core: discovering and mounting volume shadow copies

VSCMount lists the Volume Shadow Copies (VSCs, the snapshots Windows keeps of
a volume) of a drive and makes each one reachable as a directory symbolic
link under a mount root. This project models the core of that work, which is
all in `VSCMount/Helpers.cs`:

- the `VssInfo` constructor, which derives the shadow copy's ordinal
  (`VssNumber`) from its device path;
- `GetVssForVolume`, which reads the text report of
  `vssadmin list shadows /for=X:` into a list of `VssInfo` records;
- `MountVss`, which creates the mount root if it is missing and then makes
  one link attempt per record, named
  `{root}\vss{number:000}[-{yyyyMMddTHHmmss}]`.

The modules follow that structure:

- `Wrappers`: `Option`, `Result` and `MapAll`, a left-to-right map in which
  the first failure wins.
- `Text`: the .NET string operations the code relies on, written out over
  `seq<char>`: `IndexOf` with ordinal comparison, `TrimEnd` with the Unicode
  White_Space set, rest-of-line search, the `000` custom number format, and
  `int.Parse` on digit strings with its overflow check.
- `Clock`: an already-parsed UTC time and its `yyyyMMddTHHmmss` text.
- `Snapshot`: `VssInfo` and its constructor.
- `Discovery`: both regular expressions of `GetVssForVolume`, written out as
  the searches they perform, and the method with its match loop and group
  loop.
- `Mount`: link names, a file system as a value (directories and a map from
  link path to target), and the `MountVss` method.

The model has no exceptions. An exception is a `Failure` value that ends the
whole call:

- `ParseError`, inside discovery;
- `MountError`, at the `MountVss` level.

The report text, the creation-time parser and the outcomes of the OS calls
are parameters:
- `stdOut` is the captured report;
- `parseTime` stands for `DateTimeOffset.Parse(..., AdjustToUniversal)`; `None` means it threw;
- `rootCreatable` says whether `Directory.CreateDirectory` succeeds;
- `linkWorks(n)` is what the n-th `CreateSymbolicLink` call returns.

`MountVss` returns the records it used and every effect it performed, in
order, as a trace (`MadeDirectory` and `TriedLink(link, target, worked)`). It
also returns the file system that results from applying that trace.

In three places the code behaves differently from what a reader might expect, and the model follows the code:
- The dated link name carries no sub-second part. The code formats with
  `yyyyMMddTHHmmss` (Helpers.cs:143), so the fraction of the second is
  dropped: `Clock.StampDropsTicks` shows that two times differing only in it
  give the same name.
- A malformed block does not get skipped. Nothing in the parse loop
  (Helpers.cs:81-112) catches an exception, so one bad block (an unparsable
  creation time, a volume path without a number) makes the whole discovery
  fail: see `Discovery.DiscoverAllOrNothing`.
- `MountVss` does not delete the mount root. It only creates the root when
  it is missing (Helpers.cs:128-132).

## Model

| member | source | states |
|---|---|---|
| Wrappers.MapAll | VSCMount/Helpers.cs:81-112 | The loop has no handler, so the first exception ends the call. A successful run has one result per element, and an empty input succeeds with an empty list. |
| Text.IndexOfFrom | VSCMount/Helpers.cs:24 | The result is the first position at or after the start where the pattern occurs, with no occurrence between. It is -1 exactly when there is no occurrence at all (String.IndexOf, ordinal). |
| Text.WhiteSpaceCharacters | VSCMount/Helpers.cs:91-100 | IsWhiteSpace, the set behind char.IsWhiteSpace and TrimEnd, holds tab, line feed, carriage return, space, no-break space and the ideographic space. It excludes the zero-width space, the byte order mark and digits. |
| Text.TrimEnd | VSCMount/Helpers.cs:91-100 | The result is a prefix of its input that does not end in white space. Everything it removed is white space. |
| Text.TrimEndUnique | VSCMount/Helpers.cs:91-100 | Those three properties determine the trimmed string: any string with them equals TrimEnd's result. |
| Text.LineEnd | VSCMount/Helpers.cs:91-100 | It gives the first '\n' at or after a position, or the end of the text. This is where a greedy `(.+)` stops, since '.' excludes only '\n'. |
| Text.PadNumber | VSCMount/Helpers.cs:139 | The `000` format gives decimal digits whose value is the number. The digits are at least as many as the width, and exactly that many when the number fits in the width. |
| Text.PadNumberInjective | VSCMount/Helpers.cs:139 | Two numbers padded to the same width give the same text if and only if they are equal. |
| Text.ParseInt32 | VSCMount/Helpers.cs:23-25 | It succeeds if and only if the text is a non-empty digit string whose value is at most 2147483647, and the result is that value. It reports overflow exactly for digit strings above that bound. |
| Text.ParseDecimal | VSCMount/Helpers.cs:23-25 | Parsing the decimal text of any number up to 2147483647 gives that number back. |
| Text.ParsePadded | VSCMount/Helpers.cs:23-25 | The zero-padded text parses back to the number as well. |
| Clock.CompactStamp | VSCMount/Helpers.cs:143 | The `yyyyMMddTHHmmss` text of a time is 15 characters long. |
| Clock.StampFields | VSCMount/Helpers.cs:143 | Each of the year, month, day, hour, minute and second can be read back from its place in the stamp, with 'T' at index 8. |
| Clock.StampDistinguishesSeconds | VSCMount/Helpers.cs:143 | Two times have the same stamp if and only if they agree down to the second. |
| Clock.StampDropsTicks | VSCMount/Helpers.cs:143 | The sub-second part of a time never changes its stamp. |
| Snapshot.VssNumberOf | VSCMount/Helpers.cs:23-25 | A parsed number fits in a C# int. Substring throws only when the marker is absent and the path is shorter than 15 characters. |
| Snapshot.NumberFollowsFirstMarker | VSCMount/Helpers.cs:23-25 | When the first "VolumeShadowCopy" in the path is followed by `rest`, the number is `rest` read as digits. It succeeds if and only if `rest` is a non-empty digit string within the int range, and it overflows exactly when the digits exceed that range. |
| Snapshot.NumberOfDevicePath | VSCMount/Helpers.cs:23-25 | A device path that ends in the marker and the decimal text of n gives n. |
| Snapshot.NumberOfHarddiskPath | VSCMount/Helpers.cs:23-25 | `\\?\GLOBALROOT\Device\HarddiskVolumeShadowCopy42` gives 42. |
| Snapshot.NumberWithoutMarker | VSCMount/Helpers.cs:23-25 | Without the marker, IndexOf's -1 makes the text be read from index 15. A path shorter than 15 characters throws. A longer one succeeds exactly when its characters from index 15 on are digits within the int range. |
| Snapshot.EmptyVolumeHasNoNumber | VSCMount/Helpers.cs:23-25 | An empty volume path makes construction throw. |
| Snapshot.NewVssInfo | VSCMount/Helpers.cs:14-26 | Construction succeeds if and only if the number can be derived. It then keeps the five given values unchanged and sets VssNumber to the derived number. Otherwise it fails with the number's error. |
| Discovery.FindBlock | VSCMount/Helpers.cs:78-80 | Match and NextMatch find the leftmost position at or after the start where `shadow copies at creation time: ` is followed by at least one character and then "Provider". The match closes at the first such "Provider". None means no position matches. |
| Discovery.BlockCloseUnique | VSCMount/Helpers.cs:78 | A match at a given start has exactly one closing position: the lazy group stops at the first "Provider". |
| Discovery.MatchEnd | VSCMount/Helpers.cs:111 | The next search resumes at least 41 characters after the match start (the head, one character and "Provider") and within the report. So the matches do not overlap and the loop ends. |
| Discovery.GroupText | VSCMount/Helpers.cs:78-85 | Group 1 starts with "creation time: " followed by at least one character, and holds no later "Provider". |
| Discovery.Group | VSCMount/Helpers.cs:83-89 | Groups[i] succeeds if and only if i < Groups.Count, and Groups.Count is 2. |
| Discovery.Blocks | VSCMount/Helpers.cs:80-111 | The Match/NextMatch scan collects the groups of successive non-overlapping matches, at most one per 41 characters of the report. |
| Discovery.BlocksShape | VSCMount/Helpers.cs:78-81 | Every group the scan collects starts with the creation label and holds no later "Provider". |
| Discovery.NoHeadNoBlocks | VSCMount/Helpers.cs:80-81 | A report without the block head has no matches. |
| Discovery.FindField | VSCMount/Helpers.cs:91-100 | It finds the leftmost occurrence of the label that is followed by a character other than '\n', which is where `label(.+)` matches; -1 means there is none. |
| Discovery.FieldValue | VSCMount/Helpers.cs:91-100 | The field value holds no line break and no trailing white space. A label that never matches gives "". |
| Discovery.FieldIsRestOfLine | VSCMount/Helpers.cs:91-100 | The field value is everything after the first matching label up to the end of its line, with trailing white space trimmed. |
| Discovery.RecordOf | VSCMount/Helpers.cs:91-104 | A group whose creation-time field does not parse fails with BadCreationTime carrying that raw text, and only such a group does: the time is parsed before the constructor runs. Otherwise the record succeeds exactly when the number can be derived from the volume field, and a failure carries that error. A successful record holds the parsed time and the four other fields as extracted. |
| Discovery.RecordsOfMatch | VSCMount/Helpers.cs:83-109 | The group loop over indices 1 to Groups.Count adds exactly one record per match, group 1's, or throws that group's error. |
| Discovery.GetVssForVolume | VSCMount/Helpers.cs:78-117 | The match loop returns Discover: the groups' records in report order, or the first group's failure. |
| Discovery.Discover | VSCMount/Helpers.cs:78-117 | What GetVssForVolume returns: on success one record per match, and an empty list when the report has no match. |
| Discovery.DiscoverOnePerBlock | VSCMount/Helpers.cs:81-111 | A successful discovery has exactly one record per match, in report order. Record n holds the five fields of match n and the number derived from its volume path. |
| Discovery.DiscoverAllOrNothing | VSCMount/Helpers.cs:102-108 | Discovery fails if and only if some match's record fails to build. It then fails with the error of the first failing match, and every earlier match built. |
| Discovery.DiscoverNothing | VSCMount/Helpers.cs:78-81 | A report with no block head gives an empty list. |
| Mount.LinkName | VSCMount/Helpers.cs:139-144 | Every link name starts with `{mountRoot}\vss` followed by at least three characters. |
| Mount.LinkNameInjective | VSCMount/Helpers.cs:139-144 | Two records get the same link name if and only if they have the same number and, when dates are used, the same creation time to the second. |
| Mount.DistinctRecordsDistinctNames | VSCMount/Helpers.cs:134-144 | Records whose numbers differ, or, with dates, whose creation seconds differ, get pairwise distinct link names. |
| Mount.FirstSnapshotName | VSCMount/Helpers.cs:139 | Shadow copy 1 is linked as `{mountRoot}\vss001`. |
| Mount.WideNumberName | VSCMount/Helpers.cs:139 | A number of four digits is not cut: shadow copy 1234 is linked as `{mountRoot}\vss1234`. |
| Mount.LinkTarget | VSCMount/Helpers.cs:146 | The link target is the volume path unchanged with one backslash appended. |
| Mount.Perform | VSCMount/Helpers.cs:131-146 | Creating a directory adds it. A link call that returns true sets its link to its target. A call that returns false changes nothing. |
| Mount.PerformDistinctLinks | VSCMount/Helpers.cs:146-158 | Link calls at distinct paths leave the directories alone. Every call that worked installs its link. Every other path keeps its old entry. |
| Mount.RootEffects | VSCMount/Helpers.cs:128-132 | The root step makes no directory when the root exists, and otherwise creates the root and nothing else. |
| Mount.RootCreated | VSCMount/Helpers.cs:128-132 | After the root step the root exists and no link has changed. |
| Mount.LinkAttempts | VSCMount/Helpers.cs:134-158 | The foreach makes exactly one attempt per record, whatever the outcomes of the calls. |
| Mount.AttemptOfRecord | VSCMount/Helpers.cs:134-146 | There are as many attempts as records. Attempt n links record n's name to its volume path plus "\", with the outcome of call n, so a failed call does not stop or alter the others. |
| Mount.MountVss | VSCMount/Helpers.cs:120-159 | A failed discovery throws its error. A missing root that cannot be created throws before any link call. Otherwise the trace is the root creation, when the root was missing, then one attempt per record in order, and the final file system is the trace applied to the initial one. |
| Mount.RootThenLinks | VSCMount/Helpers.cs:128-158 | After the root step and link calls at distinct paths, the root exists. Each call that worked has installed its link, and every other path keeps its old entry. |
| Mount.MountedLinks | VSCMount/Helpers.cs:128-158 | After a run with distinct names the root exists. Each link whose call worked points to its target. A failed call leaves its path as it was, and every other path is untouched. |
| Mount.MountedAfterCleanup | VSCMount/Helpers.cs:128-158 | When none of the planned names exists before the run, a name is linked afterwards if and only if its call worked. |

## Left out

- Launching `vssadmin.exe` and reading its output (Helpers.cs:60-76) is process I/O. The report is the `stdOut` parameter, and the drive letter, which only reaches the command line and the log text, is not modelled.
- `DateTimeOffset.Parse(..., AdjustToUniversal)` (Helpers.cs:103) depends on culture and time zone. It is the `parseTime` parameter, which yields an already-UTC time or `None` for a FormatException.
- The `CreateSymbolicLink` P/Invoke (Helpers.cs:50-52, 146) is a foreign call. Its result is `linkWorks(n)`. A true result is modelled as the link now pointing to its target; what the OS does when the path already exists is up to that oracle.
  - The model assumes `worked` is the real OS outcome. The declaration does not guarantee this. It has no `[return: MarshalAs(UnmanagedType.I1)]`, so the 1-byte Win32 `BOOLEAN` result is read as a 4-byte `BOOL` and can come back true after a failed call.
  - It has no `CharSet` either, so the ANSI entry point is used. Characters of `mountRoot` or the volume path outside the code page can then change the path that is really created. The model takes the link path as the string it builds.
- `Directory.Exists` and `Directory.CreateDirectory` (Helpers.cs:128-132) are modelled as a set of directories plus the `rootCreatable` oracle. That a parent directory gets created along the way is not modelled, and a failure ends the run as `RootNotCreated`.
- Clock.CompactStamp: is modelled for a culture with the Gregorian calendar. `{CreatedOn:yyyyMMddTHHmmss}` (Helpers.cs:143) formats with the current culture's calendar, so under th-TH the year is Buddhist-era and under ar-SA the date is Um Al-Qura. The model always gives the Gregorian digits.
- Logging and `ToString` (Helpers.cs:35-39, 56, 106, 115, 122-126, 136-157) only produce output and are not modelled.
- The general .NET regular-expression engine is not modelled. Only the two patterns used here are written out, and the regex timeout is not modelled.
- Text.ParseInt32: accepts only ASCII digit strings. The leading and trailing white space, sign and culture rules of `int.Parse` are not modelled, because vssadmin's device paths end in plain digits.
- Snapshot.VssInfo: `VssNumber` is a `nat`. A parse of digits never gives a negative number, and values above 2147483647 are rejected as an overflow.
- `VSCMount/Program.cs` is not part of this model. It covers the command line, telemetry, the administrator and platform checks, the drive readiness check, and the removal of old `vss*` entries before mounting. That removal appears only as the precondition of `Mount.MountedAfterCleanup`.
- Discovery through WMI is not part of this model; the code in `Helpers.cs` only parses the vssadmin report.
