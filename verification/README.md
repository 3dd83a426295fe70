# PotPlayerTimeSkip: a verified model

PotPlayerTimeSkip adds skip ranges to PotPlayer from three hotkeys. A proxy DLL carries the plugin into the player, a PowerShell installer swaps that proxy in and out, and a C++ core reads and writes all the text involved. This project models those parts in Dafny and proves what they promise, for every input, every run and every failure.

- **Text** (`Text`, `Decimal`): searching, splitting, trimming and decimal numbers in the "C" locale. One `char` is one byte of the original's strings.
- **Codecs** (`Timecode`, `Pbf`, `PbfLayout`, `HumanInput`, `Hotkeys`, `Config`, `ConfigMeaning`, `ConfigFile`): timecodes, `.pbf` lines and sections, lenient human input, hotkey specs, and the whole `config.ini`. Every scanning loop of the source is a method here, proved against a line-by-line or piece-by-piece meaning; round trips, exact acceptance and fold laws are proved about that meaning.
- **Executables** (`PeBytes`, `PeExports`, `PeFiles`, `PeMoved`, `PeFixture`, `PeRoundTrip`): the export-table reader of the installer and the back-patching printer of its tests, down to the byte.
- **Installer** (`Installer`, `InstallerRuns`, `InstallerOutcomes`, `InstallerStranding`, `InstallerChecks`, `InstallerFixtures`): the install directory as an object whose single file operations may fail; an operation may also be killed between any two of them, and PotPlayer may be updated at any time.
- **Dialogs** (`SkipSetup`, `CommitSafety`, `Conversations`, `HonestPlayer`): the protocol that adds a range through PotPlayer's own dialog. The UI is an arbitrary function of everything asked so far; a second, honest player keeps a working list.
- **Hotkeys in use** (`SkipMarking`, `HotkeyPump`, `LiveMarking`): the pick-then-commit state machine over whole runs of key presses, the queue that feeds it, and both wired to the honest player.

An exception is the `Err` of a `Result`; its wording is not modelled. Numbers are mathematical integers: int64 and int32 limits appear as explicit conditions (`INT64_MAX`, `FitsInt64`, `ToInt32`).

## Where the code and its documentation differ

The model follows the code.

- `core/include/core/config.hpp:97` says a malformed value falls back to the key's own default. The code keeps the field's current value (`ConfigFile.MalformedIsNotDefault` is a file for which the two differ). The field is at its default after a malformed line if and only if the last valid line before it, if any, assigned that default (`Config.MalformedKeepsValue`).
- `core/include/core/config.hpp:104-106` says every serialized config reads back. That holds exactly for well-formed configs (`ConfigFile.ConfigRoundTrip`): the `0x..` fallback of `core/src/config.cpp:178-182` is not parseable.
- `tools/install/README.md:63-65` calls a repeated Install a no-op that does not error. The code throws and leaves the files alone (`InstallerOutcomes.Reruns`, `Installer.InstallDirectory.Install`).
- `tools/install/README.md:48-51` says a partial failure never leaves PotPlayer without a live DLL. Install, Uninstall, and Repair through its Install, leave none if and only if they are killed between their two renames, or the second rename and its rollback both fail (`InstallerStranding.LiveLostExactly`). Every operation then refuses, so a run ends without a live DLL if and only if some operation stranded it and no update came after that (`InstallerStranding.RunLosesLiveExactly`). The newest real DLL is never lost.
- A commit that reports failure has still been saved when the dialog is slow to close (`HonestPlayer.CommitHonest`), so retrying it saves the range twice (`LiveMarking.RetryDuplicates`).
- `tools/install/Tests.ps1:39` keeps the export names in a list, but PowerShell unrolls a list of one name. A lone forwarder is therefore printed as a real export (`PeRoundTrip.PrintedFileReadsBack`).

## Assumptions

- File errors throw, as the command-line script arranges (`tools/install/potplayer-proxy.ps1:40`); a failing file operation changes nothing, except that a failed copy may leave anything under its temporary name. The proxy file does not change during an operation.
- PotPlayer updates bring a parseable DLL without forwarders.
- A DLL is its bytes together with what the export reader reports about them; the protocol theorems hold for every report, and `Installer.Load` gives the report `PeExports.ReadExports` really makes.
- The player reports playback positions that are not negative. A Skip Setup dialog that outlived the close timeout is gone before the next commit opens it.

## Model

| member | source | states |
|---|---|---|
| Text.TrimLoop | core/src/core.cpp:37-45 | the two removal loops of Trim compute the trimmed text |
| Text.TrimParts | core/src/config.cpp:15-23 | trimming removes white space at both ends only, and all of it |
| Text.TrimPadding | core/src/core.cpp:37-45 | adding white space on either side never changes the trimmed text |
| Text.CharacterClasses | core/src/config.cpp:15-31 | white space, digits and lower-casing of the "C" locale, by character code |
| Text.SplitConcat | core/src/core.cpp:171-192 | splitting is a homomorphism on separator boundaries |
| Decimal.PadDigitsOfValue | core/src/core.cpp:61-62 | reprinting a digit field at its own width reproduces it, leading zeros included |
| Decimal.DigitsOfValue | core/src/core.cpp:25-35 | digit strings without a superfluous leading zero are exactly what printing their value gives |
| Timecode.ParseFormat | core/src/core.cpp:49-107 | every int64 duration survives formatting and parsing |
| Timecode.ParseAcceptsExactly | core/include/core/core.hpp:27-34 | the strict parser accepts exactly digits+, two minute digits 00-59, two second digits 00-59, three millisecond digits, hours within int64 |
| Timecode.ParsedFields | core/src/core.cpp:85-106 | an accepted text is its four fields, and its value is the clock value of those fields |
| Timecode.FormatParse | core/src/core.cpp:49-107 | formatting a parsed text only normalises the leading zeros of its hours |
| Timecode.FormatsExactly | core/include/core/core.hpp:26-38 | a duration is printed if and only if it is not negative, as the one clock text of its value with no superfluous leading zero |
| Timecode.ParsesToExactly | core/src/core.cpp:49-107 | a text parses to a duration if and only if it is what printing the duration gives, up to leading zeros of the hours |
| Timecode.ParseArithmeticFits | core/src/core.cpp:106 | no intermediate of the parser's sum exceeds the result, so none overflows when the result fits int64 |
| Timecode.RenderLength | core/src/core.cpp:60-63 | a formatted int64 duration has at most 23 characters, within the print and the read-back buffer |
| Timecode.ShortFields | core/src/core.cpp:66-69 | the short form is hours, minutes and seconds of the same time |
| Pbf.ParsePbfLineExactly | core/src/core.cpp:126-154 | a line is accepted as an entry if and only if it is four digit fields that fit int64 and mean that entry: the last field is a positive length, so the range ends at start plus length, and index and type are truncated to int32 |
| Pbf.PbfLineRoundTrip | core/src/core.cpp:121-154 | a written entry reads back unchanged if and only if its index and type are not negative |
| PbfLayout.ToInt32Exactly | core/src/core.cpp:152-153 | the cast to int keeps the number modulo 2^32 |
| Pbf.ParsePlaySkipSection | core/src/core.cpp:168-195 | the newline-scanning loop computes the line-by-line meaning of a section |
| Pbf.BuildPlaySkipSection | core/src/core.cpp:156-166 | the build loop writes header, one numbered line per range, and terminator, each with CRLF |
| PbfLayout.WrittenLines | core/src/core.cpp:156-166 | the written text is the header, then line i with number i, the type, start and length of range i, then the number of ranges and a bare =, each ended by CR LF |
| PbfLayout.WrittenEntries | core/src/core.cpp:156-166 | each written entry line is parsed as its own number, the type and its range |
| Pbf.SectionRoundTrip | core/src/core.cpp:156-195 | every list of ranges, also the empty one, survives being written and read back, in order |
| Pbf.SectionConcat | core/src/core.cpp:168-195 | parsing is a homomorphism on line boundaries: it succeeds iff both parts do, with the lists concatenated |
| Pbf.SilentLines | core/include/core/core.hpp:95-98 | blank, header and terminator lines can be added or dropped on any line boundary |
| Pbf.SectionOkExactly | core/src/core.cpp:180-186 | a section is accepted exactly when each line is silent or a well-formed entry |
| PbfLayout.LineExactly | core/src/core.cpp:177-189 | a line is accepted with some ranges if and only if it is blank, the header or text before a lone = and gives none, or stands for an entry and gives its range; one CR at its end does not matter |
| PbfLayout.SectionGives | core/src/core.cpp:168-195 | a section gives what its lines give, in order, whether they end in LF or CR LF |
| HumanInput.ParseHumanTimecode | core/src/core.cpp:197-267 | the trimming, fraction and field loops compute the meaning of the separated parts |
| HumanInput.CollectFields | core/src/core.cpp:223-237 | the loop collects the ':'-separated fields and fails exactly beyond three |
| HumanInput.HumanOfParts | core/include/core/core.hpp:103-110 | digit fields, an optional digit fraction and any padding mean what the parts mean |
| HumanInput.HumanAcceptsOnly | core/include/core/core.hpp:103-110 | every accepted text is padding around one to three digit fields and an optional fraction of at most three digits |
| HumanInput.HumanExtendsStrict | core/src/core.cpp:197-267 | the lenient parser returns the strict parser's value on every text the strict one accepts, padded or not |
| HumanInput.HumanOfShort | core/src/core.cpp:66-69 | the on-screen form reads back as the time without its milliseconds |
| HumanInput.HumanExactly | core/src/core.cpp:197-267 | a text of digit fields means a time if and only if that is 3600 h + 60 m + s seconds, minutes and seconds at most 59, plus the decimal fraction |
| HumanInput.MinutesNeedNoHours | core/src/core.cpp:245-266 | MM:SS means what 0:MM:SS means; minutes or seconds above 59 are refused |
| HumanInput.PlainMinutesAgree | core/src/core.cpp:245-266 | MM:SS means what the plain number 60 m + s of seconds means |
| HumanInput.PlainSecondsAgree | core/src/core.cpp:245-266 | HH:MM:SS means what the plain number 3600 h + 60 m + s of seconds means |
| HumanInput.TrailingZeroIrrelevant | core/src/core.cpp:207-217 | the fraction is a decimal fraction of a second |
| HumanInput.ParseHumanRange | core/src/core.cpp:269-297 | the separator loop computes the range at the first separator, in order, that occurs at all |
| HumanInput.HumanRangeOfParts | core/src/core.cpp:269-297 | two operands around any separator mean exactly the range of their meanings, errors included |
| HumanInput.HumanRangeAcceptsOnly | core/src/core.cpp:269-297 | every accepted text is two accepted times around ->, ~ or -, and means their range, which is forward |
| HumanInput.HumanRangeRoundTrip | core/include/core/core.hpp:112-118 | two formatted times, any separator and any white space read back as exactly that range |
| Hotkeys.ParseHotkeySpec | core/src/config.cpp:87-151 | the token and modifier loops compute the meaning of the trimmed tokens |
| Hotkeys.HotkeyMeaning | core/include/core/config.hpp:42-48 | every text means exactly the set of distinct modifiers its pieces name, and its key; anything else is refused |
| Hotkeys.NamedExactly | core/src/config.cpp:111-124 | a token names a modifier if and only if it is alt; ctrl or control; shift; win or meta, in any case |
| Hotkeys.KeyExactly | core/src/config.cpp:131-143 | a token names a key if and only if it is that letter in either case, that digit or that bracket |
| Hotkeys.HotkeyExactly | core/include/core/config.hpp:42-48 | a text is a hotkey if and only if its pieces spell distinct modifiers and then that key, and it has the bits 1, 2, 4, 8 of exactly these modifiers |
| Hotkeys.SpellingIrrelevant | core/src/config.cpp:111-124 | another spelling of the same modifier, in any case and padding, is the same hotkey |
| Hotkeys.OrderIrrelevant | core/include/core/config.hpp:42-48 | specs that name the same set of modifiers, each once, and the same key are the same hotkey, whatever order, alias or padding |
| Hotkeys.CaseIrrelevant | core/src/config.cpp:111-144 | tokens that differ only in letter case name the same modifier and key |
| Hotkeys.RepeatedModifierRefused | core/src/config.cpp:125-127 | naming a modifier twice, also under two of its spellings, is refused |
| Hotkeys.FormatHotkeySpec | core/src/config.cpp:153-184 | the appends write the modifiers in fixed order and the key, joined by '+' |
| Hotkeys.PrintedExactly | core/include/core/config.hpp:51-54 | modifiers are printed in the order Ctrl, Alt, Shift, Win, each followed by +, and then the key |
| Hotkeys.UnnamedKeyText | core/src/config.cpp:178-182 | a key without a name is printed as 0x and its hex digits, at least two, cut to seven characters |
| Hotkeys.FormatParseRoundTrip | core/include/core/config.hpp:51-54 | printing and parsing gives a spec back if and only if it has four modifier bits only and a nameable key |
| Hotkeys.ParsedIsWellFormed | core/src/config.cpp:87-184 | everything the parser accepts is well formed, and parse after print after parse is parse |
| Config.ParseConfig | core/src/config.cpp:190-307 | the index-scanning loop is a fold over the file's lines |
| Config.ApplyLine | core/src/config.cpp:199-298 | the loop body has exactly the effect of the line on section, config and warning count |
| Config.LastAssignmentWins | core/src/config.cpp:231-296 | a field ends as the last valid assignment to it in its section |
| Config.UnassignedFieldIsDefault | core/include/core/config.hpp:56-66 | a field that no valid line assigns keeps its default |
| Config.WarningsCountFaultyLines | core/include/core/config.hpp:83-88 | the number of warnings is the number of faulty lines |
| ConfigMeaning.FieldExactly | core/src/config.cpp:194-307 | a field has a value if and only if the last line that gives it one - key=value, the key and value in the spellings of its section - gives that, or none does and it is the default |
| ConfigMeaning.WarningsExactly | core/include/core/config.hpp:83-88 | the warnings are as many as the faulty lines: unknown or malformed headers, lines without =, keys before any section, and in a known section whatever gives no field a value |
| ConfigMeaning.FaultyExactly | core/src/config.cpp:205-298 | which line earns a warning, by its text and section alone |
| ConfigMeaning.AssignExactly | core/src/config.cpp:231-296 | which line sets which field to which value, by its text and section alone |
| ConfigMeaning.EnterExactly | core/src/config.cpp:207-218 | which line opens which section |
| Config.UnknownSectionIsSilent | core/src/config.cpp:229-230 | while an unknown section is in force, its key lines can be added to a file or dropped: neither a field nor the warning count changes |
| Config.MalformedKeepsValue | core/src/config.cpp:233-245 | a malformed value adds one warning and keeps the field; the field is then at its default if and only if the last valid line before it, if any, assigned that default |
| Config.ParsedConfigWellFormed | core/include/core/config.hpp:93-100 | whatever the text, the parsed config is well formed |
| ConfigFile.SerializeConfig | core/src/config.cpp:309-340 | the appends write the commented file, line by line |
| ConfigFile.WrittenFile | core/src/config.cpp:309-340 | the written file line by line: sections, keys and values in their order |
| ConfigFile.DefaultsAre | core/include/core/config.hpp:68-77 | Alt+A, Alt+[ and Alt+], foreground only, skipping and messages on, 1800 ms, Info |
| ConfigFile.ConfigRoundTrip | core/include/core/config.hpp:102-107 | writing and reading back gives the config with no warning if and only if it is well formed |
| ConfigFile.MalformedIsNotDefault | core/include/core/config.hpp:95-99 | a file whose malformed line does not fall back to the default |
| PeBytes.ReadAsciiZ | tools/install/PotPlayerProxy.psm1:92-96 | the loop reads up to the first NUL or the end of the file |
| PeExports.GetPEExportInfo | tools/install/PotPlayerProxy.psm1:16-132 | the section, address and name loops compute the export table, or fail where the reader throws |
| PeExports.ConvertRvaToOffset | tools/install/PotPlayerProxy.psm1:82-90 | the loop finds the first section that covers the address |
| PeFiles.OffsetExactly | tools/install/PotPlayerProxy.psm1:82-90 | an address is at a file offset if and only if it is as far into the file data of the first section that spans it as into that section |
| PeFiles.StringExactly | tools/install/PotPlayerProxy.psm1:92-96 | a string is read if and only if its bytes up to the first NUL or the end spell it, bytes beyond ASCII as ? |
| PeFiles.ReadsExactly | tools/install/PotPlayerProxy.psm1:34-131 | a file is read as a table of exports if and only if its headers, sections, directory, tables and strings are those of a PE32+ file with exactly that table; otherwise the reader throws |
| PeMoved.MovedFileReadsBack | tools/install/PotPlayerProxy.psm1:34-131 | any names, ordinals and function table, in a section at any address and any file pointer behind another section, are read back as exactly those exports |
| PeExports.TestForwarderSetMatches | tools/install/PotPlayerProxy.psm1:134-168 | it matches iff every proxy export forwards to stem.name with that name among the original exports, and lists exactly the others |
| PeExports.MatchesExactly | tools/install/PotPlayerProxy.psm1:147-160 | the check means that each target is some stem, a dot and a dot-free name that the original exports in whatever case |
| PeFixture.NewTestPeDll | tools/install/Tests.ps1:33-161 | appending drafts and back-patching them in place produces the final image |
| PeFixture.SetU32 | tools/install/Tests.ps1:59-62 | four byte stores overwrite one little-endian word |
| PeRoundTrip.PrintedFileReadsBack | tools/install/PotPlayerProxy.psm1:34-131 | reading a printed file gives exactly its exports and forwarder targets if and only if none is real or the directory ends by 0x1000; a lone forwarder only if what stands at 0x1000 is its own target |
| PeRoundTrip.EntryRead | tools/install/PotPlayerProxy.psm1:114-129 | each name, ordinal and address is read back where the printer put it |
| PeRoundTrip.LoneReadBack | tools/install/Tests.ps1:39-40 | a lone forwarder is never patched in, because the unrolled name is looked up by its first character |
| PeRoundTrip.PrintedHeader | tools/install/Tests.ps1:73-106 | the header fields that the parser does not read |
| Installer.InstallDirectory.GetState | tools/install/PotPlayerProxy.psm1:249-319 | the state classification, branch by branch |
| Installer.InstallDirectory.Install | tools/install/PotPlayerProxy.psm1:321-386 | checks first, then exactly the planned file operations, with the rollback of the catch block |
| Installer.InstallDirectory.Uninstall | tools/install/PotPlayerProxy.psm1:388-440 | the three accepted states, and the swap back with its rollback |
| Installer.InstallDirectory.Repair | tools/install/PotPlayerProxy.psm1:442-487 | drops the stale backup after the export check, then installs |
| InstallerRuns.NewestSurvives | tools/install/README.md:48-51 | in every run, with anything failing or killed anywhere, the newest real DLL stays byte for byte under the live or the backup name |
| InstallerRuns.InstallSafe | tools/install/PotPlayerProxy.psm1:363-383 | Install passes only through directories that keep the newest real DLL |
| InstallerRuns.UninstallSafe | tools/install/PotPlayerProxy.psm1:416-437 | so does Uninstall |
| InstallerRuns.RepairSafe | tools/install/PotPlayerProxy.psm1:474-486 | so does Repair |
| InstallerRuns.SafeAtEveryStep | tools/install/PotPlayerProxy.psm1:373-383 | a run that keeps the invariant keeps it after every single file operation |
| InstallerRuns.InstalledResolves | tools/install/README.md:57-62 | in every reachable Installed state each live export forwards to a name the backup exports, and the backup is the newest real DLL |
| InstallerChecks.ReachableForwards | tools/install/README.md:57-62 | in every reachable state with a forwarding live DLL and a backup, each live target is a stem, a dot and a name that the backup exports, and the backup is the newest real DLL |
| InstallerOutcomes.InstallOutcome | tools/install/PotPlayerProxy.psm1:321-386 | when Install returns normally, what it leaves then, and that a throw leaves both DLLs alone unless placing the proxy and the rollback both fail |
| InstallerOutcomes.InstallAllOrNothing | tools/install/PotPlayerProxy.psm1:373-383 | under any single failing file operation Install swaps both DLLs or neither |
| InstallerOutcomes.UninstallOutcome | tools/install/PotPlayerProxy.psm1:405-439 | a normal return leaves the newest real DLL live and no backup; a throw leaves both alone unless both renames back fail |
| InstallerOutcomes.UninstallAllOrNothing | tools/install/PotPlayerProxy.psm1:428-437 | under any single failing file operation Uninstall is all or nothing |
| InstallerOutcomes.RepairOutcome | tools/install/PotPlayerProxy.psm1:463-486 | Repair ends Installed around the updated DLL, and a throw leaves both DLLs alone exactly while the stale backup is not dropped |
| InstallerOutcomes.InstallThenUninstall | tools/install/PotPlayerProxy.psm1:321-440 | Install followed by Uninstall restores both DLLs |
| InstallerChecks.StatesExactly | tools/install/PotPlayerProxy.psm1:249-319 | the five states by which files exist and whether the live one parses and forwards |
| InstallerChecks.InstallReturnsExactly | tools/install/PotPlayerProxy.psm1:321-386 | Install returns normally if and only if every single check holds and no file operation fails; if a check fails it touches nothing |
| InstallerChecks.DanglingRefused | tools/install/PotPlayerProxy.psm1:356-359 | a proxy with one export that does not forward into the live DLL is refused by Install and Repair, which touch nothing |
| InstallerChecks.RepairDropsExactly | tools/install/PotPlayerProxy.psm1:450-486 | Repair drops the stale backup if and only if every single check holds and the removal works, and then runs Install |
| InstallerChecks.UninstallReturnsExactly | tools/install/PotPlayerProxy.psm1:395-439 | when Uninstall returns normally, and when it touches nothing |
| InstallerChecks.InstalledForwards | tools/install/README.md:57-62 | after a normal return of Install or Repair each live export forwards to a name that the backup exports |
| InstallerChecks.InstallLeaves | tools/install/PotPlayerProxy.psm1:363-385 | the whole directory after a normal return of Install: no temporary copy is left |
| InstallerChecks.UninstallLeaves | tools/install/PotPlayerProxy.psm1:416-439 | the whole directory after a normal return of Uninstall: the proxy set aside is gone unless its removal failed |
| InstallerOutcomes.Reruns | tools/install/PotPlayerProxy.psm1:343-345 | any sequence of Install and Repair on an installed directory, or of Uninstall and Repair on a pristine one, changes nothing, whatever fails |
| InstallerOutcomes.Idempotent | tools/install/README.md:63-65 | after a normal return of Install or Repair any more of them change nothing; the same holds for Uninstall |
| InstallerStranding.LiveLostExactly | tools/install/README.md:48-51 | an operation leaves no live DLL if and only if it is killed between its two renames, or the second rename and its rollback both fail; the newest real DLL is then the backup |
| InstallerStranding.InstallCut | tools/install/PotPlayerProxy.psm1:373-383 | the same condition for Install, cut after any number of file operations |
| InstallerStranding.UninstallCut | tools/install/PotPlayerProxy.psm1:428-437 | the same condition for Uninstall |
| InstallerStranding.RepairCut | tools/install/PotPlayerProxy.psm1:484-486 | the same condition for Repair, through the Install it ends with |
| InstallerStranding.RunLosesLiveExactly | tools/install/README.md:48-51 | a whole run ends without a live DLL if and only if some operation stranded it and no update came after that |
| InstallerStranding.StrandedStays | tools/install/PotPlayerProxy.psm1:278-283 | without a live DLL every operation refuses and nothing changes until an update |
| InstallerFixtures.PrintedProxyAccepted | tools/install/Tests.ps1:205-220 | on a printed real DLL, Install accepts every printed proxy that forwards to its exports |
| SkipSetup.Session.ClickAndWaitClosed | plugin/src/skip_setup.cpp:230-243 | post, then wait only if the post worked |
| SkipSetup.Session.EnsureSkipEnabled | plugin/src/skip_setup.cpp:616-636 | read the checkbox, click it if it is off, read it again |
| SkipSetup.Session.AddFileSpecificSkipRange | plugin/src/skip_setup.cpp:433-504 | the conversation that adds one range |
| SkipSetup.Session.CommitRangeLive | plugin/src/skip_marking.cpp:21-36 | open, enable, add, then OK or Cancel |
| SkipSetup.Session.DeleteSkipRange | plugin/src/skip_setup.cpp:549-585 | select exactly one row, delete it, wait for the count to drop |
| SkipSetup.Session.ClearAllSkipRanges | plugin/src/skip_setup.cpp:605-614 | the clear-all loop over deleting row 0 |
| SkipSetup.RunClearAllLoop | plugin/src/skip_setup.cpp:587-603 | at most as many calls as rows; true iff the list was empty or some call, before any failure, reported 0 |
| SkipSetup.ClearAllIsLoop | plugin/src/skip_setup.cpp:605-614 | clearing everything is that loop run with the deletion of row 0 as its callback: same result, and the traffic of exactly its calls |
| CommitSafety.SetupOkOnlyAfterVerifiedAdd | plugin/src/skip_marking.cpp:21-36 | whatever the UI answers, OK is requested only after the full verified conversation: read-back parsed to the requested start, end and type, one interval OK, count up by one, checkbox read as checked if wanted |
| CommitSafety.ExactlyOneClose | plugin/src/skip_marking.cpp:29-34 | a Skip Setup that opened gets exactly one of OK and Cancel |
| CommitSafety.AddButtons | plugin/src/skip_setup.cpp:449-495 | an interval dialog that appeared gets exactly one of OK and Cancel, OK only after a matching read-back |
| CommitSafety.AddOkIsVerified | plugin/include/plugin/skip_setup.hpp:176-193 | an add that reports success had the complete verified conversation |
| CommitSafety.CommitOkMeansPosted | plugin/src/skip_setup.cpp:369-371 | success means OK was posted and the dialog closed |
| Conversations.AddConversation | plugin/src/skip_setup.cpp:433-504 | everything an add asks, in order, and where it stops: each step only if the one before worked, Cancel for a dialog that appeared but failed |
| Conversations.CommitConversation | plugin/src/skip_marking.cpp:21-36 | everything a commit asks: open, enable if asked to, add, then OK exactly if all of that worked, otherwise Cancel |
| Conversations.CommitGenuine | plugin/src/skip_marking.cpp:21-36 | every recorded answer is the one the UI gave to that request after exactly what went before |
| Conversations.PressConversation | plugin/src/skip_setup.cpp:230-243 | the wait follows exactly if the post worked, and success means that both did |
| Conversations.EnableConversation | plugin/src/skip_setup.cpp:616-636 | the checkbox is read, clicked if it is off, and read again; the last reading decides |
| Conversations.DeleteConversation | plugin/src/skip_setup.cpp:549-585 | everything a deletion asks: the index is checked against the count, then that row alone is selected, deleted and awaited to be gone |
| CommitSafety.DeleteOnlySelected | plugin/include/plugin/skip_setup.hpp:202-211 | Delete is clicked at most once, for an index inside the list, right after selecting it |
| CommitSafety.ClearAllBounded | plugin/include/plugin/skip_setup.hpp:213-222 | whatever the UI answers, clearing makes at most as many deletions as there were rows |
| HonestPlayer.EchoVerifies | plugin/src/skip_setup.cpp:403-431 | a dialog that echoes what was typed always passes the read-back check |
| HonestPlayer.VerifyExactly | plugin/include/plugin/skip_setup.hpp:161-174 | the read-back check passes if and only if both texts are the printed times up to leading zeros of the hours, and the type is file-specific |
| SkipSetup.WindowTextExactly | plugin/src/skip_setup.cpp:254-267 | up to 63 one-byte characters of a field arrive unchanged, and the rest is lost |
| HonestPlayer.CommitHonest | plugin/src/skip_marking.cpp:15-36 | against an honest player a commit appends exactly its range; it reports failure exactly when this close of the dialog is slow |
| HonestPlayer.DeleteHonest | plugin/include/plugin/skip_setup.hpp:202-211 | deleting removes exactly the chosen row |
| HonestPlayer.ClearAllHonest | plugin/include/plugin/skip_setup.hpp:224-227 | clearing an honest list of n rows makes exactly n deletions and leaves it empty |
| SkipMarking.SkipMarkingStateMachine.OnAltOpenBracket | plugin/src/skip_marking.cpp:52-68 | guards in order, then the pending start is overwritten |
| SkipMarking.SkipMarkingStateMachine.OnAltCloseBracket | plugin/src/skip_marking.cpp:70-86 | guards in order, then the pending end is overwritten |
| SkipMarking.SkipMarkingStateMachine.OnAltA | plugin/src/skip_marking.cpp:88-120 | guards in order, then one commit attempt; success clears the mark, failure keeps it |
| SkipMarking.OsdNeverThrows | plugin/src/osd.cpp:13-34 | no on-screen line a handler composes throws |
| SkipMarking.CommittedAreLastMarks | plugin/include/plugin/skip_marking.hpp:62-76 | each committed range is exactly the last accepted start and end positions since the previous successful commit |
| SkipMarking.CommitsNeverExceedMarks | plugin/src/skip_marking.cpp:111-115 | there are never more successful commits than accepted start or accepted end presses |
| SkipMarking.OneOsdLinePerPress | plugin/src/skip_marking.cpp:52-120 | every press shows exactly one line |
| SkipMarking.LinesShown | plugin/src/skip_marking.cpp:52-120 | which line each press of a run shows: the refusal, the mark, or for Alt+A what becomes of the two last marks |
| SkipMarking.AnnouncedAreCommitted | plugin/src/skip_marking.cpp:111-118 | a range is announced as saved exactly when it was committed |
| SkipMarking.OsdSaysTimes | plugin/src/osd.cpp:13-34 | a line shows the position, or the start and then the end of the range, as times without milliseconds |
| SkipMarking.RefusalsLeaveNoTrace | plugin/include/plugin/skip_marking.hpp:72-76 | erasing all refused presses and failed commits changes neither the committed ranges nor the pending mark |
| HotkeyPump.DrainMessageQueue | plugin/src/hotkey_pump.cpp:112-125 | the drain loop empties the queue, whatever arrives meanwhile, and hands the machine exactly the presses taken, in order |
| HotkeyPump.SplitWakeUps | plugin/src/hotkey_pump.cpp:104-125 | splitting the queue across wake-ups does not change the outcome |
| HotkeyPump.ForegroundOnly | plugin/src/hotkey_pump.cpp:112-120 | unless the hotkeys are global, exactly those pressed with the player in front reach the machine |
| HotkeyPump.GlobalMessages | plugin/include/plugin/hotkeys.hpp:51-55 | ids 1, 2 and 3 stand for the three keys, and nothing else for any |
| LiveMarking.PlayerListIsCommitted | plugin/src/skip_marking.cpp:40-48 | over any run with an honest player, the list is its initial rows and all attempted ranges in order: one row too many per slow close, and exactly the committed ranges if and only if no close was slow |
| LiveMarking.RetryDuplicates | plugin/src/skip_setup.cpp:238-241 | retrying a commit that failed because the dialog was slow to close saves the same range twice |

## Left out

- Int64 overflow of digit fields so long that hours, minutes and seconds (or start plus length) leave int64: the original's arithmetic is undefined there; the model's is exact.
- Negative `.pbf` index or type are printed and shown not to read back; a list of more than 2^31 - 1 ranges is excluded, because the original counts in an int.
- PeFixture.NewTestPeDll: a single export with an empty name, for which the script looks up a missing character; `PeFixture.Printable` excludes it, together with files too large for their 32-bit and 16-bit fields.
- PeRoundTrip.PrintedFileReadsBack: names that are not ASCII, that contain NUL or that differ only in case, and empty forwarder targets (`PeRoundTrip.Describable`); a hashtable or the file format cannot hold them.
- Export names outside ASCII: the reader turns such bytes into '?' (`PeFiles.StringExactly`); the case-insensitive hashtable is modelled by ASCII lower-casing of its keys.
- The order in which PowerShell sorts export names: the printer takes the exports in any order.
- ConfigFile.SerializeConfig: the wording of the eleven comment lines is a parameter; all that matters of them is that they start with ';' and hold no newline.
- Warning and error wording.
- Win32 plumbing: hooks, window enumeration, parking off-screen, polling and timeouts appear only as the UI's answers; so does resolving the controls by id.
- The write-probe file of `Test-DirectoryWritable`, elevation and the running-process check: answers of `Installer.Preflight`.
- `Get-ProxyStatusReport`, version and self-check files, log and status I/O, the proxy's `DllMain`, OSD painting: plumbing or foreign calls.
- `core::add`, severity tags, window selection and the fixed control-id tables: easy members.
- The `.pbf` twin and the dialog automation in the PowerShell integration tests repeat the C++ codecs.
- A PotPlayer update that itself fails half way, and a second installer running at the same time.
