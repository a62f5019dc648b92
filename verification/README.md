# Verified models of the platform's self-contained algorithms

This project models the algorithms of the home-lab platform whose behaviour can be stated without a network, a disk or
a browser, and proves what they promise for every input, every run and every interleaving. `dafny verify
dfyconfig.toml` checks all of it.

| module | what it models |
|---|---|
| `Text`, `Values` | shared string vocabulary (trim, split, join, numerals, lexicographic order) and parsed YAML/JSON values |
| `Versions`, `SemVer`, `UpgradePath` | version comparison, release channels, agreement with Semantic Versioning 2.0.0, the upgrade-skip guard and the walk it induces |
| `EnvFile`, `EnvEdits`, `EnvLines`, `EnvRoundTrip`, `EnvConfigurations`, `EnvIdempotence` | the `.env` renderer and parser: frame, idempotence, round trip |
| `SecretEncoding` | base64 and hexadecimal secrets against decoders written from RFC 4648 |
| `BindSources`, `Compose`, `ComposeWritten`, `ComposeAcceptance`, `ComposeReports` | the Compose validator: path containment, the accumulating validator, the document as it is written, which documents are accepted, which issues are reported |
| `FileLogger` | the buffered file logger as a machine of steps between awaits |
| `LineStreams` | the command runner's line splitter and the Docker events filter |
| `SseStream`, `LogStream` | the server-sent-events lifecycle and the container-log handshake built on it |
| `Contracts`, `Participations`, `Coverage` | capability grants, the `backup` block's normal form, coverage verdicts |
| `Subdomains`, `Redaction` | slugs and DNS labels, withheld secret rows |

Loops of the source are methods proved equal to a specification function. Objects and closures that share variables are
classes with an invariant over a ghost history (the entries accepted so far, the text received so far); a driver method
replays any history on a fresh object and ends in the state of a value-level machine, about which the run theorems are.

## Where the code and its description part

The code is modelled as it is. These are the places where a promise of the documentation, or the obvious reading of it,
does not hold for every input. Each has an exact condition and an input that fails it.

- **`.env` round trip.** The renderer replaces the first `^KEY=` line, lines ending at any of the four line terminators
  of a multi-line regular expression; the parser splits at `\n` only and keeps the last assignment. An edit takes effect
  when no line matches, or the first match stands alone on its `\n`-line and no later line assigns the key. A set of keys
  is read back with all one-line trimmed values exactly when every edit takes effect (`ConfigRoundTripExactly`; it fails
  on `K=a`, `K=b` by `SecondAssignmentWins`). A value that carries another terminator and then `NEXT=` can catch the edit
  of `NEXT`, which is then not read (`CaughtEditIsNotRead`): settings that each change something are read back exactly
  when no value catches a later edit (`UndivertedExactly`, `DivertedEditIsLost`). A single value is read back exactly when
  it is trimmed and has no newline (`ValueReadsBackExactly`).
- **`.env` idempotence.** On every base a second render with the same settings changes nothing exactly when all values
  stay on one line (`IdempotentExactly`, `TwoLineValueGrows`).
- **Waypoints.** The empty string ranks as release 0 but is not a usable suggestion. When it is the first-listed
  waypoint of its rank and that rank is required, the guard answers `ok` at it
  (`WalkVisitsEveryRequiredWaypoint`, `EmptyWaypointLetsASkipThrough`). A floor newer than the target sends the walk past
  the target (`WalkStaysBelowTarget`, `FloorSendsPastTheTarget`).
- **Non-numeric versions.** The comment promises a string comparison for non-numeric release segments; the code reads
  them as 0, so `main` and `edge` rank equal (`MainAndEdgeTie`) and a string comparison of two such words would agree
  only if they are the same word (`WordsTie`). When two versions rank equal at all is `RankEqualExactly`.
- **Inner hyphens.** What follows a second hyphen is dropped, so `1.0.0-a-b` and `1.0.0-a-c` rank equal
  (`InnerHyphensTie`). A version agrees with section 11 of Semantic Versioning 2.0.0 against every version without inner
  hyphens exactly when its own first one is absent or opens an identifier other than the first
  (`HyphenAgreementExactly`).
- **File logger.** Two things stop it for good without losing or reordering an entry. A flush that meets an oversized
  file calls `rotate`, which waits for a flush chained behind the one that is running
  (`OversizedFileStopsTheLogger`). An entry that cannot be formatted, such as one with a bigint or a cycle in its
  metadata, is put back in front of every later batch (`UnformattableEntryStopsTheLogger`). Everything accepted can
  still reach the disk exactly when neither has happened (`DrainableExactly`).
- **SSE cleanup.** If the stream is lost while `onSubscribe` is still running, the cleanup it returns is stored and never
  called (`CleanupExactlyOnce`, `LostDuringSubscribe`, `HandleStoppedExactlyOnce`).
- **Slugs.** A valid DNS label with two adjacent hyphens is not a fixed point (`FixedExactly`, `DoubleHyphenIsNotFixed`).
- **Redacted rows.** Writing a redacted answer back is the identity exactly when no stored row carries the marker and
  every secret row holds the last stored value of its key (`WriteBackExactly`, `RepeatedKeyIsOverwritten`). The redacted
  answer to a write depends on no secret exactly when no marked row that is not declared secret names a stored secret
  (`WriteShowsNoSecretExactly`, `DroppedSecrecyShowsTheSecret`).
- **Coverage.** As functions of arbitrary inputs the two verdicts treat an empty service name differently
  (`RestorableIsQuiesced`, `CountsAreOrdered`, `NamelessDatabaseDiffers`). The participations both callers pass are read from a backup block and
  never name one, so for them the orderings hold without exception (`ReadParticipationsCover`).
- **Contract references.** A row with an empty id prints a reference that does not resolve
  (`PrintedRefResolves`, `NamelessContractIsLost`).

## Model

| member | source | states |
|---|---|---|
| `Versions.CompareVersions` | packages/shared/src/index.ts:185-225 | the index loops with early return compute the order whose laws follow |
| `Versions.ComparePrereleaseTags` | packages/shared/src/index.ts:199-224 | the second loop decides equal cores identifier by identifier |
| `Versions.CompareReflexive` | packages/shared/src/index.ts:185-225 | every string compares equal to itself |
| `Versions.CompareAntisymmetric` | packages/shared/src/index.ts:185-225 | swapping the arguments negates the result, on all strings |
| `Versions.CompareTransitive` | packages/shared/src/index.ts:185-225 | the order is transitive, strictly so where one step is strict, across padded cores, releases, prereleases and mixed identifiers |
| `Versions.RanksBelowExactly` | packages/shared/src/index.ts:192-225 | on all strings: the first different number of the cores decides; on equal cores a prerelease ranks below the release and the first different identifier decides |
| `Text.LessExactly` | packages/shared/src/index.ts:221 | text is ordered by its first different character, or by being shorter |
| `Text.NumberOfFromTheLeft` | packages/shared/src/index.ts:217 | numerals weigh their digits by powers of ten, so leading zeros weigh nothing |
| `Versions.DecorationIsIgnored` | packages/shared/src/index.ts:186-191 | blank margins and a leading `v` or `cli-v` do not change what is read |
| `Versions.StripsOnce` | packages/shared/src/index.ts:187 | `cli-v` is taken from the front once, then `v` once, and nothing else |
| `Versions.ReadsCoreAndPrerelease` | packages/shared/src/index.ts:188-190 | the core reaches to the first hyphen of the cleaned text and the prerelease from there to the next one, for any text |
| `Versions.ParsesLeadingNumber` | packages/shared/src/index.ts:189 | a segment counts as the digits behind white space and a sign, whatever follows them |
| `Versions.TrailingZeroIsNeutral` | packages/shared/src/index.ts:194-198 | a core and the same core with `.0` added rank equal, with any prerelease: missing segments count as zero |
| `Versions.ParsePlain` | packages/shared/src/index.ts:186-191 | an undecorated version is cut at its first hyphen into core and prerelease |
| `Versions.NewerIsStrictOrder` | packages/shared/src/index.ts:228-230 | "newer" is a strict weak order: irreflexive, asymmetric, transitive, and compatible with equal rank |
| `Versions.RankEqualExactly` | packages/shared/src/index.ts:185-225 | two versions rank equal exactly when their cores are the same numbers up to trailing zeros and their prereleases are both absent or agree identifier by identifier, as numbers or as text |
| `Versions.NonNumericCoresTie` | packages/shared/src/index.ts:183-198 | cores in which no segment starts with a number always tie, whatever their text and length |
| `Versions.WordsTie` | packages/shared/src/index.ts:183-198 | two non-numeric words rank equal; the promised string comparison would agree exactly when they are the same word |
| `Versions.MainAndEdgeTie` | packages/shared/src/index.ts:183-198 | `main` and `edge` rank equal although one sorts before the other |
| `Versions.NewestEligibleVersion` | packages/shared/src/index.ts:284-295 | the loop returns an entry without a channel, on `stable` or on the requested channel, the last-listed of the newest ones; nothing exactly when every entry is on another channel |
| `Versions.NewestIsLastNewest` | packages/shared/src/index.ts:267-295 | the selected entry is on offer, no entry on offer is newer, every later one is strictly older |
| `Versions.EligibleExactly` | packages/shared/src/index.ts:267-291 | an entry is eligible exactly when it has no channel, `stable` or the requested one |
| `Versions.OtherChannelsDoNotMatter` | packages/shared/src/index.ts:289-294 | taking entries on other channels out of the catalog does not change the selection |
| `Versions.NewestOfConcat` | packages/shared/src/index.ts:284-295 | the selection over a concatenated catalog is determined by the selections over its parts |
| `Versions.NoChannelIsOlderThanStable` | packages/shared/src/index.ts:262-295 | on any channel the selection exists when stable has one and is never older than it |
| `SemVer.ParseOfFormat` | packages/shared/src/index.ts:186-191 | a written semantic version is read back as its three numbers and its prerelease text |
| `SemVer.CompareIsPrecedence` | packages/shared/src/index.ts:174-225 | on written semantic versions without build metadata or inner hyphens the result is negative exactly on the precedence of section 11 of Semantic Versioning 2.0.0, and zero exactly on equality |
| `SemVer.HyphenAgreementExactly` | packages/shared/src/index.ts:185-225 | a written version with or without inner hyphens agrees with section 11 against every version without them exactly when its first inner hyphen is absent or opens an identifier other than the first |
| `SemVer.InnerHyphensTie` | packages/shared/src/index.ts:188 | `1.0.0-a-b` and `1.0.0-a-c` rank equal although section 11 orders them |
| `SemVer.SecondHyphenIsIgnored` | packages/shared/src/index.ts:188 | text after a second hyphen never affects the rank |
| `UpgradePath.SortHead` | packages/shared/src/index.ts:711-713 | the head of the stable sort is the first-listed of the lowest waypoints |
| `UpgradePath.NextStop` | packages/shared/src/index.ts:709-713 | the next stop is a waypoint strictly between, and no waypoint strictly between is lower |
| `UpgradePath.RefusalMeans` | packages/shared/src/index.ts:688-725 | a refusal is about an upgrade between known versions; its code and suggestion are the floor when the floor applies, else a waypoint below the target |
| `UpgradePath.FloorDemandedExactly` | packages/shared/src/index.ts:693-706 | the floor is demanded exactly when there is metadata, both versions are known, the target is newer and the start is below a non-empty floor |
| `UpgradePath.WaypointDemandedExactly` | packages/shared/src/index.ts:693-722 | a waypoint is demanded exactly when, on such an upgrade not below the floor, it is the first-listed of the lowest waypoints strictly between, and not empty |
| `UpgradePath.SuggestionAdvances` | packages/shared/src/index.ts:688-725 | every suggestion is strictly newer and leaves strictly fewer stops ahead |
| `UpgradePath.WalkTerminatesClimbing` | packages/shared/src/index.ts:688-725 | following suggestions climbs strictly and reaches an `ok` verdict within one plus the number of waypoints |
| `UpgradePath.WalkStaysBelowTarget` | packages/shared/src/index.ts:688-725 | the walk passes the target exactly when an applicable floor is newer than the target |
| `UpgradePath.FloorSendsPastTheTarget` | packages/shared/src/index.ts:697-706 | a concrete floor above the target that the guard suggests |
| `UpgradePath.WaypointPhase` | packages/shared/src/index.ts:709-722 | once the floor is behind, the walk visits every required waypoint exactly when no empty waypoint silences the guard |
| `UpgradePath.WalkVisitsEveryRequiredWaypoint` | packages/shared/src/index.ts:688-725 | the same from any known start: every waypoint strictly between max(start, floor) and the target is visited, with that one exact exception |
| `UpgradePath.EmptyWaypointLetsASkipThrough` | packages/shared/src/index.ts:711-714 | a concrete metadata block where the exception lets a required waypoint be skipped |
| `EnvFile.ParseEnv` | packages/cli/src/install/render-env.ts:23-32 | the loop over lines computes the map in which later assignments overwrite earlier ones |
| `EnvFile.RenderEnv` | packages/cli/src/install/render-env.ts:38-56 | the loop over the settings and the final append compute the edit-then-append specification |
| `EnvFile.UnescapeOfEscape` | packages/cli/src/install/render-env.ts:15-20 | undoing the dollar escape gives back every string |
| `EnvFile.UnescapeWithoutPair` | packages/cli/src/install/render-env.ts:18-20 | text without two adjacent dollars is not changed by unescaping |
| `EnvFile.UnescapeAtPair` | packages/cli/src/install/render-env.ts:18-20 | the first pair of dollars becomes one, and the rest is unescaped from there |
| `EnvFile.NothingWithoutEquals` | packages/cli/src/install/render-env.ts:27 | a line without an equals sign assigns nothing |
| `EnvFile.ReadsLastAssignment` | packages/cli/src/install/render-env.ts:25-30 | a key has a value exactly when a line assigns it so and no later line assigns the key |
| `EnvFile.ReplaceFirstIsRegexReplace` | packages/cli/src/install/render-env.ts:42-46 | editing the first matching segment is replacing the leftmost match of the anchored multi-line expression, and no match exists exactly when no segment matches |
| `EnvEdits.EditFrame` | packages/cli/src/install/render-env.ts:41-50 | after all edits every line but the first of each key is verbatim, terminators are unchanged, and exactly the keys without a line are still to append |
| `EnvEdits.RenderFrame` | packages/cli/src/install/render-env.ts:34-56 | the whole result: kept and edited lines in order, then the new lines, no terminator lost |
| `EnvEdits.SettledAfterRender` | packages/cli/src/install/render-env.ts:38-56 | after a render the first line of every key is the one just written, duplicates notwithstanding |
| `EnvEdits.RenderIsIdempotent` | packages/cli/src/install/render-env.ts:38-56 | rendering the same settings twice equals rendering them once, on every base |
| `EnvIdempotence.IdempotentExactly` | packages/cli/src/install/render-env.ts:38-56 | for any settings and every single base, rendering twice equals rendering once exactly when all values stay on one line |
| `EnvIdempotence.RenderMatchesAll` | packages/cli/src/install/render-env.ts:41-55 | after a render every key of the configuration matches, whatever its value looks like |
| `EnvIdempotence.TwoLineValueGrows` | packages/cli/src/install/render-env.ts:38-56 | a value of two lines changes the text again on every base |
| `EnvLines.ParseEditedLine` | packages/cli/src/install/render-env.ts:26-29 | the written line parses to its key and value, within any blank margins; the value's own margins are lost |
| `EnvLines.ParseLineAt` | packages/cli/src/install/render-env.ts:26-29 | any line with an equals sign is read at its first one, unless a comment sign opens it |
| `EnvLines.ReplaceOnLine` | packages/cli/src/install/render-env.ts:25-46 | the match the renderer replaces lies on the first `\n`-line that has one, and no other line changes |
| `EnvLines.EditKeepsOthersEffective` | packages/cli/src/install/render-env.ts:41-49 | an effective edit keeps the first match of every other key it leaves alone where it was, and its effect |
| `EnvRoundTrip.ParseOfRender` | packages/cli/src/install/render-env.ts:15-56 | parsing a render yields the base's map overridden by the settings without margins, whenever every edit takes effect and no value catches a later edit |
| `EnvRoundTrip.RenderReadsBackExactly` | packages/cli/src/install/render-env.ts:15-56 | where every edit takes effect and no value catches a later edit, a configuration is read back unchanged exactly when all its values are trimmed and without newline |
| `EnvRoundTrip.OneLineValuesAreUndiverted` | packages/cli/src/install/render-env.ts:41-49 | one-line values never catch a later edit |
| `EnvRoundTrip.ValueReadsBackExactly` | packages/cli/src/install/render-env.ts:15-56 | where the edit takes effect, a value of any shape is read back exactly when it is trimmed and has no newline |
| `EnvRoundTrip.RoundTripExactly` | packages/cli/src/install/render-env.ts:15-56 | a single key is read back with all trimmed newline-free values exactly when its edit takes effect on the base |
| `EnvConfigurations.ConfigRoundTripExactly` | packages/cli/src/install/render-env.ts:15-56 | a set of keys is read back from a base with all one-line trimmed values exactly when the edit of every one of them takes effect on that base |
| `EnvConfigurations.SameEffectAfterEdits` | packages/cli/src/install/render-env.ts:41-49 | one-line edits of any keys change for no key whether its edit takes effect |
| `EnvConfigurations.KeptStep` | packages/cli/src/install/render-env.ts:41-49 | through every edit each `\n`-line stays the base's own or opens with the key of a setting that matches first on it |
| `EnvConfigurations.CaughtEditIsNotRead` | packages/cli/src/install/render-env.ts:25-56 | in any configuration whose edits take effect alone, a setting whose edit is caught by an earlier value reads as it did in the base |
| `EnvConfigurations.UndivertedExactly` | packages/cli/src/install/render-env.ts:15-56 | readable values that each change something are read back exactly when no value catches a later edit |
| `EnvRoundTrip.OneAssignmentTakesEffect` | packages/cli/src/install/render-env.ts:23-46 | on a base with `\n` line ends, at most one assigning line of the key is enough for that |
| `EnvRoundTrip.SecondAssignmentWins` | packages/cli/src/install/render-env.ts:29-46 | on a base that assigns a key twice no other value than the second one is read back |
| `EnvRoundTrip.DivertedEditIsLost` | packages/cli/src/install/render-env.ts:41-49 | two readable settings of which the first catches the edit of the second, which the parser then does not see |
| `SecretEncoding.BytesToBase64` | packages/shared/src/param-validate.ts:343-355 | the three-byte loop computes the group-wise encoding |
| `SecretEncoding.StandardIsBase64` | packages/shared/src/param-validate.ts:341-355 | the encoder emits the four sextets of each 24-bit quantum of section 4 of RFC 4648, in order and under its alphabet |
| `SecretEncoding.ShiftsPickSextets` | packages/shared/src/param-validate.ts:349-352 | the shifts and masks on bytes are the sextets of the concatenated quantum |
| `SecretEncoding.UrlPaddedIsUrlAlphabet` | packages/shared/src/param-validate.ts:364-366 | replacing two characters afterwards is encoding with the section 5 alphabet |
| `SecretEncoding.DecodeExactly` | packages/shared/src/param-validate.ts:343-366 | the RFC 4648 decoder accepts exactly the encoder's outputs, each as the bytes it came from, in both alphabets |
| `SecretEncoding.PaddingShape` | packages/shared/src/param-validate.ts:351-352 | the length is 4 * ceil(n/3) and the last (3 - n mod 3) mod 3 characters, and no others, are `=` |
| `SecretEncoding.UnpaddedForm` | packages/shared/src/param-validate.ts:357-359 | stripping the padding loses nothing: its length tells how much to restore |
| `SecretEncoding.EncodersRoundTrip` | packages/shared/src/param-validate.ts:343-366 | all three printed forms decode to the bytes |
| `SecretEncoding.BytesToHex` | packages/shared/src/param-validate.ts:368-372 | the loop appends the padded hexadecimal numeral of every byte |
| `SecretEncoding.HexRoundTrip` | packages/shared/src/param-validate.ts:368-372 | two lower-case digits a byte, decoding to the bytes by section 8 of RFC 4648 |
| `SecretEncoding.SecretsKeepEntropy` | packages/shared/src/param-validate.ts:384-394 | for every recipe different random draws give different secrets |
| `SecretEncoding.RecipeForms` | packages/shared/src/param-validate.ts:384-394 | each recipe prints its draw, 32 bytes by default, in its own form, and decodes to it |
| `SecretEncoding.FernetKeyShape` | packages/shared/src/param-validate.ts:361-366 | a Fernet key has 44 characters, exactly one `=`, at the end, and decodes to its 32 bytes |
| `BindSources.FirstReferenceIsReported` | packages/shared/src/compose-validate.ts:268-276 | what is reported is the reference at the first dollar behind the token: the braced one up to its first closing brace, else the longest name, else the dollar alone |
| `BindSources.AppDataContainment` | packages/shared/src/compose-validate.ts:298-318 | the depth-counting walk computes the classification |
| `BindSources.WalkIsResolution` | packages/shared/src/compose-validate.ts:304-317 | the depth counter is step-by-step path resolution at that depth below any root |
| `BindSources.ContainmentIsResolution` | packages/shared/src/compose-validate.ts:298-318 | a source is contained exactly when its literal suffix, resolved from any app root, never leaves that root; an escape names the first step that does |
| `BindSources.EscapesExactly` | packages/shared/src/compose-validate.ts:304-316 | `escapes` with position p is answered exactly when a literal suffix leaves the root at step p for the first time |
| `BindSources.ContainedUnderEveryEnvironment` | packages/shared/src/compose-validate.ts:243-318 | a contained source interpolates to itself and stays inside whatever the app's environment holds |
| `BindSources.InterpolatedCanEscape` | packages/shared/src/compose-validate.ts:243-262 | the reason for the literal rule, exactly: some environment makes a suffix leave the root if and only if it has a substitutable reference at any place, braced or not, or leaves it as written |
| `BindSources.SubstitutionIsRefused` | packages/shared/src/compose-validate.ts:298-302 | every source below the token with a substitutable reference is classified as interpolated |
| `Compose.ValidateImage` | packages/shared/src/compose-validate.ts:416-444 | pushes exactly the image and build issues |
| `Compose.ValidatePorts` | packages/shared/src/compose-validate.ts:469-482 | pushes one error per listed port |
| `Compose.ValidateNetworkMode` | packages/shared/src/compose-validate.ts:446-467 | pushes exactly the network-mode issue |
| `Compose.ValidatePrivileges` | packages/shared/src/compose-validate.ts:563-604 | pushes exactly the issues of guarded keys, `security_opt` and `privileged` |
| `Compose.ValidateEnvironment` | packages/shared/src/compose-validate.ts:114-151 | pushes exactly the environment issues, list or mapping |
| `Compose.ValidateVolume` | packages/shared/src/compose-validate.ts:327-365 | pushes the issues of one entry at the given path |
| `Compose.ValidateVolumes` | packages/shared/src/compose-validate.ts:320-367 | pushes exactly the volume issues |
| `Compose.ValidateNetworks` | packages/shared/src/compose-validate.ts:369-387 | pushes one error per undefined network reference |
| `Compose.ValidateSecrets` | packages/shared/src/compose-validate.ts:389-402 | pushes one error per undefined secret reference |
| `Compose.ValidateFileSources` | packages/shared/src/compose-validate.ts:618-632 | pushes one error per definition that reads a host file |
| `Compose.ValidateService` | packages/shared/src/compose-validate.ts:669-692 | pushes the name issues and the eight checks of one service, in order |
| `Compose.ValidateComposeObject` | packages/shared/src/compose-validate.ts:637-695 | returns the issues of the whole document in the order they are pushed |
| `ComposeWritten.ValuesAreRead` | packages/shared/src/compose-validate.ts:417-418 | image, build, guarded keys and options are read as written: text that is not blank, absent values, values that grant nothing, the one permitted option between blanks |
| `ComposeWritten.NamesAreRead` | packages/shared/src/compose-validate.ts:73-89 | the shapes of variable and service names |
| `ComposeWritten.SourceIsRead` | packages/shared/src/compose-validate.ts:330-346 | a volume entry mounts what it has before its first colon, or its `source` |
| `ComposeWritten.VolumeIsRead` | packages/shared/src/compose-validate.ts:333-347 | when an entry mounts a named volume or is a tmpfs |
| `ComposeWritten.EntryIsRead` | packages/shared/src/compose-validate.ts:118-133 | an environment entry names what it has before its first equals sign |
| `ComposeWritten.NetworksAreRead` | packages/shared/src/compose-validate.ts:375-379 | a service refers to the strings of a list or the keys of a mapping |
| `ComposeWritten.SecretIsRead` | packages/shared/src/compose-validate.ts:396-398 | a secret entry names a string or its `source`, and an empty name is no reference |
| `ComposeAcceptance.ImageTagExactly` | packages/shared/src/compose-validate.ts:409-414 | a tag is extracted exactly when the reference is written directory, name, colon, tag, so a registry port is never a tag |
| `ComposeAcceptance.ImageAgrees` | packages/shared/src/compose-validate.ts:416-444 | no image error exactly for one of image and build, a well-formed reference, and a digest or a tag that does not float |
| `ComposeAcceptance.PrivilegesAgree` | packages/shared/src/compose-validate.ts:497-604 | no privilege error exactly when no guarded key carries a value and every `security_opt` entry is the permitted one |
| `ComposeAcceptance.EnvironmentAgrees` | packages/shared/src/compose-validate.ts:114-151 | no environment error exactly on absent, well-named list, or well-named mapping |
| `ComposeAcceptance.VolumeAgrees` | packages/shared/src/compose-validate.ts:327-365 | no volume error exactly for a tmpfs, or when whatever the entry mounts is a host path under every app root |
| `ComposeAcceptance.NetworksAgree` | packages/shared/src/compose-validate.ts:369-387 | no network error exactly when every referenced name is `default` or defined |
| `ComposeAcceptance.NetworkModeAgrees` | packages/shared/src/compose-validate.ts:446-467 | no network-mode error exactly when the mode is neither the host's nor another container's |
| `ComposeAcceptance.NoErrorsIffAcceptable` | packages/shared/src/compose-validate.ts:637-695 | the validator reports no error exactly on the documents of the declarative predicate |
| `ComposeAcceptance.AcceptedVolumesStayInside` | packages/shared/src/compose-validate.ts:278-367 | in an accepted document whatever an entry has before its first colon, or as its source, stays in the app root under every environment, unless it is a tmpfs |
| `ComposeAcceptance.WrittenVolumeExactly` | packages/shared/src/compose-validate.ts:330-365 | a string entry, with or without a colon and anything behind it, is accepted exactly when the text before the colon stays under every root |
| `ComposeAcceptance.LongVolumeExactly` | packages/shared/src/compose-validate.ts:341-365 | a long-form entry is accepted exactly when it is a tmpfs, or no volume and its source stays under every root |
| `ComposeReports.DocumentExactly` | packages/shared/src/compose-validate.ts:637-695 | an issue is reported, with its code, severity and path, exactly when the document as written deserves it, for every check of the validator |
| `ComposeReports.VolumeExactly` | packages/shared/src/compose-validate.ts:327-365 | each volume code is reported exactly for the entries with that fault, escapes meaning leaving every root |
| `ComposeReports.EnvEntryExactly` | packages/shared/src/compose-validate.ts:117-140 | an entry is reported as ill-formed, or as a duplicate of an earlier one, exactly when it is |
| `ComposeReports.ImageExactly` | packages/shared/src/compose-validate.ts:416-444 | the image and build issues, each exactly under its condition |
| `ComposeReports.PrivilegesExactly` | packages/shared/src/compose-validate.ts:563-604 | one error for every guarded key that grants something and every option but the permitted one, a warning for `privileged` |
| `FileLogger.RealFileLogger.Log` | packages/server/src/lib/file-logger.ts:112-141 | the entry joins the accepted ones exactly when its level reaches the threshold; nothing moves in flight or to the disk; an error hands out a ticket |
| `FileLogger.LevelsAdmit` | packages/server/src/lib/file-logger.ts:245-249 | a level passes its own threshold and every lower one, in the order debug, info, warn, error |
| `FileLogger.RealFileLogger.Flush` | packages/server/src/lib/file-logger.ts:168-176 | the caller gets a ticket that no run has served yet, behind all earlier ones |
| `FileLogger.RealFileLogger.StartRun` | packages/server/src/lib/file-logger.ts:178-187 | a run takes in flight everything accepted that is not durable, if all of it formats, or else ends at once with all of it buffered |
| `FileLogger.RealFileLogger.CheckRotation` | packages/server/src/lib/file-logger.ts:272-281 | on an oversized file the run waits for a ticket behind its own; the batch stays as it is |
| `FileLogger.RealFileLogger.FailRun` | packages/server/src/lib/file-logger.ts:202-206 | after a failure the buffer is all that was accepted and is not durable, in the order of acceptance |
| `FileLogger.RealFileLogger.FinishAppend` | packages/server/src/lib/file-logger.ts:196-201 | after an append the durable entries are the old ones and the batch, a prefix of what was accepted |
| `FileLogger.Replay` | packages/server/src/lib/file-logger.ts:112-281 | a logger that has lived through any history is in the state the machine reaches, and durable, in-flight and buffered entries are the accepted ones of that history |
| `FileLogger.StepConserves` | packages/server/src/lib/file-logger.ts:112-227 | every step keeps the machine sound and keeps durable, in-flight and buffered entries but for an accepted one at the end |
| `FileLogger.NothingLostOrReordered` | packages/server/src/lib/file-logger.ts:112-227 | in every interleaving durable, in-flight and buffered entries together are the accepted entries in order, and at most one batch is open |
| `FileLogger.TicketsAreCounted` | packages/server/src/lib/file-logger.ts:138-217 | every call, rotation, logged error and oversized file of a history gets one flush of the chain, and every completed rotation a new file |
| `FileLogger.FinishedFlushIsDurable` | packages/server/src/lib/file-logger.ts:138-176 | once a flush asked for by a call, an error log or a rotation has finished without its own exception, everything accepted before is durable, in order |
| `FileLogger.SelfWaitIsForever` | packages/server/src/lib/file-logger.ts:190-281 | a run that rotates waits for a later ticket than its own: it never resumes and no later flush finishes |
| `FileLogger.InnerRotationNeverResumes` | packages/server/src/lib/file-logger.ts:209-217 | in no run does a rotation begun inside a flush resume |
| `FileLogger.DrainableExactly` | packages/server/src/lib/file-logger.ts:178-281 | after any history everything accepted can still reach the disk exactly when no flush has met an oversized file and every accepted entry formats |
| `FileLogger.BadEntryBlocks` | packages/server/src/lib/file-logger.ts:186-206 | while an entry that does not format is buffered, nothing behind the batch in flight ever becomes durable |
| `FileLogger.OversizedFileStopsTheLogger` | packages/server/src/lib/file-logger.ts:168-281 | a four-step history after which nothing can reach the disk because a flush waits on itself |
| `FileLogger.UnformattableEntryStopsTheLogger` | packages/server/src/lib/file-logger.ts:186-206 | a three-step history without rotation after which nothing can reach the disk |
| `LineStreams.CompleteAndRest` | packages/cli/src/lib/runner.ts:62-74 | what complete lines and the rest of a text are: newline-free, and rejoining to the text |
| `LineStreams.LineEmitter.Feed` | packages/cli/src/lib/runner.ts:62-74 | after every chunk the emitted lines are the non-empty complete lines of all the text received and the buffer is its rest, however it was cut |
| `LineStreams.EmitLines` | packages/cli/src/lib/runner.ts:40-74 | a whole command: the lines of the text in order, without the empty ones, the last one included |
| `LineStreams.ClosingNewline` | packages/cli/src/lib/runner.ts:45-74 | the closing newline completes the last line and leaves no rest |
| `LineStreams.RedactionIsExact` | packages/server/src/lib/docker-proxy.ts:104-273 | redaction removes every denied label, keeps every other one and every other field of the event and of its actor, and leaves an event without denied labels as it is |
| `LineStreams.DeniedExactly` | packages/server/src/lib/docker-proxy.ts:89-97 | the denied labels are the two host-path labels and everything below the bind-source prefix |
| `LineStreams.LineYields` | packages/server/src/lib/docker-proxy.ts:296-306 | a blank line and one that does not parse yield nothing, any other line its redacted payload |
| `LineStreams.RedactionKeepsTheRest` | packages/server/src/lib/docker-proxy.ts:264-273 | the labels become exactly the kept ones; the fields of the event and of its actor keep their order, and all but the labels their values |
| `LineStreams.AllowedInOrder` | packages/server/src/lib/docker-proxy.ts:104-109 | every kept label keeps its place between the kept ones before and behind it |
| `LineStreams.EventFilter.Transform` | packages/server/src/lib/docker-proxy.ts:310-318 | after every chunk the output is the redacted parseable complete lines of all the text received and the buffer is its rest |
| `LineStreams.EventFilter.Flush` | packages/server/src/lib/docker-proxy.ts:319-323 | at the end the output is that of all lines of the text received, the last one included |
| `LineStreams.RedactEventStream` | packages/server/src/lib/docker-proxy.ts:290-326 | a whole stream, however cut: the redacted parseable lines of the text in order, none with a denied label |
| `LineStreams.NoEventLeaksALabel` | packages/server/src/lib/docker-proxy.ts:284-326 | no event in that output carries a denied label |
| `SseStream.Stream.Emit` | packages/server/src/utils/sse.ts:77-94 | a closed stream is left as it is; an open one gains the payload, or on rejection ends with its timer and cleanup released |
| `SseStream.Stream.Close` | packages/server/src/utils/sse.ts:99-117 | the stream is over; the first close releases timer and cleanup, a later one changes nothing |
| `SseStream.Stream.FinishStart` | packages/server/src/utils/sse.ts:119-138 | after `start` no cleanup has run; a throw leaves nothing to release, a return stores the cleanup whether or not the stream is still open |
| `SseStream.Replay` | packages/server/src/utils/sse.ts:42-146 | a stream that has lived through any history is in the state the machine reaches, and its output is one payload for each accepted emit, tick and error event before the end |
| `SseStream.RunSound` | packages/server/src/utils/sse.ts:42-146 | in every run nothing is enqueued after the close, a closed stream has no timer, and cleanup runs at most once |
| `SseStream.AnswersExactly` | packages/server/src/utils/sse.ts:77-146 | counted off the history: every accepted payload before the end is sent, nothing else is, the stream ends exactly at the first event that ends it, and its heartbeat lives until then |
| `SseStream.CleanupExactlyOnce` | packages/server/src/utils/sse.ts:58-146 | cleanup runs exactly once in every run that ends the stream if it was open when `onSubscribe` returned, and never otherwise |
| `SseStream.LostDuringSubscribe` | packages/server/src/utils/sse.ts:99-134 | a close inside `onSubscribe`: in every continuation the cleanup stays stored and uncalled |
| `LogStream.Handler.OnStream` | packages/server/src/server.ts:1581-1631 | an event of the stream; once the stream of an attached request is over and its handle has resolved, the handle has been stopped once and the log bus left once |
| `LogStream.Handler.OnHandle` | packages/server/src/server.ts:1619-1622 | when the handle arrives on an attached request, it has been stopped once if the stream is over and not at all otherwise |
| `LogStream.Replay` | packages/server/src/server.ts:1577-1635 | a request that has lived through any history is in the state the machine reaches, and its client has got one payload for each accepted one of the stream and of the container before the end |
| `LogStream.EveryEntryIsDelivered` | packages/server/src/server.ts:1586-1618 | container entries are payloads like any other: all accepted ones before the end reach the client, in order |
| `LogStream.RejectedEntryReleases` | packages/server/src/server.ts:1607-1631 | the first rejected container entry ends an attached request, leaves the log bus once and stops a resolved handle once |
| `LogStream.HandleSettles` | packages/server/src/server.ts:1619-1625 | the handle is what its promise has settled to |
| `LogStream.HandleStoppedExactlyOnce` | packages/server/src/server.ts:1577-1635 | on a stream open when `onSubscribe` returned the container handle is stopped exactly once as soon as the stream has ended and the handle has resolved, in either order, and never otherwise |
| `Contracts.PrintedRefResolves` | packages/shared/src/contracts.ts:245-267 | a printed reference resolves to a row of its id and version exactly when the id is not empty |
| `Contracts.ResolvesExactly` | packages/shared/src/contracts.ts:257-267 | any text resolves to a row exactly when it writes the row's id and, behind its last at sign, text that reads as the row's version, the first such row |
| `Contracts.NamelessContractIsLost` | packages/shared/src/contracts.ts:245-267 | a row without an id, printed and read back, is not found |
| `Contracts.ComputeGrantKinds` | packages/shared/src/contracts.ts:310-320 | the loop computes the live kinds of the references |
| `Contracts.KindsInOrderOfFirstReference` | packages/shared/src/contracts.ts:310-320 | those are each kind once, in the order of the first reference that implies it, and no kind is missing |
| `Contracts.KindsExactly` | packages/shared/src/contracts.ts:310-320 | a kind is live exactly when some reference writes the id and version of a row with that grant |
| `Contracts.ResolveGrantKinds` | packages/shared/src/contracts.ts:351-370 | the loop returns exactly the recorded kinds that some reference implies by the id and version it writes, in the order of the live kinds, and the widened rest |
| `Contracts.EveryLiveKindIsHeldOrReported` | packages/shared/src/contracts.ts:351-370 | a live kind is held if recorded and reported as widened if not, never both, and nothing else is held |
| `Contracts.WidenedExactly` | packages/shared/src/contracts.ts:358-368 | a widened report is the printed form and the unrecorded grant of the row a reference resolves to |
| `Contracts.WidenedOfConcat` | packages/shared/src/contracts.ts:358-368 | reports come in the order of the references, one for each |
| `Contracts.ConsentIsComplete` | packages/shared/src/contracts.ts:310-370 | with the record made from the same references and table everything is granted and nothing widened |
| `Contracts.NeverBeyondLastConsent` | packages/shared/src/contracts.ts:351-370 | over any later table changes and dropped references an install holds only kinds of its last consent record that a remaining reference still implies |
| `Contracts.HeldExactly` | packages/shared/src/contracts.ts:351-370 | after a consent and any table changes and dropped references an install holds exactly the kinds that both the consented references implied then and a reference in force implies now |
| `Participations.BackupParticipations` | packages/shared/src/contracts.ts:410-441 | the loop with its set of seen ids computes the reading, for the list and the legacy shape |
| `Participations.EntryExactly` | packages/shared/src/contracts.ts:380-428 | an entry is read as exactly what its id and hooks hold, each hook a service and a command of non-empty words |
| `Participations.LegacyExactly` | packages/shared/src/contracts.ts:431-439 | the legacy object is read as its two hooks under the id `default`, or as nothing without one |
| `Participations.OutputIsNormal` | packages/shared/src/contracts.ts:380-441 | unique trimmed non-empty ids, each with at least one well-formed hook |
| `Participations.KeepsFirstOfEachId` | packages/shared/src/contracts.ts:411-428 | the output comes, in declaration order, from exactly the first well-formed entry of each id |
| `Participations.ReadingAgainChangesNothing` | packages/shared/src/contracts.ts:380-441 | reading the output again gives the same output, whichever shape it came from |
| `Coverage.JudgeBackupCoverage` | packages/shared/src/contracts.ts:538-561 | the accumulation of targeted services computes the verdict and its counts |
| `Coverage.JudgeRestoreCoverage` | packages/shared/src/contracts.ts:582-618 | the same for restore |
| `Coverage.CountsAllExactly` | packages/shared/src/contracts.ts:551-558 | counting targets against listed services is exact: equal exactly when the list has no repetition and all of it is targeted |
| `Coverage.TargetsExactly` | packages/shared/src/contracts.ts:545-600 | which services count as targeted, for backup and for restore |
| `Coverage.BackupStateExactly` | packages/shared/src/contracts.ts:538-561 | every backup state with its exact condition, with and without databases and acceptance |
| `Coverage.RestoreStateExactly` | packages/shared/src/contracts.ts:582-618 | every restore state with its exact condition |
| `Coverage.QuiescedExactly` | packages/shared/src/contracts.ts:538-561 | with a recognised database an accepting app is `quiesced` exactly when the databases are distinct, not empty-named and each is named by a pre-hook |
| `Coverage.RestorableExactly` | packages/shared/src/contracts.ts:582-618 | `restorable` exactly when they are distinct and each is named by the pre-hook of a participation with a restore hook |
| `Coverage.CountsAreOrdered` | packages/shared/src/contracts.ts:538-618 | backup targets are at most the recognised databases; restore targets are at most backup targets exactly unless the empty name is reloaded along with every backup target |
| `Coverage.RestorableIsQuiesced` | packages/shared/src/contracts.ts:538-618 | a restorable app whose backup is accepted is quiesced exactly when no database has the empty name |
| `Coverage.NamelessDatabaseDiffers` | packages/shared/src/contracts.ts:538-618 | a hook and a database without a name: restorable, but partial for backup |
| `Coverage.ReadParticipationsCover` | packages/shared/src/contracts.ts:410-618 | for participations read from any backup block restore targets are at most backup targets and a restorable app with a recognised database is quiesced, without exception |
| `Subdomains.SlugShape` | packages/shared/src/index.ts:2914-2926 | a slug is empty exactly when the lowered input has no ASCII alphanumeric, else a valid label without adjacent hyphens |
| `Subdomains.SlugSaysItsWords` | packages/shared/src/index.ts:2914-2921 | the slug is the runs of letters and digits of the lowered input joined by single hyphens, cut at 63 characters, or one earlier when the cut falls behind a hyphen |
| `Subdomains.FixedExactly` | packages/shared/src/index.ts:2914-2926 | the fixed points are the empty string and the valid labels without adjacent hyphens, and no others |
| `Subdomains.DoubleHyphenIsNotFixed` | packages/shared/src/index.ts:2914-2926 | `a--b` is a valid label the slug changes |
| `Subdomains.SlugifyIsIdempotent` | packages/shared/src/index.ts:2914-2921 | slugging twice is slugging once, also across the 63-character cut |
| `Redaction.WriteBackExactly` | packages/shared/src/index.ts:1279-1315 | writing a redacted answer back unchanged restores the store exactly under the stated condition on keys and markers |
| `Redaction.WriteBackIsIdentity` | packages/shared/src/index.ts:1279-1315 | it does for rows with unique keys and no marker |
| `Redaction.EditsKeepWithheldValues` | packages/shared/src/index.ts:1288-1315 | a replay with edits keeps every withheld value, takes unmarked rows as sent, blanks unknown marked keys and never writes a marker |
| `Redaction.RedactionShowsNoSecret` | packages/shared/src/index.ts:1279-1281 | two stores are redacted to the same answer exactly when they differ in nothing but secret values |
| `Redaction.RowsAreAnswered` | packages/shared/src/index.ts:1279-1293 | a secret row is answered blank and marked, other rows as they are, and taking the marker off changes nothing else |
| `Redaction.WriteShowsNoSecretExactly` | packages/shared/src/index.ts:1279-1315 | the redacted answer to a write is the same for all stores a redacted read cannot tell apart exactly when no marked row that is not declared secret names a stored secret |
| `Redaction.DroppedSecrecyShowsTheSecret` | packages/shared/src/index.ts:1309-1315 | a marked row sent back without its secrecy is answered with the secret |
| `Redaction.RepeatedKeyIsOverwritten` | packages/shared/src/index.ts:1309-1315 | two secret rows of one key both come back with the later value |

## Left out

- Numbers are unbounded; JavaScript doubles lose precision above 2^53, and numerals of more than 308 digits read as infinity, whose differences are not comparable.
- Strings are compared by code point; JavaScript compares UTF-16 units, which orders astral characters differently.
- Lower-casing is ASCII only.
- Object keys are listed in insertion order; JavaScript moves integer-like keys to the front, and an assignment to `__proto__` does not create a key.
- Messages of refusals and issues are not modelled; issue codes, severities and paths are.
- YAML and JSON parsing, the decoding of byte chunks to text, and the re-encoding of redacted events are outside; parsed values, text chunks and a parse function are the inputs.
- `validateComposeDocument` (packages/shared/src/compose-validate.ts:704-721) and the warning about unknown platform tokens are not part of this model.
- The image-reference expression is a parameter of the validator; the tag rules are proved for every such expression.
- BindSources.InterpolatedCanEscape: Compose's interpolation is modelled as the substitution of `$$`, `$name` and braces around text that starts with a name, all of that text being handed to the environment; documents with other braced forms, which Compose rejects, keep them as text. Theorems about contained sources need nothing of this, since those have no dollar.
- Contracts.PrintedRefResolves: assumes of `Number()` only that it reads plain decimal numerals; how it reads other text is a parameter.
- The decision, list, inspect and info tables of the Docker proxy, and image recognition of databases, are table look-ups that would only add easy members.
- Log file names, their clean-up, timestamps and the flush timer are abstract steps; an append is taken to write all of a batch or nothing.
- FileLogger.DrainableExactly: whether an entry formats is fixed when it is accepted; the source copies metadata only at the top level, so a caller that mutates nested metadata later could change it.
- FileLogger.DrainableExactly: a batch formats when each of its entries does; that joining a very large batch can exceed the engine's string limit after a long append failure is not modelled.
- FileLogger.NothingLostOrReordered: an append that fails after writing part of a batch would duplicate that part on the retry.
- LogStream.HandleStoppedExactlyOnce: takes `unsubscribe` not to throw, since a throw would skip the stop that follows it; the promise is taken to settle in a later turn than `onSubscribe`, as promises do.
- SseStream.RunSound: exceptions of the cleanup function are caught by the source and not modelled; an interval tick during `onSubscribe` cannot happen in one turn.
- The coverage verdicts echo their inputs; the echo is not modelled.
- EnvConfigurations.UndivertedExactly: a setting that already reads its value in the base may be caught without a visible difference, so such settings are excluded.
- SemVer.CompareIsPrecedence: versions with build metadata are not written by this model; a dot in it adds a segment to the core the code reads.
- SemVer.HyphenAgreementExactly: compares a version with inner hyphens to those without; two with inner hyphens are only compared in the input that fails.
- Random bytes are inputs of secret generation.
- `schemaTemplate`, parameter validation, provider consents by reference, and everything behind the service factory, HTTP, the command line and the web interface are outside this model.
