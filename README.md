# UncrustifyVS core, modelled in Dafny

UncrustifyVS is a Visual Studio extension that runs the Uncrustify source
formatter on a document or a selection. This project models the parts of it
that hold logic of their own, and proves properties of them:

- **Caret anchor codec** (`caret_anchor.dfy`, module `CaretAnchor`).
  - `CaretOffset` turns the document text in front of the caret into a
    fingerprint. The fingerprint is the prefix's characters that are neither
    whitespace nor control characters, followed by one space for each
    non-`'\r'` whitespace character after the last of them.
  - `RestoreCaretOffset` walks the reformatted document and the fingerprint
    in lockstep. It yields the 1-based absolute offset to move the caret to,
    or `None` where the source returns `null`.
  - Both are methods with loops, proved against the functions
    `Fingerprint` and `Walk`/`Decode`.
- **Format-operation rules** (`format_rules.dfy`, module `FormatRules`).
  - The package's extension table and `MapExtension`.
  - `CanFormatDocument` and its eligibility rule.
  - The command line built by the chain of `String.Replace` calls, and the
    `--frag` switch.
  - Where the caret goes after the text is replaced: the restore guard and
    the line/column fallback.
  - The `_ignoreNextSave` flag of `DocEvents_Saved`.
- **Profile record** (`profile.dfy`, module `ProfileModel`).
  - The `Profile` class with `Reset`, `CopyFrom`, `ToParseString` and
    `FromParseString`.
  - `FromParseString` consumes one `{ ... }` block of "Key value" lines and
    hands back the rest of the text. It is a method with two loops, proved
    against the function `ParseProfile`.
- **Profile registry** (`profiles.dfy`, module `ProfileRegistry`).
  - The list of profiles, the active profile and the
    `CanModifyActiveProfile` flag, modelled as the class `Registry`.
  - `IsValidName`, `Find`, `IsDefault`, `Create`, `Delete`, `Rename`, `Reset`,
    `EnsureDefaultProfileExists` and the `Active` setter.
  - The registry invariant (`Registry.Valid`): the names are unique and
    each one is valid and trimmed, a default profile exists, the active
    profile is in the list, and the flag matches the active profile's
    name. Every operation that changes the list keeps it.
- **Persistence and the profile picker** (`options_page.dfy`, module
  `OptionsPage`, and `profile_converter.dfy`, module `ProfileConverter`).
  - The getter and setter of `SerializeProfiles`.
  - The plain-name branch of `ActiveProfileName`.
  - `GetStandardValues`: the ordered action entries, then the profile names
    sorted.

Shared modules:

- `text.dfy` (module `Text`) writes out the .NET primitives the code relies
  on:
  - `char.IsWhiteSpace` and `char.IsControl` as sets of UTF-16 code units;
  - `String.Trim`, `String.IndexOf` and `String.Replace`;
  - `StringReader.ReadLine`.
- `setting_text.dfy` (module `SettingText`) holds the names of the
  `LanguageFilters` members and of the booleans, and their `TryParse`.

## Model

| member | source | states |
|---|---|---|
| CaretAnchor.CaretOffset | UncrustifyVs/UncrustifyVsPackage.cs:420-443 | the loop over the text in front of the caret returns exactly `Fingerprint` of that prefix |
| CaretAnchor.FingerprintLayout | UncrustifyVs/UncrustifyVsPackage.cs:425-441 | a fingerprint is the prefix's skeleton, then as many spaces as there are wildcards after the last anchor; its spaces are exactly its tail, and the skeleton holds no whitespace or control character |
| CaretAnchor.SkeletonAnchors | UncrustifyVs/UncrustifyVsPackage.cs:434-438 | the skeleton holds anchors only (neither whitespace nor control) and is no longer than the text |
| CaretAnchor.SkeletonConcat | UncrustifyVs/UncrustifyVsPackage.cs:425-438 | the skeleton of a concatenation is the concatenation of the skeletons: the anchors are kept in order |
| CaretAnchor.TrailingWildcardsCount | UncrustifyVs/UncrustifyVsPackage.cs:427-437 | the wildcard counter equals the number of non-`'\r'` whitespace characters after the last anchor |
| CaretAnchor.LastAnchorEndSplit | UncrustifyVs/UncrustifyVsPackage.cs:434-438 | the character before `LastAnchorEnd` is an anchor and nothing after it is |
| CaretAnchor.FingerprintIgnores | UncrustifyVs/UncrustifyVsPackage.cs:427-438 | inserting a `'\r'` or a non-whitespace control character anywhere in the prefix leaves the fingerprint unchanged |
| CaretAnchor.RestoreCaretOffset | UncrustifyVs/UncrustifyVsPackage.cs:449-500 | the loop over text and fingerprint returns exactly `Decode(text, fp)` |
| CaretAnchor.WalkBounds | UncrustifyVs/UncrustifyVsPackage.cs:458-491 | a walk that stops does so inside the text, and the offset it has counted lies between the non-`'\r'` characters passed and all characters passed; with no `'\r'` in the fingerprint, it is exactly the non-`'\r'` ones |
| CaretAnchor.DecodeRange | UncrustifyVs/UncrustifyVsPackage.cs:458-498 | a decoded offset lies in 1 to 1 + the text's length; for a fingerprint without `'\r'` it is at most 1 + the text's non-`'\r'` characters, and it is the stop offset of some position of the text |
| CaretAnchor.WalkDiverges | UncrustifyVs/UncrustifyVsPackage.cs:479-489 | a walk that fails reaches, by its own steps, a pair of positions where a text character other than `' '`, `'\n'`, `'\t'`, `'\r'` differs from a fingerprint character that is not a space |
| CaretAnchor.DivergesAt | UncrustifyVs/UncrustifyVsPackage.cs:479-489 | conversely, a walk that reaches such a mismatched pair fails |
| CaretAnchor.DecodeFailure | UncrustifyVs/UncrustifyVsPackage.cs:452-490 | decoding fails exactly when the fingerprint is not empty and the walk from the start reaches such a mismatched pair |
| CaretAnchor.DecodeEmpty | UncrustifyVs/UncrustifyVsPackage.cs:452-455 | the empty fingerprint decodes to the start of the document (offset 1) |
| CaretAnchor.WildcardPhase | UncrustifyVs/UncrustifyVsPackage.cs:469-484 | once only spaces are left in the fingerprint, the walk absorbs `WildcardSpan` characters (a blank per space, `'\r'` for free) and stops successfully at anything else, at the end of the text, or when the spaces run out |
| CaretAnchor.SkeletonPhase | UncrustifyVs/UncrustifyVsPackage.cs:464-479 | a plain stretch of the text that ends with an anchor carries the walk over its own skeleton, counting its non-`'\r'` characters |
| CaretAnchor.DecodeTolerant | UncrustifyVs/UncrustifyVsPackage.cs:458-498 | whitespace tolerance: a text that starts with a plain stretch whose skeleton is the fingerprint's skeleton decodes successfully, landing after that stretch and the blanks the fingerprint's spaces absorb |
| CaretAnchor.FingerprintShape | UncrustifyVs/UncrustifyVsPackage.cs:425-441 | every caret prefix with a given skeleton has that skeleton plus its wildcard count in spaces as its fingerprint |
| CaretAnchor.DecodeRoundTrip | UncrustifyVs/UncrustifyVsPackage.cs:420-500 | on an unchanged document whose caret prefix holds no whitespace but `' '`, `'\n'`, `'\t'`, `'\r'` and no other control character, decoding the fingerprint succeeds with 1 + the non-`'\r'` characters in front of the caret, less one when the last of them is `'\n'` |
| CaretAnchor.DecodeMismatch | UncrustifyVs/UncrustifyVsPackage.cs:479-489 | when the text, past a matched plain stretch and some blanks, holds a character that is neither blank nor `'\r'` and differs from the next fingerprint anchor, decoding fails |
| CaretAnchor.SkipBlanks | UncrustifyVs/UncrustifyVsPackage.cs:469-489 | blanks and `'\r'` in front of such a character do not save the walk from failing |
| FormatRules.Package.constructor | UncrustifyVs/UncrustifyVsPackage.cs:53-64 | the table maps .c, .cpp, .h to (Cpp, "CPP"), .cs to (Cs, "CSharp"), .d to (D, "D") and .java to (Java, "JAVA"), and the save flag starts clear |
| FormatRules.Package.MapExtension | UncrustifyVs/UncrustifyVsPackage.cs:70-91 | `Dictionary.Add` of "." + ext: the entry is added, with the language's Uncrustify name, exactly when the key is new; otherwise the table is unchanged (the source throws) |
| FormatRules.DotScanFinds | UncrustifyVs/UncrustifyVsPackage.cs:225 | the extension scan stops at k exactly when k holds the last '.' with neither a '.' nor a separator after it |
| FormatRules.ExtensionAt | UncrustifyVs/UncrustifyVsPackage.cs:225 | `Path.GetExtension` is `path[k..]` exactly when k is the last '.' of the file name and not its last character |
| FormatRules.ExtensionSuffix | UncrustifyVs/UncrustifyVsPackage.cs:225 | a non-empty extension is a suffix of the path |
| FormatRules.ToLower | UncrustifyVs/UncrustifyVsPackage.cs:225 | the lower-cased extension has the same length, and each character is lower-cased |
| FormatRules.Eligibility | UncrustifyVs/UncrustifyVsPackage.cs:214-238 | with the standard table, a document can be formatted iff it exists, is not read-only, is of type "Text", its lower-cased extension is one of .c .cpp .h .cs .d .java, and the filter is All or that extension's language; the language string is then CPP, CSharp, D or JAVA, and is set only on success |
| FormatRules.StandardLookup | UncrustifyVs/UncrustifyVsPackage.cs:55-63 | reading the standard table under a filter agrees with the list of eligible extensions and gives their language strings |
| FormatRules.Package.DocumentSaved | UncrustifyVs/UncrustifyVsPackage.cs:106-123 | a save formats once when the flag is clear and format-on-save is on, and saves again only when `UncrustifyDocument` reports success (Uncrustify ran and its output was written back, changed or not); that nested save does not format again, and the flag ends as it began |
| FormatRules.FragOnlyForSelection | UncrustifyVs/UncrustifyVsPackage.cs:322-327 | a selection run's command line is the document run's plus " --frag", whatever the profile's fragment flag says |
| FormatRules.DefaultExpansion | UncrustifyVs/UncrustifyVsPackage.cs:315-327 | the default command line, with values free of '%', expands to `-c "<cfg>" -q -l <language> --no-backup "<tmp>"` (plus " --frag" for a selection) |
| FormatRules.ReplacementsCascade | UncrustifyVs/UncrustifyVsPackage.cs:315-320 | the replacements are applied in order to the text produced so far: a configuration path that reads "%FILE%" becomes the temporary file's path |
| FormatRules.RestoreCaretCases | UncrustifyVs/UncrustifyVsPackage.cs:348-373 | nothing is restored iff the formatted text equals the old text; otherwise the caret moves to the decoded offset (between 1 and 1 + the document's length) when decoding succeeds; when it fails, the caret moves to the old line, and its column moves left iff the line shrank and the old column lies past its new end |
| FormatRules.FallbackWithinLine | UncrustifyVs/UncrustifyVsPackage.cs:367-373 | for an old column within its old line, the fallback column is at most the old column and at most one past the new line's end |
| FormatRules.FallbackBelowFirstColumn | UncrustifyVs/UncrustifyVsPackage.cs:367-373 | there is no lower clamp: old line 10 long, column 3, new line 2 long gives column -5 |
| ProfileModel.Profile.constructor | UncrustifyVs/Profile.cs:50-53 | a new profile holds the default settings under the given name |
| ProfileModel.Profile.Reset | UncrustifyVs/Profile.cs:58-68 | every setting gets its default (empty program and config paths, the default command line, filter All, fragment formatting on, both format-on flags off); the name becomes the given one, or stays when none is given |
| ProfileModel.Profile.CopyFrom | UncrustifyVs/Profile.cs:73-83 | the seven settings become the other profile's and the name stays; the other profile is unchanged |
| ProfileModel.Profile.SetField | UncrustifyVs/Profile.cs:139-170 | one key/value line is applied to the profile as `ApplyField` says (the branch chain on the key) |
| ProfileModel.FindOpen | UncrustifyVs/Profile.cs:111-120 | the first loop returns the text after the first line that trims to "{", or None when there is none |
| ProfileModel.FromParseString | UncrustifyVs/Profile.cs:106-176 | null and the text untouched when no block can be read; otherwise a fresh profile with exactly the parsed settings, and the text after the "}" line |
| ProfileModel.SkipToOpen | UncrustifyVs/Profile.cs:113-120 | a successful search leaves strictly less text |
| ProfileModel.ReadFields | UncrustifyVs/Profile.cs:122-172 | a block that closes leaves strictly less text |
| ProfileModel.ParseProfile | UncrustifyVs/Profile.cs:106-176 | a block that is read leaves strictly less text |
| ProfileModel.ParseRoundTrip | UncrustifyVs/Profile.cs:87-130 | parsing `ToParseString` of a profile followed by any text gives back the same settings and exactly that text, when no text setting holds '\r' or '\n' or ends in whitespace and the command line is not empty |
| ProfileModel.KeyLineEffect | UncrustifyVs/Profile.cs:91-98 | a written "Key value" line is read back as that key and value; a line with an empty value changes nothing |
| ProfileModel.BoolField | UncrustifyVs/Profile.cs:159-170 | a flag line with a value that `bool.TryParse` accepts sets that flag and nothing else |
| ProfileModel.LanguageField | UncrustifyVs/Profile.cs:155-158 | the filter's own name sets the filter |
| ProfileModel.LineWithoutSpace | UncrustifyVs/Profile.cs:133-134 | a line without a space is ignored |
| ProfileModel.UnknownKey | UncrustifyVs/Profile.cs:139-170 | a key other than the eight is ignored |
| ProfileModel.RepeatedKey | UncrustifyVs/Profile.cs:139-170 | of two lines with the same key, the later one wins |
| ProfileModel.UnparsableFlag | UncrustifyVs/Profile.cs:159-170 | a flag value `bool.TryParse` refuses sets that flag to false (even fragment formatting, whose default is true) |
| ProfileModel.UnparsableLanguage | UncrustifyVs/Profile.cs:155-158 | a filter value `Enum.TryParse` refuses sets the filter to All |
| ProfileModel.EmptyBlock | UncrustifyVs/Profile.cs:108-130 | an empty block reads as a profile with the defaults and an empty name, and leaves the text after it |
| ProfileRegistry.ValidNameIdempotent | UncrustifyVs/Profiles.cs:123-127 | validating the trimmed name gives the same verdict and the same name |
| ProfileRegistry.AcceptedIsValid | UncrustifyVs/Profiles.cs:123-127 | the names the registry keeps (non-empty, no whitespace at either end, no leading '>') are exactly those `IsValidName` accepts unchanged |
| ProfileRegistry.DefaultAccepted | UncrustifyVs/Profiles.cs:18 | the default profile's name is itself a valid, trimmed name |
| ProfileRegistry.ValidNameShape | UncrustifyVs/Profiles.cs:123-127 | an accepted name is non-empty, has no whitespace at either end, and does not start with '>' |
| ProfileRegistry.FirstIndex | UncrustifyVs/Profiles.cs:162 | `FirstOrDefault` by name: the first position holding the name, or None iff the name is absent |
| ProfileRegistry.FindInNames | UncrustifyVs/Profiles.cs:162 | `Find` returns null exactly when no profile has the name |
| ProfileRegistry.FirstIndexUnique | UncrustifyVs/Profiles.cs:162 | with unique names, a name's position is the one `Find` returns |
| ProfileRegistry.Registry.constructor | UncrustifyVs/Profiles.cs:14-26 | the static initial state: no profiles, no active profile, flag off |
| ProfileRegistry.Registry.SetActive | UncrustifyVs/Profiles.cs:30-41 | the active profile becomes the value; the flag is recomputed (non-null and not the default) only when the reference changes |
| ProfileRegistry.Registry.EnsureDefaultProfileExists | UncrustifyVs/Profiles.cs:58-71 | an existing default profile is returned and nothing changes; otherwise a fresh default-settings profile is appended and made active; the registry invariant is kept |
| ProfileRegistry.Registry.Reset | UncrustifyVs/Profiles.cs:49-53 | exactly one profile is left, a fresh default, and it is active |
| ProfileRegistry.Registry.Create | UncrustifyVs/Profiles.cs:100-117 | null and nothing changed iff the trimmed name is invalid or taken; otherwise exactly one fresh default-settings profile with the trimmed name is appended and made active; the invariant is kept |
| ProfileRegistry.Registry.Delete | UncrustifyVs/Profiles.cs:77-94 | true iff the name is present and not the default; then only that profile leaves the list, and the default becomes active if the deleted one was; otherwise nothing changes |
| ProfileRegistry.Registry.Rename | UncrustifyVs/Profiles.cs:134-150 | null iff the new name is invalid or taken, the old name is absent, or it is the default; otherwise only that profile's name changes, at its position; no other profile, nor the list, nor the active profile changes |
| ProfileRegistry.RemovedUnique | UncrustifyVs/Profiles.cs:85 | removing a profile keeps the names unique |
| ProfileRegistry.RenamedNames | UncrustifyVs/Profiles.cs:136-147 | renaming to a name not in use keeps the names unique and changes only the renamed position |
| OptionsPage.GetSerializeProfiles | UncrustifyVs/OptionsPageGeneral.cs:227-242 | the result is "LastActiveProfile " + active name + "\n", then each profile's text form in list order |
| OptionsPage.ConcatAppend | UncrustifyVs/OptionsPageGeneral.cs:236-239 | appending the blocks of two lists is appending the two texts |
| OptionsPage.HeaderStepsAgree | UncrustifyVs/OptionsPageGeneral.cs:252-262 | on input that starts with the header, the written and the intended header steps agree |
| OptionsPage.ShortInputThrows | UncrustifyVs/OptionsPageGeneral.cs:253-255 | the input "x" makes the source's `Remove` throw, where the intended step keeps it whole |
| OptionsPage.HeaderlessInputTruncated | UncrustifyVs/OptionsPageGeneral.cs:253-255 | a header-less input of 18 characters or more loses characters in the source, where the intended step keeps it whole |
| OptionsPage.HeaderRoundTrip | UncrustifyVs/OptionsPageGeneral.cs:233-261 | the intended header step reads back the active name the getter writes (non-empty, single line) and the exact text after it |
| OptionsPage.AdmitWellNamed | UncrustifyVs/OptionsPageGeneral.cs:273 | `Create(p.Name)?.CopyFrom(p)` keeps the loaded names valid, trimmed and unique |
| OptionsPage.LoadWellNamed | UncrustifyVs/OptionsPageGeneral.cs:264-274 | the loading loop keeps the names valid, trimmed and unique: blocks with invalid or duplicate names are dropped |
| OptionsPage.LoadAppends | UncrustifyVs/OptionsPageGeneral.cs:264-274 | loading only appends to what was loaded before |
| OptionsPage.LoadStop | UncrustifyVs/OptionsPageGeneral.cs:264-270 | loading stops at the end of the text or where no block can be read |
| OptionsPage.LoadSerialized | UncrustifyVs/OptionsPageGeneral.cs:264-274 | the blocks of storable, well-named, unique profiles load back as exactly those profiles, in order |
| OptionsPage.SetSerializeProfiles | UncrustifyVs/OptionsPageGeneral.cs:243-281 | the list is emptied and becomes the loaded blocks plus a default profile when none was loaded; the registry invariant holds; the header's profile is active when it exists, else the default |
| OptionsPage.LoadRegistry | UncrustifyVs/OptionsPageGeneral.cs:264-280 | the part of the setter after the header, from an empty list, with the same outcome |
| OptionsPage.ReadBlocks | UncrustifyVs/OptionsPageGeneral.cs:264-274 | the loop's outcome is `LoadBlocks` of the text |
| OptionsPage.LoadBlock | UncrustifyVs/OptionsPageGeneral.cs:273 | one block is admitted as `Admit` says: appended with its trimmed name when valid and new, otherwise dropped |
| OptionsPage.EnsureDefaultAfterLoad | UncrustifyVs/OptionsPageGeneral.cs:277 | a default profile is appended only when none was loaded, and the invariant holds afterwards |
| OptionsPage.RestoreActive | UncrustifyVs/OptionsPageGeneral.cs:280 | the named profile becomes active, else the default; the list is unchanged |
| OptionsPage.SelectProfile | UncrustifyVs/OptionsPageGeneral.cs:215-218 | the named profile becomes active and the list is unchanged; else the default profile becomes active, with the list unchanged when it exists and gaining exactly one fresh default-settings profile when it does not; the invariant is kept |
| OptionsPage.RegistryRoundTrip | UncrustifyVs/OptionsPageGeneral.cs:227-281 | loading what the getter writes gives back the active name and every profile, in order, with its settings, when each profile is storable and names are valid and unique |
| ProfileConverter.ActionsLayout | UncrustifyVs/ProfilePropertyConverter.cs:20-39 | New and Clone come first; then Delete, Export, Import, Rename, Reset when the active profile may be modified, else Import, Reset; Delete, Export and Rename are listed iff it may be modified |
| ProfileConverter.ActionsMarked | UncrustifyVs/ProfileActionNames.cs:12-36 | every action entry is non-empty and starts with '>' |
| ProfileConverter.NamesAreNotActions | UncrustifyVs/Profiles.cs:123-127 | no accepted profile name is an action entry |
| ProfileConverter.PrecedesTotal | UncrustifyVs/ProfilePropertyConverter.cs:43 | the sort order is total |
| ProfileConverter.PrecedesTrans | UncrustifyVs/ProfilePropertyConverter.cs:43 | the sort order is transitive |
| ProfileConverter.Insert | UncrustifyVs/ProfilePropertyConverter.cs:43 | inserting into a sorted list gives a sorted list with one more copy of the name |
| ProfileConverter.SortNames | UncrustifyVs/ProfilePropertyConverter.cs:42-43 | `List.Sort`: the result is sorted and a permutation of the names |
| ProfileConverter.GetStandardValues | UncrustifyVs/ProfilePropertyConverter.cs:17-47 | the list is the action entries, then the registry's names sorted, as a permutation; in a valid registry no name entry is also an action entry |
| ProfileConverter.AcceptedAreNotActions | UncrustifyVs/Profiles.cs:123-127 | no accepted name, in any order, is an action entry |
| ProfileConverter.StandardValuesLength | UncrustifyVs/ProfilePropertyConverter.cs:20-44 | the list holds 4 entries (7 when the active profile may be modified) plus one per profile |
| SettingText.ParseLanguageName | UncrustifyVs/Profile.cs:155-158 | a filter's written name parses back as that filter, and a text parses as a filter exactly when it trims to that filter's name |
| SettingText.ParseBoolName | UncrustifyVs/Profile.cs:159-170 | a flag's written "True"/"False", in any letter case, parses back as that flag |
| SettingText.BoolTextTrimmed | UncrustifyVs/Profile.cs:93-96 | a flag's text has no surrounding whitespace |
| Text.Trim | UncrustifyVs/Profiles.cs:125 | the result has no whitespace at either end, and a string without it is unchanged |
| Text.IndexOf | UncrustifyVs/Profile.cs:133 | the first position holding the character, or -1 iff it does not occur |
| Text.ReadLine | UncrustifyVs/Profile.cs:113 | None iff the text is empty; otherwise a line without '\r' or '\n' and a strictly shorter rest that is a suffix of the text |
| Text.ReadLineOfLine | UncrustifyVs/Profile.cs:122 | a line followed by '\n' is read back as that line and exactly the text after it |
| Text.ReplaceAllHit | UncrustifyVs/UncrustifyVsPackage.cs:315 | an occurrence at the start is replaced, and the scan resumes after it |
| Text.ReplaceAllAbsent | UncrustifyVs/UncrustifyVsPackage.cs:315-320 | a text without the pattern's first character is left as it is |

## Left out

- The Visual Studio host is not modelled: EnvDTE documents, selections,
  panes, the status bar, services, menu commands and event subscription.
  The caret codec works on the document text as a string, and restoration
  on the integers handed to `MoveToAbsoluteOffset`/`MoveToLineAndOffset`.
- Running Uncrustify (`Process.Start`), the temporary file, and the
  catch-all exception handling of `UncrustifyDocument` are not modelled.
  `UncrustifyDocument`'s success result (Uncrustify ran and its output was
  written back, even when it equals the old text) is the parameter
  `formats` of `DocumentSaved`.
- The dialogs are not modelled: the action branches of `ActiveProfileName`,
  `CreateNewProfileDialog`, import and export. `EnumDescriptionConverter`
  is not part of this model, since it is reflection over attributes.
- `char.IsWhiteSpace`, `char.IsControl`, `Trim` and `ToLowerInvariant` are
  written out for the code units that matter. Lower-casing covers ASCII
  letters only. `bool.TryParse` compares case-insensitively over ASCII;
  the NUL characters it also trims are not trimmed, so a flag value such as
  "True" followed by NUL reads as false in the model.
  `Enum.TryParse` accepts the members' exact names with surrounding
  whitespace trimmed; its numeric and comma-separated forms are left out.
- ProfileConverter.Precedes: `List<string>.Sort` compares with the current
  culture; the model uses ordinal order, which is total and transitive. The
  in-place sort is modelled on a sequence. Only "sorted and a permutation"
  is stated, not the culture's order.
- ProfileRegistry.Registry: `Profiles` is a static class; the model keeps
  its state in one instance. The extension table of the package is static
  too, so constructing the package twice would make `Dictionary.Add`
  throw; the model gives each package its own table.
- ProfileRegistry.Registry.Rename and ProfileRegistry.Registry.Delete keep
  the invariant only as `old(Valid()) ==> Valid()`. The source keeps no
  stated invariant either.
- OptionsPage.GetSerializeProfiles requires an active profile; the source
  throws a `NullReferenceException` without one.
- OptionsPage.SetSerializeProfiles uses the corrected header step
  (`SplitHeader`). The step as written is `SplitHeaderAsWritten`; see
  Findings.
- ProfileModel.SkipToOpen, ProfileModel.ReadFields and
  ProfileModel.ParseProfile state only that the rest is shorter than the
  input, not that it is a suffix. The round trip (`ParseRoundTrip`) pins
  down the exact rest for written blocks.
- The round trip needs a non-empty command line. An empty one is written
  as the bare line "CmdLine", which the reader skips, so the default
  command line comes back.
- CaretAnchor.Decode: the source's empty fingerprint yields the start
  point, which is offset 1 in the 1-based offsets used here.
- CaretAnchor.DecodeRoundTrip: a caret directly after '\n' lands one
  character earlier, at the end of the previous line. This follows the
  code's final decrement.
- The decoded offset is not invariant under '\r' in the new text, and no
  such invariance is claimed. The final decrement looks only at the last
  character passed: "ab\n" and "ab\n\r" decode the fingerprint "ab  " to
  3 and 4.
- FormatRules.BuildCommandLine: the `Replace` calls are applied one after
  the other, so their order matters (`ReplacementsCascade`).
- FormatRules.FallbackColumn: the fallback column has no lower clamp, and
  the host would reject a column below 1. The model keeps the integer and
  does not model the host's exception.

## Findings

| source | as written | input that shows it | evidently intended | confidence | as-written member | corrected member |
|---|---|---|---|---|---|---|
| UncrustifyVs/OptionsPageGeneral.cs:253 | the guard `parseStr.Length > 0 \|\| parseStr.StartsWith(LastActiveProfileKey)` holds for every non-empty input, so the first 18 characters are always removed | input "x": `Remove(0, 18)` throws; a header-less input of 18 or more characters loses its first 18 characters and the profile blocks in them | remove the header only when the value starts with "LastActiveProfile " | not executed | OptionsPage.SplitHeaderAsWritten, OptionsPage.ShortInputThrows, OptionsPage.HeaderlessInputTruncated | OptionsPage.SplitHeader, OptionsPage.HeaderRoundTrip, OptionsPage.RegistryRoundTrip |
