# Verified models of ai-stp

This project models the parts of ai-stp whose correctness is hard to see from reading them,
and proves what they promise. `dafny verify dfyconfig.toml` checks everything. `Wrappers` and `Sets`
are shared helpers.

**Canonical ZIP transport** (`Ordering`, `Utf8`, `LittleEndian`, `Libraries`, `Text`,
`PortablePaths`, `SafePaths`, `ByteOrder`, `ArchiveNames`, `ZipRecords`, `ZipBytes`, `Archive`,
`ArchiveTransport`). The three record layouts are written out, `ZipBytes` gives every byte of them, and
an explicit reader takes the place of the `zip` crate. `SafePaths` says character by character which
paths are safe, and `ByteOrder` that the order of the program's strings is the order of their UTF-8 bytes.
`Archive` holds the specification (`Encoded`, `Decoded`) and its theorems, `ArchiveTransport` the
operations as the program runs them: running totals, the ordered map of folded names, the growing
buffers. Paths are sequences of Unicode scalar values; case folding, NFC, CRC-32 and the artifact
digest are arbitrary functions in `Libraries`, under the laws stated there.

**Component trees** (`Artifacts`, `TreeRoundTrip`, `TreeSuccess`, `ManifestText`). The manifest is real canonical JSON,
so the round trip goes through the JSON writer and reader below and through the archive above.
`TreeSuccess` says exactly which lists of files can be written, and `ManifestText` what the archive then
holds.

**Canonical JSON** (`Decimal`, `JsonText`, `JsonLaws`, `JsonGrammar`, `Canonical`, `CanonicalBytes`,
`CanonicalForm`, `NormalForms`). Text, syntax tree and value are three levels: escapes, surrogate pairs,
integers, repeated keys and UTF-16 key order are all modelled. An object is a map, so equality of values
ignores member order. Three descriptions stand apart from the code: the grammar of texts (`JsonGrammar`),
the places of a value (`NormalForms`), and the UTF-16 units that order keys (`CanonicalForm`).

**Archive installation** (`Versions`, `Installation`, `InstallationRuns`, `InstallationRules`). A prefix is a class with
its four files and the number of temporary files left behind. Every atomic replacement is two steps
(create, rename), and a run may stop after any number of steps. `InstallationRuns` is the transition
system over all of that: any number of executables of any versions and digests, probing an absent
prefix without its lock and entering later.

**Migrations and tooling** (`RoleFlattening`, `PersonalOrganizations`, `PersonalOwnership`,
`TableConstraints`, `ProjectLifecycle`, `CatalogNames`, `MigrationHead`, `Fences`). Triggers fire row by row, foreign
keys and cascades wait for the end of a statement, deferred triggers for the end of the transaction.

Some properties that the code or its comments suggest are false. Each has a theorem with a concrete
failing input or family of inputs, and a theorem that says when the property does hold:

- The comment that adjacent folded paths expose every shared directory prefix is false for explicit
  directories: directory `a`, file `a-b`, file `A/b` (`ArchiveNames.HiddenSpellingConflict`). The scan
  and one condition on explicit directories are together exactly the pairwise rules
  (`ArchiveNames.AcceptedExactly`); lists of files need no condition.
- An empty list encodes whatever the limits are, but is decoded only if 22 bytes are allowed
  (`Archive.RoundTrip`).
- A pending installation can become impossible to complete: temporary files of interrupted writes are
  never removed, and beyond 64 names every attempt is refused (`InstallationRuns.RecoveryCanBeLost`).
  Recovery works exactly while the inventory fits (`InstallationRuns.Recovery`), so certainly up to 58
  interruptions, which is the best bound.
- A program that found the prefix absent does not read `pending.json` again when it enters, so it can
  replace another program's pending plan (`InstallationRuns.LateEntryReplacesPending`); it does so exactly when
  `InstallationRuns.LateEntryExactly` says.
- A personal organization can be left without its owner, or with a second member, by a transaction
  that changes an organization's id or inserts memberships before their organization
  (`PersonalOwnership.RekeyingLosesTheOwner`, `PersonalOwnership.EarlyMembershipsAreNotChecked`). Exactly
  which row changes break the invariant is `PersonalOwnership.ChangeExactly`; with none of them it holds at
  every commit (`PersonalOwnership.AlwaysOneOwner`).
- A transaction that founds a personal organization and deletes it again is refused, although nothing is
  left to check (`TableConstraints.FoundedAndDeleted`).
- The repair of Official names can hand a freed name to another identity
  (`CatalogNames.FreedNameIsTakenAgain`), exactly as `CatalogNames.RepairTakesNameExactly` says; and a
  numbered candidate can be too wide for its column, which aborts everything, exactly as
  `CatalogNames.AbortsExactly` says.
- A single head does not cover the history when a cycle lies apart from it
  (`MigrationHead.DetachedCycleIsAccepted`); `MigrationHead.HeadCoversExactly` is the exact condition.
- Fences are not those of section 4.5 of CommonMark: four spaces before the run
  (`Fences.DeepFence`), a second word after it (`Fences.TwoWords`) and a backtick after tildes
  (`Fences.BacktickInWord`). `Fences.AgreesExactly` says on which lines the two agree.

## Model

| member | source | states |
|---|---|---|
| `SafePaths.SafePathExactly` | apps/cli/src/archive.rs:41-55 | a path is safe exactly when it is in NFC, of 1 to 1024 bytes, every character of it is allowed, no tilde or separator starts it, every separator stands between characters, no dot or space ends a part, and every part has at most 255 bytes and names no device |
| `SafePaths.DeviceExactly` | apps/cli/src/archive.rs:57-74 | a part names a device exactly when it is one of the reserved names in any case of ASCII letters, alone or followed by a dot and anything |
| `SafePaths.OrdinaryIsSafe` | apps/cli/src/archive.rs:41-55 | every path of up to 1024 ASCII letters, digits, hyphens, underscores and dots is safe if its parts have 1 to 255 characters, do not end in a dot and name no device |
| `SafePaths.SafeBelow` | apps/cli/src/archive.rs:41-55 | a safe path stays safe below an ordinary directory, as long as both have room in 1024 bytes |
| `ByteOrder.TextOrder` | apps/cli/src/artifacts.rs:86 | two paths compare by their characters as their UTF-8 encodings compare: at the first byte that differs, or one is a proper prefix of the other |
| `PortablePaths.FoldSplit` | apps/cli/src/archive.rs:109-110 | folding a whole path and folding its segments agree, because folding neither makes nor removes a separator |
| `PortablePaths.FoldEqualParts` | apps/cli/src/archive.rs:97-110 | two paths have equal folded keys exactly when their segments fold alike one by one |
| `ArchiveNames.ScanPairMeaning` | apps/cli/src/archive.rs:109-116 | walking two paths together finds a differing spelling exactly when some fold-equal segment prefix is spelled differently |
| `ArchiveNames.SharedDirectory` | apps/cli/src/archive.rs:105-119 | in folded order, if neighbours are alike then any two entries, however far apart, spell every shared strict ancestor directory identically |
| `ArchiveNames.AcceptedSharesDirectories` | apps/cli/src/archive.rs:76-130 | in any accepted list, in the order given, two entries that share a case-folded strict ancestor spell it identically |
| `ArchiveNames.NoFileAboveMeaning` | apps/cli/src/archive.rs:120-128 | the walk over parent texts finds a file exactly when a file's folded segments are a proper prefix of the entry's |
| `ArchiveNames.AcceptedExactly` | apps/cli/src/archive.rs:80-128 | the adjacent scan, the ancestor scan and unique folded names, with explicit directories spelled as their contents spell them, are equivalent to the rules over all pairs |
| `ArchiveNames.AcceptedFilesExactly` | apps/cli/src/archive.rs:80-128 | for lists of files the two scans accept exactly the lists that obey the rules over all pairs |
| `ArchiveNames.ClearScanIsComplete` | apps/cli/src/archive.rs:103-119 | the scan alone is exact when no folded name continues a directory's folded name with a character below the separator |
| `ArchiveNames.HiddenSpellingConflict` | apps/cli/src/archive.rs:103-119 | directory `a`, file `a-b`, file `A/b` are accepted although they break the pairwise rules |
| `ArchiveTransport.SpelledAlike` | apps/cli/src/archive.rs:109-116 | the inner loop over segments decides the pair condition |
| `ArchiveTransport.ScanNeighbours` | apps/cli/src/archive.rs:105-119 | the loop over the ordered map compares exactly all neighbours |
| `ArchiveTransport.ParentsAreFree` | apps/cli/src/archive.rs:121-127 | the upward walk succeeds exactly when no text before a separator folds to the name of a file |
| `ArchiveTransport.CheckEntries` | apps/cli/src/archive.rs:77-102 | the first loop accepts exactly the lists whose entries, totals and folded names are within the rules, and leaves the names in folded order |
| `ArchiveTransport.Validate` | apps/cli/src/archive.rs:76-130 | validation succeeds exactly on valid lists |
| `ArchiveTransport.Encode` | apps/cli/src/archive.rs:134-189 | the two growing buffers end as the specified encoding; invalid lists are refused |
| `ArchiveTransport.Decode` | apps/cli/src/archive.rs:191-269 | the result is a list exactly when that list encodes to the payload within the limits; otherwise no list does |
| `ArchiveTransport.ReadChecked` | apps/cli/src/archive.rs:192-264 | footer checks, directory and file loops compute the specified reader, totals included |
| `ZipBytes.LocalBytes` | apps/cli/src/archive.rs:148-159 | every byte of a local record, by its offset: signature, version, flag, stored method, date, sizes, name length, name and contents |
| `ZipBytes.CentralBytes` | apps/cli/src/archive.rs:160-176 | every byte of a central record, by its offset, with the place of the local record and the Unix type and mode |
| `ZipBytes.EndBytes` | apps/cli/src/archive.rs:178-187 | every byte of the footer, by its offset |
| `ZipBytes.FlagOfPath` | apps/cli/src/archive.rs:139-143 | the UTF-8 flag is set exactly when the path is not ASCII |
| `LittleEndian.RecordBack` | apps/cli/src/archive.rs:148-187 | a record of 16-bit and 32-bit little-endian fields is recovered field by field from its bytes |
| `ZipRecords.CentralReadsBack` | apps/cli/src/archive.rs:160-176 | wherever it lies in a file, a central record is read back as what was written, and the reader ends right after it |
| `ZipRecords.LocalReadsBack` | apps/cli/src/archive.rs:148-159 | the contents are found behind a local record that agrees with the central one, checksum included |
| `ZipRecords.EntryReadsBack` | apps/cli/src/archive.rs:225-263 | kind, permissions, name and contents of an entry are recovered from its two records |
| `Archive.EncodedExactly` | apps/cli/src/archive.rs:76-189 | a list is encoded exactly when it has at most 65534 entries and no more than the limit, each is safe, of mode up to 0o777, without contents if a directory, and within the file limit, the contents together and the length of the output itself are within theirs, and the name rules hold |
| `Archive.ExactSize` | apps/cli/src/archive.rs:81-88 | the running total of validation is the length of the encoder's output, for every list |
| `Archive.EntryPlaces` | apps/cli/src/archive.rs:145-177 | entry i's local record starts right after those before it, and the directory record of entry i gives that place |
| `Archive.StoredFields` | apps/cli/src/archive.rs:144-175 | for each entry of a valid list the stored sizes, name length, offset and attributes are the true values, none narrowed, and none is a ZIP64 sentinel (APPNOTE.TXT section 4.4.1.4) |
| `Archive.StoredFooter` | apps/cli/src/archive.rs:178-187 | so are the count, the directory size and the directory offset in the footer |
| `Archive.HiddenIsValid` | apps/cli/src/archive.rs:76-130 | the list with the hidden spelling conflict passes the whole validation |
| `Archive.DirectoryReadsBack` | apps/cli/src/archive.rs:209-215 | reading as many directory records as were written returns them all, for any number of entries |
| `Archive.EntriesReadBack` | apps/cli/src/archive.rs:218-264 | the file loop returns the entries in the order they were written |
| `Archive.DecodedExactly` | apps/cli/src/archive.rs:191-269 | decoding yields a list exactly when the payload is that list's encoding within the archive limit |
| `Archive.EncodedInjective` | apps/cli/src/archive.rs:132-189 | no two lists have the same encoding |
| `Archive.RoundTrip` | apps/cli/src/archive.rs:134-269 | decoding an encoding under the same limits returns the list in order, exactly unless the list is empty and fewer than 22 bytes are allowed |
| `Utf8.DecodeEncode` | apps/cli/src/archive.rs:139-143 | UTF-8 encoding of names and of JSON text is recovered by the strict decoder |
| `Utf8.DecodeExactly` | apps/cli/src/canonical.rs:88-94 | the strict decoder accepts the encodings of texts and no other bytes, neither overlong forms nor surrogates |
| `Artifacts.ParentsUnnamed` | apps/cli/src/artifacts.rs:48-56 | the walk over parents decides whether any ancestor folds to a member's name |
| `Artifacts.Validate` | apps/cli/src/artifacts.rs:31-58 | the two loops over a set of folded names and a running total accept exactly the fitting lists |
| `Artifacts.FitPermutes` | apps/cli/src/artifacts.rs:31-58 | whether a list fits does not depend on its order |
| `Artifacts.ZipStored` | apps/cli/src/artifacts.rs:61-81 | writes the stored archive of a list in the caller's order under the wide limits |
| `Artifacts.EncodeTree` | apps/cli/src/artifacts.rs:83-122 | sorts, writes the manifest, checks the combined size and stores manifest and files |
| `Artifacts.TakeListed` | apps/cli/src/artifacts.rs:156-170 | the loop removes each listed file from the map as it goes, refusing a missing or repeated one |
| `Artifacts.DecodeChecked` | apps/cli/src/artifacts.rs:124-178 | the steps of reading a tree, re-encoding included, compute the specified reader |
| `TreeSuccess.TreeWrittenExactly` | apps/cli/src/artifacts.rs:83-122 | a tree is written exactly when it has at most 1000 files, each with a safe path of up to 1018 bytes without byte-order marks, mode 644 or 755 and at most 4 MiB, the name rules hold for all pairs, the manifest has at most 4 MiB, and all together 32 MiB |
| `TreeSuccess.StoredExactly` | apps/cli/src/artifacts.rs:61-81 | a list is stored exactly when it has at most 2000 files with safe paths, mode 644 or 755 and at most 4 MiB each, 64 MiB of contents, an archive of at most 68 MiB, and keeps the name rules |
| `ManifestText.TreeContents` | apps/cli/src/artifacts.rs:85-121 | the archive of a written tree holds `component.json`, whose text is given character by character, and then the files below `files/` in byte order of their paths |
| `TreeSuccess.ManifestExactly` | apps/cli/src/artifacts.rs:87-101 | the manifest is written exactly when no path holds a byte-order mark and its text is short enough, and is the document in canonical order |
| `TreeSuccess.TreePairwise` | apps/cli/src/artifacts.rs:103-118 | placing the files below `files/`, beside the manifest, neither breaks nor repairs a name rule |
| `TreeRoundTrip.ManifestReadsBack` | apps/cli/src/artifacts.rs:87-97 | the manifest parses to exactly the document it was written from, since safe paths are already in NFC |
| `TreeRoundTrip.PermutationEncodesAlike` | apps/cli/src/artifacts.rs:85-86 | every permutation of the files gives identical bytes, or is equally refused |
| `TreeRoundTrip.TreeReadsBack` | apps/cli/src/artifacts.rs:83-178 | reading whatever was written returns the same files, in byte order of their paths |
| `TreeRoundTrip.DecodedTreeExactly` | apps/cli/src/artifacts.rs:124-178 | a list is read exactly when each path comes before the next in byte order and the list encodes to the payload |
| `TreeRoundTrip.RefusedIsNoTree` | apps/cli/src/artifacts.rs:124-178 | a refused payload is the encoding of no list of files |
| `TreeRoundTrip.TreeBytesDecideEquality` | apps/cli/src/artifacts.rs:83-122 | two lists have the same bytes exactly when they hold the same files |
| `TreeRoundTrip.WrittenTreeIsPortable` | apps/cli/src/artifacts.rs:60-130 | what the tree writer emits is within the reader's tighter limits and obeys the pairwise name rules |
| `TreeRoundTrip.DecodeTree` | apps/cli/src/artifacts.rs:124-178 | the reader as a method: exactly the written trees, in byte order of their paths |
| `JsonText.ReadPrint` | apps/cli/src/canonical.rs:88-94 | reading printed JSON text gives back the syntax tree, order and repetitions of members included |
| `JsonGrammar.ReadExactly` | apps/cli/src/canonical.rs:88-94 | a text is read as a tree exactly when the grammar of RFC 8259, without fractions and exponents, derives the tree from it: every escape, every surrogate pair, and white space at every place |
| `JsonGrammar.PrintedIsShortest` | apps/cli/src/canonical.rs:97-103 | the printed text is one of the texts of its tree, and none of them is shorter |
| `JsonLaws.EscapesAreLowerCase` | apps/cli/src/canonical.rs:97-103 | the escapes that are needed use lower-case digits |
| `Canonical.OrderedIncreasing` | apps/cli/src/canonical.rs:98-102 | object keys come out strictly increasing, by UTF-16 code units for the canonical form |
| `CanonicalForm.UnitsDecode` | apps/cli/src/canonical.rs:96-103 | the code units by which keys are ordered decode, surrogates joined in pairs, to the key |
| `CanonicalForm.UnitsAreShort` | apps/cli/src/canonical.rs:96-103 | every code unit is below 0x10000 |
| `CanonicalForm.SupplementaryFirst` | apps/cli/src/canonical.rs:96-103 | a key that goes on with a character beyond the basic plane comes before one that goes on with a character from U+E000 to U+FFFF (RFC 8785 section 3.2.3) |
| `CanonicalForm.SamePlane` | apps/cli/src/canonical.rs:96-103 | in every other case the smaller character decides |
| `CanonicalForm.CommonStart` | apps/cli/src/canonical.rs:96-103 | and what two keys have in common at their start does not matter |
| `CanonicalForm.RepositoryCase` | apps/cli/src/canonical.rs:119-122 | the object with the keys z, U+10000 and U+E000 has exactly the bytes that the repository expects |
| `Canonical.DecodeObject` | apps/cli/src/canonical.rs:59-70 | the insertion loop over members, with its refusal of repeated normalised keys |
| `Canonical.DecodesNormal` | apps/cli/src/canonical.rs:54-86 | for any order of the members of every object, at every depth, decoding yields the normal form of the value spelled, and fails exactly when there is none |
| `Canonical.DecodesExactly` | apps/cli/src/canonical.rs:54-86 | a tree, with or without repeated keys, decodes to a value exactly when it spells one whose normal form that is |
| `Canonical.RepeatedKeyIsRefused` | apps/cli/src/canonical.rs:63-68 | a key repeated in any object, however deep, makes the whole text refused |
| `NormalForms.NormalExists` | apps/cli/src/canonical.rs:17-86 | a value has a normal form exactly when at every place of it, at most 128 deep, an integer is within 9007199254740991, a text and a key hold no byte-order mark, and no two keys of one object have the same NFC |
| `NormalForms.NormalAt` | apps/cli/src/canonical.rs:17-86 | at every place of the normal form stands what stood there, texts and keys in NFC, and nothing is added |
| `NormalForms.BytesExist` | apps/cli/src/canonical.rs:88-104 | canonical bytes exist exactly for such values whose text has at most 16 MiB |
| `NormalForms.ParsedExactly` | apps/cli/src/canonical.rs:88-94 | bytes are parsed to a value exactly when they are at most 16 MiB and the UTF-8 of a text from which the grammar derives a tree that spells, no key repeated, a value with that normal form |
| `CanonicalBytes.ParseOfText` | apps/cli/src/canonical.rs:88-94 | parsing the printed text of any spelling of a value yields its normal form |
| `CanonicalBytes.ParseExactly` | apps/cli/src/canonical.rs:87-94 | bytes are parsed to a value exactly when they are within the bound, are UTF-8 and JSON, and spell a value whose normal form that is |
| `CanonicalBytes.SerializeInjective` | apps/cli/src/canonical.rs:97-102 | different values have different bytes, in either key order |
| `CanonicalBytes.BytesMeaning` | apps/cli/src/canonical.rs:97-102 | canonical bytes exist exactly for values with a normal form and a short enough text, and are that normal form written in canonical order |
| `CanonicalBytes.BytesDecideEquality` | apps/cli/src/canonical.rs:96-102 | canonical bytes are equal exactly when the normal forms are equal as unordered objects |
| `CanonicalBytes.NormalStays` | apps/cli/src/canonical.rs:22-27 | normalising a normal form changes nothing |
| `CanonicalBytes.BytesFixedPoint` | apps/cli/src/canonical.rs:88-102 | within the size bound, parsing canonical bytes gives the normal form, and writing that gives the same bytes |
| `Versions.ParseExactly` | apps/cli/src/distribution.rs:62-77 | a string is accepted with a given result exactly when it is three 64-bit numbers set apart by dots, followed by nothing or by a positive preview number |
| `Versions.AtMostExactly` | apps/cli/src/distribution.rs:62-77 | versions compare by major, then minor, then patch, then preview number |
| `Versions.NumberExactly` | apps/cli/src/distribution.rs:67-73 | a number is decimal digits, perhaps after a plus sign, below 2 to the 64th |
| `Versions.PreviewBeforeRelease` | apps/cli/src/distribution.rs:63-67 | every preview of a release comes before it |
| `Versions.AtMostTotal` | apps/cli/src/distribution.rs:62-77 | any two versions can be compared, and equal ranks mean equal tuples |
| `Installation.Prefix.Atomic` | apps/cli/src/files/owned.rs:280-311 | one replacement is all or nothing for its file, and a stop in between leaves one temporary file |
| `Installation.Prefix.PerformAll` | apps/cli/src/distribution.rs:328-362 | the writes happen in order until the run stops |
| `Installation.Prefix.InstallPlan` | apps/cli/src/distribution.rs:302-363 | the checks under the lock, and then exactly the specified writes |
| `Installation.Prefix.ApplyPlan` | apps/cli/src/distribution.rs:255-364 | admission, replay, resumption and installation on an owned prefix, with the whole new state |
| `InstallationRuns.ReachableIsSafe` | apps/cli/src/distribution.rs:273-363 | in every reachable state: without a pending plan binary, record and receipt agree; with one, binary and record are (expected, expected), (release, expected) or (release, release) |
| `InstallationRuns.StatusMeaning` | apps/cli/src/distribution.rs:229-253 | in reachable states the reported state says exactly whether a plan is pending or a release is installed, and a mismatch only occurs while pending |
| `InstallationRuns.Recovery` | apps/cli/src/distribution.rs:273-363 | from every reachable state with a pending plan, the matching executable run to its end completes it exactly when the inventory fits, and otherwise changes nothing |
| `InstallationRuns.FewInterruptionsRecover` | apps/cli/src/distribution.rs:115-141 | after at most 58 interruptions in all, the inventory fits |
| `InstallationRuns.FiftyNineCanLose` | apps/cli/src/distribution.rs:115-141 | 58 is the best bound: after 59 interruptions of a reinstallation it may not fit |
| `InstallationRuns.StuckForever` | apps/cli/src/distribution.rs:115-141 | beyond the inventory bound no further run of any program changes the files |
| `InstallationRuns.RecoveryCanBeLost` | apps/cli/src/distribution.rs:115-141 | a reachable history with a pending plan that nothing can complete any more |
| `InstallationRuns.OnlyItsCompletionEndsAPlan` | apps/cli/src/distribution.rs:187-193 | while a plan is pending it stays pending until a step of that very plan completes it, provided no program with another plan waits from before the prefix existed |
| `InstallationRuns.NextKeepsPending` | apps/cli/src/distribution.rs:274-278 | under the same proviso, a step of any other plan is refused and changes nothing |
| `InstallationRuns.LateEntryExactly` | apps/cli/src/distribution.rs:273-300 | a program that found the prefix absent leaves another plan's pending file in place exactly when its checks fail or it stops before its first rename |
| `InstallationRuns.LateEntryReplacesPending` | apps/cli/src/distribution.rs:298-301 | two programs on an absent prefix can end with the second plan's pending file replaced |
| `InstallationRuns.NeverDowngrades` | apps/cli/src/distribution.rs:263-268 | between any two moments of a run the recorded version never goes down, by major first, then minor, patch and preview, and a record never vanishes |
| `InstallationRuns.NoLostUpdate` | apps/cli/src/distribution.rs:308-316 | a plan made for another record, and not pending itself, changes none of the four files |
| `InstallationRuns.OutdatedPlansChangeNothing` | apps/cli/src/distribution.rs:308-316 | nor does any run made of such plans alone |
| `InstallationRuns.ReplayChangesNothing` | apps/cli/src/distribution.rs:280-291 | after completion, applying the same plan again at any time returns the same receipt and changes nothing |
| `InstallationRuns.PlansWork` | apps/cli/src/distribution.rs:171-227 | a plan made on an owned prefix and applied to it in time is carried out |
| `InstallationRuns.FirstPlansWork` | apps/cli/src/distribution.rs:171-227 | a plan made for an absent prefix, looked at in time and then entered, is carried out |
| `InstallationRules.PlannedExactly` | apps/cli/src/distribution.rs:171-227 | a plan is made exactly by a program outside the prefix, for a prefix within its inventory, without a pending plan, whose binary is the recorded one, if the record is no newer and of the same platform; and what the plan says |
| `InstallationRules.AppliedExactly` | apps/cli/src/distribution.rs:255-364 | on a settled prefix a new plan is carried out exactly when it is the approved one, not expired, and the very plan that the program would have made for the prefix as it is |
| `InstallationRules.StopsExactly` | apps/cli/src/distribution.rs:328-363 | a run that stops after any number of steps has replaced pending plan, binary, record and receipt in this order and then removed the pending plan, and left one temporary file if it stopped inside a replacement; the receipt names the approved digest, the place and the release |
| `InstallationRules.ResumedStopsExactly` | apps/cli/src/distribution.rs:302-363 | a resumed run whose binary is in place writes only record and receipt and removes the plan |
| `InstallationRules.ReplayedExactly` | apps/cli/src/distribution.rs:280-291 | a plan carried out before is answered with its receipt at any time, and nothing changes |
| `InstallationRules.UnapprovedIsRefused` | apps/cli/src/distribution.rs:260 | a plan whose digest is not the approved one changes nothing |
| `InstallationRules.AlteredIsRefused` | apps/cli/src/distribution.rs:261-262 | nor does one for another place or with another expiry |
| `InstallationRules.ExpiredIsRefused` | apps/cli/src/distribution.rs:292-296 | nor does one outside its quarter of an hour, unless it is pending or carried out already |
| `InstallationRules.OtherProgramIsRefused` | apps/cli/src/distribution.rs:263-265 | nor does a program of another version or platform |
| `RoleFlattening.NextRowsMeaning` | migrations/versions/0114_corporate_role_flat.py:42-52 | one round of the recursive term yields exactly the walks that are one parent longer and repeat no role |
| `RoleFlattening.WalkIsShort` | migrations/versions/0114_corporate_role_flat.py:27-29 | a walk never has more rounds than there are roles, so the query terminates on cycles |
| `RoleFlattening.WalkTo` | migrations/versions/0114_corporate_role_flat.py:33-53 | every transitive ancestor lies at the end of a walk without repetition |
| `RoleFlattening.Walk` | migrations/versions/0114_corporate_role_flat.py:33-53 | the rounds terminate, and their rows pair each role with exactly its transitive ancestors, cyclic and missing parents included |
| `RoleFlattening.RoleTables.Upgrade` | migrations/versions/0114_corporate_role_flat.py:26-64 | afterwards no role has a parent, and each role's own rows, and what it inherits, are exactly what it inherited before |
| `PersonalOrganizations.Database.ValidatePersonalMembership` | migrations/versions/0061_organization_identity_invariants.py:42-65 | the membership trigger decides the specified condition |
| `PersonalOrganizations.Database.ChangeOrganization` | migrations/versions/0061_organization_identity_invariants.py:16-39 | row changes of organizations, with immutable kind and personal owner, shape, id and uniqueness constraints |
| `PersonalOrganizations.Database.ChangeMember` | migrations/versions/0063_corporate_core.py:320-338 | row changes of memberships, with the immutable tenant, the personal checks, and the refusal to delete a personal owner |
| `PersonalOrganizations.Database.Settle` | migrations/versions/0058_b2b00_context_and_project_links.py:54-58 | the end of a statement: cascades under the delete trigger, then foreign keys |
| `PersonalOrganizations.Database.Transaction` | migrations/versions/0062_organization_shape_invariants.py:31-57 | statements in turn, the deferred owner check at the end, and rollback as a whole |
| `TableConstraints.TenantStays` | migrations/versions/0063_corporate_core.py:320-338 | a changed membership names the organization that it named before |
| `TableConstraints.UpdatesKeepSizes` | migrations/versions/0063_corporate_core.py:320-338 | a transaction that neither inserts nor deletes leaves every organization, of either kind, as many memberships as it had |
| `TableConstraints.ChangedExactly` | migrations/versions/0061_organization_identity_invariants.py:16-93 | on tables that obey their constraints a row change is let through exactly when its row is absent, or its key is free, the triggers allow it and the tables that it leaves obey them again |
| `TableConstraints.CommitsStayLegal` | migrations/versions/0058_b2b00_context_and_project_links.py:22-66 | every commit leaves all constraints and references intact |
| `TableConstraints.FoundingCommits` | migrations/versions/0062_organization_shape_invariants.py:31-57 | an account without a personal organization can always found one, and this is what the tables hold then |
| `TableConstraints.ImmediateFoundingFails` | migrations/versions/0062_organization_shape_invariants.py:31-57 | but never while the owner check is immediate |
| `TableConstraints.DeferredAgain` | migrations/versions/0062_organization_shape_invariants.py:31-57 | making the check immediate and deferring it again leaves a transaction as it was |
| `TableConstraints.FoundedAndDeleted` | migrations/versions/0062_organization_shape_invariants.py:31-57 | founding an organization and deleting it again in one transaction is refused while the owner check is deferred, because the check is made for the inserted row, and leaves no trace when it is immediate |
| `TableConstraints.OrganizationDeletes` | migrations/versions/0058_b2b00_context_and_project_links.py:54 | deleting an organization takes its memberships along and nothing else |
| `TableConstraints.AccountDeletes` | migrations/versions/0058_b2b00_context_and_project_links.py:31-55 | an account is deleted exactly when no organization has it as owner and no personal one as member, and its memberships go along |
| `PersonalOwnership.ChangeExactly` | migrations/versions/0061_organization_identity_invariants.py:18-93 | a row change keeps the invariant (personal memberships are their owner's, at most one each, and an organization without one awaits its check) exactly unless it puts a personal organization under an id that other memberships name, or moves one to an id with neither a membership nor a waiting check |
| `PersonalOwnership.TransactionExactly` | migrations/versions/0062_organization_shape_invariants.py:31-57 | the invariant holds at every point of a transaction exactly when each of its row changes keeps it; ends of statements never break it |
| `PersonalOwnership.CommitExactly` | migrations/versions/0062_organization_shape_invariants.py:31-57 | at a commit each personal organization has exactly one membership, its owner's, exactly when the invariant holds |
| `PersonalOwnership.CommitKeepsGood` | migrations/versions/0062_organization_shape_invariants.py:31-57 | a transaction whose changes keep the invariant and that commits leaves each personal organization exactly one membership, its owner's, with role owner and active |
| `PersonalOwnership.AlwaysOneOwner` | migrations/versions/0061_organization_identity_invariants.py:18-93 | so does any number of such transactions, refused ones included |
| `PersonalOwnership.OrderlyIsKeeping` | migrations/versions/0061_organization_identity_invariants.py:18-93 | every transaction that leaves organization ids alone and inserts no organization after its memberships or its own deletion is of this kind, whatever the tables hold |
| `PersonalOwnership.RekeyingLosesTheOwner` | migrations/versions/0062_organization_shape_invariants.py:31-57 | for all ids, a transaction that changes an organization's id commits with a personal organization that has no membership |
| `PersonalOwnership.EarlyMembershipsAreNotChecked` | migrations/versions/0061_organization_identity_invariants.py:46-60 | for all ids and accounts, a statement that inserts memberships before their organization commits with a second member |
| `ProjectLifecycle.ProjectTable.FireTrigger` | migrations/versions/0068_retained_project_lifecycle.py:37-57 | the assignments of the trigger, one after the other, compute the specified row |
| `ProjectLifecycle.ProjectTable.Write` | migrations/versions/0068_retained_project_lifecycle.py:59-61 | a write stores the triggered row or changes nothing, and keeps every row within the constraints |
| `ProjectLifecycle.FitsExactly` | migrations/versions/0068_retained_project_lifecycle.py:14-18 | a column of 16 characters takes a longer text exactly when only blanks are beyond |
| `ProjectLifecycle.RefusedExactly` | migrations/versions/0068_retained_project_lifecycle.py:28-57 | exactly which writes are refused: a text too wide for its column, a state alone on a deleted row, a lifecycle that is not allowed, a restore value that is not allowed and not replaced; a stored row has the lifecycle asked for and its projection, so no write is refused for what its state says |
| `ProjectLifecycle.RetiredRemembers` | migrations/versions/0068_retained_project_lifecycle.py:50-53 | a retired row's restore value is the last live lifecycle it held, or the default, unless somebody sets another while the row stays retired; what is set before or in the retiring write does not matter |
| `ProjectLifecycle.DeletedStays` | migrations/versions/0068_retained_project_lifecycle.py:43-49 | no sequence of writes that leave the lifecycle alone revives a deleted row |
| `ProjectLifecycle.RevivedExactly` | migrations/versions/0068_retained_project_lifecycle.py:43-49 | a write revives a deleted row exactly when it names another valid lifecycle |
| `ProjectLifecycle.RetireRestore` | migrations/versions/0068_retained_project_lifecycle.py:37-57 | retiring a live row, any writes that keep it retired and set no other restore value, and restoring it bring back the lifecycle and the state it had |
| `ProjectLifecycle.MigratesExactly` | migrations/versions/0068_retained_project_lifecycle.py:19-36 | the backfill satisfies the new constraints exactly when every project has its remote identity, and keeps each state except that of deleted projects |
| `CatalogNames.CollisionsInOrder` | migrations/versions/0046_repair_official_canonical_collisions.py:32-44 | the rounds come in the order of the sources |
| `CatalogNames.CollisionsOfOne` | migrations/versions/0046_repair_official_canonical_collisions.py:32-44 | a source has one round if a foreign identity holds its name, and none otherwise |
| `CatalogNames.SuffixOfEnd` | migrations/versions/0046_repair_official_canonical_collisions.py:46-51 | the suffix is the last eight letters and digits of the identity, in lower case, whatever stands before them |
| `CatalogNames.CandidateForms` | migrations/versions/0046_repair_official_canonical_collisions.py:50-60 | the first candidate is cut at 80 characters, and the name in a numbered one at 70 |
| `Decimal.DigitsOf1024` | migrations/versions/0046_repair_official_canonical_collisions.py:58-59 | numbers are written in decimal, the highest digit first |
| `CatalogNames.CandidatesDiffer` | migrations/versions/0046_repair_official_canonical_collisions.py:58-60 | distinct serials give distinct candidates |
| `CatalogNames.SomeCandidateIsFree` | migrations/versions/0046_repair_official_canonical_collisions.py:52-61 | among one more candidates than there are names, one is free |
| `CatalogNames.CatalogTable.FreeName` | migrations/versions/0046_repair_official_canonical_collisions.py:50-61 | the search loop terminates at the first free candidate |
| `CatalogNames.CatalogTable.Upgrade` | migrations/versions/0046_repair_official_canonical_collisions.py:32-66 | all collisions are repaired in turn, or nothing is; names stay pairwise distinct |
| `CatalogNames.RepairKeepsNamesDistinct` | migrations/versions/0046_repair_official_canonical_collisions.py:32-66 | every round keeps all canonical names pairwise distinct and every identity in place |
| `CatalogNames.RepairedIdentity` | migrations/versions/0046_repair_official_canonical_collisions.py:45-66 | owners stay, identities without a collision stay, and every other ends, in both its spellings, on a candidate of one of its own collisions |
| `CatalogNames.FirstFreeThen` | migrations/versions/0046_repair_official_canonical_collisions.py:50-61 | which candidate a round ends at, from the catalog before the repair alone: the first that neither stays where it was nor is where an earlier round, the last for its identity, ended |
| `CatalogNames.EndsWhenApart` | migrations/versions/0046_repair_official_canonical_collisions.py:50-61 | where earlier rounds share no candidate with this one, the first that is not held by an identity they leave alone |
| `CatalogNames.RepairFreesExactly` | migrations/versions/0046_repair_official_canonical_collisions.py:20-21 | every name that an active source needs is freed exactly when no identity's last round ends at such a name of a foreign source |
| `CatalogNames.RepairTakesNameExactly` | migrations/versions/0046_repair_official_canonical_collisions.py:32-66 | afterwards another identity holds an active source's name exactly when its last round ends at that name, as read off the catalog before the repair |
| `CatalogNames.FreedNameIsTakenAgain` | migrations/versions/0046_repair_official_canonical_collisions.py:32-66 | two sources where the name freed for the first is taken in the second's round |
| `CatalogNames.LongNameAborts` | migrations/versions/0046_repair_official_canonical_collisions.py:58-65 | a single collision aborts the repair exactly when its first candidate is taken and the first free one exceeds the column; with 70 characters and a full suffix, exactly when the first is taken |
| `CatalogNames.AbortsExactly` | migrations/versions/0046_repair_official_canonical_collisions.py:45-66 | the repair is aborted exactly when some round is, in the catalog it finds |
| `CatalogNames.AbortsExactlyAtFirst` | migrations/versions/0046_repair_official_canonical_collisions.py:45-66 | the same condition read off the catalog before the repair |
| `MigrationHead.Collect` | deploy/verify_public.py:78-93 | the loop over the files refuses exactly unreadable and repeated revisions, and gathers all revisions and all parents |
| `MigrationHead.Head` | deploy/verify_public.py:76-100 | a revision is returned exactly when revisions are unique, parents exist, and it is the only one that is nobody's parent |
| `MigrationHead.SkippedExactly` | deploy/verify_public.py:81-82 | a file is skipped exactly when its name starts with two underscores |
| `MigrationHead.ReadableExactly` | deploy/verify_public.py:60-87 | a file is readable exactly when its revision is a nonempty string and its parent is a string, none, or a tuple of nonempty strings |
| `MigrationHead.ParentsExactly` | deploy/verify_public.py:80-93 | which parents a file names: one, the members of a tuple, or none |
| `MigrationHead.MergeIsHead` | deploy/verify_public.py:80-100 | of a root, two revisions on it and the tuple that merges these, under any four names, the merge is the head |
| `MigrationHead.HeadIsOnlyHead` | deploy/verify_public.py:94-100 | the returned revision is the only childless one of the history that the files describe |
| `MigrationHead.HeadCoversExactly` | deploy/verify_public.py:76-100 | every other revision is an ancestor of the head exactly when every revision on a cycle is |
| `MigrationHead.AcyclicHeadCovers` | deploy/verify_public.py:76-100 | in an acyclic history every other revision is an ancestor of the head |
| `MigrationHead.GraphDescribes` | deploy/verify_public.py:78-93 | readable files with unique revisions describe a history, each revision with the parents its file names |
| `MigrationHead.HeadOfFilesCovers` | deploy/verify_public.py:76-100 | of the files alone: the revision returned covers the history exactly when it covers every cycle, and always when there is none |
| `MigrationHead.DetachedCycleIsAccepted` | deploy/verify_public.py:94-100 | three files with a cycle apart from the head are accepted |
| `Fences.ClassesExactly` | docs_scripts/docs_lint.py:94 | the character classes of the pattern, character by character |
| `Fences.MatchExactly` | docs_scripts/docs_lint.py:94 | the direct matcher succeeds exactly on the lines that the regular expression matches with some choice of groups |
| `Fences.GreedyMatch` | docs_scripts/docs_lint.py:94 | and returns the run and the word of the choice whose groups reach as far as they can |
| `Fences.IterFences` | docs_scripts/docs_lint.py:631-655 | the nested loops yield the specified blocks |
| `Fences.IterLinesOutsideFences` | docs_scripts/docs_lint.py:658-671 | the loop over a remembered marker yields the specified lines |
| `Fences.BlocksWellFenced` | docs_scripts/docs_lint.py:637-654 | each block is an opening fence, the lines up to the first that closes it, and that line unless the text ends before |
| `Fences.OneBlockPerLine` | docs_scripts/docs_lint.py:631-655 | no line belongs to two blocks, and every fence line belongs to one |
| `Fences.ScannersAgree` | docs_scripts/docs_lint.py:631-671 | the second scanner yields exactly the lines outside all blocks of the first, with their numbers, unclosed fences included |
| `Fences.OutsideInOrder` | docs_scripts/docs_lint.py:661-671 | the lines come out in increasing order of their numbers |
| `Fences.MatchOpensCommonMark` | docs_scripts/docs_lint.py:94 | a fence line of the scanners opens a block in section 4.5 of CommonMark exactly when it is indented by no tab and at most three spaces |
| `Fences.CommonMarkFenceMatches` | docs_scripts/docs_lint.py:94 | an opening fence of that section is one for the scanners exactly when at most one word, without backticks, follows the run; both then see the same run |
| `Fences.AgreesExactly` | docs_scripts/docs_lint.py:94 | a line on which the two disagree differs in exactly one of these two ways |
| `Fences.ClosesExactly` | docs_scripts/docs_lint.py:644-651 | a line closes a block for both exactly when it does for the scanners and is so indented |
| `Fences.SecondWordIsNoFence` | docs_scripts/docs_lint.py:94 | a run followed by two words, whatever the indentation and the blanks between, is not a fence line |

## Left out

- The `zip` crate is not part of this model: names in code page 437, ZIP64 records and the search for
  the footer are missing from the reader. The comparison with the re-encoded payload refuses every
  file that uses them, so the decoder's result is the same.
- The `unicase`, `unicode-normalization`, `crc32fast`, `serde_json` and canonicalizer crates and SHA-256
  are functions under the laws of `Libraries`, which can be met together (`LawsAreConsistent`); folding is
  character by character.
- Fractions and exponents in JSON: a number token with `.`, `e` or `E` is refused by the model, where the
  program keeps a floating-point number. `1e16` prints as a bare integer that parsing refuses, so the
  fixed point does not extend to them.
- Native order of `serde_json` maps is taken as byte order; the theorems hold for either order.
- Archive: the input order and the limits are arbitrary, errors carry no detail, and memory use is not
  modelled.
- Installation: permissions of the binary, symbolic links, lock timeouts, physical identity of
  directories and clock text are not modelled; times are numbers, and a failing system call is a run
  that stops there. A binary is known by its digest. The creation of the owner file is one step.
- Installation: `revalidate` and the parent identity are taken to hold; a refusal by them is a run that
  stops before its first write.
- InstallationRuns.OnlyItsCompletionEndsAPlan: requires that no program with another plan waits from
  before the prefix existed, because otherwise the statement is false (`LateEntryReplacesPending`).
- Role flattening: column types and the downgrade, which does not restore edges.
- PersonalOwnership.AlwaysOneOwner: transactions run one after the other. Interleaved transactions are not
  modelled: a membership whose organization is committed between its trigger and its foreign-key check is
  the early membership of `EarlyMembershipsAreNotChecked`. The condition is on each change in the tables it
  finds; a transaction may break the invariant and repair it before it commits (`CommitExactly`).
- Personal organizations: display names, revisions, timestamps, suspension of organizations and row-level
  security, which leaves rows of personal organizations visible. Foreign keys are checked on the tables
  as the statement leaves them, which admits at least what the database admits.
- Catalog names: row locks, and the width of `serial`, which would need more than two thousand million
  names. `lower` is ASCII, since the suffix is alphanumeric. A collision that appears twice is repaired
  twice.
- Migration head: parsing of Python source is not modelled; a file is the two literals it assigns.
- Fences: reading files, and the rules of the linter that use the scanners.
- The downgrades of all migrations, and the remaining migrations, scripts and applications of the
  repository: they would only add easy members.
