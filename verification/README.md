# A verified model of the `num` command line tool

`num-cli` packages, locks, publishes and migrates programs of the `num` language. This project
models the algorithms it does that with, in Dafny, and proves what they are for. Each file holds one module.

`dafny verify dfyconfig.toml` checks everything.

## What is modelled

**Content hashes** (`Sha256Standard`, `Sha256Constants`, `Sha256Vector`, `Integrity`). The hash class with its block
buffer, bit counter and two padding branches computes SHA-256 as sections 5.1.1, 5.2.1 and 6.2.2 of FIPS 180-4
define it, however the input is cut into `update` calls; its constants are the roots of primes that sections
4.2.2 and 5.3.3 ask for, and `abc` has the digest of the standard's test vector. The bit counter is the
program's wrapping 64-bit one, so the theorem holds for every length; the standard itself stops below 2^61
bytes.

**The lockfile** (`Packages`, `Reachability`, `Order`, `LockGraph`, `Requirements`, `LockWalk`, `Lockfile`,
`LockText`, `LockExtras`, `TomlText`, `PinWalk`, `PinRequirements`, `LockCheck`, `FreshLock`, `CompileWalk`).
Three walks over one dependency graph, which may have cycles: one writes lock entries, one collects the
registry pins to check, one decides what is compiled. Each remembers something different (a key without the
root directory, a name and version, a root directory). Each is proved against a definition that mentions no
walk, and the three are then proved to agree, through the printer and the hand-written reader of the lockfile.
The world outside (manifests found by following a dependency, registries, git heads, canonical paths, source
files) is a record of functions.

**Lockfile and manifest migration** (`LockMigration`, `ManifestText`, `ManifestMigration`, `ManifestPlan`,
`ManifestPlanner`). Edits on lines of text, proved against what the readers make of the text before and after.

**Sanitizer packs** (`SanitizerPacks`, `SanitizerPolicies`). The recursive resolution with its `resolving` set
succeeds exactly on packs whose chains of parents have no cycle, known ends and usable settings, and yields
the strictest of all that the pack extends.

**Type expressions** (`TypeExprs`, `TypeScriptTypes`, `WrapperUse`, `TypeScriptText`, `TypeScriptOrder`,
`JavaTypes`, `TypeForms`). The printer and the depth- and string-aware parser round-trip; what the TypeScript
form mentions, as a tree and as emitted text, is declared; the Java form has no generics over primitives.

**The registry** (`Versions`, `Utf8`, `PackageDigest`, `FileTree`, `RegistryMetadata`, `Placement`,
`PlainNames`, `PackageCopy`, `LocalRegistry`, `Routes`). SemVer 2.0.0 precedence; the package digest;
collecting, publishing, resolving and installing over a file tree; the remote routes.

**Names, sources and OpenAPI** (`Names`, `SourceModules`, `RateLimits`, `OpenApi`). Squeezing names, inserting
`module` lines, respelling `rate_limit`, and merging `allOf` members.

## What the proofs found

Where a property one would expect is false of the code, the code is modelled as it is, and the exact condition
is proved.

- A lockfile field without a line break reads back as written if and only if it holds no `#`, `"` or backslash
  (`LockText.FieldRoundTrip`); git entries, whose source holds `#rev:`, do not (`FreshLock.GitSourceIsCut`).
- A lockfile just written can fail its own check when two registries give one needed version different hashes:
  only the greatest hash under a name and version is found, and, where names determine packages, the check
  passes exactly if each needed pin has it (`FreshLock.WriteThenValidate`, `FreshLock.FreshLockRecords`,
  `FreshLock.TwoHashesFail`).
- A lockfile whose first `version` line does not parse, such as `version = x`, stays without a schema when it
  is migrated (`LockMigration.PlanLockfileSourceMigration`, `LockMigration.LetterIsNoVersion`).
- Wrapper coverage fails for one family of types, those that emit a program type called `JsonValue` and do not
  hold the name `Json` (`WrapperUse.WrapperCoverage`, `WrapperUse.JsonValueIsNotCovered`).
- The TypeScript and the Java form of a type say the same exactly if it emits no `Url` and no `PhoneNumber`:
  Java makes them strings, TypeScript passes the names on (`TypeForms.FormsSayTheSame`).
- A sanitizer pack cannot switch trimming or the stripping of control characters off, because its policy is
  composed with the default, which has both (`SanitizerPolicies.NothingIsSwitchedOff`). Composing
  `alpha_hyphen` with `email` or `identifier` gives `alpha_hyphen`, which takes letters the other refuses; in
  all other cases a stricter class allows no more (`SanitizerPolicies.StricterClassAllowsLess`).
- `index` lists records whose versions tie, such as `1.0.0+a` and `1.0.0+b`, in the order the directories are
  read (`Versions.IndexOrderIsUnique`, `Versions.BuildMetadataTies`).
- More texts parse as versions than sections 9 and 10 of SemVer 2.0.0 allow: exactly those that are, up to the
  first `+`, a version's text or a release's text with a hyphen behind it, whatever follows the `+`
  (`Versions.ParseAccepts`); `1.0.0-`, `1.0.0+` and `1.0.0+!! a` are three
  (`Versions.AcceptedBeyondTheGrammar`).
- A package whose manifest has no name is published under its directory's name, and then does not resolve,
  because its directory in the registry is named after the version
  (`LocalRegistry.DirectoryNameDoesNotResolve`).
- A file name with a backslash does not survive the way through its relative path
  (`FileTree.RelativeLeadsBack`). A package can be read exactly if the text of each path leads to some file
  (`PlainNames.ReadableWhenLed`), and arrives as it was, published or installed where none of its files lies,
  exactly if no name has a backslash and no file is in the way (`PlainNames.ArrivesWhenPlain`); one that holds
  `a\b` never does (`PlainNames.BackslashIsLost`).
- An endpoint with an empty version reads back as the listing of all versions (`Routes.EmptyVersionListsAll`).
- Inserting a `[language]` section takes in settings that stood before the first header
  (`ManifestPlanner.SettingBeforeHeaderIsTaken`), and a default put under `[language]` hides a setting under a
  header such as `[[language]]`, which only the reader takes for `[language]`
  (`ManifestPlanner.DoubledHeaderIsHidden`); `ManifestPlanner.PlanManifestSource` has the exact condition.
- Respelling `rate_limit` fails exactly if some header holds a legacy name at or behind one that a later
  header holds (`RateLimits.ReplaceLegacy`): when a `service` stands inside the header of another
  (`RateLimits.NestedHeadersFail`), and also when a name in a parameter list lies in front of the first one's
  own, as in `workflow w ( service a rate_limit { ) rate_limit {` (`RateLimits.HeaderInParametersFails`).

## Model

| member | source | states |
|---|---|---|
| Integrity.Sha256.constructor | language/crates/num-cli/src/integrity.rs:33-43 | a new hasher has seen no byte |
| Integrity.Sha256.Update | language/crates/num-cli/src/integrity.rs:45-55 | after any calls the buffer holds the unprocessed tail of all bytes fed in, and the state is the hash value after their whole blocks |
| Integrity.Sha256.Finalize | language/crates/num-cli/src/integrity.rs:57-81 | the printed digest is that of the whole message, through either padding branch |
| Integrity.Sha256.CompressPadding | language/crates/num-cli/src/integrity.rs:61-74 | both padding branches complete the message to exactly the standard's padded message |
| Integrity.Sha256.Compress | language/crates/num-cli/src/integrity.rs:83-140 | one compression takes the state to the next hash value of section 6.2.2 |
| Integrity.Sha256.Schedule | language/crates/num-cli/src/integrity.rs:84-99 | the word array is the standard's message schedule of the block |
| Integrity.Sha256.RunRounds | language/crates/num-cli/src/integrity.rs:101-130 | 64 turns of the rolling variables a to h compute the working variables of the standard |
| Sha256Standard.PadIsStandard | language/crates/num-cli/src/integrity.rs:58-74 | a byte string is the padded message exactly if it is the message, a one bit, the fewest zeros that fill whole blocks, and the message's bit length in 64 bits |
| Sha256Constants.RoundConstants | language/crates/num-cli/src/integrity.rs:142-151 | each constant of the rounds holds the first 32 bits of the fraction of the cube root of its prime |
| Sha256Constants.InitialWords | language/crates/num-cli/src/integrity.rs:33-38 | each initial word holds the first 32 bits of the fraction of the square root of its prime |
| Sha256Vector.DigestOfAbc | language/crates/num-cli/src/integrity.rs:158-164 | the digest of `abc` is that of the test vector, by 64 rounds of the definition |
| Sha256Standard.BigEndianHoldsNumber | language/crates/num-cli/src/integrity.rs:72-74 | the length bytes hold exactly the number they stand for |
| Sha256Standard.HashAfterPrefix | language/crates/num-cli/src/integrity.rs:45-55 | bytes that come later do not change the hash value after earlier blocks |
| Sha256Standard.PadLayout | language/crates/num-cli/src/integrity.rs:60-74 | where each byte of the last blocks lies in the padded message |
| Integrity.SumOrder | language/crates/num-cli/src/integrity.rs:95-98 | wrapping sums may be taken in the program's order |
| Integrity.HexWordsDetermineWords | language/crates/num-cli/src/integrity.rs:76-80 | the hexadecimal text of a state determines the state |
| Integrity.HexDigitsSpell | language/crates/num-cli/src/integrity.rs:76-80 | the digits spell the number they are printed for |
| Integrity.HexWordsSpell | language/crates/num-cli/src/integrity.rs:76-80 | each word is printed as eight digits that spell it, in order |
| Integrity.ContentHashDeterminesDigest | language/crates/num-cli/src/integrity.rs:19-23 | two content hashes are equal exactly if the digests are |
| Integrity.BytesHash | language/crates/num-cli/src/integrity.rs:19-23 | the hash of a byte string is `sha256:` and its digest |
| Integrity.ContentHasher.Update | language/crates/num-cli/src/integrity.rs:1-17 | each call appends its bytes to what the hasher has been fed |
| Integrity.ContentHasher.Finish | language/crates/num-cli/src/integrity.rs:1-17 | the result is the content hash of everything fed in |
| Integrity.HashChunks | language/crates/num-cli/src/integrity.rs:45-81 | however a message is cut into calls, its hash is that of the whole |
| LockGraph.CompareEntriesIsTotalPreorder | language/crates/num-cli/src/package.rs:1343-1349 | the order of lock entries ranks all entries |
| LockGraph.DeterminedKeysAreCoherent | language/crates/num-cli/src/package.rs:1029-1034 | if a key determines the manifest, the closure assumption holds |
| LockWalk.LockResolver.ResolveManifest | language/crates/num-cli/src/package.rs:1021-1103 | on every finite graph, cyclic or not, the walk ends with one entry per visited key and every dependency's key visited; it fails only on a reachable target that cannot be resolved |
| LockWalk.LockResolver.AddUnresolved | language/crates/num-cli/src/package.rs:1105-1125 | an unresolved dependency gets one entry under its own key |
| Lockfile.ResolveLockEntries | language/crates/num-cli/src/package.rs:1004-1019 | failure means that something needed is not satisfied: not valid, or with a dependency whose source offers nothing, or a package of another name or version; success lists the workspace and then, strictly sorted, one entry for each key a walk meets, each accounted for by a dependency and its source, and each of a satisfied manifest; if keys determine what they stand for, success means that everything needed is satisfied and that every dependency of anything needed is listed by name and version |
| Requirements.AllSoundIsSatisfied | language/crates/num-cli/src/package.rs:1021-1103 | the graph that is walked resolves exactly if every manifest needed is valid and each of its dependencies is met, by name and version, or open for want of a registry |
| Requirements.FollowSatisfies | language/crates/num-cli/src/package.rs:1305-1321 | following a dependency succeeds exactly if its source offers the package asked for, or if it is open |
| Requirements.ReachedIsRecorded | language/crates/num-cli/src/package.rs:1021-1125 | every entry is the workspace or stands for a dependency of something needed, with its source, its hash and the sorted labels of its own dependencies |
| Requirements.DeclaredIsReached | language/crates/num-cli/src/package.rs:1021-1103 | whatever a needed manifest declares is reached under the name and version declared |
| Lockfile.LockIsUnique | language/crates/num-cli/src/package.rs:1014-1018 | at most one list of entries fits that description, so the order of traversal cannot be seen |
| Lockfile.IdentityDeterminesKey | language/crates/num-cli/src/package.rs:1029-1034 | different keys give entries that differ in name, version, source or hash |
| Lockfile.ReachableIsWellSourced | language/crates/num-cli/src/package.rs:1036-1103 | only what a registry provides has source `registry` and a hash |
| Reachability.WalkMeetsEveryKey | language/crates/num-cli/src/package.rs:1021-1103 | a walk that remembers keys, on a graph whose keys determine successors, meets the key of everything reachable |
| Order.StrictlySortedIsUnique | language/crates/num-cli/src/package.rs:1014-1018 | strictly sorted lists with the same elements are equal |
| Order.SortedIsUnique | language/crates/num-cli/src/registry.rs:539-543 | under a total order, sorting any permutation gives one list |
| LockText.RenderLockEntries | language/crates/num-cli/src/package.rs:1360-1386 | the printed text is the header followed by the lines of each entry |
| LockText.ParseLockfilePackages | language/crates/num-cli/src/package.rs:925-981 | the reader's loop computes the packages that the cleaned lines mean, line by line |
| LockText.FieldRoundTrip | language/crates/num-cli/src/package.rs:1797-1804 | a printed field without a line break reads back as it was exactly if it holds no `#`, `"` or backslash |
| LockText.EntryIsRead | language/crates/num-cli/src/package.rs:925-981 | the lines of one printed entry read as one package with its fields as printed |
| LockText.PrintedEntriesRead | language/crates/num-cli/src/package.rs:925-981 | printed entries read back in order, field by field |
| LockText.LockfileRoundTrip | language/crates/num-cli/src/package.rs:925-981 | reading the printed text returns names, versions, sources and hashes of the entries in order exactly if those fields are plain |
| LockText.OneLineRoundTrip | language/crates/num-cli/src/package.rs:1360-1386 | the same for entries that hold no line break, field by field |
| LockText.PackagesAreOneLine | language/crates/num-cli/src/package.rs:925-981 | nothing the reader returns holds a line break |
| LockExtras.SplitItems | language/crates/num-cli/src/package.rs:1819-1858 | the loop cuts an array at the commas outside strings |
| LockExtras.ArrayRoundTrip | language/crates/num-cli/src/package.rs:1806-1858 | a printed array of plain strings reads back |
| LockExtras.ExtrasReadBack | language/crates/num-cli/src/package.rs:1360-1386 | a printed entry holds language, compatibility and manifest schema under their keys, each only if it has one, and its dependencies in order |
| LockMigration.FindLockfileSchemaLine | language/crates/num-cli/src/package.rs:756-773 | the first `version` line before the packages decides, if it parses |
| LockMigration.InsertSchemaHeader | language/crates/num-cli/src/package.rs:775-782 | the schema line and a blank line go in front of the first package line, or at the end |
| LockMigration.PlanLockfileSourceMigration | language/crates/num-cli/src/package.rs:729-754 | for every source the text is kept character by character, but for the line that declared schema 0 or an inserted one and a blank; the packages read back unchanged; the output has schema 1 and needs no second plan exactly if no unparsable `version` line comes first; newer schemas are refused |
| LockMigration.LetterIsNoVersion | language/crates/num-cli/src/package.rs:756-773 | the lockfile `version = x` begins with a `version` line that does not parse |
| LockMigration.RenderLinesMeaning | language/crates/num-cli/src/package.rs:784-790 | joined lines read the same as the lines, blank lines and line ends apart |
| LockMigration.MarkSeenRaw | language/crates/num-cli/src/package.rs:775-782 | the test for a package line on the raw line agrees with the reader's on the cleaned one |
| LockMigration.UpgradeEdit | language/crates/num-cli/src/package.rs:729-754 | replacing the schema 0 line leaves the packages and makes the schema 1 |
| LockMigration.InsertEdit | language/crates/num-cli/src/package.rs:729-754 | inserting the schema line leaves the packages and sets the schema unless a bad one comes first |
| LockMigration.RenderedIsCurrent | language/crates/num-cli/src/package.rs:1360-1386 | a freshly printed lockfile has the current schema |
| PinWalk.PinCollector.CollectPins | language/crates/num-cli/src/package.rs:885-923 | every dependency that leads to a registry package has its pin taken and its name and version visited, and every pin taken is needed |
| LockCheck.ValidateRegistryPins | language/crates/num-cli/src/package.rs:834-883 | success means that a walk met every dependency it looked at, by name and version, and that the text records every pin it took, which are all pins asked for if names determine packages; failure means that a pin asked for is not recorded or that something looked at is not met |
| LockCheck.PinsAreComplete | language/crates/num-cli/src/package.rs:885-923 | if names determine packages, the walk's pins are all the pins the graph needs |
| PinRequirements.NeededIsWanted | language/crates/num-cli/src/package.rs:885-923 | the pins of the walk's graph are those that registry dependencies ask for, with the hash their registry has |
| PinRequirements.WalkIsPinWalk | language/crates/num-cli/src/package.rs:885-923 | what the walk looked at is met, wants no pin it did not take, and leads to nothing it did not look at under its name and version |
| FreshLock.ReadsAsRegistry | language/crates/num-cli/src/package.rs:925-981 | what reads back with source `registry` was printed with it |
| FreshLock.FreshLockRecords | language/crates/num-cli/src/package.rs:834-883 | the text of the lock records a needed pin exactly if its hash is the greatest of its name and version, hashless duplicates notwithstanding |
| FreshLock.NeedsIsWants | language/crates/num-cli/src/package.rs:834-883 | having the greatest hash is a matter of what dependencies ask of their registries |
| FreshLock.WriteThenValidate | language/crates/num-cli/src/package.rs:621-644 | over a coherent graph with plain fields, writing a lockfile and checking it succeed if everything needed is satisfied and each pin asked for has the greatest hash of its name and version, and, if names determine packages, only then; with one hash per version they succeed exactly when everything needed is satisfied |
| FreshLock.TwoHashesFail | language/crates/num-cli/src/package.rs:834-883 | of two needed pins that differ in the hash alone, one does not have the greatest |
| FreshLock.GitSourceIsCut | language/crates/num-cli/src/package.rs:226-228 | the source text of a git checkout does not read back as written |
| CompileWalk.ResolvedDependencies | language/crates/num-cli/src/package.rs:591-618 | all dependencies of a package sorted by name, exactly if each is met by name and version |
| CompileWalk.PackageLoader.CollectPackageFiles | language/crates/num-cli/src/project.rs:74-92 | each directory's sources are taken once, every dependency's directory is entered, and everything taken is valid, has sources and has its dependencies met; failure means that something reachable has not |
| CompileWalk.CompiledIsLocked | language/crates/num-cli/src/project.rs:74-92 | every package compiled has a lock entry with its name and version |
| CompileWalk.LockedIsCompiled | language/crates/num-cli/src/project.rs:74-92 | if directories determine packages, every locked name and version is compiled |
| CompileWalk.CompileWithLock | language/crates/num-cli/src/project.rs:74-92 | the lock succeeds exactly if everything needed is satisfied; the files are the sources of needed packages, the workspace first, each directory once, closed under requirements, or something needed does not compile; when both succeed they agree on names and versions |
| ManifestText.Parse | language/crates/num-cli/src/package.rs:264-515 | the reader's loop: each language key reads as its last setting under `[language]` or its default, and the other settings are kept in order with their sections |
| ManifestText.LastConcat | language/crates/num-cli/src/package.rs:307-330 | a later setting of a key hides an earlier one, section by section |
| ManifestText.SettingsConcat | language/crates/num-cli/src/package.rs:307-330 | settings of two stretches of lines are read one after the other |
| ManifestMigration.DefaultLineReads | language/crates/num-cli/src/migration.rs:574-594 | an inserted line sets its key to the reader's own default, and does nothing else |
| ManifestMigration.KeysAgree | language/crates/num-cli/src/migration.rs:652-669 | the planner sees a key on a line exactly when the reader sets it there |
| ManifestMigration.FindSection | language/crates/num-cli/src/migration.rs:633-645 | the section is the lines from the first matching header to the next header |
| ManifestMigration.SectionKeys | language/crates/num-cli/src/migration.rs:652-669 | the first entry found for a key is its first line in the section |
| ManifestMigration.ManifestSchemaValueIsClean | language/crates/num-cli/src/migration.rs:671-682 | the schema read off the raw line is the one the reader gets from the cleaned line |
| ManifestPlan.PlannedIsRead | language/crates/num-cli/src/migration.rs:647-650 | a header the planner takes for `[language]` opens that section for the reader |
| ManifestPlan.InsertMeaning | language/crates/num-cli/src/migration.rs:600-602 | defaults under the header give way to later settings and hide earlier ones; other settings read the same |
| ManifestPlan.UpgradeMeaning | language/crates/num-cli/src/migration.rs:584-589 | replacing a schema 0 line changes the schema to 1 unless a later line sets it, and nothing else |
| ManifestPlan.EditKeeps | language/crates/num-cli/src/migration.rs:578-617 | editing the section changes what a key reads as exactly if it hides an earlier setting or upgrades schema 0 |
| ManifestPlan.PrependKeeps | language/crates/num-cli/src/migration.rs:561-576 | a new first section changes what a key reads as exactly if it takes in an earlier setting that nothing hides |
| ManifestPlanner.CurrentAfterEdit | language/crates/num-cli/src/migration.rs:561-617 | an edited section has every key and schema 1 |
| ManifestPlanner.PrependReads | language/crates/num-cli/src/migration.rs:562-576 | the new text reads as the new section followed by the old lines |
| ManifestPlanner.TrailingNewlineReads | language/crates/num-cli/src/migration.rs:688-694 | adding a missing line end changes nothing that is read |
| ManifestPlanner.PlanManifestSource | language/crates/num-cli/src/migration.rs:561-617 | for every manifest: refused exactly on an unreadable or newer schema; the text is kept character by character, with the missing lines right under the header and at most the line replaced that declared schema 0, or in front of it all a new section; the actions reported are the edits needed; all other settings read the same; each language key reads the same exactly if it is not disturbed or upgraded; the result ends in a line end and asks for no further edit |
| ManifestPlanner.SpliceKeepsText | language/crates/num-cli/src/migration.rs:578-621 | the edited text is the old lines with the added ones under the header and the replaced one in its place |
| ManifestPlanner.UsualIsKept | language/crates/num-cli/src/migration.rs:561-617 | with no setting before the first header, and no other header read as `[language]` up to the planner's own, no key is disturbed |
| ManifestPlanner.SettingBeforeHeaderIsTaken | language/crates/num-cli/src/migration.rs:562-576 | a `version` line before every header, in a manifest without `[language]`, is disturbed exactly if no later line sets the version |
| ManifestPlanner.DoubledHeaderIsHidden | language/crates/num-cli/src/migration.rs:578-617 | a `version` line under `[[language]]`, followed by `[language]`, is disturbed exactly if no later line sets the version |
| ManifestPlanner.PlanTwice | language/crates/num-cli/src/migration.rs:561-617 | a second plan has no action and changes no character |
| SanitizerPacks.PackResolver.Resolve | language/crates/num-cli/src/package.rs:539-563 | ends on every configuration; succeeds exactly if no chain of parents runs into a cycle, an unknown name or bad settings, so diamonds are accepted; the result is the fold of the parents in order and then the pack's own policy; `resolving` is as before |
| SanitizerPacks.PackResolver.AllPolicies | language/crates/num-cli/src/package.rs:529-537 | succeeds exactly if every configured pack resolves, and returns their policies in order |
| SanitizerPacks.BadParent | language/crates/num-cli/src/package.rs:551-557 | a parent that does not resolve makes its child not resolve |
| SanitizerPacks.GoodParents | language/crates/num-cli/src/package.rs:551-560 | with parents that resolve and usable settings, a pack resolves |
| SanitizerPacks.LeafIsResolvable | language/crates/num-cli/src/package.rs:546-550 | a name that is not configured resolves exactly if it is built in |
| SanitizerPacks.ValueIsStable | language/crates/num-cli/src/package.rs:539-563 | a policy, once defined at some depth, is the same at every greater depth |
| SanitizerPolicies.ComposeIsMeet | language/crates/num-runtime/src/sanitization.rs:26-37 | composing two policies gives the weakest one that is as strict as both |
| SanitizerPolicies.ComposeIsSemilattice | language/crates/num-runtime/src/sanitization.rs:26-37 | composition is indifferent to order, grouping and repetition |
| SanitizerPolicies.OwnIsSpelled | language/crates/num-cli/src/package.rs:1609-1635 | a pack asks for its settings where it has them and for the default elsewhere |
| SanitizerPolicies.ValueIsStrictest | language/crates/num-cli/src/package.rs:539-563 | a pack that resolves means the weakest policy as strict as everything it reaches asks for, in whatever order it extends it |
| SanitizerPolicies.StrictestIsUnique | language/crates/num-cli/src/package.rs:539-563 | there is one such policy |
| SanitizerPolicies.NothingIsSwitchedOff | language/crates/num-runtime/src/sanitization.rs:13-37 | a configured pack always trims and strips control characters |
| SanitizerPolicies.StricterClassAllowsLess | language/crates/num-runtime/src/sanitization.rs:47-57 | a stricter character class allows no more exactly if it is not `alpha_hyphen` under `email` or `identifier` |
| TypeExprs.SplitGenericArgs | language/crates/num-cli/src/connector_sdk.rs:2202-2251 | the loop over depth, string and escape state computes the scan, and no argument is longer than the text |
| TypeExprs.ScanRendered | language/crates/num-cli/src/connector_sdk.rs:2202-2251 | scanning a printed expression takes it whole and restores the depth, whatever it holds |
| TypeExprs.SplitRendered | language/crates/num-cli/src/connector_sdk.rs:2202-2251 | printed arguments are cut exactly between one another |
| TypeExprs.ParseRendered | language/crates/num-cli/src/connector_sdk.rs:2161-2200 | parsing a printed expression returns it, at every depth |
| TypeScriptTypes.RenderParsedBrackets | language/crates/num-cli/src/connector_sdk.rs:1701-1745 | printing what was parsed has no more brackets than the text, so collecting through print and parse ends |
| WrapperUse.WrapperUsage.Collect | language/crates/num-cli/src/connector_sdk.rs:1701-1745 | exactly the wrappers of the type are flagged, and no flag is cleared |
| WrapperUse.WrapperUsage.SetFor | language/crates/num-cli/src/connector_sdk.rs:1703-1740 | the flags each name sets |
| WrapperUse.CollectedIsClosed | language/crates/num-cli/src/connector_sdk.rs:409-503 | the flags are closed under what each emitted declaration refers to |
| WrapperUse.CollectedIsOwned | language/crates/num-cli/src/connector_sdk.rs:1701-1745 | for well-formed types, collecting through print and parse flags what the tree holds |
| WrapperUse.MentionedIsOwned | language/crates/num-cli/src/connector_sdk.rs:1776-1861 | a wrapper the TypeScript form mentions comes from a name in the type, program types called `JsonValue` apart |
| WrapperUse.WrapperCoverage | language/crates/num-cli/src/connector_sdk.rs:1701-1861 | every wrapper the TypeScript form mentions is flagged exactly if a program type `JsonValue`, where one is emitted, comes with the name `Json` |
| WrapperUse.JsonValueIsNotCovered | language/crates/num-cli/src/connector_sdk.rs:1701-1861 | the type `JsonValue` is mentioned as it is and nothing is collected for it |
| TypeScriptText.IdentifiersAreMentioned | language/crates/num-cli/src/connector_sdk.rs:1776-1861 | for types whose names are ASCII identifiers, the identifiers of the emitted text are the names its form mentions |
| TypeScriptText.TextCoverage | language/crates/num-cli/src/connector_sdk.rs:1701-1861 | for such types, every wrapper that occurs as an identifier in the emitted text is flagged, under the same condition |
| TypeScriptOrder.OrderOfTheText | language/crates/num-cli/src/connector_sdk.rs:1776-1861 | the program's names in the emitted text are those of the expression, in the order in which its text has them, without the arguments that built-in types ignore |
| TypeScriptOrder.FormNames | language/crates/num-cli/src/connector_sdk.rs:1776-1861 | the same for the form as a tree, whatever the names are |
| JavaTypes.NoPrimitiveArguments | language/crates/num-cli/src/connector_sdk.rs:1949-2041 | no type argument at any depth of a Java form is a primitive |
| JavaTypes.BoxingTheText | language/crates/num-cli/src/connector_sdk.rs:2033-2041 | comparing printed text boxes exactly the bare primitives |
| TypeForms.FormsSayTheSame | language/crates/num-cli/src/connector_sdk.rs:1776-2041 | the TypeScript and the Java form agree, kind by kind, wrapper by wrapper and argument by argument, exactly if no `Url` or `PhoneNumber` is emitted |
| TypeForms.LeafKinds | language/crates/num-cli/src/connector_sdk.rs:1780-1792 | every built-in leaf is words, a number, a truth value, nothing or anything on both sides alike |
| JavaTypes.JavaTypeName | language/crates/num-cli/src/connector_sdk.rs:2350-2372 | the loop that capitalizes words computes the class name |
| JavaTypes.ClassNamesAreCapital | language/crates/num-cli/src/connector_sdk.rs:2350-2372 | a class name is alphanumeric, begins with a capital and is no primitive |
| Versions.OrderIsSection11 | language/crates/num-cli/src/registry.rs:465-528 | the derived order is the precedence of section 11 of SemVer 2.0.0 |
| Versions.CompareVersionsIsTotalPreorder | language/crates/num-cli/src/registry.rs:530-537 | comparing versions ranks all strings, parsed or not |
| Versions.CompareForSortIsTotalOrder | language/crates/num-cli/src/registry.rs:539-543 | with the tie-break by text there are no ties |
| Versions.SortVersionsIgnoresOrder | language/crates/num-cli/src/registry.rs:539-543 | sorting any permutation of versions gives one list |
| Versions.LatestVersion | language/crates/num-cli/src/registry.rs:392-419 | a parsed version with a manifest that no other one exceeds, or none exactly if there is none |
| Versions.IndexOrderIsUnique | language/crates/num-cli/src/registry.rs:378-379 | the order in which the index lists its records does not depend on the order of directories exactly if no two different records hold versions that tie |
| Versions.BuildMetadataTies | language/crates/num-cli/src/registry.rs:378-379 | records of `1.0.0+a` and `1.0.0+b` are listed in the order in which they were read |
| Versions.ParsePrinted | language/crates/num-cli/src/registry.rs:436-463 | every version parses back from its text |
| Versions.ParseAccepts | language/crates/num-cli/src/registry.rs:436-463 | a text parses to a version exactly if, up to its first `+`, it is that version's text, or a release's text with a hyphen behind it, and all numbers fit in 64 bits |
| Versions.AcceptedBeyondTheGrammar | language/crates/num-cli/src/registry.rs:436-463 | `1.0.0-`, `1.0.0+` and `1.0.0+!! a` parse as 1.0.0 |
| Versions.TrailingHyphenIsIgnored | language/crates/num-cli/src/registry.rs:437-451 | a hyphen behind a core parses as if it were not there |
| Utf8.EncodeInjective | language/crates/num-cli/src/registry.rs:877-880 | different strings have different bytes |
| Utf8.DecodeIsInverse | language/crates/num-cli/src/registry.rs:843-857 | bytes decode to a text exactly if they are its encoding |
| PackageDigest.FromPackage | language/crates/num-cli/src/registry.rs:870-898 | the loop records path, size and hash of each file and hashes path, NUL, hash, NUL of all of them |
| PackageDigest.StreamIsInjective | language/crates/num-cli/src/registry.rs:873-881 | over paths without NUL, the stream determines paths and hashes |
| PackageDigest.StreamBegins | language/crates/num-cli/src/registry.rs:873-881 | what is hashed for a file is its path, a NUL, its hash and a NUL, in front of the other files |
| PackageDigest.EqualHashesExhibitCollision | language/crates/num-cli/src/registry.rs:870-898 | different files with one content hash exhibit two different messages with one SHA-256 digest: the two streams, or two files at one place of the listings |
| PackageDigest.HashDeterminesFiles | language/crates/num-cli/src/registry.rs:870-898 | if nothing that is hashed for two packages collides, their content hashes are equal exactly if their files are |
| FileTree.RelativeLeadsBack | language/crates/num-cli/src/registry.rs:1056-1062 | the text of a relative path leads back to the file exactly if no name on the way has a backslash |
| FileTree.PackageFiles.CollectFiles | language/crates/num-cli/src/registry.rs:1043-1066 | in whatever order entries come, the descent finds each kept file once |
| FileTree.CollectPackageFiles | language/crates/num-cli/src/registry.rs:1036-1041 | for any names the file system allows, the result is the sorted list of the texts of the kept files, one for each |
| FileTree.PlainTexts | language/crates/num-cli/src/registry.rs:1036-1041 | without backslashes in names, that list is strictly sorted and holds each file's path once |
| RegistryMetadata.ListingDetermines | language/crates/num-cli/src/registry.rs:1036-1041 | the sorted listing determines paths and contents |
| RegistryMetadata.FromPackage | language/crates/num-cli/src/registry.rs:870-898 | reading the collected texts and hashing what is found there yields the metadata of it; it fails exactly if some text leads to no file |
| RegistryMetadata.PlainSources | language/crates/num-cli/src/registry.rs:870-898 | without backslashes in names, what is read is the directory's contents in listing order |
| RegistryMetadata.ValidateRegistryMetadata | language/crates/num-cli/src/registry.rs:972-1011 | passes exactly if the files can be read and metadata is absent or says what they say; each error names the first disagreement |
| RegistryMetadata.EqualMetadataExhibitsCollision | language/crates/num-cli/src/registry.rs:870-898 | two packages with different files and one content hash exhibit a collision between their streams or two of their files |
| RegistryMetadata.HashDeterminesContents | language/crates/num-cli/src/registry.rs:870-898 | if nothing that is hashed for two packages collides, their content hashes are equal exactly if they hold the same files |
| RegistryMetadata.CheckDetectsChanges | language/crates/num-cli/src/registry.rs:972-1011 | beside published metadata, and if nothing that is hashed collides, the check passes exactly on the published files of the same package |
| Placement.CopyFiles | language/crates/num-cli/src/registry.rs:190-206 | copies file after file in listing order and stops at the first that cannot be read or written |
| Placement.PlacePackage | language/crates/num-cli/src/registry.rs:184-208 | the old directory goes, the files come, the metadata is written last; for any names |
| Placement.PlaceIsWithPackage | language/crates/num-cli/src/registry.rs:184-208 | a package with plain names and none of its files in the target is placed whole with its metadata, or nothing changes, exactly if a file is in the way |
| Placement.WhenApart | language/crates/num-cli/src/registry.rs:184-208 | no file of a package lies in a target that is disjoint from its directory, or that holds nothing yet |
| Placement.PlaceKeepsOutside | language/crates/num-cli/src/registry.rs:184-208 | however placing ends, nothing outside the target changes |
| Placement.PlacedIsFound | language/crates/num-cli/src/registry.rs:184-208 | what was placed is what is found there: the metadata file is not part of it |
| Placement.OutsideIsKept | language/crates/num-cli/src/registry.rs:184-208 | what a directory disjoint from the target holds is unchanged |
| Placement.PlacedIsWellFormed | language/crates/num-cli/src/registry.rs:184-208 | no file becomes a directory or the reverse |
| PackageCopy.PlacedIsCopied | language/crates/num-cli/src/registry.rs:184-208 | a placed package holds, file by file, what no name in a spelled-out list of seven leads to, with its bytes, the metadata, and nothing else |
| PackageCopy.CollectedIsListing | language/crates/num-cli/src/registry.rs:1036-1079 | the listing holds the files of the package by their names joined with slashes |
| PlainNames.ReadableWhenLed | language/crates/num-cli/src/registry.rs:870-898 | a package's files can be read exactly if the text of each path leads to some file |
| PlainNames.ArrivesWhenPlain | language/crates/num-cli/src/registry.rs:184-208 | a package none of whose files lies in the target is found there as it was exactly if no name in it has a backslash and no file is in the way |
| PlainNames.BackslashIsLost | language/crates/num-cli/src/registry.rs:1056-1062 | a package that holds a file `a\b` cannot be read unless it holds `a/b` too, and never arrives as it was |
| LocalRegistry.LatestIsUnique | language/crates/num-cli/src/registry.rs:392-419 | there is one latest version, however the directory is read |
| LocalRegistry.LocalRegistry.LatestVersion | language/crates/num-cli/src/registry.rs:392-419 | the latest installable version in the package's directory, or an error exactly if there is none |
| LocalRegistry.LocalRegistry.ResolveWithMetadata | language/crates/num-cli/src/registry.rs:129-159 | resolves exactly if the manifest reads, the files can be read and the metadata agrees, with the directory's own content hash |
| LocalRegistry.LocalRegistry.Publish | language/crates/num-cli/src/registry.rs:161-219 | for any names and any two directories: when it succeeds, and the exact tree afterwards; a dry run changes nothing, and nothing outside the target ever changes; where no file of the package lies in the target, plain names make it all or nothing, the package arrives as it was exactly if its names are plain, it may be published and no file is in the way, and then the target holds exactly the files under none of the seven names that are left behind, and the metadata |
| LocalRegistry.LocalRegistry.Install | language/crates/num-cli/src/registry.rs:221-289 | succeeds exactly if there is a version it is about, the named or the latest one, and that version can be installed; then the exact tree, file by file for plain names, the hash of what was copied and the whole report |
| LocalRegistry.InstalledIsWithPackage | language/crates/num-cli/src/registry.rs:221-289 | installing a package with plain names and none of its files in the target leaves exactly the package and its metadata there, or changes nothing |
| LocalRegistry.InstalledWhenPlain | language/crates/num-cli/src/registry.rs:221-289 | an installed package arrives as it was exactly if no name in it has a backslash and no file is in the way |
| LocalRegistry.RootsAreDisjoint | language/crates/num-cli/src/registry.rs:221-289 | a registry and an install directory beside each other keep every package and version apart |
| LocalRegistry.PackageRootIsNested | language/crates/num-cli/src/registry.rs:161-183 | a version is kept in a directory of its own under its package, and its manifest in `num.toml` |
| LocalRegistry.PublishedTree | language/crates/num-cli/src/registry.rs:161-219 | after publishing, the registry holds the package's files and the package still has them |
| LocalRegistry.PublishedResolves | language/crates/num-cli/src/registry.rs:129-219 | a published package resolves exactly if its manifest, read in the registry, names the same package |
| LocalRegistry.PublishThenInstall | language/crates/num-cli/src/registry.rs:161-289 | publishing and installing is the identity on the package's files and keeps the content hash |
| LocalRegistry.DirectoryNameDoesNotResolve | language/crates/num-cli/src/registry.rs:129-219 | a package named only by its directory does not resolve once published |
| LocalRegistry.InstallDetectsChanges | language/crates/num-cli/src/registry.rs:221-289 | beside published metadata, and if nothing that is hashed collides, a directory resolves exactly if it holds the published files of the same package |
| Routes.PercentEncode | language/crates/num-cli/src/registry.rs:830-840 | the loop computes the encoding of a text's bytes, one by one |
| Routes.PercentDecode | language/crates/num-cli/src/registry.rs:843-857 | the loop decodes byte by byte, and fails on a `%` without two digits or on bytes that are not UTF-8 |
| Routes.EncodingRoundTrip | language/crates/num-cli/src/registry.rs:830-857 | decoding the encoding of any byte string returns it, and the encoding is in normal form: unreserved characters and `%` with two upper-case digits |
| Routes.NormalIsEncoded | language/crates/num-cli/src/registry.rs:830-857 | every text in normal form is the encoding of what it decodes to |
| Routes.DecodesSegment | language/crates/num-cli/src/registry.rs:830-857 | decoding the encoding of any text returns it |
| Routes.NormalSegmentIsEncoded | language/crates/num-cli/src/registry.rs:830-857 | a segment in normal form that decodes is the encoding of what it decodes to |
| Routes.PartsAreWords | language/crates/num-cli/src/registry.rs:800-804 | splitting at slashes and dropping empty parts gives the runs between slashes |
| Routes.EndpointRoundTrip | language/crates/num-cli/src/registry.rs:752-828 | the endpoint of any name, version and hash parses to its route exactly if none of them is empty |
| Routes.EmptyVersionListsAll | language/crates/num-cli/src/registry.rs:763-828 | with an empty version, the endpoint of one version lists all |
| Routes.EmptyNameIsNotFound | language/crates/num-cli/src/registry.rs:752-828 | without a name, the package's endpoint is not found |
| Names.Squeeze | language/crates/num-cli/src/deploy.rs:2817-2819 | the loop of replacements ends, equals the one-pass collapse and leaves no two separators in a row |
| Names.CollapseReplaced | language/crates/num-cli/src/deploy.rs:2817-2819 | one round of replacement does not change the collapse |
| Names.SqueezedIsJoined | language/crates/num-cli/src/deploy.rs:2806-2820 | squeezing and trimming leaves the words of the text, joined by single separators |
| Names.SqueezedIsStable | language/crates/num-cli/src/deploy.rs:2806-2820 | squeezing twice is squeezing once, and the result holds only allowed characters |
| Names.KubernetesName | language/crates/num-cli/src/deploy.rs:2806-2826 | the method computes the words of the name joined by hyphens, or the fallback |
| Names.KubernetesNameIsLabel | language/crates/num-cli/src/deploy.rs:2806-2842 | the result is a DNS label (section 2.1 of RFC 1123) exactly if it is at most 63 characters long, and a second squeeze changes nothing |
| Names.SystemdIdentifier | language/crates/num-cli/src/deploy.rs:2744-2764 | the same for systemd, where underscores stay |
| Names.SystemdIdentifierIsStable | language/crates/num-cli/src/deploy.rs:2744-2764 | the result is not empty, has no hyphen at its ends, holds only lower-case letters, digits, `_` and `-`, and does not change again |
| Names.SanitizeModuleComponent | language/crates/num-cli/src/migration.rs:517-542 | the method computes the words joined by underscores, prefixed if they begin with a digit |
| Names.ModuleComponentIsIdentifier | language/crates/num-cli/src/migration.rs:517-542 | every component comes out as an identifier that does not change again |
| SourceModules.InsertModuleDeclaration | language/crates/num-cli/src/migration.rs:381-406 | the old lines, character by character, with the declaration in front of the first line that is neither blank nor a comment |
| SourceModules.InsertedReads | language/crates/num-cli/src/migration.rs:381-406 | the edited file has the old lines, the declaration, and a blank line if more follows |
| SourceModules.InsertedIsFound | language/crates/num-cli/src/migration.rs:364-406 | the inserted declaration is found again exactly if the module path is not blank |
| SourceModules.SourceModulePath | language/crates/num-cli/src/migration.rs:502-515 | the path is the sanitized components joined by dots, or `main` |
| SourceModules.ModulePathIsDotted | language/crates/num-cli/src/migration.rs:502-515 | every module path is identifiers between single dots |
| SourceModules.RewriteModule | language/crates/num-cli/src/migration.rs:354-362 | a file with a module keeps its text, up to a last line end; one without gains the declaration and nothing else |
| SourceModules.RewriteTwice | language/crates/num-cli/src/migration.rs:354-362 | rewriting a rewritten file changes nothing |
| RateLimits.WorkflowMetadataStart | language/crates/num-cli/src/migration.rs:455-483 | the position after the parenthesis that closes the header's parameter list, or none exactly if it is never closed |
| RateLimits.ScanHeader | language/crates/num-cli/src/migration.rs:485-500 | all legacy names up to the brace or the end of the file, in order |
| RateLimits.LegacyReplacements | language/crates/num-cli/src/migration.rs:429-453 | the names flagged header by header |
| RateLimits.ReplaceLegacy | language/crates/num-cli/src/migration.rs:412-427 | fails exactly if some header holds a legacy name at or behind one that a later header holds; otherwise each `rate_limit` in a header becomes `rate limit`, and every other character stays |
| RateLimits.ApartIsRespelled | language/crates/num-cli/src/migration.rs:429-453 | if no header keyword comes before the end of another one's header, no headers clash |
| RateLimits.NestedHeadersFail | language/crates/num-cli/src/migration.rs:429-453 | a `service` inside the header of another, in front of a legacy name, makes it fail |
| RateLimits.HeaderInParametersFails | language/crates/num-cli/src/migration.rs:412-453 | so does a `service` inside the parentheses of a `workflow`, though the two headers share no name |
| OpenApi.TypeRender.MergeField | language/crates/num-cli/src/openapi.rs:582-602 | merging one property keeps the fields, conflicts and notes those of everything seen |
| OpenApi.TypeRender.Collect | language/crates/num-cli/src/openapi.rs:544-580 | the descent through members and references sees exactly the occurrences of the schema, and notes what did not merge |
| OpenApi.RenderTypeFields | language/crates/num-cli/src/openapi.rs:538-542 | each field has its one type, or `Json` if two types occur, with exactly one conflict on record |
| OpenApi.MergeIsUnique | language/crates/num-cli/src/openapi.rs:582-602 | fields and conflicts are determined by the set of occurrences |
| OpenApi.MembersInAnyOrder | language/crates/num-cli/src/openapi.rs:571-579 | reordering members and properties at any depth changes no occurrence and no note, so neither fields nor conflicts nor comments |

## Left out

- Lock roots: the visited key leaves out the root directory, so `Coherent` asks that a key determines the entry, whether it loads, and the keys of its dependencies; `RootCoherent` and `NameCoherent` say the same for the other two walks.
- Finiteness of the graph: each walk takes a finite set its keys lie in (`KeysWithin`, `NamesWithin`, `RootsWithin`) as a ghost argument; it is the termination measure and nothing else.
- Error texts: errors are values that say which check failed, not the printed sentences.
- Files, git, environment, clocks and processes: functions of a `World`, a `Host` or a file tree; failures of the operating system in the middle of an operation are not modelled.
- Empty directories and symbolic links: a tree is its files, and a directory is there when a file is below it.
- Dot segments and absolute paths in package names and versions: a name is the segments between its slashes.
- Names that are not Unicode: a name is a string of characters without `/` and NUL.
- Collisions of SHA-256: no two messages are assumed to differ in their digests; the theorems that need it ask it of the messages hashed for the two packages at hand.
- JSON: the metadata printer and reader are one pair of functions that invert each other.
- The rest of the manifest: everything outside `[language]` is the ordered list of its settings (section, key, value); the upserts, sorts and defaults that build the other sections from it are not modelled.
- The walk that lists manifests (`collect_package_manifests`): it is the compile walk without the check and the sources.
- `validate_manifest`: a predicate given from outside.
- Library sorts: modelled as a stable insertion sort; wherever the order is claimed to be unique, it is proved unique for every sort.
- FIPS 180-4 above 2^61 bytes: the program's counter wraps and so does the model's padding, which the standard does not define.
- Sanitizing a text: policies are composed and compared, not applied; which characters are letters or blanks of Unicode is given from outside.
- CollectPackageFiles: does not say in which order the packages come, beyond the workspace first and dependencies sorted by name, because the order is that of the walk.
- Python, C and Rust generators, and the currency table: the mappers differ from the TypeScript and Java ones in names only; which names are currencies, and which are reserved in Java, is a predicate given from outside.
- TypeScript declarations as text: the declarations are modelled by the names they declare and refer to; the types are modelled as text too.
- TextCoverage: asks for names of ASCII letters, digits, `_` and `$`, because a name such as `A|Money` is not one identifier of the text; `WrapperUse.WrapperCoverage` has no such condition.
- OpenAPI beyond `allOf`: `schema_type`, `to_identifier` and reference resolution are functions of the document; the reference graph is assumed acyclic, with a rank as measure.
- The order of OpenAPI notes: comments are counted, and each conflict is on record once; their order follows the members.
- The lexer: `RateLimits` takes tokens with increasing spans, over characters where the program counts bytes.
- Discovering source files, and the reports and command line around every operation.
- `list` and `index` of the registry as directory listings: only their orders are modelled.
- Deployment apart from its names, benchmarks, compatibility reports, release plans, the editor extension and the generated connectors.
