# snapshot-creator, modelled in Dafny

`snapshot-creator` (the `ss` command) stamps a JavaScript package's
`package.json` with a snapshot version such as `1.3.0-<git revision>-SNAPSHOT`.
It also keeps named *workspaces*, each a list of locally built or published
packages, and it can *sync* a project's declared dependency versions to the
versions a workspace tracks.

This project models the logic inside those commands.

- **`TextPatch`** (`text_patch.dfy`, bin/utils.js) is the text patcher. It
  rewrites the string value of the first `"key" \s* : \s* "…"` occurrence in
  the raw JSON text and leaves every other character alone.
  - The regular expression is modelled as a deterministic scanner (`HeaderEnd`,
    `MatchAt`), which is proved equal to a declarative reading of the pattern
    (`IsHeader`, `Matches`).
  - A leftmost search (`FirstMatch`) finds the first match.
- **`SnapshotVersion`** (`snapshot_version.dfy`) derives the new version in
  `createSnapshot`. It models the JavaScript it relies on:
  - `split` on one character;
  - the case-insensitive `indexOf('snapshot')`;
  - `parseInt`, with whitespace trimming, sign, `0x` prefix, the longest digit run, and `NaN`;
  - number-to-string conversion;
  - the workspace slug `-name.toLowerCase().replace(/[^a-z0-9]/g, '-')`.
- **`Packages`** (`packages.dfy`) is the package-entry upsert of both add flows,
  keyed by name and path.
- **`WorkspaceStore`** (`workspace_store.dfy`) is the registry.
  - The config record and the workspace files are the fields of a `Store`
    object: an optional config and a map from name to workspace record.
  - Its commands change those fields in place: init, load, save, clear, create,
    switch, list, add and publish.
  - A loaded workspace is a `Workspace` object whose package list is upserted
    in place.
- **`DependencySync`** (`dependency_sync.dfy`) is `syncWorkspace`.
  - A method builds the name→version lookup.
  - A `SyncRun` object holds the variables the section helper updates.
  - The walk over the four sections is proved equal to a specification. The
    specification says which updates are made, in what order, what the
    counters hold and what text is written.

bin/index.js:456 passes the section name to the dependency patcher as a fourth
argument, as if the rewrite were meant to stay inside that section. The patcher
of bin/utils.js:7-10 takes three parameters and ignores it, so the first
occurrence of the name anywhere in the text is rewritten; the model follows the
code (`TextPatch.PatchDependency`). For a quote-free name and version, patching
the same name twice with the same version changes nothing
(`DependencySync.RepeatedNameLeavesText`). So only the
first occurrence of a name in the text is rewritten, whatever section it is in;
any later occurrence keeps its old version, even when its own section is walked
first. A stale key whose name first occurs in another section is still counted
and reported as updated while its own entry stays unchanged. For two consecutive
keys with the same quote-free name and a stale version, both are counted and
reported while the second update leaves the text as the first one made it
(`DependencySync.LaterDuplicateCountedNotWritten`).

Inputs that the program obtains from its environment are parameters:
- the current time (`now`, one value per command);
- the git revision (`gitHash`, or `None` when `git rev-parse` fails);
- whether `npm publish` succeeded (`publishOk`);
- the manifest's raw text together with its parsed dependency sections;
- the current workspace name used by `createSnapshot`.

## Model

| member | source | states |
|---|---|---|
| TextPatch.StartsWithAtIsOccurrence | bin/utils.js:8 | the literal part of the pattern occurs at index i exactly when every character of it matches there |
| TextPatch.SkipSpace | bin/utils.js:8 | `\s*` consumes the longest run of whitespace: every skipped character is whitespace, and the one after is not |
| TextPatch.NextQuote | bin/utils.js:8 | `[^"]*` runs to the first double quote: no quote is skipped, and the stop is a quote or the end of the text |
| TextPatch.HeaderEnd | bin/utils.js:8 | a match of the first group at i ends after the value's opening quote, at least `"key":"` further on |
| TextPatch.MatchAt | bin/utils.js:8 | a match at i captures a value that ends at a closing quote inside the text |
| TextPatch.HeaderEndIsHeader | bin/utils.js:8 | the scanner finds the first group at i exactly when `"key"`, whitespace, `:`, whitespace, `"` appear there, in both directions |
| TextPatch.MatchAtIsPattern | bin/utils.js:8 | the scanner matches at i with value span (p, e) exactly when the whole pattern `("key"\s*:\s*")[^"]*(")` does |
| TextPatch.HeaderEndLocal | bin/utils.js:8 | whether the first group matches at i depends only on the characters it spans |
| TextPatch.HeaderQuotes | bin/utils.js:8 | for a key without quotes, the only quotes in the first group are the key's two and the value's opening one |
| TextPatch.FirstMatch | bin/utils.js:9 | the non-global `replace` acts on the leftmost match: nothing matches before the index found, and nothing matches anywhere when none is found |
| TextPatch.FirstMatchIsLeftmost | bin/utils.js:9 | a match with no match before it is the one the search returns |
| TextPatch.Patch | bin/utils.js:7-15 | without a match the text is returned as is; with one, the text before the first match's value, the new value and the text from its closing quote on, in that order and nothing else |
| TextPatch.PatchDependency | bin/utils.js:7-10 | without a match of the package name the text is unchanged; for a quote-free name and version, the first match stays where it was and now captures the new version |
| TextPatch.PatchVersion | bin/utils.js:12-15 | without a `"version"` match the text is unchanged; for a quote-free version, the first `"version"` value becomes that version |
| TextPatch.PatchWithoutMatch | bin/utils.js:12-15 | with no match anywhere, the text comes back unchanged |
| TextPatch.PatchRewritesFirstMatch | bin/utils.js:12-15 | only the first match's value is replaced: the text up to the opening quote and from the closing quote on is kept, and the new value sits between them |
| TextPatch.PatchKeepsLaterText | bin/utils.js:8-9 | everything after the first match, including any later occurrence of the key, is kept unchanged, at the shifted position |
| TextPatch.PatchWithCurrentValue | bin/utils.js:12-15 | patching with the value already present returns the input |
| TextPatch.NoEarlierMatchAfterRewrite | bin/utils.js:8-9 | for a quote-free key, rewriting a quote-free value does not create a match before the rewritten one |
| TextPatch.MatchAfterRewrite | bin/utils.js:8-9 | after the rewrite, the same place matches and captures exactly the new value |
| TextPatch.NoMatchBeforeRewrite | bin/utils.js:8-9 | for a quote-free key, rewriting a quote-free value leaves every start before the rewritten match without a match |
| TextPatch.PatchedTextFirstMatch | bin/utils.js:7-15 | in the patched text the first match is at the same place and captures the new value |
| TextPatch.RewriteKeepsFirstMatch | bin/utils.js:8-9 | when the first match's value is replaced by a quote-free value, the search finds the same place, now capturing exactly that value |
| TextPatch.PatchIdempotent | bin/utils.js:12-15 | for a quote-free key and value, applying the same patch twice equals applying it once |
| TextPatch.PatchSetsFirstValue | bin/utils.js:12-15 | for a quote-free key and value, when the text has a match, after the patch the first `"key": "…"` value in the text is the new value |
| SnapshotVersion.Split | bin/index.js:368-369 | `split` on one character gives at least one piece, and no piece contains the separator |
| SnapshotVersion.JoinSplit | bin/index.js:368-369 | joining the pieces of `split` with the separator gives back the text |
| SnapshotVersion.SplitWithoutSeparator | bin/index.js:368-369 | a text without the separator splits into itself alone |
| SnapshotVersion.SplitFirstPiece | bin/index.js:368-369 | a separator-free prefix extends the first piece and leaves the other pieces alone |
| SnapshotVersion.SplitAtSeparator | bin/index.js:368-369 | the text before the first separator is the first piece, and the rest splits as before |
| SnapshotVersion.FirstPieceIsPrefix | bin/index.js:368-369 | the first piece is a prefix of the text |
| SnapshotVersion.SplitKeepsOut | bin/index.js:368-369 | a character absent from the text is absent from every piece |
| SnapshotVersion.LowerAsciiTextLowers | bin/index.js:366 | the lowered text has the same length, holds no A-Z, keeps every other character, and lowering it again changes nothing |
| SnapshotVersion.SnapshotAtIsOccurrence | bin/index.js:366 | eight characters at i lower to "snapshot" exactly when "snapshot" occurs at i in the lowered text |
| SnapshotVersion.MentionsSnapshotOccurs | bin/index.js:366 | the `indexOf` test (the predicate `MentionsSnapshot`) passes exactly when some eight characters of the version lower to "snapshot" |
| SnapshotVersion.IndexOf | bin/index.js:366 | `indexOf` returns the first index at which the word occurs, or -1 when it occurs nowhere |
| SnapshotVersion.EndsWithSnapshotMentionsIt | bin/index.js:366 | a text ending in `-SNAPSHOT` passes the case-insensitive "snapshot" test |
| SnapshotVersion.WithoutLetterSNoSnapshot | bin/index.js:366 | a version without the letter s (either case) is treated as a fresh version |
| SnapshotVersion.DigitRun | bin/index.js:372 | `parseInt` reads the longest run of digits of the radix |
| SnapshotVersion.ParseInt | bin/index.js:372 | an empty or all-whitespace text reads as `NaN` |
| SnapshotVersion.ParseIntNeedsDigit | bin/index.js:372 | a number is read only from a text holding a decimal digit, and a text without `-` never reads as negative |
| SnapshotVersion.UnsignedHasDigit | bin/index.js:372 | an unsigned read succeeds only when the text starts with a digit |
| SnapshotVersion.TrimStart | bin/index.js:372 | `parseInt` drops only leading whitespace: what it drops is whitespace, the rest is a suffix of the text, and it does not start with whitespace |
| SnapshotVersion.NatToString | bin/index.js:372 | a number prints as decimal digits without a leading zero |
| SnapshotVersion.IntToString | bin/index.js:372 | an integer prints as digits, with a minus sign exactly when it is negative |
| SnapshotVersion.NatToStringValue | bin/index.js:372 | the printed digits read back as the number |
| SnapshotVersion.ParseDecimal | bin/index.js:372 | `parseInt` of a run of decimal digits is its decimal value |
| SnapshotVersion.ParseUnsignedDecimal | bin/index.js:372 | without a sign, a digit run parses to its decimal value |
| SnapshotVersion.ParseNegative | bin/index.js:372 | `-` followed by decimal digits parses to minus their value |
| SnapshotVersion.ParseIntToString | bin/index.js:372 | `parseInt` of a printed integer gives the integer back |
| SnapshotVersion.DigitRunOfDigits | bin/index.js:372 | a text of digits is one whole digit run |
| SnapshotVersion.SlugOf | bin/index.js:359 | each character of the name becomes one or two UTF-16 units of slug |
| SnapshotVersion.Slugify | bin/index.js:359 | the slug holds only a-z, 0-9 and `-`, and is no shorter than the name |
| SnapshotVersion.SlugifyLength | bin/index.js:359 | a name of one-unit characters other than U+0130 gives a slug as long as the name |
| SnapshotVersion.SlugifyIdempotent | bin/index.js:359 | slugging a slug changes nothing |
| SnapshotVersion.SlugifyOfSlugText | bin/index.js:359 | text made of a-z, 0-9 and `-` is its own slug |
| SnapshotVersion.SlugifyAscii | bin/index.js:359 | on ASCII names the slug lowers letters, keeps digits and turns everything else into `-`, one for one |
| SnapshotVersion.WorkspaceSlug | bin/index.js:355-360 | the slug is empty when the flag is off; otherwise it is `-` followed by slug characters |
| SnapshotVersion.AsciiWorkspaceSlug | bin/index.js:355-360 | for an ASCII workspace name the slug is `-` followed by the name slugged one for one, so it is one longer than the name |
| SnapshotVersion.VersionCore | bin/index.js:366-381 | the part of the new version before the revision contains no `-` |
| SnapshotVersion.BumpMinorUnsigned | bin/index.js:372 | the bumped minor field contains no `-` when the field has none |
| SnapshotVersion.BumpMinorQuoteFree | bin/index.js:372 | the bumped minor field contains no quote |
| SnapshotVersion.CoreQuoteFree | bin/index.js:366-381 | the core of a quote-free version contains no quote |
| SnapshotVersion.DashCoreOfFresh | bin/index.js:368 | the text before the first `-` of `X.Y<rest>` is `X.Y` followed by nothing or by a `.`-led remainder |
| SnapshotVersion.DotFieldsOfFresh | bin/index.js:369 | splitting that core on `.` gives X and Y as the first two fields |
| SnapshotVersion.BumpDecimal | bin/index.js:372 | a decimal minor field is bumped to its value plus one |
| SnapshotVersion.BumpMinor | bin/index.js:372 | a missing minor field or one `parseInt` cannot read becomes `NaN`; a readable one never does |
| SnapshotVersion.BumpMinorReadsBack | bin/index.js:372 | when the minor field reads as a number, the bumped field reads back through `parseInt` as that number plus one |
| SnapshotVersion.DeriveVersion | bin/index.js:366-381 | every derived version ends in `-<hash><slug>-SNAPSHOT`, and the text before that tail holds no `-`, so a later `split('-')` gives the core back as its first piece |
| SnapshotVersion.FreshVersionBumpsMinor | bin/index.js:366-375 | a version `X.Y.Z[-pre]` without "snapshot" and with numeric Y becomes `X.(Y+1).0-<hash><slug>-SNAPSHOT`; the patch field and any pre-release tag are discarded |
| SnapshotVersion.FreshCore | bin/index.js:368-375 | the core of such a fresh version is `X.(Y+1).0` |
| SnapshotVersion.ExistingSnapshotKeepsCore | bin/index.js:376-381 | a version that mentions "snapshot" keeps its text before the first `-` and only swaps the revision and slug |
| SnapshotVersion.DerivedVersionShape | bin/index.js:375-381 | every derived version ends in `-<hash><slug>-SNAPSHOT` and so passes the "snapshot" test |
| SnapshotVersion.RederiveSwapsRevision | bin/index.js:366-381 | deriving again from a derived version keeps the core and takes the new revision and slug |
| SnapshotVersion.NoQuoteInDerived | bin/index.js:375-381 | a derived version from quote-free inputs contains no quote |
| SnapshotVersion.CreateSnapshot | bin/index.js:393 | without a `"version"` field in the text, it is written back unchanged; for a quote-free version and revision, the first `"version"` value of the written text is the derived version |
| Packages.KeyIndex | bin/index.js:148-150 | `findIndex` gives the first entry with the same name and path, or -1 when there is none |
| Packages.FindIndex | bin/index.js:533-535 | the loop returns the index `findIndex` defines |
| Packages.Upserted | bin/index.js:148-158 | the list grows by one exactly when no entry has the same name and path; afterwards the first same-key entry is the new entry, and every entry of another key keeps its place |
| Packages.UpsertReplacesFirst | bin/index.js:152-153 | with a same-key entry, the first one is overwritten, the length is unchanged and every other index is untouched |
| Packages.UpsertAppends | bin/index.js:155-156 | with no same-key entry, the entry is appended |
| Packages.UpsertContains | bin/index.js:148-158 | after the upsert the list holds the new entry and every entry of another key |
| Packages.UpsertKeepsKeysUnique | bin/index.js:533-543 | name-and-path pairs that were unique stay unique |
| Packages.UpsertTwice | bin/index.js:533-543 | a second upsert of the same key overwrites the first one in place |
| WorkspaceStore.ResolveName | bin/index.js:54 | an explicit name wins; without one the current workspace is used; without both, `default`; the result is never empty |
| WorkspaceStore.Keys | bin/index.js:255 | `Object.keys` lists exactly the registry's keys, one per entry in entry order, and without repeats when the keys are distinct |
| WorkspaceStore.Find | bin/index.js:67 | a registry key's position is the first entry that holds it |
| WorkspaceStore.Lookup | bin/index.js:280 | `config.workspaces[name]` is set exactly when the name is a key |
| WorkspaceStore.Put | bin/index.js:119-123 | assigning a key adds one entry only when the key is new, holds the assigned pair, and keeps every other key's entry in place |
| WorkspaceStore.Remove | bin/index.js:251 | `delete` does not lengthen the registry, leaves no entry under the deleted key and keeps every entry under another key |
| WorkspaceStore.LookupPut | bin/index.js:67-71 | assigning a key sets that key's summary and leaves every other key's |
| WorkspaceStore.PutKeys | bin/index.js:119-123 | assigning an existing key keeps the key order; a new key goes last |
| WorkspaceStore.PutKeySet | bin/index.js:119-123 | assigning adds the key to the key set |
| WorkspaceStore.PutKeepsShape | bin/index.js:67-71 | assigning keeps keys distinct and summaries named after their keys |
| WorkspaceStore.LookupRemove | bin/index.js:251 | `delete` unsets that key and leaves every other key's summary |
| WorkspaceStore.RemoveConcat | bin/index.js:251 | deleting from two concatenated parts deletes from each and keeps them in order, so the remaining entries keep their order |
| WorkspaceStore.RemoveKeySet | bin/index.js:251 | `delete` removes exactly that key from the key set |
| WorkspaceStore.RemoveKeepsShape | bin/index.js:251 | `delete` keeps keys distinct and summaries named after their keys |
| WorkspaceStore.FirstRemainingKey | bin/index.js:255-256 | after `delete`, the first remaining key is the first key other than the deleted one, and there is one exactly when such a key existed |
| WorkspaceStore.Initialized | bin/index.js:67-75 | the new workspace is registered with created equal to lastModified equal to `now`, the key set gains its name, a set current workspace is kept and an unset one becomes the new name |
| WorkspaceStore.Saved | bin/index.js:119-123 | the saved workspace's summary has its created time (or `now` when it has none) and lastModified `now`, the key set gains its name, and the current workspace is kept |
| WorkspaceStore.Cleared | bin/index.js:251-257 | the cleared name is unregistered and nothing else is; the current workspace changes only if it was the cleared one, and then to the first remaining key, or `default` when none remains |
| WorkspaceStore.ClearedTakesFirstRemaining | bin/index.js:255-256 | clearing the current workspace makes current the first old key other than the cleared name, or `default` when every key was that name |
| WorkspaceStore.Workspace.Load | bin/index.js:96 | the loaded object holds the record's fields |
| WorkspaceStore.Workspace.Upsert | bin/index.js:533-543 | the package list becomes the upsert of the entry, and the other fields are unchanged |
| WorkspaceStore.Store.constructor | bin/index.js:19-28 | an empty store has no config and no workspace files |
| WorkspaceStore.Store.Loaded | bin/index.js:19-33 | without a config file the default config is used: current workspace `default`, no workspaces, created `now`; a consistent store's config lists exactly the workspaces that have files, each once |
| WorkspaceStore.Store.InitWorkspace | bin/index.js:50-85 | an existing workspace leaves everything unchanged; otherwise an empty record is written, registered with created equal to lastModified, and made current only if none was; the loaded workspace is returned |
| WorkspaceStore.Store.LoadWorkspace | bin/index.js:87-103 | an existing workspace is returned as stored; a missing one is initialised first |
| WorkspaceStore.Store.ListWorkspace | bin/index.js:210-238 | the listed workspace is loaded as `loadWorkspace` does, so a missing one is initialised and saved first; the packages listed are its file's, and none for a new workspace |
| WorkspaceStore.Store.SaveWorkspace | bin/index.js:105-131 | the workspace takes the resolved name and `now` as lastModified, its file is written, and its summary's lastModified equals the workspace's |
| WorkspaceStore.Store.ClearWorkspace | bin/index.js:240-267 | with a file, it is deleted and unregistered, and the current workspace changes only if it was the cleared one, to the first remaining key or `default`; without one, nothing changes |
| WorkspaceStore.Store.CreateWorkspace | bin/index.js:269-289 | an empty name or a registered name changes nothing; otherwise the workspace is initialised |
| WorkspaceStore.Store.SwitchWorkspace | bin/index.js:291-313 | an empty name or a name without a file changes nothing; otherwise it becomes current and the files are untouched |
| WorkspaceStore.Store.AddEntry | bin/index.js:133-165 | the current workspace is initialised; its file then holds its packages with the entry upserted, keeps its created time and is stamped `now`, and the config is the initialised config with that save registered |
| WorkspaceStore.Store.UpsertAndSave | bin/index.js:148-161 | the loaded workspace's file becomes its package list with the entry upserted, stamped `now`, and the config registers that save |
| WorkspaceStore.Store.AddToWorkspace | bin/index.js:509-548 | the workspace is initialised; without a revision the config is the initialised one; with one, the unpublished entry is upserted into its file, stamped `now`, and the config is the initialised one with that save registered |
| WorkspaceStore.Store.PublishToWorkspace | bin/index.js:167-208 | after a failed publish or revision read nothing changes; otherwise the published entry is upserted into the current workspace's file, stamped `now`, and the config is the initialised one with that save registered |
| DependencySync.BuildTable | bin/index.js:436-439 | the loop builds the lookup of entry names to versions |
| DependencySync.Table | bin/index.js:436-439 | every entry's name is in the lookup, the last entry's name maps to its version, and there are no more names than entries |
| DependencySync.TableKeys | bin/index.js:436-439 | a name is in the lookup exactly when some entry carries it |
| DependencySync.TableLastWins | bin/index.js:436-439 | for a repeated name, the lookup holds the last entry's version |
| DependencySync.Step | bin/index.js:449-468 | a tracked key (`Tracked`: its name is in the table with a non-empty version) adds one to updated plus skipped; a stale key (`Stale`: tracked with a different declared version) adds one to updated and appends its update after the earlier ones; only a stale key changes the text |
| DependencySync.SectionRun | bin/index.js:446-469 | walking a section never lowers a counter, adds at most one count per key, appends one update per update counted, and leaves the text alone when nothing is updated |
| DependencySync.Run | bin/index.js:472-477 | updatedCount equals the number of recorded updates, the counts add up to at most the number of declared keys, and with no update the text is the original |
| DependencySync.PendingMembers | bin/index.js:449-462 | an update is recorded exactly for a tracked key whose declared version differs (`Tracked` and `Stale`), with the section, the old version and the tracked one |
| DependencySync.PendingBounds | bin/index.js:449-467 | no more updates than tracked keys, and no more tracked keys than keys |
| DependencySync.PendingSnoc | bin/index.js:449-467 | one more key adds at most one update and at most one tracked key |
| DependencySync.ApplyAllConcat | bin/index.js:456 | patching through two lists of updates in turn is patching through their concatenation |
| DependencySync.SectionRunResults | bin/index.js:450-463 | walking a section appends exactly its pending updates, in key order, and counts each of them as updated |
| DependencySync.SectionRunCounts | bin/index.js:450-467 | walking a section counts every tracked key exactly once, as updated or as skipped |
| DependencySync.SectionRunText | bin/index.js:455-456 | walking a section leaves the text patched by its pending updates, in order |
| DependencySync.SectionRunSummary | bin/index.js:446-469 | walking a section records exactly its pending updates in key order, counts each tracked key once as updated or skipped, and patches the text by those updates |
| DependencySync.RunSummary | bin/index.js:472-477 | over the four sections, updates come in the order dependencies, devDependencies, peerDependencies, optionalDependencies; updatedCount is their number, and updated plus skipped is the number of tracked keys |
| DependencySync.RepeatedNameLeavesText | bin/index.js:456 | for a quote-free name and version, patching the same name twice with the same version rewrites the first occurrence again and changes nothing |
| DependencySync.LaterDuplicateCountedNotWritten | bin/index.js:455-463 | two consecutive keys with the same quote-free name, both stale, are counted and reported twice; only its first occurrence in the text, whichever section holds it, gets the new version, the text after that value (any later occurrence included) is unchanged, and the second update leaves the text as the first one did |
| DependencySync.SyncRun.constructor | bin/index.js:441-444 | the counters start at zero, there are no updates, and the text is the one read |
| DependencySync.SyncRun.Visit | bin/index.js:450-469 | the callback for one key changes the walk's variables as one step of the section walk says |
| DependencySync.SyncRun.UpdateSection | bin/index.js:446-469 | the helper's loop leaves the walk's variables as the specification of the section walk says |
| DependencySync.SyncWorkspace | bin/index.js:416-507 | the workspace is loaded (created if missing); an empty one ends the command; no matching key ends without writing; all current ends without writing; otherwise the patched text is written |

## Left out

- File-system, subprocess and console effects are not modelled: reading and writing files, `npm publish`, `git rev-parse`, and log output. Their results are parameters.
- The try/catch failure paths are not modelled: a config that fails to load (`null`), a workspace file that fails to write or parse, and a failing `writeFileSync` of package.json. Every write is taken to succeed.
- `JSON.parse` and `JSON.stringify` are not modelled. The manifest's dependency sections are given already parsed, in `Object.keys` order. JavaScript's ordering of integer-like keys first is not modelled.
- Values of a dependency section that are not strings are not modelled.
- Duplicate keys in the manifest text are not modelled.
- The registry's `Object.keys` order is insertion order. JavaScript puts integer-like workspace names first; that reordering is not modelled.
- Lookups that hit `Object.prototype` members are not modelled. A workspace or dependency named like `constructor` or `toString` finds an inherited value in `config.workspaces` or the sync lookup.
- `TextPatch.Patch`: the key is matched as literal text. Regular-expression metacharacters in a package name (bin/utils.js:8 interpolates it unescaped) are not given their regex meaning.
- `TextPatch.Patch`: the new value is inserted literally. `$` patterns in the replacement are not expanded.
- `SnapshotVersion.LowerAsciiText`: only ASCII letters are lowered. This is exact for the "snapshot" test: the only non-ASCII characters that lower to ASCII letters are U+0130 (to `i` and a combining dot) and U+212A (to `k`), and neither letter occurs in "snapshot". The slug handles those two characters separately.
- `SnapshotVersion.BumpMinor`: `parseInt` results are unbounded integers. Precision loss above 2^53 and exponent notation in number-to-string are not modelled.
- A `package.json` without a `version` field makes the program throw; the model takes the version as a string.
- `listWorkspace` is modelled by `WorkspaceStore.Store.ListWorkspace` up to the workspace it loads, which it initialises when missing; its console listing is not modelled.
- `listWorkspaces` and `getCurrentWorkspace` only read the config and print, and are not modelled.
- A workspace named `config` has the file `config.json` (bin/index.js:46-48), which is also the config file (bin/index.js:10). The model keeps the two apart and does not capture that collision.
- Workspace names are used as file names unchecked. A name holding a path separator or `..` reaches a file outside the workspace directory; the model treats every name as its own file.
- Only stores reachable from an empty home directory through these commands, with every write succeeding, are modelled (`WorkspaceStore.Store.Valid`): the config lists exactly the workspace files and each file records its own name. Files edited or deleted by hand are not modelled, so the difference between `createWorkspace` checking the registry (bin/index.js:280) and `switchWorkspace` and `clearWorkspace` checking the file (bin/index.js:248, bin/index.js:303) is not captured.
- The yargs command routing (bin/index.js:550-603) is not modelled.
- A new `Date()` is read several times within one command; the model uses one `now` per command.
- The `argv` flag `--workspace` is a boolean parameter of `CreateSnapshot`. The current workspace name it reads from the config is a parameter too.
