# NFC configuration plugin: a Dafny model

This project models the core of the build-time configuration plugin of
react-native-nfc-manager (`app.plugin.js`). The plugin edits the app's
generated platform configuration before it is compiled:

- **Info.plist**:
  - the NFC usage description (override, else the existing value, else a default sentence);
  - the ISO 7816 select-identifier list;
  - the FeliCa system-code list.
- **Entitlements file**: the NFC reader-session formats (`NDEF` and `TAG`, or only `TAG`).
- **Android manifest**: the `intent-filter` list of the main activity. The filters this plugin
  generated on an earlier run carry the sentinel attribute `data-generated="true"`. They are
  stripped and replaced by freshly rendered ones.

Modules:

- `Wrappers` (Wrappers.dfy): `Option` and `Outcome`.
- `Plist` (Plist.dfy):
  - the plist value type with JavaScript truthiness;
  - `Dedupe`, which models `[...new Set(xs)]`;
  - `Merged`, which models `addValuesToArray`;
  - the usage-description and formats choices;
  - the class `PlistDocument`, whose methods edit a document's `entries` map in place, as the
    plugin's callbacks edit `config.modResults`.
- `Manifest` (Manifest.dfy):
  - the parsed-XML node type `Element`;
  - intent-filter rendering;
  - `Strip`, the filter that removes generated nodes;
  - `UpdatedIntentFilters`, the new list as a function of the old one;
  - the class `ActivityNode` and the method `AddNfcIntentFilters`, which reassigns its
    `intentFilters` field in place.
- `Plugin` (Plugin.dfy): the option record, the `withNfc` stage order with its
  `nfcPermission !== false` gate, and properties of a whole run (running twice equals running once when the host's
  filters carry the sentinel).

Three behaviours of `app.plugin.js` that the model states outright:

- Lines 151-154 extend the main activity's intent-filter list with `?.concat`. If the activity
  has no `intent-filter` key, the list stays absent and no filter is added, even when filters
  are configured (`UpdatedIntentFilters`: `list.None? ==> r.None?`). One `NDEF_DISCOVERED`
  filter therefore yields one generated node only when the list exists, even empty
  (`NdefDiscoveredScenario` starts from `Some([])`).
- The `Set` at line 33 keeps each value at its first occurrence, in the order of those first
  occurrences in the old array followed by the new values. The model proves that order and
  that it determines the merged array uniquely (`DedupeCharacterized`, `MergedOrder`). An old
  array without repeats stays as the prefix of the merged one (`MergeKeepsPriorArray`); an old
  array with repeats is itself compacted, so its later values move forward.
- Lines 139-152 strip only filters carrying the sentinel, then append the host's rendered
  filters unchanged. An untagged host filter is therefore appended again on every run
  (`UntaggedForeignFiltersAccumulate`). The manifest edit is idempotent only when the host's
  filters carry the sentinel (`RerunIdempotent`).

## Model

| member | source | states |
|---|---|---|
| `Plist.Dedupe` | app.plugin.js:32-33 | the result has no repeats, holds exactly the input's elements and is no longer than the input |
| `Plist.DedupeKeepsFirstOccurrenceOrder` | app.plugin.js:33 | the distinct elements appear in the order of their first occurrence in the input, as a JavaScript Set keeps them |
| `Plist.DedupeCharacterized` | app.plugin.js:33 | a list equals the deduplication iff it has no repeats, holds exactly the input's elements and is in first-occurrence order |
| `Plist.FirstOccurrenceOrderUnique` | app.plugin.js:33 | two repeat-free lists with the same elements, both in first-occurrence order, are equal |
| `Plist.DedupeOfDistinct` | app.plugin.js:33 | a list without repeats comes back unchanged |
| `Plist.MergedOrder` | app.plugin.js:30-33 | after a non-empty merge the key's array is in first-occurrence order of the prior array followed by the values |
| `Plist.DedupeAbsorbs` | app.plugin.js:30-33 | appending only elements already present does not change the deduplicated list |
| `Plist.DedupePrefix` | app.plugin.js:30-33 | the deduplication of a list is a prefix of the deduplication of any extension of it |
| `Plist.Merged` | app.plugin.js:22-41 | no-op when the values are not an array or are empty; otherwise the key holds a non-empty repeat-free array of exactly the prior array's elements and the values, so the delete branch never fires; no other key changes |
| `Plist.PlistDocument.AddValuesToArray` | app.plugin.js:22-41 | the in-place create, push, dedupe and delete steps leave the document equal to `Merged` of the old one |
| `Plist.MergeKeepsPriorArray` | app.plugin.js:26-33 | after a non-empty merge into a repeat-free array, the old array is kept unchanged as the prefix of the new one |
| `Plist.MergeAlreadyPresent` | app.plugin.js:30-38 | merging values that a repeat-free array already holds leaves the document unchanged |
| `Plist.MergeIdempotent` | app.plugin.js:30-33 | merging the same values twice gives the same document as merging once |
| `Plist.MergedCommute` | app.plugin.js:22-41 | `addValuesToArray` reads and writes only its own key, so merges into two different keys commute |
| `Plist.DescribedAfterMerged` | app.plugin.js:14-17 | the usage-description fallback reads and writes only its own key, so it commutes with a merge into any other key |
| `Plist.Described` | app.plugin.js:14-17 | the description becomes a non-empty override, else a truthy existing value (document unchanged), else the default sentence; it is truthy afterwards; no other key changes |
| `Plist.PlistDocument.SetUsageDescription` | app.plugin.js:10-19 | the Info.plist callback leaves the document equal to `Described` of the old one |
| `Plist.DescribedIdempotent` | app.plugin.js:14-17 | setting the usage description twice with the same option gives the same document as once |
| `Plist.NfcFormats` | app.plugin.js:46-49 | the formats are exactly `["TAG"]` or `["NDEF","TAG"]`: only TAG and NDEF occur, without repeats, TAG is always present and last, and NDEF is present iff `includeNdefEntitlement` is not exactly `false` |
| `Plist.PlistDocument.AddNfcFormats` | app.plugin.js:43-57 | the entitlements callback merges the selected formats into the formats key |
| `Plist.FormatsOnFreshEntitlements` | app.plugin.js:46-53 | on a document without a formats array the key becomes exactly `["TAG"]` when NDEF is excluded and `["NDEF","TAG"]` otherwise |
| `Plist.PlistDocument.AddSelectIdentifiers` | app.plugin.js:60-72 | the select identifiers are merged into their key, an absent list counting as empty |
| `Plist.PlistDocument.AddSystemCodes` | app.plugin.js:74-86 | the system codes are merged into their key, an absent list counting as empty |
| `Manifest.PresentData` | app.plugin.js:91 | `filter(Boolean)` keeps exactly the object entries, dropping each falsy one, so the count is the input length minus the falsy entries |
| `Manifest.PresentCategories` | app.plugin.js:100-101 | `filter(Boolean)` keeps exactly the non-empty category strings; the count is the input length minus the falsy entries |
| `Manifest.PresentDataAppend` | app.plugin.js:91 | `filter(Boolean)` distributes over concatenation, so the kept entries keep their order and repeats |
| `Manifest.PresentDataSingle` | app.plugin.js:91 | one entry is kept, as itself, iff it is truthy |
| `Manifest.PresentCategoriesAppend` | app.plugin.js:100-101 | `filter(Boolean)` on categories distributes over concatenation, so order and repeats are kept |
| `Manifest.PresentCategoriesSingle` | app.plugin.js:100-101 | one category is kept, as itself, iff it is present and non-empty |
| `Manifest.PrefixAttributes` | app.plugin.js:92-95 | the keys are exactly the input's keys prefixed with `android:`, with the same values |
| `Manifest.RenderIntentFilterData` | app.plugin.js:90-97 | one childless `data` node per truthy entry, in order; each node's attributes are that entry's keys prefixed with `android:` and its values |
| `Manifest.RenderIntentFilterCategory` | app.plugin.js:99-107 | one `category` node per truthy entry, in order, named `android.intent.category.<cat>` |
| `Manifest.RenderNfcIntentFilter` | app.plugin.js:110-128 | the node carries `data-generated="true"`, has `android:autoVerify="true"` iff the spec's flag is set and no other attributes, and exactly the action, data and category children, the action being `android.nfc.action.<action>` |
| `Manifest.RenderNfcIntentFilters` | app.plugin.js:109-130 | one node per spec in input order; each carries `data-generated="true"`, has `android:autoVerify="true"` iff the spec's flag is set (absent otherwise), one action child `android.nfc.action.<action>`, and the rendered data and category children |
| `Manifest.Strip` | app.plugin.js:138-142 | keeps exactly the entries whose `$[data-generated]` is not `'true'` (`IsGenerated`, line 140), entries without `$` included |
| `Manifest.StripAppend` | app.plugin.js:139-141 | stripping distributes over concatenation, so the kept entries stay in their original order |
| `Manifest.StripKeepsUserFilters` | app.plugin.js:139-141 | a list without generated entries is left as it is |
| `Manifest.StripRemovesGenerated` | app.plugin.js:139-141 | a list of generated entries is removed entirely |
| `Manifest.StripIdempotent` | app.plugin.js:138-142 | stripping twice equals stripping once |
| `Manifest.StripRemovesRenderedFilters` | app.plugin.js:114-116 | every rendered NFC filter is removed by the strip |
| `Manifest.UpdatedIntentFilters` | app.plugin.js:132-157 | an absent list stays absent; with nothing to add only the strip applies; otherwise the list becomes the kept entries, then the host's filters, then the NFC filters |
| `Manifest.AddNfcIntentFilters` | app.plugin.js:132-157 | fails iff the main activity is not found; otherwise the activity's list is reassigned to `UpdatedIntentFilters` of the old list |
| `Manifest.UserFiltersPreserved` | app.plugin.js:137-154 | the untagged entries of the old list open the new list, unchanged and in order |
| `Manifest.RerunRemovesPreviousNfcFilters` | app.plugin.js:137-154 | for any run, including one that adds nothing, the next run's strip removes exactly the NFC filters the run added, leaving the user's entries and the untagged host filters |
| `Manifest.RerunIdempotent` | app.plugin.js:132-157 | when the host's filters are tagged, running the edit twice equals running it once |
| `Manifest.UntaggedForeignFiltersAccumulate` | app.plugin.js:144-154 | an untagged host filter makes every further run lengthen the list |
| `Manifest.ClearingRunRemovesNfcFilters` | app.plugin.js:137-148 | a later run with no filters to add removes the earlier run's generated filters and leaves the user's entries |
| `Manifest.NdefDiscoveredScenario` | app.plugin.js:109-154 | one `NDEF_DISCOVERED` spec with category `DEFAULT`, added to an empty list, gives exactly one tagged node with that action and category and no data |
| `Plugin.EntitlementsAfterNfc` | app.plugin.js:43-57 | the formats key holds an array with TAG, and with NDEF unless it is excluded; no other key changes |
| `Plugin.InfoPlistMerges` | app.plugin.js:60-86 | every select identifier and every system code is in its key's array; no other key changes |
| `Plugin.InfoPlistAfterNfc` | app.plugin.js:174-201 | the two list keys are as the merges left them and only the usage description may change besides them |
| `Plugin.InfoPlistStageOrderIrrelevant` | app.plugin.js:182-195 | applying the usage description first and the system codes before the select identifiers gives the same Info.plist, so the result does not depend on the host's stage order |
| `Plugin.WithNfc` | app.plugin.js:174-201 | the edits are applied in the plugin's registration order (formats, identifiers, system codes, intent filters, then the usage description unless `nfcPermission` is `false`); each document ends as its function of the old one states; a missing main activity is reported as `Fail`, and this sequential model then skips the usage description, whereas the host runs the platforms' edits in separate phases |
| `Plugin.PermissionGateOff` | app.plugin.js:194-199 | with `nfcPermission: false` the usage description is untouched |
| `Plugin.PermissionGateOn` | app.plugin.js:194-195 | otherwise the usage description is present and truthy, and a truthy existing one is never replaced by the default |
| `Plugin.EntitlementsIdempotent` | app.plugin.js:43-57 | a second run leaves the entitlements file unchanged |
| `Plugin.MergeSettled` | app.plugin.js:30-33 | merging into a key that already holds an earlier merge of the same values changes nothing |
| `Plugin.InfoPlistIdempotent` | app.plugin.js:174-201 | a second run leaves Info.plist unchanged |
| `Plugin.RunTwiceEqualsRunOnce` | app.plugin.js:174-201 | with the host's filters tagged, a second run leaves all three documents as the first run left them |
| `Plugin.TagOnlyScenario` | app.plugin.js:46-53 | with NDEF excluded, a fresh entitlements file gets exactly `["TAG"]` |

## Left out

- The host's mod wrappers `withInfoPlist`, `withEntitlementsPlist` and `withAndroidManifest`
  schedule the edits and persist the documents. They belong to the host tool. Only their
  callbacks are modelled, as edits of the documents, applied in registration order.
- `AndroidConfig.Manifest.getMainActivityOrThrow` is a host lookup. It is a parameter
  `Option<ActivityNode>`, and `None` aborts with `MainActivityNotFound`. Only the activity's
  `intent-filter` list is modelled.
- `AndroidConfig.IntentFilters.getIntentFilters` and `.default` are host code. Their rendered
  result is an opaque parameter, with no claim about whether it is tagged. The early-return test
  uses the length of the rendered list, which assumes one rendered node per configured filter.
- `AndroidConfig.Version.withBuildScriptExtMinimumVersion` and
  `AndroidConfig.Permissions.withPermissions` are host code. Their raise-never-lower and
  dedupe behaviour is not visible in this source.
- Plist arrays hold strings only. A `Set` compares other values by SameValueZero or by object
  identity, which is not modelled.
- Values that are not strings where the plugin expects strings are not modelled: an
  `nfcPermission` of `true`, a data entry that is a string or number, a non-boolean
  `autoVerify`. A falsy data entry is `None`, and a falsy category is `None` or `""`.
- `selectIdentifiers` and `systemCodes` are lists or absent. A truthy non-array value, such as
  a single string, passes `|| []` at lines 67 and 81 and reaches the no-op at line 23. It cannot
  be expressed as `Option<seq<string>>`; it behaves as `Merged` with `None`.
- `intentFilters` is a required list. The runtime error the source raises when it is
  `undefined` is not modelled.
- Attribute objects are maps, so the insertion order of JavaScript object keys, and with it the
  order of attributes in the written XML, is not modelled.
- Writing the XML manifest and encoding the plists are host I/O and are not modelled.
- `Num` holds integers. Floating-point plist numbers and `NaN` truthiness are not modelled.
