# Magento configurator: version orchestration, ledger and record components

This project models the core of the Magento 2 configurator in Dafny.

The configurator applies a master file (`app/etc/master.yaml`). That file maps version numbers to ordered sets of components. Each component has an `enabled` flag, generic `sources`, and per-environment `env.<name>.sources`. A ledger table records every version that has been applied. One run does the following:
- works out the versions the ledger lacks;
- refuses to run when an older version was skipped, unless `force` is set;
- dispatches the components of each pending version, either all of them in declared order or a requested subset in request order;
- records each version once its loop body has finished.

The components turn parsed YAML/CSV records into Magento entities:
- CMS pages;
- webforms;
- the category tree of a store group;
- customers;
- customer groups.

Everything is modelled as pure functions over immutable data.

Parsed YAML and CSV are `Values.Value` trees. A PHP array is an ordered association list, `Values.Record`. In it, `Put` overwrites an existing key in place and appends a new key, and `HasKey` and `IsSet` keep PHP's `array_key_exists` and `isset` apart.

The following are function parameters ("oracles"):
- a component's `process()`;
- a storage failure;
- the clock;
- the page lookup;
- the image copy;
- the database's reading of a filter condition;
- the JSON import.

A run returns:
- the ordered trace of `(version, alias, source)` invocations;
- the new ledger;
- the log;
- a status.

Modules, one per source file plus shared ones:

| module | models |
|---|---|
| `Wrappers` | `Option`, `Result` |
| `Values` | PHP arrays and scalars |
| `Seqs` | prefix facts and the ordered-array helpers (keys, first-match lookup, entries whose save succeeds) |
| `Master` | the master document and `validateMasterYaml` |
| `Processor` | `Model/Processor.php` |
| `Versioning` | the ledger record |
| `VersioningRepository` | `save` and `getList` over the ledger table |
| `Pages` | `Component/Pages.php` |
| `Webforms` | `Component/Webforms.php` |
| `Categories` | `Component/Categories.php` |
| `FileTypes` | extension detection and the CSV header row shared by the two customer components |
| `Customers` | `Model/Component/Customers.php` |
| `CustomerGroups` | `Model/Component/CustomerGroups.php` |

Where the code does less, or something other, than its names suggest, the model follows the code:
- **"Latest" versions.** The latest applied version is `end()` of the ledger listing (Model/Processor.php:159-161). The listing is a query with no sort order, which the database returns in primary-key order, so that is the greatest applied version whatever order the versions were recorded in. The latest master version is the last key of the master file (Model/Processor.php:165-166), which need not be the greatest.
- **`enabled` flag.** Validation only checks that the node exists (Model/Processor.php:441-445), and `runComponent` (Model/Processor.php:319-375) never reads it, so a component with `enabled: false` still runs.
- **Validation failures.** `getMasterYaml` logs them and still returns the parsed document, which the run goes on to use (Model/Processor.php:380-396).
- **Validation scope.** Validation walks every top-level node of the master file, not only `versions`, and stops at the first failure (Model/Processor.php:430-486).

## Model

| member | source | states |
|---|---|---|
| Master.VersionsNode | Model/Processor.php:433-435 | The `versions` node is found exactly when some top-level node carries that name. |
| Seqs.Keys | Model/Processor.php:165 | `array_keys` of an ordered array (the versions node): one key per entry, in file order. |
| Master.ComponentsOf | Model/Processor.php:296-302 | A version's component set is found exactly when the version is a master key. |
| Seqs.Lookup | Model/Processor.php:263-269 | A lookup (an alias's config in a version, the `versions` node in the master file) succeeds exactly when some entry carries that key. |
| Master.EnvSourcesIn | Model/Processor.php:345-374 | No environment node of that name gives no sources. Otherwise the sources are exactly those listed under the first node with that name. |
| Master.SourceCountPositive | Model/Processor.php:447-469 | The counted sources reach one exactly when some source is listed, either generically or under any environment, whichever environment runs. |
| Master.EnvSourceCountPositive | Model/Processor.php:455-463 | The environment sources counted reach one exactly when some environment lists a source. |
| Master.CheckComponent | Model/Processor.php:440-479 | A component passes exactly when it has an `enabled` node, at least one source and an alias that resolves to a component. A failure names that alias. |
| Master.FirstFailing | Model/Processor.php:437-479 | The position found fails a check and every earlier component passes. No position means that every component passes. |
| Master.Validate | Model/Processor.php:430-486 | No error exactly when the `versions` node exists and every component of every node passes. A missing node is the error. Otherwise the error is that of the first failing component in traversal order. |
| Versioning.SetVersion | Model/Versioning.php:31-34 | After setting, the version reads back as set. The update time and every other field are unchanged. |
| Versioning.SetUpdateTime | Model/Versioning.php:39-42 | After setting, the update time reads back as set. The version and every other field are unchanged. |
| Versioning.GetIdentities | Model/Versioning.php:10-26 | Exactly one cache tag: `magento_configurator_versioning_` followed by the version, the identifier field. |
| Versioning.IdentitiesDistinguishVersions | Model/Versioning.php:23-26 | Records with different integer versions never share a cache tag. |
| Versioning.TextIntInjective | Model/Versioning.php:25 | Two integers that print the same are equal, the sign included. |
| VersioningRepository.ResourceSave | Model/ResourceModel/Versioning.php:8-18 | The insert succeeds exactly when the record carries an integer version not yet in the table and storage does not fail. It appends one row with that version and update time. |
| VersioningRepository.VersionsOfAppend | Model/ResourceModel/Versioning.php:18 | Inserting a row adds its version at the end of the ledger's versions. |
| VersioningRepository.Save | Model/VersioningRepository.php:90-98 | Success returns the very record given. Every storage error comes back as `CouldNotSave` with the same cause. A duplicate version always fails. |
| VersioningRepository.Condition | Model/VersioningRepository.php:112 | A missing or falsy condition type means `eq`. Any other condition type is kept. |
| VersioningRepository.Filtered | Model/VersioningRepository.php:110-115 | A row is kept exactly when it passes every filter of every group (all filters conjoined). The kept rows are a subsequence of the table: nothing is invented or reordered. |
| VersioningRepository.InsertByVersion | Model/VersioningRepository.php:130 | One step of the primary-key scan: the row goes into an ascending table, which stays ascending, grows by one, and holds only the new row and the old ones. |
| VersioningRepository.KeyOrder | Model/VersioningRepository.php:130 | A collection without sort orders is read back in ascending version (primary-key) order, one row per stored row. |
| VersioningRepository.KeyOrderPermutes | Model/VersioningRepository.php:130 | The key-order listing is a permutation of the stored rows. |
| VersioningRepository.KeyOrderSameVersions | Model/VersioningRepository.php:130 | The key-order listing holds exactly the stored versions. |
| VersioningRepository.LastListedIsGreatest | Model/VersioningRepository.php:130 | The last version of a non-empty key-order listing is a stored version and no stored version is greater. |
| VersioningRepository.DirectionOf | Model/VersioningRepository.php:117-125 | Ascending exactly when the sort order's direction is `SORT_ASC`, otherwise descending. |
| VersioningRepository.OrderClauses | Model/VersioningRepository.php:117-125 | One ORDER BY clause per sort order, in order, each with its field and direction. |
| VersioningRepository.PageOf | Model/VersioningRepository.php:126-127 | Without a positive page size every row is kept. With one, at most that many rows are kept. |
| VersioningRepository.Outputs | Model/VersioningRepository.php:128-143 | Exactly one output array per collection row, in order. |
| VersioningRepository.GetList | Model/VersioningRepository.php:104-145 | The criteria are echoed back. The total is the filtered count, taken before sorting and paging. The items are one output array per row of the sorted page, in order. |
| VersioningRepository.ListAllVersions | Model/VersioningRepository.php:104-145 | Empty criteria list every row in primary-key order, each item carrying its row's version. |
| Processor.ListedVersions | Model/Processor.php:159-160 | The `version` column read back from the listing is the ledger's versions in ascending order, however they were recorded. |
| Processor.PendingOfListing | Model/Processor.php:168-174 | The pending versions computed against the stored ledger are those computed against the listing `getVersions` reads: `in_array` ignores order. |
| Processor.InsertionOrderIgnored | Model/Processor.php:159-188 | Master versions 1 to 5 against a ledger that recorded 1, 4 and then 2: 3 is below the latest applied version 4, so without force the run is blocked with `[3]`, runs nothing and leaves the ledger alone. |
| Processor.GreatestAppliedVersion | Model/Processor.php:159-209 | For that ledger, 3 and 5 are pending and only 3 is missing, because the latest applied version read from the listing is 4, not the 2 recorded last. |
| Processor.VersionColumnOf | Model/Processor.php:160 | `array_column` over items that each carry an integer version is those versions in order. |
| Processor.AddComponent | Model/Processor.php:111-115 | The name is present afterwards. A name already present changes nothing. A new name is appended at the end. |
| Processor.AddComponentIdempotent | Model/Processor.php:111-115 | Adding the same component twice is the same as adding it once. |
| Processor.Requested | Console/Command/RunCommand.php:109-111 | The requested components are the `--component` names, each exactly once. None are requested exactly when no names are given. |
| Processor.NoDuplicatesAppend | Model/Processor.php:113 | Appending a name not yet present keeps the names distinct. |
| Processor.Pending | Model/Processor.php:168-174 | The pending versions are exactly the master keys absent from the ledger, as a subsequence of the master order. Distinct keys give distinct pending versions. |
| Processor.LastOf | Model/Processor.php:161-166 | `end()` gives the last element of the array and `false` (`None`) exactly for an empty array. Over the key-ordered listing that is the greatest applied version; over the master keys it is the last one declared. |
| Processor.Missing | Model/Processor.php:200-209 | A pending version is missing exactly when it is below both the last master key and the last ledger entry. With an empty ledger nothing is missing. The missing versions keep pending order. |
| Processor.EmptyLedgerMissesNothing | Model/Processor.php:161-204 | With an empty ledger `end()` yields `false`, so no version is ever missing. |
| Processor.Invocations | Model/Processor.php:331-332 | One invocation per source, in source order. |
| Processor.SelectedPlan | Model/Processor.php:260-269 | A version can finish in selected mode exactly when it defines every requested alias. |
| Processor.VersionPlan | Model/Processor.php:242-247 | In all-components mode a version can finish exactly when it is a master key. In selected mode it can finish exactly when it defines every requested alias. |
| Processor.RunSources | Model/Processor.php:331-333 | Sources run in order. Without a throw the trace gains exactly one invocation per source. A throw stops the loop right after the invocation that threw. |
| Processor.RunComponent | Model/Processor.php:319-375 | `runComponent` makes every generic source's invocation, then every source of the active environment. A throw leaves a prefix of that plan whose last invocation threw. |
| Processor.EnabledIgnored | Model/Processor.php:319-375 | A component runs identically whatever its `enabled` node says. |
| Processor.InvocationsAppend | Model/Processor.php:330-374 | The invocations of the generic then environment sources are those of the generic sources followed by those of the environment sources. |
| Processor.RunAll | Model/Processor.php:302-309 | In all-components mode every component runs in declared order. The trace is a prefix of that plan, the whole plan when nothing throws. |
| Processor.RunSelected | Model/Processor.php:260-277 | Requested aliases run in request order. An alias the version does not define stops the run with `AliasMissing`, naming that alias and version, after the aliases before it ran. |
| Processor.RunVersion | Model/Processor.php:257-312 | One version's loop body: it finishes only when the version's plan is complete. A stop other than a throw leaves exactly the plan's invocations before it. |
| Processor.NewRecord | Model/Processor.php:219-221 | The ledger record built carries the version and the clock's time. |
| Processor.SaveRecord | Model/Processor.php:216-229 | The version is appended unless it is already recorded or storage fails. A failure is logged and swallowed, and a log line appears exactly when the table is unchanged. |
| Processor.SaveVersion | Model/Processor.php:216-229 | Same as SaveRecord, for the record `saveVersion` builds from the version and the clock. |
| Processor.Saveable | Model/Processor.php:223-228 | The versions whose save does not fault are exactly those of the input whose fault oracle is silent. |
| Processor.Commit | Model/Processor.php:279-280 | Saving versions one by one keeps the ledger as a prefix of the result. |
| Processor.CommitMembers | Model/Processor.php:216-229 | Afterwards the ledger holds exactly what it held plus every saved version whose save did not fail. |
| Processor.CommitFresh | Model/Processor.php:279-280 | Saving distinct versions the ledger lacks appends exactly the ones whose save does not fail, in order. |
| Processor.RunVersions | Model/Processor.php:257-281 | The version loop never drops what was already logged. |
| Processor.Finished | Model/Processor.php:257-281 | The number of versions the loop completes never exceeds the pending count. |
| Processor.FinishedComplete | Model/Processor.php:257-281 | Every version the loop got through had a complete plan. |
| Processor.FinishedHalt | Model/Processor.php:257-281 | The loop ends without a halt exactly when it got through every pending version. |
| Processor.FinishedLedger | Model/Processor.php:279-312 | The ledger gains exactly the saves of the versions the loop got through, in order. |
| Processor.FinishedTrace | Model/Processor.php:257-312 | The trace is the whole plan of the finished versions followed by a prefix of the plan of the version in flight. |
| Processor.RunVersionsShape | Model/Processor.php:250-317 | For some `k`, the first `k` pending versions ran their whole plan and were saved, failed saves aside. The loop halts exactly when `k` falls short. A halt happens inside version `k` after a prefix of its plan. |
| Processor.RunVersionsStep | Model/Processor.php:279-281 | A version whose body finishes is saved, and the loop carries on from the next version. |
| Processor.ValidationLog | Model/Processor.php:430-486 | A validation error is logged once, and nothing is logged when validation passes. |
| Processor.LoadMaster | Model/Processor.php:380-396 | `getMasterYaml` returns the parsed document whatever validation found. It logs exactly when validation fails. |
| Processor.Run | Model/Processor.php:234-248 | Nothing pending means that nothing runs and nothing is saved. The validation log is kept at the head of the run's log. |
| Processor.RunGate | Model/Processor.php:176-190 | A run with something pending is blocked exactly when older versions are missing and `force` is off. A blocked run makes no invocation, saves nothing and reports the missing versions. |
| Processor.OlderVersionBlocks | Model/Processor.php:182-188 | Master versions 1, 2, 3 against ledger 1, 3: version 2 is missing, and without force the run is blocked with nothing run or saved. |
| Processor.Dispatch | Model/Processor.php:237-247 | The version loop of a dispatched run keeps the two validation logs (the master file is read again) at the head of its log, and ends without a halt exactly when every pending version finished. |
| Processor.StatusOf | Model/Processor.php:237-247 | A dispatched run completes exactly when the loop did not halt, and escapes exactly when a foreign exception stopped it. |
| Processor.RunDispatches | Model/Processor.php:237-247 | Past the gate, the run's trace and ledger are the version loop's. It completes exactly when the loop does not halt. |
| Processor.RunShape | Model/Processor.php:234-317 | Past the gate, the first `k` pending versions ran their whole plan in pending order and were recorded, failed saves aside. The run completes exactly when `k` covers every pending version. Otherwise it stopped inside version `k` after a prefix of its plan. |
| Processor.RunRecordsFinishedVersions | Model/Processor.php:279-316 | With distinct master keys, the ledger gains exactly the finished versions whose save did not fail. The version in flight when a run stopped is never recorded. |
| Processor.CommitPending | Model/Processor.php:279-280 | Committing the first `k` of distinct fresh versions appends the saveable ones and leaves version `k` unrecorded. |
| Processor.NoDuplicatesPrefix | Model/Processor.php:169-174 | A prefix of distinct versions is distinct, and the version after it is not in it. |
| Processor.FinishedAll | Model/Processor.php:257-312 | When nothing throws and every plan is complete, the loop gets through every pending version. |
| Processor.QuietLoop | Model/Processor.php:257-312 | When nothing throws and every plan is complete, the loop makes exactly the planned invocations and records every pending version whose save does not fail. |
| Processor.QuietRunCompletes | Model/Processor.php:234-317 | The same for a whole run past the gate: it completes, makes exactly the planned invocations and records every pending version whose save does not fail. |
| Processor.RunVersionsIgnoresLog | Model/Processor.php:257-312 | The version loop's trace, ledger and halt do not depend on what was logged before it. |
| Processor.ValidationOnlyLogs | Model/Processor.php:380-396 | Whatever validation finds, a run makes the same invocations, leaves the same ledger and ends the same way. |
| Pages.CheckRequiredFields | Component/Pages.php:182-189 | Passes exactly when `title` is a key, whatever its value. Otherwise the message is "Required Data Missing title". |
| Pages.SetDefaultFields | Component/Pages.php:195-202 | `page_layout='empty'` and `is_active='1'` are added only for absent keys. Present values and all other keys are untouched, and the entry is a prefix of the result. |
| Pages.SetDefaultFieldsIdempotent | Component/Pages.php:195-202 | Applying the defaults twice is the same as once. |
| Pages.SetData | Component/Pages.php:137-138 | The key holds the value afterwards and the other keys are unchanged. The page is marked changed exactly when it already was or the stored value differed. |
| Pages.UnsetData | Component/Pages.php:152-153 | The key is gone and the other keys are unchanged. The page is marked changed exactly when the key was present. |
| Pages.Writes | Component/Pages.php:116-126 | No write targets `stores` or `source`, since `source` is written as `content`. |
| Pages.Apply | Component/Pages.php:116-147 | The writes never change the page's id. A page no write changed is returned as it was. |
| Pages.ApplyValue | Component/Pages.php:116-147 | After the writes, every key holds the last value written to it, and untouched keys keep their stored value. |
| Pages.ApplyUnchanged | Component/Pages.php:137 | Writes that all match the stored values leave the page exactly as loaded. |
| Pages.ApplyChanged | Component/Pages.php:137-138 | The page is marked changed only if it already was or some write differed from the stored value. |
| Pages.StoreIds | Component/Pages.php:155-158 | The ids of all listed store codes, in order. The lookup fails exactly when some code is unknown, naming such a code. |
| Pages.IdValues | Component/Pages.php:157-160 | The store ids handed to `setStores`: one per id, in order. |
| Pages.ResolveId | Component/Pages.php:94-102 | Without `stores` the lookup is in store 0. With stores the id found in the last listed store wins, and an unknown code fails. An empty list keeps the previous entry's id. |
| Pages.LoadPage | Component/Pages.php:105-110 | A truthy id loads that page or fails with `NoSuchPage`. Id 0 gives a new, changed page carrying only the identifier. |
| Pages.AssignStores | Component/Pages.php:150-161 | Stores become `[0]` unless `stores` is set. When set, they become the ids of the listed codes in order, with `store_id` and `store_data` removed. Nothing else changes. |
| Pages.SavePage | Component/Pages.php:164-170 | The page is saved only when it reports changes: in place when loaded, appended when new. |
| Pages.WriteEntry | Component/Pages.php:113-161 | Writing an entry fails exactly when a listed store code is unknown. It keeps the page's id and returns an unchanged page as it was. |
| Pages.WriteEntryValue | Component/Pages.php:113-147 | Outside the store fields, every key ends with the last value the defaulted entry writes to it, or keeps its stored value. |
| Pages.ProcessEntry | Component/Pages.php:94-170 | A successful entry adds a page to the table exactly when it resolved to no existing page. |
| Pages.ProcessEntryOutcome | Component/Pages.php:94-170 | Once the id resolves and the page loads, an entry succeeds exactly when it has a title and its stores resolve. A missing title is the required-field error. A success touches no page but the one its id names. |
| Pages.ProcessEntrySteps | Component/Pages.php:94-170 | A successful entry went through resolving, loading, writing and saving, in that order. |
| Pages.ProcessEntryOf | Component/Pages.php:94-170 | Resolving, loading, a title and a successful write give exactly the saved table. |
| Pages.StoredIsWritten | Component/Pages.php:104-170 | What a successful entry stores is exactly what it wrote to the page it loaded. |
| Pages.SavedWhereLoaded | Component/Pages.php:105-170 | A written page is saved where it was loaded from, or appended when new. |
| Pages.EntryStoresAttributes | Component/Pages.php:116-147 | After a successful entry, the page holds every attribute the entry writes, `content` read from `source` included. The last write to a key wins. |
| Pages.WriteEntryUnchanged | Component/Pages.php:137-150 | An unchanged page that already holds every value and store 0 is returned untouched. |
| Pages.UnchangedPageNotSaved | Component/Pages.php:164-170 | An existing page that already holds every value an entry writes is not saved again. |
| Pages.AdminPageLoads | Component/Pages.php:101-106 | Without `stores`, the entry's page is the admin-store page, loaded unchanged. |
| Pages.ProcessPage | Component/Pages.php:90-175 | Processing an identifier never removes pages. |
| Pages.ProcessPageStops | Component/Pages.php:94-174 | Entries after the one that stopped an identifier are never processed. |
| Pages.ProcessData | Component/Pages.php:72-81 | Processing every identifier never removes pages. |
| Pages.ProcessDataStops | Component/Pages.php:74-80 | After a missing required field, the remaining identifiers are never processed. |
| Pages.SkippedIdentifierContinues | Component/Pages.php:172-174 | A missing store or page ends only its own identifier. The error is logged and the next identifier runs. |
| Webforms.CheckRequiredFields | Component/Webforms.php:109-116 | Passes exactly when `source` is a key. Otherwise the message is "Required Data Missing source". |
| Webforms.SetDefaultFieldsAsWritten | Component/Webforms.php:122-129 | As written, the entry is left unchanged. |
| Webforms.SetDefaultFields | Component/Webforms.php:122-129 | As intended, an absent `is_active` becomes 1 and present keys are untouched. |
| Webforms.ParseErrors | Component/Webforms.php:94-96 | Every parse error is logged, in order. |
| Webforms.ImportEntry | Component/Webforms.php:82-100 | A form is saved exactly when parsing reports no errors, the import yields a truthy id and the save succeeds. It is saved with the entry's `is_active`. Parse errors are logged and nothing is imported. |
| Webforms.FormStep | Component/Webforms.php:79-100 | One entry with the intended defaults saves at most one form, keeps what was saved before, and a form it saves carries the entry's `is_active` or 1 when the entry leaves it out. |
| Webforms.FormStepAsWritten | Component/Webforms.php:79-100 | One entry as written saves at most one form, keeps what was saved before, and a form it saves carries whatever reading `is_active` gives: null when the entry leaves it out. |
| Webforms.FormStepActivates | Component/Webforms.php:86-92 | With the intended defaults, a form whose entry omits `is_active` is saved active. |
| Webforms.FormStepAsWrittenDeactivates | Component/Webforms.php:89 | As written, such a form is saved with `is_active` null. |
| Webforms.AsWrittenCounterexample | Component/Webforms.php:122-129 | The entry `{source: "form.json"}` imported as id 5 is saved with null as written, and with 1 as intended. |
| Webforms.ProcessForm | Component/Webforms.php:76-102 | Saves and log only grow. The form's loop raises exactly when some entry lacks `source`, with the required-field message. |
| Webforms.ProcessFormStops | Component/Webforms.php:79-81 | An entry missing `source` ends the form's loop: later entries are never reached. |
| Webforms.ProcessFormContinues | Component/Webforms.php:79-101 | An entry with `source` goes through the one-entry step, whose failures are logged inside it, and the remaining entries run from the state that step left. |
| Webforms.ProcessData | Component/Webforms.php:61-70 | Processing every identifier keeps all earlier saves and log lines. |
| Webforms.ProcessDataStops | Component/Webforms.php:63-69 | A missing `source` under one identifier skips every identifier after it. |
| Webforms.Run | Component/Webforms.php:88-90 | Only forms whose import produced a truthy id are ever saved. |
| Webforms.SavedIdsNonZero | Component/Webforms.php:88-90 | Across identifiers, every saved form has a non-zero id. |
| Webforms.FormIdsNonZero | Component/Webforms.php:88-90 | Within one form's loop, every saved form has a non-zero id. |
| Categories.Lower | Component/Categories.php:54 | `strtolower`: same length, and each ASCII capital is lowered while every other character is kept. |
| Categories.KeepSlugChars | Component/Categories.php:54 | Only characters from `[A-Za-z0-9 ]` remain, in order. A string made only of those is unchanged. |
| Categories.CollapseSpaces | Component/Categories.php:54 | No space remains, and every run of spaces becomes one dash. Dash-free input gives no double dash. |
| Categories.Trim | Component/Categories.php:54 | No leading or trailing whitespace remains, and the result is drawn from the input. Input without such whitespace is unchanged. |
| Categories.UrlKey | Component/Categories.php:54 | The corrected URL key holds only letters, digits and dashes, with no double dash and no dash at either end. |
| Categories.UrlKeyAsWrittenSkipsTrim | Component/Categories.php:54 | As written, the final trim never removes anything, because the collapse leaves no whitespace. |
| Categories.UrlKeyAsWritten | Component/Categories.php:54 | As written, the URL key still holds only letters, digits and dashes. |
| Categories.UrlKeyAsWrittenLeadingDash | Component/Categories.php:54 | As written, a name whose decoded form starts with a space gets a URL key starting with a dash. |
| Categories.UrlKeyCounterexample | Component/Categories.php:54 | The store group " Main" gets a URL key starting with a dash as written, and not with the trim done first. |
| Categories.Load | Component/Categories.php:118 | A stored id loads that category. Any other id gives an empty model. |
| Categories.Find | Component/Categories.php:151-155 | The first category matching name and parent id, or a fresh model exactly when none matches. |
| Categories.Save | Component/Categories.php:198 | A stored category is overwritten in place. A new one is appended under the next id and loads back as saved. |
| Categories.GroupsNamed | Component/Categories.php:111-112 | The store groups filtered by name: exactly those with that name. |
| Categories.GetDefaultCategory | Component/Categories.php:109-132 | Exactly one matching group gives its root category. More than one, or none, throws its own message. |
| Categories.DefaultCategoryOfUniqueGroup | Component/Categories.php:113-120 | A group whose name no other group shares has its root category loaded. |
| Categories.SwitchesToMainIff | Component/Categories.php:159 | A truthy attribute name takes the `setData` branch exactly when it is a main attribute. |
| Categories.WriteAttribute | Component/Categories.php:157-183 | Main attributes go to `setData` and `category` is skipped. `image` stores the copied file name, or logs when the copy fails. Everything else is a custom attribute. |
| Categories.WriteAttributes | Component/Categories.php:157-183 | The attribute loop never touches id, parent or path. |
| Categories.WriteAttributesMain | Component/Categories.php:157-161 | After the loop, a main attribute holds the last value the entry gives it. |
| Categories.WriteAttributesCustom | Component/Categories.php:180-181 | Any other attribute name except `category` and `image` ends as a custom attribute with its last value, and is not set as data. |
| Categories.WriteAttributesSkipsCategory | Component/Categories.php:162-163 | A `category` key is written nowhere. |
| Categories.SaveOne | Component/Categories.php:146-203 | The entry is matched by name and parent. A found category keeps its id and gets path `parent path + '/'`, while a new one gets the next id and the parent path. `is_active` defaults to true, the parent is set, one save is recorded and the saved category loads back as saved. |
| Categories.Prepare | Component/Categories.php:157-197 | Before the save, the category keeps the found id, gets the parent's id and the path rule, and is active unless the entry sets `is_active`. |
| Categories.SaveOneMain | Component/Categories.php:157-198 | The saved category holds, for each main attribute, the last value the entry gives it, or else the found category's value; an unset `is_active` is true. |
| Categories.SaveOneCustom | Component/Categories.php:180-198 | The saved category holds, for every other attribute except `category` and `image`, the last value the entry gives it as a custom attribute, or else the found category's. |
| Categories.UpdateOne | Component/Categories.php:146-207 | One entry keeps every earlier save and log line, never shrinks the catalog, and its own save comes first, under its parent. |
| Categories.UpdateList | Component/Categories.php:146-208 | The loop keeps every earlier save and log line, never shrinks the catalog, and records at least one save per remaining entry. |
| Categories.UpdateOnePreOrder | Component/Categories.php:195-207 | Pre-order: the entry is saved first, under its parent, and every later save of its subtree is under a category saved before it. |
| Categories.UpdateListPreOrder | Component/Categories.php:146-208 | The loop keeps earlier saves and adds a tree below the parent, each parent saved before its children. |
| Categories.RootedJoin | Component/Categories.php:146 | Two consecutive subtrees under the same parent form one. |
| Categories.RootData | Component/Categories.php:71-75 | A new root carries the group name, is active, and has the URL key and the root store id. |
| Categories.CreateRoot | Component/Categories.php:53-77 | A new root category is appended under tree root 1, with its path, name, active flag and URL key. |
| Categories.ProcessStore | Component/Categories.php:49-98 | No `store_group` means the entry is skipped. `new_root === true` creates a root and skips the update branch. Unset or false `new_root` finds the group's root: a failed lookup is logged, and a found group without `categories` changes nothing. Any other `new_root` does neither. Nothing saved or logged before is lost. |
| Categories.StoreGroupStep | Component/Categories.php:52-94 | A named store group never loses an earlier save or log line, nor shrinks the catalog. |
| Categories.LookupGroup | Component/Categories.php:81-97 | The lookup branch never loses an earlier save or log line, nor shrinks the catalog. |
| Categories.UpdateGroup | Component/Categories.php:88-93 | A found group without `categories` changes nothing; with them, nothing earlier is lost. |
| Categories.UpdateGroupTree | Component/Categories.php:88-93 | A found group listing `categories` logs `Updating categories` and saves at least one category per listed entry, all in a tree below its root. |
| Categories.ProcessStoreUpdatesTree | Component/Categories.php:80-93 | The same for a whole store entry with unset or false `new_root` whose group is found. |
| Categories.ProcessStores | Component/Categories.php:49-99 | The store loop never loses an earlier save or log line, nor shrinks the catalog. |
| Categories.UngroupedStoreSkipped | Component/Categories.php:51 | A store without `store_group` is passed over, and the loop goes on from the same state. |
| Categories.ProcessData | Component/Categories.php:46-101 | Nothing happens without a `categories` node. Otherwise no earlier save or log line is lost and the catalog never shrinks. |
| Categories.FailedGroupContinues | Component/Categories.php:96-98 | A group whose lookup fails only logs, and the next group runs from the same catalog. |
| FileTypes.LastIndexOf | Model/Component/Customers.php:105 | The last occurrence of a character, or none exactly when it is absent. |
| FileTypes.Basename | Model/Component/Customers.php:105 | `pathinfo`'s base name holds no slash, and it is the end of the path with trailing slashes removed: all of it without a slash, else what follows the last slash. |
| FileTypes.Extension | Model/Component/Customers.php:102-113 | `getFileType` is the text after the last dot of the base name. It throws exactly when the base name has no dot. |
| FileTypes.AttributesFromCsv | Model/Component/Customers.php:121-128 | The first row's cells, unchanged and in order. No first row gives none. |
| FileTypes.Columns | Model/Component/Customers.php:76-78 | Each header name is paired with the row's cell in that column, and a short row reads null. |
| FileTypes.RowRecordValue | Model/Component/Customers.php:75-79 | A record has a key exactly when the header names it, holding the cell of the last column of that name. |
| FileTypes.RowRecordColumn | Model/Component/Customers.php:75-79 | With distinct column names, column `j`'s name maps to the row's cell `j`. |
| FileTypes.Records | Model/Component/Customers.php:74-80 | One record per data row, in order. |
| Customers.ParseData | Model/Component/Customers.php:44-57 | Rows come back, and the type becomes `csv`, exactly when the extension is `csv`. A missing extension is logged and gives nothing. |
| Seqs.Kept | Model/Component/Customers.php:82-92 | The customers (and, in the same way, customer groups) saved are exactly those whose save does not fail; none is added. |
| Customers.SaveAll | Model/Component/Customers.php:82-92 | One log line per customer, in order. A failed save is logged with the email and the loop goes on. |
| Customers.ProcessData | Model/Component/Customers.php:59-94 | Nothing happens unless the type is `csv`. There, a missing row 0 throws "The row data is not valid.". Otherwise each of the rows−1 header-keyed customers gets its log line, in order, and the saved customers are exactly those whose save does not fail, in order. |
| Customers.CustomersOfRows | Model/Component/Customers.php:63-80 | The header row is dropped, and each later row becomes a record mapping `header[j]` to its cell `j`, rows−1 of them in order. |
| Customers.StaleTypeThrows | Model/Component/Customers.php:48-67 | The type persists, so a YAML source after a CSV source parses to nothing and then throws. |
| CustomerGroups.ParseData | Model/Component/CustomerGroups.php:42-54 | Data comes back, and the type becomes `yaml`, exactly when the extension is `yaml`. A missing extension is logged and gives nothing. |
| CustomerGroups.SaveAll | Model/Component/CustomerGroups.php:64-73 | Groups are saved in order with one log line each. A failure is logged with the group code and the loop continues. |
| CustomerGroups.ProcessData | Model/Component/CustomerGroups.php:56-76 | Nothing happens without a `customer_groups` key. Otherwise each group under it gets its log line, in order, and the saved groups are exactly those whose save does not fail, in order. |
| CustomerGroups.AllSavedInOrder | Model/Component/CustomerGroups.php:64-73 | When no save fails, every group is saved, in order. |

## Left out

- **YAML and CSV text parsing.** Components receive the parsed arrays, and the JSON and CSV readers are parameters.
- **File system access.**
  - Reading `master.yaml` and the missing-file exception at Model/Processor.php:383-386 are left out.
  - `canParseAndProcess` and its `file_exists` check are left out.
  - `file_get_contents` in pages and webforms is an oracle.
  - The image copy in categories is an oracle that yields the stored file name or fails. Its `basename`/`parse_url` handling is not modelled.
- **Magento entity repositories, factories and collections.** These are sequences (pages, catalog, ledger rows) or oracles (page lookup, store codes, form import, group collection).
  - `emulateAreaCode`, `Bootstrap`, `ObjectManager` and the area-code setup are left out.
  - `setAttributeSetId` is left out.
  - Category `level` in the log is left out.
- **Log text.** Comment and info lines that only decorate the console are left out. Error-level entries are kept as structured values, not formatted strings.
- **Timestamps.** The update time is whatever the `clock` parameter gives for the version.
- **`isObjectNew` on the ledger record.** It only delegates to the framework's flag. The insert-only save is modelled directly in `VersioningRepository.ResourceSave`.
- VersioningRepository.PageOf: it models the collection's page window. The framework's clamping of out-of-range page numbers is not modelled, and the contract states only the bounds.
- **Column width.** The ledger's `version` column width is not modelled. Versions are unbounded integers.
- **PHP loose comparisons.** These are modelled as value equality and integer order, with versions as integers:
  - `!=` at Component/Pages.php:137;
  - `<` at Model/Processor.php:204;
  - `in_array` at Model/Processor.php:171.

  The loose `switch` at Component/Categories.php:159 is modelled case by case, with attribute keys as strings. PHP stores the key `"0"` as the integer 0, which under PHP 7 equals `'category'`, so `Categories.Skipped` passes it over like `category`. Any other numeric key takes the same branch as a string would, the default one.
- **Processor state across runs.** `$this->versions` accumulating over repeated `run()` calls on one instance is not modelled: each run starts fresh.
- Processor.Run: requires a non-empty environment, carrying over the command's check at Console/Command/RunCommand.php:99-101.
- Processor.RunVersion: the `VersionMissing` halt (Model/Processor.php:296-299) is kept but unreachable in the model. In the program a version key whose YAML value is null (`3:`) is listed by `array_keys` at :165 and then fails the `isset` at :296, so the run logs and halts there. `Master.Document` gives every version a list of components, so a version with a null value cannot be written in the model.
- Processor.RunVersions: its own contract states only that the log grows; what the loop runs and records is stated by Processor.RunVersionsShape.
- Processor.Finished: its own contract states only the bound; Processor.FinishedComplete, Processor.FinishedHalt, Processor.FinishedLedger and Processor.FinishedTrace state the rest.
- Pages.ProcessPage: its own contract states only that no page is removed; Pages.ProcessPageStops and Pages.ProcessEntryOutcome state how entries stop and what they write.
- Pages.ProcessData: its own contract states only that no page is removed; Pages.ProcessDataStops and Pages.SkippedIdentifierContinues state which identifiers run.
- Webforms.ProcessData: its own contract states only that saves and log grow; Webforms.ProcessDataStops and Webforms.SavedIdsNonZero state the rest. The loop runs the corrected defaults of `Webforms.FormStep`, not the as-written `Webforms.FormStepAsWritten` (see Findings).
- Webforms.ProcessForm: the entry loop runs `Webforms.FormStep`, which applies the corrected `Webforms.SetDefaultFields`. Component/Webforms.php:81 as written leaves the entry unchanged, which `Webforms.FormStepAsWritten` models. For an entry without `is_active`, the loop saves an active form where the program would not set `is_active`.
- Webforms.ProcessFormContinues: the continuation it states is the corrected `Webforms.FormStep`, not the as-written step.
- Webforms.Run: the forms it saves carry the corrected `is_active` default, not the program's.
- Processor.Commit: its own contract states only that the ledger is kept as a prefix; Processor.CommitMembers and Processor.CommitFresh state what is added.
- Categories.CreateRoot: the new root's `url_key` is the corrected `Categories.UrlKey`. Component/Categories.php:54 as written computes `Categories.UrlKeyAsWritten`, which gives `"-main"` where the model stores `"main"` (see Findings).
- Categories.ProcessStore: roots it creates carry the corrected URL key, as for Categories.CreateRoot.
- Categories.ProcessData: roots created in the store loop carry the corrected URL key, as for Categories.CreateRoot.
- Categories.WriteAttributes: its own contract states only that id, parent and path are kept; Categories.WriteAttributesMain, Categories.WriteAttributesCustom and Categories.WriteAttributesSkipsCategory state where each attribute goes.
- **Save failures.** Pages' repository save and categories' and root categories' saves are assumed to succeed. Only the ledger, customer, customer-group and webform saves have failure oracles.
- **Page change tracking.** `hasDataChanges` is approximated by a `changed` flag that `setData` sets when the value differs and `unsetData` sets when the key was present.
- **Unreachable branches.** The `return false` at Component/Categories.php:131 and the check at :82-86 cannot be reached and are not modelled.
- **Notices as exceptions.** Reading an undefined array index is modelled as PHP's default, a null value, and `foreach` over a non-array as a loop that does nothing. Magento's error handler, installed by `bin/magento`, turns these notices and warnings into exceptions, and the model does not follow it:
  - Component/Webforms.php:89 on an entry without `is_active` would throw inside the `try`. The program would log it at :98-99 and save no form; the as-written model saves the form with `is_active` null.
  - Model/Component/Customers.php:77 on a row shorter than the header would throw outside any `try`; the model reads null for the missing cells.
- **Null data.** `array_key_exists` on null data (Model/Component/CustomerGroups.php:61 after a non-YAML source) is read as "no key" rather than a PHP error.
- **Validation lookup.** The check that a component exists (`isValidComponent`) is a set of aliases that resolve to a component. Its log lines are left out.

## Findings

| source | as written | input that shows it | evidently intended | confidence | as-written member | corrected member |
|---|---|---|---|---|---|---|
| Component/Webforms.php:122-129 | `setDefaultFields` assigns the default to a new local `$pageData`, so the by-reference `$formData` never gets `is_active`. Line 89 then reads a missing key. | The entry `{source: "form.json"}` whose import yields id 5. With PHP's default notice handling the form is saved with `is_active` null. Under Magento's error handler the read throws, the exception is caught and logged at :98-99, and the form is not saved. | A missing `is_active` defaults to 1, so the form is saved active. | not executed | Webforms.SetDefaultFieldsAsWritten (shown by Webforms.FormStepAsWrittenDeactivates, Webforms.AsWrittenCounterexample) | Webforms.SetDefaultFields (proved by Webforms.FormStepActivates) |
| Component/Categories.php:54 | `trim` runs after spaces have become dashes, so it never removes anything, and leading or trailing spaces survive as dashes. | The store group name `" Main"` gets the URL key `"-main"`. | Trim before collapsing spaces, so the key never starts or ends with a dash. | not executed | Categories.UrlKeyAsWritten (shown by Categories.UrlKeyAsWrittenSkipsTrim, Categories.UrlKeyCounterexample) | Categories.UrlKey |
