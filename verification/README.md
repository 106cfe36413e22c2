# Proofs about OCA server-tools

This project models the parts of OCA server-tools (a set of Odoo addons) that hold an algorithm or a
protocol, and proves what they are for. The ORM, SQL and the network are plain state: maps, sequences
and sets, with failures and other processes as inputs. Code that changes lists, dictionaries or
records in place is a class or a method with loops, proved equal to a function on values; the laws are
lemmas about those functions and about whole runs.

| file | what it models |
|---|---|
| `Matching.dfy`, `UpgradeCompare.dfy`, `UpgradeXmlCompare.dfy` | upgrade_analysis: greedy matching of old and new records in several passes |
| `UpgradeLog.dfy` | upgrade_analysis: merging module registries and logging differences |
| `Domains.dfy`, `InverseExpression.dfy`, `Splitting.dfy`, `NameSearch.dfy` | Odoo domains in prefix notation: one evaluator, the inverse of AND and OR, the word-by-word name search |
| `Changeset.dfy`, `ChangesetStore.dfy`, `ChangesetCalls.dfy`, `ChangesetLaws.dfy`, `ChangesetRules.dfy` | base_changeset: writes split into direct, held and refused parts, and what approvals do later |
| `Machines.dfy`, `AttachmentQueue.dfy`, `CronExclusion.dfy`, `SessionStore.dfy` | concurrent protocols: job queue with row locks, exclusive scheduled actions, session table behind a failing connection |
| `AuditLog.dfy` | auditlog in full mode, as event sourcing |
| `ViewDomainText.dfy`, `ViewDict.dfy` | base_view_inheritance_extension: marking variables in domain texts, updating dictionary displays |
| `SentryVarmap.dfy`, `SentryKeyVals.dfy` | sentry: mapping a function over cyclic data, masking passwords |
| `BackupNames.dfy` | auto_backup: file names that order like times |
| `TimeWindow.dfy` | base_time_window: overlap check after each write |
| `Wrappers.dfy`, `Sequences.dfy` | option and result types, facts about sequences |

`dafny verify dfyconfig.toml` checks the whole project.

Where the code does not do what its documentation or its callers expect, the model follows the code,
a lemma names an input, and the exact condition is proved:

- `inverse_combine` is documented to decompose any normalized domain with the given main operator. It
  loses operands, takes them apart, or raises, unless all are flat, the first one is not a group of the
  operator itself, and either there is no leaf, or the first operand is a leaf and there are at least two
  (`InverseUndoesExactly`, with the smallest failures beside it).
- The second loop of `search`, meant for renamed fields, never returns anything (`RenamedSearchNeverFires`).
- In the name search `args or [] + configured` takes the configured domain only when no domain is given
  (`ConfiguredIsKeptExactly`, `ConfiguredIsIgnored`).
- `compare_registries` does not log a change back to a value that the same module logged before in a
  record of the same mode (`LogItemReplaysExactly`, `FourthChangeIsLost`).
- A logged read of a field that is not audited has no previous line to start from (`LogChains`,
  `UnauditedReadStartsAnew`).
- A pending attachment is meant to have a job. It has none after the failure handler itself raised in its
  last one (`EveryRunSafe`, `HandlerStrands`).
- `str2var_domain_text` takes a literal that ends with the suffix for a marked variable (`TextRevertsExactly`,
  `MarkedLiteralIsLost`, `MarkedChainIsLost`).
- `ast_dict_update` replaces the first of several equal keys, although the last one counts
  (`UpdateMeansExactly`, `RepeatedKeyKeepsOldValue`).
- The overlap check of time windows does not run when only the owner is written (`StepKeepsApartExactly`,
  `MovedWindowOverlaps`).
- A retried `save` can bring back a session that another process deleted meanwhile
  (`SessionReturnsExactly`, `DeletedSessionReturnsExactly`, `DeletedSessionReturns`); the final table is
  still that of one application.

## Model

| member | source | states |
|---|---|---|
| `Matching.FirstFit` | upgrade_analysis/compare.py:86-101 | the first record of the list with the right key, or None exactly when there is none |
| `Matching.PassTakesSharedKeys` | upgrade_analysis/compare.py:220-233 | a greedy pass makes as many pairs as the two lists share keys, counted with multiplicity (for each key the smaller of the two counts) |
| `Matching.PassMoves` | upgrade_analysis/compare.py:220-233 | a pass conserves records: each one stays in its list or is in exactly one new pair, and every new pair fits |
| `Matching.NoPairLeft` | upgrade_analysis/compare.py:220-233 | after a pass over the whole old list no old and new record that fit are left |
| `Matching.FittingPairsShareKeys` | upgrade_analysis/compare.py:220-233 | any set of disjoint fitting pairs has at most as many pairs as there are shared keys |
| `Matching.PassIsMaximum` | upgrade_analysis/compare.py:220-233 | the greedy pass is a maximum matching: no other way to pair off records gives more pairs |
| `Matching.PassIgnoresOrder` | upgrade_analysis/compare.py:220-233 | the number of pairs does not depend on the order of either list |
| `UpgradeCompare.CompareIsKeyEquality` | upgrade_analysis/compare.py:57-83 | comparing modulo the rename maps, `other_prefix` included, is equality of a key of the old and a key of the new record |
| `UpgradeCompare.ComparesEachKey` | upgrade_analysis/compare.py:57-83 | two records compare equal by a list of keys exactly when they do by each of them |
| `UpgradeCompare.ModulesMatchExactly` | upgrade_analysis/compare.py:29-32 | by module: a renamed module must have its new name, else a merged one the name it was merged into, else its own |
| `UpgradeCompare.ModelsMatchExactly` | upgrade_analysis/compare.py:35-36 | by model: a renamed model must have its new name, any other its own |
| `UpgradeCompare.OtherPrefixMatchesExactly` | upgrade_analysis/compare.py:73-82 | by `other_prefix`: both modules are the prefixes of their identifiers, and the record is no view |
| `UpgradeCompare.OtherKeysMatchExactly` | upgrade_analysis/compare.py:83-84 | by any other key: the same value, or none in both |
| `UpgradeCompare.PassesCompare` | upgrade_analysis/compare.py:235-283 | a field is the same in the same module, or the same with the same type in any module |
| `UpgradeCompare.CleanedExactly` | upgrade_analysis/compare.py:197-205 | only records of the five technical fields are dropped |
| `UpgradeCompare.ObsoleteExactly` | upgrade_analysis/compare.py:207-218 | a record is obsolete when no new record has its model, nor the name it was renamed to or else merged into |
| `UpgradeCompare.RenamedSearchNeverFires` | upgrade_analysis/compare.py:102-109 | the second loop of `search` returns nothing for any record and list: its guard always skips |
| `UpgradeCompare.SearchIsFirstFit` | upgrade_analysis/compare.py:86-109 | the whole of `search` finds the first record with the right key and nothing else |
| `UpgradeCompare.ObsoleteFitsNothing` | upgrade_analysis/compare.py:207-218 | a record of an obsolete model compares equal to no new record, so leaving it out of the passes loses no match |
| `UpgradeCompare.FieldComparison.Take` | upgrade_analysis/compare.py:229-232 | one match removes exactly one record from each of the three lists and keeps their relation |
| `UpgradeCompare.FieldComparison.Match` | upgrade_analysis/compare.py:220-233 | the loop of the `match` closure, over a copy of a list it shrinks, is one greedy pass and returns its count |
| `UpgradeCompare.MatchIsMaximum` | upgrade_analysis/compare.py:220-233 | with the real keys: no other pairing of records that compare equal is larger than that of `match` |
| `UpgradeCompare.MatchIgnoresOrder` | upgrade_analysis/compare.py:220-233 | with the real keys: the count of `match` does not depend on the order of the records |
| `UpgradeCompare.PassLeavesUnmatchable` | upgrade_analysis/compare.py:220-233 | after `match` no old and new record that are left compare equal by its fields |
| `UpgradeCompare.ThirdPassIsIdle` | upgrade_analysis/compare.py:235-283 | the third pass, which repeats the fields of the first one, changes nothing |
| `UpgradeCompare.RecordsConserved` | upgrade_analysis/compare.py:195-283 | after the passes every cleaned old and new record is in one pair or left over |
| `UpgradeCompare.LeftoversUnmatchable` | upgrade_analysis/compare.py:220-283 | nothing that is left over could still be matched by the fields of any pass, obsolete models included |
| `UpgradeCompare.CompareSets` | upgrade_analysis/compare.py:195-283 | the counters of lines 339-347: matched is the sum of the three passes, matched + not matched and matched + new are the cleaned lists, the third count is 0, the direct count is maximal, every pair compares equal by the fields of its pass, nothing matchable is left |
| `UpgradeXmlCompare.MatchUpdates` | upgrade_analysis/compare.py:355-364 | the loop over a copy of a list that removes from the list itself leaves exactly the records no column excluded |
| `UpgradeXmlCompare.UpdatesRemovedExactly` | upgrade_analysis/compare.py:355-364 | a record is removed exactly when its module is not its prefix and some record of the list compares equal to it |
| `UpgradeXmlCompare.OwnRecordsRemain` | upgrade_analysis/compare.py:355-364 | afterwards no record is left whose module differs from its prefix, if the rename map fixes its model |
| `UpgradeXmlCompare.UpdatePass` | upgrade_analysis/compare.py:355-364 | the update pass splits a list into the records kept, all owned, and the records dropped, none owned |
| `UpgradeXmlCompare.Match` | upgrade_analysis/compare.py:369-404 | the `match` closure pairs as one greedy pass does |
| `UpgradeXmlCompare.XmlPassesCompare` | upgrade_analysis/compare.py:406-416 | a record has the same identifier, or the same name in any module, or the same suffix under the modules' own prefixes |
| `UpgradeXmlCompare.MatchFacts` | upgrade_analysis/compare.py:369-404 | a pass conserves both lists, its pairs compare equal, and nothing matchable is left |
| `UpgradeXmlCompare.ModifiedExactly` | upgrade_analysis/compare.py:382-405 | a direct match is reported exactly when a domain was deleted, a definition changed or the noupdate flag differs |
| `UpgradeXmlCompare.CompareXmlSets` | upgrade_analysis/compare.py:352-416 | every old and new record falls in exactly one of direct, update, moved, renamed or left over; the class says how the pair compares; nothing matchable is left; each pass takes all it can, and of the records without a direct match exactly those are dropped that a module updates without owning them |
| `UpgradeLog.GetRecord` | upgrade_analysis/upgrade_log.py:14-40 | the id is that of the row asked for, which is added exactly when it is missing; existing rows and ids stay |
| `UpgradeLog.UpgradeDatabase.GetRecordId` | upgrade_analysis/upgrade_log.py:14-40 | get-or-create in place |
| `UpgradeLog.UpgradeDatabase.CompareItem` | upgrade_analysis/upgrade_log.py:57-74 | one attribute: the record id is looked up at the first difference only, a row that is there already is not added again |
| `UpgradeLog.UpgradeDatabase.CompareField` | upgrade_analysis/upgrade_log.py:53-74 | the loop over the attributes of a field is the fold of the single steps, with the mode fixed before |
| `UpgradeLog.UpgradeDatabase.CompareRegistries` | upgrade_analysis/upgrade_log.py:43-74 | the loops over models and fields are the fold of the fields |
| `UpgradeLog.LogsExactly` | upgrade_analysis/upgrade_log.py:57-74 | an attribute with its old value logs nothing; any other one is stored and has a row for its module, field and mode |
| `UpgradeLog.FieldModeExactly` | upgrade_analysis/upgrade_log.py:53-57 | the records that a field adds say create if it had no attribute before, and modify otherwise |
| `UpgradeLog.RegistryIsMerge` | upgrade_analysis/upgrade_log.py:51-74 | comparing merges the local registry into the global one, the last value winning |
| `UpgradeLog.CompareCreatesOnce` | upgrade_analysis/upgrade_log.py:54-60 | each (model, field) has a creation record exactly when its entry is not empty, and then only one |
| `UpgradeLog.RepeatIsIdle` | upgrade_analysis/upgrade_log.py:57-74 | repeating a call at once, for any module, changes neither the tables nor the registry |
| `UpgradeLog.LogItemReplaysExactly` | upgrade_analysis/upgrade_log.py:58-74 | the rows replay to the registry after a step exactly when the step does not need a row that is there already (the module gave the attribute this value before, in a record of the same mode, and it has changed since) |
| `UpgradeLog.FourthChangeIsLost` | upgrade_analysis/upgrade_log.py:55-74 | a run from empty tables that loses a change: one module sets 1, 2, 1, 2, and the rows still replay after the third call but not after the fourth |
| `UpgradeLog.CompareReplays` | upgrade_analysis/upgrade_log.py:51-74 | a call for a module that was not compared before keeps the rows replayable |
| `UpgradeLog.EveryRunMerges` | upgrade_analysis/upgrade_log.py:43-74 | over every run from empty tables the registry is the last-writer-wins merge of the local ones and each field is created once |
| `UpgradeLog.ReplayRebuilds` | upgrade_analysis/upgrade_log.py:43-74 | if each module is compared once, replaying the rows in order rebuilds the registry |
| `Domains.CombineMeans` | base_domain_inverse_function/inverse_expression.py:27-28 | the value of AND is that every operand holds, of OR that some operand holds, for every record and list of normalized operands, TRUE and FALSE among them, which are skipped or absorb the rest |
| `Domains.CombineSkips` | base_domain_inverse_function/inverse_expression.py:27-28 | empty operands and units make no difference, and a zero makes the result a zero |
| `Domains.RunConcat` | base_name_search_improved/models/ir_model.py:98-120 | evaluating a concatenated prefix domain from right to left is evaluating its second part, then its first |
| `Domains.RunFrame` | base_name_search_improved/models/ir_model.py:98-120 | a domain that is well formed by itself leaves what is below it on the stack alone |
| `Domains.TermsMean` | base_name_search_improved/models/ir_model.py:98-120 | a leaf says what its term does, TRUE and FALSE their value, and NOT the opposite of the domain behind it |
| `InverseExpression.InverseCombine` | base_domain_inverse_function/inverse_expression.py:36-84 | the reverse scan over three stacks, with its exceptions, equals the recursive reading of the domain |
| `InverseExpression.InverseOfFlat` | base_domain_inverse_function/inverse_expression.py:36-84 | the complete outcome on flat operands in any order: result, lost operands, or a pop from an empty list |
| `InverseExpression.InverseTidy` | base_domain_inverse_function/inverse_expression.py:36-84 | for any domain: whatever is returned consists of leaves, constants and flat groups of either operator |
| `InverseExpression.NotIsRefused` | base_domain_inverse_function/inverse_expression.py:38-41 | a domain with NOT never has a result, and no domain is refused for a NOT it does not have |
| `InverseExpression.NotRaises` | base_domain_inverse_function/inverse_expression.py:37-41 | in front of a NOT nothing matters: the part behind it raises, or the NOT does |
| `InverseExpression.GivenBackIsFlat` | base_domain_inverse_function/inverse_expression.py:43-84 | an operand that is not flat is never given back, such as an empty one or one with a TRUE or FALSE leaf |
| `InverseExpression.InverseUndoesExactly` | base_domain_inverse_function/inverse_expression.py:13-92 | for all operands: `inverse_combine` undoes AND and OR exactly when every operand is a leaf or a flat group of either operator, the first one is not a group of the operator itself, and there is no leaf, or the first operand is a leaf and there are at least two |
| `InverseExpression.InverseOrder` | base_domain_inverse_function/inverse_expression.py:64-84 | leaves come back in order and before the groups, the groups in reverse |
| `InverseExpression.InverseIsIdentityExactly` | base_domain_inverse_function/inverse_expression.py:64-84 | the same list comes back exactly when that reordering leaves it alone |
| `InverseExpression.RecombiningKeepsMeaning` | base_domain_inverse_function/inverse_expression.py:16-17 | recombining what is returned gives a domain with the same value for every record |
| `InverseExpression.LoneLeafIsLost` | base_domain_inverse_function/inverse_expression.py:47-63 | one leaf alone gives the empty list |
| `InverseExpression.LoneLeafRaises` | base_domain_inverse_function/inverse_expression.py:47-63 | one leaf before a group pops from an empty list |
| `InverseExpression.LeadingGroupIsLost` | base_domain_inverse_function/inverse_expression.py:64-84 | a group in front of a leaf is lost |
| `InverseExpression.GroupsSwap` | base_domain_inverse_function/inverse_expression.py:64-84 | two groups come back in the other order |
| `InverseExpression.LeadingGroupMelts` | base_domain_inverse_function/inverse_expression.py:55-63 | a first group of the operator itself comes back in pieces |
| `InverseExpression.PopExactly` | base_domain_inverse_function/inverse_expression.py:46-63 | an operator takes two elements if it is the first one after a leaf and its stack is empty, else one, if any |
| `InverseExpression.NestedComesApart` | base_domain_inverse_function/inverse_expression.py:42-84 | an operand that is not flat comes back in pieces that mean something else: x and ((y and z) or w) gives y, z, x and w |
| `InverseExpression.ConstantsAreLost` | base_domain_inverse_function/inverse_expression.py:47-63 | a TRUE operand of AND does not come back, and with a FALSE operand nothing does |
| `InverseExpression.OwnGroupStays` | base_domain_inverse_function/inverse_expression.py:64-84 | behind two leaves a group of the operator itself comes back whole |
| `NameSearch.BuildDomain` | base_name_search_improved/models/ir_model.py:155-162 | the nested loops over words and fields build the same prefix domain as the recursive definition |
| `NameSearch.WordDomainMeans` | base_name_search_improved/models/ir_model.py:157-161 | the domain of one word holds exactly when some field matches the word |
| `NameSearch.SmartDomainRuns` | base_name_search_improved/models/ir_model.py:155-162 | for any implicit-AND base domain, the values of the built domain hold together exactly when base holds and every word matches some field |
| `NameSearch.RecNames` | base_name_search_improved/models/ir_model.py:17-23 | there always is a field to search: the one that names the records |
| `NameSearch.SmartDomainMeans` | base_name_search_improved/models/ir_model.py:152-163 | for every base domain, operator, list of words and further fields: the built domain holds exactly when base holds and every word matches some field |
| `Splitting.SplitExactly` | base_name_search_improved/models/ir_model.py:156 | the words of a value are the only list of non-empty words without white space from which it is woven with white space between, before and behind them |
| `Splitting.WordsAreRuns` | base_name_search_improved/models/ir_model.py:156 | the words are exactly the longest runs without white space |
| `NameSearch.EveryWordMeans` | base_name_search_improved/models/ir_model.py:156-161 | every word is in some field exactly when every longest run of the value without white space is |
| `NameSearch.SmartSearchMeans` | base_name_search_improved/models/ir_model.py:152-164 | what the search method of the computed field finds: the records of the configured domain that have every run of the value in some field, or every record for an empty value or another operator |
| `NameSearch.SearchSmartSearch` | base_name_search_improved/models/ir_model.py:152-164 | the search method of the computed field, and what its result means for every record |
| `NameSearch.ConcatMeansBoth` | base_name_search_improved/models/ir_model.py:98-105 | a domain written behind another one restricts it |
| `NameSearch.Search` | base_name_search_improved/models/ir_model.py:62-64 | a limited search returns records of the table that satisfy the domain, and all of them below the limit |
| `NameSearch.ExtendKeeps` | base_name_search_improved/models/ir_model.py:58-66 | one stage keeps the results so far as a prefix, adds no duplicate, never passes the limit, and misses nothing below it |
| `NameSearch.FieldStages` | base_name_search_improved/models/ir_model.py:95-105 | the loops over single fields, for any fields and base domain |
| `NameSearch.NameSearch` | base_name_search_improved/models/ir_model.py:70-123 | the guards and loops of `_name_search` are the stages, one after the other, on the results of the standard search |
| `NameSearch.StagesFind` | base_name_search_improved/models/ir_model.py:95-121 | the stages together find exactly the records of the base domain that match one field, or one field in order, or every word in some field |
| `NameSearch.MatchesAre` | base_name_search_improved/models/ir_model.py:95-121 | a record matches by a further field, by a field with a wildcard for each blank, or, if there is a blank, by every run of the name in some field |
| `NameSearch.SearchKeepsItsPromise` | base_name_search_improved/models/ir_model.py:70-123 | the original results are a prefix, nothing is twice, the limit is never passed, every added record is new, satisfies the base domain and matches, and below the limit none is missed |
| `NameSearch.AddsNothingExactly` | base_name_search_improved/models/ir_model.py:83-121 | a search adds nothing exactly when it is not extended, the limit is reached already, or every matching record is there already |
| `NameSearch.ConfiguredIsKeptExactly` | base_name_search_improved/models/ir_model.py:89-93 | added records satisfy the configured domain, whatever it is, if and only if the caller gives no domain or there is nothing to add |
| `NameSearch.ConfiguredIsIgnored` | base_name_search_improved/models/ir_model.py:89-93 | a search with a domain of its own that adds a record which the configured domain excludes |
| `Changeset.DecodeEncode` | base_changeset/models/record_changeset_change.py:317-342 | what is kept in a change, a many2one reference included, is written back as the same value |
| `ChangesetStore.Store.CollectChanges` | base_changeset/models/record_changeset.py:128-165 | the loop that pops held values and collects changes, each compared with the record as it is before the write |
| `ChangesetStore.Store.AddChangeset` | base_changeset/models/record_changeset.py:128-169 | with the values still to write it has the effect of writing field by field under the rules |
| `ChangesetStore.Store.WriteRecord` | base_changeset/models/base.py:108-115 | a write through a changeset |
| `ChangesetStore.Store.CollectNew` | base_changeset/models/record_changeset.py:128-169 | the same loop for a new record: held values are overwritten by null values, falsy values make no change |
| `ChangesetStore.Store.CreateRecord` | base_changeset/models/base.py:89-106 | creation, then only the differing values are written |
| `ChangesetStore.Store.CollectGroup` | base_changeset/models/record_changeset_change.py:231-246 | one run of changes of one changeset: values of pending changes are collected and old values kept before anything is written |
| `ChangesetStore.Store.ApplyGroups` | base_changeset/models/record_changeset_change.py:231-255 | one write for each run of changes of one changeset has the effect of applying the changes one by one |
| `ChangesetStore.Store.ApplyChanges` | base_changeset/models/record_changeset_change.py:220-257 | `apply` with its rights and its check of previous changesets; an exception undoes everything |
| `ChangesetStore.Store.CancelChanges` | base_changeset/models/record_changeset_change.py:281-289 | `cancel`, with both exceptions |
| `ChangesetCalls.CancelSucceedsExactly` | base_changeset/models/record_changeset_change.py:281-289 | a rejection succeeds exactly when the user may decide on every change and none is done; which exception is raised otherwise |
| `ChangesetCalls.CancelDecides` | base_changeset/models/record_changeset_change.py:281-307 | exactly the rejected changes become cancelled, they keep the value the record has, and nothing else changes |
| `ChangesetCalls.ApplySucceedsExactly` | base_changeset/models/record_changeset_change.py:220-279 | an approval succeeds exactly when the user may decide on every change and, if asked for, no pending one has an older pending changeset; which exception is raised otherwise |
| `ChangesetCalls.ApplyDecides` | base_changeset/models/record_changeset_change.py:220-257 | exactly the pending changes become done, and nothing else is decided |
| `ChangesetCalls.ApplyWrites` | base_changeset/models/record_changeset_change.py:231-255 | a field gets what the last pending change on it asks for, and any other field stays |
| `ChangesetCalls.EncodeExactly` | base_changeset/models/record_changeset_change.py:324-342 | a falsy value is kept as nothing, and a many2one value as a reference to its model |
| `ChangesetCalls.WriteRecords` | base_changeset/models/record_changeset.py:128-169 | a write records one change for each value that differs under a rule, with the state and old value that the rule's action asks for, and makes a changeset exactly when there is one |
| `ChangesetCalls.CreateRecords` | base_changeset/models/record_changeset.py:128-169 | the same for a creation, which holds values back by null values |
| `ChangesetLaws.RunMeans` | base_changeset/models/record_changeset_change.py:220-315 | a run of writes, creations, approvals and rejections goes through one state after another, each what its call leaves, and a call that raises leaves what it found |
| `ChangesetLaws.NextGood` | base_changeset/models/record_changeset_change.py:220-315 | every single write, creation, approval and rejection keeps the explanation of `EveryRunIsExplained` |
| `ChangesetLaws.EveryRunIsExplained` | base_changeset/models/record_changeset_change.py:210-257 | over every run: a field always written under a rule holds the new value of the last change that became done, or its initial value, and each done change kept what the field held just before it |
| `ChangesetLaws.DecisionsAreFinal` | base_changeset/models/record_changeset_change.py:235-237 | over every run: done and cancelled are never left, what a change says is never altered, and a done change keeps its old value |
| `ChangesetLaws.AppliedInDateOrder` | base_changeset/models/record_changeset_change.py:259-279 | when every approval asks for previous changesets to be done, the changesets of a record are applied in the order of their dates over the whole run |
| `ChangesetLaws.WriteLeavesHeld` | base_changeset/models/record_changeset.py:134-169 | a write changes exactly the fields that are not held back |
| `ChangesetLaws.HoldThenApply` | base_changeset/models/record_changeset_change.py:237-257 | writing under rules that refuse nothing and then applying the changeset gives the record a write without rules gives |
| `ChangesetLaws.NextKeepsDistinctFields` | base_changeset/models/record_changeset.py:134-168 | every step keeps at most one change per field in a changeset, on which `apply` relies |
| `ChangesetRules.BestIsUnique` | base_changeset/models/changeset_field_rule.py:54-73 | with the uniqueness constraints there is only one answer to which rule applies to each field, whatever the order of the search |
| `ChangesetRules.FirstRuleIsBest` | base_changeset/models/changeset_field_rule.py:114-127 | with source rules first, the first rule found for a field is that of the source model if there is one, else the global one |
| `ChangesetRules.BestMeans` | base_changeset/models/changeset_field_rule.py:100-127 | the answer for a field is an active rule of the source model, or else a global one, and none only when there is neither |
| `ChangesetRules.RuleBase.CollectRules` | base_changeset/models/changeset_field_rule.py:119-127 | the loop that fills the dictionary gives the best rule of every field |
| `ChangesetRules.RuleBase.GetRules` | base_changeset/models/changeset_field_rule.py:100-158 | cached or not, the answer is what the current rules say, and is cached |
| `ChangesetRules.RuleBase.Change` | base_changeset/models/changeset_field_rule.py:167-181 | create, write and unlink empty the cache, so that no answer outlives the rules it came from |
| `AttachmentQueue.StepSafe` | attachment_queue/models/attachment_queue.py:83-175 | every step of a job, manual run, failure, retry, crash, reschedule or `set_done` keeps the safety invariant, except exactly an exception of the failure handler in the last live job of a pending attachment that ends the job |
| `AttachmentQueue.EveryRunSafe` | attachment_queue/models/attachment_queue.py:59-175 | in every interleaving the committed successful runs are at most one more than the reschedules, and a pending attachment has a queued or started job if and only if the failure handler has not ended its last one by an exception, or a user has acted on it since |
| `AttachmentQueue.HandlerStrands` | attachment_queue/models/attachment_queue.py:134-151 | a run that leaves a created attachment pending without a job: the run fails, and so does the handler, for example in `send_mail` |
| `AttachmentQueue.DoneExactly` | attachment_queue/models/attachment_queue.py:165-175 | an attachment becomes done only by hand or by the commit of a successful run |
| `AttachmentQueue.RunsExactly` | attachment_queue/models/attachment_queue.py:155-165 | a run counts exactly when it is committed, and only an attachment that is not done is run |
| `AttachmentQueue.FailedExactly` | attachment_queue/models/attachment_queue.py:121-146 | an attachment becomes failed exactly by the commit of a failure other than a serialization error |
| `AttachmentQueue.PendingExactly` | attachment_queue/models/attachment_queue.py:70-72 | it becomes pending again exactly by rescheduling, which queues one more job |
| `AttachmentQueue.LockExactly` | attachment_queue/models/attachment_queue.py:83-120 | the lock is taken only when free, by a started job or a user, and nothing else is written while it is held |
| `AttachmentQueue.LockIsLeft` | attachment_queue/models/attachment_queue.py:83-155 | the lock is kept until the transaction ends, by a commit, an error that leaves it, or a crash, and then given back |
| `AttachmentQueue.RunsUnlessDone` | attachment_queue/models/attachment_queue.py:99-124 | whoever gets the lock runs the attachment unless it is done |
| `AttachmentQueue.PhasesInOrder` | attachment_queue/models/attachment_queue.py:83-146 | what can happen in each phase of a transaction: locking, running, handling a failure, committing |
| `AttachmentQueue.JobsCanBe` | attachment_queue/models/attachment_queue.py:59-62 | a queued job can be started, and a started one without the lock can fail to get it |
| `AttachmentQueue.JobFate` | attachment_queue/models/attachment_queue.py:106-146 | exactly when a started job is finished, given up or tried again |
| `AttachmentQueue.OtherJobs` | attachment_queue/models/attachment_queue.py:59-62 | jobs that are not started change only by being started |
| `AttachmentQueue.FailedRunFails` | attachment_queue/models/attachment_queue.py:125-146 | a run that raises leaves the attachment failed, or as it was after a serialization error, and its job in the state the error asks for |
| `AttachmentQueue.CreatedDoneMeansRun` | attachment_queue/models/attachment_queue.py:64-175 | over every run in which nobody sets it done by hand: a done attachment was run |
| `AttachmentQueue.CreatedIsSafe` | attachment_queue/models/attachment_queue.py:64-68 | a created attachment starts safe, with one queued job |
| `AttachmentQueue.JobCanFinish` | attachment_queue/models/attachment_queue.py:102-123 | a started job that gets the lock can run and commit |
| `AttachmentQueue.PendingCanFinish` | attachment_queue/models/attachment_queue.py:59-164 | from every safe state a pending attachment can be brought to done by its jobs alone, with exactly one more run |
| `CronExclusion.StepSafe` | base_cron_exclusion/models/ir_cron.py:34-71 | every step of asking, locking row by row, giving up, running and releasing keeps the lock invariant |
| `CronExclusion.SafeExcludes` | base_cron_exclusion/models/ir_cron.py:34-61 | two exclusive jobs do not run together, and a job that excludes itself does not run |
| `CronExclusion.NeverTogether` | base_cron_exclusion/models/ir_cron.py:34-71 | in every interleaving, whichever side declared the exclusion, two mutually exclusive jobs never run at once |
| `CronExclusion.LocksAreReleased` | base_cron_exclusion/models/ir_cron.py:62-71 | over every run each lock is held for a job being processed, and when none is, no row is locked |
| `CronExclusion.LeavesExactly` | base_cron_exclusion/models/ir_cron.py:62-71 | a worker that leaves gives its rows back and takes nothing from anyone |
| `CronExclusion.AsksExactly` | base_cron_exclusion/models/ir_cron.py:34-48 | a worker asks for exactly the active jobs that are declared exclusive on either side |
| `CronExclusion.GetsExactly` | base_cron_exclusion/models/ir_cron.py:49-66 | a row is got only when it is free, and a job starts exactly with all the rows it asked for |
| `CronExclusion.TogglesExactly` | base_cron_exclusion/models/ir_cron.py:49-60 | a job is switched on or off only while its row is free |
| `CronExclusion.LocksAll` | base_cron_exclusion/models/ir_cron.py:49-60 | with all wanted rows free, the worker gets all its locks |
| `CronExclusion.RunsAloneExactly` | base_cron_exclusion/models/ir_cron.py:15-24 | an active job left alone can run exactly when it does not exclude itself, which is why the constraint forbids that |
| `SessionStore.Retrying` | session_db/pg_session_store.py:42-59 | at least one and at most five attempts, and then a return or an exception |
| `SessionStore.PGSessionStore.OpenConnection` | session_db/pg_session_store.py:78-83 | an old connection is closed first; the lock depth is restored |
| `SessionStore.PGSessionStore.EnsureConnection` | session_db/pg_session_store.py:73-76 | opens only when closed; the lock depth is restored |
| `SessionStore.PGSessionStore.CloseConnection` | session_db/pg_session_store.py:85-93 | leaves no connection, whatever closing raises; the lock depth is restored |
| `SessionStore.PGSessionStore.TryOnce` | session_db/pg_session_store.py:47-51 | one attempt: the statement may be lost before or after its effect, and a lost connection is closed |
| `SessionStore.PGSessionStore.WithCursor` | session_db/pg_session_store.py:42-59 | the retry loop equals its recursive definition, and restores the lock depth on every path |
| `SessionStore.PGSessionStore.Change` | session_db/pg_session_store.py:108-126 | `save`, `delete` and `vacuum` under the re-entrant lock, whose depth is restored on return and on raise |
| `SessionStore.PGSessionStore.Get` | session_db/pg_session_store.py:128-137 | `get` returns what the table holds in its last attempt, or a new session when that is missing or unreadable |
| `SessionStore.RowIsOverwrittenKeptOrDropped` | session_db/pg_session_store.py:110-153 | any sequence of other statements either overwrites a row whatever it was, or keeps it or drops it |
| `SessionStore.Absorbed` | session_db/pg_session_store.py:42-59 | repeating a statement hides its first application, whatever other processes did in between |
| `SessionStore.ReturnedMeansOnce` | session_db/pg_session_store.py:42-59 | a request that returns has the effect of exactly one application among the statements of the others, however often it took effect |
| `SessionStore.RaisedMeansOnceOrNever` | session_db/pg_session_store.py:42-59 | a request that raises has the effect of one application in one of its attempts, or none |
| `SessionStore.ReturnedDoes` | session_db/pg_session_store.py:108-153 | a returned save, delete, get or vacuum leaves the sessions as the others leave them, apart from exactly what it is for |
| `SessionStore.FirstAnswerDecides` | session_db/pg_session_store.py:42-59 | the first attempt that does not lose its connection decides: it returns, or raises what was refused; after five lost ones the loss is raised |
| `SessionStore.ReturnsWhenAnswered` | session_db/pg_session_store.py:42-59 | a request returns if one of its five attempts can connect and is answered, and the database refuses the statement in none before it |
| `SessionStore.SparesExactly` | session_db/pg_session_store.py:110-153 | the statements that leave a row as it is: no other save, no deletion, no expiry |
| `SessionStore.SavedIsRead` | session_db/pg_session_store.py:108-137 | a saved session is read back by a later `get` unless another process overwrote, deleted or expired it |
| `SessionStore.SeenRow` | session_db/pg_session_store.py:42-59 | what the statements of the others find of the session between two attempts is the row last written, as the others changed it since |
| `SessionStore.SessionReturnsExactly` | session_db/pg_session_store.py:42-59 | a save that returns always leaves the session; another process found it missing after it had been written if and only if an attempt took effect and the others removed its row before the next effect |
| `SessionStore.DeletedSessionReturnsExactly` | session_db/pg_session_store.py:42-59 | a deletion after an attempt that took effect is undone; and if the others do not expire sessions, a session that was missing in between was deleted after such an attempt |
| `SessionStore.DeletedSessionReturns` | session_db/pg_session_store.py:50-59 | the smallest such run: the first attempt is lost after its effect, another process deletes the session, the second attempt writes it again |
| `AuditLog.DiffIsExact` | auditlog/models/rule.py:25-49 | the four sets of `DictDiffer` divide the keys, and the past with the changes made is the current dictionary |
| `AuditLog.AuditedModel.LinesOnCreate` | auditlog/models/rule.py:775-788 | a line for exactly the loggable fields that were added |
| `AuditLog.AuditedModel.LinesOnWrite` | auditlog/models/rule.py:723-738 | a line for exactly the loggable fields that changed, with both values |
| `AuditLog.AuditedModel.LinesOnRead` | auditlog/models/rule.py:689-702 | a line for exactly the loggable fields that were read |
| `AuditLog.AuditedModel.CreateLogs` | auditlog/models/rule.py:590-665 | one log for each record, in order, with the lines its method asks for |
| `AuditLog.AuditedModel.CreateFull` | auditlog/models/rule.py:374-407 | the wrapped `create` |
| `AuditLog.AuditedModel.WriteFull` | auditlog/models/rule.py:480-515 | the wrapped `write`; unsaved records are filtered out, excluded users are not logged |
| `AuditLog.AuditedModel.UnlinkFull` | auditlog/models/rule.py:549-570 | the wrapped `unlink`, logged before the records go |
| `AuditLog.AuditedModel.ReadLogged` | auditlog/models/rule.py:441-470 | the wrapped `read`: all fields of its result are logged, stored or computed, unless the call comes from the audit log itself; of audited fields it returns what the database holds, as `LogChains` asks of a read |
| `AuditLog.CallLogsExactly` | auditlog/models/rule.py:590-738 | one log for each record of a call, in order, with exactly the lines its method asks for; excluded and technical fields and those without a description never get one |
| `AuditLog.SilentCalls` | auditlog/models/rule.py:380-470 | a call of a method without logging, or of a quiet user, logs nothing, and no call alters older logs |
| `AuditLog.ViewExactly` | auditlog/models/rule.py:600-665 | what the log can tell is the watched part of every record |
| `AuditLog.StoredIdsAre` | auditlog/models/rule.py:480-490 | records that are not saved yet are left out, the others stay in order |
| `AuditLog.CallReplays` | auditlog/models/rule.py:627-665 | what replaying the logs of one call does to each record |
| `AuditLog.ChangedLinesUpdate` | auditlog/models/rule.py:723-738 | writing down the changed fields turns the past visible values into the current ones |
| `AuditLog.CallReplaysExactly` | auditlog/models/rule.py:374-570 | replaying the logs of a call on the view before it gives the view after it exactly when the call changed visible values only of the records it was logged for |
| `AuditLog.LogRebuilds` | auditlog/models/rule.py:374-570 | over every run of such calls, replaying the log rebuilds every non-excluded audited field of every record |
| `AuditLog.ReplayIsLastNew` | auditlog/models/rule.py:723-738 | the replayed value of a field is the new value of the last line about it |
| `AuditLog.NewLineContinues` | auditlog/models/rule.py:627-665 | a new line starts from the value logged last; a line of a read exactly when its field is audited |
| `AuditLog.LogChains` | auditlog/models/rule.py:627-738 | over every run, the old value of a write or unlink line is the new value of the previous line about that field; that of a read line is so if and only if the field is audited |
| `AuditLog.UnauditedReadStartsAnew` | auditlog/models/rule.py:441-470 | a run from an empty log whose last line is of a read of a computed field that is not audited, and starts from a value that no line left |
| `ViewDomainText.WordLen` | base_view_inheritance_extension/models/ir_ui_view.py:233-237 | the longest word at a place |
| `ViewDomainText.ParentsAreQuoted` | base_view_inheritance_extension/models/ir_ui_view.py:233-236 | the first substitution, as a marking of the text: taking the marks away gives the text back |
| `ViewDomainText.MarkedParentKept` | base_view_inheritance_extension/models/ir_ui_view.py:237-238 | what the first substitution marked, the second leaves alone |
| `ViewDomainText.WordsAreQuoted` | base_view_inheritance_extension/models/ir_ui_view.py:237-238 | the second substitution marks whole unquoted words and changes nothing else |
| `ViewDomainText.ClearIsRestored` | base_view_inheritance_extension/models/ir_ui_view.py:243-246 | a pass of `str2var` takes away exactly the marks it is for, if no quote of the text misleads it |
| `ViewDomainText.RevertsExactly` | base_view_inheritance_extension/models/ir_ui_view.py:229-246 | `str2var_domain_text` reverts `var2str_domain_text` if and only if neither pass finds a marked body that starts at a quote not put there by a mark it takes away |
| `ViewDomainText.UnmarkedTextReverts` | base_view_inheritance_extension/models/ir_ui_view.py:229-246 | every text without the suffix comes back, whatever quotes, words and `parent.` chains it has |
| `ViewDomainText.BodyIsLooksMarked` | base_view_inheritance_extension/models/ir_ui_view.py:243-246 | after a quote, a marked body is found in the quoted text exactly where the text itself has, up to its next quote, something that ends with the suffix and has no word in its middle |
| `ViewDomainText.TextRevertsExactly` | base_view_inheritance_extension/models/ir_ui_view.py:229-246 | read off the text itself, whatever it is: it comes back if and only if no quote of it opens, in the first or in the second pass, a text that ends with the suffix where the next quote follows or is put |
| `ViewDomainText.ChainlessRevertsExactly` | base_view_inheritance_extension/models/ir_ui_view.py:229-246 | what that condition says of texts without `parent.`: nothing between two of its quotes ends with the suffix, after at least one character, without a word in its middle |
| `ViewDomainText.MarkedLiteralIsLost` | base_view_inheritance_extension/models/ir_ui_view.py:243-246 | for every name, a literal that looks like the marked name comes back without its quotes and its end |
| `ViewDomainText.MarkedChainIsLost` | base_view_inheritance_extension/models/ir_ui_view.py:243-246 | so does a literal that looks like a marked chain, such as 'parent.x_is_a_var_to_replace' |
| `ViewDomainText.VariableIsMarked` | base_view_inheritance_extension/models/ir_ui_view.py:229-246 | a variable alone becomes a string literal with the suffix, and back |
| `ViewDomainText.ChainIsMarked` | base_view_inheritance_extension/models/ir_ui_view.py:229-246 | so does a `parent.` chain, as a whole |
| `ViewDict.First` | base_view_inheritance_extension/models/ir_ui_view.py:31-47 | the first entry with an equal constant key |
| `ViewDict.AstDict.Replace` | base_view_inheritance_extension/models/ir_ui_view.py:42-47 | the inner loop replaces the first value of an equal key, in place, and tells whether there was one |
| `ViewDict.AstDict.ReplaceAll` | base_view_inheritance_extension/models/ir_ui_view.py:40-49 | the outer loop, which keeps the entries that were not found |
| `ViewDict.AstDict.Append` | base_view_inheritance_extension/models/ir_ui_view.py:50-52 | the entries not found are appended in order |
| `ViewDict.AstDict.Update` | base_view_inheritance_extension/models/ir_ui_view.py:17-53 | the updated display: values replaced in place, missing entries behind |
| `ViewDict.UpdateMeansExactly` | base_view_inheritance_extension/models/ir_ui_view.py:17-53 | the updated display denotes what `dict.update` gives if and only if no key that occurs several times in the source is given another value |
| `ViewDict.RepeatedKeyKeepsOldValue` | base_view_inheritance_extension/models/ir_ui_view.py:43-47 | the smallest failure: of two equal keys the first is replaced, and the last one still counts |
| `SentryVarmap.Mapper.Map` | sentry/generalutils.py:34-53 | `varmap` terminates on any finite, possibly cyclic object graph, leaves the shared context as it found it, and equals its definition on values |
| `SentryVarmap.VarmapIsPlainMap` | sentry/generalutils.py:34-53 | without cycles, shared parts included, the result is the plain map over the unfolded tree, whatever the context holds of enclosing objects |
| `SentryVarmap.CycleIsEllipsis` | sentry/generalutils.py:39-45 | a list that contains itself is shown with an ellipsis inside, which is mapped like any text |
| `SentryVarmap.SanitizeExactly` | sentry/processor.py:129-138 | None stays; a value under a sensitive name is masked, and a card number is under any name |
| `SentryVarmap.SensitiveExactly` | sentry/processor.py:44-63 | a name is sensitive exactly when one of the eight keys occurs in it, in any case |
| `SentryVarmap.CardExactly` | sentry/processor.py:127-138 | a card number is 13 to 16 digits with blanks and dashes behind them, and perhaps a line break at the end |
| `SentryVarmap.SanitizedIsClean` | sentry/processor.py:44-63 | whatever the graph, cyclic or not: no card number is left, and under a sensitive key nothing but masks and None |
| `SentryVarmap.CleanIsKept` | sentry/processor.py:134-138 | clean data is left as it is |
| `SentryVarmap.SanitizeFixesExactly` | sentry/processor.py:134-138 | sanitizing changes data exactly when it is not clean |
| `SentryKeyVals.SanitizeKeyVal` | sentry/processor.py:102-107 | one segment: only with exactly one '=' can its value change |
| `SentryKeyVals.SanitizeKeyVals` | sentry/processor.py:100-109 | the loop over the segments and the join |
| `SentryKeyVals.JoinSplit` | sentry/processor.py:102-109 | joining what was split gives the text back |
| `SentryKeyVals.SplitJoin` | sentry/processor.py:102-109 | splitting what was joined gives the parts back if none contains the delimiter |
| `SentryKeyVals.SegmentsStay` | sentry/processor.py:100-109 | every segment stays in its place, verbatim or with only its value replaced by the mask |
| `SentryKeyVals.ResultIsMasked` | sentry/processor.py:100-109 | in the result the value of a sensitive key is the mask and no value is a card number |
| `SentryKeyVals.SanitizedTwice` | sentry/processor.py:100-109 | sanitizing twice is sanitizing once |
| `BackupNames.DigitsOrder` | auto_backup/models/db_backup.py:281-283 | numbers in a fixed number of digits order like the numbers |
| `BackupNames.StampOrder` | auto_backup/models/db_backup.py:281-283 | time stamps order like times |
| `BackupNames.NamesOrderLikeTimes` | auto_backup/models/db_backup.py:273-283 | file names of one format order like their times, to the second |
| `BackupNames.ListedExactly` | auto_backup/models/db_backup.py:226-251 | the clean-up looks at names with the ending of its format, in a local folder without the hidden ones |
| `BackupNames.RemainingExactly` | auto_backup/models/db_backup.py:226-251 | a file goes exactly when it is listed and its name is less than that of a backup at the cutoff |
| `BackupNames.BackupFolder.Cleanup` | auto_backup/models/db_backup.py:226-251 | deletes only listed names that are less than the oldest to keep, and all of them unless a file cannot be deleted, which ends it; nothing when no number of days is set |
| `BackupNames.CleanupDeletesExactly` | auto_backup/models/db_backup.py:226-251 | a backup disappears exactly when it has the format of the clean-up and was made before the cutoff, to the second |
| `TimeWindow.HourMinute` | base_time_window/models/time_window_mixin.py:113-120 | the minute is in 0..59, and with its carry the result is within half a minute of the value, halves going to the even minute |
| `TimeWindow.RoundIsMonotone` | base_time_window/models/time_window_mixin.py:113-120 | a later value never gets an earlier hour and minute |
| `TimeWindow.UnderTwentyFourExactly` | base_time_window/models/time_window_mixin.py:100-111 | the hour is at most 23 exactly for values below 23:59:30 |
| `TimeWindow.Windows.CheckNoOverlaps` | base_time_window/models/time_window_mixin.py:28-89 | the constraint accepts a batch exactly when each window of it is proper, has an owner, and overlaps no other one of its owner on a shared weekday |
| `TimeWindow.Windows.CheckHours` | base_time_window/models/time_window_mixin.py:100-111 | the constraint on hours, for a batch |
| `TimeWindow.Windows.Write` | base_time_window/models/time_window_mixin.py:28-111 | a batch write with the constraints its fields trigger; a rejected write changes nothing |
| `TimeWindow.ChangedAreChecked` | base_time_window/models/time_window_mixin.py:54-80 | checking the written windows alone keeps all windows apart |
| `TimeWindow.ClashExactly` | base_time_window/models/time_window_mixin.py:47-66 | two windows clash exactly when at some moment of the week both are open |
| `TimeWindow.NoOverlapsExactly` | base_time_window/models/time_window_mixin.py:28-89 | the check passes exactly when the window is proper, has an owner and is never open together with another one of that owner |
| `TimeWindow.CreateExactly` | base_time_window/models/time_window_mixin.py:28-111 | a create is accepted exactly when each new window then stands alone and is within the day |
| `TimeWindow.WriteTakesOver` | base_time_window/models/time_window_mixin.py:28-111 | an accepted write gives the written windows the values it sets, and changes nothing else |
| `TimeWindow.WriteExactly` | base_time_window/models/time_window_mixin.py:28-111 | a write is accepted exactly when, if it sets a bound or the days, each written window then stands alone, and if it sets a bound, is within the day |
| `TimeWindow.UnlinkExactly` | base_time_window/models/time_window_mixin.py:28-89 | an unlink is always accepted; it removes exactly the windows it names and none of the others changes |
| `TimeWindow.ApartMeans` | base_time_window/models/time_window_mixin.py:28-89 | windows are apart exactly when no two of one owner are ever open together |
| `TimeWindow.StepKeepsApartExactly` | base_time_window/models/time_window_mixin.py:28-89 | an accepted create, write or unlink keeps all windows of an owner apart if and only if it is not a write of the owner alone that brings clashing windows together |
| `TimeWindow.RunMeans` | base_time_window/models/time_window_mixin.py:28-111 | a run goes through one table after another: an accepted call leaves its own, a rejected one what it found |
| `TimeWindow.RunKeepsApart` | base_time_window/models/time_window_mixin.py:28-89 | over every run of accepted and rejected calls without such a move, no two windows of one owner sharing a weekday overlap as half-open ranges |
| `TimeWindow.MovedWindowOverlaps` | base_time_window/models/time_window_mixin.py:28-28 | a window that is only moved to another owner is not checked and can overlap |

## Left out

Weaker than the source, or restricted:

- InverseExpression.InverseUndoesExactly: `osv.expression` is not part of this model; its AND and OR are taken as skipping units and empty operands, absorbing everything into a zero, and else putting n - 1 operators before n operands. Implicit ANDs inside an operand, which they write out, are not: such an operand is not flat, and nothing with an implicit AND is ever given back.
- NameSearch.NameSearch: the result of the standard search is an input, and so is the class of white space at which names are split.
- UpgradeLog.UpgradeDatabase.CompareRegistries: models without any field get no empty entry in the registry, and the early return when the table does not exist is not modelled.
- UpgradeCompare.CompareSets: the counters are modelled, the text of the report is not; nor is `compare_model_sets`.
- UpgradeXmlCompare.CompareXmlSets: the flags that a match writes into the two records for the report are not modelled, apart from which direct pairs are reported.
- ChangesetLaws.EveryRunIsExplained: all falsy values of a field are one value, rules on the tracked fields are unconditional, and writes that disable changesets are not part of a run.
- ChangesetLaws.HoldThenApply: rules with the action "never" are excluded, since their part of a write is refused for good.
- ChangesetStore.Store.ApplyChanges: changes come in processing order; the sort by changeset before grouping is not modelled, so one write per changeset is not claimed.
- ChangesetLaws.AppliedInDateOrder: dates are the clock of the model, which does not go back.
- ChangesetRules.RuleBase.GetRules: the search result is an input constrained by the search domain and order; deleting rules by a cascade in the database is not modelled.
- AttachmentQueue.EveryRunSafe: what the job queue does with an error is an assumption, since queue_job is not part of this model: concurrency errors are tried again, retryable ones while retries are left, and any other error ends the job. Requeuing an ended job by hand is not modelled.
- AttachmentQueue.PendingCanFinish: it says that jobs can always finish the attachment, not that a fair scheduler does.
- CronExclusion.NeverTogether: the many2many table of exclusions does not change while jobs run; switching jobs on and off in between is modelled.
- SessionStore.ReturnedMeansOnce: the single application is one of the final table; other processes can see the earlier ones in between. Vacuum assumes that the database clock does not go back.
- AuditLog.LogRebuilds: audited methods do not call each other; the name_get texts of 2many fields are not modelled, nor the cache of field descriptions.
- AuditLog.LogChains: the records of one call are distinct.
- ViewDomainText.RevertsExactly: the regular expressions are written as scanners over a class of word characters that contains the letters of the suffix and of "parent", and neither the quote nor the dot.
- ViewDict.UpdateMeansExactly: the value of constant string keys; keys that are expressions are kept and appended, but what they evaluate to is not modelled.
- SentryVarmap.VarmapIsPlainMap: the mapped function sees whether a value is a dictionary, not what is in it; named tuples and containers other than lists and dictionaries count as scalars.
- SentryVarmap.SanitizedIsClean: keys are text already; lower-casing and digits are those of ASCII.
- BackupNames.NamesOrderLikeTimes: years have four digits, since years below 1000 are not padded on every platform.
- TimeWindow.HourMinute: floats are exact real numbers.
- TimeWindow.Windows.CheckNoOverlaps: the query is taken to see the writes of the batch that are still pending in the cache of the ORM; a raw query in the database does so only after they are flushed.

Not modelled:

- Access rights, views, wizards, settings, hooks, manifests and mail, apart from the exception it can raise in the failure handler of attachment_queue.
- attachment_queue and base_cron_exclusion are state machines over the steps between which transactions interleave, not classes: what is proved is about the interleaving.
- auto_backup: making the backup, and the date arithmetic that gives the cutoff.
- base_time_window: create and unlink are functions on the table, since the addon contributes only the constraints that run in them.
- auditlog: fast mode, export, patching and reverting the model methods, `ThrowAwayCache`.
- base_changeset: which user may validate is an input of `apply` and `cancel`; the company, source and validator fields.
- base_view_inheritance_extension: the XML handlers around the text and dictionary functions.
- sentry: the event structure around the sanitizer and `filter_level`.
- session_db: creating the table, and the rotation inherited from the file store.
- base_import_odoo, whose dummy creation recurses without a bound, and cron_daylight_saving_time_resistant, whose guarantee rests on the scheduler of Odoo.
