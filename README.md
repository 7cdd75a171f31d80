# Backup planning and manipulation bookkeeping in the modpack windows

This project models two pieces of list logic in FFXIV TexTools' modpack windows.

- **The backup modpack window.** It lists the candidates for a backup: a synthetic "standalone" entry for mods that belong to no modpack, then one entry per modpack. It checks or unchecks all of them. It turns the checked ones into an ordered list of backup records over a snapshot of the installed mods. It previews the mods of the highlighted candidate. When the target archive already exists, it asks whether to overwrite.
- **The manipulation editor window.** It edits the manipulations attached to a wizard option. The window keeps the option's list of manipulations, a displayed list of (label, manipulation) rows, the current selection, and the manipulation whose editor was shown last. It can remove the selected manipulation, clear the list after a confirmation, and rebuild the displayed list. When the selection changes, it refreshes the label of the manipulation shown last. It picks an editor by the exact kind of the selected manipulation and falls back to an "unknown" editor.

Modules:

- `Wrappers` (wrappers.dfy) holds `Option` and `Result`.
- `BackupPlan` (backup_plan.dfy) is the pure part of the backup window. It holds the records, the mod filters, the plan as a function of the candidate list and the mod snapshot, the preview query, the overwrite decision, and the lemmas about them.
- `BackupCreator` (backup_creator.dfy) holds the window as a class. Its candidate list is a `seq` field that the select-all and clear loops rewrite row by row. The constructor's loop appends one row per modpack. `BuildPlan` appends records in a loop and is proved equal to `BackupPlan.Plan`.
- `ManipulationEditor` (manipulation_editor.dfy) holds the manipulation kinds, the editor registry, and the manipulation and option classes. It also holds the window class, with the fields that the handlers update.

The mod list (`GetMods`, `GetModPacks`) enters as parameters. So do the answer to the overwrite question and whether the archive file exists. The label of a manipulation (`GetNiceName`) is modelled as a function carried by each manipulation object and applied to its current, mutable field values. Nothing is assumed about that function.

The standalone label is the constant `"Standalone (Non-ModPack)"`.

Some behaviour of the code as written, which the model keeps:

- A candidate counts as the standalone one when its name equals the standalone label. There is no separate flag. So a modpack that carries that name is treated as the standalone entry, and its mods are never backed up (`StandaloneLabelShadowsModPack`, `SelectAllPlanCoversMods`).
- The plan is not deduplicated. A candidate that appears twice contributes its records twice (`GatherTwice`).
- When the archive exists, the overwrite question has three answers. "No" still exports, without overwriting (`Decide`).
- The editor registry has seven kinds.
- Removing the selection shrinks the list only when the selection is in it. A null or absent selection leaves the list unchanged (`RemoveFirstLength`).

## Model

| member | source | states |
|---|---|---|
| BackupPlan.Candidates | FFXIV_TexTools/Views/ModPack/Backup/BackupModpackCreator.xaml.cs:42-50 | the candidate list has one more row than there are modpacks; row 0 is the unchecked standalone entry; row i+1 is modpack i's name, unchecked, in the mod list's order |
| BackupCreator.BackupModPackCreator.constructor | FFXIV_TexTools/Views/ModPack/Backup/BackupModpackCreator.xaml.cs:42-52 | the appending loop leaves exactly `Candidates(packs)` as the rows; the highlighted index is 0; no export file name is set yet |
| BackupPlan.WithChecked | FFXIV_TexTools/Views/ModPack/Backup/BackupModpackCreator.xaml.cs:69-86 | setting every check box keeps the list length and every row's name and position; every row then carries the given flag |
| BackupCreator.BackupModPackCreator.SelectAll | FFXIV_TexTools/Views/ModPack/Backup/BackupModpackCreator.xaml.cs:69-75 | the new rows are the old rows with every box checked |
| BackupCreator.BackupModPackCreator.ClearSelected | FFXIV_TexTools/Views/ModPack/Backup/BackupModpackCreator.xaml.cs:80-86 | the new rows are the old rows with every box unchecked |
| BackupCreator.BackupModPackCreator.SetAllChecked | FFXIV_TexTools/Views/ModPack/Backup/BackupModpackCreator.xaml.cs:69-86 | the row-by-row loop shared by select-all and clear leaves exactly `WithChecked(old rows, flag)`: same length, names and order, every box set to `flag` |
| BackupPlan.CheckedEntries | FFXIV_TexTools/Views/ModPack/Backup/BackupModpackCreator.xaml.cs:111-113 | a row is among the selected rows exactly when it is in the list and checked; there are no more selected rows than rows |
| BackupPlan.CheckedAppend | FFXIV_TexTools/Views/ModPack/Backup/BackupModpackCreator.xaml.cs:111-113 | selecting the checked rows distributes over concatenation, so the selected rows are the checked rows in list order with duplicates kept |
| BackupPlan.CheckedSingle | FFXIV_TexTools/Views/ModPack/Backup/BackupModpackCreator.xaml.cs:111-113 | a single row is selected exactly when its box is checked |
| BackupPlan.Select | FFXIV_TexTools/Views/ModPack/Backup/BackupModpackCreator.xaml.cs:125-134 | a mod is picked exactly when it is in the snapshot and matches the candidate's filter: a non-empty name and no modpack for the standalone entry, or a modpack of that name otherwise |
| BackupPlan.SelectAppend | FFXIV_TexTools/Views/ModPack/Backup/BackupModpackCreator.xaml.cs:125-134 | filtering distributes over concatenation, so the picked mods keep the snapshot's order |
| BackupPlan.FindModPack | FFXIV_TexTools/Views/ModPack/Backup/BackupModpackCreator.xaml.cs:131 | the lookup gives None exactly when no modpack has the name; otherwise it gives the first modpack with that name |
| BackupPlan.SelectionPreview | FFXIV_TexTools/Views/ModPack/Backup/BackupModpackCreator.xaml.cs:199-221 | the preview fails with a not-found error exactly when the name is not the standalone label and no modpack has it; on success the modpack is absent exactly for the standalone label, and is otherwise the first listed modpack of that name (`FindModPack`); the mods are exactly the snapshot's mods that match the filter, in the snapshot's order (`Select`) |
| BackupPlan.Record | FFXIV_TexTools/Views/ModPack/Backup/BackupModpackCreator.xaml.cs:139-153 | a record copies the mod's name, category, path, offset, size and data file, and is filed under the given modpack |
| BackupPlan.Records | FFXIV_TexTools/Views/ModPack/Backup/BackupModpackCreator.xaml.cs:137-156 | one record per mod, in the mods' order, each copied from its mod and filed under the given modpack |
| BackupPlan.Contribution | FFXIV_TexTools/Views/ModPack/Backup/BackupModpackCreator.xaml.cs:120-156 | one checked row fails with a not-found error exactly when its name is neither the standalone label nor a listed modpack's; otherwise it adds one record per mod its filter picks, in snapshot order, filed under no modpack for the standalone entry and under the first modpack of that name otherwise |
| BackupPlan.ContributionExact | FFXIV_TexTools/Views/ModPack/Backup/BackupModpackCreator.xaml.cs:120-152 | a resolved candidate contributes exactly the records of the mods that its filter picks, each filed under the modpack that the candidate resolves to |
| BackupPlan.StandaloneContribution | FFXIV_TexTools/Views/ModPack/Backup/BackupModpackCreator.xaml.cs:123-128 | the standalone entry always resolves; it contributes exactly the records of the mods with a name and no modpack, filed under no modpack |
| BackupPlan.StandaloneLabelShadowsModPack | FFXIV_TexTools/Views/ModPack/Backup/BackupModpackCreator.xaml.cs:123 | a mod filed under a modpack named like the standalone label is picked by no candidate, because a row with that name is taken for the standalone entry |
| BackupPlan.Gather | FFXIV_TexTools/Views/ModPack/Backup/BackupModpackCreator.xaml.cs:118-158 | gathering the selected rows can only fail with a not-found error |
| BackupPlan.GatherFailure | FFXIV_TexTools/Views/ModPack/Backup/BackupModpackCreator.xaml.cs:129-131 | gathering fails exactly when one of the selected rows does not resolve |
| BackupPlan.GatherAppend | FFXIV_TexTools/Views/ModPack/Backup/BackupModpackCreator.xaml.cs:118-156 | the records gathered for a concatenation of selected-row lists are those of the first list followed by those of the second; the first failure wins |
| BackupPlan.PlanAppend | FFXIV_TexTools/Views/ModPack/Backup/BackupModpackCreator.xaml.cs:111-156 | the plan follows the candidate list's order: the records for the checked rows of `a + b` are those for `a`'s checked rows followed by those for `b`'s, and a failure in `a` wins |
| BackupPlan.GatherTwice | FFXIV_TexTools/Views/ModPack/Backup/BackupModpackCreator.xaml.cs:118-156 | the plan is not deduplicated: a row listed twice contributes its records twice |
| BackupPlan.GatherLength | FFXIV_TexTools/Views/ModPack/Backup/BackupModpackCreator.xaml.cs:137-156 | the gathered plan's length is the sum of the selected rows' match counts |
| BackupPlan.GatherMembers | FFXIV_TexTools/Views/ModPack/Backup/BackupModpackCreator.xaml.cs:118-156 | every selected row of a successful gathering resolves; a record is in the plan exactly when it is in some selected row's contribution |
| BackupPlan.Plan | FFXIV_TexTools/Views/ModPack/Backup/BackupModpackCreator.xaml.cs:105-109 | a successful plan carries the name it was asked for |
| BackupPlan.PlanFailsWithoutSelection | FFXIV_TexTools/Views/ModPack/Backup/BackupModpackCreator.xaml.cs:111-114 | building the plan fails with the no-selection error exactly when no row is checked |
| BackupPlan.PlanFailsOnUnknownModPack | FFXIV_TexTools/Views/ModPack/Backup/BackupModpackCreator.xaml.cs:129-135 | building the plan fails with a not-found error, rather than giving an empty contribution, exactly when some checked row other than the standalone label names no modpack |
| BackupPlan.PlanLength | FFXIV_TexTools/Views/ModPack/Backup/BackupModpackCreator.xaml.cs:118-156 | a successful plan has as many records as the checked rows pick mods together |
| BackupPlan.PlanExact | FFXIV_TexTools/Views/ModPack/Backup/BackupModpackCreator.xaml.cs:118-156 | a record is in a successful plan exactly when some checked row's filter picks a mod and the record is that mod's, filed under the row's modpack; every record copies name, category, path, offset, size and data file from a mod of the snapshot |
| BackupPlan.PreviewMatchesPlan | FFXIV_TexTools/Views/ModPack/Backup/BackupModpackCreator.xaml.cs:199-221 | with one row checked, the plan is that row's preview turned into records, or the preview's error |
| BackupPlan.ClearedPlanFails | FFXIV_TexTools/Views/ModPack/Backup/BackupModpackCreator.xaml.cs:80-86 | after every box is cleared, building the plan fails with the no-selection error |
| BackupPlan.SelectAllPlanCoversMods | FFXIV_TexTools/Views/ModPack/Backup/BackupModpackCreator.xaml.cs:69-75 | with every row of a fresh list checked, the plan succeeds; every mod with a name and no modpack, and every mod of a listed modpack not named like the standalone label, has a record copied from it; every record is copied from such a mod |
| BackupPlan.Decide | FFXIV_TexTools/Views/ModPack/Backup/BackupModpackCreator.xaml.cs:161-177 | the export is abandoned exactly when the archive exists and the answer is Cancel; otherwise it overwrites exactly when the archive exists and the answer is Yes |
| BackupCreator.BackupModPackCreator.BuildPlan | FFXIV_TexTools/Views/ModPack/Backup/BackupModpackCreator.xaml.cs:105-158 | the loop that appends records over the checked rows returns exactly `Plan(name, entries, mods, packs)`, including its errors |
| BackupCreator.BackupModPackCreator.AppendRecords | FFXIV_TexTools/Views/ModPack/Backup/BackupModpackCreator.xaml.cs:137-156 | appending one record per picked mod extends the list by exactly those records, in order |
| BackupCreator.BackupModPackCreator.CreateModPack | FFXIV_TexTools/Views/ModPack/Backup/BackupModpackCreator.xaml.cs:99-181 | a plan error is reported and nothing is exported; otherwise the overwrite decision chooses between cancelling and exporting that plan with the decided overwrite flag; the file name is remembered only on export |
| BackupCreator.BackupModPackCreator.SetSelectedIndex | FFXIV_TexTools/Views/ModPack/Backup/BackupModpackCreator.xaml.cs:199 | highlighting a row sets the highlighted index and nothing else |
| BackupCreator.BackupModPackCreator.SelectionChanged | FFXIV_TexTools/Views/ModPack/Backup/BackupModpackCreator.xaml.cs:199-221 | for the highlighted row the pane fails with a not-found error exactly when the name is neither the standalone label nor a listed modpack's; otherwise it receives no modpack for the standalone entry and the first modpack of that name for any other, and exactly the snapshot's mods that the row's filter picks, in order |
| BackupCreator.SelectAllThenClear | FFXIV_TexTools/Views/ModPack/Backup/BackupModpackCreator.xaml.cs:69-114 | on a fresh window, select-all makes the plan succeed; clearing afterwards makes it fail with the no-selection error |
| ManipulationEditor.EditorFor | FFXIV_TexTools/Views/ModPack/Wizard/ManipulationEditorWindow.xaml.cs:127-134 | a kind gets the unknown editor exactly when it is not one of the seven registered kinds |
| ManipulationEditor.EditorForInjective | FFXIV_TexTools/Views/ModPack/Wizard/ManipulationEditorWindow.xaml.cs:56-65 | two kinds that get the same registered editor are the same kind, so each registered kind has its own editor |
| ManipulationEditor.ManipulationEditorWindow.constructor | FFXIV_TexTools/Views/ModPack/Wizard/ManipulationEditorWindow.xaml.cs:79-90 | a missing list becomes an empty one and an existing list is kept; the rows are then the projection of the list, and the first entry is selected |
| ManipulationEditor.Project | FFXIV_TexTools/Views/ModPack/Wizard/ManipulationEditorWindow.xaml.cs:94-98 | the displayed list has the backing list's length; row i shows entry i under that entry's current label |
| ManipulationEditor.ProjectInSync | FFXIV_TexTools/Views/ModPack/Wizard/ManipulationEditorWindow.xaml.cs:94-98 | a freshly rebuilt list shows every entry's current label |
| ManipulationEditor.FirstOrNull | FFXIV_TexTools/Views/ModPack/Wizard/ManipulationEditorWindow.xaml.cs:100 | the result is null exactly for an empty list, and otherwise the first entry |
| ManipulationEditor.ManipulationEditorWindow.RebuildList | FFXIV_TexTools/Views/ModPack/Wizard/ManipulationEditorWindow.xaml.cs:92-101 | the rebuilding loop leaves the rows equal to the projection of the option's list, and the selection equal to its first entry or null |
| ManipulationEditor.RebuildListTwice | FFXIV_TexTools/Views/ModPack/Wizard/ManipulationEditorWindow.xaml.cs:92-101 | rebuilding twice in a row leaves the same rows and the same selection as rebuilding once |
| ManipulationEditor.EditThenSwitch | FFXIV_TexTools/Views/ModPack/Wizard/ManipulationEditorWindow.xaml.cs:114-168 | selecting an entry, editing its values and then selecting another refreshes the edited entry's label on the switch: the rows keep their entries, the list is back in sync, the edited entry's row shows the label of its new values, and the new selection's editor is shown |
| ManipulationEditor.ManipulationEditorWindow.SetSelectedManipulation | FFXIV_TexTools/Views/ModPack/Wizard/ManipulationEditorWindow.xaml.cs:45-54 | the selection becomes the given entry and nothing else changes |
| ManipulationEditor.IndexOf | FFXIV_TexTools/Views/ModPack/Wizard/ManipulationEditorWindow.xaml.cs:105 | there is no index exactly when the entry does not occur; otherwise the index is that of its first occurrence |
| ManipulationEditor.RemoveFirst | FFXIV_TexTools/Views/ModPack/Wizard/ManipulationEditorWindow.xaml.cs:105 | only the first occurrence of the entry is cut out, so the list shrinks by one; an absent or null entry leaves the list as it is |
| ManipulationEditor.RemoveFirstLength | FFXIV_TexTools/Views/ModPack/Wizard/ManipulationEditorWindow.xaml.cs:103-107 | removing an entry that is in the list shrinks it by exactly one; removing any other changes nothing |
| ManipulationEditor.ManipulationEditorWindow.RemoveManipulation | FFXIV_TexTools/Views/ModPack/Wizard/ManipulationEditorWindow.xaml.cs:103-107 | the option's list loses the first occurrence of the selected entry, or stays the same; the rows and the selection are then rebuilt from it, so the selection is an entry of the new list or null |
| ManipulationEditor.ManipulationEditorWindow.ClearManipulations | FFXIV_TexTools/Views/ModPack/Wizard/ManipulationEditorWindow.xaml.cs:142-151 | a declined confirmation changes nothing in the window or the option; an accepted one leaves an empty list, no rows and no selection |
| ManipulationEditor.RowOf | FFXIV_TexTools/Views/ModPack/Wizard/ManipulationEditorWindow.xaml.cs:161 | there is no row exactly when no row shows the entry; otherwise it is the first row that shows it |
| ManipulationEditor.Refreshed | FFXIV_TexTools/Views/ModPack/Wizard/ManipulationEditorWindow.xaml.cs:159-168 | only the label of the first row that shows the entry changes, to the entry's current label; every row keeps its entry; with no such row nothing changes |
| ManipulationEditor.RefreshIdempotent | FFXIV_TexTools/Views/ModPack/Wizard/ManipulationEditorWindow.xaml.cs:159-168 | refreshing an entry's label twice gives the same rows as refreshing it once |
| ManipulationEditor.RefreshRestoresSync | FFXIV_TexTools/Views/ModPack/Wizard/ManipulationEditorWindow.xaml.cs:114-119 | when only the edited entry's label may be stale and the entry has a single row, refreshing it brings every row back in line with its entry's label |
| ManipulationEditor.ManipulationEditorWindow.UpdateName | FFXIV_TexTools/Views/ModPack/Wizard/ManipulationEditorWindow.xaml.cs:159-168 | the rows become `Refreshed(rows, entry)`: only the first matching row's label is rewritten, and an entry with no row changes nothing |
| ManipulationEditor.ManipulationEditorWindow.ManipulationChanged | FFXIV_TexTools/Views/ModPack/Wizard/ManipulationEditorWindow.xaml.cs:114-140 | the entry shown last, if any, has its label refreshed first; with no selection, no editor is shown and the entry shown last is kept; otherwise the editor registered for the selection's kind is shown, and the selection becomes the entry shown last |

## Left out

- The WPF and MahApps plumbing is not modelled: window initialisation, data contexts, item-source casts, property-change notifications, the editor box's control, dialog results and closing. The model keeps only the kind of editor chosen (`editor`). The property-change event does not fire `ManipulationChanged` by itself; the caller invokes it as a separate step.
- The progress dialog and its asynchronous open and close are not modelled. The exception message box is modelled as the `Failed` outcome.
- The archive writer (`TTMP.CreateBackupModpack`) is not modelled. `CreateModPack` returns the request it would be given: the plan and the overwrite flag. A failure inside the writer is not modelled.
- The backup directory setting and `Path.Combine` are not modelled. `File.Exists` becomes the `fileExists` parameter.
- The timestamped default backup name depends on the clock. The name comes in as a parameter instead.
- The handler for the modpack URL validates the URL and launches a process; it is not modelled.
- `BackupModpackViewModel.UpdateDescription` is not part of this model. The preview stops at what it is given (`Preview`).
- The internals of `GetNiceName` are not part of this model. Each manipulation carries an arbitrary label function of its field values, so every property holds for any labelling.
- The editor controls are not part of this model, and neither is their creation through reflection. `SetFields` stands for an edit they make.
- The `UpdateName(object)` overload is not modelled. It matches rows through an accessor that is not part of this model.
- The item type of the candidate list is not part of this model. Its check box is taken to start unchecked.
- A mod with a null item name is not modelled; the source would throw on it. A data-file identifier is modelled as the text it prints as.
- The displayed rows are values, not objects. So the identity of a row object is not modelled, only its label and entry.
- A manipulation list that holds null entries is not modelled. Removal compares entries by reference, as the source's list does for types without their own equality.
- BackupCreator.BackupModPackCreator.SelectionChanged: requires a highlighted row. The source dereferences the highlighted row without a null check.
- BackupPlan.Plan: its own contract states only the plan's name. The plan's content is stated by `PlanExact`, `PlanLength`, `PlanAppend`, `GatherAppend`, `PlanFailsWithoutSelection` and `PlanFailsOnUnknownModPack`.
