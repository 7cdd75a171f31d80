/** The backup modpack window's state: the candidate list with its check
    boxes, the highlighted row and the file name of the last export, and
    the handlers that change it. */
module BackupCreator {
  import opened Wrappers
  import opened BackupPlan

  /** How a click on the create button ends. `Exported` carries the request
      handed to the archive writer. */
  datatype CreateOutcome =
    | Exported(data: BackupModPackData, overwrite: bool)
    | Cancelled
    | Failed(error: BackupError)

  class BackupModPackCreator {
    /** The rows of the candidate list. */
    var entries: seq<ItemEntry>
    /** The highlighted row. */
    var selectedIndex: int
    /** The name of the modpack last handed to the archive writer, if any. */
    var modPackFileName: Option<string>

    /** Lists the standalone entry, then one entry per modpack, and
        highlights the first row. */
    constructor (packs: seq<ModPack>)
      ensures entries == Candidates(packs)
      ensures selectedIndex == 0 && modPackFileName == None
    {
      var rows := [ItemEntry(StandaloneLabel, false)];
      var i := 0;
      while i < |packs|
        invariant 0 <= i <= |packs|
        invariant rows == Candidates(packs[..i])
      {
        assert packs[..i + 1][..i] == packs[..i];
        rows := rows + [ItemEntry(packs[i].name, false)];
        i := i + 1;
      }
      assert packs[..|packs|] == packs;
      entries := rows;
      selectedIndex := 0;
      modPackFileName := None;
    }

    /** Checks every row; names and order stay. */
    method SelectAll()
      modifies this`entries
      ensures entries == WithChecked(old(entries), true)
    {
      SetAllChecked(true);
    }

    /** Unchecks every row; names and order stay. */
    method ClearSelected()
      modifies this`entries
      ensures entries == WithChecked(old(entries), false)
    {
      SetAllChecked(false);
    }

    /** Sets every row's check box to `flag`, one row at a time. */
    method SetAllChecked(flag: bool)
      modifies this`entries
      ensures entries == WithChecked(old(entries), flag)
    {
      var i := 0;
      while i < |entries|
        invariant 0 <= i <= |entries| == |old(entries)|
        invariant forall k :: 0 <= k < i ==> entries[k] == old(entries)[k].(isChecked := flag)
        invariant forall k :: i <= k < |entries| ==> entries[k] == old(entries)[k]
      {
        entries := entries[i := entries[i].(isChecked := flag)];
        i := i + 1;
      }
      ghost var expected := WithChecked(old(entries), flag);
      assert forall k :: 0 <= k < |entries| ==> entries[k] == expected[k];
    }

    /** Builds the export plan named `name` from the checked rows, over the
        mod list's current mods and modpacks. */
    method BuildPlan(name: string, mods: seq<Mod>, packs: seq<ModPack>)
      returns (r: Result<BackupModPackData, BackupError>)
      ensures r == Plan(name, entries, mods, packs)
    {
      var selected := CheckedEntries(entries);
      if |selected| == 0 {
        return Failure(NoSelectedModPacks);
      }
      var modsToBackup: seq<BackupModData> := [];
      var i := 0;
      while i < |selected|
        invariant 0 <= i <= |selected|
        invariant Gather(selected[..i], mods, packs) == Success(modsToBackup)
      {
        GatherStep(selected, i, mods, packs);
        var preview := SelectionPreview(selected[i].modpackName, mods, packs);
        if preview.Failure? {
          GatherFailsAt(selected, i, mods, packs);
          return Failure(preview.error);
        }
        modsToBackup := AppendRecords(modsToBackup, preview.value.mods, preview.value.modPack);
        i := i + 1;
      }
      assert selected[..|selected|] == selected;
      return Success(BackupModPackData(name, modsToBackup));
    }

    /** Appends the record of each mod of `inPack`, filed under `tag`, in order. */
    static method AppendRecords(acc: seq<BackupModData>, inPack: seq<Mod>, tag: Option<ModPack>)
      returns (r: seq<BackupModData>)
      ensures r == acc + Records(inPack, tag)
    {
      r := acc;
      var j := 0;
      while j < |inPack|
        invariant 0 <= j <= |inPack|
        invariant r == acc + Records(inPack[..j], tag)
      {
        assert Records(inPack[..j + 1], tag) == Records(inPack[..j], tag) + [Record(inPack[j], tag)];
        r := r + [Record(inPack[j], tag)];
        j := j + 1;
      }
      assert inPack[..|inPack|] == inPack;
    }

    /** The create button: build the plan; when `fileExists` says an archive
        of that name is already there, ask, and take `answer` as the reply.
        On export the file name is remembered. */
    method CreateModPack(name: string, mods: seq<Mod>, packs: seq<ModPack>, fileExists: bool, answer: DialogAnswer)
      returns (outcome: CreateOutcome)
      modifies this`modPackFileName
      ensures Plan(name, entries, mods, packs).Failure? ==>
        outcome == Failed(Plan(name, entries, mods, packs).error)
      ensures Plan(name, entries, mods, packs).Success? ==>
        outcome == match Decide(fileExists, answer)
                   case Abort => Cancelled
                   case Proceed(overwrite) => Exported(Plan(name, entries, mods, packs).value, overwrite)
      ensures modPackFileName == if outcome.Exported? then Some(name) else old(modPackFileName)
    {
      var plan := BuildPlan(name, mods, packs);
      if plan.Failure? {
        return Failed(plan.error);
      }
      var decision := Decide(fileExists, answer);
      if decision.Abort? {
        return Cancelled;
      }
      modPackFileName := Some(plan.value.name);
      return Exported(plan.value, decision.overwrite);
    }

    /** The user highlights row `i` of the candidate list. */
    method SetSelectedIndex(i: int)
      modifies this`selectedIndex
      ensures selectedIndex == i
    {
      selectedIndex := i;
    }

    /** What the preview pane receives for the highlighted row: no modpack and
        the named mods outside any modpack for the standalone entry; otherwise
        the first modpack of the row's name and the mods filed under that
        name; an error when no modpack has the name. */
    method SelectionChanged(mods: seq<Mod>, packs: seq<ModPack>) returns (r: Result<Preview, BackupError>)
      requires 0 <= selectedIndex < |entries|
      ensures r.Failure? <==>
        entries[selectedIndex].modpackName != StandaloneLabel
        && forall p :: p in packs ==> p.name != entries[selectedIndex].modpackName
      ensures r.Failure? ==> r.error == ModPackNotFound(entries[selectedIndex].modpackName)
      ensures r.Success? ==>
        r.value.modPack == (if entries[selectedIndex].modpackName == StandaloneLabel then None
                            else FindModPack(packs, entries[selectedIndex].modpackName))
      ensures r.Success? ==>
        r.value.mods == Select(mods, SelectorOf(entries[selectedIndex].modpackName))
        && forall m :: m in r.value.mods <==> m in mods && Matches(SelectorOf(entries[selectedIndex].modpackName), m)
    {
      r := SelectionPreview(entries[selectedIndex].modpackName, mods, packs);
    }
  }

  /** A client: after select-all on a fresh window, the plan succeeds; after
      clear, it fails with the no-selection error. */
  method SelectAllThenClear(packs: seq<ModPack>, mods: seq<Mod>)
    returns (afterSelectAll: Result<BackupModPackData, BackupError>, afterClear: Result<BackupModPackData, BackupError>)
    ensures afterSelectAll.Success?
    ensures afterClear == Failure(NoSelectedModPacks)
  {
    var window := new BackupModPackCreator(packs);
    window.SelectAll();
    afterSelectAll := window.BuildPlan("Backup", mods, packs);
    SelectAllResolves("Backup", mods, packs);
    window.ClearSelected();
    afterClear := window.BuildPlan("Backup", mods, packs);
    ClearedPlanFails("Backup", WithChecked(Candidates(packs), true), mods, packs);
  }
}
