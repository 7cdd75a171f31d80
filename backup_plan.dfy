/** The pure part of the backup modpack window: the records it works on, the
    filters that pick the mods of one candidate, the export plan built from
    the checked candidates, the preview of one candidate and the decision
    taken when the target archive already exists. */
module BackupPlan {
  import opened Wrappers

  /** Label of the synthetic candidate that stands for the mods that belong
      to no modpack (a localised string in the program, fixed here). */
  const StandaloneLabel: string := "Standalone (Non-ModPack)"

  /** A modpack as listed by the mod list. */
  datatype ModPack = ModPack(name: string, author: string, version: string, url: string)

  /** An installed mod; `modPack` names the modpack it was installed from, if any.
      `dataFile` is the text of the data-file identifier. */
  datatype Mod = Mod(
    itemName: string,
    itemCategory: string,
    filePath: string,
    modOffset: int,
    fileSize: int,
    dataFile: string,
    modPack: Option<string>)

  /** The per-file part of a backup record. */
  datatype SimpleModData = SimpleModData(
    name: string,
    category: string,
    fullPath: string,
    modOffset: int,
    modSize: int,
    datFile: string)

  /** One record of the export plan: a copied mod and the modpack it is filed under. */
  datatype BackupModData = BackupModData(simpleModData: SimpleModData, modPack: Option<ModPack>)

  /** The export plan handed to the archive writer. */
  datatype BackupModPackData = BackupModPackData(name: string, modsToBackup: seq<BackupModData>)

  /** One row of the candidate list: a modpack name and its check box. */
  datatype ItemEntry = ItemEntry(modpackName: string, isChecked: bool)

  datatype BackupError = NoSelectedModPacks | ModPackNotFound(name: string)

  /** The three buttons of the overwrite question. */
  datatype DialogAnswer = Yes | No | Cancel

  datatype ExportDecision = Proceed(overwrite: bool) | Abort

  /** Which mods a candidate stands for. */
  datatype Selector = Standalone | Named(name: string)

  /** What the preview pane is given for the highlighted candidate. */
  datatype Preview = Preview(modPack: Option<ModPack>, mods: seq<Mod>)

  // ---------------------------------------------------------------------------
  // The candidate list

  /** The candidate list the window starts with: the standalone entry, then
      one unchecked entry per modpack, in the mod list's order. */
  function Candidates(packs: seq<ModPack>): (r: seq<ItemEntry>)
    ensures |r| == |packs| + 1
    ensures r[0] == ItemEntry(StandaloneLabel, false)
    ensures forall i :: 0 <= i < |packs| ==> r[i + 1] == ItemEntry(packs[i].name, false)
  {
    if packs == [] then [ItemEntry(StandaloneLabel, false)]
    else Candidates(packs[..|packs| - 1]) + [ItemEntry(packs[|packs| - 1].name, false)]
  }

  /** The candidate list with every check box set to `flag`. */
  function WithChecked(entries: seq<ItemEntry>, flag: bool): (r: seq<ItemEntry>)
    ensures |r| == |entries|
    ensures forall i :: 0 <= i < |r| ==>
      r[i].modpackName == entries[i].modpackName && r[i].isChecked == flag
  {
    if entries == [] then []
    else
      WithChecked(entries[..|entries| - 1], flag)
        + [entries[|entries| - 1].(isChecked := flag)]
  }

  /** The checked candidates, in list order. */
  function CheckedEntries(entries: seq<ItemEntry>): (r: seq<ItemEntry>)
    ensures |r| <= |entries|
    ensures forall e :: e in r <==> e in entries && e.isChecked
  {
    if entries == [] then []
    else
      var n := |entries| - 1;
      assert entries == entries[..n] + [entries[n]];
      if entries[n].isChecked then CheckedEntries(entries[..n]) + [entries[n]]
      else CheckedEntries(entries[..n])
  }

  // ---------------------------------------------------------------------------
  // Filtering the mods of one candidate

  /** A candidate whose name is the standalone label is the standalone
      candidate, whatever else carries that name. */
  function SelectorOf(entryName: string): Selector
  {
    if entryName == StandaloneLabel then Standalone else Named(entryName)
  }

  predicate Matches(sel: Selector, m: Mod)
  {
    match sel
    case Standalone => m.itemName != "" && m.modPack == None
    case Named(n) => m.modPack == Some(n)
  }

  /** The mods a selector picks, in the mod list's order. */
  function Select(mods: seq<Mod>, sel: Selector): (r: seq<Mod>)
    ensures |r| <= |mods|
    ensures forall m :: m in r <==> m in mods && Matches(sel, m)
  {
    if mods == [] then []
    else
      var n := |mods| - 1;
      assert mods == mods[..n] + [mods[n]];
      if Matches(sel, mods[n]) then Select(mods[..n], sel) + [mods[n]]
      else Select(mods[..n], sel)
  }

  /** The first modpack with the given name, or None when no modpack has it. */
  function FindModPack(packs: seq<ModPack>, name: string): (r: Option<ModPack>)
    ensures r.None? <==> forall p :: p in packs ==> p.name != name
    ensures r.Some? ==> exists i :: 0 <= i < |packs| && packs[i] == r.value && r.value.name == name
                                    && forall j :: 0 <= j < i ==> packs[j].name != name
  {
    if packs == [] then None
    else if packs[0].name == name then Some(packs[0])
    else
      var r := FindModPack(packs[1..], name);
      assert r.Some? ==> exists i :: 0 <= i < |packs[1..]| && packs[1..][i] == r.value
                                    && forall j :: 0 <= j < i ==> packs[1..][j].name != name;
      assert r.Some? ==> exists i :: 1 <= i < |packs| && packs[i] == r.value
                                    && forall j :: 1 <= j < i ==> packs[j].name != name;
      r
  }

  /** The query behind the preview pane and each step of the plan: the
      modpack the candidate resolves to (none for the standalone candidate)
      and the mods it picks. A name that no longer resolves is an error. */
  function SelectionPreview(entryName: string, mods: seq<Mod>, packs: seq<ModPack>)
    : (r: Result<Preview, BackupError>)
    ensures r.Failure? <==>
      entryName != StandaloneLabel && forall p :: p in packs ==> p.name != entryName
    ensures r.Failure? ==> r.error == ModPackNotFound(entryName)
    ensures r.Success? ==> (r.value.modPack.None? <==> entryName == StandaloneLabel)
    ensures r.Success? && r.value.modPack.Some? ==>
      r.value.modPack.value in packs && r.value.modPack.value.name == entryName
    ensures r.Success? && entryName != StandaloneLabel ==> r.value.modPack == FindModPack(packs, entryName)
    ensures r.Success? ==>
      forall m :: m in r.value.mods <==> m in mods && Matches(SelectorOf(entryName), m)
    ensures r.Success? ==> r.value.mods == Select(mods, SelectorOf(entryName))
  {
    if entryName == StandaloneLabel then
      Success(Preview(None, Select(mods, Standalone)))
    else
      match FindModPack(packs, entryName)
      case None => Failure(ModPackNotFound(entryName))
      case Some(p) => Success(Preview(Some(p), Select(mods, Named(entryName))))
  }

  // ---------------------------------------------------------------------------
  // Building the plan

  /** The plan record for one mod, filed under `pack`. */
  function Record(m: Mod, pack: Option<ModPack>): (r: BackupModData)
    ensures CopiedFrom(r, m) && r.modPack == pack
  {
    BackupModData(
      SimpleModData(m.itemName, m.itemCategory, m.filePath, m.modOffset, m.fileSize, m.dataFile),
      pack)
  }

  /** A record carries the mod's name, category, path, offset, size and data file unchanged. */
  predicate CopiedFrom(r: BackupModData, m: Mod)
  {
    && r.simpleModData.name == m.itemName
    && r.simpleModData.category == m.itemCategory
    && r.simpleModData.fullPath == m.filePath
    && r.simpleModData.modOffset == m.modOffset
    && r.simpleModData.modSize == m.fileSize
    && r.simpleModData.datFile == m.dataFile
  }

  /** One record per mod, in the mods' order, all filed under `pack`. */
  function Records(ms: seq<Mod>, pack: Option<ModPack>): (r: seq<BackupModData>)
    ensures |r| == |ms|
    ensures forall i :: 0 <= i < |ms| ==> CopiedFrom(r[i], ms[i]) && r[i].modPack == pack
  {
    seq(|ms|, i requires 0 <= i < |ms| => Record(ms[i], pack))
  }

  /** The records one checked candidate adds to the plan. */
  function Contribution(entryName: string, mods: seq<Mod>, packs: seq<ModPack>)
    : (r: Result<seq<BackupModData>, BackupError>)
    ensures r.Failure? <==>
      entryName != StandaloneLabel && forall p :: p in packs ==> p.name != entryName
    ensures r.Failure? ==> r.error == ModPackNotFound(entryName)
    ensures r.Success? ==>
      var picked := Select(mods, SelectorOf(entryName));
      && |r.value| == |picked|
      && forall i :: 0 <= i < |picked| ==>
           CopiedFrom(r.value[i], picked[i])
           && r.value[i].modPack == (if entryName == StandaloneLabel then None else FindModPack(packs, entryName))
  {
    match SelectionPreview(entryName, mods, packs)
    case Failure(e) => Failure(e)
    case Success(p) => Success(Records(p.mods, p.modPack))
  }

  /** Appends two partial plans; a failure on the left wins over one on the right. */
  function Concat(x: Result<seq<BackupModData>, BackupError>, y: Result<seq<BackupModData>, BackupError>)
    : Result<seq<BackupModData>, BackupError>
  {
    match x
    case Failure(_) => x
    case Success(a) =>
      match y
      case Failure(_) => y
      case Success(b) => Success(a + b)
  }

  /** The contributions of `selected`, concatenated in order; the first
      candidate that does not resolve fails the whole plan. */
  function Gather(selected: seq<ItemEntry>, mods: seq<Mod>, packs: seq<ModPack>)
    : (r: Result<seq<BackupModData>, BackupError>)
    ensures r.Failure? ==> r.error.ModPackNotFound?
  {
    if selected == [] then Success([])
    else
      var n := |selected| - 1;
      Concat(Gather(selected[..n], mods, packs), Contribution(selected[n].modpackName, mods, packs))
  }

  /** The export plan named `name` for the candidate list `entries`. */
  function Plan(name: string, entries: seq<ItemEntry>, mods: seq<Mod>, packs: seq<ModPack>)
    : (r: Result<BackupModPackData, BackupError>)
    ensures r.Success? ==> r.value.name == name
  {
    var selected := CheckedEntries(entries);
    if selected == [] then Failure(NoSelectedModPacks)
    else
      match Gather(selected, mods, packs)
      case Failure(e) => Failure(e)
      case Success(rs) => Success(BackupModPackData(name, rs))
  }

  /** What happens once the plan is built: export without overwriting when
      there is no archive of that name, otherwise as the user answers. */
  function Decide(fileExists: bool, answer: DialogAnswer): (d: ExportDecision)
    ensures d == Abort <==> fileExists && answer == Cancel
    ensures d.Proceed? ==> (d.overwrite <==> fileExists && answer == Yes)
  {
    if !fileExists then Proceed(false)
    else
      match answer
      case Yes => Proceed(true)
      case No => Proceed(false)
      case Cancel => Abort
  }

  // ---------------------------------------------------------------------------
  // Properties of the plan

  /** The number of mods the candidates in `selected` pick together. */
  function MatchCount(selected: seq<ItemEntry>, mods: seq<Mod>): nat
  {
    if selected == [] then 0
    else
      var n := |selected| - 1;
      MatchCount(selected[..n], mods) + |Select(mods, SelectorOf(selected[n].modpackName))|
  }

  /** Filtering distributes over concatenation: the picked mods keep the
      order they have in the mod list. */
  lemma {:induction false} SelectAppend(a: seq<Mod>, b: seq<Mod>, sel: Selector)
    ensures Select(a + b, sel) == Select(a, sel) + Select(b, sel)
    decreases |b|
  {
    if b == [] {
      assert a + b == a;
    } else {
      var n := |b| - 1;
      assert (a + b)[..|a + b| - 1] == a + b[..n];
      SelectAppend(a, b[..n], sel);
    }
  }

  /** A resolved contribution is exactly the records of the mods the
      candidate picks, filed under the modpack the candidate resolves to. */
  lemma ContributionExact(entryName: string, mods: seq<Mod>, packs: seq<ModPack>, r: BackupModData)
    requires Contribution(entryName, mods, packs).Success?
    ensures SelectionPreview(entryName, mods, packs).Success?
    ensures r in Contribution(entryName, mods, packs).value <==>
      exists m :: m in mods && Matches(SelectorOf(entryName), m)
                  && r == Record(m, SelectionPreview(entryName, mods, packs).value.modPack)
  {
    var p := SelectionPreview(entryName, mods, packs).value;
    var c := Records(p.mods, p.modPack);
    if r in c {
      var i :| 0 <= i < |c| && c[i] == r;
      assert p.mods[i] in p.mods;
    }
    if exists m :: m in mods && Matches(SelectorOf(entryName), m) && r == Record(m, p.modPack) {
      var m :| m in mods && Matches(SelectorOf(entryName), m) && r == Record(m, p.modPack);
      var i :| 0 <= i < |p.mods| && p.mods[i] == m;
      assert c[i] == r;
    }
  }

  /** The standalone candidate contributes exactly the mods with a name and
      no modpack, filed under no modpack, whatever the modpack list holds. */
  lemma StandaloneContribution(mods: seq<Mod>, packs: seq<ModPack>, r: BackupModData)
    ensures Contribution(StandaloneLabel, mods, packs).Success?
    ensures r in Contribution(StandaloneLabel, mods, packs).value <==>
      exists m :: m in mods && m.itemName != "" && m.modPack.None? && r == Record(m, None)
  {
    ContributionExact(StandaloneLabel, mods, packs, r);
  }

  /** A mod filed under a modpack that carries the standalone label is
      picked by no candidate: the candidate with that name is taken for the
      standalone one. */
  lemma StandaloneLabelShadowsModPack(entryName: string, mods: seq<Mod>, packs: seq<ModPack>, m: Mod)
    requires m.modPack == Some(StandaloneLabel)
    requires SelectionPreview(entryName, mods, packs).Success?
    ensures m !in SelectionPreview(entryName, mods, packs).value.mods
  {
  }

  lemma ConcatAssociative(x: Result<seq<BackupModData>, BackupError>, y: Result<seq<BackupModData>, BackupError>,
                          z: Result<seq<BackupModData>, BackupError>)
    ensures Concat(Concat(x, y), z) == Concat(x, Concat(y, z))
  {
    if x.Success? && y.Success? && z.Success? {
      assert (x.value + y.value) + z.value == x.value + (y.value + z.value);
    }
  }

  /** Gathering a concatenation of candidate lists appends their plans: the
      plan follows the candidate list's order, and the first failure wins. */
  lemma {:induction false} GatherAppend(a: seq<ItemEntry>, b: seq<ItemEntry>, mods: seq<Mod>, packs: seq<ModPack>)
    ensures Gather(a + b, mods, packs) == Concat(Gather(a, mods, packs), Gather(b, mods, packs))
    decreases |b|
  {
    if b == [] {
      assert a + b == a;
      if Gather(a, mods, packs).Success? {
        assert Gather(a, mods, packs).value + [] == Gather(a, mods, packs).value;
      }
    } else {
      var n := |b| - 1;
      assert (a + b)[..|a + b| - 1] == a + b[..n];
      assert (a + b)[|a + b| - 1] == b[n];
      GatherAppend(a, b[..n], mods, packs);
      ConcatAssociative(Gather(a, mods, packs), Gather(b[..n], mods, packs),
                        Contribution(b[n].modpackName, mods, packs));
    }
  }

  /** Selecting the checked rows distributes over concatenation, and a single
      row is kept exactly when it is checked: the selected rows are the checked
      rows in list order, duplicates kept. */
  lemma {:induction false} CheckedAppend(a: seq<ItemEntry>, b: seq<ItemEntry>)
    ensures CheckedEntries(a + b) == CheckedEntries(a) + CheckedEntries(b)
    decreases |b|
  {
    if b == [] {
      assert a + b == a;
      assert CheckedEntries(a) + [] == CheckedEntries(a);
    } else {
      var n := |b| - 1;
      assert (a + b)[..|a + b| - 1] == a + b[..n];
      assert (a + b)[|a + b| - 1] == b[n];
      CheckedAppend(a, b[..n]);
      if b[n].isChecked {
        assert CheckedEntries(a + b) == CheckedEntries(a) + CheckedEntries(b[..n]) + [b[n]];
      }
    }
  }

  lemma CheckedSingle(e: ItemEntry)
    ensures CheckedEntries([e]) == if e.isChecked then [e] else []
  {
    assert [e][..0] == [];
  }

  /** The plan follows the candidate list's order: the records gathered for
      the checked rows of `a + b` are those of `a`'s checked rows followed by
      those of `b`'s, and a failure in `a` wins. */
  lemma PlanAppend(a: seq<ItemEntry>, b: seq<ItemEntry>, mods: seq<Mod>, packs: seq<ModPack>)
    ensures Gather(CheckedEntries(a + b), mods, packs)
         == Concat(Gather(CheckedEntries(a), mods, packs), Gather(CheckedEntries(b), mods, packs))
  {
    CheckedAppend(a, b);
    GatherAppend(CheckedEntries(a), CheckedEntries(b), mods, packs);
  }

  /** Gathering fails exactly when one of the candidates does not resolve. */
  lemma {:induction false} GatherFailure(selected: seq<ItemEntry>, mods: seq<Mod>, packs: seq<ModPack>)
    ensures Gather(selected, mods, packs).Failure? <==>
      exists e :: e in selected && Contribution(e.modpackName, mods, packs).Failure?
  {
    if selected != [] {
      var n := |selected| - 1;
      assert selected == selected[..n] + [selected[n]];
      GatherFailure(selected[..n], mods, packs);
    }
  }

  /** One more candidate extends the gathered prefix by its contribution. */
  lemma GatherStep(selected: seq<ItemEntry>, i: nat, mods: seq<Mod>, packs: seq<ModPack>)
    requires i < |selected|
    ensures Gather(selected[..i + 1], mods, packs) ==
      Concat(Gather(selected[..i], mods, packs), Contribution(selected[i].modpackName, mods, packs))
  {
    assert selected[..i + 1][..i] == selected[..i];
  }

  /** A candidate that does not resolve after a resolved prefix fails the
      whole list with its own error. */
  lemma GatherFailsAt(selected: seq<ItemEntry>, i: nat, mods: seq<Mod>, packs: seq<ModPack>)
    requires i < |selected|
    requires Gather(selected[..i], mods, packs).Success?
    requires Contribution(selected[i].modpackName, mods, packs).Failure?
    ensures Gather(selected, mods, packs) == Contribution(selected[i].modpackName, mods, packs)
  {
    GatherStep(selected, i, mods, packs);
    GatherAppend(selected[..i + 1], selected[i + 1..], mods, packs);
    assert selected[..i + 1] + selected[i + 1..] == selected;
  }

  /** The plan is not deduplicated: a candidate listed twice contributes twice. */
  lemma GatherTwice(e: ItemEntry, mods: seq<Mod>, packs: seq<ModPack>)
    requires Contribution(e.modpackName, mods, packs).Success?
    ensures Gather([e, e], mods, packs) ==
      Success(Contribution(e.modpackName, mods, packs).value + Contribution(e.modpackName, mods, packs).value)
  {
    var c := Contribution(e.modpackName, mods, packs).value;
    assert [e, e][..1] == [e];
    assert [e][..0] == [];
    assert [] + c == c;
    assert Gather([e], mods, packs) == Success(c);
  }

  /** The length of a gathered plan is the sum of the per-candidate match counts. */
  lemma {:induction false} GatherLength(selected: seq<ItemEntry>, mods: seq<Mod>, packs: seq<ModPack>)
    requires Gather(selected, mods, packs).Success?
    ensures |Gather(selected, mods, packs).value| == MatchCount(selected, mods)
  {
    if selected != [] {
      var n := |selected| - 1;
      GatherLength(selected[..n], mods, packs);
    }
  }

  /** Every record of a gathered plan comes from one of the gathered
      candidates' contributions, and every such record is in the plan. */
  lemma {:induction false} GatherMembers(selected: seq<ItemEntry>, mods: seq<Mod>, packs: seq<ModPack>, r: BackupModData)
    requires Gather(selected, mods, packs).Success?
    ensures forall e :: e in selected ==> Contribution(e.modpackName, mods, packs).Success?
    ensures r in Gather(selected, mods, packs).value <==>
      exists e :: e in selected && r in Contribution(e.modpackName, mods, packs).value
  {
    if selected != [] {
      var n := |selected| - 1;
      assert selected == selected[..n] + [selected[n]];
      GatherMembers(selected[..n], mods, packs, r);
    }
  }

  /** Building the plan fails with the no-selection error exactly when no
      candidate is checked. */
  lemma PlanFailsWithoutSelection(name: string, entries: seq<ItemEntry>, mods: seq<Mod>, packs: seq<ModPack>)
    ensures Plan(name, entries, mods, packs) == Failure(NoSelectedModPacks) <==>
      forall i :: 0 <= i < |entries| ==> !entries[i].isChecked
  {
  }

  /** Building the plan fails with a not-found error exactly when some
      checked candidate other than the standalone one names no modpack,
      instead of producing an empty contribution for it. */
  lemma PlanFailsOnUnknownModPack(name: string, entries: seq<ItemEntry>, mods: seq<Mod>, packs: seq<ModPack>)
    ensures (Plan(name, entries, mods, packs).Failure? && Plan(name, entries, mods, packs).error.ModPackNotFound?) <==>
      exists i :: 0 <= i < |entries| && entries[i].isChecked && entries[i].modpackName != StandaloneLabel
                  && forall p :: p in packs ==> p.name != entries[i].modpackName
  {
    var selected := CheckedEntries(entries);
    GatherFailure(selected, mods, packs);
    if exists i :: 0 <= i < |entries| && entries[i].isChecked && entries[i].modpackName != StandaloneLabel
                   && forall p :: p in packs ==> p.name != entries[i].modpackName {
      var i :| 0 <= i < |entries| && entries[i].isChecked && entries[i].modpackName != StandaloneLabel
               && forall p :: p in packs ==> p.name != entries[i].modpackName;
      assert entries[i] in selected;
    }
    if Gather(selected, mods, packs).Failure? {
      var e :| e in selected && Contribution(e.modpackName, mods, packs).Failure?;
      var i :| 0 <= i < |entries| && entries[i] == e;
    }
  }

  /** A successful plan has as many records as its checked candidates pick mods. */
  lemma PlanLength(name: string, entries: seq<ItemEntry>, mods: seq<Mod>, packs: seq<ModPack>)
    requires Plan(name, entries, mods, packs).Success?
    ensures |Plan(name, entries, mods, packs).value.modsToBackup| == MatchCount(CheckedEntries(entries), mods)
  {
    GatherLength(CheckedEntries(entries), mods, packs);
  }

  /** A successful plan holds exactly the records of the mods that some
      checked candidate picks, each filed under that candidate's modpack
      and copying its mod's fields. */
  lemma PlanExact(name: string, entries: seq<ItemEntry>, mods: seq<Mod>, packs: seq<ModPack>, r: BackupModData)
    requires Plan(name, entries, mods, packs).Success?
    ensures r in Plan(name, entries, mods, packs).value.modsToBackup <==>
      exists e, m :: e in entries && e.isChecked && m in mods && Matches(SelectorOf(e.modpackName), m)
                     && SelectionPreview(e.modpackName, mods, packs).Success?
                     && r == Record(m, SelectionPreview(e.modpackName, mods, packs).value.modPack)
    ensures r in Plan(name, entries, mods, packs).value.modsToBackup ==>
      exists m :: m in mods && CopiedFrom(r, m)
  {
    var selected := CheckedEntries(entries);
    GatherMembers(selected, mods, packs, r);
    if r in Plan(name, entries, mods, packs).value.modsToBackup {
      var e :| e in selected && r in Contribution(e.modpackName, mods, packs).value;
      ContributionExact(e.modpackName, mods, packs, r);
    }
    if exists e, m :: e in entries && e.isChecked && m in mods && Matches(SelectorOf(e.modpackName), m)
                      && SelectionPreview(e.modpackName, mods, packs).Success?
                      && r == Record(m, SelectionPreview(e.modpackName, mods, packs).value.modPack) {
      var e, m :| e in entries && e.isChecked && m in mods && Matches(SelectorOf(e.modpackName), m)
                  && SelectionPreview(e.modpackName, mods, packs).Success?
                  && r == Record(m, SelectionPreview(e.modpackName, mods, packs).value.modPack);
      assert e in selected;
      ContributionExact(e.modpackName, mods, packs, r);
    }
  }

  /** With a single candidate checked, the plan is that candidate's preview
      turned into records: the preview and the plan use the same filter. */
  lemma PreviewMatchesPlan(name: string, e: ItemEntry, mods: seq<Mod>, packs: seq<ModPack>)
    ensures Plan(name, [e.(isChecked := true)], mods, packs) ==
      match SelectionPreview(e.modpackName, mods, packs)
      case Failure(err) => Failure(err)
      case Success(p) => Success(BackupModPackData(name, Records(p.mods, p.modPack)))
  {
    var c := e.(isChecked := true);
    assert [c][..0] == [];
    assert CheckedEntries([c]) == [c];
    var contribution := Contribution(c.modpackName, mods, packs);
    assert Gather([c], mods, packs) == Concat(Success([]), contribution);
    if contribution.Success? {
      assert [] + contribution.value == contribution.value;
    }
  }

  /** Clearing every check box makes the plan fail with the no-selection error. */
  lemma ClearedPlanFails(name: string, entries: seq<ItemEntry>, mods: seq<Mod>, packs: seq<ModPack>)
    ensures Plan(name, WithChecked(entries, false), mods, packs) == Failure(NoSelectedModPacks)
  {
  }

  /** The mods a backup of every candidate covers: those with a name and no
      modpack, and those of a listed modpack not named like the standalone
      label. */
  predicate CoveredBySelectAll(m: Mod, packs: seq<ModPack>)
  {
    || (m.itemName != "" && m.modPack.None?)
    || (m.modPack.Some? && m.modPack.value != StandaloneLabel
        && exists p :: p in packs && p.name == m.modPack.value)
  }

  /** With every candidate of a fresh list checked, every checked candidate
      resolves, so the plan succeeds. */
  lemma SelectAllResolves(name: string, mods: seq<Mod>, packs: seq<ModPack>)
    ensures Plan(name, WithChecked(Candidates(packs), true), mods, packs).Success?
  {
    var entries := WithChecked(Candidates(packs), true);
    var selected := CheckedEntries(entries);
    assert entries[0] in selected;
    forall e | e in selected ensures Contribution(e.modpackName, mods, packs).Success? {
      var i :| 0 <= i < |entries| && entries[i] == e;
      if i > 0 {
        assert packs[i - 1] in packs;
      }
    }
    GatherFailure(selected, mods, packs);
  }

  /** Every candidate of a fresh list names the standalone entry or a listed modpack. */
  predicate NamesResolve(entries: seq<ItemEntry>, packs: seq<ModPack>)
  {
    forall e :: e in entries ==>
      e.modpackName == StandaloneLabel || exists p :: p in packs && p.name == e.modpackName
  }

  /** A record of a plan whose candidates all name the standalone entry or a
      listed modpack is copied from a covered mod. */
  lemma RecordCovered(name: string, entries: seq<ItemEntry>, mods: seq<Mod>, packs: seq<ModPack>, r: BackupModData)
    requires NamesResolve(entries, packs)
    requires Plan(name, entries, mods, packs).Success?
    requires r in Plan(name, entries, mods, packs).value.modsToBackup
    ensures exists m :: m in mods && CoveredBySelectAll(m, packs) && CopiedFrom(r, m)
  {
    PlanExact(name, entries, mods, packs, r);
    var e, m :| e in entries && e.isChecked && m in mods && Matches(SelectorOf(e.modpackName), m)
                && SelectionPreview(e.modpackName, mods, packs).Success?
                && r == Record(m, SelectionPreview(e.modpackName, mods, packs).value.modPack);
    assert CopiedFrom(r, m);
  }

  /** A covered mod has a record in the plan of a list whose candidates are
      all checked and include the standalone entry and every listed modpack. */
  lemma ModBackedUp(name: string, entries: seq<ItemEntry>, mods: seq<Mod>, packs: seq<ModPack>, m: Mod)
    requires forall e :: e in entries ==> e.isChecked
    requires exists e :: e in entries && e.modpackName == StandaloneLabel
    requires forall p :: p in packs ==> exists e :: e in entries && e.modpackName == p.name
    requires Plan(name, entries, mods, packs).Success?
    requires m in mods && CoveredBySelectAll(m, packs)
    ensures exists r :: r in Plan(name, entries, mods, packs).value.modsToBackup && CopiedFrom(r, m)
  {
    if m.itemName != "" && m.modPack.None? {
      var e :| e in entries && e.modpackName == StandaloneLabel;
      PlanExact(name, entries, mods, packs, Record(m, None));
      assert CopiedFrom(Record(m, None), m);
    } else {
      var p :| p in packs && p.name == m.modPack.value;
      var e :| e in entries && e.modpackName == p.name;
      var pv := SelectionPreview(e.modpackName, mods, packs);
      PlanExact(name, entries, mods, packs, Record(m, pv.value.modPack));
      assert CopiedFrom(Record(m, pv.value.modPack), m);
    }
  }

  /** A fresh list with every row checked: all rows are checked, each names
      the standalone entry or a listed modpack, and both the standalone
      entry and every listed modpack have a row. */
  lemma FreshListChecked(packs: seq<ModPack>)
    ensures forall e :: e in WithChecked(Candidates(packs), true) ==> e.isChecked
    ensures NamesResolve(WithChecked(Candidates(packs), true), packs)
    ensures exists e :: e in WithChecked(Candidates(packs), true) && e.modpackName == StandaloneLabel
    ensures forall p :: p in packs ==>
      exists e :: e in WithChecked(Candidates(packs), true) && e.modpackName == p.name
  {
  }

  /** With every candidate of a fresh list checked, the plan resolves, holds
      a record for every covered mod, and every record is copied from a
      covered mod. */
  lemma SelectAllPlanCoversMods(name: string, mods: seq<Mod>, packs: seq<ModPack>)
    ensures Plan(name, WithChecked(Candidates(packs), true), mods, packs).Success?
    ensures forall m :: m in mods && CoveredBySelectAll(m, packs) ==>
      exists r :: r in Plan(name, WithChecked(Candidates(packs), true), mods, packs).value.modsToBackup
                  && CopiedFrom(r, m)
    ensures forall r :: r in Plan(name, WithChecked(Candidates(packs), true), mods, packs).value.modsToBackup ==>
      exists m :: m in mods && CoveredBySelectAll(m, packs) && CopiedFrom(r, m)
  {
    var entries := WithChecked(Candidates(packs), true);
    SelectAllResolves(name, mods, packs);
    FreshListChecked(packs);
    var rs := Plan(name, entries, mods, packs).value.modsToBackup;
    forall m | m in mods && CoveredBySelectAll(m, packs)
      ensures exists r :: r in rs && CopiedFrom(r, m)
    {
      ModBackedUp(name, entries, mods, packs, m);
    }
    forall r | r in rs
      ensures exists m :: m in mods && CoveredBySelectAll(m, packs) && CopiedFrom(r, m)
    {
      RecordCovered(name, entries, mods, packs, r);
    }
  }
}
