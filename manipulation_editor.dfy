/** The manipulation editor window of the modpack wizard: the option's list
    of manipulations, the (label, entry) list on display, the current
    selection, the entry whose editor was last shown, and the table that
    picks an editor for each kind of manipulation. */
module ManipulationEditor {
  import opened Wrappers

  /** The runtime type of a manipulation: the seven kinds that have an editor
      of their own, and any other type, by name. */
  datatype ManipulationKind =
    | Est | Eqp | Eqdp | Imc | Gmp | Rsp | GlobalEqp
    | OtherKind(typeName: string)

  datatype EditorKind =
    | EstEditor | EqpEditor | EqdpEditor | ImcEditor | GmpEditor | RspEditor | GlobalEqpEditor
    | UnknownEditor

  /** The registry of editors, keyed by the exact kind of manipulation. */
  const EditorTypes: map<ManipulationKind, EditorKind> := map[
    Est := EstEditor,
    Eqp := EqpEditor,
    Eqdp := EqdpEditor,
    Imc := ImcEditor,
    Gmp := GmpEditor,
    Rsp := RspEditor,
    GlobalEqp := GlobalEqpEditor]

  /** The editor shown for a manipulation of kind `kind`: the registered one,
      or the unknown-manipulation editor for a kind that is not registered. */
  function EditorFor(kind: ManipulationKind): (e: EditorKind)
    ensures e == UnknownEditor <==> kind.OtherKind?
  {
    if kind in EditorTypes then EditorTypes[kind] else UnknownEditor
  }

  /** Distinct registered kinds get distinct editors. */
  lemma EditorForInjective(a: ManipulationKind, b: ManipulationKind)
    requires EditorFor(a) == EditorFor(b) && EditorFor(a) != UnknownEditor
    ensures a == b
  {
  }

  /** One manipulation attached to an option. Its editable values are
      `fields`; `niceName` is how its kind derives a display label from them. */
  class ManipulationWrapper {
    const kind: ManipulationKind
    const niceName: seq<int> -> string
    var fields: seq<int>

    constructor (kind: ManipulationKind, niceName: seq<int> -> string, fields: seq<int>)
      ensures this.kind == kind && this.niceName == niceName && this.fields == fields
    {
      this.kind := kind;
      this.niceName := niceName;
      this.fields := fields;
    }

    /** The display label for the current field values. */
    function GetNiceName(): string
      reads this
    {
      niceName(fields)
    }

    /** What an editor control does when the user changes a value. */
    method SetFields(values: seq<int>)
      modifies this
      ensures fields == values
    {
      fields := values;
    }
  }

  /** The wizard option the window edits; its list may be missing. */
  class OptionData {
    var manipulations: Option<seq<ManipulationWrapper>>

    constructor (manipulations: Option<seq<ManipulationWrapper>>)
      ensures this.manipulations == manipulations
    {
      this.manipulations := manipulations;
    }
  }

  /** One row of the displayed list. */
  datatype ManipulationKv = ManipulationKv(key: string, value: ManipulationWrapper)

  /** The displayed list for `ws`, labels computed now: row i shows entry i
      under its current label. */
  function Project(ws: seq<ManipulationWrapper>): (r: seq<ManipulationKv>)
    reads ws
    ensures |r| == |ws|
    ensures forall i :: 0 <= i < |ws| ==> r[i].value == ws[i] && r[i].key == ws[i].GetNiceName()
  {
    if ws == [] then []
    else Project(ws[..|ws| - 1]) + [ManipulationKv(ws[|ws| - 1].GetNiceName(), ws[|ws| - 1])]
  }

  /** The first entry of `ws`, or null when it is empty. */
  function FirstOrNull(ws: seq<ManipulationWrapper>): (r: ManipulationWrapper?)
    ensures r == null <==> ws == []
    ensures r != null ==> r == ws[0]
  {
    if ws == [] then null else ws[0]
  }

  /** The index of the first occurrence of `x` in `ws`, if any. */
  function IndexOf(ws: seq<ManipulationWrapper>, x: ManipulationWrapper?): (r: Option<nat>)
    ensures r.None? <==> forall i :: 0 <= i < |ws| ==> ws[i] != x
    ensures r.Some? ==> r.value < |ws| && ws[r.value] == x
                        && forall j :: 0 <= j < r.value ==> ws[j] != x
  {
    if ws == [] then None
    else if ws[0] == x then Some(0)
    else
      match IndexOf(ws[1..], x)
      case None => None
      case Some(i) => Some(i + 1)
  }

  /** `ws` without the first occurrence of `x`; unchanged when `x` is absent. */
  function RemoveFirst(ws: seq<ManipulationWrapper>, x: ManipulationWrapper?): (r: seq<ManipulationWrapper>)
    ensures IndexOf(ws, x).None? ==> r == ws
    ensures IndexOf(ws, x).Some? ==>
      |r| == |ws| - 1 && r == ws[..IndexOf(ws, x).value] + ws[IndexOf(ws, x).value + 1..]
  {
    match IndexOf(ws, x)
    case None => ws
    case Some(i) => ws[..i] + ws[i + 1..]
  }

  /** The index of the first row showing `w`, if any. */
  function RowOf(rows: seq<ManipulationKv>, w: ManipulationWrapper): (r: Option<nat>)
    ensures r.None? <==> forall i :: 0 <= i < |rows| ==> rows[i].value != w
    ensures r.Some? ==> r.value < |rows| && rows[r.value].value == w
                        && forall j :: 0 <= j < r.value ==> rows[j].value != w
  {
    if rows == [] then None
    else if rows[0].value == w then Some(0)
    else
      match RowOf(rows[1..], w)
      case None => None
      case Some(i) => Some(i + 1)
  }

  /** The rows after the label of `w`'s first row is recomputed. */
  function Refreshed(rows: seq<ManipulationKv>, w: ManipulationWrapper): (r: seq<ManipulationKv>)
    reads w
    ensures |r| == |rows|
    ensures forall i :: 0 <= i < |rows| ==> r[i].value == rows[i].value
    ensures RowOf(rows, w).None? ==> r == rows
    ensures RowOf(rows, w).Some? ==>
      r[RowOf(rows, w).value].key == w.GetNiceName()
      && forall i :: 0 <= i < |rows| && i != RowOf(rows, w).value ==> r[i] == rows[i]
  {
    match RowOf(rows, w)
    case None => rows
    case Some(i) => rows[i := ManipulationKv(w.GetNiceName(), w)]
  }

  /** Every row shows its entry's current label. */
  predicate InSync(rows: seq<ManipulationKv>)
    reads set i | 0 <= i < |rows| :: rows[i].value
  {
    forall i :: 0 <= i < |rows| ==> rows[i].key == rows[i].value.GetNiceName()
  }

  /** A freshly projected list is in sync. */
  lemma ProjectInSync(ws: seq<ManipulationWrapper>)
    ensures InSync(Project(ws))
  {
  }

  /** Flush on switch: when only `w`'s label may be stale and `w` has a single
      row, refreshing `w` puts the whole list back in sync. */
  lemma RefreshRestoresSync(rows: seq<ManipulationKv>, w: ManipulationWrapper)
    requires forall i :: 0 <= i < |rows| && rows[i].value != w ==> rows[i].key == rows[i].value.GetNiceName()
    requires forall i, j :: 0 <= i < j < |rows| && rows[i].value == w ==> rows[j].value != w
    ensures InSync(Refreshed(rows, w))
  {
  }

  /** Refreshing twice is refreshing once. */
  lemma RefreshIdempotent(rows: seq<ManipulationKv>, w: ManipulationWrapper)
    ensures Refreshed(Refreshed(rows, w), w) == Refreshed(rows, w)
  {
  }

  /** Removing a present entry shrinks the list by one; removing null or an
      absent entry changes nothing. */
  lemma RemoveFirstLength(ws: seq<ManipulationWrapper>, x: ManipulationWrapper?)
    ensures x in ws ==> |RemoveFirst(ws, x)| == |ws| - 1
    ensures x !in ws ==> RemoveFirst(ws, x) == ws
  {
  }

  class ManipulationEditorWindow {
    /** The option being edited. */
    const data: OptionData
    /** The displayed (label, entry) rows. */
    var manipulations: seq<ManipulationKv>
    /** The selected entry, or null. */
    var selectedManipulation: ManipulationWrapper?
    /** The entry whose editor was shown last, or null. */
    var lastManipulation: ManipulationWrapper?
    /** The kind of editor control on display, if any. */
    var editor: Option<EditorKind>

    /** The option holds a list. */
    predicate Valid()
      reads data
    {
      data.manipulations.Some?
    }

    /** The option's list of manipulations. */
    function List(): seq<ManipulationWrapper>
      reads data
      requires Valid()
    {
      data.manipulations.value
    }

    /** Gives a missing list an empty one, then builds the displayed list. */
    constructor (data: OptionData)
      modifies data
      ensures this.data == data && Valid()
      ensures data.manipulations == if old(data.manipulations).None? then Some([]) else old(data.manipulations)
      ensures manipulations == Project(List()) && selectedManipulation == FirstOrNull(List())
      ensures lastManipulation == null && editor == None
    {
      this.data := data;
      manipulations := [];
      selectedManipulation := null;
      lastManipulation := null;
      editor := None;
      new;
      if data.manipulations.None? {
        data.manipulations := Some([]);
      }
      RebuildList();
    }

    /** Rebuilds the displayed rows from the option's list, labels computed
        afresh, and selects the first entry (null when there is none). */
    method RebuildList()
      requires Valid()
      modifies this`manipulations, this`selectedManipulation
      ensures manipulations == Project(List())
      ensures selectedManipulation == FirstOrNull(List())
    {
      var ws := data.manipulations.value;
      manipulations := [];
      var i := 0;
      while i < |ws|
        invariant 0 <= i <= |ws|
        invariant manipulations == Project(ws[..i])
      {
        assert ws[..i + 1][..i] == ws[..i];
        manipulations := manipulations + [ManipulationKv(ws[i].GetNiceName(), ws[i])];
        i := i + 1;
      }
      assert ws[..|ws|] == ws;
      selectedManipulation := FirstOrNull(ws);
    }

    /** The selection the list box binds to. */
    method SetSelectedManipulation(w: ManipulationWrapper?)
      modifies this`selectedManipulation
      ensures selectedManipulation == w
    {
      selectedManipulation := w;
    }

    /** Removes the first occurrence of the selected entry, then rebuilds. */
    method RemoveManipulation()
      requires Valid()
      modifies data, this`manipulations, this`selectedManipulation
      ensures Valid()
      ensures List() == RemoveFirst(old(List()), old(selectedManipulation))
      ensures manipulations == Project(List()) && selectedManipulation == FirstOrNull(List())
    {
      data.manipulations := Some(RemoveFirst(data.manipulations.value, selectedManipulation));
      RebuildList();
    }

    /** Empties the list when the user confirms; otherwise does nothing. */
    method ClearManipulations(confirmed: bool)
      requires Valid()
      modifies data, this`manipulations, this`selectedManipulation
      ensures Valid()
      ensures !confirmed ==> unchanged(this, data)
      ensures confirmed ==> List() == [] && manipulations == [] && selectedManipulation == null
    {
      if !confirmed {
        return;
      }
      data.manipulations := Some([]);
      RebuildList();
    }

    /** Recomputes the label of `w`'s first row; nothing when no row shows `w`. */
    method UpdateName(w: ManipulationWrapper)
      modifies this`manipulations
      ensures manipulations == Refreshed(old(manipulations), w)
    {
      var k := RowOf(manipulations, w);
      if k.None? {
        return;
      }
      manipulations := manipulations[k.value := ManipulationKv(w.GetNiceName(), w)];
    }

    /** The selection changed: refresh the label of the entry shown last,
        then show the editor registered for the new selection's kind. */
    method ManipulationChanged()
      modifies this`manipulations, this`editor, this`lastManipulation
      ensures manipulations ==
        if old(lastManipulation) == null then old(manipulations)
        else Refreshed(old(manipulations), old(lastManipulation))
      ensures selectedManipulation == null ==> editor == None && lastManipulation == old(lastManipulation)
      ensures selectedManipulation != null ==>
        editor == Some(EditorFor(selectedManipulation.kind)) && lastManipulation == selectedManipulation
    {
      if lastManipulation != null {
        UpdateName(lastManipulation);
      }
      editor := None;
      if selectedManipulation == null {
        return;
      }
      editor := Some(EditorFor(selectedManipulation.kind));
      lastManipulation := selectedManipulation;
    }
  }

  /** A client: rebuilding twice in a row gives the same rows and selection. */
  method RebuildListTwice(window: ManipulationEditorWindow)
    returns (rows: seq<ManipulationKv>, selection: ManipulationWrapper?)
    requires window.Valid()
    modifies window
    ensures window.manipulations == rows && window.selectedManipulation == selection
    ensures rows == Project(window.List()) && selection == FirstOrNull(window.List())
  {
    window.RebuildList();
    rows, selection := window.manipulations, window.selectedManipulation;
    window.RebuildList();
  }

  /** A client of flush on switch: the user selects `a`, edits it through its
      editor, then selects `b`. The switch refreshes `a`'s stale label, so the
      displayed list is back in sync and `a`'s row shows its new label. */
  method EditThenSwitch(window: ManipulationEditorWindow, a: ManipulationWrapper, b: ManipulationWrapper, values: seq<int>)
    requires InSync(window.manipulations)
    requires forall i, j :: 0 <= i < j < |window.manipulations| ==>
      window.manipulations[i].value != window.manipulations[j].value
    modifies window, a
    ensures |window.manipulations| == |old(window.manipulations)|
    ensures forall i :: 0 <= i < |window.manipulations| ==>
      window.manipulations[i].value == old(window.manipulations)[i].value
    ensures InSync(window.manipulations)
    ensures forall i :: 0 <= i < |window.manipulations| && window.manipulations[i].value == a ==>
      window.manipulations[i].key == a.niceName(values)
    ensures a.fields == values
    ensures window.lastManipulation == b && window.editor == Some(EditorFor(b.kind))
  {
    ghost var last := window.lastManipulation;
    window.SetSelectedManipulation(a);
    window.ManipulationChanged();
    if last != null {
      RefreshRestoresSync(old(window.manipulations), last);
    }
    a.SetFields(values);
    ghost var edited := window.manipulations;
    window.SetSelectedManipulation(b);
    window.ManipulationChanged();
    RefreshRestoresSync(edited, a);
  }
}
