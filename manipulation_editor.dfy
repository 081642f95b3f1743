/**
 * The window that lists an option's extra metadata manipulations, lets the
 * user remove them and shows an editor for the selected one
 * (ManipulationEditorWindow.xaml.cs).
 */
module ManipulationEditor {
  import opened Wrappers
  import opened Lists

  /** The manipulation types the window tells apart; every other type is `OtherKind`. */
  datatype ManipulationKind = GlobalEqp | OtherKind(typeName: string)

  /**
   * One manipulation object. The list compares manipulations by reference,
   * so each carries the identity of the object it stands for.
   */
  datatype Manipulation = Manipulation(identity: nat, kind: ManipulationKind)

  /** The editor controls the window can show. */
  datatype EditorKind = GlobalEqpEditor | UnknownManipulationEditor

  /** An editor control created for one manipulation. */
  datatype Editor = Editor(kind: EditorKind, manipulation: Manipulation)

  /** The window's table from manipulation type to editor type. */
  const EditorTypes: map<ManipulationKind, EditorKind> := map[GlobalEqp := GlobalEqpEditor]

  /** The editor the window shows for a selection: none without one, else the table's editor or the unknown-type editor. */
  function EditorFor(selected: Option<Manipulation>): (r: Option<Editor>)
    ensures r.None? <==> selected.None?
    ensures r.Some? ==> r.value.manipulation == selected.value
    ensures r.Some? ==> (r.value.kind == GlobalEqpEditor <==> selected.value.kind == GlobalEqp)
    ensures r.Some? ==> (r.value.kind == UnknownManipulationEditor <==> selected.value.kind.OtherKind?)
  {
    match selected
    case None => None
    case Some(m) =>
      var t := if m.kind in EditorTypes then EditorTypes[m.kind] else UnknownManipulationEditor;
      Some(Editor(t, m))
  }

  /** The rows the list shows: each manipulation under its display name, in order. */
  function Listing(ms: seq<Manipulation>, niceName: Manipulation -> string): (r: seq<(string, Manipulation)>)
    ensures |r| == |ms|
    ensures forall i :: 0 <= i < |r| ==> r[i].1 == ms[i] && r[i].0 == niceName(ms[i])
  {
    if ms == [] then [] else Listing(ms[..|ms| - 1], niceName) + [(niceName(ms[|ms| - 1]), ms[|ms| - 1])]
  }

  /** `FirstOrDefault()`: the first manipulation, or none for an empty list. */
  function FirstOrNone(ms: seq<Manipulation>): (r: Option<Manipulation>)
    ensures r.None? <==> ms == []
    ensures r.Some? ==> r.value == ms[0]
  {
    if ms == [] then None else Some(ms[0])
  }

  /**
   * After the selected manipulation is removed, the next selection is the
   * first one left: the old first one unless it was the one removed, then
   * its successor.
   */
  lemma SelectionAfterRemove(ms: seq<Manipulation>, m: Manipulation)
    ensures m in ms && ms[0] == m ==> FirstOrNone(RemoveFirst(ms, m)) == FirstOrNone(ms[1..])
    ensures ms != [] && ms[0] != m ==> FirstOrNone(RemoveFirst(ms, m)) == Some(ms[0])
    ensures m !in ms ==> FirstOrNone(RemoveFirst(ms, m)) == FirstOrNone(ms)
  {
  }

  /** The option whose manipulations the window edits; a missing list is `None`. */
  class OptionData {
    var otherManipulations: Option<seq<Manipulation>>

    constructor(ms: Option<seq<Manipulation>>)
      ensures otherManipulations == ms
    {
      otherManipulations := ms;
    }
  }

  class ManipulationEditorWindow {
    var data: OptionData
    var manipulations: seq<(string, Manipulation)>
    var selected: Option<Manipulation>
    var editor: Option<Editor>

    /** The option's list, once the constructor has replaced a missing one. */
    predicate Valid()
      reads this, data
    {
      data.otherManipulations.Some?
    }

    /** Opens the window on an option: a missing list becomes an empty one, then the list is shown. */
    constructor(d: OptionData, niceName: Manipulation -> string)
      modifies d
      ensures data == d && Valid()
      ensures old(d.otherManipulations).Some? ==> d.otherManipulations == old(d.otherManipulations)
      ensures old(d.otherManipulations).None? ==> d.otherManipulations == Some([])
      ensures manipulations == Listing(d.otherManipulations.value, niceName)
      ensures selected == FirstOrNone(d.otherManipulations.value)
      ensures editor == None
    {
      data := d;
      manipulations := [];
      selected := None;
      editor := None;
      new;
      if d.otherManipulations.None? {
        d.otherManipulations := Some([]);
      }
      RebuildList(niceName);
    }

    /** Shows every manipulation of the option, in order, and selects the first one (or none). */
    method RebuildList(niceName: Manipulation -> string)
      requires Valid()
      modifies this`manipulations, this`selected
      ensures manipulations == Listing(data.otherManipulations.value, niceName)
      ensures selected == FirstOrNone(data.otherManipulations.value)
    {
      var ms := data.otherManipulations.value;
      manipulations := [];
      for k := 0 to |ms|
        invariant manipulations == Listing(ms[..k], niceName)
      {
        assert ms[..k + 1][..k] == ms[..k];
        manipulations := manipulations + [(niceName(ms[k]), ms[k])];
      }
      assert ms[..|ms|] == ms;
      selected := FirstOrNone(ms);
    }

    /**
     * The remove button: drops the first occurrence of the selected
     * manipulation from the option's list (nothing without a selection),
     * then shows the list again.
     */
    method RemoveSelected(niceName: Manipulation -> string)
      requires Valid()
      modifies this`manipulations, this`selected, data
      ensures Valid()
      ensures old(selected).None? ==> data.otherManipulations == old(data.otherManipulations)
      ensures old(selected).Some? ==>
                data.otherManipulations == Some(RemoveFirst(old(data.otherManipulations.value), old(selected).value))
      ensures Distinct(old(data.otherManipulations.value)) ==>
                && Distinct(data.otherManipulations.value)
                && forall y :: y in data.otherManipulations.value <==>
                                 y in old(data.otherManipulations.value) && Some(y) != old(selected)
      ensures manipulations == Listing(data.otherManipulations.value, niceName)
      ensures selected == FirstOrNone(data.otherManipulations.value)
    {
      var ms := data.otherManipulations.value;
      if selected.Some? {
        if Distinct(ms) {
          RemoveFirstDistinct(ms, selected.value);
        }
        data.otherManipulations := Some(RemoveFirst(ms, selected.value));
      }
      RebuildList(niceName);
    }

    /** A new selection: clears the editor box, then shows the selected manipulation's editor, if any. */
    method ManipulationChanged()
      modifies this`editor
      ensures editor == EditorFor(selected)
    {
      editor := None;
      if selected.None? {
        return;
      }
      var t: EditorKind;
      if selected.value.kind !in EditorTypes {
        t := UnknownManipulationEditor;
      } else {
        t := EditorTypes[selected.value.kind];
      }
      editor := Some(Editor(t, selected.value));
    }
  }

}
