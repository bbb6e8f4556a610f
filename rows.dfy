/**
 * The rows of the advanced-preferences tree and the refresh of a row after
 * its pref changed (`updateItem`).  A row holds what the dialog reads back
 * from the tree item: its parent, the pref it stands for (an index into the
 * registry, absent for a grouping row), the column-0 text and tooltip, the
 * status column, the bold flags of the four columns, the value column and
 * the editor widget placed in the value column.
 */
module Rows {
  import opened Wrappers
  import opened Prefs

  /** The three states of the range editor's syntax check. */
  datatype SyntaxState = Empty | Valid | Invalid

  /** The widget shown in the value column while a pref is being edited. */
  datatype Editor =
    | NoEditor
    | LineEditor(text: string)
    | ComboEditor(items: seq<string>, data: seq<int>, index: int)
    | SyntaxEditor(text: string, state: SyntaxState)

  datatype Row = Row(
    parent: int,              // index of the parent row, -1 for a top-level row
    pref: Option<nat>,        // the pref this row edits, None for a grouping row
    name: string,             // column 0 text
    tip: string,              // column 0 tooltip
    status: string,           // column 1 text
    statusTip: string,        // column 1 tooltip
    bold: seq<bool>,          // bold flag of each of the four columns
    valueText: string,        // column 3 text
    editor: Editor)           // item widget in column 3

  /** How a pref's current value relates to its default. */
  datatype Status = Unknown | Default | Changed

  const UnknownText := "Unknown"
  const DefaultText := "Default"
  const ChangedText := "Changed"
  const StatusTooltip := "Has this value been changed?"

  /**
   * UAT prefs have no comparable value; every other pref is either at its
   * default or changed, as the registry's `isDefault` answers.
   */
  function StatusOf(p: Pref, isDefault: Pref -> bool): (s: Status)
    ensures s == Unknown <==> p.value.UatValue?
    ensures s == Default <==> !p.value.UatValue? && isDefault(p)
    ensures s == Changed <==> !p.value.UatValue? && !isDefault(p)
  {
    if p.value.UatValue? then Unknown else if isDefault(p) then Default else Changed
  }

  function StatusText(s: Status): string {
    match s
    case Unknown => UnknownText
    case Default => DefaultText
    case Changed => ChangedText
  }

  predicate RefersWithin(r: Row, prefCount: nat) {
    r.pref.Some? ==> r.pref.value < prefCount
  }

  /**
   * The row after `updateItem`: a grouping row is left alone; a pref row gets
   * its status text, all four columns bold exactly when the pref is changed,
   * the status tooltip and the pref's current value as text.
   */
  function UpdatedRow(r: Row, prefs: seq<Pref>, isDefault: Pref -> bool, display: (Pref, bool) -> string): (u: Row)
    requires RefersWithin(r, |prefs|)
    ensures r.pref.None? ==> u == r
    ensures r.pref.Some? ==>
      var p := prefs[r.pref.value];
      && (u.status == UnknownText <==> p.value.UatValue?)
      && (u.status == DefaultText <==> !p.value.UatValue? && isDefault(p))
      && (u.status == ChangedText <==> !p.value.UatValue? && !isDefault(p))
      && |u.bold| == 4
      && (forall c :: 0 <= c < 4 ==> u.bold[c] == (u.status == ChangedText))
      && u.statusTip == StatusTooltip
      && u.valueText == display(p, false)
      && u.(status := r.status, statusTip := r.statusTip, bold := r.bold, valueText := r.valueText) == r
  {
    if r.pref.None? then r
    else
      var p := prefs[r.pref.value];
      var s := StatusOf(p, isDefault);
      var changed := s == Changed;
      r.(status := StatusText(s), statusTip := StatusTooltip,
         bold := [changed, changed, changed, changed], valueText := display(p, false))
  }

  /** A row refreshed right after its pref was reset is never shown as changed, nor bold. */
  lemma ResetRowIsNotChanged(r: Row, prefs: seq<Pref>, before: Pref, isDefault: Pref -> bool, display: (Pref, bool) -> string)
    requires ResetMakesDefault(isDefault)
    requires r.pref.Some? && r.pref.value < |prefs|
    requires prefs[r.pref.value] == Reset(before)
    ensures UpdatedRow(r, prefs, isDefault, display).status != ChangedText
    ensures forall c :: 0 <= c < 4 ==> !UpdatedRow(r, prefs, isDefault, display).bold[c]
  {
    assert isDefault(Reset(before));
  }
}
