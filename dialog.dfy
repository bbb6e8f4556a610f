/**
 * The preferences dialog's advanced page: the registry's prefs, the rows of
 * the advanced tree with their hidden flags, and the current row.  Each
 * method is one slot of the dialog and writes the pref values and the rows
 * in place.  The registry's is-default question, its value-to-text
 * conversion and its range converter are fixed functions the dialog is given.
 */
module Dialog {
  import opened Wrappers
  import opened Prefs
  import opened Rows
  import opened Editing
  import Visibility
  import Text

  /** The modal prompt an activation opens, with what it starts from. */
  datatype Prompt = NoPrompt | FilePrompt(title: string, initialPath: string) | ColorPrompt(initialColor: DialogColor)

  const FilePromptPrefix := "Wireshark: "

  /** The prompt that activating pref `p` in `column` opens. */
  function PromptFor(p: Pref, column: int): Prompt {
    if column < 3 then NoPrompt
    else match p.value
      case FilenameValue(path) => FilePrompt(FilePromptPrefix + p.description, path)
      case ColorValue(c) => ColorPrompt(ColorForPrompt(c))
      case _ => NoPrompt
  }

  /** Activation stores a value and refreshes the row. */
  predicate Refreshes(p: Pref, column: int, fileChoice: string, colorChoice: Option<DialogColor>) {
    column < 3 || p.value.BoolValue? ||
    (p.value.FilenameValue? && fileChoice != []) ||
    (p.value.ColorValue? && colorChoice.Some?)
  }

  /** Activation places an editor in the value column instead. */
  predicate OpensEditor(p: Pref, column: int) {
    column >= 3 && (p.value.UintValue? || p.value.EnumValue? || p.value.StringValue? || p.value.RangeValue?)
  }

  /** `e` is the editor activation opens for `p`. */
  ghost predicate EditorFor(p: Pref, e: Editor, display: (Pref, bool) -> string, convert: (string, nat) -> ConvertResult) {
    match p.value
    case UintValue(u) => e == LineEditor(UintEditorText(u))
    case StringValue(s) => e == LineEditor(s)
    case EnumValue(cur) => e.ComboEditor? && IsEnumChoiceList(p.enumVals, cur, e.items, e.data, e.index)
    case RangeValue(_) =>
      var text := display(p, false);
      e == SyntaxEditor(text, RangeSyntaxState(text, p.maxValue, convert))
    case _ => false
  }

  /** Row `i` has a child row. */
  predicate HasChild(rows: seq<Row>, i: int) {
    exists c :: 0 <= c < |rows| && rows[c].parent == i
  }

  /**
   * The hidden flag of row `k` once the search's second pass has handled the
   * rows before `i`: pref rows not reached yet keep the flag of the first
   * pass; the others are hidden unless they pass (a pref row passing the
   * search, a grouping row the search being empty) or a shown row handled so
   * far lies below them.
   */
  ghost function HiddenAfter(rows: seq<Row>, search: string, afterGroups: seq<bool>, i: int, k: int): bool
    requires 0 <= i <= |rows| && 0 <= k < |rows| && |afterGroups| == |rows|
  {
    if rows[k].pref.Some? && k >= i then afterGroups[k]
    else
      var passes := if rows[k].pref.Some? then Visibility.Shown(rows, search, k) else search == [];
      !(passes || Visibility.ShownBelow(rows, search, k, i))
  }

  /**
   * Handling row `i` in the second pass: a pref row takes its own search
   * result, a shown row clears the flag of every row above it, and no other
   * flag changes.
   */
  lemma HiddenAfterStep(rows: seq<Row>, search: string, afterGroups: seq<bool>, i: int, k: int)
    requires 0 <= i < |rows| && 0 <= k < |rows| && |afterGroups| == |rows|
    ensures !Visibility.Ancestor(rows, i, i)
    ensures k == i && rows[i].pref.Some? ==>
      HiddenAfter(rows, search, afterGroups, i + 1, k) == !Visibility.Matches(rows[i], search)
    ensures k == i && rows[i].pref.None? ==>
      HiddenAfter(rows, search, afterGroups, i + 1, k) == HiddenAfter(rows, search, afterGroups, i, k)
    ensures k != i ==>
      HiddenAfter(rows, search, afterGroups, i + 1, k) ==
      if Visibility.Shown(rows, search, i) && Visibility.Ancestor(rows, k, i) then false
      else HiddenAfter(rows, search, afterGroups, i, k)
  {
    Visibility.ShownBelowStep(rows, search, k, i);
    if Visibility.Ancestor(rows, i, i) {
      Visibility.AncestorIsEarlier(rows, i, i);
    }
    if k == i {
      Visibility.ShownBelowNone(rows, search, i, i + 1);
    } else if Visibility.Ancestor(rows, k, i) {
      Visibility.AncestorIsEarlier(rows, k, i);
    }
  }

  /** Every choice list shown in a row offers only values of its pref's enumeration table. */
  ghost predicate CombosFromTables(prefs: seq<Pref>, rows: seq<Row>) {
    forall i :: 0 <= i < |rows| && rows[i].pref.Some? && rows[i].pref.value < |prefs| && rows[i].editor.ComboEditor? ==>
      ValuesFromTable(prefs[rows[i].pref.value].enumVals, rows[i].editor.data)
  }

  class PreferencesDialog {
    var prefs: seq<Pref>
    var rows: seq<Row>
    const hidden: array<bool>
    var current: int
    const isDefault: Pref -> bool
    const display: (Pref, bool) -> string
    const convert: (string, nat) -> ConvertResult

    ghost predicate Valid()
      reads this
    {
      && hidden.Length == |rows|
      && Visibility.WellFormed(rows)
      && (forall i :: 0 <= i < |rows| ==> RefersWithin(rows[i], |prefs|))
      && (forall k :: 0 <= k < |prefs| ==> WellTyped(prefs[k]))
      && -1 <= current < |rows|
      && CombosFromTables(prefs, rows)
    }

    /** The pref of the current row, if there is a current row and it carries one. */
    function CurrentPref(): Option<nat>
      reads this
      requires Valid()
    {
      if current < 0 then None else rows[current].pref
    }

    /**
     * Builds the page from the rows the walk produced (in iteration order)
     * and refreshes every row without children, as the dialog does once its
     * tree is filled.  No row is hidden and none is current.
     */
    constructor (prefs: seq<Pref>, rows: seq<Row>, isDefault: Pref -> bool, display: (Pref, bool) -> string, convert: (string, nat) -> ConvertResult)
      requires Visibility.WellFormed(rows)
      requires forall i :: 0 <= i < |rows| ==> RefersWithin(rows[i], |prefs|)
      requires forall k :: 0 <= k < |prefs| ==> WellTyped(prefs[k])
      requires CombosFromTables(prefs, rows)
      ensures Valid() && fresh(hidden)
      ensures this.prefs == prefs && current == -1 && |this.rows| == |rows|
      ensures forall i :: 0 <= i < |rows| ==>
        this.rows[i] == if HasChild(rows, i) then rows[i] else UpdatedRow(rows[i], prefs, isDefault, display)
      ensures forall i :: 0 <= i < hidden.Length ==> !hidden[i]
      ensures this.isDefault == isDefault && this.display == display && this.convert == convert
    {
      var updated := rows;
      var i := 0;
      while i < |rows|
        invariant 0 <= i <= |rows| && |updated| == |rows|
        invariant forall j :: 0 <= j < |rows| ==>
          updated[j] == if j < i && !HasChild(rows, j) then UpdatedRow(rows[j], prefs, isDefault, display) else rows[j]
      {
        if !HasChild(rows, i) {
          updated := updated[i := UpdatedRow(rows[i], prefs, isDefault, display)];
        }
        i := i + 1;
      }
      this.prefs := prefs;
      this.rows := updated;
      this.isDefault := isDefault;
      this.display := display;
      this.convert := convert;
      current := -1;
      hidden := new bool[|rows|](_ => false);
    }

    /** `updateItem` on row `i`. */
    method UpdateItem(i: int)
      requires Valid() && 0 <= i < |rows|
      modifies this
      ensures Valid()
      ensures prefs == old(prefs) && current == old(current)
      ensures rows == old(rows)[i := UpdatedRow(old(rows[i]), prefs, isDefault, display)]
    {
      rows := rows[i := UpdatedRow(rows[i], prefs, isDefault, display)];
    }

    /**
     * The search box changed to `search`: first every grouping row is hidden
     * when the search is non-empty and shown otherwise; then every pref row
     * is shown exactly when it passes the search, and a shown pref row shows
     * every row above it.
     */
    method SearchTextEdited(search: string)
      requires Valid()
      modifies hidden
      ensures forall i :: 0 <= i < |rows| ==> hidden[i] == !Visibility.Visible(rows, search, i)
    {
      var n := hidden.Length;
      var i := 0;
      while i < n
        invariant 0 <= i <= n
        invariant forall k :: 0 <= k < i && rows[k].pref.None? ==> hidden[k] == (search != [])
        invariant forall k :: 0 <= k < n && (k >= i || rows[k].pref.Some?) ==> hidden[k] == old(hidden[k])
      {
        if rows[i].pref.None? {
          hidden[i] := search != [];
        }
        i := i + 1;
      }

      ghost var afterGroups := hidden[..];
      i := 0;
      while i < n
        invariant 0 <= i <= n
        invariant forall k :: 0 <= k < n ==> hidden[k] == HiddenAfter(rows, search, afterGroups, i, k)
      {
        if rows[i].pref.Some? {
          var isHidden := !Visibility.Matches(rows[i], search);
          hidden[i] := isHidden;
          if !isHidden {
            ShowAncestors(i);
          }
        }
        forall k | 0 <= k < n
          ensures hidden[k] == HiddenAfter(rows, search, afterGroups, i + 1, k)
        {
          HiddenAfterStep(rows, search, afterGroups, i, k);
        }
        i := i + 1;
      }
    }

    /** Shows every row on the parent chain of row `i` and changes no other flag. */
    method ShowAncestors(i: int)
      requires Valid() && 0 <= i < |rows|
      modifies hidden
      ensures forall k :: 0 <= k < hidden.Length ==>
        hidden[k] == if Visibility.Ancestor(rows, k, i) then false else old(hidden[k])
    {
      var parent := rows[i].parent;
      while parent >= 0
        invariant -1 <= parent < i
        invariant parent >= 0 ==> Visibility.Ancestor(rows, parent, i)
        invariant forall k :: 0 <= k < hidden.Length ==>
          hidden[k] == if Visibility.Ancestor(rows, k, i) && !(k == parent || Visibility.Ancestor(rows, k, parent))
                       then false else old(hidden[k])
        decreases parent
      {
        hidden[parent] := false;
        var next := rows[parent].parent;
        if next >= 0 {
          assert Visibility.Ancestor(rows, next, parent);
          Visibility.AncestorTransitive(rows, next, parent, i);
          if Visibility.Ancestor(rows, parent, next) {
            Visibility.AncestorIsEarlier(rows, parent, next);
          }
        }
        forall k | 0 <= k < hidden.Length
          ensures Visibility.Ancestor(rows, k, parent) <==>
                  next >= 0 && (k == next || Visibility.Ancestor(rows, k, next))
        {
        }
        parent := next;
      }
    }

    /**
     * Row `i` activated in `column`.  The file and colour prompts are the
     * user's answers: `fileChoice` the name the file prompt returns (empty
     * when cancelled), `colorChoice` the colour the colour prompt returns
     * (None when cancelled).  Returns the prompt that was opened.
     */
    method ActivateItem(i: int, column: int, fileChoice: string, colorChoice: Option<DialogColor>)
      returns (prompt: Prompt)
      requires Valid() && 0 <= i < |rows|
      modifies this
      ensures Valid()
      ensures current == old(current) && |rows| == |old(rows)|
      ensures forall j :: 0 <= j < |rows| && j != i ==> rows[j] == old(rows[j])
      ensures old(rows[i]).pref.None? ==> prefs == old(prefs) && rows == old(rows) && prompt == NoPrompt
      ensures old(rows[i]).pref.Some? ==>
        var k := old(rows[i]).pref.value;
        var p := old(prefs)[k];
        && prefs == old(prefs)[k := p.(value := Activated(p, column, fileChoice, colorChoice))]
        && prompt == PromptFor(p, column)
        && (Refreshes(p, column, fileChoice, colorChoice) ==> rows[i] == UpdatedRow(old(rows[i]), prefs, isDefault, display))
        && (OpensEditor(p, column) ==>
              rows[i] == old(rows[i]).(valueText := "", editor := rows[i].editor) &&
              EditorFor(p, rows[i].editor, display, convert))
        && (!Refreshes(p, column, fileChoice, colorChoice) && !OpensEditor(p, column) ==> rows[i] == old(rows[i]))
    {
      prompt := NoPrompt;
      var row := rows[i];
      if row.pref.None? {
        return;
      }
      var k := row.pref.value;
      var p := prefs[k];
      if column < 3 {
        StoreValue(k, Reset(p).value);
        UpdateItem(i);
      } else if OpensEditor(p, column) {
        OpenEditor(i);
      } else {
        prompt := EditInPlace(i, column, fileChoice, colorChoice);
      }
    }

    /** Activation in the value column of an unsigned, enumeration, string or range pref: its editor opens. */
    method OpenEditor(i: int)
      requires Valid() && 0 <= i < |rows| && rows[i].pref.Some?
      requires OpensEditor(prefs[rows[i].pref.value], 3)
      modifies this
      ensures Valid() && prefs == old(prefs) && current == old(current)
      ensures rows == old(rows)[i := old(rows[i]).(valueText := "", editor := rows[i].editor)]
      ensures EditorFor(prefs[rows[i].pref.value], rows[i].editor, display, convert)
    {
      var p := prefs[rows[i].pref.value];
      match p.value {
        case UintValue(u) =>
          PlaceEditor(i, LineEditor(UintEditorText(u)));
        case EnumValue(cur) =>
          var items, data, index := BuildEnumChoiceList(p.enumVals, cur);
          ChoiceListValuesFromTable(p.enumVals, cur, items, data, index);
          PlaceEditor(i, ComboEditor(items, data, index));
        case StringValue(str) =>
          PlaceEditor(i, LineEditor(str));
        case RangeValue(_) =>
          // the editor's text is set after its change signal is connected, so its state is checked at once
          var text := display(p, false);
          PlaceEditor(i, SyntaxEditor(text, RangeSyntaxState(text, p.maxValue, convert)));
      }
    }

    /**
     * Activation in the value column of any other pref: a boolean flips, a
     * filename or colour takes the prompt's answer unless it was cancelled,
     * and the row is refreshed when a value was stored.
     */
    method EditInPlace(i: int, column: int, fileChoice: string, colorChoice: Option<DialogColor>)
      returns (prompt: Prompt)
      requires Valid() && 0 <= i < |rows| && rows[i].pref.Some?
      requires column >= 3 && !OpensEditor(prefs[rows[i].pref.value], column)
      modifies this
      ensures Valid() && current == old(current)
      ensures
        var k := old(rows[i]).pref.value;
        var p := old(prefs)[k];
        && prefs == old(prefs)[k := p.(value := Activated(p, column, fileChoice, colorChoice))]
        && prompt == PromptFor(p, column)
        && rows == if Refreshes(p, column, fileChoice, colorChoice)
                   then old(rows)[i := UpdatedRow(old(rows[i]), prefs, isDefault, display)]
                   else old(rows)
    {
      prompt := NoPrompt;
      var k := rows[i].pref.value;
      var p := prefs[k];
      match p.value {
        case BoolValue(b) =>
          StoreValue(k, BoolValue(!b));
          UpdateItem(i);
        case FilenameValue(path) =>
          prompt := FilePrompt(FilePromptPrefix + p.description, path);
          if fileChoice != [] {
            StoreValue(k, FilenameValue(fileChoice));
            UpdateItem(i);
          }
        case ColorValue(c) =>
          prompt := ColorPrompt(ColorForPrompt(c));
          if colorChoice.Some? {
            StoreValue(k, ColorValue(ColorFromPrompt(colorChoice.value)));
            UpdateItem(i);
          }
        case _ =>
      }
    }

    /** Writes `v` through the pref's value pointer; the type tag stays. */
    method StoreValue(k: nat, v: Value)
      requires Valid() && k < |prefs| && TypeOf(v) == TypeOf(prefs[k].value)
      modifies this
      ensures Valid()
      ensures prefs == old(prefs)[k := old(prefs)[k].(value := v)]
      ensures rows == old(rows) && current == old(current)
    {
      prefs := prefs[k := prefs[k].(value := v)];
    }

    /** Places `editor` in the value column of row `i` and clears the column's text. */
    method PlaceEditor(i: int, editor: Editor)
      requires Valid() && 0 <= i < |rows| && rows[i].pref.Some?
      requires editor.ComboEditor? ==> ValuesFromTable(prefs[rows[i].pref.value].enumVals, editor.data)
      modifies this
      ensures Valid()
      ensures rows == old(rows)[i := old(rows)[i].(valueText := "", editor := editor)]
      ensures prefs == old(prefs) && current == old(current)
    {
      rows := rows[i := rows[i].(valueText := "", editor := editor)];
    }

    /** The unsigned-integer editor of the current row finished with `text`. */
    method UintEditingFinished(text: string)
      requires Valid()
      requires CurrentPref().Some? ==> prefs[CurrentPref().value].value.UintValue?
      modifies this
      ensures Valid() && current == old(current)
      ensures old(CurrentPref()).None? ==> prefs == old(prefs) && rows == old(rows)
      ensures old(CurrentPref()).Some? ==>
        var k := old(CurrentPref()).value;
        && prefs == old(prefs)[k := old(prefs)[k].(value := UintValue(Text.ToUInt(text)))]
        && rows == old(rows)[current := UpdatedRow(old(rows)[current].(editor := NoEditor), prefs, isDefault, display)]
    {
      if current < 0 || rows[current].pref.None? {
        return;
      }
      var k := rows[current].pref.value;
      StoreValue(k, UintValue(Text.ToUInt(text)));
      rows := rows[current := rows[current].(editor := NoEditor)];
      UpdateItem(current);
    }

    /**
     * The choice list in the current row moved to `index` (Qt moves the list
     * before it signals).  A negative index (no selection) stores nothing;
     * otherwise the current pref takes the value the chosen item carries and
     * the row is refreshed.  The choice list stays in place.
     */
    method EnumCurrentIndexChanged(index: int)
      requires Valid()
      requires CurrentPref().Some? ==>
        && prefs[CurrentPref().value].value.EnumValue?
        && rows[current].editor.ComboEditor?
        && -1 <= index < |rows[current].editor.data|
      modifies this
      ensures Valid() && current == old(current)
      ensures old(CurrentPref()).None? ==> prefs == old(prefs) && rows == old(rows)
      ensures old(CurrentPref()).Some? ==>
        var k := old(CurrentPref()).value;
        var combo := old(rows)[current].editor.(index := index);
        if index < 0 then
          prefs == old(prefs) && rows == old(rows)[current := old(rows)[current].(editor := combo)]
        else
          && prefs == old(prefs)[k := old(prefs)[k].(value := EnumValue(combo.data[index]))]
          && rows == old(rows)[current := UpdatedRow(old(rows)[current].(editor := combo), prefs, isDefault, display)]
      ensures old(CurrentPref()).Some? && index >= 0 ==>
        var p := prefs[old(CurrentPref()).value];
        exists t :: 0 <= t < |p.enumVals| && p.enumVals[t].value == p.value.e
    {
      if current < 0 || rows[current].pref.None? {
        return;
      }
      var k := rows[current].pref.value;
      var combo := rows[current].editor.(index := index);
      rows := rows[current := rows[current].(editor := combo)];
      if index < 0 {
        return;
      }
      assert ValuesFromTable(prefs[k].enumVals, combo.data);
      StoreValue(k, EnumValue(combo.data[index]));
      UpdateItem(current);
    }

    /** The string editor of the current row finished with `text`. */
    method StringEditingFinished(text: string)
      requires Valid()
      requires CurrentPref().Some? ==> prefs[CurrentPref().value].value.StringValue?
      modifies this
      ensures Valid() && current == old(current)
      ensures old(CurrentPref()).None? ==> prefs == old(prefs) && rows == old(rows)
      ensures old(CurrentPref()).Some? ==>
        var k := old(CurrentPref()).value;
        && prefs == old(prefs)[k := old(prefs)[k].(value := StringValue(text))]
        && rows == old(rows)[current := UpdatedRow(old(rows)[current].(editor := NoEditor), prefs, isDefault, display)]
    {
      if current < 0 || rows[current].pref.None? {
        return;
      }
      var k := rows[current].pref.value;
      StoreValue(k, StringValue(text));
      rows := rows[current := rows[current].(editor := NoEditor)];
      UpdateItem(current);
    }

    /**
     * The range editor in the current row now holds `text`: the editor's
     * syntax state follows the text; no pref and no other row changes.
     */
    method RangeTextChanged(text: string)
      requires Valid()
      requires CurrentPref().Some? ==> rows[current].editor.SyntaxEditor?
      modifies this
      ensures Valid() && current == old(current) && prefs == old(prefs)
      ensures old(CurrentPref()).None? ==> rows == old(rows)
      ensures old(CurrentPref()).Some? ==>
        var p := prefs[old(CurrentPref()).value];
        var edit := old(rows)[current].editor;
        rows == old(rows)[current := old(rows)[current].(editor := edit.(text := text, state := RangeSyntaxState(text, p.maxValue, convert)))]
    {
      if current < 0 || rows[current].pref.None? {
        return;
      }
      var p := prefs[rows[current].pref.value];
      var edit := rows[current].editor;
      rows := rows[current := rows[current].(editor := edit.(text := text, state := RangeSyntaxState(text, p.maxValue, convert)))];
    }

    /**
     * The range editor of the current row finished with `text`: the range is
     * replaced only when the converter accepts the text; the editor goes
     * either way.
     */
    method RangeEditingFinished(text: string)
      requires Valid()
      requires CurrentPref().Some? ==> prefs[CurrentPref().value].value.RangeValue?
      modifies this
      ensures Valid() && current == old(current)
      ensures old(CurrentPref()).None? ==> prefs == old(prefs) && rows == old(rows)
      ensures old(CurrentPref()).Some? ==>
        var k := old(CurrentPref()).value;
        && prefs == old(prefs)[k := old(prefs)[k].(value := CommittedRange(old(prefs)[k], text, convert))]
        && rows == old(rows)[current := UpdatedRow(old(rows)[current].(editor := NoEditor), prefs, isDefault, display)]
    {
      if current < 0 || rows[current].pref.None? {
        return;
      }
      var k := rows[current].pref.value;
      var ret := convert(text, prefs[k].maxValue);
      if ret.CvtNoError? {
        StoreValue(k, RangeValue(ret.range));
      }
      rows := rows[current := rows[current].(editor := NoEditor)];
      UpdateItem(current);
    }

    /**
     * The current row changes to `next`: the editor of the row that was
     * current is taken away (its value column keeps whatever text it had).
     */
    method CurrentItemChanged(next: int)
      requires Valid() && -1 <= next < |rows|
      modifies this
      ensures Valid() && current == next && prefs == old(prefs)
      ensures old(current) >= 0 ==> rows == old(rows)[old(current) := old(rows)[old(current)].(editor := NoEditor)]
      ensures old(current) < 0 ==> rows == old(rows)
    {
      if current >= 0 && rows[current].editor != NoEditor {
        rows := rows[current := rows[current].(editor := NoEditor)];
      }
      current := next;
    }
  }
}
