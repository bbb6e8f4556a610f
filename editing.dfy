/**
 * The edit rules behind activating a row and the editing slots: what
 * activation does to a pref's value, the colour channel conversion between
 * the registry (16 bits) and the colour prompt (8 bits), the range editor's
 * live syntax state and commit rule, the enumeration choice list, and the
 * initial text of the unsigned-integer editor.
 */
module Editing {
  import opened Wrappers
  import opened Prefs
  import opened Rows
  import Text

  /** A colour as the colour prompt shows and returns it: 8 bits per channel. */
  datatype DialogColor = DialogColor(red: bv8, green: bv8, blue: bv8)

  /** A stored channel as the prompt shows it: its high byte (`c >> 8`), the channel scaled down by 256. */
  function ChannelForPrompt(c: bv16): (r: bv8)
    ensures r as int == c as int / 256
  {
    (c >> 8) as bv8
  }

  /** An accepted 8-bit channel as stored: the byte repeated (`c << 8 | c`). */
  function ChannelFromPrompt(c: bv8): (r: bv16)
    ensures r as int == c as int * 257
    ensures ChannelForPrompt(r) == c
    ensures r & 0xFF == c as bv16
  {
    (c as bv16 << 8) | c as bv16
  }

  function ColorForPrompt(c: Color): DialogColor {
    DialogColor(ChannelForPrompt(c.red), ChannelForPrompt(c.green), ChannelForPrompt(c.blue))
  }

  function ColorFromPrompt(d: DialogColor): Color {
    Color(ChannelFromPrompt(d.red), ChannelFromPrompt(d.green), ChannelFromPrompt(d.blue))
  }

  /** An accepted prompt colour, stored and shown again, is the colour the user picked. */
  lemma ColorPromptRoundTrip(d: DialogColor)
    ensures ColorForPrompt(ColorFromPrompt(d)) == d
  {
  }

  /** Storing what the prompt shows restores a channel exactly when its two bytes agree. */
  lemma ChannelRestoredIffBytesAgree(c: bv16)
    ensures ChannelFromPrompt(ChannelForPrompt(c)) == c <==> c >> 8 == c & 0xFF
  {
  }

  /**
   * The pref's value after its row is activated in `column`.  Columns 0-2
   * reset it; in column 3 a boolean flips, a filename takes the prompt's
   * answer unless it is empty, a colour takes the prompt's answer unless the
   * prompt was cancelled, and every other type is left for its editor.
   */
  function Activated(p: Pref, column: int, fileChoice: string, colorChoice: Option<DialogColor>): Value {
    if column < 3 then Reset(p).value
    else match p.value
      case BoolValue(b) => BoolValue(!b)
      case FilenameValue(_) => if fileChoice != [] then FilenameValue(fileChoice) else p.value
      case ColorValue(_) => if colorChoice.Some? then ColorValue(ColorFromPrompt(colorChoice.value)) else p.value
      case _ => p.value
  }

  /** Activation never changes a pref's type tag. */
  lemma ActivationKeepsType(p: Pref, column: int, fileChoice: string, colorChoice: Option<DialogColor>)
    requires WellTyped(p)
    ensures TypeOf(Activated(p, column, fileChoice, colorChoice)) == TypeOf(p.value)
  {
  }

  /** Activating a row in columns 0-2 resets its pref, which the registry then reports at its default. */
  lemma ActivationBeforeValueColumnResets(p: Pref, column: int, fileChoice: string, colorChoice: Option<DialogColor>,
                                          isDefault: Pref -> bool)
    requires column < 3 && ResetMakesDefault(isDefault)
    ensures p.(value := Activated(p, column, fileChoice, colorChoice)) == Reset(p)
    ensures isDefault(p.(value := Activated(p, column, fileChoice, colorChoice)))
  {
    assert isDefault(Reset(p));
  }

  /** Activating a boolean twice in the value column restores it; once negates it. */
  lemma BoolActivationTwiceRestores(p: Pref, column: int, fileChoice: string, colorChoice: Option<DialogColor>)
    requires p.value.BoolValue? && column >= 3
    ensures Activated(p, column, fileChoice, colorChoice) == BoolValue(!p.value.b)
    ensures Activated(p.(value := Activated(p, column, fileChoice, colorChoice)), column, fileChoice, colorChoice) == p.value
  {
  }

  /** A cancelled prompt (empty file name, no colour) leaves a filename or colour untouched. */
  lemma CancelledPromptKeepsValue(p: Pref, column: int)
    requires column >= 3 && (p.value.FilenameValue? || p.value.ColorValue?)
    ensures Activated(p, column, [], None) == p.value
  {
  }

  /** An accepted colour is stored with each channel widened to 16 bits and shown back unchanged. */
  lemma AcceptedColorIsStored(p: Pref, column: int, fileChoice: string, d: DialogColor)
    requires column >= 3 && p.value.ColorValue?
    ensures Activated(p, column, fileChoice, Some(d)).ColorValue?
    ensures ColorForPrompt(Activated(p, column, fileChoice, Some(d)).c) == d
  {
    ColorPromptRoundTrip(d);
  }

  /**
   * The range editor's state while the user types: Empty for no text, Valid
   * when the converter accepts the text under the pref's maximum, Invalid
   * otherwise.
   */
  function RangeSyntaxState(text: string, maxValue: nat, convert: (string, nat) -> ConvertResult): (st: SyntaxState)
    ensures st == Empty <==> text == []
    ensures st == Valid <==> text != [] && convert(text, maxValue).CvtNoError?
  {
    if text == [] then Empty
    else if convert(text, maxValue).CvtNoError? then Valid
    else Invalid
  }

  /** The range a pref holds once its editor is finished with `text`. */
  function CommittedRange(p: Pref, text: string, convert: (string, nat) -> ConvertResult): Value {
    var ret := convert(text, p.maxValue);
    if ret.CvtNoError? then RangeValue(ret.range) else p.value
  }

  /**
   * A non-empty text the editor flags Invalid is never stored; one it flags
   * Valid is stored as the converter's range.
   */
  lemma RangeCommitFollowsSyntaxState(p: Pref, text: string, convert: (string, nat) -> ConvertResult)
    requires text != []
    ensures RangeSyntaxState(text, p.maxValue, convert) == Invalid ==> CommittedRange(p, text, convert) == p.value
    ensures RangeSyntaxState(text, p.maxValue, convert) == Valid ==>
            CommittedRange(p, text, convert) == RangeValue(convert(text, p.maxValue).range)
  {
  }

  /** The number of table entries listed: those before the first entry without a description. */
  predicate ListsEntries(vals: seq<EnumVal>, n: int) {
    0 <= n <= |vals| &&
    (forall j :: 0 <= j < n ==> vals[j].description.Some?) &&
    (n < |vals| ==> vals[n].description.None?)
  }

  /**
   * The enumeration choice list: one item per listed entry (its description,
   * carrying its value), and the selection on the last entry whose value is
   * the current one; when none is, the first item stays selected, and an
   * empty list has no selection.
   */
  ghost predicate IsEnumChoiceList(vals: seq<EnumVal>, current: int, items: seq<string>, data: seq<int>, index: int) {
    && ListsEntries(vals, |items|)
    && |data| == |items|
    && (forall j :: 0 <= j < |items| ==> items[j] == vals[j].description.value && data[j] == vals[j].value)
    && -1 <= index < |items|
    && (index == -1 <==> items == [])
    && (forall j :: 0 <= index < j < |items| ==> data[j] != current)
    && (0 <= index && data[index] != current ==> index == 0 && forall j :: 0 <= j < |items| ==> data[j] != current)
  }

  /** Every value the choice list carries is the value of some entry of the table. */
  ghost predicate ValuesFromTable(vals: seq<EnumVal>, data: seq<int>) {
    forall j :: 0 <= j < |data| ==> exists t :: 0 <= t < |vals| && vals[t].value == data[j]
  }

  /** A choice list built from a table only offers that table's values. */
  lemma ChoiceListValuesFromTable(vals: seq<EnumVal>, current: int, items: seq<string>, data: seq<int>, index: int)
    requires IsEnumChoiceList(vals, current, items, data, index)
    ensures ValuesFromTable(vals, data)
  {
    forall j | 0 <= j < |data|
      ensures exists t :: 0 <= t < |vals| && vals[t].value == data[j]
    {
      assert vals[j].value == data[j];
    }
  }

  /** Fills the choice list the way the activation slot walks the enumeration table. */
  method BuildEnumChoiceList(vals: seq<EnumVal>, current: int) returns (items: seq<string>, data: seq<int>, index: int)
    ensures IsEnumChoiceList(vals, current, items, data, index)
  {
    items, data, index := [], [], -1;
    var i := 0;
    while i < |vals| && vals[i].description.Some?
      invariant 0 <= i <= |vals| && |items| == i && |data| == i
      invariant forall j :: 0 <= j < i ==> vals[j].description.Some?
      invariant forall j :: 0 <= j < i ==> items[j] == vals[j].description.value && data[j] == vals[j].value
      invariant -1 <= index < i && (index == -1 <==> i == 0)
      invariant forall j :: 0 <= index < j < i ==> data[j] != current
      invariant 0 <= index && data[index] != current ==> index == 0 && forall j :: 0 <= j < i ==> data[j] != current
    {
      items := items + [vals[i].description.value];
      data := data + [vals[i].value];
      if i == 0 {
        index := 0;  // the first item added to an empty list becomes the current one
      }
      if vals[i].value == current {
        index := i;
      }
      i := i + 1;
    }
  }

  /**
   * The slot of the varp union that holds a string pointer.  Only string and
   * filename prefs keep a string there; for any other type, reading the slot
   * as a string is undefined (None).
   */
  function StringSlot(v: Value): (r: Option<string>)
    ensures r.Some? <==> v.StringValue? || v.FilenameValue?
  {
    match v
    case StringValue(s) => Some(s)
    case FilenameValue(path) => Some(path)
    case _ => None
  }

  /** The unsigned-integer editor's initial text as written: it reads the string slot. */
  function UintEditorTextAsWritten(v: Value): (r: Option<string>)
    ensures v.UintValue? ==> r.None?
  {
    StringSlot(v)
  }

  /**
   * For every unsigned-integer pref the as-written initial text is undefined,
   * where the intended text reads back as the value; 5 is one such input.
   */
  lemma UintEditorTextAsWrittenUndefined(u: uint32)
    ensures UintEditorTextAsWritten(UintValue(u)) == None
    ensures Text.ToUInt(UintEditorText(u)) == u
    ensures u == 5 ==> UintEditorText(u) == "5"
  {
  }

  /** The unsigned-integer editor's initial text: the decimal text of the current value. */
  function UintEditorText(u: uint32): (s: string)
    ensures Text.ToUInt(s) == u
  {
    Text.DecimalRoundTrip(u);
    Text.Decimal(u as nat)
  }
}
