/**
 * The preference registry as the dialog sees it: a pref carries a type tag,
 * a current value and a default value.  The value is a tagged variant, so the
 * type tag is the variant's constructor and cannot disagree with the value.
 */
module Prefs {
  import opened Wrappers

  /** An unsigned 32-bit integer (guint). */
  newtype uint32 = x: int | 0 <= x < 0x1_0000_0000

  /** A colour as the registry stores it: 16 bits per channel. */
  datatype Color = Color(red: bv16, green: bv16, blue: bv16)

  /** A parsed range list; its structure belongs to the registry and is not inspected here. */
  datatype RangeList = RangeList(spans: seq<(nat, nat)>)

  /** One entry of an enumeration's value table; a null description ends the table. */
  datatype EnumVal = EnumVal(name: string, description: Option<string>, value: int)

  /** The registry's type tags. */
  datatype PrefType =
    | PrefUint | PrefBool | PrefEnum | PrefString | PrefRange | PrefStaticText
    | PrefUat | PrefFilename | PrefColor | PrefCustom | PrefObsolete

  /** The value behind a pref's `varp` pointer, tagged by type. */
  datatype Value =
    | UintValue(u: uint32)
    | BoolValue(b: bool)
    | EnumValue(e: int)
    | StringValue(s: string)
    | RangeValue(r: RangeList)
    | StaticTextValue
    | UatValue
    | FilenameValue(path: string)
    | ColorValue(c: Color)
    | CustomValue(data: seq<int>)   // the custom type's own state, not inspected here
    | ObsoleteValue

  /** The type tag (`pref->type`) of a value. */
  function TypeOf(v: Value): PrefType {
    match v
    case UintValue(_) => PrefUint
    case BoolValue(_) => PrefBool
    case EnumValue(_) => PrefEnum
    case StringValue(_) => PrefString
    case RangeValue(_) => PrefRange
    case StaticTextValue => PrefStaticText
    case UatValue => PrefUat
    case FilenameValue(_) => PrefFilename
    case ColorValue(_) => PrefColor
    case CustomValue(_) => PrefCustom
    case ObsoleteValue => PrefObsolete
  }

  /**
   * A registered preference.  `typeName` is what the registry's type-name
   * lookup answers (absent for types it cannot name), `maxValue` the upper
   * bound handed to the range converter, `enumVals` the enumeration table.
   */
  datatype Pref = Pref(
    name: string,
    description: string,
    value: Value,
    defaultValue: Value,
    typeName: Option<string>,
    typeDescription: string,
    maxValue: nat,
    enumVals: seq<EnumVal>)

  /** The current and the default value carry the same type tag. */
  predicate WellTyped(p: Pref) {
    TypeOf(p.value) == TypeOf(p.defaultValue)
  }

  /** The registry's reset: the current value becomes the default value, nothing else changes. */
  function Reset(p: Pref): (r: Pref)
    ensures r.value == r.defaultValue
    ensures r.(value := p.value) == p
    ensures WellTyped(p) ==> WellTyped(r) && TypeOf(r.value) == TypeOf(p.value)
  {
    p.(value := p.defaultValue)
  }

  /**
   * The registry's "is this pref at its default?" question is a function the
   * dialog is given; what the dialog relies on is that it answers yes for
   * every pref the registry has just reset.
   */
  ghost predicate ResetMakesDefault(isDefault: Pref -> bool) {
    forall p :: isDefault(Reset(p))
  }

  /** What the range converter reports: a range, or an error of any kind. */
  datatype ConvertResult = CvtNoError(range: RangeList) | CvtError
}
