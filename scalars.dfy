/** Cell values and the display type the layer infers for a new cell. */
module Scalars {
  import opened Outcomes

  /** The scalar kinds a cell holds. Python's `bool` is a subclass of its
      numbers; here the two kinds are disjoint constructors. */
  datatype Scalar =
    | Bool(b: bool)
    | Num(n: real)
    | Text(s: string)

  /** The display types a cell can have. */
  datatype CellType = TextType | Numeric | Checkbox | Dropdown | Date

  /** Python truthiness of a scalar: `False`, zero and the empty string are
      false, everything else is true. */
  function Truthy(x: Scalar): (t: bool)
    ensures !t <==> x in {Bool(false), Num(0.0), Text([])}
  {
    match x
    case Bool(b) => b
    case Num(n) => n != 0.0
    case Text(s) => |s| > 0
  }

  /** The type a new cell gets: the explicitly requested one if any, else
      `dropdown` when a choice list is given, else the type inferred from the
      value's kind (boolean before numeric). */
  function ResolveType(kind: Option<CellType>, value: Scalar, choice: Option<seq<Scalar>>): (t: CellType)
    ensures kind.Some? ==> t == kind.value
    ensures kind.None? && choice.Some? ==> t == Dropdown
    ensures kind.None? && choice.None? ==>
              (t == Checkbox <==> value.Bool?) &&
              (t == Numeric <==> value.Num?) &&
              (t == TextType <==> value.Text?)
  {
    if kind.Some? then kind.value
    else if choice.Some? then Dropdown
    else match value
      case Bool(_) => Checkbox
      case Num(_) => Numeric
      case Text(_) => TextType
  }
}
