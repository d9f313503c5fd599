/**
  The explicit schema that stands for Go reflection over an experiment struct: each field has a
  name, a kind, whether it is exported, and its optional `vals` tag. A record is the sequence of
  its field values, in declaration order.
*/
module Values {
  import opened Wrappers
  import opened Strings
  import opened Numbers

  /** Integer widths: `int`/`uint` (platform width) and the sized kinds. */
  datatype Width = Platform | W8 | W16 | W32 | W64

  /** The reflect kinds the engine distinguishes; `Other` is any kind outside these. */
  datatype Kind = Bool | String | Int(width: Width) | Uint(width: Width) | Uintptr | Float32 | Float64 | Other

  /**
    A field value. `VFloat` holds the exact decimal the source text spelled; `VNil` is a nil
    interface and `VAny` an interface holding a value; a slice carries whether it is nil.
    A Go interface holding nil is itself nil, and an interface never holds another interface,
    so `VAny(VNil)` and `VAny(VAny(..))` stand for no Go value and never come from a Go struct;
    what the model says about them (`IsZero` calls them non-zero) has no counterpart in the source.
  */
  datatype Value =
    | VBool(b: bool)
    | VInt(i: int)
    | VUint(n: nat)
    | VFloat(d: Decimal)
    | VStr(s: string)
    | VNil
    | VAny(held: Value)
    | VSlice(isNil: bool, elems: seq<Value>)
    | VArray(elems: seq<Value>)

  type Record = seq<Value>

  /** One struct field: its name, kind, whether it is exported, and its `vals` tag if any. */
  datatype Field = Field(name: string, kind: Kind, exported: bool, tag: Option<string>)

  type Schema = seq<Field>

  /** `reflect.Value.IsZero`. A non-nil empty slice is not zero; an array is zero when all its elements are. */
  predicate IsZero(v: Value) {
    match v
    case VBool(b) => !b
    case VInt(i) => i == 0
    case VUint(n) => n == 0
    case VFloat(d) => d.mant == 0
    case VStr(s) => s == []
    case VNil => true
    case VAny(_) => false
    case VSlice(isNil, _) => isNil
    case VArray(elems) => forall k :: 0 <= k < |elems| ==> IsZero(elems[k])
  }

  /**
    `fmt.Sprintf("%v", v)`: numbers in decimal, booleans as `true`/`false`, strings verbatim,
    a nil interface as `<nil>`, an interface as what it holds, and a slice or array as its
    elements separated by single spaces inside brackets.
  */
  function Text(v: Value): (s: string)
    decreases v
  {
    match v
    case VBool(b) => if b then "true" else "false"
    case VInt(i) => IntText(i)
    case VUint(n) => NatText(n)
    case VFloat(d) => DecimalText(d)
    case VStr(s) => s
    case VNil => "<nil>"
    case VAny(held) => Text(held)
    case VSlice(_, elems) => "[" + Join(Texts(elems), " ") + "]"
    case VArray(elems) => "[" + Join(Texts(elems), " ") + "]"
  }

  /** The `%v` text of each element, in order. */
  function Texts(elems: seq<Value>): (ts: seq<string>)
    ensures |ts| == |elems|
    decreases elems
  {
    if elems == [] then [] else [Text(elems[0])] + Texts(elems[1..])
  }

  lemma {:induction false} TextsAt(elems: seq<Value>, k: nat)
    requires k < |elems|
    ensures Texts(elems)[k] == Text(elems[k])
  {
    if k > 0 {
      TextsAt(elems[1..], k - 1);
    }
  }
}
