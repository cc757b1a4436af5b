/**
 * ABIv2.Element.ParameterType and the classification the decoder asks of
 * it (isStatic, memoryUsage, isArray, arraySize). As in web3swift, an array
 * whose length is 0 is a dynamic-size array `T[]`; any other length N is
 * the static-size array `T[N]`.
 */
module AbiTypes {

  datatype ParamType =
    | Uint(bits: nat)
    | Int(bits: nat)
    | Address
    | Bool
    | Bytes(length: nat)
    | String
    | DynamicBytes
    | Array(elementType: ParamType, length: nat)
    | Tuple(types: seq<ParamType>)
    | Function

  datatype ArraySize = NotArray | StaticSize(size: nat) | DynamicSize

  /** Encoded in place (static) rather than through an offset slot (dynamic). */
  predicate IsStatic(t: ParamType) {
    match t
    case String => false
    case DynamicBytes => false
    case Array(e, n) => n > 0 && IsStatic(e)
    case Tuple(ts) => forall i | 0 <= i < |ts| :: IsStatic(ts[i])
    case _ => true
  }

  predicate AllStatic(ts: seq<ParamType>) {
    forall i | 0 <= i < |ts| :: IsStatic(ts[i])
  }

  /**
   * The size of a value's head slot: the whole in-place encoding of a static
   * value, or the one 32-byte offset word of a dynamic one.
   */
  function MemoryUsage(t: ParamType): nat {
    if !IsStatic(t) then 32
    else match t
      case Array(e, n) => n * MemoryUsage(e)
      case Tuple(ts) => SumMemoryUsage(ts)
      case _ => 32
  }

  function SumMemoryUsage(ts: seq<ParamType>): nat {
    if |ts| == 0 then 0 else MemoryUsage(ts[0]) + SumMemoryUsage(ts[1..])
  }

  predicate IsArray(t: ParamType) {
    t.Array?
  }

  function ArraySizeOf(t: ParamType): ArraySize {
    match t
    case Array(_, n) => if n == 0 then DynamicSize else StaticSize(n)
    case _ => NotArray
  }

  /**
   * Types the decoder can run on without trapping: a `bytes(N)` slice of
   * a 32-byte slot needs N <= 32.
   */
  predicate WellFormed(t: ParamType) {
    match t
    case Bytes(n) => n <= 32
    case Array(e, _) => WellFormed(e)
    case Tuple(ts) => forall i | 0 <= i < |ts| :: WellFormed(ts[i])
    case _ => true
  }

  predicate AllWellFormed(ts: seq<ParamType>) {
    forall i | 0 <= i < |ts| :: WellFormed(ts[i])
  }

  /** Values decoded without the 0-or-1 check of `bool`, which can reject a word. */
  predicate BoolFree(t: ParamType) {
    match t
    case Bool => false
    case Array(e, _) => BoolFree(e)
    case Tuple(ts) => forall i | 0 <= i < |ts| :: BoolFree(ts[i])
    case _ => true
  }

  predicate AllBoolFree(ts: seq<ParamType>) {
    forall i | 0 <= i < |ts| :: BoolFree(ts[i])
  }
}
