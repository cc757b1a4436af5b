/**
 * ABIv2Decoder as the source runs it: decodeSignleType dispatching on the
 * type, `for` loops that append to `toReturn` while advancing `consumed` or
 * `subpointer`, and the two decode(types:data:) entry points. Each method is
 * proved to compute the function of module DecodingSpec that describes it.
 */
module Decoder {
  import opened Wrappers
  import opened Primitives
  import opened AbiTypes
  import opened DecodingSpec

  /** ABIv2.Element.InOut: a named parameter of a function's inputs or outputs. */
  datatype InOut = InOut(name: string, paramType: ParamType)

  function ParamTypes(ios: seq<InOut>): (r: seq<ParamType>)
    ensures |r| == |ios|
    ensures forall i | 0 <= i < |ios| :: r[i] == ios[i].paramType
  {
    seq(|ios|, i requires 0 <= i < |ios| => ios[i].paramType)
  }

  /** decode(types: [InOut], data:): decode the parameters' types. */
  method DecodeInOuts(types: seq<InOut>, data: seq<byte>) returns (r: Option<seq<Value>>)
    requires forall i | 0 <= i < |types| :: WellFormed(types[i].paramType)
    ensures r == DecodeTypes(AsWritten, ParamTypes(types), data)
  {
    var params := ParamTypes(types);
    r := Decode(params, data);
  }

  /** decode(types: [ParameterType], data:) */
  method Decode(types: seq<ParamType>, data: seq<byte>) returns (r: Option<seq<Value>>)
    requires AllWellFormed(types)
    ensures r == DecodeTypes(AsWritten, types, data)
  {
    var toReturn: seq<Value> := [];
    var consumed: nat := 0;
    var i := 0;
    MembersStart(AsWritten, types, data, 0);
    while i < |types|
      invariant 0 <= i <= |types|
      invariant MembersAfter(AsWritten, [], types, data, 0) == MembersAfter(AsWritten, toReturn, types[i..], data, consumed)
    {
      var step := DecodeSingleType(types[i], data, consumed);
      if step.None? {
        MembersFail(AsWritten, toReturn, types[i..], data, consumed);
        return None;
      }
      var (v, c) := step.value;
      MembersStep(AsWritten, toReturn, types[i..], types[i + 1..], data, consumed, v, c);
      toReturn := toReturn + [v];
      consumed := consumed + c;
      i := i + 1;
    }
    assert types[i..] == [];
    MembersDone(AsWritten, toReturn, data, consumed);
    if |toReturn| != |types| {
      return None;
    }
    return Some(toReturn);
  }

  /** decodeSignleType */
  method DecodeSingleType(t: ParamType, data: seq<byte>, pointer: nat) returns (r: Option<(Value, nat)>)
    requires WellFormed(t)
    ensures r == DecodeSingle(AsWritten, t, data, pointer)
    decreases t, 0
  {
    var followed := FollowTheData(t, data, pointer);
    if followed.None? {
      return None;
    }
    var (elementItself, nextElementPointer) := followed.value;
    assert DecodeSingle(AsWritten, t, data, pointer) == DecodePayload(AsWritten, t, elementItself, nextElementPointer);
    match t {
      case Tuple(subTypes) =>
        assert DecodePayload(AsWritten, t, elementItself, nextElementPointer) == DecodeTuple(AsWritten, t, elementItself, nextElementPointer);
        var members := DecodeTupleMembers(subTypes, elementItself);
        if members.None? {
          return None;
        }
        var (toReturn, consumed) := members.value;
        if IsStatic(t) {
          return Some((ListValue(toReturn), consumed));
        } else {
          return Some((ListValue(toReturn), nextElementPointer));
        }
      case Array(subType, length) =>
        assert DecodePayload(AsWritten, t, elementItself, nextElementPointer) == DecodeArray(AsWritten, t, elementItself, nextElementPointer);
        match ArraySizeOf(t) {
          case DynamicSize =>
            if |elementItself| < 32 {
              return None;
            }
            var count := BeToNat(elementItself[..32]);
            if IsStatic(subType) {
              if |elementItself| < 32 + MemoryUsage(subType) * count {
                return None;
              }
              var toReturn := DecodeDynamicArrayElements(subType, count, elementItself, 32);
              return Some((ListValue(toReturn), MemoryUsage(t)));
            } else {
              var dataSlice := elementItself[32..];
              var toReturn := DecodeDynamicArrayElements(subType, count, dataSlice, 0);
              return Some((ListValue(toReturn), nextElementPointer));
            }
          case StaticSize(staticLength) =>
            if length != staticLength {
              return None;
            }
            var elements := DecodeStaticArrayElements(subType, length, elementItself);
            if elements.None? {
              return None;
            }
            var (toReturn, consumed) := elements.value;
            if IsStatic(subType) {
              return Some((ListValue(toReturn), consumed));
            } else {
              return Some((ListValue(toReturn), nextElementPointer));
            }
          case NotArray =>
            return None;
        }
      case _ =>
        var v := DecodeScalar(AsWritten, t, elementItself);
        if v.None? {
          return None;
        }
        return Some((v.value, MemoryUsage(t)));
    }
  }

  /** The member loop of a tuple: from sub-cursor 0, and nil as soon as a member fails. */
  method DecodeTupleMembers(subTypes: seq<ParamType>, elementItself: seq<byte>)
    returns (r: Option<(seq<Value>, nat)>)
    requires AllWellFormed(subTypes)
    ensures r == DecodeMembers(AsWritten, subTypes, elementItself, 0)
    decreases subTypes, 1
  {
    var toReturn: seq<Value> := [];
    var consumed: nat := 0;
    var i := 0;
    MembersStart(AsWritten, subTypes, elementItself, 0);
    while i < |subTypes|
      invariant 0 <= i <= |subTypes|
      invariant MembersAfter(AsWritten, [], subTypes, elementItself, 0) == MembersAfter(AsWritten, toReturn, subTypes[i..], elementItself, consumed)
    {
      var step := DecodeSingleType(subTypes[i], elementItself, consumed);
      if step.None? {
        MembersFail(AsWritten, toReturn, subTypes[i..], elementItself, consumed);
        return None;
      }
      var (v, c) := step.value;
      MembersStep(AsWritten, toReturn, subTypes[i..], subTypes[i + 1..], elementItself, consumed, v, c);
      toReturn := toReturn + [v];
      consumed := consumed + c;
      i := i + 1;
    }
    assert subTypes[i..] == [];
    MembersDone(AsWritten, toReturn, elementItself, consumed);
    return Some((toReturn, consumed));
  }

  /** The element loop of a static-size array: `length` elements from sub-cursor 0, all or nothing. */
  method DecodeStaticArrayElements(subType: ParamType, length: nat, elementItself: seq<byte>)
    returns (r: Option<(seq<Value>, nat)>)
    requires WellFormed(subType)
    ensures r == DecodeRepeat(AsWritten, subType, length, elementItself, 0)
    decreases subType, 1
  {
    var toReturn: seq<Value> := [];
    var consumed: nat := 0;
    var k: nat := 0;
    RepeatStart(AsWritten, subType, length, elementItself, 0);
    while k < length
      invariant k <= length
      invariant RepeatAfter(AsWritten, [], subType, length, elementItself, 0) ==
                RepeatAfter(AsWritten, toReturn, subType, length - k, elementItself, consumed)
    {
      var step := DecodeSingleType(subType, elementItself, consumed);
      if step.None? {
        RepeatFail(AsWritten, toReturn, subType, length - k, elementItself, consumed);
        return None;
      }
      var (v, c) := step.value;
      RepeatStep(AsWritten, toReturn, subType, length - k, length - (k + 1), elementItself, consumed, v, c);
      toReturn := toReturn + [v];
      consumed := consumed + c;
      k := k + 1;
    }
    RepeatDone(AsWritten, toReturn, subType, elementItself, consumed);
    return Some((toReturn, consumed));
  }

  /**
   * The element loop of a dynamic-size array: up to `count` elements from
   * `subpointer`, leaving the loop at the first element that fails.
   */
  method DecodeDynamicArrayElements(subType: ParamType, count: nat, data: seq<byte>, start: nat)
    returns (toReturn: seq<Value>)
    requires WellFormed(subType)
    ensures toReturn == DecodeElements(AsWritten, subType, count, data, start).0
    decreases subType, 1
  {
    toReturn := [];
    var subpointer: nat := start;
    var k: nat := 0;
    assert ElementsAfter(AsWritten, [], subType, count, data, start) == DecodeElements(AsWritten, subType, count, data, start).0;
    while k < count
      invariant k <= count
      invariant ElementsAfter(AsWritten, [], subType, count, data, start) ==
                ElementsAfter(AsWritten, toReturn, subType, count - k, data, subpointer)
    {
      var step := DecodeSingleType(subType, data, subpointer);
      if step.None? {
        break;
      }
      var (v, c) := step.value;
      ElementsStep(AsWritten, toReturn, subType, count - k, count - (k + 1), data, subpointer, v, c);
      toReturn := toReturn + [v];
      subpointer := subpointer + c;
      k := k + 1;
    }
    ElementsStop(AsWritten, toReturn, subType, count - k, data, subpointer);
  }
}
