/**
 * ABIv2Decoder as functions: the offset resolver (followTheData), the
 * per-type decoder (decodeSignleType) with its element and member loops
 * written as recursion, and decode(types:data:). The imperative versions
 * in module Decoder are proved equal to these.
 *
 * A decode step yields None where the source returns (nil, nil), and
 * Some((value, consumed)) where it returns the value together with the
 * number of bytes it reports as consumed.
 */
module DecodingSpec {
  import opened Wrappers
  import opened Primitives
  import opened AbiTypes

  /** The Swift objects the decoder returns as AnyObject. */
  datatype Value =
    | UintValue(u: nat)                 // BigUInt
    | IntValue(i: int)                  // BigInt
    | AddressValue(address: seq<byte>)  // Address, built from 20 bytes
    | BoolValue(b: bool)
    | DataValue(bytes: seq<byte>)       // Data: bytes(N), dynamicBytes and function
    | StringValue(utf8: seq<byte>)      // String, held as the UTF-8 bytes it was built from
    | ListValue(items: seq<Value>)      // [AnyObject]: arrays and tuples alike

  /**
   * The decoder as written, or with its two evident slips corrected.
   *
   * What a dynamic tuple or array reports as consumed: as written, a
   * dynamic tuple, a dynamic-size array of dynamic elements and a
   * static-size array of dynamic elements report nextElementPointer, the
   * absolute position past their head slot, which every caller adds to its
   * cursor; Corrected reports the head slot's size, 32, as string,
   * dynamicBytes and dynamic-size arrays of static elements already do.
   *
   * Where a `function` value sits in its slot: as written, bytes 8 ..< 32;
   * Corrected, bytes 0 ..< 24, where the ABI puts it (encoded like bytes24).
   */
  datatype Mode = AsWritten | Corrected

  function ReportedConsumption(mode: Mode, t: ParamType, nextElementPointer: nat): nat {
    match mode
    case AsWritten => nextElementPointer
    case Corrected => MemoryUsage(t)
  }

  const UInt64Max: nat := 0xFFFF_FFFF_FFFF_FFFF

  /**
   * The shape a decoded value has for its type: integers reduced to their
   * width, addresses of 20 bytes, bytes(N) of N bytes, function values of
   * 24 bytes, strings of valid UTF-8, static-size arrays and tuples with one
   * item per element or member, dynamic arrays with items of the element type.
   */
  predicate Conforms(t: ParamType, v: Value) {
    match t
    case Uint(bits) => v.UintValue? && v.u < Pow2(bits)
    case Int(bits) => v.IntValue? && -Pow2(bits) < v.i < Pow2(bits)
    case Address => v.AddressValue? && |v.address| == 20
    case Bool => v.BoolValue?
    case Bytes(n) => v.DataValue? && |v.bytes| == n
    case String => v.StringValue? && ValidUtf8(v.utf8)
    case DynamicBytes => v.DataValue?
    case Function => v.DataValue? && |v.bytes| == 24
    case Array(e, n) =>
      v.ListValue? && (n > 0 ==> |v.items| == n) &&
      forall i | 0 <= i < |v.items| :: Conforms(e, v.items[i])
    case Tuple(ts) =>
      v.ListValue? && |v.items| == |ts| &&
      forall i | 0 <= i < |ts| :: Conforms(ts[i], v.items[i])
  }

  /** The head word of a dynamic value, read as a big-endian offset. */
  function HeadOffset(data: seq<byte>, pointer: nat): nat
    requires pointer + 32 <= |data|
  {
    BeToNat(data[pointer..pointer + 32])
  }

  /** An offset the resolver follows: it fits in a UInt64 and points inside the buffer. */
  predicate OffsetInRange(data: seq<byte>, pointer: nat)
    requires pointer + 32 <= |data|
  {
    HeadOffset(data, pointer) <= UInt64Max && HeadOffset(data, pointer) < |data|
  }

  /**
   * followTheData: the payload of the value whose head slot starts at
   * `pointer`, and the pointer just past that head slot. A static value is
   * its head slot, in place; a dynamic value is the rest of the buffer from
   * the offset its head slot holds. For string and dynamicBytes an offset
   * out of range is taken to be a 32-byte value stored in place, and the
   * payload is made up as the length word 32 followed by that slot.
   */
  function FollowTheData(t: ParamType, data: seq<byte>, pointer: nat): (r: Option<(seq<byte>, nat)>)
    ensures r.Some? ==> r.value.1 == pointer + MemoryUsage(t)
    ensures IsStatic(t) ==>
      (r.Some? <==> pointer + MemoryUsage(t) <= |data|) &&
      (r.Some? ==> r.value.0 == data[pointer..pointer + MemoryUsage(t)])
    ensures !IsStatic(t) ==>
      (r.Some? <==> pointer + 32 <= |data| &&
                    (OffsetInRange(data, pointer) || t.String? || t.DynamicBytes?)) &&
      (r.Some? && OffsetInRange(data, pointer) ==>
         r.value.0 == data[HeadOffset(data, pointer)..]) &&
      (r.Some? && !OffsetInRange(data, pointer) ==>
         r.value.0 == Word(32) + data[pointer..pointer + 32])
  {
    var usage := MemoryUsage(t);
    if IsStatic(t) then
      if |data| < pointer + usage then None
      else Some((data[pointer..pointer + usage], pointer + usage))
    else
      if |data| < pointer + usage then None
      else
        var slot := data[pointer..pointer + usage];
        var offset := BeToNat(slot);
        if offset > UInt64Max || offset >= |data| then
          if t.String? || t.DynamicBytes? then Some((Word(32) + slot, pointer + usage))
          else None
        else Some((data[offset..], pointer + usage))
  }

  predicate IsScalar(t: ParamType) {
    !t.Array? && !t.Tuple?
  }

  /** The word-sized and length-prefixed branches of decodeSignleType, on a resolved payload. */
  function DecodeScalar(mode: Mode, t: ParamType, payload: seq<byte>): (r: Option<Value>)
    requires IsScalar(t) && WellFormed(t)
    ensures r.Some? ==> |payload| >= 32 && Conforms(t, r.value)
    ensures |payload| >= 32 && !t.Bool? && !t.String? && !t.DynamicBytes? ==> r.Some?
  {
    if |payload| < 32 then None
    else
      var word := payload[..32];
      match t
      case Uint(bits) =>
        Some(UintValue(BeToNat(word) % Pow2(bits)))
      case Int(bits) =>
        Some(IntValue(TruncatedRem(FromTwosComplement(word), Pow2(bits))))
      case Address =>
        Some(AddressValue(payload[12..32]))
      case Bool =>
        var w := BeToNat(word);
        if w == 1 then Some(BoolValue(true))
        else if w == 0 then Some(BoolValue(false))
        else None
      case Bytes(n) =>
        Some(DataValue(payload[..n]))
      case String =>
        var length := BeToNat(word);
        if |payload| < 32 + length then None
        else
          var s := payload[32..32 + length];
          if ValidUtf8(s) then Some(StringValue(s)) else None
      case DynamicBytes =>
        var length := BeToNat(word);
        if |payload| < 32 + length then None
        else Some(DataValue(payload[32..32 + length]))
      case Function =>
        Some(DataValue(if mode == AsWritten then payload[8..32] else payload[..24]))
  }

  /**
   * decodeSignleType: decode one value whose head slot is at `pointer`.
   * A successful decode has the shape of its type, and a static value
   * reports exactly its head size as consumed.
   */
  function DecodeSingle(mode: Mode, t: ParamType, data: seq<byte>, pointer: nat): (r: Option<(Value, nat)>)
    requires WellFormed(t)
    decreases t, 0, 2
  {
    match FollowTheData(t, data, pointer)
    case None => None
    case Some((payload, nextElementPointer)) => DecodePayload(mode, t, payload, nextElementPointer)
  }

  /** The switch of decodeSignleType, on the payload the resolver found. */
  function DecodePayload(mode: Mode, t: ParamType, payload: seq<byte>, nextElementPointer: nat): (r: Option<(Value, nat)>)
    requires WellFormed(t)
    decreases t, 0, 1
  {
    match t
    case Tuple(ts) => DecodeTuple(mode, t, payload, nextElementPointer)
    case Array(_, _) => DecodeArray(mode, t, payload, nextElementPointer)
    case _ =>
      match DecodeScalar(mode, t, payload)
      case None => None
      case Some(v) => Some((v, MemoryUsage(t)))
  }

  /** A tuple: its members from sub-cursor 0 of the payload, all or nothing. */
  function DecodeTuple(mode: Mode, t: ParamType, payload: seq<byte>, nextElementPointer: nat): (r: Option<(Value, nat)>)
    requires t.Tuple? && WellFormed(t)
    decreases t, 0, 0
  {
    match DecodeMembers(mode, t.types, payload, 0)
    case None => None
    case Some((vs, consumed)) =>
      Some((ListValue(vs), if IsStatic(t) then consumed else ReportedConsumption(mode, t, nextElementPointer)))
  }

  /**
   * An array. A dynamic-size one reads its element count from the first
   * payload word; with static elements it checks that they all fit, then
   * decodes them from sub-cursor 32 of the payload, with dynamic elements
   * it decodes them from sub-cursor 0 of the payload past that word; either
   * way it keeps what it decoded before the first element that fails. A
   * static-size array decodes its elements from sub-cursor 0, all or nothing.
   */
  function DecodeArray(mode: Mode, t: ParamType, payload: seq<byte>, nextElementPointer: nat): (r: Option<(Value, nat)>)
    requires t.Array? && WellFormed(t)
    decreases t, 0, 0
  {
    var e := t.elementType;
    match ArraySizeOf(t)
    case DynamicSize =>
      if |payload| < 32 then None
      else
        var count := BeToNat(payload[..32]);
        if IsStatic(e) then
          if |payload| < 32 + MemoryUsage(e) * count then None
          else Some((ListValue(DecodeElements(mode, e, count, payload, 32).0), MemoryUsage(t)))
        else
          Some((ListValue(DecodeElements(mode, e, count, payload[32..], 0).0), ReportedConsumption(mode, t, nextElementPointer)))
    case StaticSize(staticLength) =>
      if t.length != staticLength then None
      else
        (match DecodeRepeat(mode, e, t.length, payload, 0)
         case None => None
         case Some((vs, consumed)) =>
           Some((ListValue(vs), if IsStatic(e) then consumed else ReportedConsumption(mode, t, nextElementPointer))))
    case NotArray => None
  }

  /** Values already decoded, put in front of what the rest of a loop yields. */
  function Prepend(prefix: seq<Value>, rest: Option<(seq<Value>, nat)>): Option<(seq<Value>, nat)>
  {
    match rest
    case None => None
    case Some((vs, end)) => Some((prefix + vs, end))
  }

  lemma PrependNothing(rest: Option<(seq<Value>, nat)>)
    ensures Prepend([], rest) == rest
  {
    if rest.Some? {
      assert [] + rest.value.0 == rest.value.0;
    }
  }

  lemma PrependTwice(prefix: seq<Value>, v: Value, rest: Option<(seq<Value>, nat)>)
    ensures Prepend(prefix, Prepend([v], rest)) == Prepend(prefix + [v], rest)
  {
    if rest.Some? {
      assert prefix + ([v] + rest.value.0) == prefix + [v] + rest.value.0;
    }
  }

  /**
   * The member loop of tuples (and of decode(types:data:)): decode each
   * type in turn, advancing the cursor by what each one reports; any
   * failure fails the whole. Yields the values and the final cursor.
   */
  function DecodeMembers(mode: Mode, ts: seq<ParamType>, data: seq<byte>, cursor: nat): (r: Option<(seq<Value>, nat)>)
    requires AllWellFormed(ts)
    decreases ts, 1, 0
  {
    if |ts| == 0 then Some(([], cursor))
    else
      match DecodeSingle(mode, ts[0], data, cursor)
      case None => None
      case Some((v, consumed)) => Prepend([v], DecodeMembers(mode, ts[1..], data, cursor + consumed))
  }

  /** The element loop of static-size arrays: `count` elements, all or nothing. */
  function DecodeRepeat(mode: Mode, e: ParamType, count: nat, data: seq<byte>, cursor: nat): (r: Option<(seq<Value>, nat)>)
    requires WellFormed(e)
    decreases e, 1, count
  {
    if count == 0 then Some(([], cursor))
    else
      match DecodeSingle(mode, e, data, cursor)
      case None => None
      case Some((v, consumed)) =>
        Prepend([v], DecodeRepeat(mode, e, count - 1, data, cursor + consumed))
  }

  /**
   * The element loop of dynamic-size arrays: up to `count` elements,
   * stopping (the source's `break`) at the first element that fails.
   * Yields the elements decoded so far and the cursor after them.
   */
  function DecodeElements(mode: Mode, e: ParamType, count: nat, data: seq<byte>, cursor: nat): (r: (seq<Value>, nat))
    requires WellFormed(e)
    decreases e, 1, count
  {
    if count == 0 then ([], cursor)
    else
      match DecodeSingle(mode, e, data, cursor)
      case None => ([], cursor)
      case Some((v, consumed)) =>
        var rest := DecodeElements(mode, e, count - 1, data, cursor + consumed);
        ([v] + rest.0, rest.1)
  }

  /** The members already decoded, put in front of what the rest of the member loop yields. */
  function MembersAfter(mode: Mode, prefix: seq<Value>, ts: seq<ParamType>, data: seq<byte>, cursor: nat): Option<(seq<Value>, nat)>
    requires AllWellFormed(ts)
  {
    Prepend(prefix, DecodeMembers(mode, ts, data, cursor))
  }

  lemma MembersStart(mode: Mode, ts: seq<ParamType>, data: seq<byte>, cursor: nat)
    requires AllWellFormed(ts)
    ensures MembersAfter(mode, [], ts, data, cursor) == DecodeMembers(mode, ts, data, cursor)
  {
    PrependNothing(DecodeMembers(mode, ts, data, cursor));
  }

  /** One turn of the member loop, with the member decoded. */
  lemma MembersStep(mode: Mode, prefix: seq<Value>, ts: seq<ParamType>, rest: seq<ParamType>, data: seq<byte>, cursor: nat, v: Value, consumed: nat)
    requires AllWellFormed(ts) && |ts| > 0 && rest == ts[1..]
    requires DecodeSingle(mode, ts[0], data, cursor) == Some((v, consumed))
    ensures MembersAfter(mode, prefix, ts, data, cursor) == MembersAfter(mode, prefix + [v], rest, data, cursor + consumed)
  {
    PrependTwice(prefix, v, DecodeMembers(mode, rest, data, cursor + consumed));
  }

  /** A member that fails fails the whole loop. */
  lemma MembersFail(mode: Mode, prefix: seq<Value>, ts: seq<ParamType>, data: seq<byte>, cursor: nat)
    requires AllWellFormed(ts) && |ts| > 0
    requires DecodeSingle(mode, ts[0], data, cursor).None?
    ensures MembersAfter(mode, prefix, ts, data, cursor) == None
  {
  }

  lemma MembersDone(mode: Mode, prefix: seq<Value>, data: seq<byte>, cursor: nat)
    ensures MembersAfter(mode, prefix, [], data, cursor) == Some((prefix, cursor))
  {
    assert prefix + [] == prefix;
  }

  /** The elements already decoded, put in front of what the rest of a static-size array's loop yields. */
  function RepeatAfter(mode: Mode, prefix: seq<Value>, e: ParamType, count: nat, data: seq<byte>, cursor: nat): Option<(seq<Value>, nat)>
    requires WellFormed(e)
  {
    Prepend(prefix, DecodeRepeat(mode, e, count, data, cursor))
  }

  lemma RepeatStart(mode: Mode, e: ParamType, count: nat, data: seq<byte>, cursor: nat)
    requires WellFormed(e)
    ensures RepeatAfter(mode, [], e, count, data, cursor) == DecodeRepeat(mode, e, count, data, cursor)
  {
    PrependNothing(DecodeRepeat(mode, e, count, data, cursor));
  }

  /** One turn of the element loop of a static-size array, with the element decoded. */
  lemma RepeatStep(mode: Mode, prefix: seq<Value>, e: ParamType, count: nat, left: nat, data: seq<byte>, cursor: nat, v: Value, consumed: nat)
    requires WellFormed(e) && count == left + 1
    requires DecodeSingle(mode, e, data, cursor) == Some((v, consumed))
    ensures RepeatAfter(mode, prefix, e, count, data, cursor) == RepeatAfter(mode, prefix + [v], e, left, data, cursor + consumed)
  {
    PrependTwice(prefix, v, DecodeRepeat(mode, e, left, data, cursor + consumed));
  }

  /** An element that fails fails the whole static-size array. */
  lemma RepeatFail(mode: Mode, prefix: seq<Value>, e: ParamType, count: nat, data: seq<byte>, cursor: nat)
    requires WellFormed(e) && count > 0
    requires DecodeSingle(mode, e, data, cursor).None?
    ensures RepeatAfter(mode, prefix, e, count, data, cursor) == None
  {
  }

  lemma RepeatDone(mode: Mode, prefix: seq<Value>, e: ParamType, data: seq<byte>, cursor: nat)
    requires WellFormed(e)
    ensures RepeatAfter(mode, prefix, e, 0, data, cursor) == Some((prefix, cursor))
  {
    assert prefix + [] == prefix;
  }

  /** The elements already decoded followed by those the rest of the loop decodes. */
  function ElementsAfter(mode: Mode, prefix: seq<Value>, e: ParamType, count: nat, data: seq<byte>, cursor: nat): seq<Value>
    requires WellFormed(e)
  {
    prefix + DecodeElements(mode, e, count, data, cursor).0
  }

  /** One turn of the element loop of a dynamic-size array, with an element decoded. */
  lemma ElementsStep(mode: Mode, prefix: seq<Value>, e: ParamType, count: nat, left: nat, data: seq<byte>, cursor: nat, v: Value, consumed: nat)
    requires WellFormed(e) && count == left + 1
    requires DecodeSingle(mode, e, data, cursor) == Some((v, consumed))
    ensures ElementsAfter(mode, prefix, e, count, data, cursor) ==
            ElementsAfter(mode, prefix + [v], e, left, data, cursor + consumed)
  {
    var rest := DecodeElements(mode, e, left, data, cursor + consumed).0;
    assert prefix + ([v] + rest) == prefix + [v] + rest;
  }

  /** The member loop with its first member decoded. */
  lemma MembersUnfold(mode: Mode, ts: seq<ParamType>, data: seq<byte>, cursor: nat, v: Value, consumed: nat)
    requires AllWellFormed(ts) && |ts| > 0
    requires DecodeSingle(mode, ts[0], data, cursor) == Some((v, consumed))
    ensures DecodeMembers(mode, ts, data, cursor) == Prepend([v], DecodeMembers(mode, ts[1..], data, cursor + consumed))
  {
  }

  /** The element loop of a static-size array with its first element decoded. */
  lemma RepeatUnfold(mode: Mode, e: ParamType, count: nat, data: seq<byte>, cursor: nat, v: Value, consumed: nat)
    requires WellFormed(e) && count > 0
    requires DecodeSingle(mode, e, data, cursor) == Some((v, consumed))
    ensures DecodeRepeat(mode, e, count, data, cursor) == Prepend([v], DecodeRepeat(mode, e, count - 1, data, cursor + consumed))
  {
  }

  /** The element loop stops, with nothing decoded, when its first element fails. */
  lemma ElementsNone(mode: Mode, e: ParamType, count: nat, data: seq<byte>, cursor: nat)
    requires WellFormed(e) && count > 0
    requires DecodeSingle(mode, e, data, cursor).None?
    ensures DecodeElements(mode, e, count, data, cursor) == ([], cursor)
  {
  }

  /** The element loop of a static-size array fails when its first element fails. */
  lemma RepeatNone(mode: Mode, e: ParamType, count: nat, data: seq<byte>, cursor: nat)
    requires WellFormed(e) && count > 0
    requires DecodeSingle(mode, e, data, cursor).None?
    ensures DecodeRepeat(mode, e, count, data, cursor) == None
  {
  }

  /** The element loop with its first element decoded. */
  lemma ElementsUnfold(mode: Mode, e: ParamType, count: nat, data: seq<byte>, cursor: nat, v: Value, consumed: nat)
    requires WellFormed(e) && count > 0
    requires DecodeSingle(mode, e, data, cursor) == Some((v, consumed))
    ensures var rest := DecodeElements(mode, e, count - 1, data, cursor + consumed);
      DecodeElements(mode, e, count, data, cursor) == ([v] + rest.0, rest.1)
  {
  }

  /** The loop leaves at the first element that fails, with nothing more. */
  lemma ElementsStop(mode: Mode, prefix: seq<Value>, e: ParamType, count: nat, data: seq<byte>, cursor: nat)
    requires WellFormed(e)
    requires count == 0 || DecodeSingle(mode, e, data, cursor).None?
    ensures ElementsAfter(mode, prefix, e, count, data, cursor) == prefix
  {
    assert prefix + [] == prefix;
  }

  /** decode(types:data:): the member loop from cursor 0, then the count check. */
  function DecodeTypes(mode: Mode, types: seq<ParamType>, data: seq<byte>): (r: Option<seq<Value>>)
    requires AllWellFormed(types)
    ensures r.Some? ==> |r.value| == |types|
  {
    match DecodeMembers(mode, types, data, 0)
    case None => None
    case Some((vs, _)) => if |vs| == |types| then Some(vs) else None
  }
}
