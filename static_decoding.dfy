/**
 * Static values decode wherever their head fits. A static value is read in
 * place from its head slot, and apart from `bool`, whose word must be 0 or
 * 1, no branch of decodeSignleType can reject the bytes of a slot that is
 * there, so for bool-free static types decoding succeeds exactly when the
 * buffer holds the whole head.
 */
module StaticDecoding {
  import opened Wrappers
  import opened Primitives
  import opened AbiTypes
  import opened DecodingSpec
  import opened DecodingProperties
  import opened ElementLoops

  lemma AllBoolFreeTail(ts: seq<ParamType>)
    requires |ts| > 0 && AllBoolFree(ts)
    ensures BoolFree(ts[0]) && AllBoolFree(ts[1..])
  {
    forall i | 0 <= i < |ts[1..]|
      ensures BoolFree(ts[1..][i])
    {
      assert ts[1..][i] == ts[i + 1];
    }
  }

  /** The member loop fails as soon as its first member fails. */
  lemma MembersHeadFails(mode: Mode, ts: seq<ParamType>, data: seq<byte>, cursor: nat)
    requires AllWellFormed(ts) && |ts| > 0 && DecodeSingle(mode, ts[0], data, cursor).None?
    ensures DecodeMembers(mode, ts, data, cursor).None?
  {
  }

  /** A bool-free static value decodes exactly when its head slot lies inside the buffer. */
  lemma {:induction false} SingleTotal(mode: Mode, t: ParamType, data: seq<byte>, pointer: nat)
    requires WellFormed(t) && IsStatic(t) && BoolFree(t)
    ensures DecodeSingle(mode, t, data, pointer).Some? <==> pointer + MemoryUsage(t) <= |data|
    decreases t, 0, 2
  {
    if pointer + MemoryUsage(t) <= |data| {
      var payload := data[pointer..pointer + MemoryUsage(t)];
      assert FollowTheData(t, data, pointer) == Some((payload, pointer + MemoryUsage(t)));
      PayloadTotal(mode, t, payload, pointer + MemoryUsage(t));
    }
  }

  lemma {:induction false} PayloadTotal(mode: Mode, t: ParamType, payload: seq<byte>, next: nat)
    requires WellFormed(t) && IsStatic(t) && BoolFree(t) && MemoryUsage(t) <= |payload|
    ensures DecodePayload(mode, t, payload, next).Some?
    decreases t, 0, 1
  {
    match t
    case Tuple(_) => TupleTotal(mode, t, payload, next);
    case Array(_, _) => ArrayTotal(mode, t, payload, next);
    case _ =>
  }

  lemma {:induction false} TupleTotal(mode: Mode, t: ParamType, payload: seq<byte>, next: nat)
    requires t.Tuple? && WellFormed(t) && IsStatic(t) && BoolFree(t) && MemoryUsage(t) <= |payload|
    ensures DecodeTuple(mode, t, payload, next).Some?
    decreases t, 0, 0
  {
    MembersTotal(mode, t.types, payload, 0);
  }

  lemma {:induction false} ArrayTotal(mode: Mode, t: ParamType, payload: seq<byte>, next: nat)
    requires t.Array? && WellFormed(t) && IsStatic(t) && BoolFree(t) && MemoryUsage(t) <= |payload|
    ensures DecodeArray(mode, t, payload, next).Some?
    decreases t, 0, 0
  {
    RepeatTotal(mode, t.elementType, t.length, payload, 0);
  }

  /** The member loop over bool-free static types succeeds exactly when all their heads fit. */
  lemma {:induction false} MembersTotal(mode: Mode, ts: seq<ParamType>, data: seq<byte>, cursor: nat)
    requires AllWellFormed(ts) && AllStatic(ts) && AllBoolFree(ts)
    ensures DecodeMembers(mode, ts, data, cursor).Some? <==> (|ts| == 0 || cursor + SumMemoryUsage(ts) <= |data|)
    decreases ts, 1, 0
  {
    if |ts| > 0 {
      AllWellFormedTail(ts);
      AllStaticTail(ts);
      AllBoolFreeTail(ts);
      var next := cursor + MemoryUsage(ts[0]);
      SingleTotal(mode, ts[0], data, cursor);
      MembersTotal(mode, ts[1..], data, next);
      var d := DecodeSingle(mode, ts[0], data, cursor);
      if d.Some? {
        SomePair(d);
        SingleShape(mode, ts[0], data, cursor, d.value.0, d.value.1);
        MembersUnfold(mode, ts, data, cursor, d.value.0, d.value.1);
      } else {
        MembersHeadFails(mode, ts, data, cursor);
      }
    }
  }

  /** The element loop of a static-size array of bool-free static elements succeeds exactly when they all fit. */
  lemma {:induction false} RepeatTotal(mode: Mode, e: ParamType, count: nat, data: seq<byte>, cursor: nat)
    requires WellFormed(e) && IsStatic(e) && BoolFree(e)
    ensures DecodeRepeat(mode, e, count, data, cursor).Some? <==> (count == 0 || cursor + count * MemoryUsage(e) <= |data|)
    decreases e, 1, count
  {
    if count > 0 {
      var next := cursor + MemoryUsage(e);
      MulPred(count, MemoryUsage(e));
      SingleTotal(mode, e, data, cursor);
      RepeatTotal(mode, e, count - 1, data, next);
      var d := DecodeSingle(mode, e, data, cursor);
      if d.Some? {
        SomePair(d);
        SingleShape(mode, e, data, cursor, d.value.0, d.value.1);
        RepeatUnfold(mode, e, count, data, cursor, d.value.0, d.value.1);
      } else {
        RepeatNone(mode, e, count, data, cursor);
      }
    }
  }

  /**
   * A dynamic-size array of bool-free static elements that passes the
   * source's fit check keeps every one of its `count` elements.
   */
  lemma ElementsTotal(mode: Mode, e: ParamType, count: nat, data: seq<byte>, cursor: nat)
    requires WellFormed(e) && IsStatic(e) && BoolFree(e) && cursor + MemoryUsage(e) * count <= |data|
    ensures |DecodeElements(mode, e, count, data, cursor).0| == count
  {
    RepeatTotal(mode, e, count, data, cursor);
    RepeatIsFullElements(mode, e, count, data, cursor);
  }

  /**
   * A dynamic-size array of bool-free static elements: it decodes exactly
   * when the payload holds the count word and that many element heads after
   * it, and then it holds exactly that many elements and reports its 32-byte
   * head slot as consumed.
   */
  lemma DynamicArrayOfStatic(mode: Mode, t: ParamType, payload: seq<byte>, next: nat)
    requires t.Array? && t.length == 0 && WellFormed(t) && IsStatic(t.elementType) && BoolFree(t.elementType)
    ensures var r := DecodeArray(mode, t, payload, next);
      (r.Some? <==> |payload| >= 32 && 32 + MemoryUsage(t.elementType) * BeToNat(payload[..32]) <= |payload|) &&
      (r.Some? ==> |payload| >= 32 && r.value.0.ListValue? &&
                   |r.value.0.items| == BeToNat(payload[..32]) && r.value.1 == 32)
  {
    if |payload| >= 32 {
      var count := BeToNat(payload[..32]);
      if 32 + MemoryUsage(t.elementType) * count <= |payload| {
        ElementsTotal(mode, t.elementType, count, payload, 32);
      }
    }
  }

  /** decode(types:data:) over bool-free static types succeeds exactly when the data holds all their heads. */
  lemma DecodeTypesTotal(mode: Mode, types: seq<ParamType>, data: seq<byte>)
    requires AllWellFormed(types) && AllStatic(types) && AllBoolFree(types)
    ensures DecodeTypes(mode, types, data).Some? <==> SumMemoryUsage(types) <= |data|
  {
    MembersTotal(mode, types, data, 0);
    var r := DecodeMembers(mode, types, data, 0);
    if r.Some? {
      SomePair(r);
      MembersShape(mode, types, data, 0, r.value.0, r.value.1);
    }
  }
}
