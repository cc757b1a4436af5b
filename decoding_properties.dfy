/**
 * What the decoder promises, proved about the functions of DecodingSpec:
 * the shape of every value it yields and the bytes it reports as consumed,
 * and the layout of decode(types:data:) as a sequence of cursors, one per
 * head slot, each moved on by what the value before it reports.
 */
module DecodingProperties {
  import opened Wrappers
  import opened Primitives
  import opened AbiTypes
  import opened DecodingSpec

  /* ---------- Shape and consumption ---------- */

  /**
   * A value decodeSignleType yields conforms to its type, and a static
   * value reports exactly its head size as consumed.
   */
  lemma {:induction false} SingleShape(mode: Mode, t: ParamType, data: seq<byte>, pointer: nat, v: Value, consumed: nat)
    requires WellFormed(t) && DecodeSingle(mode, t, data, pointer) == Some((v, consumed))
    ensures Conforms(t, v)
    ensures IsStatic(t) ==> consumed == MemoryUsage(t)
    decreases t, 0, 2, 0
  {
    var (payload, next) := FollowTheData(t, data, pointer).value;
    PayloadShape(mode, t, payload, next, v, consumed);
  }

  lemma {:induction false} PayloadShape(mode: Mode, t: ParamType, payload: seq<byte>, next: nat, v: Value, consumed: nat)
    requires WellFormed(t) && DecodePayload(mode, t, payload, next) == Some((v, consumed))
    ensures Conforms(t, v)
    ensures IsStatic(t) ==> consumed == MemoryUsage(t)
    decreases t, 0, 1, 0
  {
    if t.Tuple? {
      TupleShape(mode, t, payload, next, v, consumed);
    } else if t.Array? {
      ArrayShape(mode, t, payload, next, v, consumed);
    }
  }

  lemma {:induction false} TupleShape(mode: Mode, t: ParamType, payload: seq<byte>, next: nat, v: Value, consumed: nat)
    requires t.Tuple? && WellFormed(t) && DecodeTuple(mode, t, payload, next) == Some((v, consumed))
    ensures Conforms(t, v)
    ensures IsStatic(t) ==> consumed == MemoryUsage(t)
    decreases t, 0, 0, 0
  {
    SomePair(DecodeMembers(mode, t.types, payload, 0));
    var (vs, end) := DecodeMembers(mode, t.types, payload, 0).value;
    MembersShape(mode, t.types, payload, 0, vs, end);
    MembersConformIndex(t.types, vs);
  }

  lemma {:induction false} ArrayShape(mode: Mode, t: ParamType, payload: seq<byte>, next: nat, v: Value, consumed: nat)
    requires t.Array? && WellFormed(t) && DecodeArray(mode, t, payload, next) == Some((v, consumed))
    ensures Conforms(t, v)
    ensures IsStatic(t) ==> consumed == MemoryUsage(t)
    decreases t, 0, 0, 0
  {
    var e := t.elementType;
    if t.length == 0 {
      var count := BeToNat(payload[..32]);
      if IsStatic(e) {
        var vs := DecodeElements(mode, e, count, payload, 32).0;
        ElementsShape(mode, e, count, payload, 32, vs);
        AllConformIndex(e, vs);
      } else {
        var vs := DecodeElements(mode, e, count, payload[32..], 0).0;
        ElementsShape(mode, e, count, payload[32..], 0, vs);
        AllConformIndex(e, vs);
      }
    } else {
      SomePair(DecodeRepeat(mode, e, t.length, payload, 0));
      var (vs, end) := DecodeRepeat(mode, e, t.length, payload, 0).value;
      RepeatShape(mode, e, t.length, payload, 0, vs, end);
      AllConformIndex(e, vs);
      if IsStatic(e) {
        RepeatEnd(mode, e, t.length, payload, 0, vs, end);
      }
    }
  }

  /** The member loop yields one conforming value per type and, over static types, ends past all their heads. */
  lemma {:induction false} MembersShape(mode: Mode, ts: seq<ParamType>, data: seq<byte>, cursor: nat, vs: seq<Value>, end: nat)
    requires AllWellFormed(ts) && DecodeMembers(mode, ts, data, cursor) == Some((vs, end))
    ensures |vs| == |ts| && MembersConform(ts, vs)
    ensures AllStatic(ts) ==> end == cursor + SumMemoryUsage(ts)
    decreases ts, 1, 0, 1
  {
    if |ts| > 0 {
      var consumed := MembersHeadShape(mode, ts, data, cursor, vs, end);
      MembersShape(mode, ts[1..], data, cursor + consumed, vs[1..], end);
      if AllStatic(ts) {
        AllStaticTail(ts);
      }
    }
  }

  /** A successful member loop: its first member decoded at the cursor, then the loop over the rest. */
  lemma MembersHead(mode: Mode, ts: seq<ParamType>, data: seq<byte>, cursor: nat, vs: seq<Value>, end: nat)
    returns (consumed: nat)
    requires AllWellFormed(ts) && |ts| > 0 && DecodeMembers(mode, ts, data, cursor) == Some((vs, end))
    ensures |vs| > 0 && AllWellFormed(ts[1..])
    ensures DecodeSingle(mode, ts[0], data, cursor) == Some((vs[0], consumed))
    ensures DecodeMembers(mode, ts[1..], data, cursor + consumed) == Some((vs[1..], end))
  {
    AllWellFormedTail(ts);
    SomePair(DecodeSingle(mode, ts[0], data, cursor));
    var step := DecodeSingle(mode, ts[0], data, cursor).value;
    consumed := step.1;
    var rest := DecodeMembers(mode, ts[1..], data, cursor + consumed).value;
    assert vs == [step.0] + rest.0;
    assert vs[1..] == rest.0;
  }

  /** The first member of a successful member loop has the shape of its type. */
  lemma {:induction false} MembersHeadShape(mode: Mode, ts: seq<ParamType>, data: seq<byte>, cursor: nat, vs: seq<Value>, end: nat)
    returns (consumed: nat)
    requires AllWellFormed(ts) && |ts| > 0 && DecodeMembers(mode, ts, data, cursor) == Some((vs, end))
    ensures |vs| > 0 && AllWellFormed(ts[1..])
    ensures Conforms(ts[0], vs[0]) && (IsStatic(ts[0]) ==> consumed == MemoryUsage(ts[0]))
    ensures DecodeMembers(mode, ts[1..], data, cursor + consumed) == Some((vs[1..], end))
    decreases ts, 1, 0, 0
  {
    consumed := MembersHead(mode, ts, data, cursor, vs, end);
    SingleShape(mode, ts[0], data, cursor, vs[0], consumed);
  }

  /** Values conforming, one by one, to a list of types. */
  predicate MembersConform(ts: seq<ParamType>, vs: seq<Value>) {
    |vs| == |ts| && (|ts| == 0 || (Conforms(ts[0], vs[0]) && MembersConform(ts[1..], vs[1..])))
  }

  lemma {:induction false} MembersConformIndex(ts: seq<ParamType>, vs: seq<Value>)
    requires MembersConform(ts, vs)
    ensures |vs| == |ts| && forall i | 0 <= i < |ts| :: Conforms(ts[i], vs[i])
  {
    if |ts| > 0 {
      MembersConformIndex(ts[1..], vs[1..]);
      forall i | 0 < i < |ts|
        ensures Conforms(ts[i], vs[i])
      {
        assert ts[i] == ts[1..][i - 1] && vs[i] == vs[1..][i - 1];
      }
    }
  }

  lemma AllStaticTail(ts: seq<ParamType>)
    requires |ts| > 0 && AllStatic(ts)
    ensures IsStatic(ts[0]) && AllStatic(ts[1..])
  {
    forall i | 0 <= i < |ts[1..]|
      ensures IsStatic(ts[1..][i])
    {
      assert ts[1..][i] == ts[i + 1];
    }
  }

  /** The element loop of a static-size array yields `count` conforming values. */
  lemma {:induction false} RepeatShape(mode: Mode, e: ParamType, count: nat, data: seq<byte>, cursor: nat, vs: seq<Value>, end: nat)
    requires WellFormed(e) && DecodeRepeat(mode, e, count, data, cursor) == Some((vs, end))
    ensures |vs| == count && AllConform(e, vs)
    decreases e, 1, count, 1
  {
    if count > 0 {
      var consumed := RepeatHeadShape(mode, e, count, data, cursor, vs, end);
      RepeatShape(mode, e, count - 1, data, cursor + consumed, vs[1..], end);
    }
  }

  /** Over a static element type, the element loop of a static-size array ends `count` heads further on. */
  lemma {:induction false} RepeatEnd(mode: Mode, e: ParamType, count: nat, data: seq<byte>, cursor: nat, vs: seq<Value>, end: nat)
    requires WellFormed(e) && IsStatic(e) && DecodeRepeat(mode, e, count, data, cursor) == Some((vs, end))
    ensures end == cursor + count * MemoryUsage(e)
    decreases e, 1, count, 1
  {
    if count > 0 {
      var consumed := RepeatHeadShape(mode, e, count, data, cursor, vs, end);
      RepeatEnd(mode, e, count - 1, data, cursor + consumed, vs[1..], end);
      MulPred(count, MemoryUsage(e));
    }
  }

  /** A successful static-size element loop: its first element decoded at the cursor, then the loop over the rest. */
  lemma RepeatHead(mode: Mode, e: ParamType, count: nat, data: seq<byte>, cursor: nat, vs: seq<Value>, end: nat)
    returns (consumed: nat)
    requires WellFormed(e) && count > 0 && DecodeRepeat(mode, e, count, data, cursor) == Some((vs, end))
    ensures |vs| > 0
    ensures DecodeSingle(mode, e, data, cursor) == Some((vs[0], consumed))
    ensures DecodeRepeat(mode, e, count - 1, data, cursor + consumed) == Some((vs[1..], end))
  {
    SomePair(DecodeSingle(mode, e, data, cursor));
    var step := DecodeSingle(mode, e, data, cursor).value;
    consumed := step.1;
    var rest := DecodeRepeat(mode, e, count - 1, data, cursor + consumed).value;
    assert vs == [step.0] + rest.0;
    assert vs[1..] == rest.0;
  }

  /** The first element of a successful static-size element loop has the shape of its type. */
  lemma {:induction false} RepeatHeadShape(mode: Mode, e: ParamType, count: nat, data: seq<byte>, cursor: nat, vs: seq<Value>, end: nat)
    returns (consumed: nat)
    requires WellFormed(e) && count > 0 && DecodeRepeat(mode, e, count, data, cursor) == Some((vs, end))
    ensures |vs| > 0
    ensures Conforms(e, vs[0]) && (IsStatic(e) ==> consumed == MemoryUsage(e))
    ensures DecodeRepeat(mode, e, count - 1, data, cursor + consumed) == Some((vs[1..], end))
    decreases e, 1, count, 0
  {
    consumed := RepeatHead(mode, e, count, data, cursor, vs, end);
    SingleShape(mode, e, data, cursor, vs[0], consumed);
  }

  /** Values that all conform to one element type. */
  predicate AllConform(e: ParamType, vs: seq<Value>) {
    |vs| == 0 || (Conforms(e, vs[0]) && AllConform(e, vs[1..]))
  }

  lemma {:induction false} AllConformIndex(e: ParamType, vs: seq<Value>)
    requires AllConform(e, vs)
    ensures forall i | 0 <= i < |vs| :: Conforms(e, vs[i])
  {
    if |vs| > 0 {
      AllConformIndex(e, vs[1..]);
      forall i | 0 < i < |vs|
        ensures Conforms(e, vs[i])
      {
        assert vs[i] == vs[1..][i - 1];
      }
    }
  }

  lemma MulPred(n: nat, m: nat)
    requires n > 0
    ensures n * m == (n - 1) * m + m
  {
  }

  /** The element loop of a dynamic-size array yields at most `count` values, each conforming. */
  lemma {:induction false} ElementsShape(mode: Mode, e: ParamType, count: nat, data: seq<byte>, cursor: nat, vs: seq<Value>)
    requires WellFormed(e) && DecodeElements(mode, e, count, data, cursor).0 == vs
    ensures AtMostConforming(e, count, vs)
    decreases e, 1, count, 1
  {
    if |vs| > 0 {
      var consumed := ElementsHeadShape(mode, e, count, data, cursor, vs);
      ElementsShape(mode, e, count - 1, data, cursor + consumed, vs[1..]);
      ConformStep(e, count, vs);
    }
  }

  /** At most `count` values, each conforming to e. */
  predicate AtMostConforming(e: ParamType, count: nat, vs: seq<Value>) {
    |vs| <= count && AllConform(e, vs)
  }

  /** One conforming value in front of at most count - 1 conforming values. */
  lemma ConformStep(e: ParamType, count: nat, vs: seq<Value>)
    requires count > 0 && |vs| > 0 && Conforms(e, vs[0])
    requires AtMostConforming(e, count - 1, vs[1..])
    ensures AtMostConforming(e, count, vs)
  {
  }

  /** A dynamic-size element loop that decoded something: its first element, then the loop over the rest. */
  lemma ElementsHead(mode: Mode, e: ParamType, count: nat, data: seq<byte>, cursor: nat, vs: seq<Value>)
    returns (consumed: nat)
    requires WellFormed(e) && DecodeElements(mode, e, count, data, cursor).0 == vs && |vs| > 0
    ensures count > 0
    ensures DecodeSingle(mode, e, data, cursor) == Some((vs[0], consumed))
    ensures DecodeElements(mode, e, count - 1, data, cursor + consumed).0 == vs[1..]
  {
    SomePair(DecodeSingle(mode, e, data, cursor));
    var step := DecodeSingle(mode, e, data, cursor).value;
    consumed := step.1;
    var rest := DecodeElements(mode, e, count - 1, data, cursor + consumed);
    assert vs == [step.0] + rest.0;
    assert vs[1..] == rest.0;
  }

  /** The first element a dynamic-size element loop decoded has the shape of its type. */
  lemma {:induction false} ElementsHeadShape(mode: Mode, e: ParamType, count: nat, data: seq<byte>, cursor: nat, vs: seq<Value>)
    returns (consumed: nat)
    requires WellFormed(e) && DecodeElements(mode, e, count, data, cursor).0 == vs && |vs| > 0
    ensures count > 0 && Conforms(e, vs[0])
    ensures DecodeElements(mode, e, count - 1, data, cursor + consumed).0 == vs[1..]
    decreases e, 1, count, 0
  {
    consumed := ElementsHead(mode, e, count, data, cursor, vs);
    SingleShape(mode, e, data, cursor, vs[0], consumed);
  }

  /* ---------- decode(types:data:): the layout of the values ---------- */

  /**
   * The cursor each member's head is read at: 0 for the first, then the
   * previous cursor plus what the previous member reported as consumed.
   * Past a member that fails the cursor no longer moves.
   */
  function MembersCursors(mode: Mode, ts: seq<ParamType>, data: seq<byte>, cursor: nat): (cs: seq<nat>)
    requires AllWellFormed(ts)
    ensures |cs| == |ts| + 1 && cs[0] == cursor
  {
    if |ts| == 0 then [cursor]
    else
      match DecodeSingle(mode, ts[0], data, cursor)
      case None => [cursor] + MembersCursors(mode, ts[1..], data, cursor)
      case Some((_, consumed)) => [cursor] + MembersCursors(mode, ts[1..], data, cursor + consumed)
  }

  /**
   * vs are the values of ts laid out at cursors cs: member i decodes at
   * cs[i] to vs[i] and reports cs[i + 1] - cs[i] as consumed.
   */
  predicate Layout(mode: Mode, ts: seq<ParamType>, data: seq<byte>, vs: seq<Value>, cs: seq<nat>)
    requires AllWellFormed(ts)
  {
    |vs| == |ts| && |cs| == |ts| + 1 &&
    forall i | 0 <= i < |ts| ::
      DecodeSingle(mode, ts[i], data, cs[i]).Some? &&
      DecodeSingle(mode, ts[i], data, cs[i]).value.0 == vs[i] &&
      cs[i + 1] == cs[i] + DecodeSingle(mode, ts[i], data, cs[i]).value.1
  }

  lemma AllWellFormedTail(ts: seq<ParamType>)
    requires |ts| > 0 && AllWellFormed(ts)
    ensures WellFormed(ts[0]) && AllWellFormed(ts[1..])
  {
    forall i | 0 <= i < |ts[1..]|
      ensures WellFormed(ts[1..][i])
    {
      assert ts[1..][i] == ts[i + 1];
    }
  }

  /** A layout with its first member taken off is a layout of the rest. */
  lemma LayoutTail(mode: Mode, ts: seq<ParamType>, data: seq<byte>, vs: seq<Value>, cs: seq<nat>)
    requires AllWellFormed(ts) && |ts| > 0 && Layout(mode, ts, data, vs, cs)
    ensures AllWellFormed(ts[1..]) && Layout(mode, ts[1..], data, vs[1..], cs[1..])
  {
    AllWellFormedTail(ts);
    forall i | 0 <= i < |ts| - 1
      ensures DecodeSingle(mode, ts[1..][i], data, cs[1..][i]).Some? &&
              DecodeSingle(mode, ts[1..][i], data, cs[1..][i]).value.0 == vs[1..][i] &&
              cs[1..][i + 1] == cs[1..][i] + DecodeSingle(mode, ts[1..][i], data, cs[1..][i]).value.1
    {
      assert ts[1..][i] == ts[i + 1] && cs[1..][i] == cs[i + 1] && cs[1..][i + 1] == cs[i + 2];
    }
  }

  /** A layout with one more member put in front. */
  lemma LayoutCons(mode: Mode, ts: seq<ParamType>, data: seq<byte>, cursor: nat, v: Value, consumed: nat, vs: seq<Value>, cs: seq<nat>)
    requires AllWellFormed(ts) && |ts| > 0 && |cs| > 0 && cs[0] == cursor + consumed
    requires DecodeSingle(mode, ts[0], data, cursor) == Some((v, consumed))
    requires Layout(mode, ts[1..], data, vs, cs)
    ensures Layout(mode, ts, data, [v] + vs, [cursor] + cs)
  {
    var cs' := [cursor] + cs;
    var vs' := [v] + vs;
    forall i | 0 <= i < |ts|
      ensures DecodeSingle(mode, ts[i], data, cs'[i]).Some? &&
              DecodeSingle(mode, ts[i], data, cs'[i]).value.0 == vs'[i] &&
              cs'[i + 1] == cs'[i] + DecodeSingle(mode, ts[i], data, cs'[i]).value.1
    {
      if i > 0 {
        assert ts[i] == ts[1..][i - 1] && cs'[i] == cs[i - 1] && cs'[i + 1] == cs[i] && vs'[i] == vs[i - 1];
      }
    }
  }

  /** The cursors past a member that decodes: its cursor, then those of the rest. */
  lemma CursorsUnfold(mode: Mode, ts: seq<ParamType>, data: seq<byte>, cursor: nat, v: Value, consumed: nat)
    requires AllWellFormed(ts) && |ts| > 0
    requires DecodeSingle(mode, ts[0], data, cursor) == Some((v, consumed))
    ensures MembersCursors(mode, ts, data, cursor) == [cursor] + MembersCursors(mode, ts[1..], data, cursor + consumed)
  {
  }

  /** A successful member loop lays its values out at the cursors it visits. */
  lemma {:induction false} MembersLayout(mode: Mode, ts: seq<ParamType>, data: seq<byte>, cursor: nat, vs: seq<Value>, end: nat)
    requires AllWellFormed(ts) && DecodeMembers(mode, ts, data, cursor) == Some((vs, end))
    ensures Layout(mode, ts, data, vs, MembersCursors(mode, ts, data, cursor))
    ensures end == MembersCursors(mode, ts, data, cursor)[|ts|]
  {
    if |ts| > 0 {
      var consumed := MembersHead(mode, ts, data, cursor, vs, end);
      MembersLayout(mode, ts[1..], data, cursor + consumed, vs[1..], end);
      CursorsUnfold(mode, ts, data, cursor, vs[0], consumed);
      LayoutCons(mode, ts, data, cursor, vs[0], consumed, vs[1..], MembersCursors(mode, ts[1..], data, cursor + consumed));
      assert [vs[0]] + vs[1..] == vs;
    }
  }

  /** Values laid out from cs[0] are what the member loop yields from there. */
  lemma {:induction false} LayoutMembers(mode: Mode, ts: seq<ParamType>, data: seq<byte>, vs: seq<Value>, cs: seq<nat>)
    requires AllWellFormed(ts) && Layout(mode, ts, data, vs, cs)
    ensures DecodeMembers(mode, ts, data, cs[0]) == Some((vs, cs[|ts|]))
  {
    if |ts| > 0 {
      LayoutTail(mode, ts, data, vs, cs);
      LayoutMembers(mode, ts[1..], data, vs[1..], cs[1..]);
      SomePair(DecodeSingle(mode, ts[0], data, cs[0]));
      MembersUnfold(mode, ts, data, cs[0], vs[0], cs[1] - cs[0]);
      assert cs[1..][0] == cs[1] && cs[1..][|ts| - 1] == cs[|ts|];
      assert [vs[0]] + vs[1..] == vs;
    }
  }

  /**
   * decode(types:data:) succeeds with vs exactly when vs has one value per
   * type, value i decoding at 0 plus what values 0 ..< i reported consumed.
   */
  lemma DecodeTypesLayout(mode: Mode, types: seq<ParamType>, data: seq<byte>, vs: seq<Value>)
    requires AllWellFormed(types)
    ensures DecodeTypes(mode, types, data) == Some(vs) <==>
            exists cs :: Layout(mode, types, data, vs, cs) && cs[0] == 0
  {
    if DecodeTypes(mode, types, data) == Some(vs) {
      var r := DecodeMembers(mode, types, data, 0);
      SomePair(r);
      MembersLayout(mode, types, data, 0, r.value.0, r.value.1);
      var cs := MembersCursors(mode, types, data, 0);
      assert Layout(mode, types, data, vs, cs) && cs[0] == 0;
    }
    if exists cs :: Layout(mode, types, data, vs, cs) && cs[0] == 0 {
      var cs :| Layout(mode, types, data, vs, cs) && cs[0] == 0;
      LayoutMembers(mode, types, data, vs, cs);
    }
  }

  /** The member loop fails as soon as a member fails at its cursor, whatever follows. */
  lemma {:induction false} MembersFailAt(mode: Mode, ts: seq<ParamType>, data: seq<byte>, k: nat, vs: seq<Value>, cs: seq<nat>)
    requires AllWellFormed(ts) && k < |ts| && |cs| == k + 1
    requires Layout(mode, ts[..k], data, vs, cs)
    requires DecodeSingle(mode, ts[k], data, cs[k]).None?
    ensures DecodeMembers(mode, ts, data, cs[0]).None?
  {
    AllWellFormedTail(ts);
    if k > 0 {
      var head := ts[..k];
      assert head[0] == ts[0];
      assert DecodeSingle(mode, ts[0], data, cs[0]) == Some((vs[0], cs[1] - cs[0]));
      LayoutTail(mode, head, data, vs, cs);
      assert head[1..] == ts[1..][..k - 1];
      assert ts[1..][k - 1] == ts[k] && cs[1..][k - 1] == cs[k];
      MembersFailAt(mode, ts[1..], data, k - 1, vs[1..], cs[1..]);
      MembersUnfold(mode, ts, data, cs[0], vs[0], cs[1] - cs[0]);
    }
  }

  /** decode(types:data:) is nil when a value fails to decode after the ones before it succeeded. */
  lemma DecodeTypesFailsAt(mode: Mode, types: seq<ParamType>, data: seq<byte>, k: nat, vs: seq<Value>, cs: seq<nat>)
    requires AllWellFormed(types) && k < |types| && |cs| == k + 1 && cs[0] == 0
    requires Layout(mode, types[..k], data, vs, cs)
    requires DecodeSingle(mode, types[k], data, cs[k]).None?
    ensures DecodeTypes(mode, types, data) == None
  {
    MembersFailAt(mode, types, data, k, vs, cs);
  }
}
