/**
 * The bytes decodeSignleType reports as consumed, which every loop of the
 * decoder adds to its cursor to find the next head slot. Static values
 * report their head size; string, dynamicBytes and dynamic-size arrays of
 * static elements report 32, their head slot; a dynamic tuple and an array
 * of dynamic elements report the absolute position past their head slot.
 * The last makes the cursor of the enclosing loop jump ahead whenever such
 * a value is not the first one. With the Corrected reporting every value
 * reports its head size and value i is read at the sum of the head sizes
 * before it, which is the ABI's head layout.
 */
module HeadLayout {
  import opened Wrappers
  import opened Primitives
  import opened AbiTypes
  import opened DecodingSpec
  import opened DecodingProperties
  import opened ScalarDecoding

  /** What a dynamic value reports as consumed, branch by branch. */
  lemma DynamicConsumption(mode: Mode, t: ParamType, data: seq<byte>, pointer: nat, v: Value, consumed: nat)
    requires WellFormed(t) && !IsStatic(t) && DecodeSingle(mode, t, data, pointer) == Some((v, consumed))
    ensures consumed ==
      if mode == Corrected || t.String? || t.DynamicBytes? || (t.Array? && t.length == 0 && IsStatic(t.elementType))
      then 32
      else pointer + 32
  {
    var (payload, next) := FollowTheData(t, data, pointer).value;
    assert DecodeSingle(mode, t, data, pointer) == DecodePayload(mode, t, payload, next);
    if t.Tuple? {
      assert DecodePayload(mode, t, payload, next) == DecodeTuple(mode, t, payload, next);
    } else if t.Array? {
      assert DecodePayload(mode, t, payload, next) == DecodeArray(mode, t, payload, next);
    }
  }

  /** With the Corrected reporting, every value reports exactly its head size. */
  lemma CorrectedConsumption(t: ParamType, data: seq<byte>, pointer: nat, v: Value, consumed: nat)
    requires WellFormed(t) && DecodeSingle(Corrected, t, data, pointer) == Some((v, consumed))
    ensures consumed == MemoryUsage(t)
  {
    if IsStatic(t) {
      SingleShape(Corrected, t, data, pointer, v, consumed);
    } else {
      DynamicConsumption(Corrected, t, data, pointer, v, consumed);
    }
  }

  /** The head sizes of the first i + 1 types: the first one's, then those of the next i. */
  lemma SumPrefix(ts: seq<ParamType>, i: nat)
    requires 0 < i <= |ts|
    ensures SumMemoryUsage(ts[..i]) == MemoryUsage(ts[0]) + SumMemoryUsage(ts[1..][..i - 1])
  {
    assert ts[..i][0] == ts[0];
    assert ts[..i][1..] == ts[1..][..i - 1];
  }

  /** Member i of a layout, decoded at its cursor. */
  lemma LayoutAt(mode: Mode, ts: seq<ParamType>, data: seq<byte>, vs: seq<Value>, cs: seq<nat>, i: nat)
    requires AllWellFormed(ts) && Layout(mode, ts, data, vs, cs) && i < |ts|
    ensures cs[i] <= cs[i + 1]
    ensures DecodeSingle(mode, ts[i], data, cs[i]) == Some((vs[i], cs[i + 1] - cs[i]))
  {
    SomePair(DecodeSingle(mode, ts[i], data, cs[i]));
  }

  /** With the Corrected reporting, member i of a layout moves the cursor by its head size. */
  lemma CorrectedStep(ts: seq<ParamType>, data: seq<byte>, vs: seq<Value>, cs: seq<nat>, i: nat)
    requires AllWellFormed(ts) && Layout(Corrected, ts, data, vs, cs) && i < |ts|
    ensures cs[i + 1] == cs[i] + MemoryUsage(ts[i])
    ensures DecodeSingle(Corrected, ts[i], data, cs[i]) == Some((vs[i], MemoryUsage(ts[i])))
  {
    LayoutAt(Corrected, ts, data, vs, cs, i);
    CorrectedConsumption(ts[i], data, cs[i], vs[i], cs[i + 1] - cs[i]);
  }

  /** Cursors that advance by each type's head size are the sums of the head sizes before them. */
  lemma {:induction false} HeadSums(ts: seq<ParamType>, cs: seq<nat>, start: nat)
    requires |cs| == |ts| + 1 && cs[0] == start
    requires forall i | 0 <= i < |ts| :: cs[i + 1] == cs[i] + MemoryUsage(ts[i])
    ensures forall i | 0 <= i <= |ts| :: cs[i] == start + SumMemoryUsage(ts[..i])
  {
    if |ts| > 0 {
      HeadSums(ts[1..], cs[1..], start + MemoryUsage(ts[0]));
      forall i | 0 <= i <= |ts|
        ensures cs[i] == start + SumMemoryUsage(ts[..i])
      {
        if i == 0 {
          assert ts[..0] == [];
        } else {
          SumPrefix(ts, i);
          assert cs[i] == cs[1..][i - 1];
        }
      }
    } else {
      assert ts[..0] == [];
    }
  }

  /**
   * The evidently intended layout: with the Corrected reporting,
   * decode(types:data:) takes value i from the head slot at the sum of the
   * head sizes of the types before it.
   */
  lemma CorrectedHeadLayout(types: seq<ParamType>, data: seq<byte>, vs: seq<Value>)
    requires AllWellFormed(types) && DecodeTypes(Corrected, types, data) == Some(vs)
    ensures |vs| == |types|
    ensures forall i | 0 <= i < |types| ::
      DecodeSingle(Corrected, types[i], data, SumMemoryUsage(types[..i])) == Some((vs[i], MemoryUsage(types[i])))
  {
    DecodeTypesLayout(Corrected, types, data, vs);
    var cs :| Layout(Corrected, types, data, vs, cs) && cs[0] == 0;
    forall i | 0 <= i < |types|
      ensures cs[i + 1] == cs[i] + MemoryUsage(types[i])
      ensures DecodeSingle(Corrected, types[i], data, cs[i]) == Some((vs[i], MemoryUsage(types[i])))
    {
      CorrectedStep(types, data, vs, cs, i);
    }
    HeadSums(types, cs, 0);
  }

  /** (uint256, (string), uint256): heads of 32 bytes each, so the ABI puts the third head at byte 64. */
  const SkipExample: seq<ParamType> := [Uint(256), Tuple([String]), Uint(256)]

  /** The words 7, 64, 32 and 0: SkipExample's first value, the tuple's offset, the string's offset, and its length. */
  const SkipData: seq<byte> := Word(7) + Word(64) + Word(32) + Word(0)

  /** uint256 at a slot: the slot's big-endian value, reporting 32. */
  lemma Uint256At(mode: Mode, data: seq<byte>, pointer: nat)
    requires pointer + 32 <= |data|
    ensures DecodeSingle(mode, Uint(256), data, pointer) == Some((UintValue(BeToNat(data[pointer..pointer + 32])), 32))
  {
    var w := data[pointer..pointer + 32];
    assert w[..32] == w;
    WordBound(w);
    ModOfSmall(BeToNat(w), Pow2(256));
    assert DecodeScalar(mode, Uint(256), w) == Some(UintValue(BeToNat(w)));
    ScalarAt(mode, Uint(256), data, pointer, UintValue(BeToNat(w)));
  }

  /** A string whose head slot points at a zero length word just after it decodes to the empty string. */
  lemma EmptyStringAt(mode: Mode, payload: seq<byte>)
    requires |payload| == 64 && BeToNat(payload[..32]) == 32 && BeToNat(payload[32..]) == 0
    ensures DecodeSingle(mode, String, payload, 0) == Some((StringValue([]), 32))
  {
    assert payload[0..32] == payload[..32];
    assert FollowTheData(String, payload, 0) == Some((payload[32..], 32));
    assert payload[32..][..32] == payload[32..];
    assert payload[32..][32..32] == [];
  }

  /** The head slot at byte 32 of a buffer laid out like SkipData points at byte 64. */
  lemma SkipTupleFollow(data: seq<byte>)
    requires |data| == 128 && BeToNat(data[32..64]) == 64
    ensures FollowTheData(Tuple([String]), data, 32) == Some((data[64..], 64))
  {
    assert Tuple([String]).types[0] == String;
    assert HeadOffset(data, 32) == 64;
  }

  /** The members of (string) over a payload whose string is empty. */
  lemma EmptyStringMembers(mode: Mode, payload: seq<byte>)
    requires |payload| == 64 && BeToNat(payload[..32]) == 32 && BeToNat(payload[32..]) == 0
    ensures DecodeMembers(mode, [String], payload, 0) == Some(([StringValue([])], 32))
  {
    EmptyStringAt(mode, payload);
    MembersUnfold(mode, [String], payload, 0, StringValue([]), 32);
    assert [String][1..] == [];
    assert DecodeMembers(mode, [], payload, 32) == Some(([], 32));
    assert [StringValue([])] + [] == [StringValue([])];
  }

  /** The dynamic tuple (string) of SkipExample, read at byte 32 of a buffer laid out like SkipData. */
  lemma SkipTupleAt(mode: Mode, data: seq<byte>)
    requires |data| == 128 && BeToNat(data[32..64]) == 64 && BeToNat(data[64..96]) == 32 && BeToNat(data[96..]) == 0
    ensures DecodeSingle(mode, Tuple([String]), data, 32) ==
            Some((ListValue([StringValue([])]), if mode == AsWritten then 64 else 32))
  {
    var t := Tuple([String]);
    assert t.types[0] == String && !IsStatic(t);
    var payload := data[64..];
    SkipTupleFollow(data);
    assert payload[..32] == data[64..96] && payload[32..] == data[96..];
    EmptyStringMembers(mode, payload);
    assert DecodeSingle(mode, t, data, 32) == DecodeTuple(mode, t, payload, 64);
  }

  /**
   * SkipExample over a buffer laid out like SkipData, as written: the third
   * value is read at byte 96, the string's length word 0.
   */
  lemma SkipLayoutAsWritten(data: seq<byte>)
    requires |data| == 128 && BeToNat(data[..32]) == 7 && BeToNat(data[32..64]) == 64
    requires BeToNat(data[64..96]) == 32 && BeToNat(data[96..]) == 0
    ensures DecodeTypes(AsWritten, SkipExample, data) ==
            Some([UintValue(7), ListValue([StringValue([])]), UintValue(0)])
  {
    SkipValuesAsWritten(data);
    ThreeMembers(AsWritten, Uint(256), Tuple([String]), Uint(256), data, UintValue(7), ListValue([StringValue([])]), UintValue(0), 32, 64, 32);
  }

  /**
   * The same buffer, corrected: the third value is read at byte 64, the
   * string's offset word 32, where the ABI puts the third head.
   */
  lemma SkipLayoutCorrected(data: seq<byte>)
    requires |data| == 128 && BeToNat(data[..32]) == 7 && BeToNat(data[32..64]) == 64
    requires BeToNat(data[64..96]) == 32 && BeToNat(data[96..]) == 0
    ensures DecodeTypes(Corrected, SkipExample, data) ==
            Some([UintValue(7), ListValue([StringValue([])]), UintValue(32)])
  {
    SkipValuesCorrected(data);
    ThreeMembers(Corrected, Uint(256), Tuple([String]), Uint(256), data, UintValue(7), ListValue([StringValue([])]), UintValue(32), 32, 32, 32);
  }

  /** The three values of SkipExample as written: 7 at byte 0, [""] at byte 32 reporting 64, and 0 at byte 96. */
  lemma SkipValuesAsWritten(data: seq<byte>)
    requires |data| == 128 && BeToNat(data[..32]) == 7 && BeToNat(data[32..64]) == 64
    requires BeToNat(data[64..96]) == 32 && BeToNat(data[96..]) == 0
    ensures DecodesTo(AsWritten, Uint(256), data, 0, UintValue(7), 32)
    ensures DecodesTo(AsWritten, Tuple([String]), data, 32, ListValue([StringValue([])]), 64)
    ensures DecodesTo(AsWritten, Uint(256), data, 96, UintValue(0), 32)
  {
    EndWords(data);
    UintWordAt(AsWritten, Uint(256), data, 0, 7);
    SkipTupleAt(AsWritten, data);
    UintWordAt(AsWritten, Uint(256), data, 96, 0);
  }

  /** The three values of SkipExample corrected: 7 at byte 0, [""] at byte 32 reporting 32, and 32 at byte 64. */
  lemma SkipValuesCorrected(data: seq<byte>)
    requires |data| == 128 && BeToNat(data[..32]) == 7 && BeToNat(data[32..64]) == 64
    requires BeToNat(data[64..96]) == 32 && BeToNat(data[96..]) == 0
    ensures DecodesTo(Corrected, Uint(256), data, 0, UintValue(7), 32)
    ensures DecodesTo(Corrected, Tuple([String]), data, 32, ListValue([StringValue([])]), 32)
    ensures DecodesTo(Corrected, Uint(256), data, 64, UintValue(32), 32)
  {
    EndWords(data);
    UintWordAt(Corrected, Uint(256), data, 0, 7);
    SkipTupleAt(Corrected, data);
    UintWordAt(Corrected, Uint(256), data, 64, 32);
  }

  /** The first and last words of a 128-byte buffer, as slices from 0 and to 128. */
  lemma EndWords(data: seq<byte>)
    requires |data| == 128
    ensures data[0..32] == data[..32] && data[96..128] == data[96..]
  {
  }

  /** A uint256 member whose slot holds n decodes to n. */
  lemma UintWordAt(mode: Mode, t: ParamType, data: seq<byte>, pointer: nat, n: nat)
    requires t == Uint(256) && pointer + 32 <= |data| && BeToNat(data[pointer..pointer + 32]) == n
    ensures DecodesTo(mode, t, data, pointer, UintValue(n), 32)
  {
    Uint256At(mode, data, pointer);
  }

  /** t is well formed and decodes at pointer to v, reporting consumed. */
  predicate DecodesTo(mode: Mode, t: ParamType, data: seq<byte>, pointer: nat, v: Value, consumed: nat) {
    WellFormed(t) && DecodeSingle(mode, t, data, pointer) == Some((v, consumed))
  }

  /** ts are well formed and their member loop from cursor yields vs, ending at end. */
  predicate MembersTo(mode: Mode, ts: seq<ParamType>, data: seq<byte>, cursor: nat, vs: seq<Value>, end: nat) {
    AllWellFormed(ts) && DecodeMembers(mode, ts, data, cursor) == Some((vs, end))
  }

  /** Three values decoded one after another from cursor 0 are what decode(types:data:) yields. */
  lemma ThreeMembers(mode: Mode, t0: ParamType, t1: ParamType, t2: ParamType, data: seq<byte>,
                     v0: Value, v1: Value, v2: Value, k0: nat, k1: nat, k2: nat)
    requires DecodesTo(mode, t0, data, 0, v0, k0)
    requires DecodesTo(mode, t1, data, k0, v1, k1)
    requires DecodesTo(mode, t2, data, k0 + k1, v2, k2)
    ensures AllWellFormed([t0, t1, t2])
    ensures DecodeTypes(mode, [t0, t1, t2], data) == Some([v0, v1, v2])
  {
    var end := k0 + k1 + k2;
    LastMember(mode, t2, data, k0 + k1, v2, k2, end);
    PrependMember(mode, t1, [t2], data, k0, v1, k1, k0 + k1, [v2], end);
    PrependMember(mode, t0, [t1] + [t2], data, 0, v0, k0, k0, [v1] + [v2], end);
    assert [t0] + ([t1] + [t2]) == [t0, t1, t2];
    assert [v0] + ([v1] + [v2]) == [v0, v1, v2];
    TypesFromMembers(mode, [t0, t1, t2], data, [v0, v1, v2], end);
  }

  /** decode(types:data:) keeps the member loop's values when there is one per type. */
  lemma TypesFromMembers(mode: Mode, ts: seq<ParamType>, data: seq<byte>, vs: seq<Value>, end: nat)
    requires MembersTo(mode, ts, data, 0, vs, end) && |vs| == |ts|
    ensures AllWellFormed(ts)
    ensures DecodeTypes(mode, ts, data) == Some(vs)
  {
  }

  /** The member loop over `[t] + tail`: the value of `t`, then the loop over `tail`. */
  lemma PrependMember(mode: Mode, t: ParamType, tail: seq<ParamType>, data: seq<byte>, cursor: nat,
                      v: Value, consumed: nat, next: nat, rest: seq<Value>, end: nat)
    requires DecodesTo(mode, t, data, cursor, v, consumed) && next == cursor + consumed
    requires MembersTo(mode, tail, data, next, rest, end)
    ensures MembersTo(mode, [t] + tail, data, cursor, [v] + rest, end)
  {
    var ts := [t] + tail;
    assert ts[0] == t && ts[1..] == tail;
    MembersUnfold(mode, ts, data, cursor, v, consumed);
  }

  /** The member loop over one type. */
  lemma LastMember(mode: Mode, t: ParamType, data: seq<byte>, cursor: nat, v: Value, consumed: nat, end: nat)
    requires DecodesTo(mode, t, data, cursor, v, consumed) && end == cursor + consumed
    ensures MembersTo(mode, [t], data, cursor, [v], end)
  {
    var ts := [t];
    assert ts[0] == t && ts[1..] == [];
    MembersUnfold(mode, ts, data, cursor, v, consumed);
    assert DecodeMembers(mode, [], data, cursor + consumed) == Some(([], cursor + consumed));
    assert [v] + [] == [v];
  }

  /** The four words of a 128-byte buffer. */
  lemma FourWords(a: seq<byte>, b: seq<byte>, c: seq<byte>, d: seq<byte>)
    requires |a| == 32 && |b| == 32 && |c| == 32 && |d| == 32
    ensures var p := a + b + c + d;
      |p| == 128 && p[..32] == a && p[32..64] == b && p[64..96] == c && p[96..] == d
  {
    var p := a + b + c + d;
    assert p[..32] == a && p[32..64] == b && p[64..96] == c && p[96..] == d;
  }

  /**
   * The input of the skip finding decodes in both modes: as written to
   * [7, [""], 0], reading its third value from the string's length word;
   * corrected to [7, [""], 32], reading it from the third head slot.
   */
  lemma SkipExampleDecodes()
    ensures DecodeTypes(AsWritten, SkipExample, SkipData) ==
            Some([UintValue(7), ListValue([StringValue([])]), UintValue(0)])
    ensures DecodeTypes(Corrected, SkipExample, SkipData) ==
            Some([UintValue(7), ListValue([StringValue([])]), UintValue(32)])
  {
    Pow2Monotone(7, 256);
    assert Pow2(7) == 128;
    WordValue(7);
    WordValue(64);
    WordValue(32);
    WordValue(0);
    FourWords(Word(7), Word(64), Word(32), Word(0));
    SkipLayoutAsWritten(SkipData);
    SkipLayoutCorrected(SkipData);
  }

  /** A static member moves the cursor by its head size, whatever the reporting. */
  lemma StaticStep(mode: Mode, ts: seq<ParamType>, data: seq<byte>, vs: seq<Value>, cs: seq<nat>, i: nat)
    requires AllWellFormed(ts) && Layout(mode, ts, data, vs, cs) && i < |ts| && IsStatic(ts[i])
    ensures cs[i + 1] == cs[i] + MemoryUsage(ts[i])
  {
    LayoutAt(mode, ts, data, vs, cs, i);
    SingleShape(mode, ts[i], data, cs[i], vs[i], cs[i + 1] - cs[i]);
  }

  /** As written, a dynamic tuple read at cursor c moves the cursor to 2c + 32. */
  lemma AsWrittenTupleStep(ts: seq<ParamType>, data: seq<byte>, vs: seq<Value>, cs: seq<nat>, i: nat)
    requires AllWellFormed(ts) && Layout(AsWritten, ts, data, vs, cs) && i < |ts|
    requires ts[i].Tuple? && !IsStatic(ts[i])
    ensures cs[i + 1] == 2 * cs[i] + 32
  {
    LayoutAt(AsWritten, ts, data, vs, cs, i);
    DynamicConsumption(AsWritten, ts[i], data, cs[i], vs[i], cs[i + 1] - cs[i]);
  }

  /**
   * As written, when the first type has a 32-byte static head and the second
   * is a dynamic tuple, decode(types:data:) reads the third value at byte
   * 96: the tuple, read at cursor 32, reports 32 + 32 consumed.
   */
  lemma AsWrittenThirdHead(ts: seq<ParamType>, data: seq<byte>, vs: seq<Value>)
    requires AllWellFormed(ts) && |ts| >= 3
    requires IsStatic(ts[0]) && MemoryUsage(ts[0]) == 32 && ts[1].Tuple? && !IsStatic(ts[1])
    requires DecodeTypes(AsWritten, ts, data) == Some(vs)
    ensures |vs| == |ts|
    ensures DecodeSingle(AsWritten, ts[2], data, 96).Some? && DecodeSingle(AsWritten, ts[2], data, 96).value.0 == vs[2]
  {
    DecodeTypesLayout(AsWritten, ts, data, vs);
    var cs :| Layout(AsWritten, ts, data, vs, cs) && cs[0] == 0;
    StaticStep(AsWritten, ts, data, vs, cs, 0);
    AsWrittenTupleStep(ts, data, vs, cs, 1);
  }

  /** With the Corrected reporting, the same decode reads the third value at byte 64. */
  lemma CorrectedThirdHead(ts: seq<ParamType>, data: seq<byte>, vs: seq<Value>)
    requires AllWellFormed(ts) && |ts| >= 3
    requires IsStatic(ts[0]) && MemoryUsage(ts[0]) == 32 && ts[1].Tuple? && !IsStatic(ts[1])
    requires DecodeTypes(Corrected, ts, data) == Some(vs)
    ensures |vs| == |ts|
    ensures DecodeSingle(Corrected, ts[2], data, 64) == Some((vs[2], MemoryUsage(ts[2])))
  {
    CorrectedHeadLayout(ts, data, vs);
    SecondHeadEnd(ts);
    assert DecodeSingle(Corrected, ts[2], data, SumMemoryUsage(ts[..2])) == Some((vs[2], MemoryUsage(ts[2])));
  }

  /** A 32-byte static head followed by a dynamic one: the third head starts at byte 64. */
  lemma SecondHeadEnd(ts: seq<ParamType>)
    requires AllWellFormed(ts) && |ts| >= 3
    requires IsStatic(ts[0]) && MemoryUsage(ts[0]) == 32 && ts[1].Tuple? && !IsStatic(ts[1])
    ensures SumMemoryUsage(ts[..2]) == 64
  {
    SumPrefix(ts, 2);
    assert ts[1..][..1][1..] == [];
  }
}
