/**
 * The two element loops of decodeSignleType against each other. The loop of
 * a dynamic-size array leaves at the first element that fails and keeps
 * what it decoded before it; the loop of a static-size array fails as a
 * whole. The first yields exactly what the second yields over as many
 * elements as it kept, and the second succeeds exactly when the first
 * keeps every element.
 */
module ElementLoops {
  import opened Wrappers
  import opened Primitives
  import opened AbiTypes
  import opened DecodingSpec

  /**
   * Elements kept by a stop-at-first-failure loop over `count` elements are
   * at most `count`, and an all-or-nothing loop over exactly that many yields
   * them and the same final cursor.
   */
  predicate RepeatsKept(mode: Mode, e: ParamType, data: seq<byte>, cursor: nat, kept: (seq<Value>, nat), count: nat)
    requires WellFormed(e)
  {
    |kept.0| <= count && DecodeRepeat(mode, e, |kept.0|, data, cursor) == Some((kept.0, kept.1))
  }

  /**
   * The elements a dynamic-size array keeps: at most `count`, decoded
   * all-or-nothing as if the array had exactly that many.
   */
  lemma {:induction false} ElementsPrefix(mode: Mode, e: ParamType, count: nat, data: seq<byte>, cursor: nat)
    requires WellFormed(e)
    ensures RepeatsKept(mode, e, data, cursor, DecodeElements(mode, e, count, data, cursor), count)
  {
    if count > 0 {
      var d := DecodeSingle(mode, e, data, cursor);
      if d.Some? {
        SomePair(d);
        var v, consumed := d.value.0, d.value.1;
        ElementsPrefix(mode, e, count - 1, data, cursor + consumed);
        ElementsUnfold(mode, e, count, data, cursor, v, consumed);
        var rest := DecodeElements(mode, e, count - 1, data, cursor + consumed);
        RepeatUnfold(mode, e, |rest.0| + 1, data, cursor, v, consumed);
        PrefixStep(mode, e, data, cursor, consumed, v, DecodeElements(mode, e, count, data, cursor), rest, count);
      } else {
        ElementsNone(mode, e, count, data, cursor);
        assert DecodeRepeat(mode, e, 0, data, cursor) == Some(([], cursor));
      }
    }
  }

  /** The step of ElementsPrefix, on the values involved. */
  lemma PrefixStep(mode: Mode, e: ParamType, data: seq<byte>, cursor: nat, consumed: nat, v: Value,
                   kept: (seq<Value>, nat), rest: (seq<Value>, nat), count: nat)
    requires WellFormed(e) && count > 0 && kept == ([v] + rest.0, rest.1)
    requires RepeatsKept(mode, e, data, cursor + consumed, rest, count - 1)
    requires DecodeRepeat(mode, e, |rest.0| + 1, data, cursor) ==
             Prepend([v], DecodeRepeat(mode, e, |rest.0|, data, cursor + consumed))
    ensures RepeatsKept(mode, e, data, cursor, kept, count)
  {
  }

  /** A loop that kept fewer than `count` elements stopped at one that fails. */
  predicate StopsAtFailure(mode: Mode, e: ParamType, data: seq<byte>, kept: (seq<Value>, nat), count: nat)
    requires WellFormed(e)
  {
    |kept.0| < count ==> DecodeSingle(mode, e, data, kept.1).None?
  }

  /** A dynamic-size array keeps fewer than `count` elements only when the next one fails. */
  lemma {:induction false} ElementsStopAtFailure(mode: Mode, e: ParamType, count: nat, data: seq<byte>, cursor: nat)
    requires WellFormed(e)
    ensures StopsAtFailure(mode, e, data, DecodeElements(mode, e, count, data, cursor), count)
  {
    if count > 0 {
      var d := DecodeSingle(mode, e, data, cursor);
      if d.Some? {
        SomePair(d);
        var v, consumed := d.value.0, d.value.1;
        ElementsStopAtFailure(mode, e, count - 1, data, cursor + consumed);
        ElementsUnfold(mode, e, count, data, cursor, v, consumed);
        var rest := DecodeElements(mode, e, count - 1, data, cursor + consumed);
        var r := DecodeElements(mode, e, count, data, cursor);
        StopStep(mode, e, data, v, r, rest, count);
      } else {
        ElementsNone(mode, e, count, data, cursor);
        assert DecodeElements(mode, e, count, data, cursor).1 == cursor;
      }
    }
  }

  /** The step of ElementsStopAtFailure, on the values involved. */
  lemma StopStep(mode: Mode, e: ParamType, data: seq<byte>, v: Value, kept: (seq<Value>, nat), rest: (seq<Value>, nat), count: nat)
    requires WellFormed(e) && count > 0 && kept == ([v] + rest.0, rest.1)
    requires StopsAtFailure(mode, e, data, rest, count - 1)
    ensures StopsAtFailure(mode, e, data, kept, count)
  {
  }

  /**
   * What an all-or-nothing loop over `count` elements yields against what
   * a stop-at-first-failure loop keeps: success exactly when all `count`
   * were kept, and then the same elements and final cursor.
   */
  predicate AgreeWhenFull(all: Option<(seq<Value>, nat)>, kept: (seq<Value>, nat), count: nat) {
    (all.Some? <==> |kept.0| == count) && (all.Some? ==> all.value == kept)
  }

  /**
   * A static-size array's loop succeeds exactly when a dynamic-size array's
   * loop over the same elements keeps all `count` of them, and then both
   * yield the same elements and the same final cursor.
   */
  lemma {:induction false} RepeatIsFullElements(mode: Mode, e: ParamType, count: nat, data: seq<byte>, cursor: nat)
    requires WellFormed(e)
    ensures AgreeWhenFull(DecodeRepeat(mode, e, count, data, cursor), DecodeElements(mode, e, count, data, cursor), count)
  {
    if count > 0 {
      var d := DecodeSingle(mode, e, data, cursor);
      if d.Some? {
        SomePair(d);
        var v, consumed := d.value.0, d.value.1;
        RepeatIsFullElements(mode, e, count - 1, data, cursor + consumed);
        ElementsUnfold(mode, e, count, data, cursor, v, consumed);
        RepeatUnfold(mode, e, count, data, cursor, v, consumed);
        FullStep(v, DecodeElements(mode, e, count, data, cursor), DecodeElements(mode, e, count - 1, data, cursor + consumed),
                 DecodeRepeat(mode, e, count, data, cursor), DecodeRepeat(mode, e, count - 1, data, cursor + consumed), count);
      } else {
        ElementsNone(mode, e, count, data, cursor);
        RepeatNone(mode, e, count, data, cursor);
        assert DecodeElements(mode, e, count, data, cursor).0 == [];
      }
    }
  }

  /** The step of RepeatIsFullElements, on the values involved. */
  lemma FullStep(v: Value, kept: (seq<Value>, nat), rest: (seq<Value>, nat),
                 all: Option<(seq<Value>, nat)>, restAll: Option<(seq<Value>, nat)>, count: nat)
    requires count > 0 && kept == ([v] + rest.0, rest.1) && all == Prepend([v], restAll)
    requires AgreeWhenFull(restAll, rest, count - 1)
    ensures AgreeWhenFull(all, kept, count)
  {
  }
  /**
   * A dynamic-size array, whatever its element type: it fails only when the
   * count word is missing or, for static elements, when the counted element
   * heads do not fit. An element that fails to decode does not fail the
   * array; it ends it. The items are then the longest run of elements that
   * decode all-or-nothing, at most the count, and the run falls short of the
   * count only at an element that fails. Static elements are read from the
   * payload at 32; dynamic ones from the payload past the count word, at 0.
   */
  lemma DynamicArrayKeepsPrefix(mode: Mode, t: ParamType, payload: seq<byte>, next: nat)
    requires t.Array? && t.length == 0 && WellFormed(t)
    ensures var r := DecodeArray(mode, t, payload, next);
      var e := t.elementType;
      (r.Some? <==> |payload| >= 32 && (IsStatic(e) ==> 32 + MemoryUsage(e) * BeToNat(payload[..32]) <= |payload|)) &&
      (r.Some? ==>
         |payload| >= 32 && r.value.0.ListValue? &&
         var count := BeToNat(payload[..32]);
         var src := if IsStatic(e) then payload else payload[32..];
         var start := if IsStatic(e) then 32 else 0;
         var items := r.value.0.items;
         var run := DecodeRepeat(mode, e, |items|, src, start);
         |items| <= count && run.Some? && run.value.0 == items &&
         (|items| < count ==> DecodeSingle(mode, e, src, run.value.1).None?))
  {
    var e := t.elementType;
    if |payload| >= 32 {
      var count := BeToNat(payload[..32]);
      var src := if IsStatic(e) then payload else payload[32..];
      var start := if IsStatic(e) then 32 else 0;
      ElementsPrefix(mode, e, count, src, start);
      ElementsStopAtFailure(mode, e, count, src, start);
    }
  }

  /** 2 as a word, then the words 1 and 5: a bool[] of count 2 whose second element is not a bool. */
  const ShortBoolArray: seq<byte> := Word(2) + Word(1) + Word(5)

  /** bool at a slot holding a word: true for 1, false for 0, and a failure for anything else. */
  lemma BoolAt(mode: Mode, data: seq<byte>, pointer: nat)
    requires pointer + 32 <= |data|
    ensures var n := BeToNat(data[pointer..pointer + 32]);
      DecodeSingle(mode, Bool, data, pointer) ==
        if n == 1 then Some((BoolValue(true), 32)) else if n == 0 then Some((BoolValue(false), 32)) else None
  {
    assert FollowTheData(Bool, data, pointer) == Some((data[pointer..pointer + 32], pointer + 32));
    assert data[pointer..pointer + 32][..32] == data[pointer..pointer + 32];
  }

  /** A bool[] payload counting 2 elements whose first word is 1 and second word is not a bool. */
  lemma BoolArrayStopsAtSecond(mode: Mode, p: seq<byte>, next: nat)
    requires |p| == 96 && BeToNat(p[..32]) == 2 && BeToNat(p[32..64]) == 1 && BeToNat(p[64..96]) > 1
    ensures DecodeArray(mode, Array(Bool, 0), p, next) == Some((ListValue([BoolValue(true)]), 32))
  {
    BoolAt(mode, p, 32);
    BoolAt(mode, p, 64);
    ElementsUnfold(mode, Bool, 2, p, 32, BoolValue(true), 32);
    ElementsNone(mode, Bool, 1, p, 64);
    assert DecodeElements(mode, Bool, 2, p, 32).0 == [BoolValue(true)];
  }

  /** The three words of a 96-byte payload. */
  lemma ThreeWords(a: seq<byte>, b: seq<byte>, c: seq<byte>)
    requires |a| == 32 && |b| == 32 && |c| == 32
    ensures var p := a + b + c; |p| == 96 && p[..32] == a && p[32..64] == b && p[64..96] == c
  {
    var p := a + b + c;
    assert p[..32] == a && p[32..64] == b && p[64..96] == c;
  }

  /** bool[] over ShortBoolArray keeps its first element and drops the rest, rather than failing. */
  lemma BoolArrayStopsEarly(mode: Mode, next: nat)
    ensures DecodeArray(mode, Array(Bool, 0), ShortBoolArray, next) == Some((ListValue([BoolValue(true)]), 32))
  {
    var p := ShortBoolArray;
    Pow2Monotone(3, 256);
    assert Pow2(3) == 8;
    WordValue(1);
    WordValue(2);
    WordValue(5);
    ThreeWords(Word(2), Word(1), Word(5));
    BoolArrayStopsAtSecond(mode, p, next);
  }
}
