/**
 * What decodeLog promises: it returns nil exactly when the signature topic
 * does not match a non-anonymous event, the topics are not one per indexed
 * input plus the signature, or some input fails to decode; otherwise every
 * key of its dictionary holds what the last step of its loop that wrote
 * that key stored, and that is the value the input decodes to on its own.
 */
module EventLogProperties {
  import opened Wrappers
  import opened Primitives
  import opened AbiTypes
  import opened DecodingSpec
  import opened EventLogDecoding

  /**
   * The value input i decodes to on its own: from topic 1 + k when it is
   * the k-th indexed input, or as the k-th value of the non-indexed inputs
   * decoded together from the data.
   */
  function DecodedInput(mode: Mode, event: Event, log: EventLog, i: nat): Option<Value>
    requires InputsWellFormed(event.inputs) && i < |event.inputs|
  {
    var inputs := event.inputs;
    if inputs[i].indexed then
      var k := |Indexed(inputs[..i])|;
      if 1 + k < |log.topics| then
        (match DecodeSingle(mode, TopicType(inputs[i].paramType), log.topics[1 + k], 0)
         case None => None
         case Some((v, _)) => Some(v))
      else None
    else
      var k := |NonIndexed(inputs[..i])|;
      match DecodeTypes(mode, Types(NonIndexed(inputs)), log.data)
      case None => None
      case Some(nv) => if k < |nv| then Some(nv[k]) else None
  }

  /** The last of the first k steps of the dictionary loop that writes `key`, if any. */
  function LastWriter(inputs: seq<EventInput>, k: nat, key: string): (r: Option<nat>)
    requires k <= |inputs|
    ensures r.Some? ==> r.value < k
  {
    if k == 0 then None
    else if Writes(inputs, k - 1, key) then Some(k - 1)
    else LastWriter(inputs, k - 1, key)
  }

  /** The last writer writes `key` and no step after it does; without one, no step does. */
  lemma {:induction false} LastWriterIsLast(inputs: seq<EventInput>, k: nat, key: string)
    requires k <= |inputs|
    ensures var w := LastWriter(inputs, k, key);
      (w.Some? ==> Writes(inputs, w.value, key) && forall j | w.value < j < k :: !Writes(inputs, j, key)) &&
      (w.None? ==> forall j | 0 <= j < k :: !Writes(inputs, j, key))
  {
    if k > 0 && !Writes(inputs, k - 1, key) {
      LastWriterIsLast(inputs, k - 1, key);
    }
  }

  /** `key` holds in m what writer w stored, or the event's name under "name" when nothing wrote it, and is absent otherwise. */
  predicate HoldsLastWrite(event: Event, vals: seq<Value>, m: map<string, Entry>, w: Option<nat>, key: string)
    requires w.Some? ==> w.value < |vals|
  {
    (key in m <==> key == "name" || w.Some?) &&
    (w.Some? ==> m[key] == Param(vals[w.value])) &&
    (w.None? && key == "name" ==> m[key] == EventName(event.name))
  }

  /** After k steps, a key holds what its last writer stored, or the event's name under "name". */
  lemma {:induction false} FilledLastWriter(event: Event, vals: seq<Value>, k: nat, key: string)
    requires k <= |event.inputs| == |vals|
    ensures HoldsLastWrite(event, vals, Filled(event, vals, k), LastWriter(event.inputs, k, key), key)
  {
    if k > 0 {
      FilledLastWriter(event, vals, k - 1, key);
      LastWriterStep(event, vals, k, key);
    }
  }

  /** One step of the dictionary loop keeps HoldsLastWrite. */
  lemma LastWriterStep(event: Event, vals: seq<Value>, k: nat, key: string)
    requires 0 < k <= |event.inputs| == |vals|
    requires HoldsLastWrite(event, vals, Filled(event, vals, k - 1), LastWriter(event.inputs, k - 1, key), key)
    ensures HoldsLastWrite(event, vals, Filled(event, vals, k), LastWriter(event.inputs, k, key), key)
  {
    FilledStep(event, vals, k, key);
    if !Writes(event.inputs, k - 1, key) {
      assert LastWriter(event.inputs, k, key) == LastWriter(event.inputs, k - 1, key);
    }
  }

  /** Step k of the dictionary loop sets `key` when it writes it, and leaves it alone otherwise. */
  lemma FilledStep(event: Event, vals: seq<Value>, k: nat, key: string)
    requires 0 < k <= |event.inputs| == |vals|
    ensures var m := Filled(event, vals, k);
      var prev := Filled(event, vals, k - 1);
      if Writes(event.inputs, k - 1, key) then
        key in m && m[key] == Param(vals[k - 1])
      else
        (key in m <==> key in prev) && (key in prev ==> m[key] == prev[key])
  {
  }

  /** The indexed values, one by one: value k is what topic k decodes to. */
  lemma {:induction false} IndexedValuesAt(mode: Mode, indexed: seq<EventInput>, topics: seq<seq<byte>>, iv: seq<Value>, k: nat)
    requires |topics| == |indexed| && InputsWellFormed(indexed) && k < |indexed|
    requires IndexedValues(mode, indexed, topics) == Some(iv)
    ensures DecodeSingle(mode, TopicType(indexed[k].paramType), topics[k], 0).Some?
    ensures DecodeSingle(mode, TopicType(indexed[k].paramType), topics[k], 0).value.0 == iv[k]
  {
    var d := DecodeSingle(mode, TopicType(indexed[0].paramType), topics[0], 0);
    SomePair(d);
    var rest := IndexedValues(mode, indexed[1..], topics[1..]);
    assert iv == [d.value.0] + rest.value;
    if k > 0 {
      IndexedValuesAt(mode, indexed[1..], topics[1..], rest.value, k - 1);
      assert indexed[1..][k - 1] == indexed[k] && topics[1..][k - 1] == topics[k];
    }
  }

  /** The indexed values succeed exactly when every topic decodes as its input's topic type. */
  lemma {:induction false} IndexedValuesAll(mode: Mode, indexed: seq<EventInput>, topics: seq<seq<byte>>)
    requires |topics| == |indexed| && InputsWellFormed(indexed)
    ensures IndexedValues(mode, indexed, topics).Some? <==>
            forall k | 0 <= k < |indexed| :: DecodeSingle(mode, TopicType(indexed[k].paramType), topics[k], 0).Some?
  {
    if |indexed| > 0 {
      IndexedValuesAll(mode, indexed[1..], topics[1..]);
      forall k | 0 < k < |indexed|
        ensures indexed[1..][k - 1] == indexed[k] && topics[1..][k - 1] == topics[k]
      {
      }
      if IndexedValues(mode, indexed, topics).Some? {
        IndexedValuesAt(mode, indexed, topics, IndexedValues(mode, indexed, topics).value, 0);
      }
    }
  }

  lemma NonIndexedWellFormed(inputs: seq<EventInput>)
    requires InputsWellFormed(inputs)
    ensures AllWellFormed(Types(NonIndexed(inputs)))
  {
  }

  /** On success, the value the loop stores for input i is the one it decodes to on its own. */
  lemma ValueAtIsDecoded(mode: Mode, event: Event, log: EventLog, iv: seq<Value>, nv: seq<Value>, i: nat)
    requires InputsWellFormed(event.inputs) && i < |event.inputs|
    requires |log.topics| == |Indexed(event.inputs)| + 1
    requires IndexedValues(mode, Indexed(event.inputs), log.topics[1..]) == Some(iv)
    requires AllWellFormed(Types(NonIndexed(event.inputs)))
    requires DecodeTypes(mode, Types(NonIndexed(event.inputs)), log.data) == Some(nv)
    ensures DecodedInput(mode, event, log, i) == Some(ValueAt(event.inputs, i, iv, nv))
  {
    var inputs := event.inputs;
    FilterPosition(inputs, i);
    if inputs[i].indexed {
      var k := |Indexed(inputs[..i])|;
      IndexedValuesAt(mode, Indexed(inputs), log.topics[1..], iv, k);
      assert log.topics[1..][k] == log.topics[1 + k];
      SomePair(DecodeSingle(mode, TopicType(inputs[i].paramType), log.topics[1 + k], 0));
    }
  }

  /**
   * Every key of a decoded log holds what the last input that wrote it (by
   * position or by non-empty name) decodes to; "name" holds the event's
   * name unless an input wrote it; no other key is present.
   */
  lemma DecodeLogEntries(mode: Mode, event: Event, log: EventLog, key: string)
    requires |log.topics| > 0 && InputsWellFormed(event.inputs)
    requires DecodeLogSpec(mode, event, log).Some?
    ensures var m := DecodeLogSpec(mode, event, log).value;
      var w := LastWriter(event.inputs, |event.inputs|, key);
      (key in m <==> key == "name" || w.Some?) &&
      (w.Some? ==> DecodedInput(mode, event, log, w.value).Some? &&
                   m[key] == Param(DecodedInput(mode, event, log, w.value).value)) &&
      (w.None? && key == "name" ==> m[key] == EventName(event.name))
  {
    var inputs := event.inputs;
    NonIndexedWellFormed(inputs);
    var iv := IndexedValues(mode, Indexed(inputs), log.topics[1..]).value;
    var nv := DecodeTypes(mode, Types(NonIndexed(inputs)), log.data).value;
    var vals := InputValues(inputs, iv, nv);
    assert DecodeLogSpec(mode, event, log).value == Filled(event, vals, |inputs|);
    FilledLastWriter(event, vals, |inputs|, key);
    var w := LastWriter(inputs, |inputs|, key);
    if w.Some? {
      ValueAtIsDecoded(mode, event, log, iv, nv, w.value);
    }
  }

  /** Decimal renderings are all digits, so none of them is "name". */
  lemma DecimalIsNotName(j: nat)
    ensures Decimal(j) != "name"
  {
    assert "name"[0] == 'n';
  }

  /** A decimal rendering has one digit exactly for the numbers below 10. */
  lemma DecimalLength(n: nat)
    ensures n < 10 <==> |Decimal(n)| == 1
  {
    if n >= 10 {
      assert |Decimal(n)| == |Decimal(n / 10)| + 1;
    }
  }

  /** Distinct numbers have distinct decimal renderings. */
  lemma {:induction false} DecimalInjective(a: nat, b: nat)
    requires Decimal(a) == Decimal(b)
    ensures a == b
  {
    var s := Decimal(a);
    assert s[|s| - 1] == (48 + a % 10) as char && s[|s| - 1] == (48 + b % 10) as char;
    DecimalLength(a);
    DecimalLength(b);
    if a >= 10 {
      assert Decimal(a / 10) == s[..|s| - 1] == Decimal(b / 10);
      DecimalInjective(a / 10, b / 10);
    }
  }

  /**
   * On success, "name" maps to the event's name when no input is called
   * "name"; position keys never overwrite it.
   */
  lemma DecodeLogName(mode: Mode, event: Event, log: EventLog)
    requires |log.topics| > 0 && InputsWellFormed(event.inputs)
    requires DecodeLogSpec(mode, event, log).Some?
    requires forall j | 0 <= j < |event.inputs| :: event.inputs[j].name != "name"
    ensures "name" in DecodeLogSpec(mode, event, log).value
    ensures DecodeLogSpec(mode, event, log).value["name"] == EventName(event.name)
  {
    DecodeLogEntries(mode, event, log, "name");
    var w := LastWriter(event.inputs, |event.inputs|, "name");
    LastWriterIsLast(event.inputs, |event.inputs|, "name");
    if w.Some? {
      DecimalIsNotName(w.value);
    }
  }

  /**
   * On success, the decimal position of input i maps to what input i
   * decodes to, unless a later input is named with that decimal.
   */
  lemma DecodeLogPosition(mode: Mode, event: Event, log: EventLog, i: nat)
    requires |log.topics| > 0 && InputsWellFormed(event.inputs) && i < |event.inputs|
    requires DecodeLogSpec(mode, event, log).Some?
    requires forall j | i < j < |event.inputs| :: event.inputs[j].name != Decimal(i)
    ensures DecodedInput(mode, event, log, i).Some?
    ensures Decimal(i) in DecodeLogSpec(mode, event, log).value
    ensures DecodeLogSpec(mode, event, log).value[Decimal(i)] == Param(DecodedInput(mode, event, log, i).value)
  {
    var inputs := event.inputs;
    DecodeLogEntries(mode, event, log, Decimal(i));
    var w := LastWriter(inputs, |inputs|, Decimal(i));
    LastWriterIsLast(inputs, |inputs|, Decimal(i));
    assert Writes(inputs, i, Decimal(i));
    if w.value != i {
      assert i < w.value;
      DecimalInjective(i, w.value);
    }
  }

  /**
   * decodeLog succeeds exactly when the event is anonymous or its signature
   * matches the first topic, there is one more topic than indexed inputs,
   * and every input decodes on its own. The separate check for a log with
   * only the signature topic and some indexed inputs rejects nothing the
   * topic count does not.
   */
  lemma DecodeLogSucceeds(mode: Mode, event: Event, log: EventLog)
    requires |log.topics| > 0 && InputsWellFormed(event.inputs)
    ensures DecodeLogSpec(mode, event, log).Some? <==>
      (event.anonymous || event.topic == log.topics[0]) &&
      |log.topics| == |Indexed(event.inputs)| + 1 &&
      forall i | 0 <= i < |event.inputs| :: DecodedInput(mode, event, log, i).Some?
  {
    var inputs := event.inputs;
    NonIndexedWellFormed(inputs);
    var indexed := Indexed(inputs);
    var types := Types(NonIndexed(inputs));
    if (event.anonymous || event.topic == log.topics[0]) && |log.topics| == |indexed| + 1 {
      var topics := log.topics[1..];
      var ivs := IndexedValues(mode, indexed, topics);
      var nvs := DecodeTypes(mode, types, log.data);
      if ivs.Some? && nvs.Some? {
        forall i | 0 <= i < |inputs|
          ensures DecodedInput(mode, event, log, i).Some?
        {
          ValueAtIsDecoded(mode, event, log, ivs.value, nvs.value, i);
        }
      } else if ivs.None? {
        var i := IndexedFailure(mode, event, log);
      } else {
        var i := NonIndexedFailure(mode, event, log);
      }
    }
  }

  /** When a topic does not decode, some indexed input does not decode on its own. */
  lemma IndexedFailure(mode: Mode, event: Event, log: EventLog) returns (i: nat)
    requires InputsWellFormed(event.inputs) && |log.topics| == |Indexed(event.inputs)| + 1
    requires IndexedValues(mode, Indexed(event.inputs), log.topics[1..]).None?
    ensures i < |event.inputs| && DecodedInput(mode, event, log, i).None?
  {
    var indexed := Indexed(event.inputs);
    var topics := log.topics[1..];
    IndexedValuesAll(mode, indexed, topics);
    var k :| 0 <= k < |indexed| && DecodeSingle(mode, TopicType(indexed[k].paramType), topics[k], 0).None?;
    i := IndexedSource(event.inputs, k);
    assert topics[k] == log.topics[1 + k];
  }

  /** When the data does not decode, the first non-indexed input does not decode on its own. */
  lemma NonIndexedFailure(mode: Mode, event: Event, log: EventLog) returns (i: nat)
    requires InputsWellFormed(event.inputs)
    requires DecodeTypes(mode, Types(NonIndexed(event.inputs)), log.data).None?
    ensures i < |event.inputs| && DecodedInput(mode, event, log, i).None?
  {
    NonIndexedWellFormed(event.inputs);
    DecodeTypesFailsOnSome(mode, Types(NonIndexed(event.inputs)), log.data);
    i := NonIndexedSource(event.inputs, 0);
  }

  /** decode(types:data:) only fails when there is a type to fail on. */
  lemma DecodeTypesFailsOnSome(mode: Mode, types: seq<ParamType>, data: seq<byte>)
    requires AllWellFormed(types) && DecodeTypes(mode, types, data).None?
    ensures |types| > 0
  {
  }

  /** The input the k-th indexed input comes from, and the k indexed inputs before it. */
  lemma {:induction false} IndexedSource(s: seq<EventInput>, k: nat) returns (i: nat)
    requires k < |Indexed(s)|
    ensures i < |s| && s[i].indexed && |Indexed(s[..i])| == k && Indexed(s)[k] == s[i]
  {
    var last := |s| - 1;
    FilterStep(s, last);
    assert s[..last + 1] == s;
    if k < |Indexed(s[..last])| {
      i := IndexedSource(s[..last], k);
      assert s[..last][..i] == s[..i];
    } else {
      i := last;
    }
  }

  /** The input the k-th non-indexed input comes from, and the k non-indexed inputs before it. */
  lemma {:induction false} NonIndexedSource(s: seq<EventInput>, k: nat) returns (i: nat)
    requires k < |NonIndexed(s)|
    ensures i < |s| && !s[i].indexed && |NonIndexed(s[..i])| == k && NonIndexed(s)[k] == s[i]
  {
    var last := |s| - 1;
    FilterStep(s, last);
    assert s[..last + 1] == s;
    if k < |NonIndexed(s[..last])| {
      i := NonIndexedSource(s[..last], k);
      assert s[..last][..i] == s[..i];
    } else {
      i := last;
    }
  }

  /**
   * An indexed input of a dynamic type, an array or a type whose head is not
   * one word is read from its topic as bytes(32): the topic's first 32
   * bytes, whenever the topic has them.
   */
  lemma IndexedReferenceTopic(mode: Mode, input: EventInput, topic: seq<byte>)
    requires TopicType(input.paramType) == Bytes(32)
    ensures DecodeSingle(mode, TopicType(input.paramType), topic, 0) ==
            if |topic| >= 32 then Some((DataValue(topic[..32]), 32)) else None
  {
    if |topic| >= 32 {
      assert FollowTheData(Bytes(32), topic, 0) == Some((topic[0..32], 32));
      assert topic[0..32][..32] == topic[..32];
    }
  }
}
